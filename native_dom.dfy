/** The native generation of the DOM: dom/src/index.js and the two files of
    src/native-dom.  Bindings keep their props in an insertion-ordered map
    and skip a `setProp` whose value is already cached (`===`); ids come
    from `++currentId`; commands are only appended, and a polling `process`
    runs one per tick once rendering has started.  Nodes push and filter
    their `children` without sending any command.  The three files are
    told apart by `Generation`; dom/src/index.js alone gives elements
    listeners, `textContent` and `dispatchEvent`. */
module NativeDom {
  import opened JsValues
  import opened DomEvents
  import opened NativeEvents
  import opened ChildOps

  datatype Generation = DomIndex | NativeDomBridge | NativeDomIndex

  /** A queue entry.  The `config`, the live props map and the native ref
      that `create` and `setProp` also pass are not kept. */
  datatype NCommand =
    | NCreate(id: int, localName: string)
    | NSetProp(id: int, key: string, value: Value)
    | NDestroy(id: int)
    | NAppend(id: int, parent: Value)
    | NInsertBefore(id: int, sibling: Value)

  /** A host call `call` makes: `UIManager.updateView` of the raw text
      under the text node's parent, and `setNativeProps` with all props.
      Whether the host refs exist decides whether the call really happens;
      the host is not modelled, so the attempt is recorded. */
  datatype NHostCall =
    | UpdateTextNode(id: int, text: Value)
    | SetNativeProps(id: int, props: seq<(string, Value)>)

  datatype NCallResult = NDone(calls: seq<NHostCall>) | NThrew

  /** What `call` reads about the binding registered under a command's id:
      its type name, its props, and whether `NODES` has a node for it and
      that node a parent. */
  datatype NView = NView(localName: string, entries: seq<(string, Value)>, hasNode: bool, hasParent: bool)

  /** `props.get(key)` on an insertion-ordered map. */
  function LookupEntry(e: seq<(string, Value)>, key: string): Value {
    if e == [] then Undefined
    else if e[0].0 == key then e[0].1
    else LookupEntry(e[1..], key)
  }

  /** The keys present, as a set. */
  function KeySet(e: seq<(string, Value)>): (r: set<string>)
    ensures forall i :: 0 <= i < |e| ==> e[i].0 in r
  {
    if e == [] then {} else {e[0].0} + KeySet(e[1..])
  }

  /** No key occurs twice, as in a `Map`. */
  predicate KeysDistinct(e: seq<(string, Value)>) {
    e == [] || (e[0].0 !in KeySet(e[1..]) && KeysDistinct(e[1..]))
  }

  /** `props.set(key, value)`: a present key keeps its place, a new one goes
      at the end. */
  function SetEntry(e: seq<(string, Value)>, key: string, value: Value): (r: seq<(string, Value)>)
    ensures LookupEntry(r, key) == value
    ensures forall k :: k != key ==> LookupEntry(r, k) == LookupEntry(e, k)
    ensures KeySet(r) == KeySet(e) + {key}
    ensures KeysDistinct(e) ==> KeysDistinct(r)
    ensures key in KeySet(e) ==> |r| == |e|
    ensures key !in KeySet(e) ==> r == e + [(key, value)]
    ensures forall i :: 0 <= i < |e| ==> r[i].0 == e[i].0
  {
    if e == [] then [(key, value)]
    else if e[0].0 == key then [(key, value)] + e[1..]
    else [e[0]] + SetEntry(e[1..], key, value)
  }

  /** `props.delete(key)`. */
  function DeleteEntry(e: seq<(string, Value)>, key: string): (r: seq<(string, Value)>)
    ensures LookupEntry(r, key) == Undefined
    ensures forall k :: k != key ==> LookupEntry(r, k) == LookupEntry(e, k)
    ensures |r| <= |e|
    ensures forall i :: 0 <= i < |r| ==> r[i] in e
    ensures KeySet(r) == KeySet(e) - {key}
  {
    if e == [] then []
    else if e[0].0 == key then DeleteEntry(e[1..], key)
    else [e[0]] + DeleteEntry(e[1..], key)
  }

  /** Where `key` sits in the entries, -1 when absent. */
  function KeyIndex(e: seq<(string, Value)>, key: string): (p: int)
    ensures -1 <= p < |e|
    ensures p == -1 <==> key !in KeySet(e)
    ensures p >= 0 ==> e[p].0 == key
  {
    if e == [] then -1
    else if e[0].0 == key then 0
    else var p := KeyIndex(e[1..], key); if p == -1 then -1 else p + 1
  }

  /** `delete` on a `Map` keeps its keys distinct. */
  lemma {:induction false} DeleteKeepsDistinct(e: seq<(string, Value)>, key: string)
    requires KeysDistinct(e)
    ensures KeysDistinct(DeleteEntry(e, key))
  {
    if e != [] {
      DeleteKeepsDistinct(e[1..], key);
    }
  }

  /** `delete` on a `Map` takes out the one entry of the key and keeps the
      order of the rest: entry `i` of the result is entry `i` of `e` before
      the deleted place and entry `i + 1` from it on. */
  lemma {:induction false} DeleteEntryAt(e: seq<(string, Value)>, key: string, i: int)
    requires KeysDistinct(e) && KeyIndex(e, key) >= 0 && 0 <= i < |e| - 1
    ensures |DeleteEntry(e, key)| == |e| - 1
    ensures DeleteEntry(e, key)[i] == e[if i < KeyIndex(e, key) then i else i + 1]
  {
    if e[0].0 == key {
      DeleteAbsent(e[1..], key);
    } else {
      var r := DeleteEntry(e[1..], key);
      assert DeleteEntry(e, key) == [e[0]] + r;
      assert KeyIndex(e, key) == KeyIndex(e[1..], key) + 1;
      if i == 0 {
        DeleteEntryLength(e[1..], key);
      } else {
        DeleteEntryAt(e[1..], key, i - 1);
      }
    }
  }

  /** `delete` of a present key shortens the entries by one. */
  lemma {:induction false} DeleteEntryLength(e: seq<(string, Value)>, key: string)
    requires KeysDistinct(e) && KeyIndex(e, key) >= 0
    ensures |DeleteEntry(e, key)| == |e| - 1
  {
    if e[0].0 == key {
      DeleteAbsent(e[1..], key);
    } else {
      DeleteEntryLength(e[1..], key);
    }
  }

  lemma {:induction false} DeleteAbsent(e: seq<(string, Value)>, key: string)
    requires key !in KeySet(e)
    ensures DeleteEntry(e, key) == e
  {
    if e != [] {
      DeleteAbsent(e[1..], key);
      assert [e[0]] + e[1..] == e;
    }
  }

  /** A call on a props `Map`. */
  datatype MapOp = MapSet(key: string, value: Value) | MapDelete(key: string)

  /** The entries of a `Map` that starts empty and receives the calls `ops`. */
  function Replay(ops: seq<MapOp>): seq<(string, Value)> {
    if ops == [] then []
    else
      var e := Replay(ops[..|ops| - 1]);
      match ops[|ops| - 1]
      case MapSet(k, v) => SetEntry(e, k, v)
      case MapDelete(k) => DeleteEntry(e, k)
  }

  /** The position of the last `delete(key)` in `ops`, -1 if none. */
  function LastDelete(ops: seq<MapOp>, key: string): (r: int)
    ensures -1 <= r < |ops|
  {
    if ops == [] then -1
    else if ops[|ops| - 1] == MapDelete(key) then |ops| - 1
    else LastDelete(ops[..|ops| - 1], key)
  }

  /** The position of the first `set(key, _)` after position `from`, -1 if
      none. */
  function FirstSetAfter(ops: seq<MapOp>, key: string, from: int): (r: int)
    ensures -1 <= r < |ops| && (r >= 0 ==> from < r)
  {
    if ops == [] then -1
    else
      var p := FirstSetAfter(ops[..|ops| - 1], key, from);
      if p >= 0 then p
      else if ops[|ops| - 1].MapSet? && ops[|ops| - 1].key == key && from < |ops| - 1 then |ops| - 1
      else -1
  }

  /** When `key` last entered the map: its first `set` since its last
      `delete`; -1 when it is not in the map. */
  function Entered(ops: seq<MapOp>, key: string): (r: int)
    ensures -1 <= r < |ops|
  {
    FirstSetAfter(ops, key, LastDelete(ops, key))
  }

  /** What `get(key)` reads after `ops`, one key at a time: the value of
      the last `set`, unless a `delete` came after it. */
  function LastValue(ops: seq<MapOp>, key: string): Value {
    if ops == [] then Undefined
    else
      match ops[|ops| - 1]
      case MapSet(k, v) => if k == key then v else LastValue(ops[..|ops| - 1], key)
      case MapDelete(k) => if k == key then Undefined else LastValue(ops[..|ops| - 1], key)
  }

  /** One more call, as `Replay` and `LastValue` see it. */
  lemma ReplaySnoc(ops: seq<MapOp>, op: MapOp)
    ensures op.MapSet? ==> Replay(ops + [op]) == SetEntry(Replay(ops), op.key, op.value)
    ensures op.MapDelete? ==> Replay(ops + [op]) == DeleteEntry(Replay(ops), op.key)
    ensures forall k :: LastValue(ops + [op], k) == if k == op.key then (if op.MapSet? then op.value else Undefined) else LastValue(ops, k)
  {
    assert (ops + [op])[..|ops|] == ops;
  }

  /** How one more call moves the point where `key` entered the map. */
  lemma EnteredSnoc(ops: seq<MapOp>, op: MapOp, key: string)
    ensures op.key != key ==> Entered(ops + [op], key) == Entered(ops, key)
    ensures op == MapDelete(key) ==> Entered(ops + [op], key) == -1
    ensures op.MapSet? && op.key == key ==>
      Entered(ops + [op], key) == if Entered(ops, key) >= 0 then Entered(ops, key) else |ops|
  {
    var ops' := ops + [op];
    assert ops'[..|ops|] == ops;
    if op.key != key {
      assert LastDelete(ops', key) == LastDelete(ops, key);
    } else if op.MapSet? {
      assert LastDelete(ops', key) == LastDelete(ops, key);
    } else {
      assert LastDelete(ops', key) == |ops|;
    }
  }

  /** `get(key)` reads the last value set, or `undefined` after a delete. */
  lemma {:induction false} ReplayLookup(ops: seq<MapOp>, key: string)
    ensures LookupEntry(Replay(ops), key) == LastValue(ops, key)
  {
    if ops != [] {
      var pre, op := ops[..|ops| - 1], ops[|ops| - 1];
      assert ops == pre + [op];
      ReplayLookup(pre, key);
      ReplaySnoc(pre, op);
    }
  }

  /** The entries never hold a key twice. */
  lemma {:induction false} ReplayDistinct(ops: seq<MapOp>)
    ensures KeysDistinct(Replay(ops))
  {
    if ops != [] {
      var pre, op := ops[..|ops| - 1], ops[|ops| - 1];
      assert ops == pre + [op];
      ReplayDistinct(pre);
      ReplaySnoc(pre, op);
      if op.MapDelete? {
        DeleteKeepsDistinct(Replay(pre), op.key);
      }
    }
  }

  /** A key is in the map exactly when it was set since its last delete. */
  lemma {:induction false} ReplayKeys(ops: seq<MapOp>, key: string)
    ensures key in KeySet(Replay(ops)) <==> Entered(ops, key) >= 0
  {
    if ops != [] {
      var pre, op := ops[..|ops| - 1], ops[|ops| - 1];
      assert ops == pre + [op];
      ReplayKeys(pre, key);
      ReplaySnoc(pre, op);
      EnteredSnoc(pre, op, key);
    }
  }

  /** The entries are listed in the order their keys entered the map. */
  lemma {:induction false} ReplayOrder(ops: seq<MapOp>, i: int, j: int)
    requires 0 <= i < j < |Replay(ops)|
    ensures Entered(ops, Replay(ops)[i].0) < Entered(ops, Replay(ops)[j].0)
  {
    var pre, op := ops[..|ops| - 1], ops[|ops| - 1];
    assert ops == pre + [op];
    ReplaySnoc(pre, op);
    var e, e' := Replay(pre), Replay(ops);
    ReplayDistinct(pre);
    if op.MapSet? && op.key !in KeySet(e) && j == |e| {
      var k := e[i].0;
      assert e'[i] == e[i] && e'[j].0 == op.key && k != op.key;
      ReplayKeys(pre, k);
      EnteredSnoc(pre, op, k);
      EnteredSnoc(pre, op, op.key);
      ReplayKeys(pre, op.key);
    } else {
      var i', j' := i, j;
      if op.MapDelete? {
        var p := KeyIndex(e, op.key);
        if p >= 0 {
          DeleteEntryAt(e, op.key, i);
          DeleteEntryAt(e, op.key, j);
          i' := if i < p then i else i + 1;
          j' := if j < p then j else j + 1;
        } else {
          DeleteAbsent(e, op.key);
        }
      }
      assert e'[i].0 == e[i'].0 && e'[j].0 == e[j'].0;
      ReplayOrder(pre, i', j');
      KeyEnteredKept(pre, op, e[i'].0);
      KeyEnteredKept(pre, op, e[j'].0);
    }
  }

  /** A key still in the map after `op`, and in it before, entered at the
      same point. */
  lemma KeyEnteredKept(ops: seq<MapOp>, op: MapOp, key: string)
    requires key in KeySet(Replay(ops)) && key in KeySet(Replay(ops + [op]))
    ensures Entered(ops + [op], key) == Entered(ops, key)
  {
    ReplayKeys(ops, key);
    ReplayKeys(ops + [op], key);
    EnteredSnoc(ops, op, key);
  }

  /** `[...props.entries()]` after any sequence of `set` and `delete`:
      no key twice, exactly the keys set since their last delete, each with
      its last value, in the order they entered. */
  lemma MapEntriesInInsertionOrder(ops: seq<MapOp>)
    ensures KeysDistinct(Replay(ops))
    ensures forall k :: k in KeySet(Replay(ops)) <==> Entered(ops, k) >= 0
    ensures forall k :: LookupEntry(Replay(ops), k) == LastValue(ops, k)
    ensures forall i, j :: 0 <= i < j < |Replay(ops)| ==>
      Entered(ops, Replay(ops)[i].0) < Entered(ops, Replay(ops)[j].0)
  {
    ReplayDistinct(ops);
    forall k ensures k in KeySet(Replay(ops)) <==> Entered(ops, k) >= 0 {
      ReplayKeys(ops, k);
    }
    forall k ensures LookupEntry(Replay(ops), k) == LastValue(ops, k) {
      ReplayLookup(ops, k);
    }
    forall i, j | 0 <= i < j < |Replay(ops)|
      ensures Entered(ops, Replay(ops)[i].0) < Entered(ops, Replay(ops)[j].0)
    {
      ReplayOrder(ops, i, j);
    }
  }

  /** `bridge.call(method, params)`.  Only `setProp` does anything: the
      binding's config is read (a missing binding or type throws), a `Text`
      binding updates the raw text under its node's parent (no node or no
      parent throws), and in dom/src/index.js and src/native-dom/bridge.js
      all props are then pushed to the node's native view (no node throws). */
  function CallEffect(gen: Generation, types: map<string, string>, c: NCommand, view: Option<NView>): (r: NCallResult)
    ensures !c.NSetProp? ==> r == NDone([])
    ensures c.NSetProp? && view.None? ==> r == NThrew
  {
    if !c.NSetProp? then NDone([])
    else
      match view
      case None => NThrew
      case Some(v) =>
        if v.localName !in types then NThrew
        else
          var isText := types[v.localName] == "Text";
          if isText && (!v.hasNode || !v.hasParent) then NThrew
          else if gen != NativeDomIndex && !v.hasNode then NThrew
          else
            NDone((if isText then [UpdateTextNode(c.id, LookupEntry(v.entries, "data"))] else [])
              + (if gen != NativeDomIndex then [SetNativeProps(c.id, v.entries)] else []))
  }

  /** The `bridge` object with its registry (`BINDINGS`, `currentId`) and
      `renderStarted`.  `halted` records that a `call` threw inside the
      polling `process`, which then never schedules itself again. */
  class NBridge {
    const generation: Generation
    /** `TYPES`: the config type for each local name. */
    const types: map<string, string>
    var queue: seq<NCommand>
    var currentId: int
    var bindings: map<int, NBinding>
    var renderStarted: bool
    var halted: bool
    var hostLog: seq<NHostCall>

    constructor (generation: Generation, types: map<string, string>)
      ensures this.generation == generation && this.types == types
      ensures queue == [] && currentId == 0 && bindings == map[] && !renderStarted && !halted && hostLog == []
    {
      this.generation := generation;
      this.types := types;
      queue := [];
      currentId := 0;
      bindings := map[];
      renderStarted := false;
      halted := false;
      hostLog := [];
    }

    /** `enqueue(method, params)`: append and nothing else. */
    method Enqueue(c: NCommand)
      modifies this
      ensures queue == old(queue) + [c]
      ensures currentId == old(currentId) && bindings == old(bindings) && hostLog == old(hostLog)
      ensures renderStarted == old(renderStarted) && halted == old(halted)
    {
      queue := queue + [c];
    }

    /** What `call` would read for `id`. */
    function ViewOf(id: int): Option<NView>
      reads this, bindings.Values, set b | b in bindings.Values && b.node != null :: b.node
    {
      if id in bindings then
        var b := bindings[id];
        Some(NView(b.localName, b.entries, b.node != null, b.node != null && b.node.parent != null))
      else None
    }

    /** One tick of the polling `process`: once rendering has started, the
        front command is shifted off and run; an empty queue, a render not
        yet started, or an earlier throw leave everything as it is. */
    method Step() returns (ran: Option<NCommand>)
      modifies this
      ensures !old(renderStarted) || old(queue) == [] || old(halted) ==> ran == None && unchanged(this)
      ensures old(renderStarted) && old(queue) != [] && !old(halted) ==>
        && ran == Some(old(queue)[0])
        && queue == old(queue)[1..]
        && match CallEffect(generation, types, old(queue)[0], old(ViewOf(queue[0].id)))
           case NDone(calls) => hostLog == old(hostLog) + calls && !halted
           case NThrew => hostLog == old(hostLog) && halted
      ensures currentId == old(currentId) && bindings == old(bindings) && renderStarted == old(renderStarted)
    {
      if !renderStarted || queue == [] || halted {
        return None;
      }
      var c := queue[0];
      var effect := CallEffect(generation, types, c, ViewOf(c.id));
      queue := queue[1..];
      match effect {
        case NDone(calls) =>
          hostLog := hostLog + calls;
        case NThrew =>
          halted := true;
      }
      ran := Some(c);
    }
  }

  /** `createBinding(node)`: the per-node binding object. */
  class NBinding {
    const id: int
    const localName: string
    const bridge: NBridge
    /** The props map, in insertion order. */
    var entries: seq<(string, Value)>
    /** `NODES.get(binding)`. */
    var node: NNode?
    /** The `set` and `delete` calls the props map has received. */
    ghost var history: seq<MapOp>

    /** The id is `++bridge.currentId` and the binding is registered under
        it in `BINDINGS`. */
    constructor (bridge: NBridge, localName: string)
      modifies bridge
      ensures this.bridge == bridge && this.localName == localName && entries == [] && node == null
      ensures history == [] && PropsTracked()
      ensures id == old(bridge.currentId) + 1 && bridge.currentId == id
      ensures bridge.bindings == old(bridge.bindings)[id := this]
      ensures bridge.queue == old(bridge.queue) && bridge.hostLog == old(bridge.hostLog)
      ensures bridge.renderStarted == old(bridge.renderStarted) && bridge.halted == old(bridge.halted)
    {
      id := bridge.currentId + 1;
      this.bridge := bridge;
      this.localName := localName;
      entries := [];
      node := null;
      history := [];
      new;
      bridge.currentId := id;
      bridge.bindings := bridge.bindings[id := this];
    }

    /** `getProp(prop)`. */
    function GetProp(key: string): Value
      reads this
    {
      LookupEntry(entries, key)
    }

    /** The props map holds what its calls so far leave in a `Map`. */
    ghost predicate PropsTracked()
      reads this
    {
      entries == Replay(history)
    }

    /** `getAllProps()`: the entries, in insertion order (the
        src/native-dom/index.js binding has no such method): each key once,
        with the value `getProp` reads, exactly the keys set and not deleted
        since, ordered by when they entered. */
    function GetAllProps(): (r: seq<(string, Value)>)
      requires bridge.generation != NativeDomIndex
      reads this
      ensures r == entries
      ensures forall i :: 0 <= i < |r| ==> GetProp(r[i].0) == r[i].1 || exists j :: 0 <= j < i && r[j].0 == r[i].0
      ensures PropsTracked() ==> KeysDistinct(r) && forall k :: k in KeySet(r) <==> Entered(history, k) >= 0
      ensures PropsTracked() ==> forall i, j :: 0 <= i < j < |r| ==> Entered(history, r[i].0) < Entered(history, r[j].0)
    {
      AllPropsReadBack(entries);
      MapEntriesInInsertionOrder(history);
      entries
    }

    /** `create()`: one `create` command; the loop over
        `Object.entries(props)` sees no entries on a `Map`. */
    method Create()
      modifies bridge
      ensures bridge.queue == old(bridge.queue) + [NCreate(id, localName)]
      ensures bridge.bindings == old(bridge.bindings) && bridge.currentId == old(bridge.currentId)
      ensures bridge.renderStarted == old(bridge.renderStarted) && bridge.halted == old(bridge.halted)
    {
      bridge.Enqueue(NCreate(id, localName));
    }

    /** `destroy()`. */
    method Destroy()
      modifies bridge
      ensures bridge.queue == old(bridge.queue) + [NDestroy(id)]
      ensures bridge.bindings == old(bridge.bindings) && bridge.currentId == old(bridge.currentId)
      ensures bridge.renderStarted == old(bridge.renderStarted) && bridge.halted == old(bridge.halted)
    {
      bridge.Enqueue(NDestroy(id));
    }

    /** `append(parent)`. */
    method Append(parent: Value)
      modifies bridge
      ensures bridge.queue == old(bridge.queue) + [NAppend(id, parent)]
      ensures bridge.bindings == old(bridge.bindings) && bridge.currentId == old(bridge.currentId)
      ensures bridge.renderStarted == old(bridge.renderStarted) && bridge.halted == old(bridge.halted)
    {
      bridge.Enqueue(NAppend(id, parent));
    }

    /** `insertBefore(sibling)`. */
    method InsertBefore(sibling: Value)
      modifies bridge
      ensures bridge.queue == old(bridge.queue) + [NInsertBefore(id, sibling)]
      ensures bridge.bindings == old(bridge.bindings) && bridge.currentId == old(bridge.currentId)
      ensures bridge.renderStarted == old(bridge.renderStarted) && bridge.halted == old(bridge.halted)
    {
      bridge.Enqueue(NInsertBefore(id, sibling));
    }

    /** `setProp(prop, value)`: a value `===` the cached one changes
        nothing; otherwise it is cached and one `setProp` appended. */
    method SetProp(key: string, value: Value)
      modifies this, bridge
      ensures StrictEquals(old(GetProp(key)), value) ==> entries == old(entries) && bridge.queue == old(bridge.queue)
      ensures !StrictEquals(old(GetProp(key)), value) ==>
        && entries == SetEntry(old(entries), key, value)
        && bridge.queue == old(bridge.queue) + [NSetProp(id, key, value)]
      ensures !StrictEquals(old(GetProp(key)), value) ==> GetProp(key) == value
      ensures forall k :: k != key ==> GetProp(k) == old(GetProp(k))
      ensures node == old(node) && bridge.bindings == old(bridge.bindings) && bridge.currentId == old(bridge.currentId)
      ensures bridge.renderStarted == old(bridge.renderStarted)
      ensures old(PropsTracked()) ==> PropsTracked()
    {
      if !StrictEquals(LookupEntry(entries, key), value) {
        ReplaySnoc(history, MapSet(key, value));
        entries := SetEntry(entries, key, value);
        history := history + [MapSet(key, value)];
        bridge.Enqueue(NSetProp(id, key, value));
      }
    }

    /** `removeProp(prop)`: nothing is enqueued (the src/native-dom/index.js
        binding has no such method). */
    method RemoveProp(key: string)
      requires bridge.generation != NativeDomIndex
      modifies this
      ensures entries == DeleteEntry(old(entries), key)
      ensures GetProp(key) == Undefined
      ensures forall k :: k != key ==> GetProp(k) == old(GetProp(k))
      ensures node == old(node)
      ensures old(PropsTracked()) ==> PropsTracked()
    {
      ReplaySnoc(history, MapDelete(key));
      entries := DeleteEntry(entries, key);
      history := history + [MapDelete(key)];
    }
  }

  /** Each entry of the props list reads back through `get`, unless an
      earlier entry has the same key (which `SetEntry` never makes). */
  lemma {:induction false} AllPropsReadBack(e: seq<(string, Value)>)
    ensures forall i :: 0 <= i < |e| ==> LookupEntry(e, e[i].0) == e[i].1 || exists j :: 0 <= j < i && e[j].0 == e[i].0
  {
    if e != [] {
      AllPropsReadBack(e[1..]);
      forall i | 0 <= i < |e| && LookupEntry(e, e[i].0) != e[i].1
        ensures exists j :: 0 <= j < i && e[j].0 == e[i].0
      {
        if e[0].0 != e[i].0 {
          var j :| 0 <= j < i - 1 && e[1..][j].0 == e[1..][i - 1].0;
          assert e[j + 1].0 == e[i].0;
        }
      }
    }
  }

  /** A value just set reads back, so setting it again sends nothing. */
  lemma SecondSetIsNoOp(e: seq<(string, Value)>, key: string, value: Value)
    ensures StrictEquals(LookupEntry(SetEntry(e, key, value), key), value)
  {
    match value
    case Obj(_, _) =>
    case _ =>
  }

  class NNode {
    const localName: string
    const binding: NBinding
    /** The node's kind: 3 for a text node, 1 for any other element.  The
        `nodeType` getters of dom/src/index.js report it; the classes of
        src/native-dom/index.js have none (see `NodeType`). */
    const kind: int
    var children: seq<NNode>
    var parent: NNode?
    /** `[LISTENERS]` of dom/src/index.js: a list of records per type. */
    var listeners: map<string, seq<Record>>
    /** `_value` of a src/native-dom/index.js text node. */
    var textValue: Value

    /** `new Element(type)` (or the bare `Node` constructor): a binding is
        created and registered and the node recorded for it; nothing is
        enqueued until the node is mounted. */
    constructor Element(bridge: NBridge, localName: string)
      requires bridge.generation != NativeDomBridge
      modifies bridge
      ensures this.localName == localName && kind == 1
      ensures fresh(binding) && binding.bridge == bridge && binding.localName == localName && binding.entries == [] && binding.node == this
      ensures binding.id == old(bridge.currentId) + 1 && bridge.currentId == binding.id
      ensures bridge.bindings == old(bridge.bindings)[binding.id := binding]
      ensures children == [] && parent == null && listeners == map[] && textValue == Undefined
      ensures bridge.queue == old(bridge.queue) && bridge.renderStarted == old(bridge.renderStarted)
    {
      var b := new NBinding(bridge, localName);
      this.localName := localName;
      binding := b;
      kind := 1;
      children := [];
      parent := null;
      listeners := map[];
      textValue := Undefined;
      new;
      b.node := this;
    }

    /** `new Text(value)`.  In dom/src/index.js the constructor writes
        `data`, so one `setProp('data', String(value))` is enqueued; in
        src/native-dom/index.js the value is only kept in `_value`. */
    constructor Text(bridge: NBridge, value: Value)
      requires bridge.generation != NativeDomBridge
      modifies bridge
      ensures localName == "#text" && kind == 3
      ensures fresh(binding) && binding.bridge == bridge && binding.localName == "#text" && binding.node == this
      ensures binding.id == old(bridge.currentId) + 1 && bridge.currentId == binding.id
      ensures bridge.bindings == old(bridge.bindings)[binding.id := binding]
      ensures children == [] && parent == null && listeners == map[]
      ensures bridge.generation == DomIndex ==>
        && binding.entries == [("data", Str(ToJsString(value)))]
        && bridge.queue == old(bridge.queue) + [NSetProp(binding.id, "data", Str(ToJsString(value)))]
        && textValue == Undefined
      ensures bridge.generation == NativeDomIndex ==>
        binding.entries == [] && bridge.queue == old(bridge.queue) && textValue == value
      ensures bridge.renderStarted == old(bridge.renderStarted)
    {
      var b := new NBinding(bridge, "#text");
      localName := "#text";
      binding := b;
      kind := 3;
      children := [];
      parent := null;
      listeners := map[];
      textValue := Undefined;
      new;
      b.node := this;
      if bridge.generation == DomIndex {
        b.SetProp("data", Str(ToJsString(value)));
      } else {
        textValue := value;
      }
    }

    /** The value of `node.nodeType`: the `nodeType` getters of
        dom/src/index.js (lines 322-324 and 531-533) return the kind, and
        the classes of src/native-dom/index.js define no such property, so
        there it reads undefined. */
    function NodeType(): (r: Value)
      ensures r == Undefined <==> binding.bridge.generation == NativeDomIndex
      ensures r != Undefined ==> r == Num(kind)
    {
      if binding.bridge.generation == NativeDomIndex then Undefined else Num(kind)
    }

    /** The `id` of a node: in src/native-dom/index.js the binding id copied
        at construction, in dom/src/index.js the 'id' attribute. */
    function IdValue(): (r: Value)
      reads binding
      ensures binding.bridge.generation == NativeDomIndex ==> r == Num(binding.id)
      ensures binding.bridge.generation != NativeDomIndex ==> r == binding.GetProp("id")
    {
      if binding.bridge.generation == NativeDomIndex then Num(binding.id) else binding.GetProp("id")
    }

    /** The `data` getter. */
    function Data(): Value
      reads binding
    {
      binding.GetProp("data")
    }

    /** The `data` setter: `setProp('data', String(data))`, skipped when the
        text is already cached. */
    method SetData(val: Value)
      modifies binding, binding.bridge
      ensures Data() == Str(ToJsString(val))
      ensures old(Data()) == Str(ToJsString(val)) ==> binding.bridge.queue == old(binding.bridge.queue)
      ensures old(Data()) != Str(ToJsString(val)) ==>
        binding.bridge.queue == old(binding.bridge.queue) + [NSetProp(binding.id, "data", Str(ToJsString(val)))]
      ensures binding.node == old(binding.node) && binding.bridge.bindings == old(binding.bridge.bindings)
      ensures binding.bridge.currentId == old(binding.bridge.currentId)
    {
      binding.SetProp("data", Str(ToJsString(val)));
    }

    /** The `ref` callback of `render()`: rendering has started, and the
        binding's `create` is enqueued. */
    method Mount()
      modifies binding.bridge
      ensures binding.bridge.renderStarted
      ensures binding.bridge.queue == old(binding.bridge.queue) + [NCreate(binding.id, binding.localName)]
      ensures binding.bridge.bindings == old(binding.bridge.bindings)
    {
      binding.bridge.renderStarted := true;
      binding.Create();
    }

    /** `appendChild(node)`: `parent` is set and the node pushed, with no
        check for an earlier copy and no command. */
    method AppendChild(node: NNode)
      modifies this, node
      ensures children == old(children) + [node]
      ensures node.parent == this
      ensures node != this ==> parent == old(parent) && node.children == old(node.children)
      ensures listeners == old(listeners) && node.listeners == old(node.listeners)
    {
      node.parent := this;
      children := children + [node];
    }

    /** `removeChild(node)`: `children.filter(x => x.id === node.id)` keeps
        the children whose id equals the node's and drops all others; no
        command is sent and no `parent` is cleared. */
    method RemoveChild(node: NNode)
      modifies this
      ensures children == SameId(old(children), node.IdValue())
      ensures node in old(children) ==> node in children
      ensures forall c :: c in children ==> StrictEquals(c.IdValue(), node.IdValue())
      ensures parent == old(parent) && listeners == old(listeners)
    {
      children := SameId(children, node.IdValue());
      if node in old(children) {
        StrictEqualsReflexive(node.IdValue());
      }
    }

    /** `get textContent` of dom/src/index.js: the `data` of the first child
        with `nodeType` 3; with none, reading `.data` of undefined throws.
        The nodes of src/native-dom/index.js have no `textContent` getter. */
    function TextContent(): (r: Option<Value>)
      requires binding.bridge.generation == DomIndex
      reads this, children, set c | c in children :: c.binding
      ensures r.None? <==> FirstText(children) == -1
    {
      var i := FirstText(children);
      if i == -1 then None else Some(children[i].Data())
    }

    /** `set textContent(val)` of dom/src/index.js: only an element named
        'Text' accepts it.  The first text child is reused; only when there
        is none is a `Text(val)` created and pushed, whose own constructor
        already sends the text, so the final write sends nothing more.  A
        reused child sends one `setProp` only when its text changes. */
    method SetTextContent(val: Value) returns (threw: bool, created: NNode?)
      requires binding.bridge.generation == DomIndex
      requires forall c :: c in children ==> c.binding.bridge == binding.bridge
      modifies this, binding.bridge, set c | c in children :: c.binding
      ensures threw <==> localName != "Text"
      ensures threw ==> unchanged(this) && unchanged(binding.bridge) && created == null
      ensures !threw ==> TextContent() == Some(Str(ToJsString(val)))
      ensures !threw && FirstText(old(children)) >= 0 ==>
        var t := old(children)[FirstText(old(children))];
        && created == null && children == old(children)
        && binding.bridge.queue == old(binding.bridge.queue)
             + (if old(t.Data()) == Str(ToJsString(val)) then [] else [NSetProp(t.binding.id, "data", Str(ToJsString(val)))])
      ensures !threw && FirstText(old(children)) == -1 ==>
        && created != null && fresh(created) && created.kind == 3 && created.parent == this
        && children == old(children) + [created]
        && binding.bridge.queue == old(binding.bridge.queue) + [NSetProp(created.binding.id, "data", Str(ToJsString(val)))]
      ensures parent == old(parent) && listeners == old(listeners)
    {
      if localName != "Text" {
        return true, null;
      }
      threw := false;
      var i := FirstText(children);
      if i >= 0 {
        created := null;
        children[i].SetData(val);
      } else {
        created := AddText(val);
      }
    }

    /** No text child yet: a new text node is pushed and its `data` written
        again, which its constructor has already cached. */
    method AddText(val: Value) returns (created: NNode)
      requires binding.bridge.generation == DomIndex && FirstText(children) == -1
      modifies this, binding.bridge
      ensures fresh(created) && created.kind == 3 && created.parent == this
      ensures children == old(children) + [created]
      ensures TextContent() == Some(Str(ToJsString(val)))
      ensures binding.bridge.queue == old(binding.bridge.queue) + [NSetProp(created.binding.id, "data", Str(ToJsString(val)))]
      ensures parent == old(parent) && listeners == old(listeners)
    {
      created := new NNode.Text(binding.bridge, val);
      AppendChild(created);
      created.SetData(val);
      FirstTextAppend(old(children), created);
    }

    /** `setAttribute(key, value)` (and the `id` setter) of dom/src/index.js;
        elements of src/native-dom/index.js have no such method. */
    method SetAttribute(key: string, value: Value) returns (threw: bool)
      modifies binding, binding.bridge
      ensures threw <==> binding.bridge.generation == NativeDomIndex
      ensures threw ==> unchanged(binding) && unchanged(binding.bridge)
      ensures !threw && StrictEquals(old(binding.GetProp(key)), value) ==>
        binding.entries == old(binding.entries) && binding.bridge.queue == old(binding.bridge.queue)
      ensures !threw && !StrictEquals(old(binding.GetProp(key)), value) ==>
        && binding.GetProp(key) == value
        && binding.bridge.queue == old(binding.bridge.queue) + [NSetProp(binding.id, key, value)]
      ensures forall k :: k != key ==> binding.GetProp(k) == old(binding.GetProp(k))
    {
      if binding.bridge.generation == NativeDomIndex {
        return true;
      }
      threw := false;
      binding.SetProp(key, value);
    }

    /** `removeAttribute(key)`: the prop is deleted and nothing enqueued. */
    method RemoveAttribute(key: string) returns (threw: bool)
      modifies binding
      ensures threw <==> binding.bridge.generation == NativeDomIndex
      ensures threw ==> unchanged(binding)
      ensures !threw ==> binding.entries == DeleteEntry(old(binding.entries), key) && binding.GetProp(key) == Undefined
      ensures forall k :: k != key ==> binding.GetProp(k) == old(binding.GetProp(k))
    {
      if binding.bridge.generation == NativeDomIndex {
        return true;
      }
      threw := false;
      binding.RemoveProp(key);
    }

    /** The list of records for a type; empty when there is none. */
    function ListenersFor(eventType: string): seq<Record>
      reads this
    {
      if eventType in listeners then listeners[eventType] else []
    }

    /** `addEventListener(type, listener, options)` of dom/src/index.js: one
        record with the option flags is pushed, and a new closure over the
        list is written as the prop named `type`.  The closure is a fresh
        function, never `===` what is cached, so a `setProp` is always
        enqueued.  Elements of src/native-dom/index.js have no such method. */
    method AddEventListener(eventType: string, listener: nat, options: Value, closure: nat) returns (threw: bool)
      requires !StrictEquals(binding.GetProp(eventType), Fn(closure))
      modifies this, binding, binding.bridge
      ensures threw <==> binding.bridge.generation != DomIndex
      ensures threw ==> unchanged(this) && unchanged(binding) && unchanged(binding.bridge)
      ensures !threw ==>
        && listeners == old(listeners)[eventType := old(ListenersFor(eventType)) + [Record(listener, GetListenerFlags(options))]]
        && binding.GetProp(eventType) == Fn(closure)
        && binding.bridge.queue == old(binding.bridge.queue) + [NSetProp(binding.id, eventType, Fn(closure))]
      ensures children == old(children) && parent == old(parent)
    {
      if binding.bridge.generation != DomIndex {
        return true;
      }
      listeners := listeners[eventType := ListenersFor(eventType) + [Record(listener, GetListenerFlags(options))]];
      binding.SetProp(eventType, Fn(closure));
      threw := false;
    }

    /** `removeEventListener(type, listener, options)`: the first record
        with the same function and the same flags is spliced out and true
        returned; false when there is none or no list for the type. */
    method RemoveEventListener(eventType: string, listener: nat, options: Value) returns (threw: bool, removed: bool)
      modifies this
      ensures threw <==> binding.bridge.generation != DomIndex
      ensures threw ==> unchanged(this) && !removed
      ensures !threw ==>
        (removed <==> eventType in old(listeners) && Record(listener, GetListenerFlags(options)) in old(listeners)[eventType])
      ensures !removed ==> listeners == old(listeners)
      ensures removed ==>
        var list := old(listeners)[eventType];
        listeners == old(listeners)[eventType := RemoveAt(list, IndexOf(list, Record(listener, GetListenerFlags(options))))]
      ensures children == old(children) && parent == old(parent)
    {
      if binding.bridge.generation != DomIndex {
        return true, false;
      }
      threw := false;
      if eventType !in listeners {
        return false, false;
      }
      var list := listeners[eventType];
      var flags := GetListenerFlags(options);
      var i := 0;
      while i < |list|
        invariant 0 <= i <= |list|
        invariant Record(listener, flags) !in list[..i]
        invariant listeners == old(listeners)
      {
        if list[i].listener == listener && list[i].flags == flags {
          assert IndexOf(list, Record(listener, flags)) == i;
          listeners := listeners[eventType := RemoveAt(list, i)];
          return false, true;
        }
        assert list[..i + 1] == list[..i] + [list[i]];
        i := i + 1;
      }
      assert list[..i] == list;
      removed := false;
    }

    /** `dispatchEvent(event)` of dom/src/index.js: the target and path are
        recorded on the event, then `fireEvent` runs from the root down to
        the target (in the at-target phase) and from the parent back up to
        the root, with no test of `cancelBubble`.  The result is
        `!defaultPrevented`, and listener lists shrink by the records that
        fired with the low bit set.  `chain` names the parent links the
        walk follows.  Elements of src/native-dom/index.js have no such
        method. */
    method DispatchEvent(event: NEvent, script: nat -> Listener, ghost chain: seq<NNode>)
      returns (threw: bool, notPrevented: bool, calls: seq<Invocation>)
      requires NPathOf(this, chain)
      modifies event, set n | n in chain
      ensures threw <==> binding.bridge.generation != DomIndex
      ensures threw ==> unchanged(event) && calls == [] && forall n :: n in chain ==> unchanged(n)
      ensures !threw ==>
        var d := NDispatch(NState(old(event.FlagState()), [], false, old(NTables(chain, event.eventType))), script);
        && event.target == this && event.path == chain
        && event.FlagState() == d.flags && calls == d.calls && notPrevented == !d.prevented
        && |d.tables| == |chain|
        && (forall j :: 0 <= j < |chain| ==> NTableOf(chain[j], event.eventType) == d.tables[j])
    {
      if binding.bridge.generation != DomIndex {
        return true, false, [];
      }
      threw := false;
      ghost var st0 := NState(event.FlagState(), [], false, NTables(chain, event.eventType));
      PathDistinct(this, chain);
      event.target := this;
      var path := BubblePath(chain);
      event.path := path;
      var prevented;
      prevented, calls := RunCaptureLoop(event, path, script, st0);
      ghost var c := NCapture(st0, |path|, script);
      prevented, calls := RunBubbleLoop(event, path, script, prevented, calls, c);
      notPrevented := !prevented;
    }

    /** The `parentNode` walk: this node, then each parent until none. */
    method BubblePath(ghost chain: seq<NNode>) returns (path: seq<NNode>)
      requires NPathOf(this, chain)
      ensures path == chain
    {
      path := [];
      var t: NNode? := this;
      ghost var n := 0;
      while t != null
        invariant 0 <= n <= |chain| && path == chain[..n]
        invariant t == (if n < |chain| then chain[n] else null)
        decreases |chain| - n
      {
        path := path + [t];
        t := t.parent;
        n := n + 1;
      }
      assert path == chain;
    }

    /** `createElement(type)`. */
    method CreateElement(t: string) returns (e: NNode)
      requires binding.bridge.generation != NativeDomBridge
      modifies binding.bridge
      ensures fresh(e) && e.localName == t && e.kind == 1 && e.binding.bridge == binding.bridge
      ensures binding.bridge.generation == DomIndex ==> e.NodeType() == Num(1)
      ensures binding.bridge.generation == NativeDomIndex ==> e.NodeType() == Undefined
      ensures e.binding.id == old(binding.bridge.currentId) + 1
      ensures binding.bridge.queue == old(binding.bridge.queue)
    {
      e := new NNode.Element(binding.bridge, t);
    }

    /** `createTextNode(value)`. */
    method CreateTextNode(value: Value) returns (t: NNode)
      requires binding.bridge.generation != NativeDomBridge
      modifies binding.bridge
      ensures fresh(t) && t.localName == "#text" && t.kind == 3 && t.binding.bridge == binding.bridge
      ensures binding.bridge.generation == DomIndex ==> t.NodeType() == Num(3)
      ensures binding.bridge.generation == NativeDomIndex ==> t.NodeType() == Undefined
      ensures t.binding.id == old(binding.bridge.currentId) + 1
      ensures binding.bridge.generation == DomIndex ==> t.Data() == Str(ToJsString(value))
      ensures binding.bridge.generation == NativeDomIndex ==> t.textValue == value
    {
      t := new NNode.Text(binding.bridge, value);
    }
  }

  /** `new Document()`: an element named '#document'. */
  method NewDocument(bridge: NBridge) returns (doc: NNode)
    requires bridge.generation != NativeDomBridge
    modifies bridge
    ensures fresh(doc) && doc.localName == "#document" && doc.binding.bridge == bridge
    ensures doc.binding.id == old(bridge.currentId) + 1
    ensures bridge.queue == old(bridge.queue)
  {
    doc := new NNode.Element(bridge, "#document");
  }

  /** Two bindings created one after the other get consecutive ids, both
      above every id handed out before, and both are registered. */
  method TwoBindings(bridge: NBridge) returns (a: NBinding, b: NBinding)
    modifies bridge
    ensures a.id == old(bridge.currentId) + 1 && b.id == a.id + 1
    ensures bridge.bindings == old(bridge.bindings)[a.id := a][b.id := b]
    ensures bridge.queue == old(bridge.queue)
  {
    a := new NBinding(bridge, "View");
    b := new NBinding(bridge, "View");
  }

  /** `children.filter(x => x.id === id)`. */
  function SameId(s: seq<NNode>, id: Value): (r: seq<NNode>)
    reads set c | c in s :: c.binding
    ensures |r| <= |s|
    ensures forall c :: c in r ==> c in s && StrictEquals(c.IdValue(), id)
    ensures forall c :: c in s && StrictEquals(c.IdValue(), id) ==> c in r
  {
    if s == [] then []
    else
      var rest := SameId(s[1..], id);
      assert forall c :: c in s ==> c == s[0] || c in s[1..];
      if StrictEquals(s[0].IdValue(), id) then [s[0]] + rest else rest
  }

  /** `children.find(x => x.nodeType === 3)` of dom/src/index.js as a
      position, -1 if none; there `nodeType` reports the kind. */
  function FirstText(s: seq<NNode>): (r: int)
    ensures -1 <= r < |s|
    ensures r >= 0 ==> s[r].kind == 3 && forall j :: 0 <= j < r ==> s[j].kind != 3
    ensures r == -1 ==> forall j :: 0 <= j < |s| ==> s[j].kind != 3
  {
    if s == [] then -1
    else if s[0].kind == 3 then 0
    else var k := FirstText(s[1..]); if k == -1 then -1 else k + 1
  }

  lemma {:induction false} FirstTextAppend(s: seq<NNode>, t: NNode)
    requires forall j :: 0 <= j < |s| ==> s[j].kind != 3
    requires t.kind == 3
    ensures FirstText(s + [t]) == |s|
  {
    if s != [] {
      FirstTextAppend(s[1..], t);
      assert (s + [t])[1..] == s[1..] + [t];
    }
  }

  /** `parentNode` links from a node up to one with no parent. */
  ghost predicate NPathOf(n: NNode, chain: seq<NNode>)
    reads chain
  {
    && |chain| > 0 && chain[0] == n
    && (forall i :: 0 <= i < |chain| - 1 ==> chain[i].parent == chain[i + 1])
    && chain[|chain| - 1].parent == null
  }

  ghost predicate NodesDistinct(s: seq<NNode>) {
    forall i, j :: 0 <= i < j < |s| ==> s[i] != s[j]
  }

  /** A parent chain that ends visits no node twice: a repeated node would
      repeat everything after it and never reach the end. */
  lemma PathDistinct(n: NNode, chain: seq<NNode>)
    requires NPathOf(n, chain)
    ensures NodesDistinct(chain)
  {
    forall i, j | 0 <= i < j < |chain|
      ensures chain[i] != chain[j]
    {
      NoRepeat(n, chain, i, j);
    }
  }

  /** Two places on the chain differ: the later one reaches the end first,
      where the parent is missing, while the earlier one still has one. */
  lemma {:induction false} NoRepeat(n: NNode, chain: seq<NNode>, i: nat, j: nat)
    requires NPathOf(n, chain) && i < j < |chain|
    ensures chain[i] != chain[j]
    decreases |chain| - j
  {
    assert chain[i].parent == chain[i + 1];
    if j < |chain| - 1 {
      NoRepeat(n, chain, i + 1, j + 1);
      assert chain[j].parent == chain[j + 1];
    } else {
      assert chain[j].parent == null;
    }
  }

  /** The list `fireEvent` finds on a node: `None` when there is none. */
  function NTableOf(n: NNode, eventType: string): Option<seq<Record>>
    reads n
  {
    if eventType in n.listeners then Some(n.listeners[eventType]) else None
  }

  function NTables(path: seq<NNode>, eventType: string): (r: seq<Option<seq<Record>>>)
    reads path
    ensures |r| == |path| && forall i :: 0 <= i < |path| ==> r[i] == NTableOf(path[i], eventType)
  {
    seq(|path|, i reads path requires 0 <= i < |path| => NTableOf(path[i], eventType))
  }

  /** The `Event` of dom/src/index.js.  `isTrusted` is a non-writable false,
      and `cancelBubble` is a plain field.  The binding's later
      `event[IS_TRUSTED] = true` is taken to leave it false, as a non-strict
      write would. */
  class NEvent {
    const eventType: string
    const bubbles: Value
    const cancelable: Value
    const isTrusted: bool
    var target: NNode?
    var currentTarget: NNode?
    var path: seq<NNode>
    var eventPhase: Value
    var defaultPrevented: Value
    var cancelBubble: Value
    var immediatePropagationStopped: bool
    var data: Value

    constructor (eventType: string, bubbles: Value, cancelable: Value)
      ensures this.eventType == eventType && this.bubbles == bubbles && this.cancelable == cancelable
      ensures !isTrusted && target == null && currentTarget == null && path == [] && data == Undefined
      ensures FlagState() == NFlags(Undefined, Bool(false), Bool(false), false)
    {
      this.eventType := eventType;
      this.bubbles := bubbles;
      this.cancelable := cancelable;
      isTrusted := false;
      target := null;
      currentTarget := null;
      path := [];
      eventPhase := Undefined;
      defaultPrevented := Bool(false);
      cancelBubble := Bool(false);
      immediatePropagationStopped := false;
      data := Undefined;
    }

    function FlagState(): NFlags
      reads this
    {
      NFlags(eventPhase, defaultPrevented, cancelBubble, immediatePropagationStopped)
    }

    /** `get returnValue`. */
    function ReturnValue(): Value
      reads this
    {
      defaultPrevented
    }

    twostate predicate OnlyFlagsChanged()
      reads this
    {
      target == old(target) && currentTarget == old(currentTarget) && path == old(path) && data == old(data)
    }

    /** `stopPropagation()`. */
    method StopPropagation()
      modifies this
      ensures FlagState() == ApplyNative(old(FlagState()), DomEvents.StopPropagation)
      ensures OnlyFlagsChanged()
    {
      cancelBubble := Bool(true);
    }

    /** `stopImmediatePropagation()`. */
    method StopImmediatePropagation()
      modifies this
      ensures FlagState() == ApplyNative(old(FlagState()), DomEvents.StopImmediatePropagation)
      ensures OnlyFlagsChanged()
    {
      immediatePropagationStopped := true;
    }

    /** `preventDefault()`. */
    method PreventDefault()
      modifies this
      ensures FlagState() == ApplyNative(old(FlagState()), DomEvents.PreventDefault)
      ensures OnlyFlagsChanged()
    {
      defaultPrevented := Bool(true);
    }

    /** `set returnValue(v)`: straight into `defaultPrevented`. */
    method SetReturnValue(v: Value)
      modifies this
      ensures FlagState() == ApplyNative(old(FlagState()), DomEvents.SetReturnValue(v))
      ensures ReturnValue() == v
      ensures OnlyFlagsChanged()
    {
      defaultPrevented := v;
    }

    /** Assigning `cancelBubble`: a plain write, so false clears it. */
    method SetCancelBubble(v: Value)
      modifies this
      ensures FlagState() == ApplyNative(old(FlagState()), DomEvents.SetCancelBubble(v))
      ensures OnlyFlagsChanged()
    {
      cancelBubble := v;
    }

    method Perform(a: Action)
      modifies this
      ensures FlagState() == ApplyNative(old(FlagState()), a)
      ensures OnlyFlagsChanged()
    {
      match a
      case StopPropagation => StopPropagation();
      case StopImmediatePropagation => StopImmediatePropagation();
      case PreventDefault => PreventDefault();
      case SetReturnValue(v) => SetReturnValue(v);
      case SetCancelBubble(v) => SetCancelBubble(v);
    }

    /** A listener's calls on the event, in order. */
    method RunScript(actions: seq<Action>)
      modifies this
      ensures FlagState() == ApplyNativeAll(old(FlagState()), actions)
      ensures OnlyFlagsChanged()
    {
      var i := 0;
      while i < |actions|
        invariant 0 <= i <= |actions|
        invariant FlagState() == ApplyNativeAll(old(FlagState()), actions[..i])
        invariant OnlyFlagsChanged()
      {
        assert actions[..i + 1][..i] == actions[..i];
        Perform(actions[i]);
        i := i + 1;
      }
      assert actions[..i] == actions;
    }

    /** One listener call: the phase is set, `currentTarget` becomes the
        node, the listener runs, and a `false` return prevents the default. */
    method RunListener(node: NNode, phase: int, l: Listener)
      modifies this
      ensures FlagState() == NListenerFlags(old(FlagState()), l, phase)
      ensures target == old(target) && path == old(path) && currentTarget == node
    {
      eventPhase := Num(phase);
      currentTarget := node;
      RunScript(l.actions);
      if l.outcome == Returns(Bool(false)) {
        defaultPrevented := Bool(true);
      }
    }
  }

  /** `fireEvent(event, target, phase)` of dom/src/index.js: with no list
      for the type nothing happens; otherwise a frozen copy is run in
      order, each record with the low bit is spliced out of the live list
      at its `indexOf` after it runs, and an immediate stop breaks after
      the current listener.  `node` is the target's place on the path. */
  method FireEvent(event: NEvent, target: NNode, node: nat, phase: int, script: nat -> Listener, calls0: seq<Invocation>)
    returns (prevented: bool, calls: seq<Invocation>)
    modifies event, target
    ensures event.target == old(event.target) && event.path == old(event.path)
    ensures old(NTableOf(target, event.eventType)).None? ==>
      !prevented && calls == calls0 && unchanged(event) && unchanged(target)
    ensures old(NTableOf(target, event.eventType)).Some? ==>
      var list := old(NTableOf(target, event.eventType)).value;
      var f := NFirePrefix(NFire(old(event.FlagState()), calls0, false, false, list), list, |list|, node, phase, script);
      && event.FlagState() == f.flags && calls == f.calls && prevented == f.local
      && target.listeners == old(target.listeners)[event.eventType := f.live]
  {
    var t := event.eventType;
    if t !in target.listeners {
      return false, calls0;
    }
    var frozen := target.listeners[t];
    prevented, calls := FireFrozen(event, target, frozen, node, phase, script, calls0,
                                   NFire(event.FlagState(), calls0, false, false, frozen));
  }

  /** The loop of `fireEvent` over the frozen copy of the target's list. */
  method FireFrozen(event: NEvent, target: NNode, frozen: seq<Record>, node: nat, phase: int, script: nat -> Listener,
                    calls0: seq<Invocation>, ghost start: NFire)
    returns (prevented: bool, calls: seq<Invocation>)
    requires start == NFire(event.FlagState(), calls0, false, false, frozen)
    requires event.eventType in target.listeners && target.listeners[event.eventType] == frozen
    modifies event, target
    ensures var f := NFirePrefix(start, frozen, |frozen|, node, phase, script);
      && event.FlagState() == f.flags && calls == f.calls && prevented == f.local
      && target.listeners == old(target.listeners)[event.eventType := f.live]
    ensures event.target == old(event.target) && event.path == old(event.path)
  {
    var t := event.eventType;
    prevented := false;
    calls := calls0;
    var k := 0;
    var broke := false;
    ghost var p := start;
    ghost var base := target.listeners;
    while k < |frozen| && !broke
      invariant 0 <= k <= |frozen| && p == NFirePrefix(start, frozen, k, node, phase, script)
      invariant event.FlagState() == p.flags && calls == p.calls && prevented == p.local && broke == p.broke
      invariant target.listeners == base[t := p.live]
      invariant event.target == old(event.target) && event.path == old(event.path)
    {
      prevented, calls, broke, p := FireTurn(event, target, frozen, k, node, phase, script, prevented, calls, start, base);
      k := k + 1;
    }
    if broke {
      NBrokeStays(start, frozen, k, |frozen|, node, phase, script);
    }
  }

  /** Turn `k` of the loop over the frozen copy: the listener runs and
      the loop breaks when it stopped immediate propagation. */
  method FireTurn(event: NEvent, target: NNode, frozen: seq<Record>, k: nat, node: nat, phase: int, script: nat -> Listener,
                  prevented0: bool, calls0: seq<Invocation>, ghost start: NFire, ghost base: map<string, seq<Record>>)
    returns (prevented: bool, calls: seq<Invocation>, broke: bool, ghost q: NFire)
    requires k < |frozen|
    requires var p := NFirePrefix(start, frozen, k, node, phase, script);
      && !p.broke && event.FlagState() == p.flags && prevented0 == p.local && calls0 == p.calls
      && target.listeners == base[event.eventType := p.live]
    modifies event, target
    ensures q == NFirePrefix(start, frozen, k + 1, node, phase, script)
    ensures event.FlagState() == q.flags && calls == q.calls && prevented == q.local && broke == q.broke
    ensures target.listeners == base[event.eventType := q.live]
    ensures event.target == old(event.target) && event.path == old(event.path)
  {
    NPrefixStep(start, frozen, k, node, phase, script);
    prevented, calls, q := FireListener(event, target, frozen[k], node, phase, script, prevented0, calls0,
                                       NFirePrefix(start, frozen, k, node, phase, script), base);
    broke := event.immediatePropagationStopped;
  }

  /** One more turn of an unbroken loop is one `NFireStep`. */
  lemma NPrefixStep(start: NFire, frozen: seq<Record>, k: nat, node: nat, phase: int, script: nat -> Listener)
    requires k < |frozen| && !NFirePrefix(start, frozen, k, node, phase, script).broke
    ensures NFirePrefix(start, frozen, k + 1, node, phase, script)
      == NFireStep(NFirePrefix(start, frozen, k, node, phase, script), frozen[k], node, phase, script)
  {
  }

  /** One turn of the `fireEvent` loop, accounted against `NFireStep`. */
  method FireListener(event: NEvent, target: NNode, item: Record, node: nat, phase: int, script: nat -> Listener,
                      prevented0: bool, calls0: seq<Invocation>, ghost p: NFire, ghost base: map<string, seq<Record>>)
    returns (prevented: bool, calls: seq<Invocation>, ghost q: NFire)
    requires event.FlagState() == p.flags && target.listeners == base[event.eventType := p.live]
    requires prevented0 == p.local && calls0 == p.calls
    modifies event, target
    ensures q == NFireStep(p, item, node, phase, script)
    ensures event.FlagState() == q.flags && prevented == q.local && calls == q.calls
    ensures event.immediatePropagationStopped == q.broke
    ensures target.listeners == base[event.eventType := q.live]
    ensures event.target == old(event.target) && event.path == old(event.path)
    ensures target.children == old(target.children) && target.parent == old(target.parent)
  {
    var t := event.eventType;
    var l := script(item.listener);
    event.RunListener(target, phase, l);
    DropFired(target, t, item, base, p.live);
    var now := event.defaultPrevented == Bool(true);
    prevented := prevented0 || now;
    calls := calls0 + [Invocation(node, phase, item.listener, l.outcome.Throws?, now)];
    q := NFireStep(p, item, node, phase, script);
  }

  /** After a record ran, `splice(indexOf(item), 1)` on the live list when
      its low bit is set. */
  method DropFired(target: NNode, t: string, item: Record, ghost base: map<string, seq<Record>>, ghost live: seq<Record>)
    requires target.listeners == base[t := live]
    modifies target
    ensures target.listeners == base[t := if RemovedAfterFiring(item) then SpliceOne(live, IndexOf(live, item)) else live]
    ensures target.children == old(target.children) && target.parent == old(target.parent)
  {
    if RemovedAfterFiring(item) {
      var l := target.listeners[t];
      target.listeners := target.listeners[t := SpliceOne(l, IndexOf(l, item))];
    }
  }

  lemma {:induction false} NBrokeStays(start: NFire, frozen: seq<Record>, k: nat, m: nat, node: nat, phase: int, script: nat -> Listener)
    requires k <= m <= |frozen|
    requires NFirePrefix(start, frozen, k, node, phase, script).broke
    ensures NFirePrefix(start, frozen, m, node, phase, script) == NFirePrefix(start, frozen, k, node, phase, script)
    decreases m - k
  {
    if m > k {
      NBrokeStays(start, frozen, k, m - 1, node, phase, script);
    }
  }

  /** The first loop of `dispatchEvent`: path indices |path|-1 down to 0,
      the target last and in the at-target phase. */
  method RunCaptureLoop(event: NEvent, path: seq<NNode>, script: nat -> Listener, ghost st0: NState)
    returns (prevented: bool, calls: seq<Invocation>)
    requires |path| > 0 && NodesDistinct(path) && |st0.tables| == |path|
    requires event.FlagState() == st0.flags && st0.calls == [] && !st0.prevented
    requires forall j :: 0 <= j < |path| ==> NTableOf(path[j], event.eventType) == st0.tables[j]
    modifies event, set n | n in path
    ensures var c := NCapture(st0, |path|, script);
      && event.FlagState() == c.flags && calls == c.calls && prevented == c.prevented
      && (forall j :: 0 <= j < |path| ==> NTableOf(path[j], event.eventType) == c.tables[j])
    ensures event.target == old(event.target) && event.path == old(event.path)
  {
    ghost var st := st0;
    prevented := false;
    calls := [];
    var i := |path|;
    while i > 0
      invariant 0 <= i <= |path|
      invariant st == NCapture(st0, |path| - i, script)
      invariant event.FlagState() == st.flags && calls == st.calls && prevented == st.prevented
      invariant forall j :: 0 <= j < |path| ==> NTableOf(path[j], event.eventType) == st.tables[j]
      invariant event.target == old(event.target) && event.path == old(event.path)
    {
      prevented, calls, st := CaptureTurn(event, path, i - 1, script, prevented, calls, st0, st);
      i := i - 1;
    }
  }

  /** One turn of the capture loop, at path index `i`: the target, index
      0, is fired in the at-target phase, every other node in the capture
      phase. */
  method CaptureTurn(event: NEvent, path: seq<NNode>, i: nat, script: nat -> Listener,
                     prevented0: bool, calls0: seq<Invocation>, ghost st0: NState, ghost st: NState)
    returns (prevented: bool, calls: seq<Invocation>, ghost st': NState)
    requires i < |path| && NodesDistinct(path) && |st0.tables| == |path|
    requires st == NCapture(st0, |path| - i - 1, script)
    requires event.FlagState() == st.flags && calls0 == st.calls && prevented0 == st.prevented
    requires forall j :: 0 <= j < |path| ==> NTableOf(path[j], event.eventType) == st.tables[j]
    modifies event, path[i]
    ensures st' == NCapture(st0, |path| - i, script)
    ensures event.FlagState() == st'.flags && calls == st'.calls && prevented == st'.prevented
    ensures forall j :: 0 <= j < |path| ==> NTableOf(path[j], event.eventType) == st'.tables[j]
    ensures event.target == old(event.target) && event.path == old(event.path)
  {
    var phase := if i == 0 then PhaseAtTarget else PhaseCapture;
    prevented, calls, st' := FireOnPath(event, path, i, phase, script, prevented0, calls0, st);
  }

  /** The second loop: path indices 1 to |path|-1 in the bubble phase. */
  method RunBubbleLoop(event: NEvent, path: seq<NNode>, script: nat -> Listener,
                       prevented0: bool, calls0: seq<Invocation>, ghost st0: NState)
    returns (prevented: bool, calls: seq<Invocation>)
    requires |path| > 0 && NodesDistinct(path) && |st0.tables| == |path|
    requires event.FlagState() == st0.flags && calls0 == st0.calls && prevented0 == st0.prevented
    requires forall j :: 0 <= j < |path| ==> NTableOf(path[j], event.eventType) == st0.tables[j]
    modifies event, set n | n in path
    ensures var b := NBubble(st0, |path| - 1, script);
      && event.FlagState() == b.flags && calls == b.calls && prevented == b.prevented
      && (forall j :: 0 <= j < |path| ==> NTableOf(path[j], event.eventType) == b.tables[j])
    ensures event.target == old(event.target) && event.path == old(event.path)
  {
    ghost var st := st0;
    prevented := prevented0;
    calls := calls0;
    var i := 1;
    while i < |path|
      invariant 1 <= i <= |path|
      invariant |st.tables| == |path|
      invariant st == NBubble(st0, i - 1, script)
      invariant event.FlagState() == st.flags && calls == st.calls && prevented == st.prevented
      invariant forall j :: 0 <= j < |path| ==> NTableOf(path[j], event.eventType) == st.tables[j]
      invariant event.target == old(event.target) && event.path == old(event.path)
    {
      prevented, calls, st := FireOnPath(event, path, i, PhaseBubble, script, prevented, calls, st);
      i := i + 1;
    }
  }

  /** One `fireEvent` on `path[i]`, accounted against `NFireAt`. */
  method FireOnPath(event: NEvent, path: seq<NNode>, i: nat, phase: int, script: nat -> Listener,
                    prevented0: bool, calls0: seq<Invocation>, ghost st: NState)
    returns (prevented: bool, calls: seq<Invocation>, ghost st': NState)
    requires i < |path| && NodesDistinct(path) && |st.tables| == |path|
    requires event.FlagState() == st.flags && calls0 == st.calls && prevented0 == st.prevented
    requires forall j :: 0 <= j < |path| ==> NTableOf(path[j], event.eventType) == st.tables[j]
    modifies event, path[i]
    ensures st' == NFireAt(st, i, phase, script) && |st'.tables| == |path|
    ensures event.FlagState() == st'.flags && calls == st'.calls && prevented == st'.prevented
    ensures forall j :: 0 <= j < |path| ==> NTableOf(path[j], event.eventType) == st'.tables[j]
    ensures event.target == old(event.target) && event.path == old(event.path)
  {
    var p;
    p, calls := FireEvent(event, path[i], i, phase, script, calls0);
    prevented := prevented0 || p;
    st' := NFireAt(st, i, phase, script);
    forall j | 0 <= j < |path|
      ensures NTableOf(path[j], event.eventType) == st'.tables[j]
    {
      if j != i {
        assert path[j] != path[i];
      }
    }
  }
}
