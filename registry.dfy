/** The tag registry: a counter that hands out native view tags avoiding the
    root tag, a map from tag to binding, and the table from node names to
    host view classes.  One class covers src/dom/registry.js (counter starts
    at 2), dom/src/dom/registry.js (counter starts at 0) and the equivalent
    module state of dom/src/dom.js (`bridge.currentId`, `BINDINGS`,
    `ROOT_TAG`, `TYPES`), whose id allocation differs and has its own method. */
module Registry {
  import opened JsValues

  /** An entry of `TYPES`: the host view class, and the host component for
      names registered as native hosts. */
  datatype ViewType = ViewType(viewClass: string, hostComponent: Option<string>)

  /** `FALSE_TYPES` of src/dom/registry.js: names that need no host view. */
  function SrcDomFalseTypes(): map<string, ViewType> {
    map["#document" := ViewType("Document", None),
        "#fragment" := ViewType("DocumentFragment", None),
        "template" := ViewType("DocumentFragment", None)]
  }

  /** `TYPES` of src/dom/registry.js: `FALSE_TYPES` plus the raw text view. */
  function SrcDomTypes(): map<string, ViewType> {
    SrcDomFalseTypes()["#text" := ViewType("RCTRawText", None)]
  }

  /** `TYPES` of dom/src/dom/registry.js and of dom/src/dom.js. */
  function DomPackageTypes(): map<string, ViewType> {
    map["#text" := ViewType("RCTRawText", None), "#document" := ViewType("Document", None)]
  }

  /** The tag one `allocateNewTag` call returns when the counter stands at
      `counter`: the counter advances by one and the tag steps over the
      root, without the counter following it. */
  function NextTag(counter: int, root: Option<int>): int {
    if Some(counter + 1) == root then counter + 2 else counter + 1
  }

  /** The tags of `n` successive `allocateNewTag` calls. */
  function Tags(counter: int, root: Option<int>, n: nat): (r: seq<int>)
    ensures |r| == n
    decreases n
  {
    if n == 0 then [] else [NextTag(counter, root)] + Tags(counter + 1, root, n - 1)
  }

  /** `++currentId`, repeated once when it hits the root (dom/src/dom.js):
      the counter itself steps over the root. */
  function NextMonolithId(counter: int, root: Option<int>): int {
    if Some(counter + 1) == root then counter + 2 else counter + 1
  }

  /** The ids of `n` successive dom/src/dom.js allocations. */
  function MonolithIds(counter: int, root: Option<int>, n: nat): (r: seq<int>)
    ensures |r| == n
    decreases n
  {
    if n == 0 then []
    else
      var id := NextMonolithId(counter, root);
      [id] + MonolithIds(id, root, n - 1)
  }

  predicate Distinct(s: seq<int>) {
    forall i, j :: 0 <= i < j < |s| ==> s[i] != s[j]
  }

  /** The k-th call returns what the counter, advanced k times, gives. */
  lemma {:induction false} TagsAt(counter: int, root: Option<int>, n: nat)
    ensures forall k :: 0 <= k < n ==> Tags(counter, root, n)[k] == NextTag(counter + k, root)
    decreases n
  {
    if n > 0 {
      TagsAt(counter + 1, root, n - 1);
      var r := Tags(counter, root, n);
      assert r == [NextTag(counter, root)] + Tags(counter + 1, root, n - 1);
      forall k | 0 < k < n
        ensures r[k] == NextTag(counter + k, root)
      {
        assert r[k] == Tags(counter + 1, root, n - 1)[k - 1];
      }
    }
  }

  /** `allocateNewTag` never hands out the root tag. */
  lemma TagsAvoidRoot(counter: int, root: Option<int>, n: nat)
    ensures forall k :: 0 <= k < n ==> Some(Tags(counter, root, n)[k]) != root
  {
    TagsAt(counter, root, n);
  }

  /** Successive tags are all different exactly when the root does not fall
      strictly inside the counter's range: after a root skip the next call
      repeats root + 1. */
  lemma TagsDistinctIff(counter: int, root: Option<int>, n: nat)
    ensures Distinct(Tags(counter, root, n)) <==> !(root.Some? && counter < root.value < counter + n)
  {
    var r := Tags(counter, root, n);
    TagsAt(counter, root, n);
    if root.Some? && counter < root.value < counter + n {
      var k := root.value - counter - 1;
      assert r[k] == root.value + 1 == r[k + 1];
    } else {
      forall i, j | 0 <= i < j < n
        ensures r[i] != r[j]
      {
        assert r[i] == NextTag(counter + i, root);
        assert r[j] == NextTag(counter + j, root);
      }
    }
  }

  /** With the counter at 2 and the root tag 3, two allocations give the
      same tag. */
  lemma DuplicateAfterRootSkip()
    ensures Tags(2, Some(3), 2) == [4, 4]
  {
    assert Tags(4, Some(3), 0) == [];
  }

  /** dom/src/dom.js ids increase strictly, start above the counter and
      never equal the root tag. */
  lemma {:induction false} MonolithIdsIncrease(counter: int, root: Option<int>, n: nat)
    ensures var r := MonolithIds(counter, root, n);
      && (forall k :: 0 <= k < n ==> counter < r[k] && Some(r[k]) != root)
      && (forall i, j :: 0 <= i < j < n ==> r[i] < r[j])
    decreases n
  {
    if n > 0 {
      var id := NextMonolithId(counter, root);
      MonolithIdsIncrease(id, root, n - 1);
      var r := MonolithIds(counter, root, n);
      assert r == [id] + MonolithIds(id, root, n - 1);
      assert forall k :: 0 < k < n ==> r[k] == MonolithIds(id, root, n - 1)[k - 1];
    }
  }

  /** What happens to the binding map: `addBinding`, or
      `clearBindings`/`reset`. */
  datatype MapOp<B> = AddOp(id: int, b: B) | ClearOp

  function ApplyOp<B>(m: map<int, B>, op: MapOp<B>): map<int, B> {
    match op
    case AddOp(id, b) => m[id := b]
    case ClearOp => map[]
  }

  function Replay<B>(m: map<int, B>, ops: seq<MapOp<B>>): map<int, B>
    decreases |ops|
  {
    if ops == [] then m else ApplyOp(Replay(m, ops[..|ops| - 1]), ops[|ops| - 1])
  }

  /** The binding most recently added under `id` since the last clear. */
  function LastAdded<B>(ops: seq<MapOp<B>>, id: int): Option<B>
    decreases |ops|
  {
    if ops == [] then None
    else
      match ops[|ops| - 1]
      case ClearOp => None
      case AddOp(i, b) => if i == id then Some(b) else LastAdded(ops[..|ops| - 1], id)
  }

  function Lookup<B>(m: map<int, B>, id: int): Option<B> {
    if id in m then Some(m[id]) else None
  }

  /** `getBinding(id)` after any history of adds and clears on an empty
      registry returns the binding last added under `id` since the last
      clear, and undefined when there is none. */
  lemma {:induction false} LookupIsLastAdded<B>(ops: seq<MapOp<B>>, id: int)
    ensures Lookup(Replay(map[], ops), id) == LastAdded(ops, id)
  {
    if ops != [] {
      LookupIsLastAdded(ops[..|ops| - 1], id);
    }
  }

  class Registry<B> {
    var currentBindingId: int
    var bindings: map<int, B>
    var root: Option<int>
    var types: map<string, ViewType>
    /** Names `create` skips (src/dom's `FALSE_TYPES`; dom.js skips only
        '#document'). */
    const falseTypes: set<string>
    /** The names the type table starts with. */
    const builtinTypes: set<string>

    /** The type table only ever gains or overwrites names. */
    ghost predicate Valid()
      reads this
    {
      builtinTypes <= types.Keys
    }

    /** `new Registry()` of src/dom/registry.js. */
    constructor ForSrcDom()
      ensures currentBindingId == 2 && bindings == map[] && root == None
      ensures types == SrcDomTypes() && falseTypes == SrcDomFalseTypes().Keys
      ensures builtinTypes == {"#document", "#fragment", "template", "#text"}
      ensures Valid()
    {
      currentBindingId := 2;
      bindings := map[];
      root := None;
      types := SrcDomTypes();
      falseTypes := SrcDomFalseTypes().Keys;
      builtinTypes := {"#document", "#fragment", "template", "#text"};
    }

    /** `new Registry()` of dom/src/dom/registry.js; also the initial module
        state of dom/src/dom.js (`currentId: 0`, empty `BINDINGS`). */
    constructor ForDomPackage()
      ensures currentBindingId == 0 && bindings == map[] && root == None
      ensures types == DomPackageTypes() && falseTypes == {"#document"}
      ensures builtinTypes == {"#text", "#document"}
      ensures Valid()
    {
      currentBindingId := 0;
      bindings := map[];
      root := None;
      types := DomPackageTypes();
      falseTypes := {"#document"};
      builtinTypes := {"#text", "#document"};
    }

    /** `set root(tag)` (dom.js: the `ROOT_TAG` assignment). */
    method SetRoot(tag: Option<int>)
      modifies this
      ensures root == tag
      ensures currentBindingId == old(currentBindingId) && bindings == old(bindings) && types == old(types)
    {
      root := tag;
    }

    /** `reset()`: counter back to 0, map emptied. */
    method Reset()
      modifies this
      ensures currentBindingId == 0 && bindings == ApplyOp(old(bindings), ClearOp)
      ensures root == old(root) && types == old(types)
    {
      currentBindingId := 0;
      ClearBindings();
    }

    /** `addBinding(binding)`: keyed by the binding's id. */
    method AddBinding(id: int, b: B)
      modifies this
      ensures bindings == ApplyOp(old(bindings), AddOp(id, b))
      ensures BindingsCount() == old(BindingsCount()) + (if id in old(bindings) then 0 else 1)
      ensures currentBindingId == old(currentBindingId) && root == old(root) && types == old(types)
    {
      bindings := bindings[id := b];
    }

    /** `getBinding(id)`; `None` stands for undefined. */
    function GetBinding(id: int): (r: Option<B>)
      reads this
      ensures r.Some? <==> id in bindings
      ensures r.Some? ==> r.value == bindings[id]
    {
      Lookup(bindings, id)
    }

    /** `clearBindings()`. */
    method ClearBindings()
      modifies this
      ensures bindings == ApplyOp(old(bindings), ClearOp)
      ensures currentBindingId == old(currentBindingId) && root == old(root) && types == old(types)
    {
      bindings := map[];
    }

    /** `get bindingsCount`: the number of distinct ids in the map. */
    function BindingsCount(): (r: nat)
      reads this
      ensures r == |bindings.Keys|
    {
      |bindings|
    }

    /** `set bindingsCount(_)`: ignored. */
    method SetBindingsCount(value: Value)
      ensures unchanged(this)
    {
    }

    /** `allocateNewTag()`. */
    method AllocateNewTag() returns (tag: int)
      modifies this
      ensures currentBindingId == old(currentBindingId) + 1
      ensures tag == NextTag(old(currentBindingId), root)
      ensures Some(tag) != root
      ensures bindings == old(bindings) && root == old(root) && types == old(types)
    {
      currentBindingId := currentBindingId + 1;
      tag := currentBindingId;
      if Some(tag) == root {
        tag := tag + 1;
      }
    }

    /** The inline allocation of dom/src/dom.js `createBinding`. */
    method AllocateMonolithId() returns (id: int)
      modifies this
      ensures id == NextMonolithId(old(currentBindingId), root) && currentBindingId == id
      ensures old(currentBindingId) < id && Some(id) != root
      ensures bindings == old(bindings) && root == old(root) && types == old(types)
    {
      currentBindingId := currentBindingId + 1;
      id := currentBindingId;
      if Some(id) == root {
        currentBindingId := currentBindingId + 1;
        id := currentBindingId;
      }
    }

    /** `registerHostElement(name, nativeComp, {nativeHost})`. */
    method RegisterHostElement(name: string, nativeComp: string, nativeHost: bool)
      requires Valid()
      modifies this
      ensures types == old(types)[name := if nativeHost then ViewType(name, Some(nativeComp)) else ViewType(nativeComp, None)]
      ensures Valid()
      ensures currentBindingId == old(currentBindingId) && bindings == old(bindings) && root == old(root)
    {
      if nativeHost {
        types := types[name := ViewType(name, Some(nativeComp))];
      } else {
        types := types[name := ViewType(nativeComp, None)];
      }
    }
  }
}
