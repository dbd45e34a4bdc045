/** Listener records and event dispatch of the native generation
    (dom/src/index.js: `getListenerFlags`, `fireEvent`, `Element.dispatchEvent`
    and `Event`).  Listener records carry a flag word; a record whose flag
    word has the low bit set is removed from its list after it fires.  The
    target is visited once, in the capture loop, and the bubble loop always
    runs: `cancelBubble` is never read.  Listener effects are scripted as in
    `DomEvents`: `script(fn)` is what the listener `fn` does to the event and
    whether it returns or throws. */
module NativeEvents {
  import opened JsValues
  import opened Commands
  import opened DomEvents

  /** `EVENTPHASE_*` of dom/src/index.js; the numbering differs from the
      standard one used by dom/src/dom. */
  const PhaseBubble: int := 1
  const PhaseCapture: int := 2
  const PhaseAtTarget: int := 3
  const PassiveMask: bv32 := 4
  const OnceMask: bv32 := 8

  /** `{_listener, _flags}`. */
  datatype Record = Record(listener: nat, flags: bv32)

  /** `getListenerFlags(options)`: an object gives 2 with a truthy `capture`
      and 1 otherwise, and a truthy `passive` or `once` then ANDs that with
      4 or 8, which leaves 0; any other value gives 2 when truthy, 1 when
      not (`null` is an object to `typeof` but falsy). */
  function GetListenerFlags(options: Value): (flags: bv32)
    ensures !options.Obj? ==> flags == (if Truthy(options) then 2 else 1)
    ensures options.Obj? && (Truthy(PropOf(options.fields, "passive")) || Truthy(PropOf(options.fields, "once"))) ==> flags == 0
    ensures options.Obj? && !Truthy(PropOf(options.fields, "passive")) && !Truthy(PropOf(options.fields, "once")) ==>
      flags == (if Truthy(PropOf(options.fields, "capture")) then 2 else 1)
  {
    match options
    case Obj(_, fields) =>
      var base: bv32 := if Truthy(PropOf(fields, "capture")) then 2 else 1;
      var afterPassive := if Truthy(PropOf(fields, "passive")) then base & PassiveMask else base;
      if Truthy(PropOf(fields, "once")) then afterPassive & OnceMask else afterPassive
    case _ => if Truthy(options) then 2 else 1
  }

  /** The test `item._flags & (EVENTOPT_ONCE !== 0)`: the comparison is
      `true`, which `&` turns into 1, so the low bit decides. */
  predicate RemovedAfterFiring(r: Record)
    ensures RemovedAfterFiring(r) <==> r.flags & 1 == 1
  {
    r.flags & (if OnceMask != 0 then 1 else 0) != 0
  }

  /** Which registrations are removed after they fire: exactly the default
      (bubble) ones; capture listeners and every registration with `passive`
      or `once` stay. */
  lemma RemovalByOptions(options: Value, listener: nat)
    ensures RemovedAfterFiring(Record(listener, GetListenerFlags(options))) <==>
      GetListenerFlags(options) == 1
    ensures options.Obj? && Truthy(PropOf(options.fields, "once")) ==>
      !RemovedAfterFiring(Record(listener, GetListenerFlags(options)))
    ensures !Truthy(options) ==> RemovedAfterFiring(Record(listener, GetListenerFlags(options)))
  {
    var f := GetListenerFlags(options);
    assert f == 0 || f == 1 || f == 2;
    assert (0 as bv32) & 1 == 0 && (1 as bv32) & 1 == 1 && (2 as bv32) & 1 == 0;
  }

  /** The first index of `x` in `s`, -1 if none: `Array.prototype.indexOf`. */
  function IndexOf<T(==)>(s: seq<T>, x: T): (r: int)
    ensures -1 <= r < |s|
    ensures r == -1 <==> x !in s
    ensures r >= 0 ==> s[r] == x && x !in s[..r]
  {
    if s == [] then -1
    else if s[0] == x then 0
    else
      var k := IndexOf(s[1..], x);
      assert k >= 0 ==> s[1..][..k] == s[1..k + 1];
      if k == -1 then -1 else k + 1
  }

  /** `s.splice(start, 1)` for a start found by `indexOf`: -1 counts from
      the end, so it removes the last element. */
  function SpliceOne<T>(s: seq<T>, start: int): (r: seq<T>)
    requires -1 <= start < |s|
    ensures start >= 0 ==> r == s[..start] + s[start + 1..]
    ensures start == -1 && s != [] ==> r == s[..|s| - 1]
    ensures start == -1 && s == [] ==> r == []
  {
    if start >= 0 then s[..start] + s[start + 1..]
    else if s == [] then s
    else s[..|s| - 1]
  }

  /** `list.splice(list.indexOf(item), 1)`: when `item` is in the list,
      exactly one copy of it goes and the rest keep their order; when it
      is not, the last element goes instead. */
  lemma SpliceAtIndexOf<T>(s: seq<T>, x: T)
    ensures var r := SpliceOne(s, IndexOf(s, x));
      && (x in s ==> |r| == |s| - 1 && multiset(r) == multiset(s) - multiset{x})
      && (x !in s && s != [] ==> r == s[..|s| - 1])
  {
    var p := IndexOf(s, x);
    if p >= 0 {
      var a, b := s[..p], s[p + 1..];
      assert s == a + [x] + b;
      assert SpliceOne(s, p) == a + b;
      assert multiset(s) == multiset(a) + multiset{x} + multiset(b);
    }
  }

  /** The records of `s` that survive firing. */
  function Kept(s: seq<Record>): (r: seq<Record>)
    ensures |r| <= |s|
  {
    if s == [] then []
    else if RemovedAfterFiring(s[|s| - 1]) then Kept(s[..|s| - 1])
    else Kept(s[..|s| - 1]) + [s[|s| - 1]]
  }

  /** `Kept` holds exactly the records of `s` without the low bit. */
  lemma {:induction false} KeptMembers(s: seq<Record>)
    ensures forall x :: x in Kept(s) ==> x in s && !RemovedAfterFiring(x)
    ensures forall x :: x in s && !RemovedAfterFiring(x) ==> x in Kept(s)
  {
    if s != [] {
      KeptMembers(s[..|s| - 1]);
      assert forall x :: x in s ==> x in s[..|s| - 1] || x == s[|s| - 1];
    }
  }

  /** The event fields dispatch reads and writes.  `cancelBubble` and
      `defaultPrevented` are plain fields here. */
  datatype NFlags = NFlags(phase: Value, defaultPrevented: Value, cancelBubble: Value, immediate: bool)

  /** One call a listener makes on the event. */
  function ApplyNative(f: NFlags, a: Action): (g: NFlags)
    ensures g.phase == f.phase
    ensures f.immediate ==> g.immediate
    ensures a.PreventDefault? ==> g.defaultPrevented == Bool(true)
    ensures a.SetReturnValue? ==> g.defaultPrevented == a.v
    ensures a.SetCancelBubble? ==> g.cancelBubble == a.v
    ensures a.StopPropagation? ==> g.cancelBubble == Bool(true)
  {
    match a
    case StopPropagation => f.(cancelBubble := Bool(true))
    case StopImmediatePropagation => f.(immediate := true)
    case PreventDefault => f.(defaultPrevented := Bool(true))
    case SetReturnValue(v) => f.(defaultPrevented := v)
    case SetCancelBubble(v) => f.(cancelBubble := v)
  }

  function ApplyNativeAll(f: NFlags, actions: seq<Action>): (g: NFlags)
    ensures g.phase == f.phase
    ensures f.immediate ==> g.immediate
  {
    if actions == [] then f
    else ApplyNative(ApplyNativeAll(f, actions[..|actions| - 1]), actions[|actions| - 1])
  }

  /** The state of one `fireEvent` loop: the event's flags, the calls made,
      the local `defaultPrevented`, whether the loop broke, and the live
      listener list. */
  datatype NFire = NFire(flags: NFlags, calls: seq<Invocation>, local: bool, broke: bool, live: seq<Record>)

  /** The flags after one listener call: the phase is set, the listener's
      calls on the event are made, and a `false` return prevents the
      default. */
  function NListenerFlags(f: NFlags, l: Listener, phase: int): (g: NFlags)
    ensures l.outcome == Returns(Bool(false)) ==> g.defaultPrevented == Bool(true)
    ensures g.phase == Num(phase)
  {
    var f1 := ApplyNativeAll(f.(phase := Num(phase)), l.actions);
    if l.outcome == Returns(Bool(false)) then f1.(defaultPrevented := Bool(true)) else f1
  }

  /** One turn of `fireEvent`: phase set, the listener run (a `false` return
      prevents the default), a record with the low bit spliced out of the
      live list at its `indexOf`, `defaultPrevented === true` reported, and
      an immediate stop breaks. */
  function NFireStep(p: NFire, item: Record, node: nat, phase: int, script: nat -> Listener): NFire {
    var l := script(item.listener);
    var f2 := NListenerFlags(p.flags, l, phase);
    var live := if RemovedAfterFiring(item) then SpliceOne(p.live, IndexOf(p.live, item)) else p.live;
    var prevented := f2.defaultPrevented == Bool(true);
    NFire(f2, p.calls + [Invocation(node, phase, item.listener, l.outcome.Throws?, prevented)], p.local || prevented, f2.immediate, live)
  }

  /** The first `k` turns over the frozen copy of the list. */
  function NFirePrefix(start: NFire, frozen: seq<Record>, k: nat, node: nat, phase: int, script: nat -> Listener): NFire
    requires k <= |frozen|
  {
    if k == 0 then start
    else
      var p := NFirePrefix(start, frozen, k - 1, node, phase, script);
      if p.broke then p else NFireStep(p, frozen[k - 1], node, phase, script)
  }

  /** The state of a whole dispatch: flags, calls, the `defaultPrevented` of
      `dispatchEvent`, and the listener list of the event's type on each
      path node (`None` when the node has none). */
  datatype NState = NState(flags: NFlags, calls: seq<Invocation>, prevented: bool, tables: seq<Option<seq<Record>>>)

  /** `fireEvent(event, path[i], phase)`: no list, nothing happens;
      otherwise the list is run and what is left of it stays on the node. */
  function NFireAt(st: NState, i: nat, phase: int, script: nat -> Listener): (r: NState)
    requires i < |st.tables|
    ensures |r.tables| == |st.tables|
    ensures forall j :: 0 <= j < |st.tables| && j != i ==> r.tables[j] == st.tables[j]
  {
    match st.tables[i]
    case None => st
    case Some(list) =>
      var f := NFirePrefix(NFire(st.flags, st.calls, false, false, list), list, |list|, i, phase, script);
      NState(f.flags, f.calls, st.prevented || f.local, st.tables[i := Some(f.live)])
  }

  /** The first loop of `dispatchEvent` after `n` turns: path indices
      |path|-1 down to |path|-n, the last of which, the target, in the
      at-target phase. */
  function NCapture(st: NState, n: nat, script: nat -> Listener): (r: NState)
    requires n <= |st.tables|
    ensures |r.tables| == |st.tables|
  {
    if n == 0 then st
    else
      var i := |st.tables| - n;
      NFireAt(NCapture(st, n - 1, script), i, if i == 0 then PhaseAtTarget else PhaseCapture, script)
  }

  /** The second loop after `n` turns: path indices 1 to n. */
  function NBubble(st: NState, n: nat, script: nat -> Listener): (r: NState)
    requires n < |st.tables|
    ensures |r.tables| == |st.tables|
  {
    if n == 0 then st
    else NFireAt(NBubble(st, n - 1, script), n, PhaseBubble, script)
  }

  /** The whole dispatch: both loops, with no test of `cancelBubble`. */
  function NDispatch(st: NState, script: nat -> Listener): NState
    requires |st.tables| > 0
  {
    NBubble(NCapture(st, |st.tables|, script), |st.tables| - 1, script)
  }

  /** While the loop has not broken, the live list is the visited records
      that survive followed by the records not yet visited: each removal
      takes out exactly the record that just fired, because no earlier
      survivor can equal it. */
  lemma {:induction false} LiveIsKeptPrefix(start: NFire, frozen: seq<Record>, k: nat, node: nat, phase: int, script: nat -> Listener)
    requires k <= |frozen| && start.live == frozen && !start.broke
    ensures var p := NFirePrefix(start, frozen, k, node, phase, script);
      var m := |p.calls| - |start.calls|;
      && 0 <= m <= k
      && p.live == Kept(frozen[..m]) + frozen[m..]
      && (!p.broke ==> m == k)
  {
    if k > 0 {
      LiveIsKeptPrefix(start, frozen, k - 1, node, phase, script);
      var p := NFirePrefix(start, frozen, k - 1, node, phase, script);
      var q := NFirePrefix(start, frozen, k, node, phase, script);
      if p.broke {
        assert q == p;
      } else {
        assert q == NFireStep(p, frozen[k - 1], node, phase, script);
        assert |p.calls| - |start.calls| == k - 1;
        LiveStep(p, frozen, k - 1, node, phase, script);
      }
    }
  }

  /** One unbroken turn keeps the shape of the live list. */
  lemma LiveStep(p: NFire, frozen: seq<Record>, m: nat, node: nat, phase: int, script: nat -> Listener)
    requires m < |frozen| && p.live == Kept(frozen[..m]) + frozen[m..]
    ensures var q := NFireStep(p, frozen[m], node, phase, script);
      && |q.calls| == |p.calls| + 1
      && q.live == Kept(frozen[..m + 1]) + frozen[m + 1..]
  {
    var item := frozen[m];
    var kept := Kept(frozen[..m]);
    var rest := frozen[m + 1..];
    assert frozen[..m + 1] == frozen[..m] + [item];
    assert frozen[m..] == [item] + rest;
    KeptSnoc(frozen[..m], item);
    if RemovedAfterFiring(item) {
      KeptMembers(frozen[..m]);
      SpliceFired(kept, item, rest);
    }
  }

  lemma KeptSnoc(s: seq<Record>, x: Record)
    ensures Kept(s + [x]) == if RemovedAfterFiring(x) then Kept(s) else Kept(s) + [x]
  {
    assert (s + [x])[..|s|] == s;
  }

  /** Splicing a fired record out of `kept + [item] + rest` at its
      `indexOf` leaves `kept + rest` when `kept` holds only survivors. */
  lemma SpliceFired(kept: seq<Record>, item: Record, rest: seq<Record>)
    requires forall x :: x in kept ==> !RemovedAfterFiring(x)
    requires RemovedAfterFiring(item)
    ensures var live := kept + ([item] + rest);
      IndexOf(live, item) == |kept| && SpliceOne(live, |kept|) == kept + rest
  {
    var live := kept + ([item] + rest);
    assert live[..|kept|] == kept;
    assert live[|kept|] == item;
    assert live[|kept| + 1..] == rest;
  }

  /** A `fireEvent` that runs its whole list leaves exactly the records
      without the low bit. */
  lemma FireLeavesKept(start: NFire, frozen: seq<Record>, node: nat, phase: int, script: nat -> Listener)
    requires start.live == frozen && !start.broke
    requires !NFirePrefix(start, frozen, |frozen|, node, phase, script).broke
    ensures NFirePrefix(start, frozen, |frozen|, node, phase, script).live == Kept(frozen)
  {
    LiveIsKeptPrefix(start, frozen, |frozen|, node, phase, script);
    assert frozen[..|frozen|] == frozen && frozen[|frozen|..] == [];
  }

  /** `fireEvent` on a list of one record. */
  lemma FireSingle(st: NState, i: nat, phase: int, r: Record, script: nat -> Listener)
    requires i < |st.tables| && st.tables[i] == Some([r])
    ensures var f := NFireStep(NFire(st.flags, st.calls, false, false, [r]), r, i, phase, script);
      NFireAt(st, i, phase, script) == NState(f.flags, f.calls, st.prevented || f.local, st.tables[i := Some(f.live)])
  {
    var start := NFire(st.flags, st.calls, false, false, [r]);
    assert NFirePrefix(start, [r], 0, i, phase, script) == start;
  }

  /** Calling `stopPropagation` at the target does not stop the bubble
      loop, and a capture listener on the parent runs both in the capture
      and in the bubble loop. */
  lemma CancelBubbleIgnored(script: nat -> Listener)
    requires script(1) == Listener([StopPropagation], Returns(Undefined))
    requires script(2) == Listener([], Returns(Undefined))
    ensures var d := NDispatch(NState(NFlags(Undefined, Bool(false), Bool(false), false), [], false,
                                      [Some([Record(1, 2)]), Some([Record(2, 2)])]), script);
      && d.flags.cancelBubble == Bool(true)
      && d.calls == [Invocation(1, PhaseCapture, 2, false, false),
                     Invocation(0, PhaseAtTarget, 1, false, false),
                     Invocation(1, PhaseBubble, 2, false, false)]
  {
    var tables := [Some([Record(1, 2)]), Some([Record(2, 2)])];
    var s0 := NState(NFlags(Undefined, Bool(false), Bool(false), false), [], false, tables);
    assert !RemovedAfterFiring(Record(1, 2)) && !RemovedAfterFiring(Record(2, 2));
    assert ApplyNativeAll(s0.flags.(phase := Num(PhaseCapture)), []) == s0.flags.(phase := Num(PhaseCapture));
    FireSingle(s0, 1, PhaseCapture, Record(2, 2), script);
    var c1 := NCapture(s0, 1, script);
    assert c1.calls == [Invocation(1, PhaseCapture, 2, false, false)] && c1.tables == tables;
    var f1 := c1.flags.(phase := Num(PhaseAtTarget));
    assert ApplyNativeAll(f1, [StopPropagation]) == ApplyNative(ApplyNativeAll(f1, []), StopPropagation);
    FireSingle(c1, 0, PhaseAtTarget, Record(1, 2), script);
    var c2 := NCapture(s0, 2, script);
    assert c2.calls == c1.calls + [Invocation(0, PhaseAtTarget, 1, false, false)];
    assert c2.tables == tables && c2.flags.cancelBubble == Bool(true);
    assert ApplyNativeAll(c2.flags.(phase := Num(PhaseBubble)), []) == c2.flags.(phase := Num(PhaseBubble));
    FireSingle(c2, 1, PhaseBubble, Record(2, 2), script);
    assert NBubble(c2, 1, script) == NFireAt(c2, 1, PhaseBubble, script);
  }

  /** A default registration on the parent runs in the capture loop and is
      then gone, so the bubble loop does not run it again. */
  lemma BubbleRegistrationRunsOnce(script: nat -> Listener)
    requires script(2) == Listener([], Returns(Undefined))
    ensures var d := NDispatch(NState(NFlags(Undefined, Bool(false), Bool(false), false), [], false,
                                      [Some([]), Some([Record(2, 1)])]), script);
      && d.calls == [Invocation(1, PhaseCapture, 2, false, false)]
      && d.tables == [Some([]), Some([])]
  {
    var s0 := NState(NFlags(Undefined, Bool(false), Bool(false), false), [], false, [Some([]), Some([Record(2, 1)])]);
    assert RemovedAfterFiring(Record(2, 1));
    assert IndexOf([Record(2, 1)], Record(2, 1)) == 0;
    assert ApplyNativeAll(s0.flags.(phase := Num(PhaseCapture)), []) == s0.flags.(phase := Num(PhaseCapture));
    FireSingle(s0, 1, PhaseCapture, Record(2, 1), script);
    var c1 := NCapture(s0, 1, script);
    assert c1.tables == [Some([]), Some([])];
    assert c1.calls == [Invocation(1, PhaseCapture, 2, false, false)];
    var c2 := NCapture(s0, 2, script);
    assert NFirePrefix(NFire(c1.flags, c1.calls, false, false, []), [], 0, 0, PhaseAtTarget, script).calls == c1.calls;
    assert c2.calls == c1.calls && c2.tables == c1.tables;
    assert NBubble(c2, 1, script) == NFireAt(c2, 1, PhaseBubble, script);
  }

  // ---------------------------------------------------------------------
  // What any dispatch does, whatever the listeners do.

  /** `r` carries on from `st`: the calls made so far are kept. */
  predicate NExtends(st: NState, r: NState) {
    |st.calls| <= |r.calls| && r.calls[..|st.calls|] == st.calls
  }

  /** `prevented` of `r` is that of `st` or some call made since left
      `defaultPrevented === true` behind it. */
  predicate NAccounted(st: NState, r: NState)
    requires NExtends(st, r)
  {
    r.prevented <==> st.prevented || exists k :: |st.calls| <= k < |r.calls| && r.calls[k].preventedAfter
  }

  /** Every call made since `st` ran in one of `phases`. */
  predicate NAddedIn(st: NState, r: NState, phases: set<int>)
    requires NExtends(st, r)
  {
    forall k :: |st.calls| <= k < |r.calls| ==> r.calls[k].phase in phases
  }

  /** The local `defaultPrevented` of `fireEvent` is set exactly when one
      of its calls reported `defaultPrevented === true`. */
  lemma {:induction false} NFirePrefixAccounted(start: NFire, frozen: seq<Record>, k: nat, node: nat, phase: int, script: nat -> Listener)
    requires k <= |frozen| && !start.local
    ensures var f := NFirePrefix(start, frozen, k, node, phase, script);
      && |start.calls| <= |f.calls| && f.calls[..|start.calls|] == start.calls
      && (f.local <==> exists j :: |start.calls| <= j < |f.calls| && f.calls[j].preventedAfter)
  {
    if k > 0 {
      NFirePrefixAccounted(start, frozen, k - 1, node, phase, script);
      var p := NFirePrefix(start, frozen, k - 1, node, phase, script);
      if !p.broke {
        var f := NFireStep(p, frozen[k - 1], node, phase, script);
        assert f.calls[..|p.calls|] == p.calls;
        assert f.calls[..|start.calls|] == p.calls[..|start.calls|];
        if f.local && !p.local {
          assert f.calls[|f.calls| - 1].preventedAfter;
        }
        if exists j :: |start.calls| <= j < |f.calls| && f.calls[j].preventedAfter {
          var j :| |start.calls| <= j < |f.calls| && f.calls[j].preventedAfter;
          if j < |p.calls| {
            assert p.calls[j] == f.calls[j];
          }
        }
      }
    }
  }

  /** Every call of one `fireEvent` is on its node and in its phase. */
  lemma {:induction false} NFirePrefixPhase(start: NFire, frozen: seq<Record>, k: nat, node: nat, phase: int, script: nat -> Listener)
    requires k <= |frozen|
    ensures var f := NFirePrefix(start, frozen, k, node, phase, script);
      && |start.calls| <= |f.calls| && f.calls[..|start.calls|] == start.calls
      && forall j :: |start.calls| <= j < |f.calls| ==> f.calls[j].phase == phase && f.calls[j].node == node
  {
    if k > 0 {
      NFirePrefixPhase(start, frozen, k - 1, node, phase, script);
      var p := NFirePrefix(start, frozen, k - 1, node, phase, script);
      if !p.broke {
        var f := NFireStep(p, frozen[k - 1], node, phase, script);
        assert f.calls[..|start.calls|] == p.calls[..|start.calls|];
        assert forall j :: |start.calls| <= j < |p.calls| ==> f.calls[j] == p.calls[j];
      }
    }
  }

  lemma NFireAtAccounted(st: NState, i: nat, phase: int, script: nat -> Listener)
    requires i < |st.tables|
    ensures var r := NFireAt(st, i, phase, script); NExtends(st, r) && NAccounted(st, r)
  {
    if st.tables[i].Some? {
      var list := st.tables[i].value;
      NFirePrefixAccounted(NFire(st.flags, st.calls, false, false, list), list, |list|, i, phase, script);
    }
  }

  lemma NFireAtPhase(st: NState, i: nat, phase: int, script: nat -> Listener)
    requires i < |st.tables|
    ensures var r := NFireAt(st, i, phase, script); NExtends(st, r) && NAddedIn(st, r, {phase})
  {
    if st.tables[i].Some? {
      var list := st.tables[i].value;
      NFirePrefixPhase(NFire(st.flags, st.calls, false, false, list), list, |list|, i, phase, script);
    }
  }

  lemma {:induction false} NAccountedTrans(a: NState, b: NState, c: NState)
    requires NExtends(a, b) && NAccounted(a, b)
    requires NExtends(b, c) && NAccounted(b, c)
    ensures NExtends(a, c) && NAccounted(a, c)
  {
    assert c.calls[..|a.calls|] == c.calls[..|b.calls|][..|a.calls|];
    if exists k :: |a.calls| <= k < |c.calls| && c.calls[k].preventedAfter {
      var k :| |a.calls| <= k < |c.calls| && c.calls[k].preventedAfter;
      if k < |b.calls| {
        assert b.calls[k] == c.calls[..|b.calls|][k];
      }
    }
    if exists k :: |a.calls| <= k < |b.calls| && b.calls[k].preventedAfter {
      var k :| |a.calls| <= k < |b.calls| && b.calls[k].preventedAfter;
      assert c.calls[k] == c.calls[..|b.calls|][k];
    }
  }

  lemma {:induction false} NAddedInTrans(a: NState, b: NState, c: NState, p1: set<int>, p2: set<int>)
    requires NExtends(a, b) && NAddedIn(a, b, p1) && NExtends(b, c) && NAddedIn(b, c, p2)
    ensures NExtends(a, c) && NAddedIn(a, c, p1 + p2)
  {
    assert c.calls[..|a.calls|] == c.calls[..|b.calls|][..|a.calls|];
    forall k | |a.calls| <= k < |c.calls|
      ensures c.calls[k].phase in p1 + p2
    {
      if k < |b.calls| {
        assert c.calls[k] == c.calls[..|b.calls|][k];
      }
    }
  }

  lemma {:induction false} NCaptureAccounted(st: NState, n: nat, script: nat -> Listener)
    requires n <= |st.tables|
    ensures var r := NCapture(st, n, script); NExtends(st, r) && NAccounted(st, r)
  {
    if n > 0 {
      NCaptureAccounted(st, n - 1, script);
      var c := NCapture(st, n - 1, script);
      var i := |st.tables| - n;
      NFireAtAccounted(c, i, if i == 0 then PhaseAtTarget else PhaseCapture, script);
      NAccountedTrans(st, c, NCapture(st, n, script));
    }
  }

  lemma {:induction false} NBubbleAccounted(st: NState, n: nat, script: nat -> Listener)
    requires n < |st.tables|
    ensures var r := NBubble(st, n, script); NExtends(st, r) && NAccounted(st, r)
  {
    if n > 0 {
      NBubbleAccounted(st, n - 1, script);
      var b := NBubble(st, n - 1, script);
      NFireAtAccounted(b, n, PhaseBubble, script);
      NAccountedTrans(st, b, NBubble(st, n, script));
    }
  }

  /** `dispatchEvent` returns false exactly when some `fireEvent` call saw
      `defaultPrevented === true` after one of its listeners, even if a
      later listener set it back. */
  lemma NDispatchPreventedIffReported(st: NState, script: nat -> Listener)
    requires |st.tables| > 0 && st.calls == [] && !st.prevented
    ensures var d := NDispatch(st, script);
      d.prevented <==> exists k :: 0 <= k < |d.calls| && d.calls[k].preventedAfter
  {
    NCaptureAccounted(st, |st.tables|, script);
    var c := NCapture(st, |st.tables|, script);
    NBubbleAccounted(c, |st.tables| - 1, script);
    NAccountedTrans(st, c, NDispatch(st, script));
  }

  lemma {:induction false} NCapturePhase(st: NState, n: nat, script: nat -> Listener)
    requires n <= |st.tables|
    ensures var r := NCapture(st, n, script); NExtends(st, r) && NAddedIn(st, r, {PhaseCapture, PhaseAtTarget})
  {
    if n > 0 {
      NCapturePhase(st, n - 1, script);
      var c := NCapture(st, n - 1, script);
      var i := |st.tables| - n;
      var phase := if i == 0 then PhaseAtTarget else PhaseCapture;
      NFireAtPhase(c, i, phase, script);
      NAddedInTrans(st, c, NCapture(st, n, script), {PhaseCapture, PhaseAtTarget}, {phase});
    }
  }

  lemma {:induction false} NBubblePhase(st: NState, n: nat, script: nat -> Listener)
    requires n < |st.tables|
    ensures var r := NBubble(st, n, script); NExtends(st, r) && NAddedIn(st, r, {PhaseBubble})
  {
    if n > 0 {
      NBubblePhase(st, n - 1, script);
      var b := NBubble(st, n - 1, script);
      NFireAtPhase(b, n, PhaseBubble, script);
      NAddedInTrans(st, b, NBubble(st, n, script), {PhaseBubble}, {PhaseBubble});
    }
  }

  /** Whatever the listeners do, a call of a dispatch runs in the bubble
      phase exactly when it comes after the calls of the capture loop,
      which run in the capture or at-target phase: `cancelBubble` never
      stops the second loop. */
  lemma NDispatchCallPhase(st: NState, script: nat -> Listener, k: int)
    requires |st.tables| > 0 && |st.calls| <= k < |NDispatch(st, script).calls|
    ensures NDispatch(st, script).calls[k].phase == PhaseBubble <==> k >= |NCapture(st, |st.tables|, script).calls|
  {
    var c := NCapture(st, |st.tables|, script);
    var d := NBubble(c, |st.tables| - 1, script);
    NCapturePhase(st, |st.tables|, script);
    NBubblePhase(c, |st.tables| - 1, script);
    PhaseSplit(st, c, d, k);
    assert NDispatch(st, script) == d;
  }

  lemma PhaseSplit(st: NState, c: NState, d: NState, k: int)
    requires NExtends(st, c) && NAddedIn(st, c, {PhaseCapture, PhaseAtTarget})
    requires NExtends(c, d) && NAddedIn(c, d, {PhaseBubble})
    requires |st.calls| <= k < |d.calls|
    ensures d.calls[k].phase == PhaseBubble <==> k >= |c.calls|
    ensures k < |c.calls| ==> d.calls[k].phase == PhaseCapture || d.calls[k].phase == PhaseAtTarget
  {
    if k < |c.calls| {
      assert d.calls[k] == d.calls[..|c.calls|][k] == c.calls[k];
      assert c.calls[k].phase in {PhaseCapture, PhaseAtTarget};
    } else {
      assert d.calls[k].phase in {PhaseBubble};
    }
  }


}
