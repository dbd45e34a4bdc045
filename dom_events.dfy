/** What `dispatchEvent` does (dom/src/dom/event-target.js,
    dom/src/dom/element.js, dom/src/dom.js): the event is fired on the
    path from the target up to the root, first in the capture phase from
    the root down to the target's parent, then on the target, then, if
    `cancelBubble` is still false, in the bubble phase from the parent up.
    Listener records carry no phase flag, so every listener of a node runs
    in each phase that visits it.

    Listeners are function ids; what a listener does to the event is
    scripted: the event methods it calls, in order, and then whether it
    returns a value or throws.  Dispatch is a function of the listener
    lists on the path, the script and the event's initial flags. */
module DomEvents {
  import opened JsValues
  import opened EventRouting

  /** A call a listener makes on the event. */
  datatype Action =
    | StopPropagation
    | StopImmediatePropagation
    | PreventDefault
    | SetReturnValue(v: Value)
    | SetCancelBubble(v: Value)

  datatype Outcome = Returns(v: Value) | Throws

  datatype Listener = Listener(actions: seq<Action>, outcome: Outcome)

  /** The fields of the event the dispatch reads or writes: `eventPhase`,
      `defaultPrevented`, `_stopPropagation` (read as `cancelBubble`) and
      `immediatePropagationStopped`. */
  datatype Flags = Flags(phase: Value, defaultPrevented: Value, cancelBubble: bool, immediate: bool)

  /** One event method (dom/src/dom/event.js): `cancelBubble` is only ever
      set, `stopImmediatePropagation` leaves it alone, and `returnValue`
      writes its value straight into `defaultPrevented`. */
  function ApplyAction(f: Flags, a: Action): (g: Flags)
    ensures g.phase == f.phase
    ensures f.cancelBubble ==> g.cancelBubble
    ensures f.immediate ==> g.immediate
  {
    match a
    case StopPropagation => f.(cancelBubble := true)
    case StopImmediatePropagation => f.(immediate := true)
    case PreventDefault => f.(defaultPrevented := Bool(true))
    case SetReturnValue(v) => f.(defaultPrevented := v)
    case SetCancelBubble(v) => if Truthy(v) then f.(cancelBubble := true) else f
  }

  function ApplyActions(f: Flags, actions: seq<Action>): Flags
    decreases |actions|
  {
    if actions == [] then f else ApplyAction(ApplyActions(f, actions[..|actions| - 1]), actions[|actions| - 1])
  }

  /** The two stop flags are sticky: no sequence of event calls clears
      them, and `stopImmediatePropagation` alone never sets `cancelBubble`. */
  lemma {:induction false} StopFlagsSticky(f: Flags, actions: seq<Action>)
    ensures f.cancelBubble ==> ApplyActions(f, actions).cancelBubble
    ensures f.immediate ==> ApplyActions(f, actions).immediate
    ensures ApplyActions(f, actions).phase == f.phase
    ensures (forall k :: 0 <= k < |actions| ==> actions[k] == StopImmediatePropagation) ==>
      ApplyActions(f, actions).cancelBubble == f.cancelBubble
    decreases |actions|
  {
    if actions != [] {
      StopFlagsSticky(f, actions[..|actions| - 1]);
    }
  }

  /** One listener call as seen from outside: where and in which phase it
      ran, whether it threw, and whether `defaultPrevented === true` held
      right after it. */
  datatype Invocation = Invocation(node: nat, phase: int, fn: nat, failed: bool, preventedAfter: bool)

  /** The state of one `fireEvent` loop. */
  datatype FireState = FireState(flags: Flags, calls: seq<Invocation>, local: bool, broke: bool)

  /** One turn of the `fireEvent` loop: set the phase, call the listener,
      turn a `false` return into `defaultPrevented = true`, note a
      `defaultPrevented === true`, and break on an immediate stop. */
  function FireStep(p: FireState, fn: nat, node: nat, phase: int, script: nat -> Listener): FireState {
    var l := script(fn);
    var f1 := ApplyActions(p.flags.(phase := Num(phase)), l.actions);
    var f2 := if l.outcome == Returns(Bool(false)) then f1.(defaultPrevented := Bool(true)) else f1;
    var prevented := f2.defaultPrevented == Bool(true);
    FireState(f2, p.calls + [Invocation(node, phase, fn, l.outcome.Throws?, prevented)], p.local || prevented, f2.immediate)
  }

  /** The first `k` turns of the loop over the snapshot `items`. */
  function FirePrefix(start: FireState, items: seq<nat>, k: nat, node: nat, phase: int, script: nat -> Listener): FireState
    requires k <= |items|
  {
    if k == 0 then start
    else
      var p := FirePrefix(start, items, k - 1, node, phase, script);
      if p.broke then p else FireStep(p, items[k - 1], node, phase, script)
  }

  /** The state of a whole dispatch: the event's flags, the calls so far,
      the `defaultPrevented` local of `dispatchEvent`, and whether a
      `fireEvent` threw (a node without a listener table). */
  datatype DState = DState(flags: Flags, calls: seq<Invocation>, prevented: bool, aborted: bool)

  /** `fireEvent(event, path[i], phase)`.  `tables[i]` is the listener
      list of `path[i]` for the event's type: `None` when the node has no
      listener table at all, the empty list when it has none for the type. */
  function FireAt(st: DState, tables: seq<Option<seq<nat>>>, i: nat, phase: int, script: nat -> Listener): DState
    requires i < |tables|
  {
    if st.aborted then st
    else
      match tables[i]
      case None => st.(aborted := true)
      case Some(list) =>
        var f := FirePrefix(FireState(st.flags, st.calls, false, false), list, |list|, i, phase, script);
        DState(f.flags, f.calls, st.prevented || f.local, false)
  }

  /** The capture loop after `n` turns: indices |path|-1 down to |path|-n. */
  function Capture(st: DState, tables: seq<Option<seq<nat>>>, n: nat, script: nat -> Listener): DState
    requires n < |tables|
  {
    if n == 0 then st
    else FireAt(Capture(st, tables, n - 1, script), tables, |tables| - n, EventPhaseCapture, script)
  }

  /** The bubble loop after `n` turns: indices 1 to n. */
  function Bubble(st: DState, tables: seq<Option<seq<nat>>>, n: nat, script: nat -> Listener): DState
    requires n < |tables|
  {
    if n == 0 then st
    else FireAt(Bubble(st, tables, n - 1, script), tables, n, EventPhaseBubble, script)
  }

  /** The state after the capture loop and the target. */
  function ThroughTarget(st: DState, tables: seq<Option<seq<nat>>>, script: nat -> Listener): DState
    requires |tables| > 0
  {
    FireAt(Capture(st, tables, |tables| - 1, script), tables, 0, EventPhaseAtTarget, script)
  }

  /** The whole dispatch; `cancelBubble` is read once, after the target. */
  function Dispatch(st: DState, tables: seq<Option<seq<nat>>>, script: nat -> Listener): DState
    requires |tables| > 0
  {
    var t := ThroughTarget(st, tables, script);
    if t.flags.cancelBubble then t else Bubble(t, tables, |tables| - 1, script)
  }

  function Start(f: Flags): DState {
    DState(f, [], false, false)
  }

  /** Once the loop has broken, later turns change nothing. */
  lemma {:induction false} BrokeStays(start: FireState, items: seq<nat>, k: nat, m: nat, node: nat, phase: int, script: nat -> Listener)
    requires k <= m <= |items|
    requires FirePrefix(start, items, k, node, phase, script).broke
    ensures FirePrefix(start, items, m, node, phase, script) == FirePrefix(start, items, k, node, phase, script)
    decreases m - k
  {
    if m > k {
      BrokeStays(start, items, k, m - 1, node, phase, script);
    }
  }

  /** Once a `fireEvent` has thrown, the rest of the capture loop changes
      nothing. */
  lemma {:induction false} CaptureAbortStays(st: DState, tables: seq<Option<seq<nat>>>, k: nat, m: nat, script: nat -> Listener)
    requires k <= m < |tables|
    requires Capture(st, tables, k, script).aborted
    ensures Capture(st, tables, m, script) == Capture(st, tables, k, script)
    decreases m - k
  {
    if m > k {
      CaptureAbortStays(st, tables, k, m - 1, script);
    }
  }

  /** Likewise for the bubble loop. */
  lemma {:induction false} BubbleAbortStays(st: DState, tables: seq<Option<seq<nat>>>, k: nat, m: nat, script: nat -> Listener)
    requires k <= m < |tables|
    requires Bubble(st, tables, k, script).aborted
    ensures Bubble(st, tables, m, script) == Bubble(st, tables, k, script)
    decreases m - k
  {
    if m > k {
      BubbleAbortStays(st, tables, k, m - 1, script);
    }
  }

  /** A capture loop over nodes that all have listener tables never throws. */
  lemma {:induction false} CaptureNoAbort(st: DState, tables: seq<Option<seq<nat>>>, n: nat, script: nat -> Listener)
    requires n < |tables| && !st.aborted
    requires forall i :: 1 <= i < |tables| ==> tables[i].Some?
    ensures !Capture(st, tables, n, script).aborted
  {
    if n > 0 {
      CaptureNoAbort(st, tables, n - 1, script);
    }
  }

  /** A target without a listener table (a text node of dom/src/dom, which
      is an EventTarget without `[LISTENERS]`) still lets every ancestor
      run its capture listeners, then throws at the target: nothing
      bubbles. */
  lemma TableLessTargetThrowsAfterCapture(f: Flags, tables: seq<Option<seq<nat>>>, script: nat -> Listener)
    requires |tables| > 0 && tables[0].None?
    requires forall i :: 1 <= i < |tables| ==> tables[i].Some?
    ensures var c := Capture(Start(f), tables, |tables| - 1, script);
      var d := Dispatch(Start(f), tables, script);
      && !c.aborted && d.aborted && d.calls == c.calls
  {
    CaptureNoAbort(Start(f), tables, |tables| - 1, script);
    var t := ThroughTarget(Start(f), tables, script);
    if !t.flags.cancelBubble {
      BubbleAbortStays(t, tables, 0, |tables| - 1, script);
    }
  }

  // ---------------------------------------------------------------------
  // Order of the calls when no listener touches the event.

  /** A listener that calls no event method and does not return `false`
      (it may throw). */
  predicate Quiet(l: Listener) {
    l.actions == [] && l.outcome != Returns(Bool(false))
  }

  /** The calls one node's list makes when every listener is quiet. */
  function NodeCalls(list: seq<nat>, node: nat, phase: int, script: nat -> Listener): (r: seq<Invocation>)
    ensures |r| == |list|
  {
    seq(|list|, k requires 0 <= k < |list| => Invocation(node, phase, list[k], script(list[k]).outcome.Throws?, false))
  }

  function ListOf(t: Option<seq<nat>>): seq<nat> {
    match t case Some(l) => l case None => []
  }

  function CaptureCalls(tables: seq<Option<seq<nat>>>, n: nat, script: nat -> Listener): seq<Invocation>
    requires n < |tables|
  {
    if n == 0 then []
    else CaptureCalls(tables, n - 1, script) + NodeCalls(ListOf(tables[|tables| - n]), |tables| - n, EventPhaseCapture, script)
  }
  lemma CaptureCallsStep(tables: seq<Option<seq<nat>>>, n: nat, script: nat -> Listener)
    requires 0 < n < |tables|
    ensures CaptureCalls(tables, n, script)
      == CaptureCalls(tables, n - 1, script) + NodeCalls(ListOf(tables[|tables| - n]), |tables| - n, EventPhaseCapture, script)
  {
  }


  function BubbleCalls(tables: seq<Option<seq<nat>>>, n: nat, script: nat -> Listener): seq<Invocation>
    requires n < |tables|
  {
    if n == 0 then []
    else BubbleCalls(tables, n - 1, script) + NodeCalls(ListOf(tables[n]), n, EventPhaseBubble, script)
  }
  lemma BubbleCallsStep(tables: seq<Option<seq<nat>>>, n: nat, script: nat -> Listener)
    requires 0 < n < |tables|
    ensures BubbleCalls(tables, n, script)
      == BubbleCalls(tables, n - 1, script) + NodeCalls(ListOf(tables[n]), n, EventPhaseBubble, script)
  {
  }


  predicate AllQuiet(tables: seq<Option<seq<nat>>>, script: nat -> Listener) {
    forall i, k :: 0 <= i < |tables| && tables[i].Some? && 0 <= k < |tables[i].value| ==> Quiet(script(tables[i].value[k]))
  }

  /** Flags in which nothing is stopped or prevented. */
  predicate Clean(f: Flags) {
    !f.cancelBubble && !f.immediate && f.defaultPrevented != Bool(true)
  }

  lemma {:induction false} QuietFire(start: FireState, items: seq<nat>, k: nat, node: nat, phase: int, script: nat -> Listener)
    requires k <= |items|
    requires forall j :: 0 <= j < |items| ==> Quiet(script(items[j]))
    requires Clean(start.flags) && !start.broke && !start.local
    ensures var f := FirePrefix(start, items, k, node, phase, script);
      && f.calls == start.calls + NodeCalls(items[..k], node, phase, script)
      && Clean(f.flags) && !f.broke && !f.local
      && f.flags.(phase := start.flags.phase) == start.flags
  {
    if k > 0 {
      QuietFire(start, items, k - 1, node, phase, script);
      var p := FirePrefix(start, items, k - 1, node, phase, script);
      assert ApplyActions(p.flags.(phase := Num(phase)), []) == p.flags.(phase := Num(phase));
      assert NodeCalls(items[..k], node, phase, script)
        == NodeCalls(items[..k - 1], node, phase, script) + [Invocation(node, phase, items[k - 1], script(items[k - 1]).outcome.Throws?, false)];
    }
  }

  lemma QuietFireAt(st: DState, tables: seq<Option<seq<nat>>>, i: nat, phase: int, script: nat -> Listener)
    requires i < |tables| && tables[i].Some? && AllQuiet(tables, script)
    requires Clean(st.flags) && !st.aborted && !st.prevented
    ensures var r := FireAt(st, tables, i, phase, script);
      && r.calls == st.calls + NodeCalls(ListOf(tables[i]), i, phase, script)
      && Clean(r.flags) && !r.aborted && !r.prevented
  {
    var list := tables[i].value;
    QuietFire(FireState(st.flags, st.calls, false, false), list, |list|, i, phase, script);
    assert list[..|list|] == list;
  }

  lemma {:induction false} QuietCapture(st: DState, tables: seq<Option<seq<nat>>>, n: nat, script: nat -> Listener)
    requires n < |tables| && (forall i :: 0 <= i < |tables| ==> tables[i].Some?) && AllQuiet(tables, script)
    requires Clean(st.flags) && !st.aborted && !st.prevented
    ensures var r := Capture(st, tables, n, script);
      r.calls == st.calls + CaptureCalls(tables, n, script) && Clean(r.flags) && !r.aborted && !r.prevented
  {
    if n > 0 {
      QuietCapture(st, tables, n - 1, script);
      QuietCaptureStep(st, tables, n, script);
    }
  }

  lemma QuietCaptureStep(st: DState, tables: seq<Option<seq<nat>>>, n: nat, script: nat -> Listener)
    requires 0 < n < |tables| && tables[|tables| - n].Some? && AllQuiet(tables, script)
    requires var c := Capture(st, tables, n - 1, script);
      c.calls == st.calls + CaptureCalls(tables, n - 1, script) && Clean(c.flags) && !c.aborted && !c.prevented
    ensures var r := Capture(st, tables, n, script);
      r.calls == st.calls + CaptureCalls(tables, n, script) && Clean(r.flags) && !r.aborted && !r.prevented
  {
    var c := Capture(st, tables, n - 1, script);
    var i := |tables| - n;
    QuietFireAt(c, tables, i, EventPhaseCapture, script);
    var node := NodeCalls(ListOf(tables[i]), i, EventPhaseCapture, script);
    var prev := CaptureCalls(tables, n - 1, script);
    CaptureCallsStep(tables, n, script);
    assert st.calls + (prev + node) == (st.calls + prev) + node;
  }


  lemma {:induction false} QuietBubble(st: DState, tables: seq<Option<seq<nat>>>, n: nat, script: nat -> Listener)
    requires n < |tables| && (forall i :: 0 <= i < |tables| ==> tables[i].Some?) && AllQuiet(tables, script)
    requires Clean(st.flags) && !st.aborted && !st.prevented
    ensures var r := Bubble(st, tables, n, script);
      r.calls == st.calls + BubbleCalls(tables, n, script) && Clean(r.flags) && !r.aborted && !r.prevented
  {
    if n > 0 {
      QuietBubble(st, tables, n - 1, script);
      QuietBubbleStep(st, tables, n, script);
    }
  }

  lemma QuietBubbleStep(st: DState, tables: seq<Option<seq<nat>>>, n: nat, script: nat -> Listener)
    requires 0 < n < |tables| && tables[n].Some? && AllQuiet(tables, script)
    requires var b := Bubble(st, tables, n - 1, script);
      b.calls == st.calls + BubbleCalls(tables, n - 1, script) && Clean(b.flags) && !b.aborted && !b.prevented
    ensures var r := Bubble(st, tables, n, script);
      r.calls == st.calls + BubbleCalls(tables, n, script) && Clean(r.flags) && !r.aborted && !r.prevented
  {
    var b := Bubble(st, tables, n - 1, script);
    QuietFireAt(b, tables, n, EventPhaseBubble, script);
    var node := NodeCalls(ListOf(tables[n]), n, EventPhaseBubble, script);
    var prev := BubbleCalls(tables, n - 1, script);
    BubbleCallsStep(tables, n, script);
    assert st.calls + (prev + node) == (st.calls + prev) + node;
  }


  /** When no listener touches the event, every listener on the path runs:
      the ancestors' lists from the root down in the capture phase, the
      target's list, then the ancestors' lists again from the parent up in
      the bubble phase, each list in order; a listener that throws does not
      stop anything, and `dispatchEvent` returns true. */
  lemma QuietDispatchOrder(f: Flags, tables: seq<Option<seq<nat>>>, script: nat -> Listener)
    requires |tables| > 0 && (forall i :: 0 <= i < |tables| ==> tables[i].Some?) && AllQuiet(tables, script)
    requires Clean(f)
    ensures var d := Dispatch(Start(f), tables, script);
      && d.calls == CaptureCalls(tables, |tables| - 1, script)
                    + NodeCalls(ListOf(tables[0]), 0, EventPhaseAtTarget, script)
                    + BubbleCalls(tables, |tables| - 1, script)
      && !d.aborted && !d.prevented
  {
    var n := |tables| - 1;
    QuietCapture(Start(f), tables, n, script);
    var c := Capture(Start(f), tables, n, script);
    assert c.calls == CaptureCalls(tables, n, script) && Clean(c.flags) && !c.aborted && !c.prevented;
    QuietFireAt(c, tables, 0, EventPhaseAtTarget, script);
    var t := FireAt(c, tables, 0, EventPhaseAtTarget, script);
    assert t == ThroughTarget(Start(f), tables, script);
    assert t.calls == c.calls + NodeCalls(ListOf(tables[0]), 0, EventPhaseAtTarget, script);
    assert !t.flags.cancelBubble;
    QuietBubble(t, tables, n, script);
    var b := Bubble(t, tables, n, script);
    assert Dispatch(Start(f), tables, script) == b;
    assert b.calls == t.calls + BubbleCalls(tables, n, script);
  }

  /** An ancestor's listener runs twice, once per phase: a target with no
      listeners under a parent with listener 7. */
  lemma AncestorListenerRunsTwice(script: nat -> Listener)
    requires Quiet(script(7)) && script(7).outcome != Throws
    ensures Dispatch(Start(Flags(Undefined, Bool(false), false, false)), [Some([]), Some([7])], script).calls
      == [Invocation(1, EventPhaseCapture, 7, false, false), Invocation(1, EventPhaseBubble, 7, false, false)]
  {
    var tables := [Some([]), Some([7])];
    QuietDispatchOrder(Flags(Undefined, Bool(false), false, false), tables, script);
    assert CaptureCalls(tables, 1, script) == [Invocation(1, EventPhaseCapture, 7, false, false)];
    assert BubbleCalls(tables, 1, script) == [Invocation(1, EventPhaseBubble, 7, false, false)];
  }

  // ---------------------------------------------------------------------
  // What any dispatch does.

  predicate Extends(st: DState, r: DState) {
    |st.calls| <= |r.calls| && r.calls[..|st.calls|] == st.calls
  }

  /** `prevented` of `r` is that of `st` or some call made since reported
      `defaultPrevented === true`. */
  predicate PreventedAccounted(st: DState, r: DState)
    requires Extends(st, r)
  {
    r.prevented <==> st.prevented || exists k :: |st.calls| <= k < |r.calls| && r.calls[k].preventedAfter
  }

  lemma {:induction false} FirePrefixAccounted(start: FireState, items: seq<nat>, k: nat, node: nat, phase: int, script: nat -> Listener)
    requires k <= |items| && !start.local
    ensures var f := FirePrefix(start, items, k, node, phase, script);
      && |start.calls| <= |f.calls| && f.calls[..|start.calls|] == start.calls
      && (f.local <==> exists j :: |start.calls| <= j < |f.calls| && f.calls[j].preventedAfter)
      && (start.broke ==> f == start)
      && (!start.broke && k > 0 ==> |f.calls| > |start.calls|)
  {
    if k > 0 {
      FirePrefixAccounted(start, items, k - 1, node, phase, script);
      var p := FirePrefix(start, items, k - 1, node, phase, script);
      if !p.broke {
        var f := FireStep(p, items[k - 1], node, phase, script);
        assert f.calls[..|p.calls|] == p.calls;
        assert f.calls[..|start.calls|] == p.calls[..|start.calls|];
        if f.local && !p.local {
          assert f.calls[|f.calls| - 1].preventedAfter;
        }
        if exists j :: |start.calls| <= j < |f.calls| && f.calls[j].preventedAfter {
          var j :| |start.calls| <= j < |f.calls| && f.calls[j].preventedAfter;
          if j < |p.calls| {
            assert p.calls[j] == f.calls[j];
          }
        }
      }
    }
  }

  lemma FireAtAccounted(st: DState, tables: seq<Option<seq<nat>>>, i: nat, phase: int, script: nat -> Listener)
    requires i < |tables|
    ensures var r := FireAt(st, tables, i, phase, script);
      Extends(st, r) && PreventedAccounted(st, r) && (st.aborted ==> r == st)
  {
    if !st.aborted && tables[i].Some? {
      var list := tables[i].value;
      FirePrefixAccounted(FireState(st.flags, st.calls, false, false), list, |list|, i, phase, script);
    }
  }

  lemma {:induction false} ExtendsTrans(a: DState, b: DState, c: DState)
    requires Extends(a, b) && PreventedAccounted(a, b)
    requires Extends(b, c) && PreventedAccounted(b, c)
    ensures Extends(a, c) && PreventedAccounted(a, c)
  {
    assert c.calls[..|a.calls|] == c.calls[..|b.calls|][..|a.calls|];
    if exists k :: |a.calls| <= k < |c.calls| && c.calls[k].preventedAfter {
      var k :| |a.calls| <= k < |c.calls| && c.calls[k].preventedAfter;
      if k < |b.calls| {
        assert b.calls[k] == c.calls[..|b.calls|][k];
      }
    }
    if exists k :: |a.calls| <= k < |b.calls| && b.calls[k].preventedAfter {
      var k :| |a.calls| <= k < |b.calls| && b.calls[k].preventedAfter;
      assert c.calls[k] == c.calls[..|b.calls|][k];
    }
  }

  lemma {:induction false} CaptureAccounted(st: DState, tables: seq<Option<seq<nat>>>, n: nat, script: nat -> Listener)
    requires n < |tables|
    ensures var r := Capture(st, tables, n, script); Extends(st, r) && PreventedAccounted(st, r)
  {
    if n > 0 {
      CaptureAccounted(st, tables, n - 1, script);
      var c := Capture(st, tables, n - 1, script);
      FireAtAccounted(c, tables, |tables| - n, EventPhaseCapture, script);
      ExtendsTrans(st, c, Capture(st, tables, n, script));
    }
  }

  lemma {:induction false} BubbleAccounted(st: DState, tables: seq<Option<seq<nat>>>, n: nat, script: nat -> Listener)
    requires n < |tables|
    ensures var r := Bubble(st, tables, n, script); Extends(st, r) && PreventedAccounted(st, r)
  {
    if n > 0 {
      BubbleAccounted(st, tables, n - 1, script);
      var b := Bubble(st, tables, n - 1, script);
      FireAtAccounted(b, tables, n, EventPhaseBubble, script);
      ExtendsTrans(st, b, Bubble(st, tables, n, script));
    }
  }

  /** `dispatchEvent` returns false exactly when some listener call left
      `defaultPrevented === true` behind it, even if a later listener set
      it back. */
  lemma DispatchPreventedIffReported(f: Flags, tables: seq<Option<seq<nat>>>, script: nat -> Listener)
    requires |tables| > 0
    ensures var d := Dispatch(Start(f), tables, script);
      d.prevented <==> exists k :: 0 <= k < |d.calls| && d.calls[k].preventedAfter
  {
    DispatchAccounted(Start(f), tables, script);
  }

  /** A whole dispatch keeps the calls made before it and accounts for
      `prevented` by the calls it makes. */
  lemma DispatchAccounted(st: DState, tables: seq<Option<seq<nat>>>, script: nat -> Listener)
    requires |tables| > 0
    ensures var d := Dispatch(st, tables, script); Extends(st, d) && PreventedAccounted(st, d)
  {
    var t := ThroughTarget(st, tables, script);
    ThroughTargetAccounted(st, tables, script);
    if !t.flags.cancelBubble {
      BubbleAccounted(t, tables, |tables| - 1, script);
      ExtendsTrans(st, t, Bubble(t, tables, |tables| - 1, script));
    }
  }

  lemma ThroughTargetAccounted(st: DState, tables: seq<Option<seq<nat>>>, script: nat -> Listener)
    requires |tables| > 0
    ensures var t := ThroughTarget(st, tables, script); Extends(st, t) && PreventedAccounted(st, t)
  {
    CaptureAccounted(st, tables, |tables| - 1, script);
    var c := Capture(st, tables, |tables| - 1, script);
    FireAtAccounted(c, tables, 0, EventPhaseAtTarget, script);
    ExtendsTrans(st, c, FireAt(c, tables, 0, EventPhaseAtTarget, script));
  }


  /** Every call a stretch of dispatch added ran in one of `phases`. */
  predicate AddedIn(st: DState, r: DState, phases: set<int>)
    requires Extends(st, r)
  {
    forall k :: |st.calls| <= k < |r.calls| ==> r.calls[k].phase in phases
  }

  lemma {:induction false} FirePrefixPhase(start: FireState, items: seq<nat>, k: nat, node: nat, phase: int, script: nat -> Listener)
    requires k <= |items|
    ensures var f := FirePrefix(start, items, k, node, phase, script);
      && |start.calls| <= |f.calls| && f.calls[..|start.calls|] == start.calls
      && forall j :: |start.calls| <= j < |f.calls| ==> f.calls[j].phase == phase
  {
    if k > 0 {
      FirePrefixPhase(start, items, k - 1, node, phase, script);
      var p := FirePrefix(start, items, k - 1, node, phase, script);
      if !p.broke {
        var f := FireStep(p, items[k - 1], node, phase, script);
        assert f.calls[..|start.calls|] == p.calls[..|start.calls|];
        assert forall j :: |start.calls| <= j < |p.calls| ==> f.calls[j] == p.calls[j];
      }
    }
  }

  lemma FireAtPhase(st: DState, tables: seq<Option<seq<nat>>>, i: nat, phase: int, script: nat -> Listener)
    requires i < |tables|
    ensures var r := FireAt(st, tables, i, phase, script); Extends(st, r) && AddedIn(st, r, {phase})
  {
    if !st.aborted && tables[i].Some? {
      var list := tables[i].value;
      FirePrefixPhase(FireState(st.flags, st.calls, false, false), list, |list|, i, phase, script);
    }
  }

  lemma {:induction false} AddedInTrans(a: DState, b: DState, c: DState, p1: set<int>, p2: set<int>)
    requires Extends(a, b) && AddedIn(a, b, p1) && Extends(b, c) && AddedIn(b, c, p2)
    ensures Extends(a, c) && AddedIn(a, c, p1 + p2)
  {
    assert c.calls[..|a.calls|] == c.calls[..|b.calls|][..|a.calls|];
    forall k | |a.calls| <= k < |c.calls|
      ensures c.calls[k].phase in p1 + p2
    {
      if k < |b.calls| {
        assert c.calls[k] == c.calls[..|b.calls|][k];
      }
    }
  }

  lemma {:induction false} CapturePhase(st: DState, tables: seq<Option<seq<nat>>>, n: nat, script: nat -> Listener)
    requires n < |tables|
    ensures var r := Capture(st, tables, n, script); Extends(st, r) && AddedIn(st, r, {EventPhaseCapture})
  {
    if n > 0 {
      CapturePhase(st, tables, n - 1, script);
      var c := Capture(st, tables, n - 1, script);
      FireAtPhase(c, tables, |tables| - n, EventPhaseCapture, script);
      AddedInTrans(st, c, Capture(st, tables, n, script), {EventPhaseCapture}, {EventPhaseCapture});
    }
  }

  lemma {:induction false} BubblePhase(st: DState, tables: seq<Option<seq<nat>>>, n: nat, script: nat -> Listener)
    requires n < |tables|
    ensures var r := Bubble(st, tables, n, script); Extends(st, r) && AddedIn(st, r, {EventPhaseBubble})
  {
    if n > 0 {
      BubblePhase(st, tables, n - 1, script);
      var b := Bubble(st, tables, n - 1, script);
      FireAtPhase(b, tables, n, EventPhaseBubble, script);
      AddedInTrans(st, b, Bubble(st, tables, n, script), {EventPhaseBubble}, {EventPhaseBubble});
    }
  }

  /** `cancelBubble` is read once, after the target: when it is set by
      then no call runs in the bubble phase; otherwise every call after
      those of the capture phase and the target runs in the bubble phase,
      whatever the bubble listeners do to the flag. */
  lemma CancelBubbleReadOnce(f: Flags, tables: seq<Option<seq<nat>>>, script: nat -> Listener)
    requires |tables| > 0
    ensures var t := ThroughTarget(Start(f), tables, script);
      var d := Dispatch(Start(f), tables, script);
      && Extends(t, d)
      && (forall k :: 0 <= k < |t.calls| ==> t.calls[k].phase in {EventPhaseCapture, EventPhaseAtTarget})
      && (forall k :: |t.calls| <= k < |d.calls| ==> d.calls[k].phase == EventPhaseBubble)
      && (t.flags.cancelBubble ==> forall k :: 0 <= k < |d.calls| ==> d.calls[k].phase != EventPhaseBubble)
  {
    var st := Start(f);
    CapturePhase(st, tables, |tables| - 1, script);
    var c := Capture(st, tables, |tables| - 1, script);
    FireAtPhase(c, tables, 0, EventPhaseAtTarget, script);
    var t := ThroughTarget(st, tables, script);
    AddedInTrans(st, c, t, {EventPhaseCapture}, {EventPhaseAtTarget});
    if !t.flags.cancelBubble {
      BubblePhase(t, tables, |tables| - 1, script);
    }
  }

  /** Calling `preventDefault` and then setting `returnValue = false`
      leaves `defaultPrevented` false on the event, yet the dispatch
      reports it prevented. */
  lemma ReturnValueResetStillReported(script: nat -> Listener)
    requires script(1) == Listener([PreventDefault], Returns(Undefined))
    requires script(2) == Listener([SetReturnValue(Bool(false))], Returns(Undefined))
    ensures var d := Dispatch(Start(Flags(Undefined, Bool(false), false, false)), [Some([1, 2])], script);
      d.flags.defaultPrevented == Bool(false) && d.prevented && !d.aborted
  {
    var tables := [Some([1, 2])];
    var f0 := Flags(Undefined, Bool(false), false, false);
    var start := FireState(f0, [], false, false);
    var p1 := FirePrefix(start, [1, 2], 1, 0, EventPhaseAtTarget, script);
    assert ApplyActions(f0.(phase := Num(EventPhaseAtTarget)), [PreventDefault])
      == ApplyAction(ApplyActions(f0.(phase := Num(EventPhaseAtTarget)), []), PreventDefault);
    assert p1.local;
    var p2 := FirePrefix(start, [1, 2], 2, 0, EventPhaseAtTarget, script);
    assert ApplyActions(p1.flags.(phase := Num(EventPhaseAtTarget)), [SetReturnValue(Bool(false))])
      == ApplyAction(ApplyActions(p1.flags.(phase := Num(EventPhaseAtTarget)), []), SetReturnValue(Bool(false)));
    assert p2.local && p2.flags.defaultPrevented == Bool(false);
  }

  /** `stopImmediatePropagation` in the first listener of an ancestor stops
      the rest of that list and, because the flag is never cleared, every
      later node runs its first listener only. */
  lemma ImmediateStopIsSticky(script: nat -> Listener)
    requires script(1) == Listener([StopImmediatePropagation], Returns(Undefined))
    requires script(2) == Listener([], Returns(Undefined))
    ensures Dispatch(Start(Flags(Undefined, Bool(false), false, false)), [Some([1, 2]), Some([1, 2])], script).calls
      == [Invocation(1, EventPhaseCapture, 1, false, false),
          Invocation(0, EventPhaseAtTarget, 1, false, false),
          Invocation(1, EventPhaseBubble, 1, false, false)]
  {
    var tables := [Some([1, 2]), Some([1, 2])];
    var f0 := Flags(Undefined, Bool(false), false, false);
    var st0 := Start(f0);
    var c := FireAt(st0, tables, 1, EventPhaseCapture, script);
    FirstListenerBreaks(st0, tables, 1, EventPhaseCapture, script);
    assert Capture(st0, tables, 1, script) == c;
    var t := FireAt(c, tables, 0, EventPhaseAtTarget, script);
    FirstListenerBreaks(c, tables, 0, EventPhaseAtTarget, script);
    assert ThroughTarget(st0, tables, script) == t;
    var b := FireAt(t, tables, 1, EventPhaseBubble, script);
    FirstListenerBreaks(t, tables, 1, EventPhaseBubble, script);
    assert Bubble(t, tables, 1, script) == b;
  }

  /** A list whose first listener only calls `stopImmediatePropagation`
      makes exactly that one call. */
  lemma FirstListenerBreaks(st: DState, tables: seq<Option<seq<nat>>>, i: nat, phase: int, script: nat -> Listener)
    requires i < |tables| && tables[i] == Some([1, 2]) && !st.aborted
    requires script(1) == Listener([StopImmediatePropagation], Returns(Undefined))
    requires st.flags.defaultPrevented == Bool(false)
    ensures var r := FireAt(st, tables, i, phase, script);
      && r.calls == st.calls + [Invocation(i, phase, 1, false, false)]
      && r.flags == st.flags.(phase := Num(phase), immediate := true)
      && !r.aborted && r.prevented == st.prevented
  {
    var start := FireState(st.flags, st.calls, false, false);
    var g := st.flags.(phase := Num(phase));
    assert ApplyActions(g, [StopImmediatePropagation]) == ApplyAction(ApplyActions(g, []), StopImmediatePropagation);
    var items: seq<nat> := [1, 2];
    assert FirePrefix(start, items, 0, i, phase, script) == start;
    var p1 := FirePrefix(start, items, 1, i, phase, script);
    assert p1 == FireStep(start, items[0], i, phase, script);
    assert p1.broke && p1.flags == g.(immediate := true);
    assert FirePrefix(start, items, 2, i, phase, script) == p1;
  }
}
