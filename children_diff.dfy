/** The `updateChildren` command of the bridge (src/dom/bridge.js and the
    identical code in dom/src/dom.js): from the old and the new children of a
    node, as binding ids, it computes the five lists handed to the host's
    `manageChildren`.  Identity is by id (see ChildIdentity). */
module ChildrenDiff {
  import opened ChildIdentity

  /** The arguments of `manageChildren` after the container tag. */
  datatype ManageOps = ManageOps(
    moveFrom: seq<int>,
    moveTo: seq<int>,
    addTags: seq<int>,
    addAt: seq<int>,
    removeAt: seq<int>)

  const NoOps := ManageOps([], [], [], [], [])

  /** Ids of `next[..n]` with no copy in `prev`, in order. */
  function AddTags(prev: seq<int>, next: seq<int>, n: nat): seq<int>
    requires n <= |next|
  {
    if n == 0 then []
    else AddTags(prev, next, n - 1) + (if GetChildIndex(prev, next[n - 1]) == -1 then [next[n - 1]] else [])
  }

  /** Positions in `next[..n]` of those ids. */
  function AddAt(prev: seq<int>, next: seq<int>, n: nat): seq<int>
    requires n <= |next|
  {
    if n == 0 then []
    else AddAt(prev, next, n - 1) + (if GetChildIndex(prev, next[n - 1]) == -1 then [n - 1] else [])
  }

  /** Positions in `prev[..n]` whose id has no copy in `next`. */
  function RemoveAt(prev: seq<int>, next: seq<int>, n: nat): seq<int>
    requires n <= |prev|
  {
    if n == 0 then []
    else RemoveAt(prev, next, n - 1) + (if GetChildIndex(next, prev[n - 1]) == -1 then [n - 1] else [])
  }

  /** Positions in `prev[..n]` whose id is first found in `next` at another position. */
  function MoveFrom(prev: seq<int>, next: seq<int>, n: nat): seq<int>
    requires n <= |prev|
  {
    if n == 0 then []
    else
      var p := GetChildIndex(next, prev[n - 1]);
      MoveFrom(prev, next, n - 1) + (if p != -1 && p != n - 1 then [n - 1] else [])
  }

  /** The matching target positions: where each moved id is first found in `next`. */
  function MoveTo(prev: seq<int>, next: seq<int>, n: nat): seq<int>
    requires n <= |prev|
  {
    if n == 0 then []
    else
      var p := GetChildIndex(next, prev[n - 1]);
      MoveTo(prev, next, n - 1) + (if p != -1 && p != n - 1 then [p] else [])
  }

  /** The whole diff. */
  function Diff(prev: seq<int>, next: seq<int>): ManageOps {
    ManageOps(
      MoveFrom(prev, next, |prev|),
      MoveTo(prev, next, |prev|),
      AddTags(prev, next, |next|),
      AddAt(prev, next, |next|),
      RemoveAt(prev, next, |prev|))
  }

  /** The two `forEach` passes of the `updateChildren` case. */
  method ComputeDiff(prev: seq<int>, next: seq<int>) returns (ops: ManageOps)
    ensures ops == Diff(prev, next)
  {
    var addTags: seq<int> := [];
    var addAt: seq<int> := [];
    var i := 0;
    while i < |next|
      invariant 0 <= i <= |next|
      invariant addTags == AddTags(prev, next, i)
      invariant addAt == AddAt(prev, next, i)
    {
      var found := GetChildIndex(prev, next[i]);
      if found == -1 {
        addTags := addTags + [next[i]];
        addAt := addAt + [i];
      }
      i := i + 1;
    }
    var removeAt: seq<int> := [];
    var moveFrom: seq<int> := [];
    var moveTo: seq<int> := [];
    var j := 0;
    while j < |prev|
      invariant 0 <= j <= |prev|
      invariant removeAt == RemoveAt(prev, next, j)
      invariant moveFrom == MoveFrom(prev, next, j)
      invariant moveTo == MoveTo(prev, next, j)
    {
      var newPos := GetChildIndex(next, prev[j]);
      if newPos == -1 {
        removeAt := removeAt + [j];
      } else if newPos != j {
        moveFrom := moveFrom + [j];
        moveTo := moveTo + [newPos];
      }
      j := j + 1;
    }
    ops := ManageOps(moveFrom, moveTo, addTags, addAt, removeAt);
  }

  predicate StrictlyIncreasing(s: seq<int>) {
    forall k, l :: 0 <= k < l < |s| ==> s[k] < s[l]
  }

  predicate Distinct(s: seq<int>) {
    forall i, j :: 0 <= i < j < |s| ==> s[i] != s[j]
  }

  lemma AddsPrefix(prev: seq<int>, next: seq<int>, n: nat)
    requires n <= |next|
    ensures var tags := AddTags(prev, next, n); var at := AddAt(prev, next, n);
      && |tags| == |at|
      && StrictlyIncreasing(at)
      && (forall k :: 0 <= k < |at| ==> 0 <= at[k] < n && tags[k] == next[at[k]] && next[at[k]] !in prev)
      && (forall j :: 0 <= j < n && next[j] !in prev ==> j in at)
  {
    AddsPaired(prev, next, n);
    AddsIncreasing(prev, next, n);
    AddsComplete(prev, next, n);
  }

  /** Each reported position is below `n`, holds an id absent from `prev`,
      and is paired with that id. */
  lemma {:induction false} AddsPaired(prev: seq<int>, next: seq<int>, n: nat)
    requires n <= |next|
    ensures var tags := AddTags(prev, next, n); var at := AddAt(prev, next, n);
      && |tags| == |at|
      && (forall k :: 0 <= k < |at| ==> 0 <= at[k] < n && tags[k] == next[at[k]] && next[at[k]] !in prev)
  {
    if n > 0 {
      AddsPaired(prev, next, n - 1);
    }
  }

  lemma {:induction false} AddsIncreasing(prev: seq<int>, next: seq<int>, n: nat)
    requires n <= |next|
    ensures StrictlyIncreasing(AddAt(prev, next, n))
    ensures forall k :: 0 <= k < |AddAt(prev, next, n)| ==> AddAt(prev, next, n)[k] < n
  {
    if n > 0 {
      AddsIncreasing(prev, next, n - 1);
    }
  }

  lemma {:induction false} AddsComplete(prev: seq<int>, next: seq<int>, n: nat)
    requires n <= |next|
    ensures forall j :: 0 <= j < n && next[j] !in prev ==> j in AddAt(prev, next, n)
  {
    if n > 0 {
      AddsComplete(prev, next, n - 1);
    }
  }

  /** Insertions: exactly the positions of `next` whose id is absent from
      `prev`, in ascending order, each paired with the id found there. */
  lemma AddsExact(prev: seq<int>, next: seq<int>)
    ensures var ops := Diff(prev, next);
      && |ops.addTags| == |ops.addAt|
      && StrictlyIncreasing(ops.addAt)
      && (forall k :: 0 <= k < |ops.addAt| ==>
            0 <= ops.addAt[k] < |next| && ops.addTags[k] == next[ops.addAt[k]] && ops.addTags[k] !in prev)
      && (forall j :: 0 <= j < |next| && next[j] !in prev ==> j in ops.addAt)
  {
    AddsPrefix(prev, next, |next|);
  }

  lemma RemovesPrefix(prev: seq<int>, next: seq<int>, n: nat)
    requires n <= |prev|
    ensures var rm := RemoveAt(prev, next, n);
      && StrictlyIncreasing(rm)
      && (forall k :: 0 <= k < |rm| ==> 0 <= rm[k] < n)
      && (forall i :: i in rm <==> 0 <= i < n && prev[i] !in next)
  {
    RemovesIncreasing(prev, next, n);
    RemovesMembers(prev, next, n);
  }

  lemma {:induction false} RemovesIncreasing(prev: seq<int>, next: seq<int>, n: nat)
    requires n <= |prev|
    ensures StrictlyIncreasing(RemoveAt(prev, next, n))
    ensures forall k :: 0 <= k < |RemoveAt(prev, next, n)| ==> 0 <= RemoveAt(prev, next, n)[k] < n
  {
    if n > 0 {
      RemovesIncreasing(prev, next, n - 1);
    }
  }

  lemma {:induction false} RemovesMembers(prev: seq<int>, next: seq<int>, n: nat)
    requires n <= |prev|
    ensures forall i :: i in RemoveAt(prev, next, n) <==> 0 <= i < n && prev[i] !in next
  {
    if n > 0 {
      RemovesMembers(prev, next, n - 1);
    }
  }

  /** Deletions: exactly the positions of `prev` whose id is absent from
      `next`, in ascending order. */
  lemma RemovesExact(prev: seq<int>, next: seq<int>)
    ensures var rm := Diff(prev, next).removeAt;
      && StrictlyIncreasing(rm)
      && (forall i :: i in rm <==> 0 <= i < |prev| && prev[i] !in next)
  {
    RemovesPrefix(prev, next, |prev|);
  }

  lemma MovesPrefix(prev: seq<int>, next: seq<int>, n: nat)
    requires n <= |prev|
    ensures var from := MoveFrom(prev, next, n); var to := MoveTo(prev, next, n);
      && |from| == |to|
      && StrictlyIncreasing(from)
      && (forall k :: 0 <= k < |from| ==>
            0 <= from[k] < n && to[k] == GetChildIndex(next, prev[from[k]]) && to[k] != -1 && to[k] != from[k])
      && (forall i :: 0 <= i < n && GetChildIndex(next, prev[i]) != -1 && GetChildIndex(next, prev[i]) != i ==> i in from)
  {
    MovesPaired(prev, next, n);
    MovesIncreasing(prev, next, n);
    MovesComplete(prev, next, n);
  }

  /** Each reported old position is below `n` and is paired with the
      position where its id is first found, which differs from it. */
  lemma {:induction false} MovesPaired(prev: seq<int>, next: seq<int>, n: nat)
    requires n <= |prev|
    ensures var from := MoveFrom(prev, next, n); var to := MoveTo(prev, next, n);
      && |from| == |to|
      && (forall k :: 0 <= k < |from| ==>
            0 <= from[k] < n && to[k] == GetChildIndex(next, prev[from[k]]) && to[k] != -1 && to[k] != from[k])
  {
    if n > 0 {
      MovesPaired(prev, next, n - 1);
    }
  }

  lemma {:induction false} MovesIncreasing(prev: seq<int>, next: seq<int>, n: nat)
    requires n <= |prev|
    ensures StrictlyIncreasing(MoveFrom(prev, next, n))
    ensures forall k :: 0 <= k < |MoveFrom(prev, next, n)| ==> MoveFrom(prev, next, n)[k] < n
  {
    if n > 0 {
      MovesIncreasing(prev, next, n - 1);
    }
  }

  lemma {:induction false} MovesComplete(prev: seq<int>, next: seq<int>, n: nat)
    requires n <= |prev|
    ensures forall i :: 0 <= i < n && GetChildIndex(next, prev[i]) != -1 && GetChildIndex(next, prev[i]) != i ==> i in MoveFrom(prev, next, n)
  {
    if n > 0 {
      MovesComplete(prev, next, n - 1);
    }
  }

  /** Moves: a pair (i, j) is reported exactly when the id at old position
      i is first found in `next` at a different position j; the old
      positions come in ascending order. */
  lemma MovesExact(prev: seq<int>, next: seq<int>)
    ensures var ops := Diff(prev, next);
      && |ops.moveFrom| == |ops.moveTo|
      && StrictlyIncreasing(ops.moveFrom)
      && (forall k :: 0 <= k < |ops.moveFrom| ==>
            0 <= ops.moveFrom[k] < |prev|
            && ops.moveTo[k] == GetChildIndex(next, prev[ops.moveFrom[k]])
            && 0 <= ops.moveTo[k] < |next|
            && ops.moveTo[k] != ops.moveFrom[k])
      && (forall i :: 0 <= i < |prev| && prev[i] in next && GetChildIndex(next, prev[i]) != i ==> i in ops.moveFrom)
  {
    MovesPrefix(prev, next, |prev|);
  }

  /** Diffing a list against itself reports nothing to do exactly when the
      list has no repeated id: a repeated id is first found at its earlier
      position, so its later copy is reported as a move. */
  lemma SelfDiffEmptyIffDistinct(s: seq<int>)
    ensures Diff(s, s) == NoOps <==> Distinct(s)
  {
    var ops := Diff(s, s);
    NothingAddedOrRemoved(s, |s|);
    if Distinct(s) {
      FirstIndexInDistinct(s);
      NothingMovedInDistinct(s, |s|);
    } else {
      MovesExact(s, s);
      var i, j :| 0 <= i < j < |s| && s[i] == s[j];
      assert s[..j][i] == s[j];
      assert GetChildIndex(s, s[j]) != j;
      assert j in ops.moveFrom;
    }
  }

  lemma {:induction false} NothingAddedOrRemoved(s: seq<int>, n: nat)
    requires n <= |s|
    ensures AddTags(s, s, n) == [] && AddAt(s, s, n) == [] && RemoveAt(s, s, n) == []
  {
    if n > 0 {
      NothingAddedOrRemoved(s, n - 1);
      assert s[n - 1] in s;
    }
  }

  lemma {:induction false} NothingMovedInDistinct(s: seq<int>, n: nat)
    requires n <= |s|
    requires forall i :: 0 <= i < |s| ==> GetChildIndex(s, s[i]) == i
    ensures MoveFrom(s, s, n) == [] && MoveTo(s, s, n) == []
  {
    if n > 0 {
      NothingMovedInDistinct(s, n - 1);
    }
  }

  /** In a list without repeated ids every id is first found where it is. */
  lemma FirstIndexInDistinct(s: seq<int>)
    requires Distinct(s)
    ensures forall i :: 0 <= i < |s| ==> GetChildIndex(s, s[i]) == i
  {
    forall i | 0 <= i < |s|
      ensures GetChildIndex(s, s[i]) == i
    {
      var k := GetChildIndex(s, s[i]);
      assert s[k] == s[i];
    }
  }

  /** Rotating the first child to the end (appendChild of the first child)
      reports three moves, one per child, not a single one. */
  lemma RotationReportsEveryChild()
    ensures Diff([1, 2, 3], [2, 3, 1]) == ManageOps([0, 1, 2], [2, 0, 1], [], [], [])
  {
    assert GetChildIndex([2, 3, 1], 1) == 2;
    assert GetChildIndex([2, 3, 1], 2) == 0;
    assert GetChildIndex([2, 3, 1], 3) == 1;
    assert GetChildIndex([1, 2, 3], 2) == 1;
    assert GetChildIndex([1, 2, 3], 3) == 2;
    assert GetChildIndex([1, 2, 3], 1) == 0;
  }
}
