/** The children-list edits performed by `Node.appendChild`, `insertBefore`,
    `replaceChild` and `removeChild` in the three DOM generations, written as
    functions on the list, together with what each edit does to the order and
    to the number of copies of a child.  `Array.prototype.slice` semantics
    (negative and out-of-range bounds) are written out, because an absent
    reference child turns into a slice bound of -1. */
module ChildOps {
  import opened ChildIdentity

  /** The ids of a list of children, read through `key`. */
  function Keys<T>(s: seq<T>, key: T -> int): (r: seq<int>)
    ensures |r| == |s|
    ensures forall i :: 0 <= i < |s| ==> r[i] == key(s[i])
  {
    seq(|s|, i requires 0 <= i < |s| => key(s[i]))
  }

  /** One bound of `slice(start, end)`: negative counts from the end, and
      the result is clamped to `[0, len]`. */
  function SliceBound(k: int, len: nat): (r: nat)
    ensures r <= len
    ensures 0 <= k <= len ==> r == k
    ensures k < 0 && len + k >= 0 ==> r == len + k
  {
    if k < 0 then (if len + k < 0 then 0 else len + k)
    else if k > len then len
    else k
  }

  /** `s.slice(start, end)`. */
  function Slice<T>(s: seq<T>, start: int, end: int): seq<T> {
    var a := SliceBound(start, |s|);
    var b := SliceBound(end, |s|);
    if a <= b then s[a..b] else []
  }

  /** `s.slice(start)`. */
  function SliceFrom<T>(s: seq<T>, start: int): seq<T> {
    Slice(s, start, |s|)
  }

  /** `s.splice(i, 1)` for an index inside the list. */
  function RemoveAt<T>(s: seq<T>, i: int): (r: seq<T>)
    requires 0 <= i < |s|
    ensures |r| == |s| - 1
  {
    s[..i] + s[i + 1..]
  }

  /** `appendChild`: the earlier copy found at `existing` (or none, -1) is
      spliced out, then the node is pushed. */
  function Appended<T>(s: seq<T>, existing: int, x: T): seq<T>
    requires -1 <= existing < |s|
  {
    (if existing >= 0 then RemoveAt(s, existing) else s) + [x]
  }

  /** `insertBefore` without de-duplication (dom/src/dom and dom.js):
      `[...slice(0, index), node, ...slice(index)]`. */
  function InsertedBefore<T>(s: seq<T>, index: int, x: T): seq<T> {
    Slice(s, 0, index) + [x] + SliceFrom(s, index)
  }

  /** `insertBefore` in src/dom: the reference index is taken on the list
      as it was, the earlier copy (at `existing`) is spliced out, and the
      slices are then taken on the shortened list. */
  function InsertedBeforeDedup<T>(s: seq<T>, index: int, existing: int, x: T): seq<T>
    requires -1 <= existing < |s|
  {
    InsertedBefore(if existing >= 0 then RemoveAt(s, existing) else s, index, x)
  }

  /** `children[index] = newChild`: an index of -1 writes a property named
      "-1" on the array, which leaves the list itself as it was. */
  function Replaced<T>(s: seq<T>, index: int, x: T): seq<T> {
    if 0 <= index < |s| then s[index := x] else s
  }

  /** `removeChild`: splice out the child found at `index`, if any. */
  function Removed<T>(s: seq<T>, index: int): seq<T>
    requires -1 <= index < |s|
  {
    if index >= 0 then RemoveAt(s, index) else s
  }

  lemma KeysRemoveAt<T>(s: seq<T>, i: int, key: T -> int)
    requires 0 <= i < |s|
    ensures Keys(RemoveAt(s, i), key) == RemoveAt(Keys(s, key), i)
  {
  }

  lemma KeysConcat<T>(a: seq<T>, b: seq<T>, key: T -> int)
    ensures Keys(a + b, key) == Keys(a, key) + Keys(b, key)
  {
  }

  /** Slicing at the same bound splits a list into two halves that
      concatenate back to it. */
  lemma SliceSplit<T>(s: seq<T>, index: int)
    ensures Slice(s, 0, index) + SliceFrom(s, index) == s
    ensures Slice(s, 0, index) == s[..SliceBound(index, |s|)]
    ensures SliceFrom(s, index) == s[SliceBound(index, |s|)..]
  {
    var b := SliceBound(index, |s|);
    assert s[..b] + s[b..] == s;
  }

  /** Splitting a list around one extra copy of an id adds one to its count. */
  lemma CountWithOneMore(a: seq<int>, b: seq<int>, id: int)
    ensures Count(a + [id] + b, id) == Count(a + b, id) + 1
  {
    CountConcat(a + [id], b, id);
    CountConcat(a, [id], id);
    CountConcat(a, b, id);
    assert Count([id], id) == 1;
  }

  lemma KeysAround<T>(a: seq<T>, x: T, b: seq<T>, key: T -> int)
    ensures Keys(a + [x] + b, key) == Keys(a, key) + [key(x)] + Keys(b, key)
    ensures Keys(a + b, key) == Keys(a, key) + Keys(b, key)
  {
  }

  /** appendChild moves the node to the end: a child already present (by
      id) is taken out of its old place, so the node ends up last and the
      others keep their order; the list holds at least one copy of the node
      afterwards, and no more copies than before if it was already there. */
  lemma {:induction false} AppendMovesToEnd<T>(s: seq<T>, x: T, key: T -> int)
    ensures var k := GetChildIndex(Keys(s, key), key(x));
      var r := Appended(s, k, x);
      && r[|r| - 1] == x
      && (k == -1 ==> r == s + [x])
      && (k >= 0 ==> |r| == |s| && r[..|r| - 1] == RemoveAt(s, k))
      && Count(Keys(r, key), key(x)) == (if Count(Keys(s, key), key(x)) == 0 then 1 else Count(Keys(s, key), key(x)))
  {
    var ids := Keys(s, key);
    var k := GetChildIndex(ids, key(x));
    var t := if k >= 0 then RemoveAt(s, k) else s;
    assert Appended(s, k, x) == t + [x];
    AppendCount(s, t, k, x, key);
  }

  lemma {:induction false} AppendCount<T>(s: seq<T>, t: seq<T>, k: int, x: T, key: T -> int)
    requires k == GetChildIndex(Keys(s, key), key(x))
    requires t == if k >= 0 then RemoveAt(s, k) else s
    ensures Count(Keys(t + [x], key), key(x)) == (if Count(Keys(s, key), key(x)) == 0 then 1 else Count(Keys(s, key), key(x)))
  {
    CountSnoc(t, x, key);
    var ids := Keys(s, key);
    CountZeroIffAbsent(ids, key(x));
    if k >= 0 {
      KeysRemoveAt(s, k, key);
      CountRemoveAt(ids, k, key(x));
      assert Count(Keys(t, key), key(x)) == Count(ids, key(x)) - 1;
    } else {
      assert Count(Keys(t, key), key(x)) == 0;
    }
  }

  lemma CountSnoc<T>(t: seq<T>, x: T, key: T -> int)
    ensures Count(Keys(t + [x], key), key(x)) == Count(Keys(t, key), key(x)) + 1
  {
    KeysConcat(t, [x], key);
    assert Keys([x], key) == [key(x)];
    CountConcat(Keys(t, key), [key(x)], key(x));
    assert Count([key(x)], key(x)) == 1;
  }


  /** insertBefore without de-duplication always adds one element: before
      the reference child when it is found, before the LAST child when it
      is not (the -1 index becomes a slice bound), and an id already present
      is then present once more. */
  lemma {:induction false} InsertedBeforeShape<T>(s: seq<T>, index: int, x: T, key: T -> int)
    requires -1 <= index < |s|
    ensures var r := InsertedBefore(s, index, x);
      && |r| == |s| + 1
      && (0 <= index ==> r == s[..index] + [x] + s[index..] && r[index + 1] == s[index])
      && (index == -1 && s != [] ==> r == s[..|s| - 1] + [x, s[|s| - 1]])
      && (index == -1 && s == [] ==> r == [x])
      && Count(Keys(r, key), key(x)) == Count(Keys(s, key), key(x)) + 1
  {
    var r := InsertedBefore(s, index, x);
    var b := SliceBound(index, |s|);
    SliceSplit(s, index);
    assert r == s[..b] + [x] + s[b..];
    KeysAround(s[..b], x, s[b..], key);
    CountWithOneMore(Keys(s[..b], key), Keys(s[b..], key), key(x));
    assert s[..b] + s[b..] == s;
    if index == -1 && s != [] {
      assert s[b..] == [s[|s| - 1]];
    }
  }

  /** insertBefore in src/dom: the other children keep their relative order
      and the node appears exactly where the slices put it; a node already
      present is moved rather than copied.  Because the reference index is
      taken before the old copy is removed, a node that sat before the
      reference child lands right AFTER it; a node that sat after it (or was
      absent) lands right before it. */
  lemma {:induction false} InsertedBeforeDedupShape<T>(s: seq<T>, index: int, existing: int, x: T)
    requires -1 <= index < |s|
    requires -1 <= existing < |s|
    ensures var t := if existing >= 0 then RemoveAt(s, existing) else s;
      var r := InsertedBeforeDedup(s, index, existing, x);
      && (exists p :: 0 <= p <= |t| && r == t[..p] + [x] + t[p..])
      && |r| == (if existing >= 0 then |s| else |s| + 1)
      && (0 <= existing < index ==> r[index - 1] == s[index] && r[index] == x)
      && (0 <= index && (existing == -1 || index < existing) ==> r[index] == x && r[index + 1] == s[index])
  {
    var t := if existing >= 0 then RemoveAt(s, existing) else s;
    var r := InsertedBeforeDedup(s, index, existing, x);
    var b := SliceBound(index, |t|);
    SliceSplit(t, index);
    assert r == t[..b] + [x] + t[b..];
    assert 0 <= b <= |t| && r == t[..b] + [x] + t[b..];
    if 0 <= existing < index {
      assert b == index;
      assert t[index - 1] == s[index];
    }
    if 0 <= index && (existing == -1 || index < existing) {
      assert b == index;
      assert t[index] == s[index];
    }
  }

  /** The two placements the shape lemma leaves open: a node inserted
      before itself keeps its slot, and a reference index of -1 (the
      reference child is absent) puts the node before the last remaining
      child, or alone in an empty list. */
  lemma InsertedBeforeDedupEdges<T>(s: seq<T>, index: int, existing: int, x: T)
    requires -1 <= index < |s|
    requires -1 <= existing < |s|
    ensures 0 <= index == existing ==> InsertedBeforeDedup(s, index, existing, x) == s[index := x]
    ensures var t := if existing >= 0 then RemoveAt(s, existing) else s;
      && (index == -1 && |t| > 0 ==> InsertedBeforeDedup(s, index, existing, x) == t[..|t| - 1] + [x] + [t[|t| - 1]])
      && (index == -1 && |t| == 0 ==> InsertedBeforeDedup(s, index, existing, x) == [x])
  {
    if 0 <= index == existing {
      DedupOwnSlot(s, index, x);
    }
    if index == -1 {
      BeforeLast(if existing >= 0 then RemoveAt(s, existing) else s, x);
    }
  }

  /** A node inserted before itself keeps its slot. */
  lemma DedupOwnSlot<T>(s: seq<T>, index: int, x: T)
    requires 0 <= index < |s|
    ensures InsertedBeforeDedup(s, index, index, x) == s[index := x]
  {
    var t := RemoveAt(s, index);
    SliceSplit(t, index);
    assert t[..index] == s[..index] && t[index..] == s[index + 1..];
  }

  /** An insertion before index -1 goes before the last element. */
  lemma BeforeLast<T>(t: seq<T>, x: T)
    ensures |t| > 0 ==> InsertedBefore(t, -1, x) == t[..|t| - 1] + [x] + [t[|t| - 1]]
    ensures |t| == 0 ==> InsertedBefore(t, -1, x) == [x]
  {
    SliceSplit(t, -1);
    if |t| > 0 {
      assert t[|t| - 1..] == [t[|t| - 1]];
    }
  }

  /** A removal takes out exactly one copy of a child that is present and
      leaves the list alone when it is absent. */
  lemma RemovedDropsOneCopy<T>(s: seq<T>, x: T, key: T -> int)
    ensures var k := GetChildIndex(Keys(s, key), key(x));
      var r := Removed(s, k);
      && (k == -1 ==> r == s)
      && Count(Keys(r, key), key(x)) == (if Count(Keys(s, key), key(x)) == 0 then 0 else Count(Keys(s, key), key(x)) - 1)
  {
    var ids := Keys(s, key);
    var k := GetChildIndex(ids, key(x));
    CountZeroIffAbsent(ids, key(x));
    if k >= 0 {
      KeysRemoveAt(s, k, key);
      CountRemoveAt(ids, k, key(x));
    }
  }
}
