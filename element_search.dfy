/** `Element.getElementById(id)`, the same code in src/dom/element.js,
    dom/src/dom/element.js and dom/src/dom.js.  It is read-only, so it works
    on a value view of the subtree: each node's `'id'` prop, whether the node
    is an Element (a Text node extends Node and has no `getElementById`, so
    recursing into one throws), and its children.  A hit is reported as the
    path of child positions from the node searched from. */
module ElementSearch {
  import opened JsValues

  datatype SearchNode = SearchNode(idProp: Value, isElement: bool, kids: seq<SearchNode>)

  /** The outcome of one call: a node (by path), undefined, or a TypeError. */
  datatype Found = Hit(path: seq<nat>) | NotFound | Threw

  predicate Matches(t: SearchNode, id: Value) {
    StrictEquals(t.idProp, id)
  }

  /** The highest position below `n` whose child's id matches, -1 if none:
      what the first-level loop leaves in `result`. */
  function LastMatch(kids: seq<SearchNode>, id: Value, n: nat): (r: int)
    requires n <= |kids|
    ensures -1 <= r < n
    ensures r >= 0 ==> Matches(kids[r], id) && forall j :: r < j < n ==> !Matches(kids[j], id)
    ensures r == -1 ==> forall j :: 0 <= j < n ==> !Matches(kids[j], id)
  {
    if n == 0 then -1
    else if Matches(kids[n - 1], id) then n - 1
    else LastMatch(kids, id, n - 1)
  }

  /** What `getElementById` returns on the node `t`. */
  function Search(t: SearchNode, id: Value): Found
    decreases t, 1
  {
    if Matches(t, id) then Hit([])
    else
      var last := LastMatch(t.kids, id, |t.kids|);
      if last >= 0 then Hit([last]) else Branch(t, id, 0)
  }

  /** The branched loop from child `i` on: the first child whose own search
      hits, in order. */
  function Branch(t: SearchNode, id: Value, i: nat): Found
    decreases t, 0, |t.kids| - i
  {
    if i >= |t.kids| then NotFound
    else if !t.kids[i].isElement then Threw
    else
      match Search(t.kids[i], id)
      case Hit(p) => Hit([i] + p)
      case Threw => Threw
      case NotFound => Branch(t, id, i + 1)
  }

  predicate ValidPath(t: SearchNode, p: seq<nat>)
    decreases p
  {
    p == [] || (p[0] < |t.kids| && ValidPath(t.kids[p[0]], p[1..]))
  }

  function At(t: SearchNode, p: seq<nat>): SearchNode
    requires ValidPath(t, p)
    decreases p
  {
    if p == [] then t else At(t.kids[p[0]], p[1..])
  }

  /** Some node of the subtree carries the id. */
  predicate Holds(t: SearchNode, id: Value)
    decreases t
  {
    Matches(t, id) || exists i :: 0 <= i < |t.kids| && Holds(t.kids[i], id)
  }

  /** Some node below `t` is not an Element. */
  predicate HasNonElement(t: SearchNode)
    decreases t
  {
    exists i :: 0 <= i < |t.kids| && (!t.kids[i].isElement || HasNonElement(t.kids[i]))
  }

  /** A hit names a node of the subtree whose id matches; undefined means
      no node of the subtree carries the id; a TypeError only happens when
      some descendant is not an Element. */
  lemma {:induction false} SearchCorrect(t: SearchNode, id: Value)
    ensures Search(t, id).Hit? ==> ValidPath(t, Search(t, id).path) && Matches(At(t, Search(t, id).path), id)
    ensures Search(t, id).NotFound? ==> !Holds(t, id)
    ensures Search(t, id).Threw? ==> HasNonElement(t)
    decreases t, 1
  {
    if !Matches(t, id) && LastMatch(t.kids, id, |t.kids|) < 0 {
      BranchCorrect(t, id, 0);
    }
  }

  lemma {:induction false} BranchCorrect(t: SearchNode, id: Value, i: nat)
    requires forall j :: 0 <= j < |t.kids| ==> !Matches(t.kids[j], id)
    ensures Branch(t, id, i).Hit? ==>
      ValidPath(t, Branch(t, id, i).path) && Matches(At(t, Branch(t, id, i).path), id)
    ensures Branch(t, id, i).NotFound? ==> forall j :: i <= j < |t.kids| ==> !Holds(t.kids[j], id)
    ensures Branch(t, id, i).Threw? ==> HasNonElement(t)
    decreases t, 0, |t.kids| - i
  {
    if i < |t.kids| && t.kids[i].isElement {
      var k := t.kids[i];
      SearchCorrect(k, id);
      match Search(k, id)
      case Hit(p) =>
        var q := [i] + p;
        assert q[0] == i && q[1..] == p;
        assert At(t, q) == At(k, p);
      case Threw =>
        assert 0 <= i < |t.kids| && HasNonElement(k);
      case NotFound =>
        BranchCorrect(t, id, i + 1);
    }
  }

  /** The order of the checks: the node itself first; otherwise, of its
      direct children, the LAST whose id matches, even when an earlier one
      matches too; only then the subtrees, in order. */
  lemma SearchOrder(t: SearchNode, id: Value)
    ensures Matches(t, id) ==> Search(t, id) == Hit([])
    ensures !Matches(t, id) && (exists j :: 0 <= j < |t.kids| && Matches(t.kids[j], id)) ==>
      exists j :: 0 <= j < |t.kids| && Search(t, id) == Hit([j]) && Matches(t.kids[j], id)
        && forall l :: j < l < |t.kids| ==> !Matches(t.kids[l], id)
  {
  }

  /** In a subtree made of Elements only, the search finds the id exactly
      when some node carries it. */
  lemma {:induction false} ElementsOnlyComplete(t: SearchNode, id: Value)
    requires !HasNonElement(t)
    ensures Search(t, id).Hit? <==> Holds(t, id)
    ensures !Search(t, id).Threw?
  {
    SearchCorrect(t, id);
    if Search(t, id).Hit? {
      PathHolds(t, Search(t, id).path, id);
    }
  }

  /** A node reached by a path lies in the subtree. */
  lemma {:induction false} PathHolds(t: SearchNode, p: seq<nat>, id: Value)
    requires ValidPath(t, p) && Matches(At(t, p), id)
    ensures Holds(t, id)
    decreases p
  {
    if p != [] {
      PathHolds(t.kids[p[0]], p[1..], id);
    }
  }

  /** The two loops of `getElementById`, with the recursive call into each
      child of the branched check. */
  method GetElementById(t: SearchNode, id: Value) returns (r: Found)
    ensures r == Search(t, id)
    decreases t, 1
  {
    if Matches(t, id) {
      return Hit([]);
    }
    var result := -1;
    var i := 0;
    while i < |t.kids|
      invariant 0 <= i <= |t.kids|
      invariant result == LastMatch(t.kids, id, i)
    {
      if Matches(t.kids[i], id) {
        result := i;
      }
      i := i + 1;
    }
    if result >= 0 {
      return Hit([result]);
    }
    r := NotFound;
    i := 0;
    while i < |t.kids|
      invariant 0 <= i <= |t.kids|
      invariant r == NotFound && Search(t, id) == Branch(t, id, i)
    {
      if !t.kids[i].isElement {
        return Threw;
      }
      var sub := GetElementById(t.kids[i], id);
      if sub.Hit? {
        return Hit([i] + sub.path);
      }
      if sub.Threw? {
        return Threw;
      }
      i := i + 1;
    }
  }
}
