/** Child identity (src/dom/utils.js, and the copies in dom/src/dom.js):
    two children are "the same child" when their bindings carry the same id,
    whatever the objects are. Children are seen here through their ids. */
module ChildIdentity {

  /** `isSameChild(item, toFind)`: same binding id. */
  predicate IsSameChild(itemId: int, toFindId: int) {
    itemId == toFindId
  }

  /** `getChildIndex(children, toFind)`: the first index whose id matches, or -1. */
  function GetChildIndex(ids: seq<int>, id: int): (r: int)
    ensures -1 <= r < |ids|
    ensures r == -1 <==> id !in ids
    ensures 0 <= r ==> IsSameChild(ids[r], id) && id !in ids[..r]
  {
    if |ids| == 0 then -1
    else if IsSameChild(ids[0], id) then 0
    else
      var k := GetChildIndex(ids[1..], id);
      if k == -1 then -1 else k + 1
  }

  /** Number of children carrying `id`. */
  function Count(ids: seq<int>, id: int): nat {
    if ids == [] then 0 else (if ids[0] == id then 1 else 0) + Count(ids[1..], id)
  }

  lemma {:induction false} CountConcat(a: seq<int>, b: seq<int>, id: int)
    ensures Count(a + b, id) == Count(a, id) + Count(b, id)
  {
    if a == [] {
      assert a + b == b;
    } else {
      assert (a + b)[1..] == a[1..] + b;
      CountConcat(a[1..], b, id);
    }
  }

  lemma {:induction false} CountZeroIffAbsent(ids: seq<int>, id: int)
    ensures Count(ids, id) == 0 <==> id !in ids
  {
    if ids != [] {
      CountZeroIffAbsent(ids[1..], id);
      assert ids == [ids[0]] + ids[1..];
    }
  }

  /** Removing one occurrence lowers the count of that id by one and leaves
      every other id's count alone. */
  lemma CountRemoveAt(ids: seq<int>, i: int, id: int)
    requires 0 <= i < |ids|
    ensures Count(ids[..i] + ids[i + 1..], id) == Count(ids, id) - (if ids[i] == id then 1 else 0)
  {
    assert ids == ids[..i] + [ids[i]] + ids[i + 1..];
    CountConcat(ids[..i] + [ids[i]], ids[i + 1..], id);
    CountConcat(ids[..i], [ids[i]], id);
    CountConcat(ids[..i], ids[i + 1..], id);
  }
}
