/** The small helpers of src/dom/util.js (adapted from undom): a backwards
    search over an array, an in-place splice at the found element, a
    case-insensitive attribute filter, lower-casing and a shallow assign. */
module UndomUtil {
  import opened JsValues

  /** The second argument of `findWhere`: a value compared with `===`
      (`byValue` set) or a predicate applied to each element. */
  datatype Matcher = ByValue(v: Value) | ByTest(test: Value -> bool)

  predicate Matches(m: Matcher, x: Value) {
    match m
    case ByValue(v) => StrictEquals(x, v)
    case ByTest(test) => test(x)
  }

  /** The highest index whose element matches, -1 when none does. */
  function LastMatch(s: seq<Value>, m: Matcher): (r: int)
    ensures -1 <= r < |s|
    ensures r >= 0 ==> Matches(m, s[r])
    ensures forall j :: r < j < |s| ==> !Matches(m, s[j])
  {
    if s == [] then -1
    else if Matches(m, s[|s| - 1]) then |s| - 1
    else LastMatch(s[..|s| - 1], m)
  }

  /** `findWhere(arr, fn, returnIndex, byValue)`: `i` counts down from
      `arr.length` and the loop stops at the first match; the index is
      returned, or with `returnIndex` false `arr[i]`, which is undefined
      when the search ran off the front. */
  method FindWhere(arr: seq<Value>, m: Matcher, returnIndex: bool) returns (r: Value)
    ensures returnIndex ==> r == Num(LastMatch(arr, m))
    ensures !returnIndex && LastMatch(arr, m) >= 0 ==> r == arr[LastMatch(arr, m)]
    ensures !returnIndex && LastMatch(arr, m) == -1 ==> r == Undefined
  {
    var i := FindIndex(arr, m);
    if returnIndex {
      r := Num(i);
    } else if i >= 0 {
      r := arr[i];
    } else {
      r := Undefined;
    }
  }

  /** The `while (i--)` loop of `findWhere`. */
  method FindIndex(arr: seq<Value>, m: Matcher) returns (i: int)
    ensures i == LastMatch(arr, m)
  {
    i := |arr|;
    while i > 0
      invariant 0 <= i <= |arr|
      invariant LastMatch(arr, m) == LastMatch(arr[..i], m)
    {
      i := i - 1;
      if Matches(m, arr[i]) {
        assert arr[..i + 1][..i] == arr[..i];
        return;
      }
      assert arr[..i + 1][..i] == arr[..i];
    }
    i := -1;
  }

  /** A JavaScript array that `splice` changes in place. */
  class JsArray {
    var items: seq<Value>

    constructor (items: seq<Value>)
      ensures this.items == items
    {
      this.items := items;
    }
  }

  /** The array after `splice` at `i`: a truthy `add` goes in just before
      position `i`, otherwise position `i` is removed. */
  function Spliced(s: seq<Value>, i: int, add: Value): (r: seq<Value>)
    requires 0 <= i < |s|
    ensures Truthy(add) ==> |r| == |s| + 1 && r[i] == add && r[..i] == s[..i] && r[i + 1..] == s[i..]
    ensures !Truthy(add) ==> |r| == |s| - 1 && r[..i] == s[..i] && r[i..] == s[i + 1..]
  {
    if Truthy(add) then s[..i] + [add] + s[i..] else s[..i] + s[i + 1..]
  }

  /** `splice(arr, item, add, byValue)`: a missing array gives -1; so does
      no match, which leaves the array as it was.  Otherwise the last match
      is found and its index returned after inserting `add` before it, or
      removing it when `add` is falsy. */
  method Splice(arr: JsArray?, m: Matcher, add: Value) returns (i: int)
    modifies arr
    ensures arr == null ==> i == -1
    ensures arr != null ==> i == LastMatch(old(arr.items), m)
    ensures arr != null && i == -1 ==> arr.items == old(arr.items)
    ensures arr != null && i >= 0 ==> arr.items == Spliced(old(arr.items), i, add)
  {
    if arr == null {
      return -1;
    }
    i := FindIndex(arr.items, m);
    if i != -1 {
      arr.items := Spliced(arr.items, i, add);
    }
  }

  /** Inserting a value that is not yet in the array and then splicing that
      value out by `===` gives the array back. */
  lemma SpliceInsertThenRemove(s: seq<Value>, i: int, add: Value)
    requires 0 <= i < |s| && Truthy(add)
    requires forall j :: 0 <= j < |s| ==> !StrictEquals(s[j], add)
    ensures LastMatch(Spliced(s, i, add), ByValue(add)) == i
    ensures Spliced(Spliced(s, i, add), i, Undefined) == s
  {
    var t := Spliced(s, i, add);
    StrictEqualsReflexive(add);
    forall j | 0 <= j < |t| && j != i
      ensures !Matches(ByValue(add), t[j])
    {
      if j < i {
        assert t[j] == t[..i][j] == s[..i][j];
      } else {
        assert t[j] == t[i + 1..][j - i - 1] == s[i..][j - i - 1];
      }
    }
    LastMatchIsUnique(t, ByValue(add), i);
    assert t[..i] + t[i + 1..] == s[..i] + s[i..];
    assert s[..i] + s[i..] == s;
  }

  /** When exactly one element matches, `LastMatch` finds it. */
  lemma {:induction false} LastMatchIsUnique(s: seq<Value>, m: Matcher, i: int)
    requires 0 <= i < |s| && Matches(m, s[i])
    requires forall j :: 0 <= j < |s| && j != i ==> !Matches(m, s[j])
    ensures LastMatch(s, m) == i
  {
    if i < |s| - 1 {
      assert !Matches(m, s[|s| - 1]);
      LastMatchIsUnique(s[..|s| - 1], m, i);
    }
  }

  /** One character of `toLowerCase`, for ASCII letters. */
  function LowerChar(c: char): char {
    if 'A' <= c <= 'Z' then (c as int + 32) as char else c
  }

  /** `toLower(str)`: `String(str).toLowerCase()` over ASCII. */
  function ToLower(v: Value): (r: string)
    ensures |r| == |ToJsString(v)|
    ensures forall i :: 0 <= i < |r| ==> !('A' <= r[i] <= 'Z')
    ensures forall i :: 0 <= i < |r| ==> r[i] == ToJsString(v)[i] || 'A' <= ToJsString(v)[i] <= 'Z'
  {
    LowerString(ToJsString(v))
  }

  function LowerString(s: string): (r: string)
    ensures |r| == |s| && forall i :: 0 <= i < |s| ==> r[i] == LowerChar(s[i])
  {
    if s == [] then [] else [LowerChar(s[0])] + LowerString(s[1..])
  }

  /** Lower-casing twice is lower-casing once. */
  lemma ToLowerIdempotent(v: Value)
    ensures ToLower(Str(ToLower(v))) == ToLower(v)
  {
    var s := ToJsString(v);
    assert ToJsString(Str(LowerString(s))) == LowerString(s);
    LowerStringIdempotent(s);
  }

  lemma LowerStringIdempotent(s: string)
    ensures LowerString(LowerString(s)) == LowerString(s)
  {
    var u := LowerString(s);
    assert forall i :: 0 <= i < |u| ==> LowerString(u)[i] == u[i];
  }

  /** An attribute record `{ns, name}`. */
  datatype Attribute = Attribute(ns: Value, name: Value, value: Value)

  /** `createAttributeFilter(ns, name)` applied to `o`. */
  predicate AttributeFilter(ns: Value, name: Value, o: Attribute) {
    StrictEquals(o.ns, ns) && ToLower(o.name) == ToLower(name)
  }

  /** The filter ignores case: a name already lower-cased selects the same
      attributes, and the roles of the two names can be swapped. */
  lemma FilterIgnoresCase(ns: Value, name: Value, o: Attribute)
    ensures AttributeFilter(ns, name, o) <==> AttributeFilter(ns, Str(ToLower(name)), o)
    ensures StrictEquals(o.ns, ns) ==>
      (AttributeFilter(ns, name, o) <==> AttributeFilter(ns, o.name, Attribute(ns, name, o.value)))
  {
    ToLowerIdempotent(name);
    StrictEqualsReflexive(ns);
  }

  /** An object whose own properties `assign` overwrites. */
  class JsObject {
    var fields: map<string, Value>

    constructor (fields: map<string, Value>)
      ensures this.fields == fields
    {
      this.fields := fields;
    }
  }

  /** `assign(obj, props)`: every enumerable key of `props` is copied onto
      `obj`, replacing what was there; other keys stay. */
  method Assign(obj: JsObject, props: map<string, Value>)
    modifies obj
    ensures obj.fields == old(obj.fields) + props
    ensures forall k :: k in props ==> obj.fields[k] == props[k]
    ensures forall k :: k in old(obj.fields) && k !in props ==> obj.fields[k] == old(obj.fields)[k]
  {
    var todo := props.Keys;
    while todo != {}
      invariant todo <= props.Keys
      invariant obj.fields == old(obj.fields) + map k | k in props.Keys - todo :: props[k]
      decreases todo
    {
      var k :| k in todo;
      obj.fields := obj.fields[k := props[k]];
      todo := todo - {k};
    }
    assert (map k | k in props.Keys - {} :: props[k]) == props;
  }
}
