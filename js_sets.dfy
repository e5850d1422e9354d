/**
 * The JavaScript `Set` as 0x03-ES6_data_manipulation/6-set.js builds it with
 * `new Set(array)`. ECMA-262 (the Set constructor, section 24.2.1.1 in recent
 * editions) creates an empty set and calls `Set.prototype.add` on each element
 * of the iterable in turn; `add` appends a value that is not yet present and
 * ignores one that is. A set is therefore modelled as the sequence of its
 * elements in iteration order, which is insertion order.
 */
module JsSets {

  /** No value occurs twice in `s`. */
  predicate NoDups<T(==)>(s: seq<T>) {
    forall i, j :: 0 <= i < j < |s| ==> s[i] != s[j]
  }

  /** A JS Set: its elements in iteration order, each exactly once. */
  type JsSet<T(==)> = s: seq<T> | NoDups(s) witness []

  /** The values of `s` irrespective of order: what `Set.prototype.has` tests. */
  function Members<T(==)>(s: seq<T>): (r: set<T>)
    ensures forall i :: 0 <= i < |s| ==> s[i] in r
    ensures forall x :: x in r ==> x in s
  {
    set x | x in s
  }

  /** `Set.prototype.add(x)`: appends `x` unless it is already a member. */
  function Add<T(==)>(s: JsSet<T>, x: T): (r: JsSet<T>)
    ensures Members(r) == Members(s) + {x}
    ensures |r| == if x in s then |s| else |s| + 1
    ensures r[..|s|] == s
  {
    if x in s then s else s + [x]
  }

  /** `new Set(array)`: the elements of `arr` added one after another. */
  function SetFromArray<T(==)>(arr: seq<T>): (r: JsSet<T>)
    ensures Members(r) == Members(arr)
    ensures forall i :: 0 <= i < |r| ==> r[i] in arr
    ensures forall i :: 0 <= i < |arr| ==> arr[i] in r
    ensures |r| <= |arr|
  {
    if arr == [] then []
    else Add(SetFromArray(arr[..|arr| - 1]), arr[|arr| - 1])
  }

  /** The position of the first occurrence of `x` in `s`. */
  function FirstIndex<T(==)>(s: seq<T>, x: T): (i: nat)
    requires x in s
    ensures i < |s| && s[i] == x && x !in s[..i]
  {
    if s[0] == x then 0
    else
      var i := 1 + FirstIndex(s[1..], x);
      assert s[..i] == [s[0]] + s[1..][..i - 1];
      i
  }

  /** The first occurrence is the only one with nothing equal before it. */
  lemma FirstIndexUnique<T>(s: seq<T>, x: T, i: nat)
    requires i < |s| && s[i] == x && x !in s[..i]
    ensures FirstIndex(s, x) == i
  {
  }

  /** Appending leaves the first occurrence of an earlier value where it was. */
  lemma FirstIndexAppend<T>(s: seq<T>, y: T, x: T)
    requires x in s
    ensures FirstIndex(s + [y], x) == FirstIndex(s, x)
  {
    var k := FirstIndex(s, x);
    assert (s + [y])[..k] == s[..k];
    FirstIndexUnique(s + [y], x, k);
  }

  /** Each element of `r` occurs in `arr`, and `r` lists them by increasing first occurrence. */
  ghost predicate InFirstOccurrenceOrder<T>(arr: seq<T>, r: seq<T>) {
    && (forall i :: 0 <= i < |r| ==> r[i] in arr)
    && (forall i, j :: 0 <= i < j < |r| ==> FirstIndex(arr, r[i]) < FirstIndex(arr, r[j]))
  }

  /** One step of the constructor keeps the order of first occurrence. */
  lemma AddKeepsOrder<T>(pre: seq<T>, last: T, r: JsSet<T>)
    requires InFirstOccurrenceOrder(pre, r)
    requires forall i :: 0 <= i < |pre| ==> pre[i] in r
    ensures InFirstOccurrenceOrder(pre + [last], Add(r, last))
  {
    var arr, r' := pre + [last], Add(r, last);
    forall x | x in pre ensures FirstIndex(arr, x) == FirstIndex(pre, x) {
      FirstIndexAppend(pre, last, x);
    }
    if last !in r {
      assert last !in pre;
      assert arr[..|pre|] == pre;
      FirstIndexUnique(arr, last, |pre|);
      forall i, j | 0 <= i < j < |r'| ensures FirstIndex(arr, r'[i]) < FirstIndex(arr, r'[j]) {
        assert r'[i] == r[i];
        if j < |r| {
          assert r'[j] == r[j];
        }
      }
    }
  }

  /** A set built from an array iterates in order of first occurrence. */
  lemma {:induction false} SetFromArrayOrder<T>(arr: seq<T>)
    ensures InFirstOccurrenceOrder(arr, SetFromArray(arr))
  {
    if arr != [] {
      var n := |arr|;
      var pre := arr[..n - 1];
      assert arr == pre + [arr[n - 1]];
      SetFromArrayOrder(pre);
      AddKeepsOrder(pre, arr[n - 1], SetFromArray(pre));
    }
  }

  /** A duplicate-free sequence has as many members as elements. */
  lemma {:induction false} NoDupsCardinality<T>(s: seq<T>)
    requires NoDups(s)
    ensures |Members(s)| == |s|
  {
    if s != [] {
      var n := |s|;
      var pre := s[..n - 1];
      assert s == pre + [s[n - 1]];
      assert Members(s) == Members(pre) + {s[n - 1]};
      assert s[n - 1] !in Members(pre);
      NoDupsCardinality(pre);
    }
  }

  /** The size of `new Set(array)` is the number of distinct values in `arr`, at most `|arr|`. */
  lemma SetFromArraySize<T>(arr: seq<T>)
    ensures |SetFromArray(arr)| == |Members(arr)| <= |arr|
  {
    NoDupsCardinality(SetFromArray(arr));
  }

  /** On a duplicate-free array the set iterates exactly as the array does. */
  lemma {:induction false} SetFromArrayOfDistinct<T>(arr: seq<T>)
    requires NoDups(arr)
    ensures SetFromArray(arr) == arr
  {
    if arr != [] {
      var n := |arr|;
      var pre := arr[..n - 1];
      assert arr == pre + [arr[n - 1]];
      SetFromArrayOfDistinct(pre);
      assert arr[n - 1] !in pre;
    }
  }

  /** Building a set from a set's own iteration sequence changes nothing. */
  lemma SetFromArrayIdempotent<T>(arr: seq<T>)
    ensures SetFromArray(SetFromArray(arr)) == SetFromArray(arr)
  {
    SetFromArrayOfDistinct(SetFromArray(arr));
  }
}
