/** `hasValuesFromArray` of 0x03-ES6_data_manipulation/7-has_array_values.js. */
module HasArrayValues {
  import opened JsSets

  /**
   * `arr.every((element) => s.has(element))`: tests the elements from the
   * front and stops at the first one that is not a member.
   */
  function HasValuesFromArray<T(==)>(s: JsSet<T>, arr: seq<T>): (r: bool)
    ensures r <==> forall i :: 0 <= i < |arr| ==> arr[i] in s
  {
    arr == [] || (arr[0] in s && HasValuesFromArray(s, arr[1..]))
  }

  /** An empty array is vacuously contained in every set. */
  lemma HasValuesFromEmpty<T>(s: JsSet<T>)
    ensures HasValuesFromArray(s, [])
  {
  }

  /** A false result has a witness: the first element, where `every` stops, that is not a member. */
  lemma {:induction false} FirstMissing<T>(s: JsSet<T>, arr: seq<T>) returns (i: nat)
    requires !HasValuesFromArray(s, arr)
    ensures i < |arr| && arr[i] !in s
    ensures forall k :: 0 <= k < i ==> arr[k] in s
  {
    if arr[0] in s {
      var j := FirstMissing(s, arr[1..]);
      i := j + 1;
    } else {
      i := 0;
    }
  }

  /** The result depends only on which values `arr` holds, not on their order or repetition. */
  lemma HasValuesOnlyMembers<T>(s: JsSet<T>, a: seq<T>, b: seq<T>)
    requires Members(a) == Members(b)
    ensures HasValuesFromArray(s, a) == HasValuesFromArray(s, b)
  {
    if HasValuesFromArray(s, a) {
      forall i | 0 <= i < |b| ensures b[i] in s {
        assert b[i] in Members(a);
      }
    } else {
      var i := FirstMissing(s, a);
      assert a[i] in Members(b);
    }
  }

  /** The check on a concatenation is the conjunction of the checks on its parts. */
  lemma HasValuesConcat<T>(s: JsSet<T>, a: seq<T>, b: seq<T>)
    ensures HasValuesFromArray(s, a + b) == (HasValuesFromArray(s, a) && HasValuesFromArray(s, b))
  {
    assert forall i :: 0 <= i < |a| ==> (a + b)[i] == a[i];
    assert forall i :: 0 <= i < |b| ==> (a + b)[|a| + i] == b[i];
  }

  /** A set built from an array holds every value of that array. */
  lemma SetFromArrayHasValues<T>(arr: seq<T>)
    ensures HasValuesFromArray(SetFromArray(arr), arr)
  {
  }
}
