/** `cleanSet` of 0x03-ES6_data_manipulation/8-clean_set.js. */
module CleanSet {
  import opened JsSets
  import opened JsStrings

  /** `values.filter(value => value.startsWith(startString))`: the matching values, in order. */
  function Matching(values: seq<string>, startString: string): (r: seq<string>)
    ensures |r| <= |values|
    ensures forall k :: 0 <= k < |r| ==> StartsWith(r[k], startString)
  {
    if values == [] then []
    else
      var n := |values|;
      Matching(values[..n - 1], startString)
      + (if StartsWith(values[n - 1], startString) then [values[n - 1]] else [])
  }

  /** `value.substring(startString.length).trim()` for a value that starts with `startString`. */
  function Segment(value: string, startString: string): (r: string)
    requires StartsWith(value, startString)
    ensures IsTrimmed(r)
    ensures |r| <= |value| - |startString|
  {
    Trim(value[|startString|..])
  }

  /** The mapped array: one segment per matching value. */
  function Segments(values: seq<string>, startString: string): (r: seq<string>)
    ensures |r| == |Matching(values, startString)| <= |values|
    ensures forall k :: 0 <= k < |r| ==> IsTrimmed(r[k])
  {
    var m := Matching(values, startString);
    seq(|m|, k requires 0 <= k < |m| => Segment(m[k], startString))
  }

  /** `[...set]` filtered, mapped and joined with `'-'`. */
  function CleanSet(s: JsSet<string>, startString: string): (r: string)
    ensures (forall i :: 0 <= i < |s| ==> !StartsWith(s[i], startString)) ==> r == ""
    ensures r == "" <==> Segments(s, startString) == [] || Segments(s, startString) == [""]
  {
    MatchingEmpty(s, startString);
    JoinEmpty("-", Segments(s, startString));
    Join("-", Segments(s, startString))
  }

  /**
   * `idx` lists, strictly increasing, the positions in `values` of the elements
   * `m` holds, and every position of a matching element is listed.
   */
  ghost predicate FilterPositions(values: seq<string>, startString: string, m: seq<string>, idx: seq<nat>) {
    && |idx| == |m|
    && (forall k :: 0 <= k < |idx| ==> idx[k] < |values| && m[k] == values[idx[k]])
    && (forall k, l :: 0 <= k < l < |idx| ==> idx[k] < idx[l])
    && (forall i :: 0 <= i < |values| && StartsWith(values[i], startString) ==> i in idx)
  }

  /** A non-matching element appended to the input leaves the positions as they were. */
  lemma FilterPositionsSkip(pre: seq<string>, v: string, startString: string, m: seq<string>, idx: seq<nat>)
    requires FilterPositions(pre, startString, m, idx)
    requires !StartsWith(v, startString)
    ensures FilterPositions(pre + [v], startString, m, idx)
  {
    var values := pre + [v];
    forall k | 0 <= k < |idx| ensures values[idx[k]] == pre[idx[k]] {
    }
    forall i | 0 <= i < |values| && StartsWith(values[i], startString) ensures i in idx {
      assert i < |pre| && values[i] == pre[i];
    }
  }

  /** A matching element appended to the input is appended to the output, at its own position. */
  lemma FilterPositionsKeep(pre: seq<string>, v: string, startString: string, m: seq<string>, idx: seq<nat>)
    requires FilterPositions(pre, startString, m, idx)
    requires StartsWith(v, startString)
    ensures FilterPositions(pre + [v], startString, m + [v], idx + [|pre|])
  {
    var values, m', idx' := pre + [v], m + [v], idx + [|pre|];
    forall k | 0 <= k < |idx'| ensures idx'[k] < |values| && m'[k] == values[idx'[k]] {
      if k < |idx| {
        assert idx'[k] == idx[k] && m'[k] == m[k] && values[idx[k]] == pre[idx[k]];
      }
    }
    forall k, l | 0 <= k < l < |idx'| ensures idx'[k] < idx'[l] {
      assert idx'[k] == idx[k];
    }
    forall i | 0 <= i < |values| && StartsWith(values[i], startString) ensures i in idx' {
      if i < |pre| {
        assert values[i] == pre[i];
      } else {
        assert idx'[|idx|] == i;
      }
    }
  }

  /** The filter keeps exactly the matching values, in order. */
  lemma {:induction false} MatchingOrder(values: seq<string>, startString: string) returns (idx: seq<nat>)
    ensures FilterPositions(values, startString, Matching(values, startString), idx)
  {
    if values == [] {
      idx := [];
    } else {
      var n := |values|;
      var pre, v := values[..n - 1], values[n - 1];
      var idx0 := MatchingOrder(pre, startString);
      assert values == pre + [v];
      assert Matching(values, startString)
        == Matching(pre, startString) + (if StartsWith(v, startString) then [v] else []);
      if StartsWith(v, startString) {
        FilterPositionsKeep(pre, v, startString, Matching(pre, startString), idx0);
        idx := idx0 + [n - 1];
      } else {
        FilterPositionsSkip(pre, v, startString, Matching(pre, startString), idx0);
        idx := idx0;
      }
    }
  }

  /** The filter yields nothing exactly when no element starts with `startString`. */
  lemma MatchingEmpty(values: seq<string>, startString: string)
    ensures Matching(values, startString) == [] <==>
      forall i :: 0 <= i < |values| ==> !StartsWith(values[i], startString)
  {
    var idx := MatchingOrder(values, startString);
    var m := Matching(values, startString);
    if m != [] {
      assert StartsWith(values[idx[0]], startString);
    }
  }

  /** Every segment comes from a matching element: its prefix stripped, then trimmed, so without surrounding whitespace. */
  lemma SegmentsOrigin(s: JsSet<string>, startString: string) returns (idx: seq<nat>)
    ensures var segs := Segments(s, startString);
      && |idx| == |segs|
      && (forall k, l :: 0 <= k < l < |idx| ==> idx[k] < idx[l])
      && (forall k :: 0 <= k < |idx| ==>
            idx[k] < |s| && StartsWith(s[idx[k]], startString) &&
            segs[k] == Trim(s[idx[k]][|startString|..]) && IsTrimmed(segs[k]))
      && (forall i :: 0 <= i < |s| && StartsWith(s[i], startString) ==> i in idx)
  {
    idx := MatchingOrder(s, startString);
  }

  /** With the empty prefix every element matches. */
  lemma {:induction false} MatchingEmptyPrefix(values: seq<string>)
    ensures Matching(values, "") == values
  {
    if values != [] {
      var n := |values|;
      MatchingEmptyPrefix(values[..n - 1]);
      assert values == values[..n - 1] + [values[n - 1]];
    }
  }

  /** With the empty prefix the result is all elements, trimmed, joined with `'-'`. */
  lemma CleanSetEmptyPrefix(s: JsSet<string>)
    ensures CleanSet(s, "") == Join("-", seq(|s|, k requires 0 <= k < |s| => Trim(s[k])))
  {
    MatchingEmptyPrefix(s);
    assert Segments(s, "") == seq(|s|, k requires 0 <= k < |s| => Trim(s[k]));
  }

  /** An element equal to the prefix contributes an empty segment. */
  lemma ElementEqualToPrefix(s: JsSet<string>, startString: string) returns (k: nat)
    requires startString in s
    ensures k < |Segments(s, startString)| && Segments(s, startString)[k] == ""
    ensures Matching(s, startString)[k] == startString
  {
    var idx := MatchingOrder(s, startString);
    var i :| 0 <= i < |s| && s[i] == startString;
    assert StartsWith(s[i], startString);
    var j :| 0 <= j < |idx| && idx[j] == i;
    k := j;
  }

  /** When no segment holds `'-'`, splitting the result on `'-'` recovers the segments. */
  lemma CleanSetSplit(s: JsSet<string>, startString: string)
    requires Segments(s, startString) != []
    requires forall k :: 0 <= k < |Segments(s, startString)| ==> '-' !in Segments(s, startString)[k]
    ensures Split(CleanSet(s, startString), '-') == Segments(s, startString)
  {
    SplitJoin(Segments(s, startString), '-');
  }

  /** When no element of the set holds `'-'`, no segment does, so splitting the result recovers the segments. */
  lemma CleanSetSplitElements(s: JsSet<string>, startString: string)
    requires exists i :: 0 <= i < |s| && StartsWith(s[i], startString)
    requires forall i :: 0 <= i < |s| ==> '-' !in s[i]
    ensures Split(CleanSet(s, startString), '-') == Segments(s, startString)
  {
    var segs := Segments(s, startString);
    var idx := SegmentsOrigin(s, startString);
    var i :| 0 <= i < |s| && StartsWith(s[i], startString);
    assert i in idx;
    forall k | 0 <= k < |segs| ensures '-' !in segs[k] {
      var v := s[idx[k]];
      TrimKeepsDash(v[|startString|..]);
      assert '-' !in v[|startString|..] by {
        forall j | 0 <= j < |v| - |startString| ensures v[|startString|..][j] != '-' {
          assert v[|startString|..][j] == v[|startString| + j];
        }
      }
    }
    CleanSetSplit(s, startString);
  }
}
