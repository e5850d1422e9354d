/**
 * The string operations 0x03-ES6_data_manipulation/8-clean_set.js relies on:
 * `String.prototype.startsWith`, `substring`, `trim` and
 * `Array.prototype.join`, with `split` as the inverse of `join`.
 */
module JsStrings {

  /** `s.startsWith(prefix)`; every string starts with the empty string. */
  predicate StartsWith(s: string, prefix: string): (b: bool)
    ensures b <==> |prefix| <= |s| && forall i :: 0 <= i < |prefix| ==> s[i] == prefix[i]
    ensures b ==> s == prefix + s[|prefix|..]
  {
    |prefix| <= |s| && s[..|prefix|] == prefix
  }

  /**
   * The code points `trim` strips: the WhiteSpace and LineTerminator
   * productions of ECMA-262, with the Unicode space separators (category Zs).
   * All of them lie in the Basic Multilingual Plane, so each is one UTF-16 code unit.
   */
  predicate IsWs(c: char): (b: bool)
    ensures b ==> c < '\U{10000}'
    ensures b ==> c != '-'
  {
    || c == '\t' || c == '\U{000B}' || c == '\U{000C}' || c == ' '
    || c == '\U{00A0}' || c == '\U{FEFF}' || c == '\U{1680}'
    || ('\U{2000}' <= c <= '\U{200A}')
    || c == '\U{202F}' || c == '\U{205F}' || c == '\U{3000}'
    || c == '\n' || c == '\r' || c == '\U{2028}' || c == '\U{2029}'
  }

  /** The characters of `s` from `lo` up to `hi` are all whitespace. */
  predicate AllWsIn(s: string, lo: int, hi: int) {
    forall i :: 0 <= lo <= i < hi <= |s| ==> IsWs(s[i])
  }

  /** Neither the first nor the last character of `s` is whitespace. */
  predicate IsTrimmed(s: string) {
    s == [] || (!IsWs(s[0]) && !IsWs(s[|s| - 1]))
  }

  /** `s` with its leading whitespace removed. */
  function TrimStart(s: string): (r: string)
    ensures |r| <= |s| && r == s[|s| - |r|..]
    ensures AllWsIn(s, 0, |s| - |r|)
    ensures r == [] || !IsWs(r[0])
  {
    if s != [] && IsWs(s[0]) then TrimStart(s[1..]) else s
  }

  /** `s` with its trailing whitespace removed. */
  function TrimEnd(s: string): (r: string)
    ensures |r| <= |s| && r == s[..|r|]
    ensures AllWsIn(s, |r|, |s|)
    ensures r == [] || !IsWs(r[|r| - 1])
  {
    if s != [] && IsWs(s[|s| - 1]) then TrimEnd(s[..|s| - 1]) else s
  }

  /** `s.trim()`: whitespace removed from both ends. */
  function Trim(s: string): (r: string)
    ensures IsTrimmed(r)
    ensures |r| <= |s|
  {
    TrimEnd(TrimStart(s))
  }

  /** A whitespace-only tail of the suffix `t == s[lo..]` is a whitespace-only tail of `s`. */
  lemma TailWs(s: string, t: string, e: string, lo: nat)
    requires lo <= |s| && t == s[lo..]
    requires |e| <= |t| && AllWsIn(t, |e|, |t|)
    ensures AllWsIn(s, lo + |e|, |s|)
  {
    forall i | lo + |e| <= i < |s| ensures IsWs(s[i]) {
      assert s[i] == t[i - lo];
    }
  }

  /** `s.trim()` is the slice of `s` between a whitespace-only head and a whitespace-only tail. */
  lemma TrimSlice(s: string) returns (lo: nat, hi: nat)
    ensures lo <= hi <= |s| && Trim(s) == s[lo..hi]
    ensures AllWsIn(s, 0, lo) && AllWsIn(s, hi, |s|)
  {
    var t := TrimStart(s);
    var e := TrimEnd(t);
    lo := |s| - |t|;
    hi := lo + |e|;
    TailWs(s, t, e, lo);
    assert s[lo..hi] == t[..|e|];
  }

  /** Cutting whitespace-only ends off `s` keeps every `'-'` of it. */
  lemma DashInWsSlice(s: string, lo: nat, hi: nat)
    requires lo <= hi <= |s|
    requires AllWsIn(s, 0, lo) && AllWsIn(s, hi, |s|)
    ensures '-' in s[lo..hi] <==> '-' in s
  {
    assert !IsWs('-');
    if '-' in s {
      var j :| 0 <= j < |s| && s[j] == '-';
      assert lo <= j < hi;
      assert s[lo..hi][j - lo] == s[j];
    }
    if '-' in s[lo..hi] {
      var j :| 0 <= j < hi - lo && s[lo..hi][j] == '-';
      assert s[lo + j] == s[lo..hi][j];
    }
  }

  /** `trim` never removes a `'-'`: one occurs in the result exactly when it occurs in the input. */
  lemma TrimKeepsDash(s: string)
    ensures '-' in Trim(s) <==> '-' in s
  {
    var lo, hi := TrimSlice(s);
    DashInWsSlice(s, lo, hi);
  }

  /** A string without surrounding whitespace is a fixed point of `trim`. */
  lemma TrimOfTrimmed(s: string)
    requires IsTrimmed(s)
    ensures Trim(s) == s
  {
  }

  /** `trim` is idempotent. */
  lemma TrimIdempotent(s: string)
    ensures Trim(Trim(s)) == Trim(s)
  {
    TrimOfTrimmed(Trim(s));
  }

  /** The total length of `parts`. */
  function TotalLength(parts: seq<string>): nat {
    if parts == [] then 0 else |parts[0]| + TotalLength(parts[1..])
  }

  /** `parts.join(sep)`: the parts in order with `sep` between neighbours. */
  function Join(sep: string, parts: seq<string>): (r: string)
    ensures parts != [] ==> StartsWith(r, parts[0])
    ensures parts != [] ==> |r| == TotalLength(parts) + (|parts| - 1) * |sep|
  {
    if parts == [] then ""
    else if |parts| == 1 then parts[0]
    else parts[0] + sep + Join(sep, parts[1..])
  }

  /** With a non-empty separator the join is empty exactly for no parts or one empty part. */
  lemma JoinEmpty(sep: string, parts: seq<string>)
    requires sep != ""
    ensures Join(sep, parts) == "" <==> parts == [] || parts == [""]
  {
    if |parts| >= 2 {
      assert |Join(sep, parts)| >= |sep|;
    }
  }

  /** `s.split(c)` on a one-character separator: always at least one piece, none holding `c`. */
  function Split(s: string, c: char): (r: seq<string>)
    ensures |r| >= 1
    ensures forall k :: 0 <= k < |r| ==> c !in r[k]
  {
    if s == [] then [""]
    else
      var rest := Split(s[1..], c);
      if s[0] == c then [""] + rest else [[s[0]] + rest[0]] + rest[1..]
  }

  /** A piece without the separator splits to itself. */
  lemma {:induction false} SplitWithoutSeparator(p: string, c: char)
    requires c !in p
    ensures Split(p, c) == [p]
  {
    if p != [] {
      assert p[0] != c;
      SplitWithoutSeparator(p[1..], c);
      assert [p[0]] + p[1..] == p;
    }
  }

  /** Splitting stops at the first separator. */
  lemma {:induction false} SplitAtSeparator(p: string, c: char, t: string)
    requires c !in p
    ensures Split(p + [c] + t, c) == [p] + Split(t, c)
  {
    if p == [] {
      assert (p + [c] + t)[1..] == t;
    } else {
      assert (p + [c] + t)[1..] == p[1..] + [c] + t;
      SplitAtSeparator(p[1..], c, t);
      assert [p[0]] + p[1..] == p;
    }
  }

  /** Splitting a join of separator-free parts gives the parts back. */
  lemma {:induction false} SplitJoin(parts: seq<string>, c: char)
    requires parts != []
    requires forall k :: 0 <= k < |parts| ==> c !in parts[k]
    ensures Split(Join([c], parts), c) == parts
  {
    if |parts| == 1 {
      SplitWithoutSeparator(parts[0], c);
    } else {
      var t := Join([c], parts[1..]);
      assert Join([c], parts) == parts[0] + [c] + t;
      assert forall k :: 0 <= k < |parts| - 1 ==> parts[1..][k] == parts[k + 1];
      SplitJoin(parts[1..], c);
      SplitAtSeparator(parts[0], c, t);
      assert parts == [parts[0]] + parts[1..];
    }
  }

  /** Joining the pieces of a split gives the string back. */
  lemma {:induction false} JoinSplit(s: string, c: char)
    ensures Join([c], Split(s, c)) == s
  {
    if s != [] {
      var rest := Split(s[1..], c);
      JoinSplit(s[1..], c);
      if s[0] == c {
        assert Split(s, c)[1..] == rest;
      } else {
        var r := Split(s, c);
        assert r[1..] == rest[1..];
        if |rest| >= 2 {
          assert rest == [rest[0]] + rest[1..];
        }
      }
    }
  }
}
