/**
 * The parts of Rust's string library the core relies on, over `seq<char>`:
 * `str::replace` and `[String]::join`, together with `str::split` with a
 * string pattern, in whose terms their round trips are stated. Matches of a
 * pattern are found left to right and never overlap.
 */
module RustStr {

  /** `pat` occurs in `s` starting at index `i`. */
  predicate OccursAt(s: string, pat: string, i: nat) {
    i + |pat| <= |s| && s[i..i + |pat|] == pat
  }

  /**
   * `s.replace(pat, to)`: every non-overlapping occurrence of `pat`, taken left to
   * right, is replaced by `to`. An empty pattern matches at every character
   * boundary, the start and the end included.
   */
  function ReplaceAll(s: string, pat: string, to: string): (r: string)
    ensures |pat| == 0 ==> |r| == |s| + (|s| + 1) * |to|
    ensures |pat| > 0 && |to| == |pat| ==> |r| == |s|
    decreases |s|
  {
    if |pat| == 0 then
      if |s| == 0 then to else to + [s[0]] + ReplaceAll(s[1..], pat, to)
    else if |s| < |pat| then s
    else if s[..|pat|] == pat then to + ReplaceAll(s[|pat|..], pat, to)
    else [s[0]] + ReplaceAll(s[1..], pat, to)
  }

  /** The number of characters in all of `parts`. */
  function TotalLength(parts: seq<string>): nat
  {
    if |parts| == 0 then 0 else |parts[0]| + TotalLength(parts[1..])
  }

  /** `parts.join(sep)`: every part, with one separator between neighbours. */
  function Join(parts: seq<string>, sep: string): (r: string)
    ensures |parts| > 0 ==> |r| == TotalLength(parts) + (|parts| - 1) * |sep|
  {
    if |parts| == 0 then []
    else if |parts| == 1 then parts[0]
    else parts[0] + sep + Join(parts[1..], sep)
  }

  /** The characters of `s`, each as a text of its own. */
  function Chars(s: string): (r: seq<string>)
    ensures |r| == |s|
    ensures forall k :: 0 <= k < |s| ==> r[k] == [s[k]]
  {
    if |s| == 0 then [] else [[s[0]]] + Chars(s[1..])
  }

  /**
   * An empty pattern puts the replacement before every character and after
   * the last one: `"ab".replace("", "x") == "xaxbx"`.
   */
  lemma {:induction false} ReplaceEmptyPattern(s: string, to: string)
    ensures |s| == 0 ==> ReplaceAll(s, [], to) == to
    ensures |s| > 0 ==> ReplaceAll(s, [], to) == to + Join(Chars(s), to) + to
    decreases |s|
  {
    if |s| > 1 {
      ReplaceEmptyPattern(s[1..], to);
      assert Chars(s)[1..] == Chars(s[1..]);
    }
  }

  /** `s.split(pat)` for a non-empty pattern: the pieces between the occurrences of `pat`. */
  function Split(s: string, pat: string): (r: seq<string>)
    requires |pat| > 0
    ensures |r| > 0
    decreases |s|
  {
    if |s| < |pat| then [s]
    else if s[..|pat|] == pat then [[]] + Split(s[|pat|..], pat)
    else
      var rest := Split(s[1..], pat);
      [[s[0]] + rest[0]] + rest[1..]
  }

  /** Replacing a pattern by itself changes nothing. */
  lemma {:induction false} ReplaceWithItself(s: string, pat: string)
    ensures ReplaceAll(s, pat, pat) == s
    decreases |s|
  {
    if |pat| == 0 {
      if |s| > 0 {
        ReplaceWithItself(s[1..], pat);
        assert [s[0]] + s[1..] == s;
      }
    } else if |s| < |pat| {
    } else if s[..|pat|] == pat {
      ReplaceWithItself(s[|pat|..], pat);
      assert s[..|pat|] + s[|pat|..] == s;
    } else {
      ReplaceWithItself(s[1..], pat);
      assert [s[0]] + s[1..] == s;
    }
  }

  /** A non-empty pattern that never occurs leaves the text unchanged. */
  lemma {:induction false} ReplaceAbsent(s: string, pat: string, to: string)
    requires |pat| > 0
    requires forall i :: 0 <= i <= |s| ==> !OccursAt(s, pat, i)
    ensures ReplaceAll(s, pat, to) == s
    decreases |s|
  {
    if |s| >= |pat| {
      assert !OccursAt(s, pat, 0);
      forall i | 0 <= i <= |s[1..]|
        ensures !OccursAt(s[1..], pat, i)
      {
        assert !OccursAt(s, pat, i + 1);
        if i + |pat| <= |s[1..]| {
          assert s[1..][i..i + |pat|] == s[i + 1..i + 1 + |pat|];
        }
      }
      ReplaceAbsent(s[1..], pat, to);
      assert [s[0]] + s[1..] == s;
    }
  }

  /** An empty first part contributes only the separator. */
  lemma JoinEmptyFirst(rest: seq<string>, sep: string)
    requires |rest| > 0
    ensures Join([[]] + rest, sep) == sep + Join(rest, sep)
  {
    assert ([[]] + rest)[1..] == rest;
  }

  /** A character put in front of the first part goes in front of the join. */
  lemma JoinCharFirst(c: char, rest: seq<string>, sep: string)
    requires |rest| > 0
    ensures Join([[c] + rest[0]] + rest[1..], sep) == [c] + Join(rest, sep)
  {
    var parts := [[c] + rest[0]] + rest[1..];
    if |rest| > 1 {
      assert parts[1..] == rest[1..];
    }
  }

  /** `str::replace` is `split` followed by `join` with the replacement. */
  lemma {:induction false} ReplaceIsSplitJoin(s: string, pat: string, to: string)
    requires |pat| > 0
    ensures ReplaceAll(s, pat, to) == Join(Split(s, pat), to)
    decreases |s|
  {
    if |s| < |pat| {
    } else if s[..|pat|] == pat {
      ReplaceIsSplitJoin(s[|pat|..], pat, to);
      JoinEmptyFirst(Split(s[|pat|..], pat), to);
    } else {
      ReplaceIsSplitJoin(s[1..], pat, to);
      JoinCharFirst(s[0], Split(s[1..], pat), to);
    }
  }

  /** Joining the pieces of a split with the pattern gives the text back. */
  lemma JoinSplitRoundTrip(s: string, pat: string)
    requires |pat| > 0
    ensures Join(Split(s, pat), pat) == s
  {
    ReplaceIsSplitJoin(s, pat, pat);
    ReplaceWithItself(s, pat);
  }

  /** A piece without the separator's first character splits into itself. */
  lemma {:induction false} SplitPiece(x: string, sep: string)
    requires |sep| > 0
    requires forall k :: 0 <= k < |x| ==> x[k] != sep[0]
    ensures Split(x, sep) == [x]
    decreases |x|
  {
    if |x| >= |sep| {
      assert x[..|sep|][0] != sep[0];
      SplitPiece(x[1..], sep);
      assert [x[0]] + x[1..] == x;
    }
  }

  /** Splitting `x + sep + t` stops at the separator right after `x`. */
  lemma {:induction false} SplitAfterPiece(x: string, sep: string, t: string)
    requires |sep| > 0
    requires forall k :: 0 <= k < |x| ==> x[k] != sep[0]
    ensures Split(x + sep + t, sep) == [x] + Split(t, sep)
    decreases |x|
  {
    var s := x + sep + t;
    if |x| == 0 {
      assert s == sep + t;
      assert s[..|sep|] == sep && s[|sep|..] == t;
    } else {
      assert s[..|sep|][0] == x[0];
      assert s[1..] == x[1..] + sep + t;
      SplitAfterPiece(x[1..], sep, t);
      assert [x[0]] + x[1..] == x;
    }
  }

  /**
   * Splitting a join gives the parts back, provided no part contains the
   * separator's first character.
   */
  lemma {:induction false} SplitJoinRoundTrip(parts: seq<string>, sep: string)
    requires |sep| > 0 && |parts| > 0
    requires forall i, k :: 0 <= i < |parts| && 0 <= k < |parts[i]| ==> parts[i][k] != sep[0]
    ensures Split(Join(parts, sep), sep) == parts
    decreases |parts|
  {
    if |parts| == 1 {
      SplitPiece(parts[0], sep);
    } else {
      SplitAfterPiece(parts[0], sep, Join(parts[1..], sep));
      SplitJoinRoundTrip(parts[1..], sep);
      assert [parts[0]] + parts[1..] == parts;
    }
  }
}
