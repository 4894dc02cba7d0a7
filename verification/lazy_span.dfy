/**
 * The matches of a regular expression of the form `D(.*?)D`, where `D` is a
 * single delimiter character, as the `regex` crate finds them: leftmost first,
 * the lazy `.*?` stopping at the nearest following delimiter, `.` matching any
 * character except a newline, and the search resuming after each match.
 */
module LazySpan {
  import opened Wrappers

  /** A match `s[start..end]` (`Match::start()` and `Match::end()`). */
  datatype Span = Span(start: nat, end: nat)

  /** The index of the first newline at or after `i`, or `|s|` when the line is the last. */
  function LineEnd(s: string, i: nat): (e: nat)
    decreases |s| - i
    ensures i <= |s| ==> i <= e <= |s|
    ensures e < |s| ==> s[e] == '\n'
    ensures forall k :: i <= k < e && k < |s| ==> s[k] != '\n'
  {
    if i >= |s| then i
    else if s[i] == '\n' then i
    else LineEnd(s, i + 1)
  }

  /**
   * The index of the nearest delimiter at or after `i` on the same line, i.e.
   * where `(.*?)D` starting at `i` stops; none when the line holds no delimiter.
   */
  function NextDelim(s: string, d: char, i: nat): (r: Option<nat>)
    requires d != '\n'
    decreases |s| - i
    ensures r.Some? ==> i <= r.value < LineEnd(s, i) && s[r.value] == d
    ensures r.Some? ==> forall k :: i <= k < r.value ==> s[k] != d
    ensures r.None? ==> forall k :: i <= k < LineEnd(s, i) && k < |s| ==> s[k] != d
  {
    if i >= |s| then None
    else if s[i] == d then Some(i)
    else if s[i] == '\n' then None
    else NextDelim(s, d, i + 1)
  }

  /** `m` is a text of the form `D(.*?)D` with no delimiter and no newline inside. */
  predicate IsMatch(s: string, d: char, m: Span) {
    && m.start + 2 <= m.end <= |s|
    && s[m.start] == d && s[m.end - 1] == d
    && forall k :: m.start < k < m.end - 1 ==> s[k] != d && s[k] != '\n'
  }

  /** Every span of `r` is a match lying at or after `i`. */
  predicate AllMatch(s: string, d: char, i: nat, r: seq<Span>) {
    forall n :: 0 <= n < |r| ==> IsMatch(s, d, r[n]) && i <= r[n].start
  }

  /** The spans of `r` come left to right and do not overlap. */
  predicate InOrder(r: seq<Span>) {
    forall m, n :: 0 <= m < n < |r| ==> r[m].end <= r[n].start
  }

  /** Every span of `r` lies in `s[i..]` and has room for two delimiters. */
  predicate Bounded(s: string, i: nat, r: seq<Span>) {
    forall n :: 0 <= n < |r| ==> i <= r[n].start && r[n].start + 2 <= r[n].end <= |s|
  }

  /** `find_iter` over `s[i..]`: the successive non-overlapping matches. */
  function Matches(s: string, d: char, i: nat): (r: seq<Span>)
    requires d != '\n'
    decreases |s| - i
    ensures Bounded(s, i, r)
  {
    if i >= |s| then []
    else if s[i] == d then
      match NextDelim(s, d, i + 1)
      case Some(j) => [Span(i, j + 1)] + Matches(s, d, j + 1)
      case None => Matches(s, d, i + 1)
    else Matches(s, d, i + 1)
  }

  /** Every span `find_iter` reports is a match of `D(.*?)D`. */
  lemma {:induction false} MatchesAreMatches(s: string, d: char, i: nat)
    requires d != '\n'
    ensures AllMatch(s, d, i, Matches(s, d, i))
    decreases |s| - i
  {
    if i < |s| {
      if s[i] == d && NextDelim(s, d, i + 1).Some? {
        var j := NextDelim(s, d, i + 1).value;
        MatchesAreMatches(s, d, j + 1);
        var rest := Matches(s, d, j + 1);
        assert Matches(s, d, i) == [Span(i, j + 1)] + rest;
        assert IsMatch(s, d, Span(i, j + 1));
      } else {
        MatchesAreMatches(s, d, i + 1);
      }
    }
  }

  /** The matches come left to right and do not overlap. */
  lemma {:induction false} MatchesInOrder(s: string, d: char, i: nat)
    requires d != '\n'
    ensures InOrder(Matches(s, d, i))
    decreases |s| - i
  {
    if i < |s| {
      if s[i] == d && NextDelim(s, d, i + 1).Some? {
        var j := NextDelim(s, d, i + 1).value;
        MatchesInOrder(s, d, j + 1);
        var rest := Matches(s, d, j + 1);
        assert Matches(s, d, i) == [Span(i, j + 1)] + rest;
        InOrderPrepend(Span(i, j + 1), s, j + 1, rest);
      } else {
        assert Matches(s, d, i) == Matches(s, d, i + 1);
        MatchesInOrder(s, d, i + 1);
      }
    }
  }

  /** A span ending at `k` followed by ordered spans starting from `k` stays in order. */
  lemma InOrderPrepend(m: Span, s: string, k: nat, rest: seq<Span>)
    requires InOrder(rest) && Bounded(s, k, rest) && m.end == k
    ensures InOrder([m] + rest)
  {
    var r := [m] + rest;
    forall a, b | 0 <= a < b < |r|
      ensures r[a].end <= r[b].start
    {
      assert r[b] == rest[b - 1];
      if a > 0 {
        assert r[a] == rest[a - 1];
      }
    }
  }

  /** A member of `Matches` is a match: two delimiters with neither kind of stop between them. */
  lemma MatchIsSpan(s: string, d: char, m: Span)
    requires d != '\n' && m in Matches(s, d, 0)
    ensures IsMatch(s, d, m)
  {
    var r := Matches(s, d, 0);
    MatchesAreMatches(s, d, 0);
    var n :| 0 <= n < |r| && r[n] == m;
    assert IsMatch(s, d, r[n]);
  }

  /** How many delimiters `s[..k]` holds after its last newline. */
  function TrailCount(s: string, d: char, k: nat): nat
    requires k <= |s|
  {
    if k == 0 then 0
    else if s[k - 1] == '\n' then 0
    else TrailCount(s, d, k - 1) + (if s[k - 1] == d then 1 else 0)
  }

  /**
   * The reference reading of the matches: on each line the delimiters pair up
   * first with second, third with fourth, and so on; a delimiter at an even
   * place on its line opens a match when another delimiter follows on that line.
   */
  predicate Opens(s: string, d: char, p: nat)
    requires d != '\n' && p < |s|
  {
    s[p] == d && TrailCount(s, d, p) % 2 == 0 && NextDelim(s, d, p + 1).Some?
  }

  /** A delimiter followed by a run free of delimiters and newlines adds one to the count. */
  lemma {:induction false} TrailAcrossSpan(s: string, d: char, i: nat, j: nat)
    requires d != '\n'
    requires i < j <= |s| && s[i] == d
    requires forall k :: i < k < j ==> s[k] != d && s[k] != '\n'
    ensures TrailCount(s, d, j) == TrailCount(s, d, i) + 1
    decreases j - i
  {
    if j > i + 1 {
      TrailAcrossSpan(s, d, i, j - 1);
    }
  }

  /** `m` is the match the parity reading predicts at or after scan position `i`. */
  predicate Predicted(s: string, d: char, i: nat, m: Span)
    requires d != '\n'
  {
    i <= m.start < |s| && Opens(s, d, m.start) && m.end == NextDelim(s, d, m.start + 1).value + 1
  }

  /** The scan position `i` is at an even place on its line, or past the line's last delimiter. */
  predicate EvenPlace(s: string, d: char, i: nat)
    requires d != '\n' && i <= |s|
  {
    TrailCount(s, d, i) % 2 == 0 || NextDelim(s, d, i).None?
  }

  /** The matches found from a scan position at an even place are the predicted ones. */
  lemma {:induction false} MatchesFrom(s: string, d: char, i: nat, m: Span)
    requires d != '\n' && i <= |s| && EvenPlace(s, d, i)
    ensures m in Matches(s, d, i) <==> Predicted(s, d, i, m)
    decreases |s| - i, 1
  {
    if i == |s| {
    } else if s[i] != d || NextDelim(s, d, i + 1).None? {
      MatchesFromSkip(s, d, i, m);
    } else {
      assert NextDelim(s, d, i) == Some(i);
      var j := NextDelim(s, d, i + 1).value;
      MatchesFromOpening(s, d, i, j, m);
    }
  }

  /** The step of `MatchesFrom` at a character where no match starts. */
  lemma {:induction false} MatchesFromSkip(s: string, d: char, i: nat, m: Span)
    requires d != '\n' && i < |s| && EvenPlace(s, d, i)
    requires s[i] != d || NextDelim(s, d, i + 1).None?
    ensures m in Matches(s, d, i) <==> Predicted(s, d, i, m)
    decreases |s| - i, 0
  {
    assert Matches(s, d, i) == Matches(s, d, i + 1);
    SkipKeepsEvenPlace(s, d, i);
    MatchesFrom(s, d, i + 1, m);
    assert Predicted(s, d, i, m) <==> Predicted(s, d, i + 1, m);
  }

  /** Moving past a character where no match starts keeps the scan at an even place. */
  lemma SkipKeepsEvenPlace(s: string, d: char, i: nat)
    requires d != '\n' && i < |s| && EvenPlace(s, d, i)
    requires s[i] != d || NextDelim(s, d, i + 1).None?
    ensures EvenPlace(s, d, i + 1)
  {
    if s[i] != d {
      assert s[i] == '\n' || NextDelim(s, d, i) == NextDelim(s, d, i + 1);
    }
  }

  /** The step of `MatchesFrom` at a delimiter that opens the match `s[i..j + 1]`. */
  lemma {:induction false} MatchesFromOpening(s: string, d: char, i: nat, j: nat, m: Span)
    requires d != '\n' && i < |s| && s[i] == d && TrailCount(s, d, i) % 2 == 0
    requires NextDelim(s, d, i + 1) == Some(j)
    ensures m in Matches(s, d, i) <==> Predicted(s, d, i, m)
    decreases |s| - i, 0
  {
    var rest := Matches(s, d, j + 1);
    assert Matches(s, d, i) == [Span(i, j + 1)] + rest;

    OpeningTrail(s, d, i, j);
    MatchesFrom(s, d, j + 1, m);
    OpeningStep(s, d, i, j, m);
  }

  /** After the match `s[i..j + 1]` the scan is again at an even place. */
  lemma OpeningTrail(s: string, d: char, i: nat, j: nat)
    requires d != '\n' && i < |s| && s[i] == d && TrailCount(s, d, i) % 2 == 0
    requires NextDelim(s, d, i + 1) == Some(j)
    ensures TrailCount(s, d, j) == TrailCount(s, d, i) + 1
    ensures TrailCount(s, d, j + 1) % 2 == 0
  {
    TrailAcrossSpan(s, d, i, j);
    assert TrailCount(s, d, j + 1) == TrailCount(s, d, j) + 1;
  }

  /** Between an opening delimiter at `i` and its partner at `j` no other match is predicted. */
  lemma OpeningStep(s: string, d: char, i: nat, j: nat, m: Span)
    requires d != '\n' && i < |s| && s[i] == d && TrailCount(s, d, i) % 2 == 0
    requires NextDelim(s, d, i + 1) == Some(j)
    requires TrailCount(s, d, j) == TrailCount(s, d, i) + 1
    ensures Predicted(s, d, i, m) <==> m == Span(i, j + 1) || Predicted(s, d, j + 1, m)
  {
  }

  /**
   * The regex matches of `D(.*?)D` are exactly the spans from a delimiter at an
   * even place on its line to the next delimiter on that line.
   */
  lemma MatchesByParity(s: string, d: char, m: Span)
    requires d != '\n'
    ensures m in Matches(s, d, 0) <==> Predicted(s, d, 0, m)
  {
    MatchesFrom(s, d, 0, m);
  }
}
