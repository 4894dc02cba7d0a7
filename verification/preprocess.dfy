/**
 * The text preprocessors of the library (`src/lib.rs`): quote curling with
 * the pattern `"(.*?)"`, emoji-shortcode substitution with the pattern
 * `:(.*?):`, and the name of an HTTP method.
 */
module Preprocess {
  import opened Wrappers
  import opened RustStr
  import opened LazySpan

  /** U+201C, the left double quotation mark. */
  const LeftQuote: char := '\U{201C}'
  /** U+201D, the right double quotation mark. */
  const RightQuote: char := '\U{201D}'

  // ---------------------------------------------------------------- curly quotes

  /** `replace_all` of `"(.*?)"` by `“$1”` over `s[i..]`, scanning from `i`. */
  function Curl(s: string, i: nat): (r: string)
    requires i <= |s|
    decreases |s| - i
    ensures |r| == |s| - i
  {
    if i == |s| then []
    else if s[i] == '"' then
      match NextDelim(s, '"', i + 1)
      case Some(j) => CurledText(s, i, j) + Curl(s, j + 1)
      case None => ['"'] + Curl(s, i + 1)
    else [s[i]] + Curl(s, i + 1)
  }

  /** What the match `s[i..j + 1]` becomes: `“` + the same inner text + `”`. */
  function CurledText(s: string, i: nat, j: nat): (r: string)
    requires i < j < |s|
    ensures |r| == j - i + 1 && r[0] == LeftQuote && r[j - i] == RightQuote
    ensures forall k :: i < k < j ==> r[k - i] == s[k]
  {
    [LeftQuote] + s[i + 1..j] + [RightQuote]
  }

  /** `curly_quotes`: every match of `"(.*?)"` becomes `“` + the same inner text + `”`. */
  function CurlyQuotes(s: string): (r: string)
    ensures |r| == |s|
  {
    Curl(s, 0)
  }

  /**
   * The reference reading of quote curling, character by character: only straight
   * quotes change; on each line they pair up first with second, third with
   * fourth, and so on; a quote left without a partner on its line stays straight.
   */
  function CurledAt(s: string, k: nat): char
    requires k < |s|
  {
    if s[k] != '"' then s[k]
    else if TrailCount(s, '"', k) % 2 == 1 then RightQuote
    else if NextDelim(s, '"', k + 1).Some? then LeftQuote
    else '"'
  }

  /** The scan from an even place agrees with the reference reading. */
  lemma {:induction false} CurlAt(s: string, i: nat, k: nat)
    requires i <= k < |s| && EvenPlace(s, '"', i)
    ensures Curl(s, i)[k - i] == CurledAt(s, k)
    decreases |s| - i, 1
  {
    if s[i] != '"' {
      CurlAtOther(s, i, k);
    } else if NextDelim(s, '"', i + 1).None? {
      CurlAtUnpaired(s, i, k);
    } else {
      CurlAtPair(s, i, NextDelim(s, '"', i + 1).value, k);
    }
  }

  /** The step of `CurlAt` at a character other than a straight quote. */
  lemma {:induction false} CurlAtOther(s: string, i: nat, k: nat)
    requires i <= k < |s| && EvenPlace(s, '"', i) && s[i] != '"'
    ensures Curl(s, i)[k - i] == CurledAt(s, k)
    decreases |s| - i, 0
  {
    assert Curl(s, i) == [s[i]] + Curl(s, i + 1);
    if k > i {
      assert s[i] == '\n' || NextDelim(s, '"', i) == NextDelim(s, '"', i + 1);
      assert EvenPlace(s, '"', i + 1);
      CurlAt(s, i + 1, k);
    }
  }

  /** The step of `CurlAt` at a straight quote with no partner on its line. */
  lemma {:induction false} CurlAtUnpaired(s: string, i: nat, k: nat)
    requires i <= k < |s| && EvenPlace(s, '"', i) && s[i] == '"'
    requires NextDelim(s, '"', i + 1).None?
    ensures Curl(s, i)[k - i] == CurledAt(s, k)
    decreases |s| - i, 0
  {
    assert NextDelim(s, '"', i) == Some(i);
    assert Curl(s, i) == ['"'] + Curl(s, i + 1);
    if k > i {
      CurlAt(s, i + 1, k);
    }
  }

  /** The step of `CurlAt` at a straight quote whose partner is at `j`. */
  lemma {:induction false} CurlAtPair(s: string, i: nat, j: nat, k: nat)
    requires i <= k < |s| && EvenPlace(s, '"', i) && s[i] == '"'
    requires NextDelim(s, '"', i + 1) == Some(j)
    ensures Curl(s, i)[k - i] == CurledAt(s, k)
    decreases |s| - i, 0
  {
    if k <= j {
      PairHead(s, i, j, k);
    } else {
      PairShape(s, i, j);
      CurlAt(s, j + 1, k);
      PairTail(s, i, j, k);
    }
  }

  /** Within a matched pair, the scan's output is the reference reading. */
  lemma PairHead(s: string, i: nat, j: nat, k: nat)
    requires i <= k && i < |s| && EvenPlace(s, '"', i) && s[i] == '"'
    requires NextDelim(s, '"', i + 1) == Some(j) && k <= j
    ensures Curl(s, i)[k - i] == CurledAt(s, k)
  {
    PairShape(s, i, j);
    var head := CurledText(s, i, j);
    assert Curl(s, i)[k - i] == head[k - i];
    if i < k < j {
      assert s[k] != '"';
    }
  }

  /** After a matched pair, the scan's output is that of the scan resumed past it. */
  lemma PairTail(s: string, i: nat, j: nat, k: nat)
    requires i < |s| && s[i] == '"'
    requires NextDelim(s, '"', i + 1) == Some(j) && j < k < |s|
    requires Curl(s, j + 1)[k - (j + 1)] == CurledAt(s, k)
    ensures Curl(s, i)[k - i] == CurledAt(s, k)
  {
    PairCurl(s, i, j);
    var head := CurledText(s, i, j);
    var rest := Curl(s, j + 1);
    assert (head + rest)[k - i] == rest[k - (j + 1)];
  }

  /** What the scan emits for a matched pair `s[i..j + 1]`, and where it resumes. */
  lemma PairShape(s: string, i: nat, j: nat)
    requires i < |s| && EvenPlace(s, '"', i) && s[i] == '"'
    requires NextDelim(s, '"', i + 1) == Some(j)
    ensures Curl(s, i) == CurledText(s, i, j) + Curl(s, j + 1)
    ensures CurledAt(s, i) == LeftQuote && CurledAt(s, j) == RightQuote
    ensures EvenPlace(s, '"', j + 1)
  {
    PairPlaces(s, i, j);
    PairEnds(s, i, j);
    PairCurl(s, i, j);
  }

  /** The scan turns a quote at `i` with its partner at `j` into a curled pair. */
  lemma PairCurl(s: string, i: nat, j: nat)
    requires i < |s| && s[i] == '"'
    requires NextDelim(s, '"', i + 1) == Some(j)
    ensures Curl(s, i) == CurledText(s, i, j) + Curl(s, j + 1)
  {
  }

  /** The reference reading of the two quotes of a pair, given their places. */
  lemma PairEnds(s: string, i: nat, j: nat)
    requires i < |s| && s[i] == '"'
    requires NextDelim(s, '"', i + 1) == Some(j)
    requires TrailCount(s, '"', i) % 2 == 0 && TrailCount(s, '"', j) % 2 == 1
    ensures CurledAt(s, i) == LeftQuote && CurledAt(s, j) == RightQuote
  {
  }

  /** An opening quote at `i` sits at an even place, its partner at `j` at an odd one. */
  lemma PairPlaces(s: string, i: nat, j: nat)
    requires i < |s| && EvenPlace(s, '"', i) && s[i] == '"'
    requires NextDelim(s, '"', i + 1) == Some(j)
    ensures TrailCount(s, '"', i) % 2 == 0
    ensures TrailCount(s, '"', j) % 2 == 1
    ensures TrailCount(s, '"', j + 1) % 2 == 0
  {
    assert NextDelim(s, '"', i) == Some(i);
    TrailAcrossSpan(s, '"', i, j);
    assert TrailCount(s, '"', j + 1) == TrailCount(s, '"', j) + 1;
  }

  /** Every character of `curly_quotes(s)` is the one the reference reading gives. */
  lemma CurlyQuotesAt(s: string, k: nat)
    requires k < |s|
    ensures CurlyQuotes(s)[k] == CurledAt(s, k)
  {
    CurlAt(s, 0, k);
  }

  /** Only straight quotes change; every other character is kept in place. */
  lemma CurlyQuotesKeepsOthers(s: string)
    ensures |CurlyQuotes(s)| == |s|
    ensures forall k :: 0 <= k < |s| && s[k] != '"' ==> CurlyQuotes(s)[k] == s[k]
    ensures forall k :: 0 <= k < |s| && s[k] == '"' ==> CurlyQuotes(s)[k] in {'"', LeftQuote, RightQuote}
  {
    forall k | 0 <= k < |s| ensures CurlyQuotes(s)[k] == CurledAt(s, k) {
      CurlyQuotesAt(s, k);
    }
  }

  /** Text without a straight quote comes back unchanged. */
  lemma CurlyQuotesNoQuote(s: string)
    requires '"' !in s
    ensures CurlyQuotes(s) == s
  {
    CurlyQuotesKeepsOthers(s);
  }

  /** A quote at an even place whose partner on its line is at `j` opens a curled pair. */
  lemma CurledPair(s: string, i: nat, j: nat)
    requires i < |s| && s[i] == '"' && TrailCount(s, '"', i) % 2 == 0
    requires NextDelim(s, '"', i + 1) == Some(j)
    ensures CurlyQuotes(s)[i..j + 1] == [LeftQuote] + s[i + 1..j] + [RightQuote]
  {
    var r := CurlyQuotes(s);
    var want := [LeftQuote] + s[i + 1..j] + [RightQuote];
    PairPlaces(s, i, j);
    forall k | i <= k <= j
      ensures r[k] == want[k - i]
    {
      CurlyQuotesAt(s, k);
      if i < k < j {
        assert want[k - i] == s[k];
      }
    }
    assert r[i..j + 1] == want;
  }

  /**
   * Each regex match `"…"` becomes `“` + the same inner text + `”`; the match is
   * lazy (it ends at the nearest following quote) and lies on one line.
   */
  lemma CurlyQuotesSpan(s: string, m: Span)
    requires m in Matches(s, '"', 0)
    ensures m.start + 2 <= m.end <= |s|
    ensures forall k :: m.start < k < m.end - 1 ==> s[k] != '"' && s[k] != '\n'
    ensures CurlyQuotes(s)[m.start..m.end] == [LeftQuote] + s[m.start + 1..m.end - 1] + [RightQuote]
  {
    MatchIsSpan(s, '"', m);
    MatchesByParity(s, '"', m);
    PredictedCurled(s, m);
  }

  /** A predicted quote match is curled. */
  lemma PredictedCurled(s: string, m: Span)
    requires Predicted(s, '"', 0, m)
    ensures m.end <= |s|
    ensures CurlyQuotes(s)[m.start..m.end] == [LeftQuote] + s[m.start + 1..m.end - 1] + [RightQuote]
  {
    CurledPair(s, m.start, m.end - 1);
  }

  /** A straight quote with no partner later on its line is left straight. */
  lemma CurlyQuotesUnpaired(s: string, k: nat)
    requires k < |s| && s[k] == '"'
    requires TrailCount(s, '"', k) % 2 == 0 && NextDelim(s, '"', k + 1).None?
    ensures CurlyQuotes(s)[k] == '"'
  {
    CurlyQuotesAt(s, k);
  }

  /** A pair on one line is curled; the quote left without a partner stays straight. */
  lemma CurlyExample()
    ensures CurlyQuotes("say \"hi\" \"x") == "say \U{201C}hi\U{201D} \"x"
  {
    var s := "say \"hi\" \"x";
    assert Curl(s, 10) == "x";
    assert NextDelim(s, '"', 10) == None;
    assert Curl(s, 9) == "\"x";
    assert NextDelim(s, '"', 5) == Some(7);
    assert Curl(s, 4) == "\U{201C}hi\U{201D} \"x";
  }

  /** Every line of `s` holds an even number of straight quotes. */
  predicate QuotesBalancedPerLine(s: string) {
    forall k :: 0 <= k <= |s| && (k == |s| || s[k] == '\n') ==> TrailCount(s, '"', k) % 2 == 0
  }

  /** A quote with no partner later on its line adds one to its line's count. */
  lemma UnpairedTrail(s: string, k: nat)
    requires k < |s| && s[k] == '"'
    ensures NextDelim(s, '"', k + 1).None? ==>
      TrailCount(s, '"', LineEnd(s, k + 1)) == TrailCount(s, '"', k) + 1
  {
    if NextDelim(s, '"', k + 1).None? {
      TrailAcrossSpan(s, '"', k, LineEnd(s, k + 1));
    }
  }

  /** On a line with an even number of quotes, a quote at an even place has a partner. */
  lemma QuotePaired(s: string, k: nat)
    requires QuotesBalancedPerLine(s)
    requires k < |s| && s[k] == '"' && TrailCount(s, '"', k) % 2 == 0
    ensures NextDelim(s, '"', k + 1).Some?
  {
    UnpairedTrail(s, k);
    var e := LineEnd(s, k + 1);
    assert TrailCount(s, '"', e) % 2 == 0;
  }

  /**
   * When every line holds an even number of straight quotes, `curly_quotes`
   * leaves no straight quote behind.
   */
  lemma CurlyQuotesBalancedLines(s: string)
    requires QuotesBalancedPerLine(s)
    ensures '"' !in CurlyQuotes(s)
  {
    forall k | 0 <= k < |s| ensures CurlyQuotes(s)[k] != '"' {
      CurlyQuotesAt(s, k);
      if s[k] == '"' && TrailCount(s, '"', k) % 2 == 0 {
        QuotePaired(s, k);
      }
    }
  }

  /**
   * Quotes pair only within a line: two quotes on different lines stay
   * straight, although the text as a whole holds an even number of them.
   */
  lemma CurlyQuotesAcrossLines()
    ensures CurlyQuotes("\"a\nb\"") == "\"a\nb\""
  {
    var s := "\"a\nb\"";
    assert NextDelim(s, '"', 5) == None;
    assert Curl(s, 4) == "\"";
    assert NextDelim(s, '"', 1) == None;
    assert Curl(s, 1) == "a\nb\"";
  }

  // ---------------------------------------------------------------- emojis

  /** Every span lies inside `content` and has room for its two colons. */
  predicate WithinText(content: string, caps: seq<Span>) {
    forall n :: 0 <= n < |caps| ==> caps[n].start + 2 <= caps[n].end <= |content|
  }

  /** The shortcode inside a `:name:` span (the capture group). */
  function ShortcodeOf(content: string, m: Span): string
    requires m.start + 2 <= m.end <= |content|
  {
    content[m.start + 1..m.end - 1]
  }

  /** The index of the last span whose shortcode is in the table. */
  function LastKnown(content: string, caps: seq<Span>, shortcodes: map<string, string>): (r: Option<nat>)
    requires WithinText(content, caps)
    ensures r.Some? ==> r.value < |caps| && ShortcodeOf(content, caps[r.value]) in shortcodes
    ensures r.Some? ==> forall n :: r.value < n < |caps| ==> ShortcodeOf(content, caps[n]) !in shortcodes
    ensures r.None? ==> forall n :: 0 <= n < |caps| ==> ShortcodeOf(content, caps[n]) !in shortcodes
  {
    if |caps| == 0 then None
    else if ShortcodeOf(content, caps[|caps| - 1]) in shortcodes then Some(|caps| - 1)
    else LastKnown(content, caps[..|caps| - 1], shortcodes)
  }

  /**
   * What `emojis` returns after visiting the spans `caps`: each known span
   * replaces the result by the ORIGINAL content with that span's text replaced
   * (left to right, without overlap), so only the last known span's
   * replacement is left.
   */
  function Substituted(content: string, caps: seq<Span>, shortcodes: map<string, string>): string
    requires WithinText(content, caps)
  {
    match LastKnown(content, caps, shortcodes)
    case None => content
    case Some(n) =>
      ReplaceAll(content, content[caps[n].start..caps[n].end], shortcodes[ShortcodeOf(content, caps[n])])
  }

  /** The result of `emojis(content)` with the given shortcode table. */
  function EmojisOf(content: string, shortcodes: map<string, string>): string
  {
    Substituted(content, Matches(content, ':', 0), shortcodes)
  }

  /** `emojis`: the loop over the regex matches of `:(.*?):`. */
  method Emojis(content: string, shortcodes: map<string, string>) returns (result: string)
    ensures result == EmojisOf(content, shortcodes)
  {
    var caps := Matches(content, ':', 0);
    MatchesWithinText(content);
    result := content;
    var n := 0;
    while n < |caps|
      invariant n <= |caps|
      invariant result == Substituted(content, caps[..n], shortcodes)
    {
      var name := ShortcodeOf(content, caps[n]);
      SubstitutedStep(content, caps, n, shortcodes);
      if name in shortcodes {
        result := ReplaceAll(content, content[caps[n].start..caps[n].end], shortcodes[name]);
      }
      n := n + 1;
    }
    assert caps[..|caps|] == caps;
  }

  /** The matches of `:(.*?):` lie inside the content. */
  lemma MatchesWithinText(content: string)
    ensures WithinText(content, Matches(content, ':', 0))
  {
    var caps := Matches(content, ':', 0);
    assert Bounded(content, 0, caps);
  }

  /** One more turn of the loop in `emojis`. */
  lemma SubstitutedStep(content: string, caps: seq<Span>, n: nat, shortcodes: map<string, string>)
    requires WithinText(content, caps) && n < |caps|
    ensures WithinText(content, caps[..n]) && WithinText(content, caps[..n + 1])
    ensures Substituted(content, caps[..n + 1], shortcodes) ==
      if ShortcodeOf(content, caps[n]) in shortcodes
      then ReplaceAll(content, content[caps[n].start..caps[n].end], shortcodes[ShortcodeOf(content, caps[n])])
      else Substituted(content, caps[..n], shortcodes)
  {
    var done := caps[..n + 1];
    assert done[..n] == caps[..n] && done[n] == caps[n];
  }

  /** If no span holds a known shortcode, the content comes back unchanged. */
  lemma EmojisNoKnownShortcode(content: string, shortcodes: map<string, string>)
    requires forall m :: m in Matches(content, ':', 0) ==> ShortcodeOf(content, m) !in shortcodes
    ensures EmojisOf(content, shortcodes) == content
  {
  }

  /** Content without a colon has no span and comes back unchanged. */
  lemma EmojisNoColon(content: string, shortcodes: map<string, string>)
    requires ':' !in content
    ensures EmojisOf(content, shortcodes) == content
  {
    MatchesAreMatches(content, ':', 0);
  }

  /**
   * When the span at index `n` is the last one with a known shortcode, the
   * result is the original content with the occurrences of that span's text
   * replaced by its glyph, taken left to right without overlap as
   * `str::replace` does; replacements of earlier spans are not kept.
   */
  lemma EmojisLastKnownWins(content: string, shortcodes: map<string, string>, n: nat)
    requires n < |Matches(content, ':', 0)|
    requires ShortcodeOf(content, Matches(content, ':', 0)[n]) in shortcodes
    requires forall k :: n < k < |Matches(content, ':', 0)| ==>
      ShortcodeOf(content, Matches(content, ':', 0)[k]) !in shortcodes
    ensures var m := Matches(content, ':', 0)[n];
      EmojisOf(content, shortcodes) == ReplaceAll(content, content[m.start..m.end], shortcodes[ShortcodeOf(content, m)])
  {
    MatchesWithinText(content);
    LastKnownIs(content, Matches(content, ':', 0), shortcodes, n);
  }

  /** The span at index `n` is the last known one when it is known and no later span is. */
  lemma LastKnownIs(content: string, caps: seq<Span>, shortcodes: map<string, string>, n: nat)
    requires WithinText(content, caps) && n < |caps|
    requires ShortcodeOf(content, caps[n]) in shortcodes
    requires forall k :: n < k < |caps| ==> ShortcodeOf(content, caps[k]) !in shortcodes
    ensures LastKnown(content, caps, shortcodes) == Some(n)
  {
  }

  /**
   * Two known shortcodes: the first replacement is lost, because each known span
   * restarts from the original content.
   */
  lemma EmojisKeepsOnlyLast()
    ensures EmojisOf(":a: :b:", map["a" := "A", "b" := "B"]) == ":a: B"
  {
    var s := ":a: :b:";
    var table := map["a" := "A", "b" := "B"];
    var caps := Matches(s, ':', 0);
    TwoSpans();
    assert ShortcodeOf(s, caps[1]) == "b" by { assert s[5..6] == "b"; }
    assert LastKnown(s, caps, table) == Some(1);
    assert s[4..7] == ":b:";
    assert table["b"] == "B";
    ReplaceExample();
  }

  /**
   * Occurrences of the last known span's text that overlap are not all
   * replaced: `str::replace` takes them left to right without overlap.
   */
  lemma EmojisOverlapKept()
    ensures EmojisOf(":x:x:", map["x" := "G"]) == "Gx:"
  {
    var s := ":x:x:";
    var table := map["x" := "G"];
    assert NextDelim(s, ':', 1) == Some(2);
    assert NextDelim(s, ':', 5) == None;
    assert Matches(s, ':', 3) == [];
    assert Matches(s, ':', 0) == [Span(0, 3)];
    assert ShortcodeOf(s, Span(0, 3)) == "x" by { assert s[1..2] == "x"; }
    assert LastKnown(s, Matches(s, ':', 0), table) == Some(0);
    assert s[0..3] == ":x:";
    assert ReplaceAll(s[3..], ":x:", "G") == "x:";
  }

  /** The spans of `:a: :b:`. */
  lemma TwoSpans()
    ensures Matches(":a: :b:", ':', 0) == [Span(0, 3), Span(4, 7)]
  {
    var s := ":a: :b:";
    assert NextDelim(s, ':', 1) == Some(2);
    assert NextDelim(s, ':', 5) == Some(6);
    assert Matches(s, ':', 7) == [];
    assert Matches(s, ':', 4) == [Span(4, 7)];
    assert Matches(s, ':', 3) == [Span(4, 7)];
  }

  /** `":a: :b:".replace(":b:", "B")`. */
  lemma ReplaceExample()
    ensures ReplaceAll(":a: :b:", ":b:", "B") == ":a: B"
  {
    var s := ":a: :b:";
    assert ReplaceAll(s[4..], ":b:", "B") == "B";
    assert ReplaceAll(s[3..], ":b:", "B") == " B";
    assert ReplaceAll(s[2..], ":b:", "B") == ": B";
    assert ReplaceAll(s[1..], ":b:", "B") == "a: B";
  }

  // ---------------------------------------------------------------- HTTP method

  /** `Method`: the request method of a route. */
  datatype HttpMethod = POST | GET {
    /** `Method::method`. */
    function Name(): (r: string)
      ensures r == "GET" <==> this == GET
      ensures r == "POST" <==> this == POST
    {
      if this.GET? then "GET" else "POST"
    }
  }

  /** The derived `Deserialize` of `Method`: a unit variant is read from its name. */
  function ParseMethod(s: string): (r: Option<HttpMethod>)
  {
    if s == "GET" then Some(GET) else if s == "POST" then Some(POST) else None
  }

  /** Reading back a method's name gives the method. */
  lemma MethodRoundTrip(m: HttpMethod)
    ensures ParseMethod(m.Name()) == Some(m)
  {
  }
}
