/**
 * The configuration records of the build (`src/main.rs`): the routing section
 * of the site configuration, whose import list the build quotes in place, and
 * the front matter of a page.
 */
module Config {
  import opened Wrappers
  import opened RustStr

  // ---------------------------------------------------------------- front matter

  /** A front-matter value as the YAML parser hands it over. */
  datatype Yaml =
    | Str(text: string)          // a scalar read as text
    | StrList(items: seq<string>) // a sequence of such scalars
    | Null                       // an empty value or `null`
    | Other                      // any other shape (a mapping, a nested sequence, ...)

  /** A parsed front-matter block: field name to value. */
  type FrontMatter = map<string, Yaml>

  /** `PageConfig`: `title` and `date` are required, the other fields optional. */
  datatype PageConfig = PageConfig(
    title: string,
    subtitle: Option<string>,
    tags: Option<seq<string>>,
    date: string,
    additionalCss: Option<seq<string>>)

  /** A required `String` field: present and text. */
  function RequiredText(fm: FrontMatter, key: string): Option<string>
  {
    if key in fm && fm[key].Str? then Some(fm[key].text) else None
  }

  /** An `Option<String>` field: absent or null reads as `None`; any other non-text value fails. */
  function OptionalText(fm: FrontMatter, key: string): Option<Option<string>>
  {
    if key !in fm || fm[key].Null? then Some(None)
    else if fm[key].Str? then Some(Some(fm[key].text))
    else None
  }

  /** An `Option<Vec<String>>` field: absent or null reads as `None`; any other non-list value fails. */
  function OptionalList(fm: FrontMatter, key: string): Option<Option<seq<string>>>
  {
    if key !in fm || fm[key].Null? then Some(None)
    else if fm[key].StrList? then Some(Some(fm[key].items))
    else None
  }

  /**
   * The derived `Deserialize` of `PageConfig` applied to a front-matter block:
   * fields the record does not name are ignored, a failure of any kind is `None`.
   */
  function PageConfigOf(fm: FrontMatter): (r: Option<PageConfig>)
    ensures r.Some? ==> "title" in fm && fm["title"] == Str(r.value.title)
    ensures r.Some? ==> "date" in fm && fm["date"] == Str(r.value.date)
    ensures r.Some? ==> (r.value.subtitle.None? <==> "subtitle" !in fm || fm["subtitle"] == Null)
    ensures r.Some? ==> (r.value.tags.None? <==> "tags" !in fm || fm["tags"] == Null)
    ensures r.Some? ==> (r.value.additionalCss.None? <==> "additional_css" !in fm || fm["additional_css"] == Null)
    ensures r.Some? && r.value.subtitle.Some? ==> "subtitle" in fm && fm["subtitle"] == Str(r.value.subtitle.value)
    ensures r.Some? && r.value.tags.Some? ==> "tags" in fm && fm["tags"] == StrList(r.value.tags.value)
    ensures r.Some? && r.value.additionalCss.Some? ==>
      "additional_css" in fm && fm["additional_css"] == StrList(r.value.additionalCss.value)
    ensures r.Some? <==>
      && "title" in fm && fm["title"].Str?
      && "date" in fm && fm["date"].Str?
      && ("subtitle" !in fm || fm["subtitle"].Null? || fm["subtitle"].Str?)
      && ("tags" !in fm || fm["tags"].Null? || fm["tags"].StrList?)
      && ("additional_css" !in fm || fm["additional_css"].Null? || fm["additional_css"].StrList?)
  {
    match (RequiredText(fm, "title"), OptionalText(fm, "subtitle"), OptionalList(fm, "tags"),
           RequiredText(fm, "date"), OptionalList(fm, "additional_css"))
    case (Some(title), Some(subtitle), Some(tags), Some(date), Some(css)) =>
      Some(PageConfig(title, subtitle, tags, date, css))
    case _ => None
  }

  /** The derived `Serialize` of `PageConfig`: every field is written, `None` as null. */
  function ToFrontMatter(p: PageConfig): FrontMatter
  {
    map[
      "title" := Str(p.title),
      "subtitle" := if p.subtitle.Some? then Str(p.subtitle.value) else Null,
      "tags" := if p.tags.Some? then StrList(p.tags.value) else Null,
      "date" := Str(p.date),
      "additional_css" := if p.additionalCss.Some? then StrList(p.additionalCss.value) else Null]
  }

  /** Writing a page's front matter and reading it back gives the same record. */
  lemma FrontMatterRoundTrip(p: PageConfig)
    ensures PageConfigOf(ToFrontMatter(p)) == Some(p)
  {
  }

  /** A block without `title` or without `date` is refused. */
  lemma TitleAndDateRequired(fm: FrontMatter)
    requires "title" !in fm || "date" !in fm
    ensures PageConfigOf(fm) == None
  {
  }

  /** `title` and `date` alone make a page; the optional fields read as `None`. */
  lemma OptionalFieldsMayBeAbsent(fm: FrontMatter, title: string, date: string)
    requires "title" in fm && fm["title"] == Str(title) && "date" in fm && fm["date"] == Str(date)
    requires "subtitle" !in fm && "tags" !in fm && "additional_css" !in fm
    ensures PageConfigOf(fm) == Some(PageConfig(title, None, None, date, None))
  {
  }

  /** A field the record does not name changes nothing. */
  lemma UnknownFieldIgnored(fm: FrontMatter, key: string, v: Yaml)
    requires key !in {"title", "subtitle", "tags", "date", "additional_css"}
    ensures PageConfigOf(fm[key := v]) == PageConfigOf(fm)
  {
    assert RequiredText(fm[key := v], "title") == RequiredText(fm, "title");
    assert RequiredText(fm[key := v], "date") == RequiredText(fm, "date");
    assert OptionalText(fm[key := v], "subtitle") == OptionalText(fm, "subtitle");
    assert OptionalList(fm[key := v], "tags") == OptionalList(fm, "tags");
    assert OptionalList(fm[key := v], "additional_css") == OptionalList(fm, "additional_css");
  }

  // ---------------------------------------------------------------- routing

  /** `format!("\"{}\"", import)`. */
  function Quote(s: string): (r: string)
    ensures |r| == |s| + 2 && r[0] == '"' && r[|r| - 1] == '"'
    ensures Unquote(r) == s
  {
    "\"" + s + "\""
  }

  /** The text between the first and the last character. */
  function Unquote(s: string): string
    requires |s| >= 2
  {
    s[1..|s| - 1]
  }

  /** Every import quoted, in the same order. */
  function QuotedAll(xs: seq<string>): (r: seq<string>)
  {
    seq(|xs|, i requires 0 <= i < |xs| => Quote(xs[i]))
  }

  /** The separator between imports in the generated routing file. */
  const ImportSeparator: string := "\n\t"

  /** `RoutingConfig`, whose `imports` the build rewrites in place. */
  class RoutingConfig {
    var initBehaviour: string
    var failBehaviour: string
    var imports: seq<string>

    constructor (initBehaviour: string, failBehaviour: string, imports: seq<string>)
      ensures this.initBehaviour == initBehaviour && this.failBehaviour == failBehaviour
      ensures this.imports == imports
    {
      this.initBehaviour := initBehaviour;
      this.failBehaviour := failBehaviour;
      this.imports := imports;
    }

    /** The index loop of `build` that wraps every import in double quotes. */
    method QuoteImports()
      modifies this
      ensures imports == QuotedAll(old(imports))
      ensures initBehaviour == old(initBehaviour) && failBehaviour == old(failBehaviour)
    {
      for i := 0 to |imports|
        invariant |imports| == |old(imports)|
        invariant forall k :: 0 <= k < i ==> imports[k] == Quote(old(imports)[k])
        invariant forall k :: i <= k < |imports| ==> imports[k] == old(imports)[k]
        invariant initBehaviour == old(initBehaviour) && failBehaviour == old(failBehaviour)
      {
        imports := imports[i := Quote(imports[i])];
      }
    }
  }

  /**
   * The `imports` value built from quoted imports splits back, at the separator,
   * into the quoted imports, and unquoting each gives the configured list back;
   * this needs the imports to be free of newlines.
   */
  lemma ImportsRoundTrip(xs: seq<string>)
    requires |xs| > 0
    requires forall i, k :: 0 <= i < |xs| && 0 <= k < |xs[i]| ==> xs[i][k] != '\n'
    ensures Split(Join(QuotedAll(xs), ImportSeparator), ImportSeparator) == QuotedAll(xs)
    ensures forall i :: 0 <= i < |xs| ==> |QuotedAll(xs)[i]| >= 2 && Unquote(QuotedAll(xs)[i]) == xs[i]
  {
    var q := QuotedAll(xs);
    forall i, k | 0 <= i < |q| && 0 <= k < |q[i]| ensures q[i][k] != ImportSeparator[0] {
      assert q[i] == "\"" + xs[i] + "\"";
      if 0 < k < |q[i]| - 1 {
        assert q[i][k] == xs[i][k - 1];
      }
    }
    SplitJoinRoundTrip(q, ImportSeparator);
  }
}
