/**
 * The `build` command (`src/main.rs`): the routing context, the choice of
 * source files, the name of each page's output file, and the per-page
 * pipeline from Markdown source to written HTML.
 *
 * The YAML front-matter splitter, the Markdown renderer, the template engine
 * and the fingerprint function are foreign code; they are the fields of
 * `Collaborators` and nothing is assumed about them.
 */
module Build {
  import opened Wrappers
  import opened RustStr
  import opened Preprocess
  import opened Config
  import opened Output

  newtype u16 = x: int | 0 <= x < 0x1_0000

  // ---------------------------------------------------------------- routing file

  /** The values the routing template is rendered with. */
  datatype RoutingContext = RoutingContext(
    port: u16,
    directory: string,
    initBehaviour: string,
    failBehaviour: string,
    imports: string)

  /**
   * Quotes the configured imports in place, then collects the routing
   * template's context; `directory` is the canonical `<outdir>/static`.
   */
  method RoutingContextOf(rc: RoutingConfig, port: u16, directory: string) returns (ctx: RoutingContext)
    modifies rc
    ensures rc.imports == QuotedAll(old(rc.imports))
    ensures rc.initBehaviour == old(rc.initBehaviour) && rc.failBehaviour == old(rc.failBehaviour)
    ensures ctx == RoutingContext(port, directory, old(rc.initBehaviour), old(rc.failBehaviour),
                                  Join(QuotedAll(old(rc.imports)), ImportSeparator))
  {
    rc.QuoteImports();
    ctx := RoutingContext(port, directory, rc.initBehaviour, rc.failBehaviour, Join(rc.imports, ImportSeparator));
  }

  // ---------------------------------------------------------------- naming

  /** Only file names ending in `.md` are pages. */
  predicate IsMarkdown(name: string)
  {
    |name| >= 3 && name[|name| - 3..] == ".md"
  }

  /** A name is a page exactly when it is some stem followed by `.md`; the test is case-sensitive. */
  lemma MarkdownNames(name: string, stem: string)
    ensures IsMarkdown(stem + ".md")
    ensures IsMarkdown(name) <==> |name| >= 3 && name == name[..|name| - 3] + ".md"
    ensures !IsMarkdown("index.MD") && !IsMarkdown("md") && !IsMarkdown("style.css")
  {
    assert (stem + ".md")[|stem + ".md"| - 3..] == ".md";
    assert "index.MD"[5..] != ".md";
    assert "style.css"[6..] != ".md";
    if |name| >= 3 {
      assert name == name[..|name| - 3] + name[|name| - 3..];
    }
  }

  /** The file name without its last three characters. */
  function Stem(name: string): (r: string)
    requires IsMarkdown(name)
    ensures r + ".md" == name
  {
    name[..|name| - 3]
  }

  /** `<outdir>/static/<stem>.html`. */
  function OutputPath(outdir: string, name: string): (r: string)
    requires IsMarkdown(name)
    ensures |r| == |outdir| + |name| + 10
    ensures r[..|outdir| + 8] == outdir + "/static/"
    ensures r[|r| - 5..] == ".html"
    ensures r[|outdir| + 8..|r| - 5] + ".md" == name
  {
    outdir + "/static/" + Stem(name) + ".html"
  }

  /** Different pages are written to different files. */
  lemma OutputPathInjective(outdir: string, a: string, b: string)
    requires IsMarkdown(a) && IsMarkdown(b)
    requires OutputPath(outdir, a) == OutputPath(outdir, b)
    ensures a == b
  {
  }

  // ---------------------------------------------------------------- pipeline

  /** The text handed to the Markdown renderer: quotes are curled first, then shortcodes replaced. */
  function PreparedBody(body: string, shortcodes: map<string, string>): string
  {
    EmojisOf(CurlyQuotes(body), shortcodes)
  }

  /**
   * A body without straight quotes is only subject to shortcode replacement,
   * and one without colons either reaches the renderer as written.
   */
  lemma PreparedPlainBody(body: string, shortcodes: map<string, string>)
    requires '"' !in body
    ensures PreparedBody(body, shortcodes) == EmojisOf(body, shortcodes)
    ensures ':' !in body ==> PreparedBody(body, shortcodes) == body
  {
    CurlyQuotesNoQuote(body);
    if ':' !in body {
      EmojisNoColon(body, shortcodes);
    }
  }

  /** The foreign code the build calls, as functions. */
  datatype Collaborators = Collaborators(
    frontMatter: string -> Option<(FrontMatter, string)>,  // split a file into front matter and body
    shortcodes: map<string, string>,                       // emoji shortcode table
    markdown: string -> string,                            // Markdown to HTML
    renderInline: (string, PageConfig) -> Option<string>,  // the page's HTML used as a template
    renderPage: (string, PageConfig) -> Option<string>,    // the page template around it
    hash: Bytes -> Digest)                                 // content fingerprint

  /** Why a page could not be built; each one ends the build. */
  datatype BuildError =
    | Unreadable(name: string)
    | BadFrontMatter(name: string)
    | InlineTemplate(name: string)
    | PageTemplate(name: string)

  /** A directory entry of `src`: its name and, when it reads as UTF-8 text, its contents. */
  datatype Entry = Entry(name: string, text: Option<string>)

  /**
   * The front matter and body of a source file, or why they cannot be had:
   * the file is not text, or the splitter or `PageConfig` refuses its front matter.
   */
  function Parsed(e: Entry, c: Collaborators): (r: Result<(PageConfig, string), BuildError>)
    ensures e.text.None? <==> r == Failure(Unreadable(e.name))
    ensures r.Failure? && e.text.Some? ==> r.error == BadFrontMatter(e.name)
    ensures r.Success? <==> e.text.Some? && c.frontMatter(e.text.value).Some? && PageConfigOf(c.frontMatter(e.text.value).value.0).Some?
    ensures r.Success? ==> PageConfigOf(c.frontMatter(e.text.value).value.0) == Some(r.value.0) && c.frontMatter(e.text.value).value.1 == r.value.1
    ensures r.Failure? ==> r.error.name == e.name
  {
    if e.text.None? then Failure(Unreadable(e.name))
    else match c.frontMatter(e.text.value)
      case None => Failure(BadFrontMatter(e.name))
      case Some((fm, body)) =>
        match PageConfigOf(fm)
        case None => Failure(BadFrontMatter(e.name))
        case Some(page) => Success((page, body))
  }

  /**
   * The two template passes over a page's HTML: the page's own HTML is
   * rendered as a template first, and the page template is rendered around
   * the result.
   */
  function Rendered(name: string, html: string, page: PageConfig, c: Collaborators): (r: Result<string, BuildError>)
    ensures r == Failure(InlineTemplate(name)) <==> c.renderInline(html, page).None?
    ensures r == Failure(PageTemplate(name)) <==> c.renderInline(html, page).Some? && c.renderPage(c.renderInline(html, page).value, page).None?
    ensures r.Success? ==> Some(r.value) == c.renderPage(c.renderInline(html, page).value, page)
    ensures r.Failure? ==> r.error.name == name
  {
    match c.renderInline(html, page)
    case None => Failure(InlineTemplate(name))
    case Some(inner) =>
      match c.renderPage(inner, page)
      case None => Failure(PageTemplate(name))
      case Some(doc) => Success(doc)
  }

  /**
   * The finished page for one source file, or the step at which it fails: the
   * error identifies the entry, and only the template steps fail once the
   * front matter has been read.
   */
  function PageOf(e: Entry, c: Collaborators): (r: Result<string, BuildError>)
    ensures e.text.None? ==> r == Failure(Unreadable(e.name))
    ensures Parsed(e, c).Failure? ==> r == Failure(Parsed(e, c).error)
    ensures Parsed(e, c).Success? && r.Failure? ==> r.error == InlineTemplate(e.name) || r.error == PageTemplate(e.name)
    ensures r.Failure? ==> r.error.name == e.name
  {
    match Parsed(e, c)
    case Failure(err) => Failure(err)
    case Success((page, body)) => Rendered(e.name, c.markdown(PreparedBody(body, c.shortcodes)), page, c)
  }

  /** A page whose front matter lacks `title` or `date` is refused. */
  lemma PageNeedsTitleAndDate(e: Entry, c: Collaborators, fm: FrontMatter, body: string)
    requires e.text.Some? && c.frontMatter(e.text.value) == Some((fm, body))
    requires "title" !in fm || "date" !in fm
    ensures PageOf(e, c) == Failure(BadFrontMatter(e.name))
  {
    TitleAndDateRequired(fm);
  }

  /** A source file that is a page and fails to build. */
  predicate PageFails(e: Entry, c: Collaborators)
  {
    IsMarkdown(e.name) && PageOf(e, c).Failure?
  }

  /** Template failures happen after the output file has been created (and emptied). */
  predicate FailsAfterCreate(e: Entry, c: Collaborators)
  {
    Parsed(e, c).Success? && PageOf(e, c).Failure?
  }

  /**
   * What ends up in a freshly emptied file after `write_if_different`: the
   * buffer, unless its fingerprint equals the empty file's.
   */
  function Landed(buf: Bytes, hash: Bytes -> Digest): (r: Bytes)
    ensures r == buf || r == []
    ensures (forall a: Bytes, b: Bytes :: hash(a) == hash(b) ==> a == b) ==> r == buf
  {
    if hash(buf) == hash([]) then [] else buf
  }

  /** Reads a source file and its front matter (the first steps of the loop body of `build`). */
  method ReadPage(e: Entry, c: Collaborators) returns (r: Result<(PageConfig, string), BuildError>)
    ensures r == Parsed(e, c)
    ensures e.text.None? <==> r == Failure(Unreadable(e.name))
    ensures r.Failure? && e.text.Some? ==> r.error == BadFrontMatter(e.name)
    ensures r.Success? <==>
      e.text.Some? && c.frontMatter(e.text.value).Some? && PageConfigOf(c.frontMatter(e.text.value).value.0).Some?
    ensures r.Success? ==>
      PageConfigOf(c.frontMatter(e.text.value).value.0) == Some(r.value.0) && c.frontMatter(e.text.value).value.1 == r.value.1
  {
    if e.text.None? {
      return Failure(Unreadable(e.name));
    }
    var parsed := c.frontMatter(e.text.value);
    if parsed.None? {
      return Failure(BadFrontMatter(e.name));
    }
    var (fm, body) := parsed.value;
    var page := PageConfigOf(fm);
    if page.None? {
      return Failure(BadFrontMatter(e.name));
    }
    return Success((page.value, body));
  }

  /**
   * Creates (and so empties) the output file, renders both templates and
   * writes the page through `write_if_different`.
   */
  method WritePage(fs: FileSystem, out: string, name: string, html: string, page: PageConfig, c: Collaborators)
    returns (r: Result<Bytes, BuildError>)
    modifies fs
    ensures r.Success? <==> Rendered(name, html, page, c).Success?
    ensures r.Failure? ==> r.error == Rendered(name, html, page, c).error
    ensures r.Success? ==> r.value == Landed(AsBytes(Rendered(name, html, page, c).value), c.hash)
    ensures fs.files == old(fs.files)[out := if r.Success? then r.value else []]
  {
    fs.files := fs.files[out := []];
    var f := new Writer();
    var inner := c.renderInline(html, page);
    if inner.None? {
      return Failure(InlineTemplate(name));
    }
    var doc := c.renderPage(inner.value, page);
    if doc.None? {
      return Failure(PageTemplate(name));
    }
    var w := f.WriteIfDifferent(AsBytes(doc.value), out, fs, c.hash);
    assert w.Success?;  // the emptied file reads as the empty text
    assert fs.files[out] + f.written == f.written;
    fs.files := fs.files[out := fs.files[out] + f.written];
    return Success(f.written);
  }

  /** Builds one page: the loop body of `build`. */
  method PublishPage(fs: FileSystem, outdir: string, e: Entry, c: Collaborators) returns (r: Result<Bytes, BuildError>)
    requires IsMarkdown(e.name)
    modifies fs
    ensures r.Success? <==> PageOf(e, c).Success?
    ensures r.Failure? ==> r.error == PageOf(e, c).error
    ensures r.Success? ==> r.value == Landed(AsBytes(PageOf(e, c).value), c.hash)
    ensures r.Success? ==> fs.files == old(fs.files)[OutputPath(outdir, e.name) := r.value]
    ensures FailsAfterCreate(e, c) ==> fs.files == old(fs.files)[OutputPath(outdir, e.name) := []]
    ensures r.Failure? && !FailsAfterCreate(e, c) ==> fs.files == old(fs.files)
  {
    var parsed := ReadPage(e, c);
    if parsed.Failure? {
      return Failure(parsed.error);
    }
    var (page, body) := parsed.value;
    var binding := CurlyQuotes(body);
    binding := Emojis(binding, c.shortcodes);
    var html := c.markdown(binding);
    r := WritePage(fs, OutputPath(outdir, e.name), e.name, html, page, c);
  }

  // ---------------------------------------------------------------- the page loop

  /** The output files of the pages among `es`. */
  function Outputs(outdir: string, es: seq<Entry>): set<string>
  {
    if es == [] then {}
    else
      var last := es[|es| - 1];
      Outputs(outdir, es[..|es| - 1]) + (if IsMarkdown(last.name) then {OutputPath(outdir, last.name)} else {})
  }

  /** The index of the first page at or after `i` that fails, if any. */
  function FirstFailureFrom(es: seq<Entry>, c: Collaborators, i: nat): (r: Option<nat>)
    requires i <= |es|
    ensures r.Some? ==> i <= r.value < |es| && PageFails(es[r.value], c)
    ensures r.Some? ==> forall k :: i <= k < r.value ==> !PageFails(es[k], c)
    ensures r.None? ==> forall k :: i <= k < |es| ==> !PageFails(es[k], c)
    decreases |es| - i
  {
    if i == |es| then None
    else if PageFails(es[i], c) then Some(i)
    else FirstFailureFrom(es, c, i + 1)
  }

  /** The index of the first page that fails, if any. */
  function FirstFailure(es: seq<Entry>, c: Collaborators): Option<nat>
  {
    FirstFailureFrom(es, c, 0)
  }

  /** The file at `p` is as it was: present in both with the same bytes, or absent from both. */
  predicate SameAt(before: map<string, Bytes>, after: map<string, Bytes>, p: string)
  {
    (p in after <==> p in before) && (p in after ==> after[p] == before[p])
  }

  /** Paths outside `touched` are as they were. */
  ghost predicate UnchangedOutside(before: map<string, Bytes>, after: map<string, Bytes>, touched: set<string>)
  {
    forall p :: p !in touched ==> SameAt(before, after, p)
  }

  /** Source names in a directory are distinct. */
  predicate DistinctNames(es: seq<Entry>)
  {
    forall i, j :: 0 <= i < j < |es| ==> es[i].name != es[j].name
  }

  /** The page at index `k` is not written by any entry before `n <= k`. */
  lemma {:induction false} LaterPageNotTouched(outdir: string, es: seq<Entry>, n: nat, k: nat)
    requires DistinctNames(es)
    requires n <= k < |es| && IsMarkdown(es[k].name)
    ensures OutputPath(outdir, es[k].name) !in Outputs(outdir, es[..n])
  {
    if n > 0 {
      assert es[..n][..n - 1] == es[..n - 1];
      LaterPageNotTouched(outdir, es, n - 1, k);
      if IsMarkdown(es[n - 1].name) && OutputPath(outdir, es[n - 1].name) == OutputPath(outdir, es[k].name) {
        OutputPathInjective(outdir, es[n - 1].name, es[k].name);
        assert false;
      }
    }
  }

  /** The pages before page `i` are written to other files than page `i`. */
  lemma EarlierPagesElsewhere(outdir: string, es: seq<Entry>, i: nat)
    requires DistinctNames(es) && i < |es| && IsMarkdown(es[i].name)
    ensures forall k :: 0 <= k < i && IsMarkdown(es[k].name) ==>
      OutputPath(outdir, es[k].name) != OutputPath(outdir, es[i].name)
  {
    forall k | 0 <= k < i && IsMarkdown(es[k].name)
      ensures OutputPath(outdir, es[k].name) != OutputPath(outdir, es[i].name)
    {
      if OutputPath(outdir, es[k].name) == OutputPath(outdir, es[i].name) {
        OutputPathInjective(outdir, es[k].name, es[i].name);
      }
    }
  }

  /** `Outputs` grows by the entry's page, if it is one. */
  lemma OutputsStep(outdir: string, es: seq<Entry>, i: nat)
    requires i < |es|
    ensures Outputs(outdir, es[..i + 1]) ==
      Outputs(outdir, es[..i]) + (if IsMarkdown(es[i].name) then {OutputPath(outdir, es[i].name)} else {})
  {
    assert es[..i + 1][..i] == es[..i];
  }

  /** The pages among the first `n` entries all succeed. */
  predicate SucceedUpTo(es: seq<Entry>, c: Collaborators, n: nat)
    requires n <= |es|
  {
    forall k :: 0 <= k < n && IsMarkdown(es[k].name) ==> PageOf(es[k], c).Success?
  }

  /** The pages among the first `n` entries are in `files`, each holding what its publication left. */
  ghost predicate BuiltUpTo(files: map<string, Bytes>, outdir: string, es: seq<Entry>, c: Collaborators, n: nat)
    requires n <= |es| && SucceedUpTo(es, c, n)
  {
    forall k :: 0 <= k < n && IsMarkdown(es[k].name) ==>
      OutputPath(outdir, es[k].name) in files &&
      files[OutputPath(outdir, es[k].name)] == Landed(AsBytes(PageOf(es[k], c).value), c.hash)
  }

  /** Publishing page `i` keeps the pages before it and records its own. */
  lemma PublishedStep(before: map<string, Bytes>, after: map<string, Bytes>, base: map<string, Bytes>,
                      outdir: string, es: seq<Entry>, c: Collaborators, i: nat)
    requires DistinctNames(es) && i < |es| && IsMarkdown(es[i].name)
    requires SucceedUpTo(es, c, i) && PageOf(es[i], c).Success?
    requires BuiltUpTo(before, outdir, es, c, i)
    requires UnchangedOutside(base, before, Outputs(outdir, es[..i]))
    requires after == before[OutputPath(outdir, es[i].name) := Landed(AsBytes(PageOf(es[i], c).value), c.hash)]
    ensures SucceedUpTo(es, c, i + 1)
    ensures BuiltUpTo(after, outdir, es, c, i + 1)
    ensures UnchangedOutside(base, after, Outputs(outdir, es[..i + 1]))
  {
    OutputsStep(outdir, es, i);
    EarlierPagesElsewhere(outdir, es, i);
  }

  /** An entry that is not a page changes nothing. */
  lemma SkippedStep(files: map<string, Bytes>, base: map<string, Bytes>,
                    outdir: string, es: seq<Entry>, c: Collaborators, i: nat)
    requires i < |es| && !IsMarkdown(es[i].name)
    requires SucceedUpTo(es, c, i)
    requires BuiltUpTo(files, outdir, es, c, i)
    requires UnchangedOutside(base, files, Outputs(outdir, es[..i]))
    ensures SucceedUpTo(es, c, i + 1)
    ensures BuiltUpTo(files, outdir, es, c, i + 1)
    ensures UnchangedOutside(base, files, Outputs(outdir, es[..i + 1]))
  {
    OutputsStep(outdir, es, i);
  }

  /**
   * A failing page is the first failure; it empties its own file when it fails
   * at a template, and leaves the earlier pages and every later page alone.
   */
  lemma FailedStep(before: map<string, Bytes>, after: map<string, Bytes>, base: map<string, Bytes>,
                   outdir: string, es: seq<Entry>, c: Collaborators, i: nat)
    requires DistinctNames(es) && i < |es| && IsMarkdown(es[i].name) && PageOf(es[i], c).Failure?
    requires SucceedUpTo(es, c, i) && BuiltUpTo(before, outdir, es, c, i)
    requires UnchangedOutside(base, before, Outputs(outdir, es[..i]))
    requires FailsAfterCreate(es[i], c) ==> after == before[OutputPath(outdir, es[i].name) := []]
    requires !FailsAfterCreate(es[i], c) ==> after == before
    ensures FirstFailure(es, c) == Some(i)
    ensures BuiltUpTo(after, outdir, es, c, i)
    ensures UnchangedOutside(base, after, Outputs(outdir, es[..i + 1]))
    ensures UnchangedOutside(base, after, Outputs(outdir, es))
    ensures forall k :: i < k < |es| && IsMarkdown(es[k].name) ==> SameAt(base, after, OutputPath(outdir, es[k].name))
  {
    FailureAt(es, c, i);
    EarlierPagesElsewhere(outdir, es, i);
    FailedKeepsBuilt(before, after, outdir, es, c, i);
    FailedOutside(base, before, after, outdir, es, i);
    OutputsPrefix(outdir, es, i + 1);
    LaterPagesKept(base, after, outdir, es, i + 1);
  }

  /** Emptying (or keeping) page `i`'s file leaves the earlier pages' files as they were built. */
  lemma FailedKeepsBuilt(before: map<string, Bytes>, after: map<string, Bytes>,
                         outdir: string, es: seq<Entry>, c: Collaborators, i: nat)
    requires i < |es| && IsMarkdown(es[i].name)
    requires SucceedUpTo(es, c, i) && BuiltUpTo(before, outdir, es, c, i)
    requires forall k :: 0 <= k < i && IsMarkdown(es[k].name) ==>
      OutputPath(outdir, es[k].name) != OutputPath(outdir, es[i].name)
    requires after == before || after == before[OutputPath(outdir, es[i].name) := []]
    ensures BuiltUpTo(after, outdir, es, c, i)
  {
  }

  /** Emptying (or keeping) page `i`'s file changes nothing outside the first `i + 1` entries' outputs. */
  lemma FailedOutside(base: map<string, Bytes>, before: map<string, Bytes>, after: map<string, Bytes>,
                      outdir: string, es: seq<Entry>, i: nat)
    requires i < |es| && IsMarkdown(es[i].name)
    requires UnchangedOutside(base, before, Outputs(outdir, es[..i]))
    requires after == before || after == before[OutputPath(outdir, es[i].name) := []]
    ensures UnchangedOutside(base, after, Outputs(outdir, es[..i + 1]))
  {
    OutputsStep(outdir, es, i);
  }

  /** Pages from index `n` on keep their files when only the first `n` entries' outputs changed. */
  lemma LaterPagesKept(base: map<string, Bytes>, after: map<string, Bytes>, outdir: string, es: seq<Entry>, n: nat)
    requires DistinctNames(es) && n <= |es|
    requires UnchangedOutside(base, after, Outputs(outdir, es[..n]))
    ensures forall k :: n <= k < |es| && IsMarkdown(es[k].name) ==> SameAt(base, after, OutputPath(outdir, es[k].name))
  {
    forall k | n <= k < |es| && IsMarkdown(es[k].name)
      ensures SameAt(base, after, OutputPath(outdir, es[k].name))
    {
      LaterPageNotTouched(outdir, es, n, k);
    }
  }

  /** Nothing written by the first `n` entries lies outside the pages of all entries. */
  lemma OutputsPrefix(outdir: string, es: seq<Entry>, n: nat)
    requires n <= |es|
    ensures Outputs(outdir, es[..n]) <= Outputs(outdir, es)
    decreases |es| - n
  {
    if n < |es| {
      OutputsStep(outdir, es, n);
      OutputsPrefix(outdir, es, n + 1);
    } else {
      assert es[..n] == es;
    }
  }

  /**
   * The loop of `build` over the entries of `src`: entries that are not
   * Markdown are skipped, each page is published in order, and the first
   * failure ends the build.
   */
  method BuildPages(fs: FileSystem, outdir: string, entries: seq<Entry>, c: Collaborators) returns (r: Result<(), BuildError>)
    requires DistinctNames(entries)
    modifies fs
    ensures r.Failure? <==> FirstFailure(entries, c).Some?
    ensures r.Failure? ==> r.error == PageOf(entries[FirstFailure(entries, c).value], c).error
    ensures r.Failure? ==> UnchangedOutside(old(fs.files), fs.files, Outputs(outdir, entries[..FirstFailure(entries, c).value + 1]))
    ensures r.Failure? ==>
      SucceedUpTo(entries, c, FirstFailure(entries, c).value) &&
      BuiltUpTo(fs.files, outdir, entries, c, FirstFailure(entries, c).value)
    ensures r.Failure? && FailsAfterCreate(entries[FirstFailure(entries, c).value], c) ==>
      var out := OutputPath(outdir, entries[FirstFailure(entries, c).value].name);
      out in fs.files && fs.files[out] == []
    ensures r.Failure? && !FailsAfterCreate(entries[FirstFailure(entries, c).value], c) ==>
      UnchangedOutside(old(fs.files), fs.files, Outputs(outdir, entries[..FirstFailure(entries, c).value]))
    ensures r.Failure? ==> forall k :: FirstFailure(entries, c).value < k < |entries| && IsMarkdown(entries[k].name) ==>
      SameAt(old(fs.files), fs.files, OutputPath(outdir, entries[k].name))
    ensures UnchangedOutside(old(fs.files), fs.files, Outputs(outdir, entries))
    ensures r.Success? ==> SucceedUpTo(entries, c, |entries|) && BuiltUpTo(fs.files, outdir, entries, c, |entries|)
  {
    var i := 0;
    assert entries[..0] == [];
    while i < |entries|
      invariant i <= |entries|
      invariant SucceedUpTo(entries, c, i)
      invariant BuiltUpTo(fs.files, outdir, entries, c, i)
      invariant UnchangedOutside(old(fs.files), fs.files, Outputs(outdir, entries[..i]))
    {
      var e := entries[i];
      if !IsMarkdown(e.name) {
        SkippedStep(fs.files, old(fs.files), outdir, entries, c, i);
        i := i + 1;
        continue;
      }
      ghost var before := fs.files;
      var page := PublishPage(fs, outdir, e, c);
      if page.Failure? {
        FailedStep(before, fs.files, old(fs.files), outdir, entries, c, i);
        return Failure(page.error);
      }
      PublishedStep(before, fs.files, old(fs.files), outdir, entries, c, i);
      i := i + 1;
    }
    assert entries[..i] == entries;
    NoFailure(entries, c);
    return Success(());
  }

  /** A page that fails after all earlier pages succeeded is the first failure. */
  lemma FailureAt(es: seq<Entry>, c: Collaborators, i: nat)
    requires i < |es| && IsMarkdown(es[i].name) && PageOf(es[i], c).Failure?
    requires forall k :: 0 <= k < i && IsMarkdown(es[k].name) ==> PageOf(es[k], c).Success?
    ensures FirstFailure(es, c) == Some(i)
  {
  }

  /** When every page succeeds there is no first failure. */
  lemma NoFailure(es: seq<Entry>, c: Collaborators)
    requires forall k :: 0 <= k < |es| && IsMarkdown(es[k].name) ==> PageOf(es[k], c).Success?
    ensures FirstFailure(es, c) == None
  {
  }
}
