# cuteness, modelled in Dafny

cuteness is a static-site generator. It reads Markdown pages with YAML front
matter from `src/` and writes one HTML file per page under `<outdir>/static/`.
It also writes a `routing.go` file for a small Go server. This project models
the part of it that holds decisions:

- **Text preprocessors** (`src/lib.rs`):
  - `curly_quotes` turns every match of the regular expression `"(.*?)"` into `“…”`.
  - `emojis` scans for matches of `:(.*?):` and substitutes shortcodes.
  - `Method::method` names an HTTP method.
- **Build command** (`src/main.rs`):
  - quoting of the routing imports in place;
  - the `.md` filter and the output file name;
  - the order in which the preprocessors run;
  - the front-matter record `PageConfig`;
  - `write_if_different`;
  - the loop that publishes every page.

Modules, in dependency order:

- `Wrappers`: `Option` and `Result`.
- `RustStr`: Rust's `str::replace`, `join` and `split` on `seq<char>`. Matches are non-overlapping and found left to right. An empty pattern matches at every character boundary.
- `LazySpan`: what a regex search reports for `D(.*?)D`, where D is a delimiter other than a newline.
  - The search is leftmost-first and lazy, and `.` matches anything but `\n`.
  - Each match runs from a delimiter to the nearest later delimiter on the same line. Scanning resumes after the match.
  - `MatchesByParity` also characterises the matches without scanning. On each line the delimiters pair up first with second, third with fourth, and so on.
- `Preprocess`: `curly_quotes`, `emojis` and `Method::method`.
- `Config`: `PageConfig`, with the behaviour of its derived serde implementations, and `RoutingConfig`, a class whose import list is rewritten in place.
- `Output`:
  - bytes, with the UTF-8 encoding used by `str::as_bytes`;
  - a `FileSystem` class that maps paths to contents;
  - a `Writer` class whose `written` field is everything that went through the handle.
- `Build`: the routing context, the naming of output files, the per-page pipeline and the page loop.

Foreign code the build calls is passed in as functions. This covers the YAML front-matter splitter, the Markdown renderer, both template renders, the shortcode table of the `emojis` crate and the BLAKE3 fingerprint. Nothing is assumed about these functions except where a lemma states it (for example, an injective fingerprint).

The code and what its documentation leads one to expect differ on five points, and the model follows the code in each:

- The documentation at `src/lib.rs:77` says `title` is the only mandatory front-matter field. `PageConfig` (`src/main.rs:70-76`) also requires `date`, so `PageConfigOf` refuses a page without it.
- The doc comment of `curly_quotes` (`src/lib.rs:362`) says straight quotes are replaced by curly ones. The pattern `"(.*?)"` (`src/lib.rs:353`) cannot cross a newline, so a quote whose partner is on a later line stays straight, and so does a quote left without a partner (`Preprocess.CurlyQuotesAcrossLines`, `Preprocess.CurlyQuotesUnpaired`). No straight quote remains only when every line holds an even number of them (`Preprocess.CurlyQuotesBalancedLines`).
- The doc comment of `emojis` (`src/lib.rs:368`) says every emoji shortcode is replaced. The loop (`src/lib.rs:371-377`) rebuilds the result from the original text at each known shortcode, so only the last known one is replaced (`Preprocess.EmojisKeepsOnlyLast`).
- A failed page is expected to be reported with its file name. Only the page-template panic names the file (`src/main.rs:256-257`). The messages for an unreadable page (`src/main.rs:199`), bad front matter (`src/main.rs:202`) and a failed inline template (`src/main.rs:239`) carry no file name.
- A failed build is expected to leave earlier output files untouched. `File::create` (`src/main.rs:214`) empties a page's output file before its templates render (`src/main.rs:234-259`), so a template failure leaves that page's file empty (`Build.BuildPages`, `Build.FailedStep`).

## Model

| member | source | states |
|---|---|---|
| RustStr.ReplaceAll | src/lib.rs:374 | with an empty pattern the result is as long as the text plus one copy of the replacement for each of its character boundaries, the start and the end included; a non-empty pattern replaced by one of equal length keeps the length |
| RustStr.ReplaceEmptyPattern | src/lib.rs:374 | with an empty pattern the replacement lands before every character and after the last one: `to` + the characters joined with `to` + `to`, or just `to` for the empty text |
| RustStr.Join | src/main.rs:155 | the joined text is as long as all parts together plus one separator between each pair of neighbours |
| RustStr.ReplaceIsSplitJoin | src/lib.rs:374 | for a non-empty pattern, `str::replace` equals splitting at the pattern and joining the pieces with the replacement |
| RustStr.ReplaceWithItself | src/lib.rs:374 | replacing a pattern by itself leaves any text unchanged |
| RustStr.ReplaceAbsent | src/lib.rs:374 | a non-empty pattern that occurs nowhere leaves the text unchanged |
| RustStr.JoinSplitRoundTrip | src/main.rs:155 | for a non-empty pattern, joining the pieces of a split with that pattern gives the text back |
| RustStr.SplitJoinRoundTrip | src/main.rs:155 | for a non-empty list of parts none of which contains the separator's first character, splitting their join at the separator gives the parts back (the empty list joins to `""`, which splits into `[""]`) |
| LazySpan.LineEnd | src/lib.rs:353 | the end of the current line: a newline or the end of text, with no newline before it |
| LazySpan.NextDelim | src/lib.rs:353 | the nearest delimiter at or after a position on the same line, with none before it; `None` exactly when the rest of the line has none |
| LazySpan.Matches | src/lib.rs:353-354 | the successive matches of `D(.*?)D` lie in the text, each long enough for two delimiters |
| LazySpan.MatchesAreMatches | src/lib.rs:353-354 | every reported span starts and ends with the delimiter and has neither a delimiter nor a newline inside |
| LazySpan.MatchesInOrder | src/lib.rs:372 | reported spans come left to right and never overlap |
| LazySpan.MatchIsSpan | src/lib.rs:353-354 | any member of the matches is a lazy single-line delimiter span |
| LazySpan.MatchesByParity | src/lib.rs:353-354 | a span is reported exactly when it opens at an even-numbered delimiter of its line that has a partner later on the line, and closes at that partner |
| LazySpan.TrailAcrossSpan | src/lib.rs:353 | the per-line delimiter count grows by one across a delimiter followed by a run without delimiters or newlines |
| Preprocess.CurlyQuotes | src/lib.rs:364-366 | `curly_quotes` keeps the character count |
| Preprocess.CurlyQuotesAt | src/lib.rs:364-366 | each output character equals the reference reading: quotes pair first with second, third with fourth, on each line; a quote with no partner on its line stays straight |
| Preprocess.CurlyQuotesKeepsOthers | src/lib.rs:365 | the length is preserved, characters other than `"` are untouched, and a `"` becomes `"`, `“` or `”` |
| Preprocess.CurlyQuotesNoQuote | src/lib.rs:365 | input without `"` comes back unchanged |
| Preprocess.CurlyQuotesSpan | src/lib.rs:353-365 | each match of `"(.*?)"` becomes `“` + the same inner text + `”`; its inside has no quote and no newline |
| Preprocess.CurledPair | src/lib.rs:353-365 | an opening quote at an even place pairs with the nearest following quote on its line (lazy matching) |
| Preprocess.CurlyQuotesUnpaired | src/lib.rs:353 | a quote at an even place with no later quote on its line is left straight |
| Preprocess.CurlyExample | src/lib.rs:364-366 | `say "hi" "x` becomes `say “hi” "x` |
| Preprocess.CurlyQuotesBalancedLines | src/lib.rs:353-366 | when every line holds an even number of `"`, no straight quote is left in the output |
| Preprocess.CurlyQuotesAcrossLines | src/lib.rs:353 | two quotes on different lines, `"a` and `b"`, both stay straight, although the text holds an even number of quotes |
| Preprocess.LastKnown | src/lib.rs:372-373 | the index of the last span whose shortcode is in the table, with no known span after it; `None` when no span is known |
| Preprocess.Emojis | src/lib.rs:370-378 | the loop over the matches of `:(.*?):` returns `EmojisOf(content, table)`; each known span resets the result from the original content |
| Preprocess.EmojisLastKnownWins | src/lib.rs:372-377 | the result is the original content with the last known span's text replaced by its glyph at every non-overlapping occurrence, taken left to right (as `str::replace`) |
| Preprocess.EmojisOverlapKept | src/lib.rs:374 | `:x:x:` with `x` known gives `Gx:`: an occurrence overlapping a replaced one is kept |
| Preprocess.EmojisNoKnownShortcode | src/lib.rs:371-377 | if no span holds a known shortcode, the output equals the input |
| Preprocess.EmojisNoColon | src/lib.rs:371-377 | text without `:` comes back unchanged |
| Preprocess.EmojisKeepsOnlyLast | src/lib.rs:373-374 | `:a: :b:` with both names known gives `:a: B`: the earlier replacement is lost |
| Preprocess.HttpMethod.Name | src/lib.rs:499-505 | the name is `"GET"` exactly for `GET` and `"POST"` exactly for `POST` |
| Preprocess.MethodRoundTrip | src/lib.rs:493-505 | reading back a method's name gives the method |
| Config.PageConfigOf | src/main.rs:69-76 | the record is accepted exactly when `title` and `date` are text and every optional field present is null or of its declared type; an accepted record carries the front matter's values, and each optional field is `None` exactly when it is absent or null |
| Config.FrontMatterRoundTrip | src/main.rs:69-76 | serialising a `PageConfig` and reading it back gives the same record |
| Config.TitleAndDateRequired | src/main.rs:69-76 | front matter without `title` or without `date` is refused |
| Config.OptionalFieldsMayBeAbsent | src/main.rs:69-76 | `title` and `date` alone make a page whose optional fields are `None` |
| Config.UnknownFieldIgnored | src/main.rs:69-76 | a field the record does not name has no effect |
| Config.RoutingConfig.QuoteImports | src/main.rs:129-131 | each import becomes `"` + its original text + `"`, with the same count and order; the other fields are unchanged |
| Config.Quote | src/main.rs:130 | the import gains a `"` at each end, and removing the first and last characters gives it back |
| Config.ImportsRoundTrip | src/main.rs:129-155 | for a non-empty list of imports without newlines, the joined quoted imports split back into the quoted imports, and unquoting gives the original list (an empty list joins to `""`) |
| Output.EncodeChar | src/main.rs:245-262 | UTF-8: a well-formed sequence (lead byte announcing the length, then continuation bytes) of the shortest length for the code point, whose payload is the code point |
| Output.DecodeEncodeChar | src/main.rs:245-262 | decoding the encoding of a character gives the character and consumes exactly its bytes |
| Output.EncodeDecodeChar | src/main.rs:394-395 | a sequence accepted as one character is that character's encoding |
| Output.ScalarUnique | src/main.rs:394-395 | two well-formed sequences of one length with the same payload are the same bytes |
| Output.AsBytes | src/main.rs:245-262 | the encoding has at least as many bytes as characters and is empty only for the empty string |
| Output.DecodeChar | src/main.rs:394-395 | an ASCII byte is one character; a continuation byte or a byte above 0xF4 in first place is rejected; an accepted character takes the bytes its lead byte announces and is their payload |
| Output.Decode | src/main.rs:394-395 | a decoded text has no more characters than there are bytes; all-ASCII bytes always decode, one character per byte with the same value |
| Output.DecodeAsBytes | src/main.rs:394-396 | every text's encoding decodes back to the text |
| Output.AsBytesDecode | src/main.rs:394-396 | bytes accepted as UTF-8 are exactly the encoding of the text they decode to |
| Output.Writer.WriteIfDifferent | src/main.rs:388-401 | fails (the `read_to_string` panic) exactly when the path exists and does not hold UTF-8, writing nothing; otherwise `buf` is appended once unless the path exists and the fingerprint of its text's bytes equals that of `buf`; the file map is not modified |
| Output.SkipOnlyIfSame | src/main.rs:391-397 | for a buffer that is a text's bytes and a collision-free fingerprint, the write is skipped exactly when the path exists and already holds those bytes |
| Build.RoutingContextOf | src/main.rs:129-156 | the imports are quoted in place and the context's `imports` is the quoted list joined with `"\n\t"` |
| Build.MarkdownNames | src/main.rs:194 | a name is a page exactly when it is some stem followed by `.md`; the test is case-sensitive, so `index.MD` is skipped |
| Build.Stem | src/main.rs:217 | the stem followed by `.md` is the source file name |
| Build.OutputPath | src/main.rs:214-218 | the path is `<outdir>/static/` + a stem + `.html`, where the stem followed by `.md` is the source name |
| Build.OutputPathInjective | src/main.rs:214-218 | two source names with the same output path are equal |
| Build.PreparedPlainBody | src/main.rs:204-205 | with quotes curled before shortcodes are replaced, a body without `"` is only passed through `emojis`, and a body without `"` and `:` reaches the Markdown renderer unchanged |
| Build.Parsed | src/main.rs:198-202 | `Unreadable` exactly when the file is not text; success exactly when the splitter finds front matter that `PageConfigOf` accepts, carrying that record and the body; every other failure is a front-matter error |
| Build.Rendered | src/main.rs:234-259 | the inline template fails exactly when rendering the page's HTML fails; the page template fails exactly when the inline pass succeeds and the page template then fails; on success the page is the page template applied to the inline pass's output |
| Build.PageOf | src/main.rs:198-262 | an unreadable file fails as unreadable, a front-matter failure is passed on, a page whose front matter was read fails only at a template step, and every error identifies the failing entry |
| Build.PageNeedsTitleAndDate | src/main.rs:201-202 | a page whose front matter lacks `title` or `date` fails with a front-matter error |
| Build.Landed | src/main.rs:214-262 | a freshly emptied file ends up holding `buf` or nothing, and with an injective fingerprint always `buf` |
| Build.ReadPage | src/main.rs:198-202 | the result is `Unreadable` exactly when the file is not text; it succeeds exactly when the splitter finds front matter that `PageConfigOf` accepts, and then carries that record and the body; every other failure is a front-matter error |
| Build.WritePage | src/main.rs:214-262 | the output file is emptied first; it then holds what `write_if_different` wrote on success and stays empty when either template fails |
| Build.PublishPage | src/main.rs:198-262 | one page: success exactly when `PageOf` succeeds (curly quotes, then emojis, then Markdown, then both templates); failures before file creation change nothing |
| Build.FirstFailureFrom | src/main.rs:189-262 | the first page that fails at or after a position, with all earlier pages succeeding; `None` when every page succeeds |
| Build.BuildPages | src/main.rs:189-262 | non-`.md` entries are skipped; the build fails exactly at the first failing page, with that page's error; the pages before it succeeded and their files hold what publication left; the failing page's file is left empty when a template failed and untouched otherwise; later pages' files are untouched; on success every page's file holds what its publication left; nothing outside the pages' files changes |
| Build.LaterPageNotTouched | src/main.rs:189-218 | the output file of a later page is not among the files written by earlier entries (names are distinct) |
| Build.PublishedStep | src/main.rs:189-262 | publishing one more page keeps the earlier pages' files and adds its own |
| Build.FailedStep | src/main.rs:189-262 | when page `i` fails, it is the first failure; a template failure empties its file and nothing else; earlier pages keep their files and later pages are untouched |
| Build.EarlierPagesElsewhere | src/main.rs:214-218 | no earlier page writes the output file of a later page |
| Build.LaterPagesKept | src/main.rs:189-218 | when only the first `n` entries' outputs may have changed, every later page's file is as it was |

## Left out

- Command-line parsing and dispatch, `setup`, `check_for_updates`, `uninstall` and `init`: these are process and filesystem plumbing.
- Template registration and rendering (handlebars), Markdown rendering (pulldown_cmark), YAML front-matter splitting and TOML parsing of the site configuration. They are foreign libraries and appear only as function parameters.
- The routing template itself and the writing of `routing.go`. Only the values handed to the template are modelled.
- BLAKE3 is a function parameter. Only `Output.SkipOnlyIfSame` and `Build.Landed` assume it is injective.
- `compile_styles`, copying of the built-in style assets, `canonicalize` and directory creation are filesystem operations. The canonical `<outdir>/static` directory is a parameter of `Build.RoutingContextOf`.
- Panics of the page loop are modelled as `Failure` results that end the build. These are the failed read of a page, front matter that does not parse, a failed template render, and the failed read inside `write_if_different`. The panic messages themselves are not modelled.
- Build.PageOf: the file name inside `Unreadable`, `BadFrontMatter` and `InlineTemplate` only identifies the entry within the model; the program's messages for these failures (`src/main.rs:199`, `src/main.rs:202`, `src/main.rs:239`) carry no file name. Likewise the path inside `Output.NotText` is not in the program's message (`src/main.rs:395`).
- Output.Writer.WriteIfDifferent: an error from `write_all` (`src/main.rs:399`) is not modelled; the write always succeeds. Neither is a path that exists but is a directory: only files that hold non-UTF-8 bytes make the read fail.
- Build.WritePage: a failure of `File::create` (`src/main.rs:214-228`) is not modelled; creating the output file always succeeds.
- Failures of `read_dir` and of its entries (`src/main.rs:186-192`) are not modelled.
- Non-UTF-8 file names (`to_string_lossy`) are not modelled. An entry whose contents are not UTF-8 is `Unreadable`.
- The order of `read_dir` entries is whatever sequence `Build.BuildPages` is given.
- Build.BuildPages: claims nothing about running the build twice. `File::create` empties each page's file before `write_if_different` compares, so the comparison is always against an empty file.
- Preprocess.EmojisLastKnownWins: only the last known span's text is stated to be replaced, at its non-overlapping occurrences. A span with an unknown name is not claimed to survive verbatim. It survives unless its text overlaps an occurrence of the last known span's text.
- Config.PageConfigOf: YAML values are abstracted to text, list of text, null and anything else. Which YAML scalars serde_yaml accepts as text is not modelled.
