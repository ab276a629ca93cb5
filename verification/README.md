# article-to-epub: scraping and EPUB assembly in Dafny

article-to-epub turns a web article into an EPUB book. This project models the two
parts of it that make decisions:

- **`scrapeArticle`** (`src/scraper.ts`). It launches a visible Chromium and opens a
  page. It navigates under `domcontentloaded` and, if that throws, once more under
  `load`, both with a 60-second timeout. It then waits, tries seven candidate selectors
  in order, falls back to `body`, and returns the `{ html, text }` of one element, or
  the initial empty pair when no candidate is present and the body is absent. Any
  throw is rewrapped as `Scraping failed: …`, and a `finally` block closes the page and
  the browser that were actually obtained.
- **`generateEpub`** (`src/epub-generator.ts`). It sanitises the title into a file name
  under `epub/` and converts the markdown to HTML with nine regular-expression rewrites.
  It hands one chapter to the packaging library and writes the buffer. Any throw is
  rewrapped as `Failed to generate EPUB: …`.

The browser, the packaging library and the file system are not run. What they do is an
input: a `Session` says which step throws and what each selector query finds, and an
`Environment` says what packaging and writing do. What the scraper does to the browser
comes back as a call log (`seq<Call>`). The properties are stated over that log:

- which navigations are made;
- which selectors are queried, in which order;
- that the releases come last, once each, page first.

Modules, in dependency order:

| module | file | what it holds |
|---|---|---|
| `Wrappers` | `wrappers.dfy` | `Option`, `Result` |
| `Seqs` | `seqs.dfy` | generic sequence facts and `Filter` |
| `JsText` | `js_text.dfy` | ECMAScript line terminators, UTF-16 `length`, caught values and the message wrapping both files use |
| `MarkdownPasses` | `markdown_passes.dfy` | each regular-expression rewrite as a global `replace` |
| `Paragraphs` | `paragraphs.dfy` | `split('\n\n')`, `<br>`, `<p>` wrapping and `join('\n')` |
| `MarkdownHtml` | `markdown_html.dfy` | `markdownToHtml` and what its rewrite order guarantees |
| `Filenames` | `filenames.dfy` | the title sanitiser and the file name |
| `EpubGenerator` | `epub_generator.dfy` | `generateEpub` |
| `ContentLocator` | `content_locator.dfy` | the selector loop and the body fallback |
| `Scraper` | `scraper.dfy` | `scrapeArticle` with its retry, `catch` and `finally` |

Semantics the model commits to:

- **Regular expressions.** Each rewrite is a global JavaScript `replace`. The leftmost
  match is replaced and scanning resumes after it, so matches never overlap.
- **Line terminators.** `.` stops at any of the four ECMAScript line terminators (LF, CR,
  U+2028, U+2029). Under the `m` flag, `^` matches after any of them.
- **Negated classes.** `[^\]]` and `[^)]` match line terminators too.
- **Lengths.** `text.length` and the sanitiser count UTF-16 code units. A character
  outside the Basic Multilingual Plane counts twice and becomes `__` in the file name.

Behaviour of the scraper's extraction that the model keeps as the code has it:

- Locating content can fail. The selector queries and the `innerHTML`/`innerText` reads
  sit inside the `try`, so a throw there ends the scan and becomes `Scraping failed: …`
  (`Probe.Fault`).
- The scan stops only above 200 code units (`text.length > 200`), but the body is read
  only below 200 or on empty markup. A last candidate of exactly 200 is therefore kept
  without stopping the scan (`ContentLocator.BoundaryCandidateKept`).
- Every present candidate overwrites `html` and `text`, even a short one. A short
  candidate after a 200-unit one therefore sends the scraper to the body
  (`ContentLocator.ShortLaterCandidateOverwrites`).
- If the body is absent, the last values read are returned.

## Model

| member | source | states |
|---|---|---|
| `MarkdownHtml.MarkdownToHtml` | src/epub-generator.ts:68-91 | The output always starts with `<p>` and ends with `</p>`. It holds one newline per `\n\n` that `split` consumed, so there is one paragraph more than newlines. Every newline sits between a `</p>` and a `<p>`. |
| `MarkdownHtml.EmptyMarkdown` | src/epub-generator.ts:88 | The empty document becomes `<p></p>`. |
| `MarkdownHtml.HeadingsByLine` | src/epub-generator.ts:72-74 | Under the `m` flag the three heading rewrites act on each line on its own, as the per-line reference `HeadingLines` says. |
| `MarkdownHtml.HeadingLevels` | src/epub-generator.ts:72-74 | A line starting with `# `, `## ` or `### ` becomes an `h1`, `h2` or `h3` holding the rest of the line. The h3 output starts with `<`, so the h2 and h1 rewrites never take a `### ` line for their own. |
| `MarkdownHtml.H3LineInDocument` | src/epub-generator.ts:72-74 | A `### ` line inside a document becomes `<h3>…</h3>`, and the text after it is rewritten independently. |
| `MarkdownHtml.DeepHeadingUntouched` | src/epub-generator.ts:72-74 | A line starting with `####` matches none of the heading rewrites. |
| `MarkdownHtml.DeepHeadingInDocument` | src/epub-generator.ts:72-74 | A `####` line inside a document is copied unchanged. |
| `MarkdownHtml.EmphasisAfterLines` | src/epub-generator.ts:77-82 | The four emphasis rewrites treat whole lines on their own. The lines up to a line start are rewritten apart from what follows, because the lazy `(.*?)` never crosses a line terminator. |
| `MarkdownHtml.BoldBeforeItalic` | src/epub-generator.ts:77-82 | For `x` free of `*`, `_` and line terminators, `**x**` at the start of any line becomes `<strong>x</strong>`, not nested `<em>`, because bold runs before italic and leaves no `*`. The lines before it are rewritten on their own. |
| `MarkdownHtml.LoneStarLiteral` | src/epub-generator.ts:77-82 | A `*` that starts any line and is the only `*` on it stays a literal `*`. |
| `MarkdownHtml.LeftoverDoubleStar` | src/epub-generator.ts:77-82 | A `**` that starts any line and has no partner on it is not bold. The italic rewrite then reads it as an empty `<em></em>`, because `(.*?)` may match nothing. |
| `MarkdownHtml.PlainTextWrapped` | src/epub-generator.ts:68-91 | A line with no markdown syntax is only wrapped in `<p>…</p>`. |
| `MarkdownHtml.BoldRendered` | src/epub-generator.ts:68-91 | For `x` free of `*`, `_`, `[` and line terminators, a document `**x**` renders as `<p><strong>x</strong></p>`. |
| `MarkdownHtml.LeftoverDoubleStarRendered` | src/epub-generator.ts:68-91 | For `a` and `b` free of `*`, `_`, `[` and line terminators, and `a` not starting with `#`, `a**b` renders as `<p>a<em></em>b</p>`. |
| `MarkdownHtml.LinkRendered` | src/epub-generator.ts:85 | `[caption](target)` renders as `<p><a href="target">caption</a></p>`, with the target copied verbatim, when caption and target hold no `*`, `_` or line terminator. The caption may itself hold `[`, so `[[a](b)` gives `<a href="b">[a</a>`. |
| `MarkdownPasses.HeadingPassLine` | src/epub-generator.ts:72 | At a line start, one heading rewrite does to the line what the single-line reference `MarkLine` does, then continues at the next line. |
| `MarkdownPasses.LazyCloseLeast` | src/epub-generator.ts:77 | The lazy `(.*?)` closes at the least position of the delimiter, and nothing up to it is a line terminator. |
| `MarkdownPasses.LazyCloseAbsent` | src/epub-generator.ts:77 | When no close is found, the delimiter occurs nowhere on the rest of the line. |
| `MarkdownPasses.SpanPassMatch` | src/epub-generator.ts:77-82 | `d x d` with `x` free of the delimiter character and of line terminators becomes `open x close`, and the scan resumes after it. |
| `MarkdownPasses.SpanPassUnclosed` | src/epub-generator.ts:77-82 | An opening delimiter with no other delimiter character on its line is copied as is. |
| `MarkdownPasses.SpanPassLine` | src/epub-generator.ts:77-82 | One emphasis rewrite on a line followed by more lines is the rewrite of the line followed by the rewrite of the rest. |
| `MarkdownPasses.MatchLink` | src/epub-generator.ts:85 | A link found at the scan position is well formed (non-empty caption without `]`, non-empty target without `)`) and its source text is a prefix of the input. |
| `MarkdownPasses.MatchLinkFinds` | src/epub-generator.ts:85 | Conversely, a well-formed link at the scan position is always found, with exactly its caption and target. |
| `MarkdownPasses.LinkPassMatch` | src/epub-generator.ts:85 | A well-formed link becomes `<a href="$2">$1</a>` and the scan resumes after it. |
| `Paragraphs.SplitJoin` | src/epub-generator.ts:88 | Joining the pieces of `split('\n\n')` with `\n\n` gives back the text. |
| `Paragraphs.SplitUnique` | src/epub-generator.ts:88 | Any pieces that join to the text and have the shape `split` promises are exactly `Split` of it. |
| `Paragraphs.SplitCount` | src/epub-generator.ts:88 | `split` yields one piece more than the number of non-overlapping `\n\n` it consumes. |
| `Paragraphs.BreakLines` | src/epub-generator.ts:88 | `replace(/\n/g, '<br>')` leaves no newline and grows the text by three characters per newline. |
| `Paragraphs.BreakLinesNewline` | src/epub-generator.ts:88 | Each `\n` becomes `<br>` and the text on either side is handled on its own. |
| `Paragraphs.RenderSeparators` | src/epub-generator.ts:88 | Paragraphs joined with `\n` hold exactly one newline per boundary, each between `</p>` and `<p>`. |
| `Paragraphs.ParagraphPass` | src/epub-generator.ts:88 | The paragraph step yields `<p>…</p>` elements, one newline per consumed `\n\n`, each separating two paragraphs. |
| `Paragraphs.ParagraphPassPlain` | src/epub-generator.ts:88 | A text without `\n` becomes one paragraph holding it unchanged. |
| `Filenames.ReplaceNonAlnum` | src/epub-generator.ts:25 | `replace(/[^a-z0-9]/gi, '_')` yields one character per UTF-16 code unit, each an ASCII letter, digit or `_`. |
| `Filenames.SanitizedTitle` | src/epub-generator.ts:24-26 | The sanitised title has the title's UTF-16 length and holds only lower-case ASCII letters, digits and `_`. |
| `Filenames.SanitizedAppend` | src/epub-generator.ts:24-26 | Sanitising works character by character: the sanitised halves of a title make the sanitised title. |
| `Filenames.SanitizedBmp` | src/epub-generator.ts:24-26 | For a title in the Basic Multilingual Plane, position `i` holds the lower-cased letter or digit at `i` of the title, and `_` for anything else. |
| `Filenames.SanitizedIdempotent` | src/epub-generator.ts:24-26 | Sanitising a sanitised title changes nothing. |
| `Filenames.EpubFileName` | src/epub-generator.ts:27 | The file name is the sanitised title followed by `.epub`, five characters longer. |
| `Filenames.TestPostFileName` | src/epub-generator.ts:24-27 | The title "Test Post" is saved as `test_post.epub`. |
| `EpubGenerator.FileStaysInDirectory` | src/epub-generator.ts:24-28 | The file name holds no `/` or `\` and no `.` before its extension. For a non-empty title it is more than the extension. |
| `EpubGenerator.BookOf` | src/epub-generator.ts:35-47 | The book keeps the title and author and has the fixed publisher. It has a single chapter under the book's title whose HTML is a `<p>`-document. |
| `EpubGenerator.GenerateEpub` | src/epub-generator.ts:19-61 | Every failure message starts with `Failed to generate EPUB: `. A success returns the path the buffer was written to. |
| `EpubGenerator.GenerateSucceeds` | src/epub-generator.ts:35-56 | The generator succeeds exactly when packaging and writing both succeed. It then returns the sanitised path under `epub`, having written the packaged buffer there. |
| `EpubGenerator.GenerateFails` | src/epub-generator.ts:58-61 | A packaging throw stops the generator before any write. A write throw comes after packaging. Either way the message is the prefix plus the cause's message, or `Unknown error` for a non-`Error` value. |
| `ContentLocator.Scan` | src/scraper.ts:73-85 | The selectors queried are a prefix of the candidates, and not empty when candidates exist. |
| `ContentLocator.ScanProbes` | src/scraper.ts:73-85 | The scan queries the candidates in order, up to and including the first one that throws or holds more than 200 characters, and no further. |
| `ContentLocator.ScanOutcome` | src/scraper.ts:73-85 | The scan ends with the first stopping candidate's throw or element. When none stops it, it ends with the last present element, or the empty pair when none is present. |
| `ContentLocator.LocateSameElement` | src/scraper.ts:69-95 | The returned `html` and `text` come from one element: a queried candidate, the body, or the initial empty pair. |
| `ContentLocator.LocateFallback` | src/scraper.ts:87-95 | `body` is queried exactly when the scan ended without a throw on empty markup or text shorter than 200. A present body replaces the values. An absent body leaves them. |
| `ContentLocator.FirstSubstantialWins` | src/scraper.ts:59-95 | The first candidate with more than 200 characters and markup, reached without a throw, is returned. No later candidate, and not the body, is queried. |
| `ContentLocator.BoundaryCandidateKept` | src/scraper.ts:73-95 | A candidate of exactly 200 code units with markup, after no stopping candidate and before no present one, does not stop the scan. It is still returned: every candidate is queried and the body is not. |
| `ContentLocator.ShortLaterCandidateOverwrites` | src/scraper.ts:73-95 | When no candidate stops the scan and none after the shorter one is present, a shorter candidate after a 200-character one overwrites it, whatever else is present before it: every candidate and then the body is queried. If the body is absent, the shorter one is returned. |
| `ContentLocator.ScanCandidates` | src/scraper.ts:73-85 | The loop with its early exit computes exactly the recursive scan. |
| `ContentLocator.FindContent` | src/scraper.ts:69-95 | The selector loop followed by the imperative fallback on the `html` and `text` variables computes exactly the functional `Locate`. |
| `Scraper.Navigations` | src/scraper.ts:36-48 | There is a `goto` exactly when the page was opened, and at most two, both on the url with a 60000 ms timeout. The first uses `domcontentloaded` and the second uses `load`. There are two exactly when the first threw. |
| `Scraper.Cleanup` | src/scraper.ts:107-111 | The page is closed once if it was set, and the browser once if it was set. The page is closed first. |
| `Scraper.TryBlock` | src/scraper.ts:24-27 | The first call is always a launch with `headless: false` and `slowMo: 100`. |
| `Scraper.RunWith` | src/scraper.ts:16-113 | A run starts by launching the browser, and every failure message starts with `Scraping failed: `. |
| `Scraper.RunResult` | src/scraper.ts:20-106 | A run succeeds exactly when no stage throws, returning the extracted content. Otherwise the message is the wrapped cause of the throw that ended the `try` block; after two failed navigations that is the second one's. |
| `Scraper.RunReleases` | src/scraper.ts:107-111 | The releases in the log are exactly the cleanup: page once if opened, browser once if launched, page first. They are the last calls of every run. |
| `Scraper.RunNavigations` | src/scraper.ts:36-48 | The `goto` calls in the log are exactly `Navigations`, on every path. |
| `Scraper.RunQueries` | src/scraper.ts:51-95 | The queries in the log are the extraction's selectors in order, and none at all unless the page loaded and settled. |
| `Scraper.ScrapeArticle` | src/scraper.ts:16-113 | `scrapeArticle` on a browser session starts with the launch, and its failures carry the prefix. |
| `Scraper.ScrapeArticleRun` | src/scraper.ts:16-113 | For the extraction the page actually yields, the result, the releases, the navigations and the queries are as stated above. |

## Left out

- `src/converter.ts`, `src/index.ts`, `src/cli.ts`, `src/logger.ts` and `test-run.ts` are
  not part of this model: they are the language-model rewrite, the orchestration, the
  prompts and the console output.
- Spinner and log messages in both core files are not modelled; they have no effect on
  results.
- The `waitForTimeout(2000)` and `waitForTimeout(1000)` delays appear only as `WaitFor`
  calls in the log, with their possible throw. Time is not modelled.
- `epub-gen-memory`, `writeFile` and Playwright are inputs, not models: each is what it
  returns or throws.
- EpubGenerator.PathOf: keeps `join(process.cwd(), 'epub', filename)` as its three
  segments and does not model `path.join` normalisation or the platform separator.
- Scraper.RunWith: does not model `page.close()` or `browser.close()` throwing inside
  `finally`. Such a throw would replace the result and skip the browser release.
- Scraper.ScrapeArticle: the `innerHTML()` and `innerText()` reads are folded into the
  query's `Probe`, so the log records one `Query` per selector and not the two reads.
  A throw in either read is a `Probe.Fault` of that selector.
- Filenames.LowerCase: implements only the ASCII case mapping. `toLowerCase` only ever
  receives ASCII letters, digits and `_` here, where the full Unicode mapping coincides.
- MarkdownHtml.LoneStarLiteral: also requires the line to hold no `_`, and the `*` to
  start its line. The `__` and `_` rewrites could otherwise change the rest of the line,
  though not the `*` itself.
- MarkdownHtml.LeftoverDoubleStar: also requires the line to hold no `_`, and the `**` to
  start its line, for the same reason.
- MarkdownHtml.BoldBeforeItalic: requires `x` to hold no `*`, `_` or line terminator; for
  example `**_a_**` gives `<strong><em>a</em></strong>`. It states the case where `**x**` starts a line. A span in
  the middle of a line is covered only when the text before it holds no `*` or `_`
  (`EmphasisSkip`).
- MarkdownHtml.LinkRendered: requires neither the caption nor the target to hold a line
  terminator. The link pattern matches those too, but the paragraph step turns a `\n` into
  `<br>` or a paragraph break inside the anchor, and after any of the four terminators a
  `#` would start a heading line that the heading rewrites change.
- MarkdownHtml.LinkRendered: also requires caption and target to hold no `*` or `_`. The
  emphasis rewrites run before the link rewrite, so `[a](x_y_z)` becomes
  `<a href="x<em>y</em>z">a</a>`: an underscore pair in a URL is turned into markup.
- MarkdownHtml.PlainTextWrapped: "no newline" is read as no line terminator of any kind.
  Under the `m` flag a `#` after a CR, U+2028 or U+2029 starts a heading line, so the
  narrower reading would be false.
- MarkdownHtml.BoldRendered: stated for a one-line document. In longer documents
  `BoldBeforeItalic` covers the emphasis step at any line start. No lemma carries such
  a line through the link and paragraph steps.
