# letmesee previewer — a verified model of its core

The previewer shows a live HTML preview of text typed in one of three formats: markdown,
a LaTeX subset, or raw HTML. This project models the parts of it that decide what the preview
shows, and proves properties of that model:

- **the LaTeX-subset converter** (`latex.dfy`, `inline.dfy`, `commands.dfy`): preamble and
  comment stripping (`extractLatexContent`), the extraction of `\begin{NAME}...\end{NAME}`
  environments and `$$...$$` display math, the environment renderer (`equation`, the align
  family, `itemize`/`enumerate`, a visible fallback for any other name), the inline command
  rewrites (`processTextWithMath`) and the cursor scan (`processLatexContent`) that stitches them
  together;
- **the Mermaid readiness classifier** (`mermaid.dfy`): `isMermaidIncomplete`, the length gate
  in `renderMermaid`, the ids handed to the renderer and the outcome of each block;
- **the preview dispatch** (`previewer.dfy`): the `ContentPreviewer` class with its
  `currentFormat`, `updatePreview` and `setFormat`, with the markdown converter as a parameter
  and the typesetting passes recorded by name;
- **the edge worker** (`worker.dfy`): the answer to a request from its method and pathname —
  preflight, the static file table, the extension and MIME type, the cache policy and the CORS
  headers.

`strings.dfy` gives the JavaScript string built-ins the source uses (`trim` with JavaScript's
white-space set, `indexOf`, `lastIndexOf`, `includes`, `split` on a literal, character counts,
decimal rendering) a definition and proves their properties once.

Regular expressions of the shape `/\\cmd\{([^}]+)\}/` are modelled exactly: the argument
runs to the first `}` and may not be empty, so braces do not nest and `\text{}` is left as it
is. A global `replace` is a left-to-right scan that rewrites each match and copies every other
character. The comment regex `/%.*$/gm` removes each `%` with the rest of its line, up to any of
JavaScript's four line terminators.

Strings are sequences of Unicode characters, and positions are counted in characters. Every
pattern the scans look for is ASCII, so the positions found agree with JavaScript's UTF-16
positions, with one exception. When `extractEnvironment` finds its begin tag later than the
start index, the code adds that tag's UTF-16 length to the start index, and the model adds its
length in characters (see "Left out"). The other place where the value of a length matters,
the Mermaid gate `code.length < 10`, counts UTF-16 code units (`Strings.Utf16Length`).

Two behaviours of the code are kept as written and proved:

- The begin-tag regex of `extractEnvironment` (public/app.js:383) is not anchored. It finds the
  leftmost well-formed tag at or after the start index. The body offset is then the tag's length
  counted from the start index. On `\begin{}x\begin{a}y\end{a}` this returns environment `a` with
  body `\begin{a}y` (`Latex.EmptyBeginTakesLaterTag`).
- An environment closes at the first literal `\end{NAME}` after the opening tag. Nesting is not
  resolved.

The scan itself is not kept as written. The code stalls on an unterminated `\begin{` or `$$`
(see Findings). The model's scan always takes at least one character into the text run, so
it terminates; everywhere the code does make progress, the two agree (`Latex.ScanStepAgrees`).

The comment stripping of the code also removes an escaped `\%` with the rest of its line. The
model does the same.

## Model

| member | source | states |
|---|---|---|
| `Strings.TrimSpec` | public/app.js:329 | `trim` cuts the text into white space, a trimmed infix and white space; the result is empty exactly when the text is all white space |
| `Strings.TrimIdempotent` | public/app.js:329 | trimming twice is trimming once |
| `Strings.SplitJoin` | public/app.js:441 | joining the pieces of `split` with the separator rebuilds the text |
| `Strings.SplitPiecesFree` | public/app.js:441 | no piece of a split contains the separator |
| `Strings.SplitCount` | public/app.js:593-594 | a split has at least two pieces exactly when the separator occurs |
| `Strings.SplitLast` | worker.js:46-47 | the last piece of a split on one character is the text after its last occurrence |
| `Strings.DecimalInjective` | public/app.js:533 | distinct numbers render as distinct decimal strings |
| `Commands.CommandAt` | public/app.js:383 | a match of `\cmd{ARG}` has a non-empty ARG without `}` and spans exactly `\cmd{ARG}` |
| `Commands.CommandAtComplete` | public/app.js:383 | `\cmd{ARG}` with a non-empty ARG free of `}` is always matched, with that ARG and end |
| `Commands.EmptyArgumentNeverMatches` | public/app.js:471-475 | `\cmd{}` never matches, so an empty argument is left alone |
| `Commands.FindCommand` | public/app.js:383 | the search returns the leftmost match at or after the start, or none when no position matches |
| `Commands.ReplaceRoundTrip` | public/app.js:471-475 | writing each match back as `\cmd{ARG}` rebuilds the text: the replace loses nothing |
| `Commands.ReplaceUpToFirst` | public/app.js:417 | the global replace copies the text before the first match, rewrites it and goes on after it; with no match it copies the text |
| `Inline.NoBackslashUnchanged` | public/app.js:467-478 | a text without a backslash comes back unchanged |
| `Inline.SingleCommand` | public/app.js:471-475 | a lone `\textbf{X}`, `\textit{X}`, `\text{X}`, `\label{X}` or `\ref{X}` becomes bold, italic, bare X, `[label: X]` or `[ref: X]`, the earlier rewrites leaving it alone |
| `Latex.StripComments` | public/app.js:327 | the comment-stripped text holds no `%` and is no longer than the input |
| `Latex.StripCommentsWithoutPercent` | public/app.js:327 | a text without `%` is unchanged by comment stripping |
| `Latex.StripCommentsLineBreak` | public/app.js:327 | a comment stops at its line terminator: the terminator is kept and the following text is stripped on its own |
| `Latex.StripCommentsPrefix` | public/app.js:327 | text before the first `%` is kept unchanged |
| `Latex.TrailingComment` | public/app.js:327 | a `%` on the last line removes everything from it to the end |
| `Latex.ExtractLatexContent` | public/app.js:311-330 | the extracted body holds no `%` and has no white space at either end |
| `Latex.ExtractPlainFragment` | public/app.js:311-330 | without document markers and `%`, extraction is only `trim` |
| `Latex.ExtractIdempotent` | public/app.js:311-330 | extracting again changes nothing when the result holds neither document marker |
| `Latex.ExtractEnvironment` | public/app.js:382-399 | a found environment ends strictly after the start index and within the text |
| `Latex.ExtractEnvironmentAt` | public/app.js:382-399 | with `\begin{NAME}` at the start, extraction fails exactly when `\end{NAME}` never follows the tag; otherwise the body runs up to the first one and the end index is just past it |
| `Latex.ExtractEnvironmentUnanchored` | public/app.js:382-399 | in general the name comes from some well-formed tag at or after the start, and the body is measured from the start index |
| `Latex.EmptyBeginTakesLaterTag` | public/app.js:383-393 | on `\begin{}x\begin{a}y\end{a}` the unanchored search yields environment `a` with body `\begin{a}y` |
| `Latex.ExtractDisplayMath` | public/app.js:401-410 | extraction fails exactly when no `$$` occurs from start+2 on; otherwise the math holds no `$$` and is followed by the closing `$$` at the end index |
| `Latex.RenderList` | public/app.js:440-456 | the `forEach` appends one `<li>` per item, in order, between the list's open and close tags |
| `Latex.RenderEnvironment` | public/app.js:412-464 | the renderer method produces the dispatch by exact environment name |
| `Latex.ListItemsArePieces` | public/app.js:441 | the list items are exactly the non-blank pieces of the body split on `\item`, and none holds `\item` |
| `Latex.ListItemsInOrder` | public/app.js:441-446 | a list renders one `<li>` per non-blank `\item` piece, in the order of the pieces, and nothing for a blank piece |
| `Strings.NonBlankMembers` | public/app.js:441 | `filter(item => item.trim())` keeps exactly the pieces that are not blank |
| `Strings.NonBlankAppend` | public/app.js:441 | the filter keeps the order: filtering a concatenation filters each part |
| `Strings.Utf16LengthBasic` | public/app.js:536 | `length` equals the character count exactly when no character lies above U+FFFF |
| `Latex.ItemsHtmlAppend` | public/app.js:442-446 | the items of a concatenation render one after the other |
| `Latex.ItemizeEnumerateSameItems` | public/app.js:440-456 | `itemize` and `enumerate` hold the same `<li>` sequence and differ only in `ul`/`ol` |
| `Latex.EquationKeepsFirstLabel` | public/app.js:414-424 | an equation shows the first `\label{ID}` on the label line and its body with every label the replace meets removed, trimmed |
| `Latex.AlignVerbatim` | public/app.js:426-438 | the align family reproduces the body verbatim between its own begin and end tags |
| `Latex.UnknownEnvironmentVisible` | public/app.js:458-463 | any other environment keeps its begin and end tags visible around the processed body |
| `Latex.SkipWhitespace` | public/app.js:338-340 | the cursor stops at the first non-white-space character or the end, passing only white space |
| `Latex.NextSpecial` | public/app.js:366-371 | the text run stops at the first `\begin{` or `$$`, or at the end |
| `Latex.BlockAt` | public/app.js:345-362 | a successful environment or display-math extraction moves the cursor strictly forward |
| `Latex.ScanStep` | public/app.js:336-377 | one iteration of the model's scan always moves the cursor strictly forward |
| `Latex.SourceStepStalls` | public/app.js:345-371 | at an unterminated `\begin{` or `$$` the code's iteration leaves the cursor where it is and emits nothing |
| `Latex.SourceStepAdvances` | public/app.js:336-377 | the code's iteration never moves the cursor back, and moves it forward after a successful extraction or away from a `\begin{`/`$$` |
| `Latex.ScanStepAgrees` | public/app.js:336-377 | wherever the code's iteration makes progress, the model's iteration is the same |
| `Latex.SkipSpaces` | public/app.js:338-340 | the white-space loop ends where `SkipWhitespace` says |
| `Latex.RenderTextRun` | public/app.js:364-376 | the text loop collects up to the next `\begin{`/`$$` and emits a paragraph of its processed trim unless blank |
| `Latex.RenderStep` | public/app.js:344-376 | one outer iteration tries the environment, then display math, then the text run |
| `Latex.ProcessLatexContent` | public/app.js:332-380 | the scan loop appends the HTML of each iteration, in order, up to the end of the text |
| `Latex.PlainTextScan` | public/app.js:336-379 | text with no `\begin{` and no `$$` becomes `<p>` + the processed trim + `</p>`, or nothing when blank |
| `Latex.UnterminatedBeginIsText` | public/app.js:345-371 | on `\begin{NAME}` followed by plain text the code's iteration stalls, and the model's scan renders the whole text as one paragraph |
| `Latex.RenderLatex` | public/app.js:303-309 | the document is the scan of the extracted content inside the document element |
| `Latex.PlainDocument` | public/app.js:303-330 | a document whose body holds no `\begin{`, `$$` or `%` renders as one paragraph of its trimmed body, or empty |
| `Mermaid.RestOfLineBlankIff` | public/app.js:588 | the model of `\s*$` in multiline mode holds exactly when a white-space run reaches a line end or the text end |
| `Mermaid.ArrowChecksNeverFire` | public/app.js:593-594 | the `-->` and `->` checks can never return true |
| `Mermaid.IncompleteIff` | public/app.js:580-606 | a block is incomplete exactly when it has fewer than two non-blank lines, a bare keyword line, or unequal `[`/`]` or `(`/`)` counts |
| `Mermaid.PlaceholderIff` | public/app.js:532-536 | a block gets the placeholder exactly when its trimmed code is shorter than 10 UTF-16 code units or incomplete, whatever the renderer would say |
| `Mermaid.AstralCharactersCountTwice` | public/app.js:536 | `code.length` counts a character above U+FFFF as two units, so eight characters can reach the threshold of ten |
| `Mermaid.OneLineNeedsPlaceholder` | public/app.js:582-585 | a block without a line break always gets the placeholder |
| `Mermaid.BareKeywordNeedsPlaceholder` | public/app.js:588-590 | a line holding only a diagram keyword is enough for the placeholder |
| `Mermaid.MermaidIdInjective` | public/app.js:533 | distinct (clock, index) pairs give distinct ids |
| `Mermaid.IdsDistinct` | public/app.js:530-533 | ids built from distinct block indices are pairwise distinct whatever the clock reads |
| `Mermaid.RenderMermaid` | public/app.js:527-578 | each block gets the id of its clock reading and index and its own outcome, and the ids of one pass are pairwise distinct |
| `Previewer.BlankInputPlaceholder` | public/app.js:258-263 | input that is all white space, and only such input, shows the fixed placeholder with no converter and no pass |
| `Previewer.PassesByFormat` | public/app.js:282-292 | MathJax runs exactly for LaTeX, KaTeX exactly for markdown and HTML, the Mermaid pass exactly for markdown, none on blank input |
| `Previewer.PassthroughAndUnknown` | public/app.js:268-280 | HTML shows the trimmed input itself; an unknown format shows `''` with no converter and no pass |
| `Previewer.LatexFormat` | public/app.js:272-274 | LaTeX shows the converted document of the trimmed input, then MathJax |
| `Previewer.ContentPreviewer.constructor` | public/app.js:6-16 | a new previewer is in markdown with an empty input and, through the `updatePreview` call that ends its listener setup, already shows the placeholder; the preview agrees with the dispatch (`Valid`) |
| `Previewer.ContentPreviewer.UpdatePreview` | public/app.js:257-297 | the preview becomes the dispatch of the current format and input |
| `Previewer.ContentPreviewer.SetFormat` | public/app.js:127-145 | the format is set first, then the preview is rendered in it; the input is unchanged |
| `Previewer.ContentPreviewer.SetInput` | public/app.js:41-45 | after an edit the preview is rendered from the new input in the unchanged format |
| `Worker.OptionsPreflight` | worker.js:31-39 | a preflight request gets a null body and the three CORS headers, whatever the path |
| `Worker.ServedIff` | worker.js:42-69 | only `/`, `/index.html` and `/app.js` with a non-empty body are served with 200; everything else gets 404 `Not Found` with the CORS headers |
| `Worker.ExtensionAfterLastDot` | worker.js:46-47 | a path without `.` has extension `.html`; otherwise `.` + the text after the last `.` |
| `Worker.ExtensionByChars` | worker.js:46-47 | the same, stated over the characters of the path |
| `Worker.ExtensionOfSuffix` | worker.js:46-47 | a name ending in `.` and a dot-free suffix has that suffix as its extension |
| `Worker.MimeFallback` | worker.js:48 | an extension outside the table is served as `text/plain` |
| `Worker.RootIsHtml` | worker.js:46-48 | `/` is served as HTML |
| `Worker.ServedFileTypes` | worker.js:46-48 | `/index.html` is served as HTML and `/app.js` as JavaScript |
| `Worker.ServedCacheShort` | worker.js:51-54 | every 200 response for a static file is cached for an hour, since no served path carries a hash |
| `Worker.HashedPathCachedLong` | worker.js:51-54 | a path ending in `.`, eight lower-case hex digits and `.js`/`.css` gets the year-long immutable policy |
| `Worker.CorsEverywhere` | worker.js:31-78 | every response allows any origin; all but the exception path carry all three CORS headers |

## Left out

- DOM work: querying elements, assigning `innerHTML`, `replaceWith`, event listeners, the
  button states of `setFormat`, the AdSense and analytics hooks. A Mermaid block's replacement is
  modelled only as its `Outcome`.
- The external libraries are parameters or names: marked is a function parameter; MathJax,
  KaTeX and the Mermaid pass are recorded as post-passes; `mermaid.render` is a function that
  returns a diagram or nothing (when it throws). Their configuration (KaTeX macros and
  delimiters, highlight.js registration) is left out.
- `clearMathRendering` and `updatePlaceholder`: DOM rewriting and constant sample text.
- The debounce timer and the promise chains: `SetInput` models an edit once the 300 ms timer
  has fired. `Date.now()` is a sequence of clock readings given to `RenderMermaid`, one per block.
- The `catch` of `updatePreview` (`showError`): the model's converters do not fail, and the
  markdown converter is total by its type.
- Previewer.ContentPreviewer.constructor: the text area's starting value is taken to be empty
  (`inputValue == ""`); the page's HTML, which sets it, is not part of this model.
- Previewer.ContentPreviewer.UpdatePreview: `renderMarkdown` and `renderLatex` are `async` in the
  code; the model computes their result at once.
- The worker's URL parsing and `Response` construction: the pathname is an `Option`, and `None`
  (a URL that fails to parse) takes the exception path. The file bodies are parameters. They are
  filled in at build time.
- Latex.ExtractEnvironment: when the begin tag is found later than the start index, the body
  offset adds that tag's length in characters, where the code adds its length in UTF-16 code
  units. The bodies differ when the later tag's name holds characters above U+FFFF: on
  `\begin{}x\begin{😀}y\end{😀}` the code's body is `begin{😀}y` and the model's is `\begin{😀}y`.
  A tag at the start index (`Latex.ExtractEnvironmentAt`) is not affected.
- Latex.ExtractEnvironmentUnanchored: the same offset, counted in characters rather than UTF-16
  code units, for a tag found later than the start index.
- The build scripts: they read and write files and encode in Base64.
- The `currentFormat` and input are plain strings; the model keeps any format string, as
  the code does.

## Findings

| source | as written | input that shows it | evidently intended | confidence | as-written member | corrected member |
|---|---|---|---|---|---|---|
| public/app.js:345-371 | when `extractEnvironment` or `extractDisplayMath` returns null at `i`, the text loop's guard is already false at `i`, so nothing is consumed and the outer loop repeats the same iteration for ever | `\begin{equation} x=1` (or `$$x`) | the unterminated tag degrades to text and the scan moves on at least one character per iteration | high; not executed | `Latex.SourceStepStalls` | `Latex.ScanStep` |
