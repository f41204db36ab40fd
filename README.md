# IMB batch client — a Dafny model

This project models the browser-side logic of the IMB (Intelligent Mail
barcode) batch tool. An operator pastes or uploads a list of IMB codes. The
index page splits the text into tokens and deduplicates them. It flags codes
whose length or characters look wrong, shows a short summary and enables the
"create batch" button. The batch page lists the items of a batch. It filters
them by a search query, replaces an item when its status is overridden, and
reloads or refreshes the list from the server. It also works out which batch
it shows from the URL, and builds the share link's base path.

Modules:

- `Wrappers`: `Option`.
- `Seqs`: generic `Select` (an order-preserving filter), `Positions` and
  `Collect` (a filter-map), with lemmas.
- `Text`: the JavaScript string operations the client uses. These are
  `trim()`, the `\s` class, `split` on a set of delimiter characters,
  `toLowerCase()` on ASCII, `includes`, `indexOf`, `endsWith` and decimal
  rendering.
- `Validate`: every function of `assets/validate.js`, for string inputs.
  This covers the length bounds 10 and 80, the allowed-character pattern,
  `validateImb`, `normalizeImbs`, `parseImbs` and `summarizeWarnings`. The
  handling of `null`, `undefined` and non-string arguments is listed under
  "Left out".
- `IndexView`: the index page's `updateSummary` and file-input handling in
  `assets/app.js`. It is a class `IndexPage` whose fields are the page state.
- `BatchView`: the batch page's filter, override merge, and load and refresh
  handlers in `assets/app.js`. It is a class `BatchPage` holding the batch,
  the items, the meta line and the status line.
- `UrlPaths`: `getBatchId` and `getBasePath` in `assets/app.js`.

The loops in the source are methods with loop invariants:
- `normalizeImbs` is `Validate.NormalizeImbs`.
- `summarizeWarnings` is `Validate.SummarizeWarnings`.

Each method is proved equal to a recursive specification function
(`Normalize` and `Warnings`). The properties are proved about those functions.

## Model

| member | source | states |
|---|---|---|
| Validate.ValidateImbRules | assets/validate.js:20-30 | the code is empty exactly when it is all whitespace. A non-empty trimmed code shorter than 10 or longer than 80 is a length error. It is accepted exactly when its trimmed length is within 10..80 and every character is in the class `[A-Za-z0-9._\-\/\s]`: an ASCII letter or digit, `.`, `_`, `-`, `/`, or any whitespace character that `\s` matches (space, tab, line breaks, no-break space, the Unicode space separators, BOM). Otherwise, with an in-range length, some character is disallowed |
| Validate.ValidateImb | assets/validate.js:20-30 | defines the verdict: `Empty` when the trimmed code is empty, then `Length` when its length is outside 10..80, then `Charset` when a character is outside the allowed class, else `Ok`. `ValidateImbRules` restates this in terms of the code itself |
| Validate.NormalizeImbs | assets/validate.js:5-18 | the loop with its `seen` set returns exactly `Normalize(input)`: trimmed values, blanks skipped, first occurrence kept |
| Validate.Normalize | assets/validate.js:5-18 | the result has no duplicates |
| Validate.NormalizeContents | assets/validate.js:9-15 | a value is in the result if and only if it is the trim of some input and is non-empty. Every result is already trimmed |
| Validate.NormalizeFirstSeenOrder | assets/validate.js:9-15 | results appear in the order of their first occurrence among the trimmed inputs |
| Validate.NormalizeIdempotent | assets/validate.js:5-18 | normalizing a normalized list changes nothing |
| Validate.ParseImbs | assets/validate.js:32-38 | every token is non-empty and trimmed, and contains no newline, comma or semicolon |
| Validate.TokensShape | assets/validate.js:33-37 | for newline-free lines, splitting on `,`/`;`, trimming and dropping blanks yields non-empty trimmed tokens free of separators |
| Validate.Lines | assets/validate.js:33-34 | splitting on `\r?\n` (a carriage return right before a line feed belongs to the separator) gives at least one line, with no newline in any of them |
| Validate.ParseKeepsContent | assets/validate.js:32-38 | parsing loses no content: the non-whitespace characters of the tokens, in order, are exactly the input's characters other than whitespace, `,` and `;` |
| Validate.ParseRoundTrip | assets/validate.js:32-38 | joining well-formed tokens with any newline, comma or semicolon separators and parsing the result gives the tokens back |
| Validate.ParseJoinedLines | assets/validate.js:32-38 | parsing `a + "\n" + b` gives the tokens of `a` followed by those of `b` |
| Validate.ReportRules | assets/validate.js:43-50 | a code gets a warning if and only if it fails the length or character check. The warning starts with the code |
| Validate.Report | assets/validate.js:44-49 | the warning for one code: `"<code> (length <n>)"` with the untrimmed code and its untrimmed length for a length failure, `"<code> (unsupported characters)"` for a charset failure, none otherwise. `ReportRules` gives its properties |
| Validate.Warnings | assets/validate.js:40-53 | the warnings of a list: the reports of its codes, in order, skipping codes without one. `WarningsOnePerFlagged` gives its properties |
| Validate.WarningsFor | assets/validate.js:43-50 | the per-code branch pushes exactly the code's warning, or nothing for an accepted or empty code |
| Validate.SummarizeWarnings | assets/validate.js:40-53 | the loop returns exactly `Warnings(imbs)` |
| Validate.WarningsOnePerFlagged | assets/validate.js:40-53 | there is one warning per flagged code, in input order, and the i-th warning is the report for the i-th flagged code |
| Validate.WarningsShortAndClean | assets/validate.js:44-47 | a list holding a short code and a valid one yields exactly one warning, `"<code> (length <n>)"`, whichever order they come in |
| IndexView.Combine | assets/app.js:44 | the textarea and file text with empty ones dropped and a line feed between two non-empty ones. `CombineParse` gives what parsing it yields |
| IndexView.CombineParse | assets/app.js:44-45 | parsing the textarea and file text joined by a newline (empty parts dropped) gives the textarea's tokens followed by the file's |
| IndexView.CombinedKeepsBoth | assets/app.js:44-46 | every token from either source appears in the normalized list, and nothing else does |
| IndexView.Panel | assets/app.js:52-57 | the "no warnings" message shows exactly when there are none. Otherwise the first min(n, 5) warnings are shown, with an ellipsis exactly when there are more than 5 |
| IndexView.PanelText | assets/app.js:53-56 | the warnings line's text: "No format warnings detected.", or "Warnings: " and the sample joined by " · ", followed by "..." when there are more |
| IndexView.PanelTextNoWarnings | assets/app.js:52-57 | the line reads "No format warnings detected." exactly when there are no warnings, and otherwise starts with "Warnings:" |
| IndexView.SummaryText | assets/app.js:50 | "N unique IMB ready" with the count in decimal and an "s" unless the count is 1 |
| IndexView.Prepare | assets/app.js:44-47 | the page's list is the normalization of both sources' tokens, and the warnings are those of that list |
| IndexView.IndexPage.constructor | assets/app.js:40-41 | the page before any input: no file text, no IMBs, an empty status line, and the summary, an empty warnings panel and a disabled create button, as the first `updateSummary()` leaves them for empty input |
| IndexView.IndexPage.UpdateSummary | assets/app.js:43-60 | stores the normalized list, sets the "N unique IMB(s) ready" summary and the warnings panel, and disables the create button exactly when the list is empty. The file text and status line are unchanged |
| IndexView.IndexPage.FileChanged | assets/app.js:64-84 | the file text becomes the read text, or empty when no file is chosen or the read fails. A failed read sets "Failed to read file.". The summary is then recomputed as in `updateSummary` |
| BatchView.Query | assets/app.js:150 | the query is empty exactly when the search text is all whitespace |
| BatchView.Matches | assets/app.js:153-156 | an item matches when the lower-cased code or the lower-cased raw status contains the query |
| BatchView.Shows | assets/app.js:152-156 | the filter callback: a blank query passes every item, any other passes the items it matches |
| BatchView.Visible | assets/app.js:150-157 | the shown rows: the items the callback passes for the trimmed, lower-cased query, in order. The lemmas below give its properties |
| BatchView.FilterBlankQuery | assets/app.js:151-152 | a blank query shows every item |
| BatchView.FilterIsSubsequence | assets/app.js:151-157 | the shown rows are the items whose lowercased code or status contains the query, in their original order, each exactly once |
| BatchView.FilterMembership | assets/app.js:151-157 | an item is shown if and only if it is in the list and matches the query |
| BatchView.FilterIdempotent | assets/app.js:151-157 | filtering the shown rows again changes nothing |
| BatchView.FindIndex | assets/app.js:213 | returns -1 or the index of the first item with the id |
| BatchView.Overridden | assets/app.js:213-214 | the cache after an answered override: the item at `FindIndex` replaced by the returned item, or the cache unchanged when no item has the id |
| BatchView.OverrideReplacesFirstOnly | assets/app.js:213-214 | the override replaces the first item with the id and no other, keeps the length, and leaves the list unchanged when the id is absent |
| BatchView.OverrideKeepsIds | assets/app.js:213-214 | when the server returns the item with the same id, the list of ids is unchanged |
| BatchView.OverridesCommute | assets/app.js:213-214 | overrides of two different items, each returning its own id, give the same list in either order |
| BatchView.OverrideIdempotent | assets/app.js:213-214 | applying the same override twice is the same as applying it once |
| BatchView.BatchPage.Load | assets/app.js:227-239 | clears the status line. On success it takes the batch and the items (empty when absent) and sets the meta line to the creation time and item count. A missing batch or a failed request puts the error on the meta line |
| BatchView.BatchPage.Refresh | assets/app.js:241-254 | on success it replaces the items (empty when absent) and says "Refresh complete.". On failure it keeps the items and shows the error. The batch and meta line are unchanged either way |
| BatchView.BatchPage.ApplyOverride | assets/app.js:205-219 | on success the items become the override merge and the status says "Status updated.". On failure the items are kept and the error is shown |
| UrlPaths.Segments | assets/app.js:277 | path segments are non-empty and contain no `/` |
| UrlPaths.GetBatchId | assets/app.js:272-287 | the `id` parameter when non-empty, else the segment after the first `b` segment when non-empty, else the second of two segments when the first is `b`, else none. `GetBatchIdOrder` gives its properties |
| UrlPaths.GetBatchIdOrder | assets/app.js:272-287 | a non-empty `id` parameter wins. Otherwise the segment after the first `b` segment is the id, and there is none when no `b` segment is followed by another. An id found is never empty, so the last rule (two segments, the first `b`), which the model keeps as written, never decides the result |
| UrlPaths.GetBasePath | assets/app.js:289-302 | the base path: the part before the first `/b/` with a `/` added when missing, else, when the path ends with `/batch.html`, the path without `batch.html`, else the path when it ends with `/`, else the path up to its last `/`, else `/` |
| UrlPaths.BasePathShape | assets/app.js:289-302 | the base path ends with `/`. It is a prefix of the pathname when the pathname has a `/`, and `/` otherwise |
| UrlPaths.BasePathHasNoMarker | assets/app.js:291-293 | the base path never contains `/b/` |
| UrlPaths.BasePathIdempotent | assets/app.js:289-302 | the base path of a base path is itself |
| UrlPaths.ShareLinkRoundTrip | assets/app.js:258-260 | for a pathname starting with `/` and a non-empty id without `/`, the id read back from the share link's path `base + "b/" + id` is that id |

## Left out

- `assets/api.js`: the HTTP calls are not modelled. Their outcomes are the parameters `LoadResponse`, `RefreshResponse` and `OverrideResponse`, carrying either the returned data or the error message.
- HTML rendering (`renderTable`'s markup, the status labels and the markup around the warnings) is left out. What a row shows is modelled as the filtered item list, and the warnings line as `Panel` and `PanelText`. The source inserts warnings (`assets/app.js:54`) and table cells (`assets/app.js:178-179`) into `innerHTML` without escaping. The model treats these strings as plain text, so markup inside a code, status or warning is not modelled.
- Reading the file with `FileReader` is a parameter (`FileEvent`: no file, text read, or read failed). Its asynchrony is not modelled.
- The clipboard write and its "Share link copied." / "Copy failed." messages are left out. Only the link's path is modelled.
- `localStorage`, the admin key and the "create batch" click handler (`assets/app.js:86-106`) are left out. They are calls into the server and the browser.
- `URL` parsing and percent-decoding are left out. `GetBatchId` receives the `id` query parameter and the pathname directly.
- `new Date(...).toLocaleString()` is left out. The meta line keeps the raw creation time string next to the item count.
- The transient "Refreshing..." message and the disabled state of the refresh and override buttons are left out. Each handler is modelled as one atomic step from request to outcome, so interleaved responses are not modelled.
- `BatchView.BatchPage.Load`: reading `created_at` of a null batch throws a TypeError, which the handler shows on the meta line. The model names this case `MissingBatch` rather than reproducing the engine's message text.
- Strings are sequences of characters. JavaScript's UTF-16 `length` and surrogate pairs are not distinguished, and `toLowerCase()` is modelled for ASCII letters only.
- Values the source guards with `|| ""`, `|| []` or optional chaining are modelled as `Option` where they can be absent (the items, the batch, the `id` parameter) and as plain strings elsewhere.
- `null`, `undefined` and non-string arguments to `assets/validate.js` are left out; every argument is a string or a list of strings. The source's `String(raw ?? "")` (`assets/validate.js:10`, `assets/validate.js:21`) turns `null` or `undefined` into `""`, so `normalizeImbs` skips it and `validateImb` returns `empty`, and it converts other values to their text. The default `input = []` (`assets/validate.js:5`) makes a missing argument an empty list, and `if (!rawText)` (`assets/validate.js:33`) returns `[]` for `null` or `undefined`. For strings, that guard only matters for `""`, which the model handles.
- Item ids are assumed to be strings. `itemId` comes from `button.dataset.item` (`assets/app.js:206`), which is always a string, and it is compared with `===` against the server's `item.id` (`assets/app.js:213`). If the server sent non-string ids (numbers, say), no item would ever match: the override would be dropped from the cache while "Status updated." is still shown. Because both ids are strings in the model, this outcome is not modelled.
- The search matches the item's raw status code, not its display label, because that is what the filter reads.
