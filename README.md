# Report centre: a verified model

This project models the logic of a small report-publishing site. Investment
reports are Markdown files kept in one folder per date (`报告/<date>/<file>.md`).
Three serverless functions serve them:

- `reports.js` lists every date folder's reports. Each report gets a title,
  a category, a size text and a preview taken from the file.
- `status.js` counts reports and date folders and names the latest date.
- `report.js` returns one report's text for a `/…/<date>/<file>` path.

A browser script (`script.js`) holds the loaded data. It renders the date
list newest first, selects a date, fills the modals and the server panel,
and refreshes.

The model is written in Dafny. The modules follow the source:

- `JsString`: the JavaScript string operations the code relies on.
  These are `trim` with ECMAScript whitespace, `indexOf`, `includes`,
  `endsWith`, `replace` of the first occurrence, `split` on one character,
  `join`, and default string order. JavaScript `sort()` and `localeCompare`
  are both modelled as code-unit order.
- `Collections`:
  - an insertion sort, specified by its permutation and its order;
  - reversal;
  - sums over a set of keys;
  - the greatest element of a set;
  - `Object.keys`.
- `FileSystem`: the report store as a value. The root is missing,
  unlistable or a listing. Each entry is a directory, an unreadable
  directory, a non-directory or an entry whose `stat` throws. Each file
  has a size, an opaque modification time, its text and a flag saying
  whether it can be read.
- `Extractor`: `extractTitle`, `extractType`, `extractPreview` and
  `formatFileSize`.
  - The title regular expression is modelled exactly, and so is each step
    of the markup-stripping chain. The split, filter, take-three, join and
    truncation tail is exact too.
  - Sizes are computed on integers.
- `Scanner`: `scanReports` is a loop over the date folders and their
  files. It is followed by the per-folder sort and the handler's
  `OPTIONS`/200 decision.
- `Status`: `getReportsStats` follows the source's steps: the directory
  filter, the count loop and the sort. The handler's response is built
  from it.
- `Uri`: `decodeURIComponent`, covering percent escapes and UTF-8
  validity, and its inverse `encodeURIComponent`.
- `ReportFetch`: the path split, the `path.join` resolution of the date
  and the file name, and the 400/404/200/500 decision of `report.js`.
  The handler appears twice: as written, where a file name with `..`
  reaches outside the date folder, and as evidently intended, which the
  rest of the model uses (see "Findings").
- `Client`: the page as a class `App`. It has the three module-level
  variables, plus the page parts the functions write: the status line,
  the date items and which one is active, the content area, the open
  modals, the date modal, the server panel and the refresh button.

## Model

| member | source | states |
|---|---|---|
| JsString.Trim | netlify/functions/reports.js:62 | the trimmed text is empty exactly when the input is all whitespace; otherwise it neither starts nor ends with whitespace |
| JsString.TrimIsPiece | netlify/functions/reports.js:62 | the trimmed text is the piece of the input between a whitespace-only prefix and a whitespace-only suffix |
| JsString.TrimNoPadding | netlify/functions/reports.js:94 | a text with no whitespace at either end is left unchanged by trimming |
| JsString.ReplaceFirstSpec | netlify/functions/reports.js:67 | `replace` with a string pattern replaces the first occurrence and leaves everything else as it was |
| JsString.ReplaceFirstAbsent | netlify/functions/reports.js:70 | with no occurrence of the pattern, `replace` returns its input |
| JsString.Split | netlify/functions/report.js:25 | `split` gives at least one piece, and no piece holds the separator |
| JsString.JoinSplit | netlify/functions/report.js:25 | joining the pieces with the separator gives back the string |
| JsString.SplitJoin | netlify/functions/reports.js:95 | splitting lines that hold no separator, once they are joined with it, gives back the lines |
| JsString.BelowTotal | script.js:155 | the default string order is total |
| JsString.BelowTransitive | script.js:155 | the default string order is transitive |
| JsString.NatToString | netlify/functions/reports.js:109 | the decimal text of a number is all digits, reads back as the number, and has no leading zero |
| Collections.SortBy | netlify/functions/reports.js:47 | the sorted list is a permutation of its input and is ordered by the key; with distinct keys it is strictly ordered |
| Collections.StrictlyOrderedUnique | netlify/functions/reports.js:47 | two strictly ordered lists with the same members are equal, so the sort's result does not depend on the input order |
| Collections.ReverseStrictlyOrdered | script.js:155 | reversing an ascending list gives a descending one |
| Collections.LastIsGreatest | netlify/functions/status.js:30-35 | the last element of an ascending sort is the greatest of the sorted names |
| Collections.ObjectKeys | script.js:297 | `Object.keys` lists every key of the object once |
| Collections.SumOverRemove | script.js:296 | a sum over keys is the term of one key plus the sum over the others |
| Extractor.HeadingTitle | netlify/functions/reports.js:60-63 | when every earlier `#` that starts a line has no whitespace after it, and the `#` at the start of a line at `p` has, the title is the first line of text after that whitespace with the six pictographs removed, then trimmed |
| Extractor.FirstHeadingSkips | netlify/functions/reports.js:60 | positions without a `#` cannot start a heading |
| Extractor.NoHeading | netlify/functions/reports.js:60-61 | a text in which no `#` that starts a line is followed by whitespace has no heading |
| Extractor.HeadingAfterLineBreak | netlify/functions/reports.js:60 | the `\s+` of the title pattern crosses a line break, so a bare `#` line takes the next line as the title |
| Extractor.LeadingPictographDropped | netlify/functions/reports.js:62 | a heading `# 📊 text` gives the title `text` |
| Extractor.RemovePictographs | netlify/functions/reports.js:62 | the result keeps only characters of the input and holds none of the single-character pictographs |
| Extractor.RemovePictographsAppend | netlify/functions/reports.js:62 | removing the pictographs from a concatenation removes them from each part, unless the first part ends in the first character of `⚠️` |
| Extractor.WarningSignSplit | netlify/functions/reports.js:62 | a `⚠️` split between two parts is removed from the whole but survives removal from each part |
| Extractor.DatedNameTitle | netlify/functions/reports.js:65-68 | with no heading, whatever `#` lines the text holds, a name `YYYYMMDD-专报-topic.md` gives `topic` |
| Extractor.PlainNameTitle | netlify/functions/reports.js:70 | with no heading, whatever `#` lines the text holds, and a name that does not follow the dated pattern, the title is the name without `.md` |
| Extractor.ExtractType | netlify/functions/reports.js:74-80 | the generic label exactly when no category keyword occurs; otherwise a category the name contains, and no earlier category in the test order occurs |
| Extractor.CategoriesDistinct | netlify/functions/reports.js:74-79 | the four categories and the generic label are distinct |
| Extractor.BoldRemoved | netlify/functions/reports.js:86 | `**w**` on one line becomes `w` |
| Extractor.HeadingMarksRemoved | netlify/functions/reports.js:85 | the heading marks and the space after them are dropped |
| Extractor.StripMarkupPlain | netlify/functions/reports.js:85-93 | a text with no markup characters and no blank line passes the stripping chain unchanged |
| Extractor.NonBlank | netlify/functions/reports.js:96 | every kept line has a non-empty trimmed form |
| Extractor.NonBlankAppend | netlify/functions/reports.js:96 | the blank-line filter distributes over concatenation |
| Extractor.NonBlankKeepsAll | netlify/functions/reports.js:96 | the filter keeps a list whose lines are all non-blank |
| Extractor.TakeThree | netlify/functions/reports.js:97 | the first three lines, or all of them when there are fewer |
| Extractor.PreviewLines | netlify/functions/reports.js:94-97 | at most three lines, each non-blank and free of line breaks |
| Extractor.Truncate | netlify/functions/reports.js:100 | a text of at most 200 characters is returned unchanged; a longer one becomes its first 200 characters followed by `...` |
| Extractor.ExtractPreview | netlify/functions/reports.js:83-101 | the preview has at most 203 characters and no line break |
| Extractor.PlainLinesPreview | netlify/functions/reports.js:94-100 | for plain lines joined with `\n`, the preview is the first three of them joined with spaces, then truncated |
| Extractor.UnitIndex | netlify/functions/reports.js:108 | the unit index `i` is the one with 1024^i ≤ bytes < 1024^(i+1) |
| Extractor.UnitIndexUnique | netlify/functions/reports.js:108 | only one index satisfies those bounds |
| Extractor.RoundToTenths | netlify/functions/reports.js:109 | the tenths are the value rounded half up to one decimal |
| Extractor.TenthsRoundTrip | netlify/functions/reports.js:109 | the number text reads back as the tenths, and a whole value carries no `.0` |
| Extractor.FormatFileSizeMeaning | netlify/functions/reports.js:104-110 | for bytes between 1024^i and 1024^(i+1), the text is the rounded tenths, a space and the unit of index `i` |
| Extractor.SmallSize | netlify/functions/reports.js:104-110 | below 1024 the text is the number followed by ` B` |
| Extractor.KilobyteAndAHalf | netlify/functions/reports.js:104-110 | 1536 bytes give `1.5 KB` |
| Extractor.OneKilobyte | netlify/functions/reports.js:104-110 | 1024 bytes give `1 KB` |
| Extractor.FifteenKilobytes | netlify/functions/reports.js:104-110 | 15564 bytes give `15.2 KB` |
| Extractor.OneMegabyte | netlify/functions/reports.js:104-110 | 1048576 bytes give `1 MB` |
| Scanner.MakeReport | netlify/functions/reports.js:35-43 | the record carries the file name, the folder name as its date, and the file's modification time |
| Scanner.ReadFolder | netlify/functions/reports.js:21-44 | it fails exactly when a report file cannot be read; otherwise there is one record per `.md` file, each built from that file, with distinct names |
| Scanner.ScanFolder | netlify/functions/reports.js:21-47 | the same failure condition; otherwise the folder's listing, sorted by file name from last to first |
| Scanner.ScanReports | netlify/functions/reports.js:5-56 | `{}` for a missing root or any throw; otherwise one key per directory, those without report files included, each holding its folder's listing |
| Scanner.ListingUnique | netlify/functions/reports.js:35-47 | a folder's listing is determined by its files |
| Scanner.ScanDeterministic | netlify/functions/reports.js:5-56 | the scan's result does not depend on the order in which folders and files are listed |
| Scanner.ListingSize | netlify/functions/reports.js:22-43 | a listing has as many records as the folder has `.md` files |
| Scanner.ReportsHandler | netlify/functions/reports.js:123-138 | the answer is always 200; `OPTIONS` gets an empty body and any other method gets the scan's result |
| Status.DateFolders | netlify/functions/status.js:18-21 | it fails exactly when an entry cannot be stat'ed; otherwise it gives each directory name once |
| Status.CountReports | netlify/functions/status.js:23-28 | it fails exactly when a folder cannot be listed; otherwise it gives the sum of the `.md` counts of the folders |
| Status.GetReportsStats | netlify/functions/status.js:5-45 | zero figures for a missing root or a throw; otherwise the report total, the number of directories, and the greatest directory name (`null` exactly when there are none) |
| Status.StatsDeterministic | netlify/functions/status.js:5-45 | the figures depend on the store only |
| Status.StatsAgreeWithScan | netlify/functions/status.js:17-35 | when nothing throws, the figures agree with the listing: as many dates as keys, the total of the list lengths, and the greatest key |
| Status.UnreadableFileStillCounted | netlify/functions/status.js:25-27 | an unreadable report file gives an empty listing, yet it is still counted, because the figures never read file contents |
| Status.TwoFolders | netlify/functions/status.js:17-36 | two date folders `a` before `b` give the sum of their report counts, 2 dates, and `b` as the latest |
| Status.StatusHandler | netlify/functions/status.js:58-82 | the answer is always 200; the body is absent exactly for `OPTIONS`; otherwise it is `running` with the figures of `getReportsStats` |
| Uri.Decode | netlify/functions/report.js:27 | a decoded text is no longer than its input |
| Uri.DecodeEncode | netlify/functions/report.js:27 | decoding undoes `encodeURIComponent` for every string |
| Uri.DecodePlain | netlify/functions/report.js:27 | a text with no `%` decodes to itself |
| Uri.BadEscape | netlify/functions/report.js:27 | a `%` not followed by two hexadecimal digits makes the decoder throw |
| Uri.EncodeHasNoSlash | netlify/functions/report.js:25-27 | an encoded name holds no `/`, so it stays one path segment |
| ReportFetch.DateSegment | netlify/functions/report.js:26 | there is a second-to-last segment exactly when the path holds a `/`, and it holds no `/` |
| ReportFetch.Lookup | netlify/functions/report.js:37-40 | a file is found only for a plain date and a plain file name that the store holds, and then `path.join` lands on that file inside the date folder |
| ReportFetch.JoinedIffPlain | netlify/functions/report.js:37 | with a plain date, `path.join` lands on the named file inside the date folder exactly when the file name is a plain segment |
| ReportFetch.FetchReport | netlify/functions/report.js:5-65 | `OPTIONS` gives 200 with an empty body; the status is one of 200, 400, 404 or 500, and each error status comes with its message |
| ReportFetch.ServesOnlyDateFolder | netlify/functions/report.js:37-55 | whenever the answer is 200, the path named a plain date and file name, `path.join` lands inside the date folder, and the body is the text of that readable stored file |
| ReportFetch.FetchAsWritten | netlify/functions/report.js:5-65 | the handler as written, reading whatever `path.join` reaches on the whole disk, and 404 for a file name with a trailing `/`: `OPTIONS` gives 200 with an empty body, and each error status comes with its message |
| ReportFetch.DiskOfLookup | netlify/functions/report.js:37-40 | on the disk that holds just the store, `报告/<date>/<name>` holds exactly the file the store lookup finds |
| ReportFetch.AsWrittenAgrees | netlify/functions/report.js:25-55 | on that disk, the handler as written and the model's handler answer every request with a plain date and a plain file name, encoded or not, alike |
| ReportFetch.CorrectionOffFolderOnly | netlify/functions/report.js:25-55 | when the two handlers differ on that disk, the request is not `OPTIONS`, its date and name decode, and one of them is not a plain segment |
| ReportFetch.TraversalLeavesStore | netlify/functions/report.js:37 | the file name `../../package.json` under the date `20250919` lands on `package.json` in the working directory |
| ReportFetch.EscapeServed | netlify/functions/report.js:27-55 | a name that lands outside its date folder and does not end in `/` passes the 400 guard; as written the handler serves the file it reaches, while the model's handler answers 404 |
| ReportFetch.AsWrittenTrailingSeparator | netlify/functions/report.js:37-46 | as written, a decoded file name ending in `/` gives 404, since no file exists under a name with a trailing separator |
| ReportFetch.TraversalServed | netlify/functions/report.js:27-55 | the request `…/20250919/..%2F..%2Fpackage.json` is answered with `package.json` as written and with 404 by the model's handler |
| ReportFetch.Segments | netlify/functions/report.js:25-26 | for `…/date/name`, the date is the second-to-last segment and the name is the last |
| ReportFetch.FetchByPath | netlify/functions/report.js:29-55 | the answer is 404 exactly when the store lacks the file, 200 with the stored text unchanged when it can be read, and 500 exactly when it is present but unreadable |
| ReportFetch.FetchEncodedName | netlify/functions/report.js:27-55 | a file name sent encoded is looked up as it was before encoding: 404 exactly when that name is not found, and the stored text when it can be read |
| ReportFetch.TrailingSlash | netlify/functions/report.js:29-35 | a path ending in `/` gives 400 |
| ReportFetch.SingleSegment | netlify/functions/report.js:26-35 | a path without `/` gives 400 |
| ReportFetch.MalformedName | netlify/functions/report.js:56-63 | a malformed escape in the last segment gives 500 |
| Client.FormatDate | script.js:262-270 | an eight-character key becomes `YYYY-MM-DD` made from its three parts; any other text is returned unchanged |
| Client.CompactFormatDate | script.js:262-270 | dropping the two dashes of an eight-character key's label gives the key back |
| Client.FormatDateInjective | script.js:262-270 | two eight-character keys never share a label |
| Client.FormatDateCollision | script.js:262-270 | the key `2025-09-19` and the key `20250919` share a label |
| Client.ShowCard | script.js:202-211 | title and category are shown as they are; a non-empty size or preview is shown as it is, an empty size as `N/A` and an empty preview as the placeholder |
| Client.ReportListFor | script.js:194-215 | the content shows the list of `date` under its `YYYY-MM-DD` label; card `i` shows report `i` of that date as `ShowCard` does, and a date without data has no cards |
| Client.Entries | script.js:162-172 | one item per key, in the given order, with the key's label and report count |
| Client.NewestFirstUnique | script.js:155 | there is one newest-first order of the keys |
| Client.NewestFirstHead | script.js:155-177 | the first key of the newest-first order is the greatest key |
| Client.TotalCards | script.js:296 | the total is the sum of the list lengths of all keys |
| Client.LatestLabel | script.js:297-298 | `无` without keys; otherwise the label of the greatest key |
| Client.App.constructor | script.js:2-4 | the page starts with no data, no selected date and disconnected |
| Client.App.UpdateStatus | script.js:143-148 | sets the status text, the class and the connection flag, and nothing else |
| Client.App.NewestFirst | script.js:155 | the keys of the data sorted and reversed: every key once, newest first |
| Client.App.RenderReportList | script.js:194-216 | the content area shows the list of `date`, and nothing else changes |
| Client.App.SelectDate | script.js:182-191 | exactly the chosen item is active, the current date is `date` and its list is shown, and nothing else changes |
| Client.App.RenderDateList | script.js:151-179 | without data the list shows the notice and the current date is unchanged; otherwise the items list the keys newest first and the greatest key is selected |
| Client.App.AppendDateItems | script.js:153-172 | the list is emptied, then holds one inactive item per key, in order |
| Client.App.ShowErrorMessage | script.js:355-366 | the content area shows the message |
| Client.App.UpdateServerInfo | script.js:295-304 | the panel shows the report total, the label of the greatest key (or `无`) and the connection flag in words |
| Client.App.UpdateDateModalContent | script.js:326-338 | the date modal lists the keys newest first |
| Client.App.OpenModal | script.js:307-317 | the modal is opened; the date modal is filled first, and the server panel is refreshed when that one opens |
| Client.App.CloseModal | script.js:320-323 | the modal is closed and nothing else changes |
| Client.App.SelectDateFromModal | script.js:341-352 | the date modal is closed, and the item at the date's place in the newest-first order is selected exactly as a click on it would; an unknown date changes nothing else |
| Client.App.ModalTarget | script.js:345-350 | the date's place in the order is that of its item in a newest-first list, and an unknown date has none |
| Client.App.InitializeApp | script.js:109-123 | the whole new page: on success the data are the loaded ones, the status reads `🟢 服务器已连接` as connected, the list is rendered newest first with the newest key selected and its reports shown (with no data: the notice, the selection and content untouched), and the panel shows `运行中`; the modals and the refresh button are untouched; on failure the page is disconnected with the error shown and nothing else changes |
| Client.App.RefreshData | script.js:273-292 | the whole new page: the button ends enabled and labelled `🔄 刷新`; on success the data are the loaded ones, the status reads `🟢 数据已刷新` as connected, the list is rendered as on load, and the panel shows the new figures with the connection word from before; the modals are untouched; on failure the page is disconnected with the error shown and nothing else changes |

## Left out

- File system calls are replaced by the store value: `existsSync`,
  `readdirSync`, `statSync`, `readFileSync`, `process.cwd()` and
  `path.join`. The order in which a listing returns names is left open,
  and the model proves that nothing depends on it.
- `ReportFetch.FetchAsWritten`: folders are not on the modelled disk.
  A name that `path.join` resolves to a folder gives 500 in the source
  (reading a folder throws) and 404 here, with or without a trailing
  `/`. `..` above the file-system
  root, where it stays put, is counted as a further level up.
- `ReportFetch.FetchReport` follows the corrected behaviour under
  "Findings": a name that does not land inside its date folder gives
  404 rather than whatever `path.join` reaches.
- In `report.js`, existence is checked only on listed directories. A path
  through an unlistable root, an unreadable date folder or an entry whose
  `stat` fails is treated as absent (404).
- HTTP plumbing is not modelled. This covers the CORS headers, the
  `Content-Type` values and the function event beyond its method and
  path. JSON serialisation of bodies is also left out, including the
  order in which an object with integer-like keys is printed. Bodies are
  modelled as values.
- The handlers' 500 answers in `reports.js` and `status.js` are not
  modelled. `scanReports` and `getReportsStats` catch every error, so
  those answers cannot occur.
- Clock reads are left out: `lastUpdate` and `serverTime` in `status.js`,
  and the server time in `updateServerInfo`. File modification times are
  opaque integers.
- `Extractor.FormatFileSize`: the float computation (`Math.log`,
  `Math.pow`, `toFixed`, `parseFloat`) is modelled on integers. The unit
  index is the exact one, where `Math.log` may misjudge an exact power of
  1024. Halves round up on the exact value. A size of 1024^4 bytes or
  more gives the unit `undefined`, as indexing past the table does.
- `Collections.SortBy`: `localeCompare` in the per-folder sort is
  modelled as code-unit order, the same order as the default `sort()`.
  Locale collation is not modelled.
- Strings are sequences of Unicode code points, whereas JavaScript counts
  UTF-16 code units. The two counts agree on text of the Basic
  Multilingual Plane, but the 200-character truncation and `length === 8`
  differ for text outside it. The order differs too: JavaScript's
  `<` and `sort()` put a character outside that plane (a surrogate pair,
  U+D800–U+DFFF) before one in U+E000–U+FFFF, while the model's
  code-point order puts it after. The pictograph `⚠️` is a two-code-point
  sequence, and the model removes it as such.
- The in-place `sort()` of the per-folder array is modelled as a new
  sorted sequence.
- `markdownToHtml`, `previewReport` and `showReportPreview` are
  presentation of a placeholder text and are not modelled. Neither are
  the HTML templates, DOM queries and `setupEventListeners`.
- The static sample table of `script.js` is replaced by the parameter
  `loaded`, where `None` means that loading throws. A throw is modelled
  only there: the rendering functions are total on the data.
- `async`/`await` is left out. Each function runs to completion.
- `Client.App.SelectDateFromModal`: the source sorts the keys again for
  every date item. The model sorts them once, since the data do not
  change during the loop.
- `Client.App.RefreshData`: the server panel is updated before the
  status line, so after a successful refresh the panel shows the
  connection flag from before the refresh. The model states exactly
  that.

Two facts about the code that its own sample data do not show:

- `formatFileSize` writes a space before the unit and drops a trailing
  `.0` (`15.2 KB`, `1 KB`, `1 MB`), unlike the sample table's `15.2KB`
  (script.js:14).
- The `date` of a record is the raw folder name, such as `20250919`.

## Findings

| source | as written | input that shows it | evidently intended | confidence | as-written member | corrected member |
|---|---|---|---|---|---|---|
| netlify/functions/report.js:27-40 | the decoded file name goes into `path.join` unchecked, so `..` segments and `/` in it climb out of the date folder and the report folder | the path `…/20250919/..%2F..%2Fpackage.json` reads `package.json` from the working directory (ReportFetch.TraversalServed) | only a file of the date folder is served; any other name gives 404 | not executed | ReportFetch.FetchAsWritten | ReportFetch.FetchReport |
