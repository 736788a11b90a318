# Web bulk downloader: the resumable batch loop

`web_bulk_downloader.py` reads a text file of URLs and renders each page to a
PDF. It records every attempt in the completion log `webpages_downloads.csv`.
At the next start it reads the log back and skips the URLs whose fourth field
is "Done", which its own success rows never have (see below). This project
models that batch core as pure functions over immutable data:

- the trimming of each URL (`url.rstrip(".")`) and the name of its PDF file;
- the work list as `str.splitlines()` cuts the file;
- the rows a run appends to the log, and `get_processed_urls`, which reads
  them back;
- `download_webpage`: one attempt at one URL, with its log row and messages;
- `process_urls`: the skip / cancel / attempt loop, the header row, the
  counters, "Finished." and the `PermissionError` path;
- `start_download`: load the done list, announce the run, read the work list,
  run the batch; and what one press of the button leaves for the next.

The page renderer (`pdfkit.from_url`), `os.path.join`, the Cancel button and
the clock are inputs, gathered in `Download.Env`:

- `render(i, url)` is the outcome of rendering list entry `i`;
- `cancelAfter == Some(k)` means the Cancel click is delivered by the
  `window.update()` that ends iteration `k`. The flag therefore reads true
  from iteration `k + 1` on. In the model it never goes back; a re-entrant
  press of "Start Download", which would reset it, is not modelled (see
  "## Left out"). Iteration 0 always reads false, because line 139 resets
  the flag and no click is processed before the first `window.update()`;
- `logOpenError` is the text of the `PermissionError`, if the log cannot be
  opened for append;
- `stamp` is the timestamp taken once at import (lines 19-20).

The loop does not recompute the file name per entry. It reads a table
(`BatchRunner.Plan`) that holds, for each entry, the trimmed URL and the row
and message an attempt produces. `BatchRunner.PlanAt` proves the table's
entries equal `download_webpage`'s outputs, `BatchRunner.LoopAttempts`
restates that for every entry, and `BatchRunner.AttemptIsDownloadWebpage`
shows each attempt step of the loop is one `Download.DownloadWebpage` call.

The log is seen as the rows the `csv` module yields. Each row is a sequence
of fields (`CompletionLog.Row`).

The central consequence is proved, not patched. A success row has three
fields (line 41), but the loader reads `row[3]` (line 70). So a log written
only by this program never yields a URL: `CompletionLog.OwnLogNeverResumes`
and `Session.OwnLogLoad` show the load either fails or returns `[]`.
`Session.SecondPressAfterSuccessFails` shows that after a first run in which
any page rendered, the next press stops at `row[3]` before it shows anything.

Facts about the code that the model keeps as written:

- `rstrip(".")` removes every trailing dot (line 103);
- the loader skips only row 0 (line 67), whatever that row holds;
- a later row of fewer than four fields makes the loader raise (lines 69-70);
- the failure message is `Failed <url> <detail>` (line 48);
- the `PermissionError` message names `web_pages_download.csv` (line 128),
  while the log is `webpages_downloads.csv` (`BatchRunner.CsvErrorText`).

Files: `wrappers.dfy` (Option, Result), `text.dfy` (module Text),
`work_list.dfy` (WorkList), `completion_log.dfy` (CompletionLog),
`download.dfy` (Download), `batch_runner.dfy` (BatchRunner),
`session.dfy` (Session).

## Model

| member | source | states |
|---|---|---|
| Text.TrimTrailingDots | web_bulk_downloader.py:103 | The trimmed URL is a prefix of the input, everything removed is a '.', and it does not end in '.' |
| Text.TrimIsUnique | web_bulk_downloader.py:103 | Those facts determine the result: any split into a prefix not ending in '.' plus a run of dots gives the trim |
| Text.TrimIdempotent | web_bulk_downloader.py:103 | Trimming twice gives the same URL as trimming once |
| Text.SplitJoin | web_bulk_downloader.py:30 | `url.split('/')` yields pieces without '/', and joining them with '/' rebuilds the URL |
| Text.LastSegmentIsFinal | web_bulk_downloader.py:30 | `split('/')[-1]` is a '/'-free suffix of the URL that is the whole URL or follows a '/' |
| Text.LastSegmentAfterSlash | web_bulk_downloader.py:30 | For any prefix, the text after a final '/' is the last segment |
| Text.FileNameShape | web_bulk_downloader.py:30 | The file name starts with "webpage_", ends with ".pdf", and between them holds the URL's final segment, which has no '/' |
| Text.SlashEndingName | web_bulk_downloader.py:30 | A URL that ends in '/' is saved as "webpage_.pdf" |
| Text.SameFinalSegmentSameName | web_bulk_downloader.py:30-31 | Different URLs with the same final segment get the same file name (what the file system then does with the second save is outside the model) |
| WorkList.SplitLines | web_bulk_downloader.py:90 | No line of the work list holds any of the ten line-boundary characters of `str.splitlines` |
| WorkList.LinesFromWellFormed | web_bulk_downloader.py:90 | Every line ends with one boundary character or "\r\n", except a non-empty last line the file does not terminate; a "\r" ending is never followed by an empty "\n"-ended line, so "\r\n" is never cut in two |
| WorkList.LinesOfCrLfHead | web_bulk_downloader.py:90 | A boundary-free line followed by "\r\n" comes off the front as one line with that two-character terminator, and the rest splits on its own |
| WorkList.LinesRebuildInput | web_bulk_downloader.py:90 | The lines and their terminators, in order, rebuild the file text exactly: nothing is lost or reordered |
| WorkList.SplitTerminatedRoundTrip | web_bulk_downloader.py:90 | Writing break-free lines each followed by "\n" and splitting gives the same lines back |
| WorkList.FinalTerminatorAddsNothing | web_bulk_downloader.py:90 | A terminator at the end of the file adds no empty line |
| WorkList.InteriorBlankLine | web_bulk_downloader.py:90 | A blank line between two lines becomes an empty string in the list |
| CompletionLog.WrittenRowShapes | web_bulk_downloader.py:41-51 | The success row has 3 fields ending in "Done", the failure row 4 fields with "Failed" and a braced detail, and the header (line 94) 5 fields ending in "Run:" + timestamp |
| CompletionLog.UnescapeEscape | web_bulk_downloader.py:51 | Reading back the escaped body of `repr` gives the original text |
| CompletionLog.FailureDetailRoundTrip | web_bulk_downloader.py:51 | The error text can be read back exactly from the fourth field of a failure row |
| CompletionLog.WrittenRowNotDone | web_bulk_downloader.py:70-71 | No row this program writes has "Done" in the column the loader reads |
| CompletionLog.DoneIndices | web_bulk_downloader.py:70-71 | Reference: the positions from `i` on whose fourth field is "Done", all of them, in increasing order |
| CompletionLog.DoneUrlsFrom | web_bulk_downloader.py:68-72 | The read succeeds exactly when every row from `i` has at least four fields; otherwise it fails at the first short row, with its width |
| CompletionLog.DoneUrlsAreDoneRows | web_bulk_downloader.py:68-72 | On success the result is the first field of each "Done" row, in row order, duplicates kept |
| CompletionLog.LoadProcessedUrls | web_bulk_downloader.py:63-73 | A missing log gives `[]`, an empty one fails at `next()`, otherwise rows after row 0 are read and a short row fails |
| CompletionLog.LoadedUrls | web_bulk_downloader.py:63-73 | A successful load is the first fields of the "Done" rows after row 0, in order |
| CompletionLog.FirstRowIgnored | web_bulk_downloader.py:67 | Row 0 is skipped whatever it holds: replacing it never changes the load |
| CompletionLog.OwnLogNeverResumes | web_bulk_downloader.py:56-73 | On a log of rows this program writes, the load succeeds exactly when it is non-empty and no success row follows row 0, and then returns `[]` |
| Download.DownloadWebpageOutcome | web_bulk_downloader.py:22-54 | One attempt logs the URL and the save path. The row is a success row exactly when the page rendered, and otherwise a failure row whose detail reads back. The first message says which, and the second is `Processed(count + 1, total)` |
| BatchRunner.RunFrom | web_bulk_downloader.py:101-119 | The counters only grow, and the loop appends exactly one row per entry it renders |
| BatchRunner.StopFrom | web_bulk_downloader.py:104-106 | Reference: the first entry that is not on the done list and reads the cancel flag, or the list length |
| BatchRunner.RunMatchesStop | web_bulk_downloader.py:101-119 | The loop breaks exactly when such an entry exists, and every entry before it is attempted or skipped, one count each |
| BatchRunner.RunRendersBeforeStop | web_bulk_downloader.py:104-109 | An entry is rendered exactly when it comes before the first stop and is not on the done list |
| BatchRunner.RunRows | web_bulk_downloader.py:101-117 | The k-th appended row is the row of the k-th rendered entry, the rendered entries are in list order, and none is on the done list |
| BatchRunner.RunAllSkipped | web_bulk_downloader.py:104-117 | When every remaining entry is done, nothing is rendered or logged, every entry counts as skipped, and the flag is never read |
| BatchRunner.RunCounts | web_bulk_downloader.py:52-54 | The `Processed` counts of the loop are count+1, count+2, … up to the attempt total, one per attempt |
| BatchRunner.RunSkips | web_bulk_downloader.py:114-117 | There is one "Already downloaded" message per skip |
| BatchRunner.RunShape | web_bulk_downloader.py:101-119 | Only loop messages appear; each `Saved` or `Failed` is followed by a `Processed` naming the full list length; each "Already downloaded" names a done URL |
| BatchRunner.LoopAttempts | web_bulk_downloader.py:101-109 | Entry `j` of the loop's table holds the row and message `download_webpage` produces for the trimmed entry `j` |
| BatchRunner.AttemptIsDownloadWebpage | web_bulk_downloader.py:104-109 | A non-done entry the flag does not stop is exactly one `download_webpage` call: its row, then its two messages with `Processed(attempts so far + 1, list length)`, after which the loop continues with one more attempt counted |
| BatchRunner.RunBatch | web_bulk_downloader.py:92-131 | A log that opens gets one header and one row per rendered entry, and "Finished." appears exactly when attempts + skips equals the list length. A `PermissionError` gives only the error message, with no rows and no renders |
| BatchRunner.AttemptedRowsInOrder | web_bulk_downloader.py:101-113 | Each row after the header is the row `download_webpage` writes for a rendered entry that is not on the done list |
| BatchRunner.RenderedInListOrder | web_bulk_downloader.py:101 | Entries are rendered, and so logged, in list order |
| BatchRunner.FinishedIffNoCancel | web_bulk_downloader.py:101-122 | attempts + skips is the index of the first stop, at most the list length. Rendered entries are exactly the non-done ones before it, and "Finished." appears exactly when no entry stops the loop |
| BatchRunner.ProgressMessages | web_bulk_downloader.py:52-54 | The `Processed` counts are 1, 2, … up to the attempt total; "Already downloaded" appears once per skip; each attempt's message is followed by its count against the full length |
| BatchRunner.EmptyDoneNoSkips | web_bulk_downloader.py:104-117 | With an empty done list nothing is skipped or reported as already downloaded |
| BatchRunner.FirstUrlAlwaysTried | web_bulk_downloader.py:105-106 | Whatever the cancel input, the first entry is rendered unless it is on the done list |
| BatchRunner.CancelStopsLaterEntries | web_bulk_downloader.py:105-106 | Once a non-done entry reads the flag, it and every later entry are neither rendered nor logged, and "Finished." is not shown |
| BatchRunner.RepeatedUrlRetried | web_bulk_downloader.py:104 | The done list is not updated during a run: a URL listed twice and not done is rendered both times unless the flag is seen first |
| BatchRunner.CancelIgnoredWhenAllSkipped | web_bulk_downloader.py:104-122 | When every entry is done, only the header is logged, every entry is skipped, and "Finished." is shown whatever the cancel input |
| Session.StartDownload | web_bulk_downloader.py:135-148 | A load failure stops the press before anything is shown. Otherwise "Downloading..." comes first. The log only grows by the appended rows, which start with the header. A `PermissionError` shows only the error message |
| Session.PressRowsWritten | web_bulk_downloader.py:94-113 | Every row a press appends is a header, success or failure row |
| Session.OwnLogLoad | web_bulk_downloader.py:56-73 | A log of this program's rows loads as `[]`, or fails exactly when it is empty or a success row follows row 0 |
| Session.OwnLogSkipsNothing | web_bulk_downloader.py:143 | A press on such a log never reports a URL as already downloaded |
| Session.FirstRunAttemptsEverything | web_bulk_downloader.py:135-148 | From no log, with no cancel and a writable log, entry j is rendered j-th and logged in row j + 1, the log is the header plus one row per line, and "Finished." is shown |
| Session.SecondPressAfterSuccessFails | web_bulk_downloader.py:70 | After such a first run in which any page rendered, the next press fails while loading the log, shows nothing and writes nothing |
| Session.TwoLines | web_bulk_downloader.py:90 | A file of two break-free lines, each terminated, reads back as exactly those two lines |
| Session.TwoUrlList | web_bulk_downloader.py:89-103 | For a file holding URL `a` and URL `b` + ".", the work list has two entries, and they trim to `a` and `b` |
| Session.TwoUrlScenario | web_bulk_downloader.py:89-122 | From no log, with no cancel, that file logs the header, then `a`'s row, then the row for `b` without its dot, and shows "Finished." |
| Session.TwoUrlCounts | web_bulk_downloader.py:52-54 | The progress counts of that run are exactly 1 then 2 |
| Session.StaleLogScenario | web_bulk_downloader.py:70 | A log holding a header and one success row fails with `row[3]` on row 1, a row of 3 fields |

## Left out

- The Tk window, its widgets, the file and folder pickers and the info dialog (lines 157-233) are left out. So are `see`, `update_idletasks` and `print`. Messages are modelled as `Download.Event` values, not as text inserted into the widget.
- `pdfkit.from_url` is a foreign call. Its outcome is the input `Env.render`, and any exception it raises is an opaque detail text.
- `os.path.join` is the input `Env.join`.
- Byte-level CSV quoting and parsing are not modelled. The model assumes the `csv` module reads back the fields it wrote.
- The clock and `strftime` (lines 19-20) are not modelled. The timestamp is the input `Env.stamp`.
- The global cancel flag is not modelled as shared state between threads or callbacks. It is only the input `Env.cancelAfter`, as described above.
- BatchRunner.RunBatch: only a `PermissionError` from opening the log for append is modelled (`Env.logOpenError`, caught at line 127). Any other failure of that `open` at line 96, such as `IsADirectoryError` when the log path is a directory that `os.path.isfile` at line 64 has read as a missing log, propagates out of `start_download` uncaught: no message, no row and no `CsvError`. `Env` cannot express that case.
- BatchRunner.RunBatch: a re-entrant press of "Start Download" is not modelled. The `window.update()` at line 119 can dispatch such a click; the nested `start_download` then resets the cancel flag (line 139) and appends its own header and rows to the log in the middle of the outer run. The model treats each run as uninterrupted, so `Env.cancelAfter` never goes back to false.
- BatchRunner.RunBatch: the nested exception path of lines 110-113 is left out. It only fires when writing a row or a message inside `download_webpage` raises, and the model treats both as infallible.
- Download.DownloadWebpageOutcome: likewise, the model does not cover writes that fail after a successful render.
- CompletionLog.SetDisplay: `repr` is modelled by its choice of quote and by the escapes for backslash, the quote, newline, carriage return and tab. Other non-printable characters, which `repr` writes as `\x..` or `\u....`, are not escaped in the model.
- Session.StartDownload: read errors other than a missing log, and failures to read the work list other than not being able to open it, are not modelled. Universal-newline translation and decoding of the work-list file are left out: `splitlines` is applied to the text as given.
- Session.StartDownload: a load failure leaves the previous progress text in the widget, because the clear at line 145 is never reached. The model records no messages for that press.
