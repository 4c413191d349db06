# AddtoPDF (HardPdfMerger) in Dafny

HardPdfMerger is a desktop tool. You pick a folder, and it lists the Word,
PowerPoint and PDF files in that folder. It converts the Office files to PDF:

- through Microsoft Office automation (COM) when that is available;
- otherwise through a headless LibreOffice (`soffice`).

It then merges everything into one PDF, while a file table and a status line
follow the progress. This project models the core of `main.py` as pure Dafny
functions over immutable data, and proves properties of that model.

Modules, one per part of the program:

- `Results`: `Option`, `Result` and the pass/raise `Outcome` of a foreign call.
- `Text`:
  - ASCII `str.lower()` and `str.strip()`;
  - decimal rendering of counts, with its inverse.
- `Paths`: the `pathlib` operations the program relies on (`name`, `suffix`,
  `stem`, `with_suffix`), on a path made of a parent text and a non-empty
  final component.
- `Listing`:
  - `SUPPORTED_EXTS`;
  - `list_supported_files`;
  - `FileEntry`, which is a listed file together with its lower-cased
    extension and the path of its PDF rendition.
- `Dispatch`: the backend choice of `convert_office_to_pdf`. A `Backends`
  value says, for one conversion attempt, the following:
  - whether COM is usable;
  - what Word or PowerPoint automation would do;
  - whether `soffice` is on the PATH, and what it would do.
- `Events`: the queue messages (`progress`, `row`, `stage`, `done`, `error`)
  and the row statuses.
- `Pipeline`: `convert_all_to_pdfs`.
  - Callbacks become an event log.
  - The environment is a `Probe` that answers a `Backends` value for each
    (source, target) pair.
  - `ExpectedPdfs`, `ExpectedCalls`, `ExpectedStatuses` and `NameStatuses`
    are independent reference definitions that the loop is proved against.
- `Worker`: `_worker_main`. The merger is a parameter that passes or raises.
- `Ui`: the window as a state machine. The state has five fields:
  - the folder field;
  - `_files`;
  - the table (name, type, status per line);
  - `_processing`;
  - the status line.

  `_pick_folder`, `_refresh_table`, `_update_row_status`, `_clear`, `_start`
  and `_finish` are functions on that state. One `_poll_worker` branch is
  `Apply`, and draining the queue in FIFO order is the fold `Consume`.
- `Polling`: `_poll_worker` across time, with the point at which it stops
  rescheduling itself (see Findings).
- `Targets`: where conversions are written. It holds the `r.docx` beside
  `r.pdf` case and a corrected choice of targets (see Findings).

Design choices:

- **Paths stand for their strings.** `str(f)` and `Path(pdf_out)` are the
  identity on paths.
- **Progress messages are kept structured.** A progress report carries a
  `Message`, and `Message.Text()` renders its f-string. The `stage` event
  carries only the PDF count, and `StageText` renders "Merging N PDF(s)…".
  This keeps proofs about the loop independent of string contents.
- **The table has one line per listed file.** Tk uses the file name as the
  item id, and `UpdateRowStatus` touches the lines with that name.
- **A successful run marks every listed line Merged.** `_finish` does this
  for every file of `_files` (`main.py:369-371`), including files whose
  conversion failed and were left out of the merge. `Ui.Finish` and
  `Ui.ConsumeRun` state this.

## Model

| member | source | states |
|---|---|---|
| Text.Lower | main.py:75 | lower-casing keeps the length of the text; `Text.LowerSpec` states what happens to each character |
| Text.LowerSpec | main.py:109 | each letter `A`–`Z` becomes the letter 32 code points later, which is its lower-case letter. A character is a lower-case letter afterwards exactly when it was a letter of either case before. No upper-case letter is left, and every other character is unchanged. |
| Text.LowerAt | main.py:109 | `str.lower()` works character by character |
| Text.LowerCharMatches | main.py:109 | a character lower-cases to a character that is not upper-case exactly when it is that character or its upper-case letter |
| Text.LowerMatches | main.py:96 | `s.lower()` equals a lower-case literal such as `.pdf` exactly when `s` spells it with any mix of letter cases, as the tests at main.py:96 and main.py:111 rely on |
| Text.LowerOfLower | main.py:96 | text with no upper-case letter, such as every entry of `SUPPORTED_EXTS`, is its own lower-case form |
| Text.Strip | main.py:288 | the stripped field is the contiguous middle of the text after its leading whitespace, and only whitespace follows it |
| Text.StripSpec | main.py:288-289 | the stripped field is empty exactly when the field is blank; otherwise it starts and ends with a non-space |
| Text.NatToString | main.py:264 | a count renders as a non-empty run of decimal digits with no leading zero |
| Text.ParseNatToString | main.py:264 | reading the rendered count back gives the count |
| Paths.LastDotSpec | main.py:75 | the position found holds a dot, and no dot follows it |
| Paths.SuffixSpec | main.py:75 | `suffix` is empty exactly when the name ends in a dot or has no dot after its first character; otherwise it is the dot-led tail with no further dot |
| Paths.StemSpec | main.py:117 | stem followed by suffix gives back the name |
| Paths.WithSuffix | main.py:117 | `with_suffix` succeeds exactly for a valid suffix and keeps the parent directory |
| Paths.WithSuffixRoundTrip | main.py:117 | after `with_suffix(s)` for a simple suffix, the suffix reads back as `s`, the stem is kept, and the directory is the same |
| Paths.WithSuffixIdempotent | main.py:117 | applying `with_suffix(s)` twice is the same as applying it once |
| Listing.Classify | main.py:33 | the extension's text is preserved, and it is named exactly when it is one of `SUPPORTED_EXTS` |
| Listing.ClassifyText | main.py:33 | classifying an extension's text gives that extension back |
| Listing.PdfTarget | main.py:117 | the PDF rendition lies in the source's directory |
| Listing.FileOf | main.py:109-111 | a listed file is taken as a PDF exactly when its lower-cased suffix is `.pdf`; its target is `with_suffix(".pdf")` |
| Listing.PdfTargetSpec | main.py:117-118 | `with_suffix(".pdf")` never raises, stays in the same directory, keeps the stem, and yields a path that is itself taken as a PDF |
| Listing.ListSupportedFiles | main.py:94-96 | it returns exactly the regular files whose lower-cased suffix is supported, as a subsequence of the listing in its order; everything when all qualify; empty exactly when none does |
| Listing.ListedIndices | main.py:96 | the positions of the listing entries that are regular files with a supported lower-cased suffix, strictly increasing, holding exactly those positions |
| Listing.ListSupportedFilesIndexed | main.py:94-96 | the result is fixed exactly, repeated paths included: one path per kept entry, and its k-th path is the path of the k-th kept entry |
| Dispatch.ConvertOfficeToPdf | main.py:74-92 | Word COM for .doc/.docx and PowerPoint COM for .ppt/.pptx when COM is usable and succeeds. Otherwise `soffice` when present, with its failure propagated. Otherwise "No converter available". Non-office suffixes get "Unsupported extension". |
| Dispatch.ComFailureFallsBack | main.py:86-87 | a COM exception gives the same result as having no COM at all |
| Dispatch.ComSuccessIgnoresSoffice | main.py:80-85 | when COM converts, what `soffice` would do is irrelevant |
| Dispatch.PdfIsNotConvertible | main.py:76 | a PDF handed to the converter is rejected as unsupported |
| Events.RowStatuses | main.py:112 | the reference projection of an event log onto one table line: the statuses of its `row` events for that name, in order (at most one per event); `Events.RowStatusesAppend` and `Pipeline.RunEventsStatuses` state its meaning |
| Events.RowStatusesAppend | main.py:112 | the statuses reported in two event logs placed one after the other are the two sets of statuses one after the other |
| Pipeline.ExpectedPdfs | main.py:113 | the reference merge list: the images of the surviving files in input order, at most one per file; `Pipeline.ExpectedPdfsSpec` and `Pipeline.ExpectedPdfsExact` characterise it |
| Pipeline.ExpectedCalls | main.py:119 | the reference call list: at most one `convert_office_to_pdf(f, f.with_suffix(".pdf"))` call per file; `Pipeline.ExpectedCallsEmpty` states when it is empty and `Pipeline.ExpectedCallsIndexed` fixes every entry |
| Pipeline.ExpectedPdfsAppend | main.py:107 | the reference merge list of a concatenation is the two merge lists concatenated |
| Pipeline.ExpectedCallsAppend | main.py:107 | the reference call list of a concatenation is the two call lists concatenated |
| Pipeline.NonPdfIndices | main.py:111-119 | the positions of the files that are not PDFs, strictly increasing, holding exactly those positions |
| Pipeline.ExpectedCallsIndexed | main.py:107-121 | one converter call per non-PDF file, and the k-th call converts the k-th non-PDF file to its `with_suffix(".pdf")` target |
| Pipeline.ExpectedSnoc | main.py:107-121 | one more file extends the merge list by its image if it survives, and the calls by one if it is not a PDF |
| Pipeline.ProcessFile | main.py:107-124 | A PDF is passed through unchanged, starts its row at Queued, and reaches no converter. Any other file starts Converting, makes exactly one converter call for its `with_suffix(".pdf")` target, and contributes that target exactly when conversion succeeds. Every event is a row update or a progress report with this file's position and the total. |
| Pipeline.ProcessFileStatuses | main.py:111-124 | the handled file's row goes through Queued, Converting then Converted, or Converting then Failed; no other row is touched |
| Pipeline.ProcessFileFailure | main.py:122-124 | a failed conversion ends with the progress message "Failed: name (error)", carrying the converter's error |
| Pipeline.ConvertPrefix | main.py:107-124 | after k iterations, the merge list and the converter calls are the reference lists of the first k files |
| Pipeline.ProgressWithinAppend | main.py:114 | the progress bounds hold for two event logs placed one after the other when they hold for each |
| Pipeline.RunEventsProgress | main.py:103-108 | after k iterations, every progress event has `1 <= current <= k` and `total == len(files)` |
| Pipeline.ConvertAllToPdfs | main.py:98-126 | The merge list and the converter calls are the reference lists of the input. Every event is a row update or a progress report with `1 <= current <= total == len(files)`. No event is terminal. |
| Pipeline.ExpectedPdfsSpec | main.py:107-126 | the merge list is an order-preserving subsequence of the files' images, holds exactly the images of the survivors, and is all of them when every file survives |
| Pipeline.SurvivorIndices | main.py:107-124 | the positions of the files that end up in the merge list, strictly increasing, holding exactly the positions of the surviving files |
| Pipeline.ExpectedPdfsIndexed | main.py:107-126 | the merge list has one entry per survivor, and its k-th entry is the image of the k-th survivor, even when two files have the same image |
| Pipeline.ExpectedPdfsExact | main.py:107-126 | the merge list is fixed exactly, number of copies included: there is a strictly increasing sequence of positions, holding exactly the survivors, whose images are the list's entries |
| Pipeline.ExpectedPdfsEmpty | main.py:324 | the merge list is empty exactly when no file survives |
| Pipeline.ExpectedCallsEmpty | main.py:111-119 | the converter is never called exactly when every file is a PDF |
| Pipeline.AllPdfPassThrough | main.py:111-114 | for a folder of PDFs only, the merge list is the input unchanged and no conversion is attempted |
| Pipeline.MergeListArePdfs | main.py:113-121 | every path in the merge list has the lower-cased suffix `.pdf` (a listed `A.PDF` keeps its own spelling) |
| Pipeline.ImageExt | main.py:113-121 | what one listed file contributes to the merge list, the file itself or its `with_suffix(".pdf")` conversion, has the lower-cased suffix `.pdf` |
| Pipeline.NameStatusesAppend | main.py:112-123 | the reference history of a concatenation is the two histories concatenated |
| Pipeline.NameStatusesSnoc | main.py:107 | one more file extends the reference history of its name by its statuses |
| Pipeline.RunEventsStatuses | main.py:107-124 | the statuses reported for a name over the run equal the reference history of that name |
| Pipeline.NameStatusesAbsent | main.py:112 | a name that no file carries gets no status |
| Pipeline.NameStatusesUnique | main.py:112-123 | a name that exactly one file carries gets exactly that file's statuses |
| Pipeline.RunRowStatuses | main.py:107-124 | Within one folder, each file's row goes Queued, Converting then Converted, or Converting then Failed. A failure does not stop the loop. |
| Pipeline.RunRowStatusesOther | main.py:112 | rows of names outside the run are never updated |
| Worker.AfterConversion | main.py:323-330 | The conversion events come first and exactly one terminal event comes last. An empty list gives "No files to merge." and no merge. Otherwise come a stage event with the PDF count, a merge of exactly the list, then `done(out)` if the merger returns or `error(str(e))` if it raises. |
| Worker.WorkerMain | main.py:321-330 | A run ends with exactly one terminal event, and it comes last. The merger is called, with the merge list in order, exactly when that list is non-empty. `done(out)` is reported exactly when the merger succeeds. |
| Worker.NothingSurvives | main.py:324-325 | when no file survives, the merger is not called and the run ends with "No files to merge." |
| Worker.MergedArePdfs | main.py:323-327 | everything handed to the merger has the lower-cased suffix `.pdf` and appears in input order |
| Targets.ListedTargetMergedTwice | main.py:113-121 | When a converted file's `with_suffix(".pdf")` target is another listed file, the converter is called to write that listed file. The merge list then names that path at two positions. |
| Targets.ExpectedCallsMember | main.py:115-119 | every non-PDF file's conversion call is among the converter calls |
| Targets.StemThenSuffix | main.py:117 | a dot-free stem followed by a simple suffix reads back as that stem and suffix |
| Targets.DocxSuffix | main.py:109 | `r.docx` has the lower-cased suffix `.docx` |
| Targets.DocxTarget | main.py:117 | the PDF target of `r.docx` is `r.pdf`, next to it |
| Targets.WordConverts | main.py:78-82 | a Word file converts when COM is usable and Word automation succeeds |
| Targets.SharedImageExample | main.py:107-126 | For a folder holding `r.docx` and `r.pdf`, with Word converting, the only conversion writes the listed `r.pdf`. The merge list is `[r.pdf, r.pdf]`. |
| Targets.TargetIn | main.py:117 | the corrected target lies in the output directory, and its name is the whole source name followed by four more characters |
| Targets.FileInto | main.py:109-117 | the corrected entry keeps the path and the PDF test, and targets `TargetIn` |
| Targets.ConvertAllInto | main.py:98-126 | the loop with corrected targets has the reference merge list, calls and events of its entries |
| Targets.ImagesDistinct | main.py:113-121 | with corrected targets, two different files of one folder contribute different paths |
| Targets.ConvertAllIntoDistinct | main.py:98-126 | with corrected targets, no converter call writes a listed file, and no path occurs twice in the merge list |
| Ui.RefreshTable | main.py:266-269 | Each listed file gets one line, in order, with its name, its lower-cased suffix and the status Ready. The table's names are exactly the listed names. Nothing else changes. |
| Ui.UpdateRowStatus | main.py:271-275 | Only the line with that name changes status, and a missing name changes nothing. The lines themselves and the rest of the window are kept. |
| Ui.MarkMerged | main.py:370-371 | exactly the lines of listed files become Merged; the others keep their status |
| Ui.PickFolder | main.py:255-264 | A cancelled dialog changes nothing. For a directory, the field, the listed files, a table of Ready lines and the message "Found N supported file(s)." are set. For anything else only the field changes, because the listing raises. |
| Ui.Clear | main.py:277-282 | the field, the file list and the table are emptied and the status reads "Ready." |
| Ui.Start | main.py:285-313 | The window is busy exactly when it was already processing, and then nothing changes. Otherwise a blank or missing folder is rejected, and the folder is listed again without rebuilding the table. An empty listing or a cancelled save dialog stops there. Otherwise processing starts with the "Processing…" message. |
| Ui.StartInitial | main.py:285-291 | the window `__init__` leaves (main.py:148-155) is idle, shows "Ready." and an empty table; pressing Convert & Merge before choosing a folder reports an invalid folder and changes nothing |
| Ui.Finish | main.py:360-374 | Processing ends. Success says "Completed." and marks every line of a listed file Merged. Failure says "Failed." and leaves the lines alone. |
| Ui.Apply | main.py:337-353 | each queued event keeps the lines; only `done` and `error` end processing |
| Ui.Consume | main.py:332-355 | draining events keeps the folder, the files and the table lines, and keeps processing while no terminal event arrives |
| Ui.ConsumeAppend | main.py:334-335 | draining two batches one after the other equals draining their concatenation |
| Ui.ConsumeRowStatus | main.py:342-344 | before the terminal event, each line shows the last status reported for its name, or its previous status |
| Ui.BusyUntilTerminal | main.py:348-353 | over a run the window stays busy until the terminal event and is idle after it |
| Ui.ConsumeRun | main.py:348-353 | After a whole run the window is idle. After `done` it says "Completed." and every line of a listed file shows Merged, failed ones included. After `error` it says "Failed." and each line shows its last reported status. |
| Ui.RunToCompletion | main.py:305-330 | once Start has begun processing, handling the whole worker run on the listed files leaves the window idle with the same table lines, and on success every listed file's line shows Merged |
| Polling.FirstDead | main.py:357 | the position of the first call that sees the worker dead: every earlier call saw it alive, and it is the number of calls when none did |
| Polling.StopCountStep | main.py:357-358 | a call that sees the worker alive hands the stop point on to the remaining calls |
| Polling.PollAsWritten | main.py:332-358 | over all its calls, polling as written handles exactly the events that were queued when the first call found the worker dead (or at the last call), in FIFO order, and none queued later |
| Polling.PollAsWrittenHandlesAll | main.py:348-358 | polling as written ends idle exactly when the call that stops it had already seen every event of the run queued |
| Polling.PollCorrected | main.py:332-358 | polling until the terminal event keeps the folder and the file list |
| Polling.PrefixBusy | main.py:348-353 | handling only part of a run leaves the window busy |
| Polling.EndsOnceSuffix | main.py:321-330 | what remains of a run still ends with exactly one terminal event |
| Polling.PollCorrectedStep | main.py:357-358 | while the window is busy, corrected polling moves on to the next scheduled call |
| Polling.PollCorrectedDrains | main.py:332-358 | corrected polling handles the remaining events once each, in order, and ends idle |
| Polling.PollCorrectedRun | main.py:332-358 | on every feasible schedule that polls after the worker has finished, corrected polling ends idle, in the state FIFO consumption gives |
| Polling.PollAsWrittenLosesLast | main.py:357-358 | for every run that ends with one terminal event, one schedule the two threads can produce loses it. One call drains everything but the terminal event, and the worker queues it and exits before `is_alive()` is asked. Polling as written then stays busy, having handled all but the last event, while corrected polling ends idle. |
| Polling.PollAsWrittenLosesTerminal | main.py:305-358 | that losing schedule exists for every run `_worker_main` produces, so also for every run `_start` launches |

## Left out

- Layout, styling and widgets other than the table and the status line.
- The progress-bar percentage and the value 100 set on success. The
  percentage (`main.py:339`) divides as floats, multiplies by 100 and
  truncates with `int()`.
- Message boxes, including the `error or "Unknown error"` fallback.
- The button enable/disable calls; they always equal `not processing`.
- Threads and the queue. The worker's output is a finite event sequence that
  the window consumes in order.
- `Polling` models where polling stops; no other interleaving is modelled.
- Browse during a run. Browse is not disabled, so `_pick_folder` can run
  between two queued events and replace `_files` and the table before
  `_finish` reads them. `PickFolder` may be applied in any state, but the
  run lemmas consume a run's events with no Browse in between.
- COM automation, the `soffice` subprocess, its temporary directory, and
  PyPDF2. Each is an outcome: it passes, or it raises with a message.
- `has_soffice` and `COM_AVAILABLE` are given per attempt by the `Probe`
  parameter.
- The real file system. A folder's contents are given as `iterdir()` entries
  with their `is_file()` answers. A name is a `Node` (missing, regular file
  or directory).
- The `NotADirectoryError` and `FileNotFoundError` that `iterdir()` raises
  escape the Tk callback. The model keeps the state the callback had reached
  (`PickFolder`) or leaves it unchanged (`Start`, outcome `NotADirectory`).
- `Text.Lower`: ASCII letters only, and not the rest of Unicode
  lower-casing, because suffixes are compared with ASCII literals.
- `Text.Strip`: ASCII whitespace only (space, `\t \n \v \f \r` and
  `\x1c`–`\x1f`), and not the Unicode spaces `str.strip()` also removes.
- `Paths.WithSuffix`: the POSIX flavour only. The Windows flavour also
  rejects `\\` in the suffix, and `.pdf` is valid in both flavours.
- Path rendering (`str(path)`), drive letters and normalisation.
- File contents. `Targets` shows which paths are written and which are
  merged, not what the files hold.
- Duplicate names in one listing cannot come from one directory. The model
  gives such names one line each, where Tk would raise on the second insert.
- `Dispatch.ConvertOfficeToPdf`: `out_pdf` and `str(src)` are not passed to
  a backend, because the backends are outcomes.
- The output path chosen in the save dialog is only passed through; the
  `.pdf` default extension is the dialog's business.

## Findings

| source | as written | input that shows it | evidently intended | confidence | as-written member | corrected member |
|---|---|---|---|---|---|---|
| main.py:357-358 | After draining the queue, `_poll_worker` reschedules itself only if the worker thread is alive. | Any run, for example one file `a.doc` with no converter available. A poll drains the queue up to the "Failed: a.doc (…)" report. The worker then queues `("error", "No files to merge.")` and returns before `is_alive()` is asked. That poll does not handle the error and schedules no other, so the window stays "Processing…" with Convert and Clear disabled. | Keep polling until the `done` or `error` event has been handled. `_finish` (`main.py:360-363`) is the only place that clears `_processing` and re-enables Convert and Clear, so the terminal event must always reach it. | not executed; needs a thread switch in a narrow window | Polling.PollAsWrittenLosesTerminal | Polling.PollCorrectedRun |
| main.py:117-121 | Each Office file is converted to `f.with_suffix(".pdf")`, next to the source. | A folder holding `r.docx` and `r.pdf`, with the conversion succeeding. Converting `r.docx` writes over the listed `r.pdf`, and the merge list is `[r.pdf, r.pdf]`. The merged document holds the converted `r.docx` twice, and the original `r.pdf` is lost from disk. | Every listed file appears once in the merge, and no listed file is overwritten. For example, convert into a directory of its own under the whole source name. | not executed; needs a folder holding both `r.docx` and `r.pdf` | Targets.SharedImageExample | Targets.ConvertAllIntoDistinct |

The rest of the model handles a run with `Ui.Consume`: every event is
handled in order. `Polling.PollCorrectedRun` proves that this is what
corrected polling does.

`Targets.ConvertAllInto` is the same loop, `Pipeline.ConvertPrefix`, run on
entries whose targets lie outside the folder. So every lemma of `Pipeline`
about entries holds for it unchanged. `Worker` and `Ui` keep modelling the
program as written, with `Pipeline.ConvertAllToPdfs`.
