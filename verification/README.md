# pdf-utils bot core, in Dafny

This project models the core of `bot.py`, a Telegram bot that works on the
PDFs its users upload. It covers five parts of the bot:

- **Progress bar.** `progress_bar` renders a 20-cell bar and a percentage for
  each step and edits the status message with each text.
- **Watermark keywords.** `WATERMARK_KEYWORDS` is parsed from a comma-separated
  environment variable.
- **Span test.** `remove_watermark` visits every span of every text block and
  decides which bounding boxes to redact.
- **Job queue.** `enqueue` puts tasks into the global queue. The worker runs
  them one at a time, in order, and survives a task that raises an
  `Exception`.
- **Per-user state.** `handle_pdf_upload` checks the file name, saves the file
  and records it as the user's last PDF. `require_pdf` lets `/clean` through
  only when that PDF is still there. `/clean` queues a job whose output path
  is `pdf.replace(".pdf", "_clean.pdf")`. That is a separate `_clean` copy only
  when the path holds a lower-case `.pdf` (see Findings).

Modules:

- `Wrappers` (`wrappers.dfy`): `Option`.
- `Strings` (`strings.dfy`): the Python string built-ins the bot uses. These
  are `strip`, ASCII `upper`/`lower`, `endswith`, `in`, `split` on one
  character, `replace` and `str` of a natural number.
- `Progress` (`progress.dfy`): the bar, the percentage, the status text, and
  the `ProgressBar` loop proved against `Updates`.
- `Watermark` (`watermark.dfy`): keyword parsing, the span test and the
  three-level redaction walk. `MarkPage`, `MarkBlock` and `MarkLine` are
  proved against `Redactions`.
- `Jobs` (`jobs.dfy`): the class `JobQueue`, whose `RunAll` drain is proved
  against `Runs`.
- `Bot` (`bot.dfy`): the saved-file naming, the `.pdf` check, `require_pdf`,
  the `_clean` output name, and the class `PdfBot` with its upload handler
  and `/clean`.

Some things the bot gets from its environment become parameters of the model.
The clock is `now`. Whether a download succeeds is `downloaded`. File
existence is `fileExists`. Whether a status edit raises is `editFails`.
Whether a queued task raises is `outcomeOf`. The replies the bot sends are
appended to `PdfBot.replies`.

The module docstring (bot.py:2-9) and the `/start` greeting (bot.py:198-200)
list compress, split, merge, rotate, extract and status commands. `main`
registers only `/start`, the PDF upload handler and `/clean`, and leaves the
rest as a comment (bot.py:250). The model follows the registered handlers.

## Model

| member | source | states |
|---|---|---|
| Strings.Strip | bot.py:30 | neither end of `k.strip()` is whitespace, in Python's `isspace` sense |
| Strings.StripSlice | bot.py:30 | `strip()` keeps a contiguous slice of its input and cuts only whitespace on either side |
| Strings.StripEmpty | bot.py:30 | `k.strip()` is empty exactly when `k` is all whitespace, which is when `if k.strip()` drops the part |
| Strings.Split | bot.py:30 | `split(",")` gives at least one part, no part holds a comma, and joining the parts with commas gives the input back |
| Strings.SplitJoin | bot.py:30 | splitting undoes joining when no part holds the separator |
| Strings.Upper | bot.py:85 | `upper()` keeps the length, leaves no lower-case letter, and changes only `a`-`z`, each to the letter 32 code points below |
| Strings.Lower | bot.py:205 | `lower()` keeps the length, leaves no upper-case letter, and changes only `A`-`Z`, each to the letter 32 code points above |
| Strings.Contains | bot.py:86 | `k in text` holds exactly when `k` occurs at some index of `text` |
| Strings.ReplaceAll | bot.py:227 | `str.replace` with no count: scans left to right and replaces every non-overlapping occurrence of the pattern; its properties are the two lemmas below |
| Strings.ReplaceWithout | bot.py:227 | `replace` returns its input unchanged when the pattern does not occur |
| Strings.ReplaceAtFirst | bot.py:227 | `replace` keeps everything before the leftmost occurrence, puts the replacement there, and goes on replacing after that occurrence |
| Strings.NatToDecimal | bot.py:63 | the decimal text of a number is non-empty, all digits, and has no leading zero except for 0 itself |
| Strings.DecimalRoundTrip | bot.py:208 | reading the decimal text back gives the number |
| Progress.ScaledFloor | bot.py:60-62 | for 1 <= step <= total, `k * step / total` floored lies in 0..k and equals k only at the last step |
| Progress.Filled | bot.py:58-60 | the full-cell count is at most 20 and is 20 exactly at the last step |
| Progress.Percent | bot.py:62 | the percentage is at most 100 and is 100 exactly at the last step |
| Progress.Bar | bot.py:61 | the bar is 20 cells long, cell i is full exactly when i < filled, and every other cell is `-` |
| Progress.RenderStep | bot.py:59-63 | the status text of one step, `{action}: [{bar}] {percent}%`; read back by `Progress.ParseRenderStep` |
| Progress.Updates | bot.py:59-63 | one status text per step, none when total <= 0 |
| Progress.ParseRenderStep | bot.py:59-63 | every status text reads back as that step's full-cell count and percentage |
| Progress.StepsMonotone | bot.py:59-62 | the bar never shrinks and the percentage never drops from one step to a later one |
| Progress.FinalUpdate | bot.py:59-63 | the last text shows 20 full cells and `100%` |
| Progress.CleaningStepFive | bot.py:230 | in the 8-step `Cleaning` bar of a clean job, step 5 shows 12 full cells, 8 empty cells and `62%` |
| Progress.Shown | bot.py:64-67 | after the edits, the message shows its initial text or one of the texts sent |
| Progress.ProgressBar | bot.py:57-68 | the loop sends exactly `Updates(total, action)`, in step order, whichever edits fail; the message ends on the last text whose edit went through |
| Watermark.KeywordOf | bot.py:30 | one part yields at most one keyword, it is well formed, and it is yielded exactly when the stripped part is non-empty and the keyword is its upper-cased form |
| Watermark.NormalizeKeywords | bot.py:30 | the list comprehension gives no more keywords than parts, and each is non-empty, stripped and upper-case |
| Watermark.NormalizeKeywordsIff | bot.py:30 | a keyword is listed exactly when some part yields it |
| Watermark.NormalizeAppend | bot.py:30 | keywords come out in the order of their parts |
| Watermark.ParseKeywords | bot.py:30 | every keyword read from the variable is well formed |
| Watermark.ParseKeywordsIff | bot.py:30 | a keyword is listed exactly when some comma-separated part of the variable yields it |
| Watermark.NoVariableNoKeywords | bot.py:30 | an unset or empty variable gives no keywords |
| Watermark.ParseJoinedKeywords | bot.py:30 | writing well-formed, comma-free keywords into the variable, comma-separated, parses back to the same list |
| Watermark.NormalizeIdentity | bot.py:30 | normalising a list of well-formed keywords leaves it unchanged |
| Watermark.SpanFlagged | bot.py:85-86 | with no keywords, no span is flagged |
| Watermark.SpanFlaggedIff | bot.py:85-86 | a span is flagged exactly when some keyword occurs in its upper-cased text |
| Watermark.BlockMarks | bot.py:80-89 | the boxes one block contributes: none unless its type is 0, else its lines' flagged spans in order; characterised by `Watermark.LinesMarksIff` and `Watermark.RedactionsIff` |
| Watermark.Redactions | bot.py:79-89 | the boxes the page walk marks, block by block, line by line, span by span; characterised by `Watermark.RedactionsIff` and computed by `Watermark.MarkPage` |
| Watermark.SpansMarks | bot.py:84-89 | the boxes the span loop of one line contributes: the box of each flagged span that has one, in span order; characterised by `Watermark.SpansMarksIff` and computed by `Watermark.MarkLine` |
| Watermark.LinesMarks | bot.py:83-89 | the boxes the line loop of one block contributes, line by line; characterised by `Watermark.LinesMarksIff` |
| Watermark.SpansMarksIff | bot.py:84-89 | a box is marked in a line exactly when a flagged span of that line has it as its box |
| Watermark.LinesMarksIff | bot.py:83-89 | a box is marked in a block's lines exactly when a flagged span of one of them has it |
| Watermark.RedactionsIff | bot.py:79-89 | a box is marked on a page exactly when it is the box of a flagged span in a block of type 0 |
| Watermark.NoKeywordsNoRedactions | bot.py:73-89 | with an empty keyword list nothing on the page is marked |
| Watermark.MarkLine | bot.py:84-89 | the span loop appends the boxes of the line's flagged spans, in span order, after the marks already made |
| Watermark.MarkBlock | bot.py:80-89 | a block whose type is not 0 adds nothing; otherwise the line loop appends its lines' marks in order |
| Watermark.MarkPage | bot.py:79-89 | the block loop marks exactly `Redactions(blocks, keywords)`, in visiting order |
| Jobs.Runs | bot.py:166-173 | the runs a drain performs: each queued task with its outcome, in queue order; characterised by `Jobs.RunsAreFifo` and `Jobs.RunAt` |
| Jobs.Executed | bot.py:166-173 | a history lists one task per run |
| Jobs.RunsAppend | bot.py:166-173 | draining two batches in turn gives the runs of the first, then the runs of the second |
| Jobs.RunsAreFifo | bot.py:166-173 | every queued task runs exactly once, in queue order, whatever the outcomes |
| Jobs.RunAt | bot.py:166-173 | the i-th run is of the i-th queued task, with that task's outcome |
| Jobs.OutcomesDoNotChangeTheSchedule | bot.py:169-172 | a task that raises changes neither which tasks run nor their order |
| Jobs.JobQueue.constructor | bot.py:38 | a new queue holds no task, no unfinished count and no history |
| Jobs.JobQueue.Enqueue | bot.py:177-178 | `put` appends the task at the tail and raises the unfinished count by one; nothing runs |
| Jobs.JobQueue.RunNext | bot.py:167-173 | one worker turn takes the head task, records its run with its outcome and lowers the unfinished count; on an empty queue nothing changes |
| Jobs.JobQueue.RunAll | bot.py:166-173 | draining runs every pending task once, in queue order, failures included, and leaves no pending task and no unfinished count |
| Bot.IsPdfName | bot.py:205 | the upload check `file_name.lower().endswith(".pdf")`; characterised by `Bot.IsPdfNameIgnoresCase` |
| Bot.SafeName | bot.py:208 | the saved name `{user_id}_{int(time.time())}_{file_name}`; inverted by `Bot.ParseSafeNameRoundTrip` |
| Bot.LocalPath | bot.py:209 | the saved path `os.path.join("pdf_files", safe_name)`; its basename is the saved name (`Bot.BasenameOfJoin`) |
| Bot.IsPdfNameIgnoresCase | bot.py:205 | a name passes the upload check exactly when its last four characters are `.`, `p`/`P`, `d`/`D`, `f`/`F` |
| Bot.IsPdfNameOfPath | bot.py:205-209 | a name that passed the check still passes it with a directory in front |
| Bot.StoredUpload | bot.py:205-213 | an accepted upload is saved under `pdf_files/` at a path that passes the check |
| Bot.IndexOf | bot.py:208 | the first position of a character, or None exactly when the character is absent |
| Bot.IndexAfterDigits | bot.py:208 | in `{digits}_{rest}` the first `_` is the one right after the digits |
| Bot.ParseSafeNameRoundTrip | bot.py:208 | the saved name `{user}_{time}_{file_name}` gives back its user, time and file name |
| Bot.SafeNameInjective | bot.py:208 | two uploads that differ in user, second or file name never get the same saved name |
| Bot.Basename | bot.py:217 | `basename` is everything after the last `/`: a `/`-free suffix of the path that is either the whole path or preceded by a `/` |
| Bot.BasenameOfJoin | bot.py:209-217 | the basename of `pdf_files/{name}` is the name, when it holds no `/` |
| Bot.ReplaceGrows | bot.py:227 | replacing `.pdf` by `_clean.pdf` never shortens a path |
| Bot.ReplaceTrailingPdf | bot.py:227 | a trailing `.pdf` is always one of the occurrences replaced |
| Bot.CleanOutputPath | bot.py:227 | the output path `pdf.replace(".pdf", "_clean.pdf")` is never shorter than the input, and for a path ending in lower-case `.pdf` it ends in `_clean.pdf` and differs from the input |
| Bot.NoPdfBeforeSuffix | bot.py:227 | a text with no dot before a four-character suffix other than `.pdf` holds no `.pdf` |
| Bot.UpperCasePdfCleansOntoItself | bot.py:205-227 | the upload `SCAN.PDF` is accepted and stored, but the written output path equals the input path |
| Bot.CleanOutputName | bot.py:227 | the corrected output name differs from the input, ends in `_clean.pdf` and keeps everything before the suffix |
| Bot.CleanOutputNameAgrees | bot.py:227 | where the path ends in lower-case `.pdf` and holds no other `.pdf`, the corrected and the written output paths agree |
| Bot.CurrentPdf | bot.py:186-187 | the `require_pdf` guard: the user's `last_pdf` when it is set, non-empty and the file exists, otherwise none; characterised by `Bot.CurrentAfterUpload` and used by `Bot.PdfBot.CmdClean` |
| Bot.CurrentAfterUpload | bot.py:186-213 | after an upload whose file exists, `require_pdf` lets the user's commands through with the new file; other users keep what they had |
| Bot.PdfBot.constructor | bot.py:35-38 | the bot starts with no recorded PDF, no reply and an empty queue |
| Bot.PdfBot.HandleUpload | bot.py:203-218 | a missing or non-PDF document gets one refusal and changes nothing else; otherwise the user is told of the download, and a successful download becomes the user's last PDF and is reported under its saved name; every recorded path stays under `pdf_files/` and passes the check |
| Bot.PdfBot.CmdClean | bot.py:224-234 | without a current PDF the user gets one "Please upload a PDF first." reply and nothing is queued; otherwise exactly one clean job is appended to the queue, with that PDF as input and `CleanOutputPath(pdf)` as output, and nothing is sent; last PDFs and past runs are untouched |
| Bot.PdfBot.UploadThenClean | bot.py:203-234 | a PDF upload that is downloaded and still exists, followed by `/clean` from the same user, records the saved path, sends the download and received replies, and queues one clean job from that saved path to its `_clean` output |

## Left out

- The PDF operations are left out. These are the redaction application, image
  deletion and saving in `remove_watermark`, plus `compress_pdf`, `split_pdf`,
  `merge_pdfs`, `rotate_pdf`, `extract_images` and `get_page_count`. They
  belong to PyMuPDF and PyPDF2. The model stops at the list of boxes handed to
  `add_redact_annot`.
- The Telegram transport is left out: `start`, `main`, handler registration
  and the `reply_*` calls. Replies are a log in `PdfBot.replies`.
- The "PDF received" message is modelled as `Received(user, saved name)`. The
  page count and the size in it, and `human_readable_size`, are left out,
  because they come from the PDF library and the file system.
- The worker thread, the blocking `get`, `asyncio.run`, and the pauses in
  `progress_bar` are left out. The queue is drained explicitly instead, which
  matches the single consumer.
- A queued clean job is modelled by its user, input and output
  (`Bot.CleanJob`). Its body is represented only by the outcome `Jobs` records
  for it. That body is the "Cleaning PDF..." message, the 8-step progress bar,
  `remove_watermark`, the final edit and the document reply.
- An exception inside `remove_watermark`'s per-page `try` is left out. In the
  source it drops the rest of that page's marks; the model marks every
  flagged span. A missing `text` entry is read as the empty text, as
  `span.get("text", "")` does.
- `Progress.Percent`: computed as the exact floor of `100 * step / total`.
  Python computes `int((step / total_steps) * 100)` with two float roundings,
  so step 29 of 100 shows 28 there. The model does not reproduce that
  rounding error.
- `Progress.Filled`: computed as the exact floor of `20 * step / total`.
  Python divides `20 * step` by `total` once in floating point. That agrees
  with the exact floor while `total` is below 2^48.
- `Progress.Shown`: `editFails(step)` holds when that step's `edit_text` does not take effect.
  Under python-telegram-bot 20 the call returns a coroutine that
  `progress_bar` never awaits, so no edit takes effect: in the bot as
  deployed `editFails(step)` is true for every step and the message keeps its
  initial text.
- `progress_bar`'s default arguments (`total_steps=30`, `action="Processing"`,
  `speed=0.08`, bot.py:57) are left out; the only caller passes `total_steps=8`,
  `action="Cleaning"` and `speed=0.08` (bot.py:230), and the pause length is
  not modelled.
- `Jobs.Outcome`: `Failed` means the task raised an `Exception`, which the
  worker catches (bot.py:171). A `BaseException` that is not an `Exception`,
  such as `SystemExit` or `asyncio.CancelledError` escaping
  `asyncio.run(task())` (bot.py:234), would end the worker thread before
  `task_done`, and no later task would run. That case is not modelled; the
  queued clean task raises no such exception of its own.
- `Jobs.JobQueue.RunAll`: the outcome is a function of the task alone
  (`outcomeOf`), so two equal clean jobs queued twice get the same outcome.
  In the source the second run may end differently, for example because the
  first one already wrote the output file. No proved property depends on
  outcomes being per task rather than per run.
- The worker's `print("Error in job:", e)` (bot.py:172) is left out; the
  model records the failure as the run's outcome instead.
- `Strings.Upper`: maps only the ASCII letters. Python's `upper()` also maps
  other letters and can lengthen a string (`ß` becomes `SS`), so non-ASCII
  keywords and span texts are outside the model.
- `Strings.Lower`: maps only the ASCII letters. Python's `lower()` also maps
  other characters and can lengthen a string. For the `.pdf` check this loses
  nothing, because no character outside ASCII lowers to text containing `.`,
  `p`, `d` or `f`.
- `Bot.Document`: the file name is always a string. A document without a file
  name would make the source raise on `.lower()`.
- `Bot.PdfBot.HandleUpload`: a failure of `os.path.getsize` after the file is
  recorded is not modelled. In the source it leaves the new last PDF in place
  and sends no "PDF received" message.
- `os.makedirs`, `os.path.exists` and the `.env` loading are left out. File
  existence is the parameter `fileExists`. The keyword variable's value is
  the argument of `Watermark.ParseKeywords`.
- `remove_watermark`'s optional `keywords` argument is left out. The default
  `None` means the configured list, and the model passes the keyword list
  explicitly.
- `Watermark.SpanFlagged` and `Watermark.Redactions` take any keyword list. The
  bot only ever passes the list from `ParseKeywords`.

## Findings

| source | as written | input that shows it | evidently intended | confidence | as-written member | corrected member |
|---|---|---|---|---|---|---|
| bot.py:205-227 | the upload check lower-cases the name before testing for `.pdf`, but `/clean` builds its output with the case-sensitive `pdf.replace(".pdf", "_clean.pdf")` | upload a file named `SCAN.PDF`, then send `/clean`: the stored path `pdf_files/{user}_{time}_SCAN.PDF` holds no lower-case `.pdf`, so the output path the job is given equals its input path. What the job then does is library behaviour outside the model: it either overwrites the input or, if PyMuPDF refuses a non-incremental save onto the open file, raises at bot.py:105, which the worker swallows (bot.py:171-172), so the user never receives a cleaned copy | replace the four-character PDF suffix, in whatever case, by `_clean.pdf`, so that the output path never is the input path | not executed | Bot.UpperCasePdfCleansOntoItself | Bot.CleanOutputName |
