# pdf2html gateway — a Dafny model

The service answers `GET /pdf-to-html?pdf_url=<url>`. It reads the URL from the query
string, takes one of 50 slots of a process-wide semaphore and creates a temporary
workspace. Then it downloads the PDF, checks that it starts with `%PDF`, runs
`pdf2htmlEX` on it, checks that the output file exists and serves it as `text/html`.
A missing URL is answered with 400. Any failure after that is answered with 500 and the
cause. On every exit after the semaphore was taken, the slot is given back. On every exit
after the workspace was created, the workspace is removed first, then the slot is
given back (Go runs deferred calls last-in, first-out).

The model has one module per component of `main.go`:

- `Wrappers` and `Bytes` hold `Option`, `Result`, `Outcome` and a byte type.
- `Paths` holds `filepath.Join`, `Dir` and `Base` on slash-separated paths.
- `Query` holds `url.ParseQuery` as an accumulation of decoded fields, and `extractRawPdfUrl`.
- `Fetch` holds the outcome of `downloadFile` and its status-200 gate.
- `Validate` holds `io.ReadFull` over the file's contents, and `validatePDF`.
- `Convert` holds the converter's argument list, and the mapping of its exit to an error.
- `Admission` holds the semaphore as a `Semaphore` class with a `count` that never exceeds 50.
- `Handler` holds the request handler.
  - The imperative part is the class `Exchange` (response, workspace flag, trace of effects), `Handle` and `RunStages`.
  - Beside it are pure functions `Respond` and `Effects`. They state what a request answers and does, through the list of stages and its first failure.
  - The lemmas are stated about `Respond` and `Effects`.

Every external step enters the model as the outcome it had (`Env`, `FetchEnv`,
`ConvertEnv`). The converter process is a function from its argument list to how it
ended.

## Model

| member | source | states |
|---|---|---|
| `Paths.SplitJoin` | main.go:250-265 | for a workspace path and a slash-free file name, `Dir` of the joined path is the workspace and `Base` is the file name, so `--dest-dir` and the positional output name split `htmlPath` back into its parts |
| `Query.ParseQuery` | main.go:222-226 | parsing fails exactly when some segment of the query is malformed |
| `Query.ParseQueryValues` | main.go:222-229 | a well-formed query maps a key exactly when it has values, and then to all of its values in query order |
| `Query.ExtractRawPdfUrl` | main.go:220-233 | the result is non-empty only when the parse succeeded and `pdf_url` has a value; it is then the first value; a failed parse or an absent key gives "" |
| `Query.FirstPdfUrlWins` | main.go:228-231 | in a well-formed query, the URL used is the value of the first `pdf_url` field in query order, whatever follows |
| `Query.NoPdfUrl` | main.go:222-232 | a query with a malformed segment, or with no `pdf_url` field, yields "" |
| `Fetch.DownloadFile` | main.go:164-194 | succeeds exactly when the request is built, a reply arrives with status exactly 200, and the file is created and written; the bytes written are the body; any other status fails with `HTTP <code>` whatever the file-system outcomes, because it is checked before the file is created |
| `Validate.ReadFull` | main.go:204-213 | reading an n-byte buffer from the start yields the first min(n, len) bytes; it reports no error exactly when the file has at least n bytes, and EOF exactly when the file is empty |
| `Validate.ValidatePdf` | main.go:197-217 | accepts exactly the files that open and have at least 4 bytes, the first 4 being `%PDF`; shorter files (the empty one included) fail at the header read; any other file fails as not a PDF, with exactly its first min(200, len) bytes as the diagnostic |
| `Convert.PairsFlatten` | main.go:250-263 | reading the flattened flag/value list back in pairs gives the pairs in their original order |
| `Convert.ConverterArgs` | main.go:248-266 | the argument list has 31 entries: `pdf2htmlEX`, then `--dest-dir` with the directory of `htmlPath`, then the 13 fixed flag/value pairs in source order, then `pdfPath` and the base name of `htmlPath` |
| `Convert.ConvertPdfToHtml` | main.go:236-280 | succeeds exactly when the working directory is known and the converter, run on `ConverterArgs(pdfPath, htmlPath)`, exits with 0; a non-zero exit fails with that exit status and the captured standard error |
| `Admission.Semaphore.constructor` | main.go:283-285 | the semaphore starts with no slot taken and with no acquire or release counted |
| `Admission.Semaphore.Acquire` | main.go:100 | takes one slot, only when fewer than 50 are taken, keeps the count at or below 50, and counts one acquire |
| `Admission.Semaphore.Release` | main.go:101-102 | gives one slot back and counts one release |
| `Handler.Stages` | main.go:116-151 | there are four stages, each started by a stage call; every failure of the stage at index k is tagged as coming from stage k |
| `Handler.StagesInOrder` | main.go:116-147 | the stages are, in this order, the download of the URL into `<workspace>/input.pdf`, the validation of that file, its conversion to `<workspace>/output.html`, and the check of that output |
| `Handler.FirstFailure` | main.go:119-151 | the index of the first failing stage: every stage before it passed; when there is none, every stage passed |
| `Handler.Exchange.constructor` | main.go:87 | a request starts with no response written, no workspace and an empty trace |
| `Handler.Exchange.Reply` | main.go:95-157 | every `c.JSON` answer (main.go:95, 110, 121, 130, 140 and 149) and the `c.File` answer (main.go:155-157): the response is written once and nothing else changes |
| `Handler.Exchange.CreateWorkspace` | main.go:107-113 | after `os.MkdirTemp` returns, the workspace exists and its creation is recorded |
| `Handler.Exchange.RemoveWorkspace` | main.go:114 | the deferred `os.RemoveAll` removes the workspace and records it |
| `Handler.Exchange.Record` | main.go:116-147 | the start of a stage is recorded: only a stage call can be recorded this way, and nothing else changes |
| `Handler.Exchange.TakeSlot` | main.go:100 | the send on the semaphore takes one slot, only when fewer than 50 are taken, counts one acquire, and is recorded as `Acquire` in the same step; the workspace and the response are unchanged |
| `Handler.Exchange.GiveSlotBack` | main.go:101-102 | the deferred receive gives one slot back, counts one release, and is recorded as `Release` in the same step; the workspace and the response are unchanged |
| `Handler.RunStages` | main.go:116-157 | the early-return stage sequence answers 500 with the first failing stage's error, or serves the output file; it records the calls of exactly the stages that started; the workspace still exists when it returns |
| `Handler.Handle` | main.go:87-158 | the whole request: the response is `Respond(query, env)` and the effects are `Effects(query, env)`; the semaphore count is back to its value on entry and never exceeds 50; the semaphore itself is acquired and released exactly once each for a request with a URL, and not at all without one; because each semaphore step is recorded by the step itself, the slot is taken before `os.MkdirTemp` and given back after `os.RemoveAll`, as the trace lemmas below state; no workspace is left behind |
| `Handler.PipelineEffectsAreStageCalls` | main.go:116-151 | at least one and at most four stages start, the first call is always the download of the URL into `<workspace>/input.pdf`, and the stages touch neither the semaphore nor the workspace |
| `Handler.DownloadStops` | main.go:116-122 | a failed download is answered 500 with its error, and the download is the only stage call |
| `Handler.ValidationStops` | main.go:119-131 | a downloaded file that fails validation is answered 500 with the validation error, after the download and validation calls only |
| `Handler.ConversionStops` | main.go:119-141 | a failed conversion of a valid file is answered 500 with the conversion error, after the download, validation and converter calls only |
| `Handler.OutputCheckDecides` | main.go:145-157 | once the conversion succeeded, a missing output file is answered 500 and any other stat result serves `<workspace>/output.html` |
| `Handler.AllStagesStart` | main.go:116-147 | once the conversion succeeded, all four stage calls happen, in order, the output check last |
| `Handler.SlotAroundStages` | main.go:100-104 | around any sequence of stage calls, the slot is taken exactly once, as the first effect, and given back exactly once, as the last |
| `Handler.SlotReleasedExactlyOnce` | main.go:93-104 | a request without a URL gets 400 and has no effect at all; any other request takes one slot as its first effect and gives exactly that slot back as its last effect, on every path |
| `Handler.WorkspaceOnlyAfterMkdirTemp` | main.go:106-114 | a workspace is created only by a request with a URL whose `os.MkdirTemp` succeeded, and the only directory ever created or removed is the one it returned |
| `Handler.MkdirTempFailureAnswers500` | main.go:107-112 | when `os.MkdirTemp` fails the response is 500, nothing is removed, and the effects are exactly taking and giving back the slot |
| `Handler.WorkspaceRemovedOnEveryPath` | main.go:113-114 | a created workspace is created once, right after the slot is taken, and removed once, after every stage and just before the slot goes back, on every path |
| `Handler.StagesRunInOrder` | main.go:119-151 | stage k starts exactly when every earlier stage passed, and it is then the k-th call; the response is a 500 from stage k exactly when stage k is the first to fail, and it carries that stage's error |
| `Handler.ServedOnlyWhenAllStagesPass` | main.go:145-157 | the HTML file is served exactly when the request has a URL, got a workspace and every stage passed |
| `Handler.ServedFileIsConverterOutput` | main.go:116-157 | a served response is `<workspace>/output.html`, answered 200 `text/html` on the assumption that `c.File` succeeds; the download was answered 200 with a body starting with `%PDF`; the converter exited with 0 on an argument list whose `--dest-dir` is the workspace, whose output name is `output.html` and whose input is `<workspace>/input.pdf` |

## Left out

- HTTP routing, response writing and `c.File` streaming are not modelled. A response is a value: 400, 500 with an error kind, or the served file's path with status 200 and `text/html`.
- Error messages are not modelled as text. The 500 body's `%v` text and the `%q` quoting of the diagnostic are left out. Errors are kinds that carry their causes: status code, diagnostic bytes, standard error.
- The network fetch is not modelled: client, 300-second timeout, browser headers and streaming copy. Building the request, the reply, creating the file and writing it each enter as an outcome. A partly written file after a failed copy is not modelled, because the request fails before anything reads it.
- `pdf2htmlEX` is an opaque function from its argument list to how it ended. Its captured standard output is only logged by the source.
- `os.MkdirTemp` is an outcome: a fresh directory, or a failure. The uniqueness of its name and the `pdf2html-` prefix are not modelled.
- `os.RemoveAll` is recorded as an effect. Its own failure is ignored by the source, so it is not modelled.
- Only a "does not exist" result of `os.Stat` on the output stops the handler. After any other stat error the handler skips the 500 and calls `c.File`, as in the source.
- `c.File`'s own outcome is not modelled: it is assumed to answer 200 `text/html`, also after a stat error other than "does not exist". The file server behind it answers 403 or 500 as `text/plain` when it cannot open the file, and the model does not capture that.
- The semaphore's blocking is not modelled. Taking a slot requires a free one (`count < 50`). Waiting, queueing and interleaving of concurrent requests are not modelled. The model shows one request against the shared count: it leaves the count where it found it and never takes it above 50.
- `url.ParseQuery` is not modelled down to the characters. Splitting at `&` and `=` and percent-decoding are taken as done, and a segment that `url.ParseQuery` rejects is `Malformed`: one with a bad percent-escape, or one holding a raw `;` (rejected since Go 1.17). So `?pdf_url=https://h/a;b.pdf` fails the parse and is answered 400, as if the URL were missing. What is modelled is how decoded fields accumulate in order, and that any malformed segment makes the parse fail.
- `filepath.Clean` is not modelled, and the system's temporary root is assumed clean. `Join` is concatenation with one `/`. That is what `filepath.Join` gives for a clean temporary directory and a plain file name. `os.MkdirTemp("", …)` builds on the raw temporary root, so with a root such as `/var//tmp`, Go passes a cleaned `--dest-dir` while the model keeps the doubled slash. `Dir` does not clean what precedes the last separator.
- Logging, timestamps, the `TimeFormat` constant and the option comment block are left out. None of them changes behaviour.
- Paginated output: `main.go` has only the single-document path, with no split-pages mode and no JSON pages, so the model has none either.
- `io.ReadFull` fails in the model only with EOF (no byte read) or UnexpectedEOF (some but not all). A read error of the file system itself is not modelled. The source answers it as a header-read failure, like the other two.
- Download status: `main.go` rejects every status other than exactly 200, so a 206 fails too. The model does the same.
