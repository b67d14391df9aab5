# Upload/convert workflow of the pdfToPng front end

The front end has three pages that each run the same small workflow:

- `App.jsx` converts PDF to PNG.
- `ImageWbp.jsx` converts an image to WebP.
- `RemoveBg.jsx` removes an image's background.

On each page the user picks a file, or on the two image pages drops one. The page checks the file's MIME type and shows what was chosen. Submitting POSTs the file to the page's endpoint. On success the page starts a browser download of the result under a name it computes itself; otherwise it reports the error. The state behind this is a few component fields:

- `file`
- `loading`
- `isDragging`
- `statusMessage`
- `previewUrl` (RemoveBg only)

The pages also call `setTimeout` to blank the status text later, and the PDF page calls `alert`.

The project models this workflow in Dafny:

- `wrappers.dfy`: `Option`, which stands for a JavaScript `null`/`undefined` file handle.
- `text.dfy` (module `Text`): prefix and infix tests, ASCII case folding and decimal numerals.
- `rules.dfy` (module `UploadRules`): the pure rules.
  - which MIME types a page accepts;
  - the kilobyte text `(size / 1024).toFixed(1)`, written with integers;
  - the selection message;
  - the three download-name rules;
  - the 25-character display truncation;
  - when a click on the drop area opens the picker;
  - endpoints, form fields, and the `error || "Conversion failed"` fallback.
- `workflow.dfy` (module `Workflow`): the page state as a value (`View`), one transition function per event, and lemmas that relate several events.
  - `Wf` is the invariant that every reachable state keeps.
- `controller.dfy` (module `UploadController`): class `Controller`. The three pages become one class with a `kind` constant. Its fields are the component state. Each handler updates the fields in place and is proved to perform the `Workflow` transition for its event.

Browser and network effects are abstract:

- The network call becomes an `Outcome` value: `Ok(body)`, `HttpError(error field)`, or `Transport(message)` for an exception thrown inside the `try`.
- The parts of the browser the pages use become explicit fields: the `setTimeout` clears (`pendingClears`, delays in ms, never cancelled), the `alert` dialogs (`alerts`), the POSTs (`requests`) and the downloads (`downloads`).
- `handleSubmit` becomes two methods. `StartSubmit` is the part before the `await`. `Complete(outcome)` is the part after it.

Where the design description of the system and the code disagree, the model follows the code:

- **PDF download name.** The design description strips `.pdf` and appends `.png`. `App.jsx:42` always names the download `converted.png`.
- **Pending clears.** The design description says a newer message cancels the pending clear of an older one. The code never cancels a `setTimeout`. `StaleClearBlanksNewerMessage` shows an old 3000 ms clear blanking a newer selection message.
- **Late responses.** The design description asks for in-flight requests to be tagged and mismatched responses to be discarded. The code does neither. A response that arrives after the user chose another file still triggers its download, named after the file that was submitted (`DownloadNamedAfterSubmittedFile`).
- **Failure text.** The design description expects the status text to be the bare server error. The image pages show `"Error: "` followed by it. The PDF page alerts it bare.
- **Submit with no file.** The design description calls this a no-op. The code sets an advisory message and schedules its clear (image pages), or alerts (PDF page). In both cases it issues no request.
- **Cancelled picker on the PDF page.** On the PDF page an absent file also alerts `"Please select a PDF file"`. The image pages ignore it.

## Model

| member | source | states |
|---|---|---|
| `UploadRules.AcceptanceIsDisjoint` | frontend/src/App.jsx:10 | the PDF page accepts exactly the type `application/pdf` (case-sensitive); both image pages accept the same types; no type is accepted by both the PDF page and an image page |
| `UploadRules.KbTenthsNearest` | frontend/src/pages/RemoveBg.jsx:22-24 | the printed number of tenths of a KB is nearest to `10 * size / 1024` among all integers, and the larger one on a tie (the `toFixed` rounding rule) |
| `UploadRules.Accepts` | frontend/src/App.jsx:10 | the PDF page accepts a file exactly when its MIME type is `application/pdf`; an image page (as at `RemoveBg.jsx:18` and `ImageWbp.jsx:17`) exactly when it starts with `image/` |
| `UploadRules.Endpoint` | frontend/src/pages/RemoveBg.jsx:89 | each page POSTs to an absolute path (`/convert`, `/convertWebP`, `/removeBg`) |
| `UploadRules.EndpointsDistinct` | frontend/src/pages/ImageWbp.jsx:87-88 | two different pages never POST to the same endpoint |
| `UploadRules.FieldName` | frontend/src/App.jsx:26 | the PDF page, and only it, sends its file in the `file` field; the pages with a drop area, and only they, use `image` (as at `RemoveBg.jsx:87` and `ImageWbp.jsx:84`) |
| `UploadRules.KbTenths` | frontend/src/pages/RemoveBg.jsx:22-24 | the number of tenths of a KB is the nearest to size/1024, within half a tenth either way, as `toFixed(1)` rounds |
| `UploadRules.KbText` | frontend/src/pages/ImageWbp.jsx:20-22 | the KB text is digits, a dot, and exactly one digit, with no leading zero before a multi-digit whole part |
| `UploadRules.KbTextRoundTrip` | frontend/src/pages/RemoveBg.jsx:22-24 | reading the KB text back gives the rounded number of tenths, so the text shows the value to one decimal place |
| `UploadRules.KbTextExamples` | frontend/src/pages/RemoveBg.jsx:22-24 | 2048 bytes show as `2.0`, 256 as `0.3` (tie rounds up), 51 as `0.0`, 10240 as `10.0` |
| `UploadRules.SelectedMessage` | frontend/src/pages/ImageWbp.jsx:19-23 | the selection message contains the file name and the KB text followed by ` KB`, and does not start with `Error:` |
| `UploadRules.BeforeFirstDot` | frontend/src/pages/RemoveBg.jsx:100 | `split(".")[0]` is a dot-free prefix of the name, followed in the name by a dot unless it is the whole name |
| `UploadRules.BeforeFirstDotUnique` | frontend/src/pages/RemoveBg.jsx:100 | those three properties determine the result |
| `UploadRules.ImageSuffixStart` | frontend/src/pages/ImageWbp.jsx:105-107 | the extension regex matches at the returned index, and matches nowhere when none is returned |
| `UploadRules.ImageSuffixUnique` | frontend/src/pages/ImageWbp.jsx:106 | the anchored regex can match at only one index (the last dot), so the leftmost match is that one |
| `UploadRules.WebpName` | frontend/src/pages/ImageWbp.jsx:105-108 | a name ending in `.png/.jpg/.jpeg/.gif/.bmp/.tiff/.svg` (ASCII letters in any case) gets that suffix replaced by `.webp`; any other name is unchanged |
| `UploadRules.WebpNameIdempotent` | frontend/src/pages/ImageWbp.jsx:105-108 | renaming a renamed name changes nothing |
| `UploadRules.WebpNameUpperCaseExample` | frontend/src/pages/ImageWbp.jsx:106 | `photo.JPEG` becomes `photo.webp` |
| `UploadRules.WebpNameInnerExtensionExample` | frontend/src/pages/ImageWbp.jsx:106 | `a.png.txt` stays `a.png.txt` |
| `UploadRules.OutputName` | frontend/src/pages/RemoveBg.jsx:100-101 | download name per page: RemoveBg gives the text before the first dot plus `_no_bg.png`; WebP gives the suffix replacement; the PDF page always gives `converted.png` (App.jsx:42) |
| `UploadRules.RemoveBgNameExamples` | frontend/src/pages/RemoveBg.jsx:100-101 | `me.selfie.png` gives `me_no_bg.png`; `noext` gives `noext_no_bg.png` |
| `UploadRules.PdfNameExample` | frontend/src/App.jsx:42 | `report.PDF` downloads as `converted.png` |
| `UploadRules.DisplayName` | frontend/src/pages/ImageWbp.jsx:186-188 | the shown name is at most 25 characters; a name of at most 25 is shown unchanged; a longer one as its first 22 characters and `...` |
| `UploadRules.Closest` | frontend/src/pages/ImageWbp.jsx:68 | `closest("label")` finds the nearest element named `label` on the path from the target upward, or none if there is none |
| `UploadRules.OpensPicker` | frontend/src/pages/ImageWbp.jsx:65-72 | a click opens the picker iff neither the target nor any ancestor is a label (the tag-name test is subsumed by `closest`) |
| `UploadRules.ErrorText` | frontend/src/pages/RemoveBg.jsx:109 | a present, non-empty `error` field is used as is; otherwise `Conversion failed` |
| `Text.ParseNatToString` | frontend/src/pages/RemoveBg.jsx:22-24 | the decimal numeral of the whole KB part reads back as the number |
| `Workflow.RejectMessage` | frontend/src/pages/RemoveBg.jsx:27-29 | the wrong-type message of an image page starts with `Error:` |
| `Workflow.FailureMessage` | frontend/src/pages/ImageWbp.jsx:119-125 | a failure shows `Error: ` + the error field or `Conversion failed`; a transport failure shows `Error: ` + its message, which on the WebP page falls back to `Failed to convert file` when empty |
| `Workflow.FailureAlert` | frontend/src/App.jsx:47-52 | the PDF page alerts the error field or `Conversion failed`, or `Error converting file: ` + the transport message |
| `Workflow.SuccessMessage` | frontend/src/pages/ImageWbp.jsx:116 | each image page's success message (also `RemoveBg.jsx:106`) is non-empty and does not read as an error |
| `Workflow.Initial` | frontend/src/pages/RemoveBg.jsx:4-8 | a page mounts with no file and no preview, not loading, not dragging, empty status, no timers, alerts, requests or downloads |
| `Workflow.InitialWf` | frontend/src/pages/RemoveBg.jsx:4-8 | the initial state satisfies the page invariant `Wf` for every kind |
| `Workflow.Acquire` | frontend/src/pages/RemoveBg.jsx:17-31 | an accepted file replaces the held one (and RemoveBg's preview) and the message names it with its KB size; a present rejected file leaves file and preview alone, sets an `Error:` message and schedules a 3000 ms clear (PDF page: alerts); an absent file changes nothing on image pages and alerts on the PDF page; `loading`, drag flag, requests and downloads never change; `Wf` is kept |
| `Workflow.AcquireIdempotent` | frontend/src/pages/ImageWbp.jsx:16-23 | choosing the same acceptable file twice ends in the same state as choosing it once |
| `Workflow.AcquireReplaces` | frontend/src/pages/ImageWbp.jsx:18 | the held file is the last accepted one, whatever was chosen before |
| `Workflow.DragEnter` | frontend/src/pages/RemoveBg.jsx:34-38 | sets the drag flag and nothing else |
| `Workflow.DragOver` | frontend/src/pages/RemoveBg.jsx:40-46 | the drag flag ends set, nothing else changes, and a state already dragging is left as it is |
| `Workflow.DragOverIdempotent` | frontend/src/pages/ImageWbp.jsx:38-44 | repeated `dragover` events, or one after `dragenter`, change nothing further |
| `Workflow.DragLeave` | frontend/src/pages/RemoveBg.jsx:48-54 | the flag stays set only if the pointer moved to an element inside the drop area; nothing else changes |
| `Workflow.Drop` | frontend/src/pages/RemoveBg.jsx:56-65 | the drag flag always ends cleared; an empty file list changes nothing else |
| `Workflow.DropIsAcquireOfFirst` | frontend/src/pages/ImageWbp.jsx:59-62 | a drop is the picker path applied to the first file, plus the cleared flag; files after the first are ignored |
| `Workflow.DragLifecycle` | frontend/src/pages/ImageWbp.jsx:32-63 | enter sets the flag; a leave into a nested child keeps it; a leave outside clears it; a drop always ends with it cleared |
| `Workflow.Clear` | frontend/src/pages/RemoveBg.jsx:119-126 | file and preview become none and the status text empty; nothing else changes |
| `Workflow.SubmitAfterClearSendsNothing` | frontend/src/pages/RemoveBg.jsx:76-82 | after a clear, submitting issues no request, leaves `loading` false and the button disabled, and only shows the advisory with its 3000 ms clear |
| `Workflow.Submit` | frontend/src/pages/RemoveBg.jsx:76-87 | with no file: no request, `loading` stays false, the advisory text and a 3000 ms clear (PDF page: alert); with a file: exactly one POST of that file to the page's endpoint and field, `loading` set, RemoveBg's progress text |
| `Workflow.EnabledSubmitIssuesOneRequest` | frontend/src/pages/ImageWbp.jsx:200 | pressing the enabled button issues one request carrying the held file and leaves the button disabled |
| `Workflow.Complete` | frontend/src/pages/ImageWbp.jsx:95-128 | `loading` ends false for every outcome; success adds exactly one download, named by the page's rule from the submitted file and holding the response body; failures add none; image pages set the outcome text and schedule a 5000 ms clear; the PDF page alerts failures only; file, preview and requests unchanged |
| `Workflow.SubmissionReleasesLoading` | frontend/src/pages/RemoveBg.jsx:84-116 | a whole submission from the enabled button issues one request, adds a download exactly on success, and leaves the button enabled again |
| `Workflow.DownloadNamedAfterSubmittedFile` | frontend/src/pages/RemoveBg.jsx:100-101 | choosing another file while the request is in flight does not change the download name: it comes from the file that was submitted |
| `Workflow.FireClear` | frontend/src/pages/RemoveBg.jsx:30 | a firing clear empties the status text whatever it is by then and removes only that timer |
| `Workflow.StaleClearBlanksNewerMessage` | frontend/src/pages/ImageWbp.jsx:28 | a rejected file's 3000 ms clear survives a later accepted choice and blanks its selection message while the new file stays held |
| `UploadController.Controller.constructor` | frontend/src/pages/RemoveBg.jsx:4-10 | a fresh page holds the initial state and satisfies the invariant |
| `UploadController.Controller.CanSubmit` | frontend/src/pages/RemoveBg.jsx:272 | the button is enabled iff a file is held and nothing is loading |
| `UploadController.Controller.Acquire` | frontend/src/App.jsx:8-15 | updates the fields in place exactly as `Workflow.Acquire`, keeping the invariant |
| `UploadController.Controller.DragEnter` | frontend/src/pages/ImageWbp.jsx:32-36 | performs `Workflow.DragEnter` in place |
| `UploadController.Controller.DragOver` | frontend/src/pages/ImageWbp.jsx:38-44 | performs `Workflow.DragOver` in place, writing only when the flag is clear |
| `UploadController.Controller.DragLeave` | frontend/src/pages/ImageWbp.jsx:46-52 | performs `Workflow.DragLeave` in place |
| `UploadController.Controller.Drop` | frontend/src/pages/ImageWbp.jsx:54-63 | clears the flag, then runs `Acquire` on the first file: `Workflow.Drop` in place |
| `UploadController.Controller.Clear` | frontend/src/pages/RemoveBg.jsx:119-122 | performs `Workflow.Clear` in place |
| `UploadController.Controller.StartSubmit` | frontend/src/App.jsx:17-32 | returns whether a request went out (iff a file was held) and performs `Workflow.Submit` in place |
| `UploadController.Controller.Complete` | frontend/src/App.jsx:34-55 | performs `Workflow.Complete` in place; `loading` is reset as in `finally` |
| `UploadController.Controller.FireClear` | frontend/src/pages/ImageWbp.jsx:117 | performs `Workflow.FireClear` in place |

## Left out

- `UploadRules.Endpoint`: its contract states only that the path is absolute. The per-page paths are the literals in its body, and that they differ is stated by `EndpointsDistinct`, because string literals in the contract fire inside every proof about the page invariant and make those proofs too costly.
- **Browser plumbing.** `fetch`, `FormData`, `Blob`, `URL.createObjectURL`/`revokeObjectURL`, the download anchor and `console.log` are outside the model. A request is recorded as `(path, field, file)`, without the `VITE_API_URL` base. A download is recorded as `(name, body)`.
- **Exceptions inside the `try`.** When `response.blob()` or `response.json()` throws (for example on an unparsable error body), the page takes the `catch` path. The model represents this as a `Transport` outcome carrying that exception's message.
- **Non-string messages.** A thrown value without a `message` (JavaScript prints `undefined`) is not distinguished. Neither is a non-string `error` field. Both are taken to be strings, or absent.
- **Object URLs.** `previewUrl` is modelled as the file it previews. The code never revokes old preview URLs; that leak is outside the model.
- **Timers.** There is no clock. Any pending clear may be fired next (`FireClear(i)`), which allows orders that real deadlines exclude. Cancellation is not modelled because the code has none.
- **Concurrency.** The only guard against a second submission is the disabled button. It is modelled as the precondition `!loading` of `StartSubmit`/`Submit`; async interleaving is not modelled. Requests carry no job tag, because the code has none.
- `UploadRules.KbText` / `KbTenths`: models `toFixed(1)` exactly only below 10^21 KB, where `toFixed` would switch to exponent notation. It also assumes the size is exactly representable as a double (below 2^53).
- `UploadRules.DisplayName`: counts Unicode characters, while JavaScript's `length` and `substring` count UTF-16 code units. The two differ for characters outside the Basic Multilingual Plane.
- `UploadRules.OpensPicker`: takes the clicked element's path as lower-case local names. The `fileInputRef.current.click()` it triggers is outside the model.
- **Handler details.** The `preventDefault`/`stopPropagation` calls, `e.dataTransfer.clearData()`, and the reset of the file input's value in `handleClear` act only on the DOM.
- **Rendering.** JSX, CSS classes (including the `error` style chosen by `statusMessage.includes("Error")`), SVG icons and the `useCallback` closure details are not modelled. Neither is the `<input accept=...>` filter, which the browser applies before any handler runs.
- **Other files.** `Sidebar.jsx` and `Layout.jsx` (tab routing and a collapse toggle) and `backend/main.py` (the conversion service, a thin wrapper around a PDF library) are not part of this model. The PDF page routed by `Layout.jsx` is not part of this model either.
