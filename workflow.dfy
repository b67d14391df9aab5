/**
 * The upload/convert workflow of the three pages as values: the state a
 * page component holds, and one function per event that gives the state
 * after it. The class in `UploadController` performs these transitions in
 * place; the lemmas below state what the pages promise across events.
 */
module Workflow {
  import opened Wrappers
  import opened Text
  import opened UploadRules

  newtype byte = x: int | 0 <= x < 256

  /** How the one network call of a submission ended. */
  datatype Outcome =
    | Ok(body: seq<byte>)                 // `response.ok`, the response body
    | HttpError(error: Option<string>)    // a non-OK status, the `error` field of its JSON body
    | Transport(message: string)          // an exception thrown inside the `try` block

  /** One multipart POST: the endpoint path, the form field, the file. */
  datatype Request = Request(path: string, field: string, file: FileInfo)

  /** One triggered browser download. */
  datatype Download = Download(name: string, body: seq<byte>)

  /**
   * The state of one page. `pendingClears` lists the delays (ms) of the
   * `setTimeout(() => setStatusMessage(""), delay)` calls not yet fired, in
   * the order they were scheduled; `alerts` the `alert` dialogs shown;
   * `requests` and `downloads` every POST issued and every download
   * triggered.
   */
  datatype View = View(
    file: Option<FileInfo>,
    previewUrl: Option<FileInfo>,
    loading: bool,
    isDragging: bool,
    statusMessage: string,
    pendingClears: seq<nat>,
    alerts: seq<string>,
    requests: seq<Request>,
    downloads: seq<Download>)

  const AdvisoryDelay: nat := 3000
  const OutcomeDelay: nat := 5000

  const PdfRejectAlert: string := "Please select a PDF file"
  const NoFileText: string := "Please select a file first"
  const RemoveBgProgress: string := "Removing background... This may take a moment."

  function RejectMessage(kind: Kind): (msg: string)
    ensures StartsWith(msg, "Error:")
  {
    var formats := if kind == RemoveBackground then "PNG, JPG, JPEG, etc." else "PNG, JPG, JPEG, GIF, BMP, etc.";
    StartsWithConcat("Error:", " Please select an image file (" + formats + ")");
    "Error:" + (" Please select an image file (" + formats + ")")
  }

  /** The status text after a successful conversion on an image page: never an error text. */
  function SuccessMessage(kind: Kind): (msg: string)
    ensures msg != "" && !StartsWith(msg, "Error")
  {
    var msg := if kind == RemoveBackground then "Background removed successfully!"
      else "Success! Your WebP file has been downloaded.";
    assert msg[4] != "Error"[4];
    msg
  }

  /** The status text for a failed conversion on an image page. */
  function FailureMessage(kind: Kind, outcome: Outcome): (msg: string)
    requires !outcome.Ok?
    ensures StartsWith(msg, "Error: ")
    ensures outcome.HttpError? ==> msg == "Error: " + ErrorText(outcome.error)
    ensures outcome.Transport? && (kind == RemoveBackground || outcome.message != "") ==>
      msg == "Error: " + outcome.message
    ensures outcome.Transport? && kind == ImageToWebp && outcome.message == "" ==>
      msg == "Error: Failed to convert file"
  {
    var reason := match outcome
      case HttpError(e) => ErrorText(e)
      case Transport(m) => if kind == ImageToWebp && m == "" then "Failed to convert file" else m;
    StartsWithConcat("Error: ", reason);
    "Error: " + reason
  }

  /** The alert text for a failed conversion on the PDF page. */
  function FailureAlert(outcome: Outcome): (msg: string)
    requires !outcome.Ok?
    ensures outcome.HttpError? ==> msg == ErrorText(outcome.error)
    ensures outcome.Transport? ==> msg == "Error converting file: " + outcome.message
  {
    match outcome
    case HttpError(e) => ErrorText(e)
    case Transport(m) => "Error converting file: " + m
  }

  /** The submit button is enabled: `disabled={!file || loading}` is false. */
  predicate SubmitEnabled(v: View)
  {
    v.file.Some? && !v.loading
  }

  /** The state a page starts in when it mounts. */
  function Initial(): (v: View)
    ensures v.file.None? && v.previewUrl.None? && !v.loading && !v.isDragging && v.statusMessage == ""
    ensures v.requests == [] && v.downloads == [] && v.pendingClears == [] && v.alerts == []
  {
    View(None, None, false, false, "", [], [], [], [])
  }

  /**
   * The invariant every reachable state of a page of kind `kind` keeps.
   * The PDF page has neither status text, timers nor a drop area; the image
   * pages never alert; only RemoveBg shows a preview, always of the held
   * file; a held or uploaded file always passed the page's test; every
   * request went to the page's endpoint; and `loading` implies a request.
   */
  ghost predicate Wf(kind: Kind, v: View)
  {
    && (kind == PdfToPng ==> v.statusMessage == "" && v.pendingClears == [] && !v.isDragging)
    && (kind != PdfToPng ==> v.alerts == [])
    && v.previewUrl == (if kind == RemoveBackground then v.file else None)
    && (v.file.Some? ==> Accepts(kind, v.file.value.mime))
    && (forall i :: 0 <= i < |v.requests| ==>
          v.requests[i].path == Endpoint(kind) && v.requests[i].field == FieldName(kind) &&
          Accepts(kind, v.requests[i].file.mime))
    && (forall i :: 0 <= i < |v.pendingClears| ==>
          v.pendingClears[i] == AdvisoryDelay || v.pendingClears[i] == OutcomeDelay)
    && (v.loading ==> |v.requests| > 0)
  }

  lemma InitialWf(kind: Kind)
    ensures Wf(kind, Initial())
  {
  }

  /** No event but a firing timer removes a scheduled clear, and only the network call adds requests. */
  predicate Grows(v: View, w: View)
  {
    v.pendingClears <= w.pendingClears && v.alerts <= w.alerts &&
    v.requests <= w.requests && v.downloads <= w.downloads
  }

  // ---------------------------------------------------------------------
  // File acquisition: `processFile` (image pages), `handleFileChange` (PDF page)

  function Acquire(kind: Kind, v: View, candidate: Option<FileInfo>): (w: View)
    ensures Wf(kind, v) ==> Wf(kind, w)
    ensures Grows(v, w) && w.requests == v.requests && w.downloads == v.downloads
    ensures w.loading == v.loading && w.isDragging == v.isDragging
    // an accepted file replaces the held one, whatever was held before
    ensures candidate.Some? && Accepts(kind, candidate.value.mime) ==>
      && w.file == candidate
      && (kind == RemoveBackground ==> w.previewUrl == candidate)
      && w.pendingClears == v.pendingClears && w.alerts == v.alerts
      && (kind != PdfToPng ==>
            Contains(w.statusMessage, candidate.value.name) &&
            Contains(w.statusMessage, KbText(candidate.value.size) + " KB"))
    // a rejected file leaves the selection alone and warns
    ensures candidate.Some? && !Accepts(kind, candidate.value.mime) ==>
      && w.file == v.file && w.previewUrl == v.previewUrl
      && (kind != PdfToPng ==>
            StartsWith(w.statusMessage, "Error:") &&
            w.pendingClears == v.pendingClears + [AdvisoryDelay] && w.alerts == v.alerts)
      && (kind == PdfToPng ==> w.alerts == v.alerts + [PdfRejectAlert] && w.statusMessage == v.statusMessage)
    // a cancelled picker is ignored by the image pages and warned about by the PDF page
    ensures candidate.None? ==>
      w == (if kind == PdfToPng then v.(alerts := v.alerts + [PdfRejectAlert]) else v)
  {
    match candidate
    case None =>
      if kind == PdfToPng then v.(alerts := v.alerts + [PdfRejectAlert]) else v
    case Some(f) =>
      if Accepts(kind, f.mime) then
        if kind == PdfToPng then v.(file := candidate)
        else
          v.(file := candidate,
             previewUrl := if kind == RemoveBackground then candidate else v.previewUrl,
             statusMessage := SelectedMessage(f))
      else if kind == PdfToPng then v.(alerts := v.alerts + [PdfRejectAlert])
      else
        v.(statusMessage := RejectMessage(kind), pendingClears := v.pendingClears + [AdvisoryDelay])
  }

  /** Choosing the same acceptable file twice ends where choosing it once does. */
  lemma AcquireIdempotent(kind: Kind, v: View, f: FileInfo)
    requires Accepts(kind, f.mime)
    ensures Acquire(kind, Acquire(kind, v, Some(f)), Some(f)) == Acquire(kind, v, Some(f))
  {
  }

  /** The held file depends on the last accepted choice only: choosing replaces, never accumulates. */
  lemma AcquireReplaces(kind: Kind, v: View, f: FileInfo, g: FileInfo)
    requires Accepts(kind, g.mime)
    ensures Acquire(kind, Acquire(kind, v, Some(f)), Some(g)).file == Some(g)
    ensures Acquire(kind, Acquire(kind, v, Some(f)), Some(g)).file == Acquire(kind, v, Some(g)).file
  {
  }

  // ---------------------------------------------------------------------
  // The drag-and-drop protocol of the image pages

  function DragEnter(kind: Kind, v: View): (w: View)
    requires HasDropArea(kind)
    ensures Wf(kind, v) ==> Wf(kind, w)
    ensures w.isDragging && w.(isDragging := v.isDragging) == v
  {
    v.(isDragging := true)
  }

  /** `handleDragOver` writes the flag only when it is not yet set. */
  function DragOver(kind: Kind, v: View): (w: View)
    requires HasDropArea(kind)
    ensures Wf(kind, v) ==> Wf(kind, w)
    ensures w.isDragging && w.(isDragging := v.isDragging) == v
    ensures v.isDragging ==> w == v
  {
    if !v.isDragging then v.(isDragging := true) else v
  }

  lemma DragOverIdempotent(kind: Kind, v: View)
    requires HasDropArea(kind)
    ensures DragOver(kind, DragOver(kind, v)) == DragOver(kind, v)
    ensures DragOver(kind, DragEnter(kind, v)) == DragEnter(kind, v)
  {
  }

  /** `relatedInside`: the element the pointer moved to lies within the drop area. */
  function DragLeave(kind: Kind, v: View, relatedInside: bool): (w: View)
    requires HasDropArea(kind)
    ensures Wf(kind, v) ==> Wf(kind, w)
    ensures w.isDragging <==> v.isDragging && relatedInside
    ensures w.(isDragging := v.isDragging) == v
  {
    if relatedInside then v else v.(isDragging := false)
  }

  /** `handleDrop`: the flag is cleared, and the first dropped file, if any, is acquired. */
  function Drop(kind: Kind, v: View, files: seq<FileInfo>): (w: View)
    requires HasDropArea(kind)
    ensures Wf(kind, v) ==> Wf(kind, w)
    ensures !w.isDragging
    ensures files == [] ==> w == v.(isDragging := false)
  {
    var cleared := v.(isDragging := false);
    if |files| > 0 then Acquire(kind, cleared, Some(files[0])) else cleared
  }

  /** Dropping files acquires the first exactly as the picker would, and ignores the rest. */
  lemma DropIsAcquireOfFirst(kind: Kind, v: View, files: seq<FileInfo>)
    requires HasDropArea(kind) && |files| > 0
    ensures Drop(kind, v, files) == Acquire(kind, v, Some(files[0])).(isDragging := false)
    ensures forall more :: Drop(kind, v, files + more) == Drop(kind, v, files)
  {
    forall more ensures Drop(kind, v, files + more) == Drop(kind, v, files) {
      assert (files + more)[0] == files[0];
    }
  }

  /** A drag that enters, wanders over nested children and drops ends with the flag cleared. */
  lemma DragLifecycle(kind: Kind, v: View, files: seq<FileInfo>)
    requires HasDropArea(kind)
    ensures DragEnter(kind, v).isDragging
    ensures DragLeave(kind, DragOver(kind, DragEnter(kind, v)), true).isDragging
    ensures !DragLeave(kind, DragEnter(kind, v), false).isDragging
    ensures !Drop(kind, DragLeave(kind, DragEnter(kind, v), true), files).isDragging
  {
  }

  // ---------------------------------------------------------------------
  // Clearing the selection (RemoveBg only)

  function Clear(kind: Kind, v: View): (w: View)
    requires kind == RemoveBackground
    ensures Wf(kind, v) ==> Wf(kind, w)
    ensures w.file.None? && w.previewUrl.None? && w.statusMessage == ""
    ensures w.(file := v.file, previewUrl := v.previewUrl, statusMessage := v.statusMessage) == v
  {
    v.(file := None, previewUrl := None, statusMessage := "")
  }

  /** After a clear the page holds no file, so pressing submit sends nothing and only advises. */
  lemma SubmitAfterClearSendsNothing(v: View)
    requires !v.loading
    ensures var w := Submit(RemoveBackground, Clear(RemoveBackground, v));
      && w.requests == v.requests && !w.loading && !SubmitEnabled(w)
      && w.statusMessage == NoFileText && w.pendingClears == v.pendingClears + [AdvisoryDelay]
  {
  }

  // ---------------------------------------------------------------------
  // Submission: the synchronous part of `handleSubmit`, up to the `fetch`

  /**
   * The page's only guard against a second submission is its disabled
   * button, so a submission starts only while nothing is loading.
   */
  function Submit(kind: Kind, v: View): (w: View)
    requires !v.loading
    ensures Wf(kind, v) ==> Wf(kind, w)
    ensures Grows(v, w) && w.file == v.file && w.previewUrl == v.previewUrl
    ensures w.isDragging == v.isDragging && w.downloads == v.downloads
    // with no file: no request, `loading` stays false, only advice
    ensures v.file.None? ==>
      && w.requests == v.requests && !w.loading
      && (kind == PdfToPng ==> w.alerts == v.alerts + [NoFileText] && w.statusMessage == v.statusMessage)
      && (kind != PdfToPng ==>
            w.statusMessage == NoFileText && w.pendingClears == v.pendingClears + [AdvisoryDelay] &&
            w.alerts == v.alerts)
    // with a file: exactly one POST of that file to the page's endpoint
    ensures v.file.Some? ==>
      && w.requests == v.requests + [Request(Endpoint(kind), FieldName(kind), v.file.value)]
      && w.loading && w.pendingClears == v.pendingClears && w.alerts == v.alerts
      && w.statusMessage == (if kind == RemoveBackground then RemoveBgProgress else v.statusMessage)
  {
    match v.file
    case None =>
      if kind == PdfToPng then v.(alerts := v.alerts + [NoFileText])
      else v.(statusMessage := NoFileText, pendingClears := v.pendingClears + [AdvisoryDelay])
    case Some(f) =>
      var started := v.(loading := true, requests := v.requests + [Request(Endpoint(kind), FieldName(kind), f)]);
      if kind == RemoveBackground then started.(statusMessage := RemoveBgProgress) else started
  }

  /** An enabled button issues a request, and disables itself until the request completes. */
  lemma EnabledSubmitIssuesOneRequest(kind: Kind, v: View)
    requires SubmitEnabled(v)
    ensures |Submit(kind, v).requests| == |v.requests| + 1
    ensures Submit(kind, v).requests[|v.requests|].file == v.file.value
    ensures !SubmitEnabled(Submit(kind, v))
  {
  }

  /** The file the in-flight request carries: the one held when the button was pressed. */
  function InFlight(v: View): FileInfo
    requires |v.requests| > 0
  {
    v.requests[|v.requests| - 1].file
  }

  // ---------------------------------------------------------------------
  // Completion: the `await fetch` and what follows it

  function Complete(kind: Kind, v: View, outcome: Outcome): (w: View)
    requires v.loading && |v.requests| > 0
    ensures Wf(kind, v) ==> Wf(kind, w)
    // `finally`: the button is released whatever happened
    ensures !w.loading
    ensures Grows(v, w) && w.requests == v.requests
    ensures w.file == v.file && w.previewUrl == v.previewUrl && w.isDragging == v.isDragging
    // exactly one download on success, named by the page's rule from the submitted file
    ensures outcome.Ok? ==>
      w.downloads == v.downloads + [Download(OutputName(kind, InFlight(v).name), outcome.body)]
    ensures !outcome.Ok? ==> w.downloads == v.downloads
    // the image pages report every outcome and schedule its clearing after 5000 ms
    ensures kind != PdfToPng ==>
      && w.pendingClears == v.pendingClears + [OutcomeDelay] && w.alerts == v.alerts
      && (outcome.Ok? ==> w.statusMessage == SuccessMessage(kind))
      && (!outcome.Ok? ==> w.statusMessage == FailureMessage(kind, outcome))
    // the PDF page alerts failures only
    ensures kind == PdfToPng ==>
      && w.pendingClears == v.pendingClears && w.statusMessage == v.statusMessage
      && (outcome.Ok? ==> w.alerts == v.alerts)
      && (!outcome.Ok? ==> w.alerts == v.alerts + [FailureAlert(outcome)])
  {
    match outcome
    case Ok(body) =>
      var done := Download(OutputName(kind, InFlight(v).name), body);
      if kind == PdfToPng then v.(loading := false, downloads := v.downloads + [done])
      else
        v.(loading := false, downloads := v.downloads + [done],
           statusMessage := SuccessMessage(kind), pendingClears := v.pendingClears + [OutcomeDelay])
    case _ =>
      if kind == PdfToPng then v.(loading := false, alerts := v.alerts + [FailureAlert(outcome)])
      else
        v.(loading := false,
           statusMessage := FailureMessage(kind, outcome), pendingClears := v.pendingClears + [OutcomeDelay])
  }

  /**
   * A whole submission from an enabled button: one request, at most one
   * download, the button enabled again afterwards (the file is still held).
   */
  lemma SubmissionReleasesLoading(kind: Kind, v: View, outcome: Outcome)
    requires SubmitEnabled(v)
    ensures var w := Complete(kind, Submit(kind, v), outcome);
      && !w.loading && SubmitEnabled(w) && w.file == v.file
      && w.requests == v.requests + [Request(Endpoint(kind), FieldName(kind), v.file.value)]
      && |w.downloads| == |v.downloads| + (if outcome.Ok? then 1 else 0)
      && (outcome.Ok? ==> w.downloads[|v.downloads|] == Download(OutputName(kind, v.file.value.name), outcome.body))
  {
    var s := Submit(kind, v);
    assert InFlight(s) == v.file.value;
  }

  /**
   * The download is named after the file that was submitted, even if the
   * user chose another file while the request was in flight.
   */
  lemma DownloadNamedAfterSubmittedFile(kind: Kind, v: View, f: FileInfo, g: FileInfo, body: seq<byte>)
    requires !v.loading && v.file == Some(f) && HasDropArea(kind) && Accepts(kind, g.mime)
    ensures var w := Complete(kind, Acquire(kind, Submit(kind, v), Some(g)), Ok(body));
      w.file == Some(g) && w.downloads[|v.downloads|].name == OutputName(kind, f.name)
  {
    var s := Submit(kind, v);
    var a := Acquire(kind, s, Some(g));
    assert a.requests == s.requests;
    assert InFlight(a) == f;
  }

  // ---------------------------------------------------------------------
  // Timers

  /** The scheduled clear at index `i` fires: the status text is emptied, whatever it is by then. */
  function FireClear(kind: Kind, v: View, i: nat): (w: View)
    requires i < |v.pendingClears|
    ensures Wf(kind, v) ==> Wf(kind, w)
    ensures w.statusMessage == "" && |w.pendingClears| == |v.pendingClears| - 1
    ensures w.pendingClears == v.pendingClears[..i] + v.pendingClears[i + 1..]
    ensures w.(statusMessage := v.statusMessage, pendingClears := v.pendingClears) == v
  {
    v.(statusMessage := "", pendingClears := v.pendingClears[..i] + v.pendingClears[i + 1..])
  }

  /**
   * Scheduled clears are never cancelled: the 3000 ms clear of a rejected
   * file survives a later successful choice and can blank its message.
   */
  lemma StaleClearBlanksNewerMessage(kind: Kind, v: View, bad: FileInfo, good: FileInfo)
    requires HasDropArea(kind) && !Accepts(kind, bad.mime) && Accepts(kind, good.mime)
    ensures var w := Acquire(kind, Acquire(kind, v, Some(bad)), Some(good));
      && w.statusMessage == SelectedMessage(good)
      && w.pendingClears == v.pendingClears + [AdvisoryDelay]
      && FireClear(kind, w, |v.pendingClears|).statusMessage == ""
      && FireClear(kind, w, |v.pendingClears|).file == Some(good)
  {
  }
}
