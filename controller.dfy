/**
 * The upload/convert controller as the pages run it: one component whose
 * state fields the event handlers update in place through their setters.
 * One class serves the three pages; `kind` says which. Each handler is
 * proved to perform the transition `Workflow` defines for its event.
 */
module UploadController {
  import opened Wrappers
  import opened UploadRules
  import opened Workflow

  class Controller {
    const kind: Kind

    // the component state (`useState` fields)
    var file: Option<FileInfo>
    var previewUrl: Option<FileInfo>
    var loading: bool
    var isDragging: bool
    var statusMessage: string

    // what the handlers hand to the browser: scheduled clears, alerts, POSTs, downloads
    var pendingClears: seq<nat>
    var alerts: seq<string>
    var requests: seq<Request>
    var downloads: seq<Download>

    function Snapshot(): View
      reads this
    {
      View(file, previewUrl, loading, isDragging, statusMessage, pendingClears, alerts, requests, downloads)
    }

    ghost predicate Valid()
      reads this
    {
      Wf(kind, Snapshot())
    }

    /** The page mounts with nothing chosen. */
    constructor (kind: Kind)
      ensures this.kind == kind && Valid()
      ensures Snapshot() == Initial()
    {
      this.kind := kind;
      file, previewUrl := None, None;
      loading, isDragging := false, false;
      statusMessage := "";
      pendingClears, alerts, requests, downloads := [], [], [], [];
    }

    /** The submit button is enabled. */
    function CanSubmit(): (enabled: bool)
      reads this
      ensures enabled == SubmitEnabled(Snapshot())
    {
      file.Some? && !loading
    }

    /** `processFile` (image pages) or `handleFileChange` (PDF page) on the picked or dropped file. */
    method Acquire(candidate: Option<FileInfo>)
      requires Valid()
      modifies this
      ensures Valid()
      ensures Snapshot() == Workflow.Acquire(kind, old(Snapshot()), candidate)
    {
      if candidate.Some? && Accepts(kind, candidate.value.mime) {
        file := candidate;
        if kind == RemoveBackground {
          previewUrl := candidate;
        }
        if kind != PdfToPng {
          statusMessage := SelectedMessage(candidate.value);
        }
      } else if kind == PdfToPng {
        alerts := alerts + [PdfRejectAlert];
      } else if candidate.Some? {
        statusMessage := RejectMessage(kind);
        pendingClears := pendingClears + [AdvisoryDelay];
      }
    }

    method DragEnter()
      requires Valid() && HasDropArea(kind)
      modifies this
      ensures Valid()
      ensures Snapshot() == Workflow.DragEnter(kind, old(Snapshot()))
    {
      isDragging := true;
    }

    method DragOver()
      requires Valid() && HasDropArea(kind)
      modifies this
      ensures Valid()
      ensures Snapshot() == Workflow.DragOver(kind, old(Snapshot()))
    {
      if !isDragging {
        isDragging := true;
      }
    }

    /** `relatedInside`: `dropAreaRef.current.contains(e.relatedTarget)`. */
    method DragLeave(relatedInside: bool)
      requires Valid() && HasDropArea(kind)
      modifies this
      ensures Valid()
      ensures Snapshot() == Workflow.DragLeave(kind, old(Snapshot()), relatedInside)
    {
      if !relatedInside {
        isDragging := false;
      }
    }

    /** `files`: the transferred file list, `e.dataTransfer.files`. */
    method Drop(files: seq<FileInfo>)
      requires Valid() && HasDropArea(kind)
      modifies this
      ensures Valid()
      ensures Snapshot() == Workflow.Drop(kind, old(Snapshot()), files)
    {
      isDragging := false;
      if |files| > 0 {
        Acquire(Some(files[0]));
      }
    }

    method Clear()
      requires Valid() && kind == RemoveBackground
      modifies this
      ensures Valid()
      ensures Snapshot() == Workflow.Clear(kind, old(Snapshot()))
    {
      file := None;
      previewUrl := None;
      statusMessage := "";
    }

    /**
     * The part of `handleSubmit` before the `await`. `issued` tells whether
     * the POST went out; a submission starts only while nothing is loading.
     */
    method StartSubmit() returns (issued: bool)
      requires Valid() && !loading
      modifies this
      ensures Valid()
      ensures issued == old(file).Some?
      ensures Snapshot() == Workflow.Submit(kind, old(Snapshot()))
    {
      if file.None? {
        if kind == PdfToPng {
          alerts := alerts + [NoFileText];
        } else {
          statusMessage := NoFileText;
          pendingClears := pendingClears + [AdvisoryDelay];
        }
        return false;
      }
      loading := true;
      if kind == RemoveBackground {
        statusMessage := RemoveBgProgress;
      }
      requests := requests + [Request(Endpoint(kind), FieldName(kind), file.value)];
      issued := true;
    }

    /** The rest of `handleSubmit`, once the request has ended with `outcome`. */
    method Complete(outcome: Outcome)
      requires Valid() && loading
      modifies this
      ensures Valid()
      ensures Snapshot() == Workflow.Complete(kind, old(Snapshot()), outcome)
    {
      var submitted := requests[|requests| - 1].file;
      match outcome {
        case Ok(body) =>
          downloads := downloads + [Download(OutputName(kind, submitted.name), body)];
          if kind != PdfToPng {
            statusMessage := SuccessMessage(kind);
          }
        case _ =>
          if kind == PdfToPng {
            alerts := alerts + [FailureAlert(outcome)];
          } else {
            statusMessage := FailureMessage(kind, outcome);
          }
      }
      // finally
      loading := false;
      if kind != PdfToPng {
        pendingClears := pendingClears + [OutcomeDelay];
      }
    }

    /** The scheduled clear at index `i` fires. */
    method FireClear(i: nat)
      requires Valid() && i < |pendingClears|
      modifies this
      ensures Valid()
      ensures Snapshot() == Workflow.FireClear(kind, old(Snapshot()), i)
    {
      statusMessage := "";
      pendingClears := pendingClears[..i] + pendingClears[i + 1..];
    }
  }

  /**
   * A session on the RemoveBg page: a wrong file is refused, an image is
   * accepted, a submission downloads `<stem>_no_bg.png` and frees the button.
   */
  method RemoveBgSession(body: seq<byte>)
  {
    var page := new Controller(RemoveBackground);
    var notes := FileInfo("notes.txt", 10, "text/plain");
    assert !Accepts(RemoveBackground, notes.mime) by {
      assert notes.mime[0] == 't';
    }
    page.Acquire(Some(notes));
    assert page.file.None? && page.pendingClears == [3000];
    var photo := FileInfo("me.selfie.png", 2048, "image/png");
    assert Accepts(RemoveBackground, photo.mime) by {
      assert photo.mime[..6] == "image/";
    }
    page.Acquire(Some(photo));
    assert page.file == Some(photo) && page.previewUrl == Some(photo);
    var issued := page.StartSubmit();
    assert issued && page.loading && !page.CanSubmit();
    page.Complete(Ok(body));
    RemoveBgNameExamples();
    assert page.downloads == [Download("me_no_bg.png", body)];
    assert !page.loading && page.CanSubmit();
  }
}
