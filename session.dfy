/**
 * The capture session (tm_capture_page.h lines 86-96 and 174-270): the buffer
 * `captures`, the flags `isRecording` and `pendingFrame`, the two timers, and
 * the operations that drive them.
 *
 * Every `async` function is split at its suspension points: each method below
 * is one callback that runs to completion, so an interleaving of timer
 * firings, clicks, fetch completions and archive completions is a sequence of
 * method calls.
 */
module Session {
  import opened Types
  import opened Interval
  import opened Archive

  const StatusIdle := "Idle"
  const StatusRecording := "Recording..."
  const StatusCameraError := "Camera error"
  const StatusPreparing := "Preparing ZIP..."
  const StatusDownloadReady := "Download ready"
  const StatusZipFailed := "ZIP failed"

  /** How the awaited part of a `takeFrame` call ends. */
  datatype FrameOutcome =
    | FetchFailed
      // `fetch` rejected or the response was not ok
    | Fetched(raw: RawFrame, resized: Option<Frame>)
      // `resized` is what `resizeTo96` yields, `None` when decoding or encoding
      // threw; it is only looked at when the call was `takeFrame(true)`

  /** How `zip.generateAsync` settles; a rejection may carry an empty message. */
  datatype GenerateOutcome = Generated | GenerateFailed(message: string)

  /** An archive handed to the browser's download, under its file name. */
  datatype Download = Download(fileName: string, archive: Zip)

  /** The status a failed export shows: the error's message, or a generic one when it has none. */
  function ExportFailureStatus(message: string): (status: string)
    ensures status != ""
    ensures message != "" ==> status == message
    ensures message == "" ==> status == StatusZipFailed
  {
    if message != "" then message else StatusZipFailed
  }

  /** Every field of a session, as one value. */
  datatype State = State(
    captures: seq<Frame>,
    isRecording: bool,
    pendingFrame: bool,
    pendingSave: bool,
    status: string,
    intervalControl: JsNumber,
    recordingTimer: Option<JsNumber>,
    previewTimerArmed: bool,
    preview: Option<RawFrame>,
    exports: seq<Zip>,
    idleResets: nat,
    downloads: seq<Download>,
    started: nat,
    completed: nat)

  /** Every queued and every downloaded archive has the shape `buildZip` gives it. */
  ghost predicate ArchivesWellFormed(exports: seq<Zip>, downloads: seq<Download>) {
    (forall k :: 0 <= k < |exports| ==> WellFormedArchive(exports[k])) &&
    (forall k :: 0 <= k < |downloads| ==> WellFormedArchive(downloads[k].archive))
  }

  class CaptureSession {
    /** The recorded frames, oldest first. */
    var captures: seq<Frame>
    var isRecording: bool
    /** A `takeFrame` call is between its check of the guard and its `finally`. */
    var pendingFrame: bool
    /** The `save` argument of that call. */
    var pendingSave: bool
    /** The text of the status label. */
    var status: string
    /** The number the interval control holds (`Number(intervalInput.value)`). */
    var intervalControl: JsNumber
    /** The interval the recording timer is armed with; `None` once cleared. */
    var recordingTimer: Option<JsNumber>
    var previewTimerArmed: bool
    /** The frame the preview image shows. */
    var preview: Option<RawFrame>
    /** Archives whose `generateAsync` is awaited by a `stopRecording` call. */
    var exports: seq<Zip>
    /** `setTimeout(() => setStatus("Idle"), 1200)` callbacks not yet run. */
    var idleResets: nat
    /** Archives handed to the download link, oldest first. */
    var downloads: seq<Download>
    /** Fetches issued and fetches settled since page load. */
    ghost var started: nat
    ghost var completed: nat

    ghost function Snapshot(): State
      reads this
    {
      State(captures, isRecording, pendingFrame, pendingSave, status, intervalControl,
            recordingTimer, previewTimerArmed, preview, exports, idleResets, downloads,
            started, completed)
    }

    /**
     * The session invariant. Its last two lines say that at most one fetch is
     * in flight: exactly one while `pendingFrame` holds, none otherwise.
     */
    ghost predicate Valid()
      reads this
    {
      (recordingTimer.Some? <==> isRecording) &&
      (recordingTimer.Some? ==> IsValidInterval(recordingTimer.value)) &&
      ArchivesWellFormed(exports, downloads) &&
      GuardValid()
    }

    /** The part of the invariant that the in-flight guard keeps. */
    ghost predicate GuardValid()
      reads this
    {
      (!pendingFrame ==> !pendingSave) &&
      started == completed + (if pendingFrame then 1 else 0)
    }

    /** The page as loaded, before `startPreviewLoop` runs. */
    constructor ()
      ensures Valid()
      ensures Snapshot() == State([], false, false, false, StatusIdle, Finite(DefaultInterval),
                                  None, false, None, [], 0, [], 0, 0)
    {
      captures := [];
      isRecording := false;
      pendingFrame := false;
      pendingSave := false;
      status := StatusIdle;
      intervalControl := Finite(DefaultInterval);
      recordingTimer := None;
      previewTimerArmed := false;
      preview := None;
      exports := [];
      idleResets := 0;
      downloads := [];
      started := 0;
      completed := 0;
    }

    /**
     * `takeFrame(save)` up to its first `await`: a no-op while a call is
     * pending; otherwise it claims the guard and issues the fetch.
     */
    method BeginFrame(save: bool) returns (issued: bool)
      requires GuardValid()
      modifies this
      ensures GuardValid()
      ensures issued == !old(pendingFrame)
      ensures pendingFrame
      ensures Snapshot() == if issued
        then old(Snapshot()).(pendingFrame := true, pendingSave := save, started := old(started) + 1)
        else old(Snapshot())
    {
      if pendingFrame {
        return false;
      }
      pendingFrame := true;
      pendingSave := save;
      started := started + 1;
      return true;
    }

    /**
     * The rest of the pending `takeFrame`: show the fetched frame, append the
     * resized one when the call was `takeFrame(true)`, report a failure as
     * "Camera error", and release the guard in every case. It does not look
     * at `isRecording`: a frame whose fetch was issued before a stop is still
     * appended.
     */
    method CompleteFrame(outcome: FrameOutcome)
      requires Valid() && pendingFrame
      modifies this
      ensures Valid()
      ensures !pendingFrame && completed == old(completed) + 1
      ensures isRecording == old(isRecording)
      ensures captures == (
        if old(pendingSave) && outcome.Fetched? && outcome.resized.Some?
        then old(captures) + [outcome.resized.value]
        else old(captures))
      ensures status == (
        if outcome.FetchFailed? || (old(pendingSave) && outcome.resized.None?)
        then StatusCameraError
        else old(status))
      ensures Snapshot() == old(Snapshot()).(
        captures := captures, status := status,
        preview := if outcome.Fetched? then Some(outcome.raw) else old(preview),
        pendingFrame := false, pendingSave := false, completed := old(completed) + 1)
    {
      match outcome {
        case FetchFailed =>
          status := StatusCameraError;
        case Fetched(raw, resized) =>
          preview := Some(raw);
          if pendingSave {
            match resized {
              case Some(frame) =>
                captures := captures + [frame];
              case None =>
                status := StatusCameraError;
            }
          }
      }
      pendingFrame := false;
      pendingSave := false;
      completed := completed + 1;
    }

    /** `startPreviewLoop`: arm the preview timer and issue `takeFrame(false)`. */
    method StartPreviewLoop()
      requires Valid()
      modifies this
      ensures Valid()
      ensures Snapshot() == if old(pendingFrame)
        then old(Snapshot()).(previewTimerArmed := true)
        else old(Snapshot()).(previewTimerArmed := true, pendingFrame := true,
                              pendingSave := false, started := old(started) + 1)
    {
      previewTimerArmed := true;
      var _ := BeginFrame(false);
    }

    /**
     * The preview timer fires: it issues `takeFrame(false)` only when not
     * recording, and never touches the buffer.
     */
    method PreviewTick()
      requires Valid() && previewTimerArmed
      modifies this
      ensures Valid()
      ensures captures == old(captures)
      ensures Snapshot() == if old(isRecording) || old(pendingFrame)
        then old(Snapshot())
        else old(Snapshot()).(pendingFrame := true, pendingSave := false, started := old(started) + 1)
    {
      if !isRecording {
        var _ := BeginFrame(false);
      }
    }

    /** The recording timer fires (it fires only while armed): `takeFrame(true)`. */
    method RecordingTick()
      requires Valid() && recordingTimer.Some?
      modifies this
      ensures Valid()
      ensures Snapshot() == if old(pendingFrame)
        then old(Snapshot())
        else old(Snapshot()).(pendingFrame := true, pendingSave := true, started := old(started) + 1)
    {
      var _ := BeginFrame(true);
    }

    /** The operator edits the interval control; a running timer keeps its interval. */
    method EditInterval(requested: JsNumber)
      requires Valid()
      modifies this
      ensures Valid()
      ensures Snapshot() == old(Snapshot()).(intervalControl := requested)
    {
      intervalControl := requested;
    }

    /**
     * `startRecording`: a no-op while recording. Otherwise it empties the
     * buffer, resolves the interval and writes it back into the control,
     * issues `takeFrame(true)` (swallowed by the guard if a preview fetch is
     * pending) and arms the recording timer.
     */
    method StartRecording()
      requires Valid()
      modifies this
      ensures Valid()
      ensures old(isRecording) ==> Snapshot() == old(Snapshot())
      ensures !old(isRecording) ==>
        isRecording && captures == [] && status == StatusRecording &&
        intervalControl == EffectiveInterval(old(intervalControl)) &&
        recordingTimer == Some(intervalControl) && pendingFrame
      ensures !old(isRecording) ==> Snapshot() == old(Snapshot()).(
        captures := [], isRecording := true, status := StatusRecording,
        intervalControl := EffectiveInterval(old(intervalControl)),
        recordingTimer := Some(EffectiveInterval(old(intervalControl))),
        pendingFrame := true,
        pendingSave := old(pendingSave) || !old(pendingFrame),
        started := if old(pendingFrame) then old(started) else old(started) + 1)
    {
      if isRecording {
        return;
      }
      captures := [];
      var interval := EffectiveInterval(intervalControl);
      intervalControl := interval;
      isRecording := true;
      status := StatusRecording;
      var _ := BeginFrame(true);
      recordingTimer := Some(interval);
    }

    /**
     * `stopRecording` up to its `await`: a no-op unless recording. Otherwise
     * it clears the timer; with an empty buffer it shows "Idle" and attempts
     * no export. Otherwise it builds the archive: a rejection by `buildZip`
     * is caught at once (status = the error's message, buffer emptied, the
     * return to "Idle" scheduled); an archive is queued for `generateAsync`.
     */
    method StopRecording(zipLoaded: bool)
      requires Valid()
      modifies this
      ensures Valid()
      ensures old(!isRecording) ==> Snapshot() == old(Snapshot())
      ensures old(isRecording) && old(captures) == [] ==>
        Snapshot() == old(Snapshot()).(isRecording := false, recordingTimer := None, status := StatusIdle)
      ensures old(isRecording) && old(captures) != [] && !zipLoaded ==>
        Snapshot() == old(Snapshot()).(
          isRecording := false, recordingTimer := None, status := "JSZip not loaded",
          captures := [], idleResets := old(idleResets) + 1)
      ensures old(isRecording) && old(captures) != [] && zipLoaded ==>
        |exports| == |old(exports)| + 1 && IsArchiveOf(exports[|exports| - 1], old(captures)) &&
        Snapshot() == old(Snapshot()).(
          isRecording := false, recordingTimer := None, status := StatusPreparing,
          exports := exports) &&
        exports[..|old(exports)|] == old(exports)
    {
      if !isRecording {
        return;
      }
      isRecording := false;
      recordingTimer := None;
      if |captures| == 0 {
        status := StatusIdle;
        return;
      }
      status := StatusPreparing;
      var built := BuildZip(zipLoaded, captures);
      match built
      case Err(message) =>
        status := ExportFailureStatus(message);
        captures := [];
        idleResets := idleResets + 1;
      case Ok(zip) =>
        exports := exports + [zip];
    }

    /**
     * The awaited archive `exports[k]` settles: on success it is downloaded as
     * `tm_captures_<epochMillis>.zip`, on failure the status shows the error;
     * either way the buffer is emptied and the return to "Idle" scheduled.
     */
    method CompleteExport(k: nat, outcome: GenerateOutcome, epochMillis: nat)
      requires Valid() && k < |exports|
      modifies this
      ensures Valid()
      ensures captures == []
      ensures exports == old(exports[..k] + exports[k + 1..])
      ensures outcome.Generated? ==>
        downloads == old(downloads) + [Download(ArchiveFileName(epochMillis), old(exports[k]))] &&
        status == StatusDownloadReady
      ensures outcome.GenerateFailed? ==>
        downloads == old(downloads) && status == ExportFailureStatus(outcome.message)
      ensures Snapshot() == old(Snapshot()).(
        captures := [], exports := exports, downloads := downloads, status := status,
        idleResets := old(idleResets) + 1)
    {
      match outcome {
        case Generated =>
          downloads := downloads + [Download(ArchiveFileName(epochMillis), exports[k])];
          status := StatusDownloadReady;
        case GenerateFailed(message) =>
          status := ExportFailureStatus(message);
      }
      captures := [];
      idleResets := idleResets + 1;
      exports := exports[..k] + exports[k + 1..];
    }

    /** A scheduled `setStatus("Idle")` runs, whatever the session is doing by then. */
    method IdleTimerFires()
      requires Valid() && idleResets > 0
      modifies this
      ensures Valid()
      ensures Snapshot() == old(Snapshot()).(status := StatusIdle, idleResets := old(idleResets) - 1)
    {
      status := StatusIdle;
      idleResets := idleResets - 1;
    }
  }
}
