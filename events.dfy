/**
 * Sequences of callbacks driving one capture session: the timers, the two
 * buttons, the interval control, and the settling of fetches and archives.
 * Scenarios at the end follow a session through typical runs.
 */
module Events {
  import opened Types
  import opened Interval
  import opened Archive
  import opened Session

  datatype Event =
    | PreviewTimer
    | RecordingTimer
    | FrameSettles(outcome: FrameOutcome)
    | StartClicked
    | StopClicked(zipLoaded: bool)
    | ExportSettles(k: nat, result: GenerateOutcome, epochMillis: nat)
    | IdleTimer
    | IntervalEdited(requested: JsNumber)

  /**
   * Whether the browser can deliver `e` now: a timer fires only while armed,
   * a fetch or an archive settles only while awaited.
   */
  predicate CanOccur(s: CaptureSession, e: Event)
    reads s
  {
    match e
    case PreviewTimer => s.previewTimerArmed
    case RecordingTimer => s.recordingTimer.Some?
    case FrameSettles(_) => s.pendingFrame
    case ExportSettles(k, _, _) => k < |s.exports|
    case IdleTimer => s.idleResets > 0
    case _ => true
  }

  method Dispatch(s: CaptureSession, e: Event)
    requires s.Valid() && CanOccur(s, e)
    modifies s
    ensures s.Valid()
    ensures s.started - s.completed <= 1
  {
    match e {
      case PreviewTimer => s.PreviewTick();
      case RecordingTimer => s.RecordingTick();
      case FrameSettles(outcome) => s.CompleteFrame(outcome);
      case StartClicked => s.StartRecording();
      case StopClicked(zipLoaded) => s.StopRecording(zipLoaded);
      case ExportSettles(k, outcome, epochMillis) => s.CompleteExport(k, outcome, epochMillis);
      case IdleTimer => s.IdleTimerFires();
      case IntervalEdited(requested) => s.EditInterval(requested);
    }
  }

  /**
   * Delivers the events in order, dropping those that cannot occur at their
   * turn. Each delivered event keeps the invariant (see `Dispatch`), so after
   * every event at most one fetch is in flight, and one exactly while
   * `pendingFrame` holds.
   */
  method Run(s: CaptureSession, events: seq<Event>)
    requires s.Valid()
    modifies s
    ensures s.Valid()
    ensures s.started - s.completed == if s.pendingFrame then 1 else 0
  {
    for i := 0 to |events|
      invariant s.Valid()
    {
      if CanOccur(s, events[i]) {
        Dispatch(s, events[i]);
      }
    }
  }

  /** Recording three ticks whose second fetch fails keeps ticks 1 and 3 and stays recording. */
  method SecondTickFails(raw: RawFrame, f1: Frame, f3: Frame) returns (s: CaptureSession)
    ensures s.Valid()
    ensures s.isRecording && s.captures == [f1, f3] && s.status == StatusCameraError
  {
    s := new CaptureSession();
    s.StartRecording();
    s.CompleteFrame(Fetched(raw, Some(f1)));
    s.RecordingTick();
    s.CompleteFrame(FetchFailed);
    s.RecordingTick();
    s.CompleteFrame(Fetched(raw, Some(f3)));
  }

  /** An interval of 50 is raised to 200, both for the timer and in the control. */
  method ShortIntervalRaised() returns (s: CaptureSession)
    ensures s.Valid()
    ensures s.intervalControl == Finite(200.0) && s.recordingTimer == Some(Finite(200.0))
  {
    s := new CaptureSession();
    s.EditInterval(Finite(50.0));
    s.StartRecording();
  }

  /** Three frames recorded, then stop: one archive with three entries named in order, buffer empty. */
  method ThreeFramesExported(raw: RawFrame, f1: Frame, f2: Frame, f3: Frame, epochMillis: nat)
    returns (s: CaptureSession)
    ensures s.Valid()
    ensures !s.isRecording && s.captures == [] && s.status == StatusDownloadReady
    ensures s.downloads == [Download(ArchiveFileName(epochMillis), [
      Entry("capture_0001.jpg", f1), Entry("capture_0002.jpg", f2), Entry("capture_0003.jpg", f3)])]
  {
    s := new CaptureSession();
    s.StartRecording();
    s.CompleteFrame(Fetched(raw, Some(f1)));
    s.RecordingTick();
    s.CompleteFrame(Fetched(raw, Some(f2)));
    s.RecordingTick();
    s.CompleteFrame(Fetched(raw, Some(f3)));
    assert s.captures == [f1, f2, f3];
    s.StopRecording(true);
    ArchiveOfThree(s.exports[0], f1, f2, f3);
    s.CompleteExport(0, Generated, epochMillis);
  }

  /**
   * A fetch issued before stop still lands in the buffer: the session is
   * idle and yet holds a frame, until the next start empties it.
   */
  method LateFrameAfterStop(raw: RawFrame, f: Frame) returns (s: CaptureSession)
    ensures s.Valid()
    ensures !s.isRecording && s.status == StatusIdle && s.captures == [f] && s.exports == []
  {
    s := new CaptureSession();
    s.StartRecording();
    s.StopRecording(true);
    s.CompleteFrame(Fetched(raw, Some(f)));
  }

  /** One frame recorded, then stop: its archive waits for `generateAsync`, the buffer still holds the frame. */
  method OneFrameQueued(raw: RawFrame, f: Frame) returns (s: CaptureSession)
    ensures fresh(s) && s.Valid()
    ensures !s.isRecording && !s.pendingFrame && s.status == StatusPreparing && s.captures == [f]
    ensures s.exports == [[Entry(EntryName(0), f)]] && s.downloads == []
  {
    s := new CaptureSession();
    s.StartRecording();
    s.CompleteFrame(Fetched(raw, Some(f)));
    s.StopRecording(true);
    ArchiveOfOne(s.exports[0], f);
  }

  /**
   * Start is enabled again while the archive of the previous recording is
   * generated; when that archive settles it empties the buffer of the new
   * recording, so a frame recorded meanwhile is in no archive.
   */
  method RestartDuringExport(raw: RawFrame, f: Frame, g: Frame, epochMillis: nat)
    returns (s: CaptureSession)
    ensures s.Valid()
    ensures s.isRecording && s.captures == []
    ensures |s.downloads| == 1 && s.downloads[0].archive == [Entry(EntryName(0), f)]
  {
    s := OneFrameQueued(raw, f);
    s.StartRecording();
    s.RecordingTick();
    s.CompleteFrame(Fetched(raw, Some(g)));
    assert s.captures == [g];
    s.CompleteExport(0, Generated, epochMillis);
  }
}
