/** The two worker threads of barcodereader.py as sequential traces.

    `LazyVideoStream` answers requests: every `request()` puts a token on
    `request_queue`; `run()` takes one token, reads one frame, marks the
    barcodes in it, stores a resized copy in `self.frame`, puts
    `(frame, found_codes)` on `frame_queue` and calls `task_done()`.

    `VideoStream` reads frames continuously until `abort` is set and collects
    every non-empty list of found codes in `barcodes`.

    Threads and queues are replaced by a trace of events applied in order;
    each `Serve`/`Iterate` event carries the captured frame and what the
    decoder reported for it. */
module VideoStreams {
  import opened Wrappers
  import opened Barcodes
  import Camera

  datatype Resolution = Resolution(width: int, height: int)

  /** An image derived from a marked frame for display: optionally resized
      (`cv2.resize`) and optionally mirrored (`cv2.flip`). */
  datatype Picture = Picture(source: Frame, resizedTo: Option<Resolution>, mirrored: bool)

  /** One `(frame, found_codes)` item put on `frame_queue`; `request` is the
      number of the request it answers, counted from 0. */
  datatype Response = Response(request: nat, frame: Frame, found: seq<Code>)

  datatype Lazy = Lazy(
    requested: nat,              // tokens put on `request_queue`
    served: nat,                 // tokens taken by `run()`
    tasksDone: nat,              // `request_queue.task_done()` calls
    responses: seq<Response>,    // everything put on `frame_queue`, in order
    frame: Option<Picture>,      // `self.frame`, absent before the first answer
    mirror: bool,
    targetResolution: Option<Resolution>)

  datatype LazyEvent =
    | Request
    | SetMirror(mirror: bool)
    | SetTargetResolution(resolution: Option<Resolution>)
    | Serve(captured: Frame, decoded: seq<RawBarcode>)

  /** What `LazyVideoStream(...)` leaves behind: the camera is opened and
      closed once inside the constructor, so a missing camera raises there. */
  datatype Construction =
    | Constructed(stream: Lazy, camera: Camera.Session)
    | ConstructionRaised(error: Camera.CameraError)
    | ConstructionBlocked

  function NewLazy(targetResolution: Option<Resolution>, platform: string, cameraId: int, isOpened: bool,
                   readOks: seq<bool>): (c: Construction)
    ensures !isOpened ==> c == ConstructionRaised(Camera.IOError(cameraId))
    ensures c.Constructed? <==> isOpened && true in readOks
    ensures c.Constructed? ==> c.camera.captures == 1 && c.camera.releases == 1
    ensures c.Constructed? ==> c.camera.device == Camera.CaptureIndex(platform, cameraId)
    ensures c.Constructed? ==> c.stream.requested == 0 && c.stream.responses == []
                               && !c.stream.mirror && c.stream.targetResolution == targetResolution
  {
    var session := Camera.WithCamera(platform, cameraId, isOpened, readOks, false);
    match session.outcome
    case Raised(e) => ConstructionRaised(e)
    case Blocked => ConstructionBlocked
    case Completed => Constructed(Lazy(0, 0, 0, [], None, false, targetResolution), session)
  }

  /** The bookkeeping `run()` keeps: every token taken has been answered
      exactly once and marked done, and answers are in request order. */
  ghost predicate Valid(s: Lazy) {
    && s.served <= s.requested
    && s.tasksDone == s.served
    && |s.responses| == s.served
    && forall i :: 0 <= i < |s.responses| ==> s.responses[i].request == i
  }

  /** One pass of the `while True` loop in `LazyVideoStream.run`. */
  function ServeRequest(s: Lazy, captured: Frame, decoded: seq<RawBarcode>): (t: Lazy)
    requires s.served < s.requested
    ensures t.requested == s.requested && t.served == s.served + 1 && t.tasksDone == s.tasksDone + 1
    ensures s.responses <= t.responses && |t.responses| == |s.responses| + 1
    ensures var answer := t.responses[|s.responses|];
            && answer.request == s.served
            && answer.frame.capture == captured.capture
            && answer.frame.marks == captured.marks + AllMarks(decoded, PolylineOnly)
            && NoDuplicates(answer.found)
            && (forall c :: c in answer.found <==> c in Codes(decoded))
            && answer.found == FoundCodes(Codes(decoded))
            && FirstOccurrenceOrder(answer.found, Codes(decoded))
            && t.frame == Some(Picture(answer.frame, s.targetResolution, false))
    ensures t.mirror == s.mirror && t.targetResolution == s.targetResolution
  {
    var marked := Frame(captured.capture, captured.marks + AllMarks(decoded, PolylineOnly));
    var found := FoundCodes(Codes(decoded));
    FoundCodesInOrder(Codes(decoded));
    s.(served := s.served + 1,
       tasksDone := s.tasksDone + 1,
       responses := s.responses + [Response(s.served, marked, found)],
       frame := Some(Picture(marked, s.targetResolution, false)))
  }

  function LazyStep(s: Lazy, e: LazyEvent): Lazy {
    match e
    case Request => s.(requested := s.requested + 1)
    case SetMirror(m) => s.(mirror := m)
    case SetTargetResolution(r) => s.(targetResolution := r)
    case Serve(captured, decoded) =>
      if s.served < s.requested then ServeRequest(s, captured, decoded)
      else s   // `request_queue.get()` blocks: nothing happens
  }

  function RunLazy(s: Lazy, trace: seq<LazyEvent>): Lazy
    decreases |trace|
  {
    if |trace| == 0 then s else RunLazy(LazyStep(s, trace[0]), trace[1..])
  }

  function CountRequests(trace: seq<LazyEvent>): nat {
    if |trace| == 0 then 0 else (if trace[0].Request? then 1 else 0) + CountRequests(trace[1..])
  }

  /** Every trace keeps the request/response discipline: one answer and one
      `task_done` per token taken, answers in request order, and never more
      answers than requests. */
  lemma {:induction false} LazyTraceValid(s: Lazy, trace: seq<LazyEvent>)
    requires Valid(s)
    ensures Valid(RunLazy(s, trace))
    ensures RunLazy(s, trace).requested == s.requested + CountRequests(trace)
    ensures |RunLazy(s, trace).responses| <= s.requested + CountRequests(trace)
    ensures s.responses <= RunLazy(s, trace).responses
    decreases |trace|
  {
    if |trace| > 0 {
      var t := LazyStep(s, trace[0]);
      assert Valid(t);
      LazyTraceValid(t, trace[1..]);
    }
  }

  /** The same trace without any `mirror` assignment. */
  function WithoutMirror(trace: seq<LazyEvent>): (r: seq<LazyEvent>)
    ensures forall i :: 0 <= i < |r| ==> !r[i].SetMirror?
  {
    if |trace| == 0 then []
    else if trace[0].SetMirror? then WithoutMirror(trace[1..])
    else [trace[0]] + WithoutMirror(trace[1..])
  }

  /** Everything a consumer of the stream can observe: `mirror` itself aside. */
  function Observable(s: Lazy): (nat, nat, nat, seq<Response>, Option<Picture>, Option<Resolution>) {
    (s.requested, s.served, s.tasksDone, s.responses, s.frame, s.targetResolution)
  }

  /** `run()` never reads `mirror`: whatever it is set to, and whenever, the
      answers and `self.frame` are those of a run that never touches it. */
  lemma {:induction false} MirrorNeverConsulted(s: Lazy, m: bool, trace: seq<LazyEvent>)
    ensures Observable(RunLazy(s, trace)) == Observable(RunLazy(s.(mirror := m), WithoutMirror(trace)))
    decreases |trace|
  {
    if |trace| > 0 {
      var e := trace[0];
      if e.SetMirror? {
        MirrorNeverConsulted(LazyStep(s, e), m, trace[1..]);
        assert LazyStep(s, e).(mirror := m) == s.(mirror := m);
      } else {
        MirrorNeverConsulted(LazyStep(s, e), m, trace[1..]);
        assert LazyStep(s, e).(mirror := m) == LazyStep(s.(mirror := m), e);
        assert WithoutMirror(trace)[1..] == WithoutMirror(trace[1..]);
      }
    }
  }

  /** The same trace with only requests and serves left. */
  function OnlyRequestsAndServes(trace: seq<LazyEvent>): seq<LazyEvent> {
    if |trace| == 0 then []
    else if trace[0].Request? || trace[0].Serve? then [trace[0]] + OnlyRequestsAndServes(trace[1..])
    else OnlyRequestsAndServes(trace[1..])
  }

  /** `target_resolution` only changes `self.frame`: the items put on
      `frame_queue` are the same whatever the settings. */
  lemma {:induction false} SettingsDoNotChangeAnswers(s: Lazy, m: bool, r: Option<Resolution>, trace: seq<LazyEvent>)
    ensures RunLazy(s, trace).responses
         == RunLazy(s.(mirror := m, targetResolution := r), OnlyRequestsAndServes(trace)).responses
    ensures RunLazy(s, trace).served
         == RunLazy(s.(mirror := m, targetResolution := r), OnlyRequestsAndServes(trace)).served
    decreases |trace|
  {
    if |trace| > 0 {
      var e := trace[0];
      var t := LazyStep(s, e);
      var s' := s.(mirror := m, targetResolution := r);
      if e.Request? || e.Serve? {
        var t' := LazyStep(s', e);
        SettingsDoNotChangeAnswers(t, m, r, trace[1..]);
        assert t'.(mirror := m, targetResolution := r, frame := t.frame) == t.(mirror := m, targetResolution := r);
        FrameDoesNotChangeAnswers(t.(mirror := m, targetResolution := r), t'.frame, OnlyRequestsAndServes(trace[1..]));
        assert OnlyRequestsAndServes(trace)[1..] == OnlyRequestsAndServes(trace[1..]);
      } else {
        SettingsDoNotChangeAnswers(t, m, r, trace[1..]);
        assert t.(mirror := m, targetResolution := r) == s';
      }
    }
  }

  /** `self.frame` is only ever written, never read, by `run()`. */
  lemma {:induction false} FrameDoesNotChangeAnswers(s: Lazy, f: Option<Picture>, trace: seq<LazyEvent>)
    ensures RunLazy(s, trace).responses == RunLazy(s.(frame := f), trace).responses
    ensures RunLazy(s, trace).served == RunLazy(s.(frame := f), trace).served
    decreases |trace|
  {
    if |trace| > 0 {
      var t := LazyStep(s, trace[0]);
      var t' := LazyStep(s.(frame := f), trace[0]);
      assert t' == t || t' == t.(frame := f);
      if t' == t {
      } else {
        FrameDoesNotChangeAnswers(t, f, trace[1..]);
      }
    }
  }

  /** `VideoStream`: `running` is false once `run()` has seen `abort` and left
      its loop (and the `with` block, releasing the camera). */
  datatype Eager = Eager(
    barcodes: seq<seq<Code>>,
    frame: Frame,
    abort: bool,
    running: bool,
    mirror: bool,
    targetResolution: Option<Resolution>,
    iterations: nat)

  datatype EagerEvent =
    | Iterate(captured: Frame, decoded: seq<RawBarcode>)
    | SetAbort(abort: bool)
    | SetEagerMirror(mirror: bool)
    | SetEagerTargetResolution(resolution: Option<Resolution>)

  /** `self._frame = np.zeros((1, 1))`: a blank frame before the first capture. */
  const BlankFrame: Frame := Frame(0, [])

  function NewEager(targetResolution: Option<Resolution>): Eager {
    Eager([], BlankFrame, false, true, false, targetResolution, 0)
  }

  /** The `frame` property getter: the last marked frame, flipped when
      `mirror` is set and resized when a target resolution is set. */
  function FrameView(s: Eager): (p: Picture)
    ensures p.source == s.frame
    ensures p.mirrored == s.mirror && p.resizedTo == s.targetResolution
  {
    Picture(s.frame, s.targetResolution, s.mirror)
  }

  /** The event is a frame taken while `run()` is in its loop and the check
      of `abort` lets the body run. */
  predicate Passes(s: Eager, e: EagerEvent) {
    e.Iterate? && s.running && !s.abort
  }

  /** One check of `while not self.abort` and, if it passes, one loop body.
      A pass stores the captured frame with every barcode marked; nothing
      else touches the stored frame. */
  function EagerStep(s: Eager, e: EagerEvent): (t: Eager)
    ensures !s.running ==> t.barcodes == s.barcodes && !t.running
    ensures |t.barcodes| <= |s.barcodes| + 1 && s.barcodes <= t.barcodes
    ensures |t.barcodes| == |s.barcodes| + 1 ==>
              && e.Iterate? && s.running && !s.abort
              && t.barcodes[|s.barcodes|] == FoundCodes(Codes(e.decoded))
              && |t.barcodes[|s.barcodes|]| > 0
    ensures e.Iterate? && s.running && !s.abort && |e.decoded| > 0 ==>
              |t.barcodes| == |s.barcodes| + 1
    ensures Passes(s, e) ==>
              t.frame.capture == e.captured.capture && t.frame.marks == e.captured.marks + AllMarks(e.decoded, Full)
    ensures !Passes(s, e) ==> t.frame == s.frame
  {
    match e
    case SetAbort(a) => s.(abort := a)
    case SetEagerMirror(m) => s.(mirror := m)
    case SetEagerTargetResolution(r) => s.(targetResolution := r)
    case Iterate(captured, decoded) =>
      if !s.running then s
      else if s.abort then s.(running := false)
      else
        var marked := Frame(captured.capture, captured.marks + AllMarks(decoded, Full));
        var found := FoundCodes(Codes(decoded));
        assert |decoded| > 0 ==> Codes(decoded)[0] in found;
        s.(frame := marked,
           barcodes := if |found| > 0 then s.barcodes + [found] else s.barcodes,
           iterations := s.iterations + 1)
  }

  function RunEager(s: Eager, trace: seq<EagerEvent>): Eager
    decreases |trace|
  {
    if |trace| == 0 then s else RunEager(EagerStep(s, trace[0]), trace[1..])
  }

  /** Event `i` of the trace is a pass of the loop. */
  predicate PassAt(s: Eager, trace: seq<EagerEvent>, i: nat)
    requires i < |trace|
  {
    Passes(RunEager(s, trace[..i]), trace[i])
  }

  /** Event `k + 1` of a trace is a pass iff event `k` of its tail is one,
      run from the state after the first event. */
  lemma ShiftPass(s: Eager, trace: seq<EagerEvent>, k: nat)
    requires k + 1 < |trace|
    ensures PassAt(s, trace, k + 1) == PassAt(EagerStep(s, trace[0]), trace[1..], k)
  {
    assert trace[..k + 1][0] == trace[0];
    assert trace[..k + 1][1..] == trace[1..][..k];
  }

  /** Without a pass, the stored frame stays as it was. */
  lemma {:induction false} NoPassKeepsFrame(s: Eager, trace: seq<EagerEvent>)
    requires forall i :: 0 <= i < |trace| ==> !PassAt(s, trace, i)
    ensures RunEager(s, trace).frame == s.frame
    decreases |trace|
  {
    if |trace| > 0 {
      var t := EagerStep(s, trace[0]);
      assert trace[..0] == [];
      assert !PassAt(s, trace, 0);
      forall k | 0 <= k < |trace| - 1
        ensures !PassAt(t, trace[1..], k)
      {
        ShiftPass(s, trace, k);
        assert !PassAt(s, trace, k + 1);
      }
      NoPassKeepsFrame(t, trace[1..]);
    }
  }

  /** After the last pass, the stored frame is the one that pass marked. */
  lemma {:induction false} LastPassFrame(s: Eager, trace: seq<EagerEvent>, i: nat)
    requires i < |trace| && PassAt(s, trace, i)
    requires forall j :: i < j < |trace| ==> !PassAt(s, trace, j)
    ensures RunEager(s, trace).frame.capture == trace[i].captured.capture
    ensures RunEager(s, trace).frame.marks == trace[i].captured.marks + AllMarks(trace[i].decoded, Full)
    decreases i
  {
    var t := EagerStep(s, trace[0]);
    forall k | 0 <= k < |trace| - 1 && i < k + 1
      ensures !PassAt(t, trace[1..], k)
    {
      ShiftPass(s, trace, k);
    }
    if i == 0 {
      assert trace[..0] == [];
      NoPassKeepsFrame(t, trace[1..]);
    } else {
      ShiftPass(s, trace, i - 1);
      LastPassFrame(t, trace[1..], i - 1);
    }
  }

  /** The `frame` getter shows the frame stored by the last pass, with all of
      its barcodes marked, or the initial frame when no pass happened. */
  lemma FrameShowsLastPass(s: Eager, trace: seq<EagerEvent>)
    ensures (forall i :: 0 <= i < |trace| ==> !PassAt(s, trace, i)) ==>
              FrameView(RunEager(s, trace)).source == s.frame
    ensures forall i :: 0 <= i < |trace| && PassAt(s, trace, i) && (forall j :: i < j < |trace| ==> !PassAt(s, trace, j)) ==>
              && FrameView(RunEager(s, trace)).source.capture == trace[i].captured.capture
              && FrameView(RunEager(s, trace)).source.marks == trace[i].captured.marks + AllMarks(trace[i].decoded, Full)
  {
    if forall i :: 0 <= i < |trace| ==> !PassAt(s, trace, i) {
      NoPassKeepsFrame(s, trace);
    }
    forall i | 0 <= i < |trace| && PassAt(s, trace, i) && (forall j :: i < j < |trace| ==> !PassAt(s, trace, j))
      ensures FrameView(RunEager(s, trace)).source.capture == trace[i].captured.capture
      ensures FrameView(RunEager(s, trace)).source.marks == trace[i].captured.marks + AllMarks(trace[i].decoded, Full)
    {
      LastPassFrame(s, trace, i);
    }
  }

  /** Every collected batch is non-empty and free of duplicates, there is at
      most one batch per loop pass, and a stopped stream never changes again. */
  ghost predicate EagerValid(s: Eager) {
    && |s.barcodes| <= s.iterations
    && forall i :: 0 <= i < |s.barcodes| ==> |s.barcodes[i]| > 0 && NoDuplicates(s.barcodes[i])
  }

  lemma {:induction false} EagerTraceValid(s: Eager, trace: seq<EagerEvent>)
    requires EagerValid(s)
    ensures EagerValid(RunEager(s, trace))
    ensures !s.running ==> RunEager(s, trace).barcodes == s.barcodes
    ensures s.barcodes <= RunEager(s, trace).barcodes
    decreases |trace|
  {
    if |trace| > 0 {
      var t := EagerStep(s, trace[0]);
      if trace[0].Iterate? {
        FoundCodesInOrder(Codes(trace[0].decoded));
      }
      assert EagerValid(t);
      EagerTraceValid(t, trace[1..]);
    }
  }
}
