/** The `Camera` context manager of barcodereader.py: `__enter__` opens the
    capture device and busy-waits for a first good frame, `__exit__`
    releases it. The capture API is replaced by its observable answers: whether
    the device isOpened and the success flags of successive `read()` calls. */
module Camera {
  import opened Wrappers
  import opened PyText

  /** OpenCV's `cv2.CAP_DSHOW` backend offset. */
  const CapDshow: int := 700

  /** The index handed to `cv2.VideoCapture`: DirectShow on Windows. */
  function CaptureIndex(platform: string, cameraId: int): (index: int)
    ensures IsSubstring("win32", platform) ==> index - CapDshow == cameraId
    ensures !IsSubstring("win32", platform) ==> index == cameraId
  {
    if IsSubstring("win32", platform) then CapDshow + cameraId else cameraId
  }

  /** On one platform, distinct camera ids open distinct capture devices,
      and the camera id can be read back from the device index. */
  lemma CaptureIndexInjective(platform: string, a: int, b: int)
    ensures CaptureIndex(platform, a) == CaptureIndex(platform, b) <==> a == b
    ensures CaptureIndex(platform, a) - (if IsSubstring("win32", platform) then CapDshow else 0) == a
  {
  }

  datatype CameraError =
    | IOError(cameraId: int)   // `Failed to open camera {camera_id}`
    | BodyRaised               // an exception from the `with` body

  /** How the busy-wait in `__enter__` ends: after `n` reads, or not within the
      reads observed. */
  datatype Ready = ReadyAfter(n: nat) | StillWaiting

  /** Number of `read()` calls until the first successful one. */
  function FirstGoodRead(readOks: seq<bool>): (r: Ready)
    ensures r.ReadyAfter? <==> true in readOks
    ensures r.ReadyAfter? ==> 1 <= r.n <= |readOks| && readOks[r.n - 1] && true !in readOks[..r.n - 1]
  {
    if |readOks| == 0 then StillWaiting
    else if readOks[0] then ReadyAfter(1)
    else
      match FirstGoodRead(readOks[1..])
      case ReadyAfter(n) =>
        assert readOks[..n] == [readOks[0]] + readOks[1..][..n - 1];
        ReadyAfter(n + 1)
      case StillWaiting => StillWaiting
  }

  /** How a `with Camera(...)` block ended. */
  datatype Outcome =
    | Completed               // the body ran to its end
    | Raised(error: CameraError)
    | Blocked                 // still busy-waiting for a readable frame

  /** Counts of what one `with Camera(...)` block did to the device. */
  datatype Session = Session(
    device: int,       // the index handed to `cv2.VideoCapture`
    captures: nat,     // `cv2.VideoCapture(...)` objects created
    releases: nat,     // `release()` calls
    bodyRuns: nat,     // times the `with` body started
    outcome: Outcome)

  /** `with Camera(cameraId): body`, where `isOpened` is `isOpened()`, `readOks`
      the success flags of successive `read()` calls and `bodyRaises` whether the body raised.
      `__exit__` runs on both exits of the body; a failing `__enter__` skips
      it, so the unopened capture object is not released. */
  function WithCamera(platform: string, cameraId: int, isOpened: bool, readOks: seq<bool>, bodyRaises: bool): (s: Session)
    ensures s.device == CaptureIndex(platform, cameraId)
    ensures s.captures == 1
    ensures !isOpened ==> s.outcome == Raised(IOError(cameraId)) && s.bodyRuns == 0 && s.releases == 0
    ensures s.outcome == Blocked <==> isOpened && true !in readOks
    ensures s.bodyRuns == 1 <==> isOpened && true in readOks
    ensures s.bodyRuns <= 1 && s.releases == s.bodyRuns
    ensures s.bodyRuns == 1 && bodyRaises ==> s.outcome == Raised(BodyRaised)
    ensures s.outcome == Completed <==> isOpened && true in readOks && !bodyRaises
  {
    var device := CaptureIndex(platform, cameraId);
    if !isOpened then Session(device, 1, 0, 0, Raised(IOError(cameraId)))
    else
      match FirstGoodRead(readOks)
      case StillWaiting => Session(device, 1, 0, 0, Blocked)
      case ReadyAfter(_) =>
        Session(device, 1, 1, 1, if bodyRaises then Raised(BodyRaised) else Completed)
  }
}
