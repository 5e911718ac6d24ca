/**
 * `process_frame` and `extract_codes`: each sampled frame is encoded,
 * recognised and matched; the per-frame outcomes are merged into one set of
 * codes, skipping frames that failed.
 */
module Extractor {
  import opened Wrappers
  import opened CodeMatcher
  import opened TextDetection
  import opened Video
  import opened FrameSampling

  type Bytes = seq<bv8>

  /**
   * The collaborators the extraction relies on: JPEG encoding (`cv2.imencode`;
   * an encoding failure, returned or raised, becomes `EncodingFailed`), the
   * Vision text-detection call, and which characters Python's `re` treats as
   * word characters.
   */
  datatype Services = Services(
    encodeJpeg: Frame -> Option<Bytes>,
    detectText: Bytes -> DetectionCall,
    isWord: WordClass)

  /** Exceptions raised while processing one frame; both are caught per frame. */
  datatype FrameError =
    | EncodingFailed(message: string)            // ValueError from `process_frame`
    | RecognitionServiceError(message: string)   // RuntimeError from `extract_text_from_image`

  const EncodeFailureMessage: string := "Failed to encode frame as JPEG"

  /** What `future.result()` gives for one frame: its codes, or the exception it re-raises. */
  type Outcome = Result<seq<string>, FrameError>

  /** `process_frame(frame)` */
  function ProcessFrame(env: Services, frame: Frame): (r: Outcome)
    ensures r.Failure? <==>
      env.encodeJpeg(frame).None? || ExtractText(env.detectText(env.encodeJpeg(frame).value)).Failure?
    ensures env.encodeJpeg(frame).None? ==> r == Failure(EncodingFailed(EncodeFailureMessage))
    ensures env.encodeJpeg(frame).Some? && r.Failure? ==>
      r.error == RecognitionServiceError(ExtractText(env.detectText(env.encodeJpeg(frame).value)).error)
    ensures r.Success? ==>
      r.value == FindAll(env.isWord, ExtractText(env.detectText(env.encodeJpeg(frame).value)).value)
    ensures r.Success? ==> forall k :: 0 <= k < |r.value| ==> IsCode(r.value[k])
  {
    match env.encodeJpeg(frame)
    case None => Failure(EncodingFailed(EncodeFailureMessage))
    case Some(image) =>
      match ExtractText(env.detectText(image))
      case Failure(message) => Failure(RecognitionServiceError(message))
      case Success(text) => Success(FindAll(env.isWord, text))
  }

  /** The outcome of every submitted frame, in submission order. */
  function Outcomes(env: Services, frames: seq<Frame>): seq<Outcome> {
    seq(|frames|, i requires 0 <= i < |frames| => ProcessFrame(env, frames[i]))
  }

  /** The codes of the successful outcomes, folded into one set in order. */
  function MergedCodes(outcomes: seq<Outcome>): set<string>
    decreases |outcomes|
  {
    if outcomes == [] then {}
    else
      var last := outcomes[|outcomes| - 1];
      MergedCodes(outcomes[..|outcomes| - 1]) + if last.Success? then set c | c in last.value else {}
  }

  /** Some successful outcome reported `c`. */
  ghost predicate Reported(outcomes: seq<Outcome>, c: string) {
    exists i :: 0 <= i < |outcomes| && outcomes[i].Success? && c in outcomes[i].value
  }

  /** A code is in the merged set exactly when some successful outcome reported it. */
  lemma {:induction false} MergedCodesMembers(outcomes: seq<Outcome>, c: string)
    ensures c in MergedCodes(outcomes) <==> Reported(outcomes, c)
    decreases |outcomes|
  {
    if outcomes != [] {
      var n := |outcomes| - 1;
      var prefix := outcomes[..n];
      MergedCodesMembers(prefix, c);
      if c in MergedCodes(prefix) {
        var i :| 0 <= i < |prefix| && prefix[i].Success? && c in prefix[i].value;
        assert outcomes[i] == prefix[i];
      }
      if Reported(outcomes, c) {
        var i :| 0 <= i < |outcomes| && outcomes[i].Success? && c in outcomes[i].value;
        if i < n {
          assert prefix[i] == outcomes[i];
        }
      }
    }
  }

  /**
   * The merged set does not depend on the order in which outcomes are
   * collected, so the thread pool's completion order cannot change it.
   */
  lemma {:induction false} MergeIgnoresOrder(a: seq<Outcome>, b: seq<Outcome>)
    requires multiset(a) == multiset(b)
    ensures MergedCodes(a) == MergedCodes(b)
  {
    forall c | c in MergedCodes(a)
      ensures c in MergedCodes(b)
    {
      MergedCodesMembers(a, c);
      MergedCodesMembers(b, c);
      var i :| 0 <= i < |a| && a[i].Success? && c in a[i].value;
      assert a[i] in multiset(b);
      var j :| 0 <= j < |b| && b[j] == a[i];
    }
    forall c | c in MergedCodes(b)
      ensures c in MergedCodes(a)
    {
      MergedCodesMembers(a, c);
      MergedCodesMembers(b, c);
      var j :| 0 <= j < |b| && b[j].Success? && c in b[j].value;
      assert b[j] in multiset(a);
      var i :| 0 <= i < |a| && a[i] == b[j];
    }
  }

  /** A failed frame contributes nothing and does not hide the frames around it. */
  lemma {:induction false} FailedFrameContributesNothing(outcomes: seq<Outcome>, i: nat)
    requires i < |outcomes| && outcomes[i].Failure?
    ensures MergedCodes(outcomes) == MergedCodes(outcomes[..i] + outcomes[i + 1..])
  {
    var rest := outcomes[..i] + outcomes[i + 1..];
    forall c
      ensures c in MergedCodes(outcomes) <==> c in MergedCodes(rest)
    {
      MergedCodesMembers(outcomes, c);
      MergedCodesMembers(rest, c);
      ReportedWithoutFailure(outcomes, i, c);
    }
  }

  lemma {:induction false} ReportedWithoutFailure(outcomes: seq<Outcome>, i: nat, c: string)
    requires i < |outcomes| && outcomes[i].Failure?
    ensures Reported(outcomes, c) <==> Reported(outcomes[..i] + outcomes[i + 1..], c)
  {
    var rest := outcomes[..i] + outcomes[i + 1..];
    assert forall j :: 0 <= j < i ==> rest[j] == outcomes[j];
    assert forall j :: i < j < |outcomes| ==> rest[j - 1] == outcomes[j];
    if Reported(outcomes, c) {
      var j :| 0 <= j < |outcomes| && outcomes[j].Success? && c in outcomes[j].value;
      if j > i {
        assert rest[j - 1] == outcomes[j];
      }
    }
    if Reported(rest, c) {
      var j :| 0 <= j < |rest| && rest[j].Success? && c in rest[j].value;
      if j >= i {
        assert outcomes[j + 1] == rest[j];
      }
    }
  }

  /** When every frame fails the result is empty, not an error. */
  lemma {:induction false} AllFramesFailedGivesNoCodes(outcomes: seq<Outcome>)
    requires forall i :: 0 <= i < |outcomes| ==> outcomes[i].Failure?
    ensures MergedCodes(outcomes) == {}
  {
    forall c | c in MergedCodes(outcomes)
      ensures false
    {
      MergedCodesMembers(outcomes, c);
    }
  }

  /** The `for future in futures` loop: successful results update `codes`, failures are logged and skipped. */
  method MergeResults(futures: seq<Outcome>) returns (codes: set<string>)
    ensures codes == MergedCodes(futures)
  {
    codes := {};
    for i := 0 to |futures|
      invariant codes == MergedCodes(futures[..i])
    {
      assert futures[..i + 1][..i] == futures[..i];
      match futures[i]
      case Success(found) =>
        codes := codes + set c | c in found;
      case Failure(_) =>
    }
    assert futures[..|futures|] == futures;
  }

  /** Errors that abort `extract_codes`. */
  datatype FatalError =
    | UnableToOpen       // ValueError: the capture did not open
    | InvalidFrameRate   // ValueError: the reported frame rate is 0
    | ModuloByZero       // ZeroDivisionError: `frame_count % frame_interval` with interval 0

  /**
   * The message each fatal error carries. The first two are the program's
   * own; the third comes from the interpreter and is CPython 3.12's wording
   * (older releases say "integer division or modulo by zero").
   */
  function Message(e: FatalError): string {
    match e
    case UnableToOpen => "Unable to open video file"
    case InvalidFrameRate => "Invalid video frame rate"
    case ModuloByZero => "integer modulo by zero"
  }

  /**
   * The extraction fails exactly on the three guards, in the order the code
   * checks them, and each failure carries the message raised for it (for
   * the modulo error, CPython 3.12's wording).
   */
  lemma {:induction false} ExtractionFailures(video: VideoFile, env: Services)
    ensures var r := Extraction(video, env);
      && (r.Failure? <==>
           !video.decodable || video.fps == 0.0 || (FrameInterval(video.fps) == 0 && video.frames != []))
      && (!video.decodable ==> r.Failure? && Message(r.error) == "Unable to open video file")
      && (video.decodable && video.fps == 0.0 ==> r.Failure? && Message(r.error) == "Invalid video frame rate")
      && (video.decodable && video.fps != 0.0 && FrameInterval(video.fps) == 0 && video.frames != [] ==>
           r.Failure? && Message(r.error) == "integer modulo by zero")
  {
  }

  /** `int(fps)`: truncation toward zero. */
  function FrameInterval(fps: real): (k: int)
    ensures 0.0 <= fps ==> 0 <= k && k as real <= fps < k as real + 1.0
    ensures fps < 0.0 ==> k <= 0 && k as real - 1.0 < fps <= k as real
  {
    if 0.0 <= fps then fps.Floor else -((-fps).Floor)
  }

  /** The value `extract_codes` returns, or the exception it raises, for a video file. */
  function Extraction(video: VideoFile, env: Services): Result<set<string>, FatalError> {
    if !video.decodable then Failure(UnableToOpen)
    else if video.fps == 0.0 then Failure(InvalidFrameRate)
    else
      var k := FrameInterval(video.fps);
      if k == 0 then
        if video.frames == [] then Success({}) else Failure(ModuloByZero)
      else
        Success(MergedCodes(Outcomes(env, Sampled(video.frames, k))))
  }

  /** Processing `frame` succeeded and reported `c`. */
  predicate FrameYields(env: Services, frame: Frame, c: string) {
    ProcessFrame(env, frame).Success? && c in ProcessFrame(env, frame).value
  }

  /** The codes merged from a list of submitted frames are those some successfully processed frame reported. */
  lemma {:induction false} MergedOutcomesMembers(env: Services, frames: seq<Frame>, c: string)
    ensures c in MergedCodes(Outcomes(env, frames)) <==>
      exists j :: 0 <= j < |frames| && FrameYields(env, frames[j], c)
  {
    var outcomes := Outcomes(env, frames);
    MergedCodesMembers(outcomes, c);
    if Reported(outcomes, c) {
      var j :| 0 <= j < |outcomes| && outcomes[j].Success? && c in outcomes[j].value;
      assert outcomes[j] == ProcessFrame(env, frames[j]);
      assert FrameYields(env, frames[j], c);
    }
    if exists j :: 0 <= j < |frames| && FrameYields(env, frames[j], c) {
      var j :| 0 <= j < |frames| && FrameYields(env, frames[j], c);
      assert outcomes[j] == ProcessFrame(env, frames[j]);
    }
  }

  /** Magnitude of the sampling interval. */
  function Stride(k: int): nat {
    if k < 0 then -k else k
  }

  /**
   * With a non-zero interval `k`, the extraction succeeds, and a string is in
   * its result exactly when it is a code reported by one of the frames at
   * ordinals 0, |k|, 2|k|, ... (⌈n / |k|⌉ of them) that was processed
   * without error.
   */
  lemma {:induction false} ExtractionCollectsSampledCodes(video: VideoFile, env: Services, c: string)
    requires video.decodable && video.fps != 0.0 && FrameInterval(video.fps) != 0
    ensures var k := Stride(FrameInterval(video.fps));
      && Extraction(video, env).Success?
      && (c in Extraction(video, env).value <==>
          exists j :: 0 <= j < CeilDiv(|video.frames|, k) && j * k < |video.frames| &&
            FrameYields(env, video.frames[j * k], c))
  {
    var k0 := FrameInterval(video.fps);
    var k := Stride(k0);
    if k0 < 0 {
      SampledIgnoresSign(video.frames, k);
    }
    var picked := Sampled(video.frames, k);
    assert Sampled(video.frames, k0) == picked;
    MergedOutcomesMembers(env, picked, c);
    SomeSampledFrame(video.frames, k, f => FrameYields(env, f, c));
  }

  /** Every string the extraction returns is a code. */
  lemma {:induction false} ExtractionYieldsOnlyCodes(video: VideoFile, env: Services)
    ensures Extraction(video, env).Success? ==> forall c :: c in Extraction(video, env).value ==> IsCode(c)
  {
    if Extraction(video, env).Success? && video.frames != [] {
      var outcomes := Outcomes(env, Sampled(video.frames, FrameInterval(video.fps)));
      forall c | c in MergedCodes(outcomes)
        ensures IsCode(c)
      {
        MergedCodesMembers(outcomes, c);
        var i :| 0 <= i < |outcomes| && outcomes[i].Success? && c in outcomes[i].value;
        var m :| 0 <= m < |outcomes[i].value| && outcomes[i].value[m] == c;
      }
    }
  }

  /**
   * `extract_codes(video_path)`: opens the capture, checks it and its frame
   * rate before reading anything, reads every frame submitting those at
   * multiples of the interval, merges their outcomes and releases the
   * capture. The capture is returned so that its final state can be stated.
   */
  method ExtractCodes(video: VideoFile, env: Services) returns (r: Result<set<string>, FatalError>, cap: VideoCapture)
    ensures fresh(cap) && cap.frames == video.frames && cap.fps == video.fps && cap.Valid()
    ensures r == Extraction(video, env)
    ensures r.Success? ==> !cap.isOpen && cap.releases == 1 && cap.position == |video.frames|
    ensures r.Failure? ==> cap.releases == 0 && cap.isOpen == video.decodable
    ensures r == Failure(UnableToOpen) || r == Failure(InvalidFrameRate) ==> cap.position == 0
    ensures r == Failure(ModuloByZero) ==> cap.position == 1
  {
    cap := new VideoCapture(video);
    if !cap.IsOpened() {
      return Failure(UnableToOpen), cap;
    }
    var fps := cap.fps;
    if fps == 0.0 {
      return Failure(InvalidFrameRate), cap;
    }
    var frameInterval := FrameInterval(fps);
    var futures: seq<Outcome> := [];
    var frameCount: nat := 0;
    while cap.IsOpened()
      invariant cap.Valid() && cap.isOpen && cap.releases == 0
      invariant cap.position == frameCount
      invariant frameCount > 0 ==> frameInterval != 0
      invariant frameInterval == 0 ==> futures == []
      invariant frameInterval != 0 ==>
        futures == Outcomes(env, Sampled(video.frames[..frameCount], frameInterval))
      decreases |video.frames| - frameCount
    {
      var frame := cap.Read();
      if frame.None? {
        break;
      }
      if frameInterval == 0 {
        return Failure(ModuloByZero), cap;
      }
      assert video.frames[..frameCount + 1][..frameCount] == video.frames[..frameCount];
      if frameCount % frameInterval == 0 {
        futures := futures + [ProcessFrame(env, frame.value)];
      }
      frameCount := frameCount + 1;
    }
    assert video.frames[..frameCount] == video.frames;
    var codes := MergeResults(futures);
    cap.Release();
    r := Success(codes);
  }
}
