/** The frame processor: runs the detector on every `k`-th frame of a video,
    optionally writes an annotated copy of the video, extracts sampled frames
    as images, and reports a video's metadata. The detector and the codec are
    opaque functions; frames are read through `MediaIO`'s handles. */
module YoloProcessor {
  import opened Wrappers
  import opened Text
  import opened Errors
  import opened MediaIO

  /** One box as the model reports it: corners in pixels, class index, score. */
  datatype RawBox = RawBox(x1: real, y1: real, x2: real, y2: real, cls: int, conf: real)

  /** One element of what the model returns for a frame; `boxes` may be absent. */
  datatype ModelResult = ModelResult(boxes: Option<seq<RawBox>>)

  /** The loaded model: inference at a confidence threshold, and its label set. */
  datatype Detector = Detector(infer: (Frame, real) -> seq<ModelResult>, names: int -> string)

  datatype BBox = BBox(x: real, y: real, width: real, height: real)

  /** One entry of a frame's `objects` list. */
  datatype Detection = Detection(className: string, confidence: real, bbox: BBox)

  /** What `_process_frame` returns (its timing is not modelled). */
  datatype FrameResult = FrameResult(frameNumber: int, objects: seq<Detection>, objectCount: int)

  datatype Processor = Processor(modelPath: string, confidence: real, detector: Detector)

  /** `results['video_metadata']`. */
  datatype Properties = Properties(fps: real, frameCount: int, width: int, height: int, duration: real)

  /** What `process_video` returns (its timing is not modelled). */
  datatype VideoResults = VideoResults(
    totalFrames: int, processedFrames: int, detections: seq<FrameResult>, metadata: Properties)

  /** What `get_video_metadata` returns. */
  datatype VideoMetadata = VideoMetadata(
    fps: real, frameCount: int, width: int, height: int, duration: real,
    resolution: string, fileSize: int)

  /** Python truthiness of an optional string argument. */
  predicate Truthy(s: Option<string>) {
    s.Some? && s.value != []
  }

  // ---------------------------------------------------------------------
  // Construction

  /** `YOLOProcessor(model_path, confidence_threshold)`: a falsy argument
      (absent, empty path, threshold 0.0) falls back to the setting, and a
      model that cannot be loaded is a fatal error. */
  function NewProcessor(modelPath: Option<string>, threshold: Option<real>,
                        defaultPath: string, defaultThreshold: real,
                        load: string -> Option<Detector>): (r: Result<Processor, Error>)
    ensures var path := if Truthy(modelPath) then modelPath.value else defaultPath;
      && (r.Ok? <==> load(path).Some?)
      && (r.Err? ==> r.error == ModelLoadError(path))
      && (r.Ok? ==> r.value.modelPath == path && r.value.detector == load(path).value)
      && (r.Ok? ==> r.value.confidence == if threshold.Some? && threshold.value != 0.0 then threshold.value else defaultThreshold)
  {
    var path := if Truthy(modelPath) then modelPath.value else defaultPath;
    var conf := if threshold.Some? && threshold.value != 0.0 then threshold.value else defaultThreshold;
    match load(path)
    case None => Err(ModelLoadError(path))
    case Some(d) => Ok(Processor(path, conf, d))
  }

  // ---------------------------------------------------------------------
  // One frame

  /** A corner box turned into `x, y, width, height`, with no clamping. */
  function ToDetection(names: int -> string, b: RawBox): (d: Detection)
    ensures d.className == names(b.cls) && d.confidence == b.conf
    ensures d.bbox.x == b.x1 && d.bbox.y == b.y1
    ensures d.bbox.x + d.bbox.width == b.x2 && d.bbox.y + d.bbox.height == b.y2
  {
    Detection(names(b.cls), b.conf, BBox(b.x1, b.y1, b.x2 - b.x1, b.y2 - b.y1))
  }

  function BoxesOf(r: ModelResult): seq<RawBox> {
    if r.boxes.Some? then r.boxes.value else []
  }

  /** Every reported box, result after result, skipping results without boxes. */
  function Flatten(rs: seq<ModelResult>): seq<RawBox> {
    if rs == [] then [] else Flatten(rs[..|rs| - 1]) + BoxesOf(rs[|rs| - 1])
  }

  function Converted(names: int -> string, bs: seq<RawBox>): (ds: seq<Detection>)
    ensures |ds| == |bs| && forall k :: 0 <= k < |bs| ==> ds[k] == ToDetection(names, bs[k])
  {
    seq(|bs|, k requires 0 <= k < |bs| => ToDetection(names, bs[k]))
  }

  /** What `_process_frame` computes for `frame` as frame number `n`. */
  function FrameResultOf(p: Processor, frame: Frame, n: int): FrameResult {
    var ds := Converted(p.detector.names, Flatten(p.detector.infer(frame, p.confidence)));
    FrameResult(n, ds, |ds|)
  }

  /** A box is in the flattened list iff some result reports it. */
  lemma {:induction false} FlattenMembers(rs: seq<ModelResult>, b: RawBox)
    ensures b in Flatten(rs) <==> exists i :: 0 <= i < |rs| && b in BoxesOf(rs[i])
  {
    if rs != [] {
      var init := rs[..|rs| - 1];
      FlattenMembers(init, b);
      if b in Flatten(init) {
        var i :| 0 <= i < |init| && b in BoxesOf(init[i]);
        assert rs[i] == init[i];
      }
      if exists i :: 0 <= i < |rs| && b in BoxesOf(rs[i]) {
        var i :| 0 <= i < |rs| && b in BoxesOf(rs[i]);
        if i < |rs| - 1 {
          assert init[i] == rs[i];
        }
      }
    }
  }

  /** `_process_frame` echoes the frame number, counts exactly the objects it
      lists, and lists one object per reported box: object `k` is the `k`-th
      reported box converted, and every such object comes from a box of some
      model result. */
  lemma {:induction false} FrameResultShape(p: Processor, frame: Frame, n: int)
    ensures var r := FrameResultOf(p, frame, n);
      var rs := p.detector.infer(frame, p.confidence);
      && r.frameNumber == n
      && r.objectCount == |r.objects| == |Flatten(rs)|
      && forall k :: 0 <= k < |r.objects| ==>
           r.objects[k] == ToDetection(p.detector.names, Flatten(rs)[k])
           && exists i :: 0 <= i < |rs| && Flatten(rs)[k] in BoxesOf(rs[i])
  {
    var rs := p.detector.infer(frame, p.confidence);
    forall k | 0 <= k < |Flatten(rs)|
      ensures exists i :: 0 <= i < |rs| && Flatten(rs)[k] in BoxesOf(rs[i])
    {
      FlattenMembers(rs, Flatten(rs)[k]);
    }
  }

  predicate WellFormed(b: RawBox) {
    b.x1 <= b.x2 && b.y1 <= b.y2
  }

  /** Sizes are never negative when the model's corners are ordered; corners
      out of order give a negative size, since nothing clamps them. */
  lemma {:induction false} SizesNonNegative(p: Processor, frame: Frame, n: int)
    requires forall r :: r in p.detector.infer(frame, p.confidence) ==>
               forall b :: b in BoxesOf(r) ==> WellFormed(b)
    ensures forall d :: d in FrameResultOf(p, frame, n).objects ==>
              d.bbox.width >= 0.0 && d.bbox.height >= 0.0
  {
    var rs := p.detector.infer(frame, p.confidence);
    var ds := FrameResultOf(p, frame, n).objects;
    forall d | d in ds ensures d.bbox.width >= 0.0 && d.bbox.height >= 0.0 {
      var k :| 0 <= k < |ds| && ds[k] == d;
      var b := Flatten(rs)[k];
      FlattenMembers(rs, b);
      var i :| 0 <= i < |rs| && b in BoxesOf(rs[i]);
      assert rs[i] in rs;
    }
  }

  lemma NoClamping(names: int -> string)
    ensures ToDetection(names, RawBox(5.0, 5.0, 3.0, 9.0, 0, 0.9)).bbox.width == -2.0
  {
  }

  lemma ConvertedSnoc(names: int -> string, bs: seq<RawBox>, b: RawBox)
    ensures Converted(names, bs + [b]) == Converted(names, bs) + [ToDetection(names, b)]
  {
    assert Converted(names, bs + [b])[..|bs|] == Converted(names, bs);
  }

  /** `_process_frame`: runs the model once and collects its boxes. */
  method ProcessFrame(p: Processor, frame: Frame, frameNumber: int) returns (r: FrameResult)
    ensures r == FrameResultOf(p, frame, frameNumber)
  {
    var names := p.detector.names;
    var results := p.detector.infer(frame, p.confidence);
    var detections: seq<Detection> := [];
    ghost var done: seq<RawBox> := [];
    var i := 0;
    while i < |results|
      invariant 0 <= i <= |results|
      invariant done == Flatten(results[..i])
      invariant detections == Converted(names, done)
    {
      var boxes := results[i].boxes;
      if boxes.Some? {
        var j := 0;
        while j < |boxes.value|
          invariant 0 <= j <= |boxes.value|
          invariant detections == Converted(names, done + boxes.value[..j])
        {
          ConvertedSnoc(names, done + boxes.value[..j], boxes.value[j]);
          assert done + boxes.value[..j + 1] == done + boxes.value[..j] + [boxes.value[j]];
          detections := detections + [ToDetection(names, boxes.value[j])];
          j := j + 1;
        }
        assert boxes.value[..j] == boxes.value;
      }
      assert results[..i + 1][..i] == results[..i];
      done := done + BoxesOf(results[i]);
      i := i + 1;
    }
    assert results[..i] == results;
    r := FrameResult(frameNumber, detections, |detections|);
  }

  // ---------------------------------------------------------------------
  // Sampling

  /** The frame numbers below `n` that a stride of `k` selects, ascending. */
  function Selected(n: nat, k: int): seq<nat>
    requires k != 0
  {
    if n == 0 then [] else Selected(n - 1, k) + if (n - 1) % k == 0 then [n - 1] else []
  }

  lemma {:induction false} SelectedMembers(n: nat, k: int, x: int)
    requires k != 0
    ensures x in Selected(n, k) <==> 0 <= x < n && x % k == 0
  {
    if n > 0 {
      SelectedMembers(n - 1, k, x);
    }
  }

  lemma {:induction false} SelectedIncreasing(n: nat, k: int)
    requires k != 0
    ensures forall i, j :: 0 <= i < j < |Selected(n, k)| ==> Selected(n, k)[i] < Selected(n, k)[j]
  {
    if n > 0 {
      SelectedIncreasing(n - 1, k);
      var s := Selected(n - 1, k);
      forall i | 0 <= i < |s| ensures s[i] < n - 1 {
        SelectedMembers(n - 1, k, s[i]);
      }
    }
  }

  /** A stride of `k >= 1` over `n` frames selects `ceil(n / k)` of them. */
  lemma {:induction false} SelectedCount(n: nat, k: int)
    requires k >= 1
    ensures |Selected(n, k)| == (n + k - 1) / k
  {
    if n > 0 {
      SelectedCount(n - 1, k);
      CeilStep(n - 1, k);
    }
  }

  /** `ceil((m + 1) / k)` exceeds `ceil(m / k)` exactly when `k` divides `m`. */
  lemma CeilStep(m: nat, k: int)
    requires k >= 1
    ensures (m + k) / k == (m + k - 1) / k + if m % k == 0 then 1 else 0
  {
    var q, r := m / k, m % k;
    assert m == q * k + r && 0 <= r < k;
    assert (q + 1) * k == q * k + k;
    if r == 0 {
      assert m + k - 1 == q * k + (k - 1);
      DivOf(q, k - 1, k);
      assert m + k == (q + 1) * k + 0;
      DivOf(q + 1, 0, k);
    } else {
      assert m + k - 1 == (q + 1) * k + (r - 1);
      DivOf(q + 1, r - 1, k);
      assert m + k == (q + 1) * k + r;
      DivOf(q + 1, r, k);
    }
  }

  /** Euclidean division is unique: a quotient and remainder in range are
      the ones `/` computes. */
  lemma DivOf(q: int, r: int, k: int)
    requires k >= 1 && 0 <= r < k
    ensures (q * k + r) / k == q
  {
    var m := q * k + r;
    var q2, r2 := m / k, m % k;
    assert q2 * k + r2 == m;
    assert (q2 - q) * k == r - r2 by {
      assert (q2 - q) * k == q2 * k - q * k;
    }
    if q2 > q {
      MulAtLeast(q2 - q, k);
    } else if q2 < q {
      MulAtLeast(q - q2, k);
    }
  }

  lemma MulAtLeast(d: int, k: int)
    requires d >= 1 && k >= 1
    ensures d * k >= k
  {
  }

  /** The per-frame results of detection on every `k`-th frame of `frames`. */
  function FrameDetections(p: Processor, frames: seq<Frame>, k: int): seq<FrameResult>
    requires k != 0
  {
    if frames == [] then []
    else
      var n := |frames| - 1;
      FrameDetections(p, frames[..n], k) + if n % k == 0 then [FrameResultOf(p, frames[n], n)] else []
  }

  /** Result `j` is the detection on the `j`-th selected frame. */
  lemma {:induction false} FrameDetectionsAt(p: Processor, frames: seq<Frame>, k: int)
    requires k != 0
    ensures var ds, s := FrameDetections(p, frames, k), Selected(|frames|, k);
      |ds| == |s| && forall j :: 0 <= j < |ds| ==> s[j] < |frames| && ds[j] == FrameResultOf(p, frames[s[j]], s[j])
  {
    if frames != [] {
      var n := |frames| - 1;
      FrameDetectionsAt(p, frames[..n], k);
      var s := Selected(n, k);
      forall j | 0 <= j < |s| ensures s[j] < n {
        SelectedMembers(n, k, s[j]);
      }
    }
  }

  /** The sampling contract: frame `i` of the frames read is sent to the
      detector iff `i % k == 0`; results are in strictly increasing frame
      order, each is that frame's detection, and there are `ceil(n / k)` of
      them for `k >= 1`. */
  lemma SamplingContract(p: Processor, frames: seq<Frame>, k: int)
    requires k != 0
    ensures var ds := FrameDetections(p, frames, k);
      && (forall i :: 0 <= i < |frames| && i % k == 0 ==> exists j :: 0 <= j < |ds| && ds[j].frameNumber == i)
      && (forall j :: 0 <= j < |ds| ==>
            0 <= ds[j].frameNumber < |frames| && ds[j].frameNumber % k == 0
            && ds[j] == FrameResultOf(p, frames[ds[j].frameNumber], ds[j].frameNumber))
      && (forall i, j :: 0 <= i < j < |ds| ==> ds[i].frameNumber < ds[j].frameNumber)
      && (k >= 1 ==> |ds| == (|frames| + k - 1) / k)
  {
    var ds, s := FrameDetections(p, frames, k), Selected(|frames|, k);
    FrameDetectionsAt(p, frames, k);
    SelectedIncreasing(|frames|, k);
    forall i | 0 <= i < |frames| && i % k == 0
      ensures exists j :: 0 <= j < |ds| && ds[j].frameNumber == i
    {
      SelectedMembers(|frames|, k, i);
      var j :| 0 <= j < |s| && s[j] == i;
      assert ds[j].frameNumber == i;
    }
    forall j | 0 <= j < |ds| ensures ds[j].frameNumber % k == 0 {
      SelectedMembers(|frames|, k, s[j]);
    }
    if k >= 1 {
      SelectedCount(|frames|, k);
    }
  }

  /** A frame as it goes to the writer: annotated when it was selected, there
      is an output, and the detector found something in it. */
  function OutputFrame(p: Processor, frame: Frame, i: nat, k: int, annotate: bool,
                       draw: (Frame, seq<Detection>) -> Frame): Frame
    requires k != 0
  {
    if i % k == 0 && annotate && |FrameResultOf(p, frame, i).objects| > 0
    then draw(frame, FrameResultOf(p, frame, i).objects)
    else frame
  }

  /** Every frame read, in read order, as written to the output video. */
  function WrittenFrames(p: Processor, frames: seq<Frame>, k: int, annotate: bool,
                         draw: (Frame, seq<Detection>) -> Frame): seq<Frame>
    requires k != 0
  {
    if frames == [] then []
    else
      var n := |frames| - 1;
      WrittenFrames(p, frames[..n], k, annotate, draw) + [OutputFrame(p, frames[n], n, k, annotate, draw)]
  }

  /** The output video holds exactly one frame per frame read, in read order:
      the frame itself, or its annotation when it was selected and had
      detections. */
  lemma {:induction false} WrittenFramesAt(p: Processor, frames: seq<Frame>, k: int, annotate: bool,
                                           draw: (Frame, seq<Detection>) -> Frame)
    requires k != 0
    ensures var w := WrittenFrames(p, frames, k, annotate, draw);
      |w| == |frames| &&
      forall i :: 0 <= i < |frames| ==>
        w[i] == if i % k == 0 && annotate && |FrameResultOf(p, frames[i], i).objects| > 0
                then draw(frames[i], FrameResultOf(p, frames[i], i).objects)
                else frames[i]
  {
    if frames != [] {
      var n := |frames| - 1;
      WrittenFramesAt(p, frames[..n], k, annotate, draw);
    }
  }

  // ---------------------------------------------------------------------
  // Whole video

  function Decoded(files: map<string, Bytes>, codec: Codec, path: string): Option<Container> {
    if path in files then codec.decode(files[path]) else None
  }

  /** `frame_count / fps`, or 0 when `fps` is not positive. */
  function Duration(frameCount: int, fps: real): (d: real)
    ensures fps > 0.0 ==> d * fps == frameCount as real
    ensures fps <= 0.0 ==> d == 0.0
  {
    if fps > 0.0 then frameCount as real / fps else 0.0
  }

  function PropertiesOf(c: Container): Properties {
    Properties(c.fps, c.frameCount, c.width, c.height, Duration(c.frameCount, c.fps))
  }

  /** The return value of `process_video` on a capture that opened. */
  function ProcessOutcome(p: Processor, c: Container, k: int): Result<VideoResults, Error> {
    var frames := ReadPrefix(c.decoded);
    if k == 0 then
      if |frames| > 0 then Err(ZeroDivisionError)
      else Ok(VideoResults(c.frameCount, 0, [], PropertiesOf(c)))
    else
      var ds := FrameDetections(p, frames, k);
      Ok(VideoResults(c.frameCount, |ds|, ds, PropertiesOf(c)))
  }

  /** The frames the output writer receives on a capture that opened. */
  function OutputFrames(p: Processor, c: Container, k: int, annotate: bool,
                        draw: (Frame, seq<Detection>) -> Frame): seq<Frame>
  {
    if k == 0 then [] else WrittenFrames(p, ReadPrefix(c.decoded), k, annotate, draw)
  }

  /** The file system after `process_video` on a capture that opened. */
  function FilesAfterProcessing(files: map<string, Bytes>, p: Processor, codec: Codec, c: Container,
                                outputPath: Option<string>, k: int,
                                draw: (Frame, seq<Detection>) -> Frame): map<string, Bytes>
  {
    if Truthy(outputPath) && codec.writerOpens
    then files[outputPath.value := codec.encode(OutputFrames(p, c, k, true, draw), c.fps, c.width, c.height)]
    else files
  }

  /** One frame read by `process_video`: detection when it is a `k`-th
      frame, annotation when that found something and there is an output,
      then the write. Given the results and the output for the first `n`
      frames, it leaves those for the first `n + 1`. */
  method HandleRead(p: Processor, writer: VideoWriter?, codec: Codec, draw: (Frame, seq<Detection>) -> Frame,
                    annotate: bool, k: int, frame: Frame, n: nat, ghost frames: seq<Frame>, detections: seq<FrameResult>)
    returns (detectionsOut: seq<FrameResult>)
    requires k != 0 && n < |frames| && frames[n] == frame
    requires writer != null <==> annotate
    requires writer != null ==> writer.codec == codec
    requires writer != null ==> writer.frames == if codec.writerOpens then WrittenFrames(p, frames[..n], k, annotate, draw) else []
    requires detections == FrameDetections(p, frames[..n], k)
    modifies writer
    ensures detectionsOut == FrameDetections(p, frames[..n + 1], k)
    ensures |detectionsOut| == |detections| + if n % k == 0 then 1 else 0
    ensures writer != null ==> writer.frames == if codec.writerOpens then WrittenFrames(p, frames[..n + 1], k, annotate, draw) else []
  {
    assert frames[..n + 1][..n] == frames[..n] && frames[..n + 1][n] == frame;
    var out := frame;
    detectionsOut := detections;
    if n % k == 0 {
      var result := ProcessFrame(p, frame, n);
      detectionsOut := detections + [result];
      if annotate && |result.objects| > 0 {
        out := draw(frame, result.objects);
      }
    }
    if writer != null {
      writer.Write(out);
    }
  }

  /** The frame loop of `process_video`: frames are read until the first
      failed read; every `k`-th is detected on (and, when annotating and
      something was found, drawn on), and every frame read goes to the
      writer. With `k == 0` the first frame read raises. */
  method ReadAllFrames(p: Processor, cap: VideoCapture, writer: VideoWriter?, codec: Codec,
                       draw: (Frame, seq<Detection>) -> Frame, annotate: bool, k: int, ghost c: Container)
    returns (r: Result<seq<FrameResult>, Error>, processed: nat)
    requires cap.IsOpened() && cap.pos == 0 && cap.container == Some(c)
    requires writer != null <==> annotate
    requires writer != null ==> writer.codec == codec && writer.frames == []
    modifies cap, writer
    ensures cap.IsOpened()
    ensures r.Ok? ==> processed == |r.value|
    ensures k == 0 ==> r == (if |ReadPrefix(c.decoded)| > 0 then Err(ZeroDivisionError) else Ok([]))
    ensures k == 0 && writer != null ==> writer.frames == []
    ensures k != 0 ==> r == Ok(FrameDetections(p, ReadPrefix(c.decoded), k))
    ensures k != 0 && writer != null ==>
      writer.frames == if codec.writerOpens then WrittenFrames(p, ReadPrefix(c.decoded), k, annotate, draw) else []
  {
    ghost var frames := ReadPrefix(c.decoded);
    var detections: seq<FrameResult> := [];
    processed := 0;
    var n := 0;
    while true
      invariant 0 <= n <= |frames| && cap.pos == n && cap.IsOpened()
      invariant k == 0 ==> n == 0
      invariant k != 0 ==> detections == FrameDetections(p, frames[..n], k)
      invariant k == 0 ==> detections == []
      invariant processed == |detections|
      invariant writer != null ==> writer.frames == if codec.writerOpens && k != 0 then WrittenFrames(p, frames[..n], k, annotate, draw) else []
      decreases |c.decoded| - n
    {
      var f := cap.Read();
      ReadPrefixAt(c.decoded, n);
      if f.None? {
        break;
      }
      var frame := f.value;
      if k == 0 {
        return Err(ZeroDivisionError), processed;
      }
      detections := HandleRead(p, writer, codec, draw, annotate, k, frame, n, frames, detections);
      if n % k == 0 {
        processed := processed + 1;
      }
      n := n + 1;
    }
    assert frames[..n] == frames;
    r := Ok(detections);
  }

  /** `process_video`: a missing file and a capture that does not open are
      reported before any frame is read; otherwise the frames are read by
      `ReadAllFrames`, and the capture and writer are always released. */
  method ProcessVideo(p: Processor, fs: FileSystem, codec: Codec,
                      draw: (Frame, seq<Detection>) -> Frame,
                      videoPath: string, outputPath: Option<string>, k: int)
    returns (r: Result<VideoResults, Error>)
    modifies fs
    ensures fs.handles == old(fs.handles)
    ensures videoPath !in old(fs.files) ==>
      r == Err(VideoFileNotFound(videoPath)) && fs.files == old(fs.files)
    ensures videoPath in old(fs.files) && Decoded(old(fs.files), codec, videoPath).None? ==>
      r == Err(CouldNotOpen(videoPath)) && fs.files == old(fs.files)
    ensures Decoded(old(fs.files), codec, videoPath).Some? ==>
      var c := Decoded(old(fs.files), codec, videoPath).value;
      r == ProcessOutcome(p, c, k) &&
      fs.files == FilesAfterProcessing(old(fs.files), p, codec, c, outputPath, k, draw)
  {
    if videoPath !in fs.files {
      return Err(VideoFileNotFound(videoPath));
    }
    var cap := new VideoCapture.Open(fs, codec, videoPath);
    if !cap.IsOpened() {
      return Err(CouldNotOpen(videoPath));
    }
    var c := cap.container.value;
    var annotate := Truthy(outputPath);
    var writer: VideoWriter? := null;
    if annotate {
      writer := new VideoWriter(fs, codec, outputPath.value, c.fps, c.width, c.height);
    }
    var detections, processed := ReadAllFrames(p, cap, writer, codec, draw, annotate, k, c);
    cap.Release();
    if writer != null {
      writer.Release();
    }
    if detections.Err? {
      return Err(detections.error);
    }
    r := Ok(VideoResults(c.frameCount, processed, detections.value, PropertiesOf(c)));
  }

  // ---------------------------------------------------------------------
  // Frame extraction

  /** The image name of frame `n`: six-digit zero-padded number, `.jpg`. */
  function FrameFileName(n: int): (r: string)
    ensures '/' !in r
  {
    FormatIntHasNoSlash(n, 6);
    "frame_" + FormatInt(n, 6) + ".jpg"
  }

  function FramePath(dir: string, n: int): string {
    Join(dir, FrameFileName(n))
  }

  /** Distinct non-negative frame numbers never share an image path. */
  lemma FramePathInjective(dir: string, a: nat, b: nat)
    requires FramePath(dir, a) == FramePath(dir, b)
    ensures a == b
  {
    BasenameOfJoin(dir, FrameFileName(a));
    BasenameOfJoin(dir, FrameFileName(b));
    var fa, fb := FrameFileName(a), FrameFileName(b);
    assert fa[6..|fa| - 4] == FormatInt(a, 6);
    assert fb[6..|fb| - 4] == FormatInt(b, 6);
    FormatIntInjective(a, b, 6);
  }

  /** The paths `extract_frames` returns for `n` frames read at stride `k`. */
  function ExtractedPaths(dir: string, n: nat, k: int): seq<string>
    requires k != 0
  {
    if n == 0 then [] else ExtractedPaths(dir, n - 1, k) + if (n - 1) % k == 0 then [FramePath(dir, n - 1)] else []
  }

  /** Path `j` is the image path of the `j`-th selected frame. */
  lemma {:induction false} ExtractedPathsAt(dir: string, n: nat, k: int)
    requires k != 0
    ensures var ps, s := ExtractedPaths(dir, n, k), Selected(n, k);
      |ps| == |s| && forall j :: 0 <= j < |ps| ==> ps[j] == FramePath(dir, s[j])
  {
    if n > 0 {
      ExtractedPathsAt(dir, n - 1, k);
    }
  }

  /** No path is returned twice. */
  lemma ExtractedPathsDistinct(dir: string, n: nat, k: int)
    requires k != 0
    ensures var ps := ExtractedPaths(dir, n, k);
      forall i, j :: 0 <= i < j < |ps| ==> ps[i] != ps[j]
  {
    ExtractedPathsAt(dir, n, k);
    SelectedIncreasing(n, k);
    var ps, s := ExtractedPaths(dir, n, k), Selected(n, k);
    forall i, j | 0 <= i < j < |ps| ensures ps[i] != ps[j] {
      if ps[i] == ps[j] {
        FramePathInjective(dir, s[i], s[j]);
      }
    }
  }

  /** A path is returned iff it is the image path of a selected frame. */
  lemma ExtractedPathsMembers(dir: string, n: nat, k: int, q: string)
    requires k != 0
    ensures q in ExtractedPaths(dir, n, k) <==> exists i :: 0 <= i < n && i % k == 0 && q == FramePath(dir, i)
  {
    ExtractedPathsAt(dir, n, k);
    var ps, s := ExtractedPaths(dir, n, k), Selected(n, k);
    if q in ps {
      var j :| 0 <= j < |ps| && ps[j] == q;
      SelectedMembers(n, k, s[j]);
    }
    if exists i :: 0 <= i < n && i % k == 0 && q == FramePath(dir, i) {
      var i :| 0 <= i < n && i % k == 0 && q == FramePath(dir, i);
      SelectedMembers(n, k, i);
      var j :| 0 <= j < |s| && s[j] == i;
      assert ps[j] == q;
    }
  }

  /** The file system after writing the image of every `k`-th frame. */
  function ImagesWritten(files: map<string, Bytes>, codec: Codec, dir: string,
                         frames: seq<Frame>, k: int): map<string, Bytes>
    requires k != 0
  {
    if frames == [] then files
    else
      var n := |frames| - 1;
      var before := ImagesWritten(files, codec, dir, frames[..n], k);
      if n % k == 0 then before[FramePath(dir, n) := codec.encodeImage(frames[n])] else before
  }

  /** Extraction adds exactly the returned image paths to the file system. */
  lemma {:induction false} ImagesWrittenDomain(files: map<string, Bytes>, codec: Codec, dir: string,
                                               frames: seq<Frame>, k: int)
    requires k != 0
    ensures var w, ps := ImagesWritten(files, codec, dir, frames, k), ExtractedPaths(dir, |frames|, k);
      forall q :: q in w <==> q in files || q in ps
  {
    if frames != [] {
      var n := |frames| - 1;
      ImagesWrittenDomain(files, codec, dir, frames[..n], k);
    }
  }

  /** Every file that is not a returned image path keeps its contents. */
  lemma {:induction false} ImagesWrittenKeeps(files: map<string, Bytes>, codec: Codec, dir: string,
                                              frames: seq<Frame>, k: int)
    requires k != 0
    ensures var w, ps := ImagesWritten(files, codec, dir, frames, k), ExtractedPaths(dir, |frames|, k);
      forall q :: q in files && q !in ps ==> q in w && w[q] == files[q]
  {
    if frames != [] {
      var n := |frames| - 1;
      ImagesWrittenKeeps(files, codec, dir, frames[..n], k);
      var ps0 := ExtractedPaths(dir, n, k);
      assert forall q :: q in ps0 ==> q in ExtractedPaths(dir, |frames|, k);
    }
  }

  /** Every selected frame's image is at its path. */
  lemma {:induction false} ImagesWrittenImages(files: map<string, Bytes>, codec: Codec, dir: string,
                                               frames: seq<Frame>, k: int)
    requires k != 0
    ensures var w := ImagesWritten(files, codec, dir, frames, k);
      forall i :: 0 <= i < |frames| && i % k == 0 ==>
        FramePath(dir, i) in w && w[FramePath(dir, i)] == codec.encodeImage(frames[i])
  {
    if frames != [] {
      var n := |frames| - 1;
      var prefix := frames[..n];
      ImagesWrittenImages(files, codec, dir, prefix, k);
      var w := ImagesWritten(files, codec, dir, frames, k);
      forall i | 0 <= i < n && i % k == 0
        ensures FramePath(dir, i) in w && w[FramePath(dir, i)] == codec.encodeImage(frames[i])
      {
        assert prefix[i] == frames[i];
        if n % k == 0 && FramePath(dir, i) == FramePath(dir, n) {
          FramePathInjective(dir, i, n);
        }
      }
    }
  }

  /** After extraction the file system holds exactly the old files plus the
      returned image paths; every selected frame's image is at its path, and
      every other file is untouched. */
  lemma ImagesWrittenContents(files: map<string, Bytes>, codec: Codec, dir: string,
                              frames: seq<Frame>, k: int)
    requires k != 0
    ensures var w, ps := ImagesWritten(files, codec, dir, frames, k), ExtractedPaths(dir, |frames|, k);
      forall q :: q in w <==> q in files || q in ps
    ensures var w, ps := ImagesWritten(files, codec, dir, frames, k), ExtractedPaths(dir, |frames|, k);
      forall q :: q in files && q !in ps ==> q in w && w[q] == files[q]
    ensures var w := ImagesWritten(files, codec, dir, frames, k);
      forall i :: 0 <= i < |frames| && i % k == 0 ==>
        FramePath(dir, i) in w && w[FramePath(dir, i)] == codec.encodeImage(frames[i])
  {
    ImagesWrittenDomain(files, codec, dir, frames, k);
    ImagesWrittenKeeps(files, codec, dir, frames, k);
    ImagesWrittenImages(files, codec, dir, frames, k);
  }

  /** The return value of `extract_frames` on a capture that opened. */
  function ExtractOutcome(c: Container, dir: string, k: int): Result<seq<string>, Error> {
    var frames := ReadPrefix(c.decoded);
    if k == 0 then (if |frames| > 0 then Err(ZeroDivisionError) else Ok([]))
    else Ok(ExtractedPaths(dir, |frames|, k))
  }

  /** `extract_frames`: every `k`-th frame becomes a JPEG in `dir`. The
      directory is created first; its creation fails only for an empty name. */
  method ExtractFrames(fs: FileSystem, codec: Codec, videoPath: string, dir: string, k: int)
    returns (r: Result<seq<string>, Error>)
    modifies fs
    ensures fs.handles == old(fs.handles)
    ensures videoPath !in old(fs.files) ==>
      r == Err(VideoFileNotFound(videoPath)) && fs.files == old(fs.files)
    ensures videoPath in old(fs.files) && dir == [] ==>
      r == Err(NoSuchDirectory(dir)) && fs.files == old(fs.files)
    ensures videoPath in old(fs.files) && dir != [] && Decoded(old(fs.files), codec, videoPath).None? ==>
      r == Err(CouldNotOpen(videoPath)) && fs.files == old(fs.files)
    ensures dir != [] && Decoded(old(fs.files), codec, videoPath).Some? ==>
      var c := Decoded(old(fs.files), codec, videoPath).value;
      r == ExtractOutcome(c, dir, k) &&
      fs.files == if k == 0 then old(fs.files) else ImagesWritten(old(fs.files), codec, dir, ReadPrefix(c.decoded), k)
  {
    if videoPath !in fs.files {
      return Err(VideoFileNotFound(videoPath));
    }
    if dir == [] {
      return Err(NoSuchDirectory(dir));
    }
    var cap := new VideoCapture.Open(fs, codec, videoPath);
    if !cap.IsOpened() {
      return Err(CouldNotOpen(videoPath));
    }
    var c := cap.container.value;
    ghost var frames := ReadPrefix(c.decoded);
    var paths: seq<string> := [];
    var n := 0;
    while true
      invariant 0 <= n <= |frames| && cap.pos == n
      invariant fs.handles == old(fs.handles) + {cap} && cap.IsOpened()
      invariant k == 0 ==> n == 0 && paths == [] && fs.files == old(fs.files)
      invariant k != 0 ==> paths == ExtractedPaths(dir, n, k)
      invariant k != 0 ==> fs.files == ImagesWritten(old(fs.files), codec, dir, frames[..n], k)
      decreases |c.decoded| - n
    {
      var f := cap.Read();
      ReadPrefixAt(c.decoded, n);
      if f.None? {
        break;
      }
      if k == 0 {
        cap.Release();
        return Err(ZeroDivisionError);
      }
      assert frames[..n + 1][..n] == frames[..n] && frames[..n + 1][n] == f.value;
      if n % k == 0 {
        var path := FramePath(dir, n);
        fs.WriteFile(path, codec.encodeImage(f.value));
        paths := paths + [path];
      }
      n := n + 1;
    }
    assert frames[..n] == frames;
    cap.Release();
    r := Ok(paths);
  }

  // ---------------------------------------------------------------------
  // Metadata

  /** `f"{width}x{height}"`. */
  function Resolution(width: int, height: int): string {
    FormatInt(width, 0) + "x" + FormatInt(height, 0)
  }

  /** The resolution text splits at its one `x` into the width and the height. */
  lemma ResolutionParses(width: nat, height: nat)
    ensures var r, i := Resolution(width, height), |FormatInt(width, 0)|;
      && i < |r| && r[i] == 'x' && 'x' !in r[..i] && 'x' !in r[i + 1..]
      && IsDigits(r[..i]) && ParseDecimal(r[..i]) == width
      && IsDigits(r[i + 1..]) && ParseDecimal(r[i + 1..]) == height
  {
    var r, w, h := Resolution(width, height), FormatInt(width, 0), FormatInt(height, 0);
    assert r == w + "x" + h;
    assert r[..|w|] == w;
    assert r[|w| + 1..] == h;
    NotInDigits(w, 'x');
    NotInDigits(h, 'x');
    FormatIntParses(width, 0);
    FormatIntParses(height, 0);
  }

  lemma NotInDigits(s: string, c: char)
    requires IsDigits(s) && !IsDigit(c)
    ensures c !in s
  {
    forall i | 0 <= i < |s| ensures s[i] != c {
      assert IsDigit(s[i]);
    }
  }

  /** `get_video_metadata`: the capture's properties, the derived duration
      and resolution, and the file's size in bytes. */
  method GetVideoMetadata(fs: FileSystem, codec: Codec, videoPath: string)
    returns (r: Result<VideoMetadata, Error>)
    modifies fs
    ensures fs.handles == old(fs.handles) && fs.files == old(fs.files)
    ensures videoPath !in fs.files ==> r == Err(VideoFileNotFound(videoPath))
    ensures videoPath in fs.files && Decoded(fs.files, codec, videoPath).None? ==> r == Err(CouldNotOpen(videoPath))
    ensures Decoded(fs.files, codec, videoPath).Some? ==>
      var c := Decoded(fs.files, codec, videoPath).value;
      r == Ok(VideoMetadata(c.fps, c.frameCount, c.width, c.height, Duration(c.frameCount, c.fps),
                            Resolution(c.width, c.height), |fs.files[videoPath]|))
  {
    if videoPath !in fs.files {
      return Err(VideoFileNotFound(videoPath));
    }
    var cap := new VideoCapture.Open(fs, codec, videoPath);
    if !cap.IsOpened() {
      return Err(CouldNotOpen(videoPath));
    }
    var c := cap.container.value;
    r := Ok(VideoMetadata(c.fps, c.frameCount, c.width, c.height, Duration(c.frameCount, c.fps),
                          Resolution(c.width, c.height), |fs.files[videoPath]|));
    cap.Release();
  }
}
