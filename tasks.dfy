/** The three background jobs: processing a whole video, extracting frames as
    images, and detection on chosen frames. Each job looks its video up, opens
    a tracking record in state `running`, does its work through the frame
    processor, the database and the object store, and closes the record as
    `completed`; any error on the way is written to the record (and, for the
    video job, to the video) as `failed` with the error's text, and is
    re-raised. A missing video is re-raised before anything is written. */
module Tasks {
  import opened Wrappers
  import opened Text
  import opened Errors
  import opened MediaIO
  import opened Models
  import opened Orm
  import opened YoloProcessor
  import opened MinioClient

  /** The project settings the jobs read. */
  datatype Settings = Settings(mediaRoot: string, modelPath: string, confidence: real, defaultBucket: string)

  /** What a job depends on without computing it: the settings, the model
      loader, the codec, the drawing of boxes onto a frame, the random hex
      suffix of the `j`-th upload, whether provisioning the `i`-th required
      bucket fails, and whether the `j`-th upload's store call fails. */
  datatype Env = Env(
    settings: Settings,
    load: string -> Option<Detector>,
    codec: Codec,
    draw: (Frame, seq<Detection>) -> Frame,
    suffix: nat -> string,
    bucketFault: nat -> bool,
    uploadFault: nat -> bool)

  /** The success values of the three jobs (timings are not modelled). */
  datatype VideoSummary = VideoSummary(videoId: string, processedFrames: int, totalDetections: int)
  datatype ExtractSummary = ExtractSummary(videoId: string, extractedFrames: int, minioKeys: seq<string>)
  datatype DetectSummary = DetectSummary(videoId: string, processedFrames: int, detectionsCount: int)

  // ---------------------------------------------------------------------
  // Paths

  /** `YOLOProcessor()` with no arguments: the model and threshold settings. */
  function DefaultProcessor(env: Env): Result<Processor, Error> {
    NewProcessor(None, None, env.settings.modelPath, env.settings.confidence, env.load)
  }

  /** `video.video_file.path`: the stored name under the media root. */
  function VideoPath(s: Settings, v: Video): string {
    Join(s.mediaRoot, v.videoFile)
  }

  /** Where the annotated copy of a video goes: `processed_<name><ext>` in the
      `processed_videos` directory of the media root. */
  function ProcessedOutputPath(s: Settings, videoPath: string): string {
    var name := SplitExt(Basename(videoPath));
    Join(Join(s.mediaRoot, "processed_videos"), "processed_" + name.0 + name.1)
  }

  /** The output name is the video's own basename behind `processed_`. */
  lemma ProcessedOutputPathShape(s: Settings, videoPath: string)
    ensures ProcessedOutputPath(s, videoPath) == Join(Join(s.mediaRoot, "processed_videos"), "processed_" + Basename(videoPath))
    ensures Basename(ProcessedOutputPath(s, videoPath)) == "processed_" + Basename(videoPath)
  {
    var b := Basename(videoPath);
    ProcessedName(b);
    assert '/' !in "processed_" + b;
    BasenameOfJoin(Join(s.mediaRoot, "processed_videos"), "processed_" + b);
  }

  lemma ProcessedName(b: string)
    ensures "processed_" + SplitExt(b).0 + SplitExt(b).1 == "processed_" + b
  {
    var name := SplitExt(b);
    assert "processed_" + name.0 + name.1 == "processed_" + (name.0 + name.1);
  }

  /** `MEDIA_ROOT/extracted_frames/<video id>`. */
  function FramesDir(s: Settings, videoId: string): (r: string)
    ensures r != []
  {
    Join(Join(s.mediaRoot, "extracted_frames"), videoId)
  }

  // ---------------------------------------------------------------------
  // Rows written for detections

  /** The `DetectedObject` row of one detection: the box copied as reported. */
  function ObjectRow(videoId: string, n: int, d: Detection): DetectedObject {
    DetectedObject(videoId, n, d.className, d.confidence, d.bbox.x, d.bbox.y, d.bbox.width, d.bbox.height)
  }

  function ObjectRowsOf(videoId: string, n: int, objs: seq<Detection>): (r: seq<DetectedObject>)
    ensures |r| == |objs| && forall i :: 0 <= i < |objs| ==> r[i] == ObjectRow(videoId, n, objs[i])
  {
    seq(|objs|, i requires 0 <= i < |objs| => ObjectRow(videoId, n, objs[i]))
  }

  /** The `ProcessedFrame` row of one frame result (no image, no key). */
  function FrameRow(videoId: string, fr: FrameResult): ProcessedFrame {
    ProcessedFrame(videoId, fr.frameNumber, "", fr.objectCount, "")
  }

  /** The frame rows of a list of results, in result order. */
  function FrameRows(videoId: string, ds: seq<FrameResult>): seq<ProcessedFrame> {
    if ds == [] then [] else FrameRows(videoId, ds[..|ds| - 1]) + [FrameRow(videoId, ds[|ds| - 1])]
  }

  /** The object rows of a list of results: result after result, and within
      a result in detection order. */
  function ObjectRows(videoId: string, ds: seq<FrameResult>): seq<DetectedObject> {
    if ds == [] then []
    else
      var last := ds[|ds| - 1];
      ObjectRows(videoId, ds[..|ds| - 1]) + ObjectRowsOf(videoId, last.frameNumber, last.objects)
  }

  /** `sum(len(d['objects']) for d in detections)`. */
  function TotalObjects(ds: seq<FrameResult>): int {
    if ds == [] then 0 else TotalObjects(ds[..|ds| - 1]) + |ds[|ds| - 1].objects|
  }

  lemma RowsSnoc(videoId: string, ds: seq<FrameResult>, fr: FrameResult)
    ensures FrameRows(videoId, ds + [fr]) == FrameRows(videoId, ds) + [FrameRow(videoId, fr)]
    ensures ObjectRows(videoId, ds + [fr]) == ObjectRows(videoId, ds) + ObjectRowsOf(videoId, fr.frameNumber, fr.objects)
    ensures TotalObjects(ds + [fr]) == TotalObjects(ds) + |fr.objects|
  {
    assert (ds + [fr])[..|ds|] == ds;
  }

  /** `RowsSnoc` for the prefix of length `i + 1`. */
  lemma RowsStep(videoId: string, ds: seq<FrameResult>, i: nat)
    requires i < |ds|
    ensures FrameRows(videoId, ds[..i + 1]) == FrameRows(videoId, ds[..i]) + [FrameRow(videoId, ds[i])]
    ensures ObjectRows(videoId, ds[..i + 1]) == ObjectRows(videoId, ds[..i]) + ObjectRowsOf(videoId, ds[i].frameNumber, ds[i].objects)
    ensures TotalObjects(ds[..i + 1]) == TotalObjects(ds[..i]) + |ds[i].objects|
  {
    assert ds[..i + 1] == ds[..i] + [ds[i]];
    RowsSnoc(videoId, ds[..i], ds[i]);
  }

  /** Frame row `j` is the row of result `j`. */
  lemma {:induction false} FrameRowsAt(videoId: string, ds: seq<FrameResult>)
    ensures |FrameRows(videoId, ds)| == |ds|
    ensures forall j :: 0 <= j < |ds| ==> FrameRows(videoId, ds)[j] == FrameRow(videoId, ds[j])
  {
    if ds != [] {
      FrameRowsAt(videoId, ds[..|ds| - 1]);
    }
  }

  /** One object row is written per detection: the count a job reports is
      the number of rows it adds. */
  lemma {:induction false} ObjectRowsCount(videoId: string, ds: seq<FrameResult>)
    ensures |ObjectRows(videoId, ds)| == TotalObjects(ds)
  {
    if ds != [] {
      ObjectRowsCount(videoId, ds[..|ds| - 1]);
    }
  }

  /** `o` is the row of some detection of some result, carrying that
      result's frame number. */
  predicate IsDetectionRow(videoId: string, ds: seq<FrameResult>, o: DetectedObject) {
    exists j, m :: 0 <= j < |ds| && 0 <= m < |ds[j].objects| && o == ObjectRow(videoId, ds[j].frameNumber, ds[j].objects[m])
  }

  /** Every row written is the row of a detection. */
  lemma {:induction false} ObjectRowsSound(videoId: string, ds: seq<FrameResult>, o: DetectedObject)
    requires o in ObjectRows(videoId, ds)
    ensures IsDetectionRow(videoId, ds, o)
  {
    var init, last := ds[..|ds| - 1], ds[|ds| - 1];
    var tail := ObjectRowsOf(videoId, last.frameNumber, last.objects);
    if o in ObjectRows(videoId, init) {
      ObjectRowsSound(videoId, init, o);
      var j, m :| 0 <= j < |init| && 0 <= m < |init[j].objects| && o == ObjectRow(videoId, init[j].frameNumber, init[j].objects[m]);
      assert ds[j] == init[j];
    } else {
      assert o in tail;
      var m :| 0 <= m < |tail| && tail[m] == o;
      assert o == ObjectRow(videoId, ds[|ds| - 1].frameNumber, ds[|ds| - 1].objects[m]);
    }
  }

  /** The row of every detection is written. */
  lemma {:induction false} ObjectRowsComplete(videoId: string, ds: seq<FrameResult>, j: nat, m: nat)
    requires j < |ds| && m < |ds[j].objects|
    ensures ObjectRow(videoId, ds[j].frameNumber, ds[j].objects[m]) in ObjectRows(videoId, ds)
  {
    var init, last := ds[..|ds| - 1], ds[|ds| - 1];
    var tail := ObjectRowsOf(videoId, last.frameNumber, last.objects);
    if j < |init| {
      assert init[j] == ds[j];
      ObjectRowsComplete(videoId, init, j, m);
    } else {
      assert tail[m] == ObjectRow(videoId, ds[j].frameNumber, ds[j].objects[m]);
    }
  }

  /** A row is written iff it is the row of some detection of some result,
      carrying that result's frame number. */
  lemma ObjectRowsMembers(videoId: string, ds: seq<FrameResult>, o: DetectedObject)
    ensures o in ObjectRows(videoId, ds) <==> IsDetectionRow(videoId, ds, o)
  {
    if o in ObjectRows(videoId, ds) {
      ObjectRowsSound(videoId, ds, o);
    }
    if IsDetectionRow(videoId, ds, o) {
      var j, m :| 0 <= j < |ds| && 0 <= m < |ds[j].objects| && o == ObjectRow(videoId, ds[j].frameNumber, ds[j].objects[m]);
      ObjectRowsComplete(videoId, ds, j, m);
    }
  }

  /** The frame rows of a whole-video run are in frame order and, when the
      video had no frame rows before, never break frame-key uniqueness. */
  lemma VideoRunFramesUnique(p: Processor, frames: seq<Frame>, videoId: string, before: seq<ProcessedFrame>)
    requires FrameKeysUnique(before)
    requires forall i :: 0 <= i < |before| ==> before[i].video != videoId
    ensures var rows := FrameRows(videoId, FrameDetections(p, frames, 1));
      FramesOrdered(rows) && FrameKeysUnique(before + rows)
  {
    var ds := FrameDetections(p, frames, 1);
    var rows := FrameRows(videoId, ds);
    SamplingContract(p, frames, 1);
    FrameRowsAt(videoId, ds);
    StrictlyIncreasingFramesUnique(rows, videoId);
    var all := before + rows;
    forall i, j | 0 <= i < j < |all|
      ensures (all[i].video, all[i].frameNumber) != (all[j].video, all[j].frameNumber)
    {
      if j >= |before| && i < |before| {
        assert all[j] == rows[j - |before|];
      } else if i >= |before| {
        assert all[i] == rows[i - |before|] && all[j] == rows[j - |before|];
      }
    }
  }

  /** Running the video job again on a video whose first frame already has a
      row cannot add that frame's row: the frame-key rule forbids it. */
  lemma RerunBreaksUniqueness(p: Processor, frames: seq<Frame>, videoId: string, before: seq<ProcessedFrame>, i: nat)
    requires frames != [] && i < |before| && before[i].video == videoId && before[i].frameNumber == 0
    ensures !FrameKeysUnique(before + FrameRows(videoId, FrameDetections(p, frames, 1)))
  {
    var ds := FrameDetections(p, frames, 1);
    SamplingContract(p, frames, 1);
    assert 0 < |frames| && 0 % 1 == 0;
    var j :| 0 <= j < |ds| && ds[j].frameNumber == 0;
    FrameRowsAt(videoId, ds);
    var all := before + FrameRows(videoId, ds);
    assert all[i] == before[i] && all[|before| + j] == FrameRow(videoId, ds[j]);
  }

  // ---------------------------------------------------------------------
  // Detection on chosen frames

  /** `list(range(0, total_frames, 30))`. */
  function DefaultFrameNumbers(total: int): seq<int> {
    if total <= 0 then [] else Selected(total, 30)
  }

  /** The default frame list is every 30th frame number below the count, in
      increasing order, `ceil(total / 30)` of them. */
  lemma DefaultFrameNumbersContract(total: int)
    ensures var fns := DefaultFrameNumbers(total);
      && (forall x :: x in fns <==> 0 <= x < total && x % 30 == 0)
      && (forall i, j :: 0 <= i < j < |fns| ==> fns[i] < fns[j])
      && (total >= 0 ==> |fns| == (total + 29) / 30)
  {
    if total > 0 {
      SelectedIncreasing(total, 30);
      SelectedCount(total, 30);
      forall x ensures x in Selected(total, 30) <==> 0 <= x < total && x % 30 == 0 {
        SelectedMembers(total, 30, x);
      }
    }
  }

  /** A seek to frame `n` followed by a read. */
  function SeekRead(c: Container, n: int): Option<Frame> {
    if 0 <= n < |c.decoded| then c.decoded[n] else None
  }

  /** The results of detection on the first `m` requested frames, skipping
      the frames that could not be read. */
  function SeekResults(p: Processor, c: Container, fns: seq<int>, m: nat): seq<FrameResult>
    requires m <= |fns|
  {
    if m == 0 then []
    else
      SeekResults(p, c, fns, m - 1) +
      match SeekRead(c, fns[m - 1])
      case Some(f) => [FrameResultOf(p, f, fns[m - 1])]
      case None => []
  }

  /** The result for each readable requested frame, in request order. */
  lemma {:induction false} SeekResultsMembers(p: Processor, c: Container, fns: seq<int>, m: nat, fr: FrameResult)
    requires m <= |fns|
    ensures fr in SeekResults(p, c, fns, m) <==>
      exists i :: 0 <= i < m && SeekRead(c, fns[i]).Some? && fr == FrameResultOf(p, SeekRead(c, fns[i]).value, fns[i])
  {
    if m > 0 {
      SeekResultsMembers(p, c, fns, m - 1, fr);
    }
  }

  /** `int((i + 1) / len(frame_numbers) * 100)` in exact arithmetic. */
  function Progress(i: nat, n: nat): int
    requires i < n
  {
    (i + 1) * 100 / n
  }

  /** The progress values saved while the first `m` requested frames were
      handled: one after each frame that could be read. */
  function ProgressTrail(c: Container, fns: seq<int>, m: nat): seq<int>
    requires m <= |fns|
  {
    if m == 0 then []
    else ProgressTrail(c, fns, m - 1) + if SeekRead(c, fns[m - 1]).Some? then [Progress(m - 1, |fns|)] else []
  }

  /** The processing-task rows those saves write. */
  function ProgressRecords(t: ProcessingTask, qs: seq<int>): (r: seq<ProcessingTask>)
    ensures |r| == |qs| && forall i :: 0 <= i < |qs| ==> r[i] == t.(progress := qs[i])
  {
    seq(|qs|, i requires 0 <= i < |qs| => t.(progress := qs[i]))
  }

  lemma DivMonotone(a: int, b: int, n: int)
    requires 0 <= a <= b && n > 0
    ensures a / n <= b / n
  {
    var qa, qb := a / n, b / n;
    assert qa * n <= a;
    assert b < qb * n + n;
    assert qa * n < (qb + 1) * n;
    MulCancel(qa, qb + 1, n);
  }

  lemma MulCancel(x: int, y: int, n: int)
    requires n > 0 && x * n < y * n
    ensures x < y
  {
  }

  /** Progress grows with the frame index, lies in 0..100, and is 100 at the
      last frame. */
  lemma ProgressBounds(i: nat, j: nat, n: nat)
    requires i <= j < n
    ensures 0 <= Progress(i, n) <= Progress(j, n) <= 100
    ensures Progress(n - 1, n) == 100
  {
    DivMonotone((i + 1) * 100, (j + 1) * 100, n);
    DivMonotone((j + 1) * 100, n * 100, n);
    DivOf(100, 0, n);
  }

  /** The saved progress values never go down, each is a valid progress
      value, there is one per frame read, and the last is 100 when the last
      requested frame was read. */
  lemma {:induction false} ProgressTrailShape(p: Processor, c: Container, fns: seq<int>, m: nat)
    requires m <= |fns|
    ensures var t := ProgressTrail(c, fns, m);
      && |t| == |SeekResults(p, c, fns, m)|
      && (forall a, b :: 0 <= a < b < |t| ==> t[a] <= t[b])
      && (forall a :: 0 <= a < |t| ==> 0 <= t[a] <= 100)
      && (m > 0 ==> forall a :: 0 <= a < |t| ==> t[a] <= Progress(m - 1, |fns|))
      && (m == |fns| > 0 && SeekRead(c, fns[m - 1]).Some? ==> t[|t| - 1] == 100)
  {
    if m > 0 {
      ProgressTrailShape(p, c, fns, m - 1);
      var t0, t := ProgressTrail(c, fns, m - 1), ProgressTrail(c, fns, m);
      var q := Progress(m - 1, |fns|);
      ProgressBounds(m - 1, m - 1, |fns|);
      if m > 1 {
        ProgressBounds(m - 2, m - 1, |fns|);
        forall a | 0 <= a < |t0| ensures t0[a] <= q {
        }
      }
      if m == |fns| {
        ProgressBounds(m - 1, m - 1, |fns|);
      }
    }
  }

  // ---------------------------------------------------------------------
  // Steps shared by the jobs

  /** The tracking record a job opens: `running`, started at `started`. */
  function RunningRecord(taskId: string, videoId: string, taskType: TaskType, celeryId: string,
                         started: Time, created: Time): ProcessingTask
  {
    NewTask(taskId, videoId, taskType, celeryId, Some(TaskStatus.Running), created, Some(started))
  }

  /** `Video.objects.get` and `ProcessingTask.objects.create`: a missing
      video is reported before anything is written; otherwise the record is
      stamped (start time first, then creation time) and inserted. */
  method StartTask(db: Database, clock: Clock, videoId: string, taskType: TaskType,
                   celeryId: string, taskId: string)
    returns (r: Result<nat, Error>, video: Video, record: ProcessingTask)
    requires db.Valid()
    modifies db, clock
    ensures db.Valid()
    ensures db.videos == old(db.videos) && db.frames == old(db.frames) && db.objects == old(db.objects)
    ensures db.videoHistory == old(db.videoHistory)
    ensures videoId !in old(db.videos) ==>
      r == Err(VideoDoesNotExist(videoId)) && db.tasks == old(db.tasks) && db.taskHistory == old(db.taskHistory)
      && db.writes == old(db.writes) && clock.now == old(clock.now)
    ensures videoId in old(db.videos) ==>
      && video == old(db.videos)[videoId]
      && record == RunningRecord(taskId, videoId, taskType, celeryId, old(clock.now), old(clock.now) + 1)
      && clock.now == old(clock.now) + 2
      && db.writes == old(db.writes) + 1
      && (old(db.writes) in db.faults ==> r == Err(DatabaseError(old(db.writes))))
      && (old(db.writes) !in db.faults && !CeleryIdTaken(old(db.tasks), celeryId) ==> r.Ok?)
      && (r.Err? ==> (r.error.DatabaseError? || r.error.IntegrityError?) && db.tasks == old(db.tasks) && db.taskHistory == old(db.taskHistory))
      && (r.Ok? ==> r.value == |old(db.tasks)| && db.tasks == old(db.tasks) + [record]
                    && db.taskHistory == old(db.taskHistory) + [record])
  {
    var got := db.GetVideo(videoId);
    if got.Err? {
      return Err(got.error), NewVideo(videoId, "", "", "", None, 0), NewTask(taskId, videoId, taskType, celeryId, None, 0, None);
    }
    video := got.value;
    var started := clock.Now();
    var created := clock.Now();
    record := RunningRecord(taskId, videoId, taskType, celeryId, started, created);
    r := db.CreateTask(record);
  }

  /** The handler's write of a job's record: `failed`, stamped, with the
      error's text. Handler writes are not themselves fallible here. */
  method FailTask(db: Database, clock: Clock, i: nat, t: ProcessingTask, e: Error)
    requires db.Valid() && i < |db.tasks| && db.tasks[i].celeryTaskId == t.celeryTaskId
    modifies db, clock
    ensures db.Valid()
    ensures var failed := t.(status := TaskStatus.Failed, completedAt := Some(old(clock.now)), errorMessage := Message(e));
      db.tasks == old(db.tasks)[i := failed] && db.taskHistory == old(db.taskHistory) + [failed]
    ensures db.videos == old(db.videos) && db.frames == old(db.frames) && db.objects == old(db.objects)
    ensures db.videoHistory == old(db.videoHistory) && db.writes == old(db.writes)
    ensures clock.now == old(clock.now) + 1
  {
    var now := clock.Now();
    var failed := t.(status := TaskStatus.Failed, completedAt := Some(now), errorMessage := Message(e));
    var saved := db.SaveTask(i, failed, false);
  }

  /** The handler's write of the video: `failed` with the error's text. */
  method FailVideo(db: Database, v: Video, e: Error)
    requires db.Valid() && v.id in db.videos
    modifies db
    ensures db.Valid()
    ensures var failed := v.(status := VideoStatus.Failed, errorMessage := Message(e));
      db.videos == old(db.videos)[v.id := failed] && db.videoHistory == old(db.videoHistory) + [failed]
    ensures db.tasks == old(db.tasks) && db.frames == old(db.frames) && db.objects == old(db.objects)
    ensures db.taskHistory == old(db.taskHistory) && db.writes == old(db.writes)
  {
    var failed := v.(status := VideoStatus.Failed, errorMessage := Message(e));
    var saved := db.SaveVideo(failed, false);
  }

  /** One `DetectedObject.objects.create` per detection of a frame, in order,
      stopping at the first failed write. */
  method SaveObjects(db: Database, videoId: string, n: int, objs: seq<Detection>) returns (r: Result<(), Error>)
    requires db.Valid()
    modifies db
    ensures db.Valid() && db.writes >= old(db.writes)
    ensures db.videos == old(db.videos) && db.tasks == old(db.tasks) && db.frames == old(db.frames)
    ensures db.taskHistory == old(db.taskHistory) && db.videoHistory == old(db.videoHistory)
    ensures r.Ok? ==> db.objects == old(db.objects) + ObjectRowsOf(videoId, n, objs)
    ensures r.Err? ==> exists k :: 0 <= k <= |objs| && db.objects == old(db.objects) + ObjectRowsOf(videoId, n, objs[..k])
    ensures db.FaultFreeFrom(old(db.writes)) ==> r.Ok?
  {
    var j := 0;
    while j < |objs|
      invariant 0 <= j <= |objs|
      invariant db.Valid() && db.writes >= old(db.writes)
      invariant db.videos == old(db.videos) && db.tasks == old(db.tasks) && db.frames == old(db.frames)
      invariant db.taskHistory == old(db.taskHistory) && db.videoHistory == old(db.videoHistory)
      invariant db.objects == old(db.objects) + ObjectRowsOf(videoId, n, objs[..j])
    {
      var created := db.CreateObject(ObjectRow(videoId, n, objs[j]));
      if created.Err? {
        return Err(created.error);
      }
      assert ObjectRowsOf(videoId, n, objs[..j + 1]) == ObjectRowsOf(videoId, n, objs[..j]) + [ObjectRow(videoId, n, objs[j])];
      j := j + 1;
    }
    assert objs[..j] == objs;
    r := Ok(());
  }

  /** One result of the whole-video job: its frame row, then its object rows. */
  method PersistResult(db: Database, videoId: string, fr: FrameResult) returns (r: Result<(), Error>)
    requires db.Valid()
    modifies db
    ensures db.Valid() && db.writes >= old(db.writes)
    ensures db.videos == old(db.videos) && db.tasks == old(db.tasks)
    ensures db.taskHistory == old(db.taskHistory) && db.videoHistory == old(db.videoHistory)
    ensures old(db.frames) <= db.frames
    ensures old(db.objects) <= db.objects
    ensures r.Ok? ==>
      db.frames == old(db.frames) + [FrameRow(videoId, fr)]
      && db.objects == old(db.objects) + ObjectRowsOf(videoId, fr.frameNumber, fr.objects)
  {
    var made := db.CreateFrame(FrameRow(videoId, fr));
    if made.Err? {
      return Err(made.error);
    }
    r := SaveObjects(db, videoId, fr.frameNumber, fr.objects);
  }

  /** The whole-video job's loop over its results: a frame row, then the
      frame's object rows, result after result. */
  method PersistDetections(db: Database, videoId: string, ds: seq<FrameResult>) returns (r: Result<(), Error>)
    requires db.Valid()
    modifies db
    ensures db.Valid() && db.writes >= old(db.writes)
    ensures db.videos == old(db.videos) && db.tasks == old(db.tasks)
    ensures db.taskHistory == old(db.taskHistory) && db.videoHistory == old(db.videoHistory)
    ensures old(db.frames) <= db.frames
    ensures old(db.objects) <= db.objects
    ensures r.Ok? ==>
      db.frames == old(db.frames) + FrameRows(videoId, ds) && db.objects == old(db.objects) + ObjectRows(videoId, ds)
  {
    var i := 0;
    while i < |ds|
      invariant 0 <= i <= |ds|
      invariant db.Valid() && db.writes >= old(db.writes)
      invariant db.videos == old(db.videos) && db.tasks == old(db.tasks)
      invariant db.taskHistory == old(db.taskHistory) && db.videoHistory == old(db.videoHistory)
      invariant db.frames == old(db.frames) + FrameRows(videoId, ds[..i])
      invariant db.objects == old(db.objects) + ObjectRows(videoId, ds[..i])
    {
      var saved := PersistResult(db, videoId, ds[i]);
      if saved.Err? {
        return Err(saved.error);
      }
      RowsStep(videoId, ds, i);
      i := i + 1;
    }
    assert ds[..i] == ds;
    r := Ok(());
  }

  // ---------------------------------------------------------------------
  // process_video_task

  /** The key the annotated copy is stored under. */
  function ProcessedVideoKey(out: string, suffix: string): string {
    ObjectKey("processed-videos", SuffixedName(Basename(out), suffix))
  }

  /** The video's stored-copy key after the upload step: the new key when the
      annotated copy exists, the previous one otherwise. */
  function CopyKey(env: Env, files: map<string, Bytes>, out: string, previous: string): string {
    if out in files then ProcessedVideoKey(out, env.suffix(0)) else previous
  }

  /** The store's objects after the upload step: the annotated copy's bytes
      under its suffixed name in `processed-videos` when the copy exists,
      and no change otherwise. */
  function StoredCopy(env: Env, files: map<string, Bytes>, out: string,
                      objects: map<(string, string), Bytes>): map<(string, string), Bytes> {
    if out in files then objects[("processed-videos", SuffixedName(Basename(out), env.suffix(0))) := files[out]]
    else objects
  }

  /** The video row once the job has stored its copy's key and completed. */
  function ClosedVideo(v: Video, key: string, completed: Time): Video {
    v.(processedMinioKey := key, status := VideoStatus.Completed, processingCompletedAt := Some(completed))
  }

  /** What a successful run of the whole-video job leaves behind, given the
      files `files0` and the video row `v0` it started from: every frame read
      was sent to the detector, each result has its frame row and its object
      rows, the video row carries the
      capture's metadata, the stored copy's key when there is a copy, and the
      state `completed`, and the summary counts frames and detections. */
  predicate VideoJobSucceeded(env: Env, files0: map<string, Bytes>, v0: Video,
                              frames0: seq<ProcessedFrame>, objects0: seq<DetectedObject>,
                              files: map<string, Bytes>, frames: seq<ProcessedFrame>,
                              objects: seq<DetectedObject>, v: Video, summary: VideoSummary)
  {
    var path := VideoPath(env.settings, v0);
    var out := ProcessedOutputPath(env.settings, path);
    var p := DefaultProcessor(env);
    var c := Decoded(files0, env.codec, path);
    && p.Ok? && c.Some? && path in files0
    && var ds := FrameDetections(p.value, ReadPrefix(c.value.decoded), 1);
    && frames == frames0 + FrameRows(v0.id, ds)
    && objects == objects0 + ObjectRows(v0.id, ds)
    && summary == VideoSummary(v0.id, |ds|, TotalObjects(ds))
    && v.processingStartedAt.Some? && v.processingCompletedAt.Some?
    && v.processingStartedAt.value < v.processingCompletedAt.value
    && v == v0.(status := VideoStatus.Completed,
                processingStartedAt := v.processingStartedAt,
                processingCompletedAt := v.processingCompletedAt,
                duration := Some(Duration(c.value.frameCount, c.value.fps)),
                frameCount := Some(c.value.frameCount), fps := Some(c.value.fps),
                resolution := Resolution(c.value.width, c.value.height),
                fileSize := Some(|files0[path]|),
                processedMinioKey := CopyKey(env, files, out, v0.processedMinioKey))
  }

  /** The files a successful whole-video job leaves: those it started from
      with the annotated copy written frame by frame at its output path. */
  predicate AnnotatedCopyWritten(env: Env, files0: map<string, Bytes>, v0: Video, files: map<string, Bytes>) {
    var path := VideoPath(env.settings, v0);
    var p := DefaultProcessor(env);
    var c := Decoded(files0, env.codec, path);
    && p.Ok? && c.Some?
    && files == FilesAfterProcessing(files0, p.value, env.codec, c.value, Some(ProcessedOutputPath(env.settings, path)), 1, env.draw)
  }

  /** The video row once the job has started on it and read its metadata. */
  function PreparedVideo(v: Video, started: Time, c: Container, size: int): Video {
    v.(status := VideoStatus.Processing, processingStartedAt := Some(started),
       duration := Some(Duration(c.frameCount, c.fps)), frameCount := Some(c.frameCount), fps := Some(c.fps),
       resolution := Resolution(c.width, c.height), fileSize := Some(size))
  }

  /** The success predicate from the facts each part of the job establishes. */
  lemma VideoJobSucceededIntro(env: Env, files0: map<string, Bytes>, v0: Video,
                               frames0: seq<ProcessedFrame>, objects0: seq<DetectedObject>,
                               files: map<string, Bytes>, frames: seq<ProcessedFrame>,
                               objects: seq<DetectedObject>, v: Video, summary: VideoSummary,
                               p: Processor, c: Container, ds: seq<FrameResult>, pv: Video, t1: Time, t3: Time)
    requires DefaultProcessor(env) == Ok(p)
    requires VideoPath(env.settings, v0) in files0
    requires Decoded(files0, env.codec, VideoPath(env.settings, v0)) == Some(c)
    requires ds == FrameDetections(p, ReadPrefix(c.decoded), 1)
    requires frames == frames0 + FrameRows(v0.id, ds) && objects == objects0 + ObjectRows(v0.id, ds)
    requires summary == VideoSummary(v0.id, |ds|, TotalObjects(ds))
    requires t1 < t3 && pv == PreparedVideo(v0, t1, c, |files0[VideoPath(env.settings, v0)]|)
    requires var out := ProcessedOutputPath(env.settings, VideoPath(env.settings, v0));
      v == ClosedVideo(pv, CopyKey(env, files, out, pv.processedMinioKey), t3)
    ensures VideoJobSucceeded(env, files0, v0, frames0, objects0, files, frames, objects, v, summary)
  {
  }

  /** The video goes to `processing`, stamped by the clock. */
  method MarkProcessing(db: Database, clock: Clock, video: Video) returns (r: Result<(), Error>, videoOut: Video)
    requires db.Valid() && video.id in db.videos
    modifies db, clock
    ensures db.Valid() && clock.now == old(clock.now) + 1
    ensures videoOut == video.(status := VideoStatus.Processing, processingStartedAt := Some(old(clock.now)))
    ensures db.tasks == old(db.tasks) && db.frames == old(db.frames) && db.objects == old(db.objects)
    ensures db.taskHistory == old(db.taskHistory)
    ensures r.Err? ==> db.videos == old(db.videos) && db.videoHistory == old(db.videoHistory)
    ensures r.Ok? ==> db.videos == old(db.videos)[video.id := videoOut] && db.videoHistory == old(db.videoHistory) + [videoOut]
  {
    var t1 := clock.Now();
    videoOut := video.(status := VideoStatus.Processing, processingStartedAt := Some(t1));
    r := db.SaveVideo(videoOut, true);
  }

  /** The capture's metadata and the file's size are read into the video row. */
  method StoreMetadata(db: Database, fs: FileSystem, env: Env, path: string, video: Video)
    returns (r: Result<(), Error>, videoOut: Video)
    requires db.Valid() && video.id in db.videos
    modifies db, fs
    ensures db.Valid() && videoOut.id == video.id
    ensures fs.files == old(fs.files) && fs.handles == old(fs.handles)
    ensures db.tasks == old(db.tasks) && db.frames == old(db.frames) && db.objects == old(db.objects)
    ensures db.taskHistory == old(db.taskHistory)
    ensures r.Err? ==> db.videos == old(db.videos) && db.videoHistory == old(db.videoHistory)
    ensures r.Ok? ==>
      var c := Decoded(fs.files, env.codec, path);
      && c.Some? && path in fs.files
      && videoOut == video.(duration := Some(Duration(c.value.frameCount, c.value.fps)), frameCount := Some(c.value.frameCount),
                            fps := Some(c.value.fps), resolution := Resolution(c.value.width, c.value.height),
                            fileSize := Some(|fs.files[path]|))
      && db.videos == old(db.videos)[video.id := videoOut]
      && db.videoHistory == old(db.videoHistory) + [videoOut]
  {
    videoOut := video;
    var meta := GetVideoMetadata(fs, env.codec, path);
    if meta.Err? {
      return Err(meta.error), videoOut;
    }
    var m := meta.value;
    videoOut := videoOut.(duration := Some(m.duration), frameCount := Some(m.frameCount), fps := Some(m.fps),
                          resolution := m.resolution, fileSize := Some(m.fileSize));
    r := db.SaveVideo(videoOut, true);
  }

  /** The first part of `process_video_task`'s body: the video goes to
      `processing`, the processor is built and the metadata is read into the
      video row. */
  method PrepareVideo(db: Database, fs: FileSystem, clock: Clock, env: Env, video: Video)
    returns (r: Result<Processor, Error>, videoOut: Video)
    requires db.Valid() && video.id in db.videos
    modifies db, fs, clock
    ensures db.Valid() && videoOut.id == video.id && clock.now == old(clock.now) + 1
    ensures fs.files == old(fs.files) && fs.handles == old(fs.handles)
    ensures db.tasks == old(db.tasks) && db.frames == old(db.frames) && db.objects == old(db.objects)
    ensures db.taskHistory == old(db.taskHistory)
    ensures video.id in db.videos && db.videos == old(db.videos)[video.id := db.videos[video.id]]
    ensures old(db.videoHistory) <= db.videoHistory
    ensures r.Ok? ==>
      var path := VideoPath(env.settings, video);
      var c := Decoded(fs.files, env.codec, path);
      && r == DefaultProcessor(env) && c.Some? && path in fs.files
      && videoOut == PreparedVideo(video, old(clock.now), c.value, |fs.files[path]|)
      && db.videos == old(db.videos)[video.id := videoOut]
      && db.videoHistory == old(db.videoHistory) +
           [video.(status := VideoStatus.Processing, processingStartedAt := Some(old(clock.now)))] + [videoOut]
  {
    var saved;
    saved, videoOut := MarkProcessing(db, clock, video);
    if saved.Err? {
      return Err(saved.error), videoOut;
    }
    ghost var marked := videoOut;
    r := DefaultProcessor(env);
    if r.Err? {
      return r, videoOut;
    }
    saved, videoOut := StoreMetadata(db, fs, env, VideoPath(env.settings, video), videoOut);
    UpdateTwice(old(db.videos), video.id, marked, videoOut);
    if saved.Err? {
      return Err(saved.error), videoOut;
    }
  }

  /** The second part: detection over the whole video with an annotated
      copy, and the rows of the results. */
  method RunVideo(db: Database, fs: FileSystem, env: Env, p: Processor, videoId: string, path: string, out: string)
    returns (r: Result<seq<FrameResult>, Error>)
    requires db.Valid() && Decoded(fs.files, env.codec, path).Some?
    modifies db, fs
    ensures db.Valid() && fs.handles == old(fs.handles)
    ensures db.videos == old(db.videos) && db.tasks == old(db.tasks)
    ensures db.taskHistory == old(db.taskHistory) && db.videoHistory == old(db.videoHistory)
    ensures old(db.frames) <= db.frames
    ensures old(db.objects) <= db.objects
    ensures r.Ok? ==>
      var c := Decoded(old(fs.files), env.codec, path).value;
      && r.value == FrameDetections(p, ReadPrefix(c.decoded), 1)
      && fs.files == FilesAfterProcessing(old(fs.files), p, env.codec, c, Some(out), 1, env.draw)
      && db.frames == old(db.frames) + FrameRows(videoId, r.value)
      && db.objects == old(db.objects) + ObjectRows(videoId, r.value)
  {
    // The capture opened when the metadata was read, and with every frame
    // sampled the processor's run cannot fail.
    var results := ProcessVideo(p, fs, env.codec, env.draw, path, Some(out), 1);
    var ds := results.value.detections;
    var persisted := PersistDetections(db, videoId, ds);
    if persisted.Err? {
      return Err(persisted.error);
    }
    r := Ok(ds);
  }

  /** The store is provisioned and, when the annotated copy exists, it is
      uploaded to `processed-videos` under its own name; the result is its
      key, or nothing when there was no copy. */
  method UploadProcessedCopy(fs: FileSystem, store: ObjectStore, env: Env, out: string)
    returns (r: Result<Option<string>, Error>)
    modifies store
    ensures store.buckets == Provision(old(store.buckets), RequiredBuckets(env.settings.defaultBucket), env.bucketFault)
    ensures r.Ok? ==> r.value == if out in fs.files then Some(ProcessedVideoKey(out, env.suffix(0))) else None
    ensures r.Ok? ==> store.objects == StoredCopy(env, fs.files, out, old(store.objects))
  {
    var client := new Client(store, env.settings.defaultBucket, env.bucketFault);
    if out !in fs.files {
      return Ok(None);
    }
    var up := client.UploadFile(fs, out, Some("processed-videos"), None, env.suffix(0), env.uploadFault(0));
    if up.Err? {
      return Err(up.error);
    }
    r := Ok(Some(up.value));
  }

  /** The third part: the annotated copy is uploaded and its key saved on
      the video. */
  method UploadCopy(db: Database, fs: FileSystem, store: ObjectStore, env: Env, out: string, video: Video)
    returns (r: Result<(), Error>, videoOut: Video)
    requires db.Valid() && video.id in db.videos && db.videos[video.id] == video
    modifies db, store
    ensures db.Valid() && videoOut.id == video.id
    ensures db.tasks == old(db.tasks) && db.taskHistory == old(db.taskHistory)
    ensures db.frames == old(db.frames) && db.objects == old(db.objects)
    ensures video.id in db.videos && db.videos == old(db.videos)[video.id := db.videos[video.id]]
    ensures old(db.videoHistory) <= db.videoHistory
    ensures r.Ok? ==>
      && videoOut == video.(processedMinioKey := CopyKey(env, fs.files, out, video.processedMinioKey))
      && db.videos == old(db.videos)[video.id := videoOut]
    ensures r.Ok? ==> store.objects == StoredCopy(env, fs.files, out, old(store.objects))
  {
    videoOut := video;
    var up := UploadProcessedCopy(fs, store, env, out);
    if up.Err? {
      return Err(up.error), videoOut;
    }
    if up.value.Some? {
      videoOut := videoOut.(processedMinioKey := up.value.value);
      var saved := db.SaveVideo(videoOut, true);
      if saved.Err? {
        return Err(saved.error), videoOut;
      }
    }
    r := Ok(());
  }

  /** The last part: the record is closed as `completed` at 100, then the
      video as `completed`, each stamped by the clock. */
  method CloseVideoJob(db: Database, clock: Clock, idx: nat, record: ProcessingTask, video: Video)
    returns (r: Result<(), Error>, recordOut: ProcessingTask, videoOut: Video)
    requires db.Valid() && idx < |db.tasks| && db.tasks[idx].celeryTaskId == record.celeryTaskId
    requires video.id in db.videos
    modifies db, clock
    ensures db.Valid() && db.frames == old(db.frames) && db.objects == old(db.objects)
    ensures |db.tasks| == |old(db.tasks)| && db.tasks == old(db.tasks)[idx := db.tasks[idx]]
    ensures db.tasks[idx].celeryTaskId == record.celeryTaskId
    ensures video.id in db.videos && db.videos == old(db.videos)[video.id := db.videos[video.id]]
    ensures recordOut.celeryTaskId == record.celeryTaskId && recordOut.taskType == record.taskType
    ensures videoOut.id == video.id && clock.now >= old(clock.now)
    ensures old(db.videoHistory) <= db.videoHistory
    ensures r.Ok? ==>
      && recordOut == record.(status := TaskStatus.Completed, completedAt := Some(old(clock.now)), progress := 100)
      && db.tasks[idx] == recordOut && db.taskHistory == old(db.taskHistory) + [recordOut]
      && videoOut == video.(status := VideoStatus.Completed, processingCompletedAt := Some(old(clock.now) + 1))
      && db.videos == old(db.videos)[video.id := videoOut]
  {
    recordOut, videoOut := record, video;
    var t2 := clock.Now();
    recordOut := recordOut.(status := TaskStatus.Completed, completedAt := Some(t2), progress := 100);
    var closed := db.SaveTask(idx, recordOut, true);
    if closed.Err? {
      return Err(closed.error), recordOut, videoOut;
    }
    var t3 := clock.Now();
    videoOut := videoOut.(status := VideoStatus.Completed, processingCompletedAt := Some(t3));
    var saved := db.SaveVideo(videoOut, true);
    if saved.Err? {
      return Err(saved.error), recordOut, videoOut;
    }
    r := Ok(());
  }

  /** The parts after the detection run: the copy is uploaded and the
      record and the video are closed. */
  method FinishVideoJob(db: Database, fs: FileSystem, store: ObjectStore, clock: Clock, env: Env,
                        idx: nat, record: ProcessingTask, out: string, video: Video)
    returns (r: Result<(), Error>, recordOut: ProcessingTask, videoOut: Video)
    requires db.Valid() && idx < |db.tasks| && db.tasks[idx].celeryTaskId == record.celeryTaskId
    requires video.id in db.videos && db.videos[video.id] == video
    modifies db, store, clock
    ensures db.Valid() && db.frames == old(db.frames) && db.objects == old(db.objects)
    ensures |db.tasks| == |old(db.tasks)| && db.tasks == old(db.tasks)[idx := db.tasks[idx]]
    ensures db.tasks[idx].celeryTaskId == record.celeryTaskId
    ensures video.id in db.videos && db.videos == old(db.videos)[video.id := db.videos[video.id]]
    ensures recordOut.celeryTaskId == record.celeryTaskId && recordOut.taskType == record.taskType
    ensures videoOut.id == video.id && clock.now >= old(clock.now)
    ensures old(db.videoHistory) <= db.videoHistory
    ensures r.Ok? ==>
      && recordOut == record.(status := TaskStatus.Completed, completedAt := Some(old(clock.now)), progress := 100)
      && db.tasks[idx] == recordOut && db.taskHistory == old(db.taskHistory) + [recordOut]
      && videoOut == ClosedVideo(video, CopyKey(env, fs.files, out, video.processedMinioKey), old(clock.now) + 1)
      && db.videos == old(db.videos)[video.id := videoOut]
    ensures r.Ok? ==> store.objects == StoredCopy(env, fs.files, out, old(store.objects))
  {
    recordOut := record;
    var uploaded;
    uploaded, videoOut := UploadCopy(db, fs, store, env, out, video);
    if uploaded.Err? {
      return Err(uploaded.error), recordOut, videoOut;
    }
    ghost var uploaded0 := db.videos[video.id];
    r, recordOut, videoOut := CloseVideoJob(db, clock, idx, recordOut, videoOut);
    UpdateTwice(old(db.videos), video.id, uploaded0, db.videos[video.id]);
  }

  lemma UpdateTwice(m: map<string, Video>, k: string, a: Video, b: Video)
    ensures m[k := a][k := b] == m[k := b]
  {
  }

  /** The body of `process_video_task` after its record exists. It returns
      the in-memory record and video as they stood when it stopped, which is
      what the handler then marks as failed. */
  method VideoJob(db: Database, fs: FileSystem, store: ObjectStore, clock: Clock, env: Env,
                  idx: nat, record: ProcessingTask, video: Video)
    returns (r: Result<VideoSummary, Error>, recordOut: ProcessingTask, videoOut: Video)
    requires db.Valid() && idx < |db.tasks| && db.tasks[idx].celeryTaskId == record.celeryTaskId
    requires video.id in db.videos
    modifies db, fs, store, clock
    ensures db.Valid() && |db.tasks| == |old(db.tasks)| && db.tasks[idx].celeryTaskId == record.celeryTaskId
    ensures db.tasks == old(db.tasks)[idx := db.tasks[idx]]
    ensures video.id in db.videos && db.videos == old(db.videos)[video.id := db.videos[video.id]]
    ensures old(db.frames) <= db.frames
    ensures old(db.objects) <= db.objects
    ensures recordOut.celeryTaskId == record.celeryTaskId && recordOut.taskType == record.taskType
    ensures videoOut.id == video.id
    ensures fs.handles == old(fs.handles) && clock.now >= old(clock.now)
    ensures r.Ok? ==>
      && VideoJobSucceeded(env, old(fs.files), video, old(db.frames), old(db.objects),
                           fs.files, db.frames, db.objects, db.videos[video.id], r.value)
      && db.tasks[idx].completedAt.Some? && db.tasks[idx].completedAt.value >= old(clock.now)
      && db.tasks[idx] == record.(status := TaskStatus.Completed, completedAt := db.tasks[idx].completedAt, progress := 100)
      && db.taskHistory == old(db.taskHistory) + [db.tasks[idx]]
    ensures r.Ok? ==> AnnotatedCopyWritten(env, old(fs.files), video, fs.files)
    ensures r.Ok? ==>
      store.objects == StoredCopy(env, fs.files, ProcessedOutputPath(env.settings, VideoPath(env.settings, video)), old(store.objects))
    ensures r.Ok? ==>
      && |old(db.videoHistory)| < |db.videoHistory|
      && db.videoHistory[|old(db.videoHistory)|] == video.(status := VideoStatus.Processing, processingStartedAt := Some(old(clock.now)))
  {
    recordOut := record;
    var prepared;
    prepared, videoOut := PrepareVideo(db, fs, clock, env, video);
    if prepared.Err? {
      return Err(prepared.error), recordOut, videoOut;
    }
    ghost var files0 := fs.files;
    ghost var pv := videoOut;
    ghost var history0 := db.videoHistory;
    ghost var frames0, objects0 := db.frames, db.objects;
    ghost var videos0 := old(db.videos);
    var path := VideoPath(env.settings, video);
    var out := ProcessedOutputPath(env.settings, path);
    var ran := RunVideo(db, fs, env, prepared.value, video.id, path, out);
    if ran.Err? {
      return Err(ran.error), recordOut, videoOut;
    }
    ghost var filesRun := fs.files;
    assert files0 == old(fs.files);
    assert AnnotatedCopyWritten(env, files0, video, filesRun);
    ghost var prepared0 := db.videos[video.id];
    ghost var t2 := clock.now;
    var closed;
    closed, recordOut, videoOut := FinishVideoJob(db, fs, store, clock, env, idx, recordOut, out, videoOut);
    UpdateTwice(videos0, video.id, prepared0, db.videos[video.id]);
    if closed.Err? {
      return Err(closed.error), recordOut, videoOut;
    }
    var ds := ran.value;
    r := Ok(VideoSummary(video.id, |ds|, TotalObjects(ds)));
    assert history0 <= db.videoHistory;
    ghost var t3 := videoOut.processingCompletedAt.value;
    assert t3 == t2 + 1;
    VideoJobSucceededIntro(env, old(fs.files), video, old(db.frames), old(db.objects), fs.files, db.frames, db.objects,
                           db.videos[video.id], r.value, prepared.value, Decoded(files0, env.codec, path).value, ds,
                           pv, old(clock.now), t3);
    assert fs.files == filesRun;
  }

  /** `process_video_task`. A missing video is re-raised with nothing
      written. Any later error is re-raised after the handler has marked the
      record (when it was created) and the video as failed with the error's
      text. On success the job's effects are those of `VideoJobSucceeded`, the
      record is `completed` at 100, started before it completed, the video's
      first new row is its `processing` row, stamped after the record
      started, and the annotated copy is in the store. */
  method ProcessVideoTask(db: Database, fs: FileSystem, store: ObjectStore, clock: Clock, env: Env,
                          videoId: string, celeryId: string, taskId: string)
    returns (r: Result<VideoSummary, Error>)
    requires db.Valid()
    modifies db, fs, store, clock
    ensures db.Valid() && fs.handles == old(fs.handles)
    ensures videoId !in old(db.videos) ==>
      && r == Err(VideoDoesNotExist(videoId))
      && db.videos == old(db.videos) && db.tasks == old(db.tasks) && db.frames == old(db.frames)
      && db.objects == old(db.objects) && db.taskHistory == old(db.taskHistory)
      && db.videoHistory == old(db.videoHistory) && fs.files == old(fs.files)
      && store.objects == old(store.objects) && store.buckets == old(store.buckets)
    ensures videoId in old(db.videos) ==> videoId in db.videos && db.videos == old(db.videos)[videoId := db.videos[videoId]]
    ensures |old(db.tasks)| <= |db.tasks| <= |old(db.tasks)| + 1 && db.tasks[..|old(db.tasks)|] == old(db.tasks)
    ensures old(db.frames) <= db.frames
    ensures old(db.objects) <= db.objects
    ensures videoId in old(db.videos) && r.Err? ==>
      && db.videos[videoId].status == VideoStatus.Failed && db.videos[videoId].errorMessage == Message(r.error)
      && (|db.tasks| > |old(db.tasks)| ==>
            var t := db.tasks[|old(db.tasks)|];
            t.status == TaskStatus.Failed && t.errorMessage == Message(r.error) && t.completedAt.Some?
            && t.taskType == VideoProcessing && t.celeryTaskId == celeryId)
    ensures r.Ok? ==>
      && videoId in old(db.videos)
      && VideoJobSucceeded(env, old(fs.files), old(db.videos)[videoId], old(db.frames), old(db.objects),
                           fs.files, db.frames, db.objects, db.videos[videoId], r.value)
      && AnnotatedCopyWritten(env, old(fs.files), old(db.videos)[videoId], fs.files)
      && |db.tasks| == |old(db.tasks)| + 1
      && var t := db.tasks[|old(db.tasks)|];
      && t.id == taskId && t.video == videoId && t.taskType == VideoProcessing && t.celeryTaskId == celeryId
      && t.status == TaskStatus.Completed && t.progress == 100 && t.errorMessage == []
      && t.startedAt.Some? && t.completedAt.Some? && t.startedAt.value < t.completedAt.value
      && db.taskHistory == old(db.taskHistory) + [t.(status := TaskStatus.Running, completedAt := None, progress := 0)] + [t]
    ensures r.Ok? ==>
      var out := ProcessedOutputPath(env.settings, VideoPath(env.settings, old(db.videos)[videoId]));
      store.objects == StoredCopy(env, fs.files, out, old(store.objects))
    ensures r.Ok? ==>
      && |old(db.videoHistory)| < |db.videoHistory|
      && var pv := db.videoHistory[|old(db.videoHistory)|];
      && pv == old(db.videos)[videoId].(status := VideoStatus.Processing, processingStartedAt := pv.processingStartedAt)
      && pv.processingStartedAt.Some? && |old(db.tasks)| < |db.tasks| && db.tasks[|old(db.tasks)|].startedAt.Some?
      && db.tasks[|old(db.tasks)|].startedAt.value < pv.processingStartedAt.value
  {
    var made, video, record := StartTask(db, clock, videoId, VideoProcessing, celeryId, taskId);
    if made.Err? {
      if !made.error.VideoDoesNotExist? {
        FailVideo(db, video, made.error);
      }
      return Err(made.error);
    }
    var idx := made.value;
    var recordOut, videoOut;
    r, recordOut, videoOut := VideoJob(db, fs, store, clock, env, idx, record, video);
    if r.Err? {
      FailTask(db, clock, idx, recordOut, r.error);
      FailVideo(db, videoOut, r.error);
    }
  }

  // ---------------------------------------------------------------------
  // extract_frames_task

  /** The object name of the `j`-th uploaded image: its file name with that
      upload's suffix before the extension. */
  function FrameObjectName(env: Env, path: string, j: nat): string {
    SuffixedName(Basename(path), env.suffix(j))
  }

  /** The object names of the uploaded images, one per path, in order. */
  function FrameNames(env: Env, paths: seq<string>): (r: seq<string>)
    ensures |r| == |paths|
  {
    seq(|paths|, j requires 0 <= j < |paths| => FrameObjectName(env, paths[j], j))
  }

  /** The keys of the first `n` objects stored in `extracted-frames` under
      `names`, in upload order. */
  function FrameKeys(names: seq<string>, n: nat): (r: seq<string>)
    requires n <= |names|
    ensures |r| == n
  {
    if n == 0 then [] else FrameKeys(names, n - 1) + [ObjectKey("extracted-frames", names[n - 1])]
  }

  /** The `j`-th key is the key of the `j`-th name. */
  lemma {:induction false} FrameKeysAt(names: seq<string>, n: nat, j: nat)
    requires j < n <= |names|
    ensures FrameKeys(names, n)[j] == ObjectKey("extracted-frames", names[j])
  {
    if j < n - 1 {
      FrameKeysAt(names, n - 1, j);
    }
  }

  /** The store's objects after the first `n` files at `paths` were
      uploaded, in order, to `extracted-frames` under `names` (a missing file
      stores nothing). */
  function StoredFrames(objects: map<(string, string), Bytes>, files: map<string, Bytes>,
                        paths: seq<string>, names: seq<string>, n: nat): map<(string, string), Bytes>
    requires n <= |paths| == |names|
  {
    if n == 0 then objects
    else
      var m := StoredFrames(objects, files, paths, names, n - 1);
      if paths[n - 1] in files then m[("extracted-frames", names[n - 1]) := files[paths[n - 1]]] else m
  }

  /** The upload stores every file in `extracted-frames` under its name,
      keeps every object that was there, and changes nothing outside that
      bucket. */
  lemma {:induction false} StoredFramesContents(objects: map<(string, string), Bytes>, files: map<string, Bytes>,
                                                paths: seq<string>, names: seq<string>, n: nat)
    requires n <= |paths| == |names| && forall i :: 0 <= i < n ==> paths[i] in files
    ensures var m := StoredFrames(objects, files, paths, names, n);
      forall i :: 0 <= i < n ==> ("extracted-frames", names[i]) in m
    ensures forall key :: key in objects ==> key in StoredFrames(objects, files, paths, names, n)
    ensures var m := StoredFrames(objects, files, paths, names, n);
      forall key :: key in m && key.0 != "extracted-frames" ==> key in objects && m[key] == objects[key]
  {
    if n != 0 {
      StoredFramesContents(objects, files, paths, names, n - 1);
    }
  }

  /** Every image exists, no upload fails and the bucket is there. */
  predicate UploadsSucceed(files: map<string, Bytes>, env: Env, paths: seq<string>, buckets: set<string>) {
    forall j :: 0 <= j < |paths| ==> paths[j] in files && !env.uploadFault(j) && "extracted-frames" in buckets
  }

  /** The first `n` images exist and their uploads do not fail. */
  predicate AllUploadable(files: map<string, Bytes>, env: Env, paths: seq<string>, n: nat)
    requires n <= |paths|
  {
    n == 0 || (AllUploadable(files, env, paths, n - 1) && paths[n - 1] in files && !env.uploadFault(n - 1))
  }

  lemma {:induction false} AllUploadableMeans(files: map<string, Bytes>, env: Env, paths: seq<string>, n: nat)
    requires n <= |paths|
    ensures AllUploadable(files, env, paths, n) <==>
      forall i :: 0 <= i < n ==> paths[i] in files && !env.uploadFault(i)
  {
    if n != 0 {
      AllUploadableMeans(files, env, paths, n - 1);
    }
  }

  /** One iteration of the upload loop: image `j` goes to `extracted-frames`
      under its name, unless it is missing, its upload fails or the bucket
      is not there. */
  method UploadFrame(fs: FileSystem, client: Client, env: Env, paths: seq<string>, j: nat)
    returns (r: Result<string, Error>)
    requires j < |paths|
    modifies client.store
    ensures client.store.buckets == old(client.store.buckets)
    ensures r.Ok? <==> paths[j] in fs.files && !env.uploadFault(j) && "extracted-frames" in client.store.buckets
    ensures r.Err? ==> client.store.objects == old(client.store.objects)
    ensures r.Ok? ==>
      && r.value == ObjectKey("extracted-frames", FrameNames(env, paths)[j])
      && client.store.objects == old(client.store.objects)[("extracted-frames", FrameNames(env, paths)[j]) := fs.files[paths[j]]]
  {
    r := client.UploadFile(fs, paths[j], Some("extracted-frames"), None, env.suffix(j), env.uploadFault(j));
  }

  /** The upload loop of `extract_frames_task`: each image is uploaded to
      `extracted-frames` and its key collected. The loop succeeds exactly
      when every image exists, no upload fails and the bucket is there; the
      first failure ends it. */
  method UploadFrames(fs: FileSystem, client: Client, env: Env, paths: seq<string>)
    returns (r: Result<seq<string>, Error>)
    modifies client.store
    ensures client.store.buckets == old(client.store.buckets)
    ensures r.Ok? <==> UploadsSucceed(fs.files, env, paths, client.store.buckets)
    ensures r.Ok? ==>
      && r.value == FrameKeys(FrameNames(env, paths), |paths|)
      && client.store.objects == StoredFrames(old(client.store.objects), fs.files, paths, FrameNames(env, paths), |paths|)
  {
    ghost var names := FrameNames(env, paths);
    var keys: seq<string> := [];
    var j := 0;
    while j < |paths|
      invariant 0 <= j <= |paths| && client.store.buckets == old(client.store.buckets)
      invariant AllUploadable(fs.files, env, paths, j)
      invariant j > 0 ==> "extracted-frames" in client.store.buckets
      invariant keys == FrameKeys(names, j)
      invariant client.store.objects == StoredFrames(old(client.store.objects), fs.files, paths, names, j)
    {
      var up := UploadFrame(fs, client, env, paths, j);
      if up.Err? {
        assert !(paths[j] in fs.files && !env.uploadFault(j) && "extracted-frames" in client.store.buckets);
        return Err(up.error);
      }
      keys := keys + [up.value];
      j := j + 1;
    }
    AllUploadableMeans(fs.files, env, paths, j);
    r := Ok(keys);
  }

  /** The upload step of `extract_frames_task`: a fresh client provisions
      the buckets, then `UploadFrames` runs. */
  method UploadExtracted(fs: FileSystem, store: ObjectStore, env: Env, paths: seq<string>)
    returns (r: Result<seq<string>, Error>)
    modifies store
    ensures store.buckets == Provision(old(store.buckets), RequiredBuckets(env.settings.defaultBucket), env.bucketFault)
    ensures r.Ok? <==> UploadsSucceed(fs.files, env, paths, store.buckets)
    ensures r.Ok? ==>
      && r.value == FrameKeys(FrameNames(env, paths), |paths|)
      && store.objects == StoredFrames(old(store.objects), fs.files, paths, FrameNames(env, paths), |paths|)
  {
    var client := new Client(store, env.settings.defaultBucket, env.bucketFault);
    r := UploadFrames(fs, client, env, paths);
  }

  /** `os.path.splitext` of a frame image's name splits off `.jpg`. */
  lemma FrameFileNameSplits(n: int)
    ensures SplitExt(FrameFileName(n)) == ("frame_" + FormatInt(n, 6), ".jpg")
  {
    var s := FrameFileName(n);
    var d := |s| - 4;
    assert s[d] == '.' && s[d + 1..] == "jpg";
    assert RFind(s, '/') == -1;
    assert RFind(s, '.') == d;
    assert s[0] == 'f' && !AllDots(s[0..d]);
    assert s[..d] == "frame_" + FormatInt(n, 6);
  }

  /** The key of the `j`-th image names its frame, zero-padded to six
      digits, and the `j`-th upload's suffix: for frame 30 and suffix `s` it
      is `extracted-frames/frame_000030_s.jpg`. */
  lemma ExtractedFrameKey(env: Env, dir: string, n: nat, k: int, j: nat)
    requires k != 0 && j < |ExtractedPaths(dir, n, k)|
    ensures j < |Selected(n, k)|
    ensures FrameKeys(FrameNames(env, ExtractedPaths(dir, n, k)), |ExtractedPaths(dir, n, k)|)[j] ==
      "extracted-frames/frame_" + FormatInt(Selected(n, k)[j], 6) + "_" + env.suffix(j) + ".jpg"
  {
    ExtractedPathsAt(dir, n, k);
    var ps := ExtractedPaths(dir, n, k);
    var f := Selected(n, k)[j];
    assert ps[j] == Join(dir, FrameFileName(f));
    BasenameOfJoin(dir, FrameFileName(f));
    FrameFileNameSplits(f);
    var d := FormatInt(f, 6);
    FrameKeysAt(FrameNames(env, ps), |ps|, j);
    calc {
      FrameKeys(FrameNames(env, ps), |ps|)[j];
      ObjectKey("extracted-frames", SuffixedName(FrameFileName(f), env.suffix(j)));
      "extracted-frames" + "/" + (("frame_" + d) + "_" + env.suffix(j) + ".jpg");
      { KeyText(d, env.suffix(j)); }
      "extracted-frames/frame_" + d + "_" + env.suffix(j) + ".jpg";
    }
  }

  lemma KeyText(digits: string, suffix: string)
    ensures "extracted-frames" + "/" + (("frame_" + digits) + "_" + suffix + ".jpg") ==
            "extracted-frames/frame_" + digits + "_" + suffix + ".jpg"
  {
    assert "extracted-frames" + "/" + "frame_" == "extracted-frames/frame_";
  }

  /** What a successful frame extraction leaves behind, given the files, the
      store's objects and the video row it started from: the processor could
      be built, the video decoded, every `k`-th frame read was written as an
      image under the video's frame directory, each image was uploaded, and
      the summary counts the images and lists their keys. */
  predicate ExtractionSucceeded(env: Env, files0: map<string, Bytes>, objects0: map<(string, string), Bytes>,
                                v0: Video, k: int, files: map<string, Bytes>, objects: map<(string, string), Bytes>,
                                summary: ExtractSummary)
  {
    var dir := FramesDir(env.settings, v0.id);
    var c := Decoded(files0, env.codec, VideoPath(env.settings, v0));
    && DefaultProcessor(env).Ok? && c.Some?
    && ExtractOutcome(c.value, dir, k).Ok?
    && var paths := ExtractOutcome(c.value, dir, k).value;
    && files == (if k == 0 then files0 else ImagesWritten(files0, env.codec, dir, ReadPrefix(c.value.decoded), k))
    && (forall q :: q in paths ==> q in files)
    && objects == StoredFrames(objects0, files, paths, FrameNames(env, paths), |paths|)
    && summary == ExtractSummary(v0.id, |paths|, FrameKeys(FrameNames(env, paths), |paths|))
  }

  /** The images of every `k`-th frame, written under the video's frame
      directory; every returned path then exists. */
  method ExtractImages(fs: FileSystem, env: Env, video: Video, k: int) returns (r: Result<seq<string>, Error>)
    modifies fs
    ensures fs.handles == old(fs.handles)
    ensures r.Ok? ==>
      var dir := FramesDir(env.settings, video.id);
      var c := Decoded(old(fs.files), env.codec, VideoPath(env.settings, video));
      && c.Some? && ExtractOutcome(c.value, dir, k) == r
      && fs.files == (if k == 0 then old(fs.files) else ImagesWritten(old(fs.files), env.codec, dir, ReadPrefix(c.value.decoded), k))
      && (forall q :: q in r.value ==> q in fs.files)
  {
    var dir := FramesDir(env.settings, video.id);
    r := ExtractFrames(fs, env.codec, VideoPath(env.settings, video), dir, k);
    if r.Ok? && k != 0 {
      var c := Decoded(old(fs.files), env.codec, VideoPath(env.settings, video)).value;
      ImagesWrittenDomain(old(fs.files), env.codec, dir, ReadPrefix(c.decoded), k);
    }
  }

  /** The body of `extract_frames_task` after its record exists: the
      processor is built, the images are written and uploaded, and the record
      is closed as `completed` at 100. Video rows are never touched. */
  method ExtractJob(db: Database, fs: FileSystem, store: ObjectStore, clock: Clock, env: Env,
                    idx: nat, record: ProcessingTask, video: Video, k: int)
    returns (r: Result<ExtractSummary, Error>, recordOut: ProcessingTask)
    requires db.Valid() && idx < |db.tasks| && db.tasks[idx].celeryTaskId == record.celeryTaskId
    modifies db, fs, store, clock
    ensures db.Valid() && |db.tasks| == |old(db.tasks)| && db.tasks == old(db.tasks)[idx := db.tasks[idx]]
    ensures db.tasks[idx].celeryTaskId == record.celeryTaskId
    ensures db.videos == old(db.videos) && db.frames == old(db.frames) && db.objects == old(db.objects)
    ensures db.videoHistory == old(db.videoHistory)
    ensures recordOut.celeryTaskId == record.celeryTaskId && recordOut.taskType == record.taskType
    ensures fs.handles == old(fs.handles) && clock.now >= old(clock.now)
    ensures r.Ok? ==>
      && ExtractionSucceeded(env, old(fs.files), old(store.objects), video, k, fs.files, store.objects, r.value)
      && recordOut == record.(status := TaskStatus.Completed, completedAt := Some(old(clock.now)), progress := 100)
      && db.tasks[idx] == recordOut && db.taskHistory == old(db.taskHistory) + [recordOut]
  {
    recordOut := record;
    var p := DefaultProcessor(env);
    if p.Err? {
      return Err(p.error), recordOut;
    }
    var paths := ExtractImages(fs, env, video, k);
    if paths.Err? {
      return Err(paths.error), recordOut;
    }
    var keys := UploadExtracted(fs, store, env, paths.value);
    if keys.Err? {
      return Err(keys.error), recordOut;
    }
    var t := clock.Now();
    recordOut := recordOut.(status := TaskStatus.Completed, completedAt := Some(t), progress := 100);
    var saved := db.SaveTask(idx, recordOut, true);
    if saved.Err? {
      return Err(saved.error), recordOut;
    }
    r := Ok(ExtractSummary(video.id, |paths.value|, keys.value));
  }

  /** `extract_frames_task`. A missing video is re-raised with nothing
      written; any later error is re-raised after the handler has marked the
      record, when it was created, as failed with the error's text. On
      success the effects are those of `ExtractionSucceeded` and the record
      is `completed` at 100, started before it completed. */
  method ExtractFramesTask(db: Database, fs: FileSystem, store: ObjectStore, clock: Clock, env: Env,
                           videoId: string, k: int, celeryId: string, taskId: string)
    returns (r: Result<ExtractSummary, Error>)
    requires db.Valid()
    modifies db, fs, store, clock
    ensures db.Valid() && fs.handles == old(fs.handles)
    ensures db.videos == old(db.videos) && db.frames == old(db.frames) && db.objects == old(db.objects)
    ensures db.videoHistory == old(db.videoHistory)
    ensures videoId !in old(db.videos) ==>
      && r == Err(VideoDoesNotExist(videoId))
      && db.tasks == old(db.tasks) && db.taskHistory == old(db.taskHistory)
      && fs.files == old(fs.files) && store.objects == old(store.objects)
    ensures |old(db.tasks)| <= |db.tasks| <= |old(db.tasks)| + 1 && db.tasks[..|old(db.tasks)|] == old(db.tasks)
    ensures r.Err? && |db.tasks| > |old(db.tasks)| ==>
      var t := db.tasks[|old(db.tasks)|];
      t.status == TaskStatus.Failed && t.errorMessage == Message(r.error) && t.completedAt.Some?
      && t.taskType == FrameExtraction && t.celeryTaskId == celeryId
    ensures r.Ok? ==>
      && videoId in old(db.videos)
      && ExtractionSucceeded(env, old(fs.files), old(store.objects), old(db.videos)[videoId], k,
                             fs.files, store.objects, r.value)
      && |db.tasks| == |old(db.tasks)| + 1
      && var t := db.tasks[|old(db.tasks)|];
      && t.id == taskId && t.video == videoId && t.taskType == FrameExtraction && t.celeryTaskId == celeryId
      && t.status == TaskStatus.Completed && t.progress == 100 && t.errorMessage == []
      && t.startedAt.Some? && t.completedAt.Some? && t.startedAt.value < t.completedAt.value
      && db.taskHistory == old(db.taskHistory) + [t.(status := TaskStatus.Running, completedAt := None, progress := 0)] + [t]
  {
    var made, video, record := StartTask(db, clock, videoId, FrameExtraction, celeryId, taskId);
    if made.Err? {
      return Err(made.error);
    }
    var idx := made.value;
    var recordOut;
    r, recordOut := ExtractJob(db, fs, store, clock, env, idx, record, video, k);
    if r.Err? {
      FailTask(db, clock, idx, recordOut, r.error);
    }
  }

  // ---------------------------------------------------------------------
  // detect_objects_in_frames_task

  /** The frame numbers the job handles: those asked for, or every 30th
      frame of the reported frame count when none were given. */
  function ChosenFrames(frameNumbers: Option<seq<int>>, total: int): seq<int> {
    if frameNumbers.None? then DefaultFrameNumbers(total) else frameNumbers.value
  }

  lemma ProgressRecordsSnoc(t: ProcessingTask, qs: seq<int>, q: int)
    ensures ProgressRecords(t, qs + [q]) == ProgressRecords(t, qs) + [t.(progress := q)]
  {
    var a, b := ProgressRecords(t, qs + [q]), ProgressRecords(t, qs) + [t.(progress := q)];
    assert |a| == |b|;
    forall i | 0 <= i < |a| ensures a[i] == b[i] {
      if i < |qs| { assert (qs + [q])[i] == qs[i]; }
    }
  }

  /** Handling requested frame `i` adds its result and its progress value
      when the frame reads, and nothing otherwise. */
  lemma SeekStep(p: Processor, c: Container, fns: seq<int>, i: nat)
    requires i < |fns|
    ensures SeekRead(c, fns[i]).None? ==>
      SeekResults(p, c, fns, i + 1) == SeekResults(p, c, fns, i) && ProgressTrail(c, fns, i + 1) == ProgressTrail(c, fns, i)
    ensures SeekRead(c, fns[i]).Some? ==>
      && SeekResults(p, c, fns, i + 1) == SeekResults(p, c, fns, i) + [FrameResultOf(p, SeekRead(c, fns[i]).value, fns[i])]
      && ProgressTrail(c, fns, i + 1) == ProgressTrail(c, fns, i) + [Progress(i, |fns|)]
  {
  }

  lemma AppendAssoc<T>(a: seq<T>, b: seq<T>, c: seq<T>)
    ensures a + b + c == a + (b + c)
  {
  }

  /** The object rows requested frame `i` adds: its detections when it reads. */
  function FrameRowsAdded(p: Processor, c: Container, fns: seq<int>, i: nat, videoId: string): seq<DetectedObject>
    requires i < |fns|
  {
    match SeekRead(c, fns[i])
    case Some(f) => ObjectRowsOf(videoId, fns[i], FrameResultOf(p, f, fns[i]).objects)
    case None => []
  }

  /** The number of objects requested frame `i` adds. */
  function FrameObjectsAdded(p: Processor, c: Container, fns: seq<int>, i: nat): int
    requires i < |fns|
  {
    match SeekRead(c, fns[i])
    case Some(f) => |FrameResultOf(p, f, fns[i]).objects|
    case None => 0
  }

  /** The task rows requested frame `i` adds: one progress save when it reads. */
  function FrameSavesAdded(c: Container, fns: seq<int>, i: nat, record: ProcessingTask): seq<ProcessingTask>
    requires i < |fns|
  {
    if SeekRead(c, fns[i]).Some? then [record.(progress := Progress(i, |fns|))] else []
  }

  /** `SeekStep` carried over to the rows, the count and the saved records. */
  lemma DetectStepRows(p: Processor, c: Container, fns: seq<int>, i: nat, videoId: string, record: ProcessingTask)
    requires i < |fns|
    ensures ObjectRows(videoId, SeekResults(p, c, fns, i + 1))
              == ObjectRows(videoId, SeekResults(p, c, fns, i)) + FrameRowsAdded(p, c, fns, i, videoId)
    ensures TotalObjects(SeekResults(p, c, fns, i + 1)) == TotalObjects(SeekResults(p, c, fns, i)) + FrameObjectsAdded(p, c, fns, i)
    ensures ProgressRecords(record, ProgressTrail(c, fns, i + 1))
              == ProgressRecords(record, ProgressTrail(c, fns, i)) + FrameSavesAdded(c, fns, i, record)
  {
    SeekStep(p, c, fns, i);
    if SeekRead(c, fns[i]).Some? {
      var fr := FrameResultOf(p, SeekRead(c, fns[i]).value, fns[i]);
      RowsSnoc(videoId, SeekResults(p, c, fns, i), fr);
      ProgressRecordsSnoc(record, ProgressTrail(c, fns, i), Progress(i, |fns|));
    } else {
      assert ObjectRows(videoId, SeekResults(p, c, fns, i)) + [] == ObjectRows(videoId, SeekResults(p, c, fns, i));
      assert ProgressRecords(record, ProgressTrail(c, fns, i)) + [] == ProgressRecords(record, ProgressTrail(c, fns, i));
    }
  }

  /** One chosen frame: seek to it and read; when it reads, save its
      objects and then the record with the progress of this frame. An
      unreadable frame writes nothing. */
  method HandleFrame(db: Database, cap: VideoCapture, p: Processor, ghost c: Container, videoId: string,
                     fns: seq<int>, i: nat, idx: nat, record: ProcessingTask, cur: ProcessingTask)
    returns (r: Result<int, Error>, recordOut: ProcessingTask)
    requires i < |fns|
    requires db.Valid() && idx < |db.tasks| && db.tasks[idx].celeryTaskId == record.celeryTaskId
    requires cap.IsOpened() && cap.container == Some(c)
    modifies db, cap
    ensures cap.IsOpened() && cap.container == Some(c)
    ensures db.Valid() && |db.tasks| == |old(db.tasks)| && db.tasks == old(db.tasks)[idx := db.tasks[idx]]
    ensures db.tasks[idx].celeryTaskId == record.celeryTaskId
    ensures db.videos == old(db.videos) && db.frames == old(db.frames) && db.videoHistory == old(db.videoHistory)
    ensures recordOut == cur || recordOut == record.(progress := Progress(i, |fns|))
    ensures db.writes >= old(db.writes)
    ensures db.FaultFreeFrom(old(db.writes)) ==> r.Ok?
    ensures r.Ok? ==>
      && db.objects == old(db.objects) + FrameRowsAdded(p, c, fns, i, videoId)
      && db.taskHistory == old(db.taskHistory) + FrameSavesAdded(c, fns, i, record)
      && r.value == FrameObjectsAdded(p, c, fns, i)
  {
    recordOut := cur;
    cap.SetPosition(fns[i]);
    var f := cap.Read();
    assert f == SeekRead(c, fns[i]);
    if f.None? {
      assert db.objects + [] == db.objects && db.taskHistory + [] == db.taskHistory;
      return Ok(0), recordOut;
    }
    var fr := ProcessFrame(p, f.value, fns[i]);
    var saved := SaveObjects(db, videoId, fns[i], fr.objects);
    if saved.Err? {
      return Err(saved.error), recordOut;
    }
    recordOut := record.(progress := Progress(i, |fns|));
    var stored := db.SaveTask(idx, recordOut, true);
    if stored.Err? {
      return Err(stored.error), recordOut;
    }
    r := Ok(|fr.objects|);
  }

  /** `HandleFrame` as a step of the loop: given the state after the first
      `i` chosen frames, success leaves the state after the first `i + 1`. */
  method DetectFrame(db: Database, cap: VideoCapture, p: Processor, ghost c: Container, videoId: string,
                     fns: seq<int>, i: nat, idx: nat, record: ProcessingTask, cur: ProcessingTask, count: int,
                     ghost objects0: seq<DetectedObject>, ghost history0: seq<ProcessingTask>)
    returns (r: Result<int, Error>, recordOut: ProcessingTask)
    requires i < |fns|
    requires db.Valid() && idx < |db.tasks| && db.tasks[idx].celeryTaskId == record.celeryTaskId
    requires cap.IsOpened() && cap.container == Some(c)
    requires cur == record.(progress := cur.progress)
    requires db.objects == objects0 + ObjectRows(videoId, SeekResults(p, c, fns, i))
    requires count == TotalObjects(SeekResults(p, c, fns, i))
    requires db.taskHistory == history0 + ProgressRecords(record, ProgressTrail(c, fns, i))
    modifies db, cap
    ensures cap.IsOpened() && cap.container == Some(c)
    ensures db.Valid() && |db.tasks| == |old(db.tasks)| && db.tasks == old(db.tasks)[idx := db.tasks[idx]]
    ensures db.tasks[idx].celeryTaskId == record.celeryTaskId
    ensures db.videos == old(db.videos) && db.frames == old(db.frames) && db.videoHistory == old(db.videoHistory)
    ensures recordOut == record.(progress := recordOut.progress)
    ensures db.writes >= old(db.writes)
    ensures db.FaultFreeFrom(old(db.writes)) ==> r.Ok?
    ensures r.Ok? ==>
      && db.objects == objects0 + ObjectRows(videoId, SeekResults(p, c, fns, i + 1))
      && r.value == TotalObjects(SeekResults(p, c, fns, i + 1))
      && db.taskHistory == history0 + ProgressRecords(record, ProgressTrail(c, fns, i + 1))
  {
    var step;
    step, recordOut := HandleFrame(db, cap, p, c, videoId, fns, i, idx, record, cur);
    if step.Err? {
      return Err(step.error), recordOut;
    }
    DetectStepRows(p, c, fns, i, videoId, record);
    AppendAssoc(objects0, ObjectRows(videoId, SeekResults(p, c, fns, i)), FrameRowsAdded(p, c, fns, i, videoId));
    AppendAssoc(history0, ProgressRecords(record, ProgressTrail(c, fns, i)), FrameSavesAdded(c, fns, i, record));
    r := Ok(count + step.value);
  }

  /** The loop over the chosen frames, ended by the first failed write. On
      success the object rows, their count and the saved progress values
      are those of `SeekResults` and `ProgressTrail`. */
  method DetectLoop(db: Database, cap: VideoCapture, p: Processor, ghost c: Container, videoId: string,
                    fns: seq<int>, idx: nat, record: ProcessingTask)
    returns (r: Result<int, Error>, recordOut: ProcessingTask)
    requires db.Valid() && idx < |db.tasks| && db.tasks[idx].celeryTaskId == record.celeryTaskId
    requires cap.IsOpened() && cap.container == Some(c)
    modifies db, cap
    ensures db.Valid() && |db.tasks| == |old(db.tasks)| && db.tasks == old(db.tasks)[idx := db.tasks[idx]]
    ensures db.tasks[idx].celeryTaskId == record.celeryTaskId
    ensures db.videos == old(db.videos) && db.frames == old(db.frames) && db.videoHistory == old(db.videoHistory)
    ensures recordOut == record.(progress := recordOut.progress)
    ensures db.writes >= old(db.writes)
    ensures db.FaultFreeFrom(old(db.writes)) ==> r.Ok?
    ensures r.Ok? ==>
      var rs := SeekResults(p, c, fns, |fns|);
      && db.objects == old(db.objects) + ObjectRows(videoId, rs)
      && r.value == TotalObjects(rs)
      && db.taskHistory == old(db.taskHistory) + ProgressRecords(record, ProgressTrail(c, fns, |fns|))
  {
    recordOut := record;
    var count := 0;
    var i := 0;
    while i < |fns|
      invariant 0 <= i <= |fns|
      invariant cap.IsOpened() && cap.container == Some(c)
      invariant db.Valid() && |db.tasks| == |old(db.tasks)| && db.tasks == old(db.tasks)[idx := db.tasks[idx]]
      invariant db.tasks[idx].celeryTaskId == record.celeryTaskId
      invariant db.videos == old(db.videos) && db.frames == old(db.frames) && db.videoHistory == old(db.videoHistory)
      invariant recordOut == record.(progress := recordOut.progress)
      invariant db.writes >= old(db.writes)
      invariant db.objects == old(db.objects) + ObjectRows(videoId, SeekResults(p, c, fns, i))
      invariant count == TotalObjects(SeekResults(p, c, fns, i))
      invariant db.taskHistory == old(db.taskHistory) + ProgressRecords(record, ProgressTrail(c, fns, i))
    {
      var step;
      step, recordOut := DetectFrame(db, cap, p, c, videoId, fns, i, idx, record, recordOut, count,
                                     old(db.objects), old(db.taskHistory));
      if step.Err? {
        return Err(step.error), recordOut;
      }
      count := step.value;
      i := i + 1;
    }
    r := Ok(count);
  }

  /** What a successful detection run leaves behind, given the files, the
      object rows and the video row it started from: the processor could be
      built, the video decoded, its objects on every chosen frame that reads
      were appended in order, and the summary counts the chosen frames and
      the rows. */
  predicate DetectionSucceeded(env: Env, files: map<string, Bytes>, objects0: seq<DetectedObject>, v0: Video,
                               frameNumbers: Option<seq<int>>, objects: seq<DetectedObject>, summary: DetectSummary)
  {
    var c := Decoded(files, env.codec, VideoPath(env.settings, v0));
    && DefaultProcessor(env).Ok? && c.Some?
    && var fns := ChosenFrames(frameNumbers, c.value.frameCount);
    && var rs := SeekResults(DefaultProcessor(env).value, c.value, fns, |fns|);
    && objects == objects0 + ObjectRows(v0.id, rs)
    && summary == DetectSummary(v0.id, |fns|, TotalObjects(rs))
  }

  /** The progress values a detection run saves, one per chosen frame that
      reads; only meaningful when the video decodes. */
  function DetectTrail(env: Env, files: map<string, Bytes>, v0: Video, frameNumbers: Option<seq<int>>): seq<int> {
    var c := Decoded(files, env.codec, VideoPath(env.settings, v0));
    if c.None? then []
    else
      var fns := ChosenFrames(frameNumbers, c.value.frameCount);
      ProgressTrail(c.value, fns, |fns|)
  }

  /** The capture opened on a video that decodes, the loop run over the
      chosen frames, and the capture released whatever the loop's outcome. */
  method DetectCapture(db: Database, fs: FileSystem, env: Env, p: Processor, ghost c: Container, path: string,
                       videoId: string, fns: seq<int>, idx: nat, record: ProcessingTask)
    returns (r: Result<int, Error>, recordOut: ProcessingTask)
    requires Decoded(fs.files, env.codec, path) == Some(c)
    requires db.Valid() && idx < |db.tasks| && db.tasks[idx].celeryTaskId == record.celeryTaskId
    modifies db, fs
    ensures db.Valid() && |db.tasks| == |old(db.tasks)| && db.tasks == old(db.tasks)[idx := db.tasks[idx]]
    ensures db.tasks[idx].celeryTaskId == record.celeryTaskId
    ensures db.videos == old(db.videos) && db.frames == old(db.frames) && db.videoHistory == old(db.videoHistory)
    ensures recordOut == record.(progress := recordOut.progress)
    ensures fs.handles == old(fs.handles) && fs.files == old(fs.files)
    ensures db.writes >= old(db.writes)
    ensures db.FaultFreeFrom(old(db.writes)) ==> r.Ok?
    ensures r.Ok? ==>
      var rs := SeekResults(p, c, fns, |fns|);
      && db.objects == old(db.objects) + ObjectRows(videoId, rs)
      && r.value == TotalObjects(rs)
      && db.taskHistory == old(db.taskHistory) + ProgressRecords(record, ProgressTrail(c, fns, |fns|))
  {
    var cap := new VideoCapture.Open(fs, env.codec, path);
    r, recordOut := DetectLoop(db, cap, p, c, videoId, fns, idx, record);
    cap.Release();
  }

  /** The metadata read, the frames chosen, the capture opened, the loop
      run and the capture released whatever the loop's outcome. */
  method DetectRun(db: Database, fs: FileSystem, env: Env, p: Processor,
                   idx: nat, record: ProcessingTask, video: Video, frameNumbers: Option<seq<int>>)
    returns (r: Result<DetectSummary, Error>, recordOut: ProcessingTask)
    requires DefaultProcessor(env) == Ok(p)
    requires db.Valid() && idx < |db.tasks| && db.tasks[idx].celeryTaskId == record.celeryTaskId
    modifies db, fs
    ensures db.Valid() && |db.tasks| == |old(db.tasks)| && db.tasks == old(db.tasks)[idx := db.tasks[idx]]
    ensures db.tasks[idx].celeryTaskId == record.celeryTaskId
    ensures db.videos == old(db.videos) && db.frames == old(db.frames) && db.videoHistory == old(db.videoHistory)
    ensures recordOut == record.(progress := recordOut.progress)
    ensures fs.handles == old(fs.handles) && fs.files == old(fs.files)
    ensures db.writes >= old(db.writes)
    ensures db.FaultFreeFrom(old(db.writes))
            && Decoded(old(fs.files), env.codec, VideoPath(env.settings, video)).Some? ==>
      r.Ok?
    ensures r.Ok? ==>
      && DetectionSucceeded(env, old(fs.files), old(db.objects), video, frameNumbers, db.objects, r.value)
      && db.taskHistory == old(db.taskHistory) + ProgressRecords(record, DetectTrail(env, old(fs.files), video, frameNumbers))
  {
    recordOut := record;
    var path := VideoPath(env.settings, video);
    var meta := GetVideoMetadata(fs, env.codec, path);
    if meta.Err? {
      assert Decoded(old(fs.files), env.codec, path).None?;
      return Err(meta.error), recordOut;
    }
    ghost var c := Decoded(fs.files, env.codec, path).value;
    var fns := ChosenFrames(frameNumbers, meta.value.frameCount);
    var count;
    count, recordOut := DetectCapture(db, fs, env, p, c, path, video.id, fns, idx, record);
    if count.Err? {
      return Err(count.error), recordOut;
    }
    r := Ok(DetectSummary(video.id, |fns|, count.value));
  }

  /** The body of the corrected `detect_objects_in_frames_task` after its
      record exists: the processor is built, the frames handled by
      `DetectRun`, and the record closed as `completed` at 100. Frame and
      video rows are never touched. */
  method DetectJob(db: Database, fs: FileSystem, clock: Clock, env: Env,
                   idx: nat, record: ProcessingTask, video: Video, frameNumbers: Option<seq<int>>)
    returns (r: Result<DetectSummary, Error>, recordOut: ProcessingTask)
    requires db.Valid() && idx < |db.tasks| && db.tasks[idx].celeryTaskId == record.celeryTaskId
    modifies db, fs, clock
    ensures db.Valid() && |db.tasks| == |old(db.tasks)| && db.tasks == old(db.tasks)[idx := db.tasks[idx]]
    ensures db.tasks[idx].celeryTaskId == record.celeryTaskId
    ensures db.videos == old(db.videos) && db.frames == old(db.frames) && db.videoHistory == old(db.videoHistory)
    ensures recordOut.celeryTaskId == record.celeryTaskId && recordOut.taskType == record.taskType
    ensures fs.handles == old(fs.handles) && fs.files == old(fs.files) && clock.now >= old(clock.now)
    ensures db.FaultFreeFrom(old(db.writes)) && DefaultProcessor(env).Ok?
            && Decoded(old(fs.files), env.codec, VideoPath(env.settings, video)).Some? ==>
      r.Ok?
    ensures r.Ok? ==>
      && DetectionSucceeded(env, old(fs.files), old(db.objects), video, frameNumbers, db.objects, r.value)
      && recordOut == record.(status := TaskStatus.Completed, completedAt := Some(old(clock.now)), progress := 100)
      && db.tasks[idx] == recordOut
      && db.taskHistory == old(db.taskHistory) + ProgressRecords(record, DetectTrail(env, old(fs.files), video, frameNumbers)) + [recordOut]
  {
    recordOut := record;
    var p := DefaultProcessor(env);
    if p.Err? {
      return Err(p.error), recordOut;
    }
    r, recordOut := DetectRun(db, fs, env, p.value, idx, record, video, frameNumbers);
    if r.Err? {
      return r, recordOut;
    }
    var t := clock.Now();
    recordOut := recordOut.(status := TaskStatus.Completed, completedAt := Some(t), progress := 100);
    var saved := db.SaveTask(idx, recordOut, true);
    if saved.Err? {
      return Err(saved.error), recordOut;
    }
  }

  /** `detect_objects_in_frames_task` as it is meant to run, with `cv2`
      bound. A missing video is re-raised with nothing written; any later
      error is re-raised after the handler has marked the record, when it
      was created, as failed with the error's text. On success the effects
      are those of `DetectionSucceeded`, the record is `completed` at 100,
      and the processing-task history holds the running record, one progress save per
      frame read, and the completed record. */
  method DetectObjectsInFramesTask(db: Database, fs: FileSystem, clock: Clock, env: Env,
                                   videoId: string, frameNumbers: Option<seq<int>>, celeryId: string, taskId: string)
    returns (r: Result<DetectSummary, Error>)
    requires db.Valid()
    modifies db, fs, clock
    ensures db.Valid() && fs.handles == old(fs.handles) && fs.files == old(fs.files)
    ensures db.videos == old(db.videos) && db.frames == old(db.frames) && db.videoHistory == old(db.videoHistory)
    ensures videoId !in old(db.videos) ==>
      && r == Err(VideoDoesNotExist(videoId))
      && db.tasks == old(db.tasks) && db.taskHistory == old(db.taskHistory) && db.objects == old(db.objects)
    ensures |old(db.tasks)| <= |db.tasks| <= |old(db.tasks)| + 1 && db.tasks[..|old(db.tasks)|] == old(db.tasks)
    ensures r.Err? && |db.tasks| > |old(db.tasks)| ==>
      var t := db.tasks[|old(db.tasks)|];
      t.status == TaskStatus.Failed && t.errorMessage == Message(r.error) && t.completedAt.Some?
      && t.taskType == ObjectDetection && t.celeryTaskId == celeryId
    ensures videoId in old(db.videos) && db.FaultFreeFrom(old(db.writes))
            && !CeleryIdTaken(old(db.tasks), celeryId) && DefaultProcessor(env).Ok?
            && Decoded(old(fs.files), env.codec, VideoPath(env.settings, old(db.videos)[videoId])).Some? ==>
      r.Ok?
    ensures r.Ok? ==>
      && videoId in old(db.videos)
      && DetectionSucceeded(env, old(fs.files), old(db.objects), old(db.videos)[videoId], frameNumbers, db.objects, r.value)
      && |db.tasks| == |old(db.tasks)| + 1
      && var t := db.tasks[|old(db.tasks)|];
      && var running := t.(status := TaskStatus.Running, completedAt := None, progress := 0);
      && t.id == taskId && t.video == videoId && t.taskType == ObjectDetection && t.celeryTaskId == celeryId
      && t.status == TaskStatus.Completed && t.progress == 100 && t.errorMessage == []
      && t.startedAt.Some? && t.completedAt.Some? && t.startedAt.value < t.completedAt.value
      && db.taskHistory == old(db.taskHistory) + [running]
           + ProgressRecords(running, DetectTrail(env, old(fs.files), old(db.videos)[videoId], frameNumbers)) + [t]
  {
    var made, video, record := StartTask(db, clock, videoId, ObjectDetection, celeryId, taskId);
    if made.Err? {
      return Err(made.error);
    }
    var idx := made.value;
    var recordOut;
    r, recordOut := DetectJob(db, fs, clock, env, idx, record, video, frameNumbers);
    if r.Err? {
      FailTask(db, clock, idx, recordOut, r.error);
    }
  }

  /** `detect_objects_in_frames_task` as written: `tasks.py` never imports
      `cv2`, so once the record exists and the metadata has been read, the
      first use of `cv2` raises `NameError`, which the handler records. No
      object row is ever written and the job never succeeds. */
  method DetectObjectsInFramesTaskAsWritten(db: Database, fs: FileSystem, clock: Clock, env: Env,
                                            videoId: string, frameNumbers: Option<seq<int>>, celeryId: string, taskId: string)
    returns (r: Result<DetectSummary, Error>)
    requires db.Valid()
    modifies db, fs, clock
    ensures db.Valid() && fs.handles == old(fs.handles) && fs.files == old(fs.files)
    ensures db.videos == old(db.videos) && db.frames == old(db.frames) && db.videoHistory == old(db.videoHistory)
    ensures r.Err? && db.objects == old(db.objects)
    ensures videoId !in old(db.videos) ==> r == Err(VideoDoesNotExist(videoId)) && db.tasks == old(db.tasks)
    ensures videoId in old(db.videos) && old(db.writes) !in db.faults
            && !CeleryIdTaken(old(db.tasks), celeryId)
            && DefaultProcessor(env).Ok?
            && Decoded(old(fs.files), env.codec, VideoPath(env.settings, old(db.videos)[videoId])).Some? ==>
      && r == Err(NameError("cv2"))
      && |db.tasks| == |old(db.tasks)| + 1
      && db.tasks[|old(db.tasks)|].status == TaskStatus.Failed
      && db.tasks[|old(db.tasks)|].errorMessage == Message(NameError("cv2"))
  {
    var made, video, record := StartTask(db, clock, videoId, ObjectDetection, celeryId, taskId);
    if made.Err? {
      return Err(made.error);
    }
    var idx := made.value;
    var p := DefaultProcessor(env);
    if p.Err? {
      r := Err(p.error);
    } else {
      var meta := GetVideoMetadata(fs, env.codec, VideoPath(env.settings, video));
      r := if meta.Err? then Err(meta.error) else Err(NameError("cv2"));
    }
    FailTask(db, clock, idx, record, r.error);
  }
}
