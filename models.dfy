/** The relational schema of the service: the four record kinds, their status
    and kind enumerations with the codes stored in the database, their
    defaults, the uniqueness rules and orderings the schema declares, and the
    upload-path builders that name stored files. */
module Models {
  import opened Wrappers
  import opened Text

  /** A timestamp, as read from a monotone clock. */
  type Time = nat

  datatype VideoStatus = Pending | Processing | Completed | Failed

  datatype TaskStatus = Pending | Running | Completed | Failed

  datatype TaskType = VideoProcessing | ObjectDetection | FrameExtraction

  /** The stored code of a video status (the first element of each choice). */
  function VideoStatusCode(s: VideoStatus): string {
    match s
    case Pending => "pending"
    case Processing => "processing"
    case Completed => "completed"
    case Failed => "failed"
  }

  /** Reading a stored code back; anything outside the choices is refused. */
  function ParseVideoStatus(code: string): (r: Option<VideoStatus>)
    ensures r.Some? ==> VideoStatusCode(r.value) == code
  {
    if code == "pending" then Some(VideoStatus.Pending)
    else if code == "processing" then Some(VideoStatus.Processing)
    else if code == "completed" then Some(VideoStatus.Completed)
    else if code == "failed" then Some(VideoStatus.Failed)
    else None
  }

  lemma VideoStatusRoundTrip(s: VideoStatus)
    ensures ParseVideoStatus(VideoStatusCode(s)) == Some(s)
  {
  }

  function TaskStatusCode(s: TaskStatus): string {
    match s
    case Pending => "pending"
    case Running => "running"
    case Completed => "completed"
    case Failed => "failed"
  }

  function ParseTaskStatus(code: string): (r: Option<TaskStatus>)
    ensures r.Some? ==> TaskStatusCode(r.value) == code
  {
    if code == "pending" then Some(TaskStatus.Pending)
    else if code == "running" then Some(TaskStatus.Running)
    else if code == "completed" then Some(TaskStatus.Completed)
    else if code == "failed" then Some(TaskStatus.Failed)
    else None
  }

  lemma TaskStatusRoundTrip(s: TaskStatus)
    ensures ParseTaskStatus(TaskStatusCode(s)) == Some(s)
  {
  }

  function TaskTypeCode(t: TaskType): string {
    match t
    case VideoProcessing => "video_processing"
    case ObjectDetection => "object_detection"
    case FrameExtraction => "frame_extraction"
  }

  function ParseTaskType(code: string): (r: Option<TaskType>)
    ensures r.Some? ==> TaskTypeCode(r.value) == code
  {
    if code == "video_processing" then Some(VideoProcessing)
    else if code == "object_detection" then Some(ObjectDetection)
    else if code == "frame_extraction" then Some(FrameExtraction)
    else None
  }

  lemma TaskTypeRoundTrip(t: TaskType)
    ensures ParseTaskType(TaskTypeCode(t)) == Some(t)
  {
  }

  // ---------------------------------------------------------------------
  // Records

  /** An uploaded video. `uploadedBy` is the uploading user's key. */
  datatype Video = Video(
    id: string, title: string, description: string, videoFile: string,
    uploadedBy: Option<nat>, uploadedAt: Time, status: VideoStatus,
    processingStartedAt: Option<Time>, processingCompletedAt: Option<Time>,
    errorMessage: string,
    duration: Option<real>, frameCount: Option<int>, fps: Option<real>,
    resolution: string, fileSize: Option<int>,
    minioBucket: string, minioKey: string, processedMinioKey: string)

  /** One detected object of one frame; `video` is the owning video's id. */
  datatype DetectedObject = DetectedObject(
    video: string, frameNumber: int, objectClass: string, confidence: real,
    bboxX: real, bboxY: real, bboxWidth: real, bboxHeight: real)

  /** One frame that went through detection. */
  datatype ProcessedFrame = ProcessedFrame(
    video: string, frameNumber: int, frameImage: string, objectsDetected: int, minioKey: string)

  /** The tracking record of one background job. */
  datatype ProcessingTask = ProcessingTask(
    id: string, video: string, taskType: TaskType, celeryTaskId: string,
    status: TaskStatus, createdAt: Time, startedAt: Option<Time>, completedAt: Option<Time>,
    errorMessage: string, progress: int)

  /** A new video row: every column the upload does not give takes its
      declared default (status `pending`, metadata and times null, texts blank). */
  function NewVideo(id: string, title: string, description: string, videoFile: string,
                    uploadedBy: Option<nat>, now: Time): (v: Video)
    ensures v.id == id && v.title == title && v.videoFile == videoFile && v.uploadedAt == now
    ensures v.status == VideoStatus.Pending && v.errorMessage == []
    ensures v.processingStartedAt.None? && v.processingCompletedAt.None?
    ensures v.duration.None? && v.frameCount.None? && v.fps.None? && v.fileSize.None?
  {
    Video(id, title, description, videoFile, uploadedBy, now, VideoStatus.Pending,
          None, None, [], None, None, None, [], None, [], [], [])
  }

  /** A new task row: status defaults to `pending`, `progress` to 0 and the
      error message to blank unless given. */
  function NewTask(id: string, video: string, taskType: TaskType, celeryTaskId: string,
                   status: Option<TaskStatus>, now: Time, startedAt: Option<Time>): (t: ProcessingTask)
    ensures t.id == id && t.video == video && t.taskType == taskType && t.celeryTaskId == celeryTaskId
    ensures t.status == if status.Some? then status.value else TaskStatus.Pending
    ensures t.createdAt == now && t.startedAt == startedAt && t.completedAt.None?
    ensures t.progress == 0 && t.errorMessage == []
  {
    ProcessingTask(id, video, taskType, celeryTaskId,
                   if status.Some? then status.value else TaskStatus.Pending,
                   now, startedAt, None, [], 0)
  }

  /** `Video.filename`: the last component of the stored file name. */
  function Filename(v: Video): (r: string)
    ensures '/' !in r
    ensures |r| <= |v.videoFile| && r == v.videoFile[|v.videoFile| - |r|..]
  {
    Basename(v.videoFile)
  }

  // ---------------------------------------------------------------------
  // Uniqueness and ordering

  /** `celery_task_id` is unique across tasks. */
  predicate TaskIdsUnique(tasks: seq<ProcessingTask>) {
    forall i, j :: 0 <= i < j < |tasks| ==> tasks[i].celeryTaskId != tasks[j].celeryTaskId
  }

  /** `(video, frame_number)` is unique across processed frames. */
  predicate FrameKeysUnique(frames: seq<ProcessedFrame>) {
    forall i, j :: 0 <= i < j < |frames| ==>
      (frames[i].video, frames[i].frameNumber) != (frames[j].video, frames[j].frameNumber)
  }

  /** The default order of detected objects: frame number ascending, then
      confidence descending. */
  predicate ObjectBefore(a: DetectedObject, b: DetectedObject) {
    a.frameNumber < b.frameNumber || (a.frameNumber == b.frameNumber && a.confidence >= b.confidence)
  }

  /** The object order is a total preorder, so a list of rows always has a
      sorted arrangement. */
  lemma ObjectOrderTotalPreorder(a: DetectedObject, b: DetectedObject, c: DetectedObject)
    ensures ObjectBefore(a, b) || ObjectBefore(b, a)
    ensures ObjectBefore(a, b) && ObjectBefore(b, c) ==> ObjectBefore(a, c)
  {
  }

  predicate ObjectsOrdered(s: seq<DetectedObject>) {
    forall i, j :: 0 <= i < j < |s| ==> ObjectBefore(s[i], s[j])
  }

  /** The default order of processed frames: frame number ascending. */
  predicate FramesOrdered(s: seq<ProcessedFrame>) {
    forall i, j :: 0 <= i < j < |s| ==> s[i].frameNumber <= s[j].frameNumber
  }

  /** Frames of one video in strictly increasing frame order never break
      the frame-key uniqueness rule. */
  lemma {:induction false} StrictlyIncreasingFramesUnique(s: seq<ProcessedFrame>, video: string)
    requires forall i :: 0 <= i < |s| ==> s[i].video == video
    requires forall i, j :: 0 <= i < j < |s| ==> s[i].frameNumber < s[j].frameNumber
    ensures FrameKeysUnique(s) && FramesOrdered(s)
  {
  }

  // ---------------------------------------------------------------------
  // Upload paths

  predicate IsHexDigit(c: char) {
    '0' <= c <= '9' || 'a' <= c <= 'f'
  }

  /** The text of a random UUID: 32 lower-case hex digits in groups of
      8-4-4-4-12 separated by dashes. */
  predicate IsUuidText(u: string) {
    |u| == 36 &&
    forall i :: 0 <= i < 36 ==> if i == 8 || i == 13 || i == 18 || i == 23 then u[i] == '-' else IsHexDigit(u[i])
  }

  /** Stores an upload as `<dir>/<prefix><uuid>.<ext>`, where `ext` is the text
      after the last dot of the client's file name (all of it without a dot). */
  function UploadPath(dir: string, prefix: string, filename: string, uuid: string): string {
    Join(dir, prefix + uuid + "." + AfterLast(filename, '.'))
  }

  /** `video_upload_path`. */
  function VideoUploadPath(filename: string, uuid: string): string {
    UploadPath("videos", "", filename, uuid)
  }

  /** `processed_video_upload_path`. */
  function ProcessedVideoUploadPath(filename: string, uuid: string): string {
    UploadPath("processed_videos", "processed_", filename, uuid)
  }

  /** `image_upload_path`. */
  function ImageUploadPath(filename: string, uuid: string): string {
    UploadPath("processed_images", "frame_", filename, uuid)
  }

  /** The path is the directory, a slash, the prefix, the UUID, a dot and the
      extension; the client's stem is discarded, a name without a dot becomes
      the extension whole, and reading the extension back off the path gives
      the original one. */
  lemma {:induction false} UploadPathShape(dir: string, prefix: string, filename: string, uuid: string)
    requires dir != [] && dir[|dir| - 1] != '/'
    requires IsUuidText(uuid) && (prefix == [] || prefix[0] != '/')
    ensures var ext := AfterLast(filename, '.');
      && UploadPath(dir, prefix, filename, uuid) == dir + "/" + prefix + uuid + "." + ext
      && ('.' !in filename ==> ext == filename)
      && AfterLast(UploadPath(dir, prefix, filename, uuid), '.') == ext
  {
    var ext := AfterLast(filename, '.');
    var name := prefix + uuid + "." + ext;
    assert name[0] != '/' by {
      if prefix == [] { assert name[0] == uuid[0] && IsHexDigit(uuid[0]); }
    }
    var r := UploadPath(dir, prefix, filename, uuid);
    assert r == (dir + "/" + prefix + uuid) + "." + ext;
    AfterLastOfSuffix(dir + "/" + prefix + uuid, ext);
  }

  /** Text after the last dot of `s + "." + t`, when `t` has no dot, is `t`. */
  lemma AfterLastOfSuffix(s: string, t: string)
    requires '.' !in t
    ensures AfterLast(s + "." + t, '.') == t
  {
    var w := s + "." + t;
    assert w[|s|] == '.';
    forall i | |s| < i < |w| ensures w[i] != '.' {
      assert w[i] == t[i - |s| - 1];
    }
    assert RFind(w, '.') == |s|;
    assert w[|s| + 1..] == t;
  }

  /** Two uploads named in the same directory with the same UUID and prefix
      get the same path exactly when their extensions agree. */
  lemma UploadPathDependsOnlyOnExtension(dir: string, prefix: string, f1: string, f2: string, uuid: string)
    requires dir != [] && dir[|dir| - 1] != '/'
    requires IsUuidText(uuid) && (prefix == [] || prefix[0] != '/')
    ensures UploadPath(dir, prefix, f1, uuid) == UploadPath(dir, prefix, f2, uuid) <==>
            AfterLast(f1, '.') == AfterLast(f2, '.')
  {
    UploadPathShape(dir, prefix, f1, uuid);
    UploadPathShape(dir, prefix, f2, uuid);
  }

  /** `video_upload_path` keeps only the extension: `videos/<uuid>.<ext>`. */
  lemma VideoUploadPathShape(filename: string, uuid: string)
    requires IsUuidText(uuid)
    ensures VideoUploadPath(filename, uuid) == "videos/" + uuid + "." + AfterLast(filename, '.')
  {
    UploadPathShape("videos", "", filename, uuid);
    assert "videos" + "/" + "" == "videos/";
  }

  /** `processed_video_upload_path` gives `processed_videos/processed_<uuid>.<ext>`. */
  lemma ProcessedVideoUploadPathShape(filename: string, uuid: string)
    requires IsUuidText(uuid)
    ensures ProcessedVideoUploadPath(filename, uuid) == "processed_videos" + "/" + "processed_" + uuid + "." + AfterLast(filename, '.')
  {
    UploadPathShape("processed_videos", "processed_", filename, uuid);
  }

  /** `image_upload_path` gives `processed_images/frame_<uuid>.<ext>`. */
  lemma ImageUploadPathShape(filename: string, uuid: string)
    requires IsUuidText(uuid)
    ensures ImageUploadPath(filename, uuid) == "processed_images" + "/" + "frame_" + uuid + "." + AfterLast(filename, '.')
  {
    UploadPathShape("processed_images", "frame_", filename, uuid);
  }

  /** A video stored by `video_upload_path` reports `<uuid>.<ext>` as its
      file name when the extension holds no slash. */
  lemma {:induction false} FilenameOfUpload(v: Video, filename: string, uuid: string)
    requires IsUuidText(uuid) && v.videoFile == VideoUploadPath(filename, uuid)
    requires '/' !in AfterLast(filename, '.')
    ensures Filename(v) == uuid + "." + AfterLast(filename, '.')
  {
    var name := uuid + "." + AfterLast(filename, '.');
    assert "" + uuid + "." + AfterLast(filename, '.') == name;
    forall i | 0 <= i < |uuid| ensures uuid[i] != '/' {
      assert IsHexDigit(uuid[i]) || uuid[i] == '-';
    }
    assert '/' !in name;
    BasenameOfJoin("videos", name);
  }
}
