# Distributed video processing service: a verified model of the job pipeline

The service takes uploaded videos and runs an object-detection model over their
frames. It stores per-frame detections in a relational database and keeps
processed videos, extracted frame images and metadata in an S3-compatible object
store (MinIO). A tracking record follows every background job through `running`
to `completed` or `failed`.

This project models the pipeline's core in Dafny:

- **`YoloProcessor`** (`yolo_processor.dfy`): the frame processor.
  - `_process_frame` turns the model's boxes into detections.
  - `process_video` reads frames until the first failed read, detects on every
    `k`-th frame and writes an annotated copy.
  - `extract_frames` writes every `k`-th frame as a JPEG.
  - `get_video_metadata` reports a video's properties.
  - The loops are imperative methods over capture and writer objects. Each is
    proved against a specification function of the frames read.
- **`Tasks`** (`tasks.dfy`): the three background jobs.
  - `process_video_task`, `extract_frames_task` and `detect_objects_in_frames_task`
    are imperative methods over the database, the file system, the object store
    and the clock.
  - Each states what it leaves behind on success and what its error handler
    writes on failure.
- **`MinioClient`** (`minio_client.dfy`): the object-store wrapper.
  - Covers key derivation for uploads and metadata, and bucket provisioning.
  - Covers the operations that report store errors as `False`, `None`, `0` or
    `[]` instead of raising.
- **`Models`** (`models.dfy`): the four record kinds and their status codes.
  - Also the defaults, the uniqueness rules and orderings the schema declares,
    and the upload-path builders.
- **`Serializers`** (`serializers.dfy`): the derived REST fields.
  - These are `MM:SS` duration, size in megabytes, upload validation and the
    progress bound.
- **Support modules.**
  - `Orm` (`orm.dfy`) is the database with its uniqueness rules and a monotone
    clock.
  - `MediaIO` (`media_io.dfy`) holds the file system and the OpenCV capture and
    writer handles.
  - `Text` (`text.dfy`) holds the Python string and path helpers the code leans
    on: `rfind`, `split`, `os.path.basename`, `splitext`, `join`, `lower` and
    `{n:0wd}`.
  - `Errors` (`errors.dfy`) holds the exceptions and their `str(e)`.
  - `Wrappers` (`wrappers.dfy`) holds `Option` and `Result`.

**How the environment is modelled.**

- **Faults are inputs.**
  - A database write fails exactly when its running write number is in the
    database's fixed fault set.
  - A store call fails when its `fail` argument says so, or when its bucket or
    object is missing.
  - The jobs take a fault oracle per upload and per provisioned bucket.
- **Randomness is an input.** The random hex suffixes of uploads are a function
  from upload number to text.
- **Time is a clock object.** Each reading is one later than the last.
- **Codecs and model inference are opaque functions:**
  - decoding a container;
  - encoding a video or a JPEG;
  - running the detector;
  - drawing boxes.
- **Errors carry `str(e)`.** A raised exception is an `Err` of `Errors.Error`, and
  `Errors.Message` gives the text that ends up in `error_message`.
- **On these points the model follows the code as written:**
  - Box sizes are not clamped. `width >= 0` holds only when the corners the model
    reports are ordered (`SizesNonNegative`). `NoClamping` shows a negative width.
  - The whole-video job writes its frame and object rows only after the whole run
    has returned, not frame by frame.
  - A duplicate execution id is the schema's `IntegrityError`.
  - `upload_file` adds the random suffix whenever the object name is missing or
    equals the file's basename, not only when it is missing.
  - The detection job reports `processed_frames` as the number of requested
    frames, counting those that could not be read.
  - The detection job as written cannot run at all (see "## Findings").

## Model

| member | source | states |
|---|---|---|
| Errors.Message | app/video_app/tasks.py:132-137 | the text stored in `error_message` for any error is non-empty |
| Text.RFind | app/video_app/minio_client.py:66 | the result is -1 or an index of `c`, and no `c` follows it |
| Text.AfterLast | app/video_app/models.py:9 | the text after the last separator: a suffix of the input with no separator in it, preceded by the separator when shorter, the whole input when there is none |
| Text.Basename | app/video_app/models.py:68 | `os.path.basename` never contains a slash |
| Text.SplitExt | app/video_app/serializers.py:61 | `os.path.splitext` cuts the path into two parts that concatenate back to it |
| Text.SplitExtShape | app/video_app/serializers.py:61 | the extension is empty or a dot followed by neither dot nor slash, and a non-empty extension never leaves a dots-only last component |
| Text.BasenameOfJoin | app/video_app/yolo_processor.py:228 | joining a directory and a slash-free name gives that name back as the basename |
| Text.Join | app/video_app/tasks.py:58 | `os.path.join`: an absolute second part replaces the first, otherwise the second part ends the result |
| Text.Decimal | app/video_app/yolo_processor.py:270 | `str(n)` is a non-empty digit string without a leading zero |
| Text.ParseDecimalOfDecimal | app/video_app/yolo_processor.py:270 | reading `str(n)` back as a decimal gives `n` |
| Text.ParseDecimalLeadingZeros | app/video_app/yolo_processor.py:228 | leading zeros do not change a decimal's value |
| Text.ParseZeroPad | app/video_app/yolo_processor.py:228 | zero padding to a width keeps the digits' value |
| Text.FormatInt | app/video_app/serializers.py:39 | `{n:0wd}` is at least `w` long, all digits for `n >= 0`, a minus sign and digits otherwise |
| Text.FormatIntHasNoSlash | app/video_app/yolo_processor.py:228 | a formatted number holds no path separator |
| Text.FormatIntParses | app/video_app/yolo_processor.py:228 | `{n:0wd}` reads back as `n` |
| Text.FormatIntInjective | app/video_app/yolo_processor.py:228 | distinct non-negative numbers format differently at any width |
| Text.Lower | app/video_app/serializers.py:61 | lower-casing keeps the length and maps each character by ASCII lower case |
| Text.LowerIdempotent | app/video_app/serializers.py:61 | lower-casing twice is lower-casing once |
| Text.SplitExtLower | app/video_app/serializers.py:61 | the extension of a lowered name is the lowered extension |
| Models.ParseVideoStatus | app/video_app/models.py:30-35 | a stored code is accepted only as the status whose code it is |
| Models.VideoStatusRoundTrip | app/video_app/models.py:30-35 | every video status reads back from its stored code |
| Models.ParseTaskStatus | app/video_app/models.py:115-120 | a stored code is accepted only as the task status whose code it is |
| Models.TaskStatusRoundTrip | app/video_app/models.py:115-120 | every task status reads back from its stored code |
| Models.ParseTaskType | app/video_app/models.py:109-113 | a stored code is accepted only as the task kind whose code it is |
| Models.TaskTypeRoundTrip | app/video_app/models.py:109-113 | every task kind reads back from its stored code |
| Models.NewVideo | app/video_app/models.py:37-58 | a new video is `pending`, with null times and metadata and a blank error |
| Models.NewTask | app/video_app/models.py:122-131 | a new task takes the given or `pending` status, progress 0, a blank error and no completion time |
| Models.Filename | app/video_app/models.py:66-68 | `Video.filename` is a slash-free suffix of the stored file name |
| Models.ObjectOrderTotalPreorder | app/video_app/models.py:84 | the object ordering (frame ascending, confidence descending) is total and transitive |
| Models.StrictlyIncreasingFramesUnique | app/video_app/models.py:100-101 | one video's frames in strictly increasing frame order satisfy the `(video, frame_number)` rule and the frame ordering |
| Models.UploadPathShape | app/video_app/models.py:7-25 | an upload path is `dir/<prefix><uuid>.<ext>`, a dotless name becomes the extension whole, and the extension reads back off the path |
| Models.UploadPathDependsOnlyOnExtension | app/video_app/models.py:7-25 | two uploads with the same UUID get the same path exactly when their extensions agree |
| Models.VideoUploadPathShape | app/video_app/models.py:7-11 | `video_upload_path` gives `videos/<uuid>.<ext>` |
| Models.ProcessedVideoUploadPathShape | app/video_app/models.py:14-18 | `processed_video_upload_path` gives `processed_videos/processed_<uuid>.<ext>` |
| Models.ImageUploadPathShape | app/video_app/models.py:21-25 | `image_upload_path` gives `processed_images/frame_<uuid>.<ext>` |
| Models.FilenameOfUpload | app/video_app/models.py:66-68 | an uploaded video reports `<uuid>.<ext>` as its file name |
| Serializers.MinutesSecondsSplit | app/video_app/serializers.py:37-38 | seconds lie in 0..59 and `60 * minutes + seconds` is the whole number of seconds |
| Serializers.DurationFormatted | app/video_app/serializers.py:34-40 | there is no text exactly when the duration is missing or zero |
| Serializers.DurationFormattedReadsBack | app/video_app/serializers.py:34-40 | for a positive duration the text is `M...M:SS`, where the digits before the colon read as the minutes and the two after it as the seconds |
| Serializers.PartsReadBack | app/video_app/serializers.py:39 | `MM:SS` built from minutes and seconds below 60 splits back into them |
| Serializers.FileSizeMb | app/video_app/serializers.py:28-32 | there is no size exactly when it is missing or zero; otherwise the value times 1024*1024 is the byte count |
| Serializers.ValidateVideoFile | app/video_app/serializers.py:49-67 | a file is accepted iff it is within the size limit and its lower-cased extension is allowed; size is checked first, and each refusal carries its reason |
| Serializers.ValidationIgnoresCase | app/video_app/serializers.py:61 | a name and its lower-cased form are accepted or refused alike, with the same error |
| Serializers.UploadExtensionLower | app/video_app/serializers.py:61 | a name and its lower-cased form have the same compared extension |
| Serializers.SizeLimitInclusive | app/video_app/serializers.py:55 | a file exactly at the limit passes the size check, one byte more is refused for size |
| Serializers.ValidateProgress | app/video_app/serializers.py:135 | a progress value is accepted iff it lies in 0..100, and unchanged |
| MediaIO.ReadPrefix | app/video_app/yolo_processor.py:85-88 | the frames read sequentially are no more than the container's reads |
| MediaIO.ReadPrefixAt | app/video_app/yolo_processor.py:85-88 | read `n` succeeds with the `n`-th frame inside the prefix; the read just after it fails or is past the end |
| MediaIO.VideoCapture.Read | app/video_app/yolo_processor.py:86 | `cap.read()` gives the frame at the position, when it decodes, and advances only then |
| MediaIO.VideoCapture.Open | app/video_app/yolo_processor.py:51-53 | a capture is open exactly when the file exists and decodes, starts at frame 0 and is registered as a handle only then |
| MediaIO.VideoCapture.SetPosition | app/video_app/tasks.py:260 | seeking sets the next frame to be read |
| MediaIO.VideoWriter.constructor | app/video_app/yolo_processor.py:62-65 | a new writer holds no frames, writes no file yet and is a handle only when the codec opens |
| MediaIO.VideoWriter.Write | app/video_app/yolo_processor.py:101-102 | a write appends the frame when the codec opened and is lost otherwise |
| MediaIO.FileSystem.Unlink | app/video_app/minio_client.py:274-276 | removing the temporary file removes that path and nothing else |
| MediaIO.VideoWriter.Release | app/video_app/yolo_processor.py:112-113 | releasing the writer leaves the encoded frames at its path when the codec opens, and nothing otherwise |
| Orm.Clock.Now | app/video_app/tasks.py:37 | every reading of `timezone.now()` is later than the one before |
| Orm.Database.GetVideo | app/video_app/tasks.py:24 | the stored video, or `DoesNotExist` for an unknown id |
| Orm.Database.CreateTask | app/video_app/models.py:125 | inserting a task fails on a faulty write or on a taken `celery_task_id` and then changes nothing; on a free id and a sound write it appends the row |
| Orm.Database.CreateFrame | app/video_app/models.py:101 | inserting a frame row fails on a faulty write or when the video already has that frame number, and then changes nothing; a sound write on a free `(video, frame_number)` appends the row |
| Orm.Database.CreateObject | app/video_app/tasks.py:86-96 | inserting an object row appends it unless the write faults, and touches no other table |
| Orm.Database.SaveTask | app/video_app/tasks.py:106-109 | a save replaces the row and records it; only a fallible save can fail |
| Orm.Database.SaveVideo | app/video_app/tasks.py:36-38 | a video save replaces the row and records it; only a fallible save can fail |
| MinioClient.RequiredBuckets | app/video_app/minio_client.py:28-34 | five buckets are required, the default one first |
| MinioClient.StoredName | app/video_app/minio_client.py:60-67 | an explicit name other than the basename is kept; otherwise the basename gets the random suffix before its extension |
| MinioClient.ObjectKeyParts | app/video_app/minio_client.py:75 | an upload key splits back into bucket and object name at its first slash |
| MinioClient.SuffixKeepsExtension | app/video_app/minio_client.py:65-67 | the suffixed name has the same extension as the original |
| MinioClient.SuffixBeforeExtension | app/video_app/minio_client.py:66-67 | with an extension, the suffix goes between stem and extension and the extension is found again |
| MinioClient.MetadataObjectName | app/video_app/minio_client.py:273 | the metadata object name contains a slash |
| MinioClient.MetadataNameVerbatim | app/video_app/minio_client.py:265-273 | the metadata name is never a basename, so it is stored without a suffix |
| MinioClient.ProvisionContract | app/video_app/minio_client.py:26-42 | provisioning keeps every bucket, adds every required one whose call did not fail, adds nothing else, and running again only adds |
| MinioClient.ProvisionCovers | app/video_app/minio_client.py:26-42 | with no failure every required bucket exists afterwards |
| MinioClient.SumSizesRemove | app/video_app/minio_client.py:210-226 | the bucket size is any one of its objects' size plus the size of the rest, whichever object is taken first |
| MinioClient.SumSizesNonNegative | app/video_app/minio_client.py:210-226 | a bucket size is never negative |
| MinioClient.Client.constructor | app/video_app/minio_client.py:15-24 | construction provisions the required buckets and touches no object |
| MinioClient.Client.EnsureBucketsExist | app/video_app/minio_client.py:26-42 | the buckets afterwards are exactly the old ones plus the required ones whose calls did not fail |
| MinioClient.Client.UploadFile | app/video_app/minio_client.py:44-79 | a missing local file is refused first; otherwise the file is stored under the derived name and `bucket/name` returned, or the store error raised with nothing stored |
| MinioClient.Client.DownloadFile | app/video_app/minio_client.py:81-106 | a bare file name raises; otherwise `True` and the object's bytes at the path iff the object exists and the call works |
| MinioClient.Client.GetFileUrl | app/video_app/minio_client.py:108-128 | the presigned URL, or nothing exactly when the call fails |
| MinioClient.Client.DeleteFile | app/video_app/minio_client.py:130-147 | `True` iff the call works on an existing bucket, and then only that object is gone |
| MinioClient.Client.ListFiles | app/video_app/minio_client.py:149-178 | every object of the bucket with the prefix, once each, with its size; empty on a store error |
| MinioClient.Client.ListBuckets | app/video_app/minio_client.py:180-192 | every bucket exactly once, or empty on a store error |
| MinioClient.Client.BucketExists | app/video_app/minio_client.py:194-208 | `True` iff the call works and the bucket exists |
| MinioClient.Client.GetBucketSize | app/video_app/minio_client.py:210-226 | the sum of the bucket's object sizes, 0 on a store error, never negative |
| MinioClient.Client.CopyFile | app/video_app/minio_client.py:228-251 | `True` iff the source exists and the destination bucket does, and then the destination holds the source's bytes |
| MinioClient.Client.UploadVideoMetadata | app/video_app/minio_client.py:253-276 | metadata JSON cannot encode raises before the upload, storing nothing and leaving the temporary file behind; encodable metadata goes under `metadata/<id>.json` in the default bucket, or the store error is raised, and the temporary file is removed either way |
| MinioClient.Client.GetVideoMetadata | app/video_app/minio_client.py:278-310 | the decoded metadata object when it downloads, nothing otherwise, and the temporary file is always removed |
| MinioClient.Client.MetadataRoundTrip | app/video_app/minio_client.py:253-310 | encodable metadata whose JSON reads back, written and read back through a working store, is what was written |
| YoloProcessor.NewProcessor | app/video_app/yolo_processor.py:16-33 | falsy arguments fall back to the settings, and a model that does not load is an error naming its path |
| YoloProcessor.ToDetection | app/video_app/yolo_processor.py:143-161 | a box keeps its class name, confidence and top-left corner, and its size reaches the bottom-right corner |
| YoloProcessor.Converted | app/video_app/yolo_processor.py:141-161 | one detection per box, in box order |
| YoloProcessor.FlattenMembers | app/video_app/yolo_processor.py:138-141 | a box is collected iff some model result reports it; results without boxes add nothing |
| YoloProcessor.FrameResultShape | app/video_app/yolo_processor.py:165-170 | a frame result echoes the frame number, counts exactly its objects, and object `k` is the `k`-th reported box |
| YoloProcessor.SizesNonNegative | app/video_app/yolo_processor.py:158-159 | sizes are non-negative whenever the model's corners are ordered |
| YoloProcessor.NoClamping | app/video_app/yolo_processor.py:158 | corners out of order give a negative width |
| YoloProcessor.ProcessFrame | app/video_app/yolo_processor.py:120-170 | `_process_frame`'s loops compute the frame result of the model's output |
| YoloProcessor.SelectedMembers | app/video_app/yolo_processor.py:91 | frame `x` is selected iff it is below the count and `x % k == 0` |
| YoloProcessor.SelectedIncreasing | app/video_app/yolo_processor.py:91 | selected frame numbers are strictly increasing |
| YoloProcessor.SelectedCount | app/video_app/yolo_processor.py:91 | a stride of `k >= 1` over `n` frames selects `ceil(n / k)` of them |
| YoloProcessor.FrameDetectionsAt | app/video_app/yolo_processor.py:91-94 | result `j` is the detection on the `j`-th selected frame |
| YoloProcessor.SamplingContract | app/video_app/yolo_processor.py:85-104 | frame `i` is detected on iff `i % k == 0`; results are in strictly increasing frame order, each is its frame's detection, and there are `ceil(n / k)` of them |
| YoloProcessor.WrittenFramesAt | app/video_app/yolo_processor.py:97-102 | the output video holds one frame per frame read, in order, annotated exactly when it was selected and had detections |
| YoloProcessor.Duration | app/video_app/yolo_processor.py:77 | `duration * fps == frame_count` when `fps > 0`, and 0 otherwise |
| YoloProcessor.HandleRead | app/video_app/yolo_processor.py:91-102 | one read frame extends the results and the written output from the first `n` frames to the first `n + 1` |
| YoloProcessor.ReadAllFrames | app/video_app/yolo_processor.py:84-108 | the frame loop yields the sampled detections of all frames read and writes every frame read; with `k == 0` the first frame raises |
| YoloProcessor.ProcessVideo | app/video_app/yolo_processor.py:35-118 | a missing file and an unopenable capture are errors with no effect; otherwise the results and the annotated output are those of the frames read, and every handle is released |
| YoloProcessor.FrameFileName | app/video_app/yolo_processor.py:228 | an image name holds no slash |
| YoloProcessor.FramePathInjective | app/video_app/yolo_processor.py:228 | distinct frame numbers never share an image path |
| YoloProcessor.ExtractedPathsAt | app/video_app/yolo_processor.py:227-230 | path `j` is the image path of the `j`-th selected frame |
| YoloProcessor.ExtractedPathsDistinct | app/video_app/yolo_processor.py:227-230 | no path is returned twice |
| YoloProcessor.ExtractedPathsMembers | app/video_app/yolo_processor.py:227-230 | a path is returned iff it is the image path of a selected frame |
| YoloProcessor.ImagesWrittenContents | app/video_app/yolo_processor.py:227-230 | extraction adds exactly the returned paths, each selected frame's JPEG is at its path, and every other file is untouched |
| YoloProcessor.ExtractFrames | app/video_app/yolo_processor.py:196-238 | missing file, empty directory and unopenable capture are errors with no effect; otherwise the paths and images are those of the frames read, and the capture is released |
| YoloProcessor.ResolutionParses | app/video_app/yolo_processor.py:270 | the resolution text splits at its one `x` into the width and the height |
| YoloProcessor.GetVideoMetadata | app/video_app/yolo_processor.py:240-274 | the capture's properties, `frame_count / fps` (0 for `fps <= 0`), `<w>x<h>` and the file's byte size, or the error for a missing or unopenable file |
| Tasks.ProcessedOutputPathShape | app/video_app/tasks.py:58-64 | the annotated copy is `processed_<basename>` in `MEDIA_ROOT/processed_videos` |
| Tasks.FramesDir | app/video_app/tasks.py:173 | the frame directory name is never empty |
| Tasks.ObjectRowsOf | app/video_app/tasks.py:86-96 | one object row per detection, in order, with the box copied as reported |
| Tasks.FrameRowsAt | app/video_app/tasks.py:74-83 | frame row `j` is the row of result `j` |
| Tasks.ObjectRowsCount | app/video_app/tasks.py:86-96 | the count a job reports is the number of object rows it adds |
| Tasks.ObjectRowsSound | app/video_app/tasks.py:86-96 | every object row written is the row of a detection, with its frame number |
| Tasks.ObjectRowsComplete | app/video_app/tasks.py:86-96 | the row of every detection is written |
| Tasks.ObjectRowsMembers | app/video_app/tasks.py:74-96 | a row is written iff it is the row of some detection of some result |
| Tasks.VideoRunFramesUnique | app/video_app/tasks.py:74-83 | a whole-video run's frame rows are in frame order and never break frame-key uniqueness on a video without rows |
| Tasks.RerunBreaksUniqueness | app/video_app/tasks.py:78-83 | rerunning the job on a video that already has frame 0's row cannot add its rows |
| Tasks.DefaultFrameNumbersContract | app/video_app/tasks.py:250-252 | the default frames are every 30th frame below the count, increasing, `ceil(total / 30)` of them |
| Tasks.SeekResultsMembers | app/video_app/tasks.py:258-265 | there is a result for each readable requested frame, in request order, and only for those |
| Tasks.ProgressRecords | app/video_app/tasks.py:282-284 | one saved record per progress value, differing from the record only in progress |
| Tasks.ProgressBounds | app/video_app/tasks.py:282 | progress grows with the frame index, lies in 0..100, and is 100 at the last frame |
| Tasks.ProgressTrailShape | app/video_app/tasks.py:258-284 | saved progress never goes down, stays in 0..100, comes once per frame read, and ends at 100 when the last requested frame reads |
| Tasks.StartTask | app/video_app/tasks.py:22-33 | a missing video writes nothing; otherwise a stamped `running` record is inserted, or its insertion error returned |
| Tasks.FailTask | app/video_app/tasks.py:133-137 | the handler marks the record `failed`, stamped, with the error's text |
| Tasks.FailVideo | app/video_app/tasks.py:140-143 | the handler marks the video `failed` with the error's text |
| Tasks.SaveObjects | app/video_app/tasks.py:86-96 | all of a frame's object rows are appended, or a prefix of them before the first failed write; with no failing write from its first on, it succeeds |
| Tasks.PersistResult | app/video_app/tasks.py:78-96 | one result's frame row and then its object rows are appended |
| Tasks.PersistDetections | app/video_app/tasks.py:74-96 | on success the rows appended are exactly the results' frame rows and object rows; a failure keeps what was written |
| Tasks.MarkProcessing | app/video_app/tasks.py:36-38 | the video goes to `processing`, stamped |
| Tasks.StoreMetadata | app/video_app/tasks.py:46-55 | the capture's metadata and the file size are written into the video row |
| Tasks.PrepareVideo | app/video_app/tasks.py:36-55 | the video is marked processing, the processor built and the metadata stored |
| Tasks.RunVideo | app/video_app/tasks.py:66-96 | detection over every frame with an annotated copy, then the rows of the results |
| Tasks.UploadProcessedCopy | app/video_app/tasks.py:99-101 | a fresh client provisions the buckets; when the copy exists its bytes are stored in `processed-videos` under its suffixed name and the key returned, otherwise the store's objects are unchanged and there is no key |
| Tasks.UploadCopy | app/video_app/tasks.py:99-103 | the copy is stored as `UploadProcessedCopy` says, and the video's stored-copy key is the new key when the copy exists, unchanged otherwise |
| Tasks.CloseVideoJob | app/video_app/tasks.py:106-114 | the record is `completed` at 100, then the video `completed`, each stamped; the video history only grows |
| Tasks.FinishVideoJob | app/video_app/tasks.py:99-114 | the copy is stored in `processed-videos` when it exists, then the record and the video are closed |
| Tasks.VideoJob | app/video_app/tasks.py:36-124 | a successful body leaves the rows, the video row, the annotated copy and the summary of `VideoJobSucceeded`, the copy in the store, the video's `processing` row first in its new history, and the record completed |
| Tasks.ProcessVideoTask | app/video_app/tasks.py:14-145 | a missing video writes nothing, in the database, the files or the store; an error marks the record (if created) and the video failed with its text; success leaves what `VideoJobSucceeded` says, the copy in the store, the record completed at 100 after it started, and the video's `processing` row, stamped after the record started, first in its new history |
| Tasks.FrameNames | app/video_app/tasks.py:187-189 | one object name per image |
| Tasks.FrameKeysAt | app/video_app/tasks.py:187-189 | key `j` is the key of the `j`-th image's name |
| Tasks.StoredFramesContents | app/video_app/tasks.py:187-189 | every image is stored in `extracted-frames`, no object is lost, and nothing outside that bucket changes |
| Tasks.AllUploadableMeans | app/video_app/tasks.py:187-189 | the loop's success condition is that every image exists and no upload fails |
| Tasks.UploadFrame | app/video_app/tasks.py:188 | image `j` is stored under its name iff it exists, its call works and the bucket exists |
| Tasks.UploadFrames | app/video_app/tasks.py:184-189 | the loop succeeds iff every upload can, and then returns the keys in order with every image stored |
| Tasks.UploadExtracted | app/video_app/tasks.py:184-189 | a fresh client provisions the buckets, then the images are uploaded |
| Tasks.FrameFileNameSplits | app/video_app/tasks.py:188 | `os.path.splitext` of a frame image name splits off `.jpg` |
| Tasks.ExtractedFrameKey | app/video_app/tasks.py:188 | the `j`-th key is `extracted-frames/frame_<6-digit frame>_<suffix>.jpg` |
| Tasks.ExtractImages | app/video_app/tasks.py:173-181 | the images go under `MEDIA_ROOT/extracted_frames/<id>`, and every returned path exists |
| Tasks.ExtractJob | app/video_app/tasks.py:170-204 | success leaves the images and uploads of `ExtractionSucceeded` and the record completed at 100; videos are untouched |
| Tasks.ExtractFramesTask | app/video_app/tasks.py:148-218 | a missing video writes nothing; an error marks the record failed with its text; success leaves what `ExtractionSucceeded` says |
| Tasks.HandleFrame | app/video_app/tasks.py:258-284 | a chosen frame that reads adds its object rows and one progress save; one that does not read writes nothing; with no failing write it succeeds |
| Tasks.DetectFrame | app/video_app/tasks.py:258-284 | one chosen frame takes the rows, count and saves of the first `i` frames to those of the first `i + 1`, and succeeds when no write fails |
| Tasks.DetectLoop | app/video_app/tasks.py:255-287 | on success the object rows, their count and the progress saves are those of every chosen frame that reads; with no failing write the loop succeeds |
| Tasks.DetectCapture | app/video_app/tasks.py:254-287 | the capture opened on a decodable video is released after the loop, whose rows, count and saves it passes on, and which succeeds when no write fails |
| Tasks.DetectRun | app/video_app/tasks.py:246-287 | the metadata and chosen frames fix the loop's input, and the capture is released; a video that decodes, with no failing write, always succeeds |
| Tasks.DetectJob | app/video_app/tasks.py:243-302 | success leaves what `DetectionSucceeded` says, the progress saves, and the record completed at 100; the job succeeds whenever the model loads, the video decodes and no write fails |
| Tasks.DetectObjectsInFramesTask | app/video_app/tasks.py:221-316 | a missing video writes nothing; an error marks the record failed; success leaves the rows and the history running, progress saves, completed; it succeeds whenever the video exists, the Celery id is free, the model loads, the video decodes and no write fails |
| Tasks.DetectObjectsInFramesTaskAsWritten | app/video_app/tasks.py:221-316 | the job never succeeds and writes no object row; with the video, record and metadata in place it fails with `NameError` at its first `cv2` use |

## Left out

- Timings (`processing_time`, `time.time()`) and logging are not modelled.
- Detection internals are opaque functions:
  - inference, decoding, encoding and JPEG writing;
  - the drawing of boxes and labels (`_draw_detections`).
- Python floats are exact reals here.
  - `Tasks.Progress` computes `int((i + 1) / n * 100)` as the exact integer quotient `(i + 1) * 100 / n`; float rounding could differ.
  - `Serializers.FileSizeMb` leaves out the final `round(..., 2)`.
- Serializers.ValidateVideoFile: does not model the text of the validation messages, only which check refused.
- Serializers.ValidateVideoFile: compares the extension lower-cased by `Text.Lower`, which is ASCII-only. A name whose extension holds a non-ASCII character that Python's `str.lower` folds into an allowed one (the Kelvin sign U+212A in `.m\u212Av` becomes `k`) is accepted by the original and refused here.
- Text.Lower: maps only `A`-`Z` to `a`-`z`. Python's `str.lower` applies the full Unicode lower-case mapping, which is not modelled.
- Library exception messages are fixed stand-ins in `Errors.Message` (database, model loader and store errors).
- Handler saves (in the `except` branches) never fail here. A failing handler save in the original would replace the error being raised.
- `os.makedirs` succeeds for any non-empty name here; permission errors are not modelled.
- `os.path.exists` is membership in the file map.
- Tasks.VideoPath: joins `MEDIA_ROOT` and the stored name with `os.path.join`. Django's `FieldFile.path` also normalises the result (`safe_join`) and raises for an empty name or a name that escapes `MEDIA_ROOT`; neither is modelled, so stored names are taken to be plain relative paths.
- `MinioClient.Client.ListFiles` and `MinioClient.Client.ListBuckets` do not fix the order of their results, and leave out modification time and tag.
- The store's transport failures are inputs: per call `fail`, per job `uploadFault` and `bucketFault`.
- Connection settings, credentials and `secure` are left out.
- `MinioClient.Client.GetFileUrl` takes the signer as a function.
- `Tasks.StoredFrames` stores nothing for a missing image. The upload raises first in that case, so this only shapes the success case.
- `Tasks.RunVideo` relies on the capture having opened when the metadata was read, which holds because decoding is a function of the file's bytes.
- The clock's readings are consecutive numbers, so "later than" is all that is claimed about times.
- `cleanup_temp_files_task` and `health_check_task` (tasks.py:319-370) are outside the modelled core. The first deletes nothing as written, because its age test compares an hour ago against a day ago. The second only constructs the processor and the client and lists buckets.
- Celery dispatch, retries and `self.request.id` are not modelled. The execution id is a parameter.
- Tasks.ProcessVideoTask: the contract says what success leaves behind, but not the inputs under which the job is sure to succeed. That condition spans the database, codec, model and every store fault oracle, and the proof is already the costliest in the project.
- Tasks.ExtractFramesTask: as for `Tasks.ProcessVideoTask`, no sufficient condition for success is stated.
- Tasks.ExtractFramesTask: takes the frame interval `k` from its caller. The original's `frame_interval` parameter defaults to 30 (tasks.py:149); the default is not modelled.
- `Video.__str__` and the other `__str__` methods are not modelled.
- The REST views and URL routing are not part of this model.

## Findings

| source | as written | input that shows it | evidently intended | confidence | as-written member | corrected member |
|---|---|---|---|---|---|---|
| app/video_app/tasks.py:254 | `detect_objects_in_frames_task` calls `cv2.VideoCapture`, but `tasks.py` never imports `cv2` (imports at lines 1-9), so the first use raises `NameError` after the record is created and the metadata is read; the record is then marked failed and no detection is ever saved | any existing video that decodes, with a working database and model | open a capture, seek to each chosen frame, save the objects of each frame that reads with progress after it, and complete at 100 | not executed | Tasks.DetectObjectsInFramesTaskAsWritten | Tasks.DetectObjectsInFramesTask |
