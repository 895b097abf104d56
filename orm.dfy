/** The relational store the job pipeline writes to, with the uniqueness rules
    the schema declares, and the clock that stamps its rows. Every fallible
    write takes the next write number; a write fails with a database error
    exactly when its number is in the store's fixed set of faults. The rows
    written to the processing-task and video tables are also kept, in order, as the
    tables' histories. */
module Orm {
  import opened Wrappers
  import opened Errors
  import opened Models

  /** `timezone.now()`: every reading is later than the one before. */
  class Clock {
    var now: Time

    constructor (start: Time)
      ensures now == start
    {
      now := start;
    }

    method Now() returns (t: Time)
      modifies this
      ensures t == old(now) && now == old(now) + 1
    {
      t := now;
      now := now + 1;
    }
  }

  /** Some stored task already carries this Celery id. */
  predicate CeleryIdTaken(tasks: seq<ProcessingTask>, id: string) {
    exists i :: 0 <= i < |tasks| && tasks[i].celeryTaskId == id
  }

  class Database {
    var videos: map<string, Video>
    var tasks: seq<ProcessingTask>
    var frames: seq<ProcessedFrame>
    var objects: seq<DetectedObject>
    /** Every task row written, in write order. */
    var taskHistory: seq<ProcessingTask>
    /** Every video row written, in write order. */
    var videoHistory: seq<Video>
    const faults: set<nat>
    var writes: nat

    /** No write numbered `w` or later fails. */
    predicate FaultFreeFrom(w: nat) {
      forall x :: x >= w ==> x !in faults
    }

    /** The schema's uniqueness rules hold of the stored rows. */
    predicate Valid()
      reads this
    {
      TaskIdsUnique(tasks) && FrameKeysUnique(frames) &&
      (forall id :: id in videos ==> videos[id].id == id)
    }

    constructor (videos: map<string, Video>, tasks: seq<ProcessingTask>, frames: seq<ProcessedFrame>,
                 objects: seq<DetectedObject>, faults: set<nat>)
      requires TaskIdsUnique(tasks) && FrameKeysUnique(frames)
      requires forall id :: id in videos ==> videos[id].id == id
      ensures Valid()
      ensures this.videos == videos && this.tasks == tasks && this.frames == frames && this.objects == objects
      ensures this.faults == faults && writes == 0 && taskHistory == [] && videoHistory == []
    {
      this.videos, this.tasks, this.frames, this.objects := videos, tasks, frames, objects;
      this.faults := faults;
      writes := 0;
      taskHistory, videoHistory := [], [];
    }

    /** `Video.objects.get(id=...)`. */
    method GetVideo(id: string) returns (r: Result<Video, Error>)
      ensures id in videos ==> r == Ok(videos[id])
      ensures id !in videos ==> r == Err(VideoDoesNotExist(id))
    {
      if id in videos {
        r := Ok(videos[id]);
      } else {
        r := Err(VideoDoesNotExist(id));
      }
    }

    /** `ProcessingTask.objects.create(...)`: appends the row and gives its
        index, unless the write fails or the execution id is taken. */
    method CreateTask(t: ProcessingTask) returns (r: Result<nat, Error>)
      requires Valid()
      modifies this
      ensures Valid() && writes == old(writes) + 1
      ensures videos == old(videos) && frames == old(frames) && objects == old(objects)
      ensures videoHistory == old(videoHistory)
      ensures old(writes) in faults ==> r == Err(DatabaseError(old(writes)))
      ensures old(writes) !in faults && CeleryIdTaken(old(tasks), t.celeryTaskId) ==>
        r == Err(IntegrityError("processingtask.celery_task_id"))
      ensures old(writes) !in faults && !CeleryIdTaken(old(tasks), t.celeryTaskId) ==> r.Ok?
      ensures r.Err? ==> r.error.DatabaseError? || r.error.IntegrityError?
      ensures r.Err? ==> tasks == old(tasks) && taskHistory == old(taskHistory)
      ensures r.Ok? ==> r.value == |old(tasks)| && tasks == old(tasks) + [t] && taskHistory == old(taskHistory) + [t]
    {
      var w := writes;
      writes := writes + 1;
      if w in faults {
        return Err(DatabaseError(w));
      }
      if CeleryIdTaken(tasks, t.celeryTaskId) {
        return Err(IntegrityError("processingtask.celery_task_id"));
      }
      tasks := tasks + [t];
      taskHistory := taskHistory + [t];
      r := Ok(|tasks| - 1);
    }

    /** `task_record.save()` for the row at `i`; a handler's save (not
        `fallible`) always goes through. */
    method SaveTask(i: nat, t: ProcessingTask, fallible: bool) returns (r: Result<(), Error>)
      requires Valid() && i < |tasks| && tasks[i].celeryTaskId == t.celeryTaskId
      modifies this
      ensures Valid()
      ensures videos == old(videos) && frames == old(frames) && objects == old(objects)
      ensures videoHistory == old(videoHistory)
      ensures writes == old(writes) + if fallible then 1 else 0
      ensures r.Err? <==> fallible && old(writes) in faults
      ensures r.Err? ==> r.error == DatabaseError(old(writes)) && tasks == old(tasks) && taskHistory == old(taskHistory)
      ensures r.Ok? ==> tasks == old(tasks)[i := t] && taskHistory == old(taskHistory) + [t]
    {
      if fallible {
        var w := writes;
        writes := writes + 1;
        if w in faults {
          return Err(DatabaseError(w));
        }
      }
      tasks := tasks[i := t];
      taskHistory := taskHistory + [t];
      r := Ok(());
    }

    /** `video.save()` of a stored video. */
    method SaveVideo(v: Video, fallible: bool) returns (r: Result<(), Error>)
      requires Valid() && v.id in videos
      modifies this
      ensures Valid()
      ensures tasks == old(tasks) && frames == old(frames) && objects == old(objects)
      ensures taskHistory == old(taskHistory)
      ensures writes == old(writes) + if fallible then 1 else 0
      ensures r.Err? <==> fallible && old(writes) in faults
      ensures r.Err? ==> r.error == DatabaseError(old(writes)) && videos == old(videos) && videoHistory == old(videoHistory)
      ensures r.Ok? ==> videos == old(videos)[v.id := v] && videoHistory == old(videoHistory) + [v]
    {
      if fallible {
        var w := writes;
        writes := writes + 1;
        if w in faults {
          return Err(DatabaseError(w));
        }
      }
      videos := videos[v.id := v];
      videoHistory := videoHistory + [v];
      r := Ok(());
    }

    /** `ProcessedFrame.objects.create(...)`: refused when the write fails or
        the video already has a row for that frame number. */
    method CreateFrame(f: ProcessedFrame) returns (r: Result<(), Error>)
      requires Valid()
      modifies this
      ensures Valid() && writes == old(writes) + 1
      ensures videos == old(videos) && tasks == old(tasks) && objects == old(objects)
      ensures taskHistory == old(taskHistory) && videoHistory == old(videoHistory)
      ensures old(writes) in faults ==> r == Err(DatabaseError(old(writes)))
      ensures old(writes) !in faults && (exists i :: 0 <= i < |old(frames)| && old(frames)[i].video == f.video && old(frames)[i].frameNumber == f.frameNumber) ==>
        r == Err(IntegrityError("processedframe.video_id, processedframe.frame_number"))
      ensures old(writes) !in faults && !(exists i :: 0 <= i < |old(frames)| && old(frames)[i].video == f.video && old(frames)[i].frameNumber == f.frameNumber) ==>
        r.Ok?
      ensures r.Err? ==> r.error.DatabaseError? || r.error.IntegrityError?
      ensures r.Err? ==> frames == old(frames)
      ensures r.Ok? ==> frames == old(frames) + [f]
    {
      var w := writes;
      writes := writes + 1;
      if w in faults {
        return Err(DatabaseError(w));
      }
      if exists i :: 0 <= i < |frames| && frames[i].video == f.video && frames[i].frameNumber == f.frameNumber {
        return Err(IntegrityError("processedframe.video_id, processedframe.frame_number"));
      }
      frames := frames + [f];
      r := Ok(());
    }

    /** `DetectedObject.objects.create(...)`. */
    method CreateObject(o: DetectedObject) returns (r: Result<(), Error>)
      requires Valid()
      modifies this
      ensures Valid() && writes == old(writes) + 1
      ensures videos == old(videos) && tasks == old(tasks) && frames == old(frames)
      ensures taskHistory == old(taskHistory) && videoHistory == old(videoHistory)
      ensures r.Err? <==> old(writes) in faults
      ensures r.Err? ==> r.error == DatabaseError(old(writes)) && objects == old(objects)
      ensures r.Ok? ==> objects == old(objects) + [o]
    {
      var w := writes;
      writes := writes + 1;
      if w in faults {
        return Err(DatabaseError(w));
      }
      objects := objects + [o];
      r := Ok(());
    }
  }
}
