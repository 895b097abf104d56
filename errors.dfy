/** The exceptions that the job pipeline raises or catches, with the text that
    `str(e)` gives for each; the text is what ends up in `error_message`. */
module Errors {
  import opened Text

  datatype Error =
      /** `FileNotFoundError` for a video path that does not exist. */
    | VideoFileNotFound(path: string)
      /** `FileNotFoundError` for a local file to upload that does not exist. */
    | LocalFileNotFound(path: string)
      /** `FileNotFoundError` from `os.makedirs` on a missing directory name. */
    | NoSuchDirectory(path: string)
      /** `ValueError` raised when a capture cannot be opened. */
    | CouldNotOpen(path: string)
      /** `frame_number % 0`. */
    | ZeroDivisionError
      /** The detection model could not be loaded from this weights path. */
    | ModelLoadError(path: string)
      /** `Video.DoesNotExist` from the ORM lookup. */
    | VideoDoesNotExist(videoId: string)
      /** A uniqueness constraint of the schema rejected a row. */
    | IntegrityError(detail: string)
      /** Any other failure of the relational store, at this write. */
    | DatabaseError(write: nat)
      /** `S3Error` from the object store for this bucket and object. */
    | S3Error(code: string, bucket: string, objectName: string)
      /** `NameError` for an unbound global name. */
    | NameError(name: string)
      /** `TypeError` from `json.dump` on a value JSON cannot represent. */
    | NotSerializable

  /** `str(e)`. Messages of exceptions raised by libraries outside this code
      base (ORM, model loader, object store) are fixed stand-ins. */
  function Message(e: Error): (r: string)
    ensures |r| > 0
  {
    match e
    case VideoFileNotFound(path) => "Video file not found: " + path
    case LocalFileNotFound(path) => "File not found: " + path
    case NoSuchDirectory(path) => "[Errno 2] No such file or directory: '" + path + "'"
    case CouldNotOpen(path) => "Could not open video file: " + path
    case ZeroDivisionError => "integer modulo by zero"
    case ModelLoadError(path) => "could not load model weights from " + path
    case VideoDoesNotExist(_) => "Video matching query does not exist."
    case IntegrityError(detail) => "UNIQUE constraint failed: " + detail
    case DatabaseError(w) => "database error at write " + Decimal(w)
    case S3Error(code, bucket, name) => "S3 operation failed; code: " + code + ", resource: " + bucket + "/" + name
    case NameError(name) => "name '" + name + "' is not defined"
    case NotSerializable => "Object is not JSON serializable"
  }
}
