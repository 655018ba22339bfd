/** The errors a file system operation reports. */
module FsErrors {
  datatype FsError = NotFound | PermissionDenied | NotDir | IsDir | InvalidArg | NoSpace | Io
  datatype FsResult<+T> = Ok(value: T) | Err(error: FsError)
}
