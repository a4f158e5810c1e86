/** Failure-carrying values used at the boundary to code that is not modelled. */
module Wrappers {

  /** A value that may be missing: a failed lookup, a failed fetch or a nil value. */
  datatype Option<+T> = None | Some(value: T)

  /** A value or the error that replaced it. */
  datatype Result<+T, +E> = Success(value: T) | Failure(error: E)

  /** A check that either passes or fails with an error (a Go function returning only `error`). */
  datatype Outcome<+E> = Pass | Fail(error: E)
}

/** The errors the checker reports to its caller. */
module Errors {

  datatype Error =
    | InvalidRules              // Config.Validate: no filter rule and no "show all"
    | IsDirectory(path: string) // checkIsDir: the output path names a directory
    | CreateFailed(path: string) // os.Create failed inside NewFileHandler
    | ApiError(message: string) // an error returned by the cloud client
}
