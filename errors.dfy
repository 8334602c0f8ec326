/** The exception classes of the video editor and the result type that
    stands for "returns a value or raises". */
module Errors {

  datatype Option<T> = None | Some(value: T)

  /** `VideoEditorError` and its two subclasses `InvalidInputError` and
      `SecurityError`; `OSError` stands for what the operating system raises
      when the external process cannot be spawned, which is not a
      `VideoEditorError`. */
  datatype ErrorClass = VideoEditorError | InvalidInputError | SecurityError | OSError

  /** A raised exception: its class and `str(e)`. */
  datatype Error = Error(cls: ErrorClass, message: string) {
    /** `isinstance(e, VideoEditorError)`. */
    predicate IsVideoEditorError() {
      cls != OSError
    }
  }

  datatype Result<T> = Ok(value: T) | Err(error: Error)
}
