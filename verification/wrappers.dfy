/** Option and Result types used by the decoders, and the engine's error kinds. */
module Wrappers {

  datatype Option<+T> = None | Some(value: T)

  /** Why a decoder gave up.
      - Corrupt: the bytes are not a valid encoding; the engine returns this as an error.
      - Panic: the Rust code would abort (a failed assert!, an out-of-bounds index or slice)
        instead of returning; the model makes it an explicit outcome so that it can be stated. */
  datatype Error = Corrupt | Panic

  datatype Result<+R> = Success(value: R) | Failure(error: Error) {

    predicate IsFailure() {
      Failure?
    }

    function PropagateFailure<U>(): Result<U>
      requires Failure?
    {
      Failure(error)
    }

    function Extract(): R
      requires Success?
    {
      value
    }
  }
}
