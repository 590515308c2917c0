/** Option and Result values used across the model. */
module Wrappers {

  datatype Option<+T> = None | Some(value: T)

  /** Why an engine operation can fail: only the upload of the saved collection is a failure the
      engine lets escape to its caller. */
  datatype Failure = UploadFailed

  datatype Result<+T> = Ok(value: T) | Err(error: Failure)

  function Min(a: int, b: int): (r: int)
    ensures r <= a && r <= b
    ensures r == a || r == b
  {
    if a <= b then a else b
  }
}
