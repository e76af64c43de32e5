/** Option and Result, and the errors the pipeline raises. */
module Wrappers {

  datatype Option<+T> = None | Some(value: T)

  datatype Result<+T, +E> = Ok(value: T) | Err(error: E)

  /** The two ways a step of the pipeline can fail: a FastAPI `HTTPException`
      carrying a status code and a detail message, or an exception escaping
      from the media decoder because it could not parse its input. */
  datatype Error = HttpException(status: nat, detail: string) | DecodeFailure
}
