/** Failure-carrying results shared by every component of the model. */
module Common {
  datatype Option<+T> = None | Some(value: T)

  datatype Result<+T, +E> = Ok(value: T) | Err(error: E)

  function Min(a: int, b: int): int { if a <= b then a else b }

  function Max(a: int, b: int): int { if a <= b then b else a }

  /** What a rate-limit store answers. */
  datatype RateLimitRecord = RateLimitRecord(count: int, resetTime: int)
}
