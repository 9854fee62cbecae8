/** Failure-compatible result types shared by the URL store model.
    The service reports exactly three kinds of failure: a missing URL,
    a URL the validator rejects, and an unknown short code. */
module Outcomes {

  datatype Option<+T> = None | Some(value: T)

  /** The error kinds the request handlers map to HTTP statuses
      (400 "Missing 'url' in request body", 400 "Invalid URL format",
      404 "Short code not found"). */
  datatype Error = MissingUrl | InvalidUrl | NotFound

  datatype Result<+T> = Ok(value: T) | Err(error: Error)
}
