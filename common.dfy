/** Values shared by every module: optional values, the failures that end a
    run, and a result that is either a value or such a failure. */
module Common {

  datatype Option<+T> = None | Some(value: T)

  /** Every condition that makes the downloader stop with an error. In the
      program each of these but the last reaches HandleError; the last is
      a run-time panic. */
  datatype Failure =
    | InvalidContentLength(text: string)           // strconv.ParseInt rejected the header
    | TransferFailed(reason: string)               // io.Copy of a segment returned an error
    | SizeMismatch(part: int, expected: int, got: int)
    | MissingFile(path: string)                    // os.Stat / os.OpenFile on an absent path
    | Reported(reason: string)                     // any other non-nil error sent on errorChan
    | NegativeBufferSize(size: int)                // make(chan T, size) with size < 0 panics

  datatype Result<+T> = Ok(value: T) | Abort(failure: Failure)
}
