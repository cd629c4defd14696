/** Optional values and the failures of the allocation-trace parser. */
module Wrappers {

  datatype Option<+T> = None | Some(value: T)

  /** The ways the Ruby script stops with a `NoMethodError` on `nil`. */
  datatype Error =
    | NoFunctionSegment(frame: string)  // a frame splits into fewer than two backtick segments
    | MissingSecondFrame                // the stack has no frame at index 1
    | NilFunctionName                   // a "ruby" frame whose function segment was all '+'
    | NoCaller                          // no frame qualifies as the caller

  datatype Result<+T> = Ok(value: T) | Err(error: Error)
}
