/** Results of the array operations the demo scripts perform. */
module Wrappers {

  /** The ways an operation of the scripts can fail. */
  datatype Fault =
    | NegativeDimension  // numpy refuses an array shape with a negative extent
    | ShapeMismatch      // the assigned block does not have the shape of the selection

  datatype Result<+T> = Ok(value: T) | Err(error: Fault)

  datatype Option<+T> = None | Some(value: T)
}
