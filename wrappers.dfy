/** Optional values and error results shared by every module of the model. */
module Wrappers {

  /** Python's `x or None`: a reservation, a node colour, a looked-up value. */
  datatype Option<+T> = None | Some(value: T)

  /** The exceptions the modelled code can raise. */
  datatype Error =
    | ValueError          // random.randint on an empty range, SlotSpace.color out of range
    | ZeroDivisionError   // 360 / range when the range is zero, the share of no applications
    | IndexError          // the first key of an empty node map

  /** A call that either returns a value or raises one of the errors above. */
  datatype Result<+T> = Ok(value: T) | Err(error: Error)
}
