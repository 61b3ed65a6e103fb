/** Error outcomes of the container library: each Java exception the core
    throws becomes an `Err` carrying the kind of exception. */
module Outcomes {

  /** The exception kinds the core throws. */
  datatype Error =
    | NoSuchKey          // NoSuchKeyException (dictionaries)
    | NoSuchElement      // NoSuchElementException (hash set)
    | IndexOutOfBounds   // IndexOutOfBoundsException (linked list)
    | EmptyContainer     // EmptyContainerException (list, heap)
    | IllegalArgument    // IllegalArgumentException (heap, top-K)

  /** A value, or the exception that was thrown instead. */
  datatype Result<+T> = Ok(value: T) | Err(error: Error)

  /** An operation that returns nothing in Java, or throws. */
  datatype Status = Done | Failed(error: Error)

  /** Java's `null`, for the one operation whose null check is observable. */
  datatype Option<+T> = None | Some(value: T)
}
