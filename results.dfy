/** Success-or-error values standing for a JavaScript call that returns or throws. */
module Results {

  datatype Result<+T, +E> = Ok(value: T) | Err(error: E)

  /** JavaScript's `undefined` next to a present value (an array slot, a lookup). */
  datatype Option<+T> = None | Some(value: T)
}
