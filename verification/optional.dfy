/**
 * A value that may be absent: what a parser returns when the text does not
 * have the expected form, and what local storage holds for a key that was
 * never written.
 */
module Optional {
  datatype Option<T> = None | Some(value: T)
}
