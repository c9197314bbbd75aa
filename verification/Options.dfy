/** A value or its absence: a missing neighbour, a failed assertion, a raised error or a score that is not a number. */
module Options {
  datatype Option<T> = None | Some(value: T)
}
