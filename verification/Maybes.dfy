/** A value that may be missing. */
module Maybes {
  datatype Maybe<T> = Nothing | Just(value: T)
}
