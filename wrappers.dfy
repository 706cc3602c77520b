/** An optional value; DirectionOfCode yields None for a numeric code that names no heading. */
module Wrappers {

  datatype Option<+T> = None | Some(value: T)
}
