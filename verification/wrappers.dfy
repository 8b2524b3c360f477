/** Small shared helpers: the optional result of a lookup that may find nothing, and `Min`. */
module Wrappers {

  datatype Option<+T> = None | Some(value: T)

  /** The smaller of two integers. */
  function Min(a: int, b: int): int
  {
    if a <= b then a else b
  }
}
