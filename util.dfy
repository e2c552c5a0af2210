/** Small shared definitions: an optional value and the minimum of two integers. */
module Util {

  /** Python's `None` or a present value. */
  datatype Option<T> = None | Some(value: T)

  function Min(a: int, b: int): (m: int)
    ensures m <= a && m <= b
    ensures m == a || m == b
  {
    if a <= b then a else b
  }
}
