/** Optional values and a minimum, used across the model. */
module Wrappers {

  /** Optional value; `None` is JavaScript `NaN` (a request that did not
      parse) or `undefined` (an array read past the end). */
  datatype Option<+T> = None | Some(value: T)

  function Min(a: int, b: int): (r: int)
    ensures r <= a && r <= b
    ensures r == a || r == b
  {
    if a <= b then a else b
  }
}
