/** What every module of the model shares: `Option` and `Max`. */
module Common {
  datatype Option<+T> = None | Some(value: T)

  /** `Math.max` on two integers. */
  function Max(a: int, b: int): (r: int)
    ensures r >= a && r >= b && (r == a || r == b)
  {
    if a >= b then a else b
  }
}
