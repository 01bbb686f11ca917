/** Small shared definitions: an optional value, integer minimum and maximum. */
module Common {

  /** An optional value; `None` stands for the sentinel the C code uses (`-1`, or a NaN). */
  datatype Option<+T> = None | Some(value: T)

  function Min(a: int, b: int): (m: int)
    ensures m <= a && m <= b && (m == a || m == b)
  {
    if a <= b then a else b
  }

  /** The `MAX` macro of the C sources. */
  function Max(a: int, b: int): (m: int)
    ensures m >= a && m >= b && (m == a || m == b)
  {
    if a >= b then a else b
  }
}
