/** Integer points in (first coordinate, second coordinate) form, shared by the patch
    selector (row, column centres) and the area calculator. */
module Points {

  datatype Point = Point(x: int, y: int)

  /** Absolute value of an integer. */
  function Abs(n: int): (r: nat)
    ensures r == n || r == -n
  {
    if n < 0 then -n else n
  }
}

/** The outcome of an operation that either returns a value or raises an error. */
module Outcomes {

  datatype Result<T, E> = Ok(value: T) | Err(error: E)
}
