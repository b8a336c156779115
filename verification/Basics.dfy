/** Small definitions that several modules share. */
module Basics {

  datatype Option<T> = None | Some(value: T)

  /** A second, in the nanoseconds of Go's time.Duration. */
  const SECOND: int := 1_000_000_000

  /** A truth value as a count. */
  function One(b: bool): nat {
    if b then 1 else 0
  }

  function Pow2(n: nat): (p: nat)
    ensures p > 0
  {
    if n == 0 then 1 else 2 * Pow2(n - 1)
  }
}
