/** Wrappers and integer helpers shared by every module of the model. */
module Common {

  /** A value that may be absent: Python's `None` versus a present value. */
  datatype Option<+T> = None | Some(value: T)

  /** The outcome of an operation that may raise. */
  datatype Result<+T, +E> = Success(value: T) | Failure(error: E)

  function Min(a: int, b: int): int { if a <= b then a else b }

  function Max(a: int, b: int): int { if a >= b then a else b }

  /** `math.ceil(a / n)` computed exactly. */
  function CeilDiv(a: int, n: int): int
    requires n > 0
  {
    (a + n - 1) / n
  }

  /** CeilDiv is the least integer q with q * n >= a. */
  lemma CeilDivSpec(a: int, n: int)
    requires n > 0
    ensures CeilDiv(a, n) * n >= a
    ensures (CeilDiv(a, n) - 1) * n < a
  {
    var q := (a + n - 1) / n;
    var r := (a + n - 1) % n;
    assert a + n - 1 == q * n + r && 0 <= r < n;
  }
}
