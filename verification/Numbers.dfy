/** Bounds, rounding up, and spans of time in milliseconds. */
module Numbers {

  const MINUTE := 60_000
  const HOUR := 3_600_000
  const DAY := 86_400_000

  function Max(a: int, b: int): int {
    if a > b then a else b
  }

  function Min(a: int, b: int): int {
    if a < b then a else b
  }

  /** The least integer that is not below a / b. */
  function CeilDiv(a: int, b: int): (c: int)
    requires b > 0
    ensures (c - 1) * b < a <= c * b
  {
    -((-a) / b)
  }
}
