/** Durations in milliseconds, and integer forms of the `Math.floor(a / b)`
    and `Math.ceil(a / b)` the program applies to millisecond and second
    counts. The divisor is always a positive constant there. Integers here
    are unbounded; the program's numbers are doubles, which hold these
    integers exactly while they stay within the range of a `Date`. */
module Numbers {

  /** Durations in milliseconds, the unit of every clock reading. */
  const MinuteMs: int := 60 * 1000
  const HourMs: int := 60 * MinuteMs
  const DayMs: int := 24 * HourMs

  /** `Math.floor(a / b)` for a positive divisor: the unique `q` with
      `q * b <= a < (q + 1) * b`, for negative `a` as well. */
  function FloorDiv(a: int, b: int): (q: int)
    requires b > 0
    ensures q * b <= a < q * b + b
  {
    a / b
  }

  /** `Math.ceil(a / b)` for a positive divisor: the unique `q` with
      `(q - 1) * b < a <= q * b`, for negative `a` as well. */
  function CeilDiv(a: int, b: int): (q: int)
    requires b > 0
    ensures q * b - b < a <= q * b
  {
    -((-a) / b)
  }
}
