/** Time as the source's system clock keeps it: ticks of a nanosecond since the epoch. */
module Clock {
  const TICKS_PER_SECOND := 1_000_000_000

  /** Integer division as in C++, rounding toward zero. */
  function TruncDiv(a: int, b: int): int
    requires b > 0
  {
    if a >= 0 then a / b else -((-a) / b)
  }

  /** `duration_cast<seconds>`. */
  function WholeSeconds(ticks: int): int {
    TruncDiv(ticks, TICKS_PER_SECOND)
  }
}
