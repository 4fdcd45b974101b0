/** The deadline computation used when a step script starts: the current
    time plus the step timeout, in milliseconds since the epoch, saturated at
    the largest `long long`. */
module LuaDetails {
  import opened Timeouts

  const LLongMin: int := -0x8000_0000_0000_0000

  type LLong = x: int | LLongMin <= x <= LLongMax

  /** Two's-complement wrap-around of a mathematical integer to 64 bits. */
  function Wrap(x: int): (r: LLong)
    ensures LLongMin <= x <= LLongMax ==> r == x
  {
    (x - LLongMin) % 0x1_0000_0000_0000_0000 + LLongMin
  }

  /** `get_ms_since_epoch(t0, dt)`, given t0 already rounded to
      milliseconds.  `max_dt = LLONG_MAX - t0_ms` is computed in `long long`;
      the sum is computed only when it stays below LLONG_MAX. */
  function GetMsSinceEpoch(t0Ms: LLong, dtMs: LLong): (r: LLong)
    ensures t0Ms >= 0 ==> r == if dtMs < LLongMax - t0Ms then t0Ms + dtMs else LLongMax
  {
    var maxDt := Wrap(LLongMax - t0Ms);
    if dtMs < maxDt then Wrap(t0Ms + dtMs) else LLongMax
  }

  /** For a non-negative start time and timeout nothing overflows: the
      deadline is the saturated sum and lies between t0 and LLONG_MAX. */
  lemma DeadlineIsSaturatedSum(t0Ms: LLong, dtMs: LLong)
    requires t0Ms >= 0 && dtMs >= 0
    ensures GetMsSinceEpoch(t0Ms, dtMs) == if t0Ms + dtMs < LLongMax then t0Ms + dtMs else LLongMax
    ensures t0Ms <= GetMsSinceEpoch(t0Ms, dtMs) <= LLongMax
  {
  }

  /** An infinite timeout (milliseconds::max()) always yields LLONG_MAX. */
  lemma InfiniteTimeoutSaturates(t0Ms: LLong)
    ensures GetMsSinceEpoch(t0Ms, Infinity().ms) == LLongMax
  {
    if t0Ms < 0 {
      assert Wrap(LLongMax - t0Ms) == LLongMax - t0Ms - 0x1_0000_0000_0000_0000;
    }
  }

  /** With a start time before the epoch, `LLONG_MAX - t0_ms` overflows and
      wraps around to a bound that no timeout is below, so even a zero
      timeout yields LLONG_MAX instead of the start time. */
  lemma NegativeStartOverflowsAsWritten()
    ensures GetMsSinceEpoch(-1, 0) == LLongMax
  {
    assert Wrap(LLongMax + 1) == LLongMin;
  }

  /** The deadline as intended: the start time plus the timeout, saturated
      at LLONG_MAX, for every start time. */
  function SaturatedDeadline(t0Ms: LLong, dtMs: LLong): (r: LLong)
    requires dtMs >= 0
  {
    if dtMs < LLongMax - t0Ms then t0Ms + dtMs else LLongMax
  }

  /** The corrected deadline is the saturated sum for every start time; it
      is never before the start and agrees with the source whenever the
      source does not overflow. */
  lemma SaturatedDeadlineIsSaturatedSum(t0Ms: LLong, dtMs: LLong)
    requires dtMs >= 0
    ensures SaturatedDeadline(t0Ms, dtMs) == if t0Ms + dtMs < LLongMax then t0Ms + dtMs else LLongMax
    ensures t0Ms <= SaturatedDeadline(t0Ms, dtMs) <= LLongMax
    ensures t0Ms >= 0 ==> SaturatedDeadline(t0Ms, dtMs) == GetMsSinceEpoch(t0Ms, dtMs)
    ensures SaturatedDeadline(-1, 0) == -1
  {
  }
}
