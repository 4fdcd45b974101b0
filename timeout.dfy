/** taskolib's Timeout: a non-negative number of milliseconds in which the
    largest representable value, `milliseconds::max()`, means "infinite". */
module Timeouts {
  import opened Wrappers

  /** std::numeric_limits<long long>::max(), the tick count of
      `milliseconds::max()`. */
  const LLongMax: int := 0x7FFF_FFFF_FFFF_FFFF

  type Millis = x: int | 0 <= x <= LLongMax

  datatype Timeout = Timeout(ms: Millis)

  /** The infinite duration stored by the default constructor. */
  const Infinite: Millis := LLongMax

  /** `Timeout()`: the default-constructed timeout. */
  function Default(): (t: Timeout)
    ensures !IsFinite(t)
    ensures forall u: Timeout :: IsFinite(u) ==> Less(u, t)
  {
    Timeout(Infinite)
  }

  /** `Timeout::infinity()`. */
  function Infinity(): (t: Timeout)
    ensures !IsFinite(t) && t == Default()
  {
    Timeout(Infinite)
  }

  /** `isfinite(t)`: the stored value is below the infinite duration. */
  predicate IsFinite(t: Timeout)
  {
    t.ms < Infinite
  }

  predicate Less(a: Timeout, b: Timeout) { a.ms < b.ms }
  predicate LessEq(a: Timeout, b: Timeout) { a.ms <= b.ms }
  predicate Greater(a: Timeout, b: Timeout) { a.ms > b.ms }
  predicate GreaterEq(a: Timeout, b: Timeout) { a.ms >= b.ms }

  /** Equality of timeouts is equality of the stored milliseconds, and the
      comparison operators form a total order in which every infinite
      timeout is the same value and lies above every finite one. */
  lemma ComparisonsAreTotalOrder(a: Timeout, b: Timeout)
    ensures (a == b) <==> a.ms == b.ms
    ensures Less(a, b) <==> !GreaterEq(a, b)
    ensures LessEq(a, b) <==> (Less(a, b) || a == b)
    ensures Greater(a, b) <==> Less(b, a)
    ensures Less(a, b) || a == b || Less(b, a)
    ensures !IsFinite(a) && !IsFinite(b) ==> a == b
    ensures IsFinite(a) && !IsFinite(b) ==> Less(a, b)
  {
  }

  /** std::chrono::round of num/den to an integer: to nearest, ties to even
      (num >= 0, den > 0). */
  function RoundHalfEven(num: nat, den: nat): (q: nat)
    requires den > 0
    ensures 2 * (num - q * den) <= den && 2 * (q * den - num) <= den
  {
    var f := num / den;
    var r := num % den;
    assert num == f * den + r;
    assert (f + 1) * den == f * den + den;
    if 2 * r < den then f
    else if 2 * r > den then f + 1
    else if f % 2 == 0 then f else f + 1
  }

  /** `Timeout(duration)` for a std::chrono duration of `count` ticks whose
      tick is num/den seconds.  A negative duration throws; one at least as
      long as the infinite duration becomes infinite; any other one is
      rounded to milliseconds. */
  function FromDuration(count: int, num: nat, den: nat): (r: Result<Timeout>)
    requires num > 0 && den > 0
    ensures r.Failure? <==> count < 0
    ensures r.Failure? ==> r.error == "Negative timeout"
    ensures r.Success? && count * num * 1000 >= Infinite * den ==> !IsFinite(r.value)
    ensures r.Success? && count * num * 1000 < Infinite * den ==>
              2 * (count * num * 1000 - r.value.ms * den) <= den &&
              2 * (r.value.ms * den - count * num * 1000) <= den
  {
    if count < 0 then Failure("Negative timeout")
    else if count * num * 1000 >= Infinite * den then Success(Timeout(Infinite))
    else
      var q := RoundHalfEven(count * num * 1000, den);
      BelowInfinite(q, count * num * 1000, den);
      Success(Timeout(q))
  }

  lemma BelowInfinite(q: nat, x: nat, den: nat)
    requires den > 0 && x < Infinite * den && 2 * (q * den - x) <= den
    ensures q <= Infinite
  {
    if q > Infinite {
      MulMonotone(Infinite + 1, q, den);
    }
  }

  lemma MulMonotone(a: int, b: int, c: nat)
    requires a <= b
    ensures a * c <= b * c
  {
    assert b * c - a * c == (b - a) * c;
  }

  /** A duration given in whole milliseconds is stored exactly. */
  lemma FromMillisecondsIsExact(n: nat)
    requires n < Infinite
    ensures FromDuration(n, 1, 1000) == Success(Timeout(n))
  {
  }

  /** `static_cast<DurationT>(t)` for a duration type whose tick is num/den
      seconds and whose largest count is maxCount: an infinite timeout gives
      maxCount, a finite one converts by duration_cast (truncation). */
  function ToDuration(t: Timeout, num: nat, den: nat, maxCount: int): (r: int)
    requires num > 0 && den > 0
    ensures !IsFinite(t) ==> r == maxCount
    ensures IsFinite(t) ==> var d := num * 1000; r * d <= t.ms * den < (r + 1) * d
  {
    if IsFinite(t) then
      var x: int, d: int := t.ms * den, num * 1000;
      FloorDivision(x, d);
      x / d
    else maxCount
  }

  lemma FloorDivision(x: int, d: int)
    requires d > 0
    ensures (x / d) * d <= x < (x / d + 1) * d
  {
    assert x == (x / d) * d + x % d;
  }
}
