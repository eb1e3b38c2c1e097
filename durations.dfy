/**
 * The part of Rust's `std::time::Duration` that the core relies on: a whole
 * number of seconds that fits in a `u64` plus a nanosecond part below one
 * second, `Duration::from_secs`, `Duration::default()`, `Duration::MAX` and
 * `saturating_add` (written as the standard library writes it, through
 * `checked_add`).
 */
module Durations {
  import opened Errors

  const U64_MAX: nat := 0xFFFF_FFFF_FFFF_FFFF
  const NANOS_PER_SEC: nat := 1_000_000_000

  datatype DurationRepr = DurationRepr(secs: nat, nanos: nat)

  type Duration = d: DurationRepr | d.secs <= U64_MAX && d.nanos < NANOS_PER_SEC
    witness DurationRepr(0, 0)

  /** `Duration::default()`. */
  const ZERO: Duration := DurationRepr(0, 0)

  /** `Duration::MAX`: u64::MAX seconds and 999_999_999 nanoseconds. */
  const MAX: Duration := DurationRepr(U64_MAX, NANOS_PER_SEC - 1)

  const MAX_NANOS: nat := U64_MAX * NANOS_PER_SEC + (NANOS_PER_SEC - 1)

  function Min(a: int, b: int): int {
    if a <= b then a else b
  }

  /** The length of a duration in nanoseconds; every duration is at most `MAX`. */
  function TotalNanos(d: Duration): (n: nat)
    ensures n <= MAX_NANOS
    ensures n == MAX_NANOS <==> d == MAX
  {
    d.secs * NANOS_PER_SEC + d.nanos
  }

  /** A duration is determined by its length. */
  lemma TotalNanosInjective(a: Duration, b: Duration)
    requires TotalNanos(a) == TotalNanos(b)
    ensures a == b
  {
    DivModOfTotalNanos(a);
    DivModOfTotalNanos(b);
  }

  lemma DivModOfTotalNanos(d: Duration)
    ensures TotalNanos(d) / NANOS_PER_SEC == d.secs
    ensures TotalNanos(d) % NANOS_PER_SEC == d.nanos
  {
  }

  /** `Duration::from_secs`, for a `u64` number of seconds. */
  function FromSecs(secs: nat): (d: Duration)
    requires secs <= U64_MAX
    ensures TotalNanos(d) == secs * NANOS_PER_SEC
  {
    DurationRepr(secs, 0)
  }

  /**
   * `Duration::checked_add`: `None` exactly when the sum does not fit, and
   * otherwise the exact sum.
   */
  function CheckedAdd(a: Duration, b: Duration): (r: Option<Duration>)
    ensures r.Some? <==> TotalNanos(a) + TotalNanos(b) <= MAX_NANOS
    ensures r.Some? ==> TotalNanos(r.value) == TotalNanos(a) + TotalNanos(b)
  {
    var secs := a.secs + b.secs;
    if secs > U64_MAX then
      assert TotalNanos(a) + TotalNanos(b) >= (U64_MAX + 1) * NANOS_PER_SEC;
      None
    else
      var nanos := a.nanos + b.nanos;
      if nanos >= NANOS_PER_SEC then
        if secs + 1 > U64_MAX then
          None
        else
          Some(DurationRepr(secs + 1, nanos - NANOS_PER_SEC))
      else
        Some(DurationRepr(secs, nanos))
  }

  /**
   * `Duration::saturating_add`: the exact sum, clamped to `Duration::MAX`.
   */
  function SaturatingAdd(a: Duration, b: Duration): (r: Duration)
    ensures TotalNanos(r) == Min(TotalNanos(a) + TotalNanos(b), MAX_NANOS)
    ensures TotalNanos(a) + TotalNanos(b) >= MAX_NANOS ==> r == MAX
  {
    match CheckedAdd(a, b)
    case Some(d) => d
    case None => MAX
  }

  /** Saturating addition does not depend on the order of its operands. */
  lemma SaturatingAddCommutes(a: Duration, b: Duration)
    ensures SaturatingAdd(a, b) == SaturatingAdd(b, a)
  {
    TotalNanosInjective(SaturatingAdd(a, b), SaturatingAdd(b, a));
  }
}
