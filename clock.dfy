/** The sampling intervals and the "last complete period" clock. The current
    time is a parameter: a Unix timestamp in whole seconds (UTC). */
module Clock {

  /** A sampling granularity; its value is its length in minutes. */
  datatype Interval = Hour | Day

  function Minutes(interval: Interval): (m: nat)
    ensures m % 60 == 0 && m > 0
  {
    match interval
    case Hour => 60
    case Day => 1440
  }

  /** Length of an interval in seconds (`interval.value * 60`). */
  function Step(interval: Interval): (s: nat)
    ensures s > 0 && s % HourSeconds == 0 && DaySeconds % s == 0
  {
    Minutes(interval) * 60
  }

  const HourSeconds: int := 3600
  const DaySeconds: int := 86400

  /** A multiple of d leaves no remainder. */
  lemma {:induction false} MultipleHasNoRemainder(d: int, q: int)
    requires d > 0
    ensures (d * q) % d == 0
  {
    var y := d * q;
    var k := q - y / d;
    assert d * k == y % d;
    if k >= 1 {
      assert false;
    } else if k <= -1 {
      assert false;
    }
  }

  /** Rounding down to a multiple of d lands on the grid, at most d - 1 below. */
  lemma {:induction false} RoundDown(x: int, d: int)
    requires d > 0
    ensures (x - x % d) % d == 0
    ensures x - d < x - x % d <= x
  {
    assert x - x % d == d * (x / d);
    MultipleHasNoRemainder(d, x / d);
  }

  /** The only multiple of d in [0, d) is 0. */
  lemma {:induction false} NoRemainderBelowStep(x: int, d: int)
    requires d > 0 && 0 <= x < d && x % d == 0
    ensures x == 0
  {
    assert x == d * (x / d);
    if x / d >= 1 {
      assert false;
    } else if x / d <= -1 {
      assert false;
    }
  }

  /** Two points of the same grid differ by a multiple of its step. */
  lemma {:induction false} GridDifference(a: int, b: int, d: int)
    requires d > 0 && a % d == 0 && b % d == 0
    ensures (b - a) % d == 0
  {
    assert a == d * (a / d) && b == d * (b / d);
    assert b - a == d * (b / d - a / d);
    MultipleHasNoRemainder(d, b / d - a / d);
  }

  /** Two grid points in order are at least one step apart. */
  lemma {:induction false} GridGap(a: int, b: int, d: int)
    requires d > 0 && a % d == 0 && b % d == 0 && a < b
    ensures a <= b - d
  {
    assert a == d * (a / d) && b == d * (b / d);
    if a / d >= b / d {
      assert false;
    }
    assert d * (a / d) <= d * (b / d - 1);
  }

  /** More steps reach no less far. */
  lemma {:induction false} StepsNoFewer(a: nat, b: nat, step: nat)
    requires a <= b
    ensures a * step <= b * step
  {
    assert b * step == a * step + (b - a) * step;
  }

  /** Zeroing the hour of the top of the hour gives the same midnight as
      rounding `now` itself down to a whole day. */
  lemma {:induction false} MidnightOfHourStart(now: int)
    ensures var h := now - now % HourSeconds; h - h % DaySeconds == now - now % DaySeconds
  {
    var q, s := now / DaySeconds, now % DaySeconds;
    assert now == DaySeconds * q + s;
    var a, b := s / HourSeconds, s % HourSeconds;
    assert s == HourSeconds * a + b;
    assert 0 <= a < 24;
    assert now == HourSeconds * (24 * q + a) + b;
    assert now % HourSeconds == b;
    var h := now - now % HourSeconds;
    assert h == DaySeconds * q + HourSeconds * a;
    assert 0 <= HourSeconds * a < DaySeconds;
    assert h % DaySeconds == HourSeconds * a;
  }

  /** `now` with minutes and seconds zeroed, and for a day also the hour:
      the start of the period that `now` lies in. This is `now` rounded down to
      the interval's step, as the epoch is a UTC midnight and Unix time has no
      leap seconds. */
  function PeriodBeginning(interval: Interval, now: int): (r: int)
    ensures r == now - now % Step(interval)
    ensures r % Step(interval) == 0 && now - Step(interval) < r <= now
  {
    MidnightOfHourStart(now);
    RoundDown(now, Step(interval));
    var hourStart := now - now % HourSeconds;
    if interval == Day then hourStart - hourStart % DaySeconds else hourStart
  }

  /** The start of the most recent period that has fully elapsed at `now`. */
  function LastCompletePeriod(interval: Interval, now: int): (r: int)
    ensures r % Step(interval) == 0
    ensures r + Step(interval) <= now < r + 2 * Step(interval)
  {
    PeriodBeginning(interval, now) - Step(interval)
  }

  /** Every day boundary is also an hour boundary. */
  lemma DayResultOnHourGrid(now: int)
    ensures LastCompletePeriod(Day, now) % Step(Hour) == 0
  {
    var r := LastCompletePeriod(Day, now);
    assert r == DaySeconds * (r / DaySeconds);
    assert r == HourSeconds * (24 * (r / DaySeconds));
  }

  /** No boundary on the grid that is later than the result has elapsed. */
  lemma {:induction false} LastCompletePeriodIsLatest(interval: Interval, now: int, p: int)
    requires p % Step(interval) == 0
    requires p + Step(interval) <= now
    ensures p <= LastCompletePeriod(interval, now)
  {
    var d, r := Step(interval), LastCompletePeriod(interval, now);
    assert p == d * (p / d) && r == d * (r / d);
  }

  /** A later clock never yields an earlier period. */
  lemma {:induction false} LastCompletePeriodMonotone(interval: Interval, now1: int, now2: int)
    requires now1 <= now2
    ensures LastCompletePeriod(interval, now1) <= LastCompletePeriod(interval, now2)
  {
    LastCompletePeriodIsLatest(interval, now2, LastCompletePeriod(interval, now1));
  }
}
