/**
 * `DateTime` as a count of 100-nanosecond ticks since 0001-01-01, with the
 * range checks that make `AddDays`, `AddSeconds` and `AddTicks` throw.
 */
module Dates {
  import opened Wrappers

  const TicksPerSecond: int := 10_000_000
  const TicksPerDay: int := 864_000_000_000
  /** `DateTime.MaxValue.Ticks`: 9999-12-31 23:59:59.9999999. */
  const MaxTicks: int := 3_155_378_975_999_999_999

  /** The instants a `DateTime` can hold. */
  type Ticks = t: int | 0 <= t <= MaxTicks

  /** `d.TimeOfDay == TimeSpan.Zero`. */
  predicate IsMidnight(d: Ticks) {
    d % TicksPerDay == 0
  }

  /** `d.Date`: the midnight that starts `d`'s day. */
  function DatePart(d: Ticks): (r: Ticks)
    ensures r <= d < r + TicksPerDay
    ensures IsMidnight(r)
  {
    d - d % TicksPerDay
  }

  /** `d.AddTicks(n)`, and `AddSeconds`/`AddDays` with whole units: throws outside `DateTime`'s range. */
  function AddTicks(d: Ticks, n: int): (r: Fallible<Ticks>)
    ensures r.Returns? <==> 0 <= d + n <= MaxTicks
    ensures r.Returns? ==> r.value == d + n
  {
    if 0 <= d + n <= MaxTicks then Returns(d + n) else Throws
  }

  /** `d.AddDays(1).AddTicks(-1)`: one day later, less one tick. */
  function DayLaterLessOneTick(d: Ticks): (r: Fallible<Ticks>)
    ensures r.Returns? <==> d + TicksPerDay <= MaxTicks
    ensures r.Returns? ==> r.value == d + TicksPerDay - 1
  {
    match AddTicks(d, TicksPerDay)
    case Throws => Throws
    case Returns(next) => AddTicks(next, -1)
  }

  /** `d.AddSeconds(59)`. */
  function Add59Seconds(d: Ticks): (r: Fallible<Ticks>)
    ensures r.Returns? <==> d + 59 * TicksPerSecond <= MaxTicks
    ensures r.Returns? ==> r.value == d + 590_000_000
  {
    AddTicks(d, 59 * TicksPerSecond)
  }

  /** For a midnight, one day later less a tick is the last tick of that same day. */
  lemma MidnightExtendsToEndOfDay(d: Ticks)
    requires IsMidnight(d) && d + TicksPerDay <= MaxTicks
    ensures DayLaterLessOneTick(d).Returns?
    ensures DatePart(DayLaterLessOneTick(d).value) == d
    ensures IsMidnight(DayLaterLessOneTick(d).value + 1)
  {
    var e := d + TicksPerDay - 1;
    assert e % TicksPerDay == TicksPerDay - 1 by {
      assert e == (d / TicksPerDay) * TicksPerDay + (TicksPerDay - 1);
    }
    assert (e + 1) == (d / TicksPerDay + 1) * TicksPerDay;
  }

  /** An instant lies in the day starting at midnight `m` exactly when `m` is its date part. */
  lemma SameDay(m: Ticks, t: Ticks)
    requires IsMidnight(m)
    ensures DatePart(t) == m <==> m <= t < m + TicksPerDay
  {
    var k := m / TicksPerDay;
    assert m == k * TicksPerDay;
    if m <= t < m + TicksPerDay {
      var r := t - m;
      assert t == k * TicksPerDay + r && 0 <= r < TicksPerDay;
      assert t / TicksPerDay == k;
      assert t % TicksPerDay == r;
    }
  }
}
