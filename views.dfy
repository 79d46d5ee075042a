/**
 * The queries the schedule view makes: whether a medication is shown today and which
 * day of its course it is on. Elapsed time is counted in whole days, rounding up.
 */
module Views {
  import opened Schedule
  import opened Sweep

  function Abs(x: int): (r: nat)
    ensures r == x || r == -x
  {
    if x < 0 then -x else x
  }

  /** `Math.ceil(x / d)` for a whole number of milliseconds x. */
  function CeilDiv(x: nat, d: nat): (r: nat)
    requires d > 0
    ensures x <= r * d
    ensures r > 0 ==> (r - 1) * d < x
  {
    var q := (x + d - 1) / d;
    var rem := (x + d - 1) % d;
    assert x + d - 1 == q * d + rem && 0 <= rem < d;
    assert (q - 1) * d == q * d - d;
    q
  }

  lemma MulMono(a: int, b: int, d: nat)
    requires a <= b
    ensures a * d <= b * d
  {
    assert b * d - a * d == (b - a) * d;
  }

  /** A whole-day count rounded up exceeds n exactly when the time exceeds n whole days. */
  lemma CeilDivExceeds(x: nat, d: nat, n: int)
    requires d > 0
    ensures CeilDiv(x, d) > n <==> x > n * d
  {
    var r := CeilDiv(x, d);
    if r > n {
      if n >= 0 {
        MulMono(n, r - 1, d);
      } else {
        MulMono(n, -1, d);
      }
    } else {
      MulMono(r, n, d);
    }
  }

  /** Days elapsed between `start` and `now`, in either direction, partial days rounded up. */
  function ElapsedDays(now: int, start: int): nat {
    CeilDiv(Abs(now - start), DAY_MS)
  }

  /** `durationDays` is set in the JavaScript sense: present and not zero. */
  predicate DurationSet(med: Med) {
    med.durationDays.Some? && med.durationDays.value != 0
  }

  /**
   * The schedule view's filter: hidden when an inactive conditional, or when the course
   * has a duration and a start date and more days than the duration have elapsed.
   * `dayInstant` is the instant `new Date(startDate)` denotes.
   */
  predicate IsVisible(med: Med, now: int, dayInstant: DayKey -> int) {
    && !(med.timeType == Conditional && !med.isActive)
    && !(DurationSet(med) && StartSet(med)
         && ElapsedDays(now, dayInstant(med.startDate.value)) > med.durationDays.value)
  }

  /** The "day N" counter shown under medication 2 once its course has started. */
  function DayCounter(med: Med, now: int, dayInstant: DayKey -> int): Option<nat> {
    if med.id == 2 && StartSet(med) then Some(ElapsedDays(now, dayInstant(med.startDate.value))) else None
  }

  /**
   * Visibility without rounding: a medication is hidden exactly when it is an inactive
   * conditional, or its course has a duration of n days, a start date, and `now` lies
   * more than n whole days away from the start instant.
   */
  lemma VisibleIff(med: Med, now: int, dayInstant: DayKey -> int)
    ensures IsVisible(med, now, dayInstant) <==>
      && !(med.timeType == Conditional && !med.isActive)
      && !(DurationSet(med) && StartSet(med)
           && Abs(now - dayInstant(med.startDate.value)) > med.durationDays.value * DAY_MS)
  {
    if DurationSet(med) && StartSet(med) {
      CeilDivExceeds(Abs(now - dayInstant(med.startDate.value)), DAY_MS, med.durationDays.value);
    }
  }

  /**
   * The day counter reads k (k >= 1) exactly when `now` lies more than k - 1 and at
   * most k whole days from the start instant; it reads 0 only at the start instant.
   */
  lemma CourseDayIff(now: int, start: int, k: nat)
    ensures k >= 1 ==> (ElapsedDays(now, start) == k <==>
      (k - 1) * DAY_MS < Abs(now - start) <= k * DAY_MS)
    ensures ElapsedDays(now, start) == 0 <==> now == start
  {
    var x := Abs(now - start);
    CeilDivExceeds(x, DAY_MS, k);
    CeilDivExceeds(x, DAY_MS, k - 1);
    CeilDivExceeds(x, DAY_MS, 0);
  }

  /** Whenever the view shows medication 2 with a course of n days, its counter reads at most n. */
  lemma ShownCounterWithinCourse(med: Med, now: int, dayInstant: DayKey -> int)
    requires med.id == 2 && DurationSet(med) && StartSet(med)
    requires IsVisible(med, now, dayInstant)
    ensures DayCounter(med, now, dayInstant).Some?
    ensures DayCounter(med, now, dayInstant).value <= med.durationDays.value
  {
  }

  /** An inactive conditional medication is never shown. */
  lemma InactiveConditionalHidden(med: Med, now: int, dayInstant: DayKey -> int)
    requires med.timeType == Conditional && !med.isActive
    ensures !IsVisible(med, now, dayInstant)
  {
  }

  /**
   * The sweep's expiry test reads the stored counter, not the elapsed days: while that
   * counter is unset, 0 or 1 and the duration is at least 1, the sweep never skips the
   * course, even when the view hides it as expired.
   */
  lemma StoredCounterNeverExpires(med: Med, now: int, dayInstant: DayKey -> int)
    requires med.currentDay == None || med.currentDay == Some(0) || med.currentDay == Some(1)
    requires med.durationDays.Some? ==> med.durationDays.value >= 1
    ensures !CourseOver(med)
    ensures DurationSet(med) && StartSet(med)
      && Abs(now - dayInstant(med.startDate.value)) > med.durationDays.value * DAY_MS
      ==> !IsVisible(med, now, dayInstant) && !CourseOver(med)
  {
    VisibleIff(med, now, dayInstant);
  }
}
