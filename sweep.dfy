/**
 * Due detection: which (medication, slot) pairs a timer tick notifies. A slot is due
 * when its instant on the current day lies in the window (lastCheck, now].
 */
module Sweep {
  import opened Schedule

  const MINUTE_MS: int := 60000
  const HOUR_MS: int := 3600000
  const DAY_MS: int := 86400000

  /**
   * What one tick sees: the previous check instant, the current instant, the local
   * midnight of the current day, the day key of the log and whether notification
   * permission is granted. All instants are milliseconds.
   */
  datatype Tick = Tick(lastCheck: int, now: int, dayStart: int, todayKey: DayKey, granted: bool)

  /** A notification the tick would show, for medication `medId` at `slot`. */
  datatype Notice = Notice(medId: int, slot: Slot)

  /** The instant of `slot` on the day starting at `dayStart` (`setHours(h, m, 0, 0)`). */
  function SlotInstant(dayStart: int, slot: Slot): (at: int)
    ensures ValidSlot(slot) ==> dayStart <= at < dayStart + DAY_MS
  {
    dayStart + slot.hour * HOUR_MS + slot.minute * MINUTE_MS
  }

  /** The due window of a tick: after the last check, up to and including now. */
  predicate IsDue(at: int, t: Tick) {
    t.lastCheck < at <= t.now
  }

  /** The stored-counter expiry test of the sweep: a set start date and `currentDay > durationDays`. */
  predicate CourseOver(med: Med) {
    StartSet(med) && med.currentDay.Some? && med.durationDays.Some?
    && med.currentDay.value > med.durationDays.value
  }

  /** A medication the sweep skips entirely. */
  predicate Skipped(med: Med) {
    (med.timeType == Conditional && !med.isActive) || CourseOver(med)
  }

  /** Slot `slot` of a not-skipped medication produces a notification on tick `t`. */
  predicate Fires(med: Med, slot: Slot, t: Tick) {
    IsDue(SlotInstant(t.dayStart, slot), t) && !IsTaken(med, t.todayKey, slot) && t.granted
  }

  /** The notices of `med` for the slots `slots`, in slot order. */
  function SlotNotices(med: Med, slots: seq<Slot>, t: Tick): seq<Notice>
    decreases |slots|
  {
    if slots == [] then []
    else
      var last := slots[|slots| - 1];
      SlotNotices(med, slots[..|slots| - 1], t) + (if Fires(med, last, t) then [Notice(med.id, last)] else [])
  }

  /** The notices of one medication. */
  function MedNotices(med: Med, t: Tick): seq<Notice> {
    if Skipped(med) then [] else SlotNotices(med, med.defaultTimes, t)
  }

  /** `checkNotifications`: the notices of every medication, in list order. */
  function Due(meds: seq<Med>, t: Tick): seq<Notice>
    decreases |meds|
  {
    if meds == [] then []
    else Due(meds[..|meds| - 1], t) + MedNotices(meds[|meds| - 1], t)
  }

  /** A notice is produced for `slots` exactly when it names `med` and one of the slots that fires. */
  lemma {:induction false} SlotNoticesMembership(med: Med, slots: seq<Slot>, t: Tick, n: Notice)
    ensures n in SlotNotices(med, slots, t) <==> n.medId == med.id && n.slot in slots && Fires(med, n.slot, t)
    decreases |slots|
  {
    if slots != [] {
      var init := slots[..|slots| - 1];
      SlotNoticesMembership(med, init, t, n);
      assert slots == init + [slots[|slots| - 1]];
    }
  }

  /**
   * The sweep's window and gating rules: a notice (id, slot) is produced exactly when
   * some medication with that id is neither an inactive conditional nor over by its
   * stored counter, has `slot` among its times, the slot's instant is in
   * (lastCheck, now], today's log lacks the slot, and permission is granted.
   */
  lemma {:induction false} DueMembership(meds: seq<Med>, t: Tick, n: Notice)
    ensures n in Due(meds, t) <==>
      exists i :: 0 <= i < |meds| && meds[i].id == n.medId && !Skipped(meds[i])
        && n.slot in meds[i].defaultTimes
        && t.lastCheck < SlotInstant(t.dayStart, n.slot) <= t.now
        && !IsTaken(meds[i], t.todayKey, n.slot) && t.granted
    decreases |meds|
  {
    if meds != [] {
      var init := meds[..|meds| - 1];
      var last := meds[|meds| - 1];
      DueMembership(init, t, n);
      SlotNoticesMembership(last, last.defaultTimes, t, n);
      assert forall i :: 0 <= i < |init| ==> init[i] == meds[i];
    }
  }

  /** Every notice names a medication of the list and one of its slots. */
  lemma DueNamesScheduledSlots(meds: seq<Med>, t: Tick)
    ensures forall n :: n in Due(meds, t) ==>
      exists i :: 0 <= i < |meds| && meds[i].id == n.medId && n.slot in meds[i].defaultTimes
  {
    forall n | n in Due(meds, t)
      ensures exists i :: 0 <= i < |meds| && meds[i].id == n.medId && n.slot in meds[i].defaultTimes
    {
      DueMembership(meds, t, n);
    }
  }

  /** A tick whose window is empty (a replay with the same `now`) notifies nothing. */
  lemma {:induction false} ReplayNotifiesNothing(meds: seq<Med>, t: Tick)
    requires t.lastCheck >= t.now
    ensures Due(meds, t) == []
  {
    if Due(meds, t) != [] {
      DueMembership(meds, t, Due(meds, t)[0]);
    }
  }

  /** Without permission no tick notifies anything. */
  lemma {:induction false} NoPermissionNotifiesNothing(meds: seq<Med>, t: Tick)
    requires !t.granted
    ensures Due(meds, t) == []
  {
    if Due(meds, t) != [] {
      DueMembership(meds, t, Due(meds, t)[0]);
    }
  }

  /** An inactive conditional medication is never notified, whatever its times. */
  lemma InactiveConditionalSilent(meds: seq<Med>, t: Tick, k: nat)
    requires k < |meds| && meds[k].timeType == Conditional && !meds[k].isActive
    requires forall i :: 0 <= i < |meds| && i != k ==> meds[i].id != meds[k].id
    ensures forall n :: n in Due(meds, t) ==> n.medId != meds[k].id
  {
    forall n | n in Due(meds, t) ensures n.medId != meds[k].id {
      DueMembership(meds, t, n);
    }
  }

  /** Consecutive instants of a timer: strictly increasing. */
  predicate Increasing(ticks: seq<int>) {
    forall i, j :: 0 <= i < j < |ticks| ==> ticks[i] < ticks[j]
  }

  /** The tick that sweeps the window (ticks[k - 1], ticks[k]] on the day starting at `dayStart`. */
  function TickAt(ticks: seq<int>, k: nat, dayStart: int, key: DayKey, granted: bool): Tick
    requires 0 < k < |ticks|
  {
    Tick(ticks[k - 1], ticks[k], dayStart, key, granted)
  }

  /** Instant `at` lies in the window swept by tick k of the run `ticks`. */
  predicate InWindow(ticks: seq<int>, k: int, at: int) {
    0 < k < |ticks| && ticks[k - 1] < at <= ticks[k]
  }

  /**
   * Over a run of increasing ticks, each check starting where the previous one ended,
   * an instant after the first tick and no later than the last falls in some window.
   */
  lemma {:induction false} SomeWindowHolds(ticks: seq<int>, at: int)
    requires Increasing(ticks) && |ticks| > 0
    requires ticks[0] < at <= ticks[|ticks| - 1]
    ensures exists k :: InWindow(ticks, k, at)
    decreases |ticks|
  {
    var last := |ticks| - 1;
    if ticks[last - 1] < at {
      assert InWindow(ticks, last, at);
    } else {
      var init := ticks[..last];
      SomeWindowHolds(init, at);
      var k :| InWindow(init, k, at);
      assert InWindow(ticks, k, at);
    }
  }

  /** Windows of a run of increasing ticks are disjoint: an instant lies in at most one. */
  lemma WindowsDisjoint(ticks: seq<int>, at: int, k1: int, k2: int)
    requires Increasing(ticks)
    requires InWindow(ticks, k1, at) && InWindow(ticks, k2, at)
    ensures k1 == k2
  {
  }

  /** A notice stays eligible over a run: some medication with its id is not skipped, has the slot and has not taken it. */
  predicate Eligible(meds: seq<Med>, n: Notice, key: DayKey) {
    exists i :: 0 <= i < |meds| && meds[i].id == n.medId && !Skipped(meds[i])
      && n.slot in meds[i].defaultTimes && !IsTaken(meds[i], key, n.slot)
  }

  /** Every tick of the run lies in the local day starting at `dayStart`. */
  predicate WithinDay(ticks: seq<int>, dayStart: int) {
    forall k :: 0 <= k < |ticks| ==> dayStart <= ticks[k] < dayStart + DAY_MS
  }

  /**
   * Sweeping one local day with increasing ticks and an unchanged list reports a given
   * notice in at most one tick.
   */
  lemma SweepRunReportsAtMostOnce(meds: seq<Med>, ticks: seq<int>, dayStart: int, key: DayKey, granted: bool,
                                  n: Notice, k1: nat, k2: nat)
    requires Increasing(ticks) && WithinDay(ticks, dayStart) && 0 < k1 < |ticks| && 0 < k2 < |ticks|
    requires n in Due(meds, TickAt(ticks, k1, dayStart, key, granted))
    requires n in Due(meds, TickAt(ticks, k2, dayStart, key, granted))
    ensures k1 == k2
  {
    DueMembership(meds, TickAt(ticks, k1, dayStart, key, granted), n);
    DueMembership(meds, TickAt(ticks, k2, dayStart, key, granted), n);
    WindowsDisjoint(ticks, SlotInstant(dayStart, n.slot), k1, k2);
  }

  /**
   * Within one local day, a notice that stays eligible, with permission granted, whose
   * slot instant the run covers, is reported by some tick of the run (and by the lemma
   * above, by only one).
   */
  lemma SweepRunReportsEligible(meds: seq<Med>, ticks: seq<int>, dayStart: int, key: DayKey, n: Notice)
    requires Increasing(ticks) && WithinDay(ticks, dayStart) && |ticks| > 0
    requires Eligible(meds, n, key)
    requires ticks[0] < SlotInstant(dayStart, n.slot) <= ticks[|ticks| - 1]
    ensures exists k :: 0 < k < |ticks| && n in Due(meds, TickAt(ticks, k, dayStart, key, true))
  {
    var at := SlotInstant(dayStart, n.slot);
    SomeWindowHolds(ticks, at);
    var k :| InWindow(ticks, k, at);
    DueMembership(meds, TickAt(ticks, k, dayStart, key, true), n);
  }

  /**
   * Across local midnight a slot can be missed: each tick places the slots on the day of
   * its own `now`. With a 23:59 slot, a tick at 23:58:50 and the next at 00:00:10, the
   * slot's instant lies in the second window, but that tick computes it on the new day
   * and reports nothing.
   */
  lemma SweepMissesAcrossMidnight()
    ensures var med := Med(1, Fixed, false, None, None, None, [Slot(23, 59)], map[]);
      var t := Tick(86330000, 86410000, DAY_MS, "2024-01-02", true);
      && !Skipped(med) && !IsTaken(med, t.todayKey, Slot(23, 59))
      && t.lastCheck < SlotInstant(0, Slot(23, 59)) <= t.now
      && Due([med], t) == []
  {
    var med := Med(1, Fixed, false, None, None, None, [Slot(23, 59)], map[]);
    var t := Tick(86330000, 86410000, DAY_MS, "2024-01-02", true);
    assert [med][..0] == [];
    assert med.defaultTimes[..0] == [];
  }
}
