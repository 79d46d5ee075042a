/**
 * The tracker component's state: the medication list and the instant of the last
 * notification check. Each action replaces the list by the value its function in
 * `Actions` computes; the check advances `lastCheck` and walks every slot.
 */
module Tracker {
  import opened Schedule
  import opened Actions
  import opened Sweep

  /** The six prescribed medications the tracker is seeded with. */
  function InitialMeds(): (r: seq<Med>)
    ensures |r| == 6
    ensures forall i :: 0 <= i < |r| ==> r[i].id == i + 1
    ensures forall i :: 0 <= i < |r| ==> r[i].history == map[] && !StartSet(r[i])
    ensures forall i :: 0 <= i < |r| ==>
      forall j :: 0 <= j < |r[i].defaultTimes| ==> ValidSlot(r[i].defaultTimes[j])
    ensures forall i :: 0 <= i < |r| ==> (r[i].durationDays.Some? <==> r[i].id == COURSE_MED_ID)
    ensures WellFormed(r) && CounterNeverAdvanced(r)
  {
    [ Med(1, Fixed, false, None, None, None, [Slot(6, 0)], map[]),
      Med(2, Interval, false, Some(7), None, Some(0), [Slot(8, 0), Slot(20, 0)], map[]),
      Med(3, Frequency, false, None, None, Some(1), [Slot(8, 0), Slot(12, 0), Slot(16, 0), Slot(20, 0)], map[]),
      Med(4, Conditional, false, None, None, None, [Slot(8, 0), Slot(14, 0), Slot(20, 0)], map[]),
      Med(5, Fixed, false, None, None, None, [Slot(9, 0)], map[]),
      Med(6, Fixed, false, None, None, None, [Slot(9, 0)], map[]) ]
  }

  class MedTracker {
    var meds: seq<Med>
    var lastCheck: int

    /** Start with the saved list when there is one, otherwise the seed; the last check is now. */
    constructor (saved: Option<seq<Med>>, now: int)
      ensures meds == (if saved.Some? then saved.value else InitialMeds())
      ensures lastCheck == now
    {
      meds := if saved.Some? then saved.value else InitialMeds();
      lastCheck := now;
    }

    /**
     * `checkNotifications`: move `lastCheck` to `now` first, then report, in list and
     * slot order, every slot whose instant today lies in (old lastCheck, now], of a
     * medication that is not skipped, not yet taken today, when permission is granted.
     */
    method CheckNotifications(now: int, dayStart: int, todayKey: DayKey, granted: bool)
      returns (notices: seq<Notice>)
      modifies this`lastCheck
      ensures lastCheck == now
      ensures notices == Due(meds, Tick(old(lastCheck), now, dayStart, todayKey, granted))
    {
      var last := lastCheck;
      lastCheck := now;
      ghost var t := Tick(last, now, dayStart, todayKey, granted);
      notices := [];
      var i := 0;
      while i < |meds|
        invariant 0 <= i <= |meds|
        invariant notices == Due(meds[..i], t)
      {
        var med := meds[i];
        assert meds[..i + 1][..i] == meds[..i];
        if !Skipped(med) {
          var j := 0;
          while j < |med.defaultTimes|
            invariant 0 <= j <= |med.defaultTimes|
            invariant notices == Due(meds[..i], t) + SlotNotices(med, med.defaultTimes[..j], t)
          {
            var slot := med.defaultTimes[j];
            var scheduled := dayStart + slot.hour * HOUR_MS + slot.minute * MINUTE_MS;
            assert med.defaultTimes[..j + 1][..j] == med.defaultTimes[..j];
            if scheduled > last && scheduled <= now {
              var hasTaken := LogHas(TodayLog(med, todayKey), slot);
              if !hasTaken && granted {
                notices := notices + [Notice(med.id, slot)];
              }
            }
            j := j + 1;
          }
          assert med.defaultTimes[..j] == med.defaultTimes;
        }
        i := i + 1;
      }
      assert meds[..i] == meds;
    }

    /** `takeMedication`: take or (when confirmed) undo `slot` of medication `medId` today. */
    method TakeMedication(medId: int, slot: Slot, todayKey: DayKey, takenAt: Slot, confirmed: bool)
      modifies this`meds
      ensures meds == Take(old(meds), medId, slot, todayKey, takenAt, confirmed)
      ensures WellFormed(old(meds)) ==> WellFormed(meds)
      ensures CounterNeverAdvanced(old(meds)) ==> CounterNeverAdvanced(meds)
    {
      if WellFormed(meds) {
        TakeKeepsWellFormed(meds, medId, slot, todayKey, takenAt, confirmed);
      }
      if CounterNeverAdvanced(meds) {
        ActionsKeepCounterNeverAdvanced(meds, medId, slot, todayKey, takenAt, confirmed);
      }
      meds := Take(meds, medId, slot, todayKey, takenAt, confirmed);
    }

    /** `toggleConditional`: flip `isActive` of medication `medId`. */
    method ToggleConditionalActive(medId: int)
      modifies this`meds
      ensures meds == ToggleConditional(old(meds), medId)
      ensures WellFormed(old(meds)) ==> WellFormed(meds)
      ensures CounterNeverAdvanced(old(meds)) ==> CounterNeverAdvanced(meds)
    {
      meds := ToggleConditional(meds, medId);
    }

    /** `resetProgress`: on confirmation, restart the course of medication `medId`. */
    method ResetProgressOf(medId: int, confirmed: bool)
      modifies this`meds
      ensures meds == ResetProgress(old(meds), medId, confirmed)
      ensures WellFormed(old(meds)) ==> WellFormed(meds)
      ensures CounterNeverAdvanced(old(meds)) ==> CounterNeverAdvanced(meds)
    {
      meds := ResetProgress(meds, medId, confirmed);
    }

    /** `resetTodaySchedule`: on confirmation, clear today's log of every medication. */
    method ResetToday(todayKey: DayKey, confirmed: bool)
      modifies this`meds
      ensures meds == ResetTodaySchedule(old(meds), todayKey, confirmed)
      ensures WellFormed(old(meds)) ==> WellFormed(meds)
      ensures CounterNeverAdvanced(old(meds)) ==> CounterNeverAdvanced(meds)
    {
      meds := ResetTodaySchedule(meds, todayKey, confirmed);
    }
  }

  /**
   * Two checks in a row with the same `now` and no action between them: the second
   * reports nothing.
   */
  method ReplayedCheckIsSilent(tracker: MedTracker, now: int, dayStart: int, todayKey: DayKey, granted: bool)
    returns (first: seq<Notice>, second: seq<Notice>)
    modifies tracker
    ensures second == []
    ensures first == Due(tracker.meds, Tick(old(tracker.lastCheck), now, dayStart, todayKey, granted))
  {
    first := tracker.CheckNotifications(now, dayStart, todayKey, granted);
    second := tracker.CheckNotifications(now, dayStart, todayKey, granted);
    ReplayNotifiesNothing(tracker.meds, Tick(now, now, dayStart, todayKey, granted));
  }
}
