/**
 * The user actions of the tracker. Each one maps the whole medication list to a new
 * list, replacing only the records it touches; confirmation prompts are the boolean
 * `confirmed`, the day key and the clock reading are inputs.
 */
module Actions {
  import opened Schedule

  /** The medication id whose first take starts the course clock. */
  const COURSE_MED_ID: int := 2

  /** `takeMedication` applied to one record. */
  function TakeOne(med: Med, medId: int, slot: Slot, key: DayKey, takenAt: Slot, confirmed: bool): Med {
    if med.id != medId then med
    else
      var prev := TodayLog(med, key);
      var already := LogHas(prev, slot);
      if already && !confirmed then med
      else
        var next := if already then RemoveSlot(prev, slot) else prev + [TakeRecord(slot, takenAt)];
        var updated := med.(history := med.history[key := next]);
        if !already && med.id == COURSE_MED_ID && !StartSet(med) then
          updated.(startDate := Some(key), currentDay := Some(1))
        else updated
  }

  /** `takeMedication(medId, slot)`: take the slot if today's log lacks it, otherwise undo it when confirmed. */
  function Take(meds: seq<Med>, medId: int, slot: Slot, key: DayKey, takenAt: Slot, confirmed: bool): seq<Med> {
    seq(|meds|, i requires 0 <= i < |meds| => TakeOne(meds[i], medId, slot, key, takenAt, confirmed))
  }

  /** `toggleConditional(medId)`: flip `isActive` of the matching records. */
  function ToggleConditional(meds: seq<Med>, medId: int): seq<Med> {
    seq(|meds|, i requires 0 <= i < |meds| =>
      if meds[i].id == medId then meds[i].(isActive := !meds[i].isActive) else meds[i])
  }

  /** `resetProgress(medId)`: when confirmed, restart the matching course from nothing. */
  function ResetProgress(meds: seq<Med>, medId: int, confirmed: bool): seq<Med> {
    if !confirmed then meds
    else
      seq(|meds|, i requires 0 <= i < |meds| =>
        if meds[i].id == medId then meds[i].(startDate := None, currentDay := Some(0), history := map[])
        else meds[i])
  }

  /** `resetTodaySchedule()`: when confirmed, drop today's log from every record. */
  function ResetTodaySchedule(meds: seq<Med>, key: DayKey, confirmed: bool): seq<Med> {
    if !confirmed then meds
    else seq(|meds|, i requires 0 <= i < |meds| => meds[i].(history := meds[i].history - {key}))
  }

  /** Two records agree on every field except possibly the history of day `key`. */
  predicate SameExceptDay(a: Med, b: Med, key: DayKey) {
    && a.id == b.id && a.timeType == b.timeType && a.isActive == b.isActive
    && a.durationDays == b.durationDays && a.defaultTimes == b.defaultTimes
    && a.history - {key} == b.history - {key}
  }

  // ----- takeMedication -----

  /**
   * Framing of a take: the list keeps its length and order, records with another id
   * are untouched, and a touched record changes only today's log and its course start.
   */
  lemma TakeFraming(meds: seq<Med>, medId: int, slot: Slot, key: DayKey, takenAt: Slot, confirmed: bool)
    ensures |Take(meds, medId, slot, key, takenAt, confirmed)| == |meds|
    ensures forall i :: 0 <= i < |meds| && meds[i].id != medId ==>
      Take(meds, medId, slot, key, takenAt, confirmed)[i] == meds[i]
    ensures forall i :: 0 <= i < |meds| ==>
      SameExceptDay(Take(meds, medId, slot, key, takenAt, confirmed)[i], meds[i], key)
  {
  }

  /** A take naming an id no record has leaves the list unchanged. */
  lemma TakeUnknownId(meds: seq<Med>, medId: int, slot: Slot, key: DayKey, takenAt: Slot, confirmed: bool)
    requires forall i :: 0 <= i < |meds| ==> meds[i].id != medId
    ensures Take(meds, medId, slot, key, takenAt, confirmed) == meds
  {
  }

  /** An undo the user declines leaves the record unchanged. */
  lemma TakeDeclinedUndo(med: Med, slot: Slot, key: DayKey, takenAt: Slot)
    requires IsTaken(med, key, slot)
    ensures TakeOne(med, med.id, slot, key, takenAt, false) == med
  {
  }

  /** Taking a slot absent from today's log appends exactly one record at the end. */
  lemma TakeAppends(med: Med, slot: Slot, key: DayKey, takenAt: Slot, confirmed: bool)
    requires !IsTaken(med, key, slot)
    ensures TodayLog(TakeOne(med, med.id, slot, key, takenAt, confirmed), key)
      == TodayLog(med, key) + [TakeRecord(slot, takenAt)]
  {
  }

  /** A confirmed undo removes every record of the slot and keeps the others in order. */
  lemma TakeUndoRemoves(med: Med, slot: Slot, key: DayKey, takenAt: Slot)
    requires IsTaken(med, key, slot)
    ensures TodayLog(TakeOne(med, med.id, slot, key, takenAt, true), key)
      == RemoveSlot(TodayLog(med, key), slot)
  {
  }

  /** Whenever a take does something, the slot's presence in today's log flips. */
  lemma {:induction false} TakeToggles(med: Med, slot: Slot, key: DayKey, takenAt: Slot, confirmed: bool)
    requires confirmed || !IsTaken(med, key, slot)
    ensures IsTaken(TakeOne(med, med.id, slot, key, takenAt, confirmed), key, slot)
      == !IsTaken(med, key, slot)
  {
    var prev := TodayLog(med, key);
    var after := TodayLog(TakeOne(med, med.id, slot, key, takenAt, confirmed), key);
    if LogHas(prev, slot) {
      assert after == RemoveSlot(prev, slot);
      assert forall i :: 0 <= i < |after| ==> after[i] in after;
    } else {
      assert after == prev + [TakeRecord(slot, takenAt)];
      assert after[|prev|].scheduled == slot;
    }
  }

  /** A take keeps at most one record per slot in every day's log of every record. */
  lemma {:induction false} TakeKeepsWellFormed(meds: seq<Med>, medId: int, slot: Slot, key: DayKey, takenAt: Slot, confirmed: bool)
    requires WellFormed(meds)
    ensures WellFormed(Take(meds, medId, slot, key, takenAt, confirmed))
  {
    var r := Take(meds, medId, slot, key, takenAt, confirmed);
    forall i | 0 <= i < |meds| ensures MedWellFormed(r[i]) {
      var med := meds[i];
      if med.id == medId {
        var prev := TodayLog(med, key);
        assert OnePerSlot(prev);
        if LogHas(prev, slot) {
          RemoveSlotKeepsOnePerSlot(prev, slot);
        } else {
          AppendKeepsOnePerSlot(prev, TakeRecord(slot, takenAt));
        }
      }
    }
  }

  /**
   * Course start: a take changes `startDate` or `currentDay` only when it adds a record
   * to medication 2 whose start date is unset, and then it sets them to today and 1.
   */
  lemma TakeCourseStart(med: Med, medId: int, slot: Slot, key: DayKey, takenAt: Slot, confirmed: bool)
    ensures var r := TakeOne(med, medId, slot, key, takenAt, confirmed);
      (r.startDate != med.startDate || r.currentDay != med.currentDay) <==>
      (med.id == medId == COURSE_MED_ID && !IsTaken(med, key, slot) && !StartSet(med)
       && (med.startDate != Some(key) || med.currentDay != Some(1)))
    ensures var r := TakeOne(med, medId, slot, key, takenAt, confirmed);
      med.id == medId == COURSE_MED_ID && !IsTaken(med, key, slot) && !StartSet(med) ==>
      r.startDate == Some(key) && r.currentDay == Some(1)
    ensures StartSet(med) ==> TakeOne(med, medId, slot, key, takenAt, confirmed).startDate == med.startDate
    ensures IsTaken(med, key, slot) ==>
      var r := TakeOne(med, medId, slot, key, takenAt, confirmed);
      r.startDate == med.startDate && r.currentDay == med.currentDay
  {
  }

  /** Taking a free slot and then confirming its undo restores today's log. */
  lemma {:induction false} TakeThenUndoRestoresLog(med: Med, slot: Slot, key: DayKey, takenAt: Slot, takenAt2: Slot)
    requires !IsTaken(med, key, slot)
    ensures var once := TakeOne(med, med.id, slot, key, takenAt, true);
      TodayLog(TakeOne(once, med.id, slot, key, takenAt2, true), key) == TodayLog(med, key)
  {
    var prev := TodayLog(med, key);
    var once := TakeOne(med, med.id, slot, key, takenAt, true);
    var added := prev + [TakeRecord(slot, takenAt)];
    assert TodayLog(once, key) == added;
    assert added[|prev|].scheduled == slot;
    RemoveAppended(prev, TakeRecord(slot, takenAt));
  }

  /** Removing the slot of a record appended to a log without that slot gives the log back. */
  lemma {:induction false} RemoveAppended(log: seq<TakeRecord>, rec: TakeRecord)
    requires !LogHas(log, rec.scheduled)
    ensures RemoveSlot(log + [rec], rec.scheduled) == log
    decreases |log|
  {
    if log == [] {
      assert [] + [rec] == [rec];
    } else {
      assert log[0].scheduled != rec.scheduled;
      assert (log + [rec])[1..] == log[1..] + [rec];
      assert forall i :: 0 <= i < |log[1..]| ==> log[1..][i] == log[i + 1];
      RemoveAppended(log[1..], rec);
    }
  }

  // ----- toggleConditional -----

  /** Toggling flips `isActive` of the matching records and changes nothing else. */
  lemma ToggleConditionalFlips(meds: seq<Med>, medId: int)
    ensures |ToggleConditional(meds, medId)| == |meds|
    ensures forall i :: 0 <= i < |meds| ==>
      var r := ToggleConditional(meds, medId)[i];
      && (r.isActive <==> (if meds[i].id == medId then !meds[i].isActive else meds[i].isActive))
      && r == meds[i].(isActive := r.isActive)
  {
  }

  /** Toggling the same id twice restores the list. */
  lemma ToggleConditionalTwice(meds: seq<Med>, medId: int)
    ensures ToggleConditional(ToggleConditional(meds, medId), medId) == meds
  {
    var twice := ToggleConditional(ToggleConditional(meds, medId), medId);
    assert forall i :: 0 <= i < |meds| ==> twice[i] == meds[i];
  }

  // ----- resetProgress -----

  /**
   * A confirmed reset clears the matching records' start date, day counter and whole
   * history; other records are untouched; a declined reset changes nothing.
   */
  lemma ResetProgressEffect(meds: seq<Med>, medId: int, confirmed: bool)
    ensures !confirmed ==> ResetProgress(meds, medId, confirmed) == meds
    ensures |ResetProgress(meds, medId, confirmed)| == |meds|
    ensures confirmed ==> forall i :: 0 <= i < |meds| ==>
      var r := ResetProgress(meds, medId, confirmed)[i];
      if meds[i].id == medId then
        && r.startDate == None && r.currentDay == Some(0) && r.history == map[]
        && r.id == meds[i].id && r.timeType == meds[i].timeType && r.isActive == meds[i].isActive
        && r.durationDays == meds[i].durationDays && r.defaultTimes == meds[i].defaultTimes
      else r == meds[i]
  {
  }

  // ----- resetTodaySchedule -----

  /**
   * A confirmed reset of today removes exactly the entry for `key` from every record's
   * history; every other day and every other field stays; a declined one changes nothing.
   */
  lemma ResetTodayEffect(meds: seq<Med>, key: DayKey, confirmed: bool)
    ensures !confirmed ==> ResetTodaySchedule(meds, key, confirmed) == meds
    ensures |ResetTodaySchedule(meds, key, confirmed)| == |meds|
    ensures confirmed ==> forall i :: 0 <= i < |meds| ==>
      var r := ResetTodaySchedule(meds, key, confirmed)[i];
      && key !in r.history
      && r.history.Keys == meds[i].history.Keys - {key}
      && SameExceptDay(r, meds[i], key)
      && r.startDate == meds[i].startDate && r.currentDay == meds[i].currentDay
  {
  }

  /** Resetting today twice is the same as resetting it once. */
  lemma ResetTodayIdempotent(meds: seq<Med>, key: DayKey, confirmed: bool)
    ensures var once := ResetTodaySchedule(meds, key, confirmed);
      ResetTodaySchedule(once, key, confirmed) == once
  {
    var once := ResetTodaySchedule(meds, key, confirmed);
    var twice := ResetTodaySchedule(once, key, confirmed);
    if confirmed {
      forall i | 0 <= i < |meds| ensures twice[i] == once[i] {
        assert twice[i].history == once[i].history;
      }
    }
  }

  /** The resets and the toggle keep at most one record per slot. */
  lemma OthersKeepWellFormed(meds: seq<Med>, medId: int, key: DayKey, confirmed: bool)
    requires WellFormed(meds)
    ensures WellFormed(ToggleConditional(meds, medId))
    ensures WellFormed(ResetProgress(meds, medId, confirmed))
    ensures WellFormed(ResetTodaySchedule(meds, key, confirmed))
  {
  }

  // ----- the stored day counter -----

  /** The stored `currentDay` is unset, 0 or 1: the only values any action writes. */
  predicate CounterNeverAdvanced(meds: seq<Med>) {
    forall i :: 0 <= i < |meds| ==>
      meds[i].currentDay == None || meds[i].currentDay == Some(0) || meds[i].currentDay == Some(1)
  }

  /** No action ever moves the stored day counter beyond 1. */
  lemma ActionsKeepCounterNeverAdvanced(meds: seq<Med>, medId: int, slot: Slot, key: DayKey, takenAt: Slot, confirmed: bool)
    requires CounterNeverAdvanced(meds)
    ensures CounterNeverAdvanced(Take(meds, medId, slot, key, takenAt, confirmed))
    ensures CounterNeverAdvanced(ToggleConditional(meds, medId))
    ensures CounterNeverAdvanced(ResetProgress(meds, medId, confirmed))
    ensures CounterNeverAdvanced(ResetTodaySchedule(meds, key, confirmed))
  {
  }
}
