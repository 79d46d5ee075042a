/** The medication records of the tracker and the queries on a day's take-log. */
module Schedule {

  datatype Option<+T> = None | Some(value: T)

  /** A time of day written "HH:MM"; the text is recovered by Tags.SlotText. */
  datatype Slot = Slot(hour: nat, minute: nat)

  /** A well-formed time of day, as every seeded slot and every formatted clock reading is. */
  predicate ValidSlot(s: Slot) {
    s.hour < 24 && s.minute < 60
  }

  /** One entry of a day's log: the slot that was taken and the clock time it was taken at. */
  datatype TakeRecord = TakeRecord(scheduled: Slot, takenAt: Slot)

  datatype TimeType = Fixed | Interval | Frequency | Conditional

  /** A calendar-day key such as "2024-01-01". */
  type DayKey = string

  /**
   * A medication record as the engine reads and writes it. Fields the source leaves
   * undefined for some medications are `None`; an undefined `isActive` reads as false.
   */
  datatype Med = Med(
    id: int,
    timeType: TimeType,
    isActive: bool,
    durationDays: Option<int>,
    startDate: Option<DayKey>,
    currentDay: Option<int>,
    defaultTimes: seq<Slot>,
    history: map<DayKey, seq<TakeRecord>>)

  /** The start date is set in the JavaScript sense: present and not the empty string. */
  predicate StartSet(med: Med) {
    med.startDate.Some? && med.startDate.value != ""
  }

  /** The log of day `key`; a day without an entry has the empty log. */
  function TodayLog(med: Med, key: DayKey): seq<TakeRecord> {
    if key in med.history then med.history[key] else []
  }

  /** Whether some record of `log` was taken for `slot` (the `some` search). */
  function LogHas(log: seq<TakeRecord>, slot: Slot): (b: bool)
    ensures b <==> exists i :: 0 <= i < |log| && log[i].scheduled == slot
    decreases |log|
  {
    if log == [] then false
    else if log[0].scheduled == slot then true
    else
      var rest := LogHas(log[1..], slot);
      assert rest ==> exists i :: 0 <= i < |log| && log[i].scheduled == slot by {
        if rest {
          var i :| 0 <= i < |log[1..]| && log[1..][i].scheduled == slot;
          assert log[i + 1].scheduled == slot;
        }
      }
      assert (exists i :: 0 <= i < |log| && log[i].scheduled == slot) ==> rest by {
        if exists i :: 0 <= i < |log| && log[i].scheduled == slot {
          var i :| 0 <= i < |log| && log[i].scheduled == slot;
          assert i != 0;
          assert log[1..][i - 1].scheduled == slot;
        }
      }
      rest
  }

  /** `isTaken(med, slot)`: today's log holds a record for `slot`. */
  predicate IsTaken(med: Med, key: DayKey, slot: Slot) {
    LogHas(TodayLog(med, key), slot)
  }

  /** The log without any record for `slot`, the others kept in their order. */
  function RemoveSlot(log: seq<TakeRecord>, slot: Slot): (r: seq<TakeRecord>)
    ensures |r| <= |log|
    ensures forall x :: x in r <==> x in log && x.scheduled != slot
    decreases |log|
  {
    if log == [] then []
    else if log[0].scheduled == slot then RemoveSlot(log[1..], slot)
    else [log[0]] + RemoveSlot(log[1..], slot)
  }

  /**
   * The filter keeps every record whose slot differs as often as the log has it, and
   * no record of the removed slot.
   */
  lemma {:induction false} RemoveSlotCounts(log: seq<TakeRecord>, slot: Slot, x: TakeRecord)
    ensures multiset(RemoveSlot(log, slot))[x] == if x.scheduled == slot then 0 else multiset(log)[x]
    decreases |log|
  {
    if log != [] {
      RemoveSlotCounts(log[1..], slot, x);
      assert log == [log[0]] + log[1..];
      assert multiset(log) == multiset([log[0]]) + multiset(log[1..]);
      if log[0].scheduled != slot {
        assert multiset(RemoveSlot(log, slot)) == multiset([log[0]]) + multiset(RemoveSlot(log[1..], slot));
      }
    }
  }

  /** At most one record per slot: the core invariant of a day's log. */
  predicate OnePerSlot(log: seq<TakeRecord>) {
    forall i, j :: 0 <= i < j < |log| ==> log[i].scheduled != log[j].scheduled
  }

  predicate MedWellFormed(med: Med) {
    forall k :: k in med.history ==> OnePerSlot(med.history[k])
  }

  predicate WellFormed(meds: seq<Med>) {
    forall i :: 0 <= i < |meds| ==> MedWellFormed(meds[i])
  }

  /** Removing a slot from a log that has none of it leaves the log as it is. */
  lemma {:induction false} RemoveAbsentSlot(log: seq<TakeRecord>, slot: Slot)
    requires !LogHas(log, slot)
    ensures RemoveSlot(log, slot) == log
    decreases |log|
  {
    if log != [] {
      assert log[0].scheduled != slot;
      assert forall i :: 0 <= i < |log[1..]| ==> log[1..][i] == log[i + 1];
      RemoveAbsentSlot(log[1..], slot);
      assert log == [log[0]] + log[1..];
    }
  }

  /**
   * In a log with one record per slot, removing the slot found at index k removes
   * exactly that record: the records before and after it stay in their order.
   */
  lemma {:induction false} RemoveSlotAt(log: seq<TakeRecord>, slot: Slot, k: nat)
    requires OnePerSlot(log)
    requires k < |log| && log[k].scheduled == slot
    ensures RemoveSlot(log, slot) == log[..k] + log[k + 1..]
    decreases |log|
  {
    HeadSlotUnique(log);
    var rest := log[1..];
    if k == 0 {
      assert !LogHas(rest, slot) by {
        assert forall i :: 0 <= i < |rest| ==> rest[i] in rest;
      }
      RemoveAbsentSlot(rest, slot);
      assert log[..0] + log[1..] == rest;
    } else {
      assert rest[k - 1] == log[k];
      assert log[0].scheduled != slot by {
        assert log[k] in rest;
      }
      assert RemoveSlot(log, slot) == [log[0]] + RemoveSlot(rest, slot);
      RemoveSlotAt(rest, slot, k - 1);
      assert rest[..k - 1] == log[1..k];
      assert rest[k..] == log[k + 1..];
      assert [log[0]] + log[1..k] == log[..k];
    }
  }

  /** In a log with one record per slot, no later record shares the first record's slot. */
  lemma HeadSlotUnique(log: seq<TakeRecord>)
    requires OnePerSlot(log) && log != []
    ensures OnePerSlot(log[1..])
    ensures forall y :: y in log[1..] ==> y.scheduled != log[0].scheduled
  {
    forall y | y in log[1..] ensures y.scheduled != log[0].scheduled {
      var m :| 0 <= m < |log[1..]| && log[1..][m] == y;
      assert log[m + 1] == y;
    }
    forall i, j | 0 <= i < j < |log[1..]|
      ensures log[1..][i].scheduled != log[1..][j].scheduled
    {
      assert log[1..][i] == log[i + 1] && log[1..][j] == log[j + 1];
    }
  }

  /** A record whose slot no record of `tail` has can be put in front of `tail`. */
  lemma ConsKeepsOnePerSlot(x: TakeRecord, tail: seq<TakeRecord>)
    requires OnePerSlot(tail)
    requires forall y :: y in tail ==> y.scheduled != x.scheduled
    ensures OnePerSlot([x] + tail)
  {
    var r := [x] + tail;
    forall i, j | 0 <= i < j < |r| ensures r[i].scheduled != r[j].scheduled {
      assert r[j] == tail[j - 1];
      assert tail[j - 1] in tail;
      if i > 0 {
        assert r[i] == tail[i - 1];
      }
    }
  }

  /** Removing a slot keeps the one-record-per-slot invariant and leaves no record of that slot. */
  lemma {:induction false} RemoveSlotKeepsOnePerSlot(log: seq<TakeRecord>, slot: Slot)
    requires OnePerSlot(log)
    ensures OnePerSlot(RemoveSlot(log, slot))
    ensures !LogHas(RemoveSlot(log, slot), slot)
    decreases |log|
  {
    var r := RemoveSlot(log, slot);
    assert forall i :: 0 <= i < |r| ==> r[i] in r;
    if log != [] {
      HeadSlotUnique(log);
      RemoveSlotKeepsOnePerSlot(log[1..], slot);
      if log[0].scheduled != slot {
        ConsKeepsOnePerSlot(log[0], RemoveSlot(log[1..], slot));
      }
    }
  }

  /** Appending a record for a slot the log does not hold keeps one record per slot. */
  lemma AppendKeepsOnePerSlot(log: seq<TakeRecord>, rec: TakeRecord)
    requires OnePerSlot(log) && !LogHas(log, rec.scheduled)
    ensures OnePerSlot(log + [rec])
    ensures LogHas(log + [rec], rec.scheduled)
  {
    var r := log + [rec];
    assert r[|log|] == rec;
    forall i, j | 0 <= i < j < |r| ensures r[i].scheduled != r[j].scheduled {
      assert r[i] == log[i];
      if j < |log| {
        assert r[j] == log[j];
      }
    }
  }
}
