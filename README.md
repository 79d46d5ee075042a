# MedTracker schedule engine, modelled in Dafny

MedTracker is a personal medication-reminder app written as one React component. Its
engine holds a fixed list of six medications. Each medication has a list of daily time
slots ("HH:MM") and a per-day take-log: a map from a calendar-day key to the sequence
of `{scheduled, takenAt}` records marked taken that day. On top of that list the engine
runs five operations:

- a timer-driven **due sweep** (`checkNotifications`). It moves the last-check instant
  to `now` first. It then reports every slot whose instant today lies in the window
  (last check, now] and which is not yet taken, unless the medication is an inactive
  conditional one or its stored day counter says the course is over;
- **take/undo** (`takeMedication`). It appends a record for a free slot. When the
  undo is confirmed, it removes the slot's records instead. The first take of
  medication 2 also starts its course;
- **toggleConditional**, **resetProgress** and **resetTodaySchedule**;
- the view's derived queries: `isTaken`, the visibility/expiry filter and the
  "day N" counter.

The model has six modules, one per concern:

- `Schedule` (schedule.dfy): the records (`Med`, `TakeRecord`, `Slot`), today's log,
  the `some` search (`LogHas`, `IsTaken`), the `filter` that removes a slot
  (`RemoveSlot`), and the one-record-per-slot invariant (`OnePerSlot`, `WellFormed`).
- `Actions` (actions.dfy): each user action as a pure function from the old
  medication list to the new one, as the source's `map`/spread/`filter` updates
  compute it, with lemmas for framing, toggling, course start and idempotence.
- `Sweep` (sweep.dfy): the sweep as a specification function `Due` from the list and
  a `Tick` (last check, now, local midnight, day key, permission) to the sequence of
  `(id, slot)` notices. Lemmas give its membership rule and its behaviour over a run
  of ticks.
- `Tags` (tags.dfy): the notification tag `med-<id>-<HH:MM>`, and the proof that it
  determines the id and the slot.
- `Views` (views.dfy): visibility, expiry and the day counter, with integer ceiling
  division on milliseconds.
- `Tracker` (tracker.dfy): the component's state as a class `MedTracker` with fields
  `meds` and `lastCheck`. Its `CheckNotifications` is the nested loop of the source,
  proved equal to `Sweep.Due`. Each action method replaces `meds` by its `Actions`
  function and keeps the invariants. `InitialMeds` is the seed list.

Where the code and the design intent differ, the model follows the code:

- The sweep's expiry test (src/App.jsx:146) compares the *stored* `currentDay`
  with `durationDays`. No action ever stores a value other than 0 or 1
  (`ActionsKeepCounterNeverAdvanced`), so for the 7-day course the sweep never skips
  it. The view, in contrast, hides the course once more than 7 whole days have
  elapsed (`StoredCounterNeverExpires`). So the sweep keeps notifying for a course
  that the view no longer shows.
- `takeMedication` does not check that the slot is one of the medication's times,
  and an unknown id leaves the list unchanged without any error signal
  (`TakeUnknownId`).
- The course clock starts on `id == 2`, not on the presence of `durationDays`.
- `toggleConditional` flips `isActive` of any medication, whatever its kind.
- Exactly 7 whole days after the start instant, the course is still visible: the
  ceiling is 7, which is not greater than 7 (`VisibleIff`). It is hidden one
  millisecond later.
- A confirmed undo that empties a day's log leaves the day's key in the map with an
  empty log.
- Each tick places the slots on the local day of its own `now`. A slot just before
  midnight whose instant falls between the last tick of one day and the first tick
  of the next is never reported (`SweepMissesAcrossMidnight`). The exactly-once
  lemmas are therefore stated for runs of ticks within one local day.

## Model

| member | source | states |
|---|---|---|
| Schedule.LogHas | src/App.jsx:324-327 | the `some` search holds exactly when some record of the log has the given scheduled slot |
| Schedule.RemoveSlot | src/App.jsx:247-249 | the filtered log holds exactly the records whose slot differs from the removed one, and is no longer than the original |
| Schedule.RemoveSlotCounts | src/App.jsx:247-249 | the filter keeps each record whose slot differs exactly as many times as the log has it, and none of the removed slot |
| Schedule.RemoveAbsentSlot | src/App.jsx:247-249 | filtering out a slot the log does not hold returns the log unchanged |
| Schedule.RemoveSlotAt | src/App.jsx:247-249 | in a log with one record per slot, filtering out the slot at index k removes exactly that record and keeps the others in order |
| Schedule.RemoveSlotKeepsOnePerSlot | src/App.jsx:244-249 | the undo filter keeps at most one record per slot and leaves no record of the removed slot |
| Schedule.AppendKeepsOnePerSlot | src/App.jsx:250-256 | appending a record for a slot the log lacks keeps at most one record per slot, and the slot is then present |
| Actions.TakeFraming | src/App.jsx:234-264 | a take keeps the list's length and order; records with another id are unchanged; a touched record keeps id, kind, isActive, duration, times and every other day's log |
| Actions.TakeUnknownId | src/App.jsx:235-236 | a take for an id no record has leaves the list unchanged |
| Actions.TakeDeclinedUndo | src/App.jsx:244-246 | an undo the user declines returns the record unchanged |
| Actions.TakeAppends | src/App.jsx:250-256 | taking a slot absent from today's log appends exactly one record `{slot, takenAt}` at the end |
| Actions.TakeUndoRemoves | src/App.jsx:244-249 | a confirmed undo makes today's log the old log with every record of the slot filtered out |
| Actions.TakeToggles | src/App.jsx:238-256 | whenever a take acts (a free slot, or a confirmed undo), the slot's presence in today's log flips |
| Actions.TakeKeepsWellFormed | src/App.jsx:238-264 | a take preserves one-record-per-slot in every day's log of every medication |
| Actions.TakeCourseStart | src/App.jsx:266-270 | `startDate` or `currentDay` change only on an add to medication 2 whose start date is unset, and then become today and 1; an undo never changes them; a set start date is kept |
| Actions.TakeThenUndoRestoresLog | src/App.jsx:238-264 | taking a free slot and then confirming its undo gives back today's log |
| Actions.RemoveAppended | src/App.jsx:247-256 | filtering the slot of a record just appended to a log without that slot gives the original log |
| Actions.ToggleConditionalFlips | src/App.jsx:277-284 | toggling flips `isActive` of exactly the matching records; every other field, and every other record, is unchanged |
| Actions.ToggleConditionalTwice | src/App.jsx:277-284 | toggling the same id twice restores the list |
| Actions.ResetProgressEffect | src/App.jsx:286-295 | confirmed: matching records get no start date, counter 0 and an empty history, all else equal; declined: nothing changes |
| Actions.ResetTodayEffect | src/App.jsx:297-315 | confirmed: every record loses exactly today's key; other days, start date, counter, isActive and all other fields stay; declined: nothing changes |
| Actions.ResetTodayIdempotent | src/App.jsx:297-315 | resetting today twice equals resetting it once |
| Actions.OthersKeepWellFormed | src/App.jsx:277-315 | toggle and both resets preserve one-record-per-slot |
| Actions.ActionsKeepCounterNeverAdvanced | src/App.jsx:266-291 | no action stores a day counter other than 0 or 1 |
| Sweep.SlotInstant | src/App.jsx:134-139 | the instant `setHours(h, m, 0, 0)` gives a well-formed slot lies within the local day of the tick |
| Sweep.SlotNoticesMembership | src/App.jsx:148-189 | a medication's walk over its slots reports (id, slot) exactly for the listed slots that are due, untaken and permitted |
| Sweep.DueMembership | src/App.jsx:143-177 | a notice (id, slot) is produced iff some medication with that id is not skipped, lists the slot, the slot's instant is in (lastCheck, now], today's log lacks it and permission is granted |
| Sweep.DueNamesScheduledSlots | src/App.jsx:143-177 | every notice names a listed medication and one of its scheduled slots |
| Sweep.ReplayNotifiesNothing | src/App.jsx:121-164 | a tick whose last check is not before now (a replay with the same now) reports nothing |
| Sweep.NoPermissionNotifiesNothing | src/App.jsx:170 | without granted permission a tick reports nothing |
| Sweep.InactiveConditionalSilent | src/App.jsx:145 | an inactive conditional medication (with a unique id) is never reported |
| Sweep.SomeWindowHolds | src/App.jsx:151-164 | over increasing ticks each starting where the last ended, an instant covered by the run falls in some (lastCheck, now] window |
| Sweep.WindowsDisjoint | src/App.jsx:164 | the windows of increasing ticks are disjoint |
| Sweep.SweepRunReportsAtMostOnce | src/App.jsx:121-164 | over increasing ticks that all lie in one local day, with an unchanged list, a notice is reported by at most one tick |
| Sweep.SweepRunReportsEligible | src/App.jsx:143-170 | over increasing ticks that all lie in one local day, a notice that stays eligible, with permission, whose instant the run covers, is reported by some tick |
| Sweep.SweepMissesAcrossMidnight | src/App.jsx:134-164 | a 23:59 slot whose instant lies in the window of a tick taken just after midnight is not reported: that tick places the slot on the new day |
| Tags.NatToString | src/App.jsx:177 | the decimal text is non-empty, all digits, and one character long exactly for numbers below 10 |
| Tags.NatToStringInjective | src/App.jsx:177 | distinct numbers have distinct decimal texts |
| Tags.IntToStringInjective | src/App.jsx:177 | distinct ids have distinct texts, with the sign kept apart from the digits |
| Tags.Pad2Digits | src/App.jsx:230-231 | `padStart(2, '0')` of a number below 100 is its two decimal digits |
| Tags.SlotTextInjective | src/App.jsx:177 | the "HH:MM" text of a well-formed slot determines the slot |
| Tags.TagInjective | src/App.jsx:177 | two notices with well-formed slots share the tag `med-<id>-<HH:MM>` only when they have the same id and slot |
| Views.CeilDiv | src/App.jsx:419 | the integer ceiling r of x / d satisfies (r - 1) * d < x <= r * d (r = 0 only for x = 0) |
| Views.CeilDivExceeds | src/App.jsx:419-420 | the rounded-up day count exceeds n exactly when the time exceeds n whole days |
| Views.VisibleIff | src/App.jsx:414-421 | a medication is hidden iff it is an inactive conditional, or has a duration n and a start date and `abs(now - start) > n * 86400000` |
| Views.CourseDayIff | src/App.jsx:482-485 | the day counter reads k >= 1 iff `(k - 1) * 86400000 < abs(now - start) <= k * 86400000`, and reads 0 only at the start instant |
| Views.ShownCounterWithinCourse | src/App.jsx:479-485 | whenever medication 2 with an n-day course is shown, its day counter reads at most n |
| Views.InactiveConditionalHidden | src/App.jsx:414 | an inactive conditional medication is never shown |
| Views.StoredCounterNeverExpires | src/App.jsx:146 | with the stored counter at most 1 and a duration of at least 1, the sweep never skips the course, even when the view hides it |
| Tracker.InitialMeds | src/App.jsx:26-102 | the seed has six medications with ids 1..6, empty histories, unset start dates and well-formed slots; only medication 2 has a duration |
| Tracker.MedTracker.constructor | src/App.jsx:105-116 | the list is the saved one if present, else the seed; the last check is now |
| Tracker.MedTracker.CheckNotifications | src/App.jsx:119-190 | sets lastCheck to now and returns exactly `Due` for the window (old lastCheck, now], walking medications and slots in order |
| Tracker.MedTracker.TakeMedication | src/App.jsx:226-275 | the list becomes `Take` of the old list; one-record-per-slot and the counter bound are preserved |
| Tracker.MedTracker.ToggleConditionalActive | src/App.jsx:277-284 | the list becomes `ToggleConditional` of the old list; invariants preserved |
| Tracker.MedTracker.ResetProgressOf | src/App.jsx:286-295 | the list becomes `ResetProgress` of the old list; invariants preserved |
| Tracker.MedTracker.ResetToday | src/App.jsx:297-315 | the list becomes `ResetTodaySchedule` of the old list; invariants preserved |
| Tracker.ReplayedCheckIsSilent | src/App.jsx:121-124 | two checks in a row with the same now: the second reports nothing |

## Left out

- Rendering (JSX, tabs, icons, colour strings) and the edit/add `alert` stub: presentation only.
- `localStorage` load and save and JSON (de)serialisation: persistence I/O. The constructor takes the saved list, if any, as an input.
- Showing notifications (`Notification`, the service worker), their title, body, icon and vibration, and `requestPermission`: browser APIs. The sweep returns the `(id, slot)` pairs it would show. Permission is the boolean `granted`. The display strings `name`, `dosage` and `instruction` are not part of `Med`.
- `setInterval`/`clearInterval` and the React `useState`/`useEffect`/`useRef` plumbing: the timer is the environment. The ref is the field `lastCheck`.
- Date arithmetic and time zones: instants are integer milliseconds. The day key, the local midnight of `now`, the instant `new Date(startDate)` denotes and the clock reading `takenAt` are inputs. The mismatch between the UTC day key and the local `setHours` is not modelled, and neither is daylight-saving time.
- Floating-point `Math.ceil(x / 86400000)`: replaced by integer ceiling division, which agrees for whole milliseconds.
- `confirm(...)`: a boolean input. In `takeMedication` the prompt is asked once per matching record; the model gives every matching record the same answer.
- Slot texts: a slot is its (hour, minute) pair and its text is the zero-padded "HH:MM". Texts that are not in that form (which `Number` parsing would also accept) are not modelled.
- Fields the engine never reads: `intervalHours`, `timesPerDay`, `maxDuration`, `icon`, `color`.
- React's batching and repeated invocation of state updaters.
- Sweep.InactiveConditionalSilent: stated only for a medication whose id no other record shares, since a notice names an id, not a record.
- Sweep.SweepRunReportsEligible: stated only for runs of ticks within one local day; across midnight the source can miss a slot, as SweepMissesAcrossMidnight shows.
- Tags.TagInjective: stated only for well-formed slots (hour below 24, minute below 60), the only ones the seed and the clock produce.
