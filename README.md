# cron and job_scheduler, modelled in Dafny

This project models two Rust crates of the `routedatacollect` repository.

- **`cron`**: a cron-expression library.
  - `CopyRing` is a fixed slice of values, kept in the order it was given, with a cursor, an `init` flag and a stride. It has `next`, `prev`, peeks, rotations, a wrap-detecting `checked_next` and `binary_search_or_greater`. Bounded iterators run over it.
  - Each time field (seconds, minutes, hours) searches for the first value at or after a target, taking a carry in and giving one out.
  - The date search merges a month-day ring and a weekday ring through a small cache, then walks months and years. The Gregorian calendar (`is_leap_year`, `days_in_a_month`) underlies it.
  - Schedules are parsed by a tokenizer state machine whose `to_string` gives back its input. Per-field range and duplicate checks follow, then `@` macros, then the time and date builders.
  - The older, divergent copies of the field logic under `cron/src/schedule/` are modelled separately, each as written.
- **`job_scheduler`**: the bookkeeping of a job scheduler.
  - The `JobBoard` of `job.rs` has a min-heap of jobs, a min-heap of recycled ids and deletion marks.
  - The `JobBoard` of `career.rs` keeps its marks in `SimpleMap`, a vector of optional slots.
  - `signal.rs` holds the clock's sleep-or-run decision and the `Stoplight` lifecycle that `start`, `stop`, `wake` and `active` move through.

Modelling conventions:

- Times are integers: milliseconds since the Unix epoch, in UTC. Calendar dates are year, month and day numbers.
- The current time is a parameter.
- A panic in the source (an `unwrap` of nothing, a `%` by zero, an index out of range) becomes a precondition.
- `u8` and `u32` arithmetic that can overflow wraps explicitly, as a release build does.
- Rust's binary heaps are multisets. A pop takes any least element under the job order, which is all the source guarantees.
- Objects that the source updates in place are classes whose methods are specified against pure functions: the ring, the boards, the map and the signal.

One file per source module:

- `ring.dfy`: the ring and its iterators (`copy_ring.rs`, `iter.rs`).
- `collection.dfy`: the index arithmetic of `collection.rs`.
- `cron_field.dfy`: the ring helpers `next` and `first_after` of `table/fields.rs`.
- `calendar.dfy` and `schedule.dfy`: the calendar, macro parsing and `next_month` of `lib.rs`.
- `table.dfy`, `table_fields.dfy`, `table_time.dfy`, `table_date.dfy`: the `table` tree.
- `schedule_fields.dfy`, `schedule_inner.dfy`, `schedule_table_fields.dfy`: the `schedule` tree.
- `parser.dfy`, `tokens.dfy`: parsing.
- `jobs.dfy`, `job_board.dfy`, `simple_map.dfy`, `career.dfy`, `signal.dfy`: `job_scheduler`.
- `arith.dfy` and `wrappers.dfy`: shared helpers.

## Model

| member | source | states |
|---|---|---|
| Calendar.LeapYearRule | cron/src/lib.rs:313-328 | a year is a leap year exactly when it is divisible by 4 and either not by 100 or by 400 |
| Calendar.DaysInAMonth | cron/src/lib.rs:296-311 | a month has 28 to 31 days; 31 exactly for months 1, 3, 5, 7, 8, 10 and 12, 30 exactly for 4, 6, 9 and 11, and February has 29 exactly in a leap year; a month outside 1 to 12 (a panic) is excluded |
| Calendar.DaysInAMonthMatchesTable | cron/src/lib.rs:296-311 | each month's length is the common-year table entry, plus one for February of a leap year |
| Calendar.YearLength | cron/src/lib.rs:296-328 | the twelve month lengths add up to 366 days in a leap year and 365 otherwise |
| Collection.NewIdxLeft | cron/src/collection.rs:4-6 | the forward rotation lands on a slot of the ring |
| Collection.NewIdxRight | cron/src/collection.rs:8-13 | the backward rotation, computed with truncating signed remainders, lands on a slot of the ring |
| Collection.NewIdxRightIsSubtraction | cron/src/collection.rs:8-13 | the backward rotation is never negative and equals `cur - n` modulo the period |
| Collection.RightUndoesLeft | cron/src/collection.rs:4-13 | rotating forward by `n` and then backward by `n` returns to the starting slot |
| Collection.LeftUndoesRight | cron/src/collection.rs:4-13 | rotating backward by `n` and then forward by `n` returns to the starting slot |
| Collection.RotateRightFromStart | cron/src/collection/copy_ring.rs:400-404 | on a ring of 8 slots, turning right by 3 from slot 0 lands on slot 5 |
| Collection.RotateRightFromFive | cron/src/collection/copy_ring.rs:406-413 | from slot 5 of 8, turning right by 0 or by the whole period stays on 5, and by 2 lands on 3 |
| Ring.WindowAt | cron/src/collection/copy_ring.rs:194-201 | with stride 1, the k-th value read from slot `start` is the slot k places on, modulo the period |
| Ring.OneCycleIsSlice | cron/src/collection/copy_ring.rs:313-329 | one cycle from the first slot yields the slice itself, in order |
| Ring.LongWindowStartsWithSlice | cron/src/collection/copy_ring.rs:389-397 | taking more values than the period from the first slot yields the slice first, and each later value repeats the one a period earlier |
| Ring.SingleValueForever | cron/src/collection/copy_ring.rs:416-423 | a ring of one value yields that value at every step, whatever the stride |
| Ring.SearchBetween | cron/src/collection/copy_ring.rs:254-257 | the model's halving search stays within its range and, on a sorted slice partitioned around the range, returns the first position of a value at least `x` |
| Ring.BinarySearch | cron/src/collection/copy_ring.rs:254-257 | the index carried by `Ok` or `Err` is at most the length; on a sorted slice it is the first position of a value at least `x`, which is the only possible answer of `binary_search` when the slice has no repeated value |
| Ring.SearchFindsLeastAtLeast | cron/src/collection/copy_ring.rs:243-257 | on a sorted slice the search index equals the length exactly when every value is below `x`, and otherwise holds the least value at least `x` |
| Ring.CopyRing.constructor | cron/src/collection/copy_ring.rs:81-88 | a new ring holds the given slice, its cursor on the first slot, not yet moved, with stride 1 |
| Ring.CopyRing.Reset | cron/src/collection/copy_ring.rs:94-97 | the cursor goes back to the first slot and the ring counts as not moved; the stride is kept |
| Ring.CopyRing.Period | cron/src/collection/copy_ring.rs:110-112 | the period is the slice's length |
| Ring.CopyRing.IsEmpty | cron/src/collection/copy_ring.rs:114-116 | empty exactly when the period is 0 |
| Ring.CopyRing.First | cron/src/collection/copy_ring.rs:118-120 | the first slot's value, none exactly for an empty slice |
| Ring.CopyRing.Last | cron/src/collection/copy_ring.rs:122-124 | the last slot's value, none exactly for an empty slice |
| Ring.CopyRing.SetStride | cron/src/collection/copy_ring.rs:233-235 | sets the stride; cursor and moved flag stay |
| Ring.CopyRing.PeekNext | cron/src/collection/copy_ring.rs:186-192 | the value under the cursor, none exactly for an empty slice |
| Ring.CopyRing.PeekPrev | cron/src/collection/copy_ring.rs:163-170 | the value one stride behind the cursor, none exactly for an empty slice |
| Ring.CopyRing.RotateLeft | cron/src/collection/copy_ring.rs:172-176 | the cursor moves `n` slots on modulo the period; a non-zero move marks the ring as moved |
| Ring.CopyRing.RotateRight | cron/src/collection/copy_ring.rs:178-182 | the cursor moves `n` slots back modulo the period; a non-zero move marks the ring as moved |
| Ring.CopyRing.Next | cron/src/collection/copy_ring.rs:194-201 | returns the value under the cursor and moves the cursor one stride on; an empty ring returns none and does not change |
| Ring.CopyRing.CheckedNext | cron/src/collection/copy_ring.rs:133-138 | the same step, flagged as a wrap exactly when the cursor was on the first slot of a ring already moved |
| Ring.CopyRing.Prev | cron/src/collection/copy_ring.rs:152-159 | returns the value under the cursor and moves the cursor one stride back |
| Ring.CopyRing.TakeMut | cron/src/collection/copy_ring.rs:210-212 | a new iterator over this ring with a budget of `n` values |
| Ring.CopyRing.OneCycle | cron/src/collection/copy_ring.rs:103-106 | a new iterator over this ring with a budget of one period |
| Ring.CopyRing.UntilStart | cron/src/collection/copy_ring.rs:142-145 | a new iterator whose budget is the number of slots from the cursor to the end of the slice |
| Ring.CopyRing.TakeRef | cron/src/collection/copy_ring.rs:217-219 | a new iterator over the same slice from the cursor, with a budget of `n`, that moves no ring |
| Ring.NextThenPrevTwice | cron/src/collection/copy_ring.rs:370-378 | after `next`, the second of two `prev` calls returns the value `next` returned |
| Ring.PrevTwiceFromStart | cron/src/collection/copy_ring.rs:381-387 | on a new ring the second `prev` returns the slice's last value |
| Ring.BinarySearchOrGreater | cron/src/collection/copy_ring.rs:252-260 | the ring is reset and turned to the search index, then stepped with a wrap check: the least value at least `x` with flag false on a sorted ring, else the first slot with flag true |
| Ring.CycleIterMut.constructor | cron/src/collection/iter.rs:12-14 | the iterator holds the ring and the budget |
| Ring.CycleIterMut.SizeHint | cron/src/collection/iter.rs:55-57 | both bounds are the budget, which is the number of values left to yield |
| Ring.CycleIterMut.Next | cron/src/collection/iter.rs:46-53 | nothing once the budget is spent; otherwise the budget drops by one and the ring's `next` is returned, so the values yielded are the ring's window in order |
| Ring.CycleIterMut.CheckedNext | cron/src/collection/iter.rs:15-22 | the same countdown over the ring's `checked_next`, its value the next value of the window |
| Ring.CycleIterMut.Checked | cron/src/collection/iter.rs:24-26 | wraps this iterator in the checked adaptor |
| Ring.Checked.constructor | cron/src/collection/iter.rs:29 | holds the inner iterator |
| Ring.Checked.SizeHint | cron/src/collection/iter.rs:37-39 | the inner iterator's bounds |
| Ring.Checked.Next | cron/src/collection/iter.rs:33-35 | the inner iterator's `checked_next` |
| Ring.CycleIter.constructor | cron/src/collection/iter.rs:70-72 | holds the slice, the start slot and the budget |
| Ring.CycleIter.SizeHint | cron/src/collection/iter.rs:89-91 | both bounds are the budget, which is the number of values left |
| Ring.CycleIter.Next | cron/src/collection/iter.rs:78-87 | nothing once the budget is spent; otherwise the slot at the cursor, the cursor one slot on, whatever the ring's stride |
| CronField.Target | cron/src/table/fields.rs:24 | the search target is `then` plus the carry, in 8 bits |
| CronField.FieldAfterLeastAtLeast | cron/src/table/fields.rs:21-32 | on a sorted ring the flag is false exactly when some value reaches the target, and then the value is the least such |
| CronField.WrapSkipsFirstSlot | cron/src/table/fields.rs:27-31 | on the wrap path the answer is the slot after the first: values 1, 2, 3 and target 5 give (2, true) |
| CronField.Next | cron/src/table/fields.rs:13-19 | with a carry, the ring's checked step; without one, the value under the cursor with flag false and the ring unmoved |
| CronField.FirstAfter | cron/src/table/fields.rs:21-32 | the answer is `FieldAfter` of the ring's values, and the cursor ends one past the slot found, or two past the first slot after a wrap |
| Ring.ScanAtLeast | cron/src/schedule/fields/inner.rs:241-248 | the scan stops on the first value of the iterator's window at least `x`, having consumed it, or consumes the whole window; the cursor ends that many slots on |
| Ring.ScanAtLeastChecked | cron/src/schedule/fields/inner.rs:81-90 | the same scan over the checked adaptor, returning also the wrap flag of the value that stopped it |
| ScheduleInner.Slot | cron/src/schedule/fields/inner.rs:241-253 | the slot a search settles on is in range; without a carry it is the first slot holding a value at least `x`, or the first slot when there is none |
| ScheduleInner.FirstAtLeastOrFirst | cron/src/schedule/fields/inner.rs:39-54 | the flag is set exactly when every value is below `x`; unflagged, the value is the first one at least `x`; flagged, it is the first value |
| ScheduleInner.CarriedAfter | cron/src/schedule/fields/inner.rs:80-101 | the value is the one at the settled slot; without a carry the answer is `FirstAtLeastOrFirst`; with one, after a value was found, the flag is set exactly when that value was the last slot |
| ScheduleInner.CarriedAfterFlagMeaning | cron/src/schedule/fields/inner.rs:80-101 | on a strictly increasing ring (of two values or more under a carry) no flag means a value at least `x` and a flag means one below it |
| ScheduleInner.CarriedAfterOneValue | cron/src/schedule/fields/inner.rs:80-101 | on a one-value ring a carry flags a value above `x`: values [5], target 3, carry give (5, true) |
| ScheduleInner.CarriedAfterNextListed | cron/src/schedule/fields/inner.rs:80-101 | with a carry, searching for a listed value answers the value after it, unflagged |
| ScheduleInner.CarriedAfterSkipsOne | cron/src/schedule/fields/inner.rs:80-101 | with a carry, searching for an unlisted value moves one slot too far: values 10, 20, 30 and target 15 give (30, false) |
| ScheduleInner.AfterScan | cron/src/schedule/fields/inner.rs:241-248 | the slot a reset and a scan leave the cursor on is a slot of the ring |
| ScheduleInner.ResetAndScan | cron/src/schedule/fields/inner.rs:40-47 | after a reset and a one-cycle scan, `found` tells whether some value reaches `x` and the cursor rests on `AfterScan` |
| ScheduleInner.ResetAndScanChecked | cron/src/schedule/fields/inner.rs:81-90 | the checked scan finds the same and never reports a wrap, since a cycle from the first slot cannot wrap before its end |
| ScheduleInner.TurnBack | cron/src/schedule/fields/inner.rs:48-50 | one slot back from where a successful scan stopped is the slot of the value found |
| ScheduleInner.SecondsFirstAfter | cron/src/schedule/fields/inner.rs:39-54 | `Seconds::first_after` answers `FirstAtLeastOrFirst` and leaves the cursor one slot past the answer |
| ScheduleInner.CarriedFirstAfter | cron/src/schedule/fields/inner.rs:80-101 | `first_after` of minutes, hours and months answers `CarriedAfter`, the cursor on the settled slot |
| ScheduleInner.NextWithCarry | cron/src/schedule/fields/inner.rs:108-114 | with a carry, the ring's checked step; without, the value at the cursor, no flag, the ring unmoved |
| ScheduleInner.MonthDayAfter | cron/src/schedule/fields/inner.rs:235-264 | unflagged exactly when a day at least `day` exists and the settled slot's day fits in the month, which is then the answer; flagged, the ring's first day when the found day is past the month's end, the settled slot's day when none was found |
| ScheduleInner.MonthDayAfterLeast | cron/src/schedule/fields/inner.rs:235-264 | without a carry on an increasing ring: the least listed day from `day` on when it fits in the month, otherwise the first day, flagged, with every listed day from `day` on past the month's end |
| ScheduleInner.MonthDayCarrySkipsFirst | cron/src/schedule/fields/inner.rs:249-262 | with a carry and nothing left this month the answer is the ring's second day: days 1 and 15, day 20, a carry and 30 days give (15, true) |
| ScheduleInner.NumWeekdaysSince | cron/src/schedule/fields/inner.rs:297-301 | the count is an 8-bit unsigned value |
| ScheduleInner.NumWeekdaysSinceOfWeekdays | cron/src/schedule/fields/inner.rs:297-301 | between weekdays 0 to 6 the count is `(7 + second - first) % 7`, and that many days on from `first` is `second` |
| ScheduleInner.NumWeekdaysSinceExamples | cron/src/schedule/fields/inner.rs:297-301 | from 0 to 5 is 5 days, from 5 to 0 is 2, from 3 to 2 is 6, and from a weekday to itself is 0 |
| ScheduleInner.WeekDayAfter | cron/src/schedule/fields/inner.rs:266-295 | a flagged day lies below the month's length and an unflagged one within the month |
| ScheduleInner.WeekDayAfterLandsOnWeekday | cron/src/schedule/fields/inner.rs:266-295 | for weekdays 0 to 6 the answer is `day` plus the 0 to 6 days from `weekday` to the weekday found, reduced modulo the month's length and flagged when past its end |
| ScheduleInner.DecideDays | cron/src/schedule/fields/inner.rs:195-209 | the answer is one of the two candidates; when exactly one is flagged the other wins, otherwise the earlier day wins, the month day on a tie |
| ScheduleInner.DaysAfter | cron/src/schedule/fields/inner.rs:169-229 | with one ring present its candidate is the answer; with both, one of the candidates, unflagged when only one is flagged, else not later than either |
| ScheduleInner.NextDayOfTheMonth | cron/src/schedule/fields/inner.rs:235-264 | answers `MonthDayAfter`; the cursor is on the settled slot, or on the first slot after a day past the month's end |
| ScheduleInner.ShiftBack | cron/src/schedule/fields/inner.rs:249-253 | after a successful scan and a step forward, a step back leaves the cursor on the carried slot |
| ScheduleInner.NextDayOfTheWeek | cron/src/schedule/fields/inner.rs:266-295 | answers `WeekDayAfter`, the cursor left on the weekday found |
| ScheduleInner.DaysFirstAfter | cron/src/schedule/fields/inner.rs:169-229 | answers `DaysAfter` for the month's length, the rings kept valid |
| ScheduleFields.Rotation | cron/src/schedule/fields.rs:278-283 | the values read from slot `s` round to the slot before it: the same values, slot `k` of the read being slot `s + k` modulo the period |
| ScheduleFields.CycleIsRotation | cron/src/schedule/fields.rs:278-283 | one cycle with stride 1 from slot `s` reads exactly the rotation from `s` |
| ScheduleFields.LeftStart | cron/src/schedule/fields.rs:124-127 | after a reset and, under a carry, a turn one slot on, the search starts at slot `1 % n`, else at 0 |
| ScheduleFields.RightStart | cron/src/schedule/fields.rs:274-277 | after a reset and, under a carry, a turn one slot back, the search starts at the last slot, else at 0 |
| ScheduleFields.LeftOrderCarried | cron/src/schedule/fields.rs:124-133 | read from the second slot, the values come from the second one on, the first one last |
| ScheduleFields.RightOrderCarried | cron/src/schedule/fields.rs:274-283 | read from the last slot, the last value comes first and then the rest in order |
| ScheduleFields.ScanCycle | cron/src/schedule/fields.rs:278-283 | one scan over a cycle finds a value at least `x` exactly when the rotation from the cursor holds one, and moves the cursor one slot past it, or a whole cycle |
| ScheduleFields.SettleAfterScan | cron/src/schedule/fields.rs:284-286 | turning back one slot after a successful scan puts the cursor on the value found; after a failed one the cursor is on the slot the scan began at |
| ScheduleFields.LeftOrder | cron/src/schedule/fields.rs:124-133 | the order the minutes and hours are read in: from the second slot under a carry, from the first otherwise |
| ScheduleFields.RightOrder | cron/src/schedule/fields.rs:274-283 | the order the day rings are read in: from the last slot under a carry, from the first otherwise |
| ScheduleFields.RotatedFirstAfter | cron/src/schedule/fields.rs:122-140 | `first_after` of the minutes and hours (and, without a carry, of the seconds, lines 85-100) answers the first value at least `x` in the carried reading order, or that order's first value flagged, the cursor one slot past the answer |
| ScheduleFields.MonthDayAfterTurnedBack | cron/src/schedule/fields.rs:267-297 | unflagged exactly when a day at least `day` is found within the month, which is then the answer; a found day past the month's end gives the ring's first day, none found gives the reading order's first day, both flagged |
| ScheduleFields.MonthDayCarryAnswersLast | cron/src/schedule/fields.rs:274-294 | with a carry and every listed day below `day`, the answer is the ring's last day, flagged |
| ScheduleFields.RightOrderBelow | cron/src/schedule/fields.rs:274-283 | reading in the carried order reads no new values: a bound on every slot bounds every value read |
| ScheduleFields.NumWeekdaysSinceUnreduced | cron/src/schedule/fields.rs:415-417 | the count is an 8-bit unsigned value |
| ScheduleFields.NumWeekdaysSinceUnreducedOfWeekdays | cron/src/schedule/fields.rs:415-417 | between weekdays 0 to 6 no remainder is taken: the count is `7 + second - first`, from 1 to 13, and 7 for equal weekdays |
| ScheduleFields.WeekdayPlusCount | cron/src/schedule/fields.rs:319-322 | adding the count to the weekday it starts from lands a week past the target weekday |
| ScheduleFields.WeekDayAfterTurnedBack | cron/src/schedule/fields.rs:299-330 | a flagged day lies below the month's length and an unflagged one within it |
| ScheduleFields.WrapDay | cron/src/schedule/fields.rs:323-327 | flagged exactly past the month's end, and then reduced below the month's length; otherwise the count itself |
| ScheduleFields.WeekDayIsWeekdayPlusSeven | cron/src/schedule/fields.rs:299-330 | for weekdays 0 to 6 and a month of 13 days or more, the answer is the weekday found plus 7, unflagged: the sum starts from the weekday, not from a day of the month |
| ScheduleFields.ScanTurnedBack | cron/src/schedule/fields.rs:273-286 | after a reset, a carried turn back and a scan, `found` tells whether the reading order holds a value at least `x`, and the cursor is on that value, or on the order's first value |
| ScheduleFields.Days.constructor | cron/src/schedule/fields.rs:60-64 | the two day rings and the spec as given |
| ScheduleFields.Days.NextDayOfTheMonth | cron/src/schedule/fields.rs:267-297 | answers `MonthDayAfterTurnedBack`, the cursor on the day answered |
| ScheduleFields.Days.NextDayOfTheWeek | cron/src/schedule/fields.rs:299-330 | answers `WeekDayAfterTurnedBack` |
| ScheduleFields.FieldTable.constructor | cron/src/schedule/fields.rs:55-68 | each ring goes to its field and the year count starts at 0 |
| ScheduleTableFields.DayCache.constructor | cron/src/schedule/table/fields.rs:25-38 | the default cache: day 0, weekday 0, last used Week |
| ScheduleTableFields.DayCache.Set | cron/src/schedule/table/fields.rs:41-45 | every field takes the new summary's value |
| ScheduleTableFields.NextWeekdayAcrossMonth | cron/src/schedule/table/fields.rs:382-390 | the weekday computed is below 7 |
| ScheduleTableFields.NextWeekdayAcrossMonthCounts | cron/src/schedule/table/fields.rs:382-390 | for days of at most 31 the sums do not wrap: the answer is the last weekday plus the days to the month's end plus `nextDay`, modulo 7 |
| ScheduleTableFields.NextWeekdayWithinMonthIsOff | cron/src/schedule/table/fields.rs:382-390 | for a later day of the same month the month's length is still added: from Tuesday the 13th of a 30-day month it gives 6 for the 15th, which falls on a Thursday (4) |
| ScheduleTableFields.WeekdayToMonthDay | cron/src/schedule/table/fields.rs:165-177 | an unflagged day lies within the month; a flagged one is the 8-bit sum less the month's length |
| ScheduleTableFields.WeekdayToMonthDayOfWeekdays | cron/src/schedule/table/fields.rs:165-177 | between weekdays and for months of 13 days or more it never flags: the answer is below 13, on the target weekday, and not before the last weekday, whatever the last day was |
| ScheduleTableFields.FirstSummary | cron/src/schedule/table/fields.rs:92-139 | the cached day is the winner of `DecideDays`; Both exactly on an equal tie; Month when the month day won, with a weekday below 7; Week when the weekday won, with the settled weekday |
| ScheduleTableFields.FirstAfter | cron/src/schedule/table/fields.rs:65-161 | answers `ScheduleInner.DaysAfter`; with both rings the cache becomes `FirstSummary`, with the weekday ring alone the answer and the settled weekday, marked Week |
| ScheduleTableFields.Choose | cron/src/schedule/table/fields.rs:250-278 | the day and flag are those `DecideDays` picks from the two candidates, the winner's summary is kept, and it is marked Both exactly on an equal tie |
| ScheduleTableFields.BothNextMovesLastUsed | cron/src/schedule/table/fields.rs:203-280 | for weekdays and months of 13 days or more, a Week result carries the weekday ring's value and day, unflagged; any other result carries the month ring's value and its wrap flag |
| ScheduleTableFields.StepBoth | cron/src/schedule/table/fields.rs:203-279 | only the ring or rings the cache names step; the answer and the new cache are `BothNext` of the old cache and the values under the cursors |
| ScheduleTableFields.StepWeek | cron/src/schedule/table/fields.rs:285-300 | the weekday ring steps, and its old value turned into a day is the answer and the new cache |
| ScheduleTableFields.Next | cron/src/schedule/table/fields.rs:163-303 | without a carry nothing changes and the answer is the cached day (the month ring's current day with that ring alone); with a carry, the month ring alone takes a checked step, the weekday ring alone steps as `StepWeek`, and both step as `StepBoth` |
| ScheduleTableFields.Date.constructor | cron/src/schedule/table/fields.rs:595-608 | the rings and the year as given, with a default cache |
| ScheduleTableFields.DateBuildErrorWithYear | cron/src/schedule/table/fields.rs:673-716 | with a year, the error is the table's own date check; without one, MissingField |
| ScheduleTableFields.DateBuilder.constructor | cron/src/schedule/table/fields.rs:617-628 | nothing given yet |
| ScheduleTableFields.DateBuilder.WithWeekdays | cron/src/schedule/table/fields.rs:638-646 | sets the weekdays, nothing else |
| ScheduleTableFields.DateBuilder.WithMonthDays | cron/src/schedule/table/fields.rs:648-656 | sets the days of the month, nothing else |
| ScheduleTableFields.DateBuilder.WithMonths | cron/src/schedule/table/fields.rs:658-666 | sets the months, nothing else |
| ScheduleTableFields.DateBuilder.WithYear | cron/src/schedule/table/fields.rs:668-671 | sets the year, nothing else |
| ScheduleTableFields.DateBuilder.Build | cron/src/schedule/table/fields.rs:673-723 | fails exactly as `DateBuildErrorWithYear` says; otherwise a date over fresh rings holding the given values, the day rings present exactly as given, default caches and the given year; the day rings are always taken out, the months once a day ring was there, the year once the months were |
| Table.CombineOutcome | cron/src/table.rs:158-176 | the build succeeds exactly when both halves do, with both results; on failure each half's slot holds its error and is empty exactly when that half succeeded |
| Table.FieldTable.constructor | cron/src/table.rs:51-55 | the table holds the two halves, over rings of their own |
| Table.FieldTable.After | cron/src/table.rs:180-200 | no answer when the time search finds none; an answer carries the time found and a date in the table's year, in one of its months, that exists in the calendar |
| Table.Builder.constructor | cron/src/table.rs:91-95 | both halves start with nothing given |
| Table.Builder.Build | cron/src/table.rs:158-176 | succeeds exactly when neither half's checks fail; on failure the error holds each half's check result; a success is a new, valid table |
| TableTime.SecondsAfter | cron/src/table/fields/time.rs:26-29 | after a reset, the field search without a carry: `FieldAfter` of the ring's values |
| TableTime.MinutesAfter | cron/src/table/fields/time.rs:46-49 | after a reset, the field search with the seconds' carry |
| TableTime.HoursAfter | cron/src/table/fields/time.rs:65-68 | after a reset, the field search with the minutes' carry |
| TableTime.AfterWithoutCarry | cron/src/table/fields/time.rs:110-134 | on a sorted ring, without a carry, no flag means a value at least the input and a flag a value below it |
| TableTime.AfterWithCarry | cron/src/table/fields/time.rs:136-169 | with a carry, no flag means a value above the input and a flag a value at most the input |
| TableTime.CarryWrapCanEqualInput | cron/src/table/fields/time.rs:136-152 | a ring holding only 5, asked for 5 with a carry, wraps back to 5 itself, so the tests' "below the input" after a wrap does not hold for every ring |
| TableFields.FromHms | cron/src/table/fields.rs:335 | a time exists exactly when the hour is below 24 and the minute and second below 60, and then holds those three |
| TableFields.FromYmd | cron/src/table/fields.rs:271 | a date exists exactly when the year is in range, the month is 1 to 12 and the day lies within that month of that year |
| TableFields.TimeAfterParts | cron/src/table/fields.rs:331-337 | every part of the time found is a value of its own ring; rings within the clock's bounds always give a time; the flag is the hours' carry, fed by the minutes', fed by the seconds' |
| TableFields.Time.constructor | cron/src/table/fields.rs:35-39 | the time table holds the three rings it is given |
| TableFields.Time.FirstAfter | cron/src/table/fields.rs:331-337 | the result is the field-by-field search with each carry passed upwards, as `TimeAfterParts` describes |
| TableFields.TimeBuildErrorCases | cron/src/table/fields.rs:447-469 | a missing ring, and only that, is `MissingField`; with all three given an empty ring is `EmptyRing`; success exactly when every ring is non-empty and its last value is inside the clock |
| TableFields.TimeBuilder.constructor | cron/src/table/fields.rs:56-60 | no ring given yet |
| TableFields.TimeBuilder.WithSecs | cron/src/table/fields.rs:417-425 | sets the seconds ring and leaves the others |
| TableFields.TimeBuilder.WithMins | cron/src/table/fields.rs:427-435 | sets the minutes ring and leaves the others |
| TableFields.TimeBuilder.WithHours | cron/src/table/fields.rs:437-445 | sets the hours ring and leaves the others |
| TableFields.TimeBuilder.Build | cron/src/table/fields.rs:447-469 | fails exactly as `TimeBuildErrorCases` classifies, with that error; a success holds fresh rings over the values given; a missing ring leaves the builder as it was, otherwise every ring has been taken |
| TableFields.DateBuildErrorCases | cron/src/table/fields.rs:379-413 | no day ring at all, or no month ring, is `MissingField`; then any empty ring is `EmptyRing`; success exactly when the month ring starts at 1 or more and ends at 31 or less, a month-day ring lies in 1 to 31 and a weekday ring ends below 7 |
| TableFields.DateBuilder.constructor | cron/src/table/fields.rs:63-67 | no ring given yet |
| TableFields.DateBuilder.WithDaysWeek | cron/src/table/fields.rs:349-357 | sets the weekday ring and leaves the others |
| TableFields.DateBuilder.WithDaysMonth | cron/src/table/fields.rs:359-367 | sets the month-day ring and leaves the others |
| TableFields.DateBuilder.WithMonths | cron/src/table/fields.rs:369-377 | sets the month ring and leaves the others |
| TableFields.DateBuilder.Build | cron/src/table/fields.rs:379-413 | fails exactly as `DateBuildErrorCases` classifies; a success is a fresh date over the rings given, with the same kinds of day ring and no year; the day rings are always taken, the month ring whenever a day ring was there |
| TableFields.CalcMonthsPassedExclusive | cron/src/table/fields.rs:274-304 | the count fits in 32 bits |
| TableFields.CalcMonthsPassedExclusiveValue | cron/src/table/fields.rs:274-304 | for real dates the count is the distance between the two months less two, and zero when they are equal or adjacent |
| TableFields.MonthsStrictlyBetween | cron/src/table/fields.rs:128-133 | the number of months strictly between a start month and a later one, zero otherwise |
| TableFields.MonthLength | cron/src/lib.rs:296-311 | every month has 28 to 31 days |
| TableFields.MonthStartStep | cron/src/lib.rs:296-311 | consecutive months start exactly one month's length apart, across a year's end too |
| TableFields.MonthRunDaysSpan | cron/src/table/fields.rs:141-144 | the days of a run of consecutive months are the distance between the first of the run and the first after it |
| TableFields.DaysUntilMonthStartIsDistance | cron/src/table/fields.rs:116-162 | the day count from a date to the first of a later month is the difference of their day numbers |
| TableFields.LeapYearsBetween | cron/src/table/fields.rs:149-151 | no more leap years than years in the range |
| TableFields.DaysUntilAsWritten | cron/src/table/fields.rs:116-162 | the count, as the code sums it, fits in 32 bits |
| TableFields.DaysUntilAsWrittenShort | cron/src/table/fields.rs:116-162 | from 15 January 2024 the code's count to 1 March 2024 is 17 while the true distance is 46 |
| TableFields.Date.constructor | cron/src/table/fields.rs:408-412 | a date table over the given day rings and month ring, with no year |
| TableFields.Date.StepRing | cron/src/table/fields.rs:100-104 | the first round takes the month ring's search from the start month; later rounds take the value under the cursor and advance it, the flag telling a wrap; a later round without a wrap brings the wrap nearer |
| TableFields.Date.CarryYear | cron/src/table/fields.rs:70-109 | the year is the previous one, or the start year at first, plus the wrap, in 32 bits; it stays at most four past the start and every carry spends the year budget |
| TableFields.Date.StepMonth | cron/src/table/fields.rs:99-109 | the two steps combined: every round spends the year budget or moves the month ring towards its wrap |
| TableFields.Date.SearchMonth | cron/src/table/fields.rs:111-188 | a day found lies within the month searched; the time's carry survives only in the start month of the start year; a later month is searched from its first, on the weekday the code's day count `DaysUntilAsWritten` leads to |
| TableFields.MarchSearchStartsOnWrongWeekday | cron/src/table/fields.rs:116-170 | from Monday 15 January 2024 the code starts the search of March on a Thursday, while stepping by the true distance gives Friday, the weekday of 1 March 2024 |
| TableFields.Date.Round | cron/src/table/fields.rs:99-263 | one round keeps the table valid, lands on a listed month, and either spends the year budget or moves the month ring towards its wrap |
| TableFields.Date.FirstAfter | cron/src/table/fields.rs:86-272 | the loop ends; a date found is a calendar date in a listed month of the year the search reached, which is at most four past the start |
| TableFields.YearStep | cron/src/table/fields.rs:70-76 | one carry moves a year less than four past the start exactly one year further, in 32-bit arithmetic |
| TableDate.OptionMap | cron/src/table/fields/date.rs:76-84 | a present value goes through the function, an absent one stays absent |
| TableDate.MapResponse | cron/src/table/fields/date.rs:76-84 | each present result of a response goes through its own function, and nothing appears or disappears |
| TableDate.TryMergeWith | cron/src/table/fields/date.rs:110-118 | merged exactly when both results are present, with the merging function's value; otherwise the response comes back untouched |
| TableDate.AnyMeaning | cron/src/table/fields/date.rs:121-129 | true exactly when no result is present or some present result is true |
| TableDate.TryMergeThenOr | cron/src/table/fields/date.rs:132-170 | merging and then taking `or` gives the merged value when both are present, else the lone present result, else nothing |
| TableDate.NumWeekdaysSince | cron/src/table/fields/date.rs:209-212 | the 8-bit cast keeps the count below 256 |
| TableDate.NumWeekdaysSinceSteps | cron/src/table/fields/date.rs:209-212 | between two weekdays the count is below 7, and that many days on from the start is the end weekday |
| TableDate.NumWeekdaysSinceExamples | cron/src/table/fields/date.rs:492-508 | the counts the crate's own test expects |
| TableDate.NextWeekdayFromLast | cron/src/table/fields/date.rs:443-447 | always a weekday, 0 to 6 |
| TableDate.NextWeekdayUndoesCount | cron/src/table/fields/date.rs:209-447 | stepping forward the count from one weekday to another lands on the other |
| TableDate.NextWeekdayExamples | cron/src/table/fields/date.rs:477-490 | the weekdays the crate's own test expects |
| TableDate.DecideFieldChoice | cron/src/table/fields/date.rs:352-367 | no candidate gives none; a lone candidate wins; with two the smaller day wins and a tie is marked as coming from both |
| TableDate.ComputeCache | cron/src/table/fields/date.rs:369-400 | the entry keeps the weekday found and marks the weekday ring as used |
| TableDate.ComputeCacheCases | cron/src/table/fields/date.rs:369-400 | a day within the month is recorded as found; a day past the end moves the entry to the next month, December to January of the next year |
| TableDate.ComputeCacheOverflowDayIsNoDay | cron/src/table/fields/date.rs:375 | the day recorded past a month's end is `month - days_in_month` in 8 bits, which is never a day of a month |
| TableDate.MonthCandidate | cron/src/table/fields/date.rs:310-317 | a candidate is a listed day within the month |
| TableDate.MonthCandidateLeast | cron/src/table/fields/date.rs:310-317 | on a sorted ring the candidate is the least listed day from the target on, and there is none exactly when every such day is past the month's end |
| TableDate.WeekCandidate | cron/src/table/fields/date.rs:318-327 | the weekday is a listed one, and the month day is the start day plus the weekdays counted to it, in 8 bits |
| TableDate.WeekCandidateFallsOnItsWeekday | cron/src/table/fields/date.rs:318-327 | for weekdays the month day offered is less than a week on from the start and falls on the weekday it names |
| TableDate.DayChoice | cron/src/table/fields/date.rs:328-349 | the day chosen lies within the month and is one of the candidates offered |
| TableDate.MergeDecided | cron/src/table/fields/date.rs:341-343 | the result is one side's candidate or, when both sides have one, the month day marked as from both |
| TableDate.Days.constructor | cron/src/table/fields/date.rs:173-187 | the given day rings, without a cache |
| TableDate.Days.Reset | cron/src/table/fields/date.rs:205-207 | every present ring is back at its start |
| TableDate.Days.Query | cron/src/table/fields/date.rs:261-273 | a result exactly for each present ring, each through its own function, the weekday ring's with the cache |
| TableDate.Days.Last | cron/src/table/fields/date.rs:230-237 | the cached month day if there is one, else a value of the month-day ring |
| TableDate.Days.SearchMonthRing | cron/src/table/fields/date.rs:310-317 | the month-day ring's candidate, as `MonthCandidate` describes |
| TableDate.Days.SearchWeekRing | cron/src/table/fields/date.rs:318-327 | the weekday ring's candidate, as `WeekCandidate` describes, leaving the cache alone |
| TableDate.Days.FirstAfter | cron/src/table/fields/date.rs:300-350 | the day is the one `DayChoice` picks among the present rings' candidates; a weekday ring's cache records its candidate and which ring supplied the day; a day found lies within the month |
| TableDate.Days.Next | cron/src/table/fields/date.rs:406-437 | only the ring the cache names moves; each present ring reports its next day when it fits the month, the month-day ring also only when it did not wrap; the weekday ring's day is counted on from the cached day |
| TableDate.Steps | cron/src/table/fields/date.rs:407-416 | at least one ring steps; the month-day ring unless the weekday ring alone was used, the weekday ring exactly when the cache names it |
| TableDate.Months.constructor | cron/src/table/fields/date.rs:451-453 | wraps the ring given |
| TableDate.Months.FirstAfter | cron/src/table/fields/date.rs:455-457 | the field search without a carry |
| TableDate.Months.Next | cron/src/table/fields/date.rs:459-461 | the value under the cursor, flagged when it is the first slot of a started ring, and the cursor one on |
| TableDate.Months.Last | cron/src/table/fields/date.rs:463-465 | the value one slot behind the cursor |
| TableDate.Months.Reset | cron/src/table/fields/date.rs:467-469 | the cursor back at the start, not yet started |
| Parser.AstTokenOf | cron/src/schedule/parser.rs:22-35 | accepted exactly for digits, ASCII letters and the four marks; a digit or letter token carries the character itself |
| Parser.AstTokenKinds | cron/src/schedule/parser.rs:22-35 | each mark has its own token and no other character maps to it; digit tokens come exactly from digits and letter tokens from letters |
| Parser.FieldBounds | cron/src/schedule/parser.rs:45-260 | the least and greatest value of each of the six fields; keywords exist only for months and weekdays, one per allowed value |
| Parser.FirstRepeatFrom | cron/src/schedule/parser.rs:330-332 | the index found lies between the start and the end |
| Parser.FirstRepeat | cron/src/schedule/parser.rs:330-332 | the index found is at most the length |
| Parser.FirstRepeatFromMeaning | cron/src/schedule/parser.rs:330-332 | the values before the first repeat are distinct, and the value at it occurs earlier |
| Parser.FirstRepeatIffNotDistinct | cron/src/schedule/parser.rs:330-332 | a repeat is found exactly when the values are not all distinct |
| Parser.ValidateAccepts | cron/src/schedule/parser.rs:316-338 | validation passes exactly for a non-empty list of distinct values inside the field's bounds |
| Parser.DupCheck.constructor | cron/src/schedule/parser.rs:368 | the duplicate set starts empty |
| Parser.Validate | cron/src/schedule/parser.rs:316-338 | fails exactly when `ValidateError` names an error (empty, below range, above range, duplicate, in that order), with that error; a success is a fresh ring over the values in their order; the shared set is cleared first and ends holding the values scanned before the first repeat |
| Parser.FirstFieldErrorNone | cron/src/schedule/parser.rs:367-374 | no field fails exactly when each field from the given one on passes its own validation |
| Parser.ValidatedInBounds | cron/src/schedule/parser.rs:316-338 | values that passed validation are non-empty and start and end inside the field's bounds |
| Parser.BuildValidated | cron/src/schedule/parser.rs:375-383 | six validated value lists always satisfy both builders, so the build yields a valid table |
| Parser.FieldTableTryFrom | cron/src/schedule/parser.rs:366-384 | fails exactly when some field fails validation, with the first such field's error in field order; otherwise a fresh valid table, the build never failing |
| Tokens.KindOf | cron/src/schedule/parser/tokens.rs:46-60 | a field character is never Start or End; it is a Number exactly when a digit and a Letter exactly when an ASCII letter |
| Tokens.TransitionShape | cron/src/schedule/parser/tokens.rs:19-328 | nothing follows End and nothing precedes Start; only Start, a number, a letter or an asterisk may end the stream; every other kind has some successor |
| Tokens.ScanFrom | cron/src/schedule/parser/tokens.rs:76-105 | the only errors are an invalid token and a bad end |
| Tokens.KindsOf | cron/src/schedule/parser/tokens.rs:80-81 | one kind per character, each the character's own |
| Tokens.ValidChainCons | cron/src/schedule/parser/tokens.rs:107-113 | a chain is allowed exactly when its first step is and the rest of the chain is |
| Tokens.ScanFromAccepts | cron/src/schedule/parser/tokens.rs:80-102 | the scan from a position succeeds exactly when every remaining character is a token character and the chain from the previous kind through them to End is allowed at every step |
| Tokens.AllTokenCharsCons | cron/src/schedule/parser/tokens.rs:80-81 | all characters are token characters exactly when the first is and the rest are |
| Tokens.KindsOfCons | cron/src/schedule/parser/tokens.rs:80-81 | the kinds of a string are its first character's kind followed by the kinds of the rest |
| Tokens.TokenizeAccepts | cron/src/schedule/parser/tokens.rs:76-105 | tokenizing succeeds exactly when every character is a token character and Start, their kinds and End form an allowed chain; the empty input included |
| Tokens.TokensOf | cron/src/schedule/parser/tokens.rs:69-91 | Start with id 0, then one token per character, of its kind, with ids counted from 1 |
| Tokens.TableOf | cron/src/schedule/parser/tokens.rs:84-87 | the ids in the table are exactly 1 to the length, each holding its character and position |
| Tokens.PrefixStep | cron/src/schedule/parser/tokens.rs:80-91 | one more accepted character adds one token and one entry under an id not yet in the table, so the unique-id panic cannot happen |
| Tokens.RenderPrefix | cron/src/schedule/parser/tokens.rs:116-128 | the tokens of a prefix, rendered through the whole input's table, give the prefix |
| Tokens.RoundTrip | cron/src/schedule/parser/tokens.rs:116-128 | the full stream, End included, renders back to the input it came from |
| Tokens.TokenStream.constructor | cron/src/schedule/parser/tokens.rs:69-74 | only Start with id 0, and an empty table |
| Tokens.TokenStream.ToString | cron/src/schedule/parser/tokens.rs:116-128 | the table's character for every token that has one, in token order |
| Tokens.Tokenize | cron/src/schedule/parser/tokens.rs:76-105 | fails exactly as `TokenizeAccepts` describes, with an invalid token or a bad end; a success holds Start, one token per character with ids from 1, End with the largest id, and the table of characters |
| Tokens.TokenizeThenToString | cron/src/schedule/parser/tokens.rs:363-368 | `to_string` of a stream that tokenized gives its input back, for every accepted input |
| Tokens.AcceptedExamples | cron/src/schedule/parser/tokens.rs:333-368 | the inputs the crate's tests accept are accepted |
| Tokens.RejectedExamples | cron/src/schedule/parser/tokens.rs:345-362 | the inputs the crate's tests reject are rejected as invalid tokens; an input ending on a hyphen is a bad end |
| CronSchedule.Word | cron/src/lib.rs:211 | the longest whitespace-free prefix: a prefix of the input, without whitespace, followed by whitespace or the end |
| CronSchedule.Fields | cron/src/lib.rs:211 | every field is non-empty and holds no whitespace |
| CronSchedule.NoFieldsIffBlank | cron/src/lib.rs:211-213 | a string splits into no fields exactly when it is empty or all whitespace |
| CronSchedule.Range | cron/src/lib.rs:229-277 | the values from the lower bound up to, not including, the upper one, in order |
| CronSchedule.EmptyIffBlank | cron/src/lib.rs:213 | parsing fails with `Empty` exactly for an empty or all-whitespace string |
| CronSchedule.ParseErrors | cron/src/lib.rs:210-289 | more than one field, or one field not starting with `@`, is `WrongNumberOfFields`; a bare `@` or an unknown macro letter is `InvalidMacro`; `Unknown` never occurs; success exactly for one field of `@` and a macro letter |
| CronSchedule.OnlyFirstMacroLetterMatters | cron/src/lib.rs:215-220 | two single-field strings that agree on their first two characters parse alike, so "@hourly" and "@h" are the same schedule |
| CronSchedule.RangeWellFormed | cron/src/lib.rs:229-277 | a range within a field's bounds is a non-empty, increasing ring within them |
| CronSchedule.SingletonWellFormed | cron/src/lib.rs:224-228 | a single value within a field's bounds is a well-formed ring |
| CronSchedule.FieldsWellFormed | cron/src/lib.rs:19-24 | six rings each within its own field's bounds make a well-formed schedule |
| CronSchedule.MacrosWellFormed | cron/src/lib.rs:221-280 | every macro yields six non-empty, increasing rings within the field bounds |
| CronSchedule.RangeMembers | cron/src/lib.rs:229-277 | a range holds exactly the values from its lower bound below its upper one |
| CronSchedule.HourlyMacro | cron/src/lib.rs:269-279 | `@hourly` fires at second 0 and minute 0 of every hour, every day of the month, every month and every weekday |
| CronSchedule.Schedule.constructor | cron/src/lib.rs:19-24 | fresh rings over the given values, each at its start, and the two counters as given |
| CronSchedule.Schedule.NextMonth | cron/src/lib.rs:52-68 | scans one period of the month ring for the first value not above the month; if found the cursor ends two slots behind where the scan stopped, otherwise the ring is reset and the 8-bit year counter goes up by one |
| CronSchedule.ScanAtMost | cron/src/lib.rs:56-61 | finds a value exactly when one of the remaining values is not above the month, and then stops just past the first such value |
| CronSchedule.BackTwo | cron/src/lib.rs:62-63 | two slots back from one past a position is one before it, around the ring |
| CronSchedule.MonthScan | cron/src/lib.rs:56-61 | the scan's stopping offset is at most one period |
| CronSchedule.FirstAtMost | cron/src/lib.rs:57-60 | every value before the position is above the bound and the value at it, if any, is not |
| CronSchedule.FirstAtMostUnique | cron/src/lib.rs:57-60 | any position with that property is the one found |
| CronSchedule.FromStr | cron/src/lib.rs:210-289 | fails exactly when `ParseSchedule` does, with its error; a success holds six valid rings over the macro's values, each at its start, unmoved and with stride 1, and the macro's counters |
| Jobs.NextTime | job_scheduler/src/career.rs:160-198 | a time yielded is the first upcoming time not yet consumed, and consuming it drops exactly that time; a schedule never grows |
| Jobs.PrefixBefore | job_scheduler/src/job.rs:58-61 | the longest prefix of the times whose seconds all come before the end's: a prefix, every time in it before the end, the next one not |
| Jobs.RemainingInfinite | job_scheduler/src/job.rs:54 | with no limit a schedule yields every upcoming time |
| Jobs.RemainingFinite | job_scheduler/src/job.rs:55-57 | `take(n)` yields the first `n` upcoming times, or all of them when there are fewer |
| Jobs.RemainingTakeWhile | job_scheduler/src/job.rs:58-61 | `take_while` yields the times before the end date, up to the first that is not |
| Jobs.RemainingCondition | job_scheduler/src/career.rs:160-172 | the filtering iterator yields the same times up to its first `None` |
| Jobs.Head | job_scheduler/src/job.rs:51 | the first upcoming time, absent exactly when there is none |
| Jobs.Tail | job_scheduler/src/job.rs:48-51 | the upcoming times after the first |
| Jobs.SaturatingPred | job_scheduler/src/job.rs:56 | one less, and 0 for 0 |
| Jobs.WithLimit | job_scheduler/src/job.rs:41-64 | the job keeps its id and is first due at the first upcoming time |
| Jobs.CareerWithLimit | job_scheduler/src/career.rs:247-273 | the job keeps its id and is first due at the first upcoming time |
| Jobs.WithLimitTimes | job_scheduler/src/job.rs:41-64 | a new job is due at every upcoming time with no limit; at the first `n` with `NumTimes(n)`, and at the first one for `NumTimes(0)`; with an end date at the first time and then the later ones before the end |
| Jobs.CareerWithLimitTimes | job_scheduler/src/career.rs:247-273 | a new job of career.rs is due at exactly the times a job of job.rs with the same limit is |
| Jobs.Advance | job_scheduler/src/job.rs:77-81 | the job keeps its id |
| Jobs.AdvanceDropsFirst | job_scheduler/src/job.rs:77-81 | advancing a due job removes exactly its next time from the times it is due at |
| Jobs.CmpIsTotalPreorder | job_scheduler/src/job.rs:146-160 | the order is antisymmetric in its answers and transitive, so a heap can use it |
| Jobs.FinishedFirst | job_scheduler/src/job.rs:104-160 | a finished job sorts before every due job, under both comparisons |
| Jobs.PartialMinIsMin | job_scheduler/src/job.rs:104-160 | a job that no other sorts before under `partial_cmp`, the comparison the heap uses, is a least job under `cmp` |
| Jobs.CmpRefinedByPartialCmp | job_scheduler/src/job.rs:104-160 | the two comparisons agree wherever `cmp` sees a difference; where it sees two due jobs at one time as equal, `partial_cmp` orders them by id |
| Jobs.MinExists | job_scheduler/src/job.rs:371 | a non-empty heap has a job to pop |
| Jobs.MinimalAgree | job_scheduler/src/job.rs:146-160 | every job the heap may pop is due at the same time, and when that is no time, it is the same finished job |
| Jobs.EarliestMeaning | job_scheduler/src/job.rs:352-353 | the job popped is due at the earliest time, and a due earliest job means no job is finished or due sooner |
| JobBoard.CreateMinHeapWithSize | job_scheduler/src/job.rs:419-423 | every id below the size, once each, and no other |
| JobBoard.Freed | job_scheduler/src/job.rs:315-322 | exactly the ids marked as dropped that no running job holds |
| JobBoard.LeastIdExists | job_scheduler/src/job.rs:326-327 | a non-empty heap of ids has a least one to pop |
| JobBoard.Board.constructor | job_scheduler/src/job.rs:284-302 | ids 0 to capacity - 1 are free and the highest id is capacity - 1, none for capacity 0; no jobs, no marks, no time noted |
| JobBoard.Board.RecycleIds | job_scheduler/src/job.rs:314-323 | every dropped id no running job holds loses its mark and joins the free ids; the other marks stay; a poisoned lock changes nothing |
| JobBoard.Board.TakeId | job_scheduler/src/job.rs:325-338 | the least free id when there is one; else one past the highest id, wrapping in 32 bits, which becomes the highest; else 0 |
| JobBoard.Board.ScheduleWithLimit | job_scheduler/src/job.rs:304-347 | recycles first, then takes the least free id, else the next id after the highest, else 0; the new job with that id and limit joins the heap |
| JobBoard.Board.PeekNext | job_scheduler/src/job.rs:352-359 | nothing for an empty heap; the earliest time when the first job is due; for a finished first job the given time less half a second, noted in `now` |
| JobBoard.Board.TryRunNext | job_scheduler/src/job.rs:370-399 | `NoMoreJobs` on an empty heap; otherwise it pops a least job: a marked one is dropped with `ScheduledForDeletion`, a finished one dropped with `JobFinished`, both leaving a `true` mark; any other is advanced, pushed back and its id returned |
| JobBoard.Board.Deschedule | job_scheduler/src/job.rs:404-413 | a job with no mark gets a `false` mark and succeeds; otherwise `AlreadyScheduled` and nothing changes |
| SimpleMaps.Resized | job_scheduler/src/utils/map.rs:26 | exactly the given number of slots, the old ones kept below it and new ones empty |
| SimpleMaps.Get | job_scheduler/src/utils/map.rs:35-37 | a value exactly for an existing, occupied slot, and then that slot's |
| SimpleMaps.InsertSlots | job_scheduler/src/utils/map.rs:25-28 | exactly `k + 1` slots, the value in slot `k`, and the old values below `k` |
| SimpleMaps.RemoveSlots | job_scheduler/src/utils/map.rs:30-33 | slot `k`, if it exists, emptied; the length and every other slot unchanged |
| SimpleMaps.InsertTruncates | job_scheduler/src/utils/map.rs:25-28 | after inserting at `k` the keys above `k` are gone, occupied or not, and only keys up to `k` are contained |
| SimpleMaps.RemovedKeyStillContained | job_scheduler/src/utils/map.rs:21-33 | a removed key has no value yet `contains_key` still holds for it |
| SimpleMaps.OccupiedFrom | job_scheduler/src/utils/map.rs:47-63 | no more pairs than slots scanned |
| SimpleMaps.OccupiedFromMeaning | job_scheduler/src/utils/map.rs:47-63 | every pair is an occupied slot with its key, every occupied slot appears, and keys strictly increase |
| SimpleMaps.EntryOf | job_scheduler/src/utils/map.rs:97-109 | the entry is for the key asked and is occupied exactly when `contains_key` holds |
| SimpleMaps.SimpleMap.constructor | job_scheduler/src/utils/map.rs:11-95 | no slots, whatever the capacity |
| SimpleMaps.SimpleMap.GetValue | job_scheduler/src/utils/map.rs:111-113 | the map's value for the key, as `Get` says |
| SimpleMaps.SimpleMap.Insert | job_scheduler/src/utils/map.rs:123-125 | returns the value the slot held and leaves the slots `InsertSlots` describes |
| SimpleMaps.SimpleMap.Remove | job_scheduler/src/utils/map.rs:131-133 | returns the value the slot held and leaves the slots `RemoveSlots` describes |
| SimpleMaps.SimpleMap.SetExisting | job_scheduler/src/utils/map.rs:39-117 | a write through `get_mut` to an occupied slot replaces that value and nothing else |
| SimpleMaps.SimpleMap.Clear | job_scheduler/src/utils/map.rs:127-129 | no slots remain |
| SimpleMaps.SimpleMap.IterMut | job_scheduler/src/utils/map.rs:135-137 | the occupied slots with their keys, as `OccupiedFromMeaning` describes |
| SimpleMaps.SimpleMap.GetEntry | job_scheduler/src/utils/map.rs:97-109 | the entry `EntryOf` gives for the current slots |
| SimpleMaps.SimpleMap.OrInsert | job_scheduler/src/utils/map.rs:178-242 | an occupied entry yields its value and changes nothing; a vacant one inserts the default and yields it |
| SimpleMaps.SimpleMap.AndModify | job_scheduler/src/utils/map.rs:192-203 | an occupied entry's value goes through the function; a vacant entry changes nothing; the entry comes back as it was |
| SimpleMaps.EmptiedSlotIsOccupiedEntry | job_scheduler/src/utils/map.rs:21-109 | after a removal the key's entry is occupied although its slot is empty |
| Career.FinishedJobAfterOtherDeschedule | job_scheduler/src/career.rs:76-100 | after descheduling id 1, the finished job 0 finds an occupied entry with no value, which is the panic case |
| Career.Board.constructor | job_scheduler/src/career.rs:25-37 | no jobs, no marks, the counter at 0 and no time noted |
| Career.Board.NextId | job_scheduler/src/career.rs:63-67 | returns the counter, which the call leaves as it was |
| Career.Board.Schedule | job_scheduler/src/career.rs:39-53 | the new job, with its limit, joins the heap under id 0, since the counter never moves |
| Career.Board.PeekNext | job_scheduler/src/career.rs:55-141 | nothing for an empty heap; the earliest time when the first job is due; for a finished first job the given time less the padding, noted in `now` |
| Career.Board.TryRunNextAsWritten | job_scheduler/src/career.rs:69-91 | on inputs that do not panic: nothing on an empty heap; otherwise a least job is popped; a marked one is dropped with its mark set; a finished, unmarked one is dropped and marked through `insert`; any other is advanced, pushed back and its id returned |
| Career.Board.TryRunNext | job_scheduler/src/career.rs:69-91 | the same outcomes for every input, the finished job marked `true` by a plain insert; a job that did not run always ends with a `true` mark |
| Career.Board.Deschedule | job_scheduler/src/career.rs:93-100 | succeeds exactly when `contains_key` is false, inserting a `false` mark; otherwise `AlreadyScheduled` with the id, and nothing changes |
| Career.Board.Clear | job_scheduler/src/career.rs:102-107 | no jobs, no marks, the counter at 0 and no time noted |
| Signal.Decide | job_scheduler/src/scheduler/signal.rs:40-48 | over the board with the corrected `try_run_next`: for a first job due later: sleep the difference and leave the board alone; otherwise the least job is popped, and a run of its id comes back exactly when it had no mark and was due, with the job advanced and pushed back; else nothing, with the job dropped and marked `true` |
| Signal.Determine | job_scheduler/src/scheduler/signal.rs:35-52 | over the corrected board: an hour's sleep for an empty board; a sleep until the first job's time when it is still to come, with nothing changed; otherwise the least job, due by `now` if it has a time, is popped, and a run of its id comes back exactly when it had no mark and a time, with the job advanced and pushed back and the marks unchanged; else nothing, with the job dropped and marked `true` |
| Signal.DetermineState | job_scheduler/src/scheduler/signal.rs:175-185 | over the corrected board, the loop ends with a decision and only drops jobs: an hour's sleep for an empty board, or a positive sleep ending at the remaining first job's time; a run of id 0 hands over a job of the starting board that is due by `now` and unmarked, and the final board holds its advanced self in its place among the starting board's jobs |
| Signal.ActiveInverted | job_scheduler/src/scheduler/signal.rs:67-71 | `Stoplight::active` holds exactly when the light is not starting, running or pausing, the opposite of what `Signal::active` documents |
| Signal.Phase | job_scheduler/src/scheduler/signal.rs:56-65 | a phase below 4, and 0 exactly for `Stopped` |
| Signal.WalkPhases | job_scheduler/src/scheduler/signal.rs:89-222 | along any history of moves from `Stopped`, the `i`th light is in phase `i % 4` |
| Signal.Signal.constructor | job_scheduler/src/scheduler/signal.rs:83-87 | a new signal is stopped |
| Signal.Signal.Start | job_scheduler/src/scheduler/signal.rs:89-114 | a stopped light goes through `Starting` to `Running` with the new handle, stopper and waker; any other light stays as it is |
| Signal.Signal.Stop | job_scheduler/src/scheduler/signal.rs:191-222 | a running light goes through `Pausing` to `Stopped`, the stop signal going out through its stopper; any other light stays as it is and nothing is sent |
| Signal.Signal.Active | job_scheduler/src/scheduler/signal.rs:228-231 | true exactly when the clock is not starting, running or pausing |
| Signal.Signal.Wake | job_scheduler/src/scheduler/signal.rs:240-253 | the wake signal goes through the running light's waker, and nowhere when the light is not running |
| Signal.Signal.ActiveAfterWholeCycles | job_scheduler/src/scheduler/signal.rs:224-231 | `active` holds exactly after a whole number of start-stop cycles, the stopped states |

## Left out

- Threads and async code are left out as concurrency:
  - `job_scheduler/src/scheduler.rs`, with its OS threads, `Condvar` and channels;
  - `job_scheduler/src/runner.rs`, with tokio spawn, select and abort;
  - the async clock loop of `job_scheduler/src/scheduler/signal.rs:116-163`.
  Only the board and the decisions they drive are modelled.
- `job_scheduler/src/lib.rs` (`AsyncFn` trait objects, the peekable receiver): commands are opaque and a job carries no command.
- `Stoplight` task handles, channel ends and the sends themselves are opaque tokens. `wake` returns the waker it sends through. Send failures and their logging are not modelled.
- Wall-clock reads (`Utc::now`) are the parameter `now`. A `peek_next` followed by `determine` reads one `now` for both, where the source reads the clock twice.
- chrono time zones, `DateTime` and `NaiveDate` are replaced by integer milliseconds in UTC and by year, month and day numbers.
- The `upcoming_owned` iterator of a `Schedule` is a finite list of upcoming times given to the job. `cron/src/schedule/iterator.rs` is not part of this model.
- A poisoned lock on the set of running jobs (`job.rs:314-323`) is `None`, and nothing is recycled then.
- The `capacity` of `SimpleMap::with_capacity` and `JobBoard::with_capacity` in `career.rs` is only an allocation hint, and is ignored. `values_mut`, `capacity`, `or_insert_with`, `or_default` and the `get` methods of the entries are not modelled. Indexing panics that they share with modelled operations are preconditions there.
- `u8` and `u32` overflow wraps as in a release build, for example `compute_cache`'s `month - days_in_month` and a `u32` id past the highest. A debug build panics there instead.
- Jobs.CareerWithLimit: `career.rs` matches `Option<Limit>` and has no meaning for a `Some` that holds no limit, so a requires excludes that input.
- `todo!()` and `unimplemented!()` bodies have no behaviour to model:
  - `Time::next` and `Date::next` of `cron/src/table/fields.rs`;
  - `FieldTable::next` of `cron/src/table.rs`;
  - `Days::first_after` and `FieldTable::after` of `cron/src/schedule/fields.rs`;
  - `cron/src/schedule/fields/inner.rs:231-233`;
  - all of `cron/src/schedule/table.rs`;
  - the 5- and 6-field parse of `Schedule::from_str`, which a requires excludes;
  - `CronSubExpr::from_str`, so `FieldTable::try_from` takes the six parsed value lists as parameters.
- The `TimeBuilder` of `cron/src/schedule/table/fields.rs:726-780` is modelled by its own `Build`. The `with_*` setters of `cron/src/table.rs:98-156` delegate to the half-builders and are modelled by the `TimeBuilder` and `DateBuilder` setters.
- `next` of `Seconds`, `Minutes` and `Hours` in `cron/src/table/fields/time.rs` is the ring helper `CronField`'s `next`, with no separate member.
- `MONTH_TO_DAYS_NO_LEAP` is not among the files modelled. It is taken to be the usual table of common-year month lengths.
- The `ParseError` enum is not among the files modelled. Its variants are those that `cron/src/schedule/parser.rs` and `tokens.rs` construct.
- The `CopyRing` of `schedule::iterator` is not among the files modelled. The `schedule/*` copies use the ring of `copy_ring.rs`, with `peek` as `peek_next`.
- Test files are evidence only, and their random generators are not modelled. The values they pin appear as example lemmas.
- Logging and debug output are left out.
- TableFields.Date.SearchMonth: step 3 of `Date::first_after` (`cron/src/table/fields.rs:181-256`) does not compile as written. It calls `days.first_after` with four arguments, matches on a `NextDay` type that does not exist, and writes cache fields that `DayCache` does not have. The model runs `DaysInner::first_after` of `cron/src/table/fields/date.rs:300-350` in its place, with five arguments and the cache updates that function makes itself. The inline cache updates of step 3 are not modelled, for example the weekday that `month_wins` computes.
- Signal.Decide, Signal.Determine and Signal.DetermineState run over the corrected `Career.Board.TryRunNext`. `determine` calls `try_run_next` as written, which panics on the input of the second finding. On that input these contracts promise a dropped job marked `true`. The loop of `determine_state` does not keep `Career.RunsWithoutPanic`: marking a finished job inserts at its id, and that can leave empty slots below it. So the clock is not modelled over the as-written board.
- Ring.BinarySearch: returns the first of several equal values. std's `binary_search` may return any of them. On a ring with a repeated value, `binary_search_or_greater` may therefore leave the cursor on another copy of that value. The value and the flag it returns are the same either way (`Ring.SearchFindsLeastAtLeast`). The rings the parser builds never repeat a value, since `validate` rejects duplicates.
- The `Months` and `time` modules of `cron/src/schedule/table/fields.rs:392-586` are the code of `cron/src/schedule/fields/inner.rs` repeated, and the same members model both. `ScheduleInner.SecondsFirstAfter` stands for `Seconds::first_after`. `ScheduleInner.CarriedFirstAfter` stands for `first_after` of `Minutes`, `Hours` and `Months`. `ScheduleInner.NextWithCarry` stands for their `next`. The constructors only wrap a ring.
- TableFields.Date.FirstAfter: states that a date found is a calendar date in an allowed month of the year the search reached, and that the search stops within four years of the start. It does not state that the day is one the day rings allow, nor that the date is the earliest one.
- Table.FieldTable.After: states that the time is the time search's answer and that the date is a calendar date in an allowed month. It does not state that the day matches the day rings, nor that the moment is the earliest one.

## Findings

The date search follows the code's day count. The corrected count, `DaysUntilMonthStart`, is defined beside it with its property proved.

| source | as written | input that shows it | evidently intended | confidence | as-written member | corrected member |
|---|---|---|---|---|---|---|
| cron/src/table/fields.rs:116-162 | `days_until_first_of_next_month` counts the months strictly between start and target one short, through `calc_months_passed_exclusive`, and ignores the leap days of the first and last years | from 15 January 2024 to 1 March 2024 it gives 17 days, so the search of March starts on a Thursday instead of Friday | the distance to the first of the target month, 46 days | high, not executed | TableFields.MarchSearchStartsOnWrongWeekday | TableFields.DaysUntilMonthStartIsDistance |
| job_scheduler/src/career.rs:76-83 | a finished job whose id has an emptied slot goes through `entry(id).and_modify(..)`; the entry is `Occupied` because `contains_key` only checks the length, and `get_mut` then indexes a `None` slot and panics | deschedule id 1 on a fresh board, then run job 0 after its only time | the finished job is dropped and marked `true` | high, not executed | Career.FinishedJobAfterOtherDeschedule | Career.Board.TryRunNext |
