/**
 * The `JobBoard` of `job_scheduler/src/career.rs`: a min-heap of jobs
 * ordered by `cmp`, the deletion marks in a `SimpleMap<bool>` (`false`:
 * descheduled, waiting to be dropped; `true`: dropped), and the counter
 * `next_id`.
 *
 * `next_id` hands out the counter but throws away the incremented value, so
 * the counter stays 0 and every job is scheduled with id 0.  The board's
 * invariant records this.
 */
module Career {
  import opened Wrappers
  import opened Jobs
  import opened SimpleMaps

  datatype DescheduleError = AlreadyScheduled(id: nat) | LockPoisoned(message: string)

  /** `STARTING_AVAILIABLE_IDS`: the capacity `new` uses. */
  const STARTING_AVAILABLE_IDS: nat := 4

  /** `padding`: the half second `peek_next` steps back from now, in milliseconds. */
  const PADDING: int := 500

  const USIZE_MAX: nat := 0xFFFF_FFFF_FFFF_FFFF

  /**
   * `try_run_next` as written panics when the job it pops is finished and
   * unmarked, but its key still has a slot: `entry` calls that slot
   * occupied and `and_modify` indexes its missing value.  This holds when
   * no job the heap may pop is in that position.
   */
  ghost predicate RunsWithoutPanic(marks: seq<Option<bool>>, heap: multiset<Job>)
  {
    forall j :: IsMin(j, heap) && j.nextExecTime.None? && Get(marks, j.id).None? ==> !HasKey(marks, j.id)
  }

  /**
   * Descheduling id 1 on a fresh board leaves an empty slot 0.  Once the
   * only job, id 0 and limited to one run, has run, it is finished, and
   * `try_run_next` pops it with its key contained but unmarked: it panics.
   */
  lemma FinishedJobAfterOtherDeschedule()
    ensures var marks := InsertSlots([], 1, false);
      var job := Advance(CareerWithLimit(0, [5000], Some(NumTimes(1))));
      job.nextExecTime.None? && IsMin(job, multiset{job}) &&
      EntryOf(marks, 0).Occupied? && marks[0].None? &&
      !RunsWithoutPanic(marks, multiset{job})
  {
    var marks := InsertSlots([], 1, false);
    var job := Advance(CareerWithLimit(0, [5000], Some(NumTimes(1))));
    assert job.nextExecTime.None?;
    assert IsMin(job, multiset{job});
    assert Get(marks, 0).None?;
  }

  class Board {
    var now: Option<int>
    var nextId: nat
    var activeJobs: multiset<Job>
    const scheduledForDeletion: SimpleMap<bool>

    /** The counter never moves from 0, and so every job on the heap has id 0. */
    ghost predicate Valid()
      reads this
    {
      nextId == 0 && forall j :: j in activeJobs ==> j.id == 0
    }

    /** `with_capacity` and `new`: no jobs, no marks, the counter at 0, no time noted. */
    constructor (capacity: nat)
      ensures Valid() && fresh(scheduledForDeletion)
      ensures now.None? && nextId == 0 && activeJobs == multiset{} && scheduledForDeletion.inner == []
    {
      now := None;
      nextId := 0;
      activeJobs := multiset{};
      scheduledForDeletion := new SimpleMap(capacity);
    }

    /**
     * `next_id`: returns the counter.  The incremented value is computed,
     * checked for overflow (a panic at `usize::MAX`) and discarded.
     */
    method NextId() returns (id: nat)
      requires nextId < USIZE_MAX
      ensures id == nextId
    {
      id := nextId;
    }

    /** `schedule`: the new job takes `next_id`, which is always 0, and goes onto the heap. */
    method Schedule(upcoming: seq<int>, limit: Option<Limit>) returns (id: nat)
      requires Valid() && limit != Some(NoLimit)
      modifies this`activeJobs
      ensures Valid() && id == 0
      ensures activeJobs == old(activeJobs) + multiset{CareerWithLimit(id, upcoming, limit)}
    {
      id := NextId();
      activeJobs := activeJobs + multiset{CareerWithLimit(id, upcoming, limit)};
    }

    /**
     * `peek_next`: the time the first job is due; for a finished first job,
     * the current time less the padding, which it also notes in `now`.
     */
    method PeekNext(clockNow: int) returns (r: Option<int>)
      modifies this`now
      ensures |activeJobs| == 0 ==> r.None? && now == old(now)
      ensures |activeJobs| > 0 && Earliest(activeJobs).Some? ==> r == Earliest(activeJobs) && now == old(now)
      ensures |activeJobs| > 0 && Earliest(activeJobs).None? ==> r == Some(clockNow - PADDING) && now == r
    {
      if |activeJobs| == 0 {
        return None;
      }
      MinExists(activeJobs);
      var job :| IsMin(job, activeJobs);
      EarliestMeaning(activeJobs);
      if job.nextExecTime.Some? {
        r := job.nextExecTime;
      } else {
        now := Some(clockNow - PADDING);
        r := now;
      }
    }

    /**
     * `try_run_next` as written: pops the first job.  A job with a mark is
     * dropped and its mark set to `true`; a finished job is dropped and
     * marked through `entry(id).and_modify(..).or_insert(true)`; any other
     * job is advanced, pushed back, and its id returned.
     */
    method TryRunNextAsWritten() returns (r: Option<nat>, ghost popped: Job)
      requires Valid() && RunsWithoutPanic(scheduledForDeletion.inner, activeJobs)
      modifies this`activeJobs, scheduledForDeletion
      ensures Valid()
      ensures |old(activeJobs)| == 0 ==> r.None? && activeJobs == old(activeJobs) && scheduledForDeletion.inner == old(scheduledForDeletion.inner)
      ensures |old(activeJobs)| > 0 ==> IsMin(popped, old(activeJobs))
      ensures |old(activeJobs)| > 0 && Get(old(scheduledForDeletion.inner), popped.id).Some? ==>
        r.None? && activeJobs == old(activeJobs) - multiset{popped} &&
        scheduledForDeletion.inner == old(scheduledForDeletion.inner)[popped.id := Some(true)]
      ensures |old(activeJobs)| > 0 && Get(old(scheduledForDeletion.inner), popped.id).None? && popped.nextExecTime.None? ==>
        r.None? && activeJobs == old(activeJobs) - multiset{popped} &&
        scheduledForDeletion.inner == InsertSlots(old(scheduledForDeletion.inner), popped.id, true)
      ensures |old(activeJobs)| > 0 && Get(old(scheduledForDeletion.inner), popped.id).None? && popped.nextExecTime.Some? ==>
        r == Some(popped.id) &&
        activeJobs == old(activeJobs) - multiset{popped} + multiset{Advance(popped)} &&
        scheduledForDeletion.inner == old(scheduledForDeletion.inner)
    {
      popped := Job(0, None, Infinite([]));
      if |activeJobs| == 0 {
        return None, popped;
      }
      MinExists(activeJobs);
      var job :| IsMin(job, activeJobs);
      popped := job;
      activeJobs := activeJobs - multiset{job};
      if scheduledForDeletion.GetValue(job.id).Some? {
        scheduledForDeletion.SetExisting(job.id, true);
        r := None;
      } else if job.nextExecTime.None? {
        var entry := scheduledForDeletion.GetEntry(job.id);
        entry := scheduledForDeletion.AndModify(entry, _ => true);
        var _ := scheduledForDeletion.OrInsert(entry, true);
        r := None;
      } else {
        activeJobs := activeJobs + multiset{Advance(job)};
        r := Some(job.id);
      }
    }

    /**
     * `try_run_next` with the finished job marked by `insert(id, true)`, as
     * job.rs does: the same outcome wherever the code as written does not
     * panic, and a `true` mark for the finished job in every case.
     */
    method TryRunNext() returns (r: Option<nat>, ghost popped: Job)
      requires Valid()
      modifies this`activeJobs, scheduledForDeletion
      ensures Valid()
      ensures |old(activeJobs)| == 0 ==> r.None? && activeJobs == old(activeJobs) && scheduledForDeletion.inner == old(scheduledForDeletion.inner)
      ensures |old(activeJobs)| > 0 ==> IsMin(popped, old(activeJobs))
      ensures |old(activeJobs)| > 0 && Get(old(scheduledForDeletion.inner), popped.id).Some? ==>
        r.None? && activeJobs == old(activeJobs) - multiset{popped} &&
        scheduledForDeletion.inner == old(scheduledForDeletion.inner)[popped.id := Some(true)]
      ensures |old(activeJobs)| > 0 && Get(old(scheduledForDeletion.inner), popped.id).None? && popped.nextExecTime.None? ==>
        r.None? && activeJobs == old(activeJobs) - multiset{popped} &&
        scheduledForDeletion.inner == InsertSlots(old(scheduledForDeletion.inner), popped.id, true)
      ensures |old(activeJobs)| > 0 && Get(old(scheduledForDeletion.inner), popped.id).None? && popped.nextExecTime.Some? ==>
        r == Some(popped.id) &&
        activeJobs == old(activeJobs) - multiset{popped} + multiset{Advance(popped)} &&
        scheduledForDeletion.inner == old(scheduledForDeletion.inner)
      ensures |old(activeJobs)| > 0 && r.None? ==> Get(scheduledForDeletion.inner, popped.id) == Some(true)
    {
      popped := Job(0, None, Infinite([]));
      if |activeJobs| == 0 {
        return None, popped;
      }
      MinExists(activeJobs);
      var job :| IsMin(job, activeJobs);
      popped := job;
      activeJobs := activeJobs - multiset{job};
      if scheduledForDeletion.GetValue(job.id).Some? {
        scheduledForDeletion.SetExisting(job.id, true);
        r := None;
      } else if job.nextExecTime.None? {
        var _ := scheduledForDeletion.Insert(job.id, true);
        r := None;
      } else {
        activeJobs := activeJobs + multiset{Advance(job)};
        r := Some(job.id);
      }
    }

    /**
     * `deschedule`: a key `contains_key` does not know gets a `false` mark
     * (through `insert`, which drops the slots above it); any other key
     * fails with `AlreadyScheduled`, even one whose slot is empty.
     */
    method Deschedule(jobId: nat) returns (r: Result<(), DescheduleError>)
      modifies scheduledForDeletion
      ensures r.Ok? <==> !HasKey(old(scheduledForDeletion.inner), jobId)
      ensures r.Ok? ==> scheduledForDeletion.inner == InsertSlots(old(scheduledForDeletion.inner), jobId, false)
      ensures r.Err? ==> r.error == AlreadyScheduled(jobId) && scheduledForDeletion.inner == old(scheduledForDeletion.inner)
    {
      if !scheduledForDeletion.ContainsKey(jobId) {
        var _ := scheduledForDeletion.Insert(jobId, false);
        r := Ok(());
      } else {
        r := Err(AlreadyScheduled(jobId));
      }
    }

    /** `clear`: no jobs, no marks, the counter at 0, no time noted. */
    method Clear()
      modifies this, scheduledForDeletion
      ensures Valid()
      ensures activeJobs == multiset{} && scheduledForDeletion.inner == [] && nextId == 0 && now.None?
    {
      activeJobs := multiset{};
      nextId := 0;
      now := None;
      scheduledForDeletion.Clear();
    }
  }
}
