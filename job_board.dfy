/**
 * The `JobBoard` of `job_scheduler/src/job.rs`: a min-heap of jobs ordered
 * by `cmp`, a min-heap of free job ids, the highest id handed out so far,
 * and the deletion marks (`false`: descheduled, waiting to be dropped;
 * `true`: dropped, its id may be recycled once it is not running).
 *
 * Job ids are `u32`.  The set of running jobs, which the runner keeps
 * behind a mutex, comes in as a parameter; `None` stands for a poisoned
 * lock.
 */
module JobBoard {
  import opened Wrappers
  import opened Arith
  import opened Jobs

  datatype DescheduleError = AlreadyScheduled | JobDoesNotExist | General

  datatype JobError = NoMoreJobs | JobFinished | ScheduledForDeletion

  /** `STARTING_AVAILIABLE_IDS`: the capacity `new` uses. */
  const STARTING_AVAILABLE_IDS: nat := 16

  /** `create_min_heap_with_size`: every id below `size`, once each. */
  method CreateMinHeapWithSize(size: nat) returns (heap: multiset<nat>)
    ensures forall id: nat :: heap[id] == if id < size then 1 else 0
  {
    heap := multiset{};
    var num := 0;
    while num < size
      invariant num <= size
      invariant forall id: nat :: heap[id] == if id < num then 1 else 0
    {
      heap := heap[num := 1];
      num := num + 1;
    }
  }

  /** The marked-and-dropped ids no running job holds: the ones `retain` gives back. */
  function Freed(marks: map<nat, bool>, running: set<nat>): (freed: set<nat>)
    ensures forall id :: id in freed <==> id in marks && marks[id] && id !in running
  {
    set id | id in marks && marks[id] && id !in running
  }

  /** `m` is the least id of `ids`, the one a min-heap of ids pops. */
  predicate IsLeast(m: nat, ids: multiset<nat>)
  {
    m in ids && forall x :: x in ids ==> m <= x
  }

  /** A non-empty heap of ids has a least one. */
  lemma {:induction false} LeastIdExists(ids: multiset<nat>)
    requires |ids| > 0
    ensures exists m :: IsLeast(m, ids)
    decreases |ids|
  {
    var x :| x in ids;
    var rest := ids - multiset{x};
    assert ids == rest + multiset{x};
    if |rest| == 0 {
      assert ids == multiset{x};
      assert IsLeast(x, ids);
    } else {
      LeastIdExists(rest);
      var m :| IsLeast(m, rest);
      var least := if x < m then x else m;
      forall y | y in ids
        ensures least <= y
      {
        if y != x {
          assert y in rest;
        }
      }
      assert IsLeast(least, ids);
    }
  }

  class Board {
    var now: Option<int>
    var highestId: Option<nat>
    var availableIds: multiset<nat>
    var activeJobs: multiset<Job>
    var scheduledForDeletion: map<nat, bool>

    /** Ids are `u32`. */
    ghost predicate Valid()
      reads this
    {
      (highestId.Some? ==> highestId.value < U32_MODULUS) &&
      (forall id :: id in availableIds ==> id < U32_MODULUS)
    }

    /**
     * `with_capacity`: ids 0 to `capacity - 1` are free and the highest id
     * is `capacity - 1`, or none for a capacity of 0; no jobs, no marks.
     */
    constructor (capacity: nat)
      requires capacity < U32_MODULUS
      ensures Valid() && now.None?
      ensures highestId == (if capacity > 0 then Some(capacity - 1) else None)
      ensures forall id: nat :: availableIds[id] == if id < capacity then 1 else 0
      ensures activeJobs == multiset{} && scheduledForDeletion == map[]
    {
      var ids := CreateMinHeapWithSize(capacity);
      now := None;
      highestId := if capacity > 0 then Some(capacity - 1) else None;
      availableIds := ids;
      activeJobs := multiset{};
      scheduledForDeletion := map[];
    }

    /**
     * The `retain` of `schedule_with_limit`: every id marked as dropped that
     * no running job holds loses its mark and goes back to the free ids.
     * When the lock is poisoned nothing happens.
     */
    method RecycleIds(running: Option<set<nat>>)
      modifies this`scheduledForDeletion, this`availableIds
      ensures var freed := if running.Some? then Freed(old(scheduledForDeletion), running.value) else {};
        scheduledForDeletion == (map id | id in old(scheduledForDeletion) && id !in freed :: old(scheduledForDeletion)[id]) &&
        availableIds == old(availableIds) + multiset(freed)
    {
      if running.Some? {
        var freed := Freed(scheduledForDeletion, running.value);
        scheduledForDeletion := map id | id in scheduledForDeletion && id !in freed :: scheduledForDeletion[id];
        availableIds := availableIds + multiset(freed);
      }
    }

    /**
     * The id a new job takes: the least free id, else the one after the
     * highest (in 32 bits, wrapping), else 0.
     */
    method TakeId() returns (jid: nat)
      modifies this`availableIds, this`highestId
      ensures |old(availableIds)| > 0 ==>
        IsLeast(jid, old(availableIds)) && availableIds == old(availableIds) - multiset{jid} &&
        highestId == old(highestId)
      ensures |old(availableIds)| == 0 ==>
        availableIds == old(availableIds) &&
        jid == (if old(highestId).Some? then U32(old(highestId).value + 1) else 0) &&
        highestId == Some(jid)
    {
      if |availableIds| > 0 {
        LeastIdExists(availableIds);
        jid :| IsLeast(jid, availableIds);
        availableIds := availableIds - multiset{jid};
      } else if highestId.Some? {
        jid := U32(highestId.value + 1);
        highestId := Some(jid);
      } else {
        jid := 0;
        highestId := Some(0);
      }
    }

    /**
     * `schedule_with_limit`: recycles the ids of dropped jobs, then the new
     * job takes an id and goes onto the heap.
     */
    method ScheduleWithLimit(running: Option<set<nat>>, upcoming: seq<int>, limit: Limit) returns (jid: nat)
      requires Valid()
      requires running.Some? ==> forall id :: id in scheduledForDeletion ==> id < U32_MODULUS
      modifies this
      ensures Valid() && now == old(now)
      ensures var freed := if running.Some? then Freed(old(scheduledForDeletion), running.value) else {};
        var free := old(availableIds) + multiset(freed);
        scheduledForDeletion == (map id | id in old(scheduledForDeletion) && id !in freed :: old(scheduledForDeletion)[id]) &&
        (|free| > 0 ==> IsLeast(jid, free) && availableIds == free - multiset{jid} && highestId == old(highestId)) &&
        (|free| == 0 ==>
          availableIds == multiset{} &&
          jid == (if old(highestId).Some? then U32(old(highestId).value + 1) else 0) &&
          highestId == Some(jid))
      ensures activeJobs == old(activeJobs) + multiset{WithLimit(jid, upcoming, limit)}
    {
      RecycleIds(running);
      jid := TakeId();
      activeJobs := activeJobs + multiset{WithLimit(jid, upcoming, limit)};
    }

    /**
     * `peek_next`: the time the first job is due; for a finished first job,
     * the current time less half a second, which it also notes in `now`.
     */
    method PeekNext(clockNow: int) returns (r: Option<int>)
      modifies this`now
      ensures |activeJobs| == 0 ==> r.None? && now == old(now)
      ensures |activeJobs| > 0 && Earliest(activeJobs).Some? ==> r == Earliest(activeJobs) && now == old(now)
      ensures |activeJobs| > 0 && Earliest(activeJobs).None? ==> r == Some(clockNow - 500) && now == r
    {
      if |activeJobs| == 0 {
        return None;
      }
      MinExists(activeJobs);
      var job :| IsMin(job, activeJobs);
      EarliestMeaning(activeJobs);
      if job.nextExecTime.Some? {
        r := job.nextExecTime;
      } else {
        now := Some(clockNow - 500);
        r := now;
      }
    }

    /**
     * `try_run_next`: pops the first job.  A job with a deletion mark is
     * dropped and its mark set; a finished job is dropped and marked; any
     * other job is advanced, pushed back, and its id returned.
     */
    method TryRunNext() returns (r: Result<nat, JobError>, ghost popped: Job)
      modifies this
      ensures now == old(now) && highestId == old(highestId) && availableIds == old(availableIds)
      ensures |old(activeJobs)| == 0 ==> r == Err(NoMoreJobs) && unchanged(this)
      ensures |old(activeJobs)| > 0 ==> IsMin(popped, old(activeJobs))
      ensures r == Err(ScheduledForDeletion) <==> |old(activeJobs)| > 0 && popped.id in old(scheduledForDeletion)
      ensures r == Err(JobFinished) <==>
        |old(activeJobs)| > 0 && popped.id !in old(scheduledForDeletion) && popped.nextExecTime.None?
      ensures r.Err? && r != Err(NoMoreJobs) ==>
        activeJobs == old(activeJobs) - multiset{popped} &&
        scheduledForDeletion == old(scheduledForDeletion)[popped.id := true]
      ensures r.Ok? ==>
        r.value == popped.id && popped.nextExecTime.Some? &&
        activeJobs == old(activeJobs) - multiset{popped} + multiset{Advance(popped)} &&
        scheduledForDeletion == old(scheduledForDeletion)
    {
      if |activeJobs| == 0 {
        popped := Job(0, None, Infinite([]));
        return Err(NoMoreJobs), popped;
      }
      MinExists(activeJobs);
      var job :| IsMin(job, activeJobs);
      popped := job;
      activeJobs := activeJobs - multiset{job};
      if job.id in scheduledForDeletion {
        scheduledForDeletion := scheduledForDeletion[job.id := true];
        r := Err(ScheduledForDeletion);
      } else if job.nextExecTime.None? {
        scheduledForDeletion := scheduledForDeletion[job.id := true];
        r := Err(JobFinished);
      } else {
        activeJobs := activeJobs + multiset{Advance(job)};
        r := Ok(job.id);
      }
    }

    /** `deschedule`: adds a `false` mark for a job that has none, else fails. */
    method Deschedule(jobId: nat) returns (r: Result<(), DescheduleError>)
      modifies this`scheduledForDeletion
      ensures r.Ok? <==> jobId !in old(scheduledForDeletion)
      ensures r.Ok? ==> scheduledForDeletion == old(scheduledForDeletion)[jobId := false]
      ensures r.Err? ==> r.error == AlreadyScheduled && scheduledForDeletion == old(scheduledForDeletion)
    {
      if jobId !in scheduledForDeletion {
        scheduledForDeletion := scheduledForDeletion[jobId := false];
        r := Ok(());
      } else {
        r := Err(AlreadyScheduled);
      }
    }
  }
}
