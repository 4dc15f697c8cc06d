/**
 * The clock's decisions in `job_scheduler/src/scheduler/signal.rs`: whether
 * to sleep or to hand the next job to the runner (`State::determine` and
 * `determine_state`, over the board of `career.rs` with its corrected
 * `try_run_next`, which does not panic on an emptied slot), and the `Stoplight`
 * that `start`, `stop`, `wake` and `active` move through.
 *
 * Both clock reads of one decision (the one in `peek_next` and the one in
 * `determine`) are the parameter `now`, in milliseconds.  Task handles and
 * channel ends are opaque tokens.
 */
module Signal {
  import opened Wrappers
  import opened Jobs
  import opened SimpleMaps
  import Career

  /** `SECONDS_IN_AN_HOUR`, in milliseconds: how long the clock sleeps with no jobs. */
  const HOUR_MILLIS: nat := 3_600_000

  /** The clock's decision: sleep this many milliseconds, or run the job with this id. */
  datatype State = Sleep(millis: nat) | Run(id: nat)

  /** The first job of a non-empty heap is due in the future. */
  ghost predicate Waiting(heap: multiset<Job>, now: int)
  {
    |heap| > 0 && Earliest(heap).Some? && Earliest(heap).value > now
  }

  /**
   * `State::determine` once `peek_next` has given the time `t` of a
   * non-empty board's first job: sleep until a time still to come,
   * otherwise `try_run_next` decides, and `None` comes back exactly when
   * the popped job was dropped (descheduled or finished).
   */
  method Decide(jobs: Career.Board, now: int, t: int) returns (s: Option<State>, ghost popped: Job)
    requires jobs.Valid() && |jobs.activeJobs| > 0
    modifies jobs`activeJobs, jobs.scheduledForDeletion
    ensures jobs.Valid()
    ensures t > now ==>
      s == Some(Sleep(t - now)) && jobs.activeJobs == old(jobs.activeJobs) &&
      unchanged(jobs.scheduledForDeletion)
    ensures t <= now ==>
      IsMin(popped, old(jobs.activeJobs)) &&
      (s.Some? <==> Get(old(jobs.scheduledForDeletion.inner), popped.id).None? && popped.nextExecTime.Some?) &&
      (s.Some? ==>
        s.value == Run(popped.id) &&
        jobs.activeJobs == old(jobs.activeJobs) - multiset{popped} + multiset{Advance(popped)} &&
        jobs.scheduledForDeletion.inner == old(jobs.scheduledForDeletion.inner)) &&
      (s.None? ==>
        jobs.activeJobs == old(jobs.activeJobs) - multiset{popped} &&
        Get(jobs.scheduledForDeletion.inner, popped.id) == Some(true))
  {
    popped := Job(0, None, Infinite([]));
    if t > now {
      s := Some(Sleep(t - now));
    } else {
      var r;
      r, popped := jobs.TryRunNext();
      s := if r.Some? then Some(Run(r.value)) else None;
    }
  }

  /**
   * `State::determine`: with no jobs, sleep an hour; otherwise `Decide`
   * on the time `peek_next` found.
   */
  method Determine(jobs: Career.Board, now: int) returns (s: Option<State>, ghost popped: Job)
    requires jobs.Valid()
    modifies jobs, jobs.scheduledForDeletion
    ensures jobs.Valid()
    ensures |old(jobs.activeJobs)| == 0 ==> s == Some(Sleep(HOUR_MILLIS))
    ensures Waiting(old(jobs.activeJobs), now) ==> s == Some(Sleep(Earliest(old(jobs.activeJobs)).value - now))
    ensures s.Some? && s.value.Sleep? ==> jobs.activeJobs == old(jobs.activeJobs) && unchanged(jobs.scheduledForDeletion)
    ensures |old(jobs.activeJobs)| > 0 && !Waiting(old(jobs.activeJobs), now) ==>
      IsMin(popped, old(jobs.activeJobs)) &&
      (popped.nextExecTime.Some? ==> popped.nextExecTime.value <= now) &&
      (s.Some? <==> Get(old(jobs.scheduledForDeletion.inner), popped.id).None? && popped.nextExecTime.Some?) &&
      (s.Some? ==>
        s.value == Run(popped.id) &&
        jobs.activeJobs == old(jobs.activeJobs) - multiset{popped} + multiset{Advance(popped)} &&
        jobs.scheduledForDeletion.inner == old(jobs.scheduledForDeletion.inner)) &&
      (s.None? ==>
        jobs.activeJobs == old(jobs.activeJobs) - multiset{popped} &&
        Get(jobs.scheduledForDeletion.inner, popped.id) == Some(true))
  {
    popped := Job(0, None, Infinite([]));
    var execTime := jobs.PeekNext(now);
    if execTime.Some? {
      assert Waiting(old(jobs.activeJobs), now) <==> execTime.value > now;
      if |old(jobs.activeJobs)| > 0 && !Waiting(old(jobs.activeJobs), now) {
        EarliestMeaning(old(jobs.activeJobs));
      }
      s, popped := Decide(jobs, now, execTime.value);
    } else {
      s := Some(Sleep(HOUR_MILLIS));
    }
  }

  /**
   * `determine_state`: asks `determine` again until it decides.  Each retry
   * dropped a job, so the loop ends and the board only loses jobs.  A sleep
   * is for an hour on an empty board, else until the first job is due.  A
   * run hands over a job `popped` of the starting board that is due by
   * `now` and not marked for deletion, under id 0, the only id the board
   * gives out; that job is replaced by its advanced self.
   */
  method DetermineState(jobs: Career.Board, now: int) returns (s: State, ghost popped: Job)
    requires jobs.Valid()
    modifies jobs, jobs.scheduledForDeletion
    ensures jobs.Valid()
    ensures |jobs.activeJobs| <= |old(jobs.activeJobs)|
    ensures s.Sleep? ==> jobs.activeJobs <= old(jobs.activeJobs)
    ensures s.Sleep? && |jobs.activeJobs| == 0 ==> s.millis == HOUR_MILLIS
    ensures s.Sleep? && |jobs.activeJobs| > 0 ==> s.millis > 0 && Earliest(jobs.activeJobs) == Some(now + s.millis)
    ensures s.Run? ==>
      s.id == popped.id == 0 && popped in old(jobs.activeJobs) &&
      popped.nextExecTime.Some? && popped.nextExecTime.value <= now &&
      Get(jobs.scheduledForDeletion.inner, popped.id).None? &&
      Advance(popped) in jobs.activeJobs &&
      jobs.activeJobs - multiset{Advance(popped)} + multiset{popped} <= old(jobs.activeJobs)
  {
    popped := Job(0, None, Infinite([]));
    while true
      invariant jobs.Valid()
      invariant jobs.activeJobs <= old(jobs.activeJobs)
      invariant |jobs.activeJobs| <= |old(jobs.activeJobs)|
      decreases |jobs.activeJobs|
    {
      ghost var before := jobs.activeJobs;
      var next;
      next, popped := Determine(jobs, now);
      if next.Some? {
        if next.value.Run? {
          assert |before| > 0 && !Waiting(before, now);
          ReplaceUndone(before, popped, Advance(popped), jobs.activeJobs);
        }
        return next.value, popped;
      }
      assert |before| > 0 && !Waiting(before, now);
    }
  }

  /** Putting `p` back where `a` replaced it gives back the heap it came from. */
  lemma ReplaceUndone(before: multiset<Job>, p: Job, a: Job, after: multiset<Job>)
    requires p in before && after == before - multiset{p} + multiset{a}
    ensures a in after && after - multiset{a} + multiset{p} == before
  {
  }

  /** A spawned clock task, or one end of a channel. */
  type Token = nat

  /** The `Stoplight`: the clock's lifecycle, with the running clock's handle, stopper and waker. */
  datatype Stoplight =
    | Running(handle: Option<Token>, stopper: Option<Token>, waker: Token)
    | Pausing
    | Starting
    | Stopped

  /** `Stoplight::active`: true in `Stopped` and nowhere else. */
  predicate LightActive(light: Stoplight)
  {
    light.Stopped?
  }

  /** What the documentation of `Signal::active` promises: starting, running or pausing. */
  predicate ClockActive(light: Stoplight)
  {
    light.Starting? || light.Running? || light.Pausing?
  }

  /** `active` as written is the negation of `active` as documented, in every state. */
  lemma ActiveInverted(light: Stoplight)
    ensures LightActive(light) <==> !ClockActive(light)
  {
  }

  /** A move the light can make: stopped, starting, running, pausing, stopped again. */
  predicate Step(from: Stoplight, to: Stoplight)
  {
    (from.Stopped? && to.Starting?) ||
    (from.Starting? && to.Running?) ||
    (from.Running? && to.Pausing?) ||
    (from.Pausing? && to.Stopped?)
  }

  /** Where a light stands in the cycle that starts at `Stopped`. */
  function Phase(light: Stoplight): (p: nat)
    ensures p < 4
    ensures p == 0 <==> light.Stopped?
  {
    match light
    case Stopped => 0
    case Starting => 1
    case Running(_, _, _) => 2
    case Pausing => 3
  }

  /** A history of lights, from `Stopped`, each one a `Step` from the one before. */
  ghost predicate Walk(trace: seq<Stoplight>)
  {
    |trace| > 0 && trace[0].Stopped? &&
    forall i :: 0 < i < |trace| ==> Step(trace[i - 1], trace[i])
  }

  /** Along a history the lights go round the cycle: the `i`th is in phase `i % 4`. */
  lemma {:induction false} WalkPhases(trace: seq<Stoplight>)
    requires Walk(trace)
    ensures forall i :: 0 <= i < |trace| ==> Phase(trace[i]) == i % 4
    decreases |trace|
  {
    if |trace| > 1 {
      var prefix := trace[..|trace| - 1];
      assert Walk(prefix) by {
        forall i | 0 < i < |prefix|
          ensures Step(prefix[i - 1], prefix[i])
        {
          assert prefix[i - 1] == trace[i - 1] && prefix[i] == trace[i];
        }
      }
      WalkPhases(prefix);
      var n := |trace| - 1;
      assert Step(trace[n - 1], trace[n]);
      assert Phase(trace[n - 1]) == (n - 1) % 4 by {
        assert trace[n - 1] == prefix[n - 1];
      }
      forall i | 0 <= i < |trace|
        ensures Phase(trace[i]) == i % 4
      {
        if i < n {
          assert trace[i] == prefix[i];
        }
      }
    }
  }

  class Signal {
    var light: Stoplight
    /** Every light this signal has shown, oldest first. */
    ghost var trace: seq<Stoplight>

    /**
     * The history is a walk that ends in the current light, and a running
     * light holds its handle and stopper (`stop` takes both and leaves
     * `Running` at once).
     */
    ghost predicate Valid()
      reads this
    {
      Walk(trace) && trace[|trace| - 1] == light &&
      (light.Running? ==> light.handle.Some? && light.stopper.Some?)
    }

    /** `new`: stopped. */
    constructor ()
      ensures Valid() && light == Stopped && trace == [Stopped]
    {
      light := Stopped;
      trace := [Stopped];
    }

    /**
     * `start`: only a stopped light moves, to `Starting` and then, with the
     * clock spawned, to `Running` with its handle, stopper and waker.  Any
     * other light is left as it is.
     */
    method Start(handle: Token, stopper: Token, waker: Token)
      requires Valid()
      modifies this
      ensures Valid()
      ensures old(light).Stopped? ==>
        light == Running(Some(handle), Some(stopper), waker) && trace == old(trace) + [Starting, light]
      ensures !old(light).Stopped? ==> light == old(light) && trace == old(trace)
    {
      if light.Stopped? {
        light := Starting;
        trace := trace + [light];
        light := Running(Some(handle), Some(stopper), waker);
        trace := trace + [light];
      }
    }

    /**
     * `stop`: only a running light moves, to `Pausing` while the stop
     * signal goes out through the stopper it takes, and then to `Stopped`.
     * It returns the stopper used, and none when nothing was running.
     */
    method Stop() returns (used: Option<Token>)
      requires Valid()
      modifies this
      ensures Valid()
      ensures old(light).Running? ==>
        used == old(light).stopper && light == Stopped && trace == old(trace) + [Pausing, Stopped]
      ensures !old(light).Running? ==> used.None? && light == old(light) && trace == old(trace)
    {
      used := None;
      if light.Running? {
        used := light.stopper;
        light := Pausing;
        trace := trace + [light];
        light := Stopped;
        trace := trace + [light];
      }
    }

    /** `Signal::active`: what `Stoplight::active` says of the current light. */
    function Active(): (r: bool)
      reads this
      ensures r <==> !ClockActive(light)
    {
      LightActive(light)
    }

    /** `wake`: the wake signal goes out through the waker of a running light, and nowhere otherwise. */
    method Wake() returns (sentThrough: Option<Token>)
      ensures light.Running? ==> sentThrough == Some(light.waker)
      ensures !light.Running? ==> sentThrough.None?
    {
      if light.Running? {
        sentThrough := Some(light.waker);
      } else {
        sentThrough := None;
      }
    }

    /** `active` holds exactly after a whole number of start-stop cycles. */
    lemma ActiveAfterWholeCycles()
      requires Valid()
      ensures Active() <==> (|trace| - 1) % 4 == 0
    {
      WalkPhases(trace);
    }
  }
}
