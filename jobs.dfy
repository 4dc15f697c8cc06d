/**
 * The job of the job scheduler, as `job_scheduler/src/job.rs` and
 * `job_scheduler/src/career.rs` both define it: an id, the next time it is
 * due, what is left of its schedule, and an order in which the boards'
 * binary heaps keep jobs.
 *
 * Times are instants in milliseconds since the Unix epoch, in UTC.  The
 * upcoming times of a cron schedule come in as a finite list; the command a
 * job runs is opaque and left out.
 */
module Jobs {
  import opened Wrappers

  /** `Limit`: run forever, a number of times, or while before an end date. */
  datatype Limit = NoLimit | NumTimes(n: nat) | EndDate(end: int)

  /** chrono's `timestamp()`: whole seconds, rounded down. */
  function Seconds(t: int): int
  {
    t / 1000
  }

  /**
   * The schedule a job keeps after its first time: the upcoming times it has
   * not yet consumed, wrapped as its limit says.
   *  - `Infinite`: every time.
   *  - `Finite`: std's `Take`, `left` more calls.
   *  - `TakeWhile`: std's `take_while` (job.rs): stops for good at the first
   *    time not before the end, recorded in `done`.
   *  - `Condition`: the `TakeWhile` of career.rs, which filters each time
   *    it pulls.
   */
  datatype ScheduleKind =
    | Infinite(rest: seq<int>)
    | Finite(rest: seq<int>, left: nat)
    | TakeWhile(rest: seq<int>, end: int, done: bool)
    | Condition(rest: seq<int>, end: int)

  /** One `next` call on a schedule: the time it yields, if any, and the schedule after it. */
  function NextTime(k: ScheduleKind): (r: (Option<int>, ScheduleKind))
    ensures r.0.Some? ==> k.rest != [] && r.0.value == k.rest[0] && r.1.rest == k.rest[1..]
    ensures |r.1.rest| <= |k.rest|
  {
    match k
    case Infinite(rest) =>
      if rest == [] then (None, k) else (Some(rest[0]), Infinite(rest[1..]))
    case Finite(rest, left) =>
      if left == 0 then (None, k)
      else if rest == [] then (None, Finite(rest, left - 1))
      else (Some(rest[0]), Finite(rest[1..], left - 1))
    case TakeWhile(rest, end, done) =>
      if done || rest == [] then (None, k)
      else if Seconds(rest[0]) < Seconds(end) then (Some(rest[0]), TakeWhile(rest[1..], end, false))
      else (None, TakeWhile(rest[1..], end, true))
    case Condition(rest, end) =>
      if rest == [] then (None, k)
      else if Seconds(rest[0]) < Seconds(end) then (Some(rest[0]), Condition(rest[1..], end))
      else (None, Condition(rest[1..], end))
  }

  /** The times a schedule yields before its first `None`. */
  function Remaining(k: ScheduleKind): seq<int>
    decreases |k.rest|
  {
    var (t, k') := NextTime(k);
    if t.None? then [] else [t.value] + Remaining(k')
  }

  /** The longest prefix of `times` whose seconds are all before the end's. */
  function PrefixBefore(times: seq<int>, end: int): (p: seq<int>)
    ensures |p| <= |times| && p == times[..|p|]
    ensures forall t :: t in p ==> Seconds(t) < Seconds(end)
    ensures |p| < |times| ==> Seconds(times[|p|]) >= Seconds(end)
  {
    if times == [] || Seconds(times[0]) >= Seconds(end) then []
    else [times[0]] + PrefixBefore(times[1..], end)
  }

  /** With no limit, a schedule yields every upcoming time. */
  lemma {:induction false} RemainingInfinite(rest: seq<int>)
    ensures Remaining(Infinite(rest)) == rest
    decreases |rest|
  {
    if rest != [] {
      RemainingInfinite(rest[1..]);
    }
  }

  /** `Take(n)` yields the first `n` upcoming times, or all of them when there are fewer. */
  lemma {:induction false} RemainingFinite(rest: seq<int>, left: nat)
    ensures Remaining(Finite(rest, left)) == rest[..if left < |rest| then left else |rest|]
    decreases |rest|
  {
    if left > 0 && rest != [] {
      RemainingFinite(rest[1..], left - 1);
    }
  }

  /** An unfinished `take_while` yields the times before the end date, up to the first that is not. */
  lemma {:induction false} RemainingTakeWhile(rest: seq<int>, end: int)
    ensures Remaining(TakeWhile(rest, end, false)) == PrefixBefore(rest, end)
    decreases |rest|
  {
    if rest != [] && Seconds(rest[0]) < Seconds(end) {
      RemainingTakeWhile(rest[1..], end);
    }
  }

  /** career.rs's filtering `TakeWhile` yields the same times up to its first `None`. */
  lemma {:induction false} RemainingCondition(rest: seq<int>, end: int)
    ensures Remaining(Condition(rest, end)) == PrefixBefore(rest, end)
    decreases |rest|
  {
    if rest != [] && Seconds(rest[0]) < Seconds(end) {
      RemainingCondition(rest[1..], end);
    }
  }

  /** A job: its id, the time it is next due (`None` once finished), and its schedule. */
  datatype Job = Job(id: nat, nextExecTime: Option<int>, schedule: ScheduleKind)

  /** Every time a job will still be due at, the next one first. */
  function Times(j: Job): seq<int>
  {
    if j.nextExecTime.None? then [] else [j.nextExecTime.value] + Remaining(j.schedule)
  }

  function Head(upcoming: seq<int>): (r: Option<int>)
    ensures r.Some? <==> upcoming != []
    ensures r.Some? ==> r.value == upcoming[0]
  {
    if upcoming == [] then None else Some(upcoming[0])
  }

  function Tail(upcoming: seq<int>): (r: seq<int>)
    ensures upcoming != [] ==> r == upcoming[1..]
    ensures upcoming == [] ==> r == []
  {
    if upcoming == [] then [] else upcoming[1..]
  }

  /** `n.saturating_sub(1)`, the same as `n.checked_sub(1).unwrap_or_default()`. */
  function SaturatingPred(n: nat): (r: nat)
    ensures n > 0 ==> r == n - 1
    ensures n == 0 ==> r == 0
  {
    if n == 0 then 0 else n - 1
  }

  /**
   * `Job::with_limit` of job.rs: the first upcoming time is taken before the
   * limit applies; `NumTimes(n)` keeps `n - 1` more (none for 0), `EndDate`
   * keeps later times while they are before the end.
   */
  function WithLimit(id: nat, upcoming: seq<int>, limit: Limit): (j: Job)
    ensures j.id == id && j.nextExecTime == Head(upcoming)
  {
    var rest := Tail(upcoming);
    Job(id, Head(upcoming),
      match limit
      case NoLimit => Infinite(rest)
      case NumTimes(n) => Finite(rest, SaturatingPred(n))
      case EndDate(end) => TakeWhile(rest, end, false))
  }

  /**
   * `Job::with_limit` of career.rs: no limit is `None` here, and an end date
   * filters each later time.  The `Limit` it matches on has no variant for
   * "no limit" inside `Some`.
   */
  function CareerWithLimit(id: nat, upcoming: seq<int>, limit: Option<Limit>): (j: Job)
    requires limit != Some(NoLimit)
    ensures j.id == id && j.nextExecTime == Head(upcoming)
  {
    var rest := Tail(upcoming);
    Job(id, Head(upcoming),
      match limit
      case None => Infinite(rest)
      case Some(NumTimes(n)) => Finite(rest, SaturatingPred(n))
      case Some(EndDate(end)) => Condition(rest, end))
  }

  /**
   * The times a new job of job.rs is due at: all upcoming times with no
   * limit; the first `n` (at least one) with `NumTimes(n)`; with an end
   * date the first time, then the later ones before the end.
   */
  lemma WithLimitTimes(id: nat, upcoming: seq<int>, limit: Limit)
    ensures limit.NoLimit? ==> Times(WithLimit(id, upcoming, limit)) == upcoming
    ensures limit.NumTimes? ==>
      var keep := if limit.n == 0 then 1 else limit.n;
      Times(WithLimit(id, upcoming, limit)) == upcoming[..if keep < |upcoming| then keep else |upcoming|]
    ensures limit.EndDate? && upcoming != [] ==>
      Times(WithLimit(id, upcoming, limit)) == [upcoming[0]] + PrefixBefore(upcoming[1..], limit.end)
  {
    var rest := Tail(upcoming);
    match limit
    case NoLimit =>
      RemainingInfinite(rest);
    case NumTimes(n) =>
      RemainingFinite(rest, SaturatingPred(n));
    case EndDate(end) =>
      RemainingTakeWhile(rest, end);
  }

  /** The times a new job of career.rs is due at, which are those of job.rs for the same limit. */
  lemma CareerWithLimitTimes(id: nat, upcoming: seq<int>, limit: Option<Limit>)
    requires limit != Some(NoLimit)
    ensures Times(CareerWithLimit(id, upcoming, limit)) ==
            Times(WithLimit(id, upcoming, if limit.None? then NoLimit else limit.value))
  {
    var rest := Tail(upcoming);
    match limit
    case None =>
      RemainingInfinite(rest);
    case Some(NumTimes(n)) =>
      RemainingFinite(rest, SaturatingPred(n));
    case Some(EndDate(end)) =>
      RemainingCondition(rest, end);
      RemainingTakeWhile(rest, end);
  }

  /** `advance_schedule`: the next time is whatever the schedule yields next. */
  function Advance(j: Job): (a: Job)
    ensures a.id == j.id
  {
    var (t, k) := NextTime(j.schedule);
    Job(j.id, t, k)
  }

  /** Advancing a due job drops exactly its next time from the times it is due at. */
  lemma AdvanceDropsFirst(j: Job)
    requires j.nextExecTime.Some?
    ensures Times(Advance(j)) == Times(j)[1..]
  {
  }

  datatype Ordering = Less | Equal | Greater

  function CompareInt(a: int, b: int): Ordering
  {
    if a < b then Less else if a == b then Equal else Greater
  }

  /** Rust's order on `Option`: `None` before every `Some`, two `Some`s by their values. */
  function CompareOption(a: Option<int>, b: Option<int>): Ordering
  {
    match (a, b)
    case (None, None) => Equal
    case (None, Some(_)) => Less
    case (Some(_), None) => Greater
    case (Some(x), Some(y)) => CompareInt(x, y)
  }

  /**
   * `Ord::cmp`: two due jobs by time alone, two finished jobs by id, and a
   * finished job before any due one.
   */
  function Cmp(a: Job, b: Job): Ordering
  {
    if a.nextExecTime.Some? && b.nextExecTime.Some? then CompareInt(a.nextExecTime.value, b.nextExecTime.value)
    else if a.nextExecTime.None? && b.nextExecTime.None? then CompareInt(a.id, b.id)
    else if a.nextExecTime.Some? then Greater
    else Less
  }

  /** `PartialOrd::partial_cmp`: by next time, `None` first, then by id. */
  function PartialCmp(a: Job, b: Job): Ordering
  {
    match CompareOption(a.nextExecTime, b.nextExecTime)
    case Equal => CompareInt(a.id, b.id)
    case other => other
  }

  /** `cmp` is a total preorder: its two directions agree, and it is transitive. */
  lemma CmpIsTotalPreorder(a: Job, b: Job, c: Job)
    ensures Cmp(a, b) == Less <==> Cmp(b, a) == Greater
    ensures Cmp(a, b) == Equal <==> Cmp(b, a) == Equal
    ensures Cmp(a, b) != Greater && Cmp(b, c) != Greater ==> Cmp(a, c) != Greater
  {
  }

  /** A finished job sorts before every job that is still due. */
  lemma FinishedFirst(a: Job, b: Job)
    requires a.nextExecTime.None? && b.nextExecTime.Some?
    ensures Cmp(a, b) == Less && PartialCmp(a, b) == Less
  {
  }

  /**
   * `cmp` and `partial_cmp` agree wherever `cmp` sees a difference; where
   * `cmp` sees two due jobs at the same time as equal, `partial_cmp` orders
   * them by id.
   */
  lemma CmpRefinedByPartialCmp(a: Job, b: Job)
    ensures Cmp(a, b) != Equal ==> PartialCmp(a, b) == Cmp(a, b)
    ensures Cmp(a, b) == Equal ==> a.nextExecTime == b.nextExecTime && PartialCmp(a, b) == CompareInt(a.id, b.id)
  {
  }

  /**
   * `j` is a job the heap's `pop` or `peek` may return: one no other job
   * sorts before under `cmp`.  The heap itself compares through `<=` on
   * `Reverse`, that is through `partial_cmp`; its least job is one of
   * these (`PartialMinIsMin`).
   */
  predicate IsMin(j: Job, heap: multiset<Job>)
  {
    j in heap && forall k :: k in heap ==> Cmp(j, k) != Greater
  }

  /** A job no other sorts before under `partial_cmp` is a least job under `cmp`. */
  lemma PartialMinIsMin(j: Job, heap: multiset<Job>)
    requires j in heap && forall k :: k in heap ==> PartialCmp(j, k) != Greater
    ensures IsMin(j, heap)
  {
    forall k | k in heap
      ensures Cmp(j, k) != Greater
    {
      CmpRefinedByPartialCmp(j, k);
    }
  }

  /** A non-empty heap has a job to pop. */
  lemma {:induction false} MinExists(heap: multiset<Job>)
    requires |heap| > 0
    ensures exists j :: IsMin(j, heap)
    decreases |heap|
  {
    var x :| x in heap;
    var rest := heap - multiset{x};
    assert heap == rest + multiset{x};
    if |rest| == 0 {
      assert heap == multiset{x};
      assert IsMin(x, heap);
    } else {
      MinExists(rest);
      var m :| IsMin(m, rest);
      if Cmp(x, m) != Greater {
        forall k | k in heap
          ensures Cmp(x, k) != Greater
        {
          if k != x {
            assert k in rest;
            CmpIsTotalPreorder(x, m, k);
          }
        }
        assert IsMin(x, heap);
      } else {
        forall k | k in heap
          ensures Cmp(m, k) != Greater
        {
          if k == x {
            CmpIsTotalPreorder(x, m, k);
          } else {
            assert k in rest;
          }
        }
        assert IsMin(m, heap);
      }
    }
  }

  /**
   * Whichever job the heap pops, it is due at the same time; when that is
   * no time at all, it is the same finished job id.
   */
  lemma MinimalAgree(a: Job, b: Job, heap: multiset<Job>)
    requires IsMin(a, heap) && IsMin(b, heap)
    ensures a.nextExecTime == b.nextExecTime
    ensures a.nextExecTime.None? ==> a.id == b.id
  {
    assert Cmp(a, b) != Greater && Cmp(b, a) != Greater;
  }

  /** The time the heap's first job is due at, `None` when that job is finished. */
  ghost function Earliest(heap: multiset<Job>): Option<int>
    requires |heap| > 0
  {
    MinExists(heap);
    var j :| IsMin(j, heap);
    j.nextExecTime
  }

  /**
   * Whichever job the heap pops is due at `Earliest`, and a time there is
   * no later than any job's: no job of the heap is finished or due sooner.
   */
  lemma EarliestMeaning(heap: multiset<Job>)
    requires |heap| > 0
    ensures forall j :: IsMin(j, heap) ==> j.nextExecTime == Earliest(heap)
    ensures Earliest(heap).Some? ==>
      forall j :: j in heap ==> j.nextExecTime.Some? && Earliest(heap).value <= j.nextExecTime.value
  {
    MinExists(heap);
    var m :| IsMin(m, heap) && m.nextExecTime == Earliest(heap);
    forall k | IsMin(k, heap)
      ensures k.nextExecTime == Earliest(heap)
    {
      MinimalAgree(m, k, heap);
    }
  }
}
