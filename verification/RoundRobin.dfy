/**
 * Round robin with a ready queue that is never shortened: `history` is
 * everything ever put into it, and the live part begins at `start`.
 */
module RoundRobin {
  import opened Sets
  import opened Sums
  import opened Schedules
  import opened ScheduleAccounts
  import opened ScheduleTallies
  import opened WorkConservation

  /** The time is the number of ticks scheduled so far. */
  datatype State = State(history: seq<int>, start: nat, left: seq<int>, sched: seq<int>)

  /** Appends, in index order, the ready jobs among the first n that are nowhere in the history. */
  function Enqueue(jobs: seq<Job>, left: seq<int>, history: seq<int>, t: nat, n: nat): seq<int>
    requires |left| == |jobs| && n <= |jobs|
  {
    if n == 0 then history else
    var h := Enqueue(jobs, left, history, t, n - 1);
    if Ready(jobs, left, t, n - 1) && n - 1 !in h then h + [n - 1] else h
  }

  function Slice(slice: nat, left: int): nat
    requires left > 0
  {
    if left > slice then slice else left
  }

  function Initial(jobs: seq<Job>): State {
    State([], 0, Bursts(jobs), [])
  }

  /** Puts the ready jobs that were never queued at the end of the queue. */
  function Offered(jobs: seq<Job>, s: State): State
    requires |s.left| == |jobs|
  {
    s.(history := Enqueue(jobs, s.left, s.history, |s.sched|, |jobs|))
  }

  /** Takes the head of the queue off and runs it for its slice. */
  function Served(slice: nat, s: State, i: int): State
    requires 0 <= i < |s.left| && s.left[i] > 0
  {
    var e := Slice(slice, s.left[i]);
    State(s.history, s.start + 1, s.left[i := s.left[i] - e], s.sched + Repeat(i, e))
  }

  /** After the slice: the new arrivals go into the queue before the job that has run. */
  function Returned(jobs: seq<Job>, s: State, i: int): State
    requires |s.left| == |jobs| && 0 <= i < |jobs|
  {
    var r := Offered(jobs, s);
    if s.left[i] == 0 then r else r.(history := r.history + [i])
  }

  /** One turn of the main loop. */
  function Step(jobs: seq<Job>, slice: nat, s: State): State
    requires |s.left| == |jobs|
  {
    var r := Offered(jobs, s);
    if r.start < |r.history| && 0 <= r.history[r.start] < |jobs| && r.left[r.history[r.start]] > 0 then
      var i := r.history[r.start];
      Returned(jobs, Served(slice, r, i), i)
    else
      r.(sched := r.sched + [IDLE])
  }

  function Run(jobs: seq<Job>, slice: nat, m: nat): (s: State)
    ensures |s.left| == |jobs|
  {
    if m == 0 then Initial(jobs) else Step(jobs, slice, Run(jobs, slice, m - 1))
  }

  // ---- waiting ------------------------------------------------------------

  /** When the job last stopped running, or when it arrived if it never ran. */
  function Since(jobs: seq<Job>, sched: seq<int>, t: nat, i: int): int
    requires 0 <= i < |jobs|
  {
    if Left(jobs, sched, t)[i] == jobs[i].burst then jobs[i].arrival else FinishBy(sched, t, i)
  }

  predicate FairAt(jobs: seq<Job>, bound: int, sched: seq<int>, t: nat)
    requires t < |sched|
  {
    0 <= sched[t] < |jobs| ==> t - Since(jobs, sched, t, sched[t]) <= bound
  }

  /** Whenever a job runs, it has waited no longer than the bound. */
  predicate Fair(jobs: seq<Job>, bound: int, sched: seq<int>) {
    forall t :: 0 <= t < |sched| ==> FairAt(jobs, bound, sched, t)
  }

  /** A job may run if it is ready and on time; the processor may idle if no job is ready. */
  predicate MayRun(jobs: seq<Job>, bound: int, sched: seq<int>, p: int) {
    var left := Left(jobs, sched, |sched|);
    if p == IDLE then NoneReady(jobs, left, |sched|)
    else Ready(jobs, left, |sched|, p) && |sched| - Since(jobs, sched, |sched|, p) <= bound
  }

  /** Every tick was allowed by the ticks before it. */
  predicate Good(jobs: seq<Job>, bound: int, sched: seq<int>) {
    sched == [] ||
    var before := sched[..|sched| - 1];
    Good(jobs, bound, before) && MayRun(jobs, bound, before, sched[|sched| - 1])
  }

  lemma GoodTick(jobs: seq<Job>, bound: int, sched: seq<int>, p: int)
    requires Good(jobs, bound, sched) && MayRun(jobs, bound, sched, p)
    ensures Good(jobs, bound, sched + [p])
  {
    assert (sched + [p])[..|sched|] == sched;
  }

  lemma {:induction false} GoodSchedule(jobs: seq<Job>, bound: int, sched: seq<int>)
    requires Good(jobs, bound, sched)
    ensures IsSchedule(jobs, sched)
  {
    if sched != [] {
      var before, p := sched[..|sched| - 1], sched[|sched| - 1];
      GoodSchedule(jobs, bound, before);
      AppendTick(jobs, before, p, sched);
    }
  }

  /** Tick by tick, a good schedule conserves work and is fair. */
  lemma {:induction false} GoodAt(jobs: seq<Job>, bound: int, sched: seq<int>, t: nat)
    requires Good(jobs, bound, sched) && t < |sched|
    ensures ConservesAt(jobs, sched, t) && FairAt(jobs, bound, sched, t)
  {
    var before, p := sched[..|sched| - 1], sched[|sched| - 1];
    PastStays(jobs, before, [p], t);
    assert before + [p] == sched;
    if t < |before| {
      GoodAt(jobs, bound, before, t);
      assert before[t] == sched[t];
      assert ConservesAt(jobs, before, t) && FairAt(jobs, bound, before, t);
    }
  }

  lemma GoodMeans(jobs: seq<Job>, bound: int, sched: seq<int>)
    requires Good(jobs, bound, sched)
    ensures IsSchedule(jobs, sched) && WorkConserving(jobs, sched) && Fair(jobs, bound, sched)
  {
    GoodSchedule(jobs, bound, sched);
    forall t | 0 <= t < |sched|
      ensures ConservesAt(jobs, sched, t) && FairAt(jobs, bound, sched, t)
    {
      GoodAt(jobs, bound, sched, t);
    }
  }

  lemma SinceTick(jobs: seq<Job>, sched: seq<int>, p: int, j: int)
    requires ValidJobs(jobs) && IsSchedule(jobs, sched) && 0 <= j < |jobs|
    requires p == IDLE || Ready(jobs, Left(jobs, sched, |sched|), |sched|, p)
    ensures Left(jobs, sched + [p], |sched| + 1) == Ran(Left(jobs, sched, |sched|), p)
    ensures Since(jobs, sched + [p], |sched| + 1, j) == if j == p then |sched| + 1 else Since(jobs, sched, |sched|, j)
  {
    LeftTick(jobs, sched, p);
    FinishTick(jobs, sched, p, j);
    LeftBound(jobs, sched, |sched|, j);
  }

  /** Running a job for e ticks. */
  lemma {:induction false} RunTicks(jobs: seq<Job>, bound: int, sched: seq<int>, i: int, e: nat, longer: seq<int>)
    requires ValidJobs(jobs) && Good(jobs, bound, sched) && i != IDLE && MayRun(jobs, bound, sched, i)
    requires bound >= 0 && 0 < e <= Left(jobs, sched, |sched|)[i]
    requires longer == sched + Repeat(i, e)
    ensures Good(jobs, bound, longer)
    ensures RanFor(jobs, sched, i, e, longer)
    decreases e
  {
    if e == 1 {
      assert longer == sched + [i];
      FirstTick(jobs, bound, sched, i, longer);
    } else {
      var shorter := longer[..|longer| - 1];
      assert shorter == sched + Repeat(i, e - 1);
      RunTicks(jobs, bound, sched, i, e - 1, shorter);
      assert longer == shorter + [i];
      MoreTicks(jobs, bound, sched, i, e - 1, shorter, longer);
    }
  }

  predicate RanFor(jobs: seq<Job>, sched: seq<int>, i: int, e: nat, longer: seq<int>)
    requires 0 <= i < |jobs|
  {
    && |longer| == |sched| + e
    && Left(jobs, longer, |longer|) == Left(jobs, sched, |sched|)[i := Left(jobs, sched, |sched|)[i] - e]
    && Since(jobs, longer, |longer|, i) == |longer|
  }

  lemma FirstTick(jobs: seq<Job>, bound: int, sched: seq<int>, i: int, longer: seq<int>)
    requires ValidJobs(jobs) && Good(jobs, bound, sched) && i != IDLE && MayRun(jobs, bound, sched, i)
    requires longer == sched + [i]
    ensures Good(jobs, bound, longer) && RanFor(jobs, sched, i, 1, longer)
  {
    GoodTick(jobs, bound, sched, i);
    GoodSchedule(jobs, bound, sched);
    SinceTick(jobs, sched, i, i);
  }

  /** A job that has just run may go on at once. */
  lemma MoreTicks(jobs: seq<Job>, bound: int, sched: seq<int>, i: int, e: nat, shorter: seq<int>, longer: seq<int>)
    requires ValidJobs(jobs) && Good(jobs, bound, shorter) && 0 <= i < |jobs| && jobs[i].arrival <= |sched|
    requires bound >= 0 && RanFor(jobs, sched, i, e, shorter) && e < Left(jobs, sched, |sched|)[i]
    requires longer == shorter + [i]
    ensures Good(jobs, bound, longer) && RanFor(jobs, sched, i, e + 1, longer)
  {
    GoodTick(jobs, bound, shorter, i);
    GoodSchedule(jobs, bound, shorter);
    SinceTick(jobs, shorter, i, i);
  }

  lemma {:induction false} OthersWait(jobs: seq<Job>, sched: seq<int>, i: int, e: nat, j: int)
    requires i != j && 0 <= j < |jobs|
    ensures Since(jobs, sched + Repeat(i, e), |sched| + e, j) == Since(jobs, sched, |sched|, j)
    decreases e
  {
    if e == 0 {
      assert sched + Repeat(i, 0) == sched;
    } else {
      var longer := sched + Repeat(i, e - 1);
      assert sched + Repeat(i, e) == longer + [i];
      OthersWait(jobs, sched, i, e - 1, j);
      PastStays(jobs, longer, [i], |longer|);
    }
  }

  // ---- the queue ----------------------------------------------------------

  lemma NoRepeatsConcat(a: seq<int>, b: seq<int>)
    requires NoRepeats(a) && NoRepeats(b) && forall x :: x in a ==> x !in b
    ensures NoRepeats(a + b)
  {
    forall i, j | 0 <= i < j < |a + b|
      ensures (a + b)[i] != (a + b)[j]
    {
      if i < |a| <= j {
        assert a[i] in a && b[j - |a|] in b;
      }
    }
  }

  /** The queue has room for all jobs, less the one taken out. */
  lemma Others(jobs: seq<Job>, queue: seq<int>, out: int)
    requires NoRepeats(queue) && (forall i :: i in queue ==> 0 <= i < |jobs|) && out !in queue
    ensures |queue| <= if 0 <= out < |jobs| then |jobs| - 1 else |jobs|
  {
    assert forall q :: 0 <= q < |queue| ==> queue[q] in queue;
    DistinctSize(queue, Range(|jobs|) - {out});
  }

  lemma {:induction false} EnqueueEffect(jobs: seq<Job>, left: seq<int>, history: seq<int>, t: nat, n: nat)
    returns (newcomers: seq<int>)
    requires |left| == |jobs| && n <= |jobs|
    ensures Enqueue(jobs, left, history, t, n) == history + newcomers
    ensures NoRepeats(newcomers)
    ensures forall i :: i in newcomers ==> 0 <= i < n && i !in history && Ready(jobs, left, t, i)
    ensures forall i :: 0 <= i < n && Ready(jobs, left, t, i) ==> i in history || i in newcomers
  {
    newcomers := [];
    if n > 0 {
      var before := EnqueueEffect(jobs, left, history, t, n - 1);
      var h := history + before;
      newcomers := before;
      if Ready(jobs, left, t, n - 1) && n - 1 !in h {
        newcomers := before + [n - 1];
        assert h + [n - 1] == history + newcomers;
      }
    }
  }

  /**
   * The live queue holds every known unfinished job exactly once.  `known`
   * bounds the arrivals that have been looked at; `out` is the job that has been
   * taken off the queue to run, or IDLE.
   */
  ghost predicate LiveExactly(jobs: seq<Job>, left: seq<int>, history: seq<int>, live: seq<int>, known: nat, out: int)
    requires |left| == |jobs|
  {
    && NoRepeats(live)
    && out !in live
    && (forall i :: i in live ==> 0 <= i < |jobs| && left[i] > 0 && i in history)
    && (forall i :: 0 <= i < |jobs| ==> Tracked(jobs, left, history, live, known, out, i))
  }

  predicate Tracked(jobs: seq<Job>, left: seq<int>, history: seq<int>, live: seq<int>, known: nat, out: int, i: int)
    requires |left| == |jobs| && 0 <= i < |jobs|
  {
    && (i !in history ==> left[i] == jobs[i].burst)
    && (i != out && left[i] > 0 && (i in history || jobs[i].arrival < known) ==> i in live)
  }

  lemma EnqueueExactly(jobs: seq<Job>, left: seq<int>, history: seq<int>, live: seq<int>, known: nat, out: int,
                       newcomers: seq<int>, now: nat)
    requires |left| == |jobs| && LiveExactly(jobs, left, history, live, known, out)
    requires NoRepeats(newcomers) && (out != IDLE ==> out in history)
    requires forall i :: i in newcomers ==> 0 <= i < |jobs| && i !in history && Ready(jobs, left, now, i)
    requires forall i :: 0 <= i < |jobs| && Ready(jobs, left, now, i) ==> i in history || i in newcomers
    ensures LiveExactly(jobs, left, history + newcomers, live + newcomers, now + 1, out)
  {
    NoRepeatsConcat(live, newcomers);
    var h, l, next := history + newcomers, live + newcomers, now + 1;
    forall i | 0 <= i < |jobs|
      ensures Tracked(jobs, left, h, l, next, out, i)
    {
      assert Tracked(jobs, left, history, live, known, out, i);
    }
  }

  // ---- the invariant ------------------------------------------------------

  function Live(s: State): seq<int>
    requires s.start <= |s.history|
  {
    s.history[s.start..]
  }

  /** The time all other jobs take for one slice each. */
  function Round(jobs: seq<Job>, slice: nat): int {
    (|jobs| - 1) * slice
  }

  /** A job at position q of the live queue can afford to wait for q more slices. */
  predicate OnTime(jobs: seq<Job>, slice: nat, sched: seq<int>, live: seq<int>, q: nat)
    requires q < |live|
  {
    0 <= live[q] < |jobs| && jobs[live[q]].arrival <= |sched| &&
    |sched| - Since(jobs, sched, |sched|, live[q]) + q * slice <= Round(jobs, slice)
  }

  ghost predicate Invariant(jobs: seq<Job>, slice: nat, s: State, known: nat, out: int) {
    && s.start <= |s.history|
    && s.left == Left(jobs, s.sched, |s.sched|)
    && Good(jobs, Round(jobs, slice), s.sched)
    && LiveExactly(jobs, s.left, s.history, Live(s), known, out)
    && AllOnTime(jobs, slice, s.sched, Live(s))
  }

  ghost predicate AllOnTime(jobs: seq<Job>, slice: nat, sched: seq<int>, live: seq<int>) {
    forall q :: 0 <= q < |live| ==> OnTime(jobs, slice, sched, live, q)
  }

  /** Enqueuing the new arrivals keeps the invariant and extends what is known to the present. */
  lemma EnqueueKeeps(jobs: seq<Job>, slice: nat, s: State, known: nat, out: int, r: State)
    requires ValidJobs(jobs) && Invariant(jobs, slice, s, known, out)
    requires LookedRecently(jobs, slice, |s.sched|, known, out)
    requires out != IDLE ==> out in s.history
    requires r == Offered(jobs, s)
    ensures Invariant(jobs, slice, r, |s.sched| + 1, out)
  {
    var newcomers := EnqueueEffect(jobs, s.left, s.history, |s.sched|, |jobs|);
    var live := Live(s) + newcomers;
    assert Live(r) == live;
    EnqueueExactly(jobs, s.left, s.history, Live(s), known, out, newcomers, |s.sched|);
    EnqueueOnTime(jobs, slice, s, known, out, newcomers, live);
    AssembleInvariant(jobs, slice, r, |s.sched| + 1, out);
  }

  lemma AssembleInvariant(jobs: seq<Job>, slice: nat, s: State, known: nat, out: int)
    requires s.start <= |s.history| && s.left == Left(jobs, s.sched, |s.sched|)
    requires Good(jobs, Round(jobs, slice), s.sched)
    requires LiveExactly(jobs, s.left, s.history, Live(s), known, out)
    requires AllOnTime(jobs, slice, s.sched, Live(s))
    ensures Invariant(jobs, slice, s, known, out)
  {
  }

  lemma EnqueueOnTime(jobs: seq<Job>, slice: nat, s: State, known: nat, out: int, newcomers: seq<int>, live: seq<int>)
    requires Invariant(jobs, slice, s, known, out) && LookedRecently(jobs, slice, |s.sched|, known, out)
    requires out != IDLE ==> out in s.history
    requires forall i :: i in newcomers ==> 0 <= i < |jobs| && i !in s.history && Ready(jobs, s.left, |s.sched|, i)
    requires live == Live(s) + newcomers && NoRepeats(live) && out !in live
    ensures AllOnTime(jobs, slice, s.sched, live)
  {
    forall q | 0 <= q < |live|
      ensures OnTime(jobs, slice, s.sched, live, q)
    {
      if q < |Live(s)| {
        assert OnTime(jobs, slice, s.sched, Live(s), q);
      } else {
        NewcomerArrival(jobs, s.left, s.history, Live(s), known, out, newcomers, |s.sched|, q - |Live(s)|);
        NewcomerOnTime(jobs, slice, s.sched, live, known, out, q);
      }
    }
  }

  lemma NewcomerArrival(jobs: seq<Job>, left: seq<int>, history: seq<int>, live: seq<int>, known: nat, out: int,
                        newcomers: seq<int>, now: nat, a: nat)
    requires |left| == |jobs| && LiveExactly(jobs, left, history, live, known, out)
    requires out != IDLE ==> out in history
    requires a < |newcomers| && forall i :: i in newcomers ==> 0 <= i < |jobs| && i !in history && Ready(jobs, left, now, i)
    ensures 0 <= newcomers[a] < |jobs| && known <= jobs[newcomers[a]].arrival <= now
    ensures left[newcomers[a]] == jobs[newcomers[a]].burst
  {
    var i := newcomers[a];
    assert i in newcomers;
    assert Tracked(jobs, left, history, live, known, out, i);
  }

  /** Nothing that arrived more than a slice ago has been overlooked. */
  predicate LookedRecently(jobs: seq<Job>, slice: nat, now: nat, known: nat, out: int) {
    if out == IDLE then known == now else 0 <= out < |jobs| && known <= now <= known + slice
  }

  /** A job that has just been enqueued waited only since it arrived, behind all others at worst. */
  lemma NewcomerOnTime(jobs: seq<Job>, slice: nat, sched: seq<int>, live: seq<int>, known: nat, out: int, q: nat)
    requires NoRepeats(live) && out !in live && (forall i :: i in live ==> 0 <= i < |jobs|)
    requires LookedRecently(jobs, slice, |sched|, known, out)
    requires q < |live| && 0 <= live[q] < |jobs| && known <= jobs[live[q]].arrival <= |sched|
    requires Left(jobs, sched, |sched|)[live[q]] == jobs[live[q]].burst
    ensures OnTime(jobs, slice, sched, live, q)
  {
    Others(jobs, live, out);
    if out == IDLE {
      Times(q, |jobs| - 1, slice);
    } else {
      Times(q + 1, |jobs| - 1, slice);
    }
  }

  lemma Times(a: nat, b: int, slice: nat)
    requires a <= b
    ensures a * slice <= b * slice
    ensures a > 0 ==> (a - 1) * slice + slice == a * slice
  {
  }

  // ---- one step -----------------------------------------------------------

  /** Taking the head off the queue and running it. */
  lemma RunHead(jobs: seq<Job>, slice: nat, s: State, known: nat, i: int, r: State)
    requires ValidJobs(jobs) && slice > 0 && jobs != [] && Invariant(jobs, slice, s, known, IDLE) && Live(s) != []
    requires i == Live(s)[0] && 0 <= i < |jobs| && s.left[i] > 0 && r == Served(slice, s, i)
    ensures Invariant(jobs, slice, r, known, i)
    ensures Since(jobs, r.sched, |r.sched|, i) == |r.sched|
  {
    var live, e := Live(s), Slice(slice, s.left[i]);
    HeadMayRun(jobs, slice, s.sched, live, i);
    RunTicks(jobs, Round(jobs, slice), s.sched, i, e, r.sched);
    assert Live(r) == live[1..];
    HeadExactly(jobs, s.left, s.history, live, known, r.left);
    RestOnTime(jobs, slice, s.sched, live, i, e, r.sched, live[1..]);
    AssembleInvariant(jobs, slice, r, known, i);
  }

  lemma HeadMayRun(jobs: seq<Job>, slice: nat, sched: seq<int>, live: seq<int>, i: int)
    requires jobs != [] && AllOnTime(jobs, slice, sched, live) && live != [] && i == live[0] && 0 <= i < |jobs|
    requires Left(jobs, sched, |sched|)[i] > 0
    ensures i != IDLE && MayRun(jobs, Round(jobs, slice), sched, i) && Round(jobs, slice) >= 0
  {
    assert OnTime(jobs, slice, sched, live, 0);
    Times(0, |jobs| - 1, slice);
  }

  /** While the head runs for at most a slice, everyone behind moves up by one place. */
  lemma RestOnTime(jobs: seq<Job>, slice: nat, sched: seq<int>, live: seq<int>, i: int, e: nat, longer: seq<int>, rest: seq<int>)
    requires AllOnTime(jobs, slice, sched, live) && NoRepeats(live) && live != [] && i == live[0] && rest == live[1..]
    requires e <= slice && longer == sched + Repeat(i, e)
    ensures AllOnTime(jobs, slice, longer, rest)
  {
    forall q | 0 <= q < |rest|
      ensures OnTime(jobs, slice, longer, rest, q)
    {
      assert OnTime(jobs, slice, sched, live, q + 1);
      Times(q + 1, q + 1, slice);
      OthersWait(jobs, sched, i, e, rest[q]);
    }
  }

  lemma HeadExactly(jobs: seq<Job>, left: seq<int>, history: seq<int>, live: seq<int>, known: nat, after: seq<int>)
    requires |left| == |jobs| == |after| && live != [] && LiveExactly(jobs, left, history, live, known, IDLE)
    requires forall i :: 0 <= i < |jobs| && i != live[0] ==> after[i] == left[i]
    ensures LiveExactly(jobs, after, history, live[1..], known, live[0])
  {
    var rest, head := live[1..], live[0];
    assert live == [head] + rest;
    assert head in live;
    assert head !in rest;
    forall i | i in rest
      ensures i in live && i != head
    {
    }
    forall i | 0 <= i < |jobs|
      ensures Tracked(jobs, after, history, rest, known, head, i)
    {
      assert Tracked(jobs, left, history, live, known, IDLE, i);
    }
  }

  /** Putting the job that has run back at the end, unless it is finished. */
  lemma Requeue(jobs: seq<Job>, slice: nat, s: State, known: nat, i: int, r: State)
    requires ValidJobs(jobs) && Invariant(jobs, slice, s, known, i) && known >= |s.sched|
    requires 0 <= i < |jobs| && i in s.history && s.left[i] >= 0 && jobs[i].arrival <= |s.sched|
    requires Since(jobs, s.sched, |s.sched|, i) == |s.sched|
    requires r == s.(history := if s.left[i] == 0 then s.history else s.history + [i])
    ensures Invariant(jobs, slice, r, |s.sched|, IDLE)
  {
    var live := if s.left[i] == 0 then Live(s) else Live(s) + [i];
    assert Live(r) == live;
    RequeueExactly(jobs, s.left, s.history, Live(s), known, |s.sched|, i, r.history, live);
    RequeueOnTime(jobs, slice, s.sched, Live(s), i, live);
    AssembleInvariant(jobs, slice, r, |s.sched|, IDLE);
  }

  lemma RequeueOnTime(jobs: seq<Job>, slice: nat, sched: seq<int>, live: seq<int>, i: int, longer: seq<int>)
    requires AllOnTime(jobs, slice, sched, live) && NoRepeats(live) && i !in live
    requires forall j :: j in live ==> 0 <= j < |jobs|
    requires 0 <= i < |jobs| && jobs[i].arrival <= |sched| && Since(jobs, sched, |sched|, i) == |sched|
    requires longer == live || longer == live + [i]
    ensures AllOnTime(jobs, slice, sched, longer)
  {
    Others(jobs, live, i);
    Times(|live|, |jobs| - 1, slice);
    forall q | 0 <= q < |longer|
      ensures OnTime(jobs, slice, sched, longer, q)
    {
      if q < |live| {
        assert OnTime(jobs, slice, sched, live, q);
      }
    }
  }

  lemma RequeueExactly(jobs: seq<Job>, left: seq<int>, history: seq<int>, live: seq<int>, known: nat, now: nat, i: int,
                       h: seq<int>, l: seq<int>)
    requires |left| == |jobs| && LiveExactly(jobs, left, history, live, known, i) && known >= now
    requires 0 <= i < |jobs| && i in history && left[i] >= 0
    requires h == (if left[i] == 0 then history else history + [i]) && l == if left[i] == 0 then live else live + [i]
    ensures LiveExactly(jobs, left, h, l, now, IDLE)
  {
    NoRepeatsConcat(live, [i]);
    forall j | 0 <= j < |jobs|
      ensures Tracked(jobs, left, h, l, now, IDLE, j)
    {
      assert Tracked(jobs, left, history, live, known, i, j);
    }
  }

  /** Idling when the live queue is empty. */
  lemma IdleTick(jobs: seq<Job>, slice: nat, s: State, r: State)
    requires ValidJobs(jobs) && Invariant(jobs, slice, s, |s.sched| + 1, IDLE) && Live(s) == []
    requires r == s.(sched := s.sched + [IDLE])
    ensures Invariant(jobs, slice, r, |r.sched|, IDLE)
  {
    forall i | 0 <= i < |jobs|
      ensures !Ready(jobs, s.left, |s.sched|, i)
    {
      assert Tracked(jobs, s.left, s.history, Live(s), |s.sched| + 1, IDLE, i);
    }
    GoodTick(jobs, Round(jobs, slice), s.sched, IDLE);
    LeftTick(jobs, s.sched, IDLE);
    assert Live(r) == [];
    AssembleInvariant(jobs, slice, r, |r.sched|, IDLE);
  }

  lemma StepKeeps(jobs: seq<Job>, slice: nat, s: State)
    requires ValidJobs(jobs) && slice > 0 && Invariant(jobs, slice, s, |s.sched|, IDLE)
    ensures Invariant(jobs, slice, Step(jobs, slice, s), |Step(jobs, slice, s).sched|, IDLE)
  {
    var r := Offered(jobs, s);
    EnqueueKeeps(jobs, slice, s, |s.sched|, IDLE, r);
    if Live(r) == [] {
      IdleTick(jobs, slice, r, r.(sched := s.sched + [IDLE]));
    } else {
      var i := Live(r)[0];
      HeadFacts(jobs, slice, r, i);
      ServeKeeps(jobs, slice, r, i);
    }
  }

  lemma ServeKeeps(jobs: seq<Job>, slice: nat, s: State, i: int)
    requires ValidJobs(jobs) && slice > 0 && Invariant(jobs, slice, s, |s.sched| + 1, IDLE)
    requires Live(s) != [] && i == Live(s)[0] && 0 <= i < |jobs| && s.left[i] > 0
    ensures var r := Returned(jobs, Served(slice, s, i), i); Invariant(jobs, slice, r, |r.sched|, IDLE)
  {
    var served := Served(slice, s, i);
    HeadFacts(jobs, slice, s, i);
    RunHead(jobs, slice, s, |s.sched| + 1, i, served);
    ReturnToQueue(jobs, slice, served, |s.sched| + 1, i);
  }

  lemma ReturnToQueue(jobs: seq<Job>, slice: nat, s: State, known: nat, i: int)
    requires ValidJobs(jobs) && Invariant(jobs, slice, s, known, i) && LookedRecently(jobs, slice, |s.sched|, known, i)
    requires 0 <= i < |jobs| && i in s.history && s.left[i] >= 0 && jobs[i].arrival <= |s.sched|
    requires Since(jobs, s.sched, |s.sched|, i) == |s.sched|
    ensures Invariant(jobs, slice, Returned(jobs, s, i), |s.sched|, IDLE)
  {
    EnqueueKeeps(jobs, slice, s, known, i, Offered(jobs, s));
    var newcomers := EnqueueEffect(jobs, s.left, s.history, |s.sched|, |jobs|);
    Requeue(jobs, slice, Offered(jobs, s), |s.sched| + 1, i, Returned(jobs, s, i));
  }

  lemma HeadFacts(jobs: seq<Job>, slice: nat, s: State, i: int)
    requires Invariant(jobs, slice, s, |s.sched| + 1, IDLE) && Live(s) != [] && i == Live(s)[0]
    ensures 0 <= i < |jobs| && jobs[i].arrival <= |s.sched| && i in s.history && s.left[i] > 0
  {
    assert OnTime(jobs, slice, s.sched, Live(s), 0);
    assert i in Live(s);
  }

  lemma {:induction false} RunKeeps(jobs: seq<Job>, slice: nat, m: nat)
    requires ValidJobs(jobs) && slice > 0
    ensures Invariant(jobs, slice, Run(jobs, slice, m), |Run(jobs, slice, m).sched|, IDLE)
  {
    if m == 0 {
      var s := Initial(jobs);
      assert Live(s) == [];
      AssembleInvariant(jobs, slice, s, 0, IDLE);
    } else {
      RunKeeps(jobs, slice, m - 1);
      StepKeeps(jobs, slice, Run(jobs, slice, m - 1));
    }
  }

  /**
   * Bounded waiting: in every run, a job that runs has waited at most
   * (n - 1) * slice ticks since it arrived or last ran; and the processor idles
   * only when no job is ready.
   */
  lemma RoundRobinIsFair(jobs: seq<Job>, slice: nat, m: nat)
    requires ValidJobs(jobs) && slice > 0
    ensures var sched := Run(jobs, slice, m).sched;
      && IsSchedule(jobs, sched)
      && WorkConserving(jobs, sched)
      && forall t :: 0 <= t < |sched| && 0 <= sched[t] < |jobs| ==>
           t - Since(jobs, sched, t, sched[t]) <= (|jobs| - 1) * slice
  {
    var sched := Run(jobs, slice, m).sched;
    RunKeeps(jobs, slice, m);
    GoodMeans(jobs, Round(jobs, slice), sched);
    forall t | 0 <= t < |sched| && 0 <= sched[t] < |jobs|
      ensures t - Since(jobs, sched, t, sched[t]) <= (|jobs| - 1) * slice
    {
      assert FairAt(jobs, Round(jobs, slice), sched, t);
    }
  }

  /** At each dispatch the live queue holds every arrived unfinished job exactly once. */
  lemma LiveQueueIsExact(jobs: seq<Job>, slice: nat, m: nat)
    requires ValidJobs(jobs) && slice > 0
    ensures var s := Offered(jobs, Run(jobs, slice, m));
      && s.start <= |s.history|
      && NoRepeats(Live(s))
      && forall i :: i in Live(s) <==> Ready(jobs, s.left, |s.sched|, i)
  {
    var s := Run(jobs, slice, m);
    var r := Offered(jobs, s);
    RunKeeps(jobs, slice, m);
    EnqueueKeeps(jobs, slice, s, |s.sched|, IDLE, r);
    forall i
      ensures i in Live(r) <==> Ready(jobs, s.left, |s.sched|, i)
    {
      if i in Live(r) {
        var q :| 0 <= q < |Live(r)| && Live(r)[q] == i;
        assert OnTime(jobs, slice, r.sched, Live(r), q);
      }
      if Ready(jobs, s.left, |s.sched|, i) {
        assert Tracked(jobs, r.left, r.history, Live(r), |s.sched| + 1, IDLE, i);
      }
    }
  }

  // ---- the queue never overflows ------------------------------------------

  lemma {:induction false} LiveFits(left: seq<int>, live: seq<int>)
    requires (forall i :: 0 <= i < |left| ==> left[i] >= 0) && NoRepeats(live)
    requires forall i :: i in live ==> 0 <= i < |left| && left[i] > 0
    ensures |live| <= Sum(left)
    decreases live
  {
    if live == [] {
      SumNonNegative(left);
    } else {
      var n := |live| - 1;
      var x := live[n];
      assert x in live;
      SumUpdate(left, x, 0);
      forall i | i in live[..n]
        ensures 0 <= i < |left| && left[x := 0][i] > 0
      {
        assert i in live;
      }
      LiveFits(left[x := 0], live[..n]);
    }
  }

  /** Every dispatch used at least one tick, and every queued job still needs one. */
  lemma HistoryFits(jobs: seq<Job>, slice: nat, s: State, known: nat, out: int)
    requires ValidJobs(jobs) && Invariant(jobs, slice, s, known, out) && s.start <= Done(s.sched, |s.sched|)
    requires 0 <= out < |jobs| || out == IDLE
    ensures |s.history| + (if out == IDLE then 0 else s.left[out]) <= Sum(Bursts(jobs))
  {
    GoodSchedule(jobs, Round(jobs, slice), s.sched);
    WorkLeft(jobs, s.sched, |s.sched|);
    LeftBounds(jobs, s.sched, |s.sched|);
    if out == IDLE {
      LiveFits(s.left, Live(s));
    } else {
      SumUpdate(s.left, out, 0);
      LiveFits(s.left[out := 0], Live(s));
    }
  }

  lemma {:induction false} DoneAfterRun(sched: seq<int>, i: int, e: nat)
    requires i != IDLE
    ensures Done(sched + Repeat(i, e), |sched| + e) == Done(sched, |sched|) + e
    decreases e
  {
    if e == 0 {
      assert sched + Repeat(i, e) == sched;
    } else {
      DoneAfterRun(sched, i, e - 1);
      var shorter := sched + Repeat(i, e - 1);
      assert sched + Repeat(i, e) == shorter + [i];
      assert (shorter + [i])[..|shorter|] == shorter[..|shorter|];
      DoneAgrees(shorter + [i], shorter, |shorter|);
    }
  }

  lemma {:induction false} DispatchesTakeTime(jobs: seq<Job>, slice: nat, m: nat)
    requires ValidJobs(jobs) && slice > 0
    ensures var s := Run(jobs, slice, m); s.start <= Done(s.sched, |s.sched|)
  {
    if m > 0 {
      DispatchesTakeTime(jobs, slice, m - 1);
      RunKeeps(jobs, slice, m - 1);
      DispatchTakesTime(jobs, slice, Run(jobs, slice, m - 1));
    }
  }

  lemma DispatchTakesTime(jobs: seq<Job>, slice: nat, s: State)
    requires ValidJobs(jobs) && slice > 0 && Invariant(jobs, slice, s, |s.sched|, IDLE)
    requires s.start <= Done(s.sched, |s.sched|)
    ensures var r := Step(jobs, slice, s); r.start <= Done(r.sched, |r.sched|)
  {
    var r := Offered(jobs, s);
    EnqueueKeeps(jobs, slice, s, |s.sched|, IDLE, r);
    if Live(r) == [] {
      assert (s.sched + [IDLE])[..|s.sched|] == s.sched[..|s.sched|];
      DoneAgrees(s.sched + [IDLE], s.sched, |s.sched|);
    } else {
      var i := Live(r)[0];
      HeadFacts(jobs, slice, r, i);
      DoneAfterRun(s.sched, i, Slice(slice, r.left[i]));
    }
  }

  /** In the middle of a turn: the head has run and the new arrivals are queued, but it is not back yet. */
  lemma MidTurn(jobs: seq<Job>, slice: nat, s: State, i: int)
    requires ValidJobs(jobs) && slice > 0 && Invariant(jobs, slice, s, |s.sched| + 1, IDLE)
    requires s.start <= Done(s.sched, |s.sched|)
    requires Live(s) != [] && i == Live(s)[0] && 0 <= i < |jobs| && s.left[i] > 0
    ensures var served := Served(slice, s, i); var r := Offered(jobs, served);
      && Invariant(jobs, slice, r, |served.sched| + 1, i)
      && |r.history| + served.left[i] <= Sum(Bursts(jobs))
  {
    var served, e := Served(slice, s, i), Slice(slice, s.left[i]);
    var r := Offered(jobs, served);
    HeadFacts(jobs, slice, s, i);
    RunHead(jobs, slice, s, |s.sched| + 1, i, served);
    EnqueueKeeps(jobs, slice, served, |s.sched| + 1, i, r);
    DoneAfterRun(s.sched, i, e);
    HistoryFits(jobs, slice, r, |served.sched| + 1, i);
  }
}
