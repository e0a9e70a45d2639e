/** Shortest job first and first come first served: each job runs in one piece. */
module NonPreemptive {
  import opened Sets
  import opened Schedules
  import opened ScheduleAccounts
  import opened WorkConservation
  import opened SrtfOptimality

  /** The job that ran last and is unfinished goes on; otherwise the shortest ready one starts. */
  function SjfPick(jobs: seq<Job>, sched: seq<int>, t: nat): int {
    var left := Left(jobs, sched, t);
    if t > 0 && 0 <= At(sched, t - 1) < |jobs| && left[At(sched, t - 1)] > 0 then At(sched, t - 1)
    else Shortest(jobs, left, t, |jobs|)
  }

  predicate SjfAt(jobs: seq<Job>, sched: seq<int>, t: nat)
    requires t < |sched|
  {
    sched[t] == SjfPick(jobs, sched, t)
  }

  predicate FollowsSjf(jobs: seq<Job>, sched: seq<int>) {
    forall t :: 0 <= t < |sched| ==> SjfAt(jobs, sched, t)
  }

  /** The lowest-numbered unfinished job. */
  function FirstUnfinished(left: seq<int>): (i: nat)
    ensures i <= |left|
    ensures forall j :: 0 <= j < i ==> left[j] <= 0
    ensures i < |left| ==> left[i] > 0
  {
    if left == [] then 0
    else if left[0] > 0 then 0
    else
      var i := FirstUnfinished(left[1..]);
      assert forall j :: 0 < j < i + 1 ==> left[j] == left[1..][j - 1];
      i + 1
  }

  /** Jobs run in the order they are listed, however they arrive. */
  function FcfsPick(jobs: seq<Job>, left: seq<int>, t: nat): int
    requires |left| == |jobs|
  {
    var i := FirstUnfinished(left);
    if i < |jobs| && jobs[i].arrival <= t then i else IDLE
  }

  predicate FcfsAt(jobs: seq<Job>, sched: seq<int>, t: nat)
    requires t < |sched|
  {
    sched[t] == FcfsPick(jobs, Left(jobs, sched, t), t)
  }

  predicate FollowsFcfs(jobs: seq<Job>, sched: seq<int>) {
    forall t :: 0 <= t < |sched| ==> FcfsAt(jobs, sched, t)
  }

  predicate SortedByArrival(jobs: seq<Job>) {
    forall i, j :: 0 <= i < j < |jobs| ==> jobs[i].arrival <= jobs[j].arrival
  }

  // ---- SJF is a schedule --------------------------------------------------

  /** Only the job of the previous tick can be partly run. */
  ghost predicate RunsInOnePiece(jobs: seq<Job>, sched: seq<int>, t: nat) {
    forall i :: 0 <= i < |jobs| && 0 < Left(jobs, sched, t)[i] < jobs[i].burst ==> t > 0 && At(sched, t - 1) == i
  }

  /** Up to time t only ready jobs run. */
  ghost predicate ReadyUpTo(jobs: seq<Job>, sched: seq<int>, t: nat) {
    forall s :: 0 <= s < t && s < |sched| ==> ReadyAt(jobs, sched, s)
  }

  lemma {:induction false} SjfIsSchedule(jobs: seq<Job>, sched: seq<int>, t: nat)
    requires ValidJobs(jobs) && FollowsSjf(jobs, sched) && t <= |sched|
    ensures RunsInOnePiece(jobs, sched, t)
    ensures ReadyUpTo(jobs, sched, t)
  {
    if t > 0 {
      SjfIsSchedule(jobs, sched, t - 1);
      assert SjfAt(jobs, sched, t - 1);
      if t > 1 {
        assert ReadyAt(jobs, sched, t - 2);
      }
    }
  }

  lemma SjfConserves(jobs: seq<Job>, sched: seq<int>)
    requires ValidJobs(jobs) && FollowsSjf(jobs, sched)
    ensures IsSchedule(jobs, sched) && WorkConserving(jobs, sched)
  {
    SjfIsSchedule(jobs, sched, |sched|);
    forall t | 0 <= t < |sched|
      ensures ConservesAt(jobs, sched, t)
    {
      assert SjfAt(jobs, sched, t);
    }
  }

  /** A job that SJF starts is the first of the shortest ready ones, and it then runs to its end. */
  lemma SjfStartsTheShortest(jobs: seq<Job>, sched: seq<int>, t: nat, i: nat)
    requires ValidJobs(jobs) && FollowsSjf(jobs, sched) && t < |sched| && i < |jobs| && sched[t] == i
    ensures Left(jobs, sched, t)[i] == jobs[i].burst ==>
      forall j :: 0 <= j < |jobs| && Ready(jobs, Left(jobs, sched, t), t, j) ==>
        jobs[i].burst < jobs[j].burst || (jobs[i].burst == jobs[j].burst && i <= j)
    ensures Left(jobs, sched, t)[i] < jobs[i].burst ==> t > 0 && sched[t - 1] == i
  {
    SjfConserves(jobs, sched);
    SjfIsSchedule(jobs, sched, t);
    LeftBounds(jobs, sched, t);
    assert SjfAt(jobs, sched, t);
    if Left(jobs, sched, t)[i] == jobs[i].burst {
      if t > 0 && At(sched, t - 1) == i {
        LeftBound(jobs, sched, t - 1, i);
      }
      OthersWhole(jobs, sched, t, i);
    }
  }

  /** When a job starts, no other is partly done. */
  lemma OthersWhole(jobs: seq<Job>, sched: seq<int>, t: nat, i: nat)
    requires ValidJobs(jobs) && IsSchedule(jobs, sched) && RunsInOnePiece(jobs, sched, t) && i < |jobs|
    requires i == SjfPick(jobs, sched, t) && Left(jobs, sched, t)[i] == jobs[i].burst && (t > 0 ==> At(sched, t - 1) != i)
    ensures i == Shortest(jobs, Left(jobs, sched, t), t, |jobs|)
    ensures forall j :: 0 <= j < |jobs| && Left(jobs, sched, t)[j] > 0 ==> Left(jobs, sched, t)[j] == jobs[j].burst
  {
    LeftBounds(jobs, sched, t);
  }

  // ---- SJF and SRTF coincide when all jobs arrive together ----------------

  predicate ArriveTogether(jobs: seq<Job>) {
    forall i, j :: 0 <= i < |jobs| && 0 <= j < |jobs| ==> jobs[i].arrival == jobs[j].arrival
  }

  /** The job that is running was the shortest of those still waiting. */
  ghost predicate StartedShortest(jobs: seq<Job>, sched: seq<int>, t: nat) {
    forall c, j | 0 <= c < |jobs| && 0 <= j < |jobs| && c != j ::
      0 < Left(jobs, sched, t)[c] < jobs[c].burst && Left(jobs, sched, t)[j] > 0 ==> jobs[c].burst <= jobs[j].burst
  }

  lemma {:induction false} SjfStartsShortest(jobs: seq<Job>, sched: seq<int>, t: nat)
    requires ValidJobs(jobs) && ArriveTogether(jobs) && FollowsSjf(jobs, sched) && t <= |sched|
    ensures StartedShortest(jobs, sched, t)
  {
    if t > 0 {
      SjfStartsShortest(jobs, sched, t - 1);
      SjfConserves(jobs, sched);
      SjfIsSchedule(jobs, sched, t - 1);
      SjfStartStep(jobs, sched, t - 1);
    }
  }

  lemma SjfStartStep(jobs: seq<Job>, sched: seq<int>, t: nat)
    requires ValidJobs(jobs) && ArriveTogether(jobs) && FollowsSjf(jobs, sched) && t < |sched|
    requires IsSchedule(jobs, sched) && RunsInOnePiece(jobs, sched, t) && StartedShortest(jobs, sched, t)
    ensures StartedShortest(jobs, sched, t + 1)
  {
    LeftBounds(jobs, sched, t);
    assert SjfAt(jobs, sched, t);
    var left, next := Left(jobs, sched, t), Left(jobs, sched, t + 1);
    forall c, j | 0 <= c < |jobs| && 0 <= j < |jobs| && c != j && 0 < next[c] < jobs[c].burst && next[j] > 0
      ensures jobs[c].burst <= jobs[j].burst
    {
      assert left[j] > 0;
      if sched[t] == c && left[c] == jobs[c].burst {
        TickIsReady(jobs, sched, t);
        SjfPickFromScratch(jobs, sched, t, c, j);
      }
    }
  }

  /** A job that starts is no longer than any other ready one. */
  lemma SjfPickFromScratch(jobs: seq<Job>, sched: seq<int>, t: nat, c: int, j: int)
    requires ValidJobs(jobs) && IsSchedule(jobs, sched)
    requires 0 <= c < |jobs| && 0 <= j < |jobs| && c == SjfPick(jobs, sched, t)
    requires Left(jobs, sched, t)[c] == jobs[c].burst && Ready(jobs, Left(jobs, sched, t), t, j)
    ensures jobs[c].burst <= jobs[j].burst
  {
    LeftBound(jobs, sched, t, j);
    if t > 0 && At(sched, t - 1) == c {
      LeftBound(jobs, sched, t - 1, c);
    } else {
      assert c == Shortest(jobs, Left(jobs, sched, t), t, |jobs|);
    }
  }

  lemma SjfIsSrtf(jobs: seq<Job>, sched: seq<int>)
    requires ValidJobs(jobs) && ArriveTogether(jobs) && FollowsSjf(jobs, sched)
    ensures FollowsSrtf(jobs, sched)
  {
    SjfConserves(jobs, sched);
    forall t | 0 <= t < |sched|
      ensures SrtfAt(jobs, sched, t)
    {
      SjfTickIsSrtf(jobs, sched, t);
    }
  }

  lemma SjfTickIsSrtf(jobs: seq<Job>, sched: seq<int>, t: nat)
    requires ValidJobs(jobs) && ArriveTogether(jobs) && FollowsSjf(jobs, sched) && t < |sched|
    requires IsSchedule(jobs, sched)
    ensures sched[t] == Shortest(jobs, Left(jobs, sched, t), t, |jobs|)
  {
    var left := Left(jobs, sched, t);
    assert SjfAt(jobs, sched, t);
    if t > 0 && 0 <= At(sched, t - 1) < |jobs| && left[At(sched, t - 1)] > 0 {
      var c := At(sched, t - 1);
      TickIsReady(jobs, sched, t - 1);
      LeftBounds(jobs, sched, t - 1);
      LeftBounds(jobs, sched, t);
      SjfIsSchedule(jobs, sched, t);
      SjfStartsShortest(jobs, sched, t);
      assert Ready(jobs, left, t, c) && left[c] < jobs[c].burst;
      forall j | 0 <= j < |jobs| && Ready(jobs, left, t, j) && j != c
        ensures left[c] < left[j]
      {
        assert left[j] == jobs[j].burst;
      }
    }
  }

  /** With equal arrivals SJF minimises total wait and turnaround over all schedules, and equals SRTF. */
  lemma SjfIsOptimal(jobs: seq<Job>, sjf: seq<int>, other: seq<int>)
    requires ValidJobs(jobs) && ArriveTogether(jobs) && FollowsSjf(jobs, sjf) && Complete(jobs, sjf)
    requires IsSchedule(jobs, other) && Complete(jobs, other)
    ensures TotalWait(jobs, sjf) <= TotalWait(jobs, other)
    ensures FollowsSrtf(jobs, other) ==> TotalWait(jobs, sjf) == TotalWait(jobs, other)
  {
    SjfIsSrtf(jobs, sjf);
    SjfConserves(jobs, sjf);
    SrtfIsOptimal(jobs, sjf, other);
    TurnaroundSplits(jobs, sjf);
    TurnaroundSplits(jobs, other);
    if FollowsSrtf(jobs, other) {
      SrtfIsOptimal(jobs, other, sjf);
    }
  }

  // ---- FCFS ---------------------------------------------------------------

  lemma FcfsIsSchedule(jobs: seq<Job>, sched: seq<int>)
    requires FollowsFcfs(jobs, sched)
    ensures IsSchedule(jobs, sched)
  {
    forall t | 0 <= t < |sched|
      ensures ReadyAt(jobs, sched, t)
    {
      assert FcfsAt(jobs, sched, t);
    }
  }

  /** FCFS is work conserving if the jobs are listed by arrival. */
  lemma FcfsConserves(jobs: seq<Job>, sched: seq<int>)
    requires FollowsFcfs(jobs, sched) && SortedByArrival(jobs)
    ensures WorkConserving(jobs, sched)
  {
    forall t | 0 <= t < |sched|
      ensures ConservesAt(jobs, sched, t)
    {
      assert FcfsAt(jobs, sched, t);
    }
  }

  /** When the first i jobs are done if each starts when it has arrived and the one before is done. */
  function FcfsEnd(jobs: seq<Job>, i: nat): int
    requires i <= |jobs|
    decreases i, 0
  {
    if i == 0 then 0 else FcfsStart(jobs, i - 1) + jobs[i - 1].burst
  }

  function FcfsStart(jobs: seq<Job>, i: nat): int
    requires i < |jobs|
    decreases i, 1
  {
    if jobs[i].arrival > FcfsEnd(jobs, i) then jobs[i].arrival else FcfsEnd(jobs, i)
  }

  /** The processor is kept waiting for a job only if no later job has arrived before it. */
  predicate Gapless(jobs: seq<Job>) {
    forall i, j :: 0 <= i < j < |jobs| ==> jobs[i].arrival <= FcfsEnd(jobs, i) || jobs[i].arrival <= jobs[j].arrival
  }

  lemma SortedIsGapless(jobs: seq<Job>)
    requires SortedByArrival(jobs)
    ensures Gapless(jobs)
  {
  }

  /** What FCFS has done at time t: the jobs before c, and c since it started. */
  ghost predicate DoneInOrder(jobs: seq<Job>, left: seq<int>, t: nat, c: nat)
    requires |left| == |jobs|
  {
    && c <= |jobs| && FcfsEnd(jobs, c) <= t
    && (forall i :: 0 <= i < c ==> left[i] == 0) && (forall i :: c < i < |jobs| ==> left[i] == jobs[i].burst)
    && (c < |jobs| ==> 0 < left[c] == jobs[c].burst - if t > FcfsStart(jobs, c) then t - FcfsStart(jobs, c) else 0)
  }

  lemma {:induction false} FcfsDoesInOrder(jobs: seq<Job>, sched: seq<int>, t: nat) returns (c: nat)
    requires ValidJobs(jobs) && FollowsFcfs(jobs, sched) && t <= |sched|
    ensures DoneInOrder(jobs, Left(jobs, sched, t), t, c) && c == FirstUnfinished(Left(jobs, sched, t))
  {
    if t > 0 {
      c := FcfsDoesInOrder(jobs, sched, t - 1);
      assert FcfsAt(jobs, sched, t - 1);
      c := FcfsTick(jobs, Left(jobs, sched, t - 1), Left(jobs, sched, t), t - 1, c);
    } else {
      c := 0;
    }
  }

  lemma FcfsTick(jobs: seq<Job>, left: seq<int>, next: seq<int>, t: nat, c: nat) returns (d: nat)
    requires ValidJobs(jobs) && |left| == |jobs| && DoneInOrder(jobs, left, t, c) && c == FirstUnfinished(left)
    requires next == Ran(left, if c < |jobs| && jobs[c].arrival <= t then c else IDLE)
    ensures DoneInOrder(jobs, next, t + 1, d) && d == FirstUnfinished(next)
  {
    d := if c < |jobs| && next[c] == 0 then c + 1 else c;
  }

  lemma {:induction false} FcfsEndGrows(jobs: seq<Job>, i: nat, j: nat)
    requires ValidJobs(jobs) && i <= j <= |jobs|
    ensures FcfsEnd(jobs, i) <= FcfsEnd(jobs, j)
  {
    if i < j {
      FcfsEndGrows(jobs, i, j - 1);
    }
  }

  /** The list of jobs decides: a complete FCFS schedule never idles while a job is ready if and only if there is no gap. */
  lemma FcfsConservesIff(jobs: seq<Job>, sched: seq<int>)
    requires ValidJobs(jobs) && FollowsFcfs(jobs, sched) && Complete(jobs, sched)
    ensures WorkConserving(jobs, sched) <==> Gapless(jobs)
  {
    if Gapless(jobs) {
      forall t | 0 <= t < |sched|
        ensures ConservesAt(jobs, sched, t)
      {
        GaplessConserves(jobs, sched, t);
      }
    } else {
      var i, j :| 0 <= i < j < |jobs| && jobs[i].arrival > FcfsEnd(jobs, i) && jobs[i].arrival > jobs[j].arrival;
      GapIdles(jobs, sched, i, j);
    }
  }

  lemma GaplessConserves(jobs: seq<Job>, sched: seq<int>, t: nat)
    requires ValidJobs(jobs) && FollowsFcfs(jobs, sched) && t < |sched| && Gapless(jobs)
    ensures ConservesAt(jobs, sched, t)
  {
    var c := FcfsDoesInOrder(jobs, sched, t);
    assert FcfsAt(jobs, sched, t);
  }

  /** In the tick before job i arrives, FCFS idles although job j is ready. */
  lemma GapIdles(jobs: seq<Job>, sched: seq<int>, i: nat, j: nat)
    requires ValidJobs(jobs) && FollowsFcfs(jobs, sched) && Complete(jobs, sched)
    requires i < j < |jobs| && jobs[i].arrival > FcfsEnd(jobs, i) && jobs[i].arrival > jobs[j].arrival
    ensures jobs[i].arrival <= |sched| && !ConservesAt(jobs, sched, jobs[i].arrival - 1)
  {
    var t := jobs[i].arrival - 1;
    EndsInTime(jobs, sched, i);
    var c := FcfsDoesInOrder(jobs, sched, t);
    IdlesThough(jobs, Left(jobs, sched, t), t, c, i, j);
    IdleIsNotConserving(jobs, sched, t, j);
  }

  lemma IdleIsNotConserving(jobs: seq<Job>, sched: seq<int>, t: nat, j: nat)
    requires FollowsFcfs(jobs, sched) && t < |sched|
    requires FcfsPick(jobs, Left(jobs, sched, t), t) == IDLE && Ready(jobs, Left(jobs, sched, t), t, j)
    ensures !ConservesAt(jobs, sched, t)
  {
    assert FcfsAt(jobs, sched, t);
  }

  lemma EndsInTime(jobs: seq<Job>, sched: seq<int>, i: nat)
    requires ValidJobs(jobs) && FollowsFcfs(jobs, sched) && Complete(jobs, sched) && i < |jobs|
    ensures FcfsEnd(jobs, i + 1) <= |sched|
  {
    var c := FcfsDoesInOrder(jobs, sched, |sched|);
    FcfsEndGrows(jobs, i + 1, |jobs|);
  }

  lemma IdlesThough(jobs: seq<Job>, left: seq<int>, t: nat, c: nat, i: nat, j: nat)
    requires ValidJobs(jobs) && |left| == |jobs| && DoneInOrder(jobs, left, t, c) && c == FirstUnfinished(left)
    requires i < j < |jobs| && FcfsEnd(jobs, i) <= t && jobs[i].arrival == t + 1 && jobs[j].arrival <= t
    ensures FcfsPick(jobs, left, t) == IDLE && Ready(jobs, left, t, j)
  {
    WhoseTurn(jobs, left, t, c, i);
  }

  lemma WhoseTurn(jobs: seq<Job>, left: seq<int>, t: nat, c: nat, i: nat)
    requires ValidJobs(jobs) && |left| == |jobs| && DoneInOrder(jobs, left, t, c)
    requires i < |jobs| && FcfsEnd(jobs, i) <= t < FcfsEnd(jobs, i + 1)
    ensures c == i
  {
    if c < i {
      FcfsEndGrows(jobs, c + 1, i);
    } else if c > i {
      FcfsEndGrows(jobs, i + 1, c);
    }
  }

  /** A list that is not sorted by arrival and has a gap. */
  lemma UnsortedIdles(sched: seq<int>)
    requires FollowsFcfs([Job(2, 1), Job(0, 1)], sched) && Complete([Job(2, 1), Job(0, 1)], sched)
    ensures !WorkConserving([Job(2, 1), Job(0, 1)], sched)
  {
    var jobs := [Job(2, 1), Job(0, 1)];
    assert FcfsEnd(jobs, 0) == 0 && jobs[1].arrival < jobs[0].arrival;
    FcfsConservesIff(jobs, sched);
  }

  lemma {:induction false} FcfsRunsInOnePiece(jobs: seq<Job>, sched: seq<int>, t: nat)
    requires ValidJobs(jobs) && FollowsFcfs(jobs, sched) && t <= |sched|
    ensures RunsInOnePiece(jobs, sched, t)
  {
    if t > 0 {
      FcfsRunsInOnePiece(jobs, sched, t - 1);
      FcfsIsSchedule(jobs, sched);
      LeftBounds(jobs, sched, t - 1);
      assert FcfsAt(jobs, sched, t - 1);
      if t > 1 {
        TickIsReady(jobs, sched, t - 2);
        assert FcfsAt(jobs, sched, t - 2);
      }
    }
  }

  // ---- one switch per job -------------------------------------------------

  /** A chart in which every job runs in one piece has exactly one switch per job. */
  lemma {:induction false} OneSwitchPerJob(jobs: seq<Job>, sched: seq<int>, t: nat)
    requires ValidJobs(jobs) && IsSchedule(jobs, sched) && t <= |sched|
    requires forall s :: 0 <= s <= t ==> RunsInOnePiece(jobs, sched, s)
    requires Busy(sched[..t]) != []
    ensures Switches(Busy(sched[..t])) == |Elements(Busy(sched[..t]))|
  {
    if Busy(sched[..t - 1]) != [] {
      OneSwitchPerJob(jobs, sched, t - 1);
    }
    OneSwitchStep(jobs, sched, t - 1, Busy(sched[..t - 1]), Busy(sched[..t]));
  }

  lemma OneSwitchStep(jobs: seq<Job>, sched: seq<int>, t: nat, before: seq<int>, after: seq<int>)
    requires ValidJobs(jobs) && IsSchedule(jobs, sched) && t < |sched| && RunsInOnePiece(jobs, sched, t)
    requires before == Busy(sched[..t]) && after == Busy(sched[..t + 1]) && after != []
    requires before != [] ==> Switches(before) == |Elements(before)|
    ensures Switches(after) == |Elements(after)|
  {
    var p := sched[t];
    BusyPrefix(sched, t);
    if p == IDLE {
      assert after == before;
    } else if before == [] {
      FirstSwitch(p, after);
    } else {
      ChartStep(jobs, sched, t);
      SwitchStep(before, p, after);
    }
  }

  lemma FirstSwitch(p: int, queue: seq<int>)
    requires queue == [p]
    ensures Switches(queue) == |Elements(queue)|
  {
    assert Elements(queue) == {p};
  }

  lemma BusyPrefix(sched: seq<int>, t: nat)
    requires t < |sched|
    ensures Busy(sched[..t + 1]) == Busy(sched[..t]) + if sched[t] == IDLE then [] else [sched[t]]
  {
    assert sched[..t + 1] == sched[..t] + [sched[t]];
    BusyAppend(sched[..t], sched[t]);
  }

  lemma SwitchStep(queue: seq<int>, p: int, longer: seq<int>)
    requires queue != [] && (p == queue[|queue| - 1] || p !in queue)
    requires Switches(queue) == |Elements(queue)| && longer == queue + [p]
    ensures Switches(longer) == |Elements(longer)|
  {
    assert longer[..|longer| - 1] == queue;
    assert Elements(longer) == Elements(queue) + {p};
    assert p == queue[|queue| - 1] ==> p in queue;
  }

  /** The job of a busy tick ended the chart so far, or was not in it. */
  lemma ChartStep(jobs: seq<Job>, sched: seq<int>, t: nat)
    requires ValidJobs(jobs) && IsSchedule(jobs, sched) && t < |sched| && RunsInOnePiece(jobs, sched, t)
    requires sched[t] != IDLE && Busy(sched[..t]) != []
    ensures var queue := Busy(sched[..t]); sched[t] == queue[|queue| - 1] || sched[t] !in queue
  {
    var p := sched[t];
    TickIsReady(jobs, sched, t);
    LeftBounds(jobs, sched, t);
    if Left(jobs, sched, t)[p] < jobs[p].burst {
      assert sched[..t] == sched[..t - 1] + [sched[t - 1]];
      BusyAppend(sched[..t - 1], sched[t - 1]);
    } else {
      RunsSoFar(jobs, sched, t, p);
      BusyCounts(sched[..t], p);
    }
  }

  /** SJF and FCFS switch exactly once per job, and no schedule switches less often. */
  lemma FewestSwitches(jobs: seq<Job>, sched: seq<int>, other: seq<int>)
    requires ValidJobs(jobs) && jobs != []
    requires (FollowsSjf(jobs, sched) || FollowsFcfs(jobs, sched)) && Complete(jobs, sched)
    requires IsSchedule(jobs, other) && Complete(jobs, other)
    ensures Switches(Busy(sched)) == |jobs| <= Switches(Busy(other))
  {
    if FollowsSjf(jobs, sched) { SjfConserves(jobs, sched); } else { FcfsIsSchedule(jobs, sched); }
    forall s | 0 <= s <= |sched|
      ensures RunsInOnePiece(jobs, sched, s)
    {
      if FollowsSjf(jobs, sched) { SjfIsSchedule(jobs, sched, s); } else { FcfsRunsInOnePiece(jobs, sched, s); }
    }
    assert sched[..|sched|] == sched;
    ChartElements(jobs, sched);
    ChartElements(jobs, other);
    OneSwitchPerJob(jobs, sched, |sched|);
    SwitchesBound(Busy(other));
  }

  /** The chart of a complete schedule names every job and nothing else. */
  lemma ChartElements(jobs: seq<Job>, sched: seq<int>)
    requires ValidJobs(jobs) && IsSchedule(jobs, sched) && Complete(jobs, sched)
    ensures |Elements(Busy(sched))| == |jobs|
    ensures jobs != [] ==> Busy(sched) != []
  {
    forall i | 0 <= i < |jobs|
      ensures i in Busy(sched)
    {
      ChartHoldsEveryBurst(jobs, sched, i);
    }
    BusyNamesJobs(jobs, sched, |sched|);
    assert sched[..|sched|] == sched;
    assert Elements(Busy(sched)) == Range(|jobs|);
    assert jobs != [] ==> 0 in Busy(sched);
  }

  lemma {:induction false} BusyNamesJobs(jobs: seq<Job>, sched: seq<int>, t: nat)
    requires IsSchedule(jobs, sched) && t <= |sched|
    ensures forall p :: p in Busy(sched[..t]) ==> 0 <= p < |jobs|
  {
    if t > 0 {
      BusyNamesJobs(jobs, sched, t - 1);
      TickIsReady(jobs, sched, t - 1);
      assert sched[..t] == sched[..t - 1] + [sched[t - 1]];
      BusyAppend(sched[..t - 1], sched[t - 1]);
    }
  }
}
