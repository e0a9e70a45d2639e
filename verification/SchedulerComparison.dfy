/** What holds between the four algorithms on the same jobs. */
module SchedulerComparison {
  import opened Sums
  import opened Schedules
  import opened ScheduleAccounts
  import opened ScheduleTallies
  import opened WorkConservation
  import opened SrtfOptimality
  import opened NonPreemptive
  import opened ProcessTable
  import RoundRobin

  datatype Choice = ShortestRemaining | ShortestJob | FirstCome | Rotating(slice: nat, turns: nat)

  /** The schedule is what the algorithm produces. */
  predicate Produced(jobs: seq<Job>, choice: Choice, sched: seq<int>) {
    && ValidJobs(jobs) && Complete(jobs, sched) && Trimmed(sched)
    && match choice
       case ShortestRemaining => FollowsSrtf(jobs, sched)
       case ShortestJob => FollowsSjf(jobs, sched)
       case FirstCome => FollowsFcfs(jobs, sched)
       case Rotating(slice, turns) => slice > 0 && sched == RoundRobin.Run(jobs, slice, turns).sched
  }

  lemma ProducedIsSchedule(jobs: seq<Job>, choice: Choice, sched: seq<int>)
    requires Produced(jobs, choice, sched)
    ensures IsSchedule(jobs, sched)
    ensures (choice.FirstCome? ==> Gapless(jobs)) ==> WorkConserving(jobs, sched)
  {
    match choice
    case ShortestRemaining =>
      SrtfIsSchedule(jobs, sched);
      forall t | 0 <= t < |sched|
        ensures ConservesAt(jobs, sched, t)
      {
        assert SrtfAt(jobs, sched, t);
      }
    case ShortestJob => SjfConserves(jobs, sched);
    case FirstCome =>
      FcfsIsSchedule(jobs, sched);
      FcfsConservesIff(jobs, sched);
    case Rotating(slice, turns) => RoundRobin.RoundRobinIsFair(jobs, slice, turns);
  }

  /** SRTF has the smallest total turnaround, and hence the smallest total wait, of the four. */
  lemma SrtfBeatsTheOthers(jobs: seq<Job>, srtf: seq<int>, choice: Choice, other: seq<int>)
    requires Produced(jobs, ShortestRemaining, srtf) && Produced(jobs, choice, other)
    ensures TotalTurnaround(jobs, srtf) <= TotalTurnaround(jobs, other)
    ensures TotalWait(jobs, srtf) <= TotalWait(jobs, other)
  {
    ProducedIsSchedule(jobs, choice, other);
    SrtfIsOptimal(jobs, srtf, other);
    TurnaroundSplits(jobs, srtf);
    TurnaroundSplits(jobs, other);
  }

  /** The algorithms finish at the same time and idle in the same ticks, FCFS if its list has no gap, as a sorted one. */
  lemma AllFinishTogether(jobs: seq<Job>, one: Choice, a: seq<int>, two: Choice, b: seq<int>)
    requires Produced(jobs, one, a) && Produced(jobs, two, b)
    requires one.FirstCome? || two.FirstCome? ==> SortedByArrival(jobs) || Gapless(jobs)
    ensures |a| == |b|
    ensures forall t :: 0 <= t < |a| ==> (a[t] == IDLE <==> b[t] == IDLE)
  {
    if SortedByArrival(jobs) {
      SortedIsGapless(jobs);
    }
    ProducedIsSchedule(jobs, one, a);
    ProducedIsSchedule(jobs, two, b);
    SameIdleTicks(jobs, a, b);
  }

  /** SJF and FCFS switch once per job; round robin and SRTF at least as often. */
  lemma SwitchCounts(jobs: seq<Job>, choice: Choice, sched: seq<int>)
    requires Produced(jobs, choice, sched) && jobs != []
    ensures |jobs| <= Switches(Busy(sched))
    ensures choice.ShortestJob? || choice.FirstCome? ==> Switches(Busy(sched)) == |jobs|
  {
    ProducedIsSchedule(jobs, choice, sched);
    ChartElements(jobs, sched);
    SwitchesBound(Busy(sched));
    if choice.ShortestJob? || choice.FirstCome? {
      FewestSwitches(jobs, sched, sched);
    }
  }

  /** What the program reports at the end: its totals and its chart conserve every tick. */
  lemma ReportConserves(jobs: seq<Job>, choice: Choice, sched: seq<int>)
    requires Produced(jobs, choice, sched)
    ensures var report := After(Totals([], 0, 0, 0, 0), jobs, sched);
      && report.turnaround == report.wait + report.busy
      && |report.queue| == report.busy == Sum(Bursts(jobs))
      && report.turnaround == TotalTurnaround(jobs, sched) && report.wait == TotalWait(jobs, sched)
      && report.response == TotalResponse(jobs, sched)
      && forall i :: 0 <= i < |jobs| ==> multiset(report.queue)[i] == jobs[i].burst
    ensures forall i :: 0 <= i < |jobs| ==>
      jobs[i].arrival <= Finish(sched, i) &&
      Waited(sched, i, jobs[i].arrival, Finish(sched, i)) == Waits(jobs, sched)[i]
  {
    ProducedIsSchedule(jobs, choice, sched);
    CompleteTallies(jobs, sched);
    TurnaroundSplits(jobs, sched);
    ChartLength(jobs, sched);
    assert [] + Busy(sched) == Busy(sched);
    forall i | 0 <= i < |jobs|
      ensures multiset(Busy(sched))[i] == jobs[i].burst
      ensures jobs[i].arrival <= Finish(sched, i)
      ensures Waited(sched, i, jobs[i].arrival, Finish(sched, i)) == Waits(jobs, sched)[i]
    {
      ChartHoldsEveryBurst(jobs, sched, i);
      WaitIsTimeNotRunning(jobs, sched, i);
    }
  }
}
