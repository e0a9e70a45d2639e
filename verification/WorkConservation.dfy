/** Schedules that idle only when no job is ready all finish together and idle in the same ticks. */
module WorkConservation {
  import opened Sums
  import opened Schedules
  import opened ScheduleAccounts

  predicate ConservesAt(jobs: seq<Job>, sched: seq<int>, t: nat)
    requires t < |sched|
  {
    sched[t] == IDLE ==> NoneReady(jobs, Left(jobs, sched, t), t)
  }

  predicate WorkConserving(jobs: seq<Job>, sched: seq<int>) {
    forall t :: 0 <= t < |sched| ==> ConservesAt(jobs, sched, t)
  }

  /** The bursts of the jobs that have not arrived at time t. */
  function NotArrived(jobs: seq<Job>, t: nat): seq<int> {
    seq(|jobs|, i requires 0 <= i < |jobs| => if jobs[i].arrival > t then jobs[i].burst else 0)
  }

  function Arrived(jobs: seq<Job>, left: seq<int>, t: nat): seq<int>
    requires |left| == |jobs|
  {
    seq(|jobs|, i requires 0 <= i < |jobs| => if jobs[i].arrival > t then 0 else left[i])
  }

  /** No schedule has done more than the work that has arrived; one with nothing ready has done all of it. */
  lemma ArrivedWork(jobs: seq<Job>, sched: seq<int>, t: nat)
    requires ValidJobs(jobs) && IsSchedule(jobs, sched)
    ensures Done(sched, t) <= Sum(Bursts(jobs)) - Sum(NotArrived(jobs, t))
    ensures NoneReady(jobs, Left(jobs, sched, t), t) <==>
            Done(sched, t) == Sum(Bursts(jobs)) - Sum(NotArrived(jobs, t))
  {
    var left := Left(jobs, sched, t);
    LeftBounds(jobs, sched, t);
    WorkLeft(jobs, sched, t);
    var arrived := Arrived(jobs, left, t);
    SumPlus(arrived, NotArrived(jobs, t), left);
    SumNonNegative(arrived);
    if NoneReady(jobs, left, t) {
      forall i | 0 <= i < |jobs|
        ensures arrived[i] == 0
      {
        assert !Ready(jobs, left, t, i);
      }
    } else {
      var i :| 0 <= i < |jobs| && Ready(jobs, left, t, i);
      assert arrived[i] > 0;
    }
  }

  /** A work-conserving schedule is never behind any other. */
  lemma {:induction false} NeverBehind(jobs: seq<Job>, conserving: seq<int>, other: seq<int>, t: nat)
    requires ValidJobs(jobs) && IsSchedule(jobs, conserving) && IsSchedule(jobs, other)
    requires WorkConserving(jobs, conserving) && Complete(jobs, conserving)
    ensures Done(other, t) <= Done(conserving, t)
  {
    if t > 0 {
      NeverBehind(jobs, conserving, other, t - 1);
      if At(conserving, t - 1) == IDLE && At(other, t - 1) != IDLE {
        IdleMeansNoneReady(jobs, conserving, t - 1);
        ArrivedWork(jobs, conserving, t - 1);
        ArrivedWork(jobs, other, t - 1);
        TickIsReady(jobs, other, t - 1);
      }
    }
  }

  lemma IdleMeansNoneReady(jobs: seq<Job>, sched: seq<int>, t: nat)
    requires WorkConserving(jobs, sched) && Complete(jobs, sched) && At(sched, t) == IDLE
    ensures NoneReady(jobs, Left(jobs, sched, t), t)
  {
    if t < |sched| {
      assert ConservesAt(jobs, sched, t);
    } else {
      StaysComplete(jobs, sched, t);
    }
  }

  lemma {:induction false} DoneMonotone(sched: seq<int>, s: nat, t: nat)
    requires s <= t
    ensures Done(sched, s) <= Done(sched, t)
  {
    if s < t {
      DoneMonotone(sched, s, t - 1);
    }
  }

  lemma AllDone(jobs: seq<Job>, sched: seq<int>)
    requires IsSchedule(jobs, sched) && Complete(jobs, sched)
    ensures Done(sched, |sched|) == Sum(Bursts(jobs))
  {
    BusyLength(sched);
    ChartLength(jobs, sched);
  }

  /** No complete schedule ends before a work-conserving one. */
  lemma ConservingIsFastest(jobs: seq<Job>, conserving: seq<int>, other: seq<int>)
    requires ValidJobs(jobs) && IsSchedule(jobs, conserving) && IsSchedule(jobs, other)
    requires WorkConserving(jobs, conserving) && Complete(jobs, conserving) && Complete(jobs, other)
    requires Trimmed(conserving)
    ensures |conserving| <= |other|
  {
    if |other| < |conserving| {
      AllDone(jobs, other);
      AllDone(jobs, conserving);
      NeverBehind(jobs, conserving, other, |other|);
      DoneMonotone(conserving, |other|, |conserving| - 1);
    }
  }

  /** Two work-conserving schedules of the same jobs have the same length and the same idle ticks. */
  lemma SameIdleTicks(jobs: seq<Job>, a: seq<int>, b: seq<int>)
    requires ValidJobs(jobs) && IsSchedule(jobs, a) && IsSchedule(jobs, b)
    requires WorkConserving(jobs, a) && WorkConserving(jobs, b)
    requires Complete(jobs, a) && Complete(jobs, b) && Trimmed(a) && Trimmed(b)
    ensures |a| == |b|
    ensures forall t :: 0 <= t < |a| ==> (a[t] == IDLE <==> b[t] == IDLE)
  {
    ConservingIsFastest(jobs, a, b);
    ConservingIsFastest(jobs, b, a);
    forall t | 0 <= t < |a|
      ensures a[t] == IDLE <==> b[t] == IDLE
    {
      NeverBehind(jobs, a, b, t);
      NeverBehind(jobs, b, a, t);
      NeverBehind(jobs, a, b, t + 1);
      NeverBehind(jobs, b, a, t + 1);
      assert At(a, t) == a[t] && At(b, t) == b[t];
    }
  }
}
