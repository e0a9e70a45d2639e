/**
 * Unit-tick schedules of one processor.  Tick t of a schedule names the job
 * that runs during [t, t + 1), or IDLE.
 */
module Schedules {
  import opened Sums

  const IDLE := -1

  datatype Job = Job(arrival: int, burst: int)

  predicate ValidJobs(jobs: seq<Job>) {
    forall i :: 0 <= i < |jobs| ==> jobs[i].arrival >= 0 && jobs[i].burst >= 1
  }

  function Bursts(jobs: seq<Job>): seq<int> {
    seq(|jobs|, i requires 0 <= i < |jobs| => jobs[i].burst)
  }

  /** The tick at time t; the processor idles after the end. */
  function At(sched: seq<int>, t: nat): int {
    if t < |sched| then sched[t] else IDLE
  }

  function Ran(left: seq<int>, p: int): seq<int> {
    if 0 <= p < |left| then left[p := left[p] - 1] else left
  }

  /** The work each job has left at time t. */
  function Left(jobs: seq<Job>, sched: seq<int>, t: nat): (r: seq<int>)
    ensures |r| == |jobs|
  {
    if t == 0 then Bursts(jobs) else Ran(Left(jobs, sched, t - 1), At(sched, t - 1))
  }

  predicate Ready(jobs: seq<Job>, left: seq<int>, t: nat, i: int)
    requires |left| == |jobs|
  {
    0 <= i < |jobs| && jobs[i].arrival <= t && left[i] > 0
  }

  predicate NoneReady(jobs: seq<Job>, left: seq<int>, t: nat)
    requires |left| == |jobs|
  {
    forall i :: 0 <= i < |jobs| ==> !Ready(jobs, left, t, i)
  }

  predicate ReadyAt(jobs: seq<Job>, sched: seq<int>, t: nat)
    requires t < |sched|
  {
    sched[t] == IDLE || Ready(jobs, Left(jobs, sched, t), t, sched[t])
  }

  /** Only jobs that have arrived and are unfinished run. */
  predicate IsSchedule(jobs: seq<Job>, sched: seq<int>) {
    forall t :: 0 <= t < |sched| ==> ReadyAt(jobs, sched, t)
  }

  /** Every job gets its whole burst. */
  predicate Complete(jobs: seq<Job>, sched: seq<int>) {
    forall i :: 0 <= i < |jobs| ==> Left(jobs, sched, |sched|)[i] == 0
  }

  /** The schedule stops when its last job does. */
  predicate Trimmed(sched: seq<int>) {
    sched != [] ==> sched[|sched| - 1] != IDLE
  }

  /** One past the last tick before t in which job i runs. */
  function FinishBy(sched: seq<int>, t: nat, i: int): (f: nat)
    ensures f <= t
  {
    if t == 0 then 0 else if At(sched, t - 1) == i then t else FinishBy(sched, t - 1, i)
  }

  function Finish(sched: seq<int>, i: int): nat {
    FinishBy(sched, |sched|, i)
  }

  function Turnarounds(jobs: seq<Job>, sched: seq<int>): seq<int> {
    seq(|jobs|, i requires 0 <= i < |jobs| => Finish(sched, i) - jobs[i].arrival)
  }

  function TotalTurnaround(jobs: seq<Job>, sched: seq<int>): int {
    Sum(Turnarounds(jobs, sched))
  }

  // ---- basic facts --------------------------------------------------------

  lemma {:induction false} LeftAgrees(jobs: seq<Job>, a: seq<int>, b: seq<int>, t: nat)
    requires t <= |a| && t <= |b| && a[..t] == b[..t]
    ensures Left(jobs, a, t) == Left(jobs, b, t)
    ensures forall i :: FinishBy(a, t, i) == FinishBy(b, t, i)
  {
    if t > 0 {
      assert a[..t - 1] == a[..t][..t - 1] == b[..t - 1];
      LeftAgrees(jobs, a, b, t - 1);
      assert a[t - 1] == a[..t][t - 1] == b[t - 1];
    }
  }

  /** Work never goes below zero, and a job that has not arrived has all of it left. */
  lemma {:induction false} LeftBound(jobs: seq<Job>, sched: seq<int>, t: nat, i: nat)
    requires ValidJobs(jobs) && IsSchedule(jobs, sched) && i < |jobs|
    ensures 0 <= Left(jobs, sched, t)[i] <= jobs[i].burst
    ensures jobs[i].arrival >= t ==> Left(jobs, sched, t)[i] == jobs[i].burst
  {
    if t > 0 {
      LeftBound(jobs, sched, t - 1, i);
      TickIsReady(jobs, sched, t - 1);
    }
  }

  lemma TickIsReady(jobs: seq<Job>, sched: seq<int>, t: nat)
    requires IsSchedule(jobs, sched)
    ensures At(sched, t) == IDLE || Ready(jobs, Left(jobs, sched, t), t, At(sched, t))
  {
    if t < |sched| {
      assert ReadyAt(jobs, sched, t);
    }
  }

  lemma LeftBounds(jobs: seq<Job>, sched: seq<int>, t: nat)
    requires ValidJobs(jobs) && IsSchedule(jobs, sched)
    ensures forall i :: 0 <= i < |jobs| ==> 0 <= Left(jobs, sched, t)[i] <= jobs[i].burst
    ensures forall i :: 0 <= i < |jobs| && jobs[i].arrival >= t ==> Left(jobs, sched, t)[i] == jobs[i].burst
  {
    forall i | 0 <= i < |jobs|
      ensures 0 <= Left(jobs, sched, t)[i] <= jobs[i].burst
      ensures jobs[i].arrival >= t ==> Left(jobs, sched, t)[i] == jobs[i].burst
    {
      LeftBound(jobs, sched, t, i);
    }
  }

  /** A finished job stays finished, and nothing moves after the end. */
  lemma {:induction false} StaysComplete(jobs: seq<Job>, sched: seq<int>, t: nat)
    requires t >= |sched|
    ensures Left(jobs, sched, t) == Left(jobs, sched, |sched|)
    ensures forall i :: i != IDLE ==> FinishBy(sched, t, i) == Finish(sched, i)
  {
    if t > |sched| {
      StaysComplete(jobs, sched, t - 1);
    }
  }

  // ---- extending a schedule -----------------------------------------------

  /** Adding a tick leaves the past alone. */
  lemma PastStays(jobs: seq<Job>, sched: seq<int>, more: seq<int>, t: nat)
    requires t <= |sched|
    ensures Left(jobs, sched + more, t) == Left(jobs, sched, t)
    ensures forall i :: FinishBy(sched + more, t, i) == FinishBy(sched, t, i)
  {
    assert (sched + more)[..t] == sched[..t];
    LeftAgrees(jobs, sched + more, sched, t);
  }

  lemma LeftTick(jobs: seq<Job>, sched: seq<int>, p: int)
    ensures Left(jobs, sched + [p], |sched| + 1) == Ran(Left(jobs, sched, |sched|), p)
  {
    PastStays(jobs, sched, [p], |sched|);
  }

  lemma FinishTick(jobs: seq<Job>, sched: seq<int>, p: int, i: int)
    ensures Finish(sched + [p], i) == if i == p then |sched| + 1 else Finish(sched, i)
  {
    PastStays(jobs, sched, [p], |sched|);
    assert At(sched + [p], |sched|) == p;
    assert FinishBy(sched + [p], |sched|, i) == FinishBy(sched, |sched|, i);
  }

  lemma AppendTick(jobs: seq<Job>, sched: seq<int>, p: int, longer: seq<int>)
    requires IsSchedule(jobs, sched) && longer == sched + [p]
    requires p == IDLE || Ready(jobs, Left(jobs, sched, |sched|), |sched|, p)
    ensures IsSchedule(jobs, longer)
    ensures Left(jobs, longer, |longer|) == Ran(Left(jobs, sched, |sched|), p)
  {
    LeftTick(jobs, sched, p);
    forall t | 0 <= t < |longer|
      ensures ReadyAt(jobs, longer, t)
    {
      PastStays(jobs, sched, [p], t);
      if t < |sched| {
        assert ReadyAt(jobs, sched, t) && longer[t] == sched[t];
      }
    }
  }

  // ---- turnaround as the area under the number of jobs in the system ------

  /** The jobs that have arrived and are unfinished at time t. */
  function InSystem(jobs: seq<Job>, sched: seq<int>, t: nat): set<int> {
    set i | 0 <= i < |jobs| && Ready(jobs, Left(jobs, sched, t), t, i)
  }

  function Area(jobs: seq<Job>, sched: seq<int>, t: nat): nat {
    if t == 0 then 0 else Area(jobs, sched, t - 1) + |InSystem(jobs, sched, t - 1)|
  }

  /** How long each job has been in the system by time t. */
  function Ages(jobs: seq<Job>, sched: seq<int>, t: nat): seq<int> {
    seq(|jobs|, i requires 0 <= i < |jobs| =>
      if Left(jobs, sched, t)[i] == 0 then FinishBy(sched, t, i) - jobs[i].arrival
      else if jobs[i].arrival <= t then t - jobs[i].arrival
      else 0)
  }

  lemma AgesGrow(jobs: seq<Job>, sched: seq<int>, t: nat)
    requires ValidJobs(jobs) && IsSchedule(jobs, sched)
    ensures Sum(Ages(jobs, sched, t + 1)) == Sum(Ages(jobs, sched, t)) + |InSystem(jobs, sched, t)|
  {
    LeftBounds(jobs, sched, t);
    TickIsReady(jobs, sched, t);
    SumBump(Ages(jobs, sched, t), Ages(jobs, sched, t + 1), InSystem(jobs, sched, t));
  }

  lemma {:induction false} AgesAreArea(jobs: seq<Job>, sched: seq<int>, t: nat, ages: seq<int>)
    requires ValidJobs(jobs) && IsSchedule(jobs, sched) && ages == Ages(jobs, sched, t)
    ensures Sum(ages) == Area(jobs, sched, t)
  {
    if t > 0 {
      AgesAreArea(jobs, sched, t - 1, Ages(jobs, sched, t - 1));
      AgesGrow(jobs, sched, t - 1);
    } else {
      SumNonNegative(ages);
    }
  }

  /** Total turnaround is the number of jobs in the system, summed over time. */
  lemma TurnaroundIsArea(jobs: seq<Job>, sched: seq<int>, t: nat)
    requires ValidJobs(jobs) && IsSchedule(jobs, sched) && Complete(jobs, sched) && t >= |sched|
    ensures TotalTurnaround(jobs, sched) == Area(jobs, sched, t)
  {
    AgesAreArea(jobs, sched, t, Ages(jobs, sched, t));
    StaysComplete(jobs, sched, t);
    assert Ages(jobs, sched, t) == Turnarounds(jobs, sched);
  }
}
