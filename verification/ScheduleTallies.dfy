/**
 * What the simulator adds up as jobs finish, as functions of the schedule so
 * far: turnaround, wait, response, busy time and the number of finished jobs.  A
 * tick changes them only by the job that it finishes.
 */
module ScheduleTallies {
  import opened Sums
  import opened Schedules
  import opened ScheduleAccounts

  /** The first tick before t in which job i runs, or t if there is none. */
  function FirstBy(sched: seq<int>, t: nat, i: int): (f: nat)
    ensures f <= t
  {
    if t == 0 then 0
    else
      var f := FirstBy(sched, t - 1, i);
      if f < t - 1 || At(sched, t - 1) == i then f else t
  }

  function Start(sched: seq<int>, i: int): nat {
    FirstBy(sched, |sched|, i)
  }

  /** A job starts in its first tick, and ends with its last. */
  lemma FirstAndLast(sched: seq<int>, i: int)
    ensures i in sched ==> Start(sched, i) < Finish(sched, i) && sched[Start(sched, i)] == i == sched[Finish(sched, i) - 1]
    ensures forall t :: 0 <= t < |sched| && sched[t] == i ==> Start(sched, i) <= t < Finish(sched, i)
  {
    if i in sched {
      var t :| 0 <= t < |sched| && sched[t] == i;
    }
    FirstIsFirst(sched, |sched|, i);
    LastIsLast(sched, |sched|, i);
  }

  lemma {:induction false} FirstIsFirst(sched: seq<int>, t: nat, i: int)
    requires t <= |sched|
    ensures FirstBy(sched, t, i) < t ==> sched[FirstBy(sched, t, i)] == i
    ensures forall s :: 0 <= s < t && sched[s] == i ==> FirstBy(sched, t, i) <= s
  {
    if t > 0 {
      FirstIsFirst(sched, t - 1, i);
    }
  }

  lemma {:induction false} LastIsLast(sched: seq<int>, t: nat, i: int)
    requires t <= |sched|
    ensures FinishBy(sched, t, i) > 0 ==> sched[FinishBy(sched, t, i) - 1] == i
    ensures forall s :: 0 <= s < t && sched[s] == i ==> s < FinishBy(sched, t, i)
  {
    if t > 0 {
      LastIsLast(sched, t - 1, i);
    }
  }

  /** From arrival to the first tick, job by job. */
  function Responses(jobs: seq<Job>, sched: seq<int>): seq<int> {
    seq(|jobs|, i requires 0 <= i < |jobs| => Start(sched, i) - jobs[i].arrival)
  }

  function TotalResponse(jobs: seq<Job>, sched: seq<int>): int {
    Sum(Responses(jobs, sched))
  }

  datatype Measure = Turnaround | Waiting | Response | Work | Completed

  function Value(m: Measure, jobs: seq<Job>, sched: seq<int>, i: int): int
    requires 0 <= i < |jobs|
  {
    match m
    case Turnaround => Finish(sched, i) - jobs[i].arrival
    case Waiting => Finish(sched, i) - jobs[i].arrival - jobs[i].burst
    case Response => Start(sched, i) - jobs[i].arrival
    case Work => jobs[i].burst
    case Completed => 1
  }

  function Contribution(m: Measure, jobs: seq<Job>, sched: seq<int>, i: int): int
    requires 0 <= i < |jobs|
  {
    if Left(jobs, sched, |sched|)[i] == 0 then Value(m, jobs, sched, i) else 0
  }

  function Contributions(m: Measure, jobs: seq<Job>, sched: seq<int>): seq<int> {
    seq(|jobs|, i requires 0 <= i < |jobs| => Contribution(m, jobs, sched, i))
  }

  /** The sum of a measure over the finished jobs. */
  function Tally(m: Measure, jobs: seq<Job>, sched: seq<int>): int {
    Sum(Contributions(m, jobs, sched))
  }

  lemma {:induction false} FirstAgrees(a: seq<int>, b: seq<int>, t: nat, i: int)
    requires t <= |a| && t <= |b| && a[..t] == b[..t]
    ensures FirstBy(a, t, i) == FirstBy(b, t, i)
  {
    if t > 0 {
      assert a[..t - 1] == a[..t][..t - 1] == b[..t - 1];
      assert a[t - 1] == a[..t][t - 1] == b[t - 1];
      FirstAgrees(a, b, t - 1, i);
    }
  }

  lemma StartTick(sched: seq<int>, p: int, i: int)
    ensures Start(sched + [p], i) == if Start(sched, i) < |sched| || i == p then Start(sched, i) else |sched| + 1
  {
    assert (sched + [p])[..|sched|] == sched[..|sched|];
    FirstAgrees(sched + [p], sched, |sched|, i);
  }

  /** A job has started exactly if it has work done. */
  lemma {:induction false} StartedIfRan(jobs: seq<Job>, sched: seq<int>, t: nat, i: nat)
    requires ValidJobs(jobs) && IsSchedule(jobs, sched) && i < |jobs| && t <= |sched|
    ensures FirstBy(sched, t, i) < t <==> Left(jobs, sched, t)[i] < jobs[i].burst
  {
    if t > 0 {
      StartedIfRan(jobs, sched, t - 1, i);
      LeftBound(jobs, sched, t - 1, i);
    }
  }

  lemma ContributionStays(m: Measure, jobs: seq<Job>, sched: seq<int>, p: int, i: nat)
    requires ValidJobs(jobs) && IsSchedule(jobs, sched) && i < |jobs| && i != p
    requires p == IDLE || Ready(jobs, Left(jobs, sched, |sched|), |sched|, p)
    ensures Contribution(m, jobs, sched + [p], i) == Contribution(m, jobs, sched, i)
  {
    LeftTick(jobs, sched, p);
    FinishTick(jobs, sched, p, i);
    StartTick(sched, p, i);
    StartedIfRan(jobs, sched, |sched|, i);
  }

  /** A tick changes a tally only by finishing a job. */
  lemma TallyTick(m: Measure, jobs: seq<Job>, sched: seq<int>, p: int)
    requires ValidJobs(jobs) && IsSchedule(jobs, sched)
    requires p == IDLE || Ready(jobs, Left(jobs, sched, |sched|), |sched|, p)
    ensures Tally(m, jobs, sched + [p]) == Tally(m, jobs, sched) + if p == IDLE then 0 else Contribution(m, jobs, sched + [p], p)
  {
    var before, after := Contributions(m, jobs, sched), Contributions(m, jobs, sched + [p]);
    forall i | 0 <= i < |jobs| && i != p
      ensures after[i] == before[i]
    {
      ContributionStays(m, jobs, sched, p, i);
    }
    if p != IDLE {
      assert before[p] == 0;
      SumUpdate(before, p, after[p]);
      assert after == before[p := after[p]];
    } else {
      assert after == before;
    }
  }

  function Repeat(i: int, m: nat): seq<int> {
    seq(m, _ => i)
  }

  /** Running a ready job for e ticks. */
  lemma {:induction false} RunExtends(jobs: seq<Job>, sched: seq<int>, i: nat, e: nat, longer: seq<int>)
    requires IsSchedule(jobs, sched) && i < |jobs| && jobs[i].arrival <= |sched|
    requires e <= Left(jobs, sched, |sched|)[i] && longer == sched + Repeat(i, e)
    ensures IsSchedule(jobs, longer)
    ensures Left(jobs, longer, |longer|) == Left(jobs, sched, |sched|)[i := Left(jobs, sched, |sched|)[i] - e]
    decreases e
  {
    if e == 0 {
      assert longer == sched;
    } else {
      var shorter := longer[..|longer| - 1];
      assert longer == shorter + [i];
      RunExtends(jobs, sched, i, e - 1, shorter);
      AppendTick(jobs, shorter, i, longer);
    }
  }

  /** Running a job for e ticks changes a tally only if it finishes the job. */
  lemma {:induction false} TallyRun(m: Measure, jobs: seq<Job>, sched: seq<int>, i: nat, e: nat, longer: seq<int>)
    requires ValidJobs(jobs) && IsSchedule(jobs, sched) && i < |jobs| && jobs[i].arrival <= |sched|
    requires 0 < e <= Left(jobs, sched, |sched|)[i] && longer == sched + Repeat(i, e)
    ensures Tally(m, jobs, longer) == Tally(m, jobs, sched) + Contribution(m, jobs, longer, i)
    decreases e
  {
    var shorter := longer[..|longer| - 1];
    assert longer == shorter + [i];
    RunExtends(jobs, sched, i, e - 1, shorter);
    TallyTick(m, jobs, shorter, i);
    if e == 1 {
      assert shorter == sched;
    } else {
      TallyRun(m, jobs, sched, i, e - 1, shorter);
    }
  }

  /** When a schedule is complete its tallies are the totals. */
  lemma CompleteTallies(jobs: seq<Job>, sched: seq<int>)
    requires Complete(jobs, sched)
    ensures Tally(Turnaround, jobs, sched) == TotalTurnaround(jobs, sched)
    ensures Tally(Waiting, jobs, sched) == TotalWait(jobs, sched)
    ensures Tally(Response, jobs, sched) == TotalResponse(jobs, sched)
    ensures Tally(Work, jobs, sched) == Sum(Bursts(jobs))
  {
    assert Contributions(Turnaround, jobs, sched) == Turnarounds(jobs, sched);
    assert Contributions(Waiting, jobs, sched) == Waits(jobs, sched);
    assert Contributions(Response, jobs, sched) == Responses(jobs, sched);
    assert Contributions(Work, jobs, sched) == Bursts(jobs);
  }

  lemma {:induction false} AllOnes(v: seq<int>)
    requires forall i :: 0 <= i < |v| ==> v[i] == 0 || v[i] == 1
    ensures Sum(v) <= |v|
    ensures Sum(v) == |v| <==> forall i :: 0 <= i < |v| ==> v[i] == 1
  {
    if v != [] {
      var n := |v| - 1;
      AllOnes(v[..n]);
      assert forall i :: 0 <= i < n ==> v[..n][i] == v[i];
    }
  }

  /** Counting finished jobs: all are counted exactly when the schedule is complete. */
  lemma CompletedMeansComplete(jobs: seq<Job>, sched: seq<int>)
    ensures Tally(Completed, jobs, sched) <= |jobs|
    ensures Tally(Completed, jobs, sched) == |jobs| <==> Complete(jobs, sched)
  {
    var v := Contributions(Completed, jobs, sched);
    AllOnes(v);
    assert forall i :: 0 <= i < |jobs| ==> (v[i] == 1 <==> Left(jobs, sched, |sched|)[i] == 0);
  }
}
