/** What every complete schedule conserves: run counts, waiting time, queue length, context switches. */
module ScheduleAccounts {
  import opened Sets
  import opened Sums
  import opened Schedules

  /** The schedule without its idle ticks: what the simulator records for its chart. */
  function Busy(sched: seq<int>): seq<int> {
    if sched == [] then []
    else Busy(sched[..|sched| - 1]) + if sched[|sched| - 1] == IDLE then [] else [sched[|sched| - 1]]
  }

  /** The number of ticks in [a, b) in which job i does not run. */
  function Waited(sched: seq<int>, i: int, a: nat, b: nat): nat
    requires a <= b
  {
    if a == b then 0 else Waited(sched, i, a, b - 1) + if At(sched, b - 1) == i then 0 else 1
  }

  function Waits(jobs: seq<Job>, sched: seq<int>): seq<int> {
    seq(|jobs|, i requires 0 <= i < |jobs| => Finish(sched, i) - jobs[i].arrival - jobs[i].burst)
  }

  function TotalWait(jobs: seq<Job>, sched: seq<int>): int {
    Sum(Waits(jobs, sched))
  }

  /** One more than the number of places where neighbours in the chart differ. */
  function Switches(queue: seq<int>): nat {
    if |queue| <= 1 then 1
    else Switches(queue[..|queue| - 1]) + if queue[|queue| - 2] != queue[|queue| - 1] then 1 else 0
  }

  lemma {:induction false} BusyAppend(sched: seq<int>, p: int)
    ensures Busy(sched + [p]) == Busy(sched) + if p == IDLE then [] else [p]
  {
    assert (sched + [p])[..|sched|] == sched;
  }

  lemma {:induction false} BusyCounts(sched: seq<int>, i: int)
    requires i != IDLE
    ensures multiset(Busy(sched))[i] == multiset(sched)[i]
  {
    if sched != [] {
      var n := |sched| - 1;
      assert sched == sched[..n] + [sched[n]];
      BusyCounts(sched[..n], i);
    }
  }

  /** In t ticks a job has run as often as its remaining work has dropped. */
  lemma {:induction false} RunsSoFar(jobs: seq<Job>, sched: seq<int>, t: nat, i: nat)
    requires i < |jobs| && t <= |sched|
    ensures multiset(sched[..t])[i] == jobs[i].burst - Left(jobs, sched, t)[i]
  {
    if t > 0 {
      RunsSoFar(jobs, sched, t - 1, i);
      assert sched[..t] == sched[..t - 1] + [sched[t - 1]];
    }
  }

  /** Each job appears in the chart exactly burst times. */
  lemma ChartHoldsEveryBurst(jobs: seq<Job>, sched: seq<int>, i: nat)
    requires i < |jobs| && Complete(jobs, sched)
    ensures multiset(Busy(sched))[i] == jobs[i].burst
  {
    RunsSoFar(jobs, sched, |sched|, i);
    assert sched[..|sched|] == sched;
    BusyCounts(sched, i);
  }

  // ---- total work ---------------------------------------------------------

  /** The number of busy ticks before t. */
  function Done(sched: seq<int>, t: nat): nat {
    if t == 0 then 0 else Done(sched, t - 1) + if At(sched, t - 1) == IDLE then 0 else 1
  }

  lemma {:induction false} WorkLeft(jobs: seq<Job>, sched: seq<int>, t: nat)
    requires IsSchedule(jobs, sched)
    ensures Sum(Left(jobs, sched, t)) == Sum(Bursts(jobs)) - Done(sched, t)
  {
    if t > 0 {
      WorkLeft(jobs, sched, t - 1);
      TickIsReady(jobs, sched, t - 1);
      var left, p := Left(jobs, sched, t - 1), At(sched, t - 1);
      if p != IDLE {
        SumUpdate(left, p, left[p] - 1);
      }
    }
  }

  lemma {:induction false} BusyLength(sched: seq<int>)
    ensures |Busy(sched)| == Done(sched, |sched|)
  {
    if sched != [] {
      var n := |sched| - 1;
      BusyLength(sched[..n]);
      DoneAgrees(sched, sched[..n], n);
    }
  }

  /** The chart holds the busy ticks in order: each comes behind as many as there were before it. */
  lemma {:induction false} ChartOrder(sched: seq<int>, t: nat)
    requires t < |sched| && sched[t] != IDLE
    ensures Done(sched, t) < |Busy(sched)| && Busy(sched)[Done(sched, t)] == sched[t]
  {
    var n := |sched| - 1;
    BusyLength(sched[..n]);
    DoneAgrees(sched, sched[..n], t);
    if t < n {
      ChartOrder(sched[..n], t);
    }
  }

  lemma {:induction false} DoneAgrees(a: seq<int>, b: seq<int>, t: nat)
    requires t <= |a| && t <= |b| && a[..t] == b[..t]
    ensures Done(a, t) == Done(b, t)
  {
    if t > 0 {
      assert a[..t - 1] == a[..t][..t - 1] == b[..t - 1];
      assert a[t - 1] == a[..t][t - 1] == b[t - 1];
      DoneAgrees(a, b, t - 1);
    }
  }

  /** The chart is as long as the total work. */
  lemma ChartLength(jobs: seq<Job>, sched: seq<int>)
    requires IsSchedule(jobs, sched) && Complete(jobs, sched)
    ensures |Busy(sched)| == Sum(Bursts(jobs))
  {
    BusyLength(sched);
    WorkLeft(jobs, sched, |sched|);
    SumNonNegative(Left(jobs, sched, |sched|));
  }

  // ---- waiting ------------------------------------------------------------

  lemma {:induction false} WaitedPlusRun(jobs: seq<Job>, sched: seq<int>, i: nat, a: nat, b: nat)
    requires i < |jobs| && a <= b
    ensures Waited(sched, i, a, b) == b - a - (Left(jobs, sched, a)[i] - Left(jobs, sched, b)[i])
  {
    if a < b {
      WaitedPlusRun(jobs, sched, i, a, b - 1);
    }
  }

  /** No work is done on a job after its finishing time. */
  lemma {:induction false} NothingAfterFinish(jobs: seq<Job>, sched: seq<int>, i: nat, t: nat)
    requires i < |jobs|
    ensures Left(jobs, sched, FinishBy(sched, t, i))[i] == Left(jobs, sched, t)[i]
  {
    if t > 0 && At(sched, t - 1) != i {
      NothingAfterFinish(jobs, sched, i, t - 1);
    }
  }

  /** A job's waiting time is the number of ticks it spends in the system without running. */
  lemma WaitIsTimeNotRunning(jobs: seq<Job>, sched: seq<int>, i: nat)
    requires ValidJobs(jobs) && IsSchedule(jobs, sched) && Complete(jobs, sched) && i < |jobs|
    ensures jobs[i].arrival <= Finish(sched, i)
    ensures Waited(sched, i, jobs[i].arrival, Finish(sched, i)) == Waits(jobs, sched)[i]
  {
    var f := Finish(sched, i);
    NothingAfterFinish(jobs, sched, i, |sched|);
    LeftBound(jobs, sched, f, i);
    LeftBound(jobs, sched, jobs[i].arrival, i);
    WaitedPlusRun(jobs, sched, i, jobs[i].arrival, f);
  }

  /** turnaround == wait + busy. */
  lemma TurnaroundSplits(jobs: seq<Job>, sched: seq<int>)
    ensures TotalTurnaround(jobs, sched) == TotalWait(jobs, sched) + Sum(Bursts(jobs))
  {
    SumPlus(Waits(jobs, sched), Bursts(jobs), Turnarounds(jobs, sched));
  }

  // ---- context switches ---------------------------------------------------

  predicate ChangesAt(queue: seq<int>, j: int) {
    0 <= j < |queue| - 1 && queue[j] != queue[j + 1]
  }

  /** The places in the chart where the next tick belongs to another process. */
  function Changes(queue: seq<int>): set<int> {
    set j | 0 <= j < |queue| && ChangesAt(queue, j)
  }

  lemma {:induction false} SwitchesAreChanges(queue: seq<int>)
    ensures Switches(queue) == 1 + |Changes(queue)|
  {
    var n := |queue| - 1;
    if n <= 0 {
      assert Changes(queue) == {};
    } else {
      SwitchesAreChanges(queue[..n]);
      assert forall j :: 0 <= j < n - 1 ==> (ChangesAt(queue, j) <==> ChangesAt(queue[..n], j));
      assert Changes(queue) == Changes(queue[..n]) + if queue[n - 1] != queue[n] then {n - 1} else {};
    }
  }

  /** At least one switch for every process in the chart. */
  lemma {:induction false} SwitchesBound(queue: seq<int>)
    ensures |Elements(queue)| <= Switches(queue)
  {
    if queue != [] {
      var n := |queue| - 1;
      SwitchesBound(queue[..n]);
      assert Elements(queue) == Elements(queue[..n]) + {queue[n]};
      if n > 0 && queue[n - 1] == queue[n] {
        assert queue[..n][n - 1] in Elements(queue[..n]);
        assert Elements(queue) == Elements(queue[..n]);
      } else if n == 0 {
        assert queue[..n] == [];
        assert Elements(queue) == {queue[0]};
      }
    }
  }
}
