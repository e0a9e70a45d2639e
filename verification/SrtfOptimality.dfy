/**
 * Running the job with the least work left minimises total turnaround over all
 * single-processor schedules, preemptive ones included.
 */
module SrtfOptimality {
  import opened Sets
  import opened Sums
  import opened Schedules

  /** The lowest-numbered ready job among the first n with the least work left, or IDLE. */
  function Shortest(jobs: seq<Job>, left: seq<int>, t: nat, n: nat): (best: int)
    requires |left| == |jobs| && n <= |jobs|
    ensures best == IDLE <==> forall i :: 0 <= i < n ==> !Ready(jobs, left, t, i)
    ensures best != IDLE ==> 0 <= best < n && Ready(jobs, left, t, best)
    ensures best != IDLE ==> forall i :: 0 <= i < n && Ready(jobs, left, t, i) ==>
      left[best] < left[i] || (left[best] == left[i] && best <= i)
  {
    if n == 0 then IDLE else
    var best := Shortest(jobs, left, t, n - 1);
    if Ready(jobs, left, t, n - 1) && (best == IDLE || left[n - 1] < left[best]) then n - 1 else best
  }

  predicate SrtfAt(jobs: seq<Job>, sched: seq<int>, t: nat)
    requires t < |sched|
  {
    sched[t] == Shortest(jobs, Left(jobs, sched, t), t, |jobs|)
  }

  /** Shortest remaining time first. */
  predicate FollowsSrtf(jobs: seq<Job>, sched: seq<int>) {
    forall t :: 0 <= t < |sched| ==> SrtfAt(jobs, sched, t)
  }

  /** The work left of the jobs that have arrived. */
  function Active(jobs: seq<Job>, left: seq<int>, t: nat): seq<int>
    requires |left| == |jobs|
  {
    seq(|jobs|, i requires 0 <= i < |jobs| => if jobs[i].arrival <= t then left[i] else 0)
  }

  // ---- work outside a set of jobs -----------------------------------------

  function Rest(v: seq<int>, x: set<int>): int {
    if v == [] then 0
    else var n := |v| - 1; Rest(v[..n], x) + if n in x then 0 else v[n]
  }

  lemma {:induction false} RestUpdate(v: seq<int>, i: nat, w: int, x: set<int>)
    requires i < |v|
    ensures Rest(v[i := w], x) == Rest(v, x) + if i in x then 0 else w - v[i]
  {
    var n := |v| - 1;
    if i == n {
      assert v[i := w][..n] == v[..n];
    } else {
      assert v[i := w][..n] == v[..n][i := w];
      RestUpdate(v[..n], i, w, x);
    }
  }

  lemma {:induction false} RestAdd(v: seq<int>, x: set<int>, i: nat)
    requires i < |v| && i !in x
    ensures Rest(v, x + {i}) == Rest(v, x) - v[i]
  {
    var n := |v| - 1;
    if i < n {
      RestAdd(v[..n], x, i);
    } else {
      RestIgnores(v[..n], x, i);
    }
  }

  lemma {:induction false} RestIgnores(v: seq<int>, x: set<int>, i: nat)
    requires |v| <= i
    ensures Rest(v, x + {i}) == Rest(v, x)
  {
    if v != [] {
      RestIgnores(v[..|v| - 1], x, i);
    }
  }

  lemma {:induction false} RestZero(v: seq<int>, x: set<int>)
    requires NonNegative(v)
    ensures Rest(v, x) >= 0
    ensures Rest(v, x) == 0 <==> forall i :: 0 <= i < |v| && v[i] > 0 ==> i in x
  {
    if v != [] {
      var n := |v| - 1;
      RestZero(v[..n], x);
      assert forall i :: 0 <= i < n ==> v[..n][i] == v[i];
    }
  }

  // ---- dominance ----------------------------------------------------------

  /** However many jobs b sets aside, a can set aside no more and have no more work left over. */
  ghost predicate Dominates(a: seq<int>, b: seq<int>) {
    forall x :: Matches(a, b, x)
  }

  ghost predicate Matches(a: seq<int>, b: seq<int>, x: set<int>) {
    exists y :: Within(a, y, |x|, Rest(b, x))
  }

  ghost predicate Within(a: seq<int>, y: set<int>, size: nat, work: int) {
    |y| <= size && Rest(a, y) <= work
  }

  /** The same job arrives on both sides. */
  lemma ArrivalKeeps(a: seq<int>, b: seq<int>, i: nat, w: nat)
    requires |a| == |b| && i < |a| && a[i] == b[i] == 0 && Dominates(a, b)
    ensures Dominates(a[i := w], b[i := w])
  {
    var c, d := a[i := w], b[i := w];
    forall x: set<int>
      ensures Matches(c, d, x)
    {
      if i in x {
        ArrivalAside(a, b, i, w, x);
      } else {
        assert Matches(a, b, x);
        var y :| Within(a, y, |x|, Rest(b, x));
        RestUpdate(a, i, w, y);
        RestUpdate(b, i, w, x);
        assert Within(c, y, |x|, Rest(d, x));
      }
    }
  }

  /** If b sets the arriving job aside, so does a. */
  lemma ArrivalAside(a: seq<int>, b: seq<int>, i: nat, w: nat, x: set<int>)
    requires |a| == |b| && i < |a| && a[i] == b[i] == 0 && i in x && Dominates(a, b)
    ensures Matches(a[i := w], b[i := w], x)
  {
    var others: set<int> := x - {i};
    assert Matches(a, b, others);
    var y: set<int> :| Within(a, y, |others|, Rest(b, others));
    RestAdd(b, others, i);
    assert others + {i} == x;
    if i !in y {
      RestAdd(a, y, i);
    } else {
      assert y + {i} == y;
    }
    RestUpdate(a, i, w, y + {i});
    RestUpdate(b, i, w, x);
    assert Within(a[i := w], y + {i}, |x|, Rest(b[i := w], x));
  }

  lemma {:induction false} ArrivalsKeep(a: seq<int>, b: seq<int>, c: seq<int>, d: seq<int>, m: nat)
    requires |a| == |b| == |c| == |d| && m <= |a| && Dominates(a, b)
    requires forall i :: 0 <= i < m ==> SameArrival(a[i], b[i], c[i], d[i])
    requires forall i :: m <= i < |a| ==> c[i] == a[i] && d[i] == b[i]
    ensures Dominates(c, d)
    decreases m
  {
    if m == 0 {
      assert c == a && d == b;
    } else {
      var e, f := c[m - 1 := a[m - 1]], d[m - 1 := b[m - 1]];
      ArrivalsKeep(a, b, e, f, m - 1);
      if c[m - 1] == a[m - 1] && d[m - 1] == b[m - 1] {
        assert c == e && d == f;
      } else {
        ArrivalKeeps(e, f, m - 1, c[m - 1]);
        assert c == e[m - 1 := c[m - 1]] && d == f[m - 1 := d[m - 1]];
      }
    }
  }

  /** One side runs its shortest unfinished job (or has none), the other runs anything (or idles). */
  lemma TickKeeps(a: seq<int>, b: seq<int>, s: int, q: int)
    requires |a| == |b| && NonNegative(a) && NonNegative(b) && Dominates(a, b)
    requires RunsShortest(a, s)
    requires q == IDLE || (0 <= q < |b| && b[q] > 0)
    ensures Dominates(Ran(a, s), Ran(b, q))
  {
    forall x
      ensures Matches(Ran(a, s), Ran(b, q), x)
    {
      assert Matches(a, b, x);
      var y :| Within(a, y, |x|, Rest(b, x));
      if q != IDLE {
        RestUpdate(b, q, b[q] - 1, x);
      }
      RestZero(Ran(b, q), x);
      var z := TickSide(a, s, y, Rest(Ran(b, q), x));
      assert Within(Ran(a, s), z, |x|, Rest(Ran(b, q), x));
    }
  }

  /** The shortest job can always be among those not set aside. */
  lemma TickSide(a: seq<int>, s: int, y: set<int>, bound: nat) returns (z: set<int>)
    requires NonNegative(a) && Rest(a, y) <= bound + 1
    requires RunsShortest(a, s)
    ensures Within(Ran(a, s), z, |y|, bound)
  {
    RestZero(a, y);
    z := y;
    if s != IDLE {
      if Rest(a, y) > 0 && s in y {
        var u :| 0 <= u < |a| && a[u] > 0 && u !in y;
        z := y - {s} + {u};
        RestAdd(a, y - {s}, s);
        assert y - {s} + {s} == y;
        RestAdd(a, y - {s}, u);
      }
      RestUpdate(a, s, a[s] - 1, z);
    }
  }

  predicate RunsShortest(a: seq<int>, s: int) {
    if s == IDLE then forall i :: 0 <= i < |a| ==> a[i] == 0
    else 0 <= s < |a| && a[s] > 0 && forall i :: 0 <= i < |a| && a[i] > 0 ==> a[s] <= a[i]
  }

  // ---- the theorem --------------------------------------------------------

  lemma {:induction false} SrtfDominates(jobs: seq<Job>, srtf: seq<int>, other: seq<int>, t: nat)
    requires ValidJobs(jobs) && FollowsSrtf(jobs, srtf) && Complete(jobs, srtf)
    requires IsSchedule(jobs, srtf) && IsSchedule(jobs, other)
    ensures Dominates(Active(jobs, Left(jobs, srtf, t), t), Active(jobs, Left(jobs, other, t), t))
  {
    if t == 0 {
      assert Left(jobs, other, t) == Left(jobs, srtf, t);
      SelfDominates(Active(jobs, Left(jobs, srtf, t), t));
    } else {
      var u := t - 1;
      SrtfDominates(jobs, srtf, other, u);
      SrtfKeepsDominating(jobs, srtf, other, u);
    }
  }

  lemma SelfDominates(a: seq<int>)
    ensures Dominates(a, a)
  {
    forall x
      ensures Matches(a, a, x)
    {
      assert Within(a, x, |x|, Rest(a, x));
    }
  }

  lemma SrtfKeepsDominating(jobs: seq<Job>, srtf: seq<int>, other: seq<int>, t: nat)
    requires ValidJobs(jobs) && FollowsSrtf(jobs, srtf) && Complete(jobs, srtf)
    requires IsSchedule(jobs, srtf) && IsSchedule(jobs, other)
    requires Dominates(Active(jobs, Left(jobs, srtf, t), t), Active(jobs, Left(jobs, other, t), t))
    ensures Dominates(Active(jobs, Left(jobs, srtf, t + 1), t + 1), Active(jobs, Left(jobs, other, t + 1), t + 1))
  {
    SrtfTick(jobs, srtf, t);
    var a, b := Active(jobs, Left(jobs, srtf, t), t), Active(jobs, Left(jobs, other, t), t);
    var c, d := Active(jobs, Left(jobs, srtf, t + 1), t + 1), Active(jobs, Left(jobs, other, t + 1), t + 1);
    var s, q := At(srtf, t), At(other, t);
    ActiveTick(jobs, srtf, t);
    ActiveTick(jobs, other, t);
    forall i | 0 <= i < |jobs|
      ensures SameArrival(Ran(a, s)[i], Ran(b, q)[i], c[i], d[i])
    {
    }
    DominatesNext(a, b, s, q, c, d);
  }

  predicate SameArrival(before: int, other: int, after: int, otherAfter: int) {
    (after == before && otherAfter == other) || (before == other == 0 <= after == otherAfter)
  }

  lemma DominatesNext(a: seq<int>, b: seq<int>, s: int, q: int, c: seq<int>, d: seq<int>)
    requires |a| == |b| == |c| == |d| && NonNegative(a) && NonNegative(b) && Dominates(a, b)
    requires RunsShortest(a, s) && (q == IDLE || (0 <= q < |b| && b[q] > 0))
    requires forall i :: 0 <= i < |a| ==> SameArrival(Ran(a, s)[i], Ran(b, q)[i], c[i], d[i])
    ensures Dominates(c, d)
  {
    TickKeeps(a, b, s, q);
    ArrivalsKeep(Ran(a, s), Ran(b, q), c, d, |a|);
  }

  /** A tick and the arrivals after it, seen on the work of the jobs that have arrived. */
  lemma ActiveTick(jobs: seq<Job>, sched: seq<int>, t: nat)
    requires ValidJobs(jobs) && IsSchedule(jobs, sched)
    ensures var a := Active(jobs, Left(jobs, sched, t), t);
      var q := At(sched, t);
      var c := Active(jobs, Left(jobs, sched, t + 1), t + 1);
      && NonNegative(a)
      && (q == IDLE || (0 <= q < |a| && a[q] > 0))
      && forall i :: 0 <= i < |jobs| ==>
           if jobs[i].arrival == t + 1 then Ran(a, q)[i] == 0 && c[i] == jobs[i].burst else c[i] == Ran(a, q)[i]
  {
    LeftBounds(jobs, sched, t);
    LeftBounds(jobs, sched, t + 1);
    TickIsReady(jobs, sched, t);
  }

  lemma SrtfIsSchedule(jobs: seq<Job>, srtf: seq<int>)
    requires FollowsSrtf(jobs, srtf)
    ensures IsSchedule(jobs, srtf)
  {
    forall t | 0 <= t < |srtf|
      ensures ReadyAt(jobs, srtf, t)
    {
      assert SrtfAt(jobs, srtf, t);
    }
  }

  /** The tick SRTF takes, seen on the work of the jobs that have arrived. */
  lemma SrtfTick(jobs: seq<Job>, srtf: seq<int>, t: nat)
    requires ValidJobs(jobs) && FollowsSrtf(jobs, srtf) && Complete(jobs, srtf) && IsSchedule(jobs, srtf)
    ensures RunsShortest(Active(jobs, Left(jobs, srtf, t), t), At(srtf, t))
  {
    LeftBounds(jobs, srtf, t);
    if t < |srtf| {
      assert SrtfAt(jobs, srtf, t);
      forall i | 0 <= i < |jobs| && Active(jobs, Left(jobs, srtf, t), t)[i] > 0
        ensures Ready(jobs, Left(jobs, srtf, t), t, i)
      {
      }
    } else {
      StaysComplete(jobs, srtf, t);
    }
  }

  /** Dominance bounds the number of unfinished jobs. */
  lemma FewerInSystem(jobs: seq<Job>, srtf: seq<int>, other: seq<int>, t: nat)
    requires ValidJobs(jobs) && FollowsSrtf(jobs, srtf) && Complete(jobs, srtf)
    requires IsSchedule(jobs, other)
    ensures |InSystem(jobs, srtf, t)| <= |InSystem(jobs, other, t)|
  {
    SrtfIsSchedule(jobs, srtf);
    SrtfDominates(jobs, srtf, other, t);
    LeftBounds(jobs, srtf, t);
    LeftBounds(jobs, other, t);
    CountDominates(Active(jobs, Left(jobs, srtf, t), t), Active(jobs, Left(jobs, other, t), t),
                   InSystem(jobs, srtf, t), InSystem(jobs, other, t));
  }

  lemma CountDominates(a: seq<int>, b: seq<int>, p: set<int>, x: set<int>)
    requires NonNegative(a) && NonNegative(b) && Dominates(a, b)
    requires forall i :: i in p ==> 0 <= i < |a| && a[i] > 0
    requires forall i :: 0 <= i < |b| && b[i] > 0 ==> i in x
    ensures |p| <= |x|
  {
    assert Matches(a, b, x);
    var y :| Within(a, y, |x|, Rest(b, x));
    RestZero(b, x);
    RestZero(a, y);
    assert forall i :: i in p ==> i in y;
    SubsetSize(p, y);
  }

  lemma {:induction false} SmallerArea(jobs: seq<Job>, srtf: seq<int>, other: seq<int>, t: nat)
    requires ValidJobs(jobs) && FollowsSrtf(jobs, srtf) && Complete(jobs, srtf)
    requires IsSchedule(jobs, other)
    ensures Area(jobs, srtf, t) <= Area(jobs, other, t)
  {
    if t > 0 {
      SmallerArea(jobs, srtf, other, t - 1);
      FewerInSystem(jobs, srtf, other, t - 1);
    }
  }

  /** SRTF is optimal: no complete schedule has a smaller total turnaround. */
  lemma SrtfIsOptimal(jobs: seq<Job>, srtf: seq<int>, other: seq<int>)
    requires ValidJobs(jobs) && FollowsSrtf(jobs, srtf) && Complete(jobs, srtf)
    requires IsSchedule(jobs, other) && Complete(jobs, other)
    ensures TotalTurnaround(jobs, srtf) <= TotalTurnaround(jobs, other)
  {
    var t := |srtf| + |other|;
    SrtfIsSchedule(jobs, srtf);
    SmallerArea(jobs, srtf, other, t);
    TurnaroundIsArea(jobs, srtf, t);
    TurnaroundIsArea(jobs, other, t);
  }
}
