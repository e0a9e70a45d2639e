/** Who runs next under round robin, and for how long, in terms of the schedule alone. */
module RoundRobinOrder {
  import opened Schedules
  import opened ScheduleTallies
  import opened RoundRobin

  // ---- how long -----------------------------------------------------------

  /** The smaller of two numbers. */
  predicate IsSmaller(e: int, a: int, b: int) {
    e <= a && e <= b && (e == a || e == b)
  }

  /** One turn: an idle tick if no job is ready, and otherwise one ready job for a slice or all that it needs. */
  ghost predicate IsTurn(jobs: seq<Job>, slice: nat, before: seq<int>, i: int, e: int, after: seq<int>) {
    var left := Left(jobs, before, |before|);
    if i == IDLE then NoneReady(jobs, left, |before|) && after == before + [IDLE]
    else Ready(jobs, left, |before|, i) && IsSmaller(e, slice, left[i]) && e > 0 && after == before + Repeat(i, e)
  }

  /** The job at the head of the queue, if there is one. */
  function Head(s: State): int {
    if s.start < |s.history| then s.history[s.start] else IDLE
  }

  lemma TurnLength(jobs: seq<Job>, slice: nat, m: nat, s: State, t: State) returns (i: int, e: int)
    requires ValidJobs(jobs) && slice > 0 && s == Run(jobs, slice, m) && t == Run(jobs, slice, m + 1)
    ensures i == Head(Offered(jobs, s)) && IsTurn(jobs, slice, s.sched, i, e, t.sched)
  {
    RunKeeps(jobs, slice, m);
    i, e := StepIsTurn(jobs, slice, s);
  }

  lemma StepIsTurn(jobs: seq<Job>, slice: nat, s: State) returns (i: int, e: int)
    requires ValidJobs(jobs) && slice > 0 && Invariant(jobs, slice, s, |s.sched|, IDLE)
    ensures i == Head(Offered(jobs, s)) && IsTurn(jobs, slice, s.sched, i, e, Step(jobs, slice, s).sched)
  {
    var r := Offered(jobs, s);
    EnqueueKeeps(jobs, slice, s, |s.sched|, IDLE, r);
    i, e := Head(r), 1;
    if Live(r) != [] {
      assert i == Live(r)[0];
      HeadFacts(jobs, slice, r, i);
      e := Slice(slice, r.left[i]);
    } else {
      EmptyMeansNone(jobs, slice, r);
    }
  }

  lemma EmptyMeansNone(jobs: seq<Job>, slice: nat, r: State)
    requires Invariant(jobs, slice, r, |r.sched| + 1, IDLE) && Live(r) == []
    ensures NoneReady(jobs, Left(jobs, r.sched, |r.sched|), |r.sched|)
  {
    forall j | 0 <= j < |jobs|
      ensures !Ready(jobs, r.left, |r.sched|, j)
    {
      assert Tracked(jobs, r.left, r.history, Live(r), |r.sched| + 1, IDLE, j);
    }
  }

  // ---- whole slices -------------------------------------------------------

  /** A job that is not finished by time t has run for a whole number of slices. */
  predicate Sliced(jobs: seq<Job>, slice: nat, sched: seq<int>, t: nat, j: int)
    requires slice > 0 && 0 <= j < |jobs|
  {
    var left := Left(jobs, sched, t)[j];
    left > 0 ==> (jobs[j].burst - left) % slice == 0
  }

  /** The last tick of a job before another one or an idle tick, or before the end. */
  predicate EndsBlock(jobs: seq<Job>, sched: seq<int>, t: int) {
    0 <= t < |sched| && 0 <= sched[t] < |jobs| && (t + 1 == |sched| || sched[t + 1] != sched[t])
  }

  ghost predicate AllSliced(jobs: seq<Job>, slice: nat, sched: seq<int>)
    requires slice > 0
  {
    && (forall t :: EndsBlock(jobs, sched, t) ==> Sliced(jobs, slice, sched, t + 1, sched[t]))
    && (forall j :: 0 <= j < |jobs| ==> Sliced(jobs, slice, sched, |sched|, j))
  }

  /** Whenever a job stops running unfinished, it has run for a whole number of slices. */
  lemma {:induction false} BlocksAreSlices(jobs: seq<Job>, slice: nat, m: nat, s: State)
    requires ValidJobs(jobs) && slice > 0 && s == Run(jobs, slice, m)
    ensures AllSliced(jobs, slice, s.sched)
  {
    if m > 0 {
      var before := Run(jobs, slice, m - 1);
      BlocksAreSlices(jobs, slice, m - 1, before);
      NextTurnSliced(jobs, slice, m - 1, before, s);
    } else {
      NothingRun(jobs, slice);
    }
  }

  lemma NextTurnSliced(jobs: seq<Job>, slice: nat, m: nat, s: State, t: State)
    requires ValidJobs(jobs) && slice > 0 && s == Run(jobs, slice, m) && t == Run(jobs, slice, m + 1)
    requires AllSliced(jobs, slice, s.sched)
    ensures AllSliced(jobs, slice, t.sched)
  {
    var i, e := TurnLength(jobs, slice, m, s, t);
    RoundRobinIsFair(jobs, slice, m);
    TurnSliced(jobs, slice, s.sched, i, e, t.sched);
  }

  lemma NothingRun(jobs: seq<Job>, slice: nat)
    requires slice > 0
    ensures AllSliced(jobs, slice, [])
  {
    forall j | 0 <= j < |jobs|
      ensures Sliced(jobs, slice, [], 0, j)
    {
      assert Left(jobs, [], 0)[j] == jobs[j].burst;
    }
  }

  lemma TurnSliced(jobs: seq<Job>, slice: nat, before: seq<int>, i: int, e: int, after: seq<int>)
    requires ValidJobs(jobs) && slice > 0 && IsSchedule(jobs, before)
    requires AllSliced(jobs, slice, before) && IsTurn(jobs, slice, before, i, e, after)
    ensures AllSliced(jobs, slice, after)
  {
    forall j | 0 <= j < |jobs|
      ensures Sliced(jobs, slice, after, |after|, j)
    {
      SlicedAfter(jobs, slice, before, i, e, after, j);
    }
    forall t | EndsBlock(jobs, after, t)
      ensures Sliced(jobs, slice, after, t + 1, after[t])
    {
      if t < |before| {
        assert EndsBlock(jobs, before, t);
        SlicedBefore(jobs, slice, before, after, t + 1, after[t]);
      } else {
        assert t + 1 == |after|;
      }
    }
  }

  lemma SlicedBefore(jobs: seq<Job>, slice: nat, before: seq<int>, after: seq<int>, t: nat, j: int)
    requires slice > 0 && t <= |before| <= |after| && after[..|before|] == before && 0 <= j < |jobs|
    requires Sliced(jobs, slice, before, t, j)
    ensures Sliced(jobs, slice, after, t, j)
  {
    assert after == before + after[|before|..];
    PastStays(jobs, before, after[|before|..], t);
  }

  lemma SlicedAfter(jobs: seq<Job>, slice: nat, before: seq<int>, i: int, e: int, after: seq<int>, j: int)
    requires ValidJobs(jobs) && slice > 0 && IsSchedule(jobs, before) && 0 <= j < |jobs|
    requires Sliced(jobs, slice, before, |before|, j) && IsTurn(jobs, slice, before, i, e, after)
    ensures Sliced(jobs, slice, after, |after|, j)
  {
    if i == IDLE {
      LeftTick(jobs, before, IDLE);
    } else {
      RunExtends(jobs, before, i, e, after);
      if i == j && e == slice {
        OneMoreSlice(jobs[j].burst - Left(jobs, before, |before|)[j], slice);
      }
    }
  }

  lemma OneMoreSlice(done: int, slice: nat)
    requires slice > 0 && done % slice == 0
    ensures (done + slice) % slice == 0
  {
    var q, more := done / slice, (done + slice) / slice;
    NoMultipleBetween(more - q - 1, slice, (done + slice) % slice);
  }

  lemma NoMultipleBetween(k: int, slice: int, rest: int)
    requires slice > 0 && 0 <= rest < slice && k * slice + rest == 0
    ensures rest == 0
  {
    assert k >= 1 ==> k * slice >= slice;
    assert k <= -1 ==> k * slice <= -slice;
  }

  // ---- who is next --------------------------------------------------------

  /** The times at which the first m turns begin or end. */
  function TurnEnds(jobs: seq<Job>, slice: nat, m: nat): seq<int> {
    if m == 0 then [0] else TurnEnds(jobs, slice, m - 1) + [|Run(jobs, slice, m).sched|]
  }

  /** One of these times lies between the arrivals a and b. */
  ghost predicate Separates(ends: seq<int>, a: int, b: int) {
    exists e :: e in ends && a <= e < b
  }

  predicate NeverRan(jobs: seq<Job>, sched: seq<int>, i: int)
    requires 0 <= i < |jobs|
  {
    Left(jobs, sched, |sched|)[i] == jobs[i].burst
  }

  /**
   * Job i comes before job j.  The one that has been waiting longer comes first,
   * since it last ran or arrived, and a new job before one that has just run.  Of
   * two new jobs, arrivals count only if a turn has ended in between; otherwise
   * they come as they are listed.
   */
  ghost predicate Before(jobs: seq<Job>, sched: seq<int>, ends: seq<int>, i: int, j: int) {
    0 <= i < |jobs| && 0 <= j < |jobs| &&
    var a, b := Since(jobs, sched, |sched|, i), Since(jobs, sched, |sched|, j);
    if !NeverRan(jobs, sched, i) then a < b
    else if !NeverRan(jobs, sched, j) then a <= b
    else !Separates(ends, b, a) && (Separates(ends, a, b) || i < j)
  }

  ghost predicate InOrder(jobs: seq<Job>, sched: seq<int>, ends: seq<int>, live: seq<int>) {
    forall p, q :: 0 <= p < q < |live| ==> Before(jobs, sched, ends, live[p], live[q])
  }

  /** Newcomers come in index order. */
  lemma {:induction false} NewcomersAscend(jobs: seq<Job>, left: seq<int>, history: seq<int>, t: nat, n: nat, newcomers: seq<int>)
    requires |left| == |jobs| && n <= |jobs| && Enqueue(jobs, left, history, t, n) == history + newcomers
    ensures forall p, q :: 0 <= p < q < |newcomers| ==> newcomers[p] < newcomers[q]
    ensures forall i :: i in newcomers ==> 0 <= i < n && i !in history && Ready(jobs, left, t, i)
  {
    if n > 0 {
      var before := EnqueueEffect(jobs, left, history, t, n - 1);
      NewcomersAscend(jobs, left, history, t, n - 1, before);
      var h := history + before;
      if Ready(jobs, left, t, n - 1) && n - 1 !in h {
        assert history + newcomers == history + (before + [n - 1]);
        SameTail(history, newcomers, before + [n - 1]);
        assert forall p :: 0 <= p < |before| ==> before[p] in before;
      } else {
        SameTail(history, newcomers, before);
      }
    } else {
      SameTail(history, newcomers, []);
    }
  }

  lemma SameTail(a: seq<int>, b: seq<int>, c: seq<int>)
    requires a + b == a + c
    ensures b == c
  {
    assert b == (a + b)[|a|..] && c == (a + c)[|a|..];
  }

  // ---- the queue stays in order -------------------------------------------

  /** The newcomers arrived after all turns so far, and the old ones before the last of them ended. */
  lemma EnqueueInOrder(jobs: seq<Job>, sched: seq<int>, ends: seq<int>, last: int, live: seq<int>, newcomers: seq<int>)
    requires InOrder(jobs, sched, ends, live) && last in ends && forall e :: e in ends ==> e <= last
    requires forall i :: i in live ==> 0 <= i < |jobs| && Since(jobs, sched, |sched|, i) <= last
    requires forall p, q :: 0 <= p < q < |newcomers| ==> newcomers[p] < newcomers[q]
    requires forall i :: i in newcomers ==> 0 <= i < |jobs| && NeverRan(jobs, sched, i) && last < jobs[i].arrival
    ensures InOrder(jobs, sched, ends, live + newcomers)
  {
    var l := live + newcomers;
    forall p, q | 0 <= p < q < |l|
      ensures Before(jobs, sched, ends, l[p], l[q])
    {
      if p < |live| <= q {
        assert l[p] in live && l[q] in newcomers;
      } else if |live| <= p {
        assert l[p] in newcomers && l[q] in newcomers;
      }
    }
  }

  lemma FirstInOrder(jobs: seq<Job>, sched: seq<int>, ends: seq<int>, newcomers: seq<int>)
    requires forall e :: e in ends ==> e <= |sched|
    requires forall p, q :: 0 <= p < q < |newcomers| ==> newcomers[p] < newcomers[q]
    requires forall i :: i in newcomers ==> 0 <= i < |jobs| && NeverRan(jobs, sched, i) && jobs[i].arrival == |sched|
    ensures InOrder(jobs, sched, ends, newcomers)
  {
    forall p, q | 0 <= p < q < |newcomers|
      ensures Before(jobs, sched, ends, newcomers[p], newcomers[q])
    {
      assert newcomers[p] in newcomers && newcomers[q] in newcomers;
    }
  }

  /** While the head runs, the others keep their order. */
  lemma RestInOrder(jobs: seq<Job>, sched: seq<int>, ends: seq<int>, live: seq<int>, i: int, e: nat, longer: seq<int>)
    requires InOrder(jobs, sched, ends, live) && i !in live && longer == sched + Repeat(i, e)
    requires forall j :: j in live ==> 0 <= j < |jobs|
    ensures InOrder(jobs, longer, ends, live)
  {
    forall p, q | 0 <= p < q < |live|
      ensures Before(jobs, longer, ends, live[p], live[q])
    {
      assert live[p] in live && live[q] in live;
      OtherWaits(jobs, sched, i, e, longer, live[p]);
      OtherWaits(jobs, sched, i, e, longer, live[q]);
    }
  }

  lemma {:induction false} OtherWaits(jobs: seq<Job>, sched: seq<int>, i: int, e: nat, longer: seq<int>, j: int)
    requires i != j && 0 <= j < |jobs| && longer == sched + Repeat(i, e)
    ensures Since(jobs, longer, |longer|, j) == Since(jobs, sched, |sched|, j)
    ensures NeverRan(jobs, longer, j) <==> NeverRan(jobs, sched, j)
    decreases e
  {
    if e == 0 {
      assert longer == sched;
    } else {
      var shorter := sched + Repeat(i, e - 1);
      assert longer == shorter + [i];
      OtherWaits(jobs, sched, i, e - 1, shorter, j);
      PastStays(jobs, shorter, [i], |shorter|);
    }
  }

  /** The job that has just run goes behind all others. */
  lemma RequeueInOrder(jobs: seq<Job>, sched: seq<int>, ends: seq<int>, live: seq<int>, i: int)
    requires InOrder(jobs, sched, ends, live) && 0 <= i < |jobs| && !NeverRan(jobs, sched, i)
    requires Since(jobs, sched, |sched|, i) == |sched|
    requires forall j :: j in live ==> 0 <= j < |jobs| && WaitsLonger(jobs, sched, j)
    ensures InOrder(jobs, sched, ends, live + [i])
  {
    var l := live + [i];
    forall p, q | 0 <= p < q < |l|
      ensures Before(jobs, sched, ends, l[p], l[q])
    {
      assert l[p] in live;
    }
  }

  predicate WaitsLonger(jobs: seq<Job>, sched: seq<int>, j: int)
    requires 0 <= j < |jobs|
  {
    if NeverRan(jobs, sched, j) then jobs[j].arrival <= |sched| else Since(jobs, sched, |sched|, j) < |sched|
  }

  /** One more time, after all arrivals. */
  lemma LaterInOrder(jobs: seq<Job>, sched: seq<int>, ends: seq<int>, live: seq<int>, more: seq<int>)
    requires InOrder(jobs, sched, ends, live) && more == ends + [|sched|]
    requires forall j :: j in live ==> 0 <= j < |jobs| && jobs[j].arrival <= |sched|
    ensures InOrder(jobs, sched, more, live)
  {
    forall p, q | 0 <= p < q < |live|
      ensures Before(jobs, sched, more, live[p], live[q])
    {
      assert live[p] in live && live[q] in live;
      var a, b := jobs[live[p]].arrival, jobs[live[q]].arrival;
      assert forall e :: e in more ==> e in ends || e == |sched|;
      assert forall e :: e in ends ==> e in more;
      assert Separates(more, a, b) <==> Separates(ends, a, b);
      assert Separates(more, b, a) <==> Separates(ends, b, a);
    }
  }

  /** All ready jobs have been queued, or the queue is empty. */
  ghost predicate Quiet(jobs: seq<Job>, s: State)
    requires |s.left| == |jobs| && s.start <= |s.history|
  {
    Live(s) == [] || forall i :: Ready(jobs, s.left, |s.sched|, i) ==> i in s.history
  }

  /** Between turns the queue is in order, and the last turn ended at the present time. */
  ghost predicate Settled(jobs: seq<Job>, slice: nat, s: State, ends: seq<int>) {
    && Invariant(jobs, slice, s, |s.sched|, IDLE) && Quiet(jobs, s) && InOrder(jobs, s.sched, ends, Live(s))
    && |s.sched| in ends && forall e :: e in ends ==> e <= |s.sched|
  }

  /** What is in the queue arrived by now. */
  lemma QueuedHaveArrived(jobs: seq<Job>, slice: nat, sched: seq<int>, live: seq<int>, j: int)
    requires AllOnTime(jobs, slice, sched, live) && j in live
    ensures 0 <= j < |jobs| && jobs[j].arrival <= |sched| && Since(jobs, sched, |sched|, j) <= |sched|
  {
    var q :| 0 <= q < |live| && live[q] == j;
    assert OnTime(jobs, slice, sched, live, q);
  }

  /** The newcomers arrived after the queue was last looked at. */
  lemma NewcomersAreNew(jobs: seq<Job>, left: seq<int>, history: seq<int>, live: seq<int>, known: nat, out: int, i: int)
    requires |left| == |jobs| && LiveExactly(jobs, left, history, live, known, out) && (out != IDLE ==> out in history)
    requires 0 <= i < |jobs| && i !in history && left[i] > 0
    ensures jobs[i].arrival >= known && left[i] == jobs[i].burst
  {
    assert Tracked(jobs, left, history, live, known, out, i);
  }

  lemma OfferedInOrder(jobs: seq<Job>, slice: nat, s: State, ends: seq<int>, r: State)
    requires ValidJobs(jobs) && Settled(jobs, slice, s, ends) && r == Offered(jobs, s)
    ensures r.start <= |r.history| && InOrder(jobs, r.sched, ends, Live(r))
  {
    var newcomers := EnqueueEffect(jobs, s.left, s.history, |s.sched|, |jobs|);
    NewcomersAscend(jobs, s.left, s.history, |s.sched|, |jobs|, newcomers);
    if Live(s) == [] {
      assert Live(r) == newcomers;
      NewcomersInOrder(jobs, s, ends, newcomers);
    } else {
      NothingIn(newcomers, s.history);
      assert s.history + [] == s.history;
    }
  }

  lemma NewcomersInOrder(jobs: seq<Job>, s: State, ends: seq<int>, newcomers: seq<int>)
    requires s.start <= |s.history| && s.left == Left(jobs, s.sched, |s.sched|)
    requires LiveExactly(jobs, s.left, s.history, Live(s), |s.sched|, IDLE) && forall e :: e in ends ==> e <= |s.sched|
    requires forall p, q :: 0 <= p < q < |newcomers| ==> newcomers[p] < newcomers[q]
    requires forall i :: i in newcomers ==> 0 <= i < |jobs| && i !in s.history && Ready(jobs, s.left, |s.sched|, i)
    ensures InOrder(jobs, s.sched, ends, newcomers)
  {
    forall i | i in newcomers
      ensures NeverRan(jobs, s.sched, i) && jobs[i].arrival == |s.sched|
    {
      NewcomersAreNew(jobs, s.left, s.history, Live(s), |s.sched|, IDLE, i);
    }
    FirstInOrder(jobs, s.sched, ends, newcomers);
  }

  lemma NothingIn(c: seq<int>, h: seq<int>)
    requires forall i :: i in c ==> i in h && i !in h
    ensures c == []
  {
    if c != [] {
      var x := FirstIn(c);
      assert false;
    }
  }

  lemma FirstIn(c: seq<int>) returns (x: int)
    requires c != []
    ensures x in c
  {
    x := c[0];
  }

  /** The head has run from time `last`; new arrivals are queued behind the rest. */
  lemma ServedInOrder(jobs: seq<Job>, slice: nat, served: State, ends: seq<int>, last: nat, i: int, r: State)
    requires ValidJobs(jobs) && slice > 0 && Invariant(jobs, slice, served, last + 1, i) && 0 <= i < |jobs| && i in served.history
    requires InOrder(jobs, served.sched, ends, Live(served)) && last in ends && (forall e :: e in ends ==> e <= last)
    requires forall j :: j in Live(served) ==> 0 <= j < |jobs| && Since(jobs, served.sched, |served.sched|, j) <= last
    requires r == Offered(jobs, served)
    ensures r.start <= |r.history| && InOrder(jobs, r.sched, ends, Live(r))
  {
    var newcomers := EnqueueEffect(jobs, served.left, served.history, |served.sched|, |jobs|);
    NewcomersAscend(jobs, served.left, served.history, |served.sched|, |jobs|, newcomers);
    assert Live(r) == Live(served) + newcomers;
    forall j | j in newcomers
      ensures NeverRan(jobs, served.sched, j) && last < jobs[j].arrival
    {
      NewcomersAreNew(jobs, served.left, served.history, Live(served), last + 1, i, j);
    }
    EnqueueInOrder(jobs, served.sched, ends, last, Live(served), newcomers);
  }

  /** A whole turn that runs the head. */
  lemma ServeInOrder(jobs: seq<Job>, slice: nat, s: State, ends: seq<int>, i: int, served: State, r: State)
    requires ValidJobs(jobs) && slice > 0 && Invariant(jobs, slice, s, |s.sched| + 1, IDLE) && InOrder(jobs, s.sched, ends, Live(s))
    requires |s.sched| in ends && forall e :: e in ends ==> e <= |s.sched|
    requires Live(s) != [] && i == Live(s)[0] && 0 <= i < |jobs| && s.left[i] > 0
    requires served == Served(slice, s, i) && r == Offered(jobs, served)
    ensures Invariant(jobs, slice, r, |r.sched| + 1, i) && InOrder(jobs, r.sched, ends, Live(r))
    ensures |r.sched| > |s.sched| && i in r.history && !NeverRan(jobs, r.sched, i) && r.left[i] >= 0
    ensures Since(jobs, r.sched, |r.sched|, i) == |r.sched|
  {
    HeadFacts(jobs, slice, s, i);
    RunHead(jobs, slice, s, |s.sched| + 1, i, served);
    var newcomers := EnqueueEffect(jobs, served.left, served.history, |served.sched|, |jobs|);
    EnqueueKeeps(jobs, slice, served, |s.sched| + 1, i, r);
    RestStaysInOrder(jobs, slice, s, ends, i, served);
    ServedInOrder(jobs, slice, served, ends, |s.sched|, i, r);
    GoodSchedule(jobs, Round(jobs, slice), s.sched);
    LeftBound(jobs, s.sched, |s.sched|, i);
  }

  lemma RestStaysInOrder(jobs: seq<Job>, slice: nat, s: State, ends: seq<int>, i: int, served: State)
    requires ValidJobs(jobs) && Invariant(jobs, slice, s, |s.sched| + 1, IDLE) && InOrder(jobs, s.sched, ends, Live(s))
    requires Live(s) != [] && i == Live(s)[0] && 0 <= i < |jobs| && s.left[i] > 0 && served == Served(slice, s, i)
    ensures served.start <= |served.history| && InOrder(jobs, served.sched, ends, Live(served))
    ensures forall j :: j in Live(served) ==> 0 <= j < |jobs| && Since(jobs, served.sched, |served.sched|, j) <= |s.sched|
  {
    var rest, e := Live(s)[1..], Slice(slice, s.left[i]);
    assert Live(served) == rest && Live(s) == [i] + rest;
    forall j | j in rest
      ensures j != i && 0 <= j < |jobs|
      ensures Since(jobs, served.sched, |served.sched|, j) <= |s.sched|
    {
      QueuedHaveArrived(jobs, slice, s.sched, Live(s), j);
      OtherWaits(jobs, s.sched, i, e, served.sched, j);
    }
    TailInOrder(jobs, s.sched, ends, Live(s));
    RestInOrder(jobs, s.sched, ends, rest, i, e, served.sched);
  }

  lemma TailInOrder(jobs: seq<Job>, sched: seq<int>, ends: seq<int>, live: seq<int>)
    requires InOrder(jobs, sched, ends, live) && live != []
    ensures InOrder(jobs, sched, ends, live[1..])
  {
    forall p, q | 0 <= p < q < |live| - 1
      ensures Before(jobs, sched, ends, live[1..][p], live[1..][q])
    {
      assert Before(jobs, sched, ends, live[p + 1], live[q + 1]);
    }
  }

  /** What is left after a turn that runs the head. */
  lemma TurnSettles(jobs: seq<Job>, slice: nat, s: State, ends: seq<int>, i: int, t: State, more: seq<int>)
    requires ValidJobs(jobs) && slice > 0 && Invariant(jobs, slice, s, |s.sched| + 1, IDLE) && InOrder(jobs, s.sched, ends, Live(s))
    requires |s.sched| in ends && forall e :: e in ends ==> e <= |s.sched|
    requires Live(s) != [] && i == Live(s)[0] && 0 <= i < |jobs| && s.left[i] > 0
    requires t == Returned(jobs, Served(slice, s, i), i) && more == ends + [|t.sched|]
    ensures Settled(jobs, slice, t, more)
  {
    var served := Served(slice, s, i);
    var r := Offered(jobs, served);
    ServeInOrder(jobs, slice, s, ends, i, served, r);
    ServeKeeps(jobs, slice, s, i);
    ReturnedInOrder(jobs, slice, r, ends, |s.sched|, i, t, more);
    NowQuiet(jobs, served, i, t);
  }

  lemma ReturnedInOrder(jobs: seq<Job>, slice: nat, r: State, ends: seq<int>, last: int, i: int, t: State, more: seq<int>)
    requires Invariant(jobs, slice, r, |r.sched| + 1, i) && InOrder(jobs, r.sched, ends, Live(r)) && 0 <= i < |jobs|
    requires !NeverRan(jobs, r.sched, i) && Since(jobs, r.sched, |r.sched|, i) == |r.sched| && |r.sched| > 0
    requires t == (if r.left[i] == 0 then r else r.(history := r.history + [i])) && more == ends + [|r.sched|]
    ensures t.start <= |t.history| && InOrder(jobs, t.sched, more, Live(t))
  {
    forall j | j in Live(r)
      ensures 0 <= j < |jobs| && jobs[j].arrival <= |r.sched| && WaitsLonger(jobs, r.sched, j)
    {
      QueuedHaveArrived(jobs, slice, r.sched, Live(r), j);
      assert j != i;
      OneFinish(r.sched, |r.sched|, i, j);
    }
    LaterInOrder(jobs, r.sched, ends, Live(r), more);
    if r.left[i] != 0 {
      RequeueInOrder(jobs, r.sched, more, Live(r), i);
      assert Live(t) == Live(r) + [i];
    }
  }

  /** Only one job runs in the last tick. */
  lemma OneFinish(sched: seq<int>, t: nat, i: int, j: int)
    requires t > 0 && i != j && FinishBy(sched, t, i) == t
    ensures FinishBy(sched, t, j) < t
  {
  }

  lemma NowQuiet(jobs: seq<Job>, served: State, i: int, t: State)
    requires |served.left| == |jobs| && 0 <= i < |jobs| && t == Returned(jobs, served, i) && t.start <= |t.history|
    ensures Quiet(jobs, t)
  {
    var newcomers := EnqueueEffect(jobs, served.left, served.history, |served.sched|, |jobs|);
  }

  lemma IdleSettles(jobs: seq<Job>, slice: nat, s: State, ends: seq<int>, t: State, more: seq<int>)
    requires ValidJobs(jobs) && Invariant(jobs, slice, s, |s.sched| + 1, IDLE) && Live(s) == []
    requires forall e :: e in ends ==> e <= |s.sched|
    requires t == s.(sched := s.sched + [IDLE]) && more == ends + [|t.sched|]
    ensures Settled(jobs, slice, t, more)
  {
    IdleTick(jobs, slice, s, t);
    assert Live(t) == [];
  }

  lemma StepSettles(jobs: seq<Job>, slice: nat, s: State, ends: seq<int>, t: State, more: seq<int>)
    requires ValidJobs(jobs) && slice > 0 && Settled(jobs, slice, s, ends)
    requires t == Step(jobs, slice, s) && more == ends + [|t.sched|]
    ensures Settled(jobs, slice, t, more)
  {
    var r := Offered(jobs, s);
    EnqueueKeeps(jobs, slice, s, |s.sched|, IDLE, r);
    OfferedInOrder(jobs, slice, s, ends, r);
    if Live(r) == [] {
      IdleSettles(jobs, slice, r, ends, t, more);
    } else {
      var i := Live(r)[0];
      HeadFacts(jobs, slice, r, i);
      TurnSettles(jobs, slice, r, ends, i, t, more);
    }
  }

  lemma {:induction false} AlwaysSettled(jobs: seq<Job>, slice: nat, m: nat, s: State, ends: seq<int>)
    requires ValidJobs(jobs) && slice > 0 && s == Run(jobs, slice, m) && ends == TurnEnds(jobs, slice, m)
    ensures Settled(jobs, slice, s, ends)
  {
    if m > 0 {
      var before, past := Run(jobs, slice, m - 1), TurnEnds(jobs, slice, m - 1);
      AlwaysSettled(jobs, slice, m - 1, before, past);
      StepSettles(jobs, slice, before, past, s, ends);
    } else {
      RunKeeps(jobs, slice, 0);
      assert Live(s) == [];
    }
  }

  /**
   * A turn in terms of the schedule: if some job is ready, the one that comes
   * before all other ready jobs runs for a slice or all that it needs, whichever
   * is less, and otherwise the processor idles for a tick.
   */
  lemma NextTurn(jobs: seq<Job>, slice: nat, m: nat, s: State, t: State) returns (i: int, e: int)
    requires ValidJobs(jobs) && slice > 0 && s == Run(jobs, slice, m) && t == Run(jobs, slice, m + 1)
    ensures IsTurn(jobs, slice, s.sched, i, e, t.sched)
    ensures i != IDLE ==> forall j :: j != i && Ready(jobs, Left(jobs, s.sched, |s.sched|), |s.sched|, j) ==>
      Before(jobs, s.sched, TurnEnds(jobs, slice, m), i, j)
  {
    var r, ends := Offered(jobs, s), TurnEnds(jobs, slice, m);
    i, e := TurnLength(jobs, slice, m, s, t);
    AlwaysSettled(jobs, slice, m, s, ends);
    OfferedInOrder(jobs, slice, s, ends, r);
    LiveQueueIsExact(jobs, slice, m);
    if i != IDLE {
      HeadIsFirst(jobs, slice, r, ends, i);
    }
  }

  lemma HeadIsFirst(jobs: seq<Job>, slice: nat, r: State, ends: seq<int>, i: int)
    requires |r.left| == |jobs| && r.start < |r.history| && i == Live(r)[0] && InOrder(jobs, r.sched, ends, Live(r))
    requires forall j :: j in Live(r) <==> Ready(jobs, r.left, |r.sched|, j)
    ensures forall j :: j != i && Ready(jobs, r.left, |r.sched|, j) ==> Before(jobs, r.sched, ends, i, j)
  {
    forall j | j != i && Ready(jobs, r.left, |r.sched|, j)
      ensures Before(jobs, r.sched, ends, i, j)
    {
      var q :| 0 <= q < |Live(r)| && Live(r)[q] == j;
      assert Before(jobs, r.sched, ends, Live(r)[0], Live(r)[q]);
    }
  }
}
