/**
 * The scheduler itself: the four algorithms over an array of process records, a
 * Gantt chart and running totals.  Each algorithm is proved to end with a
 * complete schedule that follows its rule, and with the records, the chart and
 * the totals of that schedule.  The bodies of the four main loops are methods
 * of their own; the lemmas in front of the class say what one turn of a loop
 * does to the schedule, and why the loop ends.
 */
module CpuScheduler {
  import opened Sums
  import opened Schedules
  import opened ScheduleAccounts
  import opened ScheduleTallies
  import opened ProcessTable
  import opened SrtfOptimality
  import opened NonPreemptive
  import RoundRobin
  import RoundRobinOrder

  const MAX := 1000

  function LastArrival(jobs: seq<Job>): (a: int)
    ensures forall i :: 0 <= i < |jobs| ==> jobs[i].arrival <= a
  {
    if jobs == [] then 0
    else
      var a := LastArrival(jobs[..|jobs| - 1]);
      assert forall i :: 0 <= i < |jobs| - 1 ==> jobs[i] == jobs[..|jobs| - 1][i];
      if jobs[|jobs| - 1].arrival > a then jobs[|jobs| - 1].arrival else a
  }

  /** What still has to happen: work to do and time to pass before the last arrival. */
  function Remaining(jobs: seq<Job>, sched: seq<int>): int {
    Sum(Left(jobs, sched, |sched|)) + if |sched| < LastArrival(jobs) then LastArrival(jobs) - |sched| else 0
  }

  lemma RemainingShrinks(jobs: seq<Job>, sched: seq<int>, p: int)
    requires ValidJobs(jobs) && IsSchedule(jobs, sched)
    requires if p == IDLE then !Complete(jobs, sched) && NoneReady(jobs, Left(jobs, sched, |sched|), |sched|)
             else Ready(jobs, Left(jobs, sched, |sched|), |sched|, p)
    ensures 0 <= Remaining(jobs, sched + [p]) < Remaining(jobs, sched)
  {
    var left := Left(jobs, sched, |sched|);
    LeftBounds(jobs, sched, |sched|);
    LeftTick(jobs, sched, p);
    if p == IDLE {
      MoreToCome(jobs, left, |sched|);
    } else {
      SumUpdate(left, p, left[p] - 1);
    }
    SumNonNegative(Ran(left, p));
  }

  /** If nothing is ready but something is unfinished, a job has yet to arrive. */
  lemma MoreToCome(jobs: seq<Job>, left: seq<int>, t: nat)
    requires |left| == |jobs| && NoneReady(jobs, left, t)
    requires (forall i :: 0 <= i < |jobs| ==> left[i] >= 0) && exists i :: 0 <= i < |jobs| && left[i] != 0
    ensures t < LastArrival(jobs)
  {
    var i :| 0 <= i < |jobs| && left[i] != 0;
    assert !Ready(jobs, left, t, i);
  }

  /** There is room in the chart for every tick of work still to come. */
  lemma ChartRoom(jobs: seq<Job>, sched: seq<int>, i: nat)
    requires ValidJobs(jobs) && IsSchedule(jobs, sched) && i < |jobs|
    ensures |Busy(sched)| + Left(jobs, sched, |sched|)[i] <= Sum(Bursts(jobs))
  {
    BusyLength(sched);
    WorkLeft(jobs, sched, |sched|);
    LeftBounds(jobs, sched, |sched|);
    var left := Left(jobs, sched, |sched|);
    SumUpdate(left, i, 0);
    SumNonNegative(left[i := 0]);
  }

  datatype Algorithm = Srtf | Sjf | Fcfs

  /** What the algorithm does in the next tick. */
  function Pick(alg: Algorithm, jobs: seq<Job>, sched: seq<int>): int {
    match alg
    case Srtf => Shortest(jobs, Left(jobs, sched, |sched|), |sched|, |jobs|)
    case Sjf => SjfPick(jobs, sched, |sched|)
    case Fcfs => FcfsPick(jobs, Left(jobs, sched, |sched|), |sched|)
  }

  /** Every tick is what the algorithm picks after the ticks before it. */
  predicate Grown(alg: Algorithm, jobs: seq<Job>, sched: seq<int>) {
    sched == [] ||
    var before := sched[..|sched| - 1];
    Grown(alg, jobs, before) && sched[|sched| - 1] == Pick(alg, jobs, before)
  }

  predicate Follows(alg: Algorithm, jobs: seq<Job>, sched: seq<int>) {
    match alg
    case Srtf => FollowsSrtf(jobs, sched)
    case Sjf => FollowsSjf(jobs, sched)
    case Fcfs => FollowsFcfs(jobs, sched)
  }

  lemma Grows(alg: Algorithm, jobs: seq<Job>, sched: seq<int>, p: int)
    requires Grown(alg, jobs, sched) && p == Pick(alg, jobs, sched)
    ensures Grown(alg, jobs, sched + [p])
  {
    assert (sched + [p])[..|sched|] == sched;
  }

  predicate PickedThen(alg: Algorithm, jobs: seq<Job>, sched: seq<int>, t: nat)
    requires t < |sched|
  {
    match alg
    case Srtf => SrtfAt(jobs, sched, t)
    case Sjf => SjfAt(jobs, sched, t)
    case Fcfs => FcfsAt(jobs, sched, t)
  }

  lemma {:induction false} PickedAt(alg: Algorithm, jobs: seq<Job>, sched: seq<int>, t: nat)
    requires Grown(alg, jobs, sched) && t < |sched|
    ensures PickedThen(alg, jobs, sched, t)
  {
    var before, p := sched[..|sched| - 1], sched[|sched| - 1];
    assert before + [p] == sched;
    PastStays(jobs, before, [p], t);
    if t < |before| {
      PickedAt(alg, jobs, before, t);
    }
  }

  lemma GrownMeans(alg: Algorithm, jobs: seq<Job>, sched: seq<int>)
    requires ValidJobs(jobs) && Grown(alg, jobs, sched)
    ensures Follows(alg, jobs, sched) && IsSchedule(jobs, sched)
  {
    match alg
    case Srtf =>
      forall t | 0 <= t < |sched|
        ensures SrtfAt(jobs, sched, t)
      {
        PickedAt(alg, jobs, sched, t);
      }
      SrtfIsSchedule(jobs, sched);
    case Sjf =>
      forall t | 0 <= t < |sched|
        ensures SjfAt(jobs, sched, t)
      {
        PickedAt(alg, jobs, sched, t);
      }
      SjfConserves(jobs, sched);
    case Fcfs =>
      forall t | 0 <= t < |sched|
        ensures FcfsAt(jobs, sched, t)
      {
        PickedAt(alg, jobs, sched, t);
      }
      FcfsIsSchedule(jobs, sched);
  }

  /** The choice depends on arrivals and remaining work only. */
  lemma {:induction false} ShortestOf(a: seq<Job>, b: seq<Job>, left: seq<int>, t: nat, n: nat)
    requires |a| == |b| == |left| && n <= |a| && forall i :: 0 <= i < |a| ==> a[i].arrival == b[i].arrival
    ensures Shortest(a, left, t, n) == Shortest(b, left, t, n)
  {
    if n > 0 {
      ShortestOf(a, b, left, t, n - 1);
    }
  }

  lemma ShortestInTable(keepsEnd: bool, table: seq<Process>, jobs: seq<Job>, sched: seq<int>, pc: seq<Process>)
    requires jobs == Jobs(table) && pc == Records(Preemptive(keepsEnd), table, jobs, sched)
    ensures Shortest(Jobs(pc), Remainings(pc), |sched|, |jobs|) == Shortest(jobs, Left(jobs, sched, |sched|), |sched|, |jobs|)
  {
    assert Remainings(pc) == Left(jobs, sched, |sched|);
    ShortestOf(Jobs(pc), jobs, Left(jobs, sched, |sched|), |sched|, |jobs|);
  }

  /** One tick of an algorithm that idles only when nothing is ready. */
  lemma TurnFacts(alg: Algorithm, jobs: seq<Job>, sched: seq<int>, p: int)
    requires ValidJobs(jobs) && Grown(alg, jobs, sched) && !Complete(jobs, sched)
    requires alg != Algorithm.Fcfs && p == Pick(alg, jobs, sched)
    ensures Grown(alg, jobs, sched + [p])
    ensures 0 <= Remaining(jobs, sched + [p]) < Remaining(jobs, sched)
    ensures var n := Tally(Completed, jobs, sched + [p]); n <= |jobs| && (n == |jobs| <==> Complete(jobs, sched + [p]))
    ensures Complete(jobs, sched + [p]) ==> Trimmed(sched + [p])
  {
    GrownMeans(alg, jobs, sched);
    Grows(alg, jobs, sched, p);
    PickIsReady(alg, jobs, sched);
    RemainingShrinks(jobs, sched, p);
    CompletedMeansComplete(jobs, sched + [p]);
    LeftTick(jobs, sched, p);
  }

  lemma PickIsReady(alg: Algorithm, jobs: seq<Job>, sched: seq<int>)
    requires ValidJobs(jobs) && IsSchedule(jobs, sched) && alg != Algorithm.Fcfs
    ensures var p := Pick(alg, jobs, sched); var left := Left(jobs, sched, |sched|);
      if p == IDLE then NoneReady(jobs, left, |sched|) else Ready(jobs, left, |sched|, p)
  {
    if |sched| > 0 {
      TickIsReady(jobs, sched, |sched| - 1);
    }
  }

  /** The simulator's state is what the schedule so far says it should be. */
  ghost predicate InStep(style: Style, table: seq<Process>, jobs: seq<Job>, sched: seq<int>, pc: seq<Process>,
                         before: Totals, now: Totals, completed: int)
    requires jobs == Jobs(table)
  {
    && pc == Records(style, table, jobs, sched)
    && now == After(before, jobs, sched)
    && completed == Tally(Completed, jobs, sched)
  }

  lemma InStepStart(style: Style, table: seq<Process>, pc: seq<Process>, before: Totals)
    requires ValidJobs(Jobs(table)) && |pc| == |table|
    requires forall i :: 0 <= i < |table| ==>
      pc[i] == if style.Preemptive? then table[i].(remaining := table[i].burst) else table[i]
    ensures InStep(style, table, Jobs(table), [], pc, before, before, 0)
  {
    var jobs := Jobs(table);
    assert pc == Records(style, table, jobs, []);
    forall m
      ensures Tally(m, jobs, []) == 0
    {
      SumNonNegative(Contributions(m, jobs, []));
    }
    assert before.queue + [] == before.queue;
  }

  lemma InStepIdle(style: Style, table: seq<Process>, jobs: seq<Job>, sched: seq<int>, pc: seq<Process>,
                   before: Totals, now: Totals, completed: int)
    requires jobs == Jobs(table) && ValidJobs(jobs) && IsSchedule(jobs, sched)
    requires InStep(style, table, jobs, sched, pc, before, now, completed)
    ensures InStep(style, table, jobs, sched + [IDLE], pc, before, now, completed)
  {
    AfterIdle(before, jobs, sched);
    assert Repeat(IDLE, 1) == [IDLE];
    var next := Records(style, table, jobs, sched + [IDLE]);
    forall j | 0 <= j < |jobs|
      ensures next[j] == pc[j]
    {
      RecordStays(style, table[j], jobs, sched, IDLE, 1, j);
    }
  }

  lemma InStepDispatch(keepsEnd: bool, table: seq<Process>, jobs: seq<Job>, sched: seq<int>, pc: seq<Process>,
                       before: Totals, now: Totals, completed: int, i: nat, e: nat, longer: seq<int>)
    requires jobs == Jobs(table) && ValidJobs(jobs) && IsSchedule(jobs, sched)
    requires InStep(Preemptive(keepsEnd), table, jobs, sched, pc, before, now, completed)
    requires i < |jobs| && Ready(jobs, Left(jobs, sched, |sched|), |sched|, i)
    requires 0 < e <= Left(jobs, sched, |sched|)[i] && longer == sched + Repeat(i, e)
    ensures InStep(Preemptive(keepsEnd), table, jobs, longer, pc[i := Dispatched(keepsEnd, pc[i], |sched|, e)], before,
                   Charged(now, pc[i], i, |sched|, e), completed + if pc[i].remaining == e then 1 else 0)
  {
    DispatchAgrees(keepsEnd, table, jobs, sched, i, e, longer);
    ChargeAgrees(before, jobs, sched, i, e, longer, pc[i]);
    AfterRun(before, jobs, sched, i, e, longer);
  }

  // ---- round robin --------------------------------------------------------

  lemma {:induction false} EnqueueGrows(jobs: seq<Job>, left: seq<int>, history: seq<int>, t: nat, n: nat)
    requires |left| == |jobs| && n <= |jobs|
    ensures |RoundRobin.Enqueue(jobs, left, history, t, n)| <= |RoundRobin.Enqueue(jobs, left, history, t, |jobs|)|
    decreases |jobs| - n
  {
    if n < |jobs| {
      EnqueueGrows(jobs, left, history, t, n + 1);
    }
  }

  /** Enqueuing depends on arrivals and remaining work only. */
  lemma {:induction false} EnqueueSame(a: seq<Job>, b: seq<Job>, left: seq<int>, history: seq<int>, t: nat, n: nat)
    requires |a| == |b| == |left| && n <= |a| && forall i :: 0 <= i < |a| ==> a[i].arrival == b[i].arrival
    ensures RoundRobin.Enqueue(a, left, history, t, n) == RoundRobin.Enqueue(b, left, history, t, n)
  {
    if n > 0 {
      EnqueueSame(a, b, left, history, t, n - 1);
    }
  }

  lemma RecordsShow(keepsEnd: bool, table: seq<Process>, jobs: seq<Job>, sched: seq<int>, pc: seq<Process>)
    requires jobs == Jobs(table) && pc == Records(Preemptive(keepsEnd), table, jobs, sched)
    ensures Remainings(pc) == Left(jobs, sched, |sched|)
    ensures forall i :: 0 <= i < |jobs| ==> Jobs(pc)[i].arrival == jobs[i].arrival
  {
  }

  lemma EnqueueInTable(table: seq<Process>, jobs: seq<Job>, s: RoundRobin.State, pc: seq<Process>,
                       history: seq<int>, t: nat, n: nat)
    requires jobs == Jobs(table) && pc == Records(Preemptive(true), table, jobs, s.sched)
    requires s.left == Left(jobs, s.sched, |s.sched|) && history == s.history && t == |s.sched| && n == |pc|
    ensures RoundRobin.Enqueue(Jobs(pc), Remainings(pc), history, t, n) == RoundRobin.Offered(jobs, s).history
    ensures forall i :: 0 <= i < |pc| ==> pc[i].remaining == s.left[i]
  {
    RecordsShow(true, table, jobs, s.sched, pc);
    EnqueueSame(Jobs(pc), jobs, s.left, history, t, n);
    assert Remainings(pc) == s.left;
  }

  /** The ready array and the clock agree with the round-robin machine. */
  ghost predicate AtTurn(s: RoundRobin.State, ready: array<int>, start: nat, end: nat, now: nat)
    reads ready
  {
    && end <= ready.Length
    && ready[..end] == s.history
    && start == s.start
    && now == |s.sched|
  }

  /** What is known at the top of a turn; `r` is the machine after the first enqueuing, `t` after the turn. */
  ghost predicate TurnOk(jobs: seq<Job>, slice: nat, s: RoundRobin.State, r: RoundRobin.State, t: RoundRobin.State) {
    && |s.left| == |jobs| && r == RoundRobin.Offered(jobs, s)
    && IsSchedule(jobs, s.sched)
    && s.left == Left(jobs, s.sched, |s.sched|)
    && s.start <= Done(s.sched, |s.sched|)
    && RoundRobin.Invariant(jobs, slice, r, |s.sched| + 1, IDLE)
    && |r.history| <= Sum(Bursts(jobs))
    && (if r.start < |r.history|
        then var i := r.history[r.start];
             Ready(jobs, r.left, |r.sched|, i) && t == RoundRobin.Returned(jobs, RoundRobin.Served(slice, r, i), i)
        else t == r.(sched := r.sched + [IDLE]))
  }

  lemma TurnReady(jobs: seq<Job>, slice: nat, s: RoundRobin.State, turn: nat)
    requires ValidJobs(jobs) && slice > 0 && s == RoundRobin.Run(jobs, slice, turn)
    ensures TurnOk(jobs, slice, s, RoundRobin.Offered(jobs, s), RoundRobin.Step(jobs, slice, s))
  {
    var r := RoundRobin.Offered(jobs, s);
    RoundRobin.RunKeeps(jobs, slice, turn);
    RoundRobin.GoodSchedule(jobs, RoundRobin.Round(jobs, slice), s.sched);
    RoundRobin.DispatchesTakeTime(jobs, slice, turn);
    RoundRobin.EnqueueKeeps(jobs, slice, s, |s.sched|, IDLE, r);
    RoundRobin.HistoryFits(jobs, slice, r, |s.sched| + 1, IDLE);
    if r.start < |r.history| {
      ServedFacts(jobs, slice, r, r.history[r.start]);
    }
  }

  /** What is known about a dispatch: the process is ready, and the queue still fits afterwards. */
  lemma ServedFacts(jobs: seq<Job>, slice: nat, r: RoundRobin.State, i: int)
    requires ValidJobs(jobs) && slice > 0 && RoundRobin.Invariant(jobs, slice, r, |r.sched| + 1, IDLE)
    requires r.start <= Done(r.sched, |r.sched|) && r.start < |r.history| && i == r.history[r.start]
    ensures Ready(jobs, r.left, |r.sched|, i)
    ensures var served := RoundRobin.Served(slice, r, i);
      && served.left == Left(jobs, served.sched, |served.sched|)
      && |RoundRobin.Offered(jobs, served).history| + served.left[i] <= Sum(Bursts(jobs))
      && served.left[i] >= 0
  {
    assert RoundRobin.Live(r)[0] == i;
    RoundRobin.HeadFacts(jobs, slice, r, i);
    RoundRobin.MidTurn(jobs, slice, r, i);
  }

  /** A turn of round robin brings the end nearer. */
  lemma RrTurnFacts(jobs: seq<Job>, slice: nat, s: RoundRobin.State, turn: nat)
    requires ValidJobs(jobs) && slice > 0 && s == RoundRobin.Run(jobs, slice, turn) && !Complete(jobs, s.sched)
    ensures var sched := RoundRobin.Step(jobs, slice, s).sched;
      && 0 <= Remaining(jobs, sched) < Remaining(jobs, s.sched)
      && (Complete(jobs, sched) ==> Trimmed(sched))
  {
    var r := RoundRobin.Offered(jobs, s);
    TurnReady(jobs, slice, s, turn);
    if r.start < |r.history| {
      var i := r.history[r.start];
      ServedFacts(jobs, slice, r, i);
      ServeShrinks(jobs, slice, r, i);
    } else {
      RoundRobin.LiveQueueIsExact(jobs, slice, turn);
      IdleShrinks(jobs, s.sched);
    }
  }

  lemma IdleShrinks(jobs: seq<Job>, sched: seq<int>)
    requires ValidJobs(jobs) && IsSchedule(jobs, sched) && !Complete(jobs, sched)
    requires NoneReady(jobs, Left(jobs, sched, |sched|), |sched|)
    ensures 0 <= Remaining(jobs, sched + [IDLE]) < Remaining(jobs, sched)
    ensures !Complete(jobs, sched + [IDLE])
  {
    RemainingShrinks(jobs, sched, IDLE);
    LeftTick(jobs, sched, IDLE);
  }

  lemma ServeShrinks(jobs: seq<Job>, slice: nat, r: RoundRobin.State, i: int)
    requires ValidJobs(jobs) && slice > 0 && IsSchedule(jobs, r.sched) && r.left == Left(jobs, r.sched, |r.sched|)
    requires Ready(jobs, r.left, |r.sched|, i)
    ensures var sched := RoundRobin.Served(slice, r, i).sched;
      0 <= Remaining(jobs, sched) < Remaining(jobs, r.sched) && Trimmed(sched)
  {
    var e := RoundRobin.Slice(slice, r.left[i]);
    RunShrinks(jobs, r.sched, i, e, r.sched + Repeat(i, e));
  }

  lemma RunShrinks(jobs: seq<Job>, sched: seq<int>, i: int, e: nat, longer: seq<int>)
    requires ValidJobs(jobs) && IsSchedule(jobs, sched) && Ready(jobs, Left(jobs, sched, |sched|), |sched|, i)
    requires 0 < e <= Left(jobs, sched, |sched|)[i] && longer == sched + Repeat(i, e)
    ensures 0 <= Remaining(jobs, longer) < Remaining(jobs, sched) && Trimmed(longer)
  {
    var left, after := Left(jobs, sched, |sched|), Left(jobs, longer, |longer|);
    RunExtends(jobs, sched, i, e, longer);
    SumUpdate(left, i, left[i] - e);
    assert Sum(after) == Sum(left) - e;
    LeftBounds(jobs, longer, |longer|);
    SumNonNegative(after);
    assert longer[|longer| - 1] == i;
  }

  // ---- uninterrupted runs -------------------------------------------------

  lemma InStepWhole(style: Style, table: seq<Process>, jobs: seq<Job>, sched: seq<int>, pc: seq<Process>,
                    before: Totals, now: Totals, completed: int, i: nat, longer: seq<int>)
    requires jobs == Jobs(table) && ValidJobs(jobs) && IsSchedule(jobs, sched) && !style.Preemptive?
    requires InStep(style, table, jobs, sched, pc, before, now, completed)
    requires i < |jobs| && jobs[i].arrival <= |sched| && Left(jobs, sched, |sched|)[i] == jobs[i].burst
    requires longer == sched + Repeat(i, jobs[i].burst)
    ensures InStep(style, table, jobs, longer, pc[i := RanWhole(style, pc[i], |sched|)], before,
                   ChargedWhole(now, pc[i], i, |sched|), completed + 1)
  {
    WholeAgrees(style, table, jobs, sched, i, longer);
    WholeCharged(before, jobs, sched, i, longer, pc[i]);
  }

  /** No job is partly run. */
  predicate AllOrNothing(jobs: seq<Job>, sched: seq<int>) {
    forall i :: 0 <= i < |jobs| ==> Left(jobs, sched, |sched|)[i] == 0 || Left(jobs, sched, |sched|)[i] == jobs[i].burst
  }

  /** A non-preemptive algorithm that starts a job runs it to its end. */
  lemma {:induction false} GrowsWhole(alg: Algorithm, jobs: seq<Job>, sched: seq<int>, i: int, e: nat, longer: seq<int>)
    requires ValidJobs(jobs) && Grown(alg, jobs, sched) && alg != Algorithm.Srtf && i == Pick(alg, jobs, sched) != IDLE
    requires 0 <= i < |jobs| && Ready(jobs, Left(jobs, sched, |sched|), |sched|, i)
    requires 0 < e <= Left(jobs, sched, |sched|)[i] && longer == sched + Repeat(i, e)
    ensures Grown(alg, jobs, longer)
    ensures Left(jobs, longer, |longer|) == Left(jobs, sched, |sched|)[i := Left(jobs, sched, |sched|)[i] - e]
    decreases e
  {
    var shorter := longer[..|longer| - 1];
    assert longer == shorter + [i];
    GrownMeans(alg, jobs, sched);
    RunExtends(jobs, sched, i, e, longer);
    if e == 1 {
      assert shorter == sched;
    } else {
      GrowsWhole(alg, jobs, sched, i, e - 1, shorter);
      GoesOn(alg, jobs, sched, i, shorter);
    }
    Grows(alg, jobs, shorter, i);
  }

  lemma GoesOn(alg: Algorithm, jobs: seq<Job>, sched: seq<int>, i: int, shorter: seq<int>)
    requires alg != Algorithm.Srtf && i == Pick(alg, jobs, sched) != IDLE && 0 <= i < |jobs|
    requires |sched| < |shorter| && shorter[|shorter| - 1] == i
    requires jobs[i].arrival <= |sched| && Left(jobs, shorter, |shorter|)[i] > 0
    requires forall j :: 0 <= j < |jobs| && j != i ==>
      Left(jobs, shorter, |shorter|)[j] == Left(jobs, sched, |sched|)[j]
    ensures Pick(alg, jobs, shorter) == i
  {
    if alg == Algorithm.Fcfs {
      var a, b := FirstUnfinished(Left(jobs, sched, |sched|)), FirstUnfinished(Left(jobs, shorter, |shorter|));
      assert a == i;
      assert b <= i;
    }
  }

  /** Between whole runs SJF picks the shortest ready job. */
  lemma SjfPicksShortest(jobs: seq<Job>, sched: seq<int>)
    requires ValidJobs(jobs) && IsSchedule(jobs, sched) && AllOrNothing(jobs, sched)
    ensures Pick(Algorithm.Sjf, jobs, sched) == Shortest(jobs, Left(jobs, sched, |sched|), |sched|, |jobs|)
  {
    if |sched| > 0 && 0 <= At(sched, |sched| - 1) < |jobs| {
      LeftBound(jobs, sched, |sched| - 1, At(sched, |sched| - 1));
    }
  }

  function BurstFields(pc: seq<Process>): seq<int> {
    seq(|pc|, i requires 0 <= i < |pc| => pc[i].burst)
  }

  /** The burst fields, cleared when a job is done, stand for the work left. */
  lemma ShortestBurstInTable(table: seq<Process>, jobs: seq<Job>, sched: seq<int>, pc: seq<Process>, t: nat, n: nat)
    requires jobs == Jobs(table) && pc == Records(Style.Sjf, table, jobs, sched) && AllOrNothing(jobs, sched)
    requires t == |sched| && n == |pc|
    ensures Shortest(Jobs(pc), BurstFields(pc), t, n) == Shortest(jobs, Left(jobs, sched, t), t, n)
  {
    assert BurstFields(pc) == Left(jobs, sched, t);
    ShortestOf(Jobs(pc), jobs, Left(jobs, sched, t), t, n);
  }

  /** No burst reaches the sentinel of the search. */
  lemma BurstsFit(table: seq<Process>, jobs: seq<Job>)
    requires jobs == Jobs(table) && ValidJobs(jobs) && Sum(Bursts(jobs)) <= MAX
    ensures forall i :: 0 <= i < |table| ==> table[i].burst <= MAX
  {
    forall i | 0 <= i < |table|
      ensures table[i].burst <= MAX
    {
      PartOfSum(Bursts(jobs), i);
    }
  }

  /** An idle or whole-run turn of SJF, seen on the schedule. */
  lemma SjfTurnFacts(jobs: seq<Job>, sched: seq<int>, p: int, e: nat, longer: seq<int>)
    requires ValidJobs(jobs) && Grown(Algorithm.Sjf, jobs, sched) && AllOrNothing(jobs, sched) && !Complete(jobs, sched)
    requires p == Shortest(jobs, Left(jobs, sched, |sched|), |sched|, |jobs|)
    requires e == (if p == IDLE then 1 else jobs[p].burst) && longer == sched + Repeat(p, e)
    ensures Grown(Algorithm.Sjf, jobs, longer) && AllOrNothing(jobs, longer)
    ensures 0 <= Remaining(jobs, longer) < Remaining(jobs, sched)
    ensures Complete(jobs, longer) ==> Trimmed(longer)
  {
    GrownMeans(Algorithm.Sjf, jobs, sched);
    SjfPicksShortest(jobs, sched);
    if p == IDLE {
      assert Repeat(IDLE, 1) == [IDLE];
      Grows(Algorithm.Sjf, jobs, sched, IDLE);
      IdleShrinks(jobs, sched);
      LeftTick(jobs, sched, IDLE);
    } else {
      GrowsWhole(Algorithm.Sjf, jobs, sched, p, e, longer);
      RunShrinks(jobs, sched, p, e, longer);
    }
  }

  // ---- first come first served --------------------------------------------

  /** The first i jobs are done and the others untouched. */
  predicate DoneUpTo(jobs: seq<Job>, sched: seq<int>, i: nat)
    requires i <= |jobs|
  {
    && (forall j :: 0 <= j < i ==> Left(jobs, sched, |sched|)[j] == 0)
    && (forall j :: i <= j < |jobs| ==> Left(jobs, sched, |sched|)[j] == jobs[j].burst)
  }

  lemma FcfsPicksNext(jobs: seq<Job>, sched: seq<int>, i: nat)
    requires ValidJobs(jobs) && i < |jobs| && DoneUpTo(jobs, sched, i)
    ensures Pick(Algorithm.Fcfs, jobs, sched) == if jobs[i].arrival <= |sched| then i else IDLE
  {
    var left := Left(jobs, sched, |sched|);
    var f := FirstUnfinished(left);
    assert left[i] > 0;
    assert forall j :: 0 <= j < i ==> left[j] == 0;
  }

  /** Waiting for the next job to arrive. */
  lemma {:induction false} FcfsWaits(table: seq<Process>, jobs: seq<Job>, sched: seq<int>, pc: seq<Process>, before: Totals,
                                     now: Totals, completed: int, i: nat, e: nat, longer: seq<int>)
    requires jobs == Jobs(table) && ValidJobs(jobs) && Grown(Algorithm.Fcfs, jobs, sched)
    requires InStep(Style.Fcfs, table, jobs, sched, pc, before, now, completed)
    requires i < |jobs| && DoneUpTo(jobs, sched, i) && (e == 0 || |sched| + e <= jobs[i].arrival)
    requires longer == sched + Repeat(IDLE, e)
    ensures InStep(Style.Fcfs, table, jobs, longer, pc, before, now, completed)
    ensures Grown(Algorithm.Fcfs, jobs, longer) && DoneUpTo(jobs, longer, i) && Busy(longer) == Busy(sched)
    decreases e
  {
    if e == 0 {
      assert longer == sched;
    } else {
      var shorter := longer[..|longer| - 1];
      assert longer == shorter + [IDLE];
      FcfsWaits(table, jobs, sched, pc, before, now, completed, i, e - 1, shorter);
      FcfsIdles(table, jobs, shorter, pc, before, now, completed, i);
    }
  }

  lemma FcfsIdles(table: seq<Process>, jobs: seq<Job>, sched: seq<int>, pc: seq<Process>, before: Totals, now: Totals,
                  completed: int, i: nat)
    requires jobs == Jobs(table) && ValidJobs(jobs) && Grown(Algorithm.Fcfs, jobs, sched)
    requires InStep(Style.Fcfs, table, jobs, sched, pc, before, now, completed)
    requires i < |jobs| && DoneUpTo(jobs, sched, i) && |sched| < jobs[i].arrival
    ensures InStep(Style.Fcfs, table, jobs, sched + [IDLE], pc, before, now, completed)
    ensures Grown(Algorithm.Fcfs, jobs, sched + [IDLE]) && DoneUpTo(jobs, sched + [IDLE], i)
    ensures Busy(sched + [IDLE]) == Busy(sched)
  {
    GrownMeans(Algorithm.Fcfs, jobs, sched);
    FcfsPicksNext(jobs, sched, i);
    Grows(Algorithm.Fcfs, jobs, sched, IDLE);
    InStepIdle(Style.Fcfs, table, jobs, sched, pc, before, now, completed);
    LeftTick(jobs, sched, IDLE);
    BusyAppend(sched, IDLE);
  }

  /** Running the next job to its end. */
  lemma FcfsRuns(jobs: seq<Job>, sched: seq<int>, i: nat, longer: seq<int>)
    requires ValidJobs(jobs) && Grown(Algorithm.Fcfs, jobs, sched) && i < |jobs| && DoneUpTo(jobs, sched, i)
    requires jobs[i].arrival <= |sched| && longer == sched + Repeat(i, jobs[i].burst)
    ensures Grown(Algorithm.Fcfs, jobs, longer) && DoneUpTo(jobs, longer, i + 1) && Trimmed(longer)
    ensures |Busy(longer)| == |Busy(sched)| + jobs[i].burst <= Sum(Bursts(jobs))
  {
    GrownMeans(Algorithm.Fcfs, jobs, sched);
    FcfsPicksNext(jobs, sched, i);
    GrowsWhole(Algorithm.Fcfs, jobs, sched, i, jobs[i].burst, longer);
    BusyRun(sched, i, jobs[i].burst, longer);
    ChartRoom(jobs, sched, i);
  }

  /** A whole turn of FCFS: wait until `start`, then run job i to its end. */
  lemma FcfsTurnFacts(table: seq<Process>, jobs: seq<Job>, sched: seq<int>, pc: seq<Process>, before: Totals, now: Totals,
                      i: nat, start: nat, waited: seq<int>, longer: seq<int>)
    requires jobs == Jobs(table) && ValidJobs(jobs) && Grown(Algorithm.Fcfs, jobs, sched)
    requires InStep(Style.Fcfs, table, jobs, sched, pc, before, now, i) && i < |jobs| && DoneUpTo(jobs, sched, i)
    requires start == if jobs[i].arrival > |sched| then jobs[i].arrival else |sched|
    requires waited == sched + Repeat(IDLE, start - |sched|) && longer == waited + Repeat(i, jobs[i].burst)
    ensures Grown(Algorithm.Fcfs, jobs, waited) && DoneUpTo(jobs, waited, i) && |waited| == start
    ensures InStep(Style.Fcfs, table, jobs, waited, pc, before, now, i)
    ensures Grown(Algorithm.Fcfs, jobs, longer) && DoneUpTo(jobs, longer, i + 1) && Trimmed(longer)
    ensures |Busy(longer)| == |Busy(sched)| + jobs[i].burst <= Sum(Bursts(jobs))
  {
    FcfsWaits(table, jobs, sched, pc, before, now, i, i, start - |sched|, waited);
    FcfsRuns(jobs, waited, i, longer);
  }

  /** The records and totals after it. */
  lemma FcfsTurnRecords(table: seq<Process>, jobs: seq<Job>, waited: seq<int>, pc: seq<Process>, before: Totals, now: Totals,
                        i: nat, start: nat, longer: seq<int>, after: seq<Process>, charged: Totals)
    requires jobs == Jobs(table) && ValidJobs(jobs) && Grown(Algorithm.Fcfs, jobs, waited) && |waited| == start
    requires InStep(Style.Fcfs, table, jobs, waited, pc, before, now, i) && i < |jobs| && DoneUpTo(jobs, waited, i)
    requires jobs[i].arrival <= start && longer == waited + Repeat(i, jobs[i].burst)
    requires after == pc[i := RanWhole(Style.Fcfs, pc[i], start)] && charged == ChargedWhole(now, pc[i], i, start)
    ensures InStep(Style.Fcfs, table, jobs, longer, after, before, charged, i + 1)
  {
    GrownMeans(Algorithm.Fcfs, jobs, waited);
    InStepWhole(Style.Fcfs, table, jobs, waited, pc, before, now, i, i, longer);
  }

  class Simulator {
    var pcQueue: array<int>
    var queueIndex: nat
    var turnaroundTime: int
    var responseTime: int
    var waitTime: int
    var busyTime: int

    constructor ()
      ensures fresh(pcQueue) && pcQueue.Length == MAX && queueIndex == 0
      ensures Now() == Totals([], 0, 0, 0, 0)
    {
      pcQueue := new int[MAX];
      queueIndex, turnaroundTime, responseTime, waitTime, busyTime := 0, 0, 0, 0, 0;
    }

    /** The chart and totals as they are. */
    ghost function Now(): Totals
      reads this, pcQueue
    {
      Totals(if queueIndex <= pcQueue.Length then pcQueue[..queueIndex] else [],
             turnaroundTime, waitTime, responseTime, busyTime)
    }

    /** Adds one tick of process i to the chart. */
    method Push(i: int)
      requires queueIndex < pcQueue.Length
      modifies this`queueIndex, pcQueue
      ensures queueIndex == old(queueIndex) + 1
      ensures Now() == old(Now()).(queue := old(Now()).queue + [i])
    {
      pcQueue[queueIndex] := i;
      queueIndex := queueIndex + 1;
      assert pcQueue[..queueIndex] == old(pcQueue[..queueIndex]) + [i];
    }

    /** Adds b ticks of process i to the chart. */
    method PushMany(i: int, b: nat)
      requires queueIndex + b <= pcQueue.Length
      modifies this`queueIndex, pcQueue
      ensures queueIndex == old(queueIndex) + b
      ensures Now() == old(Now()).(queue := old(Now()).queue + Repeat(i, b))
    {
      var left := b;
      assert old(Now()).queue + Repeat(i, 0) == old(Now()).queue;
      while left > 0
        invariant 0 <= left <= b && queueIndex == old(queueIndex) + b - left
        invariant Now() == old(Now()).(queue := old(Now()).queue + Repeat(i, b - left))
      {
        Push(i);
        assert Repeat(i, b - left) + [i] == Repeat(i, b - left + 1);
        left := left - 1;
      }
    }

    /** Records that process i has finished now and adds it to the totals. */
    method FinishProcess(pc: array<Process>, i: nat, now: int)
      requires i < pc.Length && queueIndex <= pcQueue.Length
      modifies this`turnaroundTime, this`waitTime, this`responseTime, this`busyTime, pc
      ensures var p := old(pc[i]);
        && pc[..] == old(pc[..])[i := p.(finalEnd := now, totalWait := now - p.arrival - p.burst)]
        && Now() == old(Now()).(turnaround := old(turnaroundTime) + now - p.arrival,
                                wait := old(waitTime) + now - p.arrival - p.burst,
                                response := old(responseTime) + p.start - p.arrival,
                                busy := old(busyTime) + p.burst)
    {
      pc[i] := pc[i].(finalEnd := now);
      pc[i] := pc[i].(totalWait := pc[i].finalEnd - pc[i].arrival - pc[i].burst);
      turnaroundTime := turnaroundTime + pc[i].finalEnd - pc[i].arrival;
      waitTime := waitTime + pc[i].totalWait;
      responseTime := responseTime + (pc[i].start - pc[i].arrival);
      busyTime := busyTime + pc[i].burst;
    }

    /** Every process has its whole burst to do. */
    method ResetRemaining(pc: array<Process>)
      modifies pc
      ensures forall i :: 0 <= i < pc.Length ==> pc[i] == old(pc[i]).(remaining := old(pc[i]).burst)
    {
      for i := 0 to pc.Length
        invariant forall j :: 0 <= j < i ==> pc[j] == old(pc[j]).(remaining := old(pc[j]).burst)
        invariant forall j :: i <= j < pc.Length ==> pc[j] == old(pc[j])
      {
        pc[i] := pc[i].(remaining := pc[i].burst);
      }
    }

    // ---- shortest remaining time first ------------------------------------

    /** The ready process with the least work left. */
    method FindShortest(pc: array<Process>, now: nat) returns (best: int)
      ensures best == Shortest(Jobs(pc[..]), Remainings(pc[..]), now, pc.Length)
    {
      best := -1;
      for i := 0 to pc.Length
        invariant best == Shortest(Jobs(pc[..]), Remainings(pc[..]), now, i)
      {
        if pc[i].arrival <= now && pc[i].remaining > 0 {
          if best == -1 || pc[i].remaining < pc[best].remaining {
            best := i;
          }
        }
      }
    }

    /** Runs process i for e ticks from `now`, and finishes it if that was all it needed. */
    method RunProcess(pc: array<Process>, i: nat, e: nat, now: int, keepsEnd: bool) returns (finished: bool)
      requires i < pc.Length && queueIndex + e <= pcQueue.Length
      modifies this, pcQueue, pc
      ensures pcQueue == old(pcQueue) && queueIndex == old(queueIndex) + e
      ensures pc[..] == old(pc[..])[i := Dispatched(keepsEnd, old(pc[i]), now, e)]
      ensures Now() == Charged(old(Now()), old(pc[i]), i, now, e)
      ensures finished <==> old(pc[i].remaining) == e
    {
      if pc[i].remaining == pc[i].burst {
        pc[i] := pc[i].(start := now);
      }
      pc[i] := pc[i].(remaining := pc[i].remaining - e);
      if keepsEnd {
        pc[i] := pc[i].(end := now + e);
      }
      PushMany(i, e);
      finished := pc[i].remaining == 0;
      if finished {
        FinishProcess(pc, i, now + e);
      }
    }

    /** A dispatch of a ready process keeps the simulator in step with the schedule. */
    method Dispatch(pc: array<Process>, i: nat, e: nat, now: nat, keepsEnd: bool, completed: int,
                    ghost table: seq<Process>, ghost jobs: seq<Job>, ghost before: Totals, ghost sched: seq<int>,
                    ghost longer: seq<int>)
      returns (count: int)
      requires jobs == Jobs(table) && ValidJobs(jobs) && IsSchedule(jobs, sched) && now == |sched|
      requires InStep(Preemptive(keepsEnd), table, jobs, sched, pc[..], before, Now(), completed)
      requires i < pc.Length && Ready(jobs, Left(jobs, sched, now), now, i)
      requires 0 < e <= Left(jobs, sched, now)[i] && longer == sched + Repeat(i, e)
      requires queueIndex + e <= pcQueue.Length
      modifies this, pcQueue, pc
      ensures pcQueue == old(pcQueue) && queueIndex == old(queueIndex) + e
      ensures InStep(Preemptive(keepsEnd), table, jobs, longer, pc[..], before, Now(), count)
    {
      InStepDispatch(keepsEnd, table, jobs, sched, pc[..], before, Now(), completed, i, e, longer);
      var finished := RunProcess(pc, i, e, now, keepsEnd);
      count := if finished then completed + 1 else completed;
    }

    /** One turn of the SRTF loop: the time always advances by one. */
    method SrtfTurn(pc: array<Process>, now: nat, completed: int, ghost table: seq<Process>, ghost jobs: seq<Job>,
                    ghost before: Totals, ghost sched: seq<int>)
      returns (count: int, ghost best: int)
      requires jobs == Jobs(table) && ValidJobs(jobs) && Grown(Algorithm.Srtf, jobs, sched) && now == |sched|
      requires InStep(Preemptive(false), table, jobs, sched, pc[..], before, Now(), completed)
      requires |before.queue| + Sum(Bursts(jobs)) <= pcQueue.Length && queueIndex == |before.queue| + |Busy(sched)|
      modifies this, pcQueue, pc
      ensures pcQueue == old(pcQueue) && queueIndex == |before.queue| + |Busy(sched + [best])|
      ensures best == Pick(Algorithm.Srtf, jobs, sched)
      ensures InStep(Preemptive(false), table, jobs, sched + [best], pc[..], before, Now(), count)
    {
      var min := FindShortest(pc, now);
      best := min;
      count := completed;
      ShortestInTable(false, table, jobs, sched, pc[..]);
      GrownMeans(Algorithm.Srtf, jobs, sched);
      BusyAppend(sched, min);
      if min != -1 {
        ChartRoom(jobs, sched, min);
        assert Repeat(min, 1) == [min];
        count := Dispatch(pc, min, 1, now, false, completed, table, jobs, before, sched, sched + [min]);
      } else {
        InStepIdle(Preemptive(false), table, jobs, sched, pc[..], before, Now(), completed);
      }
    }

    method Srtf(pc: array<Process>) returns (ghost sched: seq<int>)
      requires ValidJobs(Jobs(pc[..])) && queueIndex + Sum(Bursts(Jobs(pc[..]))) <= pcQueue.Length
      modifies this, pcQueue, pc
      ensures pcQueue == old(pcQueue)
      ensures var table := old(pc[..]); var jobs := Jobs(table);
        && FollowsSrtf(jobs, sched) && Complete(jobs, sched) && Trimmed(sched)
        && pc[..] == Records(Preemptive(false), table, jobs, sched)
        && AllFinal(Preemptive(false), table, sched, pc[..])
        && Now() == After(old(Now()), jobs, sched)
    {
      ghost var table, before := pc[..], Now();
      ghost var jobs := Jobs(table);
      var now, completed := 0, 0;
      sched := [];
      ResetRemaining(pc);
      SumNonNegative(Bursts(jobs));
      InStepStart(Preemptive(false), table, pc[..], before);
      CompletedMeansComplete(jobs, sched);
      while completed < pc.Length
        invariant pcQueue == old(pcQueue) && queueIndex == |before.queue| + |Busy(sched)|
        invariant now == |sched| && Grown(Algorithm.Srtf, jobs, sched)
        invariant InStep(Preemptive(false), table, jobs, sched, pc[..], before, Now(), completed)
        invariant completed <= pc.Length && (completed == pc.Length <==> Complete(jobs, sched))
        invariant Complete(jobs, sched) ==> Trimmed(sched)
        decreases Remaining(jobs, sched)
      {
        ghost var best;
        completed, best := SrtfTurn(pc, now, completed, table, jobs, before, sched);
        now := now + 1;
        TurnFacts(Algorithm.Srtf, jobs, sched, best);
        sched := sched + [best];
      }
      GrownMeans(Algorithm.Srtf, jobs, sched);
      FinalRecords(Preemptive(false), table, jobs, sched);
    }

    // ---- round robin ------------------------------------------------------

    /** Appends the ready processes that are nowhere in the ready array, used part included. */
    method EnqueueReadyQueue(pc: array<Process>, ready: array<int>, readyEnd: nat, now: nat) returns (end: nat)
      requires readyEnd <= ready.Length
      requires |RoundRobin.Enqueue(Jobs(pc[..]), Remainings(pc[..]), ready[..readyEnd], now, pc.Length)| <= ready.Length
      modifies ready
      ensures end <= ready.Length
      ensures ready[..end] == RoundRobin.Enqueue(Jobs(pc[..]), Remainings(pc[..]), old(ready[..readyEnd]), now, pc.Length)
    {
      ghost var jobs, left, history := Jobs(pc[..]), Remainings(pc[..]), ready[..readyEnd];
      end := readyEnd;
      for i := 0 to pc.Length
        invariant end <= ready.Length
        invariant ready[..end] == RoundRobin.Enqueue(jobs, left, history, now, i)
      {
        EnqueueGrows(jobs, left, history, now, i + 1);
        if pc[i].arrival <= now && pc[i].remaining > 0 {
          var inQueue := InQueue(ready, end, i);
          if !inQueue {
            ready[end] := i;
            end := end + 1;
            assert ready[..end] == ready[..end - 1] + [i];
          }
        }
      }
    }

    /** Looks for process i among the first n entries. */
    method InQueue(ready: array<int>, n: nat, i: int) returns (found: bool)
      requires n <= ready.Length
      ensures found <==> i in ready[..n]
    {
      found := false;
      var j := 0;
      while j < n
        invariant j <= n && i !in ready[..j]
      {
        if ready[j] == i {
          found := true;
          break;
        }
        j := j + 1;
      }
    }

    /** Runs the head of the queue, queues the new arrivals, then puts the process back if it is unfinished. */
    method RrServe(pc: array<Process>, slice: nat, ready: array<int>, readyEnd: nat, i: nat, now: nat, completed: int,
                   ghost table: seq<Process>, ghost jobs: seq<Job>, ghost before: Totals, ghost r: RoundRobin.State)
      returns (end: nat, time: nat, count: int)
      requires jobs == Jobs(table) && ValidJobs(jobs) && slice > 0 && i < pc.Length
      requires IsSchedule(jobs, r.sched) && r.left == Left(jobs, r.sched, |r.sched|) && now == |r.sched|
      requires Ready(jobs, r.left, now, i) && readyEnd <= ready.Length && ready[..readyEnd] == r.history
      requires var served := RoundRobin.Served(slice, r, i);
        && served.left == Left(jobs, served.sched, |served.sched|) && served.left[i] >= 0
        && |RoundRobin.Offered(jobs, served).history| + served.left[i] <= ready.Length
      requires InStep(Preemptive(true), table, jobs, r.sched, pc[..], before, Now(), completed)
      requires |before.queue| + Sum(Bursts(jobs)) <= pcQueue.Length && queueIndex == |before.queue| + |Busy(r.sched)|
      requires ready != pcQueue
      modifies this, pcQueue, pc, ready
      ensures pcQueue == old(pcQueue)
      ensures var t := RoundRobin.Returned(jobs, RoundRobin.Served(slice, r, i), i);
        && end <= ready.Length && ready[..end] == t.history && time == |t.sched|
        && InStep(Preemptive(true), table, jobs, t.sched, pc[..], before, Now(), count)
        && queueIndex == |before.queue| + |Busy(t.sched)|
    {
      ghost var served := RoundRobin.Served(slice, r, i);
      var e := if pc[i].remaining > slice then slice else pc[i].remaining;
      BusyRun(r.sched, i, e, served.sched);
      ChartRoom(jobs, r.sched, i);
      count := Dispatch(pc, i, e, now, true, completed, table, jobs, before, r.sched, served.sched);
      time := now + e;
      end := RrRequeue(pc, ready, readyEnd, i, time, table, jobs, served);
    }

    /** Queues the new arrivals, then the process that has just run unless it is finished. */
    method RrRequeue(pc: array<Process>, ready: array<int>, readyEnd: nat, i: nat, now: nat,
                     ghost table: seq<Process>, ghost jobs: seq<Job>, ghost served: RoundRobin.State)
      returns (end: nat)
      requires jobs == Jobs(table) && i < pc.Length && pc[..] == Records(Preemptive(true), table, jobs, served.sched)
      requires served.left == Left(jobs, served.sched, |served.sched|) && now == |served.sched|
      requires readyEnd <= ready.Length && ready[..readyEnd] == served.history && served.left[i] >= 0
      requires |RoundRobin.Offered(jobs, served).history| + served.left[i] <= ready.Length
      modifies ready
      ensures end <= ready.Length && ready[..end] == RoundRobin.Returned(jobs, served, i).history
    {
      EnqueueInTable(table, jobs, served, pc[..], ready[..readyEnd], now, pc.Length);
      end := EnqueueReadyQueue(pc, ready, readyEnd, now);
      assert pc[i].remaining == pc[..][i].remaining == served.left[i];
      if pc[i].remaining != 0 {
        ready[end] := i;
        end := end + 1;
        assert ready[..end] == ready[..end - 1] + [i];
      }
    }

    /** One turn of the round-robin loop. */
    method RrTurn(pc: array<Process>, slice: nat, ready: array<int>, readyStart: nat, readyEnd: nat, now: nat,
                  completed: int, ghost table: seq<Process>, ghost jobs: seq<Job>, ghost before: Totals,
                  ghost s: RoundRobin.State, ghost r: RoundRobin.State, ghost t: RoundRobin.State)
      returns (start: nat, end: nat, time: nat, count: int)
      requires jobs == Jobs(table) && ValidJobs(jobs) && slice > 0
      requires TurnOk(jobs, slice, s, r, t)
      requires AtTurn(s, ready, readyStart, readyEnd, now)
      requires InStep(Preemptive(true), table, jobs, s.sched, pc[..], before, Now(), completed)
      requires |before.queue| + Sum(Bursts(jobs)) <= pcQueue.Length && Sum(Bursts(jobs)) <= ready.Length
      requires queueIndex == |before.queue| + |Busy(s.sched)|
      requires ready != pcQueue
      modifies this, pcQueue, pc, ready
      ensures pcQueue == old(pcQueue)
      ensures AtTurn(t, ready, start, end, time)
      ensures InStep(Preemptive(true), table, jobs, t.sched, pc[..], before, Now(), count)
      ensures queueIndex == |before.queue| + |Busy(t.sched)|
    {
      EnqueueInTable(table, jobs, s, pc[..], ready[..readyEnd], now, pc.Length);
      end := EnqueueReadyQueue(pc, ready, readyEnd, now);
      start, time, count := readyStart, now, completed;
      if readyStart < end {
        var i := ready[readyStart];
        assert i == r.history[r.start];
        ServedFacts(jobs, slice, r, i);
        end, time, count := RrServe(pc, slice, ready, end, i, now, completed, table, jobs, before, r);
        start := readyStart + 1;
      } else {
        BusyAppend(s.sched, IDLE);
        InStepIdle(Preemptive(true), table, jobs, s.sched, pc[..], before, Now(), completed);
        time := now + 1;
      }
    }

    method Rr(pc: array<Process>, slice: nat) returns (ghost sched: seq<int>, ghost turns: nat)
      requires ValidJobs(Jobs(pc[..])) && queueIndex + Sum(Bursts(Jobs(pc[..]))) <= pcQueue.Length == MAX
      requires slice > 0
      modifies this, pcQueue, pc
      ensures pcQueue == old(pcQueue)
      ensures var table := old(pc[..]); var jobs := Jobs(table);
        && sched == RoundRobin.Run(jobs, slice, turns).sched && Complete(jobs, sched) && Trimmed(sched)
        && pc[..] == Records(Preemptive(true), table, jobs, sched)
        && AllFinal(Preemptive(true), table, sched, pc[..])
        && RoundRobinOrder.AllSliced(jobs, slice, sched)
        && Now() == After(old(Now()), jobs, sched)
    {
      ghost var table, before := pc[..], Now();
      ghost var jobs := Jobs(table);
      var now, completed := 0, 0;
      var ready := new int[MAX];
      var readyStart, readyEnd := 0, 0;
      turns := 0;
      ghost var s := RoundRobin.Initial(jobs);
      ResetRemaining(pc);
      SumNonNegative(Bursts(jobs));
      InStepStart(Preemptive(true), table, pc[..], before);
      CompletedMeansComplete(jobs, []);
      while completed < pc.Length
        invariant pcQueue == old(pcQueue) && queueIndex == |before.queue| + |Busy(s.sched)|
        invariant s == RoundRobin.Run(jobs, slice, turns) && AtTurn(s, ready, readyStart, readyEnd, now)
        invariant InStep(Preemptive(true), table, jobs, s.sched, pc[..], before, Now(), completed)
        invariant completed <= pc.Length && (completed == pc.Length <==> Complete(jobs, s.sched))
        invariant Complete(jobs, s.sched) ==> Trimmed(s.sched)
        decreases Remaining(jobs, s.sched)
      {
        ghost var next := RoundRobin.Step(jobs, slice, s);
        TurnReady(jobs, slice, s, turns);
        RrTurnFacts(jobs, slice, s, turns);
        readyStart, readyEnd, now, completed :=
          RrTurn(pc, slice, ready, readyStart, readyEnd, now, completed, table, jobs, before, s, RoundRobin.Offered(jobs, s), next);
        s, turns := next, turns + 1;
        CompletedMeansComplete(jobs, s.sched);
      }
      sched := s.sched;
      FinalRecords(Preemptive(true), table, jobs, sched);
      RoundRobinOrder.BlocksAreSlices(jobs, slice, turns, s);
    }

    // ---- shortest job first, first come first served ----------------------

    /** Runs process i to its end and adds it to the totals; SJF marks it done by clearing its burst. */
    method RunWhole(pc: array<Process>, i: nat, now: int, style: Style) returns (time: int)
      requires i < pc.Length && pc[i].burst >= 0 && queueIndex + pc[i].burst <= pcQueue.Length
      modifies this, pcQueue, pc
      ensures pcQueue == old(pcQueue) && queueIndex == old(queueIndex + pc[i].burst)
      ensures pc[..] == old(pc[..])[i := RanWhole(style, old(pc[i]), now)]
      ensures Now() == ChargedWhole(old(Now()), old(pc[i]), i, now)
      ensures time == now + old(pc[i].burst)
    {
      pc[i] := pc[i].(start := now);
      pc[i] := pc[i].(totalWait := now - pc[i].arrival);
      time := now + pc[i].burst;
      pc[i] := pc[i].(finalEnd := time);
      PushMany(i, pc[i].burst);
      busyTime := busyTime + pc[i].burst;
      if style.Sjf? {
        pc[i] := pc[i].(burst := 0);
      }
      waitTime := waitTime + pc[i].totalWait;
      turnaroundTime := turnaroundTime + pc[i].finalEnd - pc[i].arrival;
      responseTime := responseTime + pc[i].start - pc[i].arrival;
    }

    /** The ready process with the shortest burst; a burst of zero means done. */
    method FindShortestBurst(pc: array<Process>, now: nat) returns (best: int)
      requires forall i :: 0 <= i < pc.Length ==> pc[i].burst <= MAX
      ensures best == Shortest(Jobs(pc[..]), BurstFields(pc[..]), now, pc.Length)
    {
      best := -1;
      var minBurst := 1001;
      for i := 0 to pc.Length
        invariant best == Shortest(Jobs(pc[..]), BurstFields(pc[..]), now, i)
        invariant minBurst == if best == -1 then 1001 else pc[best].burst
      {
        if pc[i].arrival <= now && pc[i].burst > 0 {
          if pc[i].burst < minBurst {
            minBurst := pc[i].burst;
            best := i;
          }
        }
      }
    }

    /** One turn of the SJF loop: a whole burst, or one idle tick. */
    method SjfTurn(pc: array<Process>, now: nat, completed: int, ghost table: seq<Process>, ghost jobs: seq<Job>,
                   ghost before: Totals, ghost sched: seq<int>)
      returns (count: int, time: nat, ghost longer: seq<int>, ghost best: int)
      requires jobs == Jobs(table) && ValidJobs(jobs) && IsSchedule(jobs, sched) && now == |sched|
      requires InStep(Style.Sjf, table, jobs, sched, pc[..], before, Now(), completed)
      requires AllOrNothing(jobs, sched) && forall i :: 0 <= i < pc.Length ==> table[i].burst <= MAX
      requires |before.queue| + Sum(Bursts(jobs)) <= pcQueue.Length && queueIndex == |before.queue| + |Busy(sched)|
      modifies this, pcQueue, pc
      ensures pcQueue == old(pcQueue) && queueIndex == |before.queue| + |Busy(longer)|
      ensures best == Shortest(jobs, Left(jobs, sched, now), now, |jobs|)
      ensures longer == sched + Repeat(best, if best == IDLE then 1 else jobs[best].burst) && time == |longer|
      ensures InStep(Style.Sjf, table, jobs, longer, pc[..], before, Now(), count)
    {
      var min := FindShortestBurst(pc, now);
      ShortestBurstInTable(table, jobs, sched, pc[..], now, pc.Length);
      best := min;
      longer := sched + Repeat(best, if best == IDLE then 1 else jobs[best].burst);
      if min != -1 {
        ChartRoom(jobs, sched, min);
        BusyRun(sched, min, jobs[min].burst, longer);
        InStepWhole(Style.Sjf, table, jobs, sched, pc[..], before, Now(), completed, min, longer);
        time := RunWhole(pc, min, now, Style.Sjf);
        count := completed + 1;
      } else {
        assert Repeat(IDLE, 1) == [IDLE];
        BusyAppend(sched, IDLE);
        InStepIdle(Style.Sjf, table, jobs, sched, pc[..], before, Now(), completed);
        time, count := now + 1, completed;
      }
    }

    method Sjf(pc: array<Process>) returns (ghost sched: seq<int>)
      requires ValidJobs(Jobs(pc[..])) && queueIndex + Sum(Bursts(Jobs(pc[..]))) <= pcQueue.Length == MAX
      modifies this, pcQueue, pc
      ensures pcQueue == old(pcQueue)
      ensures var table := old(pc[..]); var jobs := Jobs(table);
        && FollowsSjf(jobs, sched) && Complete(jobs, sched) && Trimmed(sched)
        && pc[..] == Records(Style.Sjf, table, jobs, sched)
        && AllFinal(Style.Sjf, table, sched, pc[..])
        && Now() == After(old(Now()), jobs, sched)
    {
      ghost var table, before := pc[..], Now();
      ghost var jobs := Jobs(table);
      var now, completed := 0, 0;
      sched := [];
      SumNonNegative(Bursts(jobs));
      BurstsFit(table, jobs);
      InStepStart(Style.Sjf, table, pc[..], before);
      CompletedMeansComplete(jobs, sched);
      while completed < pc.Length
        invariant pcQueue == old(pcQueue) && queueIndex == |before.queue| + |Busy(sched)|
        invariant now == |sched| && Grown(Algorithm.Sjf, jobs, sched) && AllOrNothing(jobs, sched)
        invariant InStep(Style.Sjf, table, jobs, sched, pc[..], before, Now(), completed)
        invariant completed <= pc.Length && (completed == pc.Length <==> Complete(jobs, sched))
        invariant Complete(jobs, sched) ==> Trimmed(sched)
        decreases Remaining(jobs, sched)
      {
        ghost var best, longer;
        GrownMeans(Algorithm.Sjf, jobs, sched);
        completed, now, longer, best := SjfTurn(pc, now, completed, table, jobs, before, sched);
        SjfTurnFacts(jobs, sched, best, if best == IDLE then 1 else jobs[best].burst, longer);
        CompletedMeansComplete(jobs, longer);
        sched := longer;
      }
      GrownMeans(Algorithm.Sjf, jobs, sched);
      FinalRecords(Style.Sjf, table, jobs, sched);
    }

    /** One turn of the FCFS loop: wait for process i to arrive, then run it to its end. */
    method FcfsTurn(pc: array<Process>, i: nat, now: nat, ghost table: seq<Process>, ghost jobs: seq<Job>,
                    ghost before: Totals, ghost sched: seq<int>)
      returns (time: nat, ghost longer: seq<int>)
      requires jobs == Jobs(table) && ValidJobs(jobs) && Grown(Algorithm.Fcfs, jobs, sched) && now == |sched|
      requires i < pc.Length && InStep(Style.Fcfs, table, jobs, sched, pc[..], before, Now(), i)
      requires DoneUpTo(jobs, sched, i)
      requires |before.queue| + Sum(Bursts(jobs)) <= pcQueue.Length && queueIndex == |before.queue| + |Busy(sched)|
      modifies this, pcQueue, pc
      ensures pcQueue == old(pcQueue) && queueIndex == |before.queue| + |Busy(longer)|
      ensures Grown(Algorithm.Fcfs, jobs, longer) && DoneUpTo(jobs, longer, i + 1) && Trimmed(longer)
      ensures time == |longer| && InStep(Style.Fcfs, table, jobs, longer, pc[..], before, Now(), i + 1)
    {
      var start := now;
      if pc[i].arrival > start {
        start := pc[i].arrival;
      }
      ghost var waited := sched + Repeat(IDLE, start - now);
      longer := waited + Repeat(i, jobs[i].burst);
      FcfsTurnFacts(table, jobs, sched, pc[..], before, Now(), i, start, waited, longer);
      FcfsTurnRecords(table, jobs, waited, pc[..], before, Now(), i, start, longer,
                      pc[..][i := RanWhole(Style.Fcfs, pc[i], start)], ChargedWhole(Now(), pc[i], i, start));
      time := RunWhole(pc, i, start, Style.Fcfs);
    }

    method Fcfs(pc: array<Process>) returns (ghost sched: seq<int>)
      requires ValidJobs(Jobs(pc[..])) && queueIndex + Sum(Bursts(Jobs(pc[..]))) <= pcQueue.Length
      modifies this, pcQueue, pc
      ensures pcQueue == old(pcQueue)
      ensures var table := old(pc[..]); var jobs := Jobs(table);
        && FollowsFcfs(jobs, sched) && Complete(jobs, sched) && Trimmed(sched)
        && pc[..] == Records(Style.Fcfs, table, jobs, sched)
        && AllFinal(Style.Fcfs, table, sched, pc[..])
        && Now() == After(old(Now()), jobs, sched)
    {
      ghost var table, before := pc[..], Now();
      ghost var jobs := Jobs(table);
      var now := 0;
      sched := [];
      SumNonNegative(Bursts(jobs));
      InStepStart(Style.Fcfs, table, pc[..], before);
      for i := 0 to pc.Length
        invariant pcQueue == old(pcQueue) && queueIndex == |before.queue| + |Busy(sched)|
        invariant now == |sched| && Grown(Algorithm.Fcfs, jobs, sched) && DoneUpTo(jobs, sched, i) && Trimmed(sched)
        invariant InStep(Style.Fcfs, table, jobs, sched, pc[..], before, Now(), i)
      {
        now, sched := FcfsTurn(pc, i, now, table, jobs, before, sched);
      }
      GrownMeans(Algorithm.Fcfs, jobs, sched);
      FinalRecords(Style.Fcfs, table, jobs, sched);
    }

    /** The number of context switches the program derives from its chart. */
    method CountSwitches() returns (switchNum: int)
      requires queueIndex <= pcQueue.Length
      ensures switchNum == Switches(pcQueue[..queueIndex])
      ensures switchNum == 1 + |Changes(pcQueue[..queueIndex])|
    {
      switchNum := 1;
      for j := 0 to queueIndex
        invariant switchNum == Switches(pcQueue[..if j < queueIndex then j + 1 else queueIndex])
      {
        if j < queueIndex - 1 {
          assert pcQueue[..j + 2][..j + 1] == pcQueue[..j + 1];
          if pcQueue[j] != pcQueue[j + 1] {
            switchNum := switchNum + 1;
          }
        }
      }
      SwitchesAreChanges(pcQueue[..queueIndex]);
    }
  }
}
