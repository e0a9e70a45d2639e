/**
 * The simulator's process records and running totals, as functions of the
 * schedule so far.  What the loops do to a record when a process is dispatched,
 * and to the totals when one finishes, gives the records and totals of the
 * schedule that is one tick or one turn longer.
 */
module ProcessTable {
  import opened Schedules
  import opened ScheduleAccounts
  import opened ScheduleTallies

  datatype Process = Process(pid: int, arrival: int, burst: int, remaining: int,
                             start: int, totalWait: int, end: int, finalEnd: int)

  /** The chart and the four totals. */
  datatype Totals = Totals(queue: seq<int>, turnaround: int, wait: int, response: int, busy: int)

  function Jobs(pc: seq<Process>): seq<Job> {
    seq(|pc|, i requires 0 <= i < |pc| => Job(pc[i].arrival, pc[i].burst))
  }

  function Remainings(pc: seq<Process>): seq<int> {
    seq(|pc|, i requires 0 <= i < |pc| => pc[i].remaining)
  }

  /** The totals after a schedule, starting from `s`. */
  function After(s: Totals, jobs: seq<Job>, sched: seq<int>): Totals {
    Totals(s.queue + Busy(sched),
           s.turnaround + Tally(Turnaround, jobs, sched),
           s.wait + Tally(Waiting, jobs, sched),
           s.response + Tally(Response, jobs, sched),
           s.busy + Tally(Work, jobs, sched))
  }

  /** The totals once job i, now finished, has been accounted for. */
  function Accounted(s: Totals, jobs: seq<Job>, sched: seq<int>, i: int): Totals
    requires 0 <= i < |jobs|
  {
    s.(turnaround := s.turnaround + Value(Turnaround, jobs, sched, i),
       wait := s.wait + Value(Waiting, jobs, sched, i),
       response := s.response + Value(Response, jobs, sched, i),
       busy := s.busy + Value(Work, jobs, sched, i))
  }

  /** Running a job for e ticks extends the chart; finishing it accounts for it. */
  lemma AfterRun(s: Totals, jobs: seq<Job>, sched: seq<int>, i: nat, e: nat, longer: seq<int>)
    requires ValidJobs(jobs) && IsSchedule(jobs, sched) && i < |jobs| && jobs[i].arrival <= |sched|
    requires 0 < e <= Left(jobs, sched, |sched|)[i] && longer == sched + Repeat(i, e)
    ensures var t := After(s, jobs, sched).(queue := s.queue + Busy(sched) + Repeat(i, e));
      After(s, jobs, longer) == if Left(jobs, sched, |sched|)[i] == e then Accounted(t, jobs, longer, i) else t
    ensures Tally(Completed, jobs, longer)
         == Tally(Completed, jobs, sched) + if Left(jobs, sched, |sched|)[i] == e then 1 else 0
  {
    RunExtends(jobs, sched, i, e, longer);
    BusyRun(sched, i, e, longer);
    assert s.queue + Busy(sched) + Repeat(i, e) == s.queue + (Busy(sched) + Repeat(i, e));
    TallyRun(Turnaround, jobs, sched, i, e, longer);
    TallyRun(Waiting, jobs, sched, i, e, longer);
    TallyRun(Response, jobs, sched, i, e, longer);
    TallyRun(Work, jobs, sched, i, e, longer);
    TallyRun(Completed, jobs, sched, i, e, longer);
  }

  lemma {:induction false} BusyRun(sched: seq<int>, i: nat, e: nat, longer: seq<int>)
    requires longer == sched + Repeat(i, e)
    ensures Busy(longer) == Busy(sched) + Repeat(i, e)
    decreases e
  {
    if e == 0 {
      assert longer == sched;
    } else {
      var shorter := longer[..|longer| - 1];
      BusyRun(sched, i, e - 1, shorter);
      assert longer == shorter + [i];
      BusyAppend(shorter, i);
      assert Repeat(i, e) == Repeat(i, e - 1) + [i];
    }
  }

  /** Idling changes nothing but the time. */
  lemma AfterIdle(s: Totals, jobs: seq<Job>, sched: seq<int>)
    requires ValidJobs(jobs) && IsSchedule(jobs, sched)
    ensures After(s, jobs, sched + [IDLE]) == After(s, jobs, sched)
    ensures Tally(Completed, jobs, sched + [IDLE]) == Tally(Completed, jobs, sched)
  {
    BusyAppend(sched, IDLE);
    assert Busy(sched) + [] == Busy(sched);
    TallyTick(Turnaround, jobs, sched, IDLE);
    TallyTick(Waiting, jobs, sched, IDLE);
    TallyTick(Response, jobs, sched, IDLE);
    TallyTick(Work, jobs, sched, IDLE);
    TallyTick(Completed, jobs, sched, IDLE);
  }

  // ---- one record ---------------------------------------------------------

  datatype Style = Preemptive(keepsEnd: bool) | Sjf | Fcfs

  /** What a record holds after a schedule, if it was `p` to begin with. */
  function Record(style: Style, p: Process, jobs: seq<Job>, sched: seq<int>, i: int): Process
    requires 0 <= i < |jobs|
  {
    var left := Left(jobs, sched, |sched|)[i];
    var started := left < jobs[i].burst;
    var done := left == 0;
    p.(remaining := if style.Preemptive? then left else p.remaining,
       burst := if style.Sjf? && done then 0 else p.burst,
       start := if started then Start(sched, i) else p.start,
       end := if style.Preemptive? && style.keepsEnd && started then Finish(sched, i) else p.end,
       totalWait := if done then Value(Waiting, jobs, sched, i) else p.totalWait,
       finalEnd := if done then Finish(sched, i) else p.finalEnd)
  }

  function Records(style: Style, pc: seq<Process>, jobs: seq<Job>, sched: seq<int>): seq<Process>
    requires |pc| == |jobs|
  {
    seq(|pc|, i requires 0 <= i < |pc| => Record(style, pc[i], jobs, sched, i))
  }

  /** What the record of a process holds when all are done. */
  ghost predicate Final(style: Style, p: Process, sched: seq<int>, i: int, q: Process) {
    && q.pid == p.pid && q.arrival == p.arrival
    && q.start == Start(sched, i) && q.finalEnd == Finish(sched, i)
    && q.totalWait == Finish(sched, i) - p.arrival - p.burst
    && match style
       case Preemptive(keepsEnd) =>
         q.remaining == 0 && q.burst == p.burst && q.end == if keepsEnd then Finish(sched, i) else p.end
       case Sjf => q.burst == 0 && q.remaining == p.remaining && q.end == p.end
       case Fcfs => q.burst == p.burst && q.remaining == p.remaining && q.end == p.end
  }

  ghost predicate AllFinal(style: Style, table: seq<Process>, sched: seq<int>, pc: seq<Process>) {
    |pc| == |table| && forall i :: 0 <= i < |pc| ==> Final(style, table[i], sched, i, pc[i])
  }

  /** After a complete schedule every record holds its first start, its last end and its wait. */
  lemma FinalRecords(style: Style, table: seq<Process>, jobs: seq<Job>, sched: seq<int>)
    requires jobs == Jobs(table) && ValidJobs(jobs) && Complete(jobs, sched)
    ensures AllFinal(style, table, sched, Records(style, table, jobs, sched))
  {
    forall i | 0 <= i < |table|
      ensures Final(style, table[i], sched, i, Record(style, table[i], jobs, sched, i))
    {
      assert jobs[i].burst >= 1;
    }
  }

  /** A record does not change while its job does not run. */
  lemma {:induction false} RecordStays(style: Style, p: Process, jobs: seq<Job>, sched: seq<int>, i: int, e: nat, j: nat)
    requires ValidJobs(jobs) && IsSchedule(jobs, sched) && j < |jobs| && i != j
    ensures Record(style, p, jobs, sched + Repeat(i, e), j) == Record(style, p, jobs, sched, j)
    decreases e
  {
    OtherStays(jobs, sched, i, e, j);
    StartedIfRan(jobs, sched, |sched|, j);
  }

  lemma {:induction false} OtherStays(jobs: seq<Job>, sched: seq<int>, i: int, e: nat, j: nat)
    requires j < |jobs| && i != j
    ensures var longer := sched + Repeat(i, e);
      && Left(jobs, longer, |longer|)[j] == Left(jobs, sched, |sched|)[j]
      && Finish(longer, j) == Finish(sched, j)
      && Start(longer, j) == if Start(sched, j) < |sched| then Start(sched, j) else |longer|
    decreases e
  {
    if e == 0 {
      assert sched + Repeat(i, e) == sched;
    } else {
      var shorter := sched + Repeat(i, e - 1);
      assert sched + Repeat(i, e) == shorter + [i];
      OtherStays(jobs, sched, i, e - 1, j);
      LeftTick(jobs, shorter, i);
      FinishTick(jobs, shorter, i, j);
      StartTick(shorter, i, j);
    }
  }

  /** The start and finish of a job that has just run for e ticks. */
  lemma {:induction false} RunTimes(jobs: seq<Job>, sched: seq<int>, i: nat, e: nat)
    requires ValidJobs(jobs) && IsSchedule(jobs, sched) && i < |jobs| && e > 0
    ensures var longer := sched + Repeat(i, e);
      && Finish(longer, i) == |sched| + e
      && Start(longer, i) == if Left(jobs, sched, |sched|)[i] < jobs[i].burst then Start(sched, i) else |sched|
    decreases e
  {
    var shorter := sched + Repeat(i, e - 1);
    assert sched + Repeat(i, e) == shorter + [i];
    FinishTick(jobs, shorter, i, i);
    StartTick(shorter, i, i);
    if e == 1 {
      assert shorter == sched;
      StartedIfRan(jobs, sched, |sched|, i);
      LeftBound(jobs, sched, |sched|, i);
    } else {
      RunTimes(jobs, sched, i, e - 1);
    }
  }

  // ---- one dispatch -------------------------------------------------------

  /** A record after its process has run for e ticks from `now`. */
  function Dispatched(keepsEnd: bool, p: Process, now: int, e: int): Process {
    var q := p.(start := if p.remaining == p.burst then now else p.start,
                remaining := p.remaining - e,
                end := if keepsEnd then now + e else p.end);
    if q.remaining == 0 then q.(finalEnd := now + e, totalWait := now + e - p.arrival - p.burst) else q
  }

  /** The chart and totals after process i, with record p, has run for e ticks from `now`. */
  function Charged(t: Totals, p: Process, i: int, now: int, e: nat): Totals {
    var u := t.(queue := t.queue + Repeat(i, e));
    var q := Dispatched(false, p, now, e);
    if q.remaining == 0 then
      u.(turnaround := u.turnaround + q.finalEnd - q.arrival, wait := u.wait + q.totalWait,
         response := u.response + q.start - q.arrival, busy := u.busy + q.burst)
    else u
  }

  lemma RecordDispatched(keepsEnd: bool, p: Process, jobs: seq<Job>, sched: seq<int>, i: nat, e: nat, longer: seq<int>)
    requires ValidJobs(jobs) && IsSchedule(jobs, sched) && i < |jobs| && jobs[i] == Job(p.arrival, p.burst)
    requires Ready(jobs, Left(jobs, sched, |sched|), |sched|, i) && 0 < e <= Left(jobs, sched, |sched|)[i]
    requires longer == sched + Repeat(i, e)
    ensures Record(Preemptive(keepsEnd), p, jobs, longer, i)
         == Dispatched(keepsEnd, Record(Preemptive(keepsEnd), p, jobs, sched, i), |sched|, e)
  {
    LeftBound(jobs, sched, |sched|, i);
    RunExtends(jobs, sched, i, e, longer);
    RunTimes(jobs, sched, i, e);
  }

  /** What one dispatch does to the table is what the longer schedule says. */
  lemma DispatchAgrees(keepsEnd: bool, table: seq<Process>, jobs: seq<Job>, sched: seq<int>, i: nat, e: nat,
                       longer: seq<int>)
    requires jobs == Jobs(table) && ValidJobs(jobs) && IsSchedule(jobs, sched) && i < |jobs|
    requires Ready(jobs, Left(jobs, sched, |sched|), |sched|, i) && 0 < e <= Left(jobs, sched, |sched|)[i]
    requires longer == sched + Repeat(i, e)
    ensures var pc := Records(Preemptive(keepsEnd), table, jobs, sched);
      Records(Preemptive(keepsEnd), table, jobs, longer) == pc[i := Dispatched(keepsEnd, pc[i], |sched|, e)]
  {
    var pc, next := Records(Preemptive(keepsEnd), table, jobs, sched), Records(Preemptive(keepsEnd), table, jobs, longer);
    RecordDispatched(keepsEnd, table[i], jobs, sched, i, e, longer);
    forall j | 0 <= j < |jobs| && j != i
      ensures next[j] == pc[j]
    {
      RecordStays(Preemptive(keepsEnd), table[j], jobs, sched, i, e, j);
    }
  }

  /** What one dispatch does to the totals is what the longer schedule says. */
  lemma ChargeAgrees(before: Totals, jobs: seq<Job>, sched: seq<int>, i: nat, e: nat, longer: seq<int>, p: Process)
    requires ValidJobs(jobs) && IsSchedule(jobs, sched) && i < |jobs|
    requires Ready(jobs, Left(jobs, sched, |sched|), |sched|, i) && 0 < e <= Left(jobs, sched, |sched|)[i]
    requires p.arrival == jobs[i].arrival && p.burst == jobs[i].burst && p.remaining == Left(jobs, sched, |sched|)[i]
    requires p.remaining < p.burst ==> p.start == Start(sched, i)
    requires longer == sched + Repeat(i, e)
    ensures After(before, jobs, longer) == Charged(After(before, jobs, sched), p, i, |sched|, e)
  {
    LeftBound(jobs, sched, |sched|, i);
    AfterRun(before, jobs, sched, i, e, longer);
    if p.remaining == e {
      ValuesAtFinish(jobs, sched, i, e, longer);
    }
  }

  lemma ValuesAtFinish(jobs: seq<Job>, sched: seq<int>, i: nat, e: nat, longer: seq<int>)
    requires ValidJobs(jobs) && IsSchedule(jobs, sched) && i < |jobs| && e > 0 && longer == sched + Repeat(i, e)
    ensures Value(Turnaround, jobs, longer, i) == |sched| + e - jobs[i].arrival
    ensures Value(Waiting, jobs, longer, i) == |sched| + e - jobs[i].arrival - jobs[i].burst
    ensures Value(Response, jobs, longer, i)
         == (if Left(jobs, sched, |sched|)[i] < jobs[i].burst then Start(sched, i) else |sched|) - jobs[i].arrival
  {
    RunTimes(jobs, sched, i, e);
  }

  // ---- one uninterrupted run ----------------------------------------------

  /** A record after its process has run its whole burst from `now`. */
  function RanWhole(style: Style, p: Process, now: int): Process {
    p.(start := now, totalWait := now - p.arrival, finalEnd := now + p.burst,
       burst := if style.Sjf? then 0 else p.burst)
  }

  function ChargedWhole(t: Totals, p: Process, i: int, now: int): Totals
    requires p.burst >= 0
  {
    Totals(t.queue + Repeat(i, p.burst), t.turnaround + now + p.burst - p.arrival, t.wait + now - p.arrival,
           t.response + now - p.arrival, t.busy + p.burst)
  }

  lemma WholeAgrees(style: Style, table: seq<Process>, jobs: seq<Job>, sched: seq<int>, i: nat, longer: seq<int>)
    requires jobs == Jobs(table) && ValidJobs(jobs) && IsSchedule(jobs, sched) && i < |jobs| && !style.Preemptive?
    requires jobs[i].arrival <= |sched| && Left(jobs, sched, |sched|)[i] == jobs[i].burst
    requires longer == sched + Repeat(i, jobs[i].burst)
    ensures var pc := Records(style, table, jobs, sched);
      Records(style, table, jobs, longer) == pc[i := RanWhole(style, pc[i], |sched|)]
  {
    var pc, next := Records(style, table, jobs, sched), Records(style, table, jobs, longer);
    RunExtends(jobs, sched, i, jobs[i].burst, longer);
    RunTimes(jobs, sched, i, jobs[i].burst);
    assert next[i] == RanWhole(style, pc[i], |sched|);
    forall j | 0 <= j < |jobs| && j != i
      ensures next[j] == pc[j]
    {
      RecordStays(style, table[j], jobs, sched, i, jobs[i].burst, j);
    }
  }

  lemma WholeCharged(before: Totals, jobs: seq<Job>, sched: seq<int>, i: nat, longer: seq<int>, p: Process)
    requires ValidJobs(jobs) && IsSchedule(jobs, sched) && i < |jobs|
    requires jobs[i].arrival <= |sched| && Left(jobs, sched, |sched|)[i] == jobs[i].burst
    requires p.arrival == jobs[i].arrival && p.burst == jobs[i].burst
    requires longer == sched + Repeat(i, p.burst)
    ensures After(before, jobs, longer) == ChargedWhole(After(before, jobs, sched), p, i, |sched|)
    ensures Tally(Completed, jobs, longer) == Tally(Completed, jobs, sched) + 1
  {
    AfterRun(before, jobs, sched, i, p.burst, longer);
    ValuesAtFinish(jobs, sched, i, p.burst, longer);
  }
}
