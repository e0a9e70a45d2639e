/**
 * Walking a process tree without a stack: the loop keeps three task pointers
 * and finds its way back up through parent and leader links.
 */
module ProcessTree {
  import opened Sets

  type Task = nat

  /**
   * The links the walk follows.  `threads` lists the threads of a group under
   * its leader; `children` lists the processes a thread has created, each under
   * its group leader.
   */
  datatype Tasks = Tasks(threads: map<Task, seq<Task>>, children: map<Task, seq<Task>>,
                         realParent: map<Task, Task>, groupLeader: map<Task, Task>)

  /** A thread is in its leader's list and its children know it. */
  predicate ThreadOk(k: Tasks, l: Task, t: Task) {
    && t in k.groupLeader && k.groupLeader[t] == l
    && t in k.children && NoRepeats(k.children[t])
  }

  predicate ChildOk(k: Tasks, rank: map<Task, nat>, l: Task, t: Task, c: Task) {
    && c in k.realParent && k.realParent[c] == t
    && c in k.threads && c in rank && l in rank && rank[c] < rank[l]
  }

  /** What linking a new task at the tail of its parent's or its leader's list keeps; ranks say there is no cycle. */
  ghost predicate WellFormed(k: Tasks, rank: map<Task, nat>) {
    forall l {:trigger GroupOk(k, rank, l)} :: l in k.threads ==> GroupOk(k, rank, l)
  }

  ghost predicate GroupOk(k: Tasks, rank: map<Task, nat>, l: Task)
    requires l in k.threads
  {
    && l in rank
    && NoRepeats(k.threads[l])
    && (forall i :: 0 <= i < |k.threads[l]| ==> ThreadOk(k, l, k.threads[l][i]))
    && (forall i, j :: 0 <= i < |k.threads[l]| && 0 <= j < |Children(k, l, i)| ==>
          ChildOk(k, rank, l, k.threads[l][i], Children(k, l, i)[j]))
  }

  /** The children of the i-th thread of a group. */
  function Children(k: Tasks, l: Task, i: nat): seq<Task>
    requires l in k.threads && i < |k.threads[l]|
  {
    var t := k.threads[l][i];
    if t in k.children then k.children[t] else []
  }

  // ---- the recursive walk -------------------------------------------------

  /** The tasks visited so far, in order, and whether the visitor stopped the walk. */
  datatype Outcome = Outcome(log: seq<Task>, stopped: bool)

  /** A place in a group: child j of thread i, or the end of the group. */
  ghost predicate Place(k: Tasks, l: Task, i: nat, j: nat) {
    l in k.threads && i <= |k.threads[l]| && j <= if i < |k.threads[l]| then |Children(k, l, i)| else 0
  }

  /**
   * The preorder walk of the rest of a group from the given place on.  The
   * visitor sees everything visited so far, the current task last: a negative
   * answer stops the walk, zero skips the task's own group, positive enters it.
   */
  ghost function Walk(k: Tasks, rank: map<Task, nat>, visitor: seq<Task> -> int, l: Task, i: nat, j: nat, log: seq<Task>)
    : (o: Outcome)
    requires WellFormed(k, rank) && Place(k, l, i, j)
    decreases rank[l], |k.threads[l]| - i, (if i < |k.threads[l]| then |Children(k, l, i)| else 0) - j
  {
    assert GroupOk(k, rank, l);
    if i == |k.threads[l]| then Outcome(log, false)
    else if j == |Children(k, l, i)| then Walk(k, rank, visitor, l, i + 1, 0, log)
    else
      var c := Children(k, l, i)[j];
      assert ChildOk(k, rank, l, k.threads[l][i], c);
      var seen := log + [c];
      var res := visitor(seen);
      if res < 0 then Outcome(seen, true)
      else
        var o := if res > 0 then Walk(k, rank, visitor, c, 0, 0, seen) else Outcome(seen, false);
        if o.stopped then o else Walk(k, rank, visitor, l, i, j + 1, o.log)
  }

  /** The walk of a whole group. */
  ghost function Preorder(k: Tasks, rank: map<Task, nat>, visitor: seq<Task> -> int, top: Task): seq<Task>
    requires WellFormed(k, rank) && top in k.threads
  {
    Walk(k, rank, visitor, top, 0, 0, []).log
  }

  /** The outcome extends the log; it is stopped exactly if its last answer, and no earlier one, was negative. */
  ghost predicate StopsAtNegative(visitor: seq<Task> -> int, log: seq<Task>, o: Outcome) {
    && log <= o.log
    && (o.stopped ==> |log| < |o.log| && visitor(o.log) < 0)
    && forall n :: |log| < n <= |o.log| && (n < |o.log| || !o.stopped) ==> visitor(o.log[..n]) >= 0
  }

  lemma OneVisit(visitor: seq<Task> -> int, log: seq<Task>, c: Task)
    ensures StopsAtNegative(visitor, log, Outcome(log + [c], visitor(log + [c]) < 0))
  {
    assert (log + [c])[..|log| + 1] == log + [c];
  }

  lemma ThenMore(visitor: seq<Task> -> int, log: seq<Task>, o: Outcome, p: Outcome)
    requires StopsAtNegative(visitor, log, o) && !o.stopped && StopsAtNegative(visitor, o.log, p)
    ensures StopsAtNegative(visitor, log, p)
  {
    forall n | |log| < n <= |p.log| && (n < |p.log| || !p.stopped)
      ensures visitor(p.log[..n]) >= 0
    {
      if n <= |o.log| {
        assert p.log[..n] == o.log[..n];
      }
    }
  }

  /** The walk stops exactly at the first negative answer. */
  lemma {:induction false} WalkStopsAtNegative(k: Tasks, rank: map<Task, nat>, visitor: seq<Task> -> int,
                                               l: Task, i: nat, j: nat, log: seq<Task>)
    requires WellFormed(k, rank) && Place(k, l, i, j)
    ensures StopsAtNegative(visitor, log, Walk(k, rank, visitor, l, i, j, log))
    decreases if l in rank then rank[l] else 0, |k.threads[l]| - i, (if i < |k.threads[l]| then |Children(k, l, i)| else 0) - j
  {
    assert GroupOk(k, rank, l);
    if i == |k.threads[l]| {
    } else if j == |Children(k, l, i)| {
      WalkStopsAtNegative(k, rank, visitor, l, i + 1, 0, log);
    } else {
      var c := Children(k, l, i)[j];
      assert ChildOk(k, rank, l, k.threads[l][i], c);
      var seen := log + [c];
      OneVisit(visitor, log, c);
      if visitor(seen) >= 0 {
        var o := Outcome(seen, false);
        if visitor(seen) > 0 {
          o := Walk(k, rank, visitor, c, 0, 0, seen);
          WalkStopsAtNegative(k, rank, visitor, c, 0, 0, seen);
          ThenMore(visitor, log, Outcome(seen, false), o);
        }
        if !o.stopped {
          WalkStopsAtNegative(k, rank, visitor, l, i, j + 1, o.log);
          ThenMore(visitor, log, o, Walk(k, rank, visitor, l, i, j + 1, o.log));
        }
      }
    }
  }

  // ---- the way back up ----------------------------------------------------

  /** A group that has been left for one of its children: child j of thread i. */
  datatype Frame = Frame(l: Task, i: nat, j: nat)

  ghost predicate FrameOk(k: Tasks, f: Frame, below: Task) {
    Place(k, f.l, f.i, f.j) && f.i < |k.threads[f.l]| && f.j < |Children(k, f.l, f.i)| && Children(k, f.l, f.i)[f.j] == below
  }

  /** The groups between `top` and `l`, outermost first. */
  ghost predicate PathTo(k: Tasks, path: seq<Frame>, top: Task, l: Task) {
    if path == [] then l == top
    else
      var f := path[|path| - 1];
      FrameOk(k, f, l) && PathTo(k, path[..|path| - 1], top, f.l)
  }

  /** What is still to come when the current group has been walked with the given outcome. */
  ghost function Resume(k: Tasks, rank: map<Task, nat>, visitor: seq<Task> -> int, path: seq<Frame>, o: Outcome,
                        top: Task, l: Task): seq<Task>
    requires WellFormed(k, rank) && PathTo(k, path, top, l)
    decreases |path|
  {
    if o.stopped || path == [] then o.log
    else
      var f := path[|path| - 1];
      Resume(k, rank, visitor, path[..|path| - 1], Walk(k, rank, visitor, f.l, f.i, f.j + 1, o.log), top, f.l)
  }

  /** The parent and leader links of a task lead to the frame it was entered from. */
  lemma LinksLeadBack(k: Tasks, rank: map<Task, nat>, f: Frame, below: Task)
    requires WellFormed(k, rank) && FrameOk(k, f, below)
    ensures below in k.realParent && k.realParent[below] == k.threads[f.l][f.i]
    ensures k.realParent[below] in k.groupLeader && k.groupLeader[k.realParent[below]] == f.l
    ensures below in k.threads && below in rank && f.l in rank && rank[below] < rank[f.l]
  {
    assert GroupOk(k, rank, f.l);
    assert ThreadOk(k, f.l, k.threads[f.l][f.i]);
    assert ChildOk(k, rank, f.l, k.threads[f.l][f.i], Children(k, f.l, f.i)[f.j]);
  }

  /** The walk is back at the top exactly when no group is waiting to be resumed. */
  lemma {:induction false} TopIffNoPath(k: Tasks, rank: map<Task, nat>, path: seq<Frame>, top: Task, l: Task)
    requires WellFormed(k, rank) && PathTo(k, path, top, l) && top in k.threads
    ensures l in k.threads && l in rank && top in rank
    ensures if path == [] then l == top else rank[l] < rank[top]
  {
    assert GroupOk(k, rank, top);
    if path != [] {
      var f := path[|path| - 1];
      TopIffNoPath(k, rank, path[..|path| - 1], top, f.l);
      LinksLeadBack(k, rank, f, l);
    }
  }

  // ---- what is visited, and in which order --------------------------------

  /** A child of a thread of l's group. */
  ghost predicate IsChild(k: Tasks, f: Frame) {
    f.l in k.threads && f.i < |k.threads[f.l]| && f.j < |Children(k, f.l, f.i)|
  }

  function ChildAt(k: Tasks, f: Frame): Task
    requires f.l in k.threads && f.i < |k.threads[f.l]| && f.j < |Children(k, f.l, f.i)|
  {
    Children(k, f.l, f.i)[f.j]
  }

  /** Of two children in a group, the first in list order. */
  predicate ComesFirst(f: Frame, g: Frame) {
    f.l == g.l && (f.i < g.i || (f.i == g.i && f.j < g.j))
  }

  predicate PartAt(p: seq<Frame>, q: seq<Frame>, d: nat) {
    d <= |p| && d < |q| && p[..d] == q[..d] && (d == |p| || ComesFirst(p[d], q[d]))
  }

  /** The end of p is above that of q, or where they part p takes the first child. */
  ghost predicate Earlier(p: seq<Frame>, q: seq<Frame>) {
    exists d: nat :: PartAt(p, q, d)
  }

  lemma NotBoth(p: seq<Frame>, q: seq<Frame>)
    requires Earlier(p, q)
    ensures !Earlier(q, p)
    ensures p != q
  {
    var d: nat :| PartAt(p, q, d);
    forall e: nat
      ensures !PartAt(q, p, e)
    {
      PartsOnce(p, q, d, e);
    }
  }

  lemma PartsOnce(p: seq<Frame>, q: seq<Frame>, d: nat, e: nat)
    requires PartAt(p, q, d)
    ensures !PartAt(q, p, e)
  {
    AgreeAt(p, q, d, e);
    AgreeAt(p, q, e, d);
  }

  lemma AgreeAt(p: seq<Frame>, q: seq<Frame>, d: nat, e: nat)
    ensures e < d <= |p| && d <= |q| && p[..d] == q[..d] ==> p[e] == q[e]
  {
    assert e < d <= |p| && d <= |q| ==> p[..d][e] == p[e] && q[..d][e] == q[e];
  }

  /** Visit number m was entered by the visitor, and its path is a. */
  predicate EnteredAt(visitor: seq<Task> -> int, log: seq<Task>, n0: nat, ps: seq<seq<Frame>>, m: nat, a: seq<Frame>) {
    m < |ps| && n0 + m < |log| && ps[m] == a && visitor(log[..n0 + m + 1]) > 0
  }

  /** Visit number m is at the end of its path, which goes on from `base` or from an earlier visit that was entered. */
  ghost predicate Reached(k: Tasks, visitor: seq<Task> -> int, top: Task, base: seq<Frame>, log: seq<Task>, n0: nat,
                          ps: seq<seq<Frame>>, m: nat)
    requires m < |ps| && n0 + |ps| == |log|
  {
    && ps[m] != [] && PathTo(k, ps[m], top, log[n0 + m])
    && var a := ps[m][..|ps[m]| - 1]; a == base || exists q: nat :: q < m && EnteredAt(visitor, log, n0, ps, q, a)
  }

  /** What is due has been visited, or the walk has stopped before it. */
  ghost predicate Due(stopped: bool, ps: seq<seq<Frame>>, p: seq<Frame>) {
    p in ps || (stopped && ps != [] && Earlier(ps[|ps| - 1], p))
  }

  ghost predicate AllDue(k: Tasks, stopped: bool, ps: seq<seq<Frame>>, a: seq<Frame>, l: Task) {
    forall f: Frame :: f.l == l && IsChild(k, f) ==> Due(stopped, ps, a + [f])
  }

  /** From visit n0 on, in order, everything entered is walked. */
  ghost predicate Walked(k: Tasks, visitor: seq<Task> -> int, top: Task, base: seq<Frame>, o: Outcome, n0: nat,
                         ps: seq<seq<Frame>>) {
    && n0 + |ps| == |o.log|
    && (forall m: nat :: m < |ps| ==> Reached(k, visitor, top, base, o.log, n0, ps, m))
    && (forall m: nat, n: nat :: m < n < |ps| ==> Earlier(ps[m], ps[n]))
    && (forall m: nat :: m < |ps| && visitor(o.log[..n0 + m + 1]) > 0 ==> AllDue(k, o.stopped, ps, ps[m], o.log[n0 + m]))
  }

  predicate AtOrBehind(f: Frame, i: nat, j: nat) {
    i < f.i || (i == f.i && j <= f.j)
  }

  /** All visits are below `base`, through children of l from the place (i, j) on. */
  ghost predicate Below(base: seq<Frame>, l: Task, i: nat, j: nat, ps: seq<seq<Frame>>) {
    forall m: nat :: m < |ps| ==>
      |base| < |ps[m]| && ps[m][..|base|] == base && ps[m][|base|].l == l && AtOrBehind(ps[m][|base|], i, j)
  }

  ghost predicate RestDue(k: Tasks, stopped: bool, ps: seq<seq<Frame>>, base: seq<Frame>, l: Task, i: nat, j: nat) {
    forall f: Frame :: f.l == l && IsChild(k, f) && AtOrBehind(f, i, j) ==> Due(stopped, ps, base + [f])
  }

  lemma PathOn(k: Tasks, base: seq<Frame>, top: Task, f: Frame)
    requires PathTo(k, base, top, f.l) && IsChild(k, f)
    ensures PathTo(k, base + [f], top, ChildAt(k, f)) && (base + [f])[..|base|] == base
  {
    assert (base + [f])[..|base + [f]| - 1] == base;
  }

  /** Paths that go on from the same end of p. */
  lemma GoesOnEarlier(p: seq<Frame>, q: seq<Frame>)
    requires |p| < |q| && q[..|p|] == p
    ensures Earlier(p, q)
  {
    assert PartAt(p, q, |p|);
  }

  lemma PartsEarlier(base: seq<Frame>, p: seq<Frame>, q: seq<Frame>)
    requires |base| < |p| && |base| < |q| && p[..|base|] == base == q[..|base|] && ComesFirst(p[|base|], q[|base|])
    ensures Earlier(p, q)
  {
    assert PartAt(p, q, |base|);
  }

  /** All visits go on from the path p0, or are there. */
  ghost predicate Under(p0: seq<Frame>, ps: seq<seq<Frame>>) {
    forall m: nat :: m < |ps| ==> |p0| <= |ps[m]| && ps[m][..|p0|] == p0
  }

  /** A child that is entered, and the walk of its group. */
  lemma EnteredVisits(k: Tasks, visitor: seq<Task> -> int, top: Task, base: seq<Frame>, p0: seq<Frame>, c: Task, n0: nat,
                      o: Outcome, sub: seq<seq<Frame>>, ps: seq<seq<Frame>>)
    requires p0 != [] && p0[..|p0| - 1] == base && PathTo(k, p0, top, c) && ps == [p0] + sub
    requires n0 < |o.log| && o.log[n0] == c && visitor(o.log[..n0 + 1]) > 0
    requires Walked(k, visitor, top, p0, o, n0 + 1, sub) && Below(p0, c, 0, 0, sub) && AllDue(k, o.stopped, sub, p0, c)
    ensures Walked(k, visitor, top, base, o, n0, ps) && Under(p0, ps)
  {
    forall m: nat | m < |ps|
      ensures Reached(k, visitor, top, base, o.log, n0, ps, m)
    {
      if m > 0 {
        assert Reached(k, visitor, top, p0, o.log, n0 + 1, sub, m - 1);
        StillReached(k, visitor, top, p0, o.log, n0, sub, ps, base, m);
      }
    }
    FirstIsEarlier(p0, c, sub, ps);
    forall m: nat | m < |ps| && visitor(o.log[..n0 + m + 1]) > 0
      ensures AllDue(k, o.stopped, ps, ps[m], o.log[n0 + m])
    {
      if m > 0 {
        assert AllDue(k, o.stopped, sub, sub[m - 1], o.log[n0 + 1 + (m - 1)]);
      }
      StillDue(k, o.stopped, p0, sub, ps, ps[m], o.log[n0 + m]);
    }
  }

  lemma FirstIsEarlier(p0: seq<Frame>, c: Task, sub: seq<seq<Frame>>, ps: seq<seq<Frame>>)
    requires Below(p0, c, 0, 0, sub) && ps == [p0] + sub
    requires forall m: nat, n: nat :: m < n < |sub| ==> Earlier(sub[m], sub[n])
    ensures Under(p0, ps) && forall m: nat, n: nat :: m < n < |ps| ==> Earlier(ps[m], ps[n])
  {
    forall m: nat, n: nat | m < n < |ps|
      ensures Earlier(ps[m], ps[n])
    {
      if m == 0 {
        GoesOnEarlier(p0, ps[n]);
      } else {
        assert Earlier(sub[m - 1], sub[n - 1]);
      }
    }
  }

  /** What goes on from the child goes on from an entered visit. */
  lemma StillReached(k: Tasks, visitor: seq<Task> -> int, top: Task, p0: seq<Frame>, log: seq<Task>, n0: nat,
                     sub: seq<seq<Frame>>, ps: seq<seq<Frame>>, base: seq<Frame>, m: nat)
    requires n0 + |ps| == |log| && ps == [p0] + sub && 0 < m < |ps|
    requires Reached(k, visitor, top, p0, log, n0 + 1, sub, m - 1) && visitor(log[..n0 + 1]) > 0
    ensures Reached(k, visitor, top, base, log, n0, ps, m)
  {
    var a := ps[m][..|ps[m]| - 1];
    if a == p0 {
      assert EnteredAt(visitor, log, n0, ps, 0, a);
    } else {
      var q: nat :| q < m - 1 && EnteredAt(visitor, log, n0 + 1, sub, q, a);
      assert EnteredAt(visitor, log, n0, ps, q + 1, a);
    }
  }

  lemma StillDue(k: Tasks, stopped: bool, p0: seq<Frame>, sub: seq<seq<Frame>>, ps: seq<seq<Frame>>, a: seq<Frame>, l: Task)
    requires ps == [p0] + sub && AllDue(k, stopped, sub, a, l)
    ensures AllDue(k, stopped, ps, a, l)
  {
    forall f: Frame | f.l == l && IsChild(k, f)
      ensures Due(stopped, ps, a + [f])
    {
      assert Due(stopped, sub, a + [f]);
    }
  }

  /** A child's visits, and then those of what comes behind it. */
  lemma VisitsJoin(k: Tasks, visitor: seq<Task> -> int, top: Task, base: seq<Frame>, f: Frame, p0: seq<Frame>, n0: nat,
                   o1: Outcome, one: seq<seq<Frame>>, o: Outcome, rest: seq<seq<Frame>>, ps: seq<seq<Frame>>)
    requires p0 == base + [f] && ps == one + rest && !o1.stopped && o1.log <= o.log
    requires Walked(k, visitor, top, base, o1, n0, one) && Under(p0, one)
    requires Walked(k, visitor, top, base, o, |o1.log|, rest) && Below(base, f.l, f.i, f.j + 1, rest)
    ensures Walked(k, visitor, top, base, o, n0, ps)
  {
    forall m: nat | m < |ps|
      ensures Reached(k, visitor, top, base, o.log, n0, ps, m)
    {
      if m < |one| {
        ReachedBefore(k, visitor, top, base, o1.log, o.log, n0, one, ps, m);
      } else {
        ReachedBehind(k, visitor, top, base, o.log, n0, one, rest, ps, m);
      }
    }
    JoinEarlier(base, f, p0, one, rest, ps);
    forall m: nat | m < |ps| && visitor(o.log[..n0 + m + 1]) > 0
      ensures AllDue(k, o.stopped, ps, ps[m], o.log[n0 + m])
    {
      if m < |one| {
        assert o.log[..n0 + m + 1] == o1.log[..n0 + m + 1];
        DueBefore(k, o.stopped, one, rest, ps, ps[m], o.log[n0 + m]);
      } else {
        DueBehind(k, o.stopped, one, rest, ps, ps[m], o.log[n0 + m]);
      }
    }
  }

  lemma ReachedBefore(k: Tasks, visitor: seq<Task> -> int, top: Task, base: seq<Frame>, log: seq<Task>, longer: seq<Task>,
                      n0: nat, one: seq<seq<Frame>>, ps: seq<seq<Frame>>, m: nat)
    requires n0 + |one| == |log| && n0 + |ps| == |longer| && log <= longer && one <= ps && m < |one|
    requires Reached(k, visitor, top, base, log, n0, one, m)
    ensures Reached(k, visitor, top, base, longer, n0, ps, m)
  {
    var a := ps[m][..|ps[m]| - 1];
    if a != base {
      var q: nat :| q < m && EnteredAt(visitor, log, n0, one, q, a);
      assert longer[..n0 + q + 1] == log[..n0 + q + 1];
      assert EnteredAt(visitor, longer, n0, ps, q, a);
    }
  }

  lemma ReachedBehind(k: Tasks, visitor: seq<Task> -> int, top: Task, base: seq<Frame>, log: seq<Task>, n0: nat,
                      one: seq<seq<Frame>>, rest: seq<seq<Frame>>, ps: seq<seq<Frame>>, m: nat)
    requires ps == one + rest && |one| <= m < |ps| && n0 + |ps| == |log|
    requires Reached(k, visitor, top, base, log, n0 + |one|, rest, m - |one|)
    ensures Reached(k, visitor, top, base, log, n0, ps, m)
  {
    var a := ps[m][..|ps[m]| - 1];
    if a != base {
      var q: nat :| q < m - |one| && EnteredAt(visitor, log, n0 + |one|, rest, q, a);
      assert EnteredAt(visitor, log, n0, ps, q + |one|, a);
    }
  }

  lemma JoinEarlier(base: seq<Frame>, f: Frame, p0: seq<Frame>, one: seq<seq<Frame>>, rest: seq<seq<Frame>>,
                    ps: seq<seq<Frame>>)
    requires p0 == base + [f] && ps == one + rest && Under(p0, one) && Below(base, f.l, f.i, f.j + 1, rest)
    requires forall m: nat, n: nat :: m < n < |one| ==> Earlier(one[m], one[n])
    requires forall m: nat, n: nat :: m < n < |rest| ==> Earlier(rest[m], rest[n])
    ensures forall m: nat, n: nat :: m < n < |ps| ==> Earlier(ps[m], ps[n])
  {
    forall m: nat, n: nat | m < n < |ps|
      ensures Earlier(ps[m], ps[n])
    {
      if m < |one| <= n {
        UnderPart(base, f, p0, one[m]);
        PartsEarlier(base, one[m], rest[n - |one|]);
      } else if |one| <= m {
        assert Earlier(rest[m - |one|], rest[n - |one|]);
      }
    }
  }

  lemma UnderPart(base: seq<Frame>, f: Frame, p0: seq<Frame>, p: seq<Frame>)
    requires p0 == base + [f] && |p0| <= |p| && p[..|p0|] == p0
    ensures |base| < |p| && p[..|base|] == base && p[|base|] == f
  {
    assert p[..|p0|][..|base|] == p[..|base|] && p[..|p0|][|base|] == p[|base|];
  }

  lemma DueBefore(k: Tasks, stopped: bool, one: seq<seq<Frame>>, rest: seq<seq<Frame>>, ps: seq<seq<Frame>>, a: seq<Frame>,
                  l: Task)
    requires ps == one + rest && AllDue(k, false, one, a, l)
    ensures AllDue(k, stopped, ps, a, l)
  {
    forall f: Frame | f.l == l && IsChild(k, f)
      ensures Due(stopped, ps, a + [f])
    {
      assert Due(false, one, a + [f]);
    }
  }

  lemma DueBehind(k: Tasks, stopped: bool, one: seq<seq<Frame>>, rest: seq<seq<Frame>>, ps: seq<seq<Frame>>, a: seq<Frame>,
                  l: Task)
    requires ps == one + rest && AllDue(k, stopped, rest, a, l)
    ensures AllDue(k, stopped, ps, a, l)
  {
    forall f: Frame | f.l == l && IsChild(k, f)
      ensures Due(stopped, ps, a + [f])
    {
      assert Due(stopped, rest, a + [f]);
    }
  }

  /** What that leaves due in the group. */
  lemma RestDueJoin(k: Tasks, stopped: bool, base: seq<Frame>, f: Frame, p0: seq<Frame>, one: seq<seq<Frame>>,
                    rest: seq<seq<Frame>>, ps: seq<seq<Frame>>)
    requires p0 == base + [f] && ps == one + rest && Under(p0, one) && p0 in one
    requires RestDue(k, stopped, rest, base, f.l, f.i, f.j + 1) && Below(base, f.l, f.i, f.j + 1, rest)
    ensures RestDue(k, stopped, ps, base, f.l, f.i, f.j) && Below(base, f.l, f.i, f.j, ps)
  {
    forall m: nat | m < |one|
      ensures |base| < |ps[m]| && ps[m][..|base|] == base && ps[m][|base|] == f
    {
      UnderPart(base, f, p0, one[m]);
    }
    forall g: Frame | g.l == f.l && IsChild(k, g) && AtOrBehind(g, f.i, f.j)
      ensures Due(stopped, ps, base + [g])
    {
      if g != f {
        assert Due(stopped, rest, base + [g]);
      }
    }
  }

  /** When the walk stops below a child, nothing behind it is due. */
  lemma RestDueStopped(k: Tasks, base: seq<Frame>, f: Frame, p0: seq<Frame>, one: seq<seq<Frame>>)
    requires p0 == base + [f] && Under(p0, one) && p0 in one
    ensures RestDue(k, true, one, base, f.l, f.i, f.j) && Below(base, f.l, f.i, f.j, one)
  {
    forall m: nat | m < |one|
      ensures |base| < |one[m]| && one[m][..|base|] == base && one[m][|base|] == f
    {
      UnderPart(base, f, p0, one[m]);
    }
    forall g: Frame | g.l == f.l && IsChild(k, g) && AtOrBehind(g, f.i, f.j)
      ensures Due(true, one, base + [g])
    {
      if g != f {
        UnderPart(base, f, p0, one[|one| - 1]);
        PartsEarlier(base, one[|one| - 1], base + [g]);
      }
    }
  }

  /** The child, and if it is entered the walk of its group. */
  ghost predicate ChildWalked(k: Tasks, visitor: seq<Task> -> int, top: Task, base: seq<Frame>, p0: seq<Frame>, o: Outcome,
                              n0: nat, ps: seq<seq<Frame>>) {
    Walked(k, visitor, top, base, o, n0, ps) && Under(p0, ps) && p0 in ps
  }

  lemma NotEntered(k: Tasks, visitor: seq<Task> -> int, top: Task, base: seq<Frame>, f: Frame, p0: seq<Frame>,
                   log: seq<Task>, c: Task, o: Outcome, ps: seq<seq<Frame>>)
    requires PathTo(k, base, top, f.l) && IsChild(k, f) && c == ChildAt(k, f) && p0 == base + [f] && ps == [p0]
    requires o.log == log + [c] && visitor(o.log) <= 0
    ensures ChildWalked(k, visitor, top, base, p0, o, |log|, ps)
  {
    PathOn(k, base, top, f);
    assert o.log[..|log| + 1] == o.log;
  }

  lemma EnteredWalked(k: Tasks, visitor: seq<Task> -> int, top: Task, base: seq<Frame>, f: Frame, p0: seq<Frame>,
                      log: seq<Task>, c: Task, o: Outcome, sub: seq<seq<Frame>>, ps: seq<seq<Frame>>)
    requires PathTo(k, base, top, f.l) && IsChild(k, f) && c == ChildAt(k, f) && p0 == base + [f] && ps == [p0] + sub
    requires log + [c] <= o.log && visitor(log + [c]) > 0
    requires Walked(k, visitor, top, p0, o, |log| + 1, sub) && Below(p0, c, 0, 0, sub)
    requires RestDue(k, o.stopped, sub, p0, c, 0, 0)
    ensures ChildWalked(k, visitor, top, base, p0, o, |log|, ps)
  {
    PathOn(k, base, top, f);
    assert o.log[..|log| + 1] == log + [c] && o.log[|log|] == (log + [c])[|log|];
    forall g: Frame | g.l == c && IsChild(k, g)
      ensures Due(o.stopped, sub, p0 + [g])
    {
      assert AtOrBehind(g, 0, 0);
    }
    EnteredVisits(k, visitor, top, base, p0, c, |log|, o, sub, ps);
    assert ps[0] == p0;
  }

  /** The walk from a place on visits what is due from there, in order. */
  lemma {:induction false} Visits(k: Tasks, rank: map<Task, nat>, visitor: seq<Task> -> int, top: Task, base: seq<Frame>,
                                  l: Task, i: nat, j: nat, log: seq<Task>, o: Outcome) returns (ps: seq<seq<Frame>>)
    requires WellFormed(k, rank) && Place(k, l, i, j) && PathTo(k, base, top, l) && o == Walk(k, rank, visitor, l, i, j, log)
    ensures Walked(k, visitor, top, base, o, |log|, ps)
    ensures Below(base, l, i, j, ps) && RestDue(k, o.stopped, ps, base, l, i, j)
    decreases if l in rank then rank[l] else 0, |k.threads[l]| - i, (if i < |k.threads[l]| then |Children(k, l, i)| else 0) - j, 2
  {
    assert GroupOk(k, rank, l);
    if i == |k.threads[l]| {
      ps := [];
    } else if j == |Children(k, l, i)| {
      ps := Visits(k, rank, visitor, top, base, l, i + 1, 0, log, o);
      NextThreadDue(k, o.stopped, ps, base, l, i, j);
    } else {
      ps := VisitsHere(k, rank, visitor, top, base, Frame(l, i, j), log, o);
    }
  }

  /** The walk from a child on. */
  lemma {:induction false} VisitsHere(k: Tasks, rank: map<Task, nat>, visitor: seq<Task> -> int, top: Task,
                                      base: seq<Frame>, f: Frame, log: seq<Task>, o: Outcome) returns (ps: seq<seq<Frame>>)
    requires WellFormed(k, rank) && IsChild(k, f) && PathTo(k, base, top, f.l)
    requires o == Walk(k, rank, visitor, f.l, f.i, f.j, log)
    ensures Walked(k, visitor, top, base, o, |log|, ps)
    ensures Below(base, f.l, f.i, f.j, ps) && RestDue(k, o.stopped, ps, base, f.l, f.i, f.j)
    decreases if f.l in rank then rank[f.l] else 0, |k.threads[f.l]| - f.i, |Children(k, f.l, f.i)| - f.j, 1
  {
    assert GroupOk(k, rank, f.l);
    var p0 := base + [f];
    var o1, one := VisitsChild(k, rank, visitor, top, base, f, p0, log);
    if o1.stopped {
      ps := one;
      RestDueStopped(k, base, f, p0, one);
    } else {
      var rest := Visits(k, rank, visitor, top, base, f.l, f.i, f.j + 1, o1.log, o);
      WalkStopsAtNegative(k, rank, visitor, f.l, f.i, f.j + 1, o1.log);
      ps := ChildAndRest(k, visitor, top, base, f, p0, |log|, o1, one, o, rest);
    }
  }

  lemma ChildAndRest(k: Tasks, visitor: seq<Task> -> int, top: Task, base: seq<Frame>, f: Frame, p0: seq<Frame>, n0: nat,
                     o1: Outcome, one: seq<seq<Frame>>, o: Outcome, rest: seq<seq<Frame>>)
    returns (ps: seq<seq<Frame>>)
    requires p0 == base + [f] && !o1.stopped && o1.log <= o.log && ChildWalked(k, visitor, top, base, p0, o1, n0, one)
    requires Walked(k, visitor, top, base, o, |o1.log|, rest) && Below(base, f.l, f.i, f.j + 1, rest)
    requires RestDue(k, o.stopped, rest, base, f.l, f.i, f.j + 1)
    ensures Walked(k, visitor, top, base, o, n0, ps)
    ensures Below(base, f.l, f.i, f.j, ps) && RestDue(k, o.stopped, ps, base, f.l, f.i, f.j)
  {
    ps := one + rest;
    VisitsJoin(k, visitor, top, base, f, p0, n0, o1, one, o, rest, ps);
    RestDueJoin(k, o.stopped, base, f, p0, one, rest, ps);
  }

  /** The part of the walk that belongs to one child. */
  lemma {:induction false} VisitsChild(k: Tasks, rank: map<Task, nat>, visitor: seq<Task> -> int, top: Task,
                                       base: seq<Frame>, f: Frame, p0: seq<Frame>, log: seq<Task>)
    returns (o: Outcome, ps: seq<seq<Frame>>)
    requires WellFormed(k, rank) && IsChild(k, f) && PathTo(k, base, top, f.l) && p0 == base + [f]
    ensures ChildWalked(k, visitor, top, base, p0, o, |log|, ps)
    ensures var whole := Walk(k, rank, visitor, f.l, f.i, f.j, log);
      whole == if o.stopped then o else Walk(k, rank, visitor, f.l, f.i, f.j + 1, o.log)
    decreases if f.l in rank then rank[f.l] else 0, |k.threads[f.l]| - f.i, |Children(k, f.l, f.i)| - f.j, 0
  {
    assert GroupOk(k, rank, f.l);
    var c := ChildAt(k, f);
    assert ChildOk(k, rank, f.l, k.threads[f.l][f.i], c);
    var seen := log + [c];
    if visitor(seen) > 0 {
      PathOn(k, base, top, f);
      o := Walk(k, rank, visitor, c, 0, 0, seen);
      var sub := Visits(k, rank, visitor, top, p0, c, 0, 0, seen, o);
      WalkStopsAtNegative(k, rank, visitor, c, 0, 0, seen);
      ps := [p0] + sub;
      EnteredWalked(k, visitor, top, base, f, p0, log, c, o, sub, ps);
    } else {
      o, ps := Outcome(seen, visitor(seen) < 0), [p0];
      NotEntered(k, visitor, top, base, f, p0, log, c, o, ps);
    }
  }

  lemma NextThreadDue(k: Tasks, stopped: bool, ps: seq<seq<Frame>>, base: seq<Frame>, l: Task, i: nat, j: nat)
    requires l in k.threads && i < |k.threads[l]| && j == |Children(k, l, i)|
    requires Below(base, l, i + 1, 0, ps) && RestDue(k, stopped, ps, base, l, i + 1, 0)
    ensures Below(base, l, i, j, ps) && RestDue(k, stopped, ps, base, l, i, j)
  {
    forall f: Frame | f.l == l && IsChild(k, f) && AtOrBehind(f, i, j)
      ensures Due(stopped, ps, base + [f])
    {
      assert AtOrBehind(f, i + 1, 0);
    }
  }

  /** The last answer was negative. */
  predicate CutShort(visitor: seq<Task> -> int, log: seq<Task>) {
    log != [] && visitor(log) < 0
  }

  /**
   * The tasks of the log are at the ends of the paths ps from top.  Each path
   * goes on from the top or from an earlier task that was entered, the paths are
   * in preorder, and nothing that is due is missing before the end.
   */
  ghost predicate InPreorder(k: Tasks, visitor: seq<Task> -> int, top: Task, log: seq<Task>, ps: seq<seq<Frame>>) {
    && Walked(k, visitor, top, [], Outcome(log, CutShort(visitor, log)), 0, ps)
    && AllDue(k, CutShort(visitor, log), ps, [], top)
  }

  lemma PreorderIsInOrder(k: Tasks, rank: map<Task, nat>, visitor: seq<Task> -> int, top: Task, log: seq<Task>)
    returns (ps: seq<seq<Frame>>)
    requires WellFormed(k, rank) && top in k.threads && log == Preorder(k, rank, visitor, top)
    ensures InPreorder(k, visitor, top, log, ps)
  {
    var o := Walk(k, rank, visitor, top, 0, 0, []);
    ps := Visits(k, rank, visitor, top, [], top, 0, 0, [], o);
    WalkStopsAtNegative(k, rank, visitor, top, 0, 0, []);
    assert o.log[..|o.log|] == o.log;
    assert o.stopped <==> CutShort(visitor, log);
    forall f: Frame | f.l == top && IsChild(k, f)
      ensures Due(o.stopped, ps, [] + [f])
    {
      assert AtOrBehind(f, 0, 0);
    }
  }

  // ---- each once ----------------------------------------------------------

  /** A task is a child at one place only. */
  lemma OnePlace(k: Tasks, rank: map<Task, nat>, f: Frame, g: Frame)
    requires WellFormed(k, rank) && IsChild(k, f) && IsChild(k, g) && ChildAt(k, f) == ChildAt(k, g)
    ensures f == g
  {
    LinksLeadBack(k, rank, f, ChildAt(k, f));
    LinksLeadBack(k, rank, g, ChildAt(k, g));
    ListsAgree(k, rank, f.l, f.i);
    ListsAgree(k, rank, g.l, g.i);
  }

  /** And one path leads to it. */
  lemma {:induction false} OnePath(k: Tasks, rank: map<Task, nat>, top: Task, p: seq<Frame>, q: seq<Frame>, c: Task)
    requires WellFormed(k, rank) && top in k.threads && PathTo(k, p, top, c) && PathTo(k, q, top, c)
    ensures p == q
    decreases |p|
  {
    TopIffNoPath(k, rank, p, top, c);
    TopIffNoPath(k, rank, q, top, c);
    if p != [] && q != [] {
      var f, g := p[|p| - 1], q[|q| - 1];
      OnePlace(k, rank, f, g);
      OnePath(k, rank, top, p[..|p| - 1], q[..|q| - 1], f.l);
      assert p == p[..|p| - 1] + [f] && q == q[..|q| - 1] + [g];
    }
  }

  /** The group of l is walked: it is the top's, or one of the first n visits was answered positively for it. */
  ghost predicate Opened(visitor: seq<Task> -> int, top: Task, log: seq<Task>, l: Task, n: nat) {
    l == top || exists m: nat :: m < n && m < |log| && log[m] == l && visitor(log[..m + 1]) > 0
  }

  ghost predicate HasOpenedParent(k: Tasks, visitor: seq<Task> -> int, top: Task, log: seq<Task>, n: nat)
    requires n < |log|
  {
    exists f: Frame :: IsChild(k, f) && ChildAt(k, f) == log[n] && Opened(visitor, top, log, f.l, n)
  }

  predicate InListOrder(log: seq<Task>, c: Task, d: Task) {
    forall m: nat, n: nat :: m < |log| && n < |log| && log[m] == c && log[n] == d ==> m < n
  }

  /**
   * No task is visited twice, and each after the one whose group it belongs to;
   * siblings are visited in list order; and unless the visitor stops the walk, it
   * visits all children in the top's group and in those that are entered.
   */
  ghost predicate EachOnce(k: Tasks, visitor: seq<Task> -> int, top: Task, log: seq<Task>) {
    && NoRepeats(log)
    && (forall n: nat :: n < |log| ==> HasOpenedParent(k, visitor, top, log, n))
    && (forall f: Frame, g: Frame :: IsChild(k, f) && IsChild(k, g) && ComesFirst(f, g) ==>
          InListOrder(log, ChildAt(k, f), ChildAt(k, g)))
    && (!CutShort(visitor, log) ==>
          forall f: Frame :: IsChild(k, f) && Opened(visitor, top, log, f.l, |log|) ==> ChildAt(k, f) in log)
  }

  lemma InOrderMeansEachOnce(k: Tasks, rank: map<Task, nat>, visitor: seq<Task> -> int, top: Task, log: seq<Task>,
                             ps: seq<seq<Frame>>)
    requires WellFormed(k, rank) && top in k.threads && InPreorder(k, visitor, top, log, ps)
    ensures EachOnce(k, visitor, top, log)
  {
    forall m: nat, n: nat | m < n < |log|
      ensures log[m] != log[n]
    {
      NotTwice(k, rank, visitor, top, log, ps, m, n);
    }
    forall n: nat | n < |log|
      ensures HasOpenedParent(k, visitor, top, log, n)
    {
      ParentIsOpened(k, visitor, top, log, ps, n);
    }
    forall f: Frame, g: Frame | IsChild(k, f) && IsChild(k, g) && ComesFirst(f, g)
      ensures InListOrder(log, ChildAt(k, f), ChildAt(k, g))
    {
      SiblingsInOrder(k, rank, visitor, top, log, ps, f, g);
    }
    if !CutShort(visitor, log) {
      forall f: Frame | IsChild(k, f) && Opened(visitor, top, log, f.l, |log|)
        ensures ChildAt(k, f) in log
      {
        OpenedIsWalked(k, visitor, top, log, ps, f);
      }
    }
  }

  lemma NotTwice(k: Tasks, rank: map<Task, nat>, visitor: seq<Task> -> int, top: Task, log: seq<Task>,
                 ps: seq<seq<Frame>>, m: nat, n: nat)
    requires WellFormed(k, rank) && top in k.threads && InPreorder(k, visitor, top, log, ps) && m < n < |log|
    ensures log[m] != log[n]
  {
    assert Reached(k, visitor, top, [], log, 0, ps, m) && Reached(k, visitor, top, [], log, 0, ps, n);
    NotBoth(ps[m], ps[n]);
    if log[m] == log[n] {
      OnePath(k, rank, top, ps[m], ps[n], log[n]);
    }
  }

  lemma OneEnd(k: Tasks, p: seq<Frame>, top: Task, c: Task, d: Task)
    requires PathTo(k, p, top, c) && PathTo(k, p, top, d)
    ensures c == d
  {
  }

  lemma ParentIsOpened(k: Tasks, visitor: seq<Task> -> int, top: Task, log: seq<Task>, ps: seq<seq<Frame>>, n: nat)
    requires InPreorder(k, visitor, top, log, ps) && n < |log|
    ensures HasOpenedParent(k, visitor, top, log, n)
  {
    assert Reached(k, visitor, top, [], log, 0, ps, n);
    var p := ps[n];
    var f, a := p[|p| - 1], p[..|p| - 1];
    assert IsChild(k, f) && ChildAt(k, f) == log[n] && PathTo(k, a, top, f.l);
    if a != [] {
      var q: nat :| q < n && EnteredAt(visitor, log, 0, ps, q, a);
      assert Reached(k, visitor, top, [], log, 0, ps, q);
      OneEnd(k, a, top, f.l, log[q]);
      assert log[q] == f.l && visitor(log[..q + 1]) > 0;
    }
    assert Opened(visitor, top, log, f.l, n);
  }

  lemma SiblingsInOrder(k: Tasks, rank: map<Task, nat>, visitor: seq<Task> -> int, top: Task, log: seq<Task>,
                        ps: seq<seq<Frame>>, f: Frame, g: Frame)
    requires WellFormed(k, rank) && top in k.threads && InPreorder(k, visitor, top, log, ps)
    requires IsChild(k, f) && IsChild(k, g) && ComesFirst(f, g)
    ensures InListOrder(log, ChildAt(k, f), ChildAt(k, g))
  {
    forall m: nat, n: nat | m < |log| && n < |log| && log[m] == ChildAt(k, f) && log[n] == ChildAt(k, g)
      ensures m < n
    {
      assert Reached(k, visitor, top, [], log, 0, ps, m) && Reached(k, visitor, top, [], log, 0, ps, n);
      SiblingPaths(k, rank, top, ps[m], ps[n], f, g);
      NotBoth(ps[m], ps[n]);
    }
  }

  lemma SiblingPaths(k: Tasks, rank: map<Task, nat>, top: Task, p: seq<Frame>, q: seq<Frame>, f: Frame, g: Frame)
    requires WellFormed(k, rank) && top in k.threads && IsChild(k, f) && IsChild(k, g) && ComesFirst(f, g)
    requires p != [] && PathTo(k, p, top, ChildAt(k, f)) && q != [] && PathTo(k, q, top, ChildAt(k, g))
    ensures Earlier(p, q)
  {
    OnePlace(k, rank, p[|p| - 1], f);
    OnePlace(k, rank, q[|q| - 1], g);
    OnePath(k, rank, top, p[..|p| - 1], q[..|q| - 1], f.l);
    PartsEarlier(p[..|p| - 1], p, q);
  }

  lemma OpenedIsWalked(k: Tasks, visitor: seq<Task> -> int, top: Task, log: seq<Task>, ps: seq<seq<Frame>>, f: Frame)
    requires InPreorder(k, visitor, top, log, ps) && !CutShort(visitor, log)
    requires IsChild(k, f) && Opened(visitor, top, log, f.l, |log|)
    ensures ChildAt(k, f) in log
  {
    var a: seq<Frame> := [];
    if f.l != top {
      var m: nat :| m < |log| && log[m] == f.l && visitor(log[..m + 1]) > 0;
      a := ps[m];
      assert AllDue(k, false, ps, ps[m], log[m]);
    }
    assert Due(false, ps, a + [f]);
    var n: nat :| n < |ps| && ps[n] == a + [f];
    assert Reached(k, visitor, top, [], log, 0, ps, n);
    assert ps[n][|ps[n]| - 1] == f;
  }

  // ---- termination --------------------------------------------------------

  /** The loop turns the rest of a group can take at most. */
  ghost function Size(k: Tasks, rank: map<Task, nat>, l: Task, i: nat, j: nat): nat
    requires WellFormed(k, rank) && Place(k, l, i, j)
    decreases rank[l], |k.threads[l]| - i, (if i < |k.threads[l]| then |Children(k, l, i)| else 0) - j
  {
    assert GroupOk(k, rank, l);
    if i == |k.threads[l]| then 0
    else if j == |Children(k, l, i)| then 1 + Size(k, rank, l, i + 1, 0)
    else
      assert ChildOk(k, rank, l, k.threads[l][i], Children(k, l, i)[j]);
      2 + Size(k, rank, Children(k, l, i)[j], 0, 0) + Size(k, rank, l, i, j + 1)
  }

  ghost function PathSize(k: Tasks, rank: map<Task, nat>, path: seq<Frame>, top: Task, l: Task): nat
    requires WellFormed(k, rank) && PathTo(k, path, top, l)
  {
    if path == [] then 0
    else
      var f := path[|path| - 1];
      PathSize(k, rank, path[..|path| - 1], top, f.l) + 1 + Size(k, rank, f.l, f.i, f.j + 1)
  }

  // ---- the loop -----------------------------------------------------------

  datatype Option = None | Some(task: Task)

  function First(list: seq<Task>): Option {
    if list == [] then None else Some(list[0])
  }

  /** The list element behind x: what following x's list link gives. */
  function Next(list: seq<Task>, x: Task): Option {
    if list == [] then None
    else if list[0] == x then First(list[1..])
    else Next(list[1..], x)
  }

  lemma {:induction false} NextIs(list: seq<Task>, i: nat)
    requires NoRepeats(list) && i < |list|
    ensures Next(list, list[i]) == if i + 1 < |list| then Some(list[i + 1]) else None
  {
    if i > 0 {
      NextIs(list[1..], i - 1);
    }
  }

  /** Where control is: at a label, at the head of one of the two list loops, or past them. */
  datatype Control = Down | Threads | Siblings | Up | Climb | Out

  /** How the pointers encode a place (i, j) of the leader's group. */
  ghost predicate PointsTo(k: Tasks, at: Control, leader: Task, parent: Option, child: Option, i: nat, j: nat)
    requires Place(k, leader, i, j)
  {
    match at
    case Down => i == 0 && j == 0
    case Threads => j == 0 && parent == if i < |k.threads[leader]| then Some(k.threads[leader][i]) else None
    case Siblings =>
      && i < |k.threads[leader]| && parent == Some(k.threads[leader][i])
      && child == if j < |Children(k, leader, i)| then Some(Children(k, leader, i)[j]) else None
    case Up =>
      i < |k.threads[leader]| && parent == Some(k.threads[leader][i]) && j > 0 && child == Some(Children(k, leader, i)[j - 1])
    case Climb => i == |k.threads[leader]|
    case Out => true
  }

  ghost function Left(k: Tasks, rank: map<Task, nat>, top: Task, leader: Task, path: seq<Frame>, i: nat, j: nat): nat
    requires WellFormed(k, rank) && PathTo(k, path, top, leader) && Place(k, leader, i, j)
  {
    PathSize(k, rank, path, top, leader) + Size(k, rank, leader, i, j)
  }

  function Order(at: Control): nat {
    match at
    case Down => 4
    case Up => 4
    case Threads => 3
    case Siblings => 2
    case Climb => 1
    case Out => 0
  }

  /** Entering a child's group: the way back leads to the place it was entered from. */
  lemma EnterPath(k: Tasks, rank: map<Task, nat>, top: Task, leader: Task, path: seq<Frame>, i: nat, j: nat, c: Task,
                  deeper: seq<Frame>)
    requires WellFormed(k, rank) && top in k.threads && PathTo(k, path, top, leader)
    requires Place(k, leader, i, j) && i < |k.threads[leader]| && j < |Children(k, leader, i)| && c == Children(k, leader, i)[j]
    requires deeper == path + [Frame(leader, i, j)]
    ensures PathTo(k, deeper, top, c) && Place(k, c, 0, 0)
    ensures Left(k, rank, top, c, deeper, 0, 0) < Left(k, rank, top, leader, path, i, j)
  {
    assert deeper[..|deeper| - 1] == path;
    LinksLeadBack(k, rank, Frame(leader, i, j), c);
  }

  /** The walk of the child's group, resumed there, is the walk from that place. */
  lemma Enter(k: Tasks, rank: map<Task, nat>, visitor: seq<Task> -> int, top: Task, leader: Task, path: seq<Frame>,
              i: nat, j: nat, log: seq<Task>, c: Task, deeper: seq<Frame>)
    requires WellFormed(k, rank) && top in k.threads && PathTo(k, path, top, leader)
    requires Place(k, leader, i, j) && i < |k.threads[leader]| && j < |Children(k, leader, i)| && c == Children(k, leader, i)[j]
    requires visitor(log + [c]) > 0 && deeper == path + [Frame(leader, i, j)]
    requires PathTo(k, deeper, top, c) && Place(k, c, 0, 0)
    ensures Resume(k, rank, visitor, path, Walk(k, rank, visitor, leader, i, j, log), top, leader)
         == Resume(k, rank, visitor, deeper, Walk(k, rank, visitor, c, 0, 0, log + [c]), top, c)
  {
    assert deeper[..|deeper| - 1] == path;
  }

  /** A visit that does not enter the child's group. */
  lemma Visit(k: Tasks, rank: map<Task, nat>, visitor: seq<Task> -> int, l: Task, i: nat, j: nat, log: seq<Task>, c: Task)
    requires WellFormed(k, rank) && Place(k, l, i, j) && i < |k.threads[l]| && j < |Children(k, l, i)|
    requires c == Children(k, l, i)[j] && visitor(log + [c]) <= 0
    ensures Walk(k, rank, visitor, l, i, j, log)
         == if visitor(log + [c]) < 0 then Outcome(log + [c], true) else Walk(k, rank, visitor, l, i, j + 1, log + [c])
    ensures Size(k, rank, l, i, j + 1) < Size(k, rank, l, i, j)
  {
    assert GroupOk(k, rank, l);
    assert ChildOk(k, rank, l, k.threads[l][i], c);
  }

  /** On to the next thread of the group. */
  lemma NextThread(k: Tasks, rank: map<Task, nat>, visitor: seq<Task> -> int, l: Task, i: nat, j: nat, log: seq<Task>)
    requires WellFormed(k, rank) && Place(k, l, i, j) && i < |k.threads[l]| && j == |Children(k, l, i)|
    ensures Walk(k, rank, visitor, l, i, j, log) == Walk(k, rank, visitor, l, i + 1, 0, log)
    ensures Size(k, rank, l, i + 1, 0) < Size(k, rank, l, i, j)
  {
    assert GroupOk(k, rank, l);
  }

  /** Leaving a group whose threads have all been walked. */
  lemma Leave(k: Tasks, rank: map<Task, nat>, visitor: seq<Task> -> int, top: Task, leader: Task, path: seq<Frame>,
              i: nat, j: nat, log: seq<Task>, f: Frame, above: seq<Frame>)
    requires WellFormed(k, rank) && top in k.threads && PathTo(k, path, top, leader)
    requires path != [] && f == path[|path| - 1] && above == path[..|path| - 1]
    requires Place(k, leader, i, j) && i == |k.threads[leader]|
    ensures PathTo(k, above, top, f.l) && Place(k, f.l, f.i, f.j + 1)
    ensures Resume(k, rank, visitor, path, Walk(k, rank, visitor, leader, i, j, log), top, leader)
         == Resume(k, rank, visitor, above, Walk(k, rank, visitor, f.l, f.i, f.j + 1, log), top, f.l)
    ensures Left(k, rank, top, f.l, above, f.i, f.j + 1) < Left(k, rank, top, leader, path, i, j)
  {
  }

  /** Where the walk stands in the tree: the groups above, and the place in the leader's group. */
  datatype Mark = Mark(path: seq<Frame>, i: nat, j: nat)

  /** The pointers stand at the mark, and the rest of the recursive walk from there completes the log. */
  ghost predicate OnTrack(k: Tasks, rank: map<Task, nat>, visitor: seq<Task> -> int, top: Task, at: Control,
                          leader: Task, parent: Option, child: Option, m: Mark, log: seq<Task>)
    requires WellFormed(k, rank) && top in k.threads
  {
    && PathTo(k, m.path, top, leader) && Place(k, leader, m.i, m.j)
    && PointsTo(k, at, leader, parent, child, m.i, m.j)
    && Preorder(k, rank, visitor, top)
    == if at == Out then log
       else Resume(k, rank, visitor, m.path, Walk(k, rank, visitor, leader, m.i, m.j, log), top, leader)
  }

  /** At the end of a child list the thread pointer finds the next thread. */
  lemma ThreadPointers(k: Tasks, rank: map<Task, nat>, leader: Task, parent: Task, i: nat, j: nat)
    requires WellFormed(k, rank) && Place(k, leader, i, j) && PointsTo(k, Siblings, leader, Some(parent), None, i, j)
    ensures i < |k.threads[leader]| && j == |Children(k, leader, i)| && Place(k, leader, i + 1, 0)
    ensures PointsTo(k, Threads, leader, Next(k.threads[leader], parent), None, i + 1, 0)
  {
    ListsAgree(k, rank, leader, i);
    NextIs(k.threads[leader], i);
  }

  /** A visited child that is not entered is passed by. */
  lemma ChildPointers(k: Tasks, rank: map<Task, nat>, leader: Task, parent: Option, child: Task, i: nat, j: nat)
    requires WellFormed(k, rank) && Place(k, leader, i, j) && PointsTo(k, Siblings, leader, parent, Some(child), i, j)
    ensures i < |k.threads[leader]| && j < |Children(k, leader, i)| && child == Children(k, leader, i)[j]
    ensures Place(k, leader, i, j + 1) && PointsTo(k, Up, leader, parent, Some(child), i, j + 1)
  {
  }

  /** The end of a child list: on to the next thread. */
  lemma EndOfSiblings(k: Tasks, rank: map<Task, nat>, visitor: seq<Task> -> int, top: Task, leader: Task,
                      parent: Task, m: Mark, log: seq<Task>) returns (n: Mark)
    requires WellFormed(k, rank) && top in k.threads
    requires OnTrack(k, rank, visitor, top, Siblings, leader, Some(parent), None, m, log)
    ensures OnTrack(k, rank, visitor, top, Threads, leader, Next(k.threads[leader], parent), None, n, log)
    ensures Left(k, rank, top, leader, n.path, n.i, n.j) < Left(k, rank, top, leader, m.path, m.i, m.j)
  {
    ThreadPointers(k, rank, leader, parent, m.i, m.j);
    NextThread(k, rank, visitor, leader, m.i, m.j, log);
    n := m.(i := m.i + 1, j := 0);
    OnTrackAgain(k, rank, visitor, top, Threads, leader, Next(k.threads[leader], parent), None, n, log);
  }

  /** A visited child whose group is skipped. */
  lemma Skipped(k: Tasks, rank: map<Task, nat>, visitor: seq<Task> -> int, top: Task, leader: Task,
                parent: Option, child: Task, m: Mark, log: seq<Task>) returns (n: Mark)
    requires WellFormed(k, rank) && top in k.threads && visitor(log + [child]) == 0
    requires OnTrack(k, rank, visitor, top, Siblings, leader, parent, Some(child), m, log)
    ensures OnTrack(k, rank, visitor, top, Up, leader, parent, Some(child), n, log + [child])
    ensures Left(k, rank, top, leader, n.path, n.i, n.j) < Left(k, rank, top, leader, m.path, m.i, m.j)
  {
    ChildPointers(k, rank, leader, parent, child, m.i, m.j);
    Visit(k, rank, visitor, leader, m.i, m.j, log, child);
    n := m.(j := m.j + 1);
    OnTrackAgain(k, rank, visitor, top, Up, leader, parent, Some(child), n, log + [child]);
  }

  /** A visited child at which the visitor stops the walk. */
  lemma Stopped(k: Tasks, rank: map<Task, nat>, visitor: seq<Task> -> int, top: Task, leader: Task,
                parent: Option, child: Task, m: Mark, log: seq<Task>)
    requires WellFormed(k, rank) && top in k.threads && visitor(log + [child]) < 0
    requires OnTrack(k, rank, visitor, top, Siblings, leader, parent, Some(child), m, log)
    ensures Preorder(k, rank, visitor, top) == log + [child]
  {
    ListsAgree(k, rank, leader, m.i);
    Visit(k, rank, visitor, leader, m.i, m.j, log, child);
  }

  /** A visited child whose group is entered. */
  lemma Entered(k: Tasks, rank: map<Task, nat>, visitor: seq<Task> -> int, top: Task, leader: Task,
                parent: Option, child: Task, m: Mark, log: seq<Task>) returns (n: Mark)
    requires WellFormed(k, rank) && top in k.threads && visitor(log + [child]) > 0
    requires OnTrack(k, rank, visitor, top, Siblings, leader, parent, Some(child), m, log)
    ensures OnTrack(k, rank, visitor, top, Down, child, parent, Some(child), n, log + [child])
    ensures Left(k, rank, top, child, n.path, n.i, n.j) < Left(k, rank, top, leader, m.path, m.i, m.j)
    ensures child in k.threads
  {
    ListsAgree(k, rank, leader, m.i);
    n := Mark(m.path + [Frame(leader, m.i, m.j)], 0, 0);
    EnterPath(k, rank, top, leader, m.path, m.i, m.j, child, n.path);
    Enter(k, rank, visitor, top, leader, m.path, m.i, m.j, log, child, n.path);
  }

  /** Back up to the group the leader was entered from. */
  lemma Climbed(k: Tasks, rank: map<Task, nat>, visitor: seq<Task> -> int, top: Task, leader: Task,
                parent: Option, child: Option, m: Mark, log: seq<Task>) returns (n: Mark, p: Task, l: Task)
    requires WellFormed(k, rank) && top in k.threads && leader != top
    requires OnTrack(k, rank, visitor, top, Climb, leader, parent, child, m, log)
    ensures leader in k.realParent && p == k.realParent[leader]
    ensures p in k.groupLeader && l == k.groupLeader[p]
    ensures OnTrack(k, rank, visitor, top, Up, l, Some(p), Some(leader), n, log)
    ensures Left(k, rank, top, l, n.path, n.i, n.j) < Left(k, rank, top, leader, m.path, m.i, m.j)
  {
    var f, above := m.path[|m.path| - 1], m.path[..|m.path| - 1];
    BackAtFrame(k, rank, f, leader);
    p, l := k.realParent[leader], f.l;
    Leave(k, rank, visitor, top, leader, m.path, m.i, m.j, log, f, above);
    n := Mark(above, f.i, f.j + 1);
    OnTrackAgain(k, rank, visitor, top, Up, l, Some(p), Some(leader), n, log);
  }

  lemma OnTrackAgain(k: Tasks, rank: map<Task, nat>, visitor: seq<Task> -> int, top: Task, at: Control, l: Task,
                    parent: Option, child: Option, n: Mark, log: seq<Task>)
    requires WellFormed(k, rank) && top in k.threads && PathTo(k, n.path, top, l) && Place(k, l, n.i, n.j)
    requires at != Out && PointsTo(k, at, l, parent, child, n.i, n.j)
    requires Preorder(k, rank, visitor, top)
          == Resume(k, rank, visitor, n.path, Walk(k, rank, visitor, l, n.i, n.j, log), top, l)
    ensures OnTrack(k, rank, visitor, top, at, l, parent, child, n, log)
  {
  }

  /** The links, read at the end of a group, point at the child that was being walked. */
  lemma BackAtFrame(k: Tasks, rank: map<Task, nat>, f: Frame, below: Task)
    requires WellFormed(k, rank) && FrameOk(k, f, below)
    ensures below in k.realParent && k.realParent[below] in k.groupLeader
    ensures k.groupLeader[k.realParent[below]] == f.l && Place(k, f.l, f.i, f.j + 1)
    ensures PointsTo(k, Up, f.l, Some(k.realParent[below]), Some(below), f.i, f.j + 1)
  {
    LinksLeadBack(k, rank, f, below);
    ListsAgree(k, rank, f.l, f.i);
  }

  /** The next child behind one that has been dealt with. */
  lemma NextSibling(k: Tasks, rank: map<Task, nat>, visitor: seq<Task> -> int, top: Task, leader: Task,
                    parent: Task, child: Task, m: Mark, log: seq<Task>)
    requires WellFormed(k, rank) && top in k.threads
    requires OnTrack(k, rank, visitor, top, Up, leader, Some(parent), Some(child), m, log)
    ensures parent in k.children
    ensures OnTrack(k, rank, visitor, top, Siblings, leader, Some(parent), Next(k.children[parent], child), m, log)
  {
    ListsAgree(k, rank, leader, m.i);
    NextIs(k.children[parent], m.j - 1);
  }

  /** The kernel's walk: three pointers, two labels, no stack. */
  method WalkProcessTree(k: Tasks, ghost rank: map<Task, nat>, visitor: seq<Task> -> int, start: Task)
    returns (log: seq<Task>)
    requires WellFormed(k, rank) && start in k.groupLeader && k.groupLeader[start] in k.threads
    ensures log == Preorder(k, rank, visitor, k.groupLeader[start])
    ensures EachOnce(k, visitor, k.groupLeader[start], log)
    ensures exists ps :: InPreorder(k, visitor, k.groupLeader[start], log, ps)
  {
    var top := k.groupLeader[start];
    var leader, parent, child := top, None, None;
    var at := Down;
    ghost var m := Mark([], 0, 0);
    log := [];
    while at != Out
      invariant OnTrack(k, rank, visitor, top, at, leader, parent, child, m, log)
      decreases Left(k, rank, top, leader, m.path, m.i, m.j), Order(at)
    {
      match at
      case Down =>
        parent, at := First(k.threads[leader]), Threads;
      case Threads =>
        if parent == None {
          at := Climb;
        } else {
          ListsAgree(k, rank, leader, m.i);
          child, at := First(k.children[parent.task]), Siblings;
        }
      case Siblings =>
        if child == None {
          m := EndOfSiblings(k, rank, visitor, top, leader, parent.task, m, log);
          parent, at := Next(k.threads[leader], parent.task), Threads;
        } else {
          var res := visitor(log + [child.task]);
          if res > 0 {
            m := Entered(k, rank, visitor, top, leader, parent, child.task, m, log);
            leader, at := child.task, Down;
          } else if res < 0 {
            Stopped(k, rank, visitor, top, leader, parent, child.task, m, log);
            at := Out;
          } else {
            m := Skipped(k, rank, visitor, top, leader, parent, child.task, m, log);
            at := Up;
          }
          log := log + [child.task];
        }
      case Up =>
        NextSibling(k, rank, visitor, top, leader, parent.task, child.task, m, log);
        child, at := Next(k.children[parent.task], child.task), Siblings;
      case Climb =>
        if leader != top {
          ghost var p, l;
          m, p, l := Climbed(k, rank, visitor, top, leader, parent, child, m, log);
          child := Some(leader);
          parent := Some(k.realParent[child.task]);
          leader := k.groupLeader[parent.task];
          at := Up;
        } else {
          TopIffNoPath(k, rank, m.path, top, leader);
          at := Out;
        }
    }
    ghost var ps := PreorderIsInOrder(k, rank, visitor, top, log);
    InOrderMeansEachOnce(k, rank, visitor, top, log, ps);
  }

  lemma ListsAgree(k: Tasks, rank: map<Task, nat>, l: Task, i: nat)
    requires WellFormed(k, rank) && l in k.threads && i < |k.threads[l]|
    ensures NoRepeats(k.threads[l]) && k.threads[l][i] in k.children
    ensures k.children[k.threads[l][i]] == Children(k, l, i) && NoRepeats(Children(k, l, i))
  {
    assert GroupOk(k, rank, l);
    assert ThreadOk(k, l, k.threads[l][i]);
  }
}
