/** Clock may evict a page of the current window, but its hand cannot go round twice in one. */
module ClockWindows {
  import opened Sets
  import opened Paging
  import opened DemandPaging
  import Competitive

  /** The most faults that d distinct pages can cost. */
  function WindowFaults(d: nat): nat {
    if d < 2 then d else 2 * d - 2
  }

  // ---- one sweep ----------------------------------------------------------

  /** After the first fault the hand stands on a page with its bit set. */
  ghost predicate Running(s: State, k: nat) {
    && s.Valid(k)
    && if s.faults == 0 then s.hand == 0 && forall i :: 0 <= i < k ==> s.frames[i] == EMPTY && s.useBit[i] == 0
       else s.useBit[s.hand] != 0
  }

  /** Where the next sweep starts: before the first fault, as if the hand had just left the last slot. */
  function From(s: State, k: nat): nat
    requires s.Valid(k)
  {
    if s.faults == 0 then k - 1 else s.hand
  }

  /** How far the hand travels from one slot to another, a whole round if they are the same. */
  function Turn(k: nat, from: nat, to: nat): (d: nat)
    requires from < k && to < k
    ensures 0 < d <= k
  {
    if to > from then to - from else to - from + k
  }

  /** What a fault does: the bits it passes were set and are cleared, and no other bit is set but the victim's. */
  lemma Sweep(rf: seq<int>, k: nat, j: nat, s: State, t: State)
    requires Running(s, k) && j < |rf| && rf[j] !in s.frames && t == Step(Clock, rf, j, s)
    ensures t.Valid(k) && t.faults == s.faults + 1 && t.frames == s.frames[t.hand := rf[j]] && t.useBit[t.hand] != 0
    ensures forall i :: 0 <= i < k && i != t.hand && Turn(k, From(s, k), i) < Turn(k, From(s, k), t.hand) ==>
      s.useBit[i] != 0 && t.useBit[i] == 0
    ensures forall i :: 0 <= i < k && i != t.hand ==> t.useBit[i] == 0 || (t.useBit[i] == s.useBit[i] && i != From(s, k))
  {
    var n := SweepLength(s.useBit, s.hand, 0);
    assert t.hand == Ahead(k, s.hand, n);
    if s.faults > 0 {
      assert Ahead(k, s.hand, 0) == s.hand;
      assert n > 0;
      forall i | 0 <= i < k && Distance(k, s.hand, i) < n
        ensures s.useBit[i] != 0
      {
        assert s.useBit[Ahead(k, s.hand, Distance(k, s.hand, i))] != 0;
      }
    } else {
      assert n == 0;
    }
  }

  lemma StaysRunning(rf: seq<int>, k: nat, j: nat, s: State)
    requires Running(s, k) && j < |rf| && Proper(Clock, rf)
    ensures Running(Step(Clock, rf, j, s), k)
  {
    if rf[j] !in s.frames {
      Sweep(rf, k, j, s, Step(Clock, rf, j, s));
    }
  }

  lemma AlwaysRunning(rf: seq<int>, k: nat, j: nat)
    requires k > 0 && j <= |rf| && Proper(Clock, rf)
    ensures Running(Run(Clock, rf, k, j), k)
  {
    var holds := (i: nat, s: State) => Running(s, k);
    forall i: nat, s: State | i < |rf| && s.Valid(k) && holds(i, s)
      ensures holds(i + 1, Step(Clock, rf, i, s))
    {
      StaysRunning(rf, k, i, s);
    }
    HoldsThroughout(Clock, rf, k, holds, 0, j);
  }

  // ---- one window ---------------------------------------------------------

  /** The pages of the window in the first e slots behind `base`. */
  ghost function Held(frames: seq<int>, base: nat, e: int, window: set<int>): set<int>
    requires base < |frames|
  {
    set i | 0 <= i < |frames| && Turn(|frames|, base, i) <= e && frames[i] in window :: frames[i]
  }

  /**
   * A slot the hand has reached once since the window began holds a page of the
   * window, unless its bit is clear; one it has reached twice holds one anyway.
   */
  ghost predicate Reached(k: nat, base: nat, d: nat, b: State, window: set<int>, i: nat)
    requires base < k && i < k && b.Valid(k)
  {
    && (Turn(k, base, i) <= d || (i == base && d > 0) ==> b.frames[i] in window || b.useBit[i] == 0)
    && (Turn(k, base, i) + k <= d || (i == base && d >= k) ==> b.frames[i] in window)
  }

  /** The state b, after the hand has travelled d slots from `base`, with `before` faults before the window. */
  ghost predicate InWindow(k: nat, base: nat, d: nat, before: nat, b: State, window: set<int>) {
    && Running(b, k) && NoDuplicates(b.frames) && EMPTY !in window
    && base < k && d <= 2 * k
    && (if d == 0 then From(b, k) == base else Turn(k, base, From(b, k)) == if d <= k then d else d - k)
    && (forall i :: 0 <= i < k ==> Reached(k, base, d, b, window, i))
    && FewFaults(k, base, d, before, b, window)
  }

  /** In the first round the loads are still held; in the second at least one page of the window was never loaded in the first. */
  ghost predicate FewFaults(k: nat, base: nat, d: nat, before: nat, b: State, window: set<int>)
    requires base < k == |b.frames|
  {
    if d <= k then b.faults <= before + |Held(b.frames, base, d, window)|
    else && |window| >= 2
         && b.faults <= before + |window| - 1 + |Held(b.frames, base, d - k, window)|
         && b.faults <= before + 2 * |window| - 2
  }

  lemma WindowStart(k: nat, b: State, base: nat)
    requires Running(b, k) && NoDuplicates(b.frames) && base == From(b, k)
    ensures InWindow(k, base, 0, b.faults, b, {})
  {
  }

  lemma HeldGrows(frames: seq<int>, base: nat, e: int, window: set<int>, x: int)
    requires base < |frames|
    ensures |Held(frames, base, e, window)| <= |Held(frames, base, e, window + {x})|
  {
    SubsetSize(Held(frames, base, e, window), Held(frames, base, e, window + {x}));
  }

  lemma WindowHit(rf: seq<int>, k: nat, base: nat, d: nat, before: nat, j: nat, b: State, window: set<int>, t: State)
    requires j < |rf| && Proper(Clock, rf) && InWindow(k, base, d, before, b, window)
    requires rf[j] in b.frames && t == Step(Clock, rf, j, b)
    ensures InWindow(k, base, d, before, t, window + {rf[j]})
  {
    var wider := window + {rf[j]};
    SubsetSize(window, wider);
    HeldGrows(b.frames, base, if d <= k then d else d - k, window, rf[j]);
    forall i | 0 <= i < k
      ensures Reached(k, base, d, t, wider, i)
    {
      assert Reached(k, base, d, b, window, i);
    }
  }

  /** A fault adds the loaded page to those held behind the hand. */
  lemma HeldLoad(frames: seq<int>, base: nat, e: int, v: nat, x: int, window: set<int>, wider: set<int>)
    requires base < |frames| && v < |frames| && x !in frames && wider == window + {x} && e < Turn(|frames|, base, v)
    ensures |Held(frames, base, e, window)| < |Held(frames[v := x], base, Turn(|frames|, base, v), wider)|
  {
    var held, more := Held(frames, base, e, window), Held(frames[v := x], base, Turn(|frames|, base, v), wider);
    forall p | p in held
      ensures p in more
    {
      var i :| 0 <= i < |frames| && Turn(|frames|, base, i) <= e && frames[i] in window && frames[i] == p;
      assert frames[v := x][i] == p;
    }
    assert frames[v := x][v] == x;
    SubsetSize(held + {x}, more);
  }

  /** A page that is not held, and one beyond the first e slots, are missing from those held there. */
  lemma HeldLacks(frames: seq<int>, base: nat, e: int, window: set<int>, x: int, wider: set<int>)
    requires base < |frames| && x !in frames && wider == window + {x} && NoDuplicates(frames) && EMPTY !in window
    ensures |Held(frames, base, e, window)| < |wider|
    ensures frames[base] in window && e < |frames| ==> |Held(frames, base, e, window)| + 2 <= |wider|
  {
    var held := Held(frames, base, e, window);
    SubsetSize(held + {x}, wider);
    if frames[base] in window && e < |frames| {
      assert frames[base] !in held;
      SubsetSize(held + {x, frames[base]}, wider);
    }
  }

  /** What was reached before the fault, and what the sweep reaches. */
  lemma ReachedNext(rf: seq<int>, k: nat, base: nat, d: nat, before: nat, j: nat, b: State, window: set<int>, t: State,
                    next: nat, i: nat)
    requires j < |rf| && InWindow(k, base, d, before, b, window) && i < k
    requires rf[j] !in b.frames && t == Step(Clock, rf, j, b)
    requires t.Valid(k) && next == d + Turn(k, From(b, k), t.hand)
    ensures Reached(k, base, next, t, window + {rf[j]}, i)
  {
    Sweep(rf, k, j, b, t);
    assert Reached(k, base, d, b, window, i);
  }

  /** The hand does not complete a second round: every slot would then hold a page of the window. */
  lemma NoThirdRound(rf: seq<int>, k: nat, base: nat, d: nat, before: nat, j: nat, b: State, window: set<int>, t: State)
    requires j < |rf| && InWindow(k, base, d, before, b, window) && |window + {rf[j]}| <= k
    requires rf[j] !in b.frames && t == Step(Clock, rf, j, b) && t.Valid(k)
    ensures d + Turn(k, From(b, k), t.hand) <= 2 * k
  {
    if d + Turn(k, From(b, k), t.hand) > 2 * k {
      Sweep(rf, k, j, b, t);
      forall i | 0 <= i < k
        ensures b.frames[i] in window
      {
        assert Reached(k, base, d, b, window, i);
      }
      AllHeld(b.frames, window, rf[j]);
    }
  }

  lemma AllHeld(frames: seq<int>, window: set<int>, x: int)
    requires NoDuplicates(frames) && EMPTY !in window && x !in frames
    requires forall i :: 0 <= i < |frames| ==> frames[i] in window
    ensures |window + {x}| > |frames|
  {
    PagesBound(frames);
    SubsetSize(Pages(frames) + {x}, window + {x});
  }

  /** The page on the first slot is one of the window's when the hand comes past it. */
  lemma FirstSlotHeld(rf: seq<int>, k: nat, base: nat, d: nat, before: nat, j: nat, b: State, window: set<int>, t: State)
    requires j < |rf| && InWindow(k, base, d, before, b, window)
    requires rf[j] !in b.frames && t == Step(Clock, rf, j, b) && t.Valid(k)
    requires d + Turn(k, From(b, k), t.hand) > k
    ensures b.frames[base] in window
  {
    Sweep(rf, k, j, b, t);
    assert Reached(k, base, d, b, window, base);
  }

  lemma HandNext(k: nat, base: nat, d: nat, from: nat, to: nat, next: nat)
    requires base < k && from < k && to < k && d <= 2 * k && next == d + Turn(k, from, to) <= 2 * k
    requires if d == 0 then from == base else Turn(k, base, from) == if d <= k then d else d - k
    ensures Turn(k, base, to) == if next <= k then next else next - k
  {
  }

  lemma FaultsInFirstRound(rf: seq<int>, k: nat, base: nat, d: nat, before: nat, j: nat, b: State, window: set<int>,
                           t: State, next: nat, wider: set<int>)
    requires j < |rf| && InWindow(k, base, d, before, b, window) && wider == window + {rf[j]}
    requires rf[j] !in b.frames && t == Step(Clock, rf, j, b)
    requires t.Valid(k) && next == d + Turn(k, From(b, k), t.hand) && next <= k
    ensures FewFaults(k, base, next, before, t, wider)
  {
    Sweep(rf, k, j, b, t);
    HandNext(k, base, d, From(b, k), t.hand, next);
    HeldLoad(b.frames, base, d, t.hand, rf[j], window, wider);
  }

  lemma FaultsInSecondRound(rf: seq<int>, k: nat, base: nat, d: nat, before: nat, j: nat, b: State, window: set<int>,
                            t: State, next: nat, wider: set<int>)
    requires j < |rf| && InWindow(k, base, d, before, b, window) && wider == window + {rf[j]}
    requires rf[j] !in b.frames && t == Step(Clock, rf, j, b)
    requires t.Valid(k) && next == d + Turn(k, From(b, k), t.hand) && k < next <= 2 * k
    ensures FewFaults(k, base, next, before, t, wider)
  {
    var e := if d <= k then 0 else d - k;
    Sweep(rf, k, j, b, t);
    HandNext(k, base, d, From(b, k), t.hand, next);
    FirstSlotHeld(rf, k, base, d, before, j, b, window, t);
    SubsetSize(window, wider);
    SubsetSize({rf[j], b.frames[base]}, wider);
    HeldLacks(b.frames, base, if d <= k then d else e, window, rf[j], wider);
    HeldLoad(b.frames, base, e, t.hand, rf[j], window, wider);
  }

  lemma WindowFault(rf: seq<int>, k: nat, base: nat, d: nat, before: nat, j: nat, b: State, window: set<int>, t: State)
    returns (next: nat)
    requires j < |rf| && Proper(Clock, rf) && InWindow(k, base, d, before, b, window) && |window + {rf[j]}| <= k
    requires rf[j] !in b.frames && t == Step(Clock, rf, j, b)
    ensures InWindow(k, base, next, before, t, window + {rf[j]})
  {
    StaysRunning(rf, k, j, b);
    StepEffect(Clock, rf, k, j, b, t);
    next := d + Turn(k, From(b, k), t.hand);
    NoThirdRound(rf, k, base, d, before, j, b, window, t);
    if next <= k {
      FaultsInFirstRound(rf, k, base, d, before, j, b, window, t, next, window + {rf[j]});
    } else {
      FaultsInSecondRound(rf, k, base, d, before, j, b, window, t, next, window + {rf[j]});
    }
    HandNext(k, base, d, From(b, k), t.hand, next);
    forall i | 0 <= i < k
      ensures Reached(k, base, next, t, window + {rf[j]}, i)
    {
      ReachedNext(rf, k, base, d, before, j, b, window, t, next, i);
    }
    Sweep(rf, k, j, b, t);
  }

  lemma WindowStep(rf: seq<int>, k: nat, base: nat, d: nat, before: nat, j: nat, b: State, window: set<int>,
                   t: State, wider: set<int>) returns (next: nat)
    requires j < |rf| && Proper(Clock, rf) && InWindow(k, base, d, before, b, window) && |wider| <= k
    requires wider == window + {rf[j]} && t == Step(Clock, rf, j, b)
    ensures InWindow(k, base, next, before, t, wider)
  {
    if rf[j] in b.frames {
      next := d;
      WindowHit(rf, k, base, d, before, j, b, window, t);
    } else {
      next := WindowFault(rf, k, base, d, before, j, b, window, t);
    }
  }

  lemma {:induction false} ClockWindow(rf: seq<int>, k: nat, s: nat, j: nat, a: State, base: nat, b: State, window: set<int>)
    returns (d: nat)
    requires k > 0 && s <= j <= |rf| && Proper(Clock, rf) && window == Distinct(rf, s, j) && |window| <= k
    requires a == Run(Clock, rf, k, s) && base == From(a, k) && b == Run(Clock, rf, k, j)
    ensures InWindow(k, base, d, a.faults, b, window)
    decreases j
  {
    if s == j {
      AlwaysRunning(rf, k, s);
      NeverTwice(Clock, rf, k, s);
      WindowStart(k, a, base);
      assert window == {};
      d := 0;
    } else {
      var prior, smaller := Run(Clock, rf, k, j - 1), Distinct(rf, s, j - 1);
      DistinctGrows(rf, s, j - 1);
      d := ClockWindow(rf, k, s, j - 1, a, base, prior, smaller);
      d := WindowStep(rf, k, base, d, a.faults, j - 1, prior, smaller, b, window);
    }
  }

  /** A window with d <= k distinct pages costs clock at most 2 d - 2 faults, or d if d is 0 or 1. */
  lemma ClockWindowCost(rf: seq<int>, k: nat, s: nat, j: nat)
    requires k > 0 && s <= j <= |rf| && Proper(Clock, rf) && |Distinct(rf, s, j)| <= k
    ensures Run(Clock, rf, k, j).faults <= Run(Clock, rf, k, s).faults + WindowFaults(|Distinct(rf, s, j)|)
  {
    var a, b, window := Run(Clock, rf, k, s), Run(Clock, rf, k, j), Distinct(rf, s, j);
    var d := ClockWindow(rf, k, s, j, a, From(a, k), b, window);
    if d <= k {
      SubsetSize(Held(b.frames, From(a, k), d, window), window);
    }
  }

  // ---- competitiveness ----------------------------------------------------

  lemma ClockWindowFaults(rf: seq<int>, k: nat, s: nat, j: nat, caches: seq<set<int>>)
    requires k > 0 && s <= j <= |rf| && Proper(Clock, rf) && |Distinct(rf, s, j)| <= k
    requires caches == CachesOf(Clock, rf, k)
    ensures FaultsOf(rf, caches, j) <= FaultsOf(rf, caches, s) + WindowFaults(|Distinct(rf, s, j)|)
  {
    ClockWindowCost(rf, k, s, j);
    CountsItsFaults(Clock, rf, k, caches, s, Run(Clock, rf, k, s));
    CountsItsFaults(Clock, rf, k, caches, j, Run(Clock, rf, k, j));
  }

  /** Clock faults at most 2k - 2 times for every k - h + 1 faults of any demand paging with h <= k frames. */
  lemma ClockCompetitive(rf: seq<int>, k: nat, h: nat, theirs: seq<set<int>>, j: nat)
    requires 0 < h <= k && j <= |rf| && Proper(Clock, rf) && IsDemandPaging(rf, h, theirs)
    ensures (k - h + 1) * Run(Clock, rf, k, j).faults
         <= WindowFaults(k) * FaultsOf(rf, theirs, j) + WindowFaults(k) * (k - h)
  {
    var ours := CachesOf(Clock, rf, k);
    forall a, b | 0 <= a <= b <= |rf|
      ensures Competitive.WindowCost(rf, k, WindowFaults(k), ours, a, b)
    {
      if |Distinct(rf, a, b)| <= k {
        ClockWindowFaults(rf, k, a, b, ours);
      }
    }
    Competitive.AgainstAnyone(rf, k, h, WindowFaults(k), ours, theirs, j);
    CountsItsFaults(Clock, rf, k, ours, j, Run(Clock, rf, k, j));
  }

  // ---- the bound is reached -----------------------------------------------

  /** One fault whose sweep stops n slots ahead. */
  lemma FaultAt(rf: seq<int>, k: nat, j: nat, s: State, n: nat, v: nat, t: State)
    requires j < |rf| && s.Valid(k) && rf[j] !in s.frames && n <= k && v == Ahead(k, s.hand, n)
    requires n < k ==> s.useBit[v] == 0
    requires forall e :: 0 <= e < n ==> s.useBit[Ahead(k, s.hand, e)] != 0
    requires t == s.(frames := s.frames[v := rf[j]], faults := s.faults + 1,
                     useBit := Cleared(s.useBit, s.hand, n)[v := 1], hand := v)
    ensures Step(Clock, rf, j, s) == t
  {
    assert SweepLength(s.useBit, s.hand, 0) == n;
  }

  /** Pages 0, 1, 0, 2, ..., k, 1, ..., k - 1. */
  function Worst(k: nat): (rf: seq<int>)
    requires k > 1
  {
    seq(2 * k + 1, i requires 0 <= i < 2 * k + 1 =>
      if i < 2 then i else if i == 2 then 0 else if i <= k + 1 then i - 1 else i - k - 1)
  }

  /** Pages 0..m-1 are in their slots; the bits of the first and the last are set. */
  function Filling(k: nat, m: nat): State
    requires 1 < m <= k
  {
    State(seq(k, i requires 0 <= i < k => if i < m then i else EMPTY), 0,
          seq(k, i requires 0 <= i < k => if i == 0 || i == m - 1 then 1 else 0), m - 1, m, 1)
  }

  /** The hand stands on slot m, and slots 1..m have moved on by one page. */
  function Turning(k: nat, m: nat): State
    requires 0 < m < k
  {
    State(seq(k, i requires 0 <= i < k => if i == 1 then k else if 2 <= i <= m then i - 1 else i), 0,
          seq(k, i requires 0 <= i < k => if i == m then 1 else 0), m, k + m, 1)
  }

  lemma FirstThree(k: nat, rf: seq<int>)
    requires k > 1 && rf == Worst(k)
    ensures Run(Clock, rf, k, 3) == Filling(k, 2)
  {
    var s0 := Initial(k);
    var s1 := State(s0.frames[0 := 0], 0, s0.useBit[0 := 1], 0, 1, 0);
    var s2 := State(s1.frames[1 := 1], 0, s0.useBit[1 := 1], 1, 2, 0);
    FaultAt(rf, k, 0, s0, 0, 0, s1);
    assert Run(Clock, rf, k, 1) == Step(Clock, rf, 0, s0);
    assert Cleared(s1.useBit, 0, 1)[1 := 1] == s2.useBit;
    FaultAt(rf, k, 1, s1, 1, 1, s2);
    assert Run(Clock, rf, k, 2) == Step(Clock, rf, 1, s1);
    assert s2.frames[0] == 0;
    assert Step(Clock, rf, 2, s2) == Filling(k, 2);
  }

  lemma FillOne(k: nat, rf: seq<int>, m: nat, s: State, next: State)
    requires 1 < m < k && rf == Worst(k) && s == Filling(k, m) && next == Step(Clock, rf, m + 1, s)
    ensures next == Filling(k, m + 1)
  {
    var t := Filling(k, m + 1);
    assert s.frames[m := m] == t.frames;
    assert Cleared(s.useBit, m - 1, 1)[m := 1] == t.useBit;
    FaultAt(rf, k, m + 1, s, 1, m, t);
  }

  /** The fault that passes slot 0 and comes to slot 1. */
  lemma TurnBegins(k: nat, rf: seq<int>, s: State, next: State)
    requires k > 1 && rf == Worst(k) && s == Filling(k, k) && next == Step(Clock, rf, k + 1, s)
    ensures next == Turning(k, 1)
  {
    var t := Turning(k, 1);
    assert s.frames[1 := k] == t.frames;
    assert Cleared(s.useBit, k - 1, 2)[1 := 1] == t.useBit;
    FaultAt(rf, k, k + 1, s, 2, 1, t);
  }

  lemma TurnOne(k: nat, rf: seq<int>, m: nat, s: State, next: State)
    requires 0 < m < k - 1 && rf == Worst(k) && s == Turning(k, m) && next == Step(Clock, rf, k + 1 + m, s)
    ensures next == Turning(k, m + 1)
  {
    var t := Turning(k, m + 1);
    assert s.frames[m + 1 := m] == t.frames;
    assert Cleared(s.useBit, m, 1)[m + 1 := 1] == t.useBit;
    FaultAt(rf, k, k + 1 + m, s, 1, m + 1, t);
  }

  /** Where clock stands after i of these references. */
  ghost predicate OnWorst(k: nat, i: nat, s: State)
    requires k > 1
  {
    && i >= 3
    && (i <= k + 1 ==> s == Filling(k, i - 1))
    && (k + 1 < i <= 2 * k ==> s == Turning(k, i - k - 1))
  }

  lemma WorstStep(k: nat, rf: seq<int>, i: nat, s: State)
    requires k > 1 && rf == Worst(k) && i < |rf| && s.Valid(k) && OnWorst(k, i, s)
    ensures OnWorst(k, i + 1, Step(Clock, rf, i, s))
  {
    var t := Step(Clock, rf, i, s);
    if i <= k {
      FillOne(k, rf, i - 1, s, t);
    } else if i == k + 1 {
      TurnBegins(k, rf, s, t);
    } else if i < 2 * k {
      TurnOne(k, rf, i - k - 1, s, t);
    }
  }

  lemma WorstRun(k: nat, rf: seq<int>)
    requires k > 1 && rf == Worst(k)
    ensures Run(Clock, rf, k, 2 * k) == Turning(k, k - 1)
  {
    var holds := (i: nat, s: State) => OnWorst(k, i, s);
    FirstThree(k, rf);
    forall i: nat, s: State | i < |rf| && s.Valid(k) && holds(i, s)
      ensures holds(i + 1, Step(Clock, rf, i, s))
    {
      WorstStep(k, rf, i, s);
    }
    HoldsThroughout(Clock, rf, k, holds, 3, 2 * k);
  }

  lemma WorstWindow(k: nat, rf: seq<int>)
    requires k > 1 && rf == Worst(k)
    ensures |Distinct(rf, 3, 2 * k + 1)| == k && Proper(Clock, rf)
  {
    var window := Distinct(rf, 3, 2 * k + 1);
    forall p
      ensures p in window <==> p in Range(k + 1) - {0}
    {
      if p in Range(k + 1) - {0} {
        assert rf[if p == 1 then k + 2 else p + 1] == p;
      }
    }
    assert window == Range(k + 1) - {0};
  }

  /** With any number of frames from two on, some window of k distinct pages costs 2k - 2 faults. */
  lemma ClockBoundIsReached(k: nat) returns (rf: seq<int>, s: nat, j: nat)
    requires k > 1
    ensures Proper(Clock, rf) && s <= j <= |rf| == 2 * k + 1 && |Distinct(rf, s, j)| == k
    ensures Run(Clock, rf, k, j).faults == Run(Clock, rf, k, s).faults + WindowFaults(k)
  {
    rf, s, j := Worst(k), 3, 2 * k + 1;
    WorstWindow(k, rf);
    FirstThree(k, rf);
    WorstRun(k, rf);
    LastTurn(k, rf, Run(Clock, rf, k, 2 * k), Run(Clock, rf, k, j));
  }

  lemma LastTurn(k: nat, rf: seq<int>, s: State, t: State)
    requires k > 1 && rf == Worst(k) && s == Turning(k, k - 1)
    requires s == Run(Clock, rf, k, 2 * k) && t == Run(Clock, rf, k, 2 * k + 1)
    ensures t.faults == 2 * k
  {
    RunNext(Clock, rf, k, 2 * k, s, t);
    assert rf[2 * k] !in s.frames;
  }

  /**
   * At most one fault per distinct page of a window, the bound that makes LRU
   * and FIFO k-competitive, holds for clock if and only if there are at most two frames.
   */
  lemma ClockWindowBoundIff(k: nat)
    requires k > 0
    ensures (forall rf: seq<int>, s: nat, j: nat :: Proper(Clock, rf) && s <= j <= |rf| ==>
               Competitive.WindowBound(rf, k, CachesOf(Clock, rf, k), s, j)) <==> k <= 2
  {
    if k <= 2 {
      forall rf: seq<int>, s: nat, j: nat | Proper(Clock, rf) && s <= j <= |rf|
        ensures Competitive.WindowBound(rf, k, CachesOf(Clock, rf, k), s, j)
      {
        if |Distinct(rf, s, j)| <= k {
          ClockWindowFaults(rf, k, s, j, CachesOf(Clock, rf, k));
        }
      }
    } else {
      var rf, s, j := ClockBoundIsReached(k);
      CountsItsFaults(Clock, rf, k, CachesOf(Clock, rf, k), s, Run(Clock, rf, k, s));
      CountsItsFaults(Clock, rf, k, CachesOf(Clock, rf, k), j, Run(Clock, rf, k, j));
      assert !Competitive.WindowBound(rf, k, CachesOf(Clock, rf, k), s, j);
    }
  }
}
