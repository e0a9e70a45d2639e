/**
 * The simulator itself: four procedures over one frame array, with their victim
 * searches.  Each procedure is proved against the states of the machine in
 * Paging, reference by reference: the frames, the use bits, the hand and the
 * counters are those of the machine's next state.  All four share the frame
 * array, which each of them empties first.
 */
module PageReplacementSimulator {
  import opened Paging
  import DemandPaging
  import Belady
  import Competitive

  const MAX := 1000  // the size of every buffer

  /** Scans the frames for page `p`. */
  method Lookup(k: nat, frames: array<int>, p: int) returns (i: int)
    requires k <= frames.Length
    ensures i == Slot(frames[..k], p)
  {
    i := 0;
    while i < k
      invariant 0 <= i <= k
      invariant p !in frames[..i]
    {
      if frames[i] == p {
        SlotIs(frames[..k], p, i);
        return;
      }
      i := i + 1;
    }
    i := -1;
  }

  lemma {:induction false} SlotIs(frames: seq<int>, p: int, i: nat)
    requires i < |frames| && frames[i] == p && p !in frames[..i]
    ensures Slot(frames, p) == i
  {
    if i > 0 {
      assert frames[0] == frames[..i][0];
      assert frames[1..][..i - 1] == frames[..i][1..];
      SlotIs(frames[1..], p, i - 1);
    }
  }

  /** The frame whose page is referenced again last; `whenRecall` is scratch space. */
  method CalculateReplacementOptimal(current: nat, k: nat, frames: array<int>, rf: seq<int>, whenRecall: array<int>)
    returns (v: nat)
    requires 0 < k <= MAX && k <= frames.Length && k <= whenRecall.Length && frames != whenRecall
    requires current < |rf| <= MAX_REFS
    modifies whenRecall
    ensures v == FirstMax(NextUses(rf, current, frames[..k]))
  {
    for i := 0 to k
      invariant forall a :: 0 <= a < i ==> whenRecall[a] == NextUse(rf, current, frames[a])
    {
      FindNextUse(current, frames[i], i, rf, whenRecall);
    }
    assert whenRecall[..k] == NextUses(rf, current, frames[..k]);
    v := FindLargest(k, whenRecall);
  }

  /** The search for the first of the largest values. */
  method FindLargest(k: nat, values: array<int>) returns (v: nat)
    requires 0 < k <= values.Length && forall a :: 0 <= a < k ==> values[a] > -1
    ensures v == FirstMax(values[..k])
  {
    var max := -1;
    var best := -1;
    for i := 0 to k
      invariant if i == 0 then max == best == -1
                else 0 <= best < i && max == values[best] && best == FirstMax(values[..i])
    {
      assert values[..i + 1][..i] == values[..i];
      if values[i] > max {
        max, best := values[i], i;
      }
    }
    v := best;
  }

  /** The inner search for the next use of `page`. */
  method FindNextUse(current: nat, page: int, i: nat, rf: seq<int>, whenRecall: array<int>)
    requires i < whenRecall.Length && current < |rf| <= MAX_REFS
    modifies whenRecall
    ensures whenRecall[..] == old(whenRecall[..])[i := NextUse(rf, current, page)]
  {
    var j := current;
    while j < |rf|
      invariant current <= j <= |rf|
      invariant NextUse(rf, current, page) == NextUse(rf, j, page)
      invariant j > current ==> whenRecall[..] == old(whenRecall[..])[i := NEVER]
      invariant j == current ==> whenRecall[..] == old(whenRecall[..])
    {
      if page == rf[j] {
        whenRecall[i] := j;
        break;
      } else {
        whenRecall[i] := NEVER;
      }
      j := j + 1;
    }
  }

  /** The frame whose page was referenced longest ago; empty frames come first. */
  method CalculateReplacementLru(current: nat, k: nat, frames: array<int>, rf: seq<int>, whenRecall: array<int>)
    returns (v: nat)
    requires 0 < k <= MAX && k <= frames.Length && k <= whenRecall.Length && frames != whenRecall
    requires current < |rf| <= MAX_REFS
    modifies whenRecall
    ensures v == FirstMin(LastUses(rf, current + 1, frames[..k]))
  {
    for i := 0 to k
      invariant forall a :: 0 <= a < i ==> whenRecall[a] == LastUse(rf, current + 1, frames[a])
    {
      FindLastUse(current, frames[i], i, rf, whenRecall);
    }
    assert whenRecall[..k] == LastUses(rf, current + 1, frames[..k]);
    v := FindSmallest(k, whenRecall);
  }

  /** The search for the first of the smallest values. */
  method FindSmallest(k: nat, values: array<int>) returns (v: nat)
    requires 0 < k <= values.Length && forall a :: 0 <= a < k ==> values[a] < 1001
    ensures v == FirstMin(values[..k])
  {
    var min := 1001;
    var best := 1001;
    for i := 0 to k
      invariant if i == 0 then min == best == 1001
                else 0 <= best < i && min == values[best] && best == FirstMin(values[..i])
    {
      assert values[..i + 1][..i] == values[..i];
      if values[i] < min {
        min, best := values[i], i;
      }
    }
    v := best;
  }

  /** The inner search for the last use of `page`. */
  method FindLastUse(current: nat, page: int, i: nat, rf: seq<int>, whenRecall: array<int>)
    requires i < whenRecall.Length && current < |rf| <= MAX_REFS
    modifies whenRecall
    ensures whenRecall[..] == old(whenRecall[..])[i := LastUse(rf, current + 1, page)]
  {
    var j := current as int;
    while j > -1
      invariant -1 <= j <= current
      invariant LastUse(rf, current + 1, page) == LastUse(rf, j + 1, page)
      invariant j < current ==> whenRecall[..] == old(whenRecall[..])[i := -1]
      invariant j == current ==> whenRecall[..] == old(whenRecall[..])
    {
      whenRecall[i] := -1;
      if page == rf[j] {
        whenRecall[i] := j;
        break;
      }
      j := j - 1;
    }
  }

  /** The clock sweep, one probe a turn of the loop. */
  method CalculateReplacementClock(k: nat, useBit: array<int>, hand: nat) returns (v: nat, ghost probes: nat)
    requires hand < k <= useBit.Length
    modifies useBit
    ensures v == Ahead(k, hand, SweepLength(old(useBit[..k]), hand, 0))
    ensures useBit[..k] == Cleared(old(useBit[..k]), hand, SweepLength(old(useBit[..k]), hand, 0))
    ensures useBit[k..] == old(useBit[k..])
    ensures probes == SweepLength(old(useBit[..k]), hand, 0) + 1 <= k + 1
  {
    ghost var bits := useBit[..k];
    v, probes := hand, 1;
    SweepStarts(bits, hand);
    while useBit[v] != 0
      invariant 0 < probes <= k + 1 && Swept(bits, hand, probes - 1, useBit[..k], v)
      invariant useBit[k..] == old(useBit[k..])
      decreases k - probes
    {
      ghost var now := useBit[..k];
      SweepGoesOn(bits, hand, probes - 1, now, v);
      useBit[v] := 0;
      assert useBit[..k] == now[v := 0];
      v := (v + 1) % k;
      probes := probes + 1;
    }
    SweepEnds(bits, hand, probes - 1, useBit[..k], v);
  }

  /** After d slots have been passed: the hand is on slot v, their bits are clear, and the sweep is not over before that. */
  ghost predicate Swept(bits: seq<int>, hand: nat, d: nat, now: seq<int>, v: nat)
    requires hand < |bits| && d <= |bits|
  {
    v == Ahead(|bits|, hand, d) && now == Cleared(bits, hand, d) && SweepLength(bits, hand, 0) == SweepLength(bits, hand, d)
  }

  lemma SweepStarts(bits: seq<int>, hand: nat)
    requires hand < |bits|
    ensures Swept(bits, hand, 0, bits, hand)
  {
  }

  lemma SweepGoesOn(bits: seq<int>, hand: nat, d: nat, now: seq<int>, v: nat)
    requires hand < |bits| && d <= |bits| && Swept(bits, hand, d, now, v) && now[v] != 0
    ensures d < |bits| && Swept(bits, hand, d + 1, now[v := 0], (v + 1) % |bits|)
  {
    assert d == |bits| ==> v == hand;
    assert Distance(|bits|, hand, v) == if d == |bits| then 0 else d;
    NextPosition(|bits|, v);
    assert now[v := 0] == Cleared(bits, hand, d + 1);
  }

  lemma SweepEnds(bits: seq<int>, hand: nat, d: nat, now: seq<int>, v: nat)
    requires hand < |bits| && d <= |bits| && Swept(bits, hand, d, now, v) && now[v] == 0
    ensures SweepLength(bits, hand, 0) == d
  {
    assert d < |bits| ==> Distance(|bits|, hand, v) == d;
  }

  lemma NextPosition(k: nat, v: nat)
    requires v < k
    ensures (v + 1) % k == if v + 1 == k then 0 else v + 1
  {
  }

  /** Empties the frames; the last assignment hits the slot after the one it seems to aim at. */
  method Initialize(k: nat, frames: array<int>, stray: bool)
    requires 0 < k <= MAX == frames.Length && (stray ==> k != MAX - 1)
    modifies frames
    ensures frames[..k] == Initial(k).frames
    ensures forall i :: k <= i < MAX ==> frames[i] == if stray && i == k + 1 then EMPTY else old(frames[i])
  {
    for i := 0 to k
      invariant forall a :: 0 <= a < i ==> frames[a] == EMPTY
      invariant forall a :: i <= a < MAX ==> frames[a] == old(frames[a])
    {
      frames[i] := EMPTY;
    }
    if stray && k < MAX {
      frames[k + 1] := EMPTY;
    }
  }

  // ---- the four procedures ------------------------------------------------

  /** The machine's states, before each reference and after the last. */
  ghost predicate IsTrace(policy: Policy, rf: seq<int>, k: nat, run: seq<State>) {
    && 0 < k && InRange(policy, rf) && |run| == |rf| + 1
    && forall j {:trigger Run(policy, rf, k, j)} :: 0 <= j <= |rf| ==> run[j] == Run(policy, rf, k, j)
  }

  lemma Trace(policy: Policy, rf: seq<int>, k: nat) returns (run: seq<State>)
    requires 0 < k && InRange(policy, rf)
    ensures IsTrace(policy, rf, k, run) && run[0] == Initial(k)
  {
    run := seq(|rf| + 1, j requires 0 <= j <= |rf| => Run(policy, rf, k, j));
  }

  /** What one reference does to the machine, policy by policy. */
  lemma TraceStep(policy: Policy, rf: seq<int>, k: nat, run: seq<State>, j: nat)
    requires IsTrace(policy, rf, k, run) && j < |rf|
    ensures run[j].Valid(k)
    ensures run[j + 1] ==
      var s := run[j];
      var t := s.(faults := s.faults + 1);
      var i := Slot(s.frames, rf[j]);
      if i >= 0 then s.(hits := s.hits + 1, useBit := if policy.Clock? then s.useBit[i := 1] else s.useBit)
      else match policy
        case Optimal => t.(frames := s.frames[FirstMax(NextUses(rf, j, s.frames)) := rf[j]])
        case Lru => t.(frames := s.frames[FirstMin(LastUses(rf, j + 1, s.frames)) := rf[j]])
        case Fifo => t.(frames := s.frames[s.oldest := rf[j]], oldest := if s.oldest == k - 1 then 0 else s.oldest + 1)
        case Clock =>
          var n := SweepLength(s.useBit, s.hand, 0);
          var v := Ahead(k, s.hand, n);
          t.(frames := s.frames[v := rf[j]], useBit := Cleared(s.useBit, s.hand, n)[v := 1], hand := v)
  {
    assert Run(policy, rf, k, j + 1) == Step(policy, rf, j, Run(policy, rf, k, j));
  }

  method ReplaceOptimal(j: nat, k: nat, frames: array<int>, rf: seq<int>, whenRecall: array<int>)
    requires 0 < k <= MAX && k <= frames.Length && k <= whenRecall.Length && frames != whenRecall
    requires j < |rf| <= MAX_REFS
    modifies frames, whenRecall
    ensures frames[..k] == old(frames[..k])[FirstMax(NextUses(rf, j, old(frames[..k]))) := rf[j]]
  {
    ghost var before := frames[..k];
    var v := CalculateReplacementOptimal(j, k, frames, rf, whenRecall);
    frames[v] := rf[j];
    assert frames[..k] == before[v := rf[j]];
  }

  method RunOptimal(k: nat, frames: array<int>, rf: seq<int>) returns (fault: nat, hit: nat)
    requires 0 < k <= MAX == frames.Length && k != MAX - 1 && |rf| <= MAX_REFS
    modifies frames
    ensures fault == Faults(Optimal, rf, k) && hit == Run(Optimal, rf, k, |rf|).hits
    ensures frames[..k] == Run(Optimal, rf, k, |rf|).frames
  {
    fault, hit := 0, 0;
    var whenRecall := new int[MAX];
    Initialize(k, frames, true);
    ghost var run := Trace(Optimal, rf, k);
    for j := 0 to |rf|
      invariant frames[..k] == run[j].frames
      invariant fault == run[j].faults && hit == run[j].hits
    {
      TraceStep(Optimal, rf, k, run, j);
      var i := Lookup(k, frames, rf[j]);
      if i >= 0 {
        hit := hit + 1;
      } else {
        fault := fault + 1;
        ReplaceOptimal(j, k, frames, rf, whenRecall);
      }
    }
  }

  method ReplaceLru(j: nat, k: nat, frames: array<int>, rf: seq<int>, whenRecall: array<int>)
    requires 0 < k <= MAX && k <= frames.Length && k <= whenRecall.Length && frames != whenRecall
    requires j < |rf| <= MAX_REFS
    modifies frames, whenRecall
    ensures frames[..k] == old(frames[..k])[FirstMin(LastUses(rf, j + 1, old(frames[..k]))) := rf[j]]
  {
    ghost var before := frames[..k];
    var v := CalculateReplacementLru(j, k, frames, rf, whenRecall);
    frames[v] := rf[j];
    assert frames[..k] == before[v := rf[j]];
  }

  method RunLru(k: nat, frames: array<int>, rf: seq<int>) returns (fault: nat, hit: nat)
    requires 0 < k <= MAX == frames.Length && k != MAX - 1 && |rf| <= MAX_REFS
    modifies frames
    ensures fault == Faults(Lru, rf, k) && hit == Run(Lru, rf, k, |rf|).hits
    ensures frames[..k] == Run(Lru, rf, k, |rf|).frames
  {
    fault, hit := 0, 0;
    var whenRecall := new int[MAX];
    Initialize(k, frames, true);
    ghost var run := Trace(Lru, rf, k);
    for j := 0 to |rf|
      invariant frames[..k] == run[j].frames
      invariant fault == run[j].faults && hit == run[j].hits
    {
      TraceStep(Lru, rf, k, run, j);
      var i := Lookup(k, frames, rf[j]);
      if i >= 0 {
        hit := hit + 1;
      } else {
        fault := fault + 1;
        ReplaceLru(j, k, frames, rf, whenRecall);
      }
    }
  }

  method RunFifo(k: nat, frames: array<int>, rf: seq<int>) returns (fault: nat, hit: nat)
    requires 0 < k <= MAX == frames.Length && k != MAX - 1
    modifies frames
    ensures fault == Faults(Fifo, rf, k) && hit == Run(Fifo, rf, k, |rf|).hits
    ensures frames[..k] == Run(Fifo, rf, k, |rf|).frames
  {
    fault, hit := 0, 0;
    var oldest := 0;
    Initialize(k, frames, true);
    ghost var run := Trace(Fifo, rf, k);
    for j := 0 to |rf|
      invariant frames[..k] == run[j].frames && oldest == run[j].oldest
      invariant fault == run[j].faults && hit == run[j].hits
    {
      TraceStep(Fifo, rf, k, run, j);
      var i := Lookup(k, frames, rf[j]);
      if i >= 0 {
        hit := hit + 1;
      } else {
        fault := fault + 1;
        var v := oldest;
        if oldest == k - 1 {
          oldest := 0;
        } else {
          oldest := oldest + 1;
        }
        frames[v] := rf[j];
        assert frames[..k] == run[j].frames[v := rf[j]];
      }
    }
  }

  method ReplaceClock(k: nat, frames: array<int>, useBit: array<int>, hand: nat, page: int) returns (v: nat)
    requires hand < k <= frames.Length && k <= useBit.Length && frames != useBit
    modifies frames, useBit
    ensures v == Ahead(k, hand, SweepLength(old(useBit[..k]), hand, 0))
    ensures frames[..k] == old(frames[..k])[v := page]
    ensures useBit[..k] == Cleared(old(useBit[..k]), hand, SweepLength(old(useBit[..k]), hand, 0))[v := 1]
  {
    ghost var before := frames[..k];
    ghost var probes;
    v, probes := CalculateReplacementClock(k, useBit, hand);
    ghost var bits := useBit[..k];
    frames[v] := page;
    useBit[v] := 1;
    assert frames[..k] == before[v := page] && useBit[..k] == bits[v := 1];
  }

  method RunClock(k: nat, frames: array<int>, rf: seq<int>) returns (fault: nat, hit: nat)
    requires 0 < k <= MAX == frames.Length
    modifies frames
    ensures fault == Faults(Clock, rf, k) && hit == Run(Clock, rf, k, |rf|).hits
    ensures frames[..k] == Run(Clock, rf, k, |rf|).frames
  {
    fault, hit := 0, 0;
    var useBit := new int[MAX](_ => 0);
    var hand := 0;
    Initialize(k, frames, false);
    ghost var run := Trace(Clock, rf, k);
    for j := 0 to |rf|
      invariant frames[..k] == run[j].frames
      invariant useBit[..k] == run[j].useBit && hand == run[j].hand
      invariant fault == run[j].faults && hit == run[j].hits
    {
      TraceStep(Clock, rf, k, run, j);
      var i := Lookup(k, frames, rf[j]);
      if i >= 0 {
        hit := hit + 1;
        useBit[i] := 1;
        assert useBit[..k] == run[j].useBit[i := 1];
      } else {
        fault := fault + 1;
        hand := ReplaceClock(k, frames, useBit, hand, rf[j]);
      }
    }
  }

  /** The whole program: each procedure reuses the same frame array. */
  method RunAll(k: nat, rf: seq<int>) returns (optimal: nat, fifo: nat, lru: nat, clock: nat)
    requires 0 < k <= MAX && k != MAX - 1 && Proper(Optimal, rf)
    ensures optimal == Faults(Optimal, rf, k) && fifo == Faults(Fifo, rf, k)
    ensures lru == Faults(Lru, rf, k) && clock == Faults(Clock, rf, k)
    ensures optimal <= fifo && optimal <= lru && optimal <= clock
    ensures lru <= k * optimal && fifo <= k * optimal
    ensures |Distinct(rf, 0, |rf|)| <= optimal
  {
    var frames := new int[MAX];
    var hits;
    optimal, hits := RunOptimal(k, frames, rf);
    fifo, hits := RunFifo(k, frames, rf);
    lru, hits := RunLru(k, frames, rf);
    clock, hits := RunClock(k, frames, rf);
    Belady.OptimalBeatsThePolicies(rf, k, Fifo);
    Belady.OptimalBeatsThePolicies(rf, k, Lru);
    Belady.OptimalBeatsThePolicies(rf, k, Clock);
    Competitive.KTimesOptimal(Fifo, rf, k);
    Competitive.KTimesOptimal(Lru, rf, k);
    DemandPaging.EveryPolicyPagesOnDemand(Optimal, rf, k);
    DemandPaging.AtLeastDistinct(rf, k, DemandPaging.CachesOf(Optimal, rf, k), |rf|);
  }
}
