/** The clock policy: its sweep, how it fills memory, and the small-string case for all four policies. */
module ClockSweep {
  import opened Paging
  import opened DemandPaging
  import Belady
  import Competitive

  /** The slot the sweep stops at is the first clear one from the hand, or the hand itself if none is. */
  lemma SweepVictim(bits: seq<int>, hand: nat)
    requires hand < |bits|
    ensures var n := SweepLength(bits, hand, 0);
      var v := Ahead(|bits|, hand, n);
      && (forall i :: 0 <= i < |bits| && Distance(|bits|, hand, i) < n ==> bits[i] != 0)
      && (if forall i :: 0 <= i < |bits| ==> bits[i] != 0 then v == hand && n == |bits|
          else bits[v] == 0 && n == Distance(|bits|, hand, v))
      && Cleared(bits, hand, n)[v] == 0
      && forall i :: 0 <= i < |bits| ==>
           Cleared(bits, hand, n)[i] == if Distance(|bits|, hand, i) < n then 0 else bits[i]
  {
    var k, n := |bits|, SweepLength(bits, hand, 0);
    forall i | 0 <= i < k && Distance(k, hand, i) < n
      ensures bits[i] != 0
    {
      assert bits[Ahead(k, hand, Distance(k, hand, i))] != 0;
    }
  }

  /** With f faults so far, at most k, slots 0..f-1 are filled, the others untouched, the hand on the last one filled. */
  ghost predicate FilledInOrder(s: State, k: nat) {
    s.Valid(k) && (s.faults <= k ==>
    && (forall i :: 0 <= i < k ==> (s.frames[i] == EMPTY <==> i >= s.faults))
    && (forall i :: s.faults <= i < k ==> s.useBit[i] == 0)
    && s.hand == (if s.faults == 0 then 0 else s.faults - 1)
    && (s.faults > 0 ==> s.useBit[s.hand] != 0))
  }

  lemma FillStep(rf: seq<int>, k: nat, j: nat, s: State, next: State)
    requires FilledInOrder(s, k) && j < |rf| && Proper(Clock, rf)
    requires next == Step(Clock, rf, j, s)
    ensures FilledInOrder(next, k)
    ensures rf[j] !in s.frames && s.faults < k ==> Victim(Clock, rf, j, s) == s.faults
  {
    if rf[j] !in s.frames && s.faults < k {
      if s.faults == 0 {
        assert SweepLength(s.useBit, s.hand, 0) == 0;
      } else {
        assert Ahead(k, s.hand, 1) == s.faults;
        assert SweepLength(s.useBit, s.hand, 1) == 1;
        assert SweepLength(s.useBit, s.hand, 0) == 1;
      }
    }
  }

  /** The first k faults of clock fill slots 0..k-1 in order, whatever hits come between. */
  lemma {:induction false} ClockFillsInOrder(rf: seq<int>, k: nat, j: nat)
    requires k > 0 && j < |rf| && Proper(Clock, rf)
    requires rf[j] !in Run(Clock, rf, k, j).frames && Run(Clock, rf, k, j).faults < k
    ensures Victim(Clock, rf, j, Run(Clock, rf, k, j)) == Run(Clock, rf, k, j).faults
  {
    var s := Run(Clock, rf, k, j);
    ClockFilled(rf, k, j);
    FillStep(rf, k, j, s, Step(Clock, rf, j, s));
  }

  lemma ClockFilled(rf: seq<int>, k: nat, j: nat)
    requires k > 0 && j <= |rf| && Proper(Clock, rf)
    ensures FilledInOrder(Run(Clock, rf, k, j), k)
  {
    var holds := (i: nat, s: State) => FilledInOrder(s, k);
    forall i: nat, s: State | i < |rf| && s.Valid(k) && holds(i, s)
      ensures holds(i + 1, Step(Clock, rf, i, s))
    {
      FillStep(rf, k, i, s, Step(Clock, rf, i, s));
    }
    HoldsThroughout(Clock, rf, k, holds, 0, j);
  }

  /** While a frame is empty, nothing is evicted. */
  lemma EmptyVictim(rf: seq<int>, k: nat, j: nat, s: State)
    requires k > 0 && j < |rf| && Proper(Clock, rf) && s == Run(Clock, rf, k, j) && s.faults < k
    requires rf[j] !in s.frames
    ensures s.frames[Victim(Clock, rf, j, s)] == EMPTY
  {
    ClockFilled(rf, k, j);
    FillStep(rf, k, j, s, Step(Clock, rf, j, s));
  }

  lemma ClockKeepsAll(rf: seq<int>, k: nat, j: nat, s: State, t: State, pages: set<int>)
    requires k > 0 && j < |rf| && Proper(Clock, rf) && s == Run(Clock, rf, k, j) && t == Run(Clock, rf, k, j + 1)
    requires s.faults == |pages| && Pages(s.frames) == pages && |pages + {rf[j]}| <= k
    ensures t.faults == |pages + {rf[j]}| && Pages(t.frames) == pages + {rf[j]}
  {
    NeverTwice(Clock, rf, k, j);
    StepEffect(Clock, rf, k, j, s, t);
    if rf[j] in s.frames {
      assert pages + {rf[j]} == pages;
    } else {
      assert |pages + {rf[j]}| == |pages| + 1;
      EmptyVictim(rf, k, j, s);
    }
  }

  /** While the distinct pages fit, clock holds all of them. */
  lemma {:induction false} ClockHoldsAll(rf: seq<int>, k: nat, j: nat)
    requires k > 0 && j <= |rf| && Proper(Clock, rf) && |Distinct(rf, 0, j)| <= k
    ensures Run(Clock, rf, k, j).faults == |Distinct(rf, 0, j)|
    ensures Cache(Clock, rf, k, j) == Distinct(rf, 0, j)
  {
    if j > 0 {
      DistinctGrows(rf, 0, j - 1);
      ClockHoldsAll(rf, k, j - 1);
      ClockKeepsAll(rf, k, j - 1, Run(Clock, rf, k, j - 1), Run(Clock, rf, k, j), Distinct(rf, 0, j - 1));
    } else {
      assert Cache(Clock, rf, k, 0) == {} == Distinct(rf, 0, 0);
    }
  }

  /** No policy faults less than once per distinct page, and none more often if they all fit. */
  lemma DistinctPagesBound(policy: Policy, rf: seq<int>, k: nat)
    requires k > 0 && Proper(policy, rf)
    ensures Faults(policy, rf, k) >= |Distinct(rf, 0, |rf|)|
    ensures |Distinct(rf, 0, |rf|)| <= k ==> Faults(policy, rf, k) == |Distinct(rf, 0, |rf|)|
    decreases policy.Optimal?
  {
    EveryPolicyPagesOnDemand(policy, rf, k);
    AtLeastDistinct(rf, k, CachesOf(policy, rf, k), |rf|);
    if |Distinct(rf, 0, |rf|)| <= k {
      match policy {
        case Clock => ClockHoldsAll(rf, k, |rf|);
        case Optimal =>
          DistinctPagesBound(Lru, rf, k);
          Belady.OptimalBeatsThePolicies(rf, k, Lru);
        case _ =>
          Competitive.WindowOf(policy, rf, k, 0, |rf|);
          CountsItsFaults(policy, rf, k, CachesOf(policy, rf, k), 0, Initial(k));
      }
    }
  }
}
