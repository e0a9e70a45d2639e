/** Belady's theorem: no way of paging on demand with as many frames faults less often than `optimal`. */
module Belady {
  import opened Sets
  import opened Paging
  import opened DemandPaging

  /** The pages of a cache that are used again in rf[j..t], ends included. */
  ghost function Soon(rf: seq<int>, j: nat, cache: set<int>, t: nat): set<int>
    requires j <= |rf| <= MAX_REFS
  {
    set p | p in cache && NextUse(rf, j, p) <= t
  }

  /** The adversary is never ahead at any deadline by more than the faults it has had in excess. */
  ghost predicate NoBetterOff(rf: seq<int>, k: nat, caches: seq<set<int>>, j: nat)
    requires k > 0 && j <= |rf| <= MAX_REFS && |caches| == |rf| + 1
  {
    var ours := Run(Optimal, rf, k, j).faults;
    var theirs := FaultsOf(rf, caches, j);
    && ours <= theirs
    && forall t {:trigger Soon(rf, j, caches[j], t)} :: j <= t < |rf| ==>
         |Soon(rf, j, caches[j], t)| + ours <= |Soon(rf, j, Cache(Optimal, rf, k, j), t)| + theirs
  }

  function One(b: bool): nat { if b then 1 else 0 }

  /** Passing one reference changes the next use of the referenced page only. */
  lemma SoonNext(rf: seq<int>, j: nat, cache: set<int>, t: nat)
    requires j < t < |rf| <= MAX_REFS && rf[j] in cache
    ensures Soon(rf, j + 1, cache, t)
         == Soon(rf, j, cache - {rf[j]}, t) + if NextUse(rf, j + 1, rf[j]) <= t then {rf[j]} else {}
    ensures Soon(rf, j, cache, t) == Soon(rf, j, cache - {rf[j]}, t) + {rf[j]}
    ensures rf[j] !in Soon(rf, j, cache - {rf[j]}, t)
  {
    SoonWith(rf, j + 1, cache, rf[j], t);
    SoonWith(rf, j, cache, rf[j], t);
    OthersStaySoon(rf, j, cache - {rf[j]}, t);
  }

  lemma SoonWith(rf: seq<int>, j: nat, cache: set<int>, x: int, t: nat)
    requires j <= |rf| <= MAX_REFS && x in cache
    ensures Soon(rf, j, cache, t) == Soon(rf, j, cache - {x}, t) + if NextUse(rf, j, x) <= t then {x} else {}
  {
  }

  lemma OthersStaySoon(rf: seq<int>, j: nat, cache: set<int>, t: nat)
    requires j < |rf| <= MAX_REFS && rf[j] !in cache
    ensures Soon(rf, j + 1, cache, t) == Soon(rf, j, cache, t) && rf[j] !in Soon(rf, j, cache, t)
  {
    forall p | p in cache
      ensures NextUse(rf, j, p) == NextUse(rf, j + 1, p)
    {
    }
  }

  /** What a reference does to the count of any cache that only loads the referenced page. */
  lemma SoonShrinks(rf: seq<int>, j: nat, before: set<int>, after: set<int>, t: nat)
    requires j < t < |rf| <= MAX_REFS
    requires Serves(|after|, rf[j], before, after)
    ensures |Soon(rf, j + 1, after, t)| + One(rf[j] in before)
         <= |Soon(rf, j, before, t)| + One(NextUse(rf, j + 1, rf[j]) <= t)
    ensures |Soon(rf, j + 1, after, t)| <= |after| - 1 + One(NextUse(rf, j + 1, rf[j]) <= t)
  {
    var x := rf[j];
    SoonNext(rf, j, after, t);
    var others := Soon(rf, j, after - {x}, t);
    SubsetSize(others, after - {x});
    if x in before {
      SoonNext(rf, j, before, t);
      SubsetSize(others, Soon(rf, j, before - {x}, t));
    } else {
      SubsetSize(others, Soon(rf, j, before, t));
    }
  }

  /** On a fault `optimal` loses nothing before the victim's next use, and from then on it is full. */
  lemma VictimIsHarmless(rf: seq<int>, k: nat, j: nat, t: nat, s: State, next: State)
    requires Proper(Optimal, rf) && j < t < |rf| && s.Valid(k) && NoDuplicates(s.frames) && rf[j] !in s.frames
    requires next == Step(Optimal, rf, j, s)
    ensures var after := |Soon(rf, j + 1, Pages(next.frames), t)|;
      var again := One(NextUse(rf, j + 1, rf[j]) <= t);
      after >= |Soon(rf, j, Pages(s.frames), t)| + again || after >= k - 1 + again
  {
    var y := s.frames[Victim(Optimal, rf, j, s)];
    StepEffect(Optimal, rf, k, j, s, next);
    AfterFault(rf, j, Pages(s.frames) - {y}, Pages(next.frames), t);
    if t >= NextUse(rf, j, y) {
      AllSoon(rf, k, j, s, t);
    }
    WithoutVictim(rf, j, Pages(s.frames), y, t);
  }

  /** A cache that gains the referenced page. */
  lemma AfterFault(rf: seq<int>, j: nat, others: set<int>, after: set<int>, t: nat)
    requires j < t < |rf| <= MAX_REFS && rf[j] !in others && after == others + {rf[j]}
    ensures |Soon(rf, j + 1, after, t)| == |Soon(rf, j, others, t)| + One(NextUse(rf, j + 1, rf[j]) <= t)
  {
    SoonNext(rf, j, after, t);
    assert after - {rf[j]} == others;
  }

  /** A cache that gives up a page not used again by t, or one of whose pages are all used again by t. */
  lemma WithoutVictim(rf: seq<int>, j: nat, cache: set<int>, y: int, t: nat)
    requires j <= |rf| <= MAX_REFS
    ensures NextUse(rf, j, y) > t ==> Soon(rf, j, cache - {y}, t) == Soon(rf, j, cache, t)
    ensures (forall p :: p in cache ==> NextUse(rf, j, p) <= t) ==> |Soon(rf, j, cache - {y}, t)| >= |cache| - 1
  {
    if forall p :: p in cache ==> NextUse(rf, j, p) <= t {
      assert Soon(rf, j, cache - {y}, t) == cache - {y};
    }
  }

  /** When even the victim is used again by t, all frames are in use and used again by t. */
  lemma AllSoon(rf: seq<int>, k: nat, j: nat, s: State, t: nat)
    requires Proper(Optimal, rf) && j < t < |rf| && s.Valid(k) && NoDuplicates(s.frames)
    requires NextUse(rf, j, s.frames[Victim(Optimal, rf, j, s)]) <= t
    ensures forall p :: p in s.frames ==> NextUse(rf, j, p) <= t
    ensures EMPTY !in s.frames && |Pages(s.frames)| == k
  {
    var uses := NextUses(rf, j, s.frames);
    forall p | p in s.frames
      ensures NextUse(rf, j, p) <= t && p != EMPTY
    {
      var i :| 0 <= i < k && s.frames[i] == p;
      assert uses[i] <= uses[Victim(Optimal, rf, j, s)] <= t;
    }
    PagesBound(s.frames);
  }

  /** If only `optimal` faults, the adversary already had a fault in excess. */
  lemma ExcessFault(rf: seq<int>, k: nat, caches: seq<set<int>>, j: nat)
    requires k > 0 && Proper(Optimal, rf) && j < |rf| && |caches| == |rf| + 1 && NoBetterOff(rf, k, caches, j)
    requires rf[j] in caches[j] && rf[j] !in Run(Optimal, rf, k, j).frames
    ensures Run(Optimal, rf, k, j).faults < FaultsOf(rf, caches, j)
  {
    assert rf[j] in Soon(rf, j, caches[j], j);
    assert Soon(rf, j, Cache(Optimal, rf, k, j), j) == {};
  }

  lemma StaysBehind(rf: seq<int>, k: nat, caches: seq<set<int>>, j: nat, t: nat)
    requires k > 0 && Proper(Optimal, rf) && j < t < |rf|
    requires |caches| == |rf| + 1 && Serves(k, rf[j], caches[j], caches[j + 1])
    requires NoBetterOff(rf, k, caches, j) && NoDuplicates(Run(Optimal, rf, k, j).frames)
    ensures |Soon(rf, j + 1, caches[j + 1], t)| + Run(Optimal, rf, k, j + 1).faults
         <= |Soon(rf, j + 1, Cache(Optimal, rf, k, j + 1), t)| + FaultsOf(rf, caches, j + 1)
  {
    StepEffect(Optimal, rf, k, j, Run(Optimal, rf, k, j), Run(Optimal, rf, k, j + 1));
    SoonShrinks(rf, j, caches[j], caches[j + 1], t);
    assert |Soon(rf, j, caches[j], t)| + Run(Optimal, rf, k, j).faults
        <= |Soon(rf, j, Cache(Optimal, rf, k, j), t)| + FaultsOf(rf, caches, j);
    if rf[j] in Run(Optimal, rf, k, j).frames {
      SoonNext(rf, j, Cache(Optimal, rf, k, j), t);
    } else {
      VictimIsHarmless(rf, k, j, t, Run(Optimal, rf, k, j), Run(Optimal, rf, k, j + 1));
      if rf[j] in caches[j] {
        ExcessFault(rf, k, caches, j);
      }
    }
  }

  /** The adversary's faults do not fall behind. */
  lemma FaultsStayBehind(rf: seq<int>, k: nat, caches: seq<set<int>>, j: nat, s: State, t: State)
    requires k > 0 && Proper(Optimal, rf) && j < |rf| && |caches| == |rf| + 1 && NoBetterOff(rf, k, caches, j)
    requires s == Run(Optimal, rf, k, j) && t == Run(Optimal, rf, k, j + 1) && NoDuplicates(s.frames)
    ensures t.faults <= FaultsOf(rf, caches, j + 1)
  {
    StepEffect(Optimal, rf, k, j, s, t);
    if rf[j] in caches[j] && rf[j] !in s.frames {
      ExcessFault(rf, k, caches, j);
    }
  }

  lemma {:induction false} StaysNoBetterOff(rf: seq<int>, k: nat, caches: seq<set<int>>, j: nat, next: nat)
    requires k > 0 && Proper(Optimal, rf) && j < |rf| && next == j + 1 && IsDemandPaging(rf, k, caches)
    requires NoBetterOff(rf, k, caches, j)
    ensures NoBetterOff(rf, k, caches, next)
  {
    NeverTwice(Optimal, rf, k, j);
    assert Serves(k, rf[j], caches[j], caches[j + 1]);
    FaultsStayBehind(rf, k, caches, j, Run(Optimal, rf, k, j), Run(Optimal, rf, k, next));
    forall t {:trigger Soon(rf, next, caches[next], t)} | next <= t < |rf|
      ensures |Soon(rf, next, caches[next], t)| + Run(Optimal, rf, k, next).faults
           <= |Soon(rf, next, Cache(Optimal, rf, k, next), t)| + FaultsOf(rf, caches, next)
    {
      StaysBehind(rf, k, caches, j, t);
    }
  }

  lemma {:induction false} NeverBetterOff(rf: seq<int>, k: nat, caches: seq<set<int>>, j: nat)
    requires k > 0 && Proper(Optimal, rf) && j <= |rf| && IsDemandPaging(rf, k, caches)
    ensures NoBetterOff(rf, k, caches, j)
  {
    if j > 0 {
      NeverBetterOff(rf, k, caches, j - 1);
      StaysNoBetterOff(rf, k, caches, j - 1, j);
    } else {
      assert Cache(Optimal, rf, k, 0) == {};
    }
  }

  /** Belady optimality over every demand paging, at every point of the reference string. */
  lemma OptimalIsOptimal(rf: seq<int>, k: nat, caches: seq<set<int>>, j: nat)
    requires k > 0 && Proper(Optimal, rf) && j <= |rf| && IsDemandPaging(rf, k, caches)
    ensures Run(Optimal, rf, k, j).faults <= FaultsOf(rf, caches, j)
  {
    NeverBetterOff(rf, k, caches, j);
  }

  lemma OptimalBeatsThePolicies(rf: seq<int>, k: nat, policy: Policy)
    requires k > 0 && Proper(Optimal, rf)
    ensures Faults(Optimal, rf, k) <= Faults(policy, rf, k)
  {
    EveryPolicyPagesOnDemand(policy, rf, k);
    OptimalIsOptimal(rf, k, CachesOf(policy, rf, k), |rf|);
  }

  /** An adversary with no more frames does no better either, so more frames never hurt `optimal`. */
  lemma MoreFramesNeverHurtOptimal(rf: seq<int>, k: nat, larger: nat)
    requires 0 < k <= larger && Proper(Optimal, rf)
    ensures Faults(Optimal, rf, larger) <= Faults(Optimal, rf, k)
  {
    EveryPolicyPagesOnDemand(Optimal, rf, k);
    OptimalIsOptimal(rf, larger, CachesOf(Optimal, rf, k), |rf|);
  }
}
