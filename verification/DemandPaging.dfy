/**
 * What it means to page on demand, independently of any policy: a sequence of
 * caches, one before each reference and one after the last.
 */
module DemandPaging {
  import opened Sets
  import opened Paging

  /** Starts empty, never holds more than `k` pages, loads a page only when it is referenced. */
  ghost predicate IsDemandPaging(rf: seq<int>, k: nat, caches: seq<set<int>>) {
    && |caches| == |rf| + 1
    && caches[0] == {}
    && forall j {:trigger rf[j]} :: 0 <= j < |rf| ==> Serves(k, rf[j], caches[j], caches[j + 1])
  }

  /** Page `p` is served: it ends up cached, and nothing else was brought in. */
  ghost predicate Serves(k: nat, p: int, before: set<int>, after: set<int>) {
    p in after && after <= before + {p} && |after| <= k
  }

  /** The number of faults among the first `j` references. */
  ghost function FaultsOf(rf: seq<int>, caches: seq<set<int>>, j: nat): nat
    requires j <= |rf| < |caches|
  {
    if j == 0 then 0
    else FaultsOf(rf, caches, j - 1) + if rf[j - 1] in caches[j - 1] then 0 else 1
  }

  ghost function CachesOf(policy: Policy, rf: seq<int>, k: nat): seq<set<int>>
    requires k > 0 && InRange(policy, rf)
  {
    seq(|rf| + 1, j requires 0 <= j <= |rf| => Cache(policy, rf, k, j))
  }

  /** No page occupies two frames. */
  ghost predicate NoDuplicates(frames: seq<int>) {
    forall a, b :: 0 <= a < b < |frames| && frames[a] == frames[b] ==> frames[a] == EMPTY
  }

  lemma {:induction false} PagesBound(frames: seq<int>)
    ensures |Pages(frames)| <= |frames|
    ensures NoDuplicates(frames) && EMPTY !in frames ==> |Pages(frames)| == |frames|
    ensures EMPTY in frames ==> |Pages(frames)| < |frames|
  {
    if frames != [] {
      var n := |frames| - 1;
      PagesBound(frames[..n]);
      assert frames == frames[..n] + [frames[n]];
      assert Pages(frames) == Pages(frames[..n]) + if frames[n] == EMPTY then {} else {frames[n]};
    } else {
      assert Pages(frames) == {};
    }
  }

  /** Loading a page that no frame holds: it appears, and only the victim's page leaves. */
  lemma Replace(frames: seq<int>, v: nat, p: int)
    requires v < |frames| && NoDuplicates(frames) && p !in frames && p != EMPTY
    ensures NoDuplicates(frames[v := p])
    ensures Pages(frames[v := p]) == Pages(frames) - {frames[v]} + {p}
  {
    var after := frames[v := p];
    forall q | q in Pages(frames) - {frames[v]} + {p}
      ensures q in after
    {
      if q != p {
        var i :| 0 <= i < |frames| && frames[i] == q;
        assert after[i] == q;
      } else {
        assert after[v] == p;
      }
    }
  }

  /** One step of any policy, seen from outside. */
  lemma StepEffect(policy: Policy, rf: seq<int>, k: nat, j: nat, s: State, t: State)
    requires j < |rf| && Proper(policy, rf) && s.Valid(k) && NoDuplicates(s.frames) && t == Step(policy, rf, j, s)
    ensures NoDuplicates(t.frames)
    ensures if rf[j] in s.frames then t.frames == s.frames && t.faults == s.faults && t.hits == s.hits + 1
      else var v := Victim(policy, rf, j, s);
           && t.frames == s.frames[v := rf[j]] && t.faults == s.faults + 1 && t.hits == s.hits
           && Pages(t.frames) == Pages(s.frames) - {s.frames[v]} + {rf[j]}
  {
    if rf[j] !in s.frames {
      Replace(s.frames, Victim(policy, rf, j, s), rf[j]);
    }
  }

  lemma DistinctGrows(rf: seq<int>, s: nat, j: nat)
    requires s <= j < |rf|
    ensures Distinct(rf, s, j + 1) == Distinct(rf, s, j) + {rf[j]}
    ensures |Distinct(rf, s, j)| <= |Distinct(rf, s, j + 1)|
  {
    SubsetSize(Distinct(rf, s, j), Distinct(rf, s, j + 1));
  }

  ghost predicate NotTwice(rf: seq<int>, j: nat, s: State) {
    j <= |rf| && NoDuplicates(s.frames) && Pages(s.frames) <= Distinct(rf, 0, j)
  }

  lemma NotTwiceNext(policy: Policy, rf: seq<int>, k: nat, j: nat, s: State)
    requires j < |rf| && Proper(policy, rf) && s.Valid(k) && NotTwice(rf, j, s)
    ensures NotTwice(rf, j + 1, Step(policy, rf, j, s))
  {
    StepEffect(policy, rf, k, j, s, Step(policy, rf, j, s));
    DistinctGrows(rf, 0, j);
  }

  lemma EmptyFrames(k: nat)
    requires k > 0
    ensures NoDuplicates(Initial(k).frames) && Pages(Initial(k).frames) == {}
  {
  }

  /** No page is ever in two frames, and only pages that have been referenced are in any. */
  lemma NeverTwice(policy: Policy, rf: seq<int>, k: nat, j: nat)
    requires k > 0 && j <= |rf| && Proper(policy, rf)
    ensures NoDuplicates(Run(policy, rf, k, j).frames)
    ensures Cache(policy, rf, k, j) <= Distinct(rf, 0, j)
  {
    var holds := (i: nat, s: State) => NotTwice(rf, i, s);
    EmptyFrames(k);
    forall i: nat, s: State | i < |rf| && s.Valid(k) && holds(i, s)
      ensures holds(i + 1, Step(policy, rf, i, s))
    {
      NotTwiceNext(policy, rf, k, i, s);
    }
    HoldsThroughout(policy, rf, k, holds, 0, j);
  }

  /** Every reference is a hit or a fault, and never both. */
  lemma {:induction false} HitsAndFaults(policy: Policy, rf: seq<int>, k: nat, j: nat)
    requires k > 0 && j <= |rf| && InRange(policy, rf)
    ensures Run(policy, rf, k, j).hits + Run(policy, rf, k, j).faults == j
  {
    if j > 0 {
      HitsAndFaults(policy, rf, k, j - 1);
    }
  }

  lemma PolicyServes(policy: Policy, rf: seq<int>, k: nat, j: nat, before: set<int>, after: set<int>)
    requires k > 0 && j < |rf| && Proper(policy, rf)
    requires before == Cache(policy, rf, k, j) && after == Cache(policy, rf, k, j + 1)
    ensures Serves(k, rf[j], before, after)
  {
    NeverTwice(policy, rf, k, j);
    StepEffect(policy, rf, k, j, Run(policy, rf, k, j), Run(policy, rf, k, j + 1));
    PagesBound(Run(policy, rf, k, j + 1).frames);
  }

  lemma PagesOnDemand(policy: Policy, rf: seq<int>, k: nat, caches: seq<set<int>>)
    requires k > 0 && Proper(policy, rf) && caches == CachesOf(policy, rf, k)
    ensures IsDemandPaging(rf, k, caches)
  {
    assert caches[0] == {};
    forall j {:trigger rf[j]} | 0 <= j < |rf|
      ensures Serves(k, rf[j], caches[j], caches[j + 1])
    {
      PolicyServes(policy, rf, k, j, Cache(policy, rf, k, j), Cache(policy, rf, k, j + 1));
    }
  }

  /** Each of the four policies pages on demand, and its fault counter counts its faults. */
  lemma {:induction false} EveryPolicyPagesOnDemand(policy: Policy, rf: seq<int>, k: nat)
    requires k > 0 && Proper(policy, rf)
    ensures IsDemandPaging(rf, k, CachesOf(policy, rf, k))
    ensures forall j :: 0 <= j <= |rf| ==> FaultsOf(rf, CachesOf(policy, rf, k), j) == Run(policy, rf, k, j).faults
  {
    var caches := CachesOf(policy, rf, k);
    PagesOnDemand(policy, rf, k, caches);
    forall j | 0 <= j <= |rf|
      ensures FaultsOf(rf, caches, j) == Run(policy, rf, k, j).faults
    {
      CountsItsFaults(policy, rf, k, caches, j, Run(policy, rf, k, j));
    }
  }

  lemma FaultStep(policy: Policy, rf: seq<int>, caches: seq<set<int>>, j: nat, s: State, t: State)
    requires 0 < j <= |rf| < |caches| && Proper(policy, rf) && s.Valid(|s.frames|) && t == Step(policy, rf, j - 1, s)
    requires caches[j - 1] == Pages(s.frames) && FaultsOf(rf, caches, j - 1) == s.faults
    ensures FaultsOf(rf, caches, j) == t.faults
  {
  }

  ghost predicate CachesAre(policy: Policy, rf: seq<int>, k: nat, caches: seq<set<int>>) {
    && k > 0 && Proper(policy, rf) && |caches| == |rf| + 1
    && forall j {:trigger Run(policy, rf, k, j)} :: 0 <= j <= |rf| ==> caches[j] == Pages(Run(policy, rf, k, j).frames)
  }

  lemma {:induction false} CountsIn(policy: Policy, rf: seq<int>, k: nat, caches: seq<set<int>>, j: nat, s: State)
    requires CachesAre(policy, rf, k, caches) && j <= |rf| && s == Run(policy, rf, k, j)
    ensures FaultsOf(rf, caches, j) == s.faults
  {
    if j > 0 {
      var before := Run(policy, rf, k, j - 1);
      CountsIn(policy, rf, k, caches, j - 1, before);
      FaultStep(policy, rf, caches, j, before, s);
    }
  }

  lemma CountsItsFaults(policy: Policy, rf: seq<int>, k: nat, caches: seq<set<int>>, j: nat, s: State)
    requires k > 0 && j <= |rf| && Proper(policy, rf)
    requires caches == CachesOf(policy, rf, k) && s == Run(policy, rf, k, j)
    ensures FaultsOf(rf, caches, j) == s.faults
  {
    assert CachesAre(policy, rf, k, caches);
    CountsIn(policy, rf, k, caches, j, s);
  }

  /** Any demand paging faults at least once on every distinct page. */
  lemma {:induction false} AtLeastDistinct(rf: seq<int>, k: nat, caches: seq<set<int>>, j: nat)
    requires IsDemandPaging(rf, k, caches) && j <= |rf|
    ensures |Distinct(rf, 0, j)| <= FaultsOf(rf, caches, j)
    ensures caches[j] <= Distinct(rf, 0, j)
  {
    if j > 0 {
      AtLeastDistinct(rf, k, caches, j - 1);
      assert Serves(k, rf[j - 1], caches[j - 1], caches[j]);
      DistinctGrows(rf, 0, j - 1);
    } else {
      assert Distinct(rf, 0, 0) == {};
    }
  }

  /**
   * Why a reference equal to the empty marker is excluded: under every policy it
   * "hits" if and only if some frame is empty, and it then loads nothing.
   */
  lemma EmptyMarkerHits(policy: Policy, rf: seq<int>, k: nat, j: nat, s: State, t: State)
    requires k > 0 && j < |rf| && InRange(policy, rf) && rf[j] == EMPTY
    requires s == Run(policy, rf, k, j) && t == Run(policy, rf, k, j + 1)
    ensures EMPTY in s.frames <==> t.hits == s.hits + 1
    ensures EMPTY in s.frames <==> t.faults == s.faults
    ensures EMPTY in s.frames ==> t.frames == s.frames
  {
    assert t == Step(policy, rf, j, s);
  }
}
