/**
 * LRU keeps exactly the most recently used pages; hence a larger memory always
 * holds everything a smaller one holds and never faults more often.
 */
module LruInclusion {
  import opened Sets
  import opened Paging
  import opened DemandPaging

  lemma {:induction false} Referenced(rf: seq<int>, a: nat, j: nat, p: int)
    requires a <= j <= |rf|
    ensures p in Distinct(rf, a, j) <==> LastUse(rf, j, p) >= a
  {
    if a < j && rf[j - 1] != p {
      Referenced(rf, a, j - 1, p);
      assert Distinct(rf, a, j) == Distinct(rf, a, j - 1) + {rf[j - 1]};
    }
  }

  /** Any page used more recently than a cached one is cached; nothing is dropped while a frame is empty. */
  ghost predicate MostRecent(rf: seq<int>, k: nat, j: nat, cache: set<int>)
    requires j <= |rf|
  {
    && (forall p, q :: p in cache && q in Distinct(rf, 0, j) && LastUse(rf, j, q) > LastUse(rf, j, p) ==> q in cache)
    && cache <= Distinct(rf, 0, j)
    && (|cache| == k || Distinct(rf, 0, j) <= cache)
  }

  lemma StillMostRecent(rf: seq<int>, j: nat, cache: set<int>, seen: set<int>, after: set<int>, y: int, p: int, q: int)
    requires j < |rf| && (q == rf[j] || q in seen) && p in after && LastUse(rf, j + 1, q) > LastUse(rf, j + 1, p)
    requires forall a, b :: a in cache && b in seen && LastUse(rf, j, b) > LastUse(rf, j, a) ==> b in cache
    requires after == cache + {rf[j]} || after == cache - {y} + {rf[j]}
    requires after == cache + {rf[j]} || (y in cache && forall a :: a in cache ==> LastUse(rf, j, y) <= LastUse(rf, j, a))
    ensures q in after
  {
    assert LastUse(rf, j + 1, rf[j]) == j;
    if q != rf[j] {
      assert LastUse(rf, j + 1, q) == LastUse(rf, j, q);
      assert p != rf[j] && LastUse(rf, j + 1, p) == LastUse(rf, j, p);
      assert q in cache;
    }
  }

  lemma NothingDropped(k: nat, x: int, seen: set<int>, cache: set<int>, after: set<int>, y: int)
    requires cache <= seen && (|cache| == k || seen <= cache)
    requires if x in cache then after == cache
             else if |cache| < k then after == cache + {x}
             else |cache| == k && y in cache && after == cache - {y} + {x}
    ensures after <= seen + {x} && (|after| == k || seen + {x} <= after)
  {
  }

  /** A hit keeps the cache; a fault may drop the least recently used page of a full cache. */
  lemma MostRecentStep(rf: seq<int>, k: nat, j: nat, cache: set<int>, after: set<int>, y: int)
    requires k > 0 && j < |rf| && MostRecent(rf, k, j, cache)
    requires if rf[j] in cache then after == cache
             else if |cache| < k then after == cache + {rf[j]}
             else |cache| == k && y in cache && after == cache - {y} + {rf[j]}
                  && forall p :: p in cache ==> LastUse(rf, j, y) <= LastUse(rf, j, p)
    ensures MostRecent(rf, k, j + 1, after)
  {
    DistinctGrows(rf, 0, j);
    NothingDropped(k, rf[j], Distinct(rf, 0, j), cache, after, y);
    forall p, q | p in after && q in Distinct(rf, 0, j + 1) && LastUse(rf, j + 1, q) > LastUse(rf, j + 1, p)
      ensures q in after
    {
      StillMostRecent(rf, j, cache, Distinct(rf, 0, j), after, y, p, q);
    }
  }

  /** The victim is an empty frame if there is one, and otherwise the least recently used page. */
  lemma LruVictim(rf: seq<int>, k: nat, j: nat, s: State)
    requires k > 0 && j < |rf| && Proper(Lru, rf) && s.Valid(k) && rf[j] !in s.frames
    requires Pages(s.frames) <= Distinct(rf, 0, j)
    ensures var y := s.frames[Victim(Lru, rf, j, s)];
      if EMPTY in s.frames then y == EMPTY
      else y in Pages(s.frames) && forall p :: p in Pages(s.frames) ==> LastUse(rf, j, y) <= LastUse(rf, j, p)
  {
    var v := Victim(Lru, rf, j, s);
    var y := s.frames[v];
    var uses := LastUses(rf, j + 1, s.frames);
    assert uses[v] == LastUse(rf, j, y);
    forall p | p in s.frames
      ensures LastUse(rf, j, y) <= LastUse(rf, j, p)
    {
      var i :| 0 <= i < k && s.frames[i] == p;
      assert uses[v] <= uses[i];
    }
    if EMPTY in s.frames {
      assert LastUse(rf, j, EMPTY) == -1;
      Referenced(rf, 0, j, y);
    }
  }

  /** The frames hold the most recently used pages, none of them twice. */
  ghost predicate HoldsRecent(rf: seq<int>, k: nat, j: nat, s: State) {
    NotTwice(rf, j, s) && MostRecent(rf, k, j, Pages(s.frames))
  }

  lemma LruStep(rf: seq<int>, k: nat, j: nat, s: State)
    requires k > 0 && j < |rf| && Proper(Lru, rf) && s.Valid(k) && HoldsRecent(rf, k, j, s)
    ensures HoldsRecent(rf, k, j + 1, Step(Lru, rf, j, s))
  {
    var t := Step(Lru, rf, j, s);
    NotTwiceNext(Lru, rf, k, j, s);
    StepEffect(Lru, rf, k, j, s, t);
    PagesBound(s.frames);
    if rf[j] in s.frames {
      MostRecentStep(rf, k, j, Pages(s.frames), Pages(t.frames), EMPTY);
    } else {
      LruVictim(rf, k, j, s);
      MostRecentStep(rf, k, j, Pages(s.frames), Pages(t.frames), s.frames[Victim(Lru, rf, j, s)]);
    }
  }

  lemma LruStart(rf: seq<int>, k: nat)
    requires k > 0
    ensures HoldsRecent(rf, k, 0, Initial(k))
  {
    EmptyFrames(k);
  }

  lemma LruRun(rf: seq<int>, k: nat, j: nat)
    requires k > 0 && j <= |rf| && Proper(Lru, rf)
    ensures HoldsRecent(rf, k, j, Run(Lru, rf, k, j))
  {
    var holds := (i: nat, s: State) => HoldsRecent(rf, k, i, s);
    LruStart(rf, k);
    forall i: nat, s: State | i < |rf| && s.Valid(k) && holds(i, s)
      ensures holds(i + 1, Step(Lru, rf, i, s))
    {
      LruStep(rf, k, i, s);
    }
    HoldsThroughout(Lru, rf, k, holds, 0, j);
  }

  lemma LruKeepsMostRecent(rf: seq<int>, k: nat, j: nat)
    requires k > 0 && j <= |rf| && Proper(Lru, rf)
    ensures MostRecent(rf, k, j, Cache(Lru, rf, k, j))
    ensures |Cache(Lru, rf, k, j)| <= k
  {
    var s := Run(Lru, rf, k, j);
    LruRun(rf, k, j);
    PagesBound(s.frames);
  }

  /** Being among the k most recent, by the recency order and by counting. */
  lemma MostRecentByCount(rf: seq<int>, k: nat, j: nat, cache: set<int>, p: int)
    requires j <= |rf| && MostRecent(rf, k, j, cache) && |cache| <= k
    ensures p in cache <==> p in Distinct(rf, 0, j) && |Distinct(rf, LastUse(rf, j, p) + 1, j)| < k
  {
    var since := LastUse(rf, j, p) + 1;
    var newer := Distinct(rf, since, j);
    if p in cache {
      NewerAreCached(rf, k, j, cache, p, since, newer);
    } else if p in Distinct(rf, 0, j) {
      CachedAreNewer(rf, k, j, cache, p, since, newer);
    }
  }

  lemma NewerAreCached(rf: seq<int>, k: nat, j: nat, cache: set<int>, p: int, since: nat, newer: set<int>)
    requires j <= |rf| && MostRecent(rf, k, j, cache) && since == LastUse(rf, j, p) + 1 && newer == Distinct(rf, since, j)
    requires p in cache
    ensures |newer| < |cache|
  {
    forall q | q in newer
      ensures q in cache - {p}
    {
      Referenced(rf, since, j, q);
      Referenced(rf, 0, j, q);
    }
    SubsetSize(newer, cache - {p});
  }

  lemma CachedAreNewer(rf: seq<int>, k: nat, j: nat, cache: set<int>, p: int, since: nat, newer: set<int>)
    requires j <= |rf| && MostRecent(rf, k, j, cache) && since == LastUse(rf, j, p) + 1 && newer == Distinct(rf, since, j)
    requires p in Distinct(rf, 0, j) && p !in cache
    ensures |newer| >= |cache| == k
  {
    forall q | q in cache
      ensures q in newer
    {
      Referenced(rf, 0, j, q);
      Referenced(rf, 0, j, p);
      Referenced(rf, since, j, q);
    }
    SubsetSize(cache, newer);
  }

  /** The working set LRU maintains, stated without the algorithm. */
  lemma LruContents(rf: seq<int>, k: nat, j: nat, p: int)
    requires k > 0 && j <= |rf| && Proper(Lru, rf)
    ensures p in Cache(Lru, rf, k, j) <==>
            p in Distinct(rf, 0, j) && |Distinct(rf, LastUse(rf, j, p) + 1, j)| < k
  {
    LruKeepsMostRecent(rf, k, j);
    MostRecentByCount(rf, k, j, Cache(Lru, rf, k, j), p);
  }

  /** Inclusion: k frames hold a subset of what k + 1 (or more) frames hold. */
  lemma LruInclusion(rf: seq<int>, k: nat, larger: nat, j: nat)
    requires 0 < k <= larger && j <= |rf| && Proper(Lru, rf)
    ensures Cache(Lru, rf, k, j) <= Cache(Lru, rf, larger, j)
  {
    forall p | p in Cache(Lru, rf, k, j)
      ensures p in Cache(Lru, rf, larger, j)
    {
      LruContents(rf, k, j, p);
      LruContents(rf, larger, j, p);
    }
  }

  /** Caches that hold more never fault more often. */
  lemma {:induction false} LargerCachesFaultLess(rf: seq<int>, caches: seq<set<int>>, larger: seq<set<int>>, j: nat)
    requires j <= |rf| && |caches| == |larger| == |rf| + 1
    requires forall i :: 0 <= i <= |rf| ==> caches[i] <= larger[i]
    ensures FaultsOf(rf, larger, j) <= FaultsOf(rf, caches, j)
  {
    if j > 0 {
      LargerCachesFaultLess(rf, caches, larger, j - 1);
    }
  }

  /** LRU has no Belady anomaly. */
  lemma MoreFramesNeverHurtLru(rf: seq<int>, k: nat, larger: nat, j: nat)
    requires 0 < k <= larger && j <= |rf| && Proper(Lru, rf)
    ensures Run(Lru, rf, larger, j).faults <= Run(Lru, rf, k, j).faults
  {
    var few, many := CachesOf(Lru, rf, k), CachesOf(Lru, rf, larger);
    forall i | 0 <= i <= |rf|
      ensures few[i] <= many[i]
    {
      LruInclusion(rf, k, larger, i);
    }
    LargerCachesFaultLess(rf, few, many, j);
    CountsItsFaults(Lru, rf, k, few, j, Run(Lru, rf, k, j));
    CountsItsFaults(Lru, rf, larger, many, j, Run(Lru, rf, larger, j));
  }
}
