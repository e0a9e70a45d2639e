/** LRU and FIFO are k-competitive: few faults in a window of few pages, which costs any adversary some. */
module Competitive {
  import opened Sets
  import opened Paging
  import opened DemandPaging
  import LruInclusion

  /** In a window with at most k distinct pages there is at most one fault per distinct page. */
  ghost predicate WindowBound(rf: seq<int>, k: nat, caches: seq<set<int>>, s: nat, j: nat)
    requires s <= j <= |rf| < |caches|
  {
    |Distinct(rf, s, j)| <= k ==> FaultsOf(rf, caches, j) <= FaultsOf(rf, caches, s) + |Distinct(rf, s, j)|
  }

  // ---- LRU ----------------------------------------------------------------

  /** LRU has faulted on every page of the window at most once. */
  ghost predicate OncePerPage(rf: seq<int>, k: nat, s: nat, before: nat, j: nat, b: State) {
    && s <= j <= |rf| && LruInclusion.HoldsRecent(rf, k, j, b)
    && (|Distinct(rf, s, j)| <= k ==> b.faults <= before + |Distinct(rf, s, j)|)
  }

  lemma LruStep(rf: seq<int>, k: nat, s: nat, before: nat, j: nat, b: State)
    requires k > 0 && j < |rf| && Proper(Lru, rf) && b.Valid(k) && OncePerPage(rf, k, s, before, j, b)
    ensures OncePerPage(rf, k, s, before, j + 1, Step(Lru, rf, j, b))
  {
    LruInclusion.LruStep(rf, k, j, b);
    DistinctGrows(rf, s, j);
    PagesBound(b.frames);
    if rf[j] in Distinct(rf, s, j) && |Distinct(rf, s, j)| <= k {
      StillCached(rf, k, s, j, Pages(b.frames), rf[j]);
    }
  }

  lemma LruStart(rf: seq<int>, k: nat, s: nat, b: State)
    requires k > 0 && s <= |rf| && Proper(Lru, rf) && b == Run(Lru, rf, k, s)
    ensures OncePerPage(rf, k, s, b.faults, s, b)
  {
    LruInclusion.LruRun(rf, k, s);
    assert Distinct(rf, s, s) == {};
  }

  lemma LruWindow(rf: seq<int>, k: nat, s: nat, j: nat)
    requires k > 0 && s <= j <= |rf| && Proper(Lru, rf) && |Distinct(rf, s, j)| <= k
    ensures Run(Lru, rf, k, j).faults <= Run(Lru, rf, k, s).faults + |Distinct(rf, s, j)|
  {
    var start, end := Run(Lru, rf, k, s), Run(Lru, rf, k, j);
    LruStart(rf, k, s, start);
    LruThroughout(rf, k, s, start.faults, j, start, end);
    assert OncePerPage(rf, k, s, start.faults, j, end);
  }

  ghost function Once(rf: seq<int>, k: nat, s: nat, before: nat): (nat, State) -> bool {
    (i: nat, b: State) => OncePerPage(rf, k, s, before, i, b)
  }

  lemma OnceNext(rf: seq<int>, k: nat, s: nat, before: nat, i: nat, b: State, t: State)
    requires k > 0 && i < |rf| && Proper(Lru, rf) && b.Valid(k) && Once(rf, k, s, before)(i, b) && t == Step(Lru, rf, i, b)
    ensures Once(rf, k, s, before)(i + 1, t)
  {
    LruStep(rf, k, s, before, i, b);
  }

  lemma LruThroughout(rf: seq<int>, k: nat, s: nat, before: nat, j: nat, start: State, end: State)
    requires k > 0 && s <= j <= |rf| && Proper(Lru, rf) && start == Run(Lru, rf, k, s) && end == Run(Lru, rf, k, j)
    requires Once(rf, k, s, before)(s, start)
    ensures Once(rf, k, s, before)(j, end)
  {
    var holds := Once(rf, k, s, before);
    forall i: nat, b: State | i < |rf| && b.Valid(k) && holds(i, b)
      ensures holds(i + 1, Step(Lru, rf, i, b))
    {
      OnceNext(rf, k, s, before, i, b, Step(Lru, rf, i, b));
    }
    HoldsThroughout(Lru, rf, k, holds, s, j);
  }

  /** A page of the current window is among the k most recent ones. */
  lemma StillCached(rf: seq<int>, k: nat, s: nat, j: nat, cache: set<int>, p: int)
    requires s <= j <= |rf| && LruInclusion.MostRecent(rf, k, j, cache) && |cache| <= k
    requires p in Distinct(rf, s, j) && |Distinct(rf, s, j)| <= k
    ensures p in cache
  {
    var since := LastUse(rf, j, p) + 1;
    LruInclusion.Referenced(rf, s, j, p);
    LruInclusion.Referenced(rf, since, j, p);
    LruInclusion.MostRecentByCount(rf, k, j, cache, p);
    SubsetSize(Distinct(rf, since, j), Distinct(rf, s, j) - {p});
  }

  // ---- FIFO ---------------------------------------------------------------

  /** The pages in the `c` slots from `hand` on. */
  ghost function Loaded(frames: seq<int>, hand: nat, c: nat): set<int>
    requires hand < |frames| && c <= |frames|
  {
    set e | 0 <= e < c :: frames[Ahead(|frames|, hand, e)]
  }

  lemma {:induction false} LoadedSize(frames: seq<int>, hand: nat, c: nat)
    requires hand < |frames| && c <= |frames| && NoDuplicates(frames) && EMPTY !in Loaded(frames, hand, c)
    ensures |Loaded(frames, hand, c)| == c
  {
    if c > 0 {
      var last := Ahead(|frames|, hand, c - 1);
      assert Loaded(frames, hand, c) == Loaded(frames, hand, c - 1) + {frames[last]};
      LoadedSize(frames, hand, c - 1);
      assert frames[last] !in Loaded(frames, hand, c - 1);
    } else {
      assert Loaded(frames, hand, 0) == {};
    }
  }

  lemma OneMoreLoad(frames: seq<int>, hand: nat, c: nat, p: int, allowed: set<int>)
    requires hand < |frames| && c <= |frames| && NoDuplicates(frames) && p !in frames
    requires EMPTY !in allowed && Loaded(frames, hand, c) <= allowed
    requires |allowed + {p}| <= |frames|
    ensures c < |allowed + {p}|
    ensures Loaded(frames[Ahead(|frames|, hand, c) := p], hand, c + 1) <= allowed + {p}
  {
    LoadedSize(frames, hand, c);
    SubsetSize(Loaded(frames, hand, c) + {p}, allowed + {p});
  }

  /** What FIFO has loaded since time s still sits in consecutive slots. */
  ghost predicate KeepsLoads(k: nat, a: State, b: State, window: set<int>)
    requires a.Valid(k) && b.Valid(k)
  {
    && a.faults <= b.faults <= a.faults + k
    && b.faults <= a.faults + |window|
    && b.oldest == Ahead(k, a.oldest, b.faults - a.faults)
    && Loaded(b.frames, a.oldest, b.faults - a.faults) <= window
  }

  ghost predicate FifoInWindow(rf: seq<int>, k: nat, a: State, s: nat, j: nat, b: State) {
    && s <= j <= |rf| && a.Valid(k) && b.Valid(k) && NoDuplicates(b.frames)
    && (|Distinct(rf, s, j)| <= k ==> KeepsLoads(k, a, b, Distinct(rf, s, j)))
  }

  lemma FifoStep(rf: seq<int>, k: nat, a: State, s: nat, j: nat, b: State)
    requires j < |rf| && Proper(Fifo, rf) && FifoInWindow(rf, k, a, s, j, b)
    ensures FifoInWindow(rf, k, a, s, j + 1, Step(Fifo, rf, j, b))
  {
    var window, t := Distinct(rf, s, j), Step(Fifo, rf, j, b);
    StepEffect(Fifo, rf, k, j, b, t);
    DistinctGrows(rf, s, j);
    if |window + {rf[j]}| <= k {
      SubsetSize(window, window + {rf[j]});
      if rf[j] in b.frames {
        FifoHit(rf, k, a, j, b, t, window, window + {rf[j]});
      } else {
        FifoLoad(rf, k, a, j, b, t, window, window + {rf[j]});
      }
    }
  }

  lemma FifoHit(rf: seq<int>, k: nat, a: State, j: nat, b: State, t: State, window: set<int>, wider: set<int>)
    requires j < |rf| && a.Valid(k) && b.Valid(k) && KeepsLoads(k, a, b, window) && wider == window + {rf[j]}
    requires rf[j] in b.frames && t == Step(Fifo, rf, j, b) && t.Valid(k)
    ensures KeepsLoads(k, a, t, wider)
  {
    SubsetSize(window, wider);
  }

  lemma FifoLoad(rf: seq<int>, k: nat, a: State, j: nat, b: State, t: State, window: set<int>, wider: set<int>)
    requires j < |rf| && a.Valid(k) && b.Valid(k) && KeepsLoads(k, a, b, window) && wider == window + {rf[j]}
    requires rf[j] !in b.frames && t == Step(Fifo, rf, j, b) && t.Valid(k)
    requires NoDuplicates(b.frames) && EMPTY !in window && |wider| <= k
    ensures KeepsLoads(k, a, t, wider)
  {
    OneMoreLoad(b.frames, a.oldest, b.faults - a.faults, rf[j], window);
  }

  lemma FifoKeepsLoads(rf: seq<int>, k: nat, s: nat, j: nat)
    requires k > 0 && s <= j <= |rf| && Proper(Fifo, rf) && |Distinct(rf, s, j)| <= k
    ensures KeepsLoads(k, Run(Fifo, rf, k, s), Run(Fifo, rf, k, j), Distinct(rf, s, j))
  {
    var a := Run(Fifo, rf, k, s);
    var holds := (i: nat, b: State) => FifoInWindow(rf, k, a, s, i, b);
    NeverTwice(Fifo, rf, k, s);
    assert Distinct(rf, s, s) == {};
    forall i: nat, b: State | i < |rf| && b.Valid(k) && holds(i, b)
      ensures holds(i + 1, Step(Fifo, rf, i, b))
    {
      FifoStep(rf, k, a, s, i, b);
    }
    HoldsThroughout(Fifo, rf, k, holds, s, j);
  }

  /** The page loaded at rf[i], after f faults, into slot o stays there for k faults. */
  ghost function StaysLoaded(k: nat, o: nat, f: nat, p: int): (nat, State) -> bool
    requires o < k
  {
    (n: nat, s: State) => s.Valid(k) && f < s.faults &&
      (s.faults <= f + k ==> s.oldest == Ahead(k, o, s.faults - f) && s.frames[o] == p)
  }

  lemma StaysLoadedNext(rf: seq<int>, k: nat, o: nat, f: nat, p: int, n: nat, s: State, t: State)
    requires o < k && n < |rf| && StaysLoaded(k, o, f, p)(n, s) && t == Step(Fifo, rf, n, s)
    ensures StaysLoaded(k, o, f, p)(n + 1, t)
  {
    assert t.Valid(k);
  }

  lemma StaysLoadedFirst(rf: seq<int>, k: nat, i: nat, s: State, t: State)
    requires i < |rf| && s.Valid(k) && rf[i] !in s.frames && t == Step(Fifo, rf, i, s)
    ensures StaysLoaded(k, s.oldest, s.faults, rf[i])(i + 1, t)
  {
  }

  lemma StaysLoadedLast(rf: seq<int>, k: nat, o: nat, f: nat, p: int, j: nat, s: State, t: State)
    requires o < k && j < |rf| && StaysLoaded(k, o, f, p)(j, s) && s.faults == f + k && rf[j] !in s.frames
    requires t == Step(Fifo, rf, j, s)
    ensures s.Valid(k) && s.frames[s.oldest] == p && t.frames == s.frames[s.oldest := rf[j]]
  {
  }

  lemma StaysLoadedUntil(rf: seq<int>, k: nat, o: nat, f: nat, p: int, i: nat, j: nat)
    requires o < k && i <= j <= |rf| && StaysLoaded(k, o, f, p)(i, Run(Fifo, rf, k, i))
    ensures StaysLoaded(k, o, f, p)(j, Run(Fifo, rf, k, j))
  {
    var holds := StaysLoaded(k, o, f, p);
    forall n: nat, b: State | n < |rf| && b.Valid(k) && holds(n, b)
      ensures holds(n + 1, Step(Fifo, rf, n, b))
    {
      StaysLoadedNext(rf, k, o, f, p, n, b, Step(Fifo, rf, n, b));
    }
    HoldsThroughout(Fifo, rf, k, holds, i, j);
  }

  /** First in, first out: a fault of `fifo` evicts the page that was loaded k faults ago. */
  lemma FifoEvictsTheOldest(rf: seq<int>, k: nat, i: nat, j: nat, s: State, t: State, next: State)
    requires k > 0 && i < j < |rf| && s == Run(Fifo, rf, k, i) && t == Run(Fifo, rf, k, j) && next == Run(Fifo, rf, k, j + 1)
    requires rf[i] !in s.frames && rf[j] !in t.frames && t.faults == s.faults + k
    ensures t.Valid(k) && t.frames[t.oldest] == rf[i] && next.frames == t.frames[t.oldest := rf[j]]
  {
    var after := Run(Fifo, rf, k, i + 1);
    RunNext(Fifo, rf, k, i, s, after);
    RunNext(Fifo, rf, k, j, t, next);
    StaysLoadedFirst(rf, k, i, s, after);
    StaysLoadedUntil(rf, k, s.oldest, s.faults, rf[i], i + 1, j);
    StaysLoadedLast(rf, k, s.oldest, s.faults, rf[i], j, t, next);
  }

  lemma WindowOf(policy: Policy, rf: seq<int>, k: nat, s: nat, j: nat)
    requires k > 0 && s <= j <= |rf| && Proper(policy, rf)
    requires policy == Lru || policy == Fifo
    ensures WindowBound(rf, k, CachesOf(policy, rf, k), s, j)
  {
    var caches := CachesOf(policy, rf, k);
    if |Distinct(rf, s, j)| <= k {
      if policy == Lru {
        LruWindow(rf, k, s, j);
      } else {
        FifoKeepsLoads(rf, k, s, j);
      }
      CountsItsFaults(policy, rf, k, caches, s, Run(policy, rf, k, s));
      CountsItsFaults(policy, rf, k, caches, j, Run(policy, rf, k, j));
    }
  }

  // ---- the adversary ------------------------------------------------------

  /** A window with at most k distinct pages costs at most `cost` faults. */
  ghost predicate WindowCost(rf: seq<int>, k: nat, cost: nat, caches: seq<set<int>>, s: nat, j: nat)
    requires s <= j <= |rf| < |caches|
  {
    |Distinct(rf, s, j)| <= k ==> FaultsOf(rf, caches, j) <= FaultsOf(rf, caches, s) + cost
  }

  /**
   * After j references there have been m windows, the last one starting at s.
   * An adversary with h frames has paid at least k - h + 1 faults for every
   * window but the last; and whatever it holds, together with what the current
   * window has used, outgrows h only by faults paid beyond that.
   */
  ghost predicate Windows(rf: seq<int>, k: nat, h: nat, cost: nat, ours: seq<set<int>>, theirs: seq<set<int>>, j: nat,
                          s: nat, m: nat)
    requires j <= |rf| && |ours| == |theirs| == |rf| + 1
  {
    && s <= j && m > 0 && 0 < h <= k
    && |Distinct(rf, s, j)| <= k
    && FaultsOf(rf, ours, s) <= cost * (m - 1)
    && (k - h + 1) * (m - 1) < FaultsOf(rf, theirs, j)
    && |theirs[j] + Distinct(rf, s, j)| + (k - h + 1) * (m - 1) < FaultsOf(rf, theirs, j) + h
  }

  lemma {:induction false} CutIntoWindows(rf: seq<int>, k: nat, h: nat, cost: nat, ours: seq<set<int>>,
                                          theirs: seq<set<int>>, j: nat)
    returns (s: nat, m: nat)
    requires 0 < h <= k && 0 < j <= |rf| && IsDemandPaging(rf, h, theirs) && |ours| == |rf| + 1
    requires forall a, b :: 0 <= a <= b <= |rf| ==> WindowCost(rf, k, cost, ours, a, b)
    ensures Windows(rf, k, h, cost, ours, theirs, j, s, m)
  {
    assert Serves(h, rf[j - 1], theirs[j - 1], theirs[j]);
    if j == 1 {
      s, m := 0, 1;
      FirstWindow(rf, theirs);
    } else {
      s, m := CutIntoWindows(rf, k, h, cost, ours, theirs, j - 1);
      if |Distinct(rf, s, j)| > k {
        NewWindow(rf, k, h, cost, ours, theirs, j - 1, s, m, j);
        s, m := j - 1, m + 1;
      } else {
        SameWindow(rf, k, h, cost, ours, theirs, j - 1, s, m, j);
      }
    }
  }

  lemma FirstWindow(rf: seq<int>, theirs: seq<set<int>>)
    requires rf != [] && |theirs| == |rf| + 1 && theirs[0] == {} && theirs[1] <= {rf[0]}
    ensures FaultsOf(rf, theirs, 1) == 1 && Distinct(rf, 0, 1) == {rf[0]} == theirs[1] + Distinct(rf, 0, 1)
  {
  }

  lemma SameWindow(rf: seq<int>, k: nat, h: nat, cost: nat, ours: seq<set<int>>, theirs: seq<set<int>>, j: nat,
                   s: nat, m: nat, next: nat)
    requires j < |rf| && next == j + 1 && |ours| == |theirs| == |rf| + 1
    requires Windows(rf, k, h, cost, ours, theirs, j, s, m) && |Distinct(rf, s, next)| <= k
    requires Serves(h, rf[j], theirs[j], theirs[next])
    ensures Windows(rf, k, h, cost, ours, theirs, next, s, m)
  {
    DistinctGrows(rf, s, j);
    var used := theirs[j] + Distinct(rf, s, j);
    if rf[j] in theirs[j] {
      SubsetSize(theirs[next] + Distinct(rf, s, next), used);
    } else {
      SubsetSize(theirs[next] + Distinct(rf, s, next), used + {rf[j]});
    }
  }

  /** A reference that does not fit into the current window starts the next one: by then the last one is paid for. */
  lemma NewWindow(rf: seq<int>, k: nat, h: nat, cost: nat, ours: seq<set<int>>, theirs: seq<set<int>>, j: nat,
                  s: nat, m: nat, next: nat)
    requires j < |rf| && next == j + 1 && |ours| == |theirs| == |rf| + 1
    requires Windows(rf, k, h, cost, ours, theirs, j, s, m) && |Distinct(rf, s, next)| > k
    requires WindowCost(rf, k, cost, ours, s, j)
    requires Serves(h, rf[j], theirs[j], theirs[next])
    ensures Windows(rf, k, h, cost, ours, theirs, next, j, m + 1)
  {
    var window := Distinct(rf, s, j);
    DistinctGrows(rf, s, j);
    SubsetSize(if rf[j] in theirs[j] then window + {rf[j]} else window, theirs[j] + window);
    OneMore(cost, m);
    OneMore(k - h + 1, m);
    assert Distinct(rf, j, next) == {rf[j]} && theirs[next] + {rf[j]} == theirs[next];
  }

  lemma OneMore(x: nat, m: nat)
    requires m > 0
    ensures x * m == x * (m - 1) + x
  {
  }

  /** What the cut gives: at most `cost` faults for every k - h + 1 of the adversary's, up to the last window. */
  lemma AgainstAnyone(rf: seq<int>, k: nat, h: nat, cost: nat, ours: seq<set<int>>, theirs: seq<set<int>>, j: nat)
    requires 0 < h <= k && j <= |rf| && IsDemandPaging(rf, h, theirs) && |ours| == |rf| + 1
    requires forall a, b :: 0 <= a <= b <= |rf| ==> WindowCost(rf, k, cost, ours, a, b)
    ensures (k - h + 1) * FaultsOf(rf, ours, j) <= cost * FaultsOf(rf, theirs, j) + cost * (k - h)
  {
    var f, g := FaultsOf(rf, ours, j), FaultsOf(rf, theirs, j);
    if j > 0 {
      var s, m := CutIntoWindows(rf, k, h, cost, ours, theirs, j);
      LastWindow(rf, k, cost, ours, s, j, cost * (m - 1));
      Scale(k - h + 1, cost, m, f, g);
    } else {
      assert f == 0 && g == 0;
    }
  }

  lemma LastWindow(rf: seq<int>, k: nat, cost: nat, ours: seq<set<int>>, s: nat, j: nat, paid: int)
    requires s <= j <= |rf| < |ours| && WindowCost(rf, k, cost, ours, s, j)
    requires |Distinct(rf, s, j)| <= k && FaultsOf(rf, ours, s) <= paid
    ensures FaultsOf(rf, ours, j) <= paid + cost
  {
  }

  lemma Scale(r: nat, cost: nat, m: nat, ours: nat, theirs: nat)
    requires r > 0 && m > 0 && ours <= cost * (m - 1) + cost && r * (m - 1) < theirs
    ensures r * ours <= cost * theirs + cost * (r - 1)
  {
    var n := m - 1;
    Times(r, ours, cost * n + cost);
    Times(cost, r * n + 1, theirs);
    assert r * (cost * n + cost) == cost * (r * n + 1) + cost * (r - 1) by {
      Expand(r, cost, n);
    }
  }

  lemma Times(x: nat, a: nat, b: nat)
    requires a <= b
    ensures x * a <= x * b
  {
  }

  lemma Expand(r: nat, cost: nat, n: nat)
    requires r > 0
    ensures r * (cost * n + cost) == cost * (r * n + 1) + cost * (r - 1)
  {
    assert cost * (r * n) == r * (cost * n);
  }

  /**
   * Competitiveness against every demand paging with h <= k frames, at every
   * point of the reference string: at most k faults for every k - h + 1.
   */
  lemma HCompetitive(policy: Policy, rf: seq<int>, k: nat, h: nat, theirs: seq<set<int>>, j: nat)
    requires 0 < h <= k && j <= |rf| && Proper(policy, rf) && IsDemandPaging(rf, h, theirs)
    requires policy == Lru || policy == Fifo
    ensures (k - h + 1) * Run(policy, rf, k, j).faults <= k * FaultsOf(rf, theirs, j) + k * (k - h)
  {
    var ours := CachesOf(policy, rf, k);
    forall a, b | 0 <= a <= b <= |rf|
      ensures WindowCost(rf, k, k, ours, a, b)
    {
      WindowOf(policy, rf, k, a, b);
      assert WindowBound(rf, k, ours, a, b);
    }
    AgainstAnyone(rf, k, h, k, ours, theirs, j);
    CountsItsFaults(policy, rf, k, ours, j, Run(policy, rf, k, j));
  }

  /** With as many frames on both sides: k-competitiveness. */
  lemma KCompetitive(policy: Policy, rf: seq<int>, k: nat, theirs: seq<set<int>>, j: nat)
    requires k > 0 && j <= |rf| && Proper(policy, rf) && IsDemandPaging(rf, k, theirs)
    requires policy == Lru || policy == Fifo
    ensures Run(policy, rf, k, j).faults <= k * FaultsOf(rf, theirs, j)
  {
    HCompetitive(policy, rf, k, k, theirs, j);
  }

  lemma KTimesOptimal(policy: Policy, rf: seq<int>, k: nat)
    requires k > 0 && Proper(Optimal, rf)
    requires policy == Lru || policy == Fifo
    ensures Faults(policy, rf, k) <= k * Faults(Optimal, rf, k)
  {
    EveryPolicyPagesOnDemand(Optimal, rf, k);
    KCompetitive(policy, rf, k, CachesOf(Optimal, rf, k), |rf|);
  }
}
