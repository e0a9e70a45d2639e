/** No better ratio than 2k - 2 holds between clock's faults and those of an adversary with as many frames. */
module ClockRatio {
  import opened Sets
  import opened Paging
  import opened DemandPaging
  import ClockWindows

  /**
   * The pages from slot `base` on, round the dial; the hand is `at` slots ahead of
   * that, and only its bit and that of the slot `other` ahead are set.
   */
  datatype Dial = Dial(base: nat, pages: seq<int>, at: int, other: int)

  ghost predicate Stands(s: State, k: nat, d: Dial) {
    && s.Valid(k) && |d.pages| == k && d.base < k && 0 <= d.at < k && s.hand == Ahead(k, d.base, d.at)
    && (forall e :: 0 <= e < k ==> s.frames[Ahead(k, d.base, e)] == d.pages[e])
    && (forall e :: 0 <= e < k ==> (s.useBit[Ahead(k, d.base, e)] != 0 <==> e == d.at || e == d.other))
  }

  lemma SameSlot(k: nat, h: nat, e: nat, f: nat)
    requires h < k && e < k && f < k && Ahead(k, h, e) == Ahead(k, h, f)
    ensures e == f
  {
  }

  lemma HeldPages(s: State, k: nat, d: Dial, p: int)
    requires Stands(s, k, d)
    ensures p in s.frames <==> p in d.pages
  {
    if p in s.frames {
      var i :| 0 <= i < k && s.frames[i] == p;
      var e := Distance(k, d.base, i);
      assert s.frames[Ahead(k, d.base, e)] == d.pages[e];
    }
    if p in d.pages {
      var e :| 0 <= e < k && d.pages[e] == p;
      assert s.frames[Ahead(k, d.base, e)] == p;
    }
  }

  /** The dial after a fault whose sweep has cleared n bits and come to the slot `to`. */
  lemma AfterFault(s: State, k: nat, d: Dial, n: nat, to: nat, other: int, p: int, t: State)
    requires Stands(s, k, d) && n <= k && to < k && Ahead(k, s.hand, n) == Ahead(k, d.base, to)
    requires t == s.(frames := s.frames[Ahead(k, d.base, to) := p], faults := s.faults + 1,
                     useBit := Cleared(s.useBit, s.hand, n)[Ahead(k, d.base, to) := 1], hand := Ahead(k, d.base, to))
    requires forall e :: 0 <= e < k && e != to ==>
      (e == other <==> (e == d.at || e == d.other) && Distance(k, s.hand, Ahead(k, d.base, e)) >= n)
    ensures Stands(t, k, Dial(d.base, d.pages[to := p], to, other))
  {
    forall e | 0 <= e < k
      ensures t.frames[Ahead(k, d.base, e)] == d.pages[to := p][e]
      ensures t.useBit[Ahead(k, d.base, e)] != 0 <==> e == to || e == other
    {
      if Ahead(k, d.base, e) == Ahead(k, d.base, to) {
        SameSlot(k, d.base, e, to);
      }
    }
  }

  /** A fault that goes one slot on. */
  lemma NextSlot(rf: seq<int>, j: nat, s: State, k: nat, d: Dial, t: State)
    requires j < |rf| && Stands(s, k, d) && d.at + 1 < k && d.other != d.at && d.other != d.at + 1
    requires rf[j] !in d.pages && t == Step(Clock, rf, j, s)
    ensures Stands(t, k, Dial(d.base, d.pages[d.at + 1 := rf[j]], d.at + 1, d.other)) && t.faults == s.faults + 1
  {
    var v := Ahead(k, d.base, d.at + 1);
    HeldPages(s, k, d, rf[j]);
    assert v == Ahead(k, s.hand, 1) && Ahead(k, s.hand, 0) == s.hand;
    var t' := s.(frames := s.frames[v := rf[j]], faults := s.faults + 1,
                 useBit := Cleared(s.useBit, s.hand, 1)[v := 1], hand := v);
    ClockWindows.FaultAt(rf, k, j, s, 1, v, t');
    AfterFault(s, k, d, 1, d.at + 1, d.other, rf[j], t');
  }

  /** A fault that passes the last slot, whose bit is set, and takes the first. */
  lemma FirstSlot(rf: seq<int>, j: nat, s: State, k: nat, d: Dial, t: State)
    requires j < |rf| && k > 1 && Stands(s, k, d) && d.at == k - 2 && d.other == k - 1
    requires rf[j] !in d.pages && t == Step(Clock, rf, j, s)
    ensures Stands(t, k, Dial(d.base, d.pages[0 := rf[j]], 0, -1)) && t.faults == s.faults + 1
  {
    var h := d.base;
    HeldPages(s, k, d, rf[j]);
    assert h == Ahead(k, s.hand, 2) == Ahead(k, h, 0) && Ahead(k, s.hand, 0) == s.hand && Ahead(k, s.hand, 1) == Ahead(k, h, k - 1);
    var t' := s.(frames := s.frames[h := rf[j]], faults := s.faults + 1,
                 useBit := Cleared(s.useBit, s.hand, 2)[h := 1], hand := h);
    ClockWindows.FaultAt(rf, k, j, s, 2, h, t');
    AfterFault(s, k, d, 2, 0, -1, rf[j], t');
  }

  /** A hit on the page of a slot whose bit is not set. */
  lemma SetsBit(rf: seq<int>, j: nat, s: State, k: nat, d: Dial, e: nat, t: State)
    requires j < |rf| && Stands(s, k, d) && d.other == -1 && e < k && e != d.at && d.pages[e] == rf[j]
    requires NoRepeats(d.pages)
    requires t == Step(Clock, rf, j, s)
    ensures Stands(t, k, d.(other := e)) && t.faults == s.faults
  {
    var i := Slot(s.frames, rf[j]);
    assert s.frames[Ahead(k, d.base, e)] == rf[j];
    var f := Distance(k, d.base, i);
    assert s.frames[Ahead(k, d.base, f)] == d.pages[f] && f == e;
    forall e' | 0 <= e' < k
      ensures t.useBit[Ahead(k, d.base, e')] != 0 <==> e' == d.at || e' == e
    {
      if Ahead(k, d.base, e') == i {
        SameSlot(k, d.base, e', e);
      }
    }
  }

  /** The same dial, seen from its last slot. */
  lemma FromLast(s: State, k: nat, d: Dial, turned: seq<int>)
    requires k > 1 && Stands(s, k, d) && d.at == k - 1 && d.other == k - 2
    requires turned == [d.pages[k - 1]] + d.pages[..k - 1]
    ensures Stands(s, k, Dial(Ahead(k, d.base, k - 1), turned, 0, k - 1))
  {
    var g := Ahead(k, d.base, k - 1);
    forall e | 0 <= e < k
      ensures s.frames[Ahead(k, g, e)] == turned[e]
      ensures s.useBit[Ahead(k, g, e)] != 0 <==> e == 0 || e == k - 1
    {
      assert Ahead(k, g, e) == if e == 0 then Ahead(k, d.base, k - 1) else Ahead(k, d.base, e - 1);
    }
  }

  // ---- one window ---------------------------------------------------------

  // A window asks for k of k + 1 pages.  In it the hand goes round twice: the first
  // round loads what the second evicts, and every reference but the last, which
  // sets the bit of the slot behind the hand, is a fault.  Afterwards the hand finds
  // the same pages in another order, and the page that the window did without is
  // missing from the next.  An adversary that evicts it at once has one fault in
  // each window.

  /** The first round asks for the missing page, and then for those of the slots from the second to the last but one. */
  function InRoundOne(k: nat, e: nat): nat {
    if e == 0 then k else e
  }

  /** The second round asks for the page of the first slot, and then for those the first one has loaded. */
  function InRoundTwo(k: nat, e: nat): nat {
    if e == 0 then 0 else InRoundOne(k, e - 1)
  }

  /** Which page is in slot e after i faults of the first round. */
  function SlotInOne(k: nat, i: nat, e: nat): nat {
    if 1 <= e <= i then InRoundOne(k, e - 1) else e
  }

  /** And after i faults of the second. */
  function SlotInTwo(k: nat, i: nat, e: nat): nat
    requires k > 1
  {
    if e == 0 then InRoundOne(k, k - 2)
    else if e <= i then InRoundTwo(k, e - 1)
    else if e < k - 1 then InRoundOne(k, e - 1)
    else e
  }

  /** The reference number i of a window: two rounds of faults, and a hit on the slot behind the hand. */
  function Asked(k: nat, i: nat): nat
    requires k > 1
  {
    if i < k - 1 then InRoundOne(k, i)
    else if i < 2 * k - 2 then InRoundTwo(k, i - (k - 1))
    else SlotInTwo(k, k - 1, k - 2)
  }

  function PagesInOne(k: nat, q: seq<int>, i: nat): seq<int>
    requires |q| == k + 1 && i < k - 1
  {
    seq(k, e requires 0 <= e < k => q[SlotInOne(k, i, e)])
  }

  function PagesInTwo(k: nat, q: seq<int>, i: nat): seq<int>
    requires k > 1 && |q| == k + 1 && i < k
  {
    seq(k, e requires 0 <= e < k => q[SlotInTwo(k, i, e)])
  }

  /** The order after a window: the last slot comes first, and the page it does without is missing from the next. */
  function NextOrder(k: nat, q: seq<int>): (r: seq<int>)
    requires k > 1 && |q| == k + 1
    ensures |r| == k + 1
  {
    seq(k + 1, e requires 0 <= e < k + 1 => q[NextAt(k, e)])
  }

  /** Where the pages stood before a window. */
  function NextAt(k: nat, e: nat): (i: nat)
    requires k > 1 && e <= k
    ensures i <= k
  {
    if e == 0 then SlotInTwo(k, k - 1, k - 1) else if e < k then SlotInTwo(k, k - 1, e - 1) else k - 1
  }

  lemma NextDistinct(k: nat, q: seq<int>)
    requires k > 1 && |q| == k + 1 && NoRepeats(q) && forall e :: 0 <= e <= k ==> 0 <= q[e] <= k
    ensures NoRepeats(NextOrder(k, q)) && forall e :: 0 <= e <= k ==> 0 <= NextOrder(k, q)[e] <= k
  {
    var r := NextOrder(k, q);
    forall i, j | 0 <= i < j < |r|
      ensures r[i] != r[j]
    {
      NextApart(k, i, j);
      assert r[i] == q[NextAt(k, i)] && r[j] == q[NextAt(k, j)];
    }
  }

  lemma NextApart(k: nat, i: nat, j: nat)
    requires k > 1 && i < j <= k
    ensures NextAt(k, i) != NextAt(k, j)
  {
  }

  /** Before window n, the pages in the order in which the hand finds them, and last the one that is in no slot. */
  function Order(k: nat, n: nat): (q: seq<int>)
    requires k > 1
    ensures |q| == k + 1
  {
    if n == 0 then seq(k + 1, e requires 0 <= e < k + 1 => if e == 0 then k - 1 else if e < k then e - 1 else k)
    else NextOrder(k, Order(k, n - 1))
  }

  lemma {:induction false} OrderDistinct(k: nat, n: nat)
    requires k > 1
    ensures NoRepeats(Order(k, n)) && forall e :: 0 <= e <= k ==> 0 <= Order(k, n)[e] <= k
  {
    if n > 0 {
      OrderDistinct(k, n - 1);
      NextDistinct(k, Order(k, n - 1));
    }
  }

  /** The dial after i references of window n. */
  function InWindow(k: nat, h: nat, n: nat, i: nat): Dial
    requires k > 1 && i < 2 * k
  {
    if i < k - 1 then Dial(h, PagesInOne(k, Order(k, n), i), i, k - 1)
    else if i < 2 * k - 1 then Dial(h, PagesInTwo(k, Order(k, n), i - (k - 1)), i - (k - 1), -1)
    else Dial(h, PagesInTwo(k, Order(k, n), k - 1), k - 1, k - 2)
  }

  lemma FaultInOne(k: nat, q: seq<int>, i: nat)
    requires k > 1 && |q| == k + 1 && NoRepeats(q) && i < k - 2
    ensures q[InRoundOne(k, i)] !in PagesInOne(k, q, i)
    ensures PagesInOne(k, q, i)[i + 1 := q[InRoundOne(k, i)]] == PagesInOne(k, q, i + 1)
  {
  }

  lemma FaultBetween(k: nat, q: seq<int>, i: nat)
    requires k > 1 && |q| == k + 1 && NoRepeats(q) && i == k - 2
    ensures q[InRoundOne(k, i)] !in PagesInOne(k, q, i)
    ensures PagesInOne(k, q, i)[0 := q[InRoundOne(k, i)]] == PagesInTwo(k, q, 0)
  {
  }

  lemma FaultInTwo(k: nat, q: seq<int>, i: nat)
    requires k > 1 && |q| == k + 1 && NoRepeats(q) && i < k - 1
    ensures q[InRoundTwo(k, i)] !in PagesInTwo(k, q, i)
    ensures PagesInTwo(k, q, i)[i + 1 := q[InRoundTwo(k, i)]] == PagesInTwo(k, q, i + 1)
  {
  }

  lemma AllInTwo(k: nat, q: seq<int>)
    requires k > 1 && |q| == k + 1 && NoRepeats(q)
    ensures NoRepeats(PagesInTwo(k, q, k - 1))
  {
  }

  lemma OrderFaultInOne(k: nat, n: nat, i: nat, pages: seq<int>, p: int)
    requires k > 1 && i < k - 2 && pages == PagesInOne(k, Order(k, n), i) && p == Order(k, n)[InRoundOne(k, i)]
    ensures p !in pages && pages[i + 1 := p] == PagesInOne(k, Order(k, n), i + 1)
  {
    OrderDistinct(k, n);
    FaultInOne(k, Order(k, n), i);
  }

  lemma OrderFaultBetween(k: nat, n: nat, i: nat, pages: seq<int>, p: int)
    requires k > 1 && i == k - 2 && pages == PagesInOne(k, Order(k, n), i) && p == Order(k, n)[InRoundOne(k, i)]
    ensures p !in pages && pages[0 := p] == PagesInTwo(k, Order(k, n), 0)
  {
    OrderDistinct(k, n);
    FaultBetween(k, Order(k, n), i);
  }

  lemma OrderFaultInTwo(k: nat, n: nat, i: nat, pages: seq<int>, p: int)
    requires k > 1 && i < k - 1 && pages == PagesInTwo(k, Order(k, n), i) && p == Order(k, n)[InRoundTwo(k, i)]
    ensures p !in pages && pages[i + 1 := p] == PagesInTwo(k, Order(k, n), i + 1)
  {
    OrderDistinct(k, n);
    FaultInTwo(k, Order(k, n), i);
  }

  lemma OrderAllInTwo(k: nat, n: nat, pages: seq<int>)
    requires k > 1 && pages == PagesInTwo(k, Order(k, n), k - 1)
    ensures NoRepeats(pages)
  {
    OrderDistinct(k, n);
    AllInTwo(k, Order(k, n));
  }

  /** Clock stands as it should after i references of window n. */
  ghost function Stand(k: nat, h: nat, n: nat): (int, State) -> bool
    requires k > 1
  {
    (i: int, s: State) => 0 <= i < 2 * k && Stands(s, k, InWindow(k, h, n, i))
  }

  lemma StandsIn(k: nat, h: nat, n: nat, i: nat, s: State, d: Dial)
    requires k > 1 && i < 2 * k && d == InWindow(k, h, n, i)
    ensures Stand(k, h, n)(i, s) <==> Stands(s, k, d)
  {
  }

  lemma RefInOne(rf: seq<int>, j: nat, s: State, k: nat, h: nat, n: nat, i: nat, d: Dial, t: State)
    requires j < |rf| && k > 1 && i < k - 2 && Stand(k, h, n)(i, s) && d == Dial(h, PagesInOne(k, Order(k, n), i), i, k - 1)
    requires rf[j] == Order(k, n)[InRoundOne(k, i)] && t == Step(Clock, rf, j, s)
    ensures t.faults == s.faults + 1 && Stand(k, h, n)(i + 1, t)
  {
    OrderFaultInOne(k, n, i, d.pages, rf[j]);
    StandsIn(k, h, n, i, s, d);
    NextSlot(rf, j, s, k, d, t);
    StandsIn(k, h, n, i + 1, t, Dial(h, d.pages[d.at + 1 := rf[j]], d.at + 1, d.other));
  }

  lemma RefBetween(rf: seq<int>, j: nat, s: State, k: nat, h: nat, n: nat, i: nat, d: Dial, t: State)
    requires j < |rf| && k > 1 && i == k - 2 && Stand(k, h, n)(i, s) && d == Dial(h, PagesInOne(k, Order(k, n), i), i, k - 1)
    requires rf[j] == Order(k, n)[InRoundOne(k, i)] && t == Step(Clock, rf, j, s)
    ensures t.faults == s.faults + 1 && Stand(k, h, n)(i + 1, t)
  {
    OrderFaultBetween(k, n, i, d.pages, rf[j]);
    StandsIn(k, h, n, i, s, d);
    FirstSlot(rf, j, s, k, d, t);
    StandsIn(k, h, n, i + 1, t, Dial(h, d.pages[0 := rf[j]], 0, -1));
  }

  lemma RefInTwo(rf: seq<int>, j: nat, s: State, k: nat, h: nat, n: nat, i: nat, t: State)
    requires j < |rf| && k - 1 <= i < 2 * k - 2 && Stand(k, h, n)(i, s)
    requires rf[j] == Order(k, n)[InRoundTwo(k, i - (k - 1))] && t == Step(Clock, rf, j, s)
    ensures t.faults == s.faults + 1 && Stand(k, h, n)(i + 1, t)
  {
    var at := i - (k - 1);
    var pages := PagesInTwo(k, Order(k, n), at);
    OrderFaultInTwo(k, n, at, pages, rf[j]);
    StandsIn(k, h, n, i, s, Dial(h, pages, at, -1));
    NextSlot(rf, j, s, k, Dial(h, pages, at, -1), t);
    StandsIn(k, h, n, i + 1, t, Dial(h, pages[at + 1 := rf[j]], at + 1, -1));
  }

  lemma LastRef(rf: seq<int>, j: nat, s: State, k: nat, h: nat, n: nat, i: nat, t: State)
    requires j < |rf| && k > 1 && i == 2 * k - 2 && Stand(k, h, n)(i, s)
    requires rf[j] == Order(k, n)[SlotInTwo(k, k - 1, k - 2)] && t == Step(Clock, rf, j, s)
    ensures t.faults == s.faults && Stand(k, h, n)(i + 1, t)
  {
    var pages := PagesInTwo(k, Order(k, n), k - 1);
    OrderAllInTwo(k, n, pages);
    StandsIn(k, h, n, i, s, Dial(h, pages, k - 1, -1));
    SetsBit(rf, j, s, k, Dial(h, pages, k - 1, -1), k - 2, t);
    StandsIn(k, h, n, i + 1, t, Dial(h, pages, k - 1, k - 2));
  }

  lemma WindowRef(rf: seq<int>, j: nat, s: State, k: nat, h: nat, n: nat, i: nat, t: State)
    requires j < |rf| && k > 1 && i < 2 * k - 1 && Stand(k, h, n)(i, s)
    requires rf[j] == Order(k, n)[Asked(k, i)] && t == Step(Clock, rf, j, s)
    ensures Stand(k, h, n)(i + 1, t) && t.faults == s.faults + if i < 2 * k - 2 then 1 else 0
  {
    if i < k - 2 {
      RefInOne(rf, j, s, k, h, n, i, InWindow(k, h, n, i), t);
    } else if i == k - 2 {
      RefBetween(rf, j, s, k, h, n, i, InWindow(k, h, n, i), t);
    } else if i < 2 * k - 2 {
      RefInTwo(rf, j, s, k, h, n, i, t);
    } else {
      LastRef(rf, j, s, k, h, n, i, t);
    }
  }

  /** Window n begins at rf[j]. */
  predicate AsksAt(rf: seq<int>, j: nat, k: nat, n: nat) {
    k > 1 && j + (2 * k - 1) <= |rf| && forall m :: j <= m < j + (2 * k - 1) ==> rf[m] == Order(k, n)[Asked(k, m - j)]
  }

  /** Where clock stands before rf[m], having had `before` faults before window n at rf[j]. */
  ghost function Holding(k: nat, h: nat, n: nat, before: nat, j: nat): (nat, State) -> bool
    requires k > 1
  {
    (m: nat, s: State) => j <= m && (m - j < 2 * k ==>
      Stand(k, h, n)(m - j, s) && s.faults == before + if m - j < 2 * k - 1 then m - j else 2 * k - 2)
  }

  lemma HoldingNext(rf: seq<int>, k: nat, h: nat, n: nat, before: nat, j: nat, m: nat, s: State, t: State)
    requires AsksAt(rf, j, k, n) && m < |rf| && s.Valid(k) && Holding(k, h, n, before, j)(m, s) && t == Step(Clock, rf, m, s)
    ensures Holding(k, h, n, before, j)(m + 1, t)
  {
    if m - j < 2 * k - 1 {
      WindowRef(rf, m, s, k, h, n, m - j, t);
    }
  }

  lemma HoldingThroughout(rf: seq<int>, k: nat, h: nat, n: nat, before: nat, j: nat, end: nat)
    requires AsksAt(rf, j, k, n) && end == j + (2 * k - 1)
    requires Holding(k, h, n, before, j)(j, Run(Clock, rf, k, j))
    ensures Holding(k, h, n, before, j)(end, Run(Clock, rf, k, end))
  {
    var holds := Holding(k, h, n, before, j);
    forall m: nat, s: State | m < |rf| && s.Valid(k) && holds(m, s)
      ensures holds(m + 1, Step(Clock, rf, m, s))
    {
      HoldingNext(rf, k, h, n, before, j, m, s, Step(Clock, rf, m, s));
    }
    HoldsThroughout(Clock, rf, k, holds, j, end);
  }

  lemma HoldingFirst(k: nat, h: nat, n: nat, j: nat, a: State)
    requires k > 1 && Stand(k, h, n)(0, a)
    ensures Holding(k, h, n, a.faults, j)(j, a)
  {
  }

  lemma HoldingLast(k: nat, h: nat, n: nat, before: nat, j: nat, end: nat, i: nat, b: State)
    requires k > 1 && i == 2 * k - 1 && end == j + i && Holding(k, h, n, before, j)(end, b)
    ensures Stand(k, h, n)(i, b) && b.faults == before + 2 * k - 2
  {
    assert end - j == i;
  }

  lemma ThroughWindow(rf: seq<int>, k: nat, h: nat, n: nat, j: nat, a: State, end: nat, i: nat, b: State)
    requires AsksAt(rf, j, k, n) && i == 2 * k - 1 && end == j + i
    requires a == Run(Clock, rf, k, j) && b == Run(Clock, rf, k, end) && Stand(k, h, n)(0, a)
    ensures Stand(k, h, n)(i, b) && b.faults == a.faults + 2 * k - 2
  {
    HoldingFirst(k, h, n, j, a);
    HoldingThroughout(rf, k, h, n, a.faults, j, end);
    HoldingLast(k, h, n, a.faults, j, end, i, b);
  }

  lemma NextPages(k: nat, q: seq<int>, pages: seq<int>, turned: seq<int>)
    requires k > 1 && |q| == k + 1 && pages == PagesInTwo(k, q, k - 1) && turned == [pages[k - 1]] + pages[..k - 1]
    ensures PagesInOne(k, NextOrder(k, q), 0) == turned
  {
  }

  lemma NextBegins(s: State, k: nat, h: nat, n: nat, i: nat) returns (g: nat)
    requires k > 1 && i == 2 * k - 1 && Stand(k, h, n)(i, s)
    ensures Stand(k, g, n + 1)(0, s)
  {
    var d := Dial(h, PagesInTwo(k, Order(k, n), k - 1), k - 1, k - 2);
    StandsIn(k, h, n, i, s, d);
    g := TurnToNext(s, k, n, d);
  }

  lemma TurnToNext(s: State, k: nat, n: nat, d: Dial) returns (g: nat)
    requires k > 1 && Stands(s, k, d) && d.pages == PagesInTwo(k, Order(k, n), k - 1) && d.at == k - 1 && d.other == k - 2
    ensures Stand(k, g, n + 1)(0, s)
  {
    g := Ahead(k, d.base, k - 1);
    var turned := [d.pages[k - 1]] + d.pages[..k - 1];
    FromLast(s, k, d, turned);
    NextPages(k, Order(k, n), d.pages, turned);
    StandsIn(k, g, n + 1, 0, s, Dial(g, turned, 0, k - 1));
  }

  /** At rf[j], after so many faults, clock stands as before window n. */
  ghost function BeginsAt(rf: seq<int>, k: nat): (nat, nat, nat) -> bool
    requires k > 1
  {
    (j: nat, n: nat, faults: nat) =>
      j <= |rf| && Ready(k, n, faults, Run(Clock, rf, k, j))
  }

  ghost predicate Ready(k: nat, n: nat, faults: nat, s: State)
    requires k > 1
  {
    s.faults == faults && exists h: nat :: Stand(k, h, n)(0, s)
  }

  lemma BeginsHere(rf: seq<int>, k: nat, j: nat, n: nat, faults: nat, h: nat, s: State)
    requires k > 1 && j <= |rf| && s == Run(Clock, rf, k, j) && s.faults == faults && Stand(k, h, n)(0, s)
    ensures BeginsAt(rf, k)(j, n, faults)
  {
    assert Ready(k, n, faults, s);
  }

  lemma StandsThere(rf: seq<int>, k: nat, j: nat, n: nat, faults: nat, s: State)
    requires k > 1 && j <= |rf| && BeginsAt(rf, k)(j, n, faults) && s == Run(Clock, rf, k, j)
    ensures Ready(k, n, faults, s)
  {
  }

  /** A window costs clock 2k - 2 faults, and after it the hand finds the same pages in another order. */
  lemma WholeWindow(rf: seq<int>, k: nat, n: nat, next: nat, j: nat, i: nat, end: nat, before: nat, after: nat)
    requires AsksAt(rf, j, k, n) && i == 2 * k - 1 && end == j + i && next == n + 1 && after == before + i - 1
    requires BeginsAt(rf, k)(j, n, before)
    ensures BeginsAt(rf, k)(end, next, after)
  {
    var a, b := Run(Clock, rf, k, j), Run(Clock, rf, k, end);
    StandsThere(rf, k, j, n, before, a);
    var h := ReadyThere(k, n, before, a);
    ThroughWindow(rf, k, h, n, j, a, end, i, b);
    var g := NextBegins(b, k, h, n, i);
    BeginsHere(rf, k, end, next, after, g, b);
  }

  lemma ReadyThere(k: nat, n: nat, faults: nat, s: State) returns (h: nat)
    requires k > 1 && Ready(k, n, faults, s)
    ensures s.faults == faults && Stand(k, h, n)(0, s)
  {
    h :| Stand(k, h, n)(0, s);
  }

  // ---- many windows -------------------------------------------------------

  /** Pages 0..k-1, and a hit on the last but one. */
  function Opening(k: nat): (r: seq<int>)
    requires k > 1
    ensures |r| == k + 1
  {
    seq(k + 1, i requires 0 <= i < k + 1 => if i < k then i else k - 2)
  }

  function Window(k: nat, n: nat): (r: seq<int>)
    requires k > 1
    ensures |r| == 2 * k - 1
  {
    seq(2 * k - 1, i requires 0 <= i < 2 * k - 1 => Order(k, n)[Asked(k, i)])
  }

  /** The opening and n windows. */
  function Refs(k: nat, n: nat): (r: seq<int>)
    requires k > 1
    ensures |r| > k
  {
    if n == 0 then Opening(k) else Refs(k, n - 1) + Window(k, n - 1)
  }

  /** The adversary has each page in a free frame, and then does without the page that the window does not ask for. */
  function Caches(k: nat, n: nat): (r: seq<set<int>>)
    requires k > 1
    ensures |r| == |Refs(k, n)| + 1
  {
    if n == 0 then seq(k + 2, i requires 0 <= i < k + 2 => Range(if i < k then i else k))
    else Caches(k, n - 1) + seq(2 * k - 1, _ => Range(k + 1) - {Order(k, n - 1)[k - 1]})
  }

  lemma WindowAt(rf: seq<int>, k: nat, n: nat, j: nat, end: nat)
    requires k > 1 && n > 0 && j == |Refs(k, n - 1)| && end == |Refs(k, n)| <= |rf| && rf[..end] == Refs(k, n)
    ensures end == j + (2 * k - 1) && rf[..j] == Refs(k, n - 1) && AsksAt(rf, j, k, n - 1)
  {
    assert rf[..j] == rf[..end][..j];
    forall m | j <= m < end
      ensures rf[m] == Order(k, n - 1)[Asked(k, m - j)]
    {
      assert rf[m] == rf[..end][m] == Window(k, n - 1)[m - j];
    }
  }

  function Times(n: nat, x: nat): nat {
    if n == 0 then 0 else Times(n - 1, x) + x
  }

  lemma {:induction false} TimesIs(n: nat, x: nat)
    ensures Times(n, x) == n * x
  {
    if n > 0 {
      TimesIs(n - 1, x);
    }
  }

  lemma {:induction false} ManyWindows(rf: seq<int>, k: nat, n: nat, end: nat, total: nat, x: nat)
    requires k > 1 && end == |Refs(k, n)| <= |rf| && rf[..end] == Refs(k, n) && x == 2 * k - 2 && total == k + Times(n, x)
    ensures BeginsAt(rf, k)(end, n, total)
  {
    if n > 0 {
      var m, before := n - 1, k + Times(n - 1, x);
      var j := |Refs(k, m)|;
      WindowAt(rf, k, n, j, end);
      ManyWindows(rf, k, m, j, before, x);
      WholeWindow(rf, k, m, n, j, 2 * k - 1, end, before, total);
    } else {
      Opened(rf, k, end, n, total);
    }
  }

  // ---- the opening --------------------------------------------------------

  function Filling(k: nat, n: nat): Dial {
    Dial(0, seq(k, e => if e < n then e else EMPTY), n - 1, -1)
  }

  lemma FirstPage(rf: seq<int>, k: nat)
    requires k > 1 && rf != [] && rf[0] == 0
    ensures Stands(Step(Clock, rf, 0, Initial(k)), k, Filling(k, 1)) && Step(Clock, rf, 0, Initial(k)).faults == 1
  {
    var s := Initial(k);
    var t := s.(frames := s.frames[0 := 0], faults := 1, useBit := Cleared(s.useBit, 0, 0)[0 := 1], hand := 0);
    ClockWindows.FaultAt(rf, k, 0, s, 0, 0, t);
  }

  ghost function Fills(k: nat): (nat, State) -> bool {
    (n: nat, s: State) => 0 < n && (n <= k ==> Stands(s, k, Filling(k, n)) && s.faults == n)
  }

  lemma FillsNext(rf: seq<int>, k: nat, n: nat, s: State, t: State)
    requires k > 1 && n < |rf| && s.Valid(k) && Fills(k)(n, s) && (n < k ==> rf[n] == n) && t == Step(Clock, rf, n, s)
    ensures Fills(k)(n + 1, t)
  {
    if n < k {
      assert Filling(k, n).pages[n := n] == Filling(k, n + 1).pages;
      NextSlot(rf, n, s, k, Filling(k, n), t);
    }
  }

  lemma Filled(rf: seq<int>, k: nat, s: State)
    requires k > 1 && |rf| > k && (forall i :: 0 <= i < k ==> rf[i] == i) && s == Run(Clock, rf, k, k)
    ensures Fills(k)(k, s)
  {
    var holds := Fills(k);
    FirstPage(rf, k);
    assert holds(1, Run(Clock, rf, k, 1));
    forall n: nat, s: State | n < |rf| && s.Valid(k) && holds(n, s)
      ensures holds(n + 1, Step(Clock, rf, n, s))
    {
      FillsNext(rf, k, n, s, Step(Clock, rf, n, s));
    }
    HoldsThroughout(Clock, rf, k, holds, 1, k);
  }

  lemma Opened(rf: seq<int>, k: nat, end: nat, n: nat, total: nat)
    requires k > 1 && |rf| > k && rf[..k + 1] == Opening(k) && end == k + 1 && n == 0 && total == k
    ensures BeginsAt(rf, k)(end, n, total)
  {
    forall i | 0 <= i <= k
      ensures rf[i] == if i < k then i else k - 2
    {
      assert rf[i] == rf[..k + 1][i];
    }
    var s, t := Run(Clock, rf, k, k), Run(Clock, rf, k, end);
    Filled(rf, k, s);
    RunNext(Clock, rf, k, k, s, t);
    HitAfterFilling(rf, k, s, t);
    BeginsHere(rf, k, end, n, total, k - 1, t);
  }

  lemma HitAfterFilling(rf: seq<int>, k: nat, s: State, t: State)
    requires k > 1 && |rf| > k && rf[k] == k - 2 && Fills(k)(k, s) && t == Step(Clock, rf, k, s)
    ensures Stand(k, k - 1, 0)(0, t) && t.faults == k
  {
    var d := Filling(k, k);
    SetsBit(rf, k, s, k, d, k - 2, t);
    var turned := [d.pages[k - 1]] + d.pages[..k - 1];
    FromLast(t, k, d.(other := k - 2), turned);
    assert PagesInOne(k, Order(k, 0), 0) == turned;
    StandsIn(k, k - 1, 0, 0, t, Dial(k - 1, turned, 0, k - 1));
  }

  // ---- the adversary ------------------------------------------------------

  lemma AllButOne(k: nat, p: int)
    requires 0 <= p <= k
    ensures |Range(k + 1) - {p}| == k
  {
    assert Range(k + 1) == (Range(k + 1) - {p}) + {p};
  }

  /** What the adversary misses before window n. */
  function Missing(k: nat, n: nat): int
    requires k > 1
  {
    Order(k, n)[k]
  }

  /** A window begins with the last page of its order, and does not ask for the one before. */
  lemma AskedPlaces(k: nat, i: nat)
    requires k > 1 && i < 2 * k - 1
    ensures Asked(k, i) <= k && Asked(k, i) != k - 1 && Asked(k, 0) == k
  {
  }

  /** A window from rf[j] to rf[end] begins with page x and does not ask for page y. */
  predicate Avoids(rf: seq<int>, j: nat, end: nat, k: nat, x: int, y: int) {
    && j < end <= |rf| && rf[j] == x && 0 <= y <= k
    && forall m :: j <= m < end ==> 0 <= rf[m] <= k && rf[m] != y
  }

  lemma WindowAvoids(rf: seq<int>, j: nat, end: nat, k: nat, n: nat)
    requires AsksAt(rf, j, k, n) && end == j + (2 * k - 1)
    ensures Avoids(rf, j, end, k, Missing(k, n), Missing(k, n + 1))
  {
    OrderDistinct(k, n);
    OrderAvoids(rf, j, end, k, Order(k, n));
  }

  lemma OrderAvoids(rf: seq<int>, j: nat, end: nat, k: nat, q: seq<int>)
    requires k > 1 && end == j + (2 * k - 1) <= |rf| && |q| == k + 1 && NoRepeats(q)
    requires forall e :: 0 <= e <= k ==> 0 <= q[e] <= k
    requires forall m :: j <= m < end ==> rf[m] == q[Asked(k, m - j)]
    ensures Avoids(rf, j, end, k, q[k], q[k - 1])
  {
    AskedPlaces(k, 0);
    forall m | j <= m < end
      ensures 0 <= rf[m] <= k && rf[m] != q[k - 1]
    {
      AskedPlaces(k, m - j);
    }
  }

  /** The adversary's caches meanwhile. */
  ghost predicate Does(theirs: seq<set<int>>, j: nat, end: nat, k: nat, x: int, y: int) {
    && j <= end < |theirs| && theirs[j] == Range(k + 1) - {x}
    && forall e :: j < e <= end ==> theirs[e] == Range(k + 1) - {y}
  }

  lemma TheirRef(k: nat, p: int, x: int, y: int, first: bool, before: set<int>, after: set<int>)
    requires 0 <= p <= k && 0 <= y <= k && p != y && after == Range(k + 1) - {y}
    requires if first then p == x && before == Range(k + 1) - {x} else before == after
    ensures Serves(k, p, before, after) && (p in before <==> !first)
  {
    AllButOne(k, y);
  }

  /** In a window the adversary faults once. */
  lemma {:induction false} TheirWindow(rf: seq<int>, theirs: seq<set<int>>, k: nat, x: int, y: int, j: nat, end: nat, e: nat)
    requires Avoids(rf, j, end, k, x, y) && |theirs| == |rf| + 1 && Does(theirs, j, end, k, x, y) && j <= e <= end
    ensures FaultsOf(rf, theirs, e) == FaultsOf(rf, theirs, j) + if e == j then 0 else 1
    ensures forall m :: j <= m < e ==> Serves(k, rf[m], theirs[m], theirs[m + 1])
  {
    if e > j {
      var m := e - 1;
      TheirWindow(rf, theirs, k, x, y, j, end, m);
      TheirRef(k, rf[m], x, y, m == j, theirs[m], theirs[e]);
    }
  }

  lemma CachesAt(theirs: seq<set<int>>, k: nat, n: nat, j: nat, end: nat)
    requires k > 1 && n > 0 && j == |Refs(k, n - 1)| && end == |Refs(k, n)| < |theirs| && theirs[..end + 1] == Caches(k, n)
    ensures theirs[..j + 1] == Caches(k, n - 1) && j <= end
    ensures forall e :: j < e <= end ==> theirs[e] == Range(k + 1) - {Missing(k, n)}
  {
    assert theirs[..j + 1] == theirs[..end + 1][..j + 1];
    forall e | j < e <= end
      ensures theirs[e] == Range(k + 1) - {Missing(k, n)}
    {
      assert theirs[e] == theirs[..end + 1][e];
    }
  }

  lemma {:induction false} TheirWindows(rf: seq<int>, theirs: seq<set<int>>, k: nat, n: nat, end: nat)
    requires k > 1 && end == |Refs(k, n)| <= |rf| && rf[..end] == Refs(k, n)
    requires |theirs| == |rf| + 1 && theirs[..end + 1] == Caches(k, n)
    ensures FaultsOf(rf, theirs, end) == k + n && theirs[end] == Range(k + 1) - {Missing(k, n)}
    ensures forall e :: 0 <= e < end ==> Serves(k, rf[e], theirs[e], theirs[e + 1])
  {
    if n > 0 {
      var j := TheirLast(rf, theirs, k, n, end);
      TheirWindows(rf, theirs, k, n - 1, j);
      TheirNext(rf, theirs, k, n, j, end);
    } else {
      TheyBegin(rf, theirs, k);
    }
  }

  lemma TheirNext(rf: seq<int>, theirs: seq<set<int>>, k: nat, n: nat, j: nat, end: nat)
    requires n > 0 && AsksAt(rf, j, k, n - 1) && end == j + (2 * k - 1) && |theirs| == |rf| + 1
    requires theirs[j] == Range(k + 1) - {Missing(k, n - 1)}
    requires forall e :: j < e <= end ==> theirs[e] == Range(k + 1) - {Missing(k, n)}
    ensures FaultsOf(rf, theirs, end) == FaultsOf(rf, theirs, j) + 1 && theirs[end] == Range(k + 1) - {Missing(k, n)}
    ensures forall e :: j <= e < end ==> Serves(k, rf[e], theirs[e], theirs[e + 1])
  {
    WindowAvoids(rf, j, end, k, n - 1);
    TheirWindow(rf, theirs, k, Missing(k, n - 1), Missing(k, n), j, end, end);
  }

  lemma TheirLast(rf: seq<int>, theirs: seq<set<int>>, k: nat, n: nat, end: nat) returns (j: nat)
    requires k > 1 && n > 0 && end == |Refs(k, n)| <= |rf| && rf[..end] == Refs(k, n)
    requires |theirs| == |rf| + 1 && theirs[..end + 1] == Caches(k, n)
    ensures j == |Refs(k, n - 1)| && rf[..j] == Refs(k, n - 1) && theirs[..j + 1] == Caches(k, n - 1)
    ensures end == j + (2 * k - 1) && AsksAt(rf, j, k, n - 1)
    ensures forall e :: j < e <= end ==> theirs[e] == Range(k + 1) - {Missing(k, n)}
  {
    j := |Refs(k, n - 1)|;
    WindowAt(rf, k, n, j, end);
    CachesAt(theirs, k, n, j, end);
  }

  lemma TheyBegin(rf: seq<int>, theirs: seq<set<int>>, k: nat)
    requires k > 1 && |rf| > k && |theirs| == |rf| + 1
    requires rf[..k + 1] == Opening(k) && theirs[..k + 2] == Caches(k, 0)
    ensures FaultsOf(rf, theirs, k + 1) == k && theirs[k + 1] == Range(k + 1) - {Missing(k, 0)}
    ensures forall e :: 0 <= e < k + 1 ==> Serves(k, rf[e], theirs[e], theirs[e + 1])
  {
    forall e | 0 <= e <= k + 1
      ensures theirs[e] == Caches(k, 0)[e] && (e <= k ==> rf[e] == Opening(k)[e])
    {
      assert theirs[e] == theirs[..k + 2][e] && (e <= k ==> rf[e] == rf[..k + 1][e]);
    }
    assert Range(k) == Range(k + 1) - {k};
    TheyOpen(rf, theirs, k, k + 1);
  }

  lemma TheyLoad(k: nat, j: nat)
    requires k > 1 && j <= k
    ensures Serves(k, Opening(k)[j], Caches(k, 0)[j], Caches(k, 0)[j + 1])
    ensures Opening(k)[j] in Caches(k, 0)[j] <==> j == k
  {
    assert Caches(k, 0)[j] == Range(j) && Caches(k, 0)[j + 1] == Range(if j < k then j + 1 else k);
  }

  lemma {:induction false} TheyOpen(rf: seq<int>, theirs: seq<set<int>>, k: nat, j: nat)
    requires k > 1 && |rf| > k && |theirs| == |rf| + 1 && j <= k + 1
    requires forall e :: 0 <= e <= k ==> rf[e] == Opening(k)[e]
    requires forall e :: 0 <= e <= k + 1 ==> theirs[e] == Caches(k, 0)[e]
    ensures FaultsOf(rf, theirs, j) == if j < k then j else k
    ensures forall e :: 0 <= e < j ==> Serves(k, rf[e], theirs[e], theirs[e + 1])
  {
    if j > 0 {
      TheyOpen(rf, theirs, k, j - 1);
      TheyLoad(k, j - 1);
    }
  }

  // ---- the ratio ----------------------------------------------------------

  /** Clock with k > 1 frames can fault 2k - 2 times for each fault of an adversary with as many, for ever. */
  lemma RatioIsReached(k: nat, n: nat) returns (rf: seq<int>, theirs: seq<set<int>>)
    requires k > 1
    ensures Proper(Clock, rf) && IsDemandPaging(rf, k, theirs)
    ensures Run(Clock, rf, k, |rf|).faults == k + n * (2 * k - 2)
    ensures FaultsOf(rf, theirs, |rf|) == k + n
  {
    rf, theirs := ManyRefs(k, n, k + Times(n, 2 * k - 2));
    TimesIs(n, 2 * k - 2);
  }

  lemma ManyRefs(k: nat, n: nat, total: nat) returns (rf: seq<int>, theirs: seq<set<int>>)
    requires k > 1 && total == k + Times(n, 2 * k - 2)
    ensures Proper(Clock, rf) && IsDemandPaging(rf, k, theirs)
    ensures Run(Clock, rf, k, |rf|).faults == total && FaultsOf(rf, theirs, |rf|) == k + n
  {
    rf, theirs := Refs(k, n), Caches(k, n);
    NoMarker(k, n);
    OurFaults(rf, k, n, |rf|, total);
    TheirFaults(rf, theirs, k, n);
  }

  lemma TheirFaults(rf: seq<int>, theirs: seq<set<int>>, k: nat, n: nat)
    requires k > 1 && rf == Refs(k, n) && theirs == Caches(k, n)
    ensures IsDemandPaging(rf, k, theirs) && FaultsOf(rf, theirs, |rf|) == k + n
  {
    assert rf[..|rf|] == rf && theirs[..|rf| + 1] == theirs;
    TheirWindows(rf, theirs, k, n, |rf|);
    StartsEmpty(k, n);
  }

  lemma {:induction false} NoMarker(k: nat, n: nat)
    requires k > 1
    ensures EMPTY !in Refs(k, n)
  {
    if n > 0 {
      NoMarker(k, n - 1);
      OrderDistinct(k, n - 1);
    }
  }

  lemma {:induction false} StartsEmpty(k: nat, n: nat)
    requires k > 1
    ensures Caches(k, n)[0] == {}
  {
    if n > 0 {
      StartsEmpty(k, n - 1);
    } else {
      assert Range(0) == {};
    }
  }

  lemma OurFaults(rf: seq<int>, k: nat, n: nat, end: nat, total: nat)
    requires k > 1 && rf == Refs(k, n) && end == |rf| && total == k + Times(n, 2 * k - 2)
    ensures Run(Clock, rf, k, end).faults == total
  {
    assert rf[..end] == rf;
    ManyWindows(rf, k, n, end, total, 2 * k - 2);
    StandsThere(rf, k, end, n, total, Run(Clock, rf, k, end));
  }

  /** Clock with k frames faults at most c times as often as any demand paging with k frames, and b times more. */
  ghost predicate Competes(k: nat, c: nat, b: nat)
    requires k > 0
  {
    forall rf: seq<int>, theirs: seq<set<int>> :: Proper(Clock, rf) && IsDemandPaging(rf, k, theirs) ==>
      Run(Clock, rf, k, |rf|).faults <= c * FaultsOf(rf, theirs, |rf|) + b
  }

  /** The competitive ratio of clock is 2k - 2, and no smaller. */
  lemma ClockRatioIff(k: nat, c: nat)
    requires k > 1
    ensures (exists b: nat :: Competes(k, c, b)) <==> c >= 2 * k - 2
  {
    if c >= 2 * k - 2 {
      forall rf: seq<int>, theirs: seq<set<int>> | Proper(Clock, rf) && IsDemandPaging(rf, k, theirs)
        ensures Run(Clock, rf, k, |rf|).faults <= c * FaultsOf(rf, theirs, |rf|) + 0
      {
        ClockWindows.ClockCompetitive(rf, k, k, theirs, |rf|);
        AtLeastTimes(2 * k - 2, c, FaultsOf(rf, theirs, |rf|));
      }
      assert Competes(k, c, 0);
    } else if b: nat :| Competes(k, c, b) {
      var n := c * k + b;
      var rf, theirs := RatioIsReached(k, n);
      TooMany(k, c, b, n);
    }
  }

  lemma AtLeastTimes(a: nat, c: nat, x: nat)
    requires a <= c
    ensures a * x <= c * x
  {
  }

  lemma TooMany(k: nat, c: nat, b: nat, n: nat)
    requires k > 1 && c < 2 * k - 2 && n == c * k + b
    ensures k + n * (2 * k - 2) > c * (k + n) + b
  {
    AtLeastTimes(1, 2 * k - 2 - c, n);
    assert n * (2 * k - 2) == n * (2 * k - 2 - c) + n * c;
    assert c * (k + n) == c * k + n * c;
  }
}
