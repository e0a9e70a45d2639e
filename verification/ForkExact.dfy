/** The arrays that processes sum exactly: left halves fit, and without the last one reaped no more than 256 is held. */
module ForkExact {
  import opened Sums
  import opened ForkSum

  function Span(nums: seq<int>, start: nat, end: nat): int
    requires start <= end <= |nums|
  {
    Sum(nums[start..end])
  }

  /** The smallest sum of a left half on the right spine. */
  function SmallestLeft(nums: seq<int>, start: nat, end: nat): int
    requires start <= end <= |nums| && end - start > 1
    decreases end - start
  {
    var mid := Mid(start, end);
    var left := Span(nums, start, mid);
    if end - mid > 1 && SmallestLeft(nums, mid, end) < left then SmallestLeft(nums, mid, end) else left
  }

  /** Every left half on the right spine is summed exactly and fits into an exit code. */
  predicate LeftsFit(nums: seq<int>, start: nat, end: nat)
    requires start <= end <= |nums|
    decreases end - start, 0
  {
    end - start <= 1 ||
    var mid := Mid(start, end);
    Span(nums, start, mid) <= 255 && Exact(nums, start, mid) && LeftsFit(nums, mid, end)
  }

  /** And all of the process's numbers but its smallest left half come to at most 256. */
  predicate Exact(nums: seq<int>, start: nat, end: nat)
    requires start <= end <= |nums|
    decreases end - start, 1
  {
    LeftsFit(nums, start, end) &&
    (end - start > 1 ==> Span(nums, start, end) - SmallestLeft(nums, start, end) <= 256)
  }

  predicate AtLeast(s: seq<int>, m: int) {
    forall i :: 0 <= i < |s| ==> s[i] >= m
  }

  // ---- exact arrays -------------------------------------------------------

  /** An element that is picked, and what stays. */
  lemma PickedAtLeast(s: seq<int>, i: nat, without: seq<int>, m: int)
    requires AtLeast(s, m) && i < |s| && without == Without(s, i)
    ensures AtLeast(without, m) && Sum(without) + s[i] == Sum(s)
  {
    SumWithout(s, i, without);
  }

  /** A non-empty list of numbers of at least m >= 0 sums to at least m. */
  lemma {:induction false} SumAtLeast(s: seq<int>, m: int)
    requires AtLeast(s, m) && m >= 0
    ensures Sum(s) >= 0 && (s != [] ==> Sum(s) >= m)
  {
    if s != [] {
      SumAtLeast(s[..|s| - 1], m);
    }
  }

  lemma OneNumber(nums: seq<int>, start: nat)
    requires start < |nums|
    ensures Span(nums, start, start + 1) == nums[start]
  {
    assert nums[start..start + 1] == [nums[start]];
    SumAppend([], nums[start]);
  }

  /** A child whose numbers are summed exactly hands all of them over. */
  lemma CodeIsExact(value: int)
    requires 0 <= value <= 255
    ensures ExitCode(Reduced(value)) == value
  {
  }

  lemma SpanNonNegative(nums: seq<int>, start: nat, end: nat)
    requires start <= end <= |nums| && NonNegative(nums)
    ensures Span(nums, start, end) >= 0
  {
    SumNonNegative(nums[start..end]);
  }

  lemma SplitFits(nums: seq<int>, start: nat, end: nat, mid: nat)
    requires start <= end <= |nums| && end - start > 1 && mid == Mid(start, end) && LeftsFit(nums, start, end)
    ensures Span(nums, start, mid) <= 255 && Exact(nums, start, mid) && LeftsFit(nums, mid, end)
  {
  }

  /** The smallest left half of the rest is no smaller. */
  lemma SplitSmallest(nums: seq<int>, start: nat, end: nat, mid: nat)
    requires start <= end <= |nums| && end - start > 1 && mid == Mid(start, end)
    ensures SmallestLeft(nums, start, end) <= Span(nums, start, mid)
    ensures end - mid > 1 ==> SmallestLeft(nums, start, end) <= SmallestLeft(nums, mid, end)
    ensures SmallestLeft(nums, start, end) == Span(nums, start, mid) ||
            (end - mid > 1 && SmallestLeft(nums, start, end) == SmallestLeft(nums, mid, end))
  {
  }

  /** Along a spine with all left halves at least m, and something of at least m still unreaped, nothing is lost. */
  lemma {:induction false} NothingLost(nums: seq<int>, start: nat, end: nat, pending: seq<int>, o: Order, m: int,
                                       value: int, left: seq<int>)
    requires start <= end <= |nums| && NonNegative(nums) && m >= 0 && AtLeast(pending, m) && LeftsFit(nums, start, end)
    requires end - start > 1 ==>
      SmallestLeft(nums, start, end) >= m && Span(nums, start, end) + Sum(pending) - m <= 256
    requires var r := Forked(nums, start, end, pending, o); r.value == value && r.pending == left
    ensures value + Sum(left) == Span(nums, start, end) + Sum(pending) && AtLeast(left, m)
    decreases end - start, 0
  {
    if end - start == 1 {
      OneNumber(nums, start);
    } else if end - start > 1 {
      var mid, child, code, right, i := Split(nums, start, end, pending, o);
      SplitFits(nums, start, end, mid);
      SplitSmallest(nums, start, end, mid);
      ExactIsExact(nums, start, mid, ChildOrder(o), child.value);
      SpanNonNegative(nums, start, mid);
      CodeIsExact(child.value);
      SumSplit(nums, start, mid, end);
      SumAppend(pending, code);
      NothingLost(nums, mid, end, pending + [code], RestOrder(o), m, right.value, right.pending);
      SumAtLeast(right.pending, m);
      PickedAtLeast(right.pending, i, left, m);
    }
  }

  lemma {:induction false} ExactIsExact(nums: seq<int>, start: nat, end: nat, o: Order, value: int)
    requires start <= end <= |nums| && NonNegative(nums) && Exact(nums, start, end)
    requires value == Forked(nums, start, end, [], o).value
    ensures value == Span(nums, start, end)
    decreases end - start, 1
  {
    if end - start > 1 {
      SmallestNonNegative(nums, start, end);
      NothingLost(nums, start, end, [], o, SmallestLeft(nums, start, end), value, []);
    } else if end - start == 1 {
      OneNumber(nums, start);
    }
  }

  lemma {:induction false} SmallestNonNegative(nums: seq<int>, start: nat, end: nat)
    requires start <= end <= |nums| && NonNegative(nums) && end - start > 1
    ensures SmallestLeft(nums, start, end) >= 0
    decreases end - start
  {
    var mid := Mid(start, end);
    SpanNonNegative(nums, start, mid);
    if end - mid > 1 {
      SmallestNonNegative(nums, mid, end);
    }
  }

  // ---- the others ---------------------------------------------------------

  /** What a split passes on is bounded by what there is to sum. */
  lemma SplitNeverMore(nums: seq<int>, start: nat, end: nat, pending: seq<int>, o: Order, r: Outcome)
    returns (mid: nat, child: Outcome, code: int, right: Outcome)
    requires start <= end <= |nums| && end - start > 1 && NonNegative(nums) && NonNegative(pending)
    requires r == Forked(nums, start, end, pending, o)
    ensures mid == Mid(start, end) && child == Forked(nums, start, mid, [], ChildOrder(o))
    ensures code == ExitCode(Reduced(child.value)) && NonNegative(pending + [code])
    ensures right == Forked(nums, mid, end, pending + [code], RestOrder(o))
    ensures Span(nums, start, end) == Span(nums, start, mid) + Span(nums, mid, end)
    ensures 0 <= code <= 255 && code <= child.value <= Span(nums, start, mid)
    ensures right.value + Sum(right.pending) <= Span(nums, mid, end) + Sum(pending) + code
    ensures r.value + Sum(r.pending) <= right.value + Sum(right.pending)
  {
    var i;
    mid, child, code, right, i := Split(nums, start, end, pending, o);
    NeverMore(nums, start, mid, [], ChildOrder(o), child.value, []);
    NeverMoreReduced(child.value);
    NeverMore(nums, mid, end, pending + [code], RestOrder(o), right.value, right.pending);
    NeverMoreReduced(right.value);
    SumSplit(nums, start, mid, end);
    SumAppend(pending, code);
    SumWithout(right.pending, i, r.pending);
  }

  /** In some order a call leaves something of at most z unreaped, if that was there or comes up on its spine. */
  lemma {:induction false} LeavesSmall(nums: seq<int>, start: nat, end: nat, pending: seq<int>, z: int)
    returns (o: Order, b: nat, left: seq<int>)
    requires start <= end <= |nums| && NonNegative(nums) && NonNegative(pending) && pending != []
    requires !AtLeast(pending, z + 1) || (end - start > 1 && SmallestLeft(nums, start, end) <= z)
    ensures left == Forked(nums, start, end, pending, o).pending && b < |left| && left[b] <= z
    decreases end - start
  {
    if end - start <= 1 {
      o, left := Done, pending;
      b :| b < |pending| && pending[b] <= z;
    } else {
      var mid, child, code, right := SplitNeverMore(nums, start, end, pending, Done, Forked(nums, start, end, pending, Done));
      SplitSmallest(nums, start, end, mid);
      KeepsSmall(pending, code, z);
      var rest, c, unpicked := LeavesSmall(nums, mid, end, pending + [code], z);
      o, b := Reap(if c == 0 then 1 else 0, Done, rest), if c == 0 then 0 else c - 1;
      left := Forked(nums, start, end, pending, o).pending;
      LeftUnpicked(nums, start, end, pending, o, code, c, unpicked, left);
    }
  }

  lemma KeepsSmall(pending: seq<int>, code: int, z: int)
    ensures !AtLeast(pending, z + 1) || code <= z ==> !AtLeast(pending + [code], z + 1)
  {
    if !AtLeast(pending, z + 1) {
      var a :| 0 <= a < |pending| && pending[a] < z + 1;
      assert (pending + [code])[a] < z + 1;
    }
    assert (pending + [code])[|pending|] == code;
  }

  /** Picking another element than the c-th leaves the c-th. */
  lemma LeftUnpicked(nums: seq<int>, start: nat, end: nat, pending: seq<int>, o: Order, code: int, c: nat,
                     before: seq<int>, after: seq<int>)
    requires start <= end <= |nums| && end - start > 1 && pending != [] && o.Reap? && o.pick == if c == 0 then 1 else 0
    requires code == ExitCode(Reduced(Forked(nums, start, Mid(start, end), [], o.child).value))
    requires before == Forked(nums, Mid(start, end), end, pending + [code], o.rest).pending && c < |before|
    requires after == Forked(nums, start, end, pending, o).pending
    ensures |after| == |before| - 1 && after[if c == 0 then 0 else c - 1] == before[c]
  {
    var mid, child, code', right, i := Split(nums, start, end, pending, o);
    assert after == Without(before, o.pick);
  }

  /** A left half that is not summed exactly, or does not fit, is lost in some order. */
  lemma {:induction false} SpineLoses(nums: seq<int>, start: nat, end: nat, pending: seq<int>) returns (o: Order)
    requires start <= end <= |nums| && NonNegative(nums) && NonNegative(pending) && !LeftsFit(nums, start, end)
    ensures var r := Forked(nums, start, end, pending, o);
      r.value + Sum(r.pending) < Span(nums, start, end) + Sum(pending)
    decreases end - start, 0
  {
    var mid, child, code, right := SplitNeverMore(nums, start, end, pending, Done, Forked(nums, start, end, pending, Done));
    if Span(nums, start, mid) > 255 {
      o := Done;
    } else if !Exact(nums, start, mid) {
      var c := InexactLoses(nums, start, mid);
      o := Reap(0, c, Done);
    } else {
      var rest := SpineLoses(nums, mid, end, pending + [code]);
      o := Reap(0, Done, rest);
    }
    SpineLost(nums, start, end, pending, o, Forked(nums, start, end, pending, o));
  }

  /** A child that has lost something, or has more than fits, or a loss further on. */
  lemma SpineLost(nums: seq<int>, start: nat, end: nat, pending: seq<int>, o: Order, r: Outcome)
    requires start <= end <= |nums| && end - start > 1 && NonNegative(nums) && NonNegative(pending)
    requires r == Forked(nums, start, end, pending, o)
    requires var mid := Mid(start, end);
      var child := Forked(nums, start, mid, [], ChildOrder(o)).value;
      var passed := pending + [ExitCode(Reduced(child))];
      var right := Forked(nums, mid, end, passed, RestOrder(o));
      || Span(nums, start, mid) > 255 || child < Span(nums, start, mid)
      || right.value + Sum(right.pending) < Span(nums, mid, end) + Sum(passed)
    ensures r.value + Sum(r.pending) < Span(nums, start, end) + Sum(pending)
  {
    var mid, child, code, right := SplitNeverMore(nums, start, end, pending, o, r);
    SumAppend(pending, code);
  }

  lemma {:induction false} InexactLoses(nums: seq<int>, start: nat, end: nat) returns (o: Order)
    requires start <= end <= |nums| && NonNegative(nums) && !Exact(nums, start, end)
    ensures Forked(nums, start, end, [], o).value < Span(nums, start, end)
    decreases end - start, 1
  {
    if !LeftsFit(nums, start, end) {
      o := SpineLoses(nums, start, end, []);
    } else {
      var mid, child, code, right := SplitNeverMore(nums, start, end, [], Done, Forked(nums, start, end, [], Done));
      var z := SmallestLeft(nums, start, end);
      SplitSmallest(nums, start, end, mid);
      o := SmallestReapedLast(nums, start, mid, end, code, z);
    }
  }

  /** If the child reaped last reports at most z, no more than z + 256 is returned. */
  lemma SmallestReapedLast(nums: seq<int>, start: nat, mid: nat, end: nat, code: int, z: int) returns (o: Order)
    requires start <= end <= |nums| && end - start > 1 && mid == Mid(start, end) && NonNegative(nums) && code >= 0
    requires code == ExitCode(Reduced(Forked(nums, start, mid, [], Done).value))
    requires code <= z || (end - mid > 1 && SmallestLeft(nums, mid, end) <= z)
    ensures Forked(nums, start, end, [], o).value <= z + 256
  {
    assert AtLeast([] + [code], z + 1) ==> code > z by { assert ([] + [code])[0] == code; }
    var rest, b, left := LeavesSmall(nums, mid, end, [] + [code], z);
    o := Reap(0, Done, rest);
    var _, child, again, right, i := Split(nums, start, end, [], o);
    assert again == code;
  }

  // ---- both ---------------------------------------------------------------

  /** For non-negative numbers: every reaping order gives the exact sum if and only if the array is exact. */
  lemma EveryOrderIsExactIff(nums: seq<int>)
    requires NonNegative(nums)
    ensures (forall o: Order :: ForkTotal(nums, o) == Sum(nums)) <==> Exact(nums, 0, |nums|)
  {
    assert nums[0..|nums|] == nums;
    if Exact(nums, 0, |nums|) {
      forall o: Order
        ensures ForkTotal(nums, o) == Sum(nums)
      {
        ExactIsExact(nums, 0, |nums|, o, ForkTotal(nums, o));
      }
    } else {
      var o := InexactLoses(nums, 0, |nums|);
      assert ForkTotal(nums, o) < Sum(nums);
    }
  }

  // ---- totals -------------------------------------------------------------

  /** Whatever sums to at most 255 is exact. */
  lemma {:induction false} SmallIsExact(nums: seq<int>, start: nat, end: nat)
    requires start <= end <= |nums| && NonNegative(nums) && Span(nums, start, end) <= 255
    ensures Exact(nums, start, end)
    decreases end - start, 1
  {
    if end - start > 1 {
      SmallestNonNegative(nums, start, end);
      SmallFits(nums, start, end);
    }
  }

  lemma {:induction false} SmallFits(nums: seq<int>, start: nat, end: nat)
    requires start <= end <= |nums| && NonNegative(nums) && Span(nums, start, end) <= 255
    ensures LeftsFit(nums, start, end)
    decreases end - start, 0
  {
    if end - start > 1 {
      var mid := Mid(start, end);
      SumSplit(nums, start, mid, end);
      SpanNonNegative(nums, start, mid);
      SpanNonNegative(nums, mid, end);
      SmallIsExact(nums, start, mid);
      SmallFits(nums, mid, end);
    }
  }

  lemma SumTwo(x: int, y: int, nums: seq<int>)
    requires nums == [x, y]
    ensures Sum(nums) == x + y
  {
    assert nums == [x] + [y];
    SumAppend([x], y);
    SumAppend([], x);
  }

  /** For every larger sum there is an array on which no order gives it. */
  lemma LargerSumsAreLost(total: int) returns (nums: seq<int>)
    requires total > 255
    ensures NonNegative(nums) && Sum(nums) == total
    ensures forall o: Order :: ForkTotal(nums, o) < total
  {
    nums := [256, total - 256];
    SumTwo(256, total - 256, nums);
    forall o: Order
      ensures ForkTotal(nums, o) < total
    {
      LargeLeft(nums, total, o);
    }
  }

  lemma LargeLeft(nums: seq<int>, total: int, o: Order)
    requires |nums| == 2 && nums[0] > 255 && nums[1] >= 0 && Sum(nums) == total
    ensures ForkTotal(nums, o) < total
  {
    assert nums[0..|nums|] == nums;
    OneNumber(nums, 0);
    SpineLost(nums, 0, |nums|, [], o, Forked(nums, 0, |nums|, [], o));
  }

  /** All non-negative arrays with a given sum are exact, in every order, if and only if the sum is at most 255. */
  lemma TotalIsExactIff(total: nat)
    ensures (forall nums: seq<int>, o: Order :: NonNegative(nums) && Sum(nums) == total ==> ForkTotal(nums, o) == total)
            <==> total <= 255
  {
    if total <= 255 {
      forall nums: seq<int>, o: Order | NonNegative(nums) && Sum(nums) == total
        ensures ForkTotal(nums, o) == total
      {
        assert nums[0..|nums|] == nums;
        SmallIsExact(nums, 0, |nums|);
        EveryOrderIsExactIff(nums);
      }
    } else {
      var nums := LargerSumsAreLost(total);
      assert ForkTotal(nums, Done) < total;
    }
  }
}
