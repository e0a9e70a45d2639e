/**
 * Summing by processes and by threads.  A forked child reports through its
 * 8-bit exit code, and wait() may return any child of the calling process.
 */
module ForkSum {
  import opened Sums

  /**
   * One run's reaping decisions: which of its unreaped children a call's wait()
   * returns, the decisions of the child it forks, and those of the call it makes
   * itself on the right half.
   */
  datatype Order = Done | Reap(pick: nat, child: Order, rest: Order)

  function ChildOrder(o: Order): Order { if o.Done? then Done else o.child }
  function RestOrder(o: Order): Order { if o.Done? then Done else o.rest }
  function PickOrder(o: Order, n: nat): (i: nat)
    requires n > 0
    ensures i < n
  {
    if o.Done? || o.pick >= n then 0 else o.pick
  }

  /** What a call leaves: its value, the exit codes its process has not reaped, and the lines it logged. */
  datatype Outcome = Outcome(value: int, pending: seq<int>, lines: nat)

  /** Sums above 256 are reduced before they are passed on. */
  function Reduced(sum: int): int {
    if sum > 256 then sum % 256 else sum
  }

  /** The part of exit()'s argument that reaches the parent. */
  function ExitCode(value: int): int {
    value % 256
  }

  /** Where a call splits its numbers. */
  function Mid(start: nat, end: nat): (mid: nat)
    requires end - start > 1
    ensures start < mid < end && mid - start <= end - mid <= mid - start + 1
  {
    (start + end) / 2
  }

  /** A call on nums[start..end], made by a process that has not reaped the children in `pending`. */
  function Forked(nums: seq<int>, start: nat, end: nat, pending: seq<int>, o: Order): (r: Outcome)
    requires start <= end <= |nums|
    ensures |r.pending| == |pending|
    ensures r.lines == if end == start then 0 else end - start - 1
    decreases end - start
  {
    if end - start == 1 then Outcome(nums[start], pending, 0)
    else if end == start then Outcome(0, pending, 0)
    else
      var mid := Mid(start, end);
      var child := Forked(nums, start, mid, [], ChildOrder(o));
      var code := ExitCode(Reduced(child.value));
      var right := Forked(nums, mid, end, pending + [code], RestOrder(o));
      var i := PickOrder(o, |right.pending|);
      Outcome(right.pending[i] + Reduced(right.value), Without(right.pending, i), child.lines + right.lines + 1)
  }

  function Without(s: seq<int>, i: nat): seq<int>
    requires i < |s|
  {
    s[..i] + s[i + 1..]
  }

  // ---- the sum survives up to multiples of 256 ----------------------------

  lemma SumMiddle(a: seq<int>, x: int, b: seq<int>, with: seq<int>, without: seq<int>)
    requires with == a + [x] + b && without == a + b
    ensures Sum(with) == Sum(without) + x
  {
    SumAppend(a, x);
    SumConcat(a + [x], b);
    SumConcat(a, b);
  }

  lemma SumWithout(s: seq<int>, i: nat, without: seq<int>)
    requires i < |s| && without == Without(s, i)
    ensures Sum(without) + s[i] == Sum(s)
  {
    SumMiddle(s[..i], s[i], s[i + 1..], s, without);
  }

  lemma SumSplit(nums: seq<int>, start: nat, mid: nat, end: nat)
    requires start <= mid <= end <= |nums|
    ensures Sum(nums[start..end]) == Sum(nums[start..mid]) + Sum(nums[mid..end])
  {
    assert nums[start..end] == nums[start..mid] + nums[mid..end];
    SumConcat(nums[start..mid], nums[mid..end]);
  }

  /** Reducing a sum loses a multiple of 256. */
  lemma ReducedLoses(sum: int) returns (loss: int)
    ensures Reduced(sum) + 256 * loss == sum
  {
    loss := if sum > 256 then sum / 256 else 0;
  }

  lemma ExitLoses(value: int) returns (loss: int)
    ensures ExitCode(value) + 256 * loss == value
  {
    loss := value / 256;
  }

  /** The two calls a split makes, the child's exit code, and the one that is reaped. */
  lemma Split(nums: seq<int>, start: nat, end: nat, pending: seq<int>, o: Order)
    returns (mid: nat, child: Outcome, code: int, right: Outcome, i: nat)
    requires start <= end <= |nums| && end - start > 1
    ensures mid == Mid(start, end)
    ensures child == Forked(nums, start, mid, [], ChildOrder(o)) && child.pending == []
    ensures code == ExitCode(Reduced(child.value))
    ensures right == Forked(nums, mid, end, pending + [code], RestOrder(o))
    ensures i < |right.pending|
    ensures var r := Forked(nums, start, end, pending, o);
      r.value == right.pending[i] + Reduced(right.value) && r.pending == Without(right.pending, i)
  {
    mid := Mid(start, end);
    child := Forked(nums, start, mid, [], ChildOrder(o));
    code := ExitCode(Reduced(child.value));
    right := Forked(nums, mid, end, pending + [code], RestOrder(o));
    i := PickOrder(o, |right.pending|);
  }

  lemma NeverMoreReduced(sum: int)
    requires sum >= 0
    ensures 0 <= ExitCode(Reduced(sum)) <= Reduced(sum) <= sum
  {
  }

  lemma NonNegativeWithout(s: seq<int>, i: nat, without: seq<int>)
    requires NonNegative(s) && i < |s| && without == Without(s, i)
    ensures s[i] >= 0 && NonNegative(without)
  {
  }

  /** If no number is negative, no result or exit code is, and nothing is added to what there was to sum. */
  lemma {:induction false} NeverMore(nums: seq<int>, start: nat, end: nat, pending: seq<int>, o: Order, value: int, left: seq<int>)
    requires start <= end <= |nums| && NonNegative(nums) && NonNegative(pending)
    requires var r := Forked(nums, start, end, pending, o); r.value == value && r.pending == left
    ensures value >= 0 && NonNegative(left)
    ensures value + Sum(left) <= Sum(nums[start..end]) + Sum(pending)
    decreases end - start
  {
    if end - start == 1 {
      assert nums[start..end] == [nums[start]];
      SumAppend([], nums[start]);
    } else if end - start > 1 {
      var mid, child, code, right, i := Split(nums, start, end, pending, o);
      NeverMore(nums, start, mid, [], ChildOrder(o), child.value, []);
      NeverMoreReduced(child.value);
      NeverMore(nums, mid, end, pending + [code], RestOrder(o), right.value, right.pending);
      NeverMoreReduced(right.value);
      NonNegativeWithout(right.pending, i, left);
      SumSplit(nums, start, mid, end);
      SumAppend(pending, code);
      SumWithout(right.pending, i, left);
    }
  }

  /**
   * For every reaping order: what a call returns and leaves unreaped differs from
   * what there was to sum by a multiple of 256.
   */
  lemma {:induction false} Conserved(nums: seq<int>, start: nat, end: nat, pending: seq<int>, o: Order) returns (loss: int)
    requires start <= end <= |nums|
    ensures var r := Forked(nums, start, end, pending, o);
      r.value + Sum(r.pending) + 256 * loss == Sum(nums[start..end]) + Sum(pending)
    decreases end - start
  {
    if end - start == 1 {
      assert nums[start..end] == [nums[start]];
      SumAppend([], nums[start]);
      loss := 0;
    } else if end == start {
      loss := 0;
    } else {
      var mid, child, code, right, i := Split(nums, start, end, pending, o);
      var l1 := Conserved(nums, start, mid, [], ChildOrder(o));
      var l2 := ReducedLoses(child.value);
      var l3 := ExitLoses(Reduced(child.value));
      var l4 := Conserved(nums, mid, end, pending + [code], RestOrder(o));
      var l5 := ReducedLoses(right.value);
      SumSplit(nums, start, mid, end);
      SumAppend(pending, code);
      SumWithout(right.pending, i, Without(right.pending, i));
      loss := l1 + l2 + l3 + l4 + l5;
    }
  }

  /** The whole process: congruent modulo 256 for every order, no child left unreaped, one line per split. */
  lemma SumModulo256(nums: seq<int>, o: Order)
    ensures var r := Forked(nums, 0, |nums|, [], o);
      && r.pending == []
      && (r.value - Sum(nums)) % 256 == 0
      && r.lines == if nums == [] then 0 else |nums| - 1
  {
    var loss := Conserved(nums, 0, |nums|, [], o);
    assert nums[0..|nums|] == nums;
    assert (256 * -loss) % 256 == 0;
  }

  /** What the process sum gives for a whole array. */
  function ForkTotal(nums: seq<int>, o: Order): int {
    Forked(nums, 0, |nums|, [], o).value
  }

  /** Of two numbers the first comes through an exit code, and the second is cut if it is above 256. */
  lemma TwoNumbersTotal(x: int, y: int, o: Order)
    ensures ForkTotal([x, y], o) == x % 256 + if y <= 256 then y else y % 256
  {
    var nums := [x, y];
    var mid, child, code, right, i := Split(nums, 0, 2, [], o);
    assert mid == 1;
  }

  // ---- processes ----------------------------------------------------------

  /** A process and the exit codes of its terminated children that it has not reaped. */
  class Process {
    var pending: seq<int>

    constructor ()
      ensures pending == []
    {
      pending := [];
    }

    /** Reaps some child; the kernel decides which. */
    method Wait() returns (status: int, pick: nat)
      requires pending != []
      modifies this
      ensures pick < |old(pending)| && status == old(pending)[pick] * 256 && pending == Without(old(pending), pick)
    {
      pick :| pick < |pending|;
      status := pending[pick] * 256;
      pending := Without(pending, pick);
    }

    /** The call as the program makes it; `o` is the order the kernel happened to choose. */
    method Sum(nums: seq<int>, start: nat, end: nat) returns (value: int, lines: nat, ghost o: Order)
      requires start <= end <= |nums|
      modifies this
      ensures Outcome(value, pending, lines) == Forked(nums, start, end, old(pending), o)
      decreases end - start
    {
      if end - start == 1 {
        return nums[start], 0, Done;
      } else if end - start == 0 {
        return 0, 0, Done;
      }
      var mid := (start + end) / 2;

      var child := new Process();
      var leftSum, childLines, childOrder := child.Sum(nums, start, mid);
      if leftSum > 256 {
        leftSum := leftSum % 256;
      }
      pending := pending + [ExitCode(leftSum)];

      var rightSum, rightLines, restOrder := Sum(nums, mid, end);
      if rightSum > 256 {
        rightSum := rightSum % 256;
      }
      var status, pick := Wait();
      var fromChild := status / 256;
      o := Reap(pick, childOrder, restOrder);
      return fromChild + rightSum, childLines + rightLines + 1, o;
    }
  }

  // ---- threads ------------------------------------------------------------

  /** The record a thread is given and writes its result to. */
  class ThreadData {
    const nums: seq<int>
    const start: nat
    const end: nat
    var result: int

    constructor (nums: seq<int>, start: nat, end: nat)
      requires start <= end <= |nums|
      ensures this.nums == nums && this.start == start && this.end == end && result == 0
    {
      this.nums, this.start, this.end, result := nums, start, end, 0;
    }
  }

  /** Two threads sum the halves into records of their own, in either order; the sum is always exact. */
  method ThreadSum(data: ThreadData) returns (lines: nat)
    requires data.start <= data.end <= |data.nums|
    modifies data
    ensures data.result == Sum(data.nums[data.start..data.end])
    ensures lines == if data.end == data.start then 0 else data.end - data.start - 1
    decreases data.end - data.start
  {
    var start, end, nums := data.start, data.end, data.nums;
    if end - start == 1 {
      data.result := nums[start];
      assert nums[start..end] == [nums[start]];
      SumAppend([], nums[start]);
      return 0;
    } else if end - start == 0 {
      data.result := 0;
      return 0;
    }
    var mid := (start + end) / 2;
    var left := new ThreadData(nums, start, mid);
    var right := new ThreadData(nums, mid, end);
    var leftLines, rightLines;
    if * {
      leftLines := ThreadSum(left);
      rightLines := ThreadSum(right);
    } else {
      rightLines := ThreadSum(right);
      leftLines := ThreadSum(left);
    }
    data.result := left.result + right.result;
    SumSplit(nums, start, mid, end);
    return leftLines + rightLines + 1;
  }
}
