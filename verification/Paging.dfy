/**
 * The four page-replacement policies as one deterministic state machine over a
 * reference string.  The imperative simulator is proved equal to `Run`; the
 * theorems about the policies are proved about `Run`.
 */
module Paging {

  const EMPTY := -1       // marks a frame that holds no page
  const NEVER := 1001     // "not referenced again"; larger than every index
  const MAX_REFS := 1000

  datatype Policy = Optimal | Lru | Fifo | Clock

  /** `oldest` is used by FIFO only; `useBit` and `hand` by clock only. */
  datatype State = State(frames: seq<int>, oldest: nat, useBit: seq<int>, hand: nat, faults: nat, hits: nat)
  {
    predicate Valid(k: nat) {
      k > 0 && |frames| == k && |useBit| == k && oldest < k && hand < k
    }
  }

  /** `optimal` and `lru` mark "not found" by 1001, which has to exceed every index. */
  predicate InRange(policy: Policy, rf: seq<int>) {
    policy.Optimal? || policy.Lru? ==> |rf| <= MAX_REFS
  }

  /** No reference carries the empty marker. */
  predicate Proper(policy: Policy, rf: seq<int>) {
    InRange(policy, rf) && EMPTY !in rf
  }

  // ---- choosing a frame ---------------------------------------------------

  /** The first frame that holds `p`, or -1. */
  function Slot(frames: seq<int>, p: int): (i: int)
    ensures -1 <= i < |frames|
    ensures i < 0 <==> p !in frames
    ensures i >= 0 ==> frames[i] == p && p !in frames[..i]
  {
    if frames == [] then -1
    else if frames[0] == p then 0
    else
      var i := Slot(frames[1..], p);
      if i < 0 then -1 else
      assert frames[..i + 1] == [frames[0]] + frames[1..][..i];
      i + 1
  }

  /** The first index at or after `j` that references `p`, or NEVER. */
  function NextUse(rf: seq<int>, j: nat, p: int): (u: int)
    requires j <= |rf| <= MAX_REFS
    ensures u == NEVER || (j <= u < |rf| && rf[u] == p)
    ensures forall i :: j <= i < (if u == NEVER then |rf| else u) ==> rf[i] != p
    decreases |rf| - j
  {
    if j == |rf| then NEVER else if rf[j] == p then j else NextUse(rf, j + 1, p)
  }

  /** The last index before `j` that references `p`, or -1. */
  function LastUse(rf: seq<int>, j: nat, p: int): (u: int)
    requires j <= |rf|
    ensures -1 <= u < j
    ensures u >= 0 ==> rf[u] == p
    ensures forall i :: u < i < j ==> rf[i] != p
  {
    if j == 0 then -1 else if rf[j - 1] == p then j - 1 else LastUse(rf, j - 1, p)
  }

  /** The leftmost position of a largest value. */
  function FirstMax(v: seq<int>): (m: nat)
    requires v != []
    ensures m < |v|
    ensures forall i :: 0 <= i < |v| ==> v[i] <= v[m]
    ensures forall i :: 0 <= i < m ==> v[i] < v[m]
  {
    if |v| == 1 then 0 else
    var m := FirstMax(v[..|v| - 1]);
    if v[|v| - 1] > v[m] then |v| - 1 else m
  }

  /** The leftmost position of a smallest value. */
  function FirstMin(v: seq<int>): (m: nat)
    requires v != []
    ensures m < |v|
    ensures forall i :: 0 <= i < |v| ==> v[m] <= v[i]
    ensures forall i :: 0 <= i < m ==> v[m] < v[i]
  {
    if |v| == 1 then 0 else
    var m := FirstMin(v[..|v| - 1]);
    if v[|v| - 1] < v[m] then |v| - 1 else m
  }

  function NextUses(rf: seq<int>, j: nat, frames: seq<int>): seq<int>
    requires j <= |rf| <= MAX_REFS
  {
    seq(|frames|, i requires 0 <= i < |frames| => NextUse(rf, j, frames[i]))
  }

  function LastUses(rf: seq<int>, j: nat, frames: seq<int>): seq<int>
    requires j <= |rf|
  {
    seq(|frames|, i requires 0 <= i < |frames| => LastUse(rf, j, frames[i]))
  }

  // ---- the clock sweep ----------------------------------------------------

  /** The position `d` places after `hand` on a dial of `k` positions. */
  function Ahead(k: nat, hand: nat, d: nat): (i: nat)
    requires hand < k && d <= k
    ensures i < k
  {
    if hand + d < k then hand + d else hand + d - k
  }

  /** How far `i` is ahead of `hand`. */
  function Distance(k: nat, hand: nat, i: nat): (d: nat)
    requires hand < k && i < k
    ensures d < k && Ahead(k, hand, d) == i
  {
    if hand <= i then i - hand else i + k - hand
  }

  /** The number of set bits the sweep passes, searching from distance `d`. */
  function SweepLength(bits: seq<int>, hand: nat, d: nat): (n: nat)
    requires hand < |bits| && d <= |bits|
    ensures d <= n <= |bits|
    ensures forall e :: d <= e < n ==> bits[Ahead(|bits|, hand, e)] != 0
    ensures n < |bits| ==> bits[Ahead(|bits|, hand, n)] == 0
    decreases |bits| - d
  {
    if d == |bits| || bits[Ahead(|bits|, hand, d)] == 0 then d else SweepLength(bits, hand, d + 1)
  }

  /** The bits after the sweep has passed `d` slots. */
  function Cleared(bits: seq<int>, hand: nat, d: nat): seq<int>
    requires hand < |bits| && d <= |bits|
  {
    seq(|bits|, i requires 0 <= i < |bits| => if Distance(|bits|, hand, i) < d then 0 else bits[i])
  }

  // ---- the machine --------------------------------------------------------

  function Initial(k: nat): State
    requires k > 0
  {
    State(seq(k, _ => EMPTY), 0, seq(k, _ => 0), 0, 0, 0)
  }

  function Victim(policy: Policy, rf: seq<int>, j: nat, s: State): (v: nat)
    requires j < |rf| && InRange(policy, rf) && s.Valid(|s.frames|)
    ensures v < |s.frames|
  {
    match policy
    case Optimal => FirstMax(NextUses(rf, j, s.frames))
    case Lru => FirstMin(LastUses(rf, j + 1, s.frames))
    case Fifo => s.oldest
    case Clock => Ahead(|s.frames|, s.hand, SweepLength(s.useBit, s.hand, 0))
  }

  function Step(policy: Policy, rf: seq<int>, j: nat, s: State): (r: State)
    requires j < |rf| && InRange(policy, rf) && s.Valid(|s.frames|)
    ensures r.Valid(|s.frames|)
  {
    var k := |s.frames|;
    var i := Slot(s.frames, rf[j]);
    if i >= 0 then
      s.(hits := s.hits + 1, useBit := if policy.Clock? then s.useBit[i := 1] else s.useBit)
    else
      var v := Victim(policy, rf, j, s);
      var t := s.(frames := s.frames[v := rf[j]], faults := s.faults + 1);
      match policy
      case Fifo => t.(oldest := if s.oldest == k - 1 then 0 else s.oldest + 1)
      case Clock => t.(useBit := Cleared(s.useBit, s.hand, SweepLength(s.useBit, s.hand, 0))[v := 1], hand := v)
      case _ => t
  }

  /** The state after the first `j` references, starting with `k` empty frames. */
  function Run(policy: Policy, rf: seq<int>, k: nat, j: nat): (s: State)
    requires k > 0 && j <= |rf| && InRange(policy, rf)
    ensures s.Valid(k)
  {
    if j == 0 then Initial(k) else Step(policy, rf, j - 1, Run(policy, rf, k, j - 1))
  }

  lemma {:induction false} HoldsAlong(run: seq<State>, holds: (nat, State) -> bool, s: nat, j: nat)
    requires s <= j < |run| && holds(s, run[s])
    requires forall i: nat {:trigger run[i]} :: i + 1 < |run| && holds(i, run[i]) ==> holds(i + 1, run[i + 1])
    ensures holds(j, run[j])
    decreases j
  {
    if j > s {
      var i := j - 1;
      HoldsAlong(run, holds, s, i);
      assert holds(i + 1, run[i + 1]);
    }
  }

  lemma RunNext(policy: Policy, rf: seq<int>, k: nat, j: nat, s: State, t: State)
    requires k > 0 && j < |rf| && InRange(policy, rf) && s == Run(policy, rf, k, j) && t == Run(policy, rf, k, j + 1)
    ensures s.Valid(k) && t == Step(policy, rf, j, s)
  {
  }

  /** What holds at index s and is kept by every step holds from then on. */
  lemma HoldsThroughout(policy: Policy, rf: seq<int>, k: nat, holds: (nat, State) -> bool, s: nat, j: nat)
    requires k > 0 && s <= j <= |rf| && InRange(policy, rf) && holds(s, Run(policy, rf, k, s))
    requires forall i: nat, t: State {:trigger Step(policy, rf, i, t)} :: i < |rf| && t.Valid(k) && holds(i, t) ==>
      holds(i + 1, Step(policy, rf, i, t))
    ensures holds(j, Run(policy, rf, k, j))
  {
    var run := seq(|rf| + 1, i requires 0 <= i <= |rf| => Run(policy, rf, k, i));
    forall i: nat {:trigger run[i]} | i + 1 < |run| && holds(i, run[i])
      ensures holds(i + 1, run[i + 1])
    {
      RunNext(policy, rf, k, i, run[i], run[i + 1]);
    }
    HoldsAlong(run, holds, s, j);
  }

  function Faults(policy: Policy, rf: seq<int>, k: nat): nat
    requires k > 0 && InRange(policy, rf)
  {
    Run(policy, rf, k, |rf|).faults
  }

  /** The pages held by a list of frames. */
  function Pages(frames: seq<int>): set<int> {
    set p | p in frames && p != EMPTY
  }

  function Cache(policy: Policy, rf: seq<int>, k: nat, j: nat): set<int>
    requires k > 0 && j <= |rf| && InRange(policy, rf)
  {
    Pages(Run(policy, rf, k, j).frames)
  }

  /** The distinct pages referenced in rf[a..b]. */
  function Distinct(rf: seq<int>, a: nat, b: nat): set<int>
    requires a <= b <= |rf|
  {
    set i | a <= i < b :: rf[i]
  }
}
