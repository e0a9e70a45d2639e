/** Sums over integer sequences. */
module Sums {

  function Sum(v: seq<int>): int {
    if v == [] then 0 else Sum(v[..|v| - 1]) + v[|v| - 1]
  }

  predicate NonNegative(v: seq<int>) {
    forall i :: 0 <= i < |v| ==> v[i] >= 0
  }

  lemma {:induction false} SumAppend(v: seq<int>, x: int)
    ensures Sum(v + [x]) == Sum(v) + x
  {
    assert (v + [x])[..|v|] == v;
  }

  lemma {:induction false} SumConcat(a: seq<int>, b: seq<int>)
    ensures Sum(a + b) == Sum(a) + Sum(b)
  {
    if b == [] {
      assert a + b == a;
    } else {
      var n := |b| - 1;
      assert a + b == (a + b[..n]) + [b[n]];
      SumConcat(a, b[..n]);
      SumAppend(a + b[..n], b[n]);
    }
  }

  lemma {:induction false} SumUpdate(v: seq<int>, i: nat, x: int)
    requires i < |v|
    ensures Sum(v[i := x]) == Sum(v) - v[i] + x
  {
    var n := |v| - 1;
    if i == n {
      assert v[i := x][..n] == v[..n];
    } else {
      assert v[i := x][..n] == v[..n][i := x];
      SumUpdate(v[..n], i, x);
    }
  }

  lemma {:induction false} SumPlus(a: seq<int>, b: seq<int>, c: seq<int>)
    requires |a| == |b| == |c| && forall i :: 0 <= i < |a| ==> c[i] == a[i] + b[i]
    ensures Sum(c) == Sum(a) + Sum(b)
  {
    if a != [] {
      var n := |a| - 1;
      SumPlus(a[..n], b[..n], c[..n]);
    }
  }

  /** Adding one at the indices of `s` adds the size of `s`. */
  lemma {:induction false} SumBump(a: seq<int>, b: seq<int>, s: set<int>)
    requires |a| == |b| && (forall i :: i in s ==> 0 <= i < |a|)
    requires forall i :: 0 <= i < |a| ==> b[i] == a[i] + if i in s then 1 else 0
    ensures Sum(b) == Sum(a) + |s|
  {
    if a != [] {
      var n := |a| - 1;
      SumBump(a[..n], b[..n], s - {n});
      assert n !in s ==> s - {n} == s;
    } else {
      assert forall i :: i in s ==> false;
      assert s == {};
    }
  }

  lemma {:induction false} SumNonNegative(v: seq<int>)
    requires NonNegative(v)
    ensures Sum(v) >= 0
    ensures Sum(v) == 0 <==> forall i :: 0 <= i < |v| ==> v[i] == 0
  {
    if v != [] {
      var n := |v| - 1;
      SumNonNegative(v[..n]);
      assert (forall i :: 0 <= i < |v| ==> v[i] == 0) ==> forall i :: 0 <= i < n ==> v[..n][i] == 0;
      assert (forall i :: 0 <= i < n ==> v[..n][i] == 0) ==> forall i :: 0 <= i < n ==> v[i] == 0;
    }
  }

  lemma {:induction false} PartOfSum(v: seq<int>, i: nat)
    requires NonNegative(v) && i < |v|
    ensures v[i] <= Sum(v)
  {
    var n := |v| - 1;
    if i == n {
      SumNonNegative(v[..n]);
    } else {
      PartOfSum(v[..n], i);
    }
  }
}
