/** Finite sets and sequences without repetitions. */
module Sets {

  function Elements(c: seq<int>): set<int> {
    set x | x in c
  }

  predicate NoRepeats(c: seq<int>) {
    forall i, j :: 0 <= i < j < |c| ==> c[i] != c[j]
  }

  function Range(n: nat): (r: set<int>)
    ensures |r| == n && forall i :: i in r <==> 0 <= i < n
  {
    if n == 0 then {} else Range(n - 1) + {n - 1}
  }

  lemma SubsetSize(a: set<int>, b: set<int>)
    requires a <= b
    ensures |a| <= |b|
  {
    assert b == a + (b - a);
  }

  lemma {:induction false} DistinctSize(c: seq<int>, among: set<int>)
    requires NoRepeats(c) && forall k :: 0 <= k < |c| ==> c[k] in among
    ensures |c| <= |among|
  {
    if c != [] {
      var n := |c| - 1;
      assert among == (among - {c[n]}) + {c[n]};
      DistinctSize(c[..n], among - {c[n]});
    }
  }
}
