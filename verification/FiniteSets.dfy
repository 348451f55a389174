/** Cardinality facts about finite sets of naturals. */
module FiniteSets {
  /** The naturals below `n`. */
  function Range(n: nat): (r: set<nat>)
    ensures forall i: nat :: i in r <==> i < n
    ensures |r| == n
  {
    if n == 0 then {} else Range(n - 1) + {n - 1}
  }

  lemma SubsetSize<T>(a: set<T>, b: set<T>)
    requires a <= b
    ensures |a| <= |b| && (|a| == |b| ==> a == b)
  {
    assert b == a + (b - a);
    if b - a == {} { assert a == b; }
  }

  /** A set of naturals below `n` has at most `n` members, and fewer if it misses some `y`. */
  lemma BoundedSize(xs: set<nat>, n: nat, y: nat)
    requires forall x :: x in xs ==> x < n
    requires y < n
    ensures |xs| <= n && (y !in xs ==> |xs| < n)
  {
    hide Range;
    SubsetSize(xs, Range(n));
    assert y in Range(n);
  }

  ghost function Members<T(!new)>(t: seq<T>): (r: set<T>)
    ensures forall x :: x in r <==> x in t
  {
    set x | x in t
  }

  lemma {:induction false} DistinctSize<T(!new)>(t: seq<T>)
    requires forall i, j :: 0 <= i < j < |t| ==> t[i] != t[j]
    ensures |Members(t)| == |t|
  {
    if t != [] {
      var n := |t| - 1;
      DistinctSize(t[..n]);
      assert Members(t) == Members(t[..n]) + {t[n]};
      assert t[n] !in t[..n];
    }
  }
}
