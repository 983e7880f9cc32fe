/** Sums, multiset unions and sizes of subsets. */
module Bags {

  function Sum(s: seq<nat>): nat {
    if s == [] then 0 else Sum(s[..|s| - 1]) + s[|s| - 1]
  }

  lemma {:induction false} SumUpdate(s: seq<nat>, i: nat, x: nat)
    requires i < |s|
    ensures Sum(s[i := x]) + s[i] == Sum(s) + x
    decreases |s|
  {
    var k := |s| - 1;
    if i == k {
      assert s[i := x][..k] == s[..k];
    } else {
      assert s[i := x][..k] == s[..k][i := x];
      SumUpdate(s[..k], i, x);
    }
  }

  lemma {:induction false} SumAtMost(a: seq<nat>, b: seq<nat>)
    requires |a| == |b| && forall i :: 0 <= i < |a| ==> a[i] <= b[i]
    ensures Sum(a) <= Sum(b)
    decreases |a|
  {
    if a != [] {
      SumAtMost(a[..|a| - 1], b[..|b| - 1]);
    }
  }

  /** Nothing grows and something shrinks. */
  lemma SumShrinks(a: seq<nat>, b: seq<nat>, t: nat)
    requires |a| == |b| && t < |a| && forall i :: 0 <= i < |a| ==> a[i] <= b[i]
    requires a[t] < b[t]
    ensures Sum(a) < Sum(b)
  {
    SumUpdate(a, t, b[t]);
    SumAtMost(a[t := b[t]], b);
  }

  function Union<T(==)>(s: seq<multiset<T>>): multiset<T> {
    if s == [] then multiset{} else Union(s[..|s| - 1]) + s[|s| - 1]
  }

  lemma {:induction false} UnionUpdate<T>(s: seq<multiset<T>>, i: nat, x: multiset<T>)
    requires i < |s|
    ensures Union(s[i := x]) + s[i] == Union(s) + x
    decreases |s|
  {
    var k := |s| - 1;
    if i == k {
      assert s[i := x][..k] == s[..k];
    } else {
      assert s[i := x][..k] == s[..k][i := x];
      UnionUpdate(s[..k], i, x);
      var u, u' := Union(s[..k]), Union(s[..k][i := x]);
      assert (u' + s[k]) + s[i] == (u' + s[i]) + s[k];
      assert (u + s[k]) + x == (u + x) + s[k];
    }
  }

  lemma {:induction false} UnionOfEmpty<T>(s: seq<multiset<T>>)
    requires forall i :: 0 <= i < |s| ==> s[i] == multiset{}
    ensures Union(s) == multiset{}
    decreases |s|
  {
    if s != [] {
      UnionOfEmpty(s[..|s| - 1]);
    }
  }

  lemma SubsetSize<T>(a: set<T>, b: set<T>)
    requires a <= b
    ensures |a| <= |b| && (|a| == |b| ==> a == b)
  {
    assert b == a + (b - a);
    assert |b| == |a| + |b - a|;
  }
}
