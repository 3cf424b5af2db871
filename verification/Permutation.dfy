/** Sequences that list 0, ..., n-1 in some order. */
module Permutation {

  ghost predicate Injective(p: seq<int>) {
    forall i, j :: 0 <= i < j < |p| ==> p[i] != p[j]
  }

  ghost predicate IsPerm(p: seq<int>) {
    && (forall i :: 0 <= i < |p| ==> 0 <= p[i] < |p|)
    && Injective(p)
  }

  ghost function Below(n: nat): (r: set<int>)
    ensures forall v :: v in r <==> 0 <= v < n
    ensures |r| == n
  {
    if n == 0 then {}
    else
      assert n - 1 !in Below(n - 1);
      Below(n - 1) + {n - 1}
  }

  ghost function Values(p: seq<int>): set<int> {
    set i | 0 <= i < |p| :: p[i]
  }

  lemma {:induction false} ValuesCount(p: seq<int>)
    requires Injective(p)
    ensures |Values(p)| == |p|
  {
    if p == [] {
      assert Values(p) == {};
    } else {
      var n := |p| - 1;
      var q := p[..n];
      ValuesCount(q);
      ValuesPush(q, p[n]);
      assert p == q + [p[n]];
      assert p[n] !in Values(q);
    }
  }

  lemma ValuesPush(q: seq<int>, x: int)
    ensures Values(q + [x]) == Values(q) + {x}
  {
    var p := q + [x];
    forall i | 0 <= i < |q| ensures q[i] in Values(p) { assert p[i] == q[i]; }
    assert p[|q|] in Values(p);
  }

  /** A subset of a finite set with as many elements is that set. */
  lemma FullSubset(a: set<int>, b: set<int>)
    requires a <= b && |a| == |b|
    ensures a == b
  {
    assert a + (b - a) == b;
    assert |b| == |a| + |b - a|;
  }

  /** Every value below the length occurs: an injective list of n values below n is onto. */
  lemma PermOnto(p: seq<int>, v: int)
    requires IsPerm(p) && 0 <= v < |p|
    ensures exists i :: 0 <= i < |p| && p[i] == v
  {
    ValuesCount(p);
    FullSubset(Values(p), Below(|p|));
    assert v in Values(p);
  }

  /** The index at which `v` is listed. */
  ghost function IndexOf(p: seq<int>, v: int): (i: int)
    requires IsPerm(p) && 0 <= v < |p|
    ensures 0 <= i < |p| && p[i] == v
  {
    PermOnto(p, v);
    var i :| 0 <= i < |p| && p[i] == v;
    i
  }

  lemma SwapInjective(p: seq<int>, i: int, j: int)
    requires Injective(p) && 0 <= i < |p| && 0 <= j < |p|
    ensures Injective(p[i := p[j]][j := p[i]])
  {
  }
}
