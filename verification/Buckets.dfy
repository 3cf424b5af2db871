/**
 The state of a partly finished suffix sort, seen as values: the positions
 `p` in their present order, and for every index the upper index `g[i]` of
 the bucket (run of not yet separated suffixes) it lies in.
 */
module Buckets {
  import opened SuffixOrder
  import opened Permutation

  /** `g` maps each index to the upper end of its bucket, and buckets are runs of indices. */
  ghost predicate Cells(g: seq<int>) {
    && (forall i :: 0 <= i < |g| ==> i <= g[i] < |g| && g[g[i]] == g[i])
    && (forall i, j :: 0 <= i <= j < |g| ==> g[i] <= g[j])
  }

  /** `[lo, hi]` is one bucket. */
  ghost predicate IsCell(g: seq<int>, lo: int, hi: int) {
    && 0 <= lo <= hi < |g|
    && (forall i :: lo <= i <= hi ==> g[i] == hi)
    && (forall i :: 0 <= i < lo ==> g[i] < lo)
  }

  /** Suffixes in different buckets are in order. */
  ghost predicate Ordered(s: seq<int>, p: seq<int>, g: seq<int>)
    requires |p| == |g|
  {
    forall i, j :: 0 <= i < |p| && 0 <= j < |p| && g[i] < g[j] ==> Less(s, p[i], p[j])
  }

  /** Suffixes in one bucket of the index range `[lo, hi]` agree on `d` symbols. */
  ghost predicate Tied(s: seq<int>, p: seq<int>, g: seq<int>, lo: int, hi: int, d: int)
    requires |p| == |g| && 0 <= lo && hi < |p|
  {
    forall i, j :: lo <= i < j <= hi && g[i] == g[j] ==> Same(s, p[i], p[j], d)
  }

  ghost predicate BucketSorted(s: seq<int>, p: seq<int>, g: seq<int>) {
    && |p| == |g| == |s|
    && IsPerm(p) && Cells(g) && Ordered(s, p, g)
  }

  /** `q` is `p` with the entries of `[lo, hi]` rearranged. */
  ghost predicate Rearranged(p: seq<int>, q: seq<int>, lo: int, hi: int) {
    && |q| == |p| && 0 <= lo && hi < |p|
    && Injective(q)
    && (forall i :: 0 <= i < |p| && !(lo <= i <= hi) ==> q[i] == p[i])
    && (forall i :: lo <= i <= hi ==> Within(p, lo, hi, q[i]))
  }

  ghost predicate Within(p: seq<int>, lo: int, hi: int, v: int)
    requires 0 <= lo && hi < |p|
  {
    exists j :: lo <= j <= hi && p[j] == v
  }

  lemma RearrangedTransitive(p: seq<int>, q: seq<int>, r: seq<int>, lo: int, hi: int, a: int, b: int)
    requires lo <= a && b <= hi
    requires Rearranged(p, q, lo, hi) && 0 <= a && b < |q| && Rearranged(q, r, a, b)
    ensures Rearranged(p, r, lo, hi)
  {
    forall i | lo <= i <= hi ensures Within(p, lo, hi, r[i]) {
      if a <= i <= b {
        assert Within(q, a, b, r[i]);
        var j :| a <= j <= b && q[j] == r[i];
        assert Within(p, lo, hi, q[j]);
      } else {
        assert Within(p, lo, hi, q[i]);
      }
    }
  }

  lemma RearrangedRefl(p: seq<int>, lo: int, hi: int)
    requires Injective(p) && 0 <= lo && hi < |p|
    ensures Rearranged(p, p, lo, hi)
  {
    forall i | lo <= i <= hi ensures Within(p, lo, hi, p[i]) { }
  }

  lemma RearrangedSwap(p: seq<int>, i: int, j: int, lo: int, hi: int)
    requires Injective(p) && 0 <= lo <= i <= hi < |p| && lo <= j <= hi
    ensures Rearranged(p, p[i := p[j]][j := p[i]], lo, hi)
  {
    var q := p[i := p[j]][j := p[i]];
    SwapInjective(p, i, j);
    forall k | lo <= k <= hi ensures Within(p, lo, hi, q[k]) {
      var m := if k == i then j else if k == j then i else k;
      assert p[m] == q[k];
    }
  }

  lemma RearrangedPerm(p: seq<int>, q: seq<int>, lo: int, hi: int)
    requires IsPerm(p) && Rearranged(p, q, lo, hi)
    ensures IsPerm(q)
  {
    forall i | 0 <= i < |q| ensures 0 <= q[i] < |q| {
      if lo <= i <= hi {
        assert Within(p, lo, hi, q[i]);
      }
    }
  }

  /** `h` splits the bucket `[lo, hi]` of `g` into smaller buckets. */
  ghost predicate Splits(g: seq<int>, h: seq<int>, lo: int, hi: int) {
    && |h| == |g| && IsCell(g, lo, hi)
    && (forall i :: 0 <= i < |g| && !(lo <= i <= hi) ==> h[i] == g[i])
    && (forall i :: lo <= i <= hi ==> i <= h[i] <= hi && h[h[i]] == h[i])
    && (forall i, j :: lo <= i <= j <= hi ==> h[i] <= h[j])
  }

  ghost predicate OrderedIn(s: seq<int>, p: seq<int>, g: seq<int>, lo: int, hi: int)
    requires |p| == |g| && 0 <= lo && hi < |p|
  {
    forall i, j :: lo <= i <= hi && lo <= j <= hi && g[i] < g[j] ==> Less(s, p[i], p[j])
  }

  /** Sorting inside one bucket keeps the whole state sorted by buckets. */
  lemma RefineBucket(s: seq<int>, p: seq<int>, g: seq<int>, q: seq<int>, h: seq<int>, lo: int, hi: int)
    requires BucketSorted(s, p, g)
    requires Rearranged(p, q, lo, hi) && Splits(g, h, lo, hi)
    requires OrderedIn(s, q, h, lo, hi)
    ensures BucketSorted(s, q, h)
  {
    RearrangedPerm(p, q, lo, hi);
    SplitsCells(g, h, lo, hi);
    forall i, j | 0 <= i < |q| && 0 <= j < |q| && h[i] < h[j] ensures Less(s, q[i], q[j]) {
      if lo <= i <= hi && lo <= j <= hi {
      } else if lo <= i <= hi {
        assert Within(p, lo, hi, q[i]);
        var k :| lo <= k <= hi && p[k] == q[i];
        assert g[k] == hi < g[j];
      } else if lo <= j <= hi {
        assert Within(p, lo, hi, q[j]);
        var k :| lo <= k <= hi && p[k] == q[j];
        assert g[k] == hi;
        assert g[i] < g[k];
      }
    }
  }

  lemma SplitsCells(g: seq<int>, h: seq<int>, lo: int, hi: int)
    requires Cells(g) && Splits(g, h, lo, hi)
    ensures Cells(h)
  {
    forall i | 0 <= i < |h| ensures i <= h[i] < |h| && h[h[i]] == h[i] {
      if i < lo { assert g[i] < lo; }
      if i > hi { assert i <= g[i]; }
    }
    forall i, j | 0 <= i <= j < |h| ensures h[i] <= h[j] {
      if i < lo <= j { assert g[i] < lo; }
      if i <= hi < j { assert j <= g[j]; if i >= lo { assert h[i] <= hi; } }
    }
  }
}
