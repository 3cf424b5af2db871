/**
 What the arrays of the block sorter mean between its steps: the low 24 bits
 of `posn` list the positions, and `rank[p]` is the upper index of the bucket
 that position `p` lies in.
 */
module RankState {
  import opened SuffixOrder
  import opened Permutation
  import opened Buckets
  import opened Transform
  import opened Words

  /** The positions, without the thread lengths kept in the high byte. */
  ghost function Low(v: seq<int>): (p: seq<int>)
    ensures |p| == |v| && forall i :: 0 <= i < |v| ==> p[i] == v[i] % LOW
  {
    seq(|v|, i requires 0 <= i < |v| => v[i] % LOW)
  }

  /** The bucket map the ranks express. */
  ghost function RankOf(p: seq<int>, r: seq<int>): (g: seq<int>)
    ensures |g| == |p|
    ensures forall i :: 0 <= i < |p| && 0 <= p[i] < |r| ==> g[i] == r[p[i]]
  {
    seq(|p|, i requires 0 <= i < |p| => if 0 <= p[i] < |r| then r[p[i]] else 0)
  }

  ghost predicate Ranked(s: seq<int>, p: seq<int>, r: seq<int>, d: int) {
    && |r| == |s| + 1 && |p| == |s|
    && BucketSorted(s, p, RankOf(p, r))
    && Tied(s, p, RankOf(p, r), 0, |s| - 1, d)
  }

  /** The ranks of `a` and `b` refine the suffix order, and equal ranks mean `d` equal symbols. */
  ghost predicate RankPair(s: seq<int>, r: seq<int>, a: int, b: int, d: int)
    requires 0 <= a < |r| && 0 <= b < |r|
  {
    && (r[a] < r[b] ==> Less(s, a, b))
    && (r[a] == r[b] ==> Same(s, a, b, d))
  }

  ghost predicate RankOrder(s: seq<int>, r: seq<int>, d: int) {
    && |r| == |s| + 1
    && forall a, b :: 0 <= a < |s| && 0 <= b < |s| ==> RankPair(s, r, a, b, d)
  }

  lemma RankedOrder(s: seq<int>, p: seq<int>, r: seq<int>, d: int)
    requires Ranked(s, p, r, d)
    ensures RankOrder(s, r, d)
  {
    var g := RankOf(p, r);
    forall a, b | 0 <= a < |s| && 0 <= b < |s| ensures RankPair(s, r, a, b, d) {
      var i, j := IndexOf(p, a), IndexOf(p, b);
      assert g[i] == r[a] && g[j] == r[b];
      if g[i] == g[j] && i > j {
        assert Same(s, p[j], p[i], d);
      }
    }
  }

  /** One comparison of ranks `e` places on decides the order or extends the agreement by `d`. */
  lemma RankStep(s: seq<int>, r: seq<int>, d: nat, p1: int, p2: int, e: nat)
    requires IsBlock(s) && RankOrder(s, r, d)
    requires 0 <= p1 < |s| && 0 <= p2 < |s| && p1 != p2 && Same(s, p1, p2, e)
    ensures p1 + e < |s| && p2 + e < |s|
    ensures r[p1 + e] < r[p2 + e] ==> Less(s, p1, p2) && !Less(s, p2, p1)
    ensures r[p1 + e] > r[p2 + e] ==> Less(s, p2, p1) && !Less(s, p1, p2)
    ensures r[p1 + e] == r[p2 + e] ==> Same(s, p1, p2, e + d)
  {
    SameEnds(s, p1, p2, e);
    LessShift(s, p1, p2, e);
    assert Same(s, p2, p1, e);
    LessShift(s, p2, p1, e);
    SameShift(s, p1, p2, e, d);
    assert RankPair(s, r, p1 + e, p2 + e, d) && RankPair(s, r, p2 + e, p1 + e, d);
    if Less(s, p1, p2) { LessAsymmetric(s, p1, p2); }
    if Less(s, p2, p1) { LessAsymmetric(s, p2, p1); }
  }

  /** `g` with the indices `[a, b]` sent to `v`. */
  ghost function Fill(g: seq<int>, a: int, b: int, v: int): (h: seq<int>)
    ensures |h| == |g| && forall i :: 0 <= i < |g| ==> h[i] == if a <= i <= b then v else g[i]
  {
    seq(|g|, i requires 0 <= i < |g| => if a <= i <= b then v else g[i])
  }

  /** Assigning the rank of the position at index `i` changes the bucket map there only. */
  lemma RankAssign(p: seq<int>, r: seq<int>, i: int, v: int)
    requires IsPerm(p) && 0 <= i < |p| < |r|
    ensures RankOf(p, r[p[i] := v]) == RankOf(p, r)[i := v]
  {
    var h := RankOf(p, r[p[i] := v]);
    forall j | 0 <= j < |p| ensures h[j] == RankOf(p, r)[i := v][j] {
      assert j != i ==> p[j] != p[i];
    }
  }

  lemma SplitsTransitive(g: seq<int>, h: seq<int>, k: seq<int>, lo: int, hi: int, a: int, b: int)
    requires Splits(g, h, lo, hi) && lo <= a <= b <= hi && Splits(h, k, a, b)
    ensures Splits(g, k, lo, hi)
  {
    forall i | lo <= i <= hi ensures i <= k[i] <= hi && k[k[i]] == k[i] {
      if i < a { assert h[i] < a; }
    }
    forall i, j | lo <= i <= j <= hi ensures k[i] <= k[j] {
      if i < a <= j { assert h[i] < a; }
      if a <= i <= b < j { assert h[i] <= h[j]; }
    }
  }

  /** Splitting a bucket keeps apart what is below it, in it and above it. */
  lemma SplitsSides(g: seq<int>, h: seq<int>, lo: int, hi: int)
    requires Cells(g) && Splits(g, h, lo, hi)
    ensures forall i :: 0 <= i < lo ==> h[i] == g[i] < lo
    ensures forall i :: lo <= i <= hi ==> lo <= h[i] <= hi
    ensures forall i :: hi < i < |g| ==> h[i] == g[i] > hi
  {
    forall i | hi < i < |g| ensures h[i] == g[i] > hi { assert i <= g[i]; }
  }

  /** The entries of a cell agree on `d` symbols, in whatever order they are. */
  ghost predicate AllSame(s: seq<int>, p: seq<int>, lo: int, hi: int, d: int)
    requires 0 <= lo && hi < |p|
  {
    forall i, j :: lo <= i <= hi && lo <= j <= hi ==> Same(s, p[i], p[j], d)
  }

  lemma CellAllSame(s: seq<int>, p: seq<int>, g: seq<int>, lo: int, hi: int, d: int)
    requires |p| == |g| && IsCell(g, lo, hi) && Tied(s, p, g, lo, hi, d)
    ensures AllSame(s, p, lo, hi, d)
  {
    forall i, j | lo <= i <= hi && lo <= j <= hi ensures Same(s, p[i], p[j], d) {
      if j < i { assert Same(s, p[j], p[i], d); }
    }
  }

  lemma AllSameRearranged(s: seq<int>, p: seq<int>, q: seq<int>, lo: int, hi: int, d: int)
    requires Rearranged(p, q, lo, hi) && AllSame(s, p, lo, hi, d)
    ensures AllSame(s, q, lo, hi, d)
  {
    forall i, j | lo <= i <= hi && lo <= j <= hi ensures Same(s, q[i], q[j], d) {
      assert Within(p, lo, hi, q[i]) && Within(p, lo, hi, q[j]);
    }
  }

  /** Raw entries without thread lengths, rearranged, are positions rearranged. */
  lemma LowRearranged(v: seq<int>, w: seq<int>, lo: int, hi: int)
    requires Rearranged(v, w, lo, hi) && Injective(Low(v))
    ensures Rearranged(Low(v), Low(w), lo, hi)
  {
    var p, q := Low(v), Low(w);
    forall i | lo <= i <= hi ensures Within(p, lo, hi, q[i]) {
      assert Within(v, lo, hi, w[i]);
      var j :| lo <= j <= hi && v[j] == w[i];
      assert p[j] == q[i];
    }
    forall i, j | 0 <= i < j < |q| ensures q[i] != q[j] {
      var a := Source(v, w, lo, hi, i);
      var b := Source(v, w, lo, hi, j);
      assert w[i] != w[j];
      assert p[a] == q[i] && p[b] == q[j];
    }
  }

  ghost function Source(v: seq<int>, w: seq<int>, lo: int, hi: int, i: int): (j: int)
    requires Rearranged(v, w, lo, hi) && 0 <= i < |w|
    ensures 0 <= j < |v| && v[j] == w[i]
    ensures if lo <= i <= hi then lo <= j <= hi else j == i
  {
    if lo <= i <= hi then
      assert Within(v, lo, hi, w[i]);
      var j :| lo <= j <= hi && v[j] == w[i]; j
    else i
  }

  /** Nothing is lost by a rearrangement. */
  lemma RearrangedOnto(p: seq<int>, q: seq<int>, lo: int, hi: int, i: int)
    requires Injective(p) && Rearranged(p, q, lo, hi) && lo <= i <= hi
    ensures Within(q, lo, hi, p[i])
  {
    var a, b := p[lo..hi + 1], q[lo..hi + 1];
    ValuesCount(a);
    ValuesCount(b);
    var va, vb := Values(a), Values(b);
    forall v | v in vb ensures v in va {
      var k :| 0 <= k < |b| && b[k] == v;
      assert v == q[lo + k] && Within(p, lo, hi, q[lo + k]);
      var m :| lo <= m <= hi && p[m] == v;
      assert a[m - lo] == v;
    }
    FullSubset(vb, va);
    assert a[i - lo] in vb;
    var k :| 0 <= k < |b| && b[k] == p[i];
    assert q[lo + k] == p[i];
  }

  /** Entries `[lo, hi]` carry no thread length. */
  ghost predicate Clean(v: seq<int>, lo: int, hi: int) {
    0 <= lo && hi < |v| < LOW && forall i :: lo <= i <= hi ==> 0 <= v[i] < |v|
  }

  lemma CleanRearranged(v: seq<int>, w: seq<int>, lo: int, hi: int)
    requires Clean(v, lo, hi) && Rearranged(v, w, lo, hi)
    ensures Clean(w, lo, hi)
  {
    forall i | lo <= i <= hi ensures 0 <= w[i] < |w| {
      assert Within(v, lo, hi, w[i]);
    }
  }

  /** Entries `[lo, hi]` are positions that agree on `depth` symbols. */
  ghost predicate Sortable(s: seq<int>, v: seq<int>, lo: int, hi: int, depth: int) {
    Clean(v, lo, hi) && Injective(v) && AllSame(s, v, lo, hi, depth)
  }

  lemma SortableRearranged(s: seq<int>, v: seq<int>, w: seq<int>, lo: int, hi: int, depth: int)
    requires Sortable(s, v, lo, hi, depth) && Rearranged(v, w, lo, hi)
    ensures Sortable(s, w, lo, hi, depth)
  {
    CleanRearranged(v, w, lo, hi);
    AllSameRearranged(s, v, w, lo, hi, depth);
  }

  lemma RawInjective(v: seq<int>)
    requires Injective(Low(v))
    ensures Injective(v)
  {
    forall i, j | 0 <= i < j < |v| ensures v[i] != v[j] {
      assert Low(v)[i] != Low(v)[j];
    }
  }

  lemma CellSortable(s: seq<int>, v: seq<int>, r: seq<int>, lo: int, hi: int, d: int)
    requires Ranked(s, Low(v), r, d) && IsCell(RankOf(Low(v), r), lo, hi) && Clean(v, lo, hi)
    ensures Sortable(s, v, lo, hi, d)
  {
    RawInjective(v);
    CellAllSame(s, Low(v), RankOf(Low(v), r), lo, hi, d);
    forall i, j | lo <= i <= hi && lo <= j <= hi ensures Same(s, v[i], v[j], d) {
      assert Low(v)[i] == v[i] && Low(v)[j] == v[j];
    }
  }

  /** Rearranging a bucket leaves the bucket map alone. */
  lemma MapRearranged(v: seq<int>, w: seq<int>, r: seq<int>, lo: int, hi: int)
    requires IsPerm(Low(v)) && |r| > |v| && IsCell(RankOf(Low(v), r), lo, hi)
    requires Rearranged(v, w, lo, hi)
    ensures RankOf(Low(w), r) == RankOf(Low(v), r)
  {
    var p, q := Low(v), Low(w);
    forall i | 0 <= i < |w| ensures RankOf(q, r)[i] == RankOf(p, r)[i] {
      if lo <= i <= hi {
        assert Within(v, lo, hi, w[i]);
        var j :| lo <= j <= hi && v[j] == w[i];
        assert p[j] == q[i] && RankOf(p, r)[j] == hi;
      }
    }
  }

  /** What every sorting step does to a bucket `[lo, hi]`: entries and ranks `v`, `r` become `w`, `t`. */
  ghost predicate Refined(s: seq<int>, v: seq<int>, r: seq<int>, w: seq<int>, t: seq<int>,
                          lo: int, hi: int, d: int) {
    && Ranked(s, Low(w), t, d)
    && Rearranged(v, w, lo, hi)
    && Splits(RankOf(Low(v), r), RankOf(Low(w), t), lo, hi)
    && Clean(w, lo, hi)
  }

  lemma Refine(s: seq<int>, v: seq<int>, r: seq<int>, w: seq<int>, t: seq<int>, lo: int, hi: int, d: int)
    requires Ranked(s, Low(v), r, d) && IsCell(RankOf(Low(v), r), lo, hi) && Clean(v, lo, hi)
    requires Rearranged(v, w, lo, hi) && |t| == |r|
    requires Splits(RankOf(Low(v), r), RankOf(Low(w), t), lo, hi)
    requires OrderedIn(s, Low(w), RankOf(Low(w), t), lo, hi)
    ensures Refined(s, v, r, w, t, lo, hi, d)
  {
    var p, q := Low(v), Low(w);
    var g, h := RankOf(p, r), RankOf(q, t);
    LowRearranged(v, w, lo, hi);
    RefineBucket(s, p, g, q, h, lo, hi);
    CleanRearranged(v, w, lo, hi);
    CellAllSame(s, p, g, lo, hi, d);
    AllSameRearranged(s, p, q, lo, hi, d);
    SplitsSides(g, h, lo, hi);
    forall i, j | 0 <= i < j <= |s| - 1 && h[i] == h[j] ensures Same(s, q[i], q[j], d) {
    }
  }

  lemma RefinedTransitive(s: seq<int>, v: seq<int>, r: seq<int>, w: seq<int>, t: seq<int>,
                          x: seq<int>, u: seq<int>, lo: int, hi: int, a: int, b: int, d: int)
    requires lo <= a <= b <= hi && Clean(v, lo, hi)
    requires Refined(s, v, r, w, t, lo, hi, d) && Refined(s, w, t, x, u, a, b, d)
    ensures Refined(s, v, r, x, u, lo, hi, d)
  {
    RearrangedTransitive(v, w, x, lo, hi, a, b);
    SplitsTransitive(RankOf(Low(v), r), RankOf(Low(w), t), RankOf(Low(x), u), lo, hi, a, b);
    CleanRearranged(v, x, lo, hi);
  }

  /** `g` with each index of `[a, b]` a bucket of its own. */
  ghost function Singles(g: seq<int>, a: int, b: int): (h: seq<int>)
    ensures |h| == |g| && forall i :: 0 <= i < |g| ==> h[i] == if a <= i <= b then i else g[i]
  {
    seq(|g|, i requires 0 <= i < |g| => if a <= i <= b then i else g[i])
  }

  /** The bucket `[lo, hi]` of `g` cut into `[lo, l1[`, `[l1, h1]` and `]h1, hi]`. */
  ghost function Three(g: seq<int>, lo: int, l1: int, h1: int): (h: seq<int>)
    ensures |h| == |g|
    ensures forall i :: 0 <= i < |g| ==>
      h[i] == if lo <= i < l1 then l1 - 1 else if l1 <= i <= h1 then h1 else g[i]
  {
    Fill(Fill(g, l1, h1, h1), lo, l1 - 1, l1 - 1)
  }

  lemma ThreeSplits(g: seq<int>, lo: int, l1: int, h1: int, hi: int)
    requires IsCell(g, lo, hi) && lo <= l1 <= h1 <= hi
    ensures Splits(g, Three(g, lo, l1, h1), lo, hi)
    ensures lo < l1 ==> IsCell(Three(g, lo, l1, h1), lo, l1 - 1)
    ensures h1 < hi ==> IsCell(Three(g, lo, l1, h1), h1 + 1, hi)
    ensures IsCell(Three(g, lo, l1, h1), l1, h1)
  {
  }

  /** Refining a bucket leaves the other buckets alone. */
  lemma CellElsewhere(g: seq<int>, h: seq<int>, lo: int, hi: int, a: int, b: int)
    requires Splits(g, h, lo, hi) && IsCell(g, a, b) && b != hi
    ensures IsCell(h, a, b) && (b < lo || hi < a)
  {
    assert g[b] == b && g[hi] == hi;
  }

  datatype Segment = Segment(lo: int, hi: int, depth: int)

  /** `v` is the upper end of a stacked segment. */
  ghost predicate OnStack(st: seq<Segment>, v: int) {
    exists k :: 0 <= k < |st| && st[k].hi == v
  }

  /** The stacked segments are different buckets inside `[lo, hi]`. */
  ghost predicate Stacked(st: seq<Segment>, g: seq<int>, lo: int, hi: int) {
    && (forall k :: 0 <= k < |st| ==>
      lo <= st[k].lo && st[k].hi <= hi && st[k].depth <= 8 && IsCell(g, st[k].lo, st[k].hi))
    && (forall k, m :: 0 <= k < m < |st| ==> st[k].hi != st[m].hi)
  }

  /** Outside the stacked segments, entries of one bucket agree on `d` symbols. */
  ghost predicate TiedBut(s: seq<int>, p: seq<int>, g: seq<int>, lo: int, hi: int, d: int, st: seq<Segment>)
    requires |p| == |g| && 0 <= lo && hi < |p|
  {
    forall i, j :: lo <= i < j <= hi && g[i] == g[j] && !OnStack(st, g[i]) ==> Same(s, p[i], p[j], d)
  }

  /** The work left in a segment: every entry can still be compared at the depths up to 8. */
  ghost function Load(x: Segment): int {
    (x.hi - x.lo + 1) * (9 - x.depth)
  }

  /** The work left on the stack; decreases in every round of a quicksort. */
  ghost function Weight(st: seq<Segment>): int {
    if st == [] then 0
    else Weight(st[..|st| - 1]) + Load(st[|st| - 1])
  }

  lemma WeightPush(st: seq<Segment>, x: Segment)
    ensures Weight(st + [x]) == Weight(st) + Load(x)
  {
    assert (st + [x])[..|st|] == st;
  }

  lemma {:induction false} WeightAppend(a: seq<Segment>, b: seq<Segment>)
    ensures Weight(a + b) == Weight(a) + Weight(b)
  {
    if b == [] {
      assert a + b == a;
    } else {
      var m := |b| - 1;
      WeightAppend(a, b[..m]);
      WeightPush(a + b[..m], b[m]);
      assert (a + b[..m]) + [b[m]] == a + b;
    }
  }

  lemma {:induction false} WeightNat(st: seq<Segment>)
    requires forall k :: 0 <= k < |st| ==> Load(st[k]) >= 0
    ensures Weight(st) >= 0
  {
    if st != [] {
      WeightNat(st[..|st| - 1]);
    }
  }

  lemma StackedWeight(st: seq<Segment>, g: seq<int>, lo: int, hi: int)
    requires Stacked(st, g, lo, hi)
    ensures Weight(st) >= 0
  {
    forall k | 0 <= k < |st| ensures Load(st[k]) >= 0 {
      LoadNat(st[k]);
    }
    WeightNat(st);
  }

  lemma LoadNat(x: Segment)
    requires x.lo <= x.hi && x.depth <= 9
    ensures Load(x) >= 0
  {
  }

  /** Take the top segment off, refine it, and stack parts of it. */
  lemma PopPush(st: seq<Segment>, top: Segment, extra: seq<Segment>,
                g: seq<int>, h: seq<int>, lo: int, hi: int)
    requires Stacked(st + [top], g, lo, hi)
    requires Splits(g, h, top.lo, top.hi) && Stacked(extra, h, top.lo, top.hi)
    ensures Stacked(st + extra, h, lo, hi)
  {
    var old', all := st + [top], st + extra;
    assert old'[|st|] == top;
    forall k | 0 <= k < |all|
      ensures lo <= all[k].lo && all[k].hi <= hi && all[k].depth <= 8 && IsCell(h, all[k].lo, all[k].hi)
    {
      if k < |st| {
        assert all[k] == old'[k];
        CellElsewhere(g, h, top.lo, top.hi, all[k].lo, all[k].hi);
      }
    }
    forall k, m | 0 <= k < m < |all| ensures all[k].hi != all[m].hi {
      if k < |st| {
        assert all[k] == old'[k];
        if m < |st| {
          assert all[m] == old'[m];
        } else {
          CellElsewhere(g, h, top.lo, top.hi, all[k].lo, all[k].hi);
          assert all[m] == extra[m - |st|];
        }
      } else {
        assert all[k] == extra[k - |st|] && all[m] == extra[m - |st|];
      }
    }
  }

  lemma PopPushTied(s: seq<int>, p: seq<int>, g: seq<int>, q: seq<int>, h: seq<int>,
                    lo: int, hi: int, d: int, st: seq<Segment>, top: Segment, extra: seq<Segment>)
    requires |p| == |g| == |q| == |h| && 0 <= lo <= top.lo && top.hi <= hi < |p|
    requires Cells(g)
    requires TiedBut(s, p, g, lo, hi, d, st + [top])
    requires Splits(g, h, top.lo, top.hi) && Rearranged(p, q, top.lo, top.hi)
    requires TiedBut(s, q, h, top.lo, top.hi, d, extra)
    ensures TiedBut(s, q, h, lo, hi, d, st + extra)
  {
    var all := st + extra;
    SplitsSides(g, h, top.lo, top.hi);
    forall i, j | lo <= i < j <= hi && h[i] == h[j] && !OnStack(all, h[i]) ensures Same(s, q[i], q[j], d) {
      if top.lo <= i <= top.hi {
        assert !OnStack(extra, h[i]) by {
          forall k | 0 <= k < |extra| ensures extra[k].hi != h[i] { assert all[|st| + k] == extra[k]; }
        }
      } else {
        assert !OnStack(st + [top], g[i]) by {
          forall k | 0 <= k < |st + [top]| ensures (st + [top])[k].hi != g[i] {
            if k < |st| { assert all[k] == st[k]; }
            else if i < top.lo { assert g[i] < top.lo; }
            else { assert i <= g[i]; }
          }
        }
      }
    }
  }

  /** The thread length kept in the high byte of an entry. */
  function Skip(x: int): int {
    x / LOW % 256
  }

  ghost predicate AllSingle(g: seq<int>, a: int, b: int) {
    0 <= a && b < |g| && forall i :: a <= i <= b ==> IsCell(g, i, i)
  }

  /** A thread length only ever covers finished suffixes, that is, buckets of one. */
  ghost predicate Threaded(v: seq<int>, g: seq<int>) {
    && |v| == |g|
    && forall i :: 0 <= i < |v| ==>
      0 <= v[i] < WORD && (Skip(v[i]) > 0 ==> AllSingle(g, i, i + Skip(v[i])))
  }

  /** Every bucket below `lo` ends below `lo`. */
  ghost predicate Boundary(g: seq<int>, lo: int) {
    0 <= lo <= |g| && forall i :: 0 <= i < lo ==> g[i] < lo
  }

  /** A bucket with several entries carries no threads. */
  lemma UnfinishedClean(v: seq<int>, g: seq<int>, lo: int, hi: int)
    requires Threaded(v, g) && IsCell(g, lo, hi) && lo < hi && |v| < LOW
    requires forall i :: 0 <= i < |v| ==> v[i] % LOW < |v|
    ensures Clean(v, lo, hi)
  {
    forall i | lo <= i <= hi ensures 0 <= v[i] < |v| {
      assert g[lo] == hi && g[i] == hi;
      assert !IsCell(g, i, i);
      assert Skip(v[i]) == 0;
    }
  }

  /** Starting from a boundary, the bucket of `lo` is `[lo, g[lo]]`. */
  lemma NextCell(g: seq<int>, lo: int)
    requires Cells(g) && Boundary(g, lo) && lo < |g|
    ensures IsCell(g, lo, g[lo]) && Boundary(g, g[lo] + 1)
  {
    forall i | lo <= i <= g[lo] ensures g[i] == g[lo] {
      assert g[lo] <= g[i] <= g[g[lo]];
    }
  }

  lemma SkipBoundary(v: seq<int>, g: seq<int>, lo: int)
    requires Cells(g) && Threaded(v, g) && Boundary(g, lo) && lo < |g| && g[lo] == lo
    ensures var next := lo + Skip(v[lo]) + 1; Boundary(g, next) && AllSingle(g, lo, next - 1)
  {
    var next := lo + Skip(v[lo]) + 1;
    assert IsCell(g, lo, lo);
    assert AllSingle(g, lo, next - 1);
    assert IsCell(g, next - 1, next - 1);
    forall i | 0 <= i < next ensures g[i] < next {
      if i < lo { assert g[i] < lo; }
    }
  }

  /** Passing single buckets extends what is tied. */
  lemma TiedSingles(s: seq<int>, p: seq<int>, g: seq<int>, lo: int, next: int, d: int)
    requires |p| == |g| && 0 <= lo <= next <= |g| && Tied(s, p, g, 0, lo - 1, d) && AllSingle(g, lo, next - 1)
    ensures Tied(s, p, g, 0, next - 1, d)
  {
    assert forall j :: lo <= j < next ==> forall i :: 0 <= i < j ==> g[i] < g[j] by {
      forall j | lo <= j < next ensures forall i :: 0 <= i < j ==> g[i] < g[j] { assert IsCell(g, j, j); }
    }
  }

  lemma TiedExtend(s: seq<int>, p: seq<int>, g: seq<int>, lo: int, hi: int, d: int)
    requires |p| == |g| && 0 <= lo <= hi < |g| && Boundary(g, lo) && Cells(g)
    requires Tied(s, p, g, 0, lo - 1, d) && Tied(s, p, g, lo, hi, d)
    ensures Tied(s, p, g, 0, hi, d)
  {
    forall i, j | 0 <= i < j <= hi && g[i] == g[j] ensures Same(s, p[i], p[j], d) {
      if j >= lo { assert j <= g[j]; }
    }
  }

  /** Sorting an unfinished bucket keeps the threads. */
  lemma RefinedThreaded(s: seq<int>, v: seq<int>, r: seq<int>, w: seq<int>, t: seq<int>, lo: int, hi: int, d: int)
    requires Threaded(v, RankOf(Low(v), r)) && Refined(s, v, r, w, t, lo, hi, d) && lo < hi
    ensures Threaded(w, RankOf(Low(w), t))
  {
    var g, h := RankOf(Low(v), r), RankOf(Low(w), t);
    forall i | 0 <= i < |w| && Skip(w[i]) > 0 ensures AllSingle(h, i, i + Skip(w[i])) {
      assert !(lo <= i <= hi);
      assert AllSingle(g, i, i + Skip(v[i]));
      forall j | i <= j <= i + Skip(w[i]) ensures IsCell(h, j, j) {
        SingleElsewhere(g, h, lo, hi, j);
      }
    }
  }

  lemma SingleElsewhere(g: seq<int>, h: seq<int>, lo: int, hi: int, j: int)
    requires Splits(g, h, lo, hi) && lo < hi && 0 <= j < |g| && IsCell(g, j, j)
    ensures IsCell(h, j, j)
  {
    assert g[lo] == hi;
    CellElsewhere(g, h, lo, hi, j, j);
  }

  /** Writing a thread length over finished suffixes. */
  lemma ThreadOne(v: seq<int>, r: seq<int>, i: int, step: int)
    requires Threaded(v, RankOf(Low(v), r)) && 0 <= i < |v| && 0 < step < 256
    requires AllSingle(RankOf(Low(v), r), i, i + step)
    ensures var w := v[i := v[i] % LOW + step * LOW]; Low(w) == Low(v) && Threaded(w, RankOf(Low(w), r))
  {
    var w := v[i := v[i] % LOW + step * LOW];
    assert Low(w) == Low(v);
    assert Skip(w[i]) == step;
  }

  /** A doubling round has dealt with the entries below `lo`; those from `from` on are finished. */
  ghost predicate Round(s: seq<int>, v: seq<int>, r: seq<int>, d: int, lo: int, from: int) {
    && Ranked(s, Low(v), r, d)
    && Threaded(v, RankOf(Low(v), r))
    && Boundary(RankOf(Low(v), r), lo)
    && Tied(s, Low(v), RankOf(Low(v), r), 0, lo - 1, 2 * d)
    && 0 <= from <= lo
    && AllSingle(RankOf(Low(v), r), from, lo - 1)
  }

  lemma RoundSkip(s: seq<int>, v: seq<int>, r: seq<int>, d: int, lo: int, from: int)
    requires Round(s, v, r, d, lo, from) && lo < |v| && RankOf(Low(v), r)[lo] == lo
    ensures Round(s, v, r, d, lo + Skip(v[lo]) + 1, from)
  {
    var g := RankOf(Low(v), r);
    SkipBoundary(v, g, lo);
    TiedSingles(s, Low(v), g, lo, lo + Skip(v[lo]) + 1, 2 * d);
  }

  lemma RoundCell(s: seq<int>, v: seq<int>, r: seq<int>, d: int, lo: int, from: int)
    requires |s| < LOW && Round(s, v, r, d, lo, from) && lo < |v| && RankOf(Low(v), r)[lo] != lo
    ensures var hi := RankOf(Low(v), r)[lo]; IsCell(RankOf(Low(v), r), lo, hi) && lo < hi && Clean(v, lo, hi)
  {
    var g := RankOf(Low(v), r);
    NextCell(g, lo);
    forall i | 0 <= i < |v| ensures v[i] % LOW < |v| { assert Low(v)[i] < |v|; }
    UnfinishedClean(v, g, lo, g[lo]);
  }

  lemma SplitsBoundary(g: seq<int>, h: seq<int>, lo: int, hi: int)
    requires Cells(g) && Splits(g, h, lo, hi)
    ensures Boundary(h, lo) && Boundary(h, hi + 1)
  {
    SplitsSides(g, h, lo, hi);
  }

  lemma TiedElsewhere(s: seq<int>, p: seq<int>, g: seq<int>, q: seq<int>, h: seq<int>, lo: int, hi: int, d: int)
    requires |p| == |g| && 0 <= lo <= hi < |p| && Tied(s, p, g, 0, lo - 1, d)
    requires Splits(g, h, lo, hi) && Rearranged(p, q, lo, hi)
    ensures Tied(s, q, h, 0, lo - 1, d)
  {
  }

  lemma RoundSorted(s: seq<int>, v: seq<int>, r: seq<int>, w: seq<int>, t: seq<int>, d: int, lo: int, hi: int,
                    from: int)
    requires Round(s, v, r, d, lo, from) && lo < hi
    requires Refined(s, v, r, w, t, lo, hi, d)
    requires Tied(s, Low(w), RankOf(Low(w), t), lo, hi, 2 * d)
    ensures Round(s, w, t, d, hi + 1, hi + 1)
    ensures AllSingle(RankOf(Low(w), t), lo, hi) ==> Round(s, w, t, d, hi + 1, from)
  {
    var g, h := RankOf(Low(v), r), RankOf(Low(w), t);
    RefinedThreaded(s, v, r, w, t, lo, hi, d);
    LowRearranged(v, w, lo, hi);
    TiedElsewhere(s, Low(v), g, Low(w), h, lo, hi, 2 * d);
    SplitsBoundary(g, h, lo, hi);
    TiedExtend(s, Low(w), h, lo, hi, 2 * d);
    forall i | from <= i < lo ensures IsCell(h, i, i) {
      SingleElsewhere(g, h, lo, hi, i);
    }
  }

  lemma SinglesAre(g: seq<int>, h: seq<int>, lo: int, hi: int)
    requires Cells(g) && IsCell(g, lo, hi) && h == Singles(g, lo, hi)
    ensures AllSingle(h, lo, hi)
  {
  }

  /** When all buckets are single, the positions are in strict suffix order. */
  lemma AllSingleSorted(s: seq<int>, p: seq<int>, r: seq<int>, d: int)
    requires Ranked(s, p, r, d) && AllSingle(RankOf(p, r), 0, |s| - 1)
    ensures IsSuffixArray(s, p)
  {
    var g := RankOf(p, r);
    forall i, j | 0 <= i < j < |p| ensures RowsInOrder(s, p, i, j) {
      assert IsCell(g, i, i) && IsCell(g, j, j);
    }
  }

  /** Once the agreement covers the block, every bucket is single. */
  lemma DeepIsSingle(s: seq<int>, p: seq<int>, r: seq<int>, d: int, lo: int, hi: int)
    requires IsBlock(s) && Ranked(s, p, r, d) && d >= 0 && IsCell(RankOf(p, r), lo, hi) && lo < hi
    ensures d < |s|
  {
    assert Same(s, p[lo], p[hi], d);
    SameEnds(s, p[lo], p[hi], d);
  }
}
