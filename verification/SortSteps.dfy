/** The value-level steps of the block sorter's quicksorts and insertion sorts. */
module SortSteps {
  import opened SuffixOrder
  import opened Permutation
  import opened Buckets
  import opened RankState
  import opened Words
  import P = Partition

  /** Entries `[lo, hi]` are in order as far as their first `d` symbols go. */
  ghost predicate Increasing(s: seq<int>, p: seq<int>, lo: int, hi: int, d: int)
    requires 0 <= lo && hi < |p|
  {
    forall i, j :: lo <= i < j <= hi ==> NotAfter(s, p[i], p[j], d)
  }

  /** As `Increasing`, but the entry at `hole` is only known to precede those after it. */
  ghost predicate IncreasingBut(s: seq<int>, p: seq<int>, lo: int, hi: int, hole: int, d: int)
    requires 0 <= lo && hi < |p|
  {
    forall i, j :: lo <= i < j <= hi && j != hole ==> NotAfter(s, p[i], p[j], d)
  }

  lemma HoleDown(s: seq<int>, p: seq<int>, lo: int, hi: int, hole: int, d: int)
    requires 0 <= lo < hole <= hi < |p|
    requires IncreasingBut(s, p, lo, hi, hole, d) && NotAfter(s, p[hole], p[hole - 1], d)
    ensures IncreasingBut(s, P.Swapped(p, hole, hole - 1), lo, hi, hole - 1, d)
  {
    var q := P.Swapped(p, hole, hole - 1);
    forall i, j | lo <= i < j <= hi && j != hole - 1 ensures NotAfter(s, q[i], q[j], d) {
      if j == hole && i < hole - 1 { assert NotAfter(s, p[i], p[hole - 1], d); }
    }
  }

  lemma HoleDone(s: seq<int>, p: seq<int>, lo: int, hi: int, hole: int, d: int)
    requires 0 <= lo <= hole <= hi < |p|
    requires IncreasingBut(s, p, lo, hi, hole, d)
    requires hole > lo ==> NotAfter(s, p[hole - 1], p[hole], d)
    ensures Increasing(s, p, lo, hi, d)
  {
    forall i, j | lo <= i < j <= hi ensures NotAfter(s, p[i], p[j], d) {
      if j == hole && i < hole - 1 {
        assert NotAfter(s, p[i], p[hole - 1], d);
        LessByTransitive(s, p[i], p[hole - 1], p[hole], d);
      }
    }
  }

  lemma SinglesSplit(g: seq<int>, lo: int, hi: int)
    requires IsCell(g, lo, hi)
    ensures Splits(g, Singles(g, lo, hi), lo, hi)
  {
  }

  lemma SinglesOrdered(s: seq<int>, w: seq<int>, g: seq<int>, lo: int, hi: int)
    requires |g| == |w| && IsBlock(s) && |w| == |s| && Clean(w, lo, hi) && Injective(w) && Increasing(s, w, lo, hi, |s|)
    ensures OrderedIn(s, Low(w), Singles(g, lo, hi), lo, hi)
  {
    var h := Singles(g, lo, hi);
    forall i, j | lo <= i <= hi && lo <= j <= hi && h[i] < h[j] ensures Less(s, Low(w)[i], Low(w)[j]) {
      EntriesOrdered(s, w, lo, hi, i, j);
    }
  }

  lemma EntriesOrdered(s: seq<int>, w: seq<int>, lo: int, hi: int, i: int, j: int)
    requires IsBlock(s) && |w| == |s| && Clean(w, lo, hi) && Injective(w) && Increasing(s, w, lo, hi, |s|)
    requires 0 <= lo <= i < j <= hi < |w|
    ensures Less(s, Low(w)[i], Low(w)[j])
  {
    assert NotAfter(s, w[i], w[j], |s|);
    LessByAll(s, w[i], w[j]);
  }

  lemma SinglesRefine(s: seq<int>, v: seq<int>, r: seq<int>, w: seq<int>, t: seq<int>, lo: int, hi: int, d: int)
    requires IsBlock(s) && Ranked(s, Low(v), r, d) && IsCell(RankOf(Low(v), r), lo, hi) && Clean(v, lo, hi)
    requires Rearranged(v, w, lo, hi) && |t| == |r| && Increasing(s, w, lo, hi, |s|)
    requires RankOf(Low(w), t) == Singles(RankOf(Low(v), r), lo, hi)
    ensures Refined(s, v, r, w, t, lo, hi, d)
  {
    CleanRearranged(v, w, lo, hi);
    SinglesSplit(RankOf(Low(v), r), lo, hi);
    SinglesOrdered(s, w, RankOf(Low(v), r), lo, hi);
    Refine(s, v, r, w, t, lo, hi, d);
  }

  lemma CellKeysInRange(s: seq<int>, v: seq<int>, r: seq<int>, lo: int, hi: int, d: nat)
    requires IsBlock(s) && |v| == |s| < |r| && 0 <= lo < hi && Sortable(s, v, lo, hi, d)
    ensures P.KeysInRange(v, r, d, lo, hi)
  {
    forall i | lo <= i <= hi ensures 0 <= v[i] + d < |r| {
      var j := if i == lo then hi else lo;
      assert v[i] != v[j];
      SameEnds(s, v[i], v[j], d);
    }
  }

  /** Different keys `d` places on decide the order; equal ones double the agreement. */
  lemma KeysDecide(s: seq<int>, w: seq<int>, r: seq<int>, lo: int, hi: int, d: nat, i: int, j: int)
    requires IsBlock(s) && |w| == |s| && RankOrder(s, r, d) && Sortable(s, w, lo, hi, d)
    requires lo <= i <= hi && lo <= j <= hi && i != j
    ensures P.Key(w, r, d, i) < P.Key(w, r, d, j) ==> Less(s, w[i], w[j])
    ensures P.Key(w, r, d, i) == P.Key(w, r, d, j) ==> Same(s, w[i], w[j], 2 * d)
  {
    assert w[i] != w[j];
    RankStep(s, r, d, w[i], w[j], d);
  }

  lemma ThreeOrdered(s: seq<int>, w: seq<int>, r: seq<int>, g: seq<int>, med: int,
                     lo: int, l1: int, h1: int, hi: int, d: nat)
    requires IsBlock(s) && |w| == |s| == |g| && RankOrder(s, r, d) && Sortable(s, w, lo, hi, d)
    requires P.Parted(w, r, d, med, lo, l1, h1, hi) && l1 <= h1 && IsCell(g, lo, hi)
    ensures OrderedIn(s, Low(w), Three(g, lo, l1, h1), lo, hi)
    ensures AllSame(s, w, l1, h1, 2 * d)
  {
    var h := Three(g, lo, l1, h1);
    forall i, j | lo <= i <= hi && lo <= j <= hi && h[i] < h[j] ensures Less(s, Low(w)[i], Low(w)[j]) {
      KeysDecide(s, w, r, lo, hi, d, i, j);
    }
    forall i, j | l1 <= i <= h1 && l1 <= j <= h1 ensures Same(s, w[i], w[j], 2 * d) {
      if i != j { KeysDecide(s, w, r, lo, hi, d, i, j); }
    }
  }

  lemma ThreeRefine(s: seq<int>, v: seq<int>, r: seq<int>, w: seq<int>, t: seq<int>, med: int,
                    lo: int, l1: int, h1: int, hi: int, d: nat)
    requires IsBlock(s) && Ranked(s, Low(v), r, d) && IsCell(RankOf(Low(v), r), lo, hi) && Clean(v, lo, hi)
    requires Rearranged(v, w, lo, hi) && |t| == |r|
    requires P.Parted(w, r, d, med, lo, l1, h1, hi) && l1 <= h1
    requires RankOf(Low(w), t) == Three(RankOf(Low(v), r), lo, l1, h1)
    ensures Refined(s, v, r, w, t, lo, hi, d)
    ensures AllSame(s, w, l1, h1, 2 * d)
  {
    var g := RankOf(Low(v), r);
    RankedOrder(s, Low(v), r, d);
    CellSortable(s, v, r, lo, hi, d);
    SortableRearranged(s, v, w, lo, hi, d);
    ThreeOrdered(s, w, r, g, med, lo, l1, h1, hi, d);
    ThreeSplits(g, lo, l1, h1, hi);
    Refine(s, v, r, w, t, lo, hi, d);
  }

  /** The entries of `[lo, hi)` as a segment to be sorted, if there are two of them. */
  function Part(lo: int, hi: int, depth: int): seq<Segment> {
    if lo + 1 < hi then [Segment(lo, hi - 1, depth)] else []
  }

  /** The parts of `[lo, hi]` that a round of the rank quicksort stacks. */
  function Outer(lo: int, l1: int, h1: int, hi: int): seq<Segment> {
    Part(lo, l1, 0) + Part(h1 + 1, hi + 1, 0)
  }

  lemma OuterNarrow(lo: int, l1: int, h1: int, hi: int)
    requires lo <= l1 <= h1 <= hi
    ensures Narrow(Outer(lo, l1, h1, hi), hi - lo + 1)
  {
    var a, b := Part(lo, l1, 0), Part(h1 + 1, hi + 1, 0);
    PartNarrow(lo, l1, 0, l1 - lo);
    PartNarrow(h1 + 1, hi + 1, 0, hi - h1);
    SpanAppend(a, b);
  }

  lemma OuterStacked(s: seq<int>, w: seq<int>, g: seq<int>, lo: int, l1: int, h1: int, hi: int, d: int)
    requires |w| == |g| && IsCell(g, lo, hi) && lo <= l1 <= h1 <= hi
    requires AllSame(s, Low(w), l1, h1, d)
    ensures Stacked(Outer(lo, l1, h1, hi), Three(g, lo, l1, h1), lo, hi)
    ensures TiedBut(s, Low(w), Three(g, lo, l1, h1), lo, hi, d, Outer(lo, l1, h1, hi))
  {
    var st, h := Outer(lo, l1, h1, hi), Three(g, lo, l1, h1);
    ThreeSplits(g, lo, l1, h1, hi);
    forall i, j | lo <= i < j <= hi && h[i] == h[j] && !OnStack(st, h[i])
      ensures Same(s, Low(w)[i], Low(w)[j], d)
    {
      if lo < l1 - 1 { assert st[0].hi == l1 - 1; }
      if h1 + 1 < hi { assert st[|st| - 1].hi == hi; }
    }
  }

  lemma OuterWeight(lo: int, l1: int, h1: int, hi: int)
    requires lo <= l1 <= h1 <= hi
    ensures Weight(Outer(lo, l1, h1, hi)) < Load(Segment(lo, hi, 0))
  {
    var a, b := Segment(lo, l1 - 1, 0), Segment(h1 + 1, hi, 0);
    WeightPush([], a);
    WeightPush([], b);
    WeightPush([a], b);
    assert [] + [a] == [a] && [] + [b] == [b];
  }

  lemma LowAllSame(s: seq<int>, w: seq<int>, lo: int, hi: int, d: int)
    requires Clean(w, lo, hi) && AllSame(s, w, lo, hi, d)
    ensures AllSame(s, Low(w), lo, hi, d)
  {
    forall i, j | lo <= i <= hi && lo <= j <= hi ensures Same(s, Low(w)[i], Low(w)[j], d) {
      assert Same(s, w[i], w[j], d);
    }
  }

  /** The rank quicksort keeps one depth for all its segments. */
  ghost predicate Flat(st: seq<Segment>) {
    forall k :: 0 <= k < |st| ==> st[k].depth == 0
  }

  /** One step of a quicksort on the bucket `[lo, hi]`, leaving `parts` to be sorted. */
  ghost predicate Progress(s: seq<int>, v: seq<int>, r: seq<int>, w: seq<int>, t: seq<int>,
                           lo: int, hi: int, d: int, e: int, parts: seq<Segment>) {
    && Refined(s, v, r, w, t, lo, hi, d)
    && Stacked(parts, RankOf(Low(w), t), lo, hi)
    && TiedBut(s, Low(w), RankOf(Low(w), t), lo, hi, e, parts)
    && Weight(parts) < Load(Segment(lo, hi, 0)) && Flat(parts)
  }

  lemma SinglesProgress(s: seq<int>, v: seq<int>, r: seq<int>, w: seq<int>, t: seq<int>,
                        lo: int, hi: int, d: int, e: int)
    requires Refined(s, v, r, w, t, lo, hi, d)
    requires RankOf(Low(w), t) == Singles(RankOf(Low(v), r), lo, hi)
    ensures Progress(s, v, r, w, t, lo, hi, d, e, [])
  {
  }

  lemma DivideKeeps(v: seq<int>, w: seq<int>, r: seq<int>, lo: int, hi: int)
    requires IsPerm(Low(v)) && |r| > |v| && IsCell(RankOf(Low(v), r), lo, hi)
    requires Rearranged(v, w, lo, hi) && Clean(v, lo, hi)
    ensures RankOf(Low(w), r) == RankOf(Low(v), r) && IsPerm(Low(w)) && Clean(w, lo, hi)
  {
    MapRearranged(v, w, r, lo, hi);
    LowRearranged(v, w, lo, hi);
    RearrangedPerm(Low(v), Low(w), lo, hi);
    CleanRearranged(v, w, lo, hi);
  }

  lemma ThreeProgress(s: seq<int>, v: seq<int>, r: seq<int>, w: seq<int>, t: seq<int>, med: int,
                      lo: int, l1: int, h1: int, hi: int, d: nat)
    requires IsBlock(s) && Ranked(s, Low(v), r, d) && IsCell(RankOf(Low(v), r), lo, hi) && Clean(v, lo, hi)
    requires Rearranged(v, w, lo, hi) && |t| == |r|
    requires P.Parted(w, r, d, med, lo, l1, h1, hi) && l1 <= h1
    requires RankOf(Low(w), t) == Three(RankOf(Low(v), r), lo, l1, h1)
    ensures Progress(s, v, r, w, t, lo, hi, d, 2 * d, Outer(lo, l1, h1, hi))
  {
    ThreeRefine(s, v, r, w, t, med, lo, l1, h1, hi, d);
    CleanRearranged(v, w, lo, hi);
    LowAllSame(s, w, l1, h1, 2 * d);
    OuterStacked(s, w, RankOf(Low(v), r), lo, l1, h1, hi, 2 * d);
    OuterWeight(lo, l1, h1, hi);
  }

  /** The loop invariant of the stack-driven quicksorts. */
  ghost predicate Running(s: seq<int>, v: seq<int>, r: seq<int>, w: seq<int>, t: seq<int>,
                          lo: int, hi: int, d: int, e: int, stack: seq<Segment>) {
    && Clean(v, lo, hi)
    && Refined(s, v, r, w, t, lo, hi, d)
    && Stacked(stack, RankOf(Low(w), t), lo, hi)
    && TiedBut(s, Low(w), RankOf(Low(w), t), lo, hi, e, stack)
    && Weight(stack) >= 0 && Flat(stack)
  }

  const RANKSORT_THRESH := 10
  const QUICKSORT_STACK := 512

  /** Blocks of up to this many symbols are always sorted: their segments cannot fill a stack. */
  const SURE := 1024

  /** The top segment is too large to be sorted at once, and its `parts` parts may not fit on the stack. */
  ghost predicate Stuck(st: seq<Segment>, parts: int, small: int) {
    st != [] && |st| - 1 + parts >= QUICKSORT_STACK && st[|st| - 1].hi - st[|st| - 1].lo >= small
  }

  /** How many entries the stacked segments have. */
  ghost function Span(st: seq<Segment>): int {
    if st == [] then 0 else Span(st[..|st| - 1]) + st[|st| - 1].hi - st[|st| - 1].lo + 1
  }

  /** The stacked segments have at least two entries each, and `n` together at most. */
  ghost predicate Narrow(st: seq<Segment>, n: int) {
    Span(st) <= n && forall k :: 0 <= k < |st| ==> st[k].lo < st[k].hi
  }

  lemma SpanPush(st: seq<Segment>, x: Segment)
    ensures Span(st + [x]) == Span(st) + x.hi - x.lo + 1
  {
    assert (st + [x])[..|st|] == st;
  }

  lemma {:induction false} SpanAppend(a: seq<Segment>, b: seq<Segment>)
    ensures Span(a + b) == Span(a) + Span(b)
    decreases |b|
  {
    if b == [] {
      assert a + b == a;
    } else {
      var n := |b| - 1;
      SpanAppend(a, b[..n]);
      assert a + b == a + b[..n] + [b[n]];
      SpanPush(a + b[..n], b[n]);
    }
  }

  /** There are at most half as many segments as entries. */
  lemma {:induction false} NarrowCount(st: seq<Segment>, n: int)
    requires Narrow(st, n)
    ensures 2 * |st| <= n
    decreases |st|
  {
    if st != [] {
      var top := st[|st| - 1];
      NarrowCount(st[..|st| - 1], n - (top.hi - top.lo + 1));
    }
  }

  /** A stack can only fill up in a block of more than 1024 symbols. */
  lemma StuckLarge(st: seq<Segment>, parts: int, n: int)
    requires parts <= 3 && Stuck(st, parts, RANKSORT_THRESH) && Narrow(st, n)
    ensures n > SURE
  {
    var top := st[|st| - 1];
    assert st == st[..|st| - 1] + [top];
    NarrowBelow(st[..|st| - 1], top, n);
  }

  /** A segment replaced by parts of it. */
  lemma NarrowAdvance(st: seq<Segment>, top: Segment, parts: seq<Segment>, n: int)
    requires Narrow(st + [top], n) && Narrow(parts, top.hi - top.lo + 1)
    ensures Narrow(st + parts, n)
  {
    SpanPush(st, top);
    SpanAppend(st, parts);
    assert forall k :: 0 <= k < |st| ==> (st + [top])[k] == st[k];
  }

  /** Below a segment of a narrow stack there is room for it. */
  lemma NarrowBelow(st: seq<Segment>, top: Segment, n: int)
    requires Narrow(st + [top], n)
    ensures 2 * |st| + top.hi - top.lo + 1 <= n
  {
    SpanPush(st, top);
    assert forall k :: 0 <= k < |st| ==> (st + [top])[k] == st[k];
    NarrowCount(st, n - (top.hi - top.lo + 1));
  }

  lemma NarrowThree(a: seq<Segment>, b: seq<Segment>, c: seq<Segment>, m: int, n: int, k: int)
    requires Narrow(a, m) && Narrow(b, n) && Narrow(c, k)
    ensures Narrow(a + b + c, m + n + k)
  {
    SpanAppend(a, b);
    SpanAppend(a + b, c);
  }

  lemma NarrowOne(x: Segment)
    requires x.lo < x.hi
    ensures Narrow([x], x.hi - x.lo + 1)
  {
    SpanPush([], x);
    assert [] + [x] == [x];
  }

  lemma PartNarrow(lo: int, hi: int, depth: int, n: int)
    requires 0 <= n && hi - lo <= n
    ensures Narrow(Part(lo, hi, depth), n)
  {
    if lo + 1 < hi { NarrowOne(Segment(lo, hi - 1, depth)); }
  }

  lemma StartStack(s: seq<int>, v: seq<int>, r: seq<int>, lo: int, hi: int, d: int)
    requires Ranked(s, Low(v), r, d) && IsCell(RankOf(Low(v), r), lo, hi) && Clean(v, lo, hi)
    ensures Running(s, v, r, v, r, lo, hi, d, 2 * d, [Segment(lo, hi, 0)])
  {
    var st := [Segment(lo, hi, 0)];
    RawInjective(v);
    RearrangedRefl(v, lo, hi);
    WeightPush([], st[0]);
    assert [] + [st[0]] == st;
    assert st[0].hi == hi && OnStack(st, hi);
  }

  lemma TopCell(s: seq<int>, v: seq<int>, r: seq<int>, w: seq<int>, t: seq<int>,
                lo: int, hi: int, d: int, e: int, stack: seq<Segment>, top: Segment)
    requires Running(s, v, r, w, t, lo, hi, d, e, stack + [top])
    ensures IsCell(RankOf(Low(w), t), top.lo, top.hi) && lo <= top.lo && top.hi <= hi
    ensures Clean(w, top.lo, top.hi)
  {
    assert (stack + [top])[|stack|] == top;
  }

  lemma Advance(s: seq<int>, v: seq<int>, r: seq<int>, w: seq<int>, t: seq<int>, x: seq<int>, u: seq<int>,
                lo: int, hi: int, d: int, e: int, stack: seq<Segment>, top: Segment, parts: seq<Segment>)
    requires Running(s, v, r, w, t, lo, hi, d, e, stack + [top])
    requires Progress(s, w, t, x, u, top.lo, top.hi, d, e, parts)
    ensures Running(s, v, r, x, u, lo, hi, d, e, stack + parts)
    ensures Weight(stack + parts) < Weight(stack + [top])
  {
    TopCell(s, v, r, w, t, lo, hi, d, e, stack, top);
    RefinedTransitive(s, v, r, w, t, x, u, lo, hi, top.lo, top.hi, d);
    PopPush(stack, top, parts, RankOf(Low(w), t), RankOf(Low(x), u), lo, hi);
    LowRearranged(w, x, top.lo, top.hi);
    PopPushTied(s, Low(w), RankOf(Low(w), t), Low(x), RankOf(Low(x), u), lo, hi, e, stack, top, parts);
    WeightAppend(stack, parts);
    WeightPush(stack, top);
    StackedWeight(stack + parts, RankOf(Low(x), u), lo, hi);
  }

  lemma ThreadedRound(s: seq<int>, v: seq<int>, w: seq<int>, r: seq<int>, d: int, lo: int, hi: int, from: int)
    requires Round(s, v, r, d, lo, from) && lo < hi && IsCell(RankOf(Low(v), r), lo, hi) && |s| < LOW
    requires Low(w) == Low(v) && Threaded(w, RankOf(Low(w), r))
    ensures Round(s, w, r, d, lo, from) && Clean(w, lo, hi)
  {
    RoundCell(s, w, r, d, lo, from);
  }

  lemma RoundDone(s: seq<int>, v: seq<int>, w: seq<int>, r: seq<int>, d: int, from: int)
    requires Round(s, v, r, d, |s|, from)
    requires Low(w) == Low(v) && Threaded(w, RankOf(Low(w), r))
    ensures Round(s, w, r, 2 * d, 0, 0)
    ensures from == 0 ==> AllSingle(RankOf(Low(w), r), 0, |s| - 1)
  {
  }
}
