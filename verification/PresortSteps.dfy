/** The value-level steps of the presort, which compares the data themselves to depth 8. */
module PresortSteps {
  import opened SuffixOrder
  import opened Permutation
  import opened Buckets
  import opened RankState
  import opened Words
  import opened SortSteps
  import P = Partition

  const PRESORT_DEPTH := 8

  /** The data buffer holds the block, followed by at least 31 zero bytes. */
  ghost predicate Holds(data: seq<int>, s: seq<int>) {
    |data| >= |s| + 31 && forall i :: 0 <= i < |s| + 31 ==> data[i] == Byte(s, i, 0)
  }

  /** The depth to which a comparison by data that starts at `depth` looks: it takes two bytes at a time. */
  function DataDepth(depth: int): int {
    if depth % 2 == 0 then 8 else 9
  }

  /** Entries whose bucket is not stacked have their final presort rank. */
  ghost predicate RankedBut(w: seq<int>, t: seq<int>, g: seq<int>, stack: seq<Segment>) {
    |g| == |w| && forall i :: 0 <= i < |w| && !OnStack(stack, g[i]) ==> RankOf(Low(w), t)[i] == g[i]
  }

  /** The entries of a stacked segment agree to its depth. */
  ghost predicate SegmentsSame(s: seq<int>, w: seq<int>, stack: seq<Segment>) {
    forall k :: 0 <= k < |stack| ==>
      0 <= stack[k].lo && stack[k].hi < |w| && 0 <= stack[k].depth &&
      AllSame(s, w, stack[k].lo, stack[k].hi, stack[k].depth)
  }

  /** One presort step on the segment `top`, leaving `parts`; the bucket map goes from `g` to `h`. */
  ghost predicate Presorted(s: seq<int>, w: seq<int>, t: seq<int>, g: seq<int>,
                            x: seq<int>, u: seq<int>, h: seq<int>, top: Segment, parts: seq<Segment>) {
    && |w| == |s| == |g| && |u| == |t|
    && Rearranged(w, x, top.lo, top.hi) && Splits(g, h, top.lo, top.hi)
    && OrderedIn(s, Low(x), h, top.lo, top.hi)
    && (forall i :: 0 <= i < |w| && !(top.lo <= i <= top.hi) ==> RankOf(Low(x), u)[i] == RankOf(Low(w), t)[i])
    && (forall i :: top.lo <= i <= top.hi && !OnStack(parts, h[i]) ==> RankOf(Low(x), u)[i] == h[i])
    && Stacked(parts, h, top.lo, top.hi)
    && TiedBut(s, Low(x), h, top.lo, top.hi, 8, parts)
    && SegmentsSame(s, x, parts)
    && Weight(parts) < Load(top)
  }

  /** The loop invariant of the presort quicksort on the bucket `[lo, hi]`. */
  ghost predicate Presorting(s: seq<int>, v: seq<int>, r: seq<int>, w: seq<int>, t: seq<int>, g: seq<int>,
                             lo: int, hi: int, d: int, stack: seq<Segment>) {
    && IsBlock(s) && Ranked(s, Low(v), r, d) && IsCell(RankOf(Low(v), r), lo, hi) && Clean(v, lo, hi)
    && Rearranged(v, w, lo, hi) && |t| == |r|
    && Splits(RankOf(Low(v), r), g, lo, hi) && OrderedIn(s, Low(w), g, lo, hi)
    && RankedBut(w, t, g, stack)
    && Stacked(stack, g, lo, hi) && TiedBut(s, Low(w), g, lo, hi, 8, stack)
    && SegmentsSame(s, w, stack)
    && Weight(stack) >= 0
  }

  lemma StartPresort(s: seq<int>, v: seq<int>, r: seq<int>, lo: int, hi: int, d: nat)
    requires IsBlock(s) && Ranked(s, Low(v), r, d) && IsCell(RankOf(Low(v), r), lo, hi) && Clean(v, lo, hi)
    requires d <= 8
    ensures Presorting(s, v, r, v, r, RankOf(Low(v), r), lo, hi, d, [Segment(lo, hi, d)])
  {
    var st := [Segment(lo, hi, d)];
    RawInjective(v);
    RearrangedRefl(v, lo, hi);
    CellSortable(s, v, r, lo, hi, d);
    StackedWeight(st, RankOf(Low(v), r), lo, hi);
    assert st[0].hi == hi && OnStack(st, hi);
  }

  /** What the presort knows about the segment it takes off the stack. */
  lemma TopSegment(s: seq<int>, v: seq<int>, r: seq<int>, w: seq<int>, t: seq<int>, g: seq<int>,
                   lo: int, hi: int, d: int, stack: seq<Segment>, top: Segment)
    requires Presorting(s, v, r, w, t, g, lo, hi, d, stack + [top])
    ensures IsCell(g, top.lo, top.hi) && lo <= top.lo && top.hi <= hi && 0 <= top.depth <= 8
    ensures Sortable(s, w, top.lo, top.hi, top.depth) && BucketSorted(s, Low(w), g)
  {
    assert (stack + [top])[|stack|] == top;
    LowRearranged(v, w, lo, hi);
    RefineBucket(s, Low(v), RankOf(Low(v), r), Low(w), g, lo, hi);
    CleanRearranged(v, w, lo, hi);
  }

  lemma PresortRanks(s: seq<int>, w: seq<int>, t: seq<int>, g: seq<int>, x: seq<int>, u: seq<int>, h: seq<int>,
                     stack: seq<Segment>, top: Segment, parts: seq<Segment>)
    requires RankedBut(w, t, g, stack + [top]) && Presorted(s, w, t, g, x, u, h, top, parts) && Cells(g)
    ensures RankedBut(x, u, h, stack + parts)
  {
    var all, was := stack + parts, stack + [top];
    SplitsSides(g, h, top.lo, top.hi);
    forall i | 0 <= i < |x| && !OnStack(all, h[i]) ensures RankOf(Low(x), u)[i] == h[i] {
      if top.lo <= i <= top.hi {
        assert !OnStack(parts, h[i]) by {
          forall k | 0 <= k < |parts| ensures parts[k].hi != h[i] { assert all[|stack| + k] == parts[k]; }
        }
      } else {
        assert !OnStack(was, g[i]) by {
          forall k | 0 <= k < |was| ensures was[k].hi != g[i] {
            if k < |stack| { assert all[k] == stack[k]; }
          }
        }
      }
    }
  }

  lemma PresortSegments(s: seq<int>, w: seq<int>, t: seq<int>, g: seq<int>, x: seq<int>, u: seq<int>, h: seq<int>,
                        lo: int, hi: int, stack: seq<Segment>, top: Segment, parts: seq<Segment>)
    requires SegmentsSame(s, w, stack + [top]) && Stacked(stack + [top], g, lo, hi)
    requires Presorted(s, w, t, g, x, u, h, top, parts)
    ensures SegmentsSame(s, x, stack + parts)
  {
    var all, was := stack + parts, stack + [top];
    assert was[|stack|] == top;
    forall k | 0 <= k < |all|
      ensures 0 <= all[k].lo && all[k].hi < |x| && 0 <= all[k].depth &&
              AllSame(s, x, all[k].lo, all[k].hi, all[k].depth)
    {
      if k < |stack| {
        assert all[k] == was[k];
        CellElsewhere(g, h, top.lo, top.hi, all[k].lo, all[k].hi);
      } else {
        assert all[k] == parts[k - |stack|];
      }
    }
  }

  lemma PresortAdvance(s: seq<int>, v: seq<int>, r: seq<int>, w: seq<int>, t: seq<int>, g: seq<int>,
                       x: seq<int>, u: seq<int>, h: seq<int>, lo: int, hi: int, d: int,
                       stack: seq<Segment>, top: Segment, parts: seq<Segment>)
    requires Presorting(s, v, r, w, t, g, lo, hi, d, stack + [top])
    requires Presorted(s, w, t, g, x, u, h, top, parts)
    ensures Presorting(s, v, r, x, u, h, lo, hi, d, stack + parts)
    ensures Weight(stack + parts) < Weight(stack + [top])
  {
    TopSegment(s, v, r, w, t, g, lo, hi, d, stack, top);
    RearrangedTransitive(v, w, x, lo, hi, top.lo, top.hi);
    SplitsTransitive(RankOf(Low(v), r), g, h, lo, hi, top.lo, top.hi);
    LowRearranged(w, x, top.lo, top.hi);
    RefineBucket(s, Low(w), g, Low(x), h, top.lo, top.hi);
    PresortRanks(s, w, t, g, x, u, h, stack, top, parts);
    PopPush(stack, top, parts, g, h, lo, hi);
    PopPushTied(s, Low(w), g, Low(x), h, lo, hi, 8, stack, top, parts);
    PresortSegments(s, w, t, g, x, u, h, lo, hi, stack, top, parts);
    WeightAppend(stack, parts);
    WeightPush(stack, top);
    StackedWeight(stack + parts, h, lo, hi);
  }

  lemma PresortDone(s: seq<int>, v: seq<int>, r: seq<int>, w: seq<int>, t: seq<int>, g: seq<int>,
                    lo: int, hi: int, d: int)
    requires Presorting(s, v, r, w, t, g, lo, hi, d, [])
    ensures Refined(s, v, r, w, t, lo, hi, d)
    ensures Tied(s, Low(w), RankOf(Low(w), t), lo, hi, 8)
  {
    assert RankOf(Low(w), t) == g by {
      forall i | 0 <= i < |w| ensures RankOf(Low(w), t)[i] == g[i] { assert !OnStack([], g[i]); }
    }
    Refine(s, v, r, w, t, lo, hi, d);
    forall i, j | lo <= i < j <= hi && g[i] == g[j] ensures Same(s, Low(w)[i], Low(w)[j], 8) {
      assert !OnStack([], g[i]);
    }
  }

  /** A segment at full depth is finished. */
  lemma PresortDeep(s: seq<int>, w: seq<int>, t: seq<int>, g: seq<int>, u: seq<int>, top: Segment)
    requires |w| == |s| == |g| && |u| == |t| && IsPerm(Low(w)) && Cells(g) && IsCell(g, top.lo, top.hi)
    requires Sortable(s, w, top.lo, top.hi, top.depth) && top.depth == 8
    requires RankOf(Low(w), u) == Fill(RankOf(Low(w), t), top.lo, top.hi, top.hi)
    ensures Presorted(s, w, t, g, w, u, g, top, [])
  {
    RearrangedRefl(w, top.lo, top.hi);
    LowAllSame(s, w, top.lo, top.hi, 8);
    assert Load(top) > 0;
  }

  /** The entries `[a, hi]` carry their final groups: equal to depth `d` inside a group, in order across groups. */
  ghost predicate Grouped(s: seq<int>, w: seq<int>, h: seq<int>, a: int, hi: int, d: int) {
    && |h| == |w| && 0 <= a && hi < |w|
    && (forall i :: a <= i <= hi ==> i <= h[i] <= hi && h[h[i]] == h[i])
    && (forall i, j :: a <= i <= j <= hi ==> h[i] <= h[j])
    && (forall i, j :: a <= i <= hi && a <= j <= hi && h[i] == h[j] ==> Same(s, w[i], w[j], d))
    && (forall i, j :: a <= i <= hi && a <= j <= hi && h[i] < h[j] ==> LessBy(s, w[i], w[j], d))
  }

  /** The entries `]j, i]` have been given the rank `i`, to which they are equal to depth `d`. */
  ghost predicate GroupRun(s: seq<int>, w: seq<int>, h: seq<int>, k: seq<int>, j: int, i: int, d: int) {
    && |h| == |k| == |w| && -1 <= j < i < |w|
    && (forall m :: j < m <= i ==> k[m] == i && Same(s, w[m], w[i], d))
    && (forall m :: 0 <= m < |h| && !(j < m <= i) ==> k[m] == h[m])
  }

  /** The run `]j, i]` below the grouped entries is one more group. */
  lemma GroupMore(s: seq<int>, w: seq<int>, h: seq<int>, k: seq<int>, lo: int, j: int, i: int, hi: int, d: int)
    requires 0 <= lo <= j + 1 <= i <= hi < |w|
    requires Grouped(s, w, h, i + 1, hi, d) && Increasing(s, w, lo, hi, d)
    requires i < hi ==> LessBy(s, w[i], w[i + 1], d)
    requires GroupRun(s, w, h, k, j, i, d)
    ensures Grouped(s, w, k, j + 1, hi, d)
  {
    forall a, b | j < a <= hi && j < b <= hi && k[a] < k[b] ensures LessBy(s, w[a], w[b], d) {
      assert b > i;
      if a <= i {
        if b > i + 1 { assert NotAfter(s, w[i + 1], w[b], d); }
        LessByTransitive(s, w[i], w[i + 1], w[b], d);
        LessByTransitive(s, w[a], w[i], w[b], d);
      }
    }
    forall a, b | j < a <= hi && j < b <= hi && k[a] == k[b] ensures Same(s, w[a], w[b], d) {
      if a <= i {
        assert b <= i;
        assert Same(s, w[a], w[i], d) && Same(s, w[b], w[i], d);
      } else {
        assert b > i;
      }
    }
    forall a, b | j < a <= b <= hi ensures k[a] <= k[b] {
      if a > i { assert h[a] <= h[b]; }
    }
  }

  lemma GroupsSplit(s: seq<int>, w: seq<int>, g: seq<int>, h: seq<int>, lo: int, hi: int, d: int)
    requires IsCell(g, lo, hi) && |g| == |w| && Clean(w, lo, hi) && d >= 8
    requires Grouped(s, w, h, lo, hi, d)
    requires forall i :: 0 <= i < |g| && !(lo <= i <= hi) ==> h[i] == g[i]
    ensures Splits(g, h, lo, hi)
    ensures OrderedIn(s, Low(w), h, lo, hi)
    ensures TiedBut(s, Low(w), h, lo, hi, 8, [])
  {
    forall i, j | lo <= i <= hi && lo <= j <= hi && h[i] < h[j] ensures Less(s, Low(w)[i], Low(w)[j]) {
      LessByIsLess(s, w[i], w[j], d);
    }
    forall i, j | lo <= i < j <= hi && h[i] == h[j] ensures Same(s, Low(w)[i], Low(w)[j], 8) {
      assert Same(s, w[i], w[j], d);
    }
  }

  /** `g` outside `[lo, hi]`, `m` inside. */
  ghost function Mix(g: seq<int>, m: seq<int>, lo: int, hi: int): (h: seq<int>)
    requires |m| == |g|
    ensures |h| == |g| && forall i :: 0 <= i < |g| ==> h[i] == if lo <= i <= hi then m[i] else g[i]
  {
    seq(|g|, i requires 0 <= i < |g| => if lo <= i <= hi then m[i] else g[i])
  }

  lemma MapOutside(w: seq<int>, x: seq<int>, t: seq<int>, lo: int, hi: int)
    requires Rearranged(w, x, lo, hi) && IsPerm(Low(w)) && |w| < |t|
    ensures forall i :: 0 <= i < |w| && !(lo <= i <= hi) ==> RankOf(Low(x), t)[i] == RankOf(Low(w), t)[i]
  {
    forall i | 0 <= i < |w| && !(lo <= i <= hi) ensures RankOf(Low(x), t)[i] == RankOf(Low(w), t)[i] {
      assert Low(x)[i] == Low(w)[i];
    }
  }

  /** A small segment sorted by insertion is finished. */
  lemma PresortGrouped(s: seq<int>, w: seq<int>, t: seq<int>, g: seq<int>, x: seq<int>, u: seq<int>,
                       top: Segment, d: int)
    requires |w| == |s| == |g| && |u| == |t| && IsCell(g, top.lo, top.hi) && Clean(w, top.lo, top.hi)
    requires Rearranged(w, x, top.lo, top.hi) && IsPerm(Low(w)) && |w| < |t|
    requires Grouped(s, x, RankOf(Low(x), u), top.lo, top.hi, d) && d >= 8
    requires forall i :: 0 <= i < |w| && !(top.lo <= i <= top.hi) ==> RankOf(Low(x), u)[i] == RankOf(Low(x), t)[i]
    requires 0 <= top.depth <= 8
    ensures Presorted(s, w, t, g, x, u, Mix(g, RankOf(Low(x), u), top.lo, top.hi), top, [])
  {
    var m := RankOf(Low(x), u);
    var h := Mix(g, m, top.lo, top.hi);
    CleanRearranged(w, x, top.lo, top.hi);
    MapOutside(w, x, t, top.lo, top.hi);
    assert Grouped(s, x, h, top.lo, top.hi, d);
    GroupsSplit(s, x, g, h, top.lo, top.hi, d);
    LoadPositive(top);
  }

  lemma LoadPositive(x: Segment)
    requires x.lo <= x.hi && x.depth <= 8
    ensures Load(x) > 0
  {
  }

  /**
   The bucket map after dividing `[lo, hi]` by data: `l` is one more than `l1` when the suffix whose
   byte is the marker has been set apart at `l1`.
   */
  ghost function Four(g: seq<int>, lo: int, l1: int, l: int, h1: int): (h: seq<int>)
    requires l1 <= l
    ensures |h| == |g|
    ensures forall i :: 0 <= i < |g| ==>
      h[i] == if lo <= i < l1 then l1 - 1 else if l1 <= i < l then l1 else if l <= i <= h1 then h1 else g[i]
  {
    Fill(Three(g, lo, l1, h1), l1, l - 1, l1)
  }

  /** The parts of `[lo, hi]` still to be sorted by data. */
  function DataParts(lo: int, l1: int, l: int, h1: int, hi: int, depth: int): seq<Segment> {
    Part(l, h1 + 1, depth + 1) + Part(lo, l1, depth) + Part(h1 + 1, hi + 1, depth)
  }

  lemma PartsAre(lo: int, l1: int, l: int, h1: int, hi: int, depth: int,
                 a: seq<Segment>, b: seq<Segment>, c: seq<Segment>)
    requires a == Part(l, h1 + 1, depth + 1) && b == Part(lo, l1, depth) && c == Part(h1 + 1, hi + 1, depth)
    ensures DataParts(lo, l1, l, h1, hi, depth) == a + b + c
  {
  }

  /** The shape of a divided segment. */
  ghost predicate Cut(n: int, lo: int, l1: int, l: int, h1: int, hi: int) {
    0 <= lo <= l1 <= h1 <= hi < n && l1 <= l <= l1 + 1
  }

  lemma DataPartsNarrow(n: int, lo: int, l1: int, l: int, h1: int, hi: int, depth: int)
    requires Cut(n, lo, l1, l, h1, hi)
    ensures Narrow(DataParts(lo, l1, l, h1, hi, depth), hi - lo + 1)
  {
    var a, b, c := Part(l, h1 + 1, depth + 1), Part(lo, l1, depth), Part(h1 + 1, hi + 1, depth);
    var x, y, z := h1 + 1 - l1, l1 - lo, hi - h1;
    PartNarrow(l, h1 + 1, depth + 1, x);
    PartNarrow(lo, l1, depth, y);
    PartNarrow(h1 + 1, hi + 1, depth, z);
    NarrowThree(a, b, c, x, y, z);
    assert x + y + z == hi - lo + 1;
  }

  lemma FourSplits(g: seq<int>, lo: int, l1: int, l: int, h1: int, hi: int)
    requires IsCell(g, lo, hi) && Cut(|g|, lo, l1, l, h1, hi)
    ensures Splits(g, Four(g, lo, l1, l, h1), lo, hi)
    ensures lo < l1 ==> IsCell(Four(g, lo, l1, l, h1), lo, l1 - 1)
    ensures h1 < hi ==> IsCell(Four(g, lo, l1, l, h1), h1 + 1, hi)
    ensures l <= h1 ==> IsCell(Four(g, lo, l1, l, h1), l, h1)
  {
  }

  lemma DataPartsStacked(g: seq<int>, lo: int, l1: int, l: int, h1: int, hi: int, depth: int)
    requires IsCell(g, lo, hi) && Cut(|g|, lo, l1, l, h1, hi) && 0 <= depth < 8
    ensures Stacked(DataParts(lo, l1, l, h1, hi, depth), Four(g, lo, l1, l, h1), lo, hi)
  {
    FourSplits(g, lo, l1, l, h1, hi);
    var h := Four(g, lo, l1, l, h1);
    var a, b, c := Part(l, h1 + 1, depth + 1), Part(lo, l1, depth), Part(h1 + 1, hi + 1, depth);
    PartStacked(h, lo, hi, l, h1 + 1, depth + 1);
    PartStacked(h, lo, hi, lo, l1, depth);
    PartStacked(h, lo, hi, h1 + 1, hi + 1, depth);
    assert h1 + 1 < hi + 1 ==> h1 < hi;
    StackedTwo(h, lo, hi, a, b, h1, h1, l1 - 1);
    EndTwo(a, b, h1, l1 - 1);
    StackedTwo(h, lo, hi, a + b, c, h1, l1 - 1, hi);
    PartsAre(lo, l1, l, h1, hi, depth, a, b, c);
  }

  /** All segments end at `x` or at `y`. */
  ghost predicate EndAt(st: seq<Segment>, x: int, y: int) {
    forall k :: 0 <= k < |st| ==> st[k].hi == x || st[k].hi == y
  }

  lemma PartStacked(h: seq<int>, lo: int, hi: int, a: int, b: int, depth: int)
    requires a < b ==> lo <= a && b <= hi + 1 && IsCell(h, a, b - 1)
    requires 0 <= depth <= 8
    ensures Stacked(Part(a, b, depth), h, lo, hi) && EndAt(Part(a, b, depth), b - 1, b - 1)
  {
  }

  lemma StackedTwo(h: seq<int>, lo: int, hi: int, a: seq<Segment>, b: seq<Segment>, x: int, y: int, z: int)
    requires Stacked(a, h, lo, hi) && Stacked(b, h, lo, hi) && EndAt(a, x, y) && EndAt(b, z, z)
    requires b != [] ==> x != z && y != z
    ensures Stacked(a + b, h, lo, hi)
  {
  }

  lemma EndTwo(a: seq<Segment>, b: seq<Segment>, x: int, y: int)
    requires EndAt(a, x, x) && EndAt(b, y, y)
    ensures EndAt(a + b, x, y)
  {
  }

  lemma DataPartsWeight(lo: int, l1: int, l: int, h1: int, hi: int, depth: int)
    requires lo <= l1 <= h1 <= hi && l1 <= l <= l1 + 1 && 0 <= depth < 8
    ensures Weight(DataParts(lo, l1, l, h1, hi, depth)) < Load(Segment(lo, hi, depth))
  {
    var a, b, c := Part(l, h1 + 1, depth + 1), Part(lo, l1, depth), Part(h1 + 1, hi + 1, depth);
    WeightAppend(a + b, c);
    WeightAppend(a, b);
    var f, x, y, z := 9 - depth, h1 - l1 + 1, l1 - lo, hi - h1;
    WeightOne(a, x, f - 1);
    WeightOne(b, y, f);
    WeightOne(c, z, f);
    Distribute(x, y, z, f);
    LoadIs(Segment(lo, hi, depth), x + y + z, f);
    assert Weight(a) + Weight(b) + Weight(c) < Load(Segment(lo, hi, depth));
  }

  lemma LoadIs(x: Segment, n: int, f: int)
    requires x.hi - x.lo + 1 == n && 9 - x.depth == f
    ensures Load(x) == n * f
  {
  }

  lemma WeightOne(a: seq<Segment>, n: int, f: int)
    requires |a| <= 1 && 0 <= n && 0 < f
    requires |a| == 1 ==> a[0].lo <= a[0].hi && a[0].hi - a[0].lo + 1 <= n && 9 - a[0].depth == f
    ensures Weight(a) <= n * f
  {
    if |a| == 1 {
      var x := a[0];
      WeightPush([], x);
      assert [] + [x] == a;
      LoadIs(x, x.hi - x.lo + 1, f);
      Monotone(x.hi - x.lo + 1, n, f);
    }
  }

  lemma Monotone(a: int, b: int, f: int)
    requires a <= b && 0 < f
    ensures a * f <= b * f
  {
  }

  lemma Distribute(a: int, b: int, c: int, f: int)
    requires a > 0
    ensures a * (f - 1) + b * f + c * f < (a + b + c) * f
  {
  }

  /** Of the entries with the pivot's byte, only one set apart at `l1` has the marker there. */
  ghost predicate MarkerApart(x: seq<int>, n: int, depth: int, l1: int, l: int, h1: int)
    requires 0 <= l1 <= h1 < |x|
  {
    && (l == l1 + 1 ==> x[l1] + depth == n - 1)
    && (forall i :: l <= i <= h1 && l1 <= i ==> x[i] + depth != n - 1)
  }

  /** A divided segment of the block, with the marker set apart. */
  ghost predicate Divided(s: seq<int>, x: seq<int>, data: seq<int>, depth: int, med: int,
                          lo: int, l1: int, l: int, h1: int, hi: int) {
    && IsMarked(s) && Holds(data, s) && |x| == |s| && 0 <= depth < 8
    && Sortable(s, x, lo, hi, depth)
    && Cut(|x|, lo, l1, l, h1, hi)
    && P.Parted(x, data, depth, med, lo, l1, h1, hi)
    && MarkerApart(x, |s|, depth, l1, l, h1)
  }

  lemma DataPair(s: seq<int>, x: seq<int>, data: seq<int>, depth: int, med: int,
                 lo: int, l1: int, l: int, h1: int, hi: int, i: int, j: int)
    requires Divided(s, x, data, depth, med, lo, l1, l, h1, hi)
    requires lo <= i <= hi && lo <= j <= hi && i != j
    ensures P.Key(x, data, depth, i) == Byte(s, x[i], depth)
    ensures x[i] + depth < |s| && x[j] + depth < |s|
    ensures P.Key(x, data, depth, i) < P.Key(x, data, depth, j) ==> Less(s, x[i], x[j])
  {
    assert x[i] != x[j];
    SameEnds(s, x[i], x[j], depth);
    SameGivesBytes(s, x[i], x[j], depth);
    assert data[x[i] + depth] == Byte(s, x[i] + depth, 0);
    assert data[x[j] + depth] == Byte(s, x[j] + depth, 0);
    if P.Key(x, data, depth, i) < P.Key(x, data, depth, j) {
      BytesDecide(s, x[i], x[j], depth);
      LessByIsLess(s, x[i], x[j], depth + 1);
    }
  }

  lemma DataOrdered(s: seq<int>, x: seq<int>, data: seq<int>, g: seq<int>, depth: int, med: int,
                    lo: int, l1: int, l: int, h1: int, hi: int)
    requires Divided(s, x, data, depth, med, lo, l1, l, h1, hi) && IsCell(g, lo, hi) && |g| == |x|
    ensures OrderedIn(s, Low(x), Four(g, lo, l1, l, h1), lo, hi)
  {
    var h := Four(g, lo, l1, l, h1);
    forall i, j | lo <= i <= hi && lo <= j <= hi && h[i] < h[j] ensures Less(s, Low(x)[i], Low(x)[j]) {
      DataPair(s, x, data, depth, med, lo, l1, l, h1, hi, i, j);
      if l1 <= i <= h1 && l1 <= j <= h1 {
        assert i == l1 && j >= l;
        assert Same(s, x[i], x[j], depth);
        assert LessAt(s, x[i], x[j], depth);
      } else {
        assert P.Key(x, data, depth, i) < P.Key(x, data, depth, j);
      }
    }
  }

  lemma DataSame(s: seq<int>, x: seq<int>, data: seq<int>, depth: int, med: int,
                 lo: int, l1: int, l: int, h1: int, hi: int)
    requires Divided(s, x, data, depth, med, lo, l1, l, h1, hi)
    ensures AllSame(s, x, l, h1, depth + 1)
  {
    forall i, j | l <= i <= h1 && l <= j <= h1 ensures Same(s, x[i], x[j], depth + 1) {
      if i != j {
        DataPair(s, x, data, depth, med, lo, l1, l, h1, hi, i, j);
        DataPair(s, x, data, depth, med, lo, l1, l, h1, hi, j, i);
        assert Same(s, x[i], x[j], depth);
        assert Sym(s, x[i], depth) == Sym(s, x[j], depth);
      }
    }
  }

  /** The ranks written after a division: for the marker, and for parts of one entry. */
  ghost function Written(m: seq<int>, lo: int, l1: int, l: int, h1: int, hi: int): seq<int>
    requires Cut(|m|, lo, l1, l, h1, hi)
  {
    Lone(Lone(Lone(Lone(m, l1, l), l, h1 + 1), lo, l1), h1 + 1, hi + 1)
  }

  /** A part of one entry gets its own rank. */
  ghost function Lone(m: seq<int>, a: int, b: int): (r: seq<int>)
    requires a + 1 == b ==> 0 <= a < |m|
    ensures |r| == |m|
  {
    if a + 1 == b then m[a := a] else m
  }

  lemma WrittenBy(m0: seq<int>, m1: seq<int>, m2: seq<int>, m3: seq<int>, m4: seq<int>,
                  lo: int, l1: int, l: int, h1: int, hi: int)
    requires Cut(|m0|, lo, l1, l, h1, hi) && |m0| == |m1| == |m2| == |m3|
    requires m1 == Lone(m0, l1, l) && m2 == Lone(m1, l, h1 + 1) && m3 == Lone(m2, lo, l1)
    requires m4 == Lone(m3, h1 + 1, hi + 1)
    ensures m4 == Written(m0, lo, l1, l, h1, hi)
  {
  }

  /** What is not stacked after a division has its final rank, or agrees to depth 8. */
  lemma DataFinished(s: seq<int>, x: seq<int>, m: seq<int>, g: seq<int>,
                     lo: int, l1: int, l: int, h1: int, hi: int, depth: int)
    requires IsCell(g, lo, hi) && Cut(|g|, lo, l1, l, h1, hi) && |m| == |g| == |x|
    ensures var h, parts := Four(g, lo, l1, l, h1), DataParts(lo, l1, l, h1, hi, depth);
      var u := Written(m, lo, l1, l, h1, hi);
      && (forall i :: lo <= i <= hi && !OnStack(parts, h[i]) ==> u[i] == h[i] == i)
      && (forall i :: 0 <= i < |g| && !(lo <= i <= hi) ==> u[i] == m[i])
  {
    var h, parts := Four(g, lo, l1, l, h1), DataParts(lo, l1, l, h1, hi, depth);
    if l < h1 { assert parts[0].hi == h1; }
    if lo < l1 - 1 { assert parts[if l < h1 then 1 else 0].hi == l1 - 1; }
    if h1 + 1 < hi { assert parts[|parts| - 1].hi == hi; }
  }

  lemma DataPartsSame(s: seq<int>, x: seq<int>, lo: int, l1: int, l: int, h1: int, hi: int, depth: nat)
    requires Cut(|x|, lo, l1, l, h1, hi)
    requires AllSame(s, x, lo, hi, depth) && AllSame(s, x, l, h1, depth + 1)
    ensures SegmentsSame(s, x, DataParts(lo, l1, l, h1, hi, depth))
  {
  }

  lemma DataTied(s: seq<int>, x: seq<int>, g: seq<int>, lo: int, l1: int, l: int, h1: int, hi: int, depth: int)
    requires IsCell(g, lo, hi) && Cut(|g|, lo, l1, l, h1, hi) && |g| == |x|
    ensures TiedBut(s, Low(x), Four(g, lo, l1, l, h1), lo, hi, 8, DataParts(lo, l1, l, h1, hi, depth))
  {
    DataFinished(s, x, g, g, lo, l1, l, h1, hi, depth);
  }

  /** A large segment has been divided. */
  lemma PresortDivided(s: seq<int>, w: seq<int>, t: seq<int>, g: seq<int>, x: seq<int>, u: seq<int>,
                       data: seq<int>, top: Segment, med: int, l1: int, l: int, h1: int)
    requires |w| == |s| == |g| && |u| == |t| && IsCell(g, top.lo, top.hi)
    requires Rearranged(w, x, top.lo, top.hi) && IsPerm(Low(w)) && |w| < |t|
    requires Divided(s, x, data, top.depth, med, top.lo, l1, l, h1, top.hi)
    requires RankOf(Low(x), u) == Written(RankOf(Low(x), t), top.lo, l1, l, h1, top.hi)
    ensures Presorted(s, w, t, g, x, u, Four(g, top.lo, l1, l, h1), top,
                      DataParts(top.lo, l1, l, h1, top.hi, top.depth))
  {
    var h := Four(g, top.lo, l1, l, h1);
    var parts := DataParts(top.lo, l1, l, h1, top.hi, top.depth);
    FourSplits(g, top.lo, l1, l, h1, top.hi);
    DataOrdered(s, x, data, g, top.depth, med, top.lo, l1, l, h1, top.hi);
    DataSame(s, x, data, top.depth, med, top.lo, l1, l, h1, top.hi);
    MapOutside(w, x, t, top.lo, top.hi);
    DataFinished(s, x, RankOf(Low(x), t), g, top.lo, l1, l, h1, top.hi, top.depth);
    DataTied(s, x, g, top.lo, l1, l, h1, top.hi, top.depth);
    DataPartsStacked(g, top.lo, l1, l, h1, top.hi, top.depth);
    DataPartsWeight(top.lo, l1, l, h1, top.hi, top.depth);
    DataPartsSame(s, x, top.lo, l1, l, h1, top.hi, top.depth);
  }
}
