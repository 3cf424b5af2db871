/** The suffix sorter of the block encoder. */
module BlockSort {
  import opened SuffixOrder
  import opened Permutation
  import opened Buckets
  import opened RankState
  import opened Words
  import opened SortSteps
  import opened PresortSteps
  import opened StableSort
  import opened RadixSteps
  import opened Transform
  import P = Partition

  const PRESORT_THRESH := 10
  const RADIX_THRESH := 32768

  /** Comparing the bytes at distance `d` after equal bytes. */
  lemma ByteOrder(s: seq<int>, p1: int, p2: int, d: nat, e: int, data: seq<int>)
    requires IsMarked(s) && Holds(data, s) && d < e <= 31
    requires 0 <= p1 < |s| && 0 <= p2 < |s| && p1 != p2 && SameBytes(s, p1, p2, d)
    ensures p1 + d < |data| && p2 + d < |data|
    ensures data[p1 + d] > data[p2 + d] ==> LessBy(s, p2, p1, e)
    ensures data[p1 + d] < data[p2 + d] ==> LessBy(s, p1, p2, e) && !LessBy(s, p2, p1, e)
    ensures data[p1 + d] == data[p2 + d] ==> SameBytes(s, p1, p2, d + 1)
  {
    assert data[p1 + d] == Byte(s, p1, d) by { assert data[p1 + d] == Byte(s, p1 + d, 0); }
    assert data[p2 + d] == Byte(s, p2, d) by { assert data[p2 + d] == Byte(s, p2 + d, 0); }
    if data[p1 + d] > data[p2 + d] {
      BytesDecide(s, p2, p1, d);
      LessByWeaken(s, p2, p1, d + 1, e);
    } else if data[p1 + d] < data[p2 + d] {
      BytesDecide(s, p1, p2, d);
      LessByWeaken(s, p1, p2, d + 1, e);
      LessByAsymmetric(s, p1, p2, e);
    }
  }

  /** Equal bytes to depth `d`: either the suffixes agree, or the later one meets the marker first. */
  lemma EndOrder(s: seq<int>, p1: int, p2: int, d: nat)
    requires IsMarked(s)
    requires 0 <= p1 < |s| && 0 <= p2 < |s| && p1 != p2 && SameBytes(s, p1, p2, d)
    ensures p1 + d < |s| && p2 + d < |s| ==> Same(s, p1, p2, d) && !LessBy(s, p2, p1, d)
    ensures !(p1 + d < |s| && p2 + d < |s|) ==>
      if p1 < p2 then LessBy(s, p2, p1, d) else LessBy(s, p1, p2, d) && !LessBy(s, p2, p1, d)
  {
    if p1 + d < |s| && p2 + d < |s| {
      BytesGiveSame(s, p1, p2, d);
      if LessBy(s, p2, p1, d) { LessByAsymmetric(s, p2, p1, d); }
    } else if p1 < p2 {
      MarkerDecides(s, p1, p2, d);
    } else {
      MarkerDecides(s, p2, p1, d);
      LessByAsymmetric(s, p1, p2, d);
    }
  }

  /** Neither after the other: equal. */
  lemma TiedByData(s: seq<int>, p: int, q: int, d: int)
    requires NotAfter(s, p, q, d) && NotAfter(s, q, p, d)
    ensures Same(s, p, q, d)
  {
    if LessBy(s, p, q, d) { LessByAsymmetric(s, p, q, d); }
  }

  lemma RearrangedSortable(s: seq<int>, w: seq<int>, x: seq<int>, lo: int, hi: int, depth: int)
    requires Sortable(s, w, lo, hi, depth) && Rearranged(w, x, lo, hi) && IsPerm(Low(w))
    ensures Sortable(s, x, lo, hi, depth) && IsPerm(Low(x))
  {
    SortableRearranged(s, w, x, lo, hi, depth);
    LowRearranged(w, x, lo, hi);
    RearrangedPerm(Low(w), Low(x), lo, hi);
  }

  /** The marker's byte is zero, so it has no place among other keys. */
  lemma NoMarker(s: seq<int>, v: seq<int>, data: seq<int>, depth: int, med: int, lo: int, l1: int, h1: int, hi: int)
    requires IsMarked(s) && Holds(data, s) && |v| == |s| && Clean(v, lo, hi) && 0 <= depth < 8 && med != 0
    requires l1 <= h1 && P.Parted(v, data, depth, med, lo, l1, h1, hi)
    ensures MarkerApart(v, |s|, depth, l1, l1, h1)
  {
    forall i | l1 <= i <= h1 ensures v[i] + depth != |s| - 1 {
      assert P.Key(v, data, depth, i) == med;
      assert data[|s| - 1] == Byte(s, |s| - 1, 0);
    }
  }

  lemma PartedSwap(v: seq<int>, data: seq<int>, depth: int, med: int, lo: int, l1: int, h1: int, hi: int, i: int)
    requires P.Parted(v, data, depth, med, lo, l1, h1, hi) && l1 <= i <= h1 && Injective(v)
    ensures P.Parted(P.Swapped(v, i, l1), data, depth, med, lo, l1, h1, hi)
    ensures MarkerApart(P.Swapped(v, i, l1), v[i] + depth + 1, depth, l1, l1 + 1, h1)
  {
    var x := P.Swapped(v, i, l1);
    P.SwapRearranged(v, v, i, l1, l1, h1) by { RearrangedRefl(v, l1, h1); }
    forall m | lo <= m <= hi ensures
      P.Key(x, data, depth, m) == P.Key(v, data, depth, if m == i then l1 else if m == l1 then i else m) { }
    forall m | l1 + 1 <= m <= h1 ensures x[m] != v[i] { assert x[l1] != x[m]; }
  }

  /** The presort has dealt with the buckets below `lo`. */
  ghost predicate PresortRound(s: seq<int>, v: seq<int>, r: seq<int>, d: int, lo: int) {
    && Ranked(s, Low(v), r, d) && Clean(v, 0, |s| - 1)
    && Boundary(RankOf(Low(v), r), lo)
    && Tied(s, Low(v), RankOf(Low(v), r), 0, lo - 1, 8)
  }

  lemma PresortSingle(s: seq<int>, v: seq<int>, r: seq<int>, d: int, lo: int)
    requires PresortRound(s, v, r, d, lo) && lo < |s| && RankOf(Low(v), r)[lo] == lo
    ensures PresortRound(s, v, r, d, lo + 1)
  {
    var g := RankOf(Low(v), r);
    NextCell(g, lo);
    TiedSingles(s, Low(v), g, lo, lo + 1, 8);
  }

  lemma PresortSorted(s: seq<int>, v: seq<int>, r: seq<int>, w: seq<int>, t: seq<int>, d: int, lo: int, hi: int)
    requires PresortRound(s, v, r, d, lo) && Refined(s, v, r, w, t, lo, hi, d)
    requires Tied(s, Low(w), RankOf(Low(w), t), lo, hi, 8)
    ensures PresortRound(s, w, t, d, hi + 1)
  {
    var g, h := RankOf(Low(v), r), RankOf(Low(w), t);
    LowRearranged(v, w, lo, hi);
    TiedElsewhere(s, Low(v), g, Low(w), h, lo, hi, 8);
    SplitsBoundary(g, h, lo, hi);
    TiedExtend(s, Low(w), h, lo, hi, 8);
  }

  lemma RadixedStart(s: seq<int>, keys: seq<int>, v: seq<int>, r: seq<int>, d: int)
    requires |s| < LOW && KeysFor(s, keys, d) && Radixed(keys, v, r)
    ensures Ranked(s, Low(v), r, d) && Clean(v, 0, |s| - 1)
  {
    ArrangedPerm(keys, v);
    assert Low(v) == v;
    RadixedRanked(s, keys, v, r, d);
  }

  lemma DoublingStart(s: seq<int>, v: seq<int>, r: seq<int>)
    requires Ranked(s, Low(v), r, 8) && Clean(v, 0, |s| - 1)
    ensures Round(s, v, r, 8, 0, 0)
  {
  }

  /** The pivot's key is still among the rearranged positions. */
  lemma PivotStays(p: seq<int>, q: seq<int>, keys: seq<int>, depth: int, lo: int, hi: int, i: int)
    requires Injective(p) && Rearranged(p, q, lo, hi) && lo <= i <= hi
    ensures exists j :: lo <= j <= hi && P.Key(q, keys, depth, j) == P.Key(p, keys, depth, i)
  {
    RearrangedOnto(p, q, lo, hi, i);
    var j :| lo <= j <= hi && q[j] == p[i];
    assert P.Key(q, keys, depth, j) == P.Key(p, keys, depth, i);
  }


  /** An entry on its way down through `[lo, i]` has come to `hole`. */
  ghost predicate Sifting(s: seq<int>, was: seq<int>, v: seq<int>, lo: int, i: int, hi: int, hole: int, d: int)
    requires 0 <= lo && i < |v|
  {
    Rearranged(was, v, lo, hi) && IncreasingBut(s, v, lo, i, hole, d)
  }

  lemma SiftDown(s: seq<int>, was: seq<int>, v: seq<int>, lo: int, i: int, hi: int, hole: int, d: int)
    requires 0 <= lo < hole <= i <= hi < |v|
    requires Sifting(s, was, v, lo, i, hi, hole, d) && NotAfter(s, v[hole], v[hole - 1], d)
    ensures Sifting(s, was, P.Swapped(v, hole, hole - 1), lo, i, hi, hole - 1, d)
  {
    HoleDown(s, v, lo, i, hole, d);
    P.SwapRearranged(was, v, hole, hole - 1, lo, hi);
  }

  /** Suffix `i` goes to the highest free slot of its pair. */
  lemma PairPlaced(s: seq<int>, p: seq<int>, t: seq<int>, i: nat, k: int, from: int)
    requires IsMarked(s) && i < |s| - 2 && k == Pairs(s)[i] && from == i + 1 && Backwards(s, t, from)
    requires Filling(Keys16(s), p, from, |s| - 2)
    ensures 0 <= k < |t| && 0 <= t[k] < |p|
    ensures Backwards(s, t[k := t[k] - 1], i) && Filling(Keys16(s), p[t[k] := i], i, |s| - 2)
  {
    BackOne(s, t, i, k, from);
    FillOne(Keys16(s), p, from, |s| - 2, i);
  }

  method Put(a: array<int>, i: int, x: int)
    requires 0 <= i < a.Length
    modifies a
    ensures a[..] == old(a[..])[i := x]
  {
    a[i] := x;
  }

  class BSort {
    const size: int
    ghost const s: seq<int>
    const data: array<int>
    const posn: array<int>
    const rank: array<int>

    ghost predicate Valid() {
      && IsBlock(s) && |s| == size < LOW
      && posn.Length == size && rank.Length == size + 1
      && posn != rank && data != posn && data != rank
    }

    /** Prepare to sort the block in the first `size` entries of `data`. */
    constructor (data: array<int>, size: int)
      requires 0 < size < LOW && data.Length >= size + 31
      requires IsMarked(data[..size]) && Holds(data[..], data[..size])
      ensures Valid() && this.data == data && this.size == size && s == data[..size]
      ensures fresh(posn) && fresh(rank)
    {
      this.data, this.size, s := data, size, data[..size];
      posn := new int[size];
      rank := new int[size + 1];
      new;
      rank[size] := -1;
    }

    ghost function Positions(): seq<int>
      reads posn
    {
      Low(posn[..])
    }

    /** The current bucket map. */
    ghost function Map(): seq<int>
      reads posn, rank
    {
      RankOf(Low(posn[..]), rank[..])
    }

    /** Does the suffix at `p1` come after the one at `p2`? They agree on `depth` symbols. */
    method GT(p1: int, p2: int, depth: int) returns (gt: bool)
      requires Valid() && depth > 0 && RankOrder(s, rank[..], depth)
      requires 0 <= p1 < size && 0 <= p2 < size && p1 != p2 && Same(s, p1, p2, depth)
      ensures gt <==> Less(s, p2, p1)
      ensures !gt ==> Less(s, p1, p2)
    {
      var q1, q2 := p1, p2;
      var twod := depth + depth;
      ghost var r, e := rank[..], 0;
      while true
        invariant 0 <= e && q1 == p1 + e && q2 == p2 + e
        invariant Same(s, p1, p2, e + depth)
        decreases size - q1
      {
        RankStep(s, r, depth, p1, p2, e + depth);
        assert r[q1 + depth] == rank[q1 + depth] && r[q2 + depth] == rank[q2 + depth];
        var r1, r2 := rank[q1 + depth], rank[q2 + depth];
        q1, q2 := q1 + twod, q2 + twod;
        if r1 != r2 { return r1 > r2; }
        RankStep(s, r, depth, p1, p2, e + twod);
        assert r[q1] == rank[q1] && r[q2] == rank[q2];
        r1, r2 := rank[q1], rank[q2];
        if r1 != r2 { return r1 > r2; }
        e := e + twod;
      }
    }

    /** Insert the entry at `i` among the sorted entries `[lo, i[`. */
    method Sift(lo: int, i: int, hi: int, depth: int, ghost was: seq<int>)
      requires Valid() && depth > 0 && RankOrder(s, rank[..], depth)
      requires 0 <= lo < i <= hi < size && |was| == size && Sortable(s, was, lo, hi, depth)
      requires Rearranged(was, posn[..], lo, hi) && Increasing(s, posn[..], lo, i - 1, size)
      modifies posn
      ensures Rearranged(was, posn[..], lo, hi) && Increasing(s, posn[..], lo, i, size)
    {
      var tmp := posn[i];
      var j := i - 1;
      ghost var v := posn[..];
      while j >= lo
        invariant lo - 1 <= j < i && |v| == size
        invariant RankOrder(s, rank[..], depth)
        invariant posn[..][j + 1 := tmp] == v
        invariant Sifting(s, was, v, lo, i, hi, j + 1, size)
      {
        SortableRearranged(s, was, v, lo, hi, depth);
        assert v[j] == posn[..][j] && v[j + 1] == tmp;
        var gt := GT(posn[j], tmp, depth);
        LessByAll(s, tmp, posn[j]);
        LessByAll(s, posn[j], tmp);
        if !gt { break; }
        SiftDown(s, was, v, lo, i, hi, j + 1, size);
        v := P.Swapped(v, j + 1, j);
        posn[j + 1] := posn[j];
        j := j - 1;
      }
      HoleDone(s, v, lo, i, j + 1, size);
      posn[j + 1] := tmp;
      assert posn[..] == v;
    }

    /** The insertion sort of `Ranksort`. */
    method InsertByRank(lo: int, hi: int, depth: int)
      requires Valid() && depth > 0 && RankOrder(s, rank[..], depth)
      requires 0 <= lo <= hi < size && Sortable(s, posn[..], lo, hi, depth)
      modifies posn
      ensures Rearranged(old(posn[..]), posn[..], lo, hi) && Increasing(s, posn[..], lo, hi, size)
    {
      ghost var was, r := posn[..], rank[..];
      RearrangedRefl(was, lo, hi);
      for i := lo + 1 to hi + 1
        invariant rank[..] == r && Rearranged(was, posn[..], lo, hi)
        invariant Increasing(s, posn[..], lo, i - 1, size)
      {
        Sift(lo, i, hi, depth, was);
      }
    }

    /** Set the rank of the entries `[a, b]` to `value`. */
    method FillRank(a: int, b: int, value: int)
      requires Valid() && 0 <= a <= b + 1 <= size && IsPerm(Positions()) && Clean(posn[..], a, b)
      modifies rank
      ensures Map() == Fill(old(Map()), a, b, value)
    {
      ghost var v := posn[..];
      ghost var g := Map();
      for i := a to b + 1
        invariant posn[..] == v && RankOf(Low(v), rank[..]) == Fill(g, a, i - 1, value)
      {
        assert Low(v)[i] == v[i];
        RankAssign(Low(v), rank[..], i, value);
        ghost var r := rank[..];
        rank[posn[i]] := value;
        assert rank[..] == r[Low(v)[i] := value];
      }
    }

    /** Make every entry of `[lo, hi]` a bucket of its own. */
    method NumberRanks(lo: int, hi: int)
      requires Valid() && 0 <= lo <= hi < size && IsPerm(Positions()) && Clean(posn[..], lo, hi)
      modifies rank
      ensures Map() == Singles(old(Map()), lo, hi)
    {
      ghost var w, g := posn[..], Map();
      for i := lo to hi + 1
        invariant posn[..] == w && RankOf(Low(w), rank[..]) == Singles(g, lo, i - 1)
      {
        assert Low(w)[i] == w[i];
        RankAssign(Low(w), rank[..], i, i);
        ghost var t := rank[..];
        rank[posn[i]] := i;
        assert rank[..] == t[Low(w)[i] := i];
      }
    }

    /** Sort the bucket `[lo, hi]` completely, by insertion. */
    method Ranksort(lo: int, hi: int, depth: int)
      requires Valid() && depth > 0 && Ranked(s, Positions(), rank[..], depth)
      requires IsCell(Map(), lo, hi) && Clean(posn[..], lo, hi)
      modifies posn, rank
      ensures Refined(s, old(posn[..]), old(rank[..]), posn[..], rank[..], lo, hi, depth)
      ensures Map() == Singles(old(Map()), lo, hi)
    {
      ghost var v, r, g := posn[..], rank[..], Map();
      RankedOrder(s, Low(v), r, depth);
      CellSortable(s, v, r, lo, hi, depth);
      InsertByRank(lo, hi, depth);
      ghost var w := posn[..];
      MapRearranged(v, w, r, lo, hi);
      LowRearranged(v, w, lo, hi);
      RearrangedPerm(Low(v), Low(w), lo, hi);
      CleanRearranged(v, w, lo, hi);
      NumberRanks(lo, hi);
      SinglesRefine(s, v, r, w, rank[..], lo, hi, depth);
    }

    /** Partition the bucket `[lo, hi]` by the ranks `depth` places on. */
    method DivideByRank(lo: int, hi: int, depth: int) returns (l1: int, h1: int, ghost med: int)
      requires Valid() && depth > 0 && lo < hi && IsPerm(Positions())
      requires Sortable(s, posn[..], lo, hi, depth)
      modifies posn
      ensures Rearranged(old(posn[..]), posn[..], lo, hi)
      ensures P.Parted(posn[..], rank[..], depth, med, lo, l1, h1, hi) && l1 <= h1
    {
      ghost var v := posn[..];
      CellKeysInRange(s, v, rank[..], lo, hi, depth);
      var m := P.Pivot(posn, rank, depth, lo, hi);
      ghost var i :| lo <= i <= hi && P.Key(v, rank[..], depth, i) == m;
      l1, h1 := P.Partition(posn, rank, depth, lo, hi, m);
      med := m;
      PivotStays(v, posn[..], rank[..], depth, lo, hi, i);
    }

    /** Rank the three parts of a divided bucket and return those still to be sorted. */
    method RankParts(lo: int, l1: int, h1: int, hi: int) returns (parts: seq<Segment>)
      requires Valid() && IsPerm(Positions()) && Clean(posn[..], lo, hi)
      requires 0 <= lo <= l1 <= h1 <= hi < size
      modifies rank
      ensures Map() == Three(old(Map()), lo, l1, h1) && parts == Outer(lo, l1, h1, hi)
    {
      ghost var g := Map();
      FillRank(l1, h1, h1);
      parts := [];
      if l1 > lo {
        FillRank(lo, l1 - 1, l1 - 1);
        if lo < l1 - 1 { parts := parts + [Segment(lo, l1 - 1, 0)]; }
      }
      assert Map() == Three(g, lo, l1, h1);
      if h1 + 1 < hi { parts := parts + [Segment(h1 + 1, hi, 0)]; }
    }

    /** Sort a small bucket, or divide a large one and return the parts still to be sorted. */
    method SortOrDivide(lo: int, hi: int, depth: int, sp: int) returns (ok: bool, parts: seq<Segment>)
      requires Valid() && depth > 0 && Ranked(s, Positions(), rank[..], depth)
      requires IsCell(Map(), lo, hi) && Clean(posn[..], lo, hi)
      modifies posn, rank
      ensures ok ==> Progress(s, old(posn[..]), old(rank[..]), posn[..], rank[..], lo, hi, depth, 2 * depth, parts)
      ensures ok ==> Narrow(parts, hi - lo + 1)
      ensures ok <==> !(sp + 2 >= QUICKSORT_STACK && hi - lo >= RANKSORT_THRESH)
      ensures !ok ==> Map() == old(Map())
    {
      ghost var v, r := posn[..], rank[..];
      if hi - lo < RANKSORT_THRESH {
        Ranksort(lo, hi, depth);
        SinglesProgress(s, v, r, posn[..], rank[..], lo, hi, depth, 2 * depth);
        return true, [];
      }
      CellSortable(s, v, r, lo, hi, depth);
      var l1, h1, med := DivideByRank(lo, hi, depth);
      ghost var w := posn[..];
      DivideKeeps(v, w, r, lo, hi);
      if sp + 2 >= QUICKSORT_STACK { return false, []; }
      parts := RankParts(lo, l1, h1, hi);
      ThreeProgress(s, v, r, w, rank[..], med, lo, l1, h1, hi, depth);
      OuterNarrow(lo, l1, h1, hi);
      ok := true;
    }

    /**
     Sort the bucket `[lo0, hi0]` by the ranks `depth` places on; false exactly when the stack fills up, with
     the segments `left` to be sorted.
     */
    method Quicksort3r(lo0: int, hi0: int, depth: int) returns (ok: bool, ghost left: seq<Segment>)
      requires Valid() && depth > 0 && Ranked(s, Positions(), rank[..], depth)
      requires IsCell(Map(), lo0, hi0) && Clean(posn[..], lo0, hi0) && lo0 < hi0
      modifies posn, rank
      ensures ok ==> Refined(s, old(posn[..]), old(rank[..]), posn[..], rank[..], lo0, hi0, depth)
      ensures ok ==> Tied(s, Positions(), Map(), lo0, hi0, 2 * depth)
      ensures ok <==> left == []
      ensures !ok ==> Stuck(left, 2, RANKSORT_THRESH) && Stacked(left, Map(), lo0, hi0)
      ensures Narrow(left, hi0 - lo0 + 1)
    {
      ghost var v, r := posn[..], rank[..];
      var stack := [Segment(lo0, hi0, 0)];
      StartStack(s, v, r, lo0, hi0, depth);
      NarrowOne(stack[0]);
      while |stack| > 0
        invariant Narrow(stack, hi0 - lo0 + 1)
        invariant Running(s, v, r, posn[..], rank[..], lo0, hi0, depth, 2 * depth, stack)
        decreases Weight(stack)
      {
        var fine, next := SortTop(stack, v, r, lo0, hi0, depth);
        if !fine { return false, stack; }
        stack := next;
      }
      ok, left := true, [];
    }

    /** Take the top segment off the stack, sort or divide it, and put the parts back. */
    method SortTop(stack: seq<Segment>, ghost v: seq<int>, ghost r: seq<int>, ghost lo0: int, ghost hi0: int,
                   depth: int)
      returns (ok: bool, next: seq<Segment>)
      requires Valid() && depth > 0 && stack != [] && Narrow(stack, hi0 - lo0 + 1)
      requires Running(s, v, r, posn[..], rank[..], lo0, hi0, depth, 2 * depth, stack)
      modifies posn, rank
      ensures ok ==> Narrow(next, hi0 - lo0 + 1) && Weight(next) < Weight(stack)
      ensures ok ==> Running(s, v, r, posn[..], rank[..], lo0, hi0, depth, 2 * depth, next)
      ensures ok <==> !Stuck(stack, 2, RANKSORT_THRESH)
      ensures !ok ==> Map() == old(Map())
    {
      var top := stack[|stack| - 1];
      next := stack[..|stack| - 1];
      assert stack == next + [top];
      ghost var below := next;
      ghost var w, t := posn[..], rank[..];
      TopCell(s, v, r, w, t, lo0, hi0, depth, 2 * depth, below, top);
      var parts;
      ok, parts := SortOrDivide(top.lo, top.hi, depth, |next|);
      if !ok { return; }
      Advance(s, v, r, w, t, posn[..], rank[..], lo0, hi0, depth, 2 * depth, below, top, parts);
      NarrowAdvance(below, top, parts, hi0 - lo0 + 1);
      next := next + parts;
    }

    /** Thread the finished entries `[from, lo[`, so that later rounds jump over them. */
    method Thread(from: int, lo: int)
      requires Valid() && 0 <= from && lo <= size && Threaded(posn[..], Map()) && AllSingle(Map(), from, lo - 1)
      modifies posn
      ensures Positions() == old(Positions()) && Threaded(posn[..], Map())
    {
      var sortedLo := from;
      ghost var p, r, g := Positions(), rank[..], Map();
      while sortedLo < lo - 1
        invariant 0 <= from <= sortedLo && rank[..] == r
        invariant Low(posn[..]) == p && Threaded(posn[..], g)
      {
        var step := P.Min(255, lo - 1 - sortedLo);
        ghost var v := posn[..];
        ThreadOne(v, r, sortedLo, step);
        posn[sortedLo] := posn[sortedLo] % LOW + step * LOW;
        assert posn[..] == v[sortedLo := v[sortedLo] % LOW + step * LOW];
        sortedLo := sortedLo + step + 1;
      }
    }

    /** Deal with one unfinished bucket in a doubling round. */
    method SortBucket(lo: int, hi: int, depth: int, from: int)
      returns (ok: bool, big: bool, ghost left: seq<Segment>)
      requires Valid() && depth > 0 && Round(s, posn[..], rank[..], depth, lo, from)
      requires lo < hi && IsCell(Map(), lo, hi) && Clean(posn[..], lo, hi)
      modifies posn, rank
      ensures ok ==> Round(s, posn[..], rank[..], depth, hi + 1, if big then hi + 1 else from)
      ensures big ==> depth < size
      ensures (ok <==> left == []) && (!ok ==> Stuck(left, 3, RANKSORT_THRESH)) && Narrow(left, size)
    {
      ghost var v, r, g := posn[..], rank[..], Map();
      if hi - lo < RANKSORT_THRESH {
        big := false;
        Ranksort(lo, hi, depth);
        SinglesAre(g, Map(), lo, hi);
      } else {
        big := true;
        DeepIsSingle(s, Positions(), r, depth, lo, hi);
        Thread(from, lo);
        ThreadedRound(s, v, posn[..], r, depth, lo, hi, from);
        v := posn[..];
        ok, left := Quicksort3r(lo, hi, depth);
        if !ok { return; }
      }
      ok, left := true, [];
      RoundSorted(s, v, r, posn[..], rank[..], depth, lo, hi, from);
    }

    /** Jump over a finished run, or sort an unfinished bucket. */
    method RoundStep(lo: int, depth: int, from: int)
      returns (ok: bool, next: int, big: bool, ghost left: seq<Segment>)
      requires Valid() && depth > 0 && Round(s, posn[..], rank[..], depth, lo, from) && lo < size
      modifies posn, rank
      ensures ok ==> Round(s, posn[..], rank[..], depth, next, if big then next else from)
      ensures lo < next && (big ==> depth < size)
      ensures (ok <==> left == []) && (!ok ==> Stuck(left, 3, RANKSORT_THRESH)) && Narrow(left, size)
    {
      var hi := BucketOf(lo);
      if lo == hi {
        RoundSkip(s, posn[..], rank[..], depth, lo, from);
        return true, lo + Skip(posn[lo]) + 1, false, [];
      }
      RoundCell(s, posn[..], rank[..], depth, lo, from);
      ok, big, left := SortBucket(lo, hi, depth, from);
      next := hi + 1;
    }

    /** One round over all buckets, after which equal ranks mean twice the agreement. */
    method DoublingRound(depth: int) returns (ok: bool, again: int, ghost left: seq<Segment>)
      requires Valid() && depth > 0 && Round(s, posn[..], rank[..], depth, 0, 0)
      modifies posn, rank
      ensures ok ==> Round(s, posn[..], rank[..], 2 * depth, 0, 0)
      ensures ok && again == 0 ==> AllSingle(Map(), 0, size - 1)
      ensures again >= 0 && (again > 0 ==> depth < size)
      ensures (ok <==> left == []) && (!ok ==> Stuck(left, 3, RANKSORT_THRESH)) && Narrow(left, size)
    {
      again := 0;
      var sortedLo := 0;
      var lo := 0;
      while lo < size
        invariant Round(s, posn[..], rank[..], depth, lo, sortedLo)
        invariant again >= 0 && (again == 0 ==> sortedLo == 0) && (again > 0 ==> depth < size)
        decreases size - lo
      {
        var next, big;
        ok, next, big, left := RoundStep(lo, depth, sortedLo);
        if !ok { return; }
        if big {
          again := again + 1;
          sortedLo := next;
        }
        lo := next;
      }
      ghost var v := posn[..];
      Thread(sortedLo, lo);
      RoundDone(s, v, posn[..], rank[..], depth, sortedLo);
      ok, left := true, [];
    }

    /** The upper end of the bucket of index `lo`. */
    method BucketOf(lo: int) returns (hi: int)
      requires Valid() && 0 <= lo < size && IsPerm(Positions())
      ensures hi == Map()[lo]
    {
      assert 0 <= Positions()[lo] < size;
      hi := rank[posn[lo] % LOW];
    }

    /** Is the suffix at `p1` after the one at `p2`, as far as the data tell from `depth` on? */
    method GTD(p1: int, p2: int, depth: int) returns (gt: bool)
      requires Valid() && IsMarked(s) && Holds(data[..], s) && 0 <= depth < PRESORT_DEPTH
      requires 0 <= p1 < size && 0 <= p2 < size && p1 != p2 && Same(s, p1, p2, depth)
      ensures gt <==> LessBy(s, p2, p1, DataDepth(depth))
      ensures !gt ==> NotAfter(s, p1, p2, DataDepth(depth))
    {
      var q1, q2, d := p1 + depth, p2 + depth, depth;
      SameGivesBytes(s, p1, p2, depth);
      while d < PRESORT_DEPTH
        invariant depth <= d <= DataDepth(depth) && (d - depth) % 2 == 0
        invariant q1 == p1 + d && q2 == p2 + d && SameBytes(s, p1, p2, d)
      {
        var c1, c2 := data[q1], data[q2];
        ByteOrder(s, p1, p2, d, DataDepth(depth), data[..]);
        if c1 != c2 { return c1 > c2; }
        c1, c2 := data[q1 + 1], data[q2 + 1];
        ByteOrder(s, p1, p2, d + 1, DataDepth(depth), data[..]);
        q1, q2, d := q1 + 2, q2 + 2, d + 2;
        if c1 != c2 { return c1 > c2; }
      }
      EndOrder(s, p1, p2, d);
      if q1 < size && q2 < size { return false; }
      return q1 < q2;
    }

    /** Insert the entry at `i` among the entries `[lo, i[` sorted by data. */
    method SiftByData(lo: int, i: int, hi: int, depth: int, ghost was: seq<int>)
      requires Valid() && IsMarked(s) && Holds(data[..], s) && 0 <= depth < PRESORT_DEPTH
      requires 0 <= lo < i <= hi < size && |was| == size && Sortable(s, was, lo, hi, depth)
      requires Rearranged(was, posn[..], lo, hi) && Increasing(s, posn[..], lo, i - 1, DataDepth(depth))
      modifies posn
      ensures Rearranged(was, posn[..], lo, hi) && Increasing(s, posn[..], lo, i, DataDepth(depth))
    {
      var tmp := posn[i];
      var j := i - 1;
      ghost var v, e := posn[..], DataDepth(depth);
      while j >= lo
        invariant lo - 1 <= j < i && |v| == size
        invariant posn[..][j + 1 := tmp] == v
        invariant Sifting(s, was, v, lo, i, hi, j + 1, e)
      {
        SortableRearranged(s, was, v, lo, hi, depth);
        assert v[j] == posn[..][j] && v[j + 1] == tmp;
        var gt := GTD(posn[j], tmp, depth);
        if !gt { break; }
        SiftDown(s, was, v, lo, i, hi, j + 1, e);
        v := P.Swapped(v, j + 1, j);
        posn[j + 1] := posn[j];
        j := j - 1;
      }
      HoleDone(s, v, lo, i, j + 1, e);
      posn[j + 1] := tmp;
      assert posn[..] == v;
    }

    /** Sort `[lo, hi]` by data, by insertion. */
    method InsertByData(lo: int, hi: int, depth: int)
      requires Valid() && IsMarked(s) && Holds(data[..], s) && 0 <= depth < PRESORT_DEPTH
      requires 0 <= lo <= hi < size && Sortable(s, posn[..], lo, hi, depth)
      modifies posn
      ensures Rearranged(old(posn[..]), posn[..], lo, hi)
      ensures Increasing(s, posn[..], lo, hi, DataDepth(depth))
    {
      ghost var was := posn[..];
      RearrangedRefl(was, lo, hi);
      for i := lo + 1 to hi + 1
        invariant Rearranged(was, posn[..], lo, hi) && Increasing(s, posn[..], lo, i - 1, DataDepth(depth))
      {
        SiftByData(lo, i, hi, depth, was);
      }
    }

    /** Set the rank of entry `i`. */
    method SetRank(i: int, value: int)
      requires Valid() && 0 <= i < size && IsPerm(Positions()) && 0 <= posn[i] < size
      modifies rank
      ensures Map() == old(Map())[i := value]
    {
      ghost var v, r := posn[..], rank[..];
      assert Low(v)[i] == v[i];
      RankAssign(Low(v), r, i, value);
      rank[posn[i]] := value;
      assert rank[..] == r[Low(v)[i] := value];
    }

    /** Is the entry at `j` equal by data to the one at `i`, which it does not come after? */
    method TiesWith(lo: int, j: int, i: int, hi: int, depth: int) returns (ties: bool)
      requires Valid() && IsMarked(s) && Holds(data[..], s) && 0 <= depth < PRESORT_DEPTH
      requires 0 <= lo <= j < i <= hi < size && Sortable(s, posn[..], lo, hi, depth)
      requires Increasing(s, posn[..], lo, hi, DataDepth(depth))
      ensures ties ==> Same(s, posn[..][j], posn[..][i], DataDepth(depth))
      ensures !ties ==> LessBy(s, posn[..][j], posn[..][i], DataDepth(depth))
    {
      ghost var w, e := posn[..], DataDepth(depth);
      assert Same(s, w[j], w[i], depth) && w[j] != w[i] && NotAfter(s, w[j], w[i], e);
      var gt := GTD(posn[i], posn[j], depth);
      if !gt { TiedByData(s, w[j], w[i], e); }
      ties := !gt;
    }

    /** Give the entries below and at `i` that are equal to it by data the rank `i`; stop at the first smaller one. */
    method RankGroup(lo: int, i: int, hi: int, depth: int, ghost h: seq<int>) returns (j: int, ghost k: seq<int>)
      requires Valid() && IsMarked(s) && Holds(data[..], s) && 0 <= depth < PRESORT_DEPTH
      requires 0 <= lo <= i <= hi < size && Sortable(s, posn[..], lo, hi, depth) && IsPerm(Positions())
      requires Increasing(s, posn[..], lo, hi, DataDepth(depth))
      requires Map() == h
      modifies rank
      ensures lo <= j + 1 <= i && Map() == k && GroupRun(s, posn[..], h, k, j, i, DataDepth(depth))
      ensures lo <= j ==> LessBy(s, posn[..][j], posn[..][i], DataDepth(depth))
    {
      ghost var w, e := posn[..], DataDepth(depth);
      SetRank(i, i);
      k := h[i := i];
      j := i - 1;
      while j >= lo
        invariant lo - 1 <= j < i && posn[..] == w && Map() == k && GroupRun(s, w, h, k, j, i, e)
      {
        var ties := TiesWith(lo, j, i, hi, depth);
        if !ties { break; }
        SetRank(j, i);
        k := k[j := i];
        j := j - 1;
      }
    }

    /** Rank the groups of equal entries of the sorted range `[lo, hi]`. */
    method RankGroups(lo: int, hi: int, depth: int) returns (ghost h: seq<int>)
      requires Valid() && IsMarked(s) && Holds(data[..], s) && 0 <= depth < PRESORT_DEPTH
      requires 0 <= lo <= hi < size && Sortable(s, posn[..], lo, hi, depth) && IsPerm(Positions())
      requires Increasing(s, posn[..], lo, hi, DataDepth(depth))
      modifies rank
      ensures Map() == h && Grouped(s, posn[..], h, lo, hi, DataDepth(depth))
      ensures forall m :: 0 <= m < size && !(lo <= m <= hi) ==> h[m] == old(Map())[m]
    {
      ghost var w, e, g := posn[..], DataDepth(depth), Map();
      h := g;
      var i := hi;
      while i >= lo
        invariant lo - 1 <= i <= hi && posn[..] == w && Map() == h
        invariant Grouped(s, w, h, i + 1, hi, e)
        invariant lo <= i < hi ==> LessBy(s, w[i], w[i + 1], e)
        invariant forall m :: 0 <= m < size && !(lo <= m <= hi) ==> h[m] == g[m]
      {
        var j;
        ghost var k;
        j, k := RankGroup(lo, i, hi, depth, h);
        GroupMore(s, w, h, k, lo, j, i, hi, e);
        if lo <= j { LessByTransitive(s, w[j], w[i], w[j + 1], e); }
        h := k;
        i := j;
      }
    }

    /** Partition `[lo, hi]` by the bytes `depth` places on. */
    method DivideByData(lo: int, hi: int, depth: int) returns (l1: int, h1: int, med: int)
      requires Valid() && Holds(data[..], s) && 0 <= depth < PRESORT_DEPTH
      requires 0 <= lo <= hi < size && Injective(posn[..]) && Clean(posn[..], lo, hi)
      modifies posn
      ensures Rearranged(old(posn[..]), posn[..], lo, hi)
      ensures P.Parted(posn[..], data[..], depth, med, lo, l1, h1, hi) && l1 <= h1
    {
      ghost var v, k := posn[..], data[..];
      med := P.Pivot(posn, data, depth, lo, hi);
      ghost var i :| lo <= i <= hi && P.Key(v, k, depth, i) == med;
      l1, h1 := P.Partition(posn, data, depth, lo, hi, med);
      RearrangedOnto(v, posn[..], lo, hi, i);
      ghost var j :| lo <= j <= hi && posn[..][j] == v[i];
      assert P.Key(posn[..], k, depth, j) == med;
    }

    /** Special case for the marker: set the suffix whose byte it is apart. */
    method ApartMarker(lo: int, l1: int, h1: int, hi: int, depth: int, med: int, ghost was: seq<int>) returns (l: int)
      requires Valid() && IsMarked(s) && Holds(data[..], s) && 0 <= depth < PRESORT_DEPTH
      requires 0 <= lo <= l1 <= h1 <= hi < size && Rearranged(was, posn[..], lo, hi) && Clean(was, lo, hi)
      requires P.Parted(posn[..], data[..], depth, med, lo, l1, h1, hi)
      modifies posn
      ensures Rearranged(was, posn[..], lo, hi)
      ensures P.Parted(posn[..], data[..], depth, med, lo, l1, h1, hi)
      ensures l1 <= l <= l1 + 1 && MarkerApart(posn[..], size, depth, l1, l, h1)
    {
      ghost var v, k := posn[..], data[..];
      CleanRearranged(was, v, lo, hi);
      if med != 0 {
        NoMarker(s, v, k, depth, med, lo, l1, h1, hi);
        return l1;
      }
      var i := l1;
      while i <= h1
        invariant l1 <= i <= h1 + 1 && posn[..] == v
        invariant forall m :: l1 <= m < i ==> v[m] + depth != size - 1
      {
        if posn[i] + depth == size - 1 {
          P.SwapRearranged(was, v, i, l1, lo, hi);
          PartedSwap(v, k, depth, med, lo, l1, h1, hi, i);
          P.Swap(posn, i, l1);
          return l1 + 1;
        }
        i := i + 1;
      }
      l := l1;
    }

    /** Write the ranks of the marker and of parts of one entry. */
    method RankLones(lo: int, l1: int, l: int, h1: int, hi: int)
      requires Arranging(lo, hi) && Cut(size, lo, l1, l, h1, hi)
      modifies rank
      ensures Map() == Written(old(Map()), lo, l1, l, h1, hi)
    {
      ghost var m0 := Map();
      RankLone(l1, l, lo, hi);
      ghost var m1 := Map();
      RankLone(l, h1 + 1, lo, hi);
      ghost var m2 := Map();
      RankLone(lo, l1, lo, hi);
      ghost var m3 := Map();
      RankLone(h1 + 1, hi + 1, lo, hi);
      ghost var m4 := Map();
      WrittenBy(m0, m1, m2, m3, m4, lo, l1, l, h1, hi);
    }

    /** Positions, of which those in `[lo, hi]` carry no skip. */
    ghost predicate Arranging(lo: int, hi: int)
      reads posn
    {
      Valid() && IsPerm(Positions()) && Clean(posn[..], lo, hi)
    }

    /** Write the rank of a lone entry of `[a, b[`. */
    method RankLone(a: int, b: int, ghost lo: int, ghost hi: int)
      requires Arranging(lo, hi) && lo <= a && b <= hi + 1
      modifies rank
      ensures Map() == Lone(old(Map()), a, b)
    {
      if a + 1 == b { SetRank(a, a); }
    }

    /** One step of the presort on the segment `top`. */
    method PresortStep(top: Segment, sp: int, ghost g: seq<int>)
      returns (ok: bool, parts: seq<Segment>, ghost h: seq<int>)
      requires Valid() && IsMarked(s) && Holds(data[..], s) && |g| == size
      requires IsCell(g, top.lo, top.hi) && Cells(g) && IsPerm(Positions()) && 0 <= top.depth <= 8
      requires Sortable(s, posn[..], top.lo, top.hi, top.depth)
      modifies posn, rank
      ensures ok ==> Presorted(s, old(posn[..]), old(rank[..]), g, posn[..], rank[..], h, top, parts)
      ensures ok ==> Narrow(parts, top.hi - top.lo + 1)
      ensures ok <==> !(sp + 3 >= QUICKSORT_STACK && top.depth < PRESORT_DEPTH && top.hi - top.lo >= PRESORT_THRESH)
    {
      ghost var w, t := posn[..], rank[..];
      var lo, hi, depth := top.lo, top.hi, top.depth;
      if depth >= PRESORT_DEPTH {
        FillRank(lo, hi, hi);
        PresortDeep(s, w, t, g, rank[..], top);
        return true, [], g;
      }
      if hi - lo < PRESORT_THRESH {
        InsertByData(lo, hi, depth);
        RearrangedSortable(s, w, posn[..], lo, hi, depth);
        ghost var m := RankGroups(lo, hi, depth);
        PresortGrouped(s, w, t, g, posn[..], rank[..], top, DataDepth(depth));
        return true, [], Mix(g, m, lo, hi);
      }
      var l1, h1, med := DivideByData(lo, hi, depth);
      if sp + 3 >= QUICKSORT_STACK { return false, [], g; }
      var l := ApartMarker(lo, l1, h1, hi, depth, med, w);
      RearrangedSortable(s, w, posn[..], lo, hi, depth);
      RankLones(lo, l1, l, h1, hi);
      parts := DataParts(lo, l1, l, h1, hi, depth);
      DataPartsNarrow(size, lo, l1, l, h1, hi, depth);
      PresortDivided(s, w, t, g, posn[..], rank[..], data[..], top, med, l1, l, h1);
      ok, h := true, Four(g, lo, l1, l, h1);
    }

    /**
     Sort the bucket `[lo0, hi0]` by data to depth 8; false exactly when the stack fills up, with the segments
     `left` to be sorted.
     */
    method Quicksort3d(lo0: int, hi0: int, depth: int) returns (ok: bool, ghost left: seq<Segment>)
      requires Valid() && IsMarked(s) && Holds(data[..], s) && 0 <= depth <= 8
      requires Ranked(s, Positions(), rank[..], depth) && IsCell(Map(), lo0, hi0) && Clean(posn[..], lo0, hi0)
      requires lo0 < hi0
      modifies posn, rank
      ensures ok ==> Refined(s, old(posn[..]), old(rank[..]), posn[..], rank[..], lo0, hi0, depth)
      ensures ok ==> Tied(s, Positions(), Map(), lo0, hi0, 8)
      ensures ok <==> left == []
      ensures !ok ==> Stuck(left, 3, PRESORT_THRESH) && left[|left| - 1].depth < PRESORT_DEPTH
      ensures Narrow(left, hi0 - lo0 + 1)
    {
      ghost var v, r, g := posn[..], rank[..], Map();
      var stack := [Segment(lo0, hi0, depth)];
      StartPresort(s, v, r, lo0, hi0, depth);
      NarrowOne(stack[0]);
      while |stack| > 0
        invariant Narrow(stack, hi0 - lo0 + 1)
        invariant Presorting(s, v, r, posn[..], rank[..], g, lo0, hi0, depth, stack)
        decreases Weight(stack)
      {
        var top := stack[|stack| - 1];
        ghost var all := stack;
        stack := stack[..|stack| - 1];
        assert all == stack + [top];
        ghost var w, t := posn[..], rank[..];
        TopSegment(s, v, r, w, t, g, lo0, hi0, depth, stack, top);
        var fine, parts;
        ghost var h;
        fine, parts, h := PresortStep(top, |stack|, g);
        if !fine { return false, all; }
        PresortAdvance(s, v, r, w, t, g, posn[..], rank[..], h, lo0, hi0, depth, stack, top, parts);
        NarrowAdvance(stack, top, parts, hi0 - lo0 + 1);
        g := h;
        stack := stack + parts;
      }
      PresortDone(s, v, r, posn[..], rank[..], g, lo0, hi0, depth);
      ok, left := true, [];
    }

    /** The byte of suffix `i`, which is its first key. */
    method ByteAt(i: int) returns (c: int)
      requires Valid() && IsMarked(s) && Holds(data[..], s) && 0 <= i < size
      ensures c == s[i] && 0 <= c < 256
    {
      assert data[..][i] == Byte(s, i, 0);
      c := data[i];
    }

    /** Count the occurrences of each byte before the marker. */
    method CountBytes() returns (hi: array<int>)
      requires Valid() && IsMarked(s) && Holds(data[..], s)
      ensures fresh(hi) && hi.Length == 256 && Counts(Keys8(s), hi[..], size - 1)
    {
      hi := new int[256](_ => 0);
      ghost var keys := Keys8(s);
      for i := 0 to size - 1
        invariant Counts(keys, hi[..], i)
      {
        var c := ByteAt(i);
        assert keys[i] == c;
        ghost var was := hi[..];
        hi[c] := hi[c] + 1;
        assert forall b :: 0 <= b < 256 ==> hi[..][b] == was[b] + if b == c then 1 else 0;
      }
    }

    /** Turn the counts into the first and last slot of each byte. */
    method BytePositions(hi: array<int>) returns (lo: array<int>)
      requires Valid() && IsMarked(s) && hi.Length == 256 && Counts(Keys8(s), hi[..], size - 1)
      modifies hi
      ensures fresh(lo) && lo.Length == 256
      ensures forall c :: 0 <= c < 256 ==> lo[c] == Start(Keys8(s), c)
      ensures forall c :: 0 <= c < 256 ==> hi[c] == Start(Keys8(s), c + 1) - 1
    {
      lo := new int[256](_ => 0);
      ghost var keys, was := Keys8(s), hi[..];
      var last := 1;
      MarkerCount8(s, size, 0);
      for i := 0 to 256
        invariant last == Start(keys, i)
        invariant forall c :: 0 <= c < i ==> lo[c] == Start(keys, c) && hi[c] == Start(keys, c + 1) - 1
        invariant forall c :: i <= c < 256 ==> hi[c] == was[c]
      {
        StartNext(keys, i);
        lo[i] := last;
        hi[i] := last + hi[i] - 1;
        last := hi[i] + 1;
      }
    }

    /** Sort by the first byte. */
    method Radixsort8()
      requires Valid() && IsMarked(s) && Holds(data[..], s)
      modifies posn, rank
      ensures Radixed(Keys8(s), posn[..], rank[..])
    {
      var hi := CountBytes();
      var lo := BytePositions(hi);
      PlaceBytes(lo, hi);
      ghost var keys, p := Keys8(s), posn[..];
      MarkerCount8(s, size, -1);
      MarkerCount8(s, size - 1, -1);
      MarkerCount8(s, size, 0);
      assert Slot(keys, size - 1) == 0 && Top(keys, size - 1) == 0;
      FillOne(keys, p, 0, size - 1, size - 1);
      posn[0] := size - 1;
      assert posn[..] == p[0 := size - 1];
      rank[size - 1] := 0;
      rank[size] := -1;
    }

    /** Place every suffix but the marker's, in order, in the next slot of its byte. */
    method PlaceBytes(lo: array<int>, hi: array<int>)
      requires Valid() && IsMarked(s) && Holds(data[..], s) && lo.Length == 256 && hi.Length == 256
      requires lo != hi && lo != posn && lo != rank && lo != data && hi != posn && hi != rank && hi != data
      requires forall c :: 0 <= c < 256 ==> lo[c] == Start(Keys8(s), c) && hi[c] == Start(Keys8(s), c + 1) - 1
      modifies posn, rank, lo
      ensures Filling(Keys8(s), posn[..], 0, size - 1)
      ensures forall j :: 0 <= j < size - 1 ==> rank[j] == Top(Keys8(s), j)
    {
      ghost var keys := Keys8(s);
      for i := 0 to size - 1
        invariant Filling(keys, posn[..], 0, i)
        invariant forall c :: 0 <= c < 256 ==> lo[c] == Start(keys, c) + Count(keys, i, c)
        invariant forall c :: 0 <= c < 256 ==> hi[c] == Start(keys, c + 1) - 1
        invariant forall j :: 0 <= j < i ==> rank[j] == Top(keys, j)
      {
        var c := ByteAt(i);
        assert keys[i] == c;
        ghost var p := posn[..];
        FillOne(keys, p, 0, i, i);
        posn[lo[c]] := i;
        assert posn[..] == p[Slot(keys, i) := i];
        lo[c] := lo[c] + 1;
        rank[i] := hi[c];
      }
    }

    /** Count the pairs of neighbouring bytes. */
    method CountPairs() returns (ftab: array<int>)
      requires Valid() && IsMarked(s) && Holds(data[..], s) && size >= 2
      ensures fresh(ftab) && ftab.Length == 65536 && Counts(Pairs(s), ftab[..], size - 1)
    {
      ftab := new int[65536](_ => 0);
      ghost var keys := Pairs(s);
      var c1 := ByteAt(0);
      for i := 0 to size - 1
        invariant c1 == s[i] && Counts(keys, ftab[..], i)
      {
        var c2 := ByteAt(i + 1);
        var k := 256 * c1 + c2;
        assert keys[i] == k && 0 <= k < 65536;
        ghost var was := ftab[..];
        ftab[k] := ftab[k] + 1;
        assert forall b :: 0 <= b < 65536 ==> ftab[..][b] == was[b] + if b == k then 1 else 0;
        c1 := c2;
      }
    }

    /** Turn the pair counts into upper positions. */
    method SumPairs(ftab: array<int>)
      requires Valid() && IsMarked(s) && size >= 2
      requires ftab.Length == 65536 && Counts(Pairs(s), ftab[..], size - 1)
      modifies ftab
      ensures LastPositions(s, ftab[..])
    {
      ghost var keys := Pairs(s);
      forall m | 0 <= m < |keys| ensures keys[m] >= 0 { PairsNat(s, m); }
      SumFirst(keys, ftab[..]);
      for i := 1 to 65536
        invariant Summed(keys, ftab[..], i)
      {
        ghost var t := ftab[..];
        SumOne(keys, t, i);
        ftab[i] := ftab[i] + ftab[i - 1];
        assert ftab[..] == t[i := t[i] + t[i - 1]];
      }
      TableLast(s, ftab[..]);
    }

    /** Give every suffix but the last two the upper position of its pair as rank. */
    method RankPairs(ftab: array<int>)
      requires Valid() && IsMarked(s) && Holds(data[..], s) && size >= 2
      requires ftab != posn && ftab != rank && ftab != data && LastPositions(s, ftab[..])
      modifies rank
      ensures forall i :: 0 <= i < size - 2 ==> rank[i] == Top(Keys16(s), i)
    {
      ghost var t := ftab[..];
      var c1 := ByteAt(0);
      for i := 0 to size - 2
        invariant c1 == s[i] && ftab[..] == t
        invariant forall j :: 0 <= j < i ==> rank[j] == Top(Keys16(s), j)
      {
        var c2 := ByteAt(i + 1);
        TableTop(s, t, i);
        assert t[256 * c1 + c2] == ftab[256 * c1 + c2];
        rank[i] := ftab[256 * c1 + c2];
        c1 := c2;
      }
    }

    /** Place every suffix but the last two, from the last to the first. */
    method PlacePairs(ftab: array<int>)
      requires Valid() && IsMarked(s) && Holds(data[..], s) && size >= 2
      requires ftab != posn && ftab != rank && ftab != data && LastPositions(s, ftab[..])
      modifies posn, ftab
      ensures Backwards(s, ftab[..], 0) && Filling(Keys16(s), posn[..], 0, size - 2)
    {
      TableFull(s, ftab[..]);
      ghost var from := size - 2;
      var c1 := ByteAt(size - 2);
      var i := size - 3;
      while i >= 0
        invariant -1 <= i && from == i + 1 <= size - 2 && c1 == s[from]
        invariant Backwards(s, ftab[..], from) && Filling(Keys16(s), posn[..], from, size - 2)
      {
        c1 := PlaceNext(ftab, i, c1, from);
        from := i;
        i := i - 1;
      }
    }

    /** Place suffix `i` in the highest free slot of its bucket; `c1` is the byte after its first. */
    method PlaceNext(ftab: array<int>, i: int, c1: int, ghost from: int) returns (c2: int)
      requires Valid() && IsMarked(s) && Holds(data[..], s) && 0 <= i < size - 2 && from == i + 1 && c1 == s[from]
      requires ftab != posn && ftab != rank && ftab != data && Backwards(s, ftab[..], from)
      requires Filling(Keys16(s), posn[..], from, size - 2)
      modifies posn, ftab
      ensures c2 == s[i] && Backwards(s, ftab[..], i) && Filling(Keys16(s), posn[..], i, size - 2)
    {
      c2 := ByteAt(i);
      PlacePair(ftab, i, 256 * c2 + c1, from);
    }

    /** Place suffix `i`, whose pair code is `k`, in the highest free slot of its bucket. */
    method PlacePair(ftab: array<int>, i: int, k: int, ghost from: int)
      requires Valid() && IsMarked(s) && 0 <= i < size - 2 && k == Pairs(s)[i] && from == i + 1
      requires ftab != posn && ftab != rank && ftab != data && Backwards(s, ftab[..], from)
      requires Filling(Keys16(s), posn[..], from, size - 2)
      modifies posn, ftab
      ensures Backwards(s, ftab[..], i) && Filling(Keys16(s), posn[..], i, size - 2)
    {
      ghost var p, t := posn[..], ftab[..];
      PairPlaced(s, p, t, i, k, from);
      var slot := ftab[k];
      assert slot == t[k];
      ghost var q := p[slot := i];
      Put(posn, slot, i);
      assert ftab[..] == t;
      Put(ftab, k, slot - 1);
      assert posn[..] == q;
    }

    /** Sort by the first two bytes. */
    method Radixsort16()
      requires Valid() && IsMarked(s) && Holds(data[..], s) && size >= 2
      modifies posn, rank
      ensures Radixed(Keys16(s), posn[..], rank[..])
    {
      var ftab := CountPairs();
      SumPairs(ftab);
      RankPairs(ftab);
      PlacePairs(ftab);
      var c1 := ByteAt(size - 2);
      PlaceLast(ftab, 256 * c1);
    }

    /** Place the marker and the suffix before it, whose pair code is `k`. */
    method PlaceLast(ftab: array<int>, k: int)
      requires Valid() && IsMarked(s) && size >= 2 && k == 256 * s[size - 2] && 0 <= k < 65536
      requires ftab != posn && ftab != rank && ftab != data
      requires Backwards(s, ftab[..], 0) && Filling(Keys16(s), posn[..], 0, size - 2)
      requires forall j :: 0 <= j < size - 2 ==> rank[j] == Top(Keys16(s), j)
      modifies posn, rank
      ensures Radixed(Keys16(s), posn[..], rank[..])
    {
      ghost var keys, p, t := Keys16(s), posn[..], ftab[..];
      LastPlaced(s, p, t, k);
      assert ftab[k] == t[k];
      posn[0] := size - 1;
      ghost var q := p[0 := size - 1];
      assert posn[..] == q;
      posn[ftab[k]] := size - 2;
      assert posn[..] == q[t[k] := size - 2];
      rank[size - 1] := 0;
      rank[size - 2] := ftab[k];
      rank[size] := -1;
    }

    /** Step 2: sort every bucket by data to depth 8. */
    method Presort(depth: int) returns (ok: bool, ghost left: seq<Segment>)
      requires Valid() && IsMarked(s) && Holds(data[..], s) && 0 <= depth <= 8
      requires Ranked(s, Positions(), rank[..], depth) && Clean(posn[..], 0, size - 1)
      modifies posn, rank
      ensures ok ==> Ranked(s, Positions(), rank[..], 8) && Clean(posn[..], 0, size - 1)
      ensures (ok <==> left == []) && (!ok ==> Stuck(left, 3, RANKSORT_THRESH)) && Narrow(left, size)
    {
      var lo := 0;
      while lo < size
        invariant PresortRound(s, posn[..], rank[..], depth, lo)
      {
        var hi := BucketOf(lo);
        ok, left := PresortBucket(lo, hi, depth);
        if !ok { return; }
        lo := hi + 1;
      }
      ok, left := true, [];
    }

    /** Sort the bucket `[lo, hi]` by data. */
    method PresortBucket(lo: int, hi: int, depth: int) returns (ok: bool, ghost left: seq<Segment>)
      requires Valid() && IsMarked(s) && Holds(data[..], s) && 0 <= depth <= 8
      requires PresortRound(s, posn[..], rank[..], depth, lo) && lo < size && hi == Map()[lo]
      modifies posn, rank
      ensures ok ==> PresortRound(s, posn[..], rank[..], depth, hi + 1)
      ensures lo <= hi && (ok <==> left == []) && (!ok ==> Stuck(left, 3, RANKSORT_THRESH)) && Narrow(left, size)
    {
      ok, left := true, [];
      ghost var v, r := posn[..], rank[..];
      NextCell(Map(), lo);
      if lo < hi {
        ok, left := Quicksort3d(lo, hi, depth);
        if !ok { return; }
        ghost var w, t := posn[..], rank[..];
        PresortSorted(s, v, r, w, t, depth, lo, hi);
      } else {
        PresortSingle(s, v, r, depth, lo);
      }
    }

    /** Step 3: rank doubling. */
    method Doubling() returns (ok: bool, ghost left: seq<Segment>)
      requires Valid() && Round(s, posn[..], rank[..], 8, 0, 0)
      modifies posn, rank
      ensures ok ==> IsSuffixArray(s, Positions())
      ensures (ok <==> left == []) && (!ok ==> Stuck(left, 3, RANKSORT_THRESH)) && Narrow(left, size)
    {
      var depth, again := 8, 1;
      while again > 0
        invariant depth > 0 && again >= 0 && Round(s, posn[..], rank[..], depth, 0, 0)
        invariant again == 0 ==> AllSingle(Map(), 0, size - 1)
        invariant again > 0 ==> depth < 2 * size + 16
        decreases if again > 0 then 2 * size + 16 - depth else 0
      {
        ok, again, left := DoublingRound(depth);
        if !ok { return; }
        depth := depth + depth;
      }
      AllSingleSorted(s, Positions(), rank[..], depth);
      ok, left := true, [];
    }

    /** Step 4: replace the data by the bytes before the sorted suffixes. */
    method Permute() returns (markerpos: int)
      requires Valid() && IsMarked(s) && Holds(data[..], s) && IsSuffixArray(s, Positions())
      modifies data, rank
      ensures 0 <= markerpos < size && TransformBy(s, Positions(), data[..size], markerpos)
      ensures data[size..] == old(data[size..])
    {
      ghost var p, tail := Positions(), data[size..];
      for i := 0 to size
        invariant data[..] == old(data[..])
        invariant forall j :: 0 <= j < i ==> rank[j] == s[j]
      {
        assert data[..][i] == Byte(s, i, 0);
        rank[i] := data[i];
      }
      markerpos := -1;
      ghost var zero := IndexOf(p, 0);
      for i := 0 to size
        invariant forall j :: 0 <= j < size ==> rank[j] == s[j]
        invariant Low(posn[..]) == p && data[size..] == tail
        invariant data[..i] == Column(s, p)[..i]
        invariant -1 <= markerpos < size && (markerpos >= 0 ==> p[markerpos] == 0)
        invariant zero < i ==> markerpos >= 0
      {
        var j := posn[i] % LOW;
        assert p[i] == j;
        if j > 0 {
          data[i] := rank[j - 1];
        } else {
          data[i] := 0;
          markerpos := i;
        }
        assert data[..i + 1] == data[..i] + [data[i]];
      }
    }

    /**
     Sort the block and permute the data; false exactly when a quicksort stack fills up, with the segments `left`
     to be sorted, which cannot happen in a short block.
     */
    method Run() returns (ok: bool, markerpos: int, ghost left: seq<Segment>)
      requires Valid() && IsMarked(s) && Holds(data[..], s)
      modifies data, posn, rank
      ensures (ok <==> left == []) && (!ok ==> Stuck(left, 3, RANKSORT_THRESH)) && Narrow(left, size)
      ensures size <= SURE ==> ok
      ensures ok ==> IsSuffixArray(s, Positions())
      ensures ok ==> 0 <= markerpos < size && TransformBy(s, Positions(), data[..size], markerpos)
      ensures ok ==> data[size..] == old(data[size..])
    {
      var depth;
      markerpos := -1;
      if size > RADIX_THRESH {
        Radixsort16();
        Keys16For(s);
        RadixedStart(s, Keys16(s), posn[..], rank[..], 2);
        depth := 2;
      } else {
        Radixsort8();
        Keys8For(s);
        RadixedStart(s, Keys8(s), posn[..], rank[..], 1);
        depth := 1;
      }
      ok, left := Presort(depth);
      if !ok {
        StuckLarge(left, 3, size);
        return;
      }
      DoublingStart(s, posn[..], rank[..]);
      ok, left := Doubling();
      if !ok {
        StuckLarge(left, 3, size);
        return;
      }
      markerpos := Permute();
    }
  }
}
