/**
 Sorting a range of an array in place under a total preorder: insertion for
 short ranges, otherwise a partition whose two ranges may share an element.
 */
module ArraySort {
  import opened Sequences

  /** A total preorder. */
  ghost predicate Preorder<T(!new)>(le: (T, T) -> bool) {
    && (forall x, y :: le(x, y) || le(y, x))
    && (forall x, y, z :: le(x, y) && le(y, z) ==> le(x, z))
  }

  ghost predicate Sorted<T>(p: seq<T>, lo: int, hi: int, le: (T, T) -> bool) {
    0 <= lo && hi < |p| && forall i, j :: lo <= i <= j <= hi ==> le(p[i], p[j])
  }

  /** The same elements, in the same place outside the range. */
  ghost predicate Shuffled<T>(p: seq<T>, q: seq<T>, lo: int, hi: int) {
    && |p| == |q| && multiset(p) == multiset(q)
    && forall i :: 0 <= i < |p| && (i < lo || i > hi) ==> p[i] == q[i]
  }

  lemma ShuffledTransitive<T>(p: seq<T>, q: seq<T>, r: seq<T>, lo: int, hi: int, from: int, to: int)
    requires Shuffled(p, q, lo, hi) && Shuffled(q, r, from, to) && lo <= from && to <= hi
    ensures Shuffled(p, r, lo, hi)
  {
  }

  /** Inside the range the elements are the same. */
  lemma SameInside<T>(p: seq<T>, q: seq<T>, lo: int, hi: int)
    requires Shuffled(p, q, lo, hi) && 0 <= lo <= hi + 1 <= |p|
    ensures multiset(p[lo..hi + 1]) == multiset(q[lo..hi + 1])
  {
    assert p[..lo] == q[..lo] && p[hi + 1..] == q[hi + 1..];
    InThree(p, lo, hi + 1);
    InThree(q, lo, hi + 1);
    SameMiddle(multiset(p[..lo]), multiset(p[lo..hi + 1]), multiset(q[lo..hi + 1]), multiset(p[hi + 1..]));
  }

  lemma InThree<T>(p: seq<T>, i: nat, j: nat)
    requires i <= j <= |p|
    ensures multiset(p) == multiset(p[..i]) + multiset(p[i..j]) + multiset(p[j..])
  {
    assert p == p[..i] + p[i..j] + p[j..];
  }

  lemma SameMiddle<T>(a: multiset<T>, b: multiset<T>, c: multiset<T>, d: multiset<T>)
    requires a + b + d == a + c + d
    ensures b == c
  {
    assert b == a + b + d - a - d && c == a + c + d - a - d;
  }

  lemma SameFront<T>(a: seq<T>, b: seq<T>, x: T)
    requires multiset(a + [x]) == multiset(b + [x])
    ensures multiset(a) == multiset(b)
  {
    assert multiset(a + [x]) == multiset{} + multiset(a) + multiset{x};
    assert multiset(b + [x]) == multiset{} + multiset(b) + multiset{x};
    SameMiddle(multiset{}, multiset(a), multiset(b), multiset{x});
  }

  lemma FromInside<T>(p: seq<T>, q: seq<T>, lo: int, hi: int, i: int)
    requires Shuffled(p, q, lo, hi) && 0 <= lo <= i <= hi < |p|
    ensures exists j :: lo <= j <= hi && q[i] == p[j]
  {
    SameInside(p, q, lo, hi);
    assert q[i] == q[lo..hi + 1][i - lo];
    assert q[i] in multiset(p[lo..hi + 1]);
    var k :| 0 <= k < hi + 1 - lo && p[lo..hi + 1][k] == q[i];
    assert p[lo + k] == q[i];
  }

  lemma Exchanged<T>(p: seq<T>, i: int, j: int, lo: int, hi: int)
    requires 0 <= lo <= i <= hi < |p| && lo <= j <= hi
    ensures Shuffled(p, p[i := p[j]][j := p[i]], lo, hi)
  {
    assert multiset(p[i := p[j]]) == multiset(p)[p[i] := multiset(p)[p[i]] - 1][p[j] := multiset(p[i := p[j]])[p[j]]];
  }

  /** The range below `l` is at most the pivot, the range above `h` at least. */
  ghost predicate Parted<T>(p: seq<T>, lo: int, l: int, h: int, hi: int, pivot: T, le: (T, T) -> bool) {
    && 0 <= lo <= l <= h + 1 <= hi + 1 <= |p|
    && (forall i :: lo <= i < l ==> le(p[i], pivot))
    && (forall i :: h < i <= hi ==> le(pivot, p[i]))
  }

  /** Sorting the lower range, which may reach the unclassified element, leaves the rest at most the pivot. */
  lemma LowerStays<T(!new)>(p: seq<T>, q: seq<T>, lo: int, l: int, h: int, hi: int, pivot: T, le: (T, T) -> bool)
    requires Preorder(le) && Parted(p, lo, l, h, hi, pivot, le) && lo <= h <= l
    requires Shuffled(p, q, lo, h) && Sorted(q, lo, h, le)
    ensures forall i :: lo <= i < l ==> le(q[i], pivot)
  {
    SameInside(p, q, lo, h);
    if l == h {
      var x := p[h];
      assert p[lo..h + 1] == p[lo..h] + [x] && q[lo..h + 1] == q[lo..h] + [q[h]];
      if q[h] == x {
        SameFront(p[lo..h], q[lo..h], x);
        forall i | lo <= i < h ensures le(q[i], pivot) { Among(p[lo..h], q[lo..h], i - lo); }
      } else {
        NotLast(p[lo..h], x, q[lo..h], q[h]);
        assert le(x, q[h]) && le(q[h], pivot);
        forall i | lo <= i < l ensures le(q[i], pivot) {
          FromInside(p, q, lo, h, i);
          var j :| lo <= j <= h && q[i] == p[j];
          assert j < h ==> le(p[j], pivot);
        }
      }
    } else {
      forall i | lo <= i < l ensures le(q[i], pivot) {
        FromInside(p, q, lo, h, i);
        var j :| lo <= j <= h && q[i] == p[j];
        assert le(p[j], pivot);
      }
    }
  }

  lemma Among<T>(a: seq<T>, b: seq<T>, k: nat)
    requires multiset(a) == multiset(b) && k < |b|
    ensures exists j :: 0 <= j < |a| && b[k] == a[j]
  {
    assert b[k] in multiset(a);
  }

  lemma NotLast<T>(a: seq<T>, x: T, b: seq<T>, y: T)
    requires multiset(a + [x]) == multiset(b + [y]) && x != y
    ensures (exists k :: 0 <= k < |b| && b[k] == x) && (exists k :: 0 <= k < |a| && a[k] == y)
  {
    assert x in multiset(a + [x]) && y in multiset(b + [y]);
    assert x in multiset(b) + multiset{y} && y in multiset(a) + multiset{x};
    assert x in b && y in a;
  }

  /** Two sorted ranges, one at most and one at least the pivot, that meet or share one element, make one. */
  lemma Together<T(!new)>(p: seq<T>, q: seq<T>, lo: int, l: int, h: int, hi: int, pivot: T, le: (T, T) -> bool)
    requires Preorder(le) && 0 <= lo <= l <= h + 1 <= hi + 1 <= |p| && h <= l
    requires Sorted(p, lo, h, le) && (forall i :: lo <= i < l ==> le(p[i], pivot))
    requires (forall i :: h < i <= hi ==> le(pivot, p[i]))
    requires Shuffled(p, q, l, hi) && Sorted(q, l, hi, le)
    ensures Sorted(q, lo, hi, le)
  {
    forall i, j | lo <= i <= j <= hi ensures le(q[i], q[j]) {
      if i < l && j >= l {
        FromInside(p, q, l, hi, j);
        var k :| l <= k <= hi && q[j] == p[k];
        assert q[i] == p[i];
        if k <= h { assert le(p[i], p[k]); } else { assert le(p[i], pivot) && le(pivot, p[k]); }
      } else if i < l {
        assert q[i] == p[i] && q[j] == p[j] && j <= h;
      }
    }
  }

  /** Exchange two elements. */
  method Swap<T>(a: array<T>, i: int, j: int, ghost lo: int, ghost hi: int)
    requires 0 <= lo <= i <= hi < a.Length && lo <= j <= hi
    modifies a
    ensures a[..] == old(a[..])[i := old(a[j])][j := old(a[i])] && Shuffled(old(a[..]), a[..], lo, hi)
  {
    Exchanged(a[..], i, j, lo, hi);
    var tmp := a[i];
    a[i] := a[j];
    a[j] := tmp;
  }

  /** With `x` put in the hole at `j`, these are the elements of `was`; those after the hole have moved up. */
  ghost predicate Hole<T>(was: seq<T>, p: seq<T>, lo: int, j: int, i: int, x: T, le: (T, T) -> bool) {
    && |p| == |was| && 0 <= lo <= j <= i < |p| && x == was[i]
    && (forall k :: 0 <= k < |p| && (k < j || k > i) ==> p[k] == was[k])
    && (forall k :: j < k <= i ==> p[k] == was[k - 1] && !le(was[k - 1], x))
  }

  lemma HoleFilled<T>(was: seq<T>, p: seq<T>, lo: int, j: int, i: int, hi: int, x: T, le: (T, T) -> bool)
    requires Hole(was, p, lo, j, i, x, le) && i <= hi < |p|
    ensures Shuffled(was, p[j := x], lo, hi)
  {
    var q := p[j := x];
    HolePieces(was, p, lo, j, i, x, le);
    InThree(was, j, i);
    InThree(q, j, i + 1);
    SameBag(was[..j], was[j..i], x, was[i..], was[i + 1..]);
  }

  /** An element taken from behind some others and put before them. */
  lemma SameBag<T>(a: seq<T>, b: seq<T>, x: T, c: seq<T>, d: seq<T>)
    requires c == [x] + d
    ensures multiset(a) + multiset(b) + multiset(c) == multiset(a) + multiset([x] + b) + multiset(d)
  {
    assert multiset(c) == multiset{x} + multiset(d);
    assert multiset([x] + b) == multiset{x} + multiset(b);
  }

  lemma HolePieces<T>(was: seq<T>, p: seq<T>, lo: int, j: int, i: int, x: T, le: (T, T) -> bool)
    requires Hole(was, p, lo, j, i, x, le)
    ensures var q := p[j := x]; q[..j] == was[..j] && q[j..i + 1] == [x] + was[j..i] && q[i + 1..] == was[i + 1..]
  {
  }

  lemma HoleSorted<T(!new)>(was: seq<T>, p: seq<T>, lo: int, j: int, i: int, x: T, le: (T, T) -> bool)
    requires Preorder(le) && Hole(was, p, lo, j, i, x, le) && Sorted(was, lo, i - 1, le)
    requires j > lo ==> le(was[j - 1], x)
    ensures Sorted(p[j := x], lo, i, le)
  {
    var q := p[j := x];
    forall m, n | lo <= m <= n <= i ensures le(q[m], q[n]) {
      assert m < j && j > lo ==> le(was[m], was[j - 1]);
      assert n > j ==> p[n] == was[n - 1] && le(x, was[n - 1]);
    }
  }

  /** Insert element `i` among the sorted ones before it. */
  method Insert<T(!new)>(a: array<T>, lo: int, i: int, ghost hi: int, le: (T, T) -> bool)
    requires Preorder(le) && 0 <= lo < i <= hi < a.Length && Sorted(a[..], lo, i - 1, le)
    modifies a
    ensures Sorted(a[..], lo, i, le) && Shuffled(old(a[..]), a[..], lo, hi)
  {
    ghost var was := a[..];
    var j := i;
    var tmp := a[i];
    while j - 1 >= lo && !le(a[j - 1], tmp)
      invariant Hole(was, a[..], lo, j, i, tmp, le)
      decreases j
    {
      a[j] := a[j - 1];
      j := j - 1;
    }
    HoleFilled(was, a[..], lo, j, i, hi, tmp, le);
    HoleSorted(was, a[..], lo, j, i, tmp, le);
    a[j] := tmp;
  }

  /** Insertion sort of a short range. */
  method InsertionSort<T(!new)>(a: array<T>, lo: int, hi: int, le: (T, T) -> bool)
    requires Preorder(le) && 0 <= lo < hi < a.Length
    modifies a
    ensures Sorted(a[..], lo, hi, le) && Shuffled(old(a[..]), a[..], lo, hi)
  {
    for i := lo + 1 to hi + 1
      invariant Sorted(a[..], lo, i - 1, le) && Shuffled(old(a[..]), a[..], lo, hi)
    {
      ghost var p := a[..];
      Insert(a, lo, i, hi, le);
      ShuffledTransitive(old(a[..]), p, a[..], lo, hi, lo, hi);
    }
  }

  /** The element in the middle of three: at least two of the three places are at most it, two at least. */
  ghost predicate IsMedian<T>(p: seq<T>, i: int, j: int, k: int, m: T, le: (T, T) -> bool) {
    && 0 <= i < j < k < |p| && (m == p[i] || m == p[j] || m == p[k])
    && ((le(p[i], m) && le(p[j], m)) || (le(p[i], m) && le(p[k], m)) || (le(p[j], m) && le(p[k], m)))
    && ((le(m, p[i]) && le(m, p[j])) || (le(m, p[i]) && le(m, p[k])) || (le(m, p[j]) && le(m, p[k])))
  }

  method Pivot<T(!new)>(a: array<T>, lo: int, hi: int, le: (T, T) -> bool) returns (pivot: T)
    requires Preorder(le) && 0 <= lo && lo + 1 < hi < a.Length
    ensures IsMedian(a[..], lo, (lo + hi) / 2, hi, pivot, le)
  {
    var tmp := a[lo];
    pivot := a[(lo + hi) / 2];
    if le(pivot, tmp) { tmp, pivot := pivot, a[lo]; }
    if le(a[hi], tmp) { pivot := tmp; } else if le(a[hi], pivot) { pivot := a[hi]; }
  }

  /**
   The state of the partition: `l` and `h` have passed the classified elements.
   Somewhere up to `p` there is an element to stop `l`, and from `q` on one to stop `h`;
   before the first exchange these are the places the pivot came from.
   */
  ghost predicate Partitioning<T>(a: seq<T>, lo: int, l: int, h: int, hi: int, pivot: T, le: (T, T) -> bool) {
    && Parted(a, lo, l, h, hi, pivot, le)
    && (if l == lo && h == hi then
          (exists i, j :: lo <= i < j <= hi && le(a[i], pivot) && le(a[j], pivot)) &&
          (exists i, j :: lo <= i < j <= hi && le(pivot, a[i]) && le(pivot, a[j]))
        else lo < l && h < hi)
  }

  lemma MedianStarts<T(!new)>(a: seq<T>, lo: int, hi: int, pivot: T, le: (T, T) -> bool)
    requires Preorder(le) && 0 <= lo && lo + 1 < hi < |a| && IsMedian(a, lo, (lo + hi) / 2, hi, pivot, le)
    ensures Partitioning(a, lo, lo, hi, hi, pivot, le)
  {
  }

  /** Move `l` up to an element that is at least the pivot. */
  method ScanUp<T(!new)>(a: array<T>, lo: int, from: int, h: int, hi: int, pivot: T, le: (T, T) -> bool)
    returns (l: int)
    requires Preorder(le) && hi < a.Length && Partitioning(a[..], lo, from, h, hi, pivot, le) && from < h
    ensures from <= l <= h + 1 && l <= hi && le(pivot, a[l]) && forall i :: lo <= i < l ==> le(a[i], pivot)
    ensures from == lo && h == hi ==> l < hi
  {
    l := from;
    while !le(pivot, a[l])
      invariant from <= l <= h + 1 && l <= hi
      invariant forall i :: from <= i < l ==> !le(pivot, a[..][i])
      invariant from == lo && h == hi ==> l < hi
      decreases hi - l
    {
      l := l + 1;
    }
    forall i | lo <= i < l ensures le(a[i], pivot) {
      assert i >= from ==> !le(pivot, a[..][i]);
      assert i < from ==> le(a[..][i], pivot);
    }
  }

  /** Move `h` down to an element that is at most the pivot. */
  method ScanDown<T(!new)>(a: array<T>, lo: int, l: int, from: int, hi: int, pivot: T, le: (T, T) -> bool,
                    ghost first: bool)
    returns (h: int)
    requires Preorder(le) && 0 <= lo <= l <= from + 1 && from <= hi && l <= hi < a.Length
    requires (forall i :: lo <= i < l ==> le(a[i], pivot)) && (forall i :: from < i <= hi ==> le(pivot, a[i]))
    requires le(pivot, a[l]) && (first ==> from == hi && Twice(a[..], lo, hi, pivot, le)) && (!first ==> lo < l)
    ensures l - 1 <= h <= from && lo <= h && le(a[h], pivot) && forall i :: h < i <= hi ==> le(pivot, a[i])
    ensures first ==> lo < h
  {
    h := from;
    while !le(a[h], pivot)
      invariant l - 1 <= h <= from && lo <= h
      invariant forall i :: h < i <= from ==> !le(a[..][i], pivot)
      invariant first ==> lo < h
      decreases h
    {
      h := h - 1;
    }
    forall i | h < i <= hi ensures le(pivot, a[i]) {
      assert i <= from ==> !le(a[..][i], pivot);
    }
  }

  /** Two places of the range hold elements at most the pivot. */
  ghost predicate Twice<T>(a: seq<T>, lo: int, hi: int, pivot: T, le: (T, T) -> bool) {
    0 <= lo && hi < |a| && exists i, j :: lo <= i < j <= hi && le(a[i], pivot) && le(a[j], pivot)
  }

  /** Partition a range about the median of three of its elements: both ranges left to sort are shorter. */
  method Partition<T(!new)>(a: array<T>, lo: int, hi: int, le: (T, T) -> bool) returns (l: int, h: int, ghost pivot: T)
    requires Preorder(le) && 0 <= lo && lo + 1 < hi < a.Length
    modifies a
    ensures Parted(a[..], lo, l, h, hi, pivot, le) && Shuffled(old(a[..]), a[..], lo, hi)
    ensures lo <= h <= l <= hi && h < hi && lo < l
  {
    var v := Pivot(a, lo, hi, le);
    pivot := v;
    MedianStarts(a[..], lo, hi, v, le);
    l, h := lo, hi;
    while l < h
      invariant Partitioning(a[..], lo, l, h, hi, v, le) && Shuffled(old(a[..]), a[..], lo, hi)
      invariant lo <= h && l <= hi && (l >= h ==> lo < l && h < hi)
      decreases h - l + 1
    {
      ghost var p := a[..];
      l, h := PartitionStep(a, lo, l, h, hi, v, le);
      ShuffledTransitive(old(a[..]), p, a[..], lo, hi, lo, hi);
    }
  }

  /** Both scans, and an exchange unless they have met. */
  method PartitionStep<T(!new)>(a: array<T>, lo: int, from: int, to: int, hi: int, pivot: T, le: (T, T) -> bool)
    returns (l: int, h: int)
    requires Preorder(le) && Partitioning(a[..], lo, from, to, hi, pivot, le) && from < to
    modifies a
    ensures Partitioning(a[..], lo, l, h, hi, pivot, le) && Shuffled(old(a[..]), a[..], lo, hi)
    ensures lo <= h && l <= hi && (l >= h ==> lo < l && h < hi) && h - l < to - from
  {
    ghost var first := from == lo && to == hi;
    l := ScanUp(a, lo, from, to, hi, pivot, le);
    h := ScanDown(a, lo, l, to, hi, pivot, le, first);
    if l < h {
      Swap(a, l, h, lo, hi);
      l := l + 1;
      h := h - 1;
    }
  }

  /** Sort a range of an array. */
  method Sort<T(!new)>(a: array<T>, lo: int, hi: int, le: (T, T) -> bool)
    requires Preorder(le) && 0 <= lo && hi < a.Length
    modifies a
    ensures Sorted(a[..], lo, hi, le) && Shuffled(old(a[..]), a[..], lo, hi)
    decreases hi - lo + 1
  {
    if hi <= lo { return; }
    if hi <= lo + 20 {
      InsertionSort(a, lo, hi, le);
      return;
    }
    var l, h, pivot := Partition(a, lo, hi, le);
    ghost var p := a[..];
    Sort(a, lo, h, le);
    ghost var q := a[..];
    LowerStays(p, q, lo, l, h, hi, pivot, le);
    ShuffledTransitive(old(a[..]), p, q, lo, hi, lo, h);
    Sort(a, l, hi, le);
    Together(q, a[..], lo, l, h, hi, pivot, le);
    ShuffledTransitive(old(a[..]), q, a[..], lo, hi, l, hi);
  }
}
