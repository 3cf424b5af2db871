/**
 Undoing the block-sorting transform. Row `i` of the sorted block holds the
 byte before the `i`-th suffix; a stable count of these bytes leads from the
 row of a suffix to the row of the suffix that starts one byte earlier.
 */
module Inverse {
  import opened SuffixOrder
  import opened Permutation
  import opened StableSort
  import opened Transform

  /** The column with the marker made visible. */
  ghost function MarkedColumn(column: seq<int>, m: int): seq<int>
    requires 0 <= m < |column|
  {
    column[m := -1]
  }

  /** The start of the suffix one byte longer; from the whole block on to the marker itself. */
  ghost function Before(s: seq<int>, q: int): int
    requires 0 <= q < |s|
  {
    if q > 0 then q - 1 else |s| - 1
  }

  ghost predicate SameOrder(a: seq<int>, b: seq<int>) {
    |a| == |b| && forall i, j :: 0 <= i < |a| && 0 <= j < |a| && a[i] < a[j] ==> b[i] < b[j]
  }

  /** Two permutations that order the indices alike agree on the `v` smallest. */
  lemma {:induction false} AgreeBelow(a: seq<int>, b: seq<int>, v: nat)
    requires IsPerm(a) && IsPerm(b) && SameOrder(a, b) && v <= |a|
    ensures forall i :: 0 <= i < |a| && a[i] < v ==> b[i] == a[i]
  {
    if v > 0 {
      var u := v - 1;
      AgreeBelow(a, b, u);
      var x, y := IndexOf(a, u), IndexOf(b, u);
      NotTaken(a, b, u, x);
      NotTaken(b, a, u, y);
      assert b[x] == u by { assert a[y] > u || x == y; }
      forall i | 0 <= i < |a| && a[i] < v ensures b[i] == a[i] {
        if a[i] == u { assert i == x; }
      }
    }
  }

  /** An index with value `u` in one permutation has at least `u` in one that agrees below `u`. */
  lemma NotTaken(a: seq<int>, b: seq<int>, u: int, x: int)
    requires IsPerm(a) && IsPerm(b) && |a| == |b| && 0 <= x < |a| && a[x] == u
    requires forall i :: 0 <= i < |a| && a[i] < u ==> b[i] == a[i]
    ensures b[x] >= u
    ensures forall i :: 0 <= i < |a| && b[i] < u ==> a[i] == b[i]
  {
    forall i | 0 <= i < |a| && b[i] < u ensures a[i] == b[i] {
      var z := IndexOf(a, b[i]);
    }
  }

  lemma PermsAgree(a: seq<int>, b: seq<int>)
    requires IsPerm(a) && IsPerm(b) && SameOrder(a, b)
    ensures a == b
  {
    AgreeBelow(a, b, |a|);
  }

  /** In a suffix array, order of suffixes and order of rows are the same. */
  lemma RowOrder(s: seq<int>, p: seq<int>, i: int, j: int)
    requires IsSuffixArray(s, p) && 0 <= i < |p| && 0 <= j < |p|
    ensures Less(s, p[i], p[j]) <==> i < j
  {
    assert i < j ==> RowsInOrder(s, p, i, j);
    if Less(s, p[i], p[j]) {
      LessAsymmetric(s, p[i], p[j]);
      assert j < i ==> RowsInOrder(s, p, j, i);
    }
  }

  /** The rows of the suffixes one byte longer. */
  ghost function Rows(s: seq<int>, p: seq<int>): (t: seq<int>)
    requires IsSuffixArray(s, p)
    ensures |t| == |p|
    ensures forall i {:trigger t[i]} :: 0 <= i < |p| ==> 0 <= t[i] < |p| && p[t[i]] == Before(s, p[i])
  {
    seq(|p|, i requires 0 <= i < |p| => IndexOf(p, Before(s, p[i])))
  }

  lemma RowsPerm(s: seq<int>, p: seq<int>)
    requires IsSuffixArray(s, p)
    ensures IsPerm(Rows(s, p))
  {
    var t := Rows(s, p);
    forall i, j | 0 <= i < j < |t| ensures t[i] != t[j] {
      assert p[i] != p[j];
      assert p[t[i]] == Before(s, p[i]) && p[t[j]] == Before(s, p[j]);
    }
  }

  /** Smaller byte, or same byte and earlier row: the longer suffix is earlier too. */
  lemma LongerOrder(s: seq<int>, p: seq<int>, column: seq<int>, m: int, i: int, j: int)
    requires IsMarked(s) && IsSuffixArray(s, p) && TransformBy(s, p, column, m)
    requires 0 <= i < |p| && 0 <= j < |p|
    requires var k := MarkedColumn(column, m); k[i] < k[j] || (k[i] == k[j] && i < j)
    ensures Rows(s, p)[i] < Rows(s, p)[j]
  {
    var k, t := MarkedColumn(column, m), Rows(s, p);
    MarkedSym(s, p, column, m, i);
    MarkedSym(s, p, column, m, j);
    var a, b := Before(s, p[i]), Before(s, p[j]);
    if k[i] < k[j] {
      assert LessAt(s, a, b, 0);
    } else {
      assert i != m && j != m;
      assert Same(s, a, b, 1);
      RowOrder(s, p, i, j);
      LessShift(s, a, b, 1);
    }
    RowOrder(s, p, t[i], t[j]);
  }

  /** The marked column is the first symbol of the suffix one byte longer. */
  lemma MarkedSym(s: seq<int>, p: seq<int>, column: seq<int>, m: int, i: int)
    requires IsMarked(s) && IsSuffixArray(s, p) && TransformBy(s, p, column, m) && 0 <= i < |p|
    ensures MarkedColumn(column, m)[i] == Sym(s, Before(s, p[i]), 0)
    ensures MarkedColumn(column, m)[i] == -1 <==> i == m
    ensures i == m <==> p[i] == 0
  {
    assert i != m ==> p[i] != p[m];
  }

  /** The slots of the marked column are the rows of the longer suffixes. */
  lemma SlotsAreRows(s: seq<int>, p: seq<int>, column: seq<int>, m: int)
    requires IsMarked(s) && IsSuffixArray(s, p) && TransformBy(s, p, column, m)
    ensures Slots(MarkedColumn(column, m)) == Rows(s, p)
  {
    var k := MarkedColumn(column, m);
    var a, b := Slots(k), Rows(s, p);
    SlotsPerm(k);
    RowsPerm(s, p);
    forall i, j | 0 <= i < |a| && 0 <= j < |a| && a[i] < a[j] ensures b[i] < b[j] {
      if k[j] < k[i] || (k[i] == k[j] && j < i) { SlotOrder(k, j, i); }
      LongerOrder(s, p, column, m, i, j);
    }
    PermsAgree(a, b);
  }

  /** One step of the walk; the marker's row was left zero, which leads to row 1. */
  ghost function Next(column: seq<int>, m: int, i: int): int
    requires 0 <= m < |column| && 0 <= i < |column|
  {
    if i == m then 1 else Slot(MarkedColumn(column, m), i)
  }

  /** The row reached after `k` steps from the first. */
  ghost function Walk(column: seq<int>, m: int, k: nat): (i: int)
    requires 1 <= m < |column|
    ensures 0 <= i < |column|
  {
    if k == 0 then 0
    else
      var i := Walk(column, m, k - 1);
      SlotBounds(MarkedColumn(column, m), i);
      Next(column, m, i)
  }

  /** The first row holds the suffix of the marker alone. */
  lemma FirstRow(s: seq<int>, p: seq<int>, column: seq<int>, m: int)
    requires IsMarked(s) && IsSuffixArray(s, p) && TransformBy(s, p, column, m)
    ensures p[0] == |s| - 1
  {
    SlotsAreRows(s, p, column, m);
    var keys := MarkedColumn(column, m);
    forall i | 0 <= i < |s| && i != m ensures keys[i] >= 0 { MarkedSym(s, p, column, m, i); }
    MarkerSlot(keys, m);
    assert Slots(keys)[m] == Rows(s, p)[m];
  }

  lemma MarkerSlot(keys: seq<int>, m: int)
    requires 0 <= m < |keys| && keys[m] == -1
    requires forall j :: 0 <= j < |keys| && j != m ==> keys[j] >= 0
    ensures Slot(keys, m) == 0
  {
    NothingBelowMarker(keys, |keys|, m);
    NothingBelowMarker(keys, m, m);
  }

  /** A step leads to the suffix one byte longer. */
  lemma NextRow(s: seq<int>, p: seq<int>, column: seq<int>, m: int, i: int)
    requires IsMarked(s) && IsSuffixArray(s, p) && TransformBy(s, p, column, m)
    requires 0 <= i < |s| && p[i] > 0
    ensures var j := Next(column, m, i); 0 <= j < |s| && p[j] == p[i] - 1
  {
    SlotsAreRows(s, p, column, m);
    MarkedSym(s, p, column, m, i);
    assert Slots(MarkedColumn(column, m))[i] == Rows(s, p)[i];
  }

  /** On a transform the walk meets the suffixes from the shortest to the longest. */
  lemma {:induction false} WalkRows(s: seq<int>, p: seq<int>, column: seq<int>, m: int, k: nat)
    requires IsMarked(s) && IsSuffixArray(s, p) && TransformBy(s, p, column, m) && 1 <= m && k < |s|
    ensures p[Walk(column, m, k)] == |s| - 1 - k
  {
    if k == 0 {
      FirstRow(s, p, column, m);
    } else {
      WalkRows(s, p, column, m, k - 1);
      NextRow(s, p, column, m, Walk(column, m, k - 1));
    }
  }

  lemma {:induction false} NothingBelowMarker(keys: seq<int>, i: nat, m: int)
    requires i <= |keys| && 0 <= m < |keys| && keys[m] == -1
    requires forall j :: 0 <= j < |keys| && j != m ==> keys[j] >= 0
    ensures CountBelow(keys, i, -1) == 0
    ensures i <= m ==> Count(keys, i, -1) == 0
    ensures CountBelow(keys, i, 0) == if m < i then 1 else 0
  {
    if i > 0 { NothingBelowMarker(keys, i - 1, m); }
  }

  /** The byte the walk reads in a row. */
  ghost function RowByte(column: seq<int>, m: int, i: int): int
    requires 0 <= i < |column|
  {
    if i == m then 0 else column[i]
  }

  /** What the walk writes, for any column: the bytes of its rows, from the end of the block to its start. */
  ghost predicate Unsorted(column: seq<int>, m: int, bytes: seq<int>)
    requires 1 <= m < |column|
  {
    |bytes| == |column| - 1 &&
    forall k :: 0 <= k < |bytes| ==> bytes[|bytes| - 1 - k] == RowByte(column, m, Walk(column, m, k))
  }

  /** The place of the marker in a transform of at least one byte is never the first row. */
  lemma MarkerNotFirst(s: seq<int>, p: seq<int>, m: int)
    requires IsMarked(s) && IsSuffixArray(s, p) && |s| >= 2 && 0 <= m < |s| && p[m] == 0
    ensures m >= 1
  {
    assert LessAt(s, |s| - 1, 0, 0);
    var j := IndexOf(p, |s| - 1);
    RowOrder(s, p, j, m);
  }

  /** In step `k` the walk reads the `k`-th byte from the end. */
  lemma WalkByte(s: seq<int>, p: seq<int>, column: seq<int>, m: int, k: nat)
    requires IsMarked(s) && IsSuffixArray(s, p) && TransformBy(s, p, column, m) && 1 <= m && k < |s| - 1
    ensures RowByte(column, m, Walk(column, m, k)) == s[|s| - 2 - k]
  {
    WalkRows(s, p, column, m, k);
    MarkedSym(s, p, column, m, Walk(column, m, k));
  }

  /** The walk over a transform ends at the marker. */
  lemma WalkEnds(s: seq<int>, p: seq<int>, column: seq<int>, m: int)
    requires IsMarked(s) && IsSuffixArray(s, p) && TransformBy(s, p, column, m) && 1 <= m
    ensures Walk(column, m, |s| - 1) == m
  {
    var k := |s| - 1;
    var i := Walk(column, m, k);
    WalkRows(s, p, column, m, k);
    assert p[i] == 0;
    MarkedSym(s, p, column, m, i);
  }

  /** The walk over a transform restores the block and ends at the marker. */
  lemma TransformInverse(s: seq<int>, column: seq<int>, m: int, bytes: seq<int>)
    requires IsMarked(s) && |s| >= 2 && IsTransform(s, column, m)
    ensures 1 <= m < |column| && |column| == |s|
    ensures Walk(column, m, |s| - 1) == m
    ensures Unsorted(column, m, bytes) <==> bytes == s[..|s| - 1]
  {
    var p :| IsSuffixArray(s, p) && TransformBy(s, p, column, m);
    MarkerNotFirst(s, p, m);
    WalkEnds(s, p, column, m);
    forall k | 0 <= k < |s| - 1 ensures RowByte(column, m, Walk(column, m, k)) == s[|s| - 2 - k] {
      WalkByte(s, p, column, m, k);
    }
    UnsortedIs(s, column, m, bytes);
  }

  lemma UnsortedIs(s: seq<int>, column: seq<int>, m: int, bytes: seq<int>)
    requires 1 <= m < |column| == |s|
    requires forall k :: 0 <= k < |s| - 1 ==> RowByte(column, m, Walk(column, m, k)) == s[|s| - 2 - k]
    ensures Unsorted(column, m, bytes) <==> bytes == s[..|s| - 1]
  {
    var n := |s| - 1;
    if Unsorted(column, m, bytes) {
      forall i | 0 <= i < n ensures bytes[i] == s[i] {
        assert RowByte(column, m, Walk(column, m, n - 1 - i)) == s[i];
      }
    }
  }
}
