/**
 The block-sorting transform as a value: the sorted list of suffixes, the
 column of the bytes that precede them, and the place of the marker in it.
 */
module Transform {
  import opened SuffixOrder
  import opened Permutation

  /** `p` lists the suffixes of `s` in strict order. */
  ghost predicate IsSuffixArray(s: seq<int>, p: seq<int>) {
    && |p| == |s| && IsPerm(p)
    && forall i, j :: 0 <= i < j < |p| ==> RowsInOrder(s, p, i, j)
  }

  ghost predicate RowsInOrder(s: seq<int>, p: seq<int>, i: int, j: int)
    requires 0 <= i < |p| && 0 <= j < |p|
  {
    Less(s, p[i], p[j])
  }

  /** The byte before each suffix; zero stands in for the byte before the first. */
  ghost function Column(s: seq<int>, p: seq<int>): (c: seq<int>)
    requires |p| == |s|
    ensures |c| == |s|
    ensures forall i :: 0 <= i < |s| && 0 <= p[i] < |s| ==> c[i] == if p[i] > 0 then s[p[i] - 1] else 0
  {
    seq(|s|, i requires 0 <= i < |s| => if 0 < p[i] <= |s| then s[p[i] - 1] else 0)
  }

  /** A column consists of bytes. */
  ghost predicate IsColumn(column: seq<int>) {
    forall i :: 0 <= i < |column| ==> 0 <= column[i] < 256
  }

  /** `column`, with the marker at `m`, is the transform of `s`. */
  ghost predicate IsTransform(s: seq<int>, column: seq<int>, m: int) {
    exists p :: IsSuffixArray(s, p) && TransformBy(s, p, column, m)
  }

  ghost predicate TransformBy(s: seq<int>, p: seq<int>, column: seq<int>, m: int)
    requires |p| == |s|
  {
    column == Column(s, p) && 0 <= m < |s| && p[m] == 0
  }

  /** A list of all suffixes in which no suffix comes after its neighbour is in strict order throughout. */
  lemma NeighboursSuffice(s: seq<int>, p: seq<int>)
    requires IsBlock(s) && |p| == |s| && IsPerm(p)
    requires forall i :: 0 < i < |p| ==> !Less(s, p[i], p[i - 1])
    ensures IsSuffixArray(s, p)
  {
    forall i, j | 0 <= i < j < |p| ensures RowsInOrder(s, p, i, j) {
      RowsBetween(s, p, i, j);
    }
  }

  lemma {:induction false} RowsBetween(s: seq<int>, p: seq<int>, i: nat, j: nat)
    requires IsBlock(s) && |p| == |s| && IsPerm(p) && i < j < |p|
    requires forall k :: 0 < k < |p| ==> !Less(s, p[k], p[k - 1])
    ensures Less(s, p[i], p[j])
    decreases j
  {
    LessTotal(s, p[j], p[j - 1]);
    if i + 1 < j {
      RowsBetween(s, p, i, j - 1);
      LessTransitive(s, p[i], p[j - 1], p[j]);
    }
  }

  /** A block has one suffix array. */
  lemma SuffixArrayUnique(s: seq<int>, p: seq<int>, q: seq<int>)
    requires IsSuffixArray(s, p) && IsSuffixArray(s, q)
    ensures p == q
  {
    SameRows(s, p, q, |p|);
  }

  lemma {:induction false} SameRows(s: seq<int>, p: seq<int>, q: seq<int>, n: nat)
    requires IsSuffixArray(s, p) && IsSuffixArray(s, q) && n <= |p|
    ensures p[..n] == q[..n]
  {
    if n > 0 {
      var i := n - 1;
      SameRows(s, p, q, i);
      if p[i] != q[i] {
        var j, k := RowBehind(p, q, i), RowBehind(q, p, i);
        assert RowsInOrder(s, q, i, j) && RowsInOrder(s, p, i, k);
        LessAsymmetric(s, p[i], q[i]);
        assert false;
      }
      assert p[..n] == p[..i] + [p[i]] && q[..n] == q[..i] + [q[i]];
    }
  }

  /** The first row that differs comes further behind in the other list. */
  ghost function RowBehind(p: seq<int>, q: seq<int>, i: nat): (j: nat)
    requires IsPerm(p) && IsPerm(q) && |p| == |q| && i < |p| && p[..i] == q[..i] && p[i] != q[i]
    ensures i < j < |q| && q[j] == p[i]
  {
    var j := IndexOf(q, p[i]);
    assert j < i ==> q[..i][j] == p[..i][j];
    j
  }

  /** So the transform is a function of the block. */
  lemma TransformUnique(s: seq<int>, c: seq<int>, d: seq<int>, m: int, n: int)
    requires IsTransform(s, c, m) && IsTransform(s, d, n)
    ensures c == d && m == n
  {
    var p :| IsSuffixArray(s, p) && TransformBy(s, p, c, m);
    var q :| IsSuffixArray(s, q) && TransformBy(s, q, d, n);
    SuffixArrayUnique(s, p, q);
    assert Injective(p);
  }
}
