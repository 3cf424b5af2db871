/**
 The order the block sorter establishes. A block is a sequence of bytes whose
 last element stands for the end marker; the marker is below every byte, a
 data byte 0 included, and occurs once.
 */
module SuffixOrder {

  ghost predicate IsBlock(s: seq<int>) {
    |s| > 0 && forall i :: 0 <= i < |s| ==> 0 <= s[i] < 256
  }

  /** Symbol number `j` of the suffix that starts at `p`; the marker and everything past it is -1. */
  ghost function Sym(s: seq<int>, p: int, j: int): int {
    if 0 <= p + j < |s| - 1 then s[p + j] else -1
  }

  /** The suffixes at `p` and `q` agree on their first `d` symbols. */
  ghost predicate Same(s: seq<int>, p: int, q: int, d: int) {
    forall j :: 0 <= j < d ==> Sym(s, p, j) == Sym(s, q, j)
  }

  ghost predicate LessAt(s: seq<int>, p: int, q: int, k: int) {
    0 <= k && Same(s, p, q, k) && Sym(s, p, k) < Sym(s, q, k)
  }

  /** The suffix at `p` strictly precedes the suffix at `q`. */
  ghost predicate Less(s: seq<int>, p: int, q: int) {
    exists k :: LessAt(s, p, q, k)
  }

  /** Two different suffixes can only agree on symbols before the marker. */
  lemma SameEnds(s: seq<int>, p: int, q: int, d: nat)
    requires IsBlock(s) && 0 <= p < |s| && 0 <= q < |s| && p != q
    requires Same(s, p, q, d)
    ensures p + d < |s| && q + d < |s|
  {
    var k := |s| - 1 - (if p < q then q else p);
    assert Sym(s, p, k) != Sym(s, q, k);
  }

  lemma SameShift(s: seq<int>, p: int, q: int, d: nat, e: nat)
    requires 0 <= p && 0 <= q && Same(s, p, q, d)
    ensures Same(s, p + d, q + d, e) <==> Same(s, p, q, d + e)
  {
    if Same(s, p + d, q + d, e) {
      forall j | 0 <= j < d + e ensures Sym(s, p, j) == Sym(s, q, j) {
        if j >= d {
          assert Sym(s, p + d, j - d) == Sym(s, q + d, j - d);
        }
      }
    }
    if Same(s, p, q, d + e) {
      forall j {:trigger Sym(s, p + d, j)} | 0 <= j < e ensures Sym(s, p + d, j) == Sym(s, q + d, j) {
        assert Sym(s, p, d + j) == Sym(s, q, d + j);
      }
    }
  }

  /** Equal prefixes do not matter to the order. */
  lemma LessShift(s: seq<int>, p: int, q: int, d: nat)
    requires 0 <= p && 0 <= q && Same(s, p, q, d)
    ensures Less(s, p + d, q + d) <==> Less(s, p, q)
  {
    if Less(s, p + d, q + d) {
      var k :| LessAt(s, p + d, q + d, k);
      SameShift(s, p, q, d, k);
      assert LessAt(s, p, q, d + k);
    }
    if Less(s, p, q) {
      var k :| LessAt(s, p, q, k);
      assert Sym(s, p, k) != Sym(s, q, k);
      SameShift(s, p, q, d, k - d);
      assert LessAt(s, p + d, q + d, k - d);
    }
  }

  lemma LessAsymmetric(s: seq<int>, p: int, q: int)
    requires Less(s, p, q)
    ensures !Less(s, q, p) && p != q
  {
    var k :| LessAt(s, p, q, k);
    forall m ensures !LessAt(s, q, p, m) {
      assert Sym(s, p, k) < Sym(s, q, k);
    }
  }

  lemma LessTransitive(s: seq<int>, p: int, q: int, r: int)
    requires Less(s, p, q) && Less(s, q, r)
    ensures Less(s, p, r)
  {
    var k :| LessAt(s, p, q, k);
    var m :| LessAt(s, q, r, m);
    var t := if k < m then k else m;
    assert Same(s, p, r, t);
    if k < m {
      assert Sym(s, q, k) == Sym(s, r, k);
    } else if m < k {
      assert Sym(s, p, m) == Sym(s, q, m);
    }
    assert LessAt(s, p, r, t);
  }

  /** Different suffixes are always comparable, because the marker occurs once. */
  lemma LessTotal(s: seq<int>, p: int, q: int)
    requires IsBlock(s) && 0 <= p < |s| && 0 <= q < |s| && p != q
    ensures Less(s, p, q) || Less(s, q, p)
  {
    var k := 0;
    while Sym(s, p, k) == Sym(s, q, k)
      invariant 0 <= k && Same(s, p, q, k)
      decreases |s| - p - k
    {
      k := k + 1;
      SameEnds(s, p, q, k);
    }
    assert LessAt(s, p, q, k) || LessAt(s, q, p, k);
  }

  /** The order on the first `d` symbols only. */
  ghost predicate LessBy(s: seq<int>, p: int, q: int, d: int) {
    exists k :: k < d && LessAt(s, p, q, k)
  }

  ghost predicate NotAfter(s: seq<int>, p: int, q: int, d: int) {
    LessBy(s, p, q, d) || Same(s, p, q, d)
  }

  lemma LessByTransitive(s: seq<int>, p: int, q: int, r: int, d: int)
    requires NotAfter(s, p, q, d) && NotAfter(s, q, r, d)
    ensures NotAfter(s, p, r, d)
    ensures LessBy(s, p, q, d) || LessBy(s, q, r, d) ==> LessBy(s, p, r, d)
  {
    if LessBy(s, p, q, d) {
      var k :| k < d && LessAt(s, p, q, k);
      if LessBy(s, q, r, d) {
        var m :| m < d && LessAt(s, q, r, m);
        var t := if k < m then k else m;
        assert LessAt(s, p, r, t);
      } else {
        assert LessAt(s, p, r, k);
      }
    } else if LessBy(s, q, r, d) {
      var m :| m < d && LessAt(s, q, r, m);
      assert LessAt(s, p, r, m);
    }
  }

  /** On the whole block, `LessBy` is the suffix order. */
  lemma LessByAll(s: seq<int>, p: int, q: int)
    requires IsBlock(s) && 0 <= p < |s| && 0 <= q < |s| && p != q
    ensures Less(s, p, q) <==> LessBy(s, p, q, |s|)
    ensures Less(s, p, q) <==> NotAfter(s, p, q, |s|)
  {
    if Less(s, p, q) {
      var k :| LessAt(s, p, q, k);
      assert k < |s|;
    }
    if Same(s, p, q, |s|) {
      SameEnds(s, p, q, |s|);
    }
  }

  /** The byte `j` places after `p`, zero past the end: what a comparison by data reads. */
  ghost function Byte(s: seq<int>, p: int, j: int): int {
    if 0 <= p + j < |s| then s[p + j] else 0
  }

  ghost predicate SameBytes(s: seq<int>, p: int, q: int, d: int) {
    forall j :: 0 <= j < d ==> Byte(s, p, j) == Byte(s, q, j)
  }

  /** The block ends in the zero byte that stands for the marker. */
  ghost predicate IsMarked(s: seq<int>) {
    IsBlock(s) && s[|s| - 1] == 0
  }

  lemma SameGivesBytes(s: seq<int>, p: int, q: int, d: nat)
    requires IsMarked(s) && 0 <= p < |s| && 0 <= q < |s| && p != q && Same(s, p, q, d)
    ensures SameBytes(s, p, q, d)
  {
    SameEnds(s, p, q, d);
    forall j | 0 <= j < d ensures Byte(s, p, j) == Byte(s, q, j) {
      assert Sym(s, p, j) == Sym(s, q, j);
    }
  }

  /** Bytes that agree and run into the marker first on the side of `q` put `q` first. */
  lemma MarkerDecides(s: seq<int>, p: int, q: int, d: nat)
    requires IsMarked(s) && 0 <= p < q < |s| && SameBytes(s, p, q, |s| - 1 - q) && |s| - 1 - q < d
    ensures LessBy(s, q, p, d)
  {
    var e := |s| - 1 - q;
    forall j | 0 <= j < e ensures Sym(s, q, j) == Sym(s, p, j) {
      assert Byte(s, p, j) == Byte(s, q, j);
    }
    assert LessAt(s, q, p, e);
  }

  /** The first different byte decides the order, although the marker reads as a byte. */
  lemma BytesDecide(s: seq<int>, p: int, q: int, d: nat)
    requires IsMarked(s) && 0 <= p < |s| && 0 <= q < |s| && p != q
    requires SameBytes(s, p, q, d) && Byte(s, p, d) < Byte(s, q, d)
    ensures LessBy(s, p, q, d + 1)
  {
    if |s| - 1 - p <= d && q < p {
      MarkerDecides(s, q, p, d + 1);
    } else {
      forall j | 0 <= j < d ensures Sym(s, p, j) == Sym(s, q, j) {
        assert Byte(s, p, j) == Byte(s, q, j);
      }
      assert LessAt(s, p, q, d);
    }
  }

  lemma BytesGiveSame(s: seq<int>, p: int, q: int, d: nat)
    requires IsMarked(s) && 0 <= p && 0 <= q && p + d < |s| && q + d < |s| && SameBytes(s, p, q, d)
    ensures Same(s, p, q, d)
  {
    forall j | 0 <= j < d ensures Sym(s, p, j) == Sym(s, q, j) {
      assert Byte(s, p, j) == Byte(s, q, j);
    }
  }

  lemma LessByWeaken(s: seq<int>, p: int, q: int, d: int, e: int)
    requires LessBy(s, p, q, d) && d <= e
    ensures LessBy(s, p, q, e)
  {
    var k :| k < d && LessAt(s, p, q, k);
    assert k < e && LessAt(s, p, q, k);
  }

  lemma LessByIsLess(s: seq<int>, p: int, q: int, d: int)
    requires LessBy(s, p, q, d)
    ensures Less(s, p, q)
  {
    var k :| k < d && LessAt(s, p, q, k);
  }

  lemma LessByAsymmetric(s: seq<int>, p: int, q: int, d: int)
    requires LessBy(s, p, q, d)
    ensures !LessBy(s, q, p, d) && !Same(s, q, p, d)
  {
    var k :| k < d && LessAt(s, p, q, k);
    assert Sym(s, p, k) < Sym(s, q, k);
    LessAsymmetric(s, p, q);
  }
}
