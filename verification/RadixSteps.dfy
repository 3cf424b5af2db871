/** The value-level facts behind the two radix sorts. */
module RadixSteps {
  import opened SuffixOrder
  import opened Permutation
  import opened Buckets
  import opened RankState
  import opened Words
  import opened StableSort

  /** The first symbols, the marker being -1. */
  ghost function Keys8(s: seq<int>): (k: seq<int>)
    ensures |k| == |s| && forall i :: 0 <= i < |s| ==> k[i] == Sym(s, i, 0)
  {
    seq(|s|, i requires 0 <= i < |s| => Sym(s, i, 0))
  }

  /** The code of the first two symbols `a`, `b`. */
  function PairKey(a: int, b: int): int {
    257 * (a + 1) + b + 1
  }

  ghost function Keys16(s: seq<int>): (k: seq<int>)
    ensures |k| == |s| && forall i :: 0 <= i < |s| ==> k[i] == PairKey(Sym(s, i, 0), Sym(s, i, 1))
  {
    seq(|s|, i requires 0 <= i < |s| => PairKey(Sym(s, i, 0), Sym(s, i, 1)))
  }

  /** The keys order suffixes by their first `d` symbols. */
  ghost predicate KeysFor(s: seq<int>, keys: seq<int>, d: int) {
    && |keys| == |s|
    && (forall i, j :: 0 <= i < |s| && 0 <= j < |s| && keys[i] < keys[j] ==> Less(s, i, j))
    && (forall i, j :: 0 <= i < |s| && 0 <= j < |s| && keys[i] == keys[j] ==> Same(s, i, j, d))
  }

  lemma Keys8For(s: seq<int>)
    requires IsBlock(s)
    ensures KeysFor(s, Keys8(s), 1)
  {
    var keys := Keys8(s);
    forall i, j | 0 <= i < |s| && 0 <= j < |s| && keys[i] < keys[j] ensures Less(s, i, j) {
      assert LessAt(s, i, j, 0);
    }
  }

  lemma Keys16For(s: seq<int>)
    requires IsBlock(s)
    ensures KeysFor(s, Keys16(s), 2)
  {
    var keys := Keys16(s);
    forall i, j | 0 <= i < |s| && 0 <= j < |s| && keys[i] < keys[j] ensures Less(s, i, j) {
      if Sym(s, i, 0) == Sym(s, j, 0) {
        assert LessAt(s, i, j, 1);
      } else {
        assert LessAt(s, i, j, 0);
      }
    }
    forall i, j | 0 <= i < |s| && 0 <= j < |s| && keys[i] == keys[j] ensures Same(s, i, j, 2) {
      forall k | 0 <= k < 2 ensures Sym(s, i, k) == Sym(s, j, k) { assert k == 0 || k == 1; }
    }
  }

  /** What both radix sorts leave behind. */
  ghost predicate Radixed(keys: seq<int>, p: seq<int>, r: seq<int>) {
    && Arranged(keys, p) && |r| == |keys| + 1
    && forall i :: 0 <= i < |keys| ==> r[i] == Top(keys, i)
  }

  lemma RadixedEntry(keys: seq<int>, p: seq<int>, r: seq<int>, a: int)
    requires Radixed(keys, p, r) && 0 <= a < |p|
    ensures 0 <= p[a] < |p| && RankOf(p, r)[a] == Top(keys, p[a])
    ensures a <= RankOf(p, r)[a] < |p|
    ensures var b := RankOf(p, r)[a]; 0 <= p[b] < |p| && keys[p[b]] == keys[p[a]]
  {
    ArrangedSlot(keys, p, a);
    TopHolder(keys, p, p[a]);
  }

  lemma RadixedCells(keys: seq<int>, p: seq<int>, r: seq<int>)
    requires Radixed(keys, p, r)
    ensures Cells(RankOf(p, r))
  {
    var g := RankOf(p, r);
    forall a | 0 <= a < |g| ensures a <= g[a] < |g| && g[g[a]] == g[a] {
      RadixedEntry(keys, p, r, a);
      RadixedEntry(keys, p, r, g[a]);
      TopOrder(keys, p[g[a]], p[a]);
    }
    forall a, b | 0 <= a <= b < |g| ensures g[a] <= g[b] {
      RadixedEntry(keys, p, r, a);
      RadixedEntry(keys, p, r, b);
      ArrangedKeys(keys, p, a, b);
      TopOrder(keys, p[a], p[b]);
    }
  }

  /** A radix sort by the first `d` symbols starts the bucket structure. */
  lemma RadixedRanked(s: seq<int>, keys: seq<int>, p: seq<int>, r: seq<int>, d: int)
    requires KeysFor(s, keys, d) && Radixed(keys, p, r)
    ensures Ranked(s, p, r, d)
  {
    var g := RankOf(p, r);
    ArrangedPerm(keys, p);
    RadixedCells(keys, p, r);
    forall a, b | 0 <= a < |p| && 0 <= b < |p|
      ensures g[a] < g[b] ==> Less(s, p[a], p[b])
      ensures g[a] == g[b] ==> Same(s, p[a], p[b], d)
    {
      RadixedEntry(keys, p, r, a);
      RadixedEntry(keys, p, r, b);
      TopOrder(keys, p[a], p[b]);
    }
  }

  /** The entries filled in so far. */
  ghost predicate Filling(keys: seq<int>, p: seq<int>, a: int, b: int) {
    |p| == |keys| && 0 <= a && b <= |keys| &&
    forall i :: a <= i < b ==> 0 <= Slot(keys, i) < |p| && p[Slot(keys, i)] == i
  }

  lemma FillOne(keys: seq<int>, p: seq<int>, a: int, b: int, i: int)
    requires Filling(keys, p, a, b) && 0 <= i < |keys| && !(a <= i < b)
    ensures 0 <= Slot(keys, i) < |p|
    ensures Filling(keys, p[Slot(keys, i) := i], a, b)
    ensures i == b ==> Filling(keys, p[Slot(keys, i) := i], a, b + 1)
    ensures i == a - 1 ==> Filling(keys, p[Slot(keys, i) := i], a - 1, b)
  {
    SlotBounds(keys, i);
    forall j | a <= j < b ensures Slot(keys, j) != Slot(keys, i) {
      SlotInjective(keys, i, j);
    }
  }

  /** The marker is the only suffix below every byte. */
  lemma {:induction false} MarkerCount8(s: seq<int>, i: nat, c: int)
    requires IsBlock(s) && i <= |s| && c <= 0
    ensures c < 0 ==> CountBelow(Keys8(s), i, c) == 0
    ensures c == 0 ==> CountBelow(Keys8(s), i, c) == if i == |s| then 1 else 0
    ensures c < 0 && i < |s| ==> Count(Keys8(s), i, c) == 0
  {
    if i > 0 { MarkerCount8(s, i - 1, c); }
  }

  /** The table `t` counts the keys of the first `i` suffixes. */
  ghost predicate Counts(keys: seq<int>, t: seq<int>, i: nat)
    requires i <= |keys|
  {
    forall c :: 0 <= c < |t| ==> t[c] == Count(keys, i, c)
  }

  /** The codes of neighbouring bytes, the marker read as a zero byte. */
  ghost function Pairs(s: seq<int>): (k: seq<int>)
    requires |s| > 0
    ensures |k| == |s| - 1 && forall i :: 0 <= i < |k| ==> k[i] == 256 * s[i] + s[i + 1]
  {
    seq(|s| - 1, i requires 0 <= i < |s| - 1 => 256 * s[i] + s[i + 1])
  }

  /** The key of the pair code `k`. */
  function CodeKey(k: int): int {
    PairKey(k / 256, k % 256)
  }

  lemma PairOrder(s: seq<int>, i: int, k: int)
    requires IsMarked(s) && 0 <= i < |s| - 1 && 0 <= k < 65536
    ensures Pairs(s)[i] <= k <==> Keys16(s)[i] <= CodeKey(k)
    ensures i < |s| - 2 ==> Keys16(s)[i] == CodeKey(Pairs(s)[i])
    ensures i == |s| - 2 ==> Keys16(s)[i] == CodeKey(Pairs(s)[i]) - 1
  {
    assert Sym(s, i, 0) == s[i] && Sym(s, i, 1) == if i < |s| - 2 then s[i + 1] else -1;
    assert 0 <= s[i] < 256 && 0 <= s[i + 1] < 256;
    CodeParts(s[i], s[i + 1]);
  }

  lemma CodeParts(a: int, b: int)
    requires 0 <= a < 256 && 0 <= b < 256
    ensures (256 * a + b) / 256 == a && (256 * a + b) % 256 == b
  {
  }

  /** The prefix sums over pair codes count keys, less the marker. */
  lemma {:induction false} PairsBelow(s: seq<int>, i: nat, k: int)
    requires IsMarked(s) && i <= |s| - 1 && 0 <= k < 65536
    ensures CountBelow(Pairs(s), i, k + 1) == CountBelow(Keys16(s), i, CodeKey(k) + 1)
  {
    if i > 0 {
      PairsBelow(s, i - 1, k);
      PairOrder(s, i - 1, k);
    }
  }

  lemma PairsStart(s: seq<int>, k: int)
    requires IsMarked(s) && 0 <= k < 65536
    ensures CountBelow(Pairs(s), |s| - 1, k + 1) == Start(Keys16(s), CodeKey(k) + 1) - 1
  {
    PairsBelow(s, |s| - 1, k);
    assert Keys16(s)[|s| - 1] == 0;
  }

  /** A key that only the suffix `j` has. */
  lemma {:induction false} UniqueCount(keys: seq<int>, i: nat, j: int)
    requires i <= |keys| && 0 <= j < |keys|
    requires forall m :: 0 <= m < |keys| && m != j ==> keys[m] != keys[j]
    ensures Count(keys, i, keys[j]) == if j < i then 1 else 0
  {
    if i > 0 { UniqueCount(keys, i - 1, j); }
  }

  /** The keys of the last two suffixes are their own: they meet the marker within two symbols. */
  lemma LastKeys(s: seq<int>, j: int)
    requires IsBlock(s) && |s| >= 2 && |s| - 2 <= j < |s|
    ensures forall m :: 0 <= m < |s| && m != j ==> Keys16(s)[m] != Keys16(s)[j]
  {
    forall m | 0 <= m < |s| && m != j ensures Keys16(s)[m] != Keys16(s)[j] {
      Keys16For(s);
      if Same(s, m, j, 2) { SameEnds(s, m, j, 2); }
    }
  }

  lemma {:induction false} NothingBelow(keys: seq<int>, i: nat, c: int)
    requires i <= |keys| && forall m :: 0 <= m < |keys| ==> keys[m] >= c
    ensures CountBelow(keys, i, c) == 0
  {
    if i > 0 { NothingBelow(keys, i - 1, c); }
  }

  /** Where the marker and the suffix before it go. */
  lemma LastSlots(s: seq<int>)
    requires IsMarked(s) && |s| >= 2
    ensures Slot(Keys16(s), |s| - 1) == 0 && Top(Keys16(s), |s| - 1) == 0
    ensures var n := |s| - 2; Slot(Keys16(s), n) == Top(Keys16(s), n) == Start(Keys16(s), CodeKey(256 * s[n])) - 1
  {
    MarkerSlot(s);
    BeforeMarkerSlot(s, |s| - 2);
  }

  lemma UniqueSlot(keys: seq<int>, j: nat)
    requires j < |keys| && forall m :: 0 <= m < |keys| && m != j ==> keys[m] != keys[j]
    ensures Slot(keys, j) == Top(keys, j) == Start(keys, keys[j])
  {
    UniqueCount(keys, j, j);
    UniqueCount(keys, |keys|, j);
    StartNext(keys, keys[j]);
  }

  lemma MarkerSlot(s: seq<int>)
    requires IsMarked(s) && |s| >= 2
    ensures Slot(Keys16(s), |s| - 1) == 0 && Top(Keys16(s), |s| - 1) == 0
  {
    var keys, n := Keys16(s), |s| - 1;
    LastKeys(s, n);
    UniqueSlot(keys, n);
    NothingBelow(keys, |s|, 0);
    assert keys[n] == 0;
  }

  lemma BeforeMarkerSlot(s: seq<int>, n: nat)
    requires IsMarked(s) && |s| >= 2 && n == |s| - 2
    ensures Slot(Keys16(s), n) == Top(Keys16(s), n) == Start(Keys16(s), CodeKey(256 * s[n])) - 1
  {
    var keys, k := Keys16(s), Pairs(s)[n];
    LastKeys(s, n);
    UniqueSlot(keys, n);
    PairOrder(s, n, 0);
    assert k == 256 * s[n] && keys[n] + 1 == CodeKey(k);
  }

  /** What becomes of the positions when the marker and the suffix before it are placed. */
  lemma LastPlaced(s: seq<int>, p: seq<int>, t: seq<int>, k: int)
    requires IsMarked(s) && |s| >= 2 && k == 256 * s[|s| - 2] && 0 <= k < 65536
    requires Backwards(s, t, 0) && Filling(Keys16(s), p, 0, |s| - 2)
    ensures t[k] == Top(Keys16(s), |s| - 2) && Top(Keys16(s), |s| - 1) == 0 && 0 <= t[k] < |p|
    ensures Filling(Keys16(s), p[0 := |s| - 1][t[k] := |s| - 2], 0, |s|)
  {
    var keys, n := Keys16(s), |s| - 2;
    LastSlots(s);
    assert t[k] == Slot(keys, n);
    FillOne(keys, p, 0, n, n + 1);
    var q := p[0 := n + 1];
    FillOne(keys, q, 0, n, n);
    SlotInjective(keys, n, n + 1);
    var r := q[t[k] := n];
    assert Filling(keys, r, 0, n + 1);
  }

  /** The table after the suffixes from `i` on have been filled in from the top. */
  ghost predicate Backwards(s: seq<int>, t: seq<int>, i: nat)
    requires i <= |s|
  {
    |t| == 65536 &&
    forall k :: 0 <= k < 65536 ==> t[k] == Start(Keys16(s), CodeKey(k)) + Count(Keys16(s), i, CodeKey(k)) - 1
  }

  /** The table holds the last slot of every pair code. */
  ghost predicate LastPositions(s: seq<int>, t: seq<int>) {
    |t| == 65536 && forall k :: 0 <= k < 65536 ==> t[k] == Start(Keys16(s), CodeKey(k) + 1) - 1
  }

  /** The first `i` counts have been turned into prefix sums. */
  ghost predicate Summed(keys: seq<int>, t: seq<int>, i: nat) {
    && |t| == 65536 && i <= 65536
    && (forall k :: 0 <= k < i ==> t[k] == CountBelow(keys, |keys|, k + 1))
    && (forall k :: i <= k < 65536 ==> t[k] == Count(keys, |keys|, k))
  }

  lemma SumOne(keys: seq<int>, t: seq<int>, i: nat)
    requires Summed(keys, t, i) && 0 < i < 65536
    ensures Summed(keys, t[i := t[i] + t[i - 1]], i + 1)
  {
    CountNext(keys, |keys|, i);
  }

  lemma SumFirst(keys: seq<int>, t: seq<int>)
    requires |t| == 65536 && Counts(keys, t, |keys|) && forall m :: 0 <= m < |keys| ==> keys[m] >= 0
    ensures Summed(keys, t, 1)
  {
    NothingBelow(keys, |keys|, 0);
    CountNext(keys, |keys|, 0);
  }

  lemma PairsNat(s: seq<int>, m: nat)
    requires IsBlock(s) && m < |s| - 1
    ensures Pairs(s)[m] >= 0
  {
    assert 0 <= s[m] < 256 && 0 <= s[m + 1] < 256;
  }

  lemma TableLast(s: seq<int>, t: seq<int>)
    requires IsMarked(s) && |s| >= 2 && Summed(Pairs(s), t, 65536)
    ensures LastPositions(s, t)
  {
    forall k | 0 <= k < 65536 ensures t[k] == Start(Keys16(s), CodeKey(k) + 1) - 1 {
      PairsStart(s, k);
    }
  }

  lemma PairAt(s: seq<int>, i: nat) returns (k: int)
    requires IsMarked(s) && i < |s| - 1
    ensures k == Pairs(s)[i] == 256 * s[i] + s[i + 1] && 0 <= k < 65536
  {
    k := Pairs(s)[i];
    assert 0 <= s[i] < 256 && 0 <= s[i + 1] < 256;
  }

  lemma LastPosition(s: seq<int>, t: seq<int>, k: int)
    requires LastPositions(s, t) && 0 <= k < 65536
    ensures t[k] == Start(Keys16(s), CodeKey(k) + 1) - 1
  {
  }

  /** The table gives the last slot of the bucket of suffix `i`. */
  lemma TableTop(s: seq<int>, t: seq<int>, i: nat)
    requires IsMarked(s) && i < |s| - 2 && LastPositions(s, t)
    ensures var k := 256 * s[i] + s[i + 1]; 0 <= k < 65536 && t[k] == Top(Keys16(s), i)
  {
    var k := PairAt(s, i);
    PairOrder(s, i, 0);
    LastPosition(s, t, k);
  }

  /** Before the filling starts, the table holds the last slots. */
  lemma TableFull(s: seq<int>, t: seq<int>)
    requires IsMarked(s) && |s| >= 2 && LastPositions(s, t)
    ensures Backwards(s, t, |s| - 2)
  {
    forall k | 0 <= k < 65536
      ensures t[k] == Start(Keys16(s), CodeKey(k)) + Count(Keys16(s), |s| - 2, CodeKey(k)) - 1
    {
      StartNext(Keys16(s), CodeKey(k));
      LastNotCode(s, k);
      CountSkipsTwo(Keys16(s), CodeKey(k));
    }
  }

  lemma CountSkipsTwo(keys: seq<int>, c: int)
    requires |keys| >= 2 && keys[|keys| - 1] != c && keys[|keys| - 2] != c
    ensures Count(keys, |keys|, c) == Count(keys, |keys| - 2, c)
  {
    assert Count(keys, |keys|, c) == Count(keys, |keys| - 1, c);
  }

  lemma LastNotCode(s: seq<int>, k: int)
    requires IsMarked(s) && |s| >= 2 && 0 <= k < 65536
    ensures Keys16(s)[|s| - 1] != CodeKey(k) && Keys16(s)[|s| - 2] != CodeKey(k)
  {
    assert Sym(s, |s| - 2, 1) == -1;
    assert 257 * (Sym(s, |s| - 2, 0) + 1) != 257 * (k / 256 + 1) + k % 256 + 1;
  }

  lemma CodeKeyInjective(k: int, m: int)
    requires 0 <= k < 65536 && 0 <= m < 65536 && CodeKey(k) == CodeKey(m)
    ensures k == m
  {
  }

  /** Filling in suffix `i` from the top of its bucket. */
  lemma BackOne(s: seq<int>, t: seq<int>, i: nat, code: int, from: nat)
    requires IsMarked(s) && i < |s| - 2 && from == i + 1 && Backwards(s, t, from) && code == Pairs(s)[i]
    ensures 0 <= code < 65536 && t[code] == Slot(Keys16(s), i) && Backwards(s, t[code := t[code] - 1], i)
  {
    var keys := Keys16(s);
    var k := PairAt(s, i);
    PairOrder(s, i, 0);
    var u := t[code := t[code] - 1];
    forall k | 0 <= k < 65536 ensures u[k] == Start(keys, CodeKey(k)) + Count(keys, i, CodeKey(k)) - 1 {
      if k != code && CodeKey(k) == CodeKey(code) { CodeKeyInjective(k, code); }
    }
  }
}
