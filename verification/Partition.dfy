/**
 The three-way partition shared by both quicksorts: entries of `posn` are
 split by the key found `depth` places further on, first collecting equal
 keys at both ends and then swapping them into the middle.
 */
module Partition {
  import opened Permutation
  import opened Buckets

  ghost predicate KeysInRange(p: seq<int>, keys: seq<int>, depth: int, lo: int, hi: int) {
    0 <= lo && hi < |p| && forall i :: lo <= i <= hi ==> 0 <= p[i] + depth < |keys|
  }

  /** The key of entry `i`. */
  ghost function Key(p: seq<int>, keys: seq<int>, depth: int, i: int): int {
    if 0 <= i < |p| && 0 <= p[i] + depth < |keys| then keys[p[i] + depth] else 0
  }

  /** Entries `[lo, l1[` and `]h1, hi]` have key `med`, `[l1, l[` smaller and `]h, h1]` larger keys. */
  ghost predicate Scanned(p: seq<int>, keys: seq<int>, depth: int, med: int,
                          lo: int, l1: int, l: int, h: int, h1: int, hi: int) {
    && 0 <= lo <= l1 <= l <= h + 1 && h <= h1 <= hi < |p|
    && (forall i :: lo <= i < l1 ==> Key(p, keys, depth, i) == med)
    && (forall i :: l1 <= i < l ==> Key(p, keys, depth, i) < med)
    && (forall i :: h < i <= h1 ==> Key(p, keys, depth, i) > med)
    && (forall i :: h1 < i <= hi ==> Key(p, keys, depth, i) == med)
  }

  /** Entries below `l1` have smaller keys, those above `h1` larger ones, and those between have key `med`. */
  ghost predicate Parted(p: seq<int>, keys: seq<int>, depth: int, med: int,
                         lo: int, l1: int, h1: int, hi: int) {
    && 0 <= lo <= l1 <= h1 + 1 <= hi + 1 <= |p|
    && (forall i :: lo <= i < l1 ==> Key(p, keys, depth, i) < med)
    && (forall i :: l1 <= i <= h1 ==> Key(p, keys, depth, i) == med)
    && (forall i :: h1 < i <= hi ==> Key(p, keys, depth, i) > med)
  }

  lemma KeysStayInRange(p: seq<int>, q: seq<int>, keys: seq<int>, depth: int, lo: int, hi: int)
    requires KeysInRange(p, keys, depth, lo, hi) && Rearranged(p, q, lo, hi)
    ensures KeysInRange(q, keys, depth, lo, hi)
  {
    forall i | lo <= i <= hi ensures 0 <= q[i] + depth < |keys| {
      assert Within(p, lo, hi, q[i]);
    }
  }

  ghost function Swapped(p: seq<int>, i: int, j: int): seq<int>
    requires 0 <= i < |p| && 0 <= j < |p|
  {
    p[i := p[j]][j := p[i]]
  }

  method Swap(posn: array<int>, i: int, j: int)
    requires 0 <= i < posn.Length && 0 <= j < posn.Length
    modifies posn
    ensures posn[..] == Swapped(old(posn[..]), i, j)
  {
    var tmp := posn[i];
    posn[i] := posn[j];
    posn[j] := tmp;
  }

  lemma SwapRearranged(was: seq<int>, p: seq<int>, i: int, j: int, lo: int, hi: int)
    requires Rearranged(was, p, lo, hi) && lo <= i <= hi && lo <= j <= hi
    ensures Rearranged(was, Swapped(p, i, j), lo, hi)
  {
    RearrangedSwap(p, i, j, lo, hi);
    RearrangedTransitive(was, p, Swapped(p, i, j), lo, hi, lo, hi);
  }

  lemma SwapUp(p: seq<int>, keys: seq<int>, depth: int, med: int,
               lo: int, l1: int, l: int, h: int, h1: int, hi: int)
    requires Scanned(p, keys, depth, med, lo, l1, l, h, h1, hi)
    requires l <= h && Key(p, keys, depth, l) == med
    ensures Scanned(Swapped(p, l, l1), keys, depth, med, lo, l1 + 1, l + 1, h, h1, hi)
  {
    var q := Swapped(p, l, l1);
    forall i | lo <= i <= hi && i != l && i != l1 ensures Key(q, keys, depth, i) == Key(p, keys, depth, i) { }
    assert Key(q, keys, depth, l1) == med;
    assert l1 < l ==> Key(q, keys, depth, l) == Key(p, keys, depth, l1);
  }

  /** Move `l` up to the first larger key, collecting equal keys below `l1`. */
  method ScanUp(posn: array<int>, keys: array<int>, depth: int, med: int,
                lo: int, le: int, l0: int, h: int, ghost h1: int, ghost hi: int, ghost was: seq<int>)
    returns (l1: int, l: int)
    requires posn != keys && Rearranged(was, posn[..], lo, hi) && KeysInRange(was, keys[..], depth, lo, hi)
    requires Scanned(posn[..], keys[..], depth, med, lo, le, l0, h, h1, hi)
    modifies posn
    ensures Rearranged(was, posn[..], lo, hi)
    ensures ScannedUp(posn[..], keys[..], depth, med, lo, l1, l, h, h1, hi)
    ensures l0 <= l
    ensures l0 <= h && Key(old(posn[..]), keys[..], depth, l0) < med ==> l0 < l
  {
    ghost var start, k := posn[..], keys[..];
    l1, l := le, l0;
    while l <= h
      invariant keys[..] == k && l0 <= l && (l == l0 ==> posn[..] == start)
      invariant Rearranged(was, posn[..], lo, hi)
      invariant Scanned(posn[..], k, depth, med, lo, l1, l, h, h1, hi)
      decreases h - l
    {
      ghost var p := posn[..];
      KeysStayInRange(was, p, k, depth, lo, hi);
      assert p[l] == posn[l];
      var c := keys[posn[l] + depth] - med;
      assert Key(p, k, depth, l) == c + med;
      if c > 0 { break; }
      if c == 0 {
        SwapRearranged(was, p, l, l1, lo, hi);
        SwapUp(p, k, depth, med, lo, l1, l, h, h1, hi);
        Swap(posn, l, l1);
        l1 := l1 + 1;
      }
      l := l + 1;
    }
  }

  /** Everything scanned, and the upward scan has stopped at a larger key. */
  ghost predicate ScannedUp(p: seq<int>, keys: seq<int>, depth: int, med: int,
                            lo: int, l1: int, l: int, h: int, h1: int, hi: int) {
    && Scanned(p, keys, depth, med, lo, l1, l, h, h1, hi)
    && (l <= h ==> Key(p, keys, depth, l) > med)
  }

  lemma SwapDown(p: seq<int>, keys: seq<int>, depth: int, med: int,
                 lo: int, l1: int, l: int, h: int, h1: int, hi: int)
    requires ScannedUp(p, keys, depth, med, lo, l1, l, h, h1, hi)
    requires l <= h && Key(p, keys, depth, h) == med
    ensures ScannedUp(Swapped(p, h, h1), keys, depth, med, lo, l1, l, h - 1, h1 - 1, hi)
  {
    var q := Swapped(p, h, h1);
    forall i | lo <= i <= hi && i != h && i != h1 ensures Key(q, keys, depth, i) == Key(p, keys, depth, i) { }
    assert Key(q, keys, depth, h1) == med;
    assert h < h1 ==> Key(q, keys, depth, h) == Key(p, keys, depth, h1);
  }

  lemma PassDown(p: seq<int>, keys: seq<int>, depth: int, med: int,
                 lo: int, l1: int, l: int, h: int, h1: int, hi: int)
    requires ScannedUp(p, keys, depth, med, lo, l1, l, h, h1, hi)
    requires l <= h && Key(p, keys, depth, h) > med
    ensures ScannedUp(p, keys, depth, med, lo, l1, l, h - 1, h1, hi)
  {
  }

  /** Move `h` down to the first smaller key, collecting equal keys above `h1`. */
  method ScanDown(posn: array<int>, keys: array<int>, depth: int, med: int,
                  ghost lo: int, ghost l1: int, l: int, h0: int, he: int, hi: int, ghost was: seq<int>)
    returns (h: int, h1: int)
    requires posn != keys && Rearranged(was, posn[..], lo, hi) && KeysInRange(was, keys[..], depth, lo, hi)
    requires ScannedUp(posn[..], keys[..], depth, med, lo, l1, l, h0, he, hi)
    modifies posn
    ensures Rearranged(was, posn[..], lo, hi)
    ensures ScannedUp(posn[..], keys[..], depth, med, lo, l1, l, h, h1, hi)
    ensures h <= h0 && (l <= h ==> Key(posn[..], keys[..], depth, h) < med)
  {
    ghost var k := keys[..];
    h, h1 := h0, he;
    while l <= h
      invariant keys[..] == k && h <= h0
      invariant Rearranged(was, posn[..], lo, hi)
      invariant ScannedUp(posn[..], k, depth, med, lo, l1, l, h, h1, hi)
      decreases h - l
    {
      ghost var p := posn[..];
      KeysStayInRange(was, p, k, depth, lo, hi);
      assert p[h] == posn[h];
      var c := keys[posn[h] + depth] - med;
      assert Key(p, k, depth, h) == c + med;
      if c < 0 { break; }
      if c == 0 {
        SwapRearranged(was, p, h, h1, lo, hi);
        SwapDown(p, k, depth, med, lo, l1, l, h, h1, hi);
        Swap(posn, h, h1);
        h1 := h1 - 1;
      } else {
        PassDown(p, k, depth, med, lo, l1, l, h, h1, hi);
      }
      h := h - 1;
    }
  }

  lemma SwapAcross(p: seq<int>, keys: seq<int>, depth: int, med: int,
                   lo: int, l1: int, l: int, h: int, h1: int, hi: int)
    requires Scanned(p, keys, depth, med, lo, l1, l, h, h1, hi) && l < h
    requires Key(p, keys, depth, l) > med && Key(p, keys, depth, h) < med
    ensures Scanned(Swapped(p, l, h), keys, depth, med, lo, l1, l, h, h1, hi)
    ensures Key(Swapped(p, l, h), keys, depth, l) < med
  {
    var q := Swapped(p, l, h);
    forall i | lo <= i <= hi && i != h && i != l ensures Key(q, keys, depth, i) == Key(p, keys, depth, i) { }
    assert Key(q, keys, depth, l) == Key(p, keys, depth, h);
    assert Key(q, keys, depth, h) == Key(p, keys, depth, l);
  }

  /** Where the exchange of the blocks of length `n` at `i` and `j` takes entry `k` from. */
  ghost function Exchanged(k: int, i: int, j: int, n: int): int {
    if i <= k < i + n then k - i + j else if j <= k < j + n then k - j + i else k
  }

  ghost predicate IsExchange(p: seq<int>, q: seq<int>, i: int, j: int, n: int) {
    && |q| == |p| && 0 <= n && 0 <= i && i + n <= j && j + n <= |p|
    && forall k :: 0 <= k < |p| ==> q[k] == p[Exchanged(k, i, j, n)]
  }

  lemma ExchangeOne(p: seq<int>, q: seq<int>, i: int, j: int, n: int)
    requires IsExchange(p, q, i, j, n) && i + n < j && j + n < |p|
    ensures IsExchange(p, Swapped(q, i + n, j + n), i, j, n + 1)
  {
  }

  /** `m` entries of a block exchange inside `[lo, hi]` have been exchanged. */
  ghost predicate Exchanging(was: seq<int>, start: seq<int>, p: seq<int>, lo: int, hi: int, i: int, j: int, m: int) {
    Rearranged(was, p, lo, hi) && IsExchange(start, p, i, j, m)
  }

  lemma ExchangingOne(was: seq<int>, start: seq<int>, p: seq<int>, lo: int, hi: int, i: int, j: int, m: int)
    requires Exchanging(was, start, p, lo, hi, i, j, m)
    requires 0 <= m && 0 <= lo <= i && i + m < j && j + m <= hi < |p|
    ensures Exchanging(was, start, Swapped(p, i + m, j + m), lo, hi, i, j, m + 1)
  {
    SwapRearranged(was, p, i + m, j + m, lo, hi);
    ExchangeOne(start, p, i, j, m);
  }

  /** Exchange the `n` entries from `i` with the `n` entries from `j`. */
  method VSwap(posn: array<int>, i: int, j: int, n: int, ghost was: seq<int>, ghost lo: int, ghost hi: int)
    requires 0 <= n && 0 <= lo <= i && i + n <= j && j + n <= hi + 1 <= posn.Length
    requires Rearranged(was, posn[..], lo, hi)
    modifies posn
    ensures Rearranged(was, posn[..], lo, hi)
    ensures IsExchange(old(posn[..]), posn[..], i, j, n)
  {
    ghost var start, p := posn[..], posn[..];
    var m := 0;
    while m < n
      invariant 0 <= m <= n && posn[..] == p && Exchanging(was, start, p, lo, hi, i, j, m)
    {
      ExchangingOne(was, start, p, lo, hi, i, j, m);
      p := Swapped(p, i + m, j + m);
      Swap(posn, i + m, j + m);
      m := m + 1;
    }
  }

  function Min(a: int, b: int): int {
    if a <= b then a else b
  }

  /** Exchanging the equal keys at the lower end with the last smaller ones. */
  lemma GatherLow(p: seq<int>, q: seq<int>, keys: seq<int>, depth: int, med: int,
                  lo: int, le: int, l: int, h1: int, hi: int)
    requires Scanned(p, keys, depth, med, lo, le, l, l - 1, h1, hi)
    requires var a := Min(le - lo, l - le); IsExchange(p, q, lo, l - a, a)
    ensures forall i :: lo <= i < lo + (l - le) ==> Key(q, keys, depth, i) < med
    ensures forall i :: lo + (l - le) <= i < l ==> Key(q, keys, depth, i) == med
    ensures forall i :: l <= i <= hi ==> Key(q, keys, depth, i) == Key(p, keys, depth, i)
  {
    var a := Min(le - lo, l - le);
    forall i | lo <= i <= hi
      ensures Key(q, keys, depth, i) == Key(p, keys, depth, Exchanged(i, lo, l - a, a)) {
    }
  }

  /** Exchanging the equal keys at the upper end with the first larger ones. */
  lemma GatherHigh(p: seq<int>, q: seq<int>, keys: seq<int>, depth: int, med: int,
                   lo: int, l1: int, h: int, he: int, hi: int)
    requires HighScanned(p, keys, depth, med, lo, l1, h, he, hi)
    requires var b := Min(hi - he, he - h); IsExchange(p, q, h + 1, hi - b + 1, b)
    ensures Parted(q, keys, depth, med, lo, l1, hi - (he - h), hi)
  {
    var b := Min(hi - he, he - h);
    forall i | lo <= i <= hi
      ensures Key(q, keys, depth, i) == Key(p, keys, depth, Exchanged(i, h + 1, hi - b + 1, b)) {
    }
  }

  /** The upper part of a scanned range has its equal keys at the end. */
  ghost predicate HighScanned(p: seq<int>, keys: seq<int>, depth: int, med: int, lo: int, l1: int, h: int, he: int,
                              hi: int) {
    && 0 <= lo <= l1 <= h + 1 && h <= he <= hi < |p|
    && (forall i :: lo <= i < l1 ==> Key(p, keys, depth, i) < med)
    && (forall i :: l1 <= i <= h ==> Key(p, keys, depth, i) == med)
    && (forall i :: h < i <= he ==> Key(p, keys, depth, i) > med)
    && (forall i :: he < i <= hi ==> Key(p, keys, depth, i) == med)
  }

  /** Move the equal keys at the lower end to the middle. */
  method GatherBelow(posn: array<int>, ghost keys: seq<int>, ghost depth: int, ghost med: int,
                     ghost was: seq<int>, lo: int, le: int, h: int, ghost he: int, ghost hi: int)
    requires Rearranged(was, posn[..], lo, hi)
    requires Scanned(posn[..], keys, depth, med, lo, le, h + 1, h, he, hi)
    modifies posn
    ensures Rearranged(was, posn[..], lo, hi)
    ensures HighScanned(posn[..], keys, depth, med, lo, lo + (h + 1 - le), h, he, hi)
  {
    ghost var p := posn[..];
    var l := h + 1;
    var tmp := Min(le - lo, l - le);
    VSwap(posn, lo, l - tmp, tmp, was, lo, hi);
    GatherLow(p, posn[..], keys, depth, med, lo, le, l, he, hi);
  }

  /** Move the equal keys from both ends to the middle. */
  method Gather(posn: array<int>, ghost keys: seq<int>, ghost depth: int, ghost med: int,
                ghost was: seq<int>, lo: int, le: int, h: int, he: int, hi: int)
    returns (l1: int, h1: int)
    requires Rearranged(was, posn[..], lo, hi)
    requires Scanned(posn[..], keys, depth, med, lo, le, h + 1, h, he, hi)
    modifies posn
    ensures Rearranged(was, posn[..], lo, hi)
    ensures Parted(posn[..], keys, depth, med, lo, l1, h1, hi)
    ensures l1 == lo + (h + 1 - le) && h1 == hi - (he - h)
  {
    GatherBelow(posn, keys, depth, med, was, lo, le, h, he, hi);
    l1 := lo + (h + 1 - le);
    ghost var q := posn[..];
    var tmp := Min(hi - he, he - h);
    VSwap(posn, h + 1, hi - tmp + 1, tmp, was, lo, hi);
    GatherHigh(q, posn[..], keys, depth, med, lo, l1, h, he, hi);
    h1 := hi - (he - h);
  }

  /** Skip the equal keys already at either end. */
  method ScanEnds(posn: array<int>, keys: array<int>, depth: int, med: int, lo: int, hi: int)
    returns (l1: int, h1: int)
    requires 0 <= lo <= hi && KeysInRange(posn[..], keys[..], depth, lo, hi)
    ensures Scanned(posn[..], keys[..], depth, med, lo, l1, l1, h1, h1, hi)
  {
    ghost var p, k := posn[..], keys[..];
    l1, h1 := lo, hi;
    while l1 < h1 && keys[posn[l1] + depth] == med
      invariant l1 <= h1 && Scanned(p, k, depth, med, lo, l1, l1, h1, h1, hi)
      decreases h1 - l1
    {
      assert p[l1] == posn[l1] && Key(p, k, depth, l1) == med;
      l1 := l1 + 1;
    }
    while l1 < h1 && keys[posn[h1] + depth] == med
      invariant Scanned(p, k, depth, med, lo, l1, l1, h1, h1, hi)
      decreases h1 - l1
    {
      assert p[h1] == posn[h1] && Key(p, k, depth, h1) == med;
      h1 := h1 - 1;
    }
  }

  /** Exchange the larger key found from below with the smaller one found from above. */
  method SwapFound(posn: array<int>, ghost keys: seq<int>, ghost depth: int, ghost med: int, ghost lo: int,
                   ghost l1: int,
                   l: int, h: int, ghost h1: int, ghost hi: int, ghost was: seq<int>)
    requires Rearranged(was, posn[..], lo, hi) && Scanned(posn[..], keys, depth, med, lo, l1, l, h, h1, hi) && l < h
    requires Key(posn[..], keys, depth, l) > med && Key(posn[..], keys, depth, h) < med
    modifies posn
    ensures Rearranged(was, posn[..], lo, hi) && Scanned(posn[..], keys, depth, med, lo, l1, l, h, h1, hi)
    ensures Key(posn[..], keys, depth, l) < med
  {
    ghost var p := posn[..];
    SwapRearranged(was, p, l, h, lo, hi);
    SwapAcross(p, keys, depth, med, lo, l1, l, h, h1, hi);
    Swap(posn, l, h);
  }

  /** Split `[lo, hi]` at the key value `med`. */
  method Partition(posn: array<int>, keys: array<int>, depth: int, lo: int, hi: int, med: int)
    returns (l1: int, h1: int)
    requires posn != keys && 0 <= lo <= hi < posn.Length && Injective(posn[..])
    requires KeysInRange(posn[..], keys[..], depth, lo, hi)
    modifies posn
    ensures Rearranged(old(posn[..]), posn[..], lo, hi)
    ensures Parted(posn[..], keys[..], depth, med, lo, l1, h1, hi)
  {
    ghost var was, k := posn[..], keys[..];
    RearrangedRefl(was, lo, hi);
    l1, h1 := ScanEnds(posn, keys, depth, med, lo, hi);
    var l, h := l1, h1;
    while true
      invariant keys[..] == k && Rearranged(was, posn[..], lo, hi)
      invariant Scanned(posn[..], k, depth, med, lo, l1, l, h, h1, hi)
      decreases h - l, Key(posn[..], k, depth, l) >= med
    {
      l1, l := ScanUp(posn, keys, depth, med, lo, l1, l, h, h1, hi, was);
      h, h1 := ScanDown(posn, keys, depth, med, lo, l1, l, h, h1, hi, was);
      if l > h { break; }
      SwapFound(posn, k, depth, med, lo, l1, l, h, h1, hi, was);
    }
    l1, h1 := Gather(posn, k, depth, med, was, lo, l1, h, h1, hi);
  }

  /** The median of three. */
  function Median(c1: int, c2: int, c3: int): int {
    var a, b := Min(c1, c3), if c1 <= c3 then c3 else c1;
    if c2 <= a then a else if c2 >= b then b else c2
  }

  /** A pivot: always the key of some entry of `[lo, hi]`. */
  method Pivot(posn: array<int>, keys: array<int>, depth: int, lo: int, hi: int)
    returns (med: int)
    requires lo <= hi && KeysInRange(posn[..], keys[..], depth, lo, hi)
    ensures exists i :: lo <= i <= hi && Key(posn[..], keys[..], depth, i) == med
    decreases hi - lo
  {
    var c1, c2, c3;
    if hi - lo > 256 {
      c1 := Pivot(posn, keys, depth, lo, (6 * lo + 2 * hi) / 8);
      c2 := Pivot(posn, keys, depth, (5 * lo + 3 * hi) / 8, (3 * lo + 5 * hi) / 8);
      c3 := Pivot(posn, keys, depth, (2 * lo + 6 * hi) / 8, hi);
    } else {
      ghost var p := posn[..];
      var mid := (lo + hi) / 2;
      assert p[lo] == posn[lo] && p[mid] == posn[mid] && p[hi] == posn[hi];
      c1 := keys[posn[lo] + depth];
      c2 := keys[posn[mid] + depth];
      c3 := keys[posn[hi] + depth];
      assert Key(p, keys[..], depth, lo) == c1;
      assert Key(p, keys[..], depth, mid) == c2;
      assert Key(p, keys[..], depth, hi) == c3;
    }
    med := Median(c1, c2, c3);
  }
}
