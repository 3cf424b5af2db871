/**
 Run-length lists: each number is a block, its size the magnitude and its sign
 whether the bytes of the block are known. A list stands for a map of bytes.
 */
module RunLengths {
  import opened Sequences

  function Abs(x: int): nat {
    if x < 0 then -x else x
  }

  /** The map of a list: for each position below its end, whether the byte is known. */
  ghost function Map(runs: seq<int>): (m: seq<bool>)
    ensures |m| == Total(runs)
  {
    if runs == [] then [] else Map(runs[..|runs| - 1]) + Run(runs[|runs| - 1])
  }

  ghost function Run(size: int): (m: seq<bool>)
    ensures |m| == Abs(size)
  {
    seq(Abs(size), i => size > 0)
  }

  ghost function Total(runs: seq<int>): nat {
    if runs == [] then 0 else Total(runs[..|runs| - 1]) + Abs(runs[|runs| - 1])
  }

  ghost predicate Known(m: seq<bool>, x: int) {
    0 <= x < |m| && m[x]
  }

  ghost predicate NonZero(runs: seq<int>) {
    forall i :: 0 <= i < |runs| ==> runs[i] != 0
  }

  /** The blocks before `n` and the one after them alternate in sign. */
  ghost predicate AlternatingTo(runs: seq<int>, n: int) {
    forall i :: 0 <= i < n && i + 1 < |runs| ==> (runs[i] > 0) != (runs[i + 1] > 0)
  }

  /** The form the list is kept in. */
  ghost predicate Normal(runs: seq<int>) {
    NonZero(runs) && AlternatingTo(runs, |runs|) && (runs != [] ==> runs[|runs| - 1] > 0)
  }

  lemma MapPush(runs: seq<int>, size: int)
    ensures Map(runs + [size]) == Map(runs) + Run(size)
    ensures Total(runs + [size]) == Total(runs) + Abs(size)
  {
    assert (runs + [size])[..|runs|] == runs;
  }

  lemma {:induction false} MapAppend(a: seq<int>, b: seq<int>)
    ensures Map(a + b) == Map(a) + Map(b)
  {
    if b == [] {
      assert a + b == a;
    } else {
      var n := |b| - 1;
      var front, last := b[..n], b[n];
      MapAppend(a, front);
      LastApart(b);
      Regroup(a, front, [last]);
      MapPush(a + front, last);
      MapPush(front, last);
      Regroup(Map(a), Map(front), Run(last));
    }
  }

  lemma MapOne(size: int)
    ensures Map([size]) == Run(size)
  {
    MapPush([], size);
  }

  lemma MapTwo(a: int, b: int)
    ensures Map([a, b]) == Run(a) + Run(b)
  {
    MapPush([a], b);
    MapOne(a);
    assert [a] + [b] == [a, b];
  }

  lemma MapThree(a: int, b: int, c: int)
    ensures Map([a, b, c]) == Run(a) + Run(b) + Run(c)
  {
    MapPush([a, b], c);
    MapTwo(a, b);
    assert [a, b] + [c] == [a, b, c];
  }

  /** The map `m`, whose first position is `base`, with the positions from `start` to `end` made known. */
  ghost function Marked(m: seq<bool>, base: int, start: int, end: int): (r: seq<bool>)
    ensures |r| == |m|
  {
    seq(|m|, i requires 0 <= i < |m| => m[i] || start <= base + i < end)
  }

  lemma MarkedAppend(a: seq<bool>, b: seq<bool>, base: int, start: int, end: int)
    ensures Marked(a + b, base, start, end) == Marked(a, base, start, end) + Marked(b, base + |a|, start, end)
  {
  }

  lemma MarkedBeyond(m: seq<bool>, base: int, start: int, end: int)
    requires end <= base
    ensures Marked(m, base, start, end) == m
  {
  }

  /** The map `m` followed by unknown bytes up to `n`. */
  ghost function Padded(m: seq<bool>, n: int): (r: seq<bool>)
    ensures |r| == if n <= |m| then |m| else n
  {
    if n <= |m| then m else m + Run(-(n - |m|))
  }

  /** The union of a map with an interval. */
  ghost function Union(m: seq<bool>, start: int, end: int): seq<bool> {
    Marked(Padded(m, end), 0, start, end)
  }

  /** The union knows what the map knew and the interval, nothing else. */
  lemma UnionKnows(m: seq<bool>, start: nat, end: int)
    ensures forall x :: Known(Union(m, start, end), x) <==> Known(m, x) || start <= x < end
  {
  }

  /** How many positions from `start` to `end` are known. */
  ghost function Count(m: seq<bool>, start: int, end: int): (n: nat)
    decreases if start < end then end - start else 0
  {
    if start >= end then 0 else (if Known(m, end - 1) then 1 else 0) + Count(m, start, end - 1)
  }

  lemma {:induction false} CountSplit(m: seq<bool>, a: int, b: int, c: int)
    requires a <= b <= c
    ensures Count(m, a, c) == Count(m, a, b) + Count(m, b, c)
    decreases c - b
  {
    if b < c { CountSplit(m, a, b, c - 1); }
  }

  lemma {:induction false} CountConstant(m: seq<bool>, a: int, b: int, known: bool)
    requires a <= b && forall x :: a <= x < b ==> Known(m, x) == known
    ensures Count(m, a, b) == if known then b - a else 0
    decreases b - a
  {
    if a < b { CountConstant(m, a, b - 1, known); }
  }

  lemma {:induction false} CountBound(m: seq<bool>, a: int, b: int)
    requires a <= b
    ensures Count(m, a, b) <= b - a
    decreases b - a
  {
    if a < b { CountBound(m, a, b - 1); }
  }

  /** Every position counts exactly when all are known. */
  lemma {:induction false} CountFull(m: seq<bool>, a: int, b: int)
    requires a <= b
    ensures Count(m, a, b) == b - a <==> forall x :: a <= x < b ==> Known(m, x)
    decreases b - a
  {
    if a < b {
      CountBound(m, a, b - 1);
      CountFull(m, a, b - 1);
    }
  }

  /** Knowing more counts more. */
  lemma {:induction false} CountMonotone(m: seq<bool>, n: seq<bool>, a: int, b: int)
    requires forall x :: Known(m, x) ==> Known(n, x)
    ensures Count(m, a, b) <= Count(n, a, b)
    decreases if a < b then b - a else 0
  {
    if a < b { CountMonotone(m, n, a, b - 1); }
  }

  lemma MapParts(a: seq<int>, size: int, b: seq<int>)
    ensures Map(a + [size] + b) == Map(a) + Run(size) + Map(b)
  {
    MapPush(a, size);
    MapAppend(a + [size], b);
  }

  /** Block `i` of a list. */
  lemma MapBlock(runs: seq<int>, i: nat)
    requires i < |runs|
    ensures Total(runs[..i + 1]) == Total(runs[..i]) + Abs(runs[i]) <= Total(runs)
    ensures forall x :: Total(runs[..i]) <= x < Total(runs[..i + 1]) ==> (Known(Map(runs), x) <==> runs[i] > 0)
  {
    var a, size, b := runs[..i], runs[i], runs[i + 1..];
    PrefixNext(runs, i);
    MapPush(a, size);
    MapParts(a, size, b);
    InTheMiddle(Map(runs), Map(a), size, Map(b));
  }

  lemma InTheMiddle(m: seq<bool>, a: seq<bool>, size: int, b: seq<bool>)
    requires m == a + Run(size) + b
    ensures forall x :: |a| <= x < |a| + Abs(size) ==> (Known(m, x) <==> size > 0)
    ensures |a| + Abs(size) <= |m|
  {
  }

  /** In a normal list the last byte is known. */
  lemma NormalEnd(runs: seq<int>)
    requires NonZero(runs) && runs != []
    ensures Map(runs) != [] && (Map(runs)[|Map(runs)| - 1] <==> runs[|runs| - 1] > 0)
  {
  }

  /** The normal list of a map is unique: lists that know the same bytes are equal. */
  lemma {:induction false} NormalUnique(a: seq<int>, b: seq<int>)
    requires NonZero(a) && AlternatingTo(a, |a|) && NonZero(b) && AlternatingTo(b, |b|)
    requires Map(a) == Map(b)
    ensures a == b
    decreases |a|
  {
    if a != [] { NormalEnd(a); }
    if b != [] { NormalEnd(b); }
    if a != [] && b != [] {
      var m, n := |a| - 1, |b| - 1;
      SameLast(a, b);
      BeforeLast(a);
      BeforeLast(b);
      NormalUnique(a[..m], b[..n]);
      LastApart(a);
      LastApart(b);
    }
  }

  lemma BeforeLast(a: seq<int>)
    requires a != []
    ensures Abs(a[|a| - 1]) <= |Map(a)| && Map(a[..|a| - 1]) == Map(a)[..|Map(a)| - Abs(a[|a| - 1])]
  {
  }

  lemma SameLast(a: seq<int>, b: seq<int>)
    requires NonZero(a) && AlternatingTo(a, |a|) && NonZero(b) && AlternatingTo(b, |b|)
    requires a != [] && b != [] && Map(a) == Map(b)
    ensures a[|a| - 1] == b[|b| - 1]
  {
    LastRun(a);
    LastRun(b);
    NormalEnd(a);
    NormalEnd(b);
  }

  /** The last block is as long as it can be. */
  lemma LastRun(a: seq<int>)
    requires NonZero(a) && AlternatingTo(a, |a|) && a != []
    ensures var m, s := Map(a), a[|a| - 1];
      && Abs(s) <= |m| && (forall x :: |m| - Abs(s) <= x < |m| ==> m[x] == (s > 0))
      && (Abs(s) < |m| ==> m[|m| - Abs(s) - 1] != (s > 0))
  {
    var n := |a| - 1;
    if n > 0 {
      NormalEnd(a[..n]);
      assert (a[n - 1] > 0) != (a[n - 1 + 1] > 0);
    }
  }

  /** Lists in the kept form that know the same bytes are the same list. */
  lemma SameKnownSameList(a: seq<int>, b: seq<int>)
    requires Normal(a) && Normal(b) && forall x :: Known(Map(a), x) <==> Known(Map(b), x)
    ensures a == b
  {
    if a != [] { NormalEnd(a); assert Known(Map(a), |Map(a)| - 1); }
    if b != [] { NormalEnd(b); assert Known(Map(b), |Map(b)| - 1); }
    assert |Map(a)| == |Map(b)|;
    forall x | 0 <= x < |Map(a)| ensures Map(a)[x] == Map(b)[x] {
      assert Known(Map(a), x) <==> Known(Map(b), x);
    }
    assert Map(a) == Map(b);
    NormalUnique(a, b);
  }
}
