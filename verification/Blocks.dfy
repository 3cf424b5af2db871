/** The list of known and unknown blocks of a data pool. */
module Blocks {
  import opened RunLengths
  import opened Sequences

  /** A list being marked: `done` covers what `seen`, the first blocks of the old list, covered. */
  ghost predicate Marking(seen: seq<int>, done: seq<int>, start: int, end: int) {
    && NonZero(done) && Map(done) == Marked(Map(seen), 0, start, end)
    && (seen != [] && seen[|seen| - 1] > 0 ==> done != [] && done[|done| - 1] > 0)
    && (seen == [] ==> done == [])
  }

  /** The next block of the old list has been replaced by `pieces`. */
  lemma MarkingStep(seen: seq<int>, done: seq<int>, size: int, pieces: seq<int>, start: int, end: int)
    requires Marking(seen, done, start, end) && NonZero(pieces) && pieces != []
    requires Map(pieces) == Marked(Run(size), Total(seen), start, end)
    requires size > 0 ==> pieces[|pieces| - 1] > 0
    ensures Marking(seen + [size], done + pieces, start, end)
    ensures Total(seen + [size]) == Total(seen) + Abs(size)
  {
    MapAppend(done, pieces);
    MapPush(seen, size);
    MarkedNext(Map(seen), Run(size), Map(done), Map(pieces), start, end);
    NonZeroBoth(done, pieces);
  }

  lemma MarkedNext(m: seq<bool>, r: seq<bool>, d: seq<bool>, p: seq<bool>, start: int, end: int)
    requires d == Marked(m, 0, start, end) && p == Marked(r, |m|, start, end)
    ensures d + p == Marked(m + r, 0, start, end)
  {
    MarkedAppend(m, r, 0, start, end);
  }

  lemma NonZeroBoth(a: seq<int>, b: seq<int>)
    requires NonZero(a) && NonZero(b)
    ensures NonZero(a + b) && (b != [] ==> (a + b)[|a + b| - 1] == b[|b| - 1])
  {
  }

  /** Once the interval is passed nothing changes. */
  lemma MarkingRest(seen: seq<int>, done: seq<int>, rest: seq<int>, start: int, end: int)
    requires Marking(seen, done, start, end) && NonZero(rest) && (rest == [] || Total(seen) >= end)
    ensures Marking(seen + rest, done + rest, start, end)
  {
    if rest == [] {
      assert seen + rest == seen && done + rest == done;
    } else {
      MarkedRest(seen, done, rest, start, end);
      NonZeroBoth(done, rest);
      LastOfBoth(seen, rest);
    }
  }

  lemma LastOfBoth(a: seq<int>, b: seq<int>)
    requires b != []
    ensures a + b != [] && (a + b)[|a + b| - 1] == b[|b| - 1]
  {
  }

  lemma MarkingAll(was: seq<int>, n: nat, runs: seq<int>, pos: nat, start: int, end: int)
    requires n <= |was| && pos <= |runs| && NonZero(runs) && runs[pos..] == was[n..]
    requires Marking(was[..n], runs[..pos], start, end) && (pos == |runs| || Total(was[..n]) >= end)
    ensures Marking(was, runs, start, end) && Total(was[..n]) <= Total(was)
    ensures pos == |runs| ==> Total(was[..n]) == Total(was)
  {
    MarkingRest(was[..n], runs[..pos], runs[pos..], start, end);
    SplitAt(was, n);
    SplitAt(runs, pos);
    MapAppend(was[..n], was[n..]);
  }

  lemma MarkedRest(seen: seq<int>, done: seq<int>, rest: seq<int>, start: int, end: int)
    requires Map(done) == Marked(Map(seen), 0, start, end) && Total(seen) >= end
    ensures Map(done + rest) == Marked(Map(seen + rest), 0, start, end)
  {
    MapAppend(seen, rest);
    MapAppend(done, rest);
    MarkedAppend(Map(seen), Map(rest), 0, start, end);
    MarkedBeyond(Map(rest), Total(seen), start, end);
  }

  function Least(a: int, b: int): int { if a <= b then a else b }

  function Most(a: int, b: int): int { if a >= b then a else b }

  /** How much of a block of `size` bytes at `base` lies before `x`. */
  function Before(base: int, size: nat, x: int): nat {
    Most(0, Least(x - base, size))
  }

  /** An unknown block is split in up to three: before, inside and after the interval. */
  lemma Split(base: int, size: nat, start: int, end: int)
    requires start < end
    ensures var a, b := Before(base, size, start), Before(base, size, end);
      a <= b <= size && Run(0 - a) + Run(b - a) + Run(b - size) == Marked(Run(0 - size), base, start, end)
  {
  }

  lemma KnownBlock(base: int, size: int, start: int, end: int)
    requires size > 0
    ensures Map([size]) == Marked(Run(size), base, start, end)
  {
    MapOne(size);
  }

  /** The list knows what `was` knew and the interval, and ends with a known block. */
  ghost predicate Extended(was: seq<int>, runs: seq<int>, start: int, end: int) {
    NonZero(runs) && Map(runs) == Union(Map(was), start, end) && runs != [] && runs[|runs| - 1] > 0
  }

  /** What is appended when the interval begins past the end of the list. */
  lemma MarkedAfterEnd(was: seq<int>, done: seq<int>, gap: int, length: int, start: int, end: int)
    requires Marking(was, done, start, end) && gap > 0 && length > 0
    requires start == Total(was) + gap && end == start + length
    ensures Extended(was, done + [-gap, length], start, end)
  {
    var more := [-gap, length];
    MapAppend(done, more);
    MapTwo(-gap, length);
    UnionAfterEnd(Map(was), Map(done), gap, length, start, end);
    NonZeroBoth(done, more);
  }

  lemma UnionAfterEnd(m: seq<bool>, d: seq<bool>, gap: int, length: int, start: int, end: int)
    requires d == Marked(m, 0, start, end) && gap > 0 && length > 0 && start == |m| + gap && end == start + length
    ensures d + (Run(-gap) + Run(length)) == Union(m, start, end)
  {
  }

  /** What is appended when it begins before the end and goes past it. */
  lemma MarkedOverEnd(was: seq<int>, done: seq<int>, more: int, start: int, end: int)
    requires Marking(was, done, start, end) && 0 <= start <= Total(was) && more > 0 && end == Total(was) + more
    ensures Extended(was, done + [more], start, end)
  {
    MapPush(done, more);
  }

  /** Nothing is appended when it ends before the end. */
  lemma MarkedWithin(was: seq<int>, done: seq<int>, start: int, end: int)
    requires Marking(was, done, start, end) && Normal(was) && 0 <= start < end <= Total(was)
    ensures Extended(was, done + [], start, end)
  {
    assert done + [] == done;
  }

  /** Joining the blocks at `pos` and after it, when they are of one sign. */
  lemma Join(runs: seq<int>, pos: nat, joined: seq<int>)
    requires NonZero(runs) && pos + 1 < |runs| && (runs[pos] > 0) == (runs[pos + 1] > 0)
    requires joined == runs[..pos] + [runs[pos] + runs[pos + 1]] + runs[pos + 2..]
    ensures Map(joined) == Map(runs)
  {
    PairApart(runs, pos);
    JoinParts(runs[..pos], runs[pos], runs[pos + 1], runs[pos + 2..]);
  }

  lemma JoinParts(x: seq<int>, a: int, b: int, y: seq<int>)
    requires a != 0 && b != 0 && (a > 0) == (b > 0)
    ensures Map(x + [a, b] + y) == Map(x + [a + b] + y)
  {
    MapPair(x, a, b, y);
    MapParts(x, a + b, y);
    RunJoin(a, b);
  }

  lemma PairApart(runs: seq<int>, pos: nat)
    requires pos + 1 < |runs|
    ensures runs == runs[..pos] + [runs[pos], runs[pos + 1]] + runs[pos + 2..]
  {
  }

  lemma MapPair(x: seq<int>, a: int, b: int, y: seq<int>)
    ensures Map(x + [a, b] + y) == Map(x) + (Run(a) + Run(b)) + Map(y)
  {
    MapAppend(x + [a, b], y);
    MapAppend(x, [a, b]);
    MapTwo(a, b);
  }

  lemma JoinNonZero(runs: seq<int>, pos: nat, joined: seq<int>)
    requires NonZero(runs) && pos + 1 < |runs| && (runs[pos] > 0) == (runs[pos + 1] > 0)
    requires joined == runs[..pos] + [runs[pos] + runs[pos + 1]] + runs[pos + 2..]
    ensures NonZero(joined) && |joined| == |runs| - 1 && joined[..pos] == runs[..pos]
    ensures joined[pos] > 0 <==> runs[pos] > 0
  {
  }

  lemma RunJoin(a: int, b: int)
    requires a != 0 && b != 0 && (a > 0) == (b > 0)
    ensures Run(a) + Run(b) == Run(a + b)
  {
  }

  /** The pieces of a block at `base`: the part inside the interval is known. */
  ghost predicate ArePieces(size: int, base: int, pieces: seq<int>, start: int, end: int) {
    && NonZero(pieces) && pieces != [] && Map(pieces) == Marked(Run(size), base, start, end)
    && (size > 0 ==> pieces[|pieces| - 1] > 0)
  }

  /** The first `n` blocks of `was` have been marked, and take the first `pos` blocks of `runs`. */
  ghost predicate MarkingAt(was: seq<int>, n: int, runs: seq<int>, pos: int, start: int, end: int) {
    && 0 <= n <= |was| && 0 <= pos <= |runs| && NonZero(runs) && runs[pos..] == was[n..]
    && Marking(was[..n], runs[..pos], start, end)
  }

  lemma MarkingAtStep(was: seq<int>, n: int, runs: seq<int>, pos: int, pieces: seq<int>, start: int, end: int)
    requires MarkingAt(was, n, runs, pos, start, end) && pos < |runs|
    requires ArePieces(runs[pos], Total(was[..n]), pieces, start, end)
    ensures MarkingAt(was, n + 1, runs[..pos] + pieces + runs[pos + 1..], pos + |pieces|, start, end)
    ensures n < |was| && Total(was[..n + 1]) == Total(was[..n]) + Abs(runs[pos])
  {
    Replaced(was, n, runs, pos, pieces);
    MarkingStep(was[..n], runs[..pos], runs[pos], pieces, start, end);
  }

  lemma Replaced(was: seq<int>, n: nat, runs: seq<int>, pos: nat, pieces: seq<int>)
    requires n <= |was| && pos < |runs| && runs[pos..] == was[n..] && NonZero(runs) && NonZero(pieces)
    ensures var next := runs[..pos] + pieces + runs[pos + 1..];
      && n < |was| && was[..n + 1] == was[..n] + [runs[pos]] && NonZero(next)
      && next[..pos + |pieces|] == runs[..pos] + pieces && next[pos + |pieces|..] == was[n + 1..]
  {
    assert runs[pos] == runs[pos..][0] == was[n];
    assert runs[pos..][1..] == runs[pos + 1..] && was[n..][1..] == was[n + 1..];
  }

  /** The pieces of a block: the part inside the interval becomes known. */
  method SplitBlock(size: int, blockStart: int, start: int, length: int) returns (pieces: seq<int>)
    requires size != 0 && length > 0 && blockStart < start + length
    ensures ArePieces(size, blockStart, pieces, start, start + length)
  {
    var blockEnd := blockStart + Abs(size);
    pieces := [size];
    if size > 0 {
      KnownBlock(blockStart, size, start, start + length);
    } else if blockStart < start {
      if blockEnd > start && blockEnd <= start + length {
        pieces := [-(start - blockStart), blockEnd - start];
        MapTwo(pieces[0], pieces[1]);
        Split(blockStart, Abs(size), start, start + length);
      } else if blockEnd > start + length {
        pieces := [-(start - blockStart), length, -(blockEnd - (start + length))];
        MapThree(pieces[0], pieces[1], pieces[2]);
        Split(blockStart, Abs(size), start, start + length);
      } else {
        MapOne(size);
        Split(blockStart, Abs(size), start, start + length);
      }
    } else if blockEnd <= start + length {
      pieces := [Abs(size)];
      MapOne(Abs(size));
      Split(blockStart, Abs(size), start, start + length);
    } else {
      pieces := [start + length - blockStart, -(blockEnd - (start + length))];
      MapTwo(pieces[0], pieces[1]);
      Split(blockStart, Abs(size), start, start + length);
    }
  }

  /** The blocks to append for the part of the interval past the end of the list. */
  method Missing(blockEnd: int, start: int, length: int, ghost was: seq<int>, ghost done: seq<int>)
    returns (more: seq<int>)
    requires Marking(was, done, start, start + length) && Normal(was) && 0 <= start && length > 0
    requires blockEnd == Total(was) || start + length <= blockEnd <= Total(was)
    ensures Extended(was, done + more, start, start + length)
  {
    if blockEnd < start {
      var gap := start - blockEnd;
      MarkedAfterEnd(was, done, gap, length, start, start + length);
      more := [-gap, length];
    } else if blockEnd < start + length {
      var rest := start + length - blockEnd;
      MarkedOverEnd(was, done, rest, start, start + length);
      more := [rest];
    } else {
      MarkedWithin(was, done, start, start + length);
      more := [];
    }
  }

  datatype Outcome = Fine | NegativeStart | BadLength

  class BlockList {
    var list: seq<int>

    constructor ()
      ensures list == []
    {
      list := [];
    }

    ghost predicate Valid()
      reads this
    {
      Normal(list)
    }

    /** Split the block at `pos`; returns the position after its pieces. */
    method MarkBlock(pos: int, blockStart: int, start: int, length: int, ghost was: seq<int>, ghost n: int)
      returns (next: int)
      requires MarkingAt(was, n, list, pos, start, start + length) && pos < |list| && length > 0
      requires blockStart == Total(was[..n]) < start + length
      modifies this
      ensures MarkingAt(was, n + 1, list, next, start, start + length)
      ensures Total(was[..n + 1]) == blockStart + Abs(old(list[pos]))
    {
      var pieces := SplitBlock(list[pos], blockStart, start, length);
      MarkingAtStep(was, n, list, pos, pieces, start, start + length);
      list := list[..pos] + pieces + list[pos + 1..];
      next := pos + |pieces|;
    }

    /** The first pass: make the interval known, splitting unknown blocks and appending at the end. */
    method Mark(start: int, length: int)
      requires Valid() && 0 <= start && length > 0
      modifies this
      ensures NonZero(list) && Map(list) == Union(Map(old(list)), start, start + length)
      ensures list != [] && list[|list| - 1] > 0
    {
      ghost var was := list;
      ghost var n := 0;
      var pos, blockStart, blockEnd := 0, 0, 0;
      while pos < |list| && blockStart < start + length
        invariant MarkingAt(was, n, list, pos, start, start + length)
        invariant blockStart == blockEnd == Total(was[..n])
        decreases |was| - n
      {
        blockEnd := blockStart + Abs(list[pos]);
        pos := MarkBlock(pos, blockStart, start, length, was, n);
        n := n + 1;
        blockStart := blockEnd;
      }
      MarkingAll(was, n, list, pos, start, start + length);
      var more := Missing(blockEnd, start, length, was, list);
      list := list + more;
    }

    /** The second pass: join neighbours of one sign. */
    method Merge()
      requires NonZero(list)
      modifies this
      ensures NonZero(list) && AlternatingTo(list, |list|) && Map(list) == Map(old(list))
    {
      var pos := 0;
      while pos < |list|
        invariant pos <= |list| && NonZero(list) && AlternatingTo(list, pos) && Map(list) == Map(old(list))
        decreases |list| - pos
      {
        MergeAt(pos);
        pos := pos + 1;
      }
    }

    /** Join the block at `pos` with those after it of its sign. */
    method MergeAt(pos: nat)
      requires pos < |list| && NonZero(list) && AlternatingTo(list, pos)
      modifies this
      ensures pos < |list| <= |old(list)| && NonZero(list) && AlternatingTo(list, pos + 1)
      ensures Map(list) == Map(old(list))
    {
      ghost var n, m := |list|, Map(list);
      while pos + 1 < |list|
        invariant pos < |list| <= n && NonZero(list) && AlternatingTo(list, pos) && Map(list) == m
        decreases |list|
      {
        if (list[pos] < 0 && list[pos + 1] > 0) || (list[pos] > 0 && list[pos + 1] < 0) { break; }
        ghost var runs := list;
        list := list[..pos] + [list[pos] + list[pos + 1]] + list[pos + 2..];
        Join(runs, pos, list);
        JoinNonZero(runs, pos, list);
      }
    }

    /** Make the interval known. The list stays in its normal form, and knows what it knew and the interval. */
    method AddRange(start: int, length: int) returns (r: Outcome)
      requires Valid()
      modifies this
      ensures Valid()
      ensures r == if start < 0 then NegativeStart else if length <= 0 then BadLength else Fine
      ensures r.Fine? ==> forall x :: Known(Map(list), x) <==> Known(Map(old(list)), x) || start <= x < start + length
      ensures !r.Fine? ==> list == old(list)
    {
      if start < 0 { return NegativeStart; }
      if length <= 0 { return BadLength; }
      UnionKnows(Map(list), start, start + length);
      Mark(start, length);
      ghost var marked := list;
      Merge();
      NormalEnd(marked);
      if list != [] { NormalEnd(list); }
      r := Fine;
    }

    /** How many bytes of the interval are known. */
    method GetBytes(start: int, length: int) returns (ok: bool, bytes: int)
      requires Valid()
      ensures ok <==> length >= 0
      ensures ok ==> bytes == Count(Map(list), start, start + length)
    {
      if length < 0 { return false, 0; }
      ok, bytes := true, 0;
      var blockStart, blockEnd := 0, 0;
      var pos := 0;
      ghost var m, end := Map(list), start + length;
      CountBefore(m, start, end);
      while pos < |list| && blockStart < start + length
        invariant 0 <= pos <= |list| && blockStart == Total(list[..pos])
        invariant bytes == Count(m, start, Least(end, Most(start, blockStart)))
        decreases |list| - pos
      {
        var size := list[pos];
        blockEnd := blockStart + Abs(size);
        MapBlock(list, pos);
        CountBlock(m, start, end, blockStart, blockEnd, size > 0);
        if size > 0 {
          if blockStart < start {
            if blockEnd >= start && blockEnd < start + length {
              bytes := bytes + (blockEnd - start);
            } else if blockEnd >= start + length {
              bytes := bytes + length;
            }
          } else {
            if blockEnd <= start + length {
              bytes := bytes + (blockEnd - blockStart);
            } else {
              bytes := bytes + (start + length - blockStart);
            }
          }
        }
        blockStart := blockEnd;
        pos := pos + 1;
      }
      assert list[..|list|] == list;
      CountAfter(m, start, end, blockStart, pos == |list|);
    }

    /**
     The known bytes from `start` on: -1 in an unknown block, 0 past the end, else as many as there are up to
     `length`.
     */
    method GetRange(start: int, length: int) returns (r: Outcome, range: int)
      requires Valid()
      ensures r == if start < 0 then NegativeStart else if length <= 0 then BadLength else Fine
      ensures r.Fine? ==> IsRange(Map(list), start, length, range)
    {
      if start < 0 { return NegativeStart, 0; }
      if length <= 0 { return BadLength, 0; }
      r, range := Fine, 0;
      var blockStart, blockEnd := 0, 0;
      var pos := 0;
      while pos < |list| && blockStart < start + length
        invariant 0 <= pos <= |list| && blockStart == Total(list[..pos]) <= start
        decreases |list| - pos
      {
        var size := list[pos];
        blockEnd := blockStart + Abs(size);
        MapBlock(list, pos);
        if blockStart <= start && blockEnd > start {
          if size < 0 { return Fine, -1; }
          BlockEnds(list, pos);
          if blockEnd > start + length { return Fine, length; }
          return Fine, blockEnd - start;
        }
        blockStart := blockEnd;
        pos := pos + 1;
      }
      assert list[..|list|] == list;
    }
  }

  /** A range query at an unknown byte before known ones answers -1, not 0. */
  method UnknownBeforeKnown() returns (range: int)
    ensures range == -1
  {
    var blocks := new BlockList();
    var added := blocks.AddRange(10, 5);
    assert Known(Map(blocks.list), 10) && !Known(Map(blocks.list), 0);
    var found;
    found, range := blocks.GetRange(0, 3);
  }

  /** What a range query answers, said of the map. */
  ghost predicate IsRange(m: seq<bool>, start: int, length: int, range: int) {
    && (range == -1 <==> start < |m| && !Known(m, start))
    && (range == 0 <==> start >= |m|)
    && (range != -1 && range != 0 ==>
        && 0 < range <= length && (forall x :: start <= x < start + range ==> Known(m, x))
        && (range < length ==> !Known(m, start + range)))
  }

  /** After a known block of a normal list comes something unknown. */
  lemma BlockEnds(runs: seq<int>, pos: nat)
    requires Normal(runs) && pos < |runs| && runs[pos] > 0
    ensures !Known(Map(runs), Total(runs[..pos + 1]))
  {
    if pos + 1 < |runs| {
      MapBlock(runs, pos + 1);
      assert (runs[pos] > 0) != (runs[pos + 1] > 0);
    } else {
      assert runs[..pos + 1] == runs;
    }
  }

  lemma CountBefore(m: seq<bool>, start: int, end: int)
    requires start <= end
    ensures Count(m, start, Least(end, Most(start, 0))) == 0
  {
    CountConstant(m, start, Least(end, Most(start, 0)), false);
  }

  /** One block more. */
  lemma CountBlock(m: seq<bool>, start: int, end: int, blockStart: int, blockEnd: int, known: bool)
    requires start <= end && blockStart <= blockEnd && blockStart < end
    requires forall x :: blockStart <= x < blockEnd ==> (Known(m, x) <==> known)
    ensures var a, b := Least(end, Most(start, blockStart)), Least(end, Most(start, blockEnd));
      Count(m, start, b) == Count(m, start, a) + if known then b - a else 0
  {
    var a, b := Least(end, Most(start, blockStart)), Least(end, Most(start, blockEnd));
    CountSplit(m, start, a, b);
    CountConstant(m, a, b, known);
  }

  lemma CountAfter(m: seq<bool>, start: int, end: int, at: int, finished: bool)
    requires start <= end && 0 <= at && (at >= end || (finished && at == |m|))
    ensures Count(m, start, Least(end, Most(start, at))) == Count(m, start, end)
  {
    var a := Least(end, Most(start, at));
    CountSplit(m, start, a, end);
    CountConstant(m, a, end, false);
  }

  /** An interval is fully counted exactly when the range from its start covers it. */
  lemma CountedIffCovered(m: seq<bool>, start: nat, length: nat, range: int)
    requires length > 0 && IsRange(m, start, length, range)
    ensures Count(m, start, start + length) == length <==> range == length
  {
    CountFull(m, start, start + length);
    assert Count(m, start, start + length) == length ==> Known(m, start);
    assert 0 < range < length && Count(m, start, start + length) == length ==> Known(m, start + range);
  }

  /** Two ranges make the same list in either order. */
  method InEitherOrder(a: int, n: int, b: int, m: int) returns (list: seq<int>, other: seq<int>)
    ensures list == other
  {
    var one := new BlockList();
    var two := new BlockList();
    var r := one.AddRange(a, n);
    r := one.AddRange(b, m);
    r := two.AddRange(b, m);
    r := two.AddRange(a, n);
    SameKnownSameList(one.list, two.list);
    list, other := one.list, two.list;
  }
}
