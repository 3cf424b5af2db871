/** A byte stream in memory, kept in blocks of 4096 bytes that are allocated as they are first written. */
module MemoryStream {
  const BLOCK := 0x1000

  /** The blocks as values; a block that is not allocated is empty. */
  type Image = seq<seq<int>>

  /** Every block with a byte below `size` is allocated. */
  ghost predicate Allocated(img: Image, size: int) {
    forall b :: 0 <= b && b * BLOCK < size ==> b < |img| && |img[b]| == BLOCK
  }

  /** No other block is. */
  ghost predicate Tight(img: Image, size: int) {
    forall b :: 0 <= b < |img| && b * BLOCK >= size ==> img[b] == []
  }

  /** The block of byte `k` is allocated. */
  ghost predicate Has(img: Image, k: nat) {
    k / BLOCK < |img| && |img[k / BLOCK]| == BLOCK
  }

  /** Byte `k` of the blocks. */
  ghost function At(img: Image, k: nat): int
    requires Has(img, k)
  {
    Place(k);
    img[k / BLOCK][k % BLOCK]
  }

  lemma Place(k: nat)
    ensures 0 <= k / BLOCK && k / BLOCK * BLOCK + k % BLOCK == k && 0 <= k % BLOCK < BLOCK
  {
  }

  lemma AllocatedHas(img: Image, size: int, k: nat)
    requires Allocated(img, size) && k < size
    ensures Has(img, k)
  {
    Place(k);
  }

  ghost function Contents(img: Image, size: nat): (s: seq<int>)
    requires Allocated(img, size)
    ensures |s| == size
    ensures forall k: nat :: k < size ==> Has(img, k) && s[k] == At(img, k)
  {
    forall k: nat | k < size ensures Has(img, k) { AllocatedHas(img, size, k); }
    seq(size, k requires 0 <= k < size && Has(img, k) => At(img, k))
  }

  /** What a write of `data` at `at` makes of the bytes: it overwrites, and goes on past the end. */
  ghost function Overwritten(s: seq<int>, at: nat, data: seq<int>): seq<int>
    requires at <= |s|
  {
    s[..at] + data + if at + |data| <= |s| then s[at + |data|..] else []
  }

  /** Copying `data` into the block of `at`. */
  ghost function Patched(img: Image, at: nat, data: seq<int>): Image
    requires Has(img, at) && at % BLOCK + |data| <= BLOCK
  {
    Place(at);
    img[at / BLOCK := Overwritten(img[at / BLOCK], at % BLOCK, data)]
  }

  /** The same blocks are allocated. */
  ghost predicate SameShape(a: Image, b: Image) {
    |a| == |b| && forall i :: 0 <= i < |a| ==> |a[i]| == |b[i]|
  }

  lemma SameShapeTwice(a: Image, b: Image, c: Image)
    requires SameShape(a, b) && SameShape(b, c)
    ensures SameShape(a, c)
  {
  }

  lemma SameBlocks(a: Image, b: Image, size: int)
    requires SameShape(a, b) && Tight(a, size)
    ensures (Allocated(a, size) <==> Allocated(b, size)) && Tight(b, size)
  {
    assert forall i :: 0 <= i < |a| ==> |a[i]| == |b[i]|;
    forall i | 0 <= i < |b| && i * BLOCK >= size ensures b[i] == [] { assert |a[i]| == 0; }
  }

  lemma PatchedShape(img: Image, at: nat, data: seq<int>)
    requires Has(img, at) && at % BLOCK + |data| <= BLOCK
    ensures SameShape(img, Patched(img, at, data))
  {
    Place(at);
  }

  lemma PatchedAt(img: Image, at: nat, data: seq<int>, k: nat)
    requires Has(img, at) && at % BLOCK + |data| <= BLOCK && Has(img, k)
    ensures Has(Patched(img, at, data), k)
    ensures At(Patched(img, at, data), k) == if at <= k < at + |data| then data[k - at] else At(img, k)
  {
    Place(at);
    Place(k);
  }

  /** How many of `n` bytes fit the block of `at`. */
  ghost function BlockPart(at: nat, n: nat): (r: nat)
    requires n > 0
    ensures 0 < r <= n && at % BLOCK + r <= BLOCK
  {
    Place(at);
    if n < BLOCK - at % BLOCK then n else BLOCK - at % BLOCK
  }

  /** The first `n` bytes of `data` have been written at `at`; the other bytes below `size` are as before. */
  ghost predicate WrittenTo(was: Image, img: Image, size: nat, at: nat, data: seq<int>, n: int) {
    && 0 <= n <= |data|
    && (forall k: nat :: k < size ==> Has(was, k))
    && (forall k: nat :: k < size || at <= k < at + |data| ==> Has(img, k))
    && (forall k: nat :: at <= k < at + n ==> At(img, k) == data[k - at])
    && (forall k: nat :: k < size && !(at <= k < at + n) ==> At(img, k) == At(was, k))
  }

  lemma WrittenStep(was: Image, img: Image, size: nat, at: nat, data: seq<int>, n: nat, m: nat)
    requires WrittenTo(was, img, size, at, data, n) && n + m <= |data| && m > 0 && (at + n) % BLOCK + m <= BLOCK
    ensures Has(img, at + n)
    ensures WrittenTo(was, Patched(img, at + n, data[n..n + m]), size, at, data, n + m)
  {
    var from, part := at + n, data[n..n + m];
    assert Has(img, from);
    var next := Patched(img, from, part);
    forall k: nat | k < size || at <= k < at + |data|
      ensures Has(next, k) && At(next, k) == if from <= k < from + m then part[k - from] else At(img, k)
    {
      PatchedAt(img, from, part, k);
    }
  }

  /** One block copied from the data. */
  lemma BlockWritten(was: Image, shape: Image, img: Image, size: nat, start: nat, data: seq<int>, done: nat, at: nat)
    returns (next: Image)
    requires WrittenTo(was, img, size, start, data, done) && SameShape(shape, img)
    requires done < |data| && at == start + done
    ensures var end := done + BlockPart(at, |data| - done);
      && Has(img, at) && next == Patched(img, at, data[done..end])
      && WrittenTo(was, next, size, start, data, end) && SameShape(shape, next)
  {
    var n := BlockPart(at, |data| - done);
    var part := data[done..done + n];
    WrittenStep(was, img, size, start, data, done, n);
    PatchedShape(img, at, part);
    next := Patched(img, at, part);
    SameShapeTwice(shape, img, next);
  }

  lemma WrittenAll(was: Image, img: Image, size: nat, at: nat, data: seq<int>)
    requires WrittenTo(was, img, size, at, data, |data|) && at <= size && Allocated(was, size)
    requires Allocated(img, if at + |data| > size then at + |data| else size)
    ensures var total := if at + |data| > size then at + |data| else size;
      Contents(img, total) == Overwritten(Contents(was, size), at, data)
  {
    var total := if at + |data| > size then at + |data| else size;
    var s, r := Contents(img, total), Overwritten(Contents(was, size), at, data);
    forall k: nat | k < total ensures s[k] == r[k] {
      assert s[k] == At(img, k);
    }
  }

  /** The least multiple of a block that holds `n` bytes. */
  function RoundedUp(n: nat): (r: nat)
    ensures n <= r < n + BLOCK && r % BLOCK == 0
  {
    (n + BLOCK - 1) / BLOCK * BLOCK
  }

  lemma AllocatedRounded(img: Image, size: nat)
    requires Allocated(img, size)
    ensures Allocated(img, RoundedUp(size))
  {
  }

  /** Every byte of a write of `n` bytes at `at` has its block, and the old bytes are the same. */
  ghost predicate Reserved(was: Image, img: Image, size: nat, at: nat, n: nat) {
    && (forall k: nat :: k < size ==> Has(was, k))
    && (forall k: nat :: k < size || at <= k < at + n ==> Has(img, k))
    && (forall k: nat :: k < size ==> At(img, k) == At(was, k))
  }

  /** Whether a write at `at` leaves no whole block out between the end and its first byte. */
  function NoBlockSkipped(size: nat, at: nat): bool {
    at < RoundedUp(size) + BLOCK
  }

  /** The blocks from that of `from` on that are needed up to `end` are allocated; the others are as they were. */
  ghost predicate Provided(was: Image, img: Image, from: nat, end: nat) {
    && |was| <= |img|
    && (forall b :: 0 <= b < |was| && was[b] != [] ==> img[b] == was[b])
    && (forall b :: 0 <= b < |img| && !(b >= from / BLOCK && b * BLOCK < end) ==>
      img[b] == if b < |was| then was[b] else [])
    && (forall b :: b >= from / BLOCK && b * BLOCK < end ==> b < |img| && |img[b]| == BLOCK)
  }

  /** The blocks allocated for a write are those it needs; they are all there are unless a block is skipped. */
  lemma ReservedBlocks(was: Image, img: Image, size: nat, at: nat, n: nat)
    requires Allocated(was, size) && Tight(was, size) && n > 0
    requires Provided(was, img, at, at + n) && at + n > size
    ensures Reserved(was, img, size, at, n) && Tight(img, at + n)
    ensures Allocated(img, at + n) <==> NoBlockSkipped(size, at)
  {
    forall k: nat | k < size ensures Has(was, k) && Has(img, k) && At(img, k) == At(was, k) {
      AllocatedHas(was, size, k);
    }
    forall k: nat | at <= k < at + n ensures Has(img, k) {
      Place(k);
      Place(at);
    }
    var e := RoundedUp(size) / BLOCK;
    assert e * BLOCK == RoundedUp(size);
    Place(at);
    if NoBlockSkipped(size, at) {
      forall b | 0 <= b && b * BLOCK < at + n ensures b < |img| && |img[b]| == BLOCK {
        if b < at / BLOCK {
          assert b < e;
          assert b * BLOCK < size;
        }
      }
    } else {
      assert e < at / BLOCK && e * BLOCK < at;
      assert e < |img| ==> img[e] == [];
    }
  }

  ghost function Present(blocks: seq<array?<int>>): set<object> {
    set b | 0 <= b < |blocks| && blocks[b] != null :: blocks[b]
  }

  ghost function ImageOf(blocks: seq<array?<int>>): (img: Image)
    reads Present(blocks)
    ensures |img| == |blocks|
  {
    seq(|blocks|, b requires 0 <= b < |blocks| reads Present(blocks) => if blocks[b] == null then [] else blocks[b][..])
  }

  /** Copy part of `data` to `offset` of a block. */
  method CopyInto(block: array<int>, offset: nat, data: seq<int>, from: nat, n: nat)
    requires from + n <= |data| && offset + n <= block.Length
    modifies block
    ensures block[..] == Overwritten(old(block[..]), offset, data[from..from + n])
  {
    ghost var was := block[..];
    for i := 0 to n
      invariant forall k :: 0 <= k < block.Length ==>
        block[k] == if offset <= k < offset + i then data[from + k - offset] else was[k]
    {
      block[offset + i] := data[from + i];
    }
  }

  datatype Whence = Set | Current | End

  class Memory {
    var blocks: seq<array?<int>>
    var where: nat
    var size: nat

    constructor ()
      ensures Valid() && Bytes() == [] && where == 0 && size == 0
    {
      blocks, where, size := [], 0, 0;
    }

    /** The blocks that are allocated. */
    ghost function Arrays(): set<object>
      reads this`blocks
    {
      Present(blocks)
    }

    ghost function View(): (img: Image)
      reads this`blocks, Arrays()
      ensures |img| == |blocks|
    {
      ImageOf(blocks)
    }

    /** Allocated blocks have one size and are different arrays. */
    ghost predicate Separate()
      reads this`blocks
    {
      && (forall b :: 0 <= b < |blocks| && blocks[b] != null ==> blocks[b].Length == BLOCK)
      && (forall b, c :: 0 <= b < c < |blocks| && blocks[b] != null ==> blocks[b] != blocks[c])
    }

    /** The blocks with a byte below the size are allocated, and no others. */
    ghost predicate Valid()
      reads this`blocks, this`size, Arrays()
    {
      && Separate() && Allocated(View(), size)
      && forall b :: 0 <= b < |blocks| && b * BLOCK >= size ==> blocks[b] == null
    }

    ghost function Bytes(): (s: seq<int>)
      reads this`blocks, this`size, Arrays()
      requires Valid()
      ensures |s| == size
    {
      Contents(View(), size)
    }

    /** Make room in the table of blocks. */
    method GrowTable(end: nat)
      requires Separate()
      modifies this`blocks
      ensures Separate() && |blocks| >= |old(blocks)| && |blocks| * BLOCK >= end
      ensures blocks[..|old(blocks)|] == old(blocks)
      ensures forall b :: |old(blocks)| <= b < |blocks| ==> blocks[b] == null
    {
      if end > |blocks| * BLOCK {
        var wanted := (end + 0xffff) / 0x1_0000 * 16;
        ghost var was := blocks;
        blocks := blocks + seq(wanted - |blocks|, b => null);
        assert forall b :: 0 <= b < |was| ==> blocks[b] == was[b];
      }
    }

    /** Allocate the blocks from that of `from` on that are needed up to `end`. */
    method AllocateBlocks(from: nat, end: nat)
      requires Separate() && |blocks| * BLOCK >= end
      modifies this`blocks
      ensures Separate() && |blocks| == |old(blocks)|
      ensures forall b :: 0 <= b < |blocks| && old(blocks)[b] != null ==> blocks[b] == old(blocks)[b]
      ensures forall b :: 0 <= b < |blocks| && blocks[b] != old(blocks)[b] ==> blocks[b] != null && fresh(blocks[b])
      ensures forall b :: from / BLOCK <= b && b * BLOCK < end ==> blocks[b] != null
      ensures forall b :: 0 <= b < |blocks| && !(from / BLOCK <= b && b * BLOCK < end) ==> blocks[b] == old(blocks)[b]
    {
      var b := from / BLOCK;
      while b * BLOCK < end
        invariant Separate() && |blocks| == |old(blocks)| && from / BLOCK <= b
        invariant forall c :: 0 <= c < |blocks| && old(blocks)[c] != null ==> blocks[c] == old(blocks)[c]
        invariant forall c :: 0 <= c < |blocks| && blocks[c] != old(blocks)[c] ==> blocks[c] != null && fresh(blocks[c])
        invariant forall c :: from / BLOCK <= c < b && c * BLOCK < end ==> blocks[c] != null
        invariant forall c :: 0 <= c < |blocks| && !(from / BLOCK <= c && c * BLOCK < end) ==>
          blocks[c] == old(blocks)[c]
        decreases end - b * BLOCK
      {
        if blocks[b] == null {
          var block := new int[BLOCK];
          blocks := blocks[b := block];
        }
        b := b + 1;
      }
    }

    /** Make room in the table, and allocate the blocks from that of `from` on that are needed up to `end`. */
    method Provide(from: nat, end: nat)
      requires Separate()
      modifies this`blocks
      ensures Separate() && Provided(old(View()), View(), from, end)
      ensures forall b :: b in Arrays() ==> b in old(Arrays()) || fresh(b)
    {
      GrowTable(end);
      AllocateBlocks(from, end);
    }

    /** Allocate what a write of `n` bytes at the cursor needs; the bytes stay. */
    method Reserve(n: nat)
      requires Valid() && n > 0
      modifies this`blocks
      ensures Separate() && Reserved(old(View()), View(), size, where, n)
      ensures var total := if where + n > size then where + n else size;
        Tight(View(), total) && (Allocated(View(), total) <==> NoBlockSkipped(size, where))
      ensures forall b :: b in Arrays() ==> b in old(Arrays()) || fresh(b)
    {
      ghost var was := View();
      AllocatedRounded(was, size);
      if where + n > RoundedUp(size) {
        Provide(where, where + n);
        ReservedBlocks(was, View(), size, where, n);
      } else {
        forall k: nat | k < size || where <= k < where + n ensures Has(was, k) {
          AllocatedHas(was, RoundedUp(size), k);
        }
      }
    }

    /** Copy part of `data` into the block of `at`. */
    method CopyIn(at: nat, data: seq<int>, from: nat, n: nat)
      requires Separate() && Has(View(), at) && from + n <= |data| && at % BLOCK + n <= BLOCK
      modifies Arrays()
      ensures View() == Patched(old(View()), at, data[from..from + n])
    {
      var block, offset := blocks[at / BLOCK], at % BLOCK;
      assert block != null by { assert View()[at / BLOCK] != []; }
      ghost var was, b := View(), at / BLOCK;
      CopyInto(block, offset, data, from, n);
      ghost var next := Patched(was, at, data[from..from + n]);
      forall c | 0 <= c < |blocks| ensures View()[c] == next[c] {
        assert c != b ==> blocks[c] != blocks[b];
      }
    }

    /** Write bytes at the cursor: they overwrite what is there and go on past the end. */
    method Write(data: seq<int>)
      requires Valid()
      modifies this, Arrays()
      ensures where == old(where) + |data|
      ensures size == if data != [] && where > old(size) then where else old(size)
      ensures Valid() <==> data == [] || NoBlockSkipped(old(size), old(where))
      ensures WrittenTo(old(View()), View(), old(size), old(where), data, |data|)
      ensures old(where) <= old(size) ==> Valid() && Bytes() == Overwritten(old(Bytes()), old(where), data)
      ensures forall b :: b in Arrays() ==> b in old(Arrays()) || fresh(b)
    {
      ghost var was, start, before := View(), where, size;
      if data == [] {
        forall k: nat | k < size ensures Has(was, k) { AllocatedHas(was, size, k); }
        assert start <= size ==> Overwritten(Bytes(), start, data) == Bytes();
        return;
      }
      ghost var img := WriteData(data);
      if start <= before {
        WrittenAll(was, img, before, start, data);
        assert NoBlockSkipped(before, start);
      }
      assert forall b :: 0 <= b < |blocks| ==> (blocks[b] == null <==> img[b] == []);
    }

    /** Write bytes when there are any. */
    method WriteData(data: seq<int>) returns (ghost img: Image)
      requires Valid() && data != []
      modifies this, Arrays()
      ensures where == old(where) + |data| && size == if where > old(size) then where else old(size)
      ensures Separate() && View() == img && Tight(img, size)
      ensures Allocated(img, size) <==> NoBlockSkipped(old(size), old(where))
      ensures WrittenTo(old(View()), img, old(size), old(where), data, |data|)
      ensures forall b :: b in Arrays() ==> b in old(Arrays()) || fresh(b)
    {
      ghost var was, end := View(), where + |data|;
      Reserve(|data|);
      ghost var shape, total := View(), if end > size then end else size;
      WriteBlocks(data, was);
      img := View();
      SameBlocks(shape, img, total);
      if where > size { size := where; }
      assert View() == img;
    }

    /** Write the data block by block where room has been made for it. */
    method WriteBlocks(data: seq<int>, ghost was: Image)
      requires Separate() && WrittenTo(was, View(), size, where, data, 0)
      modifies this`where, Arrays()
      ensures Separate() && where == old(where) + |data|
      ensures WrittenTo(was, View(), size, old(where), data, |data|) && SameShape(old(View()), View())
    {
      ghost var start, shape, img := where, View(), View();
      var done := 0;
      while done < |data|
        invariant Separate() && 0 <= done <= |data| && where == start + done && View() == img
        invariant WrittenTo(was, img, size, start, data, done) && SameShape(shape, img)
      {
        ghost var next := BlockWritten(was, shape, img, size, start, data, done, where);
        done := WriteBlock(data, done);
        img := next;
      }
    }

    /** Write as much of the data as fits the block of the cursor. */
    method WriteBlock(data: seq<int>, done: nat) returns (next: nat)
      requires Separate() && done < |data| && Has(View(), where)
      modifies this`where, Arrays()
      ensures next == done + BlockPart(old(where), |data| - done) && where == old(where) + (next - done) && Separate()
      ensures View() == Patched(old(View()), old(where), data[done..next])
    {
      var n := BLOCK - where % BLOCK;
      if |data| - done < n { n := |data| - done; }
      next := done + n;
      ghost var patched := Patched(View(), where, data[done..next]);
      CopyIn(where, data, done, n);
      where := where + n;
      assert View() == patched;
    }

    /** Up to `n` bytes from a position on. */
    method ReadAt(n: nat, pos: nat) returns (data: seq<int>)
      requires Valid()
      ensures data == Slice(Bytes(), pos, n)
    {
      var left := if pos + n > size then size - pos else n;
      if left > 0 {
        data := ReadRange(pos, left);
      } else {
        data := [];
      }
    }

    /** The bytes from `pos` on, block by block. */
    method ReadRange(pos: nat, n: nat) returns (data: seq<int>)
      requires Valid() && pos + n <= size
      ensures data == Bytes()[pos..pos + n]
    {
      ghost var s, end := Bytes(), pos + n;
      var at, left := pos, n;
      data := [];
      while left > 0
        invariant pos <= at <= end <= |s| && at + left == end && data == s[pos..at]
        decreases left
      {
        var part, next := ReadPart(at, left, s);
        Onwards(s, pos, at, next, data, part);
        data := data + part;
        left := left - (next - at);
        at := next;
      }
    }

    /** The bytes from `at` on that are in its block, `left` at most. */
    method ReadPart(at: nat, left: nat, ghost s: seq<int>) returns (part: seq<int>, next: nat)
      requires Valid() && at + left <= size && left > 0 && s == Bytes()
      ensures at < next <= at + left && part == s[at..next]
    {
      var m := BLOCK - at % BLOCK;
      if left < m { m := left; }
      next := at + m;
      part := CopyOut(at, next);
    }

    /** Copy part of a block. */
    method CopyOut(at: nat, next: nat) returns (part: seq<int>)
      requires Valid() && at < next <= size && at % BLOCK + (next - at) <= BLOCK
      ensures part == Bytes()[at..next]
    {
      ghost var s := Bytes();
      Place(at);
      var block, offset := blocks[at / BLOCK], at % BLOCK;
      assert block != null by { assert View()[at / BLOCK] != []; }
      part := block[offset..offset + (next - at)];
      forall k | 0 <= k < next - at ensures part[k] == Bytes()[at + k] {
        Place(at + k);
        assert s[at + k] == At(View(), at + k);
      }
    }

    /** Read up to `n` bytes at the cursor and move it past them. */
    method Read(n: nat) returns (data: seq<int>)
      requires Valid()
      modifies this`where
      ensures Valid() && data == Slice(Bytes(), old(where), n) && where == old(where) + |data|
      ensures Bytes() == old(Bytes())
    {
      ghost var img := View();
      data := ReadAt(n, where);
      where := where + |data|;
      assert View() == img;
    }

    /** Move the cursor; not before the beginning. */
    method Seek(offset: int, whence: Whence) returns (ok: bool)
      requires Valid()
      modifies this`where
      ensures var to := offset + match whence case Set => 0 case Current => old(where) case End => size;
        ok == (to >= 0) && where == if ok then to else old(where)
      ensures Valid() && Bytes() == old(Bytes())
    {
      var base := match whence case Set => 0 case Current => where case End => size;
      if base + offset < 0 { return false; }
      ghost var img := View();
      where := base + offset;
      assert View() == img;
      ok := true;
    }
  }

  lemma Onwards(s: seq<int>, i: nat, j: nat, k: nat, a: seq<int>, b: seq<int>)
    requires i <= j <= k <= |s| && a == s[i..j] && b == s[j..k]
    ensures a + b == s[i..k]
  {
  }

  /** Up to `n` bytes of `s` from `at` on. */
  ghost function Slice(s: seq<int>, at: nat, n: nat): seq<int> {
    if at >= |s| then [] else s[at..if at + n > |s| then |s| else at + n]
  }

  /** A write reads back: the bytes written, and before and after them what was there. */
  lemma WriteReads(s: seq<int>, at: nat, data: seq<int>)
    requires at <= |s|
    ensures var r := Overwritten(s, at, data);
      && |r| == (if at + |data| > |s| then at + |data| else |s|)
      && Slice(r, at, |data|) == data && r[..at] == s[..at]
      && (at + |data| < |s| ==> r[at + |data|..] == s[at + |data|..])
  {
  }

  /** Write at the cursor, go back and read the same number of bytes. */
  method WriteAndRead(m: Memory, data: seq<int>) returns (back: seq<int>)
    requires m.Valid() && m.where <= m.size
    modifies m, m.Arrays()
    ensures back == data && m.where == old(m.where) + |data|
    ensures m.Valid() && m.Bytes() == Overwritten(old(m.Bytes()), old(m.where), data)
  {
    var at := m.where;
    WriteReads(m.Bytes(), at, data);
    m.Write(data);
    var sought := m.Seek(at, Set);
    back := m.Read(|data|);
  }

  /** A write that leaves block 0 out: it has bytes below the size, and is not allocated. */
  method SkippedBlock() returns (m: Memory)
    ensures m.size == 0x1002 && !m.Valid()
  {
    m := new Memory();
    var sought := m.Seek(0x1001, Set);
    assert RoundedUp(0) == 0;
    m.Write([7]);
  }
}
