/** One block on the channel: its size, the estimation speed, and the column of its transform. */
module BlockCode {
  import opened SuffixOrder
  import SortSteps
  import opened PresortSteps
  import opened Transform
  import opened Inverse
  import opened Words
  import opened Channel
  import opened SymbolCode
  import opened Powers
  import opened MoveToFront
  import opened ColumnCode
  import opened BlockSort
  import opened Unsort

  /** The limits on block sizes, in units of 1024 bytes. */
  const MINBLOCK := 10
  const MAXBLOCK := 4096

  const FREQS0 := 100000
  const FREQS1 := 1000000

  /** A coded block: the data with the marker's zero byte, the transform that was coded, and the coded bits. */
  datatype Block = Block(s: seq<int>, column: seq<int>, m: int, events: seq<Event>)

  ghost predicate IsCoded(b: Block) {
    IsSorted(b) && b.events == BlockEvents(b)
  }

  /** The transform of a block is right. */
  ghost predicate IsSorted(b: Block) {
    && IsMarked(b.s) && 2 <= |b.s| <= MAXBLOCK * 1024
    && IsTransform(b.s, b.column, b.m)
    && |b.column| == |b.s| && IsColumn(b.column) && 0 <= b.m < |b.s| && b.column[b.m] == 0
  }

  function SpeedOf(size: int): Speed {
    if size < FREQS0 then 0 else if size < FREQS1 then 1 else 2
  }

  ghost function SpeedEvents(fshift: Speed): seq<Event> {
    if fshift == 0 then [Event(-1, false)]
    else if fshift == 1 then [Event(-1, true), Event(-1, false)]
    else [Event(-1, true), Event(-1, true)]
  }

  /** The coded bits of a block after its size. */
  ghost function BodyEvents(b: Block): seq<Event>
    requires IsSorted(b)
  {
    InitialGood();
    SpeedEvents(SpeedOf(|b.s|)) + ColumnEvents(b.column, b.m, 0, Initial(), 3, SpeedOf(|b.s|))
  }

  ghost function SizeEvents(size: int): seq<Event> {
    Binary(24, size)
  }

  ghost function BlockEvents(b: Block): seq<Event>
    requires IsSorted(b)
  {
    SizeEvents(|b.s|) + BodyEvents(b)
  }

  lemma SizeFits(size: int)
    requires 0 <= size <= MAXBLOCK * 1024
    ensures size < Pow2(24) == LOW && Fits(-1, 24)
  {
    assert Pow2(8) == 256;
    PowSplit(8, 8);
    PowSplit(16, 8);
  }

  method EncodeSize(zp: Sender, size: int)
    requires 0 <= size <= MAXBLOCK * 1024
    modifies zp
    ensures zp.sent == old(zp.sent) + SizeEvents(size)
  {
    SizeFits(size);
    BitsAreBinary(1, 24, size);
    EncodeBits(zp, -1, 24, size);
  }

  method DecodeSize(zp: Receiver, ghost expected: int, ghost rest: seq<Event>) returns (size: int)
    requires 0 <= expected <= MAXBLOCK * 1024
    modifies zp
    ensures 0 <= size < LOW
    ensures old(zp.pending) == SizeEvents(expected) + rest ==> size == expected && zp.pending == rest
  {
    SizeFits(expected);
    BitsAreBinary(1, 24, expected);
    size := DecodeBits(zp, -1, 24, expected, rest);
  }

  method EncodeSpeed(zp: Sender, size: int) returns (fshift: Speed)
    modifies zp
    ensures fshift == SpeedOf(size) && zp.sent == old(zp.sent) + SpeedEvents(fshift)
  {
    if size < FREQS0 {
      fshift := 0;
      zp.Put(-1, false);
    } else if size < FREQS1 {
      fshift := 1;
      zp.Put(-1, true);
      zp.Put(-1, false);
    } else {
      fshift := 2;
      zp.Put(-1, true);
      zp.Put(-1, true);
    }
  }

  method DecodeSpeed(zp: Receiver, ghost expected: Speed, ghost rest: seq<Event>) returns (fshift: Speed)
    modifies zp
    ensures old(zp.pending) == SpeedEvents(expected) + rest ==> fshift == expected && zp.pending == rest
  {
    fshift := 0;
    var b := zp.Get(-1);
    if b {
      fshift := 1;
      b := zp.Get(-1);
      if b { fshift := 2; }
    }
  }

  /** Code a sorted block. */
  method EncodeSorted(zp: Sender, data: array<int>, size: int, markerpos: int, ghost b: Block)
    requires 0 <= size <= data.Length && IsSorted(b) && |b.s| == size && b.column == data[..size] && b.m == markerpos
    modifies zp
    ensures zp.sent == old(zp.sent) + BlockEvents(b)
  {
    ghost var sent := zp.sent;
    EncodeSize(zp, size);
    var fshift := EncodeSpeed(zp, size);
    EncodeColumn(zp, data, size, markerpos, fshift);
    Gather(sent, SizeEvents(size), SpeedEvents(fshift), ColumnEvents(b.column, b.m, 0, Initial(), 3, fshift));
  }

  /** Sort a block and code it; false when the sorter gives up. The data are replaced by the column. */
  method EncodeBlock(zp: Sender, data: array<int>, size: int) returns (ok: bool, ghost b: Block)
    requires 2 <= size <= MAXBLOCK * 1024 && size + 31 <= data.Length
    requires IsMarked(data[..size]) && Holds(data[..], data[..size])
    modifies zp, data
    ensures size <= SortSteps.SURE ==> ok
    ensures ok ==> IsCoded(b) && b.s == old(data[..size])
    ensures ok ==> zp.sent == old(zp.sent) + b.events
  {
    ghost var s := data[..size];
    var bsort := new BSort(data, size);
    var markerpos;
    ghost var left;
    ok, markerpos, left := bsort.Run();
    b := Block(s, data[..size], markerpos, []);
    if !ok { return; }
    ColumnBytes(s, bsort.Positions(), data[..size], markerpos);
    EncodeSorted(zp, data, size, markerpos, b);
    b := Stamped(b);
  }

  /** A sorted block with its coded bits. */
  ghost function Stamped(b: Block): (r: Block)
    requires IsSorted(b)
    ensures IsCoded(r) && r.s == b.s && r.events == BlockEvents(b)
  {
    b.(events := BlockEvents(b))
  }

  lemma Gather(sent: seq<Event>, a: seq<Event>, b: seq<Event>, c: seq<Event>)
    ensures sent + a + b + c == sent + (a + (b + c))
  {
  }

  lemma ColumnBytes(s: seq<int>, p: seq<int>, column: seq<int>, m: int)
    requires IsMarked(s) && IsSuffixArray(s, p) && TransformBy(s, p, column, m)
    ensures IsTransform(s, column, m) && IsColumn(column) && |column| == |s| && column[m] == 0
  {
    forall i | 0 <= i < |column| ensures 0 <= column[i] < 256 {
      assert 0 <= p[i] < |s|;
    }
  }

  lemma StepStart(pending: seq<Event>, b: Block, rest: seq<Event>)
    requires IsSorted(b) && pending == RowEvents(b) + rest
    ensures RowsInStep(pending, [], -1, b.column, b.m, 0, Initial(), 3, SpeedOf(|b.s|), rest)
  {
    InitialGood();
    var column, m, t, fshift := b.column, b.m, Initial(), SpeedOf(|b.s|);
    assert pending == ColumnEvents(column, m, 0, t, 3, fshift) + rest;
    assert column[..0] == [];
  }

  /** The coded bits of the column of a block. */
  ghost function RowEvents(b: Block): seq<Event>
    requires IsSorted(b)
  {
    InitialGood();
    ColumnEvents(b.column, b.m, 0, Initial(), 3, SpeedOf(|b.s|))
  }

  /**
   Decode a block of `size` bytes after its size and restore its bytes; false when the column is corrupt.
   The body of a coded block is accepted and gives back the block.
   */
  method DecodeBody(zp: Receiver, data: array<int>, size: int, ghost sync: bool, ghost b: Block, ghost rest: seq<Event>)
    returns (ok: bool)
    requires 0 < size <= MAXBLOCK * 1024 && size <= data.Length
    requires sync ==> IsSorted(b) && |b.s| == size && zp.pending == BodyEvents(b) + rest
    modifies zp, data
    ensures ok ==> size >= 2
    ensures sync ==> ok && zp.pending == rest && data[..size - 1] == b.s[..size - 1]
  {
    ghost var tail := rest;
    if sync {
      tail := RowEvents(b) + rest;
      Reassociate(zp.pending, SpeedEvents(SpeedOf(size)), RowEvents(b), rest);
    }
    var fshift := DecodeSpeed(zp, SpeedOf(size), tail);
    var markerpos := DecodeSorted(zp, data, size, fshift, sync, b, rest);
    ok := RestoreBlock(data, size, markerpos, sync, b);
  }

  /** Decode the column of a block. */
  method DecodeSorted(zp: Receiver, data: array<int>, size: int, fshift: Speed,
                      ghost sync: bool, ghost b: Block, ghost rest: seq<Event>)
    returns (markerpos: int)
    requires 0 < size <= data.Length
    requires sync ==> IsSorted(b) && |b.s| == size && fshift == SpeedOf(size) && zp.pending == RowEvents(b) + rest
    modifies zp, data
    ensures IsColumn(data[..size]) && -1 <= markerpos < size
    ensures sync ==> data[..size] == b.column && markerpos == b.m && zp.pending == rest
  {
    ghost var column, m := [], 0;
    if sync {
      ghost var pending := zp.pending;
      assert pending == RowEvents(b) + rest;
      column, m := b.column, b.m;
      StepStart(pending, b, rest);
    }
    markerpos := DecodeColumn(zp, data, size, fshift, column, m, rest);
  }

  lemma SortedEnds(b: Block)
    requires IsSorted(b)
    ensures 1 <= b.m < |b.column| == |b.s| && Walk(b.column, b.m, |b.s| - 1) == b.m
  {
    TransformInverse(b.s, b.column, b.m, []);
  }

  lemma SortedRestored(b: Block, bytes: seq<int>)
    requires IsSorted(b) && 1 <= b.m < |b.column| && Unsorted(b.column, b.m, bytes)
    ensures bytes == b.s[..|b.s| - 1]
  {
    TransformInverse(b.s, b.column, b.m, bytes);
  }

  /** Undo the sort of a decoded column, unless its marker is out of place. */
  method RestoreBlock(data: array<int>, size: int, markerpos: int, ghost sync: bool, ghost b: Block) returns (ok: bool)
    requires 0 < size <= MAXBLOCK * 1024 && size <= data.Length && IsColumn(data[..size])
    requires sync ==> IsSorted(b) && |b.s| == size && data[..size] == b.column && markerpos == b.m
    modifies data
    ensures ok ==> size >= 2
    ensures sync ==> ok && data[..size - 1] == b.s[..size - 1]
  {
    if sync { SortedEnds(b); }
    if markerpos < 1 || markerpos >= size { return false; }
    ghost var column := data[..size];
    ok := UnsortBlock(data, size, markerpos);
    ghost var bytes := data[..size - 1];
    if sync {
      assert column == b.column && Unsorted(column, markerpos, bytes);
      SortedRestored(b, bytes);
    }
  }
}
