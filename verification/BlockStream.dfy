/** The two ends of a block-sorting stream: bytes are collected into blocks, coded, decoded and handed out again. */
module BlockStream {
  import Sequences
  import opened SuffixOrder
  import SortSteps
  import opened PresortSteps
  import opened Transform
  import opened Inverse
  import opened Words
  import opened Channel
  import opened SymbolCode
  import opened MoveToFront
  import opened ColumnCode
  import opened BlockCode
  import opened Unsort

  const OVERFLOW := 32

  ghost predicate AllCoded(bs: seq<Block>) {
    forall b :: b in bs ==> IsCoded(b)
  }

  /** The bytes of a block, without the marker's. */
  ghost function Bytes(b: Block): seq<int> {
    if b.s == [] then [] else b.s[..|b.s| - 1]
  }

  ghost function Contents(bs: seq<Block>): seq<int> {
    if bs == [] then [] else Bytes(bs[0]) + Contents(bs[1..])
  }

  /** The coded bits of the blocks `bs` and of what follows. */
  ghost function StreamEvents(bs: seq<Block>, end: seq<Event>): seq<Event> {
    if bs == [] then end else bs[0].events + StreamEvents(bs[1..], end)
  }

  lemma {:induction false} AppendBlock(bs: seq<Block>, b: Block)
    ensures StreamEvents(bs + [b], []) == StreamEvents(bs, []) + b.events
    ensures Contents(bs + [b]) == Contents(bs) + Bytes(b)
  {
    var all := bs + [b];
    if bs == [] {
      assert all[1..] == [];
    } else {
      var rest := bs[1..];
      AppendBlock(rest, b);
      assert all[0] == bs[0] && all[1..] == rest + [b];
      Sequences.Regroup(bs[0].events, StreamEvents(rest, []), b.events);
      Sequences.Regroup(Bytes(bs[0]), Contents(rest), Bytes(b));
    }
  }

  lemma {:induction false} CloseEvents(bs: seq<Block>, end: seq<Event>)
    ensures StreamEvents(bs, end) == StreamEvents(bs, []) + end
  {
    if bs != [] { CloseEvents(bs[1..], end); }
  }

  /** Code one block. */
  method CodeOne(zp: Sender, data: array<int>, size: int) returns (ok: bool, ghost b: Block)
    requires 2 <= size <= MAXBLOCK * 1024 && size + OVERFLOW - 1 <= data.Length
    requires IsMarked(data[..size]) && Holds(data[..], data[..size])
    modifies zp, data
    ensures size <= SortSteps.SURE ==> ok
    ensures ok ==> AllCoded([b]) && Bytes(b) == old(data[..size - 1]) && zp.sent == old(zp.sent) + b.events
  {
    ghost var s, bytes := data[..size], data[..size - 1];
    assert s[..size - 1] == bytes;
    ok, b := EncodeBlock(zp, data, size);
  }

  /** The encoding end. */
  class Encoder {
    const blocksize: int
    const data: array<int>
    const zp: Sender
    var bptr: int
    ghost var blocks: seq<Block>

    /** The block may be full. */
    ghost predicate Holding()
      reads this, data, zp
    {
      && MINBLOCK * 1024 <= blocksize <= MAXBLOCK * 1024
      && data.Length == blocksize + OVERFLOW && 0 <= bptr < blocksize
      && (forall i :: 0 <= i < bptr ==> 0 <= data[i] < 256)
      && AllCoded(blocks) && zp.sent == StreamEvents(blocks, [])
    }

    ghost predicate Valid()
      reads this, data, zp
    {
      Holding() && bptr + 1 < blocksize
    }

    /** Everything written so far. */
    ghost function Written(): seq<int>
      requires Holding()
      reads this, data, zp
    {
      Contents(blocks) + data[..bptr]
    }

    /** A stream with blocks of `encoding` times 1024 bytes. */
    constructor (encoding: int)
      requires encoding <= MAXBLOCK
      ensures Valid() && Written() == [] && fresh(data) && fresh(zp)
      ensures blocksize == (if encoding < MINBLOCK then MINBLOCK else encoding) * 1024
    {
      var kilo := if encoding < MINBLOCK then MINBLOCK else encoding;
      blocksize := kilo * 1024;
      data := new int[kilo * 1024 + OVERFLOW](_ => 0);
      zp := new Sender();
      bptr, blocks := 0, [];
    }

    /** Code the bytes collected; false, and the stream is lost, when the sorter gives up on a long block. */
    method Flush() returns (ok: bool)
      requires Holding()
      modifies this, data, zp
      ensures old(bptr) < SortSteps.SURE ==> ok
      ensures ok ==> Valid() && bptr == 0 && Written() == old(Written())
    {
      ok := true;
      if bptr > 0 {
        Terminate();
        ghost var all;
        ok, all := CodeBlock();
        if !ok { return; }
        blocks := all;
      }
      bptr := 0;
      assert data[..bptr] == [];
    }

    /** Code the block that the bytes and the marker make; `all` are the blocks coded then. */
    method CodeBlock() returns (ok: bool, ghost all: seq<Block>)
      requires 0 < bptr < blocksize <= MAXBLOCK * 1024 && data.Length == blocksize + OVERFLOW
      requires IsMarked(data[..bptr + 1]) && Holds(data[..], data[..bptr + 1])
      requires AllCoded(blocks) && zp.sent == StreamEvents(blocks, [])
      modifies data, zp
      ensures bptr < SortSteps.SURE ==> ok
      ensures ok ==> AllCoded(all) && zp.sent == StreamEvents(all, [])
      ensures ok ==> Contents(all) == Contents(blocks) + old(data[..bptr])
    {
      ghost var b;
      ok, b := CodeOne(zp, data, bptr + 1);
      all := blocks + [b];
      AppendBlock(blocks, b);
    }

    /** Clear the bytes after the data, the first of which becomes the marker. */
    method Terminate()
      requires Holding()
      modifies data
      ensures data[..bptr] == old(data[..bptr])
      ensures IsMarked(data[..bptr + 1]) && Holds(data[..], data[..bptr + 1])
    {
      for i := 0 to OVERFLOW
        invariant data[..bptr] == old(data[..bptr])
        invariant forall j :: bptr <= j < bptr + i ==> data[j] == 0
      {
        data[bptr + i] := 0;
      }
      ghost var s := data[..bptr + 1];
      forall i | 0 <= i < |s| ensures 0 <= s[i] < 256 {
        if i < bptr { assert s[i] == old(data[..bptr])[i]; }
      }
    }

    /** Add bytes to the stream. */
    method Write(buffer: seq<int>) returns (ok: bool)
      requires Valid() && IsColumn(buffer)
      modifies this, data, zp
      ensures ok ==> Valid() && Written() == old(Written()) + buffer
      ensures |old(Written())| + |buffer| < SortSteps.SURE ==> ok
    {
      var done := 0;
      assert buffer[..0] == [];
      while done < |buffer|
        invariant 0 <= done <= |buffer|
        invariant Valid() && Written() == old(Written()) + buffer[..done]
      {
        var fine, next := WriteChunk(buffer, done);
        if !fine { return false; }
        assert buffer[..next] == buffer[..done] + buffer[done..next];
        done := next;
      }
      assert buffer[..done] == buffer;
      ok := true;
    }

    /** Add as many bytes as the block takes, and code the block when it is full. */
    method WriteChunk(buffer: seq<int>, done: int) returns (ok: bool, next: int)
      requires Valid() && IsColumn(buffer) && 0 <= done < |buffer|
      modifies this, data, zp
      ensures done < next <= |buffer|
      ensures ok ==> Valid() && Written() == old(Written()) + buffer[done..next]
      ensures |old(Written())| + (next - done) < SortSteps.SURE ==> ok
    {
      var bytes := blocksize - 1 - bptr;
      if bytes > |buffer| - done { bytes := |buffer| - done; }
      next := done + bytes;
      Append(buffer[done..next]);
      ok := true;
      if bptr + 1 >= blocksize {
        ok := Flush();
      }
    }

    /** Copy bytes that fit into the block. */
    method Append(bytes: seq<int>)
      requires Valid() && IsColumn(bytes) && bptr + |bytes| < blocksize
      modifies this`bptr, data
      ensures Holding() && bptr == old(bptr) + |bytes| && Written() == old(Written()) + bytes
    {
      var start := bptr;
      ghost var was := data[..start];
      for i := 0 to |bytes|
        invariant bptr == start && data[..start] == was && data[start..start + i] == bytes[..i]
      {
        data[start + i] := bytes[i];
      }
      assert data[..start + |bytes|] == was + bytes;
      bptr := start + |bytes|;
    }

    /** Close the stream: code what is left and the end of the stream. */
    method Close() returns (ok: bool)
      requires Valid()
      modifies this, data, zp
      ensures ok ==> AllCoded(blocks) && Contents(blocks) == old(Written())
      ensures ok ==> zp.sent == StreamEvents(blocks, SizeEvents(0))
      ensures |old(Written())| < SortSteps.SURE ==> ok
    {
      ok := Flush();
      if !ok { return; }
      EncodeSize(zp, 0);
      CloseEvents(blocks, SizeEvents(0));
    }
  }

  /** Open a stream to write to; a block size above the limit is refused, one below the least is raised to it. */
  method Open(encoding: int) returns (enc: Encoder?)
    ensures enc == null <==> encoding > MAXBLOCK
    ensures enc != null ==> enc.Valid() && enc.Written() == [] && fresh(enc) && fresh(enc.data) && fresh(enc.zp)
    ensures enc != null ==> enc.blocksize == (if encoding < MINBLOCK then MINBLOCK else encoding) * 1024
  {
    if encoding > MAXBLOCK { return null; }
    enc := new Encoder(encoding);
  }

  /** How reading a block ends. */
  datatype Outcome = Decoded | EndOfStream | Corrupt

  /** The channel holds the blocks still to be decoded, the end of the stream, and what follows. */
  ghost predicate OnTrack(pending: seq<Event>, todo: seq<Block>, after: seq<Event>, eof: bool) {
    AllCoded(todo) && if eof then todo == [] else pending == StreamEvents(todo, SizeEvents(0) + after)
  }

  /** The decoding end. */
  class Decoder {
    var blocksize: int
    var data: array<int>
    const zp: Receiver
    var size: int
    var bptr: int
    var eof: bool
    /** Is the channel what an encoder sent, of which `todo` is still to be decoded and `after` follows? */
    ghost var sync: bool
    ghost var todo: seq<Block>
    ghost var after: seq<Event>

    ghost predicate Valid()
      reads this, data, zp
    {
      && 0 <= size && 0 <= bptr && bptr + size <= data.Length && blocksize == data.Length
      && (eof ==> size == 0)
      && (sync ==> OnTrack(zp.pending, todo, after, eof))
    }

    /** The bytes of the stream not yet read. */
    ghost function Rest(): seq<int>
      requires Valid()
      reads this, data, zp
    {
      data[bptr..bptr + size] + Contents(todo)
    }

    /** Open the stream of an encoder that coded `blocks`; any other channel may be opened too. */
    constructor (zp: Receiver, ghost blocks: seq<Block>, ghost after: seq<Event>)
      ensures Valid() && this.zp == zp && fresh(data) && !eof
      ensures AllCoded(blocks) && zp.pending == StreamEvents(blocks, SizeEvents(0) + after) ==>
        sync && Rest() == Contents(blocks)
    {
      this.zp := zp;
      blocksize, size, bptr, eof := 0, 0, 0, false;
      data := new int[0];
      todo, this.after := blocks, after;
      sync := AllCoded(blocks) && zp.pending == StreamEvents(blocks, SizeEvents(0) + after);
    }

    /** Make room for a block of `size` bytes. */
    method Reserve()
      requires blocksize == data.Length && 0 <= size
      modifies this`blocksize, this`data
      ensures blocksize == data.Length >= size && (data == old(data) || fresh(data))
    {
      if blocksize < size {
        blocksize := size;
        data := new int[size](_ => 0);
      }
    }

    /** Decode the next block into an empty buffer. */
    method Decode() returns (outcome: Outcome)
      requires Valid() && size == 0 && bptr == 0 && !eof
      modifies this, data, zp
      ensures bptr == 0 && !eof && sync == old(sync) && after == old(after) && (data == old(data) || fresh(data))
      ensures blocksize == data.Length && (outcome == Decoded ==> 2 <= size <= data.Length)
      ensures sync ==> OnTrack(zp.pending, todo, after, outcome == EndOfStream)
      ensures sync ==> outcome == if old(todo) == [] then EndOfStream else Decoded
      ensures sync && outcome == Decoded ==> data[..size - 1] + Contents(todo) == Contents(old(todo))
    {
      ghost var known, ended, b, later, left := NextBlock(zp.pending, sync, todo, after);
      outcome := DecodeOne(known, ended, b, later);
      todo := left;
    }

    /** Decode the block `b`, or the zero size that ends the stream, if one of them was sent. */
    method DecodeOne(ghost known: bool, ghost ended: bool, ghost b: Block, ghost later: seq<Event>)
      returns (outcome: Outcome)
      requires blocksize == data.Length && Expects(zp.pending, known, ended, b, later)
      modifies this`size, this`blocksize, this`data, data, zp
      ensures blocksize == data.Length && (outcome == Decoded ==> 2 <= size <= data.Length)
      ensures data == old(data) || fresh(data)
      ensures known ==> outcome == Decoded && zp.pending == later && data[..size - 1] == Bytes(b)
      ensures ended ==> outcome == EndOfStream
    {
      if known { OneCoded(b, zp.pending, later); }
      ghost var expected, body := if known then |b.s| else 0, if known then BodyEvents(b) + later else later;
      size := DecodeSize(zp, expected, body);
      if size == 0 { return EndOfStream; }
      if size > MAXBLOCK * 1024 { return Corrupt; }
      Reserve();
      var ok := DecodeBody(zp, data, size, known, b, later);
      outcome := if ok then Decoded else Corrupt;
    }

    /** Decode a block, or meet the end of the stream, when nothing is left in the buffer. */
    method Fill() returns (ok: bool)
      requires Valid() && size == 0 && !eof
      modifies this, data, zp
      ensures data == old(data) || fresh(data)
      ensures sync == old(sync) && (ok ==> Valid() && (eof || size > 0))
      ensures sync ==> ok && Rest() == old(Rest())
    {
      ghost var rest := Contents(todo);
      assert Rest() == rest;
      bptr := 0;
      var outcome := Decode();
      if outcome == Corrupt { return false; }
      Settle(outcome == EndOfStream, rest);
      ok := true;
    }

    /** The buffer holds the block decoded, without its marker, or nothing at the end. */
    method Settle(ended: bool, ghost rest: seq<int>)
      requires bptr == 0 && !eof && blocksize == data.Length && (!ended ==> 2 <= size <= data.Length)
      requires sync ==> OnTrack(zp.pending, todo, after, ended)
      requires sync ==> rest == if ended then Contents(todo) else data[..size - 1] + Contents(todo)
      modifies this`size, this`eof
      ensures Valid() && (eof || size > 0) && (sync ==> Rest() == rest)
    {
      if ended {
        size := 1;
        eof := true;
      }
      size := size - 1;
      assert data[bptr..bptr + size] == data[..size];
    }

    /** Hand out up to `sz` bytes of the buffer. */
    method Take(sz: int) returns (out: seq<int>)
      requires Valid() && 0 <= sz
      modifies this`size, this`bptr
      ensures Valid() && |out| == (if old(size) < sz then old(size) else sz) && old(Rest()) == out + Rest()
    {
      var bytes := if size > sz then sz else size;
      out := data[bptr..bptr + bytes];
      assert data[bptr..bptr + size] == out + data[bptr + bytes..bptr + size];
      size := size - bytes;
      bptr := bptr + bytes;
    }

    /** One turn of a read: hand out up to `left` bytes, of a new block when the buffer is empty. */
    method ReadPart(left: int) returns (ok: bool, part: seq<int>)
      requires Valid() && 0 < left && !eof
      modifies this, data, zp
      ensures data == old(data) || fresh(data)
      ensures |part| <= left && sync == old(sync) && (ok ==> Valid() && (eof || |part| > 0))
      ensures sync ==> ok && old(Rest()) == part + Rest()
    {
      ok, part := true, [];
      if size == 0 {
        ok := Fill();
        if !ok { return; }
      }
      part := Take(left);
    }

    /**
     Read up to `sz` bytes. On a stream that an encoder wrote, reading succeeds, gives the next bytes,
     and gives fewer than asked for only at the end of the stream.
     */
    method Read(sz: int) returns (ok: bool, out: seq<int>)
      requires Valid() && 0 <= sz
      modifies this, data, zp
      ensures data == old(data) || fresh(data)
      ensures |out| <= sz && sync == old(sync) && (ok ==> Valid())
      ensures sync ==> ok && old(Rest()) == out + Rest() && (|out| < sz ==> Rest() == [])
    {
      out := [];
      var left := sz;
      while left > 0 && !eof
        invariant 0 <= left == sz - |out| && Valid() && sync == old(sync) && (data == old(data) || fresh(data))
        invariant sync ==> old(Rest()) == out + Rest()
        decreases left, !eof
      {
        var fine, part := ReadPart(left);
        if !fine { return false, out; }
        if sync { Sequences.Regroup(out, part, Rest()); }
        out := out + part;
        left := left - |part|;
      }
      ok := true;
    }
  }

  /** The channel holds the block `b` next, or the zero size that ends a stream, or anything. */
  ghost predicate Expects(pending: seq<Event>, known: bool, ended: bool, b: Block, later: seq<Event>) {
    && (known ==> AllCoded([b]) && pending == b.events + later && !ended)
    && (ended ==> pending == SizeEvents(0) + later)
  }

  /** A stream goes on with the bits of its next block and those of the later ones, or ends with a zero size. */
  lemma NextBlock(pending: seq<Event>, sync: bool, todo: seq<Block>, after: seq<Event>)
    returns (known: bool, ended: bool, b: Block, later: seq<Event>, left: seq<Block>)
    requires sync ==> OnTrack(pending, todo, after, false)
    ensures known == (sync && todo != []) && ended == (sync && todo == [])
    ensures Expects(pending, known, ended, b, later)
    ensures known ==> OnTrack(later, left, after, false) && Contents(todo) == Bytes(b) + Contents(left)
    ensures !known ==> left == todo
  {
    known, ended, b, later, left := sync && todo != [], sync && todo == [], Block([], [], 0, []), after, todo;
    if known {
      b, later, left := todo[0], StreamEvents(todo[1..], SizeEvents(0) + after), todo[1..];
      forall c | c in [b] ensures IsCoded(c) { assert c in todo; }
      forall c | c in left ensures IsCoded(c) { assert c in todo; }
    }
  }

  /** The parts of a coded block. */
  lemma OneCoded(b: Block, pending: seq<Event>, later: seq<Event>)
    requires AllCoded([b]) && pending == b.events + later
    ensures IsCoded(b) && pending == SizeEvents(|b.s|) + (BodyEvents(b) + later)
  {
    assert b in [b];
    Reassociate(pending, SizeEvents(|b.s|), BodyEvents(b), later);
  }
}
