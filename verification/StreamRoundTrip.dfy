/** What the codec is for: the bytes written to a stream are the bytes read from it. */
module StreamRoundTrip {
  import SortSteps
  import opened Sequences
  import opened Transform
  import opened Channel
  import opened BlockCode
  import opened BlockStream

  /** What a client does to the encoding end. */
  datatype Op = Write(bytes: seq<int>) | Flush

  /** All bytes written, in order. */
  ghost function Input(ops: seq<Op>): seq<int> {
    if ops == [] then []
    else Input(ops[..|ops| - 1]) + (if ops[|ops| - 1].Write? then ops[|ops| - 1].bytes else [])
  }

  function Min(a: int, b: int): int {
    if a <= b then a else b
  }

  /** A byte sequence handed out in pieces of at most the given sizes. */
  ghost function Pieces(bytes: seq<int>, sizes: seq<nat>): seq<seq<int>> {
    if sizes == [] then []
    else
      var k := Min(sizes[0], |bytes|);
      [bytes[..k]] + Pieces(bytes[k..], sizes[1..])
  }

  lemma {:induction false} InputPrefix(ops: seq<Op>, i: nat)
    requires i <= |ops|
    ensures |Input(ops[..i])| <= |Input(ops)|
    decreases |ops|
  {
    if i < |ops| {
      var rest := ops[..|ops| - 1];
      InputPrefix(rest, i);
      assert rest[..i] == ops[..i];
    } else {
      assert ops[..i] == ops;
    }
  }

  /** Write and close a stream; false only when the block size is refused or the sorter gives up on a long block. */
  method WriteAll(encoding: int, ops: seq<Op>) returns (ok: bool, events: seq<Event>, ghost blocks: seq<Block>)
    requires forall op :: op in ops && op.Write? ==> IsColumn(op.bytes)
    ensures ok ==> AllCoded(blocks) && Contents(blocks) == Input(ops) && events == StreamEvents(blocks, SizeEvents(0))
    ensures ok ==> encoding <= MAXBLOCK
    ensures encoding <= MAXBLOCK && |Input(ops)| < SortSteps.SURE ==> ok
  {
    events, blocks := [], [];
    var enc := Open(encoding);
    if enc == null { return false, [], []; }
    assert ops[..0] == [];
    for i := 0 to |ops|
      invariant enc.Valid() && enc.Written() == Input(ops[..i]) && fresh(enc) && fresh(enc.data) && fresh(enc.zp)
    {
      assert ops[..i + 1][..i] == ops[..i] && ops[i] in ops;
      InputPrefix(ops, i + 1);
      match ops[i] {
        case Write(bytes) => ok := enc.Write(bytes);
        case Flush => ok := enc.Flush();
      }
      if !ok { return; }
    }
    assert ops[..|ops|] == ops;
    ok := enc.Close();
    events, blocks := enc.zp.sent, enc.blocks;
  }

  lemma PieceNext(bytes: seq<int>, sizes: seq<nat>, i: nat, out: seq<int>, rest: seq<int>)
    requires i < |sizes| && bytes == out + rest && |out| <= sizes[i] && (|out| < sizes[i] ==> rest == [])
    ensures Pieces(bytes, sizes[i..]) == [out] + Pieces(rest, sizes[i + 1..])
  {
    assert sizes[i..][1..] == sizes[i + 1..];
    assert Min(sizes[i], |bytes|) == |out|;
  }

  /** Read a stream in pieces. */
  method ReadAll(dec: Decoder, sizes: seq<nat>) returns (out: seq<seq<int>>)
    requires dec.Valid() && dec.sync
    modifies dec, dec.data, dec.zp
    ensures out == Pieces(old(dec.Rest()), sizes)
  {
    out := [];
    ghost var all := Pieces(dec.Rest(), sizes);
    assert sizes[0..] == sizes;
    for i := 0 to |sizes|
      invariant dec.Valid() && dec.sync && (dec.data == old(dec.data) || fresh(dec.data))
      invariant HandedOut(all, out, dec.Rest(), sizes, i)
    {
      ghost var before := dec.Rest();
      var ok, part := dec.Read(sizes[i]);
      HandedNext(all, out, before, part, dec.Rest(), sizes, i);
      out := out + [part];
    }
    HandedAll(all, out, dec.Rest(), sizes);
  }

  /** The first `i` pieces of `all` have been handed out, and `rest` is left. */
  ghost predicate HandedOut(all: seq<seq<int>>, out: seq<seq<int>>, rest: seq<int>, sizes: seq<nat>, i: int) {
    0 <= i <= |sizes| && all == out + Pieces(rest, sizes[i..])
  }

  lemma HandedNext(all: seq<seq<int>>, out: seq<seq<int>>, before: seq<int>, part: seq<int>, rest: seq<int>,
                   sizes: seq<nat>, i: nat)
    requires HandedOut(all, out, before, sizes, i) && i < |sizes|
    requires before == part + rest && |part| <= sizes[i] && (|part| < sizes[i] ==> rest == [])
    ensures HandedOut(all, out + [part], rest, sizes, i + 1)
  {
    PieceNext(before, sizes, i, part, rest);
    Regroup(out, [part], Pieces(rest, sizes[i + 1..]));
  }

  lemma HandedAll(all: seq<seq<int>>, out: seq<seq<int>>, rest: seq<int>, sizes: seq<nat>)
    requires HandedOut(all, out, rest, sizes, |sizes|)
    ensures out == all
  {
    assert sizes[|sizes|..] == [];
  }

  lemma TrailingEvents(blocks: seq<Block>, end: seq<Event>, after: seq<Event>)
    ensures StreamEvents(blocks, end) + after == StreamEvents(blocks, end + after)
  {
    CloseEvents(blocks, end);
    CloseEvents(blocks, end + after);
  }

  /**
   Any writes and flushes, in blocks of any size that is not refused, then a close, then reads of any sizes: the
   reads give back the bytes written, in order and without a gap, and nothing after them.
   */
  method RoundTrip(encoding: int, ops: seq<Op>, sizes: seq<nat>, after: seq<Event>)
    returns (written: bool, out: seq<seq<int>>)
    requires forall op :: op in ops && op.Write? ==> IsColumn(op.bytes)
    ensures written ==> out == Pieces(Input(ops), sizes)
    ensures written ==> encoding <= MAXBLOCK
    ensures encoding <= MAXBLOCK && |Input(ops)| < SortSteps.SURE ==> written
  {
    out := [];
    var events;
    ghost var blocks;
    written, events, blocks := WriteAll(encoding, ops);
    if !written { return; }
    TrailingEvents(blocks, SizeEvents(0), after);
    var zp := new Receiver(events + after);
    var dec := new Decoder(zp, blocks, after);
    out := ReadAll(dec, sizes);
  }
}
