/** Coding a column: positions in the move-to-front list, each in a context chosen by the one before it. */
module ColumnCode {
  import opened Permutation
  import opened Channel
  import opened SymbolCode
  import opened MoveToFront
  import opened ListState
  import opened Transform

  /** The context of a position that follows position `prev`. */
  function ContextOf(prev: int): int {
    if CTXIDS - 1 > prev then prev else CTXIDS - 1
  }

  /** The position coded for row `i`. */
  ghost function Coded(column: seq<int>, m: int, i: int, t: Table): (x: int)
    requires IsColumn(column) && 0 <= i < |column| && Good(t)
    ensures 0 <= x <= MARKER && (x == MARKER <==> i == m)
    ensures i != m ==> t.mtf[x] == column[i]
  {
    if i == m then MARKER else IndexOf(t.mtf, column[i])
  }

  /** The list after position `x`; the marker leaves it alone. */
  ghost function After(t: Table, fshift: Speed, x: int): (u: Table)
    requires Good(t) && 0 <= x <= MARKER
    ensures Good(u)
  {
    if x == MARKER then t
    else
      RotatedGood(t, fshift, x);
      Rotated(t, fshift, x)
  }

  /** The coded bits of the rows from `i` on. */
  ghost function ColumnEvents(column: seq<int>, m: int, i: int, t: Table, prev: int, fshift: Speed): seq<Event>
    requires IsColumn(column) && 0 <= i <= |column| && Good(t)
    decreases |column| - i
  {
    if i == |column| then []
    else
      var x := Coded(column, m, i, t);
      SymbolEvents(x, ContextOf(prev)) + ColumnEvents(column, m, i + 1, After(t, fshift, x), x, fshift)
  }

  lemma PositionIs(mtf: seq<int>, rmtf: seq<int>, c: int)
    requires Inverse(mtf, rmtf) && 0 <= c < 256
    ensures 0 <= rmtf[c] < 256 && rmtf[c] == IndexOf(mtf, c) && mtf[rmtf[c]] == c
  {
    var i := IndexOf(mtf, c);
    assert rmtf[mtf[i]] == i;
  }

  lemma Regroup(a: seq<Event>, b: seq<Event>, c: seq<Event>)
    ensures a + (b + c) == a + b + c
  {
  }

  lemma RowSent(sent: seq<Event>, column: seq<int>, m: int, i: int, t: Table, prev: int, fshift: Speed)
    requires IsColumn(column) && 0 <= i < |column| && Good(t)
    ensures var x := Coded(column, m, i, t);
      sent + ColumnEvents(column, m, i, t, prev, fshift) ==
      sent + SymbolEvents(x, ContextOf(prev)) + ColumnEvents(column, m, i + 1, After(t, fshift, x), x, fshift)
  {
    var x := Coded(column, m, i, t);
    Regroup(sent, SymbolEvents(x, ContextOf(prev)), ColumnEvents(column, m, i + 1, After(t, fshift, x), x, fshift));
  }

  /** What has been sent and what the rows from `i` on will add make up `all`. */
  ghost predicate Coding(sent: seq<Event>, all: seq<Event>, column: seq<int>, m: int, i: int,
                         t: Table, prev: int, fshift: Speed) {
    && IsColumn(column) && 0 <= i <= |column| && Good(t)
    && sent + ColumnEvents(column, m, i, t, prev, fshift) == all
  }

  /** Code one row and bring the list up to date. */
  method EncodeRow(zp: Sender, lst: EncoderList, c: int, ghost column: seq<int>, markerpos: int, i: int, prev: int,
                   fshift: Speed,
                   ghost all: seq<Event>)
    returns (x: int)
    requires lst.Sound() && Coding(zp.sent, all, column, markerpos, i, lst.View(), prev, fshift)
    requires 0 <= i < |column| && c == column[i] && 0 <= prev
    modifies zp, lst.fr, lst.fr.freq, lst.mtf, lst.rmtf
    ensures lst.Sound() && 0 <= x
    ensures Coding(zp.sent, all, column, markerpos, i + 1, lst.View(), x, fshift)
  {
    RowSent(zp.sent, column, markerpos, i, lst.View(), prev, fshift);
    PositionIs(lst.mtf[..], lst.rmtf[..], c);
    assert lst.rmtf[..][c] == lst.rmtf[c] && lst.mtf[..][lst.rmtf[c]] == lst.mtf[lst.rmtf[c]];
    x := lst.rmtf[c];
    if i == markerpos { x := MARKER; }
    EncodeSymbol(zp, x, ContextOf(prev));
    if x != MARKER {
      lst.Rotate(x, c, fshift);
    }
  }

  /** Code the rows of a column with a new list. */
  method EncodeRows(zp: Sender, lst: EncoderList, column: seq<int>, markerpos: int, fshift: Speed)
    requires IsColumn(column) && lst.Sound() && lst.View() == Initial()
    modifies zp, lst.fr, lst.fr.freq, lst.mtf, lst.rmtf
    ensures zp.sent == old(zp.sent) + ColumnEvents(column, markerpos, 0, old(lst.View()), 3, fshift)
  {
    ghost var all := zp.sent + ColumnEvents(column, markerpos, 0, lst.View(), 3, fshift);
    var mtfno := 3;
    for i := 0 to |column|
      invariant lst.Sound() && 0 <= mtfno
      invariant Coding(zp.sent, all, column, markerpos, i, lst.View(), mtfno, fshift)
    {
      mtfno := EncodeRow(zp, lst, column[i], column, markerpos, i, mtfno, fshift, all);
    }
  }

  /** Code the rows of a column. */
  method EncodeColumn(zp: Sender, data: array<int>, size: int, markerpos: int, fshift: Speed)
    requires 0 <= size <= data.Length && IsColumn(data[..size])
    modifies zp
    ensures Good(Initial())
    ensures zp.sent == old(zp.sent) + ColumnEvents(data[..size], markerpos, 0, Initial(), 3, fshift)
  {
    InitialGood();
    var lst := new EncoderList();
    EncodeRows(zp, lst, data[..size], markerpos, fshift);
  }

  /** What the decoder knows before row `i` when it is in step with the encoder. */
  ghost predicate RowsInStep(pending: seq<Event>, done: seq<int>, markerpos: int, column: seq<int>, m: int, i: int,
                         t: Table, prev: int, fshift: Speed, rest: seq<Event>) {
    && IsColumn(column) && 0 <= i <= |column| && 0 <= m < |column| && column[m] == 0 && Good(t)
    && done == column[..i] && markerpos == (if m < i then m else -1)
    && pending == ColumnEvents(column, m, i, t, prev, fshift) + rest
  }

  /** Decode one row; in step, it is the row that was coded, asked for in the same contexts. */
  method DecodeRow(zp: Receiver, lst: DecoderList, prev: int, fshift: Speed,
                   ghost x: int, ghost rest: seq<Event>)
    returns (mtfno: int, byte: int)
    requires lst.Sound() && 0 <= prev && 0 <= x <= MARKER
    modifies zp, lst.fr, lst.fr.freq, lst.mtf
    ensures lst.Sound() && 0 <= mtfno <= MARKER && 0 <= byte < 256
    ensures lst.View() == After(old(lst.View()), fshift, mtfno)
    ensures byte == if mtfno == MARKER then 0 else old(lst.View()).mtf[mtfno]
    ensures old(zp.pending) == SymbolEvents(x, ContextOf(prev)) + rest ==> mtfno == x && zp.pending == rest
  {
    mtfno := DecodeSymbol(zp, ContextOf(prev), x, rest);
    byte := 0;
    if mtfno != MARKER {
      byte := lst.mtf[mtfno];
      lst.Rotate(mtfno, fshift);
    }
  }

  lemma RowPending(pending: seq<Event>, column: seq<int>, m: int, i: int,
                   t: Table, prev: int, fshift: Speed, rest: seq<Event>)
    requires IsColumn(column) && 0 <= i < |column| && Good(t)
    requires pending == ColumnEvents(column, m, i, t, prev, fshift) + rest
    ensures var x := Coded(column, m, i, t);
      pending == SymbolEvents(x, ContextOf(prev)) +
                 (ColumnEvents(column, m, i + 1, After(t, fshift, x), x, fshift) + rest)
  {
    var x := Coded(column, m, i, t);
    Reassociate(pending, SymbolEvents(x, ContextOf(prev)),
                ColumnEvents(column, m, i + 1, After(t, fshift, x), x, fshift), rest);
  }

  lemma Reassociate(pending: seq<Event>, a: seq<Event>, b: seq<Event>, rest: seq<Event>)
    requires pending == (a + b) + rest
    ensures pending == a + (b + rest)
  {
  }

  /** Decode row `i` into the block. */
  method DecodeStep(zp: Receiver, lst: DecoderList, data: array<int>, i: int, prev: int, markerpos: int, fshift: Speed,
                    ghost sync: bool, ghost column: seq<int>, ghost m: int, ghost rest: seq<Event>)
    returns (mtfno: int, mpos: int)
    requires lst.Sound() && 0 <= prev && 0 <= i < data.Length && data != lst.mtf && data != lst.fr.freq
    requires sync ==> i < |column|
    requires sync ==> RowsInStep(zp.pending, data[..i], markerpos, column, m, i, lst.View(), prev, fshift, rest)
    modifies zp, lst.fr, lst.fr.freq, lst.mtf, data
    ensures lst.Sound() && 0 <= mtfno && (mpos == markerpos || mpos == i)
    ensures data[..] == old(data[..])[i := data[i]] && 0 <= data[i] < 256
    ensures sync ==> RowsInStep(zp.pending, data[..i + 1], mpos, column, m, i + 1, lst.View(), mtfno, fshift, rest)
  {
    ghost var done, pending, t := data[..i], zp.pending, lst.View();
    ghost var x, tail := Awaited(sync, pending, done, markerpos, column, m, i, t, prev, fshift, rest);
    mtfno := DecodeInto(zp, lst, data, i, prev, fshift, x, tail);
    mpos := if mtfno == MARKER then i else markerpos;
    RowTaken(sync, pending, zp.pending, done, data[..i + 1], markerpos, mpos, column, m, i, t, lst.View(), prev, mtfno,
             fshift, rest, x, tail);
  }

  /** Decode one row and store its byte. */
  method DecodeInto(zp: Receiver, lst: DecoderList, data: array<int>, i: int, prev: int, fshift: Speed,
                    ghost x: int, ghost rest: seq<Event>)
    returns (mtfno: int)
    requires lst.Sound() && 0 <= prev && 0 <= i < data.Length && data != lst.mtf && data != lst.fr.freq
    requires 0 <= x <= MARKER
    modifies zp, lst.fr, lst.fr.freq, lst.mtf, data
    ensures lst.Sound() && 0 <= mtfno <= MARKER && lst.View() == After(old(lst.View()), fshift, mtfno)
    ensures data[..] == old(data[..])[i := data[i]] && 0 <= data[i] < 256
    ensures data[..i + 1] == old(data[..i]) + [if mtfno == MARKER then 0 else old(lst.View()).mtf[mtfno]]
    ensures old(zp.pending) == SymbolEvents(x, ContextOf(prev)) + rest ==> mtfno == x && zp.pending == rest
  {
    var byte;
    mtfno, byte := DecodeRow(zp, lst, prev, fshift, x, rest);
    StoreRow(data, i, byte);
  }

  method StoreRow(data: array<int>, i: int, byte: int)
    requires 0 <= i < data.Length
    modifies data
    ensures data[..] == old(data[..])[i := byte] && data[i] == byte && data[..i + 1] == old(data[..i]) + [byte]
  {
    data[i] := byte;
  }

  /** What the channel holds next when it is in step. */
  lemma Awaited(sync: bool, pending: seq<Event>, done: seq<int>, markerpos: int, column: seq<int>, m: int, i: int,
                t: Table, prev: int, fshift: Speed, rest: seq<Event>)
    returns (x: int, tail: seq<Event>)
    requires sync ==> RowsInStep(pending, done, markerpos, column, m, i, t, prev, fshift, rest) && i < |column|
    ensures 0 <= x <= MARKER
    ensures sync ==> x == Coded(column, m, i, t) && pending == SymbolEvents(x, ContextOf(prev)) + tail
    ensures sync ==> tail == ColumnEvents(column, m, i + 1, After(t, fshift, x), x, fshift) + rest
  {
    x, tail := 0, rest;
    if sync {
      RowPending(pending, column, m, i, t, prev, fshift, rest);
      x := Coded(column, m, i, t);
      tail := ColumnEvents(column, m, i + 1, After(t, fshift, x), x, fshift) + rest;
    }
  }

  /** The row taken from the channel is the row that was coded. */
  lemma RowTaken(sync: bool, pending: seq<Event>, left: seq<Event>, done: seq<int>, longer: seq<int>,
                 markerpos: int, mpos: int, column: seq<int>, m: int, i: int, t: Table, u: Table, prev: int,
                 mtfno: int, fshift: Speed, rest: seq<Event>, x: int, tail: seq<Event>)
    requires sync ==> RowsInStep(pending, done, markerpos, column, m, i, t, prev, fshift, rest) && i < |column|
    requires sync ==> x == Coded(column, m, i, t) && mtfno == x && left == tail
    requires sync ==> tail == ColumnEvents(column, m, i + 1, After(t, fshift, x), x, fshift) + rest
    requires Good(t) && 0 <= mtfno <= MARKER && u == After(t, fshift, mtfno)
    requires longer == done + [if mtfno == MARKER then 0 else t.mtf[mtfno]]
    requires mpos == if mtfno == MARKER then i else markerpos
    ensures sync ==> RowsInStep(left, longer, mpos, column, m, i + 1, u, mtfno, fshift, rest)
  {
    if sync {
      var byte := if mtfno == MARKER then 0 else t.mtf[mtfno];
      assert byte == column[i] && mpos == if m < i + 1 then m else -1;
      Longer(column, done, byte, i);
      assert Good(u);
    }
  }

  lemma Longer(column: seq<int>, done: seq<int>, byte: int, i: nat)
    requires i < |column| && done == column[..i] && byte == column[i]
    ensures done + [byte] == column[..i + 1]
  {
  }

  /** Decode the rows of a column with a new list. */
  method DecodeRows(zp: Receiver, lst: DecoderList, data: array<int>, size: int, fshift: Speed,
                    ghost column: seq<int>, ghost m: int, ghost rest: seq<Event>)
    returns (markerpos: int)
    requires 0 < size <= data.Length && lst.Sound() && data != lst.mtf && data != lst.fr.freq
    modifies zp, lst.fr, lst.fr.freq, lst.mtf, data
    ensures IsColumn(data[..size]) && -1 <= markerpos < size && data[size..] == old(data[size..])
    ensures RowsInStep(old(zp.pending), [], -1, column, m, 0, old(lst.View()), 3, fshift, rest) && |column| == size ==>
      data[..size] == column && markerpos == m && zp.pending == rest
  {
    ghost var tail := data[size..];
    ghost var sync := |column| == size && RowsInStep(zp.pending, [], -1, column, m, 0, lst.View(), 3, fshift, rest);
    var mtfno := 3;
    markerpos := -1;
    assert data[..0] == [];
    for i := 0 to size
      invariant lst.Sound() && 0 <= mtfno
      invariant IsColumn(data[..i]) && -1 <= markerpos < i && data[size..] == tail
      invariant sync ==> RowsInStep(zp.pending, data[..i], markerpos, column, m, i, lst.View(), mtfno, fshift, rest)
    {
      ghost var was := data[..];
      mtfno, markerpos := DecodeStep(zp, lst, data, i, mtfno, markerpos, fshift, sync, column, m, rest);
      ColumnGrows(was, data[..], i, size);
    }
    if sync { RowsFinished(zp.pending, data[..size], markerpos, column, m, lst.View(), mtfno, fshift, rest); }
  }

  lemma ColumnGrows(a: seq<int>, b: seq<int>, i: nat, size: nat)
    requires i < size <= |a| == |b| && b == a[i := b[i]] && 0 <= b[i] < 256 && IsColumn(a[..i])
    ensures IsColumn(b[..i + 1]) && b[size..] == a[size..]
  {
    assert b[..i + 1] == a[..i] + [b[i]];
  }

  /** In step after the last row, the whole column has been decoded. */
  lemma RowsFinished(pending: seq<Event>, done: seq<int>, markerpos: int, column: seq<int>, m: int,
                     t: Table, prev: int, fshift: Speed, rest: seq<Event>)
    requires RowsInStep(pending, done, markerpos, column, m, |column|, t, prev, fshift, rest)
    ensures done == column && markerpos == m && pending == rest
  {
    assert [] + rest == rest;
  }

  /** Decode the rows of a column; the marker comes back as a zero byte and its place. */
  method DecodeColumn(zp: Receiver, data: array<int>, size: int, fshift: Speed,
                      ghost column: seq<int>, ghost m: int, ghost rest: seq<Event>)
    returns (markerpos: int)
    requires 0 < size <= data.Length
    modifies zp, data
    ensures IsColumn(data[..size]) && -1 <= markerpos < size && data[size..] == old(data[size..])
    ensures RowsInStep(old(zp.pending), [], -1, column, m, 0, Initial(), 3, fshift, rest) && |column| == size ==>
      data[..size] == column && markerpos == m && zp.pending == rest
  {
    var lst := new DecoderList();
    markerpos := DecodeRows(zp, lst, data, size, fshift, column, m, rest);
  }
}
