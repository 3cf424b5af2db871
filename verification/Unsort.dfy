/** The second half of the block decoder: the counting pass and the walk that overwrites the block. */
module Unsort {
  import opened StableSort
  import opened Inverse
  import opened Transform
  import opened Words

  /** The pointer table after the rows below `i`: the byte of a row above the number of equal bytes before it. */
  ghost predicate Pointers(column: seq<int>, m: int, posn: seq<int>, i: int)
    requires 0 <= m < |column|
  {
    && |posn| == |column| && 0 <= i <= |column|
    && (m < i ==> posn[m] == 0)
    && forall j :: 0 <= j < i && j != m ==>
      posn[j] == column[j] * LOW + Count(MarkedColumn(column, m), j, column[j])
  }

  lemma {:induction false} CountAtMost(keys: seq<int>, i: nat, c: int)
    requires i <= |keys|
    ensures Count(keys, i, c) <= i
  {
    if i > 0 { CountAtMost(keys, i - 1, c); }
  }

  /** The counting pass has dealt with the rows below `i`. */
  ghost predicate Counted(column: seq<int>, m: int, posn: seq<int>, count: seq<int>, i: int)
    requires 0 <= m < |column|
  {
    && Pointers(column, m, posn, i) && |count| == 256
    && forall c :: 0 <= c < 256 ==> count[c] == Count(MarkedColumn(column, m), i, c)
  }

  /** One row more is recorded and its byte counted. */
  lemma CountOne(column: seq<int>, m: int, posn: seq<int>, count: seq<int>, i: int)
    requires IsColumn(column) && 0 <= m < |column| < LOW && Counted(column, m, posn, count, i)
    requires i < |column| && i != m
    ensures var c := column[i];
      0 <= c < 256 && Counted(column, m, posn[i := c * LOW + count[c] % LOW], count[c := count[c] + 1], i + 1)
  {
    CountAtMost(MarkedColumn(column, m), i, column[i]);
  }

  /** The row of the marker is not counted. */
  lemma PassMarker(column: seq<int>, m: int, posn: seq<int>, count: seq<int>)
    requires IsColumn(column) && 0 <= m < |column| && Counted(column, m, posn, count, m) && posn[m] == 0
    ensures Counted(column, m, posn, count, m + 1)
  {
  }

  /** Record row `i` in the pointer table and count its byte. */
  method CountRow(data: array<int>, ghost column: seq<int>, ghost m: int, posn: array<int>, count: array<int>, i: int)
    requires posn != count && data != posn && data != count && |column| <= data.Length
    requires data[..|column|] == column && IsColumn(column) && |column| < LOW
    requires 0 <= m < |column| && 0 <= i < |column| && i != m
    requires Counted(column, m, posn[..], count[..], i)
    modifies posn, count
    ensures Counted(column, m, posn[..], count[..], i + 1)
    ensures forall j :: i < j < |column| ==> posn[j] == old(posn[j])
  {
    ghost var p, n := posn[..], count[..];
    assert data[i] == data[..|column|][i];
    CountOne(column, m, p, n, i);
    var c := data[i];
    posn[i] := c * LOW + count[c] % LOW;
    count[c] := count[c] + 1;
    assert posn[..] == p[i := c * LOW + n[c] % LOW] && count[..] == n[c := n[c] + 1];
  }

  /** The counting pass; the row of the marker keeps the zero it was given. */
  method CountRows(data: array<int>, size: int, m: int) returns (posn: array<int>, count: array<int>)
    requires 0 <= m < size <= data.Length && size < LOW && IsColumn(data[..size])
    ensures fresh(posn) && fresh(count) && posn != count && posn.Length == size && count.Length == 256
    ensures Counted(data[..size], m, posn[..], count[..], size)
  {
    ghost var column := data[..size];
    posn := new int[size](_ => 0);
    count := new int[256](_ => 0);
    for i := 0 to m
      invariant Counted(column, m, posn[..], count[..], i)
      invariant posn[m] == 0
    {
      CountRow(data, column, m, posn, count, i);
    }
    PassMarker(column, m, posn[..], count[..]);
    for i := m + 1 to size
      invariant Counted(column, m, posn[..], count[..], i)
    {
      CountRow(data, column, m, posn, count, i);
    }
  }

  lemma MarkedStart(column: seq<int>, m: int)
    requires IsColumn(column) && 0 <= m < |column|
    ensures Start(MarkedColumn(column, m), 0) == 1
  {
    NothingBelowMarker(MarkedColumn(column, m), |column|, m);
  }

  /** Turn the counts into first rows; row 0 belongs to the marker. */
  method SumRows(ghost column: seq<int>, ghost m: int, count: array<int>)
    requires count.Length == 256 && IsColumn(column) && 0 <= m < |column|
    requires forall c :: 0 <= c < 256 ==> count[c] == Count(MarkedColumn(column, m), |column|, c)
    modifies count
    ensures forall c :: 0 <= c < 256 ==> count[c] == Start(MarkedColumn(column, m), c)
  {
    ghost var keys, was := MarkedColumn(column, m), count[..];
    MarkedStart(column, m);
    var last := 1;
    for i := 0 to 256
      invariant last == Start(keys, i)
      invariant forall c :: 0 <= c < i ==> count[c] == Start(keys, c)
      invariant forall c :: i <= c < 256 ==> count[c] == was[c]
    {
      StartNext(keys, i);
      var tmp := count[i];
      count[i] := last;
      last := last + tmp;
    }
  }

  /** What the walk finds in the table: the byte and the next row. */
  lemma TableStep(column: seq<int>, m: int, posn: seq<int>, i: int)
    requires 1 <= m < |column| < LOW && IsColumn(column) && Pointers(column, m, posn, |column|) && 0 <= i < |column|
    ensures var c := posn[i] / LOW; 0 <= c < 256 && c == RowByte(column, m, i)
    ensures Start(MarkedColumn(column, m), posn[i] / LOW) + posn[i] % LOW == Next(column, m, i)
  {
    MarkedStart(column, m);
    if i != m {
      CountAtMost(MarkedColumn(column, m), i, column[i]);
    }
  }

  /** The last `k` bytes have been written. */
  ghost predicate Unsorting(column: seq<int>, m: int, bytes: seq<int>, k: int)
    requires 1 <= m < |column|
  {
    && |bytes| == |column| - 1 && 0 <= k <= |bytes|
    && forall j :: 0 <= j < k ==> bytes[|bytes| - 1 - j] == RowByte(column, m, Walk(column, m, j))
  }

  lemma UnsortOne(column: seq<int>, m: int, bytes: seq<int>, k: int)
    requires 1 <= m < |column| && Unsorting(column, m, bytes, k) && k < |bytes|
    ensures Unsorting(column, m, bytes[|bytes| - 1 - k := RowByte(column, m, Walk(column, m, k))], k + 1)
  {
  }

  /** What a step of the walk from row `i` finds, writes and leads to. */
  lemma StepFrom(column: seq<int>, m: int, posn: seq<int>, count: seq<int>, bytes: seq<int>, i: int, k: nat)
    requires 1 <= m < |column| < LOW && IsColumn(column) && Pointers(column, m, posn, |column|)
    requires |count| == 256 && forall c :: 0 <= c < 256 ==> count[c] == Start(MarkedColumn(column, m), c)
    requires i == Walk(column, m, k) && Unsorting(column, m, bytes, k) && k < |bytes|
    ensures var c := posn[i] / LOW;
      && 0 <= c < 256 && count[c] + posn[i] % LOW == Walk(column, m, k + 1)
      && Unsorting(column, m, bytes[|bytes| - 1 - k := c], k + 1)
  {
    TableStep(column, m, posn, i);
    UnsortOne(column, m, bytes, k);
  }

  /** Write the byte of row `i`, reached after `k` steps, at `last` and step to the next row. */
  method WalkStep(data: array<int>, ghost column: seq<int>, ghost m: int, posn: array<int>, count: array<int>, i: int,
                  last: int, ghost k: nat, ghost end: nat)
    returns (next: int)
    requires Ready(data, column, m, posn, count) && end == |column| - 1
    requires 0 <= last < end && k == end - 1 - last && i == Walk(column, m, k)
    requires Unsorting(column, m, data[..end], k)
    modifies data
    ensures next == Walk(column, m, k + 1)
    ensures Unsorting(column, m, data[..end], k + 1)
    ensures data[end..] == old(data[end..])
  {
    ghost var was, p := data[..end], posn[..];
    StepFrom(column, m, p, count[..], was, i, k);
    var n := posn[i];
    assert n == p[i];
    var c := n / LOW;
    data[last] := c;
    assert data[..end] == was[last := c];
    next := count[c] + n % LOW;
  }

  /** The arrays a walk over `column` needs. */
  ghost predicate Ready(data: array<int>, column: seq<int>, m: int, posn: array<int>, count: array<int>)
    reads posn, count
  {
    && posn != count && data != posn && data != count && posn.Length == |column| <= data.Length && count.Length == 256
    && 1 <= m < |column| < LOW && IsColumn(column) && Pointers(column, m, posn[..], |column|)
    && forall c :: 0 <= c < 256 ==> count[c] == Start(MarkedColumn(column, m), c)
  }

  /** Walk from the first row until the block is full. */
  method WalkAll(data: array<int>, ghost column: seq<int>, ghost m: int, posn: array<int>, count: array<int>, size: int)
    returns (row: int)
    requires Ready(data, column, m, posn, count) && size == |column|
    modifies data
    ensures row == Walk(column, m, size - 1)
    ensures Unsorted(column, m, data[..size - 1])
    ensures data[size - 1..] == old(data[size - 1..])
  {
    ghost var end, k := size - 1, 0;
    ghost var tail := data[end..];
    row := 0;
    var last := size - 1;
    while last > 0
      invariant 0 <= last <= end && k == end - last && row == Walk(column, m, k)
      invariant Ready(data, column, m, posn, count)
      invariant Unsorting(column, m, data[..end], k)
      invariant data[end..] == tail
    {
      last := last - 1;
      row := WalkStep(data, column, m, posn, count, row, last, k, end);
      k := k + 1;
    }
  }

  /**
   Undo the sort in place. For any column the walk stays in bounds and writes
   the bytes of its rows; the result is rejected unless it ends at the marker.
   */
  method UnsortBlock(data: array<int>, size: int, m: int) returns (ok: bool)
    requires 1 <= m < size <= data.Length && size < LOW && IsColumn(data[..size])
    modifies data
    ensures Unsorted(old(data[..size]), m, data[..size - 1])
    ensures data[size - 1..] == old(data[size - 1..])
    ensures ok <==> Walk(old(data[..size]), m, size - 1) == m
  {
    ghost var column := data[..size];
    var posn, count := CountRows(data, size, m);
    SumRows(column, m, count);
    var i := WalkAll(data, column, m, posn, count, size);
    ok := i == m;
  }
}
