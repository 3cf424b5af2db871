/** Loading a HUFF dictionary: the first record holds the tables, the others the entries. */
module HuffLoad {
  import opened Powers
  import opened HuffCodes
  import opened HuffMeaning
  import opened HuffDecoder

  datatype Option<T> = None | Some(value: T)

  function ReadU16(b: seq<int>, offset: nat): (r: Option<int>)
    requires IsBytes(b)
    ensures r.Some? ==> 0 <= r.value < 0x1_0000
  {
    if offset + 2 <= |b| then Some(b[offset] * 256 + b[offset + 1]) else None
  }

  function ReadU32(b: seq<int>, offset: nat): (r: Option<int>)
    requires IsBytes(b)
    ensures r.Some? ==> 0 <= r.value < 0x1_0000_0000
  {
    if offset + 4 <= |b|
    then Some(((b[offset] * 256 + b[offset + 1]) * 256 + b[offset + 2]) * 256 + b[offset + 3])
    else None
  }

  const HUFF := [72, 85, 70, 70]
  const CDIC := [67, 68, 73, 67]

  /** One word of the prefix table: five bits of length, a flag, and 24 bits of value. */
  function PrefixOf(word: nat): Prefix {
    Prefix(word / 0x80 % 2 == 1, word % 0x20, word / 0x100)
  }

  /** The tables `t` are those of the HUFF record. */
  ghost predicate TablesAt(huff: seq<int>, t: Tables) {
    && IsBytes(huff) && HUFF <= huff && WellFormed(t)
    && var p, q := ReadU32(huff, 8), ReadU32(huff, 12);
      && p.Some? && q.Some? && p.value + 1024 <= |huff| && q.value + 256 <= |huff|
      && PrefixesAt(huff, p.value, t.prefixes)
      && t.ranges[0] == CodeRange(0, 0) && RangesAt(huff, q.value, t.ranges)
  }

  ghost predicate PrefixesAt(huff: seq<int>, at: nat, prefixes: seq<Prefix>) {
    IsBytes(huff) && at + 4 * |prefixes| <= |huff| &&
    forall i :: 0 <= i < |prefixes| ==> prefixes[i] == PrefixOf(ReadU32(huff, at + 4 * i).value)
  }

  ghost predicate RangesAt(huff: seq<int>, at: nat, ranges: seq<CodeRange>) {
    IsBytes(huff) && at + 8 * (|ranges| - 1) <= |huff| &&
    forall i :: 1 <= i < |ranges| ==>
      ranges[i] == CodeRange(ReadU32(huff, at + 8 * i - 8).value, ReadU32(huff, at + 8 * i - 4).value)
  }

  /** Whether a record can hold the tables at all. */
  ghost predicate HasTables(huff: seq<int>) {
    && IsBytes(huff) && HUFF <= huff
    && var p, q := ReadU32(huff, 8), ReadU32(huff, 12);
      p.Some? && q.Some? && p.value + 1024 <= |huff| && q.value + 256 <= |huff|
  }

  /** Entry `i` of a CDIC record: its place from the offset table, its length and flag from a 16-bit word. */
  ghost function EntryAt(buffer: seq<int>, i: nat): Option<Entry>
    requires IsBytes(buffer)
  {
    var offset := ReadU16(buffer, 2 * i);
    if offset.None? then None
    else
      var word := ReadU16(buffer, offset.value);
      if word.None? then None
      else
        var start, length := offset.value + 2, word.value % 0x8000;
        if start + length > |buffer| then None
        else Some(Entry(buffer[start..start + length], if word.value >= 0x8000 then Decoded else Packed))
  }

  /** The first `count` entries of a CDIC record. */
  ghost function EntriesOf(buffer: seq<int>, count: nat): (r: Option<seq<Entry>>)
    requires IsBytes(buffer)
    ensures r.Some? ==> |r.value| == count && IsDictionary(r.value)
    decreases count, |buffer|
  {
    if count == 0 then Some([])
    else
      var es, e := EntriesOf(buffer, count - 1), EntryAt(buffer, count - 1);
      if es.Some? && e.Some? then Some(es.value + [e.value]) else None
  }

  /** How many entries a CDIC record adds to `before` others. */
  ghost function CountOf(record: seq<int>, before: nat): Option<nat>
    requires IsBytes(record)
  {
    var total, bits := ReadU32(record, 8), ReadU32(record, 12);
    if !(CDIC <= record) || total.None? || bits.None? || bits.value >= 64 || total.value < before then None
    else Some(if Pow2(bits.value) <= total.value - before then Pow2(bits.value) else total.value - before)
  }

  /** The entries a CDIC record adds to `before` others. */
  ghost function Added(record: seq<int>, before: nat): (r: Option<seq<Entry>>)
    requires IsBytes(record)
    ensures r.Some? ==> IsDictionary(r.value)
  {
    var header, count := ReadU32(record, 4), CountOf(record, before);
    if header.None? || count.None? || header.value > |record| then None
    else EntriesOf(record[header.value..], count.value)
  }

  ghost predicate AllBytes(records: seq<seq<int>>) {
    forall i :: 0 <= i < |records| ==> IsBytes(records[i])
  }

  /** The dictionary of the records after the first, up to record `n`. */
  ghost function DictionaryOf(records: seq<seq<int>>, n: nat): (r: Option<seq<Entry>>)
    requires AllBytes(records) && 0 < n <= |records|
    ensures r.Some? ==> IsDictionary(r.value)
    decreases n
  {
    if n == 1 then Some([])
    else
      var d := DictionaryOf(records, n - 1);
      if d.None? then None
      else
        var more := Added(records[n - 1], |d.value|);
        if more.None? then None else Some(d.value + more.value)
  }

  /** The length of the payloads, and of the entries' own records. */
  ghost function Footprint(es: seq<Entry>): nat {
    if es == [] then 0 else Footprint(es[..|es| - 1]) + |es[|es| - 1].bytes| + ENTRY_BYTES
  }

  lemma {:induction false} FootprintAppend(a: seq<Entry>, b: seq<Entry>)
    ensures Footprint(a + b) == Footprint(a) + Footprint(b)
  {
    if b == [] {
      assert a + b == a;
    } else {
      var n := |b| - 1;
      FootprintAppend(a, b[..n]);
      assert (a + b)[..|a| + n] == a + b[..n];
    }
  }

  lemma {:induction false} FootprintIsCharged(d: seq<Entry>)
    requires IsDictionary(d)
    ensures Footprint(d) == |d| * ENTRY_BYTES + Charges(d, d)
  {
    if d != [] {
      var n := |d| - 1;
      assert forall c :: 0 <= c < n ==> d[..n][c] == d[c];
      FootprintIsCharged(d[..n]);
    }
  }

  /** When all entries can be read, so can fewer, and they take less. */
  lemma {:induction false} EntriesPrefix(buffer: seq<int>, i: nat, count: nat)
    requires IsBytes(buffer) && i <= count && EntriesOf(buffer, count).Some?
    ensures EntriesOf(buffer, i).Some?
    ensures Footprint(EntriesOf(buffer, count).value) >=
            Footprint(EntriesOf(buffer, i).value) + (count - i) * ENTRY_BYTES
    decreases count
  {
    if i < count {
      EntriesPrefix(buffer, i, count - 1);
      var e := EntryAt(buffer, count - 1).value;
      FootprintAppend(EntriesOf(buffer, count - 1).value, [e]);
      assert Footprint([e]) == |e.bytes| + ENTRY_BYTES;
    }
  }

  lemma {:induction false} DictionaryPrefix(records: seq<seq<int>>, i: nat, n: nat)
    requires AllBytes(records) && 0 < i <= n <= |records| && DictionaryOf(records, n).Some?
    ensures DictionaryOf(records, i).Some?
    ensures Footprint(DictionaryOf(records, n).value) >= Footprint(DictionaryOf(records, i).value)
    decreases n
  {
    if i < n {
      DictionaryPrefix(records, i, n - 1);
      var d := DictionaryOf(records, n - 1).value;
      FootprintAppend(d, Added(records[n - 1], |d|).value);
    }
  }

  lemma TooMany(buffer: seq<int>, count: nat)
    requires IsBytes(buffer) && count > |buffer| / 2
    ensures EntriesOf(buffer, count).None?
  {
    assert EntryAt(buffer, count - 1).None?;
  }

  /** One record more: the whole dictionary needs it and is no smaller. */
  lemma RecordAfter(records: seq<seq<int>>, n: nat, d: seq<Entry>)
    requires AllBytes(records) && 0 < n < |records| && DictionaryOf(records, n) == Some(d)
    ensures var more, all := Added(records[n], |d|), DictionaryOf(records, |records|);
      && (more.Some? ==> DictionaryOf(records, n + 1) == Some(d + more.value)
                         && Footprint(d + more.value) == Footprint(d) + Footprint(more.value))
      && (all.Some? ==> more.Some? && Footprint(all.value) >= Footprint(d) + Footprint(more.value))
  {
    var more, all := Added(records[n], |d|), DictionaryOf(records, |records|);
    if more.Some? { FootprintAppend(d, more.value); }
    if all.Some? { DictionaryPrefix(records, n + 1, |records|); }
  }

  /** Read one entry. */
  method LoadEntry(buffer: seq<int>, i: nat) returns (r: Option<Entry>)
    requires IsBytes(buffer)
    ensures r == EntryAt(buffer, i)
  {
    var offset := ReadU16(buffer, 2 * i);
    if offset.None? { return None; }
    var word := ReadU16(buffer, offset.value);
    if word.None? { return None; }
    var start, length := offset.value + 2, word.value % 0x8000;
    if start + length > |buffer| { return None; }
    r := Some(Entry(buffer[start..start + length], if word.value >= 0x8000 then Decoded else Packed));
  }

  /**
   Read the first `count` entries of a CDIC record: an error exactly when one is cut off or the budget is too
   small.
   */
  method LoadEntries(buffer: seq<int>, count: nat, used: int) returns (r: Option<seq<Entry>>, bytes: int)
    requires IsBytes(buffer) && 0 <= used <= MAX_CACHE_BYTES
    ensures r.Some? ==> r == EntriesOf(buffer, count) && bytes == used + Footprint(r.value) <= MAX_CACHE_BYTES
    ensures r.None? && EntriesOf(buffer, count).Some? ==>
      used + Footprint(EntriesOf(buffer, count).value) > MAX_CACHE_BYTES
  {
    bytes := used;
    ghost var all := EntriesOf(buffer, count);
    if count > |buffer| / 2 {
      TooMany(buffer, count);
      return None, bytes;
    }
    if all.Some? { EntriesPrefix(buffer, 0, count); }
    if count > (MAX_CACHE_BYTES - used) / ENTRY_BYTES { return None, bytes; }
    bytes := used + count * ENTRY_BYTES;
    var es := [];
    for i := 0 to count
      invariant EntriesOf(buffer, i) == Some(es)
      invariant bytes == used + Footprint(es) + (count - i) * ENTRY_BYTES && bytes <= MAX_CACHE_BYTES
    {
      var e := LoadEntry(buffer, i);
      if all.Some? { EntriesPrefix(buffer, i + 1, count); }
      if e.None? { return None, bytes; }
      FootprintAppend(es, [e.value]);
      assert Footprint([e.value]) == |e.value.bytes| + ENTRY_BYTES;
      if |e.value.bytes| > MAX_CACHE_BYTES - bytes { return None, bytes; }
      bytes := bytes + |e.value.bytes|;
      es := es + [e.value];
    }
    r := Some(es);
  }

  /** Read a CDIC record. */
  method LoadRecord(record: seq<int>, before: nat, used: int) returns (r: Option<seq<Entry>>, bytes: int)
    requires IsBytes(record) && 0 <= used <= MAX_CACHE_BYTES
    ensures r.Some? ==> r == Added(record, before) && bytes == used + Footprint(r.value) <= MAX_CACHE_BYTES
    ensures r.None? && Added(record, before).Some? ==> used + Footprint(Added(record, before).value) > MAX_CACHE_BYTES
  {
    if !(CDIC <= record) { return None, used; }
    var header := ReadU32(record, 4);
    if header.None? { return None, used; }
    var count := LoadCount(record, before);
    if count.None? || header.value > |record| { return None, used; }
    r, bytes := LoadEntries(record[header.value..], count.value, used);
  }

  /**
   After `before` others a record may add `n` entries: codes of its length tell them apart, the dictionary
   does not outgrow the total the record names, and one entry more would break one of the two.
   */
  ghost predicate MostEntries(record: seq<int>, before: nat, n: nat)
    requires IsBytes(record)
  {
    var total, bits := ReadU32(record, 8), ReadU32(record, 12);
    && total.Some? && bits.Some? && bits.value < 64
    && n <= Pow2(bits.value) && before + n <= total.value
    && (n + 1 > Pow2(bits.value) || before + n + 1 > total.value)
  }

  /** How many entries the record is to give: as many as its code length allows, up to those still missing. */
  method LoadCount(record: seq<int>, before: nat) returns (count: Option<nat>)
    requires IsBytes(record) && CDIC <= record
    ensures count == CountOf(record, before)
    ensures count.Some? ==> MostEntries(record, before, count.value)
    ensures count.Some? ==> forall n: nat :: MostEntries(record, before, n) ==> n == count.value
    ensures count.None? ==> forall n: nat :: !MostEntries(record, before, n)
  {
    var total := ReadU32(record, 8);
    if total.None? { return None; }
    var bits := ReadU32(record, 12);
    if bits.None? || bits.value >= 64 || total.value < before { return None; }
    var remaining := total.value - before;
    count := Some(if Pow2(bits.value) <= remaining then Pow2(bits.value) else remaining);
  }

  /** Read the 256 words of the prefix table. */
  method LoadPrefixes(huff: seq<int>, at: nat) returns (prefixes: seq<Prefix>)
    requires IsBytes(huff) && at + 1024 <= |huff|
    ensures |prefixes| == 256 && PrefixesAt(huff, at, prefixes)
    ensures forall p :: p in prefixes ==> p.length < 32
  {
    prefixes := [];
    for i := 0 to 256
      invariant |prefixes| == i && PrefixesAt(huff, at, prefixes)
      invariant forall p :: p in prefixes ==> p.length < 32
    {
      prefixes := prefixes + [PrefixOf(ReadU32(huff, at + 4 * i).value)];
    }
  }

  /** Read the 32 pairs of the range table; range 0 is unused. */
  method LoadRanges(huff: seq<int>, at: nat) returns (ranges: seq<CodeRange>)
    requires IsBytes(huff) && at + 256 <= |huff|
    ensures |ranges| == 33 && ranges[0] == CodeRange(0, 0) && RangesAt(huff, at, ranges)
  {
    ranges := [CodeRange(0, 0)];
    for i := 0 to 32
      invariant |ranges| == i + 1 && ranges[0] == CodeRange(0, 0) && RangesAt(huff, at, ranges)
    {
      ranges := ranges + [CodeRange(ReadU32(huff, at + 8 * i).value, ReadU32(huff, at + 8 * i + 4).value)];
    }
  }

  /** Read the entries of all records after the first. */
  method LoadDictionary(records: seq<seq<int>>) returns (r: Option<seq<Entry>>, bytes: int)
    requires AllBytes(records) && records != []
    ensures r.Some? ==> r == DictionaryOf(records, |records|) && bytes == Footprint(r.value) <= MAX_CACHE_BYTES
    ensures r.None? && DictionaryOf(records, |records|).Some? ==>
      Footprint(DictionaryOf(records, |records|).value) > MAX_CACHE_BYTES
  {
    var d: seq<Entry> := [];
    bytes := 0;
    for n := 1 to |records|
      invariant LoadedTo(records, n, d, bytes)
    {
      r, bytes := LoadNext(records, n, d, bytes);
      if r.None? { return; }
      d := r.value;
    }
    r := Some(d);
  }

  /** The records before `n` have given the entries `d`, which take `bytes`. */
  ghost predicate LoadedTo(records: seq<seq<int>>, n: int, d: seq<Entry>, bytes: int) {
    && AllBytes(records) && 0 < n <= |records|
    && DictionaryOf(records, n) == Some(d) && bytes == Footprint(d) <= MAX_CACHE_BYTES
  }

  /** Add the entries of one record more. */
  method LoadNext(records: seq<seq<int>>, n: nat, d: seq<Entry>, used: int) returns (r: Option<seq<Entry>>, bytes: int)
    requires LoadedTo(records, n, d, used) && n < |records|
    ensures r.Some? ==> LoadedTo(records, n + 1, r.value, bytes)
    ensures r.None? && DictionaryOf(records, |records|).Some? ==>
      Footprint(DictionaryOf(records, |records|).value) > MAX_CACHE_BYTES
  {
    var more;
    more, bytes := LoadRecord(records[n], |d|, used);
    RecordAfter(records, n, d);
    r := if more.Some? then Some(d + more.value) else None;
  }

  /** The records hold a dictionary that fits the cache. */
  ghost predicate Loadable(records: seq<seq<int>>) {
    && AllBytes(records) && records != [] && HasTables(records[0])
    && DictionaryOf(records, |records|).Some?
    && Footprint(DictionaryOf(records, |records|).value) <= MAX_CACHE_BYTES
  }

  /** Load a decoder: it succeeds exactly when the records are loadable, and starts idle with exact accounts. */
  method Load(records: seq<seq<int>>) returns (ok: bool, r: Decoder?)
    requires AllBytes(records)
    ensures ok <==> Loadable(records)
    ensures ok <==> r != null
    ensures ok ==> fresh(r) && r.Valid() && r.expandingBytes == 0 && Idle(r.dictionary)
    ensures ok ==> TablesAt(records[0], r.tables) && r.dictionary == r.original
    ensures ok ==> DictionaryOf(records, |records|) == Some(r.original)
  {
    ok, r := false, null;
    if records == [] || !(HUFF <= records[0]) { return; }
    var huff := records[0];
    var p, q := ReadU32(huff, 8), ReadU32(huff, 12);
    if p.None? || q.None? || p.value + 1024 > |huff| || q.value + 256 > |huff| { return; }
    var prefixes := LoadPrefixes(huff, p.value);
    var ranges := LoadRanges(huff, q.value);
    var d, bytes := LoadDictionary(records);
    if d.None? { return; }
    FootprintIsCharged(d.value);
    r := new Decoder(Tables(prefixes, ranges), d.value, bytes);
    ok := true;
  }
}
