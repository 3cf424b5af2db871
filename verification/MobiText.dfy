/** Reading the text records of a MOBI file. */
module MobiText {
  import opened HuffCodes
  import opened HuffMeaning
  import opened HuffDecoder
  import opened HuffLoad
  import opened MobiRecords
  import PalmDoc

  datatype Read = Text(bytes: seq<int>) | Failed

  ghost predicate NonDecreasing(s: seq<nat>) {
    forall i, j :: 0 <= i <= j < |s| ==> s[i] <= s[j]
  }

  lemma Within(s: seq<nat>, i: nat)
    requires NonDecreasing(s) && i + 1 < |s|
    ensures s[i] <= s[i + 1] <= s[|s| - 1]
  {
  }

  class Source {
    const file: seq<int>
    const offsets: seq<nat>
    const textStart: nat
    const textCount: nat
    const decoder: Decoder?
    const palmDoc: bool
    const flags: nat

    constructor (file: seq<int>, offsets: seq<nat>, textStart: nat, textCount: nat, decoder: Decoder?, palmDoc: bool,
                 flags: nat)
      ensures this.file == file && this.offsets == offsets && this.textStart == textStart
      ensures this.textCount == textCount && this.decoder == decoder && this.palmDoc == palmDoc && this.flags == flags
    {
      this.file, this.offsets, this.textStart, this.textCount := file, offsets, textStart, textCount;
      this.decoder, this.palmDoc, this.flags := decoder, palmDoc, flags;
    }

    ghost function Cache(): set<object> {
      if decoder == null then {} else {decoder}
    }

    /** The fixed part: a file cut into records, and a dictionary for them. */
    ghost predicate Sound() {
      && IsBytes(file) && |offsets| > 0 && offsets[|offsets| - 1] == |file| && NonDecreasing(offsets)
      && textStart + textCount < |offsets|
      && (decoder != null ==> WellFormed(decoder.tables) && IsDictionary(decoder.original))
    }

    ghost function Coding(): Coding {
      if decoder != null then Huff(decoder.tables, decoder.original) else if palmDoc then PalmDoc else Stored
    }

    /** The book the file holds. */
    ghost function TheBook(): (b: Book)
      requires Sound()
      ensures |b.stored| == textCount && b.coding == Coding() && b.flags == flags
    {
      Records(Slices(file, offsets, textStart, textStart + textCount), Coding(), flags)
    }

    /** Between reads nothing is pending in the decoder. */
    ghost predicate Valid()
      reads Cache()
    {
      Sound() && (decoder != null ==> decoder.Valid() && decoder.expandingBytes == 0 && Idle(decoder.dictionary))
    }

    /** The dictionary as far as it is expanded. */
    ghost function Dictionary(): seq<Entry>
      reads Cache()
    {
      if decoder == null then [] else decoder.dictionary
    }

    method ReadRaw(index: nat) returns (r: Read)
      requires Sound() && index + 1 < |offsets|
      ensures r ==
        if |Slice(file, offsets, index)| <= MAX_RECORD_BYTES then Text(Slice(file, offsets, index)) else Failed
    {
      Within(offsets, index);
      var start, length := offsets[index], offsets[index + 1] - offsets[index];
      if length > MAX_RECORD_BYTES { return Failed; }
      r := Text(file[start..start + length]);
    }

    /** Decode the coded text of record `i`. */
    method Decode(coded: seq<int>, ghost b: Book, ghost i: nat) returns (r: Read)
      requires Valid() && b == TheBook() && i < textCount && |b.stored[i]| <= MAX_RECORD_BYTES && coded == Coded(b, i)
      modifies Cache()
      ensures Valid() && Evolves(old(Dictionary()), Dictionary())
      ensures r.Text? ==> Given(b, Dictionary(), i, r.bytes)
      ensures Ready(b, old(Dictionary()), i) ==> r.Text?
    {
      if decoder != null {
        var output := decoder.Decode(coded, 0);
        r := if output.Ok? then Text(output.bytes) else Failed;
      } else if palmDoc {
        if |coded| > MAX_OUTPUT_BYTES / 5 { return Failed; }
        var output := PalmDoc.Decode(coded);
        r := Text(output);
      } else {
        r := Text(coded);
      }
    }

    /** Read one text record: what it says, whatever has been read before. A record read once can be read again. */
    method ReadText(i: nat, ghost b: Book) returns (r: Read)
      requires Valid() && b == TheBook()
      modifies Cache()
      ensures Valid() && Evolves(old(Dictionary()), Dictionary())
      ensures r.Text? ==> Given(b, Dictionary(), i, r.bytes)
      ensures Ready(b, old(Dictionary()), i) ==> r.Text?
    {
      if i >= textCount { return Failed; }
      SliceAt(file, offsets, textStart, textStart + textCount, i);
      var bytes := ReadRaw(textStart + i);
      if bytes.Failed? { return Failed; }
      var coded := StripTrailing(bytes.bytes, flags);
      r := Decode(coded, b, i);
    }

    /** Read one more record of a batch. */
    method ReadNext(start: nat, at: nat, output: seq<int>, ghost b: Book, ghost parts: seq<seq<int>>,
                    ghost texts: seq<seq<int>>)
      returns (r: Read, ghost longer: seq<seq<int>>)
      requires Valid() && b == TheBook() && at == start + |parts| && Batch(b, Dictionary(), start, parts, output)
      modifies Cache()
      ensures Valid() && Evolves(old(Dictionary()), Dictionary())
      ensures r.Text? ==> |longer| == |parts| + 1 && Batch(b, Dictionary(), start, longer, r.bytes)
      ensures Fit(b, old(Dictionary()), start, texts) && |parts| < |texts| ==> r.Text?
    {
      longer := parts;
      ghost var d, fit := Dictionary(), Fit(b, Dictionary(), start, texts) && |parts| < |texts|;
      if fit { FitReady(b, d, start, at, texts, |parts|); }
      var record := ReadText(at, b);
      if record.Failed? { return Failed, longer; }
      ReadStep(b, d, Dictionary(), start, at, parts, output, texts, record.bytes);
      if |record.bytes| > MAX_BATCH_BYTES - |output| { return Failed, longer; }
      longer := parts + [record.bytes];
      r := Text(output + record.bytes);
    }

    /**
     Read `count` text records from `start`. When it succeeds the result is
     the concatenation of what the records say; and it does succeed when
     every record can be read and they fit a batch together.
     */
    method ReadRecords(start: nat, count: nat, ghost b: Book, ghost texts: seq<seq<int>>)
      returns (r: Read, ghost parts: seq<seq<int>>)
      requires Valid() && b == TheBook()
      modifies Cache()
      ensures Valid() && Evolves(old(Dictionary()), Dictionary())
      ensures r.Text? ==> |parts| == count && start + count <= textCount
      ensures r.Text? ==> Batch(b, Dictionary(), start, parts, r.bytes)
      ensures |texts| == count && start + count <= textCount && Fit(b, old(Dictionary()), start, texts) ==>
        r == Text(Concat(texts))
    {
      parts := [];
      r := Failed;
      if start > textCount || count > textCount - start { return; }
      r := Text([]);
      ghost var fit := |texts| == count && Fit(b, Dictionary(), start, texts);
      for i := 0 to count
        invariant Valid() && Evolves(old(Dictionary()), Dictionary())
        invariant r.Text? && |parts| == i && Batch(b, Dictionary(), start, parts, r.bytes)
        invariant fit ==> Fit(b, Dictionary(), start, texts)
      {
        ghost var d := Dictionary();
        r, parts := ReadNext(start, start + i, r.bytes, b, parts, texts);
        EvolvesTransitive(old(Dictionary()), d, Dictionary());
        if fit { AllStay(b, d, Dictionary(), start, texts); }
        if r.Failed? { return; }
      }
      if fit {
        GivenOne(b, Dictionary(), Dictionary(), start, parts, texts);
        assert texts[..count] == texts;
      }
    }
  }

  /** Read records one at a time, up to the first that fails. */
  method ReadSingles(source: Source, start: nat, count: nat, ghost b: Book) returns (ok: bool, singles: seq<seq<int>>)
    requires source.Valid() && b == source.TheBook()
    modifies source.Cache()
    ensures source.Valid() && AllGiven(b, source.Dictionary(), start, singles)
    ensures ok ==> |singles| == count
  {
    ok, singles := true, [];
    for i := 0 to count
      invariant source.Valid() && ok && |singles| == i && AllGiven(b, source.Dictionary(), start, singles)
    {
      ok, singles := ReadSingle(source, start, start + i, singles, b);
      if !ok { return; }
    }
  }

  /** Read one record more. */
  method ReadSingle(source: Source, ghost start: nat, at: nat, singles: seq<seq<int>>, ghost b: Book)
    returns (ok: bool, longer: seq<seq<int>>)
    requires source.Valid() && b == source.TheBook() && at == start + |singles|
    requires AllGiven(b, source.Dictionary(), start, singles)
    modifies source.Cache()
    ensures source.Valid() && AllGiven(b, source.Dictionary(), start, longer)
    ensures ok ==> |longer| == |singles| + 1
  {
    ghost var d := source.Dictionary();
    var r := source.ReadText(at, b);
    ok := r.Text?;
    longer := if ok then singles + [r.bytes] else singles;
    SingleRead(b, d, source.Dictionary(), start, at, singles, r, longer);
  }

  lemma SingleRead(b: Book, d: seq<Entry>, e: seq<Entry>, start: nat, at: nat, singles: seq<seq<int>>, r: Read,
                   longer: seq<seq<int>>)
    requires Evolves(d, e) && AllGiven(b, d, start, singles) && at == start + |singles|
    requires r.Text? ==> Given(b, e, at, r.bytes)
    requires longer == if r.Text? then singles + [r.bytes] else singles
    ensures AllGiven(b, e, start, longer)
  {
    AllStay(b, d, e, start, singles);
    if r.Text? { OneMore(b, d, e, start, singles, r.bytes); }
  }

  /** Records read one at a time read in a batch as the concatenation, when that is not too long. */
  method SinglesThenBatch(source: Source, start: nat, count: nat)
    returns (ok: bool, singles: seq<seq<int>>, batch: Read)
    requires source.Valid() && start + count <= source.textCount
    modifies source.Cache()
    ensures source.Valid() && (ok ==> |singles| == count)
    ensures ok && |Concat(singles)| <= MAX_BATCH_BYTES ==> batch == Text(Concat(singles))
  {
    ghost var b := source.TheBook();
    ok, singles := ReadSingles(source, start, count, b);
    ghost var parts;
    batch, parts := source.ReadRecords(start, count, b, singles);
  }

  /** The offsets cut the whole file into records. */
  ghost predicate CutsFile(file: seq<int>, offsets: seq<int>) {
    |offsets| >= 2 && (forall i :: 0 <= i < |offsets| ==> offsets[i] >= 0)
    && offsets[|offsets| - 1] == |file| && (forall i :: 0 <= i < |offsets| - 1 ==> offsets[i] <= offsets[i + 1])
  }

  lemma {:induction false} CutsInOrder(offsets: seq<nat>, i: nat, j: nat)
    requires forall k :: 0 <= k < |offsets| - 1 ==> offsets[k] <= offsets[k + 1]
    requires i <= j < |offsets|
    ensures offsets[i] <= offsets[j]
    decreases j
  {
    if i < j { CutsInOrder(offsets, i, j - 1); }
  }

  ghost predicate InRange(offsets: seq<int>, start: nat, count: nat) {
    start + count < |offsets|
  }

  /** The records `start` to `end - 1` of the file. */
  ghost function Slices(file: seq<int>, offsets: seq<nat>, start: nat, end: nat): (r: seq<seq<int>>)
    requires IsBytes(file) && NonDecreasing(offsets) && start <= end < |offsets| && offsets[|offsets| - 1] == |file|
    ensures |r| == end - start && AllBytes(r)
    decreases end
  {
    if start == end then [] else Slices(file, offsets, start, end - 1) + [Slice(file, offsets, end - 1)]
  }

  ghost function Slice(file: seq<int>, offsets: seq<nat>, i: nat): (r: seq<int>)
    requires IsBytes(file) && NonDecreasing(offsets) && i + 1 < |offsets| && offsets[|offsets| - 1] == |file|
    ensures IsBytes(r)
  {
    Within(offsets, i);
    file[offsets[i]..offsets[i + 1]]
  }

  lemma {:induction false} SliceAt(file: seq<int>, offsets: seq<nat>, start: nat, end: nat, i: nat)
    requires IsBytes(file) && NonDecreasing(offsets) && start <= end < |offsets| && offsets[|offsets| - 1] == |file|
    requires i < end - start
    ensures Slices(file, offsets, start, end)[i] == Slice(file, offsets, start + i)
    decreases end
  {
    if i < end - start - 1 { SliceAt(file, offsets, start, end - 1, i); }
  }

  /** Check the record offsets. */
  method CheckOffsets(file: seq<int>, given: seq<int>) returns (ok: bool, offsets: seq<nat>)
    ensures ok <==> CutsFile(file, given)
    ensures ok ==> offsets == given && NonDecreasing(offsets)
  {
    ok, offsets := false, [];
    if |given| < 2 { return; }
    for i := 0 to |given|
      invariant offsets == given[..i]
    {
      if given[i] < 0 { return; }
      offsets := offsets + [given[i]];
    }
    assert given[..|given|] == given;
    if offsets[|offsets| - 1] != |file| { return; }
    for i := 0 to |offsets| - 1
      invariant forall k :: 0 <= k < i ==> offsets[k] <= offsets[k + 1]
    {
      if offsets[i] > offsets[i + 1] { return; }
    }
    forall i, j | 0 <= i <= j < |offsets| ensures offsets[i] <= offsets[j] { CutsInOrder(offsets, i, j); }
    ok := true;
  }

  /** Read the records of the dictionary, at most 64 MiB of them. */
  method ReadDictionary(file: seq<int>, offsets: seq<nat>, start: nat, count: nat) returns (r: Option<seq<seq<int>>>)
    requires IsBytes(file) && NonDecreasing(offsets) && start + count < |offsets| && offsets[|offsets| - 1] == |file|
    ensures r == if offsets[start + count] - offsets[start] <= MAX_RECORD_BYTES
                 then Some(Slices(file, offsets, start, start + count)) else None
  {
    var records: seq<seq<int>> := [];
    for i := 0 to count
      invariant records == Slices(file, offsets, start, start + i)
      invariant 0 <= offsets[start + i] - offsets[start] <= MAX_RECORD_BYTES
    {
      Within(offsets, start + i);
      var length := offsets[start + i + 1] - offsets[start + i];
      assert offsets[start + i + 1] <= offsets[start + count];
      if length > MAX_RECORD_BYTES { return None; }
      if length > MAX_RECORD_BYTES - (offsets[start + i] - offsets[start]) { return None; }
      records := records + [file[offsets[start + i]..offsets[start + i + 1]]];
    }
    r := Some(records);
  }

  /** The file can be opened: its offsets, its text and its dictionary are in order. */
  ghost predicate Openable(file: seq<int>, offsets: seq<int>, textStart: nat, textCount: nat,
                           dictStart: nat, dictCount: nat, compression: nat)
  {
    && IsBytes(file) && CutsFile(file, offsets) && InRange(offsets, textStart, textCount)
    && (compression == 1 || compression == 2
        || (compression == 17480 && HasDictionary(file, offsets, dictStart, dictCount)))
  }

  ghost predicate HasDictionary(file: seq<int>, offsets: seq<int>, start: nat, count: nat) {
    && IsBytes(file) && CutsFile(file, offsets) && NonDecreasing(offsets) && InRange(offsets, start, count)
    && offsets[start + count] - offsets[start] <= MAX_RECORD_BYTES
    && Loadable(Slices(file, offsets, start, start + count))
  }

  /** Load the dictionary of a HUFF file. */
  method OpenHuff(file: seq<int>, offsets: seq<nat>, start: nat, count: nat) returns (r: Decoder?)
    requires IsBytes(file) && CutsFile(file, offsets) && NonDecreasing(offsets)
    ensures r != null <==> HasDictionary(file, offsets, start, count)
    ensures r != null ==> fresh(r) && r.Valid() && r.expandingBytes == 0 && Idle(r.dictionary)
    ensures r != null ==> DictionaryOf(Slices(file, offsets, start, start + count), count) == Some(r.original)
    ensures r != null ==> TablesAt(Slices(file, offsets, start, start + count)[0], r.tables)
  {
    if start + count >= |offsets| { return null; }
    var given := ReadDictionary(file, offsets, start, count);
    if given.None? { return null; }
    r := LoadRecords(given.value);
  }

  /** Load a dictionary from its records. */
  method LoadRecords(records: seq<seq<int>>) returns (r: Decoder?)
    requires AllBytes(records)
    ensures r != null <==> Loadable(records)
    ensures r != null ==> fresh(r) && r.Valid() && r.expandingBytes == 0 && Idle(r.dictionary)
    ensures r != null ==> DictionaryOf(records, |records|) == Some(r.original) && TablesAt(records[0], r.tables)
  {
    var ok;
    ok, r := Load(records);
  }

  /** Open a file: it succeeds exactly when the file can be opened. */
  method Open(file: seq<int>, given: seq<int>, textStart: nat, textCount: nat, dictStart: nat, dictCount: nat,
              compression: nat, flags: nat) returns (r: Source?)
    requires IsBytes(file)
    ensures r != null <==> Openable(file, given, textStart, textCount, dictStart, dictCount, compression)
    ensures r != null ==> fresh(r) && r.Valid() && fresh(r.Cache())
    ensures r != null ==> r.file == file && r.offsets == given && r.flags == flags
                          && r.textStart == textStart && r.textCount == textCount
    ensures r != null ==> (r.decoder != null <==> compression == 17480) && (r.palmDoc <==> compression == 2)
  {
    var ok, offsets := CheckOffsets(file, given);
    if !ok || textStart + textCount >= |offsets| { return null; }
    var decoder: Decoder? := null;
    if compression == 17480 {
      decoder := OpenHuff(file, offsets, dictStart, dictCount);
      if decoder == null { return null; }
    } else if compression != 1 && compression != 2 {
      return null;
    }
    r := new Source(file, offsets, textStart, textCount, decoder, compression == 2, flags);
  }

  /** A record that needs an entry that needs itself is never read. */
  lemma CyclicSaysNothing(b: Book, i: nat, c: nat, path: seq<nat>, text: seq<int>)
    requires i < |b.stored| && b.coding.Huff?
    requires Contains(b.coding.tables, b.coding.original, Coded(b, i), c)
    requires Uses(b.coding.tables, b.coding.original, c, path, c)
    ensures !Says(b, i, text)
  {
    UsesCyclicNothing(b.coding.tables, b.coding.original, Coded(b, i), c, path, text);
  }
}
