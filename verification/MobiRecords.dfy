/** The text of a MOBI book as a value: its records, what they say, and when they can be read. */
module MobiRecords {
  import opened HuffCodes
  import opened HuffMeaning
  import opened HuffDecoder
  import PalmDoc

  const MAX_RECORD_BYTES := 64 * 1024 * 1024
  const MAX_BATCH_BYTES := 256 * 1024 * 1024

  /** The last base-128 number of the bytes: the digits back to one with its high bit set. */
  function LastNumber(b: seq<int>): nat
    requires IsBytes(b)
  {
    if b == [] then 0
    else
      var n := |b| - 1;
      (if b[n] >= 128 then 0 else LastNumber(b[..n]) * 128) + b[n] % 128
  }

  function Shorter(b: seq<int>, length: nat): (r: seq<int>)
    ensures r <= b
  {
    b[..if length <= |b| then |b| - length else 0]
  }

  function LastFour(b: seq<int>): seq<int> {
    b[if |b| >= 4 then |b| - 4 else 0..]
  }

  function Ones(n: nat): nat {
    if n == 0 then 0 else n % 2 + Ones(n / 2)
  }

  /** The record without `k` trailing entries, each as long as the number at its end says. */
  ghost function WithoutEntries(b: seq<int>, k: nat): (r: seq<int>)
    requires IsBytes(b)
    ensures r <= b
    decreases k
  {
    if k == 0 then b else WithoutEntries(Shorter(b, LastNumber(LastFour(b))), k - 1)
  }

  /** The text of a record: without its trailing entries and its cut multi-byte character. */
  ghost function TextOf(b: seq<int>, flags: nat): (r: seq<int>)
    requires IsBytes(b)
    ensures r <= b
  {
    var c := WithoutEntries(b, Ones(flags / 2));
    if flags % 2 == 1 && c != [] then Shorter(c, c[|c| - 1] % 4 + 1) else c
  }

  /** Read the length of a trailing entry. */
  method ReadNumber(b: seq<int>) returns (length: nat)
    requires IsBytes(b)
    ensures length == LastNumber(b)
  {
    length := 0;
    for i := 0 to |b|
      invariant length == LastNumber(b[..i])
    {
      assert b[..i + 1][..i] == b[..i];
      if b[i] >= 128 { length := 0; }
      length := length * 128 + b[i] % 128;
    }
    assert b[..|b|] == b;
  }

  method StripEntries(bytes: seq<int>, count: nat) returns (text: seq<int>)
    requires IsBytes(bytes)
    ensures text == WithoutEntries(bytes, count)
  {
    text := bytes;
    for i := 0 to count
      invariant IsBytes(text) && WithoutEntries(text, count - i) == WithoutEntries(bytes, count)
    {
      var length := ReadNumber(LastFour(text));
      text := Shorter(text, length);
    }
  }

  method StripTrailing(bytes: seq<int>, flags: nat) returns (text: seq<int>)
    requires IsBytes(bytes)
    ensures text == TextOf(bytes, flags)
  {
    text := StripEntries(bytes, Ones(flags / 2));
    if flags % 2 == 1 && text != [] {
      text := Shorter(text, text[|text| - 1] % 4 + 1);
    }
  }

  datatype Coding = Stored | PalmDoc | Huff(tables: Tables, original: seq<Entry>)

  /** The stored text records of a book, how they are coded, and what follows the text in them. */
  datatype Records = Records(stored: seq<seq<int>>, coding: Coding, flags: nat)

  ghost predicate AreRecords(b: Records) {
    && (forall i :: 0 <= i < |b.stored| ==> IsBytes(b.stored[i]))
    && (b.coding.Huff? ==> WellFormed(b.coding.tables) && IsDictionary(b.coding.original))
  }

  type Book = b: Records | AreRecords(b) witness Records([], Stored, 0)

  ghost function Concat(texts: seq<seq<int>>): seq<int> {
    if texts == [] then [] else Concat(texts[..|texts| - 1]) + texts[|texts| - 1]
  }

  lemma ConcatPush(texts: seq<seq<int>>, t: seq<int>)
    ensures Concat(texts + [t]) == Concat(texts) + t
  {
    assert (texts + [t])[..|texts|] == texts;
  }

  lemma {:induction false} ConcatPrefix(texts: seq<seq<int>>, n: nat)
    requires n <= |texts|
    ensures Concat(texts[..n]) <= Concat(texts)
    decreases |texts|
  {
    if n < |texts| {
      var rest := texts[..|texts| - 1];
      ConcatPrefix(rest, n);
      assert rest[..n] == texts[..n];
    } else {
      assert texts[..n] == texts;
    }
  }

  /** The coded text of a record. */
  ghost function Coded(b: Book, i: nat): (r: seq<int>)
    requires i < |b.stored|
    ensures IsBytes(r)
  {
    TextOf(b.stored[i], b.flags)
  }

  /** `text` is what text record `i` says, whatever has been read before. */
  ghost predicate Says(b: Book, i: nat, text: seq<int>) {
    i < |b.stored| &&
    match b.coding
    case Stored => text == Coded(b, i)
    case PalmDoc => text == PalmDoc.Meaning(Coded(b, i))
    case Huff(t, o) => StreamMeans(t, o, Coded(b, i), text)
  }

  /** A record says one thing. */
  lemma SaysOne(b: Book, i: nat, x: seq<int>, y: seq<int>)
    requires Says(b, i, x) && Says(b, i, y)
    ensures x == y
  {
    if b.coding.Huff? { OneMeaning(b.coding.tables, b.coding.original, Coded(b, i), x, y); }
  }

  /** With the dictionary `d`, record `i` can be read without expanding anything. */
  ghost predicate Ready(b: Book, d: seq<Entry>, i: nat) {
    i < |b.stored| && |b.stored[i]| <= MAX_RECORD_BYTES &&
    match b.coding
    case Stored => true
    case PalmDoc => |Coded(b, i)| <= MAX_OUTPUT_BYTES / 5
    case Huff(t, o) => Warm(t, d, Coded(b, i))
  }

  /** Reading other records never spoils one. */
  lemma StaysReady(b: Book, d: seq<Entry>, e: seq<Entry>, i: nat)
    requires Evolves(d, e) && Ready(b, d, i)
    ensures Ready(b, e, i)
  {
    if b.coding.Huff? { WarmEvolves(b.coding.tables, d, e, Coded(b, i)); }
  }

  /** What a successful read of record `i` has given: what it says, and it can be read again. */
  ghost predicate Given(b: Book, d: seq<Entry>, i: nat, text: seq<int>) {
    Says(b, i, text) && Ready(b, d, i)
  }

  lemma GivenStays(b: Book, d: seq<Entry>, e: seq<Entry>, i: nat, text: seq<int>)
    requires Evolves(d, e) && Given(b, d, i, text)
    ensures Given(b, e, i, text)
  {
    StaysReady(b, d, e, i);
  }

  /** The texts are those of the records from `start` on. */
  ghost predicate AllGiven(b: Book, d: seq<Entry>, start: nat, texts: seq<seq<int>>) {
    forall k: nat :: k < |texts| ==> GivenAt(b, d, start, texts, k)
  }

  ghost predicate GivenAt(b: Book, d: seq<Entry>, start: nat, texts: seq<seq<int>>, k: nat) {
    k < |texts| && Given(b, d, start + k, texts[k])
  }

  lemma AllStay(b: Book, d: seq<Entry>, e: seq<Entry>, start: nat, texts: seq<seq<int>>)
    requires Evolves(d, e) && AllGiven(b, d, start, texts)
    ensures AllGiven(b, e, start, texts)
  {
    forall k: nat | k < |texts| ensures GivenAt(b, e, start, texts, k) {
      assert GivenAt(b, d, start, texts, k);
      GivenStays(b, d, e, start + k, texts[k]);
    }
  }

  /** One text more. */
  lemma OneMore(b: Book, d: seq<Entry>, e: seq<Entry>, start: nat, texts: seq<seq<int>>, t: seq<int>)
    requires Evolves(d, e) && AllGiven(b, d, start, texts) && Given(b, e, start + |texts|, t)
    ensures AllGiven(b, e, start, texts + [t])
  {
    AllStay(b, d, e, start, texts);
    forall k: nat | k < |texts| + 1 ensures GivenAt(b, e, start, texts + [t], k) {
      if k < |texts| { assert GivenAt(b, e, start, texts, k); }
    }
  }

  /** Records say one list of texts. */
  lemma GivenOne(b: Book, d: seq<Entry>, e: seq<Entry>, start: nat, x: seq<seq<int>>, y: seq<seq<int>>)
    requires AllGiven(b, d, start, x) && AllGiven(b, e, start, y) && |x| <= |y|
    ensures x == y[..|x|]
  {
    forall k: nat | k < |x| ensures x[k] == y[k] {
      assert GivenAt(b, d, start, x, k) && GivenAt(b, e, start, y, k);
      SaysOne(b, start + k, x[k], y[k]);
    }
  }

  /** What has been read of a batch. */
  ghost predicate Batch(b: Book, d: seq<Entry>, start: nat, parts: seq<seq<int>>, output: seq<int>) {
    AllGiven(b, d, start, parts) && output == Concat(parts) && |output| <= MAX_BATCH_BYTES
  }

  lemma BatchNext(b: Book, d: seq<Entry>, e: seq<Entry>, start: nat, parts: seq<seq<int>>, output: seq<int>,
                  t: seq<int>)
    requires Evolves(d, e) && Batch(b, d, start, parts, output) && Given(b, e, start + |parts|, t)
    requires |output| + |t| <= MAX_BATCH_BYTES
    ensures Batch(b, e, start, parts + [t], output + t)
  {
    OneMore(b, d, e, start, parts, t);
    ConcatPush(parts, t);
  }

  /** A batch of records that can be read and that fit a batch together. */
  ghost predicate Fit(b: Book, d: seq<Entry>, start: nat, texts: seq<seq<int>>) {
    AllGiven(b, d, start, texts) && |Concat(texts)| <= MAX_BATCH_BYTES
  }

  /** In a batch that fits, the next text is ready and not too long. */
  lemma FitNext(b: Book, d: seq<Entry>, start: nat, parts: seq<seq<int>>, output: seq<int>, texts: seq<seq<int>>,
                t: seq<int>)
    requires Fit(b, d, start, texts) && Batch(b, d, start, parts, output) && |parts| < |texts|
    requires Says(b, start + |parts|, t)
    ensures |output| + |t| <= MAX_BATCH_BYTES
  {
    assert GivenAt(b, d, start, texts, |parts|);
    SaysOne(b, start + |parts|, t, texts[|parts|]);
    GivenOne(b, d, d, start, parts, texts);
    ConcatPush(parts, t);
    ConcatPrefix(texts, |parts| + 1);
    assert texts[..|parts| + 1] == parts + [t];
  }

  /** One record more read for a batch: it belongs to it if there is room, and there is if all the texts fit. */
  lemma ReadStep(b: Book, d: seq<Entry>, e: seq<Entry>, start: nat, at: nat, parts: seq<seq<int>>, output: seq<int>,
                 texts: seq<seq<int>>, t: seq<int>)
    requires Evolves(d, e) && Batch(b, d, start, parts, output) && at == start + |parts| && Given(b, e, at, t)
    ensures |t| <= MAX_BATCH_BYTES - |output| ==> Batch(b, e, start, parts + [t], output + t)
    ensures Fit(b, d, start, texts) && |parts| < |texts| ==> |t| <= MAX_BATCH_BYTES - |output|
  {
    if |t| <= MAX_BATCH_BYTES - |output| { BatchNext(b, d, e, start, parts, output, t); }
    if Fit(b, d, start, texts) && |parts| < |texts| { FitNext(b, d, start, parts, output, texts, t); }
  }

  /** A text that a record has given can be read again. */
  lemma FitReady(b: Book, d: seq<Entry>, start: nat, at: nat, texts: seq<seq<int>>, n: nat)
    requires Fit(b, d, start, texts) && n < |texts| && at == start + n
    ensures Ready(b, d, at)
  {
    assert GivenAt(b, d, start, texts, n);
  }
}
