/** The layout of a bundled document: chunks, and the directory chunk with offsets, sizes, flags and strings. */
module BundleFormat {
  import opened Sequences

  /** One file of the directory. `kind` is the type in the low six bits of its flags. */
  datatype Entry = Entry(id: seq<int>, name: seq<int>, title: seq<int>, kind: nat, offset: nat, size: nat)

  const HAS_NAME := 0x80
  const HAS_TITLE := 0x40
  const SHARED_ANNO := 3

  /** The general-purpose compressor used for all but the offsets, as a pair of functions. */
  datatype Codec = Codec(pack: seq<int> -> seq<int>, unpack: seq<int> -> seq<int>)

  ghost predicate AreBytes(s: seq<int>) {
    forall i :: 0 <= i < |s| ==> 0 <= s[i] < 0x100
  }

  /** Packed bytes are bytes, and unpack to the same; whatever bytes are unpacked, bytes come out. */
  ghost predicate Lossless(c: Codec) {
    && (forall s :: AreBytes(s) ==> AreBytes(c.pack(s)) && c.unpack(c.pack(s)) == s)
    && (forall s :: AreBytes(s) ==> AreBytes(c.unpack(s)))
  }

  /** Numbers are stored with the high byte first and cut to their width. */
  function U16(n: nat): seq<int> { [n / 0x100 % 0x100, n % 0x100] }

  function U24(n: nat): seq<int> { [n / 0x1_0000 % 0x100, n / 0x100 % 0x100, n % 0x100] }

  function U32(n: nat): seq<int> { [n / 0x100_0000 % 0x100, n / 0x1_0000 % 0x100, n / 0x100 % 0x100, n % 0x100] }

  function Number(s: seq<int>): int {
    if s == [] then 0 else Number(s[..|s| - 1]) * 0x100 + s[|s| - 1]
  }

  lemma NumberPush(s: seq<int>, x: int)
    ensures Number(s + [x]) == Number(s) * 0x100 + x
  {
    PushLast(s, x);
  }

  lemma ReadsBack16(n: nat)
    ensures Number(U16(n)) == n % 0x1_0000
  {
    NumberPush([], n / 0x100 % 0x100);
    NumberPush([n / 0x100 % 0x100], n % 0x100);
    Digits(n);
    assert [] + [n / 0x100 % 0x100] == [n / 0x100 % 0x100] && [n / 0x100 % 0x100] + [n % 0x100] == U16(n);
  }

  lemma ReadsBack24(n: nat)
    ensures Number(U24(n)) == n % 0x100_0000
  {
    var h := U16(n / 0x100);
    ReadsBack16(n / 0x100);
    NumberPush(h, n % 0x100);
    Digits(n);
    assert h + [n % 0x100] == U24(n);
  }

  lemma ReadsBack32(n: nat)
    ensures Number(U32(n)) == n % 0x1_0000_0000
  {
    var h := U24(n / 0x100);
    ReadsBack24(n / 0x100);
    NumberPush(h, n % 0x100);
    Digits(n);
    assert h + [n % 0x100] == U32(n);
  }

  lemma SizeReads(n: nat)
    requires n < 0x1_0000_0000
    ensures Number(U32(n)) == n
  {
    ReadsBack32(n);
    assert n % 0x1_0000_0000 == n;
  }

  /** One byte more at the low end. */
  lemma Digits(n: nat)
    ensures n / 0x100 % 0x100 * 0x100 + n % 0x100 == n % 0x1_0000
    ensures n / 0x100 % 0x1_0000 * 0x100 + n % 0x100 == n % 0x100_0000
    ensures n / 0x100 % 0x100_0000 * 0x100 + n % 0x100 == n % 0x1_0000_0000
    ensures n / 0x100 / 0x100 == n / 0x1_0000 && n / 0x100 / 0x1_0000 == n / 0x100_0000
  {
    var q := n / 0x100;
    assert n == q * 0x100 + n % 0x100;
    Digit(q, n % 0x100, n);
  }

  lemma Digit(q: nat, r: nat, n: nat)
    requires r < 0x100 && n == q * 0x100 + r
    ensures q % 0x100 * 0x100 + r == n % 0x1_0000
    ensures q % 0x1_0000 * 0x100 + r == n % 0x100_0000
    ensures q % 0x100_0000 * 0x100 + r == n % 0x1_0000_0000
    ensures q / 0x100 == n / 0x1_0000 && q / 0x1_0000 == n / 0x100_0000
  {
    Digit16(q, r, n);
    Digit24(q, r, n);
    Digit32(q, r, n);
  }

  lemma Digit16(q: nat, r: nat, n: nat)
    requires r < 0x100 && n == q * 0x100 + r
    ensures q % 0x100 * 0x100 + r == n % 0x1_0000 && q / 0x100 == n / 0x1_0000
  {
    Parts16(q / 0x100, q % 0x100 * 0x100 + r, n);
  }

  lemma Parts16(h: nat, l: nat, n: nat)
    requires l < 0x1_0000 && n == h * 0x1_0000 + l
    ensures n % 0x1_0000 == l && n / 0x1_0000 == h
  {
  }

  lemma Digit24(q: nat, r: nat, n: nat)
    requires r < 0x100 && n == q * 0x100 + r
    ensures q % 0x1_0000 * 0x100 + r == n % 0x100_0000 && q / 0x1_0000 == n / 0x100_0000
  {
    Parts24(q / 0x1_0000, q % 0x1_0000 * 0x100 + r, n);
  }

  lemma Parts24(h: nat, l: nat, n: nat)
    requires l < 0x100_0000 && n == h * 0x100_0000 + l
    ensures n % 0x100_0000 == l && n / 0x100_0000 == h
  {
  }

  lemma Digit32(q: nat, r: nat, n: nat)
    requires r < 0x100 && n == q * 0x100 + r
    ensures q % 0x100_0000 * 0x100 + r == n % 0x1_0000_0000
  {
    Parts32(q / 0x100_0000, q % 0x100_0000 * 0x100 + r, n);
  }

  lemma Parts32(h: nat, l: nat, n: nat)
    requires l < 0x1_0000_0000 && n == h * 0x1_0000_0000 + l
    ensures n % 0x1_0000_0000 == l
  {
  }

  // The directory

  ghost predicate HasName(e: Entry) { e.name != [] && e.name != e.id }

  ghost predicate HasTitle(e: Entry) { e.title != [] && e.title != e.id }

  ghost function FlagOf(e: Entry): int {
    e.kind + (if HasName(e) then HAS_NAME else 0) + (if HasTitle(e) then HAS_TITLE else 0)
  }

  /** The flags of version 0 tell pages from other files only. */
  ghost function OldFlagOf(e: Entry): int {
    e.kind + (if HasName(e) then 2 else 0) + (if HasTitle(e) then 4 else 0)
  }

  ghost function Nothing(e: Entry): seq<int> { [] }

  ghost function OffsetOf(e: Entry): seq<int> { U32(e.offset) }

  ghost function OffsetAndSize(e: Entry): seq<int> { U32(e.offset) + U24(e.size) }

  ghost function SizeOf(e: Entry): seq<int> { U24(e.size) }

  ghost function FlagByte(e: Entry): seq<int> { [FlagOf(e)] }

  ghost function OldFlagByte(e: Entry): seq<int> { [OldFlagOf(e)] }

  ghost function StringsOf(e: Entry): seq<int> {
    e.id + [0] + (if HasName(e) then e.name + [0] else []) + (if HasTitle(e) then e.title + [0] else [])
  }

  /** The entries one after another, each in its own form. */
  ghost function All(fs: seq<Entry>, form: Entry -> seq<int>): seq<int> {
    if fs == [] then [] else All(fs[..|fs| - 1], form) + form(fs[|fs| - 1])
  }

  /** The forms of a directory: its version, and whether it is that of a bundled document. */
  datatype Form = Form(version: int, bundled: bool)

  /** The form in which bundled documents are written. */
  const CURRENT := Form(1, true)

  ghost predicate IsForm(m: Form) {
    0 <= m.version <= 1
  }

  /** What stands before the compressed part for each entry: its offset, and in version 0 its size. */
  ghost function OffsetForm(m: Form): Entry -> seq<int> {
    if !m.bundled then Nothing else if m.version == 0 then OffsetAndSize else OffsetOf
  }

  function OffsetWidth(m: Form): nat {
    if !m.bundled then 0 else if m.version == 0 then 7 else 4
  }

  ghost function SizeForm(m: Form): Entry -> seq<int> {
    if m.version == 0 then Nothing else SizeOf
  }

  function SizeWidth(m: Form): nat {
    if m.version == 0 then 0 else 3
  }

  ghost function FlagForm(m: Form): Entry -> seq<int> {
    if m.version == 0 then OldFlagByte else FlagByte
  }

  ghost function Offsets(m: Form, fs: seq<Entry>): seq<int> { All(fs, OffsetForm(m)) }

  ghost function Sizes(m: Form, fs: seq<Entry>): seq<int> { All(fs, SizeForm(m)) }

  ghost function Flags(m: Form, fs: seq<Entry>): seq<int> { All(fs, FlagForm(m)) }

  ghost function Strings(fs: seq<Entry>): seq<int> { All(fs, StringsOf) }

  /** The part of the directory that is compressed. */
  ghost function Packed(m: Form, fs: seq<Entry>): seq<int> {
    Sizes(m, fs) + Flags(m, fs) + Strings(fs)
  }

  /** A directory in some form. */
  ghost function DirectoryIn(m: Form, fs: seq<Entry>, c: Codec): seq<int> {
    [m.version + if m.bundled then 0x80 else 0] + U16(|fs|) +
      if fs == [] then [] else Offsets(m, fs) + c.pack(Packed(m, fs))
  }

  /** The directory of a bundled document. */
  ghost function DirectoryOf(fs: seq<Entry>, c: Codec): seq<int> {
    DirectoryIn(CURRENT, fs, c)
  }

  /** Entries that differ in their offsets at most. */
  ghost predicate SameButOffsets(fs: seq<Entry>, gs: seq<Entry>) {
    |fs| == |gs| && forall i :: 0 <= i < |fs| ==> fs[i].(offset := 0) == gs[i].(offset := 0)
  }

  lemma {:induction false} AllSame(fs: seq<Entry>, gs: seq<Entry>, form: Entry -> seq<int>)
    requires |fs| == |gs| && forall i :: 0 <= i < |fs| ==> form(fs[i]) == form(gs[i])
    ensures All(fs, form) == All(gs, form)
  {
    if fs != [] { AllSame(fs[..|fs| - 1], gs[..|gs| - 1], form); }
  }

  lemma {:induction false} AllLength(fs: seq<Entry>, form: Entry -> seq<int>, width: nat)
    requires forall i :: 0 <= i < |fs| ==> |form(fs[i])| == width
    ensures |All(fs, form)| == width * |fs|
  {
    if fs != [] {
      var n := |fs| - 1;
      AllLength(fs[..n], form, width);
      assert width * n + width == width * (n + 1);
    }
  }

  /** The form of entry `i` in its place. */
  lemma AllAt(fs: seq<Entry>, form: Entry -> seq<int>, i: nat)
    requires i < |fs|
    ensures |All(fs[..i + 1], form)| == |All(fs[..i], form)| + |form(fs[i])| <= |All(fs, form)|
    ensures All(fs, form)[|All(fs[..i], form)|..|All(fs[..i + 1], form)|] == form(fs[i])
  {
    SplitAt(fs, i + 1);
    AllAppend(fs[..i + 1], fs[i + 1..], form);
    assert fs[..i + 1][..i] == fs[..i];
    InTheMiddle(All(fs[..i], form), form(fs[i]), All(fs[i + 1..], form));
  }

  lemma InTheMiddle<T>(a: seq<T>, b: seq<T>, c: seq<T>)
    ensures (a + b + c)[|a|..|a| + |b|] == b
  {
  }

  lemma {:induction false} AllAppend(a: seq<Entry>, b: seq<Entry>, form: Entry -> seq<int>)
    ensures All(a + b, form) == All(a, form) + All(b, form)
    decreases |b|
  {
    if b == [] {
      assert a + b == a;
    } else {
      var n := |b| - 1;
      AllAppend(a, b[..n], form);
      LastApart(b);
      Regroup(a, b[..n], [b[n]]);
      PushLast(a + b[..n], b[n]);
      Regroup(All(a, form), All(b[..n], form), form(b[n]));
    }
  }

  lemma {:induction false} AllBytes(fs: seq<Entry>, form: Entry -> seq<int>)
    requires forall i :: 0 <= i < |fs| ==> AreBytes(form(fs[i]))
    ensures AreBytes(All(fs, form))
  {
    if fs != [] { AllBytes(fs[..|fs| - 1], form); }
  }

  /** The length of a directory does not depend on the offsets in it. */
  lemma DirectoryLength(fs: seq<Entry>, gs: seq<Entry>, c: Codec)
    requires SameButOffsets(fs, gs)
    ensures |DirectoryOf(fs, c)| == |DirectoryOf(gs, c)|
  {
    AllSame(fs, gs, SizeOf);
    AllSame(fs, gs, FlagByte);
    AllSame(fs, gs, StringsOf);
    AllLength(fs, OffsetOf, 4);
    AllLength(gs, OffsetOf, 4);
  }
}
