/** Writing and reading the directory chunk of a document. */
module BundleDirectory {
  import opened Sequences
  import opened BundleFormat

  datatype Problem = EndOfFile | NewerVersion | NoOffset | TwoSharedAnnos | SameName | SameId | NoData | EmptyFile
                   | NotIff | NotBundle | NotDirectory | Indirect

  datatype Result<T> = Ok(value: T) | Failed(problem: Problem)

  ghost predicate ByteEntry(e: Entry) {
    AreBytes(e.id) && AreBytes(e.name) && AreBytes(e.title) && e.kind < 64
  }

  /** The strings of an entry hold no zero byte, and its type and offset can be told in the form. */
  ghost predicate StorableIn(m: Form, e: Entry) {
    && ByteEntry(e) && 0 !in e.id && 0 !in e.name && 0 !in e.title
    && (m.bundled ==> e.offset % 0x1_0000_0000 != 0) && (m.version == 0 ==> e.kind < 2)
  }

  /**
   What comes back of an entry: names left out are the id, and numbers are cut to their width. Only bundled
   documents have offsets, and in version 0 only they have sizes.
   */
  ghost function RestoredIn(m: Form, e: Entry): Entry {
    Entry(e.id, if HasName(e) then e.name else e.id, if HasTitle(e) then e.title else e.id, e.kind,
          if m.bundled then e.offset % 0x1_0000_0000 else 0,
          if m.bundled || m.version == 1 then e.size % 0x100_0000 else 0)
  }

  ghost function Restored(e: Entry): Entry {
    RestoredIn(CURRENT, e)
  }

  ghost function RestoredAllIn(m: Form, fs: seq<Entry>): (r: seq<Entry>)
    ensures |r| == |fs|
  {
    seq(|fs|, i requires 0 <= i < |fs| => RestoredIn(m, fs[i]))
  }

  ghost function RestoredAll(fs: seq<Entry>): (r: seq<Entry>)
    ensures |r| == |fs|
  {
    RestoredAllIn(CURRENT, fs)
  }

  /** Ids and names tell the files apart, and at most one has shared annotations. */
  ghost predicate IsDirectory(fs: seq<Entry>) {
    && (forall i, j :: 0 <= i < j < |fs| ==> fs[i].id != fs[j].id)
    && (forall i, j :: 0 <= i < j < |fs| ==> fs[i].name != fs[j].name)
    && (forall i, j :: 0 <= i < j < |fs| ==> !(fs[i].kind == SHARED_ANNO && fs[j].kind == SHARED_ANNO))
  }

  /** The directories that can be stored. */
  ghost predicate StorableAllIn(m: Form, fs: seq<Entry>) {
    IsForm(m) && |fs| < 0x1_0000 && AllStorable(m, fs) && IsDirectory(RestoredAllIn(m, fs))
  }

  ghost predicate AllStorable(m: Form, fs: seq<Entry>) {
    forall i :: 0 <= i < |fs| ==> StorableIn(m, fs[i])
  }

  ghost predicate StorableAll(fs: seq<Entry>) {
    StorableAllIn(CURRENT, fs)
  }

  lemma AllNext(fs: seq<Entry>, form: Entry -> seq<int>, i: nat)
    requires i < |fs|
    ensures All(fs[..i + 1], form) == All(fs[..i], form) + form(fs[i])
  {
    assert fs[..i + 1][..i] == fs[..i];
  }

  /** Entries one after another. */
  method EncodeOffsets(fs: seq<Entry>) returns (out: seq<int>)
    ensures out == Offsets(CURRENT, fs)
  {
    out := [];
    for i := 0 to |fs|
      invariant out == All(fs[..i], OffsetOf)
    {
      AllNext(fs, OffsetOf, i);
      out := out + U32(fs[i].offset);
    }
    assert fs[..|fs|] == fs;
  }

  method EncodeSizes(fs: seq<Entry>) returns (out: seq<int>)
    ensures out == Sizes(CURRENT, fs)
  {
    out := [];
    for i := 0 to |fs|
      invariant out == All(fs[..i], SizeOf)
    {
      AllNext(fs, SizeOf, i);
      out := out + U24(fs[i].size);
    }
    assert fs[..|fs|] == fs;
  }

  method EncodeFlags(fs: seq<Entry>) returns (out: seq<int>)
    ensures out == Flags(CURRENT, fs)
  {
    out := [];
    for i := 0 to |fs|
      invariant out == All(fs[..i], FlagByte)
    {
      AllNext(fs, FlagByte, i);
      var e := fs[i];
      var flags := e.kind;
      if !(e.name == [] || e.name == e.id) { flags := flags + HAS_NAME; }
      if e.title != [] && e.title != e.id { flags := flags + HAS_TITLE; }
      out := out + [flags];
    }
    assert fs[..|fs|] == fs;
  }

  method EncodeStrings(fs: seq<Entry>) returns (out: seq<int>)
    ensures out == Strings(fs)
  {
    out := [];
    for i := 0 to |fs|
      invariant out == All(fs[..i], StringsOf)
    {
      AllNext(fs, StringsOf, i);
      var e := fs[i];
      var strings := e.id + [0];
      if e.name != [] && e.name != e.id { strings := strings + (e.name + [0]); }
      if e.title != [] && e.title != e.id { strings := strings + (e.title + [0]); }
      out := out + strings;
    }
    assert fs[..|fs|] == fs;
  }

  method CountShared(fs: seq<Entry>) returns (n: nat)
    ensures n <= 1 <==> forall i, j :: 0 <= i < j < |fs| ==> !(fs[i].kind == SHARED_ANNO && fs[j].kind == SHARED_ANNO)
  {
    n := 0;
    for i := 0 to |fs|
      invariant n == 0 <==> forall j :: 0 <= j < i ==> fs[j].kind != SHARED_ANNO
      invariant n <= 1 <==> forall j, k :: 0 <= j < k < i ==> !(fs[j].kind == SHARED_ANNO && fs[k].kind == SHARED_ANNO)
    {
      if fs[i].kind == SHARED_ANNO { n := n + 1; }
    }
  }

  /** Write the directory of a bundled document. */
  method EncodeDirectory(fs: seq<Entry>, c: Codec) returns (r: Result<seq<int>>)
    requires forall i :: 0 <= i < |fs| ==> fs[i].offset > 0
    ensures r.Ok? <==> forall i, j :: 0 <= i < j < |fs| ==> !(fs[i].kind == SHARED_ANNO && fs[j].kind == SHARED_ANNO)
    ensures r.Ok? ==> r.value == DirectoryOf(fs, c)
    ensures r.Failed? ==> r.problem == TwoSharedAnnos
  {
    var out := [0x81] + U16(|fs|);
    if fs == [] { return Ok(out); }
    var shared := CountShared(fs);
    if shared > 1 { return Failed(TwoSharedAnnos); }
    var offsets := EncodeOffsets(fs);
    var sizes := EncodeSizes(fs);
    var flags := EncodeFlags(fs);
    var strings := EncodeStrings(fs);
    r := Ok(out + (offsets + c.pack(sizes + flags + strings)));
  }

  /** A number of `width` bytes at `pos`, if it is there. */
  function NumberAt(s: seq<int>, pos: nat, width: nat): Result<int> {
    if pos + width <= |s| then Ok(Number(s[pos..pos + width])) else Failed(EndOfFile)
  }

  lemma {:induction false} NumberNat(s: seq<int>)
    requires AreBytes(s)
    ensures Number(s) >= 0
  {
    if s != [] { NumberNat(s[..|s| - 1]); }
  }

  lemma NumberAtNat(s: seq<int>, pos: nat, width: nat)
    requires AreBytes(s)
    ensures NumberAt(s, pos, width).Ok? ==> NumberAt(s, pos, width).value >= 0
  {
    if pos + width <= |s| { NumberNat(s[pos..pos + width]); }
  }

  /** How many bytes there are from `pos` to the next zero, or to the end. */
  function Text(s: seq<int>, pos: nat): (n: nat)
    ensures n == 0 || pos + n <= |s|
    decreases |s| - pos
  {
    if pos >= |s| || s[pos] == 0 then 0 else 1 + Text(s, pos + 1)
  }

  /** A text of the directory ends at its zero byte. */
  lemma {:induction false} TextEnds(s: seq<int>, pos: nat, n: nat)
    requires pos + n < |s| && s[pos + n] == 0 && forall k :: pos <= k < pos + n ==> s[k] != 0
    ensures Text(s, pos) == n
    decreases n
  {
    if n > 0 { TextEnds(s, pos + 1, n - 1); }
  }

  /** Read the offsets, and in version 0 the sizes; all are zero unless the document is bundled. */
  method DecodeOffsets(s: seq<int>, count: nat, m: Form, ghost known: bool, ghost fs: seq<Entry>)
    returns (r: Result<seq<Entry>>, pos: nat)
    requires |s| >= 3 && AreBytes(s) && IsForm(m)
    requires known ==> |fs| == count && AllStorable(m, fs) && Offsets(m, fs) <= s[3..]
    ensures r.Ok? ==> |r.value| == count && pos <= |s|
    ensures known ==> r.Ok? && pos == 3 + |Offsets(m, fs)|
    ensures known ==> forall i :: 0 <= i < count ==> HeadRestored(m, r.value[i], fs[i])
  {
    var es: seq<Entry> := [];
    pos := 3;
    if known { OffsetsLength(m, fs); }
    for i := 0 to count
      invariant |es| == i && pos <= |s|
      invariant known ==> pos == 3 + OffsetWidth(m) * i
      invariant known ==> forall k :: 0 <= k < i ==> HeadRestored(m, es[k], fs[k])
    {
      if known {
        OffsetAt(s, m, fs, i);
        assert StorableIn(m, fs[i]) && OffsetWidth(m) * i + OffsetWidth(m) == OffsetWidth(m) * (i + 1);
      }
      var e := Entry([], [], [], 0, 0, 0);
      if m.bundled {
        NumberAtNat(s, pos, 4);
        var offset := NumberAt(s, pos, 4);
        if offset.Failed? { return Failed(EndOfFile), pos; }
        pos := pos + 4;
        var size := 0;
        if m.version == 0 {
          NumberAtNat(s, pos, 3);
          var size0 := NumberAt(s, pos, 3);
          if size0.Failed? { return Failed(EndOfFile), pos; }
          size := size0.value;
          pos := pos + 3;
        }
        if offset.value == 0 { return Failed(NoOffset), pos; }
        e := e.(offset := offset.value, size := size);
      }
      es := es + [e];
    }
    r := Ok(es);
  }

  /** Of entry `w` the offset, and in version 0 the size, have been read. */
  ghost predicate HeadRestored(m: Form, e: Entry, w: Entry) {
    e.offset == RestoredIn(m, w).offset && (m.version == 0 ==> e.size == RestoredIn(m, w).size)
  }

  lemma OffsetsLength(m: Form, fs: seq<Entry>)
    ensures |Offsets(m, fs)| == OffsetWidth(m) * |fs|
  {
    AllLength(fs, OffsetForm(m), OffsetWidth(m));
  }

  lemma OffsetAt(s: seq<int>, m: Form, fs: seq<Entry>, i: nat)
    requires |s| >= 3 && Offsets(m, fs) <= s[3..] && i < |fs|
    ensures m.bundled ==> NumberAt(s, 3 + OffsetWidth(m) * i, 4) == Ok(fs[i].offset % 0x1_0000_0000)
    ensures m.bundled && m.version == 0 ==>
      NumberAt(s, 3 + OffsetWidth(m) * i + 4, 3) == Ok(fs[i].size % 0x100_0000)
    ensures 3 + OffsetWidth(m) * i + OffsetWidth(m) <= |s|
  {
    var w, head := OffsetWidth(m), OffsetForm(m)(fs[i]);
    var a := w * i;
    OffsetSlice(s, m, fs, i, w, a, head);
    if m.bundled {
      FirstPart(s, 3 + a, head, 4);
      assert head[..4] == U32(fs[i].offset);
      ReadsBack32(fs[i].offset);
      if m.version == 0 {
        LastPart(s, 3 + a, head, 4);
        assert head[4..] == U24(fs[i].size);
        ReadsBack24(fs[i].size);
      }
    }
  }

  lemma FirstPart(s: seq<int>, a: nat, head: seq<int>, k: nat)
    requires a + |head| <= |s| && s[a..a + |head|] == head && k <= |head|
    ensures s[a..a + k] == head[..k]
  {
    assert s[a..a + |head|][..k] == s[a..a + k];
  }

  lemma LastPart(s: seq<int>, a: nat, head: seq<int>, k: nat)
    requires a + |head| <= |s| && s[a..a + |head|] == head && k <= |head|
    ensures s[a + k..a + |head|] == head[k..]
  {
    assert s[a..a + |head|][k..] == s[a + k..a + |head|];
  }

  /** What the directory has of file `i`. */
  lemma OffsetSlice(s: seq<int>, m: Form, fs: seq<Entry>, i: nat, w: nat, a: nat, head: seq<int>)
    requires |s| >= 3 && Offsets(m, fs) <= s[3..] && i < |fs|
    requires w == OffsetWidth(m) && a == w * i && head == OffsetForm(m)(fs[i])
    ensures |head| == w && 3 + a + w <= |s| && s[3 + a..3 + a + w] == head
  {
    AllAt(fs, OffsetForm(m), i);
    OffsetsLength(m, fs[..i]);
    OffsetsLength(m, fs[..i + 1]);
    assert w * (i + 1) == a + w;
    var all := Offsets(m, fs);
    assert all[a..a + w] == head;
    assert s[3..][a..a + w] == s[3 + a..3 + a + w];
  }

  /** Read the sizes at the front of the unpacked part. */
  method DecodeSizes(t: seq<int>, es: seq<Entry>, m: Form, ghost known: bool, ghost fs: seq<Entry>)
    returns (r: Result<seq<Entry>>)
    requires AreBytes(t) && m.version == 1 && (known ==> |fs| == |es| && t == Packed(m, fs))
    ensures r.Ok? ==> |r.value| == |es|
    ensures known ==> r.Ok?
    ensures known ==> forall i :: 0 <= i < |es| ==> r.value[i] == es[i].(size := fs[i].size % 0x100_0000)
  {
    var out: seq<Entry> := [];
    for i := 0 to |es|
      invariant |out| == i
      invariant known ==> forall k :: 0 <= k < i ==> out[k] == es[k].(size := fs[k].size % 0x100_0000)
    {
      if known { SizeAt(t, m, fs, i); }
      NumberAtNat(t, 3 * i, 3);
      var size := NumberAt(t, 3 * i, 3);
      if size.Failed? { return Failed(EndOfFile); }
      out := out + [es[i].(size := size.value)];
    }
    r := Ok(out);
  }

  lemma SizeAt(t: seq<int>, m: Form, fs: seq<Entry>, i: nat)
    requires t == Packed(m, fs) && i < |fs| && m.version == 1
    ensures NumberAt(t, 3 * i, 3) == Ok(fs[i].size % 0x100_0000)
  {
    AllAt(fs, SizeOf, i);
    AllLength(fs[..i], SizeOf, 3);
    AllLength(fs[..i + 1], SizeOf, 3);
    var a, b := 3 * i, 3 * i + 3;
    assert t[a..b] == Sizes(m, fs)[a..b];
    ReadsBack24(fs[i].size);
  }

  /** What the flags of an entry say. */
  datatype Flagged = Flagged(kind: int, name: bool, title: bool)

  /** The flags of version 0 had other bits. */
  function Converted(flags: int, version: int): Flagged {
    if version == 0 then Flagged(flags % 2, flags / 2 % 2 == 1, flags / 4 % 2 == 1)
    else Flagged(flags % 0x40, flags / HAS_NAME % 2 == 1, flags / HAS_TITLE % 2 == 1)
  }

  ghost function FlaggedOf(e: Entry): Flagged {
    Flagged(e.kind, HasName(e), HasTitle(e))
  }

  /** Read the flags after the sizes. */
  method DecodeFlags(t: seq<int>, from: nat, count: nat, m: Form, ghost known: bool, ghost fs: seq<Entry>)
    returns (r: Result<seq<Flagged>>)
    requires AreBytes(t) && IsForm(m)
    requires known ==> |fs| == count && t == Packed(m, fs) && from == SizeWidth(m) * count && AllStorable(m, fs)
    ensures r.Ok? ==> |r.value| == count && forall i :: 0 <= i < count ==> r.value[i].kind >= 0
    ensures known ==> r.Ok? && forall i :: 0 <= i < count ==> r.value[i] == FlaggedOf(fs[i])
  {
    var out: seq<Flagged> := [];
    for i := 0 to count
      invariant |out| == i && forall k :: 0 <= k < i ==> out[k].kind >= 0
      invariant known ==> forall k :: 0 <= k < i ==> out[k] == FlaggedOf(fs[k])
    {
      if known { FlagAt(t, m, fs, i); }
      if from + i >= |t| { return Failed(EndOfFile); }
      out := out + [Converted(t[from + i], m.version)];
    }
    r := Ok(out);
  }

  lemma FlagAt(t: seq<int>, m: Form, fs: seq<Entry>, i: nat)
    requires t == Packed(m, fs) && i < |fs| && IsForm(m) && AllStorable(m, fs)
    ensures var at := SizeWidth(m) * |fs| + i; at < |t| && Converted(t[at], m.version) == FlaggedOf(fs[i])
  {
    var form, at := FlagForm(m), SizeWidth(m) * |fs|;
    SizesLength(m, fs);
    AllLength(fs, form, 1);
    AllLength(fs[..i], form, 1);
    AllLength(fs[..i + 1], form, 1);
    AllAt(fs, form, i);
    assert Flags(m, fs)[i..i + 1] == form(fs[i]);
    assert t[at + i] == Flags(m, fs)[i] == Flags(m, fs)[i..i + 1][0];
    FlagReads(m, fs[i]);
  }

  /** The flag byte of an entry says its type and which names it has. */
  lemma FlagReads(m: Form, e: Entry)
    requires IsForm(m) && StorableIn(m, e)
    ensures Converted(FlagForm(m)(e)[0], m.version) == FlaggedOf(e)
  {
  }

  lemma SizesLength(m: Form, fs: seq<Entry>)
    ensures |Sizes(m, fs)| == SizeWidth(m) * |fs|
  {
    AllLength(fs, SizeForm(m), SizeWidth(m));
  }

  /** Read a string up to its zero byte; a string written there is what is read. */
  method ReadText(s: seq<int>, pos: nat, ghost zero: nat, ghost known: bool, ghost w: seq<int>)
    returns (b: seq<int>, next: nat)
    requires pos <= zero < |s| && s[zero] == 0 && (known ==> 0 !in w && w + [0] <= s[pos..])
    ensures known ==> b == w && next == pos + |w| + 1
    ensures pos < next <= zero + 1
  {
    if known { TextIs(s, pos, w); }
    TextStops(s, pos, zero);
    var n := Text(s, pos);
    b := s[pos..pos + n];
    next := pos + n + 1;
  }

  lemma {:induction false} TextStops(s: seq<int>, pos: nat, zero: nat)
    requires pos <= zero < |s| && s[zero] == 0
    ensures pos + Text(s, pos) <= zero
    decreases zero - pos
  {
    if pos < zero && s[pos] != 0 { TextStops(s, pos + 1, zero); }
  }

  lemma TextIs(s: seq<int>, pos: nat, w: seq<int>)
    requires pos <= |s| && 0 !in w && w + [0] <= s[pos..]
    ensures Text(s, pos) == |w| && pos + |w| < |s| && s[pos..pos + |w|] == w
  {
    forall k | pos <= k < pos + |w| ensures s[k] != 0 {
      assert s[k] == s[pos..][k - pos] == (w + [0])[k - pos] == w[k - pos];
    }
    assert s[pos + |w|] == s[pos..][|w|] == (w + [0])[|w|];
    TextEnds(s, pos, |w|);
    assert forall k :: 0 <= k < |w| ==> s[pos..pos + |w|][k] == s[pos..][k] == (w + [0])[k];
  }

  /** A string that is there or not. */
  function Optional(present: bool, w: seq<int>): seq<int> {
    if present then w + [0] else []
  }

  /** Read the strings of one entry; those left out are the id. */
  method ReadStrings(s: seq<int>, pos: nat, e: Entry, f: Flagged, ghost known: bool, ghost w: Entry)
    returns (r: Entry, next: nat)
    requires pos + 4 <= |s| && s[|s| - 4..] == [0, 0, 0, 0] && f.kind >= 0
    requires known ==> 0 !in w.id && 0 !in w.name && 0 !in w.title && f == FlaggedOf(w)
    requires known ==> pos + |StringsOf(w)| + 4 <= |s|
    requires known ==> StringsOf(w) <= s[pos..]
    ensures r.offset == e.offset && r.size == e.size
    ensures known ==> next == pos + |StringsOf(w)| && r == Restored(w).(offset := e.offset, size := e.size)
  {
    if known { ThreeTexts(s, pos, w); }
    ghost var z := |s| - 4;
    assert s[z] == s[z..][0] && s[z + 1] == s[z..][1] && s[z + 2] == s[z..][2];
    var id;
    id, next := ReadText(s, pos, z, known, w.id);
    var name, title := id, id;
    if f.name { name, next := ReadText(s, next, z + 1, known, w.name); }
    if f.title { title, next := ReadText(s, next, z + 2, known, w.title); }
    r := Entry(id, name, title, f.kind, e.offset, e.size);
  }

  lemma ThreeTexts(s: seq<int>, pos: nat, w: Entry)
    requires pos <= |s| && StringsOf(w) <= s[pos..]
    ensures var a := pos + |w.id| + 1; var b := a + |Optional(HasName(w), w.name)|;
      && a <= b <= |s| && w.id + [0] <= s[pos..] && Optional(HasName(w), w.name) <= s[a..]
      && Optional(HasTitle(w), w.title) <= s[b..]
      && pos + |StringsOf(w)| == b + |Optional(HasTitle(w), w.title)| <= |s|
  {
    var x, y, z := w.id + [0], Optional(HasName(w), w.name), Optional(HasTitle(w), w.title);
    assert StringsOf(w) == x + y + z;
    PartsInPlace(s, pos, x, y, z);
  }

  lemma PartsInPlace(s: seq<int>, pos: nat, x: seq<int>, y: seq<int>, z: seq<int>)
    requires pos <= |s| && x + y + z <= s[pos..]
    ensures var a, b := pos + |x|, pos + |x| + |y|;
      a <= b <= |s| && x <= s[pos..] && y <= s[a..] && z <= s[b..]
  {
    var t := x + y + z;
    assert forall k :: 0 <= k < |t| ==> s[pos + k] == s[pos..][k] == t[k];
  }

  /** Read the strings of all entries. */
  method DecodeStrings(t: seq<int>, from: nat, es: seq<Entry>, flags: seq<Flagged>, ghost known: bool,
                       ghost fs: seq<Entry>)
    returns (r: Result<seq<Entry>>)
    requires from <= |t| && |flags| == |es| && forall i :: 0 <= i < |es| ==> flags[i].kind >= 0
    requires known ==> |fs| == |es| && t[from..] == Strings(fs)
    requires known ==> forall i :: 0 <= i < |fs| ==> 0 !in fs[i].id && 0 !in fs[i].name && 0 !in fs[i].title
    requires known ==> forall i :: 0 <= i < |es| ==> flags[i] == FlaggedOf(fs[i])
    ensures r.Ok? ==> |r.value| == |es|
    ensures known ==> r.Ok?
    ensures known ==> forall i :: 0 <= i < |es| ==>
      r.value[i] == Restored(fs[i]).(offset := es[i].offset, size := es[i].size)
  {
    var strings := t[from..];
    var padded := strings + [0, 0, 0, 0];
    var ptr := 0;
    var out: seq<Entry> := [];
    for i := 0 to |es|
      invariant |out| == i && 0 <= ptr
      invariant known ==> ptr <= |strings| && strings[ptr..] == Strings(fs[i..])
      invariant known ==> forall k :: 0 <= k < i ==>
        out[k] == Restored(fs[k]).(offset := es[k].offset, size := es[k].size)
    {
      if known { NextStrings(strings, padded, ptr, fs, i); }
      if ptr >= |strings| { return Failed(EndOfFile); }
      var e;
      assert padded[|padded| - 4..] == [0, 0, 0, 0];
      e, ptr := ReadStrings(padded, ptr, es[i], flags[i], known, if known then fs[i] else es[i]);
      out := out + [e];
    }
    r := Ok(out);
  }

  lemma NextStrings(strings: seq<int>, padded: seq<int>, ptr: nat, fs: seq<Entry>, i: nat)
    requires i < |fs| && ptr <= |strings| && strings[ptr..] == Strings(fs[i..]) && padded == strings + [0, 0, 0, 0]
    ensures var next := ptr + |StringsOf(fs[i])|;
      && ptr < next <= |strings| && StringsOf(fs[i]) <= padded[ptr..]
      && strings[next..] == Strings(fs[i + 1..])
  {
    FirstStrings(fs[i..]);
    assert fs[i..][1..] == fs[i + 1..];
    var a, b := StringsOf(fs[i]), Strings(fs[i + 1..]);
    assert strings[ptr..] == a + b;
    assert strings[ptr + |a|..] == strings[ptr..][|a|..] == b;
    assert padded[ptr..] == strings[ptr..] + [0, 0, 0, 0];
  }

  lemma FirstStrings(fs: seq<Entry>)
    requires fs != []
    ensures Strings(fs) == StringsOf(fs[0]) + Strings(fs[1..])
  {
    AllAppend([fs[0]], fs[1..], StringsOf);
    assert [fs[0]] + fs[1..] == fs;
    PushLast<Entry>([], fs[0]);
    assert [] + [fs[0]] == [fs[0]];
  }

  /** Check that names, then ids, tell the files apart. */
  method CheckUnique(fs: seq<Entry>) returns (r: Result<bool>)
    ensures r.Ok? <==> (forall i, j :: 0 <= i < j < |fs| ==> fs[i].id != fs[j].id)
                       && (forall i, j :: 0 <= i < j < |fs| ==> fs[i].name != fs[j].name)
  {
    var names: map<seq<int>, Entry> := map[];
    for i := 0 to |fs|
      invariant forall n :: n in names <==> exists k :: 0 <= k < i && fs[k].name == n
      invariant forall j, k :: 0 <= j < k < i ==> fs[j].name != fs[k].name
    {
      if fs[i].name in names { return Failed(SameName); }
      names := names[fs[i].name := fs[i]];
    }
    var ids: map<seq<int>, Entry> := map[];
    for i := 0 to |fs|
      invariant forall n :: n in ids <==> exists k :: 0 <= k < i && fs[k].id == n
      invariant forall j, k :: 0 <= j < k < i ==> fs[j].id != fs[k].id
    {
      if fs[i].id in ids { return Failed(SameId); }
      ids := ids[fs[i].id := fs[i]];
    }
    r := Ok(true);
  }

  /** Read the compressed part. */
  method DecodePacked(t: seq<int>, es: seq<Entry>, m: Form, ghost known: bool, ghost fs: seq<Entry>)
    returns (r: Result<seq<Entry>>)
    requires AreBytes(t) && IsForm(m)
    requires known ==> |fs| == |es| && t == Packed(m, fs) && AllStorable(m, fs)
    requires known ==> forall i :: 0 <= i < |es| ==> HeadRestored(m, es[i], fs[i])
    ensures r.Ok? ==> |r.value| == |es|
    ensures known ==> r == Ok(RestoredAllIn(m, fs))
  {
    var sized := es;
    if m.version > 0 {
      var sizes := DecodeSizes(t, es, m, known, fs);
      if sizes.Failed? { return Failed(EndOfFile); }
      sized := sizes.value;
    }
    var at := if m.version > 0 then 3 * |es| else 0;
    if known { StringsAfter(t, m, fs); }
    var flags := DecodeFlags(t, at, |es|, m, known, fs);
    if flags.Failed? { return Failed(EndOfFile); }
    if at + |es| > |t| { return Failed(EndOfFile); }
    if known { StringsStorable(m, fs); }
    r := DecodeStrings(t, at + |es|, sized, flags.value, known, fs);
    if known { AllRestored(m, es, sized, fs, r.value); }
  }

  lemma StringsStorable(m: Form, fs: seq<Entry>)
    requires AllStorable(m, fs)
    ensures forall i :: 0 <= i < |fs| ==> 0 !in fs[i].id && 0 !in fs[i].name && 0 !in fs[i].title
  {
    forall i | 0 <= i < |fs| ensures 0 !in fs[i].id && 0 !in fs[i].name && 0 !in fs[i].title {
      assert StorableIn(m, fs[i]);
    }
  }

  /** With its offset, its size and its strings an entry is restored. */
  lemma AllRestored(m: Form, es: seq<Entry>, sized: seq<Entry>, fs: seq<Entry>, r: seq<Entry>)
    requires IsForm(m) && |es| == |sized| == |fs| == |r|
    requires forall i :: 0 <= i < |fs| ==> HeadRestored(m, es[i], fs[i])
    requires forall i :: 0 <= i < |fs| ==>
      sized[i] == if m.version > 0 then es[i].(size := fs[i].size % 0x100_0000) else es[i]
    requires forall i :: 0 <= i < |fs| ==> r[i] == Restored(fs[i]).(offset := sized[i].offset, size := sized[i].size)
    ensures r == RestoredAllIn(m, fs)
  {
    forall i | 0 <= i < |fs| ensures r[i] == RestoredIn(m, fs[i]) {
      assert HeadRestored(m, es[i], fs[i]);
    }
  }

  lemma StringsAfter(t: seq<int>, m: Form, fs: seq<Entry>)
    requires t == Packed(m, fs)
    ensures var at := SizeWidth(m) * |fs| + |fs|; at <= |t| && t[at..] == Strings(fs)
  {
    SizesLength(m, fs);
    AllLength(fs, FlagForm(m), 1);
  }

  /**
   Read a directory. What was written in any of the four forms comes back restored; whatever is read tells its
   files apart.
   */
  method DecodeDirectory(s: seq<int>, c: Codec, ghost known: bool, ghost m: Form, ghost fs: seq<Entry>)
    returns (r: Result<seq<Entry>>, bundled: bool)
    requires AreBytes(s) && Lossless(c)
    requires known ==> StorableAllIn(m, fs) && s == DirectoryIn(m, fs, c)
    ensures r.Ok? ==> IsDirectory(r.value)
    ensures known ==> r == Ok(RestoredAllIn(m, fs)) && bundled == m.bundled
  {
    bundled := false;
    if |s| < 1 { return Failed(EndOfFile), bundled; }
    bundled := s[0] >= 0x80;
    var version := s[0] % 0x80;
    if known { CountIs(s, m, fs, c); }
    if version > 1 { return Failed(NewerVersion), bundled; }
    NumberAtNat(s, 1, 2);
    var count := NumberAt(s, 1, 2);
    if count.Failed? { return Failed(EndOfFile), bundled; }
    if count.value == 0 {
      if known { assert RestoredAllIn(m, fs) == []; }
      return Ok([]), bundled;
    }
    r := DecodeEntries(s, count.value, Form(version, bundled), c, known, fs);
    if r.Ok? { r := Checked(r.value); }
  }

  /** Read the entries after the count. */
  method DecodeEntries(s: seq<int>, count: nat, m: Form, c: Codec, ghost known: bool, ghost fs: seq<Entry>)
    returns (r: Result<seq<Entry>>)
    requires |s| >= 3 && AreBytes(s) && Lossless(c) && IsForm(m)
    requires known ==> |fs| == count && AllStorable(m, fs) && Offsets(m, fs) <= s[3..] && 3 + |Offsets(m, fs)| <= |s|
    requires known ==> c.unpack(s[3 + |Offsets(m, fs)|..]) == Packed(m, fs)
    ensures known ==> r == Ok(RestoredAllIn(m, fs))
  {
    var offsets, pos := DecodeOffsets(s, count, m, known, fs);
    if offsets.Failed? { return Failed(offsets.problem); }
    r := DecodePacked(c.unpack(s[pos..]), offsets.value, m, known, fs);
  }

  /** Refuse a directory whose files cannot be told apart, or with two files of shared annotations. */
  method Checked(es: seq<Entry>) returns (r: Result<seq<Entry>>)
    ensures r.Ok? <==> IsDirectory(es)
    ensures r.Ok? ==> r.value == es
  {
    var shared := CountShared(es);
    if shared > 1 { return Failed(TwoSharedAnnos); }
    var unique := CheckUnique(es);
    r := if unique.Ok? then Ok(es) else Failed(unique.problem);
  }

  lemma PackedBytes(m: Form, fs: seq<Entry>)
    requires forall i :: 0 <= i < |fs| ==> ByteEntry(fs[i]) && (m.version == 0 ==> fs[i].kind < 2)
    ensures AreBytes(Packed(m, fs)) && AreBytes(Offsets(m, fs))
  {
    AllBytes(fs, SizeForm(m));
    AllBytes(fs, FlagForm(m));
    AllBytes(fs, StringsOf);
    AllBytes(fs, OffsetForm(m));
  }

  /** A directory is bytes. */
  lemma DirectoryBytes(fs: seq<Entry>, c: Codec)
    requires Lossless(c) && forall i :: 0 <= i < |fs| ==> ByteEntry(fs[i])
    ensures AreBytes(DirectoryOf(fs, c))
  {
    PackedBytes(CURRENT, fs);
  }

  lemma CountIs(s: seq<int>, m: Form, fs: seq<Entry>, c: Codec)
    requires Lossless(c) && StorableAllIn(m, fs) && s == DirectoryIn(m, fs, c)
    ensures |s| >= 3 && s[0] % 0x80 == m.version && (s[0] >= 0x80 <==> m.bundled) && NumberAt(s, 1, 2) == Ok(|fs|)
    ensures fs != [] ==> Offsets(m, fs) <= s[3..] && 3 + |Offsets(m, fs)| <= |s|
    ensures fs != [] ==> c.unpack(s[3 + |Offsets(m, fs)|..]) == Packed(m, fs)
  {
    forall i | 0 <= i < |fs| ensures ByteEntry(fs[i]) && (m.version == 0 ==> fs[i].kind < 2) {
      assert StorableIn(m, fs[i]);
    }
    PackedBytes(m, fs);
    var n, all := |fs|, Packed(m, fs);
    NumberReads(n);
    var head, number := m.version + (if m.bundled then 0x80 else 0), U16(n);
    var offsets, packed := Offsets(m, fs), c.pack(all);
    HeadReads(m, head);
    if fs == [] {
      assert [head] + number + [] == [head] + number + ([] + []);
      Laid(s, head, number, [], []);
    } else {
      Laid(s, head, number, offsets, packed);
      assert c.unpack(packed) == all;
    }
  }

  lemma NumberReads(n: nat)
    requires n < 0x1_0000
    ensures Number(U16(n)) == n
  {
    ReadsBack16(n);
  }

  lemma HeadReads(m: Form, head: int)
    requires IsForm(m) && head == m.version + if m.bundled then 0x80 else 0
    ensures head % 0x80 == m.version && (head >= 0x80 <==> m.bundled)
  {
  }

  /** The parts of a directory. */
  lemma Laid(s: seq<int>, head: int, number: seq<int>, offsets: seq<int>, packed: seq<int>)
    requires |number| == 2 && s == [head] + number + (offsets + packed)
    ensures |s| >= 3 && s[0] == head && s[1..3] == number && s[3..] == offsets + packed
    ensures 3 + |offsets| <= |s| && offsets <= s[3..] && s[3 + |offsets|..] == packed
  {
    assert s[3..] == offsets + packed;
    assert s[3 + |offsets|..] == s[3..][|offsets|..];
  }
}
