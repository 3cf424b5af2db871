/** Writing a bundled document and reading it back. */
module Bundle {
  import opened Sequences
  import opened BundleFormat
  import opened BundleDirectory

  datatype Option<T> = None | Some(value: T)

  const MAGIC := [65, 84, 38, 84]
  const FORM := [70, 79, 82, 77]
  const DJVM := [68, 74, 86, 77]
  const DIRM := [68, 73, 82, 77]
  const NAVM := [78, 65, 86, 77]

  /** What stands before the contents of a document: the magic, the chunk id and the size. */
  const PREFIX := 12

  function Chunk(id: seq<int>, content: seq<int>): seq<int> {
    id + U32(|content|) + content
  }

  /** A byte of padding when the position is odd. */
  function Pad(position: nat): (r: seq<int>)
    ensures (position + |r|) % 2 == 0 && |r| <= 1
  {
    if position % 2 == 1 then [0] else []
  }

  /** The contents up to the first file: the directory and, if there is one, the outline. */
  function Front(dirm: seq<int>, nav: Option<seq<int>>): (r: seq<int>)
    ensures DJVM + Chunk(DIRM, dirm) <= r && |r| >= 12 + |dirm|
  {
    var d := DJVM + Chunk(DIRM, dirm);
    if nav.Some? then d + Pad(|d|) + Chunk(NAVM, nav.value) else d
  }

  /** A whole document. */
  function Document(contents: seq<int>): (r: seq<int>)
    ensures |r| == PREFIX + |contents|
  {
    MAGIC + FORM + U32(|contents|) + contents
  }

  /** File `i` stands at its offset, an even position, behind the file before it. */
  ghost predicate Placed(fs: seq<Entry>, data: map<seq<int>, seq<int>>, contents: seq<int>, i: nat)
    requires i < |fs|
  {
    && fs[i].id in data && fs[i].size == |data[fs[i].id]| && fs[i].offset % 2 == 0
    && PREFIX + 4 <= fs[i].offset && fs[i].offset + fs[i].size <= PREFIX + |contents|
    && contents[fs[i].offset - PREFIX..fs[i].offset - PREFIX + fs[i].size] == data[fs[i].id]
    && (i > 0 ==> fs[i - 1].offset + fs[i - 1].size <= fs[i].offset)
  }

  /** The offset of a file that is to come after position `at`. */
  function Next(at: nat): (r: nat)
    ensures at <= r <= at + 1 && r % 2 == 0
  {
    at + at % 2
  }

  /** The files `fs` with the sizes of their data. */
  ghost predicate Sized(given: seq<Entry>, fs: seq<Entry>, data: map<seq<int>, seq<int>>, n: int) {
    && |fs| == |given| && 0 <= n <= |fs| && (forall i :: n <= i < |fs| ==> fs[i] == given[i])
    && (forall i :: 0 <= i < n ==> given[i].id in data && |data[given[i].id]| > 0)
    && (forall i :: 0 <= i < n ==> fs[i] == given[i].(offset := 0xffff_ffff, size := |data[given[i].id]|))
  }

  /** Every file has data. */
  ghost predicate HasData(fs: seq<Entry>, data: map<seq<int>, seq<int>>) {
    forall i :: 0 <= i < |fs| ==> fs[i].id in data && |data[fs[i].id]| > 0
  }

  /** The second pass: dummy offsets and the sizes. */
  method Measure(given: seq<Entry>, data: map<seq<int>, seq<int>>) returns (r: Result<seq<Entry>>)
    ensures r.Ok? <==> HasData(given, data)
    ensures r.Ok? ==> Sized(given, r.value, data, |given|)
  {
    var fs := given;
    for i := 0 to |fs|
      invariant Sized(given, fs, data, i)
    {
      if fs[i].id !in data { return Failed(NoData); }
      var size := |data[fs[i].id]|;
      if size == 0 { return Failed(EmptyFile); }
      fs := fs[i := fs[i].(offset := 0xffff_ffff, size := size)];
    }
    r := Ok(fs);
  }

  /** The offsets of the first `n` files follow one another from `start` on, each at the next even position. */
  ghost predicate Follow(fs: seq<Entry>, start: nat, n: int) {
    0 <= n <= |fs| && forall i :: 0 <= i < n ==> FollowAt(fs, start, i)
  }

  ghost predicate FollowAt(fs: seq<Entry>, start: nat, i: int) {
    0 <= i < |fs| && fs[i].offset == Next(EndOf(fs, start, i))
  }

  /** Where file `i - 1` ends, or the front. */
  function EndOf(fs: seq<Entry>, start: nat, i: nat): nat
    requires i <= |fs|
  {
    if i == 0 then start else fs[i - 1].offset + fs[i - 1].size
  }

  /** Predict the offsets. */
  method Predict(sized: seq<Entry>, start: nat) returns (fs: seq<Entry>)
    ensures SameButOffsets(sized, fs) && Follow(fs, start, |fs|)
  {
    fs := sized;
    var offset := start;
    for i := 0 to |fs|
      invariant |fs| == |sized| && (forall k :: 0 <= k < |fs| ==> sized[k].(offset := 0) == fs[k].(offset := 0))
      invariant Follow(fs, start, i) && offset == EndOf(fs, start, i)
    {
      if offset % 2 != 0 { offset := offset + 1; }
      FollowNext(fs, start, i, offset);
      fs := fs[i := fs[i].(offset := offset)];
      offset := offset + fs[i].size;
    }
  }

  lemma FollowNext(fs: seq<Entry>, start: nat, i: nat, offset: nat)
    requires Follow(fs, start, i) && i < |fs| && offset == Next(EndOf(fs, start, i))
    ensures var gs := fs[i := fs[i].(offset := offset)];
      Follow(gs, start, i + 1) && EndOf(gs, start, i + 1) == offset + fs[i].size
  {
    var gs := fs[i := fs[i].(offset := offset)];
    forall k | 0 <= k < i + 1 ensures FollowAt(gs, start, k) {
      assert k < i ==> FollowAt(fs, start, k);
      assert EndOf(gs, start, k) == EndOf(fs, start, k);
    }
  }

  lemma {:induction false} OffsetsPositive(fs: seq<Entry>, start: nat, i: nat)
    requires Follow(fs, start, |fs|) && i <= |fs|
    ensures EndOf(fs, start, i) >= start
    decreases i
  {
    if i > 0 {
      assert FollowAt(fs, start, i - 1);
      OffsetsPositive(fs, start, i - 1);
    }
  }

  /** The front and the first `n` files, each padded to an even position. */
  ghost function Filling(fs: seq<Entry>, data: map<seq<int>, seq<int>>, front: seq<int>, n: int): seq<int>
    decreases n
  {
    if n <= 0 || n > |fs| then front
    else
      var before := Filling(fs, data, front, n - 1);
      before + Pad(PREFIX + |before|) + if fs[n - 1].id in data then data[fs[n - 1].id] else []
  }

  lemma {:induction false} FillingBytes(fs: seq<Entry>, data: map<seq<int>, seq<int>>, front: seq<int>, n: int)
    requires AreBytes(front) && forall id :: id in data ==> AreBytes(data[id])
    ensures AreBytes(Filling(fs, data, front, n))
    decreases n
  {
    if 0 < n <= |fs| {
      FillingBytes(fs, data, front, n - 1);
      var before := Filling(fs, data, front, n - 1);
      var id := fs[n - 1].id;
      BytesJoined(before, Pad(PREFIX + |before|), if id in data then data[id] else []);
    }
  }

  lemma BytesJoined(a: seq<int>, b: seq<int>, c: seq<int>)
    requires AreBytes(a) && AreBytes(b) && AreBytes(c)
    ensures AreBytes(a + b + c)
  {
  }

  /** The files before `i` have been stored where the directory says. */
  ghost predicate Stored(fs: seq<Entry>, data: map<seq<int>, seq<int>>, front: seq<int>, contents: seq<int>, i: int) {
    && 0 <= i <= |fs| && contents == Filling(fs, data, front, i)
    && front <= contents && PREFIX + |contents| == EndOf(fs, PREFIX + |front|, i)
    && forall k: nat :: k < i ==> Placed(fs, data, contents, k)
  }

  lemma PlacedLonger(fs: seq<Entry>, data: map<seq<int>, seq<int>>, contents: seq<int>, longer: seq<int>, k: nat)
    requires k < |fs| && Placed(fs, data, contents, k) && contents <= longer
    ensures Placed(fs, data, longer, k)
  {
    var a, b := fs[k].offset - PREFIX, fs[k].offset - PREFIX + fs[k].size;
    assert longer[a..b] == contents[a..b];
  }

  /** A file stored behind padding stands at the even position after the last. */
  lemma PlacedNew(fs: seq<Entry>, data: map<seq<int>, seq<int>>, start: nat, padded: seq<int>, i: nat)
    requires i < |fs| && fs[i].id in data && fs[i].size == |data[fs[i].id]| && start >= PREFIX + 4
    requires EndOf(fs, start, i) >= start && fs[i].offset == Next(EndOf(fs, start, i)) == PREFIX + |padded|
    ensures Placed(fs, data, padded + data[fs[i].id], i)
  {
    var file := data[fs[i].id];
    assert (padded + file)[|padded|..|padded| + |file|] == file;
  }

  lemma PaddedTo(contents: seq<int>, at: nat)
    requires at == PREFIX + |contents|
    ensures PREFIX + |contents + Pad(at)| == Next(at)
  {
  }

  /** File `i` has the size of its data and the offset that follows from those before it. */
  ghost predicate FileReady(fs: seq<Entry>, data: map<seq<int>, seq<int>>, start: nat, i: int) {
    FollowAt(fs, start, i) && fs[i].id in data && fs[i].size == |data[fs[i].id]|
  }

  ghost predicate Ready(fs: seq<Entry>, data: map<seq<int>, seq<int>>, start: nat) {
    forall i :: 0 <= i < |fs| ==> FileReady(fs, data, start, i)
  }

  lemma StoreNext(fs: seq<Entry>, data: map<seq<int>, seq<int>>, front: seq<int>, contents: seq<int>, i: nat,
                  next: seq<int>)
    requires Stored(fs, data, front, contents, i) && FileReady(fs, data, PREFIX + |front|, i) && |front| >= 4
    requires next == contents + Pad(PREFIX + |contents|) + data[fs[i].id]
    ensures Stored(fs, data, front, next, i + 1)
  {
    var start, at := PREFIX + |front|, PREFIX + |contents|;
    var padded := contents + Pad(at);
    PaddedTo(contents, at);
    PlacedNew(fs, data, start, padded, i);
    FillingNext(fs, data, front, contents, i, next);
    PlacedUpTo(fs, data, contents, next, i);
    EndNext(fs, start, i, padded, next);
  }

  lemma PlacedUpTo(fs: seq<Entry>, data: map<seq<int>, seq<int>>, contents: seq<int>, next: seq<int>, i: nat)
    requires i < |fs| && contents <= next && Placed(fs, data, next, i)
    requires forall k: nat :: k < i ==> Placed(fs, data, contents, k)
    ensures forall k: nat :: k < i + 1 ==> Placed(fs, data, next, k)
  {
    forall k: nat | k < i ensures Placed(fs, data, next, k) { PlacedLonger(fs, data, contents, next, k); }
  }

  lemma EndNext(fs: seq<Entry>, start: nat, i: nat, padded: seq<int>, next: seq<int>)
    requires i < |fs| && fs[i].offset == PREFIX + |padded| && |next| == |padded| + fs[i].size
    ensures PREFIX + |next| == EndOf(fs, start, i + 1)
  {
  }

  lemma FillingNext(fs: seq<Entry>, data: map<seq<int>, seq<int>>, front: seq<int>, contents: seq<int>, i: nat,
                    next: seq<int>)
    requires i < |fs| && fs[i].id in data && contents == Filling(fs, data, front, i)
    requires next == contents + Pad(PREFIX + |contents|) + data[fs[i].id]
    ensures next == Filling(fs, data, front, i + 1)
  {
  }

  ghost predicate AllChunks(fs: seq<Entry>, data: map<seq<int>, seq<int>>, isChunk: seq<int> -> bool, n: int) {
    forall k :: 0 <= k < n ==> ChunkAt(fs, data, isChunk, k)
  }

  ghost predicate ChunkAt(fs: seq<Entry>, data: map<seq<int>, seq<int>>, isChunk: seq<int> -> bool, k: int) {
    0 <= k < |fs| && fs[k].id in data && isChunk(data[fs[k].id])
  }

  /** Every file stands at its offset. */
  ghost predicate PlacedAll(fs: seq<Entry>, data: map<seq<int>, seq<int>>, contents: seq<int>) {
    forall i: nat :: i < |fs| ==> Placed(fs, data, contents, i)
  }

  /** The third pass: the files, each at an even position. */
  method Store(fs: seq<Entry>, data: map<seq<int>, seq<int>>, front: seq<int>, ghost start: nat,
               isChunk: seq<int> -> bool)
    returns (r: Result<seq<int>>)
    requires Ready(fs, data, start) && start == PREFIX + |front| && |front| >= 4
    ensures r.Ok? <==> AllChunks(fs, data, isChunk, |fs|)
    ensures r.Ok? ==> front <= r.value && PlacedAll(fs, data, r.value) && r.value == Filling(fs, data, front, |fs|)
  {
    var contents := front;
    for i := 0 to |fs|
      invariant Stored(fs, data, front, contents, i)
      invariant AllChunks(fs, data, isChunk, i)
    {
      assert FileReady(fs, data, PREFIX + |front|, i);
      if !isChunk(data[fs[i].id]) {
        assert !ChunkAt(fs, data, isChunk, i);
        return Failed(NotIff);
      }
      contents := StoreOne(fs, data, front, contents, i);
    }
    r := Ok(contents);
  }

  /** Pad to an even position and copy one file. */
  method StoreOne(fs: seq<Entry>, data: map<seq<int>, seq<int>>, ghost front: seq<int>, contents: seq<int>, i: nat)
    returns (next: seq<int>)
    requires Stored(fs, data, front, contents, i) && FileReady(fs, data, PREFIX + |front|, i) && |front| >= 4
    ensures Stored(fs, data, front, next, i + 1)
  {
    next := contents + Pad(PREFIX + |contents|) + data[fs[i].id];
    StoreNext(fs, data, front, contents, i, next);
  }

  /** The files of a written document: as given, with the sizes of their data and their offsets. */
  ghost predicate Filled(given: seq<Entry>, fs: seq<Entry>, data: map<seq<int>, seq<int>>) {
    |fs| == |given| && forall i :: 0 <= i < |fs| ==>
      fs[i].id in data && fs[i] == given[i].(offset := fs[i].offset, size := |data[fs[i].id]|)
  }

  /** What a document is made of is bytes. */
  ghost predicate BytesGiven(fs: seq<Entry>, data: map<seq<int>, seq<int>>, nav: Option<seq<int>>) {
    && (forall i :: 0 <= i < |fs| ==> ByteEntry(fs[i])) && (forall id :: id in data ==> AreBytes(data[id]))
    && (nav.Some? ==> AreBytes(nav.value))
  }

  /** A document with a directory of the files, in which every file stands where the directory says. */
  ghost predicate IsBundle(s: seq<int>, fs: seq<Entry>, data: map<seq<int>, seq<int>>, nav: Option<seq<int>>,
                           c: Codec) {
    |s| >= PREFIX && s == Document(s[PREFIX..]) && Front(DirectoryOf(fs, c), nav) <= s[PREFIX..]
    && PlacedAll(fs, data, s[PREFIX..])
    && s[PREFIX..] == Filling(fs, data, Front(DirectoryOf(fs, c), nav), |fs|)
  }

  ghost predicate OneShared(fs: seq<Entry>) {
    forall i, j :: 0 <= i < j < |fs| ==> !(fs[i].kind == SHARED_ANNO && fs[j].kind == SHARED_ANNO)
  }

  lemma FrontLength(a: seq<int>, b: seq<int>, nav: Option<seq<int>>)
    requires |a| == |b|
    ensures |Front(a, nav)| == |Front(b, nav)|
  {
  }

  /** From the second pass to the third. */
  lemma Prepared(given: seq<Entry>, sized: seq<Entry>, fs: seq<Entry>, data: map<seq<int>, seq<int>>, start: nat)
    requires Sized(given, sized, data, |given|) && SameButOffsets(sized, fs) && Follow(fs, start, |fs|) && start > 0
    ensures Ready(fs, data, start) && Filled(given, fs, data)
    ensures forall i :: 0 <= i < |fs| ==> fs[i].offset > 0
  {
    forall i | 0 <= i < |fs| ensures FileReady(fs, data, start, i) && fs[i].offset > 0
        && fs[i] == given[i].(offset := fs[i].offset, size := |data[fs[i].id]|) {
      assert sized[i].(offset := 0) == fs[i].(offset := 0);
      assert FollowAt(fs, start, i);
      OffsetsPositive(fs, start, i);
    }
  }

  /**
   The files as the document would store them can be stored: each is a chunk and at most one has shared
   annotations.
   */
  ghost predicate CanWrite(given: seq<Entry>, data: map<seq<int>, seq<int>>, isChunk: seq<int> -> bool) {
    HasData(given, data) && OneShared(given) && AllChunks(given, data, isChunk, |given|)
  }

  /** The offsets predicted from a directory of dummy offsets are those at which the files are stored. */
  method Write(given: seq<Entry>, data: map<seq<int>, seq<int>>, nav: Option<seq<int>>, c: Codec,
               isChunk: seq<int> -> bool)
    returns (r: Result<seq<int>>, ghost fs: seq<Entry>)
    ensures r.Ok? <==> CanWrite(given, data, isChunk)
    ensures r.Ok? ==> Filled(given, fs, data) && IsBundle(r.value, fs, data, nav, c)
  {
    fs := given;
    var sized := Measure(given, data);
    if sized.Failed? { return Failed(sized.problem), fs; }
    r, fs := WriteSized(given, sized.value, data, nav, c, isChunk);
  }

  /** Predict the offsets, then write. */
  method WriteSized(ghost given: seq<Entry>, sized: seq<Entry>, data: map<seq<int>, seq<int>>, nav: Option<seq<int>>,
                    c: Codec, isChunk: seq<int> -> bool)
    returns (r: Result<seq<int>>, ghost fs: seq<Entry>)
    requires Sized(given, sized, data, |given|)
    ensures r.Ok? <==> OneShared(given) && AllChunks(given, data, isChunk, |given|)
    ensures r.Ok? ==> Filled(given, fs, data) && IsBundle(r.value, fs, data, nav, c)
  {
    var dummy := EncodeDirectory(sized, c);
    if dummy.Failed? { return Failed(dummy.problem), sized; }
    var start := PREFIX + |Front(dummy.value, nav)|;
    var files := Predict(sized, start);
    fs := files;
    Prepared(given, sized, files, data, start);
    ChunksOf(given, files, data, isChunk);
    r := WriteFiles(sized, files, data, nav, c, start, isChunk);
  }

  lemma ChunksOf(given: seq<Entry>, fs: seq<Entry>, data: map<seq<int>, seq<int>>, isChunk: seq<int> -> bool)
    requires Filled(given, fs, data)
    ensures AllChunks(given, data, isChunk, |given|) <==> AllChunks(fs, data, isChunk, |fs|)
    ensures OneShared(given) <==> OneShared(fs)
  {
    forall i | 0 <= i < |fs| ensures ChunkAt(given, data, isChunk, i) <==> ChunkAt(fs, data, isChunk, i) {
    }
  }

  /** Write the directory with the real offsets, and the files. */
  method WriteFiles(ghost sized: seq<Entry>, fs: seq<Entry>, data: map<seq<int>, seq<int>>, nav: Option<seq<int>>,
                    c: Codec, ghost start: nat, isChunk: seq<int> -> bool)
    returns (r: Result<seq<int>>)
    requires SameButOffsets(sized, fs) && OneShared(fs)
    requires Ready(fs, data, start) && start == PREFIX + |Front(DirectoryOf(sized, c), nav)|
    requires forall i :: 0 <= i < |fs| ==> fs[i].offset > 0
    ensures r.Ok? <==> AllChunks(fs, data, isChunk, |fs|)
    ensures r.Ok? ==> IsBundle(r.value, fs, data, nav, c)
  {
    DirectoryLength(sized, fs, c);
    FrontLength(DirectoryOf(sized, c), DirectoryOf(fs, c), nav);
    var dirm := EncodeDirectory(fs, c);
    var front := Front(dirm.value, nav);
    assert start == PREFIX + |front|;
    var contents := Store(fs, data, front, start, isChunk);
    if contents.Failed? { return Failed(NotIff); }
    DocumentContents(contents.value);
    r := Ok(Document(contents.value));
  }

  lemma DocumentContents(contents: seq<int>)
    ensures Document(contents)[PREFIX..] == contents
  {
  }

  /** Up to `size` bytes of the document from an offset on. */
  function Part(s: seq<int>, offset: nat, size: nat): seq<int> {
    if offset >= |s| then [] else s[offset..if offset + size <= |s| then offset + size else |s|]
  }

  /** Find the directory chunk behind the header of the document. */
  method FindDirectory(s: seq<int>, ghost known: bool, ghost dirm: seq<int>, ghost nav: Option<seq<int>>)
    returns (r: Result<seq<int>>)
    requires AreBytes(s)
    requires known ==> |s| >= PREFIX && s == Document(s[PREFIX..]) && Front(dirm, nav) <= s[PREFIX..]
    requires known ==> |dirm| < 0x1_0000_0000
    ensures known ==> r == Ok(dirm)
    ensures r.Ok? ==> AreBytes(r.value)
  {
    if known { DirectoryThere(s, dirm, nav); }
    ghost var length := |dirm|;
    if known { SizeReads(length); }
    if |s| < 24 { return Failed(EndOfFile); }
    if s[..8] != MAGIC + FORM || s[12..16] != DJVM { return Failed(NotBundle); }
    if s[16..20] != DIRM { return Failed(NotDirectory); }
    var field := s[20..24];
    NumberNat(field);
    var size := Number(field);
    if 24 + size > |s| { return Failed(EndOfFile); }
    r := Ok(s[24..24 + size]);
  }

  lemma DirectoryThere(s: seq<int>, dirm: seq<int>, nav: Option<seq<int>>)
    requires |s| >= PREFIX && s == Document(s[PREFIX..]) && Front(dirm, nav) <= s[PREFIX..] && |dirm| < 0x1_0000_0000
    ensures |s| >= 24 + |dirm| && s[..8] == MAGIC + FORM && s[12..16] == DJVM && s[16..20] == DIRM
    ensures s[20..24] == U32(|dirm|) && s[24..24 + |dirm|] == dirm
  {
    var t, size := s[PREFIX..], U32(|dirm|);
    assert DJVM + (DIRM + size + dirm) <= t;
    HeaderThere(s, t);
    FourParts(t, DJVM, DIRM, size, dirm);
    Behind(s, t, 0, 4);
    Behind(s, t, 4, 8);
    Behind(s, t, 8, 12);
    Behind(s, t, 12, 12 + |dirm|);
  }

  lemma HeaderThere(s: seq<int>, t: seq<int>)
    requires s == Document(t)
    ensures s[..8] == MAGIC + FORM
  {
  }

  lemma Behind(s: seq<int>, t: seq<int>, a: nat, b: nat)
    requires |s| >= PREFIX && t == s[PREFIX..] && a <= b <= |t|
    ensures s[PREFIX + a..PREFIX + b] == t[a..b]
  {
    SliceOfSuffix(s, PREFIX, PREFIX + a, PREFIX + b);
  }

  lemma FourParts(t: seq<int>, a: seq<int>, b: seq<int>, c: seq<int>, d: seq<int>)
    requires |a| == 4 && |b| == 4 && |c| == 4 && a + (b + c + d) <= t
    ensures t[0..4] == a && t[4..8] == b && t[8..12] == c && t[12..12 + |d|] == d
  {
    var all := a + (b + c + d);
    assert t[..|all|] == all;
    assert forall k :: 0 <= k < |all| ==> t[k] == all[k];
  }

  /** The files of a document that fit the fields of the directory. */
  ghost predicate Fitting(fs: seq<Entry>, c: Codec) {
    && StorableAll(fs) && |DirectoryOf(fs, c)| < 0x1_0000_0000
    && forall i :: 0 <= i < |fs| ==> fs[i].offset < 0x1_0000_0000 && fs[i].size < 0x100_0000
  }

  /** The parts of a document by the ids of its files. */
  method Connect(s: seq<int>, es: seq<Entry>) returns (data: map<seq<int>, seq<int>>)
    requires forall i, j :: 0 <= i < j < |es| ==> es[i].id != es[j].id
    ensures forall i :: 0 <= i < |es| ==> es[i].id in data && data[es[i].id] == Part(s, es[i].offset, es[i].size)
  {
    data := map[];
    for i := 0 to |es|
      invariant forall k :: 0 <= k < i ==> es[k].id in data && data[es[k].id] == Part(s, es[k].offset, es[k].size)
    {
      data := data[es[i].id := Part(s, es[i].offset, es[i].size)];
    }
  }

  /** Read a document: its directory, and the part of it that is each file. */
  method Read(s: seq<int>, c: Codec, ghost known: bool, ghost fs: seq<Entry>, ghost nav: Option<seq<int>>)
    returns (r: Result<seq<Entry>>, data: map<seq<int>, seq<int>>)
    requires AreBytes(s) && Lossless(c)
    requires known ==> Fitting(fs, c) && |s| >= PREFIX && s == Document(s[PREFIX..])
    requires known ==> Front(DirectoryOf(fs, c), nav) <= s[PREFIX..]
    ensures known ==> r == Ok(RestoredAll(fs))
    ensures r.Ok? ==> IsDirectory(r.value)
    ensures r.Ok? ==> forall i :: 0 <= i < |r.value| ==>
      r.value[i].id in data && data[r.value[i].id] == Part(s, r.value[i].offset, r.value[i].size)
  {
    data := map[];
    var dirm := FindDirectory(s, known, DirectoryOf(fs, c), nav);
    if dirm.Failed? { return Failed(dirm.problem), data; }
    var es, bundled := DecodeDirectory(dirm.value, c, known, CURRENT, fs);
    if es.Failed? { return es, data; }
    if known && fs != [] { FirstOffset(fs, c); }
    if es.value != [] && es.value[0].offset == 0 { return Failed(Indirect), data; }
    data := Connect(s, es.value);
    r := es;
  }

  lemma FirstOffset(fs: seq<Entry>, c: Codec)
    requires Fitting(fs, c) && fs != []
    ensures RestoredAll(fs)[0].offset != 0
  {
  }

  /** What is read of a written document at a file's offset is the file. */
  lemma PartIsFile(s: seq<int>, fs: seq<Entry>, data: map<seq<int>, seq<int>>, i: nat)
    requires |s| >= PREFIX && i < |fs| && Placed(fs, data, s[PREFIX..], i)
    ensures Part(s, fs[i].offset, fs[i].size) == data[fs[i].id]
  {
    var a, b := fs[i].offset, fs[i].offset + fs[i].size;
    SliceOfSuffix(s, PREFIX, a, b);
  }

  /** What comes back of a fitting file is the file, its name and title completed. */
  lemma RestoredFits(fs: seq<Entry>, c: Codec, i: nat)
    requires Fitting(fs, c) && i < |fs|
    ensures RestoredAll(fs)[i] == Restored(fs[i])
    ensures Restored(fs[i]).id == fs[i].id && Restored(fs[i]).kind == fs[i].kind
    ensures Restored(fs[i]).offset == fs[i].offset && Restored(fs[i]).size == fs[i].size
  {
  }

  /** A document made of bytes is bytes. */
  lemma BundleBytes(given: seq<Entry>, s: seq<int>, fs: seq<Entry>, data: map<seq<int>, seq<int>>,
                    nav: Option<seq<int>>, c: Codec)
    requires Lossless(c) && BytesGiven(given, data, nav) && Filled(given, fs, data) && IsBundle(s, fs, data, nav, c)
    ensures AreBytes(s)
  {
    forall i | 0 <= i < |fs| ensures ByteEntry(fs[i]) { assert ByteEntry(given[i]); }
    FrontBytes(fs, nav, c);
    FillingBytes(fs, data, Front(DirectoryOf(fs, c), nav), |fs|);
    DocumentBytes(s[PREFIX..]);
  }

  lemma FrontBytes(fs: seq<Entry>, nav: Option<seq<int>>, c: Codec)
    requires Lossless(c) && (forall i :: 0 <= i < |fs| ==> ByteEntry(fs[i])) && (nav.Some? ==> AreBytes(nav.value))
    ensures AreBytes(Front(DirectoryOf(fs, c), nav))
  {
    DirectoryBytes(fs, c);
    FrontOfBytes(DirectoryOf(fs, c), nav);
  }

  lemma FrontOfBytes(dirm: seq<int>, nav: Option<seq<int>>)
    requires AreBytes(dirm) && (nav.Some? ==> AreBytes(nav.value))
    ensures AreBytes(Front(dirm, nav))
  {
    ChunkBytes(DIRM, dirm);
    if nav.Some? { ChunkBytes(NAVM, nav.value); }
  }

  lemma ChunkBytes(id: seq<int>, content: seq<int>)
    requires AreBytes(id) && AreBytes(content)
    ensures AreBytes(Chunk(id, content))
  {
  }

  lemma DocumentBytes(contents: seq<int>)
    requires AreBytes(contents)
    ensures AreBytes(Document(contents))
  {
  }

  /**
   The round trip: a document that can be written and whose files fit their
   fields reads back with the same files in the same order, of the same types,
   with their names and titles, and with their data.
   */
  method RoundTrip(given: seq<Entry>, data: map<seq<int>, seq<int>>, nav: Option<seq<int>>, c: Codec,
                   isChunk: seq<int> -> bool)
    returns (ghost fs: seq<Entry>, w: Result<seq<int>>, r: Result<seq<Entry>>, back: map<seq<int>, seq<int>>)
    requires Lossless(c) && BytesGiven(given, data, nav)
    ensures w.Ok? <==> CanWrite(given, data, isChunk)
    ensures w.Ok? ==> Filled(given, fs, data)
    ensures w.Ok? && Fitting(fs, c) ==> r == Ok(RestoredAll(fs))
    ensures w.Ok? && Fitting(fs, c) ==>
      forall i :: 0 <= i < |given| ==> given[i].id in back && back[given[i].id] == data[given[i].id]
  {
    back := map[];
    r := Failed(NoData);
    w, fs := Write(given, data, nav, c, isChunk);
    if w.Failed? { return; }
    ghost var known := Fitting(fs, c);
    BundleBytes(given, w.value, fs, data, nav, c);
    r, back := Read(w.value, c, known, fs, nav);
    if known {
      forall i | 0 <= i < |given| ensures given[i].id in back && back[given[i].id] == data[given[i].id] {
        assert Placed(fs, data, w.value[PREFIX..], i);
        PartIsFile(w.value, fs, data, i);
        RestoredFits(fs, c, i);
      }
    }
  }
}
