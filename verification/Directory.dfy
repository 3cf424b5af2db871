/** The directory of a document: the files in order, its pages, and the indexes by name and by id. */
module Directory {
  import opened Sequences
  import opened PageMoves

  datatype Kind = Include | Page | Thumbnails | SharedAnno

  class File {
    const id: string
    const kind: Kind
    var name: string
    var pageNum: int

    constructor (id: string, name: string, kind: Kind)
      ensures this.id == id && this.name == name && this.kind == kind && pageNum == -1
    {
      this.id, this.name, this.kind, pageNum := id, name, kind, -1;
    }
  }

  /** The pages among the files. */
  ghost function PagesOf(fs: seq<File>): seq<File> {
    if fs == [] then []
    else
      var n := |fs| - 1;
      PagesOf(fs[..n]) + if fs[n].kind.Page? then [fs[n]] else []
  }

  lemma PagesPush(fs: seq<File>, f: File)
    ensures PagesOf(fs + [f]) == PagesOf(fs) + if f.kind.Page? then [f] else []
  {
    PushLast(fs, f);
  }

  lemma {:induction false} PagesAppend(a: seq<File>, b: seq<File>)
    ensures PagesOf(a + b) == PagesOf(a) + PagesOf(b)
    decreases |b|
  {
    if b == [] {
      assert a + b == a;
    } else {
      var n := |b| - 1;
      PagesAppend(a, b[..n]);
      LastApart(b);
      Regroup(a, b[..n], [b[n]]);
      PagesPush(a + b[..n], b[n]);
      Regroup(PagesOf(a), PagesOf(b[..n]), if b[n].kind.Page? then [b[n]] else []);
    }
  }

  /** How many pages come before position `i`. */
  ghost function PagesBefore(fs: seq<File>, i: nat): nat
    requires i <= |fs|
  {
    |PagesOf(fs[..i])|
  }

  lemma PagesSplit(fs: seq<File>, i: nat)
    requires i <= |fs|
    ensures PagesBefore(fs, i) <= |PagesOf(fs)|
    ensures PagesOf(fs)[..PagesBefore(fs, i)] == PagesOf(fs[..i])
    ensures PagesOf(fs)[PagesBefore(fs, i)..] == PagesOf(fs[i..])
  {
    SplitAt(fs, i);
    PagesAppend(fs[..i], fs[i..]);
  }

  lemma PageBetween(a: seq<File>, f: File, b: seq<File>)
    requires f.kind.Page?
    ensures PagesOf(a + [f] + b) == PagesOf(a) + [f] + PagesOf(b)
  {
    PagesPush(a, f);
    PagesAppend(a + [f], b);
  }

  lemma FileBetween(a: seq<File>, f: File, b: seq<File>)
    requires !f.kind.Page?
    ensures PagesOf(a + [f] + b) == PagesOf(a + b)
  {
    PagesPush(a, f);
    assert PagesOf(a) + [] == PagesOf(a);
    PagesAppend(a + [f], b);
    PagesAppend(a, b);
  }

  /** A page inserted among the files is inserted among the pages; another file leaves them alone. */
  lemma PagesInserted(fs: seq<File>, i: nat, f: File)
    requires i <= |fs|
    ensures PagesBefore(fs, i) <= |PagesOf(fs)|
    ensures PagesOf(Inserted(fs, i, f)) ==
      if f.kind.Page? then Inserted(PagesOf(fs), PagesBefore(fs, i), f) else PagesOf(fs)
  {
    PagesSplit(fs, i);
    if f.kind.Page? {
      PageBetween(fs[..i], f, fs[i..]);
    } else {
      FileBetween(fs[..i], f, fs[i..]);
      SplitAt(fs, i);
    }
  }

  lemma PagesWithout(fs: seq<File>, i: nat)
    requires i < |fs|
    ensures PagesBefore(fs, i) <= |PagesOf(fs)| && (fs[i].kind.Page? ==> PagesBefore(fs, i) < |PagesOf(fs)|)
    ensures fs[i].kind.Page? ==> PagesOf(fs)[PagesBefore(fs, i)] == fs[i]
    ensures PagesOf(Without(fs, i)) ==
      if fs[i].kind.Page? then Without(PagesOf(fs), PagesBefore(fs, i)) else PagesOf(fs)
  {
    var w := Without(fs, i);
    InsertedWithout(fs, i);
    PagesInserted(w, i, fs[i]);
    assert w[..i] == fs[..i];
    if fs[i].kind.Page? { WithoutInserted(PagesOf(w), PagesBefore(fs, i), fs[i]); }
  }

  lemma WithoutInserted<T>(s: seq<T>, i: nat, x: T)
    requires i <= |s|
    ensures Without(Inserted(s, i, x), i) == s && Inserted(s, i, x)[i] == x
  {
  }

  lemma {:induction false} PagesAreFiles(fs: seq<File>)
    ensures forall f :: f in PagesOf(fs) <==> f in fs && f.kind.Page?
    decreases |fs|
  {
    if fs != [] {
      PagesAreFiles(fs[..|fs| - 1]);
      LastApart(fs);
    }
  }

  ghost predicate Distinct(s: seq<File>) {
    forall i, j :: 0 <= i < j < |s| ==> s[i] != s[j]
  }

  lemma {:induction false} PagesDistinct(fs: seq<File>)
    requires Distinct(fs)
    ensures Distinct(PagesOf(fs))
    decreases |fs|
  {
    if fs != [] {
      PagesDistinct(fs[..|fs| - 1]);
      PagesAreFiles(fs[..|fs| - 1]);
    }
  }

  /** The position of the first file with an id; the number of files when there is none. */
  ghost function IndexOf(fs: seq<File>, id: string): (i: nat)
    ensures i <= |fs| && (i < |fs| ==> fs[i].id == id) && forall j :: 0 <= j < i ==> fs[j].id != id
  {
    if fs == [] || fs[0].id == id then 0 else 1 + IndexOf(fs[1..], id)
  }

  lemma {:induction false} FirstWithId(fs: seq<File>, id: string, i: nat)
    requires i <= |fs| && (forall k :: 0 <= k < i ==> fs[k].id != id) && (i < |fs| ==> fs[i].id == id)
    ensures IndexOf(fs, id) == i
    decreases i
  {
    if i > 0 { FirstWithId(fs[1..], id, i - 1); }
  }

  /** Where a file goes among `n` files when it is asked to go to `pos`. */
  function Slot(pos: int, n: nat): (r: nat)
    ensures r <= n
  {
    if 0 <= pos < n then pos else n
  }

  lemma SamePrefix<T>(a: seq<T>, b: seq<T>, n: nat)
    requires n <= |a| && n <= |b| && a[..n] == b[..n]
    ensures forall k :: 0 <= k < n ==> a[k] == b[k]
  {
    assert forall k :: 0 <= k < n ==> a[k] == a[..n][k];
  }

  datatype Trouble = Fine | DuplicateId | DuplicateName | SecondSharedAnno | NameInUse | NoSuchId

  /** Shift the entries from `at` on by one and put `x` there. */
  method ShiftIn<T>(s: seq<T>, at: nat, x: T) returns (r: seq<T>)
    requires at <= |s|
    ensures r == Inserted(s, at, x)
  {
    r := s + [x];
    var i := |s|;
    while i > at
      invariant at <= i <= |s| && |r| == |s| + 1
      invariant forall k :: 0 <= k < i ==> r[k] == s[k]
      invariant forall k :: i < k <= |s| ==> r[k] == s[k - 1]
    {
      r := r[i := r[i - 1]];
      i := i - 1;
    }
    r := r[at := x];
  }

  /** Shift the entries after `at` back by one. */
  method ShiftOut<T>(s: seq<T>, at: nat) returns (r: seq<T>)
    requires at < |s|
    ensures r == Without(s, at)
  {
    r := s;
    var i := at;
    while i < |s| - 1
      invariant at <= i <= |s| - 1 && |r| == |s|
      invariant forall k :: 0 <= k < at ==> r[k] == s[k]
      invariant forall k :: at <= k < i ==> r[k] == s[k + 1]
      invariant forall k :: i <= k < |s| ==> r[k] == s[k]
    {
      r := r[i := r[i + 1]];
      i := i + 1;
    }
    r := r[..|s| - 1];
  }

  class Dir {
    var files: seq<File>
    var pages: seq<File>
    var byName: map<string, File>
    var byId: map<string, File>

    constructor ()
      ensures Valid() && files == [] && pages == [] && byName == map[] && byId == map[]
    {
      files, pages, byName, byId := [], [], map[], map[];
    }

    /** The pages are the page files in order and numbered so; the indexes are exactly those of the files. */
    ghost predicate Valid()
      reads this, (set f | f in files), (set f | f in pages)`pageNum, (set n | n in byName :: byName[n])`name
    {
      && Distinct(files) && pages == PagesOf(files)
      && Numbered(pages, 0)
      && IdsIndexed(files, byId) && NamesIndexed(files, byName) && OneSharedAnno(files)
    }

    /** Number the pages from `from` on. */
    method Renumber(from: nat)
      requires Distinct(pages)
      modifies (set f | f in pages)`pageNum
      ensures forall k :: from <= k < |pages| ==> pages[k].pageNum == k
      ensures forall k :: 0 <= k < from && k < |pages| ==> pages[k].pageNum == old(pages[k].pageNum)
    {
      var i := from;
      while i < |pages|
        invariant from <= i
        invariant forall k :: from <= k < i && k < |pages| ==> pages[k].pageNum == k
        invariant forall k :: 0 <= k < from && k < |pages| ==> pages[k].pageNum == old(pages[k].pageNum)
        decreases |pages| - i
      {
        pages[i].pageNum := i;
        i := i + 1;
      }
    }

    /** Whether a file with shared annotations is there. */
    method HasSharedAnno() returns (has: bool)
      ensures has <==> exists f :: f in files && f.kind.SharedAnno?
    {
      has := false;
      for i := 0 to |files|
        invariant has <==> exists k :: 0 <= k < i && files[k].kind.SharedAnno?
      {
        if files[i].kind.SharedAnno? { has := true; }
      }
    }

    /** How many pages come before a position. */
    method CountPages(end: nat) returns (n: nat)
      requires end <= |files|
      ensures n == PagesBefore(files, end)
    {
      n := 0;
      for i := 0 to end
        invariant n == PagesBefore(files, i)
      {
        SliceNext(files, 0, i);
        assert files[0..i + 1] == files[..i + 1] && files[0..i] == files[..i];
        PagesPush(files[..i], files[i]);
        if files[i].kind.Page? { n := n + 1; }
      }
    }

    /** The file with an id, if any. */
    method IdToFile(id: string) returns (f: File?)
      requires Valid()
      ensures f == null <==> id !in byId
      ensures f == null <==> forall g :: g in files ==> g.id != id
      ensures f != null ==> f in files && f.id == id && f == byId[id]
    {
      f := if id in byId then byId[id] else null;
    }

    method NameToFile(name: string) returns (f: File?)
      requires Valid()
      ensures f == null <==> forall g :: g in files ==> g.name != name
      ensures f != null ==> f in files && f.name == name && f.id in byId && byId[f.id] == f
    {
      f := if name in byName then byName[name] else null;
    }

    /** The position of a file; -1 when it is not there. */
    method FilePos(f: File?) returns (pos: int)
      requires Valid()
      ensures f == null || f !in files ==> pos == -1
      ensures f != null && f in files ==> 0 <= pos < |files| && files[pos] == f
    {
      pos := 0;
      while pos < |files| && files[pos] != f
        invariant 0 <= pos <= |files| && forall k :: 0 <= k < pos ==> files[k] != f
        decreases |files| - pos
      {
        pos := pos + 1;
      }
      if pos == |files| { pos := -1; }
    }

    /** The position of a page among the files; -1 past the last page. */
    method PagePos(page: nat) returns (pos: int)
      requires Valid()
      ensures page >= |pages| ==> pos == -1
      ensures page < |pages| ==> 0 <= pos < |files| && files[pos] == pages[page] && files[pos].kind.Page?
      ensures page < |pages| ==> PagesBefore(files, pos) == page
    {
      if page >= |pages| { return -1; }
      PagesAreFiles(files);
      assert pages[page] in pages;
      pos := FilePos(pages[page]);
      PagesWithout(files, pos);
      PagesDistinct(files);
      assert pages[PagesBefore(files, pos)] == pages[page];
    }

    /**
     Insert a file before a position, or at the end. Everything is checked
     before anything changes, except that a second file with shared
     annotations is refused only when the indexes have been changed.
     */
    method InsertFile(f: File, pos: int) returns (r: Trouble, at: int)
      requires Valid() && f !in files
      modifies this, f`pageNum, (set g | g in pages)`pageNum
      ensures r.Fine? || r.DuplicateId? || r.DuplicateName? || r.SecondSharedAnno?
      ensures r.DuplicateId? <==> f.id in old(byId)
      ensures r.DuplicateName? <==> f.id !in old(byId) && f.name in old(byName)
      ensures r.SecondSharedAnno? <==> f.id !in old(byId) && f.name !in old(byName) && f.kind.SharedAnno? &&
                                       exists g :: g in old(files) && g.kind.SharedAnno?
      ensures !r.Fine? ==> files == old(files) && pages == old(pages)
      ensures r.DuplicateId? || r.DuplicateName? ==> Valid()
      ensures r.SecondSharedAnno? ==> !Valid() && byId == old(byId)[f.id := f] && byName == old(byName)[f.name := f]
      ensures r.Fine? ==> Valid() && at == (if pos < 0 then |old(files)| else pos)
      ensures r.Fine? ==> byId == old(byId)[f.id := f] && byName == old(byName)[f.name := f]
      ensures r.Fine? ==> files == Inserted(old(files), Slot(pos, |old(files)|), f)
    {
      at := if pos < 0 then |files| else pos;
      if f.id in byId { return DuplicateId, at; }
      if f.name in byName { return DuplicateName, at; }
      var second := Admit(f, if at < |files| then at else |files|);
      r := if second then SecondSharedAnno else Fine;
    }

    /** Enter a new file, unless it is a second one with shared annotations; the indexes have it in any case. */
    method Admit(f: File, place: nat) returns (second: bool)
      requires Valid() && f !in files && f.id !in byId && f.name !in byName && place <= |files|
      modifies this, f`pageNum, (set g | g in pages)`pageNum
      ensures second <==> f.kind.SharedAnno? && exists g :: g in old(files) && g.kind.SharedAnno?
      ensures second ==> files == old(files) && pages == old(pages) && !Valid()
      ensures !second ==> Valid() && files == Inserted(old(files), place, f)
      ensures byId == old(byId)[f.id := f] && byName == old(byName)[f.name := f]
    {
      Register(f, place);
      if f.kind.SharedAnno? {
        second := HasSharedAnno();
        if second {
          assert byId[f.id] !in files;
          return;
        }
      }
      second := false;
      OneShared(files, place, f);
      Enter(f, place);
    }

    /** Put an indexed file at its place. */
    method Enter(f: File, place: nat)
      requires Distinct(files) && f !in files && place <= |files| && pages == PagesOf(files) && Numbered(pages, 0)
      requires IdsIndexed(Inserted(files, place, f), byId) && NamesIndexed(Inserted(files, place, f), byName)
      requires OneSharedAnno(Inserted(files, place, f))
      modifies this`files, this`pages, f`pageNum, (set g | g in pages)`pageNum
      ensures Valid() && files == Inserted(old(files), place, f)
    {
      ghost var placed := Inserted(files, place, f);
      Place(f, place);
      assert files == placed;
    }

    /** Enter a file in the indexes. */
    method Register(f: File, ghost place: nat)
      requires IdsIndexed(files, byId) && NamesIndexed(files, byName) && place <= |files|
      requires f !in files && f.id !in byId && f.name !in byName
      modifies this`byId, this`byName
      ensures byId == old(byId)[f.id := f] && byName == old(byName)[f.name := f]
      ensures IdsIndexed(Inserted(files, place, f), byId) && NamesIndexed(Inserted(files, place, f), byName)
    {
      IndexInserted(files, byId, place, f);
      NamesInserted(files, byName, place, f);
      byName := byName[f.name := f];
      byId := byId[f.id := f];
    }

    /** Put a new file at its place in the list and, if it is a page, among the pages. */
    method Place(f: File, place: nat)
      requires Distinct(files) && f !in files && place <= |files| && pages == PagesOf(files) && Numbered(pages, 0)
      modifies this`files, this`pages, f`pageNum, (set g | g in pages)`pageNum
      ensures Distinct(files) && pages == PagesOf(files) && Numbered(pages, 0)
      ensures files == Inserted(old(files), place, f)
    {
      ghost var was := files;
      DistinctInserted(files, place, f);
      files := Inserted(files, place, f);
      if f.kind.Page? { InsertPage(f, place, was); } else { PagesInserted(was, place, f); }
    }

    /** Enter a new page file among the pages and number it and those after it. */
    method InsertPage(f: File, place: nat, ghost was: seq<File>)
      requires place <= |was| && files == Inserted(was, place, f) && f.kind.Page?
      requires Distinct(files) && pages == PagesOf(was) && Numbered(pages, 0)
      modifies this`pages, f`pageNum, (set g | g in pages)`pageNum
      ensures pages == PagesOf(files) && Numbered(pages, 0)
    {
      var n := CountPages(place);
      assert files[..place] == was[..place];
      PagesInserted(was, place, f);
      PagesDistinct(files);
      InsertedMembers(pages, n, f);
      var longer := ShiftIn(pages, n, f);
      Assign(longer, n);
    }

    /** Take new pages, numbered up to `from`, and number the others. */
    method Assign(next: seq<File>, from: nat)
      requires Distinct(next) && Numbered(pages, 0) && from <= |pages| && from <= |next|
      requires next[..from] == pages[..from]
      modifies this`pages, (set g | g in next)`pageNum
      ensures pages == next && Numbered(pages, 0)
    {
      SamePrefix(next, pages, from);
      pages := next;
      Renumber(from);
    }

    /** Delete the file with an id, if there is one. */
    method DeleteFile(id: string)
      requires Valid()
      modifies this, (set g | g in pages)`pageNum
      ensures Valid()
      ensures var i := IndexOf(old(files), id); files == if i < |old(files)| then Without(old(files), i) else old(files)
      ensures byId == old(byId) - {id}
      ensures byName == if id in old(byId) then old(byName) - {old(byId[id].name)} else old(byName)
    {
      var pos := FindId(id);
      if pos == |files| { return; }
      NamesWithout(files, byName, pos);
      IdsWithout(files, byId, pos);
      var f := files[pos];
      byName := byName - {f.name};
      byId := byId - {f.id};
      TakeOut(f, pos);
    }

    method FindId(id: string) returns (pos: nat)
      ensures pos == IndexOf(files, id)
    {
      pos := 0;
      while pos < |files| && files[pos].id != id
        invariant 0 <= pos <= |files| && forall k :: 0 <= k < pos ==> files[k].id != id
        decreases |files| - pos
      {
        pos := pos + 1;
      }
      FirstWithId(files, id, pos);
    }

    /** Take a file out of the list and, if it is a page, out of the pages. */
    method TakeOut(f: File, pos: nat)
      requires pos < |files| && files[pos] == f
      requires Distinct(files) && pages == PagesOf(files) && Numbered(pages, 0)
      modifies this`files, this`pages, (set g | g in pages)`pageNum
      ensures Distinct(files) && pages == PagesOf(files) && Numbered(pages, 0)
      ensures files == Without(old(files), pos)
    {
      ghost var left := Without(files, pos);
      WithoutMembers(files, pos);
      PagesWithout(files, pos);
      if f.kind.Page? { DeletePage(f, pos); }
      assert pages == PagesOf(left);
      files := Without(files, pos);
    }

    /** Take a page out of the pages and number those after it. */
    method DeletePage(f: File, ghost pos: nat)
      requires pos < |files| && files[pos] == f && f.kind.Page?
      requires Distinct(files) && pages == PagesOf(files) && Numbered(pages, 0)
      modifies this`pages, (set g | g in pages)`pageNum
      ensures pages == PagesOf(Without(files, pos)) && Numbered(pages, 0)
    {
      ghost var at := PagesBefore(files, pos);
      PageOut(files, pos);
      var page := FindPage(f, at);
      var shorter := ShiftOut(pages, page);
      Assign(shorter, page);
    }

    method FindPage(f: File, ghost at: nat) returns (page: nat)
      requires Distinct(pages) && at < |pages| && pages[at] == f
      ensures page == at
    {
      page := 0;
      while page < |pages| && pages[page] != f
        invariant 0 <= page <= at
        decreases |pages| - page
      {
        page := page + 1;
      }
    }

    /** Give the file with an id a name no other file has. */
    method SetFileName(id: string, name: string) returns (r: Trouble)
      requires Valid()
      modifies this`byName, (set g | g in files)`name
      ensures Valid()
      ensures r.NameInUse? <==> exists g :: g in files && g.id != id && old(g.name) == name
      ensures r.NoSuchId? <==> !r.NameInUse? && id !in byId
      ensures r.Fine? <==> !r.NameInUse? && !r.NoSuchId?
      ensures r.Fine? ==> byId[id].name == name && forall g :: g in files && g.id != id ==> g.name == old(g.name)
      ensures !r.Fine? ==> byName == old(byName) && forall g :: g in files ==> g.name == old(g.name)
    {
      for i := 0 to |files|
        invariant forall k :: 0 <= k < i ==> files[k].id == id || files[k].name != name
      {
        if files[i].id != id && files[i].name == name { return NameInUse; }
      }
      if id !in byId { return NoSuchId; }
      var f := byId[id];
      byName := byName - {f.name};
      f.name := name;
      byName := byName[name := f];
      r := Fine;
    }
  }

  /** A second file of shared annotations is refused, and yet the index by id has it. */
  method SecondShared() returns (r: Trouble, listed: bool, indexed: bool)
    ensures r.SecondSharedAnno? && !listed && indexed
  {
    var dir := new Dir();
    var a := new File("a", "a", SharedAnno);
    var b := new File("b", "b", SharedAnno);
    var first, at := dir.InsertFile(a, -1);
    r, at := dir.InsertFile(b, -1);
    listed, indexed := b in dir.files, "b" in dir.byId;
  }

  /** The maps after a file is entered. */
  lemma IndexInserted(files: seq<File>, byId: map<string, File>, i: nat, f: File)
    requires IdsIndexed(files, byId) && i <= |files| && f !in files && f.id !in byId
    ensures IdsIndexed(Inserted(files, i, f), byId[f.id := f])
    ensures forall g :: g in Inserted(files, i, f) <==> g in files || g == f
  {
    InsertedMembers(files, i, f);
  }

  lemma NamesInserted(files: seq<File>, byName: map<string, File>, i: nat, f: File)
    requires NamesIndexed(files, byName) && i <= |files| && f !in files && f.name !in byName
    ensures NamesIndexed(Inserted(files, i, f), byName[f.name := f])
  {
    InsertedMembers(files, i, f);
  }

  lemma NamesWithout(files: seq<File>, byName: map<string, File>, i: nat)
    requires Distinct(files) && NamesIndexed(files, byName) && i < |files|
    ensures NamesIndexed(Without(files, i), byName - {files[i].name})
  {
    WithoutMembers(files, i);
  }

  lemma IdsWithout(files: seq<File>, byId: map<string, File>, i: nat)
    requires Distinct(files) && IdsIndexed(files, byId) && i < |files|
    ensures IdsIndexed(Without(files, i), byId - {files[i].id})
  {
    WithoutMembers(files, i);
  }

  /** The pages without one of them. */
  lemma PageOut(fs: seq<File>, i: nat)
    requires Distinct(fs) && i < |fs| && fs[i].kind.Page?
    ensures var pages, at := PagesOf(fs), PagesBefore(fs, i);
      && Distinct(pages) && at < |pages| && pages[at] == fs[i]
      && Distinct(Without(pages, at)) && Without(pages, at)[..at] == pages[..at]
      && (forall g :: g in Without(pages, at) ==> g in pages)
      && Without(pages, at) == PagesOf(Without(fs, i))
  {
    PagesWithout(fs, i);
    PagesDistinct(fs);
    WithoutMembers(PagesOf(fs), PagesBefore(fs, i));
  }

  lemma InsertedMembers(files: seq<File>, i: nat, f: File)
    requires i <= |files|
    ensures forall g :: g in Inserted(files, i, f) <==> g in files || g == f
  {
    SplitAt(files, i);
    forall g ensures g in Inserted(files, i, f) <==> g in files || g == f {
      assert g in files <==> g in files[..i] || g in files[i..];
    }
  }

  /** A file more has shared annotations only if no other has. */
  lemma OneShared(files: seq<File>, i: nat, f: File)
    requires i <= |files| && OneSharedAnno(files)
    requires f.kind.SharedAnno? ==> forall g :: g in files ==> !g.kind.SharedAnno?
    ensures OneSharedAnno(Inserted(files, i, f))
  {
    InsertedMembers(files, i, f);
  }

  lemma DistinctInserted(files: seq<File>, i: nat, f: File)
    requires Distinct(files) && i <= |files| && f !in files
    ensures Distinct(Inserted(files, i, f))
  {
    var r := Inserted(files, i, f);
    assert forall k :: 0 <= k < |r| ==> r[k] == if k < i then files[k] else if k == i then f else files[k - 1];
  }

  lemma WithoutMembers(files: seq<File>, i: nat)
    requires Distinct(files) && i < |files|
    ensures Distinct(Without(files, i))
    ensures forall g :: g in Without(files, i) <==> g in files && g != files[i]
  {
    var r := Without(files, i);
    assert forall k :: 0 <= k < |r| ==> r[k] == files[if k < i then k else k + 1];
    InsertedWithout(files, i);
    InsertedMembers(r, i, files[i]);
  }

  ghost predicate Numbered(pages: seq<File>, from: nat)
    reads (set f | f in pages)`pageNum
  {
    forall k :: from <= k < |pages| ==> pages[k].pageNum == k
  }

  /** At most one file has shared annotations. */
  ghost predicate OneSharedAnno(files: seq<File>) {
    forall f, g :: f in files && g in files && f.kind.SharedAnno? && g.kind.SharedAnno? ==> f == g
  }

  ghost predicate IdsIndexed(files: seq<File>, byId: map<string, File>) {
    && (forall f :: f in files ==> f.id in byId && byId[f.id] == f)
    && (forall id :: id in byId ==> byId[id] in files && byId[id].id == id)
  }

  ghost predicate NamesIndexed(files: seq<File>, byName: map<string, File>)
    reads (set f | f in files)`name, (set n | n in byName :: byName[n])`name
  {
    && (forall f :: f in files ==> f.name in byName && byName[f.name] == f)
    && (forall n :: n in byName ==> byName[n] in files && byName[n].name == n)
  }
}