/** Moving files and pages of a document. */
module PageEditor {
  import opened Sequences
  import opened PageMoves
  import opened Directory
  import opened FileMoves
  import opened PageShifts

  ghost function Ids(fs: seq<File>): (r: seq<string>)
    ensures |r| == |fs|
  {
    seq(|fs|, i requires 0 <= i < |fs| => fs[i].id)
  }

  lemma IdsMoved(s: seq<File>, from: nat, to: nat, f: File)
    requires from < |s| && to < |s| && f.id == s[from].id
    ensures Ids(Inserted(Without(s, from), to, f)) == Moved(Ids(s), from, to)
  {
    var r := Inserted(Without(s, from), to, f);
    forall x | 0 <= x < |s| ensures Ids(r)[x] == Moved(Ids(s), from, to)[x] {
      MovedAt(Ids(s), from, to, x);
      assert Without(s, from)[..to] == Without(s, from)[..to];
      assert r[x] == if x < to then Without(s, from)[x] else if x == to then f else Without(s, from)[x - 1];
    }
  }

  lemma IdsPut(s: seq<File>, from: nat, to: nat, f: File)
    requires from < |s| && to < |s| && f.id == s[from].id
    ensures Ids(Inserted(Without(s, from), to, f)) == Inserted(Without(Ids(s), from), to, f.id)
  {
    IdsMoved(s, from, to, f);
  }

  /** The ids after the file with id `id` is put at `pos` of the others. */
  ghost function IdsAfter(fs: seq<File>, id: string, pos: int): seq<string> {
    var a := IndexOf(fs, id);
    if a == |fs| then Ids(fs) else Inserted(Without(Ids(fs), a), Slot(pos, |fs| - 1), id)
  }

  /** A file of the directory, by its id. */
  lemma FileFound(fs: seq<File>, byId: map<string, File>, id: string, pos: int)
    requires Distinct(fs) && IdsIndexed(fs, byId) && id in byId
    ensures PutAt(Ids(fs), IdsAfter(fs, id, pos), id, IndexOf(fs, id), pos)
  {
    IndexFound(fs, byId, id);
    IdsDifferent(fs, byId);
  }

  lemma IncludedDirectly(includes: map<string, seq<string>>, id: string, k: nat)
    requires id in includes && k < |includes[id]|
    ensures IncludedBy(includes, [id], includes[id][k])
  {
    assert [id][0] == id && includes[id][k] in includes[id];
  }

  ghost function NamesOf(records: map<string, Record>): map<string, string> {
    map id | id in records :: records[id].name
  }

  /** In a directory no two files have one id. */
  lemma IdsDifferent(fs: seq<File>, byId: map<string, File>)
    requires Distinct(fs) && IdsIndexed(fs, byId)
    ensures Different(Ids(fs))
  {
    forall i, j | 0 <= i < j < |fs| ensures Ids(fs)[i] != Ids(fs)[j] {
      assert fs[i] in fs && fs[j] in fs && byId[fs[i].id] == fs[i] && byId[fs[j].id] == fs[j];
    }
  }

  /** What there is to know of each file but its place: its kind and its name. */
  datatype Record = Record(kind: Kind, name: string)

  /** The records of the files, by id. */
  ghost predicate RecordsAre(byId: map<string, File>, records: map<string, Record>)
    reads (set id | id in byId :: byId[id])`name
  {
    byId.Keys == records.Keys && forall id :: id in byId ==> Record(byId[id].kind, byId[id].name) == records[id]
  }

  /** No page is among the files that files include, by name. */
  ghost predicate NoPageIncluded(includes: map<string, seq<string>>, records: map<string, Record>) {
    forall id, k, page ::
      id in includes && 0 <= k < |includes[id]| && page in records && records[page].name == includes[id][k]
      ==> !records[page].kind.Page?
  }

  /** Pages before a later position are no fewer. */
  lemma PagesMonotone(fs: seq<File>, i: nat, j: nat)
    requires i <= j <= |fs|
    ensures PagesBefore(fs, i) <= PagesBefore(fs, j)
    ensures i < j && fs[i].kind.Page? ==> PagesBefore(fs, i) < PagesBefore(fs, j)
  {
    PagesSplit(fs[..j], i);
    assert fs[..j][..i] == fs[..i];
    if i < j {
      PagesWithout(fs[..j], i);
    }
  }

  /** Where a page lands that is put just before another page. */
  lemma LandsBefore(fs: seq<File>, a: nat, b: nat)
    requires a < |fs| && b < |fs| && a != b && fs[a].kind.Page? && fs[b].kind.Page?
    ensures var c := if b < a then b else b - 1;
      PagesBefore(Without(fs, a), c) == if b < a then PagesBefore(fs, b) else PagesBefore(fs, b) - 1
  {
    if b < a {
      assert Without(fs, a)[..b] == fs[..b];
    } else {
      PagesWithout(fs[..b], a);
      assert Without(fs, a)[..b - 1] == Without(fs[..b], a);
      assert fs[..b][..a] == fs[..a];
    }
  }

  lemma InFileOrder(fs: seq<File>, i: nat, j: nat)
    requires i < |fs| && j < |fs| && fs[i].kind.Page? && PagesBefore(fs, i) < PagesBefore(fs, j)
    ensures i < j
  {
    if j <= i { PagesMonotone(fs, j, i); }
  }

  /** Where a page lands that is put at the end. */
  lemma LandsLast(fs: seq<File>, a: nat)
    requires a < |fs| && fs[a].kind.Page?
    ensures PagesBefore(Without(fs, a), |fs| - 1) == |PagesOf(fs)| - 1
  {
    PagesWithout(fs, a);
    assert Without(fs, a)[..|fs| - 1] == Without(fs, a);
  }

  /** The pages after a file with the id of file `a` is put at place `c` of the others. */
  ghost function PagesAfter(fs: seq<File>, a: nat, c: nat): seq<string>
    requires a < |fs| && c < |fs|
  {
    PagesWithout(fs, a);
    var pages := Ids(PagesOf(fs));
    if fs[a].kind.Page? then
      PagesSplit(Without(fs, a), c);
      Moved(pages, PagesBefore(fs, a), PagesBefore(Without(fs, a), c))
    else pages
  }

  /** Asking for position `pos` makes file `a`, page `page`, page `to`. */
  ghost predicate Puts(fs: seq<File>, a: nat, pos: int, page: int, to: int) {
    && a < |fs| && 0 <= page < |PagesOf(fs)| && 0 <= to < |PagesOf(fs)|
    && PagesAfter(fs, a, Slot(pos, |fs| - 1)) == Moved(Ids(PagesOf(fs)), page, to)
  }

  lemma PutThere(fs: seq<File>, a: nat, c: nat, page: nat, to: nat)
    requires a < |fs| && c < |fs| - 1 && fs[a].kind.Page? && PagesBefore(fs, a) == page < |PagesOf(fs)|
    requires PagesBefore(Without(fs, a), c) == to < |PagesOf(fs)|
    ensures Puts(fs, a, c, page, to)
  {
    assert Slot(c, |fs| - 1) == c;
  }

  /** Putting page file `a`, page `page`, before an earlier page. */
  lemma PutEarlier(fs: seq<File>, a: nat, b: nat, page: nat, to: nat)
    requires a < |fs| && b < |fs| && fs[a].kind.Page? && fs[b].kind.Page?
    requires PagesBefore(fs, a) == page && PagesBefore(fs, b) == to && to < page
    ensures Puts(fs, a, b, page, to)
  {
    PagesWithout(fs, a);
    PagesWithout(fs, b);
    InFileOrder(fs, b, a);
    LandsBefore(fs, a, b);
  }

  /** Putting it before the page after a later page. */
  lemma PutLater(fs: seq<File>, a: nat, b: nat, page: nat, to: nat)
    requires a < |fs| && b < |fs| && fs[a].kind.Page? && fs[b].kind.Page?
    requires PagesBefore(fs, a) == page && PagesBefore(fs, b) == to + 1 && to > page
    ensures b > 0 && Puts(fs, a, b - 1, page, to)
  {
    IsPage(fs, a);
    IsPage(fs, b);
    LandsEarlier(fs, a, b);
    var c := b - 1;
    PutThere(fs, a, c, page, to);
  }

  lemma IsPage(fs: seq<File>, i: nat)
    requires i < |fs| && fs[i].kind.Page?
    ensures PagesBefore(fs, i) < |PagesOf(fs)|
  {
    PagesWithout(fs, i);
  }

  /** Taking out an earlier page file makes a later one a page earlier. */
  lemma LandsEarlier(fs: seq<File>, a: nat, b: nat)
    requires a < |fs| && b < |fs| && fs[a].kind.Page? && fs[b].kind.Page? && PagesBefore(fs, a) < PagesBefore(fs, b)
    ensures a < b && PagesBefore(Without(fs, a), b - 1) == PagesBefore(fs, b) - 1
  {
    InFileOrder(fs, a, b);
    LandsBefore(fs, a, b);
  }

  /** Putting page file `a` last. */
  lemma PutLast(fs: seq<File>, a: nat, page: nat, last: nat)
    requires a < |fs| && fs[a].kind.Page? && PagesBefore(fs, a) == page && last + 1 == |PagesOf(fs)|
    ensures Puts(fs, a, -1, page, last)
  {
    PagesWithout(fs, a);
    LandsLast(fs, a);
  }

  lemma PagesRelocated(fs: seq<File>, a: nat, c: nat, f: File)
    requires a < |fs| && c < |fs| && f.id == fs[a].id && f.kind == fs[a].kind
    ensures Ids(PagesOf(Inserted(Without(fs, a), c, f))) == PagesAfter(fs, a, c)
  {
    PagesWithout(fs, a);
    PagesInserted(Without(fs, a), c, f);
    if f.kind.Page? {
      IdsMoved(PagesOf(fs), PagesBefore(fs, a), PagesBefore(Without(fs, a), c), f);
    }
  }

  /** The files with a copy of file `a` at its new place. */
  lemma PutCopy(fs: seq<File>, a: nat, pos: int, copy: File) returns (placed: seq<File>)
    requires a < |fs| && copy.id == fs[a].id && copy.kind == fs[a].kind && a == IndexOf(fs, copy.id)
    ensures placed == Inserted(Without(fs, a), Slot(pos, |fs| - 1), copy)
    ensures Ids(PagesOf(placed)) == PagesAfter(fs, a, Slot(pos, |fs| - 1))
    ensures Ids(placed) == IdsAfter(fs, copy.id, pos)
    ensures forall f :: f in placed ==> f in fs || f == copy
  {
    var place := Slot(pos, |fs| - 1);
    placed := Inserted(Without(fs, a), place, copy);
    PagesRelocated(fs, a, place, copy);
    IdsPut(fs, a, place, copy);
    InsertedMembers(Without(fs, a), place, copy);
    forall f | f in Without(fs, a) ensures f in fs {}
  }

  lemma IndexFound(fs: seq<File>, byId: map<string, File>, id: string)
    requires IdsIndexed(fs, byId) && id in byId
    ensures IndexOf(fs, id) < |fs| && fs[IndexOf(fs, id)] == byId[id]
  {
    var f := byId[id];
    assert f in fs;
    var i :| 0 <= i < |fs| && fs[i] == f;
    assert IndexOf(fs, id) <= i;
  }

  class Editor {
    const dir: Dir
    const includes: map<string, seq<string>>

    constructor (dir: Dir, includes: map<string, seq<string>>)
      ensures this.dir == dir && this.includes == includes
    {
      this.dir, this.includes := dir, includes;
    }

    ghost function PageIds(): seq<string>
      reads this, dir
    {
      Ids(dir.pages)
    }

    /** No file is lost, doubled, renamed or changed in kind. */
    ghost predicate Holds(records: map<string, Record>)
      reads dir, (set f | f in dir.files), (set f | f in dir.pages)
      reads (set id | id in dir.byId :: dir.byId[id]), (set n | n in dir.byName :: dir.byName[n])
    {
      dir.Valid() && RecordsAre(dir.byId, records)
    }

    /** Take a file out and put a copy of its record at a place among the others. */
    method Relocate(id: string, pos: int, ghost records: map<string, Record>)
      requires Holds(records) && id in dir.byId
      modifies dir, (set f | f in dir.files)
      ensures Holds(records)
      ensures forall f :: f in dir.files ==> f in old(dir.files) || fresh(f)
      ensures var fs := old(dir.files);
        IndexOf(fs, id) < |fs| && PageIds() == PagesAfter(fs, IndexOf(fs, id), Slot(pos, |fs| - 1))
      ensures Ids(dir.files) == IdsAfter(old(dir.files), id, pos)
    {
      ghost var fs := dir.files;
      var copy := new File(id, dir.byId[id].name, dir.byId[id].kind);
      ghost var a := IndexOf(fs, id);
      IndexFound(fs, dir.byId, id);
      ghost var placed := PutCopy(fs, a, pos, copy);
      Replace(copy, pos, records, fs, a, placed);
    }

    /** Put a copy of a file's record at a new place instead of it. */
    method Replace(copy: File, pos: int, ghost records: map<string, Record>, ghost fs: seq<File>, ghost a: nat,
                   ghost placed: seq<File>)
      requires Holds(records) && copy.id in dir.byId && copy !in dir.files
      requires Record(copy.kind, copy.name) == records[copy.id]
      requires fs == dir.files && a == IndexOf(fs, copy.id) < |fs|
      requires placed == Inserted(Without(fs, a), Slot(pos, |fs| - 1), copy)
      modifies dir, copy, (set f | f in dir.files)
      ensures Holds(records) && dir.files == placed && PageIds() == Ids(PagesOf(placed))
    {
      TakeOut(copy.id, records);
      PagesAreFiles(dir.files);
      PutBack(copy, pos, records, placed);
    }

    /** Delete the record of a file. */
    method TakeOut(id: string, ghost records: map<string, Record>)
      requires Holds(records) && id in dir.byId
      modifies dir, (set f | f in dir.files)
      ensures Lacks(id, records)
      ensures var fs := old(dir.files); var a := IndexOf(fs, id);
        a < |fs| && fs[a].id == id && fs[a].kind == records[id].kind && dir.files == Without(fs, a)
      ensures forall f :: f in dir.files ==> f in old(dir.files)
    {
      IndexFound(dir.files, dir.byId, id);
      TakenOut(dir.files, IndexOf(dir.files, id), dir.byId, records);
      PagesAreFiles(dir.files);
      dir.DeleteFile(id);
    }

    /** All files are there but one, which can be put back. */
    ghost predicate Lacks(id: string, records: map<string, Record>)
      reads dir, (set f | f in dir.files), (set f | f in dir.pages)
      reads (set id | id in dir.byId :: dir.byId[id]), (set n | n in dir.byName :: dir.byName[n])
    {
      && dir.Valid() && id in records && id !in dir.byId && RecordsAre(dir.byId, records - {id})
      && records[id].name !in dir.byName
      && (records[id].kind.SharedAnno? ==> forall g :: g in dir.files ==> !g.kind.SharedAnno?)
    }

    /** Insert the copy at its new place. */
    method PutBack(copy: File, pos: int, ghost records: map<string, Record>, ghost placed: seq<File>)
      requires Lacks(copy.id, records) && Record(copy.kind, copy.name) == records[copy.id] && copy !in dir.files
      requires placed == Inserted(dir.files, Slot(pos, |dir.files|), copy)
      modifies dir, copy`pageNum, (set f | f in dir.pages)`pageNum
      ensures Holds(records) && dir.files == placed
    {
      InsertedMembers(dir.files, Slot(pos, |dir.files|), copy);
      RecordsPut(dir.byId, records, copy);
      var r, at := dir.InsertFile(copy, pos);
      assert dir.files == placed;
    }

    /**
     Unless it has been moved already, move a file to `pos`, and right behind it the files it includes that come later,
     and those they include: none is left behind but one that stands there already, or has been visited. The position
     behind the last of them is returned.
     */
    method MoveFile(id: string, pos: int, visited: set<string>, ghost records: map<string, Record>)
      returns (next: int, seen: set<string>, ghost moved: seq<string>)
      requires Holds(records)
      modifies dir, (set f | f in dir.files)
      ensures Holds(records)
      ensures seen == if id in visited || id !in records then visited + {id} else visited + Members(moved)
      ensures forall f :: f in dir.files ==> f in old(dir.files) || fresh(f)
      ensures id in visited || id !in records ==> PageIds() == old(PageIds())
      ensures id in visited || id !in records ==> Ids(dir.files) == old(Ids(dir.files)) && moved == [] && next == pos
      ensures id !in visited && id in records ==> var fs := old(dir.files);
        && IndexOf(fs, id) < |fs|
        && (NoPageIncluded(includes, records) ==>
              PageIds() == PagesAfter(fs, IndexOf(fs, id), Slot(pos, |fs| - 1)))
      ensures id !in visited && id in records ==> Behind(next, pos, moved)
      ensures id !in visited && id in records ==>
        Arrived(old(Ids(dir.files)), Ids(dir.files), IndexOf(old(dir.files), id), pos, moved, visited, includes,
                NamesOf(records))
      decreases |records.Keys - visited|, 1
    {
      next, seen, moved := pos, visited + {id}, [];
      if id in visited { return; }
      var f := dir.IdToFile(id);
      if f == null { return; }
      ghost var fs, a := dir.files, IndexOf(dir.files, id);
      FileFound(fs, dir.byId, id, pos);
      ghost var pages := PagesAfter(fs, a, Slot(pos, |fs| - 1));
      next, seen, moved := MoveKnown(id, pos, visited, records, fs, a, pages, Ids(fs), IdsAfter(fs, id, pos));
    }

    /** Move a file that is there and has not been moved. */
    method MoveKnown(id: string, pos: int, visited: set<string>, ghost records: map<string, Record>,
                     ghost fs: seq<File>, ghost a: nat, ghost pages: seq<string>, ghost s: seq<string>,
                     ghost t: seq<string>)
      returns (next: int, seen: set<string>, ghost moved: seq<string>)
      requires Holds(records) && id in records && id !in visited
      requires fs == dir.files && a == IndexOf(fs, id) < |fs| && s == Ids(fs)
      requires pages == PagesAfter(fs, a, Slot(pos, |fs| - 1))
      requires t == IdsAfter(fs, id, pos) && PutAt(s, t, id, a, pos)
      modifies dir, (set f | f in dir.files)
      ensures Holds(records) && seen == visited + Members(moved)
      ensures forall f :: f in dir.files ==> f in fs || fresh(f)
      ensures NoPageIncluded(includes, records) ==> PageIds() == pages
      ensures Behind(next, pos, moved)
      ensures Arrived(s, Ids(dir.files), a, pos, moved, visited, includes, NamesOf(records))
      decreases |records.Keys - visited|, 0
    {
      ghost var names, after, more, with := NamesOf(records), pos + 1, [], visited + {id};
      Relocate(id, pos, records);
      assert PageIds() == pages;
      Fewer(records.Keys, visited, id);
      next, seen, more := MoveBehind(id, pos, after, visited + {id}, records, t);
      moved := [id] + more;
      SeenFirst(visited, id, more);
      CollectedArrived(s, t, Ids(dir.files), id, a, pos, after, next, more, visited, with, includes, names);
    }

    /** Unless the file has been put at the end, move the files it includes right behind it. */
    method MoveBehind(id: string, pos: int, ghost after: int, visited: set<string>, ghost records: map<string, Record>,
                      ghost s: seq<string>)
      returns (next: int, seen: set<string>, ghost moved: seq<string>)
      requires Holds(records) && s == Ids(dir.files) && after == pos + 1
      modifies dir, (set f | f in dir.files)
      ensures Holds(records) && seen == visited + Members(moved)
      ensures NoPageIncluded(includes, records) ==> PageIds() == old(PageIds())
      ensures forall f :: f in dir.files ==> f in old(dir.files) || fresh(f)
      ensures pos < 0 ==> next == pos && moved == [] && Ids(dir.files) == s
      ensures pos >= 0 ==> Behind(next, after, moved)
      ensures pos >= 0 ==>
        Collected(s, Ids(dir.files), id, IncludedNames(includes, id), after, moved, visited, includes,
                  NamesOf(records))
      decreases |records.Keys - visited|, 6
    {
      next, seen, moved := pos, visited, [];
      SeenNone(visited);
      if pos < 0 { return; }
      next := pos + 1;
      if id in includes {
        next, seen, moved := MoveIncluded(id, next, visited, records, s);
      } else {
        CollectedNone(s, id, next, visited, includes, NamesOf(records));
      }
    }

    /** Move the files a file includes to `pos` when they come later. */
    method MoveIncluded(id: string, pos: nat, visited: set<string>, ghost records: map<string, Record>,
                        ghost s: seq<string>)
      returns (next: int, seen: set<string>, ghost moved: seq<string>)
      requires Holds(records) && id in includes && s == Ids(dir.files)
      modifies dir, (set f | f in dir.files)
      ensures Holds(records) && seen == visited + Members(moved)
      ensures NoPageIncluded(includes, records) ==> PageIds() == old(PageIds())
      ensures forall f :: f in dir.files ==> f in old(dir.files) || fresh(f)
      ensures Behind(next, pos, moved)
      ensures Collected(s, Ids(dir.files), id, IncludedNames(includes, id), pos, moved, visited, includes,
                        NamesOf(records))
      decreases |records.Keys - visited|, 5
    {
      next, seen, moved := pos, visited, [];
      var k := 0;
      ghost var names, pages, plain := NamesOf(records), PageIds(), NoPageIncluded(includes, records);
      UnderwayFrom(s, id, pos, visited, names, pages, plain);
      while k < |includes[id]|
        invariant Holds(records) && Underway(s, id, k, pos, next, moved, visited, seen, names, pages, plain)
        invariant forall f :: f in dir.files ==> f in old(dir.files) || fresh(f)
      {
        NoMore(records.Keys, visited, seen);
        next, seen, moved := MoveNext(id, k, next, seen, records, s, pos, moved, visited, names, pages, plain);
        k := k + 1;
      }
      UnderwayTo(s, id, k, pos, next, moved, visited, seen, names, pages, plain);
    }

    /** The first `k` of the files included have been dealt with. */
    ghost predicate Underway(s: seq<string>, id: string, k: int, pos: nat, next: int, moved: seq<string>,
                             visited: set<string>, seen: set<string>, names: map<string, string>,
                             pages: seq<string>, plain: bool)
      reads this, dir
    {
      && (plain ==> PageIds() == pages)
      && id in includes && 0 <= k <= |includes[id]|
      && Collected(s, Ids(dir.files), id, Members(includes[id][..k]), pos, moved, visited, includes, names)
      && seen == visited + Members(moved) && Behind(next, pos, moved)
    }

    lemma UnderwayFrom(s: seq<string>, id: string, pos: nat, visited: set<string>, names: map<string, string>,
                       pages: seq<string>, plain: bool)
      requires id in includes && s == Ids(dir.files) && PageIds() == pages
      ensures Underway(s, id, 0, pos, pos, [], visited, visited, names, pages, plain)
    {
      SeenNone(visited);
      CollectedNone(s, id, pos, visited, includes, names);
    }

    lemma UnderwayTo(s: seq<string>, id: string, k: int, pos: nat, next: int, moved: seq<string>,
                     visited: set<string>, seen: set<string>, names: map<string, string>, pages: seq<string>,
                     plain: bool)
      requires Underway(s, id, k, pos, next, moved, visited, seen, names, pages, plain) && k == |includes[id]|
      ensures Collected(s, Ids(dir.files), id, IncludedNames(includes, id), pos, moved, visited, includes, names)
    {
      assert includes[id][..k] == includes[id];
    }

    /** Move the next of the files included, `moved` having been gathered at `pos` before. */
    method MoveNext(id: string, k: nat, at: nat, before: set<string>, ghost records: map<string, Record>,
                    ghost s: seq<string>, ghost pos: nat, ghost moved: seq<string>, ghost visited: set<string>,
                    ghost names: map<string, string>, ghost pages: seq<string>, ghost plain: bool)
      returns (next: int, seen: set<string>, ghost all: seq<string>)
      requires Holds(records) && id in includes && k < |includes[id]|
      requires Underway(s, id, k, pos, at, moved, visited, before, names, pages, plain)
      requires names == NamesOf(records) && plain == NoPageIncluded(includes, records)
      modifies dir, (set f | f in dir.files)
      ensures Holds(records) && Underway(s, id, k + 1, pos, next, all, visited, seen, names, pages, plain)
      ensures forall f :: f in dir.files ==> f in old(dir.files) || fresh(f)
      decreases |records.Keys - before|, 4
    {
      MembersNext(includes[id], k);
      ghost var r, one, more := Ids(dir.files), {includes[id][k]}, [];
      ghost var wanted := Members(includes[id][..k]);
      next, seen, more := MoveChild(id, k, at, before, records, r, one);
      ghost var t := Ids(dir.files);
      all := moved + more;
      CollectedMore(s, r, t, id, wanted, one, pos, at, next, moved, more, visited, before, includes, names);
      SeenMore(visited, moved, more);
    }

    /** Move one included file to `pos` when it comes later. */
    method MoveChild(id: string, k: nat, pos: nat, visited: set<string>, ghost records: map<string, Record>,
                     ghost s: seq<string>, ghost one: set<string>)
      returns (next: int, seen: set<string>, ghost moved: seq<string>)
      requires Holds(records) && id in includes && k < |includes[id]|
      requires s == Ids(dir.files) && one == {includes[id][k]}
      modifies dir, (set f | f in dir.files)
      ensures Holds(records) && seen == visited + Members(moved)
      ensures NoPageIncluded(includes, records) ==> PageIds() == old(PageIds())
      ensures forall f :: f in dir.files ==> f in old(dir.files) || fresh(f)
      ensures Behind(next, pos, moved)
      ensures Collected(s, Ids(dir.files), id, one, pos, moved, visited, includes, NamesOf(records))
      decreases |records.Keys - visited|, 3
    {
      next, seen, moved := pos, visited, [];
      SeenNone(visited);
      ghost var names := NamesOf(records);
      CollectedNone(s, id, pos, visited, includes, names);
      var child, at := FindChild(id, k, records);
      if child != null {
        if at > pos {
          next, seen, moved := MoveUp(child.id, id, at, pos, visited, records, s);
        } else {
          NotBehind(s, at, pos, visited);
        }
      }
      CollectedOne(s, Ids(dir.files), id, includes[id][k], pos, moved, visited, includes, names);
    }

    /** The file included under a name, and its position. */
    method FindChild(id: string, k: nat, ghost records: map<string, Record>) returns (child: File?, at: int)
      requires Holds(records) && id in includes && k < |includes[id]|
      ensures child != null ==> child.id in records
      ensures child != null && NoPageIncluded(includes, records) ==> !records[child.id].kind.Page?
      ensures child != null ==> 0 <= at < |dir.files| && dir.files[at].id == child.id
      ensures child != null ==> IncludedBy(includes, [id], records[child.id].name)
      ensures forall c :: c in Ids(dir.files) && c in records && records[c].name == includes[id][k] ==>
        child != null && c == child.id
    {
      at := -1;
      child := dir.NameToFile(includes[id][k]);
      NamedOnly(includes[id][k], child, records);
      if child == null { return; }
      assert records[child.id].name == includes[id][k];
      IncludedDirectly(includes, id, k);
      at := dir.FilePos(child);
    }

    /** Only the file found under a name has it. */
    lemma NamedOnly(name: string, child: File?, records: map<string, Record>)
      requires Holds(records) && (child == null ==> forall g :: g in dir.files ==> g.name != name)
      requires child != null ==> child in dir.files && child.name == name
      ensures forall c :: c in Ids(dir.files) && c in records && records[c].name == name ==>
        child != null && c == child.id
    {
      forall c | c in Ids(dir.files) && c in records && records[c].name == name ensures child != null && c == child.id {
        var f := dir.byId[c];
        assert f in dir.files && f.name == name;
      }
    }

    /** Move a file that is included by file `id` and comes after `pos` up to there. */
    method MoveUp(child: string, ghost id: string, ghost at: nat, pos: nat, visited: set<string>,
                  ghost records: map<string, Record>, ghost s: seq<string>)
      returns (next: int, seen: set<string>, ghost moved: seq<string>)
      requires Holds(records) && child in records && (NoPageIncluded(includes, records) ==> !records[child].kind.Page?)
      requires pos < at < |dir.files| && dir.files[at].id == child && IncludedBy(includes, [id], records[child].name)
      requires s == Ids(dir.files)
      modifies dir, (set f | f in dir.files)
      ensures Holds(records) && seen == visited + Members(moved)
      ensures NoPageIncluded(includes, records) ==> PageIds() == old(PageIds())
      ensures forall f :: f in dir.files ==> f in old(dir.files) || fresh(f)
      ensures Behind(next, pos, moved) && (child in visited || child in moved)
      ensures Collected(s, Ids(dir.files), id, {}, pos, moved, visited, includes, NamesOf(records))
      decreases |records.Keys - visited|, 2
    {
      ghost var names := NamesOf(records);
      FileFound(dir.files, dir.byId, child, pos);
      assert s[at] == child && IndexOf(dir.files, child) == at;
      CollectedNone(s, id, pos, visited, includes, names);
      next, seen, moved := MoveFile(child, pos, visited, records);
      if child in visited {
        SeenAgain(visited, child);
      } else {
        ArrivedCollected(s, Ids(dir.files), at, id, pos, moved, visited, includes, names);
      }
    }

    /** Page `page` is the file at place `a`, and the record of its id is a page's. */
    lemma PagePlace(page: nat, records: map<string, Record>) returns (a: nat)
      requires Holds(records) && page < |dir.pages|
      ensures var id := PageIds()[page];
        && id in records && dir.byId[id] == dir.pages[page] && dir.pages[page].pageNum == page
        && a == IndexOf(dir.files, id) < |dir.files|
        && dir.files[a] == dir.pages[page] && dir.files[a].kind.Page? && PagesBefore(dir.files, a) == page
    {
      var f := dir.pages[page];
      PagesAreFiles(dir.files);
      assert f in dir.pages;
      IndexFound(dir.files, dir.byId, f.id);
      a := IndexOf(dir.files, f.id);
      PagesWithout(dir.files, a);
      PagesDistinct(dir.files);
    }

    /** The position to move page `page` to so that it becomes page `to`. */
    method Target(page: nat, to: int, ghost a: nat, ghost goal: nat) returns (pos: int)
      requires dir.Valid() && page < |dir.pages| && page != to && goal == Clamped(to, |dir.pages|)
      requires a < |dir.files| && dir.files[a].kind.Page? && PagesBefore(dir.files, a) == page
      ensures Puts(dir.files, a, pos, page, goal)
    {
      if 0 <= to < |dir.pages| {
        if to > page {
          if to < |dir.pages| - 1 {
            var next := dir.PagePos(to + 1);
            pos := next - 1;
            PutLater(dir.files, a, next, page, goal);
            return;
          }
        } else {
          pos := dir.PagePos(to);
          PutEarlier(dir.files, a, pos, page, goal);
          return;
        }
      }
      pos := -1;
      PutLast(dir.files, a, page, goal);
    }

    /** Make page `page` page `to`; a target outside the document means the last page. */
    method MovePage(page: int, to: int, ghost records: map<string, Record>) returns (ok: bool)
      requires Holds(records)
      modifies dir, (set f | f in dir.files)
      ensures Holds(records) && (ok <==> page == to || 0 <= page < |old(PageIds())|)
      ensures forall f :: f in dir.files ==> f in old(dir.files) || fresh(f)
      ensures page == to || !ok ==> PageIds() == old(PageIds())
      ensures var n := |old(PageIds())|; page != to && ok && NoPageIncluded(includes, records) ==>
        PageIds() == Moved(old(PageIds()), page, Clamped(to, n))
    {
      if page == to { return true; }
      if page < 0 || page >= |dir.pages| { return false; }
      ghost var a := PagePlace(page, records);
      var id := dir.pages[page].id;
      var pos := Target(page, to, a, Clamped(to, |dir.pages|));
      var next, seen, moved := MoveFile(id, pos, {}, records);
      ok := true;
    }

    /** The ids of the pages listed, as far as there are such pages; a negative number is an error. */
    method PageIdsOf(list: seq<int>) returns (ok: bool, ids: seq<string>, ghost ps: seq<int>)
      requires dir.Valid() && Sorted(list)
      ensures ok <==> forall i :: 0 <= i < |list| ==> list[i] >= 0
      ensures ok ==> Positions(ps, |dir.pages|) && ids == Listed(PageIds(), ps)
      ensures ok ==> Sorted(ps) && Within(ps, list, |dir.pages|)
    {
      ids, ps := [], [];
      ghost var s := PageIds();
      for i := 0 to |list|
        invariant forall k :: 0 <= k < i ==> list[k] >= 0
        invariant Selecting(s, list, i, ids, ps)
      {
        if list[i] < 0 { return false, ids, ps; }
        SelectingNext(s, list, i, ids, ps);
        if list[i] < |dir.pages| {
          ids := ids + [dir.pages[list[i]].id];
          ps := ps + [list[i]];
        }
      }
      SplitAt(list, |list|);
      ok := true;
    }

    /** Make page `page` page `to`, or the last for a target outside the document. */
    method MoveWithin(page: int, to: int, ghost records: map<string, Record>)
      requires Holds(records)
      requires 0 <= page < |dir.pages|
      modifies dir, (set f | f in dir.files)
      ensures Holds(records) && forall f :: f in dir.files ==> f in old(dir.files) || fresh(f)
      ensures NoPageIncluded(includes, records) ==>
        PageIds() == Moved(old(PageIds()), page, Clamped(to, |old(PageIds())|))
    {
      Unmoved(PageIds(), page);
      var ok := MovePage(page, to, records);
    }

    /** The number of the page with an id. */
    method PageNum(id: string, ghost records: map<string, Record>) returns (page: int)
      requires Holds(records) && id in records && records[id].kind.Page?
      ensures 0 <= page < |PageIds()| && PageIds()[page] == id && id in PageIds()
      ensures forall p :: 0 <= p < |PageIds()| && PageIds()[p] == id ==> p == page
    {
      PagesThere(records);
      forall p | 0 <= p < |PageIds()| && PageIds()[p] == id ensures id in dir.byId && dir.byId[id].pageNum == p {
        var a := PagePlace(p, records);
      }
      var frec := dir.IdToFile(id);
      page := frec.pageNum;
    }

    /** One step towards the front: the page goes as far as asked, but not before the least page still free. */
    method MoveEarlier(id: string, shift: int, least: int, ghost records: map<string, Record>) returns (free: int)
      requires Holds(records) && id in records && records[id].kind.Page?
      modifies dir, (set f | f in dir.files)
      ensures Holds(records) && forall f :: f in dir.files ==> f in old(dir.files) || fresh(f)
      ensures id in old(PageIds())
      ensures var s := old(PageIds()); var p := PlaceOf(s, id);
        free == EarlierFree(p, shift, least) &&
        (NoPageIncluded(includes, records) ==> PageIds() == Moved(s, p, Clamped(EarlierTo(p, shift, least), |s|)))
    {
      ghost var s := PageIds();
      var page := PageNum(id, records);
      free := least;
      var to := page + shift;
      if to < free {
        to := free;
        free := free + 1;
      }
      assert PlaceOf(s, id) == page;
      MoveWithin(page, to, records);
    }

    /** One step towards the end. */
    method MoveLater(id: string, shift: int, most: int, ghost records: map<string, Record>) returns (free: int)
      requires Holds(records) && id in records && records[id].kind.Page?
      modifies dir, (set f | f in dir.files)
      ensures Holds(records) && forall f :: f in dir.files ==> f in old(dir.files) || fresh(f)
      ensures id in old(PageIds())
      ensures var s := old(PageIds()); var p := PlaceOf(s, id);
        free == LaterFree(p, shift, most) &&
        (NoPageIncluded(includes, records) ==> PageIds() == Moved(s, p, Clamped(LaterTo(p, shift, most), |s|)))
    {
      ghost var s := PageIds();
      var page := PageNum(id, records);
      free := most;
      var to := page + shift;
      if to > free {
        to := free;
        free := free - 1;
      }
      assert PlaceOf(s, id) == page;
      MoveWithin(page, to, records);
    }

    /**
     Move the listed pages by `shift`, one after another. When no page is
     included, those not listed keep their order, and in a list without repeats
     each page goes as far as asked, but none passes another of them and none
     leaves the document. A negative page number is an error, before anything
     is moved.
     */
    method MovePages(list: seq<int>, shift: int, ghost records: map<string, Record>)
      returns (ok: bool, ghost ps: seq<int>)
      requires Holds(records)
      modifies dir, (set f | f in dir.files)
      ensures Holds(records) && forall f :: f in dir.files ==> f in old(dir.files) || fresh(f)
      ensures ok <==> shift == 0 || forall i :: 0 <= i < |list| ==> list[i] >= 0
      ensures !ok ==> PageIds() == old(PageIds())
      ensures ok ==> Positions(ps, |old(PageIds())|)
      ensures shift != 0 && ok ==> Sorted(ps) && Within(ps, list, |old(PageIds())|)
      ensures forall id :: id in PageIds() <==> id in old(PageIds())
      ensures ok && NoPageIncluded(includes, records) ==> PageIds() == Shifted(old(PageIds()), ps, shift)
      ensures ok && NoPageIncluded(includes, records) ==> AsAsked(list, shift, ps, old(PageIds()), PageIds())
    {
      ok, ps := true, [];
      ghost var s := PageIds();
      PagesDiffer(records);
      NothingAsked(list, s);
      PagesThere(records);
      if shift == 0 { return; }
      var sorted := SortList(list);
      SameSigns(list, sorted);
      var ids;
      ok, ids, ps := PageIdsOf(sorted);
      if !ok { return; }
      ListedPages(s, list, ps, shift);
      MoveAll(ids, shift, ps, records);
      PagesThere(records);
    }

    /** Towards the front or towards the end. */
    method MoveAll(ids: seq<string>, shift: int, ghost ps: seq<int>, ghost records: map<string, Record>)
      requires Holds(records) && shift != 0
      requires Positions(ps, |dir.pages|) && ids == Listed(PageIds(), ps)
      modifies dir, (set f | f in dir.files)
      ensures Holds(records) && forall f :: f in dir.files ==> f in old(dir.files) || fresh(f)
      ensures NoPageIncluded(includes, records) ==> PageIds() == Shifted(old(PageIds()), ps, shift)
    {
      ghost var s := PageIds();
      ListedThere(s, ps);
      PagesThere(records);
      ShiftedIs(s, ps, shift, ids);
      if shift < 0 { MoveAllEarlier(ids, shift, records); } else { MoveAllLater(ids, shift, records); }
    }

    /** The pages are the files that are recorded as pages. */
    lemma PagesThere(records: map<string, Record>)
      requires Holds(records)
      ensures forall id :: id in PageIds() <==> id in records && records[id].kind.Page?
    {
      PagesAreFiles(dir.files);
      forall id ensures id in PageIds() <==> id in records && records[id].kind.Page? {
        if id in PageIds() {
          var p :| 0 <= p < |dir.pages| && PageIds()[p] == id;
          var a := PagePlace(p, records);
        }
        if id in records && records[id].kind.Page? {
          var f := dir.byId[id];
          assert f in dir.pages;
          var p :| 0 <= p < |dir.pages| && dir.pages[p] == f;
          assert PageIds()[p] == id;
        }
      }
    }

    /** No two pages have one id. */
    lemma PagesDiffer(records: map<string, Record>)
      requires Holds(records)
      ensures Different(PageIds())
    {
      forall i, j | 0 <= i < j < |PageIds()| ensures PageIds()[i] != PageIds()[j] {
        var a := PagePlace(i, records);
        var b := PagePlace(j, records);
      }
    }

    /** Towards the front, beginning with the first page. */
    method MoveAllEarlier(ids: seq<string>, shift: int, ghost records: map<string, Record>)
      requires Holds(records) && ArePages(ids, records)
      modifies dir, (set f | f in dir.files)
      ensures Holds(records) && forall f :: f in dir.files ==> f in old(dir.files) || fresh(f)
      ensures NoPageIncluded(includes, records) ==>
        PageIds() == ShiftedEarlier(old(PageIds()), ids, shift, 0)
    {
      ghost var s, r, plain := PageIds(), PageIds(), NoPageIncluded(includes, records);
      var minPage := 0;
      for k := 0 to |ids|
        invariant Holds(records) && forall f :: f in dir.files ==> f in old(dir.files) || fresh(f)
        invariant PageIds() == r
        invariant plain ==> ShiftedEarlier(r, ids[k..], shift, minPage) == ShiftedEarlier(s, ids, shift, 0)
      {
        ghost var was, least := r, minPage;
        minPage := MoveEarlier(ids[k], shift, minPage, records);
        r := PageIds();
        EarlierGoesOn(plain, was, r, ids, k, shift, least, minPage);
      }
    }

    /** Towards the end, beginning with the last. */
    method MoveAllLater(ids: seq<string>, shift: int, ghost records: map<string, Record>)
      requires Holds(records) && ArePages(ids, records)
      modifies dir, (set f | f in dir.files)
      ensures Holds(records) && forall f :: f in dir.files ==> f in old(dir.files) || fresh(f)
      ensures NoPageIncluded(includes, records) ==>
        PageIds() == ShiftedLater(old(PageIds()), ids, shift, |old(PageIds())| - 1)
    {
      ghost var s, r, last, plain := PageIds(), PageIds(), |dir.pages| - 1, NoPageIncluded(includes, records);
      var maxPage := |dir.pages| - 1;
      assert ids[..|ids|] == ids;
      for k := |ids| downto 0
        invariant Holds(records) && forall f :: f in dir.files ==> f in old(dir.files) || fresh(f)
        invariant PageIds() == r
        invariant plain ==> ShiftedLater(r, ids[..k], shift, maxPage) == ShiftedLater(s, ids, shift, last)
      {
        ghost var was, most := r, maxPage;
        maxPage := MoveLater(ids[k], shift, maxPage, records);
        r := PageIds();
        LaterGoesOn(plain, was, r, ids, k, shift, most, maxPage);
      }
    }
  }

  /** The entries of a list that are pages of a document of `n` pages, each as often as it is listed. */
  ghost predicate Within(ps: seq<int>, list: seq<int>, n: nat) {
    forall p :: multiset(ps)[p] == if p < n then multiset(list)[p] else 0
  }

  ghost predicate ArePages(ids: seq<string>, records: map<string, Record>) {
    forall id :: id in ids ==> id in records && records[id].kind.Page?
  }

  /**
   No page is lost or doubled, and those not listed keep their order. Those of a list without repeats keep theirs, and
   go as far as asked without passing one another or the ends.
   */
  ghost predicate AsAsked(list: seq<int>, shift: int, ps: seq<int>, s: seq<string>, t: seq<string>)
    requires Positions(ps, |s|)
  {
    && Stays(s, t, Chosen(s, ps))
    && (NoRepeats(list) ==> InOrder(s, t, ps))
    && (NoRepeats(list) && shift < 0 ==> MovedEarlier(s, t, ps, shift, |ps|))
    && (NoRepeats(list) && shift > 0 ==> MovedLater(s, t, ps, shift, 0))
  }

  /** What becomes of the pages of a list, sorted. */
  lemma ListedPages(s: seq<string>, list: seq<int>, ps: seq<int>, shift: int)
    requires Positions(ps, |s|) && Different(s) && Sorted(ps) && Within(ps, list, |s|)
    ensures AsAsked(list, shift, ps, s, Shifted(s, ps, shift))
  {
    ShiftedPages(s, ps, shift);
    if NoRepeats(list) { SelectedOnce(list, ps, |s|); }
  }

  /** A move by no page at all. */
  lemma NothingAsked(list: seq<int>, s: seq<string>)
    requires Different(s)
    ensures AsAsked(list, 0, [], s, Shifted(s, [], 0))
  {
    ShiftedPages(s, [], 0);
  }

  /** The pages selected by the first `i` numbers of the list. */
  ghost predicate Selecting(s: seq<string>, list: seq<int>, i: nat, ids: seq<string>, ps: seq<int>) {
    && i <= |list| && Positions(ps, |s|) && ids == Listed(s, ps)
    && Sorted(ps) && Within(ps, list[..i], |s|)
  }

  lemma SelectingNext(s: seq<string>, list: seq<int>, i: nat, ids: seq<string>, ps: seq<int>)
    requires Selecting(s, list, i, ids, ps) && Sorted(list) && i < |list| && list[i] >= 0
    ensures list[i] >= |s| ==> Selecting(s, list, i + 1, ids, ps)
    ensures list[i] < |s| ==> Selecting(s, list, i + 1, ids + [s[list[i]]], ps + [list[i]])
  {
    OneMore(list, i, ps, |s|);
    if list[i] < |s| { ListedNext(s, ps, list[i]); }
  }

  lemma OneMore(list: seq<int>, i: nat, ps: seq<int>, n: nat)
    requires Sorted(list) && i < |list| && Sorted(ps) && Within(ps, list[..i], n)
    ensures Within(if list[i] < n then ps + [list[i]] else ps, list[..i + 1], n)
    ensures Sorted(ps + [list[i]])
  {
    assert list[..i + 1] == list[..i] + [list[i]];
    forall k | 0 <= k < |ps| ensures ps[k] <= list[i] {
      assert multiset(ps)[ps[k]] > 0;
      assert ps[k] in multiset(list[..i]);
      assert ps[k] in list[..i];
    }
  }

  lemma TakenOut(fs: seq<File>, a: nat, byId: map<string, File>, records: map<string, Record>)
    requires Distinct(fs) && OneSharedAnno(fs) && a < |fs| && RecordsAre(byId, records)
    ensures RecordsAre(byId - {fs[a].id}, records - {fs[a].id})
    ensures forall g :: g in Without(fs, a) ==> g in fs
    ensures fs[a].kind.SharedAnno? ==> forall g :: g in Without(fs, a) ==> !g.kind.SharedAnno?
  {
    WithoutMembers(fs, a);
  }

  lemma RecordsPut(byId: map<string, File>, records: map<string, Record>, copy: File)
    requires copy.id in records && RecordsAre(byId, records - {copy.id})
    requires Record(copy.kind, copy.name) == records[copy.id]
    ensures RecordsAre(byId[copy.id := copy], records)
  {
  }

  lemma Fewer(all: set<string>, visited: set<string>, id: string)
    requires id in all && id !in visited
    ensures |all - (visited + {id})| < |all - visited|
  {
    assert all - visited == (all - (visited + {id})) + {id};
  }

  lemma NoMore(all: set<string>, visited: set<string>, seen: set<string>)
    requires visited <= seen
    ensures |all - seen| <= |all - visited|
  {
    SubsetSize(all - seen, all - visited);
  }

  lemma SubsetSize<T>(a: set<T>, b: set<T>)
    requires a <= b
    ensures |a| <= |b|
  {
    assert b == a + (b - a);
  }

  ghost predicate Sorted(s: seq<int>) {
    forall i, j :: 0 <= i < j < |s| ==> s[i] <= s[j]
  }

  ghost predicate NoRepeats(s: seq<int>) {
    forall i, j :: 0 <= i < j < |s| ==> s[i] != s[j]
  }

  /** Sort a list of numbers. */
  method SortList(list: seq<int>) returns (sorted: seq<int>)
    ensures multiset(sorted) == multiset(list) && Sorted(sorted)
  {
    sorted := [];
    for i := 0 to |list|
      invariant multiset(sorted) == multiset(list[..i])
      invariant forall j, k :: 0 <= j < k < |sorted| ==> sorted[j] <= sorted[k]
    {
      assert list[..i + 1] == list[..i] + [list[i]];
      var at := 0;
      while at < |sorted| && sorted[at] <= list[i]
        invariant 0 <= at <= |sorted| && forall k :: 0 <= k < at ==> sorted[k] <= list[i]
        decreases |sorted| - at
      {
        at := at + 1;
      }
      MultisetInserted(sorted, at, list[i]);
      sorted := Inserted(sorted, at, list[i]);
    }
    assert list[..|list|] == list;
  }

  lemma SameSigns(list: seq<int>, sorted: seq<int>)
    requires multiset(sorted) == multiset(list)
    ensures (forall i :: 0 <= i < |sorted| ==> sorted[i] >= 0) <==> forall i :: 0 <= i < |list| ==> list[i] >= 0
  {
    forall i | 0 <= i < |list| ensures list[i] in sorted { assert list[i] in multiset(sorted); }
    forall i | 0 <= i < |sorted| ensures sorted[i] in list { assert sorted[i] in multiset(list); }
  }

  /** Of a list without repeats each page is selected once. */
  lemma SelectedOnce(list: seq<int>, ps: seq<int>, n: nat)
    requires NoRepeats(list) && Positions(ps, n) && Sorted(ps) && Within(ps, list, n)
    ensures Selection(ps, n)
  {
    forall i, j | 0 <= i < j < |ps| ensures ps[i] < ps[j] {
      if ps[i] == ps[j] {
        Twice(ps, i, j);
        Once(list, ps[i]);
      }
    }
  }

  lemma Twice(s: seq<int>, i: nat, j: nat)
    requires i < j < |s| && s[i] == s[j]
    ensures multiset(s)[s[i]] >= 2
  {
    SplitAt(s, j);
    assert s[i] in s[..j] && s[j] in s[j..];
    assert multiset(s) == multiset(s[..j]) + multiset(s[j..]);
  }

  lemma {:induction false} Once(s: seq<int>, x: int)
    requires NoRepeats(s)
    ensures multiset(s)[x] <= 1
  {
    if s != [] {
      var n := |s| - 1;
      Once(s[..n], x);
      LastApart(s);
      if s[n] == x { assert x !in s[..n]; }
    }
  }
}
