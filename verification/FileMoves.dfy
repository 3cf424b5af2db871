/** Moving a file together with the files it includes, seen in the list of ids. */
module FileMoves {
  import opened PageMoves
  import opened Sequences
  import opened Directory

  ghost function Members(ids: seq<string>): set<string> {
    set id | id in ids
  }

  /** The ids seen when files are moved after those moved before. */
  lemma SeenMore(visited: set<string>, a: seq<string>, b: seq<string>)
    ensures visited + Members(a) + Members(b) == visited + Members(a + b)
  {
  }

  lemma SeenFirst(visited: set<string>, id: string, more: seq<string>)
    ensures visited + {id} + Members(more) == visited + Members([id] + more) && |[id] + more| == 1 + |more|
  {
  }

  lemma SeenNone(visited: set<string>)
    ensures visited == visited + Members([])
  {
  }

  lemma SeenAgain(visited: set<string>, id: string)
    requires id in visited
    ensures visited + {id} == visited + Members([])
  {
  }

  /** One of the files `sources` includes the name `name`. */
  ghost predicate IncludedBy(includes: map<string, seq<string>>, sources: seq<string>, name: string) {
    exists j :: 0 <= j < |sources| && sources[j] in includes && name in includes[sources[j]]
  }

  /**
   The files `moved`, all of them from position `pos` of `s` on, have been gathered there in this order; the others
   keep their order. Each of them is included by file `id` or by one gathered before it, and none was visited.
   */
  ghost predicate Pulled(s: seq<string>, r: seq<string>, id: string, pos: int, moved: seq<string>, visited: set<string>,
                         includes: map<string, seq<string>>, names: map<string, string>) {
    var p := Slot(pos, |s|);
    && Different(moved) && r == s[..p] + moved + Rest(s[p..], Members(moved))
    && (forall k :: 0 <= k < |moved| ==> moved[k] in s[p..] && moved[k] !in visited)
    && (forall k :: 0 <= k < |moved| ==> Comes(moved, k, [id], includes, names))
  }

  /** File `k` of those moved is included by one of `sources` or by one moved before it. */
  ghost predicate Comes(moved: seq<string>, k: int, sources: seq<string>, includes: map<string, seq<string>>,
                        names: map<string, string>) {
    0 <= k < |moved| && moved[k] in names && IncludedBy(includes, sources + moved[..k], names[moved[k]])
  }

  /**
   File `id`, at place `a` of `s`, has been put at `pos` of the others, and right behind it those of the files
   behind that place that it includes, directly or through others; all other files keep their order.
   */
  ghost predicate Landed(s: seq<string>, r: seq<string>, a: nat, pos: int, moved: seq<string>, visited: set<string>,
                         includes: map<string, seq<string>>, names: map<string, string>) {
    && a < |s| && moved != [] && moved[0] == s[a] && Different(moved)
    && var rest := Without(s, a); var p := Slot(pos, |rest|);
    && r == rest[..p] + moved + Rest(rest[p..], Members(moved))
    && (forall k :: 1 <= k < |moved| ==> moved[k] in rest[p..])
    && (forall k :: 0 <= k < |moved| ==> moved[k] !in visited)
    && (forall k :: 1 <= k < |moved| ==> Comes(moved, k, [], includes, names))
  }

  lemma {:induction false} RestNone<T>(s: seq<T>, chosen: set<T>)
    requires forall x :: x in s ==> x !in chosen
    ensures Rest(s, chosen) == s
    decreases |s|
  {
    if s != [] {
      LastApart(s);
      var front, last := s[..|s| - 1], s[|s| - 1];
      assert last in s;
      RestNone(front, chosen);
      RestPush(front, last, chosen);
    }
  }

  /** Leaving out two sets one after the other leaves out both. */
  lemma {:induction false} RestTwice<T>(s: seq<T>, a: set<T>, b: set<T>)
    ensures Rest(Rest(s, a), b) == Rest(s, a + b)
    decreases |s|
  {
    if s != [] {
      LastApart(s);
      var front, last := s[..|s| - 1], s[|s| - 1];
      RestTwice(front, a, b);
      RestPush(front, last, a);
      RestPush(front, last, a + b);
      if last in a {
        assert Rest(front, a) + [] == Rest(front, a);
      } else {
        RestPush(Rest(front, a), last, b);
      }
    }
  }

  lemma {:induction false} RestMembers<T>(s: seq<T>, chosen: set<T>)
    ensures forall x :: x in Rest(s, chosen) <==> x in s && x !in chosen
    decreases |s|
  {
    if s != [] {
      LastApart(s);
      RestMembers(s[..|s| - 1], chosen);
      RestPush(s[..|s| - 1], s[|s| - 1], chosen);
    }
  }

  lemma PulledNone(s: seq<string>, id: string, pos: int, visited: set<string>, includes: map<string, seq<string>>,
                   names: map<string, string>)
    ensures Pulled(s, s, id, pos, [], visited, includes, names)
  {
    var p := Slot(pos, |s|);
    RestNone(s[p..], Members([]));
    assert s[..p] + [] + s[p..] == s;
  }

  lemma ComesMore(a: seq<string>, b: seq<string>, k: nat, sources: seq<string>, includes: map<string, seq<string>>,
                  names: map<string, string>)
    requires k < |b| && Comes(b, k, sources, includes, names)
    ensures Comes(a + b, |a| + k, sources, includes, names)
  {
    var all, fewer := sources + (a + b)[..|a| + k], sources + b[..k];
    var j :| 0 <= j < |fewer| && fewer[j] in includes && names[b[k]] in includes[fewer[j]];
    var i := if j < |sources| then j else j + |a|;
    assert all[i] == fewer[j];
  }

  lemma ComesFirst(a: seq<string>, b: seq<string>, k: nat, sources: seq<string>, includes: map<string, seq<string>>,
                   names: map<string, string>)
    requires k < |a| && Comes(a, k, sources, includes, names)
    ensures Comes(a + b, k, sources, includes, names)
  {
    assert (a + b)[..k] == a[..k];
  }

  lemma AllCome(a: seq<string>, b: seq<string>, sources: seq<string>, includes: map<string, seq<string>>,
                names: map<string, string>)
    requires forall k :: 0 <= k < |a| ==> Comes(a, k, sources, includes, names)
    requires forall k :: 0 <= k < |b| ==> Comes(b, k, sources, includes, names)
    ensures forall k :: 0 <= k < |a + b| ==> Comes(a + b, k, sources, includes, names)
  {
    forall k | 0 <= k < |a + b| ensures Comes(a + b, k, sources, includes, names) {
      if k < |a| {
        ComesFirst(a, b, k, sources, includes, names);
      } else {
        ComesMore(a, b, k - |a|, sources, includes, names);
      }
    }
  }

  /** Gathering goes on behind what has been gathered. */
  lemma PulledTwice(s: seq<string>, r: seq<string>, t: seq<string>, id: string, pos: nat, next: nat,
                    a: seq<string>, b: seq<string>, visited: set<string>, seen: set<string>,
                    includes: map<string, seq<string>>, names: map<string, string>)
    requires Pulled(s, r, id, pos, a, visited, includes, names) && Pulled(r, t, id, next, b, seen, includes, names)
    requires visited <= seen && Members(a) <= seen && next == pos + |a|
    ensures Pulled(s, t, id, pos, a + b, visited, includes, names)
  {
    var p := Slot(pos, |s|);
    var back := Rest(s[p..], Members(a));
    PulledParts(s, r, t, id, pos, a, b, visited, seen, includes, names);
    RestTwice(s[p..], Members(a), Members(b));
    RestMembers(s[p..], Members(a));
    assert Members(a) + Members(b) == Members(a + b);
    AllCome(a, b, [id], includes, names);
    forall k | 0 <= k < |b| ensures b[k] in s[p..] && b[k] !in visited && b[k] !in a {
      assert b[k] in back && b[k] !in seen;
    }
    TwoParts(s[p..], a, b, visited);
  }

  lemma TwoParts(back: seq<string>, a: seq<string>, b: seq<string>, visited: set<string>)
    requires Different(a) && forall k :: 0 <= k < |a| ==> a[k] in back && a[k] !in visited
    requires Different(b) && forall k :: 0 <= k < |b| ==> b[k] in back && b[k] !in visited && b[k] !in a
    ensures Different(a + b) && forall k :: 0 <= k < |a + b| ==> (a + b)[k] in back && (a + b)[k] !in visited
  {
  }

  /** The front, what was gathered before, what is gathered now, and the rest. */
  lemma PulledParts(s: seq<string>, r: seq<string>, t: seq<string>, id: string, pos: nat, a: seq<string>,
                    b: seq<string>,
                    visited: set<string>, seen: set<string>, includes: map<string, seq<string>>,
                    names: map<string, string>)
    requires Pulled(s, r, id, pos, a, visited, includes, names) && Pulled(r, t, id, pos + |a|, b, seen, includes, names)
    ensures var p := Slot(pos, |s|); var back := Rest(s[p..], Members(a));
      && t == s[..p] + (a + b) + Rest(back, Members(b)) && forall k :: 0 <= k < |b| ==> b[k] in back
  {
    PulledShape(s, r, id, pos, a, visited, includes, names);
    Regroup(s[..Slot(pos, |s|)], a, b);
  }

  /** What is before the position behind the gathered files, and what is from there on. */
  lemma PulledShape(s: seq<string>, r: seq<string>, id: string, pos: nat, a: seq<string>, visited: set<string>,
                    includes: map<string, seq<string>>, names: map<string, string>)
    requires Pulled(s, r, id, pos, a, visited, includes, names)
    ensures var p, q := Slot(pos, |s|), Slot(pos + |a|, |r|);
      r[..q] == s[..p] + a && r[q..] == Rest(s[p..], Members(a))
  {
    var p := Slot(pos, |s|);
    var back := Rest(s[p..], Members(a));
    assert a != [] ==> a[0] in s[p..];
    var q := Slot(pos + |a|, |r|);
    if pos < |s| {
      assert q == p + |a|;
    } else {
      assert back == [] && q == p + |a|;
    }
    assert r[..q] == s[..p] + a && r[q..] == back;
  }

  /** A file that comes later has been moved with those it includes. */
  lemma LandedPulled(s: seq<string>, r: seq<string>, a: nat, id: string, pos: nat, moved: seq<string>,
                     visited: set<string>,
                     includes: map<string, seq<string>>, names: map<string, string>)
    requires Landed(s, r, a, pos, moved, visited, includes, names) && pos < a
    requires s[a] in names && IncludedBy(includes, [id], names[s[a]])
    ensures Pulled(s, r, id, pos, moved, visited, includes, names)
  {
    var back := s[pos..];
    FromBack(s, r, a, pos, moved);
    forall k | 0 <= k < |moved| ensures Comes(moved, k, [id], includes, names) && moved[k] in back {
      if k == 0 {
        assert [id] + moved[..0] == [id];
      } else {
        ComesBehind(moved, k, id, includes, names);
        assert moved[k] in Without(s, a)[Slot(pos, |s| - 1)..];
      }
    }
  }

  lemma ComesBehind(moved: seq<string>, k: nat, id: string, includes: map<string, seq<string>>,
                    names: map<string, string>)
    requires Comes(moved, k, [], includes, names)
    ensures Comes(moved, k, [id], includes, names)
  {
    var fewer, all := [] + moved[..k], [id] + moved[..k];
    var j :| 0 <= j < |fewer| && fewer[j] in includes && names[moved[k]] in includes[fewer[j]];
    assert all[j + 1] == fewer[j];
  }

  /** Taking a file from behind a position and putting it there leaves what is before it alone. */
  lemma FromBack(s: seq<string>, r: seq<string>, a: nat, pos: nat, moved: seq<string>)
    requires pos < a < |s| && s[a] in moved
    requires var rest := Without(s, a); var p := Slot(pos, |rest|);
      r == rest[..p] + moved + Rest(rest[p..], Members(moved))
    ensures r == s[..pos] + moved + Rest(s[pos..], Members(moved))
    ensures forall x :: x in Without(s, a)[Slot(pos, |s| - 1)..] ==> x in s[pos..]
    ensures s[a] in s[pos..]
  {
    var back, i, x := s[pos..], a - pos, s[a];
    WithoutBehind(s, a, pos);
    InsertedWithout(back, i);
    assert back[i] == x && x in Members(moved);
    RestInserted(Without(back, i), i, x, Members(moved));
  }

  lemma WithoutBehind<T>(s: seq<T>, a: nat, pos: nat)
    requires pos < a < |s|
    ensures Without(s, a)[..pos] == s[..pos] && Without(s, a)[pos..] == Without(s[pos..], a - pos)
    ensures forall x :: x in Without(s, a)[pos..] ==> x in s[pos..]
  {
  }

  /** A file put at its place, and then those it includes gathered behind it. */
  lemma PulledLanded(s: seq<string>, t: seq<string>, r: seq<string>, a: nat, pos: nat, more: seq<string>,
                     visited: set<string>,
                     includes: map<string, seq<string>>, names: map<string, string>)
    requires a < |s| && Different(s) && s[a] !in visited
    requires t == Inserted(Without(s, a), Slot(pos, |s| - 1), s[a])
    requires Pulled(t, r, s[a], pos + 1, more, visited + {s[a]}, includes, names)
    ensures Landed(s, r, a, pos, [s[a]] + more, visited, includes, names)
  {
    var rest := Without(s, a);
    var p, moved := Slot(pos, |rest|), [s[a]] + more;
    Placed(s, t, r, a, pos, more);
    NotAmongRest(s, a);
    forall k | 0 <= k < |more| ensures more[k] in rest[p..] && more[k] !in visited && more[k] != s[a] {
      assert more[k] in t[Slot(pos + 1, |t|)..];
    }
    assert Different(moved);
    forall k | 1 <= k < |moved| ensures Comes(moved, k, [], includes, names) && moved[k] in rest[p..] {
      assert Comes(more, k - 1, [s[a]], includes, names);
      assert [] + moved[..k] == [s[a]] + more[..k - 1];
    }
  }

  lemma NotAmongRest(s: seq<string>, a: nat)
    requires a < |s| && Different(s)
    ensures forall x :: x in Without(s, a) ==> x != s[a]
  {
  }

  /** The list after the file and those it includes have been put there. */
  lemma Placed(s: seq<string>, t: seq<string>, r: seq<string>, a: nat, pos: nat, more: seq<string>)
    requires a < |s| && Different(s) && t == Inserted(Without(s, a), Slot(pos, |s| - 1), s[a])
    requires var q := Slot(pos + 1, |t|); r == t[..q] + more + Rest(t[q..], Members(more))
    ensures var rest, moved := Without(s, a), [s[a]] + more; var p := Slot(pos, |rest|);
      && r == rest[..p] + moved + Rest(rest[p..], Members(moved))
      && t[Slot(pos + 1, |t|)..] == rest[p..]
  {
    var rest := Without(s, a);
    var p, q, moved := Slot(pos, |rest|), Slot(pos + 1, |t|), [s[a]] + more;
    var back := rest[p..];
    assert q == p + 1 && t[..q] == rest[..p] + [s[a]] && t[q..] == back;
    NotAmongRest(s, a);
    Regroup(rest[..p], [s[a]], more);
    assert Members(moved) == {s[a]} + Members(more);
    RestNone(back, {s[a]});
    RestTwice(back, {s[a]}, Members(more));
  }

  ghost predicate First(s: seq<string>, x: string) {
    s != [] && s[0] == x
  }

  /** File `c` has been moved, now or before, or stands before the position or right behind the files gathered there. */
  ghost predicate Dealt(s: seq<string>, pos: int, moved: seq<string>, visited: set<string>, c: string) {
    var p := Slot(pos, |s|);
    c in visited || c in moved || c in s[..p] || First(Rest(s[p..], Members(moved)), c)
  }

  /** The names that the files `sources` include. */
  ghost function Wanted(includes: map<string, seq<string>>, sources: seq<string>): set<string> {
    set x, name | x in sources && x in includes && name in includes[x] :: name
  }

  /** The files of the names `wanted` have been dealt with. */
  ghost predicate Brought(s: seq<string>, pos: int, wanted: set<string>, moved: seq<string>, visited: set<string>,
                          names: map<string, string>) {
    forall c :: c in s && c in names && names[c] in wanted ==> Dealt(s, pos, moved, visited, c)
  }

  lemma WantedBoth(includes: map<string, seq<string>>, a: seq<string>, b: seq<string>)
    ensures Wanted(includes, a + b) == Wanted(includes, a) + Wanted(includes, b)
  {
  }

  lemma MembersNext(s: seq<string>, k: nat)
    requires k < |s|
    ensures Members(s[..k + 1]) == Members(s[..k]) + {s[k]}
  {
    assert s[..k + 1] == s[..k] + [s[k]];
  }

  /** The names that file `id` includes. */
  ghost function IncludedNames(includes: map<string, seq<string>>, id: string): set<string> {
    if id in includes then Members(includes[id]) else {}
  }

  lemma WantedFirst(includes: map<string, seq<string>>, id: string, moved: seq<string>)
    ensures Wanted(includes, [id] + moved) == IncludedNames(includes, id) + Wanted(includes, moved)
  {
    WantedBoth(includes, [id], moved);
  }

  lemma RestFirst(s: seq<string>, x: string, chosen: set<string>)
    requires First(s, x) && x !in chosen
    ensures First(Rest(s, chosen), x)
  {
    RestAppend([x], s[1..], chosen);
    assert [x] + s[1..] == s;
    RestPush([], x, chosen);
    assert [] + [x] == [x];
  }

  /** What has been dealt with stays so when more is gathered. */
  lemma DealtBefore(s: seq<string>, pos: int, a: seq<string>, b: seq<string>, visited: set<string>, c: string)
    requires Dealt(s, pos, a, visited, c)
    ensures Dealt(s, pos, a + b, visited, c)
  {
    var back := s[Slot(pos, |s|)..];
    if First(Rest(back, Members(a)), c) && c !in b {
      RestFirst(Rest(back, Members(a)), c, Members(b));
      RestTwice(back, Members(a), Members(b));
      assert Members(a) + Members(b) == Members(a + b);
    }
  }

  /** What is dealt with behind the files gathered before is dealt with. */
  lemma DealtBehind(s: seq<string>, r: seq<string>, id: string, pos: nat, a: seq<string>, b: seq<string>,
                    visited: set<string>, includes: map<string, seq<string>>, names: map<string, string>, c: string)
    requires Pulled(s, r, id, pos, a, visited, includes, names)
    requires Dealt(r, pos + |a|, b, visited + Members(a), c)
    ensures Dealt(s, pos, a + b, visited, c)
  {
    var back := s[Slot(pos, |s|)..];
    PulledShape(s, r, id, pos, a, visited, includes, names);
    RestTwice(back, Members(a), Members(b));
    assert Members(a) + Members(b) == Members(a + b);
  }

  lemma StillListed(s: seq<string>, r: seq<string>, id: string, pos: nat, a: seq<string>, visited: set<string>,
                    includes: map<string, seq<string>>, names: map<string, string>, c: string)
    requires Pulled(s, r, id, pos, a, visited, includes, names) && c in s
    ensures c in r
  {
    var p := Slot(pos, |s|);
    PulledShape(s, r, id, pos, a, visited, includes, names);
    RestMembers(s[p..], Members(a));
    SplitAt(s, p);
    SplitAt(r, Slot(pos + |a|, |r|));
  }

  lemma BroughtTwice(s: seq<string>, r: seq<string>, id: string, pos: nat, a: seq<string>, b: seq<string>,
                     visited: set<string>, includes: map<string, seq<string>>, names: map<string, string>,
                     some: set<string>, others: set<string>)
    requires Pulled(s, r, id, pos, a, visited, includes, names)
    requires Brought(s, pos, some, a, visited, names)
    requires Brought(r, pos + |a|, others, b, visited + Members(a), names)
    ensures Brought(s, pos, some + others, a + b, visited, names)
  {
    forall c | c in s && c in names && names[c] in some + others ensures Dealt(s, pos, a + b, visited, c) {
      if names[c] in some {
        DealtBefore(s, pos, a, b, visited, c);
      } else {
        StillListed(s, r, id, pos, a, visited, includes, names, c);
        DealtBehind(s, r, id, pos, a, b, visited, includes, names, c);
      }
    }
  }

  /** What is before and behind the place of a file put among others. */
  lemma PutShape(rest: seq<string>, t: seq<string>, x: string, pos: nat)
    requires t == Inserted(rest, Slot(pos, |rest|), x)
    ensures var p, q := Slot(pos, |rest|), Slot(pos + 1, |t|); t[..q] == rest[..p] + [x] && t[q..] == rest[p..]
    ensures forall c :: c in rest ==> c in t
  {
    SplitAt(rest, Slot(pos, |rest|));
  }

  lemma RestWithout(back: seq<string>, x: string, more: seq<string>)
    requires x !in back
    ensures Rest(back, Members([x] + more)) == Rest(back, Members(more))
  {
    RestNone(back, {x});
    RestTwice(back, {x}, Members(more));
    assert Members([x] + more) == {x} + Members(more);
  }

  lemma DealtLanded(rest: seq<string>, t: seq<string>, x: string, pos: nat, more: seq<string>, visited: set<string>,
                    c: string)
    requires t == Inserted(rest, Slot(pos, |rest|), x) && x !in rest
    requires Dealt(t, pos + 1, more, visited + {x}, c)
    ensures Dealt(rest, pos, [x] + more, visited, c)
  {
    PutShape(rest, t, x, pos);
    RestWithout(rest[Slot(pos, |rest|)..], x, more);
  }

  /** A file put at its place and those it includes gathered behind it. */
  lemma BroughtLanded(s: seq<string>, t: seq<string>, a: nat, pos: nat, more: seq<string>, wanted: set<string>,
                      visited: set<string>, names: map<string, string>)
    requires a < |s| && Different(s) && t == Inserted(Without(s, a), Slot(pos, |s| - 1), s[a])
    requires Brought(t, pos + 1, wanted, more, visited + {s[a]}, names)
    ensures Brought(Without(s, a), pos, wanted, [s[a]] + more, visited, names)
  {
    var rest, x := Without(s, a), s[a];
    NotAmongRest(s, a);
    PutShape(rest, t, x, pos);
    forall c | c in rest && c in names && names[c] in wanted ensures Dealt(rest, pos, [x] + more, visited, c) {
      DealtLanded(rest, t, x, pos, more, visited, c);
    }
  }

  lemma UpShape(s: seq<string>, a: nat, pos: nat, chosen: set<string>)
    requires pos < a < |s| && s[a] in chosen
    ensures Rest(Without(s, a)[pos..], chosen) == Rest(s[pos..], chosen) && Without(s, a)[..pos] == s[..pos]
    ensures forall c :: c in s && c != s[a] ==> c in Without(s, a)
  {
    var back, i := s[pos..], a - pos;
    WithoutBehind(s, a, pos);
    InsertedWithout(back, i);
    RestInserted(Without(back, i), i, s[a], chosen);
  }

  lemma DealtUp(s: seq<string>, a: nat, pos: nat, moved: seq<string>, visited: set<string>, c: string)
    requires pos < a < |s| && s[a] in moved && Dealt(Without(s, a), pos, moved, visited, c)
    ensures Dealt(s, pos, moved, visited, c)
  {
    UpShape(s, a, pos, Members(moved));
  }

  /** A later file moved up with those it includes. */
  lemma BroughtUp(s: seq<string>, a: nat, pos: nat, moved: seq<string>, wanted: set<string>, visited: set<string>,
                  names: map<string, string>)
    requires pos < a < |s| && s[a] in moved
    requires Brought(Without(s, a), pos, wanted, moved, visited, names)
    ensures Brought(s, pos, wanted, moved, visited, names)
  {
    UpShape(s, a, pos, Members(moved));
    forall c | c in s && c in names && names[c] in wanted ensures Dealt(s, pos, moved, visited, c) {
      if c != s[a] { DealtUp(s, a, pos, moved, visited, c); }
    }
  }

  /** A file that is not behind the position stands before it or right there. */
  lemma NotBehind(s: seq<string>, at: nat, pos: nat, visited: set<string>)
    requires at < |s| && at <= pos
    ensures Dealt(s, pos, [], visited, s[at])
  {
    var p := Slot(pos, |s|);
    RestNone(s[p..], Members([]));
    if at < p {
      assert s[..p][at] == s[at];
    } else {
      assert s[p..][0] == s[at];
    }
  }

  /** The position behind the files moved to `pos`; at the end of the list there is none. */
  ghost predicate Behind(next: int, pos: int, moved: seq<string>) {
    next == if pos < 0 then pos else pos + |moved|
  }

  /** The files of the names `wanted` have been gathered at `pos` for file `id`, with those they include. */
  ghost predicate Collected(s: seq<string>, r: seq<string>, id: string, wanted: set<string>, pos: nat,
                            moved: seq<string>, visited: set<string>, includes: map<string, seq<string>>,
                            names: map<string, string>)
  {
    && Pulled(s, r, id, pos, moved, visited, includes, names)
    && Brought(s, pos, wanted + Wanted(includes, moved), moved, visited, names)
  }

  lemma CollectedNone(s: seq<string>, id: string, pos: nat, visited: set<string>, includes: map<string, seq<string>>,
                      names: map<string, string>)
    ensures Collected(s, s, id, {}, pos, [], visited, includes, names)
  {
    PulledNone(s, id, pos, visited, includes, names);
  }

  lemma CollectedMore(s: seq<string>, r: seq<string>, t: seq<string>, id: string, some: set<string>,
                      others: set<string>, pos: nat, mid: nat, next: int, a: seq<string>, b: seq<string>,
                      visited: set<string>, seen: set<string>, includes: map<string, seq<string>>,
                      names: map<string, string>)
    requires Collected(s, r, id, some, pos, a, visited, includes, names) && Behind(mid, pos, a)
    requires Collected(r, t, id, others, mid, b, seen, includes, names) && seen == visited + Members(a)
    requires Behind(next, mid, b)
    ensures Behind(next, pos, a + b)
    ensures Collected(s, t, id, some + others, pos, a + b, visited, includes, names)
  {
    var x, y := some + Wanted(includes, a), others + Wanted(includes, b);
    PulledTwice(s, r, t, id, pos, pos + |a|, a, b, visited, seen, includes, names);
    BroughtTwice(s, r, id, pos, a, b, visited, includes, names, x, y);
    WantedBoth(includes, a, b);
    assert x + y == some + others + Wanted(includes, a + b);
  }

  /** When all the files of a name have been dealt with. */
  lemma CollectedOne(s: seq<string>, r: seq<string>, id: string, name: string, pos: nat, moved: seq<string>,
                     visited: set<string>, includes: map<string, seq<string>>, names: map<string, string>)
    requires Collected(s, r, id, {}, pos, moved, visited, includes, names)
    requires forall c :: c in s && c in names && names[c] == name ==> Dealt(s, pos, moved, visited, c)
    ensures Collected(s, r, id, {name}, pos, moved, visited, includes, names)
  {
  }

  /**
   File `id`, at place `a` of `s`, has landed at `pos` of the others, and every file that a moved one includes has
   been dealt with, unless it was put at the end.
   */
  ghost predicate Arrived(s: seq<string>, r: seq<string>, a: nat, pos: int, moved: seq<string>, visited: set<string>,
                          includes: map<string, seq<string>>, names: map<string, string>) {
    && Landed(s, r, a, pos, moved, visited, includes, names)
    && (pos >= 0 ==> Brought(Without(s, a), pos, Wanted(includes, moved), moved, visited, names))
  }

  lemma ArrivedCollected(s: seq<string>, r: seq<string>, a: nat, id: string, pos: nat, moved: seq<string>,
                         visited: set<string>, includes: map<string, seq<string>>, names: map<string, string>)
    requires Arrived(s, r, a, pos, moved, visited, includes, names) && pos < a
    requires s[a] in names && IncludedBy(includes, [id], names[s[a]])
    ensures Collected(s, r, id, {}, pos, moved, visited, includes, names) && s[a] in moved
  {
    var wanted := Wanted(includes, moved);
    LandedPulled(s, r, a, id, pos, moved, visited, includes, names);
    BroughtUp(s, a, pos, moved, wanted, visited, names);
    assert {} + wanted == wanted;
  }

  /** A file put at its place, and those it includes gathered behind it unless that was the end. */
  lemma CollectedArrived(s: seq<string>, t: seq<string>, r: seq<string>, id: string, a: nat, pos: int, after: int,
                         next: int, more: seq<string>, visited: set<string>, seen: set<string>,
                         includes: map<string, seq<string>>, names: map<string, string>)
    requires PutAt(s, t, id, a, pos) && id !in visited && seen == visited + {id} && after == pos + 1
    requires pos < 0 ==> r == t && more == [] && next == pos
    requires pos >= 0 ==> Collected(t, r, id, IncludedNames(includes, id), after, more, seen, includes, names)
    requires pos >= 0 ==> Behind(next, after, more)
    ensures Behind(next, pos, [id] + more)
    ensures Arrived(s, r, a, pos, [id] + more, visited, includes, names)
  {
    if pos >= 0 {
      PulledLanded(s, t, r, a, pos, more, visited, includes, names);
      WantedFirst(includes, id, more);
      BroughtLanded(s, t, a, pos, more, Wanted(includes, [id] + more), visited, names);
    } else {
      PulledNone(t, id, |s| + 1, seen, includes, names);
      PulledLanded(s, t, r, a, |s|, more, visited, includes, names);
    }
  }

  /** File `id` has been taken from place `a` of `s` and put at `pos` of the others. */
  ghost predicate PutAt(s: seq<string>, t: seq<string>, id: string, a: nat, pos: int) {
    Different(s) && a < |s| && s[a] == id && t == Inserted(Without(s, a), Slot(pos, |s| - 1), id)
  }

  predicate AllDifferent(a: string, b: string, c: string, d: string) {
    a != b && a != c && a != d && b != c && b != d && c != d
  }

  /** Of four files, of which the second includes the last, the move of the second to the front takes the last along. */
  lemma IncludedFollows(a: string, b: string, c: string, d: string, r: seq<string>, moved: seq<string>,
                        includes: map<string, seq<string>>, names: map<string, string>)
    requires AllDifferent(a, b, c, d) && includes == map[b := [d]] && names == map[a := a, b := b, c := c, d := d]
    requires Arrived([a, b, c, d], r, 1, 0, moved, {}, includes, names)
    ensures r == [b, d, a, c]
  {
    var rest := Without([a, b, c, d], 1);
    assert rest == [a, c, d] && rest[..0] == [] && rest[0..] == rest;
    OnlyIncluded(moved, b, d, includes, names);
    LastTaken(a, b, c, d, moved, includes, names);
    assert moved == [b, d];
    RestOfThree(a, c, d, Members(moved));
  }

  lemma OnlyIncluded(moved: seq<string>, b: string, d: string, includes: map<string, seq<string>>,
                     names: map<string, string>)
    requires includes == map[b := [d]] && Different(moved) && moved != [] && moved[0] == b && b != d
    requires forall k :: 1 <= k < |moved| ==> Comes(moved, k, [], includes, names) && names[moved[k]] == moved[k]
    ensures moved == [b] || moved == [b, d]
  {
    assert |moved| > 2 ==> moved[1] != moved[2];
    forall k | 1 <= k < |moved| ensures moved[k] == d {
      assert Comes(moved, k, [], includes, names);
    }
    assert |moved| == 2 ==> moved == [b, d];
    assert |moved| == 1 ==> moved == [b];
  }

  lemma LastTaken(a: string, b: string, c: string, d: string, moved: seq<string>, includes: map<string, seq<string>>,
                  names: map<string, string>)
    requires AllDifferent(a, b, c, d) && includes == map[b := [d]] && names == map[a := a, b := b, c := c, d := d]
    requires (moved == [b] || moved == [b, d]) && Brought([a, c, d], 0, Wanted(includes, moved), moved, {}, names)
    ensures d in moved
  {
    var rest := [a, c, d];
    assert b in moved && d in includes[b];
    assert names[d] in Wanted(includes, moved);
    assert rest[..0] == [] && rest[0..] == rest && rest[2] == d;
    assert Dealt(rest, 0, moved, {}, d);
    if d !in moved { RestFirst(rest, a, Members(moved)); }
  }

  lemma RestOfThree(a: string, c: string, d: string, chosen: set<string>)
    requires a !in chosen && c !in chosen && d in chosen
    ensures Rest([a, c, d], chosen) == [a, c]
  {
    RestPush([], a, chosen);
    RestPush([a], c, chosen);
    RestPush([a, c], d, chosen);
    assert [a] + [c] == [a, c] && [a, c] + [d] == [a, c, d] && [] + [a] == [a];
  }
}
