/** Moving listed pages by a number of pages, one after another. */
module PageShifts {
  import opened PageMoves
  import opened Sequences

  /** The page meant by a target: one outside the document means the last. */
  function Clamped(to: int, n: int): (r: int)
    ensures n > 0 ==> 0 <= r < n
  {
    if 0 <= to < n then to else n - 1
  }

  /** The listed elements. */
  ghost function Listed<T>(s: seq<T>, ps: seq<int>): (r: seq<T>)
    requires Positions(ps, |s|)
    ensures |r| == |ps|
  {
    seq(|ps|, i requires 0 <= i < |ps| => s[ps[i]])
  }

  lemma ListedNext<T>(s: seq<T>, ps: seq<int>, p: nat)
    requires Positions(ps, |s|) && p < |s|
    ensures Positions(ps + [p], |s|) && Listed(s, ps + [p]) == Listed(s, ps) + [s[p]]
  {
  }

  /** Where a page is asked to go towards the front when the pages before `least` are taken. */
  function EarlierTo(page: int, shift: int, least: int): int {
    if page + shift < least then least else page + shift
  }

  /** The least page free then. */
  function EarlierFree(page: int, shift: int, least: int): int {
    if page + shift < least then least + 1 else least
  }

  /** Where a page is asked to go towards the end when the pages behind `most` are taken. */
  function LaterTo(page: int, shift: int, most: int): int {
    if page + shift > most then most else page + shift
  }

  /** The last page free then. */
  function LaterFree(page: int, shift: int, most: int): int {
    if page + shift > most then most - 1 else most
  }

  /** The pages `s` after those of `xs` have been moved towards the front, first to last. */
  ghost function ShiftedEarlier<T>(s: seq<T>, xs: seq<T>, shift: int, least: int): seq<T>
    decreases |xs|
  {
    if xs == [] then s
    else
      var p := PlaceOf(s, xs[0]);
      if p == |s| then ShiftedEarlier(s, xs[1..], shift, least)
      else
        ShiftedEarlier(Moved(s, p, Clamped(EarlierTo(p, shift, least), |s|)), xs[1..], shift,
                       EarlierFree(p, shift, least))
  }

  /** The pages `s` after those of `xs` have been moved towards the end, last to first. */
  ghost function ShiftedLater<T>(s: seq<T>, xs: seq<T>, shift: int, most: int): seq<T>
    decreases |xs|
  {
    if xs == [] then s
    else
      var n := |xs| - 1;
      var p := PlaceOf(s, xs[n]);
      if p == |s| then ShiftedLater(s, xs[..n], shift, most)
      else
        ShiftedLater(Moved(s, p, Clamped(LaterTo(p, shift, most), |s|)), xs[..n], shift, LaterFree(p, shift, most))
  }

  /** The least page still free at the front, as long as pages run into it. */
  ghost predicate MinPage(ps: seq<int>, shift: int, k: int, minPage: int) {
    0 <= k <= |ps| && 0 <= minPage <= k &&
    (minPage < k ==> ps[k - 1] + shift >= k - 1 && ps[k - 1] + shift >= minPage)
  }

  lemma MinPageStep(ps: seq<int>, n: nat, shift: int, k: nat, minPage: int)
    requires Selection(ps, n) && k < |ps| && MinPage(ps, shift, k, minPage)
    ensures EarlierTo(ps[k], shift, minPage) == Earlier(ps, shift, k)
    ensures MinPage(ps, shift, k + 1, EarlierFree(ps[k], shift, minPage))
  {
  }

  ghost predicate MaxPage(ps: seq<int>, n: nat, shift: int, k: int, maxPage: int) {
    0 <= k <= |ps| && n - |ps| + k - 1 <= maxPage < n &&
    (maxPage > n - |ps| + k - 1 ==> k < |ps| && ps[k] + shift <= n - |ps| + k && ps[k] + shift <= maxPage)
  }

  lemma MaxPageStep(ps: seq<int>, n: nat, shift: int, k: nat, maxPage: int)
    requires Selection(ps, n) && k < |ps| && MaxPage(ps, n, shift, k + 1, maxPage)
    ensures LaterTo(ps[k], shift, maxPage) == Later(ps, n, shift, k)
    ensures MaxPage(ps, n, shift, k, LaterFree(ps[k], shift, maxPage))
  {
  }

  /** A listed page is among the pages, wherever they have gone. */
  lemma StillThere<T>(s: seq<T>, r: seq<T>, ps: seq<int>, k: nat)
    requires Positions(ps, |s|) && Stays(s, r, Chosen(s, ps)) && k < |ps|
    ensures s[ps[k]] in r && s[ps[k]] in Chosen(s, ps)
  {
    var x := s[ps[k]];
    assert x in multiset(s);
    assert x in multiset(r);
    InChosen(s, ps, k);
  }

  /** The first of the pages left to move. */
  lemma EarlierStarts<T>(s: seq<T>, xs: seq<T>, k: nat, shift: int, least: int)
    requires k < |xs| && xs[k] in s
    ensures var p := PlaceOf(s, xs[k]);
      && var r := Moved(s, p, Clamped(EarlierTo(p, shift, least), |s|));
      && ShiftedEarlier(s, xs[k..], shift, least) == ShiftedEarlier(r, xs[k + 1..], shift, EarlierFree(p, shift, least))
  {
    SuffixNext(xs, k);
  }

  lemma LaterStarts<T>(s: seq<T>, xs: seq<T>, k: nat, shift: int, most: int)
    requires k < |xs| && xs[k] in s
    ensures var p := PlaceOf(s, xs[k]);
      && var r := Moved(s, p, Clamped(LaterTo(p, shift, most), |s|));
      && ShiftedLater(s, xs[..k + 1], shift, most) == ShiftedLater(r, xs[..k], shift, LaterFree(p, shift, most))
  {
    PrefixLast(xs, k + 1);
  }

  /** What is left to do after one page has moved as asked. */
  lemma EarlierGoesOn<T>(asked: bool, s: seq<T>, r: seq<T>, xs: seq<T>, k: nat, shift: int, least: int, free: int)
    requires k < |xs| && xs[k] in s
    requires var p := PlaceOf(s, xs[k]);
      free == EarlierFree(p, shift, least) && (asked ==> r == Moved(s, p, Clamped(EarlierTo(p, shift, least), |s|)))
    ensures asked ==> ShiftedEarlier(s, xs[k..], shift, least) == ShiftedEarlier(r, xs[k + 1..], shift, free)
  {
    EarlierStarts(s, xs, k, shift, least);
  }

  lemma LaterGoesOn<T>(asked: bool, s: seq<T>, r: seq<T>, xs: seq<T>, k: nat, shift: int, most: int, free: int)
    requires k < |xs| && xs[k] in s
    requires var p := PlaceOf(s, xs[k]);
      free == LaterFree(p, shift, most) && (asked ==> r == Moved(s, p, Clamped(LaterTo(p, shift, most), |s|)))
    ensures asked ==> ShiftedLater(s, xs[..k + 1], shift, most) == ShiftedLater(r, xs[..k], shift, free)
  {
    LaterStarts(s, xs, k, shift, most);
  }

  /** The pages on the way: `k` have moved, and without repeats each is where it should be. */
  ghost predicate OnTheWay<T>(s: seq<T>, r: seq<T>, ps: seq<int>, shift: int, k: int, least: int) {
    && Positions(ps, |s|) && 0 <= k <= |ps| && Different(r) && Stays(s, r, Chosen(s, ps))
    && (Selection(ps, |s|) ==> MovedEarlier(s, r, ps, shift, k) && MinPage(ps, shift, k, least))
  }

  lemma EarlierOne<T>(s: seq<T>, r: seq<T>, ps: seq<int>, shift: int, k: nat, least: int)
    requires OnTheWay(s, r, ps, shift, k, least) && k < |ps| && shift < 0
    ensures var p := PlaceOf(r, s[ps[k]]);
      p < |r| && OnTheWay(s, Moved(r, p, Clamped(EarlierTo(p, shift, least), |r|)), ps, shift, k + 1,
                          EarlierFree(p, shift, least))
  {
    StillThere(s, r, ps, k);
    var p := PlaceOf(r, s[ps[k]]);
    var to := Clamped(EarlierTo(p, shift, least), |r|);
    StaysMoved(s, r, Chosen(s, ps), p, to);
    DifferentMoved(r, p, to);
    if Selection(ps, |s|) {
      EarlierStep(s, r, ps, shift, k);
      PlaceIs(r, ps[k]);
      MinPageStep(ps, |s|, shift, k, least);
    }
  }

  /**
   Whatever is listed, nothing is lost or doubled and the pages not listed keep their order; without repeats every
   listed page ends where it should.
   */
  lemma {:induction false} EarlierRun<T>(s: seq<T>, r: seq<T>, ps: seq<int>, shift: int, k: nat, least: int)
    requires OnTheWay(s, r, ps, shift, k, least) && shift < 0
    ensures var t := ShiftedEarlier(r, Listed(s, ps)[k..], shift, least);
      && Different(t) && Stays(s, t, Chosen(s, ps))
      && (Selection(ps, |s|) ==> MovedEarlier(s, t, ps, shift, |ps|))
    decreases |ps| - k
  {
    var xs := Listed(s, ps);
    if k < |ps| {
      EarlierOne(s, r, ps, shift, k, least);
      StillThere(s, r, ps, k);
      EarlierStarts(r, xs, k, shift, least);
      var p := PlaceOf(r, xs[k]);
      EarlierRun(s, Moved(r, p, Clamped(EarlierTo(p, shift, least), |r|)), ps, shift, k + 1,
                 EarlierFree(p, shift, least));
    }
  }

  ghost predicate OnTheWayBack<T>(s: seq<T>, r: seq<T>, ps: seq<int>, shift: int, k: int, most: int) {
    && Positions(ps, |s|) && 0 <= k <= |ps| && Different(r) && Stays(s, r, Chosen(s, ps))
    && (Selection(ps, |s|) ==> MovedLater(s, r, ps, shift, k) && MaxPage(ps, |s|, shift, k, most))
  }

  lemma LaterOne<T>(s: seq<T>, r: seq<T>, ps: seq<int>, shift: int, k: nat, most: int)
    requires k < |ps| && OnTheWayBack(s, r, ps, shift, k + 1, most) && shift > 0
    ensures var p := PlaceOf(r, s[ps[k]]);
      p < |r| && OnTheWayBack(s, Moved(r, p, Clamped(LaterTo(p, shift, most), |r|)), ps, shift, k,
                              LaterFree(p, shift, most))
  {
    StillThere(s, r, ps, k);
    var p := PlaceOf(r, s[ps[k]]);
    var to := Clamped(LaterTo(p, shift, most), |r|);
    StaysMoved(s, r, Chosen(s, ps), p, to);
    DifferentMoved(r, p, to);
    if Selection(ps, |s|) {
      LaterStep(s, r, ps, shift, k);
      PlaceIs(r, ps[k]);
      MaxPageStep(ps, |s|, shift, k, most);
    }
  }

  lemma {:induction false} LaterRun<T>(s: seq<T>, r: seq<T>, ps: seq<int>, shift: int, k: nat, most: int)
    requires OnTheWayBack(s, r, ps, shift, k, most) && shift > 0
    ensures var t := ShiftedLater(r, Listed(s, ps)[..k], shift, most);
      && Different(t) && Stays(s, t, Chosen(s, ps))
      && (Selection(ps, |s|) ==> MovedLater(s, t, ps, shift, 0))
    decreases k
  {
    var xs := Listed(s, ps);
    if k > 0 {
      var i := k - 1;
      LaterOne(s, r, ps, shift, i, most);
      StillThere(s, r, ps, i);
      LaterStarts(r, xs, i, shift, most);
      var p := PlaceOf(r, xs[i]);
      LaterRun(s, Moved(r, p, Clamped(LaterTo(p, shift, most), |r|)), ps, shift, i, LaterFree(p, shift, most));
    }
  }

  /** What the pages have become when those at the places `ps` have been moved by `shift`. */
  ghost function Shifted<T>(s: seq<T>, ps: seq<int>, shift: int): seq<T>
    requires Positions(ps, |s|)
  {
    if shift < 0 then ShiftedEarlier(s, Listed(s, ps), shift, 0)
    else if shift > 0 then ShiftedLater(s, Listed(s, ps), shift, |s| - 1)
    else s
  }

  lemma ShiftedIs<T>(s: seq<T>, ps: seq<int>, shift: int, xs: seq<T>)
    requires Positions(ps, |s|) && xs == Listed(s, ps)
    ensures shift < 0 ==> Shifted(s, ps, shift) == ShiftedEarlier(s, xs, shift, 0)
    ensures shift > 0 ==> Shifted(s, ps, shift) == ShiftedLater(s, xs, shift, |s| - 1)
  {
  }

  lemma ListedThere<T>(s: seq<T>, ps: seq<int>)
    requires Positions(ps, |s|)
    ensures forall x :: x in Listed(s, ps) ==> x in s
  {
  }

  /** The listed pages are in the order of their places. */
  ghost predicate InOrder<T>(s: seq<T>, r: seq<T>, ps: seq<int>)
    requires Positions(ps, |s|)
  {
    forall i, j :: 0 <= i < j < |ps| ==> PlaceOf(r, s[ps[i]]) < PlaceOf(r, s[ps[j]])
  }

  /** Targets of different pages are in the order of the pages. */
  lemma TargetsInOrder(ps: seq<int>, n: nat, shift: int, i: nat, j: nat)
    requires Selection(ps, n) && i < j < |ps|
    ensures Earlier(ps, shift, i) < Earlier(ps, shift, j) && Later(ps, n, shift, i) < Later(ps, n, shift, j)
  {
  }

  /**
   Nothing is lost or doubled and the pages not listed keep their order; pages listed once each keep their order too,
   and go as far as asked without passing one another or the ends.
   */
  lemma ShiftedPages<T>(s: seq<T>, ps: seq<int>, shift: int)
    requires Positions(ps, |s|) && Different(s)
    ensures var t := Shifted(s, ps, shift);
      && Stays(s, t, Chosen(s, ps))
      && (Selection(ps, |s|) ==> InOrder(s, t, ps))
      && (Selection(ps, |s|) && shift < 0 ==> MovedEarlier(s, t, ps, shift, |ps|))
      && (Selection(ps, |s|) && shift > 0 ==> MovedLater(s, t, ps, shift, 0))
  {
    var t, xs, n := Shifted(s, ps, shift), Listed(s, ps), |s|;
    if shift < 0 {
      assert xs[0..] == xs;
      EarlierRun(s, s, ps, shift, 0, 0);
    } else if shift > 0 {
      assert xs[..|ps|] == xs;
      LaterRun(s, s, ps, shift, |ps|, n - 1);
    }
    if Selection(ps, n) { OnceInOrder(s, t, ps, shift); }
  }

  lemma OnceInOrder<T>(s: seq<T>, t: seq<T>, ps: seq<int>, shift: int)
    requires Selection(ps, |s|) && Different(t)
    requires shift < 0 ==> MovedEarlier(s, t, ps, shift, |ps|)
    requires shift > 0 ==> MovedLater(s, t, ps, shift, 0)
    requires shift == 0 ==> s == t
    ensures InOrder(s, t, ps)
  {
    forall i, j | 0 <= i < j < |ps| ensures PlaceOf(t, s[ps[i]]) < PlaceOf(t, s[ps[j]]) {
      TargetsInOrder(ps, |s|, shift, i, j);
      Landing(s, t, ps, shift, i);
      Landing(s, t, ps, shift, j);
    }
  }

  /** The place of a page after the moves. */
  lemma Landing<T>(s: seq<T>, t: seq<T>, ps: seq<int>, shift: int, i: nat)
    requires Selection(ps, |s|) && i < |ps| && Different(t)
    requires shift < 0 ==> MovedEarlier(s, t, ps, shift, |ps|)
    requires shift > 0 ==> MovedLater(s, t, ps, shift, 0)
    requires shift == 0 ==> s == t
    ensures PlaceOf(t, s[ps[i]]) ==
      if shift < 0 then Earlier(ps, shift, i) else if shift > 0 then Later(ps, |s|, shift, i) else ps[i]
  {
    var to := if shift < 0 then Earlier(ps, shift, i) else if shift > 0 then Later(ps, |s|, shift, i) else ps[i];
    assert 0 <= to < |t| && t[to] == s[ps[i]];
    PlaceIs(t, to);
  }

  ghost function Times<T>(x: T, m: nat): (r: seq<T>)
    ensures |r| == m && forall i :: 0 <= i < m ==> r[i] == x
  {
    seq(m, i => x)
  }

  /** How many steps of `step` pages fit into `room` pages. */
  function FreeSteps(room: int, step: nat): (j: nat)
    requires step > 0
  {
    if room < step then 0 else 1 + FreeSteps(room - step, step)
  }

  /**
   Where a page listed `m` times is asked to go: it goes on as long as there is room in front of it, and then one page
   back each time.
   */
  function EarlierLanding(page: int, shift: int, least: int, m: nat): int
    requires shift < 0
  {
    var j := FreeSteps(page - least, -shift);
    if m <= j then page + m * shift else least + (m - j) - 1
  }

  function LaterLanding(page: int, shift: int, most: int, m: nat): int
    requires shift > 0
  {
    var j := FreeSteps(most - page, shift);
    if m <= j then page + m * shift else most - (m - j) + 1
  }

  /** Where it ends in a document of `n` pages. */
  function EarlierEnd(page: nat, shift: int, least: int, m: nat, n: nat): (r: nat)
    requires shift < 0 && page < n
    ensures r < n
  {
    if m == 0 then page else Clamped(EarlierLanding(page, shift, least, m), n)
  }

  function LaterEnd(page: nat, shift: int, most: int, m: nat, n: nat): (r: nat)
    requires shift > 0 && page < n
    ensures r < n
  {
    if m == 0 then page else Clamped(LaterLanding(page, shift, most, m), n)
  }

  /** How many of its moves run into the pages taken. */
  function Blocked(room: int, step: nat, m: nat): (b: nat)
    requires step > 0
  {
    var j := FreeSteps(room, step);
    if m <= j then 0 else m - j
  }

  lemma OneLess(m: int, d: int)
    ensures (m - 1) * d == m * d - d
  {
  }

  lemma TimesNext<T>(x: T, m: nat, rest: seq<T>)
    requires m > 0
    ensures Times(x, m) + rest == [x] + (Times(x, m - 1) + rest)
    ensures rest + Times(x, m) == rest + Times(x, m - 1) + [x]
  {
  }

  lemma EarlierNext<T>(s: seq<T>, p: nat, ys: seq<T>, shift: int, least: int, r: seq<T>, next: int)
    requires Different(s) && p < |s| && r == Moved(s, p, Clamped(EarlierTo(p, shift, least), |s|))
    requires next == EarlierFree(p, shift, least)
    ensures ShiftedEarlier(s, [s[p]] + ys, shift, least) == ShiftedEarlier(r, ys, shift, next)
  {
    FirstApart(s[p], ys);
    PlaceIs(s, p);
  }

  lemma LaterNext<T>(s: seq<T>, p: nat, ys: seq<T>, shift: int, most: int, r: seq<T>, next: int)
    requires Different(s) && p < |s| && r == Moved(s, p, Clamped(LaterTo(p, shift, most), |s|))
    requires next == LaterFree(p, shift, most)
    ensures ShiftedLater(s, ys + [s[p]], shift, most) == ShiftedLater(r, ys, shift, next)
  {
    PushLast(ys, s[p]);
    PlaceIs(s, p);
  }

  lemma EarlierMore<T>(s: seq<T>, p: nat, m: nat, rest: seq<T>, shift: int, least: int, r: seq<T>, next: int,
                       t: seq<T>, free: int)
    requires Different(s) && p < |s| && r == Moved(s, p, Clamped(EarlierTo(p, shift, least), |s|)) && m > 0
    requires next == EarlierFree(p, shift, least)
    requires ShiftedEarlier(r, Times(s[p], m - 1) + rest, shift, next) == ShiftedEarlier(t, rest, shift, free)
    ensures ShiftedEarlier(s, Times(s[p], m) + rest, shift, least) == ShiftedEarlier(t, rest, shift, free)
  {
    TimesNext(s[p], m, rest);
    EarlierNext(s, p, Times(s[p], m - 1) + rest, shift, least, r, next);
  }

  /**
   A page listed `m` times in a row makes the pages `t`, in which it is at the place it lands on, with `free` the
   least page free then.
   */
  lemma {:induction false} EarlierRepeats<T>(s: seq<T>, m: nat, rest: seq<T>, shift: int, least: nat, p: nat,
                                             t: seq<T>, free: int)
    requires Different(s) && p < |s| && shift < 0
    requires t == Moved(s, p, EarlierEnd(p, shift, least, m, |s|)) && free == least + Blocked(p - least, -shift, m)
    ensures ShiftedEarlier(s, Times(s[p], m) + rest, shift, least) == ShiftedEarlier(t, rest, shift, free)
    decreases m
  {
    if m == 0 {
      Unmoved(s, p);
      assert Times(s[p], 0) + rest == rest;
    } else {
      var to, next := Clamped(EarlierTo(p, shift, least), |s|), EarlierFree(p, shift, least);
      var r := Moved(s, p, to);
      DifferentMoved(s, p, to);
      MovedAt(s, p, to, to);
      MovedTwice(s, p, to, EarlierEnd(to, shift, next, m - 1, |s|));
      EarlierLandsOn(p, shift, least, m, |s|);
      EarlierRepeats(r, m - 1, rest, shift, next, to, t, free);
      EarlierMore(s, p, m, rest, shift, least, r, next, t, free);
    }
  }

  lemma EarlierLandsOn(p: nat, shift: int, least: nat, m: nat, n: nat)
    requires p < n && shift < 0 && m > 0
    ensures var to, free := Clamped(EarlierTo(p, shift, least), n), EarlierFree(p, shift, least);
      && free + Blocked(to - free, -shift, m - 1) == least + Blocked(p - least, -shift, m)
      && EarlierEnd(p, shift, least, m, n) == EarlierEnd(to, shift, free, m - 1, n)
  {
    OneLess(m, shift);
  }

  lemma LaterMore<T>(s: seq<T>, p: nat, m: nat, rest: seq<T>, shift: int, most: int, r: seq<T>, next: int,
                     t: seq<T>, free: int)
    requires Different(s) && p < |s| && r == Moved(s, p, Clamped(LaterTo(p, shift, most), |s|)) && m > 0
    requires next == LaterFree(p, shift, most)
    requires ShiftedLater(r, rest + Times(s[p], m - 1), shift, next) == ShiftedLater(t, rest, shift, free)
    ensures ShiftedLater(s, rest + Times(s[p], m), shift, most) == ShiftedLater(t, rest, shift, free)
  {
    TimesNext(s[p], m, rest);
    LaterNext(s, p, rest + Times(s[p], m - 1), shift, most, r, next);
  }

  lemma {:induction false} LaterRepeats<T>(s: seq<T>, m: nat, rest: seq<T>, shift: int, most: int, p: nat,
                                           t: seq<T>, free: int)
    requires Different(s) && p < |s| && shift > 0 && most < |s|
    requires t == Moved(s, p, LaterEnd(p, shift, most, m, |s|)) && free == most - Blocked(most - p, shift, m)
    ensures ShiftedLater(s, rest + Times(s[p], m), shift, most) == ShiftedLater(t, rest, shift, free)
    decreases m
  {
    if m == 0 {
      Unmoved(s, p);
      assert rest + Times(s[p], 0) == rest;
    } else {
      var to, next := Clamped(LaterTo(p, shift, most), |s|), LaterFree(p, shift, most);
      var r := Moved(s, p, to);
      DifferentMoved(s, p, to);
      MovedAt(s, p, to, to);
      MovedTwice(s, p, to, LaterEnd(to, shift, next, m - 1, |s|));
      LaterLandsOn(p, shift, most, m, |s|);
      LaterRepeats(r, m - 1, rest, shift, next, to, t, free);
      LaterMore(s, p, m, rest, shift, most, r, next, t, free);
    }
  }

  lemma LaterLandsOn(p: nat, shift: int, most: int, m: nat, n: nat)
    requires p < n && shift > 0 && m > 0 && most < n
    ensures var to, free := Clamped(LaterTo(p, shift, most), n), LaterFree(p, shift, most);
      && free - Blocked(free - to, shift, m - 1) == most - Blocked(most - p, shift, m)
      && LaterEnd(p, shift, most, m, n) == LaterEnd(to, shift, free, m - 1, n)
  {
    OneLess(m, shift);
  }

  /** The first page listed twice moves back: its second move does not pass the place it has taken itself. */
  lemma RepeatMovesBack<T>(x: T, y: T)
    requires x != y
    ensures Shifted([x, y], [0, 0], -1) == [y, x]
  {
    var s := [x, y];
    assert Listed(s, [0, 0]) == Times(x, 2) + [];
    EarlierRepeats(s, 2, [], -1, 0, 0, [y, x], 2);
  }
}
