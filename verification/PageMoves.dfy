/** Moving one element of a list, and moving a selection of elements one after another. */
module PageMoves {
  import opened Sequences

  function Without<T>(s: seq<T>, i: nat): (r: seq<T>)
    requires i < |s|
    ensures |r| == |s| - 1
  {
    s[..i] + s[i + 1..]
  }

  function Inserted<T>(s: seq<T>, i: nat, x: T): (r: seq<T>)
    requires i <= |s|
    ensures |r| == |s| + 1
  {
    s[..i] + [x] + s[i..]
  }

  /** The list after its element `from` has become element `to`. */
  function Moved<T>(s: seq<T>, from: nat, to: nat): (r: seq<T>)
    requires from < |s| && to < |s|
    ensures |r| == |s|
  {
    Inserted(Without(s, from), to, s[from])
  }

  lemma MovedAt<T>(s: seq<T>, from: nat, to: nat, x: nat)
    requires from < |s| && to < |s| && x < |s|
    ensures Moved(s, from, to)[x] ==
      if x == to then s[from]
      else if to < x <= from then s[x - 1]
      else if from <= x < to then s[x + 1]
      else s[x]
  {
    var w := Without(s, from);
    assert forall j :: 0 <= j < |w| ==> w[j] == s[if j < from then j else j + 1];
  }

  /** What is left of a list without the elements of a set. */
  ghost function Rest<T>(s: seq<T>, chosen: set<T>): seq<T> {
    if s == [] then []
    else
      var n := |s| - 1;
      Rest(s[..n], chosen) + if s[n] in chosen then [] else [s[n]]
  }

  lemma RestPush<T>(s: seq<T>, x: T, chosen: set<T>)
    ensures Rest(s + [x], chosen) == Rest(s, chosen) + if x in chosen then [] else [x]
  {
    PushLast(s, x);
  }

  lemma {:induction false} RestAppend<T>(a: seq<T>, b: seq<T>, chosen: set<T>)
    ensures Rest(a + b, chosen) == Rest(a, chosen) + Rest(b, chosen)
    decreases |b|
  {
    if b == [] {
      assert a + b == a;
    } else {
      var n := |b| - 1;
      RestAppend(a, b[..n], chosen);
      LastApart(b);
      Regroup(a, b[..n], [b[n]]);
      RestPush(a + b[..n], b[n], chosen);
      Regroup(Rest(a, chosen), Rest(b[..n], chosen), if b[n] in chosen then [] else [b[n]]);
    }
  }

  lemma RestOne<T>(x: T, chosen: set<T>)
    requires x in chosen
    ensures Rest([x], chosen) == []
  {
    assert [x][..0] == [];
  }

  lemma RestInserted<T>(s: seq<T>, i: nat, x: T, chosen: set<T>)
    requires i <= |s| && x in chosen
    ensures Rest(Inserted(s, i, x), chosen) == Rest(s, chosen)
  {
    RestAppend(s[..i], [x], chosen);
    RestAppend(s[..i] + [x], s[i..], chosen);
    RestAppend(s[..i], s[i..], chosen);
    RestOne(x, chosen);
    SplitAt(s, i);
  }

  lemma InsertedWithout<T>(s: seq<T>, i: nat)
    requires i < |s|
    ensures Inserted(Without(s, i), i, s[i]) == s
  {
  }

  /** Moving a chosen element keeps the order of the others. */
  lemma RestMoved<T>(s: seq<T>, from: nat, to: nat, chosen: set<T>)
    requires from < |s| && to < |s| && s[from] in chosen
    ensures Rest(Moved(s, from, to), chosen) == Rest(s, chosen)
  {
    RestInserted(Without(s, from), to, s[from], chosen);
    RestInserted(Without(s, from), from, s[from], chosen);
    InsertedWithout(s, from);
  }

  lemma MultisetMoved<T>(s: seq<T>, from: nat, to: nat)
    requires from < |s| && to < |s|
    ensures multiset(Moved(s, from, to)) == multiset(s)
  {
    var w := Without(s, from);
    MultisetInserted(w, to, s[from]);
    MultisetInserted(w, from, s[from]);
    InsertedWithout(s, from);
  }

  lemma MultisetInserted<T>(s: seq<T>, i: nat, x: T)
    requires i <= |s|
    ensures multiset(Inserted(s, i, x)) == multiset(s) + multiset{x}
  {
    SplitAt(s, i);
  }

  /** Positions in a list of `n` elements, each after the one before. */
  ghost predicate Selection(ps: seq<int>, n: nat) {
    (forall i :: 0 <= i < |ps| ==> 0 <= ps[i] < n) && forall i, j :: 0 <= i < j < |ps| ==> ps[i] < ps[j]
  }

  lemma {:induction false} SelectionBounds(ps: seq<int>, n: nat, i: nat)
    requires Selection(ps, n) && i < |ps|
    ensures i <= ps[i] <= n - |ps| + i
  {
    AtLeast(ps, n, i);
    AtMost(ps, n, i);
  }

  lemma {:induction false} AtLeast(ps: seq<int>, n: nat, i: nat)
    requires Selection(ps, n) && i < |ps|
    ensures i <= ps[i]
    decreases i
  {
    if i > 0 { AtLeast(ps, n, i - 1); }
  }

  lemma {:induction false} AtMost(ps: seq<int>, n: nat, i: nat)
    requires Selection(ps, n) && i < |ps|
    ensures ps[i] <= n - |ps| + i
    decreases |ps| - i
  {
    if i + 1 < |ps| { AtMost(ps, n, i + 1); }
  }

  /** Where the selected element `i` goes: as far as asked, but behind the ones selected before it. */
  function Earlier(ps: seq<int>, shift: int, i: nat): int
    requires i < |ps|
  {
    if ps[i] + shift < i then i else ps[i] + shift
  }

  /** Where it goes the other way: not past the ones selected after it. */
  function Later(ps: seq<int>, n: nat, shift: int, i: nat): int
    requires i < |ps|
  {
    if ps[i] + shift > n - |ps| + i then n - |ps| + i else ps[i] + shift
  }

  /** Positions in a list of `n` elements, in any order, repeated or not. */
  ghost predicate Positions(ps: seq<int>, n: nat) {
    forall i :: 0 <= i < |ps| ==> 0 <= ps[i] < n
  }

  /** The elements selected. */
  ghost function Chosen<T>(s: seq<T>, ps: seq<int>): set<T>
    requires Positions(ps, |s|)
  {
    set i | 0 <= i < |ps| :: s[ps[i]]
  }

  /** The same elements, those not chosen in the same order. */
  ghost predicate Stays<T>(s: seq<T>, r: seq<T>, chosen: set<T>) {
    |r| == |s| && multiset(r) == multiset(s) && Rest(r, chosen) == Rest(s, chosen)
  }

  ghost predicate Kept<T>(s: seq<T>, r: seq<T>, ps: seq<int>) {
    Selection(ps, |s|) && Stays(s, r, Chosen(s, ps))
  }

  lemma StaysMoved<T>(s: seq<T>, r: seq<T>, chosen: set<T>, from: nat, to: nat)
    requires Stays(s, r, chosen) && from < |s| && to < |s| && r[from] in chosen
    ensures Stays(s, Moved(r, from, to), chosen)
  {
    RestMoved(r, from, to, chosen);
    MultisetMoved(r, from, to);
  }

  /** The first `k` selected elements have moved towards the front. */
  ghost predicate MovedEarlier<T>(s: seq<T>, r: seq<T>, ps: seq<int>, shift: int, k: int) {
    && Kept(s, r, ps) && 0 <= k <= |ps|
    && (forall i: nat :: i < k ==> 0 <= Earlier(ps, shift, i) < |s| && r[Earlier(ps, shift, i)] == s[ps[i]])
    && (forall x :: 0 <= x < |s| && (k > 0 ==> x > ps[k - 1]) ==> r[x] == s[x])
  }

  /** The selected elements from `k` on have moved towards the end. */
  ghost predicate MovedLater<T>(s: seq<T>, r: seq<T>, ps: seq<int>, shift: int, k: int) {
    && Kept(s, r, ps) && 0 <= k <= |ps|
    && (forall i: nat :: k <= i < |ps| ==>
      0 <= Later(ps, |s|, shift, i) < |s| && r[Later(ps, |s|, shift, i)] == s[ps[i]])
    && (forall x :: 0 <= x < |s| && (k < |ps| ==> x < ps[k]) ==> r[x] == s[x])
  }

  lemma InChosen<T>(s: seq<T>, ps: seq<int>, i: nat)
    requires Positions(ps, |s|) && i < |ps|
    ensures s[ps[i]] in Chosen(s, ps)
  {
  }

  /** One more selected element moves towards the front; those before it stay where they have gone. */
  lemma EarlierStep<T>(s: seq<T>, r: seq<T>, ps: seq<int>, shift: int, k: nat)
    requires MovedEarlier(s, r, ps, shift, k) && k < |ps| && shift < 0
    ensures r[ps[k]] == s[ps[k]] && k <= Earlier(ps, shift, k) <= ps[k]
    ensures MovedEarlier(s, Moved(r, ps[k], Earlier(ps, shift, k)), ps, shift, k + 1)
  {
    var from, to := ps[k], Earlier(ps, shift, k);
    SelectionBounds(ps, |s|, k);
    InChosen(s, ps, k);
    StaysMoved(s, r, Chosen(s, ps), from, to);
    var m := Moved(r, from, to);
    forall i: nat | i < k + 1 ensures 0 <= Earlier(ps, shift, i) < |s| && m[Earlier(ps, shift, i)] == s[ps[i]] {
      MovedAt(r, from, to, Earlier(ps, shift, i));
    }
    forall x | 0 <= x < |s| && x > ps[k] ensures m[x] == s[x] { MovedAt(r, from, to, x); }
  }

  /** One more selected element moves towards the end. */
  lemma LaterStep<T>(s: seq<T>, r: seq<T>, ps: seq<int>, shift: int, k: nat)
    requires MovedLater(s, r, ps, shift, k + 1) && k < |ps| && shift > 0
    ensures r[ps[k]] == s[ps[k]] && ps[k] <= Later(ps, |s|, shift, k) <= |s| - |ps| + k
    ensures MovedLater(s, Moved(r, ps[k], Later(ps, |s|, shift, k)), ps, shift, k)
  {
    var from, to := ps[k], Later(ps, |s|, shift, k);
    SelectionBounds(ps, |s|, k);
    InChosen(s, ps, k);
    StaysMoved(s, r, Chosen(s, ps), from, to);
    var m := Moved(r, from, to);
    forall i: nat | k <= i < |ps|
      ensures 0 <= Later(ps, |s|, shift, i) < |s| && m[Later(ps, |s|, shift, i)] == s[ps[i]] {
      MovedAt(r, from, to, Later(ps, |s|, shift, i));
    }
    forall x | 0 <= x < |s| && x < ps[k] ensures m[x] == s[x] { MovedAt(r, from, to, x); }
  }

  lemma Unmoved<T>(s: seq<T>, i: nat)
    requires i < |s|
    ensures Moved(s, i, i) == s
  {
    InsertedWithout(s, i);
  }

  ghost predicate Different<T>(s: seq<T>) {
    forall i, j :: 0 <= i < j < |s| ==> s[i] != s[j]
  }

  lemma DifferentMoved<T>(s: seq<T>, from: nat, to: nat)
    requires Different(s) && from < |s| && to < |s|
    ensures Different(Moved(s, from, to))
  {
    forall i, j | 0 <= i < j < |s| ensures Moved(s, from, to)[i] != Moved(s, from, to)[j] {
      MovedAt(s, from, to, i);
      MovedAt(s, from, to, j);
    }
  }

  /** Moving an element twice is moving it to the last place. */
  lemma MovedTwice<T>(s: seq<T>, from: nat, to: nat, next: nat)
    requires from < |s| && to < |s| && next < |s|
    ensures Moved(Moved(s, from, to), to, next) == Moved(s, from, next)
  {
    var w, x := Without(s, from), s[from];
    assert Inserted(w, to, x)[to] == x;
    assert Without(Inserted(w, to, x), to) == w;
  }

  /** The first place of an element, or the length of the list. */
  ghost function PlaceOf<T>(s: seq<T>, x: T): (i: nat)
    ensures i <= |s| && (i < |s| <==> x in s) && (i < |s| ==> s[i] == x)
  {
    if s == [] || s[0] == x then 0 else 1 + PlaceOf(s[1..], x)
  }

  lemma PlaceIs<T>(s: seq<T>, i: nat)
    requires Different(s) && i < |s|
    ensures PlaceOf(s, s[i]) == i
  {
    assert s[i] in s;
  }
}
