/**
 What a HUFF dictionary means, without any cache: an entry stored decoded is
 its bytes, a packed entry is the expansion of its codes. Expansion is
 recursive and may be circular, so it is defined to a given depth; a meaning
 found at some depth is found at every larger one.
 */
module HuffMeaning {
  import opened HuffCodes

  datatype EntryState = Packed | Expanding | Decoded

  datatype Entry = Entry(bytes: seq<int>, state: EntryState)

  datatype Meaning = Nothing | Bytes(bytes: seq<int>)

  /** A dictionary as it is loaded. */
  ghost predicate IsDictionary(d: seq<Entry>) {
    forall c :: 0 <= c < |d| ==> d[c].state != Expanding && IsBytes(d[c].bytes)
  }

  ghost function Join(head: Meaning, tail: Meaning): Meaning {
    if head.Bytes? && tail.Bytes? then Bytes(head.bytes + tail.bytes) else Nothing
  }

  /** The expansion of a stream from bit `cursor`, with entries nested at most `depth` deep. */
  ghost function Expansion(t: Tables, d: seq<Entry>, input: seq<int>, cursor: nat, depth: nat): Meaning
    requires WellFormed(t) && IsDictionary(d) && IsBytes(input)
    decreases depth, if cursor < 8 * |input| then 8 * |input| - cursor else 0
  {
    match NextCode(t, |d|, input, cursor)
    case End => Bytes([])
    case Bad => Nothing
    case Code(c, next) => Join(EntryMeaning(t, d, c, depth), Expansion(t, d, input, next, depth))
  }

  /** The meaning of entry `c`. */
  ghost function EntryMeaning(t: Tables, d: seq<Entry>, c: nat, depth: nat): Meaning
    requires WellFormed(t) && IsDictionary(d) && c < |d|
    decreases depth, 0
  {
    if d[c].state == Decoded then Bytes(d[c].bytes)
    else if depth == 0 then Nothing
    else Expansion(t, d, d[c].bytes, 0, depth - 1)
  }

  lemma {:induction false} Deeper(t: Tables, d: seq<Entry>, input: seq<int>, cursor: nat, depth: nat)
    requires WellFormed(t) && IsDictionary(d) && IsBytes(input)
    requires Expansion(t, d, input, cursor, depth).Bytes?
    ensures Expansion(t, d, input, cursor, depth + 1) == Expansion(t, d, input, cursor, depth)
    decreases depth, if cursor < 8 * |input| then 8 * |input| - cursor else 0
  {
    var n := NextCode(t, |d|, input, cursor);
    if n.Code? {
      EntryDeeper(t, d, n.code, depth);
      Deeper(t, d, input, n.next, depth);
    }
  }

  lemma {:induction false} EntryDeeper(t: Tables, d: seq<Entry>, c: nat, depth: nat)
    requires WellFormed(t) && IsDictionary(d) && c < |d|
    requires EntryMeaning(t, d, c, depth).Bytes?
    ensures EntryMeaning(t, d, c, depth + 1) == EntryMeaning(t, d, c, depth)
    decreases depth, 0
  {
    if d[c].state != Decoded {
      Deeper(t, d, d[c].bytes, 0, depth - 1);
    }
  }

  lemma {:induction false} EntryStable(t: Tables, d: seq<Entry>, c: nat, depth: nat, more: nat)
    requires WellFormed(t) && IsDictionary(d) && c < |d| && depth <= more
    requires EntryMeaning(t, d, c, depth).Bytes?
    ensures EntryMeaning(t, d, c, more) == EntryMeaning(t, d, c, depth)
    decreases more
  {
    if depth < more {
      EntryStable(t, d, c, depth, more - 1);
      EntryDeeper(t, d, c, more - 1);
    }
  }

  /** Entry `c` means the bytes `b`. */
  ghost predicate Means(t: Tables, d: seq<Entry>, c: nat, b: seq<int>)
    requires WellFormed(t) && IsDictionary(d) && c < |d|
  {
    exists depth: nat :: EntryMeaning(t, d, c, depth) == Bytes(b)
  }

  /** The stream `input` means the bytes `b`. */
  ghost predicate StreamMeans(t: Tables, d: seq<Entry>, input: seq<int>, b: seq<int>)
    requires WellFormed(t) && IsDictionary(d) && IsBytes(input)
  {
    exists depth: nat :: Expansion(t, d, input, 0, depth) == Bytes(b)
  }

  /** From some depth on, the stream means `output` followed by the meaning from `cursor` on. */
  ghost predicate MeansSoFar(t: Tables, d: seq<Entry>, input: seq<int>, cursor: nat, output: seq<int>, depth: nat)
    requires WellFormed(t) && IsDictionary(d) && IsBytes(input)
  {
    forall g: nat :: g >= depth ==>
      Expansion(t, d, input, 0, g) == Join(Bytes(output), Expansion(t, d, input, cursor, g))
  }

  lemma MeansStart(t: Tables, d: seq<Entry>, input: seq<int>)
    requires WellFormed(t) && IsDictionary(d) && IsBytes(input)
    ensures MeansSoFar(t, d, input, 0, [], 0)
  {
    forall g: nat ensures Expansion(t, d, input, 0, g) == Join(Bytes([]), Expansion(t, d, input, 0, g)) {
      if Expansion(t, d, input, 0, g).Bytes? {
        assert [] + Expansion(t, d, input, 0, g).bytes == Expansion(t, d, input, 0, g).bytes;
      }
    }
  }

  /** Passing a code whose entry's meaning is known. */
  lemma MeansStep(t: Tables, d: seq<Entry>, input: seq<int>, cursor: nat, output: seq<int>, depth: nat,
                  e: seq<int>)
    returns (more: nat)
    requires WellFormed(t) && IsDictionary(d) && IsBytes(input)
    requires MeansSoFar(t, d, input, cursor, output, depth)
    requires var n := NextCode(t, |d|, input, cursor); n.Code? && Means(t, d, n.code, e)
    ensures MeansSoFar(t, d, input, NextCode(t, |d|, input, cursor).next, output + e, more)
  {
    var n := NextCode(t, |d|, input, cursor);
    var k: nat :| EntryMeaning(t, d, n.code, k) == Bytes(e);
    more := if depth < k then k else depth;
    forall g: nat | g >= more
      ensures Expansion(t, d, input, 0, g) == Join(Bytes(output + e), Expansion(t, d, input, n.next, g))
    {
      EntryStable(t, d, n.code, k, g);
      var tail := Expansion(t, d, input, n.next, g);
      if tail.Bytes? {
        assert output + (e + tail.bytes) == (output + e) + tail.bytes;
      }
    }
  }

  lemma MeansEnd(t: Tables, d: seq<Entry>, input: seq<int>, cursor: nat, output: seq<int>, depth: nat)
    requires WellFormed(t) && IsDictionary(d) && IsBytes(input)
    requires MeansSoFar(t, d, input, cursor, output, depth) && NextCode(t, |d|, input, cursor).End?
    ensures StreamMeans(t, d, input, output)
  {
    assert Expansion(t, d, input, 0, depth) == Bytes(output + []);
    assert output + [] == output;
  }

  /** A packed entry means what its stream means. */
  lemma EntryFromStream(t: Tables, d: seq<Entry>, c: nat, b: seq<int>)
    requires WellFormed(t) && IsDictionary(d) && c < |d| && d[c].state == Packed
    requires StreamMeans(t, d, d[c].bytes, b)
    ensures Means(t, d, c, b)
  {
    var k: nat :| Expansion(t, d, d[c].bytes, 0, k) == Bytes(b);
    assert EntryMeaning(t, d, c, k + 1) == Bytes(b);
  }

  /** A stream has at most one meaning. */
  lemma OneMeaning(t: Tables, d: seq<Entry>, input: seq<int>, a: seq<int>, b: seq<int>)
    requires WellFormed(t) && IsDictionary(d) && IsBytes(input)
    requires StreamMeans(t, d, input, a) && StreamMeans(t, d, input, b)
    ensures a == b
  {
    var k: nat :| Expansion(t, d, input, 0, k) == Bytes(a);
    var m: nat :| Expansion(t, d, input, 0, m) == Bytes(b);
    if k <= m { StreamStable(t, d, input, k, m); } else { StreamStable(t, d, input, m, k); }
  }

  lemma {:induction false} StreamStable(t: Tables, d: seq<Entry>, input: seq<int>, depth: nat, more: nat)
    requires WellFormed(t) && IsDictionary(d) && IsBytes(input) && depth <= more
    requires Expansion(t, d, input, 0, depth).Bytes?
    ensures Expansion(t, d, input, 0, more) == Expansion(t, d, input, 0, depth)
    decreases more
  {
    if depth < more {
      StreamStable(t, d, input, depth, more - 1);
      Deeper(t, d, input, 0, more - 1);
    }
  }

  /** The stream reaches bit `cursor` without an error. */
  ghost predicate Reaches(t: Tables, d: seq<Entry>, input: seq<int>, from: nat, cursor: nat)
    requires WellFormed(t) && IsBytes(input)
    decreases if from < 8 * |input| then 8 * |input| - from else 0
  {
    from == cursor ||
    (NextCode(t, |d|, input, from).Code? && Reaches(t, d, input, NextCode(t, |d|, input, from).next, cursor))
  }

  /** The stream contains the code `c`. */
  ghost predicate Contains(t: Tables, d: seq<Entry>, input: seq<int>, c: nat)
    requires WellFormed(t) && IsBytes(input)
  {
    exists cursor :: ContainsAt(t, d, input, cursor, c)
  }

  ghost predicate ContainsAt(t: Tables, d: seq<Entry>, input: seq<int>, cursor: int, c: nat)
    requires WellFormed(t) && IsBytes(input)
  {
    0 <= cursor && Reaches(t, d, input, 0, cursor) && NextCode(t, |d|, input, cursor).Code? &&
    NextCode(t, |d|, input, cursor).code == c
  }

  /** A stream that means something needs the meaning of each of its codes, at the same depth. */
  lemma {:induction false} NeedsCode(t: Tables, d: seq<Entry>, input: seq<int>, from: nat, cursor: nat, depth: nat)
    requires WellFormed(t) && IsDictionary(d) && IsBytes(input)
    requires Reaches(t, d, input, from, cursor) && NextCode(t, |d|, input, cursor).Code?
    requires Expansion(t, d, input, from, depth).Bytes?
    ensures EntryMeaning(t, d, NextCode(t, |d|, input, cursor).code, depth).Bytes?
    decreases if from < 8 * |input| then 8 * |input| - from else 0
  {
    if from != cursor {
      NeedsCode(t, d, input, NextCode(t, |d|, input, from).next, cursor, depth);
    }
  }

  /** Packed entry `c` uses entry `e`, directly or through others. */
  ghost predicate Uses(t: Tables, d: seq<Entry>, c: nat, path: seq<nat>, e: nat)
    requires WellFormed(t) && IsDictionary(d)
    decreases path
  {
    c < |d| && d[c].state == Packed &&
    if path == [] then Contains(t, d, d[c].bytes, e)
    else Contains(t, d, d[c].bytes, path[0]) && Uses(t, d, path[0], path[1..], e)
  }

  lemma UsesOne(t: Tables, d: seq<Entry>, c: nat, e: nat, depth: nat)
    requires WellFormed(t) && IsDictionary(d) && c < |d| && e < |d| && d[c].state == Packed
    requires Contains(t, d, d[c].bytes, e) && EntryMeaning(t, d, c, depth).Bytes?
    ensures depth > 0 && EntryMeaning(t, d, e, depth - 1).Bytes?
  {
    var cursor :| ContainsAt(t, d, d[c].bytes, cursor, e);
    NeedsCode(t, d, d[c].bytes, 0, cursor, depth - 1);
  }

  /** What an entry uses has a meaning at a smaller depth. */
  lemma {:induction false} UsesShallower(t: Tables, d: seq<Entry>, c: nat, path: seq<nat>, e: nat, depth: nat)
    requires WellFormed(t) && IsDictionary(d) && Uses(t, d, c, path, e) && e < |d|
    requires EntryMeaning(t, d, c, depth).Bytes?
    ensures depth > |path| && EntryMeaning(t, d, e, depth - 1 - |path|).Bytes?
    decreases path
  {
    if path == [] {
      UsesOne(t, d, c, e, depth);
    } else {
      UsesOne(t, d, c, path[0], depth);
      UsesShallower(t, d, path[0], path[1..], e, depth - 1);
    }
  }

  /** An entry that uses itself has no meaning at any depth. */
  lemma {:induction false} CyclicNothing(t: Tables, d: seq<Entry>, c: nat, path: seq<nat>, depth: nat)
    requires WellFormed(t) && IsDictionary(d) && Uses(t, d, c, path, c)
    ensures EntryMeaning(t, d, c, depth) == Nothing
    decreases depth
  {
    if EntryMeaning(t, d, c, depth).Bytes? {
      UsesShallower(t, d, c, path, c, depth);
      CyclicNothing(t, d, c, path, depth - 1 - |path|);
    }
  }

  /** Nor has anything that uses such an entry. */
  lemma UsesCyclicNothing(t: Tables, d: seq<Entry>, input: seq<int>, c: nat, path: seq<nat>, b: seq<int>)
    requires WellFormed(t) && IsDictionary(d) && IsBytes(input)
    requires Contains(t, d, input, c) && Uses(t, d, c, path, c)
    ensures !StreamMeans(t, d, input, b)
  {
    forall depth: nat ensures Expansion(t, d, input, 0, depth) == Nothing {
      if Expansion(t, d, input, 0, depth).Bytes? {
        var cursor :| ContainsAt(t, d, input, cursor, c);
        NeedsCode(t, d, input, 0, cursor, depth);
        CyclicNothing(t, d, c, path, depth);
      }
    }
  }

  /** Within `g` levels the stream has a meaning of at most `limit` bytes. */
  ghost predicate Fits(t: Tables, d: seq<Entry>, input: seq<int>, g: int, limit: int)
    requires WellFormed(t) && IsDictionary(d) && IsBytes(input)
  {
    g >= 0 && Expansion(t, d, input, 0, g).Bytes? && |Expansion(t, d, input, 0, g).bytes| <= limit
  }

  /** Within `g` levels entry `c` has a meaning of at most `limit` bytes. */
  ghost predicate EntryFits(t: Tables, d: seq<Entry>, c: nat, g: int, limit: int)
    requires WellFormed(t) && IsDictionary(d) && c < |d|
  {
    g >= 0 && EntryMeaning(t, d, c, g).Bytes? && |EntryMeaning(t, d, c, g).bytes| <= limit
  }

  /** When a stream fits, so does each entry it reaches, in what the output leaves of the limit. */
  lemma CodeFits(t: Tables, d: seq<Entry>, input: seq<int>, cursor: nat, output: seq<int>, k: nat, g: int, limit: int)
    requires WellFormed(t) && IsDictionary(d) && IsBytes(input)
    requires MeansSoFar(t, d, input, cursor, output, k) && Reaches(t, d, input, 0, cursor)
    requires Fits(t, d, input, g, limit)
    ensures !NextCode(t, |d|, input, cursor).Bad?
    ensures var n := NextCode(t, |d|, input, cursor); n.Code? ==> EntryFits(t, d, n.code, g, limit - |output|)
  {
    var n := NextCode(t, |d|, input, cursor);
    var m := if g < k then k else g;
    StreamStable(t, d, input, g, m);
    assert Expansion(t, d, input, 0, m) == Join(Bytes(output), Expansion(t, d, input, cursor, m));
    if n.Code? {
      NeedsCode(t, d, input, 0, cursor, g);
      EntryStable(t, d, n.code, g, m);
    }
  }

  /** An entry that means `b` at some depth fits where it has a meaning and `b` fits. */
  lemma EntryOneMeaning(t: Tables, d: seq<Entry>, c: nat, b: seq<int>, g: nat)
    requires WellFormed(t) && IsDictionary(d) && c < |d| && Means(t, d, c, b)
    requires EntryMeaning(t, d, c, g).Bytes?
    ensures EntryMeaning(t, d, c, g) == Bytes(b)
  {
    var k: nat :| EntryMeaning(t, d, c, k) == Bytes(b);
    if k <= g { EntryStable(t, d, c, k, g); } else { EntryStable(t, d, c, g, k); }
  }

  /** Whenever entry `x` has a meaning, the stream has one at a smaller depth: `x` is waiting for it. */
  ghost predicate AwaitedBy(t: Tables, d: seq<Entry>, input: seq<int>, x: nat)
    requires WellFormed(t) && IsDictionary(d) && IsBytes(input) && x < |d|
  {
    forall g: nat :: EntryMeaning(t, d, x, g).Bytes? ==> MeansBelow(t, d, input, g)
  }

  ghost predicate MeansBelow(t: Tables, d: seq<Entry>, input: seq<int>, g: nat)
    requires WellFormed(t) && IsDictionary(d) && IsBytes(input)
  {
    exists h: nat :: h < g && Expansion(t, d, input, 0, h).Bytes?
  }

  /** What waits for a stream waits for the packed entries in it. */
  lemma AwaitedThrough(t: Tables, d: seq<Entry>, input: seq<int>, c: nat, x: nat)
    requires WellFormed(t) && IsDictionary(d) && IsBytes(input) && x < |d| && c < |d|
    requires AwaitedBy(t, d, input, x) && Contains(t, d, input, c) && d[c].state == Packed
    ensures AwaitedBy(t, d, d[c].bytes, x)
  {
    forall g: nat | EntryMeaning(t, d, x, g).Bytes? ensures MeansBelow(t, d, d[c].bytes, g) {
      assert MeansBelow(t, d, input, g);
      var h: nat :| h < g && Expansion(t, d, input, 0, h).Bytes?;
      var cursor :| ContainsAt(t, d, input, cursor, c);
      NeedsCode(t, d, input, 0, cursor, h);
      assert Expansion(t, d, d[c].bytes, 0, h - 1).Bytes?;
    }
  }

  lemma AwaitedByItself(t: Tables, d: seq<Entry>, c: nat)
    requires WellFormed(t) && IsDictionary(d) && c < |d| && d[c].state == Packed
    ensures AwaitedBy(t, d, d[c].bytes, c)
  {
    forall g: nat | EntryMeaning(t, d, c, g).Bytes? ensures MeansBelow(t, d, d[c].bytes, g) {
      assert Expansion(t, d, d[c].bytes, 0, g - 1).Bytes?;
    }
  }

  /** An entry waiting for a stream that contains it has no meaning. */
  lemma {:induction false} AwaitedNothing(t: Tables, d: seq<Entry>, input: seq<int>, c: nat, g: nat)
    requires WellFormed(t) && IsDictionary(d) && IsBytes(input) && c < |d|
    requires AwaitedBy(t, d, input, c) && Contains(t, d, input, c)
    ensures EntryMeaning(t, d, c, g) == Nothing
    decreases g
  {
    if EntryMeaning(t, d, c, g).Bytes? {
      assert MeansBelow(t, d, input, g);
      var h: nat :| h < g && Expansion(t, d, input, 0, h).Bytes?;
      var cursor :| ContainsAt(t, d, input, cursor, c);
      NeedsCode(t, d, input, 0, cursor, h);
      AwaitedNothing(t, d, input, c, h);
    }
  }

  /** The length of what entry `c` means; 0 when it means nothing. */
  ghost function Length(t: Tables, d: seq<Entry>, c: nat): nat
    requires WellFormed(t) && IsDictionary(d) && c < |d|
  {
    if b: seq<int> :| Means(t, d, c, b) then |b| else 0
  }

  lemma LengthMeans(t: Tables, d: seq<Entry>, c: nat, b: seq<int>)
    requires WellFormed(t) && IsDictionary(d) && c < |d| && Means(t, d, c, b)
    ensures Length(t, d, c) == |b|
  {
    var a: seq<int> :| Means(t, d, c, a) && Length(t, d, c) == |a|;
    OneEntryMeaning(t, d, c, a, b);
  }

  lemma OneEntryMeaning(t: Tables, d: seq<Entry>, c: nat, a: seq<int>, b: seq<int>)
    requires WellFormed(t) && IsDictionary(d) && c < |d| && Means(t, d, c, a) && Means(t, d, c, b)
    ensures a == b
  {
    var k: nat :| EntryMeaning(t, d, c, k) == Bytes(a);
    EntryOneMeaning(t, d, c, b, k);
  }

  lemma LengthIs(t: Tables, d: seq<Entry>, c: nat, g: nat)
    requires WellFormed(t) && IsDictionary(d) && c < |d| && EntryMeaning(t, d, c, g).Bytes?
    ensures Length(t, d, c) == |EntryMeaning(t, d, c, g).bytes|
  {
    assert Means(t, d, c, EntryMeaning(t, d, c, g).bytes);
    LengthMeans(t, d, c, EntryMeaning(t, d, c, g).bytes);
  }
}
