/** The HUFF decoder: a dictionary whose packed entries are expanded when first needed, and kept. */
module HuffDecoder {
  import opened HuffCodes
  import opened HuffMeaning

  const MAX_OUTPUT_BYTES := 64 * 1024 * 1024
  const MAX_CACHE_BYTES := 64 * 1024 * 1024
  const MAX_DEPTH := 128

  /** The size of a dictionary entry's own record: a byte vector and a state. */
  const ENTRY_BYTES := 32

  datatype HuffError = TooDeep | BadCode | Cyclic | OutputLimit | CacheLimit

  datatype Result = Ok(bytes: seq<int>) | Err(error: HuffError)

  /** The payload an entry is charged for: while it is being expanded, that of the packed bytes moved out of it. */
  ghost function Charge(original: Entry, e: Entry): nat {
    if e.state == Expanding then |original.bytes| else |e.bytes|
  }

  ghost function Charges(o: seq<Entry>, d: seq<Entry>): nat
    requires |o| == |d|
  {
    if d == [] then 0 else Charges(o[..|d| - 1], d[..|d| - 1]) + Charge(o[|d| - 1], d[|d| - 1])
  }

  lemma {:induction false} ChargesUpdate(o: seq<Entry>, d: seq<Entry>, c: nat, e: Entry)
    requires |o| == |d| && c < |d|
    ensures Charges(o, d[c := e]) == Charges(o, d) - Charge(o[c], d[c]) + Charge(o[c], e)
  {
    var n := |d| - 1;
    if c == n {
      assert d[c := e][..n] == d[..n];
    } else {
      ChargesUpdate(o[..n], d[..n], c, e);
      assert d[c := e][..n] == d[..n][c := e];
    }
  }

  /** An entry of the cache agrees with the dictionary `o` that was loaded. */
  ghost predicate EntryGood(t: Tables, o: seq<Entry>, d: seq<Entry>, c: nat)
    requires WellFormed(t) && IsDictionary(o) && |d| == |o| && c < |o|
  {
    match d[c].state
    case Packed => d[c] == o[c]
    case Expanding => o[c].state == Packed && d[c].bytes == []
    case Decoded => IsBytes(d[c].bytes) && Means(t, o, c, d[c].bytes)
  }

  ghost predicate CacheGood(t: Tables, o: seq<Entry>, d: seq<Entry>) {
    && WellFormed(t) && IsDictionary(o) && |d| == |o|
    && forall c :: 0 <= c < |o| ==> EntryGood(t, o, d, c)
  }

  /** How a call may change the cache: packed entries may become decoded, nothing else. */
  ghost predicate Evolves(d: seq<Entry>, e: seq<Entry>) {
    && |d| == |e|
    && forall c :: 0 <= c < |d| ==> d[c] == e[c] || (d[c].state == Packed && e[c].state == Decoded)
  }

  /** From bit `a` to bit `b` all codes are of decoded entries, with `n` bytes in all. */
  ghost predicate WarmTo(t: Tables, d: seq<Entry>, input: seq<int>, a: nat, b: nat, n: int)
    requires WellFormed(t) && IsBytes(input)
    decreases if a < 8 * |input| then 8 * |input| - a else 0
  {
    if a == b then n == 0
    else
      var c := NextCode(t, |d|, input, a);
      c.Code? && d[c.code].state == Decoded && WarmTo(t, d, input, c.next, b, n - |d[c.code].bytes|)
  }

  /** A record all of whose entries are decoded, and whose output is within the limit. */
  ghost predicate Warm(t: Tables, d: seq<Entry>, input: seq<int>)
    requires WellFormed(t) && IsBytes(input)
  {
    exists b: nat, n: int :: n <= MAX_OUTPUT_BYTES && WarmTo(t, d, input, 0, b, n) && NextCode(t, |d|, input, b).End?
  }

  lemma {:induction false} WarmToEvolves(t: Tables, d: seq<Entry>, e: seq<Entry>, input: seq<int>, a: nat, b: nat,
                                         n: int)
    requires WellFormed(t) && IsBytes(input) && Evolves(d, e) && WarmTo(t, d, input, a, b, n)
    ensures WarmTo(t, e, input, a, b, n)
    decreases if a < 8 * |input| then 8 * |input| - a else 0
  {
    if a != b {
      var c := NextCode(t, |d|, input, a);
      WarmToEvolves(t, d, e, input, c.next, b, n - |d[c.code].bytes|);
    }
  }

  /** Decoded entries stay, so a warm record stays warm. */
  lemma WarmEvolves(t: Tables, d: seq<Entry>, e: seq<Entry>, input: seq<int>)
    requires WellFormed(t) && IsBytes(input) && Evolves(d, e) && Warm(t, d, input)
    ensures Warm(t, e, input)
  {
    var b: nat, n: int :| n <= MAX_OUTPUT_BYTES && WarmTo(t, d, input, 0, b, n) && NextCode(t, |d|, input, b).End?;
    WarmToEvolves(t, d, e, input, 0, b, n);
  }

  lemma {:induction false} WarmToExtend(t: Tables, d: seq<Entry>, input: seq<int>, a: nat, b: nat, n: int)
    requires WellFormed(t) && IsBytes(input) && WarmTo(t, d, input, a, b, n) && a <= b
    requires var c := NextCode(t, |d|, input, b); c.Code? && d[c.code].state == Decoded
    ensures var c := NextCode(t, |d|, input, b); WarmTo(t, d, input, a, c.next, n + |d[c.code].bytes|)
    decreases if a < 8 * |input| then 8 * |input| - a else 0
  {
    if a != b {
      var c := NextCode(t, |d|, input, a);
      WarmToBound(t, d, input, c.next, b, n - |d[c.code].bytes|);
      WarmToExtend(t, d, input, c.next, b, n - |d[c.code].bytes|);
    }
  }

  lemma {:induction false} WarmToBound(t: Tables, d: seq<Entry>, input: seq<int>, a: nat, b: nat, n: int)
    requires WellFormed(t) && IsBytes(input) && WarmTo(t, d, input, a, b, n)
    ensures a <= b && n >= 0
    decreases if a < 8 * |input| then 8 * |input| - a else 0
  {
    if a != b {
      var c := NextCode(t, |d|, input, a);
      WarmToBound(t, d, input, c.next, b, n - |d[c.code].bytes|);
    }
  }

  lemma EvolvesTransitive(d: seq<Entry>, e: seq<Entry>, f: seq<Entry>)
    requires Evolves(d, e) && Evolves(e, f)
    ensures Evolves(d, f)
  {
  }

  lemma CacheUpdate(t: Tables, o: seq<Entry>, d: seq<Entry>, c: nat, e: Entry)
    requires CacheGood(t, o, d) && c < |o| && EntryGood(t, o, d[c := e], c)
    ensures CacheGood(t, o, d[c := e])
  {
    var u := d[c := e];
    forall i | 0 <= i < |o| ensures EntryGood(t, o, u, i) {
      assert EntryGood(t, o, d, i);
    }
  }

  /** Moving an entry's bytes out, evolving, and putting bytes back is an evolution. */
  lemma DetourEvolves(d: seq<Entry>, e: seq<Entry>, c: nat, moved: Entry, x: Entry)
    requires c < |d| && d[c].state == Packed && Evolves(d[c := moved], e)
    requires x == d[c] || x.state == Decoded
    ensures Evolves(d, e[c := x])
  {
    forall i | 0 <= i < |d| ensures d[i] == e[c := x][i] || (d[i].state == Packed && e[c := x][i].state == Decoded) {
      assert i != c ==> d[c := moved][i] == d[i];
    }
  }

  /** What decoding a stream has established at bit `cursor`. */
  ghost predicate Decoding(t: Tables, o: seq<Entry>, d: seq<Entry>, input: seq<int>, cursor: int, output: seq<int>,
                           k: nat)
  {
    && WellFormed(t) && IsDictionary(o) && |d| == |o| && IsBytes(input) && IsBytes(output)
    && 0 <= cursor <= 8 * |input| && |output| <= MAX_OUTPUT_BYTES
    && MeansSoFar(t, o, input, cursor, output, k)
    && WarmTo(t, d, input, 0, cursor, |output|)
  }

  /** The rest of a warm record, up to bit `b`, is `n` bytes of decoded entries. */
  ghost predicate WarmRest(t: Tables, d: seq<Entry>, input: seq<int>, cursor: int, b: nat, n: int)
    requires WellFormed(t) && IsBytes(input)
  {
    0 <= cursor && WarmTo(t, d, input, cursor, b, n) && NextCode(t, |d|, input, b).End?
  }

  /** After `output`, what is left of a warm record of `n` bytes. */
  ghost predicate WarmLeft(t: Tables, d: seq<Entry>, input: seq<int>, cursor: int, b: nat, n: int, output: seq<int>)
    requires WellFormed(t) && IsBytes(input)
  {
    n <= MAX_OUTPUT_BYTES && WarmRest(t, d, input, cursor, b, n - |output|)
  }

  lemma DecodingStart(t: Tables, o: seq<Entry>, d: seq<Entry>, input: seq<int>)
    requires CacheGood(t, o, d) && IsBytes(input)
    ensures Decoding(t, o, d, input, 0, [], 0)
  {
    MeansStart(t, o, input);
  }

  /** Unless appending the entry of the code `n` has failed, it has decoded the stream up to the next code. */
  lemma DecodingStep(failed: bool, t: Tables, o: seq<Entry>, d: seq<Entry>, e: seq<Entry>, input: seq<int>,
                     cursor: int, output: seq<int>, k: nat, n: Next, longer: seq<int>)
    returns (more: nat)
    requires Decoding(t, o, d, input, cursor, output, k) && Evolves(d, e) && CacheGood(t, o, e)
    requires n == NextCode(t, |d|, input, cursor) && n.Code?
    requires !failed ==> e[n.code].state == Decoded && longer == output + e[n.code].bytes
    requires |longer| <= MAX_OUTPUT_BYTES
    ensures !failed ==> Decoding(t, o, e, input, n.next, longer, more)
  {
    more := k;
    if !failed {
      WarmToEvolves(t, d, e, input, 0, cursor, |output|);
      WarmToExtend(t, e, input, 0, cursor, |output|);
      assert EntryGood(t, o, e, n.code);
      more := MeansStep(t, o, input, cursor, output, k, e[n.code].bytes);
    }
  }

  lemma DecodingEnd(t: Tables, o: seq<Entry>, d: seq<Entry>, input: seq<int>, cursor: int, output: seq<int>, k: nat)
    requires Decoding(t, o, d, input, cursor, output, k) && NextCode(t, |d|, input, cursor).End?
    ensures StreamMeans(t, o, input, output) && Warm(t, d, input)
  {
    MeansEnd(t, o, input, cursor, output, k);
  }

  /** In a warm record the next code is of a decoded entry that fits, or the record ends. */
  lemma WarmNext(t: Tables, d: seq<Entry>, input: seq<int>, cursor: int, b: nat, n: int)
    requires WellFormed(t) && IsBytes(input) && WarmRest(t, d, input, cursor, b, n)
    ensures var c := NextCode(t, |d|, input, cursor);
      c.End? || (c.Code? && d[c.code].state == Decoded && |d[c.code].bytes| <= n
                 && WarmRest(t, d, input, c.next, b, n - |d[c.code].bytes|))
  {
    if cursor != b {
      var c := NextCode(t, |d|, input, cursor);
      WarmToBound(t, d, input, c.next, b, n - |d[c.code].bytes|);
    }
  }

  /** In a warm record the next entry is decoded, fits, and leaves the rest warm. */
  lemma WarmStep(warm: bool, t: Tables, d: seq<Entry>, input: seq<int>, cursor: int, b: nat, n: int, output: seq<int>,
                 c: Next)
    requires WellFormed(t) && IsBytes(input) && cursor >= 0 && c == NextCode(t, |d|, input, cursor) && c.Code?
    requires warm ==> WarmLeft(t, d, input, cursor, b, n, output)
    ensures warm ==> d[c.code].state == Decoded && |output| + |d[c.code].bytes| <= MAX_OUTPUT_BYTES
    ensures warm ==> WarmLeft(t, d, input, c.next, b, n, output + d[c.code].bytes)
  {
    if warm { WarmNext(t, d, input, cursor, b, n - |output|); }
  }

  lemma WarmGood(warm: bool, t: Tables, d: seq<Entry>, input: seq<int>, cursor: int, b: nat, n: int, output: seq<int>)
    requires WellFormed(t) && IsBytes(input) && cursor >= 0
    requires warm ==> WarmLeft(t, d, input, cursor, b, n, output)
    ensures warm ==> !NextCode(t, |d|, input, cursor).Bad?
  {
    if warm { WarmNext(t, d, input, cursor, b, n - |output|); }
  }

  /** Every entry being expanded waits for this stream. */
  ghost predicate Waiting(t: Tables, o: seq<Entry>, d: seq<Entry>, input: seq<int>) {
    && CacheGood(t, o, d) && IsBytes(input)
    && forall x :: 0 <= x < |d| && d[x].state == Expanding ==> AwaitedBy(t, o, input, x)
  }

  /** With nothing being expanded, nothing waits. */
  ghost predicate Idle(d: seq<Entry>) {
    forall x :: 0 <= x < |d| ==> d[x].state != Expanding
  }

  /** Beginning to expand a packed entry of the stream. */
  lemma WaitingBegin(t: Tables, o: seq<Entry>, d: seq<Entry>, input: seq<int>, c: nat, e: seq<Entry>)
    requires Waiting(t, o, d, input) && c < |d| && d[c].state == Packed && Contains(t, o, input, c)
    requires e == d[c := Entry([], Expanding)] && CacheGood(t, o, e)
    ensures Waiting(t, o, e, o[c].bytes)
  {
    assert EntryGood(t, o, d, c);
    forall x | 0 <= x < |e| && e[x].state == Expanding ensures AwaitedBy(t, o, o[c].bytes, x) {
      if x == c { AwaitedByItself(t, o, c); } else { AwaitedThrough(t, o, input, c, x); }
    }
  }

  lemma {:induction false} WarmToReaches(t: Tables, o: seq<Entry>, d: seq<Entry>, input: seq<int>, a: nat, b: nat,
                                         n: int)
    requires WellFormed(t) && IsBytes(input) && |o| == |d| && WarmTo(t, d, input, a, b, n)
    ensures Reaches(t, o, input, a, b)
    decreases if a < 8 * |input| then 8 * |input| - a else 0
  {
    if a != b {
      var c := NextCode(t, |d|, input, a);
      WarmToReaches(t, o, d, input, c.next, b, n - |d[c.code].bytes|);
    }
  }

  /** The code at the cursor is one of the stream's. */
  lemma DecodingContains(t: Tables, o: seq<Entry>, d: seq<Entry>, input: seq<int>, cursor: int, output: seq<int>,
                         k: nat)
    requires Decoding(t, o, d, input, cursor, output, k) && NextCode(t, |d|, input, cursor).Code?
    ensures Contains(t, o, input, NextCode(t, |d|, input, cursor).code)
  {
    WarmToReaches(t, o, d, input, 0, cursor, |output|);
    assert ContainsAt(t, o, input, cursor, NextCode(t, |d|, input, cursor).code);
  }

  /** A stream that fits has no bad code, and its next entry fits. */
  lemma DecodingFits(t: Tables, o: seq<Entry>, d: seq<Entry>, input: seq<int>, cursor: int, output: seq<int>, k: nat,
                     g: int)
    requires Decoding(t, o, d, input, cursor, output, k) && Fits(t, o, input, g, MAX_OUTPUT_BYTES)
    ensures !NextCode(t, |d|, input, cursor).Bad?
    ensures var n := NextCode(t, |d|, input, cursor);
      n.Code? ==> EntryFits(t, o, n.code, g, MAX_OUTPUT_BYTES - |output|)
  {
    WarmToReaches(t, o, d, input, 0, cursor, |output|);
    CodeFits(t, o, input, cursor, output, k, g, MAX_OUTPUT_BYTES);
  }

  /** The next entry is no longer than what is still to come. */
  lemma DecodingRest(t: Tables, o: seq<Entry>, d: seq<Entry>, input: seq<int>, cursor: int, output: seq<int>, k: nat,
                     g: int)
    requires Decoding(t, o, d, input, cursor, output, k) && Fits(t, o, input, g, MAX_OUTPUT_BYTES)
    requires NextCode(t, |d|, input, cursor).Code?
    ensures Length(t, o, NextCode(t, |d|, input, cursor).code) <= |Expansion(t, o, input, 0, g).bytes| - |output|
  {
    WarmToReaches(t, o, d, input, 0, cursor, |output|);
    CodeFits(t, o, input, cursor, output, k, g, |Expansion(t, o, input, 0, g).bytes|);
    LengthIs(t, o, NextCode(t, |d|, input, cursor).code, g);
  }

  /** In a stream that fits, the next code is good, and its entry fits what is left and is no longer than that. */
  lemma MayDecode(t: Tables, o: seq<Entry>, d: seq<Entry>, input: seq<int>, cursor: int, output: seq<int>, k: nat,
                  g: int, n: Next)
    requires Decoding(t, o, d, input, cursor, output, k) && n == NextCode(t, |d|, input, cursor)
    ensures Fits(t, o, input, g, MAX_OUTPUT_BYTES) ==> !n.Bad?
    ensures Fits(t, o, input, g, MAX_OUTPUT_BYTES) && n.Code? ==>
      && EntryFits(t, o, n.code, g, MAX_OUTPUT_BYTES - |output|)
      && Length(t, o, n.code) <= |Expansion(t, o, input, 0, g).bytes| - |output|
  {
    if Fits(t, o, input, g, MAX_OUTPUT_BYTES) {
      DecodingFits(t, o, d, input, cursor, output, k, g);
      if n.Code? { DecodingRest(t, o, d, input, cursor, output, k, g); }
    }
  }

  /** A decoded entry too long for what is left does not fit. */
  lemma TooLong(t: Tables, o: seq<Entry>, d: seq<Entry>, c: nat, g: int, left: int)
    requires CacheGood(t, o, d) && c < |d| && d[c].state == Decoded && |d[c].bytes| > left
    ensures !EntryFits(t, o, c, g, left)
  {
    assert EntryGood(t, o, d, c);
    if EntryFits(t, o, c, g, left) { EntryOneMeaning(t, o, c, d[c].bytes, g); }
  }

  /** The total length of what the entries being expanded, among the first `n`, mean. */
  ghost function Expected(t: Tables, o: seq<Entry>, d: seq<Entry>, n: nat): nat
    requires WellFormed(t) && IsDictionary(o) && |d| == |o| && n <= |o|
  {
    if n == 0 then 0
    else Expected(t, o, d, n - 1) + if d[n - 1].state == Expanding then Length(t, o, n - 1) else 0
  }

  /** The payload of the first `n` entries, packed and expanded together. */
  ghost function FullSize(t: Tables, o: seq<Entry>, n: nat): nat
    requires WellFormed(t) && IsDictionary(o) && n <= |o|
  {
    if n == 0 then 0
    else FullSize(t, o, n - 1) + |o[n - 1].bytes| + if o[n - 1].state == Packed then Length(t, o, n - 1) else 0
  }

  /** The cache limit is enough for the dictionary with every entry both packed and expanded. */
  ghost predicate Affordable(t: Tables, o: seq<Entry>)
    requires WellFormed(t) && IsDictionary(o)
  {
    |o| * ENTRY_BYTES + FullSize(t, o, |o|) <= MAX_CACHE_BYTES
  }

  /** A pending output of `pending` bytes is covered by what the entries being expanded mean. */
  ghost predicate Covered(t: Tables, o: seq<Entry>, d: seq<Entry>, pending: int)
    requires WellFormed(t) && IsDictionary(o)
  {
    |d| == |o| && Affordable(t, o) && pending <= Expected(t, o, d, |o|)
  }

  lemma {:induction false} ExpectedEvolves(t: Tables, o: seq<Entry>, d: seq<Entry>, e: seq<Entry>, n: nat)
    requires WellFormed(t) && IsDictionary(o) && |d| == |o| && n <= |o| && Evolves(d, e)
    ensures Expected(t, o, e, n) == Expected(t, o, d, n)
  {
    if n > 0 { ExpectedEvolves(t, o, d, e, n - 1); }
  }

  lemma {:induction false} ExpectedBegin(t: Tables, o: seq<Entry>, d: seq<Entry>, c: nat, n: nat)
    requires WellFormed(t) && IsDictionary(o) && |d| == |o| && n <= |o| && c < |o| && d[c].state != Expanding
    ensures Expected(t, o, d[c := Entry([], Expanding)], n) ==
      Expected(t, o, d, n) + if c < n then Length(t, o, c) else 0
  {
    if n > 0 { ExpectedBegin(t, o, d, c, n - 1); }
  }

  /** What the cache holds and what is expected of it stay within the full size. */
  lemma {:induction false} WithinFullSize(t: Tables, o: seq<Entry>, d: seq<Entry>, n: nat)
    requires CacheGood(t, o, d) && n <= |o|
    ensures Charges(o[..n], d[..n]) + Expected(t, o, d, n) <= FullSize(t, o, n)
  {
    if n > 0 {
      WithinFullSize(t, o, d, n - 1);
      assert o[..n][..n - 1] == o[..n - 1] && d[..n][..n - 1] == d[..n - 1];
      assert EntryGood(t, o, d, n - 1);
      if d[n - 1].state == Decoded {
        LengthMeans(t, o, n - 1, d[n - 1].bytes);
        if o[n - 1].state == Decoded { LengthIs(t, o, n - 1, 0); }
      }
    }
  }

  lemma CoveredEvolves(t: Tables, o: seq<Entry>, d: seq<Entry>, e: seq<Entry>, pending: int)
    requires WellFormed(t) && IsDictionary(o) && Evolves(d, e) && Covered(t, o, d, pending)
    ensures Covered(t, o, e, pending)
  {
    ExpectedEvolves(t, o, d, e, |o|);
  }

  /** Beginning an entry that fits makes room for its bytes. */
  lemma CoveredBegin(t: Tables, o: seq<Entry>, d: seq<Entry>, c: nat, pending: int, g: int)
    requires CacheGood(t, o, d) && c < |o| && d[c].state == Packed && Covered(t, o, d, pending)
    requires EntryFits(t, o, c, g, MAX_OUTPUT_BYTES)
    ensures g > 0 && Fits(t, o, o[c].bytes, g - 1, MAX_OUTPUT_BYTES)
    ensures Covered(t, o, d[c := Entry([], Expanding)], pending + |Expansion(t, o, o[c].bytes, 0, g - 1).bytes|)
  {
    assert EntryGood(t, o, d, c);
    LengthIs(t, o, c, g);
    ExpectedBegin(t, o, d, c, |o|);
  }

  /** An entry that fits leaves its stream covered when it is begun. */
  lemma MayBegin(t: Tables, o: seq<Entry>, d: seq<Entry>, c: nat, pending: int, g: int, h: int)
    requires CacheGood(t, o, d) && c < |o| && d[c].state == Packed && h == g - 1
    ensures EntryFits(t, o, c, g, MAX_OUTPUT_BYTES) && Covered(t, o, d, pending) ==>
      && Fits(t, o, o[c].bytes, h, MAX_OUTPUT_BYTES)
      && Covered(t, o, d[c := Entry([], Expanding)], pending + |Expansion(t, o, o[c].bytes, 0, h).bytes|)
  {
    if EntryFits(t, o, c, g, MAX_OUTPUT_BYTES) && Covered(t, o, d, pending) { CoveredBegin(t, o, d, c, pending, g); }
  }

  /** A covered output with one more decoded entry is within the cache limit. */
  lemma CacheEnough(t: Tables, o: seq<Entry>, d: seq<Entry>, e: seq<Entry>, c: nat, expanding: int)
    requires Evolves(d, e) && CacheGood(t, o, e) && c < |e| && e[c].state == Decoded
    requires Covered(t, o, d, expanding + Length(t, o, c))
    ensures |e| * ENTRY_BYTES + Charges(o, e) + expanding + |e[c].bytes| <= MAX_CACHE_BYTES
  {
    assert EntryGood(t, o, e, c);
    LengthMeans(t, o, c, e[c].bytes);
    CoveredEvolves(t, o, d, e, expanding + Length(t, o, c));
    WithinFullSize(t, o, e, |o|);
    assert o[..|o|] == o && e[..|o|] == e;
  }

  lemma FreshCache(t: Tables, d: seq<Entry>)
    requires WellFormed(t) && IsDictionary(d)
    ensures CacheGood(t, d, d)
  {
    forall c | 0 <= c < |d| ensures EntryGood(t, d, d, c) {
      if d[c].state == Decoded { assert EntryMeaning(t, d, c, 0) == Bytes(d[c].bytes); }
    }
  }

  ghost function Sum(ns: seq<nat>): nat {
    if ns == [] then 0 else Sum(ns[..|ns| - 1]) + ns[|ns| - 1]
  }

  ghost predicate TopIs(ns: seq<nat>, n: nat) {
    ns != [] && ns[|ns| - 1] == n
  }

  /** The pending lengths after the innermost output has become `n` long; a record at depth 0 has none. */
  ghost function Topped(ns: seq<nat>, depth: nat, n: nat): seq<nat> {
    if depth == 0 || ns == [] then ns else ns[..|ns| - 1] + [n]
  }

  lemma SumTop(ns: seq<nat>, n: nat)
    requires ns != []
    ensures Sum(Topped(ns, 1, n)) == Sum(ns) - ns[|ns| - 1] + n
  {
    var front := ns[..|ns| - 1];
    assert (front + [n])[..|front|] == front;
  }

  lemma ToppedSame(ns: seq<nat>, depth: nat, n: nat)
    requires TopIs(ns, n)
    ensures Topped(ns, depth, n) == ns
  {
  }

  lemma SumPush(ns: seq<nat>, n: nat)
    ensures Sum(ns + [n]) == Sum(ns) + n
  {
    assert (ns + [n])[..|ns|] == ns;
  }

  class Decoder {
    const tables: Tables
    ghost const original: seq<Entry>
    var dictionary: seq<Entry>
    var dictionaryBytes: int
    var expandingBytes: int
    /** The lengths of the outputs of the entries being expanded, so far; the innermost is last. */
    ghost var nested: seq<nat>

    ghost predicate Valid()
      reads this
    {
      && CacheGood(tables, original, dictionary)
      && dictionaryBytes == |dictionary| * ENTRY_BYTES + Charges(original, dictionary)
      && expandingBytes == Sum(nested) && dictionaryBytes + expandingBytes <= MAX_CACHE_BYTES
    }

    /** A decoder of a dictionary just loaded. */
    constructor (t: Tables, d: seq<Entry>, bytes: int)
      requires WellFormed(t) && IsDictionary(d)
      requires bytes == |d| * ENTRY_BYTES + Charges(d, d) <= MAX_CACHE_BYTES
      ensures Valid() && tables == t && original == d && dictionary == d && expandingBytes == 0
      ensures nested == []
    {
      tables, original, dictionary, dictionaryBytes, expandingBytes, nested := t, d, d, bytes, 0, [];
      new;
      FreshCache(t, d);
    }

    /** At depth above 0, what is still to come of the output of a stream that fits. */
    ghost function Pending(input: seq<int>, depth: nat, output: seq<int>): int
      requires WellFormed(tables) && IsDictionary(original) && IsBytes(input)
      requires depth <= MAX_DEPTH && Fits(tables, original, input, MAX_DEPTH - depth, MAX_OUTPUT_BYTES)
    {
      if depth == 0 then 0 else |Expansion(tables, original, input, 0, MAX_DEPTH - depth).bytes| - |output|
    }

    /** Mark a packed entry as being expanded and move its bytes out. */
    method Begin(code: nat, ghost within: seq<int>) returns (packed: seq<int>)
      requires Valid() && code < |dictionary| && dictionary[code].state == Packed
      requires Waiting(tables, original, dictionary, within) && Contains(tables, original, within, code)
      modifies this`dictionary
      ensures old(dictionary)[code] == original[code] && Waiting(tables, original, dictionary, packed)
      ensures Valid() && packed == original[code].bytes && IsBytes(packed)
      ensures dictionary == old(dictionary)[code := Entry([], Expanding)]
    {
      assert EntryGood(tables, original, dictionary, code);
      packed := dictionary[code].bytes;
      ChargesUpdate(original, dictionary, code, Entry([], Expanding));
      CacheUpdate(tables, original, dictionary, code, Entry([], Expanding));
      WaitingBegin(tables, original, dictionary, within, code, dictionary[code := Entry([], Expanding)]);
      dictionary := dictionary[code := Entry([], Expanding)];
    }

    /** Put the expanded bytes of an entry in place; its pending output becomes payload. */
    method Finish(code: nat, packed: seq<int>, bytes: seq<int>)
      requires Valid() && code < |dictionary| && dictionary[code].state == Expanding
      requires packed == original[code].bytes && IsBytes(bytes) && nested != [] && nested[|nested| - 1] == |bytes|
      requires original[code].state == Packed && IsBytes(packed) && StreamMeans(tables, original, packed, bytes)
      modifies this
      ensures Valid() && expandingBytes == old(expandingBytes) - |bytes| && nested == old(nested)[..|old(nested)| - 1]
      ensures dictionary == old(dictionary)[code := Entry(bytes, Decoded)]
    {
      EntryFromStream(tables, original, code, bytes);
      ChargesUpdate(original, dictionary, code, Entry(bytes, Decoded));
      CacheUpdate(tables, original, dictionary, code, Entry(bytes, Decoded));
      expandingBytes, nested := expandingBytes - |bytes|, nested[..|nested| - 1];
      dictionaryBytes := dictionaryBytes - |packed| + |bytes|;
      dictionary := dictionary[code := Entry(bytes, Decoded)];
    }

    /** Give an entry its packed bytes back. */
    method Restore(code: nat, packed: seq<int>)
      requires Valid() && code < |dictionary| && dictionary[code].state == Expanding && packed == original[code].bytes
      modifies this`dictionary
      ensures Valid() && dictionary == old(dictionary)[code := original[code]]
    {
      assert EntryGood(tables, original, dictionary, code);
      ChargesUpdate(original, dictionary, code, original[code]);
      CacheUpdate(tables, original, dictionary, code, original[code]);
      dictionary := dictionary[code := Entry(packed, Packed)];
    }

    /** Make sure entry `code` is decoded. */
    method Expand(code: nat, depth: nat, ghost within: seq<int>) returns (failed: bool, error: HuffError)
      requires Valid() && code < |dictionary| && depth <= MAX_DEPTH
      requires Waiting(tables, original, dictionary, within) && Contains(tables, original, within, code)
      modifies this
      ensures Valid() && Evolves(old(dictionary), dictionary) && expandingBytes == old(expandingBytes)
      ensures nested == old(nested)
      ensures !failed ==> dictionary[code].state == Decoded
      ensures failed && EntryFits(tables, original, code, MAX_DEPTH - depth, MAX_OUTPUT_BYTES) ==>
        error == CacheLimit && !Covered(tables, original, old(dictionary), old(expandingBytes))
      ensures old(dictionary[code].state) == Decoded ==> !failed && dictionary == old(dictionary)
      decreases MAX_DEPTH + 1 - depth, 1
    {
      failed, error := false, Cyclic;
      if dictionary[code].state == Decoded { return; }
      if dictionary[code].state == Expanding {
        AwaitedNothing(tables, original, within, code, MAX_DEPTH - depth);
        return true, Cyclic;
      }
      failed, error := ExpandPacked(code, depth, within);
    }

    /** Expand a packed entry. */
    method ExpandPacked(code: nat, depth: nat, ghost within: seq<int>) returns (failed: bool, error: HuffError)
      requires Valid() && code < |dictionary| && depth <= MAX_DEPTH && dictionary[code].state == Packed
      requires Waiting(tables, original, dictionary, within) && Contains(tables, original, within, code)
      modifies this
      ensures Valid() && Evolves(old(dictionary), dictionary) && expandingBytes == old(expandingBytes)
      ensures nested == old(nested)
      ensures !failed ==> dictionary[code].state == Decoded
      ensures failed && EntryFits(tables, original, code, MAX_DEPTH - depth, MAX_OUTPUT_BYTES) ==>
        error == CacheLimit && !Covered(tables, original, old(dictionary), old(expandingBytes))
      decreases MAX_DEPTH + 1 - depth, 0
    {
      ghost var start := dictionary;
      MayBegin(tables, original, dictionary, code, expandingBytes, MAX_DEPTH - depth, MAX_DEPTH - (depth + 1));
      var packed := Begin(code, within);
      var decoded := Decode(packed, depth + 1);
      failed, error := decoded.Err?, if decoded.Ok? then Cyclic else decoded.error;
      Settle(code, packed, decoded, start);
    }

    /** Put the bytes of an entry in place that has been expanded, or its packed bytes when that has failed. */
    method Settle(code: nat, packed: seq<int>, decoded: Result, ghost start: seq<Entry>)
      requires Valid() && code < |start| == |original| && start[code].state == Packed && start[code] == original[code]
      requires Evolves(start[code := Entry([], Expanding)], dictionary)
      requires packed == original[code].bytes && IsBytes(packed)
      requires decoded.Ok? ==> IsBytes(decoded.bytes) && StreamMeans(tables, original, packed, decoded.bytes)
      requires decoded.Ok? ==> TopIs(nested, |decoded.bytes|)
      modifies this
      ensures Valid() && Evolves(start, dictionary)
      ensures expandingBytes == old(expandingBytes) - if decoded.Ok? then |decoded.bytes| else 0
      ensures nested == if decoded.Ok? then old(nested)[..|old(nested)| - 1] else old(nested)
      ensures decoded.Ok? ==> dictionary[code].state == Decoded
    {
      ghost var x := if decoded.Ok? then Entry(decoded.bytes, Decoded) else original[code];
      DetourEvolves(start, dictionary, code, Entry([], Expanding), x);
      if decoded.Ok? {
        Finish(code, packed, decoded.bytes);
      } else {
        Restore(code, packed);
      }
    }

    /**
     Decode a stream; at depth 0 a record, at larger depths the bytes of an entry. Decoded bytes are what
     the stream means, whatever has been decoded before; a failure leaves no trace but entries decoded on
     the way; and a record whose entries are all decoded cannot fail.
     */
    method Decode(input: seq<int>, depth: nat) returns (r: Result)
      requires Valid() && Waiting(tables, original, dictionary, input)
      modifies this
      ensures Valid() && Evolves(old(dictionary), dictionary)
      ensures r.Ok? ==> IsBytes(r.bytes) && |r.bytes| <= MAX_OUTPUT_BYTES
      ensures r.Ok? ==> StreamMeans(tables, original, input, r.bytes)
      ensures r.Ok? ==> Warm(tables, dictionary, input)
      ensures r.Err? && Fits(tables, original, input, MAX_DEPTH - depth, MAX_OUTPUT_BYTES) ==>
        r.error == CacheLimit &&
        !Covered(tables, original, old(dictionary), old(expandingBytes) + Pending(input, depth, []))
      ensures expandingBytes == old(expandingBytes) + if r.Ok? && depth > 0 then |r.bytes| else 0
      ensures nested == old(nested) + if r.Ok? && depth > 0 then [|r.bytes|] else []
      ensures depth == 0 && Warm(tables, old(dictionary), input) ==> r.Ok? && dictionary == old(dictionary)
      decreases if depth <= MAX_DEPTH then MAX_DEPTH + 1 - depth else 0, 7
    {
      if depth > MAX_DEPTH { return Err(TooDeep); }
      if depth > 0 {
        SumPush(nested, 0);
        nested := nested + [0];
      }
      var failed, error, output := DecodeInto(input, depth);
      if failed {
        if depth > 0 {
          expandingBytes, nested := expandingBytes - |output|, nested[..|nested| - 1];
        }
        return Err(error);
      }
      r := Ok(output);
    }

    /** The innermost pending output grows. */
    method Grow(ghost depth: nat, ghost before: nat, length: nat)
      requires Valid() && depth > 0 && TopIs(nested, before)
      requires dictionaryBytes + expandingBytes + length <= MAX_CACHE_BYTES
      modifies this`expandingBytes, this`nested
      ensures Valid() && expandingBytes == old(expandingBytes) + length
      ensures nested == Topped(old(nested), depth, before + length)
    {
      SumTop(nested, before + length);
      expandingBytes, nested := expandingBytes + length, Topped(nested, depth, before + length);
    }

    /** Append the decoded bytes of entry `code` to the output, within the limits. */
    method AppendEntry(code: nat, depth: nat, output: seq<int>, ghost within: seq<int>)
      returns (failed: bool, error: HuffError, longer: seq<int>)
      requires Valid() && code < |dictionary| && depth <= MAX_DEPTH && |output| <= MAX_OUTPUT_BYTES
      requires depth > 0 ==> TopIs(nested, |output|)
      requires Waiting(tables, original, dictionary, within) && Contains(tables, original, within, code)
      modifies this
      ensures Valid() && Evolves(old(dictionary), dictionary)
      ensures |longer| <= MAX_OUTPUT_BYTES
      ensures expandingBytes == old(expandingBytes) + if depth > 0 then |longer| - |output| else 0
      ensures nested == Topped(old(nested), depth, |longer|)
      ensures failed ==> longer == output
      ensures failed && EntryFits(tables, original, code, MAX_DEPTH - depth, MAX_OUTPUT_BYTES - |output|) ==>
        error == CacheLimit &&
        !Covered(tables, original, old(dictionary),
                 old(expandingBytes) + if depth > 0 then Length(tables, original, code) else 0)
      ensures !failed ==> dictionary[code].state == Decoded && longer == output + dictionary[code].bytes
      ensures depth == 0 && old(dictionary[code].state) == Decoded
              && |output| + |old(dictionary[code].bytes)| <= MAX_OUTPUT_BYTES ==>
        !failed && dictionary == old(dictionary)
      decreases MAX_DEPTH + 1 - depth, 2
    {
      longer := output;
      if depth > 0 { ToppedSame(nested, depth, |output|); }
      failed, error := Expand(code, depth, within);
      if failed { return; }
      failed, error, longer := AppendDecoded(code, depth, output, old(dictionary));
    }

    /** Append the bytes of a decoded entry, within the limits; `start` is the dictionary before it was decoded. */
    method AppendDecoded(code: nat, depth: nat, output: seq<int>, ghost start: seq<Entry>)
      returns (failed: bool, error: HuffError, longer: seq<int>)
      requires Valid() && code < |dictionary| && depth <= MAX_DEPTH && |output| <= MAX_OUTPUT_BYTES
      requires depth > 0 ==> TopIs(nested, |output|)
      requires dictionary[code].state == Decoded && Evolves(start, dictionary)
      modifies this`expandingBytes, this`nested
      ensures Valid() && |longer| <= MAX_OUTPUT_BYTES
      ensures expandingBytes == old(expandingBytes) + if depth > 0 then |longer| - |output| else 0
      ensures nested == Topped(old(nested), depth, |longer|)
      ensures longer == if failed then output else output + dictionary[code].bytes
      ensures failed && EntryFits(tables, original, code, MAX_DEPTH - depth, MAX_OUTPUT_BYTES - |output|) ==>
        error == CacheLimit && depth > 0
        && !Covered(tables, original, start, old(expandingBytes) + Length(tables, original, code))
      ensures failed ==> |output| + |dictionary[code].bytes| > MAX_OUTPUT_BYTES || depth > 0
    {
      failed, error, longer := false, OutputLimit, output;
      if depth > 0 { ToppedSame(nested, depth, |output|); }
      var length := |dictionary[code].bytes|;
      if length > MAX_OUTPUT_BYTES - |output| {
        TooLong(tables, original, dictionary, code, MAX_DEPTH - depth, MAX_OUTPUT_BYTES - |output|);
        return true, OutputLimit, output;
      }
      if depth > 0 {
        if length > MAX_CACHE_BYTES - dictionaryBytes - expandingBytes {
          if Covered(tables, original, start, expandingBytes + Length(tables, original, code)) {
            CacheEnough(tables, original, start, dictionary, code, expandingBytes);
          }
          return true, CacheLimit, output;
        }
        Grow(depth, |output|, length);
      }
      longer := output + dictionary[code].bytes;
    }

    /** Append the entry of the code `c` read at bit `cursor`. */
    method DecodeOne(input: seq<int>, cursor: int, c: Next, depth: nat, output: seq<int>,
                     ghost k: nat, ghost warm: bool, ghost b: nat, ghost n: int)
      returns (failed: bool, error: HuffError, longer: seq<int>, ghost more: nat)
      requires Valid() && depth <= MAX_DEPTH && Decoding(tables, original, dictionary, input, cursor, output, k)
      requires c == NextCode(tables, |dictionary|, input, cursor) && c.Code?
      requires depth > 0 ==> TopIs(nested, |output|)
      requires Waiting(tables, original, dictionary, input)
      requires warm ==> depth == 0 && WarmLeft(tables, dictionary, input, cursor, b, n, output)
      modifies this
      ensures Valid() && Evolves(old(dictionary), dictionary)
      ensures expandingBytes == old(expandingBytes) + if depth > 0 then |longer| - |output| else 0
      ensures nested == Topped(old(nested), depth, |longer|)
      ensures failed ==> longer == output
      ensures failed && Fits(tables, original, input, MAX_DEPTH - depth, MAX_OUTPUT_BYTES) ==>
        error == CacheLimit &&
        !Covered(tables, original, old(dictionary), old(expandingBytes) + Pending(input, depth, output))
      ensures !failed ==> Decoding(tables, original, dictionary, input, c.next, longer, more)
      ensures warm ==> !failed && dictionary == old(dictionary)
      ensures warm ==> WarmLeft(tables, dictionary, input, c.next, b, n, longer)
      decreases MAX_DEPTH + 1 - depth, 3
    {
      ghost var d := dictionary;
      WarmStep(warm, tables, d, input, cursor, b, n, output, c);
      DecodingContains(tables, original, d, input, cursor, output, k);
      MayDecode(tables, original, d, input, cursor, output, k, MAX_DEPTH - depth, c);
      failed, error, longer := AppendEntry(c.code, depth, output, input);
      more := DecodingStep(failed, tables, original, d, dictionary, input, cursor, output, k, c, longer);
    }

    /** Decode a stream code by code, from the state of a warm record when it is one. */
    method DecodeCodes(input: seq<int>, depth: nat, ghost warm: bool, ghost b: nat, ghost n: int)
      returns (failed: bool, error: HuffError, output: seq<int>)
      requires Valid() && Waiting(tables, original, dictionary, input) && depth <= MAX_DEPTH
      requires warm ==> depth == 0 && WarmLeft(tables, dictionary, input, 0, b, n, [])
      requires depth > 0 ==> TopIs(nested, 0)
      modifies this
      ensures Valid() && Evolves(old(dictionary), dictionary)
      ensures IsBytes(output) && |output| <= MAX_OUTPUT_BYTES
      ensures expandingBytes == old(expandingBytes) + if depth > 0 then |output| else 0
      ensures nested == Topped(old(nested), depth, |output|)
      ensures !failed ==> StreamMeans(tables, original, input, output) && Warm(tables, dictionary, input)
      ensures failed && Fits(tables, original, input, MAX_DEPTH - depth, MAX_OUTPUT_BYTES) ==>
        error == CacheLimit &&
        !Covered(tables, original, old(dictionary), old(expandingBytes) + Pending(input, depth, []))
      ensures warm ==> !failed && dictionary == old(dictionary)
      decreases MAX_DEPTH + 1 - depth, 5
    {
      failed, error, output := false, BadCode, [];
      var cursor, done := 0, false;
      ghost var k: nat, start, top := 0, dictionary, nested;
      ghost var fits := Fits(tables, original, input, MAX_DEPTH - depth, MAX_OUTPUT_BYTES);
      ghost var pending := if fits then expandingBytes + Pending(input, depth, []) else 0;
      DecodingStart(tables, original, dictionary, input);
      if depth > 0 { ToppedSame(nested, depth, 0); }
      while cursor < 8 * |input|
        invariant Valid() && Evolves(start, dictionary)
        invariant expandingBytes == old(expandingBytes) + if depth > 0 then |output| else 0
        invariant nested == Topped(top, depth, |output|)
        invariant Decoding(tables, original, dictionary, input, cursor, output, k)
        invariant warm ==> dictionary == start && WarmLeft(tables, dictionary, input, cursor, b, n, output)
        decreases 8 * |input| - cursor
      {
        ghost var d := dictionary;
        failed, error, done, output, cursor, k := DecodeNext(input, cursor, depth, output, k, warm, b, n);
        EvolvesTransitive(start, d, dictionary);
        if failed {
          if fits && Covered(tables, original, start, pending) { CoveredEvolves(tables, original, start, d, pending); }
          return;
        }
        if done { break; }
      }
      DecodingEnd(tables, original, dictionary, input, cursor, output, k);
    }

    /** Read one code of the stream and append its entry, unless the stream has come to its end. */
    method DecodeNext(input: seq<int>, cursor: int, depth: nat, output: seq<int>,
                      ghost k: nat, ghost warm: bool, ghost b: nat, ghost n: int)
      returns (failed: bool, error: HuffError, done: bool, longer: seq<int>, next: int, ghost more: nat)
      requires Valid() && depth <= MAX_DEPTH && Decoding(tables, original, dictionary, input, cursor, output, k)
      requires Waiting(tables, original, dictionary, input) && cursor < 8 * |input|
      requires depth > 0 ==> TopIs(nested, |output|)
      requires warm ==> depth == 0 && WarmLeft(tables, dictionary, input, cursor, b, n, output)
      modifies this
      ensures Valid() && Evolves(old(dictionary), dictionary)
      ensures expandingBytes == old(expandingBytes) + if depth > 0 then |longer| - |output| else 0
      ensures nested == Topped(old(nested), depth, |longer|)
      ensures failed || done ==> longer == output && next == cursor
      ensures failed && Fits(tables, original, input, MAX_DEPTH - depth, MAX_OUTPUT_BYTES) ==>
        error == CacheLimit &&
        !Covered(tables, original, old(dictionary), old(expandingBytes) + Pending(input, depth, output))
      ensures !failed ==> Decoding(tables, original, dictionary, input, next, longer, more)
      ensures !failed ==> if done then NextCode(tables, |dictionary|, input, cursor).End? else cursor < next
      ensures warm ==> !failed && dictionary == old(dictionary)
      ensures warm ==> WarmLeft(tables, dictionary, input, next, b, n, longer)
      decreases MAX_DEPTH + 1 - depth, 4
    {
      failed, error, done, longer, next, more := false, BadCode, false, output, cursor, k;
      if depth > 0 { ToppedSame(nested, depth, |output|); }
      WarmGood(warm, tables, dictionary, input, cursor, b, n, output);
      var c := ReadCode(tables, |dictionary|, input, cursor);
      MayDecode(tables, original, dictionary, input, cursor, output, k, MAX_DEPTH - depth, c);
      if c.Bad? {
        failed := true;
        return;
      }
      if c.End? {
        done := true;
        return;
      }
      failed, error, longer, more := DecodeOne(input, cursor, c, depth, output, k, warm, b, n);
      if !failed { next := c.next; }
    }

    /** Decode a stream code by code. */
    method DecodeInto(input: seq<int>, depth: nat) returns (failed: bool, error: HuffError, output: seq<int>)
      requires Valid() && Waiting(tables, original, dictionary, input) && depth <= MAX_DEPTH
      requires depth > 0 ==> TopIs(nested, 0)
      modifies this
      ensures Valid() && Evolves(old(dictionary), dictionary)
      ensures IsBytes(output) && |output| <= MAX_OUTPUT_BYTES
      ensures expandingBytes == old(expandingBytes) + if depth > 0 then |output| else 0
      ensures nested == Topped(old(nested), depth, |output|)
      ensures !failed ==> StreamMeans(tables, original, input, output) && Warm(tables, dictionary, input)
      ensures failed && Fits(tables, original, input, MAX_DEPTH - depth, MAX_OUTPUT_BYTES) ==>
        error == CacheLimit &&
        !Covered(tables, original, old(dictionary), old(expandingBytes) + Pending(input, depth, []))
      ensures depth == 0 && Warm(tables, old(dictionary), input) ==> !failed && dictionary == old(dictionary)
      decreases MAX_DEPTH + 1 - depth, 6
    {
      ghost var warm := depth == 0 && Warm(tables, dictionary, input);
      ghost var b: nat, n: int := 0, 0;
      if warm {
        b, n :| n <= MAX_OUTPUT_BYTES && WarmTo(tables, dictionary, input, 0, b, n)
                && NextCode(tables, |dictionary|, input, b).End?;
      }
      failed, error, output := DecodeCodes(input, depth, warm, b, n);
    }
  }
}
