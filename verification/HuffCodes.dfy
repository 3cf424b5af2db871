/** Reading codes from a HUFF bit stream. Nothing here depends on the state of the decoder. */
module HuffCodes {
  import opened Powers

  datatype Prefix = Prefix(found: bool, length: nat, value: nat)
  datatype CodeRange = CodeRange(min: nat, max: nat)

  /** The two tables of the HUFF record. */
  datatype Tables = Tables(prefixes: seq<Prefix>, ranges: seq<CodeRange>)

  ghost predicate WellFormed(t: Tables) {
    && |t.prefixes| == 256 && |t.ranges| == 33
    && forall p :: p in t.prefixes ==> p.length < 32
  }

  ghost predicate IsBytes(b: seq<int>) {
    forall i :: 0 <= i < |b| ==> 0 <= b[i] < 256
  }

  /** Bit `k` of the stream, zero past the end. */
  ghost function BitAt(b: seq<int>, k: nat): int {
    if k / 8 < |b| then b[k / 8] / Pow2(7 - k % 8) % 2 else 0
  }

  /** The `n` bits from bit `from`, highest first. */
  ghost function Window(b: seq<int>, from: nat, n: nat): int
    decreases n, from
  {
    if n == 0 then 0 else 2 * Window(b, from, n - 1) + BitAt(b, from + n - 1)
  }

  function ByteOrZero(b: seq<int>, i: nat): int {
    if i < |b| then b[i] else 0
  }

  /** Five bytes as one number. */
  function FiveValue(b: seq<int>, q: nat): int {
    (((ByteOrZero(b, q) * 256 + ByteOrZero(b, q + 1)) * 256 + ByteOrZero(b, q + 2)) * 256
     + ByteOrZero(b, q + 3)) * 256 + ByteOrZero(b, q + 4)
  }

  /** The 32 bits from bit `from`: five bytes, shifted and truncated. */
  function ReadBits(b: seq<int>, from: nat): int {
    FiveValue(b, from / 8) / Pow2(8 - from % 8) % 0x1_0000_0000
  }

  lemma {:induction false} WindowJoin(b: seq<int>, from: nat, m: nat, n: nat)
    ensures Window(b, from, m + n) == Window(b, from, m) * Pow2(n) + Window(b, from + m, n)
    decreases n
  {
    if n > 0 {
      WindowJoin(b, from, m, n - 1);
      var a, p, w := Window(b, from, m), Pow2(n - 1), Window(b, from + m, n - 1);
      var x, bit := Window(b, from, m + (n - 1)), BitAt(b, from + m + n - 1);
      OneBit(x, a, p, w, bit);
      LastBit(b, from, m + n);
      LastBit(b, from + m, n);
    }
  }

  lemma LastBit(b: seq<int>, from: nat, n: nat)
    requires n > 0
    ensures Window(b, from, n) == 2 * Window(b, from, n - 1) + BitAt(b, from + n - 1)
  {
  }

  lemma OneBit(x: int, a: int, p: int, w: int, bit: int)
    requires x == a * p + w
    ensures 2 * x + bit == a * (2 * p) + (2 * w + bit)
  {
    Distribute(a, p, w);
  }

  lemma Distribute(a: int, p: int, w: int)
    ensures 2 * (a * p + w) == a * (2 * p) + 2 * w
  {
  }

  lemma {:induction false} WindowBound(b: seq<int>, from: nat, n: nat)
    ensures 0 <= Window(b, from, n) < Pow2(n)
  {
    if n > 0 { WindowBound(b, from, n - 1); }
  }

  /** The bits of a byte, from the top. */
  lemma {:induction false} WindowInByte(b: seq<int>, q: nat, n: nat)
    requires IsBytes(b) && n <= 8
    ensures Window(b, 8 * q, n) == ByteOrZero(b, q) / Pow2(8 - n)
  {
    var x := ByteOrZero(b, q);
    if n == 0 {
      Pow8();
    } else {
      WindowInByte(b, q, n - 1);
      assert (8 * q + n - 1) / 8 == q && (8 * q + n - 1) % 8 == n - 1;
      assert BitAt(b, 8 * q + n - 1) == x / Pow2(8 - n) % 2;
      DivideTwice(x, Pow2(8 - n));
    }
  }

  lemma Pow8()
    ensures Pow2(8) == 256 && Pow2(32) == 0x1_0000_0000
  {
    assert Pow2(4) == 16;
    PowSplit(8, 8);
    PowSplit(16, 16);
  }

  /** The bytes from `q` on as one number. */
  function ValueOf(b: seq<int>, q: nat, k: nat): int {
    if k == 0 then 0 else ValueOf(b, q, k - 1) * 256 + ByteOrZero(b, q + k - 1)
  }

  lemma {:induction false} BytesWindow(b: seq<int>, q: nat, k: nat)
    requires IsBytes(b)
    ensures Window(b, 8 * q, 8 * k) == ValueOf(b, q, k)
  {
    if k > 0 {
      BytesWindow(b, q, k - 1);
      NextByte(b, q, k - 1);
    }
  }

  /** The 40 bits of five bytes. */
  lemma FiveBytes(b: seq<int>, q: nat, bits: nat)
    requires IsBytes(b) && bits == 40
    ensures Window(b, 8 * q, bits) == FiveValue(b, q)
  {
    BytesWindow(b, q, 5);
    FiveIs(b, q);
  }

  lemma FiveIs(b: seq<int>, q: nat)
    ensures FiveValue(b, q) == ValueOf(b, q, 5)
  {
    assert ValueOf(b, q, 1) == ByteOrZero(b, q);
    assert ValueOf(b, q, 2) == ValueOf(b, q, 1) * 256 + ByteOrZero(b, q + 1);
    assert ValueOf(b, q, 3) == ValueOf(b, q, 2) * 256 + ByteOrZero(b, q + 2);
    assert ValueOf(b, q, 4) == ValueOf(b, q, 3) * 256 + ByteOrZero(b, q + 3);
  }

  lemma NextByte(b: seq<int>, q: nat, k: nat)
    requires IsBytes(b)
    ensures Window(b, 8 * q, 8 * k + 8) == Window(b, 8 * q, 8 * k) * 256 + ByteOrZero(b, q + k)
  {
    Pow8();
    WindowJoin(b, 8 * q, 8 * k, 8);
    WindowInByte(b, q + k, 8);
    assert 8 * q + 8 * k == 8 * (q + k);
  }

  /** A window in three parts. */
  lemma ThreeParts(b: seq<int>, from: nat, r: nat, m: nat, k: nat, word: int, at: nat, end: nat)
    requires word == Pow2(m) && at == from + r && end == at + m
    ensures Window(b, from, r + m + k) ==
      Window(b, from, r) * (word * Pow2(k)) + (Window(b, at, m) * Pow2(k) + Window(b, end, k))
  {
    WindowJoin(b, from, r, m + k);
    WindowJoin(b, at, m, k);
    PowSplit(m, k);
    SameFactor(Window(b, from, r), Pow2(m + k), word * Pow2(k));
  }

  lemma SameFactor(a: int, p: int, w: int)
    requires p == w
    ensures a * p == a * w
  {
  }

  /** The word read at `from` is the next 32 bits of the stream, padded with zeros. */
  lemma ReadBitsWindow(b: seq<int>, from: nat)
    requires IsBytes(b)
    ensures ReadBits(b, from) == Window(b, from, 32) && 0 <= ReadBits(b, from) < 0x1_0000_0000
  {
    var q, r := from / 8, from % 8;
    assert from == 8 * q + r;
    ReadBitsAt(b, from, q, r);
    WordAt(b, from, q, r);
  }

  lemma ReadBitsAt(b: seq<int>, from: nat, q: nat, r: nat)
    requires from == 8 * q + r && r < 8
    ensures ReadBits(b, from) == FiveValue(b, q) / Pow2(8 - r) % 0x1_0000_0000
  {
    assert from / 8 == q && from % 8 == r;
  }

  lemma WordAt(b: seq<int>, from: nat, q: nat, r: nat)
    requires IsBytes(b) && from == 8 * q + r && r < 8
    ensures var w := Window(b, from, 32);
      FiveValue(b, q) / Pow2(8 - r) % 0x1_0000_0000 == w && 0 <= w < 0x1_0000_0000
  {
    var k := 8 - r;
    FiveBytes(b, q, r + 32 + k);
    Pow8();
    MiddleBits(b, 8 * q, r, 32, k, 0x1_0000_0000, from, FiveValue(b, q));
  }

  /** The bits before `at`, the `m` bits wanted, and `k` bits after them, of which the middle is taken. */
  lemma MiddleBits(b: seq<int>, from: nat, r: nat, m: nat, k: nat, word: int, at: nat, x: int)
    requires word == Pow2(m) && at == from + r && x == Window(b, from, r + m + k)
    ensures x / Pow2(k) % word == Window(b, at, m) && 0 <= Window(b, at, m) < word
  {
    var end := at + m;
    var a, w, z, p := Window(b, from, r), Window(b, at, m), Window(b, end, k), Pow2(k);
    ThreeParts(b, from, r, m, k, word, at, end);
    WindowBound(b, at, m);
    WindowBound(b, end, k);
    Middle(x, a, w, z, p, word);
  }

  /** The middle part of a number put together from three. */
  lemma Middle(x: int, a: int, w: int, z: int, p: int, word: int)
    requires p > 0 && 0 <= z < p && 0 <= w < word
    requires x == a * (word * p) + (w * p + z)
    ensures x / p % word == w
  {
    var q := a * word + w;
    Reorder(a, word, p, w);
    QuotientIs(x, q, z, p);
    RemainderIs(q, a, w, word);
  }

  lemma Reorder(a: int, word: int, p: int, w: int)
    ensures a * (word * p) + w * p == (a * word + w) * p
  {
    assert a * (word * p) == (a * word) * p;
  }

  lemma RemainderIs(x: int, q: int, r: int, p: int)
    requires p > 0 && 0 <= r < p && x == q * p + r
    ensures x % p == r
  {
    QuotientIs(x, q, r, p);
  }

  /** The next code of a stream: where it ends, a code and the position after it, or an error. */
  datatype Next = End | Bad | Code(code: nat, next: nat)

  /** The first length from `length` on whose codes reach the bits seen; 33 when there is none. */
  function SearchLength(t: Tables, bits: int, length: nat): (r: nat)
    requires |t.ranges| == 33 && length > 0
    ensures r >= length && (r <= 32 || r == length || r == 33)
    decreases 33 - length
  {
    if length > 32 then length
    else if bits / Pow2(32 - length) >= t.ranges[length].min then length
    else SearchLength(t, bits, length + 1)
  }

  /** The code at bit `cursor`, in a dictionary of `entries` entries. */
  ghost function NextCode(t: Tables, entries: nat, input: seq<int>, cursor: nat): (r: Next)
    requires WellFormed(t) && IsBytes(input)
    ensures r.Code? ==> r.code < entries && cursor < r.next <= 8 * |input|
  {
    if cursor >= 8 * |input| then End
    else
      ReadBitsWindow(input, cursor);
      var bits := ReadBits(input, cursor);
      var prefix := t.prefixes[bits / 0x100_0000];
      if prefix.length == 0 then Bad
      else
        var length := if prefix.found then prefix.length else SearchLength(t, bits, prefix.length);
        if length > 32 then Bad
        else
          var value := if prefix.found then prefix.value else t.ranges[length].max;
          var code := value - bits / Pow2(32 - length);
          if cursor + length > 8 * |input| then End
          else if 0 <= code < entries then Code(code, cursor + length)
          else Bad
  }

  /** Read one code; a code cut off by the end of the stream ends it. */
  method ReadCode(t: Tables, entries: nat, input: seq<int>, cursor: nat) returns (r: Next)
    requires WellFormed(t) && IsBytes(input) && cursor < 8 * |input|
    ensures r == NextCode(t, entries, input, cursor)
  {
    ReadBitsWindow(input, cursor);
    var bits := ReadBits(input, cursor);
    var prefix := t.prefixes[bits / 0x100_0000];
    var length, value := prefix.length, prefix.value;
    if length == 0 { return Bad; }
    if !prefix.found {
      while true
        invariant 0 < length <= 33 && SearchLength(t, bits, length) == SearchLength(t, bits, prefix.length)
        decreases 33 - length
      {
        if length > 32 { return Bad; }
        if bits / Pow2(32 - length) >= t.ranges[length].min { break; }
        length := length + 1;
      }
      value := t.ranges[length].max;
    }
    if cursor + length > 8 * |input| { return End; }
    var code := value - bits / Pow2(32 - length);
    if code < 0 || code >= entries { return Bad; }
    r := Code(code, cursor + length);
  }
}
