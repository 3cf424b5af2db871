/**
 The frequency-weighted move-to-front list that encoder and decoder keep in
 step: a list of the 256 bytes and the running frequencies of its first four.
 */
module MoveToFront {
  import opened Permutation
  import opened Words

  const FREQMAX := 4
  const FADD_LIMIT := 0x1000_0000

  /** The estimation speed: the increment grows by its `fshift`-fold half. */
  type Speed = x: int | 0 <= x <= 2

  datatype Table = Table(mtf: seq<int>, freq: seq<int>, fadd: int)

  /** The list before the first byte of a block. */
  ghost function Initial(): Table {
    Table(seq(256, i => i), [0, 0, 0, 0], 4)
  }

  ghost predicate NonIncreasing(freq: seq<int>) {
    forall i, j :: 0 <= i < j < |freq| ==> freq[i] >= freq[j]
  }

  /** Frequencies stay within a fixed multiple of the increment, whatever the bytes. */
  ghost predicate Bounded(freq: seq<int>, fadd: int) {
    forall k :: 0 <= k < |freq| ==> 0 <= freq[k] <= 8 * fadd + 64
  }

  ghost predicate Good(t: Table) {
    && |t.mtf| == 256 && IsPerm(t.mtf)
    && |t.freq| == FREQMAX && NonIncreasing(t.freq)
    && 4 <= t.fadd <= FADD_LIMIT && Bounded(t.freq, t.fadd)
  }

  lemma InitialGood()
    ensures Good(Initial())
  {
  }

  /** The increment grows by the estimation speed's share of itself. */
  function Grown(fadd: int, fshift: Speed): int {
    fadd + (if fshift == 0 then fadd else if fshift == 1 then fadd / 2 else fadd / 4)
  }

  ghost function Scaled(freq: seq<int>): (r: seq<int>)
    ensures |r| == |freq| && forall i :: 0 <= i < |freq| ==> r[i] == freq[i] / LOW
  {
    seq(|freq|, i requires 0 <= i < |freq| => freq[i] / LOW)
  }

  /** Increment and frequencies after the overflow adjustment of one step. */
  ghost function Adjusted(t: Table, fshift: Speed): Table {
    var f := Grown(t.fadd, fshift);
    if f > FADD_LIMIT then Table(t.mtf, Scaled(t.freq), f / LOW) else Table(t.mtf, t.freq, f)
  }

  /** The frequency of the byte at position `x` after the step; beyond the first four it starts from zero. */
  ghost function NewFreq(t: Table, x: int): int
    requires |t.freq| == FREQMAX && 0 <= x
  {
    if x < FREQMAX then t.fadd + t.freq[x] else t.fadd
  }

  /** Where a byte of frequency `fc` moves to, from position `k`. */
  function Place(freq: seq<int>, fc: int, k: int): (r: int)
    requires 0 <= k <= |freq|
    ensures 0 <= r <= k && (r > 0 ==> fc < freq[r - 1])
    ensures forall i :: r <= i < k ==> fc >= freq[i]
  {
    if k > 0 && fc >= freq[k - 1] then Place(freq, fc, k - 1) else k
  }

  /** `m` with entry `x` moved down to `k`. */
  ghost function Moved(m: seq<int>, x: int, k: int, v: int): (r: seq<int>)
    requires 0 <= k <= x < |m|
    ensures |r| == |m|
    ensures forall i :: 0 <= i < |m| ==> r[i] == if i == k then v else m[if k < i <= x then i - 1 else i]
  {
    m[..k] + [v] + m[k..x] + m[x + 1..]
  }

  /** The last position whose frequency is kept that `x` passes through. */
  function Entry(x: int): int {
    if x < FREQMAX then x else FREQMAX - 1
  }

  /** The list after the byte at position `x` has been coded. */
  ghost function Rotated(t: Table, fshift: Speed, x: int): Table
    requires |t.mtf| == 256 && |t.freq| == FREQMAX && 0 <= x < 256
  {
    var a := Adjusted(t, fshift);
    var fc := NewFreq(a, x);
    var k := Place(a.freq, fc, Entry(x));
    Table(Moved(a.mtf, x, k, a.mtf[x]), Moved(a.freq, Entry(x), k, fc), a.fadd)
  }

  lemma MovedPerm(m: seq<int>, x: int, k: int)
    requires IsPerm(m) && 0 <= k <= x < |m|
    ensures IsPerm(Moved(m, x, k, m[x]))
  {
    var r := Moved(m, x, k, m[x]);
    forall i, j | 0 <= i < j < |r| ensures r[i] != r[j] {
      var a := if i == k then x else if k < i <= x then i - 1 else i;
      var b := if j == k then x else if k < j <= x then j - 1 else j;
      assert a != b && r[i] == m[a] && r[j] == m[b];
    }
  }

  /** The adjustment keeps the bound, with room for one more increment. */
  lemma AdjustedBound(t: Table, fshift: Speed)
    requires |t.freq| == FREQMAX && 4 <= t.fadd <= FADD_LIMIT && Bounded(t.freq, t.fadd) && NonIncreasing(t.freq)
    ensures var a := Adjusted(t, fshift);
      && 4 <= a.fadd <= FADD_LIMIT && NonIncreasing(a.freq)
      && forall k :: 0 <= k < FREQMAX ==> 0 <= a.freq[k] && a.fadd + a.freq[k] <= 8 * a.fadd + 64
    ensures Grown(t.fadd, fshift) < 0x8000_0000
  {
    var a := Adjusted(t, fshift);
    forall k | 0 <= k < FREQMAX ensures 0 <= a.freq[k] && a.fadd + a.freq[k] <= 8 * a.fadd + 64 {
      OneBound(t.freq[k], t.fadd, fshift);
    }
    forall i, j | 0 <= i < j < FREQMAX ensures a.freq[i] >= a.freq[j] {
      assert t.freq[i] >= t.freq[j];
      ScaleMonotone(t.freq[j], t.freq[i]);
    }
  }

  lemma ScaleMonotone(x: int, y: int)
    requires x <= y
    ensures x / LOW <= y / LOW
  {
  }

  lemma OneBound(freq: int, fadd: int, fshift: Speed)
    requires 4 <= fadd <= FADD_LIMIT && 0 <= freq <= 8 * fadd + 64
    ensures var f := Grown(fadd, fshift);
      && fadd < f < 0x8000_0000
      && (f <= FADD_LIMIT ==> f + freq <= 8 * f + 64)
      && (f > FADD_LIMIT ==> 16 <= f / LOW <= 32 && f / LOW + freq / LOW <= 8 * (f / LOW) + 64)
  {
    var f := Grown(fadd, fshift);
    assert 7 * (fadd / 4) >= fadd;
    assert 7 * f >= 8 * fadd;
    if f > FADD_LIMIT {
      assert freq <= 8 * f + 64;
      assert freq / LOW <= 8 * (f / LOW) + 9;
    }
  }

  /** Putting a new frequency in its place keeps the order. */
  lemma MovedSorted(freq: seq<int>, j: int, k: int, fc: int)
    requires NonIncreasing(freq) && 0 <= k <= j < |freq|
    requires k > 0 ==> fc < freq[k - 1]
    requires k < j ==> fc >= freq[k]
    requires j + 1 < |freq| ==> fc >= freq[j + 1]
    ensures NonIncreasing(Moved(freq, j, k, fc))
  {
    var r := Moved(freq, j, k, fc);
    forall m, n | 0 <= m < n < |r| ensures r[m] >= r[n] {
      var b := if k < n <= j then n - 1 else n;
      if m == k {
        assert b > k ==> freq[k] >= freq[b];
        assert b > j + 1 ==> freq[j + 1] >= freq[b];
      } else {
        var a := if k < m <= j then m - 1 else m;
        if n == k {
          assert a < k - 1 ==> freq[a] >= freq[k - 1];
        } else {
          assert a < b && freq[a] >= freq[b];
        }
      }
    }
  }

  lemma MovedBounded(freq: seq<int>, j: int, k: int, fc: int, fadd: int)
    requires Bounded(freq, fadd) && 0 <= k <= j < |freq| && 0 <= fc <= 8 * fadd + 64
    ensures Bounded(Moved(freq, j, k, fc), fadd)
  {
  }

  /** Every step keeps the list a permutation, the frequencies sorted and bounded, and all counters in 32 bits. */
  lemma RotatedGood(t: Table, fshift: Speed, x: int)
    requires Good(t) && 0 <= x < 256
    ensures Good(Rotated(t, fshift, x))
    ensures Grown(t.fadd, fshift) < 0x8000_0000
    ensures 0 <= NewFreq(Adjusted(t, fshift), x) < WORD
  {
    AdjustedBound(t, fshift);
    var a := Adjusted(t, fshift);
    var fc, j := NewFreq(a, x), Entry(x);
    var k := Place(a.freq, fc, j);
    MovedPerm(a.mtf, x, k);
    assert x < FREQMAX ==> fc >= a.freq[j];
    MovedSorted(a.freq, j, k, fc);
    MovedBounded(a.freq, j, k, fc, a.fadd);
  }
}
