/** The move-to-front list as the encoder and the decoder hold it: arrays updated in place. */
module ListState {
  import opened Permutation
  import opened Words
  import opened MoveToFront

  /** `m` with the entries from `k` up to `x` moved one up, entry `k` not yet overwritten. */
  ghost function Opened(m: seq<int>, x: int, k: int): (r: seq<int>)
    requires 0 <= k <= x < |m|
    ensures |r| == |m|
    ensures forall i :: 0 <= i < |m| ==> r[i] == m[if k < i <= x then i - 1 else i]
  {
    m[..k + 1] + m[k..x] + m[x + 1..]
  }

  lemma OpenOne(m: seq<int>, x: int, k: int)
    requires 0 < k <= x < |m|
    ensures Opened(m, x, k)[k := Opened(m, x, k)[k - 1]] == Opened(m, x, k - 1)
  {
  }

  lemma OpenDone(m: seq<int>, x: int, k: int, v: int)
    requires 0 <= k <= x < |m|
    ensures Opened(m, x, k)[k := v] == Moved(m, x, k, v)
    ensures Opened(m, x, x) == m
  {
  }

  /** `r` gives the position of every byte of the list `m`, except the one at `hole`. */
  ghost predicate InverseBut(m: seq<int>, r: seq<int>, hole: int) {
    && |m| == |r| == 256
    && (forall i :: 0 <= i < 256 ==> 0 <= m[i] < 256)
    && forall i :: 0 <= i < 256 && i != hole ==> r[m[i]] == i
  }

  /** Both directions of the list. */
  ghost predicate Inverse(m: seq<int>, r: seq<int>) {
    && |m| == |r| == 256 && IsPerm(m)
    && forall i :: 0 <= i < 256 ==> r[m[i]] == i
  }

  /** Shift down one entry and record its new position. */
  lemma InverseDown(m: seq<int>, r: seq<int>, x: int, k: int)
    requires |m| == 256 && IsPerm(m) && 0 < k <= x < 256
    requires InverseBut(Opened(m, x, k), r, k)
    ensures InverseBut(Opened(m, x, k - 1), r[m[k - 1] := k], k - 1)
  {
    var a, b := Opened(m, x, k), Opened(m, x, k - 1);
    forall i | 0 <= i < 256 && i != k - 1 ensures r[m[k - 1] := k][b[i]] == i {
      assert i != k ==> b[i] == a[i];
      assert i != k ==> b[i] != m[k - 1] by {
        if i != k { assert m[if k - 1 < i <= x then i - 1 else i] != m[k - 1]; }
      }
    }
  }

  lemma InverseDone(m: seq<int>, r: seq<int>, x: int, k: int)
    requires |m| == 256 && IsPerm(m) && 0 <= k <= x < 256
    requires InverseBut(Opened(m, x, k), r, k)
    ensures Inverse(Moved(m, x, k, m[x]), r[m[x] := k])
  {
    MovedPerm(m, x, k);
    var a, b := Opened(m, x, k), Moved(m, x, k, m[x]);
    forall i | 0 <= i < 256 ensures r[m[x] := k][b[i]] == i {
      if i != k {
        assert b[i] == a[i];
        assert b[i] != b[k];
      }
    }
  }

  class Frequencies {
    const freq: array<int>
    var fadd: int

    ghost predicate Valid()
      reads this
    {
      freq.Length == FREQMAX
    }

    constructor ()
      ensures Valid() && fresh(freq) && freq[..] == [0, 0, 0, 0] && fadd == 4
    {
      freq := new int[FREQMAX](_ => 0);
      fadd := 4;
    }

    /** Adjust the increment, and all frequencies when it overflows. */
    method Adjust(fshift: Speed, ghost mtf: seq<int>)
      requires Valid() && fadd >= 0
      modifies this, freq
      ensures Valid()
      ensures Table(mtf, freq[..], fadd) == Adjusted(Table(mtf, old(freq[..]), old(fadd)), fshift)
    {
      ghost var was := freq[..];
      fadd := Grown(fadd, fshift);
      if fadd > FADD_LIMIT {
        fadd := fadd / LOW;
        freq[0] := freq[0] / LOW;
        freq[1] := freq[1] / LOW;
        freq[2] := freq[2] / LOW;
        freq[3] := freq[3] / LOW;
        assert freq[..] == Scaled(was);
      }
    }

    /** The new frequency of the byte at position `x`. */
    method Frequency(x: int, ghost mtf: seq<int>) returns (fc: int)
      requires Valid() && 0 <= x
      ensures fc == NewFreq(Table(mtf, freq[..], fadd), x)
    {
      fc := fadd;
      if x < FREQMAX {
        assert freq[..][x] == freq[x];
        fc := fc + freq[x];
      }
    }
  }

  /** The decoder's list. */
  class DecoderList {
    const mtf: array<int>
    const fr: Frequencies

    ghost predicate Valid()
      reads this, fr
    {
      mtf.Length == 256 && fr.Valid() && fr.freq != mtf
    }

    ghost function View(): Table
      reads fr, fr.freq, mtf
    {
      Table(mtf[..], fr.freq[..], fr.fadd)
    }

    /** The arrays hold a list in use. */
    ghost predicate Sound()
      reads this, fr, fr.freq, mtf
    {
      Valid() && Good(View())
    }

    constructor ()
      ensures Sound() && fresh(mtf) && fresh(fr) && fresh(fr.freq) && View() == Initial()
    {
      mtf := new int[256](i => i);
      fr := new Frequencies();
      new;
      assert mtf[..] == Initial().mtf;
      InitialGood();
    }

    /** Move the byte at position `x` according to its new frequency. */
    method Rotate(x: int, fshift: Speed)
      requires Sound() && 0 <= x < 256
      modifies fr, fr.freq, mtf
      ensures Sound() && View() == Rotated(old(View()), fshift, x)
    {
      ghost var t := View();
      RotatedGood(t, fshift, x);
      var c := mtf[x];
      fr.Adjust(fshift, mtf[..]);
      ghost var a := View();
      var fc := fr.Frequency(x, mtf[..]);
      var k := Bury(x);
      k := Settle(x, k, fc, c, t.mtf);
      assert k == Place(a.freq, fc, Entry(x));
    }

    /** Move the entries beyond the first four. */
    method Bury(x: int) returns (k: int)
      requires Valid() && 0 <= x < 256
      modifies mtf
      ensures k == Entry(x) && mtf[..] == Opened(old(mtf[..]), x, k)
    {
      ghost var m := mtf[..];
      OpenDone(m, x, x, 0);
      k := x;
      while k >= FREQMAX
        invariant Entry(x) <= k <= x && mtf[..] == Opened(m, x, k)
      {
        OpenOne(m, x, k);
        mtf[k] := mtf[k - 1];
        assert mtf[..] == Opened(m, x, k)[k := Opened(m, x, k)[k - 1]];
        k := k - 1;
      }
    }

    /** Move the entries with smaller frequencies and put the byte `c` in their place. */
    method Settle(x: int, k0: int, fc: int, c: int, ghost m: seq<int>) returns (k: int)
      requires Valid() && 0 <= x < 256 && k0 == Entry(x)
      requires |m| == 256 && mtf[..] == Opened(m, x, k0)
      modifies mtf, fr.freq
      ensures k == Place(old(fr.freq[..]), fc, k0)
      ensures fr.freq[..] == Moved(old(fr.freq[..]), k0, k, fc)
      ensures mtf[..] == Moved(m, x, k, c)
    {
      ghost var f := fr.freq[..];
      OpenDone(f, k0, k0, 0);
      k := k0;
      while k > 0 && fc >= fr.freq[k - 1]
        invariant 0 <= k <= k0 && mtf[..] == Opened(m, x, k) && fr.freq[..] == Opened(f, k0, k)
        invariant Place(f, fc, k) == Place(f, fc, k0)
        decreases k
      {
        assert fr.freq[..][k - 1] == f[k - 1];
        OpenOne(m, x, k);
        OpenOne(f, k0, k);
        CopyDown(mtf, k);
        CopyDown(fr.freq, k);
        k := k - 1;
      }
      assert k > 0 ==> fr.freq[..][k - 1] == f[k - 1];
      OpenDone(m, x, k, c);
      OpenDone(f, k0, k, fc);
      Store(mtf, k, c);
      Store(fr.freq, k, fc);
    }
  }

  /** Copy entry `k - 1` to `k`. */
  method CopyDown(a: array<int>, k: int)
    requires 0 < k < a.Length
    modifies a
    ensures a[..] == old(a[..])[k := old(a[..])[k - 1]]
  {
    a[k] := a[k - 1];
  }

  method Store(a: array<int>, k: int, v: int)
    requires 0 <= k < a.Length
    modifies a
    ensures a[..] == old(a[..])[k := v]
  {
    a[k] := v;
  }

  /** The encoder's list, which also keeps the position of every byte. */
  class EncoderList {
    const mtf: array<int>
    const rmtf: array<int>
    const fr: Frequencies

    ghost predicate Valid()
      reads this, fr, mtf, rmtf
    {
      && mtf.Length == 256 && rmtf.Length == 256 && fr.Valid()
      && fr.freq != mtf && fr.freq != rmtf && mtf != rmtf
    }

    ghost function View(): Table
      reads fr, fr.freq, mtf
    {
      Table(mtf[..], fr.freq[..], fr.fadd)
    }

    /** The arrays hold a list in use and the positions of its bytes. */
    ghost predicate Sound()
      reads this, fr, fr.freq, mtf, rmtf
    {
      Valid() && Good(View()) && Inverse(mtf[..], rmtf[..])
    }

    constructor ()
      ensures Sound() && fresh(mtf) && fresh(rmtf) && fresh(fr) && fresh(fr.freq) && View() == Initial()
    {
      mtf := new int[256](i => i);
      rmtf := new int[256](i => i);
      fr := new Frequencies();
      new;
      assert mtf[..] == Initial().mtf;
      InitialGood();
    }

    /** Move the byte `c` at position `x` according to its new frequency. */
    method Rotate(x: int, c: int, fshift: Speed)
      requires Sound() && 0 <= x < mtf.Length && mtf[x] == c
      modifies fr, fr.freq, mtf, rmtf
      ensures Sound() && View() == Rotated(old(View()), fshift, x)
    {
      ghost var t := View();
      RotatedGood(t, fshift, x);
      fr.Adjust(fshift, mtf[..]);
      ghost var a := View();
      var fc := fr.Frequency(x, mtf[..]);
      var k := Bury(x);
      k := Settle(x, k, fc, c, t.mtf);
      assert k == Place(a.freq, fc, Entry(x));
    }

    /** Shift one entry down and record its position. */
    method Lower(x: int, k: int, ghost m: seq<int>)
      requires Valid() && |m| == 256 && IsPerm(m) && 0 < k <= x < 256
      requires mtf[..] == Opened(m, x, k) && InverseBut(mtf[..], rmtf[..], k)
      modifies mtf, rmtf
      ensures mtf[..] == Opened(m, x, k - 1) && InverseBut(mtf[..], rmtf[..], k - 1)
    {
      OpenOne(m, x, k);
      InverseDown(m, rmtf[..], x, k);
      CopyDown(mtf, k);
      assert mtf[..][k] == m[k - 1];
      Store(rmtf, mtf[k], k);
    }

    /** Move the entries beyond the first four. */
    method Bury(x: int) returns (k: int)
      requires Valid() && 0 <= x < 256 && Inverse(mtf[..], rmtf[..])
      modifies mtf, rmtf
      ensures k == Entry(x) && mtf[..] == Opened(old(mtf[..]), x, k) && InverseBut(mtf[..], rmtf[..], k)
    {
      ghost var m := mtf[..];
      OpenDone(m, x, x, 0);
      k := x;
      while k >= FREQMAX
        invariant Entry(x) <= k <= x && mtf[..] == Opened(m, x, k) && InverseBut(mtf[..], rmtf[..], k)
      {
        Lower(x, k, m);
        k := k - 1;
      }
    }

    /** Move the entries with smaller frequencies and put the byte `c` in their place. */
    method Settle(x: int, k0: int, fc: int, c: int, ghost m: seq<int>) returns (k: int)
      requires Valid() && 0 <= x < 256 && k0 == Entry(x)
      requires |m| == 256 && IsPerm(m) && c == m[x] && mtf[..] == Opened(m, x, k0) && InverseBut(mtf[..], rmtf[..], k0)
      modifies mtf, rmtf, fr.freq
      ensures k == Place(old(fr.freq[..]), fc, k0)
      ensures fr.freq[..] == Moved(old(fr.freq[..]), k0, k, fc)
      ensures mtf[..] == Moved(m, x, k, c) && Inverse(mtf[..], rmtf[..])
    {
      ghost var f := fr.freq[..];
      OpenDone(f, k0, k0, 0);
      k := k0;
      while k > 0 && fc >= fr.freq[k - 1]
        invariant 0 <= k <= k0 && mtf[..] == Opened(m, x, k) && fr.freq[..] == Opened(f, k0, k)
        invariant InverseBut(mtf[..], rmtf[..], k)
        invariant Place(f, fc, k) == Place(f, fc, k0)
        decreases k
      {
        assert fr.freq[..][k - 1] == f[k - 1];
        OpenOne(f, k0, k);
        Lower(x, k, m);
        CopyDown(fr.freq, k);
        k := k - 1;
      }
      assert k > 0 ==> fr.freq[..][k - 1] == f[k - 1];
      OpenDone(m, x, k, c);
      OpenDone(f, k0, k, fc);
      InverseDone(m, rmtf[..], x, k);
      Store(mtf, k, c);
      Store(fr.freq, k, fc);
      Store(rmtf, c, k);
    }
  }
}
