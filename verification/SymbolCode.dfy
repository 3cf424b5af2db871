/**
 How numbers and list positions become coded bits: plain binary numbers in the
 pass-through context, and positions in a fixed tree with one context per node.
 */
module SymbolCode {
  import opened Channel
  import opened Powers

  /** The context of tree node `n` when `base` is that of the root, pass-through otherwise. */
  function NodeContext(base: int, n: int): int {
    if base < 0 then -1 else base + n - 1
  }

  /** The highest of `r > 0` bits of `x`. */
  ghost function High(r: nat, x: int): int
    requires r > 0
  {
    if x < Pow2(r - 1) then 0 else 1
  }

  /** The bits of `x` below the highest. */
  ghost function Lower(r: nat, x: int): int
    requires r > 0
  {
    if x < Pow2(r - 1) then x else x - Pow2(r - 1)
  }

  /** The `r` bits of `x`, highest first, below node `n`. */
  ghost function Bits(base: int, n: int, r: nat, x: int): seq<Event>
    decreases r, x
  {
    if r == 0 then []
    else [Event(NodeContext(base, n), High(r, x) == 1)] + Bits(base, 2 * n + High(r, x), r - 1, Lower(r, x))
  }

  /** A tree of `bits` levels has its contexts below the limit. */
  ghost predicate Fits(base: int, bits: nat) {
    -1 <= base && (base >= 0 ==> base + Pow2(bits) - 1 <= CONTEXTS)
  }

  lemma HighLow(r: nat, x: int)
    requires r > 0 && 0 <= x < Pow2(r)
    ensures High(r, x) == 0 || High(r, x) == 1
    ensures x == High(r, x) * Pow2(r - 1) + Lower(r, x) && 0 <= Lower(r, x) < Pow2(r - 1)
    ensures High(r, x) == 0 ==> Lower(r, x) == x
    ensures High(r, x) == 1 ==> Lower(r, x) == x - Pow2(r - 1)
  {
  }

  /** After `t` levels the node number has `t + 1` binary digits. */
  ghost predicate AtLevel(t: nat, n: int) {
    Pow2(t) <= n < 2 * Pow2(t)
  }

  lemma LevelDown(t: nat, bits: nat, n: int)
    requires t <= bits && AtLevel(t, n)
    ensures n < Pow2(bits) <==> t < bits
    ensures t < bits ==> AtLevel(t + 1, 2 * n) && AtLevel(t + 1, 2 * n + 1)
  {
    if t < bits { PowMonotone(t + 1, bits); }
  }

  /** The shifted register of the coding loop: `y` are the bits still to come after `t` of `bits`. */
  ghost predicate Register(bits: nat, t: nat, x: int, y: int) {
    t <= bits && 0 <= y < Pow2(bits - t) && x % Pow2(bits) == y * Pow2(t)
  }

  /** Doubling a register of `2 * q` values of weight `p` moves its highest bit out. */
  lemma Shift(w: int, y: int, q: int, p: int)
    requires p > 0 && q > 0 && 0 <= y < 2 * q && w == y * p
    ensures y < q ==> 0 <= 2 * w < 2 * (q * p)
    ensures y >= q ==> 0 <= 2 * w - 2 * (q * p) < 2 * (q * p)
    ensures 2 * w == y * (2 * p) && 2 * w - 2 * (q * p) == (y - q) * (2 * p)
  {
    DoubleRight(y, p);
    DoubleRight(y - q, p);
    Subtract(y, q, p);
    if y < q {
      Within(y, q, p);
    } else {
      Within(y - q, q, p);
    }
  }

  lemma DoubleRight(y: int, p: int)
    ensures y * (2 * p) == 2 * (y * p)
  {
  }

  lemma Subtract(y: int, q: int, p: int)
    ensures (y - q) * p == y * p - q * p
  {
  }

  lemma Within(a: int, q: int, p: int)
    requires 0 <= a < q && p > 0
    ensures 0 <= a * p < q * p
  {
    Product(a, q, p);
    if a > 0 { Product(0, a, p); }
  }

  lemma ShiftDivides(m: int, w: int, y: int, q: int, p: int)
    requires p > 0 && q > 0 && 0 <= y < 2 * q && w == y * p && m == 2 * (q * p) && m > 0
    ensures y < q ==> w * 2 / m == 0 && w * 2 % m == y * (2 * p)
    ensures y >= q ==> w * 2 / m == 1 && w * 2 % m == (y - q) * (2 * p)
  {
    Shift(w, y, q, p);
    Halves(m, w * 2);
  }

  lemma RegisterShift(bits: nat, t: nat, x: int, y: int)
    requires t < bits && Register(bits, t, x, y)
    ensures Shifted(bits, x) / Pow2(bits) == High(bits - t, y)
    ensures Register(bits, t + 1, Shifted(bits, x), Lower(bits - t, y))
  {
    var q, p := Pow2(bits - t - 1), Pow2(t);
    PowSplit(bits - t, t);
    Associate(q, p);
    ShiftDivides(Pow2(bits), x % Pow2(bits), y, q, p);
    HighLow(bits - t, y);
    NextRegister(bits, t + 1, Shifted(bits, x), if y < q then y else y - q, 2 * p);
    Halves(q, y);
  }

  lemma NextRegister(bits: nat, t: nat, z: int, y: int, p: int)
    requires t <= bits && p == Pow2(t) && 0 <= y < Pow2(bits - t) && z % Pow2(bits) == y * p
    ensures Register(bits, t, z, y)
  {
  }

  /** One turn of the coding loop: drop the bit already sent and shift. */
  function Shifted(bits: nat, x: int): int {
    (x % Pow2(bits)) * 2
  }

  /** What the encoder still has to send. */
  ghost predicate Sending(sent: seq<Event>, all: seq<Event>, base: int, bits: nat, t: nat, n: int, v: int, y: int) {
    Register(bits, t, v, y) && sent + Bits(base, n, bits - t, y) == all
  }

  lemma SendDown(sent: seq<Event>, all: seq<Event>, base: int, bits: nat, t: nat, n: int, v: int, y: int)
    requires t < bits && Sending(sent, all, base, bits, t, n, v, y)
    ensures var b := Shifted(bits, v) / Pow2(bits);
      && (b == 0 || b == 1)
      && Sending(sent + [Event(NodeContext(base, n), b == 1)], all,
                 base, bits, t + 1, 2 * n + b, Shifted(bits, v), Lower(bits - t, y))
  {
    RegisterShift(bits, t, v, y);
    HighLow(bits - t, y);
    BitsStep(sent, base, n, bits - t, y, High(bits - t, y));
  }

  lemma SendStart(sent: seq<Event>, base: int, bits: nat, x: int)
    requires 0 <= x < Pow2(bits)
    ensures Sending(sent, sent + Bits(base, 1, bits, x), base, bits, 0, 1, x, x)
  {
    Halves(Pow2(bits), x);
  }

  /** Send the `bits` low bits of `x`; with `base >= 0` each in the context of its tree node. */
  method EncodeBits(zp: Sender, base: int, bits: nat, x: int)
    requires Fits(base, bits) && 0 <= x < Pow2(bits)
    modifies zp
    ensures zp.sent == old(zp.sent) + Bits(base, 1, bits, x)
  {
    var n, m, v := 1, Pow2(bits), x;
    ghost var t: nat, y, all := 0, x, zp.sent + Bits(base, 1, bits, x);
    LevelDown(0, bits, 1);
    SendStart(zp.sent, base, bits, x);
    while n < m
      invariant t <= bits && AtLevel(t, n)
      invariant n < m <==> t < bits
      invariant Sending(zp.sent, all, base, bits, t, n, v, y)
      decreases bits - t
    {
      LevelDown(t, bits, n);
      SendDown(zp.sent, all, base, bits, t, n, v, y);
      v := Shifted(bits, v);
      var b := v / m;
      zp.Put(NodeContext(base, n), b == 1);
      n := 2 * n + b;
      y := Lower(bits - t, y);
      t := t + 1;
      LevelDown(t, bits, n);
    }
  }

  lemma BitsStep(was: seq<Event>, base: int, n: int, r: nat, y: int, b: int)
    requires r > 0 && b == High(r, y)
    ensures was + Bits(base, n, r, y) ==
      was + [Event(NodeContext(base, n), b == 1)] + Bits(base, 2 * n + b, r - 1, Lower(r, y))
  {
    BitsParts(base, n, r, y, b, Lower(r, y));
    Append(was, Event(NodeContext(base, n), b == 1), Bits(base, 2 * n + b, r - 1, Lower(r, y)));
  }

  /** What a decoder still in step knows: the node reached and the `y` to come make up `x`. */
  ghost predicate InStep(pending: seq<Event>, base: int, bits: nat, t: nat, n: int, y: int, x: int, rest: seq<Event>) {
    && t <= bits && 0 <= y < Pow2(bits - t)
    && n * Pow2(bits - t) + y == Pow2(bits) + x
    && pending == Bits(base, n, bits - t, y) + rest
  }

  lemma StepDown(pending: seq<Event>, base: int, bits: nat, t: nat, n: int, y: int, x: int, rest: seq<Event>)
    requires InStep(pending, base, bits, t, n, y, x, rest) && t < bits
    ensures var c := High(bits - t, y);
      && (c == 0 || c == 1)
      && pending != [] && pending[0] == Event(NodeContext(base, n), c == 1)
      && InStep(pending[1..], base, bits, t + 1, 2 * n + c, Lower(bits - t, y), x, rest)
  {
    var r, c, z := bits - t, High(bits - t, y), Lower(bits - t, y);
    HighLow(r, y);
    BitsParts(base, n, r, y, c, z);
    Uncons(pending, Event(NodeContext(base, n), c == 1), Bits(base, 2 * n + c, r - 1, z), rest);
    Descend(n, c, Pow2(r - 1), y, z, Pow2(bits) + x);
  }

  lemma BitsParts(base: int, n: int, r: nat, y: int, c: int, z: int)
    requires r > 0 && c == High(r, y) && z == Lower(r, y)
    ensures Bits(base, n, r, y) == [Event(NodeContext(base, n), c == 1)] + Bits(base, 2 * n + c, r - 1, z)
  {
  }

  lemma Descend(n: int, c: int, q: int, y: int, z: int, v: int)
    requires n * (2 * q) + y == v && y == c * q + z
    ensures (2 * n + c) * q + z == v
  {
    assert (2 * n + c) * q == n * (2 * q) + c * q;
  }

  /** Receive `bits` bits; they are the number sent if they were sent in the contexts asked for. */
  method DecodeBits(zp: Receiver, base: int, bits: nat, ghost x: int, ghost rest: seq<Event>) returns (r: int)
    requires Fits(base, bits) && 0 <= x < Pow2(bits)
    modifies zp
    ensures 0 <= r < Pow2(bits)
    ensures old(zp.pending) == Bits(base, 1, bits, x) + rest ==> r == x && zp.pending == rest
  {
    var n, m := 1, Pow2(bits);
    ghost var t: nat, y, sync := 0, x, zp.pending == Bits(base, 1, bits, x) + rest;
    LevelDown(0, bits, 1);
    while n < m
      invariant t <= bits && AtLevel(t, n)
      invariant n < m <==> t < bits
      invariant sync ==> InStep(zp.pending, base, bits, t, n, y, x, rest)
      decreases bits - t
    {
      LevelDown(t, bits, n);
      if sync { StepDown(zp.pending, base, bits, t, n, y, x, rest); }
      var bit := zp.Get(NodeContext(base, n));
      var b := if bit then 1 else 0;
      n := 2 * n + b;
      y := Lower(bits - t, y);
      t := t + 1;
      LevelDown(t, bits, n);
    }
    assert AtLevel(bits, n);
    r := n - m;
  }

  /** `x` in `r` binary digits, highest first, in the pass-through context. */
  ghost function Binary(r: nat, x: int): (e: seq<Event>)
    ensures |e| == r
    decreases r, x
  {
    if r == 0 then [] else Binary(r - 1, x / 2) + [Event(-1, x % 2 == 1)]
  }

  /** The first digit is the highest bit, and the others are those of what is below it. */
  lemma {:induction false} HighestFirst(r: nat, x: int)
    requires r > 0 && 0 <= x < Pow2(r)
    ensures Binary(r, x) == [Event(-1, High(r, x) == 1)] + Binary(r - 1, Lower(r, x))
    decreases r
  {
    if r == 1 {
      assert Binary(0, x / 2) == [] == Binary(0, Lower(r, x));
    } else {
      var h, l := x / 2, Event(-1, x % 2 == 1);
      HighestFirst(r - 1, h);
      HalfBits(r, x);
      var y := Lower(r, x);
      assert Binary(r - 1, y) == Binary(r - 2, y / 2) + [l];
      assert Binary(r, x) == Binary(r - 1, h) + [l];
    }
  }

  lemma HalfBits(r: nat, x: int)
    requires r > 1 && 0 <= x < Pow2(r)
    ensures x / 2 < Pow2(r - 1) && High(r - 1, x / 2) == High(r, x)
    ensures Lower(r, x) / 2 == Lower(r - 1, x / 2) && Lower(r, x) % 2 == x % 2
  {
    var q := Pow2(r - 2);
    assert Pow2(r - 1) == 2 * q;
  }

  /** The pass-through bits of a number are its binary digits. */
  lemma {:induction false} BitsAreBinary(n: int, r: nat, x: int)
    requires 0 <= x < Pow2(r)
    ensures Bits(-1, n, r, x) == Binary(r, x)
    decreases r
  {
    if r > 0 {
      HighLow(r, x);
      var c, y := High(r, x), Lower(r, x);
      BitsParts(-1, n, r, x, c, y);
      BitsAreBinary(2 * n + c, r - 1, y);
      HighestFirst(r, x);
    }
  }

  /** The position that codes the marker: one past the last of the list. */
  const MARKER := 256

  /** Contexts that depend on the previous position. */
  const CTXIDS := 3

  /** The code of a position `x >= 2^k` from level `k` on; `base` is the context of the level's question. */
  ghost function Levels(k: nat, base: int, x: int): seq<Event>
    requires 1 <= k <= 8
    decreases 8 - k, x
  {
    if k == 8 then []
    else if x < Pow2(k + 1) then [Event(base, true)] + Bits(base + 1, 1, k, x - Pow2(k))
    else [Event(base, false)] + Levels(k + 1, base + Pow2(k), x)
  }

  /** The coded bits of position `x`. */
  ghost function SymbolEvents(x: int, ctxid: int): seq<Event> {
    if x == 0 then [Event(ctxid, true)]
    else if x == 1 then [Event(ctxid, false), Event(CTXIDS + ctxid, true)]
    else [Event(ctxid, false), Event(CTXIDS + ctxid, false)] + Levels(1, 2 * CTXIDS, x)
  }

  lemma LevelFits(k: nat)
    requires 1 <= k <= 7
    ensures 2 <= Pow2(k) <= 128 && Pow2(k + 1) == 2 * Pow2(k)
    ensures Fits(4 + Pow2(k) + 1, k)
  {
    PowMonotone(k, 7);
    PowMonotone(1, k);
    SmallPowers();
  }

  lemma SmallPowers()
    ensures Pow2(1) == 2 && Pow2(7) == 128 && Pow2(8) == 256
  {
    assert Pow2(4) == 16;
  }

  /** Send a position from level 1 on. The seven levels written out one by one are the turns of the loop. */
  method EncodeLevels(zp: Sender, x: int)
    requires 2 <= x <= MARKER
    modifies zp
    ensures zp.sent == old(zp.sent) + Levels(1, 2 * CTXIDS, x)
  {
    SmallPowers();
    ghost var all := zp.sent + Levels(1, 2 * CTXIDS, x);
    var cx, k := 2 * CTXIDS, 1;
    while k < 8
      invariant 1 <= k <= 8 && cx == 4 + Pow2(k) && Pow2(k) <= x
      invariant zp.sent + Levels(k, cx, x) == all
    {
      var last := EncodeLevel(zp, k, cx, x, all);
      if last { return; }
      cx := cx + Pow2(k);
      k := k + 1;
    }
  }

  /** Send whether the position is of level `k`, and if so its bits. */
  method EncodeLevel(zp: Sender, k: int, cx: int, x: int, ghost all: seq<Event>) returns (b: bool)
    requires 1 <= k <= 7 && cx == 4 + Pow2(k) && Pow2(k) <= x && zp.sent + Levels(k, cx, x) == all
    modifies zp
    ensures if b then zp.sent == all
            else Pow2(k + 1) <= x && cx + Pow2(k) == 4 + Pow2(k + 1) && zp.sent + Levels(k + 1, cx + Pow2(k), x) == all
  {
    LevelFits(k);
    b := x < Pow2(k + 1);
    LevelSent(zp.sent, k, cx, x);
    zp.Put(cx, b);
    if b { EncodeBits(zp, cx + 1, k, x - Pow2(k)); }
  }

  lemma LevelSent(sent: seq<Event>, k: nat, base: int, x: int)
    requires 1 <= k <= 7
    ensures sent + Levels(k, base, x) == sent + [Event(base, x < Pow2(k + 1))] + LevelTail(k, base, x)
  {
    var e, tail := Event(base, x < Pow2(k + 1)), LevelTail(k, base, x);
    LevelParts(k, base, x);
    Append(sent, e, tail);
  }

  lemma LevelParts(k: nat, base: int, x: int)
    requires 1 <= k <= 7
    ensures Levels(k, base, x) == [Event(base, x < Pow2(k + 1))] + LevelTail(k, base, x)
  {
  }

  /** What follows the question of level `k`. */
  ghost function LevelTail(k: nat, base: int, x: int): seq<Event>
    requires 1 <= k <= 7
  {
    if x < Pow2(k + 1) then Bits(base + 1, 1, k, x - Pow2(k)) else Levels(k + 1, base + Pow2(k), x)
  }

  lemma Append(sent: seq<Event>, e: Event, tail: seq<Event>)
    ensures sent + ([e] + tail) == sent + [e] + tail
  {
  }

  /** Send position `x`. */
  method EncodeSymbol(zp: Sender, x: int, ctxid: int)
    requires 0 <= x <= MARKER && 0 <= ctxid < CTXIDS
    modifies zp
    ensures zp.sent == old(zp.sent) + SymbolEvents(x, ctxid)
  {
    SymbolSent(zp.sent, x, ctxid);
    ghost var all := zp.sent + SymbolEvents(x, ctxid);
    zp.Put(ctxid, x == 0);
    if x == 0 { return; }
    EncodeNonzero(zp, x, ctxid);
    assert zp.sent == all;
  }

  /** Send a position other than the first, whose question has been answered. */
  method EncodeNonzero(zp: Sender, x: int, ctxid: int)
    requires 1 <= x <= MARKER && 0 <= ctxid < CTXIDS
    modifies zp
    ensures zp.sent == old(zp.sent) + [Event(CTXIDS + ctxid, x == 1)] +
                       (if x == 1 then [] else Levels(1, 2 * CTXIDS, x))
  {
    zp.Put(CTXIDS + ctxid, x == 1);
    if x != 1 {
      EncodeLevels(zp, x);
    }
  }

  /** The bits `EncodeSymbol` sends, in the order it sends them. */
  lemma SymbolSent(sent: seq<Event>, x: int, ctxid: int)
    requires x >= 0
    ensures sent + SymbolEvents(x, ctxid) ==
      var one := sent + [Event(ctxid, x == 0)];
      var two := one + [Event(CTXIDS + ctxid, x == 1)];
      if x == 0 then one else if x == 1 then two else two + Levels(1, 2 * CTXIDS, x)
  {
    if x > 1 {
      AppendTwo(sent, Event(ctxid, false), Event(CTXIDS + ctxid, false), Levels(1, 2 * CTXIDS, x));
    } else if x == 1 {
      AppendTwo(sent, Event(ctxid, false), Event(CTXIDS + ctxid, true), []);
    }
  }

  lemma AppendTwo(sent: seq<Event>, e: Event, f: Event, tail: seq<Event>)
    ensures sent + ([e, f] + tail) == sent + [e] + [f] + tail
  {
  }

  lemma LevelPending(pending: seq<Event>, k: nat, base: int, x: int, rest: seq<Event>)
    requires 1 <= k <= 7 && pending == Levels(k, base, x) + rest
    ensures pending != [] && pending[0] == Event(base, x < Pow2(k + 1))
    ensures pending[1..] == LevelTail(k, base, x) + rest
  {
    LevelParts(k, base, x);
    Uncons(pending, Event(base, x < Pow2(k + 1)), LevelTail(k, base, x), rest);
  }

  lemma Uncons(pending: seq<Event>, e: Event, tail: seq<Event>, rest: seq<Event>)
    requires pending == [e] + tail + rest
    ensures pending != [] && pending[0] == e && pending[1..] == tail + rest
  {
  }

  lemma Uncons2(pending: seq<Event>, e: Event, f: Event, tail: seq<Event>, rest: seq<Event>)
    requires pending == [e, f] + tail + rest
    ensures |pending| > 1 && pending[0] == e && pending[1..][0] == f && pending[1..][1..] == tail + rest
  {
  }

  /** Receive a position from level 1 on. */
  method DecodeLevels(zp: Receiver, ghost x: int, ghost rest: seq<Event>) returns (r: int)
    requires 2 <= x <= MARKER
    modifies zp
    ensures 2 <= r <= MARKER
    ensures old(zp.pending) == Levels(1, 2 * CTXIDS, x) + rest ==> r == x && zp.pending == rest
  {
    SmallPowers();
    ghost var sync := zp.pending == Levels(1, 2 * CTXIDS, x) + rest;
    var cx, k := 2 * CTXIDS, 1;
    while k < 8
      invariant 1 <= k <= 8 && cx == 4 + Pow2(k)
      invariant sync ==> Pow2(k) <= x && zp.pending == Levels(k, cx, x) + rest
    {
      var b;
      b, r := DecodeLevel(zp, k, cx, x, rest, sync);
      if b { return; }
      cx := cx + Pow2(k);
      k := k + 1;
    }
    r := MARKER;
  }

  /** Receive whether the position is of level `k`, and if so its bits. */
  method DecodeLevel(zp: Receiver, k: int, cx: int, ghost x: int, ghost rest: seq<Event>, ghost sync: bool)
    returns (b: bool, r: int)
    requires 1 <= k <= 7 && cx == 4 + Pow2(k)
    requires sync ==> Pow2(k) <= x && zp.pending == Levels(k, cx, x) + rest
    modifies zp
    ensures b ==> 2 <= r <= MARKER && (sync ==> r == x && zp.pending == rest)
    ensures !b ==> cx + Pow2(k) == 4 + Pow2(k + 1)
    ensures !b && sync ==> Pow2(k + 1) <= x && zp.pending == Levels(k + 1, cx + Pow2(k), x) + rest
  {
    LevelFits(k);
    if sync { LevelPending(zp.pending, k, cx, x, rest); }
    b := zp.Get(cx);
    r := 0;
    if b {
      ghost var y := if sync then x - Pow2(k) else 0;
      r := DecodeBits(zp, cx + 1, k, y, rest);
      r := Pow2(k) + r;
    }
  }

  /** Receive a position; it is the one sent if it was sent with the same `ctxid`. */
  method DecodeSymbol(zp: Receiver, ctxid: int, ghost x: int, ghost rest: seq<Event>) returns (r: int)
    requires 0 <= ctxid < CTXIDS && 0 <= x <= MARKER
    modifies zp
    ensures 0 <= r <= MARKER
    ensures old(zp.pending) == SymbolEvents(x, ctxid) + rest ==> r == x && zp.pending == rest
  {
    ghost var pending, sync := zp.pending, zp.pending == SymbolEvents(x, ctxid) + rest;
    if sync { SymbolPending(pending, x, ctxid, rest); }
    var b := zp.Get(ctxid);
    if b { return 0; }
    b := zp.Get(CTXIDS + ctxid);
    if b { return 1; }
    r := DecodeLevels(zp, if sync then x else 2, rest);
  }

  lemma SymbolPending(pending: seq<Event>, x: int, ctxid: int, rest: seq<Event>)
    requires 0 <= x && pending == SymbolEvents(x, ctxid) + rest
    ensures pending != [] && pending[0] == Event(ctxid, x == 0)
    ensures x == 0 ==> pending[1..] == rest
    ensures x > 0 ==> |pending| > 1 && pending[1..][0] == Event(CTXIDS + ctxid, x == 1)
    ensures x == 1 ==> pending[1..][1..] == rest
    ensures x > 1 ==> pending[1..][1..] == Levels(1, 2 * CTXIDS, x) + rest
  {
    if x > 1 {
      Uncons2(pending, Event(ctxid, false), Event(CTXIDS + ctxid, false), Levels(1, 2 * CTXIDS, x), rest);
    } else if x == 1 {
      Uncons2(pending, Event(ctxid, false), Event(CTXIDS + ctxid, true), [], rest);
    } else {
      Uncons(pending, Event(ctxid, true), [], rest);
    }
  }
}
