/**
 Stable counting sort, as values: the slot of an index is the number of
 smaller keys plus the number of equal keys before it. The radix sorts of the
 encoder and the counting pass of the decoder all compute slots.
 */
module StableSort {
  import opened Permutation

  /** How many of the first `i` keys equal `c`. */
  ghost function Count(keys: seq<int>, i: nat, c: int): nat
    requires i <= |keys|
  {
    if i == 0 then 0 else Count(keys, i - 1, c) + (if keys[i - 1] == c then 1 else 0)
  }

  /** How many of the first `i` keys are below `c`. */
  ghost function CountBelow(keys: seq<int>, i: nat, c: int): nat
    requires i <= |keys|
  {
    if i == 0 then 0 else CountBelow(keys, i - 1, c) + (if keys[i - 1] < c then 1 else 0)
  }

  /** The first slot of key `c`. */
  ghost function Start(keys: seq<int>, c: int): nat {
    CountBelow(keys, |keys|, c)
  }

  ghost function Slot(keys: seq<int>, i: int): int
    requires 0 <= i < |keys|
  {
    Start(keys, keys[i]) + Count(keys, i, keys[i])
  }

  lemma {:induction false} CountNext(keys: seq<int>, i: nat, c: int)
    requires i <= |keys|
    ensures CountBelow(keys, i, c + 1) == CountBelow(keys, i, c) + Count(keys, i, c)
  {
    if i > 0 { CountNext(keys, i - 1, c); }
  }

  lemma {:induction false} CountBelowMonotone(keys: seq<int>, i: nat, c: int, e: int)
    requires i <= |keys| && c <= e
    ensures CountBelow(keys, i, c) <= CountBelow(keys, i, e) <= i
  {
    if i > 0 { CountBelowMonotone(keys, i - 1, c, e); }
  }

  lemma {:induction false} CountMonotone(keys: seq<int>, i: nat, j: nat, c: int)
    requires i <= j <= |keys|
    ensures Count(keys, i, c) <= Count(keys, j, c)
  {
    if i < j { CountMonotone(keys, i, j - 1, c); }
  }

  /** Slots of key `c` end where those of the next key start. */
  lemma StartNext(keys: seq<int>, c: int)
    ensures Start(keys, c + 1) == Start(keys, c) + Count(keys, |keys|, c)
  {
    CountNext(keys, |keys|, c);
  }

  lemma SlotBounds(keys: seq<int>, i: int)
    requires 0 <= i < |keys|
    ensures Start(keys, keys[i]) <= Slot(keys, i) < Start(keys, keys[i] + 1) <= |keys|
  {
    StartNext(keys, keys[i]);
    CountMonotone(keys, i + 1, |keys|, keys[i]);
    CountBelowMonotone(keys, |keys|, keys[i] + 1, keys[i] + 1);
  }

  /** Slots are ordered by key, then by index. */
  lemma SlotOrder(keys: seq<int>, i: int, j: int)
    requires 0 <= i < |keys| && 0 <= j < |keys|
    requires keys[i] < keys[j] || (keys[i] == keys[j] && i < j)
    ensures Slot(keys, i) < Slot(keys, j)
  {
    if keys[i] < keys[j] {
      SlotBounds(keys, i);
      SlotBounds(keys, j);
      CountBelowMonotone(keys, |keys|, keys[i] + 1, keys[j]);
    } else {
      CountMonotone(keys, i + 1, j, keys[i]);
    }
  }

  lemma SlotInjective(keys: seq<int>, i: int, j: int)
    requires 0 <= i < |keys| && 0 <= j < |keys| && i != j
    ensures Slot(keys, i) != Slot(keys, j)
  {
    if keys[i] < keys[j] || (keys[i] == keys[j] && i < j) {
      SlotOrder(keys, i, j);
    } else {
      SlotOrder(keys, j, i);
    }
  }

  ghost function Slots(keys: seq<int>): (r: seq<int>)
    ensures |r| == |keys| && forall i :: 0 <= i < |keys| ==> r[i] == Slot(keys, i)
  {
    seq(|keys|, i requires 0 <= i < |keys| => Slot(keys, i))
  }

  lemma SlotsPerm(keys: seq<int>)
    ensures IsPerm(Slots(keys))
  {
    var r := Slots(keys);
    forall i | 0 <= i < |r| ensures 0 <= r[i] < |r| {
      SlotBounds(keys, i);
    }
    forall i, j | 0 <= i < j < |r| ensures r[i] != r[j] {
      SlotInjective(keys, i, j);
    }
  }

  /** `p` lists the indices in stable key order. */
  ghost predicate Arranged(keys: seq<int>, p: seq<int>) {
    |p| == |keys| && forall i :: 0 <= i < |keys| ==> 0 <= Slot(keys, i) < |p| && p[Slot(keys, i)] == i
  }

  /** Every entry of an arrangement sits in its slot. */
  lemma ArrangedSlot(keys: seq<int>, p: seq<int>, k: int)
    requires Arranged(keys, p) && 0 <= k < |p|
    ensures 0 <= p[k] < |p| && Slot(keys, p[k]) == k
  {
    SlotsPerm(keys);
    var i := IndexOf(Slots(keys), k);
    assert Slot(keys, i) == k;
  }

  lemma ArrangedPerm(keys: seq<int>, p: seq<int>)
    requires Arranged(keys, p)
    ensures IsPerm(p)
  {
    forall k | 0 <= k < |p| ensures 0 <= p[k] < |p| && Slot(keys, p[k]) == k {
      ArrangedSlot(keys, p, k);
    }
  }

  /** Later slots hold keys at least as large. */
  lemma ArrangedKeys(keys: seq<int>, p: seq<int>, a: int, b: int)
    requires Arranged(keys, p) && 0 <= a <= b < |p|
    ensures 0 <= p[a] < |p| && 0 <= p[b] < |p| && keys[p[a]] <= keys[p[b]]
  {
    ArrangedSlot(keys, p, a);
    ArrangedSlot(keys, p, b);
    if keys[p[b]] < keys[p[a]] { SlotOrder(keys, p[b], p[a]); }
  }

  /** The last slot of the key of index `i`. */
  ghost function Top(keys: seq<int>, i: int): int
    requires 0 <= i < |keys|
  {
    Start(keys, keys[i] + 1) - 1
  }

  /** The last slot of a key is held by an index with that key. */
  lemma TopHolder(keys: seq<int>, p: seq<int>, i: int)
    requires Arranged(keys, p) && 0 <= i < |keys|
    ensures Slot(keys, i) <= Top(keys, i) < |p|
    ensures var j := p[Top(keys, i)]; 0 <= j < |p| && keys[j] == keys[i]
  {
    SlotBounds(keys, i);
    var k := Top(keys, i);
    ArrangedSlot(keys, p, k);
    var j := p[k];
    SlotBounds(keys, j);
    if keys[j] < keys[i] {
      CountBelowMonotone(keys, |keys|, keys[j] + 1, keys[i]);
    } else if keys[i] < keys[j] {
      CountBelowMonotone(keys, |keys|, keys[i] + 1, keys[j]);
    }
  }

  /** Tops are strictly ordered by key. */
  lemma TopOrder(keys: seq<int>, i: int, j: int)
    requires 0 <= i < |keys| && 0 <= j < |keys|
    ensures keys[i] < keys[j] <==> Top(keys, i) < Top(keys, j)
    ensures keys[i] == keys[j] <==> Top(keys, i) == Top(keys, j)
  {
    SlotBounds(keys, i);
    SlotBounds(keys, j);
    if keys[i] < keys[j] {
      CountBelowMonotone(keys, |keys|, keys[i] + 1, keys[j]);
    } else if keys[j] < keys[i] {
      CountBelowMonotone(keys, |keys|, keys[j] + 1, keys[i]);
    }
  }
}
