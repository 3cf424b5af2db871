/** A data pool that is connected to nothing: its bytes, the map of the known ones, and its triggers. */
module DataPool {
  import opened RunLengths
  import opened Blocks

  /** A registered callback; `id` is the order of registration and tells equal ones apart. */
  datatype Trigger = Trigger(id: nat, start: int, length: int, callback: int, data: int)

  const NO_CALLBACK := 0

  /** The pool's own callback, which learns the length of the data. */
  const OWN_CALLBACK := 1

  /** Whether a trigger's time has come: its range is known, or nothing more will come. */
  ghost predicate Satisfied(t: Trigger, m: seq<bool>, eof: bool) {
    eof || (t.length >= 0 && Count(m, t.start, t.start + t.length) == t.length)
  }

  ghost predicate Listed(triggers: seq<Trigger>, id: nat) {
    exists k :: 0 <= k < |triggers| && triggers[k].id == id
  }

  /** Every registered trigger is listed, has fired once, or was deleted: one of the three. */
  ghost predicate Accounted(all: seq<Trigger>, triggers: seq<Trigger>, fired: seq<nat>, deleted: set<nat>) {
    && (forall i :: 0 <= i < |all| ==> all[i].id == i)
    && (forall k :: 0 <= k < |triggers| ==> triggers[k].id < |all| && triggers[k] == all[triggers[k].id])
    && (forall j, k :: 0 <= j < k < |triggers| ==> triggers[j].id < triggers[k].id)
    && (forall j, k :: 0 <= j < k < |fired| ==> fired[j] != fired[k])
    && (forall i :: i in fired || i in deleted ==> i < |all|)
    && (forall i: nat :: i < |all| ==> (Listed(triggers, i) <==> i !in fired && i !in deleted))
    && (forall i :: i in fired ==> i !in deleted)
  }

  /** No listed trigger is satisfied, every fired one is. */
  ghost predicate Settled(all: seq<Trigger>, triggers: seq<Trigger>, fired: seq<nat>, m: seq<bool>, eof: bool) {
    && (forall k :: 0 <= k < |triggers| ==> !Satisfied(triggers[k], m, eof))
    && AllFiredSatisfied(all, fired, m, eof)
  }

  ghost predicate AllFiredSatisfied(all: seq<Trigger>, fired: seq<nat>, m: seq<bool>, eof: bool) {
    forall i :: i in fired ==> i < |all| && Satisfied(all[i], m, eof)
  }

  /** Before anything is registered; the first 32 bytes are not there yet. */
  lemma NothingAccounted(callback: int)
    ensures Accounted([], [], [], {}) && Settled([], [], [], Map([]), false)
    ensures !Satisfied(Trigger(0, 0, 32, callback, 0), Map([]), false)
  {
    CountConstant(Map([]), 0, 32, false);
  }

  /** More known bytes, or the end, keep a trigger satisfied. */
  lemma StaysSatisfied(t: Trigger, m: seq<bool>, n: seq<bool>, eof: bool, later: bool)
    requires Satisfied(t, m, eof) && (eof ==> later) && forall x :: Known(m, x) ==> Known(n, x)
    ensures Satisfied(t, n, later)
  {
    CountMonotone(m, n, t.start, t.start + t.length);
    if t.length >= 0 { CountBound(n, t.start, t.start + t.length); }
  }

  lemma FiredStaySatisfied(all: seq<Trigger>, fired: seq<nat>, m: seq<bool>, n: seq<bool>, eof: bool, later: bool)
    requires AllFiredSatisfied(all, fired, m, eof)
    requires (eof ==> later) && forall x :: Known(m, x) ==> Known(n, x)
    ensures AllFiredSatisfied(all, fired, n, later)
  {
    forall i | i in fired ensures Satisfied(all[i], n, later) { StaysSatisfied(all[i], m, n, eof, later); }
  }

  /** In a settled pool a trigger that was not deleted has fired exactly when it is satisfied. */
  lemma FiredIffSatisfied(all: seq<Trigger>, triggers: seq<Trigger>, fired: seq<nat>, deleted: set<nat>,
                          m: seq<bool>, eof: bool, i: nat)
    requires Accounted(all, triggers, fired, deleted) && Settled(all, triggers, fired, m, eof)
    requires i < |all| && i !in deleted
    ensures i in fired <==> Satisfied(all[i], m, eof)
  {
    if i !in fired {
      assert Listed(triggers, i);
    }
  }

  lemma FireAccounted(all: seq<Trigger>, triggers: seq<Trigger>, fired: seq<nat>, deleted: set<nat>, pos: nat)
    requires Accounted(all, triggers, fired, deleted) && pos < |triggers|
    ensures Accounted(all, triggers[..pos] + triggers[pos + 1..], fired + [triggers[pos].id], deleted)
  {
    var id := triggers[pos].id;
    var rest := triggers[..pos] + triggers[pos + 1..];
    assert Listed(triggers, id);
    RestListed(all, triggers, pos);
    forall i: nat | i < |all| ensures Listed(rest, i) <==> i !in fired + [id] && i !in deleted {
      assert Listed(rest, i) <==> Listed(triggers, i) && i != id;
    }
  }

  lemma RestListed(all: seq<Trigger>, triggers: seq<Trigger>, pos: nat)
    requires pos < |triggers| && forall j, k :: 0 <= j < k < |triggers| ==> triggers[j].id < triggers[k].id
    ensures forall i :: Listed(triggers[..pos] + triggers[pos + 1..], i) <==>
      Listed(triggers, i) && i != triggers[pos].id
  {
    var rest := triggers[..pos] + triggers[pos + 1..];
    forall i ensures Listed(rest, i) <==> Listed(triggers, i) && i != triggers[pos].id {
      if Listed(triggers, i) && i != triggers[pos].id {
        var k :| 0 <= k < |triggers| && triggers[k].id == i;
        assert rest[if k < pos then k else k - 1].id == i;
      }
      if Listed(rest, i) {
        var k :| 0 <= k < |rest| && rest[k].id == i;
        assert triggers[if k < pos then k else k + 1].id == i;
      }
    }
  }

  lemma DeleteAccounted(all: seq<Trigger>, triggers: seq<Trigger>, fired: seq<nat>, deleted: set<nat>, pos: nat)
    requires Accounted(all, triggers, fired, deleted) && pos < |triggers|
    ensures Accounted(all, triggers[..pos] + triggers[pos + 1..], fired, deleted + {triggers[pos].id})
  {
    var id := triggers[pos].id;
    var rest := triggers[..pos] + triggers[pos + 1..];
    assert Listed(triggers, id);
    RestListed(all, triggers, pos);
    forall i: nat | i < |all| ensures Listed(rest, i) <==> i !in fired && i !in deleted + {id} {
      assert Listed(rest, i) <==> Listed(triggers, i) && i != id;
    }
  }

  /** A trigger registered and listed. */
  lemma ListAccounted(all: seq<Trigger>, triggers: seq<Trigger>, fired: seq<nat>, deleted: set<nat>, t: Trigger)
    requires Accounted(all, triggers, fired, deleted) && t.id == |all|
    ensures Accounted(all + [t], triggers + [t], fired, deleted)
  {
    var longer := triggers + [t];
    forall i: nat | i <= |all| ensures Listed(longer, i) <==> i !in fired && i !in deleted {
      if i == |all| {
        assert longer[|triggers|].id == i;
      } else {
        if Listed(triggers, i) {
          var k :| 0 <= k < |triggers| && triggers[k].id == i;
          assert longer[k].id == i;
        }
        if Listed(longer, i) {
          var k :| 0 <= k < |longer| && longer[k].id == i;
          assert triggers[k].id == i;
        }
      }
    }
  }

  /** A trigger registered and called at once. */
  lemma CallAccounted(all: seq<Trigger>, triggers: seq<Trigger>, fired: seq<nat>, deleted: set<nat>, t: Trigger)
    requires Accounted(all, triggers, fired, deleted) && t.id == |all|
    ensures Accounted(all + [t], triggers, fired + [t.id], deleted)
  {
    assert !Listed(triggers, t.id);
    assert forall j :: 0 <= j < |fired| ==> fired[j] in fired;
  }

  datatype Got = Bytes(bytes: seq<int>) | EndOfFile | Blocked | BadSize | BadOffset

  /** What has been supplied, position by position; the pool stores it when every known byte is there. */
  ghost predicate Stores(m: seq<bool>, given: map<int, int>, data: seq<int>) {
    forall x :: Known(m, x) ==> x in given && x < |data| && data[x] == given[x]
  }

  /** The supplied bytes after `buffer` came for `offset`. */
  ghost function Supplied(given: map<int, int>, buffer: seq<int>, offset: int): map<int, int> {
    if buffer == [] then given
    else
      var n := |buffer| - 1;
      Supplied(given, buffer[..n], offset)[offset + n := buffer[n]]
  }

  lemma {:induction false} SuppliedAt(given: map<int, int>, buffer: seq<int>, offset: int, x: int)
    ensures var all := Supplied(given, buffer, offset);
      && (x in all <==> x in given || offset <= x < offset + |buffer|)
      && (x in all ==> all[x] == if offset <= x < offset + |buffer| then buffer[x - offset] else given[x])
  {
    if buffer != [] { SuppliedAt(given, buffer[..|buffer| - 1], offset, x); }
  }

  /** The data after writing `buffer` at `offset`. */
  function Overwritten(data: seq<int>, buffer: seq<int>, offset: nat): (r: seq<int>)
    requires offset <= |data|
  {
    data[..offset] + buffer + if offset + |buffer| <= |data| then data[offset + |buffer|..] else []
  }

  /** Writing within the data, or right at its end, keeps it in step with what is known. */
  lemma StoresMore(m: seq<bool>, n: seq<bool>, given: map<int, int>, data: seq<int>, buffer: seq<int>, offset: nat)
    requires Stores(m, given, data) && offset <= |data|
    requires forall x :: Known(n, x) <==> Known(m, x) || offset <= x < offset + |buffer|
    ensures Stores(n, Supplied(given, buffer, offset), Overwritten(data, buffer, offset))
  {
    var now, all := Overwritten(data, buffer, offset), Supplied(given, buffer, offset);
    forall x | Known(n, x) ensures x in all && x < |now| && now[x] == all[x] {
      SuppliedAt(given, buffer, offset, x);
      assert !(offset <= x < offset + |buffer|) ==> Known(m, x);
    }
  }

  /** The data with zeros up to `size`. */
  method PadTo(data: seq<int>, size: nat) returns (r: seq<int>)
    requires |data| <= size
    ensures |r| == size && data <= r && forall i :: |data| <= i < size ==> r[i] == 0
  {
    r := data;
    for i := |data| to size
      invariant |r| == i && data <= r && forall k :: |data| <= k < i ==> r[k] == 0
    {
      r := r + [0];
    }
  }

  class Pool {
    const blocks: BlockList
    var data: seq<int>
    var length: int
    var eof: bool
    var addAt: int
    var triggers: seq<Trigger>
    var registered: nat
    ghost var all: seq<Trigger>
    ghost var fired: seq<nat>
    ghost var deleted: set<nat>
    ghost var given: map<int, int>

    constructor ()
      ensures Valid() && fresh(blocks) && data == [] && length == -1 && !eof && addAt == 0 && given == map[]
      ensures blocks.list == [] && fired == [] && deleted == {}
      ensures all == triggers == [Trigger(0, 0, 32, OWN_CALLBACK, 0)]
    {
      blocks := new BlockList();
      data, length, eof, addAt, given := [], -1, false, 0, map[];
      triggers, all, fired, deleted, registered := [], [], [], {}, 0;
      new;
      Start();
    }

    /** Register the pool's own callback. */
    method Start()
      requires blocks.list == [] && data == [] && !eof && length == -1 && addAt == 0
      requires all == [] && triggers == [] && fired == [] && deleted == {} && registered == 0
      modifies this`length, this`triggers, this`fired, this`all, this`registered
      ensures Valid() && length == -1 && fired == []
      ensures all == triggers == [Trigger(0, 0, 32, OWN_CALLBACK, 0)]
    {
      NothingAccounted(OWN_CALLBACK);
      AddTrigger(0, 32, OWN_CALLBACK, 0, -1);
    }

    ghost function Known(): seq<bool>
      reads this, blocks
    {
      Map(blocks.list)
    }

    /**
     Between operations: the triggers are accounted for, and none that is listed is satisfied. What was
     added one after another is within the data, and at the end the length is known.
     */
    ghost predicate Valid()
      reads this, blocks
    {
      && blocks.Valid() && registered == |all| && Accounted(all, triggers, fired, deleted)
      && Settled(all, triggers, fired, Known(), eof)
      && 0 <= addAt <= |data| && (eof ==> length >= 0)
    }

    /** While triggers are being called: some that are listed may be satisfied. */
    ghost predicate Unsettled()
      reads this, blocks
    {
      && blocks.Valid() && registered == |all| && Accounted(all, triggers, fired, deleted)
      && AllFiredSatisfied(all, fired, Known(), eof)
      && 0 <= addAt <= |data| && (eof ==> length >= 0)
    }

    /** The pool's own callback learns the length: from the header, if it tells, or at the end from the data. */
    method OwnCallback(guess: int)
      modifies this`length
      ensures length == if old(length) >= 0 then old(length) else if guess >= 0 then guess
                        else if eof then |data| else old(length)
    {
      if length < 0 && guess >= 0 { length := guess; }
      if length < 0 && eof { length := |data|; }
    }

    /** The first trigger whose time has come. */
    method Candidate() returns (pos: int)
      requires blocks.Valid()
      ensures 0 <= pos <= |triggers|
      ensures pos < |triggers| ==> Satisfied(triggers[pos], Known(), eof)
      ensures eof ==> pos == 0
      ensures forall k :: 0 <= k < pos ==> !Satisfied(triggers[k], Known(), eof)
    {
      pos := 0;
      while pos < |triggers|
        invariant 0 <= pos <= |triggers| && (eof ==> pos == 0)
        invariant forall k :: 0 <= k < pos ==> !Satisfied(triggers[k], Known(), eof)
      {
        var t := triggers[pos];
        if eof { return; }
        if t.length >= 0 {
          var ok, bytes := blocks.GetBytes(t.start, t.length);
          if bytes == t.length { return; }
        }
        pos := pos + 1;
      }
    }

    /** Call every trigger whose time has come and take it off the list, until none is left. */
    method CheckTriggers(guess: int)
      requires Unsettled()
      modifies this`triggers, this`fired, this`length
      ensures Valid() && old(fired) <= fired
      ensures old(length) >= 0 ==> length == old(length)
      ensures eof ==> triggers == []
    {
      while true
        invariant Unsettled() && old(fired) <= fired && (old(length) >= 0 ==> length == old(length))
        decreases |triggers|
      {
        var pos := Candidate();
        if pos == |triggers| { break; }
        var t := triggers[pos];
        if t.callback == OWN_CALLBACK { OwnCallback(guess); }
        FireAccounted(all, triggers, fired, deleted, pos);
        triggers := triggers[..pos] + triggers[pos + 1..];
        fired := fired + [t.id];
      }
    }

    /** Nothing more will come: every listed trigger fires. */
    method SetEof(guess: int)
      requires Unsettled()
      modifies this`eof, this`length, this`triggers, this`fired
      ensures Valid() && eof && triggers == [] && old(fired) <= fired && length >= 0
      ensures old(length) >= 0 ==> length == old(length)
    {
      FiredStaySatisfied(all, fired, Known(), Known(), eof, true);
      eof := true;
      if length < 0 { length := |data|; }
      CheckTriggers(guess);
    }

    /** Enter a range into the map, call the triggers it satisfies, and see whether that was all. */
    method AddedData(offset: int, size: int, guess: int) returns (r: Outcome)
      requires Valid()
      modifies this`eof, this`length, this`triggers, this`fired, blocks
      ensures Valid() && old(fired) <= fired
      ensures r == if offset < 0 then NegativeStart else if size <= 0 then BadLength else Fine
      ensures r.Fine? ==> forall x :: RunLengths.Known(Known(), x) <==>
        RunLengths.Known(old(Known()), x) || offset <= x < offset + size
      ensures !r.Fine? ==> blocks.list == old(blocks.list) && eof == old(eof) && triggers == old(triggers)
      ensures r.Fine? ==> (eof <==> old(eof) || 0 <= length <= |data|)
      ensures old(length) >= 0 ==> length == old(length)
    {
      r := blocks.AddRange(offset, size);
      if !r.Fine? { return; }
      FiredStaySatisfied(all, fired, old(Known()), Known(), eof, eof);
      CheckTriggers(guess);
      if length >= 0 && |data| >= length { SetEof(guess); }
    }

    /** Register a callback for a range, or call it at once when its time has come. */
    method AddTrigger(start: int, length: int, callback: int, data: int, guess: int)
      requires Valid()
      modifies this`length, this`triggers, this`fired, this`all, this`registered
      ensures Valid() && (old(this.length) >= 0 || fired == old(fired) ==> this.length == old(this.length))
      ensures callback == NO_CALLBACK ==> all == old(all) && fired == old(fired) && triggers == old(triggers)
      ensures callback != NO_CALLBACK ==>
        var t := Trigger(|old(all)|, start, length, callback, data);
        && all == old(all) + [t]
        && (if Satisfied(t, Known(), eof) then fired == old(fired) + [t.id] && triggers == old(triggers)
            else fired == old(fired) && triggers == old(triggers) + [t])
    {
      if callback == NO_CALLBACK { return; }
      var t := Trigger(registered, start, length, callback, data);
      var now := eof;
      if !eof && length >= 0 {
        var ok, bytes := blocks.GetBytes(start, length);
        now := bytes == length;
      }
      if now { Call(t, guess); } else { List(t); }
    }

    /** Call a new trigger at once. */
    method Call(t: Trigger, guess: int)
      requires Valid() && t.id == registered && Satisfied(t, Known(), eof)
      modifies this`length, this`fired, this`all, this`registered
      ensures Valid() && (old(length) >= 0 ==> length == old(length))
      ensures all == old(all) + [t] && fired == old(fired) + [t.id]
    {
      if t.callback == OWN_CALLBACK { OwnCallback(guess); }
      CallAccounted(all, triggers, fired, deleted, t);
      registered, fired, all := registered + 1, fired + [t.id], all + [t];
    }

    /** Put a new trigger on the list. */
    method List(t: Trigger)
      requires Valid() && t.id == registered && !Satisfied(t, Known(), eof)
      modifies this`triggers, this`all, this`registered
      ensures Valid() && all == old(all) + [t] && triggers == old(triggers) + [t]
    {
      ListAccounted(all, triggers, fired, deleted, t);
      registered, triggers, all := registered + 1, triggers + [t], all + [t];
    }

    /** Register a callback for the bytes up to `threshold`, or for the end. */
    method AddTriggerUpTo(threshold: int, callback: int, data: int, guess: int)
      requires Valid() && callback != NO_CALLBACK
      modifies this`length, this`triggers, this`fired, this`all, this`registered
      ensures Valid()
      ensures var t := Trigger(|old(all)|, 0, if threshold >= 0 then threshold + 1 else -1, callback, data);
        && all == old(all) + [t]
        && (if Satisfied(t, Known(), eof) then fired == old(fired) + [t.id] && triggers == old(triggers)
            else fired == old(fired) && triggers == old(triggers) + [t])
    {
      if threshold >= 0 {
        AddTrigger(0, threshold + 1, callback, data, guess);
      } else {
        AddTrigger(0, -1, callback, data, guess);
      }
    }

    /** Delete every listed trigger with this callback and data. */
    method DelTrigger(callback: int, data: int)
      requires Valid()
      modifies this`triggers, this`deleted
      ensures Valid() && old(deleted) <= deleted
      ensures forall t :: t in triggers <==> t in old(triggers) && !(t.callback == callback && t.data == data)
      ensures forall t :: t in old(triggers) && t.callback == callback && t.data == data ==> t.id in deleted
      ensures forall i :: i in deleted && i !in old(deleted) ==>
        i < |all| && all[i] in old(triggers) && all[i].callback == callback && all[i].data == data
    {
      while true
        invariant Valid() && old(deleted) <= deleted
        invariant forall t :: t in triggers ==> t in old(triggers)
        invariant forall t :: t in old(triggers) ==>
          t in triggers || (t.callback == callback && t.data == data && t.id in deleted)
        invariant forall i :: i in deleted && i !in old(deleted) ==>
          i < |all| && all[i] in old(triggers) && all[i].callback == callback && all[i].data == data
        decreases |triggers|
      {
        var pos := 0;
        while pos < |triggers| && !(triggers[pos].callback == callback && triggers[pos].data == data)
          invariant 0 <= pos <= |triggers|
          invariant forall k :: 0 <= k < pos ==> !(triggers[k].callback == callback && triggers[k].data == data)
          decreases |triggers| - pos
        {
          pos := pos + 1;
        }
        if pos == |triggers| { break; }
        Remove(pos);
      }
    }

    method Remove(pos: nat)
      requires Valid() && pos < |triggers|
      modifies this`triggers, this`deleted
      ensures Valid() && triggers == old(triggers)[..pos] + old(triggers)[pos + 1..]
      ensures deleted == old(deleted) + {old(triggers[pos].id)}
      ensures forall t :: t in old(triggers) <==> t in triggers || t == old(triggers[pos])
    {
      DeleteAccounted(all, triggers, fired, deleted, pos);
      deleted := deleted + {triggers[pos].id};
      triggers := triggers[..pos] + triggers[pos + 1..];
    }

    /**
     Add bytes at an offset. Within the data, or right at its end, they are
     written; past the end the data is only padded up to the offset, yet the
     range is entered into the map all the same.
     */
    method AddData(buffer: seq<int>, offset: int, guess: int) returns (r: Outcome)
      requires Valid()
      modifies this`data, this`eof, this`length, this`triggers, this`fired, this`given, blocks
      ensures Valid() && old(fired) <= fired
      ensures r == if offset < 0 then NegativeStart else if buffer == [] then BadLength else Fine
      ensures r.Fine? ==> forall x :: RunLengths.Known(Known(), x) <==>
        RunLengths.Known(old(Known()), x) || offset <= x < offset + |buffer|
      ensures r.Fine? && offset <= |old(data)| ==> data == Overwritten(old(data), buffer, offset)
      ensures r.Fine? && offset > |old(data)| ==> |data| == offset && old(data) <= data
      ensures r.Fine? ==> given == Supplied(old(given), buffer, offset)
      ensures old(length) >= 0 ==> length == old(length)
      ensures r.Fine? && Stores(old(Known()), old(given), old(data)) ==>
        (Stores(Known(), given, data) <==> offset <= |old(data)|)
    {
      if offset < 0 { return NegativeStart; }
      if offset > |data| {
        data := PadTo(data, offset);
      } else {
        data := Overwritten(data, buffer, offset);
      }
      r := AddedData(offset, |buffer|, guess);
      if r.Fine? {
        given := Supplied(given, buffer, offset);
        assert RunLengths.Known(Known(), offset);
        if Stores(old(Known()), old(given), old(data)) && offset <= |old(data)| {
          StoresMore(old(Known()), Known(), old(given), old(data), buffer, offset);
        }
      }
    }

    /** Add bytes after those added this way before; they are always stored where they were supplied. */
    method AddNext(buffer: seq<int>, guess: int) returns (r: Outcome)
      requires Valid()
      modifies this`data, this`eof, this`length, this`triggers, this`fired, this`given, this`addAt, blocks
      ensures Valid() && old(fired) <= fired
      ensures r.Fine? ==> addAt == old(addAt) + |buffer|
      ensures !r.Fine? ==> addAt == old(addAt)
      ensures r.Fine? ==> forall x :: RunLengths.Known(Known(), x) <==>
        RunLengths.Known(old(Known()), x) || old(addAt) <= x < addAt
      ensures r.Fine? ==> given == Supplied(old(given), buffer, old(addAt))
      ensures r.Fine? && Stores(old(Known()), old(given), old(data)) ==> Stores(Known(), given, data)
    {
      r := AddData(buffer, addAt, guess);
      if r.Fine? { addAt := addAt + |buffer|; }
    }

    /** The length meant by a request that leaves it out. */
    function Wanted(start: int, length: int): int
      reads this
    {
      if length < 0 && this.length > 0 then this.length - start else length
    }

    /** Whether a whole range is there. */
    method HasData(start: int, length: int) returns (has: bool)
      requires Valid()
      ensures has <==> if Wanted(start, length) < 0 then eof
        else forall x :: start <= x < start + Wanted(start, length) ==> RunLengths.Known(Known(), x)
    {
      var wanted := length;
      if length < 0 && this.length > 0 { wanted := this.length - start; }
      if wanted < 0 { return eof; }
      var ok, bytes := blocks.GetBytes(start, wanted);
      CountFull(Known(), start, start + wanted);
      has := bytes == wanted;
    }

    /** Read up to `size` known bytes; blocks only when there are none and more may come. */
    method GetData(offset: int, size: int) returns (r: Got)
      requires Valid()
      ensures r.BadSize? <==> size < 0
      ensures r.BadOffset? <==> size > 0 && offset < 0
      ensures r.Blocked? <==> size > 0 && offset >= 0 && !eof && !RunLengths.Known(Known(), offset)
      ensures r.EndOfFile? <==> size > 0 && eof && 0 <= offset < length && !RunLengths.Known(Known(), offset)
      ensures r.Bytes? && !RunLengths.Known(Known(), offset) ==> r.bytes == []
      ensures r.Bytes? && offset >= 0 ==> r.bytes == ReadAt(data, offset, |r.bytes|)
      ensures r.Bytes? && size > 0 && RunLengths.Known(Known(), offset) && Stores(Known(), given, data) ==>
        && 0 < |r.bytes| <= size
        && (forall i :: 0 <= i < |r.bytes| ==> RunLengths.Known(Known(), offset + i) && offset + i in given
                                               && r.bytes[i] == given[offset + i])
        && (|r.bytes| < size ==> !RunLengths.Known(Known(), offset + |r.bytes|))
    {
      if size < 0 { return BadSize; }
      if size == 0 { return Bytes([]); }
      var ok, range := blocks.GetRange(offset, size);
      if !ok.Fine? { return BadOffset; }
      if range > 0 {
        var bytes := ReadAt(data, offset, range);
        RangeRead(Known(), given, data, offset, size, range);
        return Bytes(bytes);
      }
      if eof {
        if length > 0 && offset < length { return EndOfFile; }
        return Bytes([]);
      }
      r := Blocked;
    }

    /** A range that is there is read without blocking and in one piece. */
    method ReadWhatIsThere(offset: int, size: int) returns (has: bool, r: Got)
      requires Valid() && offset >= 0 && size > 0 && Stores(Known(), given, data)
      ensures has ==> r.Bytes? && |r.bytes| == size && forall i :: 0 <= i < size ==>
        offset + i in given && r.bytes[i] == given[offset + i]
    {
      has := HasData(offset, size);
      r := GetData(offset, size);
      if has {
        assert RunLengths.Known(Known(), offset);
        ghost var n := if r.Bytes? then |r.bytes| else 0;
        assert n < size ==> RunLengths.Known(Known(), offset + n);
      }
    }
  }

  /** A byte added past the end is there for the map, but reading it gives nothing. */
  method PastTheEnd() returns (has: bool, r: Got)
    ensures has && r == Bytes([])
  {
    var pool := new Pool();
    var added := pool.AddData([7], 3, -1);
    assert RunLengths.Known(pool.Known(), 3);
    has := pool.HasData(3, 1);
    r := pool.GetData(3, 1);
  }

  /** What is read of a known range. */
  lemma RangeRead(m: seq<bool>, given: map<int, int>, data: seq<int>, offset: nat, size: int, range: int)
    requires IsRange(m, offset, size, range) && range > 0
    ensures RunLengths.Known(m, offset)
    ensures var bytes := ReadAt(data, offset, range); bytes == ReadAt(data, offset, |bytes|)
    ensures Stores(m, given, data) ==>
      var bytes := ReadAt(data, offset, range);
      && |bytes| == range <= size
      && (forall i :: 0 <= i < |bytes| ==>
        RunLengths.Known(m, offset + i) && offset + i in given && bytes[i] == given[offset + i])
      && (|bytes| < size ==> !RunLengths.Known(m, offset + |bytes|))
  {
    assert RunLengths.Known(m, offset + range - 1);
  }

  /** The bytes of the data from an offset on, as many as there are. */
  function ReadAt(data: seq<int>, offset: nat, size: nat): (r: seq<int>)
  {
    if offset >= |data| then []
    else data[offset..if offset + size <= |data| then offset + size else |data|]
  }
}
