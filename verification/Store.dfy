/** The RocksDB store with snapshots: which map a read sees, after any history of calls. */
module Store {
  import opened ByteOrder
  import opened KeyValue
  import opened Cursor
  import opened Wrappers

  /** One update of a write batch. */
  datatype Change = Put(key: Bytes, value: Bytes) | Delete(key: Bytes)

  /** The calls a store has answered. `Use(None)` is SetSnapshot(nil). */
  datatype Op = Write(changes: seq<Change>) | Snap | Use(target: Option<nat>) | Release(handle: nat)

  function Apply(kv: Kv, c: Change): Kv
  {
    match c
    case Put(k, v) => kv[k := v]
    case Delete(k) => kv - {k}
  }

  function ApplyAll(kv: Kv, cs: seq<Change>): Kv
  {
    if cs == [] then kv else Apply(ApplyAll(kv, cs[..|cs| - 1]), cs[|cs| - 1])
  }

  /** The map after a history: only writes matter. */
  function MapAfter(log: seq<Op>): Kv
  {
    if log == [] then map[] else
    var before := MapAfter(log[..|log| - 1]);
    match log[|log| - 1]
    case Write(changes) => ApplyAll(before, changes)
    case _ => before
  }

  /** Every change ever written, in order. */
  function Changes(log: seq<Op>): seq<Change>
  {
    if log == [] then [] else
    Changes(log[..|log| - 1]) + if log[|log| - 1].Write? then log[|log| - 1].changes else []
  }

  /** When each snapshot was taken: its handle is its place in this list. */
  function SnapTimes(log: seq<Op>): (ts: seq<nat>)
    ensures forall h | 0 <= h < |ts| :: ts[h] < |log|
  {
    if log == [] then [] else
    var earlier := SnapTimes(log[..|log| - 1]);
    if log[|log| - 1].Snap? then earlier + [|log| - 1] else earlier
  }

  predicate IsReleased(log: seq<Op>, h: nat) { Release(h) in log }

  /** The snapshot reads go to: a released or nil snapshot clears it. */
  function Active(log: seq<Op>): Option<nat>
  {
    if log == [] then None else
    var before := log[..|log| - 1];
    match log[|log| - 1]
    case Use(h) => if h.Some? && IsReleased(before, h.value) then None else h
    case _ => Active(before)
  }

  /** The answer of a read; a read through a snapshot released while in use is undefined. */
  datatype Reply = Value(value: Bytes) | NotThere | Undefined | Failed(message: Bytes)

  function Find(kv: Kv, key: Bytes): Reply
  {
    if key in kv then Value(kv[key]) else NotThere
  }

  /** The i-th change is the last one made to this key. */
  predicate LastChange(cs: seq<Change>, key: Bytes, i: nat)
  {
    i < |cs| && cs[i].key == key && forall j | i < j < |cs| :: cs[j].key != key
  }

  /** Reading `key` after these changes: the value last put, or nothing if there is none or it was deleted since. */
  ghost predicate ReadsAs(cs: seq<Change>, key: Bytes, r: Reply)
  {
    match r
    case Value(v) => exists i: nat :: LastChange(cs, key, i) && cs[i] == Put(key, v)
    case NotThere => forall i: nat | LastChange(cs, key, i) :: cs[i].Delete?
    case _ => false
  }

  lemma {:induction false} ReadAfterChanges(cs: seq<Change>, key: Bytes)
    ensures ReadsAs(cs, key, Find(ApplyAll(map[], cs), key))
  {
    if cs != [] {
      var front, last := cs[..|cs| - 1], |cs| - 1;
      ReadAfterChanges(front, key);
      if cs[last].key == key {
        assert LastChange(cs, key, last);
      } else {
        forall i: nat ensures LastChange(cs, key, i) <==> LastChange(front, key, i) {
          if i < last { assert cs[i] == front[i]; }
          if LastChange(front, key, i) { assert forall j | i < j < last :: cs[j] == front[j]; }
          if LastChange(cs, key, i) { assert forall j | i < j < last :: cs[j] == front[j]; }
        }
      }
    }
  }

  lemma {:induction false} ApplyAllConcat(kv: Kv, a: seq<Change>, b: seq<Change>)
    ensures ApplyAll(kv, a + b) == ApplyAll(ApplyAll(kv, a), b)
  {
    if b == [] {
      assert a + b == a;
    } else {
      assert (a + b)[..|a + b| - 1] == a + b[..|b| - 1];
      ApplyAllConcat(kv, a, b[..|b| - 1]);
    }
  }

  lemma {:induction false} MapIsChanges(log: seq<Op>)
    ensures MapAfter(log) == ApplyAll(map[], Changes(log))
  {
    if log != [] {
      var front, last := log[..|log| - 1], log[|log| - 1];
      MapIsChanges(front);
      ApplyAllConcat(map[], Changes(front), if last.Write? then last.changes else []);
    }
  }

  /** Read after write: what a key holds after a history is decided by the last change made to it. */
  lemma ReadAfterWrite(log: seq<Op>, key: Bytes)
    ensures ReadsAs(Changes(log), key, Find(MapAfter(log), key))
  {
    MapIsChanges(log);
    ReadAfterChanges(Changes(log), key);
  }

  /** A batch of puts is what the other engines' batches are. */
  lemma {:induction false} PutsAreBatch(kv: Kv, ps: seq<Pair>)
    ensures ApplyAll(kv, seq(|ps|, i requires 0 <= i < |ps| => Put(ps[i].key, ps[i].value))) == PutAll(kv, ps)
  {
    if ps != [] {
      var front := ps[..|ps| - 1];
      PutsAreBatch(kv, front);
      var cs := seq(|ps|, i requires 0 <= i < |ps| => Put(ps[i].key, ps[i].value));
      assert cs[..|ps| - 1] == seq(|front|, i requires 0 <= i < |front| => Put(front[i].key, front[i].value));
    }
  }

  /** The handles in use are those of the snapshots taken, in the order they were taken. */
  lemma {:induction false} SnapTimesExact(log: seq<Op>)
    ensures var ts := SnapTimes(log);
            && (forall h | 0 <= h < |ts| :: ts[h] < |log| && log[ts[h]].Snap?)
            && (forall g, h | 0 <= g < h < |ts| :: ts[g] < ts[h])
            && (forall t | 0 <= t < |log| && log[t].Snap? :: t in ts)
  {
    if log != [] {
      var front, last := log[..|log| - 1], |log| - 1;
      SnapTimesExact(front);
      var ts, ts' := SnapTimes(front), SnapTimes(log);
      forall t | 0 <= t < |log| && log[t].Snap? ensures t in ts' {
        if t < last {
          assert front[t].Snap?;
          var h :| 0 <= h < |ts| && ts[h] == t;
          assert ts'[h] == t;
        } else {
          assert ts'[|ts|] == last;
        }
      }
    }
  }

  /** The i-th call sets snapshot h, not yet released then, and no later call sets another. */
  ghost predicate SetLast(log: seq<Op>, h: nat, i: nat)
  {
    i < |log| && log[i] == Use(Some(h)) && Release(h) !in log[..i] && forall j | i < j < |log| :: !log[j].Use?
  }

  lemma SetLastGrows(log: seq<Op>, op: Op, h: nat, i: nat)
    requires !op.Use?
    ensures SetLast(log + [op], h, i) <==> SetLast(log, h, i)
  {
    var log' := log + [op];
    assert forall j | 0 <= j < |log| :: log'[j] == log[j];
    if i < |log| { assert log'[..i] == log[..i]; }
  }

  /** The last SetSnapshot call decides where reads go, and it sets nothing if its snapshot was gone. */
  lemma {:induction false} ActiveIsLastUse(log: seq<Op>, h: nat)
    ensures Active(log) == Some(h) <==> exists i: nat :: SetLast(log, h, i)
  {
    if log != [] {
      var front, op := log[..|log| - 1], log[|log| - 1];
      assert log == front + [op];
      ActiveIsLastUse(front, h);
      if op.Use? {
        assert SetLast(log, h, |front|) <==> op == Use(Some(h)) && !IsReleased(front, h);
        assert forall i: nat | i < |front| :: !SetLast(log, h, i);
      } else {
        forall i: nat ensures SetLast(log, h, i) <==> SetLast(front, h, i) { SetLastGrows(front, op, h, i); }
      }
    }
  }

  /** The part of the history a read sees: all of it, or up to the snapshot in use. */
  function Seen(log: seq<Op>): seq<Op>
    requires Active(log).Some? ==> Active(log).value < |SnapTimes(log)|
  {
    match Active(log)
    case None => log
    case Some(h) => log[..SnapTimes(log)[h]]
  }

  /** What a read must answer, from the history alone. */
  function Expected(log: seq<Op>, key: Bytes): Reply
    requires Active(log).Some? ==> Active(log).value < |SnapTimes(log)|
  {
    match Active(log)
    case None => Find(MapAfter(log), key)
    case Some(h) =>
      if IsReleased(log, h) then Undefined else Find(MapAfter(log[..SnapTimes(log)[h]]), key)
  }

  /** A snapshot as the engine keeps it. */
  datatype Snapshot = Live(frozen: Kv) | Released

  class Store {
    var kv: Kv
    var snapshots: seq<Snapshot>
    /** The snapshot set in the store's read options. */
    var ropt: Option<nat>
    /** Every call answered so far. */
    ghost var log: seq<Op>

    ghost predicate Valid()
      reads this
    {
      && kv == MapAfter(log)
      && ropt == Active(log)
      && |snapshots| == |SnapTimes(log)|
      && (ropt.Some? ==> ropt.value < |snapshots|)
      && (forall h: nat | h < |snapshots| ::
            snapshots[h] == if IsReleased(log, h) then Released else Live(MapAfter(log[..SnapTimes(log)[h]])))
      && (forall h: nat | IsReleased(log, h) :: h < |snapshots|)
    }

    constructor ()
      ensures Valid() && log == []
    {
      kv, snapshots, ropt, log := map[], [], None, [];
    }

    /** WriteBatch, and SetOne and Delete as batches of one. A failed write changes nothing. */
    method WriteBatch(changes: seq<Change>, fault: Option<Bytes>) returns (err: Option<Bytes>)
      requires Valid()
      modifies this
      ensures Valid() && err == fault
      ensures log == if fault.None? then old(log) + [Write(changes)] else old(log)
      ensures Changes(log) == old(Changes(log)) + if fault.None? then changes else []
      ensures forall key :: ReadsAs(Changes(log), key, Find(kv, key))
    {
      err := fault;
      if fault.None? {
        kv := Batched(kv, changes);
        log := log + [Write(changes)];
        LogGrows(old(log), Write(changes));
      }
      forall key ensures ReadsAs(Changes(log), key, Find(MapAfter(log), key)) { ReadAfterWrite(log, key); }
    }

    method NewSnapshot() returns (h: nat)
      requires Valid()
      modifies this
      ensures Valid() && log == old(log) + [Snap] && h == |old(SnapTimes(log))|
    {
      h := |snapshots|;
      snapshots := snapshots + [Live(kv)];
      log := log + [Snap];
      LogGrows(old(log), Snap);
      assert log[..|old(log)|] == old(log);
    }

    /** SetSnapshot: nil, and a snapshot whose handle Release has cleared, both unset it. */
    method SetSnapshot(h: Option<nat>)
      requires Valid() && (h.Some? ==> h.value < |snapshots|)
      modifies this
      ensures Valid() && log == old(log) + [Use(h)]
    {
      ropt := if h.Some? && snapshots[h.value].Released? then None else h;
      log := log + [Use(h)];
      LogGrows(old(log), Use(h));
    }

    method ReleaseSnapshot(h: nat)
      requires Valid() && h < |snapshots| && snapshots[h].Live?
      modifies this
      ensures Valid() && log == old(log) + [Release(h)]
    {
      snapshots := snapshots[h := Released];
      log := log + [Release(h)];
      LogGrows(old(log), Release(h));
    }

    /**
      * Get reads the map frozen when the active snapshot was taken, or the current map when none is set; a
      * lookup that RocksDB fails is returned as its error.
      */
    method Get(key: Bytes, fault: Option<Bytes>) returns (r: Reply)
      requires Valid()
      ensures r == if fault.Some? then Failed(fault.value) else Expected(log, key)
      ensures fault.None? && r != Undefined ==> ReadsAs(Changes(Seen(log)), key, r)
      ensures r == Undefined <==> fault.None? && Active(log).Some? && IsReleased(log, Active(log).value)
    {
      ReadAfterWrite(Seen(log), key);
      if fault.Some? { return Failed(fault.value); }
      match ropt {
        case None => r := Find(kv, key);
        case Some(h) =>
          match snapshots[h]
          case Live(frozen) => r := Find(frozen, key);
          case Released => r := Undefined;
      }
    }

    /** NewIterator makes its own read options, so it walks the current map whatever snapshot is set. */
    method NewIterator() returns (it: Iterator)
      requires Valid()
      ensures fresh(it) && it.Ok() && it.Walks() && it.kv == MapAfter(log)
      ensures forall key :: ReadsAs(Changes(log), key, Find(it.kv, key))
    {
      forall key ensures ReadsAs(Changes(log), key, Find(MapAfter(log), key)) { ReadAfterWrite(log, key); }
      it := new Iterator(kv);
    }
  }

  /** The batch applied update by update. */
  method Batched(kv: Kv, changes: seq<Change>) returns (after: Kv)
    ensures after == ApplyAll(kv, changes)
  {
    after := kv;
    for i := 0 to |changes|
      invariant after == ApplyAll(kv, changes[..i])
    {
      after := Apply(after, changes[i]);
      assert changes[..i + 1][..i] == changes[..i];
    }
    assert changes[..|changes|] == changes;
  }

  /** A longer history keeps the times of the earlier snapshots and the maps before them. */
  lemma LogGrows(log: seq<Op>, op: Op)
    ensures var log' := log + [op];
            && log'[..|log|] == log
            && SnapTimes(log) <= SnapTimes(log')
            && (forall h | 0 <= h < |SnapTimes(log)| :: log'[..SnapTimes(log)[h]] == log[..SnapTimes(log)[h]])
            && (forall h: nat :: IsReleased(log', h) <==> IsReleased(log, h) || op == Release(h))
  {
    assert (log + [op])[..|log|] == log;
  }
}
