/** Batches and transactions that must have one effect: rw-bench's two writers, LMDB's two updates, Bolt's retries. */
module Batches {
  import opened KeyValue
  import opened Populate
  import opened Buffers
  import opened Cursor
  import opened Wrappers

  // ----- rw-bench

  /** createEntries: each entry is filled and copied into the RocksDB batch in turn. */
  method CreateEntries(es: seq<Entry>, vsz: nat, keySpace: int, rs: seq<Random>) returns (batch: seq<Pair>)
    requires Separate(es) && keySpace > 0 && |rs| == |es|
    requires forall i | 0 <= i < |es| :: |rs[i].noise| == es[i].value.Length
    modifies es, KeyArrays(es), ValueArrays(es)
    ensures Separate(es)
    ensures batch == PairsOf(vsz, DrawsOf(keySpace, rs)) && Holds(es, batch)
  {
    ghost var ps := PairsOf(vsz, DrawsOf(keySpace, rs));
    batch := [];
    for n := 0 to |es|
      invariant Separate(es) && batch == ps[..n]
      invariant forall i | 0 <= i < |es| :: es[i].key == old(es[i].key) || fresh(es[i].key)
      invariant Holds(es[..n], batch)
    {
      FillOne(es, n, vsz, keySpace, rs[n], batch);
      assert es[..n + 1][n] == es[n];
      batch := batch + [Pair(es[n].Key(), es[n].value[..])];
    }
    assert es[..|es|] == es;
  }

  method CountAll(kv: Kv) returns (count: nat)
    ensures count == |kv.Keys|
  {
    var it := new Iterator(kv);
    count := CountKeys(it);
  }

  /**
    * The two write-then-count passes over filled entries. The Badger transaction still refers to the
    * buffers while RocksDB writes its copies.
    */
  method WriteAndCount(es: seq<Entry>, batch: seq<Pair>)
    returns (rocks: Kv, badger: Kv, rocksCount: nat, badgerCount: nat)
    requires AllValid(es) && Holds(es, batch)
    ensures rocks == badger == PutAll(map[], batch)
    ensures rocksCount == badgerCount == |KeysOf(batch)|
  {
    PutAllKeys(map[], batch);
    var txn := SetAll(es, batch);
    rocks := PutAll(map[], batch);
    rocksCount := CountAll(rocks);
    badger := txn.Commit(map[]);
    badgerCount := CountAll(badger);
  }

  /**
    * rw-bench: the copied RocksDB batch and the Badger transaction leave the same map, duplicates
    * included, and both cursor loops count exactly the distinct keys drawn.
    */
  method RwBench(es: seq<Entry>, vsz: nat, keySpace: int, rs: seq<Random>)
    returns (rocks: Kv, badger: Kv, rocksCount: nat, badgerCount: nat)
    requires Separate(es) && keySpace > 0 && |rs| == |es|
    requires forall i | 0 <= i < |es| :: |rs[i].noise| == es[i].value.Length
    modifies es, KeyArrays(es), ValueArrays(es)
    ensures rocks == badger == PutAll(map[], PairsOf(vsz, DrawsOf(keySpace, rs)))
    ensures rocksCount == badgerCount == |KeysOf(PairsOf(vsz, DrawsOf(keySpace, rs)))|
  {
    var batch := CreateEntries(es, vsz, keySpace, rs);
    rocks, badger, rocksCount, badgerCount := WriteAndCount(es, batch);
  }

  // ----- LMDB

  /** The error code of the n-th Put of a transaction, if it fails. */
  type Faults = nat -> Option<int>

  /** `err` is the error of a failing Put with no failing Put before it. */
  ghost predicate FailsFirst(faults: Faults, n: nat, err: Option<int>)
  {
    err.Some? && exists i: nat :: i < n && faults(i) == err && forall j: nat | j < i :: faults(j) == None
  }

  /** The first failing Put among the first n. */
  function FirstFault(faults: Faults, n: nat): (r: Option<int>)
    ensures r == None <==> forall i: nat | i < n :: faults(i) == None
    ensures r.Some? ==> FailsFirst(faults, n, r)
  {
    if n == 0 then None else
    var earlier := FirstFault(faults, n - 1);
    if earlier.Some? then earlier else faults(n - 1)
  }

  /** writeEntries: put in order and stop at the first error. */
  method WriteEntries(txn: Kv, ps: seq<Pair>, faults: Faults) returns (after: Kv, err: Option<int>)
    ensures err == FirstFault(faults, |ps|)
    ensures err == None ==> after == PutAll(txn, ps)
  {
    after, err := txn, None;
    for i := 0 to |ps|
      invariant after == PutAll(txn, ps[..i]) && err == FirstFault(faults, i) == None
    {
      err := faults(i);
      if err.Some? {
        FaultStays(faults, i + 1, |ps|);
        return;
      }
      after := after[ps[i].key := ps[i].value];
      assert ps[..i + 1][..i] == ps[..i];
    }
    assert ps[..|ps|] == ps;
  }

  lemma {:induction false} FaultStays(faults: Faults, i: nat, n: nat)
    requires i <= n && FirstFault(faults, i).Some?
    ensures FirstFault(faults, n) == FirstFault(faults, i)
  {
    if i < n { FaultStays(faults, i, n - 1); }
  }

  class Env {
    var kv: Kv

    constructor (kv: Kv)
      ensures this.kv == kv
    {
      this.kv := kv;
    }

    /** writeSimpleBatched: env.Update around the puts; `commit` is the error of the final commit, if any. */
    method UpdateSimple(ps: seq<Pair>, faults: Faults, commit: Option<int>) returns (err: Option<int>)
      modifies this
      ensures err == None <==> commit == None && forall i: nat | i < |ps| :: faults(i) == None
      ensures kv == if err == None then PutAll(old(kv), ps) else old(kv)
      ensures err.Some? ==> err == commit || FailsFirst(faults, |ps|, err)
      ensures (exists i: nat :: i < |ps| && faults(i).Some?) ==> FailsFirst(faults, |ps|, err)
    {
      var working;
      working, err := WriteEntries(kv, ps, faults);
      if err == None { err := commit; }
      if err == None { kv := working; }
    }

    /** writeTxnBatched: the same puts in a sub-transaction of the update, which commits into its parent. */
    method UpdateNested(ps: seq<Pair>, faults: Faults, subCommit: Option<int>, commit: Option<int>)
      returns (err: Option<int>)
      modifies this
      ensures err == None <==> subCommit == None == commit && forall i: nat | i < |ps| :: faults(i) == None
      ensures kv == if err == None then PutAll(old(kv), ps) else old(kv)
      ensures err.Some? ==> err == (if subCommit.Some? then subCommit else commit) || FailsFirst(faults, |ps|, err)
      ensures (exists i: nat :: i < |ps| && faults(i).Some?) ==> FailsFirst(faults, |ps|, err)
    {
      var parent := kv;
      var child;
      child, err := WriteEntries(parent, ps, faults);
      if err == None { err := subCommit; }
      if err == None {
        parent := child;
        err := commit;
      }
      if err == None { kv := parent; }
    }
  }

  /**
    * For every entry list and every pattern of Put failures the two updates return the same error and
    * leave the same store, unless the sub-transaction's own commit is what fails.
    */
  method UpdatesAgree(kv: Kv, ps: seq<Pair>, faults: Faults, subCommit: Option<int>, commit: Option<int>)
    returns (simple: (Kv, Option<int>), nested: (Kv, Option<int>))
    ensures simple == nested
       <==> subCommit == None || subCommit == commit || exists i: nat :: i < |ps| && faults(i).Some?
    ensures simple.1 == None ==> simple.0 == PutAll(kv, ps)
    ensures nested.1 == None ==> nested.0 == PutAll(kv, ps)
  {
    var a := new Env(kv);
    var b := new Env(kv);
    var errA := a.UpdateSimple(ps, faults, commit);
    var errB := b.UpdateNested(ps, faults, subCommit, commit);
    simple, nested := (a.kv, errA), (b.kv, errB);
  }

  // ----- Bolt

  /** A closure of puts run n times in a row. */
  function Replay(kv: Kv, ps: seq<Pair>, n: nat): Kv
  {
    if n == 0 then kv else PutAll(Replay(kv, ps, n - 1), ps)
  }

  /** Bolt may call a batch's closure again: any positive number of calls has the effect of one. */
  lemma {:induction false} ReplayOnce(kv: Kv, ps: seq<Pair>, n: nat)
    requires n >= 1
    ensures Replay(kv, ps, n) == PutAll(kv, ps)
  {
    if n > 1 {
      ReplayOnce(kv, ps, n - 1);
      PutAllIsMerge(kv, ps);
      PutAllIsMerge(PutAll(kv, ps), ps);
    }
  }
}
