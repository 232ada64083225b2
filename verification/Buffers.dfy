/**
  * The buffers a populate worker reuses for every batch, and the transactions that hold references
  * to them until they commit.
  */
module Buffers {
  import opened ByteOrder
  import opened KeyCodec
  import opened KeyValue
  import opened Populate

  /** `key` is the backing array of the key slice, so its length is the slice's capacity. */
  class Entry {
    var key: array<Byte>
    var keyLen: nat
    const value: array<Byte>
    var meta: Byte

    ghost predicate Valid()
      reads this
    {
      keyLen <= key.Length && key != value
    }

    function Key(): Bytes
      requires Valid()
      reads this, key
    {
      key[..keyLen]
    }

    constructor (vsz: nat)
      ensures Valid() && fresh(key) && fresh(value)
      ensures key.Length == keyLen == KEY_LENGTH && value.Length == vsz
    {
      key := new Byte[KEY_LENGTH](_ => 0);
      keyLen := KEY_LENGTH;
      value := new Byte[vsz](_ => 0);
      meta := 0;
    }

    /** fillEntry: `r` is the outcome of rand.Int and `noise` that of rand.Read. */
    method Fill(vsz: nat, keySpace: int, r: nat, noise: Bytes)
      requires Valid() && keySpace > 0 && |noise| == value.Length
      modifies this, key, value
      ensures Valid() && (key == old(key) || fresh(key))
      ensures key.Length >= old(key.Length)
      ensures Key() == PrintKey(vsz, r % keySpace) && value[..] == noise && meta == 0
    {
      var text := PrintKey(vsz, r % keySpace);
      if key.Length < |text| {
        key := new Byte[2 * |text|](_ => 0);
      }
      keyLen := |text|;
      CopyInto(key, text);
      CopyInto(value, noise);
      meta := 0;
    }
  }

  /** Go's copy of a whole source into the front of a destination. */
  method CopyInto(dst: array<Byte>, src: Bytes)
    requires |src| <= dst.Length
    modifies dst
    ensures dst[..|src|] == src && dst[|src|..] == old(dst[|src|..])
  {
    for i := 0 to |src|
      invariant dst[..i] == src[..i]
      invariant forall j | i <= j < dst.Length :: dst[j] == old(dst[j])
    {
      dst[i] := src[i];
      assert dst[..i + 1] == dst[..i] + [src[i]];
    }
  }

  datatype Random = Random(r: nat, noise: Bytes)

  function DrawsOf(keySpace: int, rs: seq<Random>): (ds: seq<Draw>)
    requires keySpace > 0
    ensures |ds| == |rs| && forall i | 0 <= i < |rs| :: ds[i] == Draw(rs[i].r % keySpace, rs[i].noise)
  {
    seq(|rs|, i requires 0 <= i < |rs| => Draw(rs[i].r % keySpace, rs[i].noise))
  }

  ghost predicate AllValid(es: seq<Entry>)
    reads es
  {
    forall i | 0 <= i < |es| :: es[i].Valid()
  }

  /** No two entries share a key or a value array, and no key array is a value array. */
  ghost predicate Separate(es: seq<Entry>)
    reads es
  {
    && AllValid(es)
    && (forall i, j | 0 <= i < j < |es| :: es[i] != es[j])
    && (forall i, j {:trigger es[i].key, es[j].key} | 0 <= i < j < |es| :: es[i].key != es[j].key)
    && (forall i, j {:trigger es[i].value, es[j].value} | 0 <= i < j < |es| :: es[i].value != es[j].value)
    && (forall i, j {:trigger es[i].key, es[j].value} | 0 <= i < |es| && 0 <= j < |es| :: es[i].key != es[j].value)
  }

  ghost function KeyArrays(es: seq<Entry>): set<array<Byte>>
    reads es
  {
    set e | e in es :: e.key
  }

  ghost function ValueArrays(es: seq<Entry>): set<array<Byte>>
  {
    set e | e in es :: e.value
  }

  /** The bytes the entries hold now, entry by entry. */
  ghost predicate Holds(es: seq<Entry>, ps: seq<Pair>)
    requires AllValid(es)
    reads es, KeyArrays(es), ValueArrays(es)
  {
    |ps| == |es| && forall i | 0 <= i < |es| :: es[i].Key() == ps[i].key && es[i].value[..] == ps[i].value
  }

  /** Filling one entry leaves the bytes and the buffers of every other entry alone. */
  method FillOne(es: seq<Entry>, n: nat, vsz: nat, keySpace: int, x: Random, ghost ps: seq<Pair>)
    requires n < |es| && Separate(es) && Holds(es[..n], ps)
    requires keySpace > 0 && |x.noise| == es[n].value.Length
    modifies es[n], es[n].key, es[n].value
    ensures Separate(es) && (es[n].key == old(es[n].key) || fresh(es[n].key))
    ensures es[n].key.Length >= old(es[n].key.Length)
    ensures forall i | 0 <= i < |es| && i != n :: es[i].key == old(es[i].key)
    ensures Holds(es[..n + 1], ps + [Pair(PrintKey(vsz, x.r % keySpace), x.noise)])
  {
    es[n].Fill(vsz, keySpace, x.r, x.noise);
    ghost var qs := ps + [Pair(PrintKey(vsz, x.r % keySpace), x.noise)];
    forall i | 0 <= i < n + 1 ensures es[..n + 1][i].Key() == qs[i].key && es[..n + 1][i].value[..] == qs[i].value {
      if i < n {
        assert es[..n][i] == es[i];
        assert es[i].key != old(es[n].key) && es[i].key != es[n].value;
        assert es[i].value != old(es[n].key) && es[i].value != es[n].value;
      }
    }
  }

  method FillAll(es: seq<Entry>, vsz: nat, keySpace: int, rs: seq<Random>)
    requires Separate(es) && keySpace > 0 && |rs| == |es|
    requires forall i | 0 <= i < |es| :: |rs[i].noise| == es[i].value.Length
    modifies es, KeyArrays(es), ValueArrays(es)
    ensures Separate(es)
    ensures forall i | 0 <= i < |es| :: es[i].key == old(es[i].key) || fresh(es[i].key)
    ensures forall i | 0 <= i < |es| :: es[i].key.Length >= old(es[i].key.Length)
    ensures Holds(es, PairsOf(vsz, DrawsOf(keySpace, rs)))
  {
    ghost var ps := PairsOf(vsz, DrawsOf(keySpace, rs));
    for n := 0 to |es|
      invariant Separate(es)
      invariant forall i | 0 <= i < |es| :: es[i].key == old(es[i].key) || fresh(es[i].key)
      invariant forall i | 0 <= i < |es| :: es[i].key.Length >= old(es[i].key.Length)
      invariant Holds(es[..n], ps[..n])
    {
      FillOne(es, n, vsz, keySpace, rs[n], ps[..n]);
      assert ps[..n + 1] == ps[..n] + [ps[n]];
    }
    assert es[..|es|] == es && ps[..|es|] == ps;
  }

  /** The slices a Badger transaction was given: it keeps the arrays, not their bytes. */
  datatype Ref = Ref(key: array<Byte>, len: nat, value: array<Byte>)

  class Txn {
    var pending: seq<Ref>
    /** The bytes each slice held when it was set. */
    ghost var atSet: seq<Pair>

    ghost predicate Valid()
      reads this
    {
      |pending| == |atSet| && forall i | 0 <= i < |pending| :: pending[i].len <= pending[i].key.Length
    }

    ghost function Arrays(): set<array<Byte>>
      reads this
    {
      (set r | r in pending :: r.key) + (set r | r in pending :: r.value)
    }

    /** The referenced arrays still hold the bytes they held when they were set. */
    ghost predicate Intact()
      requires Valid()
      reads this, Arrays()
    {
      forall i | 0 <= i < |pending| ::
        pending[i].key[..pending[i].len] == atSet[i].key && pending[i].value[..] == atSet[i].value
    }

    constructor ()
      ensures Valid() && Intact() && atSet == []
    {
      pending := [];
      atSet := [];
    }

    method Set(e: Entry)
      requires Valid() && Intact() && e.Valid()
      modifies this
      ensures Valid() && Intact()
      ensures atSet == old(atSet) + [Pair(e.Key(), e.value[..])]
    {
      pending := pending + [Ref(e.key, e.keyLen, e.value)];
      atSet := atSet + [Pair(e.Key(), e.value[..])];
    }

    /**
      * Commit reads the bytes through the references into one map of pending writes, and so writes the
      * bytes of Set time if they are intact.
      */
    method Commit(store: Kv) returns (after: Kv)
      requires Valid() && Intact()
      ensures after == PutAll(store, atSet)
    {
      var net: Kv := map[];
      for i := 0 to |pending|
        invariant net == PutAll(map[], atSet[..i])
      {
        var r := pending[i];
        net := net[r.key[..r.len] := r.value[..]];
        assert atSet[..i + 1][..i] == atSet[..i];
      }
      assert atSet[..|pending|] == atSet;
      PutAllIsMerge(store, atSet);
      after := store + net;
    }
  }

  datatype Engine = Badger | LevelDb | Rocks | Bolt | Lmdb

  method SetAll(es: seq<Entry>, ghost ps: seq<Pair>) returns (txn: Txn)
    requires AllValid(es) && Holds(es, ps)
    ensures fresh(txn) && txn.Valid() && txn.Intact() && txn.atSet == ps
  {
    txn := new Txn();
    for i := 0 to |es|
      invariant txn.Valid() && txn.Intact() && txn.atSet == ps[..i]
    {
      txn.Set(es[i]);
      assert ps[..i + 1] == ps[..i] + [ps[i]];
    }
    assert ps[..|es|] == ps;
  }

  /** A write batch copies the bytes it is given. */
  method CopyAll(es: seq<Entry>, ghost ps: seq<Pair>) returns (batch: seq<Pair>)
    requires AllValid(es) && Holds(es, ps)
    ensures batch == ps
  {
    batch := [];
    for i := 0 to |es|
      invariant batch == ps[..i]
    {
      batch := batch + [Pair(es[i].Key(), es[i].value[..])];
    }
  }

  /** Bolt and LMDB put entry by entry into the transaction's working copy. */
  method PutEach(es: seq<Entry>, store: Kv, ghost ps: seq<Pair>) returns (after: Kv)
    requires AllValid(es) && Holds(es, ps)
    ensures after == PutAll(store, ps)
  {
    after := store;
    for i := 0 to |es|
      invariant after == PutAll(store, ps[..i])
    {
      after := after[es[i].Key() := es[i].value[..]];
      assert ps[..i + 1][..i] == ps[..i];
    }
    assert ps[..|es|] == ps;
  }

  /** The write half of writeBatch, through any of the five engines. */
  method CommitBatch(es: seq<Entry>, engine: Engine, store: Kv, ghost ps: seq<Pair>) returns (after: Kv)
    requires AllValid(es) && Holds(es, ps)
    ensures after == PutAll(store, ps)
  {
    match engine {
      case Badger =>
        var txn := SetAll(es, ps);
        after := txn.Commit(store);
      case LevelDb | Rocks =>
        var batch := CopyAll(es, ps);
        after := PutAll(store, batch);
      case Bolt | Lmdb =>
        after := PutEach(es, store, ps);
    }
  }

  /**
    * writeBatch: refill the buffers and write them. Reuse of the buffers is invisible: the store
    * receives exactly the pairs just drawn, in order, whichever engine writes them.
    */
  method WriteBatch(es: seq<Entry>, vsz: nat, keySpace: int, rs: seq<Random>, engine: Engine, store: Kv)
    returns (wrote: nat, after: Kv)
    requires Separate(es) && keySpace > 0 && |rs| == |es|
    requires forall i | 0 <= i < |es| :: |rs[i].noise| == es[i].value.Length
    modifies es, KeyArrays(es), ValueArrays(es)
    ensures Separate(es)
    ensures forall i | 0 <= i < |es| :: es[i].key == old(es[i].key) || fresh(es[i].key)
    ensures forall i | 0 <= i < |es| :: es[i].key.Length >= old(es[i].key.Length)
    ensures after == PutAll(store, PairsOf(vsz, DrawsOf(keySpace, rs)))
    ensures wrote == |es|
  {
    FillAll(es, vsz, keySpace, rs);
    after := CommitBatch(es, engine, store, PairsOf(vsz, DrawsOf(keySpace, rs)));
    wrote := |es|;
  }

  method NewEntries(count: nat, vsz: nat) returns (es: seq<Entry>)
    ensures |es| == count && Separate(es) && fresh(es)
    ensures forall i | 0 <= i < |es| :: fresh(es[i].key) && fresh(es[i].value) && es[i].value.Length == vsz
  {
    es := [];
    for n := 0 to count
      invariant |es| == n && Separate(es) && fresh(es)
      invariant forall i | 0 <= i < |es| :: fresh(es[i].key) && fresh(es[i].value) && es[i].value.Length == vsz
    {
      var e := new Entry(vsz);
      es := es + [e];
    }
  }

  /** All the pairs of the first `rounds` batches, in order. */
  ghost function AllPairs(vsz: nat, keySpace: int, random: nat -> seq<Random>, rounds: nat): seq<Pair>
    requires keySpace > 0
  {
    if rounds == 0 then [] else
    AllPairs(vsz, keySpace, random, rounds - 1) + PairsOf(vsz, DrawsOf(keySpace, random(rounds - 1)))
  }

  /** Buffers for batches of `count` values of size `vsz`. */
  ghost predicate BuffersFor(count: nat, vsz: nat, es: seq<Entry>)
    reads es
  {
    |es| == count && Separate(es) && forall i | 0 <= i < |es| :: es[i].value.Length == vsz
  }

  ghost predicate GoodRound(count: nat, vsz: nat, rs: seq<Random>)
  {
    |rs| == count && forall i | 0 <= i < |rs| :: |rs[i].noise| == vsz
  }

  /** What one round draws is a batch the populate protocol allows. */
  lemma RoundIsGoodBatch(c: Config, rs: seq<Random>)
    requires c.KeySpace() > 0 && GoodRound(c.batch, c.vsz, rs)
    ensures GoodBatch(c, DrawsOf(c.KeySpace(), rs))
  {}

  /** The random draws of every round have the shape rand.Read gives them. */
  ghost predicate GoodSource(count: nat, vsz: nat, random: nat -> seq<Random>)
  {
    forall r: nat :: GoodRound(count, vsz, random(r))
  }

  /** `stores(r)` is the store after r rounds: each round puts its own pairs into the one before. */
  ghost predicate Follows(stores: nat -> Kv, vsz: nat, keySpace: int, random: nat -> seq<Random>)
    requires keySpace > 0
  {
    forall r: nat :: stores(r + 1) == PutAll(stores(r), PairsOf(vsz, DrawsOf(keySpace, random(r))))
  }

  /** One turn of the worker's loop takes the store one round further. */
  method RunRound(es: seq<Entry>, vsz: nat, keySpace: int, random: nat -> seq<Random>, round: nat, engine: Engine,
                  store: Kv, ghost stores: nat -> Kv) returns (wrote: nat, after: Kv)
    requires keySpace > 0 && BuffersFor(|es|, vsz, es) && GoodRound(|es|, vsz, random(round))
    requires Follows(stores, vsz, keySpace, random) && store == stores(round)
    modifies es, KeyArrays(es), ValueArrays(es)
    ensures BuffersFor(|es|, vsz, es) && wrote == |es|
    ensures forall i | 0 <= i < |es| :: es[i].key == old(es[i].key) || fresh(es[i].key)
    ensures after == stores(round + 1)
  {
    wrote, after := WriteBatch(es, vsz, keySpace, random(round), engine, store);
  }

  /** The test of the worker's loop, in whole rounds. */
  function TestLoop(c: Config, written: nat, ghost rounds: nat, ghost limit: nat): (again: bool)
    requires c.Valid() && written == rounds * c.batch && limit == c.Rounds()
    ensures again <==> rounds < limit
  {
    LoopTestRounds(c, Worker(AtTest, rounds, written));
    written as real < c.keys / c.workers as real
  }

  /** The worker's loop over one set of buffers. */
  method RunLoop(c: Config, es: seq<Entry>, keySpace: int, random: nat -> seq<Random>, engine: Engine, store: Kv,
                 ghost limit: nat, ghost stores: nat -> Kv) returns (written: nat, after: Kv)
    requires c.Valid() && limit == c.Rounds() && keySpace > 0
    requires BuffersFor(c.batch, c.vsz, es) && GoodSource(c.batch, c.vsz, random)
    requires Follows(stores, c.vsz, keySpace, random) && store == stores(0)
    modifies es, KeyArrays(es), ValueArrays(es)
    ensures written == limit * c.batch && after == stores(limit)
  {
    var rounds: nat := 0;
    written, after := 0, store;
    var again := TestLoop(c, written, rounds, limit);
    while again
      invariant BuffersFor(c.batch, c.vsz, es)
      invariant forall i | 0 <= i < |es| :: es[i].key == old(es[i].key) || fresh(es[i].key)
      invariant rounds <= limit && (again <==> rounds < limit)
      invariant written == rounds * c.batch && after == stores(rounds)
      decreases limit - rounds
    {
      var wrote;
      wrote, after := RunRound(es, c.vsz, keySpace, random, rounds, engine, after, stores);
      NextMultiple(rounds, c.batch);
      written := written + wrote;
      rounds := rounds + 1;
      again := TestLoop(c, written, rounds, limit);
    }
  }

  lemma AllPairsFollow(store: Kv, vsz: nat, keySpace: int, random: nat -> seq<Random>)
    requires keySpace > 0
    ensures Follows((r: nat) => PutAll(store, AllPairs(vsz, keySpace, random, r)), vsz, keySpace, random)
  {
    forall r: nat
      ensures PutAll(store, AllPairs(vsz, keySpace, random, r + 1))
           == PutAll(PutAll(store, AllPairs(vsz, keySpace, random, r)), PairsOf(vsz, DrawsOf(keySpace, random(r))))
    {
      PutAllConcat(store, AllPairs(vsz, keySpace, random, r), PairsOf(vsz, DrawsOf(keySpace, random(r))));
    }
  }

  lemma NextMultiple(r: nat, b: nat)
    ensures (r + 1) * b == r * b + b
  {}

  /**
    * The body of one worker: fresh buffers, then batches through the same buffers until its share is
    * written. It stops after exactly ceil(nw/(N*B)) batches, none when nw <= 0, and the store has met
    * every pair drawn.
    */
  method RunWorker(c: Config, random: nat -> seq<Random>, engine: Engine, store: Kv)
    returns (written: nat, after: Kv)
    requires c.Valid() && !(0.0 < c.keys < 1.0) && GoodSource(c.batch, c.vsz, random)
    ensures written == c.Rounds() * c.batch
    ensures c.keys > 0.0 ==> after == PutAll(store, AllPairs(c.vsz, c.keys.Floor, random, c.Rounds()))
    ensures c.keys <= 0.0 ==> written == 0 && after == store
  {
    var es := NewEntries(c.batch, c.vsz);
    // with nothing to write, the loop draws no key and its key space does not matter
    var keySpace := if c.keys > 0.0 then c.KeySpace() else 1;
    AllPairsFollow(store, c.vsz, keySpace, random);
    ghost var stores := (r: nat) => PutAll(store, AllPairs(c.vsz, keySpace, random, r));
    written, after := RunLoop(c, es, keySpace, random, engine, store, c.Rounds(), stores);
  }
}
