/** The random-read benchmarks: five engines' read loops, and the tally they share. */
module ReadBench {
  import opened ByteOrder
  import opened KeyValue
  import opened CMemory
  import opened Slices
  import opened Buffers
  import opened Cursor
  import opened Wrappers
  import Populate
  import PopulateProof

  /** A lookup in a healthy store. */
  function Lookup(kv: Kv, key: Bytes): Outcome
  {
    if key in kv then Found(kv[key]) else Missing
  }

  datatype Verdict = CountFound | CountMissing | CountError | AssertFails

  /**
    * What each engine's loop makes of an answer. RocksDB's does not tell an empty value from none, Bolt's
    * does not tell an error from none, and only RocksDB's accepts a value of the wrong size.
    */
  function Classify(engine: Engine, vsz: nat, a: Outcome): Verdict
  {
    match a
    case Missing => CountMissing
    case Failed(_) => if engine.Bolt? then CountMissing else CountError
    case Found(value) =>
      if engine.Rocks? then if |value| > 0 then CountFound else CountMissing
      else if |value| == vsz then CountFound else AssertFails
  }

  function Verdicts(engine: Engine, vsz: nat, answers: seq<Outcome>): (vs: seq<Verdict>)
    ensures |vs| == |answers| && forall i | 0 <= i < |answers| :: vs[i] == Classify(engine, vsz, answers[i])
  {
    seq(|answers|, i requires 0 <= i < |answers| => Classify(engine, vsz, answers[i]))
  }

  datatype Tally = Tally(found: nat, notFound: nat, errored: nat) {
    function Sum(): nat { found + notFound + errored }

    function Count(v: Verdict): Tally
    {
      match v
      case CountFound => this.(found := found + 1)
      case CountMissing => this.(notFound := notFound + 1)
      case CountError => this.(errored := errored + 1)
      case AssertFails => this
    }
  }

  function TallyOf(vs: seq<Verdict>): Tally
  {
    if vs == [] then Tally(0, 0, 0) else TallyOf(vs[..|vs| - 1]).Count(vs[|vs| - 1])
  }

  /** Every iteration that does not fail is counted once. */
  lemma {:induction false} TallySum(vs: seq<Verdict>)
    requires AssertFails !in vs
    ensures TallyOf(vs).Sum() == |vs|
  {
    if vs != [] { TallySum(vs[..|vs| - 1]); }
  }

  class HitCounter {
    var found: nat
    var notFound: nat
    var errored: nat

    function Value(): Tally
      reads this
    {
      Tally(found, notFound, errored)
    }

    constructor ()
      ensures Value() == Tally(0, 0, 0)
    {
      found, notFound, errored := 0, 0, 0;
    }
  }

  function Empties(a: Outcome): nat { if IsEmptyHit(a) then 1 else 0 }

  /** What reading leaves on the heap: one live block per key found and some per empty value, or nothing at all. */
  ghost predicate LeftBehind(engine: Engine, h: Heap, h': Heap, found: nat, empties: nat)
  {
    && Preserves(h, h')
    && if engine.Rocks? then found <= |h'.blocks| - |h.blocks| <= found + empties else h' == h
  }

  lemma LeftBehindTrans(engine: Engine, h: Heap, h': Heap, h'': Heap, f: nat, f': nat, e: nat, e': nat)
    requires WellFormed(h) && WellFormed(h') && LeftBehind(engine, h, h', f, e) && LeftBehind(engine, h', h'', f', e')
    ensures LeftBehind(engine, h, h'', f + f', e + e')
  {
    PreservesTrans(h, h', h'');
  }

  lemma GetLeftBehind(h: Heap, h': Heap, a: Outcome, p: nat)
    requires Preserves(h, h')
    requires if a.Found? then IsValueBlock(h, h', p, a.value) else h'.blocks == h.blocks
    ensures LeftBehind(Rocks, h, h', if IsHit(a) && !IsEmptyHit(a) then 1 else 0, Empties(a))
  {}

  lemma NothingLeftBehind(engine: Engine, h: Heap, found: nat, empties: nat)
    requires WellFormed(h) && !engine.Rocks?
    ensures LeftBehind(engine, h, h, found, empties)
  {
    PreservesRefl(h);
  }

  // ----- one iteration of each engine's loop, in the order of its branches

  /** BenchmarkReadRandomBadger: `got` is what txn.Get answers and `copied` what ValueCopy does. */
  method ReadBadger(c: HitCounter, vsz: nat, got: Outcome, copied: Outcome) returns (failed: bool)
    modifies c
    ensures var v := Classify(Badger, vsz, if got.Found? then copied else got);
            c.Value() == old(c.Value()).Count(v) && (failed <==> v == AssertFails)
  {
    var err := got;
    if got.Found? {
      err := copied;
      if copied.Found? && |copied.value| != vsz { return true; }
    }
    failed := false;
    if err.Missing? {
      c.notFound := c.notFound + 1;
    } else if !err.Found? {
      c.errored := c.errored + 1;
    } else {
      c.found := c.found + 1;
    }
  }

  /** The size of the slice DB.Get answers, none for an error. */
  method GetSize(heap: CHeap, a: Outcome) returns (size: Option<nat>)
    requires heap.Valid()
    modifies heap
    ensures size == match a
                    case Found(value) => Some(|value|)
                    case Missing => Some(0)
                    case Failed(_) => None
    ensures heap.Valid()
    ensures LeftBehind(Rocks, old(heap.now), heap.now, if IsHit(a) && !IsEmptyHit(a) then 1 else 0, Empties(a))
  {
    var r := Get(heap, a);
    GetLeftBehind(old(heap.now), heap.now, a, if r.GotSlice? then r.slice.data else NULL);
    size := if r.GotSlice? then Some(r.slice.size) else None;
  }

  /** BenchmarkReadRandomRocks' branches: only the size of the slice tells a hit from a miss. */
  method CountSize(c: HitCounter, size: Option<nat>)
    modifies c
    ensures c.Value() == old(c.Value()).Count(
                           match size
                           case None => CountError
                           case Some(n) => if n > 0 then CountFound else CountMissing)
  {
    if size.None? {
      c.errored := c.errored + 1;
    } else if size.value > 0 {
      c.found := c.found + 1;
    } else {
      c.notFound := c.notFound + 1;
    }
  }

  /** BenchmarkReadRandomRocks: the slice is never freed, so the block it owns stays live. */
  method ReadRocks(c: HitCounter, heap: CHeap, vsz: nat, a: Outcome)
    requires heap.Valid()
    modifies c, heap
    ensures c.Value() == old(c.Value()).Count(Classify(Rocks, vsz, a))
    ensures c.found >= old(c.found)
    ensures heap.Valid() && LeftBehind(Rocks, old(heap.now), heap.now, c.found - old(c.found), Empties(a))
  {
    var size := GetSize(heap, a);
    CountSize(c, size);
  }

  /** BenchmarkReadRandomLevel. */
  method ReadLevel(c: HitCounter, vsz: nat, a: Outcome) returns (failed: bool)
    modifies c
    ensures var v := Classify(LevelDb, vsz, a);
            c.Value() == old(c.Value()).Count(v) && (failed <==> v == AssertFails)
  {
    failed := false;
    if a.Missing? {
      c.notFound := c.notFound + 1;
    } else if !a.Found? {
      c.errored := c.errored + 1;
    } else {
      if |a.value| != vsz { return true; }
      c.found := c.found + 1;
    }
  }

  /** Bolt's Bucket.Get has no error to return: nil is the only sign that there is no value. */
  function BoltGet(a: Outcome): Option<Bytes>
  {
    if a.Found? then Some(a.value) else None
  }

  /** BenchmarkReadRandomBolt. */
  method ReadBolt(c: HitCounter, vsz: nat, a: Outcome) returns (failed: bool)
    modifies c
    ensures var v := Classify(Bolt, vsz, a);
            c.Value() == old(c.Value()).Count(v) && (failed <==> v == AssertFails)
  {
    failed := false;
    var v := BoltGet(a);
    if v.None? {
      c.notFound := c.notFound + 1;
      return;
    }
    if |v.value| != vsz { return true; }
    c.found := c.found + 1;
  }

  /** BenchmarkReadRandomLmdb. */
  method ReadLmdb(c: HitCounter, vsz: nat, a: Outcome) returns (failed: bool)
    modifies c
    ensures var v := Classify(Lmdb, vsz, a);
            c.Value() == old(c.Value()).Count(v) && (failed <==> v == AssertFails)
  {
    failed := false;
    if a.Missing? {
      c.notFound := c.notFound + 1;
      return;
    } else if a.Failed? {
      c.errored := c.errored + 1;
      return;
    }
    if |a.value| != vsz { return true; }
    c.found := c.found + 1;
  }

  /** One iteration of the engine's own loop. In Badger's, either of its two calls may be the one that answers. */
  method ReadOne(engine: Engine, c: HitCounter, heap: CHeap, vsz: nat, a: Outcome) returns (failed: bool)
    requires heap.Valid()
    modifies c, heap
    ensures var v := Classify(engine, vsz, a);
            c.Value() == old(c.Value()).Count(v) && (failed <==> v == AssertFails)
    ensures engine.Rocks? ==> !failed
    ensures c.found >= old(c.found)
    ensures heap.Valid() && LeftBehind(engine, old(heap.now), heap.now, c.found - old(c.found), Empties(a))
  {
    match engine {
      case Rocks =>
        ReadRocks(c, heap, vsz, a);
        return false;
      case Badger =>
        var got: Outcome := *;
        if !got.Found? { got := a; }
        failed := ReadBadger(c, vsz, got, a);
      case LevelDb => failed := ReadLevel(c, vsz, a);
      case Bolt => failed := ReadBolt(c, vsz, a);
      case Lmdb => failed := ReadLmdb(c, vsz, a);
    }
    NothingLeftBehind(engine, heap.now, c.found - old(c.found), Empties(a));
  }

  /** Verdicts and numbers of empty values over one more answer. */
  lemma OneMore(engine: Engine, vsz: nat, answers: seq<Outcome>, i: nat)
    requires i < |answers|
    ensures TallyOf(Verdicts(engine, vsz, answers[..i + 1]))
         == TallyOf(Verdicts(engine, vsz, answers[..i])).Count(Classify(engine, vsz, answers[i]))
    ensures AssertFails in Verdicts(engine, vsz, answers[..i + 1])
       <==> AssertFails in Verdicts(engine, vsz, answers[..i]) || Classify(engine, vsz, answers[i]) == AssertFails
    ensures Classify(engine, vsz, answers[i]) == AssertFails ==> AssertFails in Verdicts(engine, vsz, answers)
    ensures Number(IsEmptyHit, answers[..i + 1]) == Number(IsEmptyHit, answers[..i]) + Empties(answers[i])
  {
    assert answers[..i + 1][..i] == answers[..i];
    var vs := Verdicts(engine, vsz, answers[..i + 1]);
    assert vs == Verdicts(engine, vsz, answers[..i]) + [Classify(engine, vsz, answers[i])];
    assert Verdicts(engine, vsz, answers)[i] == Classify(engine, vsz, answers[i]);
  }

  /**
    * One goroutine's read loop, over the answers its keys get: the tally, or a failed size assertion.
    * RocksDB's loop leaves a live block behind for every key it counts as found, and at most one more for
    * every empty value.
    */
  method ReadLoop(engine: Engine, heap: CHeap, vsz: nat, answers: seq<Outcome>) returns (c: HitCounter, failed: bool)
    requires heap.Valid()
    modifies heap
    ensures failed <==> AssertFails in Verdicts(engine, vsz, answers)
    ensures !failed ==> c.Value() == TallyOf(Verdicts(engine, vsz, answers)) && c.Value().Sum() == |answers|
    ensures heap.Valid() && Preserves(old(heap.now), heap.now)
    ensures !engine.Rocks? ==> heap.now == old(heap.now)
    ensures engine.Rocks? ==>
              c.found <= |heap.now.blocks| - |old(heap.now.blocks)| <= c.found + Number(IsEmptyHit, answers)
  {
    c := new HitCounter();
    failed := false;
    PreservesRefl(heap.now);
    for i := 0 to |answers|
      invariant fresh(c) && c.Value() == TallyOf(Verdicts(engine, vsz, answers[..i]))
      invariant AssertFails !in Verdicts(engine, vsz, answers[..i])
      invariant heap.Valid() && LeftBehind(engine, old(heap.now), heap.now, c.found, Number(IsEmptyHit, answers[..i]))
    {
      ghost var before, found := heap.now, c.found;
      failed := ReadOne(engine, c, heap, vsz, answers[i]);
      OneMore(engine, vsz, answers, i);
      LeftBehindTrans(engine, old(heap.now), before, heap.now, found, c.found - found,
                      Number(IsEmptyHit, answers[..i]), Empties(answers[i]));
      if failed { return; }
    }
    assert answers[..|answers|] == answers;
    TallySum(Verdicts(engine, vsz, answers));
  }

  // ----- the loops compared on one store

  function AnswersOf(kv: Kv, keys: seq<Bytes>): (r: seq<Outcome>)
    ensures |r| == |keys| && forall i | 0 <= i < |keys| :: r[i] == Lookup(kv, keys[i])
  {
    seq(|keys|, i requires 0 <= i < |keys| => Lookup(kv, keys[i]))
  }

  predicate SizesAre(kv: Kv, vsz: nat) { forall k | k in kv :: |kv[k]| == vsz }

  predicate IsHit(a: Outcome) { a.Found? }

  predicate IsEmptyHit(a: Outcome) { a.Found? && |a.value| == 0 }

  predicate IsMissing(a: Outcome) { a.Missing? }

  predicate IsFailed(a: Outcome) { a.Failed? }

  /** How many answers satisfy p. */
  function Number(p: Outcome -> bool, answers: seq<Outcome>): nat
  {
    if answers == [] then 0 else Number(p, answers[..|answers| - 1]) + if p(answers[|answers| - 1]) then 1 else 0
  }

  lemma {:induction false} NumberNone(p: Outcome -> bool, answers: seq<Outcome>)
    requires forall i | 0 <= i < |answers| :: !p(answers[i])
    ensures Number(p, answers) == 0
  {
    if answers != [] { NumberNone(p, answers[..|answers| - 1]); }
  }

  /**
    * What each loop's tally counts. RocksDB moves exactly the hits on stored empty values from found to
    * not found; Bolt has no errors to count.
    */
  function Meaning(engine: Engine, answers: seq<Outcome>): Tally
    requires Number(IsEmptyHit, answers) <= Number(IsHit, answers)
  {
    var hits, empty := Number(IsHit, answers), Number(IsEmptyHit, answers);
    var missing, failed := Number(IsMissing, answers), Number(IsFailed, answers);
    match engine
    case Rocks => Tally(hits - empty, missing + empty, failed)
    case Bolt => Tally(hits, missing + failed, 0)
    case _ => Tally(hits, missing, failed)
  }

  lemma {:induction false} EmptyHitsAreHits(answers: seq<Outcome>)
    ensures Number(IsEmptyHit, answers) <= Number(IsHit, answers)
  {
    if answers != [] { EmptyHitsAreHits(answers[..|answers| - 1]); }
  }

  /** Every loop that meets no failed assertion counts its answers as Meaning says, errors included. */
  lemma {:induction false} TallyMeaning(engine: Engine, vsz: nat, answers: seq<Outcome>)
    requires AssertFails !in Verdicts(engine, vsz, answers)
    ensures Number(IsEmptyHit, answers) <= Number(IsHit, answers)
    ensures TallyOf(Verdicts(engine, vsz, answers)) == Meaning(engine, answers)
  {
    EmptyHitsAreHits(answers);
    if answers != [] {
      var front := answers[..|answers| - 1];
      VerdictsFront(engine, vsz, answers);
      TallyMeaning(engine, vsz, front);
    }
  }

  lemma VerdictsFront(engine: Engine, vsz: nat, answers: seq<Outcome>)
    requires answers != [] && AssertFails !in Verdicts(engine, vsz, answers)
    ensures var front, last := answers[..|answers| - 1], answers[|answers| - 1];
            && TallyOf(Verdicts(engine, vsz, answers)) == TallyOf(Verdicts(engine, vsz, front)).Count(Classify(engine, vsz, last))
            && AssertFails !in Verdicts(engine, vsz, front) && Classify(engine, vsz, last) != AssertFails
  {
    var vs := Verdicts(engine, vsz, answers);
    assert vs[..|answers| - 1] == Verdicts(engine, vsz, answers[..|answers| - 1]);
    assert vs[|answers| - 1] in vs;
  }

  predicate Healthy(vsz: nat, a: Outcome) { a.Missing? || (a.Found? && |a.value| == vsz) }

  lemma HealthyNeverFails(engine: Engine, vsz: nat, answers: seq<Outcome>)
    requires forall i | 0 <= i < |answers| :: Healthy(vsz, answers[i])
    ensures AssertFails !in Verdicts(engine, vsz, answers)
  {}

  /** On a healthy store all five tallies are equal exactly when no lookup hits an empty value. */
  lemma AllFiveAgree(kv: Kv, vsz: nat, keys: seq<Bytes>)
    requires SizesAre(kv, vsz)
    ensures var answers := AnswersOf(kv, keys);
            (forall e: Engine :: TallyOf(Verdicts(e, vsz, answers)) == TallyOf(Verdicts(Badger, vsz, answers)))
            <==> Number(IsEmptyHit, answers) == 0
    ensures vsz > 0 ==> Number(IsEmptyHit, AnswersOf(kv, keys)) == 0
  {
    var answers := AnswersOf(kv, keys);
    NumberNone(IsFailed, answers);
    EmptyHitsAreHits(answers);
    forall e: Engine ensures TallyOf(Verdicts(e, vsz, answers)) == Meaning(e, answers) {
      HealthyNeverFails(e, vsz, answers);
      TallyMeaning(e, vsz, answers);
    }
    if vsz > 0 { NumberNone(IsEmptyHit, answers); }
    assert Meaning(Rocks, answers) == Meaning(Badger, answers) <==> Number(IsEmptyHit, answers) == 0;
  }

  /** A drawn key that a loop on a healthy store counts as found. */
  predicate Stored(engine: Engine, kv: Kv, key: Bytes)
  {
    key in kv && (engine.Rocks? ==> kv[key] != [])
  }

  lemma StoredSnoc(engine: Engine, kv: Kv, keys: seq<Bytes>, key: Bytes)
    ensures |set i | 0 <= i < |keys + [key]| && Stored(engine, kv, (keys + [key])[i])|
         == |set i | 0 <= i < |keys| && Stored(engine, kv, keys[i])| + if Stored(engine, kv, key) then 1 else 0
  {
    var before := set i | 0 <= i < |keys| && Stored(engine, kv, keys[i]);
    var after := set i | 0 <= i < |keys + [key]| && Stored(engine, kv, (keys + [key])[i]);
    assert |keys| !in before && after == before + if Stored(engine, kv, key) then {|keys|} else {};
  }

  lemma TallySnoc(engine: Engine, kv: Kv, vsz: nat, keys: seq<Bytes>, key: Bytes)
    requires SizesAre(kv, vsz)
    ensures var t := TallyOf(Verdicts(engine, vsz, AnswersOf(kv, keys)));
            TallyOf(Verdicts(engine, vsz, AnswersOf(kv, keys + [key])))
            == t.Count(if Stored(engine, kv, key) then CountFound else CountMissing)
  {
    var answers := AnswersOf(kv, keys + [key]);
    assert answers[..|keys|] == AnswersOf(kv, keys);
    HealthyNeverFails(engine, vsz, answers);
    VerdictsFront(engine, vsz, answers);
  }

  /**
    * A loop over a healthy store, in terms of the store alone: it counts as found the drawn keys that are
    * stored, RocksDB's those stored with a value that is not empty, as not found the others, and no errors.
    */
  lemma {:induction false} FoundAreStored(engine: Engine, kv: Kv, vsz: nat, keys: seq<Bytes>)
    requires SizesAre(kv, vsz)
    ensures var t := TallyOf(Verdicts(engine, vsz, AnswersOf(kv, keys)));
            && t.found == |set i | 0 <= i < |keys| && Stored(engine, kv, keys[i])|
            && t.found + t.notFound == |keys| && t.errored == 0
  {
    var hits := set i | 0 <= i < |keys| && Stored(engine, kv, keys[i]);
    if keys == [] {
      assert hits == {};
    } else {
      var front, last := keys[..|keys| - 1], keys[|keys| - 1];
      assert keys == front + [last];
      FoundAreStored(engine, kv, vsz, front);
      StoredSnoc(engine, kv, front, last);
      TallySnoc(engine, kv, vsz, front, last);
    }
  }

  /**
    * Writer to reader: after any interleaving of the populate program, a read or iterate benchmark run
    * with the same value size meets no value that fails its size assertion, whatever keys it draws, and
    * for nonempty values the five engines tally alike.
    */
  lemma ReadersNeverFail(c: Populate.Config, s: Populate.State, engine: Engine, keys: seq<Bytes>)
    requires c.Valid() && PopulateProof.Reachable(c, s)
    ensures AssertFails !in Verdicts(engine, c.vsz, AnswersOf(s.store, keys))
    ensures forall k | k in s.store :: SizeOk(Some(c.vsz), s.store[k])
    ensures c.vsz > 0 ==>
              TallyOf(Verdicts(engine, c.vsz, AnswersOf(s.store, keys)))
              == TallyOf(Verdicts(Badger, c.vsz, AnswersOf(s.store, keys)))
  {
    PopulateProof.StoredKeys(c, s);
    HealthyNeverFails(engine, c.vsz, AnswersOf(s.store, keys));
    AllFiveAgree(s.store, c.vsz, keys);
  }

  /** The same for the iterate benchmarks: after any populate run with their value size, no round can fail. */
  lemma IteratorsNeverFail(c: Populate.Config, s: Populate.State, keys: seq<Bytes>, limit: nat)
    requires c.Valid() && PopulateProof.Reachable(c, s) && Orders(keys, s.store.Keys)
    ensures !SizeFails(s.store, keys, limit, c.vsz)
  {
    PopulateProof.StoredKeys(c, s);
  }
}
