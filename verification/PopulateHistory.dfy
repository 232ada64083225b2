/**
  * What the store holds in terms of what was committed, in every interleaving: the batches in commit
  * order, and each worker's own batches in the order it drew them.
  */
module PopulateHistory {
  import opened ByteOrder
  import opened KeyValue
  import opened Populate
  import opened PopulateProof
  import opened PopulateProgress
  import opened Buffers

  /** A batch that worker w committed. */
  datatype Record = Record(w: nat, batch: seq<Draw>)

  ghost function LogStep(c: Config, s: State, step: Step): seq<Record>
    requires c.Valid() && Enabled(c, s, step)
  {
    if step.Commit? then [Record(step.w, s.workers[step.w].phase.batch)] else []
  }

  /** The commits of a run, in the order they take effect. */
  ghost function Log(c: Config, s: State, steps: seq<Step>): seq<Record>
    requires c.Valid() && CanRun(c, s, steps)
    decreases |steps|
  {
    if steps == [] then [] else LogStep(c, s, steps[0]) + Log(c, Do(c, s, steps[0]), steps[1..])
  }

  /** All the pairs of a list of commits. */
  function History(vsz: nat, log: seq<Record>): seq<Pair>
  {
    if log == [] then [] else PairsOf(vsz, log[0].batch) + History(vsz, log[1..])
  }

  /** The commits of one worker. */
  function Only(log: seq<Record>, w: nat): seq<Record>
  {
    if log == [] then []
    else if log[0].w == w then [log[0]] + Only(log[1..], w)
    else Only(log[1..], w)
  }

  // ----- the store is the history

  lemma StepIsHistory(c: Config, s: State, step: Step)
    requires c.Valid() && Enabled(c, s, step)
    ensures var ps := History(c.vsz, LogStep(c, s, step));
            Do(c, s, step).store == PutAll(s.store, ps) && Do(c, s, step).committed == s.committed + |ps|
  {
    if step.Commit? {
      var ps := PairsOf(c.vsz, s.workers[step.w].phase.batch);
      assert History(c.vsz, LogStep(c, s, step)) == ps + [] == ps;
    }
  }

  lemma {:induction false} HistoryConcat(vsz: nat, a: seq<Record>, b: seq<Record>)
    ensures History(vsz, a + b) == History(vsz, a) + History(vsz, b)
  {
    if a == [] {
      assert a + b == b;
    } else {
      assert (a + b)[1..] == a[1..] + b;
      HistoryConcat(vsz, a[1..], b);
    }
  }

  /** In every run the store is the committed pairs put in commit order, and nothing else. */
  lemma {:induction false} StoreIsHistory(c: Config, s: State, steps: seq<Step>)
    requires c.Valid() && CanRun(c, s, steps)
    ensures var ps := History(c.vsz, Log(c, s, steps));
            && Run(c, s, steps).store == PutAll(s.store, ps)
            && Run(c, s, steps).committed == s.committed + |ps|
    decreases |steps|
  {
    if steps != [] {
      var s', rest := Do(c, s, steps[0]), steps[1..];
      var now, later := LogStep(c, s, steps[0]), Log(c, s', rest);
      StepIsHistory(c, s, steps[0]);
      StoreIsHistory(c, s', rest);
      HistoryConcat(c.vsz, now, later);
      PutAllConcat(s.store, History(c.vsz, now), History(c.vsz, later));
    }
  }

  // ----- each worker commits its own batches, in order

  /** The numbers a key is drawn from; with none to draw no batch is filled, and this does not matter. */
  function Space(c: Config): (n: int)
    ensures n > 0 && (c.keys >= 1.0 ==> n as real <= c.keys < n as real + 1.0)
  {
    if c.KeySpace() > 0 then c.KeySpace() else 1
  }

  /** What worker w draws in its rounds: `random(w)(r)` comes from the random source in round r. */
  type Sources = nat -> nat -> seq<Random>

  /** Every batch filled in the run is what its worker's source gives in that round. */
  ghost predicate Sourced(c: Config, s: State, steps: seq<Step>, random: Sources)
    requires c.Valid() && CanRun(c, s, steps)
    decreases |steps|
  {
    steps == [] ||
    (DrawnFrom(c, s, steps[0], random) && Sourced(c, Do(c, s, steps[0]), steps[1..], random))
  }

  ghost predicate DrawnFrom(c: Config, s: State, step: Step, random: Sources)
    requires c.Valid() && Enabled(c, s, step)
  {
    step.Fill? ==> step.batch == DrawsOf(Space(c), random(step.w)(s.workers[step.w].rounds))
  }

  /** A filled batch not yet committed is the one its round drew. */
  ghost predicate PendingOk(c: Config, w: nat, x: Worker, random: Sources)
  {
    x.phase.Filled? ==> x.phase.batch == DrawsOf(Space(c), random(w)(x.rounds))
  }

  /** How many batches a worker has committed. */
  function Done(x: Worker): nat
  {
    x.rounds + if x.phase.Committed? || x.phase.Counted? then 1 else 0
  }

  /** What worker w has committed after `rounds` commits. */
  ghost function Share(c: Config, random: Sources, w: nat, rounds: nat): seq<Pair>
  {
    AllPairs(c.vsz, Space(c), random(w), rounds)
  }

  /** Between two states worker w commits `own`: the next batches of its sequence. */
  ghost predicate CarriesOn(c: Config, random: Sources, w: nat, x: Worker, x': Worker, own: seq<Pair>)
  {
    PendingOk(c, w, x', random) && Share(c, random, w, Done(x')) == Share(c, random, w, Done(x)) + own
  }

  lemma CarriesOnTrans(c: Config, random: Sources, w: nat, x: Worker, x': Worker, x'': Worker, a: seq<Pair>, b: seq<Pair>)
    requires CarriesOn(c, random, w, x, x', a) && CarriesOn(c, random, w, x', x'', b)
    ensures CarriesOn(c, random, w, x, x'', a + b)
  {}

  lemma CommitCarriesOn(c: Config, random: Sources, w: nat, x: Worker)
    requires x.phase.Filled? && PendingOk(c, w, x, random)
    ensures CarriesOn(c, random, w, x, x.(phase := Committed), PairsOf(c.vsz, x.phase.batch))
  {}

  lemma IdleCarriesOn(c: Config, random: Sources, w: nat, x: Worker, x': Worker)
    requires Done(x') == Done(x) && PendingOk(c, w, x', random)
    ensures CarriesOn(c, random, w, x, x', [])
  {}

  lemma OwnLogStep(c: Config, s: State, step: Step, w: nat)
    requires c.Valid() && Enabled(c, s, step)
    ensures History(c.vsz, Only(LogStep(c, s, step), w))
         == if step == Commit(w) then PairsOf(c.vsz, s.workers[w].phase.batch) else []
  {
    if step == Commit(w) {
      var r := Record(w, s.workers[w].phase.batch);
      assert Only([r], w) == [r] + Only([], w) == [r];
      assert History(c.vsz, [r]) == PairsOf(c.vsz, r.batch) + [];
    }
  }

  /** Main starts only workers that have not started. */
  lemma SpawnsNew(c: Config, s: State)
    requires c.Valid() && Inv(c, s) && Enabled(c, s, Spawn)
    ensures s.workers[s.main.i].phase.NotStarted?
  {}

  /** What one step of anyone does to worker w. */
  lemma StepKeepsDone(c: Config, s: State, step: Step, random: Sources, w: nat)
    requires c.Valid() && Enabled(c, s, step) && DrawnFrom(c, s, step, random) && step != Commit(w)
    requires step.Spawn? ==> s.workers[s.main.i].phase.NotStarted?
    requires w < |s.workers| && PendingOk(c, w, s.workers[w], random)
    ensures var s' := Do(c, s, step);
            |s'.workers| == |s.workers| && Done(s'.workers[w]) == Done(s.workers[w]) && PendingOk(c, w, s'.workers[w], random)
  {}

  lemma StepIsOwn(c: Config, s: State, step: Step, random: Sources, w: nat)
    requires c.Valid() && Enabled(c, s, step) && DrawnFrom(c, s, step, random)
    requires step.Spawn? ==> s.workers[s.main.i].phase.NotStarted?
    requires w < |s.workers| && PendingOk(c, w, s.workers[w], random)
    ensures var s' := Do(c, s, step);
            && |s'.workers| == |s.workers|
            && CarriesOn(c, random, w, s.workers[w], s'.workers[w], History(c.vsz, Only(LogStep(c, s, step), w)))
  {
    OwnLogStep(c, s, step, w);
    if step == Commit(w) {
      CommitCarriesOn(c, random, w, s.workers[w]);
    } else {
      StepKeepsDone(c, s, step, random, w);
      IdleCarriesOn(c, random, w, s.workers[w], Do(c, s, step).workers[w]);
    }
  }

  lemma {:induction false} OnlyConcat(a: seq<Record>, b: seq<Record>, w: nat)
    ensures Only(a + b, w) == Only(a, w) + Only(b, w)
  {
    if a == [] {
      assert a + b == b;
    } else {
      assert (a + b)[1..] == a[1..] + b;
      OnlyConcat(a[1..], b, w);
    }
  }

  lemma OwnLogConcat(vsz: nat, a: seq<Record>, b: seq<Record>, w: nat)
    ensures History(vsz, Only(a + b, w)) == History(vsz, Only(a, w)) + History(vsz, Only(b, w))
  {
    OnlyConcat(a, b, w);
    HistoryConcat(vsz, Only(a, w), Only(b, w));
  }

  /** In every run a worker's commits carry on its own sequence of batches where it stood. */
  lemma {:induction false} OwnCommitsInOrder(c: Config, s: State, steps: seq<Step>, random: Sources, w: nat)
    requires c.Valid() && Inv(c, s) && CanRun(c, s, steps) && Sourced(c, s, steps, random)
    requires w < |s.workers| && PendingOk(c, w, s.workers[w], random)
    ensures var end := Run(c, s, steps);
            && |end.workers| == |s.workers|
            && CarriesOn(c, random, w, s.workers[w], end.workers[w], History(c.vsz, Only(Log(c, s, steps), w)))
    decreases |steps|
  {
    if steps == [] {
      IdleCarriesOn(c, random, w, s.workers[w], s.workers[w]);
    } else {
      var s', rest := Do(c, s, steps[0]), steps[1..];
      var now, later := LogStep(c, s, steps[0]), Log(c, s', rest);
      if steps[0].Spawn? { SpawnsNew(c, s); }
      StepIsOwn(c, s, steps[0], random, w);
      StepInv(c, s, steps[0]);
      OwnCommitsInOrder(c, s', rest, random, w);
      OwnLogConcat(c.vsz, now, later, w);
      CarriesOnTrans(c, random, w, s.workers[w], s'.workers[w], Run(c, s', rest).workers[w],
                     History(c.vsz, Only(now, w)), History(c.vsz, Only(later, w)));
    }
  }

  /**
    * From the start of the program, in every interleaving and at every moment: worker w's commits are
    * exactly its first Done batches in the order it drew them, and all ceil(nw/(N*B)) of them once main
    * is past Wait.
    */
  lemma WorkerHistory(c: Config, steps: seq<Step>, random: Sources, w: nat)
    requires c.Valid() && CanRun(c, Init(c), steps) && Sourced(c, Init(c), steps, random) && w < c.workers
    ensures var end, own := Run(c, Init(c), steps), History(c.vsz, Only(Log(c, Init(c), steps), w));
            && w < |end.workers| && own == Share(c, random, w, Done(end.workers[w]))
            && (PastWait(end) ==> own == Share(c, random, w, c.Rounds()))
  {
    InitInv(c);
    OwnCommitsInOrder(c, Init(c), steps, random, w);
    RunInv(c, Init(c), steps);
    ExitedHasDoneAll(c, Run(c, Init(c), steps), w);
  }

  lemma ExitedHasDoneAll(c: Config, s: State, w: nat)
    requires c.Valid() && Inv(c, s) && w < |s.workers|
    ensures PastWait(s) ==> Done(s.workers[w]) == c.Rounds()
  {
    assert WorkerOk(c, s.workers[w]);
  }

  // ----- what the schedule can change

  function Effect(vsz: nat, log: seq<Record>): Kv
  {
    PutAll(map[], History(vsz, log))
  }

  lemma EffectCons(vsz: nat, r: Record, rest: seq<Record>)
    ensures Effect(vsz, [r] + rest) == PutAll(map[], PairsOf(vsz, r.batch)) + Effect(vsz, rest)
  {
    var ps, later := PairsOf(vsz, r.batch), History(vsz, rest);
    assert ([r] + rest)[1..] == rest;
    PutAllConcat(map[], ps, later);
    PutAllIsMerge(PutAll(map[], ps), later);
  }

  /** Every key a worker commits is stored. */
  lemma {:induction false} OwnKeysStored(vsz: nat, log: seq<Record>, w: nat)
    ensures Effect(vsz, Only(log, w)).Keys <= Effect(vsz, log).Keys
  {
    if log != [] {
      var rest := log[1..];
      assert log == [log[0]] + rest;
      OwnKeysStored(vsz, rest, w);
      EffectCons(vsz, log[0], rest);
      if log[0].w == w { EffectCons(vsz, log[0], Only(rest, w)); }
    }
  }

  /** Every stored value is the last one some worker, taken alone, puts under its key. */
  lemma {:induction false} StoredIsOwn(vsz: nat, log: seq<Record>, key: Bytes) returns (w: nat)
    requires key in Effect(vsz, log)
    ensures exists r :: r in log && r.w == w
    ensures key in Effect(vsz, Only(log, w)) && Effect(vsz, log)[key] == Effect(vsz, Only(log, w))[key]
  {
    var r, rest := log[0], log[1..];
    assert log == [r] + rest;
    EffectCons(vsz, r, rest);
    if key in Effect(vsz, rest) {
      w := StoredIsOwn(vsz, rest, key);
    } else {
      w := r.w;
      OwnKeysStored(vsz, rest, w);
    }
    if r.w == w { EffectCons(vsz, r, Only(rest, w)); }
  }

  lemma {:induction false} LogOfWorkers(c: Config, s: State, steps: seq<Step>)
    requires c.Valid() && Inv(c, s) && CanRun(c, s, steps)
    ensures forall r | r in Log(c, s, steps) :: r.w < c.workers
    decreases |steps|
  {
    if steps != [] {
      StepInv(c, s, steps[0]);
      LogOfWorkers(c, Do(c, s, steps[0]), steps[1..]);
    }
  }

  /** The store worker w would leave on its own, as the code over buffers computes it. */
  ghost function Solo(c: Config, random: Sources, w: nat): Kv
    requires c.Valid()
  {
    PutAll(map[], Share(c, random, w, c.Rounds()))
  }

  /**
    * What the interleaving decides, and all it decides: once main is past Wait the stored keys are those
    * of the workers' solo stores together, and each value is the one some worker's solo store has.
    */
  lemma EveryInterleaving(c: Config, steps: seq<Step>, random: Sources)
    requires c.Valid() && CanRun(c, Init(c), steps) && Sourced(c, Init(c), steps, random)
    requires PastWait(Run(c, Init(c), steps))
    ensures var store := Run(c, Init(c), steps).store;
            && (forall w: nat | w < c.workers :: Solo(c, random, w).Keys <= store.Keys)
            && forall key | key in store :: exists w: nat ::
                                              w < c.workers && key in Solo(c, random, w) && store[key] == Solo(c, random, w)[key]
  {
    var store, log := Run(c, Init(c), steps).store, Log(c, Init(c), steps);
    StoreIsHistory(c, Init(c), steps);
    forall w: nat | w < c.workers
      ensures Solo(c, random, w) == Effect(c.vsz, Only(log, w)) && Solo(c, random, w).Keys <= store.Keys
    {
      WorkerHistory(c, steps, random, w);
      OwnKeysStored(c.vsz, log, w);
    }
    InitInv(c);
    LogOfWorkers(c, Init(c), steps);
    forall key | key in store
      ensures exists w: nat :: w < c.workers && key in Solo(c, random, w) && store[key] == Solo(c, random, w)[key]
    {
      var w := StoredIsOwn(c.vsz, log, key);
    }
  }

  /** A key only one worker ever draws holds that worker's own last value, whatever the schedule. */
  lemma UnsharedKey(c: Config, steps: seq<Step>, random: Sources, w: nat, key: Bytes)
    requires c.Valid() && CanRun(c, Init(c), steps) && Sourced(c, Init(c), steps, random)
    requires PastWait(Run(c, Init(c), steps)) && w < c.workers && key in Solo(c, random, w)
    requires forall v: nat | v < c.workers && v != w :: key !in Solo(c, random, v)
    ensures var store := Run(c, Init(c), steps).store;
            key in store && store[key] == Solo(c, random, w)[key]
  {
    EveryInterleaving(c, steps, random);
  }

  // ----- every source has its runs

  /** What each worker draws next. */
  ghost function NextDraws(c: Config, s: State, random: Sources): nat -> seq<Draw>
  {
    (w: nat) => DrawsOf(Space(c), random(w)(if w < |s.workers| then s.workers[w].rounds else 0))
  }

  lemma NextDrawsGood(c: Config, s: State, random: Sources)
    requires forall w: nat :: GoodSource(c.batch, c.vsz, random(w))
    ensures GoodDraws(c, NextDraws(c, s, random))
  {
    if c.KeySpace() > 0 {
      forall w: nat ensures GoodBatch(c, NextDraws(c, s, random)(w)) {
        assert GoodSource(c.batch, c.vsz, random(w));
        RoundIsGoodBatch(c, random(w)(if w < |s.workers| then s.workers[w].rounds else 0));
      }
    }
  }

  lemma {:induction false} SourceCompletes(c: Config, s: State, random: Sources) returns (steps: seq<Step>)
    requires c.Valid() && Inv(c, s) && (c.KeySpace() > 0 || c.Rounds() == 0)
    requires forall w: nat :: GoodSource(c.batch, c.vsz, random(w))
    ensures CanRun(c, s, steps) && Sourced(c, s, steps, random) && Run(c, s, steps).main.Finished?
    decreases Remaining(c, s)
  {
    NothingRemains(c, s);
    if Remaining(c, s) == 0 {
      steps := [];
    } else {
      NextDrawsGood(c, s, random);
      var step := Progress(c, s, NextDraws(c, s, random));
      StepUsesOne(c, s, step);
      StepInv(c, s, step);
      var rest := SourceCompletes(c, Do(c, s, step), random);
      steps := [step] + rest;
      assert steps[1..] == rest;
    }
  }

  /** For any random sources, some schedule runs the program on them to the end, unless 0 < nw < 1. */
  lemma EverySourceRuns(c: Config, random: Sources) returns (steps: seq<Step>)
    requires c.Valid() && !(0.0 < c.keys < 1.0) && forall w: nat :: GoodSource(c.batch, c.vsz, random(w))
    ensures CanRun(c, Init(c), steps) && Sourced(c, Init(c), steps, random)
    ensures Run(c, Init(c), steps).main.Finished?
  {
    NoKeysIffFraction(c);
    InitInv(c);
    steps := SourceCompletes(c, Init(c), random);
  }
}
