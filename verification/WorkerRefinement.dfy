/** The worker written over buffers does what the protocol's worker does, step for step. */
module WorkerRefinement {
  import opened KeyValue
  import opened Populate
  import opened PopulateProof
  import opened Buffers

  lemma Prepend(c: Config, s: State, step: Step, rest: seq<Step>)
    requires c.Valid() && Enabled(c, s, step) && CanRun(c, Do(c, s, step), rest)
    ensures CanRun(c, s, [step] + rest) && Run(c, s, [step] + rest) == Run(c, Do(c, s, step), rest)
  {
    assert ([step] + rest)[1..] == rest;
  }

  /** A state in which worker w is about to test its loop condition. */
  ghost predicate AtLoop(c: Config, s: State, w: nat)
    requires c.Valid()
  {
    Inv(c, s) && w < |s.workers| && s.workers[w].phase.AtTest?
  }

  /** The state after one turn of worker w's loop with these draws, no other goroutine moving. */
  function AfterTurn(c: Config, s: State, w: nat, batch: seq<Draw>): State
    requires w < |s.workers|
  {
    var x := s.workers[w];
    s.(workers := s.workers[w := Worker(AtTest, x.rounds + 1, x.written + c.batch)],
    store := PutAll(s.store, PairsOf(c.vsz, batch)),
    committed := s.committed + |batch|,
    counter := s.counter + c.batch)
  }

  /** Worker w fills a batch: the loop test lets it. */
  lemma FillStep(c: Config, s: State, w: nat, batch: seq<Draw>)
    requires c.Valid() && AtLoop(c, s, w) && s.workers[w].rounds < c.Rounds() && GoodBatch(c, batch)
    ensures Enabled(c, s, Fill(w, batch))
    ensures Do(c, s, Fill(w, batch)) == SetWorker(s, w, s.workers[w].(phase := Filled(batch)))
  {
    assert WorkerOk(c, s.workers[w]);
    LoopTestRounds(c, s.workers[w]);
  }

  /** With its batch filled, the worker's next three steps complete the turn. */
  lemma RestOfTurn(c: Config, s: State, w: nat, batch: seq<Draw>, s1: State)
    requires c.Valid() && w < |s.workers| && s1 == SetWorker(s, w, s.workers[w].(phase := Filled(batch)))
    ensures Enabled(c, s1, Commit(w))
    ensures var s2 := Do(c, s1, Commit(w));
            Enabled(c, s2, Count(w)) &&
            var s3 := Do(c, s2, Count(w));
            Enabled(c, s3, Bump(w)) && Do(c, s3, Bump(w)) == AfterTurn(c, s, w, batch)
  {}

  lemma ThreeSteps(c: Config, s: State, a: Step, b: Step, d: Step, rest: seq<Step>)
    requires c.Valid() && Enabled(c, s, a) && Enabled(c, Do(c, s, a), b) && Enabled(c, Do(c, Do(c, s, a), b), d)
    requires CanRun(c, Do(c, Do(c, Do(c, s, a), b), d), rest)
    ensures var steps := [a] + ([b] + ([d] + rest));
            CanRun(c, s, steps) && Run(c, s, steps) == Run(c, Do(c, Do(c, Do(c, s, a), b), d), rest)
  {
    Prepend(c, Do(c, Do(c, s, a), b), d, rest);
    Prepend(c, Do(c, s, a), b, [d] + rest);
    Prepend(c, s, a, [b] + ([d] + rest));
  }

  /** One turn of the loop is four protocol steps: fill, commit, count, bump. */
  lemma TurnIsFourSteps(c: Config, s: State, w: nat, batch: seq<Draw>, rest: seq<Step>)
    requires c.Valid() && AtLoop(c, s, w) && s.workers[w].rounds < c.Rounds() && GoodBatch(c, batch)
    requires CanRun(c, AfterTurn(c, s, w, batch), rest)
    ensures var steps := [Fill(w, batch)] + ([Commit(w)] + ([Count(w)] + ([Bump(w)] + rest)));
            CanRun(c, s, steps) && Run(c, s, steps) == Run(c, AfterTurn(c, s, w, batch), rest)
  {
    var s1 := SetWorker(s, w, s.workers[w].(phase := Filled(batch)));
    FillStep(c, s, w, batch);
    RestOfTurn(c, s, w, batch, s1);
    ThreeSteps(c, s1, Commit(w), Count(w), Bump(w), rest);
    Prepend(c, s, Fill(w, batch), [Commit(w)] + ([Count(w)] + ([Bump(w)] + rest)));
  }

  lemma TurnKeepsLoop(c: Config, s: State, w: nat, batch: seq<Draw>)
    requires c.Valid() && AtLoop(c, s, w) && s.workers[w].rounds < c.Rounds() && GoodBatch(c, batch)
    ensures AtLoop(c, AfterTurn(c, s, w, batch), w)
  {
    TurnIsFourSteps(c, s, w, batch, []);
    var steps := [Fill(w, batch)] + ([Commit(w)] + ([Count(w)] + ([Bump(w)] + [])));
    RunInv(c, s, steps);
  }

  /** The store has met the worker's first rounds, on top of `start`. */
  ghost predicate Met(c: Config, s: State, random: nat -> seq<Random>, start: Kv, rounds: nat)
    requires c.KeySpace() > 0
  {
    s.store == PutAll(start, AllPairs(c.vsz, c.KeySpace(), random, rounds))
  }

  /** These steps take worker w from here to its exit, as the code over buffers would. */
  ghost predicate RunsOut(c: Config, s: State, w: nat, random: nat -> seq<Random>, start: Kv, steps: seq<Step>)
    requires c.Valid() && c.KeySpace() > 0 && w < |s.workers|
  {
    CanRun(c, s, steps) &&
    var end := Run(c, s, steps);
    && |end.workers| == |s.workers| && end.workers[w] == Worker(Exited, c.Rounds(), c.Rounds() * c.batch)
    && Met(c, end, random, start, c.Rounds())
    && end.counter - s.counter == end.workers[w].written - s.workers[w].written
  }

  lemma ExitRunsOut(c: Config, s: State, w: nat, random: nat -> seq<Random>, start: Kv)
    requires c.Valid() && c.KeySpace() > 0 && AtLoop(c, s, w)
    requires s.workers[w].rounds == c.Rounds() && Met(c, s, random, start, c.Rounds())
    ensures RunsOut(c, s, w, random, start, [Exit(w)])
  {
    LoopTestRounds(c, s.workers[w]);
    Prepend(c, s, Exit(w), []);
    assert [Exit(w)] + [] == [Exit(w)];
  }

  lemma TurnMeets(c: Config, s: State, w: nat, random: nat -> seq<Random>, start: Kv)
    requires c.KeySpace() > 0 && w < |s.workers| && Met(c, s, random, start, s.workers[w].rounds)
    ensures var r := s.workers[w].rounds;
            Met(c, AfterTurn(c, s, w, DrawsOf(c.KeySpace(), random(r))), random, start, r + 1)
  {
    var r := s.workers[w].rounds;
    PutAllConcat(start, AllPairs(c.vsz, c.KeySpace(), random, r), PairsOf(c.vsz, DrawsOf(c.KeySpace(), random(r))));
  }

  /** After a turn the worker is at its loop again, one round further. */
  lemma TurnReady(c: Config, s: State, w: nat, random: nat -> seq<Random>, start: Kv)
    requires c.Valid() && c.KeySpace() > 0 && AtLoop(c, s, w) && s.workers[w].rounds < c.Rounds()
    requires Met(c, s, random, start, s.workers[w].rounds)
    requires GoodBatch(c, DrawsOf(c.KeySpace(), random(s.workers[w].rounds)))
    ensures var s' := AfterTurn(c, s, w, DrawsOf(c.KeySpace(), random(s.workers[w].rounds)));
            AtLoop(c, s', w) && s'.workers[w].rounds == s.workers[w].rounds + 1
            && Met(c, s', random, start, s'.workers[w].rounds)
  {
    TurnKeepsLoop(c, s, w, DrawsOf(c.KeySpace(), random(s.workers[w].rounds)));
    TurnMeets(c, s, w, random, start);
  }

  lemma TurnRunsOut(c: Config, s: State, w: nat, random: nat -> seq<Random>, start: Kv, rest: seq<Step>)
    returns (steps: seq<Step>)
    requires c.Valid() && c.KeySpace() > 0 && AtLoop(c, s, w) && s.workers[w].rounds < c.Rounds()
    requires GoodBatch(c, DrawsOf(c.KeySpace(), random(s.workers[w].rounds)))
    requires RunsOut(c, AfterTurn(c, s, w, DrawsOf(c.KeySpace(), random(s.workers[w].rounds))), w, random, start, rest)
    ensures RunsOut(c, s, w, random, start, steps)
  {
    var batch := DrawsOf(c.KeySpace(), random(s.workers[w].rounds));
    TurnIsFourSteps(c, s, w, batch, rest);
    steps := [Fill(w, batch)] + ([Commit(w)] + ([Count(w)] + ([Bump(w)] + rest)));
  }

  lemma {:induction false} WorkerRunsOut(c: Config, s: State, w: nat, random: nat -> seq<Random>, start: Kv)
    returns (steps: seq<Step>)
    requires c.Valid() && c.KeySpace() > 0 && AtLoop(c, s, w) && GoodSource(c.batch, c.vsz, random)
    requires Met(c, s, random, start, s.workers[w].rounds)
    ensures RunsOut(c, s, w, random, start, steps)
    decreases c.Rounds() - s.workers[w].rounds
  {
    var r := s.workers[w].rounds;
    if r == c.Rounds() {
      ExitRunsOut(c, s, w, random, start);
      steps := [Exit(w)];
    } else {
      RoundIsGoodBatch(c, random(r));
      TurnReady(c, s, w, random, start);
      var s' := AfterTurn(c, s, w, DrawsOf(c.KeySpace(), random(r)));
      var rest := WorkerRunsOut(c, s', w, random, start);
      steps := TurnRunsOut(c, s, w, random, start, rest);
    }
  }

  /**
    * From any point of its loop, worker w alone can go on exactly as the code over buffers does: the
    * rest of its rounds reach the store with the same pairs in the same order, the counter grows by what
    * it writes, and it leaves after ceil(nw/(N*B)) rounds.
    */
  lemma WorkerIsProtocolRun(c: Config, s: State, w: nat, random: nat -> seq<Random>, start: Kv) returns (steps: seq<Step>)
    requires c.Valid() && c.keys >= 1.0 && AtLoop(c, s, w) && GoodSource(c.batch, c.vsz, random)
    requires s.store == PutAll(start, AllPairs(c.vsz, c.keys.Floor, random, s.workers[w].rounds))
    ensures CanRun(c, s, steps)
    ensures var end := Run(c, s, steps);
            && |end.workers| == |s.workers| && end.workers[w] == Worker(Exited, c.Rounds(), c.Rounds() * c.batch)
            && end.store == PutAll(start, AllPairs(c.vsz, c.keys.Floor, random, c.Rounds()))
            && end.counter - s.counter == end.workers[w].written - s.workers[w].written
  {
    KeySpaceTruncates(c);
    steps := WorkerRunsOut(c, s, w, random, start);
  }
}
