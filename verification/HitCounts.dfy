/**
  * The shared hit counter: goroutines add their local tallies field by field, in any interleaving,
  * and the benchmark runs any number of rounds before it prints.
  */
module HitCounts {
  import opened ReadBench
  import opened Buffers
  import opened Slices

  const WORD: nat := 0x1_0000_0000_0000_0000

  /** found, notFound and errored, in the order Update adds them. */
  const FIELDS: nat := 3

  function Field(t: Tally, i: nat): nat
  {
    if i == 0 then t.found else if i == 1 then t.notFound else t.errored
  }

  /** atomic.AddUint64 on one field. */
  function AddField(t: Tally, i: nat, n: nat): Tally
  {
    var x := (Field(t, i) + n) % WORD;
    if i == 0 then t.(found := x) else if i == 1 then t.(notFound := x) else t.(errored := x)
  }

  /** The shared counter, and how many of its three adds each goroutine has made. */
  datatype State = State(shared: Tally, done: seq<nat>)

  predicate Enabled(s: State, g: nat) { g < |s.done| && s.done[g] < FIELDS }

  /** Goroutine g makes its next add. */
  function Step(locals: seq<Tally>, s: State, g: nat): State
    requires |locals| == |s.done| && Enabled(s, g)
  {
    State(AddField(s.shared, s.done[g], Field(locals[g], s.done[g])), s.done[g := s.done[g] + 1])
  }

  ghost predicate CanRun(locals: seq<Tally>, s: State, schedule: seq<nat>)
    requires |locals| == |s.done|
    decreases |schedule|
  {
    schedule == [] || (Enabled(s, schedule[0]) && CanRun(locals, Step(locals, s, schedule[0]), schedule[1..]))
  }

  ghost function Run(locals: seq<Tally>, s: State, schedule: seq<nat>): (r: State)
    requires |locals| == |s.done| && CanRun(locals, s, schedule)
    ensures |r.done| == |s.done|
    decreases |schedule|
  {
    if schedule == [] then s else Run(locals, Step(locals, s, schedule[0]), schedule[1..])
  }

  /** One benchmark round: the goroutines' local tallies and the order of their atomic adds. */
  datatype Round = Round(locals: seq<Tally>, schedule: seq<nat>)

  /** Reset clears the counter whatever the round before left in it. */
  function Begin(round: Round): State
  {
    State(Tally(0, 0, 0), seq(|round.locals|, _ => 0))
  }

  /** RunParallel returns when every goroutine has made all its adds. */
  ghost predicate Completed(round: Round)
  {
    CanRun(round.locals, Begin(round), round.schedule)
    && forall g | 0 <= g < |round.locals| :: Run(round.locals, Begin(round), round.schedule).done[g] == FIELDS
  }

  /** The counter after a list of rounds. */
  ghost function AfterRounds(shared: Tally, rounds: seq<Round>): Tally
    requires forall r | 0 <= r < |rounds| :: Completed(rounds[r])
    decreases |rounds|
  {
    if rounds == [] then shared else
    var round := rounds[0];
    assert Completed(round);
    AfterRounds(Run(round.locals, Begin(round), round.schedule).shared, rounds[1..])
  }

  /** The part of one field's total that has been added so far. */
  function Part(locals: seq<Tally>, done: seq<nat>, i: nat): nat
    requires |locals| == |done|
  {
    if locals == [] then 0 else
    (if done[0] > i then Field(locals[0], i) else 0) + Part(locals[1..], done[1..], i)
  }

  function Total(locals: seq<Tally>, i: nat): nat
  {
    if locals == [] then 0 else Field(locals[0], i) + Total(locals[1..], i)
  }

  function Iterations(locals: seq<Tally>): nat
  {
    if locals == [] then 0 else locals[0].Sum() + Iterations(locals[1..])
  }

  lemma {:induction false} PartStep(locals: seq<Tally>, done: seq<nat>, g: nat, i: nat)
    requires |locals| == |done| && g < |done|
    ensures Part(locals, done[g := done[g] + 1], i) == Part(locals, done, i) + if done[g] == i then Field(locals[g], i) else 0
  {
    var done' := done[g := done[g] + 1];
    if g == 0 {
      assert done'[1..] == done[1..];
    } else {
      PartStep(locals[1..], done[1..], g - 1, i);
      assert done'[1..] == done[1..][g - 1 := done[g] + 1];
    }
  }

  ghost predicate Inv(locals: seq<Tally>, s: State)
    requires |locals| == |s.done|
  {
    && (forall g | 0 <= g < |s.done| :: s.done[g] <= FIELDS)
    && forall i: nat | i < FIELDS :: Field(s.shared, i) == Part(locals, s.done, i) % WORD
  }

  lemma StepInv(locals: seq<Tally>, s: State, g: nat)
    requires |locals| == |s.done| && Inv(locals, s) && Enabled(s, g)
    ensures Inv(locals, Step(locals, s, g))
  {
    var s' := Step(locals, s, g);
    forall i: nat | i < FIELDS ensures Field(s'.shared, i) == Part(locals, s'.done, i) % WORD {
      PartStep(locals, s.done, g, i);
      AddMod(Part(locals, s.done, i), Field(locals[g], i));
    }
  }

  lemma AddMod(x: nat, n: nat)
    ensures (x % WORD + n) % WORD == (x + n) % WORD
  {}

  lemma {:induction false} RunInv(locals: seq<Tally>, s: State, schedule: seq<nat>)
    requires |locals| == |s.done| && Inv(locals, s) && CanRun(locals, s, schedule)
    ensures Inv(locals, Run(locals, s, schedule))
    decreases |schedule|
  {
    if schedule != [] {
      StepInv(locals, s, schedule[0]);
      RunInv(locals, Step(locals, s, schedule[0]), schedule[1..]);
    }
  }

  lemma {:induction false} PartNone(locals: seq<Tally>, done: seq<nat>, i: nat)
    requires |locals| == |done| && forall g | 0 <= g < |done| :: done[g] == 0
    ensures Part(locals, done, i) == 0
  {
    if locals != [] { PartNone(locals[1..], done[1..], i); }
  }

  lemma {:induction false} PartAll(locals: seq<Tally>, done: seq<nat>, i: nat)
    requires |locals| == |done| && i < FIELDS && forall g | 0 <= g < |done| :: done[g] == FIELDS
    ensures Part(locals, done, i) == Total(locals, i)
  {
    if locals != [] { PartAll(locals[1..], done[1..], i); }
  }

  /** Whatever the order of the atomic adds, each field ends as the sum of the local fields, modulo 2^64. */
  lemma RoundExact(round: Round)
    requires Completed(round)
    ensures forall i: nat | i < FIELDS ::
              Field(Run(round.locals, Begin(round), round.schedule).shared, i) == Total(round.locals, i) % WORD
  {
    var s0 := Begin(round);
    forall i: nat | i < FIELDS ensures Part(round.locals, s0.done, i) == 0 { PartNone(round.locals, s0.done, i); }
    RunInv(round.locals, s0, round.schedule);
    var s := Run(round.locals, s0, round.schedule);
    forall i: nat | i < FIELDS ensures Field(s.shared, i) == Total(round.locals, i) % WORD {
      PartAll(round.locals, s.done, i);
    }
  }

  lemma {:induction false} TotalsSum(locals: seq<Tally>)
    ensures Total(locals, 0) + Total(locals, 1) + Total(locals, 2) == Iterations(locals)
  {
    if locals != [] { TotalsSum(locals[1..]); }
  }

  lemma {:induction false} OnlyLastRound(shared: Tally, rounds: seq<Round>)
    requires rounds != [] && forall r | 0 <= r < |rounds| :: Completed(rounds[r])
    ensures var last := rounds[|rounds| - 1];
            AfterRounds(shared, rounds) == Run(last.locals, Begin(last), last.schedule).shared
    decreases |rounds|
  {
    if |rounds| > 1 {
      var first := rounds[0];
      OnlyLastRound(Run(first.locals, Begin(first), first.schedule).shared, rounds[1..]);
    }
  }

  /** A round whose lookups a counter can count leaves the exact sums. */
  lemma RoundFields(round: Round)
    requires Completed(round) && Iterations(round.locals) < 0x1_0000_0000_0000_0000
    ensures Run(round.locals, Begin(round), round.schedule).shared
         == Tally(Total(round.locals, 0), Total(round.locals, 1), Total(round.locals, 2))
    ensures Total(round.locals, 0) + Total(round.locals, 1) + Total(round.locals, 2) == Iterations(round.locals)
  {
    RoundExact(round);
    TotalsSum(round.locals);
    var shared := Run(round.locals, Begin(round), round.schedule).shared;
    assert Field(shared, 0) == Total(round.locals, 0) && Field(shared, 1) == Total(round.locals, 1);
    assert Field(shared, 2) == Total(round.locals, 2);
  }

  /**
    * After any rounds under any schedules, what Print shows is the last round alone: each field the exact
    * sum of that round's local tallies, and the three together its iteration count.
    */
  lemma PrintedTally(shared: Tally, rounds: seq<Round>)
    requires rounds != [] && forall r | 0 <= r < |rounds| :: Completed(rounds[r])
    requires Iterations(rounds[|rounds| - 1].locals) < 0x1_0000_0000_0000_0000
    ensures var locals, printed := rounds[|rounds| - 1].locals, AfterRounds(shared, rounds);
            && printed == Tally(Total(locals, 0), Total(locals, 1), Total(locals, 2))
            && printed.Sum() == Iterations(locals)
  {
    OnlyLastRound(shared, rounds);
    RoundFields(rounds[|rounds| - 1]);
  }

  /** The local tallies of goroutines that answered these lookups. */
  function LocalsOf(engine: Engine, vsz: nat, work: seq<seq<Outcome>>): (locals: seq<Tally>)
    ensures |locals| == |work|
  {
    if work == [] then [] else [TallyOf(Verdicts(engine, vsz, work[0]))] + LocalsOf(engine, vsz, work[1..])
  }

  function Lookups(work: seq<seq<Outcome>>): nat
  {
    if work == [] then 0 else |work[0]| + Lookups(work[1..])
  }

  /** However pb.Next shares the iterations out, the round's tallies account for every one of them. */
  lemma {:induction false} EveryLookupCounted(engine: Engine, vsz: nat, work: seq<seq<Outcome>>)
    requires forall g | 0 <= g < |work| :: AssertFails !in Verdicts(engine, vsz, work[g])
    ensures Iterations(LocalsOf(engine, vsz, work)) == Lookups(work)
  {
    if work != [] {
      TallySum(Verdicts(engine, vsz, work[0]));
      EveryLookupCounted(engine, vsz, work[1..]);
    }
  }

  // ----- what is printed, in terms of the lookups of the last round

  /** All the answers of a round. */
  function Concat(work: seq<seq<Outcome>>): seq<Outcome>
  {
    if work == [] then [] else work[0] + Concat(work[1..])
  }

  lemma {:induction false} NumberConcat(p: Outcome -> bool, a: seq<Outcome>, b: seq<Outcome>)
    ensures Number(p, a + b) == Number(p, a) + Number(p, b)
  {
    if b == [] {
      assert a + b == a;
    } else {
      assert (a + b)[..|a + b| - 1] == a + b[..|b| - 1];
      NumberConcat(p, a, b[..|b| - 1]);
    }
  }

  /** The numbers of a round's answers are those of its first goroutine's plus those of the others'. */
  lemma MeaningConcat(engine: Engine, a: seq<Outcome>, b: seq<Outcome>, i: nat)
    requires Number(IsEmptyHit, a) <= Number(IsHit, a) && Number(IsEmptyHit, b) <= Number(IsHit, b)
    ensures Number(IsEmptyHit, a + b) <= Number(IsHit, a + b)
    ensures Field(Meaning(engine, a + b), i) == Field(Meaning(engine, a), i) + Field(Meaning(engine, b), i)
  {
    NumberConcat(IsHit, a, b);
    NumberConcat(IsEmptyHit, a, b);
    NumberConcat(IsMissing, a, b);
    NumberConcat(IsFailed, a, b);
  }

  lemma {:induction false} LocalsMean(engine: Engine, vsz: nat, work: seq<seq<Outcome>>, i: nat)
    requires forall g | 0 <= g < |work| :: AssertFails !in Verdicts(engine, vsz, work[g])
    ensures Number(IsEmptyHit, Concat(work)) <= Number(IsHit, Concat(work))
    ensures Total(LocalsOf(engine, vsz, work), i) == Field(Meaning(engine, Concat(work)), i)
  {
    if work != [] {
      TallyMeaning(engine, vsz, work[0]);
      LocalsMean(engine, vsz, work[1..], i);
      MeaningConcat(engine, work[0], Concat(work[1..]), i);
    }
  }

  lemma WorkTotals(engine: Engine, vsz: nat, work: seq<seq<Outcome>>)
    requires forall g | 0 <= g < |work| :: AssertFails !in Verdicts(engine, vsz, work[g])
    ensures var locals, all := LocalsOf(engine, vsz, work), Concat(work);
            && Total(locals, 0) == Number(IsHit, all) - (if engine.Rocks? then Number(IsEmptyHit, all) else 0)
            && Total(locals, 2) == (if engine.Bolt? then 0 else Number(IsFailed, all))
            && Iterations(locals) == Lookups(work)
  {
    LocalsMean(engine, vsz, work, 0);
    LocalsMean(engine, vsz, work, 2);
    EveryLookupCounted(engine, vsz, work);
  }

  /**
    * What Print shows after any rounds under any schedules: the numbers of hits, misses and errors among
    * all the lookups of the last round, with RocksDB's and Bolt's own way of counting.
    */
  lemma PrintedAnswers(engine: Engine, vsz: nat, shared: Tally, rounds: seq<Round>, work: seq<seq<Outcome>>)
    requires rounds != [] && forall r | 0 <= r < |rounds| :: Completed(rounds[r])
    requires rounds[|rounds| - 1].locals == LocalsOf(engine, vsz, work)
    requires forall g | 0 <= g < |work| :: AssertFails !in Verdicts(engine, vsz, work[g])
    requires Lookups(work) < 0x1_0000_0000_0000_0000
    ensures var printed, all := AfterRounds(shared, rounds), Concat(work);
            && printed.found == Number(IsHit, all) - (if engine.Rocks? then Number(IsEmptyHit, all) else 0)
            && printed.errored == (if engine.Bolt? then 0 else Number(IsFailed, all))
            && printed.found + printed.notFound + printed.errored == Lookups(work)
  {
    WorkTotals(engine, vsz, work);
    PrintedTally(shared, rounds);
  }

  // ----- every round can complete

  /** The goroutines from g on make their remaining adds, one after the other. */
  lemma {:induction false} CanFinish(locals: seq<Tally>, s: State, g: nat) returns (schedule: seq<nat>)
    requires |locals| == |s.done| && g <= |s.done|
    requires forall i | 0 <= i < |s.done| :: s.done[i] <= FIELDS && (i < g ==> s.done[i] == FIELDS)
    ensures CanRun(locals, s, schedule)
    ensures forall i | 0 <= i < |s.done| :: Run(locals, s, schedule).done[i] == FIELDS
    decreases |s.done| - g, if g < |s.done| then FIELDS - s.done[g] else 0
  {
    if g == |s.done| {
      schedule := [];
    } else if s.done[g] == FIELDS {
      schedule := CanFinish(locals, s, g + 1);
    } else {
      var rest := CanFinish(locals, Step(locals, s, g), g);
      schedule := [g] + rest;
      assert schedule[1..] == rest;
    }
  }

  /** Whatever the local tallies, some schedule completes the round. */
  lemma SomeRoundCompletes(locals: seq<Tally>) returns (schedule: seq<nat>)
    ensures Completed(Round(locals, schedule))
  {
    schedule := CanFinish(locals, Begin(Round(locals, [])), 0);
  }
}
