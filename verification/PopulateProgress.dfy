/** Every run of the populate program ends, after a number of steps no schedule can change. */
module PopulateProgress {
  import opened Populate
  import opened PopulateProof

  /** Steps a worker still has to take: four for each batch to come and one to leave. */
  ghost function WorkerLeft(rounds: nat): Worker -> int
  {
    (w: Worker) =>
      var togo := 4 * (rounds - w.rounds);
      match w.phase
      case NotStarted => togo + 1
      case AtTest => togo + 1
      case Filled(_) => togo
      case Committed => togo - 1
      case Counted => togo - 2
      case Exited => 0
  }

  /** Steps main still has to take. */
  function MainLeft(c: Config, pc: MainPc): int
  {
    match pc
    case Adding(i) => 2 * (c.workers - i) + 4
    case Spawning(i) => 2 * (c.workers - i) + 3
    case Cancelling => 3
    case Closing => 2
    case Reporting => 1
    case Finished(_) => 0
  }

  ghost function Remaining(c: Config, s: State): int
    requires c.Valid()
  {
    MainLeft(c, s.main) + Total(WorkerLeft(c.Rounds()), s.workers) + if s.reporterLive then 1 else 0
  }

  lemma RemainingParts(c: Config, s: State)
    requires c.Valid() && Inv(c, s)
    ensures MainLeft(c, s.main) >= 0 && Total(WorkerLeft(c.Rounds()), s.workers) >= 0
  {
    TotalCompare((w: Worker) => 0, WorkerLeft(c.Rounds()), s.workers, 0);
    TotalConstant((w: Worker) => 0, s.workers, 0);
  }

  /** What a worker looks like after its own step. */
  function Moved(c: Config, x: Worker, step: Step): Worker
    requires IsWorkerStep(step)
  {
    match step
    case Fill(_, batch) => x.(phase := Filled(batch))
    case Commit(_) => x.(phase := Committed)
    case Count(_) => x.(phase := Counted)
    case Bump(_) => Worker(AtTest, x.rounds + 1, x.written + c.batch)
    case Exit(_) => x.(phase := Exited)
  }

  lemma MovedUsesOne(c: Config, s: State, step: Step)
    requires c.Valid() && IsWorkerStep(step) && Enabled(c, s, step) && WorkerOk(c, s.workers[step.w])
    ensures var x := s.workers[step.w];
            WorkerLeft(c.Rounds())(Moved(c, x, step)) == WorkerLeft(c.Rounds())(x) - 1
  {
    if step.Exit? { LoopTestRounds(c, s.workers[step.w]); }
  }

  /** Each step but a reporter's read uses up exactly one of the steps that remain. */
  lemma StepUsesOne(c: Config, s: State, step: Step)
    requires c.Valid() && Inv(c, s) && Enabled(c, s, step)
    ensures Remaining(c, Do(c, s, step)) == Remaining(c, s) - if step.Report? then 0 else 1
  {
    if IsWorkerStep(step) {
      MovedUsesOne(c, s, step);
      TotalUpdate(WorkerLeft(c.Rounds()), s.workers, step.w, Moved(c, s.workers[step.w], step));
      assert Do(c, s, step).workers == s.workers[step.w := Moved(c, s.workers[step.w], step)];
    } else if step.Spawn? {
      TotalUpdate(WorkerLeft(c.Rounds()), s.workers, s.main.i, s.workers[s.main.i].(phase := AtTest));
    }
  }

  /** Steps of a run other than the reporter's reads, which a ticker may make any number of times. */
  function WorkSteps(steps: seq<Step>): nat
  {
    if steps == [] then 0 else (if steps[0].Report? then 0 else 1) + WorkSteps(steps[1..])
  }

  lemma {:induction false} RunUses(c: Config, s: State, steps: seq<Step>)
    requires c.Valid() && Inv(c, s) && CanRun(c, s, steps)
    ensures Remaining(c, Run(c, s, steps)) + WorkSteps(steps) == Remaining(c, s)
    decreases |steps|
  {
    if steps != [] {
      StepUsesOne(c, s, steps[0]);
      StepInv(c, s, steps[0]);
      RunUses(c, Do(c, s, steps[0]), steps[1..]);
    }
  }

  /** The work a whole run does: 2N+5 steps of main and the reporter, 4*ceil(nw/(N*B))+1 of each worker. */
  function RunLength(c: Config): int
    requires c.Valid()
  {
    2 * c.workers + 5 + c.workers * (4 * c.Rounds() + 1)
  }

  lemma InitialWork(c: Config)
    requires c.Valid()
    ensures Remaining(c, Init(c)) == RunLength(c)
  {
    TotalConstant(WorkerLeft(c.Rounds()), Init(c).workers, 4 * c.Rounds() + 1);
  }

  /** Nothing remains exactly when main has finished and the reporter has left. */
  lemma NothingRemains(c: Config, s: State)
    requires c.Valid() && Inv(c, s)
    ensures Remaining(c, s) >= 0
    ensures Remaining(c, s) == 0 <==> s.main.Finished? && !s.reporterLive
  {
    RemainingParts(c, s);
    if s.main.Finished? { TotalConstant(WorkerLeft(c.Rounds()), s.workers, 0); }
  }

  /**
    * No run does more than RunLength steps of work, so every run ends; and all runs that end with
    * main finished and the reporter gone do exactly that many, whatever the schedule.
    */
  lemma EveryRunEnds(c: Config, steps: seq<Step>)
    requires c.Valid() && CanRun(c, Init(c), steps)
    ensures WorkSteps(steps) <= RunLength(c)
    ensures var s := Run(c, Init(c), steps);
            s.main.Finished? && !s.reporterLive <==> WorkSteps(steps) == RunLength(c)
  {
    InitInv(c);
    InitialWork(c);
    RunInv(c, Init(c), steps);
    RunUses(c, Init(c), steps);
    NothingRemains(c, Run(c, Init(c), steps));
  }

  /** The batches the workers may draw next, one each, when there are keys to draw. */
  ghost predicate GoodDraws(c: Config, draw: nat -> seq<Draw>)
  {
    c.KeySpace() > 0 ==> forall w: nat :: GoodBatch(c, draw(w))
  }

  ghost function SomeDraws(c: Config): (draw: nat -> seq<Draw>)
    ensures GoodDraws(c, draw)
  {
    var batch := seq(c.batch, _ => Draw(0, seq(c.vsz, _ => 0)));
    _ => batch
  }

  /** The step a live worker can take, with `draw(w)` as its next batch. */
  ghost function WorkerNext(c: Config, s: State, w: nat, draw: nat -> seq<Draw>): (step: Step)
    requires c.Valid() && (c.KeySpace() > 0 || c.Rounds() == 0) && GoodDraws(c, draw)
    requires w < |s.workers| && IsLive(s.workers[w]) && WorkerOk(c, s.workers[w])
    ensures Enabled(c, s, step) && !step.Report? && (step.Fill? ==> step.batch == draw(step.w))
  {
    LoopTestRounds(c, s.workers[w]);
    match s.workers[w].phase
    case AtTest => if LoopTest(c, s.workers[w]) then Fill(w, draw(w)) else Exit(w)
    case Filled(_) => Commit(w)
    case Committed => Count(w)
    case Counted => Bump(w)
  }

  /** A run that has work left is never stuck, whatever the workers draw, unless they draw from no keys. */
  lemma Progress(c: Config, s: State, draw: nat -> seq<Draw>) returns (step: Step)
    requires c.Valid() && Inv(c, s) && (c.KeySpace() > 0 || c.Rounds() == 0) && GoodDraws(c, draw)
    requires Remaining(c, s) > 0
    ensures Enabled(c, s, step) && !step.Report? && (step.Fill? ==> step.batch == draw(step.w))
  {
    if w :| 0 <= w < |s.workers| && IsLive(s.workers[w]) {
      step := WorkerNext(c, s, w, draw);
    } else {
      TotalConstant(Live(), s.workers, 0);
      step :=
        match s.main
        case Adding(i) => if i < c.workers then Add else WaitReturns
        case Spawning(_) => Spawn
        case Cancelling => Cancel
        case Closing => Close
        case Reporting => Print
        case Finished(_) => ReporterExit;
      NothingRemains(c, s);
    }
  }

  lemma {:induction false} CanComplete(c: Config, s: State) returns (steps: seq<Step>)
    requires c.Valid() && Inv(c, s) && (c.KeySpace() > 0 || c.Rounds() == 0)
    ensures CanRun(c, s, steps) && Run(c, s, steps).main.Finished?
    decreases Remaining(c, s)
  {
    NothingRemains(c, s);
    if Remaining(c, s) == 0 {
      steps := [];
    } else {
      var step := Progress(c, s, SomeDraws(c));
      StepUsesOne(c, s, step);
      StepInv(c, s, step);
      var rest := CanComplete(c, Do(c, s, step));
      steps := [step] + rest;
      assert steps[1..] == rest;
    }
  }

  lemma NoKeysIffFraction(c: Config)
    requires c.Valid()
    ensures c.KeySpace() <= 0 && c.Rounds() > 0 <==> 0.0 < c.keys < 1.0
  {
    var w := Worker(AtTest, 0, 0);
    LoopTestRounds(c, w);
    DivideLess(0.0, c.keys, c.workers as real);
  }

  lemma StuckWithoutKeys(c: Config, s: State)
    requires c.Valid() && Inv(c, s) && c.KeySpace() <= 0 && c.Rounds() > 0
    ensures !s.main.Finished?
  {
    assert WorkerOk(c, s.workers[0]);
  }

  /**
    * The program can print its total exactly when nw is not strictly between 0 and 1: there a worker
    * has to draw a key number modulo int(nw) = 0 and panics.
    */
  lemma FinishesIff(c: Config)
    requires c.Valid()
    ensures (exists s :: Reachable(c, s) && s.main.Finished?) <==> !(0.0 < c.keys < 1.0)
  {
    NoKeysIffFraction(c);
    InitInv(c);
    if 0.0 < c.keys < 1.0 {
      forall s | Reachable(c, s) ensures !s.main.Finished? {
        ReachableInv(c, s);
        StuckWithoutKeys(c, s);
      }
    } else {
      var steps := CanComplete(c, Init(c));
      assert Reachable(c, Run(c, Init(c), steps));
    }
  }

  /** Nothing but reporter reads is left to do. */
  ghost predicate Complete(c: Config, s: State)
    requires c.Valid()
  {
    forall step | Enabled(c, s, step) :: step.Report?
  }

  /** A run stops only at the end: no schedule can wedge the WaitGroup or strand a worker. */
  lemma NoDeadlock(c: Config, s: State)
    requires c.Valid() && Reachable(c, s) && !(0.0 < c.keys < 1.0)
    ensures Complete(c, s) <==> s.main.Finished? && !s.reporterLive
  {
    ReachableInv(c, s);
    NoKeysIffFraction(c);
    NothingRemains(c, s);
    if s.main.Finished? && !s.reporterLive {
      assert forall w | 0 <= w < |s.workers| :: s.workers[w].phase.Exited?;
    } else if Complete(c, s) {
      var step := Progress(c, s, SomeDraws(c));
    }
  }
}
