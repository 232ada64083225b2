/**
  * The populate program: N workers fill and commit batches and add to a shared counter, a reporter
  * reads the counter, and main waits on a WaitGroup before it closes the store and prints the total.
  * Every shared action is one atomic step; a run is any interleaving of steps.
  */
module Populate {
  import opened ByteOrder
  import opened KeyCodec
  import opened KeyValue

  /** `workers` is N, `batch` is B (entries per batch), `keys` is nw, `vsz` is the value size. */
  datatype Config = Config(workers: nat, batch: nat, keys: real, vsz: nat) {
    predicate Valid() { workers >= 1 && batch >= 1 }

    /** The conversion int(nw) truncates toward zero. */
    function KeySpace(): int
    {
      if keys >= 0.0 then keys.Floor else -((-keys).Floor)
    }

    /** ceil(nw / (N*B)), and no rounds at all when there is nothing to write. */
    function Rounds(): nat
      requires Valid()
    {
      PositiveProduct(workers, batch);
      if keys <= 0.0 then 0 else
      var q := keys / (workers * batch) as real;
      NonNegativeQuotient(keys, (workers * batch) as real);
      -((-q).Floor)
    }

    function TotalKeys(): int
      requires Valid()
    {
      workers * batch * Rounds()
    }
  }

  /** int(nw) truncates: the whole number next to nw on the side of zero. */
  lemma KeySpaceTruncates(c: Config)
    ensures c.keys >= 0.0 ==> 0.0 <= c.KeySpace() as real <= c.keys < c.KeySpace() as real + 1.0
    ensures c.keys < 0.0 ==> c.KeySpace() as real - 1.0 < c.keys <= c.KeySpace() as real <= 0.0
  {}

  lemma PositiveProduct(a: nat, b: nat)
    requires a >= 1 && b >= 1
    ensures a * b >= 1
  {}

  lemma NonNegativeQuotient(x: real, y: real)
    requires x > 0.0 && y > 0.0
    ensures x / y > 0.0
  {}

  /** One draw of fillEntry: the key number and the random value bytes. */
  datatype Draw = Draw(k: nat, value: Bytes)

  function PairOf(vsz: nat, d: Draw): Pair { Pair(PrintKey(vsz, d.k), d.value) }

  function PairsOf(vsz: nat, batch: seq<Draw>): (ps: seq<Pair>)
    ensures |ps| == |batch|
    ensures forall i | 0 <= i < |batch| :: ps[i] == PairOf(vsz, batch[i])
  {
    seq(|batch|, i requires 0 <= i < |batch| => PairOf(vsz, batch[i]))
  }

  predicate GoodBatch(c: Config, batch: seq<Draw>)
  {
    |batch| == c.batch && forall i | 0 <= i < |batch| :: batch[i].k < c.KeySpace() && |batch[i].value| == c.vsz
  }

  datatype Phase = NotStarted | AtTest | Filled(batch: seq<Draw>) | Committed | Counted | Exited

  /** `written` is the worker's own total; `rounds` counts its finished batches. */
  datatype Worker = Worker(phase: Phase, rounds: nat, written: int)

  datatype MainPc = Adding(i: nat) | Spawning(i: nat) | Cancelling | Closing | Reporting | Finished(total: int)

  datatype State = State(
    main: MainPc, wg: int, workers: seq<Worker>, counter: int,
    store: Kv, committed: nat, open: bool,
    cancelled: bool, reporterLive: bool, seen: seq<int>)

  datatype Step =
    | Add | Spawn | Fill(w: nat, batch: seq<Draw>) | Commit(w: nat) | Count(w: nat) | Bump(w: nat) | Exit(w: nat)
    | WaitReturns | Cancel | Close | Print | Report | ReporterExit

  function Init(c: Config): State
  {
    State(Adding(0), 0, seq(c.workers, _ => Worker(NotStarted, 0, 0)), 0, map[], 0, true, false, true, [])
  }

  /** The loop condition `written < nw/float64(N)`. */
  predicate LoopTest(c: Config, w: Worker)
    requires c.Valid()
  {
    w.written as real < c.keys / c.workers as real
  }

  predicate Enabled(c: Config, s: State, step: Step)
    requires c.Valid()
  {
    match step
    case Add => s.main.Adding? && s.main.i < c.workers
    case Spawn => s.main.Spawning? && s.main.i < |s.workers|
    case Fill(w, batch) => w < |s.workers| && s.workers[w].phase.AtTest? && LoopTest(c, s.workers[w]) && GoodBatch(c, batch)
    case Commit(w) => w < |s.workers| && s.workers[w].phase.Filled?
    case Count(w) => w < |s.workers| && s.workers[w].phase.Committed?
    case Bump(w) => w < |s.workers| && s.workers[w].phase.Counted?
    case Exit(w) => w < |s.workers| && s.workers[w].phase.AtTest? && !LoopTest(c, s.workers[w])
    case WaitReturns => s.main.Adding? && s.main.i >= c.workers && s.wg == 0
    case Cancel => s.main.Cancelling?
    case Close => s.main.Closing?
    case Print => s.main.Reporting?
    case Report => s.reporterLive
    case ReporterExit => s.reporterLive && s.cancelled
  }

  function SetWorker(s: State, w: nat, worker: Worker): State
    requires w < |s.workers|
  {
    s.(workers := s.workers[w := worker])
  }

  function Do(c: Config, s: State, step: Step): State
    requires c.Valid() && Enabled(c, s, step)
  {
    match step
    case Add => s.(main := Spawning(s.main.i), wg := s.wg + 1)
    case Spawn => SetWorker(s, s.main.i, s.workers[s.main.i].(phase := AtTest)).(main := Adding(s.main.i + 1))
    case Fill(w, batch) => SetWorker(s, w, s.workers[w].(phase := Filled(batch)))
    case Commit(w) =>
      var batch := s.workers[w].phase.batch;
      SetWorker(s, w, s.workers[w].(phase := Committed))
      .(store := PutAll(s.store, PairsOf(c.vsz, batch)), committed := s.committed + |batch|)
    case Count(w) => SetWorker(s, w, s.workers[w].(phase := Counted)).(counter := s.counter + c.batch)
    case Bump(w) =>
      var x := s.workers[w];
      SetWorker(s, w, Worker(AtTest, x.rounds + 1, x.written + c.batch))
    case Exit(w) => SetWorker(s, w, s.workers[w].(phase := Exited)).(wg := s.wg - 1)
    case WaitReturns => s.(main := Cancelling)
    case Cancel => s.(main := Closing, cancelled := true)
    case Close => s.(main := Reporting, open := false)
    case Print => s.(main := Finished(s.counter))
    case Report => s.(seen := s.seen + [s.counter])
    case ReporterExit => s.(reporterLive := false)
  }

  ghost predicate CanRun(c: Config, s: State, steps: seq<Step>)
    requires c.Valid()
    decreases |steps|
  {
    steps == [] || (Enabled(c, s, steps[0]) && CanRun(c, Do(c, s, steps[0]), steps[1..]))
  }

  ghost function Run(c: Config, s: State, steps: seq<Step>): State
    requires c.Valid() && CanRun(c, s, steps)
    decreases |steps|
  {
    if steps == [] then s else Run(c, Do(c, s, steps[0]), steps[1..])
  }

  // ----- sums over the workers

  ghost function Total(f: Worker -> int, ws: seq<Worker>): int
  {
    if ws == [] then 0 else f(ws[0]) + Total(f, ws[1..])
  }

  lemma {:induction false} TotalUpdate(f: Worker -> int, ws: seq<Worker>, i: nat, x: Worker)
    requires i < |ws|
    ensures Total(f, ws[i := x]) == Total(f, ws) - f(ws[i]) + f(x)
  {
    if i == 0 {
      assert ws[i := x][1..] == ws[1..];
    } else {
      TotalUpdate(f, ws[1..], i - 1, x);
      assert ws[i := x][1..] == ws[1..][i - 1 := x];
    }
  }

  lemma {:induction false} TotalConstant(f: Worker -> int, ws: seq<Worker>, v: int)
    requires forall i | 0 <= i < |ws| :: f(ws[i]) == v
    ensures Total(f, ws) == |ws| * v
  {
    if ws != [] {
      TotalConstant(f, ws[1..], v);
      assert (|ws| - 1) * v + v == |ws| * v;
    }
  }

  lemma {:induction false} TotalCompare(f: Worker -> int, g: Worker -> int, ws: seq<Worker>, slack: int)
    requires forall i | 0 <= i < |ws| :: f(ws[i]) <= g(ws[i]) + slack
    ensures Total(f, ws) <= Total(g, ws) + |ws| * slack
  {
    if ws != [] {
      TotalCompare(f, g, ws[1..], slack);
      assert (|ws| - 1) * slack + slack == |ws| * slack;
    }
  }

  lemma {:induction false} TotalPositive(f: Worker -> int, ws: seq<Worker>, i: nat)
    requires i < |ws| && f(ws[i]) >= 1
    requires forall j | 0 <= j < |ws| :: f(ws[j]) >= 0
    ensures Total(f, ws) >= 1
  {
    TotalCompare(_ => 0, f, ws[1..], 0);
    TotalConstant(_ => 0, ws[1..], 0);
    if i > 0 { TotalPositive(f, ws[1..], i - 1); }
  }

  /** What a worker has added to the counter: its own total, plus one batch between the two adds. */
  ghost function Added(b: nat): Worker -> int
  {
    (w: Worker) => w.written + if w.phase.Counted? then b else 0
  }

  /** What a worker has committed. */
  ghost function CommittedBy(b: nat): Worker -> int
  {
    (w: Worker) => w.written + if w.phase.Counted? || w.phase.Committed? then b else 0
  }

  predicate IsLive(w: Worker) { !w.phase.NotStarted? && !w.phase.Exited? }

  ghost function Live(): Worker -> int
  {
    (w: Worker) => if IsLive(w) then 1 else 0
  }

  // ----- the invariant

  /** The keys a run may store. */
  function KeyUniverse(c: Config): set<Bytes>
  {
    set k: nat | 0 <= k < c.KeySpace() :: PrintKey(c.vsz, k)
  }

  predicate WorkerOk(c: Config, w: Worker)
    requires c.Valid()
  {
    && w.written == w.rounds * c.batch
    && w.rounds <= c.Rounds()
    && (w.phase.Filled? || w.phase.Committed? || w.phase.Counted? ==> w.rounds < c.Rounds() && c.KeySpace() > 0)
    && (w.phase.Filled? ==> GoodBatch(c, w.phase.batch))
    && (w.phase.NotStarted? ==> w.rounds == 0)
    && (w.phase.Exited? ==> w.rounds == c.Rounds())
    && (c.KeySpace() <= 0 ==> w.rounds == 0)
  }

  /** How many workers main has launched. */
  function Launched(c: Config, s: State): nat
  {
    if s.main.Adding? || s.main.Spawning? then s.main.i else c.workers
  }

  predicate LaunchOk(c: Config, s: State)
  {
    && |s.workers| == c.workers
    && Launched(c, s) <= c.workers
    && (s.main.Spawning? ==> s.main.i < c.workers)
    && (forall i | 0 <= i < |s.workers| :: s.workers[i].phase.NotStarted? <==> i >= Launched(c, s))
  }

  predicate Gated(s: State)
  {
    && (!s.main.Adding? && !s.main.Spawning? ==> forall i | 0 <= i < |s.workers| :: s.workers[i].phase.Exited?)
    && (s.open <==> !(s.main.Reporting? || s.main.Finished?))
    && (s.cancelled <==> s.main.Closing? || s.main.Reporting? || s.main.Finished?)
    && (s.main.Finished? ==> s.main.total == s.counter)
    && (!s.reporterLive ==> s.cancelled)
  }

  predicate ReadsOk(s: State)
  {
    && (forall i, j | 0 <= i < j < |s.seen| :: s.seen[i] <= s.seen[j])
    && (forall i | 0 <= i < |s.seen| :: 0 <= s.seen[i] <= s.counter)
    && s.counter >= 0
  }

  predicate StoreOk(c: Config, s: State)
  {
    && s.store.Keys <= KeyUniverse(c)
    && (forall k | k in s.store :: |s.store[k]| == c.vsz)
    && |s.store| <= s.committed
  }

  ghost predicate CountsOk(c: Config, s: State)
  {
    && s.counter == Total(Added(c.batch), s.workers)
    && s.committed == Total(CommittedBy(c.batch), s.workers)
    && s.wg == Total(Live(), s.workers) + if s.main.Spawning? then 1 else 0
  }

  ghost predicate Inv(c: Config, s: State)
    requires c.Valid()
  {
    && LaunchOk(c, s)
    && Gated(s)
    && ReadsOk(s)
    && StoreOk(c, s)
    && CountsOk(c, s)
    && forall i | 0 <= i < |s.workers| :: WorkerOk(c, s.workers[i])
  }

  // ----- the loop test in whole rounds

  lemma DivideLess(a: real, x: real, n: real)
    requires n > 0.0
    ensures a < x / n <==> a * n < x
  {
    var q := x / n;
    assert q * n == x;
    if a < q { assert (q - a) * n > 0.0; } else { assert (a - q) * n >= 0.0; }
  }

  lemma CeilingLess(r: int, q: real)
    ensures r as real < q <==> r < -((-q).Floor)
  {}

  lemma CastProduct(a: int, b: int)
    ensures (a * b) as real == a as real * b as real
  {}

  /** A worker that has finished r batches goes round again exactly while r < ceil(nw/(N*B)). */
  lemma LoopTestRounds(c: Config, w: Worker)
    requires c.Valid() && w.written == w.rounds * c.batch
    ensures LoopTest(c, w) <==> w.rounds < c.Rounds()
  {
    var n, m := c.workers as real, (c.workers * c.batch) as real;
    PositiveProduct(c.workers, c.batch);
    DivideLess(w.written as real, c.keys, n);
    assert w.written as real * n == w.rounds as real * m by {
      CastProduct(w.rounds, c.batch);
      CastProduct(c.workers, c.batch);
      assert w.written as real == w.rounds as real * c.batch as real;
      Reassociate(w.rounds as real, c.batch as real, n);
    }
    DivideLess(w.rounds as real, c.keys, m);
    CeilingLess(w.rounds, c.keys / m);
    if c.keys <= 0.0 { NonNegativeProduct(w.rounds as real, m); }
  }

  lemma Reassociate(x: real, y: real, z: real)
    ensures x * y * z == x * (z * y)
  {}

  lemma NonNegativeProduct(x: real, y: real)
    requires x >= 0.0 && y >= 0.0
    ensures x * y >= 0.0
  {}
}
