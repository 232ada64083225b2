/** What every interleaving of the populate program keeps, and how every run of it ends. */
module PopulateProof {
  import opened KeyCodec
  import opened KeyValue
  import opened Populate

  // ----- the invariant is inductive

  lemma InitInv(c: Config)
    requires c.Valid()
    ensures Inv(c, Init(c))
  {
    var ws := Init(c).workers;
    TotalConstant(Added(c.batch), ws, 0);
    TotalConstant(CommittedBy(c.batch), ws, 0);
    TotalConstant(Live(), ws, 0);
  }

  lemma CountsUpdate(c: Config, ws: seq<Worker>, i: nat, x: Worker)
    requires i < |ws|
    ensures Total(Added(c.batch), ws[i := x]) == Total(Added(c.batch), ws) - Added(c.batch)(ws[i]) + Added(c.batch)(x)
    ensures Total(CommittedBy(c.batch), ws[i := x])
         == Total(CommittedBy(c.batch), ws) - CommittedBy(c.batch)(ws[i]) + CommittedBy(c.batch)(x)
    ensures Total(Live(), ws[i := x]) == Total(Live(), ws) - Live()(ws[i]) + Live()(x)
  {
    TotalUpdate(Added(c.batch), ws, i, x);
    TotalUpdate(CommittedBy(c.batch), ws, i, x);
    TotalUpdate(Live(), ws, i, x);
  }

  lemma CommitKeepsStore(c: Config, s: State, batch: seq<Draw>)
    requires StoreOk(c, s) && GoodBatch(c, batch)
    ensures StoreOk(c, s.(store := PutAll(s.store, PairsOf(c.vsz, batch)), committed := s.committed + |batch|))
  {
    var ps := PairsOf(c.vsz, batch);
    var after := PutAll(s.store, ps);
    PutAllSize(s.store, ps);
    PutAllKeys(s.store, ps);
    forall k | k in after ensures k in KeyUniverse(c) && |after[k]| == c.vsz {
      PutAllValues(s.store, ps, k);
      if Pair(k, after[k]) in ps {
        var i :| 0 <= i < |ps| && ps[i] == Pair(k, after[k]);
        assert batch[i].k < c.KeySpace();
      }
    }
  }

  /** While some worker is live the WaitGroup is above zero, so main has not passed Wait. */
  lemma LiveHoldsGate(c: Config, s: State, w: nat)
    requires c.Valid() && Inv(c, s) && w < |s.workers| && IsLive(s.workers[w])
    ensures s.wg >= 1 && s.open && (s.main.Adding? || s.main.Spawning?)
  {
    TotalPositive(Live(), s.workers, w);
  }

  lemma NoneLiveWhenZero(c: Config, s: State)
    requires c.Valid() && Inv(c, s) && s.wg == 0
    ensures forall i | 0 <= i < |s.workers| :: !IsLive(s.workers[i])
  {
    forall i | 0 <= i < |s.workers| ensures !IsLive(s.workers[i]) {
      if IsLive(s.workers[i]) { LiveHoldsGate(c, s, i); }
    }
  }

  /** A live worker's own step touches neither main nor the other workers. */
  lemma WorkerStep(c: Config, s: State, w: nat, x: Worker)
    requires c.Valid() && Inv(c, s) && w < |s.workers| && IsLive(s.workers[w])
    requires WorkerOk(c, x) && !x.phase.NotStarted?
    ensures LaunchOk(c, SetWorker(s, w, x)) && Gated(SetWorker(s, w, x))
    ensures var ws := SetWorker(s, w, x).workers; forall i | 0 <= i < |ws| :: WorkerOk(c, ws[i])
  {
    LiveHoldsGate(c, s, w);
  }

  lemma FillInv(c: Config, s: State, w: nat, batch: seq<Draw>)
    requires c.Valid() && Inv(c, s) && Enabled(c, s, Fill(w, batch))
    ensures Inv(c, Do(c, s, Fill(w, batch)))
  {
    var x := s.workers[w].(phase := Filled(batch));
    LoopTestRounds(c, s.workers[w]);
    FillHasKeys(c, batch);
    WorkerStep(c, s, w, x);
    CountsUpdate(c, s.workers, w, x);
  }

  lemma CommitInv(c: Config, s: State, w: nat)
    requires c.Valid() && Inv(c, s) && Enabled(c, s, Commit(w))
    ensures Inv(c, Do(c, s, Commit(w)))
  {
    var x := s.workers[w].(phase := Committed);
    WorkerStep(c, s, w, x);
    CountsUpdate(c, s.workers, w, x);
    CommitKeepsStore(c, s, s.workers[w].phase.batch);
  }

  lemma CountInv(c: Config, s: State, w: nat)
    requires c.Valid() && Inv(c, s) && Enabled(c, s, Count(w))
    ensures Inv(c, Do(c, s, Count(w)))
  {
    var x := s.workers[w].(phase := Counted);
    WorkerStep(c, s, w, x);
    CountsUpdate(c, s.workers, w, x);
    LiveHoldsGate(c, s, w);
  }

  lemma BumpInv(c: Config, s: State, w: nat)
    requires c.Valid() && Inv(c, s) && Enabled(c, s, Bump(w))
    ensures Inv(c, Do(c, s, Bump(w)))
  {
    var y := s.workers[w];
    var x := Worker(AtTest, y.rounds + 1, y.written + c.batch);
    assert (y.rounds + 1) * c.batch == y.rounds * c.batch + c.batch;
    WorkerStep(c, s, w, x);
    CountsUpdate(c, s.workers, w, x);
  }

  lemma ExitInv(c: Config, s: State, w: nat)
    requires c.Valid() && Inv(c, s) && Enabled(c, s, Exit(w))
    ensures Inv(c, Do(c, s, Exit(w)))
  {
    var x := s.workers[w].(phase := Exited);
    LoopTestRounds(c, s.workers[w]);
    WorkerStep(c, s, w, x);
    CountsUpdate(c, s.workers, w, x);
  }

  lemma SpawnInv(c: Config, s: State)
    requires c.Valid() && Inv(c, s) && Enabled(c, s, Spawn)
    ensures Inv(c, Do(c, s, Spawn))
  {
    CountsUpdate(c, s.workers, s.main.i, s.workers[s.main.i].(phase := AtTest));
  }

  /** Every step of every goroutine keeps the invariant. */
  lemma StepInv(c: Config, s: State, step: Step)
    requires c.Valid() && Inv(c, s) && Enabled(c, s, step)
    ensures Inv(c, Do(c, s, step))
  {
    match step
    case Spawn => SpawnInv(c, s);
    case Fill(w, batch) => FillInv(c, s, w, batch);
    case Commit(w) => CommitInv(c, s, w);
    case Count(w) => CountInv(c, s, w);
    case Bump(w) => BumpInv(c, s, w);
    case Exit(w) => ExitInv(c, s, w);
    case WaitReturns => NoneLiveWhenZero(c, s);
    case _ =>
  }

  lemma FillHasKeys(c: Config, batch: seq<Draw>)
    requires c.Valid() && GoodBatch(c, batch)
    ensures c.KeySpace() > 0
  {
    assert batch[0].k < c.KeySpace();
  }

  lemma {:induction false} RunInv(c: Config, s: State, steps: seq<Step>)
    requires c.Valid() && Inv(c, s) && CanRun(c, s, steps)
    ensures Inv(c, Run(c, s, steps))
    decreases |steps|
  {
    if steps != [] {
      StepInv(c, s, steps[0]);
      RunInv(c, Do(c, s, steps[0]), steps[1..]);
    }
  }

  /** The states some interleaving reaches. */
  ghost predicate Reachable(c: Config, s: State)
    requires c.Valid()
  {
    exists steps :: CanRun(c, Init(c), steps) && Run(c, Init(c), steps) == s
  }

  lemma ReachableInv(c: Config, s: State)
    requires c.Valid() && Reachable(c, s)
    ensures Inv(c, s)
  {
    var steps :| CanRun(c, Init(c), steps) && Run(c, Init(c), steps) == s;
    InitInv(c);
    RunInv(c, Init(c), steps);
  }

  // ----- safety in every reachable state

  ghost function OwnTotal(): Worker -> int { (w: Worker) => w.written }

  /** Workers between the atomic add and the bump of their own total. */
  ghost function BetweenAdds(): Worker -> int { (w: Worker) => if w.phase.Counted? then 1 else 0 }

  /** Workers between a commit and the atomic add. */
  ghost function Uncounted(): Worker -> int { (w: Worker) => if w.phase.Committed? then 1 else 0 }

  lemma {:induction false} SplitTotals(b: nat, ws: seq<Worker>)
    ensures Total(Added(b), ws) == Total(OwnTotal(), ws) + b * Total(BetweenAdds(), ws)
    ensures Total(CommittedBy(b), ws) == Total(Added(b), ws) + b * Total(Uncounted(), ws)
  {
    if ws != [] {
      SplitTotals(b, ws[1..]);
      Distribute(b, BetweenAdds()(ws[0]), Total(BetweenAdds(), ws[1..]));
      Distribute(b, Uncounted()(ws[0]), Total(Uncounted(), ws[1..]));
    }
  }

  lemma Distribute(b: int, x: int, y: int)
    ensures b * (x + y) == b * x + b * y
  {}

  /**
    * The counter is the sum of the workers' own totals plus one batch for each worker between its
    * two adds, and it trails the committed entries by one batch for each worker between its commit
    * and its add, so by at most N*B.
    */
  lemma CounterConservation(c: Config, s: State)
    requires c.Valid() && Reachable(c, s)
    ensures s.counter == Total(OwnTotal(), s.workers) + c.batch * Total(BetweenAdds(), s.workers)
    ensures s.committed == s.counter + c.batch * Total(Uncounted(), s.workers)
    ensures 0 <= s.committed - s.counter <= c.workers * c.batch
  {
    ReachableInv(c, s);
    SplitTotals(c.batch, s.workers);
    TotalCompare(Added(c.batch), CommittedBy(c.batch), s.workers, 0);
    TotalCompare(CommittedBy(c.batch), Added(c.batch), s.workers, c.batch);
  }

  /** The counter never passes the final total, so it wraps no integer that can hold the total. */
  lemma CounterBounded(c: Config, s: State)
    requires c.Valid() && Reachable(c, s)
    ensures 0 <= s.counter <= s.committed <= c.TotalKeys()
  {
    ReachableInv(c, s);
    CounterConservation(c, s);
    var share := (w: Worker) => c.batch * c.Rounds();
    forall i | 0 <= i < |s.workers| ensures CommittedBy(c.batch)(s.workers[i]) <= share(s.workers[i]) {
      WorkerShare(c, s.workers[i]);
    }
    TotalCompare(CommittedBy(c.batch), share, s.workers, 0);
    TotalConstant(share, s.workers, c.batch * c.Rounds());
    Associate(c.workers, c.batch, c.Rounds());
  }

  lemma Associate(x: int, y: int, z: int)
    ensures x * (y * z) == x * y * z
  {}

  lemma WorkerShare(c: Config, w: Worker)
    requires c.Valid() && WorkerOk(c, w)
    ensures CommittedBy(c.batch)(w) <= c.batch * c.Rounds()
  {
    var slack := c.Rounds() - w.rounds;
    assert c.batch * c.Rounds() == w.rounds * c.batch + c.batch * slack;
    if slack >= 1 { assert c.batch * slack >= c.batch; }
  }

  /** The WaitGroup counts the started workers that have not called Done, and is never negative. */
  lemma WaitGroupExact(c: Config, s: State)
    requires c.Valid() && Reachable(c, s)
    ensures s.wg == Total(Live(), s.workers) + (if s.main.Spawning? then 1 else 0)
    ensures s.wg >= 0
    ensures forall i | 0 <= i < |s.workers| :: IsLive(s.workers[i]) ==> s.wg >= 1
  {
    ReachableInv(c, s);
    TotalCompare((w: Worker) => 0, Live(), s.workers, 0);
    TotalConstant((w: Worker) => 0, s.workers, 0);
    forall i | 0 <= i < |s.workers| && IsLive(s.workers[i]) ensures s.wg >= 1 { LiveHoldsGate(c, s, i); }
  }

  predicate PastWait(s: State) { !s.main.Adding? && !s.main.Spawning? }

  predicate IsWorkerStep(step: Step)
  {
    step.Fill? || step.Commit? || step.Count? || step.Bump? || step.Exit?
  }

  /**
    * Once Wait has returned, so before the store is closed or a total printed, every worker has made
    * its last commit and its last add, none of them can step again, and the counter has its final value.
    */
  lemma CloseAfterLastCommit(c: Config, s: State)
    requires c.Valid() && Reachable(c, s) && PastWait(s)
    ensures forall i | 0 <= i < |s.workers| :: s.workers[i].phase.Exited?
    ensures forall step | IsWorkerStep(step) :: !Enabled(c, s, step)
    ensures s.counter == s.committed == c.TotalKeys()
  {
    ReachableInv(c, s);
    ExitedTotals(c, s.workers);
    Associate(c.workers, c.batch, c.Rounds());
  }

  lemma ExitedShare(c: Config, w: Worker)
    requires c.Valid() && WorkerOk(c, w) && w.phase.Exited?
    ensures Added(c.batch)(w) == CommittedBy(c.batch)(w) == c.batch * c.Rounds()
  {}

  /** Workers that have all exited have added and committed the same. */
  lemma ExitedTotals(c: Config, ws: seq<Worker>)
    requires c.Valid() && forall i | 0 <= i < |ws| :: WorkerOk(c, ws[i]) && ws[i].phase.Exited?
    ensures Total(Added(c.batch), ws) == Total(CommittedBy(c.batch), ws) == |ws| * (c.batch * c.Rounds())
  {
    var share := c.batch * c.Rounds();
    forall i | 0 <= i < |ws| ensures Added(c.batch)(ws[i]) == CommittedBy(c.batch)(ws[i]) == share {
      ExitedShare(c, ws[i]);
    }
    TotalConstant(Added(c.batch), ws, share);
    TotalConstant(CommittedBy(c.batch), ws, share);
  }

  lemma ClosedMeansPastWait(c: Config, s: State)
    requires c.Valid() && Reachable(c, s) && (!s.open || s.cancelled || s.main.Finished?)
    ensures PastWait(s)
  {
    ReachableInv(c, s);
  }

  lemma CeilingBounds(x: real, q: real, r: int, m: int)
    requires m >= 1 && r == -((-q).Floor) && x == q * m as real
    ensures x <= (m * r) as real < x + m as real
  {
    CastProduct(m, r);
    ScaleBounds(x, q, r as real, m as real, (m * r) as real);
  }

  lemma ScaleBounds(x: real, q: real, r: real, m: real, t: real)
    requires q <= r < q + 1.0 && m > 0.0 && x == q * m && t == m * r
    ensures x <= t < x + m
  {
    var d := r - q;
    assert t == x + d * m;
    assert 0.0 <= d * m;
    assert (1.0 - d) * m > 0.0;
  }

  lemma DivideTimes(x: real, d: real)
    requires d > 0.0
    ensures (x / d) * d == x
  {}

  /** At least nw, and less than one round of all workers above it. */
  lemma TotalBounds(c: Config)
    requires c.Valid() && c.keys > 0.0
    ensures c.keys <= c.TotalKeys() as real < c.keys + (c.workers * c.batch) as real
  {
    PositiveProduct(c.workers, c.batch);
    var m := c.workers * c.batch;
    DivideTimes(c.keys, m as real);
    CeilingBounds(c.keys, c.keys / m as real, c.Rounds(), m);
  }

  /**
    * Whatever the schedule, the total printed is exactly N*B*ceil(nw/(N*B)): at least nw and less
    * than one round of all workers above it.
    */
  lemma PrintedTotal(c: Config, s: State)
    requires c.Valid() && Reachable(c, s) && s.main.Finished?
    ensures s.main.total == c.TotalKeys()
    ensures c.keys > 0.0 ==> c.keys <= s.main.total as real < c.keys + (c.workers * c.batch) as real
    ensures c.keys <= 0.0 ==> s.main.total == 0
  {
    ReachableInv(c, s);
    ClosedMeansPastWait(c, s);
    CloseAfterLastCommit(c, s);
    if c.keys > 0.0 { TotalBounds(c); }
  }

  /** The reporter's successive reads never decrease and never pass what is printed at the end. */
  lemma ReportsNeverDecrease(c: Config, s: State)
    requires c.Valid() && Reachable(c, s)
    ensures forall i, j | 0 <= i < j < |s.seen| :: s.seen[i] <= s.seen[j]
    ensures forall i | 0 <= i < |s.seen| :: 0 <= s.seen[i] <= s.counter <= c.TotalKeys()
  {
    ReachableInv(c, s);
    CounterBounded(c, s);
  }

  lemma {:induction false} UniverseSize(vsz: nat, n: nat)
    ensures |set k: nat | 0 <= k < n :: PrintKey(vsz, k)| == n
  {
    var all := set k: nat | 0 <= k < n :: PrintKey(vsz, k);
    if n == 0 {
      assert all == {};
    } else {
      var fewer := set k: nat | 0 <= k < n - 1 :: PrintKey(vsz, k);
      UniverseSize(vsz, n - 1);
      assert all == fewer + {PrintKey(vsz, n - 1)};
      if PrintKey(vsz, n - 1) in fewer {
        var k: nat :| k < n - 1 && PrintKey(vsz, k) == PrintKey(vsz, n - 1);
        PrintInjective(vsz, k, vsz, n - 1);
      }
    }
  }

  lemma SubsetSize<T>(a: set<T>, b: set<T>)
    requires a <= b
    ensures |a| <= |b|
  {
    assert |b| == |a| + |b - a| by { assert b == a + (b - a); }
  }

  /** Below int(nw) is the same as leaving room for one more below nw. */
  lemma BelowKeySpace(c: Config, k: nat)
    ensures k < c.KeySpace() <==> (k + 1) as real <= c.keys
  {
    KeySpaceTruncates(c);
  }

  /**
    * What any run leaves in the store: printed keys of numbers k with k + 1 <= nw, values of the
    * configured size, and no more keys than entries committed or numbers to choose from.
    */
  lemma StoredKeys(c: Config, s: State)
    requires c.Valid() && Reachable(c, s)
    ensures forall key | key in s.store :: exists k: nat :: (k + 1) as real <= c.keys && key == PrintKey(c.vsz, k)
    ensures forall key | key in s.store :: |s.store[key]| == c.vsz
    ensures |s.store| <= s.committed
    ensures if c.keys >= 0.0 then |s.store| as real <= c.keys else s.store == map[]
    ensures s.main.Finished? ==> |s.store| <= s.main.total
  {
    ReachableInv(c, s);
    KeySpaceTruncates(c);
    if c.KeySpace() >= 0 {
      UniverseSize(c.vsz, c.KeySpace());
      SubsetSize(s.store.Keys, KeyUniverse(c));
    }
    forall key | key in s.store ensures exists k: nat :: (k + 1) as real <= c.keys && key == PrintKey(c.vsz, k) {
      assert key in KeyUniverse(c);
      var k: nat :| k < c.KeySpace() && key == PrintKey(c.vsz, k);
      BelowKeySpace(c, k);
    }
    if s.main.Finished? {
      ClosedMeansPastWait(c, s);
      CloseAfterLastCommit(c, s);
    }
  }

  // ----- what the reporter reads

  /** The reads of a run, from its steps alone: each is B times the number of adds made before it. */
  function Reads(b: nat, steps: seq<Step>, adds: nat): seq<int>
  {
    if steps == [] then [] else
    match steps[0]
    case Report => [b * adds] + Reads(b, steps[1..], adds)
    case Count(_) => Reads(b, steps[1..], adds + 1)
    case _ => Reads(b, steps[1..], adds)
  }

  lemma {:induction false} RunReads(c: Config, s: State, steps: seq<Step>, adds: nat)
    requires c.Valid() && CanRun(c, s, steps) && s.counter == c.batch * adds
    ensures Run(c, s, steps).seen == s.seen + Reads(c.batch, steps, adds)
    decreases |steps|
  {
    if steps != [] {
      var adds' := if steps[0].Count? then adds + 1 else adds;
      Distribute(c.batch, adds, 1);
      RunReads(c, Do(c, s, steps[0]), steps[1..], adds');
    }
  }

  /** In every run the reporter has shown exactly what had been added to the counter at each of its ticks. */
  lemma ReportsExact(c: Config, steps: seq<Step>)
    requires c.Valid() && CanRun(c, Init(c), steps)
    ensures Run(c, Init(c), steps).seen == Reads(c.batch, steps, 0)
  {
    RunReads(c, Init(c), steps, 0);
  }

  /** While the reporter lives it can always read, and reads what the workers account for at that moment. */
  lemma ReportReads(c: Config, s: State)
    requires c.Valid() && Reachable(c, s) && s.reporterLive
    ensures Enabled(c, s, Report)
    ensures Do(c, s, Report).seen
         == s.seen + [Total(OwnTotal(), s.workers) + c.batch * Total(BetweenAdds(), s.workers)]
  {
    CounterConservation(c, s);
  }
}
