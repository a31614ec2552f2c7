/** Exactly which states a generation run gets to, and what its workers can do in them. */
module GenerationStates {
  import opened GenerationRun
  import opened Options

  /** A worker holds its permit until it has released it. */
  predicate Holds(v: Worker) {
    v.phase != Released && v.phase != Finished
  }

  function Holders(workers: seq<Worker>): (n: nat)
    ensures n <= |workers|
  {
    if workers == [] then 0
    else Holders(workers[..|workers| - 1]) + if Holds(workers[|workers| - 1]) then 1 else 0
  }

  /** Every worker found a permit when it was launched: of those before it, fewer than twenty still hold theirs. */
  predicate InTurn(workers: seq<Worker>) {
    workers == []
    || var before := workers[..|workers| - 1]; InTurn(before) && Holders(before) < 20
  }

  lemma {:induction false} HoldersAre(workers: seq<Worker>)
    ensures Holders(workers) == |workers| - AtLeast(workers, 3)
    decreases |workers|
  {
    if workers != [] {
      var n := |workers| - 1;
      HoldersAre(workers[..n]);
      AtLeastSnoc(workers[..n], workers[n], 3);
      assert workers == workers[..n] + [workers[n]];
    }
  }

  // ---------- every state of a run is in turn ----------

  lemma {:induction false} HoldersUpdate(workers: seq<Worker>, w: nat, v: Worker)
    requires w < |workers| && (Holds(v) ==> Holds(workers[w]))
    ensures Holders(workers[w := v]) <= Holders(workers)
    decreases |workers|
  {
    var n := |workers| - 1;
    var workers' := workers[w := v];
    if w < n {
      HoldersUpdate(workers[..n], w, v);
      assert workers'[..n] == workers[..n][w := v];
    } else {
      assert workers'[..n] == workers[..n];
    }
  }

  lemma {:induction false} InTurnUpdate(workers: seq<Worker>, w: nat, v: Worker)
    requires InTurn(workers) && w < |workers| && (Holds(v) ==> Holds(workers[w]))
    ensures InTurn(workers[w := v])
    decreases |workers|
  {
    var n := |workers| - 1;
    var workers' := workers[w := v];
    if w < n {
      InTurnUpdate(workers[..n], w, v);
      HoldersUpdate(workers[..n], w, v);
      assert workers'[..n] == workers[..n][w := v];
    } else {
      assert workers'[..n] == workers[..n];
    }
  }

  lemma {:induction false} InTurnSnoc(workers: seq<Worker>, v: Worker)
    requires InTurn(workers) && Holders(workers) < 20
    ensures InTurn(workers + [v])
  {
    assert (workers + [v])[..|workers|] == workers;
  }

  lemma {:induction false} InTurnStep(s: State, step: Step)
    requires Inv(s) && InTurn(s.workers) && Enabled(s, step)
    ensures InTurn(Apply(s, step).workers)
  {
    match step
    case Acquire =>
    case EnterWait =>
    case WaitReturns =>
    case Spawn =>
      HoldersAre(s.workers);
      InTurnSnoc(s.workers, NewWorker(s.cores[|s.workers|]));
    case _ =>
      var v := Apply(s, step).workers[step.w];
      assert Apply(s, step).workers == s.workers[step.w := v];
      InTurnUpdate(s.workers, step.w, v);
  }

  lemma {:induction false} InTurnRun(s: State, steps: seq<Step>)
    requires Inv(s) && InTurn(s.workers) && IsRun(s, steps)
    ensures InTurn(After(s, steps).workers)
    decreases |steps|
  {
    if steps != [] {
      StepKeeps(s, steps[0]);
      InTurnStep(s, steps[0]);
      InTurnRun(Apply(s, steps[0]), steps[1..]);
    }
  }

  // ---------- one worker on its own ----------

  /** The steps of worker `w` and of its goroutine. */
  predicate Own(step: Step, w: nat) {
    !(step.Acquire? || step.Spawn? || step.EnterWait? || step.WaitReturns?) && step.w == w
  }

  predicate AllOwn(steps: seq<Step>, w: nat) {
    forall step :: step in steps ==> Own(step, w)
  }

  /** A run of worker `w` alone makes it `v`. */
  ghost predicate Becomes(s: State, s': State, w: nat, v: Worker) {
    && w < |s.workers| && s'.workers == s.workers[w := v]
    && s'.cores == s.cores && s'.main == s.main && !s'.panicked
    && exists steps :: LeadsTo(s, steps, s') && AllOwn(steps, w)
  }

  /** What a worker that is `u` may still become: it loses nothing it has, what its goroutine has done stays when
      that has ended, and so does its outcome. */
  predicate Precedes(u: Worker, v: Worker) {
    && v.core == u.core && (u.sent ==> v.sent) && (u.expired ==> v.expired)
    && (u.done != None ==> v.done == u.done && v.sent == u.sent)
    && Rank(u.phase) <= Rank(v.phase) && (u.outcome != None ==> v.outcome == u.outcome)
  }

  lemma {:induction false} BecomesNext(s: State, s': State, w: nat, v: Worker, step: Step, v': Worker)
    requires Becomes(s, s', w, v) && Enabled(s', step) && Own(step, w) && Moves(s', step, w, v')
    ensures Becomes(s, Apply(s', step), w, v')
  {
    var steps :| LeadsTo(s, steps, s') && AllOwn(steps, w);
    OneStep(s', step);
    RunsJoin(s, steps, s', [step], Apply(s', step));
    assert s'.workers[w := v'] == s.workers[w := v'];
    assert AllOwn(steps + [step], w);
  }

  /** The step makes the worker `v`, and does no more to the workers and the main loop. */
  predicate Moves(s: State, step: Step, w: nat, v: Worker)
    requires Enabled(s, step)
  {
    && w < |s.workers| && Apply(s, step).workers == s.workers[w := v]
    && Apply(s, step).cores == s.cores && Apply(s, step).main == s.main && !Apply(s, step).panicked
  }

  /** The next step on the way from `u` to `v`. */
  function Next(u: Worker, v: Worker, w: nat): Step {
    if v.sent && !u.sent then Send(w)
    else if v.done != None && u.done == None then Complete(w, v.done.value)
    else if v.expired && !u.expired then Expire(w)
    else match u.phase
      case Selecting => if v.outcome == Some(TimedOut) then TakeTimeout(w) else TakeResult(w)
      case Deciding => Signal(w)
      case Signalled => Release(w)
      case _ => Process(w)
  }

  function Moved(u: Worker, v: Worker): Worker {
    if v.sent && !u.sent then u.(sent := true)
    else if v.done != None && u.done == None then u.(done := v.done)
    else if v.expired && !u.expired then u.(expired := true)
    else match u.phase
      case Selecting => u.(phase := Deciding, outcome := v.outcome)
      case Deciding => u.(phase := Signalled)
      case Signalled => u.(phase := Released)
      case _ => u.(phase := Finished)
  }

  lemma {:induction false} NextMoves(s: State, w: nat, u: Worker, v: Worker)
    requires !s.panicked && w < |s.workers| && s.workers[w] == u && u != v
    requires WorkerOk(u) && WorkerOk(v) && Precedes(u, v) && (s.main == Closed ==> v.sent == u.sent)
    ensures Own(Next(u, v, w), w) && Enabled(s, Next(u, v, w)) && Moves(s, Next(u, v, w), w, Moved(u, v))
    ensures Precedes(Moved(u, v), v) && Work(Moved(u, v)) < Work(u) && WorkerOk(Moved(u, v))
    ensures s.main == Closed ==> Moved(u, v).sent == v.sent
  {
    var ended := (v.sent ==> u.sent) && (v.done != None ==> u.done != None) && (v.expired ==> u.expired);
    if ended && u.phase == Selecting && v.outcome != Some(TimedOut) {
      assert v.phase != Selecting && u.done == v.done;
      match v.outcome.value {
        case TimedOut =>
        case Counted(result) => assert v.done == Some(result) && v.outcome == Some(Counted(u.done.value));
      }
      assert Next(u, v, w) == TakeResult(w);
    }
  }

  lemma {:induction false} BecomesLater(s: State, s1: State, w: nat, u: Worker, v: Worker) returns (s': State)
    requires Becomes(s, s1, w, u) && WorkerOk(u) && WorkerOk(v) && Precedes(u, v)
    requires s.main == Closed ==> v.sent == u.sent
    ensures Becomes(s, s', w, v)
    decreases Work(u)
  {
    if u == v {
      s' := s1;
    } else {
      NextMoves(s1, w, u, v);
      BecomesNext(s, s1, w, u, Next(u, v, w), Moved(u, v));
      s' := BecomesLater(s, Apply(s1, Next(u, v, w)), w, Moved(u, v), v);
    }
  }

  lemma {:induction false} PrecedesStep(s: State, step: Step, w: nat)
    requires Enabled(s, step) && Own(step, w) && WorkerOk(s.workers[w])
    ensures Apply(s, step).main == s.main && |Apply(s, step).workers| == |s.workers|
    ensures Precedes(s.workers[w], Apply(s, step).workers[w])
    ensures s.main == Closed && !Apply(s, step).panicked ==> Apply(s, step).workers[w].sent == s.workers[w].sent
  {
  }

  lemma PrecedesTwice(u: Worker, v: Worker, x: Worker)
    requires Precedes(u, v) && Precedes(v, x)
    ensures Precedes(u, x)
  {
  }

  lemma {:induction false} PanicStays(s: State, steps: seq<Step>)
    requires IsRun(s, steps) && s.panicked
    ensures After(s, steps).panicked
  {
  }

  lemma {:induction false} PrecedesRun(s: State, steps: seq<Step>, w: nat)
    requires Inv(s) && IsRun(s, steps) && AllOwn(steps, w) && w < |s.workers|
    ensures Inv(After(s, steps)) && |After(s, steps).workers| == |s.workers|
    ensures Precedes(s.workers[w], After(s, steps).workers[w])
    ensures s.main == Closed && !After(s, steps).panicked ==> After(s, steps).workers[w].sent == s.workers[w].sent
    decreases |steps|
  {
    if steps != [] {
      var s1 := Apply(s, steps[0]);
      assert steps[0] in steps && WorkerOk(s.workers[w]);
      assert AllOwn(steps[1..], w) by {
        assert forall step :: step in steps[1..] ==> step in steps;
      }
      StepKeeps(s, steps[0]);
      PrecedesStep(s, steps[0], w);
      PrecedesRun(s1, steps[1..], w);
      PrecedesTwice(s.workers[w], s1.workers[w], After(s, steps).workers[w]);
      if s1.panicked {
        PanicStays(s1, steps[1..]);
      }
    }
  }

  /** A worker waits for no other and not for the main loop: from any state, its own steps alone make it whatever
      may become of it, and nothing else. */
  lemma {:induction false} WorkerAlone(s: State, w: nat, v: Worker)
    requires Inv(s) && !s.panicked && w < |s.workers|
    ensures (exists s' :: Becomes(s, s', w, v))
       <==> WorkerOk(v) && Precedes(s.workers[w], v) && (s.main == Closed ==> v.sent == s.workers[w].sent)
  {
    var u := s.workers[w];
    assert WorkerOk(u);
    if WorkerOk(v) && Precedes(u, v) && (s.main == Closed ==> v.sent == u.sent) {
      assert LeadsTo(s, [], s) && AllOwn([], w) && s.workers[w := u] == s.workers;
      var s' := BecomesLater(s, s, w, u, v);
    }
    if s' :| Becomes(s, s', w, v) {
      var steps :| LeadsTo(s, steps, s') && AllOwn(steps, w);
      PrecedesRun(s, steps, w);
      assert s'.workers[w] == v && WorkerOk(v);
    }
  }

  // ---------- the reachable states ----------

  /** The workers, the main loop and the models determine the rest. */
  lemma {:induction false} Determined(s: State, t: State)
    requires Inv(s) && Inv(t) && s.workers == t.workers && s.main == t.main && s.cores == t.cores
    requires s.panicked == t.panicked
    ensures s == t
  {
  }

  /** The main loop has launched these workers, and they have got where they are. */
  ghost predicate Launched(s: State, cores: seq<bool>, workers: seq<Worker>) {
    Reachable(s, cores) && s.workers == workers && s.main == Looping && !s.panicked
  }

  lemma {:induction false} LaunchNext(s: State, cores: seq<bool>, workers: seq<Worker>) returns (s': State)
    requires Launched(s, cores, workers) && |workers| < |cores| && Holders(workers) < 20
    ensures Launched(s', cores, workers + [NewWorker(cores[|workers|])])
  {
    ReachableInv(s, cores);
    HoldersAre(workers);
    ReachableNext(Init(cores), s, Acquire);
    var s1 := Apply(s, Acquire);
    ReachableNext(Init(cores), s1, Spawn);
    s' := Apply(s1, Spawn);
  }

  lemma {:induction false} LaunchedLater(s: State, cores: seq<bool>, workers: seq<Worker>, v: Worker)
    returns (s': State)
    requires Launched(s, cores, workers + [NewWorker(v.core)]) && WorkerOk(v)
    ensures Launched(s', cores, workers + [v])
  {
    var w := |workers|;
    ReachableInv(s, cores);
    WorkerAlone(s, w, v);
    s' :| Becomes(s, s', w, v);
    var steps :| LeadsTo(s, steps, s') && AllOwn(steps, w);
    ReachableJoin(Init(cores), s, s');
    assert s.workers[w := v] == workers + [v];
  }

  /** Any workers in turn can be launched and got where they are, one after the other. */
  lemma {:induction false} LaunchAll(cores: seq<bool>, workers: seq<Worker>) returns (s: State)
    requires |workers| <= |cores| && forall w :: 0 <= w < |workers| ==> workers[w].core == cores[w]
    requires WorkersOk(workers) && InTurn(workers)
    ensures Launched(s, cores, workers)
    decreases |workers|
  {
    if workers == [] {
      s := Init(cores);
      assert LeadsTo(s, [], s);
    } else {
      var n := |workers| - 1;
      var first := workers[..n];
      assert forall v :: v in first ==> v in workers;
      s := LaunchAll(cores, first);
      s := LaunchNext(s, cores, first);
      s := LaunchedLater(s, cores, first, workers[n]);
      assert first + [workers[n]] == workers;
    }
  }

  lemma {:induction false} MainGetsThere(s: State, cores: seq<bool>, t: State)
    requires Launched(s, cores, t.workers) && Inv(t) && t.cores == cores && !t.panicked
    ensures Reachable(t, cores)
  {
    var start := Init(cores);
    ReachableInv(s, cores);
    var s' := s;
    if t.main == Holding {
      ReachableNext(start, s, Acquire);
      s' := Apply(s, Acquire);
    } else if t.main != Looping {
      ReachableNext(start, s, EnterWait);
      s' := Apply(s, EnterWait);
      if t.main == Closed {
        ReachableNext(start, s', WaitReturns);
        s' := Apply(s', WaitReturns);
      }
    }
    ReachableInv(s', cores);
    Determined(s', t);
  }

  lemma {:induction false} PanicGetsThere(calm: State, cores: seq<bool>, w: nat)
    requires Reachable(calm, cores) && !calm.panicked && calm.main == Closed
    requires w < |calm.workers| && MaySend(calm.workers[w])
    ensures Reachable(calm.(panicked := true), cores)
  {
    ReachableNext(Init(cores), calm, Send(w));
  }

  lemma {:induction false} CalmState(s: State)
    requires Inv(s)
    ensures Inv(s.(panicked := false))
  {
  }

  lemma {:induction false} GetsThere(s: State, cores: seq<bool>)
    requires s.cores == cores && Inv(s) && InTurn(s.workers)
    ensures Reachable(s, cores)
  {
    if s.panicked {
      var calm := s.(panicked := false);
      CalmState(s);
      CalmGetsThere(calm, cores);
      var w :| 0 <= w < |s.workers| && MaySend(s.workers[w]);
      PanicGetsThere(calm, cores, w);
      assert calm.(panicked := true) == s;
    } else {
      CalmGetsThere(s, cores);
    }
  }

  lemma {:induction false} CalmGetsThere(s: State, cores: seq<bool>)
    requires s.cores == cores && Inv(s) && InTurn(s.workers) && !s.panicked
    ensures Reachable(s, cores)
  {
    var s0 := LaunchAll(cores, s.workers);
    MainGetsThere(s0, cores, s);
  }

  lemma {:induction false} StaysInTurn(start: State, s: State)
    requires Inv(start) && InTurn(start.workers) && ReachableFrom(start, s)
    ensures InTurn(s.workers)
  {
    var steps :| LeadsTo(start, steps, s);
    InTurnRun(start, steps);
  }

  lemma {:induction false} ReachableInTurn(s: State, cores: seq<bool>)
    requires Reachable(s, cores)
    ensures InTurn(s.workers)
  {
    InitInv(cores);
    StaysInTurn(Init(cores), s);
  }

  /** Some run gets to a state exactly when the state is consistent and its workers are in turn: nothing but the
      permits keeps workers from being anywhere at the same time. */
  lemma {:induction false} ReachableIff(s: State, cores: seq<bool>)
    ensures Reachable(s, cores) <==> s.cores == cores && Inv(s) && InTurn(s.workers)
  {
    if Reachable(s, cores) {
      ReachableInv(s, cores);
      ReachableInTurn(s, cores);
    } else if s.cores == cores && Inv(s) && InTurn(s.workers) {
      GetsThere(s, cores);
    }
  }

  // ---------- twenty at a time ----------

  lemma {:induction false} AllHold(workers: seq<Worker>)
    requires forall v :: v in workers ==> v.phase == Selecting
    ensures Holders(workers) == |workers| && (|workers| <= 20 ==> InTurn(workers))
    decreases |workers|
  {
    if workers != [] {
      var n := |workers| - 1;
      assert workers[n] in workers;
      AllHold(workers[..n]);
    }
  }

  /** Up to twenty models are generated at the same time. */
  lemma {:induction false} TwentyTogether(cores: seq<bool>, n: nat) returns (s: State)
    requires n <= |cores| && n <= 20
    ensures Reachable(s, cores) && s.main == Looping && !s.panicked
    ensures |s.workers| == n && s.free == 20 - n
    ensures forall w :: 0 <= w < n ==> s.workers[w] == NewWorker(cores[w])
  {
    var workers := seq(n, i requires 0 <= i < n => NewWorker(cores[i]));
    AllHold(workers);
    s := LaunchAll(cores, workers);
    ReachableInv(s, cores);
    HoldersAre(workers);
  }

  /** The main loop can launch the next model exactly when fewer than twenty workers hold a permit. */
  lemma {:induction false} LaunchIff(s: State, cores: seq<bool>)
    requires Reachable(s, cores) && s.main == Looping && |s.workers| < |cores|
    ensures IsRun(s, [Acquire, Spawn]) <==> Holders(s.workers) < 20
    ensures IsRun(s, [Acquire, Spawn]) ==>
              After(s, [Acquire, Spawn]).workers == s.workers + [NewWorker(cores[|s.workers|])]
  {
    ReachableInv(s, cores);
    HoldersAre(s.workers);
    assert [Acquire, Spawn][1..] == [Spawn] && [Spawn][1..] == [];
  }
}
