/** The generation run as a state machine: the main loop, its workers, the goroutine behind each worker,
    the twenty permits, the wait group, the progress counters and the channel of the sheet, which is open
    until the main loop has seen the wait group return. */
module GenerationRun {

  import opened Options

  const PERMITS := 20

  datatype Result = Generated | Failed | Skipped

  /** What a worker counts: a result of its goroutine, or a timeout. */
  datatype Outcome = Counted(result: Result) | TimedOut

  /** A worker is at its `select` until it has an outcome; then it signals the wait group, releases its
      permit and increments the processed counter, in this order. */
  datatype Phase = Selecting | Deciding | Signalled | Released | Finished

  /** `done` is the buffered channel of capacity one the goroutine sends its result to; `sent` says whether
      it has sent its components to the sheet, which the goroutine of a `core` registrant never does. */
  datatype Worker = Worker(core: bool, phase: Phase, sent: bool, done: Option<Result>, expired: bool,
                           outcome: Option<Outcome>)

  datatype Main = Looping | Holding | Waiting | Closed

  datatype Counters = Counters(processed: nat, success: nat, failure: nat, skipped: nat)

  /** `cores` says for every model to be generated, in order, whether its registrant is the core. */
  datatype State = State(
    cores: seq<bool>, free: nat, wg: int, main: Main, workers: seq<Worker>, counters: Counters, panicked: bool)

  datatype Step =
    | Acquire
    | Spawn
    | EnterWait
    | WaitReturns
    | Send(w: nat)
    | Complete(w: nat, result: Result)
    | Expire(w: nat)
    | TakeResult(w: nat)
    | TakeTimeout(w: nat)
    | Signal(w: nat)
    | Release(w: nat)
    | Process(w: nat)

  function Init(cores: seq<bool>): State {
    State(cores, PERMITS, 0, Looping, [], Counters(0, 0, 0, 0), false)
  }

  function NewWorker(core: bool): Worker {
    Worker(core, Selecting, false, None, false, None)
  }

  /** The goroutine is at work, and may get to its send. */
  predicate MaySend(v: Worker) {
    !v.core && !v.sent && v.done == None
  }

  /** A goroutine that has sent succeeds; without a send only that of a core registrant does. */
  predicate MayComplete(v: Worker, result: Result) {
    v.done == None && (v.core || (result == Generated <==> v.sent))
  }

  /** Nothing happens after a panic. */
  predicate Enabled(s: State, step: Step) {
    !s.panicked &&
    match step
    case Acquire => s.main == Looping && |s.workers| < |s.cores| && s.free > 0
    case Spawn => s.main == Holding && |s.workers| < |s.cores|
    case EnterWait => s.main == Looping && |s.workers| == |s.cores|
    case WaitReturns => s.main == Waiting && s.wg == 0
    case Send(w) => w < |s.workers| && MaySend(s.workers[w])
    case Complete(w, result) => w < |s.workers| && MayComplete(s.workers[w], result)
    case Expire(w) => w < |s.workers| && !s.workers[w].expired
    case TakeResult(w) => w < |s.workers| && s.workers[w].phase == Selecting && s.workers[w].done != None
    case TakeTimeout(w) => w < |s.workers| && s.workers[w].phase == Selecting && s.workers[w].expired
    case Signal(w) => w < |s.workers| && s.workers[w].phase == Deciding
    case Release(w) => w < |s.workers| && s.workers[w].phase == Signalled
    case Process(w) => w < |s.workers| && s.workers[w].phase == Released
  }

  function Count(c: Counters, outcome: Outcome): Counters {
    match outcome
    case Counted(Generated) => c.(success := c.success + 1)
    case Counted(Skipped) => c.(skipped := c.skipped + 1)
    case Counted(Failed) => c.(failure := c.failure + 1)
    case TimedOut => c.(failure := c.failure + 1)
  }

  function Apply(s: State, step: Step): State
    requires Enabled(s, step)
  {
    match step
    case Acquire => s.(free := s.free - 1, main := Holding)
    case Spawn => s.(wg := s.wg + 1, main := Looping, workers := s.workers + [NewWorker(s.cores[|s.workers|])])
    case EnterWait => s.(main := Waiting)
    case WaitReturns => s.(main := Closed)
    case Send(w) =>
      if s.main == Closed then s.(panicked := true)
      else s.(workers := s.workers[w := s.workers[w].(sent := true)])
    case Complete(w, result) => s.(workers := s.workers[w := s.workers[w].(done := Some(result))])
    case Expire(w) => s.(workers := s.workers[w := s.workers[w].(expired := true)])
    case TakeResult(w) => Decide(s, w, Counted(s.workers[w].done.value))
    case TakeTimeout(w) => Decide(s, w, TimedOut)
    case Signal(w) => s.(wg := s.wg - 1, workers := s.workers[w := s.workers[w].(phase := Signalled)])
    case Release(w) => s.(free := s.free + 1, workers := s.workers[w := s.workers[w].(phase := Released)])
    case Process(w) => s.(counters := s.counters.(processed := s.counters.processed + 1),
                          workers := s.workers[w := s.workers[w].(phase := Finished)])
  }

  function Decide(s: State, w: nat, outcome: Outcome): State
    requires w < |s.workers|
  {
    s.(counters := Count(s.counters, outcome),
       workers := s.workers[w := s.workers[w].(phase := Deciding, outcome := Some(outcome))])
  }

  // ---------- counting workers ----------

  function Rank(phase: Phase): nat {
    match phase
    case Selecting => 0
    case Deciding => 1
    case Signalled => 2
    case Released => 3
    case Finished => 4
  }

  /** The number of workers that have reached a rank. */
  function AtLeast(workers: seq<Worker>, rank: nat): (n: nat)
    ensures n <= |workers|
  {
    if workers == [] then 0
    else AtLeast(workers[1..], rank) + if Rank(workers[0].phase) >= rank then 1 else 0
  }

  function WithOutcome(workers: seq<Worker>, outcome: Outcome): (n: nat)
    ensures n <= |workers|
  {
    if workers == [] then 0
    else WithOutcome(workers[1..], outcome) + if workers[0].outcome == Some(outcome) then 1 else 0
  }

  lemma {:induction false} AtLeastUpdate(workers: seq<Worker>, w: nat, v: Worker, rank: nat)
    requires w < |workers|
    ensures AtLeast(workers[w := v], rank)
         == AtLeast(workers, rank) + (if Rank(v.phase) >= rank then 1 else 0)
            - (if Rank(workers[w].phase) >= rank then 1 else 0)
  {
    if w > 0 {
      AtLeastUpdate(workers[1..], w - 1, v, rank);
      assert workers[w := v][1..] == workers[1..][w - 1 := v];
    } else {
      assert workers[w := v][1..] == workers[1..];
    }
  }

  lemma {:induction false} AtLeastSnoc(workers: seq<Worker>, v: Worker, rank: nat)
    ensures AtLeast(workers + [v], rank) == AtLeast(workers, rank) + if Rank(v.phase) >= rank then 1 else 0
  {
    if workers == [] {
      assert (workers + [v])[1..] == [];
    } else {
      AtLeastSnoc(workers[1..], v, rank);
      assert (workers + [v])[1..] == workers[1..] + [v];
    }
  }

  lemma {:induction false} OutcomeUpdate(workers: seq<Worker>, w: nat, v: Worker, outcome: Outcome)
    requires w < |workers|
    ensures WithOutcome(workers[w := v], outcome)
         == WithOutcome(workers, outcome) + (if v.outcome == Some(outcome) then 1 else 0)
            - (if workers[w].outcome == Some(outcome) then 1 else 0)
  {
    if w > 0 {
      OutcomeUpdate(workers[1..], w - 1, v, outcome);
      assert workers[w := v][1..] == workers[1..][w - 1 := v];
    } else {
      assert workers[w := v][1..] == workers[1..];
    }
  }

  lemma {:induction false} OutcomeSnoc(workers: seq<Worker>, v: Worker, outcome: Outcome)
    ensures WithOutcome(workers + [v], outcome) == WithOutcome(workers, outcome)
            + if v.outcome == Some(outcome) then 1 else 0
  {
    if workers == [] {
      assert (workers + [v])[1..] == [];
    } else {
      OutcomeSnoc(workers[1..], v, outcome);
      assert (workers + [v])[1..] == workers[1..] + [v];
    }
  }

  lemma {:induction false} RanksDescend(workers: seq<Worker>, low: nat, high: nat)
    requires low <= high
    ensures AtLeast(workers, high) <= AtLeast(workers, low)
  {
    if workers != [] {
      RanksDescend(workers[1..], low, high);
    }
  }

  lemma {:induction false} AllAtLeast(workers: seq<Worker>, rank: nat, w: nat)
    requires AtLeast(workers, rank) == |workers| && w < |workers|
    ensures Rank(workers[w].phase) >= rank
  {
    if w > 0 {
      AllAtLeast(workers[1..], rank, w - 1);
    }
  }

  lemma {:induction false} SomeBelow(workers: seq<Worker>, rank: nat) returns (w: nat)
    requires AtLeast(workers, rank) < |workers|
    ensures w < |workers| && Rank(workers[w].phase) < rank
  {
    if Rank(workers[0].phase) < rank {
      w := 0;
    } else {
      w := SomeBelow(workers[1..], rank);
      w := w + 1;
    }
  }

  // ---------- the invariant ----------

  function Held(s: State): int {
    |s.workers| - AtLeast(s.workers, 3) + if s.main == Holding then 1 else 0
  }

  /** A worker has exactly one outcome from its `select` on, and the outcome is one that was ready. */
  predicate WorkerOk(v: Worker) {
    && (v.phase == Selecting <==> v.outcome == None)
    && (v.outcome == Some(TimedOut) ==> v.expired)
    && (v.outcome != None && v.outcome.value.Counted? ==> v.done == Some(v.outcome.value.result))
    && (v.core ==> !v.sent)
    && (v.done != None && !v.core ==> (v.done.value == Generated <==> v.sent))
  }

  predicate WorkersOk(workers: seq<Worker>) {
    forall v :: v in workers ==> WorkerOk(v)
  }

  predicate CountersOk(c: Counters, workers: seq<Worker>) {
    && c.success == WithOutcome(workers, Counted(Generated))
    && c.skipped == WithOutcome(workers, Counted(Skipped))
    && c.failure == WithOutcome(workers, Counted(Failed)) + WithOutcome(workers, TimedOut)
    && c.success + c.failure + c.skipped == AtLeast(workers, 1)
    && c.processed == AtLeast(workers, 4)
  }

  predicate MainOk(s: State) {
    && |s.workers| + (if s.main == Holding then 1 else 0) <= |s.cores|
    && (s.main == Waiting || s.main == Closed ==> |s.workers| == |s.cores|)
    && (s.main == Closed ==> s.wg == 0)
    && forall w :: 0 <= w < |s.workers| ==> s.workers[w].core == s.cores[w]
  }

  /** A panic is that of a goroutine that was still at work when the channel was closed. */
  predicate PanicOk(s: State) {
    s.panicked ==> s.main == Closed && exists w :: 0 <= w < |s.workers| && MaySend(s.workers[w])
  }

  predicate Inv(s: State) {
    && s.free + Held(s) == PERMITS
    && s.wg == |s.workers| - AtLeast(s.workers, 2)
    && CountersOk(s.counters, s.workers)
    && WorkersOk(s.workers)
    && MainOk(s)
    && PanicOk(s)
  }

  lemma PhaseUpdate(workers: seq<Worker>, w: nat, v: Worker)
    requires w < |workers| && v.outcome == workers[w].outcome
    ensures forall outcome :: WithOutcome(workers[w := v], outcome) == WithOutcome(workers, outcome)
    ensures forall rank: nat :: AtLeast(workers[w := v], rank) == AtLeast(workers, rank)
              + (if Rank(v.phase) >= rank then 1 else 0) - (if Rank(workers[w].phase) >= rank then 1 else 0)
  {
    forall outcome
      ensures WithOutcome(workers[w := v], outcome) == WithOutcome(workers, outcome)
    {
      OutcomeUpdate(workers, w, v, outcome);
    }
    forall rank: nat
      ensures AtLeast(workers[w := v], rank) == AtLeast(workers, rank)
              + (if Rank(v.phase) >= rank then 1 else 0) - (if Rank(workers[w].phase) >= rank then 1 else 0)
    {
      AtLeastUpdate(workers, w, v, rank);
    }
  }

  lemma MainKeeps(s: State, step: Step)
    requires Inv(s) && Enabled(s, step) && (step.Acquire? || step.Spawn? || step.EnterWait? || step.WaitReturns?)
    ensures Inv(Apply(s, step))
  {
    if step.Spawn? {
      var v := NewWorker(s.cores[|s.workers|]);
      forall rank: nat
        ensures AtLeast(s.workers + [v], rank) == AtLeast(s.workers, rank) + if rank == 0 then 1 else 0
      {
        AtLeastSnoc(s.workers, v, rank);
      }
      forall outcome
        ensures WithOutcome(s.workers + [v], outcome) == WithOutcome(s.workers, outcome)
      {
        OutcomeSnoc(s.workers, v, outcome);
      }
    }
  }

  lemma WorkersOkUpdate(workers: seq<Worker>, w: nat, v: Worker)
    requires WorkersOk(workers) && w < |workers| && WorkerOk(v)
    ensures WorkersOk(workers[w := v])
  {
  }

  lemma DecideCounts(c: Counters, workers: seq<Worker>, w: nat, v: Worker, outcome: Outcome)
    requires CountersOk(c, workers) && w < |workers| && workers[w].phase == Selecting && workers[w].outcome == None
    requires v.phase == Deciding && v.outcome == Some(outcome)
    ensures CountersOk(Count(c, outcome), workers[w := v])
    ensures AtLeast(workers[w := v], 2) == AtLeast(workers, 2) && AtLeast(workers[w := v], 3) == AtLeast(workers, 3)
  {
    forall rank: nat
      ensures AtLeast(workers[w := v], rank) == AtLeast(workers, rank) + if rank == 1 then 1 else 0
    {
      AtLeastUpdate(workers, w, v, rank);
    }
    forall o
      ensures WithOutcome(workers[w := v], o) == WithOutcome(workers, o) + if o == outcome then 1 else 0
    {
      OutcomeUpdate(workers, w, v, o);
    }
  }

  /** The outcome is ready at the `select` of a worker. */
  predicate Ready(v: Worker, outcome: Outcome) {
    v.phase == Selecting && match outcome case TimedOut => v.expired case Counted(result) => v.done == Some(result)
  }

  lemma DecideKeeps(s: State, w: nat, outcome: Outcome)
    requires Inv(s) && !s.panicked && w < |s.workers| && Ready(s.workers[w], outcome)
    ensures Inv(Decide(s, w, outcome))
  {
    var v := s.workers[w].(phase := Deciding, outcome := Some(outcome));
    assert WorkerOk(s.workers[w]);
    DecideCounts(s.counters, s.workers, w, v, outcome);
    WorkersOkUpdate(s.workers, w, v);
  }

  /** A worker whose phase and outcome stay. */
  lemma QuietKeeps(s: State, w: nat, v: Worker)
    requires Inv(s) && !s.panicked && w < |s.workers| && WorkerOk(v)
    requires v.phase == s.workers[w].phase && v.outcome == s.workers[w].outcome && v.core == s.workers[w].core
    ensures Inv(s.(workers := s.workers[w := v]))
  {
    WorkersOkUpdate(s.workers, w, v);
    PhaseUpdate(s.workers, w, v);
  }

  lemma SignalKeeps(s: State, w: nat)
    requires Inv(s) && Enabled(s, Signal(w))
    ensures Inv(Apply(s, Signal(w)))
  {
    var v := s.workers[w].(phase := Signalled);
    assert WorkerOk(s.workers[w]);
    WorkersOkUpdate(s.workers, w, v);
    PhaseUpdate(s.workers, w, v);
  }

  lemma ReleaseKeeps(s: State, w: nat)
    requires Inv(s) && Enabled(s, Release(w))
    ensures Inv(Apply(s, Release(w)))
  {
    var v := s.workers[w].(phase := Released);
    assert WorkerOk(s.workers[w]);
    WorkersOkUpdate(s.workers, w, v);
    PhaseUpdate(s.workers, w, v);
  }

  lemma ProcessKeeps(s: State, w: nat)
    requires Inv(s) && Enabled(s, Process(w))
    ensures Inv(Apply(s, Process(w)))
  {
    var v := s.workers[w].(phase := Finished);
    assert WorkerOk(s.workers[w]);
    WorkersOkUpdate(s.workers, w, v);
    PhaseUpdate(s.workers, w, v);
  }

  lemma GoroutineKeeps(s: State, step: Step)
    requires Inv(s) && Enabled(s, step) && (step.Send? || step.Complete? || step.Expire?)
    requires step.Send? ==> s.main != Closed
    ensures Inv(Apply(s, step))
  {
    assert WorkerOk(s.workers[step.w]);
    QuietKeeps(s, step.w, Apply(s, step).workers[step.w]);
  }

  lemma WorkerKeeps(s: State, step: Step)
    requires Inv(s) && Enabled(s, step)
    requires step.Send? || step.Complete? || step.Expire? || step.Signal? || step.Release? || step.Process?
    requires step.Send? ==> s.main != Closed
    ensures Inv(Apply(s, step))
  {
    match step
    case Signal(w) => SignalKeeps(s, w);
    case Release(w) => ReleaseKeeps(s, w);
    case Process(w) => ProcessKeeps(s, w);
    case _ => GoroutineKeeps(s, step);
  }

  lemma StepKeeps(s: State, step: Step)
    requires Inv(s) && Enabled(s, step)
    ensures Inv(Apply(s, step))
  {
    match step
    case TakeResult(w) => DecideKeeps(s, w, Counted(s.workers[w].done.value));
    case TakeTimeout(w) => DecideKeeps(s, w, TimedOut);
    case Acquire => MainKeeps(s, step);
    case Spawn => MainKeeps(s, step);
    case Send(w) =>
      if s.main != Closed {
        WorkerKeeps(s, step);
      } else {
        assert MaySend(s.workers[w]);
      }
    case EnterWait => MainKeeps(s, step);
    case WaitReturns => MainKeeps(s, step);
    case _ => WorkerKeeps(s, step);
  }

  // ---------- runs ----------

  predicate IsRun(s: State, steps: seq<Step>)
    decreases |steps|
  {
    steps == [] || (Enabled(s, steps[0]) && IsRun(Apply(s, steps[0]), steps[1..]))
  }

  function After(s: State, steps: seq<Step>): State
    requires IsRun(s, steps)
    decreases |steps|
  {
    if steps == [] then s else After(Apply(s, steps[0]), steps[1..])
  }

  lemma {:induction false} RunKeeps(s: State, steps: seq<Step>)
    requires Inv(s) && IsRun(s, steps)
    ensures Inv(After(s, steps)) && After(s, steps).cores == s.cores
    decreases |steps|
  {
    if steps != [] {
      StepKeeps(s, steps[0]);
      RunKeeps(Apply(s, steps[0]), steps[1..]);
    }
  }

  predicate LeadsTo(start: State, steps: seq<Step>, s: State) {
    IsRun(start, steps) && After(start, steps) == s
  }

  ghost predicate ReachableFrom(start: State, s: State) {
    exists steps :: LeadsTo(start, steps, s)
  }

  /** A state some run of these models gets to. */
  ghost predicate Reachable(s: State, cores: seq<bool>) {
    ReachableFrom(Init(cores), s)
  }

  lemma InitInv(cores: seq<bool>)
    ensures Inv(Init(cores))
  {
  }

  lemma ReachableFromInv(start: State, s: State)
    requires Inv(start) && ReachableFrom(start, s)
    ensures Inv(s) && s.cores == start.cores
  {
    var steps :| LeadsTo(start, steps, s);
    RunKeeps(start, steps);
  }

  lemma ReachableInv(s: State, cores: seq<bool>)
    requires Reachable(s, cores)
    ensures Inv(s) && s.cores == cores
  {
    InitInv(cores);
    ReachableFromInv(Init(cores), s);
  }

  lemma {:induction false} RunsJoin(start: State, first: seq<Step>, middle: State, second: seq<Step>, s: State)
    requires LeadsTo(start, first, middle) && LeadsTo(middle, second, s)
    ensures LeadsTo(start, first + second, s)
    decreases |first|
  {
    if first == [] {
      assert first + second == second;
    } else {
      RunsJoin(Apply(start, first[0]), first[1..], middle, second, s);
      assert (first + second)[1..] == first[1..] + second;
    }
  }

  lemma OneStep(s: State, step: Step)
    requires Enabled(s, step)
    ensures LeadsTo(s, [step], Apply(s, step))
  {
    assert [step][1..] == [];
  }

  lemma ReachableNext(start: State, s: State, step: Step)
    requires ReachableFrom(start, s) && Enabled(s, step)
    ensures ReachableFrom(start, Apply(s, step))
  {
    var steps :| LeadsTo(start, steps, s);
    OneStep(s, step);
    RunsJoin(start, steps, s, [step], Apply(s, step));
  }

  function Outcomes(c: Counters): nat {
    c.success + c.failure + c.skipped
  }

  /** Permits are conserved, and the counters are ordered, in every state of every run. */
  lemma Conservation(s: State, cores: seq<bool>)
    requires Reachable(s, cores)
    ensures s.free + Held(s) == PERMITS && 0 <= Held(s)
    ensures s.counters.processed <= Outcomes(s.counters) <= |s.workers| <= |cores|
    ensures 0 <= s.wg <= |s.workers|
  {
    ReachableInv(s, cores);
    RanksDescend(s.workers, 1, 4);
  }

  /** Once `Wait` has returned, every model was launched and has exactly one outcome; `processed` may lag. */
  lemma WaitReturned(s: State, cores: seq<bool>)
    requires Reachable(s, cores) && s.main == Closed
    ensures Outcomes(s.counters) == |s.workers| == |cores|
    ensures forall w :: 0 <= w < |s.workers| ==> s.workers[w].outcome != None
  {
    ReachableInv(s, cores);
    RanksDescend(s.workers, 1, 2);
    forall w | 0 <= w < |s.workers|
      ensures s.workers[w].outcome != None
    {
      AllAtLeast(s.workers, 1, w);
      assert WorkerOk(s.workers[w]);
    }
  }

  // ---------- sends on the closed channel ----------

  /** A send after the channel was closed panics, and only a worker that timed out has left it behind. */
  lemma LateSendersTimedOut(s: State, cores: seq<bool>, w: nat)
    requires Reachable(s, cores) && s.main == Closed && Enabled(s, Send(w))
    ensures s.workers[w].outcome == Some(TimedOut) && Apply(s, Send(w)).panicked
  {
    WaitReturned(s, cores);
    ReachableInv(s, cores);
    assert WorkerOk(s.workers[w]);
  }

  /** The same state, but that the goroutine of worker `w` has neither sent nor ended. */
  function Late(s: State, w: nat): State {
    if w < |s.workers| then s.(workers := s.workers[w := s.workers[w].(sent := false, done := None)]) else s
  }

  predicate LeftOut(s: State, step: Step, w: nat) {
    (step.Complete? && step.w == w) || (step == Send(w) && s.main != Closed)
  }

  lemma LateMain(s: State, step: Step, w: nat)
    requires Enabled(s, step) && (step.Acquire? || step.Spawn? || step.EnterWait? || step.WaitReturns?)
    ensures Enabled(Late(s, w), step) && Apply(Late(s, w), step) == Late(Apply(s, step), w)
  {
    var s', late, late' := Apply(s, step), Late(s, w), Late(Apply(s, step), w);
    if w < |s.workers| {
      assert late'.workers == Apply(late, step).workers;
    } else if step.Spawn? {
      assert late'.workers == s'.workers;
    }
  }

  lemma LateOther(s: State, step: Step, w: nat)
    requires Enabled(s, step) && !(step.Acquire? || step.Spawn? || step.EnterWait? || step.WaitReturns?) && step.w != w
    ensures Enabled(Late(s, w), step) && Apply(Late(s, w), step) == Late(Apply(s, step), w)
  {
    if w < |s.workers| {
      assert Late(Apply(s, step), w).workers == Apply(Late(s, w), step).workers;
    }
  }

  lemma LateOwn(s: State, step: Step, w: nat)
    requires Enabled(s, step) && !(step.Acquire? || step.Spawn? || step.EnterWait? || step.WaitReturns?) && step.w == w
    requires !step.TakeResult?
    ensures LeftOut(s, step, w) ==> Late(Apply(s, step), w) == Late(s, w)
    ensures !LeftOut(s, step, w) ==> Enabled(Late(s, w), step) && Apply(Late(s, w), step) == Late(Apply(s, step), w)
  {
    if LeftOut(s, step, w) {
      assert Late(Apply(s, step), w).workers == Late(s, w).workers;
    } else {
      assert Late(Apply(s, step), w).workers == Apply(Late(s, w), step).workers;
    }
  }

  /** Without the send and the end of its goroutine, worker `w` can take the same steps, except for its result. */
  lemma LateStep(s: State, step: Step, w: nat)
    requires Enabled(s, step) && step != TakeResult(w)
    ensures LeftOut(s, step, w) ==> Late(Apply(s, step), w) == Late(s, w)
    ensures !LeftOut(s, step, w) ==> Enabled(Late(s, w), step) && Apply(Late(s, w), step) == Late(Apply(s, step), w)
  {
    if step.Acquire? || step.Spawn? || step.EnterWait? || step.WaitReturns? {
      LateMain(s, step, w);
    } else if step.w == w {
      LateOwn(s, step, w);
    } else {
      LateOther(s, step, w);
    }
  }

  predicate HasOutcome(s: State, w: nat, outcome: Outcome) {
    w < |s.workers| && s.workers[w].outcome == Some(outcome)
  }

  lemma OutcomeStays(s: State, step: Step, w: nat, outcome: Outcome)
    requires Inv(s) && Enabled(s, step) && HasOutcome(s, w, outcome)
    ensures HasOutcome(Apply(s, step), w, outcome)
  {
    assert WorkerOk(s.workers[w]);
  }

  lemma {:induction false} OutcomeRemains(s: State, steps: seq<Step>, w: nat, outcome: Outcome)
    requires Inv(s) && IsRun(s, steps) && HasOutcome(s, w, outcome)
    ensures HasOutcome(After(s, steps), w, outcome)
    decreases |steps|
  {
    if steps != [] {
      StepKeeps(s, steps[0]);
      OutcomeStays(s, steps[0], w, outcome);
      OutcomeRemains(Apply(s, steps[0]), steps[1..], w, outcome);
    }
  }

  lemma NotTaken(s: State, steps: seq<Step>, w: nat)
    requires Inv(s) && IsRun(s, steps) && steps != [] && HasOutcome(After(s, steps), w, TimedOut)
    ensures steps[0] != TakeResult(w)
  {
    if steps[0] == TakeResult(w) {
      StepKeeps(s, steps[0]);
      OutcomeRemains(Apply(s, steps[0]), steps[1..], w, Counted(s.workers[w].done.value));
      assert false;
    }
  }

  /** The run without the send and the end of a goroutine whose worker times out. */
  lemma {:induction false} LateRun(s: State, steps: seq<Step>, w: nat) returns (late: seq<Step>)
    requires Inv(s) && IsRun(s, steps) && HasOutcome(After(s, steps), w, TimedOut)
    ensures LeadsTo(Late(s, w), late, Late(After(s, steps), w))
    decreases |steps|
  {
    if steps == [] {
      late := [];
    } else {
      var step := steps[0];
      NotTaken(s, steps, w);
      StepKeeps(s, step);
      var rest := LateRun(Apply(s, step), steps[1..], w);
      LateStep(s, step, w);
      if LeftOut(s, step, w) {
        late := rest;
      } else {
        late := [step] + rest;
        assert late[1..] == rest;
      }
    }
  }

  lemma LateFrom(start: State, s: State, w: nat)
    requires Inv(start) && Late(start, w) == start && ReachableFrom(start, s) && HasOutcome(s, w, TimedOut)
    ensures ReachableFrom(start, Late(s, w))
  {
    var steps :| LeadsTo(start, steps, s);
    var late := LateRun(start, steps, w);
    assert LeadsTo(start, late, Late(s, w));
  }

  lemma LateInit(cores: seq<bool>, w: nat)
    ensures Late(Init(cores), w) == Init(cores)
  {
  }

  lemma LateReachable(s: State, cores: seq<bool>, w: nat)
    requires Reachable(s, cores) && HasOutcome(s, w, TimedOut)
    ensures Reachable(Late(s, w), cores)
  {
    InitInv(cores);
    LateInit(cores, w);
    LateFrom(Init(cores), s, w);
  }

  /** The converse: whenever a worker that is not core has timed out, its goroutine may still be at work, and
      then its send panics. */
  lemma LateSendPanics(s: State, cores: seq<bool>, w: nat)
    requires Reachable(s, cores) && s.main == Closed && !s.panicked
    requires HasOutcome(s, w, TimedOut) && !s.workers[w].core
    ensures Reachable(Late(s, w), cores) && Enabled(Late(s, w), Send(w))
    ensures Apply(Late(s, w), Send(w)) == Late(s, w).(panicked := true)
            && Reachable(Late(s, w).(panicked := true), cores)
  {
    LateReachable(s, cores, w);
    ReachableNext(Init(cores), Late(s, w), Send(w));
  }

  /** The workers have the same outcomes. */
  predicate SameOutcomes(s: State, t: State) {
    && |s.workers| == |t.workers|
    && forall w :: 0 <= w < |s.workers| ==>
         s.workers[w].outcome == t.workers[w].outcome && s.workers[w].core == t.workers[w].core
  }

  predicate SomeTimeout(s: State) {
    exists w :: 0 <= w < |s.workers| && !s.workers[w].core && s.workers[w].outcome == Some(TimedOut)
  }

  /** A panic is the fault of a worker that timed out. */
  lemma PanicTimedOut(s: State, cores: seq<bool>)
    requires Reachable(s, cores) && s.panicked
    ensures s.main == Closed && SomeTimeout(s)
  {
    ReachableInv(s, cores);
    WaitReturned(s, cores);
    var w :| 0 <= w < |s.workers| && MaySend(s.workers[w]);
    assert WorkerOk(s.workers[w]);
  }

  /** The outcomes of a closed run admit the panic exactly when a worker that is not core timed out. */
  lemma PanicIffTimeout(s: State, cores: seq<bool>)
    requires Reachable(s, cores) && s.main == Closed
    ensures (exists p :: Reachable(p, cores) && p.panicked && SameOutcomes(p, s)) <==> SomeTimeout(s)
  {
    if p :| Reachable(p, cores) && p.panicked && SameOutcomes(p, s) {
      PanicTimedOut(p, cores);
    }
    if SomeTimeout(s) {
      if s.panicked {
        assert SameOutcomes(s, s);
      } else {
        var w :| 0 <= w < |s.workers| && !s.workers[w].core && s.workers[w].outcome == Some(TimedOut);
        LateSendPanics(s, cores, w);
        assert SameOutcomes(Late(s, w).(panicked := true), s);
      }
    }
  }

  // ---------- a run in which everything times out ----------

  function TimedOutWorker(core: bool): Worker {
    Worker(core, Released, false, None, true, Some(TimedOut))
  }

  /** The first `n` models launched and timed out, none of them counted as processed yet. */
  function AllTimedOut(cores: seq<bool>, n: nat): State
    requires n <= |cores|
  {
    var workers := seq(n, i requires 0 <= i < n => TimedOutWorker(cores[i]));
    State(cores, PERMITS, 0, Looping, workers, Counters(0, 0, n, 0), false)
  }

  /** One turn of the loop, and the new worker times out. */
  lemma TimeOutOne(cores: seq<bool>, n: nat)
    requires n < |cores|
    ensures ReachableFrom(AllTimedOut(cores, n), AllTimedOut(cores, n + 1))
  {
    var s := AllTimedOut(cores, n);
    assert LeadsTo(s, [], s);
    ReachableNext(s, s, Acquire);
    var s1 := Apply(s, Acquire);
    ReachableNext(s, s1, Spawn);
    var s2 := Apply(s1, Spawn);
    TimeOutNew(s, s2, n, cores[n]);
    assert s2.workers[n := TimedOutWorker(cores[n])] == AllTimedOut(cores, n + 1).workers;
  }

  lemma TimeOutNew(start: State, s: State, w: nat, core: bool)
    requires ReachableFrom(start, s) && !s.panicked && w < |s.workers| && s.workers[w] == NewWorker(core)
    ensures ReachableFrom(start, s.(wg := s.wg - 1, free := s.free + 1, counters := Count(s.counters, TimedOut),
                                    workers := s.workers[w := TimedOutWorker(core)]))
  {
    ReachableNext(start, s, Expire(w));
    var expired := Apply(s, Expire(w));
    ReachableNext(start, expired, TakeTimeout(w));
    var taken := Apply(expired, TakeTimeout(w));
    var v := NewWorker(core).(expired := true, phase := Deciding, outcome := Some(TimedOut));
    assert taken == s.(counters := Count(s.counters, TimedOut), workers := s.workers[w := v]);
    SignalAndRelease(start, taken, w);
    assert taken.workers[w := v.(phase := Released)] == s.workers[w := TimedOutWorker(core)];
  }

  lemma SignalAndRelease(start: State, s: State, w: nat)
    requires ReachableFrom(start, s) && !s.panicked && w < |s.workers| && s.workers[w].phase == Deciding
    ensures ReachableFrom(start, s.(wg := s.wg - 1, free := s.free + 1,
                                    workers := s.workers[w := s.workers[w].(phase := Released)]))
  {
    ReachableNext(start, s, Signal(w));
    var signalled := Apply(s, Signal(w));
    ReachableNext(start, signalled, Release(w));
    assert Apply(signalled, Release(w)).workers == s.workers[w := s.workers[w].(phase := Released)];
  }

  lemma {:induction false} TimeOutAll(cores: seq<bool>, n: nat)
    requires n <= |cores|
    ensures Reachable(AllTimedOut(cores, n), cores)
  {
    if n == 0 {
      assert LeadsTo(Init(cores), [], AllTimedOut(cores, 0));
    } else {
      TimeOutAll(cores, n - 1);
      TimeOutOne(cores, n - 1);
      ReachableJoin(Init(cores), AllTimedOut(cores, n - 1), AllTimedOut(cores, n));
    }
  }

  lemma ReachableJoin(start: State, middle: State, s: State)
    requires ReachableFrom(start, middle) && ReachableFrom(middle, s)
    ensures ReachableFrom(start, s)
  {
    var first :| LeadsTo(start, first, middle);
    var second :| LeadsTo(middle, second, s);
    RunsJoin(start, first, middle, second, s);
  }

  lemma PanicWithSender(cores: seq<bool>, i: nat)
    requires i < |cores| && !cores[i]
    ensures exists s :: Reachable(s, cores) && s.panicked && s.counters.processed == 0
  {
    var s := AllTimedOut(cores, |cores|);
    TimeOutAll(cores, |cores|);
    ReachableNext(Init(cores), s, EnterWait);
    var waiting := Apply(s, EnterWait);
    ReachableNext(Init(cores), waiting, WaitReturns);
    var closed := Apply(waiting, WaitReturns);
    ReachableNext(Init(cores), closed, Send(i));
  }

  lemma PanicNeedsSender(s: State, cores: seq<bool>)
    requires Reachable(s, cores) && s.panicked
    ensures exists i :: 0 <= i < |cores| && !cores[i]
  {
    PanicTimedOut(s, cores);
    ReachableInv(s, cores);
    var w :| 0 <= w < |s.workers| && !s.workers[w].core && s.workers[w].outcome == Some(TimedOut);
    assert s.workers[w].core == cores[w];
  }

  /** Some run of these models panics exactly when one of them is not of the core registrant; none of them need
      have been counted as processed then. */
  lemma SomeRunPanics(cores: seq<bool>)
    ensures (exists s :: Reachable(s, cores) && s.panicked) <==> exists i :: 0 <= i < |cores| && !cores[i]
    ensures (exists s :: Reachable(s, cores) && s.panicked) ==>
              exists s :: Reachable(s, cores) && s.panicked && s.counters.processed == 0
  {
    if s :| Reachable(s, cores) && s.panicked {
      PanicNeedsSender(s, cores);
    }
    if i :| 0 <= i < |cores| && !cores[i] {
      PanicWithSender(cores, i);
    }
  }

  // ---------- every run ends, and ends complete ----------

  function Work(v: Worker): nat {
    4 - Rank(v.phase) + (if v.done == None then 1 else 0) + (if MaySend(v) then 1 else 0) + (if v.expired then 0 else 1)
  }

  function TotalWork(workers: seq<Worker>): nat {
    if workers == [] then 0 else Work(workers[0]) + TotalWork(workers[1..])
  }

  /** A bound on the steps a run still has before it. */
  function StepsLeft(s: State): int {
    9 * (|s.cores| - |s.workers|) + TotalWork(s.workers) + (if s.panicked then 0 else 1)
    + match s.main case Looping => 2 case Holding => 1 case Waiting => 1 case Closed => 0
  }

  lemma {:induction false} WorkUpdate(workers: seq<Worker>, w: nat, v: Worker)
    requires w < |workers|
    ensures TotalWork(workers[w := v]) == TotalWork(workers) + Work(v) - Work(workers[w])
  {
    if w > 0 {
      WorkUpdate(workers[1..], w - 1, v);
      assert workers[w := v][1..] == workers[1..][w - 1 := v];
    } else {
      assert workers[w := v][1..] == workers[1..];
    }
  }

  lemma {:induction false} WorkSnoc(workers: seq<Worker>, v: Worker)
    ensures TotalWork(workers + [v]) == TotalWork(workers) + Work(v)
  {
    if workers == [] {
      assert (workers + [v])[1..] == [];
    } else {
      WorkSnoc(workers[1..], v);
      assert (workers + [v])[1..] == workers[1..] + [v];
    }
  }

  lemma StepCounts(s: State, step: Step)
    requires Inv(s) && Enabled(s, step)
    ensures StepsLeft(Apply(s, step)) < StepsLeft(s)
  {
    match step
    case Acquire =>
    case EnterWait =>
    case WaitReturns =>
    case Spawn => WorkSnoc(s.workers, NewWorker(s.cores[|s.workers|]));
    case Send(w) =>
      if s.main != Closed {
        WorkerStepCounts(s, step);
      }
    case _ => WorkerStepCounts(s, step);
  }

  lemma WorkerStepCounts(s: State, step: Step)
    requires Enabled(s, step) && !(step.Acquire? || step.Spawn? || step.EnterWait? || step.WaitReturns?)
    requires step.Send? ==> s.main != Closed
    ensures StepsLeft(Apply(s, step)) < StepsLeft(s)
  {
    var s' := Apply(s, step);
    var v := s'.workers[step.w];
    assert s'.workers == s.workers[step.w := v];
    assert Work(v) < Work(s.workers[step.w]);
    WorkUpdate(s.workers, step.w, v);
  }

  predicate Done(s: State) {
    s.main == Closed && AtLeast(s.workers, 4) == |s.workers| == |s.cores|
  }

  /** Until the run is complete some step is possible that is not one of a goroutine: timeouts alone carry
      every run on. */
  lemma NeverStuck(s: State)
    requires Inv(s) && !Done(s) && !s.panicked
    ensures exists step :: Enabled(s, step) && !step.Complete? && !step.Send?
  {
    if AtLeast(s.workers, 4) < |s.workers| {
      var w := SomeBelow(s.workers, 4);
      assert Enabled(s, Expire(w)) || Enabled(s, TakeTimeout(w)) || Enabled(s, Signal(w)) || Enabled(s, Release(w))
             || Enabled(s, Process(w));
    } else {
      RanksDescend(s.workers, 3, 4);
      RanksDescend(s.workers, 2, 4);
      assert Enabled(s, Acquire) || Enabled(s, Spawn) || Enabled(s, EnterWait) || Enabled(s, WaitReturns);
    }
  }

  /** No run of `n` models has more than `9 * n + 3` steps, and a run that cannot go on without its
      goroutines is complete, unless one of them made it panic. */
  lemma {:induction false} RunEnds(s: State, steps: seq<Step>)
    requires Inv(s) && IsRun(s, steps)
    ensures |steps| + StepsLeft(After(s, steps)) <= StepsLeft(s) && StepsLeft(After(s, steps)) >= 0
    ensures (forall step :: Enabled(After(s, steps), step) ==> step.Complete? || step.Send?) ==>
              Done(After(s, steps)) || After(s, steps).panicked
    decreases |steps|
  {
    if steps != [] {
      StepKeeps(s, steps[0]);
      StepCounts(s, steps[0]);
      RunEnds(Apply(s, steps[0]), steps[1..]);
    } else if !Done(s) && !s.panicked {
      NeverStuck(s);
    }
  }
}
