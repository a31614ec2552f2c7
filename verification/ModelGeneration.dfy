/** The shared objects of a generation run: the atomic counters, and the semaphore, wait group and workers
    whose operations are the steps of the state machine. */
module ModelGeneration {

  import opened GenerationRun
  import opened Options

  const TWO_TO_THE_32 := 0x1_0000_0000
  const MAX_INT32 := 0x7fff_ffff

  /** Conversion to a 32-bit signed integer, which wraps around. */
  function Int32(x: int): (r: int)
    ensures -MAX_INT32 - 1 <= r <= MAX_INT32
    ensures -MAX_INT32 - 1 <= x <= MAX_INT32 ==> r == x
  {
    (x + MAX_INT32 + 1) % TWO_TO_THE_32 - MAX_INT32 - 1
  }

  class ProgressTracker {
    var totalModels: int
    var processedModels: int
    var successCount: int
    var failureCount: int
    var skippedCount: int

    constructor (total: nat)
      ensures totalModels == Int32(total)
      ensures processedModels == successCount == failureCount == skippedCount == 0
    {
      totalModels := Int32(total);
      processedModels, successCount, failureCount, skippedCount := 0, 0, 0, 0;
    }

    /** The counters hold these values. */
    ghost predicate Shows(c: Counters)
      reads this
    {
      && processedModels == c.processed && successCount == c.success
      && failureCount == c.failure && skippedCount == c.skipped
    }

    method IncrementProcessed() returns (processed: int)
      modifies this`processedModels
      ensures processed == processedModels == Int32(old(processedModels) + 1)
    {
      processedModels := Int32(processedModels + 1);
      processed := processedModels;
    }

    method IncrementSuccess()
      modifies this`successCount
      ensures successCount == Int32(old(successCount) + 1)
    {
      successCount := Int32(successCount + 1);
    }

    method IncrementFailure()
      modifies this`failureCount
      ensures failureCount == Int32(old(failureCount) + 1)
    {
      failureCount := Int32(failureCount + 1);
    }

    method IncrementSkipped()
      modifies this`skippedCount
      ensures skippedCount == Int32(old(skippedCount) + 1)
    {
      skippedCount := Int32(skippedCount + 1);
    }

    function Remaining(): int
      reads this
    {
      totalModels - processedModels
    }
  }

  class Generation {
    const tracker: ProgressTracker
    const cores: seq<bool>
    var free: nat
    var wg: int
    var main: Main
    var workers: seq<Worker>
    var panicked: bool
    ghost var counters: Counters

    ghost function View(): State
      reads this
    {
      State(cores, free, wg, main, workers, counters, panicked)
    }

    /** The tracker shows the counters of the run, without wrap-around, as long as the sheet has fewer
        than two to the thirty-first models. */
    ghost predicate Valid()
      reads this, tracker
    {
      && |cores| <= MAX_INT32
      && Inv(View())
      && tracker.Shows(counters)
      && tracker.totalModels == |cores|
    }

    constructor (cores: seq<bool>)
      requires |cores| <= MAX_INT32
      ensures Valid() && View() == Init(cores) && fresh(tracker)
    {
      var t := new ProgressTracker(|cores|);
      tracker := t;
      this.cores, free, wg, main, workers, panicked := cores, PERMITS, 0, Looping, [], false;
      counters := Counters(0, 0, 0, 0);
      new;
      assert tracker.totalModels == |cores|;
      assert tracker.Shows(counters);
      assert View() == Init(cores);
      assert Inv(View()) by { InitInv(cores); }
    }

    /** One turn of the main loop that gets a permit. */
    method Launch()
      requires Valid() && main == Looping && |workers| < |cores| && free > 0
      modifies this
      ensures Enabled(old(View()), Acquire) && Valid() && Enabled(Apply(old(View()), Acquire), Spawn)
      ensures View() == Apply(Apply(old(View()), Acquire), Spawn)
    {
      StepKeeps(View(), Acquire);
      StepKeeps(Apply(View(), Acquire), Spawn);
      free := free - 1;
      wg := wg + 1;
      workers := workers + [NewWorker(cores[|workers|])];
    }

    /** The send of a goroutine that has generated components, and its result; on the closed channel it panics. */
    method SendToSheet(w: nat)
      requires Valid() && !panicked && w < |workers|
      requires !workers[w].core && !workers[w].sent && workers[w].done.None?
      modifies this`workers, this`panicked
      ensures Valid() && Enabled(old(View()), Send(w))
      ensures var s1 := Apply(old(View()), Send(w));
              if old(main) == Closed then View() == s1 && panicked
              else Enabled(s1, Complete(w, Generated)) && View() == Apply(s1, Complete(w, Generated))
    {
      StepKeeps(View(), Send(w));
      if main == Closed {
        panicked := true;
      } else {
        StepKeeps(Apply(View(), Send(w)), Complete(w, Generated));
        workers := workers[w := workers[w].(sent := true)];
        workers := workers[w := workers[w].(done := Some(Generated))];
      }
    }

    /** The counter for an outcome goes up by one. */
    method CountOutcome(outcome: Outcome)
      requires tracker.Shows(counters) && counters.success < MAX_INT32 && counters.failure < MAX_INT32
               && counters.skipped < MAX_INT32
      modifies tracker, this`counters
      ensures counters == Count(old(counters), outcome) && tracker.Shows(counters)
      ensures tracker.totalModels == old(tracker.totalModels)
    {
      match outcome {
        case Counted(Generated) => tracker.IncrementSuccess();
        case Counted(Skipped) => tracker.IncrementSkipped();
        case Counted(Failed) => tracker.IncrementFailure();
        case TimedOut => tracker.IncrementFailure();
      }
      counters := Count(counters, outcome);
    }

    /** The outcome of a worker is counted. */
    method Settle(w: nat, outcome: Outcome)
      requires Valid() && !panicked && w < |workers| && Ready(workers[w], outcome)
      modifies this`workers, this`counters, tracker
      ensures Valid() && View() == Decide(old(View()), w, outcome)
    {
      assert Inv(Decide(View(), w, outcome)) by {
        DecideKeeps(View(), w, outcome);
      }
      Undecided(View(), w);
      CountOutcome(outcome);
      workers := workers[w := workers[w].(phase := Deciding, outcome := Some(outcome))];
    }

    /** A worker's `select`: when both cases are ready either may be taken, and one outcome is counted. */
    method Select(w: nat, preferResult: bool) returns (outcome: Outcome)
      requires Valid() && !panicked && w < |workers| && workers[w].phase == Selecting
               && (workers[w].done != None || workers[w].expired)
      modifies this, tracker
      ensures Valid()
      ensures outcome.TimedOut? <==> old(workers[w].expired) && !(preferResult && old(workers[w].done) != None)
      ensures View() == Apply(old(View()), if outcome.TimedOut? then TakeTimeout(w) else TakeResult(w))
      ensures Outcomes(counters) == Outcomes(old(counters)) + 1
    {
      if workers[w].done != None && (preferResult || !workers[w].expired) {
        outcome := Counted(workers[w].done.value);
      } else {
        outcome := TimedOut;
      }
      Settle(w, outcome);
    }

    /** `wg.Done` of a worker that is through. */
    method SignalDone(w: nat)
      requires Valid() && !panicked && w < |workers| && workers[w].phase == Deciding
      modifies this`wg, this`workers
      ensures Valid() && Enabled(old(View()), Signal(w)) && View() == Apply(old(View()), Signal(w))
    {
      StepKeeps(View(), Signal(w));
      wg := wg - 1;
      workers := workers[w := workers[w].(phase := Signalled)];
    }

    method ReleasePermit(w: nat)
      requires Valid() && !panicked && w < |workers| && workers[w].phase == Signalled
      modifies this`free, this`workers
      ensures Valid() && Enabled(old(View()), Release(w)) && View() == Apply(old(View()), Release(w))
    {
      StepKeeps(View(), Release(w));
      free := free + 1;
      workers := workers[w := workers[w].(phase := Released)];
    }

    method CountProcessed(w: nat)
      requires Valid() && !panicked && w < |workers| && workers[w].phase == Released
      modifies this`workers, this`counters, tracker
      ensures Valid() && Enabled(old(View()), Process(w)) && View() == Apply(old(View()), Process(w))
    {
      StepKeeps(View(), Process(w));
      Unprocessed(View(), w);
      var processed := tracker.IncrementProcessed();
      counters := counters.(processed := counters.processed + 1);
      workers := workers[w := workers[w].(phase := Finished)];
    }

    /** The deferred function of a worker: the wait group first, then the permit, then the counter. */
    method Finish(w: nat)
      requires Valid() && !panicked && w < |workers| && workers[w].phase == Deciding
      modifies this, tracker
      ensures Valid() && Enabled(old(View()), Signal(w))
      ensures var s1 := Apply(old(View()), Signal(w));
              Enabled(s1, Release(w)) && var s2 := Apply(s1, Release(w));
              Enabled(s2, Process(w)) && View() == Apply(s2, Process(w))
    {
      SignalDone(w);
      ReleasePermit(w);
      CountProcessed(w);
    }
  }

  lemma Undecided(s: State, w: nat)
    requires Inv(s) && w < |s.workers| && s.workers[w].phase == Selecting
    ensures Outcomes(s.counters) < |s.cores|
  {
    if Outcomes(s.counters) == |s.workers| {
      AllAtLeast(s.workers, 1, w);
    }
  }

  lemma Unprocessed(s: State, w: nat)
    requires Inv(s) && w < |s.workers| && s.workers[w].phase == Released
    ensures s.counters.processed < |s.cores|
  {
    if s.counters.processed == |s.workers| {
      AllAtLeast(s.workers, 4, w);
    }
  }
}
