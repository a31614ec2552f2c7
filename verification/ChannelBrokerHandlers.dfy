/** The broker's methods as the source writes them: their loops are runs of the step relation. Publishers run
    beside each other and beside the delivery goroutines; the holder of the write lock runs alone. */
module ChannelBrokerHandlers {
  import opened ChannelBroker
  import opened Options
  import opened Sequences

  /** The channels of `scope` are closed, all else about the channels is as before. */
  ghost predicate ClosedIn(channels: seq<Channel>, channels': seq<Channel>, scope: Option<string>) {
    && |channels'| == |channels|
    && forall c :: 0 <= c < |channels| ==>
         channels'[c] == channels[c].(open := channels[c].open && !InScope(scope, channels[c].subject))
  }

  /** Some run leads from `s` to `s'`. */
  ghost predicate Reaches(s: State, s': State) {
    exists steps :: Runs(s, steps) && After(s, steps) == s'
  }

  lemma ReachesSelf(s: State)
    ensures Reaches(s, s)
  {
    assert Runs(s, []) && After(s, []) == s;
  }

  lemma ReachesStep(s: State, s': State, step: Step)
    requires Reaches(s, s') && Enabled(s', step)
    ensures Reaches(s, Apply(s', step))
  {
    var steps :| Runs(s, steps) && After(s, steps) == s';
    RunsSnoc(s, steps, step);
  }

  // ---------- publishing while others go on ----------

  /** Caller `t` takes the step. */
  predicate By(step: Step, t: nat) {
    !step.Receive? && !step.Deliver? && !step.Exit? && step.t == t
  }

  /** What a step puts on channel `c`: the publisher and its message. */
  function PutOf(s: State, step: Step, c: nat): seq<(nat, Message)>
    requires Enabled(s, step)
  {
    if (step.Send? || step.HandOff?) && s.storage[s.callers[step.t].subject][step.queue] == c
    then [(step.t, s.callers[step.t].message)] else []
  }

  function Puts(s: State, steps: seq<Step>, c: nat): seq<(nat, Message)>
    requires Runs(s, steps)
    decreases |steps|
  {
    if steps == [] then [] else PutOf(s, steps[0], c) + Puts(Apply(s, steps[0]), steps[1..], c)
  }

  /** Neither the buffer nor a goroutine can take a message for the queue. */
  predicate Stalled(s: State, t: nat, queue: string)
    requires Offered(s, t, queue)
  {
    && |Target(s, t, queue).buffer| >= s.capacity
    && (Target(s, t, queue).buffer != []
        || forall w :: 0 <= w < |s.workers| ==> !Ready(s.workers[w], s.storage[s.callers[t].subject][queue]))
  }

  /** What happens around one select of a publisher: the steps others take before it, whether its timer has
      expired when it is reached, and whether it then takes the timer although the send is ready, too. */
  datatype Turn = Turn(others: seq<Step>, expired: bool, takesTimer: bool)

  function TurnAt(schedule: seq<Turn>, k: nat): Turn {
    if k < |schedule| then schedule[k] else Turn([], false, false)
  }

  /** The queues whose timer had expired when their select was reached, with the queues in order of the selects. */
  function Expired(order: seq<string>, schedule: seq<Turn>): set<string> {
    set k | 0 <= k < |order| && TurnAt(schedule, k).expired :: order[k]
  }

  lemma ExpiredSnoc(order: seq<string>, schedule: seq<Turn>, queue: string)
    ensures Expired(order + [queue], schedule)
         == Expired(order, schedule) + (if TurnAt(schedule, |order|).expired then {queue} else {})
  {
    var order' := order + [queue];
    assert forall k :: 0 <= k < |order| ==> order'[k] == order[k];
    assert order'[|order|] == queue;
    forall q | q in Expired(order, schedule)
      ensures q in Expired(order', schedule)
    {
      var k :| 0 <= k < |order| && TurnAt(schedule, k).expired && order[k] == q;
      assert order'[k] == q;
    }
  }

  /** An order of the queues of a set, each once. */
  ghost predicate Orders(order: seq<string>, queues: set<string>) {
    && (forall i, j :: 0 <= i < j < |order| ==> order[i] != order[j])
    && forall q :: q in order <==> q in queues
  }

  lemma OrdersSnoc(order: seq<string>, queues: set<string>, queue: string)
    requires Orders(order, queues) && queue !in queues
    ensures Orders(order + [queue], queues + {queue})
  {
    assert forall i :: 0 <= i < |order| ==> order[i] in order;
  }

  /** Where the timer has expired and is taken, the queue is given up, even one that has room. */
  ghost predicate TimersTaken(order: seq<string>, failed: set<string>, schedule: seq<Turn>) {
    forall k :: 0 <= k < |order| && TakesTimer(TurnAt(schedule, k)) ==> order[k] in failed
  }

  predicate TakesTimer(turn: Turn) {
    turn.expired && turn.takesTimer
  }

  /** How far a publisher has got with its queues. */
  ghost predicate Turned(queues: set<string>, todo: set<string>, ok: set<string>, failed: set<string>,
                         order: seq<string>, expired: set<string>, schedule: seq<Turn>) {
    && todo + ok + failed == queues && todo !! ok !! failed
    && Orders(order, ok + failed) && expired == Expired(order, schedule) && TimersTaken(order, failed, schedule)
  }

  lemma NotTurned(queues: set<string>, schedule: seq<Turn>)
    ensures Turned(queues, queues, {}, {}, [], {}, schedule)
  {
  }

  lemma AllTurned(queues: set<string>, ok: set<string>, failed: set<string>, order: seq<string>,
                  expired: set<string>, schedule: seq<Turn>)
    requires Turned(queues, {}, ok, failed, order, expired, schedule)
    ensures ok !! failed && ok + failed == queues && Orders(order, queues)
    ensures TimersTaken(order, failed, schedule) && expired == Expired(order, schedule)
  {
    assert {} + ok + failed == ok + failed;
  }

  lemma TurnedNext(queues: set<string>, todo: set<string>, ok: set<string>, failed: set<string>, order: seq<string>,
                   expired: set<string>, schedule: seq<Turn>, queue: string, sent: bool)
    requires Turned(queues, todo, ok, failed, order, expired, schedule) && queue in todo
    requires TakesTimer(TurnAt(schedule, |order|)) ==> !sent
    ensures Turned(queues, todo - {queue}, if sent then ok + {queue} else ok, if sent then failed else failed + {queue},
                   order + [queue],
                   expired + (if TurnAt(schedule, |order|).expired then {queue} else {}), schedule)
  {
    ExpiredSnoc(order, schedule, queue);
    OrdersSnoc(order, ok + failed, queue);
    assert ok + {queue} + failed == ok + failed + {queue} == ok + (failed + {queue});
  }

  lemma NotServedYet(queues: set<string>, todo: set<string>, ok: set<string>, failed: set<string>, order: seq<string>,
                     expired: set<string>, schedule: seq<Turn>, queue: string)
    requires Turned(queues, todo, ok, failed, order, expired, schedule) && queue in todo
    ensures queue !in failed
  {
  }

  /** Publisher `t` gives up on a queue only when it is stalled, or among those whose timer had expired. */
  predicate Patient(s: State, steps: seq<Step>, t: nat, expired: set<string>)
    requires Runs(s, steps)
    decreases |steps|
  {
    steps == [] || ((steps[0].TimeOut? && steps[0].t == t ==>
                       steps[0].queue in expired || Stalled(s, t, steps[0].queue))
                    && Patient(Apply(s, steps[0]), steps[1..], t, expired))
  }

  lemma {:induction false} PatientMore(s: State, steps: seq<Step>, t: nat, expired: set<string>, more: set<string>)
    requires Runs(s, steps) && Patient(s, steps, t, expired) && expired <= more
    ensures Patient(s, steps, t, more)
    decreases |steps|
  {
    if steps != [] {
      PatientMore(Apply(s, steps[0]), steps[1..], t, expired, more);
    }
  }

  lemma {:induction false} PutsSnoc(s: State, steps: seq<Step>, step: Step, c: nat)
    requires Runs(s, steps) && Enabled(After(s, steps), step) && Runs(s, steps + [step])
    ensures Puts(s, steps + [step], c) == Puts(s, steps, c) + PutOf(After(s, steps), step, c)
    decreases |steps|
  {
    if steps == [] {
      assert [] + [step] == [step] && [step][1..] == [];
    } else {
      assert (steps + [step])[0] == steps[0] && (steps + [step])[1..] == steps[1..] + [step];
      PutsSnoc(Apply(s, steps[0]), steps[1..], step, c);
      Regroup(PutOf(s, steps[0], c), Puts(Apply(s, steps[0]), steps[1..], c), PutOf(After(s, steps), step, c));
    }
  }

  lemma {:induction false} PatientSnoc(s: State, steps: seq<Step>, step: Step, t: nat, expired: set<string>)
    requires Runs(s, steps) && Enabled(After(s, steps), step) && Runs(s, steps + [step])
    requires Patient(s, steps, t, expired)
    requires step.TimeOut? && step.t == t ==> step.queue in expired || Stalled(After(s, steps), t, step.queue)
    ensures Patient(s, steps + [step], t, expired)
    decreases |steps|
  {
    if steps == [] {
      assert [] + [step] == [step] && [step][1..] == [];
    } else {
      assert (steps + [step])[0] == steps[0] && (steps + [step])[1..] == steps[1..] + [step];
      PatientSnoc(Apply(s, steps[0]), steps[1..], step, t, expired);
    }
  }

  /** The channel is that of one of the queues `ok` of the subject. */
  predicate Among(ch: Channel, subject: string, ok: set<string>) {
    ch.open && ch.subject == subject && ch.queue in ok
  }

  /** The channel has accepted what was put on it, and of that caller `t` put what is `due`. */
  ghost predicate Accounted(before: Channel, after: Channel, puts: seq<(nat, Message)>, t: nat, due: seq<Message>) {
    && after.subject == before.subject && after.queue == before.queue && after.open == before.open
    && after.accepted == before.accepted + Messages(puts)
    && ReceivedBy(puts, t) == due
  }

  /** The run of a publisher so far: every channel of an `ok` queue has got the message from it, once, and no
      other channel has, whatever others did. */
  ghost predicate Published(s0: State, run: seq<Step>, s: State, t: nat, subject: string, message: Message,
                            ok: set<string>, expired: set<string>) {
    && Runs(s0, run) && After(s0, run) == s && Patient(s0, run, t, expired)
    && s.storage == s0.storage && |s.channels| == |s0.channels|
    && forall c :: 0 <= c < |s.channels| ==>
         Accounted(s0.channels[c], s.channels[c], Puts(s0, run, c), t,
                   if Among(s0.channels[c], subject, ok) then [message] else [])
  }

  lemma AccountedNext(before: Channel, middle: Channel, after: Channel, puts: seq<(nat, Message)>,
                      put: seq<(nat, Message)>,
                      t: nat, due: seq<Message>, due': seq<Message>)
    requires Accounted(before, middle, puts, t, due) && Accounted(middle, after, put, t, due') && |put| <= 1
    ensures Accounted(before, after, puts + put, t, due + due')
  {
    if put == [] {
      assert puts + put == puts && due + due' == due && middle.accepted + [] == middle.accepted;
    } else {
      assert put == [put[0]] && [] + [put[0]] == [put[0]];
      MessagesSnoc(puts, put[0]);
      MessagesSnoc([], put[0]);
      ReceivedBySnoc(puts, put[0], t);
      ReceivedBySnoc([], put[0], t);
      Regroup(before.accepted, Messages(puts), [put[0].1]);
    }
  }

  /** What one step does to a channel. */
  ghost predicate StepAccounted(s: State, step: Step, t: nat, c: nat, due: seq<Message>)
    requires Enabled(s, step) && c < |s.channels| && c < |Apply(s, step).channels|
  {
    Accounted(s.channels[c], Apply(s, step).channels[c], PutOf(s, step, c), t, due)
  }

  lemma NothingPut(ch: Channel, ch': Channel, t: nat)
    requires ch' == ch.(buffer := ch'.buffer, received := ch'.received)
    ensures Accounted(ch, ch', [], t, [])
  {
    assert ch.accepted + [] == ch.accepted;
  }

  lemma OnePut(ch: Channel, ch': Channel, u: nat, message: Message, t: nat)
    requires ch' == ch.(buffer := ch'.buffer, received := ch'.received, accepted := ch.accepted + [message])
    ensures Accounted(ch, ch', [(u, message)], t, if u == t then [message] else [])
  {
    assert [] + [(u, message)] == [(u, message)];
    MessagesSnoc([], (u, message));
    ReceivedBySnoc([], (u, message), t);
  }

  /** While `t` is publishing, the steps of others leave the storage and `t` alone. */
  lemma OthersFrame(s: State, step: Step, t: nat)
    requires Inv(s) && Enabled(s, step) && !By(step, t) && t < |s.callers| && s.callers[t].Publishing?
    ensures var s' := Apply(s, step);
            && s'.storage == s.storage && |s'.callers| == |s.callers| && s'.callers[t] == s.callers[t]
            && |s'.channels| == |s.channels|
  {
    assert Reading(s);
  }

  lemma OthersPut(s: State, step: Step, t: nat, c: nat)
    requires Inv(s) && Enabled(s, step) && !By(step, t) && t < |s.callers| && s.callers[t].Publishing?
    requires c < |s.channels| && |Apply(s, step).channels| == |s.channels|
    ensures StepAccounted(s, step, t, c, [])
  {
    assert Reading(s);
    if step.Send? || step.HandOff? {
      TargetOpen(s, step.t, step.queue);
    }
    if PutOf(s, step, c) == [] {
      NothingPut(s.channels[c], Apply(s, step).channels[c], t);
    } else {
      OnePut(s.channels[c], Apply(s, step).channels[c], step.t, s.callers[step.t].message, t);
    }
  }

  /** What a channel is due when queues join `ok`. */
  function Gain(ch: Channel, subject: string, message: Message, ok: set<string>, ok': set<string>): seq<Message> {
    if Among(ch, subject, ok') && !Among(ch, subject, ok) then [message] else []
  }

  lemma PublishedNext(s0: State, run: seq<Step>, s: State, t: nat, subject: string, message: Message, ok: set<string>,
                      expired: set<string>, step: Step, ok': set<string>)
    requires Published(s0, run, s, t, subject, message, ok, expired) && Enabled(s, step) && ok <= ok'
    requires step.TimeOut? && step.t == t ==> step.queue in expired || Stalled(s, t, step.queue)
    requires Apply(s, step).storage == s.storage && |Apply(s, step).channels| == |s.channels|
    requires forall c :: 0 <= c < |s.channels| ==>
               StepAccounted(s, step, t, c, Gain(s0.channels[c], subject, message, ok, ok'))
    ensures Published(s0, run + [step], Apply(s, step), t, subject, message, ok', expired)
  {
    var s' := Apply(s, step);
    RunsSnoc(s0, run, step);
    PatientSnoc(s0, run, step, t, expired);
    forall c | 0 <= c < |s.channels|
      ensures Accounted(s0.channels[c], s'.channels[c], Puts(s0, run + [step], c), t,
                        if Among(s0.channels[c], subject, ok') then [message] else [])
    {
      PutsSnoc(s0, run, step, c);
      var due, gain := if Among(s0.channels[c], subject, ok) then [message] else [],
                       Gain(s0.channels[c], subject, message, ok, ok');
      assert StepAccounted(s, step, t, c, gain);
      AccountedNext(s0.channels[c], s.channels[c], s'.channels[c], Puts(s0, run, c), PutOf(s, step, c), t, due, gain);
      assert due + gain == if Among(s0.channels[c], subject, ok') then [message] else [];
    }
  }

  /** Publisher `t` has taken the run since `s0`, and is at its queues. */
  ghost predicate Working(s0: State, run: seq<Step>, s: State, t: nat, expired: set<string>) {
    && Inv(s) && t < |s.callers| && s.callers[t].Publishing?
    && Published(s0, run, s, t, s.callers[t].subject, s.callers[t].message, s.callers[t].ok, expired)
  }

  lemma WorkingLonger(s0: State, run: seq<Step>, s: State, t: nat, expired: set<string>, more: set<string>)
    requires Working(s0, run, s, t, expired) && expired <= more
    ensures Working(s0, run, s, t, more)
  {
    PatientMore(s0, run, t, expired, more);
  }

  lemma WorkingOthers(s0: State, run: seq<Step>, s: State, t: nat, step: Step, expired: set<string>)
    requires Working(s0, run, s, t, expired) && Enabled(s, step) && !By(step, t)
    ensures Working(s0, run + [step], Apply(s, step), t, expired)
    ensures Apply(s, step).callers[t] == s.callers[t] && Apply(s, step).storage == s.storage
  {
    var p := s.callers[t];
    StepKeeps(s, step);
    OthersFrame(s, step, t);
    forall c | 0 <= c < |s.channels|
      ensures StepAccounted(s, step, t, c, [])
    {
      OthersPut(s, step, t, c);
    }
    PublishedNext(s0, run, s, t, p.subject, p.message, p.ok, expired, step, p.ok);
  }

  lemma WorkingTimeOut(s0: State, run: seq<Step>, s: State, t: nat, queue: string, expired: set<string>)
    requires Working(s0, run, s, t, expired) && Enabled(s, TimeOut(t, queue))
    requires queue in expired || Stalled(s, t, queue)
    ensures Working(s0, run + [TimeOut(t, queue)], Apply(s, TimeOut(t, queue)), t, expired)
  {
    var p := s.callers[t];
    StepKeeps(s, TimeOut(t, queue));
    forall c | 0 <= c < |s.channels|
      ensures StepAccounted(s, TimeOut(t, queue), t, c, [])
    {
      NothingPut(s.channels[c], s.channels[c], t);
    }
    PublishedNext(s0, run, s, t, p.subject, p.message, p.ok, expired, TimeOut(t, queue), p.ok);
  }

  lemma WorkingSend(s0: State, run: seq<Step>, s: State, t: nat, step: Step, expired: set<string>)
    requires Working(s0, run, s, t, expired) && Enabled(s, step) && (step.Send? || step.HandOff?) && step.t == t
    ensures Working(s0, run + [step], Apply(s, step), t, expired)
  {
    var p := s.callers[t];
    var ok' := p.ok + {step.queue};
    assert PublisherOk(s.storage, p);
    TargetOpen(s, t, step.queue);
    StepKeeps(s, step);
    forall c | 0 <= c < |s.channels|
      ensures |Apply(s, step).channels| == |s.channels|
      ensures StepAccounted(s, step, t, c, Gain(s0.channels[c], p.subject, p.message, p.ok, ok'))
    {
      SendGain(s, s0.channels[c], t, step.queue, c);
      if PutOf(s, step, c) == [] {
        NothingPut(s.channels[c], Apply(s, step).channels[c], t);
      } else {
        OnePut(s.channels[c], Apply(s, step).channels[c], t, p.message, t);
      }
    }
    PublishedNext(s0, run, s, t, p.subject, p.message, p.ok, expired, step, ok');
  }

  /** A queue that is served adds its own channel. */
  lemma SendGain(s: State, ch: Channel, t: nat, queue: string, c: nat)
    requires Inv(s) && Offered(s, t, queue) && c < |s.channels|
    requires ch.subject == s.channels[c].subject && ch.queue == s.channels[c].queue && ch.open == s.channels[c].open
    ensures var p := s.callers[t];
            Gain(ch, p.subject, p.message, p.ok, p.ok + {queue})
                == if s.storage[p.subject][queue] == c then [p.message] else []
  {
    var p := s.callers[t];
    assert PublisherOk(s.storage, p);
    TargetOpen(s, t, queue);
    assert Stored(s.storage, p.subject, queue);
    if ch.open {
      assert Stored(s.storage, s.channels[c].subject, s.channels[c].queue);
    }
  }

  lemma ReachesInv(capacity: nat, callers: nat, s: State)
    requires Reaches(Init(capacity, callers), s)
    ensures Inv(s)
  {
    var steps :| Runs(Init(capacity, callers), steps) && After(Init(capacity, callers), steps) == s;
    InitInv(capacity, callers);
    RunKeeps(Init(capacity, callers), steps);
  }

  /** The read lock is shared: any number of callers can be publishing at the same time. */
  lemma {:induction false} PublishersTogether(capacity: nat, callers: nat, subject: string, queue: string,
                                              messages: seq<Message>) returns (s: State)
    requires 0 < callers && |messages| <= callers
    ensures Reaches(Init(capacity, callers), s) && |s.callers| == callers
    ensures s.storage == map[subject := map[queue := 0]]
    ensures forall t :: 0 <= t < callers ==>
              s.callers[t] == if t < |messages| then Publishing(subject, messages[t], {queue}, {}, {}) else Idle
    decreases |messages|
  {
    var n := |messages|;
    if n == 0 {
      var s0 := Init(capacity, callers);
      ReachesSelf(s0);
      ReachesStep(s0, s0, Subscribe(0, subject, queue));
      var s1 := Apply(s0, Subscribe(0, subject, queue));
      ReachesStep(s0, s1, Spawn(0));
      s := Apply(s1, Spawn(0));
    } else {
      var s1 := PublishersTogether(capacity, callers, subject, queue, messages[..n - 1]);
      var step := PublishBegin(n - 1, subject, messages[n - 1]);
      ReachesStep(Init(capacity, callers), s1, step);
      s := Apply(s1, step);
      assert s1.storage[subject].Keys == {queue};
    }
  }

  lemma InSelect(s: State, t: nat, queue: string)
    requires Inv(s) && t < |s.callers| && s.callers[t].Publishing? && queue in s.callers[t].todo
    ensures Offered(s, t, queue) && Target(s, t, queue).open
  {
    assert PublisherOk(s.storage, s.callers[t]);
    assert Stored(s.storage, s.callers[t].subject, queue);
    TargetOpen(s, t, queue);
  }

  /** The read lock is taken; with no queue to serve the publisher is through. */
  lemma Begun(s: State, t: nat, subject: string, message: Message)
    requires Inv(s) && Enabled(s, PublishBegin(t, subject, message))
    ensures var step := PublishBegin(t, subject, message);
            && Published(s, [step], Apply(s, step), t, subject, message, {}, {})
            && (subject in s.storage && s.storage[subject] != map[] ==> Working(s, [step], Apply(s, step), t, {}))
  {
    var step := PublishBegin(t, subject, message);
    StepKeeps(s, step);
    forall c | 0 <= c < |s.channels|
      ensures Accounted(s.channels[c], s.channels[c], [], t, [])
    {
      NothingPut(s.channels[c], s.channels[c], t);
    }
    assert Published(s, [], s, t, subject, message, {}, {});
    PublishedNext(s, [], s, t, subject, message, {}, {}, step, {});
    assert [] + [step] == [step];
  }

  lemma Ended(s0: State, run: seq<Step>, s: State, t: nat, expired: set<string>)
    requires Working(s0, run, s, t, expired) && Enabled(s, PublishEnd(t))
    ensures var p := s.callers[t];
            Published(s0, run + [PublishEnd(t)], Apply(s, PublishEnd(t)), t, p.subject, p.message, p.ok, expired)
  {
    var p := s.callers[t];
    forall c | 0 <= c < |s.channels|
      ensures StepAccounted(s, PublishEnd(t), t, c, [])
    {
      NothingPut(s.channels[c], s.channels[c], t);
    }
    PublishedNext(s0, run, s, t, p.subject, p.message, p.ok, expired, PublishEnd(t), p.ok);
  }

  // ---------- publishing alone ----------

  /** No message can be left for the queue: its buffer is full, and of its goroutines none waits for a message
      that could be handed over. */
  ghost predicate NoTaker(s: State, subject: string, queue: string)
    requires Stored(s.storage, subject, queue) && s.storage[subject][queue] < |s.channels|
  {
    var c := s.storage[subject][queue];
    && |s.channels[c].buffer| >= s.capacity
    && (s.channels[c].buffer != []
        || forall w :: 0 <= w < |s.workers| && s.workers[w].channel == c ==>
             !s.workers[w].live || s.workers[w].hand.Some?)
  }

  lemma StalledIffNoTaker(s: State, t: nat, queue: string)
    requires Offered(s, t, queue)
    ensures Stalled(s, t, queue) <==> NoTaker(s, s.callers[t].subject, queue)
  {
  }

  /** The select for the queue, with no others about, was served unless it was stalled. */
  ghost predicate SelectedAlone(s: State, s': State, t: nat, queue: string, sent: bool) {
    && Offered(s, t, queue) && Elsewhere(s, s', s.storage[s.callers[t].subject][queue])
    && (sent <==> !Stalled(s, t, queue))
  }

  lemma {:induction false} Selected(s: State, t: nat, queue: string, step: Step)
    requires Offered(s, t, queue) && Target(s, t, queue).open && Enabled(s, step)
    requires step == Send(t, queue) || step == TimeOut(t, queue) || (step.HandOff? && step == HandOff(t, queue, step.w))
    requires step.TimeOut? ==> Stalled(s, t, queue)
    ensures SelectedAlone(s, Apply(s, step), t, queue, !step.TimeOut?)
  {
    var c := s.storage[s.callers[t].subject][queue];
    forall d | 0 <= d < |s.channels| && d != c
      ensures SameAt(s, Apply(s, step), d)
    {
    }
  }

  ghost predicate SameAt(s: State, s': State, c: nat) {
    && c < |s.channels| == |s'.channels| && |s.workers| == |s'.workers| && s.capacity == s'.capacity
    && s'.channels[c] == s.channels[c]
    && forall w :: 0 <= w < |s.workers| ==>
         s'.workers[w] == s.workers[w] || (s.workers[w].channel != c && s'.workers[w].channel != c)
  }

  /** All channels but `c` and their goroutines are as before. */
  ghost predicate Elsewhere(s: State, s': State, c: nat) {
    s'.storage == s.storage && forall d :: 0 <= d < |s.channels| && d != c ==> SameAt(s, s', d)
  }

  /** The queues still to be served are as they were at the start, and of the others those without a taker at the
      start have been given up. */
  ghost predicate Judged(s0: State, s: State, subject: string, queues: set<string>, todo: set<string>,
                         failed: set<string>) {
    && s.storage == s0.storage
    && (forall q :: q in queues ==>
          Stored(s0.storage, subject, q) && s0.storage[subject][q] < |s0.channels|)
    && (forall q :: q in todo ==> q in queues && SameAt(s0, s, s0.storage[subject][q]))
    && forall q :: q in queues - todo ==> (q in failed <==> NoTaker(s0, subject, q))
  }

  /** Those of the queues that were given up are those without a taker. */
  ghost predicate GivenUp(s: State, subject: string, queues: set<string>, failed: set<string>) {
    forall q :: q in queues ==>
      && Stored(s.storage, subject, q) && s.storage[subject][q] < |s.channels|
      && (q in failed <==> NoTaker(s, subject, q))
  }

  lemma AllJudged(s0: State, s: State, subject: string, queues: set<string>, failed: set<string>)
    requires Judged(s0, s, subject, queues, {}, failed)
    ensures GivenUp(s0, subject, queues, failed)
  {
    assert queues - {} == queues;
  }

  ghost predicate BuffersEmpty(s: State, subject: string) {
    forall c :: 0 <= c < |s.channels| && s.channels[c].subject == subject ==> s.channels[c].buffer == []
  }

  lemma RoomForAll(s: State, subject: string, queues: set<string>, failed: set<string>)
    requires Inv(s) && GivenUp(s, subject, queues, failed) && failed <= queues
    ensures s.capacity > 0 && BuffersEmpty(s, subject) ==> failed == {}
  {
    forall q | q in failed
      ensures s.channels[s.storage[subject][q]].subject == subject
    {
      assert Stored(s.storage, subject, q);
    }
  }

  lemma JudgedFirst(s0: State, s: State, subject: string, queues: set<string>)
    requires Inv(s0) && subject in s0.storage && queues == s0.storage[subject].Keys
    requires s == s0.(callers := s.callers)
    ensures Judged(s0, s, subject, queues, queues, {})
  {
    forall q | q in queues
      ensures Stored(s0.storage, subject, q) && s0.storage[subject][q] < |s0.channels|
      ensures SameAt(s0, s, s0.storage[subject][q])
    {
      assert Stored(s0.storage, subject, q);
    }
  }

  lemma {:induction false} JudgedNext(s0: State, s: State, s': State, t: nat, subject: string, queues: set<string>,
                                      todo: set<string>, failed: set<string>, failed': set<string>, queue: string)
    requires Inv(s) && Judged(s0, s, subject, queues, todo, failed) && queue in todo
    requires t < |s.callers| && s.callers[t].Publishing? && s.callers[t].subject == subject
    requires SelectedAlone(s, s', t, queue, failed' == failed) && queue !in failed
    requires failed' == failed || failed' == failed + {queue}
    ensures Judged(s0, s', subject, queues, todo - {queue}, failed')
  {
    StalledIffNoTaker(s, t, queue);
    SameTaker(s0, s, subject, queue);
    forall q | q in todo - {queue}
      ensures SameAt(s0, s', s0.storage[subject][q])
    {
      assert Stored(s.storage, subject, q) && Stored(s.storage, subject, queue);
      SameTwice(s0, s, s', s0.storage[subject][q]);
    }
  }

  lemma {:induction false} SameTaker(s0: State, s: State, subject: string, queue: string)
    requires Stored(s0.storage, subject, queue) && s.storage == s0.storage
    requires SameAt(s0, s, s0.storage[subject][queue])
    ensures NoTaker(s0, subject, queue) <==> NoTaker(s, subject, queue)
  {
  }

  lemma {:induction false} SameTwice(s0: State, s: State, s': State, c: nat)
    requires SameAt(s0, s, c) && SameAt(s, s', c)
    ensures SameAt(s0, s', c)
  {
  }

  class ChannelBrokerHandler {
    const capacity: nat
    ghost const callers: nat
    var state: State

    /** The state can be reached from the broker's creation. */
    ghost predicate Valid()
      reads this
    {
      Reaches(Init(capacity, callers), state)
    }

    constructor (capacity: nat, callers: nat)
      ensures Valid() && state == Init(capacity, callers)
    {
      ReachesSelf(Init(capacity, callers));
      this.capacity, this.callers, state := capacity, callers, Init(capacity, callers);
    }

    /** One step of the relation. */
    method TakeStep(step: Step)
      requires Valid() && Enabled(state, step)
      modifies this
      ensures Valid() && state == Apply(old(state), step)
    {
      ReachesStep(Init(capacity, callers), state, step);
      state := Apply(state, step);
    }

    /** One step of the relation, taken since state `from`. */
    method Take(step: Step, ghost from: State)
      requires Valid() && Enabled(state, step) && Reaches(from, state)
      modifies this
      ensures Valid() && state == Apply(old(state), step) && Reaches(from, state)
    {
      ReachesStep(Init(capacity, callers), state, step);
      ReachesStep(from, state, step);
      state := Apply(state, step);
    }

    method SubscribeWithChannel(t: nat, subject: string, queue: string)
      requires Valid() && t < |state.callers| && state.callers[t].Idle? && !Writing(state) && !Reading(state)
      modifies this
      ensures Valid() && Reaches(old(state), state) && state.callers == old(state.callers)
      ensures var existing := Stored(old(state.storage), subject, queue);
              var c := if existing then old(state.storage)[subject][queue] else |old(state.channels)|;
              && state.workers == old(state.workers) + [Worker(c, None, [], true)]
              && state.channels == (if existing then old(state.channels)
                                    else old(state.channels) + [Channel(subject, queue, true, [], [], [])])
              && Stored(state.storage, subject, queue) && state.storage[subject][queue] == c
              && forall s, q :: (s, q) != (subject, queue) ==>
                   (Stored(state.storage, s, q) <==> Stored(old(state.storage), s, q))
                   && (Stored(state.storage, s, q) ==> state.storage[s][q] == old(state.storage)[s][q])
    {
      ReachesSelf(state);
      Take(Subscribe(t, subject, queue), old(state));
      Take(Spawn(t), old(state));
      assert state.callers == old(state.callers);
    }

    /** Sends to every queue of the subject, in any order, or times out on it, while others go on: before the
        k-th select the steps `schedule[k]` gives are taken, as far as they are possible then and not those of
        `t`. Every queue reported as served has got the message from this call exactly once and no other queue
        has; a queue is given up only when it is stalled or its timer had expired at its select; and else every
        channel has accepted what others put on it. With no others about and no timer expired, exactly the queues
        are given up that nothing could take a message for when the call began, so none when the buffers were
        empty and have room. */
    method Publish(t: nat, subject: string, message: Message, schedule: seq<Turn>)
      returns (ok: set<string>, failed: set<string>, ghost run: seq<Step>, ghost order: seq<string>)
      requires Valid() && t < |state.callers| && state.callers[t].Idle? && !Writing(state)
      modifies this
      ensures Valid() && t < |state.callers| && state.callers[t].Idle?
      ensures ok !! failed
      ensures ok + failed == if subject in old(state.storage) then old(state.storage)[subject].Keys else {}
      ensures Orders(order, ok + failed) && TimersTaken(order, failed, schedule)
      ensures Published(old(state), run, state, t, subject, message, ok, Expired(order, schedule))
      ensures schedule == [] ==> GivenUp(old(state), subject, ok + failed, failed)
      ensures schedule == [] && old(state).capacity > 0 && BuffersEmpty(old(state), subject) ==> failed == {}
    {
      ok, failed, order := {}, {}, [];
      ReachesInv(capacity, callers, state);
      Begun(state, t, subject, message);
      run := [PublishBegin(t, subject, message)];
      TakeStep(PublishBegin(t, subject, message));
      assert Expired([], schedule) == {};
      if subject !in state.storage || state.storage[subject] == map[] {
        return;
      }
      JudgedFirst(old(state), state, subject, state.storage[subject].Keys);
      ok, failed, run, order := PublishAll(t, state.storage[subject].Keys, schedule, old(state), run);
      assert schedule == [] && old(state).capacity > 0 && BuffersEmpty(old(state), subject) ==> failed == {} by {
        if schedule == [] {
          RoomForAll(old(state), subject, ok + failed, failed);
        }
      }
    }

    /** The loop over the queues, under the read lock. */
    method PublishAll(t: nat, queues: set<string>, schedule: seq<Turn>, ghost from: State, ghost run0: seq<Step>)
      returns (ok: set<string>, failed: set<string>, ghost run: seq<Step>, ghost order: seq<string>)
      requires Valid() && Working(from, run0, state, t, {})
      requires state.callers[t].todo == queues && state.callers[t].ok == {} && state.callers[t].failed == {}
      requires Judged(from, state, state.callers[t].subject, queues, queues, {})
      modifies this
      ensures Valid() && t < |state.callers| && state.callers[t].Idle?
      ensures ok !! failed && ok + failed == queues && Orders(order, queues)
      ensures TimersTaken(order, failed, schedule)
      ensures Published(from, run, state, t, old(state).callers[t].subject, old(state).callers[t].message, ok,
                        Expired(order, schedule))
      ensures schedule == [] ==> GivenUp(from, old(state).callers[t].subject, queues, failed)
    {
      ghost var p := state.callers[t];
      var todo, k := queues, 0;
      ghost var expired: set<string>;
      ok, failed, run, order, expired := {}, {}, run0, [], {};
      NotTurned(queues, schedule);
      while todo != {}
        invariant Valid() && Working(from, run, state, t, expired)
        invariant state.callers[t] == p.(todo := todo, ok := ok, failed := failed)
        invariant k == |order| && Turned(queues, todo, ok, failed, order, expired, schedule)
        invariant schedule == [] ==> Judged(from, state, p.subject, queues, todo, failed)
        decreases todo
      {
        var queue :| queue in todo;
        ok, failed, run, expired := Serve(t, queue, TurnAt(schedule, k), queues, todo, ok, failed, from, run, order,
                                          expired, schedule);
        order := order + [queue];
        todo, k := todo - {queue}, k + 1;
      }
      AllTurned(queues, ok, failed, order, expired, schedule);
      assert schedule == [] ==> GivenUp(from, p.subject, queues, failed) by {
        if schedule == [] {
          AllJudged(from, state, p.subject, queues, failed);
        }
      }
      run := Finish(t, TurnAt(schedule, k), from, run, expired);
    }

    /** One turn of the loop. */
    method Serve(t: nat, queue: string, turn: Turn, ghost queues: set<string>, ghost todo: set<string>,
                 ok0: set<string>, failed0: set<string>, ghost from: State, ghost run0: seq<Step>,
                 ghost order: seq<string>, ghost before: set<string>, ghost schedule: seq<Turn>)
      returns (ok: set<string>, failed: set<string>, ghost run: seq<Step>, ghost expired: set<string>)
      requires Valid() && Working(from, run0, state, t, before) && queue in todo && turn == TurnAt(schedule, |order|)
      requires var p := state.callers[t]; p.todo == todo && p.ok == ok0 && p.failed == failed0
      requires Turned(queues, todo, ok0, failed0, order, before, schedule)
      requires schedule == [] ==> Judged(from, state, state.callers[t].subject, queues, todo, failed0)
      modifies this
      ensures Valid() && Working(from, run, state, t, expired)
      ensures state.callers[t] == old(state).callers[t].(todo := todo - {queue}, ok := ok, failed := failed)
      ensures Turned(queues, todo - {queue}, ok, failed, order + [queue], expired, schedule)
      ensures schedule == [] ==> Judged(from, state, state.callers[t].subject, queues, todo - {queue}, failed)
    {
      run := Meanwhile(t, turn.others, from, run0, before);
      expired := before + if turn.expired then {queue} else {};
      WorkingLonger(from, run, state, t, before, expired);
      var sent;
      sent, run := Offer(t, queue, turn, from, run, expired);
      NotServedYet(queues, todo, ok0, failed0, order, before, schedule, queue);
      TurnedNext(queues, todo, ok0, failed0, order, before, schedule, queue, sent);
      if sent {
        ok, failed := ok0 + {queue}, failed0;
      } else {
        ok, failed := ok0, failed0 + {queue};
      }
      assert schedule == [] ==> Judged(from, state, state.callers[t].subject, queues, todo - {queue}, failed) by {
        if schedule == [] {
          JudgedNext(from, old(state), state, t, state.callers[t].subject, queues, todo, failed0, failed, queue);
        }
      }
    }

    /** The end of the loop, where the read lock is given back. */
    method Finish(t: nat, turn: Turn, ghost from: State, ghost run0: seq<Step>, ghost expired: set<string>)
      returns (ghost run: seq<Step>)
      requires Valid() && Working(from, run0, state, t, expired) && state.callers[t].todo == {}
      modifies this
      ensures Valid() && t < |state.callers| && state.callers[t].Idle?
      ensures var p := old(state).callers[t]; Published(from, run, state, t, p.subject, p.message, p.ok, expired)
    {
      run := Meanwhile(t, turn.others, from, run0, expired);
      Ended(from, run, state, t, expired);
      run := run + [PublishEnd(t)];
      TakeStep(PublishEnd(t));
    }

    /** What others do while publisher `t` waits. */
    method Meanwhile(t: nat, steps: seq<Step>, ghost from: State, ghost run0: seq<Step>, ghost expired: set<string>)
      returns (ghost run: seq<Step>)
      requires Valid() && Working(from, run0, state, t, expired)
      modifies this
      ensures Valid() && Working(from, run, state, t, expired) && state.callers[t] == old(state).callers[t]
      ensures steps == [] ==> state == old(state)
    {
      run := run0;
      for i := 0 to |steps|
        invariant steps == [] ==> state == old(state)
        invariant Valid() && Working(from, run, state, t, expired) && state.callers[t] == old(state).callers[t]
      {
        if !By(steps[i], t) && Enabled(state, steps[i]) {
          WorkingOthers(from, run, state, t, steps[i], expired);
          run := run + [steps[i]];
          TakeStep(steps[i]);
        }
      }
    }

    /** A goroutine that waits on the channel, if there is one. */
    method FindReady(c: nat) returns (w: Option<nat>)
      ensures match w
              case Some(v) => v < |state.workers| && Ready(state.workers[v], c)
              case None => forall v :: 0 <= v < |state.workers| ==> !Ready(state.workers[v], c)
    {
      for v := 0 to |state.workers|
        invariant forall u :: 0 <= u < v ==> !Ready(state.workers[u], c)
      {
        if Ready(state.workers[v], c) {
          return Some(v);
        }
      }
      return None;
    }

    /** Which case a select takes: the buffer or a waiting goroutine takes the message, or it times out; when the
        timer has expired and the message could be taken, too, either may happen. */
    method Choose(t: nat, queue: string, turn: Turn) returns (step: Step)
      requires Offered(state, t, queue)
      ensures Enabled(state, step) && (step == Send(t, queue) || step == TimeOut(t, queue) || step.HandOff?)
      ensures step.HandOff? ==> step == HandOff(t, queue, step.w)
      ensures step.TimeOut? ==> turn.expired || Stalled(state, t, queue)
      ensures TakesTimer(turn) ==> step.TimeOut?
    {
      var c := state.storage[state.callers[t].subject][queue];
      var w := FindReady(c);
      if TakesTimer(turn) {
        return TimeOut(t, queue);
      }
      if |state.channels[c].buffer| < state.capacity {
        return Send(t, queue);
      }
      if state.channels[c].buffer == [] && w.Some? {
        return HandOff(t, queue, w.value);
      }
      return TimeOut(t, queue);
    }

    /** The select statement for one queue. */
    method Offer(t: nat, queue: string, turn: Turn, ghost from: State, ghost run0: seq<Step>,
                 ghost expired: set<string>)
      returns (sent: bool, ghost run: seq<Step>)
      requires Valid() && Working(from, run0, state, t, expired) && queue in state.callers[t].todo
      requires turn.expired ==> queue in expired
      modifies this
      ensures Valid() && Working(from, run, state, t, expired)
      ensures var p := old(state).callers[t];
              state.callers[t] == (if sent then p.(todo := p.todo - {queue}, ok := p.ok + {queue})
                                   else p.(todo := p.todo - {queue}, failed := p.failed + {queue}))
      ensures TakesTimer(turn) ==> !sent
      ensures !turn.expired ==> SelectedAlone(old(state), state, t, queue, sent)
    {
      assert Offered(state, t, queue) && Target(state, t, queue).open by {
        InSelect(state, t, queue);
      }
      var step := Choose(t, queue, turn);
      sent := !step.TimeOut?;
      assert !turn.expired ==> SelectedAlone(state, Apply(state, step), t, queue, sent) by {
        if !turn.expired {
          Selected(state, t, queue, step);
        }
      }
      if sent {
        WorkingSend(from, run0, state, t, step, expired);
      } else {
        WorkingTimeOut(from, run0, state, t, queue, expired);
      }
      run := run0 + [step];
      TakeStep(step);
    }

    method Unsubscribe(t: nat, subject: string)
      requires Valid() && t < |state.callers| && state.callers[t].Idle? && !Writing(state) && !Reading(state)
      modifies this
      ensures Valid() && Reaches(old(state), state) && state.callers == old(state.callers)
      ensures state.storage == old(state.storage) - {subject} && state.workers == old(state.workers)
      ensures ClosedIn(old(state.channels), state.channels, Some(subject))
    {
      ghost var before := state;
      ReachesSelf(state);
      Take(TearBegin(t, Some(subject)), before);
      if subject in state.storage {
        CloseSubject(t, subject, before);
      }
      Take(TearEnd(t), before);
      assert state.callers == before.callers;
      assert ClosedIn(before.channels, state.channels, Some(subject)) by {
        TornDown(capacity, callers, before, state, Some(subject), {subject});
      }
    }

    method CloseConnection(t: nat)
      requires Valid() && t < |state.callers| && state.callers[t].Idle? && !Writing(state) && !Reading(state)
      modifies this
      ensures Valid() && Reaches(old(state), state) && state.callers == old(state.callers)
      ensures state.storage == map[] && state.workers == old(state.workers)
      ensures ClosedIn(old(state.channels), state.channels, None)
    {
      ghost var before := state;
      ReachesSelf(state);
      Take(TearBegin(t, None), before);
      while state.storage.Keys != {}
        invariant Valid() && Reaches(before, state)
        invariant state.callers == before.callers[t := Tearing(None, None)] && state.workers == before.workers
        invariant OnlyOpenChanged(before.channels, state.channels)
        decreases state.storage.Keys
      {
        var subject :| subject in state.storage.Keys;
        CloseSubject(t, subject, before);
      }
      Take(TearEnd(t), before);
      assert state.callers == before.callers;
      assert state.storage == before.storage - before.storage.Keys;
      TornDown(capacity, callers, before, state, None, before.storage.Keys);
    }

    /** One subject: its queues, and then its entry. */
    method CloseSubject(t: nat, subject: string, ghost before: State)
      requires Valid() && Reaches(before, state) && t < |state.callers| && subject in state.storage
      requires state.callers[t].Tearing? && state.callers[t].pending.None? && InScope(state.callers[t].scope, subject)
      requires OnlyOpenChanged(before.channels, state.channels)
      modifies this
      ensures Valid() && Reaches(before, state) && state.callers == old(state.callers)
              && state.workers == old(state.workers)
      ensures state.storage == old(state.storage) - {subject}
      ensures OnlyOpenChanged(before.channels, state.channels)
    {
      CloseQueues(t, subject, before);
      Take(TearSubject(t, subject), before);
    }

    /** Closes and deletes every queue of one subject. */
    method CloseQueues(t: nat, subject: string, ghost before: State)
      requires Valid() && Reaches(before, state) && t < |state.callers| && subject in state.storage
      requires state.callers[t].Tearing? && state.callers[t].pending.None? && InScope(state.callers[t].scope, subject)
      requires OnlyOpenChanged(before.channels, state.channels)
      modifies this
      ensures Valid() && Reaches(before, state) && state.callers == old(state.callers)
              && state.workers == old(state.workers)
      ensures state.storage == old(state.storage)[subject := map[]]
      ensures OnlyOpenChanged(before.channels, state.channels)
    {
      while state.storage[subject].Keys != {}
        invariant Valid() && Reaches(before, state) && subject in state.storage
        invariant state.callers == old(state.callers) && state.workers == old(state.workers)
        invariant state.storage == old(state.storage)[subject := state.storage[subject]]
        invariant OnlyOpenChanged(before.channels, state.channels)
        decreases state.storage[subject].Keys
      {
        var queue :| queue in state.storage[subject].Keys;
        CloseQueue(t, subject, queue, before);
      }
      assert state.storage[subject] == map[];
    }

    /** `close(ch)` and `delete(qstorage, queue)`. */
    method CloseQueue(t: nat, subject: string, queue: string, ghost before: State)
      requires Valid() && Reaches(before, state) && t < |state.callers| && Stored(state.storage, subject, queue)
      requires state.callers[t].Tearing? && state.callers[t].pending.None? && InScope(state.callers[t].scope, subject)
      requires OnlyOpenChanged(before.channels, state.channels)
      modifies this
      ensures Valid() && Reaches(before, state) && state.callers == old(state.callers)
              && state.workers == old(state.workers)
      ensures state.storage == old(state.storage)[subject := old(state.storage)[subject] - {queue}]
      ensures OnlyOpenChanged(before.channels, state.channels)
    {
      ReachesInv(capacity, callers, state);
      ClosesOpen(state, t, subject, queue);
      Take(TearClose(t, subject, queue), before);
      Take(TearDelete(t), before);
      assert state.callers == old(state.callers);
    }
  }

  /** Only channels were closed, nothing else about them changed. */
  ghost predicate OnlyOpenChanged(channels: seq<Channel>, channels': seq<Channel>) {
    && |channels'| == |channels|
    && forall c :: 0 <= c < |channels| ==>
         channels'[c] == channels[c].(open := channels'[c].open) && (channels'[c].open ==> channels[c].open)
  }

  lemma TornDown(capacity: nat, callers: nat, s: State, s': State, scope: Option<string>, subjects: set<string>)
    requires Reaches(Init(capacity, callers), s) && Reaches(Init(capacity, callers), s') && !Writing(s)
    requires s'.callers == s.callers && OnlyOpenChanged(s.channels, s'.channels)
    requires s'.storage == s.storage - subjects
    requires forall a :: a in subjects ==> InScope(scope, a)
    requires forall a :: a in s.storage && InScope(scope, a) ==> a in subjects
    ensures ClosedIn(s.channels, s'.channels, scope)
  {
    ReachesInv(capacity, callers, s);
    ReachesInv(capacity, callers, s');
    ScopeClosed(s, s', scope);
  }

  /** With no deletion pending, the channels that were closed are those whose entries are gone. */
  lemma ScopeClosed(s: State, s': State, scope: Option<string>)
    requires Inv(s) && Inv(s') && !Writing(s) && s'.callers == s.callers
    requires OnlyOpenChanged(s.channels, s'.channels)
    requires forall a, b :: Stored(s'.storage, a, b) <==> Stored(s.storage, a, b) && !InScope(scope, a)
    requires forall a, b :: Stored(s'.storage, a, b) ==> s'.storage[a][b] == s.storage[a][b]
    ensures ClosedIn(s.channels, s'.channels, scope)
  {
    NoneCondemned(s.callers);
    forall c | 0 <= c < |s.channels|
      ensures s'.channels[c].open == (s.channels[c].open && !InScope(scope, s.channels[c].subject))
    {
      var a, b := s.channels[c].subject, s.channels[c].queue;
      if s.channels[c].open {
        assert Stored(s.storage, a, b) && s.storage[a][b] == c;
      }
      if s'.channels[c].open {
        assert Stored(s'.storage, a, b);
      }
    }
  }
}
