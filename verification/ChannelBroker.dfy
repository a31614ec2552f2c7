/** The in-process broker as interleaved steps: publishers under the read lock, subscribers and
    teardown under the write lock, and delivery goroutines that take no lock. */
module ChannelBroker {
  import opened Options

  type Message = string

  /** A queue's channel, with the history of what was sent to it and who received it. */
  datatype Channel = Channel(
    subject: string, queue: string, open: bool, buffer: seq<Message>,
    accepted: seq<Message>, received: seq<(nat, Message)>)

  /** A delivery goroutine: it holds at most one message between its channel and its consumer. */
  datatype Worker = Worker(channel: nat, hand: Option<Message>, delivered: seq<Message>, live: bool)

  /** What a caller of the broker is doing. */
  datatype Caller =
    | Idle
    | Publishing(subject: string, message: Message, todo: set<string>, ok: set<string>, failed: set<string>)
    | Spawning(channel: nat)
    | Tearing(scope: Option<string>, pending: Option<(string, string)>)

  type Storage = map<string, map<string, nat>>

  datatype State = State(
    capacity: nat, storage: Storage, channels: seq<Channel>, workers: seq<Worker>, callers: seq<Caller>, panicked: bool)

  datatype Step =
    | PublishBegin(t: nat, subject: string, message: Message)
    | Send(t: nat, queue: string)
    | HandOff(t: nat, queue: string, w: nat)
    | TimeOut(t: nat, queue: string)
    | PublishEnd(t: nat)
    | Subscribe(t: nat, subject: string, queue: string)
    | Spawn(t: nat)
    | TearBegin(t: nat, scope: Option<string>)
    | TearClose(t: nat, subject: string, queue: string)
    | TearDelete(t: nat)
    | TearSubject(t: nat, subject: string)
    | TearEnd(t: nat)
    | Receive(w: nat)
    | Deliver(w: nat)
    | Exit(w: nat)

  function Init(capacity: nat, callers: nat): State {
    State(capacity, map[], [], [], seq(callers, i => Idle), false)
  }

  // ---------- the read-write lock ----------

  predicate Reading(s: State) {
    exists t :: 0 <= t < |s.callers| && s.callers[t].Publishing?
  }

  predicate Writing(s: State) {
    exists t :: 0 <= t < |s.callers| && s.callers[t].Tearing?
  }

  predicate Stored(storage: Storage, subject: string, queue: string) {
    subject in storage && queue in storage[subject]
  }

  // ---------- steps ----------

  predicate Enabled(s: State, step: Step) {
    match step
    case PublishBegin(t, _, _) => t < |s.callers| && s.callers[t].Idle? && !Writing(s)
    case Send(t, queue) => Offered(s, t, queue) && |Target(s, t, queue).buffer| < s.capacity
    case HandOff(t, queue, w) =>
      && Offered(s, t, queue) && w < |s.workers|
      && Ready(s.workers[w], s.storage[s.callers[t].subject][queue]) && Target(s, t, queue).buffer == []
    case TimeOut(t, queue) => Offered(s, t, queue)
    case PublishEnd(t) => t < |s.callers| && s.callers[t].Publishing? && s.callers[t].todo == {}
    case Subscribe(t, _, _) => t < |s.callers| && s.callers[t].Idle? && !Writing(s) && !Reading(s)
    case Spawn(t) => t < |s.callers| && s.callers[t].Spawning?
    case TearBegin(t, _) => t < |s.callers| && s.callers[t].Idle? && !Writing(s) && !Reading(s)
    case TearClose(t, subject, queue) =>
      && t < |s.callers| && s.callers[t].Tearing? && s.callers[t].pending.None?
      && InScope(s.callers[t].scope, subject) && Stored(s.storage, subject, queue)
      && s.storage[subject][queue] < |s.channels|
    case TearDelete(t) =>
      && t < |s.callers| && s.callers[t].Tearing? && s.callers[t].pending.Some?
      && s.callers[t].pending.value.0 in s.storage
    case TearSubject(t, subject) =>
      && t < |s.callers| && s.callers[t].Tearing? && s.callers[t].pending.None?
      && InScope(s.callers[t].scope, subject) && subject in s.storage && s.storage[subject] == map[]
    case TearEnd(t) =>
      && t < |s.callers| && s.callers[t].Tearing? && s.callers[t].pending.None?
      && forall subject :: subject in s.storage ==> !InScope(s.callers[t].scope, subject)
    case Receive(w) => w < |s.workers| && s.workers[w].channel < |s.channels|
                       && Ready(s.workers[w], s.workers[w].channel) && s.channels[s.workers[w].channel].buffer != []
    case Deliver(w) => w < |s.workers| && s.workers[w].hand.Some?
    case Exit(w) => w < |s.workers| && s.workers[w].channel < |s.channels|
                    && Ready(s.workers[w], s.workers[w].channel)
                    && !s.channels[s.workers[w].channel].open && s.channels[s.workers[w].channel].buffer == []
  }

  predicate InScope(scope: Option<string>, subject: string) {
    scope.Some? ==> scope.value == subject
  }

  /** A goroutine waiting to receive from the channel. */
  predicate Ready(w: Worker, channel: nat) {
    w.live && w.hand.None? && w.channel == channel
  }

  /** Publisher `t` is in the select statement for `queue`. */
  predicate Offered(s: State, t: nat, queue: string) {
    && t < |s.callers| && s.callers[t].Publishing? && queue in s.callers[t].todo
    && Stored(s.storage, s.callers[t].subject, queue) && s.storage[s.callers[t].subject][queue] < |s.channels|
  }

  function Target(s: State, t: nat, queue: string): Channel
    requires Offered(s, t, queue)
  {
    s.channels[s.storage[s.callers[t].subject][queue]]
  }

  /** Sending on a closed channel and closing a closed channel panic. */
  function Apply(s: State, step: Step): State
    requires Enabled(s, step)
  {
    match step
    case PublishBegin(t, subject, message) =>
      if subject !in s.storage || s.storage[subject] == map[] then s
      else s.(callers := s.callers[t := Publishing(subject, message, s.storage[subject].Keys, {}, {})])
    case Send(t, queue) =>
      var c := s.storage[s.callers[t].subject][queue];
      var ch := s.channels[c];
      var p := s.callers[t];
      if !ch.open then s.(panicked := true)
      else s.(channels := s.channels[c := ch.(buffer := ch.buffer + [p.message],
                                              accepted := ch.accepted + [p.message])],
              callers := s.callers[t := p.(todo := p.todo - {queue}, ok := p.ok + {queue})])
    case HandOff(t, queue, w) =>
      var c := s.storage[s.callers[t].subject][queue];
      var ch := s.channels[c];
      var p := s.callers[t];
      if !ch.open then s.(panicked := true)
      else s.(channels := s.channels[c := ch.(accepted := ch.accepted + [p.message],
                                              received := ch.received + [(w, p.message)])],
              workers := s.workers[w := s.workers[w].(hand := Some(p.message))],
              callers := s.callers[t := p.(todo := p.todo - {queue}, ok := p.ok + {queue})])
    case TimeOut(t, queue) =>
      var p := s.callers[t];
      s.(callers := s.callers[t := p.(todo := p.todo - {queue}, failed := p.failed + {queue})])
    case PublishEnd(t) => s.(callers := s.callers[t := Idle])
    case Subscribe(t, subject, queue) =>
      var queues := if subject in s.storage then s.storage[subject] else map[];
      if queue in queues then
        s.(storage := s.storage[subject := queues], callers := s.callers[t := Spawning(queues[queue])])
      else
        s.(storage := s.storage[subject := queues[queue := |s.channels|]],
           channels := s.channels + [Channel(subject, queue, true, [], [], [])],
           callers := s.callers[t := Spawning(|s.channels|)])
    case Spawn(t) =>
      s.(workers := s.workers + [Worker(s.callers[t].channel, None, [], true)], callers := s.callers[t := Idle])
    case TearBegin(t, scope) => s.(callers := s.callers[t := Tearing(scope, None)])
    case TearClose(t, subject, queue) =>
      var c := s.storage[subject][queue];
      if !s.channels[c].open then s.(panicked := true)
      else s.(channels := s.channels[c := s.channels[c].(open := false)],
              callers := s.callers[t := s.callers[t].(pending := Some((subject, queue)))])
    case TearDelete(t) =>
      var (subject, queue) := s.callers[t].pending.value;
      s.(storage := s.storage[subject := s.storage[subject] - {queue}],
         callers := s.callers[t := s.callers[t].(pending := None)])
    case TearSubject(t, subject) => s.(storage := s.storage - {subject})
    case TearEnd(t) => s.(callers := s.callers[t := Idle])
    case Receive(w) =>
      var c := s.workers[w].channel;
      var ch := s.channels[c];
      s.(channels := s.channels[c := ch.(buffer := ch.buffer[1..], received := ch.received + [(w, ch.buffer[0])])],
         workers := s.workers[w := s.workers[w].(hand := Some(ch.buffer[0]))])
    case Deliver(w) =>
      var k := s.workers[w];
      s.(workers := s.workers[w := k.(hand := None, delivered := k.delivered + [k.hand.value])])
    case Exit(w) => s.(workers := s.workers[w := s.workers[w].(live := false)])
  }

  // ==================== invariants ====================

  /** Readers exclude writers, and there is at most one writer. */
  predicate Exclusive(callers: seq<Caller>) {
    forall t, u :: 0 <= t < |callers| && 0 <= u < |callers| && callers[t].Tearing? ==>
      !callers[u].Publishing? && (callers[u].Tearing? ==> u == t)
  }

  /** The entry a holder of the write lock has closed and not yet deleted. */
  predicate Condemned(callers: seq<Caller>, subject: string, queue: string) {
    exists t :: 0 <= t < |callers| && callers[t].Tearing? && callers[t].pending == Some((subject, queue))
  }

  /** A channel is in the storage exactly while it is open, except the one being deleted. */
  ghost predicate Indexed(storage: Storage, channels: seq<Channel>, callers: seq<Caller>) {
    && (forall subject, queue :: Stored(storage, subject, queue) ==>
          var c := storage[subject][queue];
          && c < |channels| && channels[c].subject == subject && channels[c].queue == queue
          && (channels[c].open <==> !Condemned(callers, subject, queue)))
    && (forall c :: 0 <= c < |channels| && channels[c].open ==>
          Stored(storage, channels[c].subject, channels[c].queue)
          && storage[channels[c].subject][channels[c].queue] == c)
    && (forall subject, queue :: Condemned(callers, subject, queue) ==> Stored(storage, subject, queue))
  }

  /** A publisher's queues are split into those to do, those served and those timed out. */
  predicate PublisherOk(storage: Storage, p: Caller) {
    p.Publishing? ==>
      && p.subject in storage && p.todo + p.ok + p.failed == storage[p.subject].Keys
      && p.todo !! p.ok !! p.failed
  }

  function Messages(received: seq<(nat, Message)>): seq<Message> {
    if received == [] then [] else Messages(received[..|received| - 1]) + [received[|received| - 1].1]
  }

  /** What goroutine `w` received. */
  function ReceivedBy(received: seq<(nat, Message)>, w: nat): seq<Message> {
    if received == [] then []
    else
      var last := received[|received| - 1];
      ReceivedBy(received[..|received| - 1], w) + (if last.0 == w then [last.1] else [])
  }

  /** Everything accepted was received or is buffered, in order. */
  predicate ChannelOk(capacity: nat, workers: seq<Worker>, c: nat, ch: Channel) {
    && ch.accepted == Messages(ch.received) + ch.buffer
    && |ch.buffer| <= capacity
    && forall i :: 0 <= i < |ch.received| ==> ch.received[i].0 < |workers| && workers[ch.received[i].0].channel == c
  }

  function InHand(w: Worker): seq<Message> {
    if w.hand.Some? then [w.hand.value] else []
  }

  /** A goroutine delivered what it received, except what is in its hand; it ends only on a drained closed channel. */
  predicate WorkerOk(channels: seq<Channel>, w: nat, k: Worker) {
    && k.channel < |channels|
    && ReceivedBy(channels[k.channel].received, w) == k.delivered + InHand(k)
    && (!k.live ==> k.hand.None? && !channels[k.channel].open && channels[k.channel].buffer == [])
  }

  /** Some goroutine was started, or is about to be started, for the channel. */
  predicate Served(workers: seq<Worker>, callers: seq<Caller>, c: nat) {
    || (exists w :: 0 <= w < |workers| && workers[w].channel == c)
    || (exists t :: 0 <= t < |callers| && callers[t] == Spawning(c))
  }

  predicate PublishersOk(storage: Storage, callers: seq<Caller>) {
    forall t :: 0 <= t < |callers| ==> PublisherOk(storage, callers[t])
  }

  predicate SpawnsOk(channels: seq<Channel>, callers: seq<Caller>) {
    forall t :: 0 <= t < |callers| && callers[t].Spawning? ==> callers[t].channel < |channels|
  }

  predicate ChannelsOk(capacity: nat, workers: seq<Worker>, channels: seq<Channel>) {
    forall c :: 0 <= c < |channels| ==> ChannelOk(capacity, workers, c, channels[c])
  }

  predicate WorkersOk(channels: seq<Channel>, workers: seq<Worker>) {
    forall w :: 0 <= w < |workers| ==> WorkerOk(channels, w, workers[w])
  }

  predicate AllServed(channels: seq<Channel>, workers: seq<Worker>, callers: seq<Caller>) {
    forall c :: 0 <= c < |channels| ==> Served(workers, callers, c)
  }

  ghost predicate Inv(s: State) {
    && !s.panicked
    && Exclusive(s.callers)
    && Indexed(s.storage, s.channels, s.callers)
    && PublishersOk(s.storage, s.callers)
    && SpawnsOk(s.channels, s.callers)
    && ChannelsOk(s.capacity, s.workers, s.channels)
    && WorkersOk(s.channels, s.workers)
    && AllServed(s.channels, s.workers, s.callers)
  }

  // ---------- histories ----------

  lemma MessagesSnoc(received: seq<(nat, Message)>, r: (nat, Message))
    ensures Messages(received + [r]) == Messages(received) + [r.1]
  {
    assert (received + [r])[..|received|] == received;
  }

  lemma ReceivedBySnoc(received: seq<(nat, Message)>, r: (nat, Message), w: nat)
    ensures ReceivedBy(received + [r], w) == ReceivedBy(received, w) + (if r.0 == w then [r.1] else [])
  {
    assert (received + [r])[..|received|] == received;
  }

  lemma {:induction false} ReceivedByNone(received: seq<(nat, Message)>, w: nat)
    requires forall i :: 0 <= i < |received| ==> received[i].0 != w
    ensures ReceivedBy(received, w) == []
    decreases |received|
  {
    if received != [] {
      ReceivedByNone(received[..|received| - 1], w);
    }
  }

  // ---------- what callers do ----------

  function Pending(p: Caller): Option<(string, string)> {
    if p.Tearing? then p.pending else None
  }

  lemma SameCondemned(callers: seq<Caller>, callers': seq<Caller>, subject: string, queue: string)
    requires |callers| == |callers'| && forall t :: 0 <= t < |callers| ==> Pending(callers[t]) == Pending(callers'[t])
    ensures Condemned(callers, subject, queue) <==> Condemned(callers', subject, queue)
  {
    if Condemned(callers, subject, queue) {
      var t :| 0 <= t < |callers| && callers[t].Tearing? && callers[t].pending == Some((subject, queue));
      assert Pending(callers'[t]) == Pending(callers[t]);
    }
    if Condemned(callers', subject, queue) {
      var t :| 0 <= t < |callers'| && callers'[t].Tearing? && callers'[t].pending == Some((subject, queue));
      assert Pending(callers'[t]) == Pending(callers[t]);
    }
  }

  lemma SamePendingIndexed(storage: Storage, channels: seq<Channel>, callers: seq<Caller>, callers': seq<Caller>)
    requires Indexed(storage, channels, callers)
    requires |callers| == |callers'| && forall t :: 0 <= t < |callers| ==> Pending(callers[t]) == Pending(callers'[t])
    ensures Indexed(storage, channels, callers')
  {
    forall subject: string, queue: string
      ensures Condemned(callers, subject, queue) == Condemned(callers', subject, queue)
    {
      SameCondemned(callers, callers', subject, queue);
    }
  }

  lemma StillServed(channels: seq<Channel>, workers: seq<Worker>, callers: seq<Caller>, t: nat, p: Caller)
    requires t < |callers| && AllServed(channels, workers, callers)
    requires callers[t].Spawning? ==> exists w :: 0 <= w < |workers| && workers[w].channel == callers[t].channel
    ensures AllServed(channels, workers, callers[t := p])
  {
    var callers' := callers[t := p];
    forall c | 0 <= c < |channels| ensures Served(workers, callers', c) {
      assert Served(workers, callers, c);
      if !exists w :: 0 <= w < |workers| && workers[w].channel == c {
        var u :| 0 <= u < |callers| && callers[u] == Spawning(c);
        assert callers'[u] == Spawning(c);
      }
    }
  }

  /** A caller moves on without touching the storage, a pending deletion or an unserved channel. */
  lemma CallerKeeps(s: State, t: nat, p: Caller)
    requires Inv(s) && t < |s.callers| && Pending(p) == Pending(s.callers[t])
    requires s.callers[t].Spawning? ==> exists w :: 0 <= w < |s.workers| && s.workers[w].channel == s.callers[t].channel
    requires p.Spawning? ==> p.channel < |s.channels|
    requires PublisherOk(s.storage, p) && Exclusive(s.callers[t := p])
    ensures Inv(s.(callers := s.callers[t := p]))
  {
    SamePendingIndexed(s.storage, s.channels, s.callers, s.callers[t := p]);
    StillServed(s.channels, s.workers, s.callers, t, p);
  }

  // ---------- what happens to one channel ----------

  lemma ChannelIndexed(storage: Storage, channels: seq<Channel>, callers: seq<Caller>, c: nat, ch: Channel)
    requires Indexed(storage, channels, callers) && c < |channels|
    requires ch.open == channels[c].open && ch.subject == channels[c].subject && ch.queue == channels[c].queue
    ensures Indexed(storage, channels[c := ch], callers)
  {
  }

  /** The channel of a publisher's queue is open. */
  lemma TargetOpen(s: State, t: nat, queue: string)
    requires Inv(s) && Offered(s, t, queue)
    ensures Target(s, t, queue).open
  {
    var p := s.callers[t];
    assert Stored(s.storage, p.subject, queue);
    assert forall u :: 0 <= u < |s.callers| ==> !s.callers[u].Tearing?;
  }

  lemma EnqueueKeeps(s: State, c: nat, m: Message)
    requires Inv(s) && c < |s.channels| && s.channels[c].open && |s.channels[c].buffer| < s.capacity
    ensures var ch := s.channels[c];
            Inv(s.(channels := s.channels[c := ch.(buffer := ch.buffer + [m], accepted := ch.accepted + [m])]))
  {
    var ch := s.channels[c];
    var ch' := ch.(buffer := ch.buffer + [m], accepted := ch.accepted + [m]);
    ChannelIndexed(s.storage, s.channels, s.callers, c, ch');
    assert ChannelOk(s.capacity, s.workers, c, ch);
    assert ChannelOk(s.capacity, s.workers, c, ch') by {
      assert Messages(ch.received) + (ch.buffer + [m]) == Messages(ch.received) + ch.buffer + [m];
    }
    forall w | 0 <= w < |s.workers| ensures WorkerOk(s.channels[c := ch'], w, s.workers[w]) {
      assert WorkerOk(s.channels, w, s.workers[w]);
    }
    forall d | 0 <= d < |s.channels| ensures Served(s.workers, s.callers, d) {
    }
  }

  /** A goroutine takes a message that its channel accepted: the next one of the buffer, or one handed over directly. */
  lemma TakeKeeps(s: State, c: nat, w: nat, m: Message, buffer: seq<Message>, accepted: seq<Message>)
    requires Inv(s) && c < |s.channels| && w < |s.workers| && Ready(s.workers[w], c)
    requires accepted == Messages(s.channels[c].received) + [m] + buffer && |buffer| <= s.capacity
    requires s.channels[c].open || |buffer| < |s.channels[c].buffer|
    ensures var ch := s.channels[c];
            Inv(s.(channels := s.channels[c := ch.(buffer := buffer, accepted := accepted,
                                                   received := ch.received + [(w, m)])],
                   workers := s.workers[w := s.workers[w].(hand := Some(m))]))
  {
    var ch, k := s.channels[c], s.workers[w];
    var ch' := ch.(buffer := buffer, accepted := accepted, received := ch.received + [(w, m)]);
    var k' := k.(hand := Some(m));
    var channels', workers' := s.channels[c := ch'], s.workers[w := k'];
    ChannelIndexed(s.storage, s.channels, s.callers, c, ch');
    TakeChannels(s, c, w, m, ch', k');
    TakeWorkers(s, c, w, m, ch', k');
    SameChannelsServed(s.channels, channels', s.workers, workers', s.callers);
  }

  lemma TakeChannels(s: State, c: nat, w: nat, m: Message, ch': Channel, k': Worker)
    requires ChannelsOk(s.capacity, s.workers, s.channels) && c < |s.channels| && w < |s.workers|
    requires s.workers[w].channel == c && k'.channel == c
    requires ch'.received == s.channels[c].received + [(w, m)] && |ch'.buffer| <= s.capacity
    requires ch'.accepted == Messages(s.channels[c].received) + [m] + ch'.buffer
    ensures ChannelsOk(s.capacity, s.workers[w := k'], s.channels[c := ch'])
  {
    MessagesSnoc(s.channels[c].received, (w, m));
    var channels', workers' := s.channels[c := ch'], s.workers[w := k'];
    assert forall v :: 0 <= v < |workers'| ==> workers'[v].channel == s.workers[v].channel;
    forall d | 0 <= d < |channels'| ensures ChannelOk(s.capacity, workers', d, channels'[d]) {
      assert ChannelOk(s.capacity, s.workers, d, s.channels[d]);
      var received := channels'[d].received;
      forall i | 0 <= i < |received| ensures received[i].0 < |workers'| && workers'[received[i].0].channel == d {
        assert i < |s.channels[d].received| ==> received[i] == s.channels[d].received[i];
      }
      assert d != c ==> channels'[d] == s.channels[d];
    }
  }

  lemma TakeWorkers(s: State, c: nat, w: nat, m: Message, ch': Channel, k': Worker)
    requires WorkersOk(s.channels, s.workers) && c < |s.channels| && w < |s.workers| && Ready(s.workers[w], c)
    requires k' == s.workers[w].(hand := Some(m))
    requires ch'.received == s.channels[c].received + [(w, m)] && ch'.open == s.channels[c].open
    requires s.channels[c].open || |ch'.buffer| < |s.channels[c].buffer|
    ensures WorkersOk(s.channels[c := ch'], s.workers[w := k'])
  {
    var channels', workers' := s.channels[c := ch'], s.workers[w := k'];
    forall v | 0 <= v < |workers'| ensures WorkerOk(channels', v, workers'[v]) {
      assert WorkerOk(s.channels, v, s.workers[v]);
      ReceivedBySnoc(s.channels[c].received, (w, m), v);
    }
  }

  lemma SameChannelsServed(channels: seq<Channel>, channels': seq<Channel>, workers: seq<Worker>, workers': seq<Worker>,
                           callers: seq<Caller>)
    requires AllServed(channels, workers, callers) && |channels'| == |channels|
    requires |workers| <= |workers'| && forall w :: 0 <= w < |workers| ==> workers'[w].channel == workers[w].channel
    ensures AllServed(channels', workers', callers)
  {
    forall c | 0 <= c < |channels'| ensures Served(workers', callers, c) {
      assert Served(workers, callers, c);
      if w :| 0 <= w < |workers| && workers[w].channel == c {
        assert workers'[w].channel == c;
      }
    }
  }

  // ==================== every step keeps the invariant ====================

  lemma SendKeeps(s: State, step: Step)
    requires Inv(s) && step.Send? && Enabled(s, step)
    ensures Inv(Apply(s, step))
  {
    var p := s.callers[step.t];
    var c := s.storage[p.subject][step.queue];
    TargetOpen(s, step.t, step.queue);
    EnqueueKeeps(s, c, p.message);
    var ch := s.channels[c];
    var s1 := s.(channels := s.channels[c := ch.(buffer := ch.buffer + [p.message],
                                                 accepted := ch.accepted + [p.message])]);
    ServedQueueKeeps(s1, step.t, step.queue, true);
  }

  /** A publisher is done with one queue. */
  lemma ServedQueueKeeps(s: State, t: nat, queue: string, sent: bool)
    requires Inv(s) && t < |s.callers| && s.callers[t].Publishing? && queue in s.callers[t].todo
    ensures var p := s.callers[t];
            Inv(s.(callers := s.callers[t := p.(todo := p.todo - {queue},
                                                ok := if sent then p.ok + {queue} else p.ok,
                                                failed := if sent then p.failed else p.failed + {queue})]))
  {
    var p := s.callers[t];
    assert PublisherOk(s.storage, p);
    CallerKeeps(s, t, p.(todo := p.todo - {queue}, ok := if sent then p.ok + {queue} else p.ok,
                         failed := if sent then p.failed else p.failed + {queue}));
  }

  lemma HandOffKeeps(s: State, step: Step)
    requires Inv(s) && step.HandOff? && Enabled(s, step)
    ensures Inv(Apply(s, step))
  {
    var p := s.callers[step.t];
    var c := s.storage[p.subject][step.queue];
    var ch := s.channels[c];
    TargetOpen(s, step.t, step.queue);
    assert ChannelOk(s.capacity, s.workers, c, ch);
    assert Messages(ch.received) + [] == Messages(ch.received);
    TakeKeeps(s, c, step.w, p.message, ch.buffer, ch.accepted + [p.message]);
    var s1 := s.(channels := s.channels[c := ch.(accepted := ch.accepted + [p.message],
                                                 received := ch.received + [(step.w, p.message)])],
                 workers := s.workers[step.w := s.workers[step.w].(hand := Some(p.message))]);
    ServedQueueKeeps(s1, step.t, step.queue, true);
  }

  lemma ReceiveKeeps(s: State, step: Step)
    requires Inv(s) && step.Receive? && Enabled(s, step)
    ensures Inv(Apply(s, step))
  {
    var c := s.workers[step.w].channel;
    var ch := s.channels[c];
    assert ChannelOk(s.capacity, s.workers, c, ch);
    assert ch.buffer == [ch.buffer[0]] + ch.buffer[1..];
    assert Messages(ch.received) + ch.buffer == Messages(ch.received) + [ch.buffer[0]] + ch.buffer[1..];
    TakeKeeps(s, c, step.w, ch.buffer[0], ch.buffer[1..], ch.accepted);
  }

  lemma WorkerKeeps(s: State, w: nat, k: Worker)
    requires Inv(s) && w < |s.workers| && k.channel == s.workers[w].channel && WorkerOk(s.channels, w, k)
    ensures Inv(s.(workers := s.workers[w := k]))
  {
    forall c | 0 <= c < |s.channels| ensures ChannelOk(s.capacity, s.workers[w := k], c, s.channels[c]) {
      assert ChannelOk(s.capacity, s.workers, c, s.channels[c]);
    }
    SameChannelsServed(s.channels, s.channels, s.workers, s.workers[w := k], s.callers);
  }

  lemma DeliverExitKeeps(s: State, step: Step)
    requires Inv(s) && (step.Deliver? || step.Exit?) && Enabled(s, step)
    ensures Inv(Apply(s, step))
  {
    var k := s.workers[step.w];
    assert WorkerOk(s.channels, step.w, k);
    if step.Deliver? {
      assert k.delivered + [k.hand.value] + [] == k.delivered + [k.hand.value];
      WorkerKeeps(s, step.w, k.(hand := None, delivered := k.delivered + [k.hand.value]));
    } else {
      WorkerKeeps(s, step.w, k.(live := false));
    }
  }

  lemma PublishKeeps(s: State, step: Step)
    requires Inv(s) && (step.PublishBegin? || step.TimeOut? || step.PublishEnd?) && Enabled(s, step)
    ensures Inv(Apply(s, step))
  {
    match step
    case PublishBegin(t, subject, message) =>
      if subject in s.storage && s.storage[subject] != map[] {
        CallerKeeps(s, t, Publishing(subject, message, s.storage[subject].Keys, {}, {}));
      }
    case TimeOut(t, queue) => ServedQueueKeeps(s, t, queue, false);
    case PublishEnd(t) => CallerKeeps(s, t, Idle);
  }

  lemma NoneCondemned(callers: seq<Caller>)
    requires forall t :: 0 <= t < |callers| ==> Pending(callers[t]).None?
    ensures forall subject, queue :: !Condemned(callers, subject, queue)
  {
    forall subject, queue ensures !Condemned(callers, subject, queue) {
      assert forall t :: 0 <= t < |callers| ==> Pending(callers[t]) == None;
    }
  }

  lemma SubscribeKeeps(s: State, step: Step)
    requires Inv(s) && step.Subscribe? && Enabled(s, step)
    ensures Inv(Apply(s, step))
  {
    var queues := if step.subject in s.storage then s.storage[step.subject] else map[];
    if step.queue in queues {
      assert Stored(s.storage, step.subject, step.queue);
      assert s.storage[step.subject := queues] == s.storage;
      CallerKeeps(s, step.t, Spawning(queues[step.queue]));
    } else {
      NewChannelIndexed(s, step.t, step.subject, step.queue, queues);
      NewChannelServed(s, step.t, step.subject, step.queue);
    }
  }

  lemma NewChannelIndexed(s: State, t: nat, subject: string, queue: string, queues: map<string, nat>)
    requires Inv(s) && t < |s.callers| && s.callers[t].Idle? && !Writing(s) && !Reading(s)
    requires queues == (if subject in s.storage then s.storage[subject] else map[]) && queue !in queues
    ensures Indexed(s.storage[subject := queues[queue := |s.channels|]],
                    s.channels + [Channel(subject, queue, true, [], [], [])],
                    s.callers[t := Spawning(|s.channels|)])
    ensures PublishersOk(s.storage[subject := queues[queue := |s.channels|]], s.callers[t := Spawning(|s.channels|)])
  {
    var storage' := s.storage[subject := queues[queue := |s.channels|]];
    var channels' := s.channels + [Channel(subject, queue, true, [], [], [])];
    var callers' := s.callers[t := Spawning(|s.channels|)];
    NoneCondemned(s.callers);
    NoneCondemned(callers');
    forall a, b | Stored(storage', a, b)
      ensures storage'[a][b] < |channels'| && channels'[storage'[a][b]].subject == a
              && channels'[storage'[a][b]].queue == b && channels'[storage'[a][b]].open
    {
      if a != subject || b != queue {
        assert Stored(s.storage, a, b);
      }
    }
    forall c | 0 <= c < |channels'| && channels'[c].open
      ensures Stored(storage', channels'[c].subject, channels'[c].queue)
              && storage'[channels'[c].subject][channels'[c].queue] == c
    {
      if c < |s.channels| {
        assert Stored(s.storage, s.channels[c].subject, s.channels[c].queue);
      }
    }
  }

  lemma NewChannelServed(s: State, t: nat, subject: string, queue: string)
    requires Inv(s) && t < |s.callers| && s.callers[t].Idle?
    ensures var channels' := s.channels + [Channel(subject, queue, true, [], [], [])];
            var callers' := s.callers[t := Spawning(|s.channels|)];
            && Exclusive(callers') && SpawnsOk(channels', callers') && ChannelsOk(s.capacity, s.workers, channels')
            && WorkersOk(channels', s.workers) && AllServed(channels', s.workers, callers')
  {
    var channels' := s.channels + [Channel(subject, queue, true, [], [], [])];
    var callers' := s.callers[t := Spawning(|s.channels|)];
    forall c | 0 <= c < |channels'| ensures ChannelOk(s.capacity, s.workers, c, channels'[c]) {
      if c < |s.channels| {
        assert ChannelOk(s.capacity, s.workers, c, s.channels[c]);
      }
    }
    forall w | 0 <= w < |s.workers| ensures WorkerOk(channels', w, s.workers[w]) {
      assert WorkerOk(s.channels, w, s.workers[w]);
    }
    StillServed(s.channels, s.workers, s.callers, t, Spawning(|s.channels|));
    assert callers'[t] == Spawning(|s.channels|);
  }

  lemma SpawnKeeps(s: State, step: Step)
    requires Inv(s) && step.Spawn? && Enabled(s, step)
    ensures Inv(Apply(s, step))
  {
    var c := s.callers[step.t].channel;
    var k := Worker(c, None, [], true);
    var s1 := s.(workers := s.workers + [k]);
    NewWorkerKeeps(s, c);
    assert s1.workers[|s.workers|].channel == c;
    CallerKeeps(s1, step.t, Idle);
  }

  lemma NewWorkerKeeps(s: State, c: nat)
    requires Inv(s) && c < |s.channels|
    ensures Inv(s.(workers := s.workers + [Worker(c, None, [], true)]))
  {
    var workers' := s.workers + [Worker(c, None, [], true)];
    assert ChannelOk(s.capacity, s.workers, c, s.channels[c]);
    assert WorkersOk(s.channels, workers') by {
      NewWorkerOk(s, c, workers');
    }
    forall d | 0 <= d < |s.channels| ensures ChannelOk(s.capacity, workers', d, s.channels[d]) {
      assert ChannelOk(s.capacity, s.workers, d, s.channels[d]);
    }
    SameChannelsServed(s.channels, s.channels, s.workers, workers', s.callers);
  }

  lemma NewWorkerOk(s: State, c: nat, workers': seq<Worker>)
    requires WorkersOk(s.channels, s.workers) && c < |s.channels|
    requires ChannelOk(s.capacity, s.workers, c, s.channels[c])
    requires workers' == s.workers + [Worker(c, None, [], true)]
    ensures WorkersOk(s.channels, workers')
  {
    ReceivedByNone(s.channels[c].received, |s.workers|);
    forall w | 0 <= w < |workers'| ensures WorkerOk(s.channels, w, workers'[w]) {
      if w < |s.workers| {
        assert WorkerOk(s.channels, w, s.workers[w]);
      }
    }
  }

  lemma TearBeginKeeps(s: State, step: Step)
    requires Inv(s) && (step.TearBegin? || step.TearEnd?) && Enabled(s, step)
    ensures Inv(Apply(s, step))
  {
    match step
    case TearBegin(t, scope) => CallerKeeps(s, t, Tearing(scope, None));
    case TearEnd(t) => CallerKeeps(s, t, Idle);
  }

  /** Under the write lock the holder's pending deletion is the only one. */
  lemma OnlyCondemned(callers: seq<Caller>, t: nat)
    requires Exclusive(callers) && t < |callers| && callers[t].Tearing?
    ensures forall subject, queue ::
      Condemned(callers, subject, queue) <==> callers[t].pending == Some((subject, queue))
  {
  }

  /** The channel a teardown is about to close is open. */
  lemma ClosesOpen(s: State, t: nat, subject: string, queue: string)
    requires Inv(s) && Stored(s.storage, subject, queue)
    requires t < |s.callers| && s.callers[t].Tearing? && s.callers[t].pending.None?
    ensures s.storage[subject][queue] < |s.channels|
    ensures var ch := s.channels[s.storage[subject][queue]]; ch.open && ch.subject == subject
  {
    OnlyCondemned(s.callers, t);
    assert !Condemned(s.callers, subject, queue);
  }

  lemma TearCloseKeeps(s: State, step: Step)
    requires Inv(s) && step.TearClose? && Enabled(s, step)
    ensures Inv(Apply(s, step))
  {
    var t, c := step.t, s.storage[step.subject][step.queue];
    var p' := s.callers[t].(pending := Some((step.subject, step.queue)));
    OnlyCondemned(s.callers, t);
    assert s.channels[c].open by {
      assert Stored(s.storage, step.subject, step.queue);
      assert !Condemned(s.callers, step.subject, step.queue);
    }
    var channels', callers' := s.channels[c := s.channels[c].(open := false)], s.callers[t := p'];
    OnlyCondemned(callers', t);
    StillServed(s.channels, s.workers, s.callers, t, p');
    ClosingKeeps(s, c, channels');
    CloseIndexed(s, t, step.subject, step.queue, channels', callers');
  }

  lemma ClosingKeeps(s: State, c: nat, channels': seq<Channel>)
    requires ChannelsOk(s.capacity, s.workers, s.channels) && WorkersOk(s.channels, s.workers)
    requires c < |s.channels| && channels' == s.channels[c := s.channels[c].(open := false)]
    ensures ChannelsOk(s.capacity, s.workers, channels') && WorkersOk(channels', s.workers)
  {
    forall w | 0 <= w < |s.workers| ensures WorkerOk(channels', w, s.workers[w]) {
      assert WorkerOk(s.channels, w, s.workers[w]);
    }
    forall d | 0 <= d < |channels'| ensures ChannelOk(s.capacity, s.workers, d, channels'[d]) {
      assert ChannelOk(s.capacity, s.workers, d, s.channels[d]);
    }
  }

  lemma CloseIndexed(s: State, t: nat, subject: string, queue: string, channels': seq<Channel>, callers': seq<Caller>)
    requires Indexed(s.storage, s.channels, s.callers) && Stored(s.storage, subject, queue)
    requires forall a, b :: !Condemned(s.callers, a, b)
    requires forall a, b :: Condemned(callers', a, b) <==> (a, b) == (subject, queue)
    requires var c := s.storage[subject][queue];
             c < |s.channels| && channels' == s.channels[c := s.channels[c].(open := false)]
    ensures Indexed(s.storage, channels', callers')
  {
    var c := s.storage[subject][queue];
    forall a, b | Stored(s.storage, a, b)
      ensures var d := s.storage[a][b];
              && d < |channels'| && channels'[d].subject == a && channels'[d].queue == b
              && (channels'[d].open <==> !Condemned(callers', a, b))
    {
      assert s.channels[s.storage[a][b]].subject == a && s.channels[s.storage[a][b]].queue == b;
    }
  }

  lemma TearDeleteKeeps(s: State, step: Step)
    requires Inv(s) && step.TearDelete? && Enabled(s, step)
    ensures Inv(Apply(s, step))
  {
    var t, p := step.t, s.callers[step.t];
    var (subject, queue) := p.pending.value;
    var p' := p.(pending := None);
    var storage', callers' := s.storage[subject := s.storage[subject] - {queue}], s.callers[t := p'];
    OnlyCondemned(s.callers, t);
    OnlyCondemned(callers', t);
    forall a, b | Stored(storage', a, b) ensures Stored(s.storage, a, b) && storage'[a][b] == s.storage[a][b] {
    }
    forall c | 0 <= c < |s.channels| && s.channels[c].open
      ensures Stored(storage', s.channels[c].subject, s.channels[c].queue)
              && storage'[s.channels[c].subject][s.channels[c].queue] == c
    {
      assert Stored(s.storage, s.channels[c].subject, s.channels[c].queue);
    }
    StillServed(s.channels, s.workers, s.callers, t, p');
  }

  lemma TearSubjectKeeps(s: State, step: Step)
    requires Inv(s) && step.TearSubject? && Enabled(s, step)
    ensures Inv(Apply(s, step))
  {
    var storage' := s.storage - {step.subject};
    OnlyCondemned(s.callers, step.t);
    forall a, b | Stored(storage', a, b) ensures Stored(s.storage, a, b) && storage'[a][b] == s.storage[a][b] {
    }
    forall c | 0 <= c < |s.channels| && s.channels[c].open
      ensures Stored(storage', s.channels[c].subject, s.channels[c].queue)
              && storage'[s.channels[c].subject][s.channels[c].queue] == c
    {
      assert Stored(s.storage, s.channels[c].subject, s.channels[c].queue);
    }
  }

  lemma StepKeeps(s: State, step: Step)
    requires Inv(s) && Enabled(s, step)
    ensures Inv(Apply(s, step))
  {
    match step
    case PublishBegin(_, _, _) => PublishKeeps(s, step);
    case TimeOut(_, _) => PublishKeeps(s, step);
    case PublishEnd(_) => PublishKeeps(s, step);
    case Send(_, _) => SendKeeps(s, step);
    case HandOff(_, _, _) => HandOffKeeps(s, step);
    case Subscribe(_, _, _) => SubscribeKeeps(s, step);
    case Spawn(_) => SpawnKeeps(s, step);
    case TearBegin(_, _) => TearBeginKeeps(s, step);
    case TearEnd(_) => TearBeginKeeps(s, step);
    case TearClose(_, _, _) => TearCloseKeeps(s, step);
    case TearDelete(_) => TearDeleteKeeps(s, step);
    case TearSubject(_, _) => TearSubjectKeeps(s, step);
    case Receive(_) => ReceiveKeeps(s, step);
    case Deliver(_) => DeliverExitKeeps(s, step);
    case Exit(_) => DeliverExitKeeps(s, step);
  }

  // ==================== whole runs ====================

  /** The steps can be taken one after the other from `s`. */
  predicate Runs(s: State, steps: seq<Step>)
    decreases |steps|
  {
    steps == [] || (Enabled(s, steps[0]) && Runs(Apply(s, steps[0]), steps[1..]))
  }

  function After(s: State, steps: seq<Step>): State
    requires Runs(s, steps)
    decreases |steps|
  {
    if steps == [] then s else After(Apply(s, steps[0]), steps[1..])
  }

  lemma InitInv(capacity: nat, callers: nat)
    ensures Inv(Init(capacity, callers))
  {
    NoneCondemned(Init(capacity, callers).callers);
  }

  lemma {:induction false} RunKeeps(s: State, steps: seq<Step>)
    requires Inv(s) && Runs(s, steps)
    ensures Inv(After(s, steps))
    decreases |steps|
  {
    if steps != [] {
      StepKeeps(s, steps[0]);
      RunKeeps(Apply(s, steps[0]), steps[1..]);
    }
  }

  /** Exactly a send on a closed channel and a second close panic, whatever the state. */
  lemma ClosedPanics(s: State, step: Step)
    requires Enabled(s, step) && !s.panicked
    ensures Apply(s, step).panicked <==>
              || ((step.Send? || step.HandOff?) && !s.channels[s.storage[s.callers[step.t].subject][step.queue]].open)
              || (step.TearClose? && !s.channels[s.storage[step.subject][step.queue]].open)
  {
  }

  /** In every interleaving no send hits a closed channel and no channel is closed twice, a channel is
      in the storage exactly while it is open, and publishers under the read lock see open channels only. */
  lemma NoPanic(capacity: nat, callers: nat, steps: seq<Step>)
    requires Runs(Init(capacity, callers), steps)
    ensures var s := After(Init(capacity, callers), steps);
            && !s.panicked && Indexed(s.storage, s.channels, s.callers)
            && (!Writing(s) ==> forall c :: 0 <= c < |s.channels| ==>
                  (s.channels[c].open <==>
                     exists subject, queue :: Stored(s.storage, subject, queue) && s.storage[subject][queue] == c))
            && (forall t, queue :: Offered(s, t, queue) ==> Target(s, t, queue).open)
            && (forall t, subject, queue :: Enabled(s, TearClose(t, subject, queue)) ==>
                  s.channels[s.storage[subject][queue]].open)
  {
    InitInv(capacity, callers);
    RunKeeps(Init(capacity, callers), steps);
    var s := After(Init(capacity, callers), steps);
    forall t, queue | Offered(s, t, queue) ensures Target(s, t, queue).open {
      TargetOpen(s, t, queue);
    }
    forall t, subject, queue | Enabled(s, TearClose(t, subject, queue))
      ensures s.channels[s.storage[subject][queue]].open
    {
      ClosesOpen(s, t, subject, queue);
    }
    if !Writing(s) {
      NoneCondemned(s.callers);
      forall c | 0 <= c < |s.channels|
        ensures s.channels[c].open <==>
                  exists subject, queue :: Stored(s.storage, subject, queue) && s.storage[subject][queue] == c
      {
        if s.channels[c].open {
          assert Stored(s.storage, s.channels[c].subject, s.channels[c].queue);
        }
      }
    }
  }

  /** In every interleaving, what a channel accepted is what its goroutines received followed by its
      buffer, the buffer is within its capacity, and each goroutine delivered, in order, exactly what it
      received but for the message in its hand. */
  lemma Conservation(capacity: nat, callers: nat, steps: seq<Step>)
    requires Runs(Init(capacity, callers), steps)
    ensures var s := After(Init(capacity, callers), steps);
            && (forall c :: 0 <= c < |s.channels| ==>
                  s.channels[c].accepted == Messages(s.channels[c].received) + s.channels[c].buffer
                  && |s.channels[c].buffer| <= s.capacity)
            && (forall w :: 0 <= w < |s.workers| ==>
                  s.workers[w].channel < |s.channels|
                  && ReceivedBy(s.channels[s.workers[w].channel].received, w)
                     == s.workers[w].delivered + InHand(s.workers[w]))
  {
    InitInv(capacity, callers);
    RunKeeps(Init(capacity, callers), steps);
    var s := After(Init(capacity, callers), steps);
    forall c | 0 <= c < |s.channels| ensures ChannelOk(s.capacity, s.workers, c, s.channels[c]) {
    }
    forall w | 0 <= w < |s.workers| ensures WorkerOk(s.channels, w, s.workers[w]) {
    }
  }

  // ==================== draining a closed channel ====================

  function WorkerLoad(w: Worker, c: nat): nat {
    if w.channel == c then (if w.hand.Some? then 1 else 0) + (if w.live then 1 else 0) else 0
  }

  function WorkersLoad(workers: seq<Worker>, c: nat): nat {
    if workers == [] then 0 else WorkerLoad(workers[0], c) + WorkersLoad(workers[1..], c)
  }

  function SpawnsLoad(callers: seq<Caller>, c: nat): nat {
    if callers == [] then 0 else (if callers[0] == Spawning(c) then 2 else 0) + SpawnsLoad(callers[1..], c)
  }

  /** What is left to do on channel `c`: buffered messages, messages in hand, live goroutines and goroutines to
      start. */
  function Remaining(s: State, c: nat): nat
    requires c < |s.channels|
  {
    2 * |s.channels[c].buffer| + WorkersLoad(s.workers, c) + SpawnsLoad(s.callers, c)
  }

  lemma {:induction false} WorkersLoadUpdate(workers: seq<Worker>, c: nat, w: nat, k: Worker)
    requires w < |workers|
    ensures WorkersLoad(workers[w := k], c) + WorkerLoad(workers[w], c) == WorkersLoad(workers, c) + WorkerLoad(k, c)
    decreases |workers|
  {
    var workers' := workers[w := k];
    if w > 0 {
      WorkersLoadUpdate(workers[1..], c, w - 1, k);
      assert workers'[1..] == workers[1..][w - 1 := k];
    } else {
      assert workers'[1..] == workers[1..];
    }
  }

  lemma {:induction false} WorkersLoadAppend(workers: seq<Worker>, c: nat, k: Worker)
    ensures WorkersLoad(workers + [k], c) == WorkersLoad(workers, c) + WorkerLoad(k, c)
    decreases |workers|
  {
    if workers == [] {
      assert workers + [k] == [k] && [k][1..] == [];
    } else {
      assert (workers + [k])[1..] == workers[1..] + [k];
      WorkersLoadAppend(workers[1..], c, k);
    }
  }

  lemma {:induction false} SpawnsLoadUpdate(callers: seq<Caller>, c: nat, t: nat, p: Caller)
    requires t < |callers|
    ensures SpawnsLoad(callers[t := p], c) + (if callers[t] == Spawning(c) then 2 else 0)
         == SpawnsLoad(callers, c) + (if p == Spawning(c) then 2 else 0)
    decreases |callers|
  {
    var callers' := callers[t := p];
    if t > 0 {
      SpawnsLoadUpdate(callers[1..], c, t - 1, p);
      assert callers'[1..] == callers[1..][t - 1 := p];
    } else {
      assert callers'[1..] == callers[1..];
    }
  }

  /** The steps that work on a closed channel's backlog. */
  predicate Drains(s: State, c: nat, step: Step)
    requires Enabled(s, step)
  {
    match step
    case Receive(w) => s.workers[w].channel == c
    case Deliver(w) => s.workers[w].channel == c
    case Exit(w) => s.workers[w].channel == c
    case Spawn(t) => s.callers[t].channel == c
    case _ => false
  }

  /** What a step does to the backlog of a closed channel. */
  ghost predicate DrainsBy(s: State, s': State, c: nat, units: nat)
    requires c < |s.channels|
  {
    && c < |s'.channels| && !s'.channels[c].open && s'.channels[c].accepted == s.channels[c].accepted
    && Remaining(s', c) + units == Remaining(s, c)
  }

  lemma CallerDrain(s: State, c: nat, step: Step, t: nat)
    requires Inv(s) && Enabled(s, step) && c < |s.channels| && !s.channels[c].open
    requires t < |s.callers| && !s.callers[t].Spawning?
    requires Apply(s, step).workers == s.workers && |Apply(s, step).callers| == |s.callers|
    requires Apply(s, step).callers == s.callers[t := Apply(s, step).callers[t]]
    requires Apply(s, step).callers[t] != Spawning(c)
    requires c < |Apply(s, step).channels| && Apply(s, step).channels[c] == s.channels[c]
    ensures DrainsBy(s, Apply(s, step), c, 0)
  {
    SpawnsLoadUpdate(s.callers, c, t, Apply(s, step).callers[t]);
  }

  lemma PublisherDrain(s: State, c: nat, step: Step)
    requires Inv(s) && Enabled(s, step) && c < |s.channels| && !s.channels[c].open
    requires step.PublishBegin? || step.Send? || step.TimeOut? || step.PublishEnd?
    ensures DrainsBy(s, Apply(s, step), c, 0)
  {
    if step.Send? {
      TargetOpen(s, step.t, step.queue);
    }
    CallerDrain(s, c, step, step.t);
  }

  lemma HandOffDrain(s: State, c: nat, step: Step)
    requires Inv(s) && Enabled(s, step) && c < |s.channels| && !s.channels[c].open && step.HandOff?
    ensures DrainsBy(s, Apply(s, step), c, 0)
  {
    TargetOpen(s, step.t, step.queue);
    SpawnsLoadUpdate(s.callers, c, step.t, Apply(s, step).callers[step.t]);
    WorkersLoadUpdate(s.workers, c, step.w, Apply(s, step).workers[step.w]);
  }

  lemma TearDrain(s: State, c: nat, step: Step)
    requires Inv(s) && Enabled(s, step) && c < |s.channels| && !s.channels[c].open
    requires step.TearBegin? || step.TearDelete? || step.TearEnd? || step.TearSubject? || step.TearClose?
    ensures DrainsBy(s, Apply(s, step), c, 0)
  {
    if step.TearClose? {
      StepKeeps(s, step);
    }
    CallerDrain(s, c, step, step.t);
  }

  lemma SubscribeDrain(s: State, c: nat, step: Step)
    requires Inv(s) && Enabled(s, step) && c < |s.channels| && !s.channels[c].open && step.Subscribe?
    ensures DrainsBy(s, Apply(s, step), c, 0)
  {
    SubscribesElsewhere(s, c, step);
    CallerDrain(s, c, step, step.t);
  }

  lemma WorkerDrain(s: State, c: nat, step: Step)
    requires Inv(s) && Enabled(s, step) && c < |s.channels| && !s.channels[c].open
    requires step.Receive? || step.Deliver? || step.Exit?
    ensures DrainsBy(s, Apply(s, step), c, if Drains(s, c, step) then 1 else 0)
  {
    WorkersLoadUpdate(s.workers, c, step.w, Apply(s, step).workers[step.w]);
  }

  /** Once a channel is closed it stays closed, and no step adds to what is left to do on it: the steps of
      its goroutines take away one unit each, all others leave it alone. */
  lemma DrainStep(s: State, c: nat, step: Step)
    requires Inv(s) && Enabled(s, step) && c < |s.channels| && !s.channels[c].open
    ensures DrainsBy(s, Apply(s, step), c, if Drains(s, c, step) then 1 else 0)
  {
    if step.PublishBegin? || step.Send? || step.TimeOut? || step.PublishEnd? {
      PublisherDrain(s, c, step);
    } else if step.HandOff? {
      HandOffDrain(s, c, step);
    } else if step.Subscribe? {
      SubscribeDrain(s, c, step);
    } else if step.Spawn? {
      SpawnsLoadUpdate(s.callers, c, step.t, Idle);
      WorkersLoadAppend(s.workers, c, Worker(s.callers[step.t].channel, None, [], true));
    } else if step.Receive? || step.Deliver? || step.Exit? {
      WorkerDrain(s, c, step);
    } else {
      TearDrain(s, c, step);
    }
  }

  /** How many steps of a run work on the backlog of `c`. */
  function DrainSteps(s: State, c: nat, steps: seq<Step>): nat
    requires Runs(s, steps)
    decreases |steps|
  {
    if steps == [] then 0
    else (if Drains(s, c, steps[0]) then 1 else 0) + DrainSteps(Apply(s, steps[0]), c, steps[1..])
  }

  /** Over any run after a channel was closed its backlog shrinks by exactly the steps of its goroutines, so
      they take at most `Remaining` steps; when they have taken that many, all it accepted was delivered. */
  lemma {:induction false} DrainRun(s: State, c: nat, steps: seq<Step>)
    requires Inv(s) && Runs(s, steps) && c < |s.channels| && !s.channels[c].open
    ensures Inv(After(s, steps)) && DrainsBy(s, After(s, steps), c, DrainSteps(s, c, steps))
    decreases |steps|
  {
    if steps != [] {
      StepKeeps(s, steps[0]);
      DrainStep(s, c, steps[0]);
      DrainRun(Apply(s, steps[0]), c, steps[1..]);
    }
  }

  /** A subscription never attaches to a closed channel. */
  lemma SubscribesElsewhere(s: State, c: nat, step: Step)
    requires Inv(s) && step.Subscribe? && Enabled(s, step) && c < |s.channels| && !s.channels[c].open
    ensures Apply(s, step).callers[step.t] != Spawning(c)
  {
    NoneCondemned(s.callers);
    if Stored(s.storage, step.subject, step.queue) {
      assert s.channels[s.storage[step.subject][step.queue]].open;
    }
  }

  lemma {:induction false} SomeLoad(workers: seq<Worker>, callers: seq<Caller>, c: nat)
    ensures WorkersLoad(workers, c) > 0 ==> exists w :: 0 <= w < |workers| && WorkerLoad(workers[w], c) > 0
    ensures SpawnsLoad(callers, c) > 0 ==> exists t :: 0 <= t < |callers| && callers[t] == Spawning(c)
    decreases |workers| + |callers|
  {
    if workers != [] && WorkersLoad(workers, c) > 0 && WorkerLoad(workers[0], c) == 0 {
      SomeLoad(workers[1..], [], c);
      var w :| 0 <= w < |workers[1..]| && WorkerLoad(workers[1..][w], c) > 0;
      assert WorkerLoad(workers[w + 1], c) > 0;
    }
    if callers != [] && SpawnsLoad(callers, c) > 0 && callers[0] != Spawning(c) {
      SomeLoad([], callers[1..], c);
      var t :| 0 <= t < |callers[1..]| && callers[1..][t] == Spawning(c);
      assert callers[t + 1] == Spawning(c);
    }
  }

  /** While something is left to do on a closed channel, one of its own steps is enabled. */
  lemma DrainProgress(s: State, c: nat) returns (step: Step)
    requires Inv(s) && c < |s.channels| && !s.channels[c].open && Remaining(s, c) > 0
    ensures Enabled(s, step) && Drains(s, c, step)
  {
    SomeLoad(s.workers, s.callers, c);
    if SpawnsLoad(s.callers, c) > 0 {
      var t :| 0 <= t < |s.callers| && s.callers[t] == Spawning(c);
      step := Spawn(t);
    } else {
      assert Served(s.workers, s.callers, c);
      var w: nat;
      if WorkersLoad(s.workers, c) > 0 {
        w :| 0 <= w < |s.workers| && WorkerLoad(s.workers[w], c) > 0;
      } else {
        NoSpawn(s.callers, c);
        w :| 0 <= w < |s.workers| && s.workers[w].channel == c;
        NoWork(s.workers, c, w);
      }
      assert WorkerOk(s.channels, w, s.workers[w]);
      step := if s.workers[w].hand.Some? then Deliver(w)
              else if s.channels[c].buffer != [] then Receive(w) else Exit(w);
    }
  }

  lemma {:induction false} NoWork(workers: seq<Worker>, c: nat, w: nat)
    requires WorkersLoad(workers, c) == 0 && w < |workers|
    ensures WorkerLoad(workers[w], c) == 0
    decreases |workers|
  {
    if w > 0 {
      NoWork(workers[1..], c, w - 1);
    }
  }

  lemma {:induction false} NoSpawn(callers: seq<Caller>, c: nat)
    requires SpawnsLoad(callers, c) == 0
    ensures forall t :: 0 <= t < |callers| ==> callers[t] != Spawning(c)
    decreases |callers|
  {
    if callers != [] {
      NoSpawn(callers[1..], c);
      forall t | 0 <= t < |callers| ensures callers[t] != Spawning(c) {
        if t > 0 {
          assert callers[t] == callers[1..][t - 1];
        }
      }
    }
  }

  /** When nothing is left, everything the channel accepted was delivered by its goroutines, which have ended. */
  lemma Drained(s: State, c: nat)
    requires Inv(s) && c < |s.channels| && Remaining(s, c) == 0
    ensures s.channels[c].accepted == Messages(s.channels[c].received)
    ensures forall w :: 0 <= w < |s.workers| && s.workers[w].channel == c ==>
              !s.workers[w].live && ReceivedBy(s.channels[c].received, w) == s.workers[w].delivered
  {
    assert ChannelOk(s.capacity, s.workers, c, s.channels[c]);
    assert Messages(s.channels[c].received) + [] == Messages(s.channels[c].received);
    forall w | 0 <= w < |s.workers| && s.workers[w].channel == c
      ensures !s.workers[w].live && ReceivedBy(s.channels[c].received, w) == s.workers[w].delivered
    {
      NoWork(s.workers, c, w);
      assert WorkerOk(s.channels, w, s.workers[w]);
      assert s.workers[w].delivered + [] == s.workers[w].delivered;
    }
  }

  // ==================== draining a channel that is in use ====================

  /** A goroutine of channel `c` takes the next message or passes its message on. */
  predicate Works(s: State, c: nat, step: Step) {
    (step.Receive? || step.Deliver?) && step.w < |s.workers| && s.workers[step.w].channel == c
  }

  /** Only the goroutines of `c` have moved: all else, and what `c` has accepted, is as before. */
  ghost predicate OnlyWorked(s: State, s': State, c: nat)
    requires c < |s.channels|
  {
    && |s'.channels| == |s.channels| && |s'.workers| == |s.workers|
    && s' == s.(channels := s.channels[c := s'.channels[c]], workers := s'.workers)
    && s'.channels[c].(buffer := [], received := []) == s.channels[c].(buffer := [], received := [])
    && forall w :: 0 <= w < |s.workers| ==>
         && s'.workers[w].channel == s.workers[w].channel && s'.workers[w].live == s.workers[w].live
         && (s.workers[w].channel != c ==> s'.workers[w] == s.workers[w])
  }

  /** Nothing that `c` has accepted is buffered or in the hand of a goroutine. */
  ghost predicate Emptied(s: State, c: nat)
    requires c < |s.channels|
  {
    && s.channels[c].buffer == [] && s.channels[c].accepted == Messages(s.channels[c].received)
    && forall w :: 0 <= w < |s.workers| && s.workers[w].channel == c ==>
         s.workers[w].hand.None? && ReceivedBy(s.channels[c].received, w) == s.workers[w].delivered
  }

  lemma EmptiedWhen(s: State, c: nat)
    requires Inv(s) && c < |s.channels| && s.channels[c].buffer == []
    requires forall w :: 0 <= w < |s.workers| && s.workers[w].channel == c ==> s.workers[w].hand.None?
    ensures Emptied(s, c)
  {
    assert ChannelOk(s.capacity, s.workers, c, s.channels[c]);
    assert Messages(s.channels[c].received) + [] == Messages(s.channels[c].received);
    forall w | 0 <= w < |s.workers| && s.workers[w].channel == c
      ensures ReceivedBy(s.channels[c].received, w) == s.workers[w].delivered
    {
      assert WorkerOk(s.channels, w, s.workers[w]);
      assert s.workers[w].delivered + [] == s.workers[w].delivered;
    }
  }

  function InHandOrBuffered(s: State, c: nat): nat
    requires c < |s.channels|
  {
    2 * |s.channels[c].buffer| + WorkersLoad(s.workers, c)
  }

  /** One goroutine is enough to empty a channel, open or closed, whatever the callers are doing: the goroutines
      of the channel alone can receive and pass on all it has accepted. */
  lemma {:induction false} WorkedOff(s: State, c: nat, w: nat) returns (steps: seq<Step>)
    requires Inv(s) && c < |s.channels| && w < |s.workers| && s.workers[w].channel == c
    ensures Runs(s, steps) && forall step :: step in steps ==> Works(s, c, step)
    ensures Inv(After(s, steps)) && OnlyWorked(s, After(s, steps), c) && Emptied(After(s, steps), c)
    decreases InHandOrBuffered(s, c)
  {
    if v :| 0 <= v < |s.workers| && s.workers[v].channel == c && s.workers[v].hand.Some? {
      steps := WorkedOffNext(s, c, w, Deliver(v));
    } else if s.channels[c].buffer != [] {
      assert WorkerOk(s.channels, w, s.workers[w]);
      steps := WorkedOffNext(s, c, w, Receive(w));
    } else {
      steps := [];
      EmptiedWhen(s, c);
    }
  }

  lemma {:induction false} WorkedOffNext(s: State, c: nat, w: nat, next: Step) returns (steps: seq<Step>)
    requires Inv(s) && c < |s.channels| && w < |s.workers| && s.workers[w].channel == c
    requires Works(s, c, next) && Enabled(s, next)
    ensures Runs(s, steps) && forall step :: step in steps ==> Works(s, c, step)
    ensures Inv(After(s, steps)) && OnlyWorked(s, After(s, steps), c) && Emptied(After(s, steps), c)
    decreases InHandOrBuffered(s, c), 0
  {
    var s1 := Apply(s, next);
    StepKeeps(s, next);
    WorksOne(s, c, next);
    var rest := WorkedOff(s1, c, w);
    steps := [next] + rest;
    assert steps[0] == next && steps[1..] == rest;
    OnlyWorkedTwice(s, s1, After(s1, rest), c, rest);
  }

  lemma {:induction false} WorksOne(s: State, c: nat, step: Step)
    requires c < |s.channels| && Works(s, c, step) && Enabled(s, step)
    ensures OnlyWorked(s, Apply(s, step), c) && InHandOrBuffered(Apply(s, step), c) < InHandOrBuffered(s, c)
  {
    WorkersLoadUpdate(s.workers, c, step.w, Apply(s, step).workers[step.w]);
  }

  lemma {:induction false} OnlyWorkedTwice(s: State, s1: State, s2: State, c: nat, steps: seq<Step>)
    requires c < |s.channels| && OnlyWorked(s, s1, c) && OnlyWorked(s1, s2, c)
    ensures OnlyWorked(s, s2, c)
    ensures (forall step :: step in steps ==> Works(s1, c, step)) ==> forall step :: step in steps ==> Works(s, c, step)
  {
  }

  lemma {:induction false} RunsSnoc(s: State, steps: seq<Step>, step: Step)
    requires Runs(s, steps) && Enabled(After(s, steps), step)
    ensures Runs(s, steps + [step]) && After(s, steps + [step]) == Apply(After(s, steps), step)
    decreases |steps|
  {
    if steps == [] {
      assert [] + [step] == [step] && [step][1..] == [];
    } else {
      assert (steps + [step])[0] == steps[0] && (steps + [step])[1..] == steps[1..] + [step];
      RunsSnoc(Apply(s, steps[0]), steps[1..], step);
    }
  }

  lemma {:induction false} RunsConcat(s: State, middle: State, first: seq<Step>, second: seq<Step>, both: seq<Step>)
    requires Runs(s, first) && After(s, first) == middle && Runs(middle, second) && both == first + second
    ensures Runs(s, both) && After(s, both) == After(middle, second)
    decreases |second|
  {
    if second == [] {
      assert both == first;
    } else {
      var step, rest := second[0], second[1..];
      RunsSnoc(s, first, step);
      assert both == (first + [step]) + rest;
      RunsConcat(s, Apply(middle, step), first + [step], rest, both);
    }
  }

  /** The goroutines have emptied the first `n` channels, and nothing else has happened. */
  ghost predicate EmptiedTo(s: State, s': State, n: nat) {
    && s'.callers == s.callers && s'.storage == s.storage && s'.capacity == s.capacity
    && n <= |s.channels| == |s'.channels| && |s'.workers| == |s.workers|
    && (forall c :: 0 <= c < |s.channels| ==>
          s'.channels[c].(buffer := [], received := []) == s.channels[c].(buffer := [], received := []))
    && (forall w :: 0 <= w < |s.workers| ==>
          s'.workers[w].channel == s.workers[w].channel && s'.workers[w].live == s.workers[w].live)
    && forall c :: 0 <= c < n ==> Emptied(s', c)
  }

  lemma {:induction false} EmptiedNext(s: State, s1: State, s2: State, n: nat)
    requires n < |s.channels| && EmptiedTo(s, s1, n) && OnlyWorked(s1, s2, n) && Emptied(s2, n)
    ensures EmptiedTo(s, s2, n + 1)
  {
    forall c | 0 <= c < n
      ensures Emptied(s2, c)
    {
      assert Emptied(s1, c) && s2.channels[c] == s1.channels[c];
    }
  }

  lemma {:induction false} ChannelsWorkedOff(s: State, n: nat) returns (steps: seq<Step>)
    requires Inv(s) && n <= |s.channels| && NoneSpawning(s.callers)
    ensures Runs(s, steps) && forall step :: step in steps ==> step.Receive? || step.Deliver?
    ensures Inv(After(s, steps)) && EmptiedTo(s, After(s, steps), n)
  {
    steps := [];
    if n > 0 {
      var first := ChannelsWorkedOff(s, n - 1);
      var s1 := After(s, first);
      var second := ChannelWorkedOff(s, s1, n - 1);
      steps := first + second;
      RunsConcat(s, s1, first, second, steps);
    }
  }

  lemma {:induction false} ChannelWorkedOff(s: State, s1: State, n: nat) returns (steps: seq<Step>)
    requires Inv(s1) && n < |s.channels| && NoneSpawning(s1.callers) && EmptiedTo(s, s1, n)
    ensures Runs(s1, steps) && forall step :: step in steps ==> step.Receive? || step.Deliver?
    ensures Inv(After(s1, steps)) && EmptiedTo(s, After(s1, steps), n + 1)
  {
    assert Served(s1.workers, s1.callers, n);
    var w :| 0 <= w < |s1.workers| && s1.workers[w].channel == n;
    steps := WorkedOff(s1, n, w);
    EmptiedNext(s, s1, After(s1, steps), n);
  }

  predicate NoneSpawning(callers: seq<Caller>) {
    forall t :: 0 <= t < |callers| ==> !callers[t].Spawning?
  }

  /** The callers that were about to start a goroutine have started it, up to caller `n`. */
  ghost predicate StartedTo(s: State, s': State, n: nat) {
    && s'.storage == s.storage && s'.capacity == s.capacity && s'.channels == s.channels
    && n <= |s.callers| == |s'.callers|
    && forall t :: 0 <= t < |s.callers| ==>
         s'.callers[t] == if t < n && s.callers[t].Spawning? then Idle else s.callers[t]
  }

  lemma {:induction false} AllStarted(s: State, n: nat) returns (steps: seq<Step>)
    requires Inv(s) && n <= |s.callers|
    ensures Runs(s, steps) && forall step :: step in steps ==> step.Spawn?
    ensures Inv(After(s, steps)) && StartedTo(s, After(s, steps), n)
  {
    steps := [];
    if n > 0 {
      var first := AllStarted(s, n - 1);
      var s1 := After(s, first);
      steps := first;
      if s1.callers[n - 1].Spawning? {
        var step := Spawn(n - 1);
        StepKeeps(s1, step);
        OneStep(s1, step);
        steps := first + [step];
        RunsConcat(s, s1, first, [step], steps);
      }
    }
  }

  lemma {:induction false} OneStep(s: State, step: Step)
    requires Enabled(s, step)
    ensures Runs(s, [step]) && After(s, [step]) == Apply(s, step)
  {
    assert [step][1..] == [];
  }

  /** Whatever the callers are doing, the goroutines that there are, and those that are about to be started, can
      deliver on their own all that any channel has accepted, subscribed or not. */
  lemma {:induction false} AllDelivered(s: State) returns (steps: seq<Step>)
    requires Inv(s)
    ensures Runs(s, steps) && forall step :: step in steps ==> step.Receive? || step.Deliver? || step.Spawn?
    ensures var s' := After(s, steps);
            && Inv(s') && |s'.channels| == |s.channels| && s'.storage == s.storage && s'.capacity == s.capacity
            && forall c :: 0 <= c < |s.channels| ==>
                 Emptied(s', c) && s'.channels[c].accepted == s.channels[c].accepted
                 && s'.channels[c].open == s.channels[c].open
  {
    var first := AllStarted(s, |s.callers|);
    var s1 := After(s, first);
    var second := ChannelsWorkedOff(s1, |s1.channels|);
    steps := first + second;
    RunsConcat(s, s1, first, second, steps);
  }
}
