/** The receiver thread and its consumer as an interleaved step machine, down to the single link assignments. */
module Receiver {
  import opened Chains

  datatype Owner = Nobody | TheReceiver | TheConsumer

  /** Where the receiver thread is in rocsmq_thread and rocsmq_add. */
  datatype ReceiverAt<M> =
    | Checking | Receiving | Locking(message: M) | Linking(message: M) | LinkingBack | Unlocking | Stopped

  /** Where the consumer is: has_messages, get_message or set_running. */
  datatype ConsumerAt<M> =
    | Idle
    | AskLocking | Asking | AskUnlocking(answer: bool)
    | PopLocking | Severing | Advancing | Copying(message: M)
    | SetLocking(run: bool) | Setting(run: bool) | SetUnlocking

  /**
   * The queue is the list as the links stand at the moment. `received` are the
   * messages the network gave, `taken` those the consumer got.
   */
  datatype State<M> = State(
    queue: seq<Cell<nat, M>>, owner: Owner, running: bool,
    receiver: ReceiverAt<M>, consumer: ConsumerAt<M>,
    received: seq<M>, taken: seq<M>)

  datatype Incoming<M> = Nothing | Got(message: M)

  datatype Order = Ask | SetRunning(run: bool)

  /** Which thread moves next, and what the network or the program decides if it comes to that. */
  datatype Event<M> = ReceiverMoves(incoming: Incoming<M>) | ConsumerMoves(order: Order)

  function Initial<M>(): State<M> {
    State([], Nobody, true, Checking, Idle, [], [])
  }

  /** One step of the receiver; waiting for the mutex leaves the state as it is. */
  function ReceiverStep<M>(s: State<M>, incoming: Incoming<M>): State<M> {
    match s.receiver
    case Checking => s.(receiver := if s.running then Receiving else Stopped)
    case Receiving =>
      (match incoming
       case Nothing => s.(receiver := Checking)
       case Got(m) => s.(receiver := Locking(m), received := s.received + [m]))
    case Locking(m) => if s.owner != Nobody then s else s.(owner := TheReceiver, receiver := Linking(m))
    case Linking(m) =>
      s.(queue := s.queue + [Cell(|s.received|, m, false)],
        receiver := if s.queue == [] then Unlocking else LinkingBack)
    case LinkingBack =>
      if s.queue == [] then s
      else
        var end := |s.queue| - 1;
        s.(queue := s.queue[end := s.queue[end].(linked := true)], receiver := Unlocking)
    case Unlocking => s.(owner := Nobody, receiver := Checking)
    case Stopped => s
  }

  /** get_message on an empty queue would read through a null pointer. */
  ghost predicate Crashing<M>(s: State<M>) {
    s.consumer.Severing? && s.queue == []
  }

  /** One step of the consumer. It takes a message only behind a positive answer of has_messages. */
  function ConsumerStep<M>(s: State<M>, order: Order): State<M> {
    match s.consumer
    case Idle =>
      (match order
       case Ask => s.(consumer := AskLocking)
       case SetRunning(run) => s.(consumer := SetLocking(run)))
    case AskLocking => if s.owner != Nobody then s else s.(owner := TheConsumer, consumer := Asking)
    case Asking => s.(consumer := AskUnlocking(s.queue != []))
    case AskUnlocking(answer) => s.(owner := Nobody, consumer := if answer then PopLocking else Idle)
    case PopLocking => if s.owner != Nobody then s else s.(owner := TheConsumer, consumer := Severing)
    case Severing =>
      s.(queue := if |s.queue| > 1 then s.queue[1 := s.queue[1].(linked := false)] else s.queue, consumer := Advancing)
    case Advancing =>
      if s.queue == [] then s
      else s.(queue := s.queue[1..], consumer := Copying(s.queue[0].data))
    case Copying(m) => s.(taken := s.taken + [m], owner := Nobody, consumer := Idle)
    case SetLocking(run) => if s.owner != Nobody then s else s.(owner := TheConsumer, consumer := Setting(run))
    case Setting(run) => s.(running := run, consumer := SetUnlocking)
    case SetUnlocking => s.(owner := Nobody, consumer := Idle)
  }

  function Step<M>(s: State<M>, e: Event<M>): State<M> {
    match e
    case ReceiverMoves(incoming) => ReceiverStep(s, incoming)
    case ConsumerMoves(order) => ConsumerStep(s, order)
  }

  function Run<M>(s: State<M>, events: seq<Event<M>>): State<M>
    decreases |events|
  {
    if events == [] then s else Run(Step(s, events[0]), events[1..])
  }

  // ----- What every step keeps

  function Contents<M>(queue: seq<Cell<nat, M>>): (r: seq<M>)
    ensures |r| == |queue|
    ensures forall i :: 0 <= i < |r| ==> r[i] == queue[i].data
  {
    if queue == [] then [] else [queue[0].data] + Contents(queue[1..])
  }

  /** Received, but not yet in the queue. */
  function Pending<M>(s: State<M>): seq<M> {
    match s.receiver
    case Locking(m) => [m]
    case Linking(m) => [m]
    case _ => []
  }

  /** Out of the queue, but not yet handed over. */
  function Held<M>(s: State<M>): seq<M> {
    if s.consumer.Copying? then [s.consumer.message] else []
  }

  predicate Locks<M>(s: State<M>) {
    && (s.owner == TheReceiver <==> s.receiver.Linking? || s.receiver.LinkingBack? || s.receiver.Unlocking?)
    && (s.owner == TheConsumer <==>
        s.consumer.Asking? || s.consumer.AskUnlocking? || s.consumer.Severing? || s.consumer.Advancing? ||
        s.consumer.Copying? || s.consumer.Setting? || s.consumer.SetUnlocking?)
  }

  /** The list is fully linked but for the one link that is just being set or cleared. */
  predicate Links<M>(s: State<M>) {
    if s.receiver.LinkingBack? then
      var end := |s.queue| - 1;
      end > 0 && FullyLinked(s.queue[end := s.queue[end].(linked := true)])
    else if s.consumer.Advancing? then
      s.queue != [] && !s.queue[0].linked && FullyLinked(s.queue[1..])
    else FullyLinked(s.queue)
  }

  /** Behind a positive answer there is a message until it is taken. */
  ghost predicate Answered<M>(s: State<M>) {
    (s.consumer == AskUnlocking(true) || s.consumer.PopLocking? || s.consumer.Severing? || s.consumer.Advancing?) ==>
      s.queue != []
  }

  /** All messages that were ever added to the queue. */
  function Added<M>(s: State<M>): seq<M> {
    s.taken + Held(s) + Contents(s.queue)
  }

  ghost predicate Conserved<M>(s: State<M>) {
    s.received == Added(s) + Pending(s)
  }

  ghost predicate Good<M>(s: State<M>) {
    Locks(s) && Links(s) && Answered(s) && Conserved(s)
  }

  lemma ContentsAppend<M>(queue: seq<Cell<nat, M>>, cell: Cell<nat, M>)
    ensures Contents(queue + [cell]) == Contents(queue) + [cell.data]
  {
  }

  lemma ContentsIgnoreLinks<M>(queue: seq<Cell<nat, M>>, i: nat, linked: bool)
    requires i < |queue|
    ensures Contents(queue[i := queue[i].(linked := linked)]) == Contents(queue)
  {
  }

  lemma ContentsHead<M>(queue: seq<Cell<nat, M>>)
    requires queue != []
    ensures Contents(queue) == [queue[0].data] + Contents(queue[1..])
  {
  }

  /** The receiver adds its message in one step and nothing in any other. */
  lemma ReceiverAdds<M>(s: State<M>, incoming: Incoming<M>)
    ensures Added(ReceiverStep(s, incoming)) ==
            if s.receiver.Linking? then Added(s) + [s.receiver.message] else Added(s)
  {
    hide Contents;
    if s.receiver.Linking? {
      ContentsAppend(s.queue, Cell(|s.received|, s.receiver.message, false));
    } else if s.receiver.LinkingBack? && s.queue != [] {
      ContentsIgnoreLinks(s.queue, |s.queue| - 1, true);
    }
  }

  /** Whatever the consumer does, what has been added stays the same. */
  lemma ConsumerAddsNothing<M>(s: State<M>, order: Order)
    ensures Added(ConsumerStep(s, order)) == Added(s)
  {
    hide Contents;
    if s.consumer.Severing? && |s.queue| > 1 {
      ContentsIgnoreLinks(s.queue, 1, false);
    } else if s.consumer.Advancing? && s.queue != [] {
      ContentsHead(s.queue);
      MoveOver(s.taken, s.queue[0].data, Contents(s.queue[1..]));
    } else if s.consumer.Copying? {
      MoveOver(s.taken, s.consumer.message, Contents(s.queue));
    }
  }

  lemma MoveOver<M>(taken: seq<M>, m: M, rest: seq<M>)
    ensures taken + [m] + rest == taken + [] + ([m] + rest)
    ensures taken + [m] + rest == taken + [m] + [] + rest
  {
  }

  lemma ReceiverKeepsLinks<M>(s: State<M>, incoming: Incoming<M>)
    requires Locks(s) && Links(s)
    ensures Links(ReceiverStep(s, incoming))
  {
  }

  lemma ReceiverConserves<M>(s: State<M>, incoming: Incoming<M>)
    requires Conserved(s)
    ensures Conserved(ReceiverStep(s, incoming))
  {
    hide Added;
    ReceiverAdds(s, incoming);
    if s.receiver.Linking? {
      assert Added(s) + [s.receiver.message] + [] == Added(s) + [s.receiver.message];
    } else if s.receiver.Receiving? && incoming.Got? {
      assert Added(s) + [] + [incoming.message] == Added(s) + [incoming.message];
    }
  }

  lemma ReceiverKeeps<M>(s: State<M>, incoming: Incoming<M>)
    requires Good(s)
    ensures Good(ReceiverStep(s, incoming))
  {
    ReceiverKeepsLinks(s, incoming);
    ReceiverConserves(s, incoming);
    hide Links, Conserved, Added, Contents, FullyLinked;
  }

  lemma ConsumerKeepsLinks<M>(s: State<M>, order: Order)
    requires Locks(s) && Links(s) && Answered(s)
    ensures Links(ConsumerStep(s, order))
  {
    var t := ConsumerStep(s, order);
    if s.consumer.Severing? {
      assert forall i :: 0 < i < |s.queue| ==> t.queue[1..][i - 1] == t.queue[i];
    }
  }

  lemma ConsumerKeeps<M>(s: State<M>, order: Order)
    requires Good(s)
    ensures Good(ConsumerStep(s, order))
  {
    ConsumerKeepsLinks(s, order);
    ConsumerAddsNothing(s, order);
    hide Links, Added, Contents, FullyLinked;
  }

  lemma {:induction false} RunKeepsGood<M>(s: State<M>, events: seq<Event<M>>)
    requires Good(s)
    ensures Good(Run(s, events))
    decreases |events|
  {
    hide Good, ReceiverStep, ConsumerStep;
    if events != [] {
      match events[0] {
        case ReceiverMoves(incoming) => ReceiverKeeps(s, incoming);
        case ConsumerMoves(order) => ConsumerKeeps(s, order);
      }
      RunKeepsGood(Step(s, events[0]), events[1..]);
    }
  }

  lemma GoodMeans<M>(s: State<M>)
    requires Good(s)
    ensures s.received == Added(s) + Pending(s) && !Crashing(s)
    ensures s.owner == Nobody ==> FullyLinked(s.queue) && s.received == s.taken + Contents(s.queue) + Pending(s)
  {
    hide FullyLinked, Contents;
    assert s.taken + [] == s.taken;
  }

  lemma InitiallyGood<M>()
    ensures Good(Initial<M>())
  {
  }

  /** The messages of those events that find the thread receiving. */
  function Arriving<M>(s: State<M>, events: seq<Event<M>>): seq<M>
    decreases |events|
  {
    if events == [] then []
    else
      var first := if s.receiver.Receiving? && events[0].ReceiverMoves? && events[0].incoming.Got?
                   then [events[0].incoming.message] else [];
      first + Arriving(Step(s, events[0]), events[1..])
  }

  lemma {:induction false} ArrivingIsReceived<M>(s: State<M>, events: seq<Event<M>>)
    ensures Run(s, events).received == s.received + Arriving(s, events)
    decreases |events|
  {
    if events != [] {
      ArrivingIsReceived(Step(s, events[0]), events[1..]);
    }
  }

  /**
   * Under every interleaving nothing is lost, duplicated or reordered: what the
   * network gave to the receiving thread is what was taken, then what is on its
   * way, in that order. When the mutex is free the list is fully linked and
   * everything that is not waiting to be added is taken or in the queue. No
   * empty queue is ever popped.
   */
  lemma EveryInterleaving<M>(events: seq<Event<M>>)
    ensures var (s, arrived) := (Run(Initial<M>(), events), Arriving(Initial<M>(), events));
            && s.received == arrived == Added(s) + Pending(s)
            && (s.owner == Nobody ==> FullyLinked(s.queue) && arrived == s.taken + Contents(s.queue) + Pending(s))
            && !Crashing(s)
  {
    var start := Initial<M>();
    assert start.received == [];
    ArrivingIsReceived(start, events);
    assert [] + Arriving(start, events) == Arriving(start, events);
    hide Good, Added, Pending, Contents, FullyLinked, Crashing, Run, Initial, Arriving;
    InitiallyGood<M>();
    RunKeepsGood(start, events);
    GoodMeans(Run(start, events));
  }

  /** The gap between has_messages and get_message: no step of the receiver takes the positive answer back. */
  lemma AnswerStands<M>(s: State<M>, incoming: Incoming<M>)
    requires s.queue != []
    ensures ReceiverStep(s, incoming).queue != [] && ReceiverStep(s, incoming).queue[0].data == s.queue[0].data
  {
  }

  // ----- The steps of one critical section together

  /** The link assignments of rocsmq_add make up an append at the back of the list. */
  lemma AddInSteps<M>(s: State<M>, m: M, a: Incoming<M>, b: Incoming<M>)
    requires Good(s) && s.receiver == Linking(m)
    ensures var t := ReceiverStep(s, a);
            var u := if t.receiver.LinkingBack? then ReceiverStep(t, b) else t;
            u.receiver.Unlocking? && u.queue == Join(s.queue, [Cell(|s.received|, m, false)])
  {
  }

  /** Those of rocsmq_get_message make up a removal at the front. */
  lemma PopInSteps<M>(s: State<M>, a: Order, b: Order)
    requires Good(s) && s.consumer.Severing?
    ensures var t := ConsumerStep(ConsumerStep(s, a), b);
            t.consumer == Copying(s.queue[0].data) && t.queue == Sever(s.queue[1..])
  {
  }

  // ----- One thread moving alone

  lemma RunOne<M>(s: State<M>, events: seq<Event<M>>, k: nat)
    requires k < |events|
    ensures Run(s, events[k..]) == Run(Step(s, events[k]), events[k + 1..])
  {
    assert events[k..][1..] == events[k + 1..];
  }

  lemma RunNone<M>(s: State<M>)
    ensures Run(s, []) == s
  {
  }

  predicate OnlyReceiver<M>(events: seq<Event<M>>) {
    forall i :: 0 <= i < |events| ==> events[i].ReceiverMoves?
  }

  /** The state of the queue and the receiver when a message has just been hung behind the others. */
  function Hung<M>(s: State<M>, m: M): State<M> {
    s.(received := s.received + [m], owner := TheReceiver,
      queue := s.queue + [Cell(|s.received| + 1, m, false)],
      receiver := if s.queue == [] then Unlocking else LinkingBack)
  }

  lemma ReceiverHangs<M>(s: State<M>, m: M, events: seq<Event<M>>)
    requires s.owner == Nobody && s.running && s.receiver.Checking?
    requires OnlyReceiver(events) && |events| >= 4 && events[1] == ReceiverMoves(Got(m))
    ensures Run(s, events) == Run(Hung(s, m), events[4..])
  {
    var s1 := s.(receiver := Receiving);
    var s2 := s.(receiver := Locking(m), received := s.received + [m]);
    var s3 := s2.(owner := TheReceiver, receiver := Linking(m));
    hide Run;
    FourSteps(s, s1, s2, s3, Hung(s, m), events);
  }

  /** The rest of the round: the back link, if the queue was not empty, and the unlock. */
  lemma ReceiverUnlocks<M>(s: State<M>, events: seq<Event<M>>)
    requires s.queue != [] && OnlyReceiver(events)
    requires s.receiver.LinkingBack? || s.receiver.Unlocking?
    requires |events| == if s.receiver.Unlocking? then 1 else 2
    ensures var (t, end) := (Run(s, events), |s.queue| - 1);
            && t.receiver.Checking? && t.owner == Nobody && t.running == s.running
            && t.consumer == s.consumer && t.taken == s.taken
            && t.queue == if s.receiver.Unlocking? then s.queue else s.queue[end := s.queue[end].(linked := true)]
  {
    var s1 := Step(s, events[0]);
    hide Run;
    assert events[0..] == events;
    RunOne(s, events, 0);
    if s.receiver.LinkingBack? {
      RunOne(s1, events, 1);
      RunNone(Step(s1, events[1]));
    } else {
      RunNone(s1);
    }
  }

  /**
   * A running receiver that gets a message adds it at the back of the queue and
   * is ready for the next one: five steps of its own on an empty queue, six on
   * another.
   */
  lemma ReceiverRound<M>(s: State<M>, m: M, events: seq<Event<M>>)
    requires Good(s) && s.owner == Nobody && s.running && s.receiver.Checking?
    requires OnlyReceiver(events) && |events| == (if s.queue == [] then 5 else 6) && events[1] == ReceiverMoves(Got(m))
    ensures var t := Run(s, events);
            && t.receiver.Checking? && t.owner == Nobody && t.running
            && Contents(t.queue) == Contents(s.queue) + [m]
            && t.consumer == s.consumer && t.taken == s.taken
  {
    var t := Hung(s, m);
    ContentsAppend(s.queue, t.queue[|s.queue|]);
    ContentsIgnoreLinks(t.queue, |s.queue|, true);
    hide Run, Contents, Good;
    ReceiverHangs(s, m, events);
    ReceiverUnlocks(t, events[4..]);
  }

  /** A receiver that nothing arrives for goes back to looking at `running`. */
  lemma ReceiverIdles<M>(s: State<M>, events: seq<Event<M>>)
    requires s.running && s.receiver.Checking?
    requires OnlyReceiver(events) && |events| == 2 && events[1] == ReceiverMoves(Nothing)
    ensures Run(s, events) == s
  {
    var s1 := Step(s, events[0]);
    hide Run;
    assert events[0..] == events;
    RunOne(s, events, 0);
    RunOne(s1, events, 1);
    RunNone(Step(s1, events[1]));
  }

  predicate OnlyConsumer<M>(events: seq<Event<M>>) {
    forall i :: 0 <= i < |events| ==> events[i].ConsumerMoves?
  }

  /** Four steps of one thread, given the states they lead through. */
  lemma FourSteps<M>(s: State<M>, s1: State<M>, s2: State<M>, s3: State<M>, s4: State<M>, events: seq<Event<M>>)
    requires |events| >= 4 && s1 == Step(s, events[0]) && s2 == Step(s1, events[1])
    requires s3 == Step(s2, events[2]) && s4 == Step(s3, events[3])
    ensures Run(s, events) == Run(s4, events[4..])
  {
    hide Run, Step;
    assert events[0..] == events;
    RunOne(s, events, 0);
    RunOne(s1, events, 1);
    RunOne(s2, events, 2);
    RunOne(s3, events, 3);
  }

  /** A consumer that asks an empty queue gets nothing and changes nothing. */
  lemma ConsumerFindsNothing<M>(s: State<M>, events: seq<Event<M>>)
    requires s.owner == Nobody && s.consumer.Idle? && s.queue == []
    requires OnlyConsumer(events) && |events| == 4 && events[0] == ConsumerMoves(Ask)
    ensures Run(s, events) == s
  {
    ConsumerAsks(s, events);
    RunNone(s);
  }

  /** Asking takes four steps; behind a positive answer the consumer goes on to take a message. */
  lemma ConsumerAsks<M>(s: State<M>, events: seq<Event<M>>)
    requires s.owner == Nobody && s.consumer.Idle?
    requires OnlyConsumer(events) && |events| >= 4 && events[0] == ConsumerMoves(Ask)
    ensures Run(s, events) == Run(s.(consumer := if s.queue != [] then PopLocking else Idle), events[4..])
  {
    var any := s.queue != [];
    var s1 := s.(consumer := AskLocking);
    var s2 := s.(owner := TheConsumer, consumer := Asking);
    var s3 := s2.(consumer := AskUnlocking(any));
    hide Run;
    FourSteps(s, s1, s2, s3, s.(consumer := if any then PopLocking else Idle), events);
  }

  lemma ConsumerPops<M>(s: State<M>, events: seq<Event<M>>)
    requires s.owner == Nobody && s.consumer.PopLocking? && s.queue != []
    requires OnlyConsumer(events) && |events| == 4
    ensures Run(s, events) ==
            s.(consumer := Idle, taken := s.taken + [s.queue[0].data], queue := Sever(s.queue[1..]))
  {
    var severed := if |s.queue| > 1 then s.queue[1 := s.queue[1].(linked := false)] else s.queue;
    assert severed[1..] == Sever(s.queue[1..]);
    var s1 := s.(owner := TheConsumer, consumer := Severing);
    var s2 := s1.(queue := severed, consumer := Advancing);
    var s3 := s2.(queue := severed[1..], consumer := Copying(s.queue[0].data));
    var s4 := s.(consumer := Idle, taken := s.taken + [s.queue[0].data], queue := severed[1..]);
    hide Run, Sever;
    FourSteps(s, s1, s2, s3, s4, events);
    RunNone(s4);
  }

  /** A consumer that asks a queue with messages takes the first one, in eight steps. */
  lemma ConsumerTakesFirst<M>(s: State<M>, events: seq<Event<M>>)
    requires s.owner == Nobody && s.consumer.Idle? && s.queue != []
    requires OnlyConsumer(events) && |events| == 8 && events[0] == ConsumerMoves(Ask)
    ensures var t := Run(s, events);
            && t.consumer.Idle? && t.owner == Nobody
            && t.taken == s.taken + [Contents(s.queue)[0]] && Contents(t.queue) == Contents(s.queue)[1..]
            && t.receiver == s.receiver && t.running == s.running
  {
    hide Run, Contents, Sever;
    ConsumerAsks(s, events);
    ConsumerPops(s.(consumer := PopLocking), events[4..]);
    ContentsHead(s.queue);
    ContentsSevered(s.queue[1..]);
  }

  lemma ContentsSevered<M>(queue: seq<Cell<nat, M>>)
    ensures Contents(Sever(queue)) == Contents(queue)
  {
    if queue != [] {
      ContentsIgnoreLinks(queue, 0, false);
      assert Sever(queue) == queue[0 := queue[0].(linked := false)];
    }
  }

  /** rocsmq_thread_set_running sets the flag and nothing else. */
  lemma ConsumerSets<M>(s: State<M>, run: bool, events: seq<Event<M>>)
    requires s.owner == Nobody && s.consumer.Idle?
    requires OnlyConsumer(events) && |events| == 4 && events[0] == ConsumerMoves(SetRunning(run))
    ensures Run(s, events) == s.(running := run)
  {
    var s1 := s.(consumer := SetLocking(run));
    var s2 := s.(owner := TheConsumer, consumer := Setting(run));
    var s3 := s2.(running := run, consumer := SetUnlocking);
    hide Run;
    FourSteps(s, s1, s2, s3, s.(running := run), events);
    RunNone(s.(running := run));
  }

  // ----- Stopping

  /** The receiver has passed its last look at `running` but has not added its message. */
  function StillToAdd<M>(s: State<M>): nat {
    if s.receiver.Receiving? || s.receiver.Locking? || s.receiver.Linking? then 1 else 0
  }

  /** Stopped, and nobody is about to set it running again. */
  ghost predicate StopRequested<M>(s: State<M>) {
    !s.running && s.consumer != SetLocking(true) && s.consumer != Setting(true)
  }

  lemma StopStep<M>(s: State<M>, e: Event<M>)
    requires Good(s) && StopRequested(s) && e != ConsumerMoves(SetRunning(true))
    ensures StopRequested(Step(s, e))
    ensures |Added(s)| <= |Added(Step(s, e))|
    ensures |Added(Step(s, e))| + StillToAdd(Step(s, e)) <= |Added(s)| + StillToAdd(s)
  {
    hide Added, Links, Answered, Conserved;
    match e
    case ReceiverMoves(incoming) => ReceiverAdds(s, incoming);
    case ConsumerMoves(order) => ConsumerAddsNothing(s, order);
  }

  lemma {:induction false} AtMostOneMore<M>(s: State<M>, events: seq<Event<M>>)
    requires Good(s) && StopRequested(s)
    requires forall i :: 0 <= i < |events| ==> events[i] != ConsumerMoves(SetRunning(true))
    ensures |Added(s)| <= |Added(Run(s, events))| <= |Added(s)| + StillToAdd(s)
    decreases |events|
  {
    hide Good, Step, StopRequested, Added, StillToAdd;
    if events != [] {
      StopStep(s, events[0]);
      RunKeepsGood(s, [events[0]]);
      assert Run(s, [events[0]]) == Step(s, events[0]);
      AtMostOneMore(Step(s, events[0]), events[1..]);
    }
  }

  /** A receiver that finds itself stopped has ended: whatever follows, it adds nothing more. */
  lemma {:induction false} StoppedForGood<M>(s: State<M>, events: seq<Event<M>>)
    requires s.receiver.Stopped? || (s.receiver.Checking? && !s.running && events != [] && events[0].ReceiverMoves?)
    ensures Run(s, events).receiver.Stopped? && Added(Run(s, events)) == Added(s) && Arriving(s, events) == []
    decreases |events|
  {
    hide Added;
    if events != [] {
      match events[0] {
        case ReceiverMoves(incoming) => ReceiverAdds(s, incoming);
        case ConsumerMoves(order) => ConsumerAddsNothing(s, order);
      }
      StoppedForGood(Step(s, events[0]), events[1..]);
    }
  }
}
