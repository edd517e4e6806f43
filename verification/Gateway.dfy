/** The whole gateway over a run: the objects stay in step with the state machine, and what
    the invariants say of its states is what their methods ask for. */
module Gateway {
  import opened Bytes
  import opened Framing
  import opened Messages
  import opened Receiving
  import opened Sending
  import opened Session
  import opened EventLoop

  /** What the receive thread, the driver and the broker hand over fits its buffers. */
  predicate Fits(e: SessionEvent) {
    match e
    case FrameArrived(f) => Acceptable(f)
    case BlockDelivered(samples, _) => |samples| + 8 <= INT_MAX
    case _ => true
  }

  /** Numbers for messages that the steps still to come may use up. */
  const ROOM: nat := 4096

  class System {
    const loop: Loop
    /** The receive thread of the client that came last. */
    var receiver: Receiver?
    ghost const opens: bool
    ghost var past: seq<SessionEvent>

    ghost function Footprint(): set<object>
      reads this
    {
      {this, loop, loop.queue, loop.server, loop.timer, loop.dma}
      + if receiver == null then {} else {receiver, receiver.recvbuf}
    }

    /** The objects are in the state that the steps so far lead to. */
    ghost predicate InStep()
      reads this`past, loop, loop.queue, loop.server, loop.timer, loop.dma
    {
      loop.queue.Valid() && loop.queue.seqId <= 1 + 2 * |past| && Reached(opens, past) == Some(loop.State())
    }

    /** The receive thread has had whole frames only. */
    ghost predicate Listening()
      reads this`receiver, loop`joining, loop.server`hasReceiver
      reads if receiver == null then {} else {receiver, receiver.recvbuf}
    {
      && (loop.joining || loop.server.hasReceiver ==> receiver != null)
      && (receiver != null ==>
            receiver.queue == loop.queue && receiver.Holding() && AllSendable(receiver.delivered)
            && (forall i :: 0 <= i < |receiver.delivered| ==> Acceptable(receiver.delivered[i]))
            && receiver.stream == EncodeAll(receiver.delivered))
    }

    ghost predicate Valid()
      reads Footprint()
    {
      InStep() && Listening()
    }

    constructor (dmaOpens: bool)
      ensures Valid() && fresh(Footprint()) && opens == dmaOpens && past == []
    {
      loop := new Loop(dmaOpens);
      receiver, opens, past := null, dmaOpens, [];
    }

    /** The accept thread: a new client, whose receive thread has a buffer of its own. */
    method Connect()
      requires Valid() && Enabled(loop.State(), ClientAccepted) && 2 * |past| + ROOM <= INT_MAX
      modifies this, loop`joining
      ensures Valid() && past == old(past) + [ClientAccepted] && fresh(Footprint() - old(Footprint()))
    {
      hide Receiver.Holding, Enabled, Next, RunFrom, Reached;
      Extend(opens, past, loop.State(), ClientAccepted);
      NoClientYet(loop);
      loop.StartReceiver();
      receiver := new Receiver(loop.queue);
      NoFrames();
      past := past + [ClientAccepted];
    }

    /** The accept thread: the client is announced. */
    method Announce()
      requires Valid() && Enabled(loop.State(), ClientAnnounced) && 2 * |past| + ROOM <= INT_MAX
      modifies this`past, loop, loop.queue, loop.server
      ensures Valid() && past == old(past) + [ClientAnnounced] && receiver == old(receiver)
    {
      hide Receiver.Holding, Enabled, Next, RunFrom, Reached;
      Extend(opens, past, loop.State(), ClientAnnounced);
      InHand(loop);
      loop.AnnounceClient();
      past := past + [ClientAnnounced];
    }

    /** The receive thread: the chunk that holds one frame. */
    method Receive(f: Frame)
      requires Valid() && Enabled(loop.State(), FrameArrived(f)) && 2 * |past| + ROOM <= INT_MAX
      requires Acceptable(f)
      modifies this`past, loop`arrived, loop.queue, if receiver == null then {} else {receiver, receiver.recvbuf}
      ensures Valid() && past == old(past) + [FrameArrived(f)] && receiver == old(receiver)
    {
      hide Enabled, RunFrom, Reached, Processed, Next, Acceptable, Listening;
      Extend(opens, past, loop.State(), FrameArrived(f));
      ClientThere(loop, f);
      ReceiverThere();
      TakeFrame(f);
      loop.arrived := loop.arrived + [f];
      past := past + [FrameArrived(f)];
    }

    lemma ReceiverThere()
      requires Listening() && (loop.joining || loop.server.hasReceiver)
      ensures receiver != null
    {
    }

    method TakeFrame(f: Frame)
      requires receiver != null && Listening() && Acceptable(f)
      requires loop.queue.Valid() && loop.queue.seqId + ROOM <= INT_MAX
      modifies loop.queue, receiver, receiver.recvbuf
      ensures Listening() && loop.queue.Valid()
      ensures loop.queue.State() == Processed(old(loop.queue.State()), f)
    {
      hide Encode, Split, Good, ProcessedAll, Processed;
      OneMoreFrameComes(receiver, f, loop.queue.State());
      receiver.Receive(Encode(f));
    }

    /** The timer thread. */
    method Tick()
      requires Valid() && Enabled(loop.State(), TimerFired) && 2 * |past| + ROOM <= INT_MAX
      modifies this`past, loop.queue, loop.timer
      ensures Valid() && past == old(past) + [TimerFired]
    {
      hide Receiver.Holding, TimerTurn, RunFrom, Reached;
      Extend(opens, past, loop.State(), TimerFired);
      loop.TurnTimer();
      past := past + [TimerFired];
    }

    /** The DMA driver's callback. */
    method TakeBlock(samples: bytes, taken: int)
      requires Valid() && Enabled(loop.State(), BlockDelivered(samples, taken)) && |samples| + 8 <= INT_MAX
      modifies this`past, loop.server, loop.dma
      ensures Valid() && past == old(past) + [BlockDelivered(samples, taken)]
    {
      hide Receiver.Holding, BlockTurn, RunFrom, Reached;
      Extend(opens, past, loop.State(), BlockDelivered(samples, taken));
      loop.TakeBlock(samples, taken);
      past := past + [BlockDelivered(samples, taken)];
    }

    /** The broker's callback. */
    method Reply(reply: Frame, taken: int)
      requires Valid() && Enabled(loop.State(), BrokerSends(reply, taken))
      modifies this`past, loop.server
      ensures Valid() && past == old(past) + [BrokerSends(reply, taken)]
    {
      hide Receiver.Holding, RunFrom, Reached;
      Extend(opens, past, loop.State(), BrokerSends(reply, taken));
      loop.SendReply(reply, taken);
      past := past + [BrokerSends(reply, taken)];
    }

    /** The event loop: what HandleMessage asks for holds in every run. */
    method Handle()
      requires Valid() && Enabled(loop.State(), MessageHandled) && 2 * |past| + ROOM <= INT_MAX
      modifies this`past, loop, loop.queue, loop.server, loop.timer, loop.dma
      ensures Valid() && past == old(past) + [MessageHandled]
    {
      hide Receiver.Holding, Turn, RunFrom, Reached, Enabled, Next;
      Extend(opens, past, loop.State(), MessageHandled);
      MayHandle(opens, past, loop);
      loop.HandleMessage();
      past := past + [MessageHandled];
    }

    /** One step of a run. */
    method Perform(e: SessionEvent)
      requires Valid() && Enabled(loop.State(), e) && Fits(e) && 2 * |past| + ROOM <= INT_MAX
      modifies Footprint()
      ensures Valid() && past == old(past) + [e] && fresh(Footprint() - old(Footprint()))
    {
      hide RunFrom, Reached, Enabled, Next, Listening, InStep, Loop.State, MessageQueue.State;
      match e
      case ClientAccepted => Connect();
      case ClientAnnounced => Announce();
      case FrameArrived(f) => Receive(f);
      case TimerFired => Tick();
      case BlockDelivered(samples, taken) => TakeBlock(samples, taken);
      case BrokerSends(reply, taken) => Reply(reply, taken);
      case MessageHandled => Handle();
    }
  }

  lemma Extend(opens: bool, past: seq<SessionEvent>, s: State, e: SessionEvent)
    requires Reached(opens, past) == Some(s) && Enabled(s, e)
    ensures Reached(opens, past + [e]) == Some(Next(s, e))
    ensures Next(s, e).queue.seqId <= s.queue.seqId + 2
    ensures Next(s, e).link.line.Some? ==> s.link.line.Some? || e.ClientAnnounced?
    ensures Next(s, e).joining ==> s.joining || e.ClientAccepted?
  {
    hide RunFrom, Enabled, Next;
    Extended(Initial(opens), past, e);
    NumbersUsed(s, e);
  }

  lemma NumbersUsed(s: State, e: SessionEvent)
    requires Enabled(s, e)
    ensures Next(s, e).queue.seqId <= s.queue.seqId + 2
    ensures Next(s, e).link.line.Some? ==> s.link.line.Some? || e.ClientAnnounced?
    ensures Next(s, e).joining ==> s.joining || e.ClientAccepted?
  {
    hide Possible, AfterSend, Requested, Delivered, StartCsi, StopCsi, StartConstellation, StopConstellation;
    match e
    case BlockDelivered(samples, taken) => SendLeavesClient(s.link, Frame(Tag(s.dma), samples), taken);
    case BrokerSends(reply, taken) => SendLeavesClient(s.link, reply, taken);
    case _ =>
  }

  /** What HandleMessage asks for, from the invariants of the run. */
  lemma MayHandle(opens: bool, past: seq<SessionEvent>, loop: Loop)
    requires loop.queue.Valid() && Reached(opens, past) == Some(loop.State())
    requires Enabled(loop.State(), MessageHandled)
    ensures loop.queue.entries != []
    ensures loop.queue.State().pending[0].kind == MSG_TIMEOUT ==>
              loop.server.waiting == STATE_DISCONNECTED || loop.server.hasReceiver
    ensures loop.queue.State().pending[0].kind == MSG_RECEIVED_HEART_BEAT ==> loop.server.hasReceiver
    ensures Next(loop.State(), MessageHandled) == Turn(loop.State())
  {
    hide Turn, RunFrom, Reached, Shown;
    SessionInvariants(opens, past, loop.State());
  }

  lemma NoClientYet(loop: Loop)
    requires loop.queue.Valid() && Enabled(loop.State(), ClientAccepted)
    ensures !loop.server.hasReceiver && !loop.joining
  {
  }

  lemma InHand(loop: Loop)
    requires loop.queue.Valid() && Enabled(loop.State(), ClientAnnounced)
    ensures loop.joining
  {
  }

  lemma ClientThere(loop: Loop, f: Frame)
    requires loop.queue.Valid() && Enabled(loop.State(), FrameArrived(f))
    ensures loop.joining || loop.server.hasReceiver
    ensures Next(loop.State(), FrameArrived(f))
         == loop.State().(queue := Processed(loop.State().queue, f), arrived := loop.arrived + [f])
  {
  }

  /** The chunk that holds one whole frame, to a receiver that has had whole frames only. */
  lemma OneMoreFrameComes(r: Receiver, f: Frame, q: Queue)
    requires r.Holding() && AllSendable(r.delivered) && Acceptable(f)
    requires forall i :: 0 <= i < |r.delivered| ==> Acceptable(r.delivered[i])
    requires r.stream == EncodeAll(r.delivered)
    ensures r.more == 0 && |Encode(f)| <= LENGTH_LIMIT + 4 && Good(r.stream + Encode(f))
    ensures Split(r.recvbuf[CHUNK_START..CHUNK_START] + Encode(f)).frames == [f]
    ensures ProcessedAll(q, [f]) == Processed(q, f)
    ensures AllSendable(r.delivered + [f]) && r.stream + Encode(f) == EncodeAll(r.delivered + [f])
  {
    hide Encode, EncodeAll, Split, Good, Processed, ProcessedAll, AllSendable;
    NothingIsIncomplete();
    assert EncodeAll(r.delivered) + [] == EncodeAll(r.delivered);
    SplitUndoesEncode(r.delivered, []);
    EncodedLength(f);
    StreamGrows(r.delivered, f);
    FrameAlone(f, q);
  }

  lemma StreamGrows(d: seq<Frame>, f: Frame)
    requires AllSendable(d) && Acceptable(f) && forall i :: 0 <= i < |d| ==> Acceptable(d[i])
    ensures Good(EncodeAll(d) + Encode(f)) && AllSendable(d + [f])
    ensures EncodeAll(d) + Encode(f) == EncodeAll(d + [f])
  {
    hide Encode, EncodeAll, Good;
    EncodeAllAppend(d, f);
    NothingYetOf(f);
    assert EncodeAll(d + [f]) + [] == EncodeAll(d + [f]);
    EncodedIsGood(d + [f], f, []);
  }

  lemma FrameAlone(f: Frame, q: Queue)
    requires Acceptable(f)
    ensures Split([] + Encode(f)).frames == [f] && ProcessedAll(q, [f]) == Processed(q, f)
  {
    hide Encode, EncodeAll, Split, Processed;
    NothingIsIncomplete();
    NoFrames();
    EncodeAllAppend([], f);
    assert [] + [f] == [f] && [] + Encode(f) == Encode(f) == Encode(f) + [];
    SplitUndoesEncode([f], []);
    assert [f][..0] == [];
  }

  lemma NothingYetOf(f: Frame)
    requires Sendable(f)
    ensures Truncated(f, [])
  {
    assert |Encode(f)| > 0;
  }

  /** The system taken through a run, step by step. It never comes to a step that it cannot
      take, and ends in the state that the run leads to. */
  method Drive(opens: bool, events: seq<SessionEvent>) returns (system: System)
    requires Reached(opens, events).Some? && 2 * |events| + ROOM <= INT_MAX
    requires forall i :: 0 <= i < |events| ==> Fits(events[i])
    ensures system.Valid() && Reached(opens, events) == Some(system.loop.State())
  {
    hide RunFrom, Reached, Enabled, Next, System.Listening, Fits;
    system := new System(opens);
    var i := 0;
    while i < |events|
      invariant i <= |events| && system.Valid() && fresh(system.Footprint())
      invariant system.opens == opens && system.past == events[..i]
    {
      StepOfRun(opens, events, i, system.loop.State());
      assert Fits(events[i]);
      assert events[..i + 1] == events[..i] + [events[i]];
      system.Perform(events[i]);
      i := i + 1;
    }
    assert events[..i] == events;
  }

  lemma {:induction false} StepOfRun(opens: bool, events: seq<SessionEvent>, i: nat, s: State)
    requires i < |events| && Reached(opens, events).Some? && Reached(opens, events[..i]) == Some(s)
    ensures Enabled(s, events[i])
    decreases |events|
  {
    hide Enabled, Next;
    var before := events[..|events| - 1];
    if i == |events| - 1 {
      assert events[..i] == before;
    } else {
      assert before[..i] == events[..i];
      StepOfRun(opens, before, i, s);
    }
  }
}
