/** The objects behind the session: timer, DMA handler and event loop, each method proved
    to take the step of the state machine that it stands for. */
module EventLoop {
  import opened Bytes
  import opened Framing
  import opened Messages
  import opened Sending
  import opened Session

  /** A message without a body. */
  method PostPlain(queue: MessageQueue, kind: int)
    requires queue.Valid() && queue.seqId < INT_MAX
    modifies queue
    ensures queue.Valid() && queue.seqId == old(queue.seqId) + 1
    ensures queue.State() == Posted(old(queue.State()), kind, [])
  {
    var data := new MessageBuffer();
    data.kind, data.number, data.len := kind, kind, 0;
    queue.PostMsgQueue(data);
  }

  class TimerPara {
    var closeState: int
    var running: int
    ghost var late: nat

    ghost function State(): Timer
      reads this
    {
      Timer(closeState, running, late)
    }

    constructor ()
      ensures State() == Timer(1, 0, 0)
    {
      closeState, running, late := 1, 0, 0;
    }

    /** getState, which also sets */
    method GetState(value: int, cmd: int) returns (ret: int)
      modifies this`closeState
      ensures closeState == if cmd == 1 then value else old(closeState)
      ensures ret == if cmd == 1 then 0 else closeState
    {
      if cmd == 1 {
        closeState := value;
        return 0;
      }
      ret := closeState;
    }

    /** Start_Timer */
    method StartTimer()
      modifies this
      ensures State() == Started(old(State()))
    {
      var _ := GetState(0, 1);
      running := 1;
    }

    /** stop_Timer */
    method StopTimer()
      modifies this
      ensures State() == Stopped(old(State()))
    {
      var _ := GetState(1, 1);
      late := 0;
    }

    /** One turn of process_loop, behind the sleep. */
    method ProcessTurn(queue: MessageQueue) returns (goesOn: bool)
      requires queue.Valid() && queue.seqId < INT_MAX - 1
      modifies this, queue
      ensures State() == Fired(old(State())) && queue.Valid()
      ensures goesOn <==> old(closeState) != 1
      ensures var q := Posted(old(queue.State()), MSG_TIMEOUT, []);
              queue.State() == if goesOn then q else Posted(q, MSG_STOP_TIMER, [])
    {
      hide Posted;
      PostPlain(queue, MSG_TIMEOUT);
      late := late + 1;
      var state := GetState(0, 0);
      if state == 1 {
        running := 0;
        PostPlain(queue, MSG_STOP_TIMER);
        return false;
      }
      goesOn := true;
    }
  }

  class DmaPara {
    /** p_axidma is not null */
    var isOpen: bool
    var csiState: int
    var constellationState: int
    var slowCnt: nat
    /** The hardware. */
    ghost var running: bool
    ghost var channel: int
    ghost var blocks: nat
    ghost var frames: nat

    ghost function State(): Dma
      reads this
    {
      Dma(isOpen, csiState, constellationState, slowCnt, running, channel, blocks, frames)
    }

    constructor (opens: bool)
      ensures State() == Dma(opens, 0, 0, 0, false, 0, 0, 0)
    {
      isOpen, csiState, constellationState, slowCnt := opens, 0, 0, 0;
      running, channel, blocks, frames := false, 0, 0, 0;
    }

    /** axidma_chan and axidma_start, which succeed */
    ghost method StartChannel(number: int)
      modifies this`channel, this`running
      ensures channel == number && running
    {
      channel, running := number, true;
    }

    /** gw_startcsi */
    method StartSamples()
      modifies this
      ensures State() == StartCsi(old(State()))
      ensures old(DmaKept(State())) ==>
                DmaKept(State()) && (running <==> old(running) || isOpen)
                && (isOpen && !old(running) ==> channel == CSI_CHANNEL && Tag(State()) == CSI_TAG)
    {
      if csiState == 1 {
        return;
      }
      if !isOpen {
        csiState := 0;
      } else {
        StartChannel(CSI_CHANNEL);
        csiState := 1;
      }
    }

    /** gw_stopcsi */
    method StopSamples()
      modifies this
      ensures State() == StopCsi(old(State()))
      ensures old(DmaKept(State())) ==>
                DmaKept(State()) && csiState == 0 && (old(csiState) == 1 ==> !running && constellationState == 0)
    {
      if csiState == 0 {
        return;
      }
      if !isOpen {
        csiState := 0;
      } else {
        running := false;
        csiState := 0;
        constellationState := 0;
      }
    }

    /** gw_start_constellation */
    method StartPoints()
      modifies this
      ensures State() == StartConstellation(old(State()))
      ensures old(DmaKept(State())) ==>
                DmaKept(State()) && (running <==> old(running) || isOpen)
                && (isOpen && !old(running) ==> channel == CONSTELLATION_CHANNEL && Tag(State()) == CONSTELLATION_TAG)
    {
      if constellationState == 1 {
        return;
      }
      if !isOpen {
        constellationState := 0;
      } else {
        StartChannel(CONSTELLATION_CHANNEL);
        constellationState := 1;
      }
    }

    /** gw_stop_constellation */
    method StopPoints()
      modifies this
      ensures State() == StopConstellation(old(State()))
      ensures old(DmaKept(State())) ==>
                DmaKept(State()) && constellationState == 0
                && (old(constellationState) == 1 ==> !running && csiState == 0)
    {
      if constellationState == 0 {
        return;
      }
      if !isOpen {
        constellationState := 0;
      } else {
        running := false;
        constellationState := 0;
        csiState := 0;
      }
    }

    /** IQ_register_callback: the samples lie behind eight bytes for the header. */
    method Callback(server: Sender, buf: array<byte>, bufLen: nat, taken: int)
      requires 8 + bufLen <= buf.Length <= INT_MAX && -1 <= taken <= bufLen + 8
      modifies this, server, buf
      ensures State() == Delivered(old(State()))
      ensures var f := Frame(Tag(old(State())), old(buf[8..8 + bufLen]));
              Possible(Send(f, taken))
              && server.State() == if PassesOn(old(State())) then AfterSend(old(server.State()), f, taken)
                                   else old(server.State())
    {
      hide AfterSend, Encode, Le32;
      ghost var f := Frame(Tag(State()), buf[8..8 + bufLen]);
      EncodedLength(f);
      blocks := blocks + 1;
      if slowCnt < SLOW_LIMIT {
        slowCnt := slowCnt + 1;
        return;
      }
      slowCnt := 0;
      frames := frames + 1;
      var messageLen := bufLen + 4 + 4;
      var kind := 0;
      if csiState == 1 && constellationState == 0 {
        kind := CSI_TAG;
      } else if constellationState == 1 && csiState == 0 {
        kind := CONSTELLATION_TAG;
      }
      ghost var samples := buf[8..];
      PutHeader(buf, bufLen, kind);
      assert buf[8..8 + bufLen] == samples[..bufLen];
      EncodedIn(buf[..], f);
      var _ := server.SendToPc(buf, messageLen, taken, f);
    }
  }

  /** eventLoop with what it works on. */
  class Loop {
    const queue: MessageQueue
    const server: Sender
    const timer: TimerPara
    const dma: DmaPara
    /** The accept thread has a client in hand that g_receive does not point to yet. */
    var joining: bool
    /** connected belongs to the client that g_receive points to. */
    var connected: bool
    var enableCallback: bool
    var hasTimer: bool
    ghost var registrations: nat
    ghost var arrived: seq<Frame>

    ghost function State(): State
      requires queue.Valid()
      reads this, queue, server, timer, dma
    {
      Session.State(
        queue.State(), server.State(), joining, connected, enableCallback, registrations,
        hasTimer, timer.State(), dma.State(), arrived)
    }

    constructor (opens: bool)
      ensures queue.Valid() && State() == Initial(opens)
      ensures fresh(queue) && fresh(server) && fresh(timer) && fresh(dma)
    {
      queue := new MessageQueue();
      server := new Sender();
      timer := new TimerPara();
      dma := new DmaPara(opens);
      joining, connected, enableCallback, hasTimer := false, false, false, false;
      registrations, arrived := 0, [];
    }

    /** InitReceThread, called by the accept thread: the receive thread of a new client runs. */
    method StartReceiver()
      requires queue.Valid() && !server.hasReceiver && !joining
      modifies this`joining
      ensures State() == Next(old(State()), ClientAccepted)
    {
      joining := true;
    }

    /** The accept thread behind InitReceThread: g_receive points to the client, the server is
        connected, and the event loop is told. */
    method AnnounceClient()
      requires queue.Valid() && queue.seqId < INT_MAX && joining
      modifies this, queue, server
      ensures queue.Valid() && State() == Next(old(State()), ClientAnnounced)
    {
      hide Posted, LinkStep;
      joining, connected := false, false;
      server.AcceptClient();
      PostPlain(queue, MSG_ACCEPT_NEW_CLIENT);
    }

    /** MSG_ACCEPT_NEW_CLIENT */
    method HandleAccept()
      requires queue.Valid()
      modifies this, server, timer
      ensures State() == ClientHandled(old(State()))
    {
      hide LinkStep, Started;
      if !enableCallback {
        registrations := registrations + 1;
        enableCallback := true;
      }
      if !hasTimer {
        timer.StartTimer();
        hasTimer := true;
      }
      server.EnableSending();
    }

    /** MSG_TIMEOUT */
    method HandleTimeout()
      requires queue.Valid() && queue.seqId < INT_MAX
      requires server.waiting == STATE_DISCONNECTED || server.hasReceiver
      modifies this, queue, server, dma
      ensures queue.Valid() && State() == TimeoutHandled(old(State()))
    {
      hide LinkStep, StopCsi, StopConstellation, Posted;
      if server.waiting == STATE_DISCONNECTED {
        return;
      }
      if connected {
        connected := false;
      } else {
        dma.StopSamples();
        dma.StopPoints();
        StopReceThread();
      }
    }

    /** stopReceThread: the receive thread is joined, so its last message is posted. */
    method StopReceThread()
      requires queue.Valid() && queue.seqId < INT_MAX
      modifies this`connected, queue, server
      ensures queue.Valid() && !connected
      ensures server.State() == LinkStep(old(server.State()), Teardown)
      ensures queue.State() == Posted(old(queue.State()), MSG_RECEIVE_THREAD_CLOSED, [])
    {
      hide LinkStep, Posted;
      PostPlain(queue, MSG_RECEIVE_THREAD_CLOSED);
      server.DropClient();
      connected := false;
    }

    /** MSG_RECEIVE_THREAD_CLOSED */
    method HandleEnd()
      requires queue.Valid()
      modifies this, timer
      ensures State() == EndHandled(old(State()))
    {
      if hasTimer {
        timer.StopTimer();
        hasTimer := false;
      }
    }

    /** The turn of the timer thread. */
    method TurnTimer()
      requires queue.Valid() && queue.seqId < INT_MAX - 1
      modifies queue, timer
      ensures queue.Valid() && State() == TimerTurn(old(State()))
    {
      hide Posted, Fired;
      var _ := timer.ProcessTurn(queue);
    }

    /** A block of samples from the DMA driver, which leaves room for the header. */
    method TakeBlock(samples: bytes, taken: int)
      requires queue.Valid() && |samples| + 8 <= INT_MAX && -1 <= taken <= |samples| + 8
      modifies server, dma
      ensures Possible(Send(Frame(Tag(old(State()).dma), samples), taken))
      ensures queue.Valid() && State() == BlockTurn(old(State()), samples, taken)
    {
      hide AfterSend, Delivered, Encode;
      var buf := new byte[|samples| + 8](i requires 0 <= i < |samples| + 8 => if i < 8 then 0 else samples[i - 8]);
      assert buf[8..8 + |samples|] == samples;
      dma.Callback(server, buf, |samples|, taken);
    }

    /** A reply of the broker. */
    method SendReply(reply: Frame, taken: int)
      requires queue.Valid() && Possible(Send(reply, taken))
      modifies server
      ensures queue.Valid() && State() == old(State()).(link := AfterSend(old(State()).link, reply, taken))
    {
      hide AfterSend, Encode;
      EncodedLength(reply);
      var statBuf := new byte[|reply.body|](i requires 0 <= i < |reply.body| => reply.body[i]);
      assert statBuf[..|reply.body|] == reply.body;
      server.SendStateInquiry(statBuf, |reply.body|, reply.kind, taken);
    }

    /** One message: taken from the queue and handled. */
    method HandleMessage()
      requires queue.Valid() && queue.entries != [] && queue.seqId < INT_MAX
      requires queue.State().pending[0].kind == MSG_TIMEOUT ==>
                 server.waiting == STATE_DISCONNECTED || server.hasReceiver
      requires queue.State().pending[0].kind == MSG_RECEIVED_HEART_BEAT ==> server.hasReceiver
      modifies this, queue, server, timer, dma
      ensures queue.Valid() && State() == Turn(old(State()))
    {
      hide Taken, ClientHandled, TimeoutHandled, EndHandled, StartCsi, StopCsi, StartConstellation, StopConstellation;
      var data := queue.GetMsgQueue();
      var kind := data.kind;
      if kind == MSG_ACCEPT_NEW_CLIENT {
        HandleAccept();
      } else if kind == MSG_TIMEOUT {
        HandleTimeout();
      } else if kind == MSG_RECEIVE_THREAD_CLOSED {
        HandleEnd();
      } else if kind == MSG_RECEIVED_HEART_BEAT {
        connected := true;
      } else if kind == MSG_STOP_CSI {
        dma.StopSamples();
      } else if kind == MSG_START_CSI {
        dma.StartSamples();
      } else if kind == MSG_START_CONSTELLATION {
        dma.StartPoints();
      } else if kind == MSG_STOP_CONSTELLATION {
        dma.StopPoints();
      }
    }
  }
}
