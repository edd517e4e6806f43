/** The session as a state machine. One step is one client accepted, which starts its receive
    thread, one client announced to the other threads, one frame handed to processMessage, one
    turn of the timer thread, one block from the DMA, one call of sendToPc by the broker, or one
    message handled by the event loop. */
module Session {
  import opened Bytes
  import opened Framing
  import opened Messages
  import opened Sending

  // The timer thread.

  /** `late` counts the MSG_TIMEOUT posted since the timer was last stopped. */
  datatype Timer = Timer(closeState: int, running: int, late: nat)

  function Started(t: Timer): Timer {
    t.(closeState := 0, running := 1)
  }

  function Stopped(t: Timer): Timer {
    t.(closeState := 1, late := 0)
  }

  /** One turn of process_loop: the time-out is posted, then the state is looked at. */
  function Fired(t: Timer): Timer {
    var u := t.(late := t.late + 1);
    if t.closeState == 1 then u.(running := 0) else u
  }

  ghost predicate TimerKept(t: Timer, hasTimer: bool) {
    && (hasTimer <==> t.closeState == 0)
    && (hasTimer ==> t.running == 1)
    && 0 <= t.closeState <= 1 && 0 <= t.running <= 1
    && (t.closeState == 1 ==> t.late + t.running <= 1)
  }

  // The DMA and the flags that say what it is for.

  const CSI_CHANNEL := 0x40
  const CONSTELLATION_CHANNEL := 0x80
  const CSI_TAG := 2
  const CONSTELLATION_TAG := 4
  const SLOW_LIMIT: nat := 50

  /** `running` and `channel` are the state of the hardware; `blocks` and `frames` count
      what it has delivered and what was passed on. */
  datatype Dma = Dma(
    isOpen: bool, csiState: int, constellationState: int, slowCnt: nat,
    running: bool, channel: int, blocks: nat, frames: nat)

  function StartCsi(d: Dma): Dma {
    if d.csiState == 1 then d
    else if !d.isOpen then d.(csiState := 0)
    else d.(channel := CSI_CHANNEL, running := true, csiState := 1)
  }

  function StopCsi(d: Dma): Dma {
    if d.csiState == 0 then d
    else if !d.isOpen then d.(csiState := 0)
    else d.(running := false, csiState := 0, constellationState := 0)
  }

  function StartConstellation(d: Dma): Dma {
    if d.constellationState == 1 then d
    else if !d.isOpen then d.(constellationState := 0)
    else d.(channel := CONSTELLATION_CHANNEL, running := true, constellationState := 1)
  }

  function StopConstellation(d: Dma): Dma {
    if d.constellationState == 0 then d
    else if !d.isOpen then d.(constellationState := 0)
    else d.(running := false, csiState := 0, constellationState := 0)
  }

  /** The tag that a frame of samples gets. */
  function Tag(d: Dma): int {
    if d.csiState == 1 && d.constellationState == 0 then CSI_TAG
    else if d.constellationState == 1 && d.csiState == 0 then CONSTELLATION_TAG
    else 0
  }

  /** One block in SLOW_LIMIT + 1 is passed on. */
  predicate PassesOn(d: Dma) {
    d.slowCnt >= SLOW_LIMIT
  }

  function Delivered(d: Dma): Dma {
    if PassesOn(d) then d.(slowCnt := 0, blocks := d.blocks + 1, frames := d.frames + 1)
    else d.(slowCnt := d.slowCnt + 1, blocks := d.blocks + 1)
  }

  ghost predicate DmaKept(d: Dma) {
    && 0 <= d.csiState <= 1 && 0 <= d.constellationState <= 1
    && (d.running <==> d.csiState == 1 || d.constellationState == 1)
    && (!d.isOpen ==> !d.running)
    && (d.running ==> d.channel == CSI_CHANNEL || d.channel == CONSTELLATION_CHANNEL)
    && (Tag(d) == CSI_TAG ==> d.channel == CSI_CHANNEL)
    && (Tag(d) == CONSTELLATION_TAG ==> d.channel == CONSTELLATION_CHANNEL)
    && d.slowCnt <= SLOW_LIMIT
    && d.blocks == (SLOW_LIMIT + 1) * d.frames + d.slowCnt
  }

  lemma DmaSteps(d: Dma)
    requires DmaKept(d)
    ensures DmaKept(StartCsi(d)) && DmaKept(StopCsi(d)) && DmaKept(Delivered(d))
    ensures DmaKept(StartConstellation(d)) && DmaKept(StopConstellation(d))
    ensures !StopConstellation(StopCsi(d)).running
  {
  }

  /** What starts and stops come to: a start from rest picks its own channel and tag; with
      both started, frames are tagged neither way and come from the channel chosen last; one
      stop stops both; a stop of what is not running changes nothing. */
  lemma StartsAndStops(d: Dma)
    requires DmaKept(d) && d.isOpen
    ensures !d.running ==>
              Tag(StartCsi(d)) == CSI_TAG && StartCsi(d).channel == CSI_CHANNEL
              && Tag(StartConstellation(d)) == CONSTELLATION_TAG
              && StartConstellation(d).channel == CONSTELLATION_CHANNEL
              && StopCsi(d) == d == StopConstellation(d)
              && !StopCsi(StartCsi(d)).running && !StopConstellation(StartConstellation(d)).running
    ensures var both := StartConstellation(StartCsi(d));
            both.running && Tag(both) == 0 && StopCsi(both) == StopConstellation(both) && !StopCsi(both).running
            && (!d.running ==> both.channel == CONSTELLATION_CHANNEL)
    ensures Tag(d) == CSI_TAG ==> StopConstellation(d) == d == StartCsi(d)
    ensures Tag(d) == CONSTELLATION_TAG ==> StopCsi(d) == d == StartConstellation(d)
  {
  }

  // The whole.

  /** `joining`: the accept thread has started a receive thread for a client that g_receive
      does not point to yet. */
  datatype State = State(
    queue: Queue, link: Link, joining: bool, connected: bool, enableCallback: bool, registrations: nat,
    hasTimer: bool, timer: Timer, dma: Dma, arrived: seq<Frame>)

  datatype SessionEvent =
    | ClientAccepted
    | ClientAnnounced
    | FrameArrived(frame: Frame)
    | TimerFired
    | BlockDelivered(samples: bytes, taken: int)
    | BrokerSends(reply: Frame, taken: int)
    | MessageHandled

  function Initial(dmaOpens: bool): State {
    State(
      Empty(), Start(), false, false, false, 0,
      false, Timer(1, 0, 0), Dma(dmaOpens, 0, 0, 0, false, 0, 0, 0), [])
  }

  function Post(s: State, kind: int): State {
    s.(queue := Posted(s.queue, kind, []))
  }

  /** The event loop gives up the client: the samples stop, the receive thread ends. */
  function TornDown(s: State): State {
    Post(
      s.(dma := StopConstellation(StopCsi(s.dma)), link := LinkStep(s.link, Teardown), connected := false),
      MSG_RECEIVE_THREAD_CLOSED)
  }

  /** MSG_ACCEPT_NEW_CLIENT */
  function ClientHandled(s: State): State {
    s.(registrations := if s.enableCallback then s.registrations else s.registrations + 1,
       enableCallback := true,
       timer := if s.hasTimer then s.timer else Started(s.timer),
       hasTimer := true,
       link := LinkStep(s.link, HandleAccept))
  }

  /** MSG_RECEIVE_THREAD_CLOSED */
  function EndHandled(s: State): State {
    if s.hasTimer then s.(timer := Stopped(s.timer), hasTimer := false) else s
  }

  /** MSG_TIMEOUT gives up the client: it is there and has not been heard of. */
  predicate GivesUp(s: State) {
    s.link.waiting != STATE_DISCONNECTED && !s.connected
  }

  function TimeoutHandled(s: State): State {
    if s.link.waiting == STATE_DISCONNECTED then s
    else if s.connected then s.(connected := false)
    else TornDown(s)
  }

  /** What the event loop does for a message that it has taken. The exchanges with the
      devices change nothing here; their replies are steps of their own. */
  function Handling(s: State, kind: int): State {
    if kind == MSG_ACCEPT_NEW_CLIENT then ClientHandled(s)
    else if kind == MSG_TIMEOUT then TimeoutHandled(s)
    else if kind == MSG_RECEIVE_THREAD_CLOSED then EndHandled(s)
    else if kind == MSG_RECEIVED_HEART_BEAT then s.(connected := true)
    else if kind == MSG_STOP_CSI then s.(dma := StopCsi(s.dma))
    else if kind == MSG_START_CSI then s.(dma := StartCsi(s.dma))
    else if kind == MSG_START_CONSTELLATION then s.(dma := StartConstellation(s.dma))
    else if kind == MSG_STOP_CONSTELLATION then s.(dma := StopConstellation(s.dma))
    else s
  }

  function Turn(s: State): State
    requires s.queue.pending != []
  {
    Handling(s.(queue := Taken(s.queue)), s.queue.pending[0].kind)
  }

  /** The turn of the timer thread; it ends with MSG_STOP_TIMER if the timer was stopped. */
  function TimerTurn(s: State): State {
    var t := Post(s.(timer := Fired(s.timer)), MSG_TIMEOUT);
    if s.timer.closeState == 1 then Post(t, MSG_STOP_TIMER) else t
  }

  /** A block of samples: its header is made in place, its frame sent. */
  function BlockTurn(s: State, samples: bytes, taken: int): State
    requires Possible(Send(Frame(Tag(s.dma), samples), taken))
  {
    if PassesOn(s.dma) then
      s.(dma := Delivered(s.dma), link := AfterSend(s.link, Frame(Tag(s.dma), samples), taken))
    else s.(dma := Delivered(s.dma))
  }

  /** The event loop is about to mark a client that is not there: the source follows a null
      pointer, and the run ends. */
  predicate Crashes(s: State) {
    s.queue.pending != [] && s.queue.pending[0].kind == MSG_RECEIVED_HEART_BEAT && s.link.line.None?
  }

  /** What can happen. Clients come one at a time. */
  predicate Enabled(s: State, e: SessionEvent) {
    match e
    case ClientAccepted => s.link.line.None? && !s.joining
    case ClientAnnounced => s.joining
    case FrameArrived(_) => s.joining || s.link.line.Some?
    case TimerFired => s.timer.running == 1
    case BlockDelivered(samples, taken) =>
      s.dma.running && Possible(Send(Frame(Tag(s.dma), samples), taken))
    case BrokerSends(reply, taken) => Possible(Send(reply, taken))
    case MessageHandled =>
      s.queue.pending != [] && !Crashes(s)
  }

  predicate Absent(kind: int, messages: seq<Message>) {
    forall i :: 0 <= i < |messages| ==> messages[i].kind != kind
  }

  function Next(s: State, e: SessionEvent): State
    requires Enabled(s, e)
  {
    match e
    case ClientAccepted => s.(joining := true)
    case ClientAnnounced =>
      Post(s.(joining := false, link := LinkStep(s.link, Accept), connected := false), MSG_ACCEPT_NEW_CLIENT)
    case FrameArrived(f) =>
      s.(queue := Processed(s.queue, f), arrived := s.arrived + [f])
    case TimerFired => TimerTurn(s)
    case BlockDelivered(samples, taken) => BlockTurn(s, samples, taken)
    case BrokerSends(reply, taken) => s.(link := AfterSend(s.link, reply, taken))
    case MessageHandled => Turn(s)
  }

  // The invariants.

  /** MSG_ACCEPT_NEW_CLIENT and MSG_RECEIVE_THREAD_CLOSED take turns in the queue: each
      finds the timer the way its predecessor left it. None if they do not. */
  function AfterMarks(hasTimer: bool, messages: seq<Message>): Option<bool> {
    if messages == [] then Some(hasTimer)
    else AfterMark(AfterMarks(hasTimer, messages[..|messages| - 1]), messages[|messages| - 1].kind)
  }

  function AfterMark(before: Option<bool>, kind: int): Option<bool> {
    if kind == MSG_ACCEPT_NEW_CLIENT then if before == Some(false) then Some(true) else None
    else if kind == MSG_RECEIVE_THREAD_CLOSED then if before == Some(true) then Some(false) else None
    else before
  }

  /** No client has been announced yet. */
  ghost predicate Untouched(s: State) {
    !s.hasTimer && s.timer.running == 0
    && Absent(MSG_TIMEOUT, s.queue.pending) && Absent(MSG_ACCEPT_NEW_CLIENT, s.queue.pending)
  }

  ghost predicate ClientKept(s: State) {
    && (s.link.waiting == STATE_CONNECTED <==> s.link.line.Some?)
    && STATE_DISCONNECTED <= s.link.waiting <= STATE_CONNECTED
    && (s.link.waiting == STATE_STARTUP ==> Untouched(s))
    && (s.link.line.None? ==> !s.connected)
    && (s.joining ==> s.link.line.None?)
    && AfterMarks(s.hasTimer, s.queue.pending) == Some(s.link.line.Some?)
  }

  /** The messages are numbered in turn, and the commands among them are those of the frames
      that arrived. */
  ghost predicate InOrder(q: Queue, arrived: seq<Frame>) {
    && Numbered(Ever(q)) && q.seqId == 1 + |Ever(q)|
    && Commands(Ever(q)) == CommandsIn(arrived)
  }

  ghost predicate QueueKept(s: State) {
    InOrder(s.queue, s.arrived)
  }

  ghost predicate Kept(s: State) {
    && DmaKept(s.dma) && TimerKept(s.timer, s.hasTimer) && ClientKept(s) && QueueKept(s)
    && PeriodKept(s.link)
    && s.registrations == (if s.enableCallback then 1 else 0)
  }

  lemma DmaPart(s: State, e: SessionEvent)
    requires DmaKept(s.dma) && Enabled(s, e)
    ensures DmaKept(Next(s, e).dma)
  {
    hide DmaKept, StartCsi, StopCsi, StartConstellation, StopConstellation, Delivered, Possible, AfterSend;
    DmaSteps(s.dma);
    DmaSteps(StopCsi(s.dma));
  }

  lemma TimerPart(s: State, e: SessionEvent)
    requires TimerKept(s.timer, s.hasTimer) && Enabled(s, e)
    ensures TimerKept(Next(s, e).timer, Next(s, e).hasTimer)
  {
    hide Possible, AfterSend, Posted, Processed, Taken, Handling, LinkStep, Delivered;
    if e.MessageHandled? {
      HandlingTimer(s.(queue := Taken(s.queue)), s.queue.pending[0].kind);
    }
  }

  lemma HandlingTimer(s: State, kind: int)
    requires TimerKept(s.timer, s.hasTimer)
    ensures TimerKept(Handling(s, kind).timer, Handling(s, kind).hasTimer)
  {
    hide Posted, StartCsi, StopCsi, StartConstellation, StopConstellation, LinkStep;
  }

  lemma PeriodPart(s: State, e: SessionEvent)
    requires PeriodKept(s.link) && Enabled(s, e)
    ensures PeriodKept(Next(s, e).link)
  {
    hide Possible, AfterSend, Posted, Processed, Taken, PeriodKept;
    Always();
    match e
    case ClientAccepted =>
    case ClientAnnounced => PeriodStep(s.link, Accept);
    case FrameArrived(_) =>
    case TimerFired =>
    case BlockDelivered(samples, taken) => PeriodStep(s.link, Send(Frame(Tag(s.dma), samples), taken));
    case BrokerSends(reply, taken) => PeriodStep(s.link, Send(reply, taken));
    case MessageHandled =>
      PeriodStep(s.link, HandleAccept);
      PeriodStep(s.link, Teardown);
  }

  lemma Always()
    ensures Possible(HandleAccept) && Possible(Teardown) && Possible(Accept)
  {
  }

  lemma CallbackPart(s: State, e: SessionEvent)
    requires Enabled(s, e)
    requires s.registrations == if s.enableCallback then 1 else 0
    ensures Next(s, e).registrations == if Next(s, e).enableCallback then 1 else 0
  {
    hide Possible, AfterSend, Posted, Processed, Taken, Handling, LinkStep, Delivered, Fired;
    if e.MessageHandled? {
      HandlingRegisters(s.(queue := Taken(s.queue)), s.queue.pending[0].kind);
    }
  }

  lemma HandlingRegisters(s: State, kind: int)
    requires s.registrations == if s.enableCallback then 1 else 0
    ensures Handling(s, kind).registrations == if Handling(s, kind).enableCallback then 1 else 0
  {
    hide Posted, StartCsi, StopCsi, StartConstellation, StopConstellation, LinkStep, Started, Stopped;
  }

  lemma QueuePart(s: State, e: SessionEvent)
    requires QueueKept(s) && Enabled(s, e)
    ensures QueueKept(Next(s, e))
  {
    hide *;
    QueueMoves(s, e);
    InOrderHere(s);
    InOrderHere(Next(s, e));
    match e
    case FrameArrived(f) => ArrivalKeeps(s.queue, s.arrived, f);
    case TimerFired =>
      OtherKeeps(s.queue, s.arrived, Other(MSG_TIMEOUT));
      OtherKeeps(Step(s.queue, Other(MSG_TIMEOUT)), s.arrived, Other(MSG_STOP_TIMER));
    case MessageHandled =>
      OtherKeeps(s.queue, s.arrived, Take);
      OtherKeeps(Step(s.queue, Take), s.arrived, Other(MSG_RECEIVE_THREAD_CLOSED));
    case _ => OtherKeeps(s.queue, s.arrived, Other(MSG_ACCEPT_NEW_CLIENT));
  }

  /** What a step does to the queue. */
  lemma QueueMoves(s: State, e: SessionEvent)
    requires Enabled(s, e)
    ensures var q := Next(s, e).queue;
            (e.ClientAnnounced? ==> q == Step(s.queue, Other(MSG_ACCEPT_NEW_CLIENT)))
            && (e.FrameArrived? ==> q == Step(s.queue, Arrival(e.frame)))
            && (e.TimerFired? ==>
                  var posted := Step(s.queue, Other(MSG_TIMEOUT));
                  q == posted || q == Step(posted, Other(MSG_STOP_TIMER)))
            && (e.MessageHandled? ==>
                  var taken := Step(s.queue, Take);
                  q == taken || q == Step(taken, Other(MSG_RECEIVE_THREAD_CLOSED)))
            && (e.ClientAccepted? || e.BlockDelivered? || e.BrokerSends? ==> q == s.queue)
    ensures Next(s, e).arrived == if e.FrameArrived? then s.arrived + [e.frame] else s.arrived
  {
    hide Possible, AfterSend, Posted, Processed, Taken, Handling, LinkStep, Fired, Delivered;
    if e.MessageHandled? {
      HandlingMoves(s.(queue := Taken(s.queue)), s.queue.pending[0].kind);
    }
  }

  lemma HandlingMoves(s: State, kind: int)
    ensures Handling(s, kind).arrived == s.arrived
    ensures Handling(s, kind).queue == s.queue
            || Handling(s, kind).queue == Posted(s.queue, MSG_RECEIVE_THREAD_CLOSED, [])
  {
    hide Posted, StartCsi, StopCsi, StartConstellation, StopConstellation, LinkStep, Started, Stopped;
  }

  lemma InOrderHere(s: State)
    ensures QueueKept(s) <==> InOrder(s.queue, s.arrived)
  {
    hide InOrder;
  }

  lemma OtherKeeps(q: Queue, arrived: seq<Frame>, e: Event)
    requires InOrder(q, arrived) && !e.Arrival?
    requires e.Other? ==>
               e.kind == MSG_ACCEPT_NEW_CLIENT || e.kind == MSG_TIMEOUT || e.kind == MSG_STOP_TIMER
               || e.kind == MSG_RECEIVE_THREAD_CLOSED
    ensures InOrder(Step(q, e), arrived)
  {
    hide Numbered, Ever, Commands, CommandsIn, CommandIn, Step;
    StepKeeps(q, e);
  }

  lemma ArrivalKeeps(q: Queue, arrived: seq<Frame>, f: Frame)
    requires InOrder(q, arrived)
    ensures InOrder(Step(q, Arrival(f)), arrived + [f])
  {
    hide Numbered, Ever, Commands, CommandsIn, CommandIn, Step;
    StepKeeps(q, Arrival(f));
    CommandsInAppend(arrived, f);
  }

  // The client: who is there, and what of it is still in the queue.

  lemma MarksOneMore(hasTimer: bool, messages: seq<Message>, m: Message)
    ensures AfterMarks(hasTimer, messages + [m]) == AfterMark(AfterMarks(hasTimer, messages), m.kind)
  {
    assert (messages + [m])[..|messages|] == messages;
  }

  lemma {:induction false} MarksOneLess(hasTimer: bool, messages: seq<Message>)
    requires messages != [] && AfterMarks(hasTimer, messages).Some?
    ensures var first := AfterMarks(hasTimer, [messages[0]]);
            first.Some? && AfterMarks(hasTimer, messages) == AfterMarks(first.value, messages[1..])
    decreases |messages|
  {
    var before, m := messages[..|messages| - 1], messages[|messages| - 1];
    assert messages == before + [m];
    if before == [] {
      assert messages == [m] && messages[1..] == [];
    } else {
      MarksOneMore(hasTimer, before, m);
      MarksOneLess(hasTimer, before);
      assert messages[1..] == before[1..] + [m];
      MarksOneMore(AfterMarks(hasTimer, [messages[0]]).value, before[1..], m);
    }
  }

  lemma OneMark(hasTimer: bool, m: Message)
    ensures AfterMarks(hasTimer, [m]) == AfterMark(Some(hasTimer), m.kind)
  {
  }

  /** What taking the first message leaves of the invariant about the client. */
  lemma TakenClient(s: State)
    requires ClientKept(s) && s.queue.pending != []
    ensures var m, rest := s.queue.pending[0], s.queue.pending[1..];
            var first := AfterMarks(s.hasTimer, [m]);
            first.Some? && AfterMarks(first.value, rest) == Some(s.link.line.Some?)
            && (s.link.waiting == STATE_STARTUP ==> m.kind != MSG_TIMEOUT && m.kind != MSG_ACCEPT_NEW_CLIENT)
  {
    hide AfterMarks;
    MarksOneLess(s.hasTimer, s.queue.pending);
  }

  lemma PostedClient(q: Queue, hasTimer: bool, kind: int, body: bytes)
    ensures AfterMarks(hasTimer, Posted(q, kind, body).pending)
         == AfterMark(AfterMarks(hasTimer, q.pending), kind)
  {
    hide AfterMarks;
    MarksOneMore(hasTimer, q.pending, Message(kind, q.seqId, body));
  }

  lemma SendLeavesClient(l: Link, f: Frame, taken: int)
    requires Possible(Send(f, taken))
    ensures var r := AfterSend(l, f, taken);
            r.waiting == l.waiting && (r.line.Some? <==> l.line.Some?)
  {
  }

  lemma NoMarkFromFrames(f: Frame)
    ensures var r := Requested(f);
            r.Some? ==> r.value.kind != MSG_ACCEPT_NEW_CLIENT && r.value.kind != MSG_RECEIVE_THREAD_CLOSED
                        && r.value.kind != MSG_TIMEOUT
  {
  }

  /** Before the first client is announced only frames are posted, and the timer rests. */
  lemma UntouchedPart(s: State, e: SessionEvent)
    requires s.link.waiting == STATE_STARTUP ==> Untouched(s)
    requires Enabled(s, e)
    ensures Next(s, e).link.waiting == STATE_STARTUP ==> Untouched(Next(s, e))
  {
    hide Possible, AfterSend, Requested, StartCsi, StopCsi, StartConstellation, StopConstellation, Delivered;
    match e
    case FrameArrived(f) => NoMarkFromFrames(f);
    case BlockDelivered(samples, taken) => SendLeavesClient(s.link, Frame(Tag(s.dma), samples), taken);
    case BrokerSends(reply, taken) => SendLeavesClient(s.link, reply, taken);
    case _ =>
  }

  lemma ClientPart(s: State, e: SessionEvent)
    requires ClientKept(s) && TimerKept(s.timer, s.hasTimer) && DmaKept(s.dma) && Enabled(s, e)
    ensures ClientKept(Next(s, e))
  {
    hide Possible, AfterSend, Posted, Requested, Taken, AfterMarks, Absent, DmaKept, Untouched;
    UntouchedPart(s, e);
    match e
    case ClientAccepted =>
    case ClientAnnounced =>
      PostedClient(s.queue, s.hasTimer, MSG_ACCEPT_NEW_CLIENT, []);
    case FrameArrived(f) =>
      NoMarkFromFrames(f);
      var r := Requested(f);
      if r.Some? {
        PostedClient(s.queue, s.hasTimer, r.value.kind, r.value.body);
      }
    case TimerFired =>
      PostedClient(s.queue, s.hasTimer, MSG_TIMEOUT, []);
      PostedClient(Posted(s.queue, MSG_TIMEOUT, []), s.hasTimer, MSG_STOP_TIMER, []);
    case BlockDelivered(samples, taken) =>
      SendLeavesClient(s.link, Frame(Tag(s.dma), samples), taken);
    case BrokerSends(reply, taken) =>
      SendLeavesClient(s.link, reply, taken);
    case MessageHandled =>
      TurnKeepsClient(s);
      KeptAfterTurn(s);
  }

  lemma KeptAfterTurn(s: State)
    requires Enabled(s, MessageHandled)
    ensures Next(s, MessageHandled) == Turn(s)
  {
    hide Turn;
  }

  lemma TurnKeepsClient(s: State)
    requires ClientKept(s) && Enabled(s, MessageHandled)
    ensures ClientKept(Turn(s))
  {
    hide Posted, AfterMarks, Absent, StartCsi, StopCsi, StartConstellation, StopConstellation, Untouched;
    UntouchedPart(s, MessageHandled);
    TakenClient(s);
    OneMark(s.hasTimer, s.queue.pending[0]);
    PostedClient(Taken(s.queue), s.hasTimer, MSG_RECEIVE_THREAD_CLOSED, []);
  }

  // All runs.

  /** The state after these steps; None if one of them could not happen. */
  function RunFrom(s: State, events: seq<SessionEvent>): Option<State> {
    if events == [] then Some(s)
    else
      var before, e := RunFrom(s, events[..|events| - 1]), events[|events| - 1];
      if before.Some? && Enabled(before.value, e) then Some(Next(before.value, e)) else None
  }

  function Reached(dmaOpens: bool, events: seq<SessionEvent>): Option<State> {
    RunFrom(Initial(dmaOpens), events)
  }

  lemma Extended(s: State, events: seq<SessionEvent>, e: SessionEvent)
    requires RunFrom(s, events).Some? && Enabled(RunFrom(s, events).value, e)
    ensures RunFrom(s, events + [e]) == Some(Next(RunFrom(s, events).value, e))
  {
    hide Enabled, Next;
    assert (events + [e])[..|events|] == events;
  }

  lemma StepKeepsAll(s: State, e: SessionEvent)
    requires Kept(s) && Enabled(s, e)
    ensures Kept(Next(s, e))
  {
    hide DmaKept, TimerKept, ClientKept, QueueKept, PeriodKept, Enabled, Next;
    DmaPart(s, e);
    TimerPart(s, e);
    ClientPart(s, e);
    QueuePart(s, e);
    PeriodPart(s, e);
    CallbackPart(s, e);
  }

  lemma {:induction false} RunKeeps(s: State, events: seq<SessionEvent>)
    requires Kept(s)
    ensures var r := RunFrom(s, events);
            r.Some? ==> Kept(r.value)
    decreases |events|
  {
    hide Kept, Enabled, Next;
    if events != [] {
      var before := events[..|events| - 1];
      RunKeeps(s, before);
      var r := RunFrom(s, before);
      if r.Some? && Enabled(r.value, events[|events| - 1]) {
        StepKeepsAll(r.value, events[|events| - 1]);
      }
    }
  }

  lemma AlwaysKept(dmaOpens: bool, events: seq<SessionEvent>)
    ensures var r := Reached(dmaOpens, events);
            r.Some? ==> Kept(r.value)
  {
    hide Kept, RunFrom;
    KeptInitially(dmaOpens);
    RunKeeps(Initial(dmaOpens), events);
  }

  lemma KeptInitially(dmaOpens: bool)
    ensures Kept(Initial(dmaOpens))
  {
    KeptAtStart();
  }

  /** In every state that a run reaches: the DMA, the timer, and the messages that would
      find no client. */
  lemma SessionInvariants(dmaOpens: bool, events: seq<SessionEvent>, s: State)
    requires Reached(dmaOpens, events) == Some(s)
    ensures s.dma.running <==> s.dma.csiState == 1 || s.dma.constellationState == 1
    ensures s.dma.running && Tag(s.dma) == CSI_TAG ==> s.dma.channel == CSI_CHANNEL
    ensures s.dma.running && Tag(s.dma) == CONSTELLATION_TAG ==> s.dma.channel == CONSTELLATION_CHANNEL
    ensures s.dma.frames == s.dma.blocks / (SLOW_LIMIT + 1)
    ensures s.hasTimer <==> s.timer.closeState == 0
    ensures s.timer.closeState == 1 ==> s.timer.late <= 1
    ensures Coming(s) && s.queue.pending[0].kind == MSG_TIMEOUT ==>
              s.link.waiting == STATE_DISCONNECTED || s.link.line.Some?
    ensures Coming(s) && s.queue.pending[0].kind == MSG_ACCEPT_NEW_CLIENT ==> !s.hasTimer
    ensures Coming(s) && s.queue.pending[0].kind == MSG_RECEIVE_THREAD_CLOSED ==> s.hasTimer
    ensures Absent(MSG_ACCEPT_NEW_CLIENT, s.queue.pending) && Absent(MSG_RECEIVE_THREAD_CLOSED, s.queue.pending)
        ==> (s.hasTimer <==> s.link.line.Some?)
    ensures s.registrations <= 1
  {
    hide Reached, QueueKept, PeriodKept, AfterMarks, Absent;
    AlwaysKept(dmaOpens, events);
    FramesOfBlocks(s.dma);
    if Coming(s) {
      TakenClient(s);
      OneMark(s.hasTimer, s.queue.pending[0]);
    }
    NoMarks(s.hasTimer, s.queue.pending);
  }

  predicate Coming(s: State) {
    s.queue.pending != []
  }

  lemma FramesOfBlocks(d: Dma)
    requires DmaKept(d)
    ensures d.frames == d.blocks / (SLOW_LIMIT + 1)
  {
  }

  lemma {:induction false} NoMarks(hasTimer: bool, messages: seq<Message>)
    ensures Absent(MSG_ACCEPT_NEW_CLIENT, messages) && Absent(MSG_RECEIVE_THREAD_CLOSED, messages)
        ==> AfterMarks(hasTimer, messages) == Some(hasTimer)
    decreases |messages|
  {
    if messages != [] {
      NoMarks(hasTimer, messages[..|messages| - 1]);
    }
  }

  /** What giving up a client leaves behind: no samples, no client, and the message that
      will stop the timer. */
  lemma GivingUp(dmaOpens: bool, events: seq<SessionEvent>, s: State)
    requires Reached(dmaOpens, events) == Some(s) && Enabled(s, MessageHandled)
    requires s.queue.pending[0].kind == MSG_TIMEOUT && GivesUp(s)
    ensures var t := Next(s, MessageHandled);
            !t.dma.running && t.dma.csiState == t.dma.constellationState == 0
            && t.link.waiting == STATE_DISCONNECTED && t.link.line.None? && t.hasTimer == s.hasTimer
            && t.queue.pending == s.queue.pending[1..] + [Message(MSG_RECEIVE_THREAD_CLOSED, s.queue.seqId, [])]
  {
    hide Reached, QueueKept, PeriodKept, AfterMarks, Absent;
    AlwaysKept(dmaOpens, events);
    DmaSteps(s.dma);
  }

  /** What handling the accept message brings about: the timer runs, sending is enabled,
      and the callbacks have been registered once. */
  lemma Welcoming(dmaOpens: bool, events: seq<SessionEvent>, s: State)
    requires Reached(dmaOpens, events) == Some(s) && Enabled(s, MessageHandled)
    requires s.queue.pending[0].kind == MSG_ACCEPT_NEW_CLIENT
    ensures var t := Next(s, MessageHandled);
            t.hasTimer && t.timer.closeState == 0 && t.timer.running == 1
            && t.link.sendEnable && t.link.period == Line([], []) && t.registrations == 1
  {
    hide Reached, QueueKept, PeriodKept, AfterMarks, Absent;
    AlwaysKept(dmaOpens, events);
  }

  /** What handling the end of the receive thread brings about: the timer is stopped, and its
      next turn, the last one, posts one time-out and the end of the timer. */
  lemma Ending(dmaOpens: bool, events: seq<SessionEvent>, s: State)
    requires Reached(dmaOpens, events) == Some(s) && Enabled(s, MessageHandled)
    requires s.queue.pending[0].kind == MSG_RECEIVE_THREAD_CLOSED
    ensures var t := Next(s, MessageHandled);
            s.hasTimer && !t.hasTimer && t.timer == Timer(1, 1, 0) && Enabled(t, TimerFired)
            && var u := Next(t, TimerFired);
               u.timer == Timer(1, 0, 1) && !Enabled(u, TimerFired)
               && u.queue.pending == t.queue.pending + [Message(MSG_TIMEOUT, t.queue.seqId, []),
                                                        Message(MSG_STOP_TIMER, t.queue.seqId + 1, [])]
  {
    hide Reached, QueueKept, PeriodKept, AfterMarks, Absent;
    AlwaysKept(dmaOpens, events);
    TakenClient(s);
    OneMark(s.hasTimer, s.queue.pending[0]);
  }

  /** While the timer is wanted each of its turns posts one time-out and nothing else; the turn
      after it was stopped is the last and posts the end of the timer behind it. */
  lemma Ticking(dmaOpens: bool, events: seq<SessionEvent>, s: State)
    requires Reached(dmaOpens, events) == Some(s) && Enabled(s, TimerFired)
    ensures var t := Next(s, TimerFired);
            t.queue.pending == s.queue.pending + [Message(MSG_TIMEOUT, s.queue.seqId, [])]
                               + (if s.hasTimer then [] else [Message(MSG_STOP_TIMER, s.queue.seqId + 1, [])])
            && (Enabled(t, TimerFired) <==> s.hasTimer)
  {
    hide Reached, QueueKept, PeriodKept, ClientKept, DmaKept;
    AlwaysKept(dmaOpens, events);
  }

  // What the messages do to the DMA.

  /** The DMA was opened at the start or never. */
  lemma {:induction false} OpenStays(dmaOpens: bool, events: seq<SessionEvent>, s: State)
    requires Reached(dmaOpens, events) == Some(s)
    ensures s.dma.isOpen == dmaOpens
    decreases |events|
  {
    hide Enabled, Next;
    if events != [] {
      var r := Reached(dmaOpens, events[..|events| - 1]).value;
      OpenStays(dmaOpens, events[..|events| - 1], r);
      StepLeavesOpen(r, events[|events| - 1]);
    }
  }

  lemma StepLeavesOpen(s: State, e: SessionEvent)
    requires Enabled(s, e)
    ensures Next(s, e).dma.isOpen == s.dma.isOpen
    ensures !e.MessageHandled? ==>
              var d, u := s.dma, Next(s, e).dma;
              u.running == d.running && u.channel == d.channel
              && u.csiState == d.csiState && u.constellationState == d.constellationState
  {
    hide Possible, AfterSend, Posted, Processed, Handling, Taken;
    if e.MessageHandled? {
      HandlingDma(s.(queue := Taken(s.queue)), s.queue.pending[0].kind);
      DmaCommands(s.dma);
      DmaCommands(StopCsi(s.dma));
    }
  }

  /** The part of a message's handling that concerns the DMA. */
  lemma HandlingDma(s: State, kind: int)
    ensures Handling(s, kind).dma
         == if kind == MSG_STOP_CSI then StopCsi(s.dma)
            else if kind == MSG_START_CSI then StartCsi(s.dma)
            else if kind == MSG_START_CONSTELLATION then StartConstellation(s.dma)
            else if kind == MSG_STOP_CONSTELLATION then StopConstellation(s.dma)
            else if kind == MSG_TIMEOUT && GivesUp(s) then StopConstellation(StopCsi(s.dma))
            else s.dma
  {
    hide StartCsi, StopCsi, StartConstellation, StopConstellation, Posted, LinkStep, Started, Stopped;
  }

  lemma DmaCommands(d: Dma)
    ensures StartCsi(d).isOpen == StopCsi(d).isOpen == d.isOpen
    ensures StartConstellation(d).isOpen == StopConstellation(d).isOpen == d.isOpen
  {
  }

  /** What handling a message makes of the DMA `d`: MSG_START_CSI and MSG_START_CONSTELLATION
      start it on their own channel and tag, MSG_STOP_CSI and MSG_STOP_CONSTELLATION stop what
      is started under their flag, and with it everything; all other messages leave it as it
      was, but for a time-out that gives up the client. */
  lemma MessagesDriveDma(dmaOpens: bool, events: seq<SessionEvent>, s: State)
    requires Reached(dmaOpens, events) == Some(s) && Enabled(s, MessageHandled)
    ensures var kind, d, u := s.queue.pending[0].kind, s.dma, Next(s, MessageHandled).dma;
            (kind == MSG_START_CSI && dmaOpens && !d.running ==>
               u.running && u.csiState == 1 && u.constellationState == 0 && u.channel == 0x40 && Tag(u) == 2)
            && (kind == MSG_START_CONSTELLATION && dmaOpens && !d.running ==>
                  u.running && u.csiState == 0 && u.constellationState == 1 && u.channel == 0x80 && Tag(u) == 4)
            && (kind == MSG_START_CSI && d.csiState == 0 && d.running ==>
                  u.running && u.csiState == u.constellationState == 1 && u.channel == 0x40 && Tag(u) == 0)
            && (kind == MSG_START_CONSTELLATION && d.constellationState == 0 && d.running ==>
                  u.running && u.csiState == u.constellationState == 1 && u.channel == 0x80 && Tag(u) == 0)
            && (kind == MSG_STOP_CSI && d.csiState == 1 ==>
                  !u.running && u.csiState == u.constellationState == 0)
            && (kind == MSG_STOP_CONSTELLATION && d.constellationState == 1 ==>
                  !u.running && u.csiState == u.constellationState == 0)
            && (kind == MSG_START_CSI && (d.csiState == 1 || !dmaOpens) ==> u == d)
            && (kind == MSG_START_CONSTELLATION && (d.constellationState == 1 || !dmaOpens) ==> u == d)
            && (kind == MSG_STOP_CSI && d.csiState == 0 ==> u == d)
            && (kind == MSG_STOP_CONSTELLATION && d.constellationState == 0 ==> u == d)
    ensures var kind := s.queue.pending[0].kind;
            kind !in {MSG_START_CSI, MSG_STOP_CSI, MSG_START_CONSTELLATION, MSG_STOP_CONSTELLATION}
            && !(kind == MSG_TIMEOUT && GivesUp(s))
            ==> Next(s, MessageHandled).dma == s.dma
  {
    hide Reached, TimerKept, ClientKept, QueueKept, PeriodKept, Posted, Handling;
    AlwaysKept(dmaOpens, events);
    OpenStays(dmaOpens, events, s);
    HandlingDma(s.(queue := Taken(s.queue)), s.queue.pending[0].kind);
  }

  /** From the frame to its effect: whenever the message that a frame has left at the end of
      the queue is the next to be handled. Types 7 and 4 start the samples, 8 and 5 stop
      them, 99 marks the client, and the others do neither; the commands 1 and 2 come with
      their bodies. */
  lemma FramesTakeEffect(dmaOpens: bool, events: seq<SessionEvent>, s: State, f: Frame,
                         later: seq<SessionEvent>, t: State)
    requires Reached(dmaOpens, events) == Some(s) && Enabled(s, FrameArrived(f))
    requires f.kind in {1, 2, 4, 5, 7, 8, 22, 99}
    requires Reached(dmaOpens, later) == Some(t) && Enabled(t, MessageHandled)
    requires var q := Next(s, FrameArrived(f)).queue.pending;
             q != [] && t.queue.pending[0] == q[|q| - 1]
    ensures var d, u := t.dma, Next(t, MessageHandled).dma;
            (f.kind == 7 && dmaOpens && !d.running ==>
               u.running && u.csiState == 1 && u.constellationState == 0 && u.channel == 0x40 && Tag(u) == 2)
            && (f.kind == 4 && dmaOpens && !d.running ==>
                  u.running && u.csiState == 0 && u.constellationState == 1 && u.channel == 0x80 && Tag(u) == 4)
            && ((f.kind == 8 && d.csiState == 1) || (f.kind == 5 && d.constellationState == 1) ==>
                  !u.running && u.csiState == u.constellationState == 0)
            && ((f.kind == 8 && d.csiState == 0) || (f.kind == 5 && d.constellationState == 0) ==> u == d)
            && ((f.kind == 7 && d.csiState == 1) || (f.kind == 4 && d.constellationState == 1) ==> u == d)
            && (f.kind in {1, 2, 22, 99} ==> u == d)
    ensures Next(t, MessageHandled).connected <==> f.kind == 99 || t.connected
    ensures f.kind in {1, 2} ==> t.queue.pending[0].body == f.body
  {
    hide Reached, Possible, Tag, Posted, Processed, Handling, Requested;
    MessagesDriveDma(dmaOpens, later, t);
    LastRequest(s, f);
    HandlingMarks(t.(queue := Taken(t.queue)), t.queue.pending[0].kind);
  }

  lemma HandlingMarks(s: State, kind: int)
    requires kind != MSG_TIMEOUT
    ensures Handling(s, kind).connected <==> kind == MSG_RECEIVED_HEART_BEAT || s.connected
  {
    hide StartCsi, StopCsi, StartConstellation, StopConstellation, LinkStep, Started, Stopped;
  }

  lemma LastRequest(s: State, f: Frame)
    requires Enabled(s, FrameArrived(f)) && f.kind in {1, 2, 4, 5, 7, 8, 22, 99}
    ensures var q, r := Next(s, FrameArrived(f)).queue.pending, Requested(f);
            r.Some? && r.value.kind != MSG_TIMEOUT && (f.kind in {1, 2} ==> r.value.body == f.body)
            && r.value.kind == (match f.kind
                                case 1 => MSG_INQUIRY_STATE
                                case 2 => MSG_RSSI_STATE_CHANGE
                                case 4 => MSG_START_CONSTELLATION
                                case 5 => MSG_STOP_CONSTELLATION
                                case 7 => MSG_START_CSI
                                case 8 => MSG_STOP_CSI
                                case 22 => MSG_RF_MF_STATE
                                case _ => MSG_RECEIVED_HEART_BEAT)
            && q == s.queue.pending + [Message(r.value.kind, s.queue.seqId, r.value.body)]
  {
  }

  /** In every run: commands arrive once and in order, and what sendToPc put on a socket
      since the last MSG_ACCEPT_NEW_CLIENT is recovered. */
  lemma SessionDelivers(dmaOpens: bool, events: seq<SessionEvent>, s: State)
    requires Reached(dmaOpens, events) == Some(s)
    ensures Commands(s.queue.taken) <= CommandsIn(s.arrived)
    ensures s.queue.pending == [] ==> Commands(s.queue.taken) == CommandsIn(s.arrived)
    ensures Numbered(s.queue.taken)
    ensures Split(s.link.period.wire).frames == s.link.period.complete
  {
    hide Reached, DmaKept, TimerKept, ClientKept, PeriodKept, Commands, CommandsIn, Split;
    AlwaysKept(dmaOpens, events);
    KeptIsRecovered(s.link);
    CommandsOfPrefix(s.queue.taken, s.queue.pending);
    assert s.queue.pending == [] ==> Ever(s.queue) == s.queue.taken;
    assert forall i :: 0 <= i < |s.queue.taken| ==> s.queue.taken[i] == Ever(s.queue)[i];
  }
}
