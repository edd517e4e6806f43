/** What the sockets carry in the runs of the whole session. */
module Sockets {
  import opened Bytes
  import opened Framing
  import opened Messages
  import opened Sending
  import opened Session
  import opened ClientLoss

  /** What a step of the session does to the socket. */
  function LinkEventsOf(s: State, e: SessionEvent): (r: seq<LinkEvent>)
    requires Enabled(s, e)
    ensures AllPossible(r) && |r| <= 1
  {
    match e
    case ClientAccepted => []
    case ClientAnnounced => [Accept]
    case FrameArrived(_) => []
    case TimerFired => []
    case BlockDelivered(samples, taken) =>
      if PassesOn(s.dma) then [Send(Frame(Tag(s.dma), samples), taken)] else []
    case BrokerSends(reply, taken) => [Send(reply, taken)]
    case MessageHandled =>
      if s.queue.pending[0].kind == MSG_ACCEPT_NEW_CLIENT then [HandleAccept]
      else if AboutToGiveUp(s) then [Teardown]
      else []
  }

  function Trace(dmaOpens: bool, events: seq<SessionEvent>): (r: seq<LinkEvent>)
    ensures AllPossible(r)
  {
    if events == [] then []
    else
      var before, e := Reached(dmaOpens, events[..|events| - 1]), events[|events| - 1];
      var trace := Trace(dmaOpens, events[..|events| - 1]);
      if before.Some? && Enabled(before.value, e) then trace + LinkEventsOf(before.value, e) else trace
  }

  lemma LinkOfStep(s: State, e: SessionEvent)
    requires Enabled(s, e)
    ensures Next(s, e).link
         == if LinkEventsOf(s, e) == [] then s.link else LinkStep(s.link, LinkEventsOf(s, e)[0])
  {
    hide Possible, AfterSend, Posted, Processed, Taken, StartCsi, StopCsi, StartConstellation, StopConstellation,
      Delivered;
  }

  /** The session's sockets are those of the sending machine. */
  lemma {:induction false} LinkOfRun(dmaOpens: bool, events: seq<SessionEvent>, s: State)
    requires Reached(dmaOpens, events) == Some(s)
    ensures s.link == LinkRun(Trace(dmaOpens, events))
    decreases |events|
  {
    hide Enabled, Next, LinkStep, LinkEventsOf, Possible;
    if events != [] {
      var before, e := events[..|events| - 1], events[|events| - 1];
      var r := Reached(dmaOpens, before).value;
      LinkOfRun(dmaOpens, before, r);
      LinkOfStep(r, e);
      var more := LinkEventsOf(r, e);
      if more != [] {
        assert more == [more[0]];
        RunOn(Trace(dmaOpens, before), more[0]);
      } else {
        assert Trace(dmaOpens, before) + more == Trace(dmaOpens, before);
      }
    }
  }

  /** In every run of the session: the receiver of the current socket gets every frame that
      may be sent from now on if and only if no send since its accept has taken a part of a
      frame; and it has all frames sent so far unless sending went on behind such a send. */
  lemma SocketInSession(dmaOpens: bool, events: seq<SessionEvent>, s: State)
    requires Reached(dmaOpens, events) == Some(s) && s.link.line.Some?
    ensures Recoverable(s.link.line.value) <==> !PartTaken(Trace(dmaOpens, events))
    ensures !Resumed(Trace(dmaOpens, events)) ==>
              Split(s.link.line.value.wire).frames == s.link.line.value.complete
  {
    hide Trace, Reached, LinkRun, PartTaken, Resumed, Recoverable, Split, LineKept;
    LinkOfRun(dmaOpens, events, s);
    RecoverableIffNoPartTaken(Trace(dmaOpens, events));
    SocketsAreRecovered(Trace(dmaOpens, events));
  }

  /** In every run of the session, by what has happened to its sockets: there is a client, and
      the way is open, if and only if the history says so; and what went out whole, on the
      current socket and since the accept message, are the frames that were sent meanwhile. */
  lemma HistoryTellsInSession(dmaOpens: bool, events: seq<SessionEvent>, s: State)
    requires Reached(dmaOpens, events) == Some(s)
    ensures var trace := Trace(dmaOpens, events);
            (s.link.line.Some? <==> HasClient(trace)) && (s.link.sendEnable <==> Open(trace))
            && s.link.period.complete == SentSince(trace, HandleAccept)
            && (s.link.line.Some? ==> s.link.line.value.complete == SentSince(trace, Accept))
  {
    hide Trace, Reached, HasClient, Open, SentSince;
    LinkOfRun(dmaOpens, events, s);
    HistoryTells(Trace(dmaOpens, events));
  }

  /** Every 51st block of samples is sent to the client, behind the tag of the channel it comes
      from, and a reply of the broker at once; with a client, the way open and a send that takes
      all of it, the frame arrives next. The other blocks change nothing on the socket. */
  lemma FramesGoOut(dmaOpens: bool, events: seq<SessionEvent>, s: State, e: SessionEvent)
    requires Reached(dmaOpens, events) == Some(s) && Enabled(s, e) && (e.BlockDelivered? || e.BrokerSends?)
    ensures var trace := Trace(dmaOpens, events);
            var sent := if e.BlockDelivered? then Frame(Tag(s.dma), e.samples) else e.reply;
            var due := e.BlockDelivered? ==> (s.dma.blocks + 1) % 51 == 0;
            (due && e.taken == |sent.body| + 8 && HasClient(trace) && Open(trace) ==>
               var t := Next(s, e);
               t.link.sendEnable && s.link.line.Some? && t.link.line.Some?
               && t.link.line.value.complete == s.link.line.value.complete + [sent]
               && t.link.period.complete == s.link.period.complete + [sent])
            && (!due ==> Next(s, e).link == s.link)
  {
    hide Trace, Reached, HasClient, Open, SentSince, LinkRun, Encode, TimerKept, ClientKept, QueueKept, PeriodKept;
    AlwaysKept(dmaOpens, events);
    LinkOfRun(dmaOpens, events, s);
    var sent := if e.BlockDelivered? then Frame(Tag(s.dma), e.samples) else e.reply;
    EncodedLength(sent);
    NextFrameGoesOut(Trace(dmaOpens, events), sent);
    BlocksInTurn(s.dma);
  }

  lemma BlocksInTurn(d: Dma)
    requires DmaKept(d)
    ensures PassesOn(d) <==> (d.blocks + 1) % 51 == 0
  {
  }

  // Runs of the session that lose frames.

  /** One more step of a run. */
  lemma OneOn(past: seq<SessionEvent>, s: State, e: SessionEvent) returns (events: seq<SessionEvent>, t: State)
    requires Reached(true, past) == Some(s) && Enabled(s, e)
    ensures events == past + [e] && t == Next(s, e) && Reached(true, events) == Some(t)
  {
    hide Enabled, Next, RunFrom;
    ReachOn(past, s, e);
    events, t := past + [e], Next(s, e);
  }

  const SHORT_FRAME := Frame(0, [])

  /** What a first byte of a frame and then all of it come to. */
  lemma CutThenWhole(line: Line)
    requires line.wire == [] + Encode(SHORT_FRAME)[..1] + Encode(SHORT_FRAME) && line.complete == [SHORT_FRAME]
    ensures Split(line.wire).frames != line.complete
  {
    hide Split, Encode;
    FirstOfEncoding(SHORT_FRAME);
    NothingFound(line.wire);
  }

  lemma SendsFirstByte(s: State)
    requires Sends(s.link) && s.link.line.value == Line([], [])
    ensures Enabled(s, BrokerSends(SHORT_FRAME, 1))
    ensures Next(s, BrokerSends(SHORT_FRAME, 1)).link
         == s.link.(sendEnable := false, line := Some(Line([] + Encode(SHORT_FRAME)[..1], [])),
                    period := Put(s.link.period, SHORT_FRAME, 1))
    ensures Next(s, BrokerSends(SHORT_FRAME, 1)) == s.(link := Next(s, BrokerSends(SHORT_FRAME, 1)).link)
  {
    hide Encode;
    FirstOfEncoding(SHORT_FRAME);
  }

  lemma SendsWholeFrame(s: State)
    requires Sends(s.link) && s.link.line.value == Line([] + Encode(SHORT_FRAME)[..1], [])
    ensures Enabled(s, BrokerSends(SHORT_FRAME, 8))
    ensures var line := Next(s, BrokerSends(SHORT_FRAME, 8)).link.line;
            line.Some? && Split(line.value.wire).frames != line.value.complete
    ensures Next(s, BrokerSends(SHORT_FRAME, 8)).queue == s.queue
  {
    hide Encode, Split;
    FirstOfEncoding(SHORT_FRAME);
    CutThenWhole(Next(s, BrokerSends(SHORT_FRAME, 8)).link.line.value);
  }

  /** Sending was still enabled when the second client was announced, a send to it falls
      short, and its own accept message enables sending again. */
  lemma OwnMessageResumes() returns (events: seq<SessionEvent>, s: State)
    ensures Reached(true, events) == Some(s) && s.link.line.Some?
    ensures Split(s.link.line.value.wire).frames != s.link.line.value.complete
    ensures s.queue.pending == []
  {
    hide RunFrom, Reached, Encode, Split;
    events, s := FirstTimeout();
    events, s := OneOn(events, s, MessageHandled);
    events, s := OneOn(events, s, ClientAccepted);
    events, s := OneOn(events, s, ClientAnnounced);
    SendsFirstByte(s);
    events, s := OneOn(events, s, BrokerSends(SHORT_FRAME, 1));
    events, s := OneOn(events, s, MessageHandled);
    events, s := OneOn(events, s, MessageHandled);
    SendsWholeFrame(s);
    events, s := OneOn(events, s, BrokerSends(SHORT_FRAME, 8));
  }

  /** The third client: a send to it falls short, and the accept message of the second one,
      long gone, enables sending again. Its own accept message is still waiting. */
  lemma EarlierMessageResumes() returns (events: seq<SessionEvent>, s: State)
    ensures Reached(true, events) == Some(s) && s.link.line.Some?
    ensures Split(s.link.line.value.wire).frames != s.link.line.value.complete
    ensures |s.queue.pending| == 2 && s.queue.pending[1].kind == MSG_ACCEPT_NEW_CLIENT
  {
    hide RunFrom, Reached, Encode, Split;
    var before;
    events, before, s := StaleTimeout();
    events := events + [MessageHandled];
    events, s := OneOn(events, s, ClientAccepted);
    events, s := OneOn(events, s, ClientAnnounced);
    SendsFirstByte(s);
    events, s := OneOn(events, s, BrokerSends(SHORT_FRAME, 1));
    events, s := OneOn(events, s, MessageHandled);
    events, s := OneOn(events, s, MessageHandled);
    SendsWholeFrame(s);
    events, s := OneOn(events, s, BrokerSends(SHORT_FRAME, 8));
  }
}
