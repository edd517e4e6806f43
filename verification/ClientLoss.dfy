/** When a client is given up, and when a heart beat meets no client: for every way in
    which the threads can take turns. */
module ClientLoss {
  import opened Bytes
  import opened Framing
  import opened Messages
  import opened Sending
  import opened Session

  /** How many messages the event loop handles. */
  function Turns(events: seq<SessionEvent>): nat {
    if events == [] then 0
    else Turns(events[..|events| - 1]) + if events[|events| - 1].MessageHandled? then 1 else 0
  }

  predicate NoNewClient(events: seq<SessionEvent>) {
    forall i :: 0 <= i < |events| ==> !events[i].ClientAccepted?
  }

  predicate Unannounced(events: seq<SessionEvent>) {
    forall i :: 0 <= i < |events| ==> !events[i].ClientAnnounced?
  }

  /** A client's fate: None once it is gone, else whether it has been heard of. */
  function Fate(s: State): Option<bool> {
    if s.link.line.Some? then Some(s.connected) else None
  }

  function FateAfter(fate: Option<bool>, kind: int): Option<bool> {
    if fate.None? then None
    else if kind == MSG_RECEIVED_HEART_BEAT then Some(true)
    else if kind == MSG_TIMEOUT then if fate.value then Some(false) else None
    else fate
  }

  function FateAfterAll(fate: Option<bool>, messages: seq<Message>): Option<bool> {
    if messages == [] then fate
    else FateAfter(FateAfterAll(fate, messages[..|messages| - 1]), messages[|messages| - 1].kind)
  }

  /** Every step but an announcement keeps what is in the queue in its order; only the event
      loop takes from it, and only what it takes decides the client's fate. */
  lemma StepAndFate(s: State, e: SessionEvent)
    requires ClientKept(s) && Enabled(s, e) && !e.ClientAnnounced?
    ensures e.MessageHandled? ==>
              s.queue.pending[1..] <= Next(s, e).queue.pending
              && Fate(Next(s, e)) == FateAfter(Fate(s), s.queue.pending[0].kind)
    ensures !e.MessageHandled? ==>
              s.queue.pending <= Next(s, e).queue.pending && Fate(Next(s, e)) == Fate(s)
  {
    hide Possible, AfterSend, AfterMarks, Requested, StartCsi, StopCsi, StartConstellation, StopConstellation,
      Delivered;
    match e
    case BlockDelivered(samples, taken) =>
      SendLeavesClient(s.link, Frame(Tag(s.dma), samples), taken);
    case BrokerSends(reply, taken) =>
      SendLeavesClient(s.link, reply, taken);
    case _ =>
  }

  /** The messages that were waiting at first are handled first, in their order, and they
      alone decide what becomes of the client meanwhile. */
  lemma {:induction false} RunAndFate(s: State, events: seq<SessionEvent>, first: seq<Message>)
    requires Kept(s) && Unannounced(events) && RunFrom(s, events).Some?
    requires first <= s.queue.pending && Turns(events) <= |first|
    ensures var u, k := RunFrom(s, events).value, Turns(events);
            first[k..] <= u.queue.pending && Fate(u) == FateAfterAll(Fate(s), first[..k])
    decreases |events|
  {
    hide Kept, Enabled, Next, Fate, FateAfter;
    if events == [] {
      assert first[0..] == first && first[..0] == [];
    } else {
      var before, e := events[..|events| - 1], events[|events| - 1];
      assert !events[|events| - 1].ClientAnnounced?;
      RunKeeps(s, before);
      RunAndFate(s, before, first);
      var t := RunFrom(s, before).value;
      var k := Turns(before);
      KeptClient(t);
      StepAndFate(t, e);
      if e.MessageHandled? {
        OneTurn(first, k, t.queue.pending);
      } else {
        Prefixes(first[k..], t.queue.pending, Next(t, e).queue.pending);
      }
    }
  }

  lemma KeptClient(s: State)
    requires Kept(s)
    ensures ClientKept(s)
  {
  }

  lemma Prefixes(a: seq<Message>, b: seq<Message>, c: seq<Message>)
    requires a <= b <= c
    ensures a <= c
  {
  }

  lemma OneTurn(first: seq<Message>, k: nat, pending: seq<Message>)
    requires k < |first| && first[k..] <= pending
    ensures pending != [] && pending[0] == first[k] && first[k + 1..] <= pending[1..]
    ensures first[..k + 1][..k] == first[..k] && first[..k + 1][k] == first[k]
  {
    assert first[k..][0] == first[k] && first[k..][1..] == first[k + 1..];
  }

  // A client that is announced while messages are waiting.

  /** Place `j` holds a heart beat, and no time-out stands between it and place `i`. */
  predicate Since(messages: seq<Message>, j: int, i: int) {
    0 <= j < i <= |messages| && messages[j].kind == MSG_RECEIVED_HEART_BEAT
    && forall k :: j < k < i ==> messages[k].kind != MSG_TIMEOUT
  }

  predicate HeardOf(messages: seq<Message>, i: int) {
    exists j :: 0 <= j < i && Since(messages, j, i)
  }

  /** Every time-out comes behind a heart beat of its own. */
  predicate EachTimeoutAnswered(messages: seq<Message>) {
    forall i :: 0 <= i < |messages| && messages[i].kind == MSG_TIMEOUT ==> HeardOf(messages, i)
  }

  lemma SinceBefore(messages: seq<Message>, i: nat)
    requires messages != [] && i < |messages|
    ensures HeardOf(messages, i) <==> HeardOf(messages[..|messages| - 1], i)
  {
    var before := messages[..|messages| - 1];
    forall j | 0 <= j < i
      ensures Since(messages, j, i) <==> Since(before, j, i)
    {
    }
  }

  lemma AnsweredOneMore(messages: seq<Message>)
    requires messages != []
    ensures var before, n := messages[..|messages| - 1], |messages| - 1;
            EachTimeoutAnswered(messages)
            <==> EachTimeoutAnswered(before) && (messages[n].kind == MSG_TIMEOUT ==> HeardOf(before, n))
  {
    hide HeardOf;
    var before, n := messages[..|messages| - 1], |messages| - 1;
    forall i | 0 <= i < |messages|
      ensures HeardOf(messages, i) <==> HeardOf(before, i)
    {
      SinceBefore(messages, i);
    }
    assert forall i :: 0 <= i < n ==> messages[i] == before[i];
  }

  lemma HeardOneMore(messages: seq<Message>)
    requires messages != []
    ensures var before, n := messages[..|messages| - 1], |messages| - 1;
            HeardOf(messages, |messages|)
            <==> messages[n].kind == MSG_RECEIVED_HEART_BEAT
                 || (messages[n].kind != MSG_TIMEOUT && HeardOf(before, n))
  {
    var before, n := messages[..|messages| - 1], |messages| - 1;
    forall j | 0 <= j < n
      ensures Since(messages, j, |messages|) <==> messages[n].kind != MSG_TIMEOUT && Since(before, j, n)
    {
    }
    assert Since(messages, n, |messages|) <==> messages[n].kind == MSG_RECEIVED_HEART_BEAT;
  }

  /** A client not yet heard of outlives these messages if and only if each time-out among
      them comes behind a heart beat of its own. */
  lemma {:induction false} FateByHeartBeats(messages: seq<Message>)
    ensures FateAfterAll(Some(false), messages).Some? <==> EachTimeoutAnswered(messages)
    ensures FateAfterAll(Some(false), messages) == Some(true)
       <==> EachTimeoutAnswered(messages) && HeardOf(messages, |messages|)
    decreases |messages|
  {
    hide HeardOf, EachTimeoutAnswered;
    if messages == [] {
      NothingHeard();
    } else {
      FateByHeartBeats(messages[..|messages| - 1]);
      AnsweredOneMore(messages);
      HeardOneMore(messages);
    }
  }

  lemma NothingHeard()
    ensures EachTimeoutAnswered([]) && !HeardOf([], 0)
  {
  }

  /** The exact condition under which a new client outlives the messages that were waiting
      when it was announced, for all turns of the threads up to its own accept message. */
  lemma NewClientSurvives(dmaOpens: bool, past: seq<SessionEvent>, s: State, events: seq<SessionEvent>)
    requires Reached(dmaOpens, past) == Some(s) && Enabled(s, ClientAnnounced)
    requires Unannounced(events) && Turns(events) <= |s.queue.pending|
    requires RunFrom(Next(s, ClientAnnounced), events).Some?
    ensures var u, waiting := RunFrom(Next(s, ClientAnnounced), events).value, s.queue.pending[..Turns(events)];
            (u.link.line.Some? <==> EachTimeoutAnswered(waiting))
            && (Absent(MSG_RECEIVED_HEART_BEAT, waiting) ==>
                  (u.link.line.Some? <==> Absent(MSG_TIMEOUT, waiting)))
            && (Turns(events) == |s.queue.pending| ==>
                  u.queue.pending != [] && u.queue.pending[0].kind == MSG_ACCEPT_NEW_CLIENT)
  {
    hide RunFrom, Kept, FateAfterAll, Turns, Reached, Absent, EachTimeoutAnswered;
    AlwaysKept(dmaOpens, past);
    StepKeepsAll(s, ClientAnnounced);
    var t, k := Next(s, ClientAnnounced), Turns(events);
    var first := s.queue.pending + [Message(MSG_ACCEPT_NEW_CLIENT, s.queue.seqId, [])];
    assert t.queue.pending == first;
    RunAndFate(t, events, first);
    assert first[..k] == s.queue.pending[..k];
    FateByHeartBeats(first[..k]);
    if Absent(MSG_RECEIVED_HEART_BEAT, first[..k]) {
      QuietFate(first[..k]);
    }
    if k == |s.queue.pending| {
      assert first[k..][0] == first[k];
    }
  }

  lemma {:induction false} QuietFate(messages: seq<Message>)
    requires Absent(MSG_RECEIVED_HEART_BEAT, messages)
    ensures FateAfterAll(Some(false), messages) == if Absent(MSG_TIMEOUT, messages) then Some(false) else None
    decreases |messages|
  {
    if messages != [] {
      QuietFate(messages[..|messages| - 1]);
    }
  }

  // A heart beat that is waiting when its client is given up.

  predicate AboutToGiveUp(s: State) {
    s.queue.pending != [] && s.queue.pending[0].kind == MSG_TIMEOUT && GivesUp(s)
  }

  /** The run from `s` comes to a heart beat without a client. */
  predicate Strands(s: State, events: seq<SessionEvent>) {
    RunFrom(s, events).Some? && Crashes(RunFrom(s, events).value)
  }

  /** The exact condition for that: some run after a client is given up, before another one
      comes, meets a heart beat without a client if and only if one was waiting when the
      client was given up. */
  lemma GivingUpStrandsHeartBeats(dmaOpens: bool, past: seq<SessionEvent>, s: State)
    requires Reached(dmaOpens, past) == Some(s) && AboutToGiveUp(s)
    ensures Enabled(s, MessageHandled)
    ensures (exists events :: NoNewClient(events) && Strands(Next(s, MessageHandled), events))
       <==> !Absent(MSG_RECEIVED_HEART_BEAT, s.queue.pending)
  {
    hide RunFrom, Kept, Reached, Strands, NoNewClient;
    AlwaysKept(dmaOpens, past);
    LineThere(s);
    StepKeepsAll(s, MessageHandled);
    var t := Next(s, MessageHandled);
    GivenUp(s);
    if Absent(MSG_RECEIVED_HEART_BEAT, s.queue.pending) {
      forall events | NoNewClient(events)
        ensures !Strands(t, events)
      {
        NothingStranded(t, events);
      }
    } else {
      var j := FirstHeartBeat(t.queue.pending);
      OfflineIsAlone(t);
      StrandedAlone(t, j);
      OnlyHandlings(j);
    }
  }

  lemma OnlyHandlings(k: nat)
    ensures NoNewClient(Handlings(k)) && Unannounced(Handlings(k))
  {
  }

  lemma LineThere(s: State)
    requires Kept(s) && AboutToGiveUp(s)
    ensures s.link.line.Some? && !s.joining && Enabled(s, MessageHandled)
  {
    hide DmaKept, TimerKept, QueueKept, PeriodKept, AfterMarks;
  }

  lemma GivenUp(s: State)
    requires AboutToGiveUp(s) && Enabled(s, MessageHandled) && !s.joining
    ensures var t := Next(s, MessageHandled);
            Offline(t)
            && (Absent(MSG_RECEIVED_HEART_BEAT, t.queue.pending)
                <==> Absent(MSG_RECEIVED_HEART_BEAT, s.queue.pending))
  {
    hide StartCsi, StopCsi, StartConstellation, StopConstellation;
    var p, q := s.queue.pending, Next(s, MessageHandled).queue.pending;
    assert q == p[1..] + [Message(MSG_RECEIVE_THREAD_CLOSED, s.queue.seqId, [])];
    if !Absent(MSG_RECEIVED_HEART_BEAT, p) {
      var i :| 0 <= i < |p| && p[i].kind == MSG_RECEIVED_HEART_BEAT;
      assert q[i - 1].kind == MSG_RECEIVED_HEART_BEAT;
    }
  }

  /** No client, and none on its way. */
  predicate Offline(s: State) {
    s.link.line.None? && s.link.waiting == STATE_DISCONNECTED && !s.joining
  }

  /** Without a client no heart beat is posted. */
  lemma OfflineStep(s: State, e: SessionEvent)
    requires Enabled(s, e) && !e.ClientAccepted? && Offline(s)
    requires Absent(MSG_RECEIVED_HEART_BEAT, s.queue.pending)
    ensures Offline(Next(s, e)) && Absent(MSG_RECEIVED_HEART_BEAT, Next(s, e).queue.pending)
  {
    hide Possible, StartCsi, StopCsi, StartConstellation, StopConstellation, Delivered;
  }

  lemma {:induction false} OfflineRun(s: State, events: seq<SessionEvent>)
    requires Offline(s) && NoNewClient(events) && RunFrom(s, events).Some?
    requires Absent(MSG_RECEIVED_HEART_BEAT, s.queue.pending)
    ensures Absent(MSG_RECEIVED_HEART_BEAT, RunFrom(s, events).value.queue.pending)
    ensures Offline(RunFrom(s, events).value)
    decreases |events|
  {
    hide Enabled, Next, Offline, Absent;
    if events != [] {
      var before := events[..|events| - 1];
      assert !events[|events| - 1].ClientAccepted?;
      OfflineRun(s, before);
      OfflineStep(RunFrom(s, before).value, events[|events| - 1]);
    }
  }

  lemma NothingStranded(s: State, events: seq<SessionEvent>)
    requires Offline(s) && Absent(MSG_RECEIVED_HEART_BEAT, s.queue.pending) && NoNewClient(events)
    ensures !Strands(s, events)
  {
    hide RunFrom;
    if RunFrom(s, events).Some? {
      OfflineRun(s, events);
    }
  }

  function FirstHeartBeat(messages: seq<Message>): (j: nat)
    requires !Absent(MSG_RECEIVED_HEART_BEAT, messages)
    ensures j < |messages| && messages[j].kind == MSG_RECEIVED_HEART_BEAT
    ensures Absent(MSG_RECEIVED_HEART_BEAT, messages[..j])
  {
    if messages[0].kind == MSG_RECEIVED_HEART_BEAT then 0
    else
      var i :| 0 <= i < |messages| && messages[i].kind == MSG_RECEIVED_HEART_BEAT;
      assert messages[1..][i - 1].kind == MSG_RECEIVED_HEART_BEAT;
      var j := FirstHeartBeat(messages[1..]);
      assert forall k :: 1 <= k < j + 1 ==> messages[k] == messages[1..][..j][k - 1];
      1 + j
  }

  // The event loop alone, while there is no client.

  /** The event loop handles `k` messages. */
  function Handlings(k: nat): (events: seq<SessionEvent>)
    ensures |events| == k && forall i :: 0 <= i < k ==> events[i] == MessageHandled
  {
    if k == 0 then [] else Handlings(k - 1) + [MessageHandled]
  }

  /** No client has been announced, and no time-out can give one up. */
  predicate Alone(s: State) {
    s.link.line.None? && (s.link.waiting == STATE_DISCONNECTED || Absent(MSG_TIMEOUT, s.queue.pending))
  }

  lemma OfflineIsAlone(s: State)
    requires Offline(s)
    ensures Alone(s)
  {
  }

  lemma KeptIsAlone(s: State)
    requires Kept(s) && s.link.line.None?
    ensures Alone(s)
  {
    hide DmaKept, TimerKept, QueueKept, PeriodKept, AfterMarks;
  }

  lemma {:induction false} Drained(s: State, k: nat)
    requires Alone(s) && k <= |s.queue.pending|
    requires Absent(MSG_RECEIVED_HEART_BEAT, s.queue.pending[..k])
    ensures RunFrom(s, Handlings(k)).Some?
    ensures var u := RunFrom(s, Handlings(k)).value;
            Alone(u) && u.queue.pending == s.queue.pending[k..]
    decreases k
  {
    hide *;
    var p := s.queue.pending;
    if k == 0 {
      NothingDone(s);
      assert p[0..] == p;
    } else {
      NoneAmong(p, k);
      Drained(s, k - 1);
      AloneTurn(RunFrom(s, Handlings(k - 1)).value);
      OneHandlingMore(s, k - 1);
    }
  }

  lemma NothingDone(s: State)
    ensures RunFrom(s, Handlings(0)) == Some(s)
  {
  }

  lemma NoneAmong(messages: seq<Message>, k: nat)
    requires 0 < k <= |messages| && Absent(MSG_RECEIVED_HEART_BEAT, messages[..k])
    ensures Absent(MSG_RECEIVED_HEART_BEAT, messages[..k - 1])
    ensures messages[k - 1..] != [] && messages[k - 1..][0].kind != MSG_RECEIVED_HEART_BEAT
    ensures messages[k - 1..][1..] == messages[k..]
  {
    assert messages[k - 1..][0] == messages[..k][k - 1];
    assert forall i :: 0 <= i < k - 1 ==> messages[..k - 1][i] == messages[..k][i];
  }

  lemma AloneTurn(s: State)
    requires Alone(s) && s.queue.pending != [] && s.queue.pending[0].kind != MSG_RECEIVED_HEART_BEAT
    ensures Enabled(s, MessageHandled) && Alone(Next(s, MessageHandled))
    ensures Next(s, MessageHandled).queue.pending == s.queue.pending[1..]
  {
    hide StartCsi, StopCsi, StartConstellation, StopConstellation;
  }

  lemma StrandedAlone(s: State, j: nat)
    requires Alone(s) && j < |s.queue.pending| && s.queue.pending[j].kind == MSG_RECEIVED_HEART_BEAT
    requires Absent(MSG_RECEIVED_HEART_BEAT, s.queue.pending[..j])
    ensures Strands(s, Handlings(j))
  {
    hide RunFrom;
    Drained(s, j);
  }

  /** The event loop alone comes to a heart beat without a client. */
  ghost predicate StrandsAlone(s: State) {
    exists k :: Strands(s, Handlings(k))
  }

  /** Without a client that is so if and only if a heart beat is waiting. */
  lemma AloneStrands(s: State)
    requires Alone(s)
    ensures StrandsAlone(s) <==> !Absent(MSG_RECEIVED_HEART_BEAT, s.queue.pending)
  {
    hide Strands, RunFrom, Absent, Alone;
    if Absent(MSG_RECEIVED_HEART_BEAT, s.queue.pending) {
      forall k: nat
        ensures !Strands(s, Handlings(k))
      {
        NeverStranded(s, k);
      }
    } else {
      StrandedAlone(s, FirstHeartBeat(s.queue.pending));
    }
  }

  lemma NeverStranded(s: State, k: nat)
    requires Alone(s) && Absent(MSG_RECEIVED_HEART_BEAT, s.queue.pending)
    ensures !Strands(s, Handlings(k))
  {
    hide RunFrom, Alone, Next, Enabled;
    var n := |s.queue.pending|;
    if k <= n {
      assert forall i :: 0 <= i < k ==> s.queue.pending[..k][i] == s.queue.pending[i];
      Drained(s, k);
      NoneBehind(s.queue.pending, k);
    } else {
      assert s.queue.pending[..n] == s.queue.pending;
      Drained(s, n);
      StopsWhenEmpty(s, n, k);
    }
  }

  lemma NoneBehind(messages: seq<Message>, k: nat)
    requires Absent(MSG_RECEIVED_HEART_BEAT, messages) && k <= |messages|
    ensures messages[k..] != [] ==> messages[k..][0].kind != MSG_RECEIVED_HEART_BEAT
  {
  }

  /** The event loop waits once the queue is empty. */
  lemma {:induction false} StopsWhenEmpty(s: State, n: nat, k: nat)
    requires n < k && RunFrom(s, Handlings(n)).Some? && RunFrom(s, Handlings(n)).value.queue.pending == []
    ensures RunFrom(s, Handlings(k)).None?
    decreases k
  {
    hide *;
    OneHandlingMore(s, k - 1);
    if n < k - 1 {
      StopsWhenEmpty(s, n, k - 1);
    } else {
      NothingToHandle(RunFrom(s, Handlings(n)).value);
    }
  }

  lemma NothingToHandle(s: State)
    ensures s.queue.pending == [] ==> !Enabled(s, MessageHandled)
  {
  }

  lemma OneHandlingMore(s: State, k: nat)
    ensures var before, after := RunFrom(s, Handlings(k)), RunFrom(s, Handlings(k + 1));
            if before.Some? && Enabled(before.value, MessageHandled)
            then after == Some(Next(before.value, MessageHandled)) else after.None?
  {
    hide Enabled, Next, Handlings;
    HandlingsAre(k);
    assert Handlings(k + 1)[..k] == Handlings(k);
  }

  lemma HandlingsAre(k: nat)
    ensures |Handlings(k + 1)| == k + 1 && Handlings(k + 1) == Handlings(k) + [MessageHandled]
    ensures Handlings(0) == []
  {
  }

  // A client whose receive thread runs before it is announced.

  lemma {:induction false} RunInTwo(s: State, a: seq<SessionEvent>, b: seq<SessionEvent>)
    requires RunFrom(s, a).Some?
    ensures RunFrom(s, a + b) == RunFrom(RunFrom(s, a).value, b)
    decreases |b|
  {
    hide Enabled, Next;
    if b == [] {
      assert a + b == a;
    } else {
      assert (a + b)[..|a + b| - 1] == a + b[..|b| - 1];
      RunInTwo(s, a, b[..|b| - 1]);
    }
  }

  lemma OneStep(s: State, e: SessionEvent)
    requires Enabled(s, e)
    ensures RunFrom(s, [e]) == Some(Next(s, e))
  {
    hide Enabled, Next;
    assert [e][..0] == [];
  }

  /** No state without a client is safe: its next client can send a heart beat that is handled
      before the client is announced. */
  lemma EveryClientCanBeEarly(dmaOpens: bool, past: seq<SessionEvent>, s: State)
    requires Reached(dmaOpens, past) == Some(s) && s.link.line.None?
    ensures exists events :: Unannounced(events) && Strands(s, events)
  {
    hide RunFrom, Kept, Reached, Strands, Alone, Unannounced, Absent;
    AlwaysKept(dmaOpens, past);
    KeptIsAlone(s);
    if !Absent(MSG_RECEIVED_HEART_BEAT, s.queue.pending) {
      var j := FirstHeartBeat(s.queue.pending);
      StrandedAlone(s, j);
      OnlyHandlings(j);
    } else if s.joining {
      var events := EarlyFrom(s);
    } else {
      Joined(s);
      var t := Next(s, ClientAccepted);
      var events := EarlyFrom(t);
      OneStep(s, ClientAccepted);
      OneMoreAtFirst(s, ClientAccepted, t, events);
    }
  }

  lemma Joined(s: State)
    requires Alone(s) && !s.joining
    ensures Enabled(s, ClientAccepted)
    ensures var t := Next(s, ClientAccepted);
            t.joining && Alone(t) && t.queue == s.queue
  {
  }

  lemma OneMoreAtFirst(s: State, e: SessionEvent, t: State, events: seq<SessionEvent>)
    requires RunFrom(s, [e]) == Some(t) && !e.ClientAnnounced? && Unannounced(events) && Strands(t, events)
    ensures Unannounced([e] + events) && Strands(s, [e] + events)
  {
    hide RunFrom;
    RunInTwo(s, [e], events);
  }

  const HEART_BEAT := Frame(99, [])

  /** A heart beat of a client that is not announced yet is handled next but what waits. */
  lemma EarlyFrom(s: State) returns (events: seq<SessionEvent>)
    requires Alone(s) && s.joining && Absent(MSG_RECEIVED_HEART_BEAT, s.queue.pending)
    ensures Unannounced(events) && Strands(s, events)
  {
    hide RunFrom, Strands, Unannounced, Alone, Absent;
    var e, k := FrameArrived(HEART_BEAT), |s.queue.pending|;
    HeartBeatComes(s);
    var t := Next(s, e);
    assert t.queue.pending[..k] == s.queue.pending;
    OneStep(s, e);
    StrandedAlone(t, k);
    OnlyHandlings(k);
    OneMoreAtFirst(s, e, t, Handlings(k));
    events := [e] + Handlings(k);
  }

  lemma HeartBeatComes(s: State)
    requires Alone(s) && s.joining
    ensures Enabled(s, FrameArrived(HEART_BEAT))
    ensures var t := Next(s, FrameArrived(HEART_BEAT));
            Alone(t) && t.queue.pending
                        == s.queue.pending + [Message(MSG_RECEIVED_HEART_BEAT, s.queue.seqId, [])]
  {
  }

  // Runs in which every heart beat finds a client.

  /** No heart beat is waiting when a client is given up, and none comes from a client that
      is not announced yet. */
  predicate Tidy(dmaOpens: bool, events: seq<SessionEvent>) {
    events == []
    || (Tidy(dmaOpens, events[..|events| - 1])
        && TidyStep(Reached(dmaOpens, events[..|events| - 1]), events[|events| - 1]))
  }

  predicate TidyStep(r: Option<State>, e: SessionEvent) {
    r.Some? ==>
      (e.MessageHandled? && AboutToGiveUp(r.value) ==> Absent(MSG_RECEIVED_HEART_BEAT, r.value.queue.pending))
      && (e.FrameArrived? && r.value.joining ==> e.frame.kind != 99)
  }

  /** As long as there is no client, the event loop alone comes to no heart beat. */
  ghost predicate AtEase(r: Option<State>) {
    r.Some? && r.value.link.line.None? ==> !StrandsAlone(r.value)
  }

  ghost predicate AlwaysAtEase(dmaOpens: bool, events: seq<SessionEvent>) {
    forall n :: 0 <= n <= |events| ==> AtEase(Reached(dmaOpens, events[..n]))
  }

  predicate Quiet(s: State) {
    s.link.line.None? ==> Absent(MSG_RECEIVED_HEART_BEAT, s.queue.pending)
  }

  /** The exact condition, for every run: at no moment of it could the event loop come to a
      heart beat without a client, if and only if no heart beat was waiting when a client was
      given up and none came from a client before its announcement. */
  lemma {:induction false} HeartBeatsFindClients(dmaOpens: bool, events: seq<SessionEvent>, s: State)
    requires Reached(dmaOpens, events) == Some(s)
    ensures AlwaysAtEase(dmaOpens, events) <==> Tidy(dmaOpens, events)
    ensures Tidy(dmaOpens, events) ==> !Crashes(s)
    decreases |events|
  {
    hide Enabled, Next, Kept, AtEase, Crashes, Quiet, TidyStep;
    AlwaysKept(dmaOpens, events);
    EaseIsQuiet(s);
    if events == [] {
      NothingWaiting(dmaOpens);
      assert events[..0] == [];
    } else {
      var before, e := events[..|events| - 1], events[|events| - 1];
      var r := Reached(dmaOpens, before).value;
      HeartBeatsFindClients(dmaOpens, before, r);
      AlwaysKept(dmaOpens, before);
      EaseIsQuiet(r);
      EaseOneMore(dmaOpens, events);
      LastIsAtEase(dmaOpens, before);
      if Quiet(r) {
        StepQuiet(r, e);
      }
    }
    if Quiet(s) {
      NoCrash(s);
    }
  }

  lemma EaseOneMore(dmaOpens: bool, events: seq<SessionEvent>)
    requires events != []
    ensures AlwaysAtEase(dmaOpens, events)
       <==> AlwaysAtEase(dmaOpens, events[..|events| - 1]) && AtEase(Reached(dmaOpens, events))
  {
    hide AtEase, Reached;
    var before := events[..|events| - 1];
    assert events[..|events|] == events;
    assert forall n :: 0 <= n <= |before| ==> events[..n] == before[..n];
  }

  lemma LastIsAtEase(dmaOpens: bool, events: seq<SessionEvent>)
    ensures AlwaysAtEase(dmaOpens, events) ==> AtEase(Reached(dmaOpens, events))
  {
    hide AtEase, Reached;
    assert events[..|events|] == events;
  }

  lemma EaseIsQuiet(s: State)
    requires Kept(s)
    ensures AtEase(Some(s)) <==> Quiet(s)
  {
    hide Kept, StrandsAlone, Absent, Alone;
    if s.link.line.None? {
      KeptIsAlone(s);
      AloneStrands(s);
    }
  }

  lemma NothingWaiting(dmaOpens: bool)
    ensures Quiet(Initial(dmaOpens))
  {
  }

  lemma NoCrash(s: State)
    requires Quiet(s)
    ensures !Crashes(s)
  {
  }

  lemma StepQuiet(s: State, e: SessionEvent)
    requires Kept(s) && Enabled(s, e) && Quiet(s)
    ensures Quiet(Next(s, e)) <==> TidyStep(Some(s), e)
  {
    hide RunFrom, DmaKept, TimerKept, QueueKept, PeriodKept, AfterMarks, Absent, Enabled, Next;
    if e.MessageHandled? && AboutToGiveUp(s) {
      LineThere(s);
      GivenUp(s);
    } else if s.link.line.None? && !e.ClientAnnounced? {
      StaysOffline(s, e);
    } else {
      StaysOnline(s, e);
      OnlineIsNotJoining(s, e);
    }
  }

  lemma OnlineIsNotJoining(s: State, e: SessionEvent)
    requires ClientKept(s) && Enabled(s, e) && (s.link.line.Some? || e.ClientAnnounced?)
    ensures e.FrameArrived? ==> !s.joining
  {
    hide AfterMarks, Untouched;
  }

  lemma StaysOffline(s: State, e: SessionEvent)
    requires ClientKept(s) && Enabled(s, e) && s.link.line.None? && !e.ClientAnnounced?
    requires Absent(MSG_RECEIVED_HEART_BEAT, s.queue.pending)
    ensures Next(s, e).link.line.None?
    ensures Absent(MSG_RECEIVED_HEART_BEAT, Next(s, e).queue.pending)
       <==> !(e.FrameArrived? && e.frame.kind == 99)
    ensures e.FrameArrived? ==> s.joining
  {
    hide Possible, AfterMarks, StartCsi, StopCsi, StartConstellation, StopConstellation, Delivered, AfterSend,
      Processed, Untouched, Started, Stopped, Fired;
    match e
    case FrameArrived(f) => HeartBeatPosted(s.queue, f);
    case BlockDelivered(samples, taken) => SendLeavesClient(s.link, Frame(Tag(s.dma), samples), taken);
    case BrokerSends(reply, taken) => SendLeavesClient(s.link, reply, taken);
    case _ =>
  }

  lemma HeartBeatPosted(q: Queue, f: Frame)
    requires Absent(MSG_RECEIVED_HEART_BEAT, q.pending)
    ensures Absent(MSG_RECEIVED_HEART_BEAT, Processed(q, f).pending) <==> f.kind != 99
  {
    if f.kind == 99 {
      assert Processed(q, f).pending[|q.pending|].kind == MSG_RECEIVED_HEART_BEAT;
    }
  }

  lemma StaysOnline(s: State, e: SessionEvent)
    requires Enabled(s, e) && (s.link.line.Some? || e.ClientAnnounced?)
    requires !(e.MessageHandled? && AboutToGiveUp(s))
    ensures Next(s, e).link.line.Some?
  {
    hide Possible, StartCsi, StopCsi, StartConstellation, StopConstellation, Delivered;
  }

  // Runs in which this happens.

  lemma ReachOn(events: seq<SessionEvent>, s: State, e: SessionEvent)
    requires Reached(true, events) == Some(s) && Enabled(s, e)
    ensures Reached(true, events + [e]) == Some(Next(s, e))
  {
    hide Enabled, Next, RunFrom;
    Extended(Initial(true), events, e);
  }

  /** A client that is there, its timer started, its first time-out in the queue. */
  lemma FirstTimeout() returns (events: seq<SessionEvent>, s: State)
    ensures Reached(true, events) == Some(s)
    ensures s.link.waiting == STATE_CONNECTED && s.link.line.Some? && !s.connected && s.link.sendEnable
    ensures s.queue.pending == [Message(MSG_TIMEOUT, 2, [])] && s.queue.seqId == 3
    ensures s.hasTimer && s.timer == Timer(0, 1, 1) && !s.joining
  {
    hide RunFrom, Reached;
    events, s := [], Initial(true);
    NothingReached();
    ReachOn(events, s, ClientAccepted);
    events, s := events + [ClientAccepted], Next(s, ClientAccepted);
    ReachOn(events, s, ClientAnnounced);
    events, s := events + [ClientAnnounced], Next(s, ClientAnnounced);
    ReachOn(events, s, MessageHandled);
    events, s := events + [MessageHandled], Next(s, MessageHandled);
    ReachOn(events, s, TimerFired);
    events, s := events + [TimerFired], Next(s, TimerFired);
  }

  lemma NothingReached()
    ensures Reached(true, []) == Some(Initial(true))
  {
  }

  /** A heart beat that comes between a time-out and its handling: the client is given up,
      and the next message is to mark a client that is not there. */
  lemma LateHeartBeat() returns (events: seq<SessionEvent>, s: State)
    ensures Reached(true, events) == Some(s) && Crashes(s)
  {
    hide RunFrom, Reached;
    events, s := FirstTimeout();
    var e := FrameArrived(HEART_BEAT);
    ReachOn(events, s, e);
    events, s := events + [e], Next(s, e);
    ReachOn(events, s, MessageHandled);
    events, s := events + [MessageHandled], Next(s, MessageHandled);
  }

  /** The first heart beat of the first client, handled before the client is announced. */
  lemma EarlyHeartBeat() returns (s: State)
    ensures Reached(true, [ClientAccepted, FrameArrived(HEART_BEAT)]) == Some(s) && Crashes(s)
  {
    hide RunFrom, Reached;
    NothingReached();
    s := Initial(true);
    ReachOn([], s, ClientAccepted);
    s := Next(s, ClientAccepted);
    assert [] + [ClientAccepted] == [ClientAccepted];
    ReachOn([ClientAccepted], s, FrameArrived(HEART_BEAT));
    s := Next(s, FrameArrived(HEART_BEAT));
    assert [ClientAccepted] + [FrameArrived(HEART_BEAT)] == [ClientAccepted, FrameArrived(HEART_BEAT)];
  }

  /** The last time-out of a stopped timer: the event loop gives up the next client, and
      only then comes to the message that this client is there. */
  lemma StaleTimeout() returns (events: seq<SessionEvent>, before: State, s: State)
    ensures Reached(true, events) == Some(before) && Reached(true, events + [MessageHandled]) == Some(s)
    ensures before.timer.closeState == 1 && !before.hasTimer && before.link.line.Some?
    ensures s.link.line.None? && s.link.waiting == STATE_DISCONNECTED
    ensures |s.queue.pending| == 3 && s.queue.pending[0].kind == MSG_STOP_TIMER
            && s.queue.pending[1].kind == MSG_ACCEPT_NEW_CLIENT
            && s.queue.pending[2].kind == MSG_RECEIVE_THREAD_CLOSED
    ensures s.link.sendEnable && !s.joining && !s.connected
  {
    hide RunFrom, Reached;
    events, s := FirstTimeout();
    ReachOn(events, s, MessageHandled);
    events, s := events + [MessageHandled], Next(s, MessageHandled);
    ReachOn(events, s, MessageHandled);
    events, s := events + [MessageHandled], Next(s, MessageHandled);
    ReachOn(events, s, TimerFired);
    events, s := events + [TimerFired], Next(s, TimerFired);
    ReachOn(events, s, ClientAccepted);
    events, s := events + [ClientAccepted], Next(s, ClientAccepted);
    ReachOn(events, s, ClientAnnounced);
    events, s := events + [ClientAnnounced], Next(s, ClientAnnounced);
    before := s;
    ReachOn(events, s, MessageHandled);
    s := Next(s, MessageHandled);
  }
}
