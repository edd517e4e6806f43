/** sendToPc and the encoders: what a socket carries when any send may fall short. */
module Sending {
  import opened Bytes
  import opened Framing

  const STATE_DISCONNECTED := 0
  const STATE_STARTUP := 1
  const STATE_CONNECTED := 2

  /** The bytes put on a line, and the frames that send took to the last byte. */
  datatype Line = Line(wire: bytes, complete: seq<Frame>)

  /** `line` is what the current socket carries, `period` what was put on any socket since
      MSG_ACCEPT_NEW_CLIENT was last handled. */
  datatype Link = Link(waiting: int, sendEnable: bool, line: Option<Line>, period: Line)

  /** The accept thread, the handling of its message, the teardown of a connection, and a
      call of sendToPc in which send takes `taken` bytes (-1: an error). */
  datatype LinkEvent = Accept | HandleAccept | Teardown | Send(frame: Frame, taken: int)

  predicate Possible(e: LinkEvent) {
    e.Send? ==> Sendable(e.frame) && -1 <= e.taken <= |Encode(e.frame)|
  }

  function Start(): Link {
    Link(STATE_STARTUP, false, None, Line([], []))
  }

  function Put(l: Line, f: Frame, taken: int): Line
    requires Sendable(f) && -1 <= taken <= |Encode(f)|
  {
    if taken == |Encode(f)| then Line(l.wire + Encode(f), l.complete + [f])
    else if taken >= 0 then Line(l.wire + Encode(f)[..taken], l.complete)
    else l
  }

  predicate Sends(s: Link) {
    s.waiting != STATE_DISCONNECTED && s.line.Some? && s.sendEnable
  }

  function AfterSend(s: Link, f: Frame, taken: int): Link
    requires Sendable(f) && -1 <= taken <= |Encode(f)|
  {
    if Sends(s) then
      s.(sendEnable := taken == |Encode(f)|,
         line := Some(Put(s.line.value, f, taken)),
         period := Put(s.period, f, taken))
    else s
  }

  function LinkStep(s: Link, e: LinkEvent): Link
    requires Possible(e)
  {
    match e
    case Accept => s.(waiting := STATE_CONNECTED, line := Some(Line([], [])))
    case HandleAccept => s.(sendEnable := true, period := Line([], []))
    case Teardown => s.(waiting := STATE_DISCONNECTED, line := None)
    case Send(f, taken) => AfterSend(s, f, taken)
  }

  predicate AllPossible(events: seq<LinkEvent>) {
    forall i :: 0 <= i < |events| ==> Possible(events[i])
  }

  function LinkRun(events: seq<LinkEvent>): Link
    requires AllPossible(events)
  {
    if events == [] then Start()
    else LinkStep(LinkRun(events[..|events| - 1]), events[|events| - 1])
  }

  // Whole frames, then at most one that was cut short.

  predicate Whole(l: Line) {
    AllSendable(l.complete) && l.wire == EncodeAll(l.complete)
  }

  predicate CutAfter(l: Line, f: Frame, p: bytes) {
    AllSendable(l.complete) && Sendable(f) && Truncated(f, p) && l.wire == EncodeAll(l.complete) + p
  }

  ghost predicate Orderly(l: Line) {
    exists f, p :: CutAfter(l, f, p)
  }

  /** A receiver of the stream gets exactly the frames that were sent completely. */
  lemma OrderlyIsRecovered(l: Line)
    requires Orderly(l)
    ensures Split(l.wire).frames == l.complete
  {
    hide Split, EncodeAll, Truncated, Encode;
    var f, p :| CutAfter(l, f, p);
    TruncatedIsIncomplete(f, p);
    SplitUndoesEncode(l.complete, p);
  }

  lemma WholeIsOrderly(l: Line)
    requires Whole(l)
    ensures Orderly(l)
  {
    hide EncodeAll, AllSendable;
    var f := Frame(0, []);
    assert [] <= Encode(f) && |Encode(f)| > 0;
    assert EncodeAll(l.complete) + [] == EncodeAll(l.complete);
    assert CutAfter(l, f, []);
  }

  lemma PutOnWhole(l: Line, f: Frame, taken: int)
    requires Whole(l) && Sendable(f) && -1 <= taken <= |Encode(f)|
    ensures taken == |Encode(f)| ==> Whole(Put(l, f, taken))
    ensures Orderly(Put(l, f, taken))
  {
    hide Encode, EncodeAll, Sendable, Orderly;
    if taken == |Encode(f)| {
      EncodeAllAppend(l.complete, f);
      WholeIsOrderly(Put(l, f, taken));
    } else if taken >= 0 {
      CutHere(l, f, taken);
    } else {
      WholeIsOrderly(l);
    }
  }

  lemma CutHere(l: Line, f: Frame, taken: nat)
    requires Whole(l) && Sendable(f) && taken < |Encode(f)|
    ensures Orderly(Put(l, f, taken))
  {
    hide Encode, EncodeAll, Sendable, AllSendable;
    var p := Encode(f)[..taken];
    assert p <= Encode(f);
    assert CutAfter(Put(l, f, taken), f, p);
  }

  /** Between one handling of MSG_ACCEPT_NEW_CLIENT and the next. */
  ghost predicate PeriodKept(s: Link) {
    (s.sendEnable ==> Whole(s.period)) && Orderly(s.period)
  }

  lemma PeriodStep(s: Link, e: LinkEvent)
    requires Possible(e) && PeriodKept(s)
    ensures PeriodKept(LinkStep(s, e))
  {
    hide Encode, Sendable, Orderly, Whole;
    if e.HandleAccept? {
      NothingPut();
    } else if e.Send? && Sends(s) {
      PutOnWhole(s.period, e.frame, e.taken);
    }
  }

  lemma NothingPut()
    ensures Whole(Line([], [])) && Orderly(Line([], []))
  {
    WholeIsOrderly(Line([], []));
  }

  /** In every run the bytes of a period are whole frames and at most one cut short, with
      nothing behind it, so a receiver recovers exactly the frames that were sent. */
  lemma {:induction false} PeriodsAreRecovered(events: seq<LinkEvent>)
    requires AllPossible(events)
    ensures PeriodKept(LinkRun(events))
    ensures Split(LinkRun(events).period.wire).frames == LinkRun(events).period.complete
    decreases |events|
  {
    hide Split, PeriodKept, LinkStep, Possible;
    if events == [] {
      NothingPut();
      KeptAtStart();
    } else {
      PeriodsAreRecovered(events[..|events| - 1]);
      PeriodStep(LinkRun(events[..|events| - 1]), events[|events| - 1]);
    }
    KeptIsRecovered(LinkRun(events));
  }

  lemma KeptAtStart()
    ensures PeriodKept(Start())
  {
    NothingPut();
  }

  lemma KeptIsRecovered(s: Link)
    requires PeriodKept(s)
    ensures Split(s.period.wire).frames == s.period.complete
  {
    hide Split, Orderly;
    OrderlyIsRecovered(s.period);
  }

  // One socket, from its accept on.

  /** send takes a part of a frame: more than nothing, less than all of it. */
  predicate TakesPart(s: Link, e: LinkEvent) {
    e.Send? && Sends(s) && Sendable(e.frame) && 0 < e.taken < |Encode(e.frame)|
  }

  /** Since the latest client was accepted, a send has taken a part of a frame. */
  predicate PartTaken(events: seq<LinkEvent>)
    requires AllPossible(events)
  {
    if events == [] then false
    else
      var before, e := events[..|events| - 1], events[|events| - 1];
      !e.Accept? && (PartTaken(before) || TakesPart(LinkRun(before), e))
  }

  /** Since then, an accept message was handled, so sending enabled, behind such a send. */
  predicate Resumed(events: seq<LinkEvent>)
    requires AllPossible(events)
  {
    if events == [] then false
    else
      var before, e := events[..|events| - 1], events[|events| - 1];
      !e.Accept? && (Resumed(before) || (e.HandleAccept? && PartTaken(before)))
  }

  ghost predicate LineKept(s: Link, parted: bool, resumed: bool) {
    s.line.Some? && !resumed ==>
      Orderly(s.line.value) && (!parted ==> Whole(s.line.value)) && (parted ==> !s.sendEnable)
  }

  lemma LineStep(s: Link, parted: bool, resumed: bool, e: LinkEvent)
    requires Possible(e) && LineKept(s, parted, resumed)
    ensures LineKept(
              LinkStep(s, e), !e.Accept? && (parted || TakesPart(s, e)),
              !e.Accept? && (resumed || (e.HandleAccept? && parted)))
  {
    hide Encode, Sendable, Orderly, Whole;
    if e.Accept? {
      NothingPut();
    } else if e.Send? && Sends(s) && !resumed {
      PutOnWhole(s.line.value, e.frame, e.taken);
      PutNothing(s.line.value, e.frame, e.taken);
    }
  }

  lemma PutNothing(l: Line, f: Frame, taken: int)
    requires Sendable(f) && -1 <= taken <= |Encode(f)|
    ensures taken <= 0 ==> taken < |Encode(f)| && Put(l, f, taken) == l
  {
    hide Encode;
    EncodingIsNotEmpty(f);
    if taken == 0 {
      assert l.wire + Encode(f)[..0] == l.wire;
    }
  }

  lemma EncodingIsNotEmpty(f: Frame)
    requires Sendable(f)
    ensures |Encode(f)| > 0
  {
  }

  /** In every run a socket's stream is recovered as exactly the frames sent completely,
      unless sending was enabled on it again behind a frame that was cut short. */
  lemma {:induction false} SocketsAreRecovered(events: seq<LinkEvent>)
    requires AllPossible(events)
    ensures LineKept(LinkRun(events), PartTaken(events), Resumed(events))
    ensures var line := LinkRun(events).line;
            line.Some? && !Resumed(events) ==> Split(line.value.wire).frames == line.value.complete
    decreases |events|
  {
    hide Split, LineKept, LinkStep, Possible, TakesPart;
    if events == [] {
      NoLineAtStart();
    } else {
      var before, e := events[..|events| - 1], events[|events| - 1];
      SocketsAreRecovered(before);
      LineStep(LinkRun(before), PartTaken(before), Resumed(before), e);
    }
    LineKeptIsRecovered(LinkRun(events), PartTaken(events), Resumed(events));
  }

  lemma NoLineAtStart()
    ensures LineKept(Start(), false, false)
  {
  }

  lemma LineKeptIsRecovered(s: Link, parted: bool, resumed: bool)
    requires LineKept(s, parted, resumed)
    ensures s.line.Some? && !resumed ==> Split(s.line.value.wire).frames == s.line.value.complete
  {
    hide Split, Orderly, Whole;
    if s.line.Some? && !resumed {
      OrderlyIsRecovered(s.line.value);
    }
  }

  /** All frames that may be sent on this line from now on will be recovered. */
  ghost predicate Recoverable(l: Line) {
    forall more :: AllSendable(more) ==> Split(l.wire + EncodeAll(more)).frames == l.complete + more
  }

  lemma WholeIsRecoverable(l: Line)
    requires Whole(l)
    ensures Recoverable(l)
  {
    hide Split, EncodeAll, AllSendable;
    forall more | AllSendable(more)
      ensures Split(l.wire + EncodeAll(more)).frames == l.complete + more
    {
      MoreFrames(l.complete, more);
      assert l.wire + EncodeAll(more) == EncodeAll(l.complete + more) + [];
      NothingIsIncomplete();
      SplitUndoesEncode(l.complete + more, []);
    }
  }

  /** How many bytes of a line belong to no frame that was sent completely. */
  ghost predicate Spare(l: Line, n: nat) {
    AllSendable(l.complete) && |l.wire| == |EncodeAll(l.complete)| + n && (n == 0 ==> Whole(l))
  }

  /** A line with such bytes has a receiver that misses something, whatever they are. */
  lemma SpareIsLost(l: Line, n: nat)
    requires Spare(l, n) && n > 0
    ensures !Recoverable(l)
  {
    hide Split, EncodeAll, AllSendable;
    if Recoverable(l) {
      NoFrames();
      assert l.wire + EncodeAll([]) == l.wire && l.complete + [] == l.complete;
      EncodeUndoesSplit(l.wire);
      LostFrame(l, Split(l.wire).rest);
      assert false;
    }
  }

  lemma NoFrames()
    ensures AllSendable([]) && EncodeAll([]) == []
  {
  }

  lemma SpareStep(l: Line, n: nat, f: Frame, taken: int) returns (m: nat)
    requires Spare(l, n) && Sendable(f) && -1 <= taken <= |Encode(f)|
    ensures Spare(Put(l, f, taken), m)
    ensures m > 0 <==> n > 0 || 0 < taken < |Encode(f)|
  {
    hide Encode, EncodeAll, Sendable, AllSendable;
    EncodingIsNotEmpty(f);
    if taken == |Encode(f)| {
      EncodeAllAppend(l.complete, f);
      m := n;
    } else if taken > 0 {
      m := n + taken;
    } else {
      PutNothing(l, f, taken);
      m := n;
    }
  }

  lemma {:induction false} SpareInRun(events: seq<LinkEvent>) returns (n: nat)
    requires AllPossible(events)
    ensures var line := LinkRun(events).line;
            line.Some? ==> Spare(line.value, n) && (n > 0 <==> PartTaken(events))
    decreases |events|
  {
    hide Encode, Spare, Possible;
    n := 0;
    if events != [] {
      var before, e := events[..|events| - 1], events[|events| - 1];
      var s := LinkRun(before);
      n := SpareInRun(before);
      assert Possible(e);
      n := SpareAfter(s, n, PartTaken(before), e);
    }
  }

  lemma SpareAfter(s: Link, n: nat, parted: bool, e: LinkEvent) returns (m: nat)
    requires Possible(e)
    requires s.line.Some? ==> Spare(s.line.value, n) && (n > 0 <==> parted)
    ensures var line := LinkStep(s, e).line;
            line.Some? ==> Spare(line.value, m) && (m > 0 <==> !e.Accept? && (parted || TakesPart(s, e)))
  {
    hide Encode, Spare;
    m := n;
    if e.Accept? {
      NothingSpare();
      m := 0;
    } else if e.Send? && Sends(s) {
      m := SpareStep(s.line.value, n, e.frame, e.taken);
    }
  }

  lemma NothingSpare()
    ensures Spare(Line([], []), 0)
  {
  }

  /** The exact condition, in every run and at every moment: a receiver gets every frame
      sent on the current socket, whatever is sent from now on, if and only if no send
      since the client was accepted has taken a part of a frame. */
  lemma RecoverableIffNoPartTaken(events: seq<LinkEvent>)
    requires AllPossible(events) && LinkRun(events).line.Some?
    ensures Recoverable(LinkRun(events).line.value) <==> !PartTaken(events)
  {
    hide LinkRun, PartTaken, Recoverable;
    var n := SpareInRun(events);
    var l := LinkRun(events).line.value;
    if n == 0 {
      WholeIsRecoverable(l);
    } else {
      SpareIsLost(l, n);
    }
  }

  // What goes out: by what has happened, whatever the fields say.

  /** A client was accepted, and no connection torn down since. */
  predicate HasClient(events: seq<LinkEvent>) {
    exists i :: 0 <= i < |events| && events[i].Accept? && forall k :: i < k < |events| ==> !events[k].Teardown?
  }

  /** send takes all of the frame. */
  predicate TakesWhole(e: LinkEvent) {
    e.Send? && Sendable(e.frame) && e.taken == |Encode(e.frame)|
  }

  /** Step `k` is a send to a client that falls short. */
  predicate FallsShort(events: seq<LinkEvent>, k: nat)
    requires k < |events|
  {
    events[k].Send? && !TakesWhole(events[k]) && HasClient(events[..k])
  }

  /** An accept message was handled, and no send to a client has fallen short since. */
  predicate Open(events: seq<LinkEvent>) {
    exists j :: 0 <= j < |events| && events[j].HandleAccept? && forall k :: j < k < |events| ==> !FallsShort(events, k)
  }

  lemma HasClientStep(before: seq<LinkEvent>, e: LinkEvent)
    ensures HasClient(before + [e]) <==> e.Accept? || (HasClient(before) && !e.Teardown?)
  {
    var events := before + [e];
    var n := |before|;
    if e.Accept? {
      assert events[n].Accept?;
    }
    if HasClient(before) && !e.Teardown? {
      var i :| 0 <= i < n && before[i].Accept? && forall k :: i < k < n ==> !before[k].Teardown?;
      assert events[i].Accept? && forall k :: i < k < |events| ==> !events[k].Teardown?;
    }
    if HasClient(events) && !e.Accept? {
      var i :| 0 <= i < |events| && events[i].Accept? && forall k :: i < k < |events| ==> !events[k].Teardown?;
      assert before[i].Accept? && !events[n].Teardown?;
      assert forall k :: i < k < n ==> !before[k].Teardown? by {
        assert forall k :: i < k < n ==> before[k] == events[k];
      }
    }
  }

  lemma OpenStep(before: seq<LinkEvent>, e: LinkEvent)
    ensures Open(before + [e])
       <==> e.HandleAccept? || (Open(before) && !(e.Send? && !TakesWhole(e) && HasClient(before)))
  {
    hide HasClient, TakesWhole;
    var events := before + [e];
    var n := |before|;
    assert events[..n] == before;
    forall k | 0 <= k < n
      ensures FallsShort(events, k) <==> FallsShort(before, k)
    {
      assert events[..k] == before[..k];
    }
    if e.HandleAccept? {
      assert events[n].HandleAccept?;
    } else if Open(before) && !FallsShort(events, n) {
      var j :| 0 <= j < n && before[j].HandleAccept? && forall k :: j < k < n ==> !FallsShort(before, k);
      assert events[j].HandleAccept? && forall k :: j < k < |events| ==> !FallsShort(events, k);
    }
    if Open(events) && !e.HandleAccept? {
      var j :| 0 <= j < |events| && events[j].HandleAccept? && forall k :: j < k < |events| ==> !FallsShort(events, k);
      assert before[j].HandleAccept? && forall k :: j < k < n ==> !FallsShort(before, k);
      assert !FallsShort(events, n);
    }
  }

  /** The frames that were sent whole since the latest step `mark`: those for which there was
      a client and the way was open. */
  function SentSince(events: seq<LinkEvent>, mark: LinkEvent): seq<Frame> {
    if events == [] then []
    else
      var before, e := events[..|events| - 1], events[|events| - 1];
      if e == mark then []
      else if TakesWhole(e) && HasClient(before) && Open(before) then SentSince(before, mark) + [e.frame]
      else SentSince(before, mark)
  }

  /** What the history says of a state. */
  ghost predicate Told(s: Link, events: seq<LinkEvent>) {
    && (s.line.Some? <==> HasClient(events))
    && (s.line.Some? ==> s.waiting != STATE_DISCONNECTED)
    && (s.sendEnable <==> Open(events))
    && s.period.complete == SentSince(events, HandleAccept)
    && (s.line.Some? ==> s.line.value.complete == SentSince(events, Accept))
  }

  lemma ToldStep(s: Link, before: seq<LinkEvent>, e: LinkEvent)
    requires Told(s, before) && Possible(e)
    ensures Told(LinkStep(s, e), before + [e])
  {
    hide HasClient, Open, Encode, Sendable;
    HasClientStep(before, e);
    OpenStep(before, e);
    assert (before + [e])[..|before|] == before;
    assert SentSince(before + [e], HandleAccept)
        == if e.HandleAccept? then []
           else if TakesWhole(e) && HasClient(before) && Open(before) then SentSince(before, HandleAccept) + [e.frame]
           else SentSince(before, HandleAccept);
    assert SentSince(before + [e], Accept)
        == if e.Accept? then []
           else if TakesWhole(e) && HasClient(before) && Open(before) then SentSince(before, Accept) + [e.frame]
           else SentSince(before, Accept);
  }

  lemma NothingTold()
    ensures Told(Start(), [])
  {
  }

  /** In every run: sending is enabled if and only if an accept message was handled and every
      send to a client since then took its whole frame; and what is complete, on the socket
      and in the period, are the frames sent whole while that was so, all of them. */
  lemma {:induction false} HistoryTells(events: seq<LinkEvent>)
    requires AllPossible(events)
    ensures Told(LinkRun(events), events)
    decreases |events|
  {
    hide Told, LinkStep, Possible;
    if events == [] {
      NothingTold();
    } else {
      var before, e := events[..|events| - 1], events[|events| - 1];
      HistoryTells(before);
      ToldStep(LinkRun(before), before, e);
      assert before + [e] == events;
    }
  }

  /** Progress: with a client and the way open, a frame that send takes whole goes out, on the
      socket and in the period, and the way stays open; otherwise sending changes nothing. */
  lemma NextFrameGoesOut(events: seq<LinkEvent>, f: Frame)
    requires AllPossible(events) && Sendable(f)
    ensures var s, t := LinkRun(events), LinkStep(LinkRun(events), Send(f, |Encode(f)|));
            if HasClient(events) && Open(events) then
              t.period == Line(s.period.wire + Encode(f), s.period.complete + [f])
              && s.line.Some? && t.line == Some(Line(s.line.value.wire + Encode(f), s.line.value.complete + [f]))
              && t.sendEnable && HasClient(events + [Send(f, |Encode(f)|)]) && Open(events + [Send(f, |Encode(f)|)])
            else t == s
  {
    hide HasClient, Open, Encode, Sendable, LinkRun, SentSince;
    var e := Send(f, |Encode(f)|);
    HistoryTells(events);
    HasClientStep(events, e);
    OpenStep(events, e);
  }

  lemma NothingIsIncomplete()
    ensures !Complete([])
  {
  }

  lemma {:induction false} MoreFrames(a: seq<Frame>, b: seq<Frame>)
    requires AllSendable(a) && AllSendable(b)
    ensures AllSendable(a + b) && EncodeAll(a + b) == EncodeAll(a) + EncodeAll(b)
    decreases |a|
  {
    hide Encode, Sendable;
    if a == [] {
      assert a + b == b;
    } else {
      assert (a + b)[1..] == a[1..] + b;
      MoreFrames(a[1..], b);
    }
  }

  /** Behind the complete frames only the rest matters. */
  lemma {:induction false} SplitBehind(frames: seq<Frame>, s: bytes)
    requires AllSendable(frames)
    ensures Split(EncodeAll(frames) + s).frames == frames + Split(s).frames
    decreases |frames|
  {
    hide Encode, First, Rest, Complete, Sendable;
    if frames == [] {
      assert EncodeAll(frames) + s == s;
    } else {
      var t := EncodeAll(frames[1..]) + s;
      assert EncodeAll(frames) + s == Encode(frames[0]) + t;
      EncodeFirst(frames[0], t);
      SplitBehind(frames[1..], s);
    }
  }

  /** Behind a part of a frame, one of the two shortest frames is lost. */
  lemma LostFrame(l: Line, p: bytes)
    requires AllSendable(l.complete) && l.wire == EncodeAll(l.complete) + p && p != []
    ensures Loses(l, 0) || Loses(l, 1)
    ensures !Recoverable(l)
  {
    hide *;
    NotBoth(p);
    Single(l, p, 0);
    Single(l, p, 1);
  }

  /** A frame of this type without a body, sent next, does not arrive. */
  ghost predicate Loses(l: Line, kind: int) {
    var f := Frame(kind, []);
    Sendable(f) && Split(l.wire + Encode(f)).frames != l.complete + [f]
  }

  lemma Single(l: Line, p: bytes, kind: int)
    requires AllSendable(l.complete) && l.wire == EncodeAll(l.complete) + p && 0 <= kind <= 1
    ensures !Loses(l, kind) ==> Split(p + Encode(Frame(kind, []))).frames == [Frame(kind, [])]
    ensures Loses(l, kind) ==> !Recoverable(l)
  {
    hide Split, Encode;
    var f := Frame(kind, []);
    var more := [f];
    assert more[1..] == [] && EncodeAll(more) == Encode(f) + EncodeAll([]);
    assert EncodeAll(more) == Encode(f);
    assert l.wire + Encode(f) == EncodeAll(l.complete) + (p + Encode(f));
    SplitBehind(l.complete, p + Encode(f));
    var r := Split(p + Encode(f)).frames;
    if !Loses(l, kind) {
      assert l.complete + r == l.complete + more;
      assert (l.complete + r)[|l.complete|..] == r && (l.complete + more)[|l.complete|..] == more;
    }
  }

  /** The first eight bytes of a stream that yields a frame of small type without body. */
  lemma FirstBytes(s: bytes, kind: int)
    requires 0 <= kind <= 1
    ensures Split(s).frames == [Frame(kind, [])] ==>
              |s| >= 8 && s[0] == 4 && s[4] == kind && forall i :: 1 <= i < 8 && i != 4 ==> s[i] == 0
  {
    hide Split, Int32;
    if Split(s).frames == [Frame(kind, [])] {
      OneFrame(s);
      assert s[8..Length(s) + 4] == [];
      SmallInt32(s[0], s[1], s[2], s[3]);
      SmallInt32(s[4], s[5], s[6], s[7]);
    }
  }

  lemma OneFrame(s: bytes)
    requires Split(s).frames != []
    ensures Complete(s) && Split(s).frames[0] == First(s)
  {
    hide First, Rest;
  }

  lemma SmallInt32(b0: byte, b1: byte, b2: byte, b3: byte)
    ensures 0 <= Int32(b0, b1, b2, b3) < 0x100 ==>
              b0 == Int32(b0, b1, b2, b3) && b1 == b2 == b3 == 0
  {
  }

  lemma NotBoth(p: bytes)
    requires p != []
    ensures !(Split(p + Encode(Frame(0, []))).frames == [Frame(0, [])]
              && Split(p + Encode(Frame(1, []))).frames == [Frame(1, [])])
  {
    hide Split, Encode;
    var s, t := p + Encode(Frame(0, [])), p + Encode(Frame(1, []));
    FirstBytes(s, 0);
    FirstBytes(t, 1);
    FirstOfEncoding(Frame(0, []));
    assert s[|p|] == 4;
    assert |p| >= 8 ==> s[4] == p[4] == t[4];
  }

  lemma FirstOfEncoding(f: Frame)
    requires f == Frame(0, [])
    ensures |Encode(f)| == 8 && Encode(f)[0] == 4 && Encode(f)[1] == Encode(f)[2] == 0
  {
  }

  lemma RunOn(events: seq<LinkEvent>, e: LinkEvent)
    requires AllPossible(events) && Possible(e)
    ensures AllPossible(events + [e]) && LinkRun(events + [e]) == LinkStep(LinkRun(events), e)
  {
    hide LinkStep, Possible;
    assert (events + [e])[..|events|] == events;
  }

  /** A length field of 1028 in front of five more bytes. */
  lemma NothingFound(s: bytes)
    requires |s| == 9 && s[0] == s[1] == 4 && s[2] == s[3] == 0
    ensures Split(s).frames == []
  {
  }

  // The methods.

  /** *((int32_t*)(buf + at)) = n */
  method PutInt32(buf: array<byte>, at: nat, n: int)
    requires at + 4 <= buf.Length && INT_MIN <= n <= INT_MAX
    modifies buf
    ensures buf[at..at + 4] == Le32(n)
    ensures buf[..at] == old(buf[..at]) && buf[at + 4..] == old(buf[at + 4..])
  {
    var word := Le32(n);
    buf[at], buf[at + 1], buf[at + 2], buf[at + 3] := word[0], word[1], word[2], word[3];
  }

  /** memcpy(to + at, from, len) */
  method CopyTo(from: array<byte>, to: array<byte>, at: nat, len: nat)
    requires from != to && len <= from.Length && at + len <= to.Length
    modifies to
    ensures to[at..at + len] == from[..len] && to[..at] == old(to[..at])
  {
    for i := 0 to len
      invariant to[at..at + i] == from[..i] && to[..at] == old(to[..at])
    {
      to[at + i] := from[i];
    }
  }

  /** The header of an encoder: length and type, in front of what lies there already. */
  method PutHeader(buf: array<byte>, bodyLen: nat, kind: int)
    requires 8 <= buf.Length && INT_MIN <= kind <= INT_MAX && bodyLen + 4 <= INT_MAX
    modifies buf
    ensures buf[..8] == Le32(bodyLen + 4) + Le32(kind) && buf[8..] == old(buf[8..])
  {
    hide Le32;
    PutInt32(buf, 0, bodyLen + 4);
    ghost var once := buf[..];
    assert once[..4] == Le32(bodyLen + 4) && once[8..] == old(buf[8..]);
    PutInt32(buf, 4, kind);
    assert buf[..4] == once[..4] && buf[..8] == buf[..4] + buf[4..8];
  }

  lemma EncodedIn(buf: bytes, f: Frame)
    requires Sendable(f) && 8 + |f.body| <= |buf|
    requires buf[..8] == Le32(4 + |f.body|) + Le32(f.kind)
    requires buf[8..8 + |f.body|] == f.body
    ensures buf[..8 + |f.body|] == Encode(f) && |Encode(f)| == 8 + |f.body|
  {
    assert buf[..8 + |f.body|] == buf[..8] + buf[8..8 + |f.body|];
  }

  /** The server's side of the connection. */
  class Sender {
    var waiting: int
    var sendEnable: bool
    /** g_receive is not null */
    var hasReceiver: bool
    /** What the sockets have carried. */
    ghost var line: Line
    ghost var period: Line

    ghost function State(): Link
      reads this
    {
      Link(waiting, sendEnable, if hasReceiver then Some(line) else None, period)
    }

    constructor ()
      ensures State() == Start()
    {
      waiting, sendEnable, hasReceiver := STATE_STARTUP, false, false;
      line, period := Line([], []), Line([], []);
    }

    /** sendToPc: `taken` is what send returns for the frame `f` that the buffer holds. */
    method SendToPc(buf: array<byte>, len: nat, taken: int, ghost f: Frame) returns (ret: int)
      requires Sendable(f) && len <= buf.Length && buf[..len] == Encode(f) && -1 <= taken <= len
      modifies this
      ensures State() == AfterSend(old(State()), f, taken)
      ensures ret == if Sends(old(State())) then taken else 0
    {
      hide Encode;
      if waiting == STATE_DISCONNECTED {
        return 0;
      } else if !hasReceiver {
        return 0;
      }
      if !sendEnable {
        return 0;
      }
      line, period := Put(line, f, taken), Put(period, f, taken);
      if taken != len {
        sendEnable := false;
      }
      ret := taken;
    }

    /** The accept thread, once a client is there. */
    method AcceptClient()
      modifies this
      ensures State() == LinkStep(old(State()), Accept)
    {
      hasReceiver, line := true, Line([], []);
      waiting := STATE_CONNECTED;
    }

    /** The event loop's part of MSG_ACCEPT_NEW_CLIENT that concerns sending. */
    method EnableSending()
      modifies this
      ensures State() == LinkStep(old(State()), HandleAccept)
    {
      sendEnable, period := true, Line([], []);
    }

    /** freeReceThread, as far as sending is concerned. */
    method DropClient()
      modifies this
      ensures State() == LinkStep(old(State()), Teardown)
    {
      waiting := STATE_DISCONNECTED;
      hasReceiver := false;
    }

    /** sendStateInquiry */
    method SendStateInquiry(statBuf: array<byte>, statBufLen: nat, kind: int, taken: int)
      requires statBufLen <= statBuf.Length && Sendable(Frame(kind, statBuf[..statBufLen]))
      requires -1 <= taken <= statBufLen + 8
      modifies this
      ensures |Encode(Frame(kind, statBuf[..statBufLen]))| == statBufLen + 8
      ensures State() == AfterSend(old(State()), Frame(kind, statBuf[..statBufLen]), taken)
    {
      hide AfterSend, Encode, Le32;
      var length := statBufLen + 4 + 4;
      var tempBuf := new byte[length];
      ghost var f := Frame(kind, statBuf[..statBufLen]);
      PutHeader(tempBuf, statBufLen, kind);
      CopyTo(statBuf, tempBuf, 8, statBufLen);
      EncodedIn(tempBuf[..], f);
      var _ := SendToPc(tempBuf, length, taken, f);
    }

    /** send_rf_mf_State */
    method SendRfMfState(statBuf: array<byte>, statBufLen: nat, taken: int)
      requires statBufLen <= statBuf.Length && Sendable(Frame(5, statBuf[..statBufLen]))
      requires -1 <= taken <= statBufLen + 8
      modifies this
      ensures |Encode(Frame(5, statBuf[..statBufLen]))| == statBufLen + 8
      ensures State() == AfterSend(old(State()), Frame(5, statBuf[..statBufLen]), taken)
    {
      hide AfterSend, Encode, Le32;
      var length := statBufLen + 4 + 4;
      var tempBuf := new byte[length];
      ghost var f := Frame(5, statBuf[..statBufLen]);
      PutHeader(tempBuf, statBufLen, 5);
      CopyTo(statBuf, tempBuf, 8, statBufLen);
      EncodedIn(tempBuf[..], f);
      var _ := SendToPc(tempBuf, length, taken, f);
    }

    /** print_rssi_struct, which encodes into a buffer that all its calls share. */
    method PrintRssiStruct(seconds: int, micros: int, rssi: array<byte>, rssiLen: nat,
                           shared: array<byte>, taken: int)
      requires INT_MIN <= seconds <= INT_MAX && INT_MIN <= micros <= INT_MAX
      requires rssi != shared && rssiLen <= rssi.Length && rssiLen + 20 <= shared.Length <= INT_MAX
      requires -1 <= taken <= rssiLen + 20
      modifies this, shared
      ensures var f := RssiFrame(seconds, micros, rssi[..rssiLen]);
              |Encode(f)| == rssiLen + 20 && State() == AfterSend(old(State()), f, taken)
              && f.kind == 1 && Int32At(f.body, 0) == seconds && Int32At(f.body, 4) == micros
              && Int32At(f.body, 8) == rssiLen && f.body[12..] == old(rssi[..rssiLen])
    {
      hide AfterSend, Encode, Le32, Int32, Int32At;
      var msgLen := 4 + 4 + 4 + rssiLen;
      var length := msgLen + 4 + 4;
      PutHeader(shared, msgLen, 1);
      ghost var header := shared[..8];
      PutInt32(shared, 8, seconds);
      assert shared[..12] == shared[..8] + shared[8..12];
      PutInt32(shared, 12, micros);
      assert shared[..16] == shared[..12] + shared[12..16];
      PutInt32(shared, 16, rssiLen);
      assert shared[..20] == shared[..16] + shared[16..20];
      CopyTo(rssi, shared, 20, rssiLen);
      ghost var f := RssiFrame(seconds, micros, rssi[..rssiLen]);
      RssiEncoded(shared[..], header, Le32(seconds) + Le32(micros) + Le32(rssiLen), rssi[..rssiLen]);
      EncodedIn(shared[..], f);
      var _ := SendToPc(shared, length, taken, f);
    }
  }

  lemma RssiEncoded(buf: bytes, header: bytes, fields: bytes, rssi: bytes)
    requires |header| == 8 && |fields| == 12 && 20 + |rssi| <= |buf|
    requires buf[..20] == header + fields && buf[20..20 + |rssi|] == rssi
    ensures buf[..8] == header && buf[8..20 + |rssi|] == fields + rssi
  {
    assert buf[..8] == buf[..20][..8];
    assert buf[8..20] == buf[..20][8..];
    assert buf[8..20 + |rssi|] == buf[8..20] + buf[20..20 + |rssi|];
  }

  lemma RssiFields(seconds: int, micros: int, rssi: bytes)
    requires INT_MIN <= seconds <= INT_MAX && INT_MIN <= micros <= INT_MAX && |rssi| + 16 <= INT_MAX
    ensures var body := Le32(seconds) + Le32(micros) + Le32(|rssi|) + rssi;
            |body| == 12 + |rssi| && body[12..] == rssi
            && Int32At(body, 0) == seconds && Int32At(body, 4) == micros && Int32At(body, 8) == |rssi|
  {
    hide Le32, Int32;
    var body := Le32(seconds) + Le32(micros) + Le32(|rssi|) + rssi;
    Le32ThenInt32(seconds);
    Le32ThenInt32(micros);
    Le32ThenInt32(|rssi|);
    assert body[..4] == Le32(seconds) && body[4..8] == Le32(micros) && body[8..12] == Le32(|rssi|);
  }

  /** The time stamp, the length and the samples. */
  function RssiFrame(seconds: int, micros: int, rssi: bytes): (f: Frame)
    requires INT_MIN <= seconds <= INT_MAX && INT_MIN <= micros <= INT_MAX && |rssi| + 16 <= INT_MAX
    ensures Sendable(f) && |f.body| == 12 + |rssi|
    ensures f.kind == 1 && f.body[12..] == rssi
    ensures Int32At(f.body, 0) == seconds && Int32At(f.body, 4) == micros && Int32At(f.body, 8) == |rssi|
  {
    RssiFields(seconds, micros, rssi);
    Frame(1, Le32(seconds) + Le32(micros) + Le32(|rssi|) + rssi)
  }
}
