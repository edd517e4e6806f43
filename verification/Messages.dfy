/** The message queue between the threads: numbered, first in first out, with a fixed
    number of bytes that travel with each message. */
module Messages {
  import opened Bytes
  import opened Framing

  const MSG_ACCEPT_NEW_CLIENT := 10
  const MSG_INQUIRY_STATE := 11
  const MSG_RECEIVED_HEART_BEAT := 12
  const MSG_RSSI_STATE_CHANGE := 13
  const MSG_START_CSI := 14
  const MSG_STOP_CSI := 15
  const MSG_START_CONSTELLATION := 16
  const MSG_STOP_CONSTELLATION := 17
  const MSG_RF_MF_STATE := 18
  const MSG_RECEIVE_THREAD_CLOSED := 19
  const MSG_TIMEOUT := 20
  const MSG_STOP_TIMER := 21

  /** The size of `msg_json`, and the number of bytes behind `msg_type` that travel. Eight
      of these are the number and the length. */
  const MAX_TEXT: nat := 2048
  const BODY_LIMIT: nat := MAX_TEXT - 8

  // The queue as a value, with the messages that were taken from it.

  datatype Message = Message(kind: int, number: int, body: bytes)

  datatype Queue = Queue(seqId: int, pending: seq<Message>, taken: seq<Message>)

  function Empty(): Queue {
    Queue(1, [], [])
  }

  function Posted(q: Queue, kind: int, body: bytes): Queue {
    q.(seqId := q.seqId + 1, pending := q.pending + [Message(kind, q.seqId, body)])
  }

  function Taken(q: Queue): Queue {
    if q.pending == [] then q
    else q.(pending := q.pending[1..], taken := q.taken + [q.pending[0]])
  }

  /** What processMessage posts for a frame. */
  datatype Request = Request(kind: int, body: bytes)

  function Requested(f: Frame): Option<Request> {
    if f.kind == 99 then Some(Request(MSG_RECEIVED_HEART_BEAT, []))
    else if f.kind == 4 then Some(Request(MSG_START_CONSTELLATION, []))
    else if f.kind == 5 then Some(Request(MSG_STOP_CONSTELLATION, []))
    else if f.kind == 7 then Some(Request(MSG_START_CSI, []))
    else if f.kind == 8 then Some(Request(MSG_STOP_CSI, []))
    else if f.kind == 1 then Some(Request(MSG_INQUIRY_STATE, f.body))
    else if f.kind == 2 then Some(Request(MSG_RSSI_STATE_CHANGE, f.body))
    else if f.kind == 22 then Some(Request(MSG_RF_MF_STATE, []))
    else None
  }

  function Processed(q: Queue, f: Frame): Queue {
    var r := Requested(f);
    if r.Some? then Posted(q, r.value.kind, r.value.body) else q
  }

  function ProcessedAll(q: Queue, frames: seq<Frame>): Queue
    decreases |frames|
  {
    if frames == [] then q
    else Processed(ProcessedAll(q, frames[..|frames| - 1]), frames[|frames| - 1])
  }

  lemma {:induction false} ProcessedInTwo(q: Queue, a: seq<Frame>, b: seq<Frame>)
    ensures ProcessedAll(q, a + b) == ProcessedAll(ProcessedAll(q, a), b)
    decreases |b|
  {
    hide Processed;
    if b == [] {
      assert a + b == a;
    } else {
      assert (a + b)[..|a + b| - 1] == a + b[..|b| - 1];
      ProcessedInTwo(q, a, b[..|b| - 1]);
    }
  }

  // Runs: the receive thread, the other threads and the event loop in any order.

  datatype Event = Arrival(frame: Frame) | Other(kind: int) | Take

  function Step(q: Queue, e: Event): Queue {
    match e
    case Arrival(f) => Processed(q, f)
    case Other(kind) => Posted(q, kind, [])
    case Take => Taken(q)
  }

  function Run(events: seq<Event>): Queue {
    if events == [] then Empty() else Step(Run(events[..|events| - 1]), events[|events| - 1])
  }

  /** The commands with a body: what the event loop hands to the devices. */
  predicate IsCommand(kind: int) {
    kind == MSG_INQUIRY_STATE || kind == MSG_RSSI_STATE_CHANGE
  }

  function Commands(messages: seq<Message>): seq<Request> {
    if messages == [] then []
    else
      var m := messages[|messages| - 1];
      Commands(messages[..|messages| - 1])
      + if IsCommand(m.kind) then [Request(m.kind, m.body)] else []
  }

  /** The commands in the frames, in the order of the stream. */
  function CommandsIn(frames: seq<Frame>): seq<Request> {
    if frames == [] then []
    else CommandsIn(frames[..|frames| - 1]) + CommandIn(frames[|frames| - 1])
  }

  function CommandIn(f: Frame): seq<Request> {
    if f.kind == 1 then [Request(MSG_INQUIRY_STATE, f.body)]
    else if f.kind == 2 then [Request(MSG_RSSI_STATE_CHANGE, f.body)]
    else []
  }

  function Arrivals(events: seq<Event>): seq<Frame> {
    if events == [] then []
    else
      var e := events[|events| - 1];
      Arrivals(events[..|events| - 1]) + if e.Arrival? then [e.frame] else []
  }

  function CommandOf(e: Event): seq<Request> {
    if e.Arrival? then CommandIn(e.frame) else []
  }

  lemma CommandsInOneMore(events: seq<Event>)
    requires events != []
    ensures CommandsIn(Arrivals(events))
         == CommandsIn(Arrivals(events[..|events| - 1])) + CommandOf(events[|events| - 1])
  {
    hide CommandIn, CommandsIn;
    var before, e := Arrivals(events[..|events| - 1]), events[|events| - 1];
    if e.Arrival? {
      CommandsInAppend(before, e.frame);
    } else {
      assert Arrivals(events) == before;
    }
  }

  lemma CommandsInAppend(frames: seq<Frame>, f: Frame)
    ensures CommandsIn(frames + [f]) == CommandsIn(frames) + CommandIn(f)
  {
    hide CommandIn;
    assert (frames + [f])[..|frames|] == frames;
  }

  predicate Numbered(messages: seq<Message>) {
    forall i :: 0 <= i < |messages| ==> messages[i].number == 1 + i
  }

  /** No thread but the receive thread posts commands. */
  predicate OthersPostNoCommand(events: seq<Event>) {
    forall i :: 0 <= i < |events| && events[i].Other? ==> !IsCommand(events[i].kind)
  }

  function Ever(q: Queue): seq<Message> {
    q.taken + q.pending
  }

  lemma CommandsOfOneMore(messages: seq<Message>, m: Message)
    ensures Commands(messages + [m])
         == Commands(messages) + if IsCommand(m.kind) then [Request(m.kind, m.body)] else []
  {
    assert (messages + [m])[..|messages|] == messages;
  }

  lemma StepKeeps(q: Queue, e: Event)
    requires e.Other? ==> !IsCommand(e.kind)
    requires Numbered(Ever(q)) && q.seqId == 1 + |Ever(q)|
    ensures Numbered(Ever(Step(q, e))) && Step(q, e).seqId == 1 + |Ever(Step(q, e))|
    ensures Commands(Ever(Step(q, e))) == Commands(Ever(q)) + CommandOf(e)
    ensures Ever(q) <= Ever(Step(q, e)) && q.taken <= Step(q, e).taken
  {
    hide Commands, Requested, CommandIn;
    match e
    case Arrival(f) =>
      RequestOfFrame(f);
      var r := Requested(f);
      if r.Some? {
        PostKeeps(q, r.value.kind, r.value.body);
      }
    case Other(kind) =>
      PostKeeps(q, kind, []);
    case Take =>
      if q.pending != [] {
        assert Ever(Taken(q)) == Ever(q);
      }
  }

  lemma RequestOfFrame(f: Frame)
    ensures var r := Requested(f);
            CommandIn(f) == if r.Some? && IsCommand(r.value.kind) then [r.value] else []
  {
  }

  lemma PostKeeps(q: Queue, kind: int, body: bytes)
    requires Numbered(Ever(q)) && q.seqId == 1 + |Ever(q)|
    ensures var r := Posted(q, kind, body);
            Numbered(Ever(r)) && r.seqId == 1 + |Ever(r)| && Ever(q) <= Ever(r)
            && Commands(Ever(r)) == Commands(Ever(q)) + if IsCommand(kind) then [Request(kind, body)] else []
  {
    hide Commands;
    var m := Message(kind, q.seqId, body);
    assert Ever(Posted(q, kind, body)) == Ever(q) + [m];
    CommandsOfOneMore(Ever(q), m);
  }

  /** Every command frame is posted once, in stream order and with its body, and what is
      taken is a beginning of what was posted; the numbers count up from 1. */
  lemma {:induction false} CommandsAreDelivered(events: seq<Event>)
    requires OthersPostNoCommand(events)
    ensures var q := Run(events);
            Commands(Ever(q)) == CommandsIn(Arrivals(events))
            && Numbered(Ever(q)) && q.seqId == 1 + |Ever(q)|
            && (q.pending == [] ==> Commands(q.taken) == CommandsIn(Arrivals(events)))
            && Commands(q.taken) <= CommandsIn(Arrivals(events))
    decreases |events|
  {
    hide Step, CommandsIn, CommandOf, Commands, Numbered;
    if events == [] {
      NothingYet();
    } else {
      var before, e := events[..|events| - 1], events[|events| - 1];
      assert OthersPostNoCommand(before);
      CommandsAreDelivered(before);
      StepKeeps(Run(before), e);
      CommandsInOneMore(events);
    }
    var q := Run(events);
    CommandsOfPrefix(q.taken, q.pending);
    if q.pending == [] {
      assert Ever(q) == q.taken;
    }
  }

  lemma NothingYet()
    ensures Commands(Ever(Run([]))) == CommandsIn(Arrivals([])) && Numbered(Ever(Run([])))
  {
  }

  lemma {:induction false} CommandsOfPrefix(a: seq<Message>, b: seq<Message>)
    ensures Commands(a) <= Commands(a + b)
    decreases |b|
  {
    if b == [] {
      assert a + b == a;
    } else {
      CommandsOfPrefix(a, b[..|b| - 1]);
      assert (a + b)[..|a + b| - 1] == a + b[..|b| - 1];
    }
  }

  // The queue of the system, and its two methods.

  /** struct msg_st */
  class MessageBuffer {
    var kind: int
    var number: int
    var len: int
    const json: array<byte>

    constructor ()
      ensures fresh(json) && json.Length == MAX_TEXT
    {
      json := new byte[MAX_TEXT];
    }
  }

  /** A message inside the system's queue: its type and the bytes that travel. */
  datatype Entry = Entry(kind: int, text: bytes)

  function Shown(e: Entry): Message
    requires |e.text| == MAX_TEXT
  {
    var len := Int32At(e.text, 4);
    Message(e.kind, Int32At(e.text, 0), if 0 <= len <= BODY_LIMIT then e.text[8..8 + len] else e.text[8..])
  }

  predicate AllWhole(entries: seq<Entry>) {
    forall i :: 0 <= i < |entries| ==> |entries[i].text| == MAX_TEXT
  }

  function ShownAll(entries: seq<Entry>): (r: seq<Message>)
    requires AllWhole(entries)
    ensures |r| == |entries|
    ensures forall i :: 0 <= i < |entries| ==> r[i] == Shown(entries[i])
  {
    if entries == [] then [] else [Shown(entries[0])] + ShownAll(entries[1..])
  }

  lemma ShownEntry(kind: int, number: int, len: int, json: bytes)
    requires INT_MIN <= number <= INT_MAX && 0 <= len <= INT_MAX && |json| == BODY_LIMIT
    ensures Shown(Entry(kind, Le32(number) + Le32(len) + json))
         == Message(kind, number, json[..if len <= BODY_LIMIT then len else BODY_LIMIT])
  {
    hide Le32, Int32;
    var text := Le32(number) + Le32(len) + json;
    Le32ThenInt32(number);
    Le32ThenInt32(len);
    assert text[..4] == Le32(number) && text[4..8] == Le32(len) && text[8..] == json;
  }

  lemma ShownOneMore(entries: seq<Entry>, e: Entry)
    requires AllWhole(entries) && |e.text| == MAX_TEXT
    ensures AllWhole(entries + [e]) && ShownAll(entries + [e]) == ShownAll(entries) + [Shown(e)]
  {
    hide Shown;
  }

  /** The bytes that msgrcv stores behind the number and the length. */
  method CopyIn(text: bytes, json: array<byte>)
    requires |text| == MAX_TEXT == json.Length
    modifies json
    ensures json[..BODY_LIMIT] == text[8..]
  {
    for i := 0 to BODY_LIMIT
      invariant json[..i] == text[8..8 + i]
    {
      json[i] := text[8 + i];
    }
  }

  class MessageQueue {
    var seqId: int
    var entries: seq<Entry>
    ghost var taken: seq<Message>

    ghost predicate Valid()
      reads this
    {
      AllWhole(entries) && INT_MIN <= seqId <= INT_MAX
    }

    ghost function State(): Queue
      requires Valid()
      reads this
    {
      Queue(seqId, ShownAll(entries), taken)
    }

    constructor ()
      ensures Valid() && State() == Empty()
    {
      seqId, entries, taken := 1, [], [];
    }

    /** postMsgQueue: what lies behind the bytes that travel is cut off. */
    method PostMsgQueue(data: MessageBuffer)
      requires Valid() && seqId < INT_MAX
      requires data.json.Length == MAX_TEXT && 0 <= data.len <= INT_MAX
      modifies this, data`number
      ensures Valid() && data.number == old(seqId)
      ensures var n := if data.len <= BODY_LIMIT then data.len else BODY_LIMIT;
              State() == Posted(old(State()), data.kind, data.json[..n])
    {
      hide Shown, ShownAll, Le32;
      data.number := seqId;
      seqId := seqId + 1;
      var json := data.json[..BODY_LIMIT];
      var text := Le32(data.number) + Le32(data.len) + json;
      ghost var n := if data.len <= BODY_LIMIT then data.len else BODY_LIMIT;
      assert data.json[..n] == json[..n];
      ShownEntry(data.kind, data.number, data.len, json);
      ShownOneMore(entries, Entry(data.kind, text));
      entries := entries + [Entry(data.kind, text)];
    }

    /** getMsgQueue; null stands for a queue with nothing in it. */
    method GetMsgQueue() returns (data: MessageBuffer?)
      requires Valid()
      modifies this`entries, this`taken
      ensures Valid() && State() == Taken(old(State()))
      ensures data == null <==> old(entries) == []
      ensures data != null ==>
                fresh(data) && fresh(data.json) && data.json.Length == MAX_TEXT
                && var m := old(State()).pending[0];
                   data.kind == m.kind && data.number == m.number
                   && data.json[..|m.body|] == m.body
                   && (0 <= data.len <= BODY_LIMIT ==> |m.body| == data.len)
    {
      if entries == [] {
        return null;
      }
      data := new MessageBuffer();
      var e := entries[0];
      data.kind, data.number, data.len := e.kind, Int32At(e.text, 0), Int32At(e.text, 4);
      CopyIn(e.text, data.json);
      ghost var m := Shown(e);
      assert data.json[..|m.body|] == data.json[..BODY_LIMIT][..|m.body|];
      taken := taken + [Shown(e)];
      entries := entries[1..];
    }
  }
}
