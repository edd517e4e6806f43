/** receive: whatever chunks the socket delivers, the frames come out as if the stream had
    been taken apart in one go. */
module Receiving {
  import opened Bytes
  import opened Framing
  import opened Messages

  /** BUFFER_SIZE, where a chunk lands in the buffer, and so the longest chunk. */
  const BUFFER_SIZE: nat := 2560 * 4
  const CHUNK_START: nat := TAIL_LIMIT
  const CHUNK_LIMIT: nat := BUFFER_SIZE - CHUNK_START

  class Receiver {
    const recvbuf: array<byte>
    /** gMoreData_: how many bytes below CHUNK_START are an unfinished frame */
    var more: nat
    const queue: MessageQueue
    /** Everything received so far, and the frames given to processMessage. */
    ghost var stream: bytes
    ghost var delivered: seq<Frame>

    /** The frames given out and the bytes kept are those of the stream. */
    ghost predicate Holding()
      reads this, recvbuf
    {
      && recvbuf.Length == BUFFER_SIZE && more <= TAIL_LIMIT
      && Good(stream)
      && Split(stream) == Parts(delivered, recvbuf[CHUNK_START - more..CHUNK_START])
    }

    ghost predicate Valid()
      reads this, recvbuf, queue
    {
      Holding() && queue.Valid()
    }

    constructor (queue: MessageQueue)
      requires queue.Valid()
      ensures Valid() && stream == [] && delivered == [] && this.queue == queue && fresh(recvbuf)
    {
      this.queue, more := queue, 0;
      recvbuf := new byte[BUFFER_SIZE];
      stream, delivered := [], [];
    }

    /** postMsg, for a message whose body lies in the receive buffer. */
    method PostMsg(kind: int, from: nat, len: nat)
      requires queue.Valid() && queue.seqId < INT_MAX
      requires from + len <= recvbuf.Length && len <= BODY_LIMIT
      modifies queue
      ensures queue.Valid() && queue.seqId == old(queue.seqId) + 1
      ensures queue.State() == Posted(old(queue.State()), kind, recvbuf[from..from + len])
    {
      var data := new MessageBuffer();
      data.kind, data.number, data.len := kind, kind, len;
      CopyBody(recvbuf, from, data.json, len);
      queue.PostMsgQueue(data);
    }

    /** processMessage: `start` is where the frame's length field lies. */
    method ProcessMessage(start: nat, length: int)
      requires queue.Valid() && queue.seqId < INT_MAX
      requires 4 <= length <= LENGTH_LIMIT && start + 4 + length <= recvbuf.Length
      modifies queue
      ensures queue.Valid() && queue.seqId <= old(queue.seqId) + 1
      ensures queue.State()
           == Processed(
                old(queue.State()),
                Frame(Int32At(recvbuf[..], start + 4), recvbuf[start + 8..start + 4 + length]))
    {
      hide *;
      var kind := Int32(recvbuf[start + 4], recvbuf[start + 5], recvbuf[start + 6], recvbuf[start + 7]);
      var json := start + 8;
      BodiesTravelWhole();
      KindInBuffer(recvbuf, start + 4);
      ProcessedCases(queue.State(), Frame(kind, recvbuf[json..json + (length - 4)]));
      assert recvbuf[json..json] == [];
      if kind == 99 {
        PostMsg(MSG_RECEIVED_HEART_BEAT, json, 0);
      } else if kind == 4 {
        PostMsg(MSG_START_CONSTELLATION, json, 0);
      } else if kind == 5 {
        PostMsg(MSG_STOP_CONSTELLATION, json, 0);
      } else if kind == 7 {
        PostMsg(MSG_START_CSI, json, 0);
      } else if kind == 8 {
        PostMsg(MSG_STOP_CSI, json, 0);
      } else if kind == 1 {
        PostMsg(MSG_INQUIRY_STATE, json, length - 4);
      } else if kind == 2 {
        PostMsg(MSG_RSSI_STATE_CHANGE, json, length - 4);
      } else if kind == 22 {
        PostMsg(MSG_RF_MF_STATE, json, 0);
      }
    }

    /** The copy of the unfinished frame to just below CHUNK_START. It goes forward, byte by
        byte, and never reads a byte that it has written: the source is above the target. */
    method KeepTail(start: nat, n: nat)
      requires recvbuf.Length == BUFFER_SIZE && n <= TAIL_LIMIT
      requires CHUNK_START - n <= start && start + n <= BUFFER_SIZE
      modifies recvbuf
      ensures recvbuf[CHUNK_START - n..CHUNK_START] == old(recvbuf[start..start + n])
    {
      var target := CHUNK_START - n;
      ghost var was := recvbuf[..];
      for i := 0 to n
        invariant recvbuf[target..target + i] == was[start..start + i]
        invariant recvbuf[start + i..] == was[start + i..]
      {
        recvbuf[target + i] := recvbuf[start + i];
      }
    }

    /** recv: the chunk lands at CHUNK_START. */
    method Recv(chunk: bytes)
      requires recvbuf.Length == BUFFER_SIZE && |chunk| <= CHUNK_LIMIT
      modifies recvbuf
      ensures recvbuf[..CHUNK_START] == old(recvbuf[..CHUNK_START])
      ensures recvbuf[CHUNK_START..CHUNK_START + |chunk|] == chunk
    {
      for i := 0 to |chunk|
        invariant recvbuf[..CHUNK_START] == old(recvbuf[..CHUNK_START])
        invariant recvbuf[CHUNK_START..CHUNK_START + i] == chunk[..i]
      {
        recvbuf[CHUNK_START + i] := chunk[i];
      }
    }

    /** The loop of receive: one whole frame after the other, from `start` on. Gives back
        where the unfinished frame lies. */
    method TakeFrames(from: nat, total: nat) returns (start: nat, left: nat)
      requires queue.Valid() && recvbuf.Length == BUFFER_SIZE && from + total <= BUFFER_SIZE
      requires Good(recvbuf[from..from + total]) && queue.seqId + total <= INT_MAX
      modifies queue, this`delivered
      ensures queue.Valid() && start + left == from + total && from <= start
      ensures queue.seqId + left <= old(queue.seqId) + total
      ensures var parts := Split(recvbuf[from..from + total]);
              recvbuf[start..start + left] == parts.rest
              && delivered == old(delivered) + parts.frames
              && queue.State() == ProcessedAll(old(queue.State()), parts.frames)
    {
      hide *;
      start, left := from, total;
      ghost var frames := [];
      ghost var parts := Split(recvbuf[from..from + total]);
      NothingDone(parts, queue.State());
      while true
        invariant queue.Valid() && queue.seqId + left <= old(queue.seqId) + total
        invariant start + left == from + total && from <= start
        invariant Good(recvbuf[start..start + left])
        invariant parts == Prepend(frames, Split(recvbuf[start..start + left]))
        invariant delivered == old(delivered) + frames
        invariant queue.State() == ProcessedAll(old(queue.State()), frames)
        decreases left
      {
        ghost var s := recvbuf[start..start + left];
        LookAt(recvbuf, start, left);
        if left <= 4 {
          break;
        }
        var length := Int32(recvbuf[start], recvbuf[start + 1], recvbuf[start + 2], recvbuf[start + 3]);
        if left < length + 4 {
          break;
        }
        ProcessMessage(start, length);
        OneMoreFrame(frames, First(s), Split(Rest(s)), old(queue.State()));
        frames := frames + [First(s)];
        delivered := delivered + [First(s)];
        start := start + length + 4;
        left := left - length - 4;
        if left == 0 {
          Nothing();
          break;
        }
      }
      AtTheEnd(frames, recvbuf[start..start + left]);
    }

    /** receive; an empty chunk stands for a recv that brings nothing. */
    method Receive(chunk: bytes)
      requires Valid() && |chunk| <= CHUNK_LIMIT && Good(stream + chunk)
      requires queue.seqId + more + |chunk| <= INT_MAX
      modifies this, recvbuf, queue
      ensures Valid() && stream == old(stream) + chunk
      ensures queue.seqId + more <= old(queue.seqId + more) + |chunk|
      ensures var arrived := Split(old(recvbuf[CHUNK_START - more..CHUNK_START]) + chunk).frames;
              delivered == old(delivered) + arrived
              && queue.State() == ProcessedAll(old(queue.State()), arrived)
    {
      hide Split, Good, ProcessedAll, Processed, Complete, MessageQueue.State, MessageQueue.Valid;
      ghost var tail := recvbuf[CHUNK_START - more..CHUNK_START];
      SplitInTwo(stream, chunk);
      stream := stream + chunk;
      if |chunk| == 0 {
        NothingNew(tail, old(stream), queue.State());
        return;
      }
      Recv(chunk);
      assert recvbuf[CHUNK_START - more..CHUNK_START + |chunk|] == tail + chunk;
      var start, left := TakeFrames(CHUNK_START - more, |chunk| + more);
      RestIsShort(stream);
      more := left;
      if more > 0 {
        KeepTail(start, more);
      }
    }
  
    /** receive_thread over a whole connection: whatever the chunks, the frames posted are
        those of the stream taken apart in one go, and then the end of the thread. */
    method ReceiveThread(chunks: seq<bytes>)
      requires Valid() && stream == []
      requires forall i :: 0 <= i < |chunks| ==> |chunks[i]| <= CHUNK_LIMIT
      requires Good(Concat(chunks)) && queue.seqId + |Concat(chunks)| < INT_MAX
      modifies this, recvbuf, queue
      ensures queue.Valid() && delivered == Split(Concat(chunks)).frames
      ensures queue.State()
           == Posted(ProcessedAll(old(queue.State()), delivered), MSG_RECEIVE_THREAD_CLOSED, [])
    {
      hide Split, Good, ProcessedAll, Posted;
      NothingReceived(queue.State());
      var i := 0;
      while i < |chunks|
        invariant i <= |chunks| && Valid() && stream == Concat(chunks[..i])
        invariant queue.seqId + more <= old(queue.seqId) + |stream|
        invariant queue.State() == ProcessedAll(old(queue.State()), delivered)
      {
        ConcatStep(chunks, i);
        SplitInTwo(Concat(chunks[..i + 1]), Concat(chunks[i + 1..]));
        ghost var before := delivered;
        Receive(chunks[i]);
        ProcessedInTwo(old(queue.State()), before, delivered[|before|..]);
        i := i + 1;
      }
      assert chunks[..i] == chunks;
      assert recvbuf[0..0] == [];
      PostMsg(MSG_RECEIVE_THREAD_CLOSED, 0, 0);
    }
  }

  function Concat(chunks: seq<bytes>): bytes {
    if chunks == [] then [] else Concat(chunks[..|chunks| - 1]) + chunks[|chunks| - 1]
  }

  lemma {:induction false} ConcatInTwo(a: seq<bytes>, b: seq<bytes>)
    ensures Concat(a + b) == Concat(a) + Concat(b)
    decreases |b|
  {
    if b == [] {
      assert a + b == a;
    } else {
      var before, last := b[..|b| - 1], b[|b| - 1];
      assert (a + b)[..|a + b| - 1] == a + before;
      ConcatInTwo(a, before);
      assert Concat(a) + Concat(before) + last == Concat(a) + (Concat(before) + last);
    }
  }

  lemma ConcatStep(chunks: seq<bytes>, i: nat)
    requires i < |chunks|
    ensures Concat(chunks[..i + 1]) == Concat(chunks[..i]) + chunks[i]
    ensures Concat(chunks) == Concat(chunks[..i + 1]) + Concat(chunks[i + 1..])
    ensures |Concat(chunks[..i + 1])| <= |Concat(chunks)|
  {
    assert chunks[..i + 1][..i] == chunks[..i];
    assert chunks[..i + 1] + chunks[i + 1..] == chunks;
    ConcatInTwo(chunks[..i + 1], chunks[i + 1..]);
  }

  /** From the client's frames to the event loop: however the receive thread, the other
      threads and the event loop take turns, once the queue is drained the loop has had
      every command exactly once, in the order of the stream, with its body. */
  lemma CommandsReachTheEventLoop(frames: seq<Frame>, last: Frame, p: bytes, events: seq<Event>)
    requires AllSendable(frames) && forall i :: 0 <= i < |frames| ==> Acceptable(frames[i])
    requires Acceptable(last) && Truncated(last, p)
    requires Arrivals(events) == Split(EncodeAll(frames) + p).frames
    requires OthersPostNoCommand(events)
    ensures Good(EncodeAll(frames) + p)
    ensures Commands(Run(events).taken) <= CommandsIn(frames)
    ensures Run(events).pending == [] ==> Commands(Run(events).taken) == CommandsIn(frames)
    ensures Numbered(Run(events).taken)
  {
    hide Split, Good, Run, Commands, CommandsIn, Arrivals, Truncated, Encode;
    EncodedIsGood(frames, last, p);
    TruncatedIsIncomplete(last, p);
    SplitUndoesEncode(frames, p);
    CommandsAreDelivered(events);
    var q := Run(events);
    assert forall i :: 0 <= i < |q.taken| ==> q.taken[i] == Ever(q)[i];
  }

  /** memcpy into a message. */
  method CopyBody(from: array<byte>, start: nat, to: array<byte>, len: nat)
    requires from != to && start + len <= from.Length && len <= to.Length
    modifies to
    ensures to[..len] == from[start..start + len]
  {
    for i := 0 to len
      invariant to[..i] == from[start..start + i]
    {
      to[i] := from[start + i];
    }
  }

  function Prepend(frames: seq<Frame>, p: Parts): Parts {
    Parts(frames + p.frames, p.rest)
  }

  lemma NothingDone(p: Parts, q: Queue)
    ensures Prepend([], p) == p && ProcessedAll(q, []) == q
  {
  }

  lemma BodiesTravelWhole()
    ensures LENGTH_LIMIT <= BODY_LIMIT
  {
  }

  lemma KindInBuffer(buf: array<byte>, i: nat)
    requires i + 4 <= buf.Length
    ensures Int32At(buf[..], i) == Int32(buf[i], buf[i + 1], buf[i + 2], buf[i + 3])
  {
    hide Int32;
  }

  lemma ProcessedCases(q: Queue, f: Frame)
    ensures f.kind == 99 ==> Processed(q, f) == Posted(q, MSG_RECEIVED_HEART_BEAT, [])
    ensures f.kind == 4 ==> Processed(q, f) == Posted(q, MSG_START_CONSTELLATION, [])
    ensures f.kind == 5 ==> Processed(q, f) == Posted(q, MSG_STOP_CONSTELLATION, [])
    ensures f.kind == 7 ==> Processed(q, f) == Posted(q, MSG_START_CSI, [])
    ensures f.kind == 8 ==> Processed(q, f) == Posted(q, MSG_STOP_CSI, [])
    ensures f.kind == 1 ==> Processed(q, f) == Posted(q, MSG_INQUIRY_STATE, f.body)
    ensures f.kind == 2 ==> Processed(q, f) == Posted(q, MSG_RSSI_STATE_CHANGE, f.body)
    ensures f.kind == 22 ==> Processed(q, f) == Posted(q, MSG_RF_MF_STATE, [])
    ensures f.kind !in {99, 4, 5, 7, 8, 1, 2, 22} ==> Processed(q, f) == q
  {
    hide Posted;
  }

  lemma NothingReceived(q: Queue)
    ensures Split([]) == Parts([], []) && ProcessedAll(q, []) == q
  {
  }

  lemma OneMoreFrame(frames: seq<Frame>, f: Frame, p: Parts, q: Queue)
    ensures Prepend(frames, Parts([f] + p.frames, p.rest)) == Prepend(frames + [f], p)
    ensures ProcessedAll(q, frames + [f]) == Processed(ProcessedAll(q, frames), f)
  {
    hide Processed;
    assert (frames + [f])[..|frames|] == frames;
    assert frames + ([f] + p.frames) == frames + [f] + p.frames;
  }

  lemma GoodStep(s: bytes)
    requires Good(s)
    ensures Bounded(s)
    ensures Complete(s) ==> Good(Rest(s)) && Split(s) == Parts([First(s)] + Split(Rest(s)).frames, Split(Rest(s)).rest)
  {
  }

  lemma Nothing()
    ensures !Complete([])
  {
  }

  /** What the loop sees at `start`, with `left` bytes before it. */
  lemma LookAt(buf: array<byte>, start: nat, left: nat)
    requires start + left <= buf.Length && Good(buf[start..start + left])
    ensures var s := buf[start..start + left];
            (left <= 4 ==> !Complete(s))
            && (left > 4 ==>
                  var length := Int32(buf[start], buf[start + 1], buf[start + 2], buf[start + 3]);
                  4 <= length <= LENGTH_LIMIT
                  && (Complete(s) <==> left >= length + 4)
                  && (Complete(s) ==>
                        Good(Rest(s))
                        && Split(s) == Parts([First(s)] + Split(Rest(s)).frames, Split(Rest(s)).rest)
                        && First(s) == Frame(Int32At(buf[..], start + 4), buf[start + 8..start + 4 + length])
                        && Rest(s) == buf[start + length + 4..start + left]))
  {
    hide Split, Good, Int32, First, Rest;
    var s := buf[start..start + left];
    assert s == buf[..][start..start + left];
    GoodStep(s);
    if Complete(s) {
      FrameInBuffer(buf[..], start, left);
    }
  }

  lemma AtTheEnd(frames: seq<Frame>, s: bytes)
    requires !Complete(s)
    ensures Prepend(frames, Split(s)) == Parts(frames, s)
  {
  }

  lemma FrameInBuffer(buf: bytes, start: nat, left: nat)
    requires start + left <= |buf| && Complete(buf[start..start + left])
    ensures var s, length := buf[start..start + left], Int32At(buf, start);
            Length(s) == length
            && First(s) == Frame(Int32At(buf, start + 4), buf[start + 8..start + 4 + length])
            && Rest(s) == buf[start + length + 4..start + left]
  {
    hide Int32;
    var s := buf[start..start + left];
    SliceOfSlice(buf, start, start + left, 8, Length(s) + 4);
    SliceOfSlice(buf, start, start + left, Length(s) + 4, left);
  }

  /** A call that brings no bytes changes nothing. */
  lemma NothingNew(tail: bytes, stream: bytes, q: Queue)
    requires Good(stream) && Split(stream).rest == tail
    ensures Split(tail + []) == Parts([], tail) && stream + [] == stream
    ensures ProcessedAll(q, []) == q
  {
    hide Good, Split;
    assert tail + [] == tail && stream + [] == stream;
    RestIsIncomplete(stream);
    AtTheEnd([], tail);
  }

  lemma {:induction false} RestIsIncomplete(s: bytes)
    ensures !Complete(Split(s).rest)
    decreases |s|
  {
    if Complete(s) {
      RestIsIncomplete(Rest(s));
    }
  }
}
