/** The frames on the TCP stream: a length, a message type and a body. Both numbers are
    32-bit little-endian; the length counts the type and the body. */
module Framing {
  import opened Bytes

  datatype Frame = Frame(kind: int, body: bytes)

  /** The frames at the start of a stream, and the bytes behind the last of them. */
  datatype Parts = Parts(frames: seq<Frame>, rest: bytes)

  /** The longest length field, and the longest unfinished frame that fits in front of the
      place where the next chunk lands. */
  const LENGTH_LIMIT: nat := 1997
  const TAIL_LIMIT: nat := 2000

  function Int32(b0: byte, b1: byte, b2: byte, b3: byte): (n: int)
    ensures INT_MIN <= n <= INT_MAX
  {
    var u := b0 + 0x100 * (b1 + 0x100 * (b2 + 0x100 * b3));
    if u > INT_MAX then u - 0x1_0000_0000 else u
  }

  function Int32At(s: bytes, i: nat): (n: int)
    requires i + 4 <= |s|
    ensures INT_MIN <= n <= INT_MAX
  {
    Int32(s[i], s[i + 1], s[i + 2], s[i + 3])
  }

  function Le32(n: int): (b: bytes)
    requires INT_MIN <= n <= INT_MAX
    ensures |b| == 4
  {
    var u := if n < 0 then n + 0x1_0000_0000 else n;
    [u % 0x100, u / 0x100 % 0x100, u / 0x1_0000 % 0x100, u / 0x100_0000]
  }

  lemma Le32ThenInt32(n: int)
    requires INT_MIN <= n <= INT_MAX
    ensures Int32At(Le32(n), 0) == n
  {
    var u := if n < 0 then n + 0x1_0000_0000 else n;
    assert u / 0x1_0000 == u / 0x100 / 0x100 && u / 0x100_0000 == u / 0x100 / 0x100 / 0x100;
  }

  /** Is there a length field to look at, and what does it say? */
  predicate Examined(s: bytes) {
    |s| > 4
  }

  function Length(s: bytes): int
    requires Examined(s)
  {
    Int32At(s, 0)
  }

  predicate Bounded(s: bytes) {
    Examined(s) ==> 4 <= Length(s) <= LENGTH_LIMIT
  }

  /** A whole frame stands at the start of `s`. */
  predicate Complete(s: bytes) {
    Examined(s) && 4 <= Length(s) <= |s| - 4
  }

  function First(s: bytes): Frame
    requires Complete(s)
  {
    Frame(Int32At(s, 4), s[8..Length(s) + 4])
  }

  function Rest(s: bytes): (r: bytes)
    requires Complete(s)
    ensures |r| < |s|
  {
    s[Length(s) + 4..]
  }

  /** The stream taken apart in one go. */
  function Split(s: bytes): Parts {
    if Complete(s) then
      var tail := Split(Rest(s));
      Parts([First(s)] + tail.frames, tail.rest)
    else
      Parts([], s)
  }

  /** Every length field that the receiver will look at is within the bounds. */
  predicate Good(s: bytes) {
    Bounded(s) && (Complete(s) ==> Good(Rest(s)))
  }

  /** An unfinished frame is short enough to be kept. */
  lemma {:induction false} RestIsShort(s: bytes)
    requires Good(s)
    ensures |Split(s).rest| <= TAIL_LIMIT
    decreases |s|
  {
    if Complete(s) {
      RestIsShort(Rest(s));
    }
  }

  lemma CompletePrefix(a: bytes, b: bytes)
    requires Complete(a)
    ensures Complete(a + b) && First(a + b) == First(a) && Rest(a + b) == Rest(a) + b
  {
    assert (a + b)[..|a|] == a;
    assert (a + b)[8..Length(a) + 4] == a[8..Length(a) + 4];
  }

  /** Cutting the stream anywhere and keeping the unfinished frame loses nothing. */
  lemma {:induction false} SplitInTwo(a: bytes, b: bytes)
    requires Good(a + b)
    ensures Good(a) && Good(Split(a).rest + b)
    ensures Split(a + b)
         == var p := Split(a); var q := Split(p.rest + b); Parts(p.frames + q.frames, q.rest)
    decreases |a|
  {
    hide Length, First, Rest;
    SameLength(a, b);
    if Complete(a) {
      CompletePrefix(a, b);
      SplitInTwo(Rest(a), b);
      var p := Split(Rest(a));
      var q := Split(p.rest + b);
      assert [First(a)] + (p.frames + q.frames) == [First(a)] + p.frames + q.frames;
    }
  }

  lemma SameLength(a: bytes, b: bytes)
    requires Good(a + b)
    ensures Bounded(a)
  {
    if Examined(a) {
      assert (a + b)[..4] == a[..4];
    }
  }

  // The sender's side.

  predicate Sendable(f: Frame) {
    INT_MIN <= f.kind <= INT_MAX && 4 + |f.body| <= INT_MAX
  }

  function Encode(f: Frame): bytes
    requires Sendable(f)
  {
    Le32(4 + |f.body|) + Le32(f.kind) + f.body
  }

  lemma EncodedLength(f: Frame)
    requires Sendable(f)
    ensures |Encode(f)| == |f.body| + 8
  {
  }

  predicate AllSendable(frames: seq<Frame>) {
    forall i :: 0 <= i < |frames| ==> Sendable(frames[i])
  }

  function EncodeAll(frames: seq<Frame>): bytes
    requires AllSendable(frames)
  {
    if frames == [] then [] else Encode(frames[0]) + EncodeAll(frames[1..])
  }

  lemma {:induction false} EncodeAllAppend(frames: seq<Frame>, f: Frame)
    requires AllSendable(frames) && Sendable(f)
    ensures AllSendable(frames + [f]) && EncodeAll(frames + [f]) == EncodeAll(frames) + Encode(f)
    decreases |frames|
  {
    hide Encode, Sendable;
    if frames == [] {
      assert frames + [f] == [f] && [f][1..] == [];
      assert EncodeAll([f]) == Encode(f) + EncodeAll([]);
      assert EncodeAll(frames) + Encode(f) == Encode(f);
    } else {
      assert (frames + [f])[1..] == frames[1..] + [f];
      EncodeAllAppend(frames[1..], f);
    }
  }

  lemma EncodeFirst(f: Frame, s: bytes)
    requires Sendable(f)
    ensures Complete(Encode(f) + s) && First(Encode(f) + s) == f && Rest(Encode(f) + s) == s
    ensures Length(Encode(f) + s) == 4 + |f.body|
  {
    var t := Encode(f) + s;
    Le32ThenInt32(4 + |f.body|);
    Le32ThenInt32(f.kind);
    assert t[..4] == Le32(4 + |f.body|);
    assert t[4..8] == Le32(f.kind);
    assert t[8..8 + |f.body|] == f.body;
    assert t[8 + |f.body|..] == s;
  }

  /** A beginning of an encoded frame, short of its end. */
  predicate Truncated(f: Frame, p: bytes)
    requires Sendable(f)
  {
    p < Encode(f)
  }

  lemma TruncatedIsIncomplete(f: Frame, p: bytes)
    requires Sendable(f) && Truncated(f, p)
    ensures !Complete(p)
  {
    if Examined(p) {
      var e := Encode(f);
      assert e + [] == e;
      EncodeFirst(f, []);
      assert p[..4] == e[..4];
    }
  }

  /** Taking apart undoes encoding, up to a last frame that was cut short. */
  lemma {:induction false} SplitUndoesEncode(frames: seq<Frame>, p: bytes)
    requires AllSendable(frames) && !Complete(p)
    ensures Split(EncodeAll(frames) + p) == Parts(frames, p)
    decreases |frames|
  {
    hide Encode, First, Rest, Complete, Sendable;
    if frames == [] {
      assert EncodeAll(frames) + p == p;
    } else {
      var s := EncodeAll(frames[1..]) + p;
      assert EncodeAll(frames) + p == Encode(frames[0]) + s;
      EncodeFirst(frames[0], s);
      SplitUndoesEncode(frames[1..], p);
    }
  }

  lemma Int32ThenLe32(b: bytes)
    requires |b| == 4
    ensures Le32(Int32At(b, 0)) == b
  {
    var b0: int, b1: int, b2: int, b3: int := b[0], b[1], b[2], b[3];
    var n := b0 + 0x100 * (b1 + 0x100 * (b2 + 0x100 * b3));
    assert n / 0x100 == b1 + 0x100 * (b2 + 0x100 * b3);
    assert n / 0x1_0000 == n / 0x100 / 0x100 == b2 + 0x100 * b3;
    assert n / 0x100_0000 == n / 0x1_0000 / 0x100 == b3;
  }

  lemma FirstEncoded(s: bytes)
    requires Complete(s)
    ensures Sendable(First(s)) && Encode(First(s)) + Rest(s) == s
  {
    hide Int32, Le32;
    var n := Length(s) + 4;
    assert s[..4] + s[4..8] + s[8..n] + s[n..] == s;
    Int32ThenLe32(s[..4]);
    Int32ThenLe32(s[4..8]);
  }

  /** Encoding undoes taking apart: no byte of a stream is lost. */
  lemma {:induction false} EncodeUndoesSplit(s: bytes)
    ensures AllSendable(Split(s).frames)
    ensures EncodeAll(Split(s).frames) + Split(s).rest == s
    decreases |s|
  {
    hide First, Rest, Encode, Sendable;
    if Complete(s) {
      FirstEncoded(s);
      EncodeUndoesSplit(Rest(s));
      var p := Split(Rest(s));
      assert Split(s).frames[1..] == p.frames;
      assert Encode(First(s)) + (EncodeAll(p.frames) + p.rest) == Encode(First(s)) + EncodeAll(p.frames) + p.rest;
    }
  }

  /** What a client may send: the length field is within the receiver's bounds. */
  predicate Acceptable(f: Frame) {
    Sendable(f) && 4 + |f.body| <= LENGTH_LIMIT
  }

  lemma TruncatedLength(f: Frame, p: bytes)
    requires Acceptable(f) && Truncated(f, p)
    ensures Good(p)
  {
    TruncatedIsIncomplete(f, p);
    if Examined(p) {
      var e := Encode(f);
      assert e + [] == e;
      EncodeFirst(f, []);
      assert p[..4] == e[..4];
    }
  }

  /** Streams of such frames, with the last one possibly cut short, are good. */
  lemma {:induction false} EncodedIsGood(frames: seq<Frame>, last: Frame, p: bytes)
    requires AllSendable(frames) && forall i :: 0 <= i < |frames| ==> Acceptable(frames[i])
    requires Acceptable(last) && Truncated(last, p)
    ensures Good(EncodeAll(frames) + p)
    decreases |frames|
  {
    hide Encode, First, Rest, Length, Truncated;
    if frames == [] {
      assert EncodeAll(frames) + p == p;
      TruncatedLength(last, p);
    } else {
      var s := EncodeAll(frames[1..]) + p;
      assert EncodeAll(frames) + p == Encode(frames[0]) + s;
      EncodeFirst(frames[0], s);
      EncodedIsGood(frames[1..], last, p);
    }
  }
}
