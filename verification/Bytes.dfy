/** Bytes, C strings, and the two result types every other module uses. */
module Bytes {
  type byte = b: int | 0 <= b < 0x100
  type bytes = seq<byte>

  datatype Option<+T> = None | Some(value: T)

  /** The outcome of reading from a text: a value and the offset after it, or the
      offset at which reading gave up. */
  datatype Outcome<+T> = Ok(value: T, next: nat) | Fail(at: nat)

  const NUL: byte := 0x00
  const TAB: byte := 0x09
  const LF: byte := 0x0A
  const CR: byte := 0x0D
  const SPACE: byte := 0x20
  const QUOTE: byte := 0x22
  const PLUS: byte := 0x2B
  const COMMA: byte := 0x2C
  const MINUS: byte := 0x2D
  const DOT: byte := 0x2E
  const SLASH: byte := 0x2F
  const STAR: byte := 0x2A
  const ZERO: byte := 0x30
  const NINE: byte := 0x39
  const COLON: byte := 0x3A
  const LBRACKET: byte := 0x5B
  const BACKSLASH: byte := 0x5C
  const RBRACKET: byte := 0x5D
  const LBRACE: byte := 0x7B
  const RBRACE: byte := 0x7D

  // The bounds of the target's 32-bit int.
  const INT_MAX: int := 0x7FFF_FFFF
  const INT_MIN: int := -0x8000_0000

  const NULL_TEXT: bytes := [0x6E, 0x75, 0x6C, 0x6C]
  const TRUE_TEXT: bytes := [0x74, 0x72, 0x75, 0x65]
  const FALSE_TEXT: bytes := [0x66, 0x61, 0x6C, 0x73, 0x65]

  /** The buffer of a C string: NUL at the end. */
  predicate Terminated(s: bytes) {
    |s| > 0 && s[|s| - 1] == NUL
  }

  ghost predicate AllBlank(t: bytes) {
    forall k :: 0 <= k < |t| ==> t[k] <= 32
  }

  /** No byte of `s` is NUL, so `s + [NUL]` is the C string with content `s`. */
  predicate NulFree(s: bytes) {
    forall k :: 0 <= k < |s| ==> s[k] != NUL
  }

  lemma NulFreeConcat(a: bytes, b: bytes)
    ensures NulFree(a + b) <==> NulFree(a) && NulFree(b)
  {
    if NulFree(a + b) {
      assert forall k :: 0 <= k < |a| ==> a[k] == (a + b)[k];
      assert forall k :: 0 <= k < |b| ==> b[k] == (a + b)[|a| + k];
    }
  }

  /** The buffer of a C string with nothing after its terminator. */
  predicate CString(s: bytes) {
    Terminated(s) && NulFree(s[..|s| - 1])
  }

  /** What a reader of the C string in `s` sees: the bytes before the first NUL. */
  function UpToNul(s: bytes): (r: bytes)
    ensures NulFree(r)
    ensures r <= s
    ensures |r| < |s| ==> s[|r|] == NUL
  {
    if s == [] || s[0] == NUL then [] else [s[0]] + UpToNul(s[1..])
  }

  lemma UpToNulOfNulFree(s: bytes)
    requires NulFree(s)
    ensures UpToNul(s) == s
  {
    if s != [] {
      assert s[0] != NUL;
      UpToNulOfNulFree(s[1..]);
    }
  }

  /** The text `t` stands in `s` at offset `i`. */
  predicate At(s: bytes, i: int, t: bytes)
    decreases |t|
  {
    0 <= i && i + |t| <= |s| && (t == [] || (s[i] == t[0] && At(s, i + 1, t[1..])))
  }

  lemma AtSlice(s: bytes, i: nat, t: bytes)
    requires i + |t| <= |s|
    ensures At(s, i, t) <==> s[i..i + |t|] == t
    decreases |t|
  {
    if t != [] {
      AtSlice(s, i + 1, t[1..]);
      HeadAndTail(t);
      assert s[i..i + |t|] == [s[i]] + s[i + 1..i + |t|];
      assert s[i..i + |t|][1..] == s[i + 1..i + |t|];
    }
  }

  lemma AtSplit(s: bytes, i: int, a: bytes, b: bytes)
    requires At(s, i, a + b)
    ensures At(s, i, a) && At(s, i + |a|, b)
    decreases |a|
  {
    if a == [] {
      assert a + b == b;
    } else {
      assert (a + b)[1..] == a[1..] + b;
      AtSplit(s, i + 1, a[1..], b);
    }
  }

  lemma AtJoin(s: bytes, i: int, a: bytes, b: bytes)
    requires At(s, i, a) && At(s, i + |a|, b)
    ensures At(s, i, a + b)
    decreases |a|
  {
    if a == [] {
      assert a + b == b;
    } else {
      assert (a + b)[1..] == a[1..] + b;
      AtJoin(s, i + 1, a[1..], b);
    }
  }

  lemma AtTail(s: bytes, i: int, t: bytes, k: nat)
    requires At(s, i, t) && k <= |t|
    ensures At(s, i + k, t[k..])
  {
    assert t == t[..k] + t[k..];
    AtSplit(s, i, t[..k], t[k..]);
  }

  lemma AtByte(s: bytes, i: int, t: bytes, k: nat)
    requires At(s, i, t) && k < |t|
    ensures s[i + k] == t[k]
  {
    AtTail(s, i, t, k);
  }

  lemma SliceOfSlice(s: bytes, i: nat, j: nat, from: nat, to: nat)
    requires i <= j <= |s| && from <= to <= j - i
    ensures s[i..j][from..to] == s[i + from..i + to]
  {
    assert forall k :: 0 <= k < to - from ==>
        s[i..j][from..to][k] == s[i..j][from + k] == s[i + from + k] == s[i + from..i + to][k];
  }

  lemma HeadAndTail<T>(a: seq<T>)
    requires a != []
    ensures [a[0]] + a[1..] == a
  {
  }
}
