/** UTF-16 escapes and UTF-8 (section 3 of RFC 3629): parse_hex4 and
    utf16_literal_to_utf8 as functions, and why they are right. */
module Utf16 {
  import opened Bytes

  const LETTER_U: byte := 0x75

  function HexValue(b: byte): Option<nat> {
    if ZERO <= b <= NINE then Some(b - ZERO)
    else if 0x41 <= b <= 0x46 then Some(b - 0x41 + 10)
    else if 0x61 <= b <= 0x66 then Some(b - 0x61 + 10)
    else None
  }

  predicate HexDigits(t: bytes) {
    forall k :: 0 <= k < |t| ==> HexValue(t[k]).Some?
  }

  /** The number that hexadecimal digits denote, most significant first. */
  function HexNumber(t: bytes): nat
    requires HexDigits(t)
  {
    if t == [] then 0 else 16 * HexNumber(t[..|t| - 1]) + HexValue(t[|t| - 1]).value
  }

  /** parse_hex4: four hexadecimal digits, or 0 if one of them is none. */
  function ParseHex4(t: bytes): (h: nat)
    requires |t| == 4
    ensures h < 0x10000
  {
    if HexDigits(t) then
      HexNumberBound(t);
      HexNumber(t)
    else 0
  }

  lemma HexNumberStep(t: bytes, k: nat)
    requires HexDigits(t) && k < |t|
    ensures HexDigits(t[..k]) && HexDigits(t[..k + 1])
    ensures HexNumber(t[..k + 1]) == 16 * HexNumber(t[..k]) + HexValue(t[k]).value
    ensures HexValue(t[k]).value < 16
  {
    assert t[..k + 1][..k] == t[..k];
  }

  lemma HexNumberBound(t: bytes)
    requires HexDigits(t) && |t| == 4
    ensures HexNumber(t) < 0x10000
    ensures HexNumber(t) == ((HexValue(t[0]).value * 16 + HexValue(t[1]).value) * 16
                             + HexValue(t[2]).value) * 16 + HexValue(t[3]).value
  {
    hide HexNumber, HexDigits, HexValue;
    HexNumberStep(t, 0);
    HexNumberStep(t, 1);
    HexNumberStep(t, 2);
    HexNumberStep(t, 3);
    HexNumberOfNone();
    assert t[..0] == [];
    assert t[..4] == t;
  }

  lemma HexNumberOfNone()
    ensures HexNumber([]) == 0
  {
  }

  predicate HighSurrogate(u: nat) {
    0xD800 <= u <= 0xDBFF
  }

  predicate LowSurrogate(u: nat) {
    0xDC00 <= u <= 0xDFFF
  }

  /** The Unicode scalar values. */
  predicate IsScalar(c: nat) {
    c <= 0x10FFFF && !HighSurrogate(c) && !LowSurrogate(c)
  }

  /** The code point of a surrogate pair. */
  function PairValue(high: nat, low: nat): (c: nat)
    requires HighSurrogate(high) && LowSurrogate(low)
    ensures 0x10000 <= c <= 0x10FFFF
  {
    0x10000 + (high % 0x400 * 0x400 + low % 0x400)
  }

  /** The number of bytes utf16_literal_to_utf8 chooses for a code point. */
  function Utf8Length(c: nat): nat {
    if c < 0x80 then 1 else if c < 0x800 then 2 else if c < 0x10000 then 3 else 4
  }

  /** The mark that utf16_literal_to_utf8 puts in the first of `n` bytes. */
  function FirstByteMark(n: nat): nat {
    if n == 1 then 0 else if n == 2 then 0xC0 else if n == 3 then 0xE0 else 0xF0
  }

  function EncodeUtf8(c: nat): (t: bytes)
    requires c <= 0x10FFFF
    ensures |t| == Utf8Length(c)
  {
    if c < 0x80 then [c]
    else if c < 0x800 then [0xC0 + c / 0x40, 0x80 + c % 0x40]
    else if c < 0x10000 then [0xE0 + c / 0x1000, 0x80 + c / 0x40 % 0x40, 0x80 + c % 0x40]
    else [0xF0 + c / 0x40000, 0x80 + c / 0x1000 % 0x40, 0x80 + c / 0x40 % 0x40, 0x80 + c % 0x40]
  }

  /** What utf16_literal_to_utf8 reports: the length of the literal it used (0 for
      failure) and the bytes it wrote. */
  datatype Converted = Converted(consumed: nat, utf8: bytes)

  const REJECTED := Converted(0, [])

  /** utf16_literal_to_utf8 on the bytes from a backslash to the closing quote. */
  function ConvertLiteral(t: bytes): (r: Converted)
    ensures r.consumed <= |t| && r.consumed in {0, 6, 12}
    ensures 2 * |r.utf8| <= r.consumed
  {
    if |t| < 6 then REJECTED
    else
      var first := ParseHex4(t[2..6]);
      if LowSurrogate(first) then REJECTED
      else if HighSurrogate(first) then
        if |t| - 6 < 6 then REJECTED
        else if t[6] != BACKSLASH || t[7] != LETTER_U then REJECTED
        else
          var second := ParseHex4(t[8..12]);
          if !LowSurrogate(second) then REJECTED
          else Converted(12, EncodeUtf8(PairValue(first, second)))
      else Converted(6, EncodeUtf8(first))
  }

  predicate Continuation(b: byte) {
    0x80 <= b < 0xC0
  }

  /** The bits that a byte sequence of one of the four UTF-8 shapes carries, with no
      demand that the sequence be the shortest one. */
  function Utf8Bits(t: bytes): Option<nat> {
    if |t| == 1 && t[0] < 0x80 then Some(t[0])
    else if |t| == 2 && 0xC0 <= t[0] < 0xE0 && Continuation(t[1]) then
      Some(Append(Payload(t[0], 0xC0), t[1]))
    else if |t| == 3 && 0xE0 <= t[0] < 0xF0 && Continuation(t[1]) && Continuation(t[2]) then
      Some(Append(Append(Payload(t[0], 0xE0), t[1]), t[2]))
    else if |t| == 4 && 0xF0 <= t[0] < 0xF8 && Continuation(t[1]) && Continuation(t[2])
            && Continuation(t[3]) then
      Some(Append(Append(Append(Payload(t[0], 0xF0), t[1]), t[2]), t[3]))
    else None
  }

  function Payload(b: byte, mark: byte): nat
    requires mark <= b
  {
    b - mark
  }

  /** The bits so far, followed by the six of a continuation byte. */
  function Append(bits: nat, b: byte): (r: nat)
    requires Continuation(b)
    ensures r / 0x40 == bits && 0x80 + r % 0x40 == b
  {
    bits * 0x40 + Payload(b, 0x80)
  }

  /** The encoder writes the code point's bits in UTF-8 shape ... */
  lemma EncodingDecodes(c: nat)
    requires c <= 0x10FFFF
    ensures Utf8Bits(EncodeUtf8(c)) == Some(c)
  {
    assert c / 0x1000 == c / 0x40 / 0x40;
    assert c / 0x40000 == c / 0x1000 / 0x40;
  }

  /** ... and no sequence of UTF-8 shape for the same code point is shorter, nor is
      there another one of the same length. */
  lemma EncodingIsShortest(c: nat, t: bytes)
    requires c <= 0x10FFFF && Utf8Bits(t) == Some(c)
    ensures |EncodeUtf8(c)| <= |t|
    ensures |EncodeUtf8(c)| == |t| ==> EncodeUtf8(c) == t
  {
    assert c / 0x1000 == c / 0x40 / 0x40;
    assert c / 0x40000 == c / 0x1000 / 0x40;
  }

  /** A \u group with valid digits for a code unit outside the surrogates. */
  predicate Group(t: bytes) {
    |t| == 6 && t[0] == BACKSLASH && t[1] == LETTER_U && HexDigits(t[2..])
  }

  function GroupValue(t: bytes): nat
    requires Group(t)
  {
    HexNumber(t[2..])
  }

  lemma GroupParsed(t: bytes, rest: bytes)
    requires Group(t)
    ensures ParseHex4((t + rest)[2..6]) == GroupValue(t)
  {
    assert (t + rest)[2..6] == t[2..];
  }

  /** One group for a scalar value becomes that value's UTF-8. */
  lemma ScalarGroupConverts(t: bytes, rest: bytes)
    requires Group(t) && IsScalar(GroupValue(t))
    ensures ConvertLiteral(t + rest) == Converted(6, EncodeUtf8(GroupValue(t)))
    ensures Utf8Bits(ConvertLiteral(t + rest).utf8) == Some(GroupValue(t))
  {
    GroupParsed(t, rest);
    EncodingDecodes(GroupValue(t));
  }

  /** The surrogate pair of a scalar value beyond the basic plane. */
  function HighHalf(c: nat): nat
    requires 0x10000 <= c <= 0x10FFFF
  {
    0xD800 + (c - 0x10000) / 0x400
  }

  function LowHalf(c: nat): nat
    requires 0x10000 <= c <= 0x10FFFF
  {
    0xDC00 + (c - 0x10000) % 0x400
  }

  /** Two groups that hold a scalar value's surrogate pair become its UTF-8. */
  lemma SurrogatePairConverts(c: nat, high: bytes, low: bytes, rest: bytes)
    requires 0x10000 <= c <= 0x10FFFF
    requires Group(high) && GroupValue(high) == HighHalf(c)
    requires Group(low) && GroupValue(low) == LowHalf(c)
    ensures ConvertLiteral(high + low + rest) == Converted(12, EncodeUtf8(c))
    ensures Utf8Bits(ConvertLiteral(high + low + rest).utf8) == Some(c)
  {
    var t := high + low + rest;
    assert t == high + (low + rest);
    GroupParsed(high, low + rest);
    assert t[8..12] == low[2..];
    assert t[6] == low[0] && t[7] == low[1];
    PairOfHalves(c);
    EncodingDecodes(c);
  }

  lemma PairOfHalves(c: nat)
    requires 0x10000 <= c <= 0x10FFFF
    ensures HighSurrogate(HighHalf(c)) && LowSurrogate(LowHalf(c))
    ensures PairValue(HighHalf(c), LowHalf(c)) == c
  {
    assert HighHalf(c) % 0x400 == (c - 0x10000) / 0x400;
    assert LowHalf(c) % 0x400 == (c - 0x10000) % 0x400;
  }

  /** A group that holds half a pair is rejected unless it is a high half and the other
      half follows at once. */
  lemma LoneSurrogateRejected(t: bytes, rest: bytes)
    requires Group(t) && !IsScalar(GroupValue(t))
    requires LowSurrogate(GroupValue(t))
             || |rest| < 6 || !Group(rest[..6]) || !LowSurrogate(GroupValue(rest[..6]))
    ensures ConvertLiteral(t + rest) == REJECTED
  {
    GroupParsed(t, rest);
    HexNumberBound(t[2..]);
    if HighSurrogate(GroupValue(t)) && |rest| >= 6 {
      assert (t + rest)[6] == rest[0] && (t + rest)[7] == rest[1];
      assert (t + rest)[8..12] == rest[..6][2..];
    }
  }
}
