/** String literals: where they end, what they decode to, and why the sizing scan of
    parse_string reserves enough for its decoding loop. */
module Literal {
  import opened Bytes
  import opened Utf16
  import opened Rendering

  /** The offset of the closing quote, scanning from `j`; None if the buffer ends first. */
  function ScanEnd(s: bytes, j: nat): (e: Option<nat>)
    requires j <= |s|
    ensures e.Some? ==> j <= e.value < |s| && s[e.value] == QUOTE
    decreases |s| - j
  {
    if j == |s| then None
    else if s[j] == QUOTE then Some(j)
    else if s[j] == BACKSLASH then
      if j + 1 == |s| then None else ScanEnd(s, j + 2)
    else ScanEnd(s, j + 1)
  }

  /** The byte that a two-character escape stands for. */
  function SimpleEscape(c: byte): Option<byte> {
    if c == 0x62 then Some(0x08)
    else if c == 0x66 then Some(0x0C)
    else if c == 0x6E then Some(LF)
    else if c == 0x72 then Some(CR)
    else if c == 0x74 then Some(TAB)
    else if c == QUOTE || c == BACKSLASH || c == SLASH then Some(c)
    else None
  }

  datatype Decoded = Decoded(out: bytes) | Malformed(at: nat)
  {
    function Prepend(b: bytes): Decoded {
      if Malformed? then this else Decoded(b + out)
    }
  }

  /** The byte after a backslash. The closing quote follows the literal, so a backslash
      in the last place is read together with that quote. */
  function ByteAt(lit: bytes, q: nat): byte
    requires q <= |lit|
  {
    if q == |lit| then QUOTE else lit[q]
  }

  /** The decoding loop of parse_string from offset `q` of the bytes between the quotes. */
  function Decode(lit: bytes, q: nat): (r: Decoded)
    requires q <= |lit| + 1
    ensures r.Malformed? ==> q <= r.at < |lit|
    decreases |lit| + 1 - q
  {
    if q >= |lit| then Decoded([])
    else if lit[q] != BACKSLASH then Decode(lit, q + 1).Prepend([lit[q]])
    else
      var c := ByteAt(lit, q + 1);
      if SimpleEscape(c).Some? then Decode(lit, q + 2).Prepend([SimpleEscape(c).value])
      else if c == LETTER_U then
        var r := ConvertLiteral(lit[q..]);
        if r.consumed == 0 then Malformed(q) else Decode(lit, q + r.consumed).Prepend(r.utf8)
      else Malformed(q)
  }

  /** parse_string at offset `i`. */
  function ParseString(s: bytes, i: nat): (r: Outcome<bytes>)
    requires i < |s|
    ensures r.Ok? ==> i + 2 <= r.next <= |s| && s[i] == QUOTE && s[r.next - 1] == QUOTE
  {
    if s[i] != QUOTE then Fail(i + 1)
    else
      var e := ScanEnd(s, i + 1);
      if e.None? then Fail(i + 1)
      else
        match Decode(s[i + 1..e.value], 0)
        case Malformed(q) => Fail(i + 1 + q)
        case Decoded(out) => Ok(UpToNul(out), e.value + 1)
  }

  // ----- A literal means the same wherever it stands -----

  lemma ScanEndMoves(s: bytes, j: nat, e: nat, s': bytes, j': nat)
    requires j <= |s| && ScanEnd(s, j) == Some(e)
    requires At(s', j', s[j..e + 1])
    ensures ScanEnd(s', j') == Some(j' + (e - j))
    decreases |s| - j
  {
    assert s'[j'] == s[j..e + 1][0];
    if s[j] != QUOTE {
      var step := if s[j] == BACKSLASH then 2 else 1;
      AtTail(s', j', s[j..e + 1], step);
      assert s[j..e + 1][step..] == s[j + step..e + 1];
      ScanEndMoves(s, j + step, e, s', j' + step);
    }
  }

  lemma ParseStringMoves(s: bytes, i: nat, s': bytes, i': nat)
    requires i < |s| && i' < |s'|
    requires ParseString(s, i).Ok?
    requires At(s', i', s[i..ParseString(s, i).next])
    ensures ParseString(s', i') == Ok(ParseString(s, i).value, i' + (ParseString(s, i).next - i))
  {
    hide Decode, UpToNul, ScanEnd;
    var k := ParseString(s, i).next;
    var n := k - i;
    var literal := s[i..k];
    var inner := s[i + 1..k - 1];
    assert s'[i'] == literal[0] == QUOTE;
    AtTail(s', i', literal, 1);
    assert literal[1..] == s[i + 1..k] == inner + [QUOTE];
    ScanEndMoves(s, i + 1, k - 1, s', i' + 1);
    AtSplit(s', i' + 1, inner, [QUOTE]);
    AtSlice(s', i' + 1, inner);
  }

  // ----- Decoding undoes escaping -----

  /** The decoder takes one escaped byte as a unit. */
  lemma DecodeUnit(b: byte, lit: bytes, q: nat, rest: bytes)
    requires b != NUL && q <= |lit| && lit[q..] == EscapeByte(b) + rest
    ensures q + |EscapeByte(b)| <= |lit|
    ensures Decode(lit, q) == Decode(lit, q + |EscapeByte(b)|).Prepend([b])
  {
    var unit := EscapeByte(b);
    assert lit[q] == lit[q..][0] == unit[0];
    if ShortEscape(b).Some? {
      assert lit[q + 1] == lit[q..][1] == unit[1];
    } else if b < 32 {
      assert lit[q + 1] == lit[q..][1] == unit[1];
      ControlGroup(b);
      ScalarGroupConverts(unit, rest);
    }
  }

  lemma {:induction false} DecodeEscape(s: bytes, lit: bytes, q: nat)
    requires NulFree(s)
    requires q <= |lit| && lit[q..] == Escape(s)
    ensures Decode(lit, q) == Decoded(s)
    decreases |s|
  {
    hide Decode, Escape, EscapeByte;
    EscapeIs(s);
    if s == [] {
      DecodedToEnd(lit);
    } else {
      var n := |EscapeByte(s[0])|;
      DecodeUnit(s[0], lit, q, Escape(s[1..]));
      assert lit[q + n..] == lit[q..][n..] == Escape(s[1..]);
      HeadAndTail(s);
      DecodeEscape(s[1..], lit, q + n);
    }
  }

  lemma EscapeIs(s: bytes)
    ensures Escape(s) == if s == [] then [] else EscapeByte(s[0]) + Escape(s[1..])
  {
    hide EscapeByte;
  }

  lemma DecodedToEnd(lit: bytes)
    ensures Decode(lit, |lit|) == Decoded([])
  {
  }

  lemma ControlGroup(b: byte)
    requires b < 32 && ShortEscape(b).None?
    ensures Group(EscapeByte(b)) && GroupValue(EscapeByte(b)) == b
  {
    HexNumberBound(EscapeByte(b)[2..]);
  }

  lemma {:induction false} ScanEndOfEscape(s: bytes, text: bytes, j: nat)
    requires At(text, j, Escape(s) + [QUOTE])
    ensures ScanEnd(text, j) == Some(j + |Escape(s)|)
    decreases |s|
  {
    if s == [] {
      assert Escape(s) + [QUOTE] == [QUOTE];
      assert text[j] == [QUOTE][0];
    } else {
      var unit := EscapeByte(s[0]);
      assert Escape(s) + [QUOTE] == unit + (Escape(s[1..]) + [QUOTE]);
      AtSplit(text, j, unit, Escape(s[1..]) + [QUOTE]);
      ScanEndOfEscape(s[1..], text, j + |unit|);
      ScanEndOverUnit(text, j, s[0]);
    }
  }

  lemma ScanEndOverUnit(text: bytes, j: nat, b: byte)
    requires At(text, j, EscapeByte(b))
    ensures ScanEnd(text, j) == ScanEnd(text, j + |EscapeByte(b)|)
  {
    var unit := EscapeByte(b);
    assert text[j] == unit[0];
    if |unit| == 6 {
      AtByte(text, j, unit, 2);
      AtByte(text, j, unit, 3);
      AtByte(text, j, unit, 4);
      AtByte(text, j, unit, 5);
      assert ScanEnd(text, j + 2) == ScanEnd(text, j + 3) == ScanEnd(text, j + 4)
          == ScanEnd(text, j + 5) == ScanEnd(text, j + 6);
    }
  }

  /** parse_string on a printed string gives the string back and stops after its last quote. */
  lemma QuoteParses(s: bytes, text: bytes, i: nat)
    requires NulFree(s) && At(text, i, Quote(s))
    ensures ParseString(text, i) == Ok(s, i + |Quote(s)|)
  {
    hide Escape, Decode, UpToNul, ScanEnd;
    var lit := Escape(s);
    assert Quote(s) == [QUOTE] + (lit + [QUOTE]);
    AtSplit(text, i, [QUOTE], lit + [QUOTE]);
    ScanEndOfEscape(s, text, i + 1);
    AtSplit(text, i + 1, lit, [QUOTE]);
    AtSlice(text, i + 1, lit);
    DecodeEscape(s, lit, 0);
    UpToNulOfNulFree(s);
  }

  // ----- The sizing scan is enough -----

  /** How many bytes the sizing scan counts as skipped when it goes on from `b`. */
  function Skips(lit: bytes, b: nat): (n: nat)
    decreases |lit| - b
  {
    if b >= |lit| then 0 else if lit[b] == BACKSLASH then 1 + Skips(lit, b + 2) else Skips(lit, b + 1)
  }

  lemma SkipsBound(lit: bytes, b: nat)
    requires b <= |lit| + 1
    ensures 2 * Skips(lit, b) <= |lit| + 1 - b
    decreases |lit| - b
  {
  }

  /** The decoder at `q` and the scan at `b` are at most one byte apart: an invalid \u
      group lets the decoder leave the scan's pairing, but never by more than that. */
  predicate Abreast(q: nat, b: nat) {
    b == q || b == q + 1
  }

  /** While the decoder takes two bytes, the scan counts at most one skipped byte. */
  lemma AdvanceTwo(lit: bytes, q: nat, b: nat) returns (b': nat)
    requires Abreast(q, b)
    ensures Abreast(q + 2, b')
    ensures Skips(lit, b) <= Skips(lit, b') + 1
  {
    if b == q && q < |lit| && lit[q] == BACKSLASH {
      return q + 2;
    }
    b' := if q + 1 < |lit| && lit[q + 1] == BACKSLASH then q + 3 else q + 2;
  }

  lemma AdvanceOne(lit: bytes, q: nat, b: nat) returns (b': nat)
    requires Abreast(q, b) && q < |lit| && lit[q] != BACKSLASH
    ensures Abreast(q + 1, b')
    ensures Skips(lit, b) == Skips(lit, b')
  {
    b' := q + 1;
  }

  lemma AdvanceGroups(lit: bytes, q: nat, b: nat, groups: nat) returns (b': nat)
    requires Abreast(q, b)
    ensures Abreast(q + 6 * groups, b')
    ensures Skips(lit, b) <= Skips(lit, b') + 3 * groups
    decreases groups
  {
    if groups == 0 {
      return b;
    }
    b' := AdvanceTwo(lit, q, b);
    b' := AdvanceTwo(lit, q + 2, b');
    b' := AdvanceTwo(lit, q + 4, b');
    b' := AdvanceGroups(lit, q + 6, b', groups - 1);
  }

  /** parse_string allocates (end - start) - skipped + 1 bytes, counted from the opening
      quote. Whatever the literal holds, its decoding and the NUL fit in. */
  lemma {:induction false} DecodingFits(lit: bytes, q: nat, b: nat)
    requires q <= |lit| + 1 && Abreast(q, b)
    requires Decode(lit, q).Decoded?
    ensures |Decode(lit, q).out| + Skips(lit, b) <= |lit| + 1 - q
    decreases |lit| + 1 - q
  {
    if q >= |lit| {
    } else if lit[q] != BACKSLASH {
      var b' := AdvanceOne(lit, q, b);
      DecodingFits(lit, q + 1, b');
    } else if SimpleEscape(ByteAt(lit, q + 1)).Some? {
      var b' := AdvanceTwo(lit, q, b);
      DecodingFits(lit, q + 2, b');
    } else {
      var r := ConvertLiteral(lit[q..]);
      var b' := AdvanceGroups(lit, q, b, r.consumed / 6);
      DecodingFits(lit, q + r.consumed, b');
    }
  }
}
