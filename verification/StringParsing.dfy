/** The loops of parse_string, parse_hex4 and utf16_literal_to_utf8. */
module StringParsing {
  import opened Bytes
  import opened Bits
  import opened Utf16
  import opened Literal

  /** parse_hex4 on the four bytes from `at` on. */
  method ReadHex4(s: bytes, at: nat) returns (h: nat)
    requires at + 4 <= |s|
    ensures h == ParseHex4(s[at..at + 4])
  {
    ghost var t := s[at..at + 4];
    h := 0;
    var i := 0;
    while i < 4
      invariant 0 <= i <= 4 && HexDigits(t[..i])
      invariant h == if i < 4 then 16 * HexNumber(t[..i]) else HexNumber(t)
    {
      var digit := HexValue(s[at + i]);
      assert s[at + i] == t[i];
      if digit.None? {
        assert !HexDigits(t);
        return 0;
      }
      HexDigitsGrow(t, i);
      h := h + digit.value;
      if i < 3 {
        h := 16 * h;
      }
      i := i + 1;
      assert i == 4 ==> t[..i] == t;
    }
  }

  lemma HexDigitsGrow(t: bytes, i: nat)
    requires i < |t| && HexDigits(t[..i]) && HexValue(t[i]).Some?
    ensures HexDigits(t[..i + 1])
    ensures HexNumber(t[..i + 1]) == 16 * HexNumber(t[..i]) + HexValue(t[i]).value
  {
    var u := t[..i + 1];
    assert u[..i] == t[..i];
    assert forall k :: 0 <= k < i ==> u[k] == t[..i][k];
  }

  /** `c` shifted right by `k` groups of six bits. */
  function Shifted(c: nat, k: nat): nat {
    if k == 0 then c else Shifted(c, k - 1) / 0x40
  }

  /** How far the digits in the first of `n` bytes go. */
  function FirstByteRoom(n: nat): nat {
    if n == 1 then 0x80 else if n == 2 then 0x20 else if n == 3 then 0x10 else 0x08
  }

  /** (c | first_byte_mark) & 0xFF, or c & 0x7F for a byte of its own. */
  lemma FirstByteBits(n: nat, c: nat)
    requires 1 <= n <= 4 && c < FirstByteRoom(n)
    ensures n > 1 ==> BitAnd(BitOr(c, FirstByteMark(n)), 0xFF) == FirstByteMark(n) + c
    ensures n == 1 ==> BitAnd(c, 0x7F) == FirstByteMark(n) + c
  {
    hide BitAnd, BitOr;
    if n == 1 {
      OnlyByte(c);
    } else if n == 2 {
      FirstOfTwo(c);
    } else if n == 3 {
      FirstOfThree(c);
    } else {
      FirstOfFour(c);
    }
  }

  lemma EncodedBytes(c: nat)
    requires c <= 0x10FFFF
    ensures var t, n := EncodeUtf8(c), Utf8Length(c);
            |t| == n && 1 <= n <= 4
            && FirstByteMark(n) + Shifted(c, n - 1) < 0x100
            && Shifted(c, n - 1) < FirstByteRoom(n)
            && t[0] == FirstByteMark(n) + Shifted(c, n - 1)
            && forall k :: 1 <= k < n ==> t[k] == 0x80 + Shifted(c, n - 1 - k) % 0x40
  {
    assert Shifted(c, 1) == c / 0x40;
    assert Shifted(c, 2) == c / 0x40 / 0x40 == c / 0x1000;
    assert Shifted(c, 3) == c / 0x40 / 0x40 / 0x40 == c / 0x40000;
  }

  /** The encoding loop of utf16_literal_to_utf8: from the last byte to the first. */
  method WriteUtf8(c: nat, output: array<byte>, to: nat) returns (n: nat)
    requires c <= 0x10FFFF && to + |EncodeUtf8(c)| <= output.Length
    modifies output
    ensures n == |EncodeUtf8(c)|
    ensures output[..to] == old(output[..to]) && output[to..to + n] == EncodeUtf8(c)
  {
    hide EncodeUtf8, BitAnd, BitOr, FirstByteMark;
    EncodedBytes(c);
    ghost var t := EncodeUtf8(c);
    n := Utf8Length(c);
    var position, codepoint := n - 1, c;
    while position > 0
      invariant 0 <= position < n && codepoint == Shifted(c, n - 1 - position)
      invariant forall k :: 0 <= k < to ==> output[k] == old(output[k])
      invariant forall k :: position < k < n ==> output[to + k] == t[k]
    {
      ContinuationBits(codepoint);
      output[to + position] := BitAnd(BitOr(codepoint, 0x80), 0xBF);
      codepoint := codepoint / 0x40;
      position := position - 1;
    }
    FirstByteBits(n, codepoint);
    if n > 1 {
      output[to] := BitAnd(BitOr(codepoint, FirstByteMark(n)), 0xFF);
    } else {
      output[to] := BitAnd(codepoint, 0x7F);
    }
    assert forall k :: 0 <= k < n ==> output[to..to + n][k] == output[to + k] == t[k];
  }

  /** 0x10000 + (((first & 0x3FF) << 10) | (low & 0x3FF)) */
  lemma BothHalvesOf(first: nat, low: nat)
    requires HighSurrogate(first) && LowSurrogate(low)
    ensures 0x10000 + BitOr(BitAnd(first, 0x3FF) * 0x400, BitAnd(low, 0x3FF)) == PairValue(first, low)
  {
    hide BitAnd, BitOr;
    TenBits(first);
    TenBits(low);
    BothHalves(first % 0x400, low % 0x400);
  }

  /** utf16_literal_to_utf8 on the bytes from the backslash at `from` to the quote at `end`. */
  method ConvertAt(s: bytes, from: nat, end: nat, output: array<byte>, to: nat)
    returns (consumed: nat, n: nat)
    requires from <= end <= |s| && to + |ConvertLiteral(s[from..end]).utf8| <= output.Length
    modifies output
    ensures n == |ConvertLiteral(s[from..end]).utf8|
    ensures Converted(consumed, output[to..to + n]) == ConvertLiteral(s[from..end])
    ensures output[..to] == old(output[..to])
  {
    hide EncodeUtf8, ParseHex4, BitAnd, BitOr;
    ghost var t := s[from..end];
    if end - from < 6 {
      return 0, 0;
    }
    var first := ReadHex4(s, from + 2);
    SliceOfSlice(s, from, end, 2, 6);
    if 0xDC00 <= first <= 0xDFFF {
      return 0, 0;
    }
    var codepoint;
    if 0xD800 <= first <= 0xDBFF {
      var second := from + 6;
      if end - second < 6 {
        return 0, 0;
      }
      assert s[second] == t[6] && s[second + 1] == t[7];
      if s[second] != BACKSLASH || s[second + 1] != LETTER_U {
        return 0, 0;
      }
      var low := ReadHex4(s, second + 2);
      SliceOfSlice(s, from, end, 8, 12);
      if low < 0xDC00 || low > 0xDFFF {
        return 0, 0;
      }
      BothHalvesOf(first, low);
      codepoint := 0x10000 + BitOr(BitAnd(first, 0x3FF) * 0x400, BitAnd(low, 0x3FF));
      consumed := 12;
    } else {
      codepoint := first;
      consumed := 6;
    }
    n := WriteUtf8(codepoint, output, to);
  }

  /** The sizing scan of parse_string, from `start` behind the opening quote. */
  method ScanString(s: bytes, start: nat) returns (found: bool, end: nat, skipped: nat)
    requires start <= |s|
    ensures found <==> ScanEnd(s, start).Some?
    ensures found ==> ScanEnd(s, start) == Some(end) && start <= end
    ensures found ==> skipped == Skips(s[start..end], 0)
  {
    ghost var e := ScanEnd(s, start);
    ghost var lit := if e.Some? then s[start..e.value] else [];
    end, skipped := start, 0;
    while end < |s| && s[end] != QUOTE
      invariant start <= end <= |s| && ScanEnd(s, end) == e
      invariant e.Some? ==> end <= e.value && skipped + Skips(lit, end - start) == Skips(lit, 0)
      decreases |s| - end
    {
      assert e.Some? ==> end < e.value && lit[end - start] == s[end];
      if s[end] == BACKSLASH {
        if end + 1 >= |s| {
          return false, end, skipped;
        }
        skipped := skipped + 1;
        end := end + 1;
      }
      end := end + 1;
    }
    found := end < |s|;
  }

  /** How far writing has come: never ahead of what the sizing scan allows. */
  ghost predicate Within(lit: bytes, q: nat, b: nat, written: nat) {
    q <= |lit| + 1 && Abreast(q, b) && written + Skips(lit, 0) <= q + Skips(lit, b)
  }

  lemma WithinBound(lit: bytes, q: nat, b: nat, written: nat)
    requires Within(lit, q, b, written)
    ensures written + Skips(lit, 0) <= |lit| + 1
    decreases |lit| - q
  {
    if b <= |lit| + 1 {
      SkipsBound(lit, b);
    }
  }

  /** Room for a unit of the literal: the decoder takes `used` bytes and writes `n`. */
  lemma UnitFits(lit: bytes, q: nat, b: nat, written: nat, used: nat, n: nat) returns (b': nat)
    requires Within(lit, q, b, written) && q < |lit| && q + used <= |lit| + 1
    requires (used == 1 && n == 1 && lit[q] != BACKSLASH) || (used == 2 && n == 1)
             || (used in {6, 12} && 2 * n <= used)
    ensures Within(lit, q + used, b', written + n)
    ensures written + n + Skips(lit, 0) <= |lit| + 1
  {
    hide Skips;
    if used == 1 {
      b' := AdvanceOne(lit, q, b);
    } else if used == 2 {
      b' := AdvanceTwo(lit, q, b);
    } else {
      b' := AdvanceGroups(lit, q, b, used / 6);
    }
    WithinBound(lit, q + used, b', written + n);
  }

  /** The switch over the byte behind a backslash. */
  method EscapedByte(c: byte) returns (r: Option<byte>)
    ensures r == SimpleEscape(c)
  {
    if c == 0x62 { return Some(0x08); }
    if c == 0x66 { return Some(0x0C); }
    if c == 0x6E { return Some(LF); }
    if c == 0x72 { return Some(CR); }
    if c == 0x74 { return Some(TAB); }
    if c == QUOTE || c == BACKSLASH || c == SLASH { return Some(c); }
    return None;
  }

  /** One turn of the decoding loop at `input`, writing at `written`; 0 for failure. */
  method DecodeUnit(
    s: bytes, start: nat, end: nat, input: nat, output: array<byte>, written: nat, ghost b: nat)
    returns (used: nat, n: nat, ghost b': nat)
    requires start <= input < end < |s| && s[end] == QUOTE
    requires Within(s[start..end], input - start, b, written)
    requires output.Length + Skips(s[start..end], 0) == end - start + 2
    modifies output
    ensures var lit, q := s[start..end], input - start;
            if used == 0 then Decode(lit, q) == Malformed(q)
            else
              Within(lit, q + used, b', written + n) && written + n < output.Length
              && output[..written] == old(output[..written])
              && Decode(lit, q) == Decode(lit, q + used).Prepend(output[written..written + n])
  {
    hide ConvertLiteral, Skips;
    ghost var lit, q := s[start..end], input - start;
    WithinBound(lit, q, b, written);
    b' := b;
    assert s[input] == lit[q];
    if s[input] != BACKSLASH {
      b' := UnitFits(lit, q, b, written, 1, 1);
      output[written] := s[input];
      used, n := 1, 1;
    } else {
      var c := s[input + 1];
      assert c == ByteAt(lit, q + 1);
      var simple := EscapedByte(c);
      if simple.Some? {
        b' := UnitFits(lit, q, b, written, 2, 1);
        output[written] := simple.value;
        used, n := 2, 1;
      } else if c == LETTER_U {
        assert s[input..end] == lit[q..];
        ghost var r := ConvertLiteral(lit[q..]);
        if r.consumed > 0 {
          b' := UnitFits(lit, q, b, written, r.consumed, |r.utf8|);
        }
        used, n := ConvertAt(s, input, end, output, written);
      } else {
        used, n := 0, 0;
      }
    }
  }

  lemma PrependTwice(d: Decoded, a: bytes, b: bytes)
    ensures d.Prepend(b).Prepend(a) == d.Prepend(a + b)
  {
  }

  /** The decoding loop of parse_string: the bytes between the quotes at start - 1 and
      end, into a block of the size that the scan found. */
  method DecodeString(s: bytes, start: nat, end: nat, output: array<byte>)
    returns (ok: bool, stop: nat, written: nat)
    requires start <= end < |s| && s[end] == QUOTE
    requires output.Length + Skips(s[start..end], 0) == end - start + 2
    modifies output
    ensures ok ==> written < output.Length && Decode(s[start..end], 0) == Decoded(output[..written])
    ensures ok ==> output[written] == NUL
    ensures !ok ==> start <= stop && Decode(s[start..end], 0) == Malformed(stop - start)
  {
    hide Skips, Decode;
    ghost var lit := s[start..end];
    var input := start;
    written := 0;
    ghost var b := 0;
    WithinBound(lit, 0, b, 0);
    assert output[..0] == [];
    PrependNothing(Decode(lit, 0));
    while input < end
      invariant start <= input <= end + 1 && written < output.Length
      invariant Within(lit, input - start, b, written)
      invariant Decode(lit, 0) == Decode(lit, input - start).Prepend(output[..written])
      decreases end + 1 - input
    {
      ghost var done := output[..written];
      var used, n;
      used, n, b := DecodeUnit(s, start, end, input, output, written, b);
      if used == 0 {
        return false, input, written;
      }
      assert output[..written + n] == done + output[written..written + n];
      PrependTwice(Decode(lit, input - start + used), done, output[written..written + n]);
      input, written := input + used, written + n;
    }
    DecodeAtEnd(lit, input - start);
    output[written] := NUL;
    return true, input, written;
  }

  lemma PrependNothing(d: Decoded)
    ensures d.Prepend([]) == d
  {
  }

  lemma DecodeAtEnd(lit: bytes, q: nat)
    requires |lit| <= q <= |lit| + 1
    ensures Decode(lit, q) == Decoded([])
    ensures forall a: bytes {:trigger Decoded([]).Prepend(a)} :: Decoded([]).Prepend(a) == Decoded(a)
  {
  }
}
