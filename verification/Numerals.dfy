/** Number texts: what parse_number hands to strtod, and the plain decimal text that
    "%1.15g" gives for an integer of at most 15 digits. */
module Numerals {
  import opened Bytes
  import opened JsonTree

  /** parse_number copies at most sizeof(number_c_string) - 1 bytes. */
  const NUMBER_TEXT_LIMIT: nat := 63

  predicate IsDigit(b: byte) {
    ZERO <= b <= NINE
  }

  predicate IsExponentMark(b: byte) {
    b == 0x65 || b == 0x45
  }

  /** The bytes that parse_number's copying loop accepts. */
  predicate IsNumberByte(b: byte) {
    IsDigit(b) || b == PLUS || b == MINUS || IsExponentMark(b) || b == DOT
  }

  ghost predicate AllDigits(t: bytes) {
    forall k :: 0 <= k < |t| ==> IsDigit(t[k])
  }

  /** How many number bytes stand in `s` from `i` on, counting to at most `limit`. */
  function RunLength(s: bytes, i: nat, limit: nat): (n: nat)
    requires i <= |s|
    ensures n <= limit && i + n <= |s|
    ensures forall k :: i <= k < i + n ==> IsNumberByte(s[k])
    ensures n < limit && i + n < |s| ==> !IsNumberByte(s[i + n])
    decreases limit
  {
    if limit > 0 && i < |s| && IsNumberByte(s[i]) then 1 + RunLength(s, i + 1, limit - 1) else 0
  }

  lemma RunLengthIs(s: bytes, i: nat, limit: nat, n: nat)
    requires i + n < |s| && n <= limit
    requires forall k :: i <= k < i + n ==> IsNumberByte(s[k])
    requires !IsNumberByte(s[i + n])
    ensures RunLength(s, i, limit) == n
    decreases n
  {
    if n > 0 {
      RunLengthIs(s, i + 1, limit - 1, n - 1);
    }
  }

  /** The first offset from `i` on at which no digit stands. */
  function DigitEnd(t: bytes, i: nat): (e: nat)
    requires i <= |t|
    ensures i <= e <= |t|
    ensures AllDigits(t[i..e])
    ensures e < |t| ==> !IsDigit(t[e])
    decreases |t| - i
  {
    if i < |t| && IsDigit(t[i]) then
      var e := DigitEnd(t, i + 1);
      assert t[i..e] == [t[i]] + t[i + 1..e];
      e
    else i
  }

  lemma DigitEndIsLength(t: bytes, i: nat)
    requires i <= |t| && AllDigits(t[i..])
    ensures DigitEnd(t, i) == |t|
    decreases |t| - i
  {
    if i < |t| {
      assert t[i..][0] == t[i] && t[i..][1..] == t[i + 1..];
      DigitEndIsLength(t, i + 1);
    }
  }

  function DigitsValue(t: bytes): int {
    if t == [] then 0 else 10 * DigitsValue(t[..|t| - 1]) + (t[|t| - 1] - ZERO)
  }

  function Power(k: nat): (p: nat)
    ensures p > 0
  {
    if k == 0 then 1 else 10 * Power(k - 1)
  }

  /** What digits mean: each one its place between 0 and 9, and of two texts behind one
      another the first counts as many times ten as the second has digits. */
  lemma {:induction false} DigitsInTurn(a: bytes, b: bytes)
    ensures DigitsValue(a + b) == DigitsValue(a) * Power(|b|) + DigitsValue(b)
    ensures forall d: byte :: DigitsValue([d]) == d - 0x30
    decreases |b|
  {
    hide DigitsValue, Power;
    OneDigit();
    DigitsStep(b);
    if b == [] {
      assert a + b == a;
    } else {
      var before := b[..|b| - 1];
      assert (a + b)[..|a + b| - 1] == a + before;
      DigitsInTurn(a, before);
      DigitsStep(a + b);
      TimesTen(DigitsValue(a), Power(|before|));
    }
  }

  lemma DigitsStep(t: bytes)
    ensures if t == [] then DigitsValue(t) == 0 && Power(|t|) == 1
            else DigitsValue(t) == 10 * DigitsValue(t[..|t| - 1]) + (t[|t| - 1] - ZERO)
                 && Power(|t|) == 10 * Power(|t| - 1)
  {
  }

  lemma OneDigit()
    ensures forall d: byte :: DigitsValue([d]) == d - 0x30
  {
    assert forall d: byte :: [d][..0] == [];
  }

  lemma TimesTen(x: int, p: nat)
    ensures x * (10 * p) == 10 * (x * p)
  {
  }

  function PowerOfTen(e: int): real
    decreases if e < 0 then -e else e
  {
    if e == 0 then 1.0 else if e > 0 then 10.0 * PowerOfTen(e - 1) else PowerOfTen(e + 1) / 10.0
  }

  lemma {:induction false} PowersAdd(e: int, k: nat)
    ensures PowerOfTen(e - k) * Power(k) as real == PowerOfTen(e)
    decreases k
  {
    if k > 0 {
      PowersAdd(e, k - 1);
      PowerStep(e - k);
      var p, q := PowerOfTen(e - k), Power(k - 1) as real;
      assert Power(k) as real == 10.0 * q;
      assert p * (10.0 * q) == 10.0 * p * q;
    }
  }

  lemma PowerStep(e: int)
    ensures PowerOfTen(e + 1) == 10.0 * PowerOfTen(e)
  {
  }

  function Scaled(minus: bool, digits: bytes, power: int): real {
    (if minus then -1.0 else 1.0) * DigitsValue(digits) as real * PowerOfTen(power)
  }

  predicate IsSign(b: byte) {
    b == PLUS || b == MINUS
  }

  datatype Numeral = Numeral(consumed: nat, value: real)

  /** strtod on a text of number bytes: the longest prefix of the form
      [sign] digits [. digits] [e [sign] digits] with a digit before the exponent, and
      its exact value; nothing consumed if there is no such prefix. */
  function Strtod(t: bytes): (r: Numeral)
    ensures r.consumed <= |t|
  {
    var start := if t != [] && IsSign(t[0]) then 1 else 0;
    var whole := DigitEnd(t, start);
    var point := whole < |t| && t[whole] == DOT;
    var fraction := if point then DigitEnd(t, whole + 1) else whole;
    var digits := t[start..whole] + (if point then t[whole + 1..fraction] else []);
    if digits == [] then Numeral(0, 0.0)
    else
      AtExponent(t, fraction, digits, |digits| - (whole - start))
  }

  /** strtod behind the digits, the last `places` of which stand behind the point. */
  function AtExponent(t: bytes, f: nat, digits: bytes, places: int): (r: Numeral)
    requires t != [] && f <= |t|
    ensures r.consumed <= |t|
  {
    var minus := t[0] == MINUS;
    if f < |t| && IsExponentMark(t[f]) then
      var from := if f + 1 < |t| && IsSign(t[f + 1]) then f + 2 else f + 1;
      var end := DigitEnd(t, from);
      if end == from then Numeral(f, Scaled(minus, digits, -places))
      else
        var exponent := DigitsValue(t[from..end]);
        var signed := if t[f + 1] == MINUS then -exponent else exponent;
        Numeral(end, Scaled(minus, digits, signed - places))
    else Numeral(f, Scaled(minus, digits, -places))
  }

  /** strtod up to the exponent. */
  lemma StrtodDigits(t: bytes, start: nat, w: nat, f: nat, fraction: bytes)
    requires |t| > 0
    requires start == (if IsSign(t[0]) then 1 else 0) && w == DigitEnd(t, start)
    requires var point := w < |t| && t[w] == DOT;
             f == (if point then DigitEnd(t, w + 1) else w)
             && (if point then w + 1 <= f <= |t| && fraction == t[w + 1..f] else fraction == [])
    ensures start <= w <= f <= |t|
    ensures var digits := t[start..w] + fraction;
            if digits == [] then Strtod(t).consumed == 0 else Strtod(t) == AtExponent(t, f, digits, |fraction|)
  {
    hide DigitEnd, AtExponent, IsSign;
    assert t[start..w] + [] == t[start..w];
  }

  /** The text of a natural number in decimal. */
  function Digits(n: nat): (t: bytes)
    ensures |t| > 0 && AllDigits(t)
    ensures DigitsValue(t) == n
  {
    if n < 10 then [ZERO + n] else Digits(n / 10) + [ZERO + n % 10]
  }

  function DecimalText(n: int): bytes {
    if n < 0 then [MINUS] + Digits(-n) else Digits(n)
  }

  lemma DigitsLength(n: nat, k: nat)
    requires 0 < k && n < Power(k)
    ensures |Digits(n)| <= k
  {
    if n >= 10 {
      DigitsLength(n / 10, k - 1);
    }
  }

  lemma PlainTextLength(n: int)
    requires -PLAIN_LIMIT < n < PLAIN_LIMIT
    ensures |DecimalText(n)| <= 16
  {
    assert Power(15) == PLAIN_LIMIT by {
      assert Power(5) == 100_000;
      assert Power(10) == 100_000 * Power(5);
      assert Power(15) == 100_000 * Power(10);
    }
    DigitsLength(if n < 0 then -n else n, 15);
  }

  /** strtod reads a decimal text to its end and gives the number back. */
  lemma StrtodOfDecimal(n: int)
    ensures Strtod(DecimalText(n)) == Numeral(|DecimalText(n)|, n as real)
  {
    var t := DecimalText(n);
    var start := if n < 0 then 1 else 0;
    var digits := Digits(if n < 0 then -n else n);
    assert t[start..] == digits;
    assert t[start] == digits[0];
    DigitEndIsLength(t, start);
    assert t[start..|t|] + [] == digits;
  }
}
