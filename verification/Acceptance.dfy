/** The parser accepts every text of the grammar, under either set of rules, as the value it
    stands for. */
module Acceptance {
  import opened Bytes
  import opened JsonTree
  import opened Numerals
  import opened Utf16
  import opened Literal
  import opened Parsing
  import opened RoundTrip
  import opened Meaning
  import opened Grammar

  // Strings are read.

  lemma GroupConverts(group: bytes, rest: bytes)
    requires Escaped(group) && IsScalar(Code(group))
    ensures ConvertLiteral(group + rest) == Converted(6, EncodeUtf8(Code(group)))
  {
    assert (group + rest)[2..6] == group[2..];
  }

  lemma PairConverts(high: bytes, low: bytes, rest: bytes)
    requires Escaped(high) && Escaped(low) && HighSurrogate(Code(high)) && LowSurrogate(Code(low))
    ensures ConvertLiteral(high + low + rest) == Converted(12, PairMeaning(Code(high), Code(low)))
  {
    var t := high + low + rest;
    assert t[2..6] == high[2..] && t[8..12] == low[2..];
    assert t[6] == low[0] && t[7] == low[1];
  }

  lemma PieceDecodes(p: Piece, lit: bytes, q: nat, rest: bytes)
    requires GoodPiece(Lenient, p) && (p.LoneBackslash? ==> rest == [])
    requires q <= |lit| && lit[q..] == PieceText(p) + rest
    ensures q + |PieceText(p)| <= |lit|
    ensures Decode(lit, q) == Decode(lit, q + |PieceText(p)|).Prepend(PieceMeaning(p))
  {
    hide ConvertLiteral, EncodeUtf8, PairMeaning, Code;
    var unit := PieceText(p);
    assert lit[q] == lit[q..][0] == unit[0];
    if p.Short? {
      assert lit[q + 1] == lit[q..][1] == unit[1];
    } else if p.Unicode? {
      assert lit[q + 1] == lit[q..][1] == unit[1];
      GroupConverts(unit, rest);
    } else if p.Pair? {
      assert lit[q + 1] == lit[q..][1] == unit[1];
      PairConverts(p.high, p.low, rest);
    }
  }

  lemma {:induction false} PiecesDecode(ps: seq<Piece>, lit: bytes, q: nat)
    requires GoodPieces(Lenient, ps) && q <= |lit| && lit[q..] == PiecesText(ps)
    ensures Decode(lit, q) == Decoded(PiecesMeaning(ps))
    decreases |ps|
  {
    hide GoodPiece, PieceText, PieceMeaning, GoodPieces;
    if ps != [] {
      var n := |PieceText(ps[0])|;
      RestGood(Lenient, ps);
      PieceDecodes(ps[0], lit, q, PiecesText(ps[1..]));
      assert lit[q + n..] == lit[q..][n..] == PiecesText(ps[1..]);
      PiecesDecode(ps[1..], lit, q + n);
    }
  }

  lemma {:induction false} PairedScanned(t: bytes, text: bytes, j: nat)
    requires Paired(t) && At(text, j, t + [QUOTE])
    ensures ScanEnd(text, j) == Some(j + |t|)
    decreases |t|
  {
    AtStart(text, j, t + [QUOTE]);
    if t == [] {
      assert t + [QUOTE] == [QUOTE];
    } else {
      var step := if t[0] == BACKSLASH then 2 else 1;
      AtTail(text, j, t + [QUOTE], step);
      assert (t + [QUOTE])[step..] == t[step..] + [QUOTE];
      PairedScanned(t[step..], text, j + step);
    }
  }

  lemma AtLength(s: bytes, i: int, t: bytes)
    requires At(s, i, t)
    ensures 0 <= i && i + |t| <= |s|
  {
  }

  /** The whole literal, character by character, up to the first NUL. */
  lemma StringParses(ps: seq<Piece>, text: bytes, i: nat)
    requires GoodString(Lenient, ps) && At(text, i, StringText(ps))
    ensures i < |text| && ParseString(text, i) == Ok(UpToNul(PiecesMeaning(ps)), i + |StringText(ps)|)
    ensures ParseString(text, i) == Ok(PiecesMeaning(ps), i + |StringText(ps)|) <==> NoNul(ps)
  {
    hide GoodPieces, NoNul, PiecesText, PiecesMeaning, Decode, UpToNul, ScanEnd, At, Paired;
    var lit := PiecesText(ps);
    AtFirst(text, i, QUOTE, lit + [QUOTE]);
    PairedScanned(lit, text, i + 1);
    AtSplit(text, i + 1, lit, [QUOTE]);
    AtLength(text, i + 1, lit);
    AtSlice(text, i + 1, lit);
    assert lit[0..] == lit;
    PiecesDecode(ps, lit, 0);
    StringWhole(ps);
  }

  lemma StringDenotesKey(ps: seq<Piece>)
    requires GoodString(Lenient, ps)
    ensures DenotesKey(StringText(ps), UpToNul(PiecesMeaning(ps)))
  {
    hide At, ParseString, PiecesText, PiecesMeaning, UpToNul, GoodString, NoNul;
    forall s: bytes, i: nat | Terminated(s) && i < |s| && At(s, i, StringText(ps))
      ensures ParseString(s, i) == Ok(UpToNul(PiecesMeaning(ps)), i + |StringText(ps)|)
    {
      StringParses(ps, s, i);
    }
  }

  lemma KeyDenotesString(quoted: bytes, key: bytes, depth: nat)
    requires DenotesKey(quoted, key)
    ensures Denotes(quoted, String(key), depth)
  {
    hide At, ParseString, ParseValue, StopsNumber;
    forall s: bytes, i: nat
      | Terminated(s) && At(s, i, quoted) && i + |quoted| < |s| && StopsNumber(s[i + |quoted|])
      ensures ParseValue(s, i, depth) == Ok(String(key), i + |quoted|)
    {
      StringStep([], s, i, depth);
    }
  }

  // Numbers are read.

  lemma DigitEndIs(t: bytes, i: nat, e: nat)
    requires i <= e <= |t| && AllDigits(t[i..e]) && (e < |t| ==> !IsDigit(t[e]))
    ensures DigitEnd(t, i) == e
    decreases e - i
  {
    if i < e {
      assert t[i..e][0] == t[i] && t[i..e][1..] == t[i + 1..e];
      DigitEndIs(t, i + 1, e);
    }
  }

  /** Digits in a text, and what follows them. */
  lemma DigitsAt(t: bytes, i: nat, digits: bytes, rest: bytes)
    requires i <= |t| && t[i..] == digits + rest && AllDigits(digits) && (rest != [] ==> !IsDigit(rest[0]))
    ensures i + |digits| <= |t| && DigitEnd(t, i) == i + |digits|
    ensures t[i..i + |digits|] == digits && t[i + |digits|..] == rest
    ensures digits != [] ==> t[i] == digits[0]
    ensures rest != [] ==> i + |digits| < |t| && t[i + |digits|] == rest[0]
  {
    hide DigitEnd, IsDigit, AllDigits;
    var e := i + |digits|;
    assert t[i..][..|digits|] == digits && t[i..][|digits|..] == rest;
    assert t[i..e] == digits && t[e..] == rest;
    if rest != [] {
      assert t[i..][|digits|] == t[e];
    }
    DigitEndIs(t, i, e);
  }

  function Start(n: NumberSyntax): nat {
    if n.minus then 1 else 0
  }

  /** What follows the digits in front. */
  function Tail(n: NumberSyntax): bytes {
    FractionText(n) + ExponentText(n.exponent)
  }

  /** A number does not begin with a plus. */
  lemma NumberLies(n: NumberSyntax)
    requires Readable(n)
    ensures var t := NumberText(n);
            |t| > 0 && Start(n) <= |t| && t[Start(n)..] == n.whole + Tail(n)
            && (n.minus <==> t[0] == MINUS) && (IsSign(t[0]) <==> n.minus)
  {
    hide ExponentText, FractionText, GoodExponent;
    var t := NumberText(n);
    if n.minus {
      assert t == [MINUS] + (n.whole + Tail(n));
    } else {
      assert t == n.whole + Tail(n);
      assert t[0] == n.whole[0];
      assert IsDigit(n.whole[0]);
    }
  }

  lemma AfterDigits(n: NumberSyntax)
    requires Readable(n)
    ensures var rest := ExponentText(n.exponent);
            (rest != [] ==> !IsDigit(rest[0]) && rest[0] != DOT)
            && (Tail(n) != [] ==> !IsDigit(Tail(n)[0]))
  {
    hide AllDigits;
  }

  lemma ExponentReads(t: bytes, f: nat, e: Exponent)
    requires f <= |t| && t[f..] == ExponentText(e) && e.Exponent? && GoodExponent(e)
    ensures f + 1 < |t| && IsExponentMark(t[f])
    ensures var from := if IsSign(t[f + 1]) then f + 2 else f + 1;
            from < |t| && DigitEnd(t, from) == |t| && t[from..|t|] == e.digits
    ensures ExponentValue(e) == if t[f + 1] == MINUS then -DigitsValue(e.digits) else DigitsValue(e.digits)
  {
    hide *;
    ExponentIs(e);
    ExponentLies(e, t, f);
    SignOfExponent(e);
    DigitsToEnd(t, if IsSign(t[f + 1]) then f + 2 else f + 1, e.digits);
  }

  lemma ExponentLies(e: Exponent, t: bytes, f: nat)
    requires f <= |t| && t[f..] == ExponentText(e) && e.Exponent?
    requires IsSignText(e.sign) && AllDigits(e.digits) && e.digits != []
    ensures f + 1 < |t| && t[f] == e.mark
    ensures var from := if IsSign(t[f + 1]) then f + 2 else f + 1;
            from <= |t| && t[from..] == e.digits
    ensures t[f + 1] == MINUS <==> e.sign == [MINUS]
  {
    hide *;
    SignOfExponent(e);
    SignThere(e, t, f);
    BehindSign(e, t, f);
  }

  lemma ExponentIs(e: Exponent)
    requires GoodExponent(e) && e.Exponent?
    ensures IsExponentMark(e.mark) && IsSignText(e.sign) && AllDigits(e.digits) && e.digits != []
  {
    hide AllDigits;
  }

  lemma DigitsToEnd(t: bytes, i: nat, digits: bytes)
    requires i <= |t| && t[i..] == digits && AllDigits(digits) && digits != []
    ensures i < |t| && DigitEnd(t, i) == |t| && t[i..|t|] == digits
  {
    hide *;
    assert t[i..|t|] == t[i..];
    DigitEndIs(t, i, |t|);
  }

  lemma SignOfExponent(e: Exponent)
    requires e.Exponent?
    ensures ExponentValue(e) == if e.sign == [MINUS] then -DigitsValue(e.digits) else DigitsValue(e.digits)
    ensures IsSignText(e.sign) && e.sign != [] ==> |e.sign| == 1
  {
    hide DigitsValue;
  }

  lemma BehindSign(e: Exponent, t: bytes, f: nat)
    requires f <= |t| && t[f..] == ExponentText(e) && e.Exponent?
    ensures f + 1 + |e.sign| <= |t| && t[f + 1 + |e.sign|..] == e.digits
  {
    var k := 1 + |e.sign|;
    assert ExponentText(e)[k..] == e.digits;
    assert t[f..][k..] == t[f + k..];
  }

  lemma SignThere(e: Exponent, t: bytes, f: nat)
    requires f <= |t| && t[f..] == ExponentText(e) && e.Exponent?
    requires IsSignText(e.sign) && AllDigits(e.digits) && e.digits != []
    ensures f + 1 < |t| && t[f] == e.mark
    ensures IsSign(t[f + 1]) <==> e.sign != []
    ensures t[f + 1] == MINUS <==> e.sign == [MINUS]
  {
    assert t[f..][0] == t[f] && t[f..][1] == t[f + 1];
    assert e.sign == [] ==> t[f + 1] == e.digits[0];
  }

  /** strtod once its parts have been found. */
  lemma StrtodIs(t: bytes, start: nat, w: nat, f: nat, whole: bytes, point: bool, fraction: bytes)
    requires |t| > 0 && start == (if IsSign(t[0]) then 1 else 0)
    requires start <= w <= f <= |t| && DigitEnd(t, start) == w && t[start..w] == whole
    requires whole + fraction != [] && (fraction != [] ==> point)
    requires (w < |t| && t[w] == DOT) <==> point
    requires f == if point then DigitEnd(t, w + 1) else w
    requires point ==> w + 1 <= f && t[w + 1..f] == fraction
    ensures f == |t| ==> Strtod(t) == Numeral(f, Scaled(t[0] == MINUS, whole + fraction, -|fraction|))
    ensures f + 1 < |t| && IsExponentMark(t[f]) ==>
              var from := if IsSign(t[f + 1]) then f + 2 else f + 1;
              from < |t| && DigitEnd(t, from) == |t| ==>
                var x := DigitsValue(t[from..|t|]);
                Strtod(t)
                == Numeral(
                     |t|,
                     Scaled(t[0] == MINUS, whole + fraction, (if t[f + 1] == MINUS then -x else x) - |fraction|))
  {
    hide *;
    StrtodDigits(t, start, w, f, fraction);
    ExponentTaken(t, f, whole + fraction, |fraction|);
  }

  lemma ExponentTaken(t: bytes, f: nat, digits: bytes, places: int)
    requires t != [] && f <= |t|
    ensures f == |t| ==> AtExponent(t, f, digits, places) == Numeral(f, Scaled(t[0] == MINUS, digits, -places))
    ensures f + 1 < |t| && IsExponentMark(t[f]) ==>
              var from := if IsSign(t[f + 1]) then f + 2 else f + 1;
              from < |t| && DigitEnd(t, from) == |t| ==>
                var x := DigitsValue(t[from..|t|]);
                AtExponent(t, f, digits, places)
                == Numeral(|t|, Scaled(t[0] == MINUS, digits, (if t[f + 1] == MINUS then -x else x) - places))
  {
    hide DigitEnd, DigitsValue, Scaled, IsSign, IsExponentMark;
  }

  /** The conversion up to the exponent. */
  lemma DigitsRead(n: NumberSyntax) returns (f: nat)
    requires Readable(n)
    ensures var t := NumberText(n);
            f <= |t| && t != [] && t[f..] == ExponentText(n.exponent)
            && (f == |t| ==> Strtod(t) == Numeral(f, Scaled(n.minus, n.whole + n.fraction, -|n.fraction|)))
            && (f + 1 < |t| && IsExponentMark(t[f]) ==>
                  var from := if IsSign(t[f + 1]) then f + 2 else f + 1;
                  from < |t| && DigitEnd(t, from) == |t| ==>
                    var x := DigitsValue(t[from..|t|]);
                    Strtod(t)
                    == Numeral(
                         |t|,
                         Scaled(n.minus, n.whole + n.fraction, (if t[f + 1] == MINUS then -x else x) - |n.fraction|)))
  {
    hide *;
    var t := NumberText(n);
    var w := WholeReads(n);
    AfterDigits(n);
    NumberIs(n);
    f := FractionReads(t, w, n);
    StrtodIs(t, if IsSign(t[0]) then 1 else 0, w, f, n.whole, n.point, n.fraction);
  }

  lemma WholeReads(n: NumberSyntax) returns (w: nat)
    requires Readable(n)
    ensures var t := NumberText(n);
            t != [] && (n.minus <==> t[0] == MINUS)
            && var start := if IsSign(t[0]) then 1 else 0;
               start <= w <= |t| && DigitEnd(t, start) == w && t[start..w] == n.whole && t[w..] == Tail(n)
  {
    hide *;
    NumberLies(n);
    AfterDigits(n);
    NumberIs(n);
    StartIs(n);
    DigitsAt(NumberText(n), Start(n), n.whole, Tail(n));
    w := Start(n) + |n.whole|;
  }

  /** The conversion takes a number's text whole and gives its value. */
  lemma NumberReads(n: NumberSyntax)
    requires Readable(n)
    ensures Strtod(NumberText(n)) == Numeral(|NumberText(n)|, NumberValue(n))
  {
    hide *;
    var f := DigitsRead(n);
    NumberIs(n);
    if n.exponent.Exponent? {
      ExponentReads(NumberText(n), f, n.exponent);
    } else {
      NoExponentText(n.exponent);
    }
  }

  /** Its value in whole numbers: the digits, the point left out, times a power of ten; or
      they are that many times the value. */
  lemma NumberReadsExactly(n: NumberSyntax)
    requires Readable(n)
    ensures var v := Strtod(NumberText(n)).value;
            var digits := DigitsValue(n.whole) * Power(|n.fraction|) + DigitsValue(n.fraction);
            var signed := if n.minus then -digits else digits;
            var k := ExponentValue(n.exponent) - |n.fraction|;
            if k >= 0 then v == (signed * Power(k)) as real else v * Power(-k) as real == signed as real
  {
    hide *;
    NumberReads(n);
    NumberScaled(n);
    DigitsInTurn(n.whole, n.fraction);
    ScaledInWholes(n.minus, n.whole + n.fraction, ExponentValue(n.exponent) - |n.fraction|);
  }

  lemma ScaledInWholes(minus: bool, digits: bytes, k: int)
    ensures var signed := if minus then -DigitsValue(digits) else DigitsValue(digits);
            var v := Scaled(minus, digits, k);
            if k >= 0 then v == (signed * Power(k)) as real else v * Power(-k) as real == signed as real
  {
    hide DigitsValue, Power, PowerOfTen;
    var d := DigitsValue(digits) as real;
    PowerOfTenOfNone();
    if k >= 0 {
      PowersAdd(k, k);
      assert d * Power(k) as real == (DigitsValue(digits) * Power(k)) as real;
    } else {
      PowersAdd(0, -k);
      var p, q := PowerOfTen(k), Power(-k) as real;
      assert d * p * q == d * (p * q);
    }
  }

  lemma StartIs(n: NumberSyntax)
    ensures Start(n) == if n.minus then 1 else 0
  {
  }

  lemma NumberIs(n: NumberSyntax)
    requires Readable(n)
    ensures AllDigits(n.whole) && AllDigits(n.fraction) && GoodExponent(n.exponent)
    ensures n.whole + n.fraction != [] && (n.fraction != [] ==> n.point)
    ensures NumberValue(n) == Scaled(n.minus, n.whole + n.fraction, ExponentValue(n.exponent) - |n.fraction|)
  {
    hide AllDigits, Scaled, ExponentValue, GoodExponent, NumberValue;
    NumberScaled(n);
  }

  lemma NoExponentText(e: Exponent)
    requires e.NoExponent?
    ensures ExponentText(e) == [] && ExponentValue(e) == 0
  {
  }

  lemma FractionReads(t: bytes, w: nat, n: NumberSyntax) returns (f: nat)
    requires w <= |t| && t[w..] == Tail(n) && AllDigits(n.fraction) && (n.fraction != [] ==> n.point)
    requires var rest := ExponentText(n.exponent);
             rest != [] ==> !IsDigit(rest[0]) && rest[0] != DOT
    ensures w <= f <= |t| && t[f..] == ExponentText(n.exponent)
    ensures var point := w < |t| && t[w] == DOT;
            (point <==> n.point)
            && f == (if point then DigitEnd(t, w + 1) else w)
            && (point ==> w + 1 <= f && t[w + 1..f] == n.fraction)
  {
    hide *;
    TailIs(n);
    if n.point {
      BehindPoint(t, w, n.fraction, ExponentText(n.exponent));
      DigitsAt(t, w + 1, n.fraction, ExponentText(n.exponent));
      f := w + 1 + |n.fraction|;
    } else {
      f := w;
      assert w < |t| ==> t[w] == t[w..][0];
    }
  }

  lemma TailIs(n: NumberSyntax)
    ensures Tail(n) == (if n.point then [DOT] + n.fraction else []) + ExponentText(n.exponent)
    ensures !n.point ==> Tail(n) == ExponentText(n.exponent)
  {
    hide ExponentText;
    assert [] + ExponentText(n.exponent) == ExponentText(n.exponent);
  }

  lemma BehindPoint(t: bytes, w: nat, fraction: bytes, rest: bytes)
    requires w <= |t| && t[w..] == [DOT] + fraction + rest
    ensures w < |t| && t[w] == DOT && t[w + 1..] == fraction + rest
  {
    assert t[w..][0] == DOT && t[w..][1..] == fraction + rest;
    assert t[w + 1..] == t[w..][1..];
  }

  lemma NumberBytes(n: NumberSyntax)
    requires Readable(n)
    ensures |NumberText(n)| > 0 && StartsNumber(NumberText(n)[0])
    ensures AllNumberBytes(NumberText(n))
  {
    hide IsDigit, AllNumberBytes, ExponentText, FractionText, IsNumberByte;
    DigitsAreNumberBytes(n.whole);
    ExponentBytes(n.exponent);
    FractionBytes(n);
    NumberBytesAppend(FractionText(n), ExponentText(n.exponent));
    NumberBytesAppend(n.whole, FractionText(n) + ExponentText(n.exponent));
    MarksAreNumberBytes();
    if n.minus {
      NumberBytesAppend([MINUS], n.whole + Tail(n));
    } else {
      assert [] + (n.whole + Tail(n)) == n.whole + Tail(n);
      assert NumberText(n)[0] == n.whole[0];
    }
  }

  ghost predicate AllNumberBytes(t: bytes) {
    forall k :: 0 <= k < |t| ==> IsNumberByte(t[k])
  }

  lemma NumberBytesAppend(a: bytes, b: bytes)
    requires AllNumberBytes(a) && AllNumberBytes(b)
    ensures AllNumberBytes(a + b)
  {
    hide IsNumberByte;
  }

  lemma MarksAreNumberBytes()
    ensures AllNumberBytes([MINUS]) && AllNumberBytes([DOT]) && AllNumberBytes([]) && AllNumberBytes([PLUS])
  {
  }

  lemma DigitsAreNumberBytes(t: bytes)
    requires AllDigits(t)
    ensures AllNumberBytes(t)
  {
  }

  lemma FractionBytes(n: NumberSyntax)
    requires AllDigits(n.fraction)
    ensures AllNumberBytes(FractionText(n))
  {
    hide AllNumberBytes, AllDigits;
    MarksAreNumberBytes();
    DigitsAreNumberBytes(n.fraction);
    NumberBytesAppend([DOT], n.fraction);
  }

  lemma ExponentBytes(e: Exponent)
    requires GoodExponent(e)
    ensures AllNumberBytes(ExponentText(e))
  {
    hide AllNumberBytes, AllDigits;
    MarksAreNumberBytes();
    if e.Exponent? {
      MarkIsNumberByte(e.mark);
      DigitsAreNumberBytes(e.digits);
      NumberBytesAppend([e.mark], e.sign);
      NumberBytesAppend([e.mark] + e.sign, e.digits);
    }
  }

  lemma MarkIsNumberByte(b: byte)
    requires IsExponentMark(b)
    ensures AllNumberBytes([b])
  {
  }

  lemma NumberDenotesValue(n: NumberSyntax, depth: nat)
    requires Readable(n) && |NumberText(n)| <= NUMBER_TEXT_LIMIT
    ensures Denotes(NumberText(n), Number(NumberValue(n)), depth)
  {
    hide *;
    var u := NumberText(n);
    NumberBytes(n);
    NumberBegins(u);
    NumberReads(n);
    forall s: bytes, i: nat | Terminated(s) && At(s, i, u) && i + |u| < |s| && StopsNumber(s[i + |u|])
      ensures ParseValue(s, i, depth) == Ok(Number(NumberValue(n)), i + |u|)
    {
      NumberTextParses(u, NumberValue(n), s, i, depth);
    }
    Meant(u, Number(NumberValue(n)), depth);
  }

  lemma NumberBegins(u: bytes)
    requires u != [] && StartsNumber(u[0])
    ensures StartsValue(u[0])
  {
  }

  lemma Meant(u: bytes, v: Json, depth: nat)
    requires u != [] && StartsValue(u[0])
    requires forall s: bytes, i: nat {:trigger At(s, i, u)} ::
               Terminated(s) && At(s, i, u) && i + |u| < |s| && StopsNumber(s[i + |u|])
               ==> ParseValue(s, i, depth) == Ok(v, i + |u|)
    ensures Denotes(u, v, depth)
  {
    hide ParseValue, At, StopsNumber, StartsValue;
  }

  lemma NumberTextParses(u: bytes, value: real, s: bytes, i: nat, depth: nat)
    requires |u| > 0 && StartsNumber(u[0]) && |u| <= NUMBER_TEXT_LIMIT && Strtod(u) == Numeral(|u|, value)
    requires AllNumberBytes(u)
    requires Terminated(s) && At(s, i, u) && i + |u| < |s| && StopsNumber(s[i + |u|])
    ensures ParseValue(s, i, depth) == Ok(Number(value), i + |u|)
  {
    hide Strtod, At, RunLength, IsNumberByte, ParseValue, StartsNumber;
    AtSlice(s, i, u);
    assert s[i] == s[i..i + |u|][0];
    assert forall k :: i <= k < i + |u| ==> s[k] == s[i..i + |u|][k - i];
    RunLengthIs(s, i, NUMBER_TEXT_LIMIT, |u|);
    NumberValueStep(s, i, depth);
  }

  // Values are read.

  lemma BlanksAreBlank(t: bytes)
    requires Blanks(Lenient, t)
    ensures AllBlank(t)
  {
  }

  lemma WordDenotes(depth: nat)
    ensures Denotes(NULL_TEXT, Null, depth) && Denotes(FALSE_TEXT, False, depth)
    ensures Denotes(TRUE_TEXT, True, depth)
  {
    hide ParseValue, At, StopsNumber;
    forall s: bytes, i: nat | Terminated(s) && i < |s|
      ensures At(s, i, NULL_TEXT) ==> ParseValue(s, i, depth) == Ok(Null, i + 4)
      ensures At(s, i, FALSE_TEXT) ==> ParseValue(s, i, depth) == Ok(False, i + 5)
      ensures At(s, i, TRUE_TEXT) ==> ParseValue(s, i, depth) == Ok(True, i + 4)
    {
      LiteralWordsParse(s, i, depth);
    }
  }

  /** The text of a value means that value wherever it stands, if the depth left suffices. */
  lemma {:induction false} DocDenotes(d: Doc, depth: nat)
    requires Follows(Lenient, d) && depth + Nesting(DocValue(d)) <= NESTING_LIMIT
    ensures Denotes(DocText(d), DocValue(d), depth)
    decreases d, 0
  {
    hide Denotes, ItemsAndEnd, EntriesAndEnd, ItemsValue, EntriesValue, StringText, NumberText, NumberValue,
      Blanks, ItemsFollow, EntriesFollow, Readable, GoodString, PiecesMeaning, UpToNul;
    match d
    case NumberDoc(n) =>
      NumberDenotesValue(n, depth);
    case StringDoc(ps) =>
      StringDenotesKey(ps);
      KeyDenotesString(StringText(ps), UpToNul(PiecesMeaning(ps)), depth);
    case ArrayDoc(blanks, items) =>
      ArrayDocDenotes(blanks, items, depth);
    case ObjectDoc(blanks, entries) =>
      ObjectDocDenotes(blanks, entries, depth);
    case _ =>
      WordDenotes(depth);
  }

  lemma {:induction false} ArrayDocDenotes(blanks: bytes, items: seq<Item>, depth: nat)
    requires Blanks(Lenient, blanks) && ItemsFollow(Lenient, items)
    requires depth + 1 + NestingOfItems(ItemsValue(items)) <= NESTING_LIMIT
    ensures Denotes(DocText(ArrayDoc(blanks, items)), Array(ItemsValue(items)), depth)
    decreases items, 1
  {
    hide Denotes, DenotesItems, ItemsAndEnd, Follows, Blanks, AllBlank, Nesting, DocValue;
    BlanksAreBlank(blanks);
    if items == [] {
      EmptyArrayDenotes(blanks, depth);
    } else {
      BlanksAreBlank(items[0].lead);
      ItemsDenote(items, depth + 1);
      ArrayDenotes(items[0].lead, ItemsAndEnd(items), ItemsValue(items), depth);
    }
  }

  lemma {:induction false} ItemsDenote(items: seq<Item>, depth: nat)
    requires ItemsFollow(Lenient, items) && items != []
    requires depth + NestingOfItems(ItemsValue(items)) <= NESTING_LIMIT
    ensures DenotesItems(ItemsAndEnd(items), ItemsValue(items), depth)
    decreases items, 0
  {
    hide *;
    ItemsUnfolded(items);
    ItemsNesting(ItemsValue(items), depth);
    BlanksAreBlank(items[0].trail);
    HeadOfItems(items);
    var head, v := DocText(items[0].value), DocValue(items[0].value);
    DocDenotes(items[0].value, depth);
    if |items| == 1 {
      ItemsEndDenotes(head, v, items[0].trail, depth);
    } else {
      BlanksAreBlank(items[1].lead);
      ItemsDenote(items[1..], depth);
      ItemsMoreDenotes(
        head, v, items[0].trail, items[1].lead, ItemsAndEnd(items[1..]), ItemsValue(items[1..]), depth);
    }
  }

  lemma HeadOfItems(items: seq<Item>)
    requires items != []
    ensures |items| > 1 ==> items[1..] != [] && items[1..][0] == items[1]
  {
  }

  lemma ItemsUnfolded(items: seq<Item>)
    requires ItemsFollow(Lenient, items) && items != []
    ensures Follows(Lenient, items[0].value) && Blanks(Lenient, items[0].trail) && ItemsFollow(Lenient, items[1..])
    ensures |items| > 1 ==> Blanks(Lenient, items[1].lead)
    ensures ItemsValue(items) != [] && ItemsValue(items)[0] == DocValue(items[0].value)
    ensures ItemsValue(items)[1..] == ItemsValue(items[1..])
    ensures |items| == 1 ==> ItemsValue(items) == [DocValue(items[0].value)]
    ensures ItemsValue(items) == [DocValue(items[0].value)] + ItemsValue(items[1..])
    ensures |items| == 1 ==> ItemsAndEnd(items) == DocText(items[0].value) + (items[0].trail + ([RBRACKET] + []))
    ensures |items| > 1 ==>
              ItemsAndEnd(items)
              == DocText(items[0].value) + (items[0].trail + ([COMMA] + (items[1].lead + ItemsAndEnd(items[1..]))))
  {
    hide Follows, DocValue, DocText, Blanks;
    assert |items| > 1 ==> items[1..][0] == items[1];
  }

  lemma {:induction false} ObjectDocDenotes(blanks: bytes, entries: seq<Entry>, depth: nat)
    requires Blanks(Lenient, blanks) && EntriesFollow(Lenient, entries)
    requires depth + 1 + NestingOfMembers(EntriesValue(entries)) <= NESTING_LIMIT
    ensures Denotes(DocText(ObjectDoc(blanks, entries)), Object(EntriesValue(entries)), depth)
    decreases entries, 1
  {
    hide Denotes, DenotesMembers, EntriesAndEnd, Follows, Blanks, AllBlank, Nesting, DocValue, GoodString;
    BlanksAreBlank(blanks);
    if entries == [] {
      EmptyObjectDenotes(blanks, depth);
    } else {
      BlanksAreBlank(entries[0].lead);
      EntriesDenote(entries, depth + 1);
      ObjectDenotes(entries[0].lead, EntriesAndEnd(entries), EntriesValue(entries), depth);
    }
  }

  lemma {:induction false} EntriesDenote(entries: seq<Entry>, depth: nat)
    requires EntriesFollow(Lenient, entries) && entries != []
    requires depth + NestingOfMembers(EntriesValue(entries)) <= NESTING_LIMIT
    ensures DenotesMembers(EntriesAndEnd(entries), EntriesValue(entries), depth)
    decreases entries, 0
  {
    hide *;
    EntriesUnfolded(entries);
    MembersNesting(EntriesValue(entries), depth);
    var e := entries[0];
    var m := Member(UpToNul(PiecesMeaning(e.key)), DocValue(e.value));
    EntryBlanks(e);
    DocDenotes(e.value, depth);
    StringDenotesKey(e.key);
    EntryIs(e);
    MemberDenotes(
      m.key, StringText(e.key), e.beforeColon, e.afterColon, DocText(e.value), m.value, depth);
    if |entries| == 1 {
      MembersEndDenotes(EntryText(e), m, e.trail, depth);
    } else {
      EntryBlanks(entries[1]);
      EntriesDenote(entries[1..], depth);
      MembersMoreDenotes(
        EntryText(e), m, e.trail, entries[1].lead, EntriesAndEnd(entries[1..]), EntriesValue(entries[1..]), depth);
    }
  }

  lemma EntryIs(e: Entry)
    ensures EntryText(e) == StringText(e.key) + (e.beforeColon + ([COLON] + (e.afterColon + DocText(e.value))))
  {
    hide StringText, DocText;
  }

  lemma EntryBlanks(e: Entry)
    requires GoodEntry(Lenient, e)
    ensures AllBlank(e.lead) && AllBlank(e.beforeColon) && AllBlank(e.afterColon) && AllBlank(e.trail)
    ensures GoodString(Lenient, e.key)
  {
    hide GoodString;
  }

  lemma EntriesUnfolded(entries: seq<Entry>)
    requires EntriesFollow(Lenient, entries) && entries != []
    ensures GoodEntry(Lenient, entries[0]) && Follows(Lenient, entries[0].value)
    ensures EntriesFollow(Lenient, entries[1..])
    ensures |entries| > 1 ==> GoodEntry(Lenient, entries[1]) && entries[1..] != [] && entries[1..][0] == entries[1]
    ensures var m := Member(UpToNul(PiecesMeaning(entries[0].key)), DocValue(entries[0].value));
            EntriesValue(entries) == [m] + EntriesValue(entries[1..])
            && EntriesValue(entries) != [] && EntriesValue(entries)[0] == m
            && EntriesValue(entries)[1..] == EntriesValue(entries[1..])
            && (|entries| == 1 ==> EntriesValue(entries) == [m])
    ensures |entries| == 1 ==>
              EntriesAndEnd(entries) == EntryText(entries[0]) + (entries[0].trail + ([RBRACE] + []))
    ensures |entries| > 1 ==>
              EntriesAndEnd(entries)
              == EntryText(entries[0])
                 + (entries[0].trail + ([COMMA] + (entries[1].lead + EntriesAndEnd(entries[1..]))))
  {
    hide Follows, DocValue, EntryText, Blanks, GoodEntry, PiecesMeaning, UpToNul;
    assert |entries| > 1 ==> entries[1..][0] == entries[1];
  }

  // The whole text.

  /** A value with blanks around it, the terminator behind it, and perhaps a byte order mark
      in front. */
  function WholeText(mark: bool, lead: bytes, d: Doc, trail: bytes): bytes {
    (if mark then BOM else []) + (lead + (DocText(d) + (trail + [NUL])))
  }

  /** The value nests no deeper than the limit, and value and blanks follow the rules. */
  ghost predicate WithinLimits(rules: Rules, lead: bytes, d: Doc, trail: bytes) {
    Blanks(rules, lead) && Blanks(rules, trail) && Follows(rules, d) && Nesting(DocValue(d)) <= 1000
  }

  /** Every text of the grammar, under either set of rules, is accepted as the value it stands
      for, with all its characters if and only if none of them is U+0000. */
  lemma GrammarIsAccepted(rules: Rules, mark: bool, lead: bytes, d: Doc, trail: bytes)
    requires WithinLimits(rules, lead, d, trail)
    ensures var text := WholeText(mark, lead, d, trail);
            Terminated(text) && ParseWithOpts(text, true) == Ok(DocValue(d), |text| - 1)
            && (ParseWithOpts(text, true) == Ok(DocMeaning(d), |text| - 1) <==> DocNoNul(d))
  {
    hide *;
    WithinIs(rules, lead, d, trail);
    BlanksAreBlank(lead);
    BlanksAreBlank(trail);
    DocDenotes(d, 0);
    DocBegins(d);
    DenotesNonEmpty(DocText(d), DocValue(d));
    KeptTextParses(if mark then BOM else [], lead, DocText(d), DocValue(d), trail);
    WholeIs(mark, lead, d, trail);
    DocWhole(d);
  }

  /** Without the demand for a terminator, a text of the grammar is accepted as its value and
      to its end whatever stands behind it, as long as no number goes on there. */
  lemma AnythingMayFollow(rules: Rules, mark: bool, lead: bytes, d: Doc, rest: bytes)
    requires WithinLimits(rules, lead, d, []) && Terminated(rest) && StopsNumber(rest[0])
    ensures var front := (if mark then BOM else []) + (lead + DocText(d));
            Terminated(front + rest) && ParseWithOpts(front + rest, false) == Ok(DocValue(d), |front|)
  {
    hide *;
    WithinIs(rules, lead, d, []);
    BlanksAreBlank(lead);
    DocDenotes(d, 0);
    DocBegins(d);
    DenotesNonEmpty(DocText(d), DocValue(d));
    var bom := if mark then BOM else [];
    FrontReads(bom, lead, DocText(d), DocValue(d), rest);
    assert bom + (lead + DocText(d)) + rest == bom + (lead + (DocText(d) + rest));
  }

  lemma WithinIs(rules: Rules, lead: bytes, d: Doc, trail: bytes)
    requires WithinLimits(rules, lead, d, trail)
    ensures WithinLimits(Lenient, lead, d, trail)
    ensures Blanks(Lenient, lead) && Blanks(Lenient, trail) && Follows(Lenient, d)
    ensures 0 + Nesting(DocValue(d)) <= NESTING_LIMIT
  {
    hide Blanks, Follows, DocValue;
    BlanksAreLenient(rules, lead);
    BlanksAreLenient(rules, trail);
    FollowsLeniently(rules, d);
  }

  lemma WholeIs(mark: bool, lead: bytes, d: Doc, trail: bytes)
    ensures WholeText(mark, lead, d, trail)
         == (if mark then BOM else []) + (lead + (DocText(d) + (trail + [NUL])))
  {
    hide DocText;
  }

  lemma DocBegins(d: Doc)
    requires Follows(Lenient, d)
    ensures DocText(d) != [] && DocText(d)[0] < 0x80
  {
    hide NumberText, ItemsAndEnd, EntriesAndEnd, ItemsFollow, EntriesFollow, Readable, GoodPieces, Paired;
    if d.NumberDoc? {
      NumberBytes(d.number);
    }
  }

  const ZERO_GROUP: bytes := [BACKSLASH, LETTER_U, ZERO, ZERO, ZERO, ZERO]

  /** An a, the character U+0000, and a b. */
  const WITH_NUL: seq<Piece> := [Plain(0x61), Unicode(ZERO_GROUP), Plain(0x62)]

  /** A text of RFC 8259 of which the tree does not hold all. */
  lemma CutAtNul()
    ensures WithinLimits(Rfc, [], StringDoc(WITH_NUL), [])
    ensures DocMeaning(StringDoc(WITH_NUL)) == String([0x61, NUL, 0x62])
    ensures StringText(WITH_NUL) == [QUOTE, 0x61] + ZERO_GROUP + [0x62, QUOTE]
    ensures var text := StringText(WITH_NUL) + [NUL];
            Terminated(text) && ParseWithOpts(text, true) == Ok(String([0x61]), |text| - 1)
  {
    hide *;
    NulPieces();
    CutString(WITH_NUL);
    NulText();
    GrammarIsAccepted(Rfc, false, [], StringDoc(WITH_NUL), []);
    WholeIs(false, [], StringDoc(WITH_NUL), []);
    assert [] + ([] + (StringText(WITH_NUL) + ([] + [NUL]))) == StringText(WITH_NUL) + [NUL];
  }

  lemma ZeroGroup()
    ensures GoodPiece(Rfc, Unicode(ZERO_GROUP)) && PieceMeaning(Unicode(ZERO_GROUP)) == [NUL]
  {
    HexNumberBound(ZERO_GROUP[2..]);
  }

  lemma NulPieces()
    ensures GoodPieces(Rfc, WITH_NUL) && PiecesMeaning(WITH_NUL) == [0x61, NUL, 0x62]
    ensures PiecesText(WITH_NUL) == [0x61] + ZERO_GROUP + [0x62]
  {
    hide PiecesText, PiecesMeaning, Code, HexDigits;
    ZeroGroup();
    ThreePieces(Plain(0x61), Unicode(ZERO_GROUP), Plain(0x62));
  }

  lemma NulText()
    requires PiecesText(WITH_NUL) == [0x61] + ZERO_GROUP + [0x62]
    ensures StringText(WITH_NUL) == [QUOTE, 0x61] + ZERO_GROUP + [0x62, QUOTE]
  {
    hide PiecesText;
  }

  lemma CutString(ps: seq<Piece>)
    requires GoodPieces(Rfc, ps) && PiecesMeaning(ps) == [0x61, NUL, 0x62]
    ensures WithinLimits(Rfc, [], StringDoc(ps), []) && DocText(StringDoc(ps)) == StringText(ps)
    ensures DocMeaning(StringDoc(ps)) == String([0x61, NUL, 0x62]) && DocValue(StringDoc(ps)) == String([0x61])
  {
    hide PiecesMeaning, PiecesText, GoodPieces, Paired;
    assert [0x61, NUL, 0x62][1..][0] == NUL;
  }

  lemma ThreePieces(a: Piece, b: Piece, c: Piece)
    ensures PiecesText([a, b, c]) == PieceText(a) + PieceText(b) + PieceText(c)
    ensures PiecesMeaning([a, b, c]) == PieceMeaning(a) + PieceMeaning(b) + PieceMeaning(c)
  {
    hide *;
    OneAndMore(a, [b, c]);
    OneAndMore(b, [c]);
    OneAndMore(c, []);
    assert [a] + [b, c] == [a, b, c] && [b] + [c] == [b, c] && [c] + [] == [c];
    Associates(PieceText(a), PieceText(b), PieceText(c));
    Associates(PieceMeaning(a), PieceMeaning(b), PieceMeaning(c));
  }

  lemma Associates(a: bytes, b: bytes, c: bytes)
    ensures a + (b + (c + [])) == a + b + c
  {
  }

  lemma OneAndMore(p: Piece, ps: seq<Piece>)
    ensures PiecesText([p] + ps) == PieceText(p) + PiecesText(ps)
    ensures PiecesMeaning([p] + ps) == PieceMeaning(p) + PiecesMeaning(ps)
    ensures PiecesText([]) == [] && PiecesMeaning([]) == []
  {
    hide PieceText, PieceMeaning;
    assert ([p] + ps)[1..] == ps;
  }
}
