/** What the parser accepts, exactly: the texts of the grammar under the lenient rules. */
module Dialect {
  import opened Bytes
  import opened JsonTree
  import opened Numerals
  import opened Utf16
  import opened Literal
  import opened Parsing
  import opened RoundTrip
  import opened Grammar
  import opened Acceptance

  lemma Glue(s: bytes, a: nat, b: nat, c: nat)
    requires a <= b <= c <= |s|
    ensures s[a..c] == s[a..b] + s[b..c]
  {
  }

  lemma GlueByte(s: bytes, a: nat, c: nat)
    requires a < c <= |s|
    ensures s[a..c] == [s[a]] + s[a + 1..c]
  {
  }

  lemma SkippedIsBlank(s: bytes, start: nat, i: nat)
    requires start <= i < |s| && SkipWhitespace(s, start) == SkipWhitespace(s, i)
    ensures i <= SkipWhitespace(s, i) < |s| && Blanks(Lenient, s[start..SkipWhitespace(s, i)])
  {
    BlanksSkipped(s, start);
  }

  lemma BlanksSkipped(s: bytes, i: nat)
    requires i <= |s|
    ensures forall k :: i <= k < SkipBlanks(s, i) ==> s[k] <= 32
    decreases |s| - i
  {
  }

  // Strings.

  /** The piece that the decoder takes at `q`. */
  lemma OnePiece(lit: bytes, q: nat) returns (p: Piece)
    requires q < |lit| && Decode(lit, q) != Malformed(q)
    ensures GoodPiece(Lenient, p) && 0 < |PieceText(p)| <= |lit| - q
    ensures lit[q..q + |PieceText(p)|] == PieceText(p)
    ensures p.LoneBackslash? ==> q + 1 == |lit|
    ensures Decode(lit, q) == Decode(lit, q + |PieceText(p)|).Prepend(PieceMeaning(p))
  {
    hide *;
    TakenAt(lit, q);
    var c := ByteAt(lit, q + 1);
    if lit[q] != BACKSLASH {
      PlainPiece(lit[q]);
      p := Plain(lit[q]);
    } else if SimpleEscape(c).None? {
      p := GroupPiece(lit[q..]);
      assert lit[q..][..|PieceText(p)|] == lit[q..q + |PieceText(p)|];
    } else if q + 1 == |lit| {
      LonePiece(lit);
      p := LoneBackslash;
    } else {
      ShortPiece(c);
      BothBytes(lit, q);
      p := Short(c);
    }
  }

  /** The decoding loop's three branches. */
  lemma TakenAt(lit: bytes, q: nat)
    requires q < |lit| && Decode(lit, q) != Malformed(q)
    ensures lit[q] != BACKSLASH ==> Decode(lit, q) == Decode(lit, q + 1).Prepend([lit[q]])
    ensures lit[q] == BACKSLASH ==>
              var c := ByteAt(lit, q + 1);
              if SimpleEscape(c).Some? then Decode(lit, q) == Decode(lit, q + 2).Prepend([SimpleEscape(c).value])
              else
                var r := ConvertLiteral(lit[q..]);
                |lit[q..]| >= 2 && lit[q..][0] == BACKSLASH && lit[q..][1] == LETTER_U && 0 < r.consumed <= |lit| - q
                && Decode(lit, q) == Decode(lit, q + r.consumed).Prepend(r.utf8)
  {
    hide ConvertLiteral;
  }

  lemma PlainPiece(b: byte)
    requires b != BACKSLASH
    ensures GoodPiece(Lenient, Plain(b)) && PieceText(Plain(b)) == PieceMeaning(Plain(b)) == [b]
  {
  }

  lemma ShortPiece(c: byte)
    requires SimpleEscape(c).Some?
    ensures GoodPiece(Lenient, Short(c)) && PieceText(Short(c)) == [BACKSLASH, c]
    ensures PieceMeaning(Short(c)) == [SimpleEscape(c).value]
  {
  }

  lemma LonePiece(lit: bytes)
    ensures GoodPiece(Lenient, LoneBackslash) && PieceText(LoneBackslash) == [BACKSLASH]
    ensures ByteAt(lit, |lit|) == QUOTE && PieceMeaning(LoneBackslash) == [QUOTE]
    ensures SimpleEscape(QUOTE) == Some(QUOTE) && Decode(lit, |lit| + 1) == Decode(lit, |lit|)
  {
  }

  lemma BothBytes(lit: bytes, q: nat)
    requires q + 1 < |lit|
    ensures lit[q..q + 2] == [lit[q], ByteAt(lit, q + 1)]
  {
  }

  lemma GroupPiece(t: bytes) returns (p: Piece)
    requires |t| >= 2 && t[0] == BACKSLASH && t[1] == LETTER_U && ConvertLiteral(t).consumed > 0
    ensures GoodPiece(Lenient, p) && !p.LoneBackslash? && |PieceText(p)| == ConvertLiteral(t).consumed <= |t|
    ensures PieceText(p) == t[..|PieceText(p)|] && PieceMeaning(p) == ConvertLiteral(t).utf8
  {
    hide EncodeUtf8, ParseHex4;
    assert t[..6][2..] == t[2..6];
    if ConvertLiteral(t).consumed == 6 {
      return Unicode(t[..6]);
    }
    assert t[6..12][2..] == t[8..12];
    assert t[..6] + t[6..12] == t[..12];
    p := Pair(t[..6], t[6..12]);
  }

  lemma {:induction false} PiecesOf(lit: bytes, q: nat) returns (ps: seq<Piece>)
    requires q <= |lit| && Decode(lit, q).Decoded?
    ensures GoodPieces(Lenient, ps) && PiecesText(ps) == lit[q..]
    ensures PiecesMeaning(ps) == Decode(lit, q).out
    decreases |lit| - q
  {
    hide GoodPiece, PieceText, PieceMeaning, Decode;
    if q == |lit| {
      DecodedToEnd(lit);
      return [];
    }
    var p := OnePiece(lit, q);
    var n := |PieceText(p)|;
    Glue(lit, q, q + n, |lit|);
    LoneIsLast(p);
    var rest := PiecesOf(lit, q + n);
    ps := [p] + rest;
    assert ps[1..] == rest;
    assert p.LoneBackslash? ==> rest == [] by {
      if p.LoneBackslash? && rest != [] {
        RestGood(Lenient, rest);
        PieceNotEmpty(rest[0]);
        assert false;
      }
    }
  }

  lemma LoneIsLast(p: Piece)
    ensures p.LoneBackslash? ==> |PieceText(p)| == 1
  {
  }

  lemma PieceNotEmpty(p: Piece)
    requires GoodPiece(Lenient, p)
    ensures PieceText(p) != []
  {
  }

  lemma {:induction false} PairedOfScan(s: bytes, j: nat, e: nat)
    requires j <= |s| && ScanEnd(s, j) == Some(e)
    ensures j <= e < |s| && Paired(s[j..e])
    decreases |s| - j
  {
    if s[j] != QUOTE {
      var step := if s[j] == BACKSLASH then 2 else 1;
      PairedOfScan(s, j + step, e);
      assert s[j..e][step..] == s[j + step..e];
    }
  }

  /** Every literal that is accepted is a string under the lenient rules. */
  lemma StringOf(s: bytes, i: nat) returns (ps: seq<Piece>)
    requires i < |s| && ParseString(s, i).Ok?
    ensures GoodString(Lenient, ps) && s[i..ParseString(s, i).next] == StringText(ps)
    ensures ParseString(s, i).value == UpToNul(PiecesMeaning(ps))
  {
    hide GoodPieces, Paired, PiecesText, PiecesMeaning, Decode, ScanEnd, UpToNul;
    var e := ScanEnd(s, i + 1).value;
    var lit := s[i + 1..e];
    ps := PiecesOf(lit, 0);
    assert lit[0..] == lit;
    PairedOfScan(s, i + 1, e);
    assert s[i..e + 1] == [QUOTE] + (lit + [QUOTE]);
  }

  // Numbers.

  lemma DigitsFrom(t: bytes, i: nat)
    requires i <= |t|
    ensures i <= DigitEnd(t, i) <= |t| && AllDigits(t[i..DigitEnd(t, i)])
  {
  }

  /** Where the digits of an exponent would begin. */
  function ExponentFrom(t: bytes, f: nat): (from: nat)
    requires f < |t|
    ensures f < from <= |t|
  {
    if f + 1 < |t| && IsSign(t[f + 1]) then f + 2 else f + 1
  }

  predicate HasExponent(t: bytes, f: nat) {
    f < |t| && IsExponentMark(t[f]) && DigitEnd(t, ExponentFrom(t, f)) > ExponentFrom(t, f)
  }

  lemma ExponentOf(t: bytes, f: nat) returns (e: Exponent)
    requires HasExponent(t, f)
    ensures var from := ExponentFrom(t, f);
            f + 1 < |t| && from <= DigitEnd(t, from) <= |t| && GoodExponent(e)
            && t[f..DigitEnd(t, from)] == ExponentText(e)
            && ExponentValue(e)
               == var x := DigitsValue(t[from..DigitEnd(t, from)]); if t[f + 1] == MINUS then -x else x
  {
    hide DigitEnd, DigitsValue, AllDigits;
    var from := ExponentFrom(t, f);
    var end := DigitEnd(t, from);
    DigitsFrom(t, from);
    e := Exponent(t[f], t[f + 1..from], t[from..end]);
    assert from == f + 1 ==> t[f + 1..from] == [] && t[f + 1] != MINUS;
    assert from == f + 2 ==> t[f + 1..from] == [t[f + 1]];
    assert t[f..end] == [t[f]] + t[f + 1..from] + t[from..end];
  }

  /** strtod, part by part. */
  lemma StrtodTakes(t: bytes, start: nat, w: nat, f: nat, fraction: bytes)
    requires |t| > 0 && Strtod(t).consumed > 0
    requires start == (if IsSign(t[0]) then 1 else 0) && w == DigitEnd(t, start)
    requires var point := w < |t| && t[w] == DOT;
             f == (if point then DigitEnd(t, w + 1) else w)
             && (if point then w + 1 <= f <= |t| && fraction == t[w + 1..f] else fraction == [])
    ensures start <= w <= f <= |t| && t[start..w] + fraction != []
    ensures !HasExponent(t, f) ==>
              Strtod(t) == Numeral(f, Scaled(t[0] == MINUS, t[start..w] + fraction, -|fraction|))
    ensures HasExponent(t, f) ==>
              var from := ExponentFrom(t, f);
              var end := DigitEnd(t, from);
              f + 1 < |t|
              && var x := DigitsValue(t[from..end]);
                 Strtod(t)
                 == Numeral(
                      end,
                      Scaled(t[0] == MINUS, t[start..w] + fraction, (if t[f + 1] == MINUS then -x else x) - |fraction|))
  {
    hide *;
    StrtodDigits(t, start, w, f, fraction);
    ExponentTakes(t, f, t[start..w] + fraction, |fraction|);
  }

  lemma ExponentTakes(t: bytes, f: nat, digits: bytes, places: int)
    requires t != [] && f <= |t|
    ensures !HasExponent(t, f) ==>
              AtExponent(t, f, digits, places) == Numeral(f, Scaled(t[0] == MINUS, digits, -places))
    ensures HasExponent(t, f) ==>
              var from := ExponentFrom(t, f);
              var end := DigitEnd(t, from);
              f + 1 < |t|
              && var x := DigitsValue(t[from..end]);
                 AtExponent(t, f, digits, places)
                 == Numeral(end, Scaled(t[0] == MINUS, digits, (if t[f + 1] == MINUS then -x else x) - places))
  {
    hide DigitEnd, DigitsValue, Scaled, IsSign, IsExponentMark;
  }

  /** Every number that strtod takes is one of the lenient rules. */
  lemma NumberOf(t: bytes) returns (n: NumberSyntax)
    requires |t| > 0 && StartsNumber(t[0]) && Strtod(t).consumed > 0
    ensures Readable(n) && NumberText(n) == t[..Strtod(t).consumed] && NumberValue(n) == Strtod(t).value
  {
    hide *;
    var start := if t[0] == MINUS then 1 else 0;
    SignInFront(t);
    var w := DigitEnd(t, start);
    DigitsFrom(t, start);
    var point := w < |t| && t[w] == DOT;
    var f, fraction := w, [];
    NoDigits();
    if point {
      DigitsFrom(t, w + 1);
      f := DigitEnd(t, w + 1);
      fraction := t[w + 1..f];
    }
    StrtodTakes(t, start, w, f, fraction);
    var exponent := NoExponent;
    NoExponentText(exponent);
    if HasExponent(t, f) {
      exponent := ExponentOf(t, f);
    } else {
      assert t[f..f] == [];
      NoExponentIsGood();
    }
    n := NumberSyntax(t[0] == MINUS, t[start..w], point, fraction, exponent);
    FirstDigit(t, w);
    IsReadable(n);
    NumberIs(n);
    Laid(t, n, start, w, f, Strtod(t).consumed);
  }

  lemma NoDigits()
    ensures AllDigits([])
  {
  }

  lemma NoExponentIsGood()
    ensures GoodExponent(NoExponent)
  {
  }

  lemma SignInFront(t: bytes)
    requires |t| > 0 && StartsNumber(t[0])
    ensures IsSign(t[0]) <==> t[0] == MINUS
  {
  }

  lemma FirstDigit(t: bytes, w: nat)
    requires |t| > 0 && StartsNumber(t[0])
    ensures t[0] != MINUS && w == DigitEnd(t, 0) ==> w > 0
  {
  }

  lemma IsReadable(n: NumberSyntax)
    requires AllDigits(n.whole) && AllDigits(n.fraction) && GoodExponent(n.exponent)
    requires (n.fraction != [] ==> n.point) && n.whole + n.fraction != [] && (!n.minus ==> n.whole != [])
    ensures Readable(n)
  {
    hide AllDigits, GoodExponent;
  }

  lemma Laid(t: bytes, n: NumberSyntax, start: nat, w: nat, f: nat, end: nat)
    requires start <= w <= f <= end <= |t| && |t| > 0
    requires start == (if n.minus then 1 else 0) && (n.minus <==> t[0] == MINUS) && n.whole == t[start..w]
    requires n.point ==> w + 1 <= f && t[w] == DOT && n.fraction == t[w + 1..f]
    requires !n.point ==> f == w
    requires ExponentText(n.exponent) == t[f..end]
    ensures NumberText(n) == t[..end]
  {
    hide *;
    NumberTextIs(n);
    Glue(t, w, f, end);
    Glue(t, start, w, end);
    SignAndDigits(t, start, end);
    if n.point {
      GlueByte(t, w, f);
    } else {
      assert t[w..f] == [];
    }
  }

  lemma NumberTextIs(n: NumberSyntax)
    ensures FractionText(n) == if n.point then [DOT] + n.fraction else []
    ensures NumberText(n)
         == (if n.minus then [MINUS] else []) + (n.whole + (FractionText(n) + ExponentText(n.exponent)))
  {
    hide ExponentText;
  }

  lemma SignAndDigits(t: bytes, start: nat, end: nat)
    requires start <= 1 && start <= end <= |t| && |t| > 0
    ensures t[..end] == (if start == 1 then [t[0]] else []) + t[start..end]
  {
  }

  lemma NumberValueOf(s: bytes, i: nat) returns (d: Doc)
    requires Terminated(s) && i < |s| && StartsNumber(s[i]) && ParseNumber(s, i).Ok?
    ensures var r := ParseNumber(s, i);
            i < r.next < |s| && Follows(Lenient, d) && s[i..r.next] == DocText(d) && r.value == DocValue(d)
  {
    hide Strtod, Readable, NumberText, NumberValue, StartsNumber, IsNumberByte, RunLength, Terminated;
    var run := RunLength(s, i, NUMBER_TEXT_LIMIT);
    var t := s[i..i + run];
    assert |t| > 0 by {
      if |t| == 0 {
        NothingTaken();
      }
    }
    var n := NumberOf(t);
    assert t[..Strtod(t).consumed] == s[i..i + Strtod(t).consumed];
    d := NumberDoc(n);
  }

  lemma NothingTaken()
    ensures Strtod([]).consumed == 0
  {
  }

  // Values.

  /** The dispatch of parse_value on a value that is accepted. */
  lemma ValueCases(s: bytes, i: nat, depth: nat)
    requires Terminated(s) && i < |s| && ParseValue(s, i, depth).Ok?
    ensures var r := ParseValue(s, i, depth);
            i < r.next < |s|
            && (s[i] == QUOTE ==>
                  ParseString(s, i).Ok? && r == Ok(String(ParseString(s, i).value), ParseString(s, i).next))
            && (StartsNumber(s[i]) ==> r == ParseNumber(s, i))
            && (s[i] == LBRACKET ==> i + 1 < |s| && r == ParseArray(s, i + 1, depth + 1))
            && (s[i] == LBRACE ==> i + 1 < |s| && r == ParseObject(s, i + 1, depth + 1))
    ensures s[i] != QUOTE && !StartsNumber(s[i]) && s[i] != LBRACKET && s[i] != LBRACE ==>
              (IsNullText(s, i) && ParseValue(s, i, depth) == Ok(Null, i + 4))
              || (IsFalseText(s, i) && ParseValue(s, i, depth) == Ok(False, i + 5))
              || (IsTrueText(s, i) && ParseValue(s, i, depth) == Ok(True, i + 4))
  {
    hide ParseString, ParseNumber, ParseArray, ParseObject;
  }

  lemma WordOf(s: bytes, i: nat, r: Outcome<Json>) returns (d: Doc)
    requires Terminated(s) && i < |s| && r.Ok? && i < r.next < |s|
    requires (IsNullText(s, i) && r == Ok(Null, i + 4)) || (IsFalseText(s, i) && r == Ok(False, i + 5))
             || (IsTrueText(s, i) && r == Ok(True, i + 4))
    ensures Follows(Lenient, d) && s[i..r.next] == DocText(d) && r.value == DocValue(d)
  {
    d := if IsNullText(s, i) then NullDoc else if IsFalseText(s, i) then FalseDoc else TrueDoc;
  }

  lemma StringDocIs(ps: seq<Piece>)
    requires GoodString(Lenient, ps)
    ensures var d := StringDoc(ps);
            Follows(Lenient, d) && DocText(d) == StringText(ps) && DocValue(d) == String(UpToNul(PiecesMeaning(ps)))
  {
    hide GoodString, StringText, UpToNul, PiecesMeaning;
  }

  /** Every value that is accepted is one of the lenient rules. */
  lemma {:induction false} DocOf(s: bytes, i: nat, depth: nat) returns (d: Doc)
    requires Terminated(s) && i < |s| && ParseValue(s, i, depth).Ok?
    ensures var r := ParseValue(s, i, depth);
            i < r.next < |s| && Follows(Lenient, d) && s[i..r.next] == DocText(d) && r.value == DocValue(d)
    decreases |s| - i, 0
  {
    hide *;
    ValueCases(s, i, depth);
    if s[i] == QUOTE {
      var ps := StringOf(s, i);
      d := StringDoc(ps);
      StringDocIs(ps);
    } else if StartsNumber(s[i]) {
      d := NumberValueOf(s, i);
    } else if s[i] == LBRACKET {
      d := ArrayOf(s, i, depth + 1);
    } else if s[i] == LBRACE {
      d := ObjectOf(s, i, depth + 1);
    } else {
      d := WordOf(s, i, ParseValue(s, i, depth));
    }
  }

  lemma {:induction false} ArrayOf(s: bytes, i: nat, depth: nat) returns (d: Doc)
    requires Terminated(s) && i + 1 < |s| && s[i] == LBRACKET && ParseArray(s, i + 1, depth).Ok?
    ensures var r := ParseArray(s, i + 1, depth);
            i < r.next < |s| && Follows(Lenient, d) && s[i..r.next] == DocText(d) && r.value == DocValue(d)
    decreases |s| - i - 1, 4
  {
    hide ParseItems, SkipWhitespace, ItemsAndEnd, ItemsValue, ItemsFollow, Blanks, Follows, DocText, DocValue;
    AfterBlanks(s, i + 1);
    var j := SkipWhitespace(s, i + 1);
    SkippedIsBlank(s, i + 1, i + 1);
    var lead := s[i + 1..j];
    GlueByte(s, i, j + 1);
    if s[j] == RBRACKET {
      assert s[i + 1..j + 1] == lead + [RBRACKET];
      d := ArrayDoc(lead, []);
      EmptyArrayIs(lead);
    } else {
      var items := ItemsOf(s, i + 1, j, depth);
      Glue(s, i, j, ParseItems(s, j, depth).next);
      GlueByte(s, i, j);
      d := ArrayDoc([], items);
      ArrayDocIs(items);
      assert [LBRACKET] + lead + ItemsAndEnd(items) == [LBRACKET] + (lead + ItemsAndEnd(items));
    }
  }

  lemma EmptyArrayIs(lead: bytes)
    requires Blanks(Lenient, lead)
    ensures var d := ArrayDoc(lead, []);
            Follows(Lenient, d) && DocText(d) == [LBRACKET] + (lead + [RBRACKET]) && DocValue(d) == Array([])
  {
    hide Blanks;
  }

  lemma ArrayDocIs(items: seq<Item>)
    requires ItemsFollow(Lenient, items) && items != []
    ensures var d := ArrayDoc([], items);
            Follows(Lenient, d) && DocText(d) == [LBRACKET] + (items[0].lead + ItemsAndEnd(items))
            && DocValue(d) == Array(ItemsValue(items))
  {
    hide ItemsFollow, ItemsAndEnd, ItemsValue;
  }

  /** One item, to the comma or bracket behind it. */
  lemma {:induction false} ItemOf(s: bytes, start: nat, from: nat, depth: nat) returns (item: Item)
    requires Terminated(s) && start <= from < |s| && SkipWhitespace(s, start) == SkipWhitespace(s, from)
    requires var j := SkipWhitespace(s, from);
             j < |s| && ParseValue(s, j, depth).Ok?
    ensures var j := SkipWhitespace(s, from);
            var k := ParseValue(s, j, depth).next;
            var m := SkipWhitespace(s, k);
            from <= j < k <= m < |s| && s[start..j] == item.lead
            && s[j..m + 1] == DocText(item.value) + (item.trail + [s[m]])
            && ParseValue(s, j, depth).value == DocValue(item.value)
    ensures Blanks(Lenient, item.lead) && Blanks(Lenient, item.trail) && Follows(Lenient, item.value)
    decreases |s| - from, 1
  {
    hide *;
    SkippedIsBlank(s, start, from);
    var j := SkipWhitespace(s, from);
    var d := DocOf(s, j, depth);
    var k := ParseValue(s, j, depth).next;
    SkippedIsBlank(s, k, k);
    var m := SkipWhitespace(s, k);
    item := Item(s[start..j], d, s[k..m]);
    Glue(s, j, k, m + 1);
    Glue(s, k, m, m + 1);
    assert s[m..m + 1] == [s[m]];
  }

  /** The items that the loop of parse_array reads from `from` on; the blanks in front of the
      first one begin at `start`. */
  lemma {:induction false} ItemsOf(s: bytes, start: nat, from: nat, depth: nat) returns (items: seq<Item>)
    requires Terminated(s) && start <= from < |s| && SkipWhitespace(s, start) == SkipWhitespace(s, from)
    requires ParseItems(s, from, depth).Ok?
    ensures var r, j := ParseItems(s, from, depth), SkipWhitespace(s, from);
            from <= j < r.next < |s| && items != [] && ItemsFollow(Lenient, items)
            && s[start..j] == items[0].lead && s[j..r.next] == ItemsAndEnd(items)
            && r.value == ItemsValue(items)
    decreases |s| - from, 2
  {
    hide *;
    AfterBlanks(s, from);
    AcceptedItem(s, from, depth);
    ItemsStep(s, from, depth);
    var item := ItemOf(s, start, from, depth);
    var j := SkipWhitespace(s, from);
    var m := SkipWhitespace(s, ParseValue(s, j, depth).next);
    if s[m] == RBRACKET {
      items := [item];
      LastItemIs(item);
    } else {
      var rest := ItemsOf(s, m + 1, m + 1, depth);
      items := [item] + rest;
      MoreItemsAre(item, rest);
      var e := ParseItems(s, m + 1, depth).next;
      Glue(s, m + 1, SkipWhitespace(s, m + 1), e);
      Glue(s, j, m + 1, e);
      Laying(DocText(item.value), item.trail, [COMMA], rest[0].lead + ItemsAndEnd(rest));
    }
  }

  lemma AcceptedItem(s: bytes, from: nat, depth: nat)
    requires Terminated(s) && from < |s| && ParseItems(s, from, depth).Ok?
    ensures var j := SkipWhitespace(s, from);
            j < |s| && ParseValue(s, j, depth).Ok?
            && var m := SkipWhitespace(s, ParseValue(s, j, depth).next); s[m] == COMMA || s[m] == RBRACKET
  {
    hide ParseValue, SkipWhitespace;
  }

  lemma Laying(a: bytes, b: bytes, c: bytes, d: bytes)
    ensures a + (b + c) + d == a + (b + (c + d))
  {
  }

  lemma LastItemIs(item: Item)
    requires Blanks(Lenient, item.lead) && Blanks(Lenient, item.trail) && Follows(Lenient, item.value)
    ensures ItemsFollow(Lenient, [item]) && ItemsValue([item]) == [DocValue(item.value)]
    ensures ItemsAndEnd([item]) == DocText(item.value) + (item.trail + [RBRACKET])
  {
    hide Blanks, Follows, DocText, DocValue;
    assert [item][1..] == [];
  }

  lemma MoreItemsAre(item: Item, rest: seq<Item>)
    requires Blanks(Lenient, item.lead) && Blanks(Lenient, item.trail) && Follows(Lenient, item.value)
    requires rest != [] && ItemsFollow(Lenient, rest)
    ensures var items := [item] + rest;
            ItemsFollow(Lenient, items) && ItemsValue(items) == [DocValue(item.value)] + ItemsValue(rest)
            && items[0] == item
            && ItemsAndEnd(items)
               == DocText(item.value) + (item.trail + ([COMMA] + (rest[0].lead + ItemsAndEnd(rest))))
  {
    hide Blanks, Follows, DocText, DocValue;
    var items := [item] + rest;
    assert items[1..] == rest && items[1] == rest[0];
  }

  lemma {:induction false} ObjectOf(s: bytes, i: nat, depth: nat) returns (d: Doc)
    requires Terminated(s) && i + 1 < |s| && s[i] == LBRACE && ParseObject(s, i + 1, depth).Ok?
    ensures var r := ParseObject(s, i + 1, depth);
            i < r.next < |s| && Follows(Lenient, d) && s[i..r.next] == DocText(d) && r.value == DocValue(d)
    decreases |s| - i - 1, 4
  {
    hide ParseMembers, SkipWhitespace, EntriesAndEnd, EntriesValue, EntriesFollow, Blanks, Follows, DocText, DocValue;
    AfterBlanks(s, i + 1);
    var j := SkipWhitespace(s, i + 1);
    SkippedIsBlank(s, i + 1, i + 1);
    var lead := s[i + 1..j];
    GlueByte(s, i, j + 1);
    if s[j] == RBRACE {
      assert s[i + 1..j + 1] == lead + [RBRACE];
      d := ObjectDoc(lead, []);
      EmptyObjectIs(lead);
    } else {
      var entries := EntriesOf(s, i + 1, j, depth);
      Glue(s, i, j, ParseMembers(s, j, depth).next);
      GlueByte(s, i, j);
      d := ObjectDoc([], entries);
      ObjectDocIs(entries);
      assert [LBRACE] + lead + EntriesAndEnd(entries) == [LBRACE] + (lead + EntriesAndEnd(entries));
    }
  }

  lemma EmptyObjectIs(lead: bytes)
    requires Blanks(Lenient, lead)
    ensures var d := ObjectDoc(lead, []);
            Follows(Lenient, d) && DocText(d) == [LBRACE] + (lead + [RBRACE]) && DocValue(d) == Object([])
  {
    hide Blanks;
  }

  lemma ObjectDocIs(entries: seq<Entry>)
    requires EntriesFollow(Lenient, entries) && entries != []
    ensures var d := ObjectDoc([], entries);
            Follows(Lenient, d) && DocText(d) == [LBRACE] + (entries[0].lead + EntriesAndEnd(entries))
            && DocValue(d) == Object(EntriesValue(entries))
  {
    hide EntriesFollow, EntriesAndEnd, EntriesValue;
  }

  /** A member, with no blanks behind it yet. */
  lemma {:induction false} EntryOf(s: bytes, start: nat, from: nat, depth: nat) returns (e: Entry)
    requires Terminated(s) && start <= from < |s| && SkipWhitespace(s, start) == SkipWhitespace(s, from)
    requires ParseMember(s, from, depth).Ok?
    ensures var r, q := ParseMember(s, from, depth), SkipWhitespace(s, from);
            from <= q < r.next < |s| && GoodEntry(Lenient, e) && Follows(Lenient, e.value)
            && s[start..q] == e.lead && e.trail == [] && s[q..r.next] == EntryText(e)
            && r.value == Member(UpToNul(PiecesMeaning(e.key)), DocValue(e.value))
    decreases |s| - from, 1
  {
    hide *;
    SkippedIsBlank(s, start, from);
    var q := SkipWhitespace(s, from);
    MemberParts(s, from, depth);
    MemberTurn(s, from, depth);
    var ps := StringOf(s, q);
    var k := ParseString(s, q).next;
    SkippedIsBlank(s, k, k);
    var c := SkipWhitespace(s, k);
    SkippedIsBlank(s, c + 1, c + 1);
    var w := SkipWhitespace(s, c + 1);
    var d := DocOf(s, w, depth);
    var end := ParseValue(s, w, depth).next;
    e := Entry(s[start..q], ps, s[k..c], s[c + 1..w], d, []);
    NoBlank();
    EntryIsGood(e);
    Glue(s, q, k, end);
    Glue(s, k, c, end);
    GlueByte(s, c, end);
    Glue(s, c + 1, w, end);
    EntryIs(e);
  }

  /** What a member that is accepted holds. */
  lemma MemberParts(s: bytes, from: nat, depth: nat)
    requires Terminated(s) && from < |s| && ParseMember(s, from, depth).Ok?
    ensures var q := SkipWhitespace(s, from);
            q < |s| && ParseString(s, q).Ok?
            && var k := ParseString(s, q).next;
               q < k < |s|
               && var c := SkipWhitespace(s, k);
                  c + 1 < |s| && s[c] == COLON && ParseValue(s, SkipWhitespace(s, c + 1), depth).Ok?
  {
    hide ParseString, ParseValue, SkipWhitespace;
    var q := SkipWhitespace(s, from);
    StringEndsInside(s, q);
  }

  lemma StringEndsInside(s: bytes, i: nat)
    requires Terminated(s) && i < |s|
    ensures ParseString(s, i).Ok? ==> i < ParseString(s, i).next < |s|
  {
  }

  lemma NoBlank()
    ensures Blanks(Lenient, [])
  {
  }

  lemma EntryIsGood(e: Entry)
    requires Blanks(Lenient, e.lead) && GoodString(Lenient, e.key) && Blanks(Lenient, e.beforeColon)
    requires Blanks(Lenient, e.afterColon) && Blanks(Lenient, e.trail)
    ensures GoodEntry(Lenient, e)
  {
    hide Blanks, GoodString;
  }

  /** One member, to the comma or brace behind it. */
  lemma {:induction false} WholeEntryOf(s: bytes, start: nat, from: nat, depth: nat) returns (e: Entry)
    requires Terminated(s) && start <= from < |s| && SkipWhitespace(s, start) == SkipWhitespace(s, from)
    requires ParseMember(s, from, depth).Ok?
    ensures var r, q := ParseMember(s, from, depth), SkipWhitespace(s, from);
            var m := SkipWhitespace(s, r.next);
            from <= q < r.next <= m < |s| && GoodEntry(Lenient, e) && Follows(Lenient, e.value)
            && s[start..q] == e.lead && s[q..m + 1] == EntryText(e) + (e.trail + [s[m]])
            && r.value == Member(UpToNul(PiecesMeaning(e.key)), DocValue(e.value))
    decreases |s| - from, 2
  {
    hide *;
    var before := EntryOf(s, start, from, depth);
    var q := SkipWhitespace(s, from);
    var k := ParseMember(s, from, depth).next;
    SkippedIsBlank(s, k, k);
    var m := SkipWhitespace(s, k);
    e := before.(trail := s[k..m]);
    WithTrail(before, s[k..m]);
    Glue(s, q, k, m + 1);
    Glue(s, k, m, m + 1);
    assert s[m..m + 1] == [s[m]];
  }

  lemma {:induction false} EntriesOf(s: bytes, start: nat, from: nat, depth: nat) returns (entries: seq<Entry>)
    requires Terminated(s) && start <= from < |s| && SkipWhitespace(s, start) == SkipWhitespace(s, from)
    requires ParseMembers(s, from, depth).Ok?
    ensures var r, q := ParseMembers(s, from, depth), SkipWhitespace(s, from);
            from <= q < r.next < |s| && entries != [] && EntriesFollow(Lenient, entries)
            && s[start..q] == entries[0].lead && s[q..r.next] == EntriesAndEnd(entries)
            && r.value == EntriesValue(entries)
    decreases |s| - from, 3
  {
    hide *;
    MembersStep(s, from, depth);
    AcceptedMember(s, from, depth);
    var e := WholeEntryOf(s, start, from, depth);
    var q := SkipWhitespace(s, from);
    var m := SkipWhitespace(s, ParseMember(s, from, depth).next);
    if s[m] == RBRACE {
      entries := [e];
      LastEntryIs(e);
    } else {
      var rest := EntriesOf(s, m + 1, m + 1, depth);
      entries := [e] + rest;
      MoreEntriesAre(e, rest);
      var end := ParseMembers(s, m + 1, depth).next;
      Glue(s, m + 1, SkipWhitespace(s, m + 1), end);
      Glue(s, q, m + 1, end);
      Laying(EntryText(e), e.trail, [COMMA], rest[0].lead + EntriesAndEnd(rest));
    }
  }

  lemma AcceptedMember(s: bytes, from: nat, depth: nat)
    requires Terminated(s) && from < |s| && ParseMembers(s, from, depth).Ok?
    ensures ParseMember(s, from, depth).Ok?
    ensures var m := SkipWhitespace(s, ParseMember(s, from, depth).next);
            s[m] == COMMA || s[m] == RBRACE
  {
    hide ParseMember, SkipWhitespace;
  }

  lemma WithTrail(e: Entry, trail: bytes)
    requires GoodEntry(Lenient, e) && Blanks(Lenient, trail)
    ensures GoodEntry(Lenient, e.(trail := trail)) && EntryText(e.(trail := trail)) == EntryText(e)
  {
    hide GoodString, Blanks, StringText, DocText;
  }

  lemma LastEntryIs(e: Entry)
    requires GoodEntry(Lenient, e) && Follows(Lenient, e.value)
    ensures EntriesFollow(Lenient, [e])
    ensures EntriesValue([e]) == [Member(UpToNul(PiecesMeaning(e.key)), DocValue(e.value))]
    ensures EntriesAndEnd([e]) == EntryText(e) + (e.trail + [RBRACE])
  {
    hide GoodEntry, Follows, EntryText, DocValue, UpToNul, PiecesMeaning;
    assert [e][1..] == [];
  }

  lemma MoreEntriesAre(e: Entry, rest: seq<Entry>)
    requires GoodEntry(Lenient, e) && Follows(Lenient, e.value)
    requires rest != [] && EntriesFollow(Lenient, rest)
    ensures var entries := [e] + rest;
            EntriesFollow(Lenient, entries) && entries[0] == e
            && EntriesValue(entries)
               == [Member(UpToNul(PiecesMeaning(e.key)), DocValue(e.value))] + EntriesValue(rest)
            && EntriesAndEnd(entries)
               == EntryText(e) + (e.trail + ([COMMA] + (rest[0].lead + EntriesAndEnd(rest))))
  {
    hide GoodEntry, Follows, EntryText, DocValue, UpToNul, PiecesMeaning;
    var entries := [e] + rest;
    assert entries[1..] == rest && entries[1] == rest[0];
  }

  // The whole text.

  ghost predicate Reads(s: bytes, v: Json, mark: bool, lead: bytes, d: Doc, trail: bytes) {
    WithinLimits(Lenient, lead, d, trail) && s == WholeText(mark, lead, d, trail) && v == DocValue(d)
  }

  /** The texts that are accepted with the demand for a terminator are exactly those of the
      grammar under the lenient rules, and their values are those that the grammar gives. */
  lemma AcceptedExactly(s: bytes, v: Json)
    requires Terminated(s)
    ensures ParseWithOpts(s, true) == Ok(v, |s| - 1)
       <==> exists mark, lead, d, trail :: Reads(s, v, mark, lead, d, trail)
    ensures ParseWithOpts(s, true).Ok? ==> ParseWithOpts(s, true).next == |s| - 1
  {
    hide *;
    EndsAtTerminator(s);
    if ParseWithOpts(s, true) == Ok(v, |s| - 1) {
      var mark, lead, d, trail := TextOf(s, v);
    }
    if exists mark, lead, d, trail :: Reads(s, v, mark, lead, d, trail) {
      var mark, lead, d, trail :| Reads(s, v, mark, lead, d, trail);
      ReadsIs(s, v, mark, lead, d, trail);
      GrammarIsAccepted(Lenient, mark, lead, d, trail);
    }
  }

  /** Without the demand for a terminator: what is accepted up to `k` is a text that is accepted
      by itself, as the same value; and conversely, a text that is accepted by itself and ends
      in no blank is accepted in front of anything that no number goes on with. */
  lemma FrontIsAcceptedAlone(s: bytes, v: Json, k: nat)
    requires Terminated(s) && k < |s|
    ensures ParseWithOpts(s, false) == Ok(v, k) ==> ParseWithOpts(s[..k] + [NUL], true) == Ok(v, k)
    ensures StopsNumber(s[k]) && k > 0 && s[k - 1] > 32 && ParseWithOpts(s[..k] + [NUL], true) == Ok(v, k)
        ==> ParseWithOpts(s, false) == Ok(v, k)
  {
    hide *;
    var alone := s[..k] + [NUL];
    JustTerminated(s[..k]);
    if ParseWithOpts(s, false) == Ok(v, k) {
      var mark, lead, d := FrontOf(s, v, k);
      NoTrail(mark, lead, d);
      GrammarIsAccepted(Lenient, mark, lead, d, []);
    }
    if StopsNumber(s[k]) && k > 0 && s[k - 1] > 32 && ParseWithOpts(alone, true) == Ok(v, k) {
      var mark, lead, d, trail := TextOf(alone, v);
      ReadsIs(alone, v, mark, lead, d, trail);
      NothingTrails(s[..k], mark, lead, d, trail);
      NoTrail(mark, lead, d);
      SuffixTerminated(s, k);
      AnythingMayFollow(Lenient, mark, lead, d, s[k..]);
      assert s[..k] + s[k..] == s;
    }
  }

  lemma JustTerminated(t: bytes)
    ensures Terminated(t + [NUL])
  {
  }

  lemma SuffixTerminated(s: bytes, k: nat)
    requires Terminated(s) && k < |s|
    ensures Terminated(s[k..]) && s[k..][0] == s[k]
  {
  }

  lemma NoTrail(mark: bool, lead: bytes, d: Doc)
    ensures WholeText(mark, lead, d, []) == (if mark then BOM else []) + (lead + DocText(d)) + [NUL]
  {
    hide DocText;
    var bom := if mark then BOM else [];
    assert [] + [NUL] == [NUL];
    assert bom + (lead + (DocText(d) + [NUL])) == bom + (lead + DocText(d)) + [NUL];
  }

  /** No blank ends the text, so there is none behind the value. */
  lemma NothingTrails(t: bytes, mark: bool, lead: bytes, d: Doc, trail: bytes)
    requires t + [NUL] == WholeText(mark, lead, d, trail) && t != [] && t[|t| - 1] > 32
    requires WithinLimits(Lenient, lead, d, trail)
    ensures trail == [] && t == (if mark then BOM else []) + (lead + DocText(d))
    ensures WithinLimits(Lenient, lead, d, [])
  {
    hide DocText, Follows, DocValue;
    var front := (if mark then BOM else []) + (lead + DocText(d));
    assert WholeText(mark, lead, d, trail) == front + trail + [NUL];
    assert (t + [NUL])[..|t|] == t && (front + trail + [NUL])[..|front + trail|] == front + trail;
    assert front + [] == front;
    BlankEnd(front, trail);
  }

  lemma BlankEnd(front: bytes, trail: bytes)
    requires Blanks(Lenient, trail)
    ensures trail != [] ==> (front + trail)[|front + trail| - 1] <= 32
  {
    if trail != [] {
      assert (front + trail)[|front + trail| - 1] == trail[|trail| - 1];
    }
  }

  lemma FrontOf(s: bytes, v: Json, k: nat) returns (mark: bool, lead: bytes, d: Doc)
    requires Terminated(s) && k < |s| && ParseWithOpts(s, false) == Ok(v, k)
    ensures WithinLimits(Lenient, lead, d, []) && v == DocValue(d)
    ensures s[..k] == (if mark then BOM else []) + (lead + DocText(d))
  {
    hide *;
    FrontParts(s);
    var b := SkipBom(s);
    mark := b == 3;
    MarkIs(s);
    var i := SkipWhitespace(s, b);
    SkippedIsBlank(s, b, b);
    d := DocOf(s, i, 0);
    lead := s[b..i];
    NestingWithinLimit(s, i, 0);
    NoBlank();
    Within(lead, d, []);
    Glue(s, b, i, k);
    Glue(s, 0, b, k);
    assert s[0..k] == s[..k];
  }

  lemma FrontParts(s: bytes)
    requires Terminated(s) && ParseWithOpts(s, false).Ok?
    ensures var b := SkipBom(s);
            b < |s|
            && var i := SkipWhitespace(s, b);
               b <= i < |s| && ParseValue(s, i, 0).Ok? && ParseWithOpts(s, false) == ParseValue(s, i, 0)
               && i < ParseValue(s, i, 0).next < |s|
  {
    hide ParseValue, SkipWhitespace;
  }

  lemma ReadsIs(s: bytes, v: Json, mark: bool, lead: bytes, d: Doc, trail: bytes)
    ensures Reads(s, v, mark, lead, d, trail)
       <==> WithinLimits(Lenient, lead, d, trail) && s == WholeText(mark, lead, d, trail) && v == DocValue(d)
  {
    hide WithinLimits, WholeText, DocValue;
  }

  lemma EndsAtTerminator(s: bytes)
    requires Terminated(s)
    ensures ParseWithOpts(s, true).Ok? ==> ParseWithOpts(s, true).next == |s| - 1
  {
    hide ParseValue, SkipBom, SkipBlanks;
  }

  lemma TextOf(s: bytes, v: Json) returns (mark: bool, lead: bytes, d: Doc, trail: bytes)
    requires Terminated(s) && ParseWithOpts(s, true) == Ok(v, |s| - 1)
    ensures Reads(s, v, mark, lead, d, trail)
  {
    hide *;
    AcceptedParts(s);
    var b := SkipBom(s);
    mark := b == 3;
    MarkIs(s);
    var i := SkipWhitespace(s, b);
    SkippedIsBlank(s, b, b);
    d := DocOf(s, i, 0);
    var k := ParseValue(s, i, 0).next;
    SkippedIsBlank(s, k, k);
    lead, trail := s[b..i], s[k..|s| - 1];
    NestingWithinLimit(s, i, 0);
    Within(lead, d, trail);
    InFive(s, b, i, k);
    WholeIs(mark, lead, d, trail);
    ReadsIs(s, v, mark, lead, d, trail);
  }

  lemma InFive(s: bytes, b: nat, i: nat, k: nat)
    requires Terminated(s) && b <= i <= k < |s|
    ensures s == s[0..b] + (s[b..i] + (s[i..k] + (s[k..|s| - 1] + [NUL])))
  {
    hide *;
    TerminatorIs(s);
    Glue(s, k, |s| - 1, |s|);
    assert s[k..|s|] == s[k..|s| - 1] + [NUL];
    Glue(s, i, k, |s|);
    assert s[i..|s|] == s[i..k] + (s[k..|s| - 1] + [NUL]);
    Glue(s, b, i, |s|);
    assert s[b..|s|] == s[b..i] + (s[i..k] + (s[k..|s| - 1] + [NUL]));
    Glue(s, 0, b, |s|);
  }

  lemma MarkIs(s: bytes)
    ensures s[0..SkipBom(s)] == if SkipBom(s) == 3 then BOM else []
  {
    if SkipBom(s) == 3 {
      AtSlice(s, 0, BOM);
    }
  }

  lemma Within(lead: bytes, d: Doc, trail: bytes)
    requires Blanks(Lenient, lead) && Blanks(Lenient, trail) && Follows(Lenient, d)
    requires 0 + Nesting(DocValue(d)) <= NESTING_LIMIT
    ensures WithinLimits(Lenient, lead, d, trail)
  {
    hide Blanks, Follows, DocValue;
  }

  lemma TerminatorIs(s: bytes)
    requires Terminated(s)
    ensures s[|s| - 1..|s|] == [NUL] && s[0..|s|] == s
  {
  }
}
