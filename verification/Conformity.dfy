/** What the printer writes is RFC 8259, by the grammar and not by the parser: every printed text
    is a text of the grammar for the tree, its strings as short as the grammar lets them be and
    its numbers plain integers. */
module Conformity {
  import opened Bytes
  import opened JsonTree
  import opened Numerals
  import opened Utf16
  import opened Rendering
  import opened Literal
  import opened RoundTrip
  import opened Grammar

  // Strings.

  function PieceFor(b: byte): Piece {
    if ShortEscape(b).Some? then Short(ShortEscape(b).value)
    else if b < 32 then Unicode(EscapeByte(b))
    else Plain(b)
  }

  /** A control character without a letter of its own is written with lower-case digits. */
  lemma ControlEscape(b: byte)
    requires b < 32 && b !in {0x08, 0x09, 0x0A, 0x0C, 0x0D}
    ensures EscapeByte(b)
         == ['\\' as int, 'u' as int, '0' as int, '0' as int,
             HEX_LOWER[b / 16] as int, HEX_LOWER[b % 16] as int]
    ensures Escaped(EscapeByte(b)) && HexDigits(EscapeByte(b)[2..]) && Code(EscapeByte(b)) == b
  {
    var t := EscapeByte(b)[2..];
    HexTerminals(t[2], b / 16);
    HexTerminals(t[3], b % 16);
    HexNumberBound(t);
  }

  lemma PieceForIs(b: byte)
    ensures GoodPiece(Rfc, PieceFor(b)) && PieceText(PieceFor(b)) == EscapeByte(b)
    ensures PieceMeaning(PieceFor(b)) == [b] && !PieceFor(b).LoneBackslash?
  {
    hide Code, HexDigits;
    if b < 32 && ShortEscape(b).None? {
      ControlEscape(b);
    }
  }

  lemma {:induction false} PiecesFor(s: bytes) returns (ps: seq<Piece>)
    ensures GoodString(Rfc, ps) && StringText(ps) == Quote(s) && PiecesMeaning(ps) == s
    ensures PiecesText(ps) == Escape(s)
    decreases |s|
  {
    hide EscapeByte, PieceFor, PieceText, PieceMeaning, GoodPiece, Paired;
    if s == [] {
      ps := [];
    } else {
      var rest := PiecesFor(s[1..]);
      var p := PieceFor(s[0]);
      PieceForIs(s[0]);
      ps := [p] + rest;
      assert ps[1..] == rest;
      HeadAndTail(s);
    }
    assert [QUOTE] + (PiecesText(ps) + [QUOTE]) == Quote(s);
  }

  lemma {:induction false} EscapeBoth(a: bytes, b: bytes)
    ensures Escape(a + b) == Escape(a) + Escape(b)
    decreases |a|
  {
    hide EscapeByte;
    if a == [] {
      assert a + b == b;
    } else {
      assert (a + b)[1..] == a[1..] + b;
      EscapeBoth(a[1..], b);
    }
  }

  lemma EscapeOne(b: byte)
    ensures Escape([b]) == EscapeByte(b)
  {
    hide EscapeByte;
    assert [b][1..] == [];
  }

  /** Bytes from 0x80 on stand for themselves. */
  lemma {:induction false} HighBytes(t: bytes)
    requires forall k :: 0 <= k < |t| ==> t[k] >= 0x80
    ensures Escape(t) == t
    decreases |t|
  {
    if t != [] {
      HighBytes(t[1..]);
    }
  }

  lemma EncodedEscape(c: nat)
    requires c <= 0x10FFFF
    ensures |Escape(EncodeUtf8(c))| <= 6
  {
    hide Escape;
    if c < 0x80 {
      EscapeOne(c);
      EscapeByteShort(c);
    } else {
      HighEncoding(c);
      HighBytes(EncodeUtf8(c));
    }
  }

  lemma EscapeByteShort(b: byte)
    ensures 1 <= |EscapeByte(b)| <= 6
  {
  }

  lemma HighEncoding(c: nat)
    requires 0x80 <= c <= 0x10FFFF
    ensures forall k :: 0 <= k < |EncodeUtf8(c)| ==> EncodeUtf8(c)[k] >= 0x80
  {
  }

  lemma PlainEscape(p: Piece)
    requires GoodPiece(Rfc, p) && (p.Plain? || p.Short?)
    ensures |Escape(PieceMeaning(p))| <= |PieceText(p)|
  {
    hide Escape;
    EscapeOne(PieceMeaning(p)[0]);
  }

  lemma PieceIsShortest(p: Piece)
    requires GoodPiece(Rfc, p)
    ensures |Escape(PieceMeaning(p))| <= |PieceText(p)|
  {
    hide Escape, EncodeUtf8, Code;
    match p
    case Unicode(group) => EncodedEscape(Code(group));
    case Pair(high, low) => EncodedEscape(PairValue(Code(high), Code(low)));
    case _ => PlainEscape(p);
  }

  lemma {:induction false} PiecesAreShortest(ps: seq<Piece>)
    requires GoodPieces(Rfc, ps)
    ensures |Escape(PiecesMeaning(ps))| <= |PiecesText(ps)|
    decreases |ps|
  {
    hide GoodPiece, PieceMeaning, PieceText;
    if ps != [] {
      RestGood(Rfc, ps);
      PieceIsShortest(ps[0]);
      PiecesAreShortest(ps[1..]);
      EscapeBoth(PieceMeaning(ps[0]), PiecesMeaning(ps[1..]));
    }
  }

  /** No string of RFC 8259 with the same characters is shorter than the one printed. */
  lemma QuoteIsShortest(ps: seq<Piece>)
    requires GoodString(Rfc, ps)
    ensures |Quote(PiecesMeaning(ps))| <= |StringText(ps)|
  {
    hide Escape, PiecesMeaning, PiecesText;
    PiecesAreShortest(ps);
  }

  // Numbers.

  lemma {:induction false} NoLeadingZero(n: nat)
    ensures n > 0 ==> Digits(n)[0] != '0' as int
    ensures n < 10 ==> |Digits(n)| == 1
    decreases n
  {
    if n >= 10 {
      NoLeadingZero(n / 10);
    }
  }

  function Integral(n: int): NumberSyntax {
    NumberSyntax(n < 0, Digits(if n < 0 then -n else n), false, [], NoExponent)
  }

  /** The text of an integer is a minus, if it is negative, and its digits with no zero in front. */
  lemma IntegerIsRfc(n: int)
    requires -PLAIN_LIMIT < n < PLAIN_LIMIT
    ensures GoodNumber(Rfc, Integral(n)) && NumberText(Integral(n)) == DecimalText(n)
    ensures |DecimalText(n)| <= 16 && NumberValue(Integral(n)) == n as real
  {
    hide Digits;
    var m := if n < 0 then -n else n;
    NoLeadingZero(m);
    PlainTextLength(n);
    NumberScaled(Integral(n));
    assert Digits(m) + [] == Digits(m);
  }

  // The whole tree.

  lemma LeafIsRfc(format: bool, level: nat, v: Json) returns (d: Doc)
    requires Printable(v) && !v.Array? && !v.Object?
    ensures Follows(Rfc, d) && DocText(d) == Render(format, level, v) && DocMeaning(d) == v
  {
    hide Render, GoodNumber, GoodString, StringText, Quote, NumberText, NumberValue, PiecesMeaning, DecimalText, Integral;
    LeafText(format, level, v);
    match v
    case Null => d := NullDoc;
    case False => d := FalseDoc;
    case True => d := TrueDoc;
    case Number(x) =>
      IntegerIsRfc(x.Floor);
      d := NumberDoc(Integral(x.Floor));
    case String(text) =>
      var ps := PiecesFor(text);
      d := StringDoc(ps);
  }

  lemma GapsAreBlanks(format: bool, level: nat)
    ensures Blanks(Rfc, Gap(format)) && Blanks(Rfc, KeyGap(format)) && Blanks(Rfc, [])
    ensures Blanks(Rfc, BlanksToBrace(format, level)) && Blanks(Rfc, BlanksToKey(format, level))
  {
  }

  lemma LastItem(item: Item)
    requires Blanks(Rfc, item.lead) && Follows(Rfc, item.value) && item.trail == []
    ensures ItemsFollow(Rfc, [item]) && ItemsMeaning([item]) == [DocMeaning(item.value)]
    ensures ItemsAndEnd([item]) == DocText(item.value) + [RBRACKET]
  {
    hide Blanks, Follows, DocText, DocMeaning;
    GapsAreBlanks(false, 0);
    assert [item][1..] == [];
    assert [] + ([RBRACKET] + []) == [RBRACKET];
  }

  lemma MoreItems(item: Item, rest: seq<Item>)
    requires Blanks(Rfc, item.lead) && Follows(Rfc, item.value) && item.trail == []
    requires rest != [] && ItemsFollow(Rfc, rest)
    ensures var items := [item] + rest;
            ItemsFollow(Rfc, items) && ItemsMeaning(items) == [DocMeaning(item.value)] + ItemsMeaning(rest)
            && items[0] == item
            && ItemsAndEnd(items) == DocText(item.value) + ([COMMA] + rest[0].lead + ItemsAndEnd(rest))
  {
    hide Blanks, Follows, DocText, DocMeaning;
    GapsAreBlanks(false, 0);
    var items := [item] + rest;
    assert items[1..] == rest && items[1] == rest[0];
    assert [] + ([COMMA] + (rest[0].lead + ItemsAndEnd(rest))) == [COMMA] + rest[0].lead + ItemsAndEnd(rest);
  }

  lemma {:induction false} ItemsAreRfc(format: bool, level: nat, items: seq<Json>, lead: bytes)
    returns (r: seq<Item>)
    requires PrintableItems(items) && items != [] && Blanks(Rfc, lead)
    ensures r != [] && r[0].lead == lead && ItemsFollow(Rfc, r) && ItemsMeaning(r) == items
    ensures ItemsAndEnd(r) == RenderItems(format, level, items) + [RBRACKET]
    decreases items, 0
  {
    hide *;
    ItemsText(format, level, items);
    HeadAndTail(items);
    GapsAreBlanks(format, level);
    var d := ValueIsRfc(format, level, items[0]);
    var item := Item(lead, d, []);
    if |items| == 1 {
      LastItem(item);
      r := [item];
    } else {
      var rest := ItemsAreRfc(format, level, items[1..], Gap(format));
      MoreItems(item, rest);
      r := [item] + rest;
      assert DocText(d) + ([COMMA] + Gap(format) + ItemsAndEnd(rest)) == RenderItems(format, level, items) + [RBRACKET];
    }
  }

  lemma ArrayDocOf(r: seq<Item>)
    requires ItemsFollow(Rfc, r) && r != [] && r[0].lead == []
    ensures var d := ArrayDoc([], r);
            Follows(Rfc, d) && DocText(d) == [LBRACKET] + ItemsAndEnd(r) && DocMeaning(d) == Array(ItemsMeaning(r))
  {
    hide ItemsFollow, ItemsAndEnd, ItemsMeaning;
    assert [] + ItemsAndEnd(r) == ItemsAndEnd(r);
  }

  lemma EmptyDocs(blanks: bytes)
    requires Blanks(Rfc, blanks)
    ensures Follows(Rfc, ArrayDoc(blanks, [])) && Follows(Rfc, ObjectDoc(blanks, []))
    ensures DocText(ArrayDoc(blanks, [])) == [LBRACKET] + (blanks + [RBRACKET])
    ensures DocText(ObjectDoc(blanks, [])) == [LBRACE] + (blanks + [RBRACE])
    ensures DocMeaning(ArrayDoc(blanks, [])) == Array([]) && DocMeaning(ObjectDoc(blanks, [])) == Object([])
  {
    hide Blanks;
  }

  lemma {:induction false} ArrayIsRfc(format: bool, level: nat, items: seq<Json>) returns (d: Doc)
    requires PrintableItems(items) && Printable(Array(items))
    ensures Follows(Rfc, d) && DocText(d) == Render(format, level, Array(items)) && DocMeaning(d) == Array(items)
    decreases items, 1
  {
    hide *;
    ArrayText(format, level, items);
    GapsAreBlanks(format, level);
    if items == [] {
      EmptyDocs([]);
      d := ArrayDoc([], []);
    } else {
      var r := ItemsAreRfc(format, level + 1, items, []);
      ArrayDocOf(r);
      d := ArrayDoc([], r);
    }
  }

  /** The text of a member and what stands between it and the next one. */
  lemma EntryIs(e: Entry, key: bytes, gap: bytes, value: bytes)
    requires GoodString(Rfc, e.key) && StringText(e.key) == Quote(key) && PiecesMeaning(e.key) == key
    requires e.beforeColon == [] && e.afterColon == gap && DocText(e.value) == value
    requires Blanks(Rfc, e.lead) && Blanks(Rfc, gap) && Blanks(Rfc, e.trail)
    ensures GoodEntry(Rfc, e) && EntryText(e) == Quote(key) + ([COLON] + (gap + value))
  {
    hide Blanks, GoodString, StringText, PiecesMeaning, DocText, Quote;
    GapsAreBlanks(false, 0);
    assert [] + ([COLON] + (gap + value)) == [COLON] + (gap + value);
  }

  lemma LastEntry(e: Entry, key: bytes, m: Json)
    requires GoodEntry(Rfc, e) && Follows(Rfc, e.value) && PiecesMeaning(e.key) == key && DocMeaning(e.value) == m
    ensures EntriesFollow(Rfc, [e]) && EntriesMeaning([e]) == [Member(key, m)]
    ensures EntriesAndEnd([e]) == EntryText(e) + (e.trail + ([RBRACE] + []))
  {
    hide GoodEntry, Follows, EntryText, DocMeaning, PiecesMeaning;
    assert [e][1..] == [];
  }

  lemma MoreEntries(e: Entry, key: bytes, m: Json, rest: seq<Entry>)
    requires GoodEntry(Rfc, e) && Follows(Rfc, e.value) && PiecesMeaning(e.key) == key && DocMeaning(e.value) == m
    requires rest != [] && EntriesFollow(Rfc, rest) && e.trail == []
    ensures var entries := [e] + rest;
            EntriesFollow(Rfc, entries) && entries[0] == e
            && EntriesMeaning(entries) == [Member(key, m)] + EntriesMeaning(rest)
            && EntriesAndEnd(entries) == EntryText(e) + ([COMMA] + rest[0].lead + EntriesAndEnd(rest))
  {
    hide GoodEntry, Follows, EntryText, DocMeaning, PiecesMeaning;
    var entries := [e] + rest;
    assert entries[1..] == rest && entries[1] == rest[0];
    assert [] + ([COMMA] + (rest[0].lead + EntriesAndEnd(rest))) == [COMMA] + rest[0].lead + EntriesAndEnd(rest);
  }

  lemma Shifts(key: bytes, colon: bytes, gap: bytes, value: bytes, after: bytes)
    ensures key + (colon + (gap + value)) + after == key + (colon + (gap + (value + after)))
  {
  }

  lemma {:induction false} EntriesAreRfc(format: bool, level: nat, members: seq<Member>, lead: bytes)
    returns (r: seq<Entry>)
    requires PrintableMembers(members) && members != [] && Blanks(Rfc, lead)
    ensures r != [] && r[0].lead == lead && EntriesFollow(Rfc, r) && EntriesMeaning(r) == members
    ensures EntriesAndEnd(r) == MembersTail(format, level, members)
    decreases members, 0
  {
    hide *;
    MembersTailText(format, level, members);
    HeadAndTail(members);
    GapsAreBlanks(format, level);
    var m, others := members[0], members[1..];
    AfterValueText(format, level, others);
    var ps := PiecesFor(m.key);
    var d := ValueIsRfc(format, level + 1, m.value);
    var value := Render(format, level + 1, m.value);
    var trail := if others == [] then BlanksToBrace(format, level) else [];
    var e := Entry(lead, ps, [], KeyGap(format), d, trail);
    EntryIs(e, m.key, KeyGap(format), value);
    Shifts(Quote(m.key), [COLON], KeyGap(format), value, AfterValue(format, level, others));
    assert Member(m.key, m.value) == m;
    if others == [] {
      LastEntry(e, m.key, m.value);
      r := [e];
    } else {
      var rest := EntriesAreRfc(format, level, others, BlanksToKey(format, level));
      MoreEntries(e, m.key, m.value, rest);
      r := [e] + rest;
    }
  }

  lemma ObjectDocOf(r: seq<Entry>)
    requires EntriesFollow(Rfc, r) && r != []
    ensures var d := ObjectDoc([], r);
            Follows(Rfc, d) && DocText(d) == [LBRACE] + (r[0].lead + EntriesAndEnd(r))
            && DocMeaning(d) == Object(EntriesMeaning(r))
  {
    hide EntriesFollow, EntriesAndEnd, EntriesMeaning;
  }

  lemma {:induction false} ObjectIsRfc(format: bool, level: nat, members: seq<Member>) returns (d: Doc)
    requires PrintableMembers(members) && Printable(Object(members))
    ensures Follows(Rfc, d) && DocText(d) == Render(format, level, Object(members)) && DocMeaning(d) == Object(members)
    decreases members, 1
  {
    hide *;
    ObjectText(format, level, members);
    GapsAreBlanks(format, level);
    if members == [] {
      var blanks := BlanksToBrace(format, level);
      EmptyDocs(blanks);
      d := ObjectDoc(blanks, []);
      assert [RBRACE] + [] == [RBRACE];
    } else {
      var r := EntriesAreRfc(format, level, members, BlanksToKey(format, level));
      ObjectDocOf(r);
      d := ObjectDoc([], r);
    }
  }

  /** Every printed text, formatted or not, is a text of RFC 8259 that stands for the tree. */
  lemma {:induction false} ValueIsRfc(format: bool, level: nat, v: Json) returns (d: Doc)
    requires Printable(v)
    ensures Follows(Rfc, d) && DocText(d) == Render(format, level, v) && DocMeaning(d) == v
    decreases v, 2
  {
    hide Render, Follows, DocText, DocMeaning;
    if v.Array? {
      d := ArrayIsRfc(format, level, v.items);
    } else if v.Object? {
      d := ObjectIsRfc(format, level, v.members);
    } else {
      d := LeafIsRfc(format, level, v);
    }
  }
}
