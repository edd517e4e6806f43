/** The text of a tree: a pure renderer that the printer is proved to follow. */
module Rendering {
  import opened Bytes
  import opened JsonTree
  import opened Numerals

  /** A hexadecimal digit as "%x" prints it. */
  function HexDigit(n: nat): byte
    requires n < 16
  {
    if n < 10 then ZERO + n else 0x61 + (n - 10)
  }

  /** The letter of a two-character escape, for the bytes that have one. */
  function ShortEscape(b: byte): Option<byte> {
    if b == QUOTE || b == BACKSLASH then Some(b)
    else if b == 0x08 then Some(0x62)
    else if b == 0x0C then Some(0x66)
    else if b == LF then Some(0x6E)
    else if b == CR then Some(0x72)
    else if b == TAB then Some(0x74)
    else None
  }

  function EscapeByte(b: byte): (r: bytes) {
    if ShortEscape(b).Some? then [BACKSLASH, ShortEscape(b).value]
    else if b < 32 then [BACKSLASH, 0x75, ZERO, ZERO, HexDigit(b / 16), HexDigit(b % 16)]
    else [b]
  }

  function Escape(s: bytes): bytes {
    if s == [] then [] else EscapeByte(s[0]) + Escape(s[1..])
  }

  function Quote(s: bytes): bytes {
    [QUOTE] + Escape(s) + [QUOTE]
  }

  function Tabs(n: nat): bytes {
    seq(n, _ => TAB)
  }

  // The blanks of the formatted text.

  function Gap(format: bool): (r: bytes)
    ensures AllBlank(r)
  {
    if format then [SPACE] else []
  }

  function Indent(format: bool, level: nat): (r: bytes)
    ensures AllBlank(r)
  {
    if format then Tabs(level) else []
  }

  function LineEnd(format: bool): (r: bytes)
    ensures AllBlank(r)
  {
    if format then [LF] else []
  }

  function KeyGap(format: bool): (r: bytes)
    ensures AllBlank(r)
  {
    if format then [TAB] else []
  }

  function BlanksToBrace(format: bool, level: nat): (r: bytes)
    ensures AllBlank(r)
  {
    LineEnd(format) + Indent(format, level)
  }

  function BlanksToKey(format: bool, level: nat): (r: bytes)
    ensures AllBlank(r)
  {
    LineEnd(format) + Indent(format, level + 1)
  }

  /** The text of `v` when `depth` containers are open around it. */
  function Render(format: bool, depth: nat, v: Json): bytes
    requires Printable(v)
    decreases v, 0
  {
    match v
    case Null => NULL_TEXT
    case False => FALSE_TEXT
    case True => TRUE_TEXT
    case Number(d) => DecimalText(d.Floor)
    case String(text) => Quote(text)
    case Array(items) => [LBRACKET] + RenderItems(format, depth + 1, items) + [RBRACKET]
    case Object(members) =>
      OpenBrace(format) + RenderMembers(format, depth + 1, members) + CloseBrace(format, depth)
  }

  function OpenBrace(format: bool): bytes {
    [LBRACE] + LineEnd(format)
  }

  function CloseBrace(format: bool, depth: nat): bytes {
    Indent(format, depth) + [RBRACE]
  }

  function ItemSeparator(format: bool, last: bool): bytes {
    if last then [] else [COMMA] + Gap(format)
  }

  function RenderItems(format: bool, depth: nat, items: seq<Json>): bytes
    requires PrintableItems(items)
    decreases items, 0
  {
    if items == [] then []
    else
      Render(format, depth, items[0]) + ItemSeparator(format, |items| == 1)
      + RenderItems(format, depth, items[1..])
  }

  /** What stands before a member's value: indentation, key and colon. */
  function MemberHead(format: bool, depth: nat, key: bytes): bytes {
    Indent(format, depth) + Quote(key) + [COLON] + KeyGap(format)
  }

  function MemberSeparator(format: bool, last: bool): bytes {
    (if last then [] else [COMMA]) + LineEnd(format)
  }

  function RenderMembers(format: bool, depth: nat, members: seq<Member>): bytes
    requires PrintableMembers(members)
    decreases members, 0
  {
    if members == [] then []
    else
      MemberHead(format, depth, members[0].key) + Render(format, depth, members[0].value)
      + MemberSeparator(format, |members| == 1) + RenderMembers(format, depth, members[1..])
  }

  /** A member as it stands in its object. */
  function MemberText(format: bool, depth: nat, m: Member, last: bool): bytes
    requires Printable(m.value)
  {
    MemberHead(format, depth, m.key) + Render(format, depth, m.value) + MemberSeparator(format, last)
  }

  /** What cJSON_Print and cJSON_PrintUnformatted give, as the C string's buffer. */
  function PrintedText(format: bool, v: Json): bytes
    requires Printable(v)
  {
    Render(format, 0, v) + [NUL]
  }

  // What the renderer does at one node.

  lemma LeafText(format: bool, level: nat, v: Json)
    requires Printable(v)
    ensures v.Null? ==> Render(format, level, v) == NULL_TEXT && |NULL_TEXT| == 4
    ensures v.False? ==> Render(format, level, v) == FALSE_TEXT && |FALSE_TEXT| == 5
    ensures v.True? ==> Render(format, level, v) == TRUE_TEXT && |TRUE_TEXT| == 4
    ensures v.Number? ==>
              Render(format, level, v) == DecimalText(v.valuedouble.Floor)
              && v.valuedouble == v.valuedouble.Floor as real
              && -PLAIN_LIMIT < v.valuedouble.Floor < PLAIN_LIMIT
    ensures v.String? ==> Render(format, level, v) == Quote(v.text) && NulFree(v.text)
  {
  }

  lemma ItemsUnfold(format: bool, level: nat, items: seq<Json>)
    requires PrintableItems(items) && items != []
    ensures Printable(items[0]) && PrintableItems(items[1..])
    ensures RenderItems(format, level, items)
         == Render(format, level, items[0]) + ItemSeparator(format, |items| == 1)
            + RenderItems(format, level, items[1..])
    ensures |items| == 1 ==> RenderItems(format, level, items[1..]) == []
    ensures |items| == 1 ==> ItemSeparator(format, true) == [] && items == [items[0]]
    ensures ItemSeparator(format, false) == [COMMA] + Gap(format)
  {
  }

  lemma ArrayText(format: bool, level: nat, items: seq<Json>)
    requires PrintableItems(items)
    ensures Render(format, level, Array(items))
         == [LBRACKET] + (RenderItems(format, level + 1, items) + [RBRACKET])
    ensures Nesting(Array(items)) == 1 + NestingOfItems(items)
    ensures items == [] ==> RenderItems(format, level + 1, items) == [] && NestingOfItems(items) == 0
  {
  }

  lemma MembersUnfold(format: bool, level: nat, members: seq<Member>)
    requires PrintableMembers(members) && members != []
    ensures RenderMembers(format, level, members)
         == (Indent(format, level) + Quote(members[0].key) + [COLON] + KeyGap(format))
            + Render(format, level, members[0].value)
            + MemberSeparator(format, |members| == 1) + RenderMembers(format, level, members[1..])
    ensures |members| == 1 ==> RenderMembers(format, level, members[1..]) == []
  {
  }

  lemma ObjectUnfold(format: bool, level: nat, members: seq<Member>)
    requires PrintableMembers(members)
    ensures Render(format, level, Object(members))
         == [LBRACE] + LineEnd(format) + RenderMembers(format, level + 1, members)
            + CloseBrace(format, level)
    ensures Nesting(Object(members)) == 1 + NestingOfMembers(members)
    ensures members == [] ==> RenderMembers(format, level + 1, members) == []
    ensures members == [] ==> NestingOfMembers(members) == 0
    ensures CloseBrace(format, level) == Indent(format, level) + [RBRACE]
    ensures BlanksToBrace(format, level) == LineEnd(format) + Indent(format, level)
    ensures BlanksToKey(format, level) == LineEnd(format) + Indent(format, level + 1)
  {
  }

  lemma MembersPrintable(members: seq<Member>)
    requires PrintableMembers(members) && members != []
    ensures Printable(members[0].value) && PrintableMembers(members[1..])
  {
  }

  lemma EscapeNulFree(s: bytes)
    ensures NulFree(Escape(s))
  {
    if s != [] {
      EscapeNulFree(s[1..]);
      NulFreeConcat(EscapeByte(s[0]), Escape(s[1..]));
    }
  }

  lemma QuoteNulFree(s: bytes)
    ensures NulFree(Quote(s))
  {
    EscapeNulFree(s);
  }

  lemma DecimalNulFree(n: int)
    ensures NulFree(DecimalText(n))
  {
  }

  /** update_offset finds the end of a printed text by strlen; this is why it may. */
  lemma {:induction false} RenderNulFree(format: bool, depth: nat, v: Json)
    requires Printable(v)
    ensures NulFree(Render(format, depth, v))
    decreases v, 0
  {
    hide DecimalText, Quote, RenderItems, RenderMembers, OpenBrace, CloseBrace;
    SeparatorsNulFree(format, true);
    IndentNulFree(format, depth);
    match v
    case Null =>
    case False =>
    case True =>
    case Number(d) => DecimalNulFree(d.Floor);
    case String(text) => QuoteNulFree(text);
    case Array(items) => RenderItemsNulFree(format, depth + 1, items);
    case Object(members) => RenderMembersNulFree(format, depth + 1, members);
  }

  lemma {:induction false} RenderItemsNulFree(format: bool, depth: nat, items: seq<Json>)
    requires PrintableItems(items)
    ensures NulFree(RenderItems(format, depth, items))
    decreases items, 0
  {
    if items != [] {
      hide *;
      ItemsUnfold(format, depth, items);
      RenderNulFree(format, depth, items[0]);
      RenderItemsNulFree(format, depth, items[1..]);
      SeparatorsNulFree(format, |items| == 1);
      var head, separator := Render(format, depth, items[0]), ItemSeparator(format, |items| == 1);
      NulFreeConcat(head, separator);
      NulFreeConcat(head + separator, RenderItems(format, depth, items[1..]));
    }
  }

  lemma SeparatorsNulFree(format: bool, last: bool)
    ensures NulFree(ItemSeparator(format, last)) && NulFree(MemberSeparator(format, last))
    ensures NulFree(OpenBrace(format)) && NulFree([LBRACKET]) && NulFree([RBRACKET])
  {
  }

  lemma IndentNulFree(format: bool, depth: nat)
    ensures NulFree(Indent(format, depth)) && NulFree(KeyGap(format)) && NulFree([COLON])
    ensures NulFree(CloseBrace(format, depth))
  {
  }

  lemma MemberHeadNulFree(format: bool, depth: nat, key: bytes)
    ensures NulFree(MemberHead(format, depth, key))
  {
    hide Indent, Quote, KeyGap, NulFree;
    QuoteNulFree(key);
    IndentNulFree(format, depth);
    NulFreeConcat(Indent(format, depth), Quote(key));
    NulFreeConcat(Indent(format, depth) + Quote(key), [COLON]);
    NulFreeConcat(Indent(format, depth) + Quote(key) + [COLON], KeyGap(format));
  }

  lemma {:induction false} RenderMembersNulFree(format: bool, depth: nat, members: seq<Member>)
    requires PrintableMembers(members)
    ensures NulFree(RenderMembers(format, depth, members))
    decreases members, 0
  {
    hide Render, MemberHead, MemberSeparator, NulFree;
    if members == [] {
      NothingNulFree();
    } else {
      MemberHeadNulFree(format, depth, members[0].key);
      RenderNulFree(format, depth, members[0].value);
      SeparatorsNulFree(format, |members| == 1);
      RenderMembersNulFree(format, depth, members[1..]);
      var head, value := MemberHead(format, depth, members[0].key), Render(format, depth, members[0].value);
      var separator, rest := MemberSeparator(format, |members| == 1), RenderMembers(format, depth, members[1..]);
      NulFreeConcat(head, value);
      NulFreeConcat(head + value, separator);
      NulFreeConcat(head + value + separator, rest);
    }
  }

  lemma NothingNulFree()
    ensures NulFree([])
  {
  }
}
