/** How the printed text is laid out, read off its bytes alone: which blanks stand between two
    neighbouring bytes outside the strings. */
module Layout {
  import opened Bytes
  import opened JsonTree
  import opened Numerals
  import opened Rendering
  import opened Scanning

  /** What a reader of the text knows: whether it is inside a string, the brackets and braces
      that are open, the last byte that is no blank, and the blanks behind it. */
  datatype Look = Look(mode: Mode, open: seq<byte>, last: Option<byte>, blanks: bytes)

  /** A line feed and `n` tabs. */
  function NewLine(n: nat): bytes {
    [0x0A] + seq(n, _ => 0x09)
  }

  /** The blanks that belong between the bytes `last` and `next`. Formatted, a key's colon is
      followed by a tab and an array's comma by a space; each member and each closing brace
      begins a line, with one tab for each container that is open around it. Nothing else is
      followed by a blank, and unformatted, nothing is. */
  function Between(format: bool, open: seq<byte>, last: Option<byte>, next: byte): bytes {
    var inObject := open != [] && open[|open| - 1] == '{' as int;
    if !format then []
    else if last == Some(':' as int) then [0x09]
    else if last == Some(',' as int) && !inObject then [0x20]
    else if inObject && next == '}' as int then NewLine(|open| - 1)
    else if inObject && (last == Some('{' as int) || last == Some(',' as int)) then NewLine(|open|)
    else []
  }

  /** Reads one byte; None if the blanks in front of it are not those that belong there, or if
      it closes what is not open. */
  function Read(format: bool, q: Look, b: byte): Option<Look> {
    if !q.mode.Outside? then Some(q.(mode := ModeAfter(q.mode, b)))
    else if b <= 32 then Some(q.(blanks := q.blanks + [b]))
    else if q.blanks != Between(format, q.open, q.last, b) then None
    else if b == '{' as int || b == '[' as int then Some(Look(Outside, q.open + [b], Some(b), []))
    else if b == '}' as int || b == ']' as int then
      if q.open != [] && q.open[|q.open| - 1] == b - 2 then Some(Look(Outside, q.open[..|q.open| - 1], Some(b), []))
      else None
    else Some(Look(ModeAfter(Outside, b), q.open, Some(b), []))
  }

  function ReadAll(format: bool, q: Option<Look>, t: bytes): Option<Look>
    decreases |t|
  {
    if q.None? || t == [] then q else ReadAll(format, Read(format, q.value, t[0]), t[1..])
  }

  /** At the end of a value: its last byte is `last`. */
  function Behind(q: Look, last: byte): Look {
    Look(Outside, q.open, Some(last), [])
  }

  /** A value may begin here: the blanks are those that belong in front of it. */
  ghost predicate Ready(format: bool, q: Look) {
    q.mode.Outside? && q.blanks == Between(format, q.open, q.last, '"' as int)
  }

  /** The last byte of a value. */
  predicate Closes(b: byte) {
    b != ':' as int && b != ',' as int && b != '{' as int && b > 32
  }

  /** A byte of a word or a number. */
  predicate IsPlain(b: byte) {
    b > 32 && b !in {0x22, 0x2C, 0x3A, 0x5B, 0x5D, 0x7B, 0x7D}
  }

  lemma {:induction false} ReadBoth(format: bool, q: Option<Look>, a: bytes, b: bytes)
    ensures ReadAll(format, q, a + b) == ReadAll(format, ReadAll(format, q, a), b)
    decreases |a|
  {
    hide Read;
    if a == [] {
      assert a + b == b;
    } else if q.Some? {
      assert (a + b)[1..] == a[1..] + b;
      ReadBoth(format, Read(format, q.value, a[0]), a[1..], b);
    }
  }

  lemma ReadOne(format: bool, q: Look, b: byte)
    ensures ReadAll(format, Some(q), [b]) == Read(format, q, b)
  {
    hide Read;
    assert [b][1..] == [];
    var r := Read(format, q, b);
    assert ReadAll(format, r, []) == r;
  }

  lemma {:induction false} ReadBlanks(format: bool, q: Look, t: bytes)
    requires q.mode.Outside? && AllBlank(t)
    ensures ReadAll(format, Some(q), t) == Some(q.(blanks := q.blanks + t))
    decreases |t|
  {
    hide Between;
    if t == [] {
      assert q.blanks + t == q.blanks;
    } else {
      ReadBlanks(format, q.(blanks := q.blanks + [t[0]]), t[1..]);
      assert q.blanks + [t[0]] + t[1..] == q.blanks + t;
    }
  }

  /** Behind a value nothing is to be read but a comma, a colon or a closing bracket. */
  lemma BehindValue(format: bool, q: Look, last: byte, b: byte)
    requires Closes(last) && b != '}' as int
    ensures Between(format, q.open, Some(last), b) == [] && Ready(format, Behind(q, last))
  {
  }

  lemma {:induction false} PlainLaid(format: bool, q: Look, t: bytes)
    requires Ready(format, q) && t != [] && forall k :: 0 <= k < |t| ==> IsPlain(t[k])
    ensures ReadAll(format, Some(q), t) == Some(Behind(q, t[|t| - 1])) && Closes(t[|t| - 1])
    decreases |t|
  {
    ReadPlain(format, q, t[0]);
    if |t| == 1 {
      assert t == [t[0]];
      ReadOne(format, q, t[0]);
    } else {
      BehindValue(format, q, t[0], t[1]);
      PlainLaid(format, Behind(q, t[0]), t[1..]);
    }
  }

  lemma ReadPlain(format: bool, q: Look, b: byte)
    requires Ready(format, q) && IsPlain(b)
    ensures Read(format, q, b) == Some(Behind(q, b)) && Closes(b)
  {
  }

  // Strings.

  lemma EscapeByteLaid(format: bool, q: Look, b: byte)
    requires q.mode.Inside?
    ensures ReadAll(format, Some(q), EscapeByte(b)) == Some(q)
  {
    hide Between;
    var t := EscapeByte(b);
    if |t| == 1 {
      ReadOne(format, q, b);
    } else {
      assert t[0] == BACKSLASH;
      InsideAfter(format, q, t[1..]);
    }
  }

  /** Behind a backslash: any byte, and then bytes that are neither quote nor backslash. */
  lemma InsideAfter(format: bool, q: Look, t: bytes)
    requires q.mode.Inside? && t != []
    requires forall k :: 1 <= k < |t| ==> t[k] != 0x22 && t[k] != 0x5C
    ensures ReadAll(format, Some(q.(mode := Escaped)), t) == Some(q)
  {
    hide Between;
    InsideStays(format, q, t[1..]);
  }

  lemma {:induction false} InsideStays(format: bool, q: Look, t: bytes)
    requires q.mode.Inside? && forall k :: 0 <= k < |t| ==> t[k] != 0x22 && t[k] != 0x5C
    ensures ReadAll(format, Some(q), t) == Some(q)
    decreases |t|
  {
    hide Between;
    if t != [] {
      InsideStays(format, q, t[1..]);
    }
  }

  lemma {:induction false} EscapeLaid(format: bool, q: Look, s: bytes)
    requires q.mode.Inside?
    ensures ReadAll(format, Some(q), Escape(s)) == Some(q)
    decreases |s|
  {
    hide EscapeByte, Read;
    if s != [] {
      EscapeByteLaid(format, q, s[0]);
      EscapeLaid(format, q, s[1..]);
      ReadBoth(format, Some(q), EscapeByte(s[0]), Escape(s[1..]));
    }
  }

  lemma QuoteLaid(format: bool, q: Look, s: bytes)
    requires Ready(format, q)
    ensures ReadAll(format, Some(q), Quote(s)) == Some(Behind(q, '"' as int)) && Closes('"' as int)
  {
    hide Escape, Between, ReadAll;
    var inside := Look(Inside, q.open, Some('"' as int), []);
    ReadOne(format, q, QUOTE);
    EscapeLaid(format, inside, s);
    ReadOne(format, inside, QUOTE);
    ReadBoth(format, Some(q), [QUOTE], Escape(s));
    ReadBoth(format, Some(q), [QUOTE] + Escape(s), [QUOTE]);
  }

  // Values.

  lemma LeafLaid(format: bool, depth: nat, v: Json, q: Look) returns (last: byte)
    requires Printable(v) && !v.Array? && !v.Object? && Ready(format, q)
    ensures ReadAll(format, Some(q), Render(format, depth, v)) == Some(Behind(q, last)) && Closes(last)
  {
    hide *;
    LeafText(format, depth, v);
    if v.String? {
      QuoteLaid(format, q, v.text);
      last := '"' as int;
    } else {
      LeafPlain(format, depth, v);
      var t := Render(format, depth, v);
      PlainLaid(format, q, t);
      last := t[|t| - 1];
    }
  }

  lemma LeafPlain(format: bool, depth: nat, v: Json)
    requires Printable(v) && !v.Array? && !v.Object? && !v.String?
    ensures var t := Render(format, depth, v);
            t != [] && forall k :: 0 <= k < |t| ==> IsPlain(t[k])
  {
    if v.Number? {
      DecimalPlain(v.valuedouble.Floor);
    }
  }

  lemma DecimalPlain(n: int)
    ensures var t := DecimalText(n);
            t != [] && forall k :: 0 <= k < |t| ==> IsPlain(t[k])
  {
  }

  lemma Opened(format: bool, q: Look, b: byte)
    requires Ready(format, q) && (b == '{' as int || b == '[' as int)
    ensures ReadAll(format, Some(q), [b]) == Some(Look(Outside, q.open + [b], Some(b), []))
  {
    ReadOne(format, q, b);
  }

  /** The bytes between the parts of an array. */
  lemma ArrayGaps(format: bool, q: Look, last: byte)
    requires q.open != [] && q.open[|q.open| - 1] == '[' as int && Closes(last)
    ensures q.mode.Outside? && q.last == Some('[' as int) && q.blanks == [] ==> Ready(format, q)
    ensures ReadAll(format, Some(Behind(q, last)), [COMMA]) == Some(Behind(q, COMMA))
    ensures Ready(format, Behind(q, COMMA).(blanks := Gap(format)))
    ensures ReadAll(format, Some(Behind(q, last)), [RBRACKET])
         == Some(Look(Outside, q.open[..|q.open| - 1], Some(RBRACKET), []))
  {
    ReadOne(format, Behind(q, last), COMMA);
    ReadOne(format, Behind(q, last), RBRACKET);
  }

  lemma ItemsGap(format: bool, q: Look, last: byte)
    requires q.open != [] && q.open[|q.open| - 1] == '[' as int && Closes(last)
    ensures var r := Behind(q, COMMA).(blanks := Gap(format));
            Ready(format, r) && ReadAll(format, Some(Behind(q, last)), ItemSeparator(format, false)) == Some(r)
  {
    hide Between, Read, ReadAll, Ready;
    ArrayGaps(format, q, last);
    ReadBlanks(format, Behind(q, COMMA), Gap(format));
    ReadBoth(format, Some(Behind(q, last)), [COMMA], Gap(format));
    assert [] + Gap(format) == Gap(format);
  }

  lemma ReadNothing(format: bool, q: Look)
    ensures ReadAll(format, Some(q), []) == Some(q)
  {
  }

  lemma {:induction false} ItemsLaid(format: bool, depth: nat, items: seq<Json>, q: Look) returns (last: byte)
    requires PrintableItems(items) && items != [] && Ready(format, q) && |q.open| == depth
    requires q.open != [] && q.open[|q.open| - 1] == '[' as int
    ensures ReadAll(format, Some(q), RenderItems(format, depth, items)) == Some(Behind(q, last)) && Closes(last)
    decreases items, 0
  {
    hide *;
    ItemsUnfold(format, depth, items);
    last := ValueLaid(format, depth, items[0], q);
    var head, separator := Render(format, depth, items[0]), ItemSeparator(format, |items| == 1);
    ReadBoth(format, Some(q), head, separator);
    ReadBoth(format, Some(q), head + separator, RenderItems(format, depth, items[1..]));
    BehindIs(q, last);
    if |items| == 1 {
      ReadNothing(format, Behind(q, last));
    } else {
      ItemsGap(format, q, last);
      var r := Behind(q, COMMA).(blanks := Gap(format));
      BehindIs(q, COMMA);
      var end := ItemsLaid(format, depth, items[1..], r);
      BehindIs(q, end);
      BehindIs(r, end);
      last := end;
    }
  }

  lemma BehindIs(q: Look, last: byte)
    ensures Behind(q, last) == Look(Outside, q.open, Some(last), [])
  {
  }

  lemma ArrayLaid(format: bool, depth: nat, items: seq<Json>, q: Look) returns (last: byte)
    requires PrintableItems(items) && Ready(format, q) && |q.open| == depth && Printable(Array(items))
    ensures ReadAll(format, Some(q), Render(format, depth, Array(items))) == Some(Behind(q, last)) && Closes(last)
    decreases items, 1
  {
    hide *;
    ArrayText(format, depth, items);
    BracketsClose();
    Opened(format, q, LBRACKET);
    var inner := Look(Outside, q.open + [LBRACKET], Some(LBRACKET), []);
    var text := RenderItems(format, depth + 1, items);
    ArrayGaps(format, inner, LBRACKET);
    var end := LBRACKET;
    BehindIs(inner, LBRACKET);
    if items == [] {
      ReadNothing(format, inner);
    } else {
      end := ItemsLaid(format, depth + 1, items, inner);
    }
    ArrayGaps(format, inner, end);
    assert inner.open[..|inner.open| - 1] == q.open;
    ReadBoth(format, Some(inner), text, [RBRACKET]);
    ReadBoth(format, Some(q), [LBRACKET], text + [RBRACKET]);
    last := RBRACKET;
    BehindIs(q, last);
  }

  lemma BracketsClose()
    ensures Closes(LBRACKET) && Closes(RBRACKET) && Closes(RBRACE) && Closes(QUOTE)
    ensures LBRACKET == '[' as int && LBRACE == '{' as int && RBRACE == '}' as int && QUOTE == '"' as int
    ensures COMMA == ',' as int && COLON == ':' as int
  {
  }

  // Objects.

  /** The start of a line in an object, in front of a member or of the closing brace. */
  ghost predicate LineStart(format: bool, q: Look) {
    q.mode.Outside? && q.open != [] && q.open[|q.open| - 1] == '{' as int && q.blanks == LineEnd(format)
    && q.last.Some? && (q.last.value == '{' as int || q.last.value == ',' as int || Closes(q.last.value))
  }

  /** A member may follow here. */
  ghost predicate MemberStart(format: bool, q: Look) {
    LineStart(format, q) && (q.last.value == '{' as int || q.last.value == ',' as int)
  }

  lemma TabsAre(n: nat)
    ensures Tabs(n) == seq(n, _ => 0x09)
  {
  }

  lemma IndentReady(format: bool, depth: nat, q: Look)
    requires MemberStart(format, q) && |q.open| == depth
    ensures Ready(format, q.(blanks := q.blanks + Indent(format, depth)))
  {
    TabsAre(depth);
  }

  lemma BraceReady(format: bool, depth: nat, q: Look)
    requires LineStart(format, q) && |q.open| == depth + 1
    ensures var r := q.(blanks := q.blanks + Indent(format, depth));
            ReadAll(format, Some(r), [RBRACE]) == Some(Look(Outside, q.open[..depth], Some(RBRACE), []))
  {
    TabsAre(depth);
    ReadOne(format, q.(blanks := q.blanks + Indent(format, depth)), RBRACE);
  }

  lemma ColonReady(format: bool, q: Look)
    ensures ReadAll(format, Some(Behind(q, QUOTE)), [COLON]) == Some(Behind(q, COLON))
    ensures Ready(format, Behind(q, COLON).(blanks := KeyGap(format)))
  {
    ReadOne(format, Behind(q, QUOTE), COLON);
  }

  lemma HeadLaid(format: bool, depth: nat, key: bytes, q: Look)
    requires MemberStart(format, q) && |q.open| == depth
    ensures var r := Behind(q, COLON).(blanks := KeyGap(format));
            Ready(format, r) && ReadAll(format, Some(q), MemberHead(format, depth, key)) == Some(r)
  {
    hide *;
    IndentReady(format, depth, q);
    LineStartMode(format, q);
    ReadBlanks(format, q, Indent(format, depth));
    var start := q.(blanks := q.blanks + Indent(format, depth));
    QuoteLaid(format, start, key);
    BehindIs(start, QUOTE);
    BehindIs(q, QUOTE);
    BracketsClose();
    ColonReady(format, q);
    BehindIs(q, COLON);
    ReadBlanks(format, Behind(q, COLON), KeyGap(format));
    assert [] + KeyGap(format) == KeyGap(format);
    HeadIs(format, depth, key);
    var indent, quoted := Indent(format, depth), Quote(key);
    ReadBoth(format, Some(q), indent, quoted);
    ReadBoth(format, Some(q), indent + quoted, [COLON]);
    ReadBoth(format, Some(q), indent + quoted + [COLON], KeyGap(format));
  }

  lemma HeadIs(format: bool, depth: nat, key: bytes)
    ensures MemberHead(format, depth, key) == Indent(format, depth) + Quote(key) + [COLON] + KeyGap(format)
  {
    hide Indent, Quote, KeyGap;
  }

  lemma LineStartMode(format: bool, q: Look)
    ensures LineStart(format, q) ==> q.mode.Outside?
    ensures MemberStart(format, q) ==> LineStart(format, q)
  {
  }

  lemma SeparatorLaid(format: bool, q: Look, last: byte, ends: bool)
    requires Closes(last) && q.open != [] && q.open[|q.open| - 1] == '{' as int
    ensures var r := Look(Outside, q.open, Some(if ends then last else COMMA), LineEnd(format));
            LineStart(format, r) && (!ends ==> MemberStart(format, r))
            && ReadAll(format, Some(Behind(q, last)), MemberSeparator(format, ends)) == Some(r)
  {
    hide ReadAll;
    assert [] + LineEnd(format) == LineEnd(format);
    if ends {
      ReadBlanks(format, Behind(q, last), LineEnd(format));
    } else {
      ReadOne(format, Behind(q, last), COMMA);
      ReadBlanks(format, Behind(q, COMMA), LineEnd(format));
      ReadBoth(format, Some(Behind(q, last)), [COMMA], LineEnd(format));
    }
  }

  /** The members, from the start of a line to the start of a line. */
  lemma {:induction false} MembersLaid(format: bool, depth: nat, members: seq<Member>, q: Look) returns (r: Look)
    requires PrintableMembers(members) && LineStart(format, q) && |q.open| == depth
    requires members != [] ==> MemberStart(format, q)
    ensures ReadAll(format, Some(q), RenderMembers(format, depth, members)) == Some(r)
    ensures LineStart(format, r) && r.open == q.open
    decreases members, 0
  {
    hide *;
    if members == [] {
      NoMembers(format, depth);
      ReadNothing(format, q);
      r := q;
    } else {
      MembersPrintable(members);
      MembersParts(format, depth, members);
      var key, v := members[0].key, members[0].value;
      var head, value := MemberHead(format, depth, key), Render(format, depth, v);
      var separator := MemberSeparator(format, |members| == 1);
      HeadLaid(format, depth, key, q);
      BehindIs(q, COLON);
      var start := Behind(q, COLON).(blanks := KeyGap(format));
      var last := ValueLaid(format, depth, v, start);
      BehindIs(start, last);
      BehindIs(q, last);
      InObject(format, q);
      SeparatorLaid(format, q, last, |members| == 1);
      var next := Look(Outside, q.open, Some(if |members| == 1 then last else COMMA), LineEnd(format));
      r := MembersLaid(format, depth, members[1..], next);
      ReadBoth(format, Some(q), head, value);
      ReadBoth(format, Some(q), head + value, separator);
      ReadBoth(format, Some(q), head + value + separator, RenderMembers(format, depth, members[1..]));
    }
  }

  lemma InObject(format: bool, q: Look)
    requires LineStart(format, q)
    ensures q.open != [] && q.open[|q.open| - 1] == '{' as int
  {
  }

  lemma NoMembers(format: bool, depth: nat)
    ensures RenderMembers(format, depth, []) == []
  {
  }

  lemma MembersParts(format: bool, depth: nat, members: seq<Member>)
    requires PrintableMembers(members) && members != []
    requires Printable(members[0].value) && PrintableMembers(members[1..])
    ensures RenderMembers(format, depth, members)
         == MemberHead(format, depth, members[0].key) + Render(format, depth, members[0].value)
            + MemberSeparator(format, |members| == 1) + RenderMembers(format, depth, members[1..])
  {
    hide MemberHead, Render, MemberSeparator;
  }

  lemma ObjectLaid(format: bool, depth: nat, members: seq<Member>, q: Look) returns (last: byte)
    requires PrintableMembers(members) && Ready(format, q) && |q.open| == depth && Printable(Object(members))
    ensures ReadAll(format, Some(q), Render(format, depth, Object(members))) == Some(Behind(q, last)) && Closes(last)
    decreases members, 1
  {
    hide *;
    ObjectUnfold(format, depth, members);
    BracketsClose();
    Opened(format, q, LBRACE);
    var brace := Look(Outside, q.open + [LBRACE], Some(LBRACE), []);
    ReadBlanks(format, brace, LineEnd(format));
    assert [] + LineEnd(format) == LineEnd(format);
    var start := brace.(blanks := LineEnd(format));
    FirstLine(format, start);
    var end := MembersLaid(format, depth + 1, members, start);
    BraceReady(format, depth, end);
    LineStartMode(format, end);
    ReadBlanks(format, end, Indent(format, depth));
    assert end.open[..depth] == q.open;
    last := RBRACE;
    BehindIs(q, last);
    var inner, indent := RenderMembers(format, depth + 1, members), Indent(format, depth);
    ReadBoth(format, Some(end), indent, [RBRACE]);
    ReadBoth(format, Some(q), [LBRACE], LineEnd(format));
    ReadBoth(format, Some(q), [LBRACE] + LineEnd(format), inner);
    ReadBoth(format, Some(q), [LBRACE] + LineEnd(format) + inner, CloseBrace(format, depth));
  }

  lemma FirstLine(format: bool, q: Look)
    requires q.mode.Outside? && q.open != [] && q.open[|q.open| - 1] == '{' as int
    requires q.last == Some('{' as int) && q.blanks == LineEnd(format)
    ensures MemberStart(format, q) && LineStart(format, q)
  {
  }

  /** Wherever a value stands, with as many containers open around it as it is told: its text
      is read to its end, each blank where it belongs, and leaves open what was open. */
  lemma {:induction false} ValueLaid(format: bool, depth: nat, v: Json, q: Look) returns (last: byte)
    requires Printable(v) && Ready(format, q) && |q.open| == depth
    ensures ReadAll(format, Some(q), Render(format, depth, v)) == Some(Behind(q, last)) && Closes(last)
    decreases v, 2
  {
    hide Render, ReadAll, Ready, Between, Behind, Closes;
    if v.Array? {
      last := ArrayLaid(format, depth, v.items, q);
    } else if v.Object? {
      last := ObjectLaid(format, depth, v.members, q);
    } else {
      last := LeafLaid(format, depth, v, q);
    }
  }

  /** The whole text, formatted or not. */
  lemma PrintedLayout(format: bool, v: Json) returns (last: byte)
    requires Printable(v)
    ensures ReadAll(format, Some(Look(Outside, [], None, [])), Render(format, 0, v))
         == Some(Look(Outside, [], Some(last), []))
  {
    hide Render, ReadAll;
    last := ValueLaid(format, 0, v, Look(Outside, [], None, []));
  }
}
