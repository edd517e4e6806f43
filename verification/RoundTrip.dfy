/** Parsing undoes printing. */
module RoundTrip {
  import opened Bytes
  import opened JsonTree
  import opened Numerals
  import opened Rendering
  import opened Literal
  import opened Parsing

  /** A byte at which a value may begin: no blank and no closing bracket. */
  predicate StartsValue(b: byte) {
    b > 32 && b != RBRACKET && b != RBRACE
  }

  /** A byte that may follow a number: parse_number's copying loop stops there. */
  predicate StopsNumber(b: byte) {
    !IsNumberByte(b)
  }

  predicate IsDelimiter(b: byte) {
    b > 32 && StopsNumber(b)
  }

  lemma SkipBlankRun(s: bytes, i: nat, t: bytes)
    requires At(s, i, t) && AllBlank(t)
    requires i + |t| < |s| && s[i + |t|] > 32
    ensures SkipWhitespace(s, i) == i + |t|
    decreases |t|
  {
    if t != [] {
      SkipBlankRun(s, i + 1, t[1..]);
    }
  }

  lemma RenderStarts(format: bool, level: nat, v: Json)
    requires Printable(v)
    ensures |Render(format, level, v)| > 0
    ensures StartsValue(Render(format, level, v)[0])
  {
  }

  // ----- Leaves -----

  /** The byte behind a number's text must not be one that parse_number would copy. */
  lemma NumberParses(n: int, s: bytes, i: nat)
    requires Terminated(s) && -PLAIN_LIMIT < n < PLAIN_LIMIT
    requires At(s, i, DecimalText(n)) && i + |DecimalText(n)| < |s|
    requires StopsNumber(s[i + |DecimalText(n)|])
    ensures ParseNumber(s, i) == Ok(Number(n as real), i + |DecimalText(n)|)
  {
    hide DecimalText, Strtod, RunLength, At;
    var t := DecimalText(n);
    PlainTextLength(n);
    AtSlice(s, i, t);
    DecimalBytes(n);
    assert forall k :: i <= k < i + |t| ==> s[k] == s[i..i + |t|][k - i];
    RunLengthIs(s, i, NUMBER_TEXT_LIMIT, |t|);
    StrtodOfDecimal(n);
  }

  lemma DecimalBytes(n: int)
    ensures DecimalText(n) != []
    ensures forall k :: 0 <= k < |DecimalText(n)| ==> IsNumberByte(DecimalText(n)[k])
    ensures StartsNumber(DecimalText(n)[0])
  {
  }

  lemma LiteralWordsParse(s: bytes, i: nat, depth: nat)
    requires Terminated(s) && i < |s|
    ensures At(s, i, NULL_TEXT) ==> ParseValue(s, i, depth) == Ok(Null, i + 4)
    ensures At(s, i, FALSE_TEXT) ==> ParseValue(s, i, depth) == Ok(False, i + 5)
    ensures At(s, i, TRUE_TEXT) ==> ParseValue(s, i, depth) == Ok(True, i + 4)
  {
    if At(s, i, NULL_TEXT) {
      AtByte(s, i, NULL_TEXT, 1);
      AtByte(s, i, NULL_TEXT, 2);
      AtByte(s, i, NULL_TEXT, 3);
    }
    if At(s, i, FALSE_TEXT) {
      AtByte(s, i, FALSE_TEXT, 1);
      AtByte(s, i, FALSE_TEXT, 2);
      AtByte(s, i, FALSE_TEXT, 3);
      AtByte(s, i, FALSE_TEXT, 4);
    }
    if At(s, i, TRUE_TEXT) {
      AtByte(s, i, TRUE_TEXT, 1);
      AtByte(s, i, TRUE_TEXT, 2);
      AtByte(s, i, TRUE_TEXT, 3);
    }
  }

  lemma LeafParses(format: bool, level: nat, v: Json, s: bytes, i: nat, depth: nat)
    requires Printable(v) && !v.Array? && !v.Object?
    requires Terminated(s) && At(s, i, Render(format, level, v))
    requires i < |s| && i + |Render(format, level, v)| < |s|
    requires StopsNumber(s[i + |Render(format, level, v)|])
    ensures ParseValue(s, i, depth) == Ok(v, i + |Render(format, level, v)|)
  {
    hide *;
    LeafText(format, level, v);
    match v
    case Null => LiteralWordsParse(s, i, depth);
    case False => LiteralWordsParse(s, i, depth);
    case True => LiteralWordsParse(s, i, depth);
    case Number(d) =>
      NumberParses(d.Floor, s, i);
      NumberStep(d.Floor, s, i, depth);
    case String(text) =>
      QuoteParses(text, s, i);
      StringStep(text, s, i, depth);
  }

  lemma NumberStep(n: int, s: bytes, i: nat, depth: nat)
    requires Terminated(s) && At(s, i, DecimalText(n)) && i < |s|
    ensures ParseValue(s, i, depth) == ParseNumber(s, i)
  {
    hide DecimalText, ParseNumber;
    DecimalBytes(n);
    assert s[i] == DecimalText(n)[0];
  }

  lemma StringStep(text: bytes, s: bytes, i: nat, depth: nat)
    requires Terminated(s) && i < |s| && ParseString(s, i).Ok?
    ensures ParseValue(s, i, depth) == Ok(String(ParseString(s, i).value), ParseString(s, i).next)
  {
  }

  // ----- How texts stand next to one another -----

  lemma EndFollows(s: bytes, i: nat, head: bytes, end: byte)
    requires At(s, i, head + [end])
    ensures At(s, i, head) && i + |head| < |s| && s[i + |head|] == end
  {
    AtSplit(s, i, head, [end]);
  }

  /** A text, a comma, blanks, and something that begins with no blank. */
  lemma CommaSeparates(s: bytes, i: nat, head: bytes, blanks: bytes, tail: bytes)
    requires At(s, i, head + ([COMMA] + blanks + tail)) && AllBlank(blanks)
    requires tail != [] && tail[0] > 32
    ensures At(s, i, head) && i + |head| < |s| && s[i + |head|] == COMMA
    ensures i + |head| + 1 < |s|
    ensures SkipWhitespace(s, i + |head| + 1) == i + |head| + 1 + |blanks|
    ensures At(s, i + |head| + 1 + |blanks|, tail)
  {
    var k := i + |head|;
    AtSplit(s, i, head, [COMMA] + blanks + tail);
    AtSplit(s, k, [COMMA] + blanks, tail);
    AtSplit(s, k, [COMMA], blanks);
    SkipBlankRun(s, k + 1, blanks);
  }

  /** Blanks up to a byte that is none. */
  lemma BlanksThenByte(s: bytes, i: nat, head: bytes, blanks: bytes, end: byte, tail: bytes)
    requires At(s, i, head + (blanks + ([end] + tail))) && AllBlank(blanks) && end > 32
    ensures At(s, i, head) && i + |head| + |blanks| < |s|
    ensures SkipWhitespace(s, i + |head|) == i + |head| + |blanks|
    ensures At(s, i + |head| + |blanks|, [end] + tail)
    ensures s[i + |head| + |blanks|] == end
  {
    var k := i + |head|;
    AtSplit(s, i, head, blanks + ([end] + tail));
    AtSplit(s, k, blanks, [end] + tail);
    assert ([end] + tail)[0] == end;
    SkipBlankRun(s, k, blanks);
  }

  lemma DelimiterBytes()
    ensures IsDelimiter(COMMA) && IsDelimiter(RBRACKET) && IsDelimiter(RBRACE)
    ensures StopsNumber(NUL) && StopsNumber(LF) && StopsNumber(TAB) && StopsNumber(SPACE)
    ensures COMMA != RBRACKET && COMMA != RBRACE && COLON > 32 && QUOTE > 32
    ensures QUOTE != RBRACE && RBRACE > 32
  {
  }

  lemma StartsAndDelimits(b: byte)
    ensures IsDelimiter(b) ==> b > 32 && StopsNumber(b)
    ensures StartsValue(b) ==> b > 32 && b != RBRACKET && b != RBRACE
  {
  }

  // ----- Arrays -----

  lemma ItemsText(format: bool, level: nat, items: seq<Json>)
    requires PrintableItems(items) && items != []
    ensures Printable(items[0]) && PrintableItems(items[1..])
    ensures |items| == 1 ==>
              RenderItems(format, level, items) == Render(format, level, items[0])
    ensures |items| == 1 ==> items == [items[0]]
    ensures |items| > 1 ==>
              RenderItems(format, level, items) + [RBRACKET]
              == Render(format, level, items[0])
                 + ([COMMA] + Gap(format) + (RenderItems(format, level, items[1..]) + [RBRACKET]))
  {
    hide *;
    ItemsUnfold(format, level, items);
    var head, rest := Render(format, level, items[0]), RenderItems(format, level, items[1..]);
    if |items| > 1 {
      assert head + ([COMMA] + Gap(format)) + rest + [RBRACKET]
          == head + ([COMMA] + Gap(format) + (rest + [RBRACKET]));
    } else {
      assert head + [] + [] == head;
    }
  }

  lemma ItemsStart(format: bool, level: nat, items: seq<Json>)
    requires PrintableItems(items) && items != []
    ensures |RenderItems(format, level, items)| > 0
    ensures StartsValue(RenderItems(format, level, items)[0])
  {
    RenderStarts(format, level, items[0]);
  }

  lemma ItemsNesting(items: seq<Json>, depth: nat)
    requires items != []
    ensures depth + NestingOfItems(items) <= NESTING_LIMIT
       <==> depth + Nesting(items[0]) <= NESTING_LIMIT
            && depth + NestingOfItems(items[1..]) <= NESTING_LIMIT
    ensures |items| == 1 ==> NestingOfItems(items[1..]) == 0
  {
  }

  lemma {:induction false} ItemsParse(
    format: bool, level: nat, items: seq<Json>, s: bytes, from: nat, i: nat, depth: nat)
    requires PrintableItems(items) && items != [] && depth <= NESTING_LIMIT
    requires Terminated(s) && At(s, i, RenderItems(format, level, items) + [RBRACKET])
    requires from <= i < |s| && SkipWhitespace(s, from) == i
    ensures if depth + NestingOfItems(items) <= NESTING_LIMIT
            then ParseItems(s, from, depth) == Ok(items, i + |RenderItems(format, level, items)| + 1)
            else ParseItems(s, from, depth).Fail?
    decreases items, 1
  {
    hide *;
    ItemsText(format, level, items);
    ItemsNesting(items, depth);
    HeadAndTail(items);
    DelimiterBytes();
    var head := Render(format, level, items[0]);
    var k := i + |head|;
    if |items| == 1 {
      EndFollows(s, i, head, RBRACKET);
    } else {
      ItemsStart(format, level, items[1..]);
      var tail := RenderItems(format, level, items[1..]) + [RBRACKET];
      StartsAndDelimits(tail[0]);
      CommaSeparates(s, i, head, Gap(format), tail);
    }
    StartsAndDelimits(s[k]);
    StaysAtNonBlank(s, k);
    RenderParses(format, level, items[0], s, i, depth);
    ItemsStep(s, from, depth);
    if depth + Nesting(items[0]) <= NESTING_LIMIT && |items| > 1 {
      ItemsParse(format, level, items[1..], s, k + 1, k + 1 + |Gap(format)|, depth);
    }
  }

  /** What parse_value does at an opening bracket. */
  lemma ArrayStep(s: bytes, i: nat, depth: nat)
    requires Terminated(s) && i < |s| && s[i] == LBRACKET
    ensures i + 1 < |s|
    ensures depth >= NESTING_LIMIT ==> ParseValue(s, i, depth).Fail?
    ensures depth < NESTING_LIMIT && s[SkipWhitespace(s, i + 1)] == RBRACKET ==>
              ParseValue(s, i, depth) == Ok(Array([]), SkipWhitespace(s, i + 1) + 1)
    ensures depth < NESTING_LIMIT && s[SkipWhitespace(s, i + 1)] != RBRACKET ==>
              var r := ParseItems(s, SkipWhitespace(s, i + 1), depth + 1);
              ParseValue(s, i, depth)
              == if r.Ok? then Ok(Array(r.value), r.next) else Fail(r.at)
  {
  }

  lemma StaysAtNonBlank(s: bytes, i: nat)
    requires i < |s| && s[i] > 32
    ensures SkipWhitespace(s, i) == i
  {
  }

  lemma AtFirst(s: bytes, i: nat, b: byte, rest: bytes)
    requires At(s, i, [b] + rest)
    ensures i < |s| && s[i] == b && At(s, i + 1, rest)
  {
    AtSplit(s, i, [b], rest);
  }

  lemma AtStart(s: bytes, i: nat, t: bytes)
    requires At(s, i, t) && t != []
    ensures i < |s| && s[i] == t[0]
  {
  }

  lemma {:induction false} ArrayParses(
    format: bool, level: nat, items: seq<Json>, s: bytes, i: nat, depth: nat)
    requires PrintableItems(items) && depth <= NESTING_LIMIT
    requires Terminated(s) && Printable(Array(items)) && At(s, i, Render(format, level, Array(items)))
    ensures if depth + Nesting(Array(items)) <= NESTING_LIMIT
            then ParseValue(s, i, depth) == Ok(Array(items), i + |Render(format, level, Array(items))|)
            else ParseValue(s, i, depth).Fail?
    decreases items, 2
  {
    hide *;
    ArrayText(format, level, items);
    DelimiterBytes();
    var rest := RenderItems(format, level + 1, items) + [RBRACKET];
    AtFirst(s, i, LBRACKET, rest);
    ArrayStep(s, i, depth);
    AtStart(s, i + 1, rest);
    if items == [] {
      assert rest == [RBRACKET];
      StartsAndDelimits(RBRACKET);
      StaysAtNonBlank(s, i + 1);
    } else {
      ItemsStart(format, level + 1, items);
      StartsAndDelimits(rest[0]);
      StaysAtNonBlank(s, i + 1);
      if depth < NESTING_LIMIT {
        ItemsParse(format, level + 1, items, s, i + 1, i + 1, depth + 1);
      }
    }
  }

  /** The text of a printable tree parses to that tree exactly when the nesting fits. */
  lemma {:induction false} RenderParses(
    format: bool, level: nat, v: Json, s: bytes, i: nat, depth: nat)
    requires Printable(v) && depth <= NESTING_LIMIT
    requires Terminated(s) && At(s, i, Render(format, level, v)) && i < |s|
    requires i + |Render(format, level, v)| < |s|
    requires StopsNumber(s[i + |Render(format, level, v)|])
    ensures if depth + Nesting(v) <= NESTING_LIMIT
            then ParseValue(s, i, depth) == Ok(v, i + |Render(format, level, v)|)
            else ParseValue(s, i, depth).Fail?
    decreases v, 0
  {
    hide Render, ParseValue;
    if v.Array? {
      ArrayParses(format, level, v.items, s, i, depth);
    } else if v.Object? {
      ObjectParses(format, level, v.members, s, i, depth);
    } else {
      LeafParses(format, level, v, s, i, depth);
    }
  }

  // ----- Objects -----

  /** The text of a member list from its first key's quote to the closing brace. The
      blanks in front of the first key belong to what stands before it. */
  function MembersTail(format: bool, level: nat, members: seq<Member>): bytes
    requires PrintableMembers(members) && members != []
    decreases members, 0
  {
    var m := members[0];
    Quote(m.key) + ([COLON] + (KeyGap(format)
      + (Render(format, level + 1, m.value) + AfterValue(format, level, members[1..]))))
  }

  /** The text from the end of a member's value to the closing brace. */
  function AfterValue(format: bool, level: nat, rest: seq<Member>): bytes
    requires PrintableMembers(rest)
    decreases rest, 1
  {
    if rest == [] then BlanksToBrace(format, level) + ([RBRACE] + [])
    else [COMMA] + BlanksToKey(format, level) + MembersTail(format, level, rest)
  }

  lemma MembersTailText(format: bool, level: nat, members: seq<Member>)
    requires PrintableMembers(members) && members != []
    ensures NulFree(members[0].key) && Printable(members[0].value) && PrintableMembers(members[1..])
    ensures MembersTail(format, level, members)
         == Quote(members[0].key) + ([COLON] + (KeyGap(format)
            + (Render(format, level + 1, members[0].value) + AfterValue(format, level, members[1..]))))
    ensures |members| == 1 ==> members[1..] == [] && members == [members[0]]
  {
  }

  lemma AfterValueText(format: bool, level: nat, rest: seq<Member>)
    requires PrintableMembers(rest)
    ensures rest == [] ==>
              AfterValue(format, level, rest) == BlanksToBrace(format, level) + ([RBRACE] + [])
    ensures rest != [] ==>
              AfterValue(format, level, rest)
              == [COMMA] + BlanksToKey(format, level) + MembersTail(format, level, rest)
    ensures AfterValue(format, level, rest) != []
    ensures StopsNumber(AfterValue(format, level, rest)[0])
  {
  }

  lemma MembersTailStarts(format: bool, level: nat, members: seq<Member>)
    requires PrintableMembers(members) && members != []
    ensures MembersTail(format, level, members) != []
    ensures MembersTail(format, level, members)[0] == QUOTE
  {
  }

  lemma {:induction false} MembersText(format: bool, level: nat, members: seq<Member>)
    requires PrintableMembers(members) && members != []
    ensures RenderMembers(format, level + 1, members) + CloseBrace(format, level)
         == Indent(format, level + 1) + MembersTail(format, level, members)
    decreases members
  {
    hide *;
    var m, rest := members[0], members[1..];
    MembersUnfold(format, level + 1, members);
    MembersTailText(format, level, members);
    AfterValueText(format, level, rest);
    var close := CloseBrace(format, level);
    var tail := RenderMembers(format, level + 1, rest) + close;
    var separator := MemberSeparator(format, |members| == 1);
    SeparatorText(format, level);
    if |members| == 1 {
      assert separator + tail == AfterValue(format, level, rest);
    } else {
      MembersText(format, level, rest);
      SeparatorAssociates(
        [COMMA], LineEnd(format), Indent(format, level + 1), MembersTail(format, level, rest));
      assert separator + tail == AfterValue(format, level, rest);
    }
    MemberTextAssociates(
      Indent(format, level + 1), Quote(m.key), [COLON], KeyGap(format),
      Render(format, level + 1, m.value), separator, RenderMembers(format, level + 1, rest), close);
  }

  lemma SeparatorText(format: bool, level: nat)
    ensures MemberSeparator(format, true) == LineEnd(format)
    ensures MemberSeparator(format, false) == [COMMA] + LineEnd(format)
    ensures MemberSeparator(format, true) + ([] + CloseBrace(format, level))
         == BlanksToBrace(format, level) + ([RBRACE] + [])
    ensures BlanksToKey(format, level) == LineEnd(format) + Indent(format, level + 1)
  {
  }

  lemma SeparatorAssociates(comma: bytes, lineEnd: bytes, indent: bytes, tail: bytes)
    ensures comma + lineEnd + (indent + tail) == comma + (lineEnd + indent) + tail
  {
  }

  lemma MemberTextAssociates(
    indent: bytes, key: bytes, colon: bytes, gap: bytes, value: bytes, separator: bytes,
    rest: bytes, close: bytes)
    ensures (indent + key + colon + gap) + value + separator + rest + close
         == indent + (key + (colon + (gap + (value + (separator + (rest + close))))))
  {
  }

  lemma ObjectText(format: bool, level: nat, members: seq<Member>)
    requires PrintableMembers(members)
    ensures members == [] ==>
              Render(format, level, Object(members))
              == [LBRACE] + (BlanksToBrace(format, level) + ([RBRACE] + []))
    ensures members != [] ==>
              Render(format, level, Object(members))
              == [LBRACE] + (BlanksToKey(format, level) + MembersTail(format, level, members))
    ensures Nesting(Object(members)) == 1 + NestingOfMembers(members)
    ensures members == [] ==> NestingOfMembers(members) == 0
  {
    hide *;
    ObjectUnfold(format, level, members);
    var line := LineEnd(format);
    if members == [] {
      var indent := Indent(format, level);
      assert [LBRACE] + line + [] + (indent + [RBRACE]) == [LBRACE] + (line + indent + ([RBRACE] + []));
    } else {
      MembersText(format, level, members);
      var inner, close := RenderMembers(format, level + 1, members), CloseBrace(format, level);
      var indent, tail := Indent(format, level + 1), MembersTail(format, level, members);
      assert [LBRACE] + line + inner + close == [LBRACE] + line + (inner + close);
      assert [LBRACE] + line + (indent + tail) == [LBRACE] + (line + indent + tail);
    }
  }

  lemma MembersNesting(members: seq<Member>, depth: nat)
    requires members != []
    ensures depth + NestingOfMembers(members) <= NESTING_LIMIT
       <==> depth + Nesting(members[0].value) <= NESTING_LIMIT
            && depth + NestingOfMembers(members[1..]) <= NESTING_LIMIT
    ensures |members| == 1 ==> NestingOfMembers(members[1..]) == 0
  {
  }

  /** Where the parts of a member stand, from its key's quote at `q` on. */
  lemma MemberLayout(s: bytes, q: nat, key: bytes, gap: bytes, value: bytes, after: bytes)
    requires NulFree(key) && AllBlank(gap) && value != [] && value[0] > 32
    requires At(s, q, Quote(key) + ([COLON] + (gap + (value + after))))
    ensures var c := q + |Quote(key)|;
            q < |s| && c + 1 < |s| && c + 1 + |gap| < |s|
            && ParseString(s, q) == Ok(key, c)
            && SkipWhitespace(s, c) == c && s[c] == COLON
            && SkipWhitespace(s, c + 1) == c + 1 + |gap|
            && At(s, c + 1 + |gap|, value + after)
  {
    hide *;
    var c := q + |Quote(key)|;
    QuoteLength(key);
    DelimiterBytes();
    AtSplit(s, q, Quote(key), [COLON] + (gap + (value + after)));
    AtFirst(s, c, COLON, gap + (value + after));
    AtSplit(s, c + 1, gap, value + after);
    assert (value + after)[0] == value[0];
    AtStart(s, c + 1 + |gap|, value + after);
    QuoteParses(key, s, q);
    StaysAtNonBlank(s, c);
    SkipBlankRun(s, c + 1, gap);
  }

  lemma QuoteLength(s: bytes)
    ensures |Quote(s)| >= 2
  {
  }

  lemma MemberParsed(s: bytes, from: nat, depth: nat, key: bytes, c: nat, w: nat)
    requires Terminated(s) && from < |s| && c + 1 < |s| && w < |s|
    requires ParseString(s, SkipWhitespace(s, from)) == Ok(key, c)
    requires SkipWhitespace(s, c) == c && s[c] == COLON && SkipWhitespace(s, c + 1) == w
    ensures ParseValue(s, w, depth).Ok? ==>
              ParseMember(s, from, depth)
              == Ok(Member(key, ParseValue(s, w, depth).value), ParseValue(s, w, depth).next)
    ensures ParseValue(s, w, depth).Fail? ==> ParseMember(s, from, depth).Fail?
  {
  }

  lemma {:induction false} MembersParse(
    format: bool, level: nat, members: seq<Member>, s: bytes, from: nat, q: nat, depth: nat)
    requires PrintableMembers(members) && members != [] && depth <= NESTING_LIMIT
    requires Terminated(s) && At(s, q, MembersTail(format, level, members))
    requires from < |s| && SkipWhitespace(s, from) == q
    ensures if depth + NestingOfMembers(members) <= NESTING_LIMIT
            then ParseMembers(s, from, depth) == Ok(members, q + |MembersTail(format, level, members)|)
            else ParseMembers(s, from, depth).Fail?
    decreases members, 1
  {
    hide *;
    MembersTailText(format, level, members);
    MembersNesting(members, depth);
    HeadAndTail(members);
    DelimiterBytes();
    var member, rest := members[0], members[1..];
    var value := Render(format, level + 1, member.value);
    var after := AfterValue(format, level, rest);
    RenderStarts(format, level + 1, member.value);
    StartsAndDelimits(value[0]);
    MemberLayout(s, q, member.key, KeyGap(format), value, after);
    var c := q + |Quote(member.key)|;
    var w := c + 1 + |KeyGap(format)|;
    var k := w + |value|;
    AfterValueText(format, level, rest);
    AtSplit(s, w, value, after);
    AtStart(s, k, after);
    RenderParses(format, level + 1, member.value, s, w, depth);
    MemberParsed(s, from, depth, member.key, c, w);
    MembersStep(s, from, depth);
    if depth + Nesting(member.value) <= NESTING_LIMIT {
      assert Member(member.key, member.value) == member;
      if |members| == 1 {
        BlanksThenByte(s, w, value, BlanksToBrace(format, level), RBRACE, []);
      } else {
        var tail := MembersTail(format, level, rest);
        MembersTailStarts(format, level, rest);
        CommaSeparates(s, w, value, BlanksToKey(format, level), tail);
        StartsAndDelimits(s[k]);
        StaysAtNonBlank(s, k);
        MembersParse(
          format, level, rest, s, k + 1, k + 1 + |BlanksToKey(format, level)|, depth);
      }
    }
  }

  /** What parse_value does at an opening brace. */
  lemma ObjectStep(s: bytes, i: nat, depth: nat)
    requires Terminated(s) && i < |s| && s[i] == LBRACE
    ensures i + 1 < |s|
    ensures depth >= NESTING_LIMIT ==> ParseValue(s, i, depth).Fail?
    ensures depth < NESTING_LIMIT && s[SkipWhitespace(s, i + 1)] == RBRACE ==>
              ParseValue(s, i, depth) == Ok(Object([]), SkipWhitespace(s, i + 1) + 1)
    ensures depth < NESTING_LIMIT && s[SkipWhitespace(s, i + 1)] != RBRACE ==>
              var r := ParseMembers(s, SkipWhitespace(s, i + 1), depth + 1);
              ParseValue(s, i, depth)
              == if r.Ok? then Ok(Object(r.value), r.next) else Fail(r.at)
  {
  }

  lemma {:induction false} ObjectParses(
    format: bool, level: nat, members: seq<Member>, s: bytes, i: nat, depth: nat)
    requires PrintableMembers(members) && depth <= NESTING_LIMIT && Printable(Object(members))
    requires Terminated(s) && At(s, i, Render(format, level, Object(members)))
    ensures if depth + Nesting(Object(members)) <= NESTING_LIMIT
            then ParseValue(s, i, depth)
              == Ok(Object(members), i + |Render(format, level, Object(members))|)
            else ParseValue(s, i, depth).Fail?
    decreases members, 2
  {
    hide *;
    ObjectText(format, level, members);
    DelimiterBytes();
    if members == [] {
      var blanks := BlanksToBrace(format, level);
      AtFirst(s, i, LBRACE, blanks + ([RBRACE] + []));
      ObjectStep(s, i, depth);
      assert [] + (blanks + ([RBRACE] + [])) == blanks + ([RBRACE] + []);
      BlanksThenByte(s, i + 1, [], blanks, RBRACE, []);
    } else {
      var blanks, tail := BlanksToKey(format, level), MembersTail(format, level, members);
      AtFirst(s, i, LBRACE, blanks + tail);
      ObjectStep(s, i, depth);
      MembersTailStarts(format, level, members);
      HeadAndTail(tail);
      assert [] + (blanks + ([QUOTE] + tail[1..])) == blanks + tail;
      BlanksThenByte(s, i + 1, [], blanks, QUOTE, tail[1..]);
      var q := i + 1 + |blanks|;
      StaysAtNonBlank(s, q);
      if depth < NESTING_LIMIT {
        MembersParse(format, level, members, s, q, q, depth + 1);
      }
    }
  }

  // ----- The whole text -----

  lemma NoBomBeforeValue(s: bytes)
    requires |s| > 0 && s[0] < 0x80
    ensures SkipBom(s) == 0
  {
  }

  lemma RenderStartsAscii(format: bool, level: nat, v: Json)
    requires Printable(v)
    ensures |Render(format, level, v)| > 0 && Render(format, level, v)[0] < 0x80
  {
  }

  /** Parse undoes print: the printed text of a tree is accepted, up to its terminator,
      as that same tree if and only if the tree nests no deeper than the limit. */
  lemma ParseUndoesPrint(format: bool, v: Json, requireNulTerminated: bool)
    requires Printable(v)
    ensures Nesting(v) <= 1000 ==>
              ParseWithOpts(PrintedText(format, v), requireNulTerminated)
              == Ok(v, |Render(format, 0, v)|)
    ensures Nesting(v) > 1000 ==>
              ParseWithOpts(PrintedText(format, v), requireNulTerminated).Fail?
  {
    hide Render, ParseValue;
    var text := Render(format, 0, v);
    var s := PrintedText(format, v);
    assert s[..|text|] == text;
    AtSlice(s, 0, text);
    RenderStarts(format, 0, v);
    RenderStartsAscii(format, 0, v);
    NoBomBeforeValue(s);
    StaysAtNonBlank(s, 0);
    RenderParses(format, 0, v, s, 0, 0);
    assert SkipWhitespace(s, |text|) == |text| by {
      assert SkipBlanks(s, |text|) == |s|;
    }
  }

  /** A byte order mark in front of a printed text changes nothing but the offset. */
  lemma ParseSkipsBom(format: bool, v: Json, requireNulTerminated: bool)
    requires Printable(v)
    ensures Nesting(v) <= 1000 ==>
              ParseWithOpts(BOM + PrintedText(format, v), requireNulTerminated)
              == Ok(v, 3 + |Render(format, 0, v)|)
    ensures Nesting(v) > 1000 ==>
              ParseWithOpts(BOM + PrintedText(format, v), requireNulTerminated).Fail?
  {
    hide Render, ParseValue;
    var text := Render(format, 0, v);
    var s := BOM + PrintedText(format, v);
    RenderStarts(format, 0, v);
    assert s[3..3 + |text|] == text;
    AtSlice(s, 3, text);
    assert s[0..3] == BOM;
    AtSlice(s, 0, BOM);
    assert s[3] == s[3..3 + |text|][0];
    StaysAtNonBlank(s, 3);
    RenderParses(format, 0, v, s, 3, 0);
    assert SkipWhitespace(s, 3 + |text|) == 3 + |text| by {
      assert SkipBlanks(s, 3 + |text|) == |s|;
    }
  }
}
