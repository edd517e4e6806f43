/** Minifying the formatted text of a tree gives its unformatted text. */
module MinifyFormatted {
  import opened Bytes
  import opened JsonTree
  import opened Numerals
  import opened Rendering
  import opened Literal
  import opened RoundTrip
  import opened Minify

  /** A byte that cJSON_Minify copies wherever it stands outside a string, whatever follows. */
  predicate IsKept(b: byte) {
    b != NUL && b != SLASH && b != QUOTE && !IsDropped(b)
  }

  ghost predicate AllKept(t: bytes) {
    forall k :: 0 <= k < |t| ==> IsKept(t[k])
  }

  ghost predicate AllDropped(t: bytes) {
    forall k :: 0 <= k < |t| ==> IsDropped(t[k])
  }

  lemma {:induction false} KeptReduces(s: bytes, i: nat, t: bytes)
    requires Terminated(s) && At(s, i, t) && i + |t| < |s| && AllKept(t)
    ensures Reduces(s, i, i + |t|, t)
    decreases |t|
  {
    hide Reduces;
    if t == [] {
      ReducesNowhere(s, i);
    } else {
      ReducesPlain(s, i);
      KeptReduces(s, i + 1, t[1..]);
      HeadAndTail(t);
      ReducesInSteps(s, i, i + 1, i + |t|, [s[i]], t[1..]);
    }
  }

  lemma {:induction false} DroppedReduces(s: bytes, i: nat, t: bytes)
    requires Terminated(s) && At(s, i, t) && i + |t| < |s| && AllDropped(t)
    ensures Reduces(s, i, i + |t|, [])
    decreases |t|
  {
    hide Reduces;
    if t == [] {
      ReducesNowhere(s, i);
    } else {
      ReducesDropped(s, i);
      DroppedReduces(s, i + 1, t[1..]);
      var none: bytes := [];
      ReducesInSteps(s, i, i + 1, i + |t|, none, none);
      assert none + none == none;
    }
  }

  lemma QuoteReduces(s: bytes, i: nat, text: bytes)
    requires Terminated(s) && At(s, i, Quote(text)) && i + |Quote(text)| < |s|
    ensures Reduces(s, i, i + |Quote(text)|, Quote(text))
  {
    hide Reduces, ScanEnd, Escape;
    var lit := Escape(text);
    assert Quote(text) == [QUOTE] + (lit + [QUOTE]);
    AtFirst(s, i, QUOTE, lit + [QUOTE]);
    ScanEndOfEscape(text, s, i + 1);
    ReducesString(s, i, i + 1 + |lit|);
    AtSlice(s, i, Quote(text));
  }

  lemma LeafReduces(level: nat, v: Json, s: bytes, i: nat)
    requires Printable(v) && !v.Array? && !v.Object?
    requires Terminated(s) && At(s, i, Render(true, level, v)) && i + |Render(true, level, v)| < |s|
    ensures Reduces(s, i, i + |Render(true, level, v)|, Render(false, level, v))
  {
    hide *;
    LeafText(true, level, v);
    LeafText(false, level, v);
    if v.String? {
      QuoteReduces(s, i, v.text);
    } else {
      LeafKept(level, v);
      KeptReduces(s, i, Render(true, level, v));
    }
  }

  lemma LeafKept(level: nat, v: Json)
    requires Printable(v) && !v.Array? && !v.Object? && !v.String?
    ensures AllKept(Render(true, level, v)) && Render(true, level, v) == Render(false, level, v)
  {
    if v.Number? {
      DecimalKept(v.valuedouble.Floor);
    }
  }

  lemma DecimalKept(n: int)
    ensures AllKept(DecimalText(n))
  {
  }

  /** The blanks and punctuation of the formatted text, and what is left of them. */
  lemma PunctuationReduces(level: nat)
    ensures AllDropped(Indent(true, level)) && AllDropped(LineEnd(true)) && AllDropped(KeyGap(true))
    ensures AllDropped(Gap(true))
    ensures Indent(false, level) == [] && LineEnd(false) == [] && KeyGap(false) == [] && Gap(false) == []
    ensures AllKept([COLON]) && AllKept([COMMA]) && AllKept([LBRACKET]) && AllKept([RBRACKET])
    ensures AllKept([LBRACE]) && AllKept([RBRACE])
  {
  }

  /** A comma, if there is one, and blanks behind it. */
  lemma CommaReduces(s: bytes, i: nat, comma: bytes, blanks: bytes)
    requires Terminated(s) && At(s, i, comma + blanks) && i + |comma + blanks| < |s|
    requires AllKept(comma) && AllDropped(blanks)
    ensures Reduces(s, i, i + |comma + blanks|, comma + [])
  {
    hide *;
    AtSplit(s, i, comma, blanks);
    KeptReduces(s, i, comma);
    DroppedReduces(s, i + |comma|, blanks);
    ReducesInSteps(s, i, i + |comma|, i + |comma| + |blanks|, comma, []);
  }

  lemma SeparatorParts(format: bool, last: bool)
    ensures ItemSeparator(format, last) == if last then [] + [] else [COMMA] + Gap(format)
    ensures MemberSeparator(format, last) == (if last then [] else [COMMA]) + LineEnd(format)
    ensures AllKept([]) && AllDropped([])
  {
  }

  lemma {:induction false} ItemsReduce(level: nat, items: seq<Json>, s: bytes, i: nat)
    requires PrintableItems(items) && Terminated(s)
    requires At(s, i, RenderItems(true, level, items)) && i + |RenderItems(true, level, items)| < |s|
    ensures Reduces(s, i, i + |RenderItems(true, level, items)|, RenderItems(false, level, items))
    decreases items, 1
  {
    hide *;
    if items == [] {
      NoItems(level);
      ReducesNowhere(s, i);
    } else {
      var last := |items| == 1;
      ItemsUnfold(true, level, items);
      ItemsUnfold(false, level, items);
      var item := Render(true, level, items[0]) + ItemSeparator(true, last);
      var rest := RenderItems(true, level, items[1..]);
      AtSplit(s, i, item, rest);
      var k := i + |item|;
      ItemReduces(level, items[0], last, s, i);
      ItemsReduce(level, items[1..], s, k);
      ReducesInSteps(
        s, i, k, k + |rest|, Render(false, level, items[0]) + ItemSeparator(false, last),
        RenderItems(false, level, items[1..]));
    }
  }

  /** One item with what separates it from the next. */
  lemma {:induction false} ItemReduces(level: nat, v: Json, last: bool, s: bytes, i: nat)
    requires Printable(v) && Terminated(s)
    requires var item := Render(true, level, v) + ItemSeparator(true, last);
             At(s, i, item) && i + |item| < |s|
    ensures Reduces(s, i, i + |Render(true, level, v) + ItemSeparator(true, last)|,
                    Render(false, level, v) + ItemSeparator(false, last))
    decreases v, 1
  {
    hide *;
    SeparatorParts(true, last);
    SeparatorParts(false, last);
    PunctuationReduces(level);
    var head, separator := Render(true, level, v), ItemSeparator(true, last);
    AtSplit(s, i, head, separator);
    var j := i + |head|;
    FormattedReduces(level, v, s, i);
    if last {
      CommaReduces(s, j, [], []);
    } else {
      CommaReduces(s, j, [COMMA], Gap(true));
    }
    ReducesInSteps(s, i, j, j + |separator|, Render(false, level, v), ItemSeparator(false, last));
  }

  lemma NoItems(level: nat)
    ensures RenderItems(true, level, []) == RenderItems(false, level, []) == []
    ensures RenderMembers(true, level, []) == RenderMembers(false, level, []) == []
  {
  }

  /** Key, colon and the blanks around them. */
  lemma HeadReduces(level: nat, key: bytes, s: bytes, i: nat)
    requires Terminated(s)
    requires At(s, i, Indent(true, level) + Quote(key) + [COLON] + KeyGap(true))
    requires i + |Indent(true, level) + Quote(key) + [COLON] + KeyGap(true)| < |s|
    ensures Reduces(s, i, i + |Indent(true, level) + Quote(key) + [COLON] + KeyGap(true)|,
                    Indent(false, level) + Quote(key) + [COLON] + KeyGap(false))
  {
    hide *;
    PunctuationReduces(level);
    var indent, quote, gap := Indent(true, level), Quote(key), KeyGap(true);
    AtSplit(s, i, indent + quote + [COLON], gap);
    AtSplit(s, i, indent + quote, [COLON]);
    AtSplit(s, i, indent, quote);
    var j := i + |indent|;
    var k := j + |quote|;
    DroppedReduces(s, i, indent);
    QuoteReduces(s, j, key);
    KeptReduces(s, k, [COLON]);
    DroppedReduces(s, k + 1, gap);
    ReducesInSteps(s, i, j, k, [], quote);
    ReducesInSteps(s, i, k, k + 1, [] + quote, [COLON]);
    ReducesInSteps(s, i, k + 1, k + 1 + |gap|, [] + quote + [COLON], []);
  }

  /** One member with what separates it from the next. */
  lemma {:induction false} MemberReduces(level: nat, m: Member, last: bool, s: bytes, i: nat)
    requires Printable(m.value) && Terminated(s)
    requires var text := Indent(true, level) + Quote(m.key) + [COLON] + KeyGap(true) + Render(true, level, m.value)
                         + MemberSeparator(true, last);
             At(s, i, text) && i + |text| < |s|
    ensures Reduces(
              s, i,
              i + |Indent(true, level) + Quote(m.key) + [COLON] + KeyGap(true) + Render(true, level, m.value)
                   + MemberSeparator(true, last)|,
              Indent(false, level) + Quote(m.key) + [COLON] + KeyGap(false) + Render(false, level, m.value)
              + MemberSeparator(false, last))
    decreases m, 0
  {
    hide *;
    SeparatorParts(true, last);
    SeparatorParts(false, last);
    PunctuationReduces(level);
    var head := Indent(true, level) + Quote(m.key) + [COLON] + KeyGap(true);
    var head' := Indent(false, level) + Quote(m.key) + [COLON] + KeyGap(false);
    var value, value' := Render(true, level, m.value), Render(false, level, m.value);
    var separator, separator' := MemberSeparator(true, last), MemberSeparator(false, last);
    AtSplit(s, i, head + value, separator);
    AtSplit(s, i, head, value);
    var j := i + |head|;
    var k := j + |value|;
    HeadReduces(level, m.key, s, i);
    FormattedReduces(level, m.value, s, j);
    CommaReduces(s, k, if last then [] else [COMMA], LineEnd(true));
    ReducesInSteps(s, i, j, k, head', value');
    ReducesInSteps(s, i, k, k + |separator|, head' + value', separator');
  }

  lemma {:induction false} MembersReduce(level: nat, members: seq<Member>, s: bytes, i: nat)
    requires PrintableMembers(members) && Terminated(s)
    requires At(s, i, RenderMembers(true, level, members))
    requires i + |RenderMembers(true, level, members)| < |s|
    ensures Reduces(s, i, i + |RenderMembers(true, level, members)|, RenderMembers(false, level, members))
    decreases members, 1
  {
    hide *;
    if members == [] {
      NoItems(level);
      ReducesNowhere(s, i);
    } else {
      var last, m := |members| == 1, members[0];
      MembersPrintable(members);
      MembersUnfold(true, level, members);
      MembersUnfold(false, level, members);
      var member := Indent(true, level) + Quote(m.key) + [COLON] + KeyGap(true) + Render(true, level, m.value)
                    + MemberSeparator(true, last);
      var member' := Indent(false, level) + Quote(m.key) + [COLON] + KeyGap(false) + Render(false, level, m.value)
                     + MemberSeparator(false, last);
      var rest, rest' := RenderMembers(true, level, members[1..]), RenderMembers(false, level, members[1..]);
      AtSplit(s, i, member, rest);
      MemberReduces(level, m, last, s, i);
      MembersReduce(level, members[1..], s, i + |member|);
      ReducesInSteps(s, i, i + |member|, i + |member| + |rest|, member', rest');
    }
  }

  lemma ArrayReduces(level: nat, items: seq<Json>, s: bytes, i: nat)
    requires PrintableItems(items) && Printable(Array(items)) && Terminated(s)
    requires At(s, i, Render(true, level, Array(items)))
    requires i + |Render(true, level, Array(items))| < |s|
    ensures Reduces(s, i, i + |Render(true, level, Array(items))|, Render(false, level, Array(items)))
    decreases items, 2
  {
    hide *;
    ArrayText(true, level, items);
    ArrayText(false, level, items);
    PunctuationReduces(level);
    var inner, inner' := RenderItems(true, level + 1, items), RenderItems(false, level + 1, items);
    AtSplit(s, i, [LBRACKET], inner + [RBRACKET]);
    AtSplit(s, i + 1, inner, [RBRACKET]);
    KeptReduces(s, i, [LBRACKET]);
    ItemsReduce(level + 1, items, s, i + 1);
    KeptReduces(s, i + 1 + |inner|, [RBRACKET]);
    ReducesInSteps(s, i + 1, i + 1 + |inner|, i + 2 + |inner|, inner', [RBRACKET]);
    ReducesInSteps(s, i, i + 1, i + 2 + |inner|, [LBRACKET], inner' + [RBRACKET]);
  }

  lemma ObjectReduces(level: nat, members: seq<Member>, s: bytes, i: nat)
    requires PrintableMembers(members) && Printable(Object(members)) && Terminated(s)
    requires At(s, i, Render(true, level, Object(members)))
    requires i + |Render(true, level, Object(members))| < |s|
    ensures Reduces(s, i, i + |Render(true, level, Object(members))|, Render(false, level, Object(members)))
    decreases members, 2
  {
    hide *;
    ObjectUnfold(true, level, members);
    ObjectUnfold(false, level, members);
    PunctuationReduces(level);
    var line, indent := LineEnd(true), Indent(true, level);
    var inner, inner' := RenderMembers(true, level + 1, members), RenderMembers(false, level + 1, members);
    var close, close' := indent + [RBRACE], Indent(false, level) + [RBRACE];
    AtSplit(s, i, [LBRACE] + line + inner, close);
    AtSplit(s, i, [LBRACE] + line, inner);
    var j := i + |[LBRACE] + line|;
    var k := j + |inner|;
    AtSplit(s, k, indent, [RBRACE]);
    CommaReduces(s, i, [LBRACE], line);
    MembersReduce(level + 1, members, s, j);
    DroppedReduces(s, k, indent);
    KeptReduces(s, k + |indent|, [RBRACE]);
    ReducesInSteps(s, k, k + |indent|, k + |close|, [], [RBRACE]);
    ReducesInSteps(s, i, j, k, [LBRACE] + [], inner');
    ReducesInSteps(s, i, k, k + |close|, [LBRACE] + [] + inner', close');
  }

  lemma {:induction false} FormattedReduces(level: nat, v: Json, s: bytes, i: nat)
    requires Printable(v) && Terminated(s)
    requires At(s, i, Render(true, level, v)) && i + |Render(true, level, v)| < |s|
    ensures Reduces(s, i, i + |Render(true, level, v)|, Render(false, level, v))
    decreases v, 0
  {
    hide Render, Reduces;
    if v.Array? {
      ArrayReduces(level, v.items, s, i);
    } else if v.Object? {
      ObjectReduces(level, v.members, s, i);
    } else {
      LeafReduces(level, v, s, i);
    }
  }

  /** cJSON_Minify turns the text of cJSON_Print into that of cJSON_PrintUnformatted. */
  lemma MinifyUndoesFormatting(v: Json)
    requires Printable(v)
    ensures CString(PrintedText(true, v)) && Minifiable(PrintedText(true, v), 0)
    ensures Minified(PrintedText(true, v), 0) == PrintedText(false, v)
  {
    hide Render, Minifiable, Minified;
    var text := Render(true, 0, v);
    var s := PrintedText(true, v);
    RenderNulFree(true, 0, v);
    assert s[..|s| - 1] == text;
    AtSlice(s, 0, text);
    FormattedReduces(0, v, s, 0);
    EndOfText(s);
  }

  lemma EndOfText(s: bytes)
    requires Terminated(s)
    ensures Minifiable(s, |s| - 1) && Minified(s, |s| - 1) == [NUL]
  {
  }
}
