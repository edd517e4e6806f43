/** Minifying an accepted text keeps it accepted, with the same tree. */
module MinifyMeaning {
  import opened Bytes
  import opened JsonTree
  import opened Numerals
  import opened Literal
  import opened Parsing
  import opened RoundTrip
  import opened Meaning
  import opened Minify
  import opened MinifyFormatted

  // ----- Blanks -----

  /** The parser's blanks reduce to blanks: cJSON_Minify keeps those it does not know. */
  lemma {:induction false} BlanksReduce(s: bytes, i: nat) returns (w: bytes)
    requires CString(s) && i < |s|
    ensures Reduces(s, i, SkipWhitespace(s, i), w) && AllBlank(w) && NulFree(w)
    decreases |s| - i
  {
    hide Reduces;
    if s[i] > 32 || i == |s| - 1 {
      SkipWhitespaceStops(s, i);
      ReducesNowhere(s, i);
      return [];
    }
    assert s[i] != NUL by {
      assert s[i] == s[..|s| - 1][i];
    }
    var rest := BlanksReduce(s, i + 1);
    var j := SkipWhitespace(s, i + 1);
    assert SkipWhitespace(s, i) == j;
    var first: bytes := if IsDropped(s[i]) then [] else [s[i]];
    if IsDropped(s[i]) {
      ReducesDropped(s, i);
    } else {
      ReducesPlain(s, i);
    }
    ReducesInSteps(s, i, i + 1, j, first, rest);
    w := first + rest;
  }

  /** If a number cannot go on behind the blanks, it cannot go on at their start. */
  lemma BlanksStopNumbers(s: bytes, k: nat)
    requires k < |s| && StopsNumber(s[SkipWhitespace(s, k)])
    ensures StopsNumber(s[k])
  {
  }

  // ----- Leaves -----

  lemma NumberReduces(s: bytes, i: nat, depth: nat) returns (u: bytes)
    requires Terminated(s) && i < |s| && StartsNumber(s[i]) && ParseNumber(s, i).Ok?
    requires StopsNumber(s[ParseNumber(s, i).next])
    ensures Reduces(s, i, ParseNumber(s, i).next, u)
    ensures u == s[i..ParseNumber(s, i).next] && Denotes(u, ParseNumber(s, i).value, depth)
  {
    hide *;
    var k := ParseNumber(s, i).next;
    u := s[i..k];
    NumberRun(s, i, k);
    AtSlice(s, i, u);
    NumberBytesKept(u);
    KeptReduces(s, i, u);
    NumberDenotes(s, i, k, depth);
  }

  lemma NumberDenotes(s: bytes, i: nat, k: nat, depth: nat)
    requires Terminated(s) && i < |s| && StartsNumber(s[i]) && ParseNumber(s, i).Ok?
    requires k == ParseNumber(s, i).next && StopsNumber(s[k])
    ensures Denotes(s[i..k], ParseNumber(s, i).value, depth)
  {
    hide ParseNumber, ParseValue, At, StopsNumber;
    var u := s[i..k];
    assert u[0] == s[i];
    forall s': bytes, i': nat
      | Terminated(s') && At(s', i', u) && i' + |u| < |s'| && StopsNumber(s'[i' + |u|])
      ensures ParseValue(s', i', depth) == Ok(ParseNumber(s, i).value, i' + |u|)
    {
      NumberMoves(s, i, k, s', i', depth);
    }
  }

  /** The run that parse_number copies is just what strtod uses, if no number byte follows. */
  lemma NumberRun(s: bytes, i: nat, k: nat)
    requires Terminated(s) && i < |s| && ParseNumber(s, i).Ok? && k == ParseNumber(s, i).next
    requires StopsNumber(s[k])
    ensures k == i + RunLength(s, i, NUMBER_TEXT_LIMIT)
    ensures forall n :: 0 <= n < k - i ==> IsNumberByte(s[i..k][n])
    ensures k - i <= NUMBER_TEXT_LIMIT
    ensures Strtod(s[i..k]) == Numeral(k - i, ParseNumber(s, i).value.valuedouble)
    ensures ParseNumber(s, i).value.Number?
  {
    hide Strtod, StopsNumber, RunLength, IsNumberByte;
    var n := RunLength(s, i, NUMBER_TEXT_LIMIT);
    var numeral := Strtod(s[i..i + n]);
    assert numeral.consumed <= n && k == i + numeral.consumed;
    NumberBytesGoOn(s[k]);
    assert k == i + n;
    assert forall m :: 0 <= m < n ==> s[i..k][m] == s[i + m];
  }

  lemma NumberBytesGoOn(b: byte)
    ensures IsNumberByte(b) <==> !StopsNumber(b)
  {
  }

  lemma NumberBytesKept(u: bytes)
    requires forall n :: 0 <= n < |u| ==> IsNumberByte(u[n])
    ensures AllKept(u)
  {
  }

  lemma NumberMoves(s: bytes, i: nat, k: nat, s': bytes, i': nat, depth: nat)
    requires Terminated(s) && i < |s| && StartsNumber(s[i]) && ParseNumber(s, i).Ok?
    requires k == ParseNumber(s, i).next && StopsNumber(s[k])
    requires Terminated(s') && At(s', i', s[i..k])
    requires i' + (k - i) < |s'| && StopsNumber(s'[i' + (k - i)])
    ensures ParseValue(s', i', depth) == Ok(ParseNumber(s, i).value, i' + (k - i))
  {
    hide Strtod, At, RunLength;
    var u := s[i..k];
    NumberRun(s, i, k);
    AtSlice(s', i', u);
    assert u[0] == s[i];
    assert s'[i'..i' + |u|][0] == s'[i'];
    assert forall x :: i' <= x < i' + |u| ==> s'[x] == s'[i'..i' + |u|][x - i'];
    RunLengthIs(s', i', NUMBER_TEXT_LIMIT, |u|);
    NumberValueStep(s', i', depth);
  }

  lemma StringReduces(s: bytes, i: nat) returns (u: bytes)
    requires Terminated(s) && i < |s| && ParseString(s, i).Ok?
    ensures ParseString(s, i).next < |s|
    ensures Reduces(s, i, ParseString(s, i).next, u)
    ensures DenotesKey(u, ParseString(s, i).value)
  {
    hide Reduces, Decode, ScanEnd, At;
    var k := ParseString(s, i).next;
    u := s[i..k];
    ReducesString(s, i, k - 1);
    forall s': bytes, i': nat | Terminated(s') && i' < |s'| && At(s', i', u)
      ensures ParseString(s', i') == Ok(ParseString(s, i).value, i' + |u|)
    {
      ParseStringMoves(s, i, s', i');
    }
  }

  lemma StringValueReduces(s: bytes, i: nat, depth: nat) returns (u: bytes)
    requires Terminated(s) && i < |s| && ParseString(s, i).Ok?
    ensures ParseString(s, i).next < |s| && Reduces(s, i, ParseString(s, i).next, u)
    ensures Denotes(u, String(ParseString(s, i).value), depth)
  {
    hide Reduces, ParseString, ParseValue;
    u := StringReduces(s, i);
    ParsedStringQuoted(s, i);
    forall s': bytes, i': nat
      | Terminated(s') && At(s', i', u) && i' + |u| < |s'| && StopsNumber(s'[i' + |u|])
      ensures ParseValue(s', i', depth) == Ok(String(ParseString(s, i).value), i' + |u|)
    {
      StringStep([], s', i', depth);
    }
  }

  lemma ParsedStringQuoted(s: bytes, i: nat)
    requires i < |s| && ParseString(s, i).Ok?
    ensures s[i] == QUOTE && QUOTE > 32 && i + 2 <= ParseString(s, i).next <= |s|
  {
  }

  lemma WordReduces(s: bytes, i: nat, word: bytes, v: Json, depth: nat)
    requires Terminated(s) && At(s, i, word) && i + |word| < |s|
    requires (word == NULL_TEXT && v == Null) || (word == FALSE_TEXT && v == False)
             || (word == TRUE_TEXT && v == True)
    ensures Reduces(s, i, i + |word|, word) && Denotes(word, v, depth)
  {
    hide Reduces, ParseValue, At;
    assert AllKept(word);
    KeptReduces(s, i, word);
    forall s': bytes, i': nat
      | Terminated(s') && At(s', i', word) && i' + |word| < |s'| && StopsNumber(s'[i' + |word|])
      ensures ParseValue(s', i', depth) == Ok(v, i' + |word|)
    {
      LiteralWordsParse(s', i', depth);
    }
  }

  // ----- Every accepted text reduces to one with the same meaning -----

  /** A single punctuation byte between two blank runs. */
  lemma PunctuationKept(s: bytes, i: nat)
    requires Terminated(s) && i < |s|
    requires s[i] in [COMMA, COLON, LBRACKET, RBRACKET, LBRACE, RBRACE]
    ensures i + 1 < |s| && Reduces(s, i, i + 1, [s[i]])
  {
    hide Reduces;
    ReducesPlain(s, i);
  }

  lemma WordAt(s: bytes, i: nat)
    requires Terminated(s) && i < |s|
    ensures IsNullText(s, i) ==> At(s, i, NULL_TEXT)
    ensures IsFalseText(s, i) ==> At(s, i, FALSE_TEXT)
    ensures IsTrueText(s, i) ==> At(s, i, TRUE_TEXT)
  {
    if IsNullText(s, i) {
      assert s[i..i + 4] == NULL_TEXT;
      AtSlice(s, i, NULL_TEXT);
    }
    if IsFalseText(s, i) {
      assert s[i..i + 5] == FALSE_TEXT;
      AtSlice(s, i, FALSE_TEXT);
    }
    if IsTrueText(s, i) {
      assert s[i..i + 4] == TRUE_TEXT;
      AtSlice(s, i, TRUE_TEXT);
    }
  }

  /** The values that are no containers, as parse_value tells them apart. */
  lemma LeafCases(s: bytes, i: nat, depth: nat)
    requires Terminated(s) && i < |s| && ParseValue(s, i, depth).Ok?
    requires s[i] != LBRACKET && s[i] != LBRACE
    ensures (IsNullText(s, i) && ParseValue(s, i, depth) == Ok(Null, i + 4))
         || (IsFalseText(s, i) && ParseValue(s, i, depth) == Ok(False, i + 5))
         || (IsTrueText(s, i) && ParseValue(s, i, depth) == Ok(True, i + 4))
         || (ParseString(s, i).Ok?
             && ParseValue(s, i, depth) == Ok(String(ParseString(s, i).value), ParseString(s, i).next))
         || (StartsNumber(s[i]) && ParseNumber(s, i).Ok? && ParseValue(s, i, depth) == ParseNumber(s, i))
    ensures |NULL_TEXT| == 4 && |FALSE_TEXT| == 5 && |TRUE_TEXT| == 4
  {
    hide ParseString, ParseNumber;
  }

  lemma LeafValueReduces(s: bytes, i: nat, depth: nat) returns (u: bytes)
    requires CString(s) && i < |s| && ParseValue(s, i, depth).Ok?
    requires s[i] != LBRACKET && s[i] != LBRACE
    requires StopsNumber(s[SkipWhitespace(s, ParseValue(s, i, depth).next)])
    ensures Reduces(s, i, ParseValue(s, i, depth).next, u)
    ensures Denotes(u, ParseValue(s, i, depth).value, depth)
  {
    hide ParseValue, ParseString, ParseNumber, Reduces, Denotes, At, IsNullText, IsFalseText, IsTrueText,
      NulFree, SkipWhitespace, StopsNumber;
    LeafCases(s, i, depth);
    WordAt(s, i);
    BlanksStopNumbers(s, ParseValue(s, i, depth).next);
    if IsNullText(s, i) && ParseValue(s, i, depth) == Ok(Null, i + 4) {
      WordReduces(s, i, NULL_TEXT, Null, depth);
      u := NULL_TEXT;
    } else if IsFalseText(s, i) && ParseValue(s, i, depth) == Ok(False, i + 5) {
      WordReduces(s, i, FALSE_TEXT, False, depth);
      u := FALSE_TEXT;
    } else if IsTrueText(s, i) && ParseValue(s, i, depth) == Ok(True, i + 4) {
      WordReduces(s, i, TRUE_TEXT, True, depth);
      u := TRUE_TEXT;
    } else if ParseString(s, i).Ok? {
      u := StringValueReduces(s, i, depth);
    } else {
      u := NumberReduces(s, i, depth);
    }
  }

  lemma {:induction false} ValueReduces(s: bytes, i: nat, depth: nat) returns (u: bytes)
    requires CString(s) && i < |s| && ParseValue(s, i, depth).Ok?
    requires StopsNumber(s[SkipWhitespace(s, ParseValue(s, i, depth).next)])
    ensures Reduces(s, i, ParseValue(s, i, depth).next, u)
    ensures Denotes(u, ParseValue(s, i, depth).value, depth)
    decreases |s| - i, 2
  {
    hide ParseValue, Reduces, Denotes, DenotesItems, DenotesMembers, NulFree, StopsNumber, SkipWhitespace;
    if s[i] != LBRACKET && s[i] != LBRACE {
      u := LeafValueReduces(s, i, depth);
    } else if s[i] == LBRACKET {
      u := ArrayValueReduces(s, i, depth);
    } else {
      u := ObjectValueReduces(s, i, depth);
    }
  }

  lemma {:induction false} ArrayValueReduces(s: bytes, i: nat, depth: nat) returns (u: bytes)
    requires CString(s) && i < |s| && ParseValue(s, i, depth).Ok? && s[i] == LBRACKET
    ensures Reduces(s, i, ParseValue(s, i, depth).next, u)
    ensures Denotes(u, ParseValue(s, i, depth).value, depth)
    decreases |s| - i, 1
  {
    hide ParseValue, ParseItems, Reduces, Denotes, DenotesItems, NulFree, SkipWhitespace, AllBlank;
    ArrayStep(s, i, depth);
    PunctuationKept(s, i);
    var w := BlanksReduce(s, i + 1);
    var j := SkipWhitespace(s, i + 1);
    var inner: bytes;
    if s[j] == RBRACKET {
      inner := [RBRACKET];
      PunctuationKept(s, j);
      EmptyArrayDenotes(w, depth);
    } else {
      AfterBlanks(s, i + 1);
      inner := ItemsReduce(s, j, depth + 1);
      ArrayDenotes(w, inner, ParseItems(s, j, depth + 1).value, depth);
    }
    var k := ParseValue(s, i, depth).next;
    ReducesInSteps(s, i + 1, j, k, w, inner);
    ReducesInSteps(s, i, i + 1, k, [LBRACKET], w + inner);
    u := [LBRACKET] + (w + inner);
  }

  lemma {:induction false} ItemsReduce(s: bytes, from: nat, depth: nat) returns (u: bytes)
    requires CString(s) && from < |s| && ParseItems(s, from, depth).Ok?
    ensures Reduces(s, SkipWhitespace(s, from), ParseItems(s, from, depth).next, u)
    ensures DenotesItems(u, ParseItems(s, from, depth).value, depth)
    decreases |s| - from, 3
  {
    hide ParseValue, ParseItems, Reduces, Denotes, DenotesItems, NulFree, SkipWhitespace, AllBlank;
    ItemsStep(s, from, depth);
    AfterBlanks(s, from);
    var i := SkipWhitespace(s, from);
    var v, k := ParseValue(s, i, depth).value, ParseValue(s, i, depth).next;
    var m := SkipWhitespace(s, k);
    var head := ValueReduces(s, i, depth);
    var w := BlanksReduce(s, k);
    PunctuationKept(s, m);
    var tail: bytes;
    var end := ParseItems(s, from, depth).next;
    if s[m] == RBRACKET {
      tail := [];
      ReducesNowhere(s, end);
      ItemsEndDenotes(head, v, w, depth);
    } else {
      var w' := BlanksReduce(s, m + 1);
      var rest := ItemsReduce(s, m + 1, depth);
      tail := w' + rest;
      ReducesInSteps(s, m + 1, SkipWhitespace(s, m + 1), end, w', rest);
      ItemsMoreDenotes(head, v, w, w', rest, ParseItems(s, m + 1, depth).value, depth);
    }
    ReducesInSteps(s, m, m + 1, end, [s[m]], tail);
    ReducesInSteps(s, k, m, end, w, [s[m]] + tail);
    ReducesInSteps(s, i, k, end, head, w + ([s[m]] + tail));
    u := head + (w + ([s[m]] + tail));
  }

  lemma {:induction false} ObjectValueReduces(s: bytes, i: nat, depth: nat) returns (u: bytes)
    requires CString(s) && i < |s| && ParseValue(s, i, depth).Ok? && s[i] == LBRACE
    ensures Reduces(s, i, ParseValue(s, i, depth).next, u)
    ensures Denotes(u, ParseValue(s, i, depth).value, depth)
    decreases |s| - i, 1
  {
    hide ParseValue, ParseMembers, Reduces, Denotes, DenotesMembers, NulFree, SkipWhitespace, AllBlank;
    ObjectStep(s, i, depth);
    PunctuationKept(s, i);
    var w := BlanksReduce(s, i + 1);
    var j := SkipWhitespace(s, i + 1);
    var inner: bytes;
    if s[j] == RBRACE {
      inner := [RBRACE];
      PunctuationKept(s, j);
      EmptyObjectDenotes(w, depth);
    } else {
      AfterBlanks(s, i + 1);
      inner := MembersReduce(s, j, depth + 1);
      ObjectDenotes(w, inner, ParseMembers(s, j, depth + 1).value, depth);
    }
    var k := ParseValue(s, i, depth).next;
    ReducesInSteps(s, i + 1, j, k, w, inner);
    ReducesInSteps(s, i, i + 1, k, [LBRACE], w + inner);
    u := [LBRACE] + (w + inner);
  }

  lemma {:induction false} MemberReduces(s: bytes, from: nat, depth: nat) returns (u: bytes)
    requires CString(s) && from < |s| && ParseMember(s, from, depth).Ok?
    requires StopsNumber(s[SkipWhitespace(s, ParseMember(s, from, depth).next)])
    ensures Reduces(s, SkipWhitespace(s, from), ParseMember(s, from, depth).next, u)
    ensures DenotesMember(u, ParseMember(s, from, depth).value, depth)
    decreases |s| - from, 3
  {
    hide ParseValue, ParseString, ParseMember, Reduces, Denotes, DenotesMember, NulFree, SkipWhitespace,
      AllBlank, StopsNumber, At, DenotesKey;
    MemberHasKey(s, from, depth);
    MemberTurn(s, from, depth);
    AfterBlanks(s, from);
    var i := SkipWhitespace(s, from);
    ParsedStringQuoted(s, i);
    var key, k := ParseString(s, i).value, ParseString(s, i).next;
    var quoted := StringReduces(s, i);
    var c := SkipWhitespace(s, k);
    AfterBlanks(s, k);
    var w := BlanksReduce(s, k);
    PunctuationKept(s, c);
    var w' := BlanksReduce(s, c + 1);
    AfterBlanks(s, c + 1);
    var j := SkipWhitespace(s, c + 1);
    var value := ValueReduces(s, j, depth);
    var end := ParseValue(s, j, depth).next;
    MemberDenotes(key, quoted, w, w', value, ParseValue(s, j, depth).value, depth);
    ReducesInSteps(s, c + 1, j, end, w', value);
    ReducesInSteps(s, c, c + 1, end, [COLON], w' + value);
    ReducesInSteps(s, k, c, end, w, [COLON] + (w' + value));
    ReducesInSteps(s, i, k, end, quoted, w + ([COLON] + (w' + value)));
    u := quoted + (w + ([COLON] + (w' + value)));
  }

  lemma MemberHasKey(s: bytes, from: nat, depth: nat)
    requires Terminated(s) && from < |s| && ParseMember(s, from, depth).Ok?
    ensures ParseString(s, SkipWhitespace(s, from)).Ok?
  {
    hide ParseValue, ParseString, SkipWhitespace;
  }

  lemma {:induction false} MembersReduce(s: bytes, from: nat, depth: nat) returns (u: bytes)
    requires CString(s) && from < |s| && ParseMembers(s, from, depth).Ok?
    ensures Reduces(s, SkipWhitespace(s, from), ParseMembers(s, from, depth).next, u)
    ensures DenotesMembers(u, ParseMembers(s, from, depth).value, depth)
    decreases |s| - from, 4
  {
    hide ParseMember, ParseMembers, Reduces, DenotesMember, DenotesMembers, NulFree, SkipWhitespace,
      AllBlank;
    MembersStep(s, from, depth);
    AfterBlanks(s, from);
    var i := SkipWhitespace(s, from);
    var member, k := ParseMember(s, from, depth).value, ParseMember(s, from, depth).next;
    var m := SkipWhitespace(s, k);
    var head := MemberReduces(s, from, depth);
    var w := BlanksReduce(s, k);
    PunctuationKept(s, m);
    var tail: bytes;
    var end := ParseMembers(s, from, depth).next;
    if s[m] == RBRACE {
      tail := [];
      ReducesNowhere(s, end);
      MembersEndDenotes(head, member, w, depth);
    } else {
      var w' := BlanksReduce(s, m + 1);
      var rest := MembersReduce(s, m + 1, depth);
      tail := w' + rest;
      ReducesInSteps(s, m + 1, SkipWhitespace(s, m + 1), end, w', rest);
      MembersMoreDenotes(head, member, w, w', rest, ParseMembers(s, m + 1, depth).value, depth);
    }
    ReducesInSteps(s, m, m + 1, end, [s[m]], tail);
    ReducesInSteps(s, k, m, end, w, [s[m]] + tail);
    ReducesInSteps(s, i, k, end, head, w + ([s[m]] + tail));
    u := head + (w + ([s[m]] + tail));
  }

  // ----- The whole text -----

  lemma BomReduces(s: bytes) returns (bom: bytes)
    requires CString(s) && SkipBom(s) < |s|
    ensures Reduces(s, 0, SkipBom(s), bom) && |bom| == SkipBom(s)
    ensures bom == BOM || bom == []
  {
    if SkipBom(s) == 3 {
      bom := BOM;
      KeptReduces(s, 0, BOM);
    } else {
      bom := [];
      ReducesNowhere(s, 0);
    }
  }

  /** What can begin a value is an ASCII byte. */
  lemma ValueStartsAscii(s: bytes, i: nat, depth: nat)
    requires Terminated(s) && i < |s| && ParseValue(s, i, depth).Ok?
    ensures s[i] < 0x80
  {
    hide ParseString, ParseNumber, ParseArray, ParseObject;
  }

  lemma ReducedStart(s: bytes, i: nat, j: nat, u: bytes)
    requires Reduces(s, i, j, u) && Minifiable(s, j) && u != []
    requires PieceAt(s, i).Plain? || PieceAt(s, i).StringLiteral?
    ensures u[0] == s[i]
  {
    FirstByte(u, Minified(s, j));
    assert Minified(s, i)[0] == s[i];
  }

  lemma ValueIsKept(s: bytes, i: nat, depth: nat)
    requires Terminated(s) && i < |s| && ParseValue(s, i, depth).Ok?
    ensures PieceAt(s, i).Plain? || PieceAt(s, i).StringLiteral?
  {
    hide ParseString, ParseNumber, ParseArray, ParseObject;
  }

  /** Minify preserves meaning: a text that cJSON_ParseWithOpts accepts up to its
      terminator can be minified, and the minified text is accepted as the same tree. */
  lemma MinifyPreservesMeaning(s: bytes)
    requires CString(s) && ParseWithOpts(s, true).Ok?
    ensures Minifiable(s, 0)
    ensures ParseWithOpts(Minified(s, 0), true).Ok?
    ensures ParseWithOpts(Minified(s, 0), true).value == ParseWithOpts(s, true).value
  {
    hide ParseWithOpts, ParseValue, SkipWhitespace, SkipBom, Denotes, Minifiable, Minified, PieceAt, NulFree,
      AllBlank;
    AcceptedParts(s);
    var start := SkipBom(s);
    var i := SkipWhitespace(s, start);
    var v, k := ParseValue(s, i, 0).value, ParseValue(s, i, 0).next;
    var end := SkipWhitespace(s, k);
    StopsBefore(s, k, NUL);
    NulOnlyAtEnd(s, end);
    EndStops(s, end);
    var bom := BomReduces(s);
    var w := BlanksReduce(s, start);
    var u := ValueReduces(s, i, 0);
    var w' := BlanksReduce(s, k);
    DenotesNonEmpty(u, v);
    EndOfText(s);
    ReducesChain(s, start, i, k, bom, w, u, w');
    ValueIsKept(s, i, 0);
    ValueStartsAscii(s, i, 0);
    ReducesMinifiable(s, k, end, w');
    ReducedStart(s, i, k, u);
    KeptTextParses(bom, w, u, v, w');
  }

  lemma ReducesMinifiable(s: bytes, i: nat, j: nat, u: bytes)
    requires Reduces(s, i, j, u) && Minifiable(s, j)
    ensures Minifiable(s, i)
  {
  }

  lemma NulOnlyAtEnd(s: bytes, i: nat)
    requires CString(s) && i < |s| && s[i] == NUL
    ensures i == |s| - 1
  {
    assert forall k :: 0 <= k < |s| - 1 ==> s[k] == s[..|s| - 1][k];
  }

  lemma EndStops(s: bytes, i: nat)
    requires i < |s| && s[i] == NUL
    ensures StopsNumber(s[i])
  {
  }

  lemma ReducesChain(
    s: bytes, start: nat, i: nat, k: nat, bom: bytes, w: bytes, u: bytes, w': bytes)
    requires Reduces(s, 0, start, bom) && Reduces(s, start, i, w) && Reduces(s, i, k, u)
    requires Reduces(s, k, |s| - 1, w')
    ensures Minifiable(s, 0) && Minified(s, 0) == bom + (w + (u + (w' + [NUL])))
  {
    hide Minifiable, Minified;
    EndOfText(s);
  }
}
