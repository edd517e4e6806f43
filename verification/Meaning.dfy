/** What a piece of text means wherever it stands: how the meanings of the parts make the
    meaning of the whole. */
module Meaning {
  import opened Bytes
  import opened JsonTree
  import opened Literal
  import opened Parsing
  import opened RoundTrip

  /** Wherever `u` stands, followed by a byte that no number goes on with, it parses as `v`. */
  ghost predicate Denotes(u: bytes, v: Json, depth: nat) {
    u != [] && StartsValue(u[0])
    && forall s: bytes, i: nat {:trigger At(s, i, u)} ::
         Terminated(s) && At(s, i, u) && i + |u| < |s| && StopsNumber(s[i + |u|])
         ==> ParseValue(s, i, depth) == Ok(v, i + |u|)
  }

  /** Wherever `u` stands, it parses as the items `vs` and the closing bracket. */
  ghost predicate DenotesItems(u: bytes, vs: seq<Json>, depth: nat) {
    u != [] && StartsValue(u[0])
    && forall s: bytes, from: nat, i: nat {:trigger At(s, i, u), SkipWhitespace(s, from)} ::
         Terminated(s) && At(s, i, u) && from < |s| && SkipWhitespace(s, from) == i
         ==> ParseItems(s, from, depth) == Ok(vs, i + |u|)
  }

  /** Wherever `u` stands, it parses as a member. */
  ghost predicate DenotesMember(u: bytes, m: Member, depth: nat) {
    u != [] && u[0] == QUOTE
    && forall s: bytes, from: nat, i: nat {:trigger At(s, i, u), SkipWhitespace(s, from)} ::
         Terminated(s) && At(s, i, u) && i + |u| < |s| && StopsNumber(s[i + |u|])
         && from < |s| && SkipWhitespace(s, from) == i
         ==> ParseMember(s, from, depth) == Ok(m, i + |u|)
  }

  /** Wherever `u` stands, it parses as the members `ms` and the closing brace. */
  ghost predicate DenotesMembers(u: bytes, ms: seq<Member>, depth: nat) {
    u != [] && u[0] == QUOTE
    && forall s: bytes, from: nat, i: nat {:trigger At(s, i, u), SkipWhitespace(s, from)} ::
         Terminated(s) && At(s, i, u) && from < |s| && SkipWhitespace(s, from) == i
         ==> ParseMembers(s, from, depth) == Ok(ms, i + |u|)
  }

  // ----- How the meanings of parts make the meaning of the whole -----

  lemma FirstByte(a: bytes, b: bytes)
    requires a != []
    ensures a + b != [] && (a + b)[0] == a[0]
  {
  }

  lemma ItemsEndDenotes(head: bytes, v: Json, w: bytes, depth: nat)
    requires Denotes(head, v, depth) && AllBlank(w)
    ensures DenotesItems(head + (w + ([RBRACKET] + [])), [v], depth)
  {
    hide At, ParseValue, ParseItems, SkipWhitespace, StopsNumber, StartsValue, AllBlank;
    var u := head + (w + ([RBRACKET] + []));
    FirstByte(head, w + ([RBRACKET] + []));
    forall s: bytes, from: nat, i: nat
      | Terminated(s) && At(s, i, u) && from < |s| && SkipWhitespace(s, from) == i
      ensures ParseItems(s, from, depth) == Ok([v], i + |u|)
    {
      BlanksThenByte(s, i, head, w, RBRACKET, []);
      StopsBefore(s, i + |head|, RBRACKET);
      ItemsStep(s, from, depth);
    }
  }

  /** A number cannot run over the blanks before a delimiter. */
  lemma StopsBefore(s: bytes, k: nat, delimiter: byte)
    requires k < |s| && s[SkipWhitespace(s, k)] == delimiter
    requires delimiter == COMMA || delimiter == RBRACKET || delimiter == RBRACE || delimiter == NUL
    ensures StopsNumber(s[k])
  {
  }

  /** A delimiter, blanks, and a text that begins with none. */
  lemma BlanksAfterByte(s: bytes, m: nat, b: byte, w: bytes, tail: bytes)
    requires At(s, m, [b] + (w + tail)) && AllBlank(w) && tail != [] && tail[0] > 32
    ensures m + 1 + |w| < |s| && SkipWhitespace(s, m + 1) == m + 1 + |w|
    ensures At(s, m + 1 + |w|, tail) && s[m + 1 + |w|] == tail[0] && s[m] == b
  {
    AtFirst(s, m, b, w + tail);
    AtSplit(s, m + 1, w, tail);
    SkipBlankRun(s, m + 1, w);
  }

  lemma ItemsMoreDenotes(
    head: bytes, v: Json, w: bytes, w': bytes, tail: bytes, vs: seq<Json>, depth: nat)
    requires Denotes(head, v, depth) && AllBlank(w) && AllBlank(w') && DenotesItems(tail, vs, depth)
    ensures DenotesItems(head + (w + ([COMMA] + (w' + tail))), [v] + vs, depth)
  {
    hide At, ParseValue, ParseItems, SkipWhitespace, StopsNumber, StartsValue, AllBlank;
    var u := head + (w + ([COMMA] + (w' + tail)));
    FirstByte(head, w + ([COMMA] + (w' + tail)));
    StartsAndDelimits(tail[0]);
    forall s: bytes, from: nat, i: nat
      | Terminated(s) && At(s, i, u) && from < |s| && SkipWhitespace(s, from) == i
      ensures ParseItems(s, from, depth) == Ok([v] + vs, i + |u|)
    {
      BlanksThenByte(s, i, head, w, COMMA, w' + tail);
      StopsBefore(s, i + |head|, COMMA);
      BlanksAfterByte(s, i + |head| + |w|, COMMA, w', tail);
      ItemsStep(s, from, depth);
    }
  }

  lemma EmptyArrayDenotes(w: bytes, depth: nat)
    requires AllBlank(w) && depth < NESTING_LIMIT
    ensures Denotes([LBRACKET] + (w + [RBRACKET]), Array([]), depth)
  {
    hide At, ParseValue, SkipWhitespace, StopsNumber, AllBlank;
    var u := [LBRACKET] + (w + [RBRACKET]);
    forall s: bytes, i: nat | Terminated(s) && At(s, i, u)
      ensures i < |s| && ParseValue(s, i, depth) == Ok(Array([]), i + |u|)
    {
      BlanksAfterByte(s, i, LBRACKET, w, [RBRACKET]);
      ArrayStep(s, i, depth);
    }
  }

  lemma ArrayDenotes(w: bytes, inner: bytes, vs: seq<Json>, depth: nat)
    requires AllBlank(w) && depth < NESTING_LIMIT && DenotesItems(inner, vs, depth + 1)
    ensures Denotes([LBRACKET] + (w + inner), Array(vs), depth)
  {
    hide At, ParseValue, ParseItems, SkipWhitespace, StopsNumber, AllBlank;
    var u := [LBRACKET] + (w + inner);
    forall s: bytes, i: nat | Terminated(s) && At(s, i, u)
      ensures i < |s| && ParseValue(s, i, depth) == Ok(Array(vs), i + |u|)
    {
      BlanksAfterByte(s, i, LBRACKET, w, inner);
      ArrayStep(s, i, depth);
      StaysAtNonBlank(s, i + 1 + |w|);
    }
  }

  lemma EmptyObjectDenotes(w: bytes, depth: nat)
    requires AllBlank(w) && depth < NESTING_LIMIT
    ensures Denotes([LBRACE] + (w + [RBRACE]), Object([]), depth)
  {
    hide At, ParseValue, SkipWhitespace, StopsNumber, AllBlank;
    var u := [LBRACE] + (w + [RBRACE]);
    forall s: bytes, i: nat | Terminated(s) && At(s, i, u)
      ensures i < |s| && ParseValue(s, i, depth) == Ok(Object([]), i + |u|)
    {
      BlanksAfterByte(s, i, LBRACE, w, [RBRACE]);
      ObjectStep(s, i, depth);
    }
  }

  lemma ObjectDenotes(w: bytes, inner: bytes, ms: seq<Member>, depth: nat)
    requires AllBlank(w) && depth < NESTING_LIMIT && DenotesMembers(inner, ms, depth + 1)
    ensures Denotes([LBRACE] + (w + inner), Object(ms), depth)
  {
    hide At, ParseValue, ParseMembers, SkipWhitespace, StopsNumber, AllBlank;
    var u := [LBRACE] + (w + inner);
    forall s: bytes, i: nat | Terminated(s) && At(s, i, u)
      ensures i < |s| && ParseValue(s, i, depth) == Ok(Object(ms), i + |u|)
    {
      BlanksAfterByte(s, i, LBRACE, w, inner);
      ObjectStep(s, i, depth);
      StaysAtNonBlank(s, i + 1 + |w|);
    }
  }

  /** Wherever `quoted` stands, it parses as the string `key`. */
  ghost predicate DenotesKey(quoted: bytes, key: bytes) {
    quoted != [] && quoted[0] == QUOTE
    && forall s: bytes, i: nat {:trigger At(s, i, quoted)} ::
         Terminated(s) && i < |s| && At(s, i, quoted) ==> ParseString(s, i) == Ok(key, i + |quoted|)
  }

  lemma MemberReads(
    key: bytes, quoted: bytes, w: bytes, w': bytes, value: bytes, v: Json, depth: nat,
    s: bytes, from: nat, i: nat)
    requires AllBlank(w) && AllBlank(w') && Denotes(value, v, depth) && DenotesKey(quoted, key)
    requires Terminated(s) && At(s, i, quoted + (w + ([COLON] + (w' + value))))
    requires var k := i + |quoted + (w + ([COLON] + (w' + value)))|; k < |s| && StopsNumber(s[k])
    requires from < |s| && SkipWhitespace(s, from) == i
    ensures ParseMember(s, from, depth)
         == Ok(Member(key, v), i + |quoted + (w + ([COLON] + (w' + value)))|)
  {
    hide At, ParseValue, ParseMember, ParseString, SkipWhitespace, StopsNumber, StartsValue, AllBlank;
    StartsAndDelimits(value[0]);
    BlanksThenByte(s, i, quoted, w, COLON, w' + value);
    BlanksAfterByte(s, i + |quoted| + |w|, COLON, w', value);
    MemberTurn(s, from, depth);
  }

  lemma MemberDenotes(key: bytes, quoted: bytes, w: bytes, w': bytes, value: bytes, v: Json, depth: nat)
    requires AllBlank(w) && AllBlank(w') && Denotes(value, v, depth) && DenotesKey(quoted, key)
    ensures DenotesMember(quoted + (w + ([COLON] + (w' + value))), Member(key, v), depth)
  {
    hide At, ParseValue, ParseMember, ParseString, SkipWhitespace, StopsNumber, AllBlank, Denotes;
    var u := quoted + (w + ([COLON] + (w' + value)));
    FirstByte(quoted, w + ([COLON] + (w' + value)));
    forall s: bytes, from: nat, i: nat
      | Terminated(s) && At(s, i, u) && i + |u| < |s| && StopsNumber(s[i + |u|])
        && from < |s| && SkipWhitespace(s, from) == i
      ensures ParseMember(s, from, depth) == Ok(Member(key, v), i + |u|)
    {
      MemberReads(key, quoted, w, w', value, v, depth, s, from, i);
    }
  }

  lemma MembersEndDenotes(head: bytes, m: Member, w: bytes, depth: nat)
    requires DenotesMember(head, m, depth) && AllBlank(w)
    ensures DenotesMembers(head + (w + ([RBRACE] + [])), [m], depth)
  {
    hide At, ParseMember, ParseMembers, SkipWhitespace, StopsNumber, AllBlank;
    var u := head + (w + ([RBRACE] + []));
    FirstByte(head, w + ([RBRACE] + []));
    forall s: bytes, from: nat, i: nat
      | Terminated(s) && At(s, i, u) && from < |s| && SkipWhitespace(s, from) == i
      ensures ParseMembers(s, from, depth) == Ok([m], i + |u|)
    {
      BlanksThenByte(s, i, head, w, RBRACE, []);
      StopsBefore(s, i + |head|, RBRACE);
      MembersStep(s, from, depth);
    }
  }

  lemma MembersMoreDenotes(
    head: bytes, m: Member, w: bytes, w': bytes, tail: bytes, ms: seq<Member>, depth: nat)
    requires DenotesMember(head, m, depth) && AllBlank(w) && AllBlank(w')
    requires DenotesMembers(tail, ms, depth)
    ensures DenotesMembers(head + (w + ([COMMA] + (w' + tail))), [m] + ms, depth)
  {
    hide At, ParseMember, ParseMembers, SkipWhitespace, StopsNumber, AllBlank;
    var u := head + (w + ([COMMA] + (w' + tail)));
    FirstByte(head, w + ([COMMA] + (w' + tail)));
    forall s: bytes, from: nat, i: nat
      | Terminated(s) && At(s, i, u) && from < |s| && SkipWhitespace(s, from) == i
      ensures ParseMembers(s, from, depth) == Ok([m] + ms, i + |u|)
    {
      BlanksThenByte(s, i, head, w, COMMA, w' + tail);
      StopsBefore(s, i + |head|, COMMA);
      BlanksAfterByte(s, i + |head| + |w|, COMMA, w', tail);
      MembersStep(s, from, depth);
    }
  }

  // ----- The whole text -----

  /** The text that is left: byte order mark, blanks, value, blanks, terminator. */
  lemma KeptTextReads(bom: bytes, w: bytes, u: bytes, v: Json, w': bytes)
    requires AllBlank(w) && AllBlank(w') && Denotes(u, v, 0)
    ensures var text := bom + (w + (u + (w' + [NUL])));
            var i := |bom| + |w|;
            var k := i + |u|;
            Terminated(text) && i < k < |text| && |bom| + 1 < |text| && At(text, 0, bom)
            && SkipWhitespace(text, |bom|) == i
            && ParseValue(text, i, 0) == Ok(v, k)
            && SkipWhitespace(text, k) == |text| - 1
  {
    hide *;
    var rest := w' + [NUL];
    var text := bom + (w + (u + rest));
    var i := |bom| + |w|;
    DenotesNonEmpty(u, v);
    AtWhole(text);
    AtSplit(text, 0, bom, w + (u + rest));
    AtSplit(text, |bom|, w, u + rest);
    AtSplit(text, i, u, rest);
    AtStart(text, i, u);
    SkipBlankRun(text, |bom|, w);
    BlankTail(text, i + |u|, w');
    DenotesApplied(u, v, text, i);
  }

  lemma KeptTextParses(bom: bytes, w: bytes, u: bytes, v: Json, w': bytes)
    requires AllBlank(w) && AllBlank(w') && Denotes(u, v, 0)
    requires u != [] && (bom == BOM || (bom == [] && u[0] < 0x80))
    ensures var text := bom + (w + (u + (w' + [NUL])));
            Terminated(text) && ParseWithOpts(text, true) == Ok(v, |text| - 1)
  {
    hide At, ParseValue, Denotes, SkipWhitespace;
    KeptTextReads(bom, w, u, v, w');
    var text := bom + (w + (u + (w' + [NUL])));
    assert bom == [] ==> text[0] == if w == [] then u[0] else w[0];
    BomFound(text, bom);
  }

  /** A value at the start of a text, with anything behind it that no number goes on with. */
  lemma FrontReads(bom: bytes, w: bytes, u: bytes, v: Json, rest: bytes)
    requires AllBlank(w) && Denotes(u, v, 0) && Terminated(rest) && StopsNumber(rest[0])
    requires u != [] && (bom == BOM || bom == []) && (bom == [] ==> u[0] < 0x80)
    ensures var text := bom + (w + (u + rest));
            Terminated(text) && ParseWithOpts(text, false) == Ok(v, |bom| + |w| + |u|)
  {
    hide *;
    var text := bom + (w + (u + rest));
    var i := |bom| + |w|;
    DenotesNonEmpty(u, v);
    StaysTerminated(bom + w + u, rest);
    assert text == bom + w + u + rest;
    AtWhole(text);
    AtSplit(text, 0, bom, w + (u + rest));
    AtSplit(text, |bom|, w, u + rest);
    AtSplit(text, i, u, rest);
    AtStart(text, i, u);
    AtStart(text, i + |u|, rest);
    SkipBlankRun(text, |bom|, w);
    DenotesApplied(u, v, text, i);
    LowFirst(bom, w, u, rest);
    BomFound(text, bom);
    WithoutDemand(text, |bom|);
  }

  lemma StaysTerminated(a: bytes, rest: bytes)
    requires Terminated(rest)
    ensures Terminated(a + rest) && |rest| > 0
  {
  }

  lemma LowFirst(bom: bytes, w: bytes, u: bytes, rest: bytes)
    requires AllBlank(w) && u != [] && (bom == [] ==> u[0] < 0x80)
    ensures bom == [] ==> (bom + (w + (u + rest)))[0] < 0x80
  {
  }

  lemma WithoutDemand(s: bytes, start: nat)
    requires Terminated(s) && SkipBom(s) == start <= |s| && ParseValue(s, SkipWhitespace(s, start), 0).Ok?
    ensures ParseWithOpts(s, false) == ParseValue(s, SkipWhitespace(s, start), 0)
  {
    hide ParseValue, SkipWhitespace;
  }

  lemma DenotesNonEmpty(u: bytes, v: Json)
    requires Denotes(u, v, 0)
    ensures u != [] && u[0] > 32
  {
  }

  lemma DenotesApplied(u: bytes, v: Json, s: bytes, i: nat)
    requires Denotes(u, v, 0) && Terminated(s) && At(s, i, u) && i + |u| < |s| && StopsNumber(s[i + |u|])
    ensures i < |s| && ParseValue(s, i, 0) == Ok(v, i + |u|)
  {
  }

  lemma AtWhole(s: bytes)
    ensures At(s, 0, s)
  {
    AtSlice(s, 0, s);
  }

  lemma BomFound(s: bytes, bom: bytes)
    requires At(s, 0, bom) && |s| > |bom| + 1
    requires bom == BOM || (bom == [] && s[0] < 0x80)
    ensures SkipBom(s) == |bom|
  {
  }

  /** Blanks up to the terminator. */
  lemma BlankTail(s: bytes, k: nat, w: bytes)
    requires At(s, k, w + [NUL]) && AllBlank(w) && k + |w| + 1 == |s|
    ensures k < |s| && StopsNumber(s[k]) && Terminated(s)
    ensures SkipWhitespace(s, k) == |s| - 1
    decreases |w|
  {
    if w == [] {
      SkipWhitespaceStops(s, k);
    } else {
      assert (w + [NUL])[1..] == w[1..] + [NUL];
      BlankTail(s, k + 1, w[1..]);
    }
  }
}
