/** The parser as functions from a text, an offset and a nesting depth to the value and
    the offset after it, or to the offset at which the parser gives up. */
module Parsing {
  import opened Bytes
  import opened JsonTree
  import opened Numerals
  import opened Literal

  const BOM: bytes := [0xEF, 0xBB, 0xBF]

  function SkipBlanks(s: bytes, i: nat): (r: nat)
    requires i <= |s|
    ensures i <= r <= |s|
    ensures r < |s| ==> s[r] > 32
    decreases |s| - i
  {
    if i < |s| && s[i] <= 32 then SkipBlanks(s, i + 1) else i
  }

  /** buffer_skip_whitespace: past every byte up to 32, the terminator included, and one
      step back at the end of the buffer. */
  function SkipWhitespace(s: bytes, i: nat): (r: nat)
    requires |s| > 0 && i <= |s|
    ensures r < |s| && (i < |s| ==> i <= r)
    ensures s[r] > 32 || r == |s| - 1
  {
    var r := SkipBlanks(s, i);
    if r == |s| then r - 1 else r
  }

  /** skip_utf8_bom at the start of the buffer. */
  function SkipBom(s: bytes): (r: nat)
    ensures r <= |s|
  {
    if 4 < |s| && At(s, 0, BOM) then 3 else 0
  }

  function ParseNumber(s: bytes, i: nat): (r: Outcome<Json>)
    requires Terminated(s) && i < |s|
    ensures r.Ok? ==> i < r.next < |s|
  {
    var n := RunLength(s, i, NUMBER_TEXT_LIMIT);
    var numeral := Strtod(s[i..i + n]);
    if numeral.consumed == 0 then Fail(i) else Ok(Number(numeral.value), i + numeral.consumed)
  }

  predicate StartsNumber(b: byte) {
    b == MINUS || IsDigit(b)
  }

  predicate IsNullText(s: bytes, i: nat) {
    i + 4 <= |s| && s[i] == 0x6E && s[i + 1] == 0x75 && s[i + 2] == 0x6C && s[i + 3] == 0x6C
  }

  predicate IsFalseText(s: bytes, i: nat) {
    i + 5 <= |s| && s[i] == 0x66 && s[i + 1] == 0x61 && s[i + 2] == 0x6C && s[i + 3] == 0x73
    && s[i + 4] == 0x65
  }

  predicate IsTrueText(s: bytes, i: nat) {
    i + 4 <= |s| && s[i] == 0x74 && s[i + 1] == 0x72 && s[i + 2] == 0x75 && s[i + 3] == 0x65
  }

  function ParseValue(s: bytes, i: nat, depth: nat): (r: Outcome<Json>)
    requires Terminated(s) && i < |s|
    ensures r.Ok? ==> i < r.next < |s|
    decreases |s| - i, 0
  {
    if IsNullText(s, i) then Ok(Null, i + 4)
    else if IsFalseText(s, i) then Ok(False, i + 5)
    else if IsTrueText(s, i) then Ok(True, i + 4)
    else if s[i] == QUOTE then
      match ParseString(s, i)
      case Fail(k) => Fail(k)
      case Ok(text, k) => Ok(String(text), k)
    else if StartsNumber(s[i]) then ParseNumber(s, i)
    else if s[i] == LBRACKET then
      if depth >= NESTING_LIMIT then Fail(i) else ParseArray(s, i + 1, depth + 1)
    else if s[i] == LBRACE then
      if depth >= NESTING_LIMIT then Fail(i) else ParseObject(s, i + 1, depth + 1)
    else Fail(i)
  }

  /** parse_array after the opening bracket and the change of depth. */
  function ParseArray(s: bytes, i: nat, depth: nat): (r: Outcome<Json>)
    requires Terminated(s) && i < |s|
    ensures r.Ok? ==> i < r.next < |s|
    decreases |s| - i, 3
  {
    var j := SkipWhitespace(s, i);
    if s[j] == RBRACKET then Ok(Array([]), j + 1)
    else
      match ParseItems(s, j, depth)
      case Fail(k) => Fail(k)
      case Ok(items, k) => Ok(Array(items), k)
  }

  /** parse_object after the opening brace and the change of depth. */
  function ParseObject(s: bytes, i: nat, depth: nat): (r: Outcome<Json>)
    requires Terminated(s) && i < |s|
    ensures r.Ok? ==> i < r.next < |s|
    decreases |s| - i, 3
  {
    var j := SkipWhitespace(s, i);
    if s[j] == RBRACE then Ok(Object([]), j + 1)
    else
      match ParseMembers(s, j, depth)
      case Fail(k) => Fail(k)
      case Ok(members, k) => Ok(Object(members), k)
  }

  /** The loop of parse_array, from the offset after the bracket or comma to after the
      closing bracket. */
  function ParseItems(s: bytes, i: nat, depth: nat): (r: Outcome<seq<Json>>)
    requires Terminated(s) && i < |s|
    ensures r.Ok? ==> i < r.next < |s|
    decreases |s| - i, 1
  {
    var j := SkipWhitespace(s, i);
    match ParseValue(s, j, depth)
    case Fail(k) => Fail(k)
    case Ok(v, k) =>
      var m := SkipWhitespace(s, k);
      if s[m] == COMMA then
        match ParseItems(s, m + 1, depth)
        case Fail(e) => Fail(e)
        case Ok(vs, e) => Ok([v] + vs, e)
      else if s[m] == RBRACKET then Ok([v], m + 1)
      else Fail(m)
  }

  /** One turn of parse_object's loop up to and including the value. */
  function ParseMember(s: bytes, i: nat, depth: nat): (r: Outcome<Member>)
    requires Terminated(s) && i < |s|
    ensures r.Ok? ==> i < r.next < |s|
    decreases |s| - i, 1
  {
    match ParseString(s, SkipWhitespace(s, i))
    case Fail(k) => Fail(k)
    case Ok(key, k) =>
      var c := SkipWhitespace(s, k);
      if s[c] != COLON then Fail(c)
      else
        match ParseValue(s, SkipWhitespace(s, c + 1), depth)
        case Fail(e) => Fail(e)
        case Ok(v, e) => Ok(Member(key, v), e)
  }

  function ParseMembers(s: bytes, i: nat, depth: nat): (r: Outcome<seq<Member>>)
    requires Terminated(s) && i < |s|
    ensures r.Ok? ==> i < r.next < |s|
    decreases |s| - i, 2
  {
    match ParseMember(s, i, depth)
    case Fail(k) => Fail(k)
    case Ok(member, k) =>
      var m := SkipWhitespace(s, k);
      if s[m] == COMMA then
        match ParseMembers(s, m + 1, depth)
        case Fail(e) => Fail(e)
        case Ok(rest, e) => Ok([member] + rest, e)
      else if s[m] == RBRACE then Ok([member], m + 1)
      else Fail(m)
  }

  /** cJSON_ParseWithOpts; `next` and `at` are where return_parse_end points. */
  function ParseWithOpts(s: bytes, requireNulTerminated: bool): (r: Outcome<Json>)
    requires Terminated(s)
    ensures r.Ok? ==> r.next < |s| && (requireNulTerminated ==> s[r.next] == NUL)
    ensures r.Fail? ==> r.at < |s|
  {
    match ParseValue(s, SkipWhitespace(s, SkipBom(s)), 0)
    case Fail(k) => Fail(if k < |s| then k else |s| - 1)
    case Ok(v, k) =>
      if !requireNulTerminated then Ok(v, k)
      else
        var m := SkipWhitespace(s, k);
        if s[m] != NUL then Fail(m) else Ok(v, m)
  }

  lemma NumberValueStep(s: bytes, i: nat, depth: nat)
    requires Terminated(s) && i < |s| && StartsNumber(s[i])
    ensures ParseValue(s, i, depth) == ParseNumber(s, i)
  {
    hide ParseNumber;
  }

  // ----- The nesting limit -----

  /** What the parser accepts at depth `depth` never nests deeper than the limit. */
  lemma {:induction false} NestingWithinLimit(s: bytes, i: nat, depth: nat)
    requires Terminated(s) && i < |s| && depth <= NESTING_LIMIT
    requires ParseValue(s, i, depth).Ok?
    ensures depth + Nesting(ParseValue(s, i, depth).value) <= NESTING_LIMIT
    decreases |s| - i, 0
  {
    hide ParseItems, ParseMembers, ParseString, Strtod, SkipWhitespace, NestingOfItems, NestingOfMembers;
    NestingOfNone();
    if s[i] == LBRACKET {
      var j := SkipWhitespace(s, i + 1);
      if s[j] != RBRACKET {
        ItemsWithinLimit(s, j, depth + 1);
      }
    } else if s[i] == LBRACE {
      var j := SkipWhitespace(s, i + 1);
      if s[j] != RBRACE {
        MembersWithinLimit(s, j, depth + 1);
      }
    }
  }

  lemma NestingOfNone()
    ensures NestingOfItems([]) == NestingOfMembers([]) == 0
  {
  }

  lemma {:induction false} ItemsWithinLimit(s: bytes, i: nat, depth: nat)
    requires Terminated(s) && i < |s| && depth <= NESTING_LIMIT
    requires ParseItems(s, i, depth).Ok?
    ensures depth + NestingOfItems(ParseItems(s, i, depth).value) <= NESTING_LIMIT
    decreases |s| - i, 1
  {
    var j := SkipWhitespace(s, i);
    NestingWithinLimit(s, j, depth);
    var m := SkipWhitespace(s, ParseValue(s, j, depth).next);
    if s[m] == COMMA {
      ItemsWithinLimit(s, m + 1, depth);
    }
  }

  lemma {:induction false} MembersWithinLimit(s: bytes, i: nat, depth: nat)
    requires Terminated(s) && i < |s| && depth <= NESTING_LIMIT
    requires ParseMembers(s, i, depth).Ok?
    ensures depth + NestingOfMembers(ParseMembers(s, i, depth).value) <= NESTING_LIMIT
    decreases |s| - i, 2
  {
    hide ParseMember, ParseValue, SkipWhitespace, Nesting;
    MembersStep(s, i, depth);
    var m := ParseMember(s, i, depth);
    MemberWithinLimit(s, i, depth);
    if s[SkipWhitespace(s, m.next)] == COMMA {
      MembersWithinLimit(s, SkipWhitespace(s, m.next) + 1, depth);
    }
  }

  lemma {:induction false} MemberWithinLimit(s: bytes, i: nat, depth: nat)
    requires Terminated(s) && i < |s| && depth <= NESTING_LIMIT
    requires ParseMember(s, i, depth).Ok?
    ensures depth + Nesting(ParseMember(s, i, depth).value.value) <= NESTING_LIMIT
    decreases |s| - i, 1
  {
    hide ParseValue, ParseString, SkipWhitespace, Nesting;
    var c := SkipWhitespace(s, ParseString(s, SkipWhitespace(s, i)).next);
    NestingWithinLimit(s, SkipWhitespace(s, c + 1), depth);
  }

  // ----- What one turn of a loop sees -----

  /** One turn of the array loop. */
  lemma ItemsStep(s: bytes, from: nat, depth: nat)
    requires Terminated(s) && from < |s|
    ensures SkipWhitespace(s, from) < |s|
    ensures var r := ParseValue(s, SkipWhitespace(s, from), depth);
            if r.Fail? then ParseItems(s, from, depth) == Fail(r.at)
            else
              var m := SkipWhitespace(s, r.next);
              (s[m] == RBRACKET ==> ParseItems(s, from, depth) == Ok([r.value], m + 1))
              && (s[m] == COMMA ==> (
                m + 1 < |s|
                && var rest := ParseItems(s, m + 1, depth);
                   ParseItems(s, from, depth)
                   == if rest.Ok? then Ok([r.value] + rest.value, rest.next) else Fail(rest.at)))
              && (s[m] != RBRACKET && s[m] != COMMA ==> ParseItems(s, from, depth) == Fail(m))
  {
    hide ParseValue, SkipWhitespace;
  }

  /** One turn of the object loop on a member that ends at `k`. */
  lemma MembersStep(s: bytes, from: nat, depth: nat)
    requires Terminated(s) && from < |s|
    ensures ParseMember(s, from, depth).Fail? ==>
              ParseMembers(s, from, depth) == Fail(ParseMember(s, from, depth).at)
    ensures ParseMember(s, from, depth).Ok? ==>
              var member, k := ParseMember(s, from, depth).value, ParseMember(s, from, depth).next;
              var m := SkipWhitespace(s, k);
              (s[m] == RBRACE ==> ParseMembers(s, from, depth) == Ok([member], m + 1))
              && (s[m] == COMMA ==> (
                m + 1 < |s|
                && var r := ParseMembers(s, m + 1, depth);
                   ParseMembers(s, from, depth)
                   == if r.Ok? then Ok([member] + r.value, r.next) else Fail(r.at)))
              && (s[m] != RBRACE && s[m] != COMMA ==> ParseMembers(s, from, depth) == Fail(m))
  {
    hide ParseMember, SkipWhitespace;
  }

  lemma SkipWhitespaceStops(s: bytes, i: nat)
    requires i < |s| && (s[i] > 32 || i == |s| - 1)
    ensures SkipWhitespace(s, i) == i
  {
    if s[i] <= 32 {
      assert SkipBlanks(s, i + 1) == |s|;
    }
  }

  lemma AfterBlanks(s: bytes, i: nat)
    requires |s| > 0 && i < |s|
    ensures i <= SkipWhitespace(s, i) < |s|
    ensures SkipWhitespace(s, SkipWhitespace(s, i)) == SkipWhitespace(s, i)
  {
    SkipWhitespaceStops(s, SkipWhitespace(s, i));
  }

  /** One turn of parse_object's loop, up to the value. */
  lemma MemberTurn(s: bytes, from: nat, depth: nat)
    requires Terminated(s) && from < |s|
    requires ParseString(s, SkipWhitespace(s, from)).Ok?
    ensures var k := ParseString(s, SkipWhitespace(s, from));
            k.next < |s|
            && var c := SkipWhitespace(s, k.next);
               (s[c] != COLON ==> ParseMember(s, from, depth) == Fail(c))
               && (s[c] == COLON ==> (
                 c + 1 < |s|
                 && var r := ParseValue(s, SkipWhitespace(s, c + 1), depth);
                    ParseMember(s, from, depth)
                    == if r.Ok? then Ok(Member(k.value, r.value), r.next) else Fail(r.at)))
  {
    hide ParseValue, SkipWhitespace;
  }

  /** What a text that is accepted to its terminator holds. */
  lemma AcceptedParts(s: bytes)
    requires Terminated(s) && ParseWithOpts(s, true).Ok?
    ensures var b := SkipBom(s);
            b < |s|
            && var i := SkipWhitespace(s, b);
               b <= i < |s| && ParseValue(s, i, 0).Ok?
               && var k := ParseValue(s, i, 0).next;
                  i < k < |s| && ParseWithOpts(s, true) == Ok(ParseValue(s, i, 0).value, SkipWhitespace(s, k))
                  && s[SkipWhitespace(s, k)] == NUL
  {
    hide ParseValue, SkipWhitespace;
  }
}
