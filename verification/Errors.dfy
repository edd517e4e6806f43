/** Where the parser gives up: a machine with a stack of open brackets, which looks at the text
    from left to right and builds nothing, ends where the recursive parser ends and gets stuck
    where that one reports an error. */
module Errors {
  import opened Bytes
  import opened JsonTree
  import opened Numerals
  import opened Literal
  import opened Parsing
  import opened Grammar
  import opened Acceptance
  import opened Dialect

  /** What the machine waits for: a value; in an array just opened, a value or the closing
      bracket; in an object just opened, a key or the closing brace; a key; the colon behind a
      key; and behind a value, what the innermost bracket allows. */
  datatype Expect = Value | FirstItem | FirstKey | Key | Colon | Behind

  datatype Fate = Done(end: nat) | Stuck(at: nat)

  function Rank(e: Expect): nat {
    match e
    case FirstItem => 1
    case FirstKey => 1
    case _ => 0
  }

  /** The run from offset `i` on; `open` holds the brackets that are open, innermost last. */
  function Run(s: bytes, i: nat, e: Expect, open: seq<byte>): Fate
    requires Terminated(s) && i < |s|
    decreases |s| - i, Rank(e)
  {
    if e.Behind? && open == [] then Done(i)
    else
      var j := SkipWhitespace(s, i);
      match e
      case Value => AtValue(s, i, open)
      case FirstItem => if s[j] == ']' as int then Closed(s, i, open) else Run(s, i, Value, open)
      case FirstKey => if s[j] == '}' as int then Closed(s, i, open) else Run(s, i, Key, open)
      case Key =>
        var k := ParseString(s, j);
        if k.Fail? then Stuck(k.at)
        else
          StringEndsInside(s, j);
          Run(s, k.next, Colon, open)
      case Colon => if s[j] == ':' as int then Run(s, j + 1, Value, open) else Stuck(j)
      case Behind =>
        var inArray := open[|open| - 1] == '[' as int;
        if s[j] == ',' as int then Run(s, j + 1, if inArray then Value else Key, open)
        else if s[j] == (if inArray then ']' as int else '}' as int) then Closed(s, i, open)
        else Stuck(j)
  }

  /** The innermost bracket is closed. */
  function Closed(s: bytes, i: nat, open: seq<byte>): Fate
    requires Terminated(s) && i < |s| && s[SkipWhitespace(s, i)] != NUL
    decreases |s| - i, 0, 0
  {
    Run(s, SkipWhitespace(s, i) + 1, Behind, if open == [] then [] else open[..|open| - 1])
  }

  /** A value: a word, a string, a number, or a bracket, of which at most 1000 may be open. */
  function AtValue(s: bytes, i: nat, open: seq<byte>): Fate
    requires Terminated(s) && i < |s|
    decreases |s| - i, 0, 0
  {
    var j := SkipWhitespace(s, i);
    Inside(s, j);
    if At(s, j, NULL_TEXT) || At(s, j, TRUE_TEXT) then Run(s, j + 4, Behind, open)
    else if At(s, j, FALSE_TEXT) then Run(s, j + 5, Behind, open)
    else if s[j] == '"' as int then
      var k := ParseString(s, j);
      if k.Fail? then Stuck(k.at)
      else
        StringEndsInside(s, j);
        Run(s, k.next, Behind, open)
    else if s[j] == '-' as int || '0' as int <= s[j] <= '9' as int then
      var k := ParseNumber(s, j);
      if k.Fail? then Stuck(j) else Run(s, k.next, Behind, open)
    else if (s[j] == '[' as int || s[j] == '{' as int) && |open| < 1000 then
      Run(s, j + 1, if s[j] == '[' as int then FirstItem else FirstKey, open + [s[j]])
    else Stuck(j)
  }

  /** A word ends before the terminator. */
  lemma Inside(s: bytes, j: nat)
    requires Terminated(s) && j < |s|
    ensures At(s, j, NULL_TEXT) || At(s, j, TRUE_TEXT) ==> j + 4 < |s|
    ensures At(s, j, FALSE_TEXT) ==> j + 5 < |s|
  {
    if At(s, j, NULL_TEXT) {
      AtByte(s, j, NULL_TEXT, 3);
    }
    if At(s, j, TRUE_TEXT) {
      AtByte(s, j, TRUE_TEXT, 3);
    }
    if At(s, j, FALSE_TEXT) {
      AtByte(s, j, FALSE_TEXT, 4);
    }
  }

  // The recursive parser, part by part.

  lemma Words(s: bytes, i: nat)
    requires i < |s|
    ensures IsNullText(s, i) <==> At(s, i, NULL_TEXT)
    ensures IsFalseText(s, i) <==> At(s, i, FALSE_TEXT)
    ensures IsTrueText(s, i) <==> At(s, i, TRUE_TEXT)
    ensures !(IsFalseText(s, i) && IsTrueText(s, i))
  {
    Word(s, i, NULL_TEXT);
    Word(s, i, FALSE_TEXT);
    Word(s, i, TRUE_TEXT);
  }

  lemma Word(s: bytes, i: nat, t: bytes)
    ensures At(s, i, t) <==> i + |t| <= |s| && forall k :: 0 <= k < |t| ==> s[i + k] == t[k]
  {
    if i + |t| <= |s| {
      AtSlice(s, i, t);
      var u := s[i..i + |t|];
      assert forall k :: 0 <= k < |t| ==> u[k] == s[i + k];
      assert u == t <==> forall k :: 0 <= k < |t| ==> u[k] == t[k];
    }
  }

  lemma {:induction false} ValueRuns(s: bytes, i: nat, open: seq<byte>)
    requires Terminated(s) && i < |s| && SkipWhitespace(s, i) == i
    ensures var r := ParseValue(s, i, |open|);
            Run(s, i, Value, open) == if r.Ok? then Run(s, r.next, Behind, open) else Stuck(r.at)
    decreases |s| - i, 0
  {
    hide At, ParseArray, ParseObject, ParseString, ParseNumber, Run, IsNullText, IsFalseText, IsTrueText, SkipWhitespace;
    StartOfValue(s, i, open);
    Words(s, i);
    NumberFails(s, i);
    var inner := open + [s[i]];
    assert inner[..|open|] == open;
    if s[i] == '[' as int && |open| < 1000 && i + 1 < |s| {
      ArrayRuns(s, i + 1, inner);
    } else if s[i] == '{' as int && |open| < 1000 && i + 1 < |s| {
      ObjectRuns(s, i + 1, inner);
    }
  }

  lemma NumberFails(s: bytes, i: nat)
    requires Terminated(s) && i < |s|
    ensures ParseNumber(s, i).Fail? ==> ParseNumber(s, i).at == i
  {
  }

  lemma StartOfValue(s: bytes, i: nat, open: seq<byte>)
    requires Terminated(s) && i < |s|
    ensures Run(s, i, Value, open) == AtValue(s, i, open)
  {
    hide AtValue;
  }

  lemma {:induction false} ArrayRuns(s: bytes, i: nat, open: seq<byte>)
    requires Terminated(s) && i < |s| && open != [] && open[|open| - 1] == '[' as int
    ensures var r := ParseArray(s, i, |open|);
            Run(s, i, FirstItem, open)
            == if r.Ok? then Run(s, r.next, Behind, open[..|open| - 1]) else Stuck(r.at)
    decreases |s| - i, 3
  {
    hide AtValue, ParseItems, SkipWhitespace;
    AfterBlanks(s, i);
    var j := SkipWhitespace(s, i);
    SameStart(s, i, open);
    if s[j] != RBRACKET {
      ItemsRun(s, j, open);
    }
  }

  /** Blanks in front of a value or a key do not matter. */
  lemma SameStart(s: bytes, i: nat, open: seq<byte>)
    requires Terminated(s) && i < |s|
    ensures Run(s, i, Value, open) == Run(s, SkipWhitespace(s, i), Value, open)
    ensures Run(s, i, Key, open) == Run(s, SkipWhitespace(s, i), Key, open)
  {
    hide SkipWhitespace;
    AfterBlanks(s, i);
  }

  /** What is behind a value, with a bracket open. */
  lemma BehindStep(s: bytes, k: nat, open: seq<byte>)
    requires Terminated(s) && k < |s| && open != []
    ensures var m := SkipWhitespace(s, k);
            var inArray := open[|open| - 1] == '[' as int;
            var close := if inArray then ']' as int else '}' as int;
            m < |s|
            && (s[m] == ',' as int ==> m + 1 < |s| && Run(s, k, Behind, open) == Run(s, m + 1, if inArray then Value else Key, open))
            && (s[m] == close ==> m + 1 < |s| && Run(s, k, Behind, open) == Run(s, m + 1, Behind, open[..|open| - 1]))
            && (s[m] != ',' as int && s[m] != close ==> Run(s, k, Behind, open) == Stuck(m))
  {
    hide SkipWhitespace, AtValue;
  }

  lemma {:induction false} ItemsRun(s: bytes, from: nat, open: seq<byte>)
    requires Terminated(s) && from < |s| && open != [] && open[|open| - 1] == '[' as int
    ensures var r := ParseItems(s, from, |open|);
            Run(s, from, Value, open)
            == if r.Ok? then Run(s, r.next, Behind, open[..|open| - 1]) else Stuck(r.at)
    decreases |s| - from, 1
  {
    hide *;
    AfterBlanks(s, from);
    SameStart(s, from, open);
    var j := SkipWhitespace(s, from);
    ValueRuns(s, j, open);
    ItemsStep(s, from, |open|);
    var r := ParseValue(s, j, |open|);
    if r.Ok? {
      BehindStep(s, r.next, open);
      var m := SkipWhitespace(s, r.next);
      Brackets();
      if s[m] == COMMA {
        ItemsRun(s, m + 1, open);
      }
    }
  }

  lemma Brackets()
    ensures COMMA == ',' as int && RBRACKET == ']' as int && RBRACE == '}' as int && COLON == ':' as int
  {
  }

  lemma {:induction false} ObjectRuns(s: bytes, i: nat, open: seq<byte>)
    requires Terminated(s) && i < |s| && open != [] && open[|open| - 1] == '{' as int
    ensures var r := ParseObject(s, i, |open|);
            Run(s, i, FirstKey, open)
            == if r.Ok? then Run(s, r.next, Behind, open[..|open| - 1]) else Stuck(r.at)
    decreases |s| - i, 3
  {
    hide AtValue, ParseMembers, SkipWhitespace, ParseString;
    AfterBlanks(s, i);
    var j := SkipWhitespace(s, i);
    SameStart(s, i, open);
    if s[j] != RBRACE {
      MembersRun(s, j, open);
    }
  }

  lemma {:induction false} MemberRuns(s: bytes, from: nat, open: seq<byte>)
    requires Terminated(s) && from < |s| && open != [] && open[|open| - 1] == '{' as int
    ensures var r := ParseMember(s, from, |open|);
            Run(s, from, Key, open) == if r.Ok? then Run(s, r.next, Behind, open) else Stuck(r.at)
    decreases |s| - from, 1
  {
    hide AtValue, ParseValue, SkipWhitespace, ParseString;
    AfterBlanks(s, from);
    var q := SkipWhitespace(s, from);
    StringEndsInside(s, q);
    var k := ParseString(s, q);
    if k.Ok? {
      var c := SkipWhitespace(s, k.next);
      AfterBlanks(s, k.next);
      if s[c] == COLON {
        AfterBlanks(s, c + 1);
        SameStart(s, c + 1, open);
        ValueRuns(s, SkipWhitespace(s, c + 1), open);
      }
    }
  }

  lemma {:induction false} MembersRun(s: bytes, from: nat, open: seq<byte>)
    requires Terminated(s) && from < |s| && open != [] && open[|open| - 1] == '{' as int
    ensures var r := ParseMembers(s, from, |open|);
            Run(s, from, Key, open)
            == if r.Ok? then Run(s, r.next, Behind, open[..|open| - 1]) else Stuck(r.at)
    decreases |s| - from, 2
  {
    hide *;
    MembersStep(s, from, |open|);
    MemberRuns(s, from, open);
    var r := ParseMember(s, from, |open|);
    if r.Ok? {
      BehindStep(s, r.next, open);
      var m := SkipWhitespace(s, r.next);
      Brackets();
      if s[m] == COMMA {
        MembersRun(s, m + 1, open);
      }
    }
  }

  /** cJSON_ParseWithOpts ends where the machine is done, and the error it reports is where the
      machine is stuck, or the last byte if that is behind the text. With the demand for a
      terminator, the first byte behind the value that is no blank is the error. */
  lemma ErrorIsWhereStuck(s: bytes, requireNulTerminated: bool)
    requires Terminated(s)
    ensures var r, fate := ParseWithOpts(s, requireNulTerminated), Run(s, StartOfText(s), Value, []);
            if fate.Stuck? then r == Fail(if fate.at < |s| then fate.at else |s| - 1)
            else
              fate.end < |s|
              && var m := SkipWhitespace(s, fate.end);
                 if !requireNulTerminated then r.Ok? && r.next == fate.end
                 else if s[m] == NUL then r.Ok? && r.next == m
                 else r == Fail(m)
  {
    hide ParseValue, SkipWhitespace, AtValue;
    var start := StartOfText(s);
    AfterBlanks(s, start);
    SameStart(s, start, []);
    ValueRuns(s, SkipWhitespace(s, start), []);
  }

  /** Behind the byte order mark, if there is one and two bytes more. */
  function StartOfText(s: bytes): (start: nat)
    requires Terminated(s)
    ensures start < |s| && start == SkipBom(s)
  {
    BomBytes(s);
    if |s| > 4 && s[0] == 0xEF && s[1] == 0xBB && s[2] == 0xBF then 3 else 0
  }

  lemma BomBytes(s: bytes)
    ensures |s| > 4 ==> (At(s, 0, BOM) <==> s[0] == 0xEF && s[1] == 0xBB && s[2] == 0xBF)
  {
    Word(s, 0, BOM);
    assert |s| > 4 ==> forall k :: 0 <= k < 3 ==> s[0 + k] == s[k];
  }

  // Inside a string.

  /** No piece of a string, under the lenient rules, stands at `q`. */
  ghost predicate NoPieceAt(lit: bytes, q: nat)
    requires q <= |lit|
  {
    forall p :: GoodPiece(Lenient, p) && !p.LoneBackslash? ==> !(PieceText(p) <= lit[q..])
  }

  lemma {:induction false} MalformedAt(lit: bytes, q: nat) returns (ps: seq<Piece>)
    requires q <= |lit| && Decode(lit, q).Malformed?
    ensures var at := Decode(lit, q).at;
            q <= at < |lit| && GoodPieces(Lenient, ps) && PiecesText(ps) == lit[q..at] && Decode(lit, at) == Malformed(at)
    decreases |lit| - q
  {
    hide GoodPiece, PieceText, PieceMeaning, Decode;
    var at := Decode(lit, q).at;
    if at == q {
      assert lit[q..at] == [];
      return [];
    }
    var p := OnePiece(lit, q);
    var n := |PieceText(p)|;
    AtEnd(lit);
    var rest := MalformedAt(lit, q + n);
    ps := [p] + rest;
    assert ps[1..] == rest;
    Glue(lit, q, q + n, at);
  }

  lemma AtEnd(lit: bytes)
    ensures Decode(lit, |lit|) == Decoded([])
  {
  }

  lemma NothingFits(lit: bytes, q: nat)
    requires q <= |lit| && Decode(lit, q) == Malformed(q)
    ensures NoPieceAt(lit, q)
  {
    hide GoodPiece, PieceText, PieceMeaning, Decode;
    forall p | GoodPiece(Lenient, p) && !p.LoneBackslash? && PieceText(p) <= lit[q..]
      ensures false
    {
      assert lit[q..] == PieceText(p) + lit[q..][|PieceText(p)|..];
      PieceDecodes(p, lit, q, lit[q..][|PieceText(p)|..]);
      PieceNotEmpty(p);
    }
  }

  /** The error in a string: right behind the byte where a quote is missing or the quote that
      nothing closes; else at the first place, counted in whole pieces, where none stands. */
  lemma ErrorInString(s: bytes, i: nat) returns (ps: seq<Piece>)
    requires i < |s| && ParseString(s, i).Fail?
    ensures var k := ParseString(s, i).at;
            if s[i] != '"' as int || ScanEnd(s, i + 1).None? then k == i + 1
            else
              var e := ScanEnd(s, i + 1).value;
              i < k < e && s[k] == BACKSLASH && GoodPieces(Lenient, ps)
              && PiecesText(ps) == s[i + 1..k] && NoPieceAt(s[i + 1..e], k - i - 1)
  {
    hide Decode, PiecesText, NoPieceAt, GoodPieces;
    ps := [];
    if s[i] == QUOTE && ScanEnd(s, i + 1).Some? {
      var e := ScanEnd(s, i + 1).value;
      var lit := s[i + 1..e];
      ps := MalformedAt(lit, 0);
      var q := Decode(lit, 0).at;
      NothingFits(lit, q);
      StuckAtBackslash(lit, q);
      assert lit[0..q] == s[i + 1..i + 1 + q];
    }
  }

  lemma StuckAtBackslash(lit: bytes, q: nat)
    requires q < |lit| && Decode(lit, q) == Malformed(q)
    ensures lit[q] == BACKSLASH
  {
  }
}
