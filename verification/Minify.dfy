/** cJSON_Minify: the text it leaves behind, and the loop that makes it in place. */
module Minify {
  import opened Bytes
  import opened Literal

  /** The four bytes that cJSON_Minify drops outside strings. */
  predicate IsDropped(b: byte) {
    b == SPACE || b == TAB || b == CR || b == LF
  }

  /** The first offset from `j` on at which a line ends. */
  function LineStop(s: bytes, j: nat): (e: nat)
    requires Terminated(s) && j < |s|
    ensures j <= e < |s| && (s[e] == NUL || s[e] == LF)
    ensures forall k :: j <= k < e ==> s[k] != NUL && s[k] != LF
    decreases |s| - j
  {
    if s[j] == NUL || s[j] == LF then j else LineStop(s, j + 1)
  }

  /** The offset of the asterisk that ends a comment, scanning from `j`. */
  function CommentStop(s: bytes, j: nat): (e: Option<nat>)
    requires Terminated(s) && j < |s|
    ensures e.Some? ==> j <= e.value && e.value + 2 < |s|
    ensures e.Some? ==> s[e.value] == STAR && s[e.value + 1] == SLASH
    decreases |s| - j
  {
    if s[j] == NUL then None
    else if s[j] == STAR && s[j + 1] == SLASH then Some(j)
    else CommentStop(s, j + 1)
  }

  /** What stands at the reading position. */
  datatype Piece = End | Dropped | LineComment | BlockComment | StringLiteral | Plain

  function PieceAt(s: bytes, i: nat): (p: Piece)
    requires Terminated(s) && i < |s|
    ensures !p.End? ==> i + 1 < |s|
  {
    if s[i] == NUL then End
    else if IsDropped(s[i]) then Dropped
    else if s[i] == SLASH && s[i + 1] == SLASH then LineComment
    else if s[i] == SLASH && s[i + 1] == STAR then BlockComment
    else if s[i] == QUOTE then StringLiteral
    else Plain
  }

  /** Every comment and string from `i` on is closed: the texts cJSON_Minify is for. */
  predicate Minifiable(s: bytes, i: nat)
    requires Terminated(s) && i < |s|
    decreases |s| - i
  {
    match PieceAt(s, i)
    case End => true
    case Dropped => Minifiable(s, i + 1)
    case LineComment => Minifiable(s, LineStop(s, i + 1))
    case BlockComment => CommentStop(s, i).Some? && Minifiable(s, CommentStop(s, i).value + 2)
    case StringLiteral =>
      ScanEnd(s, i + 1).Some? && ScanEnd(s, i + 1).value + 1 < |s|
      && Minifiable(s, ScanEnd(s, i + 1).value + 1)
    case Plain => Minifiable(s, i + 1)
  }

  /** What cJSON_Minify keeps of the text from `i` on, its terminator included. */
  function Minified(s: bytes, i: nat): (r: bytes)
    requires Terminated(s) && i < |s| && Minifiable(s, i)
    ensures Terminated(r) && |r| <= |s| - i
    decreases |s| - i
  {
    match PieceAt(s, i)
    case End => [NUL]
    case Dropped => Minified(s, i + 1)
    case LineComment => Minified(s, LineStop(s, i + 1))
    case BlockComment => Minified(s, CommentStop(s, i).value + 2)
    case StringLiteral =>
      var e := ScanEnd(s, i + 1).value;
      s[i..e + 1] + Minified(s, e + 1)
    case Plain => [s[i]] + Minified(s, i + 1)
  }

  /** The text from `i` to `j` is minified to `kept`, whatever follows. */
  ghost predicate Reduces(s: bytes, i: nat, j: nat, kept: bytes) {
    Terminated(s) && i < |s| && j < |s|
    && (Minifiable(s, j) ==> Minifiable(s, i) && Minified(s, i) == kept + Minified(s, j))
  }

  lemma ReducesInSteps(s: bytes, i: nat, j: nat, k: nat, a: bytes, b: bytes)
    requires Reduces(s, i, j, a) && Reduces(s, j, k, b)
    ensures Reduces(s, i, k, a + b)
  {
    hide Minifiable, Minified;
    if Minifiable(s, k) {
      assert a + (b + Minified(s, k)) == a + b + Minified(s, k);
    }
  }

  lemma ReducesNowhere(s: bytes, i: nat)
    requires Terminated(s) && i < |s|
    ensures Reduces(s, i, i, [])
  {
    hide Minifiable, Minified;
    if Minifiable(s, i) {
      assert [] + Minified(s, i) == Minified(s, i);
    }
  }

  lemma ReducesPlain(s: bytes, i: nat)
    requires Terminated(s) && i < |s| && PieceAt(s, i).Plain?
    ensures Reduces(s, i, i + 1, [s[i]])
  {
  }

  lemma ReducesDropped(s: bytes, i: nat)
    requires Terminated(s) && i < |s| && PieceAt(s, i).Dropped?
    ensures Reduces(s, i, i + 1, [])
  {
    if Minifiable(s, i + 1) {
      assert [] + Minified(s, i + 1) == Minified(s, i + 1);
    }
  }

  lemma ReducesString(s: bytes, i: nat, e: nat)
    requires Terminated(s) && i < |s| && s[i] == QUOTE && i + 1 < |s|
    requires ScanEnd(s, i + 1) == Some(e)
    ensures e + 1 < |s| && Reduces(s, i, e + 1, s[i..e + 1])
  {
    assert PieceAt(s, i).StringLiteral?;
  }

  /** Before `e` there is no end of a comment, and at `e` there is one. */
  predicate EndsComment(s: bytes, j: nat, e: nat) {
    j <= e && e + 2 < |s| && s[e] == STAR && s[e + 1] == SLASH
    && forall k :: j <= k < e ==> s[k] != NUL && !(s[k] == STAR && s[k + 1] == SLASH)
  }

  lemma {:induction false} CommentStopIs(s: bytes, j: nat, e: nat)
    requires Terminated(s) && EndsComment(s, j, e)
    ensures CommentStop(s, j) == Some(e)
    decreases e - j
  {
    if j < e {
      CommentStopIs(s, j + 1, e);
    }
  }

  /** A comment between a slash with an asterisk and the next asterisk with a slash
      vanishes, whatever it holds; that asterisk may be the one that opens it. */
  lemma BlockCommentVanishes(s: bytes, i: nat, e: nat)
    requires Terminated(s) && i + 1 < |s| && s[i] == SLASH && s[i + 1] == STAR
    requires EndsComment(s, i + 1, e)
    ensures Reduces(s, i, e + 2, [])
  {
    hide Minifiable, Minified;
    CommentStopIs(s, i, e);
    assert PieceAt(s, i).BlockComment?;
    BlockCommentStep(s, i, e + 2);
  }

  lemma BlockCommentStep(s: bytes, i: nat, j: nat)
    requires Terminated(s) && i < |s| && PieceAt(s, i).BlockComment?
    requires CommentStop(s, i).Some? && j == CommentStop(s, i).value + 2
    ensures Reduces(s, i, j, [])
  {
    if Minifiable(s, j) {
      assert [] + Minified(s, j) == Minified(s, j);
    }
  }

  lemma {:induction false} LineStopIs(s: bytes, j: nat, e: nat)
    requires Terminated(s) && j <= e < |s| && (s[e] == LF || s[e] == NUL)
    requires forall k :: j <= k < e ==> s[k] != LF && s[k] != NUL
    ensures LineStop(s, j) == e
    decreases e - j
  {
    if j < e {
      LineStopIs(s, j + 1, e);
    }
  }

  /** A comment behind two slashes vanishes up to the end of its line. */
  lemma LineCommentVanishes(s: bytes, i: nat, e: nat)
    requires Terminated(s) && i + 1 < e < |s| && s[i] == s[i + 1] == SLASH
    requires (s[e] == LF || s[e] == NUL) && forall k :: i + 1 < k < e ==> s[k] != LF && s[k] != NUL
    ensures Reduces(s, i, e, [])
  {
    LineStopIs(s, i + 1, e);
    if Minifiable(s, e) {
      assert [] + Minified(s, e) == Minified(s, e);
    }
  }

  /** From `from` on the array still holds the text `s`. */
  ghost predicate Holds(json: array<byte>, s: bytes, from: nat)
    reads json
  {
    |s| <= json.Length && forall k :: from <= k < |s| ==> json[k] == s[k]
  }

  /** Past a comment that runs to the end of its line. */
  method SkipLineComment(json: array<byte>, start: nat, ghost s: bytes) returns (r: nat)
    requires CString(s) && start < |s| && PieceAt(s, start).LineComment? && Holds(json, s, start)
    ensures r == LineStop(s, start + 1)
  {
    r := start + 1;
    while json[r] != NUL && json[r] != LF
      invariant start < r < |s| && LineStop(s, r) == LineStop(s, start + 1)
      decreases |s| - r
    {
      r := r + 1;
    }
  }

  /** Past a comment that runs to the next asterisk and slash. */
  method SkipBlockComment(json: array<byte>, start: nat, ghost s: bytes) returns (r: nat)
    requires CString(s) && start < |s| && PieceAt(s, start).BlockComment? && Holds(json, s, start)
    requires CommentStop(s, start).Some?
    ensures r == CommentStop(s, start).value + 2
  {
    r := start;
    while json[r] != NUL && !(json[r] == STAR && json[r + 1] == SLASH)
      invariant start <= r < |s| && CommentStop(s, r) == CommentStop(s, start)
      decreases |s| - r
    {
      r := r + 1;
    }
    r := r + 2;
  }

  /** Moves one byte from the reading to the writing position. */
  method CopyByte(json: array<byte>, r: nat, w: nat)
    requires w <= r < json.Length
    modifies json
    ensures json[w] == old(json[r])
    ensures forall k :: 0 <= k < json.Length && k != w ==> json[k] == old(json[k])
    ensures json[..w + 1] == old(json[..w]) + [old(json[r])]
  {
    json[w] := json[r];
  }

  /** The bytes before `w` are `before` and then the text from `start` to `r`. */
  ghost predicate Copied(json: array<byte>, before: bytes, s: bytes, start: nat, r: nat, w: nat)
    reads json
  {
    start <= r <= |s| && w <= json.Length && json[..w] == before + s[start..r]
  }

  /** Moves one more byte of a string literal. */
  method CopyOn(
    json: array<byte>, ghost before: bytes, ghost s: bytes, ghost start: nat, r: nat, w: nat)
    requires w <= r < |s| && Holds(json, s, r) && Copied(json, before, s, start, r, w)
    modifies json
    ensures Copied(json, before, s, start, r + 1, w + 1)
    ensures forall k :: w < k < json.Length ==> json[k] == old(json[k])
  {
    CopyByte(json, r, w);
    assert s[start..r + 1] == s[start..r] + [s[r]];
  }

  /** Moves a byte inside a string literal, and with a backslash the byte after it. */
  method CopyUnit(
    json: array<byte>, ghost before: bytes, ghost s: bytes, ghost start: nat, r: nat, w: nat)
    returns (r': nat, w': nat)
    requires CString(s) && w <= r < |s| && Holds(json, s, r) && Copied(json, before, s, start, r, w)
    requires ScanEnd(s, r).Some? && s[r] != QUOTE
    modifies json
    ensures r < r' < |s| && r' - w' == r - w && ScanEnd(s, r') == ScanEnd(s, r)
    ensures Copied(json, before, s, start, r', w')
    ensures forall k :: w' <= k < json.Length ==> json[k] == old(json[k])
  {
    hide ScanEnd, CString, Copied;
    ScanStep(s, r);
    r', w' := r, w;
    if json[r'] == BACKSLASH {
      CopyOn(json, before, s, start, r', w');
      r', w' := r' + 1, w' + 1;
    }
    CopyOn(json, before, s, start, r', w');
    r', w' := r' + 1, w' + 1;
  }

  /** Copies a string literal from `start` to `to`, both quotes included. */
  method CopyString(json: array<byte>, start: nat, to: nat, ghost s: bytes) returns (r: nat, w: nat)
    requires CString(s) && to <= start && start + 1 < |s| && s[start] == QUOTE
    requires Holds(json, s, start) && ScanEnd(s, start + 1).Some?
    modifies json
    ensures r == ScanEnd(s, start + 1).value + 1 && r - start == w - to
    ensures to < w <= r <= |s|
    ensures forall k :: w <= k < json.Length ==> json[k] == old(json[k])
    ensures json[..w] == old(json[..to]) + s[start..r]
  {
    hide ScanEnd, CString;
    ghost var before := json[..to];
    CopyOn(json, before, s, start, start, to);
    r, w := start + 1, to + 1;
    while json[r] != NUL && json[r] != QUOTE
      invariant start < r < |s| && r - start == w - to
      invariant ScanEnd(s, r) == ScanEnd(s, start + 1)
      invariant forall k :: w <= k < json.Length ==> json[k] == old(json[k])
      invariant Copied(json, before, s, start, r, w)
      decreases |s| - r
    {
      r, w := CopyUnit(json, before, s, start, r, w);
    }
    ScanStep(s, r);
    CopyOn(json, before, s, start, r, w);
    r, w := r + 1, w + 1;
  }

  lemma ScanStep(s: bytes, r: nat)
    requires CString(s) && r < |s| && ScanEnd(s, r).Some?
    ensures s[r] != NUL
    ensures s[r] == QUOTE ==> ScanEnd(s, r) == Some(r)
    ensures s[r] == BACKSLASH ==> r + 2 < |s| && ScanEnd(s, r) == ScanEnd(s, r + 2)
    ensures s[r] != QUOTE && s[r] != BACKSLASH ==> r + 1 < |s| && ScanEnd(s, r) == ScanEnd(s, r + 1)
  {
    assert ScanEnd(s, |s|) == None;
    assert forall k :: 0 <= k < |s| - 1 ==> s[k] == s[..|s| - 1][k];
  }

  /** One turn of the loop, piece by piece. */
  lemma MinifyStep(s: bytes, i: nat)
    requires Terminated(s) && i < |s| && Minifiable(s, i)
    ensures match PieceAt(s, i)
            case End => Minified(s, i) == [NUL]
            case Dropped => Minifiable(s, i + 1) && Minified(s, i) == Minified(s, i + 1)
            case LineComment =>
              Minifiable(s, LineStop(s, i + 1)) && Minified(s, i) == Minified(s, LineStop(s, i + 1))
            case BlockComment =>
              CommentStop(s, i).Some?
              && var e := CommentStop(s, i).value + 2;
                 Minifiable(s, e) && Minified(s, i) == Minified(s, e)
            case StringLiteral =>
              ScanEnd(s, i + 1).Some?
              && var e := ScanEnd(s, i + 1).value + 1;
                 e < |s| && Minifiable(s, e) && Minified(s, i) == s[i..e] + Minified(s, e)
            case Plain => Minifiable(s, i + 1) && Minified(s, i) == [s[i]] + Minified(s, i + 1)
  {
  }

  lemma Regrouped(a: bytes, b: bytes, c: bytes)
    ensures a + (b + c) == a + b + c
  {
  }

  /** One turn of cJSON_Minify's loop: what is at `r` is dropped or moved to `w`. */
  method MinifyTurn(json: array<byte>, r: nat, w: nat, ghost s: bytes) returns (r': nat, w': nat)
    requires CString(s) && w <= r < |s| && Holds(json, s, r) && Minifiable(s, r) && s[r] != NUL
    modifies json
    ensures w <= w' <= r' && r < r' < |s| && Minifiable(s, r')
    ensures json[..w'] + Minified(s, r') == old(json[..w]) + Minified(s, r)
    ensures forall k :: w' <= k < json.Length ==> json[k] == old(json[k])
  {
    hide Minifiable, Minified, ScanEnd, LineStop, CommentStop;
    MinifyStep(s, r);
    r', w' := r, w;
    if json[r] == SPACE || json[r] == TAB || json[r] == CR || json[r] == LF {
      r' := r + 1;
    } else if json[r] == SLASH && json[r + 1] == SLASH {
      r' := SkipLineComment(json, r, s);
    } else if json[r] == SLASH && json[r + 1] == STAR {
      r' := SkipBlockComment(json, r, s);
    } else if json[r] == QUOTE {
      r', w' := CopyString(json, r, w, s);
      Regrouped(old(json[..w]), s[r..r'], Minified(s, r'));
    } else {
      CopyByte(json, r, w);
      r', w' := r + 1, w + 1;
      Regrouped(old(json[..w]), [s[r]], Minified(s, r'));
    }
  }

  /** cJSON_Minify on the C string `s`, held by the first bytes of `json`. The bytes
      behind what is kept stay as they were, so no byte is written behind the one read. */
  method MinifyInPlace(json: array<byte>, ghost s: bytes)
    requires CString(s) && |s| <= json.Length && json[..|s|] == s && Minifiable(s, 0)
    modifies json
    ensures json[..|Minified(s, 0)|] == Minified(s, 0)
    ensures json[|Minified(s, 0)|..] == old(json[|Minified(s, 0)|..])
  {
    hide Minifiable, Minified;
    var r, w := 0, 0;
    while json[r] != NUL
      invariant 0 <= w <= r < |s| && Minifiable(s, r)
      invariant json[..w] + Minified(s, r) == Minified(s, 0)
      invariant forall k :: w <= k < json.Length ==> json[k] == old(json[k])
      invariant Holds(json, s, r)
      decreases |s| - r
    {
      r, w := MinifyTurn(json, r, w, s);
    }
    MinifyStep(s, r);
    json[w] := NUL;
  }
}
