/** What cJSON_Minify does to a text, read off the bytes: outside strings no blank is left, and
    where no comment begins nothing but the blanks outside strings is taken out. */
module MinifyScan {
  import opened Bytes
  import opened Literal
  import opened Minify
  import opened Scanning

  predicate IsBlank(b: byte) {
    b == 0x20 || b == 0x09 || b == 0x0D || b == 0x0A
  }

  /** Read from mode `m`, the text has no blank outside strings. */
  predicate BlankFree(m: Mode, t: bytes)
    decreases |t|
  {
    t == [] || ((m.Outside? ==> !IsBlank(t[0])) && BlankFree(ModeAfter(m, t[0]), t[1..]))
  }

  /** The text without its blanks outside strings. */
  function WithoutBlanks(m: Mode, t: bytes): bytes
    decreases |t|
  {
    if t == [] then []
    else (if m.Outside? && IsBlank(t[0]) then [] else [t[0]]) + WithoutBlanks(ModeAfter(m, t[0]), t[1..])
  }

  /** No comment begins outside strings. */
  predicate CommentFree(m: Mode, t: bytes)
    decreases |t|
  {
    t == []
    || ((m.Outside? && t[0] == '/' as int && |t| > 1 ==> t[1] != '/' as int && t[1] != '*' as int)
        && CommentFree(ModeAfter(m, t[0]), t[1..]))
  }

  lemma {:induction false} BlankFreeBoth(m: Mode, a: bytes, b: bytes)
    requires BlankFree(m, a) && BlankFree(ModeBehind(m, a), b)
    ensures BlankFree(m, a + b)
    decreases |a|
  {
    if a == [] {
      assert a + b == b;
    } else {
      assert (a + b)[1..] == a[1..] + b;
      BlankFreeBoth(ModeAfter(m, a[0]), a[1..], b);
    }
  }

  lemma {:induction false} BlankFreeAt(m: Mode, t: bytes, k: nat)
    requires BlankFree(m, t) && k < |t|
    ensures ModeBehind(m, t[..k]).Outside? ==> !IsBlank(t[k])
    decreases k
  {
    if k > 0 {
      assert t[..k][1..] == t[1..][..k - 1];
      BlankFreeAt(ModeAfter(m, t[0]), t[1..], k - 1);
    }
  }

  /** A string literal from behind its first quote: the mode is outside again behind the last
      quote and nowhere before. */
  lemma {:induction false} LiteralScanned(s: bytes, j: nat, e: nat)
    requires j <= |s| && ScanEnd(s, j) == Some(e)
    ensures j <= e < |s| && BlankFree(Inside, s[j..e + 1]) && ModeBehind(Inside, s[j..e + 1]) == Outside
    decreases |s| - j
  {
    var t := s[j..e + 1];
    assert t[0] == s[j];
    if s[j] == QUOTE {
      assert t == [QUOTE] && t[1..] == [];
    } else if s[j] == BACKSLASH {
      LiteralScanned(s, j + 2, e);
      assert t[1..][1..] == s[j + 2..e + 1];
    } else {
      LiteralScanned(s, j + 1, e);
      assert t[1..] == s[j + 1..e + 1];
    }
  }

  lemma WholeLiteral(s: bytes, i: nat, e: nat)
    requires i < |s| && s[i] == QUOTE && ScanEnd(s, i + 1) == Some(e)
    ensures i < e < |s| && BlankFree(Outside, s[i..e + 1]) && ModeBehind(Outside, s[i..e + 1]) == Outside
  {
    LiteralScanned(s, i + 1, e);
    var t := s[i..e + 1];
    assert t[0] == QUOTE && t[1..] == s[i + 1..e + 1];
  }

  lemma OneByte(m: Mode, b: byte)
    ensures BlankFree(m, [b]) <==> (m.Outside? ==> !IsBlank(b))
    ensures ModeBehind(m, [b]) == ModeAfter(m, b)
  {
    assert [b][1..] == [];
  }

  lemma {:induction false} MinifiedScanned(s: bytes, i: nat)
    requires Terminated(s) && i < |s| && Minifiable(s, i)
    ensures BlankFree(Outside, Minified(s, i))
    decreases |s| - i
  {
    hide BlankFree, ModeBehind, ScanEnd, LineStop, CommentStop;
    MinifyStep(s, i);
    match PieceAt(s, i)
    case End => OneByte(Outside, NUL);
    case Dropped => MinifiedScanned(s, i + 1);
    case LineComment => MinifiedScanned(s, LineStop(s, i + 1));
    case BlockComment => MinifiedScanned(s, CommentStop(s, i).value + 2);
    case StringLiteral =>
      var e := ScanEnd(s, i + 1).value;
      MinifiedScanned(s, e + 1);
      WholeLiteral(s, i, e);
      BlankFreeBoth(Outside, s[i..e + 1], Minified(s, e + 1));
    case Plain =>
      MinifiedScanned(s, i + 1);
      OneByte(Outside, s[i]);
      BlankFreeBoth(Outside, [s[i]], Minified(s, i + 1));
  }

  /** Outside its strings the minified text has no blank, whatever the text was. */
  lemma NoBlankIsLeft(s: bytes, k: nat)
    requires Terminated(s) && Minifiable(s, 0) && k < |Minified(s, 0)|
    ensures OutsideAt(Minified(s, 0), k) ==> Minified(s, 0)[k] !in {0x20, 0x09, 0x0D, 0x0A}
  {
    hide Minified, Minifiable, BlankFree, ModeBehind;
    MinifiedScanned(s, 0);
    BlankFreeAt(Outside, Minified(s, 0), k);
  }

  // Where there are no comments.

  /** Inside a literal nothing is taken out, and comments do not count. */
  lemma {:induction false} LiteralKept(s: bytes, j: nat, e: nat)
    requires j <= |s| && ScanEnd(s, j) == Some(e)
    ensures j <= e < |s|
    ensures WithoutBlanks(Inside, s[j..]) == s[j..e + 1] + WithoutBlanks(Outside, s[e + 1..])
    ensures CommentFree(Inside, s[j..]) ==> CommentFree(Outside, s[e + 1..])
    decreases |s| - j
  {
    hide WithoutBlanks, CommentFree;
    InsideStep(Inside, s, j);
    if s[j] == QUOTE {
      assert s[j..e + 1] == [QUOTE];
    } else if s[j] == BACKSLASH {
      InsideStep(Escaped, s, j + 1);
      LiteralKept(s, j + 2, e);
      assert s[j..e + 1] == [s[j]] + ([s[j + 1]] + s[j + 2..e + 1]);
    } else {
      LiteralKept(s, j + 1, e);
      assert s[j..e + 1] == [s[j]] + s[j + 1..e + 1];
    }
  }

  lemma InsideStep(m: Mode, s: bytes, j: nat)
    requires !m.Outside? && j < |s|
    ensures WithoutBlanks(m, s[j..]) == [s[j]] + WithoutBlanks(ModeAfter(m, s[j]), s[j + 1..])
    ensures CommentFree(m, s[j..]) ==> CommentFree(ModeAfter(m, s[j]), s[j + 1..])
  {
    ScanHere(s, j);
  }

  lemma ScanHere(s: bytes, i: nat)
    requires i < |s|
    ensures s[i..] != [] && s[i..][0] == s[i] && s[i..][1..] == s[i + 1..]
  {
  }

  lemma WithoutBlanksStep(s: bytes, i: nat)
    requires i < |s|
    ensures WithoutBlanks(Outside, s[i..])
         == (if IsBlank(s[i]) then [] else [s[i]]) + WithoutBlanks(ModeAfter(Outside, s[i]), s[i + 1..])
    ensures CommentFree(Outside, s[i..]) ==>
              CommentFree(ModeAfter(Outside, s[i]), s[i + 1..])
              && (s[i] == SLASH && i + 1 < |s| ==> s[i + 1] != SLASH && s[i + 1] != STAR)
  {
    ScanHere(s, i);
  }

  /** A C string in which no comment begins outside strings loses its blanks outside strings
      and no other byte. */
  lemma {:induction false} OnlyBlanksAreTaken(s: bytes, i: nat)
    requires CString(s) && i < |s| && Minifiable(s, i) && CommentFree(Outside, s[i..])
    ensures Minified(s, i) == WithoutBlanks(Outside, s[i..])
    decreases |s| - i
  {
    hide WithoutBlanks, CommentFree, ScanEnd, LineStop, CommentStop, Minifiable, Minified;
    MinifyStep(s, i);
    WithoutBlanksStep(s, i);
    match PieceAt(s, i)
    case End =>
      OnlyNul(s, i);
      NothingWithout(s);
    case Dropped =>
      OnlyBlanksAreTaken(s, i + 1);
      assert [] + WithoutBlanks(Outside, s[i + 1..]) == WithoutBlanks(Outside, s[i + 1..]);
    case LineComment => assert false;
    case BlockComment => assert false;
    case StringLiteral =>
      var e := ScanEnd(s, i + 1).value;
      LiteralKept(s, i + 1, e);
      OnlyBlanksAreTaken(s, e + 1);
      assert s[i..e + 1] == [s[i]] + s[i + 1..e + 1];
    case Plain => OnlyBlanksAreTaken(s, i + 1);
  }

  lemma OnlyNul(s: bytes, i: nat)
    requires CString(s) && i < |s|
    ensures i < |s| - 1 ==> s[i] != NUL
  {
    if i < |s| - 1 {
      assert s[..|s| - 1][i] == s[i];
    }
  }

  lemma NothingWithout(s: bytes)
    ensures WithoutBlanks(Outside, s[|s|..]) == []
  {
  }
}
