/** The printer: a buffer that grows or does not, and the methods that print into it. */
module Printer {
  import opened Bytes
  import opened JsonTree
  import opened Numerals
  import opened Rendering
  import opened Room

  class PrintBuffer {
    var buffer: array?<byte>
    var length: nat
    var offset: nat
    var depth: nat
    const noalloc: bool
    const format: bool

    // The allocation hooks: whether there is a realloc, and how many requests they grant.
    const hasRealloc: bool
    var grants: nat
    /** A request for memory has been turned down. */
    ghost var refused: bool
    /** How many requests were granted at first, and the sizes that were asked for. */
    ghost const given: nat
    ghost var asks: seq<nat>

    // What a caller's own buffer looked like: no print may change it behind `capacity`.
    ghost const home: array?<byte>
    ghost const capacity: nat
    ghost const behind: bytes

    /** How much text the buffer can come to hold, terminator and spare byte included. */
    ghost function Limit(): int {
      if noalloc then capacity else INT_MAX
    }

    /** A buffer that grows has been enlarged as often as the sizes asked for take, one
        request each; a refused request was the last one. */
    ghost predicate Counted()
      reads this`length, this`refused, this`grants, this`asks
    {
      if noalloc then !refused
      else if refused then grants == 0 && given < Enlargements(asks)
      else grants + Enlargements(asks) == given && length == LengthAfter(asks)
    }

    ghost predicate Sound()
      reads this`buffer, this`length, this`offset, this`refused, this`grants, this`asks, buffer
    {
      buffer != null && length <= buffer.Length && length <= INT_MAX && offset <= length
      && (noalloc ==> buffer == home && length == capacity && buffer[length..] == behind)
      && Counted() && !refused
    }

    /** The buffer holds `text` up to the offset and can take more. */
    ghost predicate Holds(text: bytes)
      reads this`buffer, this`length, this`offset, this`refused, this`grants, this`asks, buffer
    {
      Sound() && offset == |text| && buffer[..offset] == text && (offset < length || length == 0)
    }

    /** The buffer holds `text` and a NUL behind it; the offset is on the way to its end. */
    ghost predicate Wrote(text: bytes, from: nat)
      reads this`buffer, this`length, this`offset, this`refused, this`grants, this`asks, buffer
    {
      Sound() && from <= offset <= |text| && |text| + 2 <= length
      && buffer[..|text|] == text && buffer[|text|] == NUL
    }

    constructor Growing(format: bool, hasRealloc: bool, grants: nat)
      ensures Holds([]) && !noalloc && fresh(buffer)
      ensures this.format == format && depth == 0 && !refused && given == grants && asks == []
    {
      this.buffer := new byte[DEFAULT_BUFFER_SIZE];
      this.length, this.offset, this.depth := DEFAULT_BUFFER_SIZE, 0, 0;
      this.noalloc, this.format, this.hasRealloc := false, format, hasRealloc;
      this.grants, this.refused, this.given, this.asks := grants, false, grants, [];
      this.home, this.capacity, this.behind := null, 0, [];
    }

    constructor Fixed(buf: array<byte>, len: nat, format: bool)
      requires len <= buf.Length && len <= INT_MAX
      ensures Holds([]) && noalloc && buffer == home == buf && length == capacity == len
      ensures behind == buf[len..]
      ensures this.format == format && depth == 0
    {
      this.buffer, this.length, this.offset, this.depth := buf, len, 0, 0;
      this.noalloc, this.format, this.hasRealloc := true, format, false;
      this.grants, this.refused, this.given, this.asks := 0, false, 0, [];
      this.home, this.capacity, this.behind := buf, len, buf[len..];
    }

    /** ensure: room for `needed` more bytes and one to spare, with the text kept. */
    method Ensure(needed: nat, ghost text: bytes) returns (ok: bool)
      requires Sound() && offset == |text| && buffer[..offset] == text && needed <= SIZE_MAX
      modifies this`buffer, this`length, this`grants, this`refused, this`asks
      ensures buffer == null || buffer == old(buffer) || fresh(buffer)
      ensures noalloc ==> Sound()
      ensures Counted() && Asked(old(asks), [offset + needed + 1], asks, ok)
      ensures ok ==> Holds(text) && offset + needed + 1 <= length
      ensures old(offset < length || length == 0) ==>
                (ok <==> offset + needed + 1 <= Limit() && !refused)
      ensures noalloc ==> buffer == old(buffer) && !refused
    {
      hide Asked, Enlargements, LengthAfter;
      AskingOnce(asks, needed + offset + 1);
      if length > 0 && offset >= length {
        return false;
      }
      if needed > INT_MAX {
        return false;
      }
      var total := needed + offset + 1;
      assert total <= SIZE_MAX;
      if total <= length {
        asks := asks + [total];
        return true;
      }
      if noalloc {
        return false;
      }
      var newsize;
      if total > INT_MAX / 2 {
        if total <= INT_MAX {
          newsize := INT_MAX;
        } else {
          return false;
        }
      } else {
        newsize := total * 2;
      }
      LengthBounds(asks);
      ok := Grow(total, newsize, text);
    }

    /** The rest of ensure: a larger buffer, if there is memory. */
    method Grow(total: nat, newsize: nat, ghost text: bytes) returns (ok: bool)
      requires !noalloc && Sound() && offset == |text| && buffer[..offset] == text
      requires offset < length < total <= newsize <= INT_MAX && newsize == Enlarged(length, total)
      modifies this`buffer, this`length, this`grants, this`refused, this`asks
      ensures buffer == null || fresh(buffer)
      ensures Counted() && asks == old(asks) + [total] && (ok <==> !refused)
      ensures ok ==> Holds(text) && length == newsize
    {
      hide Enlargements, LengthAfter;
      OneMoreAsk(asks, total);
      asks := asks + [total];
      if grants == 0 {
        buffer, length, refused := null, 0, true;
        return false;
      }
      grants := grants - 1;
      var count := if hasRealloc then length else offset + 1;
      assert buffer[..count][..offset] == text;
      Move(newsize, count);
      assert buffer[..offset] == buffer[..count][..offset];
      return true;
    }

    /** A new buffer of `newsize` bytes with the first `count` bytes of the old one. */
    method Move(newsize: nat, count: nat)
      requires buffer != null && count <= buffer.Length && count <= newsize
      modifies this`buffer, this`length
      ensures fresh(buffer) && buffer.Length == length == newsize
      ensures buffer[..count] == old(buffer[..count])
    {
      var newbuffer := new byte[newsize];
      forall i | 0 <= i < count {
        newbuffer[i] := buffer[i];
      }
      buffer, length := newbuffer, newsize;
    }

    /** Writes `t` at `at`, as memcpy and strcpy do. */
    method Store(at: nat, t: bytes)
      requires Sound() && at + |t| <= length
      modifies buffer
      ensures Sound()
      ensures buffer[..at] == old(buffer[..at]) && buffer[at..at + |t|] == t
      ensures forall k :: at + |t| <= k < buffer.Length ==> buffer[k] == old(buffer[k])
    {
      forall i | 0 <= i < |t| {
        buffer[at + i] := t[i];
      }
    }

    /** Writes `t` behind the text, which reaches to `at`. */
    method Append(at: nat, t: bytes, ghost text: bytes)
      requires Sound() && at == |text| && at + |t| <= length && buffer[..at] == text
      modifies buffer
      ensures Sound() && buffer[..at + |t|] == text + t
    {
      Store(at, t);
    }

    /** update_offset: to the terminator of what was printed from the offset on. */
    method UpdateOffset(ghost text: bytes, ghost from: nat)
      requires Wrote(text, from) && from <= |text| && NulFree(text[from..])
      modifies this`offset
      ensures Holds(text) && offset < length && buffer[offset] == NUL
    {
      assert forall k :: 0 <= k < |text| ==> buffer[k] == buffer[..|text|][k];
      assert forall k :: from <= k < |text| ==> text[from..][k - from] == text[k];
      var n := 0;
      while buffer[offset + n] != NUL
        invariant offset + n <= |text|
        decreases |text| - n
      {
        n := n + 1;
      }
      offset := offset + n;
    }

    /** The literal words of print_value. */
    method PrintWord(word: bytes, ghost text: bytes) returns (ok: bool)
      requires Holds(text) && |word| < 16
      modifies this, buffer
      ensures buffer == null || buffer == old(buffer) || fresh(buffer)
      ensures noalloc ==> Sound()
      ensures Counted() && Asked(old(asks), [|text + word| + 2], asks, ok)
      ensures ok ==> Wrote(text + word, |text|) && depth == old(depth)
      ensures ok <==> |text + word| + 2 <= Limit() && !refused
      ensures noalloc ==> !refused
    {
      hide Asked, Counted;
      ok := Ensure(|word| + 1, text);
      if ok {
        Append(offset, word + [NUL], text);
        assert buffer[..|text + word| + 1] == text + (word + [NUL]);
        Terminate(text, word);
      }
    }

    lemma Terminate(text: bytes, word: bytes)
      requires Sound() && offset == |text| && |text + word| + 2 <= length
      requires buffer[..|text + word| + 1] == text + (word + [NUL])
      ensures Wrote(text + word, |text|)
    {
      var n := |text + word|;
      assert buffer[..n] == buffer[..n + 1][..n];
      assert buffer[n] == buffer[..n + 1][n];
    }

    /** print_number, on the integers that "%1.15g" prints in plain decimal. */
    method PrintNumber(d: real, ghost text: bytes) returns (ok: bool)
      requires Holds(text) && PlainInteger(d)
      modifies this, buffer
      ensures buffer == null || buffer == old(buffer) || fresh(buffer)
      ensures noalloc ==> Sound()
      ensures Counted() && Asked(old(asks), [|text + DecimalText(d.Floor)| + 2], asks, ok)
      ensures ok ==> Wrote(text + DecimalText(d.Floor), |text|) && depth == old(depth)
      ensures ok ==> offset == |text + DecimalText(d.Floor)|
      ensures ok <==> |text + DecimalText(d.Floor)| + 2 <= Limit() && !refused
      ensures noalloc ==> !refused
    {
      hide DecimalText, Asked, Counted;
      var number := DecimalText(d.Floor);
      PlainTextLength(d.Floor);
      ok := Ensure(|number| + 1, text);
      if ok {
        Append(offset, number + [NUL], text);
        assert buffer[..|text + number| + 1] == text + (number + [NUL]);
        Terminate(text, number);
        offset := offset + |number|;
      }
    }

    // ----- print_string_ptr -----

    /** The second pass on one byte, written at `at`; sprintf also writes a NUL behind. */
    method WriteEscape(b: byte, at: nat, ghost text: bytes) returns (next: nat)
      requires Sound() && at == |text| && at + |EscapeByte(b)| < length && buffer[..at] == text
      modifies buffer
      ensures Sound() && next == at + |EscapeByte(b)| && buffer[..next] == text + EscapeByte(b)
    {
      if b > 31 && b != QUOTE && b != BACKSLASH {
        Append(at, [b], text);
        next := at + 1;
      } else {
        var letter := EscapeLetter(b);
        if letter.Some? {
          Append(at, [BACKSLASH, letter.value], text);
          next := at + 2;
        } else {
          var hex := [BACKSLASH, 0x75, ZERO, ZERO, HexDigit(b / 16), HexDigit(b % 16)];
          Append(at, hex + [NUL], text);
          next := at + 6;
          assert buffer[..next] == buffer[..next + 1][..next];
        }
      }
    }

    /** The switch over the bytes that have a one-letter escape. */
    method EscapeLetter(b: byte) returns (letter: Option<byte>)
      ensures letter == ShortEscape(b)
    {
      if b == BACKSLASH { return Some(BACKSLASH); }
      if b == QUOTE { return Some(QUOTE); }
      if b == 0x08 { return Some(0x62); }
      if b == 0x0C { return Some(0x66); }
      if b == LF { return Some(0x6E); }
      if b == CR { return Some(0x72); }
      if b == TAB { return Some(0x74); }
      return None;
    }

    /** The second pass. */
    method WriteEscaped(s: bytes, at: nat, ghost text: bytes)
      requires Sound() && at == |text| && at + |Escape(s)| < length && buffer[..at] == text
      modifies buffer
      ensures Sound() && buffer[..at + |Escape(s)|] == text + Escape(s)
    {
      hide EscapeByte;
      var i, to := 0, at;
      ghost var done: bytes := [];
      assert s[0..] == s;
      while i < |s|
        invariant i <= |s| && to == at + |done| && done + Escape(s[i..]) == Escape(s)
        invariant Sound() && length == old(length) && buffer[..to] == text + done
      {
        EscapeStep(s, i, done);
        to := WriteEscape(s[i], to, text + done);
        done := done + EscapeByte(s[i]);
        i := i + 1;
      }
    }

    lemma EscapeStep(s: bytes, i: nat, done: bytes)
      requires i < |s| && done + Escape(s[i..]) == Escape(s)
      ensures done + EscapeByte(s[i]) + Escape(s[i + 1..]) == Escape(s)
      ensures |done| + |EscapeByte(s[i])| <= |Escape(s)|
    {
      hide EscapeByte;
      assert s[i..][1..] == s[i + 1..];
      assert done + (EscapeByte(s[i]) + Escape(s[i + 1..])) == done + EscapeByte(s[i]) + Escape(s[i + 1..]);
    }

    /** The writing of print_string_ptr, once the space is there. */
    method WriteQuoted(s: bytes, escapes: nat, ghost text: bytes)
      requires Holds(text) && |s| + escapes == |Escape(s)| && offset + |Quote(s)| + 2 <= length
      modifies buffer
      ensures Sound() && |Quote(s)| == |s| + escapes + 2
      ensures buffer[..offset + |Quote(s)| + 1] == text + (Quote(s) + [NUL])
    {
      hide Escape, EscapeByte, Quote, Counted;
      QuoteIs(text, s);
      var outputLength := |s| + escapes;
      Append(offset, [QUOTE], text);
      if escapes == 0 {
        NoEscapes(s);
        Append(offset + 1, s, text + [QUOTE]);
      } else {
        WriteEscaped(s, offset + 1, text + [QUOTE]);
      }
      Append(offset + 1 + outputLength, [QUOTE, NUL], text + [QUOTE] + Escape(s));
    }

    lemma QuoteIs(text: bytes, s: bytes)
      ensures text + [QUOTE] + Escape(s) + [QUOTE, NUL] == text + (Quote(s) + [NUL])
      ensures |Quote(s)| == |Escape(s)| + 2
    {
      hide Escape;
    }

    /** print_string_ptr on a string; the two passes agree on the length. */
    method PrintStringPtr(s: bytes, ghost text: bytes) returns (ok: bool)
      requires Holds(text) && |Quote(s)| < SIZE_MAX
      modifies this, buffer
      ensures buffer == null || buffer == old(buffer) || fresh(buffer)
      ensures noalloc ==> Sound()
      ensures Counted() && Asked(old(asks), [|text + Quote(s)| + 2], asks, ok)
      ensures ok ==> Wrote(text + Quote(s), |text|) && depth == old(depth)
      ensures ok <==> |text + Quote(s)| + 2 <= Limit() && !refused
      ensures noalloc ==> !refused
    {
      hide Escape, EscapeByte, Asked, Counted;
      var escapes := CountEscapes(s);
      assert |Quote(s)| == |s| + escapes + 2;
      hide Quote;
      ok := Ensure(|s| + escapes + 3, text);
      if ok {
        WriteQuoted(s, escapes, text);
        Terminate(text, Quote(s));
      }
    }

    // ----- print_value, print_array, print_object -----

    /** From the terminator convention back to an offset at the end of the text. */
    method Advance(ghost text: bytes, ghost printed: bytes)
      requires Wrote(text + printed, |text|) && NulFree(printed)
      modifies this`offset
      ensures Holds(text + printed) && offset < length && buffer[offset] == NUL
    {
      assert (text + printed)[|text|..] == printed;
      UpdateOffset(text + printed, |text|);
    }

    /** Punctuation that moves the offset itself, with `spare` more bytes asked for; with
        `terminate` a NUL goes behind it. */
    method PrintPunctuation(t: bytes, spare: nat, terminate: bool, ghost text: bytes) returns (ok: bool)
      requires Holds(text) && |t| + spare < 16 && (terminate ==> spare > 0)
      modifies this, buffer
      ensures buffer == null || buffer == old(buffer) || fresh(buffer)
      ensures noalloc ==> Sound()
      ensures Counted() && Asked(old(asks), [|text + t| + spare + 1], asks, ok)
      ensures ok ==> Holds(text + t) && depth == old(depth) && buffer != null
      ensures !ok ==> |text + t| + spare + 1 > Limit() || refused
    {
      hide Asked, Counted;
      ok := Ensure(|t| + spare, text);
      if ok {
        Append(offset, if terminate then t + [NUL] else t, text);
        assert buffer[..offset + |t|] == text + t by {
          assert terminate ==> buffer[..offset + |t| + 1][..offset + |t|] == text + t;
        }
        offset := offset + |t|;
      }
    }

    /** The tabs in front of a key. */
    method PrintTabs(ghost text: bytes) returns (ok: bool)
      requires Holds(text) && format && depth <= SIZE_MAX
      modifies this, buffer
      ensures buffer == null || buffer == old(buffer) || fresh(buffer)
      ensures noalloc ==> Sound()
      ensures Counted() && Asked(old(asks), [|text| + old(depth) + 1], asks, ok)
      ensures ok ==> Holds(text + Tabs(depth)) && depth == old(depth)
      ensures !ok ==> |text + Tabs(old(depth))| + 1 > Limit() || refused
    {
      hide Asked, Counted;
      ok := Ensure(depth, text);
      if ok {
        WriteTabs(depth, text);
        offset := offset + depth;
      }
    }

    method WriteTabs(n: nat, ghost text: bytes)
      requires Sound() && offset == |text| && offset + n <= length && buffer[..offset] == text
      modifies buffer
      ensures Sound() && buffer[..offset + n] == text + Tabs(n)
    {
      var i := 0;
      assert text + Tabs(0) == text;
      while i < n
        invariant i <= n && Sound() && buffer[..offset + i] == text + Tabs(i)
      {
        Append(offset + i, [TAB], text + Tabs(i));
        assert text + Tabs(i) + [TAB] == text + Tabs(i + 1);
        i := i + 1;
      }
    }

    /** Indentation, key and colon of a member. */
    method PrintKey(key: bytes, ghost text: bytes) returns (ok: bool)
      requires Holds(text) && depth <= |text| && |Quote(key)| < SIZE_MAX
      modifies this, buffer
      ensures buffer == null || buffer == old(buffer) || fresh(buffer)
      ensures noalloc ==> Sound()
      ensures Counted()
      ensures var head := MemberHead(format, old(depth), key);
              (ok ==> Holds(text + head) && depth == old(depth))
              && (!ok ==> |text + head| + 1 > Limit() || refused)
      ensures Asked(old(asks), KeyAsks(format, old(depth), key, |text|), asks, ok)
    {
      hide Quote, Escape, Indent, KeyGap, MemberHead, KeyAsks, Asked, Holds, Wrote, Sound, Counted, Limit;
      HoldsText(text);
      ghost var indent, quote, gap := Indent(format, depth), Quote(key), KeyGap(format);
      ghost var now := text + indent;
      ghost var before := asks;
      ghost var tabs: seq<nat> := if format then [|text| + depth + 1] else [];
      ghost var last := [|now + quote| + 2, |now + quote + ([COLON] + gap)| + 1];
      IndentIsTabs(depth);
      GapIsTab();
      KeyIs(text, key);
      AskedNothing(before);
      if format {
        ok := PrintTabs(text);
        if !ok {
          AskedLess(before, tabs, last, asks);
          return;
        }
      } else {
        assert now == text;
      }
      ghost var middle := asks;
      ok := PrintQuoted(key, now);
      AskedInTwo(before, tabs, middle, last, asks, ok);
      if !ok { return; }
      middle := asks;
      var colon: bytes := [COLON] + (if format then [TAB] else []);
      ok := PrintPunctuation(colon, 0, false, now + quote);
      AskedInTwo(before, tabs + [last[0]], middle, [last[1]], asks, ok);
      if ok {
        HoldsText(now + quote + colon);
      }
    }

    /** A string that the offset moves behind at once. */
    method PrintQuoted(s: bytes, ghost text: bytes) returns (ok: bool)
      requires Holds(text) && |Quote(s)| < SIZE_MAX
      modifies this, buffer
      ensures buffer == null || buffer == old(buffer) || fresh(buffer)
      ensures noalloc ==> Sound()
      ensures Counted()
      ensures ok ==> Holds(text + Quote(s)) && depth == old(depth)
      ensures !ok ==> |text + Quote(s)| + 2 > Limit() || refused
      ensures Asked(old(asks), [|text + Quote(s)| + 2], asks, ok)
    {
      hide Quote, Asked, Holds, Wrote, Sound, Counted, Limit;
      ok := PrintStringPtr(s, text);
      if ok {
        QuoteNulFree(s);
        Advance(text, Quote(s));
        HoldsText(text + Quote(s));
      }
    }

    lemma HoldsText(text: bytes)
      requires Holds(text)
      ensures Sound() && Counted() && !refused && buffer != null && offset == |text| && |text| + 2 <= SIZE_MAX
    {
    }

    lemma KeyIs(text: bytes, key: bytes)
      ensures var indent, quote, gap := Indent(format, depth), Quote(key), KeyGap(format);
              text + indent + quote + ([COLON] + gap) == text + MemberHead(format, depth, key)
              && KeyAsks(format, depth, key, |text|)
                 == (if format then [|text| + depth + 1] else [])
                    + [|text + indent + quote| + 2, |text + indent + quote + ([COLON] + gap)| + 1]
    {
      hide Indent, Quote, KeyGap;
    }

    lemma GapIsTab()
      ensures KeyGap(format) == if format then [TAB] else []
    {
    }

    /** print_value */
    method PrintValue(v: Json, ghost text: bytes) returns (ok: bool)
      requires Holds(text) && Printable(v) && StringsFit(v) && depth <= |text|
      modifies this, buffer
      ensures buffer == null || buffer == old(buffer) || fresh(buffer)
      ensures noalloc ==> Sound()
      ensures Counted()
      ensures var printed := Render(format, old(depth), v);
              (ok ==> Wrote(text + printed, |text|) && depth == old(depth))
              && (!ok ==> |text + printed| + 2 > Limit() || refused)
      ensures Asked(old(asks), Asks(format, old(depth), v, |text|), asks, ok)
      decreases v, 0
    {
      hide Render, Quote, DecimalText, Asks, Asked, Wrote, Counted, Limit, ItemsFit, MembersFit;
      LeafText(format, depth, v);
      AsksAre(format, depth, v, |text|);
      match v
      case Null => ok := PrintWord(NULL_TEXT, text);
      case False => ok := PrintWord(FALSE_TEXT, text);
      case True => ok := PrintWord(TRUE_TEXT, text);
      case Number(d) => ok := PrintNumber(d, text);
      case String(s) => ok := PrintStringPtr(s, text);
      case Array(items) => ok := PrintArray(items, text);
      case Object(members) => ok := PrintObject(members, text);
    }

    /** A value, and the offset behind it. */
    method PrintAndAdvance(v: Json, ghost text: bytes) returns (ok: bool)
      requires Holds(text) && Printable(v) && StringsFit(v) && depth <= |text|
      modifies this, buffer
      ensures buffer == null || buffer == old(buffer) || fresh(buffer)
      ensures noalloc ==> Sound()
      ensures Counted()
      ensures var printed := Render(format, old(depth), v);
              (ok ==> Holds(text + printed) && depth == old(depth) && buffer != null)
              && (!ok ==> |text + printed| + 2 > Limit() || refused)
      ensures Asked(old(asks), Asks(format, old(depth), v, |text|), asks, ok)
      decreases v, 1
    {
      hide *;
      ok := PrintValue(v, text);
      if ok {
        RenderNulFree(format, depth, v);
        Advance(text, Render(format, depth, v));
        HoldsText(text + Render(format, depth, v));
      }
    }

    /** One turn of print_array's loop. */
    method PrintItem(items: seq<Json>, i: nat, ghost text: bytes) returns (ok: bool)
      requires Holds(text) && i < |items| && Printable(items[i]) && StringsFit(items[i]) && depth <= |text|
      modifies this, buffer
      ensures buffer == null || buffer == old(buffer) || fresh(buffer)
      ensures noalloc ==> Sound()
      ensures Counted()
      ensures var printed := Render(format, old(depth), items[i]) + ItemSeparator(format, i + 1 == |items|);
              (ok ==> Holds(text + printed) && depth == old(depth) && buffer != null)
              && (!ok ==> |text + printed| + 2 > Limit() || refused)
      ensures Asked(old(asks), ItemAsks(format, old(depth), items[i], i + 1 == |items|, |text|), asks, ok)
      decreases items, 1
    {
      hide *;
      ghost var printed, before, first := Render(format, depth, items[i]), asks, Asks(format, depth, items[i], |text|);
      ItemIs(items[i], i + 1 == |items|, text);
      SizeLimit();
      ok := PrintAndAdvance(items[i], text);
      if i + 1 < |items| {
        ghost var last, middle := [|text + printed + ([COMMA] + Gap(format))| + 2], asks;
        if !ok {
          AskedLess(before, first, last, asks);
          return;
        }
        var separator: bytes := [COMMA] + (if format then [SPACE] else []);
        ok := PrintPunctuation(separator, 1, true, text + printed);
        AskedMore(before, first, middle, last, asks, ok);
      }
    }

    lemma ItemIs(v: Json, last: bool, text: bytes)
      requires Printable(v)
      ensures Gap(format) == if format then [SPACE] else []
      ensures text + (Render(format, depth, v) + ItemSeparator(format, last))
           == text + Render(format, depth, v) + if last then [] else [COMMA] + Gap(format)
      ensures ItemAsks(format, depth, v, last, |text|)
           == Asks(format, depth, v, |text|)
              + if last then [] else [|text + Render(format, depth, v) + ([COMMA] + Gap(format))| + 2]
      ensures last ==>
                text + (Render(format, depth, v) + ItemSeparator(format, last)) == text + Render(format, depth, v)
                && ItemAsks(format, depth, v, last, |text|) == Asks(format, depth, v, |text|)
    {
      hide Render, Asks;
    }

    /** The closing bracket or brace behind `tabs` tabs; the offset stays before them. */
    method PrintClose(tabs: nat, close: byte, ghost text: bytes) returns (ok: bool)
      requires Holds(text) && tabs + 2 <= SIZE_MAX
      modifies this, buffer
      ensures buffer == null || buffer == old(buffer) || fresh(buffer)
      ensures noalloc ==> Sound()
      ensures Counted() && Asked(old(asks), [|text + (Tabs(tabs) + [close])| + 2], asks, ok)
      ensures ok ==> Wrote(text + (Tabs(tabs) + [close]), |text|) && depth == old(depth)
      ensures !ok ==> |text + (Tabs(tabs) + [close])| + 2 > Limit() || refused
    {
      hide Counted, Asked;
      ok := Ensure(tabs + 2, text);
      if ok {
        WriteTabs(tabs, text);
        CloseIs(text, tabs, close);
        Append(offset + tabs, [close, NUL], text + Tabs(tabs));
        Terminate(text, Tabs(tabs) + [close]);
      }
    }

    lemma CloseIs(text: bytes, tabs: nat, close: byte)
      ensures text + Tabs(tabs) + [close, NUL] == text + (Tabs(tabs) + [close] + [NUL])
    {
    }

    /** print_array's loop. */
    method PrintItems(items: seq<Json>, ghost text: bytes) returns (ok: bool)
      requires buffer != null && Holds(text) && PrintableItems(items) && ItemsFit(items) && depth <= |text|
      modifies this, buffer
      ensures buffer == null || buffer == old(buffer) || fresh(buffer)
      ensures noalloc ==> Sound()
      ensures Counted()
      ensures var printed := RenderItems(format, old(depth), items);
              (ok ==> Holds(text + printed) && depth == old(depth) && buffer != null)
              && (!ok ==> |text + printed| + 2 > Limit() || refused)
      ensures Asked(old(asks), ItemsAsks(format, old(depth), items, |text|), asks, ok)
      decreases items, 2
    {
      hide *;
      var i := 0;
      ghost var done: bytes := [];
      ghost var asked: seq<nat> := [];
      ItemsAtFirst(items, text);
      AskedNothing(asks);
      while i < |items|
        invariant i <= |items| && PrintableItems(items[i..]) && ItemsFit(items[i..]) && depth == old(depth)
        invariant buffer != null && (buffer == old(buffer) || fresh(buffer))
        invariant Holds(text + done) && Asked(old(asks), asked, asks, true)
        invariant done + RenderItems(format, depth, items[i..]) == RenderItems(format, depth, items)
        invariant asked + ItemsAsks(format, depth, items[i..], |text + done|)
               == ItemsAsks(format, depth, items, |text|)
      {
        ItemsTurn(items, i, done);
        ItemsAsksTurn(items, i, text, done, asked);
        ghost var printed := Render(format, depth, items[i]) + ItemSeparator(format, i + 1 == |items|);
        ghost var more := ItemAsks(format, depth, items[i], i + 1 == |items|, |text + done|);
        ghost var rest := ItemsAsks(format, depth, items[i + 1..], |text + (done + printed)|);
        ghost var middle := asks;
        ok := PrintItem(items, i, text + done);
        AskedMore(old(asks), asked, middle, more, asks, ok);
        if !ok {
          AskedLess(old(asks), asked + more, rest, asks);
          return;
        }
        assert text + done + printed == text + (done + printed);
        done, asked := done + printed, asked + more;
        i := i + 1;
      }
      HoldsText(text + done);
      NoItemsLeft(items, i, |text + done|);
      assert done + [] == done && asked + [] == asked;
      ok := true;
    }

    lemma ItemsAtFirst(items: seq<Json>, text: bytes)
      requires PrintableItems(items)
      ensures items[0..] == items && text + [] == text
      ensures [] + RenderItems(format, depth, items) == RenderItems(format, depth, items)
      ensures [] + ItemsAsks(format, depth, items, |text|) == ItemsAsks(format, depth, items, |text|)
    {
      hide *;
    }

    lemma ItemsTurn(items: seq<Json>, i: nat, done: bytes)
      requires i < |items| && PrintableItems(items[i..]) && PrintableItems(items) && ItemsFit(items[i..])
      requires done + RenderItems(format, depth, items[i..]) == RenderItems(format, depth, items)
      ensures Printable(items[i]) && PrintableItems(items[i + 1..])
      ensures StringsFit(items[i]) && ItemsFit(items[i + 1..])
      ensures var printed := Render(format, depth, items[i]) + ItemSeparator(format, i + 1 == |items|);
              |done + printed| <= |RenderItems(format, depth, items)|
              && done + printed + RenderItems(format, depth, items[i + 1..])
                 == RenderItems(format, depth, items)
    {
      hide *;
      ItemsUnfold(format, depth, items[i..]);
      ItemsFitUnfold(items[i..]);
      assert items[i..][0] == items[i] && items[i..][1..] == items[i + 1..];
      var head, separator, rest :=
        Render(format, depth, items[i]), ItemSeparator(format, i + 1 == |items|),
        RenderItems(format, depth, items[i + 1..]);
      assert done + (head + separator + rest) == done + (head + separator) + rest;
    }

    lemma ItemsAsksTurn(items: seq<Json>, i: nat, text: bytes, done: bytes, asked: seq<nat>)
      requires i < |items| && PrintableItems(items[i..]) && PrintableItems(items[i + 1..]) && Printable(items[i])
      requires PrintableItems(items)
      requires asked + ItemsAsks(format, depth, items[i..], |text + done|) == ItemsAsks(format, depth, items, |text|)
      ensures var printed := Render(format, depth, items[i]) + ItemSeparator(format, i + 1 == |items|);
              asked + ItemAsks(format, depth, items[i], i + 1 == |items|, |text + done|)
              + ItemsAsks(format, depth, items[i + 1..], |text + (done + printed)|)
              == ItemsAsks(format, depth, items, |text|)
    {
      hide Render, ItemAsks, ItemSeparator;
      assert items[i..][0] == items[i] && items[i..][1..] == items[i + 1..];
    }

    lemma NoItemsLeft(items: seq<Json>, i: nat, at: nat)
      requires i == |items|
      ensures items[i..] == [] && RenderItems(format, depth, []) == [] && ItemsAsks(format, depth, [], at) == []
    {
    }

    /** print_array */
    method PrintArray(items: seq<Json>, ghost text: bytes) returns (ok: bool)
      requires Holds(text) && PrintableItems(items) && Printable(Array(items)) && ItemsFit(items)
      requires depth <= |text|
      modifies this, buffer
      ensures buffer == null || buffer == old(buffer) || fresh(buffer)
      ensures noalloc ==> Sound()
      ensures Counted()
      ensures var printed := Render(format, old(depth), Array(items));
              (ok ==> Wrote(text + printed, |text|) && depth == old(depth))
              && (!ok ==> |text + printed| + 2 > Limit() || refused)
      ensures Asked(old(asks), Asks(format, old(depth), Array(items), |text|), asks, ok)
      decreases items, 3
    {
      hide *;
      ghost var inner := RenderItems(format, depth + 1, items);
      ghost var printed := Render(format, depth, Array(items));
      ghost var before, first := asks, [|text| + 2];
      ghost var more, last := ItemsAsks(format, depth + 1, items, |text| + 1), [|text + printed| + 2];
      ArrayText(format, depth, items);
      AsksAre(format, depth, Array(items), |text|);
      BracketsAround(text, inner, printed);
      SizeLimit();
      ok := PrintPunctuation([LBRACKET], 0, false, text);
      ghost var middle := asks;
      if !ok {
        AskedLess(before, first, more, asks);
        AskedLess(before, first + more, last, asks);
        return;
      }
      depth := depth + 1;
      ok := PrintItems(items, text + [LBRACKET]);
      AskedMore(before, first, middle, more, asks, ok);
      middle := asks;
      if !ok {
        AskedLess(before, first + more, last, asks);
        return;
      }
      ok := PrintClose(0, RBRACKET, text + [LBRACKET] + inner);
      AskedMore(before, first + more, middle, last, asks, ok);
      if ok {
        depth := depth - 1;
        WroteFrom(text + printed, |text + [LBRACKET] + inner|, |text|);
      }
    }

    lemma BracketsAround(text: bytes, inner: bytes, printed: bytes)
      requires printed == [LBRACKET] + (inner + [RBRACKET])
      ensures text + [LBRACKET] + inner + (Tabs(0) + [RBRACKET]) == text + printed
    {
    }

    lemma IndentIsTabs(level: nat)
      ensures Indent(format, level) == if format then Tabs(level) else []
    {
    }

    /** One turn of print_object's loop. */
    method PrintMember(members: seq<Member>, i: nat, ghost text: bytes) returns (ok: bool)
      requires Holds(text) && i < |members| && Printable(members[i].value) && depth <= |text|
      requires |Quote(members[i].key)| < SIZE_MAX && StringsFit(members[i].value)
      modifies this, buffer
      ensures buffer == null || buffer == old(buffer) || fresh(buffer)
      ensures noalloc ==> Sound()
      ensures Counted()
      ensures var printed := MemberText(format, old(depth), members[i], i + 1 == |members|);
              (ok ==> Holds(text + printed) && depth == old(depth) && buffer != null)
              && (!ok ==> |text + printed| + 2 > Limit() || refused)
      ensures Asked(old(asks), MemberAsks(format, old(depth), members[i], i + 1 == |members|, |text|), asks, ok)
      decreases members, 1
    {
      hide *;
      ghost var m := members[i];
      ghost var head, value := MemberHead(format, depth, m.key), Render(format, depth, m.value);
      ghost var printed := MemberText(format, depth, m, i + 1 == |members|);
      ghost var first, more := KeyAsks(format, depth, m.key, |text|), Asks(format, depth, m.value, |text + head|);
      ghost var before, last := asks, [|text + printed| + 2];
      MemberIs(m, i + 1 == |members|, text);
      SizeLimit();
      ok := PrintKey(members[i].key, text);
      ghost var middle := asks;
      if !ok {
        AskedLess(before, first, more, asks);
        AskedLess(before, first + more, last, asks);
        return;
      }
      ok := PrintAndAdvance(members[i].value, text + head);
      AskedMore(before, first, middle, more, asks, ok);
      middle := asks;
      if !ok {
        AskedLess(before, first + more, last, asks);
        return;
      }
      var separator: bytes := if i + 1 < |members| then [COMMA] else [];
      separator := separator + if format then [LF] else [];
      SeparatorIs(i + 1 == |members|, separator);
      ok := PrintPunctuation(separator, 1, true, text + head + value);
      AskedMore(before, first + more, middle, last, asks, ok);
    }

    lemma SeparatorIs(last: bool, separator: bytes)
      requires separator == (if !last then [COMMA] else []) + (if format then [LF] else [])
      ensures separator == MemberSeparator(format, last) && |separator| <= 2
    {
    }

    lemma MemberIs(m: Member, last: bool, text: bytes)
      requires Printable(m.value)
      ensures var head, value := MemberHead(format, depth, m.key), Render(format, depth, m.value);
              var printed := MemberText(format, depth, m, last);
              text + head + value + MemberSeparator(format, last) == text + printed
              && |text| <= |text + head| <= |text + head + value| <= |text + printed| && depth <= depth + |head|
              && |head| > 0 && |text + head + value| + 2 > |text + head| + 1
              && MemberAsks(format, depth, m, last, |text|)
                 == KeyAsks(format, depth, m.key, |text|) + Asks(format, depth, m.value, |text + head|)
                    + [|text + printed| + 2]
    {
      hide Render, MemberSeparator, KeyAsks, Asks, Quote, Indent, KeyGap;
    }

    lemma MembersTurn(members: seq<Member>, i: nat, done: bytes)
      requires i < |members| && PrintableMembers(members[i..]) && PrintableMembers(members) && MembersFit(members[i..])
      requires done + RenderMembers(format, depth, members[i..]) == RenderMembers(format, depth, members)
      ensures Printable(members[i].value) && PrintableMembers(members[i + 1..])
      ensures |Quote(members[i].key)| < SIZE_MAX && StringsFit(members[i].value) && MembersFit(members[i + 1..])
      ensures var printed := MemberText(format, depth, members[i], i + 1 == |members|);
              |done + printed| <= |RenderMembers(format, depth, members)|
              && done + printed + RenderMembers(format, depth, members[i + 1..])
                 == RenderMembers(format, depth, members)
    {
      hide Render, RenderMembers, Indent, KeyGap, MemberSeparator, Quote, Printable, PrintableMembers, MembersFit,
        StringsFit;
      MembersPrintable(members[i..]);
      MembersFitUnfold(members[i..]);
      MembersUnfold(format, depth, members[i..]);
      assert members[i..][0] == members[i] && members[i..][1..] == members[i + 1..];
      var printed := MemberText(format, depth, members[i], i + 1 == |members|);
      var rest := RenderMembers(format, depth, members[i + 1..]);
      assert done + (printed + rest) == done + printed + rest;
    }

    lemma MembersAsksTurn(members: seq<Member>, i: nat, text: bytes, done: bytes, asked: seq<nat>)
      requires i < |members| && PrintableMembers(members[i..]) && PrintableMembers(members[i + 1..])
      requires Printable(members[i].value) && PrintableMembers(members)
      requires asked + MembersAsks(format, depth, members[i..], |text + done|)
            == MembersAsks(format, depth, members, |text|)
      ensures var printed := MemberText(format, depth, members[i], i + 1 == |members|);
              asked + MemberAsks(format, depth, members[i], i + 1 == |members|, |text + done|)
              + MembersAsks(format, depth, members[i + 1..], |text + (done + printed)|)
              == MembersAsks(format, depth, members, |text|)
    {
      hide MemberText, MemberAsks;
      assert members[i..][0] == members[i] && members[i..][1..] == members[i + 1..];
    }

    lemma NoMembersLeft(members: seq<Member>, i: nat, at: nat)
      requires i == |members|
      ensures members[i..] == [] && RenderMembers(format, depth, []) == []
      ensures MembersAsks(format, depth, [], at) == []
    {
    }

    /** print_object's loop. */
    method PrintMembers(members: seq<Member>, ghost text: bytes) returns (ok: bool)
      requires buffer != null && Holds(text) && PrintableMembers(members) && MembersFit(members) && depth <= |text|
      modifies this, buffer
      ensures buffer == null || buffer == old(buffer) || fresh(buffer)
      ensures noalloc ==> Sound()
      ensures Counted()
      ensures var printed := RenderMembers(format, old(depth), members);
              (ok ==> Holds(text + printed) && depth == old(depth) && buffer != null)
              && (!ok ==> |text + printed| + 2 > Limit() || refused)
      ensures Asked(old(asks), MembersAsks(format, old(depth), members, |text|), asks, ok)
      decreases members, 2
    {
      hide *;
      var i := 0;
      ghost var done: bytes := [];
      ghost var asked: seq<nat> := [];
      MembersAtFirst(members, text);
      AskedNothing(asks);
      while i < |members|
        invariant i <= |members| && PrintableMembers(members[i..]) && MembersFit(members[i..]) && depth == old(depth)
        invariant buffer != null && (buffer == old(buffer) || fresh(buffer))
        invariant Holds(text + done) && Asked(old(asks), asked, asks, true)
        invariant done + RenderMembers(format, depth, members[i..]) == RenderMembers(format, depth, members)
        invariant asked + MembersAsks(format, depth, members[i..], |text + done|)
               == MembersAsks(format, depth, members, |text|)
      {
        MembersTurn(members, i, done);
        MembersAsksTurn(members, i, text, done, asked);
        ghost var printed := MemberText(format, depth, members[i], i + 1 == |members|);
        ghost var more := MemberAsks(format, depth, members[i], i + 1 == |members|, |text + done|);
        ghost var rest := MembersAsks(format, depth, members[i + 1..], |text + (done + printed)|);
        ghost var middle := asks;
        ok := PrintMember(members, i, text + done);
        AskedMore(old(asks), asked, middle, more, asks, ok);
        if !ok {
          AskedLess(old(asks), asked + more, rest, asks);
          return;
        }
        assert text + done + printed == text + (done + printed);
        done, asked := done + printed, asked + more;
        i := i + 1;
      }
      HoldsText(text + done);
      NoMembersLeft(members, i, |text + done|);
      assert done + [] == done && asked + [] == asked;
      ok := true;
    }

    lemma MembersAtFirst(members: seq<Member>, text: bytes)
      requires PrintableMembers(members)
      ensures members[0..] == members && text + [] == text
      ensures [] + RenderMembers(format, depth, members) == RenderMembers(format, depth, members)
      ensures [] + MembersAsks(format, depth, members, |text|) == MembersAsks(format, depth, members, |text|)
    {
      hide *;
    }

    /** The opening brace of print_object, and the deeper level behind it. */
    method OpenObject(ghost text: bytes) returns (ok: bool)
      requires Holds(text)
      modifies this, buffer
      ensures buffer == null || buffer == old(buffer) || fresh(buffer)
      ensures noalloc ==> Sound()
      ensures Counted()
      ensures ok ==> Holds(text + OpenBrace(format)) && depth == old(depth) + 1
      ensures ok ==> buffer != null
      ensures !ok ==> |text + OpenBrace(format)| + 2 > Limit() || refused
      ensures Asked(old(asks), [|text + OpenBrace(format)| + 2], asks, ok)
    {
      hide Asked, Counted;
      var brace: bytes := [LBRACE] + (if format then [LF] else []);
      ok := PrintPunctuation(brace, 1, false, text);
      if ok {
        depth := depth + 1;
      }
    }

    /** The closing brace of print_object, indented to the level outside. */
    method CloseObject(ghost text: bytes) returns (ok: bool)
      requires Holds(text) && 0 < depth <= |text|
      modifies this, buffer
      ensures buffer == null || buffer == old(buffer) || fresh(buffer)
      ensures noalloc ==> Sound()
      ensures Counted()
      ensures var close := CloseBrace(format, old(depth) - 1);
              (ok ==> Wrote(text + close, |text|) && depth == old(depth) - 1)
              && (!ok ==> |text + close| + 2 > Limit() || refused)
      ensures Asked(old(asks), [|text + CloseBrace(format, old(depth) - 1)| + 2], asks, ok)
    {
      hide Asked, Counted;
      NoTabs();
      ok := PrintClose(if format then depth - 1 else 0, RBRACE, text);
      if ok {
        depth := depth - 1;
      }
    }

    /** print_object */
    method PrintObject(members: seq<Member>, ghost text: bytes) returns (ok: bool)
      requires Holds(text) && PrintableMembers(members) && Printable(Object(members)) && MembersFit(members)
      requires depth <= |text|
      modifies this, buffer
      ensures buffer == null || buffer == old(buffer) || fresh(buffer)
      ensures noalloc ==> Sound()
      ensures Counted()
      ensures var printed := Render(format, old(depth), Object(members));
              (ok ==> Wrote(text + printed, |text|) && depth == old(depth) && buffer != null)
              && (!ok ==> |text + printed| + 2 > Limit() || refused)
      ensures Asked(old(asks), Asks(format, old(depth), Object(members), |text|), asks, ok)
      decreases members, 3
    {
      hide *;
      ghost var open, close := OpenBrace(format), CloseBrace(format, depth);
      ghost var inner := RenderMembers(format, depth + 1, members);
      ghost var printed := Render(format, depth, Object(members));
      ghost var before, first := asks, [|text + open| + 2];
      ghost var more, last := MembersAsks(format, depth + 1, members, |text + open|), [|text + printed| + 2];
      ObjectUnfold(format, depth, members);
      AsksAre(format, depth, Object(members), |text|);
      OpenBraceIs(format);
      ConcatAssociates(text, open, inner, close);
      ok := OpenObject(text);
      ghost var middle := asks;
      if !ok {
        AskedLess(before, first, more, asks);
        AskedLess(before, first + more, last, asks);
        return;
      }
      ok := PrintMembers(members, text + open);
      AskedMore(before, first, middle, more, asks, ok);
      middle := asks;
      if !ok {
        AskedLess(before, first + more, last, asks);
        return;
      }
      ok := CloseObject(text + open + inner);
      AskedMore(before, first + more, middle, last, asks, ok);
      if ok {
        WroteFrom(text + printed, |text + open + inner|, |text|);
      }
    }

    lemma SizeLimit()
      ensures SIZE_MAX > 16
    {
    }

    lemma WroteFrom(text: bytes, from: nat, from': nat)
      requires Wrote(text, from) && from' <= from
      ensures Wrote(text, from') && buffer != null
    {
    }

    lemma ConcatAssociates(a: bytes, b: bytes, c: bytes, d: bytes)
      ensures a + b + c + d == a + (b + c + d)
    {
    }

    lemma NoTabs()
      ensures Tabs(0) == []
      ensures forall n: nat {:trigger Tabs(n)} :: |Tabs(n)| == n
    {
    }
  }

  /** print: the text in a block of its own, sized to fit. The hooks grant `grants`
      requests for memory. One request for the buffer, one for each time it is enlarged, and
      one for the block are what it takes. */
  method Print(v: Json, format: bool, hasRealloc: bool, grants: nat) returns (printed: array?<byte>)
    requires Printable(v) && StringsFit(v)
    ensures printed != null ==> fresh(printed) && printed[..] == PrintedText(format, v)
    ensures printed != null
       <==> |Render(format, 0, v)| + 2 <= INT_MAX && grants >= 2 + Enlargements(Asks(format, 0, v, 0))
    ensures var n := |Render(format, 0, v)| + 2;
            n <= INT_MAX && (grants >= 2 + Growths(n) || grants >= 25) ==> printed != null
  {
    hide Render, Growths, Asks, Enlargements, LengthAfter, StringsFit;
    ghost var text, all := Render(format, 0, v), Asks(format, 0, v, 0);
    if |text| + 2 <= INT_MAX {
      EnlargementsOfText(format, v);
    }
    if grants == 0 {
      return null;
    }
    var p := new PrintBuffer.Growing(format, hasRealloc, grants - 1);
    NoEnlargement();
    var ok := p.PrintValue(v, []);
    assert [] + text == text && [] + all == all;
    EnlargementsGrow(p.asks, all);
    if !ok {
      return null;
    }
    RenderNulFree(format, 0, v);
    p.Advance([], text);
    if p.grants == 0 {
      return null;
    }
    printed := CopyOut(p, text);
  }

  function Min(a: nat, b: nat): nat {
    if a < b then a else b
  }

  /** The block that print hands out: realloc, or allocate and memcpy. */
  method CopyOut(p: PrintBuffer, ghost text: bytes) returns (printed: array<byte>)
    requires p.Holds(text) && p.offset < p.length && p.buffer[p.offset] == NUL
    ensures fresh(printed) && printed[..] == text + [NUL]
  {
    var size := p.offset + 1;
    printed := new byte[size];
    var count := Min(p.length, size);
    var source: array<byte> := p.buffer;
    forall i | 0 <= i < count {
      printed[i] := source[i];
    }
    if !p.hasRealloc {
      printed[p.offset] := NUL;
    }
    assert printed[..p.offset] == source[..p.offset];
  }

  /** cJSON_PrintPreallocated: true exactly when the buffer has room for the text, its
      terminator and one byte more; nothing is written from `len` on. */
  method PrintPreallocated(v: Json, buf: array?<byte>, len: int, format: bool) returns (ok: bool)
    requires Printable(v) && StringsFit(v)
    requires len <= INT_MAX && (buf != null ==> len <= buf.Length)
    modifies buf
    ensures ok <==> buf != null && len >= |Render(format, 0, v)| + 2
    ensures ok ==> buf[..|Render(format, 0, v)| + 1] == PrintedText(format, v)
    ensures buf != null && len >= 0 ==> buf[len..] == old(buf[len..])
    ensures buf != null && len < 0 ==> buf[..] == old(buf[..])
  {
    hide Render;
    if len < 0 || buf == null {
      return false;
    }
    ghost var text := Render(format, 0, v);
    var p := new PrintBuffer.Fixed(buf, len, format);
    ok := p.PrintValue(v, []);
    assert [] + text == text;
    if ok {
      assert buf[..|text| + 1] == buf[..|text|] + [NUL];
    }
  }

  /** The first pass: how many bytes escaping adds. */
  method CountEscapes(s: bytes) returns (n: nat)
    ensures |s| + n == |Escape(s)|
  {
    n := 0;
    var i := 0;
    assert s[0..] == s;
    while i < |s|
      invariant i <= |s| && i + n + |Escape(s[i..])| == |Escape(s)|
    {
      assert s[i..][1..] == s[i + 1..];
      var b := s[i];
      if b == QUOTE || b == BACKSLASH || b == 0x08 || b == 0x0C || b == LF || b == CR || b == TAB {
        n := n + 1;
      } else if b < 32 {
        n := n + 5;
      }
      i := i + 1;
    }
  }

  lemma EscapeLength(s: bytes)
    ensures |s| <= |Escape(s)|
  {
  }

  lemma {:induction false} NoEscapes(s: bytes)
    requires |Escape(s)| == |s|
    ensures Escape(s) == s
    decreases |s|
  {
    if s != [] {
      EscapeLength(s[1..]);
      NoEscapes(s[1..]);
    }
  }
}
