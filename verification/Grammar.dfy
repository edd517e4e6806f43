/** Texts built from a grammar, with no look at the parser: the grammar of RFC 8259, and the
    wider one that cJSON reads. */
module Grammar {
  import opened Bytes
  import opened JsonTree
  import opened Numerals
  import opened Utf16

  /** Lenient takes every byte up to 32 for a blank and every byte but a backslash as it is,
      a \u group without four digits for \u0000, and any number that strtod takes. */
  datatype Rules = Rfc | Lenient

  /** The bytes that spell a word of ASCII characters. */
  predicate Spells(t: bytes, word: string) {
    |t| == |word| && forall k :: 0 <= k < |t| ==> t[k] == word[k] as int
  }

  /** The terminals of RFC 8259: the bytes behind the names used here, as characters. */
  lemma Terminals()
    ensures Spells([LBRACE, RBRACE, LBRACKET, RBRACKET, COLON, COMMA, QUOTE, BACKSLASH], "{}[]:,\"\\")
    ensures Spells([SPACE, TAB, LF, CR, SLASH, LETTER_U, MINUS, PLUS, DOT, ZERO], " \t\n\r/u-+.0")
    ensures Spells(NULL_TEXT, "null") && Spells(FALSE_TEXT, "false") && Spells(TRUE_TEXT, "true")
    ensures forall b: byte :: IsDigit(b) <==> '0' as int <= b <= '9' as int
    ensures forall b: byte :: IsExponentMark(b) <==> b == 'e' as int || b == 'E' as int
  {
  }

  const HEX_LOWER := "0123456789abcdef"
  const HEX_UPPER := "0123456789ABCDEF"

  /** Hexadecimal digits in either case, and no other byte. */
  lemma HexTerminals(b: byte, k: nat)
    requires k < 16
    ensures HexValue(b) == Some(k) <==> b == HEX_LOWER[k] as int || b == HEX_UPPER[k] as int
    ensures HexValue(b).Some? ==> HexValue(b).value < 16
  {
  }

  // Section 7: strings.

  /** A character of a string: unescaped bytes, a two-character escape, a \u group, the two
      groups of a surrogate pair; and a backslash that the closing quote completes. */
  datatype Piece =
    | Plain(b: byte)
    | Short(letter: byte)
    | Unicode(group: bytes)
    | Pair(high: bytes, low: bytes)
    | LoneBackslash

  predicate Escaped(group: bytes) {
    |group| == 6 && group[0] == BACKSLASH && group[1] == LETTER_U
  }

  /** The number in a \u group; 0 if its last four bytes are not all hexadecimal digits. */
  function Code(group: bytes): (h: nat)
    ensures h < 0x10000
  {
    if |group| == 6 then ParseHex4(group[2..]) else 0
  }

  predicate GoodPiece(rules: Rules, p: Piece) {
    match p
    case Plain(b) => b != BACKSLASH && (rules.Rfc? ==> b >= 0x20 && b != QUOTE)
    case Short(letter) => letter in {QUOTE, BACKSLASH, SLASH, 0x62, 0x66, 0x6E, 0x72, 0x74}
    case Unicode(group) => Escaped(group) && IsScalar(Code(group)) && (rules.Rfc? ==> HexDigits(group[2..]))
    case Pair(high, low) => Escaped(high) && Escaped(low) && HighSurrogate(Code(high)) && LowSurrogate(Code(low))
    case LoneBackslash => rules.Lenient?
  }

  function PieceText(p: Piece): bytes {
    match p
    case Plain(b) => [b]
    case Short(letter) => [BACKSLASH, letter]
    case Unicode(group) => group
    case Pair(high, low) => high + low
    case LoneBackslash => [BACKSLASH]
  }

  function PieceMeaning(p: Piece): bytes {
    match p
    case Plain(b) => [b]
    case Short(letter) =>
      [if letter == 0x62 then 0x08 else if letter == 0x66 then 0x0C else if letter == 0x6E then LF
       else if letter == 0x72 then CR else if letter == 0x74 then TAB else letter]
    case Unicode(group) => EncodeUtf8(Code(group))
    case Pair(high, low) => PairMeaning(Code(high), Code(low))
    case LoneBackslash => [QUOTE]
  }

  /** What is no pair stands for nothing. */
  function PairMeaning(high: nat, low: nat): bytes {
    if HighSurrogate(high) && LowSurrogate(low) then EncodeUtf8(PairValue(high, low)) else []
  }

  predicate GoodPieces(rules: Rules, ps: seq<Piece>) {
    forall k :: 0 <= k < |ps| ==> GoodPiece(rules, ps[k]) && (ps[k].LoneBackslash? ==> k == |ps| - 1)
  }

  /** Every backslash is followed by a byte of its own, and no other quote stands here. */
  predicate Paired(t: bytes)
    decreases |t|
  {
    t == []
    || (t[0] == BACKSLASH && |t| >= 2 && Paired(t[2..]))
    || (t[0] != BACKSLASH && t[0] != QUOTE && Paired(t[1..]))
  }

  /** Under the lenient rules a \u group may hold a backslash or a quote; the string still
      ends where the pairing of backslashes ends it. */
  predicate GoodString(rules: Rules, ps: seq<Piece>) {
    GoodPieces(rules, ps) && (rules.Lenient? ==> Paired(PiecesText(ps)))
  }

  function PiecesText(ps: seq<Piece>): bytes {
    if ps == [] then [] else PieceText(ps[0]) + PiecesText(ps[1..])
  }

  function PiecesMeaning(ps: seq<Piece>): bytes {
    if ps == [] then [] else PieceMeaning(ps[0]) + PiecesMeaning(ps[1..])
  }

  function StringText(ps: seq<Piece>): bytes {
    [QUOTE] + (PiecesText(ps) + [QUOTE])
  }

  // Section 6: numbers.

  datatype Exponent = NoExponent | Exponent(mark: byte, sign: bytes, digits: bytes)

  datatype NumberSyntax =
    NumberSyntax(minus: bool, whole: bytes, point: bool, fraction: bytes, exponent: Exponent)

  predicate IsSignText(sign: bytes) {
    sign == [] || sign == [PLUS] || sign == [MINUS]
  }

  ghost predicate GoodExponent(e: Exponent) {
    e.Exponent? ==> IsExponentMark(e.mark) && IsSignText(e.sign) && AllDigits(e.digits) && e.digits != []
  }

  /** The parts are made of digits; there is one before the exponent, and one in front if
      there is no minus. */
  ghost predicate Readable(n: NumberSyntax) {
    && AllDigits(n.whole) && AllDigits(n.fraction) && GoodExponent(n.exponent)
    && (n.fraction != [] ==> n.point)
    && (n.whole == [] ==> n.minus && n.fraction != [])
  }

  ghost predicate GoodNumber(rules: Rules, n: NumberSyntax) {
    Readable(n)
    && (rules.Rfc? ==>
          n.whole != [] && (n.whole[0] == ZERO ==> |n.whole| == 1) && (n.point ==> n.fraction != []))
  }

  function ExponentText(e: Exponent): bytes {
    if e.NoExponent? then [] else [e.mark] + e.sign + e.digits
  }

  function FractionText(n: NumberSyntax): bytes {
    if n.point then [DOT] + n.fraction else []
  }

  function NumberText(n: NumberSyntax): bytes {
    (if n.minus then [MINUS] else []) + (n.whole + (FractionText(n) + ExponentText(n.exponent)))
  }

  function ExponentValue(e: Exponent): int {
    if e.NoExponent? then 0
    else if e.sign == [MINUS] then -DigitsValue(e.digits)
    else DigitsValue(e.digits)
  }

  /** The number that the digits in front of the exponent write down, the point left out. */
  function Digital(n: NumberSyntax): int {
    DigitsValue(n.whole) * Power(|n.fraction|) + DigitsValue(n.fraction)
  }

  function NumberValue(n: NumberSyntax): real {
    var mantissa := Digital(n) as real / Power(|n.fraction|) as real;
    var signed := if n.minus then -mantissa else mantissa;
    var e := ExponentValue(n.exponent);
    if e >= 0 then signed * Power(e) as real else signed / Power(-e) as real
  }

  /** strtod's way of writing the same. */
  lemma NumberScaled(n: NumberSyntax)
    ensures NumberValue(n) == Scaled(n.minus, n.whole + n.fraction, ExponentValue(n.exponent) - |n.fraction|)
  {
    hide Power, PowerOfTen, ExponentValue, DigitsValue;
    var e, k := ExponentValue(n.exponent), |n.fraction|;
    DigitsInTurn(n.whole, n.fraction);
    PowersAdd(e, k);
    var d, p, t := Digital(n) as real, Power(k) as real, PowerOfTen(e - k);
    Shifted(d, p, t, PowerOfTen(e));
    PowerOfTenOfNone();
    if e >= 0 {
      PowersAdd(e, e);
    } else {
      PowersAdd(0, -e);
      Reciprocal(PowerOfTen(e), Power(-e) as real, d / p);
    }
  }

  lemma PowerOfTenOfNone()
    ensures PowerOfTen(0) == 1.0
  {
  }

  lemma Shifted(d: real, p: real, t: real, u: real)
    requires p > 0.0 && t * p == u
    ensures d * t == d / p * u
  {
    assert d / p * p == d;
    assert d / p * (t * p) == d / p * p * t;
  }

  lemma Reciprocal(t: real, q: real, x: real)
    requires q > 0.0 && t * q == 1.0
    ensures x * t == x / q && -x * t == -x / q
  {
    assert x / q * q == x;
    assert x * t * q == x * (t * q);
  }

  // Sections 2 to 5: values, arrays, objects, and the blanks around them.

  datatype Item = Item(lead: bytes, value: Doc, trail: bytes)

  datatype Entry = Entry(lead: bytes, key: seq<Piece>, beforeColon: bytes, afterColon: bytes, value: Doc, trail: bytes)

  datatype Doc =
    | NullDoc
    | FalseDoc
    | TrueDoc
    | NumberDoc(number: NumberSyntax)
    | StringDoc(pieces: seq<Piece>)
    | ArrayDoc(blanks: bytes, items: seq<Item>)
    | ObjectDoc(blanks: bytes, entries: seq<Entry>)

  /** ws */
  predicate Blanks(rules: Rules, t: bytes) {
    forall k :: 0 <= k < |t| ==> if rules.Rfc? then t[k] in {SPACE, TAB, LF, CR} else t[k] <= 32
  }

  /** The text follows the rules, and no number is longer than the parser's buffer. */
  ghost predicate Follows(rules: Rules, d: Doc) {
    match d
    case NumberDoc(n) => GoodNumber(rules, n) && |NumberText(n)| <= 63
    case StringDoc(ps) => GoodString(rules, ps)
    case ArrayDoc(blanks, items) => Blanks(rules, blanks) && ItemsFollow(rules, items)
    case ObjectDoc(blanks, entries) => Blanks(rules, blanks) && EntriesFollow(rules, entries)
    case _ => true
  }

  ghost predicate ItemsFollow(rules: Rules, items: seq<Item>) {
    items == []
    || (Blanks(rules, items[0].lead) && Follows(rules, items[0].value) && Blanks(rules, items[0].trail)
        && ItemsFollow(rules, items[1..]))
  }

  ghost predicate EntriesFollow(rules: Rules, entries: seq<Entry>) {
    entries == []
    || (GoodEntry(rules, entries[0]) && Follows(rules, entries[0].value) && EntriesFollow(rules, entries[1..]))
  }

  /** All but the value. */
  predicate GoodEntry(rules: Rules, e: Entry) {
    Blanks(rules, e.lead) && GoodString(rules, e.key) && Blanks(rules, e.beforeColon)
    && Blanks(rules, e.afterColon) && Blanks(rules, e.trail)
  }

  function DocText(d: Doc): bytes {
    match d
    case NullDoc => NULL_TEXT
    case FalseDoc => FALSE_TEXT
    case TrueDoc => TRUE_TEXT
    case NumberDoc(n) => NumberText(n)
    case StringDoc(ps) => StringText(ps)
    case ArrayDoc(blanks, items) =>
      if items == [] then [LBRACKET] + (blanks + [RBRACKET])
      else [LBRACKET] + (items[0].lead + ItemsAndEnd(items))
    case ObjectDoc(blanks, entries) =>
      if entries == [] then [LBRACE] + (blanks + [RBRACE])
      else [LBRACE] + (entries[0].lead + EntriesAndEnd(entries))
  }

  /** From the first value to the closing bracket. */
  function ItemsAndEnd(items: seq<Item>): bytes
    requires items != []
  {
    DocText(items[0].value)
    + (items[0].trail
       + if |items| == 1 then [RBRACKET] + [] else [COMMA] + (items[1].lead + ItemsAndEnd(items[1..])))
  }

  /** From the first key to the closing brace. */
  function EntriesAndEnd(entries: seq<Entry>): bytes
    requires entries != []
  {
    EntryText(entries[0])
    + (entries[0].trail
       + if |entries| == 1 then [RBRACE] + [] else [COMMA] + (entries[1].lead + EntriesAndEnd(entries[1..])))
  }

  function EntryText(e: Entry): bytes {
    StringText(e.key) + (e.beforeColon + ([COLON] + (e.afterColon + DocText(e.value))))
  }

  /** The value the text stands for, with all characters of its strings. */
  function DocMeaning(d: Doc): Json {
    match d
    case NullDoc => Null
    case FalseDoc => False
    case TrueDoc => True
    case NumberDoc(n) => Number(NumberValue(n))
    case StringDoc(ps) => String(PiecesMeaning(ps))
    case ArrayDoc(_, items) => Array(ItemsMeaning(items))
    case ObjectDoc(_, entries) => Object(EntriesMeaning(entries))
  }

  function ItemsMeaning(items: seq<Item>): seq<Json> {
    if items == [] then [] else [DocMeaning(items[0].value)] + ItemsMeaning(items[1..])
  }

  function EntriesMeaning(entries: seq<Entry>): seq<Member> {
    if entries == [] then []
    else [Member(PiecesMeaning(entries[0].key), DocMeaning(entries[0].value))] + EntriesMeaning(entries[1..])
  }

  /** What the tree holds of it: a C string ends at its first NUL. */
  function DocValue(d: Doc): Json {
    match d
    case NullDoc => Null
    case FalseDoc => False
    case TrueDoc => True
    case NumberDoc(n) => Number(NumberValue(n))
    case StringDoc(ps) => String(UpToNul(PiecesMeaning(ps)))
    case ArrayDoc(_, items) => Array(ItemsValue(items))
    case ObjectDoc(_, entries) => Object(EntriesValue(entries))
  }

  function ItemsValue(items: seq<Item>): seq<Json> {
    if items == [] then [] else [DocValue(items[0].value)] + ItemsValue(items[1..])
  }

  function EntriesValue(entries: seq<Entry>): seq<Member> {
    if entries == [] then []
    else [Member(UpToNul(PiecesMeaning(entries[0].key)), DocValue(entries[0].value))] + EntriesValue(entries[1..])
  }

  // The lenient rules allow what the strict ones do.

  lemma PairedAppend(a: bytes, b: bytes)
    requires Paired(a) && Paired(b)
    ensures Paired(a + b)
    decreases |a|
  {
    if a == [] {
      assert a + b == b;
    } else {
      var step := if a[0] == BACKSLASH then 2 else 1;
      assert (a + b)[step..] == a[step..] + b;
      PairedAppend(a[step..], b);
    }
  }

  lemma GroupPaired(group: bytes)
    requires Escaped(group) && HexDigits(group[2..])
    ensures Paired(group)
  {
    var t := group[2..];
    assert forall k :: 0 <= k < 4 ==> t[k] != BACKSLASH && t[k] != QUOTE;
    assert Paired(t[3..]) && t[2..][1..] == t[3..];
    assert Paired(t[2..]) && t[1..][1..] == t[2..];
    assert Paired(t[1..]);
  }

  /** Half a surrogate pair is no 0, so its digits are digits. */
  lemma SurrogateHasDigits(group: bytes)
    requires Escaped(group) && (HighSurrogate(Code(group)) || LowSurrogate(Code(group)))
    ensures HexDigits(group[2..])
  {
  }

  lemma RfcPiecePaired(p: Piece)
    requires GoodPiece(Rfc, p)
    ensures Paired(PieceText(p))
  {
    match p
    case Plain(b) => assert [b][1..] == [];
    case Short(letter) => assert [BACKSLASH, letter][2..] == [];
    case Unicode(group) => GroupPaired(group);
    case Pair(high, low) =>
      SurrogateHasDigits(high);
      SurrogateHasDigits(low);
      GroupPaired(high);
      GroupPaired(low);
      PairedAppend(high, low);
    case LoneBackslash =>
  }

  lemma {:induction false} RfcPiecesPaired(ps: seq<Piece>)
    requires GoodPieces(Rfc, ps)
    ensures Paired(PiecesText(ps))
    decreases |ps|
  {
    hide GoodPiece, PieceText, Paired;
    NothingPaired();
    if ps != [] {
      assert !ps[0].LoneBackslash? by { NoLoneBackslash(ps[0]); }
      RfcPiecePaired(ps[0]);
      RestGood(Rfc, ps);
      RfcPiecesPaired(ps[1..]);
      PairedAppend(PieceText(ps[0]), PiecesText(ps[1..]));
    }
  }

  lemma NothingPaired()
    ensures Paired([])
  {
  }

  lemma NoLoneBackslash(p: Piece)
    requires GoodPiece(Rfc, p)
    ensures !p.LoneBackslash?
  {
  }

  lemma RestGood(rules: Rules, ps: seq<Piece>)
    requires GoodPieces(rules, ps) && ps != []
    ensures GoodPiece(rules, ps[0]) && GoodPieces(rules, ps[1..]) && (ps[0].LoneBackslash? ==> ps[1..] == [])
  {
    hide GoodPiece;
    assert forall k :: 0 <= k < |ps[1..]| ==> ps[1..][k] == ps[k + 1];
  }

  lemma GoodIsLenient(rules: Rules, ps: seq<Piece>)
    requires GoodString(rules, ps)
    ensures GoodString(Lenient, ps)
  {
    if rules.Rfc? {
      RfcPiecesPaired(ps);
      hide PiecesText, Paired;
      forall k | 0 <= k < |ps|
        ensures GoodPiece(Lenient, ps[k])
      {
        assert GoodPiece(Rfc, ps[k]);
      }
    }
  }

  lemma BlanksAreLenient(rules: Rules, t: bytes)
    requires Blanks(rules, t)
    ensures Blanks(Lenient, t)
  {
  }

  lemma {:induction false} FollowsLeniently(rules: Rules, d: Doc)
    requires Follows(rules, d)
    ensures Follows(Lenient, d)
    decreases d, 0
  {
    hide GoodString, Blanks;
    match d
    case StringDoc(ps) => GoodIsLenient(rules, ps);
    case ArrayDoc(blanks, items) =>
      BlanksAreLenient(rules, blanks);
      ItemsFollowLeniently(rules, items);
    case ObjectDoc(blanks, entries) =>
      BlanksAreLenient(rules, blanks);
      EntriesFollowLeniently(rules, entries);
    case _ =>
  }

  lemma {:induction false} ItemsFollowLeniently(rules: Rules, items: seq<Item>)
    requires ItemsFollow(rules, items)
    ensures ItemsFollow(Lenient, items)
    decreases items, 0
  {
    hide Follows, Blanks;
    if items != [] {
      BlanksAreLenient(rules, items[0].lead);
      FollowsLeniently(rules, items[0].value);
      BlanksAreLenient(rules, items[0].trail);
      ItemsFollowLeniently(rules, items[1..]);
    }
  }

  lemma {:induction false} EntriesFollowLeniently(rules: Rules, entries: seq<Entry>)
    requires EntriesFollow(rules, entries)
    ensures EntriesFollow(Lenient, entries)
    decreases entries, 0
  {
    hide Follows, GoodEntry;
    if entries != [] {
      EntryIsLenient(rules, entries[0]);
      FollowsLeniently(rules, entries[0].value);
      EntriesFollowLeniently(rules, entries[1..]);
    }
  }

  lemma EntryIsLenient(rules: Rules, e: Entry)
    requires GoodEntry(rules, e)
    ensures GoodEntry(Lenient, e)
  {
    hide GoodString, Blanks;
    BlanksAreLenient(rules, e.lead);
    GoodIsLenient(rules, e.key);
    BlanksAreLenient(rules, e.beforeColon);
    BlanksAreLenient(rules, e.afterColon);
    BlanksAreLenient(rules, e.trail);
  }

  // When the tree holds all characters.

  /** The character U+0000, written as a \u group, or as it is where the rules allow that. */
  predicate IsNul(p: Piece) {
    match p
    case Plain(b) => b == NUL
    case Unicode(group) => Code(group) == 0
    case _ => false
  }

  predicate NoNul(ps: seq<Piece>) {
    forall k :: 0 <= k < |ps| ==> !IsNul(ps[k])
  }

  predicate DocNoNul(d: Doc) {
    match d
    case StringDoc(ps) => NoNul(ps)
    case ArrayDoc(_, items) => ItemsNoNul(items)
    case ObjectDoc(_, entries) => EntriesNoNul(entries)
    case _ => true
  }

  predicate ItemsNoNul(items: seq<Item>) {
    items == [] || (DocNoNul(items[0].value) && ItemsNoNul(items[1..]))
  }

  predicate EntriesNoNul(entries: seq<Entry>) {
    entries == [] || (NoNul(entries[0].key) && DocNoNul(entries[0].value) && EntriesNoNul(entries[1..]))
  }

  lemma EncodedNul(c: nat)
    requires c <= 0x10FFFF
    ensures NulFree(EncodeUtf8(c)) <==> c != 0
  {
    if c == 0 {
      assert EncodeUtf8(c)[0] == NUL;
    }
  }

  lemma PieceNul(p: Piece)
    requires GoodPiece(Lenient, p)
    ensures NulFree(PieceMeaning(p)) <==> !IsNul(p)
  {
    hide EncodeUtf8;
    match p
    case Plain(b) => assert [b][0] == b;
    case Unicode(group) => EncodedNul(Code(group));
    case Pair(high, low) => EncodedNul(PairValue(Code(high), Code(low)));
    case _ =>
  }

  lemma {:induction false} PiecesNul(ps: seq<Piece>)
    requires GoodPieces(Lenient, ps)
    ensures NulFree(PiecesMeaning(ps)) <==> NoNul(ps)
    decreases |ps|
  {
    hide GoodPiece, PieceMeaning, NulFree, IsNul, GoodPieces;
    if ps == [] {
      NothingNul();
    } else {
      RestGood(Lenient, ps);
      PieceNul(ps[0]);
      PiecesNul(ps[1..]);
      NulFreeConcat(PieceMeaning(ps[0]), PiecesMeaning(ps[1..]));
      assert forall k :: 0 <= k < |ps[1..]| ==> ps[1..][k] == ps[k + 1];
      assert forall k :: 1 <= k < |ps| ==> ps[k] == ps[1..][k - 1];
    }
  }

  lemma NothingNul()
    ensures NulFree([])
  {
  }

  /** A string keeps all its characters if and only if none of them is U+0000. */
  lemma StringWhole(ps: seq<Piece>)
    requires GoodPieces(Lenient, ps)
    ensures UpToNul(PiecesMeaning(ps)) == PiecesMeaning(ps) <==> NoNul(ps)
  {
    hide PiecesMeaning, GoodPieces, NoNul;
    PiecesNul(ps);
    if NulFree(PiecesMeaning(ps)) {
      UpToNulOfNulFree(PiecesMeaning(ps));
    }
  }

  lemma {:induction false} DocWhole(d: Doc)
    requires Follows(Lenient, d)
    ensures DocValue(d) == DocMeaning(d) <==> DocNoNul(d)
    decreases d, 0
  {
    hide GoodPieces, Paired, PiecesText, PiecesMeaning, UpToNul, NoNul, NumberValue, Blanks;
    match d
    case StringDoc(ps) => StringWhole(ps);
    case ArrayDoc(_, items) => ItemsWhole(items);
    case ObjectDoc(_, entries) => EntriesWhole(entries);
    case _ =>
  }

  lemma {:induction false} ItemsWhole(items: seq<Item>)
    requires ItemsFollow(Lenient, items)
    ensures ItemsValue(items) == ItemsMeaning(items) <==> ItemsNoNul(items)
    decreases items, 0
  {
    hide Follows, DocValue, DocMeaning, DocNoNul, Blanks;
    if items != [] {
      DocWhole(items[0].value);
      ItemsWhole(items[1..]);
      HeadAndRest([DocValue(items[0].value)], ItemsValue(items[1..]),
                  [DocMeaning(items[0].value)], ItemsMeaning(items[1..]));
    }
  }

  lemma HeadAndRest<T>(a: seq<T>, b: seq<T>, c: seq<T>, d: seq<T>)
    requires |a| == |c| == 1
    ensures a + b == c + d <==> a[0] == c[0] && b == d
  {
    if a + b == c + d {
      assert (a + b)[0] == a[0] && (c + d)[0] == c[0];
      assert (a + b)[1..] == b && (c + d)[1..] == d;
    }
  }

  lemma {:induction false} EntriesWhole(entries: seq<Entry>)
    requires EntriesFollow(Lenient, entries)
    ensures EntriesValue(entries) == EntriesMeaning(entries) <==> EntriesNoNul(entries)
    decreases entries, 0
  {
    hide Follows, DocValue, DocMeaning, DocNoNul, Blanks, GoodPieces, Paired, PiecesMeaning, UpToNul, NoNul;
    if entries != [] {
      var e := entries[0];
      StringWhole(e.key);
      DocWhole(e.value);
      EntriesWhole(entries[1..]);
      HeadAndRest([Member(UpToNul(PiecesMeaning(e.key)), DocValue(e.value))], EntriesValue(entries[1..]),
                  [Member(PiecesMeaning(e.key), DocMeaning(e.value))], EntriesMeaning(entries[1..]));
    }
  }
}
