/** cJSON_Compare on two trees that share no item, and what it decides: equality of the
    trees once objects are read as maps from keys to values. */
module Comparison {
  import opened Bytes
  import opened Heap

  /** tolower in the C locale */
  function Lower(b: byte): byte {
    if 0x41 <= b <= 0x5A then b + 0x20 else b
  }

  function Fold(s: bytes): bytes {
    if s == [] then [] else [Lower(s[0])] + Fold(s[1..])
  }

  predicate IsLetter(b: byte) {
    'A' as int <= b <= 'Z' as int || 'a' as int <= b <= 'z' as int
  }

  /** The same byte, or one letter of ASCII in both cases, which are 0x20 apart. */
  predicate SameLetter(a: byte, b: byte) {
    a == b || (IsLetter(a) && IsLetter(b) && (a == b + 0x20 || b == a + 0x20))
  }

  predicate SameButCase(s: bytes, t: bytes) {
    |s| == |t| && forall k :: 0 <= k < |s| ==> SameLetter(s[k], t[k])
  }

  lemma LowerIs(a: byte, b: byte)
    ensures Lower(a) == Lower(b) <==> SameLetter(a, b)
  {
  }

  /** Folding tells apart exactly the texts that differ in more than the case of letters. */
  lemma {:induction false} FoldIs(s: bytes, t: bytes)
    ensures Fold(s) == Fold(t) <==> SameButCase(s, t)
    decreases |s|
  {
    hide Lower, SameLetter;
    if s != [] && t != [] {
      LowerIs(s[0], t[0]);
      FoldIs(s[1..], t[1..]);
      assert Fold(s)[0] == Lower(s[0]) && Fold(t)[0] == Lower(t[0]);
      assert Fold(s)[1..] == Fold(s[1..]) && Fold(t)[1..] == Fold(t[1..]);
      SameButCaseInTurn(s, t);
    }
  }

  lemma SameButCaseInTurn(s: bytes, t: bytes)
    requires s != [] && t != []
    ensures SameButCase(s, t) <==> SameLetter(s[0], t[0]) && SameButCase(s[1..], t[1..])
  {
    hide SameLetter;
    if SameLetter(s[0], t[0]) && SameButCase(s[1..], t[1..]) {
      assert forall k :: 1 <= k < |s| ==> s[k] == s[1..][k - 1] && t[k] == t[1..][k - 1];
    }
    if SameButCase(s, t) {
      assert forall k :: 0 <= k < |s| - 1 ==> s[k + 1] == s[1..][k] && t[k + 1] == t[1..][k];
    }
  }

  /** Both names are there and the same, under the chosen case rule. */
  predicate SameName(a: Option<Block>, b: Option<Block>, caseSensitive: bool) {
    a.Some? && b.Some? && if caseSensitive then Text(a) == Text(b) else SameButCase(Text(a), Text(b))
  }

  /** Two names match under the chosen case rule when these are there and equal. */
  function Folded(name: Option<Block>, caseSensitive: bool): Option<bytes> {
    if name.None? then None else Some(if caseSensitive then Text(name) else Fold(Text(name)))
  }

  function Key(n: Node, caseSensitive: bool): Option<bytes> {
    Folded(n.name, caseSensitive)
  }

  lemma FoldedIs(a: Option<Block>, b: Option<Block>, caseSensitive: bool)
    ensures a.Some? && Folded(a, caseSensitive) == Folded(b, caseSensitive) <==> SameName(a, b, caseSensitive)
  {
    hide Fold, SameButCase, Text;
    FoldIs(Text(a), Text(b));
  }

  /** No name, or none to look for, is no match. */
  predicate Fits(n: Node, key: Option<bytes>, caseSensitive: bool) {
    key.Some? && Key(n, caseSensitive) == key
  }

  /** The index of the first item whose name matches; the length of the chain if none does. */
  function Find(chain: seq<Node>, key: Option<bytes>, caseSensitive: bool): (i: nat)
    ensures i <= |chain|
    ensures i < |chain| ==> Fits(chain[i], key, caseSensitive)
    ensures forall j :: 0 <= j < i ==> !Fits(chain[j], key, caseSensitive)
  {
    if chain == [] then 0
    else if Fits(chain[0], key, caseSensitive) then 0
    else
      var i := Find(chain[1..], key, caseSensitive);
      MismatchesShift(chain, i, key, caseSensitive);
      1 + i
  }

  lemma MismatchesShift(chain: seq<Node>, i: nat, key: Option<bytes>, caseSensitive: bool)
    requires chain != [] && i <= |chain| - 1 && !Fits(chain[0], key, caseSensitive)
    requires forall j :: 0 <= j < i ==> !Fits(chain[1..][j], key, caseSensitive)
    ensures forall j :: 0 <= j < i + 1 ==> !Fits(chain[j], key, caseSensitive)
    ensures i < |chain| - 1 ==> chain[1..][i] == chain[1 + i]
  {
    hide Fits;
    forall j | 0 <= j < i + 1
      ensures !Fits(chain[j], key, caseSensitive)
    {
      if j > 0 {
        assert chain[1..][j - 1] == chain[j];
      }
    }
  }

  lemma FindIs(chain: seq<Node>, key: Option<bytes>, caseSensitive: bool, i: nat)
    requires i <= |chain|
    requires i < |chain| ==> Fits(chain[i], key, caseSensitive)
    requires forall j :: 0 <= j < i ==> !Fits(chain[j], key, caseSensitive)
    ensures Find(chain, key, caseSensitive) == i
  {
  }

  function Height(n: Node): (h: nat)
    ensures forall i :: 0 <= i < |n.child| ==> Height(n.child[i]) < h
    decreases n, 0
  {
    1 + ChainHeight(n.child)
  }

  function ChainHeight(chain: seq<Node>): (h: nat)
    ensures forall i :: 0 <= i < |chain| ==> Height(chain[i]) <= h
    decreases chain, 1
  {
    if chain == [] then 0
    else
      var h, t := Height(chain[0]), ChainHeight(chain[1..]);
      assert forall i :: 1 <= i < |chain| ==> chain[i] == chain[1..][i - 1];
      if h >= t then h else t
  }

  /** What cJSON_Compare answers for two different items. */
  predicate Alike(a: Node, b: Node, caseSensitive: bool)
    decreases Height(a) + Height(b), 1
  {
    && a.kind == b.kind
    && match a.kind
       case Invalid => false
       case IsNumber => a.valuedouble == b.valuedouble
       case IsString => a.valuestring.Some? && b.valuestring.Some? && Text(a.valuestring) == Text(b.valuestring)
       case IsArray =>
         && |a.child| == |b.child|
         && forall i :: 0 <= i < |a.child| ==> Alike(a.child[i], b.child[i], caseSensitive)
       case IsObject => Covers(a, b, caseSensitive) && Covers(b, a, caseSensitive)
       case _ => true
  }

  /** Every member of `a` has its first match in `b`, with a value that compares equal. */
  predicate Covers(a: Node, b: Node, caseSensitive: bool)
    decreases Height(a) + Height(b), 0
  {
    forall i :: 0 <= i < |a.child| ==> CoveredBy(a.child[i], b, caseSensitive)
  }

  predicate CoveredBy(m: Node, b: Node, caseSensitive: bool)
    decreases Height(m) + Height(b)
  {
    var j := Find(b.child, Key(m, caseSensitive), caseSensitive);
    j < |b.child| && Alike(m, b.child[j], caseSensitive)
  }

  // Where strcmp meets only names that are there.

  /** With strcmp, comparing looks for no name behind a member without one, as far as it
      gets. The second of the two loops over objects needs no condition of its own. */
  predicate Searchable(a: Node, b: Node)
    decreases Height(a) + Height(b), 1
  {
    && (a.kind == b.kind == IsArray ==> ItemsSearchable(a, b))
    && (a.kind == b.kind == IsObject ==> MembersSearchable(a, b))
  }

  predicate ItemsSearchable(a: Node, b: Node)
    decreases Height(a) + Height(b), 0
  {
    forall i ::
      0 <= i < |a.child| && i < |b.child| && (forall k :: 0 <= k < i ==> Alike(a.child[k], b.child[k], true))
      ==> Searchable(a.child[i], b.child[i])
  }

  predicate MembersSearchable(a: Node, b: Node)
    decreases Height(a) + Height(b), 0
  {
    forall i :: 0 <= i < |a.child| && (forall k :: 0 <= k < i ==> CoveredBy(a.child[k], b, true))
      ==> MemberSearchable(a.child[i], b)
  }

  predicate MemberSearchable(m: Node, b: Node)
    decreases Height(m) + Height(b)
  {
    var j := Find(b.child, Key(m, true), true);
    m.name.Some? ==> AllNamed(b.child[..j]) && (j < |b.child| ==> Searchable(m, b.child[j]))
  }

  // The reference: trees as values, objects as maps.

  datatype Value =
    | Plain(kind: Kind)
    | Numeric(number: real)
    | Textual(text: bytes)
    | Listing(items: seq<Value>)
    | Mapping(members: map<bytes, Value>)

  function ValueOf(n: Node, caseSensitive: bool): Value {
    match n.kind
    case IsNumber => Numeric(n.valuedouble)
    case IsString => Textual(Text(n.valuestring))
    case IsArray => Listing(ValuesOf(n.child, caseSensitive))
    case IsObject => Mapping(MembersOf(n.child, caseSensitive))
    case _ => Plain(n.kind)
  }

  function ValuesOf(chain: seq<Node>, caseSensitive: bool): (r: seq<Value>)
    ensures |r| == |chain|
    ensures forall i :: 0 <= i < |chain| ==> r[i] == ValueOf(chain[i], caseSensitive)
  {
    if chain == [] then []
    else [ValueOf(chain[0], caseSensitive)] + ValuesOf(chain[1..], caseSensitive)
  }

  /** Of two members with the same key the first one counts, and one without a name does not. */
  function MembersOf(chain: seq<Node>, caseSensitive: bool): map<bytes, Value> {
    if chain == [] then map[]
    else
      var key, rest := Key(chain[0], caseSensitive), MembersOf(chain[1..], caseSensitive);
      if key.None? then rest else rest[key.value := ValueOf(chain[0], caseSensitive)]
  }

  lemma {:induction false} MembersLookup(chain: seq<Node>, key: bytes, caseSensitive: bool)
    ensures var j := Find(chain, Some(key), caseSensitive);
            var m := MembersOf(chain, caseSensitive);
            (key in m <==> j < |chain|)
            && (j < |chain| ==> m[key] == ValueOf(chain[j], caseSensitive))
    decreases |chain|
  {
    if chain != [] {
      MembersLookup(chain[1..], key, caseSensitive);
    }
  }

  /** No item is invalid, no string lacks its text, and the members of an object have names
      and agree where these match. */
  predicate Consistent(n: Node, caseSensitive: bool) {
    && n.kind != Invalid
    && (n.kind == IsString ==> n.valuestring.Some?)
    && (n.kind == IsArray || n.kind == IsObject ==> AllConsistent(n.child, caseSensitive))
    && (n.kind == IsObject ==> KeysAgree(n.child, caseSensitive))
  }

  predicate AllConsistent(chain: seq<Node>, caseSensitive: bool) {
    forall i :: 0 <= i < |chain| ==> Consistent(chain[i], caseSensitive)
  }

  predicate KeysAgree(chain: seq<Node>, caseSensitive: bool) {
    AllNamed(chain)
    && forall i, j ::
      0 <= i < |chain| && 0 <= j < |chain| && Key(chain[i], caseSensitive) == Key(chain[j], caseSensitive)
      ==> ValueOf(chain[i], caseSensitive) == ValueOf(chain[j], caseSensitive)
  }

  predicate DistinctKeys(chain: seq<Node>, caseSensitive: bool) {
    AllNamed(chain)
    && forall i, j :: 0 <= i < j < |chain| ==> Key(chain[i], caseSensitive) != Key(chain[j], caseSensitive)
  }

  lemma DistinctKeysAgree(chain: seq<Node>, caseSensitive: bool)
    requires DistinctKeys(chain, caseSensitive)
    ensures KeysAgree(chain, caseSensitive)
  {
    hide ValueOf, Key;
  }

  /** `m` gives every key of the chain the value it has there. */
  predicate Holds(m: map<bytes, Value>, chain: seq<Node>, caseSensitive: bool) {
    forall i :: 0 <= i < |chain| ==> Maps(m, chain[i], caseSensitive)
  }

  predicate Maps(m: map<bytes, Value>, n: Node, caseSensitive: bool) {
    var key := Key(n, caseSensitive);
    key.Some? && key.value in m && m[key.value] == ValueOf(n, caseSensitive)
  }

  /** The map gives the name of `n` the value of the first item with that name. */
  predicate LookedUp(chain: seq<Node>, n: Node, caseSensitive: bool) {
    var key, m := Key(n, caseSensitive), MembersOf(chain, caseSensitive);
    key.Some?
    && var j := Find(chain, key, caseSensitive);
       j < |chain| && key.value in m && m[key.value] == ValueOf(chain[j], caseSensitive)
  }

  lemma AgreeingKeys(chain: seq<Node>, caseSensitive: bool)
    ensures KeysAgree(chain, caseSensitive)
       <==> Holds(MembersOf(chain, caseSensitive), chain, caseSensitive)
  {
    hide ValueOf, Key, MembersOf;
    forall i | 0 <= i < |chain|
      ensures chain[i].name.Some? ==> LookedUp(chain, chain[i], caseSensitive)
      ensures Key(chain[i], caseSensitive).Some? <==> chain[i].name.Some?
    {
      NamedHasKey(chain[i], caseSensitive);
      if chain[i].name.Some? {
        MembersLookup(chain, Key(chain[i], caseSensitive).value, caseSensitive);
      }
    }
  }

  lemma NamedHasKey(n: Node, caseSensitive: bool)
    ensures Key(n, caseSensitive).Some? <==> n.name.Some?
  {
    hide Fold, Text;
  }

  lemma SameMap(a: seq<Node>, b: seq<Node>, caseSensitive: bool)
    ensures var p, q := MembersOf(a, caseSensitive), MembersOf(b, caseSensitive);
            Holds(q, a, caseSensitive) && Holds(p, b, caseSensitive)
            <==> p == q && Holds(p, a, caseSensitive) && Holds(q, b, caseSensitive)
  {
    hide ValueOf, Key, MembersOf;
    var p, q := MembersOf(a, caseSensitive), MembersOf(b, caseSensitive);
    if Holds(q, a, caseSensitive) && Holds(p, b, caseSensitive) {
      Included(a, q, caseSensitive);
      Included(b, p, caseSensitive);
      assert p == q;
    }
  }

  lemma Included(a: seq<Node>, q: map<bytes, Value>, caseSensitive: bool)
    requires Holds(q, a, caseSensitive)
    ensures var p := MembersOf(a, caseSensitive);
            forall key :: key in p ==> key in q && q[key] == p[key]
  {
    hide ValueOf, Key, MembersOf;
    var p := MembersOf(a, caseSensitive);
    forall key | key in p
      ensures key in q && q[key] == p[key]
    {
      MembersLookup(a, key, caseSensitive);
      assert Maps(q, a[Find(a, Some(key), caseSensitive)], caseSensitive);
    }
  }

  /** cJSON_Compare decides equality of the values, on exactly the trees whose repeated
      keys agree; on others it is false. */
  lemma {:induction false} AlikeIsEquality(a: Node, b: Node, caseSensitive: bool)
    ensures Alike(a, b, caseSensitive)
       <==> Consistent(a, caseSensitive) && Consistent(b, caseSensitive)
            && ValueOf(a, caseSensitive) == ValueOf(b, caseSensitive)
    decreases Height(a) + Height(b), 2
  {
    hide Covers, KeysAgree, AllConsistent, ValuesOf, MembersOf, Text, Height;
    if a.kind == b.kind == IsArray {
      ItemsAlike(a, b, caseSensitive);
    } else if a.kind == b.kind == IsObject {
      MembersAlike(a, b, caseSensitive);
    }
  }

  lemma {:induction false} ItemsAlike(a: Node, b: Node, caseSensitive: bool)
    ensures (|a.child| == |b.child|
             && forall i :: 0 <= i < |a.child| ==> Alike(a.child[i], b.child[i], caseSensitive))
       <==> AllConsistent(a.child, caseSensitive) && AllConsistent(b.child, caseSensitive)
            && ValuesOf(a.child, caseSensitive) == ValuesOf(b.child, caseSensitive)
    decreases Height(a) + Height(b), 0
  {
    hide Alike, Consistent, ValueOf;
    var p, q := ValuesOf(a.child, caseSensitive), ValuesOf(b.child, caseSensitive);
    if |a.child| == |b.child| {
      forall i | 0 <= i < |a.child| {
        AlikeIsEquality(a.child[i], b.child[i], caseSensitive);
      }
      assert p == q <==> forall i :: 0 <= i < |p| ==> p[i] == q[i];
    }
  }

  lemma {:induction false} MembersAlike(a: Node, b: Node, caseSensitive: bool)
    ensures (Covers(a, b, caseSensitive) && Covers(b, a, caseSensitive))
       <==> (AllConsistent(a.child, caseSensitive) && AllConsistent(b.child, caseSensitive)
             && KeysAgree(a.child, caseSensitive) && KeysAgree(b.child, caseSensitive)
             && MembersOf(a.child, caseSensitive) == MembersOf(b.child, caseSensitive))
    decreases Height(a) + Height(b), 1
  {
    hide *;
    CoversMeans(a, b, caseSensitive);
    CoversMeans(b, a, caseSensitive);
    SameMap(a.child, b.child, caseSensitive);
    AgreeingKeys(a.child, caseSensitive);
    AgreeingKeys(b.child, caseSensitive);
  }

  lemma {:induction false} CoversMeans(a: Node, b: Node, caseSensitive: bool)
    ensures Covers(a, b, caseSensitive)
        ==> AllConsistent(a.child, caseSensitive)
            && Holds(MembersOf(b.child, caseSensitive), a.child, caseSensitive)
    ensures AllConsistent(a.child, caseSensitive) && AllConsistent(b.child, caseSensitive)
            && Holds(MembersOf(b.child, caseSensitive), a.child, caseSensitive)
        ==> Covers(a, b, caseSensitive)
    decreases Height(a) + Height(b), 0
  {
    hide CoveredBy, Consistent, Maps, MembersOf, Height;
    forall i | 0 <= i < |a.child| {
      CoveredMeans(a.child[i], b, caseSensitive);
    }
  }

  lemma {:induction false} CoveredMeans(m: Node, b: Node, caseSensitive: bool)
    ensures CoveredBy(m, b, caseSensitive)
        ==> Consistent(m, caseSensitive) && Maps(MembersOf(b.child, caseSensitive), m, caseSensitive)
    ensures Consistent(m, caseSensitive) && AllConsistent(b.child, caseSensitive)
            && Maps(MembersOf(b.child, caseSensitive), m, caseSensitive)
        ==> CoveredBy(m, b, caseSensitive)
    decreases Height(m) + Height(b)
  {
    hide Alike, Consistent, MembersOf, Height, Key, ValueOf, Find;
    if Key(m, caseSensitive).Some? {
      MembersLookup(b.child, Key(m, caseSensitive).value, caseSensitive);
    }
    var j := Find(b.child, Key(m, caseSensitive), caseSensitive);
    if j < |b.child| {
      AlikeIsEquality(m, b.child[j], caseSensitive);
    }
  }

  /** Repeated keys agree: members of the same name, whatever the case of its letters where
      case does not count, compare equal. */
  lemma KeysAgreeIs(chain: seq<Node>, caseSensitive: bool)
    requires AllConsistent(chain, caseSensitive)
    ensures KeysAgree(chain, caseSensitive)
       <==> AllNamed(chain)
            && forall i, j :: 0 <= i < |chain| && 0 <= j < |chain|
                 && SameName(chain[i].name, chain[j].name, caseSensitive)
                 ==> Alike(chain[i], chain[j], caseSensitive)
  {
    hide Consistent, Alike, ValueOf, Folded, SameName;
    forall i, j | 0 <= i < |chain| && 0 <= j < |chain|
      ensures Alike(chain[i], chain[j], caseSensitive)
         <==> ValueOf(chain[i], caseSensitive) == ValueOf(chain[j], caseSensitive)
      ensures SameName(chain[i].name, chain[j].name, caseSensitive)
         <==> chain[i].name.Some? && Key(chain[i], caseSensitive) == Key(chain[j], caseSensitive)
    {
      AlikeIsEquality(chain[i], chain[j], caseSensitive);
      FoldedIs(chain[i].name, chain[j].name, caseSensitive);
    }
  }

  /** `b` has a member of that name that compares equal. */
  predicate HasLike(b: Node, m: Node, caseSensitive: bool) {
    exists j :: 0 <= j < |b.child| && SameName(m.name, b.child[j].name, caseSensitive)
                && Alike(m, b.child[j], caseSensitive)
  }

  /** Two objects compare equal if and only if each member of the one has in the other a member
      of the same name, whatever the case of its letters where case does not count, that
      compares equal; provided neither object contradicts itself. */
  lemma ObjectsAlike(a: Node, b: Node, caseSensitive: bool)
    requires a.kind == b.kind == IsObject && Consistent(a, caseSensitive) && Consistent(b, caseSensitive)
    ensures Alike(a, b, caseSensitive)
       <==> (forall i :: 0 <= i < |a.child| ==> HasLike(b, a.child[i], caseSensitive))
            && forall i :: 0 <= i < |b.child| ==> HasLike(a, b.child[i], caseSensitive)
  {
    hide Consistent, CoveredBy, HasLike;
    forall i | 0 <= i < |a.child|
      ensures CoveredBy(a.child[i], b, caseSensitive) <==> HasLike(b, a.child[i], caseSensitive)
    {
      CoveredIsLike(a.child[i], b, caseSensitive);
    }
    forall i | 0 <= i < |b.child|
      ensures CoveredBy(b.child[i], a, caseSensitive) <==> HasLike(a, b.child[i], caseSensitive)
    {
      CoveredIsLike(b.child[i], a, caseSensitive);
    }
  }

  lemma CoveredIsLike(m: Node, b: Node, caseSensitive: bool)
    requires b.kind == IsObject && Consistent(b, caseSensitive)
    ensures CoveredBy(m, b, caseSensitive) <==> HasLike(b, m, caseSensitive)
  {
    hide Alike, AllConsistent, ValueOf, Folded, SameName, Find;
    var j := Find(b.child, Key(m, caseSensitive), caseSensitive);
    FirstFits(m, b, caseSensitive);
    if HasLike(b, m, caseSensitive) {
      var k :| 0 <= k < |b.child| && SameName(m.name, b.child[k].name, caseSensitive)
               && Alike(m, b.child[k], caseSensitive);
      AlikeIsEquality(m, b.child[k], caseSensitive);
      AlikeIsEquality(m, b.child[j], caseSensitive);
      ChildConsistent(b, j, caseSensitive);
    }
  }

  lemma ChildConsistent(n: Node, i: nat, caseSensitive: bool)
    requires n.kind == IsObject && Consistent(n, caseSensitive) && i < |n.child|
    ensures Consistent(n.child[i], caseSensitive)
  {
  }

  /** The first match has the name, and so has every other match. */
  lemma FirstFits(m: Node, b: Node, caseSensitive: bool)
    ensures var j := Find(b.child, Key(m, caseSensitive), caseSensitive);
            (j < |b.child| ==> SameName(m.name, b.child[j].name, caseSensitive))
            && forall k :: 0 <= k < |b.child| && SameName(m.name, b.child[k].name, caseSensitive)
                 ==> j < |b.child| && Key(b.child[k], caseSensitive) == Key(b.child[j], caseSensitive)
  {
    hide Folded, SameName;
    forall k | 0 <= k < |b.child|
      ensures Fits(b.child[k], Key(m, caseSensitive), caseSensitive)
         <==> SameName(m.name, b.child[k].name, caseSensitive)
    {
      FoldedIs(m.name, b.child[k].name, caseSensitive);
      NamedHasKey(m, caseSensitive);
    }
  }

  /** It is enough that the members of the second tree have names. */
  lemma {:induction false} NamedIsSearchable(a: Node, b: Node)
    requires Named(b)
    ensures Searchable(a, b)
    decreases Height(a) + Height(b), 1
  {
    hide Alike, CoveredBy, MemberSearchable, Height;
    if a.kind == b.kind == IsArray {
      forall i | 0 <= i < |a.child| && i < |b.child|
        ensures Searchable(a.child[i], b.child[i])
      {
        NamedIsSearchable(a.child[i], b.child[i]);
      }
    } else if a.kind == b.kind == IsObject {
      forall i | 0 <= i < |a.child|
        ensures MemberSearchable(a.child[i], b)
      {
        NamedForMember(a.child[i], b);
      }
    }
  }

  lemma {:induction false} NamedForMember(m: Node, b: Node)
    requires AllOfNamed(b.child) && AllNamed(b.child)
    ensures MemberSearchable(m, b)
    decreases Height(m) + Height(b)
  {
    hide Named, Searchable, Find, Key, Height;
    var j := Find(b.child, Key(m, true), true);
    if j < |b.child| {
      NamedIsSearchable(m, b.child[j]);
    }
  }

  lemma {:induction false} ConsistentIsNamed(n: Node, caseSensitive: bool)
    requires Consistent(n, caseSensitive)
    ensures Named(n)
    decreases n
  {
    if n.kind == IsArray || n.kind == IsObject {
      forall i | 0 <= i < |n.child|
        ensures Named(n.child[i])
      {
        ConsistentIsNamed(n.child[i], caseSensitive);
      }
    }
  }

  /** Once the first loop has come through, every member of `a` has a name. */
  lemma SecondLoopSearches(a: Node, b: Node)
    requires Covers(a, b, true)
    ensures MembersSearchable(b, a)
  {
    hide Covers, Consistent, Named, MembersOf, CoveredBy, MemberSearchable, Key, ValueOf;
    CoversMeans(a, b, true);
    forall i | 0 <= i < |a.child|
      ensures a.child[i].name.Some? && Named(a.child[i])
    {
      assert Maps(MembersOf(b.child, true), a.child[i], true);
      NamedHasKey(a.child[i], true);
      ConsistentIsNamed(a.child[i], true);
    }
    forall i | 0 <= i < |b.child|
      ensures MemberSearchable(b.child[i], a)
    {
      NamedForMember(b.child[i], a);
    }
  }

  /** Trees without invalid items or missing texts whose objects never repeat a key. */
  predicate Unambiguous(n: Node, caseSensitive: bool) {
    && n.kind != Invalid
    && (n.kind == IsString ==> n.valuestring.Some?)
    && (forall i :: 0 <= i < |n.child| ==> Unambiguous(n.child[i], caseSensitive))
    && (n.kind == IsObject ==> DistinctKeys(n.child, caseSensitive))
  }

  lemma {:induction false} UnambiguousIsConsistent(n: Node, caseSensitive: bool)
    requires Unambiguous(n, caseSensitive)
    ensures Consistent(n, caseSensitive)
    decreases n
  {
    hide KeysAgree, DistinctKeys;
    forall i | 0 <= i < |n.child|
      ensures Consistent(n.child[i], caseSensitive)
    {
      UnambiguousIsConsistent(n.child[i], caseSensitive);
    }
    if n.kind == IsObject {
      DistinctKeysAgree(n.child, caseSensitive);
    }
  }

  /** On such trees cJSON_Compare is equality of the values. */
  lemma UnambiguousCompare(a: Node, b: Node, caseSensitive: bool)
    requires Unambiguous(a, caseSensitive) && Unambiguous(b, caseSensitive)
    ensures Alike(a, b, caseSensitive) <==> ValueOf(a, caseSensitive) == ValueOf(b, caseSensitive)
  {
    hide *;
    UnambiguousIsConsistent(a, caseSensitive);
    UnambiguousIsConsistent(b, caseSensitive);
    AlikeIsEquality(a, b, caseSensitive);
  }

  /** Symmetric and transitive everywhere, reflexive on exactly the consistent trees. */
  lemma AlikeIsEquivalence(a: Node, b: Node, c: Node, caseSensitive: bool)
    ensures Alike(a, a, caseSensitive) <==> Consistent(a, caseSensitive)
    ensures Alike(a, b, caseSensitive) <==> Alike(b, a, caseSensitive)
    ensures Alike(a, b, caseSensitive) && Alike(b, c, caseSensitive) ==> Alike(a, c, caseSensitive)
  {
    hide *;
    AlikeIsEquality(a, a, caseSensitive);
    AlikeIsEquality(a, b, caseSensitive);
    AlikeIsEquality(b, a, caseSensitive);
    AlikeIsEquality(b, c, caseSensitive);
    AlikeIsEquality(a, c, caseSensitive);
  }

  /** Objects with the very same members in another order. */
  lemma SameMembersAlike(a: Node, b: Node, caseSensitive: bool)
    requires a.kind == b.kind == IsObject && multiset(a.child) == multiset(b.child)
    requires Consistent(a, caseSensitive)
    ensures Alike(a, b, caseSensitive)
  {
    hide Key, MembersOf, Alike, KeysAgree, AllConsistent;
    Rearranged(a.child, b.child, caseSensitive);
    AlikeIsEquality(a, b, caseSensitive);
  }

  lemma Rearranged(x: seq<Node>, y: seq<Node>, caseSensitive: bool)
    requires multiset(x) == multiset(y)
    requires AllConsistent(x, caseSensitive) && KeysAgree(x, caseSensitive)
    ensures AllConsistent(y, caseSensitive) && KeysAgree(y, caseSensitive)
    ensures MembersOf(x, caseSensitive) == MembersOf(y, caseSensitive)
  {
    hide Consistent, Maps, MembersOf, KeysAgree;
    AgreeingKeys(x, caseSensitive);
    AgreeingKeys(y, caseSensitive);
    Elements(x, y);
    Elements(y, x);
    AlsoAgree(x, y, caseSensitive);
    AlsoConsistent(x, y, caseSensitive);
    AlsoHeld(MembersOf(x, caseSensitive), x, y, caseSensitive);
    AlsoHeld(MembersOf(y, caseSensitive), y, x, caseSensitive);
    SameMap(x, y, caseSensitive);
  }

  lemma Elements(x: seq<Node>, y: seq<Node>)
    requires multiset(x) == multiset(y)
    ensures forall n :: n in y ==> n in x
  {
    forall n | n in y
      ensures n in x
    {
      assert n in multiset(x);
    }
  }

  lemma AlsoConsistent(x: seq<Node>, y: seq<Node>, caseSensitive: bool)
    requires forall n :: n in y ==> n in x
    requires AllConsistent(x, caseSensitive)
    ensures AllConsistent(y, caseSensitive)
  {
    hide Consistent;
    assert forall i :: 0 <= i < |y| ==> y[i] in x;
  }

  lemma AlsoHeld(m: map<bytes, Value>, x: seq<Node>, y: seq<Node>, caseSensitive: bool)
    requires forall n :: n in y ==> n in x
    requires Holds(m, x, caseSensitive)
    ensures Holds(m, y, caseSensitive)
  {
    hide Maps;
    assert forall i :: 0 <= i < |y| ==> y[i] in x;
  }

  lemma AlsoAgree(x: seq<Node>, y: seq<Node>, caseSensitive: bool)
    requires forall n :: n in y ==> n in x
    requires KeysAgree(x, caseSensitive)
    ensures KeysAgree(y, caseSensitive)
  {
    hide ValueOf, Key;
    assert forall i :: 0 <= i < |y| ==> y[i] in x;
    forall i, j |
      0 <= i < |y| && 0 <= j < |y| && Key(y[i], caseSensitive) == Key(y[j], caseSensitive)
      ensures ValueOf(y[i], caseSensitive) == ValueOf(y[j], caseSensitive)
    {
      assert y[i] in x && y[j] in x;
    }
  }

  // The methods.

  lemma FoldStep(s: bytes, t: bytes, k: nat)
    requires k < |s| && k < |t| && Terminated(s) && Terminated(t)
    ensures Lower(s[k]) != Lower(t[k]) ==> Fold(UpToNul(s[k..])) != Fold(UpToNul(t[k..]))
    ensures Lower(s[k]) == Lower(t[k]) && s[k] == NUL ==> Fold(UpToNul(s[k..])) == Fold(UpToNul(t[k..]))
    ensures Lower(s[k]) == Lower(t[k]) && s[k] != NUL
        ==> k + 1 < |s| && k + 1 < |t|
            && (Fold(UpToNul(s[k..])) == Fold(UpToNul(t[k..]))
                <==> Fold(UpToNul(s[k + 1..])) == Fold(UpToNul(t[k + 1..])))
  {
    hide Lower;
    FoldHead(s, k);
    FoldHead(t, k);
    LowerNul(s[k]);
    LowerNul(t[k]);
  }

  lemma LowerNul(b: byte)
    ensures Lower(b) == NUL <==> b == NUL
  {
  }

  lemma FoldHead(s: bytes, k: nat)
    requires k < |s|
    ensures s[k] == NUL ==> Fold(UpToNul(s[k..])) == []
    ensures s[k] != NUL ==>
              Fold(UpToNul(s[k..])) != []
              && Fold(UpToNul(s[k..]))[0] == Lower(s[k])
              && Fold(UpToNul(s[k..]))[1..] == Fold(UpToNul(s[k + 1..]))
  {
    assert s[k..][1..] == s[k + 1..];
    if s[k] != NUL {
      assert UpToNul(s[k..])[1..] == UpToNul(s[k + 1..]);
    }
  }

  /** case_insensitive_strcmp */
  method CaseInsensitiveStrcmp(string1: Option<Block>, string2: Option<Block>) returns (r: int)
    requires TextEnds(string1) && TextEnds(string2)
    ensures string1.None? || string2.None? ==> r == 1
    ensures string1.Some? && string2.Some? ==>
              (r == 0 <==> SameButCase(Text(string1), Text(string2)))
  {
    hide Fold, UpToNul, SameButCase;
    if string1.None? || string2.None? {
      return 1;
    }
    var s, t := string1.value.content, string2.value.content;
    FoldIs(UpToNul(s), UpToNul(t));
    var k := 0;
    assert s[0..] == s && t[0..] == t;
    while Lower(s[k]) == Lower(t[k])
      invariant k < |s| && k < |t|
      invariant Fold(UpToNul(s)) == Fold(UpToNul(t)) <==> Fold(UpToNul(s[k..])) == Fold(UpToNul(t[k..]))
      decreases |s| - k
    {
      FoldStep(s, t, k);
      if s[k] == NUL {
        return 0;
      }
      k := k + 1;
    }
    FoldStep(s, t, k);
    r := Lower(s[k]) - Lower(t[k]);
  }

  /** get_object_item: the index of the first item with that name. With strcmp every item in
      front of it must have one. */
  method GetObjectItem(owner: Option<Node>, name: Option<Block>, caseSensitive: bool)
    returns (found: Option<nat>)
    requires TextEnds(name)
    requires owner.Some? ==> forall i :: 0 <= i < |owner.value.child| ==> TextEnds(owner.value.child[i].name)
    requires owner.Some? && name.Some? && caseSensitive ==>
               AllNamed(owner.value.child[..Find(owner.value.child, Folded(name, true), true)])
    ensures owner.None? || name.None? ==> found == None
    ensures owner.Some? ==>
              var chain := owner.value.child;
              var i := if found.Some? then found.value else |chain|;
              i <= |chain| && (found.Some? ==> i < |chain| && SameName(name, chain[i].name, caseSensitive))
              && forall j :: 0 <= j < i ==> !SameName(name, chain[j].name, caseSensitive)
  {
    hide Folded, UpToNul, Terminated, Find, SameButCase;
    if owner.None? || name.None? {
      return None;
    }
    var chain, i := owner.value.child, 0;
    ghost var first := Find(chain, Folded(name, caseSensitive), caseSensitive);
    while i < |chain|
      invariant i <= |chain| && i <= first
      invariant forall j :: 0 <= j < i ==> !SameName(name, chain[j].name, caseSensitive)
    {
      FoldedIs(name, chain[i].name, caseSensitive);
      if caseSensitive {
        assert i < first ==> chain[..first][i] == chain[i];
        if Text(name) == Text(chain[i].name) {
          return Some(i);
        }
      } else {
        var order := CaseInsensitiveStrcmp(name, chain[i].name);
        if order == 0 {
          return Some(i);
        }
      }
      i := i + 1;
    }
    found := None;
  }

  /** The two trees have no block in common. */
  ghost predicate Apart(a: Node, b: Node) {
    forall id :: id in Blocks(a) ==> id !in Blocks(b)
  }

  lemma {:induction false} ChildBlocks(chain: seq<Node>, i: nat)
    requires i < |chain|
    ensures forall id :: id in Blocks(chain[i]) ==> id in ChainBlocks(chain)
    decreases |chain|
  {
    hide Blocks;
    if i > 0 {
      ChildBlocks(chain[1..], i - 1);
    }
  }

  lemma ChildInTree(n: Node, i: nat)
    requires i < |n.child|
    ensures forall id :: id in Blocks(n.child[i]) ==> id in Blocks(n)
  {
    hide ChainBlocks, BlockIds;
    ChildBlocks(n.child, i);
  }

  lemma ApartChildren(a: Node, b: Node, i: nat, j: nat)
    requires Apart(a, b) && i < |a.child| && j < |b.child|
    ensures Apart(a.child[i], b.child[j])
  {
    hide Blocks;
    ChildInTree(a, i);
    ChildInTree(b, j);
  }

  lemma ApartIds(a: Node, b: Node)
    requires Apart(a, b)
    ensures a.id != b.id && Apart(b, a)
  {
    hide ChainBlocks, BlockIds;
    assert a.id in Blocks(a) && b.id in Blocks(b);
  }

  /** cJSON_Compare: of the same item twice, or of two trees that share nothing. */
  method Compare(a: Option<Node>, b: Option<Node>, caseSensitive: bool) returns (r: bool)
    requires a.Some? ==> Sound(a.value)
    requires b.Some? ==> Sound(b.value)
    requires caseSensitive && a.Some? && b.Some? && a != b ==> Searchable(a.value, b.value)
    requires a.Some? && b.Some? ==> a == b || Apart(a.value, b.value)
    ensures a.Some? && a == b ==> (r <==> a.value.kind != Invalid)
    ensures a.Some? && b.Some? && a != b ==> (r <==> Alike(a.value, b.value, caseSensitive))
    ensures a.None? || b.None? ==> !r
    decreases if a.Some? && b.Some? then Height(a.value) + Height(b.value) else 0, 2
  {
    hide Covers, Sound, ItemsSearchable, MembersSearchable, Apart, Height, UpToNul;
    if a.None? || b.None? || a.value.kind != b.value.kind || a.value.kind == Invalid {
      return false;
    }
    if a != b {
      ApartIds(a.value, b.value);
    }
    if a.value.id == b.value.id {
      return true;
    }
    match a.value.kind
    case IsNumber =>
      r := a.value.valuedouble == b.value.valuedouble;
    case IsString =>
      r := a.value.valuestring.Some? && b.value.valuestring.Some?
           && Text(a.value.valuestring) == Text(b.value.valuestring);
    case IsArray =>
      r := CompareItems(a.value, b.value, caseSensitive);
    case IsObject =>
      r := CompareMembers(a.value, b.value, caseSensitive);
      if r {
        if caseSensitive {
          SecondLoopSearches(a.value, b.value);
        }
        r := CompareMembers(b.value, a.value, caseSensitive);
      }
    case _ =>
      r := true;
  }

  /** The loop over the elements of two arrays. */
  method CompareItems(a: Node, b: Node, caseSensitive: bool) returns (r: bool)
    requires Sound(a) && Sound(b) && Apart(a, b) && (caseSensitive ==> ItemsSearchable(a, b))
    ensures r <==> |a.child| == |b.child|
                   && forall i :: 0 <= i < |a.child| ==> Alike(a.child[i], b.child[i], caseSensitive)
    decreases Height(a) + Height(b), 1
  {
    hide Alike, Apart, Height;
    var i := 0;
    while i < |a.child| && i < |b.child|
      invariant i <= |a.child| && i <= |b.child|
      invariant forall k :: 0 <= k < i ==> Alike(a.child[k], b.child[k], caseSensitive)
    {
      ApartChildren(a, b, i, i);
      ApartIds(a.child[i], b.child[i]);
      var alike := Compare(Some(a.child[i]), Some(b.child[i]), caseSensitive);
      if !alike {
        return false;
      }
      i := i + 1;
    }
    r := i == |a.child| && i == |b.child|;
  }

  lemma NamesEnd(n: Node)
    requires Sound(n)
    ensures forall i :: 0 <= i < |n.child| ==> TextEnds(n.child[i].name)
  {
    forall i | 0 <= i < |n.child|
      ensures TextEnds(n.child[i].name)
    {
      assert Sound(n.child[i]);
    }
  }

  lemma FoundIs(b: Node, m: Node, found: Option<nat>, caseSensitive: bool)
    requires var i := if found.Some? then found.value else |b.child|;
             i <= |b.child| && (found.Some? ==> i < |b.child| && SameName(m.name, b.child[i].name, caseSensitive))
             && forall j :: 0 <= j < i ==> !SameName(m.name, b.child[j].name, caseSensitive)
    ensures Find(b.child, Key(m, caseSensitive), caseSensitive)
         == if found.Some? then found.value else |b.child|
  {
    hide Folded, Find, SameName;
    forall k | 0 <= k < |b.child|
      ensures Fits(b.child[k], Key(m, caseSensitive), caseSensitive)
         <==> SameName(m.name, b.child[k].name, caseSensitive)
    {
      FoldedIs(m.name, b.child[k].name, caseSensitive);
      NamedHasKey(m, caseSensitive);
    }
    FindIs(b.child, Key(m, caseSensitive), caseSensitive, if found.Some? then found.value else |b.child|);
  }

  /** One of the two loops over the members of two objects. */
  method CompareMembers(a: Node, b: Node, caseSensitive: bool) returns (r: bool)
    requires Sound(a) && Sound(b) && Apart(a, b) && a.kind == b.kind == IsObject
    requires caseSensitive ==> MembersSearchable(a, b)
    ensures r <==> Covers(a, b, caseSensitive)
    decreases Height(a) + Height(b), 1
  {
    hide Alike, Apart, Height, Find, Folded, Fits, SameName;
    var i := 0;
    while i < |a.child|
      invariant i <= |a.child|
      invariant forall k :: 0 <= k < i ==> CoveredBy(a.child[k], b, caseSensitive)
    {
      assert Sound(a.child[i]);
      NamesEnd(b);
      var j := GetObjectItem(Some(b), a.child[i].name, caseSensitive);
      FoundIs(b, a.child[i], j, caseSensitive);
      if j.None? {
        return false;
      }
      ApartChildren(a, b, i, j.value);
      ApartIds(a.child[i], b.child[j.value]);
      var alike := Compare(Some(a.child[i]), Some(b.child[j.value]), caseSensitive);
      if !alike {
        return false;
      }
      i := i + 1;
    }
    r := true;
  }
}
