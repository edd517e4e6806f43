/** How much room the printer asks for, piece by piece, and how often its buffer has to grow
    for that. */
module Room {
  import opened Bytes
  import opened JsonTree
  import opened Rendering

  /** The largest size_t of the 32-bit target. */
  const SIZE_MAX: int := 0xFFFF_FFFF

  const DEFAULT_BUFFER_SIZE: nat := 256

  // Texts that print_string_ptr can size: no length of a literal wraps in 32 bits.

  predicate StringsFit(v: Json) {
    match v
    case String(text) => |Quote(text)| < SIZE_MAX
    case Array(items) => ItemsFit(items)
    case Object(members) => MembersFit(members)
    case _ => true
  }

  predicate ItemsFit(items: seq<Json>) {
    items == [] || (StringsFit(items[0]) && ItemsFit(items[1..]))
  }

  predicate MembersFit(members: seq<Member>) {
    members == []
    || (|Quote(members[0].key)| < SIZE_MAX && StringsFit(members[0].value) && MembersFit(members[1..]))
  }

  // What is asked for: the offset behind each piece, its terminator and the byte to spare.

  function Asks(format: bool, depth: nat, v: Json, at: nat): seq<nat>
    requires Printable(v)
    decreases v, 0
  {
    var end := [at + |Render(format, depth, v)| + 2];
    match v
    case Array(items) => [at + 2] + ItemsAsks(format, depth + 1, items, at + 1) + end
    case Object(members) =>
      var inner := at + |OpenBrace(format)|;
      [inner + 2] + MembersAsks(format, depth + 1, members, inner) + end
    case _ => end
  }

  function ItemAsks(format: bool, depth: nat, v: Json, last: bool, at: nat): seq<nat>
    requires Printable(v)
    decreases v, 1
  {
    Asks(format, depth, v, at)
    + if last then [] else [at + |Render(format, depth, v)| + |ItemSeparator(format, false)| + 2]
  }

  function ItemsAsks(format: bool, depth: nat, items: seq<Json>, at: nat): seq<nat>
    requires PrintableItems(items)
    decreases items, 0
  {
    if items == [] then []
    else
      var last := |items| == 1;
      ItemAsks(format, depth, items[0], last, at)
      + ItemsAsks(format, depth, items[1..], at + |Render(format, depth, items[0])| + |ItemSeparator(format, last)|)
  }

  /** Indentation, key and colon; the last two leave out what the pieces behind them ask for. */
  function KeyAsks(format: bool, depth: nat, key: bytes, at: nat): seq<nat> {
    (if format then [at + depth + 1] else [])
    + [at + |Indent(format, depth)| + |Quote(key)| + 2, at + |MemberHead(format, depth, key)| + 1]
  }

  function MemberAsks(format: bool, depth: nat, m: Member, last: bool, at: nat): seq<nat>
    requires Printable(m.value)
    decreases m, 1
  {
    KeyAsks(format, depth, m.key, at)
    + Asks(format, depth, m.value, at + |MemberHead(format, depth, m.key)|)
    + [at + |MemberText(format, depth, m, last)| + 2]
  }

  function MembersAsks(format: bool, depth: nat, members: seq<Member>, at: nat): seq<nat>
    requires PrintableMembers(members)
    decreases members, 0
  {
    if members == [] then []
    else
      var last := |members| == 1;
      MemberAsks(format, depth, members[0], last, at)
      + MembersAsks(format, depth, members[1..], at + |MemberText(format, depth, members[0], last)|)
  }

  // No piece asks for more than two bytes behind the whole text.

  predicate Within(asks: seq<nat>, bound: nat) {
    forall k :: 0 <= k < |asks| ==> asks[k] <= bound
  }

  lemma WithinBoth(a: seq<nat>, b: seq<nat>, bound: nat)
    ensures Within(a + b, bound) <==> Within(a, bound) && Within(b, bound)
  {
    if Within(a + b, bound) {
      assert forall k :: 0 <= k < |a| ==> a[k] == (a + b)[k];
      assert forall k :: 0 <= k < |b| ==> b[k] == (a + b)[|a| + k];
    }
  }

  lemma WithinMore(a: seq<nat>, small: nat, bound: nat)
    requires Within(a, small) && small <= bound
    ensures Within(a, bound)
  {
  }

  lemma {:induction false} AsksWithin(format: bool, depth: nat, v: Json, at: nat)
    requires Printable(v)
    ensures Within(Asks(format, depth, v, at), at + |Render(format, depth, v)| + 2)
    decreases v, 0
  {
    hide *;
    var bound := at + |Render(format, depth, v)| + 2;
    AsksAre(format, depth, v, at);
    Single(bound);
    match v
    case Array(items) =>
      ArrayText(format, depth, items);
      ItemsAsksWithin(format, depth + 1, items, at + 1);
      ThreeWithin(at + 2, ItemsAsks(format, depth + 1, items, at + 1),
                  at + 1 + |RenderItems(format, depth + 1, items)| + 2, bound);
    case Object(members) =>
      ObjectUnfold(format, depth, members);
      var inner := at + |OpenBrace(format)|;
      OpenBraceIs(format);
      MembersAsksWithin(format, depth + 1, members, inner);
      ThreeWithin(inner + 2, MembersAsks(format, depth + 1, members, inner),
                  inner + |RenderMembers(format, depth + 1, members)| + 2, bound);
    case _ =>
  }

  lemma AsksAre(format: bool, depth: nat, v: Json, at: nat)
    requires Printable(v)
    ensures v.Array? ==>
              PrintableItems(v.items)
              && Asks(format, depth, v, at)
                 == [at + 2] + ItemsAsks(format, depth + 1, v.items, at + 1) + [at + |Render(format, depth, v)| + 2]
    ensures v.Object? ==>
              PrintableMembers(v.members)
              && var inner := at + |OpenBrace(format)|;
                 Asks(format, depth, v, at)
                 == [inner + 2] + MembersAsks(format, depth + 1, v.members, inner)
                    + [at + |Render(format, depth, v)| + 2]
    ensures !v.Array? && !v.Object? ==> Asks(format, depth, v, at) == [at + |Render(format, depth, v)| + 2]
  {
    hide Render, OpenBrace, ItemsAsks, MembersAsks;
  }

  lemma OpenBraceIs(format: bool)
    ensures OpenBrace(format) == [LBRACE] + LineEnd(format)
  {
  }

  lemma Single(n: nat)
    ensures Within([n], n)
  {
  }

  lemma ThreeWithin(first: nat, inner: seq<nat>, innerBound: nat, bound: nat)
    requires Within(inner, innerBound) && first <= bound && innerBound <= bound
    ensures Within([first] + inner + [bound], bound)
  {
  }

  lemma {:induction false} ItemsAsksWithin(format: bool, depth: nat, items: seq<Json>, at: nat)
    requires PrintableItems(items)
    ensures Within(ItemsAsks(format, depth, items, at), at + |RenderItems(format, depth, items)| + 2)
    decreases items, 0
  {
    hide Render, Asks, Within, ItemSeparator;
    if items == [] {
      NoAsks(at + |RenderItems(format, depth, items)| + 2);
    } else {
      var last := |items| == 1;
      var separator := |ItemSeparator(format, last)|;
      var end := at + |Render(format, depth, items[0])|;
      var bound := at + |RenderItems(format, depth, items)| + 2;
      AsksWithin(format, depth, items[0], at);
      ItemsAsksWithin(format, depth, items[1..], end + separator);
      WithinMore(Asks(format, depth, items[0], at), end + 2, bound);
      Single(end + separator + 2);
      NoAsks(bound);
      WithinMore([end + separator + 2], end + separator + 2, bound);
      WithinBoth(Asks(format, depth, items[0], at), if last then [] else [end + separator + 2], bound);
      WithinBoth(
        ItemAsks(format, depth, items[0], last, at), ItemsAsks(format, depth, items[1..], end + separator), bound);
    }
  }

  lemma NoAsks(bound: nat)
    ensures Within([], bound)
  {
  }

  lemma KeyAsksWithin(format: bool, depth: nat, key: bytes, at: nat)
    ensures Within(KeyAsks(format, depth, key, at), at + |MemberHead(format, depth, key)| + 1)
  {
    hide Quote;
  }

  lemma {:induction false} MemberAsksWithin(format: bool, depth: nat, m: Member, last: bool, at: nat)
    requires Printable(m.value)
    ensures Within(MemberAsks(format, depth, m, last, at), at + |MemberText(format, depth, m, last)| + 2)
    decreases m, 1
  {
    hide Render, Asks, Within, MemberHead, KeyAsks;
    var value := at + |MemberHead(format, depth, m.key)|;
    var bound := at + |MemberText(format, depth, m, last)| + 2;
    KeyAsksWithin(format, depth, m.key, at);
    AsksWithin(format, depth, m.value, value);
    Single(bound);
    WithinMore(KeyAsks(format, depth, m.key, at), value + 1, bound);
    WithinMore(Asks(format, depth, m.value, value), value + |Render(format, depth, m.value)| + 2, bound);
    WithinBoth(KeyAsks(format, depth, m.key, at), Asks(format, depth, m.value, value), bound);
    WithinBoth(KeyAsks(format, depth, m.key, at) + Asks(format, depth, m.value, value), [bound], bound);
  }

  lemma {:induction false} MembersAsksWithin(format: bool, depth: nat, members: seq<Member>, at: nat)
    requires PrintableMembers(members)
    ensures Within(MembersAsks(format, depth, members, at), at + |RenderMembers(format, depth, members)| + 2)
    decreases members, 0
  {
    hide Render, MemberAsks, Within, MemberHead, MemberSeparator;
    if members == [] {
      NoAsks(at + |RenderMembers(format, depth, members)| + 2);
    } else {
      var last := |members| == 1;
      var end := at + |MemberText(format, depth, members[0], last)|;
      var bound := at + |RenderMembers(format, depth, members)| + 2;
      MemberAsksWithin(format, depth, members[0], last, at);
      MembersAsksWithin(format, depth, members[1..], end);
      WithinMore(MemberAsks(format, depth, members[0], last, at), end + 2, bound);
      WithinBoth(
        MemberAsks(format, depth, members[0], last, at), MembersAsks(format, depth, members[1..], end), bound);
    }
  }

  // How the buffer grows.

  /** The length of a buffer of `length` bytes once ensure has made room for `total`. */
  function Enlarged(length: nat, total: nat): nat {
    if total <= length then length else if total > INT_MAX / 2 then INT_MAX else 2 * total
  }

  function LengthAfter(asks: seq<nat>): nat {
    if asks == [] then DEFAULT_BUFFER_SIZE else Enlarged(LengthAfter(asks[..|asks| - 1]), asks[|asks| - 1])
  }

  /** How often the buffer is enlarged. */
  function Enlargements(asks: seq<nat>): nat {
    if asks == [] then 0
    else
      Enlargements(asks[..|asks| - 1]) + if asks[|asks| - 1] <= LengthAfter(asks[..|asks| - 1]) then 0 else 1
  }

  lemma OneMoreAsk(asks: seq<nat>, total: nat)
    ensures LengthAfter(asks + [total]) == Enlarged(LengthAfter(asks), total)
    ensures Enlargements(asks + [total]) == Enlargements(asks) + if total <= LengthAfter(asks) then 0 else 1
  {
    assert (asks + [total])[..|asks|] == asks;
  }

  lemma {:induction false} LengthBounds(asks: seq<nat>)
    ensures DEFAULT_BUFFER_SIZE <= LengthAfter(asks) <= INT_MAX
    decreases |asks|
  {
    if asks != [] {
      LengthBounds(asks[..|asks| - 1]);
    }
  }

  lemma {:induction false} EnlargementsGrow(asks: seq<nat>, more: seq<nat>)
    requires asks <= more
    ensures Enlargements(asks) <= Enlargements(more)
    decreases |more|
  {
    if |asks| < |more| {
      EnlargementsGrow(asks, more[..|more| - 1]);
    } else {
      assert asks == more;
    }
  }

  /** How often a buffer of the default size at most has to double to hold `n` bytes. */
  function Growths(n: nat): nat {
    if n <= DEFAULT_BUFFER_SIZE then 0 else 1 + Growths((n + 1) / 2)
  }

  function Doubled(k: nat): nat {
    if k == 0 then DEFAULT_BUFFER_SIZE else 2 * Doubled(k - 1)
  }

  lemma GrowthsAre(n: nat, k: nat)
    ensures Growths(n) <= k <==> n <= Doubled(k)
    decreases k
  {
    if k > 0 && n > DEFAULT_BUFFER_SIZE {
      GrowthsAre((n + 1) / 2, k - 1);
    } else if k > 0 {
      GrowthsAre(n, k - 1);
    }
  }

  lemma GrowthsMonotone(m: nat, n: nat)
    requires m <= n
    ensures Growths(m) <= Growths(n)
  {
    GrowthsAre(m, Growths(n));
    GrowthsAre(n, Growths(n));
  }

  lemma GrowsAgain(m: nat, n: nat)
    requires n > DEFAULT_BUFFER_SIZE && n > 2 * m
    ensures Growths(m) < Growths(n)
  {
    GrowthsMonotone(m, (n + 1) / 2);
  }

  /** A text that fits an int takes 23 growths at most. */
  lemma GrowthsLimit(n: nat)
    requires n <= INT_MAX
    ensures Growths(n) <= 23
  {
    assert Doubled(8) == 0x10000;
    assert Doubled(16) == 0x100 * Doubled(8);
    assert Doubled(23) == 0x80 * Doubled(16);
    GrowthsAre(n, 23);
  }

  /** The last size asked for that took an enlargement. */
  function Latest(asks: seq<nat>): nat {
    if asks == [] then 0
    else
      var before, total := asks[..|asks| - 1], asks[|asks| - 1];
      if total <= LengthAfter(before) then Latest(before) else total
  }

  /** A buffer that is enlarged comes to twice the size asked for, so it is enlarged no more
      often than that size needs. */
  lemma {:induction false} EnlargementsBound(asks: seq<nat>, bound: nat)
    requires Within(asks, bound) && bound <= INT_MAX
    ensures Enlargements(asks) <= Growths(Latest(asks)) && Latest(asks) <= bound
    ensures LengthAfter(asks)
         == if Latest(asks) == 0 then DEFAULT_BUFFER_SIZE
            else if Latest(asks) > INT_MAX / 2 then INT_MAX else 2 * Latest(asks)
    ensures LengthAfter(asks) >= DEFAULT_BUFFER_SIZE
    decreases |asks|
  {
    hide Growths;
    if asks != [] {
      var before, total := asks[..|asks| - 1], asks[|asks| - 1];
      EnlargementsBound(before, bound);
      if total > LengthAfter(before) {
        GrowsAgain(Latest(before), total);
      }
    }
  }

  /** A text that fits an int never takes more than 23 enlargements, and one of `n` bytes no
      more than it takes to double the default size up to `n + 2`. */
  lemma EnlargementsOfText(format: bool, v: Json)
    requires Printable(v) && |Render(format, 0, v)| + 2 <= INT_MAX
    ensures var n := Enlargements(Asks(format, 0, v, 0));
            n <= Growths(|Render(format, 0, v)| + 2) && n <= 23
  {
    hide *;
    var asks, bound := Asks(format, 0, v, 0), |Render(format, 0, v)| + 2;
    AsksWithin(format, 0, v, 0);
    EnlargementsBound(asks, bound);
    GrowthsMonotone(Latest(asks), bound);
    GrowthsLimit(bound);
  }

  // Asking in turn.

  /** From `before` on, `more` is being asked for: all of it if `done`, else a part. */
  predicate Asked(before: seq<nat>, more: seq<nat>, now: seq<nat>, done: bool) {
    before <= now <= before + more && (done ==> now == before + more)
  }

  lemma AskedNothing(before: seq<nat>)
    ensures Asked(before, [], before, true)
  {
  }

  lemma AskingOnce(before: seq<nat>, total: nat)
    ensures Asked(before, [total], before, false)
    ensures Asked(before, [total], before + [total], true) && Asked(before, [total], before + [total], false)
    ensures LengthAfter(before + [total]) == Enlarged(LengthAfter(before), total)
    ensures Enlargements(before + [total]) == Enlargements(before) + if total <= LengthAfter(before) then 0 else 1
  {
    OneMoreAsk(before, total);
  }

  lemma AskedMore(before: seq<nat>, a: seq<nat>, middle: seq<nat>, b: seq<nat>, now: seq<nat>, done: bool)
    requires Asked(before, a, middle, true) && Asked(middle, b, now, done)
    ensures Asked(before, a + b, now, done)
  {
    assert before + a + b == before + (a + b);
  }

  lemma AskedLess(before: seq<nat>, a: seq<nat>, b: seq<nat>, now: seq<nat>)
    requires Asked(before, a, now, false)
    ensures Asked(before, a + b, now, false)
  {
    assert before + (a + b) == before + a + b;
  }

  /** Of the sizes in `b` the first one is asked for. */
  lemma AskedInTwo(before: seq<nat>, a: seq<nat>, middle: seq<nat>, b: seq<nat>, now: seq<nat>, done: bool)
    requires b != [] && Asked(before, a, middle, true) && Asked(middle, [b[0]], now, done)
    ensures Asked(before, a + b, now, done && |b| == 1)
    ensures Asked(before, a + [b[0]], now, done) && a + [b[0]] + b[1..] == a + b
  {
    assert [b[0]] + b[1..] == b;
    assert before + a + [b[0]] + b[1..] == before + (a + b);
  }

  lemma ItemsFitUnfold(items: seq<Json>)
    requires ItemsFit(items) && items != []
    ensures StringsFit(items[0]) && ItemsFit(items[1..])
  {
  }

  lemma MembersFitUnfold(members: seq<Member>)
    requires MembersFit(members) && members != []
    ensures |Quote(members[0].key)| < SIZE_MAX && StringsFit(members[0].value) && MembersFit(members[1..])
  {
  }

  lemma NoEnlargement()
    ensures Enlargements([]) == 0 && LengthAfter([]) == DEFAULT_BUFFER_SIZE
  {
  }
}
