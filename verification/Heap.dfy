/** The allocation hooks and the trees they hold: which blocks live, and that each is
    given back once. */
module Heap {
  import opened Bytes
  import opened JsonTree

  /** A C string in a block of its own. */
  datatype Block = Block(id: nat, content: bytes)

  datatype Kind = Invalid | IsNull | IsFalse | IsTrue | IsNumber | IsString | IsArray | IsObject

  /** A cJSON item: the block it lies in, its fields, and the chain of its children. */
  datatype Node = Node(
    id: nat, kind: Kind, valuestring: Option<Block>, name: Option<Block>,
    valueint: int, valuedouble: real, child: seq<Node>)

  /** What cJSON_New_Item leaves in the block: all fields zero. */
  function NewNode(id: nat): Node {
    Node(id, Invalid, None, None, 0, 0.0, [])
  }

  function BlockIds(b: Option<Block>): multiset<nat> {
    if b.Some? then multiset{b.value.id} else multiset{}
  }

  /** The blocks of an item and of everything below it. */
  function Blocks(n: Node): multiset<nat> {
    multiset{n.id} + BlockIds(n.valuestring) + BlockIds(n.name) + ChainBlocks(n.child)
  }

  function ChainBlocks(chain: seq<Node>): multiset<nat> {
    if chain == [] then multiset{} else Blocks(chain[0]) + ChainBlocks(chain[1..])
  }

  lemma {:induction false} ChainBlocksAppend(chain: seq<Node>, n: Node)
    ensures ChainBlocks(chain + [n]) == ChainBlocks(chain) + Blocks(n)
    decreases |chain|
  {
    if chain == [] {
      assert chain + [n] == [n];
      assert ChainBlocks([n]) == Blocks(n) + ChainBlocks([]);
    } else {
      assert (chain + [n])[1..] == chain[1..] + [n];
      ChainBlocksAppend(chain[1..], n);
    }
  }

  /** The tree that the items stand for. */
  function Erase(n: Node): Json {
    match n.kind
    case IsFalse => False
    case IsTrue => True
    case IsNumber => Number(n.valuedouble)
    case IsString => String(Text(n.valuestring))
    case IsArray => Array(EraseItems(n.child))
    case IsObject => Object(EraseMembers(n.child))
    case _ => Null
  }

  function Text(b: Option<Block>): bytes {
    if b.Some? then UpToNul(b.value.content) else []
  }

  function EraseItems(chain: seq<Node>): seq<Json> {
    if chain == [] then [] else [Erase(chain[0])] + EraseItems(chain[1..])
  }

  function EraseMembers(chain: seq<Node>): seq<Member> {
    if chain == [] then []
    else [Member(Text(chain[0].name), Erase(chain[0]))] + EraseMembers(chain[1..])
  }

  lemma {:induction false} EraseItemsAppend(chain: seq<Node>, n: Node)
    ensures EraseItems(chain + [n]) == EraseItems(chain) + [Erase(n)]
    decreases |chain|
  {
    if chain == [] {
      assert chain + [n] == [n];
    } else {
      assert (chain + [n])[1..] == chain[1..] + [n];
      EraseItemsAppend(chain[1..], n);
    }
  }

  lemma {:induction false} EraseMembersAppend(chain: seq<Node>, n: Node)
    ensures EraseMembers(chain + [n]) == EraseMembers(chain) + [Member(Text(n.name), Erase(n))]
    decreases |chain|
  {
    if chain == [] {
      assert chain + [n] == [n];
    } else {
      assert (chain + [n])[1..] == chain[1..] + [n];
      EraseMembersAppend(chain[1..], n);
    }
  }

  /** What the readers of items rely on: strings that end. */
  predicate Sound(n: Node) {
    TextEnds(n.valuestring) && TextEnds(n.name) && AllSound(n.child)
  }

  /** The members of every object have names. */
  predicate Named(n: Node) {
    (n.kind == IsArray || n.kind == IsObject ==> AllOfNamed(n.child)) && (n.kind == IsObject ==> AllNamed(n.child))
  }

  predicate AllOfNamed(chain: seq<Node>) {
    forall i :: 0 <= i < |chain| ==> Named(chain[i])
  }

  predicate TextEnds(b: Option<Block>) {
    b.Some? ==> Terminated(b.value.content)
  }

  predicate AllSound(chain: seq<Node>) {
    forall i :: 0 <= i < |chain| ==> Sound(chain[i])
  }

  /** What the parser makes: sound items with just the parts of their kind, and every number
      with the integer that belongs to its double. */
  predicate Made(n: Node) {
    && n.kind != Invalid
    && (n.valuestring.Some? <==> n.kind == IsString)
    && (n.child != [] ==> n.kind == IsArray || n.kind == IsObject)
    && TextEnds(n.valuestring)
    && TextEnds(n.name)
    && (n.kind == IsNumber ==> n.valueint == ValueInt(n.valuedouble))
    && AllMade(n.child)
    && (n.kind == IsObject ==> AllNamed(n.child))
    && (n.kind == IsArray ==> NoneNamed(n.child))
  }

  predicate AllMade(chain: seq<Node>) {
    forall i :: 0 <= i < |chain| ==> Made(chain[i])
  }

  lemma {:induction false} MadeIsSound(n: Node)
    requires Made(n)
    ensures Sound(n) && Named(n)
    decreases n
  {
    hide TextEnds, ValueInt;
    forall i | 0 <= i < |n.child|
      ensures Sound(n.child[i]) && Named(n.child[i])
    {
      MadeIsSound(n.child[i]);
    }
  }

  predicate AllNamed(chain: seq<Node>) {
    forall i :: 0 <= i < |chain| ==> chain[i].name.Some?
  }

  predicate NoneNamed(chain: seq<Node>) {
    forall i :: 0 <= i < |chain| ==> chain[i].name.None?
  }

  /** How many blocks a value takes: its item's own, one for each string and each name, and
      those of everything below. */
  function Needs(v: Json): (n: nat)
    ensures n > 0
  {
    1 + match v
        case String(_) => 1
        case Array(items) => ItemsNeed(items)
        case Object(members) => MembersNeed(members)
        case _ => 0
  }

  function ItemsNeed(items: seq<Json>): nat {
    if items == [] then 0 else Needs(items[0]) + ItemsNeed(items[1..])
  }

  function MembersNeed(members: seq<Member>): nat {
    if members == [] then 0 else 1 + Needs(members[0].value) + MembersNeed(members[1..])
  }

  lemma {:induction false} ItemsNeedInTwo(a: seq<Json>, b: seq<Json>)
    ensures ItemsNeed(a + b) == ItemsNeed(a) + ItemsNeed(b)
    decreases |a|
  {
    hide Needs;
    if a == [] {
      assert a + b == b;
    } else {
      assert (a + b)[1..] == a[1..] + b;
      ItemsNeedInTwo(a[1..], b);
    }
  }

  lemma {:induction false} MembersNeedInTwo(a: seq<Member>, b: seq<Member>)
    ensures MembersNeed(a + b) == MembersNeed(a) + MembersNeed(b)
    decreases |a|
  {
    hide Needs;
    if a == [] {
      assert a + b == b;
    } else {
      assert (a + b)[1..] == a[1..] + b;
      MembersNeedInTwo(a[1..], b);
    }
  }

  /** The blocks of an item are as many as its value needs, and one for its name. */
  lemma {:induction false} BlocksAreNeeded(n: Node)
    requires Made(n)
    ensures |Blocks(n)| == Needs(Erase(n)) + |BlockIds(n.name)|
    decreases n, 0
  {
    hide ChainBlocks, ItemsNeed, MembersNeed, EraseItems, EraseMembers, AllMade, AllNamed, NoneNamed;
    if n.child == [] {
      NoBlocks();
      NothingNeeded();
    } else {
      ChainIsNeeded(n.child);
    }
  }

  lemma NothingNeeded()
    ensures ItemsNeed(EraseItems([])) == MembersNeed(EraseMembers([])) == 0
  {
  }

  lemma {:induction false} ChainIsNeeded(chain: seq<Node>)
    requires AllMade(chain)
    ensures AllNamed(chain) ==> |ChainBlocks(chain)| == MembersNeed(EraseMembers(chain))
    ensures NoneNamed(chain) ==> |ChainBlocks(chain)| == ItemsNeed(EraseItems(chain))
    decreases chain, 0
  {
    hide Blocks, Needs, Erase, Made;
    if chain != [] {
      BlocksAreNeeded(chain[0]);
      ChainIsNeeded(chain[1..]);
    }
  }

  class Allocator {
    /** The blocks that have been handed out and not given back. */
    ghost var live: multiset<nat>
    var next: nat
    /** How many more requests the hook will grant. */
    var grants: nat
    ghost var refused: bool

    ghost predicate Valid()
      reads this
    {
      (forall id :: id in live ==> id < next && live[id] == 1) && (refused ==> grants == 0)
    }

    constructor (grants: nat)
      ensures Valid() && live == multiset{} && !refused && this.grants == grants
    {
      live, next, this.grants, refused := multiset{}, 0, grants, false;
    }

    /** malloc */
    method Allocate() returns (id: Option<nat>)
      requires Valid()
      modifies this
      ensures Valid()
      ensures id.Some? ==>
                id.value !in old(live) && live == old(live) + multiset{id.value}
                && refused == old(refused)
      ensures id.None? ==> live == old(live) && refused
      ensures id.Some? <==> old(grants) > 0
      ensures grants == if id.Some? then old(grants) - 1 else 0
    {
      if grants == 0 {
        refused := true;
        return None;
      }
      id := Some(next);
      live := live + multiset{next};
      next, grants := next + 1, grants - 1;
    }

    /** free: only of a block that is live. */
    method Free(id: nat)
      requires Valid() && id in live
      modifies this`live
      ensures Valid() && live == old(live) - multiset{id}
    {
      live := live - multiset{id};
    }

    method FreeIfAny(b: Option<Block>)
      requires Valid() && BlockIds(b) <= live
      modifies this`live
      ensures Valid() && live == old(live) - BlockIds(b)
    {
      if b.Some? {
        Free(b.value.id);
      }
    }

    /** cJSON_Delete on a chain: frees every block of it, each one once. */
    method Delete(chain: seq<Node>)
      requires Valid() && ChainBlocks(chain) <= live
      modifies this`live
      ensures Valid() && live == old(live) - ChainBlocks(chain)
      decreases chain
    {
      hide ChainBlocks, Blocks, Valid;
      var i := 0;
      assert chain[0..] == chain;
      while i < |chain|
        invariant i <= |chain| && Valid()
        invariant ChainBlocks(chain[i..]) <= live
        invariant live - ChainBlocks(chain[i..]) == old(live) - ChainBlocks(chain)
      {
        ChainStep(chain, i);
        Peel(live, Blocks(chain[i]), ChainBlocks(chain[i + 1..]));
        DeleteItem(chain[i]);
        i := i + 1;
      }
      NoBlocks();
      assert chain[i..] == [];
    }

    /** One turn of cJSON_Delete's loop. */
    method DeleteItem(n: Node)
      requires Valid() && Blocks(n) <= live
      modifies this`live
      ensures Valid() && live == old(live) - Blocks(n)
      decreases n
    {
      hide ChainBlocks, BlockIds, Valid, Blocks;
      ghost var a, b, c, d := ChainBlocks(n.child), BlockIds(n.valuestring), BlockIds(n.name), multiset{n.id};
      BlocksParts(n);
      Peel(live, a, b + c + d);
      Peel(live - a, b, c + d);
      Peel(live - a - b, c, d);
      if n.child != [] {
        Delete(n.child);
      } else {
        NoBlocks();
      }
      FreeIfAny(n.valuestring);
      FreeIfAny(n.name);
      Free(n.id);
    }
  }

  lemma BlocksParts(n: Node)
    ensures Blocks(n)
         == ChainBlocks(n.child) + (BlockIds(n.valuestring) + BlockIds(n.name) + multiset{n.id})
    ensures BlockIds(n.valuestring) + (BlockIds(n.name) + multiset{n.id})
         == BlockIds(n.valuestring) + BlockIds(n.name) + multiset{n.id}
  {
  }

  lemma Peel(all: multiset<nat>, a: multiset<nat>, b: multiset<nat>)
    requires a + b <= all
    ensures a <= all && b <= all - a && all - a - b == all - (a + b)
  {
  }

  lemma GiveBack(live: multiset<nat>, added: multiset<nat>)
    ensures added <= live + added && live + added - added == live
  {
  }

  lemma NoBlocks()
    ensures ChainBlocks([]) == multiset{}
  {
  }

  lemma ChainStep(chain: seq<Node>, i: nat)
    requires i < |chain|
    ensures ChainBlocks(chain[i..]) == Blocks(chain[i]) + ChainBlocks(chain[i + 1..])
  {
    assert chain[i..][1..] == chain[i + 1..];
  }
}
