/** cJSON_Duplicate: a copy in fresh blocks, or nothing at all. */
module Duplication {
  import opened Bytes
  import opened Heap
  import opened Comparison

  /** What a copy keeps: everything but the places of the blocks and what lies behind the
      NUL of a text. */
  function Image(n: Node): Node {
    Node(0, n.kind, TextImage(n.valuestring), TextImage(n.name), n.valueint, n.valuedouble, Images(n.child))
  }

  function TextImage(b: Option<Block>): Option<Block> {
    if b.Some? then Some(Block(0, UpToNul(b.value.content) + [NUL])) else None
  }

  function Images(chain: seq<Node>): (r: seq<Node>)
    ensures |r| == |chain|
    ensures forall i :: 0 <= i < |chain| ==> r[i] == Image(chain[i])
  {
    if chain == [] then [] else [Image(chain[0])] + Images(chain[1..])
  }

  lemma ImagesAppend(chain: seq<Node>, n: Node)
    ensures Images(chain + [n]) == Images(chain) + [Image(n)]
  {
    hide Image;
    var r := Images(chain + [n]);
    assert forall i :: 0 <= i < |r| ==> r[i] == (Images(chain) + [Image(n)])[i];
  }

  /** Both texts are missing, or both are there and read the same. */
  predicate SameText(a: Option<Block>, b: Option<Block>) {
    (a.Some? <==> b.Some?) && Text(a) == Text(b)
  }

  /** The same fields and texts in the same tree, whatever the blocks. */
  predicate SameTree(a: Node, b: Node) {
    && a.kind == b.kind && a.valueint == b.valueint && a.valuedouble == b.valuedouble
    && SameText(a.valuestring, b.valuestring) && SameText(a.name, b.name)
    && |a.child| == |b.child|
    && forall i :: 0 <= i < |a.child| ==> SameTree(a.child[i], b.child[i])
  }

  lemma TextImageIs(a: Option<Block>, b: Option<Block>)
    ensures TextImage(a) == TextImage(b) <==> SameText(a, b)
  {
    hide UpToNul;
    if a.Some? && b.Some? {
      var s, t := UpToNul(a.value.content), UpToNul(b.value.content);
      assert (s + [NUL])[..|s + [NUL]| - 1] == s && (t + [NUL])[..|t + [NUL]| - 1] == t;
    }
  }

  /** The image leaves nothing out. */
  lemma {:induction false} ImageIs(a: Node, b: Node)
    ensures Image(a) == Image(b) <==> SameTree(a, b)
    decreases a
  {
    hide TextImage, SameText;
    TextImageIs(a.valuestring, b.valuestring);
    TextImageIs(a.name, b.name);
    if |a.child| == |b.child| {
      forall i | 0 <= i < |a.child|
        ensures Image(a.child[i]) == Image(b.child[i]) <==> SameTree(a.child[i], b.child[i])
      {
        ImageIs(a.child[i], b.child[i]);
      }
      ImagesAre(a.child, b.child);
    }
  }

  lemma ImagesAre(a: seq<Node>, b: seq<Node>)
    requires |a| == |b|
    ensures Images(a) == Images(b) <==> forall i :: 0 <= i < |a| ==> Image(a[i]) == Image(b[i])
  {
    hide Image;
    var p, q := Images(a), Images(b);
    assert p == q <==> forall i :: 0 <= i < |p| ==> p[i] == q[i];
  }

  // What the image determines.

  lemma TextOfImage(b: Option<Block>)
    ensures Text(TextImage(b)) == Text(b)
  {
    if b.Some? {
      UpToNulOfText(UpToNul(b.value.content));
    }
  }

  lemma {:induction false} UpToNulOfText(s: bytes)
    requires NulFree(s)
    ensures UpToNul(s + [NUL]) == s
    decreases |s|
  {
    if s != [] {
      assert (s + [NUL])[1..] == s[1..] + [NUL];
      UpToNulOfText(s[1..]);
    }
  }

  lemma KeyOfImage(n: Node, caseSensitive: bool)
    ensures Key(Image(n), caseSensitive) == Key(n, caseSensitive)
  {
    hide Text, TextImage, Fold;
    TextOfImage(n.name);
    NamedImage(n.name);
  }

  lemma {:induction false} ValueOfImage(n: Node, caseSensitive: bool)
    ensures ValueOf(Image(n), caseSensitive) == ValueOf(n, caseSensitive)
    decreases n, 0
  {
    hide Text, TextImage, MembersOf, ValuesOf, Images;
    TextOfImage(n.valuestring);
    if n.kind == IsArray {
      ValuesOfImages(n.child, caseSensitive);
    } else if n.kind == IsObject {
      MembersOfImages(n.child, caseSensitive);
    }
  }

  lemma {:induction false} ValuesOfImages(chain: seq<Node>, caseSensitive: bool)
    ensures ValuesOf(Images(chain), caseSensitive) == ValuesOf(chain, caseSensitive)
    decreases chain
  {
    hide Image, ValueOf;
    var p, q := ValuesOf(Images(chain), caseSensitive), ValuesOf(chain, caseSensitive);
    forall i | 0 <= i < |chain|
      ensures p[i] == q[i]
    {
      ValueOfImage(chain[i], caseSensitive);
    }
  }

  lemma {:induction false} MembersOfImages(chain: seq<Node>, caseSensitive: bool)
    ensures MembersOf(Images(chain), caseSensitive) == MembersOf(chain, caseSensitive)
    decreases chain
  {
    hide Image, ValueOf, Key;
    if chain != [] {
      assert Images(chain)[1..] == Images(chain[1..]);
      MembersOfImages(chain[1..], caseSensitive);
      ValueOfImage(chain[0], caseSensitive);
      KeyOfImage(chain[0], caseSensitive);
    }
  }

  lemma {:induction false} ConsistentImage(n: Node, caseSensitive: bool)
    ensures Consistent(Image(n), caseSensitive) <==> Consistent(n, caseSensitive)
    decreases n
  {
    hide KeysAgree, UpToNul;
    forall i | 0 <= i < |n.child|
      ensures Consistent(Images(n.child)[i], caseSensitive) <==> Consistent(n.child[i], caseSensitive)
    {
      ConsistentImage(n.child[i], caseSensitive);
    }
    KeysOfImagesAgree(n.child, caseSensitive);
  }

  lemma KeysOfImagesAgree(chain: seq<Node>, caseSensitive: bool)
    ensures KeysAgree(Images(chain), caseSensitive) <==> KeysAgree(chain, caseSensitive)
  {
    hide Image, ValueOf, Key;
    forall i | 0 <= i < |chain|
      ensures ValueOf(Images(chain)[i], caseSensitive) == ValueOf(chain[i], caseSensitive)
      ensures Key(Images(chain)[i], caseSensitive) == Key(chain[i], caseSensitive)
      ensures Images(chain)[i].name.Some? <==> chain[i].name.Some?
    {
      NamedHasKey(Images(chain)[i], caseSensitive);
      NamedHasKey(chain[i], caseSensitive);
      ValueOfImage(chain[i], caseSensitive);
      KeyOfImage(chain[i], caseSensitive);
    }
  }

  /** A full copy compares equal to its original on exactly the trees whose repeated keys
      agree, so on all trees that never repeat a key. */
  lemma CopyIsAlike(n: Node, copy: Node, caseSensitive: bool)
    requires Image(copy) == Image(n)
    ensures Alike(n, copy, caseSensitive) <==> Consistent(n, caseSensitive)
    ensures Alike(copy, n, caseSensitive) <==> Consistent(n, caseSensitive)
    ensures Unambiguous(n, caseSensitive) ==> Alike(n, copy, caseSensitive)
  {
    hide *;
    ValueOfImage(n, caseSensitive);
    ValueOfImage(copy, caseSensitive);
    ConsistentImage(n, caseSensitive);
    ConsistentImage(copy, caseSensitive);
    AlikeIsEquality(n, copy, caseSensitive);
    AlikeIsEquality(copy, n, caseSensitive);
    if Unambiguous(n, caseSensitive) {
      UnambiguousIsConsistent(n, caseSensitive);
    }
  }

  /** The order of an object's members does not matter: two objects with the same ones in any
      order, each in blocks of its own, compare equal on exactly the consistent trees. */
  lemma MemberOrderIsIrrelevant(a: Node, b: Node, caseSensitive: bool)
    requires a.kind == b.kind == IsObject && multiset(Images(a.child)) == multiset(Images(b.child))
    ensures Alike(a, b, caseSensitive) <==> Consistent(a, caseSensitive)
  {
    hide *;
    ImageKeepsKind(a);
    ImageKeepsKind(b);
    ValueOfImage(a, caseSensitive);
    ValueOfImage(b, caseSensitive);
    ConsistentImage(a, caseSensitive);
    ConsistentImage(b, caseSensitive);
    if Consistent(a, caseSensitive) {
      SameMembersAlike(Image(a), Image(b), caseSensitive);
    }
    AlikeIsEquality(Image(a), Image(b), caseSensitive);
    AlikeIsEquality(a, b, caseSensitive);
  }

  lemma ImageKeepsKind(n: Node)
    ensures Image(n).kind == n.kind && Image(n).child == Images(n.child)
  {
  }

  /** An object that gives one key two values is not like any copy of it. */
  lemma RepeatedKeyIsUnlikeItsCopy(n: Node, copy: Node, i: nat, j: nat, caseSensitive: bool)
    requires n.kind == IsObject && Image(copy) == Image(n) && i < |n.child| && j < |n.child|
    requires Key(n.child[i], caseSensitive) == Key(n.child[j], caseSensitive)
    requires ValueOf(n.child[i], caseSensitive) != ValueOf(n.child[j], caseSensitive)
    ensures !Alike(n, copy, caseSensitive) && !Alike(copy, n, caseSensitive)
  {
    hide Alike, Key, ValueOf, Image, AllConsistent;
    CopyIsAlike(n, copy, caseSensitive);
  }

  /** An object with the numbers 1 and 2 for the key k. */
  function TwoNumbers(): Node {
    var one := Node(1, IsNumber, None, Some(Block(2, [0x6B, NUL])), 1, 1.0, []);
    var two := Node(3, IsNumber, None, Some(Block(4, [0x6B, NUL])), 2, 2.0, []);
    Node(0, IsObject, None, None, 0, 0.0, [one, two])
  }

  /** Such an object is sound, no block of it is used twice, and it is unlike its copies. */
  lemma TwoNumbersAreUnlikeTheirCopy(copy: Node)
    requires Image(copy) == Image(TwoNumbers())
    ensures Sound(TwoNumbers()) && Named(TwoNumbers()) && Blocks(TwoNumbers()) == multiset{0, 1, 2, 3, 4}
    ensures !Alike(TwoNumbers(), copy, true) && !Alike(TwoNumbers(), copy, false)
  {
    hide *;
    TwoNumbersAreSound();
    TwoNumbersTakeFive();
    TwoNumbersDiffer(true);
    TwoNumbersDiffer(false);
    RepeatedKeyIsUnlikeItsCopy(TwoNumbers(), copy, 0, 1, true);
    RepeatedKeyIsUnlikeItsCopy(TwoNumbers(), copy, 0, 1, false);
  }

  lemma TwoNumbersAreSound()
    ensures Sound(TwoNumbers()) && Named(TwoNumbers())
  {
  }

  lemma TwoNumbersTakeFive()
    ensures Blocks(TwoNumbers()) == multiset{0, 1, 2, 3, 4}
  {
    hide ChainBlocks, Blocks;
    var n := TwoNumbers();
    BlocksParts(n);
    NoBlocks();
    NumberTakesTwo(n.child[0]);
    NumberTakesTwo(n.child[1]);
    ChainStep(n.child, 0);
    ChainStep(n.child, 1);
    assert n.child[0..] == n.child && n.child[2..] == [];
  }

  lemma NumberTakesTwo(n: Node)
    requires n.valuestring.None? && n.name.Some? && n.child == []
    ensures Blocks(n) == multiset{n.id, n.name.value.id}
  {
  }

  lemma TwoNumbersDiffer(caseSensitive: bool)
    ensures var n := TwoNumbers();
            n.kind == IsObject && |n.child| == 2
            && Key(n.child[0], caseSensitive) == Key(n.child[1], caseSensitive)
            && ValueOf(n.child[0], caseSensitive) != ValueOf(n.child[1], caseSensitive)
  {
    hide Fold;
    assert Text(TwoNumbers().child[0].name) == Text(TwoNumbers().child[1].name);
  }

  /** A full copy prints as the original does: both stand for the same tree. */
  lemma {:induction false} EraseImage(n: Node)
    ensures Erase(Image(n)) == Erase(n)
    decreases n, 0
  {
    hide Text, TextImage, Images, EraseItems, EraseMembers;
    TextOfImage(n.valuestring);
    EraseImages(n.child);
  }

  lemma {:induction false} EraseImages(chain: seq<Node>)
    ensures EraseItems(Images(chain)) == EraseItems(chain)
    ensures EraseMembers(Images(chain)) == EraseMembers(chain)
    decreases chain
  {
    hide Erase, Text;
    if chain != [] {
      assert Images(chain)[1..] == Images(chain[1..]);
      EraseImages(chain[1..]);
      EraseImage(chain[0]);
      NameOfImage(chain[0]);
    }
  }

  lemma NameOfImage(n: Node)
    ensures Text(Image(n).name) == Text(n.name)
  {
    hide Text, TextImage;
    TextOfImage(n.name);
  }

  // The methods.

  /** cJSON_strdup of a text that may be missing. */
  method CopyText(heap: Allocator, text: Option<Block>) returns (ok: bool, copy: Option<Block>)
    requires heap.Valid() && !heap.refused && TextEnds(text)
    modifies heap
    ensures heap.Valid() && heap.live == old(heap.live) + BlockIds(copy)
    ensures ok ==> !heap.refused && TextImage(copy) == TextImage(text)
    ensures TextEnds(copy)
    ensures !ok ==> heap.refused && old(heap.grants) < |BlockIds(text)|
    ensures ok ==> heap.grants + |BlockIds(text)| == old(heap.grants)
  {
    if text.None? {
      return true, None;
    }
    var id := heap.Allocate();
    if id.None? {
      return false, None;
    }
    copy := Some(Block(id.value, UpToNul(text.value.content) + [NUL]));
    ok := true;
    TextOfImage(text);
  }

  /** The item's own block and those of its texts. */
  function OwnBlocks(n: Node): nat {
    1 + |BlockIds(n.valuestring)| + |BlockIds(n.name)|
  }

  lemma BlocksCounted(n: Node)
    ensures |Blocks(n)| == OwnBlocks(n) + |ChainBlocks(n.child)|
    ensures |Blocks(n.(child := []))| == OwnBlocks(n)
  {
    hide BlockIds;
    NoBlocks();
  }

  /** A new item with the fields and the texts of the original, as far as there is memory. */
  method CopyItem(heap: Allocator, item: Node) returns (ok: bool, newitem: Option<Node>)
    requires heap.Valid() && !heap.refused && Sound(item)
    modifies heap
    ensures heap.Valid()
    ensures newitem.Some? ==> heap.live == old(heap.live) + Blocks(newitem.value) && newitem.value.child == []
    ensures newitem.None? ==> !ok && heap.live == old(heap.live)
    ensures newitem.Some? ==> Sound(newitem.value)
    ensures ok ==> newitem.Some? && !heap.refused && Image(newitem.value) == Image(item).(child := [])
    ensures !ok ==> heap.refused && old(heap.grants) < OwnBlocks(item)
    ensures ok ==> heap.grants + OwnBlocks(item) == old(heap.grants)
  {
    hide TextImage, Terminated, Blocks, BlockIds, ChainBlocks;
    var id := heap.Allocate();
    if id.None? {
      return false, None;
    }
    var n := NewNode(id.value).(
      kind := item.kind, valueint := item.valueint, valuedouble := item.valuedouble);
    var valuestring, name := None, None;
    ok, valuestring := CopyText(heap, item.valuestring);
    if ok {
      ok, name := CopyText(heap, item.name);
    } else {
      NoText();
    }
    n := n.(valuestring := valuestring, name := name);
    LeafBlocks(n, old(heap.live));
    newitem := Some(n);
  }

  lemma NoText()
    ensures BlockIds(None) == multiset{}
  {
  }

  lemma LeafBlocks(n: Node, live: multiset<nat>)
    requires n.child == []
    ensures live + multiset{n.id} + BlockIds(n.valuestring) + BlockIds(n.name) == live + Blocks(n)
    ensures live + multiset{n.id} + BlockIds(n.valuestring) + multiset{}
         == live + multiset{n.id} + BlockIds(n.valuestring)
  {
    hide BlockIds;
  }

  lemma WithChildren(n: Node, chain: seq<Node>, live: multiset<nat>)
    requires n.child == []
    ensures live + Blocks(n) + ChainBlocks(chain) == live + Blocks(n.(child := chain))
  {
    hide BlockIds;
  }

  /** cJSON_Duplicate. There is a copy if and only if the hook grants as many requests as
      there are blocks to copy. */
  method Duplicate(heap: Allocator, item: Option<Node>, recurse: bool) returns (copy: Option<Node>)
    requires heap.Valid() && !heap.refused
    requires item.Some? ==> Sound(item.value)
    modifies heap
    ensures heap.Valid()
    ensures copy.Some? ==>
              item.Some? && !heap.refused
              && heap.live == old(heap.live) + Blocks(copy.value) && Sound(copy.value)
              && SameTree(copy.value, if recurse then item.value else item.value.(child := []))
              && Image(copy.value) == if recurse then Image(item.value) else Image(item.value).(child := [])
    ensures copy.None? ==> heap.live == old(heap.live) && (item.None? || heap.refused)
    ensures item.Some? ==>
              var n := |Blocks(if recurse then item.value else item.value.(child := []))|;
              (copy.Some? <==> n <= old(heap.grants)) && (copy.Some? ==> heap.grants + n == old(heap.grants))
    decreases if item.Some? then Height(item.value) else 0, 1
  {
    hide Blocks, ChainBlocks, TextImage, BlockIds, Sound, Height, OwnBlocks, SameTree;
    if item.None? {
      return None;
    }
    BlocksCounted(item.value);
    var ok;
    ok, copy := CopyItem(heap, item.value);
    if ok && recurse {
      var newitem, chain := copy.value, [];
      ok, chain := CopyChildren(heap, item.value);
      WithChildren(newitem, chain, old(heap.live));
      copy := Some(newitem.(child := chain));
      if ok {
        SoundWithChildren(newitem, chain);
      }
    }
    if !ok && copy.Some? {
      GiveBack(old(heap.live), Blocks(copy.value));
      heap.DeleteItem(copy.value);
      copy := None;
    }
    if copy.Some? {
      ImageIs(copy.value, if recurse then item.value else item.value.(child := []));
    }
  }

  lemma SoundWithChildren(leaf: Node, chain: seq<Node>)
    requires Sound(leaf) && forall i :: 0 <= i < |chain| ==> Sound(chain[i])
    ensures Sound(leaf.(child := chain))
  {
    hide TextEnds;
  }

  lemma NamedImage(b: Option<Block>)
    ensures TextImage(b).Some? <==> b.Some?
  {
  }

  /** The walk over the chain of children. */
  method CopyChildren(heap: Allocator, item: Node) returns (ok: bool, chain: seq<Node>)
    requires heap.Valid() && !heap.refused && Sound(item)
    modifies heap
    ensures heap.Valid() && heap.live == old(heap.live) + ChainBlocks(chain)
    ensures ok ==> !heap.refused && Images(chain) == Images(item.child)
    ensures forall i :: 0 <= i < |chain| ==> Sound(chain[i])
    ensures !ok ==> heap.refused && old(heap.grants) < |ChainBlocks(item.child)|
    ensures ok ==> heap.grants + |ChainBlocks(item.child)| == old(heap.grants)
    decreases Height(item), 0
  {
    hide *;
    NoBlocks();
    NoImages(item.child);
    chain := [];
    var i := 0;
    while i < |item.child|
      invariant i <= |item.child| && heap.Valid() && !heap.refused
      invariant heap.live == old(heap.live) + ChainBlocks(chain)
      invariant Images(chain) == Images(item.child[..i])
      invariant heap.grants + |ChainBlocks(item.child[..i])| == old(heap.grants)
      invariant forall k :: 0 <= k < |chain| ==> Sound(chain[k])
    {
      ChildOf(item, i);
      UpToChild(item.child, i);
      var newchild := Duplicate(heap, Some(item.child[i]), true);
      if newchild.None? {
        return false, chain;
      }
      OneMoreChild(old(heap.live), chain, item.child, i, newchild.value);
      chain := chain + [newchild.value];
      i := i + 1;
    }
    assert item.child[..i] == item.child;
    ok := true;
  }

  lemma NoImages(chain: seq<Node>)
    ensures Images([]) == Images(chain[..0]) && |ChainBlocks(chain[..0])| == 0
  {
  }

  lemma UpToChild(chain: seq<Node>, i: nat)
    requires i < |chain|
    ensures |ChainBlocks(chain[..i + 1])| == |ChainBlocks(chain[..i])| + |Blocks(chain[i])| <= |ChainBlocks(chain)|
  {
    hide Blocks, ChainBlocks;
    assert chain[..i + 1] == chain[..i] + [chain[i]];
    ChainBlocksAppend(chain[..i], chain[i]);
    BlocksInTwo(chain[..i + 1], chain[i + 1..]);
    assert chain[..i + 1] + chain[i + 1..] == chain;
  }

  lemma {:induction false} BlocksInTwo(a: seq<Node>, b: seq<Node>)
    ensures ChainBlocks(a + b) == ChainBlocks(a) + ChainBlocks(b)
    decreases |a|
  {
    hide Blocks;
    if a == [] {
      assert a + b == b;
    } else {
      assert (a + b)[1..] == a[1..] + b;
      BlocksInTwo(a[1..], b);
    }
  }

  lemma ChildOf(n: Node, i: nat)
    requires Sound(n) && i < |n.child|
    ensures Sound(n.child[i]) && Height(n.child[i]) < Height(n)
  {
    hide Height, TextEnds;
  }

  lemma OneMoreChild(live: multiset<nat>, chain: seq<Node>, originals: seq<Node>, i: nat, n: Node)
    requires i < |originals| && Images(chain) == Images(originals[..i]) && Image(n) == Image(originals[i])
    ensures Images(chain + [n]) == Images(originals[..i + 1])
    ensures live + ChainBlocks(chain) + Blocks(n) == live + ChainBlocks(chain + [n])
  {
    hide Images, Image, ChainBlocks, Blocks;
    ChainBlocksAppend(chain, n);
    ImagesAppend(chain, n);
    ImagesAppend(originals[..i], originals[i]);
    assert originals[..i + 1] == originals[..i] + [originals[i]];
  }

  /** The copy shares no block with anything that was there before. */
  lemma CopyIsApart(live: multiset<nat>, item: Node, copy: Node)
    requires Blocks(item) <= live
    requires forall id :: id in live + Blocks(copy) ==> (live + Blocks(copy))[id] == 1
    ensures Apart(item, copy)
  {
    hide Blocks;
    forall id | id in Blocks(item)
      ensures id !in Blocks(copy)
    {
      assert id in live + Blocks(copy);
    }
  }
}
