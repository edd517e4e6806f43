/** The doubly linked chain of children: add, insert, detach and replace edit it the way
    one edits a sequence. */
module Siblings {
  import opened Heap

  /** An item in a chain. What hangs below it is the value `node`. */
  class Item {
    var next: Item?
    var prev: Item?
    const node: Node

    constructor (node: Node)
      ensures Detached() && this.node == node
    {
      this.node, this.next, this.prev := node, null, null;
    }

    predicate Detached()
      reads this
    {
      next == null && prev == null
    }
  }

  function ItemAt(items: seq<Item>, i: int): Item? {
    if 0 <= i < |items| then items[i] else null
  }

  lemma ItemAtIs(items: seq<Item>, i: int)
    ensures 0 <= i < |items| ==> ItemAt(items, i) == items[i]
    ensures !(0 <= i < |items|) ==> ItemAt(items, i) == null
  {
  }

  predicate Distinct(items: seq<Item>) {
    forall i, j :: 0 <= i < j < |items| ==> items[i] != items[j]
  }

  /** Neighbours point at each other; the first has no predecessor, the last no successor. */
  predicate Chained(items: seq<Item>)
    reads items
  {
    forall i :: 0 <= i < |items| ==>
      items[i].next == ItemAt(items, i + 1) && items[i].prev == ItemAt(items, i - 1)
  }

  /** The chain of `items` with `x` linked in before `items[at]`. */
  predicate LinkedIn(items: seq<Item>, at: nat, x: Item)
    requires at < |items|
    reads items, x
  {
    && x.next == items[at]
    && x.prev == ItemAt(items, at - 1)
    && forall i :: 0 <= i < |items| ==>
         items[i].next == (if i == at - 1 then x else ItemAt(items, i + 1))
         && items[i].prev == (if i == at then x else ItemAt(items, i - 1))
  }

  lemma InsertedChain(items: seq<Item>, at: nat, x: Item)
    requires at < |items| && Distinct(items) && x !in items && LinkedIn(items, at, x)
    ensures Distinct(Inserted(items, at, x)) && Chained(Inserted(items, at, x))
  {
    hide Distinct, Inserted;
    var r := Inserted(items, at, x);
    InsertedElements(items, at, x);
    forall i | 0 <= i < |r|
      ensures r[i].next == ItemAt(r, i + 1) && r[i].prev == ItemAt(r, i - 1)
    {
    }
  }

  lemma InsertedElements(items: seq<Item>, at: nat, x: Item)
    requires at < |items| && Distinct(items) && x !in items
    ensures var r := Inserted(items, at, x);
            |r| == |items| + 1 && Distinct(r) && r[at] == x
            && (forall i :: 0 <= i < at ==> r[i] == items[i])
            && (forall i :: at < i < |r| ==> r[i] == items[i - 1])
  {
  }

  /** An item and what follows it; what is in front of it does not matter. */
  predicate Leads(tail: seq<Item>)
    reads tail
  {
    && tail != []
    && forall i :: 0 <= i < |tail| ==>
         tail[i].next == ItemAt(tail, i + 1) && (i > 0 ==> tail[i].prev == tail[i - 1])
  }

  /** The chain of `items` with `tail` linked in behind the last one. */
  predicate LinkedBehind(items: seq<Item>, tail: seq<Item>)
    reads items, tail
  {
    && Leads(tail)
    && tail[0].prev == ItemAt(items, |items| - 1)
    && forall i :: 0 <= i < |items| ==>
         items[i].next == (if i == |items| - 1 then tail[0] else ItemAt(items, i + 1))
         && items[i].prev == ItemAt(items, i - 1)
  }

  lemma AppendedChain(items: seq<Item>, tail: seq<Item>)
    requires LinkedBehind(items, tail)
    ensures Chained(items + tail)
    ensures ItemAt(items + tail, 0) == if items == [] then tail[0] else items[0]
  {
    var r := items + tail;
    forall i | 0 <= i < |r|
      ensures r[i].next == ItemAt(r, i + 1) && r[i].prev == ItemAt(r, i - 1)
    {
      if i >= |items| {
        assert r[i] == tail[i - |items|];
      }
    }
  }

  /** The chain of `items` with `items[at]` taken out. */
  predicate LinkedOut(items: seq<Item>, at: nat)
    requires at < |items|
    reads items
  {
    forall i :: 0 <= i < |items| && i != at ==>
      items[i].next == ItemAt(items, if i == at - 1 then at + 1 else i + 1)
      && items[i].prev == ItemAt(items, if i == at + 1 then at - 1 else i - 1)
  }

  lemma RemovedChain(items: seq<Item>, at: nat)
    requires at < |items| && Distinct(items) && LinkedOut(items, at)
    ensures Distinct(Removed(items, at)) && Chained(Removed(items, at)) && items[at] !in Removed(items, at)
  {
    hide Distinct, Removed, LinkedOut;
    var r := Removed(items, at);
    RemovedElements(items, at);
    forall i | 0 <= i < |r|
      ensures r[i].next == ItemAt(r, i + 1) && r[i].prev == ItemAt(r, i - 1)
    {
      RemovedLink(items, at, if i < at then i else i + 1);
    }
  }

  lemma RemovedLink(items: seq<Item>, at: nat, k: nat)
    requires at < |items| && LinkedOut(items, at) && k < |items| && k != at
    ensures items[k].next == ItemAt(items, if k == at - 1 then at + 1 else k + 1)
    ensures items[k].prev == ItemAt(items, if k == at + 1 then at - 1 else k - 1)
  {
    hide ItemAt;
  }

  lemma RemovedElements(items: seq<Item>, at: nat)
    requires at < |items| && Distinct(items)
    ensures var r := Removed(items, at);
            |r| == |items| - 1 && Distinct(r) && items[at] !in r
            && (forall i :: 0 <= i < |r| ==> r[i] == items[if i < at then i else i + 1])
  {
  }

  /** The chain of `items` with `x` in the place of `items[at]`. */
  predicate LinkedOver(items: seq<Item>, at: nat, x: Item)
    requires at < |items|
    reads items, x
  {
    && x.next == ItemAt(items, at + 1)
    && x.prev == ItemAt(items, at - 1)
    && forall i :: 0 <= i < |items| && i != at ==>
         items[i].next == (if i == at - 1 then x else ItemAt(items, i + 1))
         && items[i].prev == (if i == at + 1 then x else ItemAt(items, i - 1))
  }

  lemma ReplacedChain(items: seq<Item>, at: nat, x: Item)
    requires at < |items| && Distinct(items) && x !in items && LinkedOver(items, at, x)
    ensures Distinct(items[at := x]) && Chained(items[at := x]) && items[at] !in items[at := x]
  {
    var r := items[at := x];
    assert r[at] == x;
    forall i | 0 <= i < |r|
      ensures r[i].next == ItemAt(r, i + 1) && r[i].prev == ItemAt(r, i - 1)
    {
    }
  }

  /** How parse_array, parse_object and cJSON_Duplicate link the items that they make, one
      after the other. */
  method LinkInTurn(items: seq<Item>) returns (head: Item?)
    requires Distinct(items) && forall i :: 0 <= i < |items| ==> items[i].Detached()
    modifies items
    ensures Chained(items) && head == ItemAt(items, 0)
  {
    hide Distinct, Chained, LinkedBehind, ItemAt;
    head := null;
    var current: Item? := null;
    var i := 0;
    NothingChained();
    assert items[..0] == [];
    while i < |items|
      invariant i <= |items| && head == ItemAt(items[..i], 0) && current == ItemAt(items[..i], i - 1)
      invariant Chained(items[..i])
      invariant forall k :: i <= k < |items| ==> items[k].Detached()
    {
      OneMoreLinked(items, i);
      head := LinkNext(items[..i], head, current, items[i]);
      AppendedChain(items[..i], [items[i]]);
      current := items[i];
      i := i + 1;
    }
    assert items[..i] == items;
  }

  /** One turn of these loops. */
  method LinkNext(ghost before: seq<Item>, head: Item?, current: Item?, item: Item) returns (head': Item?)
    requires Distinct(before) && Chained(before) && item !in before && item.Detached()
    requires head == ItemAt(before, 0) && current == ItemAt(before, |before| - 1)
    modifies if current == null then {} else {current}, item
    ensures LinkedBehind(before, [item]) && head' == ItemAt(before + [item], 0)
  {
    head' := head;
    if head == null {
      head' := item;
    } else {
      current.next := item;
      item.prev := current;
    }
  }

  lemma NothingChained()
    ensures Chained([]) && ItemAt([], 0) == ItemAt([], -1) == null
  {
  }

  lemma OneMoreLinked(items: seq<Item>, i: nat)
    requires Distinct(items) && i < |items|
    ensures Distinct(items[..i]) && items[i] !in items[..i] && items[..i + 1] == items[..i] + [items[i]]
    ensures forall k :: i < k < |items| ==> items[k] != items[i] && items[k] !in items[..i]
    ensures ItemAt(items[..i + 1], i) == items[i]
    ensures i > 0 ==> ItemAt(items[..i], i - 1) == items[i - 1] && items[i - 1] in items[..i]
    ensures i == 0 ==> ItemAt(items[..i], i - 1) == null
  {
  }

  function Inserted<T>(s: seq<T>, which: int, x: T): seq<T> {
    if which < 0 then s else if which < |s| then s[..which] + [x] + s[which..] else s + [x]
  }

  function Removed<T>(s: seq<T>, which: int): seq<T> {
    if 0 <= which < |s| then s[..which] + s[which + 1..] else s
  }

  lemma TailApart(items: seq<Item>, tail: seq<Item>)
    requires Distinct(items + tail)
    ensures Distinct(items)
    ensures forall i :: 0 <= i < |items| ==>
              items[i] !in tail && (i < |items| - 1 ==> items[i] != items[|items| - 1])
    ensures forall i :: 0 < i < |tail| ==> tail[i] != tail[0]
  {
    var r := items + tail;
    assert forall i :: 0 <= i < |items| ==> r[i] == items[i];
    assert forall i :: 0 <= i < |tail| ==> r[|items| + i] == tail[i];
  }

  lemma InsertedHead(items: seq<Item>, at: nat, x: Item)
    requires at < |items|
    ensures ItemAt(Inserted(items, at, x), 0) == if at == 0 then x else items[0]
  {
  }

  lemma InsertedOutside(items: seq<Item>, which: int, x: Item)
    ensures which < 0 ==> Inserted(items, which, x) == items
  {
  }

  lemma RemovedHead(items: seq<Item>, at: nat)
    requires at < |items|
    ensures ItemAt(Removed(items, at), 0) == ItemAt(items, if at == 0 then 1 else 0)
  {
  }

  /** An array or object, with its children. */
  class Container {
    var child: Item?
    ghost var items: seq<Item>

    ghost predicate Valid()
      reads this, items
    {
      Distinct(items) && Chained(items) && child == ItemAt(items, 0)
    }

    /** get_array_item */
    method GetArrayItem(index: nat) returns (item: Item?)
      requires Valid()
      ensures item == ItemAt(items, index)
    {
      var i := index;
      item := child;
      while item != null && i > 0
        invariant 0 <= i <= index && item == ItemAt(items, index - i)
        decreases i
      {
        i := i - 1;
        item := item.next;
      }
    }

    /** add_item_to_array. The pointer behind the item stays, so all that it leads comes along;
        an empty container keeps the pointer in front of it too. */
    method AddItemToArray(item: Item?, ghost tail: seq<Item>) returns (ok: bool)
      requires Valid() && (item != null ==> Leads(tail) && tail[0] == item && Distinct(items + tail))
      modifies this, items, item
      ensures ok <==> item != null
      ensures items == if item != null then old(items) + tail else old(items)
      ensures Distinct(items) && child == ItemAt(items, 0) && (ok ==> Leads(items))
      ensures Valid() <==> item == null || old(items) != [] || old(item.prev) == null
    {
      hide Distinct, Chained, LinkedBehind, ItemAt;
      if item == null {
        return false;
      }
      ghost var before := items;
      AppendTo(item, tail);
      items := before + tail;
      NowChained(before, tail);
      ok := true;
    }

    lemma NowChained(before: seq<Item>, tail: seq<Item>)
      requires tail != [] && Distinct(before + tail) && items == before + tail
      requires before != [] || tail[0].prev == null ==> LinkedBehind(before, tail)
      requires before == [] ==> Leads(tail)
      requires child == if before == [] then tail[0] else before[0]
      ensures Distinct(items) && child == ItemAt(items, 0) && Leads(items)
      ensures Valid() <==> before != [] || tail[0].prev == null
    {
      hide Distinct, LinkedBehind;
      assert before == [] ==> items == tail;
      if before != [] || tail[0].prev == null {
        AppendedChain(before, tail);
      }
    }

    /** The pointer updates of an addition at the end. */
    method AppendTo(item: Item, ghost tail: seq<Item>)
      requires Valid() && Leads(tail) && tail[0] == item && Distinct(items + tail)
      modifies this`child, items, item
      ensures items == old(items) && Leads(tail)
      ensures items != [] || item.prev == null ==> LinkedBehind(items, tail)
      ensures items == [] ==> item.prev == old(item.prev)
      ensures child == if items == [] then item else items[0]
    {
      hide Distinct, LinkedBehind;
      TailApart(items, tail);
      if child == null {
        child := item;
        if item.prev == null {
          NothingInFront(items, tail);
        }
      } else {
        var last := LastItem();
        LinkLast(items, last, item, tail);
      }
    }

    /** The walk to the last item. */
    method LastItem() returns (last: Item)
      requires Valid() && items != []
      ensures last == items[|items| - 1]
    {
      ghost var i := 0;
      last := child;
      while last.next != null
        invariant 0 <= i < |items| && last == items[i]
        decreases |items| - i
      {
        last, i := last.next, i + 1;
      }
    }

    /** cJSON_InsertItemInArray */
    method InsertItemInArray(which: int, newitem: Item, ghost tail: seq<Item>)
      requires Valid() && newitem !in items
      requires which >= |items| ==> Leads(tail) && tail[0] == newitem && Distinct(items + tail)
      modifies this, items, newitem
      ensures which < |old(items)| ==> Valid() && items == Inserted(old(items), which, newitem)
      ensures which >= |old(items)| ==>
                items == old(items) + tail && (Valid() <==> old(items) != [] || old(newitem.prev) == null)
    {
      hide Chained, Inserted, Distinct, Leads;
      InsertedOutside(items, which, newitem);
      if which < 0 {
        return;
      }
      var afterInserted := GetArrayItem(which);
      if afterInserted == null {
        var _ := AddItemToArray(newitem, tail);
        return;
      }
      LinkBefore(which, afterInserted, newitem);
      InsertedChain(items, which, newitem);
      InsertedHead(items, which, newitem);
      items := Inserted(items, which, newitem);
    }

    /** The pointer updates of an insertion before `after`. */
    method LinkBefore(ghost at: nat, after: Item, newitem: Item)
      requires Valid() && newitem !in items && at < |items| && items[at] == after
      modifies this`child, items, newitem
      ensures items == old(items) && LinkedIn(items, at, newitem)
      ensures child == if at == 0 then newitem else items[0]
    {
      hide ItemAt;
      ItemAtIs(items, at - 1);
      ItemAtIs(items, 0);
      newitem.next := after;
      newitem.prev := after.prev;
      after.prev := newitem;
      if after == child {
        child := newitem;
      } else {
        newitem.prev.next := newitem;
      }
    }

    /** cJSON_DetachItemViaPointer */
    method DetachItemViaPointer(item: Item?) returns (detached: Item?)
      requires Valid() && (item != null ==> item in items)
      modifies this, items
      ensures Valid() && detached == item
      ensures item == null ==> items == old(items)
      ensures forall i :: 0 <= i < |old(items)| && old(items)[i] == item ==>
                items == Removed(old(items), i) && item !in items
      ensures item != null ==> item.Detached()
    {
      if item == null {
        return null;
      }
      hide *;
      ghost var at :| 0 <= at < |items| && items[at] == item;
      OnlyThere(this, at);
      Take(at, item);
      detached := item;
    }

    /** The detaching itself. */
    method Take(ghost at: nat, item: Item)
      requires Valid() && at < |items| && items[at] == item
      modifies this, items
      ensures Valid() && items == Removed(old(items), at) && item !in items && item.Detached()
    {
      hide Chained, Removed, Distinct, ItemAt, LinkedOut, Item.Detached;
      Unlink(at, item);
      RemovedChain(items, at);
      RemovedHead(items, at);
      items := Removed(items, at);
    }

    /** The pointer updates of a removal. */
    method Unlink(ghost at: nat, item: Item)
      requires Valid() && at < |items| && items[at] == item
      modifies this`child, items
      ensures items == old(items) && LinkedOut(items, at) && item.Detached()
      ensures child == ItemAt(items, if at == 0 then 1 else 0)
    {
      hide ItemAt;
      ItemAtIs(items, at + 1);
      ItemAtIs(items, at - 1);
      ItemAtIs(items, 0);
      ItemAtIs(items, if at == 0 then 1 else 0);
      if item.prev != null {
        item.prev.next := item.next;
      }
      if item.next != null {
        item.next.prev := item.prev;
      }
      if item == child {
        child := item.next;
      }
      item.prev := null;
      item.next := null;
    }

    /** cJSON_DetachItemFromArray */
    method DetachItemFromArray(which: int) returns (detached: Item?)
      requires Valid()
      modifies this, items
      ensures Valid() && detached == ItemAt(old(items), which)
      ensures items == Removed(old(items), which)
      ensures detached != null ==> detached.Detached() && detached !in items
    {
      if which < 0 {
        return null;
      }
      var item := GetArrayItem(which);
      detached := DetachItemViaPointer(item);
    }

    /** cJSON_ReplaceItemViaPointer: frees the replaced item and what hangs below it, and
        nothing else. */
    method ReplaceItemViaPointer(heap: Allocator, item: Item?, replacement: Item?) returns (ok: bool)
      requires Valid() && heap.Valid()
      requires item != null ==> item in items && Blocks(item.node) <= heap.live
      requires replacement != null && replacement != item ==> replacement !in items
      modifies this, items, replacement, heap`live
      ensures Valid() && heap.Valid() && (ok <==> item != null && replacement != null)
      ensures !ok || item == replacement ==> items == old(items) && heap.live == old(heap.live)
      ensures ok && item != replacement ==>
                item.Detached() && heap.live == old(heap.live) - Blocks(item.node)
                && forall i :: 0 <= i < |old(items)| && old(items)[i] == item ==>
                     items == old(items)[i := replacement]
    {
      hide *;
      if replacement == null || item == null {
        return false;
      }
      if replacement == item {
        return true;
      }
      ghost var at :| 0 <= at < |items| && items[at] == item;
      OnlyThere(this, at);
      PutInPlace(at, item, replacement);
      heap.DeleteItem(item.node);
      ok := true;
    }

    /** The replacement itself. */
    method PutInPlace(ghost at: nat, item: Item, replacement: Item)
      requires Valid() && at < |items| && items[at] == item && replacement !in items
      modifies this, items, replacement
      ensures Valid() && items == old(items)[at := replacement] && item.Detached()
    {
      hide Chained, Distinct, ItemAt, LinkedOver, Item.Detached;
      LinkOver(at, item, replacement);
      ReplacedChain(items, at, replacement);
      ItemAtIs(items, 0);
      ItemAtIs(items[at := replacement], 0);
      items := items[at := replacement];
    }

    /** The pointer updates of a replacement. */
    method LinkOver(ghost at: nat, item: Item, replacement: Item)
      requires Valid() && at < |items| && items[at] == item && replacement !in items
      modifies this`child, items, replacement
      ensures items == old(items) && LinkedOver(items, at, replacement) && item.Detached()
      ensures child == if at == 0 then replacement else items[0]
    {
      hide ItemAt;
      ItemAtIs(items, at + 1);
      ItemAtIs(items, at - 1);
      ItemAtIs(items, 0);
      replacement.next := item.next;
      replacement.prev := item.prev;
      if replacement.next != null {
        replacement.next.prev := replacement;
      }
      if replacement.prev != null {
        replacement.prev.next := replacement;
      }
      if child == item {
        child := replacement;
      }
      item.next := null;
      item.prev := null;
    }
  }

  lemma OnlyThere(c: Container, at: nat)
    requires c.Valid() && at < |c.items|
    ensures forall i :: 0 <= i < |c.items| && c.items[i] == c.items[at] ==> i == at
  {
    hide Chained, ItemAt;
  }

  lemma NothingInFront(items: seq<Item>, tail: seq<Item>)
    requires items == [] && Leads(tail) && tail[0].prev == null
    ensures LinkedBehind(items, tail)
  {
  }

  /** The pointer updates behind the last item. */
  method LinkLast(ghost items: seq<Item>, last: Item, item: Item, ghost tail: seq<Item>)
    requires Chained(items) && items != [] && last == items[|items| - 1]
    requires Leads(tail) && tail[0] == item
    requires forall i :: 0 <= i < |items| ==> items[i] !in tail && (i < |items| - 1 ==> items[i] != last)
    requires forall i :: 0 < i < |tail| ==> tail[i] != item
    modifies last, item
    ensures LinkedBehind(items, tail)
  {
    last.next := item;
    item.prev := last;
    assert forall i :: 0 <= i < |tail| ==> tail[i] != last;
    assert forall i :: 0 <= i < |items| ==> items[i] != item;
  }

  /** Detaching undoes inserting. */
  lemma RemoveUndoesInsert<T>(s: seq<T>, which: nat, x: T)
    ensures var at := if which < |s| then which else |s|;
            Removed(Inserted(s, which, x), at) == s
  {
    var at := if which < |s| then which else |s|;
    var r := Inserted(s, which, x);
    assert r[..at] == s[..at] && r[at + 1..] == s[at..];
  }
}
