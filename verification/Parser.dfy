/** The parser: methods that move an offset through the text and build items in blocks
    that an allocator hands out or refuses. */
module Parser {
  import opened Bytes
  import opened JsonTree
  import opened Numerals
  import opened Literal
  import opened Parsing
  import opened StringParsing
  import opened Heap

  class ParseBuffer {
    const content: bytes
    var offset: nat
    var depth: nat
    const heap: Allocator

    ghost predicate Valid()
      reads this, heap
    {
      Terminated(content) && heap.Valid() && !heap.refused && offset <= |content|
    }

    constructor (content: bytes, heap: Allocator)
      requires Terminated(content) && heap.Valid() && !heap.refused
      ensures Valid() && this.content == content && this.heap == heap && offset == depth == 0
    {
      this.content, this.heap, this.offset, this.depth := content, heap, 0, 0;
    }

    /** buffer_skip_whitespace */
    method Skip()
      requires Valid()
      modifies this`offset
      ensures Valid() && offset < |content| && offset == SkipWhitespace(content, old(offset))
    {
      while offset < |content| && content[offset] <= 32
        invariant offset <= |content| && SkipBlanks(content, offset) == SkipBlanks(content, old(offset))
        decreases |content| - offset
      {
        offset := offset + 1;
      }
      if offset == |content| {
        offset := offset - 1;
      }
    }

    /** skip_utf8_bom */
    method SkipByteOrderMark()
      requires Valid() && offset == 0
      modifies this`offset
      ensures Valid() && offset == SkipBom(content)
    {
      if 4 < |content| && At(content, 0, BOM) {
        offset := offset + 3;
      }
    }

    /** parse_number */
    method ReadNumber(item: Node) returns (ok: bool, item': Node)
      requires Valid() && offset < |content|
      modifies this`offset
      ensures Valid()
      ensures ok ==> item' == item.(
                       kind := IsNumber, valuedouble := item'.valuedouble,
                       valueint := ValueInt(item'.valuedouble))
      ensures ok ==> ParseNumber(content, old(offset)) == Ok(Number(item'.valuedouble), offset)
      ensures !ok ==> ParseNumber(content, old(offset)) == Fail(offset)
    {
      hide Strtod, RunLength;
      var text := new byte[NUMBER_TEXT_LIMIT + 1];
      var n := CopyNumber(content, offset, text);
      assert text[..n] == content[offset..offset + n];
      var numeral := Strtod(text[..n]);
      if numeral.consumed == 0 {
        return false, item;
      }
      item' := item.(
        valuedouble := numeral.value, valueint := ValueInt(numeral.value), kind := IsNumber);
      offset := offset + numeral.consumed;
      ok := true;
    }

    /** parse_string behind the sizing scan: the block, and the decoding into it. */
    method ReadLiteral(start: nat, end: nat, skipped: nat) returns (block: Option<Block>)
      requires Valid() && 0 < start <= end < |content| && content[end] == QUOTE
      requires skipped == Skips(content[start..end], 0) && offset == start - 1
      modifies this`offset, heap
      ensures heap.Valid() && heap.live == old(heap.live) + BlockIds(block)
      ensures block.Some? ==>
                !heap.refused && offset == end + 1 && Terminated(block.value.content)
                && Decode(content[start..end], 0)
                   == Decoded(block.value.content[..|block.value.content| - 1])
      ensures block.Some? ==> heap.grants + 1 == old(heap.grants)
      ensures heap.refused ==> old(heap.grants) == 0
      ensures block.None? ==>
                heap.refused
                || (start <= offset && Decode(content[start..end], 0) == Malformed(offset - start))
    {
      hide Decode, Skips;
      SkipsFit(content[start..end]);
      var allocationLength := end - offset - skipped;
      var id := heap.Allocate();
      if id.None? {
        offset := start;
        return None;
      }
      var output := new byte[allocationLength + 1];
      var decoded, stop, written := DecodeString(content, start, end, output);
      if !decoded {
        heap.Free(id.value);
        offset := stop;
        return None;
      }
      offset := end + 1;
      assert output[..written + 1][..written] == output[..written];
      return Some(Block(id.value, output[..written + 1]));
    }

    /** parse_string */
    method ReadString(item: Node) returns (ok: bool, item': Node)
      requires Valid() && offset < |content|
      modifies this`offset, heap
      ensures ok ==> Valid() && item'.valuestring.Some? && item'.kind == IsString
      ensures ok ==> TextEnds(item'.valuestring)
      ensures ok ==> item' == item.(kind := item'.kind, valuestring := item'.valuestring)
      ensures ok ==> ParseString(content, old(offset)) == Ok(Text(item'.valuestring), offset)
      ensures ok ==> heap.live == old(heap.live) + BlockIds(item'.valuestring)
      ensures !ok ==> heap.Valid() && heap.live == old(heap.live)
      ensures !ok ==> heap.refused || ParseString(content, old(offset)) == Fail(offset)
      ensures ok ==> heap.grants + 1 == old(heap.grants)
      ensures heap.refused ==> old(heap.grants) == 0
    {
      hide Decode, ScanEnd, Skips, UpToNul;
      if content[offset] != QUOTE {
        offset := offset + 1;
        return false, item;
      }
      var start := offset + 1;
      var found, end, skipped := ScanString(content, start);
      if !found {
        offset := start;
        return false, item;
      }
      var block := ReadLiteral(start, end, skipped);
      if block.Some? {
        UpToNulOfTerminated(block.value.content);
      }
      item' := item.(kind := IsString, valuestring := block);
      ok := block.Some?;
    }

    /** parse_value; `item` is a new item that may already have its name. */
    method ReadValue(item: Node) returns (ok: bool, item': Node, ghost added: multiset<nat>)
      requires Valid() && offset < |content| && item.valuestring.None? && item.child == []
      requires TextEnds(item.name)
      modifies this, heap
      ensures ok ==> Made(item')
      ensures ok ==> Valid() && depth == old(depth) && item'.name == item.name
      ensures ok ==> ParseValue(content, old(offset), old(depth)) == Ok(Erase(item'), offset)
      ensures ok ==> heap.live == old(heap.live) + added && Blocks(item') == Blocks(item) + added
      ensures !ok ==> heap.Valid() && heap.live == old(heap.live)
      ensures !ok ==> heap.refused || ParseValue(content, old(offset), old(depth)) == Fail(offset)
      ensures ok ==> heap.grants + Needs(Erase(item')) == old(heap.grants) + 1
      ensures heap.refused ==> TooFew(old(heap.grants) + 1, ParseValue(content, old(offset), old(depth)))
      decreases |content| - offset, 6
    {
      hide ParseValue, ParseString, ParseNumber, Blocks, Made, TextEnds, Erase, Text, Terminated,
        IsNullText, IsFalseText, IsTrueText, StartsNumber, ValueInt, BlockIds, Allocator.Valid, TooFew, Needs;
      ValueStep(content, offset, depth);
      added := multiset{};
      var b := content[offset];
      if offset + 4 <= |content| && IsNullText(content, offset) {
        item' := item.(kind := IsNull);
        offset := offset + 4;
      } else if offset + 5 <= |content| && IsFalseText(content, offset) {
        item' := item.(kind := IsFalse);
        offset := offset + 5;
      } else if offset + 4 <= |content| && IsTrueText(content, offset) {
        item' := item.(kind := IsTrue, valueint := 1);
        offset := offset + 4;
      } else if b == QUOTE {
        ok, item' := ReadString(item);
        StringNeeds(ParseString(content, old(offset)));
        if ok {
          LeafRead(item, item');
          added := BlockIds(item'.valuestring);
        }
        return;
      } else if StartsNumber(b) {
        ok, item' := ReadNumber(item);
        if ok {
          LeafRead(item, item');
        }
        return;
      } else if b == LBRACKET {
        ok, item', added := ReadArray(item);
        return;
      } else if b == LBRACE {
        ok, item', added := ReadObject(item);
        return;
      } else {
        return false, item, added;
      }
      LeafRead(item, item');
      ok := true;
    }

    /** One turn of parse_array's loop: a new item at the end of the chain, and its value.
        The offset is one before the blanks in front of the item. */
    method ReadItem(chain: seq<Node>)
      returns (ok: bool, chain': seq<Node>, ghost added: multiset<nat>)
      requires Valid() && offset + 1 < |content| && AllMade(chain) && NoneNamed(chain)
      modifies this, heap
      ensures ok ==> AllMade(chain') && NoneNamed(chain')
      ensures heap.Valid() && heap.live == old(heap.live) + added
      ensures ChainBlocks(chain') == ChainBlocks(chain) + added
      ensures var from := old(offset) + 1;
              var r := ParseValue(content, SkipWhitespace(content, from), old(depth));
              (ok ==> (
                Valid() && depth == old(depth) && r.Ok?
                && EraseItems(chain') == EraseItems(chain) + [r.value]
                && heap.grants + Needs(r.value) == old(heap.grants)
                && offset == SkipWhitespace(content, r.next) && offset > old(offset)))
              && (!ok ==> heap.refused || r == Fail(offset))
              && (heap.refused ==> TooFew(old(heap.grants), r))
      decreases |content| - offset, 1
    {
      hide ParseValue, ChainBlocks, EraseItems, SkipWhitespace, Erase, Blocks, Made, AllMade, NoneNamed, Needs,
        TooFew, Terminated, Allocator.Valid;
      AfterBlanks(content, offset + 1);
      NoneIsTooFew(ParseValue(content, SkipWhitespace(content, offset + 1), depth));
      var id := heap.Allocate();
      if id.None? {
        return false, chain, multiset{};
      }
      added := multiset{id.value};
      var item := NewNode(id.value);
      NewNodeBlocks(id.value);
      offset := offset + 1;
      Skip();
      ghost var more;
      ok, item, more := ReadValue(item);
      if ok {
        added := added + more;
        AfterBlanks(content, offset);
        Skip();
      } else {
        item := NewNode(id.value);
      }
      MadeAppend(chain, item);
      ChainBlocksAppend(chain, item);
      EraseItemsAppend(chain, item);
      chain' := chain + [item];
    }

    /** parse_array's loop, from one before the first item to the closing bracket. */
    method ReadItems() returns (ok: bool, chain: seq<Node>)
      requires Valid() && offset + 1 < |content|
      modifies this, heap
      ensures heap.Valid() && heap.live == old(heap.live) + ChainBlocks(chain)
      ensures ok ==> AllMade(chain) && NoneNamed(chain)
      ensures ok ==> heap.grants + ItemsNeed(EraseItems(chain)) == old(heap.grants)
      ensures var r := ParseItems(content, old(offset) + 1, old(depth));
              (ok ==> (
                Valid() && depth == old(depth) && offset + 1 < |content|
                && r == Ok(EraseItems(chain), offset + 1)))
              && (!ok ==> heap.refused || r == Fail(offset))
              && (heap.refused ==> TooFewForItems(old(heap.grants), r))
      decreases |content| - offset, 2
    {
      hide ParseValue, ParseItems, ChainBlocks, EraseItems, SkipWhitespace, Made, Needs, ItemsNeed, TooFew,
        TooFewForItems;
      chain := [];
      NothingNeeded();
      NoBlocks();
      NoItems();
      ghost var whole := ParseItems(content, offset + 1, depth);
      PrependNothingToItems(whole);
      var more := true;
      while more
        invariant Valid() && depth == old(depth) && old(offset) <= offset < |content|
        invariant more || content[offset] == RBRACKET ==> offset + 1 < |content|
        invariant AllMade(chain) && NoneNamed(chain)
        invariant heap.live == old(heap.live) + ChainBlocks(chain)
        invariant heap.grants + ItemsNeed(EraseItems(chain)) == old(heap.grants)
        invariant more ==> PrependItems(EraseItems(chain), ParseItems(content, offset + 1, depth)) == whole
        invariant !more ==>
                    whole == if content[offset] == RBRACKET then Ok(EraseItems(chain), offset + 1)
                             else Fail(offset)
        decreases |content| - offset, more
      {
        ItemsTurn(content, offset + 1, depth, EraseItems(chain));
        ItemNeeds(content, offset + 1, depth, EraseItems(chain), heap.grants);
        ghost var before, added := ChainBlocks(chain), multiset{};
        ok, chain, added := ReadItem(chain);
        assert old(heap.live) + before + added == old(heap.live) + (before + added);
        if !ok {
          return;
        }
        more := content[offset] == COMMA;
        NotLast(content, offset);
      }
      ok := content[offset] == RBRACKET;
    }

    /** parse_array behind the opening bracket: the chain of children. */
    method ReadArrayBody() returns (ok: bool, head: seq<Node>)
      requires Valid() && 0 < offset < |content|
      modifies this, heap
      ensures ok ==> Valid() && depth == old(depth) && AllMade(head) && NoneNamed(head)
      ensures ok ==> heap.grants + ItemsNeed(EraseItems(head)) == old(heap.grants)
      ensures heap.refused ==> TooFew(old(heap.grants) + 1, ParseArray(content, old(offset), old(depth)))
      ensures ok ==> ParseArray(content, old(offset), old(depth)) == Ok(Array(EraseItems(head)), offset)
      ensures ok ==> heap.live == old(heap.live) + ChainBlocks(head)
      ensures !ok ==> heap.Valid() && heap.live == old(heap.live)
      ensures !ok ==> heap.refused || ParseArray(content, old(offset), old(depth)) == Fail(offset)
      decreases |content| + 1 - offset, 4
    {
      hide ParseItems, ParseArray, ChainBlocks, EraseItems, SkipWhitespace, AllMade, NoneNamed, ItemsNeed, TooFew,
        TooFewForItems, Terminated, Allocator.Valid;
      AfterBlanks(content, offset);
      ArrayBody(content, offset, depth);
      ArrayNeeds(content, offset, depth, heap.grants);
      NothingNeeded();
      NoItems();
      NoBlocks();
      Skip();
      head := [];
      if content[offset] != RBRACKET {
        offset := offset - 1;
        ok, head := ReadItems();
        if !ok {
          GiveBack(old(heap.live), ChainBlocks(head));
          heap.Delete(head);
          return;
        }
      }
      offset := offset + 1;
      ok := true;
    }

    /** parse_array */
    method ReadArray(item: Node) returns (ok: bool, item': Node, ghost added: multiset<nat>)
      requires Valid() && offset < |content| && content[offset] == LBRACKET
      requires item.valuestring.None? && item.child == [] && TextEnds(item.name)
      modifies this, heap
      ensures ok ==> Made(item')
      ensures ok ==> Valid() && depth == old(depth) && item'.name == item.name
      ensures ok ==> ParseValue(content, old(offset), old(depth)) == Ok(Erase(item'), offset)
      ensures ok ==> heap.live == old(heap.live) + added && Blocks(item') == Blocks(item) + added
      ensures !ok ==> heap.Valid() && heap.live == old(heap.live)
      ensures !ok ==> heap.refused || ParseValue(content, old(offset), old(depth)) == Fail(offset)
      ensures ok ==> heap.grants + Needs(Erase(item')) == old(heap.grants) + 1
      ensures heap.refused ==> TooFew(old(heap.grants) + 1, ParseValue(content, old(offset), old(depth)))
      decreases |content| - offset, 5
    {
      hide ParseValue, ParseArray, ChainBlocks, Blocks, EraseItems, Erase, Made, AllMade, NoneNamed, TooFew, Needs,
        ItemsNeed;
      ArrayCases(content, offset, depth);
      added := multiset{};
      if depth >= NESTING_LIMIT {
        return false, item, added;
      }
      depth := depth + 1;
      offset := offset + 1;
      var head;
      ok, head := ReadArrayBody();
      if !ok {
        return false, item, added;
      }
      depth := depth - 1;
      item' := item.(kind := IsArray, child := head);
      ContainerBlocks(item, item');
      ContainerMade(item');
      added := ChainBlocks(head);
    }

    /** One turn of parse_object's loop: a new item at the end of the chain, its name and
        its value. */
    method ReadMember(chain: seq<Node>)
      returns (ok: bool, chain': seq<Node>, ghost added: multiset<nat>)
      requires Valid() && offset + 1 < |content| && AllMade(chain) && AllNamed(chain)
      modifies this, heap
      ensures ok ==> AllMade(chain') && AllNamed(chain')
      ensures heap.Valid() && heap.live == old(heap.live) + added
      ensures ChainBlocks(chain') == ChainBlocks(chain) + added
      ensures var r := ParseMember(content, old(offset) + 1, old(depth));
              (ok ==> (
                Valid() && depth == old(depth) && r.Ok?
                && EraseMembers(chain') == EraseMembers(chain) + [r.value]
                && heap.grants + 1 + Needs(r.value.value) == old(heap.grants)
                && offset == SkipWhitespace(content, r.next) && offset > old(offset)))
              && (!ok ==> heap.refused || r == Fail(offset))
              && (heap.refused ==> TooFewForMember(old(heap.grants), r))
      decreases |content| - offset, 1
    {
      hide ParseValue, ParseMember, ParseString, ChainBlocks, EraseMembers, SkipWhitespace, Erase, Blocks, Text,
        Made, AllMade, AllNamed, Needs, TooFewForMember;
      NoneIsTooFewForMember(ParseMember(content, offset + 1, depth));
      var id := heap.Allocate();
      if id.None? {
        return false, chain, multiset{};
      }
      offset := offset + 1;
      var item' := NewNode(id.value);
      ok, item', added := ReadNamed(item');
      MadeAppend(chain, item');
      ChainBlocksAppend(chain, item');
      EraseMembersAppend(chain, item');
      chain' := chain + [item'];
      added := multiset{id.value} + added;
    }

    /** The name of a member into a new item, and the colon, up to the value. */
    method ReadKey(item: Node) returns (ok: bool, item': Node)
      requires Valid() && offset < |content| && item == NewNode(item.id)
      modifies this, heap
      ensures heap.Valid() && heap.live == old(heap.live) + BlockIds(item'.name)
      ensures item'.id == item.id && item'.valuestring.None? && item'.child == []
      ensures ok ==> Valid() && depth == old(depth) && old(offset) < offset < |content|
      ensures ok ==> item'.name.Some? && TextEnds(item'.name)
      ensures ok ==>
                var r := ParseValue(content, offset, old(depth));
                ParseMember(content, old(offset), old(depth))
                == if r.Ok? then Ok(Member(Text(item'.name), r.value), r.next) else Fail(r.at)
      ensures !ok ==> heap.refused || ParseMember(content, old(offset), old(depth)) == Fail(offset)
      ensures ok ==> heap.grants + 1 == old(heap.grants)
      ensures heap.refused ==> old(heap.grants) == 0
      decreases |content| - offset, 0
    {
      hide ParseValue, ParseMember, ParseString, SkipWhitespace, Text;
      ghost var from := offset;
      AfterBlanks(content, from);
      KeyCases(content, from, depth);
      Skip();
      ok, item' := ReadString(item);
      if !ok {
        item' := item;
        return;
      }
      KeyNext(content, SkipWhitespace(content, from));
      MemberTurn(content, from, depth);
      AfterBlanks(content, offset);
      Skip();
      item' := item'.(name := item'.valuestring, valuestring := None);
      if content[offset] != COLON {
        return false, item';
      }
      offset := offset + 1;
      AfterBlanks(content, offset);
      Skip();
    }

    /** The name and the value of a member into a new item. */
    method ReadNamed(item: Node) returns (ok: bool, item': Node, ghost added: multiset<nat>)
      requires Valid() && offset < |content| && item == NewNode(item.id)
      modifies this, heap
      ensures heap.Valid() && heap.live == old(heap.live) + added
      ensures Blocks(item') == multiset{item.id} + added
      ensures ok ==> Made(item') && item'.name.Some?
      ensures var r := ParseMember(content, old(offset), old(depth));
              (ok ==> (
                Valid() && depth == old(depth) && r.Ok?
                && r.value == Member(Text(item'.name), Erase(item'))
                && heap.grants + Needs(r.value.value) == old(heap.grants)
                && offset == SkipWhitespace(content, r.next) && offset >= old(offset)))
              && (!ok ==> heap.refused || r == Fail(offset))
              && (heap.refused ==> TooFewForMember(old(heap.grants) + 1, r))
      decreases |content| - offset, 7
    {
      hide ParseValue, ParseMember, SkipWhitespace, Erase, Blocks, BlockIds, Text, Made, Needs;
      ok, item' := ReadKey(item);
      NamedBlocks(item, item');
      added := BlockIds(item'.name);
      if !ok {
        return;
      }
      var named := item';
      ghost var more;
      ok, item', more := ReadValue(named);
      if !ok {
        item' := named;
        return;
      }
      added := added + more;
      AfterBlanks(content, offset);
      Skip();
    }

    /** parse_object's loop, from one before the first member to the closing brace. */
    method ReadMembers() returns (ok: bool, chain: seq<Node>)
      requires Valid() && offset + 1 < |content|
      modifies this, heap
      ensures heap.Valid() && heap.live == old(heap.live) + ChainBlocks(chain)
      ensures ok ==> AllMade(chain) && AllNamed(chain)
      ensures ok ==> heap.grants + MembersNeed(EraseMembers(chain)) == old(heap.grants)
      ensures var r := ParseMembers(content, old(offset) + 1, old(depth));
              (ok ==> (
                Valid() && depth == old(depth) && offset + 1 < |content|
                && r == Ok(EraseMembers(chain), offset + 1)))
              && (!ok ==> heap.refused || r == Fail(offset))
              && (heap.refused ==> TooFewForMembers(old(heap.grants), r))
      decreases |content| - offset, 2
    {
      hide ParseMember, ParseMembers, ChainBlocks, EraseMembers, SkipWhitespace, Made, Needs, MembersNeed,
        TooFewForMember, TooFewForMembers;
      chain := [];
      NothingNeeded();
      NoBlocks();
      NoItems();
      ghost var whole := ParseMembers(content, offset + 1, depth);
      PrependNothingToMembers(whole);
      var more := true;
      while more
        invariant Valid() && depth == old(depth) && old(offset) <= offset < |content|
        invariant more || content[offset] == RBRACE ==> offset + 1 < |content|
        invariant AllMade(chain) && AllNamed(chain)
        invariant heap.live == old(heap.live) + ChainBlocks(chain)
        invariant heap.grants + MembersNeed(EraseMembers(chain)) == old(heap.grants)
        invariant more ==> PrependMembers(EraseMembers(chain), ParseMembers(content, offset + 1, depth)) == whole
        invariant !more ==>
                    whole == if content[offset] == RBRACE then Ok(EraseMembers(chain), offset + 1)
                             else Fail(offset)
        decreases |content| - offset, more
      {
        MembersTurn(content, offset + 1, depth, EraseMembers(chain));
        OneMemberNeeds(content, offset + 1, depth, EraseMembers(chain), heap.grants);
        ghost var before, added := ChainBlocks(chain), multiset{};
        ok, chain, added := ReadMember(chain);
        assert old(heap.live) + before + added == old(heap.live) + (before + added);
        if !ok {
          return;
        }
        more := content[offset] == COMMA;
        NotLast(content, offset);
      }
      ok := content[offset] == RBRACE;
    }

    /** parse_object behind the opening brace: the chain of children. */
    method ReadObjectBody() returns (ok: bool, head: seq<Node>)
      requires Valid() && 0 < offset < |content|
      modifies this, heap
      ensures ok ==> Valid() && depth == old(depth) && AllMade(head) && AllNamed(head)
      ensures ok ==> heap.grants + MembersNeed(EraseMembers(head)) == old(heap.grants)
      ensures heap.refused ==> TooFew(old(heap.grants) + 1, ParseObject(content, old(offset), old(depth)))
      ensures ok ==> ParseObject(content, old(offset), old(depth)) == Ok(Object(EraseMembers(head)), offset)
      ensures ok ==> heap.live == old(heap.live) + ChainBlocks(head)
      ensures !ok ==> heap.Valid() && heap.live == old(heap.live)
      ensures !ok ==> heap.refused || ParseObject(content, old(offset), old(depth)) == Fail(offset)
      decreases |content| + 1 - offset, 4
    {
      hide ParseMembers, ParseObject, ChainBlocks, EraseMembers, SkipWhitespace, AllMade, AllNamed, MembersNeed, TooFew,
        TooFewForMembers, Terminated, Allocator.Valid;
      AfterBlanks(content, offset);
      ObjectBody(content, offset, depth);
      ObjectNeeds(content, offset, depth, heap.grants);
      NothingNeeded();
      NoItems();
      NoBlocks();
      Skip();
      head := [];
      if content[offset] != RBRACE {
        offset := offset - 1;
        ok, head := ReadMembers();
        if !ok {
          GiveBack(old(heap.live), ChainBlocks(head));
          heap.Delete(head);
          return;
        }
      }
      offset := offset + 1;
      ok := true;
    }

    /** parse_object */
    method ReadObject(item: Node) returns (ok: bool, item': Node, ghost added: multiset<nat>)
      requires Valid() && offset < |content| && content[offset] == LBRACE
      requires item.valuestring.None? && item.child == [] && TextEnds(item.name)
      modifies this, heap
      ensures ok ==> Made(item')
      ensures ok ==> Valid() && depth == old(depth) && item'.name == item.name
      ensures ok ==> ParseValue(content, old(offset), old(depth)) == Ok(Erase(item'), offset)
      ensures ok ==> heap.live == old(heap.live) + added && Blocks(item') == Blocks(item) + added
      ensures !ok ==> heap.Valid() && heap.live == old(heap.live)
      ensures !ok ==> heap.refused || ParseValue(content, old(offset), old(depth)) == Fail(offset)
      ensures ok ==> heap.grants + Needs(Erase(item')) == old(heap.grants) + 1
      ensures heap.refused ==> TooFew(old(heap.grants) + 1, ParseValue(content, old(offset), old(depth)))
      decreases |content| - offset, 5
    {
      hide ParseValue, ParseObject, ChainBlocks, Blocks, EraseMembers, Erase, Made, AllMade, AllNamed, TooFew, Needs,
        MembersNeed;
      ObjectCases(content, offset, depth);
      added := multiset{};
      if depth >= NESTING_LIMIT {
        return false, item, added;
      }
      depth := depth + 1;
      offset := offset + 1;
      var head;
      ok, head := ReadObjectBody();
      if !ok {
        return false, item, added;
      }
      depth := depth - 1;
      item' := item.(kind := IsObject, child := head);
      ContainerBlocks(item, item');
      ContainerMade(item');
      added := ChainBlocks(head);
    }
  }

  /** cJSON_ParseWithOpts. A tree comes back if and only if the text is accepted and the hook
      grants as many requests as the tree has blocks. On failure every block allocated on the
      way is free again; on success the blocks that are live beyond those of before are those
      of the tree. */
  method ParseText(value: bytes, requireNulTerminated: bool, heap: Allocator)
    returns (root: Option<Node>, end: nat)
    requires Terminated(value) && heap.Valid() && !heap.refused
    modifies heap
    ensures heap.Valid()
    ensures root.Some? ==>
              !heap.refused && heap.live == old(heap.live) + Blocks(root.value) && Made(root.value)
              && ParseWithOpts(value, requireNulTerminated) == Ok(Erase(root.value), end)
    ensures root.None? ==> heap.live == old(heap.live)
    ensures root.None? ==> heap.refused || ParseWithOpts(value, requireNulTerminated) == Fail(end)
    ensures root.Some? <==>
              var r := ParseWithOpts(value, requireNulTerminated);
              r.Ok? && Needs(r.value) <= old(heap.grants)
    ensures root.Some? ==>
              |Blocks(root.value)| == Needs(Erase(root.value))
              && heap.grants + |Blocks(root.value)| == old(heap.grants)
  {
    hide ParseWithOpts, Blocks, Erase, ChainBlocks, Made, Needs, Terminated, Allocator.Valid;
    NoneIsTooFew(ParseWithOpts(value, requireNulTerminated));
    var buffer := new ParseBuffer(value, heap);
    var id := heap.Allocate();
    if id.None? {
      return None, 0;
    }
    var item := NewNode(id.value);
    NewNodeBlocks(id.value);
    var ok, parsed;
    ghost var added;
    ok, parsed, added := ParseRoot(buffer, item, requireNulTerminated);
    assert heap.live == old(heap.live) + Blocks(parsed) by {
      AddedInTurn(old(heap.live), multiset{id.value}, added);
    }
    if !ok {
      SingleChain(parsed);
      GiveBack(old(heap.live), Blocks(parsed));
      heap.Delete([parsed]);
      return None, if buffer.offset < |value| then buffer.offset else |value| - 1;
    }
    BlocksAreNeeded(parsed);
    return Some(parsed), buffer.offset;
  }

  /** The text into the root item, and the check for the terminator behind it. */
  method ParseRoot(buffer: ParseBuffer, item: Node, requireNulTerminated: bool)
    returns (ok: bool, parsed: Node, ghost added: multiset<nat>)
    requires buffer.Valid() && buffer.offset == buffer.depth == 0 && item == NewNode(item.id)
    modifies buffer, buffer.heap
    ensures buffer.heap.Valid() && buffer.heap.live == old(buffer.heap.live) + added
    ensures Blocks(parsed) == Blocks(item) + added && parsed.name.None?
    ensures ok ==> buffer.heap.grants + Needs(Erase(parsed)) == old(buffer.heap.grants) + 1
    ensures buffer.heap.refused ==>
              TooFew(old(buffer.heap.grants) + 1, ParseWithOpts(buffer.content, requireNulTerminated))
    ensures ok ==>
              !buffer.heap.refused && Made(parsed)
              && ParseWithOpts(buffer.content, requireNulTerminated) == Ok(Erase(parsed), buffer.offset)
    ensures !ok ==>
              buffer.heap.refused
              || ParseWithOpts(buffer.content, requireNulTerminated)
                 == Fail(if buffer.offset < |buffer.content| then buffer.offset else |buffer.content| - 1)
  {
    hide ParseValue, Blocks, Erase, SkipWhitespace, SkipBom, Made, Needs;
    buffer.SkipByteOrderMark();
    buffer.Skip();
    ok, parsed, added := buffer.ReadValue(item);
    if !ok {
      parsed, added := item, multiset{};
    } else if requireNulTerminated {
      buffer.Skip();
      ok := buffer.content[buffer.offset] == NUL;
    }
  }

  lemma AddedInTurn(a: multiset<nat>, b: multiset<nat>, c: multiset<nat>)
    ensures a + b + c == a + (b + c)
  {
  }

  lemma SingleChain(n: Node)
    ensures ChainBlocks([n]) == Blocks(n)
  {
    assert ChainBlocks([n]) == Blocks(n) + ChainBlocks([]);
  }

  /** So many grants are fewer than what is read would need. */
  ghost predicate TooFew(grants: nat, r: Outcome<Json>) {
    r.Ok? ==> grants < Needs(r.value)
  }

  ghost predicate TooFewForItems(grants: nat, r: Outcome<seq<Json>>) {
    r.Ok? ==> grants < ItemsNeed(r.value)
  }

  /** The item, its name, and the value. */
  ghost predicate TooFewForMember(grants: nat, r: Outcome<Member>) {
    r.Ok? ==> grants < 1 + Needs(r.value.value)
  }

  ghost predicate TooFewForMembers(grants: nat, r: Outcome<seq<Member>>) {
    r.Ok? ==> grants < MembersNeed(r.value)
  }

  lemma NoneIsTooFew(r: Outcome<Json>)
    ensures TooFew(0, r)
  {
    hide Needs;
  }

  lemma NoneIsTooFewForMember(r: Outcome<Member>)
    ensures TooFewForMember(0, r)
  {
    hide Needs;
  }

  lemma StringNeeds(r: Outcome<bytes>)
    ensures TooFew(1, match r case Ok(text, k) => Ok(String(text), k) case Fail(k) => Fail(k))
  {
  }

  /** A refused item makes the whole array need too much. */
  lemma ItemNeeds(s: bytes, from: nat, depth: nat, before: seq<Json>, grants: nat)
    requires Terminated(s) && from < |s|
    ensures var r := ParseValue(s, SkipWhitespace(s, from), depth);
            (r.Ok? ==> ItemsNeed(before + [r.value]) == ItemsNeed(before) + Needs(r.value))
            && (TooFew(grants, r) ==>
                  TooFewForItems(grants + ItemsNeed(before), PrependItems(before, ParseItems(s, from, depth))))
  {
    hide ParseValue, ParseItems, SkipWhitespace, Needs, ItemsNeed;
    ItemsStep(s, from, depth);
    var r := ParseValue(s, SkipWhitespace(s, from), depth);
    if r.Ok? {
      OneItemNeeds(r.value);
      ItemsNeedInTwo(before, [r.value]);
      var whole := ParseItems(s, from, depth);
      if whole.Ok? {
        ItemsNeedInTwo(before, whole.value);
        ItemsNeedInTwo([r.value], whole.value[1..]);
        assert [r.value] + whole.value[1..] == whole.value;
      }
    }
  }

  lemma OneItemNeeds(v: Json)
    ensures ItemsNeed([v]) == Needs(v)
  {
    hide Needs;
  }

  lemma OneMemberNeeds(s: bytes, from: nat, depth: nat, before: seq<Member>, grants: nat)
    requires Terminated(s) && from < |s|
    ensures var r := ParseMember(s, from, depth);
            (r.Ok? ==> MembersNeed(before + [r.value]) == MembersNeed(before) + 1 + Needs(r.value.value))
            && (TooFewForMember(grants, r) ==>
                  TooFewForMembers(grants + MembersNeed(before), PrependMembers(before, ParseMembers(s, from, depth))))
  {
    hide ParseMember, ParseMembers, SkipWhitespace, Needs, MembersNeed;
    MembersStep(s, from, depth);
    var r := ParseMember(s, from, depth);
    if r.Ok? {
      SingleMemberNeeds(r.value);
      MembersNeedInTwo(before, [r.value]);
      var whole := ParseMembers(s, from, depth);
      if whole.Ok? {
        MembersNeedInTwo(before, whole.value);
        MembersNeedInTwo([r.value], whole.value[1..]);
        assert [r.value] + whole.value[1..] == whole.value;
      }
    }
  }

  lemma SingleMemberNeeds(m: Member)
    ensures MembersNeed([m]) == 1 + Needs(m.value)
  {
    hide Needs;
  }

  lemma ArrayNeeds(s: bytes, i: nat, depth: nat, grants: nat)
    requires Terminated(s) && i < |s|
    ensures var j := SkipWhitespace(s, i);
            s[j] != RBRACKET && TooFewForItems(grants, ParseItems(s, j, depth)) ==>
              TooFew(grants + 1, ParseArray(s, i, depth))
  {
    hide ParseItems, SkipWhitespace, ItemsNeed;
  }

  lemma ObjectNeeds(s: bytes, i: nat, depth: nat, grants: nat)
    requires Terminated(s) && i < |s|
    ensures var j := SkipWhitespace(s, i);
            s[j] != RBRACE && TooFewForMembers(grants, ParseMembers(s, j, depth)) ==>
              TooFew(grants + 1, ParseObject(s, i, depth))
  {
    hide ParseMembers, SkipWhitespace, MembersNeed;
  }

  lemma KeyCases(s: bytes, from: nat, depth: nat)
    requires Terminated(s) && from < |s|
    ensures var r := ParseString(s, SkipWhitespace(s, from));
            r.Fail? ==> ParseMember(s, from, depth) == Fail(r.at)
  {
    hide ParseString, ParseValue, SkipWhitespace;
  }

  lemma KeyNext(s: bytes, i: nat)
    requires Terminated(s) && i < |s| && ParseString(s, i).Ok?
    ensures i < ParseString(s, i).next < |s|
  {
  }

  lemma NamedBlocks(item: Node, item': Node)
    requires item == NewNode(item.id) && item'.id == item.id && item'.child == []
    requires item'.valuestring.None?
    ensures Blocks(item') == multiset{item.id} + BlockIds(item'.name)
  {
  }

  ghost function PrependMembers(before: seq<Member>, r: Outcome<seq<Member>>): Outcome<seq<Member>> {
    if r.Ok? then Ok(before + r.value, r.next) else r
  }

  lemma PrependNothingToMembers(r: Outcome<seq<Member>>)
    ensures PrependMembers([], r) == r
  {
    if r.Ok? {
      assert [] + r.value == r.value;
    }
  }

  /** What one turn of the object loop does to the outcome of the whole loop. */
  lemma MembersTurn(s: bytes, from: nat, depth: nat, before: seq<Member>)
    requires Terminated(s) && from < |s|
    ensures var whole := PrependMembers(before, ParseMembers(s, from, depth));
            var r := ParseMember(s, from, depth);
            if r.Fail? then whole == Fail(r.at)
            else
              var m := SkipWhitespace(s, r.next);
              if s[m] == COMMA then
                m + 1 < |s| && whole == PrependMembers(before + [r.value], ParseMembers(s, m + 1, depth))
              else if s[m] == RBRACE then whole == Ok(before + [r.value], m + 1)
              else whole == Fail(m)
  {
    hide ParseMember, ParseMembers, SkipWhitespace;
    MembersStep(s, from, depth);
    var r := ParseMember(s, from, depth);
    if r.Ok? && s[SkipWhitespace(s, r.next)] == COMMA {
      var rest := ParseMembers(s, SkipWhitespace(s, r.next) + 1, depth);
      if rest.Ok? {
        assert before + ([r.value] + rest.value) == before + [r.value] + rest.value;
      }
    }
  }

  /** What parse_value does at an opening brace. */
  lemma ObjectCases(s: bytes, i: nat, depth: nat)
    requires Terminated(s) && i < |s| && s[i] == LBRACE
    ensures i + 1 < |s|
    ensures depth >= NESTING_LIMIT ==> ParseValue(s, i, depth) == Fail(i)
    ensures depth < NESTING_LIMIT ==> ParseValue(s, i, depth) == ParseObject(s, i + 1, depth + 1)
  {
    hide ParseObject, ParseString, ParseNumber;
  }

  /** What parse_value does at an opening bracket. */
  lemma ArrayCases(s: bytes, i: nat, depth: nat)
    requires Terminated(s) && i < |s| && s[i] == LBRACKET
    ensures i + 1 < |s|
    ensures depth >= NESTING_LIMIT ==> ParseValue(s, i, depth) == Fail(i)
    ensures depth < NESTING_LIMIT ==> ParseValue(s, i, depth) == ParseArray(s, i + 1, depth + 1)
  {
    hide ParseArray, ParseString, ParseNumber;
  }

  lemma ContainerBlocks(item: Node, item': Node)
    requires item'.id == item.id && item'.name == item.name && item'.valuestring == item.valuestring
    requires item.child == []
    ensures Blocks(item') == Blocks(item) + ChainBlocks(item'.child)
    ensures item'.kind == IsArray ==>
              Erase(item') == Array(EraseItems(item'.child))
              && Needs(Erase(item')) == 1 + ItemsNeed(EraseItems(item'.child))
    ensures item'.kind == IsObject ==>
              Erase(item') == Object(EraseMembers(item'.child))
              && Needs(Erase(item')) == 1 + MembersNeed(EraseMembers(item'.child))
  {
    hide ChainBlocks, BlockIds, EraseItems, EraseMembers, ItemsNeed, MembersNeed;
    NoBlocks();
  }

  lemma NewNodeBlocks(id: nat)
    ensures Blocks(NewNode(id)) == multiset{id}
    ensures NewNode(id).valuestring.None? && NewNode(id).child == []
  {
  }

  lemma ArrayBody(s: bytes, i: nat, depth: nat)
    requires Terminated(s) && i < |s|
    ensures var j := SkipWhitespace(s, i);
            (ParseArray(s, i, depth)
             == if s[j] == RBRACKET then Ok(Array([]), j + 1)
              else
                match ParseItems(s, j, depth)
                case Fail(k) => Fail(k)
                case Ok(items, k) => Ok(Array(items), k))
  {
    hide ParseItems, SkipWhitespace;
  }

  lemma ObjectBody(s: bytes, i: nat, depth: nat)
    requires Terminated(s) && i < |s|
    ensures var j := SkipWhitespace(s, i);
            (ParseObject(s, i, depth)
             == if s[j] == RBRACE then Ok(Object([]), j + 1)
              else
                match ParseMembers(s, j, depth)
                case Fail(k) => Fail(k)
                case Ok(members, k) => Ok(Object(members), k))
  {
    hide ParseMembers, SkipWhitespace;
  }

  lemma NoItems()
    ensures EraseItems([]) == [] && EraseMembers([]) == []
    ensures AllMade([]) && AllNamed([]) && NoneNamed([])
  {
  }

  ghost function PrependItems(before: seq<Json>, r: Outcome<seq<Json>>): Outcome<seq<Json>> {
    if r.Ok? then Ok(before + r.value, r.next) else r
  }

  lemma PrependNothingToItems(r: Outcome<seq<Json>>)
    ensures PrependItems([], r) == r
  {
    if r.Ok? {
      assert [] + r.value == r.value;
    }
  }

  lemma NotLast(s: bytes, i: nat)
    requires Terminated(s) && i < |s|
    ensures s[i] == COMMA || s[i] == RBRACKET || s[i] == RBRACE || s[i] == COLON ==> i + 1 < |s|
  {
  }

  /** What one turn of the array loop does to the outcome of the whole loop. */
  lemma ItemsTurn(s: bytes, from: nat, depth: nat, before: seq<Json>)
    requires Terminated(s) && from < |s|
    ensures var whole := PrependItems(before, ParseItems(s, from, depth));
            var r := ParseValue(s, SkipWhitespace(s, from), depth);
            if r.Fail? then whole == Fail(r.at)
            else
              var m := SkipWhitespace(s, r.next);
              if s[m] == COMMA then
                m + 1 < |s| && whole == PrependItems(before + [r.value], ParseItems(s, m + 1, depth))
              else if s[m] == RBRACKET then whole == Ok(before + [r.value], m + 1)
              else whole == Fail(m)
  {
    hide ParseValue, ParseItems, SkipWhitespace;
    ItemsStep(s, from, depth);
    var r := ParseValue(s, SkipWhitespace(s, from), depth);
    if r.Ok? && s[SkipWhitespace(s, r.next)] == COMMA {
      var rest := ParseItems(s, SkipWhitespace(s, r.next) + 1, depth);
      if rest.Ok? {
        assert before + ([r.value] + rest.value) == before + [r.value] + rest.value;
      }
    }
  }

  /** parse_value's dispatch, one case for each kind of first byte. */
  lemma ValueStep(s: bytes, i: nat, depth: nat)
    requires Terminated(s) && i < |s|
    ensures IsNullText(s, i) ==> ParseValue(s, i, depth) == Ok(Null, i + 4) && i + 4 < |s|
    ensures IsFalseText(s, i) ==> ParseValue(s, i, depth) == Ok(False, i + 5) && i + 5 < |s|
    ensures IsTrueText(s, i) ==> ParseValue(s, i, depth) == Ok(True, i + 4) && i + 4 < |s|
    ensures s[i] == QUOTE ==>
              ParseValue(s, i, depth)
              == match ParseString(s, i)
                 case Ok(text, k) => Ok(String(text), k)
                 case Fail(k) => Fail(k)
    ensures StartsNumber(s[i]) ==> ParseValue(s, i, depth) == ParseNumber(s, i)
    ensures !IsNullText(s, i) && !IsFalseText(s, i) && !IsTrueText(s, i) && s[i] != QUOTE
            && !StartsNumber(s[i]) && s[i] != LBRACKET && s[i] != LBRACE ==>
              ParseValue(s, i, depth) == Fail(i)
  {
    hide ParseString, ParseNumber, ParseArray, ParseObject;
  }

  lemma ContainerMade(n: Node)
    requires n.valuestring.None? && TextEnds(n.name) && AllMade(n.child)
    requires (n.kind == IsArray && NoneNamed(n.child)) || (n.kind == IsObject && AllNamed(n.child))
    ensures Made(n)
  {
  }

  lemma MadeAppend(chain: seq<Node>, n: Node)
    ensures AllMade(chain) && Made(n) ==> AllMade(chain + [n])
    ensures AllNamed(chain) && n.name.Some? ==> AllNamed(chain + [n])
    ensures NoneNamed(chain) && n.name.None? ==> NoneNamed(chain + [n])
  {
    hide Made;
  }

  /** What a new item becomes when a value without children is read into it. */
  lemma LeafRead(item: Node, item': Node)
    requires item'.id == item.id && item'.name == item.name && item'.child == item.child == []
    requires item.valuestring.None? && TextEnds(item.name)
    requires item'.valuestring.Some? ==> TextEnds(item'.valuestring)
    requires IsLeaf(item'.kind) && (item'.valuestring.Some? <==> item'.kind == IsString)
    requires item'.kind == IsNumber ==> item'.valueint == ValueInt(item'.valuedouble)
    ensures Made(item')
    ensures Blocks(item') == Blocks(item) + BlockIds(item'.valuestring)
    ensures item'.valuestring.None? ==> Blocks(item') == Blocks(item) == Blocks(item) + multiset{}
    ensures item'.kind == IsNull ==> Erase(item') == Null
    ensures item'.kind == IsFalse ==> Erase(item') == False
    ensures item'.kind == IsTrue ==> Erase(item') == True
    ensures item'.kind == IsNumber ==> Erase(item') == Number(item'.valuedouble)
    ensures item'.kind == IsString ==> Erase(item') == String(Text(item'.valuestring))
    ensures Needs(Erase(item')) == if item'.kind == IsString then 2 else 1
  {
    hide *;
    LeafIsMade(item');
    LeafBlocks(item, item');
    LeafErased(item');
  }

  predicate IsLeaf(kind: Kind) {
    kind in {IsNull, IsFalse, IsTrue, IsNumber, IsString}
  }

  lemma LeafIsMade(n: Node)
    requires n.child == [] && TextEnds(n.name) && (n.valuestring.Some? ==> TextEnds(n.valuestring))
    requires IsLeaf(n.kind) && (n.valuestring.Some? <==> n.kind == IsString)
    requires n.kind == IsNumber ==> n.valueint == ValueInt(n.valuedouble)
    ensures Made(n)
  {
    hide ValueInt, Terminated;
    NoText();
  }

  lemma NoText()
    ensures TextEnds(None)
  {
  }

  lemma LeafBlocks(item: Node, item': Node)
    requires item'.id == item.id && item'.name == item.name && item'.child == item.child
    requires item.valuestring.None?
    ensures Blocks(item') == Blocks(item) + BlockIds(item'.valuestring)
    ensures item'.valuestring.None? ==> Blocks(item') == Blocks(item) == Blocks(item) + multiset{}
  {
    hide ChainBlocks;
  }

  lemma LeafErased(n: Node)
    requires IsLeaf(n.kind)
    ensures n.kind == IsNull ==> Erase(n) == Null
    ensures n.kind == IsFalse ==> Erase(n) == False
    ensures n.kind == IsTrue ==> Erase(n) == True
    ensures n.kind == IsNumber ==> Erase(n) == Number(n.valuedouble)
    ensures n.kind == IsString ==> Erase(n) == String(Text(n.valuestring))
    ensures Needs(Erase(n)) == if n.kind == IsString then 2 else 1
  {
    hide Text;
  }

  lemma {:induction false} UpToNulOfTerminated(s: bytes)
    requires Terminated(s)
    ensures UpToNul(s) == UpToNul(s[..|s| - 1])
    decreases |s|
  {
    hide UpToNul;
    UpToNulStep(s);
    UpToNulStep(s[..|s| - 1]);
    if |s| > 1 {
      assert s[1..][..|s| - 2] == s[..|s| - 1][1..];
      UpToNulOfTerminated(s[1..]);
    }
  }

  lemma UpToNulStep(s: bytes)
    ensures UpToNul(s) == if s == [] || s[0] == NUL then [] else [s[0]] + UpToNul(s[1..])
  {
  }

  /** The copying loop of parse_number. */
  method CopyNumber(content: bytes, offset: nat, text: array<byte>) returns (n: nat)
    requires offset <= |content| && text.Length == NUMBER_TEXT_LIMIT + 1
    modifies text
    ensures n == RunLength(content, offset, NUMBER_TEXT_LIMIT) && n < text.Length
    ensures forall k :: 0 <= k < n ==> text[k] == content[offset + k]
  {
    hide RunLength, IsNumberByte;
    n := 0;
    while n < text.Length - 1 && offset + n < |content| && IsNumberByte(content[offset + n])
      invariant n <= NUMBER_TEXT_LIMIT && offset + n <= |content|
      invariant n + RunLength(content, offset + n, NUMBER_TEXT_LIMIT - n)
             == RunLength(content, offset, NUMBER_TEXT_LIMIT)
      invariant forall k :: 0 <= k < n ==> text[k] == content[offset + k]
    {
      RunLengthStep(content, offset + n, NUMBER_TEXT_LIMIT - n);
      text[n] := content[offset + n];
      n := n + 1;
    }
    RunLengthStep(content, offset + n, NUMBER_TEXT_LIMIT - n);
    text[n] := NUL;
  }

  lemma RunLengthStep(s: bytes, i: nat, limit: nat)
    requires i <= |s|
    ensures RunLength(s, i, limit)
         == if limit > 0 && i < |s| && IsNumberByte(s[i]) then 1 + RunLength(s, i + 1, limit - 1) else 0
  {
  }

  lemma SkipsFit(lit: bytes)
    ensures Skips(lit, 0) <= |lit| + 1
  {
    SkipsBound(lit, 0);
  }
}
