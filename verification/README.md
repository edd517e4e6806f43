# Verified model of the gateway's JSON library, framing and session

This project models the parts of the gateway that carry its logic, and proves what they promise.

* **cJSON 1.7.7.** A pure parser (`Parsing`, `Literal`, `Numerals`, `Utf16`, `Bits`) and renderer (`Rendering`) over
  byte sequences; the round trip between them (`RoundTrip`); texts built from a grammar, by the rules of RFC 8259 or by
  more lenient ones (`Meaning`, `Grammar`), that every such text is accepted (`Acceptance`) and that nothing else is
  (`Dialect`); where a wrong text is given up (`Errors`); that what is printed follows RFC 8259 and how it is laid out
  (`Conformity`, `Layout`, `Scanning`); the minifier, what it preserves and what it takes out (`Minify`,
  `MinifyFormatted`, `MinifyMeaning`, `MinifyScan`). Beside them the code in its own shape: the printer over a growable
  or fixed buffer and the room it asks for (`Printer`, `Room`), the parser over a buffer, an offset and an allocator that
  may refuse (`Parser`, `StringParsing`, `Heap`), comparison and copying (`Comparison`, `Duplication`) and the doubly
  linked sibling lists (`Siblings`).
* **The TCP stream.** Frames and how a stream splits (`Framing`), the receive buffer (`Receiving`), the numbered message
  queue (`Messages`), sending over a socket that may take only a part (`Sending`).
* **The session.** The accept thread, the receive thread, the timer, the DMA callback and the event loop as one state
  machine (`Session`, `Sockets`, `ClientLoss`), and the objects whose methods take its steps (`EventLoop`, `Gateway`).

Bytes are integers from 0 to 255, sizes are natural numbers, and where the source relies on a 32-bit limit
(`INT_MAX`, `SIZE_MAX`, the 32-bit fields of a frame) the limit is written out; the build target is 32-bit ARM.
`dafny verify dfyconfig.toml` checks everything.

## What came out

Where the code does not keep what one would expect of it, the exact condition under which it does is proved instead.

* `cJSON_Duplicate` does not always give a tree that `cJSON_Compare` calls equal: with a repeated key the first match
  counts (`Duplication.RepeatedKeyIsUnlikeItsCopy`, and for one tree `Duplication.TwoNumbersAreUnlikeTheirCopy`). The
  copy compares equal if and only if, in the original, no item is invalid, no string lacks its text, every member has a
  name and repeated keys agree (`Duplication.CopyIsAlike`).
* The "5 bytes more" that cJSON.h:152 advises for `cJSON_PrintPreallocated` are two bytes more than the text: the
  terminator and one byte more are both necessary and together sufficient (`Printer.PrintPreallocated`).
* The parser accepts more than RFC 8259: any byte up to 32 for a blank, any byte as it is in a string, a \u group
  without four digits for `\u0000`, numbers like `01` or `1.`. With these rules added to the grammar it accepts exactly
  the texts of the grammar, and as the values the grammar gives them (`Dialect.AcceptedExactly`).
* A string with `\u0000` in it is cut there (`Acceptance.CutAtNul`). A text keeps all its characters if and only if none
  of them is U+0000 (`Acceptance.StringParses`, `Acceptance.GrammarIsAccepted`).
* The error that the parser reports for a key without its quote is one byte behind the culprit, and for a string that
  nothing closes right behind its quote (`Errors.ErrorInString`); all other errors are at the value, the escape or
  the byte that does not fit (`Errors.ErrorIsWhereStuck`).
* Memory: parsing and copying succeed if and only if as many requests are granted as the tree has blocks
  (`Parser.ParseText`, `Duplication.Duplicate`). Printing takes one for the buffer, one for each time the buffer is
  enlarged and one for the text, no fewer and no more (`Printer.Print`), and so at most 25, whatever the tree
  (`Room.EnlargementsOfText`).
* An item that is added at the end while it is still linked elsewhere brings along all that follows it there; in an empty
  array it also keeps its predecessor, and the chain is then no proper one (`Siblings.Container.AddItemToArray`).
* The bytes on one socket can lose their framing: a send may fall short before the client's accept message is handled,
  and the handling of that message (`Sockets.OwnMessageResumes`), or of an earlier client's
  (`Sockets.EarlierMessageResumes`), enables sending again. A receiver gets all that may follow if and only if no send
  since the accept took a part of a frame (`Sending.RecoverableIffNoPartTaken`, and for the runs of the session
  `Sockets.SocketInSession`).
* A heart beat can meet a null client. It can come between a time-out and its handling (`ClientLoss.LateHeartBeat`), and
  it can come from a client whose receive thread runs before it is announced, even the very first
  (`ClientLoss.EarlyHeartBeat`); so no state without a client is safe (`ClientLoss.EveryClientCanBeEarly`). At no moment of
  a run could the event loop by itself still come to such a heart beat, if and only if none was waiting when a client was
  given up and none came before its client was announced (`ClientLoss.HeartBeatsFindClients`,
  `ClientLoss.GivingUpStrandsHeartBeats`).
* The last time-out of a stopped timer can end the next client's session at once (`ClientLoss.StaleTimeout`). A new
  client outlives the messages waiting when it is announced if and only if each time-out among them comes behind a heart
  beat of its own (`ClientLoss.NewClientSurvives`).

## Model

Paths are relative to the root of the repository's sources.

| member | source | states |
|---|---|---|
| `RoundTrip.ParseUndoesPrint` | code/dependence/cjson/cJSON.c:1000-1077 | Parsing undoes printing, formatted or not, with and without the demand for a terminator: the text of a printable tree is accepted to its end as the same tree if and only if the tree nests at most 1000 containers; otherwise parsing fails. |
| `RoundTrip.RenderParses` | code/dependence/cjson/cJSON.c:1212-1264 | The same at any offset, depth and indentation, inside any longer text whose next byte cannot continue a number. |
| `RoundTrip.ArrayParses` | code/dependence/cjson/cJSON.c:1341-1432 | The text of an array parses to its items in order, provided the depth left suffices; it fails exactly when it does not. |
| `RoundTrip.ObjectParses` | code/dependence/cjson/cJSON.c:1497-1603 | The text of an object parses to its members in order with their keys, under the same condition. |
| `RoundTrip.NumberParses` | code/dependence/cjson/cJSON.c:266-340 | A printed integer of at most 15 digits is read back with its value and its end, provided the byte behind it is none that the copying loop would take along. |
| `Numerals.StrtodOfDecimal` | code/dependence/cjson/cJSON.c:474-537 | The conversion consumes a printed integer to its last digit and gives its value back, sign included. |
| `JsonTree.ValueInt` | code/dependence/cjson/cJSON.c:322-334 | The integer kept beside the double: the double without its fraction, saturated at the bounds of a 32-bit int. |
| `Parsing.NestingWithinLimit` | code/dependence/cjson/cJSON.c:1212-1264 | Whatever is accepted at some depth nests no deeper than the limit allows from there on. |
| `Parsing.ItemsWithinLimit` | code/dependence/cjson/cJSON.c:1341-1432 | The same for the items of an accepted array. |
| `Parsing.MembersWithinLimit` | code/dependence/cjson/cJSON.c:1497-1603 | The same for the members of an accepted object. |
| `Parsing.ParseValue` | code/dependence/cjson/cJSON.c:1212-1264 | Success ends strictly behind the start and before the end of the buffer, on every terminated input; the recursion ends by the bytes that are left although array and object step the offset back. |
| `Parsing.ParseWithOpts` | code/dependence/cjson/cJSON.c:1000-1077 | The reported end and the reported error position lie inside the buffer; with the demand for a terminator a success ends at a NUL. |
| `Parsing.SkipWhitespace` | code/dependence/cjson/cJSON.c:963-981 | The offset after blanks stays inside the buffer, because of the step back at its end. |
| `Parser.ParseText` | code/dependence/cjson/cJSON.c:1000-1077 | A tree comes back if and only if the text is accepted as specified and as many requests for memory are granted as the tree has blocks: one for each item, each string and each name. On success these blocks are exactly the new live ones, each once; on failure every block taken on the way is free again. End and error offset are the specified ones. |
| `Parser.ParseBuffer.ReadValue` | code/dependence/cjson/cJSON.c:1212-1264 | Dispatch over the first bytes agrees with the specification in value, offset and error offset; the depth is restored; the blocks added are those of the value. |
| `Parser.ParseBuffer.ReadArray` | code/dependence/cjson/cJSON.c:1341-1432 | An array is read as specified, or nothing of it stays allocated. |
| `Parser.ParseBuffer.ReadItems` | code/dependence/cjson/cJSON.c:1373-1413 | The loop builds the chain of items in order; what is allocated at any exit is exactly the chain built so far. |
| `Parser.ParseBuffer.ReadObject` | code/dependence/cjson/cJSON.c:1497-1603 | An object is read as specified, keys moved into the name of the item, or nothing of it stays allocated. |
| `Parser.ParseBuffer.ReadMembers` | code/dependence/cjson/cJSON.c:1527-1585 | The loop builds the chain of members in order; what is allocated at any exit is exactly the chain built so far. |
| `Parser.ParseBuffer.ReadString` | code/dependence/cjson/cJSON.c:698-824 | A string literal becomes a terminated block with the decoded text; on failure the block is given back. |
| `Parser.ParseBuffer.ReadNumber` | code/dependence/cjson/cJSON.c:266-340 | A number is read as specified, with the saturated integer beside the double; the copy fits the 64-byte buffer. |
| `Parser.ParseBuffer.Skip` | code/dependence/cjson/cJSON.c:963-981 | The loop over blanks reaches the specified offset and reads only inside the buffer. |
| `Parser.CopyNumber` | code/dependence/cjson/cJSON.c:279-312 | The copying loop takes the run of number bytes, at most 63 of them. |
| `Heap.Allocator.Delete` | code/dependence/cjson/cJSON.c:214-235 | Deleting a chain frees each block of its items, their strings and everything below exactly once, only live ones, and ends. |
| `Heap.Allocator.DeleteItem` | code/dependence/cjson/cJSON.c:214-235 | One turn of the loop frees exactly the blocks of one item. |
| `Heap.ChainBlocksAppend` | code/dependence/cjson/cJSON.c:1385-1397 | Linking an item at the end of a chain adds exactly its blocks. |
| `Heap.BlocksAreNeeded` | code/dependence/cjson/cJSON.c:1370-1400 | The blocks of an item that the parser made are as many as its value needs, counted on the value alone, and one for its name. |
| `Literal.QuoteParses` | code/dependence/cjson/cJSON.c:698-824 | Decoding undoes escaping for every NUL-free byte string, wherever its literal stands; the scan for the end stops at the literal's own last quote. |
| `Literal.DecodingFits` | code/dependence/cjson/cJSON.c:698-824 | The sizing scan is enough on every literal that decodes: its bytes and the NUL never exceed the size allocated, also when an invalid \u group makes the decoder leave the scan's pairing of backslashes. |
| `Literal.AdvanceGroups` | code/dependence/cjson/cJSON.c:711-799 | While the decoder takes whole six-byte groups the scan counts at most three skipped bytes for each and stays within one byte of it. |
| `Literal.ParseStringMoves` | code/dependence/cjson/cJSON.c:698-824 | A literal means the same wherever it stands. |
| `StringParsing.DecodeString` | code/dependence/cjson/cJSON.c:744-810 | The decoding loop, writing into a block of the size the scan found, stays inside it on every literal, also on those it rejects in the end, and computes the specified text or error offset. |
| `StringParsing.DecodeUnit` | code/dependence/cjson/cJSON.c:746-799 | One turn of that loop: bytes used, bytes written, and the room that remains. |
| `StringParsing.ScanString` | code/dependence/cjson/cJSON.c:711-734 | The sizing scan finds the closing quote and counts the skipped bytes. |
| `StringParsing.ConvertAt` | code/dependence/cjson/cJSON.c:577-695 | The in-place conversion of one or two \u groups consumes and writes what is specified and leaves the output before it alone. |
| `StringParsing.WriteUtf8` | code/dependence/cjson/cJSON.c:640-691 | The loop that writes from the last byte to the first produces the encoding of the code point. |
| `StringParsing.ReadHex4` | code/dependence/cjson/cJSON.c:540-573 | Four hexadecimal digits give their number, anything else 0. |
| `Utf16.ScalarGroupConverts` | code/dependence/cjson/cJSON.c:577-695 | A \u group for a scalar value consumes 6 bytes and becomes UTF-8 from which the value is recovered. |
| `Utf16.SurrogatePairConverts` | code/dependence/cjson/cJSON.c:602-633 | The two groups of a scalar value beyond the basic plane consume 12 bytes and become UTF-8 from which the value is recovered. |
| `Utf16.LoneSurrogateRejected` | code/dependence/cjson/cJSON.c:596-628 | A group with half a pair is rejected unless it is a high half and the low half follows at once. |
| `Utf16.EncodingIsShortest` | code/dependence/cjson/cJSON.c:640-687 | No sequence of UTF-8 shape (section 3 of RFC 3629) for the same code point is shorter, and none of the same length differs. |
| `Utf16.EncodingDecodes` | code/dependence/cjson/cJSON.c:640-687 | A decoder of UTF-8 shapes recovers every code point up to 10FFFF; so the branch for invalid code points is never taken. |
| `Utf16.ConvertLiteral` | code/dependence/cjson/cJSON.c:577-695 | 0, 6 or 12 bytes are consumed, and at most half as many written. |
| `Bits.ContinuationBits` | code/dependence/cjson/cJSON.c:672-678 | The mask and mark of a continuation byte leave the last six binary digits behind the mark 10, for every number. |
| `StringParsing.FirstByteBits` | code/dependence/cjson/cJSON.c:679-687 | The mark of the first byte and its mask add the mark to the digits that are left, for each of the four lengths. |
| `StringParsing.BothHalvesOf` | code/dependence/cjson/cJSON.c:631-632 | Masking, shifting and joining the halves of a surrogate pair gives the code point of the pair. |
| `Printer.PrintPreallocated` | code/dependence/cjson/cJSON.c:1192-1209 | For every printable tree whose single strings can be sized: true if and only if the buffer has room for the text and two bytes more; then it holds the text and a NUL. In no case does a byte from the given length on change. This sharpens the advice to add 5 bytes. |
| `Printer.Print` | code/dependence/cjson/cJSON.c:1087-1149 | For every such tree: a text comes back if and only if it fits an int with two bytes to spare and the requests granted are at least two and one for each time the buffer is enlarged for the sizes that printing asks for; it is then exactly the rendered text with its NUL, in a new block. As many as it takes to double 256 bytes up to the text and two more are enough, and so are 25. |
| `Printer.PrintBuffer.Ensure` | code/dependence/cjson/cJSON.c:373-458 | Room for the bytes needed and one more is granted exactly when the limit allows it and memory is not refused; the text before is kept; no sum wraps in 32 bits; a fixed buffer is never replaced; the size asked for is recorded, and a buffer that grows has the length that the sizes so far lead to and has taken one request for each enlargement. |
| `Room.GrowthsAre` | code/dependence/cjson/cJSON.c:402-423 | So many doublings of 256 bytes are enough for a text if and only if 256 doubled so often is no less than its size. |
| `Room.AsksWithin` | code/dependence/cjson/cJSON.c:1267-1338 | No piece of a printed value asks for more than two bytes behind the whole value. |
| `Room.EnlargementsBound` | code/dependence/cjson/cJSON.c:402-423 | For whatever sizes asked for in turn: the buffer is enlarged no more often than 256 bytes have to double up to the last size that took an enlargement; its length is twice that size, or INT_MAX behind half of it. |
| `Room.EnlargementsOfText` | code/dependence/cjson/cJSON.c:1087-1149 | A text that fits an int takes no more enlargements than doublings of 256 bytes up to its length and two, and at most 23. |
| `Printer.PrintBuffer.UpdateOffset` | code/dependence/cjson/cJSON.c:461-471 | From any offset on the way, strlen leads to the end of what was printed, because that holds no NUL. |
| `Printer.PrintBuffer.PrintValue` | code/dependence/cjson/cJSON.c:1267-1338 | Behind the text already there stands the rendered value and a NUL, the depth as before; failure only if it does not fit or memory was refused; what was asked for are the sizes of its pieces, in order, all of them on success. |
| `Printer.PrintBuffer.PrintArray` | code/dependence/cjson/cJSON.c:1435-1494 | The same for arrays, with the offset moved part of the way. |
| `Printer.PrintBuffer.PrintItems` | code/dependence/cjson/cJSON.c:1458-1482 | The loop over the items keeps the text printed so far. |
| `Printer.PrintBuffer.PrintObject` | code/dependence/cjson/cJSON.c:1606-1717 | The same for objects, with indentation one level deeper inside. |
| `Printer.PrintBuffer.PrintMembers` | code/dependence/cjson/cJSON.c:1633-1697 | The loop over the members keeps the text printed so far. |
| `Printer.PrintBuffer.PrintStringPtr` | code/dependence/cjson/cJSON.c:827-946 | The counting and the writing pass agree: the literal ends exactly at the counted length, and it is written if and only if it fits. |
| `Printer.CountEscapes` | code/dependence/cjson/cJSON.c:854-878 | The first pass counts exactly the bytes that escaping adds. |
| `Printer.PrintBuffer.WriteEscaped` | code/dependence/cjson/cJSON.c:897-941 | The second pass writes exactly the escaped string, byte by byte, without leaving the space granted. |
| `Printer.PrintBuffer.PrintNumber` | code/dependence/cjson/cJSON.c:474-537 | An integer is written in decimal and the offset advanced by its length, if and only if it fits. |
| `Printer.CopyOut` | code/dependence/cjson/cJSON.c:1112-1133 | The block handed out holds the text and its NUL and nothing else, with realloc or without. |
| `Rendering.RenderNulFree` | code/dependence/cjson/cJSON.c:461-471 | No rendered text holds a NUL, for whatever tree of C strings. |
| `Layout.PrintedLayout` | code/dependence/cjson/cJSON.c:1606-1717 | The blanks of the printed text, read off its bytes: formatted, one tab behind the colon of a key, one space behind the comma of an array, a line feed and one tab for each container open around it in front of each member and each closing brace, and no other blank outside strings; unformatted none. Brackets close in turn. |
| `Layout.ValueLaid` | code/dependence/cjson/cJSON.c:1435-1494 | The same for a value anywhere inside, with as many containers open as it is told. |
| `Conformity.ValueIsRfc` | code/dependence/cjson/cJSON.c:1267-1338 | Whatever is printed for a tree, formatted or not, is a text of the grammar of RFC 8259 that stands for that tree. |
| `Conformity.QuoteIsShortest` | code/dependence/cjson/cJSON.c:827-946 | No string of RFC 8259 with the same characters is shorter than the literal printed. |
| `Conformity.ControlEscape` | code/dependence/cjson/cJSON.c:934-939 | A control character that has no letter of its own is printed as \u00 and two lower-case digits, which give it back. |
| `Conformity.IntegerIsRfc` | code/dependence/cjson/cJSON.c:474-537 | An integer of at most 15 digits is printed as a minus, if it is negative, and its digits with no zero in front. |
| `MinifyFormatted.MinifyUndoesFormatting` | code/dependence/cjson/cJSON.c:2629-2697 | Minifying the formatted text of a printable tree gives its unformatted text byte for byte. |
| `MinifyMeaning.MinifyPreservesMeaning` | code/dependence/cjson/cJSON.c:2629-2697 | Every text accepted with the demand for a terminator can be minified; the minified text is accepted too, and as the same tree. |
| `MinifyMeaning.ValueReduces` | code/dependence/cjson/cJSON.c:2629-2697 | Of every accepted value, wherever it stands, a text remains that denotes the same value at the same depth. |
| `MinifyMeaning.NumberReduces` | code/dependence/cjson/cJSON.c:2629-2697 | The bytes of a number are kept, all of them and nothing else, and what remains still denotes that number wherever it stands. |
| `MinifyFormatted.FormattedReduces` | code/dependence/cjson/cJSON.c:1606-1717 | The formatted text of any value at any indentation minifies to its unformatted text, whatever follows. |
| `Minify.MinifyInPlace` | code/dependence/cjson/cJSON.c:2629-2697 | The loop leaves the specified text at the front of the array and every byte behind it as it was, so it never writes behind the byte it reads. |
| `Minify.MinifyTurn` | code/dependence/cjson/cJSON.c:2633-2694 | One turn of the loop: what was kept, followed by what is still to be kept, stays the same; nothing behind the place of writing changes. |
| `Minify.CopyString` | code/dependence/cjson/cJSON.c:2674-2687 | A string literal is moved whole, both quotes included, escaped quotes not taken for its end. |
| `Minify.SkipBlockComment` | code/dependence/cjson/cJSON.c:2665-2673 | A comment is skipped up to behind its end mark. |
| `Minify.Minified` | code/dependence/cjson/cJSON.c:2629-2697 | The minified text ends with its NUL and is no longer than the text. |
| `MinifyScan.NoBlankIsLeft` | code/dependence/cjson/cJSON.c:2629-2697 | Outside its strings the minified text has no space, tab, carriage return or line feed, whatever the text was. |
| `MinifyScan.OnlyBlanksAreTaken` | code/dependence/cjson/cJSON.c:2629-2697 | A text in which no comment begins outside strings loses those four bytes outside strings, and no other byte. |
| `Comparison.AlikeIsEquality` | code/dependence/cjson/cJSON.c:2799-2922 | Comparison of two items is equality of values, arrays as sequences and objects as maps from keys (folded to lower case unless case counts) to values, if and only if in both trees no item is invalid, no string lacks its text, every member of an object has a name and repeated keys agree; otherwise it is false. |
| `Comparison.ObjectsAlike` | code/dependence/cjson/cJSON.c:2881-2917 | Of two objects that do not contradict themselves: they compare equal if and only if each member of the one has in the other one of the same name, whatever the case of its letters where case does not count, that compares equal. |
| `Comparison.KeysAgreeIs` | code/dependence/cjson/cJSON.c:2881-2917 | Repeated keys agree: members whose names are the same in that sense compare equal. |
| `Comparison.FoldIs` | code/dependence/cjson/cJSON.c:97-118 | Folding tells apart exactly the texts that differ in more than the case of ASCII letters. |
| `Comparison.AlikeIsEquivalence` | code/dependence/cjson/cJSON.c:2799-2922 | Comparison is symmetric and transitive on all trees and reflexive on exactly those. |
| `Comparison.UnambiguousCompare` | code/dependence/cjson/cJSON.c:2799-2922 | On trees whose objects never repeat a key it coincides with equality of the values. |
| `Duplication.MemberOrderIsIrrelevant` | code/dependence/cjson/cJSON.c:2881-2917 | Two objects with the same members in any order, each in blocks of its own, compare equal if and only if in one of them, and so in both, no item is invalid, no string lacks its text, every member has a name and repeated keys agree. |
| `Duplication.RepeatedKeyIsUnlikeItsCopy` | code/dependence/cjson/cJSON.c:2885-2898 | An object with two members whose keys are the same under the case rule and whose values differ does not compare equal to any full copy of it, in either direction. |
| `Duplication.TwoNumbersAreUnlikeTheirCopy` | code/dependence/cjson/cJSON.c:2885-2898 | One such object, its five blocks distinct: the numbers 1 and 2 for one key. |
| `Comparison.Compare` | code/dependence/cjson/cJSON.c:2799-2922 | The method decides the specification on two items or null: false for null, true for the same valid item, and otherwise comparison of trees that share nothing. Members without a name are compared too, unless case counts and a name is looked for behind one. |
| `Comparison.CompareMembers` | code/dependence/cjson/cJSON.c:2885-2914 | One of the two loops: every member has its first match in the other object with a value that compares equal. |
| `Comparison.CompareItems` | code/dependence/cjson/cJSON.c:2857-2879 | The loop over two arrays: pairwise comparison, and the same length. |
| `Comparison.GetObjectItem` | code/dependence/cjson/cJSON.c:1772-1798 | The first item whose name is the same, or without case the same but for the case of ASCII letters, in whatever owner; none for null. Where case counts, only the items in front of the match need names. |
| `Comparison.NamedIsSearchable` | code/dependence/cjson/cJSON.c:1772-1798 | If every member in the second tree has a name, comparing never looks for a name behind a member without one. |
| `Comparison.SecondLoopSearches` | code/dependence/cjson/cJSON.c:2900-2914 | Once the first of the two loops has come through, the second one never does so, whatever members of the second object lack. |
| `Comparison.CaseInsensitiveStrcmp` | code/dependence/cjson/cJSON.c:97-118 | 0 exactly when both texts have the same length and at each place the same byte, or one ASCII letter in both cases; 1 for null. |
| `Duplication.Duplicate` | code/dependence/cjson/cJSON.c:2550-2627 | A copy is the same as the item in kind, both numbers, text, name and (if asked for) children, all the way down; its blocks are the only new ones. There is a copy if and only if as many requests for memory are granted as there are blocks to copy, and none for null; without one nothing stays allocated. |
| `Duplication.ImageIs` | code/dependence/cjson/cJSON.c:2557-2588 | What the copy keeps is all of it: two trees have the same image if and only if they agree in every field and text, item by item. |
| `Duplication.CopyChildren` | code/dependence/cjson/cJSON.c:2593-2616 | The loop over the children copies them in order; what is allocated at any exit is the chain built so far; it fails only if fewer requests are granted than the children have blocks. |
| `Duplication.CopyIsAlike` | code/dependence/cjson/cJSON.c:2550-2627 | A full copy compares equal to its original, in both directions, if and only if in the original no item is invalid, no string lacks its text, every member has a name and repeated keys agree. |
| `Duplication.CopyIsApart` | code/dependence/cjson/cJSON.c:2550-2627 | The copy shares no block with the original. |
| `Duplication.EraseImage` | code/dependence/cjson/cJSON.c:2550-2627 | A full copy stands for the same tree, so it prints the same. |
| `Siblings.Container.AddItemToArray` | code/dependence/cjson/cJSON.c:1844-1871 | Appends the item and all that it still leads; neighbours keep pointing at each other. The head has no predecessor, and the chain is a proper one, if and only if the array was not empty or the item had none; for an item linked nowhere this is a plain append. |
| `Siblings.Container.InsertItemInArray` | code/dependence/cjson/cJSON.c:2141-2168 | Inserts the item, linked elsewhere or not, before the given index; past the end it is an addition at the end, under the same condition; does nothing for a negative index. |
| `Siblings.Container.DetachItemViaPointer` | code/dependence/cjson/cJSON.c:2071-2099 | Removes exactly that item, which then points nowhere. |
| `Siblings.Container.DetachItemFromArray` | code/dependence/cjson/cJSON.c:2101-2109 | Removes the item at the index and gives it back; null and no change outside the range. |
| `Siblings.Container.ReplaceItemViaPointer` | code/dependence/cjson/cJSON.c:2170-2203 | Puts the replacement in the item's place and frees exactly the item's blocks; the same item twice changes nothing. |
| `Siblings.Container.GetArrayItem` | code/dependence/cjson/cJSON.c:1743-1760 | The walk ends at the item with that index, or at null past the end. |
| `Siblings.InsertedChain` | code/dependence/cjson/cJSON.c:2157-2167 | Linking an item in before another leaves a chain of distinct items with mutually inverse pointers. |
| `Siblings.RemovedChain` | code/dependence/cjson/cJSON.c:2078-2096 | Unlinking an item leaves such a chain, without the item. |
| `Siblings.ReplacedChain` | code/dependence/cjson/cJSON.c:2182-2198 | Linking an item over another leaves such a chain. |
| `Siblings.RemoveUndoesInsert` | code/dependence/cjson/cJSON.c:2101-2168 | Detaching at the place of an insertion restores the sequence. |
| `Framing.SplitInTwo` | code/src/server.c:125-186 | Cutting a stream anywhere and keeping the unfinished frame in front of the rest gives the frames and the tail of the whole stream. |
| `Framing.SplitUndoesEncode` | code/src/server.c:148-185 | Taking apart undoes encoding: whole frames followed by an incomplete rest give exactly these frames and that rest. |
| `Framing.RestIsShort` | code/src/server.c:125-186 | Within the bounds on length fields an unfinished frame has at most 2000 bytes. |
| `Framing.EncodedIsGood` | code/src/server.c:148-172 | A stream of frames within the bounds, the last one possibly cut short, meets the receiver's bounds everywhere. |
| `Framing.TruncatedIsIncomplete` | code/src/server.c:164-172 | A frame that was cut short is never taken for a whole one. |
| `Framing.Le32ThenInt32` | code/src/procBroker.c:28-30 | Reading a little-endian 32-bit number undoes storing it. |
| `Receiving.Receiver.Receive` | code/src/server.c:125-186 | After every call, for every chunk: the frames given out so far and the bytes just below offset 2000 are those of taking the whole stream apart in one go; the messages posted are those of the new frames. |
| `Receiving.Receiver.TakeFrames` | code/src/server.c:148-185 | The loop gives out the whole frames in the buffer and stops at the unfinished one. |
| `Receiving.Receiver.KeepTail` | code/src/server.c:149-158 | The forward copy of the unfinished frame is right although source and target overlap, because the source is never below the target. |
| `Receiving.Receiver.ProcessMessage` | code/src/server.c:102-123 | Each type of frame posts the message meant for it, types 1 and 2 with their body, unknown types none. |
| `Receiving.Receiver.ReceiveThread` | code/src/server.c:216-225 | Over a whole connection, however cut into chunks, the frames given out are those of the stream taken apart in one go, and the end of the thread is posted behind them. |
| `Receiving.CommandsReachTheEventLoop` | code/src/server.c:90-186 | From the client's frames to the event loop, under any interleaving of threads: what the loop has taken is a beginning of the commands sent, and all of them once the queue is empty, in stream order, once each, body unchanged, numbered 1, 2, 3. |
| `Messages.CommandsAreDelivered` | code/src/msg_queue.c:21-44 | In every run of the queue each command frame is posted once, in order and with its body; taken messages are a beginning of the posted ones; numbers count up from 1. |
| `Messages.StepKeeps` | code/src/msg_queue.c:21-44 | Every step keeps the numbering and adds to the commands exactly those of the frame that arrived. |
| `Messages.MessageQueue.PostMsgQueue` | code/src/msg_queue.c:21-32 | The message joins the end with the next number; of its body 2040 bytes travel, since 8 of the 2048 are the number and the length. |
| `Messages.MessageQueue.GetMsgQueue` | code/src/msg_queue.c:34-44 | The oldest message comes out with its type, number and body. |
| `Messages.ShownEntry` | code/include/msg_queue.h:45-51 | A body of at most 2040 bytes survives the packing into 2048 bytes unchanged. |
| `Sending.PeriodsAreRecovered` | code/src/server.c:228-275 | In every run, what was put on sockets since MSG_ACCEPT_NEW_CLIENT was last handled is whole frames and at most one cut short, nothing behind it; a receiver recovers exactly the frames sent completely. |
| `Sending.SocketsAreRecovered` | code/src/server.c:228-275 | In every run a socket's stream is recovered as exactly the frames sent completely, the last one possibly cut short, unless an accept message was handled, so sending enabled again, behind a frame that was cut short on it. |
| `Sending.RecoverableIffNoPartTaken` | code/src/server.c:249-254 | In every run and at every moment: the receiver of the current socket gets every frame that may be sent from now on, whatever these are, if and only if no send since the client was accepted has taken more than nothing and less than all of a frame. |
| `Sending.SpareIsLost` | code/src/server.c:249-254 | A line with bytes that belong to no frame sent completely has a receiver that misses something, whatever the bytes are. |
| `Sockets.LinkOfRun` | code/src/event_process.c:30-164 | The sockets of a run of the session are those of the sending machine over what that run does to them. |
| `Sockets.SocketInSession` | code/src/server.c:228-275 | Both facts about a socket hold in every run of the session, also when the accept message of an earlier client enables sending on it. |
| `Sockets.OwnMessageResumes` | code/src/server.c:249-254 | A run of the session that loses frames: a send to the second client falls short before its accept message is handled, and that message enables sending again. |
| `Sockets.EarlierMessageResumes` | code/src/server.c:249-254 | Another: the accept message of the second client enables sending to the third, behind a send that fell short, while the third one's own message is still waiting. |
| `Sending.LostFrame` | code/src/server.c:249-254 | Behind a part of a frame, a frame of type 0 or one of type 1, without a body and sent next, does not arrive. |
| `Sending.OrderlyIsRecovered` | code/src/server.c:164-172 | Whole frames followed by one that was cut short are recovered as exactly the whole ones. |
| `Sending.Sender.SendToPc` | code/src/server.c:228-275 | A frame goes to the socket only if a client is there and sending is enabled; a short send disables sending. |
| `Sending.Sender.SendStateInquiry` | code/src/procBroker.c:25-34 | The bytes sent are the encoding of a frame with that type and body. |
| `Sending.Sender.SendRfMfState` | code/src/procBroker.c:216-225 | The bytes sent are the encoding of a frame of type 5 with that body. |
| `Sending.Sender.PrintRssiStruct` | code/src/procBroker.c:36-56 | The bytes sent are the encoding of a frame of type 1, whose body holds the seconds at 0, the microseconds at 4, the length at 8 and then the samples. |
| `Session.SessionInvariants` | code/src/event_process.c:30-164 | In every state of every run: the DMA runs if and only if one of the two flags is set; a frame tagged 2 comes from channel 0x40 and one tagged 4 from 0x80; one block in 51 is passed on; hasTimer holds if and only if closeState is 0; a stopped timer posts at most one more time-out; a time-out about to be handled finds a client or a disconnected server; the accept and end messages find the timer stopped and started; with none of them waiting the timer runs if and only if a client is there; callbacks are registered at most once. |
| `Session.SessionDelivers` | code/src/event_process.c:30-164 | In every run commands are delivered once, in order and with numbers counting up, and what was sent since the last accept message is recovered. |
| `Session.AlwaysKept` | code/src/event_process.c:30-164 | The inductive invariant behind both holds in every reachable state. |
| `Session.StepKeepsAll` | code/src/event_process.c:30-164 | Every step of every thread keeps it. |
| `Session.DmaSteps` | code/src/dma_handler.c:67-149 | Starts, stops and deliveries keep flags, hardware state, channel and throttle in agreement; both stops in turn leave the DMA stopped. |
| `Session.TimerPart` | code/src/gw_timer.c:48-113 | Every step keeps closeState, running and the count of late time-outs in agreement with hasTimer. |
| `Session.ClientPart` | code/src/server.c:313-324 | Every step keeps the connection state, the client and the messages about it in the queue in agreement. |
| `Session.TurnKeepsClient` | code/src/event_process.c:80-126 | Handling a message keeps that agreement, the teardown included. |
| `Session.QueuePart` | code/src/msg_queue.c:21-44 | Every step keeps the numbering and the delivered commands. |
| `Session.PeriodPart` | code/src/server.c:228-275 | Every step keeps the shape of what was sent. |
| `Session.MarksOneLess` | code/src/event_process.c:39-126 | Taking the first message keeps the alternation of accept and end messages behind it. |
| `ClientLoss.RunAndFate` | code/src/event_process.c:80-126 | However the threads take turns until another client is announced, the messages that were waiting are handled first, in order, and they alone decide whether the client is given up meanwhile. |
| `ClientLoss.GivingUpStrandsHeartBeats` | code/src/event_process.c:119-126 | After a client is given up, some run comes to a heart beat without a client, before another client connects, if and only if a heart beat was waiting when the client was given up. |
| `ClientLoss.HeartBeatsFindClients` | code/src/event_process.c:119-126 | For every run: at no moment of it could the event loop by itself come to a heart beat without a client, if and only if no heart beat was waiting when a client was given up and none came from a client before its announcement; such a run is never about to follow the null pointer. |
| `ClientLoss.EveryClientCanBeEarly` | code/src/server.c:320-323 | From every state of every run in which there is no client, some run, without an announcement, comes to a heart beat without a client: one from a client whose receive thread runs already. |
| `ClientLoss.EarlyHeartBeat` | code/src/server.c:320-323 | The shortest such run: the first client connects, its heart beat arrives, and that message is next. |
| `ClientLoss.AloneStrands` | code/src/event_process.c:119-126 | Without a client, the event loop by itself comes to a heart beat without a client if and only if one is waiting. |
| `ClientLoss.LateHeartBeat` | code/src/event_process.c:119-126 | A run in which a heart beat, arriving between a time-out and its handling, is next to be handled and there is no client. |
| `ClientLoss.NewClientSurvives` | code/src/event_process.c:80-101 | A client announced while messages of the last one are waiting is still there when its own accept message comes, for all turns of the threads until then, if and only if each time-out among them comes behind a heart beat with no time-out between; so, without heart beats, if and only if no time-out is waiting. |
| `ClientLoss.FateByHeartBeats` | code/src/event_process.c:80-126 | What the event loop decides over a queue, message by message, about a client not yet heard of: it outlives the messages if and only if each time-out comes behind a heart beat of its own, and is heard of at the end if moreover a heart beat follows the last time-out. |
| `ClientLoss.StaleTimeout` | code/src/event_process.c:80-101 | A run in which the last time-out of a stopped timer makes the event loop give up the next client, whose accept message is still waiting. |
| `EventLoop.Loop.HandleMessage` | code/src/event_process.c:30-164 | The switch over the message types takes exactly the step of the state machine. |
| `EventLoop.Loop.HandleTimeout` | code/src/event_process.c:80-101 | A client that was heard of loses its mark; one that was not is given up, samples stopped first. |
| `EventLoop.Loop.StopReceThread` | code/src/server.c:400-440 | Disconnects, drops the client and has the receive thread's last message posted. |
| `EventLoop.Loop.AnnounceClient` | code/src/server.c:320-323 | A client whose receive thread runs is there and connected from now on, and its message is posted. |
| `EventLoop.TimerPara.ProcessTurn` | code/src/gw_timer.c:48-58 | One time-out, and the end of the timer with its message if it was stopped. |
| `Session.StartsAndStops` | code/src/dma_handler.c:67-149 | A start from rest picks its own channel and tag; with both started frames are tagged 0 and come from the channel chosen last; one stop stops both; a stop of what is not running, or a second start, changes nothing. |
| `Session.MessagesDriveDma` | code/src/event_process.c:127-155 | Which message does what: at rest MSG_START_CSI starts the samples on channel 0x40 with tag 2 and MSG_START_CONSTELLATION on 0x80 with tag 4, a start of the other kind adds its flag and takes the channel, MSG_STOP_CSI and MSG_STOP_CONSTELLATION stop everything if their flag is set and nothing otherwise; every other message, but for a time-out that gives up the client, leaves the DMA as it was. |
| `Session.FramesTakeEffect` | code/src/server.c:101-123 | From the frame to its effect, whenever its message comes to be handled: types 7 and 4 start, 8 and 5 stop, 99 marks the client as heard of, the others do neither; 1 and 2 arrive with their bodies. |
| `Session.Ticking` | code/src/gw_timer.c:48-58 | Each turn of the timer posts one time-out and no more; the turn after it was stopped is the last and posts its end. |
| `EventLoop.DmaPara.Callback` | code/src/dma_handler.c:7-29 | One block in 51 goes out as a frame with the right tag and the samples as its body; the header is made in the eight bytes before them. |
| `Minify.BlockCommentVanishes` | code/dependence/cjson/cJSON.c:2665-2673 | A comment up to the next asterisk and slash is dropped whole and nothing else; the asterisk that opens it may end it. |
| `Minify.LineCommentVanishes` | code/dependence/cjson/cJSON.c:2657-2664 | A comment behind two slashes is dropped up to the end of its line. |
| `Minify.SkipLineComment` | code/dependence/cjson/cJSON.c:2657-2664 | The loop stops at the end of the line or of the text. |
| `RoundTrip.ParseSkipsBom` | code/dependence/cjson/cJSON.c:984-997 | A byte order mark in front of a printed text changes nothing but the end offset: the same tree is accepted, under the same condition on nesting. |
| `Parser.ParseBuffer.ReadKey` | code/dependence/cjson/cJSON.c:1553-1573 | The name of a member is moved into its place and the colon passed; on failure what is allocated is exactly the name. |
| `Parser.ParseRoot` | code/dependence/cjson/cJSON.c:1025-1039 | The value, and the check for the terminator, agree with the specification; what was allocated for a value that is followed by rubbish is still accounted for. |
| `Printer.PrintBuffer.PrintKey` | code/dependence/cjson/cJSON.c:1635-1668 | Indentation, key and colon are written behind the text; failure only if they do not fit or memory was refused; the sizes asked for are theirs. |
| `Printer.PrintBuffer.PrintWord` | code/dependence/cjson/cJSON.c:1276-1301 | The words null, false and true are written if and only if they fit. |
| `Duplication.CopyItem` | code/dependence/cjson/cJSON.c:2557-2588 | The new item has the fields and texts of the original; when memory is refused on the way, what was allocated is what the new item holds, and the requests granted were fewer than the blocks of the item. |
| `Duplication.CopyText` | code/dependence/cjson/cJSON.c:149-168 | The copy of a text reads the same and ends in a block of its own. |
| `Sending.PeriodStep` | code/src/server.c:228-275 | Each step keeps a period's bytes orderly, and whole while sending is enabled. |
| `Sending.LineStep` | code/src/server.c:228-275 | Each step keeps a socket's bytes orderly, and whole while no part of a frame was taken, until sending is enabled behind such a part. |
| `Sending.HistoryTells` | code/src/server.c:228-275 | In every run, by its history alone: sending is enabled if and only if an accept message was handled and every send to a client since then took its whole frame; and the complete frames, of the period and of the socket, are all those that were sent whole while that was so. |
| `Sending.NextFrameGoesOut` | code/src/server.c:242-275 | Progress: with a client and that history, a frame that send takes whole goes out, all its bytes, on the socket and in the period, and the next one can; without, sending changes nothing. |
| `Sockets.HistoryTellsInSession` | code/src/server.c:228-275 | The same in every run of the session. |
| `Sockets.FramesGoOut` | code/src/dma_handler.c:7-29 | In the runs of the session: every 51st block of samples and every reply of the broker arrives next if there is a client, the way is open and send takes it whole; other blocks change nothing on the socket. |
| `Session.GivingUp` | code/src/event_process.c:80-101 | Giving up a client leaves no samples running, no client, and the message that will stop the timer at the end of the queue. |
| `Session.Welcoming` | code/src/event_process.c:39-59 | Handling the accept message leaves the timer running, sending enabled with a new period, and the callbacks registered once. |
| `Session.Ending` | code/src/gw_timer.c:48-113 | Handling the end of the receive thread finds the timer running and stops it; its next turn is its last and posts one time-out and the end of the timer. |
| `Acceptance.GrammarIsAccepted` | code/dependence/cjson/cJSON.c:1000-1077 | Completeness: every text of the grammar of RFC 8259, or of the lenient one, with blanks wherever it allows them, with escapes and paired surrogates, numbers of at most 63 bytes and at most 1000 nested containers, is accepted to its terminator, behind a byte order mark or not; as the value it stands for, with every character of its strings, if and only if no string holds U+0000, and otherwise with the strings cut there. |
| `Dialect.AcceptedExactly` | code/dependence/cjson/cJSON.c:1000-1077 | Soundness and completeness: a terminated text is accepted to its terminator as a value if and only if it is a text of the lenient grammar, within the limits, that stands for that value. |
| `Dialect.FrontIsAcceptedAlone` | code/dependence/cjson/cJSON.c:1025-1039 | Without that demand, what is accepted up to an offset is a text that is accepted by itself as the same value; conversely a text that is accepted by itself and ends in no blank is accepted in front of anything that no number goes on with. |
| `Errors.ErrorIsWhereStuck` | code/dependence/cjson/cJSON.c:1000-1077 | A machine that reads the text from left to right with a stack of open brackets, and builds nothing, is done where parsing ends and stuck where it reports its error; with the demand for a terminator the error may be the first byte behind the value that is no blank. |
| `Errors.ValueRuns` | code/dependence/cjson/cJSON.c:1212-1264 | The same for a value at any place, with at most 1000 brackets open. |
| `Errors.ErrorInString` | code/dependence/cjson/cJSON.c:698-824 | The error in a string: one byte behind the place where a quote is missing, or behind the quote that nothing closes; else the first place, counted in whole pieces of the lenient grammar, at which none stands. |
| `Dialect.DocOf` | code/dependence/cjson/cJSON.c:1212-1264 | Whatever the parser accepts for a value is a text of the lenient grammar, and the value is the one the grammar gives it. |
| `Dialect.StringOf` | code/dependence/cjson/cJSON.c:698-824 | Whatever is accepted for a string is one of the lenient rules, in text and in value. |
| `Dialect.NumberOf` | code/dependence/cjson/cJSON.c:266-340 | Whatever strtod takes of a number is one of the lenient rules, in text and in exact value. |
| `Acceptance.CutAtNul` | code/dependence/cjson/cJSON.c:744-806 | A string of RFC 8259 that is cut: a, U+0000 and b become a. |
| `Grammar.DocWhole` | code/dependence/cjson/cJSON.c:744-806 | Cutting every string at its first NUL leaves a value as it is if and only if no string of its text holds U+0000. |
| `Grammar.FollowsLeniently` | code/dependence/cjson/cJSON.c:963-981 | What follows RFC 8259 follows the lenient rules. |
| `Acceptance.DocDenotes` | code/dependence/cjson/cJSON.c:1212-1264 | The same for every value, wherever in a text it stands, at any depth that suffices. |
| `Acceptance.StringParses` | code/dependence/cjson/cJSON.c:698-824 | Every string of section 7 of RFC 8259, or of the lenient rules, is decoded to its characters in UTF-8 if and only if none of them is U+0000; with one it is cut at the first. |
| `Acceptance.NumberReads` | code/dependence/cjson/cJSON.c:266-340 | Every number of section 6 of RFC 8259, and every other sequence of sign, digits, point and exponent that the lenient rules allow, is converted whole, to its exact value. |
| `Acceptance.NumberReadsExactly` | code/dependence/cjson/cJSON.c:266-340 | That value in whole numbers: with k the exponent less the count of digits behind the point, it is the number of all digits times 10 to the k, or, for a negative k, that number is 10 to the -k times the value; with the sign. |
| `Numerals.DigitsInTurn` | code/dependence/cjson/cJSON.c:266-340 | What the digits come to: each its place from 0 to 9, and in front of n further digits 10 to the n times as much. |
| `Acceptance.AnythingMayFollow` | code/dependence/cjson/cJSON.c:1025-1039 | Without the demand for a terminator a text of the grammar is accepted as its value and to its end, whatever stands behind it that no number goes on with. |
| `Framing.EncodeUndoesSplit` | code/src/server.c:148-185 | No byte is lost by taking a stream apart: the frames encoded again and the rest behind them are the stream. |
| `Gateway.Drive` | code/src/event_process.c:30-164 | The objects taken through any run, received frames through the receive buffer: no step's requirements ever fail, and they end in the state that the run leads to. |
| `Gateway.MayHandle` | code/src/event_process.c:80-126 | What handling a message asks for, a client to mark or to give up, holds whenever a run can handle one. |
| `Siblings.AppendedChain` | code/dependence/cjson/cJSON.c:1859-1868 | Linking an item and what it leads in behind the last one leaves a chain with mutually inverse pointers. |
| `Siblings.LinkInTurn` | code/dependence/cjson/cJSON.c:1385-1397 | The way the parser and cJSON_Duplicate link the items they make, one after the other: neighbours point at each other, the first has no predecessor, the last no successor. |

## Left out

- Floating point: numbers are reals, and printing is modelled for integers of at most 15 digits, for which `%1.15g` prints plain decimal. Rounding in `strtod`, the second try with 17 digits, NaN, infinities and locale decimal points are library behaviour.
- `cJSON_Raw`, references and constant names (`cJSON_IsReference`, `cJSON_StringIsConst`): no item of the model has these flags; a printed string always has a text, so the printing of a null `valuestring` as an empty string is not modelled.
- Printer.Print: requires that the literal of each single string and key is shorter than SIZE_MAX bytes, because behind that the 32-bit length in `print_string_ptr` would wrap; so do Printer.PrintPreallocated and the methods below it. The length of the whole text is not limited.
- Parser.ParseText: builds items whose chains of children are sequences; the `next` and `prev` pointers of one chain are the subject of `Siblings` alone, where Siblings.LinkInTurn has the parser's way of linking. A null text and the global error pointer are not modelled.
- Comparison.Compare: asks for the same item twice or for trees that share no block, for texts that end, and, where case counts, that no name is looked for behind a member without one, where `strcmp` is undefined; so do Comparison.CompareItems, Comparison.CompareMembers and Comparison.GetObjectItem.
- Siblings.Container.InsertItemInArray: asks for an item that is not a child yet, and, where it goes to the end, that nothing it leads is one; so does Siblings.Container.AddItemToArray. What an edit does to another chain that the item is still linked in is not described.
- `cJSON_PrintBuffered`, `cJSON_InitHooks`, the Create, Add, Is and Get wrappers and `cJSON_ReplaceItemInArray`: one branch around members that are modelled.
- Literal.DecodingFits: speaks of literals that decode; for the others StringParsing.DecodeString bounds what is written before they are rejected.
- Minify.MinifyInPlace: asks for closed strings and comments; on others the source reads past the terminator.
- Receiving.Receiver.Receive: asks for length fields from 4 to 1997 and chunks of at most 8240 bytes. The source's `memcpy` of overlapping bytes is undefined in C; the model copies forward, byte by byte.
- Messages.MessageQueue.PostMsgQueue: does not model the wrap-around of `seq_id` at the end of a 32-bit int, a failing `msgsnd`, or a queue that blocks because it is full.
- Sockets, threads, mutexes, `ioctl` and logging: one critical section, one handled message, one timer turn and one DMA callback are each one step; `send` has an abstract outcome; the debug counters of the connection are left out, and with them the increment through a null `g_receive` in front of `sendToPc`'s checks.
- Session.SessionInvariants: assumes clients that come one at a time, a receive thread that can be created, an announcement (server.c:321-323) and a teardown that are one step each, and a DMA whose start and stop succeed; a run ends where a heart beat would meet no client, since the source follows a null pointer there.
- Acceptance.GrammarIsAccepted: numbers of more than 63 bytes, which the parser cuts, and deeper nesting, which it rejects, are not in its scope; that no text outside the limits is accepted is part of Dialect.AcceptedExactly.
- Gateway.Drive: hands each frame to the receive buffer in one chunk; other ways of cutting the stream are the subject of Receiving.Receiver.ReceiveThread. Asks for frames within the receiver's length limit, samples that fit an int with their header, and runs that leave message numbers below INT_MAX.
- The exchanges with the devices (`dev_transfer`, I2C, RSSI and register JSON, `/dev/mem`), `rssi_state`, and the broker's and DMA driver's own code: hardware and foreign libraries. Their replies appear as calls of `sendToPc`.
- `countDownLatch.c`, `list.h`, the examples and the test programs: nothing of the modelled code uses them.
