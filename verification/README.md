# Models of parson and of parts of the Azure C shared utility

These Dafny files model, and prove properties of, the most involved C code of the repository: the
JSON library `parson`, the HTTP and socket state machines that reassemble byte streams, an intrusive
list, an accounting allocator, codecs, number conversion and a clock. Each operation has a
specification on values, each loop or method of the C code that changes state is a method proved
against that specification, and the laws are lemmas about the specification over all inputs or all
runs.

| file | what it models |
|---|---|
| `CString.dfy`, `Alphabets.dfy` | C strings as the text from a pointer on, `isspace`, hexadecimal digits; alphabets written out |
| `JsonStrings.dfy`, `Utf8.dfy`, `JsonUtf8.dfy` | string literals in both directions, escapes, surrogate pairs, UTF-8; UTF-8 through whole trees |
| `JsonTree.dfy`, `JsonParser.dfy` | JSON trees, the recursive-descent parser and its loops |
| `JsonLiterals.dfy`, `JsonGrammar.dfy` | the grammar of literals and texts, and that the parser accepts exactly it |
| `JsonSerializer.dfy`, `JsonLayout.dfy`, `JsonWriter.dfy` | the text of a value, and its layout in the grammar; the two-pass serializer over a buffer |
| `JsonRoundTrip.dfy`, `JsonIntegers.dfy` | parsing what was serialized; number conversions for integers |
| `JsonEquality.dfy`, `JsonTransitivity.dfy`, `Doubles.dfy` | `json_value_equals` and `json_value_deep_copy`; comparing doubles up to a tolerance |
| `JsonPaths.dfy`, `JsonNodes.dfy` | objects as maps and dotted paths; the same on linked nodes with parents and capacities |
| `HttpChunked.dfy`, `HttpFragments.dfy` | chunked response bodies read from a fragmented stream; which deliveries let them through |
| `HttpProxyIo.dfy`, `HttpProxySessions.dfy` | the CONNECT tunnel: six states and a receive buffer; reopened sessions |
| `HttpProxyAnswers.dfy`, `HttpProxyLifecycle.dfy` | which answers open the tunnel; whole lives of an instance |
| `SocketIo.dfy`, `SocketOffers.dfy` | the queue of partial writes; what it undertakes, told from outside |
| `DList.dfy`, `Gballoc.dfy` | the circular list; the allocator that keeps records |
| `Base64.dfy`, `Base32.dfy`, `Decimal.dfy`, `Strtoull.dfy`, `Numerals.dfy` | codecs and number conversion; numerals in literal characters |
| `TickCounter.dfy` | the performance-counter clock |

Conventions. A `char*` is the text from it to the end of its buffer, and advancing it drops
characters; reading at the end gives NUL. Characters stand for bytes. What the environment returns
(the socket, the underlying IO, `malloc`, the counter, `sprintf` and `strtod`) is a parameter of the
operation or a step of the run. Sizes are unbounded integers except where the code depends on their
width: 64-bit results in `Strtoull.dfy`, `size_t` and `int` in the chunk size, 32-bit status codes,
8-bit bytes in the codecs. Allocation succeeds except in `Gballoc.dfy`.

Where the code departs from what its comments or the standards promise, the model follows the code
and the departure has its own lemma:

- `strtoull_s` does not convert a lone zero that it takes for a radix prefix, and returns 1 for
  negative numbers out of range; everywhere else its value, its end and its report of an overflow
  are those of the C standard (`Strtoull.ResultConformsExactlyWhen`). It sets errno to zero for every
  number in range, which the standard forbids (`Strtoull.ConformsExactlyWhen`).
- `socketio_send` reports success and drops the buffer when the queue is empty and the socket
  answers EAGAIN; in every run the wire and the queue together hold exactly the other buffers it
  has accepted, in order (`SocketIo.Conservation`).
- The CONNECT answer is parsed together with the bytes behind it, so a header that leaves its status
  open is judged differently depending on fragmentation
  (`HttpProxyIo.FragmentationIrrelevantExactlyWhen`), and the receive buffer is not emptied between
  sessions, so only sessions that start with an empty one are reliable
  (`HttpProxySessions.ReliableExactlyWhen`).
- `readLine` consumes the line feed only if it has arrived when the carriage return is found; which
  deliveries let a body through is stated exactly (`HttpFragments.BodyDecodedExactlyWhen`).
- The status code of the CONNECT answer is cut to 32 bits, so some codes of ten digits open the tunnel
  (`HttpProxyAnswers.AnswerDecides`).
- `json_parse_string` accepts more than JSON: vertical tabs and form feeds as white space, and any text
  behind the value; and less: a number that goes on after a leading zero must do so with a point. What
  it accepts is stated exactly (`JsonGrammar.TextParsedExactlyWhen`).
- `json_value_equals` compares doubles up to 0.000001 and so is transitive from exactly the trees all
  of whose numbers exceed 2 to the 33rd in magnitude (`JsonTransitivity.TransitiveExactlyWhen`). That
  names are distinct, as the library keeps them, is needed for symmetry
  (`JsonEquality.DuplicateNamesBreakSymmetry`).
- `json_object_dotset_value` with a value that already has a parent fails only at the last step, and
  leaves the objects it has created on the way (`JsonPaths.DotCreateNothingExactlyWhen`).
- The Base32 decoder takes the brace after `z` for a `2` (`Base32.AlphabetReadBack`).

## Model

| member | source | states |
|---|---|---|
| `JsonStrings.ProcessStopsOnClosingQuote` | parson/parson.c:491-612 | Whenever skip_quotes finds the end of a literal, process_string on it either fails or stops exactly on the closing quote, having emitted no more bytes than the literal is long; so it never reads or writes outside. |
| `JsonStrings.ProcessOneStaysInside` | parson/parson.c:560-612 | A round of process_string inside a literal leaves a cursor from which skip_quotes finds the same end: no escape that is accepted jumps over the closing quote. |
| `JsonStrings.EscapeCharReadBack` | parson/parson.c:943-1002 | Every byte except NUL, written by json_serialize_string, is read back by one round of process_string and never taken for the end of the literal. |
| `JsonStrings.EscapedReadBack` | parson/parson.c:943-1002 | The escaped form of any NUL-free byte string is skipped to its own closing quote and processed back into that string. |
| `JsonStrings.LiteralReadBack` | parson/parson.c:616-625 | get_quoted_string on the literal json_serialize_string writes returns the string and leaves the cursor after the literal, whatever follows. |
| `JsonStrings.SkipQuotesLoop` | parson/parson.c:491-509 | The cursor loop finds the closing quote that the recursive definition finds, or fails with it. |
| `JsonStrings.ProcessString` | parson/parson.c:560-612 | The loop over input and output cursors, with an output buffer one byte longer than the literal, stays inside it and yields the string process_string denotes, cut at an embedded NUL. |
| `JsonStrings.GetQuotedString` | parson/parson.c:616-625 | The method returns the C string the literal at the cursor denotes and the text after it, or fails, as the specification says. |
| `Utf8.IsValidUtf8` | parson/parson.c:194-246 | The loop accepts a string exactly when it is a concatenation of encodings of Unicode scalar values (section 4 of RFC 3629). |
| `Utf8.IsValidIffWellFormed` | parson/parson.c:194-246 | The sequence-by-sequence check, with its tests for overlong forms, surrogates and range, accepts exactly the well-formed strings. |
| `Utf8.VerifyAcceptsEncoding` | parson/parson.c:179-234 | The encoding of every scalar value is accepted as one sequence of its own length, whatever follows. |
| `Utf8.VerifiedIsEncoding` | parson/parson.c:194-234 | Every sequence the check accepts is the encoding of some scalar value. |
| `Utf8.ParseUtf16EmitsDenoted` | parson/parson.c:511-555 | An escape or a surrogate pair is accepted exactly when it denotes a code point (section 7 of RFC 8259), and the bytes emitted are the encoding of that code point. |
| `Utf8.ProcessKeepsUtf8` | parson/parson.c:560-612 | If the text between the quotes is well-formed UTF-8 and is accepted, what is emitted is well-formed UTF-8. |
| `Utf8.QuotedStringKeepsUtf8` | parson/parson.c:616-625 | get_quoted_string maps literals of well-formed UTF-8 to well-formed UTF-8, the cut at an embedded NUL included. |
| `JsonUtf8.TextUtf8` | parson/parson.c:627-760 | json_parse_string on well-formed UTF-8 text yields a tree in which every name and every string is well-formed UTF-8, if number conversion consumes ASCII characters only. |
| `JsonUtf8.IntegersAreAscii` | parson/parson.c:775-785 | The conversions for integers meet that condition. |
| `JsonUtf8.QuotedUtf8` | parson/parson.c:616-625 | Reading a literal at the head of well-formed text leaves well-formed text. |
| `JsonParser.AcceptedValue` | parson/parson.c:627-760 | Every tree parse_value accepts has distinct names in each object, NUL-free strings, and no node deeper than the nesting bound leaves. |
| `JsonParser.AcceptedText` | parson/parson.c:1046-1054 | Every tree json_parse_string accepts is well formed and at most 2048 levels deep. |
| `JsonGrammar.TextParsedExactlyWhen` | parson/parson.c:1046-1054 | json_parse_string yields a value if and only if the text spells it, after a byte-order mark or without one, with anything behind it, and no node lies more than 2048 levels deep. What spells a value is a grammar of its own, its characters written out: white space (space, tab, line feed, vertical tab, form feed, carriage return) at every place, literals, words, brackets, distinct names; numbers as strtod reads them. |
| `JsonGrammar.ParsedExactlyWhen` | parson/parson.c:491-792 | The same of parse_value, with the text it leaves, at every nesting. |
| `JsonGrammar.SpellingRead` | parson/parson.c:627-792 | One half: every spelling is read as what it spells, or refused when a node lies too deep. |
| `JsonGrammar.SpellingOf` | parson/parson.c:627-792 | The other half: whatever is accepted is white space and a spelling, in front of what is left. |
| `JsonGrammar.ItemsRead` | parson/parson.c:723-748 | The loop over items reads every list of spelled items up to the closing bracket. |
| `JsonGrammar.EntriesRead` | parson/parson.c:651-707 | The loop over members reads every list of spelled members with distinct names up to the closing brace. |
| `JsonLiterals.LiteralAcceptedExactlyWhen` | parson/parson.c:491-625 | get_quoted_string accepts exactly the literals of section 7 of RFC 8259: raw characters, short escapes, code units in hexadecimal digits of either case, surrogate pairs; and yields the bytes they stand for, up to a NUL. |
| `JsonLiterals.PieceRead` | parson/parson.c:491-612 | At each such piece, skipping and processing take just the piece, and processing emits its bytes. |
| `JsonLiterals.PieceOf` | parson/parson.c:560-612 | Whatever a round of process_string accepts is such a piece. |
| `CString.BlankSkipped` | parson/parson.c:48 | All six white-space characters, and only these, are skipped. |
| `JsonParser.ReadValue` | parson/parson.c:627-650 | The recursive method over a moving cursor computes the value and the remaining text of the grammar function, for every text and nesting. |
| `JsonParser.ReadScalar` | parson/parson.c:748-801 | Strings, booleans, numbers and null by the first character, as the specification says, failures included. |
| `JsonParser.ReadArray` | parson/parson.c:708-746 | The item loop of parse_array_value agrees with the recursive specification on every text. |
| `JsonParser.ReadObject` | parson/parson.c:652-706 | The member loop of parse_object_value, with its refusal of a repeated name, agrees with the recursive specification on every text. |
| `JsonRoundTrip.ValueReadBack` | parson/parson.c:627-941 | Parsing the compact or pretty text of a well-formed tree, in any place inside a larger text, consumes exactly that text and gives the tree in the same member order if it is within the nesting left, and fails otherwise. |
| `JsonRoundTrip.ArrayReadBack` | parson/parson.c:708-746 | The same for arrays, through the loop over items. |
| `JsonRoundTrip.ObjectReadBack` | parson/parson.c:652-706 | The same for objects, through the loop over members. |
| `JsonRoundTrip.ItemsReadBack` | parson/parson.c:708-746 | From every item on, the item loop reads the text the serializer wrote of the remaining items back into the whole array. |
| `JsonRoundTrip.MembersReadBack` | parson/parson.c:652-706 | From every member on, the member loop reads the remaining members back into the whole object. |
| `JsonRoundTrip.TextReadBack` | parson/parson.c:1046-1054 | json_parse_string on the serialized text of a well-formed tree gives that tree exactly when it nests at most 2048 deep. |
| `JsonRoundTrip.ParserRange` | parson/parson.c:1046-1054 | The trees json_parse_string can produce are exactly the well-formed ones of depth at most 2048. |
| `JsonIntegers.IntegersExact` | parson/parson.c:775-785 | The model's conversions for integers are exact wherever the serializer puts a number; on integers of at most 17 digits they are those of %1.17g and strtod. |
| `JsonIntegers.IntegerTextReadBack` | parson/parson.c:627-941 | Whole trees whose numbers are integers of at most 17 digits are read back with these conversions, so the assumption on numbers can be met. |
| `JsonWriter.Append` | parson/parson.c:1013-1018 | Appending a string advances the running size by its length and, with a buffer, puts it after what was written and terminates it. |
| `JsonLayout.TextLaid` | parson/parson.c:807-1011 | The text written for every well-formed value spells that value in one layout: compact without any white space outside literals; pretty with each child on a line of its own, four spaces a level, one space after a colon, the closing bracket on its own line; each byte by its short escape, as a lower-case code unit if another control character, or as itself. |
| `JsonWriter.AppendIndent` | parson/parson.c:1004-1011 | Four spaces for each level, counted the same with and without a buffer. |
| `JsonWriter.AppendLiteral` | parson/parson.c:943-1002 | The escape loop emits the literal that the reader reads back, byte for byte the same count in both passes. |
| `JsonWriter.AppendValue` | parson/parson.c:807-941 | With a NULL buffer the pass returns the length of the text; with a buffer that has room it writes exactly that text and nothing beyond it, for every value, level and layout. |
| `JsonWriter.AppendContainer` | parson/parson.c:814-888 | The loop over children by index, objects looked up by name, produces brackets, separators, newlines and indentation of the text. |
| `JsonWriter.SerializationSize` | parson/parson.c:1418-1422 | The size is the length of the text plus one for the terminator. |
| `JsonWriter.SerializeToBuffer` | parson/parson.c:1424-1435 | It succeeds exactly when the buffer holds text and terminator; then the buffer holds just that and keeps its other bytes, and otherwise it is untouched. |
| `JsonWriter.SerializeToString` | parson/parson.c:1459-1476 | The buffer allocated from the first pass is filled exactly by the second. |
| `JsonEquality.ObjectsEqualAsMaps` | parson/parson.c:1935-1950 | With distinct names on both sides, walking the names of the left object only, with equal counts, decides equality of the two objects as maps. |
| `JsonEquality.NamesPigeonhole` | parson/parson.c:1935-1950 | Equally many distinct names with one set inside the other are the same names. |
| `JsonEquality.EqualsSymmetric` | parson/parson.c:1907-1969 | json_value_equals is symmetric on trees with distinct names. |
| `JsonEquality.DuplicateNamesBreakSymmetry` | parson/parson.c:1935-1950 | The hypothesis is needed: with a repeated name, which no call of the library produces, two concrete objects are equal one way only. |
| `JsonEquality.EqualsIgnoresOrder` | parson/parson.c:1907-1969 | Reordering the members of objects anywhere in a tree, at any depth, changes no comparison with it, on either side. |
| `JsonEquality.EqualsExactlyWhen` | parson/parson.c:1907-1969 | For all trees with distinct names: json_value_equals holds if and only if they are the same but for the order of members and for numbers whose rounded difference is below the rounded constant 0.000001. |
| `JsonEquality.NumberFreeEqualsExactlyWhen` | parson/parson.c:1907-1969 | Without numbers: if and only if one is a reordering of the other. |
| `JsonEquality.PermutedIsReordered` | parson/parson.c:1935-1950 | In particular an object with its members permuted is such a reordering. |
| `JsonEquality.EqualsReflexive` | parson/parson.c:1907-1969 | Every value with distinct names equals itself. |
| `JsonTransitivity.EqualsTransitive` | parson/parson.c:1907-1969 | On doubles, equality is transitive through whole trees as soon as it is at each number of the first tree; so always when there is none. |
| `JsonTransitivity.TransitiveExactlyWhen` | parson/parson.c:1907-1969 | With numbers that are doubles, and their difference and the constant rounded to the nearest double: among trees with distinct names, equality is transitive from exactly the trees all of whose numbers exceed 2 to the 33rd in magnitude, those without numbers included. From any other there are two steps of less than the epsilon that together are not equal. |
| `JsonTransitivity.MappedEquals` | parson/parson.c:1907-1969 | Two trees that differ in their numbers only are equal exactly when all these numbers are near each other. |
| `Doubles.TransitiveAtExactlyWhen` | parson/parson.c:1960-1961 | The same for one number: what is near something near it is near it, exactly beyond 2 to the 33rd. |
| `Doubles.Isolated` | parson/parson.c:1960-1961 | Beyond 2 to the 33rd a double is near no other, neighbours being farther apart than the epsilon. |
| `JsonTransitivity.NumbersNotTransitive` | parson/parson.c:1960-1961 | The smallest instance: three concrete doubles. |
| `JsonTransitivity.ParsedTreesCompare` | parson/parson.c:1907-1969 | Parsed trees have the distinct names these laws need: on them equality is reflexive and symmetric and, when their numbers are doubles, transitive exactly as stated above. |
| `JsonEquality.DeepCopy` | parson/parson.c:1339-1416 | On values the copy succeeds exactly on trees with distinct names, through look-up by name and refusal of a second addition, and is then the same tree. |
| `JsonTree.FindAt` | parson/parson.c:400-412 | Under distinct names the look-up of names[i] returns values[i], which serializing and copying rely on. |
| `JsonPaths.FindAfterSet` | parson/parson.c:1679-1698 | After setting a name, that name is found with the new value and every other name as before. |
| `JsonPaths.FindAfterRemove` | parson/parson.c:1796-1815 | Removal with the last member moved into the gap keeps names distinct, drops one member, and changes no other look-up. |
| `JsonPaths.RemoveKeepsPlaces` | parson/parson.c:1796-1815 | The last member takes the place of the one removed, all others keep theirs. |
| `JsonPaths.DotGetExactlyWhen` | parson/parson.c:1100-1107 | For every list of names without dots: the path with dots between them finds a value if and only if the names lead to it, member by member, through objects. |
| `JsonPaths.RunRefinesMap` | parson/parson.c:345-412 | Every sequence of add, set, remove, clear and resize on an object, refused ones included, keeps it a list of distinct names that represents the finite map the same operations build, with no more members than its capacity, which grows as json_object_add grows it. |
| `JsonPaths.DotSetSucceedsUnlessBlocked` | parson/parson.c:1716-1746 | A dotted set of a value without a parent fails exactly when a proper prefix of the path leads to a value that is not an object. |
| `JsonPaths.DotSetFailsWithoutEffect` | parson/parson.c:1716-1746 | A failing dotted set of a value without a parent leaves the whole tree as it was. |
| `JsonPaths.DotCreateNothingExactlyWhen` | parson/parson.c:1716-1746 | A dotted set of a value that has a parent always fails; it leaves the tree as it was if and only if it is blocked on the way or every object on the way is there already. |
| `JsonPaths.DotCreateLeavesOthers` | parson/parson.c:1716-1746 | What such a failing set creates changes no path but proper prefixes of its own. |
| `JsonPaths.DotSetInEmptySucceeds` | parson/parson.c:1716-1746 | Below an object that did not exist no step can fail. |
| `JsonPaths.DotSetThenGet` | parson/parson.c:1100-1107 | After a successful dotted set the same path gets the value that was set. |
| `JsonPaths.DotSetThenGetInside` | parson/parson.c:1100-1107 | A path that continues the one set gets what the value set holds there, and nothing of what was there before. |
| `JsonPaths.DotSetLeavesOthers` | parson/parson.c:1716-1746 | A dotted set, successful or not, changes no path that is neither a prefix nor a continuation of the one set. |
| `JsonPaths.DotSetKeepsWellFormed` | parson/parson.c:1716-1746 | Setting a well-formed value keeps the whole tree well formed. |
| `JsonPaths.DotRemoveSucceedsWhereFound` | parson/parson.c:1817-1832 | A dotted remove succeeds exactly where a dotted get finds a value, and otherwise changes nothing. |
| `JsonPaths.DotRemoveThenGet` | parson/parson.c:1817-1832 | After a successful dotted remove the path leads nowhere. |
| `JsonPaths.DotRemoveLeavesOthers` | parson/parson.c:1817-1832 | A dotted remove changes no path that diverges from the one removed. |
| `JsonNodes.Node.InitObject` | parson/parson.c:1251-1264 | A new empty object without a parent. |
| `JsonNodes.Node.InitScalar` | parson/parson.c:1281-1337 | A new leaf without a parent. |
| `JsonNodes.Node.IndexOfName` | parson/parson.c:400-412 | The loop over names finds the first equal one, and with it the value the map look-up finds. |
| `JsonNodes.Node.Resize` | parson/parson.c:370-398 | Only the capacity changes, and capacity 0 is refused. |
| `JsonNodes.Node.Add` | parson/parson.c:345-368 | A new name goes to the end of names and values, with this node as parent and the capacity grown as the code grows it; a name already present is refused with nothing changed. |
| `JsonNodes.Node.Set` | parson/parson.c:1679-1698 | The value at the name is replaced and no longer among the values, or a member is new at the end with the capacity grown; the tree is the one the specification gives, and the new value is linked to its parent. A value that has a parent is refused. |
| `JsonNodes.Node.Remove` | parson/parson.c:1796-1815 | The last member moves into the gap, the counts fall by one, and the tree is the one the specification of removal gives. |
| `JsonNodes.Node.Clear` | parson/parson.c:1834-1845 | All members go, the capacity stays. |
| `JsonNodes.Node.DotSet` | parson/parson.c:1716-1746 | On the linked nodes, a dotted set succeeds or fails as specified, values with a parent included, and leaves the specified tree, with parents, footprints and disjointness kept; after a success the path leads to the very node that was set. |
| `JsonNodes.Node.DotGet` | parson/parson.c:1100-1107 | The walk along the dots returns the node the path leads to, so after a dotted set the value set itself; its tree is the one the specification finds, or it is NULL where that finds nothing. |
| `JsonNodes.Node.DotRemove` | parson/parson.c:1817-1832 | The walk removes what the specification removes and reports success exactly then. |
| `JsonNodes.Node.AppendItem` | parson/parson.c:1624-1629 | The item goes to the end of the array, with its parent set and the capacity grown; an item that has a parent is refused. |
| `JsonNodes.Node.RemoveItem` | parson/parson.c:1542-1552 | The items after the index move down by one; an index out of range changes nothing. |
| `JsonNodes.DeepCopy` | parson/parson.c:1339-1416 | On nodes the copy always succeeds, has the same tree, has no parent, and consists of new nodes only, so it shares none with the original. |
| `DList.InitializeListHead` | c-utility/src/doublylinkedlist.c:6-14 | The head alone is a ring. |
| `DList.IsListEmpty` | c-utility/src/doublylinkedlist.c:16-24 | True exactly when the ring is the head alone. |
| `DList.InsertTailList` | c-utility/src/doublylinkedlist.c:65-80 | The ring is the old one with the entry at its end; forward and backward links stay mutually inverse. |
| `DList.InsertHeadList` | c-utility/src/doublylinkedlist.c:100-107 | The ring is the old one with the entry right after the head. |
| `DList.RemoveHeadList` | c-utility/src/doublylinkedlist.c:45-61 | The oldest entry is returned and leaves the ring, or the head is returned and nothing changes. |
| `DList.RemoveEntryList` | c-utility/src/doublylinkedlist.c:26-43 | Any entry of any ring leaves it, and true is returned exactly when at most one entry is left. |
| `DList.AppendTailList` | c-utility/src/doublylinkedlist.c:83-97 | Two disjoint rings become one: the first, then the appended entry, then the rest of its ring. |
| `DList.RingIsDetermined` | c-utility/src/doublylinkedlist.c:6-107 | The links determine the sequence: two rings from the same head are the same. |
| `DList.InsertTailThenRemove` | c-utility/src/doublylinkedlist.c:26-80 | Inserting at the tail and removing again restores every link. |
| `Gballoc.RunAccounts` | c-utility/src/gballoc.c:78-337 | From the initial state, over every sequence of calls with an allocator that hands out no live block twice: recorded pointers are distinct, the total is the sum of recorded sizes, and the maximum is the largest total reached. |
| `Gballoc.StepKeepsBalance` | c-utility/src/gballoc.c:78-337 | One call of any kind, failing ones and moving reallocations included, keeps the counters in agreement with the records. |
| `Gballoc.RunKeepsBalance` | c-utility/src/gballoc.c:78-337 | The same from every balanced state over every sequence of calls. |
| `Gballoc.RunRefinesMap` | c-utility/src/gballoc.c:78-337 | The record list is, after every run, the map from live blocks to requested sizes that the calls define, moved blocks under their new address. |
| `Gballoc.RunCounts` | c-utility/src/gballoc.c:78-337 | The number of allocations reported is the number of calls that hand out recorded memory. |
| `Gballoc.HonestyNeeded` | c-utility/src/gballoc.c:78-132 | If the underlying allocator returned a live block again, two records would share a pointer: a concrete run. |
| `Gballoc.Allocator.Malloc` | c-utility/src/gballoc.c:78-132 | Before init the call passes through; after it the result, the record list and all counters are those of the specification, also when the record or the block cannot be had. |
| `Gballoc.Allocator.Calloc` | c-utility/src/gballoc.c:134-188 | The same with the product of count and size. |
| `Gballoc.Allocator.Realloc` | c-utility/src/gballoc.c:190-283 | A NULL pointer adds a record, a tracked one has its record updated where it stands, an unknown one gets NULL; counters as specified. |
| `Gballoc.Allocator.Free` | c-utility/src/gballoc.c:285-337 | A tracked block is unlinked wherever it is in the list and its size taken off; an unknown pointer changes and releases nothing. |
| `Gballoc.Allocator.Init` | c-utility/src/gballoc.c:36-65 | The counters start at zero and the list is left as it is; a second init is refused. |
| `Decimal.ToDecimalString` | c-utility/src/crt_abstractions.c:777-822 | It succeeds exactly when the numeral and its terminator fit, and then the buffer holds just those; unsignedIntToString has the same body. |
| `Decimal.WriteDigits` | c-utility/src/crt_abstractions.c:793-799 | The digits written so far, reversed, after the numeral of what is left, make up the numeral of the value. |
| `Decimal.ReverseInPlace` | c-utility/src/crt_abstractions.c:800-811 | The swapping loop reverses exactly the digits, for odd and even counts. |
| `Strtoull.ResultConformsExactlyWhen` | c-utility/src/crt_abstractions.c:290-389 | For every text and base the value, the end pointer and the report of an overflow are those of strtoull (section 7.20.1.4 of ISO C99) if and only if no zero without a following digit is taken for a radix prefix and the number is not both negative and out of range. |
| `Strtoull.ConformsExactlyWhen` | c-utility/src/crt_abstractions.c:290-389 | With errno as the call leaves it, the two agree if and only if, besides, no number in range is converted: for each of these the code sets errno to zero, which section 7.5 of the standard forbids. |
| `Strtoull.ClearsErrno` | c-utility/src/crt_abstractions.c:350-352 | On every decimal numeral that fits in 64 bits the result is that of the standard and errno is cleared where the standard leaves it alone. |
| `Numerals.NumeralRead` | c-utility/src/crt_abstractions.c:290-389 | What strtoull_s does with every numeral, in literal characters: any white space, a sign or none, 0x or 0X or none, digits from the two alphabets of 36 in any mixture of cases, in every base, in front of any text. It yields the number, negated modulo 2 to the 64th after a minus; out of range the maximum, or 1 after a minus, and ERANGE; and nothing for the lone zeros it takes for a prefix. |
| `Numerals.StandardReads` | c-utility/src/crt_abstractions.c:290-389 | What section 7.20.1.4 of ISO C99 prescribes for the same texts, which pins the specification the other rows compare with. |
| `Numerals.NothingRead` | c-utility/src/crt_abstractions.c:290-389 | A text without a digit after white space and sign is not converted, in every base. |
| `Strtoull.DepartsOnBareZero` | c-utility/src/crt_abstractions.c:321-350 | The text 0 in base 8 gives another result than the standard. |
| `Strtoull.DepartsOnLargeNegative` | c-utility/src/crt_abstractions.c:382-386 | So does minus 2 to the 64th. |
| `Strtoull.AccumulateSaturates` | c-utility/src/crt_abstractions.c:350-373 | Whatever the digits, the loop yields their value if it fits in 64 bits, and otherwise the maximum with ERANGE; an overflow is never forgotten. |
| `Strtoull.GuardIsExact` | c-utility/src/crt_abstractions.c:356-365 | The division guard detects overflow exactly. |
| `Strtoull.ConvertsDecimal` | c-utility/src/crt_abstractions.c:290-389 | Every decimal digit string is converted to its value with the end after it, or to the maximum with ERANGE exactly when its value is larger. |
| `Strtoull.NumeralReadBack` | c-utility/src/crt_abstractions.c:290-822 | What size_tToString writes, strtoull_s in base 10 reads back, with the end at the terminator. |
| `Strtoull.NumeralIsCanonical` | c-utility/src/crt_abstractions.c:777-822 | The numeral is the only digit string without superfluous zeros that denotes its number. |
| `Strtoull.StrtoullS` | c-utility/src/crt_abstractions.c:290-389 | The method with its moving pointer, prefix tests and wrapping negation computes the specified conversion on every text, base and NULL. |
| `TickCounter.DriftBound` | c-utility/adapters/tickcounter_win32.c:67-101 | After n calls and T ticks the counted microseconds U satisfy U*F <= T*1000000 < U*F + F + (n-1)*1000000 for every frequency F and every nondecreasing counter. |
| `TickCounter.RunAccounts` | c-utility/adapters/tickcounter_win32.c:67-101 | Over every run the moving reference point stays between start and latest reading, and each call loses less than one microsecond. |
| `TickCounter.AdvanceAccounts` | c-utility/adapters/tickcounter_win32.c:67-101 | One call: what is counted, what is carried and what is lost make up the ticks elapsed. |
| `TickCounter.RunIsMonotone` | c-utility/adapters/tickcounter_win32.c:67-101 | Counted time never decreases. |
| `TickCounter.TickCounter.GetCurrentMs` | c-utility/adapters/tickcounter_win32.c:67-101 | The fields after the call are those of the run of all readings so far, and the milliseconds reported never fall. |
| `Base64.DecodeEncode` | c-utility/src/base64.c:128-314 | Decoding the encoding of any byte sequence gives it back. |
| `Base64.WritesWithinLength` | c-utility/src/base64.c:104-185 | On every text whose length is a multiple of 4 the decoder writes at most the bytes Base64decode_len counts, and exactly so many if and only if every character before the padding is in the alphabet. |
| `Base64.EncodedFillsBuffer` | c-utility/src/base64.c:104-126 | On the output of the encoder the length function and the decoder agree with the original length. |
| `Base64.PackedTablesAgree` | c-utility/src/base64.c:43-58 | The packed tables base64b16 and base64b8 hold the characters of the value shifted left by two and four bits. |
| `Base64.AlphabetBijective` | c-utility/src/base64.c:15-89 | base64char and base64toValue are inverse bijections between six-bit values and 64 characters. |
| `Base64.AlphabetOfStandard` | c-utility/src/base64.c:15-89 | The character for a value is that of table 1 of RFC 4648, written out, and the padding is the equals sign. |
| `Base64.BlockBits` | c-utility/src/base64.c:255-280 | The four characters of a block are the six-bit digits of its 24 bits (section 4 of RFC 4648). |
| `Base64.ShortBlocks` | c-utility/src/base64.c:281-302 | A final block of one or two bytes is the block filled with zeros, cut and padded. |
| `Base64.EncodeInternal` | c-utility/src/base64.c:236-314 | The loop fills a buffer of 4*ceil(n/3)+1 bytes exactly: the encoding and its terminator. |
| `Base64.DecodeInto` | c-utility/src/base64.c:128-185 | The loop writes the decoded bytes to the front of the buffer and touches nothing behind them. |
| `Base64.Decoder` | c-utility/src/base64.c:187-233 | NULL and lengths not divisible by 4 are refused; otherwise a buffer of the computed length starts with the decoded bytes. |
| `Base32.DecodeEncode` | c-utility/src/base32.c:70-264 | Decoding the encoding of any bytes, in any mixture of letter cases, gives them back, for all five lengths of the last block. |
| `Base32.DecodeIgnoresCase` | c-utility/src/base32.c:35-68 | Changing letter case changes nothing about decoding any text. |
| `Base32.DecodesExactlyAscii` | c-utility/src/base32.c:155-204 | A text is refused exactly when its length is not a multiple of 8 or a byte is not ASCII. |
| `Base32.AlphabetReadBack` | c-utility/src/base32.c:35-68 | Converting a character undoes encoding its value, and back; the characters taken for a value are exactly those of the alphabet in either case and the brace after z, which gives the value of 2. |
| `Base32.AlphabetOfStandard` | c-utility/src/base32.c:35-68 | The character for a value is that of table 3 of RFC 4648 in lower case, written out, and the padding is the equals sign. |
| `Base32.BlockReadBack` | c-utility/src/base32.c:101-246 | Each block of one to five bytes is read back, its padding telling its length. |
| `Base32.UnusedDigits` | c-utility/src/base32.c:129-137 | The digits that padding replaces are zero. |
| `Base32.PackBlock` | c-utility/src/base32.c:101-137 | The two switches with fall-through compute the five-bit digits of the 40-bit block and the padding. |
| `Base32.UnpackBlock` | c-utility/src/base32.c:217-224 | The masks and shifts compute the five bytes of the joined digits. |
| `Base32.EncodeImpl` | c-utility/src/base32.c:70-153 | The loop fills a buffer of 8*ceil(n/5)+1 bytes exactly (section 6 of RFC 4648, in lower case). |
| `Base32.DecodeImpl` | c-utility/src/base32.c:155-264 | The loop computes the specified decoding, never writes outside its temporary buffer, and its check of the target length never fails. |
| `SocketIo.Conservation` | c-utility/adapters/socketio_berkeley.c:768-919 | In every run without a hard error on the queue: wire followed by queue is the accepted buffers in order, except those the code drops on EAGAIN with an empty queue; completions come once each, in order, for exactly the buffers whose last byte is on the wire. |
| `SocketOffers.AcceptedAreOffers` | c-utility/adapters/socketio_berkeley.c:768-919 | In every run, with closes and hard errors anywhere: the buffers undertaken are exactly the non-empty ones given before the first close and the first error reported, except those that came when all earlier ones had had their callback and that the socket itself did not take any of. |
| `SocketOffers.SendSucceedsExactlyWhen` | c-utility/adapters/socketio_berkeley.c:768-851 | socketio_send returns 0 exactly for the non-empty buffers given before the first close and error, unless all earlier ones have had their callback and the socket fails hard. |
| `SocketOffers.OffersConserved` | c-utility/adapters/socketio_berkeley.c:768-919 | Without an error reported, the wire and the queue together are these buffers in order. |
| `SocketOffers.NothingAfterwards` | c-utility/adapters/socketio_berkeley.c:768-851 | After a close or an error nothing more is undertaken. |
| `SocketOffers.OpenExactlyWhen` | c-utility/adapters/socketio_berkeley.c:737-919 | An instance is open exactly until it is closed or has reported an error. |
| `SocketOffers.ErrorExactlyWhen` | c-utility/adapters/socketio_berkeley.c:853-919 | Until it is closed it is in error exactly after an error has been reported. |
| `SocketOffers.CloseCloses` | c-utility/adapters/socketio_berkeley.c:737-766 | Closing closes, and leaves the queue as it is. |
| `SocketOffers.QueueSent` | c-utility/adapters/socketio_berkeley.c:853-919 | When the socket takes every waiting buffer whole, one call empties the queue onto the wire in order and reports each buffer complete. |
| `SocketOffers.QueueSettled` | c-utility/adapters/socketio_berkeley.c:853-919 | With some of them failing hard the loop goes on: those taken are on the wire and reported complete in order, those that fail are dropped and reported as errors, and from an EAGAIN on the rest waits. |
| `SocketIo.SendQueueAccounts` | c-utility/adapters/socketio_berkeley.c:768-919 | In every run at all, hard errors included, wire, queue and callbacks are explained by the accepted buffers, some of them cut short by exactly the errors reported. |
| `SocketIo.DroppedExactlyWhen` | c-utility/adapters/socketio_berkeley.c:807-816 | A send reported successful leaves no trace exactly when the queue was empty and the socket said EAGAIN. |
| `SocketIo.RunExplained` | c-utility/adapters/socketio_berkeley.c:768-919 | The accounts are kept by every further step from any state they explain. |
| `SocketIo.DrainExplained` | c-utility/adapters/socketio_berkeley.c:853-919 | The sending loop keeps the accounts for every sequence of replies of the socket. |
| `SocketIo.SocketInstance.Send` | c-utility/adapters/socketio_berkeley.c:768-851 | The method returns and does what the specification says for every state, buffer and reply. |
| `SocketIo.SocketInstance.DoWork` | c-utility/adapters/socketio_berkeley.c:853-919 | The loop over the queue, with partial writes, EAGAIN and hard errors, ends in the specified state. |
| `SocketIo.SocketInstance.CloseSocket` | c-utility/adapters/socketio_berkeley.c:737-766 | Closing changes the state only; the queue stays. |
| `HttpProxyIo.TunnelTrace` | c-utility/src/http_proxy_io.c:606-701 | On the first open, in every run: at most one open-complete; if it is a success, the bytes passed up are exactly those after the first empty line of what the proxy sent, in however many pieces; otherwise none are. |
| `HttpProxyIo.OneOpenCompletePerOpen` | c-utility/src/http_proxy_io.c:230-824 | In every run, reopening included, each successful open gets exactly one open-complete, unless it is still under way. |
| `HttpProxyAnswers.CodeDecides` | c-utility/src/http_proxy_io.c:533-701 | For every answer in literal characters (HTTP/, a version with a dot, a space, three decimal digits not starting with 0, a header up to the first empty line), in any pieces: the tunnel opens and exactly the bytes behind the header are passed up if the code starts with 2, and the open fails otherwise. |
| `HttpProxyAnswers.AnswerDecides` | c-utility/src/http_proxy_io.c:533-701 | For codes of any number of digits without a leading zero: it opens if and only if the code, clamped to a long and cut to 32 bits, lies between 200 and 299. |
| `HttpProxyAnswers.NoProtocolRefused` | c-utility/src/http_proxy_io.c:533-701 | An answer that does not start with HTTP/ is refused, in any pieces. |
| `HttpProxyAnswers.NoCodeRefused` | c-utility/src/http_proxy_io.c:533-604 | So is one with a word in place of the code. |
| `HttpProxyLifecycle.WholeLife` | c-utility/src/http_proxy_io.c:230-824 | Opened by such an answer in any pieces, used in any pieces and closed: one open-complete, exactly the bytes behind the header, one close-complete. |
| `HttpProxyLifecycle.BrokenLife` | c-utility/src/http_proxy_io.c:447-824 | Broken by an error while open: one error is passed up, no bytes after it and no second error, and closing completes. |
| `HttpProxyLifecycle.OpenAbandoned` | c-utility/src/http_proxy_io.c:245-824 | Given up or failing at any point before the answer: one open-complete that says cancelled or failed, and the instance is closed. |
| `HttpProxyIo.FragmentationIrrelevant` | c-utility/src/http_proxy_io.c:606-701 | For a stream whose header decides the status, the state, the open-complete and the bytes delivered depend on the stream only, not on its division. |
| `HttpProxyIo.FragmentationIrrelevantExactlyWhen` | c-utility/src/http_proxy_io.c:533-701 | For every complete header: all streams that start with it are treated the same in any pieces if and only if the header is not undecided, that is, unless after HTTP/ it lacks the dot, the space or anything but white space behind it. |
| `HttpProxyIo.FragmentationMattersWhenUndecided` | c-utility/src/http_proxy_io.c:533-701 | For every undecided header there are bytes that open the tunnel when they come with it and do not when they come after it. |
| `HttpProxyIo.VerdictStableExactlyWhen` | c-utility/src/http_proxy_io.c:533-604 | The status read from a header is independent of the bytes behind it exactly unless it is undecided. |
| `HttpProxyIo.HeaderEndGrows` | c-utility/src/http_proxy_io.c:646-657 | More bytes never move the end of a header that has been found. |
| `HttpProxyIo.FindEndIsFirst` | c-utility/src/http_proxy_io.c:646-657 | The end found is that of the first empty line of the text. |
| `HttpProxyIo.ReopenedReadsOldHeader` | c-utility/src/http_proxy_io.c:606-760 | If the buffer holds a complete old header, it decides at once and its bytes are delivered again. |
| `HttpProxySessions.ReliableExactlyWhen` | c-utility/src/http_proxy_io.c:606-760 | A session treats every stream with a decided header as the stream calls for, in any pieces, if and only if its receive buffer is empty at the start: any byte kept from an earlier session, be it a part of a header, makes some answer come out wrong. |
| `HttpProxySessions.ReopenedStartsWithOldBytes` | c-utility/src/http_proxy_io.c:703-760 | A reopened session starts with what the buffer held. |
| `HttpProxyIo.ParseHttpResponse` | c-utility/src/http_proxy_io.c:533-604 | The three scanning loops and the conversion compute the specified status. |
| `HttpProxyIo.ProxyInstance.OpenIo` | c-utility/src/http_proxy_io.c:703-760 | Opening is refused unless closed, and a failing underlying open leaves the instance closed. |
| `HttpProxyIo.ProxyInstance.CloseIo` | c-utility/src/http_proxy_io.c:762-824 | Closing while opening cancels the open; closing when open waits for the underlying close, or falls back if that fails. |
| `HttpProxyIo.ProxyInstance.UnderlyingOpenComplete` | c-utility/src/http_proxy_io.c:245-445 | Each of the six states and three results leads to the specified state and callback. |
| `HttpProxyIo.ProxyInstance.UnderlyingIoError` | c-utility/src/http_proxy_io.c:447-477 | An error fails an open under way, and otherwise is passed up once when open. |
| `HttpProxyIo.ProxyInstance.UnderlyingCloseComplete` | c-utility/src/http_proxy_io.c:479-509 | Only a close under way is completed. |
| `HttpProxyIo.ProxyInstance.UnderlyingBytesReceived` | c-utility/src/http_proxy_io.c:606-701 | The buffer grows by exactly the bytes received, and header search, verdict and delivery follow as specified. |
| `HttpFragments.ChunksDecoded` | c-utility/adapters/httpapi_compact.c:1070-1147 | A condition on the stream alone that suffices (section 4.1 of RFC 7230, extensions allowed, no trailers): if every size line is shorter than 1023 characters and no delivery ends within its line end, the content is exactly the data of the chunks and exactly the message is consumed, unless a size line runs out of retries; with no empty delivery and size lines of at most 200 characters it cannot. |
| `HttpFragments.BodyRoundTrip` | c-utility/adapters/httpapi_compact.c:1070-1147 | Any body cut into non-empty pieces, each sent with its size in hexadecimal, is put together again whenever no delivery is empty or ends within the line end of a size line. |
| `HttpFragments.BodyReceivedAtOnce` | c-utility/adapters/httpapi_compact.c:1070-1147 | In particular when the whole message has been received before reading starts. |
| `HttpFragments.BodyDecodedExactlyWhen` | c-utility/adapters/httpapi_compact.c:1070-1147 | For every chunked message and all deliveries whatever: the content is the data of the chunks and exactly the message is consumed, if and only if every size line fits the line buffer, arrives within the attempts readLine makes and is not found with its carriage return as the last byte there, the reader waiting for data and line ends in between; otherwise the call fails with HTTPAPI_READ_DATA_FAILED. The condition speaks of the lengths of lines, data and deliveries only. |
| `HttpFragments.BodyReadExactly` | c-utility/adapters/httpapi_compact.c:1070-1147 | The same from any content and any point of the message on; and when every line would arrive given more attempts, running out of them is the only failure. |
| `HttpFragments.LineReadExactly` | c-utility/adapters/httpapi_compact.c:509-597 | readLine on any line and any deliveries, over all its retries: it gives up on a line that overruns the line buffer, times out exactly when any other takes more attempts than there are, and otherwise reads the line, leaving the line feed behind exactly when the attempt that found the carriage return found it last. |
| `HttpFragments.ReceivedExactly` | c-utility/adapters/httpapi_compact.c:446-494 | conn_receive on any deliveries: the data, and how much has been delivered beyond it. |
| `HttpFragments.CutLineEndFails` | c-utility/adapters/httpapi_compact.c:537-597 | If the attempt that finds the carriage return of a size line, the first or a later one, finds it as the last byte there, the body fails whatever the data. |
| `HttpFragments.CutLastLineEndFails` | c-utility/adapters/httpapi_compact.c:1092-1103 | The same for the line of the last chunk, and the content is thrown away. |
| `CString.SkipWhitespaces` | c-utility/src/crt_abstractions.c:304-309 | The cursor loop over white space stops where the specification stops; which characters that skips is `CString.BlankSkipped`. |
| `HttpFragments.ReceiveWhole` | c-utility/adapters/httpapi_compact.c:446-494 | Data still to come is received exactly, in however many deliveries. |
| `HttpChunked.SizeReadBack` | c-utility/adapters/httpapi_compact.c:81-105 | The hexadecimal numeral of every size_t is read back, whatever extension follows. |
| `Numerals.SizeRead` | c-utility/adapters/httpapi_compact.c:81-105 | A size in hexadecimal digits of either case, the alphabet written out, is read as its number modulo 2 to the 64th, whatever extension follows. |
| `HttpFragments.SizedChunk` | c-utility/adapters/httpapi_compact.c:81-105 | So a chunk may announce its size in digits of either case with any extension. |
| `HttpFragments.NoSizeRefused` | c-utility/adapters/httpapi_compact.c:1082-1090 | A size line that does not start with a digit ends the body with HTTPAPI_RECEIVE_RESPONSE_FAILED. |
| `HttpChunked.ParseHexadecimal` | c-utility/adapters/httpapi_compact.c:81-105 | The digit loop, wrapping at every step, computes the value of the leading digits modulo 2 to the 64th. |
| `HttpChunked.HttpInstance.OnBytesReceived` | c-utility/adapters/httpapi_compact.c:397-434 | The receive buffer is reallocated and holds what it held with the bytes received behind it. |
| `HttpChunked.HttpInstance.DropFront` | c-utility/adapters/httpapi_compact.c:473-482 | Consuming bytes moves the rest of the receive buffer down in place, and an empty buffer is freed. |
| `HttpChunked.HttpInstance.ConnReceive` | c-utility/adapters/httpapi_compact.c:446-494 | The loop waits for all bytes asked for, copies exactly these and shifts the rest down; it returns unless they never come. |
| `HttpChunked.HttpInstance.ReadLineInto` | c-utility/adapters/httpapi_compact.c:509-597 | The two nested loops with their retry counter and buffer limit compute the specified line, or -1, and leave the specified bytes unread. |
| `HttpChunked.HttpInstance.ReadChunk` | c-utility/adapters/httpapi_compact.c:599-623 | For a size that fits int all of it is read into its place. |
| `HttpChunked.HttpInstance.ReadChunkedBody` | c-utility/adapters/httpapi_compact.c:1070-1147 | The loop over chunks, enlarging the content for each, returns the specified code and content. |

## Left out

- JsonGrammar.TextParsedExactlyWhen: how far a number reaches and what it denotes is a parameter, as `strtod` decides it; allocation succeeds.
- JsonRoundTrip.TextReadBack: numbers are reals, and `sprintf` and `strtod` are a parameter that must be exact on the numbers in the tree; floating-point rounding is not modelled. `JsonIntegers.IntegerTextReadBack` discharges the condition for integers of at most 17 digits.
- JsonTransitivity.TransitiveExactlyWhen: of rounding to the nearest double only that it is monotone and odd and leaves doubles alone is used; differences too large for a double are rounded to some large real.
- JsonWriter.AppendValue: the running size is unbounded, so an `int` overflow of the total is not modelled, nor is the fixed size of the buffer a number is printed into.
- JsonNodes.Node.Set: the tree of the value must be disjoint from the tree it goes into; the code checks only that the value has no parent and would build a cycle from the root of the same tree.
- JsonNodes.Node.AppendItem: the same disjointness is required of the item.
- JsonNodes.Node.DotSet: the same disjointness is required. The footprint of a node is an upper bound: nodes that have been replaced or removed, which the code frees, are not taken out of it.
- JsonNodes.Node.InitScalar: the UTF-8 check before it and the refusal of numbers that are not finite are not part of this constructor.
- HttpFragments.BodyDecodedExactlyWhen: the response content is empty at the start and no IO error occurs; after an IO error `readChunk` subtracts -1 as an unsigned value and does not return.
- HttpChunked.HttpInstance.ConnReceive: the exit on an IO error and a count of zero are not modelled, nor is the exit of `readLine` on an IO error.
- HttpChunked.HttpInstance.ReadChunk: sizes above INT_MAX, which the code casts to another count, are outside the model and end it without a result.
- HttpChunked.HttpInstance.ReadChunkedBody: only the chunked branch with a response buffer; the content-length branch and the branch that skips the content are left out as easier variants.
- HttpProxyIo.TunnelTrace: for the first open of an instance and callbacks that do not call back into it.
- HttpProxyIo.ParseHttpResponse: the failure for the two extreme values of int, which depends on an earlier `errno`, is not told apart from a status that is not successful.
- SocketIo.Conservation: between open and close of one connection; the queue survives a close, and reopening is not modelled.
- JsonUtf8.TextUtf8: that `strtod` consumes only ASCII characters is a condition on the parameter.
- JsonPaths.RunRefinesMap: a resize asks for room for all members, as the callers of `json_object_resize` do; the code does not check it.
- Gballoc.Allocator.Init: creating the lock, which can fail, is left out.
- Gballoc.RunAccounts: calls are serialised; the lock, `gballoc_deinit` and `gballoc_resetMetrics` are left out, as is the wrap-around of `size_t` totals. A realloc has a positive size.
- TickCounter.DriftBound: integers are unbounded, and the fallback to `time()` is left out.
- Base64.Decoder: what the bytes of malformed texts decode to is specified only by the loop itself.
- The text of the CONNECT request and its authorization header, `http_proxy_io_send`, options.
- Receiving in `socketio_dowork`, opening and configuring sockets.
- `remove_comments`, file access, `json_validate` and the typed getters and setters of parson, which add only easy members.
- `strtof_s`, `strtold_s`, the string copying functions of crt_abstractions.c.
- TLS adapters, other HTTP adapters, threads, locks, logging and platform glue.
