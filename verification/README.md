# Verified models of libjansson and of the ball and chain

Two parts of this repository are modelled and proved in Dafny 4.11.

**libjansson**, the bundled JSON library, layer by layer:

* `Hashtable.dfy` - the intrusive hash table: objects linked in one circular list, buckets as pairs of pointers into it.
* `Options.dfy` - a value that may be missing.
* `Utf8.dfy` - encoding, decoding and checking of UTF-8 (RFC 3629).
* `Values.dfy`, `Arrange.dfy`, `DumpText.dfy` - JSON values as trees, their equality, the order in which a printer visits
  members, and the text that is printed, as functions.
* `LoadText.dfy` - what the lexer and the parser compute, as functions of the unread input.
* `StrictStrings.dfy`, `StrictNumbers.dfy`, `Grammar.dfy` - strings, numbers and whole texts as RFC 8259 defines them, and exactly
  what the library accepts beside or instead.
* `Rfc8259.dfy` - the character tables of RFC 8259, apart from those of the code.
* `Printed.dfy`, `Layout.dfy` - what a printed text looks like: order of keys, escapes, numerals, line breaks and spaces.
* `StringRoundTrip.dfy`, `RoundTrip.dfy`, `Reload.dfy` - printing and parsing undo each other (RFC 8259, with the top level of
  section 2 of RFC 4627).
* `Parsing.dfy` - the stream, the lexer and the parser with their fields, proved against `LoadText`.
* `Heaps.dfy` - the reference-counted value graph and its operations. Memory is a map from addresses to cells, since a Dafny
  object cannot be freed: a freed cell is one that is gone from the map.
* `ObjectTable.dfy` - the hash table of an object, which does to its pairs what the graph takes setting, deleting and clearing to do.
* `HeapDump.dfy` - `do_dump` on that graph, with its cycle flags and a callback that may fail at any call.
* `HeapValues.dfy` - `json_equal` and `json_deep_copy` on that graph.
* `Histories.dfy` - JSON_PRESERVE_ORDER over the life of an object.
* `EndToEnd.dfy` - what follows when graph, printer, parser and copy are put together.
* `Buffers.dfy` - the growing string buffer and array table.
* `Pack.dfy` - the format strings of `json_pack` and `json_unpack`.
* `Shapes.dfy` - what a format asks of a value, in one piece, and the way back from what was unpacked.

**The ball and chain** of a punished hero (`Ball.dfy`): where they go on every move, the leash between them, and the protocol
that picks them up and puts them down.

Each method that changes state is proved against a function or a predicate on its old state; the laws are lemmas about those.
Bytes are integers below 256; masks and shifts are written as quotients and remainders.

Where the code does something else than one would expect, the model follows the code:

* `l_isxdigit` (libjansson/load.c:39-40) is true of every character, although the comment at load.c:267 takes for granted that
  it is not. A string with any four characters after a backslash and u passes the first loop of `lex_scan_string`;
  decoding then gives every letter a value, even beyond f, and runs into `assert(0)` on anything else. That outcome is the token
  `Abort`, on which loading fails. `StrictStrings.AgreesIffHex` and `StrictStrings.AbortedIff` say exactly when either shows.
* A NUL byte that is put back is lost, because the stream takes it for the end of its buffer. Hence a NUL directly after a
  number or a word is skipped (`Parsing.NulAfterNumberIsLost`). `Grammar.LoadIffGrammar` is the language that results from both.
* `utf8_encode` accepts surrogate halves; its callers never pass one.
* `do_dump` ignores what `dump_string` returns for a key, so an invalid key is printed in part and does not fail the dump,
  although the text may not load (`EndToEnd.InvalidKeyIsDumped`) or load to another value (`EndToEnd.InvalidKeysMayLoad`). It
  loads back equal exactly if all keys are valid (`EndToEnd.ReadBackIffKeysValid`).
* `json_array_set_new` and its like release the old element before they write into the container, which may be gone by then
  (`Heaps.FreedInUse`); they ask that it is not. Cells on a cycle that nothing reaches stay for ever (`Heaps.LeakyCycle`), and only
  those keep anything from being reached (`Heaps.OnlyCyclesLeak`).
* `json_deep_copy` gives the pairs of a copied object new serials in iteration order, so with JSON_PRESERVE_ORDER a copy
  prints the text of its original only where `EndToEnd.CopyKeepsOrderIff` says.
* `hashtable_set` rehashes a full table before it looks for the key, so setting a key again may reorder all pairs
  (`Hashtables.Hashtable.FullTableReorders`; `Hashtables.Hashtable.OrderKeptIff` says when it does not).
* The move count of `json_array_remove` (libjansson/value.c:566) is one larger than what is behind the index; with a full table
  it reads one element behind the table, which `Buffers.JsonArray.Remove` reports. The model leaves that element out; the resulting
  sequence is the same.
* `teleds` (libnethack/src/teleport.c:300-308) moves the hero even when `drag_ball` refuses. `Ball.TeledsLeash` says exactly
  when the leash survives.
* libnethack/src/hack.c:2051-2053 returns after `drag_ball` has granted a move without putting ball and chain down again.
  `Ball.Punished.Step` says that the put-down is then owed, and `Ball.BarredLosesBoth` that both are in no pile any more.

## Model

| member | source | states |
|---|---|---|
| `Hashtables.ListInsert` | libjansson/hashtable.c:26-32 | linking a node before a given one keeps the circular doubly linked list a ring, with the node at that place and nothing else moved |
| `Hashtables.ListRemove` | libjansson/hashtable.c:34-38 | unlinking a node keeps the ring; the other nodes stay in their order |
| `Hashtables.InsertToBucket` | libjansson/hashtable.c:45-58 | the node lands in front of the run of its bucket (at the end of the list for an empty bucket), and only that bucket changes its first and last |
| `Hashtables.InsertKeepsRuns` | libjansson/hashtable.c:45-58 | runs that were contiguous, disjoint and covering the list are so after an insertion in front of one of them |
| `Hashtables.RemoveKeepsRuns` | libjansson/hashtable.c:113-122 | runs that were contiguous, disjoint and covering the list are so after a removal from one of them |
| `Hashtables.InsertKeepsBuckets` | libjansson/hashtable.c:45-58 | the first and last pointers of all buckets describe the runs of the list again after an insertion |
| `Hashtables.RemoveKeepsBuckets` | libjansson/hashtable.c:113-122 | the four cases of updating first and last on removal leave every bucket describing its run |
| `Hashtables.ToMapItems` | libjansson/hashtable.c:73-96 | a list of pairs with unique keys is a finite map: every pair is found under its key and nothing else is found |
| `Hashtables.InsertedMap` | libjansson/hashtable.c:267-281 | a pair for a new key anywhere in the list adds exactly that key to the map |
| `Hashtables.UpdatedMap` | libjansson/hashtable.c:257-266 | overwriting the value of a pair updates the map at its key only and keeps the old key object |
| `Hashtables.SameItemsSameMap` | libjansson/hashtable.c:152-184 | the map does not depend on the order of the list, so relinking all pairs keeps it |
| `Hashtables.PrimesGrow` | libjansson/hashtable.c:60-70 | below the last prime there is always a next one, and it is larger |
| `Hashtables.Hashtable.FindPair` | libjansson/hashtable.c:73-96 | searching only the run of one bucket finds a key if and only if it is anywhere in the table |
| `Hashtables.Hashtable.Rehash` | libjansson/hashtable.c:152-184 | relinking in place terminates although the sentinel is reset first, keeps exactly the same pair objects, establishes all runs for the next prime, and leaves the pairs in the order the relinking function gives, which the hash values determine |
| `Hashtables.Hashtable.RelinkChain` | libjansson/hashtable.c:174-182 | walking what is left of the old chain moves every pair of it, once, before the first of its new run or to the end of the list |
| `Hashtables.InsertionPointIsFirst` | libjansson/hashtable.c:45-58 | where the ends kept by a bucket say a pair is to be linked is the first position of a pair of that bucket, or the end |
| `Hashtables.LaidByHashes` | libjansson/hashtable.c:174-182 | the order after relinking depends on nothing but the hash values and the number of buckets |
| `Hashtables.Hashtable.FullTableReorders` | libjansson/hashtable.c:249-255 | five pairs fill five buckets; setting one of their keys again moves the pair with hash value 13 before the one with 0 |
| `Hashtables.LaidInPlaceIff` | libjansson/hashtable.c:174-182 | relinking keeps the order of the pairs exactly if no two of them fall into one new bucket: of two that do the later one overtakes |
| `Hashtables.Hashtable.OrderKeptIff` | libjansson/hashtable.c:249-255 | setting a known key leaves the order as it was exactly if the table is not full, or the hash values are pairwise different modulo the next prime |
| `Hashtables.Hashtable.EnsureRoom` | libjansson/hashtable.c:249-252 | after it the size is below the bucket count, the abstract map is unchanged, and the order is the present one if there was room and that of all pairs relinked if there was none |
| `Hashtables.Hashtable.Set` | libjansson/hashtable.c:243-283 | refines a map update: a known key keeps its pair and its key object and the displaced value is handed out; a new key is added; the order is that of making room, with a new pair before the first of its bucket or at the end, and for a known key the old one exactly if the table was not full or its hash values are different modulo the next prime; the segment invariant holds again |
| `Hashtables.Hashtable.Get` | libjansson/hashtable.c:285-299 | refines the map lookup, hit and miss |
| `Hashtables.Hashtable.Del` | libjansson/hashtable.c:99-133 | refines map removal: the freed pair is the one of the key, the others keep their order; an absent key changes nothing |
| `Hashtables.Hashtable.Clear` | libjansson/hashtable.c:307-321 | every pair is freed exactly once and the table is empty and valid |
| `Hashtables.Hashtable.IterNext` | libjansson/hashtable.c:344-350 | iteration visits the pairs in list order, each once, and ends after the last |
| `Hashtables.Hashtable.IterSet` | libjansson/hashtable.c:364-372 | overwrites exactly the value under the iterator |
| `Utf8.EncodeInto` | libjansson/utf.c:12-46 | writes exactly the encoding and its size, and leaves the buffer alone on error |
| `Utf8.CheckFull` | libjansson/utf.c:84-138 | the accumulating loop computes the code point of a whole multi-byte sequence or rejects it |
| `Utf8.NextOfEncode` | libjansson/utf.c:12-82 | decoding undoes encoding for every scalar value, whatever follows |
| `Utf8.EncodeOfNext` | libjansson/utf.c:48-164 | encoding undoes decoding: only the one encoding of a scalar value is accepted, so no overlong forms, no surrogates, nothing above 0x10FFFF |
| `Utf8.CheckString` | libjansson/utf.c:166-191 | accepts exactly the byte strings that are sequences of accepted characters |
| `Utf8.ValidIffEncoding` | libjansson/utf.c:166-191 | a string is accepted if and only if it is the concatenation of encodings of scalar values |
| `Utf8.DecodeOfEncodeAll` | libjansson/utf.c:140-191 | decoding a whole string undoes encoding it |
| `Utf8.EncodeOfDecodeAll` | libjansson/utf.c:140-191 | encoding undoes decoding a whole accepted string |
| `Utf8.NextIffRfc3629` | libjansson/utf.c:48-138 | a character is accepted exactly if it matches the byte table of section 4 of RFC 3629 |
| `Utf8.EncodeIsValidIffScalar` | libjansson/utf.c:12-46 | utf8_encode also encodes surrogates; what it writes is valid UTF-8 exactly for scalar values |
| `Values.EqualReflexive` | libjansson/value.c:900-928 | json_equal on trees is reflexive, reals aside |
| `Values.EqualSymmetric` | libjansson/value.c:288-312 | json_equal is symmetric: equal sizes and unique keys make the one-sided object comparison two-sided |
| `Values.EqualTransitive` | libjansson/value.c:288-312 | json_equal is transitive |
| `Values.SameKeys` | libjansson/value.c:292-309 | the counting argument: objects of one size where every key of the one is in the other have the same keys |
| `Arrange.SerialCompareSign` | libjansson/dump.c:160-164 | the comparison of serials, cut to a 32-bit int, is the true difference exactly while that fits an int; for serials less than 2^32 apart it has the right sign exactly then |
| `Arrange.StrLessIff` | libjansson/dump.c:154-158 | strcmp is below zero exactly if the strings agree up to a place where the first one ends or has the smaller byte |
| `Arrange.SortSorts` | libjansson/dump.c:293-318 | sorting by key, or by small serials, puts the members in strictly increasing order |
| `Reload.OnlySorting` | libjansson/dump.c:293-318 | with unique keys, or with different serials no two of which are 2^31 or more apart, the members have only one sorted list, so that qsort has no choice |
| `Arrange.FarApart` | libjansson/dump.c:160-164 | of serials 2^31 apart each comes before the other: the comparison contradicts itself |
| `Arrange.SortKeepsUnique` | libjansson/dump.c:293-318 | the insertion sort that the model puts for qsort neither loses nor doubles a key, whatever the comparison says |
| `Arrange.ArrangedEqual` | libjansson/dump.c:293-357 | the order in which members are visited never changes the value: the arranged tree is json_equal to the original |
| `Arrange.SortedAlike` | libjansson/dump.c:293-357 | with JSON_SORT_KEYS json_equal values are visited in the same order throughout |
| `DumpText.StringBodyIff` | libjansson/dump.c:67-152 | dump_string succeeds exactly on valid UTF-8 and then emits the string escaped character by character |
| `DumpText.PlainAlike` | libjansson/dump.c:166-400 | serials do not show in the text |
| `StringRoundTrip.StringRoundTrip` | libjansson/dump.c:67-152 | section 7 of RFC 8259: scanning a printed string gives it back, raw and ASCII, surrogate pairs included, whatever follows |
| `StringRoundTrip.UnescapeShrinks` | libjansson/load.c:346-352 | the claim of the allocation comment: decoded text is never longer than its source |
| `StringRoundTrip.IntegerRoundTrip` | libjansson/load.c:452-501 | section 6 of RFC 8259: scanning a printed 64-bit integer gives it back |
| `Printed.SortedTextAscends` | libjansson/dump.c:293-357 | with JSON_SORT_KEYS the members of every object stand in the text in the order of the bytes of their keys: loading, which keeps the order of the text, finds them so |
| `Printed.AsciiText` | libjansson/dump.c:67-152 | with JSON_ENSURE_ASCII the whole text of a document is ASCII, keys and values alike |
| `Printed.StandsIff` | libjansson/dump.c:84-95 | a character stands in the text as it is exactly if it is neither quotation mark nor reverse solidus nor a control character, and is ASCII or the flag is clear |
| `Printed.PrintedLiteral` | libjansson/dump.c:67-152 | what is printed between the quotation marks is a literal of section 7 of RFC 8259 for the string |
| `Printed.NoShorterLiteral` | libjansson/dump.c:97-141 | no literal of the standard for a string is shorter than the printed one, and with JSON_ENSURE_ASCII none that is ASCII |
| `Printed.OnlyNumeral` | libjansson/dump.c:180-192 | the printed text of an integer is the only numeral of section 6 of RFC 8259 for it, but for zero with a minus sign |
| `Printed.NumeralOf` | libjansson/dump.c:180-192 | the printed text of an integer is a numeral of the standard with that value |
| `Layout.LayoutRoundTrip` | libjansson/dump.c:45-65 | JSON_INDENT and JSON_COMPACT lay a text out and change nothing else: without the white space outside its literals every text is the one under JSON_COMPACT without indentation, and one pass over that, which breaks lines after opening and before closing brackets and after commas, gives the text back |
| `Layout.LiteralEnds` | libjansson/dump.c:67-152 | a literal of the standard ends at its first quotation mark that is not escaped, whatever follows |
| `RoundTrip.ValueRoundTrip` | libjansson/load.c:650-816 | parsing the text of any value at any depth under any flags consumes exactly that text and rebuilds the value |
| `RoundTrip.DocumentRoundTrip` | libjansson/dump.c:166-400 | every array or object of nulls, booleans, 64-bit integers and valid strings, under every mix of dump flags, loads back without error under every mix of load flags, JSON_REJECT_DUPLICATES included, and is json_equal to the original |
| `RoundTrip.SortedTextIsCanonical` | libjansson/dump.c:154-158 | with JSON_SORT_KEYS two values print the same text if and only if they are json_equal |
| `RoundTrip.PlainValid` | libjansson/dump.c:166-400 | what is printed is valid UTF-8 throughout |
| `Reload.PreservedTextIsStable` | libjansson/dump.c:293-357 | with JSON_PRESERVE_ORDER dumping, loading and dumping again reproduces the text, in whatever layout the loaded tables are, if no two serials of an object that is dumped first are 2^31 or more apart |
| `Reload.LoadIsClean` | libjansson/load.c:818-842 | whatever bytes are accepted, the value has valid NUL-free strings, 64-bit integers and unique keys |
| `Reload.ReloadRoundTrip` | libjansson/load.c:818-842 | every real-free document that loads can be dumped under any flags and loaded again, giving an equal value |
| `Reload.RoundTripIff` | libjansson/load.c:818-842 | for an array or object without reals and without a key twice, whatever its strings, keys and integers are: its text loads to an equal value, under any flags, exactly if it is a document, with valid NUL-free strings and keys and int64 integers |
| `Reload.LastMemberWins` | libjansson/load.c:660-711 | an accepted object is the fold of its members in which the last value written for a key wins |
| `Reload.RejectedDuplicates` | libjansson/load.c:673-679 | with JSON_REJECT_DUPLICATES an accepted object has each written member exactly once, in the order of the text |
| `Parsing.ColumnIsCodePoints` | libjansson/load.c:186-195 | the column counts code points since the last line feed |
| `Parsing.CutSequence` | libjansson/load.c:160-180 | a sequence cut short by the end of the input or by a byte that does not continue it is rejected, and only then |
| `Parsing.NulAfterNumberIsLost` | libjansson/load.c:205-221 | the concrete case: `[1`, NUL, `]` is accepted |
| `Parsing.AccountGet` | libjansson/load.c:183-195 | getting a byte keeps position, line and column true of the consumed prefix |
| `Parsing.AccountUnget` | libjansson/load.c:205-221 | ungetting keeps position, line and column true of the consumed prefix; a lost NUL is the only byte neither consumed nor unread |
| `Parsing.Lexer.Get` | libjansson/load.c:142-203 | hands out the next byte of the longest valid prefix of the input, then end or error for ever; the counters stay true |
| `Parsing.Lexer.UngetChar` | libjansson/load.c:205-221 | the byte is unread again unless it is NUL, which is lost; the buffer asserts cannot fail |
| `Parsing.Lexer.UngetUnsave` | libjansson/load.c:247-255 | stream and saved text go back together; the unsave assert cannot fail |
| `Parsing.Lexer.SaveCached` | libjansson/load.c:257-265 | moves the rest of the current character to the saved text without disturbing line or column |
| `Parsing.Lexer.ScanRaw` | libjansson/load.c:301-344 | the first pass over a string finds its closing quote exactly where the specification of raw strings says |
| `Parsing.Lexer.DecodeUnicodeEscape` | libjansson/load.c:268-289 | four characters decode to the number they spell; a character that is neither digit nor letter is the failing assert |
| `Parsing.Lexer.ScanPoint` | libjansson/load.c:366-417 | escapes and surrogate pairs decode to scalar values, lone surrogates and NUL are refused, and nothing is read behind the closing quote |
| `Parsing.Lexer.Decode` | libjansson/load.c:359-440 | the second pass writes within the allocated size and yields exactly the unescaped text |
| `StrictStrings.GrammarIffHex` | libjansson/load.c:301-344 | of what the first loop lets pass, exactly the texts with hexadecimal digits at every escape match the grammar of section 7 of RFC 8259 |
| `StrictStrings.StrictDecoding` | libjansson/load.c:359-440 | on a literal of that grammar the second loop computes the text of its code units, or refuses it for an unpaired surrogate or NUL, and never aborts |
| `StrictStrings.AgreesIffHex` | libjansson/load.c:39-40 | library and standard agree on a string exactly if its escapes have hexadecimal digits or the library refuses it anyhow; what the library decodes is what the standard says exactly if they have |
| `StrictStrings.AbortedIff` | libjansson/load.c:268-289 | the assert fails exactly if some escape has a character that is neither digit nor letter and every escape before it has only letters or digits, is not NUL, and is a surrogate only as half of a pair, or as a high one right before the failing escape |
| `StrictStrings.LiteralIffHex` | libjansson/load.c:291-450 | a string token is a literal of RFC 8259 with its text and its closing quote exactly if all digits are hexadecimal; every such literal is accepted |
| `StrictStrings.LettersTakenForDigits` | libjansson/load.c:39-40 | the concrete case: four times z after a backslash and u is accepted as code point 152915, and is no literal |
| `StrictStrings.MarksAbort` | libjansson/load.c:268-289 | the concrete case: four exclamation marks make the assert fail |
| `Parsing.Lexer.ScanNumber` | libjansson/load.c:452-545 | yields the token that the specification of numbers assigns to the unread text, and no NUL byte is in the text of a token |
| `StrictNumbers.NumberIffGrammar` | libjansson/load.c:452-545 | a number token is produced exactly if the input begins with a number of section 6 of RFC 8259 that the next byte does not continue, within int64 if it has neither fraction nor exponent; the token is that of the number, and what is left is what follows it |
| `StrictNumbers.ScanIsLongest` | libjansson/load.c:452-545 | maximal munch: what scanning finds is a number, and with the next byte it can no longer become one |
| `Parsing.Lexer.Scan` | libjansson/load.c:547-615 | yields the token the specification assigns to the unread text; what is consumed is white space followed by exactly the saved text |
| `Parsing.Lexer.ParseObject` | libjansson/load.c:650-721 | terminates on every input and builds what the specification of objects says, or fails where it does |
| `Parsing.Lexer.ParseArray` | libjansson/load.c:723-761 | terminates on every input and builds what the specification of arrays says, or fails where it does |
| `Parsing.Lexer.ParseValue` | libjansson/load.c:763-816 | the mutual recursion terminates with the unread input as measure |
| `Parsing.LoadBuffer` | libjansson/load.c:902-920 | computes the specified load of the whole buffer; on NUL-free input position, line and column describe the prefix read; after a complete load they are those of the whole input without its NUL bytes |
| `Grammar.LoadIffGrammar` | libjansson/load.c:818-842 | for every input and all flags: it loads to a value exactly if it is UTF-8 and a text of the grammar of RFC 8259 with that value, an array or object at the top, where a NUL byte may follow a number or a name and any letters may stand for hexadecimal digits; with JSON_DISABLE_EOF_CHECK exactly if it starts with such a text that is UTF-8, whatever follows |
| `Grammar.DocumentLoads` | libjansson/load.c:650-842 | a text of that grammar loads to its value, the last member with a key winning, and does not load exactly if it has none: for an integer beyond int64, an unpaired surrogate, a NUL character, a failing assert or a rejected duplicate |
| `Grammar.StandardIffExact` | libjansson/load.c:39-40 | the texts of RFC 8259 are those of that grammar with neither a NUL byte after anything nor another character for a hexadecimal digit |
| `Grammar.StandardLoads` | libjansson/load.c:818-842 | every text of RFC 8259 with an array or object at the top loads to its value, if it has one |
| `Heaps.CountUp` | libjansson/jansson.h:98-104 | an increment keeps all counts exact, or stuck at SIZE_MAX |
| `Heaps.CountDown` | libjansson/jansson.h:109-114 | a decrement of a held reference keeps all counts exact |
| `Heaps.SlotSetTableOk` | libjansson/value.c:122-157 | setting a key keeps keys and serials unique and serials below the next one, in whatever order a rehash leaves the pairs |
| `Heaps.RelinkedTable` | libjansson/hashtable.c:152-184 | listing the pairs in another order keeps keys and serials unique |
| `Heaps.FoundRelinked` | libjansson/hashtable.c:249-255 | in a table that is listed in another order the same pair is found for a key |
| `Heaps.UpdatedRelinked` | libjansson/hashtable.c:243-283 | setting a key before and after the pairs are relinked gives the same pairs |
| `ObjectTables.SetIsSlotSet` | libjansson/hashtable.c:243-283 | what hashtable_set promises about the map of the table is what the graph takes setting a key to be: the pairs with the value replaced or added, in any order |
| `ObjectTables.JsonObject.Set` | libjansson/value.c:122-157 | the hash table with its nodes and buckets refines setting a key in a cell of the graph, serial included, and hands out the value it displaces |
| `ObjectTables.JsonObject.Del` | libjansson/value.c:170-179 | the hash table refines cutting out the pair of a key, the others in their order |
| `ObjectTables.JsonObject.Clear` | libjansson/value.c:181-192 | the hash table refines emptying the pairs; every pair is handed out once, and the serial goes on |
| `Heaps.Heap.Incref` | libjansson/jansson.h:98-104 | the caller gains one reference, every count stays exact |
| `Heaps.Heap.Decref` | libjansson/jansson.h:109-114 | the caller loses one reference; the cascade terminates, leaves exactly the memory that json_decref as a function leaves, keeps every count exact and touches nothing out of reach |
| `Heaps.Heap.Drop` | libjansson/jansson.h:109-114 | between two calls: the heap is ready again afterwards, and a reference that is not the last changes one count only |
| `Heaps.FormedElsewhere` | libjansson/value.c:122-192 | operations on one container keep all tables good, the three constants in their places and all cycle flags clear |
| `Heaps.Heap.Delete` | libjansson/value.c:877-895 | a cell at count zero releases each of its children once and is read only before it is freed; no other cell is left at count zero |
| `Heaps.Heap.New` | libjansson/value.c:73-92 | a fresh cell belongs to the caller with count one, and the heap is ready |
| `Heaps.Heap.ArrayAppendNew` | libjansson/value.c:488-511 | takes over the reference on success and on failure alike; counts stay exact |
| `Heaps.Heap.ArraySetNew` | libjansson/value.c:420-444 | releases the old element before its place is overwritten, takes over the new one, gives the exact memory, and reports every error exit; asks only, and only where an element is released, that the array outlives that release |
| `Heaps.Heap.ArrayInsertNew` | libjansson/value.c:513-551 | inserts and takes over the reference, index range and self insertion checked |
| `Heaps.Heap.ArrayRemove` | libjansson/value.c:553-570 | releases and removes one element, with the exact memory; the array must outlive the release |
| `Heaps.Heap.ArrayClear` | libjansson/value.c:572-586 | releases every element once, with the exact memory; the array must outlive the releases |
| `Heaps.Heap.ArrayExtend` | libjansson/value.c:588-608 | appends new references to all elements of the other array, which may be the same array |
| `Heaps.Heap.ObjectSetNewNocheck` | libjansson/value.c:122-157 | refines setting a key, new or known; a full table is rehashed first, so the pairs may be in another order either way; the old value is released before it is overwritten, every other cell is left alone, and the heap is ready again |
| `Heaps.Heap.ObjectSetNew` | libjansson/value.c:159-168 | the same for valid keys; for others the reference is dropped |
| `Heaps.Heap.ObjectDel` | libjansson/value.c:170-179 | unlinks the pair of the key, then releases its value, with the exact memory; the object must outlive the release |
| `Heaps.Heap.ObjectClear` | libjansson/value.c:181-192 | releases every value once; the serial goes on |
| `Heaps.Heap.ArrayAppend` | libjansson/jansson.h:180-184 | the borrowing form leaves the references of the caller as they were; a failed append leaves the heap as it was, but that a count one below SIZE_MAX gets stuck |
| `Heaps.Heap.ObjectSetNocheck` | libjansson/jansson.h:153-157 | the borrowing form leaves the references of the caller and all other cells as they were, and on failure the heap, but that a count one below SIZE_MAX gets stuck |
| `Histories.OrderIsByBirth` | libjansson/value.c:122-192 | insertion order: after any history of settings, deletions and clearings it lists exactly the keys that were set since they were last removed, in the order of their first setting since then, each with its last value |
| `Histories.Chronicled` | libjansson/value.c:122-192 | over any history, with any layout of the table after every operation, the pairs listed by serial are the insertion order, and the serial counts the settings |
| `Histories.SerialIsBirth` | libjansson/value.c:122-157 | over any history the serial of a pair is the number of settings before its key was first set since it was last removed |
| `Histories.VisitedInInsertionOrder` | libjansson/dump.c:293-357 | JSON_PRESERVE_ORDER without JSON_SORT_KEYS visits exactly the insertion order, however old the object is, as long as no live key has been there for more than 2^31 settings |
| `Histories.TextInInsertionOrder` | libjansson/dump.c:293-394 | the text of the object is that of its members in insertion order |
| `Histories.Perform` | libjansson/value.c:122-192 | each operation of a history, done on the graph, is one step of it |
| `Histories.LiveAndDump` | libjansson/dump.c:402-417 | through the operations: an object is created, lives through any history and is dumped; if there is text it has the members in insertion order |
| `Heaps.CountsAreExact` | libjansson/jansson.h:98-114 | between calls a count that is not stuck is the number of references the caller holds plus the number of pointers to the cell, and a cell exists exactly while that is not zero |
| `Heaps.NothingDangles` | libjansson/value.c:122-157 | no pointer in a cell and no reference of the caller leads to a freed cell |
| `Heaps.BelowIsClosed` | libjansson/value.c:420-444 | without cycles a container is out of reach of what it points to, so it outlives its release |
| `Heaps.OnlyCyclesLeak` | libjansson/value.c:388-397 | in every heap between two calls every cell is reached from a reference of the caller or a stuck cell exactly if the cells that lie on cycles are |
| `Heaps.NothingLeaks` | libjansson/value.c:388-397 | without cycles every cell is reachable from a reference of the caller or from a stuck cell |
| `Heaps.LeakyCycle` | libjansson/value.c:495-499 | with a cycle of two arrays, which the self-insertion check lets pass, cells stay that nothing reaches; and releasing the one array frees the other |
| `Heaps.FreedInUse` | libjansson/value.c:440-441 | the concrete case: two arrays hold each other and nobody holds either; json_array_set_new on the one releases the other, which frees the one before its table is written |
| `Heaps.RingOutlives` | libjansson/value.c:440-441 | when the caller holds the released array, the other outlives it although the caller does not hold that |
| `HeapDump.TreeIffNoCycle` | libjansson/dump.c:217-221 | the tree that a cell denotes exists if and only if no walk from the cell meets a cell twice |
| `HeapDump.DumpIndent` | libjansson/dump.c:45-65 | emits the specified layout piece by piece |
| `HeapDump.DumpString` | libjansson/dump.c:67-152 | the run-wise printer emits the specified text and fails exactly on invalid UTF-8, as long as no call of the callback fails |
| `HeapDump.VisitOrder` | libjansson/dump.c:293-318 | the sorted keys, each looked up again, list the pairs in the specified order, each once |
| `HeapDump.OrderOfTree` | libjansson/dump.c:293-357 | sorting bare keys and sorting members with their values agree |
| `HeapDump.DoDump` | libjansson/dump.c:166-400 | terminates on every graph, cyclic or not; with a callback that does not fail it succeeds exactly when no cycle is met and every string value is valid, and emits the specified text; on every exit flags that were clear are clear |
| `HeapDump.DumpArray` | libjansson/dump.c:211-258 | the array case, with the flag cleared on success and on every error |
| `HeapDump.DumpObject` | libjansson/dump.c:260-394 | the object case, with the flag cleared on success and on every error |
| `HeapDump.ReadyIsSound` | libjansson/value.c:122-157 | every heap that the operations leave behind meets what do_dump needs; each of them keeps the heap ready |
| `HeapDump.DumpCallback` | libjansson/dump.c:438-446 | leaves the heap as it was on every exit; without JSON_ENCODE_ANY only containers are dumped |
| `HeapDump.JsonDumps` | libjansson/dump.c:402-417 | text is returned if and only if the top level is allowed, no cycle is reachable and all string values are valid |
| `HeapValues.JsonEqual` | libjansson/value.c:900-928 | on the graph, pointer shortcut and singletons included, it decides equality of the denoted trees |
| `HeapValues.JsonArrayEqual` | libjansson/value.c:610-630 | decides equality element by element |
| `HeapValues.JsonObjectEqual` | libjansson/value.c:288-312 | decides equality by lookups and sizes |
| `HeapValues.DeepCopy` | libjansson/value.c:959-986 | the copy denotes an equal tree whose members have their places in the iteration order of the original for serials; every old cell including its count is unchanged, the caller gains exactly the reference to the copy |
| `HeapValues.CopyArray` | libjansson/value.c:647-660 | the array case |
| `HeapValues.CopyObject` | libjansson/value.c:339-362 | the object case: equal, each member numbered by its place in the original, in whatever order the new table lists its pairs |
| `HeapValues.CopySharesNothing` | libjansson/value.c:959-986 | no walk from a copy reaches a cell of the original other than the three constants |
| `EndToEnd.ReadBackIffKeysValid` | libjansson/dump.c:360-372 | of an array or object with printable strings, unique keys and no reals, the text loads back to an equal value, under all dump and load flags, exactly if every key at every depth is UTF-8 |
| `EndToEnd.DumpAndLoad` | libjansson/dump.c:402-417 | across printer and parser, in every heap that the operations leave behind: an array or object graph is printed exactly if it has no cycle and no invalid string; if its values are storable and it has no reals, what was printed is read back equal exactly if every key is UTF-8; a document is always printed and read back equal, under all flags, and the graph is left unchanged |
| `EndToEnd.CopyPrintsAlike` | libjansson/value.c:959-986 | with JSON_SORT_KEYS a deep copy prints the same text as its original, although its serials and layout differ |
| `EndToEnd.CopyText` | libjansson/value.c:339-362 | with JSON_PRESERVE_ORDER a deep copy prints the members in the order in which the original iterates over them |
| `EndToEnd.OrderShowsIff` | libjansson/dump.c:293-357 | JSON_PRESERVE_ORDER makes no difference to a text exactly if every object iterates over its members in the order of their serials |
| `EndToEnd.CopyKeepsOrderIff` | libjansson/value.c:339-362 | with JSON_PRESERVE_ORDER a deep copy prints the text of its original exactly if every object of the original iterates over its members in the order of their serials |
| `EndToEnd.CopyReorders` | libjansson/value.c:339-362 | the concrete case: two keys in one bucket, the later one first in the list; the copy prints them the other way round |
| `EndToEnd.InvalidKeyIsDumped` | libjansson/dump.c:360-372 | the concrete case: an object with the key FF is dumped with success, and the text does not load |
| `EndToEnd.InvalidKeysMayLoad` | libjansson/dump.c:360-372 | the concrete case: the text of an object with the keys FF and FE loads, to an object with one other key |
| `Buffers.StrBuffer.AppendBytes` | libjansson/strbuffer.c:69-101 | appends or reports that a size would exceed size_t; the terminator stays in bounds and nothing wraps |
| `Buffers.StrBuffer.Pop` | libjansson/strbuffer.c:103-112 | undoes appending a byte |
| `Buffers.JsonArray.Grow` | libjansson/value.c:459-486 | makes room for the amount, keeping the elements or handing out the old table |
| `Buffers.JsonArray.Append` | libjansson/value.c:488-511 | refines appending to a sequence; the table doubles exactly when it is full |
| `Buffers.JsonArray.Insert` | libjansson/value.c:513-551 | refines inserting into a sequence, in a grown and in the same table |
| `Buffers.JsonArray.Remove` | libjansson/value.c:553-570 | refines removing from a sequence; the move it asks for reaches one element behind the table exactly if the table is full |
| `Buffers.EightOverrun` | libjansson/value.c:553-570 | the concrete case: after eight appends any removal reaches behind the table |
| `Buffers.JsonArray.Extend` | libjansson/value.c:588-608 | refines concatenation, also with itself |
| `Buffers.AppendAll` | libjansson/value.c:459-511 | n appends to a fresh array copy fewer than 2n elements in total |
| `Pack.Scanner.Next` | libjansson/pack_unpack.c:50-71 | skips what is ignored; it never moves on behind the terminating NUL, nor is it asked to |
| `Pack.Scanner.PackObject` | libjansson/pack_unpack.c:89-138 | computes the specified object or fails where the specification does |
| `Pack.Scanner.PackArray` | libjansson/pack_unpack.c:140-169 | computes the specified array or fails where the specification does |
| `Pack.Scanner.UnpackObject` | libjansson/pack_unpack.c:224-309 | stores what the specification says, with the set of named keys for strictness |
| `Pack.Scanner.UnpackArray` | libjansson/pack_unpack.c:311-373 | stores what the specification says |
| `Pack.StrictIffAllNamed` | libjansson/pack_unpack.c:295-302 | the size comparison is exact: a strict unpacking that reaches the closing brace succeeds if and only if every key was named, even when the format repeats keys |
| `Shapes.UnpackIffMatches` | libjansson/pack_unpack.c:224-490 | json_unpack succeeds exactly if the format can be read and the value matches it: under every named key and at every place is a value of the kind its character asks for, and nothing is left over where `!` or JSON_STRICT forbids it, in objects and arrays; then exactly the named places are stored |
| `Shapes.AllNamedIff` | libjansson/pack_unpack.c:295-302 | the keys named are as many as the members exactly if every member is named |
| `Shapes.UnpackRoundTrip` | libjansson/pack_unpack.c:375-586 | a strict unpacking can be undone: packing the same format with the same keys and the values that came out gives a value equal to the one taken apart, for numbers within int and formats without `!`, `*` and `F` |
| `Shapes.RefillIsGiven` | libjansson/pack_unpack.c:375-490 | the values that came out, put back in the order of the format, are those at the named places |
| `Shapes.WideNumberIsCut` | libjansson/pack_unpack.c:406-416 | the concrete case: 2^31 unpacked with `i` comes out negative, and packing that gives another value |
| `Shapes.DenseFormat` | libjansson/pack_unpack.c:50-71 | the white space, commas and colons of a format do not matter: without them it packs the same value, and unpacks when the original does, with the same values at the same places |
| `Pack.UnpackPacked` | libjansson/pack_unpack.c:171-220 | unpacking a packed value with the same format and arguments stores the packed arguments, where no object names a key twice |
| `Pack.DistinctIff` | libjansson/pack_unpack.c:89-138 | that no object names a key twice, as the packing finds it, is a property of format and arguments |
| `Pack.PackRoundTrip` | libjansson/pack_unpack.c:492-586 | the same for whole format strings that name no key of an object twice, under JSON_STRICT too |
| `Pack.JsonPack` | libjansson/pack_unpack.c:492-524 | the scanner-driven packing computes the specification on every format and argument list |
| `Pack.JsonUnpack` | libjansson/pack_unpack.c:550-586 | the scanner-driven unpacking computes the specification on every format, value and argument list |
| `Ball.Distances` | libnethack_common/src/hacklib.c:412-433 | the two distances agree on what is adjacent, and the squared one takes six values within two squares |
| `Ball.NoBadChainMovement` | libnethack/src/ball.c:422-539 | the default branch of the switch is unreachable |
| `Ball.ChoiceInMiddle` | libnethack/src/ball.c:422-539 | every square the switch chooses is next to the target of the hero and next to the ball |
| `Ball.LeashKept` | libnethack/src/ball.c:366-619 | after every legal move, granted or refused, the chain is next to the hero and to an uncarried ball again |
| `Ball.LeashKeptInPlace` | libnethack/src/hack.c:2111-2116 | a granted step that the hero does not make after all keeps the leash too |
| `Ball.BallFollows` | libnethack/src/ball.c:576-618 | on a granted step the ball moves one square at most: only if it is out of range or every square for the chain is blocked, and then to where the chain was, and the chain to where the hero was |
| `Ball.BothTeleported` | libnethack/src/ball.c:600-611 | a granted jump that must drag the ball takes ball and chain to the target |
| `Ball.Refused` | libnethack/src/ball.c:542-593 | a refusal for the load changes nothing; any other pulls the ball to the chain, and the hero too unless a monster is there |
| `Ball.ChainFollows` | libnethack/src/ball.c:366-540 | where the chain goes while the ball stays: nowhere if it reaches the target, to the old square of the hero with a carried ball, halfway to a ball two squares off, to the free or nearer one of the two squares after a knight's move, halfway to the target from straight behind, else to the old square of the hero if that is between, or under him |
| `Ball.SkipIffBlocked` | libnethack/src/ball.c:422-539 | the switch finds no square for the chain exactly if every square it may take is rock or across a corner of rock |
| `Ball.RefusedIff` | libnethack/src/ball.c:366-619 | exactly when the move is refused, in squares and loads known before the call: the chain is too far, every square for it is rock while none of the three is in rock, or the ball is too far, and the load or a hazard forbids dragging |
| `Ball.TerrainRespected` | libnethack/src/ball.c:386-619 | unless one of the three squares is rock before, chain and ball end on rock only under the hero |
| `Ball.NearerSquare` | libnethack/src/ball.c:433-490 | of two free squares the chain takes the nearer one |
| `Ball.TeledsLeash` | libnethack/src/teleport.c:243-314 | teleporting keeps the leash exactly if drag_ball is not asked or grants the move |
| `Ball.TeledsMoves` | libnethack/src/teleport.c:243-314 | a jump takes ball and chain along to the target, unless the ball is within reach of it, or the hero goes one square with leave to drag |
| `Ball.TeledsBreaksLeash` | libnethack/src/teleport.c:300-308 | the concrete case: chain and ball in line behind an overloaded hero who goes one square with leave to drag |
| `Ball.DroppedLeash` | libnethack/src/ball.c:630-713 | dropping or throwing the ball keeps the leash |
| `Ball.ThrownAhead` | libnethack/src/ball.c:630-713 | a thrown ball lies one square beyond the hero in the direction of the throw, or where he fell in with it, and the chain lies where he is; one that comes down where he is moves nobody |
| `Ball.LeashKeptOverRuns` | libnethack/src/ball.c:366-713 | over any run of steps (barred, made or not made), jumps, throws and pick-ups, for any terrain and coordinates, the leash holds all the time exactly if drag_ball refuses no jump |
| `Ball.Punished.BcOrder` | libnethack/src/ball.c:146-165 | finds which of the two lies on top; the search in one pile cannot fail |
| `Ball.Punished.PickUp` | libnethack/src/ball.c:315-331 | takes chain and uncarried ball from the floor of a seeing hero, touching no other object |
| `Ball.Punished.PutDown` | libnethack/src/ball.c:243-349 | puts both where they belong, stacked as the control bits say, touching no other object |
| `Ball.Punished.DragBall` | libnethack/src/ball.c:366-619 | carries out the plan; exactly one put-down is owed if it returns TRUE and none if FALSE, on every path |
| `Ball.Punished.Step` | libnethack/src/hack.c:2045-2236 | hero, ball and chain end where the plan says, for a step that is refused, barred by a region, not made after all, or made; the put-down stays owed exactly if drag_ball grants the move and the region bars it |
| `Ball.BarredLosesBoth` | libnethack/src/hack.c:2051-2053 | the concrete case: after a barred step of a seeing hero ball and chain are in no pile |
| `Ball.Punished.TeledsTo` | libnethack/src/teleport.c:243-314 | pick-ups and put-downs balance on every path of a teleport |
| `Ball.Punished.PlaceBc` | libnethack/src/ball.c:96-121 | ball and chain lie under the hero, the chain on top |
| `Ball.Punished.UnplaceBc` | libnethack/src/ball.c:123-139 | neither is on the floor any more and no other object is touched |
| `Ball.Punished.DropBall` | libnethack/src/ball.c:630-713 | moves the chain to the hero and the hero to the ball |
| `Ball.Unmoved` | libnethack/src/ball.c:229-351 | picking up and putting down without a move leaves the two stacked as they were |

## Left out

- Hashtables.Hashtable.Rehash: memory is taken to suffice; after a failed allocation the original has freed its old buckets and
  keeps no invariant.
- Hashtables.Hashtable.EnsureRoom: requires the table to be smaller than the last prime of the list, where the original would
  index behind it.
- Hashtables.PrimesGrow: that the bucket counts are prime is not stated; what is proved of the table holds for any growing counts.
- Parsing.Lexer.FinishReal: a real keeps its literal text; the conversion by strtod, its overflow error and the dependence on the
  locale are not modelled, here and in printing.
- Parsing.Lexer.ParseObject: builds trees; the reference counting of the parser's own values is that of the operations in
  `Heaps`, which it does not call.
- Heaps.Heap.Decref: the address of a freed cell is not used again.
- Heaps.Heap.ArraySetNew: requires that the container outlives the release of its old element; where it does not, as in
  `Heaps.FreedInUse`, the original goes on writing into a freed container, and what becomes of that is not modelled. The same goes
  for the other operations that release an element or a member.
- Heaps.Relink: the order of the pairs after a key is set is arbitrary here; which order it is follows from the hash values, which
  are not modelled (any function that respects key equality serves in `Hashtables`).
- HeapDump.VisitOrder: for serials 2^31 or more apart the comparison contradicts itself (`Arrange.FarApart`) and C leaves open what
  qsort does; the model then puts one insertion sort for it.
- HeapDump.DumpString: the callback is known by which of its calls fail; what it does with the text when it fails is not modelled.
- Pack.Scanner.Pack: a missing or mistyped variable argument, undefined in C, counts as a failure; reference counting of `O` and
  `o` is not modelled.
- Pack.JsonUnpack: the floating point value stored for `F` is represented by the number it is taken from.
- Buffers.JsonArray.Grow: the size of a JSON array has no overflow guard in the original and is unbounded here.
- Ball.Punished.DragBall: messages, damage, effects of the square, remembered glyphs and what is felt when blind; terrain, hazards,
  encumbrance, monsters and random numbers are parameters.
- Ball.Punished.Step: what its callers do between the return of `drag_ball` and the put-down beyond the coordinates; and what follows
  while a put-down is owed, since the next call would take objects from the floor that are not there.
- Signed characters: bytes above 0x7F are never compared as negative numbers; 0xFE and 0xFF, which would equal the stream states,
  are not part of UTF-8.
- 32-bit counters: line, column, depth and the array index of `do_dump` are unbounded.
- Files and strings as sources and sinks (`json_load_file`, `json_loadf`, `json_dumpf`, `json_loads` beside `json_loadb`), error
  messages, custom allocators and allocation failure.
- `json_object_update`, the shallow `json_copy`, the setters of strings and numbers and the remaining borrowing wrappers: they would
  add only easy members.
- `bc_felt` and `set_bc`: they concern only what is displayed.
