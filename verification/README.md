# Verified model of the server framework's self-contained cores

The project models, in Dafny 4.11, the parts of the C++ server framework whose correctness rests on an invariant of a
whole structure, and proves what each is for. `dafny verify dfyconfig.toml` checks everything.

- **The XML engine** (tinyxml2). A text is parsed inside one mutable character buffer; strings stay index ranges of it
  and are decoded in place when they are first read. Modelled: numeric references and UTF-8 (`CharRef`), the
  two-cursor decoder and lazy reading (`StrPair`), the parser as a specification on values (`XmlParser`) and as the
  code that works on the buffer (`XmlDocument`), the printer (`XmlPrinter`), documents as values (`XmlTree`), the line
  breaks and blanks it prints (`XmlSpacing`), printing followed by parsing (`XmlRoundTrip`), the doubly linked tree
  and its surgery (`DomLinks`, `Dom`), the free-list pools its nodes live in (`MemPool`), the tree the parser builds
  in them (`DomParser`) and runs of operations on it (`DomRuns`).
- **The small-object allocator**: a free list threaded through the first bytes of free blocks (`ChunkList`), a pool of
  chunks with three cursors and the swap-and-pop release (`FixedPool` as values, `SmallObj` as the code), and the
  array of pools with its sized and unsized deallocation (`SmallObjAllocator`, and every run of it in `SmallObjRuns`).
  Memory is one map from addresses to bytes; `new` returns a range nobody owns.
- **The single-thread processor**, as interleaved statements under sequential consistency: the many-writer queue
  (`RwQueue`), the hand-over of a task to a sender that may give up waiting (`SendTask`), and the run and stop
  protocol (`ProcessorRun`, and in `ProcessorPromise` which accepted tasks are certain to run). Each is a state
  machine; its theorems are about every execution.
- **MD5**: RFC 1321 as a definition (`Md5Spec`) and the class that absorbs a message through a 64-byte buffer (`Md5`).
- **The module and event manager** (`ModuleManager`): an event table indexed modulo the number of events, against
  asking every module.
- **Tuple serialisation** (`TupleSerial`): sizes, bytes written and bytes read of a list of fields.
- Shared: `XmlChars` (character classes, also `Option`), `Bytes` (little-endian numbers), `Sequences`.

Objects whose methods update their fields are classes here too: `XMLDocument`, `XMLPrinter`, `XMLNode`, `MemPoolT`,
`FixedAllocator`, `SmallObjAllocator`, `MD5`, `CDataManager`. Their methods are proved against functions on values,
and the laws are lemmas about those functions.

## Results that bound what the code does

Where the code falls short of the obvious law, the model keeps the code and proves when the law holds.

- Decoding in place equals the left-to-right decoder exactly when every unknown ampersand lands on an ampersand
  (`InPlaceIsDecode`): the unknown-entity branch moves the write cursor without copying. `"&lt;&x"` reads back as
  `"<lx"` (`StaleCharacterShows`).
- Escaping is undone by decoding exactly for strings without a carriage return (`EscapeRoundTrip`).
- The bytes emitted for a numeric reference are UTF-8 exactly for Unicode scalar values (`EncodeIsUtf8`); surrogates
  and numbers from 0x110000 on are emitted all the same. A number too long for 32 bits wraps: of hexadecimal digits
  only the last eight count (`HexReference`), decimal ones count modulo 2^32 (`DecimalReference`).
- A printed document comes back exactly when it has a node, does not end with plain text, does not open with a text of
  which the parser skips a part and, out of compact mode, has no text that blanks are printed around
  (`DocumentRoundTrip`). The cases that fail differ: no node is the error of an empty document (`NothingComesBack`),
  plain text at the end is an error (`FailsExactlyOnTextAtEnd`), and white space or a byte order mark at the start is
  lost without one (`SkippedIsLost`).
- Out of compact mode the parser takes the line breaks and blanks directly before and behind a plain text for a part
  of it; `Back` says what comes back. `<a>x<b/></a>` comes back with four blanks behind the x (`BlanksJoinTheText`).
  The document is unchanged exactly when no plain text is directly followed by an element below the document and, at
  the top, none stands directly behind an element, or directly in front of anything but a text unless only texts come
  before it (`SpacingSafe`, `SameExactly`).
- When a parse fails, the node of every item under way is deleted without having been counted as used. Until the pools
  are cleared they count nodes as untracked that are gone (`ParseDeep`); afterwards nothing but the root is left
  (`Parse`).
- `getDigest` overwrites the buffered tail of the message when the padding needs a second block, that is when the
  length modulo 64 is 56 or more, so a second call answers for another message (`KeepsMessage`, `SpillExample`); from
  the second call on the answer is stable (`SecondDigestIsStable`). The `finished` flag never helps, because `init`
  clears it.
- `InsertAfterChild` with the node itself as the reference leaves links that spell no child sequence
  (`BehindItselfBreaks`). It writes through a null pointer exactly when the new node is the last child and follows the
  reference directly (`StillFollowed`, and `fault` in the contract).
- Inserting a node anywhere keeps the tree free of cycles exactly when the new parent is outside its subtree
  (`AttachStaysRanked`, `RankedMeansOutside`); the code does not test for it.
- `PostTask` returning true does not mean that the task runs: it tests the state and pushes in separate statements,
  and `Stop` may come between them. A push is certain to be run before the processor is stopped exactly when it is
  `Sure` (`SureExactly`): always kept if it is (`SureIsKept`), and lost in some continuation of every execution if it
  is not (`UnsureMayBeLost`). A NORMAL push is sure while the processor has not come to its end and no `InternalStop`
  waits in its queue; a HIGHT push may also come while one waits, as long as the processor is neither about to begin a
  NORMAL batch nor in one that will run `InternalStop`; a LOW push never is sure, however long before `Stop` it was
  accepted.
- The wake-up call the processor makes after unlocking a record can reach a record the sender has deleted
  (`NotifyAfterDelete`): it finds the record exactly as long as the sender has not returned true (`NoUseAfterDelete`).
  Every other statement finds its record.
- A string comes back from `tuple_unserialize` with the stored NUL appended, so the round trip is exact just for lists
  without strings (`ExactWithoutStrings`).
- The comment at src/tinyxml2.cpp:1793 says duplicate attributes are not detected; the code detects them, and so does
  the model.

## Model

| member | source | states |
|---|---|---|
| Utf8.EncodeIsUtf8 | src/tinyxml2.cpp:389-435 | an independent decoder of the octet grammar of RFC 3629 section 4 gives the code point back exactly for Unicode scalar values |
| Utf8.ConvertUTF32ToUTF8 | src/tinyxml2.cpp:389-435 | filling the output from its last byte leaves the encoding in front and every other byte alone |
| Utf8.TrailIsMasked | src/tinyxml2.cpp:412-428 | the arithmetic used for a trail byte is the source's or-and-mask on 32-bit words |
| CharRefs.HexReference | src/tinyxml2.cpp:438-531 | every "&#x...;" of hexadecimal digits is consumed whole and denotes the positional value of its last eight digits, which is below 2^32: the loop runs right to left in wrapping 32-bit arithmetic and its multiplier becomes 0 |
| CharRefs.DecimalReference | src/tinyxml2.cpp:438-531 | every reference of one or more decimal digits is consumed whole and denotes its positional value modulo 2^32; with at most nine digits, the value itself, below 10^9 |
| CharRefs.CharacterRef | src/tinyxml2.cpp:438-531 | a reference never emits more characters than it consumes, and consumes at least one |
| TextDecoding.InPlaceIsDecode | src/tinyxml2.cpp:266-364 | the two-cursor loop produces what the pure decoder says if and only if no unknown ampersand shows a stale character |
| TextDecoding.KnownDecodes | src/tinyxml2.cpp:266-364 | when every ampersand starts a reference or a known entity the loop is the pure decoder |
| TextDecoding.StaleCharacterShows | src/tinyxml2.cpp:338-346 | a text on which the loop and the decoder differ |
| TextDecoding.InPlace | src/tinyxml2.cpp:266-364 | the result is never longer than the range, so writes stay inside it, and extends what was written |
| StrPairs.ScanReference | src/tinyxml2.cpp:438-531 | the scan in the buffer finds the number the value-level definition gives, or none |
| StrPairs.GetCharacterRef | src/tinyxml2.cpp:438-531 | the read position and the bytes returned are those of the reference; the buffer is not written |
| StrPairs.DecodeTurn | src/tinyxml2.cpp:279-352 | one turn of the loop writes exactly the step's text, nothing outside the written range, and the write cursor does not pass the read cursor |
| StrPairs.DecodeInPlace | src/tinyxml2.cpp:266-364 | afterwards the range holds the decoded text and its NUL, and no byte outside the range has changed |
| StrPairs.GetStr | src/tinyxml2.cpp:266-364 | flushes once, changes nothing on later calls, keeps the string the pair denotes, and touches only its own range and terminator |
| XmlSpans.DocumentOrdered | src/tinyxml2.cpp:192-234 | the ranges of all names, values and texts of a parsed document, terminators included, are in order and pairwise disjoint |
| XmlSpans.NodesOrdered | src/tinyxml2.cpp:957-1055 | the same at every level of the tree, for every outcome of the sibling loop |
| XmlParsing.ParseAttributeList | src/tinyxml2.cpp:1766-1824 | reads what the specification reads, keeps earlier strings readable, and writes only between its start and the read cursor |
| XmlParsing.ReadAttribute | src/tinyxml2.cpp:1307-1332 | one attribute, its name flushed at once and refused when an earlier one has it |
| XmlParsing.StringEqual | include/xml/tinyxml2.h:548-553 | two flushed names compare equal exactly when their ranges of the original text do |
| XmlParsing.ReadHead | src/tinyxml2.cpp:1849-1874 | the opening part of an element on the buffer is the one on the text |
| XmlParsing.ReadText | src/tinyxml2.cpp:1094-1119 | a text node on the buffer is the one on the text |
| XmlParsing.ReadMarkup | src/tinyxml2.cpp:638-717 | comments, CDATA, declarations and unknowns likewise, with the placement rule for declarations |
| XmlParsing.ReadChildren | src/tinyxml2.cpp:1018-1052 | children, end tag and name comparison; both names are flushed and every string read before stays readable |
| XmlParsing.ReadItem | src/tinyxml2.cpp:638-717 | one item at the cursor; what was changed lies between the cursor before and after |
| XmlParsing.ReadNodes | src/tinyxml2.cpp:957-1055 | the sibling loop on the buffer gives the specification's outcome, with all strings still readable |
| XmlDocuments.ParseBuffer | src/tinyxml2.cpp:2289-2302 | the whole parse on the buffer is the parse of the text, although names are flushed on the way |
| XmlDocuments.XMLDocument.Parse | src/tinyxml2.cpp:2196-2224 | the error, or the tree and its strings, are those of the text up to its first NUL |
| XmlDocuments.XMLDocument.GetText | src/tinyxml2.cpp:266-364 | reading any string gives its eager decoding and leaves the meaning of every other string alone |
| XmlDocuments.XMLDocument.GetTexts | src/tinyxml2.cpp:266-364 | reading strings in any order, any number of times, gives the same strings as decoding everything eagerly |
| XmlDocuments.ReadKeeps | src/tinyxml2.cpp:266-364 | flushing one string keeps every string's meaning |
| Escaping.EscapeRoundTrip | src/tinyxml2.cpp:2360-2407 | in both modes decoding the escaped form returns the string if and only if it has no carriage return |
| Escaping.EscapeProtects | src/tinyxml2.cpp:2305-2327 | the escaped form has no angle bracket, and in full mode no quote |
| XmlPrinting.FillFlags | src/tinyxml2.cpp:2305-2327 | the two flag tables mark exactly the characters that are escaped in their mode |
| XmlPrinting.XMLPrinter.PrintString | src/tinyxml2.cpp:2360-2407 | what the run-by-run printing appends is the escaped string |
| XmlPrinting.XMLPrinter.OpenElement | src/tinyxml2.cpp:2422-2438 | pays an owed bracket, appends line break, indentation and tag as the mode and the state say, and owes the new tag's bracket |
| XmlPrinting.XMLPrinter.PushAttribute | src/tinyxml2.cpp:2441-2448 | appends the attribute to the open tag, escaped when entities are processed |
| XmlPrinting.XMLPrinter.VisitEnter | src/tinyxml2.cpp:2632-2645 | the open tag with all attributes in order, in both modes |
| XmlPrinting.XMLPrinter.PushText | src/tinyxml2.cpp:2526-2537 | pays an owed bracket and appends the text, as CDATA, escaped or as it is; line breaks are off until its element is closed |
| XmlPrinting.XMLPrinter.CloseElement | src/tinyxml2.cpp:2490-2514 | an element without content is closed in its tag, any other by an end tag, with the line breaks of the mode |
| XmlPrinting.XMLPrinter.Accept | src/tinyxml2.cpp:1917-1927 | driving the printer over a node appends what the layout of its mode says, and leaves the state it says |
| XmlLayout.CompactNode | src/tinyxml2.cpp:2422-2537 | with entities, the layout of the compact mode is the compact form, wherever the printer is |
| XmlLayout.DepthRestored | src/tinyxml2.cpp:2422-2514 | whatever nodes are printed, depth and modes are afterwards what they were |
| XmlLayout.BlanksBehindText | src/tinyxml2.cpp:2422-2438 | out of compact mode four blanks a level are put between a text and the element behind it |
| XmlSpacing.NodesPieces | src/tinyxml2.cpp:2422-2537 | in either mode printed siblings are the text in front of the first for the looks, which is blanks and line breaks, and the rest |
| XmlSpacing.CompactBack | src/tinyxml2.cpp:2422-2537 | in compact mode nothing is printed for the looks, so what comes back is what was printed |
| XmlSpacing.SameExactly | src/tinyxml2.cpp:2422-2537 | what comes back is the document in compact mode always, and out of it exactly for documents whose texts stand where no line break or indentation is printed |
| XmlPrinting.PrintWith | src/tinyxml2.cpp:2622-2630 | driving a fresh printer over a document, with or without byte order mark, gives what the layout of its mode says |
| XmlPrinting.PrintCompact | src/tinyxml2.cpp:2622-2630 | into a compact one, the document's compact form |
| XmlRoundTrip.AttributesBack | src/tinyxml2.cpp:1766-1824 | a printed attribute list is parsed back, in order, with its values |
| XmlRoundTrip.NodesBack | src/tinyxml2.cpp:957-1055 | compactly printed siblings are parsed back one by one, whatever follows them |
| XmlRoundTrip.ItemsBack | src/tinyxml2.cpp:957-1055 | siblings printed in either mode are parsed back one by one: blanks around a plain text join it, all others are skipped |
| XmlRoundTrip.OpenElementBack | src/tinyxml2.cpp:1849-1874 | a printed element is parsed back with its name, attributes and children, in either mode |
| XmlRoundTrip.DocumentRoundTrip | src/tinyxml2.cpp:2360-2537 | parsing what a printer of either mode writes gives the document back (names, attribute order and values, nesting, texts) if and only if it has a node, does not end with plain text, opens with nothing that is skipped and, out of compact mode, has no text next to printed blanks |
| XmlRoundTrip.FailsExactlyOnTextAtEnd | src/tinyxml2.cpp:1094-1119 | a document of which nothing is skipped is parsed without an error exactly when it does not end with plain text, and what comes back is the document with the blanks printed around its texts in them |
| XmlRoundTrip.SkippedIsLost | src/tinyxml2.cpp:2289-2302 | in either mode a document that opens with a text starting with white space or a byte order mark does not come back |
| XmlRoundTrip.NothingComesBack | src/tinyxml2.cpp:2289-2302 | a document without nodes is the error of an empty document, with or without its byte order mark |
| XmlRoundTrip.BlanksJoinTheText | src/tinyxml2.cpp:2422-2438 | a document that comes back from its compact print and not from the other one, and what comes back instead |
| XmlRoundTrip.TextAtEndFails | src/tinyxml2.cpp:1094-1119 | a text at the very end of the input is an error wherever the parser comes to it |
| XmlRoundTrip.DocumentIsCString | src/tinyxml2.cpp:2196-2224 | what is printed for such nodes, in either mode, holds no NUL, so it reaches the parser whole |
| XmlRoundTrip.PrintThenParse | src/tinyxml2.cpp:2196-2237 | printing into a buffer in either mode and parsing that buffer leaves a document object that reads as the original exactly for those documents, and otherwise without an error as the document with its blanks |
| MemPools.ThreadsIsDetermined | include/xml/tinyxml2.h:337-374 | the links determine the free list |
| MemPools.MemPoolT.Conservation | include/xml/tinyxml2.h:337-374 | free and live items together are all items of all blocks |
| MemPools.MemPoolT.AddBlock | include/xml/tinyxml2.h:338-349 | a new block becomes a free list of its items in order; live items keep their contents |
| MemPools.MemPoolT.Alloc | include/xml/tinyxml2.h:337-361 | the item handed out was not live, is the head of the free list or the first of a new block, and no live item is touched |
| MemPools.MemPoolT.Free | include/xml/tinyxml2.h:363-374 | the item becomes the head of the free list and the next to be handed out |
| MemPools.MemPoolT.Write | include/xml/tinyxml2.h:406-412 | a user's write over the place of the next pointer of a live item does not disturb the list |
| MemPools.MemPoolT.Clear | include/xml/tinyxml2.h:317-328 | afterwards nothing is live and all counts are zero |
| DomLinks.LinksDetermineChildren | include/xml/tinyxml2.h:886-899 | five pointers per node spell at most one child sequence per node |
| DomLinks.UnlinkKeeps | src/tinyxml2.cpp:785-804 | taking a child out leaves links that spell the remaining sequence, and every other node's |
| DomLinks.SpliceKeeps | src/tinyxml2.cpp:817-903 | putting a parentless node between two neighbours leaves links that spell the longer sequence |
| DomLinks.BehindIsSpliced | src/tinyxml2.cpp:897-902 | the assignments of InsertAfterChild are that splice, for a reference node other than the new one |
| DomLinks.StillFollowed | src/tinyxml2.cpp:785-804 | a child that another one follows is still followed once a node is taken out, unless that node followed it directly and was the last |
| DomLinks.BehindItselfBreaks | src/tinyxml2.cpp:897-902 | with the node itself as reference they spell no tree |
| DomLinks.AttachStaysRanked | src/tinyxml2.cpp:817-903 | a parent outside the node's subtree closes no cycle |
| DomLinks.RankedMeansOutside | src/tinyxml2.cpp:817-903 | any other parent closes one |
| DomLinks.OneMoreChild | src/tinyxml2.cpp:775-782 | the subtree deleted with the next child is what was below that child in the beginning |
| XmlDoms.XMLNode.Unlink | src/tinyxml2.cpp:785-804 | all links afterwards; the child keeps its stale siblings |
| XmlDoms.XMLNode.InsertChildPreamble | src/tinyxml2.cpp:1067-1076 | the node leaves its parent, or its pool stops counting it as untracked |
| XmlDoms.XMLNode.InsertEndChild | src/tinyxml2.cpp:817-844 | the node is removed from where it was and becomes the last child; the document stays a forest and its pools count right; a node of another document is refused |
| XmlDoms.XMLNode.InsertFirstChild | src/tinyxml2.cpp:847-875 | the same for the first place |
| XmlDoms.XMLNode.InsertAfterChild | src/tinyxml2.cpp:878-903 | the same behind a given child, with the refusals; when the two are one the links spell no tree; and exactly when the source would write through a null pointer |
| XmlDoms.XMLNode.DeleteChildren | src/tinyxml2.cpp:775-782 | exactly the nodes below this one are gone, everything else keeps its place, and the pools count right |
| XmlDoms.XMLNode.DeleteChild | src/tinyxml2.cpp:807-814 | exactly the child's subtree is gone |
| XmlDoms.XMLNode.Destroy | src/tinyxml2.cpp:748-754 | the destructor removes what is below the node and then the node from its parent |
| XmlDoms.XMLNode.DeleteNode | src/tinyxml2.cpp:1057-1065 | the node's subtree is gone and its memory is back in the pools; it terminates on the depth of the tree |
| XmlDoms.NewNode | src/tinyxml2.cpp:2007-2055 | a new node lives in an item that was not in use, and counts as untracked |
| XmlDoms.DeleteNode | src/tinyxml2.cpp:2072-2087 | for a node in the tree or outside it, the pools count right afterwards |
| XmlDoms.PoolCounts | include/xml/tinyxml2.h:333-387 | CurrentAllocs is the number of the pool's nodes and Untracked the number of those without a parent |
| XmlDomParsing.ParseDeep | src/tinyxml2.cpp:957-1055 | the loop with its nodes: the outcome of the parser on values; without an error the new children mirror the parsed nodes, each in the pool of its kind, every other node stays as it was and the pools count all of them; after an error they count some as untracked that are gone |
| XmlDomParsing.ParseOne | src/tinyxml2.cpp:638-717 | one turn: the node Identify makes is linked in last, or deleted with what is below it |
| XmlDomParsing.ParseElement | src/tinyxml2.cpp:1849-1874 | an element's children go below its node before that has a place |
| XmlDomParsing.LinkIn | src/tinyxml2.cpp:1052-1054 | the node of an item becomes the last child and mirrors what was parsed |
| XmlDomParsing.Discard | src/tinyxml2.cpp:988-995 | after an error exactly the node and what is below it are gone, and its pool goes on counting it as untracked |
| XmlDomParsing.DropEndTag | src/tinyxml2.cpp:1018-1026 | the node of an end tag leaves the tree and the counters as they were |
| XmlDomParsing.MirrorsKept | src/tinyxml2.cpp:957-1055 | what mirrors parsed nodes still does when only older nodes change |
| XmlDomParsing.WipeOut | src/tinyxml2.cpp:2213-2222 | after a failed parse only the root is left, with empty pools |
| XmlDomParsing.Parse | src/tinyxml2.cpp:2196-2224 | the old tree goes; the new one mirrors the parsed nodes; when every node was in the tree each pool's CurrentAllocs is the number of parsed nodes of its kinds and its Untracked is zero |
| XmlDomRuns.NewDocument | src/tinyxml2.cpp:1958-1968 | a new document is a root without children and pools without nodes |
| XmlDomRuns.IsAbove | src/tinyxml2.cpp:817-903 | following the parents tells exactly whether a node lies below another, which the insertions do not look at |
| XmlDomRuns.Run | src/tinyxml2.cpp:748-903 | every run of parses, insertions, moves, deletions and steps along the pointers from a new document on keeps it a forest whose pools count its nodes and its parentless nodes, and no node still held is gone |
| ChunkLists.InitChunk | src/SmallObj.cpp:9-27 | a new chunk's list enumerates all blocks |
| ChunkLists.AllocateUnlinks | src/SmallObj.cpp:29-37 | handing out the head leaves the rest of the list |
| ChunkLists.DeallocateLinks | src/SmallObj.cpp:39-49 | giving back a block puts it in front of the list |
| FixedPools.LiveBlocksDisjoint | src/SmallObj.cpp:29-49 | two live blocks never overlap and lie in owned memory |
| FixedPools.ChooseKeeps | src/SmallObj.cpp:112-158 | choosing the chunk to serve from keeps the pool's invariant |
| FixedPools.NewChunkKeeps | src/SmallObj.cpp:161-192 | so does adding a chunk, and no byte owned before is written |
| FixedPools.TakeKeeps | src/SmallObj.cpp:112-158 | the block taken was not live, becomes live, and nothing else changes |
| FixedPools.SettleReleases | src/SmallObj.cpp:262-292 | the swap-and-pop release keeps the invariant and every live block: one chunk at most is wholly free and it is the designated one |
| FixedPools.DeallocateKeeps | src/SmallObj.cpp:194-292 | giving back a live block removes just it from the live blocks |
| FixedPools.DeallocateSpares | src/SmallObj.cpp:194-292 | the bytes of every other live block stay, even when a chunk is released |
| FixedPools.DeallocatedIsDetermined | src/SmallObj.cpp:194-292 | the effect of giving back is determined by the state before |
| FixedPools.StoreKeeps | src/SmallObj.cpp:9-49 | a user's write into a live block disturbs no free list |
| FixedPools.Conservation | src/SmallObj.cpp:112-192 | available plus live blocks are the number of chunks times the blocks per chunk |
| FixedPools.FewChunks | src/SmallObj.cpp:262-292 | there is at most one chunk more than there are live blocks |
| FixedAllocators.FixedAllocator.constructor | src/SmallObj.cpp:93-110 | the number of blocks per chunk is the page's, clamped to 8 and 255 |
| FixedAllocators.FixedAllocator.Allocate | src/SmallObj.cpp:112-158 | a block that was not live becomes live and no byte anybody owned is written |
| FixedAllocators.FixedAllocator.VicinityFind | src/SmallObj.cpp:211-260 | the outward search ends, finds the owning chunk when there is one, and none otherwise |
| FixedAllocators.FixedAllocator.HasBlock | src/SmallObj.cpp:294-304 | the first chunk that contains the address |
| FixedAllocators.FixedAllocator.DoDeallocate | src/SmallObj.cpp:262-292 | the code's effect is the specified one |
| FixedAllocators.FixedAllocator.ReleaseChunk | src/SmallObj.cpp:277-287 | swapping, popping and redirecting the cursors is the specified release |
| FixedAllocators.FixedAllocator.Deallocate | src/SmallObj.cpp:194-209 | found exactly for addresses in the chunks; the invariant holds and just that block stops being live |
| FixedAllocators.Serve | src/SmallObj.cpp:112-292 | over every run of allocations, deallocations and stores no held block is handed out again and every stored byte stays |
| SmallObjSpec.GivenBackIsDetermined | src/SmallObj.cpp:340-386 | two ways of giving back that meet the specification have the same effect |
| SmallObjSpec.GivenBackKeeps | src/SmallObj.cpp:340-386 | giving back keeps every other object, small or large |
| SmallObjSpec.GivenBackSpares | src/SmallObj.cpp:340-386 | it changes no byte of any other object, small or large |
| SmallObjSpec.ObjectsApart | src/SmallObj.cpp:322-338 | no byte belongs to two objects |
| SmallObjSpec.WriteKeeps | src/SmallObj.cpp:9-49 | a user's write into an object leaves everything sound and live |
| SmallObjRuns.Serve | src/SmallObj.cpp:322-386 | over every run of requests of all sizes, given back with or without the size, no object handed out shares a byte with one held, and every byte stored in a held object stays |
| SmallObjRuns.HeldApart | src/SmallObj.cpp:322-386 | at every moment of a run no byte belongs to two of the objects held |
| SmallObjAllocators.SmallObjAllocator.Allocate | src/SmallObj.cpp:322-338 | the place was live for no size and now is for the sizes of its class; all owned bytes stay |
| SmallObjAllocators.SmallObjAllocator.Deallocate | src/SmallObj.cpp:340-356 | gives back exactly the object, small or large; a null pointer does nothing |
| SmallObjAllocators.SmallObjAllocator.DeallocateUnsized | src/SmallObj.cpp:358-386 | without the size it has the effect of the sized form with the size the object was obtained for |
| SmallObjAllocators.SmallObjAllocator.FindOwner | src/SmallObj.cpp:366-374 | the scan stops at the pool the object came from, or at none for a large one |
| RwQueues.Linearises | include/utility/rwqueue.h:52-71 | in every execution of many writers and one reader the queue is FIFO: a push takes effect when the tail moves, a pop when the node is unlinked |
| RwQueues.FrontIsWritten | include/utility/rwqueue.h:42-71 | front and pop see an allocated node whose value is written and is the oldest |
| RwQueues.SnapshotCovers | src/processor.cpp:139-148 | a reader that snapshots the size and pops that many never finds the queue empty |
| RwQueues.NoDanglingNode | include/utility/rwqueue.h:52-71 | no statement touches a node that is not allocated |
| RwQueues.SizeAtRest | include/utility/rwqueue.h:37-71 | with nobody inside push or pop the counter is the number of elements |
| SendTasks.TrueMeansRanOnce | src/processor.cpp:46-94 | in every interleaving, spurious wakeups included, true is returned only when the task ran exactly once before |
| SendTasks.FalseMeansNeverRuns | src/processor.cpp:46-94 | after false the task has not run and never will |
| SendTasks.DeletedAtMostOnce | src/processor.cpp:82-134 | a record is deleted at most once and its task runs at most once |
| SendTasks.NoUseAfterDelete | src/processor.cpp:67-134 | every statement but the processor's notify_one finds its record; that one finds it if and only if the sender has not returned true |
| SendTasks.NotifyAfterDelete | src/processor.cpp:127-128 | an execution, without any wakeup, in which the notify_one is about to touch a deleted record |
| SendTasks.NothingLeaks | src/processor.cpp:82-134 | when both sides are done with an enqueued call its record has been deleted |
| ProcessorRuns.Fifo | src/processor.cpp:139-148 | every queue runs its tasks in the order of the pushes |
| ProcessorRuns.AtMostOnce | src/processor.cpp:26-44 | a posted task runs at most once, and only from the queue of its priority |
| ProcessorRuns.RefusedNeverRuns | src/processor.cpp:28-29 | a task whose PostTask returned false never runs |
| ProcessorRuns.PromisesKept | src/processor.cpp:96-162 | a NORMAL task pushed while no Stop call has pushed InternalStop has run exactly once when the processor is stopped |
| ProcessorRuns.NotStoppedNotPushed | src/processor.cpp:150-162 | InternalStop is not pushed before Stop is called, so this holds of every task accepted until then |
| ProcessorRuns.LowComesLast | src/processor.cpp:175-196 | a LOW batch starts only after HIGHT and then NORMAL were observed empty in that pass |
| ProcessorRuns.LateTrueMayNeverRun | src/processor.cpp:26-44 | an execution in which PostTask tests the state before InternalStop runs, pushes after it, returns true, and the task is never run |
| ProcessorPromises.SureExactly | src/processor.cpp:26-44 | for every execution and every push in it, of each priority: all continuations in which the processor is stopped have run the task if and only if the push is sure |
| ProcessorPromises.SureIsKept | src/processor.cpp:96-162 | a task pushed when that is sure has run in every later state in which the processor is stopped |
| ProcessorPromises.UnsureMayBeLost | src/processor.cpp:175-196 | wherever a push is not sure the execution goes on with it to a state in which PostTask has returned true, the processor has left its loop and the task has not run |
| Md5Spec.PaddingIsInjective | src/md5.cpp:66-72 | no two messages pad to the same blocks |
| Md5Spec.ChainAppend | src/md5.cpp:110-119 | the chaining value of a concatenation is that of its parts in turn |
| Bytes.ValueOfLittleEndian | src/md5.cpp:228-253 | decoding undoes encoding |
| Md5Rounds.FourSteps | src/md5.cpp:136-210 | four macro calls with the registers named in turn are four steps of RFC 1321 section 3.4 |
| Md5Rounds.Round1 | src/md5.cpp:140-156 | the sixteen calls, with their shifts and constants, are steps 1 to 16 |
| Md5Rounds.Round2 | src/md5.cpp:158-174 | steps 17 to 32 |
| Md5Rounds.Round3 | src/md5.cpp:176-192 | steps 33 to 48 |
| Md5Rounds.Round4 | src/md5.cpp:194-210 | steps 49 to 64 |
| Md5s.CarryIsRight | src/md5.cpp:102-106 | the compare-and-carry rule keeps two 32-bit words equal to the 64-bit number of bits |
| Md5s.KeepsMessage | src/md5.cpp:66-78 | exactly when a call of getDigest leaves the object with the message it had |
| Md5s.SpillExample | src/md5.cpp:66-78 | messages for which it does not |
| Md5s.SecondDigestIsStable | src/md5.cpp:50-82 | from the second call on nothing more is lost |
| Md5s.HexIsInjective | src/md5.cpp:262-274 | different digests have different strings |
| Md5s.MD5.Encode | src/md5.cpp:228-236 | each word is stored as its four bytes, low-order first, and the output behind the given length stays |
| Md5s.MD5.Decode | src/md5.cpp:248-253 | each word read is the value of its four bytes |
| Md5s.MD5.Transform | src/md5.cpp:134-216 | one block is compressed as RFC 1321 section 3.4 says |
| Md5s.MD5.AddToCount | src/md5.cpp:102-106 | the counter goes up by the bits absorbed |
| Md5s.MD5.WholeBlocks | src/md5.cpp:111-119 | the registers are the chaining value of everything absorbed up to the last whole block |
| Md5s.MD5.Init | src/md5.cpp:93-127 | absorbing keeps registers, counter and buffer those of the longer message |
| Md5s.MD5.constructor | src/md5.cpp:30-42 | a constructed object has absorbed its message, for every message below 2^32 bytes |
| Md5s.MD5.GetDigest | src/md5.cpp:50-82 | the digest is RFC 1321's of everything absorbed, and what the object has absorbed afterwards |
| Md5s.MD5.ToStr | src/md5.cpp:262-274 | the hexadecimal form of that digest |
| ModuleManagers.SortedIsUnique | include/frame/dynamic_create.h:190-198 | the comparison orders strictly: a sorted vector is determined by its elements |
| ModuleManagers.SlotIsFirst | include/frame/dynamic_create.h:301-318 | a slot holds the first class of the chain with that number whose object could be made; later ones are refused |
| ModuleManagers.RegisteredExactly | include/frame/dynamic_create.h:329-355 | the vector of an event holds exactly the installed modules with a handler, each once |
| ModuleManagers.IndexInjective | include/frame/dynamic_create.h:169-170 | on the open event range the modulo index mixes no two events |
| ModuleManagers.NaiveExactly | include/frame/dynamic_create.h:250-260 | scanning all priorities and all modules lists exactly those modules, in order of priority and number |
| ModuleManagers.TableIsNaive | include/frame/dynamic_create.h:320-325 | the sorted vector is that list, and no longer than the number of slots |
| ModuleManagers.CDataManager.constructor | include/frame/dynamic_create.h:292-326 | slots and sorted table agree with the chain of classes |
| ModuleManagers.CDataManager.DoRegisterModule | include/frame/dynamic_create.h:329-355 | a module enters exactly the vectors of its events |
| ModuleManagers.CDataManager.AllModuleExcEvent | include/frame/dynamic_create.h:381-396 | calls exactly what the naive dispatch would, in its order; no call meets a missing module or handler, and the byte counter does not wrap |
| ModuleManagers.CDataManager.DispatchMessage | include/frame/dynamic_create.h:371-379 | the error codes, and that numbers past the last slot wrap around to one |
| TupleSerials.TupleSizeIsRight | include/utility/tuple_base.h:490-510 | tuple_size is the number of bytes written |
| TupleSerials.FieldBack | include/utility/tuple_base.h:82-130 | a field is read back from its bytes whatever follows: fixed-size values exactly, strings followed by the stored NUL |
| TupleSerials.TupleBack | include/utility/tuple_base.h:522-569 | reading consumes exactly what writing wrote and restores every field |
| TupleSerials.ExactWithoutStrings | include/utility/tuple_base.h:87-123 | the round trip is exact just when there is no string |
| TupleSerials.SerializeTexts | include/utility/tuple_base.h:209-232 | an array of strings is written one behind another and nothing else changes |
| TupleSerials.Serialize | include/utility/tuple_base.h:69-106 | a holder writes its bytes, as many as its size says |
| TupleSerials.TupleSerialize | include/utility/tuple_base.h:522-544 | writes exactly tuple_size bytes and nothing else |
| TupleSerials.UnserializeTexts | include/utility/tuple_base.h:261-279 | reads as many strings as the array has |
| TupleSerials.TupleUnserialize | include/utility/tuple_base.h:547-569 | what the code reads is what the specification reads |
| TupleSerials.ThereAndBack | include/utility/tuple_base.h:539-569 | writing into any buffer and reading it back there |

## Left out

- XmlParsing.ReadNodes: works on the buffer and builds the tree as a value; `XmlDomParsing.ParseDeep` is the same loop with its nodes, driven by the text, and both have the outcome of `ParseNodes`. Line numbers and the texts of error messages are not modelled.
- XmlDomParsing.ParseElement: attributes are read as values; the pool they live in is not modelled.
- XmlDocuments.XMLDocument.Parse: entities are processed and white space is preserved, the library's defaults; COLLAPSE_WHITESPACE and the option to leave entities alone are not modelled.
- StrPairs.GetStr: takes the pair as a value and returns the flushed one; SetStr, SetInternedStr and TransferTo, which own or move memory, are not modelled.
- XmlPrinting.XMLPrinter.Accept: output to a FILE is not modelled.
- XmlRoundTrip.DocumentRoundTrip: about nodes each of which can be read back where it stands: valid names, no two attributes of one name, no NUL or carriage return, ink in every plain text, no two plain texts in a row, no end of a delimited text inside it, declarations first.
- XmlDoms.XMLNode.InsertAfterChild: where the source writes through a null pointer the model stops and says so.
- XmlDoms.XMLNode.DeleteNode: attributes, their pool and the strings a node owns are not modelled; the pool's memset of freed items in debug builds is not either.
- MemPools.MemPoolT.Alloc: the counters are unbounded, where the source's are ints.
- SmallObjAllocators.SmallObjAllocator.Allocate: a request for no bytes needs at least one pool, because the source would index an empty array. Running out of memory is not modelled.
- FixedAllocators.FixedAllocator.Allocate: chunk cursors are indices into the vector, so the re-addressing when the vector grows is not modelled; the source reassigns the cursors right after that.
- SendTasks.TrueMeansRanOnce: weak memory and whether a waiting thread is ever woken are not modelled.
- ProcessorRuns.PromisesKept: tasks do not themselves call RunAll, the processor is started once, and that the run comes to an end is not claimed.
- Md5s.MD5.constructor: for 2^32 bytes and more the 32-bit loop counter of init wraps and the loop does not end; such messages are excluded. Shifts and masks of words are written as division and remainder.
- ModuleManagers.CDataManager.constructor: std::sort is replaced by a sort with the same contract; a module that declares a run-time class declares the record it was made from, as the macros arrange. What handlers do is not modelled.
- ModuleManagers.CDataManager.DispatchMessage: message number 255 would read behind the message map and is excluded.
- TupleSerials.Unserialize: a string length read from the buffer is not checked by the source, so the bytes have to be there; nested types with serialize functions of their own are not modelled.
- DynArray is a sequence or a count; its growth strategy is not modelled.
- Sockets, HTTP, MySQL, logging and the rest that is input and output or foreign libraries.
- Smart pointers, binding, functors, type lists and the other template machinery.
- The module manager's own serialize and unserialize, timers and base64.
- Deep cloning, comparison and querying of XML nodes, number conversions, and reading and writing XML files.
