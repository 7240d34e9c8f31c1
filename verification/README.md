# A verified model of parts of the TypeScript repository

This project models the places of the repository where a fast or stateful form has to agree with a simple
meaning, and proves that it does, or exactly when.

* **Diagnostics** (`Ordering`, `DiagnosticOrder`, `DiagnosticKeys`, `StableSort`, `DiagnosticsCollections`): the
  recursive comparator is a total preorder and compares one list of keys, and the deduplicating, lazily sorted
  collection behaves like a plain list.
* **Position map** (`PositionMaps`, `JSStrings`): the table of multi-byte characters and its two binary searches
  against prefix counting, over the rune decoder the loop uses, which reads exactly what the encoder writes.
* **Flat AST** (`FlatAst`, `FlatEncoder`, `ChildMask`, `FlatReader`, `FlatRebuild`, `FlatDecoder`, `BitLayout`):
  the Go writer produces preorder rows; when the TypeScript reader and the Go decoder find in them what was
  written; packed members come back.
* **Deep clone** (`DeepClone`): on the heap, freshness cascades upward through "update only if changed".
* **Reachability** (`Shadow`): a depth-first search with blocked blocks over arbitrary graphs.
* **MessagePack tuples** (`Msgpack`): reader and writer undo each other over a byte stream.
* **Editor session** (`PromiseQueues`, `Sessions`, `OneServer`, `Contributions`, `SessionManagers`,
  `RestartLimiter`, `StderrSanitizer`): promise chains as queues, the session manager as a state machine with one
  step per stretch between two awaits, what every run of it keeps, and the restart limiter with what it reports.
* **Source generation and settings** (`Text`, `Directives`, `Edits`, `SeparateEdits`, `ConfigMerge`).

Code that works on fields and buffers is a class or a method with loops, proved against a function of its
inputs; the properties are then proved about that function for all inputs or all runs.

## What the proofs found

* The full signature a JSDoc comment gives to a function has a row but no mask bit. The reader and the decoder
  take it for the body behind it (`ChildMask.HiddenMemberIsAnswered`, `FlatRebuild.SignatureForBody`);
  `FlatReader.GetChildAtOrder` says exactly when a lookup is right.
* A documented node whose only declared child is missing is decoded with its comment in the child's place,
  as in a documented `return;` (`FlatRebuild.DocumentedEmptyReturn`), and links in comments lose their names
  (`FlatRebuild.LinkLosesItsName`). `FlatRebuild.RebuiltIsPlain` says when decoding is faithful.
* `allocNodeSlice` returns a slice of length 0, to which the decoder of a raw list assigns by index: decoding
  panics on every JSDoc type literal or syntax list that has a child (`FlatDecoder.DecodeNodes`).
* `tryRestart` runs outside the lifecycle queue. If it overlaps an operation, two servers can be left running,
  and so they can after a rejected dispose of a live client (`OneServer.OneEventLeadsToTwo`). Nothing else does
  it: rejected stops are harmless, and `OneServer.OneServerAtATime` does not ask for them to succeed.
* A changed setting reaches the server only through a restart. If that restart is given up because disposing the
  old session's own resources is rejected, the server keeps what it was told until a request is sent for another
  reason (`Contributions.ServerIsTold`, `Contributions.GivenUpRestartLosesChange`).
* After the restart limiter has refused once, its rule is weaker than its message: one more close is needed
  for every earlier refusal (`RestartLimiter.RefusedIff`).
* Skip blocks do not nest (`Directives.SkipIsTheLastMarker`), and the header comment of the generator lists
  only the sync directives although the code has generators directives as well; the model follows the code.
* The common-data field has six bits; members that need more lose values (`BitLayout.FitsIffLossless`).
* An explicit `trace` that is a string makes the legacy assignment throw, and an object-valued `autoClosingTags`
  without `enabled` is stored in itself: two sections with one make `deepMerge` recurse without end
  (`ConfigMerge.GetMergedConfiguration`).
* Of two edits at one place the later given is applied to what the earlier put there, so a replacement eats an
  insertion given before it (`Edits.InsertionIsReplaced`, `SeparateEdits.SeparateIsNeeded`).

## Assumptions

* `DiagnosticsCollections.FilesNamed`: files with equal names have equal paths, and only a diagnostic without
  a file has the empty file name. Only the lemmas that speak of the whole log need it. Diagnostics do not change
  once added, and each method runs alone, as the mutex has it.
* A diagnostic carries its identity as a value (`ref`), so that equal values are the same pointer.
* `Sessions`: the language client's own start, stop, restart and dispose are promises that resolve or reject
  in any order; a server is live from the moment its start is requested until a stop or dispose of it
  resolves. A request answered by an earlier server process says nothing about the present one.
  The library may restart a client that was stopped or disposed while its restart was pending.
* `Contributions.Quiet`: the manager still listens, that is, it was not disposed.
* `FlatRebuild.Conforms`: every node has the members its kind declares, of the kind's sorts; of the kinds with
  extended data only source files have child members. `FlatAst.WellFormed`: lists hold nodes, a node has at most
  eight members with a bit, and those without one are nodes. `FlatRebuild.Apart`, only for the necessity of the
  condition on decoding: no child without a bit agrees in kind, start and end with a property of the same node.
* `Msgpack`, `PositionMaps`: bytes are numbers below 256; lengths are unbounded, and the truncation of
  lengths to 32 bits is written out.

## Model

| member | source | states |
|---|---|---|
| `DiagnosticOrder.CompareIsTotalPreorder` | tsc/internal/ast/diagnostic.go:482-527 | For any three diagnostic trees: comparing with itself gives 0, swapping flips the sign, weak and strict steps chain, and diagnostics comparing 0 compare alike with every third |
| `DiagnosticOrder.CompareAntisymmetric` | tsc/internal/ast/diagnostic.go:468-527 | Swapping the arguments negates the result exactly, through message chains and related information |
| `DiagnosticOrder.CompareCoherent` | tsc/internal/ast/diagnostic.go:438-527 | The three pairwise comparisons of any three trees never contradict one another, the form of transitivity that survives lexicographic composition and recursion |
| `DiagnosticOrder.ChainSizeZeroIsSameShape` | tsc/internal/ast/diagnostic.go:438-466 | compareMessageChainSize returns 0 exactly on chains of equal tree shape, which is what keeps the unchecked c2[i] of compareMessageChainContent in bounds |
| `DiagnosticOrder.EqualImpliesCompareZero` | tsc/internal/ast/diagnostic.go:397-436 | Diagnostics that EqualDiagnostics identifies compare 0 in every part, so deduplication never merges what the order tells apart |
| `DiagnosticOrder.CompareWithoutShortcut` | tsc/internal/ast/diagnostic.go:483-485 | The pointer test at the top changes no answer |
| `DiagnosticKeys.CompareIsByKeys` | tsc/internal/ast/diagnostic.go:438-527 | CompareDiagnostics orders two trees by the first difference in one list of keys read off each: file name, position, end, code, category, source, message, arguments, chain lengths in preorder, chain arguments in preorder, number of related diagnostics and the keys of each; 0 exactly for equal lists |
| `DiagnosticKeys.PlaceDecides` | tsc/internal/ast/diagnostic.go:486-504 | Whatever else differs, the smaller file name comes first, in one file the smaller position, then the smaller end, then the smaller code |
| `DiagnosticKeys.MessageDecides` | tsc/internal/ast/diagnostic.go:502-517 | At one place with one code: category, source, message identity and arguments, each in its turn |
| `DiagnosticKeys.ChainDecides` | tsc/internal/ast/diagnostic.go:518-525 | With the same keys of their own the diagnostic with the longer message chain comes first, then the one whose chain is longer at the first difference in preorder, then the first arguments that differ decide |
| `DiagnosticKeys.RelatedDecides` | tsc/internal/ast/diagnostic.go:468-480 | Last the diagnostic with more related information comes first, or the first related diagnostics that are not tied decide |
| `DiagnosticKeys.EqualIffSeen` | tsc/internal/ast/diagnostic.go:397-436 | EqualDiagnostics holds exactly when the two trees look the same without addresses: file name, range, code, category, source, message, arguments, the chains by code and arguments recursively, the related information recursively |
| `DiagnosticKeys.CopyIsEqual` | tsc/internal/ast/diagnostic.go:397-436 | Two diagnostics that differ in addresses only, at any depth, are equal and have the same file, range and code |
| `DiagnosticKeys.MessageTellsApart` | tsc/internal/ast/diagnostic.go:419-427 | Equal diagnostics have the same text, or without a text the same message if their code is -1 and they have one, else the same key |
| `Ordering.CompareStringsCoherent` | tsc/internal/ast/diagnostic.go:486-517 | strings.Compare is a lexicographic total order on which the comparator can rest |
| `Ordering.CompareStringsIsTextLess` | tsc/internal/ast/diagnostic.go:486-510 | Negative exactly if the first string ends or has the smaller character at the first difference, positive exactly the other way round |
| `Ordering.CompareArgsIsWordsLess` | tsc/internal/ast/diagnostic.go:514 | The same of slices.Compare over lists of strings |
| `StableSort.SortIsSortedPermutation` | tsc/internal/ast/diagnostic.go:355 | Under a total preorder the stable sort is a sorted permutation |
| `StableSort.SortKeepsTies` | tsc/internal/ast/diagnostic.go:355 | Elements that compare 0 keep their order |
| `StableSort.StableSortIsUnique` | tsc/internal/ast/diagnostic.go:353-375 | Any sorted list with the same ties in the same order is the one result, so the specification leaves a stable sort no freedom |
| `StableSort.SortingEarlyIsInvisible` | tsc/internal/ast/diagnostic.go:353-375 | Sorting a prefix early, as a getter between two additions does, changes no later sorted list |
| `StableSort.SortStableFunc` | tsc/internal/ast/diagnostic.go:371 | An insertion loop meets the specification of slices.SortStableFunc |
| `StableSort.SortFunc` | tsc/internal/ast/diagnostic.go:386 | slices.SortFunc: a sorted permutation |
| `StableSort.BinarySearchFunc` | tsc/internal/ast/diagnostic.go:340-343 | slices.BinarySearchFunc: the first position not below the target, and whether the element there ties with it |
| `DiagnosticsCollections.Interleave` | tsc/internal/ast/diagnostic.go:269-388 | For every sequence of additions, lookups and getters on a new collection every answer is determined by what was added before it, the list of everything up to the order of ties: the sorted flags and the hash index are never observable |
| `DiagnosticsCollections.DiagnosticsCollection.Add` | tsc/internal/ast/diagnostic.go:269-310 | Appends to the log unless an equal diagnostic with the same key is in it; returns the earliest such one, else the argument. A copy of a stored diagnostic at other addresses is answered with the stored one and changes nothing |
| `DiagnosticsCollections.DuplicateIffSeen` | tsc/internal/ast/diagnostic.go:273-283 | A diagnostic is refused exactly if one of its path is stored that looks the same without addresses, and that one is returned |
| `DiagnosticsCollections.CopyIsNotStored` | tsc/internal/ast/diagnostic.go:269-283 | Whatever was added before, adding a copy of a stored diagnostic finds that very diagnostic and leaves the log alone |
| `DiagnosticsCollections.DiagnosticsCollection.FindDuplicate` | tsc/internal/ast/diagnostic.go:273-283 | The index entry and then the collisions give the first equal diagnostic among all stored with the key |
| `DiagnosticsCollections.DiagnosticsCollection.GetDiagnosticsForFile` | tsc/internal/ast/diagnostic.go:361-375 | Exactly the stable sort of the deduplicated additions for the path: ascending by file name, position, end and code, and by all keys |
| `DiagnosticsCollections.DiagnosticsCollection.GetGlobalDiagnostics` | tsc/internal/ast/diagnostic.go:346-359 | The same for the diagnostics without a file |
| `DiagnosticsCollections.DiagnosticsCollection.Lookup` | tsc/internal/ast/diagnostic.go:330-344 | The earliest-added stored diagnostic of the same file that compares 0, or nothing |
| `DiagnosticsCollections.DiagnosticsCollection.GetDiagnostics` | tsc/internal/ast/diagnostic.go:377-388 | A permutation of everything stored, count of them, ascending by file name, position, end and code, and by all keys |
| `DiagnosticsCollections.ListsAreInOrder` | tsc/internal/ast/diagnostic.go:346-388 | Every list with which a call may be answered ascends by file name, position, end and code, and by all keys |
| `DiagnosticsCollections.DuplicateIsFirstEqual` | tsc/internal/ast/diagnostic.go:269-328 | Under FilesNamed the keyed index finds what a linear scan of everything stored finds, and adding is "append unless an equal one is present" |
| `DiagnosticsCollections.EarliestOfAll` | tsc/internal/ast/diagnostic.go:330-344 | Under FilesNamed Lookup answers with the earliest of all stored diagnostics comparing 0, and with nothing only if there is none |
| `DiagnosticsCollections.RecordKeepsNoDuplicates` | tsc/internal/ast/diagnostic.go:269-310 | Every addition keeps the stored diagnostics pairwise unequal within a key |
| `DiagnosticsCollections.NoDuplicatesAnywhere` | tsc/internal/ast/diagnostic.go:269-310 | Under FilesNamed no two stored diagnostics are equal, wherever they are stored |
| `PositionMaps.AtBoundary` | tsc/internal/ast/positionmap.go:69-111 | At every character boundary of any text, its end included, UTF8ToUTF16 gives the UTF-16 length of the prefix and UTF16ToUTF8 its byte length, by the characters the decoder finds, which JSStrings.DecodesExactly settles |
| `PositionMaps.RoundTrip` | tsc/internal/ast/positionmap.go:69-111 | UTF8ToUTF16 after UTF16ToUTF8 is the identity on every offset, inside surrogate pairs too |
| `PositionMaps.RoundTripFromByte` | tsc/internal/ast/positionmap.go:69-111 | The opposite composition returns a byte offset exactly when it lies fewer bytes into its character than that has code units, hence at every boundary |
| `PositionMaps.ToUtf8StrictlyIncreasing` | tsc/internal/ast/positionmap.go:91-111 | UTF16ToUTF8 is strictly increasing on all offsets |
| `PositionMaps.EntriesIncreasing` | tsc/internal/ast/positionmap.go:40-60 | The table is strictly increasing in bytes and in code units, which both binary searches need |
| `PositionMaps.AcrossCharacter` | tsc/internal/ast/positionmap.go:69-111 | Both conversions, stated character by character for every offset |
| `PositionMaps.PositionMap.Compute` | tsc/internal/ast/positionmap.go:40-60 | The loop builds the entry table of the text |
| `PositionMaps.PositionMap.UTF8ToUTF16` | tsc/internal/ast/positionmap.go:69-88 | The binary search finds the last entry not past the byte offset |
| `PositionMaps.PositionMap.UTF16ToUTF8` | tsc/internal/ast/positionmap.go:91-111 | The binary search finds the last entry not past the UTF-16 offset |
| `PositionMaps.DecodedSize` | tsc/internal/stringutil/util.go:334-342 | A rune takes 1 to 4 bytes within the text, and four exactly when it needs a surrogate pair |
| `PositionMaps.DecodingIgnoresWhatFollows` | tsc/internal/stringutil/util.go:334-342 | A rune decodes the same whatever follows it, so prefixes decode like the text |
| `JSStrings.DecodeEncoded` | tsc/internal/stringutil/util.go:323-342 | For every value up to 0x10FFFF, lone surrogates included, decoding its bytes with anything behind them gives the value and their number |
| `JSStrings.DecodesExactly` | tsc/internal/stringutil/util.go:334-342 | A text decodes to a value and the number of its bytes exactly if it begins with the bytes section 3 of RFC 3629 gives the value |
| `JSStrings.ErrorExactly` | tsc/internal/stringutil/util.go:334-342 | A text decodes to an error of size 1 exactly if no encoding is a prefix of it |
| `JSStrings.SurrogateBytes` | tsc/internal/stringutil/util.go:323-332 | Every value is written as the table has it, a lone surrogate without exception, and what is no value as the replacement character |
| `JSStrings.Utf16LengthOfEncoded` | tsc/internal/ast/positionmap.go:40-60 | The UTF-16 length of a written sequence of values is the sum of 1 or 2 for each |
| `JSStrings.EncodedOffsets` | tsc/internal/ast/positionmap.go:40-111 | In front of every value the map leads from the bytes written before it to their UTF-16 length, and back |
| `FlatEncoder.EncodeTree` | tsc/internal/api/encoder/encoder.go:433-577 | The writer, patching the next link of the previous sibling as it goes, produces exactly the preorder rows of the tree behind the nil row: members without a mask bit have rows, and raw lists are written node by node |
| `FlatEncoder.Encoder.Append` | tsc/internal/api/encoder/encoder.go:495-506 | One row is added and the previous sibling, if any, is linked to it; nothing else changes |
| `FlatEncoder.Encoder.Visit` | tsc/internal/api/encoder/encoder.go:527-561 | The rows of one more sibling with everything below it are written, and the parent is restored |
| `FlatEncoder.Encoder.VisitChildren` | tsc/internal/api/encoder/encoder.go:549-559 | All visited members, full signatures among them, and then the JSDoc children are written under their parent |
| `FlatEncoder.Encoder.VisitMembers` | tools/scripts/tsc/generate-go-ast.ts:608-671 | The members are written in visitor order, a raw list without a row of its own, an empty modifier list not at all |
| `FlatEncoder.FlatSnoc` | tsc/internal/api/encoder/encoder.go:495-561 | Writing siblings one at a time with a back-patched link gives the same rows as the recursive definition |
| `FlatAst.Locate` | tsc/internal/api/encoder/encoder.go:433-577 | Every row is that of its item, and the rows of its children follow it |
| `FlatAst.ListRow` | tsc/internal/api/encoder/encoder.go:506 | The row of a list has its range, the number of its nodes, and flag 1 exactly if it ends behind its last node |
| `FlatAst.SiblingLinks` | tsc/internal/api/encoder/encoder.go:495-506 | The parent and next links of the k-th sibling |
| `FlatAst.ChildLinks` | tools/scripts/tsc/generate-encoder.ts:1601-1606 | Following the next links from the row behind a row visits its children in order and ends at 0 |
| `FlatAst.NextRowParent` | tools/scripts/tsc/generate-encoder.ts:1843-1849 | The row behind a row names it as parent exactly when it has children |
| `FlatAst.HasChildrenIsCorrect` | tools/scripts/tsc/generate-encoder.ts:1843-1849 | The emitted hasChildren, its end-of-buffer test included, is true exactly for rows with children |
| `ChildMask.MissingBelowIsCount` | tools/scripts/tsc/generate-encoder.ts:1873-1901 | The masked popcount is the number of missing properties below the order |
| `ChildMask.RankByMask` | tools/scripts/tsc/generate-encoder.ts:1901 | The order less that count is the number of properties written before it |
| `ChildMask.PropertyIsChild` | tools/scripts/tsc/generate-encoder.ts:1873-1907 | The rows of a property are the children from its offset on, for every property of any member list |
| `ChildMask.RankIsOffset` | tools/scripts/tsc/generate-encoder.ts:1873-1907 | The rank by the mask is that offset exactly when nothing without a bit is written in front, no member such as a full signature and no second node of a raw list; otherwise it is less |
| `ChildMask.FirstMisplaced` | tools/scripts/tsc/generate-encoder.ts:66-68 | The first property for which it is less is looked up at a child that has no bit |
| `ChildMask.HiddenMemberIsAnswered` | tsc/internal/ast/ast_generated.go:2021-2032 | A function with a full signature: at the rank of its body stands the signature |
| `FlatReader.GetChildAtOrder` | tools/scripts/tsc/generate-encoder.ts:1865-1908 | Follows as many links as the mask ranks the property, for every node and order; that is the row of the property (the first of its rows if it is a raw list), or nothing if it was not written, exactly when the property is well placed |
| `FlatReader.AnswerIsProperty` | tools/scripts/tsc/generate-encoder.ts:1865-1908 | The row of a well-placed property holds exactly the subtree stored for it |
| `FlatReader.ForEachNode` | tools/scripts/tsc/generate-encoder.ts:1598-1607 | A list is visited in order up to the first answer |
| `FlatReader.ForEachChild` | tools/scripts/tsc/generate-encoder.ts:1684-1713 | With a list visitor or without: terminates, visiting the children in order up to the first answer |
| `FlatReader.ChildrenIter` | tools/scripts/tsc/generate-encoder.ts:1715-1743 | Yields the same sequence as forEachChild visits without a list visitor |
| `FlatReader.VisitedAreTheMembers` | tools/scripts/tsc/generate-encoder.ts:1684-1743 | That sequence is everything written for the members in visitor order, those without a property name as well, lists spread out unless they have a visitor, JSDoc left out |
| `FlatReader.RemoteNodeList.At` | tools/scripts/tsc/generate-encoder.ts:1609-1640 | The cursor-cached element is the one counted from the head (negative indices from the end); the links followed are the distance from the cursor, or from the head for a step back |
| `FlatReader.Accesses` | tools/scripts/tsc/generate-encoder.ts:1609-1640 | Any sequence of accesses, in any order, answers as if each walked from the head |
| `FlatReader.FullPass` | tools/scripts/tsc/generate-encoder.ts:1609-1640 | A full pass over n > 0 elements follows n - 1 links in all |
| `FlatRebuild.MultiAt` | tools/scripts/tsc/generate-encoder.ts:936-978 | Consuming the children by mask hands every declared member the child at the rank at which the reader looks it up |
| `FlatRebuild.NodeDecoded` | tools/scripts/tsc/generate-encoder.ts:866-978 | One node: the values passed to its factory are those of its encoded members if the node reads right and its parts are right, and only then if no child without a bit has the kind and the range of a property |
| `FlatRebuild.RebuiltIsPlain` | tsc/internal/api/encoder/decoder.go:138-183 | The whole tree: the rebuilt tree is the encoded one, seen through its encoded members, if every node in it reads right, and only then under the same condition. Comments, members without a bit and empty modifier lists, which have no row, count as nothing |
| `FlatRebuild.CrashesInRow` | tsc/internal/api/encoder/decoder.go:98-105 | Some row crashes the decoder exactly when some node of the tree, comments included, has a raw list as its one encoded child and any child at all |
| `FlatRebuild.DocumentedEmptyReturn` | tsc/internal/api/encoder/decoder.go:329-334 | A documented return without expression comes back with the comment as its expression |
| `FlatRebuild.LinkLosesItsName` | tsc/internal/api/encoder/decoder_generated.go:25-30 | A link in a comment comes back without its name, which was written |
| `FlatRebuild.SignatureForBody` | tsc/internal/api/encoder/decoder_generated.go:346-355 | A member without a bit comes back in the place of the node behind it: a full signature as the body |
| `FlatDecoder.CollectChildren` | tsc/internal/api/encoder/decoder.go:120-136 | The child indices of a row, in order |
| `FlatDecoder.ChildIterator.NextIf` | tsc/internal/api/encoder/decoder.go:207-222 | Consumes the next index exactly when the mask bit is set |
| `FlatDecoder.DecodeMulti` | tools/scripts/tsc/generate-encoder.ts:936-978 | The loop over the declared children hands out the decoded children by mask, for any mask and any number of children |
| `FlatDecoder.DecodeSingle` | tools/scripts/tsc/generate-encoder.ts:866-934 | One declared child is the first child there is, whatever it is; a raw list panics on any child, since its slice has length 0 |
| `FlatDecoder.DecodeChildren` | tools/scripts/tsc/generate-encoder.ts:862-978 | A node with one declared child is decoded by position and any other by mask, and only a raw list can panic |
| `FlatDecoder.DecodeSourceFile` | tsc/internal/api/encoder/decoder.go:287-297 | The statements are the last list among the children and the end-of-file token is the last of its kind, or a new one |
| `FlatDecoder.DecodeNodes` | tsc/internal/api/encoder/decoder.go:138-183 | Rows decoded back to front panic exactly when the tree holds a node that crashes the decoder, and otherwise give the rebuilt tree at row 1 |
| `FlatDecoder.RoundTrip` | tsc/internal/api/encoder/decoder.go:138-183 | Encoding and decoding any conforming tree gives back its encoded members if no node crashes and every node reads right; where no child without a bit has the kind and the range of a property, in no other case |
| `DeepClone.DeepCloneNode` | tsc/internal/ast/deepclone.go:71-73 | The copy is made of freshly allocated nodes and lists throughout, none of them reached twice whatever the original shares; every node and list in it, at any depth, is at -1..-1, save the last node of a list that had a trailing comma, at -2..-2; it has the shape of the original and leaves the original as it was |
| `DeepClone.CloneIsLocated` | tsc/internal/ast/deepclone.go:9-46 | The locations of a clone with synthetic locations in plain numbers, through single children, lists and raw slices at any depth |
| `DeepClone.DeepCloneReparse` | tsc/internal/ast/deepclone.go:75-82 | The copy is fresh throughout, reaches nothing twice, is equal in every location, and its root gains the reparsed flag |
| `DeepClone.ClonedShape` | tsc/internal/ast/deepclone.go:6-73 | The clone is isomorphic to the original: kinds, data, flags, list and slot structure |
| `DeepClone.PlainClone` | tsc/internal/ast/deepclone.go:6-26 | Without synthetic locations the clone stands for the very same tree |
| `DeepClone.TrailingCommaSurvives` | tsc/internal/ast/deepclone.go:28-46 | A list made synthetic has a trailing comma exactly when the original had one |
| `DeepClone.Visit` | tsc/internal/ast/deepclone.go:9-25 | A rebuilt node as it is, an unchanged one cloned by force: always fresh |
| `DeepClone.VisitEachChild` | tools/scripts/tsc/generate-go-ast.ts:608-671 | The node itself only when nothing in it is visited; otherwise a fresh node over the cloned members, since one fresh child forces Update to rebuild |
| `DeepClone.Clone` | tools/scripts/tsc/generate-go-ast.ts:675-724 | A new node over the same members with flags and location copied |
| `DeepClone.VisitSlot` | tools/scripts/tsc/generate-go-ast.ts:639-664 | A member changes exactly when there is something in it to visit |
| `DeepClone.VisitSlice` | tsc/internal/ast/visitor.go:137-183 | Every element is replaced by its fresh clone, in order, and the clones share nothing |
| `DeepClone.VisitNodes` | tsc/internal/ast/deepclone.go:28-46 | Always a new list, marked with -2 on its last element when it had a trailing comma |
| `Shadow.PositionIsReachable` | tools/customlint/shadow.go:164-211 | Terminates on every finite graph, cycles included, and reports found exactly when a path from a successor of the first block holding the identifier, through blocks free of the declaration, leads to a block with a use; the position reported is the first use of such a block |
| `Shadow.Search.Reachable` | tools/customlint/shadow.go:175-200 | One call either reports a use at the end of a free path or settles everything it has seen |
| `Shadow.Query.SettledFindsNothing` | tools/customlint/shadow.go:175-200 | No free path from a settled block reaches a use: the seen set cuts off nothing |
| `Shadow.FirstUse` | tools/customlint/shadow.go:187-191 | The first of the uses in list order that lies in the block |
| `Shadow.NodesAreInBlock` | tools/customlint/shadow.go:233-242 | A block whose nodes follow one another contains what any of its nodes contains, bounds included, and nothing outside all of them |
| `Msgpack.TupleRoundTrip` | tsc/internal/api/protocol_msgpack.go:97-144 | With anything behind it, a written tuple reads back as itself, consuming exactly its bytes, exactly when its type is valid and both parts are shorter than 2^32 bytes |
| `Msgpack.StreamRoundTrip` | tsc/internal/api/protocol_msgpack.go:97-144 | Any concatenation of written tuples reads back as the same messages in order |
| `Msgpack.TruncatedTuple` | tsc/internal/api/protocol_msgpack.go:97-144 | No proper prefix of a written tuple is accepted |
| `Msgpack.AcceptedTuple` | tsc/internal/api/protocol_msgpack.go:97-144 | Whatever the reader accepts is a three-element array with a valid type and two byte strings, in any of their formats, and the rest |
| `Msgpack.BinRoundTrip` | tsc/internal/api/protocol_msgpack.go:146-181 | A written byte string reads back exactly when it is shorter than 2^32 bytes |
| `Msgpack.HeaderReads` | tsc/internal/api/protocol_msgpack.go:251-274 | A header reads back as the length modulo 2^32 |
| `Msgpack.HeaderBytes` | tsc/internal/api/protocol_msgpack.go:251-274 | The header byte by byte: 0xC4, 0xC5 or 0xC6, whichever is the least sufficient, and the length with its most significant byte first |
| `Msgpack.TupleBytes` | tsc/internal/api/protocol_msgpack.go:231-249 | A tuple byte by byte: 0x93, the type, and the two byte strings |
| `Msgpack.HeadBytes` | tsc/internal/api/protocol_msgpack.go:97-129 | A tuple is accepted only if it begins with 0x93 and a type from 1 to 6, in one byte or behind 0xCC |
| `Msgpack.MessagePackProtocol.ReadTuple` | tsc/internal/api/protocol_msgpack.go:97-144 | The step-by-step reader consumes and returns what the parser specifies, errors included |
| `Msgpack.MessagePackProtocol.ReadBin` | tsc/internal/api/protocol_msgpack.go:146-181 | The same for a byte string |
| `Msgpack.MessagePackProtocol.WriteTuple` | tsc/internal/api/protocol_msgpack.go:231-249 | Appends the encoding of the message to the stream |
| `Msgpack.MessagePackProtocol.WriteBin` | tsc/internal/api/protocol_msgpack.go:251-277 | Appends a header of the least sufficient format and the data |
| `Msgpack.Transfer` | tsc/internal/api/protocol_msgpack.go:97-277 | Messages sent through one end arrive at the other, all of them and in order |
| `BitLayout.FitsIffLossless` | tools/scripts/tsc/generate-encoder.ts:476-514 | For every list of flags and kind unions, all values survive packing and unpacking exactly when the members need no more than the six bits of the field |
| `BitLayout.PackedComesBack` | tools/scripts/tsc/generate-encoder.ts:789-834 | Members of at most six bits come back, and leave the data type and the low part of the word alone |
| `BitLayout.LostValue` | tools/scripts/tsc/generate-encoder.ts:789-834 | Members that need more have values that no six-bit field gives back |
| `BitLayout.GetAutoEncodedLayout` | tools/scripts/tsc/generate-encoder.ts:318-331 | The loop lays the members out one after another from bit 0 |
| `BitLayout.LayoutIsContiguous` | tools/scripts/tsc/generate-encoder.ts:318-331 | The ranges follow one another without gap or overlap |
| `BitLayout.CeilLog2IsLeast` | tools/scripts/tsc/generate-encoder.ts:132-138 | The width of a union is the least with room for all its indices |
| `BitLayout.IndexRoundTrip` | tools/scripts/tsc/generate-encoder.ts:497-508 | A member value comes back from its index exactly when the member can have it |
| `BitLayout.DecodeEncoded` | tools/scripts/tsc/generate-encoder.ts:789-834 | Decoding gives every member its value back from any word that agrees with the encoding on the members' bits |
| `PromiseQueues.OneAtATimeInOrder` | packages/vscode-typescript/src/session.ts:155-159 | In every run of the promise chain operations begin in the order they were enqueued, each after all earlier ones settled, never two at once, and none is skipped whatever earlier ones reject with |
| `PromiseQueues.NeverStuck` | packages/vscode-typescript/src/session.ts:155-159 | In every reachable state a waiting operation can be started as soon as none runs, at most after the pending catch |
| `PromiseQueues.StepRefinesQueue` | packages/vscode-typescript/src/session.ts:133-137 | Every step of the chain is the matching step of a first-in first-out queue, and the step that would pass a rejection on never happens |
| `OneServer.OneServerAtATime` | packages/vscode-typescript/src/session.ts:72-107 | For every run: while no dispose of a live client fails and the restart command keeps clear of lifecycle operations, no two servers live at any time; stops and starts may be rejected at will |
| `OneServer.StepKeepsLive` | packages/vscode-typescript/src/session.ts:80-107 | Every single step keeps the invariant behind it: only the current session, or one being cleaned up while there is no current one, is live |
| `Sessions.OperationLeaves` | packages/vscode-typescript/src/session.ts:80-115 | An operation that gets past the current session leaves no session if it was a stop or dispose, a new one about to start if it was a restart, and the server of a closed client is gone |
| `Sessions.RestartCommandDoes` | packages/vscode-typescript/src/session.ts:234-241 | The restart command with another executable queues a restart and touches no session; with the same one the client restarts; before the client exists nothing happens |
| `OneServer.OneEventLeadsToTwo` | packages/vscode-typescript/src/client.ts:402-465 | Both conditions are exact: from every state of the invariant, any one such event, an overlapping restart command, an operation begun while one is pending, or a failed dispose of a live client, can be followed to two live servers without another such event. Several cases rest on the assumption that the library may restart a client that was stopped or disposed while the command was pending |
| `Contributions.ServerIsTold` | packages/vscode-typescript/src/session.ts:117-153 | For every run, whatever is registered, disposed, switched, restarted, rejected or given up: once nothing is left to synchronise, an initialised server whose last request was not rejected has been told every contribution of the registrations still held, in order and nothing else (nothing if the setting is off), if and only if that setting is the one last sent, or makes no difference |
| `Contributions.HeldAt` | packages/vscode-typescript/src/session.ts:117-131 | A registration whose disposable is unused is among those held, at its place in the order of registering |
| `Contributions.NoOthersHeld` | packages/vscode-typescript/src/session.ts:117-131 | What is held is a registration whose disposable is unused |
| `Contributions.ToldUnlessGivenUp` | packages/vscode-typescript/src/session.ts:55-61 | So once no restart is due it has been told what it should be, unless a restart was given up after the last request |
| `Contributions.SteadyServerIsTold` | packages/vscode-typescript/src/session.ts:55-61 | In particular it always has while no restart is ever given up |
| `Contributions.GivenUpRestartLosesChange` | packages/vscode-typescript/src/session.ts:55-61 | That can happen: from every quiet state with no operation under way in which the server has been told what it should be and some contribution is held, a change of the setting whose restart is given up leaves it told otherwise, with nothing more to come |
| `Contributions.StepKeepsSync` | packages/vscode-typescript/src/session.ts:62-69 | Every single step keeps the invariant behind it, and what the past leaves behind: a synchronisation is still to come, or the request under way or the server has the registrations under the setting last sent, or its last request was rejected; and a changed setting is still to be delivered unless its restart was given up |
| `Contributions.RegisterThenDispose` | packages/vscode-typescript/src/session.ts:117-131 | Registering and disposing leave no trace, whatever was registered and disposed before; a contributor that holds a registration is refused |
| `Contributions.DeleteIsDispose` | packages/vscode-typescript/src/session.ts:126-130 | Disposing a registration removes that registration and no other, and keeps the rest in order |
| `SessionManagers.Drive` | packages/vscode-typescript/src/session.ts:35-168 | For every run of events on a new manager object: no two of its servers live while no dispose fails and no restart command overlaps, and once it is quiet its server has been told exactly what is registered if and only if the setting is the one last sent, or makes no difference; the object goes through the run of the state machine |
| `SessionManagers.StepKeepsConsistent` | packages/vscode-typescript/src/session.ts:35-168 | Every event keeps all three invariants together: the live sessions, the synchronisation, and the registrations against their disposables |
| `SessionManagers.SessionManager.Conclusions` | packages/vscode-typescript/src/session.ts:62-153 | What the invariants give the caller at any moment: one live server, and a quiet server that has been told the registrations that are held exactly when the setting was delivered, as it was unless a restart is due or was given up since the last request |
| `SessionManagers.SessionManager.RegisterContentMappers` | packages/vscode-typescript/src/session.ts:117-131 | A contributor that holds no registration gets one, behind the others, with an unused disposable, and a synchronisation is queued; otherwise it is refused and nothing changes; the invariants are kept |
| `SessionManagers.SessionManager.DisposeRegistration` | packages/vscode-typescript/src/session.ts:125-130 | The first use of a disposable takes exactly its registration out of those held, so that its contributor may register again; the second changes nothing; the invariants are kept |
| `SessionManagers.SessionManager.SyncContentMapperContributionsNow` | packages/vscode-typescript/src/session.ts:139-149 | A request is sent exactly when the current client is initialised, to that client, with the serialisation of the registrations held, or nothing while the setting is off, and then the setting counts as delivered; the invariants are kept |
| `SessionManagers.SessionManager.BeginOperation` | packages/vscode-typescript/src/session.ts:80-107 | Keeps the invariants, that of one live server unless a restart command is pending |
| `SessionManagers.SessionManager.OnResolved` | packages/vscode-typescript/src/session.ts:80-107 | Keeps all invariants whatever the running operation awaited |
| `SessionManagers.SessionManager.OnRejected` | packages/vscode-typescript/src/session.ts:91-97 | Keeps the invariants, that of one live server unless a dispose of a live client fails; a restart that is given up is remembered until a request is sent |
| `SessionManagers.SessionManager.TryRestartClient` | packages/vscode-typescript/src/client.ts:443-456 | Keeps the invariants, that of one live server unless the command overlaps a lifecycle operation |
| `SessionManagers.SessionManager.OnClientRestarted` | packages/vscode-typescript/src/client.ts:455-464 | Keeps all invariants: the new server has been told nothing and a synchronisation is queued |
| `SessionManagers.SessionManager.OnSyncSettled` | packages/vscode-typescript/src/client.ts:525-533 | Keeps all invariants: an answered request counts for the server process it was sent to and for no later one |
| `SessionManagers.SerializeContentMapperContributions` | packages/vscode-typescript/src/contentMapperContributions.ts:36-58 | The nested loops list as many entries as there are contributions, and contribution j of registration i stands behind those of the registrations before it and the j before |
| `Sessions.SerializeLists` | packages/vscode-typescript/src/contentMapperContributions.ts:36-58 | The list sent has every contribution of every registration under its contributor at its place, and it is the only list that does |
| `RestartLimiter.RefusedIff` | packages/vscode-typescript/src/client.ts:646-662 | With a clock that does not run backwards a restart is refused exactly when the last three minutes saw maxRestartCount + 1 closes and one more for each earlier refusal |
| `RestartLimiter.RemembersTheLatest` | packages/vscode-typescript/src/client.ts:649-661 | The list is always the most recent closes: as many as the maximum, or all if there were fewer, and one more per refusal |
| `RestartLimiter.MessageIsTrue` | packages/vscode-typescript/src/client.ts:681-686 | The message shown on a refusal is always true, and is the rule as long as nothing was refused before |
| `RestartLimiter.RefusalsAreRemembered` | packages/vscode-typescript/src/client.ts:646-662 | For every maximum there is a history in which the last three minutes saw more closes than the maximum and the server is restarted all the same |
| `RestartLimiter.CaptureIsReport` | packages/vscode-typescript/src/client.ts:594-613 | From a clean start the buffer is a function of the lines pushed, however they were cut into chunks: the last panic that is not itself part of a capture, with what follows it |
| `RestartLimiter.ReportIsAPanic` | packages/vscode-typescript/src/client.ts:594-613 | It is a contiguous stretch of at most 40 lines that begins with a panic line, runs to the end while capturing goes on, and is empty exactly when there was no panic line |
| `RestartLimiter.ReportingErrorHandler.Closed` | packages/vscode-typescript/src/client.ts:646-689 | Refuses exactly by that rule, hands over the sanitised report and starts a clean buffer |
| `RestartLimiter.ReportingErrorHandler.PushStderrLine` | packages/vscode-typescript/src/client.ts:594-613 | The loop captures the lines of the text, in order, and touches nothing else |
| `RestartLimiter.ReportingErrorHandler.ConsumeStderrBuffer` | packages/vscode-typescript/src/client.ts:615-620 | Hands over the report of the lines pushed, sanitised line by line and cut at 8192 characters, and starts afresh |
| `RestartLimiter.ReportSplits` | packages/vscode-typescript/src/client.ts:696-701 | The text of a report splits into exactly the captured lines, so sanitising works on these |
| `RestartLimiter.HandedOverIsRedacted` | packages/vscode-typescript/src/client.ts:615-620 | Nothing is handed over without a panic; else it begins with the redacted panic line and keeps to the limit |
| `StderrSanitizer.SanitizedByLine` | packages/vscode-typescript/src/client.ts:696-701 | Sanitising any lines gives one line for each, which splitting finds again |
| `StderrSanitizer.PanicIsRedacted` | packages/vscode-typescript/src/client.ts:708-712 | Of a panic line nothing but the marker is left, whatever its message |
| `StderrSanitizer.ForeignIsRedacted` | packages/vscode-typescript/src/client.ts:719-745 | Of a line that is neither header, panic, exit message nor frame of our module only its leading white space and the marker are left |
| `StderrSanitizer.FrameIsKept` | packages/vscode-typescript/src/client.ts:720-737 | A frame of our module without offset, goroutine or arguments at its end and without anything like a secret is kept from the module on, its path separators replaced |
| `StderrSanitizer.ArgumentsAreDropped` | packages/vscode-typescript/src/client.ts:730-731 | Of the frame of a function of our module the name is kept and the arguments are dropped, whatever they are |
| `StderrSanitizer.FirstSecretIsDefused` | packages/vscode-typescript/src/client.ts:734-735 | At the leftmost match X_X is put between the keyword and its separator, nothing else is changed, and the rest is treated from behind it |
| `StderrSanitizer.BarsFirst` | packages/vscode-typescript/src/client.ts:732-733 | Each separator becomes a bar and an angle bracket, everything else stays |
| `StderrSanitizer.ShortenedIsHarmless` | packages/vscode-typescript/src/client.ts:720-737 | A frame of our module is left without a path separator, on one line, and with nothing that the expression for secrets still matches |
| `StderrSanitizer.NoKeywordIsLeft` | packages/vscode-typescript/src/client.ts:694-735 | After the replacement from left to right the expression for secrets matches nowhere in the result, for any text and any character before it |
| `StderrSanitizer.StripTailCuts` | packages/vscode-typescript/src/client.ts:726-729 | A mark with its tail of digits is cut off at the one place where the expression matches, and else nothing is |
| `StderrSanitizer.FindParens` | packages/vscode-typescript/src/client.ts:730-731 | The leftmost parenthesis whose match runs to the end of the frame |
| `Text.SplitJoin` | packages/vscode-typescript/src/client.ts:615-620 | Joining captured lines and splitting them again, as sanitising does, gives the same lines |
| `Edits.ApplyEdits` | packages/typescript/scripts/generateSync.ts:197-204 | For edits that do not overlap, of which only insertions share their start with an earlier one, the back-to-front loop equals simultaneous replacement: untouched gaps and new texts woven in source order, those at one place last given first |
| `Edits.SortedDescending` | packages/typescript/scripts/generateSync.ts:198 | Sorting puts disjoint edits strictly back to front |
| `Edits.EditInFront` | packages/typescript/scripts/generateSync.ts:200-202 | Replacing before everything already replaced adds exactly that edit to the weave |
| `Edits.GivenOrderIsIrrelevant` | packages/typescript/scripts/generateSync.ts:197-204 | Any two orders of the same disjoint edits are sorted alike |
| `Edits.DisjointEditsGiveOneText` | packages/typescript/scripts/generateSync.ts:197-204 | So applying them gives one and the same text, that of simultaneous replacement |
| `Edits.WeaveLength` | packages/typescript/scripts/generateSync.ts:199-203 | The text grows by what the edits put in and shrinks by what they cover |
| `Edits.SortBackward` | packages/typescript/scripts/generateSync.ts:198 | The stable sort puts such edits back to front, each ending before the one before it starts |
| `Edits.AppliedIsWeave` | packages/typescript/scripts/generateSync.ts:199-203 | Back to front, one replacement after another is all of them at once |
| `Edits.SameStart` | packages/typescript/scripts/generateSync.ts:197-204 | Of any two edits that start at one place, the one given later is applied to what the earlier one put there |
| `Edits.SameStartReverses` | packages/typescript/scripts/generateSync.ts:197-204 | Any two insertions at any place of any source come out in the opposite of the order given |
| `Edits.InsertionIsReplaced` | packages/typescript/scripts/generateSync.ts:197-204 | The condition is needed: an insertion given before a replacement that starts at its place is replaced in place of the source, as far as it goes |
| `Edits.InsertionIsKept` | packages/typescript/scripts/generateSync.ts:197-204 | Given behind it, the insertion comes first and both are kept |
| `SeparateEdits.SeparateIsNeeded` | packages/typescript/scripts/generateSync.ts:197-204 | For any list of edits that fail the condition at most by insertions given before a replacement at their place: the condition holds exactly when, for all texts over the same ranges, the loop equals simultaneous replacement |
| `SeparateEdits.LoopGoesWrong` | packages/typescript/scripts/generateSync.ts:197-204 | Where it fails, texts are given for which the loop differs |
| `SeparateEdits.InsertionsLastAreSeparate` | packages/typescript/scripts/generateSync.ts:197-204 | Giving the insertions last makes such edits meet the condition |
| `SeparateEdits.SortKeepsOrder` | packages/typescript/scripts/generateSync.ts:198 | Two edits at one place are applied in the order given, whatever the other edits |
| `Directives.ProcessDirectives` | packages/typescript/scripts/generateSync.ts:90-179 | The loop over the three flags computes the specified output, at most one line per line |
| `Directives.ProcessIsMeaning` | packages/typescript/scripts/generateSync.ts:90-179 | Any text whose rows fall into lines and blocks without nesting becomes each piece's own meaning, in order, for both variants |
| `Directives.OutputIsMeaning` | packages/typescript/scripts/generateSync.ts:90-146 | The same on rows already read: skip blocks vanish, only-blocks are uncommented where they count, and generators-skip blocks are kept in the sync variant |
| `Directives.OutputIsShort` | packages/typescript/scripts/generateSync.ts:90-179 | At most one output line per input line, from any flags |
| `Directives.MarkerOfIs` | packages/typescript/scripts/generateSync.ts:97-141 | The chain of comparisons in source order names the one marker whose text the trimmed line is |
| `Directives.CutWhereClear` | packages/typescript/scripts/generateSync.ts:90-146 | Wherever the three flags are clear a text may be cut and its parts processed on their own |
| `Directives.SkipIsTheLastMarker` | packages/typescript/scripts/generateSync.ts:99-117 | In any text whatever a line is skipped exactly when the last skip marker before it opened a block that counts for the variant, whichever kind it was |
| `Directives.NestedSkipShowsThrough` | packages/typescript/scripts/generateSync.ts:99-117 | So a generators-skip block inside a sync-skip block is not skipped in the sync variant |
| `Directives.ProcessLine` | packages/typescript/scripts/generateSync.ts:148-175 | Nothing comes out exactly when a skip marker for the variant is in the line; otherwise one line, the text behind the leftmost generators marker in the generators variant, and else the line, without that marker and what follows, or the text behind its leftmost sync marker |
| `Directives.FindReplacement` | packages/typescript/scripts/generateSync.ts:158-169 | The first place where the directive is followed by a text that runs to the end of the line, or none |
| `Directives.UncommentComment` | packages/typescript/scripts/generateSync.ts:181-187 | Uncommenting undoes commenting, on every line |
| `ConfigMerge.PrecedenceOfThree` | packages/vscode-typescript/src/configurationMiddleware.ts:44-80 | At every leaf path the merged value is the first defined of js/ts, typescript and javascript explicit, then the same three defaults |
| `ConfigMerge.Precedence` | packages/vscode-typescript/src/configurationMiddleware.ts:44-80 | The same for any number of sections, at every path apart from the two legacy settings |
| `ConfigMerge.LegacyPrecedence` | packages/vscode-typescript/src/configurationMiddleware.ts:65-77 | The two legacy settings come after every explicit value and before every default |
| `ConfigMerge.GetMergedConfiguration` | packages/vscode-typescript/src/configurationMiddleware.ts:44-80 | The loops and the legacy assignments compute the specified merge; they throw exactly when two sections store autoClosingTags in itself with no section between them that cuts the first one off, or a legacy trace.server meets an explicit trace that is a plain value |
| `ConfigMerge.ExplicitEnds` | packages/vscode-typescript/src/configurationMiddleware.ts:57-63 | Merging the explicit values ends exactly when there are no two such sections, in terms of the settings as they were read |
| `ConfigMerge.FoldEndsIff` | packages/vscode-typescript/src/configurationMiddleware.ts:195-230 | The same for any sequence of objects with loops below autoClosingTags: the fold recurses without end exactly when it meets two |
| `ConfigMerge.ChainEndless` | packages/vscode-typescript/src/configurationMiddleware.ts:210-230 | Two objects merge without end exactly when "enabled" leads in both to an object that holds itself |
| `ConfigMerge.ChainMerge` | packages/vscode-typescript/src/configurationMiddleware.ts:210-230 | A merge holds a loop exactly when the second object does, or the first does and the second lets it through |
| `ConfigMerge.TwoObjectsLoop` | packages/vscode-typescript/src/configurationMiddleware.ts:195-204 | Two sections that set any other key below autoClosingTags, and nothing else, make the merge throw |
| `ConfigMerge.GetMerge` | packages/vscode-typescript/src/configurationMiddleware.ts:210-230 | A merge seen at any path, for any two objects: the second decides where it has a value or replaces the way there, objects merge, the first fills in the rest |
| `ConfigMerge.FoldTakesFirst` | packages/vscode-typescript/src/configurationMiddleware.ts:48-63 | A fold of sections takes the first defined value at every leaf path |
| `ConfigMerge.MergeAssociative` | packages/vscode-typescript/src/configurationMiddleware.ts:210-230 | Merging settings as they are read is associative exactly when no plain value of the middle object separates objects of the outer two of which the first still contributes |
| `ConfigMerge.CoveredAddsNothing` | packages/vscode-typescript/src/configurationMiddleware.ts:210-230 | Merging y over x gives y exactly when every key of x is covered by y |
| `ConfigMerge.DeepMerge` | packages/vscode-typescript/src/configurationMiddleware.ts:210-230 | The loop computes the recursive merge, of objects that hold themselves as well, and overflows the stack exactly when the recursion has no end |
| `ConfigMerge.GetAfterSet` | packages/vscode-typescript/src/configurationMiddleware.ts:164-193 | What was set is found where no object on the way holds itself, unless a step is a prototype key: then nothing is set or found |
| `ConfigMerge.SetElsewhere` | packages/vscode-typescript/src/configurationMiddleware.ts:164-193 | Setting a value changes nothing at any path that neither leads to it nor through it |
| `ConfigMerge.GetNestedValue` | packages/vscode-typescript/src/configurationMiddleware.ts:183-193 | The loop follows the path, ending at a prototype key, a missing key or a plain value |
| `ConfigMerge.ApplyConfigAliases` | packages/vscode-typescript/src/configurationMiddleware.ts:195-204 | The loop applies the aliases in order; an object-valued fallback on the way to its preferred key is stored in itself |
| `ConfigMerge.AliasMeaning` | packages/vscode-typescript/src/configurationMiddleware.ts:195-204 | Behind all aliases every preferred key has its own value, or else its fallback's, which then holds itself if it is an object that was to hold the preferred key |

## Left out

- DiagnosticsCollections.DiagnosticsCollection.GetDiagnostics: the order among diagnostics that compare 0 is left open, because the code uses an unstable sort over a map in arbitrary order.
- StableSort.SortStableFunc, StableSort.SortFunc, StableSort.BinarySearchFunc: the Go library's own algorithms are not part of this model, only what they promise.
- Message rendering, localisation, and the construction of diagnostics.
- FlatEncoder.EncodeTree: rows hold the positions already converted to UTF-16, and kinds, flags and payloads as values; the byte layout of a row, the string table, the extended and structured data and the node index table are not modelled.
- FlatDecoder.DecodeNodes: the texts and flags of strings and extended data, the check of the header, and the error for a source file whose name is not an absolute normalised path.
- FlatRebuild.RebuiltIsPlain: that a tree whose nodes do not all read right is decoded wrong is stated where no child without a bit could pass for a property; else a wrong child may happen to equal the right one.
- FlatReader.RemoteNodeList.At: fractional indices, and the cache of materialised nodes.
- BitLayout.GetAutoEncodedLayout: the text of the emitted Go code; the model is what that code computes.
- DeepClone.DeepCloneReparse: parent links and `SetParentInChildren`, the cached modifier flags, factory hooks, and the nil argument, which is returned as it is.
- DeepClone.VisitEachChild: hand-written visitors of nodes whose children have no fixed order, and the lifting of syntax lists, which a deep clone never produces.
- Shadow.PositionIsReachable: an identifier that lies in no block, for which the code has no start block.
- Msgpack.MessagePackProtocol.ReadTuple: errors of the transport other than the end of the input; what is left of the input after an error is not stated.
- Contributions.ServerIsTold: the list of open documents sent with the contributions, and server crashes with the client library's own restarts.
- SessionManagers.SessionManager: the client of a session is a value in a list that the manager reassigns, not an object of its own, so aliasing between sessions is not captured. Validation of a contribution's fields is a parameter.
- RestartLimiter.ReportingErrorHandler.ConsumeStderrBuffer: the cut counts characters, where the code counts UTF-16 code units.
- RestartLimiter.ReportingErrorHandler.Closed: telemetry and the text of the message.
- Edits.ApplyEdits: the sort in place of the caller's list.
- Directives.ProcessDirectives: reading and writing files, and the transformation of syntax trees behind it.
- ConfigMerge.Set: setNestedValue changes objects in place; the model returns the changed tree. An array's `length` and inherited members are not modelled.
- ConfigMerge.ApplyConfigAliases: values shared between two keys are copied; only an object's hold on itself is captured. What becomes of a merged configuration that still holds itself when it is sent is not modelled.
- ConfigMerge.GetMergedConfiguration: the editor's inspection of settings, from which the sections come, and the middleware around it.
- Transports, process handling, the watchdog and callbacks of the API server; the request and response types.
- Commands, prompts, status items and telemetry of the extension.
