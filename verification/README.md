# Contiki: verified models of five subsystems

A Dafny model of independent pieces of the Contiki tree, with proofs about it.
`dafny verify dfyconfig.toml` checks all of it. Nothing was executed.

| files | what they model |
|---|---|
| `Lvm`, `LvmMachine`, `LvmDerive`, `AqlParser`, `AqlMeaning` | Antelope's WHERE compiler, which builds prefix bytecode in place, the LogicVM that runs it, and the second interpreter that derives a range per variable |
| `InlineIndex`, `RowVisits`, `RelationSelect`, `RelationIndexed`, `RelationJoin`, `ResultRows`, `LostRows` | binary search over a monotone column, SELECT by index or by scan, the resumable equi-join, a SELECT that loses rows |
| `HeapNodes`, `HeapFile`, `HeapBuckets`, `MaxHeap`, `MaxHeapLookup`, `MaxHeapRange`, `HeapIndex`, `HeapQueries` | the flash "max-heap" index: range-labelled nodes, buckets, insertion with splitting, lookup of a key and of a range, and what SELECT and JOIN over it give |
| `Deluge`, `DelugeNode`, `DelugeRuns`, `DelugeShape`, `DelugeRounds`, `DelugeAgreement`, `DelugeSpread`, `DelugeGrowth` | the Deluge dissemination protocol: handlers and dispatcher, nodes, a network that loses, duplicates, delays, reorders and damages, agreement, what can spread, and updates that add pages |
| `CoapOptions`, `CoapText`, `CoapFields`, `CoapNumbers`, `CoapMessage`, `CoapWire`, `CoapSerialize`, `CoapSend`, `CoapParse`, `CoapRoundTrip` | the Erbium CoAP codec (sections 3 and 3.1 of RFC 7252, section 2.2 of RFC 7959) |
| `WellKnownCore`, `LinkReader`, `CoapBlockwise` | the resource listing generated window by window (section 2 of RFC 6690), Block2 transfers in the engine |
| `JsonTree`, `JsonPrinter`, `JsonValues`, `JsonMachine`, `JsonRoundTrip`, `JsonSpacing`, `JsonParser` | the JSON printer and the JSON parser, two step machines with explicit stacks |
| `Common` | an option type and a few helpers of all of them |
| `Checksum`, `PacketCheck` | Internet checksums in the SLIP tunnel (section 2 of RFC 1071, section 3 of RFC 1624) |

## The main results

- **Compiler correctness.** Parsing a flat WHERE chain shifts and fills one code buffer; what is left in it is
  the prefix encoding of the right-nested tree, and executing it gives the chain's truth value
  (`AqlParser.CompileAndExecute`). On arbitrary trees the VM returns the denotation or the first error, and its
  cursor ends at the end of the code (`LvmMachine.Lvm.Execute`). `AqlMeaning` says what each operator means, from
  the tokens to the truth value; division rounds toward zero (`LvmCode.DivisionValue`).
- **Index plan = scan plan.** Derived ranges are sound on the variable-left fragment and exact for conjunctions.
  For every condition on which derivation succeeds, `LvmDerive.SoundIffBranchesCovered` says exactly when it is
  sound; a comparison of two constants can make it unsound, and then rows get lost (`LostRows.RunByIndex`).
  A SELECT that runs by index emits all rows of the scan iff no row outside those visited matches, and always where
  derivation is sound: in the same order for the inline index (`RelationSelect.Select.Run`), and as a multiset for
  any index that yields every matching row once (`RelationIndexed.IndexedSelect.Run`). `ResultRows.EmittedValue` says
  which stored value stands where in the result.
- **Max-heap.** Every sequence of insertions keeps the nodes labelled with their dyadic ranges; stored pairs are
  exactly the inserted ones; an insertion fails iff all eight buckets on its path are full; the first lookup
  answers "absent" iff the key was never inserted; later lookups are complete iff an explicit order condition holds,
  which one key inserted 129 times violates (`MaxHeapLookup.SameKeyCompleteIff`).
- **Queries over the max-heap.** A SELECT by equality emits the rows of the scan iff the lookup of its key is
  complete (`HeapQueries.SelectByKeyIff`), so of 129 equal rows it loses some (`HeapQueries.SelectEqualRowsIff`);
  a range yields its keys one after the other (`MaxHeapRange.RangeIterator.GetNext`); a join is the equi-join iff the
  lookups of all left values are complete (`HeapQueries.JoinIff`).
- **Join.** Re-entering the inner loop over any number of calls emits exactly the nested loops, which are the
  equi-join.
- **Deluge.** For any starting versions and any run: without damaged packets complete pages have the right bytes and
  the version flips only when every page is complete (`DelugeAgreement.Agreement`); with damaged packets they do iff
  every page was completed from packets whose last wanted copy had the right checksum
  (`DelugeAgreement.Dissemination.AgreesIffClean`), and a run that goes wrong exists iff the versions 0 and 1 meet
  and their profile fits into the packet buffer (`DelugeSpread.DamageHarmlessIff`). The dispatcher lets only updates
  from version 0 to version 1 start, and a node can get all of version 1 iff it starts with version 0, some node has
  it, and there are at most min(128, PACKETBUF_SIZE - 4) pages, which is 124 by default (`DelugeSpread.GetsIff`).
  Loss is repaired: a request is answered with exactly the packets that are missing or still due to others
  (`DelugeRounds.AnswersExactly`), and after any run, with everything that was sent lost, the update can still be
  completed (`DelugeSpread.AnyRunCanFinish`). An update that adds pages never reaches a node completely
  (`DelugeGrowth.GrowthNeverComplete`).
- **CoAP.** A message is serialized into a buffer and parsed from it, with repeated options merged in place:
  everything arrives iff no proxy option is set, block sizes are powers of two, and paths and queries have no
  separator in front and an even number of them at the end (`CoapRoundTrip.Transfer`). What each option number stands
  for, and the bytes of the format, are said in `CoapNumbers` and `CoapWire`.
- **Blockwise.** Fetching the blocks of an unaware resource, or of the generated listing, gives the payload, and
  the listing is read back as the resources (`LinkReader.ListingRead`).
- **JSON.** Parsing a printed tree gives its pre-order tokens iff the root is an object and the tree is fine:
  integers are not negative, backslashes come in pairs before quotes and ends of strings, and no value of a pair
  is, or ends with, an empty container (`JsonRoundTrip.RoundTripIff`); and so is any text of these tokens with white
  space between them (`JsonSpacing.SpacedRoundTripIff`).
- **Checksums.** Setting the identification and correcting the checksum in host order keeps a packet of at least 12
  bytes acceptable iff its header length is not 8 bytes or the identification is 0 or 0xffff, and a shorter one under a
  condition of its own (`Checksum.UpdateKeepsAcceptance`); a relayed packet passes the check.

## Where the code and its documentation part

The models follow the code.

- `parse_where` reports success when a comparison after the first one fails to parse: the code 0 is not an error
  (contiki/apps/antelope/aql-parser.c:436-440; `AqlParser.CompileCutOff`).
- The head of the max-heap (contiki/apps/antelope/index-maxheap.c:42-46) says that a split copies the entries of a bucket into its children; the code leaves
  them where they are (contiki/apps/antelope/index-maxheap.c:416-445).
- Of a comparison without a variable on its left, derivation takes the second operand for the variable, also if it
  is a constant (contiki/apps/antelope/lvm.c:637-647; `LvmDerive.ConstantComparisonUnsound`).
- An index iterator over a range starts to count again at every key (contiki/apps/antelope/index-maxheap.c:746-749), so
  a SELECT can report DB_INDEX_ERROR behind rows (contiki/apps/antelope/relation.c:756-762).
- `select_index` never lowers `min_range`, so it takes the last usable index instead of the one with the smallest
  range (contiki/apps/antelope/relation.c:643-663).
- `range_search` returns an unsigned tuple id, so its caller never sees an error (contiki/apps/antelope/index-inline.c:153-227).
- The Deluge dispatcher multiplies the number of pages of a profile by the version of its first page where the size of a
  version is meant (contiki/apps/deluge/deluge.c:606-609), so profiles of version 2 and above are dropped.
- A profile is cut to the packet buffer before it is sent (contiki/core/net/packetbuf.c:93-102), so the dispatcher drops
  those of version 1 with more than PACKETBUF_SIZE - 4 pages.
- The pages that a profile adds get version 0 (contiki/apps/deluge/deluge.c:567-569), which no packet of the update has.
  A node that still has version 0 sends them from behind the end of its file, and the receiver then takes itself to
  be complete (`DelugeGrowth.TakesItselfForComplete`).
- A Deluge packet with a wrong checksum is rejected only after it has been copied into the assembly buffer
  (contiki/apps/deluge/deluge.c:453-460). A request is served for `pagenum <= highest_available`, one page more than
  is complete (contiki/apps/deluge/deluge.c:411-413). After the last page `send_request` may read one entry beyond the page table.
- The separator behind a separator is never split at, and after a separator at the end of a string the loop looks at
  the second byte behind it (contiki/apps/er-coap/er-coap.c:185-203).
- The flag test before the identification is set compares the offset field in host order with a constant that is not
  converted (contiki/tools/tunslip.c:642); the model keeps the test as it is, for either byte order.

## Model

| member | source | states |
|---|---|---|
| `LvmCode.EncodeUnique` | contiki/apps/antelope/lvm.c:314-440 | no encoding is a prefix of another one: a buffer position holds at most one tree, so evaluating and deriving read the same tree |
| `LvmCode.DivisionValue` | contiki/apps/antelope/lvm.c:205-210 | a division node has the value q iff q is the quotient rounded toward zero: the rest is smaller than the divisor and has the sign of the dividend; dividing by zero is an error |
| `LvmCode.ErrorCodes` | contiki/apps/antelope/lvm.c:165-298 | which error a node of the wrong type and an operator in the wrong kind of node raise, and that the left operand counts first |
| `LvmCode.NegationLaws` | contiki/apps/antelope/lvm.c:246-251 | NOT undoes itself and exchanges AND and OR; nothing is true together with its negation |
| `LvmMachine.Lvm.EvalExpr` | contiki/apps/antelope/lvm.c:165-219 | reading operands through the cursor returns the value of the arithmetic tree (truncating division) or its first error, and leaves the cursor at the end of the node |
| `LvmMachine.Lvm.EvalConditions` | contiki/apps/antelope/lvm.c:221-298 | all arguments of a connective are evaluated, up to the first error |
| `LvmMachine.Lvm.EvalLogic` | contiki/apps/antelope/lvm.c:221-298 | comparisons and connectives evaluate to the truth value of the tree, or the first error in prefix order, on arbitrary trees |
| `LvmMachine.Lvm.Execute` | contiki/apps/antelope/lvm.c:379-404 | running the bytecode of any tree returns its denotation or the first error; on success the cursor stands at exactly the end |
| `LvmMachine.Lvm.JumpToOperand` | contiki/apps/antelope/lvm.c:314-327 | reserves the cells of one operator; reports when the buffer is full |
| `LvmMachine.Lvm.ShiftForOperator` | contiki/apps/antelope/lvm.c:329-348 | moves exactly the code behind the insertion point by one node, keeps what is before it |
| `LvmMachine.Lvm.SetEnd` | contiki/apps/antelope/lvm.c:356-370 | moves the end of the code and returns the old one |
| `LvmDerive.CreateIntersection` | contiki/apps/antelope/lvm.c:496-537 | pointwise meet of two derivations, one-sided ranges kept |
| `LvmDerive.CreateUnion` | contiki/apps/antelope/lvm.c:539-580 | pointwise hull of two derivations; a range known on one side only is kept as it is |
| `LvmDerive.UnionIsHull` | contiki/apps/antelope/lvm.c:539-580 | an interval holds the range of a union iff it holds the ranges of both sides; where one side has a range, that is kept |
| `LvmDerive.DeriveRelation` | contiki/apps/antelope/lvm.c:582-684 | the second interpreter, run on the bytecode of any condition, computes the ranges of its tree, or reports an error exactly where the tree has none |
| `LvmDerive.DerivesMentioned` | contiki/apps/antelope/lvm.c:582-684 | derivation succeeds on AND/OR trees of variable/constant comparisons, for exactly the variables mentioned |
| `LvmDerive.SatisfyingInside` | contiki/apps/antelope/lvm.c:582-690 | soundness: every satisfying assignment lies in every derived interval, for variable-left trees whose ORs mention the same variables on both sides |
| `LvmDerive.ConjunctionExact` | contiki/apps/antelope/lvm.c:496-690 | for AND-only trees the derived box is exact: an assignment satisfies the tree iff it lies in the box |
| `LvmDerive.TrueInSomeBranch` | contiki/apps/antelope/lvm.c:221-298 | reference semantics: a condition on which derivation succeeds is true iff the assignment lies in one of the boxes of its disjunctive normal form |
| `LvmDerive.SoundIffBranchesCovered` | contiki/apps/antelope/lvm.c:582-690 | exactly when derivation is sound, for every condition on which it succeeds, comparisons of two constants included: iff every satisfiable box of the disjunctive normal form lies inside the derived ranges (a finite check) |
| `LvmDerive.ConstantLeftSoundIffEqual` | contiki/apps/antelope/lvm.c:644-676 | a comparison with its constant on the left derives a sound range iff the operator is = |
| `LvmDerive.OneSidedOrUnsound` | contiki/apps/antelope/lvm.c:547-552 | a concrete OR whose kept one-sided range excludes a satisfying assignment |
| `LvmDerive.ConstantsSoundIffFalse` | contiki/apps/antelope/lvm.c:632-676 | a comparison of two constants, whose second one is taken for a variable id, derives a sound range iff the comparison is false |
| `LvmDerive.ConstantComparisonUnsound` | contiki/apps/antelope/lvm.c:644-676 | a >= 5 AND 0 = 0 derives the range from 5 to 0 for a, which the satisfying value 7 does not lie in |
| `LostRows.CompilesToConstantComparison` | contiki/apps/antelope/aql-parser.c:350-447 | this condition is one that the parser compiles |
| `LostRows.RunByIndex` | contiki/apps/antelope/relation.c:630-845 | on an indexed column with 0, 5, 6, 7 the SELECT with this condition emits the row with 5 and loses those with 6 and 7 |
| `AqlParser.ExprTreeValue` | contiki/apps/antelope/aql-parser.c:290-347 | the tree compiled for an expression has the value of the expression |
| `AqlParser.TreeTruth` | contiki/apps/antelope/aql-parser.c:402-447 | the right-nested tree means what the WHERE chain means, errors included |
| `AqlParser.EncodeChain` | contiki/apps/antelope/aql-parser.c:402-447 | what has been compiled is, at every comparison, the front of the encoding of the whole tree |
| `AqlParser.Parser.InsertOperator` | contiki/apps/antelope/aql-parser.c:325-344 | shifting and writing puts the operator in front of the code behind the insertion point and keeps the code before it |
| `AqlParser.Parser.ParseExpr` | contiki/apps/antelope/aql-parser.c:290-347 | appends the prefix encoding of an operand, operand op operand, or operand op (E), and consumes exactly its tokens |
| `AqlParser.Parser.ParseComparison` | contiki/apps/antelope/aql-parser.c:350-399 | fills the reserved operator and appends the encoding of the comparison |
| `AqlParser.Parser.ParseLink` | contiki/apps/antelope/aql-parser.c:402-447 | one connective: put in front of the last comparison, everything before it kept |
| `AqlParser.Parser.ParseWhere` | contiki/apps/antelope/aql-parser.c:402-447 | in-place compilation leaves exactly the prefix encoding of the right-nested tree in the buffer; it returns 0, which is not an error, when any comparison behind a connective does not parse, wherever its parsing fails |
| `AqlParser.IsCutOff` | contiki/apps/antelope/aql-parser.c:436-440 | the queries a = 1 AND and a = 1 AND b are such chains |
| `AqlParser.CompileCutOff` | contiki/apps/antelope/aql-parser.c:436-440 | parsing either of them returns 0 |
| `AqlParser.CompileAndExecute` | contiki/apps/antelope/aql-parser.c:402-447 | compiler correctness: parsing a flat WHERE chain and executing the code yields the truth value of the chain under the current variables |
| `AqlMeaning.RunComparison` | contiki/apps/antelope/aql-parser.c:350-447 | from the tokens to the truth value: what each of the six comparison tokens means |
| `AqlMeaning.RunArithmetic` | contiki/apps/antelope/aql-parser.c:290-347 | from the tokens to the truth value: the sum, the difference, the product, the quotient rounded toward zero, and the error for a division by zero |
| `AqlMeaning.RunConnectives` | contiki/apps/antelope/aql-parser.c:402-447 | from the tokens to the truth value: two connectives, AND or OR, associate to the right |
| `InlineIndex.BinarySearch` | contiki/apps/antelope/index-inline.c:103-151 | finds the row of a key, or the neighbouring row, on a strictly increasing column whose first value is not above the key |
| `InlineIndex.SearchEndsIff` | contiki/apps/antelope/index-inline.c:103-144 | the search ends for every content of the row buffer, which is not initialised, iff some row is not above the target |
| `InlineIndex.WrapsAround` | contiki/apps/antelope/index-inline.c:130-144 | for a target below the first row the unsigned center - 1 wraps around, and the search goes on as long as the row buffer holds values above the target |
| `InlineIndex.InlineIterator.GetNext` | contiki/apps/antelope/index-inline.c:153-227 | the first call caches the row range, later calls walk it; a missing key appears as the invalid row because the error code is unsigned |
| `RowVisits.FollowIsScan` | contiki/apps/antelope/relation.c:734-845 | visiting rows in the order of an iterator gives the rows of the scan, as a multiset, if the iterator yields every contributing row once; extra ids do not matter |
| `RowVisits.ScanWindowIff` | contiki/apps/antelope/relation.c:734-845 | visiting a window of rows gives the result of the scan iff no row outside it contributes |
| `RelationSelect.Query.CompleteIff` | contiki/apps/antelope/relation.c:734-845 | the rows emitted from a window are those of the scan iff no row outside it matches |
| `RelationSelect.FragmentSound` | contiki/apps/antelope/relation.c:674-709 | conditions of the variable-left fragment may be run by index |
| `RelationSelect.MatchesInRange` | contiki/apps/antelope/relation.c:674-709 | a matching row lies in the range derived for any column that supplies a variable |
| `RelationSelect.IndexRefinesScan` | contiki/apps/antelope/relation.c:734-845 | visiting rows in any order that names every matching row once adds the rows of the unindexed run, as a multiset |
| `RelationSelect.RangeIndexRefinesScan` | contiki/apps/antelope/relation.c:630-709 | in particular any order that names every row of a derived range once |
| `RelationIndexed.RangeHasMatches` | contiki/apps/antelope/relation.c:674-709 | an iterator that yields every row of the range derived for a column yields every matching row |
| `RelationIndexed.IndexedSelect.Process` | contiki/apps/antelope/relation.c:734-845 | one call over the iterator of any index: the next row if it matches; at the end an error iff next_item_no is 0 then, even behind rows; and the end too for an id that names no row |
| `RelationIndexed.IndexedSelect.Run` | contiki/apps/antelope/relation.c:734-845 | over all calls the rows emitted are those of the ids yielded, and, for any index that yields every matching row, or every row of a soundly derived range, once, those of the scan as a multiset; the last result is an error iff next_item_no is 0 at the end of the ids |
| `RelationSelect.Select.SelectIndex` | contiki/apps/antelope/relation.c:630-672 | takes the last attribute with both an index and a derived range, iff there is one; the plan searches the range derived for its column |
| `RelationSelect.Select.LoadRow` | contiki/apps/antelope/relation.c:786-826 | sets the variables and the projected row of a tuple |
| `RelationSelect.Select.NextByIndex` | contiki/apps/antelope/relation.c:756-769 | the next row of the index; at the end, the window that has been visited is the one that the iterator has cached |
| `RelationSelect.Select.Process` | contiki/apps/antelope/relation.c:734-845 | for any condition: each call visits one more row and returns its projection iff the condition holds on it; where derivation is sound, the end is reported only when nothing left out could match |
| `RelationSelect.Select.Run` | contiki/apps/antelope/relation.c:734-845 | for any condition: the rows emitted are those of the rows visited, and all of the scan, in its order, iff no other row matches, which is so for every plan where derivation is sound |
| `ResultRows.RowValue` | contiki/apps/antelope/relation.c:786-826 | a row of the result has one value per projected attribute, in the order of the attributes |
| `ResultRows.ScanRows` | contiki/apps/antelope/relation.c:734-845 | the result has the matching rows in storage order, and nothing else |
| `ResultRows.EmittedValue` | contiki/apps/antelope/relation.c:734-845 | which stored value stands where in the result of a SELECT |
| `ResultRows.ErrorMatchesNothing` | contiki/apps/antelope/relation.c:828-840 | a row on which the condition raises an error is left out |
| `RelationJoin.Plan.OuterIsEquiJoin` | contiki/apps/antelope/relation.c:962-1056 | nested loops over an exact index are the equi-join by definition (all pairs with equal keys), as a multiset |
| `RelationJoin.Join.NextRight` | contiki/apps/antelope/relation.c:1013-1052 | one turn of the inner loop: the next index entry becomes a joined row, or an error if it names no row |
| `RelationJoin.Join.Process` | contiki/apps/antelope/relation.c:962-1056 | every call reports the next pending row of the nested loops and leaves exactly the others; DB_FINISHED iff none is pending |
| `RelationJoin.Join.Run` | contiki/apps/antelope/relation.c:962-1056 | over all calls exactly the rows of the nested loops are emitted, once each, then DB_FINISHED; with an exact index they are the equi-join |
| `ResultRows.JoinedValue` | contiki/apps/antelope/relation.c:1033-1042 | value i of a joined row is the one that entry i of the source map names in the left or in the right row |
| `ResultRows.EquiJoinIff` | contiki/apps/antelope/relation.c:962-1056 | the equi-join holds the joined rows of all pairs with equal keys, and no others |
| `HeapNodes.ChildrenPartition` | contiki/apps/antelope/index-maxheap.c:416-445 | the two children of a node part its range |
| `HeapNodes.HalvedShape` | contiki/apps/antelope/index-maxheap.c:416-445 | adding both halves of a used node keeps the shape: labels are dyadic ranges, used nodes are closed under parent and sibling |
| `HeapNodes.PathExact` | contiki/apps/antelope/index-maxheap.c:262-292 | the nodes found for a hash are exactly the used nodes above the last level whose label contains it |
| `HeapNodes.PathIsChain` | contiki/apps/antelope/index-maxheap.c:262-292 | they form one chain from the root, one per level, of at most eight nodes |
| `HeapFile.WalkStep` | contiki/apps/antelope/index-maxheap.c:237-256 | at every node that heap_insert meets, the range fits iff the node is an ancestor of the destination: the i++ walk stays in the right sibling pair |
| `HeapFile.NodeFile.Insert` | contiki/apps/antelope/index-maxheap.c:225-260 | inserting the range of node t writes node t, or reports that no node is left |
| `HeapFile.NodeFile.Find` | contiki/apps/antelope/index-maxheap.c:262-292 | the next node of the chain, or -1 at an empty node or at the last level |
| `HeapFile.NodeFile.Split` | contiki/apps/antelope/index-maxheap.c:416-445 | both children get their halves; fails iff they exist already |
| `HeapBuckets.PoolAppended` | contiki/apps/antelope/index-maxheap.c:394-414 | appending to one bucket adds one pair to all stored pairs |
| `HeapBuckets.BucketFile.Append` | contiki/apps/antelope/index-maxheap.c:394-414 | appends behind the pairs of the bucket; fails iff it is full |
| `HeapBuckets.BucketFile.Load` | contiki/apps/antelope/index-maxheap.c:351-392 | afterwards the cache holds the bucket, if the cache was up to date before |
| `MaxHeap.StoredOnPath` | contiki/apps/antelope/index-maxheap.c:447-492 | a pair is stored iff it is in the bucket of a node on the path of its hash |
| `MaxHeap.NoRoomIffPathFull` | contiki/apps/antelope/index-maxheap.c:471-482 | an insertion has no room iff the path of the hash has all eight nodes and every bucket on it is full |
| `MaxHeap.NodesAfterFit` | contiki/apps/antelope/index-maxheap.c:447-492 | shape and placement of all stored pairs survive the split of an insertion |
| `MaxHeap.InsertedFits` | contiki/apps/antelope/index-maxheap.c:447-492 | the bucket chosen has room and belongs to the hash of the pair |
| `MaxHeap.MaxHeap.InsertItem` | contiki/apps/antelope/index-maxheap.c:447-492 | succeeds iff there is room; appends the pair to one bucket and changes no other pair; the stored pairs stay exactly the pairs inserted |
| `MaxHeapLookup.FirstLookup` | contiki/apps/antelope/index-maxheap.c:668-743 | the first answer is a value stored under the key, and there is none iff the key was never inserted |
| `MaxHeapLookup.EverythingIffInOrder` | contiki/apps/antelope/index-maxheap.c:715-739 | because cache.start is not reset between buckets, repeated calls return every value stored under a key iff the slots of its pairs increase from each bucket to those above it |
| `MaxHeapLookup.SameKeyCompleteIff` | contiki/apps/antelope/index-maxheap.c:447-492 | after inserting values under one key into a new index, the lookup returns all of them iff they fit into one bucket |
| `MaxHeapLookup.FirstOverflow` | contiki/apps/antelope/index-maxheap.c:471-482 | the first value under one key that finds the bucket of the root full goes to slot 0 of its child |
| `MaxHeapLookup.Overflows` | contiki/apps/antelope/index-maxheap.c:447-492 | from then on the key is at slot 0 of the root and of that child |
| `MaxHeapLookup.Lookup.GetNext` | contiki/apps/antelope/index-maxheap.c:668-743 | each call takes the next value off those the iterator still yields for its key; the first call returns the invalid tuple iff the key was never inserted |
| `MaxHeapRange.RangeIterator.GetNext` | contiki/apps/antelope/index-maxheap.c:668-750 | a range of keys yields what its keys yield, one key after the other; at the end next_item_no is 0 iff the last key yields nothing, whatever was found before |
| `HeapIndex.StoredExactly` | contiki/apps/antelope/index-maxheap.c:668-743 | in an index that holds a pair for every row, the values on the path of a key are the rows that have the key, each once |
| `HeapIndex.IdsExactly` | contiki/apps/antelope/index-maxheap.c:668-743 | a lookup in such an index yields rows with the key, each once: all of them if the items are in order, and fewer otherwise |
| `HeapIndex.RangeExactly` | contiki/apps/antelope/index-maxheap.c:668-750 | a range of keys whose lookups are all complete yields the rows in the range, each once |
| `HeapQueries.SelectByKeyIff` | contiki/apps/antelope/relation.c:734-845 | a SELECT by equality over the max-heap emits the rows of the scan, as a multiset, iff the lookup of the key is complete |
| `HeapQueries.SelectEqualRowsIff` | contiki/apps/antelope/relation.c:734-845 | of up to 129 equal values inserted in order, such a SELECT emits all rows iff there are at most 128 |
| `HeapQueries.SelectByRange` | contiki/apps/antelope/relation.c:674-845 | if every key of a derived range is found completely, the max-heap is an index as IndexedSelect.Run needs it |
| `HeapQueries.JoinIff` | contiki/apps/antelope/relation.c:962-1056 | a join over the max-heap is the equi-join iff for every left row the lookup of its value is complete |
| `Deluge.FirstMissing` | contiki/apps/deluge/deluge.c:225-237 | the first page that is not complete |
| `Deluge.HandleSummary` | contiki/apps/deluge/deluge.c:290-344 | changes no object state; arms the receive timer only for a neighbour with more pages of the update |
| `Deluge.HandleRequest` | contiki/apps/deluge/deluge.c:397-428 | changes only what is to be transmitted, and only for the node's own version and an existing page |
| `Deluge.HandlePacket` | contiki/apps/deluge/deluge.c:430-497 | changes the object only for a packet of the current page, at its version |
| `Deluge.HandleProfile` | contiki/apps/deluge/deluge.c:523-579 | ignores profiles that are not newer than the update; otherwise drops the pages that are older |
| `DelugeNode.Node.HighestAvailablePage` | contiki/apps/deluge/deluge.c:225-237 | the loop returns the number of the first page that is not complete |
| `DelugeNode.Node.OnRxTimer` | contiki/apps/deluge/deluge.c:239-266 | requests the missing packets of the current page; gives up after CONST_LAMBDA requests |
| `DelugeNode.Node.OnSummaryTimer` | contiki/apps/deluge/deluge.c:268-288 | advertises the update version and the first missing page, unless suppressed |
| `DelugeNode.Node.OnSummary` | contiki/apps/deluge/deluge.c:290-344 | the handler in place is the state function of the protocol |
| `DelugeNode.Node.SendPage` | contiki/apps/deluge/deluge.c:346-373 | sends exactly the packets asked for |
| `DelugeNode.Node.OnTxTimer` | contiki/apps/deluge/deluge.c:375-395 | sends the page and returns to the maintenance mode |
| `DelugeNode.Node.OnRequest` | contiki/apps/deluge/deluge.c:397-428 | the handler in place is the state function of the protocol |
| `DelugeNode.Node.OnPacket` | contiki/apps/deluge/deluge.c:430-497 | the handler in place is the state function of the protocol |
| `DelugeNode.Node.OnProfileTimer` | contiki/apps/deluge/deluge.c:499-521 | sends the version vector if a neighbour was behind |
| `DelugeNode.Node.OnProfile` | contiki/apps/deluge/deluge.c:523-579 | the handler in place, with its reallocated page table, is the state function of the protocol |
| `Deluge.LongEnoughIff` | contiki/apps/deluge/deluge.c:606-609 | a profile as it is sent, cut to the packet buffer, passes the length test of the dispatcher iff it has no pages, or its first page has version 0, or that has version 1 and the profile has not been cut |
| `Deluge.StartsUpdateIff` | contiki/apps/deluge/deluge.c:523-609 | a profile starts an update iff it is newer than the update and passes that test |
| `DelugeNode.Node.OnMessage` | contiki/apps/deluge/deluge.c:581-614 | the dispatcher in place is the state function of the protocol |
| `DelugeRounds.AnswersExactly` | contiki/apps/deluge/deluge.c:239-428 | a request is answered with exactly the packets that the node asking does not hold, and those of the page that were still to be sent; or, where the version or the page does not fit, not at all |
| `DelugeRounds.TwoRequests` | contiki/apps/deluge/deluge.c:258-265 | after two requests in a row without a page the node falls silent |
| `DelugeRounds.RoundHeard` | contiki/apps/deluge/deluge.c:290-344 | what a node makes of any summaries of a round: inconsistent iff one differed from its own, the profile due iff one was older, the receive timer running iff one offered a page |
| `DelugeRounds.RoundSends` | contiki/apps/deluge/deluge.c:268-288 | in a round the summary is sent iff the same one has not been heard, and the profile iff besides an older version has been heard |
| `DelugeRounds.OtherVersionHeard` | contiki/apps/deluge/deluge.c:406-408 | a request or a packet of another version makes the round inconsistent |
| `DelugeRounds.PageDone` | contiki/apps/deluge/deluge.c:459-491 | after a page the node returns to maintenance; coming from the receive mode it does not ask for the next page by itself |
| `DelugeRounds.ProfileTable` | contiki/apps/deluge/deluge.c:542-579 | which pages a profile keeps, drops, begins anew and adds |
| `DelugeRuns.Effect` | contiki/apps/deluge/deluge.c:239-579 | an event makes a node take a packet, starts an update, or changes only what it is to transmit |
| `DelugeShape.Network.PacketTaken` | contiki/apps/deluge/deluge.c:451-491 | a wanted packet belongs to the current page; the pages below stay complete, and the version changes only with the last page |
| `DelugeShape.Network.StepKeeps` | contiki/apps/deluge/deluge.c:239-614 | every event, with damaged packets too, keeps the versions and page tables of all nodes: a node stays at its first version, or goes from version 0 to version 1 page by page |
| `DelugeShape.Network.RunKeeps` | contiki/apps/deluge/deluge.c:239-614 | so does every run, under loss, duplication, delay, reordering, damage and relaying |
| `DelugeShape.Network.SentOk` | contiki/apps/deluge/deluge.c:239-521 | packets are sent of version 1 only and of pages below 128 only; a profile of version 1 or more has that version for every page |
| `DelugeShape.Network.PhaseUpright` | contiki/apps/deluge/deluge.c:459-475 | in every phase the version is that of all pages, or the pages below the current one are complete |
| `DelugeAgreement.Dissemination.TakenBytes` | contiki/apps/deluge/deluge.c:451-479 | the page that a packet completes has the right bytes iff, for every packet number, the last wanted packet had the right checksum |
| `DelugeAgreement.Dissemination.WrongStays` | contiki/apps/deluge/deluge.c:523-609 | a page that is complete with wrong bytes stays so: no profile can replace it |
| `DelugeAgreement.Dissemination.AgreesIffClean` | contiki/apps/deluge/deluge.c:239-614 | for any starting versions and any run with damaged packets: all complete pages of all nodes have the right bytes iff every page was completed when, for every packet number, the last wanted packet had the right checksum |
| `DelugeAgreement.Agreement` | contiki/apps/deluge/deluge.c:239-614 | for any starting versions, in every run without damage, a page complete at a version has that version's bytes; pages below current_rx_page are complete; the version flips only when every page is complete |
| `DelugeAgreement.OnlyOneUpdate` | contiki/apps/deluge/deluge.c:523-609 | in every run the only update that ever starts is that of a node with version 0 to version 1, and only if some node starts with version 1 and the profile fits into the packet buffer |
| `DelugeSpread.Fetch` | contiki/apps/deluge/deluge.c:239-428 | whatever packets of the current page a node holds, it asks for the others, and the neighbour sends them |
| `DelugeSpread.LossRepaired` | contiki/apps/deluge/deluge.c:239-497 | from every world that the invariant allows, with every message lost, a node that is receiving gets the rest from a node that has all pages |
| `DelugeSpread.CanAlwaysFinish` | contiki/apps/deluge/deluge.c:239-614 | so does every node with version 0, if some node started with version 1 |
| `DelugeSpread.AnyRunCanFinish` | contiki/apps/deluge/deluge.c:239-614 | hence after any run, with loss and damage, the update can still be completed |
| `DelugeSpread.GetsIff` | contiki/apps/deluge/deluge.c:239-614 | some run gives a node all of a version iff it starts with that version, or it starts with version 0, the version is 1, some node starts with it, and there are at most min(128, PACKETBUF_SIZE - 4) pages: current_tx_page has seven bits and a sign, and a longer profile is cut |
| `DelugeSpread.DamagedRun` | contiki/apps/deluge/deluge.c:451-479 | a run with versions 0 and 1, and a profile that fits into the packet buffer, that completes a page with the bytes of a packet whose checksum was wrong |
| `DelugeSpread.DamageHarmlessIff` | contiki/apps/deluge/deluge.c:239-614 | if the checksum can show damage to a packet of version 1 at all, then agreement holds in every run with damaged packets iff the versions 0 and 1 do not meet or the profile is too long for the packet buffer |
| `DelugeGrowth.GrowthNeverComplete` | contiki/apps/deluge/deluge.c:523-579 | in no run, of any kind and with any numbers of pages, does a node that starts with version 0 and fewer pages come to have all pages of an update at its version |
| `DelugeGrowth.TakesItselfForComplete` | contiki/apps/deluge/deluge.c:411-479 | but there is a run in which such a node takes the version of the update: its added page is still of version 0, and was served by another node from behind the end of its file |
| `DelugeAgreement.Progress` | contiki/apps/deluge/deluge.c:451-491 | no event loses a packet of the new version; each packet newly accepted adds exactly one |
| `CoapOptions.HeaderUnique` | contiki/apps/er-coap/er-coap.c:97-131 | an option header determines delta and length |
| `CoapOptions.EncodeUnique` | contiki/apps/er-coap/er-coap.c:483-517 | the bytes behind a token have at most one reading as options and payload; no option begins like a payload marker |
| `CoapText.SplitMerged` | contiki/apps/er-coap/er-coap.c:171-237 | what the receiver merges from a split string: all of it, or one byte less or more when the loop steps over the end |
| `CoapText.KeptIff` | contiki/apps/er-coap/er-coap.c:171-237 | a path or query survives splitting and merging iff it has no separator in front and an even number of them at the end |
| `CoapText.MergeIsJoin` | contiki/apps/er-coap/er-coap.c:218-237 | merging repeated options is joining them with the separator, except that empty ones in front get lost |
| `CoapFields.IntRoundTrip` | contiki/apps/er-coap/er-coap.c:84-94 | integer options are read as they were written |
| `CoapFields.BlockRoundTrip` | contiki/apps/er-coap/er-coap.c:636-643 | a block option is read as it was set iff its size is a power of two; the offset computed is number times size |
| `CoapNumbers.SegmentsSent` | contiki/apps/er-coap/er-coap.c:367-378 | segments that are not empty are sent one by one: those of 8 and 11 are separated by a slash, those of 15 and 20 by an ampersand |
| `CoapNumbers.SegmentsReceived` | contiki/apps/er-coap/er-coap.c:598-630 | and received values are joined by the same separators |
| `CoapNumbers.SentAs` | contiki/apps/er-coap/er-coap.c:352-390 | what every other option number carries when it is sent |
| `CoapNumbers.BlockSent` | contiki/apps/er-coap/er-coap.c:133-169 | the bits of a block option: size, more, number |
| `CoapNumbers.ReceivedAs` | contiki/apps/er-coap/er-coap.c:524-673 | what every option number gives when it is received: the field, cut or read as a number, the refusal of proxy options and of unknown critical ones, nothing for unknown elective ones |
| `CoapNumbers.ParseIntIs` | contiki/apps/er-coap/er-coap.c:84-94 | bytes are read big-endian, modulo 2^32 |
| `CoapMessage.ReadAll` | contiki/apps/er-coap/er-coap.c:483-676 | the receiver reads every field that was set, up to the first proxy option, which is refused |
| `CoapMessage.RoundTripIff` | contiki/apps/er-coap/er-coap.c:308-419 | the receiver reads exactly the fields set iff no proxy option is among them, block sizes are powers of two, and all paths and queries survive |
| `CoapSerialize.SetOptionHeader` | contiki/apps/er-coap/er-coap.c:109-131 | writes the header of an option in place |
| `CoapWire.HeaderFormat` | contiki/apps/er-coap/er-coap.c:97-131 | the bytes of an option header are those of section 3.1 of RFC 7252 |
| `CoapWire.OptionFormat` | contiki/apps/er-coap/er-coap.c:109-131 | the options stand one behind the other, each with the difference to the number before it |
| `CoapWire.MessageFormat` | contiki/apps/er-coap/er-coap.c:308-345 | the bytes of a message are those of section 3 of RFC 7252: version, type, token length, code, id, token, options, and a payload behind 0xFF |
| `CoapSerialize.SerializeInt` | contiki/apps/er-coap/er-coap.c:133-169 | writes an integer option without leading zero bytes |
| `CoapSerialize.SerializeSplit` | contiki/apps/er-coap/er-coap.c:171-216 | writes one option per segment of a string |
| `CoapSend.CoapLog2` | contiki/apps/er-coap/er-coap.c:71-82 | the binary logarithm, rounded down |
| `CoapSend.SerializeNumber` | contiki/apps/er-coap/er-coap.h:141-175 | one line of the list of macros writes the options of its field, if it is set |
| `CoapSend.Serialize` | contiki/apps/er-coap/er-coap.c:308-419 | leaves the header, token, options in increasing order and payload in the buffer; 0 iff the header is too long; four bytes for an empty message |
| `CoapParse.Receiver.MergeMulti` | contiki/apps/er-coap/er-coap.c:218-237 | in-place merging: the string grows by separator and value; nothing before it and nothing behind the option changes |
| `CoapParse.Receiver.ReadHeader` | contiki/apps/er-coap/er-coap.c:499-517 | reads back the delta and the length of a header |
| `CoapParse.Receiver.StoreOption` | contiki/apps/er-coap/er-coap.c:524-673 | the switch: each option updates its field as the option list says; unknown critical options and proxy options are refused |
| `CoapParse.Receiver.ReadOption` | contiki/apps/er-coap/er-coap.c:483-676 | one turn of the loop; the rest of the message is still as it was sent |
| `CoapParse.Receiver.Parse` | contiki/apps/er-coap/er-coap.c:438-680 | for every option list: the fields, options, token and payload of the message, or the status of the first option refused; repeated options are merged inside the buffer |
| `CoapRoundTrip.Transfer` | contiki/apps/er-coap/er-coap.c:308-680 | whole-message round trip through one buffer: everything arrives unchanged iff every field is one that arrives |
| `CoapBlockwise.Response.SetBlock2` | contiki/apps/er-coap/er-coap.c:1060-1081 | accepts block sizes from 16 to 2048 and 20-bit block numbers, and nothing else |
| `CoapBlockwise.Response.Blockwise` | contiki/apps/er-coap/er-coap-engine.c:141-206 | slices the payload of a resource unaware of blocks, refuses blocks behind it with 4.02, and passes on the blocks of an aware one; 5.01 for a Block1 request that the resource ignores |
| `CoapBlockwise.FetchUnaware` | contiki/apps/er-coap/er-coap-engine.c:125-177 | fetching block 0, 1, 2, ... until more is clear gives the payload of an unaware resource, for every power-of-two size up to the maximum |
| `CoapBlockwise.ServeUnaware` | contiki/apps/er-coap/er-coap-engine.c:155-177 | the block served is the slice at number times size, and any later block gets 4.02 |
| `CoapBlockwise.FetchListing` | contiki/apps/er-coap/er-coap-engine.c:180-192 | fetching the generated resource listing block by block through the engine gives the whole listing |
| `WellKnownCore.WindowString` | contiki/apps/er-coap/er-coap-res-well-known-core.c:60-74 | extending the text by a string extends its window by the visible part, cut at the window size |
| `WellKnownCore.AddString` | contiki/apps/er-coap/er-coap-res-well-known-core.c:60-74 | after the macro the buffer holds the window of the extended text, or the window is full |
| `WellKnownCore.AddLink` | contiki/apps/er-coap/er-coap-res-well-known-core.c:162-182 | one resource: either the window of the text with its link, or a break that leaves the window full and the link not complete |
| `WellKnownCore.Handler` | contiki/apps/er-coap/er-coap-res-well-known-core.c:79-204 | the first bytes of the buffer are the slice [offset, offset + size) of the listing; the new offset is -1 iff the slice reaches the end; 4.02 iff the offset lies behind a non-empty listing |
| `WellKnownCore.FetchAll` | contiki/apps/er-coap/er-coap-res-well-known-core.c:79-204 | asking for one window after the other reproduces the listing |
| `LinkReader.ListingRead` | contiki/apps/er-coap/er-coap-res-well-known-core.c:116-183 | a reader of the link format gets back the urls and attributes of all resources, in order, if no url has a > and no attribute a comma |
| `JsonPrinter.Context.CollectDigits` | contiki/apps/json/jsontree.c:82-101 | the digits collected from the right are the decimal notation |
| `JsonPrinter.Context.WriteInt` | contiki/apps/json/jsontree.c:82-101 | writes the decimal notation of an int |
| `JsonPrinter.Context.WriteString` | contiki/apps/json/jsontree.c:66-79 | writes the string in quotes, with a backslash before each quote and nothing else escaped |
| `JsonPrinter.Context.PrintNext` | contiki/apps/json/jsontree.c:130-213 | each call prints the next piece of the text and leaves exactly the rest; it returns 0 iff nothing is left |
| `JsonPrinter.Context.Print` | contiki/apps/json/jsontree.c:130-213 | the step machine terminates and outputs the recursive rendering, in one call per leaf and n + 1 per container of n members |
| `JsonRoundTrip.ScanString` | contiki/apps/json/jsonparse.c:66-72 | the parser finds the closing quote of a printed string iff backslashes come in pairs before quotes and the end |
| `JsonRoundTrip.NumberToken` | contiki/apps/json/jsonparse.c:73-85 | a printed int is read as a number token with its digits iff it is not negative |
| `JsonRoundTrip.ReadUnclosed` | contiki/apps/json/jsonparse.c:126-160 | a pair whose value is or ends with an empty container is not closed: the next comma or brace is an error |
| `JsonRoundTrip.ReadValue` | contiki/apps/json/jsonparse.c:110-186 | the text of a value gives exactly its pre-order tokens iff the tree is fine; then the stack is as before, and its largest depth is the need of the tree |
| `JsonRoundTrip.ReadMembers` | contiki/apps/json/jsonparse.c:110-186 | the same for the members of a container from any one on |
| `JsonRoundTrip.RoundTripIff` | contiki/apps/json/jsonparse.c:100-186 | parsing the printed text yields exactly the tokens of the tree iff the root is an object and the tree is fine; then no error is raised, the stack is empty and the text is used up |
| `JsonSpacing.WhiteInFront` | contiki/apps/json/jsonparse.c:88-98 | white space in front of a token does not matter |
| `JsonSpacing.SkippedIsWhite` | contiki/apps/json/jsonparse.c:88-98 | what is skipped is spaces and newlines, all of them, and nothing else |
| `JsonSpacing.SpacedRoundTripIff` | contiki/apps/json/jsonparse.c:110-186 | the same for the tokens of a tree with any white space between them and behind them; the printed text is one such text |
| `JsonSpacing.Refusals` | contiki/apps/json/jsonparse.c:122-186 | which error a token raises, by its first character and what is open |
| `JsonValues.DecimalValue` | contiki/apps/json/jsontree.c:82-101 | a printed int has the value of the int |
| `JsonValues.EscapeUndone` | contiki/apps/json/jsontree.c:66-79 | a printed string determines the string, and its slice is the string itself iff that has no quote |
| `JsonRoundTrip.RenderNoNul` | contiki/apps/json/jsontree.c:130-213 | printed text holds no NUL and ends with the bracket of the root |
| `JsonParser.Parser.SkipSpace` | contiki/apps/json/jsonparse.c:88-98 | the loop skips what the machine skips: see JsonSpacing.SkippedIsWhite |
| `JsonParser.Parser.ScanString` | contiki/apps/json/jsonparse.c:66-72 | the loop stops behind the first quote that is not escaped |
| `JsonParser.Parser.NextToken` | contiki/apps/json/jsonparse.c:110-186 | the step on positions, array stack and value slice is the step of the machine |
| `JsonParser.Parser.ReadAll` | contiki/apps/json/jsonparse.c:110-186 | the client loop on the tokens of a fine tree, with any white space between them, returns the tokens with their slices, no error, and an empty stack |
| `Checksum.SumModulo` | contiki/tools/tunslip.c:342-361 | ip4sum is the ones'-complement sum: congruent to the sum of the words modulo 65535, and zero iff everything is zero |
| `Checksum.SumInPieces` | contiki/tools/tunslip.c:342-361 | the sum of a whole is the sum of its parts in turn, for prefixes of even length |
| `Checksum.Ip4Sum` | contiki/tools/tunslip.c:342-361 | the loop computes the ones'-complement sum |
| `Checksum.CheckIp` | contiki/tools/tunslip.c:363-412 | check_ip on a buffer, with each of its error codes, for packets of any length, also when the header is longer than the packet and the length of the rest wraps around |
| `Checksum.CheckBody` | contiki/tools/tunslip.c:384-411 | the part behind the header, for TCP, UDP and ICMP |
| `PacketCheck.CheckMeans` | contiki/tools/tunslip.c:363-412 | the code of the check in terms of the bytes: version, length, the bytes of the header added up, those behind it with the addresses, protocol and length |
| `Checksum.Compensates` | contiki/tools/tunslip.c:643-649 | adding the complement of the identification in host order, little or big endian, keeps the two words together unchanged modulo 65535 |
| `Checksum.UpdateKeepsAcceptance` | contiki/tools/tunslip.c:642-655 | an accepted packet, of any length, is still accepted after the update iff a header of eight bytes gets the identification 0 or 0xffff, and, for a packet that ends in front of the end of the checksum field, the words summed behind the header change by a multiple of 65535 |
| `Checksum.KeptIff` | contiki/tools/tunslip.c:642-655 | for packets of at least 12 bytes that means: iff its header length is not 8 bytes or the identification is 0 or 0xffff |
| `Checksum.CutWords` | contiki/tools/tunslip.c:643-649 | what the update adds to the words of a packet that is cut short: nothing, one byte or both of the identification, and the change of the first byte of the checksum |
| `Checksum.ShortRefused` | contiki/tools/tunslip.c:642-655 | a packet with a header of eight bytes that is accepted, is given an identification on a little-endian host, and is refused then unless that is 0 or 0xffff |
| `Checksum.CutRefused` | contiki/tools/tunslip.c:642-655 | an ICMP packet of ten bytes that is accepted, is given an identification on a little-endian host, and is accepted then iff that is 0 or 0xffff |
| `Checksum.PrepareForSerial` | contiki/tools/tunslip.c:633-655 | the check, the conditional update and the second check on a buffer |
| `Checksum.ComplementAccepted` | contiki/tools/tunslip.c:320-327 | storing the complement of the sum in a zero field makes the checked sum acceptable |
| `Checksum.FillIn` | contiki/tools/tunslip.c:301-327 | a packet filled in by relay_dhcp_to_client passes check_ip, with a UDP checksum that is not disabled |
| `LvmMachine.Lvm.EvalArgument` | contiki/apps/antelope/lvm.c:175-198 | an operand or a nested arithmetic node through the cursor: its value, or the error of a node of another type |
| `LvmMachine.Lvm.EvalOperands` | contiki/apps/antelope/lvm.c:173-198 | both operands in order, or the first error |
| `LvmMachine.Lvm.EvalCondition` | contiki/apps/antelope/lvm.c:236-252 | one argument of a connective: its truth value, or the error |
| `LvmMachine.Lvm.SetOperator` | contiki/apps/antelope/lvm.c:406-420 | writes an operator node at the end of the code, everything before it kept |
| `LvmMachine.Lvm.SetOperand` | contiki/apps/antelope/lvm.c:422-428 | writes an operand node at the end of the code, everything before it kept |
| `LvmDerive.ReadOperands` | contiki/apps/antelope/lvm.c:622-631 | reads both operands of a comparison; fails iff one of them is not an operand node |
| `LvmDerive.DeriveLeaf` | contiki/apps/antelope/lvm.c:622-684 | the range of one comparison, or the error, as the tree has it |
| `LvmDerive.DeriveConnective` | contiki/apps/antelope/lvm.c:589-620 | both sides derived and combined, or the error of the first side that has one |
| `LvmDerive.CapAllExact` | contiki/apps/antelope/lvm.c:496-537 | intersecting all pairs of boxes is conjunction |
| `AqlParser.Parser.Next` | contiki/apps/antelope/aql-lexer.c:244-268 | the next token, and the position to go back to |
| `AqlParser.Parser.ParseOperand` | contiki/apps/antelope/aql-parser.c:267-288 | appends the operand node of a token; refuses other tokens |
| `AqlParser.Parser.ParseRight` | contiki/apps/antelope/aql-parser.c:321-323 | an operand or a parenthesised expression behind an operator |
| `AqlParser.Parser.ParseOperation` | contiki/apps/antelope/aql-parser.c:311-345 | one turn of the loop: the operator goes in front of the first operand |
| `AqlParser.Parser.FillReserved` | contiki/apps/antelope/aql-parser.c:360-390 | writes the comparison operator into the cells reserved for it and returns to the end |
| `AqlParser.Parser.ParseLeft` | contiki/apps/antelope/aql-parser.c:350-390 | the left side and the operator of a comparison |
| `AqlParser.Parser.Connect` | contiki/apps/antelope/aql-parser.c:424-426 | the connective goes in front of the last comparison, the front of the code is kept |
| `AqlParser.Parser.ParseOperations` | contiki/apps/antelope/aql-parser.c:311-345 | the loop: all operations of an expression |
| `AqlParser.Parser.ParseNext` | contiki/apps/antelope/aql-parser.c:412-442 | the same round as a step along a chain; 0 where the chain is cut off |
| `AqlParser.Parser.ParseLinks` | contiki/apps/antelope/aql-parser.c:412-442 | all connectives of a chain |
| `InlineIndex.InlineIterator.Open` | contiki/apps/antelope/index.c:243-299 | opens the iterator; the rows cached by an earlier search stay |
| `RelationSelect.Select.Consider` | contiki/apps/antelope/relation.c:643-663 | one attribute: taken iff it has an index and a derived range |
| `RelationSelect.Select.Prepare` | contiki/apps/antelope/relation.c:674-709 | derives the ranges and chooses the plan: the last usable index, or none; nothing has been visited yet |
| `RelationSelect.Select.CheckRow` | contiki/apps/antelope/relation.c:786-840 | a row is returned iff the condition holds on it |
| `RelationSelect.Select.NextRow` | contiki/apps/antelope/relation.c:756-784 | the next row of either plan; at the end, the plan has visited all rows that it visits |
| `RelationJoin.Join.NextLeft` | contiki/apps/antelope/relation.c:984-1008 | loads a left row and opens the iterator on its value, or reports the end |
| `RelationJoin.Join.Combine` | contiki/apps/antelope/relation.c:1033-1042 | the joined row has the attributes that the source map names, in order |
| `RelationJoin.Join.Collect` | contiki/apps/antelope/relation.c:962-1056 | the client loop collects the rows of the nested loops in order and ends where it began |
| `HeapNodes.Range` | contiki/apps/antelope/index-maxheap.c:416-445 | the dyadic range of a node has the width of its level |
| `HeapBuckets.BucketFile.Read` | contiki/apps/antelope/index-maxheap.c:330-349 | the used part of a bucket is read, the rest of the cache kept |
| `HeapBuckets.BucketFile.FirstBlank` | contiki/apps/antelope/index-maxheap.c:378-386 | the first blank pair |
| `MaxHeap.MaxHeap.constructor` | contiki/apps/antelope/index-maxheap.c:494-585 | a new index has the root node and no pairs |
| `MaxHeap.AfterInserts` | contiki/apps/antelope/index-maxheap.c:447-492 | shape and placement hold after every sequence of insertions |
| `MaxHeap.MaxHeap.FindDeepest` | contiki/apps/antelope/index-maxheap.c:454-461 | iterated heap_find ends at the deepest node of the path |
| `MaxHeap.MaxHeap.MakeRoom` | contiki/apps/antelope/index-maxheap.c:471-482 | splits a full bucket and finds the child for the hash, or fails |
| `MaxHeapLookup.RestComplete` | contiki/apps/antelope/index-maxheap.c:715-739 | the lookup never returns more than what is stored, and all of it iff the items are in order |
| `MaxHeapLookup.Lookup.Descend` | contiki/apps/antelope/index-maxheap.c:691-707 | notes down the whole path, which fits into the cache |
| `MaxHeapLookup.Lookup.SearchBucket` | contiki/apps/antelope/index-maxheap.c:727-738 | the next item of a bucket, or on to the bucket above |
| `Deluge.Transition` | contiki/apps/deluge/deluge.c:103-121 | stops the timers of the mode that is left, those and no others |
| `Deluge.WritePage` | contiki/apps/deluge/deluge.c:123-134 | the page is stored, the other pages are kept |
| `DelugeNode.Node.ChangeMode` | contiki/apps/deluge/deluge.c:103-121 | the method in place is the state function |
| `DelugeNode.Node.StorePacket` | contiki/apps/deluge/deluge.c:452-478 | the buffer, the packet set, the file and the version after a wanted packet |
| `DelugeNode.Node.StartRound` | contiki/apps/deluge/deluge.c:661-684 | a round resets the counters and arms the timers |
| `DelugeNode.Node.NewTable` | contiki/apps/deluge/deluge.c:542-569 | the reallocated table drops exactly the pages that are older than the profile |
| `CoapParse.Receiver.MoveDown` | contiki/apps/er-coap/er-coap.c:230-231 | memmove to a lower address |
| `CoapParse.Receiver.ReadExtension` | contiki/apps/er-coap/er-coap.c:503-517 | one turn of the loop over delta and length |
| `CoapParse.Receiver.ParseIntOption` | contiki/apps/er-coap/er-coap.c:84-94 | the loop reads the big-endian value modulo 2^32 |
| `CoapParse.Receiver.StoreSimple` | contiki/apps/er-coap/er-coap.c:524-673 | integers, flags and byte options update their field as the option list says |
| `CoapParse.Receiver.StoreText` | contiki/apps/er-coap/er-coap.c:588-630 | a string option: stored, or merged onto the string before it; all other strings are kept |
| `CoapParse.Receiver.ReadPayload` | contiki/apps/er-coap/er-coap.c:484-497 | the payload, cut to the chunk size, with a zero byte behind it |
| `CoapSerialize.SerializeBytes` | contiki/apps/er-coap/er-coap.c:204-212 | writes one option with its value |
| `CoapSend.SerializeField` | contiki/apps/er-coap/er-coap.h:134-173 | the macro for the kind of the option writes all options of the field |
| `CoapBlockwise.MaxBlockSize` | contiki/apps/er-coap/er-coap.h:57-66 | the largest power of two from 16 to 2048 that fits into a chunk |
| `CoapBlockwise.ServeListing` | contiki/apps/er-coap/er-coap-engine.c:180-192 | the block served is the window of the listing at number times size; more is set iff the listing goes on |
| `WellKnownCore.AddChar` | contiki/apps/er-coap/er-coap-res-well-known-core.c:54-58 | after the macro the buffer holds the window of the extended text |
| `WellKnownCore.Snprintf` | contiki/apps/er-coap/er-coap-res-well-known-core.c:63-68 | writes what fits and returns the length of all of it |
| `WellKnownCore.Generate` | contiki/apps/er-coap/er-coap-res-well-known-core.c:116-183 | the loop: the window of the whole listing, and a break iff the listing goes on behind it |
| `JsonPrinter.Context.constructor` | contiki/apps/json/jsontree.c:103-118 | the whole text and all calls are still to come |
| `JsonPrinter.Context.Descend` | contiki/apps/json/jsontree.c:145-174 | prints what stands before a member and steps down; nothing of the rest is lost |
| `JsonPrinter.Context.WriteEnd` | contiki/apps/json/jsontree.c:150-183 | prints a leaf or the end of a container, with its start if it is empty |
| `JsonPrinter.Context.Ascend` | contiki/apps/json/jsontree.c:206-211 | steps up behind the member that is done |
| `JsonParser.Parser.PushChar` | contiki/apps/json/jsonparse.c:37-44 | push |
| `JsonParser.Parser.PopChar` | contiki/apps/json/jsonparse.c:45-54 | pop; nothing happens on an empty stack |
| `JsonParser.Parser.ScanNumber` | contiki/apps/json/jsonparse.c:73-81 | the loop stops behind the digits and points |
| `JsonParser.Parser.ReadAtomic` | contiki/apps/json/jsonparse.c:58-87 | the slice of a string, name or number, and the position behind it |
| `JsonParser.Parser.DispatchOn` | contiki/apps/json/jsonparse.c:122-185 | the switch on a character is that of the machine |
| `JsonParser.Parser.Collect` | contiki/apps/json/jsonparse.c:110-186 | the client loop on a text that is read without an error |
| `JsonRoundTrip.StringToken` | contiki/apps/json/jsonparse.c:161-168 | a printed string is read as its token iff it is clean |
| `Checksum.SetId` | contiki/tools/tunslip.c:643-649 | the two fields are rewritten as stated |
| `Checksum.FillHeaderSum` | contiki/tools/tunslip.c:320-320 | the header sum becomes acceptable, nothing else changes |
| `Checksum.FillUdpSum` | contiki/tools/tunslip.c:321-327 | the UDP sum becomes acceptable and the field is not zero, nothing else changes |
| `AqlParser.Parser.Rewind` | contiki/apps/antelope/aql-lexer.c:270-274 | goes back by one token |

## Left out

- Contiki's network stack, timers, random numbers, file systems and process scheduling: timers and messages are events in any order, storage is a sequence or an array, hash and checksum functions (`transform_key`, `crc16_data`) are arbitrary.
- Antelope's lexer, its names and its other statements (INSERT, REMOVE, CREATE, aggregation), storage errors, and writing a SELECT or JOIN result to a relation.
- LogicVM operands of type STRING and FLOAT, chained arithmetic without parentheses, and parenthesised conditions: the last two are parsed by the modelled code, but nothing is proved about the bytecode it leaves then.
- LogicVM bytecode is modelled in cells, one for a node type and one for an operator or operand, not in bytes; arithmetic is unbounded; a constant read through the variable member of the operand union is its low byte.
- AqlParser.Parser.ParseWhere: requires a code buffer with room for one node per token; what the code does to a buffer that is too small is not modelled.
- AqlParser.CompileAndExecute: the tokens are those of a flat chain of comparisons whose sides are an operand, operand op operand, or operand op (E).
- InlineIndex.BinarySearch: requires a row that is not above the target, and so a column that is not empty, because the search need not end otherwise (SearchEndsIff); what it returns if it ends then depends on memory that is not initialised.
- RelationSelect.Select.Prepare: requires that no range derived for an indexed column begins below the column, and that an indexed relation has rows, for the same reason.
- LvmDerive.SoundIffBranchesCovered: constants lie strictly between the ends of the type long, because those at the ends make the code add 1 to LONG_MAX or take 1 from LONG_MIN.
- RelationSelect: the variables hold the values of the columns as the LogicVM loads them (an INT column as 16 bits without a sign), without names.
- RelationIndexed.IndexedSelect.Run: the ids that the iterator yields, and whether `next_item_no` is 0 behind them, are given; HeapIndex has them for the max-heap, and those of the memory-hash index are not modelled.
- RelationJoin.Join.Run: requires an index that yields each matching right row once; the join itself does not compare keys again.
- MaxHeapLookup.Lookup.GetNext: requires the bucket cache to be up to date, as it is when no pair is inserted after the first lookup; the iterator must be the one used last, unless it starts; reloading the heap after a restart is not modelled.
- MaxHeapRange.RangeIterator.GetNext: the search for the next key gets an iterator of its own, where the code sets the fields of the one it has; the bounds of a range are keys of 16 bits, the lower one not above the upper one.
- HeapQueries.JoinIff: the left values and the values of an indexed column are keys of 16 bits, and an indexed relation has at most 65536 rows.
- HeapQueries.SelectByRange: has no converse, because a range may be wider than the rows that match, so that a lookup may miss some of it without harm.
- Deluge object ids (never compared), page times (an arbitrary outcome of the time comparison), and intervals between rounds.
- Deluge.HandlePacket: returns for a page number behind the page table, where the code reads the table without a test; in runs only a node with all pages has such a current page, and no packet of such a page is ever sent.
- DelugeNode.Node.OnPacket: has the same additional test.
- DelugeNode.Node.OnTxTimer: has an additional test that `current_tx_page` is a page of the table; the code tests only its sign.
- DelugeRuns.World: any node may receive any message that was ever sent, so addresses and radio range do not matter; damage changes the payload of a packet such that the checksum shows it, and nothing else.
- DelugeAgreement.Agreement: all objects of a run have the same number of pages, at least one; runs with different numbers are those of DelugeGrowth. A number of pages fits into a byte; the file position of a page is its number.
- Deluge.LongEnoughIff: a profile that is cut and whose first page has version 0 passes the test, and the handler then reads behind its end, where the model has the rest of the profile; in runs with one number of pages such a profile is never newer than the update of its receiver. All other messages fit into the packet buffer, which has at least 72 bytes.
- CoAP header fields outside the option list are bytes and words; the 64-bit option bitmap is not modelled for numbers it does not hold.
- CoapParse.Receiver.Parse: messages that end inside an option are not modelled, because the parser reads beyond their end.
- CoapSend.Serialize: requires a buffer with room for all options, because the size is compared with COAP_MAX_HEADER_SIZE only after they have been written; strings are values, so the pointers they come from are not modelled; the list of option macros is a loop over the option numbers.
- CoapBlockwise: Block1 transfers, observers and a requested block size above the maximum, where the engine lowers the size but keeps number and offset.
- WellKnownCore.Handler: filtering by query is not modelled.
- JSON callbacks, null texts and the smallest int; JsonParser.Parser.ReadAll needs a tree that fits the parser's stack of ten, and the printer one of ten levels, because neither checks its depth.
- JSON values that the printer never writes: true, false and null are read by the parser as the code reads them, but no statement is about them.
- LinkReader.ListingRead: resources whose attributes have a comma, which the link format allows inside of quotes, are not covered.
- Checksum.CheckIp: requires a buffer that holds what is read, which is at least 28 bytes, and 64 kilobytes behind a header of a TCP, UDP or ICMP packet that is longer than the packet.
- Checksum.FillIn: the copy of DHCP options before the headers are filled in.
- SLIP byte stuffing, MQTT, codeprop, FTP, IRC, the user interfaces and the memory-hash index.
