# LLPE in Dafny

LLPE is a partial evaluator for LLVM IR. This project models the four parts of it that keep
non-trivial state, and proves them against simple references.

* **Layered symbolic memory.** What is known of an object is one value, or an interval map of values
  laid over another store that shows through its gaps. The reference is flat memory: one abstract
  content per byte. Range writes, byte reads, extent reads, joins at control-flow merges and the
  collapsing of layers are each proved against what the bytes of the chain denote.
* **Dead-store tracking.** Stores are counted by the bytes that still name them, over many interval
  maps. The reference is an execution that remembers, byte by byte, who wrote last; deleting the killed
  stores leaves every read as it was.
* **Control flow under specialisation.** The pending-edge counter is an edge cut, and a zero count is
  the same as every live path going through the block. Failure marking is a least closure on any graph.
* **Constants as bytes, addresses as index paths.** The nested reader is a flat slice; the builder undoes
  it; the index path found for an offset adds up to that offset.

## How it is laid out

| files | what |
|---|---|
| `Extents`, `Options` | half-open interval maps as sorted sequences; options |
| `Constants`, `ConstReader`, `ConstBuilder`, `AddressPaths` | types with data layout, constants and their bytes, reader, builder, index paths |
| `SymbolicValues`, `SubValues`, `ValueCuts`, `SmoothValues` | value sets and their merge, parts of constants and of values, values that may be cut anywhere |
| `RangeClears`, `LayeredStore`, `WriteRuns` | holes in maps, the class `Multi`, runs of range writes |
| `Stacks`, `ExtentReads`, `PartialValue`, `Extraction`, `ByteReads` | chains as values, the two readers, nested elements |
| `AncestorSearch`, `StoreMerge`, `StoreJoins`, `StoreCollapse`, `SmoothStores`, `JoinExamples` | joins, collapsing, stores that need no further conditions, and particular joins |
| `DeadStores`, `DeadStoreAlign`, `DeadStoreTracker`, `DeadStoreRuns` | dead stores |
| `Certainty`, `CertaintyAnalysis`, `FailurePaths` | certainty, failure marking, sub-blocks |
| `ThreadLocality`, `ObjectBytes`, `EscapeTracking` | flag sets for thread-local and unescaped objects, and the same objects byte by byte |

A byte's content is `Top` or a set of patterns; `Covers(a, b)` says that `a` allows all that `b`
allows. Undef may be taken as 0, which is what the byte reader does, and a pointer at an unknown offset
allows the same pointer at any offset. `Stems(now, was)` bounds `now` from the other side: unless it is `Top`,
each of its patterns is one of `was`, or 0 for undef, or a pointer of which `was` has two different offsets.
`StandsAt(now, was, exact)` is both, with equality when `exact`: a byte *stands for* what was there when it allows
all of that and, if known, nothing else. When it is known is said apart.

Ghost parameters named `ms` are the maps met down a chain, and `cuts` is a set of positions: those at
which a value may come to be cut. Clauses of the form `var ok := P(x); ok` state `P(x)`; written this way
the clause is checked and used as one fact rather than taken apart at every use.

## Model

| member | source | states |
|---|---|---|
| StoreJoins.LocStore.MergeStores | llpe/main/LoadForward.cpp:3736-3973 | Joining a store into another: unless one is freed, every byte of the result stands for what either side held, and a byte that neither side overrides above the nearest map the two share, or at all if their chains end in equal single values, holds exactly what both held. Where some side overrides the byte, the new map holds it in a value that is known exactly when the values read whole there are known, meet in one kind and have not too many items together; parts of values of which any part can be had are known too. Two single values give one known by the same rule. A freed store yields to the other; the ancestors used lie on the two chains and denote the same store; the new map lies over the ancestor unless it covers every byte, covers as many bytes as some side overrides, and its counter is the old one of a map used again, or 0 |
| StoreJoins.JoinedCovers | llpe/main/LoadForward.cpp:3789-3937 | The merged list covers exactly the bytes that some side overrides above the ancestor |
| StoreJoins.CounterExactIff | llpe/main/LoadForward.cpp:3941-3962 | After a join the counter equals the bytes covered if and only if the map was used again and its counter already was the number of bytes overridden, or is new and no byte is |
| JoinExamples.JoinOverBase | llpe/main/LoadForward.cpp:3736-3973 | Two maps laid over one map are joined: a byte in neither reads as it did below them |
| JoinExamples.JoinInts | llpe/main/LoadForward.cpp:3736-3973 | Two integers in two maps are joined: each byte is known, and is the byte of the one or of the other |
| JoinExamples.CounterLeftBehind | llpe/main/LoadForward.cpp:3941-3962 | A single byte joined with a map that overrides it: one byte covered, none counted |
| StoreMerge.MergeLists | llpe/main/LoadForward.cpp:3789-3937 | The two-cursor loop ends, and its list stands for what either side holds wherever one overrides the ancestor, leaves a gap exactly where neither does, and says whether there is any; where the values that hold a byte are read whole it is known exactly when their join can be, whether both sides have one or one side and the ancestor; and parts of values of which any part can be had merge to known ones, with parts of the ancestor's too |
| StoreMerge.MergeSteads | llpe/main/LoadForward.cpp:3658-3733 | Two values that stand for two sides of a range merge into one that stands for both, known exactly when both are, meet and are not too many |
| SymbolicValues.MergeValuesSound | llpe/main/LoadForward.cpp:3636-3733 | Merging two values of one length, with splats written out and zeroes turned into null pointers, gives a value of that length that allows at each byte whatever either allowed |
| SymbolicValues.MergeCovers | llpe/include/llvm/Analysis/ShadowInlines.h:613-720 | The join of two value sets allows at each byte whatever either allowed |
| SymbolicValues.MergeExactly | llpe/include/llvm/Analysis/ShadowInlines.h:613-720 | It is known exactly when both sets are, they are of one kind or functions and a null, and at most 16 different items result; it then has exactly the items of both, a pointer losing its offset only where the two disagree on it |
| SymbolicValues.MergeValuesKnown | llpe/main/LoadForward.cpp:3636-3733 | The merge of two stored values is known exactly when both are, they can be told in one kind after splats are written out and zeroes made null pointers, and at most 16 different items result |
| SymbolicValues.MergeValuesBytes | llpe/main/LoadForward.cpp:3636-3733 | What it allows at a byte comes from what either allowed; it is just that, pointers aside |
| SymbolicValues.MergeValuesSelf | llpe/main/LoadForward.cpp:3636-3733 | A known value merged with itself is known, and holds what it held |
| AncestorSearch.CommonAncestor | llpe/main/LoadForward.cpp:3583-3633 | On any two finite chains the search ends, succeeds if and only if they share a map or rest on equal single values, and then names on each chain the first shared map, or the single values |
| StoreCollapse.SimplifyStore | llpe/main/LoadForward.cpp:3976-4010 | The loop ends and leaves no two maps at the top that nobody else uses; the top map holds the extents of those written over one another in turn; every byte stands for what it held before, and is exactly that when nothing was partly covered that cannot be cut without loss |
| StoreCollapse.Collapse | llpe/main/LoadForward.cpp:3985-4008 | One map written over the next: the bytes read as through both, the lower map stays well formed and counted |
| LayeredStore.Multi.WriteTop | llpe/main/LoadForward.cpp:1789-1959 | After a range write each byte of the range reads as the value and each byte outside as before; the rest of a value reaching into the range stands for what was there, and is exactly that when it can be cut without loss; the counter keeps its distance, and the store below is dropped exactly when the counter says that every byte is covered, which is then so |
| LayeredStore.Multi.ReplaceRange | llpe/main/LoadForward.cpp:1789-1825 | The new extents, size and counter after `replaceRangeWithPB`, with its 64-bit arithmetic for writes of unknown size and writes past the end; the store below goes exactly when the counter equals the size, and every byte is then covered |
| LayeredStore.Multi.ReplaceRangeMany | llpe/main/LoadForward.cpp:1925-1959 | The same for a list of extents that lie end to end |
| LayeredStore.Multi.ClearRange | llpe/main/LoadForward.cpp:1828-1922 | In place, extent by extent; it fails an assertion exactly when `Asserts` says so, and else the map stays in order and in bounds, has nothing in the range, and says outside it what it said, except of values that reach into it; the 64-bit counter lags behind the covered bytes by as much as before |
| RangeClears.Cleared | llpe/main/LoadForward.cpp:1828-1922 | The same of the map as a value, byte by byte, saying which remainders lose nothing |
| RangeClears.AssertsIff | llpe/main/LoadForward.cpp:1843-1882 | Clearing a range fails an assertion if and only if the range lies strictly inside one value that cannot be truncated and starts with no constant, or cuts a splat of several bytes |
| RangeClears.PointerPunched | llpe/main/LoadForward.cpp:1868-1882 | Two bytes written into the middle of a pointer fail it |
| RangeClears.Written | llpe/main/LoadForward.cpp:1789-1959 | What every byte reads as once a list of extents has taken over a range of a map |
| LayeredStore.WrittenTotal | llpe/main/LoadForward.cpp:1863-1917 | A written map covers no fewer bytes than before, so a counter that did not overcount still does not |
| WriteRuns.RunIsFlat | llpe/main/LoadForward.cpp:1789-1922 | Any run of range writes on a map stands for the same run on flat memory: each byte allows what the last write covering it put there |
| WriteRuns.Run | llpe/main/LoadForward.cpp:1789-1922 | The same for the object itself: along any run on a fresh map the counter equals the bytes covered, so the store below is dropped only when it hides nothing |
| SmoothStores.RunExactly | llpe/main/LoadForward.cpp:1789-2092 | A run of in-bounds writes of values that lose nothing when cut reads exactly as flat memory, with no condition on the maps in between |
| SmoothStores.RunKnown | llpe/main/LoadForward.cpp:1789-2092 | After a run of in-bounds writes of known smooth values, sets of several constants included, every byte of the map is known and stands for what flat memory holds, whatever was cut |
| SmoothStores.EasyWritable | llpe/main/LoadForward.cpp:1868-1900 | From the values alone: a run can be made when no write is the first to meet an earlier pointer and strictly inside it |
| SmoothStores.EasyCollapse | llpe/main/LoadForward.cpp:3976-4010 | From the values alone: layers can be collapsed when each upper map covers a pointer below from its first byte on or not at all |
| SmoothStores.SimplifyEasy | llpe/main/LoadForward.cpp:3976-4010 | Layers of such values collapse with no condition on the maps in between, read as before if no value loses anything, and end in a map of known values if all were known |
| SmoothStores.SmoothStackSlices | llpe/main/LoadForward.cpp:2098-2233 | From the values alone: stores of smooth values can be read and joined with any others, cut anywhere |
| StoreCollapse.OverlayPeek | llpe/main/LoadForward.cpp:3990-4001 | What each byte reads as when all extents of one map have been written over another |
| ExtentReads.ReadMulti | llpe/main/LoadForward.cpp:2098-2233 | The extents read are in order, lie in the range, leave out exactly the bytes where the threshold store shows through, and elsewhere stand for what the topmost layer says: exactly for values that can be divided, known for smooth ones that are, parts of those with no more items, and a value of any kind that lies wholly in the bytes asked of its layer comes back as it is |
| ByteReads.ReadFrom | llpe/main/LoadForward.cpp:708-875 | A read yields a value exactly when one value holds the whole range, under layers that do not meet it, and is handed over whole or a nested element of each of its constants gives the range; it is that value, or the merge of those elements. It yields bytes exactly when every layer down to the one that completes them is readable wherever it meets the range, and otherwise asks for a retry exactly when the first extent that cannot be had as bytes is a whole pointer or descriptor or some other known value. Byte i is the one held by the topmost layer covering it, undef perhaps as 0; a value stands at each byte for what is held there if the constants can be cut |
| Extraction.ExtractSound | llpe/main/LoadForward.cpp:613-706 | A constant extracted from a nest has the bytes of the range |
| Extraction.ExtractFinds | llpe/main/LoadForward.cpp:613-706 | Whenever a path of element and member numbers leads to an element that is just the range, or to a zero or undef around it, the extraction returns what the outermost such element gives, unless an empty struct member begins where the range ends |
| Extraction.ExtractIff | llpe/main/LoadForward.cpp:613-706 | It succeeds exactly when there is such an element and no such empty member is in the way |
| Extraction.ExtractSolid | llpe/main/LoadForward.cpp:613-706 | For constants without empty members it succeeds exactly when there is such an element |
| Extraction.EmptyInTheWay | llpe/main/LoadForward.cpp:668-690 | An integer, an empty array and an integer: the first is not found |
| Extraction.ExtractStands | llpe/main/LoadForward.cpp:749-778 | The merge of what is extracted from each constant of a set stands at each byte for what the set holds there |
| Extraction.ExtractMergeKnown | llpe/main/LoadForward.cpp:749-778 | It is known when the elements extracted are all scalars or all pointers |
| PartialValue.PartialVal.CombineBytes | llpe/main/BytewiseReinterpret.cpp:90-121 | A valid byte is never overwritten, the others come from the argument, and `loadFinished` holds exactly when all bytes are valid |
| PartialValue.PartialVal.AddValue | llpe/main/BytewiseReinterpret.cpp:159-205 | Adding part of a value works exactly when it is one readable constant or one splatted byte; the bytes then tell what the value holds, and nothing changes otherwise |
| SubValues.SubValsShow | llpe/main/LoadForward.cpp:1515-1698 | When the cut is clean, the extents `getConstSubVals` produces lie end to end over the range and agree with the constant at every byte, padding between struct members included |
| ValueCuts.ShownIffClean | llpe/main/LoadForward.cpp:1515-1698 | They do so if and only if neither end cuts a leaf that cannot be read, no array is torn, and no padding is cut or passed over |
| ValueCuts.BadCut | llpe/main/LoadForward.cpp:1515-1698 | Otherwise some extent is unknown or holds a constant of another size than its own, or the extents do not lie end to end; an unknown one where an end cuts an unreadable leaf |
| ValueCuts.PaddingSkipped | llpe/main/LoadForward.cpp:1611-1663 | A 16-bit and a 32-bit integer, read from the second byte on: the two bytes between them are in no extent |
| ValueCuts.PaddingCut | llpe/main/LoadForward.cpp:1528-1537 | The first three bytes of the same: an extent that ends before it starts |
| ValueCuts.TornPairs | llpe/main/LoadForward.cpp:1580-1588 | Three pairs of 32-bit integers, cut behind the second: the constant made has the type and size of three |
| ValueCuts.MisplacedFallback | llpe/main/LoadForward.cpp:1690-1694 | The extent reported for an unreadable leaf gives a size where an end belongs and ignores where the leaf lies |
| ValueCuts.SubConstSound | llpe/main/LoadForward.cpp:1702-1742 | A constant made of the parts has the bytes of the range, undef perhaps as 0 |
| ValueCuts.SubValsKeep | llpe/main/LoadForward.cpp:1434-1496 | The parts of a value stand at each byte for what the value held, and are exactly that unless a pointer was cut or a set of constants cut one by one |
| ValueCuts.SubValSound | llpe/main/LoadForward.cpp:1499-1508 | The part as one value stands for what the value held there, whether or not an unreadable leaf is cut |
| ValueCuts.TruncatedKeeps | llpe/main/LoadForward.cpp:1961-2092 | A truncated value lies end to end over the bytes that remain and stands at each for what it held there |
| SmoothValues.SmoothPieces | llpe/main/LoadForward.cpp:1515-1698 | What is cut out of a smooth constant is smooth again |
| SmoothValues.SmoothFound | llpe/main/LoadForward.cpp:1702-1742 | For any range of a smooth constant one constant is found |
| SmoothValues.SubValsSmooth | llpe/main/LoadForward.cpp:1434-1496 | The parts of a smooth value are smooth, and known if it was |
| SmoothValues.SubValKept | llpe/main/LoadForward.cpp:1499-1508 | A value taken whole comes back unchanged; a part of a splat, of a constant read byte by byte or of a set of smooth constants is known and has no more items |
| SmoothValues.TruncatedEasy | llpe/main/LoadForward.cpp:1961-2092 | What is left of a truncated value can be truncated again, loses nothing if the value did not, and is known if it was |
| ConstReader.ReadData | llpe/main/CopyPaste.cpp:202-318 | A successful read into a zeroed buffer leaves exactly the matching slice of the constant, padding and undef as 0, and writes nothing outside; it succeeds exactly when the slice meets no pointer and no integer of an awkward width |
| ConstBuilder.RoundTrip | llpe/main/Misc.cpp:279-383 | Reading any canonical constant and building one of its type from the bytes gives it back if and only if it can be read and holds no empty array and no array of spaced-out integers with a non-zero element behind the first |
| ConstBuilder.ConstFromBytes | llpe/main/Misc.cpp:279-383 | The builder alone: canonical constants only, null the only pointer, and the constant the bytes came from exactly when it can be built again |
| ConstBuilder.RowBuilt | llpe/main/Misc.cpp:322-346 | An array of integers with tail padding comes back exactly when all its elements but the first are zero |
| ConstBuilder.SpacedLost | llpe/main/Misc.cpp:322-346 | Two 24-bit integers four bytes apart do not come back |
| AddressPaths.FindElementAtOffset | llpe/main/CopyPaste.cpp:322-379 | When a path comes back its indices add up to the signed offset, no shorter part of it does, and it leads to the returned type; if no part of the type is empty, one comes back whenever there is one |
| AddressPaths.EvaluateGep | llpe/main/Eval.cpp:1391-1413 | The loop of the GetElementPtr case adds up the index path, and the offset is unknown exactly when the base's or some index is |
| DeadStoreRuns.TrackRun | llpe/main/DSE.cpp:178-700 | Over every run of allocations, writes, reads, forks and releases of any number of objects, deleting the killed stores leaves each read with the writers it saw; and they are exactly those no read saw and that do not stand at the end |
| DeadStoreTracker.Tracker.DerefBytes | llpe/main/DSE.cpp:178-190 | The counter never falls below zero, and conservation holds again once each store of an entry is released |
| DeadStoreTracker.Tracker.FreedExactly | llpe/main/DSE.cpp:178-190 | A store is live exactly while some extent names it, and killed exactly when it is named nowhere and was never needed |
| DeadStoreTracker.Tracker.SetWriter | llpe/main/DSE.cpp:650-700 | The bytes written name the new store alone, all others what they named; counters and references stay equal |
| DeadStoreTracker.Tracker.UseWriters | llpe/main/DSE.cpp:628-648 | The extents that meet the bytes read are gone and their stores needed, and nothing else changes |
| DeadStoreTracker.Tracker.GetReadableCopy | llpe/main/DSE.cpp:285-331 | Both maps are the old one without the needed stores; references counted anew |
| DeadStoreTracker.Tracker.MergeStores | llpe/main/DSE.cpp:462-625 | The to-map comes out aligned with the from-map and names on every byte what it named; it names what either map named exactly when the from-map names no store on a byte that the to-map does not; counters and references stay equal |
| DeadStoreTracker.UnionLost | llpe/main/DSE.cpp:598-616 | A store made on one of two paths that join is killed once the other path lets go of its map |
| DeadStoreAlign.Align | llpe/main/DSE.cpp:507-572 | The to-map covers every from-extent, has a break at both its ends, and says of every byte what it said |
| CertaintyAnalysis.Analysis.AnalyseBlocks | llpe/main/CFGEval.cpp:220-529 | An edge is alive exactly when its block exists and its terminator may take it, and a block exists exactly when taken edges lead to it from the entry; the counter never underflows and is 0 at the end; a block gets the entry's status exactly when every live path past it goes through it, and otherwise one that an edge into it grants |
| CertaintyAnalysis.Analysis.CheckBlockStatus | llpe/main/CFGEval.cpp:505-529 | The counter is the number of live specialised edges from before the block to behind it |
| Certainty.CutExactly | llpe/main/CFGEval.cpp:505-529 | No edge passes over a block if and only if every live path past it goes through it |
| FailurePaths.Function.MarkBlockAndSuccsReachableUnspecialised | llpe/main/ConditionalSpec.cpp:57-79 | On any graph, marking ends, and the marks are the old ones plus everything the block leads to, each from its lowest start |
| FailurePaths.Function.AddBlockAndPreds | llpe/main/ConditionalSpec.cpp:82-91 | Exactly the block and its transitive predecessors are added |
| FailurePaths.GetLocalSplitInsts | llpe/main/ConditionalSpec.cpp:2126-2159 | The split points of one specialised copy of a block are added, and no others |
| FailurePaths.Function.AddCheckpoints | llpe/main/TentativeLoads.cpp:1493-1546 | Every instruction that is checked has what it needs marked, and every mark that is new is owed to one of them; the failed block is then recorded from each of its split points on at the latest |
| FailurePaths.Function.SplitFailedBlock | llpe/main/ConditionalSpec.cpp:2177-2302 | The failed block comes out as sub-blocks end to end that begin exactly where some specialised copy may be left, because each such copy was noted |
| FailurePaths.GetSubBlockForInst | llpe/main/ConditionalSpec.cpp:2307-2321 | The first sub-block at or after an instruction; it begins there exactly when one must |
| EscapeTracking.RunOps | llpe/main/LoadForward.cpp:2314-2353 | From any older objects, shared and escaped, a run of allocations and stores leaves in every byte and in the flag sets what the same run leaves on flat objects; and then no object outside the thread-local set holds a pointer into it, and none a pointer to an unescaped object |
| ObjectBytes.OverwrittenBytes | llpe/main/LoadForward.cpp:1789-1922 | After a store the bytes of its range hold the value, and every other byte what it held, unknown where a pointer was cut |
| ObjectBytes.ReadBytes | llpe/main/LoadForward.cpp:3500-3527 | What is read before a store through a vague pointer, told by the bytes |
| EscapeTracking.Block.WriteOne | llpe/main/LoadForward.cpp:3463-3541 | One object written, byte by byte: the value stored, or its join with what the range held; unknown throughout when the offset is unknown; other objects as they were |
| EscapeTracking.Block.ExecuteStore | llpe/main/LoadForward.cpp:1124-1177 | A store leaves in the bytes and flag sets what it leaves on flat objects, keeps the flag sets closed, and the pointers it stores have escaped |
| EscapeTracking.Block.PerformWrite | llpe/main/LoadForward.cpp:3426-3541 | The writes of a store, through certain, vague and unknown pointers: what every object then holds, byte by byte, and what they may break of the flag sets |
| EscapeTracking.Block.PropagateStoreFlags | llpe/main/LoadForward.cpp:3547-3578 | A flag set loses exactly the objects the value leads to, or all that have escaped if it leads to something unknown |
| ThreadLocality.EraseReachable | llpe/main/LoadForward.cpp:2921-2979 | The walk erases only what the pointers reach, and nothing erased points into what is left |
| ThreadLocality.ReachesAllPointers | llpe/main/LoadForward.cpp:2895-2919 | It answers yes exactly when known pointers lead to an unknown value |

## Where the code does not do what it is for

* **Torn arrays.** Several whole elements of an array are put into a constant of the type of the *whole*
  array (llpe/main/LoadForward.cpp:1588). That type is right only if the elements become data, whose
  type follows its contents: integers of 8, 16, 32 or 64 bits that are not all zero. Otherwise the
  constant has too large a size, or an assertion of LLVM fails. `NoTear` says when this does not happen,
  `ShownIffClean` that it is then, together with clean ends, that the parts are right, and only then, and
  `TornPairs` gives an input. Every result on memory below asks for cuts that tear no array.
* **Padding in structs.** Padding is reported behind members taken whole (llpe/main/LoadForward.cpp:1644-1656), but not
  behind one of which only the end is taken (1611-1630), and an end that lies in padding is taken for one past the end of
  the member before it (1528-1537). `NoTear` says when neither happens, `ShownIffClean` is exact for both, and
  `PaddingSkipped` and `PaddingCut` give inputs.
* **Unreadable leaves.** The extent for a pointer or an awkward integer that is cut carries a size where
  an end belongs, and no offset (llpe/main/LoadForward.cpp:1533, 1602 and 1693). `MisplacedFallback` shows it; results on
  lists of extents ask for clean cuts, and those on single values hold without.
* **Empty members.** The end of a range that ends where an empty struct member begins is taken to lie past that member
  (llpe/main/LoadForward.cpp:679-690), and the element before it is not found. `ExtractIff` is exact for it, and
  `EmptyInTheWay` gives an input.
* **Element tail padding.** `constFromBytes` takes elements to lie their store size apart.
  `ConstBuilder.RoundTrip` says exactly which constants come back all the same.
* **The union of dead-store maps.** The loop guard at llpe/main/DSE.cpp:606 is false on entry, so the
  from-map's stores are never added. `Tracker.MergeStores` says exactly when that does not matter, and
  `UnionLost` gives an input on which a store is killed that a read behind the join would see.
* **A hole in a value that cannot be truncated.** The right-hand rest is truncated without asking
  `canTruncate` (llpe/main/LoadForward.cpp:1868-1882), which trips an assertion on a pointer.
  `ClearRange` returns whether it got through, `AssertsIff` says exactly when it does not, and
  `PointerPunched` gives an input. The results on whole writes ask for `MayClear`, which leaves those
  cases out, and `SmoothStores` derives it from the writes.
* **The counter after a join.** A reused map keeps its old `CoveredBytes` and a new one starts at 0
  (llpe/main/LoadForward.cpp:3941-3962). `CounterExactIff` says exactly when the counter is still right, and
  `CounterLeftBehind` gives an input. It never exceeds the bytes covered.

## Left out

- SubValues.SubValsShow: constants holding an array whose elements have tail padding, or an empty part, are only taken whole. Where a range starts in padding the size left over is less than nothing; that the result is wrong is modelled, but not what the code makes of the difference.
- ExtentReads.ReadMulti: asks for a set of positions at which the values met are cut cleanly and without tearing; a value that no position falls into is taken whole and may be padded.
- StoreJoins.LocStore.MergeStores: asks the same of both stores, and of a map to be reused that its size is the object's; reference counts are read but not kept.
- LayeredStore.Multi.WriteTop: asks that the values reaching into the range are cut safely and that clearing it fails no assertion.
- LayeredStore.Multi.ReplaceRange: the target is a map; the branch whose target is a single value, which is then replaced whole (llpe/main/LoadForward.cpp:1791-1793), is left out.
- ByteReads.ReadFrom: asks that no read starts in the tail padding of an integer, where the reader's loop would run past the integer (llpe/main/CopyPaste.cpp:215-240); says nothing of the bytes of an element extracted from a constant that is only taken whole.
- ConstBuilder.RoundTrip: floats, vectors and integers that are not a whole number of bytes or wider than 64 bits; undef, which reads as 0, is not canonical.
- AddressPaths.EvaluateGep: an index that is a negated pointer, by which an unknown offset becomes a number again (llpe/main/Eval.cpp:1416-1438), is left out.
- AddressPaths.FindElementAtOffset: completeness is for types with no empty part.
- DeadStoreRuns.TrackRun: the exact half is for reads of at least one byte; runs have no merges.
- FailurePaths.GetSubBlockForInst: asks for an instruction not past the last sub-block, which the source asserts.
- EscapeTracking.RunOps: objects have one layer, as the walk does not look below (llpe/main/LoadForward.cpp:2811-2816); a part of a value is told apart from the whole only as far as pointers go; runs have no merges.
- Extraction.ExtractMergeKnown: extracts of different kinds merge to a known value only in some orders, functions and a null among them; which is not said.
- SmoothStores.RunKnown: pointers and descriptors are not among the values, as a cut makes them unknown.
- Bookkeeping of reference counts (`dropReference`, `getReadableCopy` of stores), freeing of maps, and allocation in contexts.
- The vararg merge, file descriptors and vararg cookies beyond being opaque; coercion of values to a common type in merges; types of undef placeholders (llpe/main/LoadForward.cpp:2103, 2217), which get the right width here.
- `getConstSubVals` past the end of a constant, other than from the padding behind a struct member; splats of several bytes in truncation, which trip an assertion; zero-length writes.
- Aggregates in `extractAggregateMemberAt` are indexed by store size, as in the source; vectors and constant expressions are left out.
- Committed instructions of a tracked store, tracked allocations, and the reuse of an erased iterator in `GCStores`.
- Adjustments of pending edges for peeled loops (llpe/main/MainLoop.cpp:527), and the fixpoint driver there.
- Emission of code, PHI nodes of failed blocks, function sharing, file and socket handling, statistics and drawing.
