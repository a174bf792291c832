# Verification of the cache-routing code

A Dafny model of the parts of the repository where state, arithmetic and protocols meet, with proofs of
what those parts are for. `dafny verify dfyconfig.toml` checks the whole project.

## What is modelled

- **Memory allocators** (`FreeList`, `BatchRuns`, `Alignment`, `Lifecycle`, `ExplicitList`, `TensorAllocator`,
  `Scaling`, `PagedAllocator`). The first-fit allocator is a class over a sorted list of mutable block objects.
  Its invariant: the free list is canonical, free blocks and live objects tile the buffer exactly once, starts
  are aligned, and the counters are the live sums. Every method is tied to a function on lists, and the list
  functions carry the main results: canonical lists are unique, freeing is insensitive to order, batched
  freeing refines one-by-one freeing, allocation finds the lowest run. The paged allocator recycles page
  objects through a deque; free and live pages partition the pages.
- **Token databases** (`TokenKeys`, `TokenChunks`, `SegmentSplit`). Spans tile the tokens, chained keys
  identify prefixes up to explicit hash collisions, and separator splitting is inverse to joining exactly for
  sequences without overlapping separators.
- **The event stream** (`SseStream`, `SseEvents`, `ChatClient`). The line-buffering rewriter equals a function of
  the whole byte stream. What a receiver makes of it is stated with the lines and events of the WHATWG HTML
  Standard, section 9.2, up to the metadata that the client finds.
- **The network link** (`LinkMonitor`, `LinkSimulator`). A two-class priority monitor as a step system, with
  invariants over all runs and progress, and a serial server whose every run is proved serial from what it
  sleeps, with its accounting.
- **KV artifacts and texts** (`Base64Url`, `KvArtifact`, `TextDb`, `KeySettle`, `KvBuild`, `Stripping`). Unpadded base64url
  (RFC 4648, sections 3.2 and 5) round-trips, a dumped directory injects to exactly the dumped pairs, and
  texts are addressed by the hash of their normal form end to end.
- **The knowledge index** (`KnowledgeIds`, `KnowledgeIndex`, `KnowledgeTable`). Ids map to 63-bit numbers and
  back over every run, and search through the index agrees with scanning.
- **Capabilities** (`CanonicalJson`, `Capability`). The canonical text (RFC 8259) is read back by an independent reader, and the
  comparison is stated in the fields of the two sides and agrees with canonical forms and fingerprints.
- **Length sampling** (`Sampling`). The planner's windows satisfy the separate coverage checker.

`Outcomes` holds optional values and the ways a call can fail, `Basics` a few facts about sequences.

## Where the code does not do what one might expect

Each of these has a lemma or a contract that shows it and says exactly when it happens.

- `batched_free` seeds its scan with the address of the first object even when that object is skipped. The
  result differs from one-by-one freeing exactly when the second freed object starts where the seed plus the
  first freed size points (`BatchRuns.BatchRefinesOneByOne`).
- A zero-size object leaves an empty free block unless some free block ends at its address
  (`FreeList.ZeroSizeInsert`); an empty buffer starts with one.
- A page is not invalidated when it is freed, so freeing it again goes unnoticed
  (`PagedAllocator.ReturnKeepsPartition`, `Lifecycle.PageReturnedTwice`), and batched freeing counts invalid
  pages too (`PagedTensorMemoryAllocator.BatchedFree`). A paged allocator over an empty buffer has one page
  (`PagedTensorMemoryAllocator.constructor`).
- Keys are 64-bit, so no hash is injective on all inputs; the theorem about keys names the collisions it excludes.
- Overlapping separators make splitting lossy, and later spans drift (`SegmentSplit.JoinInvertsSplit`). For
  fewer tokens than the separator the whole sequence is yielded first and then the window fails; an empty
  separator yields the sequence and then its single tokens (`SegmentTokenDatabase.EmptySeparator`).
- An unterminated last line of a chat stream swallows the metadata event's first line, and the client then finds
  no metadata (`ChatClient.ClientFindsMetadata`); an unfinished event takes the metadata in
  (`SseEvents.OutputEvents`).
- A `[DONE]` line is passed on when a carriage return alone separates it from more bytes before the next newline
  (`SseEvents.OneDoneAndLast`).
- A cancelled text waiter does not notify: a KV task can sleep on an idle link for ever
  (`LinkMonitor.EveryRunIsSound`, for a condition variable that does not pass on a cancelled waiter's notification).
- Polls that see no new keys do not restart the wait, so keys that vanish and come back count as settled
  (`KeySettle.SettledMeaning`).
- A failed rebuild removes a KV directory whose row stays marked as ready (`KvBuild.MarksStayTrue`).
- A number of the knowledge index can stay taken by an id that is gone (`KnowledgeIds.RegisterStale`,
  `KnowledgeIds.RunsWithoutStale`).
- Lengths not above the tokenizer's offset are never sampled (`Sampling.PlanConfigs`).

## Model

| member | source | states |
|---|---|---|
| `FreeList.CanonicalIsUnique` | env/memory_management.py:878-910 | two sorted lists of positive, uncoalescable blocks that cover the same bytes are the same list |
| `FreeList.InsertIsSplice` | env/memory_management.py:865-910 | what coalescing with the neighbours found by bisection does to the list, in all four cases |
| `FreeList.InsertCounts` | env/memory_management.py:1078-1085 | returning a block adds exactly its bytes, each counted once more, and its size to the total |
| `FreeList.InsertKeepsCanonical` | env/memory_management.py:1067-1085 | returning a positive block disjoint from the list keeps the list sorted, positive and fully coalesced |
| `FreeList.InsertBytes` | env/memory_management.py:1067-1085 | after a return, a byte is free exactly when it was free or lies in the block, whatever the block |
| `FreeList.ZeroSizeInsert` | env/memory_management.py:1067-1085 | a zero-size return keeps the list canonical exactly when some block ends at its address |
| `FreeList.FirstFitIsLowest` | env/memory_management.py:931-941 | the first block that is large enough begins the lowest free run; when none is, no address begins one |
| `FreeList.TakeKeepsCanonical` | env/memory_management.py:943-953 | cutting an allocation off a block keeps the list canonical and removes exactly its bytes |
| `FreeList.TakeCounts` | env/memory_management.py:943-953 | the bytes taken and the bytes left are the bytes there were, each counted once |
| `FreeList.TakeThenInsert` | env/memory_management.py:912-976 | allocating and then freeing gives back the identical list |
| `FreeList.InsertAllKeepsCanonical` | env/memory_management.py:1135-1147 | freeing any number of disjoint positive blocks one by one keeps the list canonical |
| `FreeList.FreeingIsByBytes` | env/memory_management.py:1135-1147 | the list after freeing depends only on the bytes freed, not on order or cutting |
| `FreeList.FreeOrderDoesNotMatter` | env/memory_management.py:1135-1147 | freeing the same blocks in any order gives the identical list |
| `BatchRuns.WellSeededCounts` | env/memory_management.py:1106-1133 | a well-seeded scan merges a batch into runs with exactly the batch's bytes, each counted once |
| `BatchRuns.MisseededCounts` | env/memory_management.py:1106-1133 | what a scan seeded with a skipped object's address returns instead: bytes displaced by a merge that should not have been |
| `BatchRuns.WellSeededRefines` | env/memory_management.py:1094-1158 | returning the merged runs equals freeing the blocks one by one |
| `BatchRuns.MisseededDiffers` | env/memory_management.py:1106-1107 | a mis-seeded batch never ends with the list of one-by-one frees |
| `BatchRuns.BatchRefinesOneByOne` | env/memory_management.py:1094-1158 | run merging refines one-by-one freeing if and only if the scan is not mis-seeded, a condition on two addresses and a size |
| `BatchRuns.MisseededExample` | env/memory_management.py:1106-1107 | a canonical list and a batch of live blocks behind a stale first object: the batch returns bytes that were never freed, and one-by-one frees end with another list |
| `Alignment.AlignedSizeIsLeast` | env/memory_management.py:861-863 | for a power of two the bit mask gives the least multiple not below the raw size |
| `Alignment.MaskNeedsPowerOfTwo` | env/memory_management.py:861-863 | the mask rounds up correctly for all sizes if and only if the alignment is a power of two |
| `Alignment.PhysicalSizeIsLeast` | env/memory_management.py:922-929 | the physical size, by either branch, is the least multiple of the alignment not below the raw size |
| `Lifecycle.CountsAreSums` | env/memory_management.py:466-537 | the counts as sums of the events alone, for every sequence: the reference count starts at one, the pin count at zero, both go up and down with the events and never below zero |
| `Lifecycle.BalancedCounts` | env/memory_management.py:466-537 | while nobody gives up more than there is, the counts are what was taken and not given up |
| `Lifecycle.StorageReturnedExactlyOnce` | env/memory_management.py:466-537 | over every event sequence the storage is returned at most once, and it has been returned exactly when all references and pins, the one the object is made with included, had been given up at some time so far, in sums of the events |
| `Lifecycle.PageReturnedTwice` | env/memory_management.py:470-537 | for pages, which stay valid: returned once both counts have been zero, and a second time exactly when a later event gives the unused page back again |
| `Lifecycle.PageStepReturns` | env/memory_management.py:470-537 | an unused page is given back again by an unpin and by no other single event |
| `Lifecycle.StepKeepsCounted` | env/memory_management.py:503-537 | one event keeps the monitor's total equal to the number of pinned objects |
| `Lifecycle.MonitorCountsPinned` | env/memory_management.py:503-537 | the same over every run of events on many objects |
| `ExplicitList.SortedBlocks.constructor` | env/memory_management.py:846-852 | the list starts with one block for the whole buffer |
| `ExplicitList.SortedBlocks.Bisect` | env/memory_management.py:1078-1078 | the insertion point by start address in the list of block objects |
| `ExplicitList.SortedBlocks.Coalesce` | env/memory_management.py:878-910 | edits neighbouring block objects in place; the list is then that of the specification, or unchanged with a false result |
| `ExplicitList.SortedBlocks.Reinsert` | env/memory_management.py:1078-1085 | coalesce or add: the list of objects becomes the specification's insertion |
| `ExplicitList.SortedBlocks.FindFit` | env/memory_management.py:931-941 | index of the first block object that is large enough |
| `ExplicitList.SortedBlocks.TakeFirstFit` | env/memory_management.py:931-953 | takes the lowest fitting run out of the list of objects, or changes nothing |
| `ExplicitList.SortedBlocks.Return` | env/memory_management.py:1067-1085 | frees bytes: the list equals the insertion of one block |
| `ExplicitList.SortedBlocks.ReturnRuns` | env/memory_management.py:1135-1147 | frees the runs of a batch one after the other |
| `ExplicitList.SortedBlocks.Inspect` | env/memory_management.py:1168-1187 | the free total, and whether no two neighbours could be merged |
| `ExplicitList.InsertByEdits` | env/memory_management.py:865-910 | the object edits of each merge case produce the specification's list |
| `TensorAllocator.TensorMemoryObj.RefCountUp` | env/memory_management.py:466-468 | the reference count goes up by one and nothing else changes, which is the value-level step |
| `TensorAllocator.TensorMemoryObj.RefCountDown` | env/memory_management.py:470-492 | the count goes down by one, not below zero, as in the value-level step; storage goes back exactly when the step says so; the allocator stays valid exactly when no empty block is left behind |
| `TensorAllocator.TensorMemoryObj.Pin` | env/memory_management.py:503-510 | counts follow the step and the monitor changes by its delta |
| `TensorAllocator.TensorMemoryObj.Unpin` | env/memory_management.py:512-537 | the same for unpinning, unbalanced calls included |
| `TensorAllocator.TensorMemoryAllocator.constructor` | env/memory_management.py:846-858 | an allocator of a non-empty buffer is valid; of an empty one its list is not canonical |
| `TensorAllocator.TensorMemoryAllocator.Allocate` | env/memory_management.py:912-976 | a fresh object of the least aligned size at the lowest address, or null exactly when no free run is long enough; the invariant is kept |
| `TensorAllocator.TensorMemoryAllocator.BatchedAllocate` | env/memory_management.py:982-1064 | adjacent equal objects at the lowest address where all fit, or failure exactly when no run does; a batch of none fails and changes nothing |
| `TensorAllocator.TensorMemoryAllocator.Free` | env/memory_management.py:1066-1092 | a live object's bytes return to the list, which stays valid exactly when the object is not empty or a free block ends there; an invalid object changes nothing |
| `TensorAllocator.TensorMemoryAllocator.BatchedFree` | env/memory_management.py:1094-1158 | list, validity flags, live set and counters end as after one-by-one frees of the objects valid at their turn; an empty batch fails |
| `TensorAllocator.TensorMemoryAllocator.CollectRuns` | env/memory_management.py:1106-1133 | the scan over objects computes the value-level scan of those valid when reached, invalidating each once |
| `TensorAllocator.TensorMemoryAllocator.Memcheck` | env/memory_management.py:1160-1189 | true exactly when sizes add up and nothing could be merged; always true in a valid allocator |
| `TensorAllocator.TensorMemoryAllocator.CountersAreLiveSums` | env/memory_management.py:952-958 | in every reachable state both counters equal the sums over live objects |
| `TensorAllocator.LiveSizes` | env/memory_management.py:952-958 | live sizes and free bytes add up to the buffer |
| `TensorAllocator.FreeKeeps` | env/memory_management.py:1067-1092 | a free keeps the list aligned and the buffer tiled exactly once, and the list canonical exactly when no empty block is left behind |
| `TensorAllocator.FreeAllKeeps` | env/memory_management.py:1067-1092 | the same for freeing many live objects |
| `TensorAllocator.BatchKeeps` | env/memory_management.py:1094-1158 | returning the runs of a well-seeded batch keeps the invariant and frees exactly the batch |
| `TensorAllocator.ChainAddress` | env/memory_management.py:1045-1062 | in a batch, object j lies j units behind the first |
| `TensorAllocator.BatchRoundTrip` | env/memory_management.py:982-1158 | batched_allocate then batched_free restores the identical list |
| `TensorAllocator.FirstValidSeedsWell` | env/memory_management.py:1106-1107 | a batch whose first object is valid is well seeded |
| `TensorAllocator.AllAreFresh` | env/memory_management.py:1106-1133 | of a batch of different valid objects every object is freed |
| `TensorAllocator.RoundTrip` | env/memory_management.py:912-1092 | allocating bytes and returning them restores the list if and only if there were any |
| `TensorAllocator.AllocateThenFree` | env/memory_management.py:912-1092 | allocate then free leaves list and live objects as they were, but for an empty object's empty block |
| `TensorAllocator.BatchedAllocateThenFree` | env/memory_management.py:982-1158 | batched allocate then batched free leaves a valid allocator as it was |
| `TensorAllocator.TakeLeaves` | env/memory_management.py:943-953 | after the cut every byte is free, held, or part of the piece taken, exactly once |
| `PagedAllocator.PagedTensorMemoryAllocator.constructor` | env/memory_management.py:1200-1257 | every page number has one page object, all free with their full buffers; an empty buffer has one page too |
| `PagedAllocator.PagedTensorMemoryAllocator.Create` | env/memory_management.py:1213-1222 | refuses a page size that is zero or does not divide the buffer |
| `PagedAllocator.PagedTensorMemoryAllocator.Allocate` | env/memory_management.py:1260-1302 | takes the oldest page, which then shows its own bytes, all of them for the allocator's own shapes and at most as many as the shapes have otherwise; fails exactly when none is free; partition, views and counters stay right |
| `PagedAllocator.PagedTensorMemoryAllocator.BatchedAllocate` | env/memory_management.py:1304-1355 | pages in deque order, each showing its own bytes, or no change at all: same deque, same live pages, same counters |
| `PagedAllocator.PagedTensorMemoryAllocator.RollBack` | env/memory_management.py:1321-1328 | pages that emptied the deque go back in the same order with their full buffers |
| `PagedAllocator.PagedTensorMemoryAllocator.Free` | env/memory_management.py:1358-1376 | a valid page returns with its full buffer, an invalid one changes nothing; the allocator stays valid exactly when the page was live |
| `PagedAllocator.PagedTensorMemoryAllocator.BatchedFree` | env/memory_management.py:1379-1413 | valid pages return in order; free and live pages stay a partition exactly when each valid page is live at its turn, and the counters right exactly when moreover all are valid |
| `PagedAllocator.PagedTensorMemoryAllocator.Memcheck` | env/memory_management.py:1415-1436 | true exactly when the allocated bytes are those of the live pages |
| `PagedAllocator.PagedTensorMemoryAllocator.ByteHasOnePage` | env/memory_management.py:1224-1251 | every byte lies in exactly one page, and that page is free or live, not both |
| `PagedAllocator.PagedTensorMemoryAllocator.ShownByOnePage` | env/memory_management.py:1287-1341 | a byte that a page shows lies in the buffer and in that page, and no other page shows it |
| `PagedAllocator.ReturnKeepsPartition` | env/memory_management.py:1358-1367 | returning a page keeps free and live pages a partition exactly when the page is live |
| `PagedAllocator.PartitionPop` | env/memory_management.py:1270-1278 | taking the oldest page keeps the partition |
| `PagedAllocator.TakenEachOnce` | env/memory_management.py:1317-1328 | pages just taken may all go back, and the live pages are then those before |
| `PagedAllocator.BatchEffect` | env/memory_management.py:1391-1413 | how many pages a batch takes from the live ones, and when as many as it has |
| `PagedAllocator.BatchKeepsPartition` | env/memory_management.py:1391-1400 | over a whole batch the partition survives exactly when each page is live at its turn |
| `PagedAllocator.KeepAll` | env/memory_management.py:1391-1413 | pages are skipped exactly when some page of the batch is not to be kept |
| `PagedAllocator.Totals` | env/memory_management.py:1402-1413 | counters lowered by the batch length are right exactly when that many pages were freed |
| `TokenKeys.NormalizeMeaning` | env/token_database.py:244-276 | keys are unsigned 64-bit; integers agree exactly modulo 2^64, byte strings exactly when their padded first eight bytes do; texts count as the integer they spell or as their bytes |
| `TokenKeys.NormalizedValue` | env/token_database.py:244-276 | the key of a number is the number modulo 2^64, that of bytes the first eight, padded with zeros, in big-endian order |
| `TokenKeys.KeysByHash` | env/token_database.py:234-242 | across databases, engine keys are equal exactly when hash, format, model, worker, data type and world size are, where the world size counts as one if only the first rank saves; an engine key is never a bare one |
| `TokenKeys.MadeKeys` | env/token_database.py:234-242 | two keys that a database makes are equal exactly when their hashes are; bare keys are the hashes |
| `TokenKeys.ProcessHashes` | env/token_database.py:429-446 | one entry per hash with an offset, or an assertion failure without offsets or metadata |
| `TokenKeys.HashEntryAt` | env/token_database.py:433-444 | each entry has its hash, is as long as its offset, and starts where the one before ends |
| `TokenKeys.HashEntryKeys` | env/token_database.py:433-444 | two entries have the same key exactly when their hashes are the same |
| `TokenChunks.CoveredUpTo` | env/token_database.py:347-351 | how far the chunks reach: everything, or up to the last multiple of the chunk size |
| `TokenChunks.ChunksTile` | env/token_database.py:347-353 | the chunks, one after the other, are the covered tokens |
| `TokenChunks.ChunkAt` | env/token_database.py:352-353 | chunk k is the content of its span |
| `TokenChunks.SpansMeet` | env/token_database.py:415-417 | each span starts where the one before ends, and the last ends with the covered tokens |
| `TokenChunks.WhyKeysAreEqual` | env/token_database.py:355-362 | for any hash: equal prefix keys come from equal prefixes, an explicit collision among what was hashed, or a hit of the root |
| `TokenChunks.KeysIdentifyPrefixes` | env/token_database.py:355-362 | without such collisions: same key if and only if same chunk number, same end and same tokens up to it |
| `TokenChunks.SamePrefixSameKey` | env/token_database.py:355-362 | equal chunk prefixes have equal keys |
| `TokenChunks.KeyChain` | env/token_database.py:355-362 | the key of a chunk is the hash of its tokens and of the key before it, the first chunk's that of its tokens and of the root |
| `TokenChunks.EntryKeysIdentifyPrefixes` | env/token_database.py:401-428 | for the keys of the entries returned, engine keys or bare ones: without collisions two of them are equal if and only if chunk number, end and all tokens up to it are |
| `TokenChunks.ChunkedTokenDatabase.ChunkTokens` | env/token_database.py:334-353 | the loop yields the chunks |
| `TokenChunks.ChunkedTokenDatabase.PrefixHash` | env/token_database.py:355-362 | the loop yields the chained keys |
| `TokenChunks.ChunkedTokenDatabase.ProcessTokens` | env/token_database.py:411-428 | masking drops exactly the first entries and changes no other |
| `TokenChunks.ChunkedTokenDatabase.Process` | env/token_database.py:401-446 | an unaligned mask fails first; tokens win over hashes; from tokens come the chunks that start behind the masked ones, each with its span and key, from hashes one entry each; without metadata or offsets an assertion fails as soon as there is an entry to make |
| `TokenChunks.EntryMeaning` | env/token_database.py:384-410 | span, content, adjacency, coverage and key of every entry |
| `SegmentSplit.JoinInvertsSplit` | env/token_database.py:467-488 | joining the pieces with the separator rebuilds the tokens if and only if no two matches overlap; even the length tells |
| `SegmentSplit.AlwaysInverse` | env/token_database.py:467-488 | a separator splits every sequence invertibly if and only if no proper prefix of it is also its suffix |
| `SegmentSplit.ApartMeansNoOverlap` | env/token_database.py:477-486 | the match loop never steps back exactly when no two matches share a token |
| `SegmentSplit.AllFound` | env/token_database.py:477-486 | the match loop finds exactly the positions where the separator occurs |
| `SegmentSplit.FoundInOrder` | env/token_database.py:477-486 | each once, and in order |
| `SegmentSplit.PieceAt` | env/token_database.py:477-486 | piece k lies between the end of the match before it and the start of its own |
| `SegmentSplit.SpansOfJoin` | env/token_database.py:541-559 | spans of a joined sequence hold the parts, one separator apart, and end with it |
| `SegmentSplit.SegmentTokenDatabase.FastSplit` | env/token_database.py:467-488 | the pieces; for fewer tokens than the separator the tokens and then a failure, and for an empty separator the tokens and then their pieces, since the yield is not followed by a return |
| `SegmentSplit.SegmentTokenDatabase.ProcessTokens` | env/token_database.py:525-559 | entries of the pieces that start at or after the masked tokens, with the same failures |
| `SegmentSplit.SegmentTokenDatabase.EntryMeaning` | env/token_database.py:541-559 | each entry names the hashed tokens with one separator between neighbours; the last one ends with the sequence exactly when no separators overlap |
| `SegmentSplit.SegmentTokenDatabase.EmptySeparator` | env/token_database.py:470-488 | with an empty separator the pieces' spans lie one sequence too far and the last ends at twice the length |
| `SegmentSplit.SegmentTokenDatabase.UnmaskedAt` | env/token_database.py:541-559 | without a mask entry j is that of part j |
| `SegmentSplit.SegmentTokenDatabase.EntryKeys` | env/token_database.py:553-559 | the key of a part is made of the hash of its tokens alone, and two parts have the same key exactly when these hashes agree |
| `SegmentSplit.SegmentTokenDatabase.ListEntries` | env/token_database.py:541-559 | the walk over the parts computes their entries |
| `SegmentSplit.SegmentTokenDatabase.MaskDropsPrefix` | env/token_database.py:548-558 | masked entries are a prefix of all entries |
| `SseStream.LinesInverse` | proxy/proxy.py:458-460 | a stream is its complete lines and then its tail |
| `SseStream.UnlinesInverse` | proxy/proxy.py:458-460 | and it can be cut into them in one way only |
| `SseStream.Continue` | proxy/proxy.py:456-460 | more bytes only continue the tail |
| `SseStream.StreamWrapper.Feed` | proxy/proxy.py:452-468 | pending and sent are functions of all bytes received so far |
| `SseStream.StreamWrapper.Finish` | proxy/proxy.py:473-479 | ends the stream with tail, metadata event and final marker |
| `SseStream.Drain` | proxy/proxy.py:458-468 | the inner loop sends the complete lines but the done lines, and keeps the tail |
| `SseStream.WrapChatStream` | proxy/proxy.py:439-481 | for any cutting into chunks, empty ones included, the output is the rewriting of all bytes; also after a failure of the instance |
| `SseStream.OutputLines` | proxy/proxy.py:448-479 | the lines of the output: the lines received without done lines, then the event, whose first line continues an unterminated tail, then the done line |
| `SseStream.NothingElseIsLost` | proxy/proxy.py:458-468 | without done lines in the input all of it is sent |
| `SseStream.IsDoneMeaning` | proxy/proxy.py:463-466 | a line is held back exactly when it is `data:` and the marker with only white space around it |
| `SseStream.KeptCounts` | proxy/proxy.py:462-468 | of the lines that are not held back each is kept as often as it came |
| `SseEvents.StdContinue` | proxy/proxy.py:448-479 | for the standard's lines, which end at either line end or both: more bytes only continue the tail |
| `SseEvents.OutputStdLines` | proxy/proxy.py:448-479 | the output's lines by the standard: those of what is passed on, then event, data, an empty line, the done line and an empty line |
| `SseEvents.OneDoneAndLast` | proxy/proxy.py:458-479 | the output ends with a done line, and it is the only one if and only if no line received hides one behind a carriage return |
| `SseEvents.PlainHidesNothing` | proxy/proxy.py:463-466 | a line whose only carriage return stands before its newline hides nothing |
| `SseEvents.HiddenDone` | proxy/proxy.py:463-466 | a line that goes on behind a carriage return makes two done lines |
| `SseEvents.OutputEvents` | proxy/proxy.py:431-479 | the events of the output: those passed on, one that the metadata ends, and last the done event; the metadata is an event of its own if and only if what was passed on is empty or ends with an empty line |
| `ChatClient.StreamMeta` | client/client.py:303-330 | the client's loop computes the reader's state |
| `ChatClient.StopsAtDone` | client/client.py:320-321 | the client stops exactly at a done line |
| `ChatClient.EventInForce` | client/client.py:307-313 | the event in force is the one that the last line to set it names, and an empty line sets it back |
| `ChatClient.MetaInForce` | client/client.py:323-328 | the metadata is the data of the last line that has some while the metadata event is in force |
| `ChatClient.ClientFindsMetadata` | client/client.py:303-330 | end to end, for a client that has met neither a done line nor an event of the metadata's name: it finds the request's metadata exactly when the bytes received left no unfinished line |
| `LinkMonitor.Monitor.AcquireTextSlot` | kdn_server/kdn_api.py:38-48 | entering as a text transfer is one step of the system |
| `LinkMonitor.Monitor.AcquireKvSlot` | kdn_server/kdn_api.py:51-57 | entering as a KV transfer is one step |
| `LinkMonitor.Monitor.ResumeTask` | kdn_server/kdn_api.py:44-57 | running on after a notification is one step |
| `LinkMonitor.Monitor.ReleaseSlot` | kdn_server/kdn_api.py:60-64 | releasing and notifying all is one step |
| `LinkMonitor.Monitor.CancelWait` | kdn_server/kdn_api.py:43-48 | a cancelled wait takes a text task off the count |
| `LinkMonitor.EveryRunCounts` | kdn_server/kdn_api.py:38-64 | over every run, cancellations included: at most one holder, the flag says whether there is one, the count is the number of waiting text tasks |
| `LinkMonitor.EveryRunIsSound` | kdn_server/kdn_api.py:38-64 | a run loses no wake-up, at any moment, if and only if all its cancellations are harmless; one without cancellations never does |
| `LinkMonitor.CountsKept` | kdn_server/kdn_api.py:38-64 | one step keeps holder and waiter counts |
| `LinkMonitor.WakeupKept` | kdn_server/kdn_api.py:44-64 | one step without cancellation keeps: on an idle link all text waiters are notified, and a sleeping KV task coexists with a notified text task |
| `LinkMonitor.TextGoesFirst` | kdn_server/kdn_api.py:51-57 | a KV task takes the link only when it is idle and no text task waits |
| `LinkMonitor.IdleLinkIsTaken` | kdn_server/kdn_api.py:44-57 | on an idle link with a waiting task some notified task takes the link when it runs |
| `LinkMonitor.StepsRunOut` | kdn_server/kdn_api.py:38-64 | without arrivals every step reduces the tasks left or the tasks ready |
| `LinkMonitor.NobodyIsLeftWaiting` | kdn_server/kdn_api.py:38-64 | a run that cannot continue without arrivals has served every task |
| `LinkMonitor.CancelKeepsWakeup` | kdn_server/kdn_api.py:47-48 | a cancelled waiter keeps the wake-ups if and only if the link is busy, another text task waits or no KV task sleeps |
| `LinkMonitor.CancelledTextStrandsKv` | kdn_server/kdn_api.py:47-57 | a run with one cancellation that leaves the link idle and a KV task asleep for good |
| `LinkSimulator.NetworkSimulator.SubmitTransfer` | kdn_server/kdn_api.py:175-191 | appends a task with a clamped payload, also during a service |
| `LinkSimulator.NetworkSimulator.Cancel` | kdn_server/kdn_api.py:190-191 | a caller that goes away: its task is served and never answered |
| `LinkSimulator.NetworkSimulator.ServeOne` | kdn_server/kdn_api.py:200-225 | the record of a transfer and the average after one service |
| `LinkSimulator.NetworkSimulator.Begin` | kdn_server/kdn_api.py:193-225 | takes the oldest task and extends the log by its service |
| `LinkSimulator.NetworkSimulator.Finish` | kdn_server/kdn_api.py:238-252 | sleeps for what remains, never ends before the acknowledgement, and answers exactly the task served unless it was cancelled |
| `LinkSimulator.NetworkSimulator.RuntimeStats` | kdn_server/kdn_api.py:230-236 | pending and active transfers, together those not done, and an average between zero and the largest delay |
| `LinkSimulator.ClampedMeaning` | kdn_server/kdn_api.py:147-150 | bandwidth in bytes a second but at least one, latency but at least zero, efficiency but between a hundredth and one |
| `LinkSimulator.ServiceMeaning` | kdn_server/kdn_api.py:211-225 | the latency apart, a service moves its payload at bandwidth times efficiency, or at one byte a second where that is more; the recorded delays in milliseconds, none negative |
| `LinkSimulator.EmaWeights` | kdn_server/kdn_api.py:223-223 | each queueing delay counts a fifth in the average, and four fifths of that for every service after it |
| `LinkSimulator.SleepCovers` | kdn_server/kdn_api.py:239-241 | a turn ends no earlier than its acknowledgement exactly when its sleep was not cut short or not needed |
| `LinkSimulator.EveryRunIsSerial` | kdn_server/kdn_api.py:193-241 | every run of the worker is a serial schedule |
| `LinkSimulator.RunServesTurns` | kdn_server/kdn_api.py:193-198 | turn k serves task k |
| `LinkSimulator.FinishIsTurn` | kdn_server/kdn_api.py:238-241 | finishing a begun service is a turn of the worker |
| `LinkSimulator.Accounting` | kdn_server/kdn_api.py:211-225 | queue plus transfer is the total if and only if service did not start before the payload was ready or takes no time |
| `LinkSimulator.SecondsNonNegative` | kdn_server/kdn_api.py:211-213 | a transfer takes no time exactly when there is no fixed latency and no payload |
| `LinkSimulator.WindowsDisjoint` | kdn_server/kdn_api.py:193-241 | in every run service windows never overlap, whatever the clock reads and however long sleeps overrun |
| `LinkSimulator.FinishBound` | kdn_server/kdn_api.py:211-214 | the last acknowledgement is no earlier than first start plus latencies plus bytes over rate, with equality exactly when the link never idles |
| `LinkSimulator.EmaBounds` | kdn_server/kdn_api.py:223-223 | the average stays between zero and the largest queueing delay |
| `LinkSimulator.MaxQueueIsMax` | kdn_server/kdn_api.py:222-223 | the bound is a delay that was seen, and none was larger |
| `Base64Url.RoundTrip` | kdn_server/kv_injector.py:15-18 | decoding inverts encoding on every byte string |
| `Base64Url.EncodeInjective` | kdn_server/kv_builder.py:25-27 | different byte strings have different encodings |
| `Base64Url.SymbolsOfLetters` | kdn_server/kv_injector.py:15-18 | the decoder reads every encoded digit as itself and the padding as padding |
| `Base64Url.GroupMeaning` | kdn_server/kv_builder.py:25-27 | the digits of a group spell to base 64 what its bytes spell to base 256, with zero bits at the end |
| `Base64Url.AlphabetInOrder` | kdn_server/kv_builder.py:25-27 | the alphabet: capital letters, small letters, figures, `-` and `_` |
| `KvArtifact.Redis.DumpKeys` | kdn_server/kv_builder.py:257-276 | one file and one manifest line per key with a value |
| `KvArtifact.Redis.InjectKvDir` | kdn_server/kv_injector.py:52-104 | writes the manifest's values up to the first bad line; a missing manifest fails |
| `KvArtifact.Redis.InjectOne` | kdn_server/kv_injector.py:66-96 | one line: blank, not JSON, not an object, without fields or key, missing file, or written |
| `KvArtifact.DumpThenInject` | kdn_server/kv_builder.py:257-276 | injecting a dumped directory writes exactly the dumped pairs, leaves other keys alone, misses no file, and its payload is the sum of manifest sizes |
| `KvArtifact.DumpedFiles` | kdn_server/kv_builder.py:265-267 | each dumped key has its own file with its value |
| `KvArtifact.FileOfInjective` | kdn_server/kv_builder.py:265-271 | different keys have different file names |
| `KvArtifact.NothingDumped` | kdn_server/kv_builder.py:260-263 | nothing is dumped exactly when no key has a value |
| `KvArtifact.OnlyListedKeysChange` | kdn_server/kv_injector.py:86-90 | injection changes no key that no line names |
| `KvArtifact.InjectStops` | kdn_server/kv_injector.py:70-78 | lines after the first bad one have no effect |
| `KvArtifact.FirstBadLine` | kdn_server/kv_injector.py:71-84 | the first line that cannot be read ends the injection with what the lines before it did; a line that is JSON but no object fails in another way than the rest |
| `KvArtifact.RecordsAreCounted` | kdn_server/kv_injector.py:66-104 | every record of a readable manifest is counted once, as injected if its file is there and else as missing |
| `KvArtifact.LastLineDecides` | kdn_server/kv_injector.py:84-90 | of a readable manifest the last line that gives a key a file decides its value, and a key that no line gives one keeps what it had |
| `TextDb.NormalizeIsIdempotent` | kdn_server/text_db.py:16-19 | normalizing again, or reading a normalized file, changes nothing |
| `TextDb.NewlinesKeepLines` | kdn_server/text_db.py:18-18 | the text keeps its lines, however they ended: after the replacements newlines cut it as carriage returns, newlines or both together cut it before |
| `TextDb.CleanKidOfKid` | kdn_server/text_db.py:156-156 | a digest is its own cleaned form |
| `TextDb.CleanKidOfSpelling` | kdn_server/text_db.py:156-156 | a digest may be in upper case and padded with white space |
| `TextDb.TextDatabase.RegisterText` | kdn_server/text_db.py:101-153 | kid, status and length; a new hash gets a fresh row and a file with the normal form, a known one changes nothing; every indexed file hashes to its kid |
| `TextDb.TextDatabase.MarkKvReady` | kdn_server/text_db.py:155-178 | marks an existing row, or fails with an empty or unknown kid |
| `TextDb.TextDatabase.GetMany` | kdn_server/text_db.py:180-259 | items and misses in input order |
| `TextDb.TextDatabase.DeleteOne` | kdn_server/text_db.py:312-348 | removes row and, if possible, file; the invariant holds either way |
| `TextDb.RegisterIsIdempotent` | kdn_server/text_db.py:101-153 | registering an equal text again changes nothing |
| `TextDb.MergesBack` | kdn_server/text_db.py:230-259 | items and misses merge back to the ids asked for |
| `TextDb.ItemHashesToItsId` | kdn_server/text_db.py:230-259 | a stored item holds the very text its id is the hash of |
| `TextDb.FileLost` | kdn_server/text_db.py:230-259 | a lost text file takes only its own text along |
| `TextDb.FoundAreStored` | kdn_server/text_db.py:230-259 | an id is found with its row and the text of its file, and missed exactly when it lacks one of them |
| `KeySettle.WaitKeysSettle` | kdn_server/kv_builder.py:185-236 | the polling loop returns the keys of the first quiet poll, or times out |
| `KeySettle.SettledMeaning` | kdn_server/kv_builder.py:185-236 | it succeeds exactly when two polls at least the quiet period apart see the same new keys and none in between sees others, and then there are new keys |
| `KeySettle.GoneInBetween` | kdn_server/kv_builder.py:206-216 | keys that vanish and come back count as having stayed |
| `KvBuild.KdnServer.BuildFromText` | kdn_server/kv_builder.py:77-164 | rows and directories after a build of a text, with the model call and the polls as inputs, and how it ends; a failed build leaves no directory |
| `KvBuild.KdnServer.DumpAndMark` | kdn_server/kv_builder.py:99-151 | dumps and marks, or fails for want of keys or of a row |
| `KvBuild.KdnServer.BuildKv` | kdn_server/kdn_api.py:500-555 | rebuilding from stored text hashes to the id asked for, so marking always finds its row |
| `KvBuild.MarksStayTrue` | kdn_server/kv_builder.py:85-164 | the ready marks stay true if and only if the row was not marked or the keys settle and some have values |
| `KvBuild.BuildLeaves` | kdn_server/kv_builder.py:85-164 | a failed build leaves the rows alone and no directory of its own, one that succeeds its directory; no other row or directory changes |
| `KvBuild.MarkOutlivesDirectory` | kdn_server/kv_builder.py:85-164 | a build and then a rebuild with the model unreachable: the row says ready and the directory is gone |
| `KnowledgeIds.ParseHexReads` | store/knowledge_base.py:153-153 | the digits of a number spell that number, and no others do in as many digits |
| `KnowledgeIds.HeadAndTail` | store/knowledge_base.py:153-165 | of an id that spells n, the two numbers are the 64 highest and the 64 lowest bits of n, less the top one |
| `KnowledgeIds.RegisterKeeps` | store/knowledge_base.py:156-171 | registering, falling back or failing keeps every other number and the maps-back invariant |
| `KnowledgeIds.DropKeeps` | store/knowledge_base.py:212-225 | deleting keeps the invariant and the other numbers |
| `KnowledgeIds.NumbersAreDistinct` | store/knowledge_base.py:156-171 | no two ids share a number |
| `KnowledgeIds.RegisterAgain` | store/knowledge_base.py:306-306 | asking again for a stored id's number cannot fail |
| `KnowledgeIds.WhenNoNumberIsLeft` | store/knowledge_base.py:161-167 | without stale numbers an id with readable digits is refused exactly when other registered ids hold both its numbers |
| `KnowledgeIds.RegisterStale` | store/knowledge_base.py:163-170 | a registration leaves a stale number behind if and only if the id is stored under its second number and its first is free or its own |
| `KnowledgeIds.DropStale` | store/knowledge_base.py:212-225 | a deletion leaves none behind |
| `KnowledgeIds.NumbersCanGoStale` | store/knowledge_base.py:163-170 | two ids with one first number: the second moves when the first is gone, and its own deletion leaves its old number taken |
| `KnowledgeIds.RunsWithoutStale` | store/knowledge_base.py:156-225 | a run never has a stale number, at any time, if and only if no insertion moves an id |
| `KnowledgeIds.EveryRunMapsBack` | store/knowledge_base.py:156-225 | over every run of insertions and deletions ids map back and numbers are distinct |
| `KnowledgeIndex.FilterHits` | store/knowledge_base.py:336-349 | the filter loop computes the filtered list |
| `KnowledgeIndex.FilteredCounts` | store/knowledge_base.py:336-349 | the list keeps exactly the hits, each as often as it occurs, that score at least the least score and, when the first hit scores above zero, at least its score times the ratio |
| `KnowledgeIndex.KeptIsPrefix` | store/knowledge_base.py:336-349 | of a descending list exactly a prefix passes |
| `KnowledgeIndex.FilteredIsPrefix` | store/knowledge_base.py:336-349 | the filtered ranking is a prefix of the ranking |
| `KnowledgeIndex.TopCommutesWithFilter` | store/knowledge_base.py:336-375 | taking the first k and filtering commute |
| `KnowledgeIndex.RankingsAgree` | store/knowledge_base.py:352-375 | any two exact rankings have the same scores, filtered or not |
| `KnowledgeIndex.NotBetter` | store/knowledge_base.py:352-375 | position by position no exact ranking beats another |
| `KnowledgeIndex.TopIsRanking` | store/knowledge_base.py:368-375 | the first k of all units sorted are an exact ranking |
| `KnowledgeIndex.SortHitsSorts` | store/knowledge_base.py:374-375 | sorting is descending and keeps the hits |
| `KnowledgeTable.KnowledgeTable.RegisterKid` | store/knowledge_base.py:156-171 | first number, second number or failure |
| `KnowledgeTable.KnowledgeTable.UpsertKid` | store/knowledge_base.py:197-210 | inserts the unit or changes nothing; ids keep mapping back |
| `KnowledgeTable.KnowledgeTable.DeleteKids` | store/knowledge_base.py:212-225 | removes exactly the cleaned ids |
| `KnowledgeTable.KnowledgeTable.NumberOf` | store/knowledge_base.py:306-306 | the number of a stored id, asked for again when it is zero |
| `KnowledgeTable.KnowledgeTable.BuildIndex` | store/knowledge_base.py:286-309 | the index holds each unit's vector under its number |
| `KnowledgeTable.KnowledgeTable.Resolve` | store/knowledge_base.py:352-364 | an index answer becomes hits, skipping what has no unit |
| `KnowledgeTable.KnowledgeTable.Scan` | store/knowledge_base.py:368-374 | all units scored and sorted |
| `KnowledgeTable.KnowledgeTable.SearchByEmbedding` | store/knowledge_base.py:315-375 | right after a build, or without an index, the result is a prefix of an exact ranking of all units by the product of their vectors with the query: of the ranked units exactly those that reach both thresholds |
| `KnowledgeTable.AnswerIsRanking` | store/knowledge_base.py:352-366 | an exact answer of a current index is an exact ranking of the units |
| `KnowledgeTable.ResolvedAnswers` | store/knowledge_base.py:352-364 | each best entry resolves to its unit and the padding to nothing |
| `CanonicalJson.ReadsBack` | core/instance_capability.py:71-74 | a reader of JSON texts, written down on its own, reads the printed text back: it gives the value and what comes after it |
| `CanonicalJson.PrintInjective` | core/instance_capability.py:71-74 | the compact sorted text of two values is equal exactly when the values are |
| `CanonicalJson.PrintedApart` | core/instance_capability.py:71-74 | the text is self-delimiting: what follows a value is determined too |
| `CanonicalJson.InsertionOrderIsIgnored` | core/instance_capability.py:71-74 | sorting the keys in any order of insertion gives the same list |
| `CanonicalJson.SortedIsUnique` | core/instance_capability.py:71-74 | a set of strings has one strictly increasing list |
| `CanonicalJson.BodyInjective` | core/instance_capability.py:71-74 | escaped strings are injective and end at their closing quote |
| `Capability.At` | core/instance_capability.py:109-115 | the lookup loop follows a path, with nothing for a missing key |
| `Capability.PathsLeadToValues` | core/instance_capability.py:97-115 | each compared path of a canonical dictionary leads to its field's value |
| `Capability.CanonicalMeansValues` | core/instance_capability.py:57-68 | canonical dictionaries are equal exactly when all seventeen compared values are |
| `Capability.CanonicalMeansFields` | core/instance_capability.py:57-68 | canonical dictionaries are equal exactly when all fields agree, the features as sets |
| `Capability.TopFieldsAt` | core/instance_capability.py:57-68 | schema version, tokenizer and adapters are found at their paths |
| `Capability.ModelFieldsAt` | core/instance_capability.py:57-68 | the model's fields are found at their paths |
| `Capability.LayoutFieldsAt` | core/instance_capability.py:57-68 | the fields of the KV layout are found at their paths |
| `Capability.BlockFieldsAt` | core/instance_capability.py:57-68 | block size and layout parameters are found at their paths |
| `Capability.ParallelismFieldsAt` | core/instance_capability.py:57-68 | the three degrees of parallelism and the world size are found at their paths |
| `Capability.RuntimeFieldsAt` | core/instance_capability.py:57-68 | the runtime's fields are found at their paths |
| `Capability.FeaturesAt` | core/instance_capability.py:65-67 | the features are found at their path, sorted and each once |
| `Capability.AdapterFieldsAt` | core/instance_capability.py:57-68 | an adapter's fields are found under their names |
| `Capability.AdapterInjective` | core/instance_capability.py:57-68 | two adapters have the same dictionary exactly when they are the same |
| `Capability.FeatureOrderIsIgnored` | core/instance_capability.py:65-67 | changing the features keeps the canonical form exactly when the set of features stays the same |
| `Capability.CompareCapabilities` | core/instance_capability.py:118-153 | status, mismatch list and fingerprints of a comparison; compatible exactly when both sides have every field and all agree, incompatible exactly when some field has different values; unknown when a side is missing; compatible sides have equal fingerprints |
| `Capability.StatusMeaning` | core/instance_capability.py:118-153 | compatible if and only if every path has a value on both sides and the canonical forms are equal; incompatible implies they differ |
| `Capability.StatusByFields` | core/instance_capability.py:118-153 | in fields: incompatible if and only if some field has different values on both sides, compatible if and only if both sides have every field and all agree |
| `Capability.MismatchesMeaning` | core/instance_capability.py:137-153 | the mismatch list has an entry for a path exactly when the field there is missing on a side or differs |
| `Capability.FingerprintMeaning` | core/instance_capability.py:77-79 | fingerprints agree exactly with canonical forms, as long as the hash does not confuse the two texts |
| `Capability.ComparisonIsSymmetric` | core/instance_capability.py:118-153 | swapping sides keeps the status and swaps the entries |
| `Capability.CanonicalIsWellFormed` | core/instance_capability.py:57-68 | a capability with JSON free-form parts has a JSON canonical form |
| `Sampling.StartMeaning` | instance/TPOT_predictor/tpot_predictor.py:156-171 | the windows are as long as asked for, but at least one token, and overlap as asked for but for one token; the starts are the given one, the first length and every stride-th length from the lower of them on |
| `Sampling.PlanStarts` | instance/TPOT_predictor/tpot_predictor.py:156-171 | exactly the given start, the first length and the grid from the lower of them; every length of the range lies in some window |
| `Sampling.PlanConfigs` | instance/TPOT_predictor/tpot_predictor.py:156-181 | exactly the clamped targets of the starts whose windows meet the range; with an exact offset a length of the range is observed exactly when it exceeds the offset |
| `Sampling.ObservedLengths` | instance/TPOT_predictor/tpot_regressor.py:447-456 | the observed lengths of the range, sorted and distinct |
| `Sampling.MissingAndGap` | instance/TPOT_predictor/tpot_regressor.py:457-470 | the missing lengths and the longest run of them |
| `Sampling.CheckLengthCoverage` | instance/TPOT_predictor/tpot_regressor.py:447-480 | covered and missing make up the range; ratio; largest gap is the longest missing run |
| `Sampling.PlanSatisfiesChecker` | instance/TPOT_predictor/tpot_regressor.py:281-288 | a fully observed plan leaves nothing above the offset missing; with nothing else observed the range is covered if and only if it starts above the offset |
| `Sampling.IntervalSize` | instance/TPOT_predictor/tpot_regressor.py:457-457 | the expected list has one entry per length |

## Left out

- Tensors, devices, NUMA and pinned memory, the delegating allocators, locks, statistics logging: buffers are ranges of integers and the allocators are sequential.
- The sorted container's internals: insertion points, removal and addition are modelled on a sequence of block objects.
- TensorMemoryAllocator.BatchedFree: requires a scan that is not mis-seeded, since BatchRefinesOneByOne says exactly what the other case returns, and live objects that are not empty.
- NormalizeMeaning: hash values of other types, for which the source raises a type error; the concrete hash functions, Python's integer parser and UTF-8 encoder, and request configurations, which the source ignores in keys.
- The hashes branch of SegmentTokenDatabase, which is that of TokenKeys.ProcessHashes.
- Fields of an event other than the client reads, its cutting of bytes into lines, and the printing of content.
- A client that closes the chat stream before it ends, and the release of the instance's slot.
- RuntimeStats: the values before the source rounds them to three digits; times are reals. Stopping the worker in the middle of a service.
- Fairness of the event loop: progress is stated as steps that are enabled and runs that end.
- Manifest lines below the level of records, file-system failures, file-name length limits, the store's key scan and its filters, and the flush before a build.
- WaitKeysSettle: the polls before the deadline are an input; the shortest waits that the source allows are not modelled.
- Embeddings, metadata and the snapshot of the text database; concurrent registration.
- CleanKid: lower-cases ASCII letters only, since no other character becomes a hexadecimal digit.
- Digits that Python's integer parser accepts besides plain hexadecimal ones, such as underscores or a prefix, in ParseHex.
- The integer-keyed insertion path of the knowledge table, server lists of units, and cloning.
- SearchByEmbedding: the index's answer is an input required to be exact; floating-point rounding is not modelled.
- Numbers in capabilities are printed tokens, so numerically equal tokens that print differently count as different.
- Validation of capability dictionaries before they become typed values; nulls inside free-form dictionaries are kept as values, only absent fields are dropped.
- The other planner, `_build_configs_for_sequence_range`, whose last window can stop short of the range; regressors, filters and the collection of records.
- Routes, HTTP clients, heartbeats, command lines, tokenizers, routing strategies and everything in files that the modelled ones only call.
