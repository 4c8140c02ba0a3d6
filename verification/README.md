# k4c: allocators, containers and the buffered reader

A model of the stateful parts of the k4c C library, with machine-checked proofs of what they
keep. Every object the C code updates in place is a class with the same fields, and its methods
follow the C functions branch by branch; the meaning of each operation is a function on plain
values, and the laws are proved about those functions and over whole runs.

| files | part of the library |
|---|---|
| `Sequences.dfy`, `Sizes.dfy` | shared definitions; checked `size_t` arithmetic and alignment |
| `DoublyLinkedList.dfy`, `HeapBlocks.dfy`, `HeapEffects.dfy`, `HeapRuns.dfy`, `GeneralHeap.dfy`, `HeapContents.dfy` | the free-list allocator: block list, the exact effect of each request, runs, the buffer itself, and what its clients see |
| `ReaderOutcomes.dfy`, `Reader.dfy`, `ReaderRuns.dfy` | the buffered reader |
| `HashLoad.dfy`, `HashModel.dfy`, `HashBuckets.dfy`, `HashMap.dfy`, `HashWalk.dfy` | the chained hash map, its iterator and runs of operations on it |
| `Iterators.dfy`, `Ordering.dfy`, `Vector.dfy`, `VectorSearch.dfy` | the vector, collecting into it, searching it |
| `BinaryHeap.dfy`, `Deque.dfy`, `String.dfy` | the other array containers |
| `ArenaChunks.dfy`, `Arena.dfy` | the bump allocator, as a value and over its buffer |
| `Allocators.dfy` | the allocator handle that containers use, over the counting allocator or an arena |
| `ArenaClients.dfy` | a vector and a string growing side by side on one arena |

Constants are those of an LP64 build: `size_t` has 64 bits, `K4C_MEMORY_ALIGN` is 16, a heap block
header takes 32 bytes, an arena header 16, a string header 40, a bucket 8, a hash map entry 48 (its
`max_align_t` takes 32). The code never checks
that the heap header is a multiple of the alignment; here that follows from the constants.

How the parts are abstracted:

- The heap's buffer is an array of bytes that holds headers and payloads. Writing a header
  overwrites its 32 bytes with arbitrary values, so that no payload byte changes is a statement
  about the layout. A cast from an address to a header is a lookup by offset, a pointer is an
  offset. The sequence `view` of blocks is what the list of headers stands for.
- The reader's source decides at every read how much it delivers. A reliable one delivers at least
  one byte until it is exhausted; any other may stop early and may report an error together with
  bytes.
- Hash functions, key equalities and comparisons are arbitrary functions. The equality must be an
  equivalence that respects the hash (docs/docs/hash/hashmap.md, the notes on `key_eq`), the comparison
  a total preorder whose sign flips when its arguments are exchanged.
- The allocator handle keeps a ledger of the blocks its client holds, each with the bytes last asked
  for. Over the counting allocator any request may fail, and one for more than `PTRDIFF_MAX` bytes
  does, as with every LP64 `malloc`; over an arena requests are answered as `ArenaChunks` says, which
  `Arenas.Arena` is proved to do, and every block is a chunk of the bytes asked for, rounded up. A
  request that would fail an assertion of the arena sets the flag `tripped`, so that no container
  ever trips it is part of the containers' contracts. Every refusal is counted in `failed`, and the
  contracts of the containers say that `NO_MEMORY` is returned exactly when one request of this very
  call was refused.

## What turned out false

The documentation calls the heap a coalescing free list (docs/docs/allocators/general-heap.md). That no two
neighbouring blocks are both free is not an invariant of the code: when a reallocation shrinks a
block in place and the next block is free, the tail that is cut off becomes a free block beside it
and is not merged (`lib/mem/general_heap.c:184`). `HeapRuns.ShrinkLeavesFreeNeighbours` is such a run; it ends
with every pointer released and less than the whole buffer available. `HeapRuns.StepPairs` gives the exact
condition for one step: the number of free neighbours rises if and only if the step is such a cut.
`HeapRuns.ReleaseAllRestores` gives it for what that costs: releasing every live pointer restores the single block of a fresh
heap if and only if no two neighbours were free before.

In `k4c_hash_common_capacity_for_size` the overflow branch of the doubling (`lib/hash/common.h:86-91`) cannot be
taken: three times the capacity was found to fit just before.

## Model

| member | source | states |
|---|---|---|
| `Sizes.MulOverflow` | lib/mem/size.h:46-53 | the division test refuses exactly the products above `SIZE_MAX` |
| `Sizes.HighMaskRoundsDown` | lib/mem/size.h:61 | clearing the low bits with a mask rounds down to a multiple, for every width and power of two |
| `Sizes.AlignUpOverflow` | lib/mem/size.h:55-63 | the least multiple of the alignment not below the value, or overflow exactly when the sum does not fit |
| `Sizes.AlignMonotone` | lib/mem/size.h:55-63 | a larger request never aligns to a smaller block |
| `DoublyLinkedLists.List.InsertAfter` | lib/datastruct/doubly_linked_list.c:122-146 | the node stands right behind the given member and all others keep their order; links stay mutual inverses |
| `DoublyLinkedLists.List.PopLeft` | lib/datastruct/doubly_linked_list.c:148-168 | takes the first member and leaves it unlinked |
| `DoublyLinkedLists.List.PopBack` | lib/datastruct/doubly_linked_list.c:170-190 | takes the last member and leaves it unlinked |
| `DoublyLinkedLists.List.Remove` | lib/datastruct/doubly_linked_list.c:192-214 | takes out exactly the given member, wherever it is, and leaves it unlinked |
| `HeapBlocks.PayloadsDisjoint` | lib/mem/general_heap.c:85-98 | payloads are aligned, inside the buffer and apart from every other block and header |
| `HeapBlocks.SplitTiles` | lib/mem/general_heap.c:85-98 | splitting keeps the blocks tiling the buffer |
| `HeapBlocks.CoalesceTiles` | lib/mem/general_heap.c:100-115 | merging both ways keeps the blocks tiling the buffer |
| `HeapBlocks.CoalesceUsed` | lib/mem/general_heap.c:100-115 | merging leaves the set of live blocks as it was |
| `HeapEffects.AllocEffect` | lib/mem/general_heap.c:117-140 | fails exactly when aligning overflows or no free block holds the aligned size; otherwise the lowest fit goes live. It keeps all its bytes if and only if at most a header and a unit of alignment would be cut off; if not, it keeps exactly the size and the rest is a free block behind it. Every other block, live or free, is as it was |
| `HeapEffects.TrimmedCut` | lib/mem/general_heap.c:85-98 | the threshold of the split and both sizes it leaves, in arithmetic |
| `HeapEffects.FirstFitIsLowest` | lib/mem/general_heap.c:124-137 | the scan stops at the fitting free block with the lowest address, or there is none |
| `HeapBlocks.FreeEffect` | lib/mem/general_heap.c:142-160 | releasing takes exactly that block out of the live ones |
| `HeapEffects.ResizeEffect` | lib/mem/general_heap.c:162-205 | the block keeps its address if and only if it holds the aligned size, alone or together with a free successor and the header between them; otherwise the lowest fit replaces it, and the answer is null exactly when nothing fits. The surplus is cut as for an allocation, and the other live blocks stay |
| `HeapEffects.ResizeEdges` | lib/mem/general_heap.c:162-178 | reallocating a null pointer allocates, and reallocating to size zero releases exactly that block |
| `HeapRuns.Accounts` | lib/mem/general_heap.c:269-284 | free bytes, used bytes and headers add up to the capacity |
| `HeapRuns.RunTiles` | lib/mem/general_heap.c:85-205 | after any run on live pointers the blocks tile the buffer and the bytes add up |
| `HeapRuns.ReleasePairs` | lib/mem/general_heap.c:100-160 | a release leaves the number of free neighbours exactly as it was |
| `HeapRuns.StepPairs` | lib/mem/general_heap.c:117-205 | free neighbours become more, and then by one, if and only if a shrink cuts a block beside a free one |
| `HeapRuns.RunPairs` | lib/mem/general_heap.c:117-205 | over a run they become at most as many more as there were such cuts |
| `HeapRuns.FreshRunCoalesced` | lib/mem/general_heap.c:117-205 | without such a cut no two neighbours are ever both free |
| `HeapRuns.ReleaseAllLegal` | lib/mem/general_heap.c:142-160 | live pointers can be released in any order, and then nothing is live |
| `HeapRuns.ReleaseAllRestores` | lib/mem/general_heap.c:142-160 | releasing every live pointer, in any order, restores the fresh heap if and only if no neighbours were both free; one header is lost for each pair that was |
| `HeapRuns.FreshRunRestored` | lib/mem/general_heap.c:117-205 | any run without such a cut, then releasing every live pointer in any order, gives back the fresh heap |
| `HeapRuns.ShrinkLeavesFreeNeighbours` | lib/mem/general_heap.c:180-186 | a run of three calls after which everything is released and the heap is still in two pieces |
| `GeneralHeaps.Heap.SplitBlock` | lib/mem/general_heap.c:85-98 | the list of headers becomes the split list, whose sizes `HeapEffects.TrimmedCut` gives; no payload byte of any resulting block changes |
| `GeneralHeaps.Heap.CoalesceBlock` | lib/mem/general_heap.c:100-115 | the list of headers becomes the merged list; no live payload byte changes |
| `GeneralHeaps.Heap.Alloc` | lib/mem/general_heap.c:117-140 | the first-fit scan over the list gives the lowest fit, cut as `HeapEffects.AllocEffect` says, or null exactly when nothing fits; no live payload byte changes |
| `GeneralHeaps.Heap.Free` | lib/mem/general_heap.c:142-160 | releases and merges as the value model says; no byte of a block that stays live changes |
| `GeneralHeaps.Heap.Resize` | lib/mem/general_heap.c:162-205 | stays, absorbs or moves exactly when `HeapEffects.ResizeEffect` says; the first min(old, new) bytes arrive, other live payloads and a refused block are untouched |
| `GeneralHeaps.Heap.Available` | lib/mem/general_heap.c:269-284 | the walk over the list sums the free payload bytes |
| `GeneralHeaps.Heap.Create` | lib/mem/general_heap.c:207-247 | one free block and three blocks of the allocator, or exactly the blocks held before and one refused request |
| `GeneralHeaps.Heap.Destroy` | lib/mem/general_heap.c:286-295 | exactly the ledger from before the heap was created |
| `HeapContents.Execute` | lib/mem/general_heap.c:117-205 | over any run of requests and client stores every answer is what `HeapEffects` says of the blocks at that moment, so that only what does not fit is refused, and the heap is a map from live pointers to bytes: an allocation adds one entry, a release removes one, a reallocation moves one with its first min(old, new) bytes, and only stores change bytes |
| `HeapContents.BytePersists` | lib/mem/general_heap.c:162-205 | a byte stays with its block, wherever reallocation takes it, until the client frees the block, shrinks it below the byte or stores there |
| `HeapContents.ServedRelated` | lib/mem/general_heap.c:117-205 | each single request changes that map as its client expects |
| `GeneralHeaps.MovePreserves` | lib/mem/general_heap.c:188-205 | allocating, copying and releasing in that order keeps the contents and every bystander |
| `ReaderOutcomes.DelimiterInWindow` | lib/io/reader/reader.c:163-211 | what the buffered bytes already decide about the answer on the whole stream |
| `ReaderOutcomes.DelimiterExactly` | lib/io/reader/reader.c:163-211 | which streams give EOF, overflow, a delimited piece or a tail, said without searching |
| `Readers.Reader.Rebase` | lib/io/reader/reader.c:39-62 | the window keeps its bytes and moves only when it must; refused exactly when the room exceeds the capacity, or the bytes that would have to move outnumber the room |
| `Readers.Reader.FillMore` | lib/io/reader/reader.c:69-95 | succeeds exactly when the window grew; for the callers' arguments a refusal is what the source answered to a read made by this very call |
| `Readers.Reader.TakeByte` | lib/io/reader/reader.c:118-136 | over a reliable source the next pending byte, or EOF exactly when there is none; a buffered byte costs no read; a failing call consumes nothing, also when bytes come with an error |
| `Readers.Reader.TakeArray` | lib/io/reader/reader.c:138-161 | a count above the capacity overflows without a read, whatever the source; otherwise a reliable source gives EOF exactly when fewer bytes are to come, and the next `count` bytes if not; fetches no byte beyond the count, and none at all when they are buffered |
| `Readers.Reader.TakeDelimiter` | lib/io/reader/reader.c:163-211 | over a reliable source the shortest piece ending in the delimiter, the whole short tail, EOF exactly when nothing is to come, or overflow exactly when the first `capacity` bytes lack the delimiter; what the buffer decides costs no read; any other failure is the source's answer during this call |
| `ReaderRuns.ServeInOrder` | lib/io/reader/reader.c:118-211 | over a run no byte is lost, repeated or reordered |
| `ReaderRuns.Converse` | lib/io/reader/reader.c:118-211 | all answers of a run depend on the stream and the capacity alone, never on the source's chunk sizes; for any source consumed bytes plus pending bytes are the stream |
| `ReaderRuns.LinesJoin` | lib/io/reader/reader.c:163-211 | the delimited pieces put together are the stream |
| `ReaderRuns.LinesShape` | lib/io/reader/reader.c:163-211 | the delimiter ends every piece but perhaps the last and occurs nowhere else |
| `ReaderRuns.LinesServed` | lib/io/reader/reader.c:163-211 | repeated calls give all the lines and then EOF if and only if every line fits the buffer |
| `ReaderRuns.LongLineBlocks` | lib/io/reader/reader.c:184-186 | a line that does not fit blocks the stream for good |
| `HashLoad.ShouldGrowExact` | lib/hash/common.h:54-68 | despite its overflow branches the load test is the test in unbounded arithmetic |
| `HashLoad.CapacityForSize` | lib/hash/common.h:71-95 | the least capacity 16 * 2^k that holds the size, or overflow exactly when there is none |
| `HashLoad.LeastBound` | lib/hash/common.h:71-95 | that capacity is at most twice what the load needs |
| `HashLoad.ReservedNeverGrows` | lib/hash/common.h:54-95 | what was reserved is never grown again |
| `HashLoad.GrowthGrows` | lib/hash/common.h:54-95 | a table due to grow gets a larger capacity |
| `HashLoad.GrowthDoubles` | lib/hash/common.h:54-95 | a table due to grow for one more entry doubles, or overflows exactly when the doubled capacity cannot be scaled |
| `HashModel.LookupPut` | lib/hash/hashmap.c:259-328 | reading after a write, under every equal and every other key |
| `HashModel.LookupRemove` | lib/hash/hashmap.c:319-351 | reading after a removal, under every equal and every other key |
| `HashModel.PutSeparated` | lib/hash/hashmap.c:259-317 | no two stored keys are ever equal; a write adds its key, or none when an equal one is stored, which stays |
| `HashModel.RemoveSeparated` | lib/hash/hashmap.c:330-351 | a removal takes out one entry or none |
| `HashBuckets.Find` | lib/hash/common.c:112-137 | a matching entry of the chain, or none when there is none |
| `HashBuckets.PushFront` | lib/hash/common.c:195-201 | one entry more, in its own bucket, all chains still disjoint and ending |
| `HashBuckets.RemoveMatch` | lib/hash/common.c:139-172 | unlinks one matching entry and no other, or proves there is none |
| `HashBuckets.Rehash` | lib/hash/common.c:74-110 | the same entries, each once, each in the bucket of its hash modulo the new capacity, the old array's block exchanged for the new one's; the old table and ledger intact when the request is refused or overflows, and only then |
| `HashMaps.MissIsAbsence` | lib/hash/hashmap.c:97-113 | an equal key cannot hide in another bucket |
| `HashMaps.HashMap.Create` | lib/hash/hashmap.c:178-230 | an empty map and two blocks of its own, of the bytes that handle and buckets take, or exactly the blocks held before; overflow exactly when header, rounded key and value together exceed `SIZE_MAX` |
| `HashMaps.BlockSizeExactly` | lib/hash/hashmap.c:192-203 | an entry takes header, key rounded up to the alignment and value, or overflows exactly when that sum does |
| `HashMaps.HashMap.Get` | lib/hash/hashmap.c:319-328 | reads the mathematical map |
| `HashMaps.HashMap.Reserve` | lib/hash/hashmap.c:232-257 | reaches exactly the larger of the old and the least sufficient capacity and changes nothing else; overflow if and only if that bucket array is needed and cannot be asked for, `NO_MEMORY` if and only if the request was refused; a failure changes nothing |
| `HashMaps.HashMap.PutEntry` | lib/hash/hashmap.c:259-317 | overwrites or adds one key; the entry's block has exactly the bytes of header, rounded key and value. A new key doubles the capacity exactly when more than three quarters would be used, and overflows exactly when the bytes of the doubled array do not fit; `NO_MEMORY` if and only if a request was refused; a failure leaves the map, also when the table had already grown, and the client's other blocks stay |
| `HashMaps.HashMap.RemoveEntry` | lib/hash/hashmap.c:330-351 | deletes the key and returns the block of its entry and no other |
| `HashMaps.AddBlock` | lib/hash/hashmap.c:288-316 | a new entry's block is its own and has the bytes of an entry; the client's other blocks are as they were |
| `HashMaps.ReserveOverflowsBound` | lib/hash/hashmap.c:232-257 | only beyond three 64ths of the address space can a bucket array not be asked for |
| `HashMaps.DoubleOverflows` | lib/hash/hashmap.c:280-287 | a table due to grow asks for twice the buckets, and that overflows exactly when their bytes do |
| `HashWalks.WalkAll` | lib/hash/hashmap.c:115-133 | the chains in bucket order list every entry once |
| `HashWalks.MapIterator.Next` | lib/hash/hashmap.c:115-149 | the next entry or none; the size hint stays the number still to come |
| `HashWalks.Drain` | lib/hash/hashmap.c:115-149 | iterating to the end yields what was still to come, in order, and the hint reaches zero |
| `HashWalks.Entries` | lib/hash/hashmap.c:359-385 | an iterator over an unmodified map yields each entry exactly once |
| `HashWalks.Destroy` | lib/hash/hashmap.c:387-398 | gives back exactly the handle, the bucket array and the block of each entry; the client's other blocks stay |
| `HashWalks.Execute` | lib/hash/hashmap.c:232-351 | after any run the map is the one the successful operations give and owns one block an entry; every failure is a counted refusal or an overflow with its cause; a run that n reserved entries are enough for never touches the bucket array, whatever is refused |
| `HashWalks.AllSucceed` | lib/hash/hashmap.c:232-351 | in a run without refusals, with fewer entries than that bound, every operation succeeds |
| `HashWalks.ReplayReadsLastWrite` | lib/hash/hashmap.c:232-351 | after any run a key reads as its last successful write |
| `Allocators.Allocator.ShouldFail` | lib/mem/test_allocator.c:40-52 | refuses exactly when the countdown is at zero |
| `Allocators.Allocator.AllocEntry` | lib/mem/test_allocator.c:54-70 | counts what succeeded and what failed, and counts the planned failure down; over an arena the answer is null exactly when no multiple of the alignment that holds the request fits behind the offset, and otherwise the place behind the new header |
| `Allocators.Allocator.Alloc` | lib/mem/allocator.c:31-49 | a new block of the size asked for, or a counted refusal; the client's other blocks stay |
| `Allocators.Allocator.ResizeEntry` | lib/mem/test_allocator.c:86-110 | null pointers, size zero, growing and shrinking, with every counter; over an arena the assertion trips exactly when a smaller multiple than the block's own holds the request, the address stays exactly when both round to the same size, and otherwise it is a new allocation |
| `Allocators.Allocator.Resize` | lib/mem/allocator.c:58-82 | one block of the client is replaced or kept, or a refusal is counted; its others and the outstanding count stay |
| `Allocators.GrowthNeverTrips` | lib/mem/arena.c:99 | a request for no fewer bytes than the block was last given does not trip the assertion |
| `Allocators.BumpResizeExactly` | lib/mem/arena.c:79-112 | those conditions of the assertion and of the answer, from the bytes the client last asked for |
| `Iterators.Iterator.Next` | lib/datastruct/iterator.c:70-79 | an exact size hint stays exact |
| `Vectors.GrownBounds` | lib/datastruct/vector.c:56-81 | growth reaches the minimum and overshoots it by half at most; it is by half at least, one slot at least, unless that leaves `size_t`, where it is the minimum |
| `Vectors.GrownFirst` | lib/datastruct/vector.c:56-81 | the result is the first of the repeated halves, in unbounded arithmetic, to reach the minimum, or the minimum where that exceeds `SIZE_MAX` |
| `Vectors.CapacityGrow` | lib/datastruct/vector.c:56-81 | the loop computes that growth, with both statements |
| `Vectors.Vector.Create` | lib/datastruct/vector.c:106-144 | two blocks besides what the client held, or exactly what it held; overflow exactly when the bytes do not fit, `NO_MEMORY` exactly when a request was refused |
| `Vectors.Vector.Reserve` | lib/datastruct/vector.c:146-167 | keeps the elements; its one resize names the buffer's own block, which holds `elem_size * capacity` bytes, and never trips the arena; it fails exactly on overflow or a refused request |
| `Vectors.Vector.Push` | lib/datastruct/vector.c:169-195 | appends one element, or changes nothing. Only a full vector grows, by half and one slot at least; it overflows exactly when the bytes of that do not fit, and fails otherwise only when the request is refused; never trips the arena |
| `Vectors.PushOverflowsBound` | lib/datastruct/vector.c:169-195 | that overflow takes more than two thirds of the address space |
| `Vectors.Vector.Pop` | lib/datastruct/vector.c:197-208 | removes the last element, whose slot still holds it |
| `Vectors.Collect` | lib/datastruct/vector.c:275-310 | all remaining elements in order; or nothing, the ledger as it was, and either one refused request or sizes that overflow |
| `Vectors.CollectMap` | lib/datastruct/vector.c:312-360 | all mapped elements in order, or nothing, likewise; the scratch block is returned either way |
| `VectorSearch.LowerBound` | lib/datastruct/vector.c:362-388 | the number of elements below the key, and where they end |
| `VectorSearch.UpperBound` | lib/datastruct/vector.c:390-416 | the number of elements not above the key, and where they end |
| `VectorSearch.BinarySearch` | lib/datastruct/vector.c:418-430 | the first occurrence, or the size when there is none |
| `Ordering.CountsAdd` | lib/datastruct/vector.c:362-416 | the two bounds differ by the multiplicity of the key |
| `BinaryHeaps.SiftUpStep` | lib/datastruct/binary_heap.c:70-79 | one swap moves the only possible disorder up to the parent |
| `BinaryHeaps.SiftDownStep` | lib/datastruct/binary_heap.c:81-102 | one swap moves the only possible disorder down to the chosen child |
| `BinaryHeaps.BinaryHeap.SiftUp` | lib/datastruct/binary_heap.c:70-79 | restores the heap order and keeps the elements |
| `BinaryHeaps.BinaryHeap.SiftDown` | lib/datastruct/binary_heap.c:81-102 | restores the heap order, keeps the elements and the slots behind them; no child index wraps around |
| `Vectors.Vector.SizeBound` | lib/datastruct/binary_heap.c:85-86 | a vector has at most `PTRDIFF_MAX` elements, so `2 * idx + 2` fits a `size_t` |
| `BinaryHeaps.BinaryHeap.Push` | lib/datastruct/binary_heap.c:149-160 | adds one element and keeps the order, or changes nothing, and that exactly when the vector below cannot grow |
| `BinaryHeaps.BinaryHeap.Pop` | lib/datastruct/binary_heap.c:162-178 | removes a minimum, which the returned slot still holds after the rest was reordered |
| `BinaryHeaps.RootIsLeast` | lib/datastruct/binary_heap.c:180-187 | the root of an ordered heap is a minimum |
| `BinaryHeaps.PopAll` | lib/datastruct/binary_heap.c:162-178 | popping until empty gives a sorted permutation |
| `BinaryHeaps.PushAllPopAll` | lib/datastruct/binary_heap.c:149-178 | pushing any elements and popping them all sorts them, unless a request is refused or they take more than two thirds of the address space |
| `Deques.IndexSumFits` | lib/datastruct/deque.c:223 | in a ring of a power of two slots no index sum wraps around |
| `Deques.MaskIsWrap` | lib/datastruct/deque.c:142-154 | masking an index is reducing it modulo the capacity |
| `Deques.CapacityGrow` | lib/datastruct/deque.c:60-82 | the first power of two that suffices, or overflow if and only if it exceeds half the range of `size_t` |
| `Deques.Deque.Create` | lib/datastruct/deque.c:156-190 | an empty deque and two blocks, of the bytes of the handle and of sixteen elements, or exactly the blocks held before, on overflow or a refused request |
| `Deques.Deque.Grow` | lib/datastruct/deque.c:84-140 | keeps the sequence from any wrapped position; a full ring doubles, and the new block has `elem_size` bytes for each slot; a failure changes nothing; overflow if and only if the ring is full and the bytes of the doubled one do not fit, `NO_MEMORY` if and only if the request was refused |
| `Deques.Deque.Push` | lib/datastruct/deque.c:192-210 | appends one element, or changes nothing when a full ring cannot double; the capacity changes in no other case |
| `Deques.Deque.PushFront` | lib/datastruct/deque.c:212-231 | prepends one element, or changes nothing when a full ring cannot double; the capacity changes in no other case |
| `Deques.Deque.PopLeft` | lib/datastruct/deque.c:233-247 | removes the first element, whose slot still holds it |
| `Deques.Deque.PopBack` | lib/datastruct/deque.c:249-264 | removes the last element, whose slot still holds it |
| `Deques.Deque.PeekBack` | lib/datastruct/deque.c:277-288 | the slot of the last element |
| `Deques.DequeIterator.Next` | lib/datastruct/deque.c:142-154 | the masked walk yields the next of the remaining elements |
| `Deques.Elements` | lib/datastruct/deque.c:296-312 | iterating yields exactly the sequence |
| `Deques.Execute` | lib/datastruct/deque.c:192-264 | over any mix of both pushes and both pops the ring stands for the sequence and gives out its elements; every failure is a counted refusal or an overflow with its cause |
| `Deques.FirstInFirstOut` | lib/datastruct/deque.c:192-247 | used at opposite ends it is a queue: what came out, then what is left, is what went in |
| `ArenaChunks.PackedApart` | lib/mem/arena.c:54-77 | payloads are aligned, inside the used part, and disjoint |
| `ArenaChunks.TakeOk` | lib/mem/arena.c:54-77 | a new chunk lies behind all others and leaves them in place |
| `ArenaChunks.TakeExactly` | lib/mem/arena.c:54-77 | which requests the value model refuses and what it gives for the others, said without rounding |
| `ArenaChunks.RetakeExactly` | lib/mem/arena.c:79-112 | a chunk stays where it is if and only if both requests round to the same multiple |
| `ArenaChunks.HoldersApart` | lib/mem/arena.c:54-77 | two payloads never overlap, nor reach into each other's header |
| `Arenas.Arena.Alloc` | lib/mem/arena.c:54-77 | null exactly when no multiple of the alignment that holds the request fits behind header and offset; otherwise the payload behind the new header, and the offset moves by header and the least such multiple; earlier payloads are untouched |
| `Arenas.Arena.Resize` | lib/mem/arena.c:79-112 | the same address exactly when the aligned size is the same, otherwise a new chunk with the old bytes, or nothing, as for an allocation |
| `Arenas.Arena.Create` | lib/mem/arena.c:114-140 | two blocks of the allocator, capacity rounded up, or exactly the blocks held before, on overflow or a refused request |
| `ArenaChunks.GrowthMeetsNoShrink` | lib/mem/arena.c:99 | rounding up keeps order, so growth meets the assertion |
| `ArenaChunks.ShrinkExactly` | lib/mem/arena.c:99 | the assertion fails if and only if a multiple of the alignment below the held bytes holds the request |
| `ArenaClients.Execute` | lib/datastruct/vector.c:146-195 | over any interleaved run of pushes, pops, reserves, appends, prepends and clears on one allocator no assertion of the arena trips, both containers show what the successful operations give, and every failure is a counted refusal or an overflow with its cause |
| `ArenaClients.BuffersAreChunks` | lib/mem/arena.c:54-112 | on an arena both buffers are chunks of exactly the bytes the containers need, rounded up, and do not overlap |
| `ArenaClients.Session` | lib/mem/arena.c:79-112 | the same from a fresh arena of any capacity on, both containers created there; one is missing only after a refusal or an overflow |
| `Strings.CapacityFor` | lib/datastruct/string.c:90-99 | room for the text and its terminator, 16 or the first of its repeated halves to suffice, or overflow exactly when that cannot be counted |
| `Strings.TooLongBounds` | lib/datastruct/string.c:101-119 | a text overflows only beyond two thirds of the address space, and certainly when it does not fit |
| `Strings.TerminatedReadsBack` | lib/datastruct/string.c:180-237 | a terminated buffer reads back as exactly its text |
| `Strings.String.LengthIsStrLen` | lib/datastruct/string.c:278-283 | the stored length is what `strlen` finds |
| `Strings.String.Create` | lib/datastruct/string.c:147-178 | holds the initial text in one more block of that capacity, or nothing and no block; overflow exactly when the text is too long, `NO_MEMORY` exactly when the request was refused |
| `Strings.String.EnsureCapacity` | lib/datastruct/string.c:101-133 | keeps the text; its one resize names the string's own block, which holds header and capacity, and never trips the arena; overflow exactly when more is needed and too long, `NO_MEMORY` exactly when that resize was refused |
| `Strings.String.Append` | lib/datastruct/string.c:180-205 | text then suffix, terminated, or nothing changes, exactly when a larger block is needed and is too long or refused |
| `Strings.String.Prepend` | lib/datastruct/string.c:207-237 | prefix then text, terminated, although the copied terminator lands on the first character; or nothing changes, as for appending |

## Left out

- Addresses as numbers: a pointer is an offset, so comparisons of a foreign pointer with the buffer's bounds are those of offsets; double release and foreign pointers inside the buffer are the caller's errors and are preconditions.
- Arguments that alias a container's own storage, and changing a container while iterating over it.
- Elements are values, not runs of `elem_size` bytes; copying an element is an assignment. The slot that a pop returns is named by its index.
- Hash maps: the key and value iterators and the size accessor, which only project what is modelled; FNV-1a, since nothing rests on its constants; the hash set, which repeats the map over the same buckets.
- `HashBuckets.RemoveMatch`: the walk and the unlinking are two methods, where the source does both in one loop.
- `Readers.Reader.TakeDelimiter`: the cursor is taken after the loop, where the source takes it at each return inside.
- `Allocators.Allocator.Dealloc`: takes any pointer, as the counting allocator does; over an arena, which has no counters, the counters count the calls through the handle, and the reset of an arena under its clients is left out. So are `reset_counts` and `is_clean`.
- `Arenas.Arena.Resize`: shrinking is excluded because the source asserts against it; the allocator handle records it as a tripped assertion instead.
- Creating and destroying binary heaps and linked lists: the same request and release pattern as the vector, the deque and the map.
- The singly linked list's own handle, the buffer cursor, the substring tests of strings, and the iterators of vector, string and binary heap.
- Vtable dispatch, `malloc`, files, logging, the test harness and status strings; aborting argument checks are preconditions.
