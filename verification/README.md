# libcute, verified

A Dafny model of the stateful core of libcute: its collections, its allocators, its
number and format text, and its buffered streams. Every method follows the C function
it is named after, branch by branch; its contract says what the function achieves in
terms of the abstract value behind the data structure.

`dafny verify dfyconfig.toml` checks everything. There is one module per source file,
with helper modules where a proof has a part of its own:

- **Collections.** `SkipList.dfy` and `HashMap.dfy` are two finite maps, `DList.dfy`,
  `Vector.dfy` and `RingBuffer.dfy` three sequences, `Bitmap.dfy` a set of indices.
- **Allocators.** `FixedAllocator.dfy` and `ArenaAllocator.dfy` stack blocks and share
  `Blocks.dfy`; `SlabAllocator.dfy` (with `SlabRuns.dfy`) hands out runs of slots;
  `WasmAllocator.dfy` (with `WasmPieces.dfy`) keeps size classes with free lists inside
  the memory it manages; `GPAllocator.dfy` (with `GpBuckets.dfy`) has buckets for small
  requests and a list for large ones. `Memory.dfy` is the byte memory under them,
  `Allocation.dfy` their common errors and results.
- **Text.** `Numerals.dfy`, `Strtoul.dfy`, `Printf.dfy`, `StrBuilder.dfy`; what texts spelled
  out in full are read as is in `Reading.dfy`, and what single directives print in
  `Formatting.dfy`.
- **Streams.** `FStream.dfy` over a ring buffer, `MemStream.dfy` over a vector.
- **Arithmetic.** `Options.dfy`, `Bits.dfy`, `Utility.dfy`, `Slots.dfy`.

## How things are modelled

- The C structures are classes with the same fields, updated in place. Ghost fields hold
  the abstract value, and `Valid()` ties the two together. Every operation requires and
  restores `Valid()`, so that what it says holds in every reachable state; the few that can
  lose it state exactly when.
- What the environment decides is a parameter: `granted` and its like are the answers of
  an allocator, `grown` is the page `memory.grow` returns, `data` and `base` are addresses
  the backing allocator chose. A backing allocator promises only that a new block overlaps
  no live one, and `blocks` counts what an allocator or container holds of it. The file
  under a stream may fail or cut a read short at any time unless `reliable` is set.
- Memory managed by an allocator is a sequence of cells, each a user byte or one byte of
  a header. A header can be loaded only where all of its bytes are still in place, so
  that every load proves the header intact. `UserWrite` stands for the client: it may
  write anywhere in its own block, and the contracts say that this harms nobody else.
- The WebAssembly allocator shares one memory with static data, the stack and everybody who
  grows it. Its ghost `regions` are what `memory.grow` returned to it: all its slots lie in
  them, and no operation changes a byte outside (`WasmPieces.Framed`).
- Pointers are checked from the pointer alone. The ghost parameters `k`, `b`, `run`, `p`
  and `owner` say which live block the caller holds; code never uses them.
- A hash function is any function of a representative of the key, which is exactly what
  respecting the key comparison means; a comparison function is any total order, given
  by a rank. The levels of a skip list are drawn from an arbitrary source.
- 64-bit words wrap around where the code relies on it (`cu_next_pow2`, the seek target
  of a memory stream, negated results of `strtoul`). `WORD_LIMIT` is the number of such
  words; `w` is the word size of the WebAssembly target in bytes, 4 or 8, and `longBits`
  the width of `long`.

## Where the code falls short

Each of these is proved, with the exact condition.

- `cu_Vector_pop_front` moves the elements away from the front. What remains is the tail
  exactly when all elements were equal (`Vectors.PoppedIsTail`, `Vectors.Vector.PopFront`).
- `cu_HashMap_insert` marks a bucket used before it allocates key and value. The table is
  broken afterwards exactly when one of these is refused for a new key
  (`HashMaps.HashMap.Insert`).
- `cu_CString_strtoul` differs from section 7.22.1.4 of ISO/IEC 9899:2011 exactly for a
  hexadecimal prefix that no digit follows, with base 0 for a zero that no octal digit
  follows, and for negative numbers out of range (`Strtoul.Strtoul`, `Strtoul.Outcome`).
- `cu_CString_vsnprintf` counts one character too many exactly when the format stops
  inside a specifier, and `cu_StrBuilder_appendf` then appends a terminator as text. For a
  destination of size zero the result is zero, which is the length exactly when there is
  nothing to print (`Printf.Vsnprintf`, `Printf.TotalIsLength`).
- Shrinking the topmost block of an arena to nothing keeps the bytes of its header and
  padding, exactly when the block was not empty (`ArenaAllocators.ArenaAllocator.Shrink`).
- A large request to the WebAssembly allocator takes twice the slot its header records,
  and half of it is never used again, exactly when one more word does not fit behind the
  request (`WasmPieces.TakenIsSlotOrDouble`).
- Requests to the WebAssembly allocator that do not fit in half the address space together
  with one more word, and only these, are filed past the end of its class arrays
  (`WasmPieces.ClassesSuffice`). The operations exclude them.
- The WebAssembly allocator honours alignments exactly up to a page
  (`WasmAllocators.AlignmentHonoured`). Any larger one is missed by the first request to a
  new allocator whose memory grows at the page after the first
  (`WasmAllocators.AlignmentBeyondAPage`, `WasmAllocators.FirstRequest`).
- When `memory.grow` returns the page at the null pointer, the WebAssembly allocator gives
  these pages up. Every other byte it ever obtained stays accounted for
  (`WasmAllocators.NothingIsLost`, `WasmAllocators.NothingIsLostLater`).
- The general-purpose allocator looks only at the first bucket of a class and adds new ones
  behind it. Once that bucket is full, a bucket added serves a single request, and the next
  one needs another, however many slots are free (`GPAllocators.SecondRequest`).
- The slots of a bucket of the general-purpose allocator stand behind its header, so that an
  alignment is honoured exactly when it divides the length of the header
  (`GPAllocators.AlignedAsHeader`).
- Resizing a large block of the general-purpose allocator to size zero, or with an alignment
  of zero, which makes a layout without a size, leaves an entry in its list that stands for
  no bytes. This happens exactly when the backing allocator agrees to such a request
  (`GPAllocators.GPAllocator.Grow`, `GPAllocators.GPAllocator.Shrink`).
- The arena, the fixed and the general-purpose allocator take a larger size for a smaller
  one when asked to shrink. The arena stays intact exactly when the block still ends in its
  chunk, and below the boundary and the next live block if it is not topmost
  (`ArenaAllocators.ArenaAllocator.Shrink`); the fixed allocator exactly when a topmost
  block still ends in the buffer (`FixedAllocators.FixedAllocator.Shrink`). What the
  general-purpose allocator hands back for a small block is the caller's own exactly when
  the size fits the slot (`GPAllocators.GPAllocator.Shrink`).
- `cu_Vector_subslice` clips the sum of index and count after it wrapped around. The result
  lies within the elements exactly when the sum fits in a word (`Vectors.Vector.Subslice`).
- `cu_FStream` reports the position of the file. That is a writer's own position exactly
  when nothing is pending, or when the file is opened to append and its position already
  stands where the pending bytes will end. It is a reader's own exactly when nothing is
  buffered and the end of the file (or the place where reading began, if that is beyond) is
  not passed, or when the reader stands exactly there (`FStreams.FStream.Tell`). Relative
  seeks of a reader start from the position of the file as well (`FStreams.FStream.Seek`).
- `cu_FStream` fills its buffer without asking how much was read. What is buffered is what
  comes next in the file exactly as long as no read falls short before the end
  (`FStreams.FStream.FillBuffer`), and reading past the end succeeds
  (`FStreams.FStream.Read`). A flush that fails loses what was pending
  (`FStreams.FStream.FlushBuffer`).
- An empty write to a memory stream without a buffer panics (`MemStreams.MemStream.Write`).
- The 64-digit buffer of `format_number` overflows for base two with a sign and the top
  bit set, and for nothing else (`Numerals.TempSuffices`); no caller does that.

## Model

| member | source | states |
|---|---|---|
| SkipLists.SkipList.Insert | lib/collection/skip_list.c:155-202 | updates one entry of the finite map, keeping the stored key; a refused allocation changes neither the map nor the number of blocks held |
| SkipLists.SkipList.Remove | lib/collection/skip_list.c:219-261 | deletes exactly the entry, or reports an absent key and changes nothing |
| SkipLists.SkipList.Find | lib/collection/skip_list.c:204-217 | the value the map holds for the key, whatever levels were drawn |
| SkipLists.SkipList.Iter | lib/collection/skip_list.c:263-283 | the pair after the given node, in ascending order |
| SkipLists.SkipList.Search | lib/collection/skip_list.c:166-173 | on every level in use, the last node below the key |
| SkipLists.SkipList.Advance | lib/collection/skip_list.c:168-173 | the walk along one level ends at the last node below the key |
| SkipLists.SkipList.RandomLevel | lib/collection/skip_list.c:22-29 | one plus the number of leading heads, at most the limit |
| SkipLists.SkipList.AllocNode | lib/collection/skip_list.c:31-72 | all three blocks or none are kept |
| SkipLists.SkipList.ChooseLevel | lib/collection/skip_list.c:184-190 | new levels start at the head, and the list keeps its shape |
| SkipLists.SkipList.Splice | lib/collection/skip_list.c:197-200 | each level up to the new one gets exactly one more link |
| SkipLists.SkipList.Unsplice | lib/collection/skip_list.c:236-241 | each level the node reaches loses exactly its link |
| SkipLists.SkipList.SpliceAfter | lib/collection/skip_list.c:197-201 | after the splice every level is again the subsequence of taller nodes |
| SkipLists.SkipList.UnspliceLinks | lib/collection/skip_list.c:236-241 | the same after a removal |
| SkipLists.SkipList.LowerLevel | lib/collection/skip_list.c:242-244 | every level no node reaches is given up, but the lowest |
| SkipLists.SkipList.Destroy | lib/collection/skip_list.c:122-153 | every block obtained is given back |
| SkipLists.LevelsNest | lib/collection/skip_list.c:155-261 | the chain of level l+1 is the subsequence of the chain of level l made of its taller nodes, and unused head links are null |
| SkipLists.VisitedAreTheTall | lib/collection/skip_list.c:168-173 | a level visits exactly the nodes reaching above it, in order |
| SkipLists.PairsEnumerateMap | lib/collection/skip_list.c:263-283 | the pairs in chain order enumerate the map in ascending order, each once |
| SkipLists.InsertedIsLinked | lib/collection/skip_list.c:197-200 | the links a splice leaves are those of the longer chain |
| SkipLists.RemovedIsLinked | lib/collection/skip_list.c:236-241 | the links left after a removal are those of the shorter chain |
| SkipLists.SortedInsert | lib/collection/skip_list.c:155-202 | inserting a pair at its place in the sorted sequence is one map update |
| SkipLists.SortedRemove | lib/collection/skip_list.c:219-261 | removing a pair from the sorted sequence is one map deletion |
| SkipLists.SkipList.Create | lib/collection/skip_list.c:74-120 | an empty map on one level, or the error for no levels or a refused head |
| HashMaps.HashMap.Insert | lib/collection/hashmap.c:173-222 | updates one entry of the finite map, across a rehash; when the key or value cannot be allocated for a new key the invariant is lost, exactly then |
| HashMaps.HashMap.Place | lib/collection/hashmap.c:190-221 | the part after the load check |
| HashMaps.HashMap.Occupy | lib/collection/hashmap.c:198-221 | a new key takes the bucket its probe ended at; marking it before allocating breaks the table exactly when an allocation is refused |
| HashMaps.HashMap.Get | lib/collection/hashmap.c:224-236 | the value the map holds |
| HashMaps.HashMap.Iter | lib/collection/hashmap.c:238-255 | the next stored pair in table order |
| HashMaps.HashMap.Rehash | lib/collection/hashmap.c:68-107 | doubles the table and keeps the map and the length exactly |
| HashMaps.HashMap.CopyFrom | lib/collection/hashmap.c:89-101 | every stored pair is found again in the new table |
| HashMaps.HashMap.Reinsert | lib/collection/hashmap.c:94-100 | a reinserted key is new to the table |
| HashMaps.HashMap.FindSlot | lib/collection/hashmap.c:43-66 | the probe ends, at the key or at the first unused bucket |
| HashMaps.HashMap.LookupBucket | lib/collection/hashmap.c:26-41 | the probe ends, and finds the key exactly when it is stored |
| HashMaps.HashMap.Create | lib/collection/hashmap.c:109-151 | an empty map whose capacity is the least power of two |
| HashMaps.HashMap.Destroy | lib/collection/hashmap.c:153-171 | every block obtained is given back, and the map is empty |
| HashMaps.UnusedExists | lib/collection/hashmap.c:184-189 | a table at most half full has an unused bucket, so both probe loops end |
| HashMaps.ProbeMiss | lib/collection/hashmap.c:26-41 | an unused bucket on the probe path means the key is absent |
| HashMaps.StoreResult | lib/collection/hashmap.c:186-221 | storing at the bucket a probe ended at is one map update and keeps the table well formed |
| HashMaps.EntriesEnumerateStored | lib/collection/hashmap.c:238-255 | iterating a table yields each stored pair exactly once |
| HashMaps.CountIsSize | lib/collection/hashmap.c:238-255 | the length counts the entries of the map |
| HashMaps.MaskIsHome | lib/collection/hashmap.c:28-29 | masking the hash is taking it modulo the capacity |
| HashMaps.ScanOn | lib/collection/hashmap.c:43-65 | a probe that passes a bucket gets strictly nearer to an unused one and goes on to the next bucket |
| HashMaps.PutThenGet | lib/collection/hashmap.c:173-236 | a stored pair is found under its key, and every other entry is as before |
| DLists.DList.PushFront | lib/collection/dlist.c:61-82 | prepends; a refused allocation changes nothing |
| DLists.DList.PushBack | lib/collection/dlist.c:84-105 | appends; a refused allocation changes nothing |
| DLists.DList.PopFront | lib/collection/dlist.c:107-135 | takes off the first element, or reports an empty list |
| DLists.DList.PopBack | lib/collection/dlist.c:137-165 | takes off the last element, or reports an empty list |
| DLists.DList.InsertAfter | lib/collection/dlist.c:167-202 | inserts right after the node, or first without one |
| DLists.DList.InsertBefore | lib/collection/dlist.c:204-232 | inserts right before the node, or first without one |
| DLists.DList.Iter | lib/collection/dlist.c:234-253 | the next node and its element |
| DLists.DList.InsertAt | lib/collection/dlist.c:181-200 | the four links around a new node make forward and backward chains mirror the longer sequence |
| DLists.LinkBetween | lib/collection/dlist.c:181-198 | the links alone |
| DLists.CutFront | lib/collection/dlist.c:120-125 | the links left without the first node |
| DLists.CutBack | lib/collection/dlist.c:150-155 | the links left without the last node |
| DLists.InsertedLinks | lib/collection/dlist.c:167-232 | four links are enough for both chains |
| DLists.RemovedLinks | lib/collection/dlist.c:107-165 | as are the links that bypass a node |
| DLists.DList.constructor | lib/collection/dlist.c:8-21 | an empty list |
| Vectors.Vector.PushBack | lib/collection/vector.c:147-175 | appends, and costs what the abstract shape says |
| Vectors.Vector.PopBack | lib/collection/vector.c:177-201 | takes off the last element, and costs what the abstract shape says |
| Vectors.Vector.PushFront | lib/collection/vector.c:203-234 | prepends |
| Vectors.Vector.PopFront | lib/collection/vector.c:236-265 | hands out the first element; what is left is the tail exactly when all elements were equal |
| Vectors.Vector.SetCapacity | lib/collection/vector.c:49-103 | keeps the contents, relocates each element once, and empties the vector for capacity zero |
| Vectors.Vector.Resize | lib/collection/vector.c:105-128 | keeps the common prefix |
| Vectors.Vector.Reserve | lib/collection/vector.c:290-298 | room without a change of contents |
| Vectors.Vector.MaybeShrink | lib/collection/vector.c:307-320 | halves the buffer at a quarter full and frees it when empty, contents unchanged |
| Vectors.Vector.Subslice | lib/collection/vector.c:372-385 | the part asked for, clipped to the elements; it lies within them exactly when index and count do not wrap around together |
| Vectors.Vector.Destroy | lib/collection/vector.c:130-145 | no elements and no buffer |
| Vectors.RunIsCheap | lib/collection/vector.c:147-201 | any run at both ends, whatever the allocator answers, relocates at most two elements per operation beyond the stored potential; as long as memory is granted the buffer stays less than four times the length |
| Vectors.AmortisedBound | lib/collection/vector.c:147-201 | from an empty vector: at most 2n relocations in n operations |
| Vectors.PoppedIsTail | lib/collection/vector.c:257-260 | when shifting the wrong way gives the tail |
| Vectors.Vector.Create | lib/collection/vector.c:19-47 | no elements and room for the initial capacity, or nothing when its buffer is refused |
| Vectors.StepIsCheap | lib/collection/vector.c:147-265 | one operation costs at most two relocations beyond what the potential pays |
| Nostd.Memmove | lib/nostd.c:9-30 | overlapping stretches are copied as if through a temporary |
| RingBuffers.RingBuffer.Push | lib/collection/ring_buffer.c:59-76 | enqueues, or reports a full buffer |
| RingBuffers.RingBuffer.Pop | lib/collection/ring_buffer.c:78-100 | dequeues the oldest element, or reports an empty buffer |
| RingBuffers.RingBuffer.Clear | lib/collection/ring_buffer.c:102-115 | an empty queue |
| RingBuffers.IndexIsModulo | lib/collection/ring_buffer.c:70 | the storage index wraps around |
| RingBuffers.IndexInjective | lib/collection/ring_buffer.c:59-100 | no two elements share a place |
| RingBuffers.RingBuffer.Create | lib/collection/ring_buffer.c:8-34 | an empty queue of any capacity, or nothing when its storage is refused |
| FStreams.FStream.Write | lib/io/fstream.c:90-110 | a first part of the pending bytes and the data reaches the file, at its position or its end, each byte once and in order; on success the unbuffered file has all of it and the rest is pending; when memory runs out it has the bytes taken in so far; a failed write loses what was pending |
| FStreams.FStream.FlushBuffer | lib/io/fstream.c:9-32 | the file becomes the unbuffered file, in place or appended; a failed write loses what was pending |
| FStreams.FStream.Flush | lib/io/fstream.c:34-40 | the same for writers, nothing for readers |
| FStreams.FStream.Seek | lib/io/fstream.c:112-121 | a writer seeks in the unbuffered file; a reader in the file itself, from its own position exactly when the two agree; without memory nothing happens, and any other error leaves nothing pending |
| FStreams.FStream.Close | lib/io/fstream.c:128-133 | everything pending reaches the file unless the flush fails |
| FStreams.FStream.Tell | lib/io/fstream.c:123-126 | the position of the file: the position of a writer exactly when nothing is pending or the bytes to append will end there, that of a reader exactly when nothing is buffered before the end of the file or it has read exactly up to there |
| FStreams.FStream.Read | lib/io/fstream.c:68-88 | unless a read fell short before the end, every byte the file has is read as it is; past the end reading succeeds with other bytes |
| FStreams.FStream.FillBuffer | lib/io/fstream.c:42-66 | the buffer is filled to its capacity, and holds what comes next in the file exactly as long as no read falls short before the end |
| FStreams.WrittenTwice | lib/io/fstream.c:90-110 | writing in two parts is writing at once |
| FStreams.FStream.Open | lib/io/fstream.c:135-159 | nothing pending, at the position of the file; an error when the file or the buffer is refused; whether writes append is the operating system's affair |
| FStreams.FStream.Drain | lib/io/fstream.c:9-32 | the pending bytes come out oldest first and the buffer is empty |
| FStreams.FStream.NextByte | lib/io/fstream.c:68-88 | a byte of the file is served at its position, in step with the buffer |
| FStreams.FlushedWhileWriting | lib/io/fstream.c:99-105 | flushing in the middle of a write keeps the order of the bytes |
| FStreams.UnbufferedIs | lib/io/fstream.c:90-110 | what reached the file and what is pending together are what was written |
| FStreams.PastTheEnd | lib/io/fstream.c:42-66 | reading past the end of an empty file leaves a reader ahead of the file |
| FStreams.PutTwice | lib/io/fstream.c:90-110 | appending or overwriting in two parts is doing it at once |
| FStreams.PositionAfter | lib/io/fstream.c:123-126 | when a write does not move the position of the file |
| FStreams.WrittenBytes | lib/io/fstream.c:90-110 | a write replaces the bytes from the position on and no others, filling a gap with zeros |
| FStreams.PutBytes | lib/io/fstream.c:90-110 | appended bytes stand at the end, other bytes at the position, and no other byte changes |
| FStreams.SoughtPosition | lib/io/fstream.c:112-121 | where a seek leads, counted from the start, the position or the end |
| MemStreams.MemStream.Write | lib/io/memstream.c:48-64 | lays the data over the bytes at the cursor; an empty write without a buffer panics |
| MemStreams.MemStream.Read | lib/io/memstream.c:25-46 | the bytes up to the end, with an error when they fall short |
| MemStreams.MemStream.Seek | lib/io/memstream.c:71-102 | the target in a machine word, refused beyond the end, so the cursor never passes it |
| MemStreams.ReadBack | lib/io/memstream.c:25-64 | what is written is read back, and everything else is as before |
| MemStreams.SeekBackwards | lib/io/memstream.c:94-98 | an offset near the word limit goes backwards |
| MemStreams.MemStream.Create | lib/io/memstream.c:9-23 | an empty stream, without a buffer exactly for capacity zero; nothing when the buffer is refused |
| MemStreams.ReadTwice | lib/io/memstream.c:25-46 | two reads in a row are one |
| MemStreams.VisibleBytes | lib/io/memstream.c:25-46 | a read yields the bytes from the cursor on, as many as there are |
| Bitmaps.Bitmap.Get | lib/collection/bitmap.c:39-46 | one member of the abstract set |
| Bitmaps.Bitmap.Set | lib/collection/bitmap.c:48-55 | adds one index and no other |
| Bitmaps.Bitmap.Clear | lib/collection/bitmap.c:57-64 | removes one index and no other |
| Bitmaps.Bitmap.ClearAll | lib/collection/bitmap.c:66-72 | the empty set |
| Bitmaps.Bitmap.Create | lib/collection/bitmap.c:5-26 | the empty set of the given size; none without bits or memory |
| Bitmaps.SelectsOne | lib/collection/bitmap.c:45 | masking with one digit tests that digit |
| Utility.NextPow2 | include/utility.h:6-20 | the least power of two at least x, zero beyond half the word |
| Utility.NextPow2Size | include/utility.h:6-20 | the same for 64-bit sizes |
| Utility.SmearedIsMask | include/utility.h:10-18 | the shift cascade leaves all digits below the top one set |
| Utility.SmearStep | include/utility.h:11-18 | each step doubles how far digits have spread |
| Utility.CeilPow2IsLeast | include/utility.h:6-20 | no smaller power of two is large enough |
| Utility.AlignUpIsLeastMultiple | lib/memory/slab.c:136-139 | rounding up to a power of two gives the least multiple |
| Blocks.TopIsUnique | lib/memory/arenaallocator.c:153-168 | a block that ends at the boundary is the topmost one |
| Blocks.PopKeepsOwned | lib/memory/arenaallocator.c:153-168 | popping to the previous boundary uncovers no live block |
| Blocks.PushKeepsOwned | lib/memory/arenaallocator.c:68-76 | a new block owns bytes no other block owns |
| Blocks.ResizeTopKeepsOwned | lib/memory/arenaallocator.c:97-105 | the topmost block may change size |
| Blocks.CutKeepsOwned | lib/memory/arenaallocator.c:138-150 | any block may become shorter |
| Blocks.PlaceIsTight | lib/memory/arenaallocator.c:69-70 | header and padding fit below the aligned start |
| Blocks.StretchKeepsOwned | lib/memory/arenaallocator.c:138-150 | when a block may end later without harm |
| Blocks.PlaceIsLeast | lib/memory/arenaallocator.c:69-70 | no lower start is aligned and leaves room for the header |
| FixedAllocators.FixedAllocator.Alloc | lib/memory/fixedallocator.c:8-37 | a block right above the boundary with its header before it, and exactly its bytes as the slice; an error exactly when it does not fit |
| FixedAllocators.FixedAllocator.Grow | lib/memory/fixedallocator.c:39-72 | the topmost block grows in place, any other is moved with its contents; the pop after a move never fires |
| FixedAllocators.FixedAllocator.Shrink | lib/memory/fixedallocator.c:74-105 | the boundary follows the topmost block, any other is moved; the allocator stays well formed exactly when the topmost block still ends in the buffer |
| FixedAllocators.FixedAllocator.Free | lib/memory/fixedallocator.c:107-119 | only the topmost block gives bytes back, down to its predecessor boundary |
| FixedAllocators.FixedAllocator.Reset | lib/memory/fixedallocator.c:135 | the empty allocator |
| FixedAllocators.FixedAllocator.UserWrite | lib/memory/fixedallocator.c:8-37 | writing inside a block harms no header and no other block |
| FixedAllocators.AllocSpecIsTight | lib/memory/fixedallocator.c:18-31 | the slice has the size asked for, at the first aligned offset that leaves room for the header, and lies in the buffer; a request is refused exactly when no such offset does |
| FixedAllocators.LifoConservation | lib/memory/fixedallocator.c:8-119 | freeing any run of allocations in reverse order restores the boundary |
| FixedAllocators.UserBytesAreSafe | lib/memory/fixedallocator.c:30-37 | the same for the single buffer |
| ArenaAllocators.ArenaAllocator.Alloc | lib/memory/arenaallocator.c:25-77 | the newest chunk with room serves, a new one only when none can; no live block is touched |
| ArenaAllocators.ArenaAllocator.Grow | lib/memory/arenaallocator.c:80-117 | in place exactly when topmost with room in the chunk, else moved with its contents, failing exactly when allocating the new size would |
| ArenaAllocators.ArenaAllocator.Shrink | lib/memory/arenaallocator.c:119-151 | the boundary follows the topmost block; shrinking to nothing frees like a free unless the block is topmost and not empty; a larger size does no harm exactly when the bytes up to it are nobody else's |
| ArenaAllocators.ArenaAllocator.Free | lib/memory/arenaallocator.c:153-168 | only the topmost block of its chunk gives bytes back |
| ArenaAllocators.ArenaAllocator.FindRoom | lib/memory/arenaallocator.c:45-54 | first fit from the newest chunk |
| ArenaAllocators.ArenaAllocator.Reserve | lib/memory/arenaallocator.c:39-66 | a chunk with room, or none exactly when refused |
| ArenaAllocators.ArenaAllocator.LoadHeader | lib/memory/arenaallocator.c:153-168 | a pointer alone gives chunk and previous boundary |
| ArenaAllocators.ArenaAllocator.MoveTo | lib/memory/arenaallocator.c:108-116 | a new block takes over the contents |
| ArenaAllocators.ArenaAllocator.UserWrite | lib/memory/arenaallocator.c:68-76 | writing inside a block harms no header and no other block |
| ArenaAllocators.NewChunkFits | lib/memory/arenaallocator.c:43-69 | a fresh chunk fits the request that caused it |
| ArenaAllocators.LifoConservation | lib/memory/arenaallocator.c:25-168 | freeing in reverse order restores the boundary of every chunk and empties every new one |
| ArenaAllocators.ShrunkToNothing | lib/memory/arenaallocator.c:139-147 | when shrinking to nothing differs from freeing |
| ArenaAllocators.ArenaAllocator.AddChunk | lib/memory/arenaallocator.c:56-66 | a fresh empty chunk becomes the newest |
| ArenaAllocators.UserBytesAreSafe | lib/memory/arenaallocator.c:68-76 | changing the bytes of one block leaves every header and every other block as it was |
| ArenaAllocators.FitsIsExact | lib/memory/arenaallocator.c:48-50 | a request fits exactly when some aligned start behind the boundary and a header leaves it in the chunk |
| ArenaAllocators.NewSizeIsLeast | lib/memory/arenaallocator.c:39-57 | a new chunk has the configured size, and more only as far as the request needs it behind any misalignment |
| ArenaAllocators.BlockForIsTight | lib/memory/arenaallocator.c:38-77 | the block has the size asked for, at the first aligned offset that leaves room for the header, inside its chunk |
| ArenaAllocators.GrowsWhenItMay | lib/memory/arenaallocator.c:91-104 | a block grows in place exactly when it is topmost and its new end disturbs nobody |
| ArenaAllocators.ResizedThenFreed | lib/memory/arenaallocator.c:91-168 | resizing the topmost block does not stand in the way of freeing it |
| Slots.DivCeilIsLeast | lib/memory/slab.c:8 | the rounded-up quotient is the least sufficient number of slots |
| Slots.DivCeilIsQuotient | lib/memory/slab.c:8 | counting slots and dividing agree |
| Slots.DivFloorIsGreatest | lib/memory/slab.c:113-117 | the rounded-down quotient is the greatest number of whole slots |
| SlabRuns.AddRun | lib/memory/slab.c:129-132 | the bitmap stays the disjoint union of the live runs when one is taken |
| SlabRuns.CutRun | lib/memory/slab.c:197-229 | and when one is shortened or released |
| SlabRuns.RunsApart | lib/memory/slab.c:78-148 | headers and slices of different runs share no byte |
| SlabRuns.CountSetRange | lib/memory/slab.c:129-132 | the free count moves by the length of the range |
| SlabRuns.ClearRunIsCounted | lib/memory/slab.c:102-103 | a clear run is counted |
| SlabAllocators.SlabAllocator.Alloc | lib/memory/slab.c:78-148 | the first slab that can serve does, at its lowest run; the address is aligned and nothing live is touched; it fails for lack of memory exactly when no slab can serve and none is granted |
| SlabAllocators.SlabAllocator.Obtain | lib/memory/slab.c:96-147 | the part after the checks |
| SlabAllocators.SlabAllocator.FindSlab | lib/memory/slab.c:99-110 | first fit over the slabs, newest first |
| SlabAllocators.SlabAllocator.Reserve | lib/memory/slab.c:96-127 | a slab is added only when none can serve |
| SlabAllocators.SlabAllocator.Grow | lib/memory/slab.c:150-177 | in place while the run has room, else moved with its contents, failing exactly when allocating the new size would |
| SlabAllocators.SlabAllocator.Shrink | lib/memory/slab.c:179-216 | keeps the least number of slots and frees exactly the others |
| SlabAllocators.SlabAllocator.Free | lib/memory/slab.c:218-231 | the run is recovered from the pointer alone and exactly its slots are freed |
| SlabAllocators.SlabAllocator.LoadHeader | lib/memory/slab.c:221-225 | the header names the slab and the slots |
| SlabAllocators.SlabAllocator.MoveTo | lib/memory/slab.c:168-176 | a new run takes over the contents |
| SlabAllocators.SlabAllocator.UserWrite | lib/memory/slab.c:134-147 | writing inside a run harms no header and no other run |
| SlabAllocators.Slab.FindRun | lib/memory/slab.c:41-54 | the lowest clear run of the length, or none exactly when there is none |
| SlabAllocators.Slab.Probe | lib/memory/slab.c:102-108 | looking only where enough slots are free misses nothing |
| SlabAllocators.Slab.Take | lib/memory/slab.c:129-147 | marks exactly the run and keeps the free count |
| SlabAllocators.Slab.Release | lib/memory/slab.c:226-229 | clears exactly the run and keeps the free count |
| SlabAllocators.Slab.Trim | lib/memory/slab.c:195-202 | clears exactly the tail of the run and shortens its header |
| SlabAllocators.NewRunFits | lib/memory/slab.c:96-97 | header and aligned slice fit in the computed number of slots |
| SlabAllocators.ShrunkFits | lib/memory/slab.c:192-195 | the slots kept are enough and no fewer would be |
| SlabAllocators.FewFree | lib/memory/slab.c:102-103 | too few free slots means no run |
| SlabAllocators.UserBytesAreSafe | lib/memory/slab.c:134-147 | the same for the runs of a slab |
| SlabAllocators.Slab.constructor | lib/memory/slab.c:56-76 | a slab whose bitmap is empty and whose free count is its number of slots |
| SlabAllocators.FirstRunIs | lib/memory/slab.c:41-54 | the first run is the lowest position with enough clear bits |
| SlabAllocators.Slab.Mark | lib/memory/slab.c:129-131 | sets exactly a range of bits |
| SlabAllocators.Slab.Unmark | lib/memory/slab.c:226-229 | clears exactly a run, and the free count follows |
| SlabAllocators.SlabAllocator.CreateSlab | lib/memory/slab.c:56-76 | a new slab, or nothing, and then what was granted first is given back |
| SlabAllocators.SlabAllocator.Destroy | lib/memory/slab.c:262-273 | every block obtained is given back |
| SlabAllocators.RoomIsExact | lib/memory/slab.c:160-163 | a run keeps its slots exactly up to the length its room allows |
| SlabAllocators.NeedIsLeast | lib/memory/slab.c:96-97 | the slots asked for are the least number that is enough wherever the data may stand |
| SlabAllocators.NewCountIsLeast | lib/memory/slab.c:113-117 | a new slab has the least number of slots that is enough and fills the default size |
| WasmPieces.WriteInHole | lib/memory/wasmallocator.c:67-207 | memory may change where no live, free or uncarved piece is |
| WasmPieces.TakeFree | lib/memory/wasmallocator.c:52-57 | popping keeps the lists acyclic, complete and disjoint from everything |
| WasmPieces.AddFree | lib/memory/wasmallocator.c:196-206 | and so does pushing |
| WasmPieces.CarveTail | lib/memory/wasmallocator.c:103-106 | a tail always has room for a whole aligned slot |
| WasmPieces.StartPage | lib/memory/wasmallocator.c:94-102 | a fresh page starts serving its class |
| WasmPieces.TakenIsSlotOrDouble | lib/memory/wasmallocator.c:42-49 | a large request takes twice its recorded slot exactly when one more word does not fit behind it |
| WasmPieces.ClassesSuffice | lib/memory/wasmallocator.c:82-110 | a request stays within the class arrays exactly when it fits, with one more word, in half the address space |
| WasmPieces.OthersAreHarmless | lib/memory/wasmallocator.c:47-65 | what others write outside grown memory harms no slot and no list |
| WasmPieces.ChangedInside | lib/memory/wasmallocator.c:184-207 | a write inside grown memory leaves all other memory as it was |
| WasmPieces.CarvedFills | lib/memory/wasmallocator.c:94-108 | the tail and the slot carved from it are all there was of the tail |
| WasmAllocators.WasmAllocator.Alloc | lib/memory/wasmallocator.c:67-124 | a new live slot of the right class inside grown memory, from free list, tail, freed pages or newly grown pages in this order; no other slot is touched and no byte outside grown memory; the address is aligned up to a page; no byte is lost but the half of a doubled slot and pages grown at the null pointer |
| WasmAllocators.WasmAllocator.Free | lib/memory/wasmallocator.c:184-207 | the slot base is recovered from the pointer and becomes the head of its free list; no byte outside grown memory is touched |
| WasmAllocators.WasmAllocator.Grow | lib/memory/wasmallocator.c:126-153 | in place exactly when alignment and room allow, else moved with its contents into grown memory, leaving all other memory as it was |
| WasmAllocators.WasmAllocator.Shrink | lib/memory/wasmallocator.c:155-182 | the same for shrinking |
| WasmAllocators.WasmAllocator.AllocBigPages | lib/memory/wasmallocator.c:47-65 | whole pages from the free list, else from memory.grow; zero when neither |
| WasmAllocators.WasmAllocator.PopFree | lib/memory/wasmallocator.c:52-57 | the head of a free list, with the link stored in it as new head |
| WasmAllocators.WasmAllocator.TakeSlot | lib/memory/wasmallocator.c:87-111 | from the free list, else the tail of the class, else the first slot of a page; nothing else comes out of use |
| WasmAllocators.WasmAllocator.TakeRoom | lib/memory/wasmallocator.c:83-122 | a slot of either kind |
| WasmAllocators.WasmAllocator.LoadHeader | lib/memory/wasmallocator.c:187-193 | the header gives base and size |
| WasmAllocators.WasmAllocator.MoveTo | lib/memory/wasmallocator.c:145-152 | a new slot takes over the contents |
| WasmAllocators.WasmAllocator.UserWrite | lib/memory/wasmallocator.c:118-123 | writing inside a slot harms no header, link or other slot |
| WasmAllocators.WasmAllocator.BigPagesNeeded | lib/memory/wasmallocator.c:42-45 | the least number of pages with room for the bytes and one more word |
| WasmAllocators.WasteIsApart | lib/memory/wasmallocator.c:109-122 | the half given up overlaps nothing |
| WasmAllocators.UserAligned | lib/memory/wasmallocator.c:80-123 | in every slot a request can get, the address is aligned up to a page |
| WasmAllocators.AlignmentBeyondAPage | lib/memory/wasmallocator.c:80-123 | for every larger alignment the first request to a new allocator can be answered with a misaligned address |
| WasmAllocators.FreedIsSound | lib/memory/wasmallocator.c:184-207 | freeing keeps every invariant |
| WasmAllocators.PlacedIsServed | lib/memory/wasmallocator.c:67-124 | header and slice make the room a live slot |
| WasmAllocators.CopyThenFree | lib/memory/wasmallocator.c:149-151 | copying and freeing lose nothing |
| WasmAllocators.UserBytesAreSafe | lib/memory/wasmallocator.c:118-123 | the same for slots, links and tails |
| WasmAllocators.AlignmentHonoured | lib/memory/wasmallocator.c:80-123 | alignments are honoured in every slot a request can get exactly up to a page |
| WasmAllocators.FirstRequest | lib/memory/wasmallocator.c:67-124 | making that request, one gets that misaligned address |
| WasmAllocators.FreedIsReused | lib/memory/wasmallocator.c:47-121 | a freed slot is the next one handed out for a request of its class, small or large, whatever memory.grow would answer |
| WasmAllocators.ServedInOrder | lib/memory/wasmallocator.c:47-121 | a free slot of the size if there is any, else the tail, else a free page, else grown memory; an error exactly without any of these |
| WasmAllocators.NothingIsLost | lib/memory/wasmallocator.c:47-124 | conservation: every byte memory.grow ever returned stays in a live, free or given-up slot or in a tail, unless growing yields the page at the null pointer, and exactly then not |
| WasmAllocators.NothingIsLostLater | lib/memory/wasmallocator.c:126-207 | growing, shrinking and freeing lose no byte either, under the same exact condition |
| WasmAllocators.PlacedFills | lib/memory/wasmallocator.c:95-123 | the slot and the part given up are all that was set aside |
| WasmAllocators.FitsIsSound | lib/memory/wasmallocator.c:140-143 | a slot keeps its place exactly when the address suits the alignment and header, bytes and last word still fit |
| WasmAllocators.SlotIsLeast | lib/memory/wasmallocator.c:80-84 | no smaller slot has room for header, aligned address, bytes and last word |
| GpBuckets.IndexFromSize | lib/memory/gpallocator.c:64-75 | the exact logarithm below the limit, else -1 |
| GpBuckets.SlotOf | lib/memory/gpallocator.c:82-88 | dividing recovers the slot |
| GpBuckets.CountFlip | lib/memory/gpallocator.c:143-144 | flipping one slot moves the population by one |
| GpBuckets.SlotCountIsGreatest | lib/memory/gpallocator.c:22-32 | a bucket has as many slots as fit in its size, and at least one |
| GPAllocators.GPAllocator.Alloc | lib/memory/gpallocator.c:176-197 | small requests get the lowest free slot of the head bucket of their class or of a new one, large ones a block of their own; it fails exactly when the backing allocator is needed and refuses |
| GPAllocators.GPAllocator.AllocSmall | lib/memory/gpallocator.c:112-148 | fails exactly when the head is full and no bucket is granted |
| GPAllocators.GPAllocator.PickBucket | lib/memory/gpallocator.c:114-130 | only the head bucket is looked at; a new one joins at the tail |
| GPAllocators.Bucket.TakeSlot | lib/memory/gpallocator.c:132-145 | a bucket that is not full has a free slot, so the exit without one is dead |
| GPAllocators.Bucket.GiveSlot | lib/memory/gpallocator.c:279-282 | the population count follows the bitmap |
| GPAllocators.GPAllocator.AllocLarge | lib/memory/gpallocator.c:150-174 | the block is listed first; when its list node is refused the block is given back |
| GPAllocators.GPAllocator.FindBucket | lib/memory/gpallocator.c:77-94 | the bucket and slot whose bytes contain the address, or none |
| GPAllocators.FoundIsOwner | lib/memory/gpallocator.c:77-94 | exactly the owner for a live small pointer, and nothing for any large one |
| GPAllocators.OwnersAreApart | lib/memory/gpallocator.c:112-174 | no two live allocations share a byte |
| GPAllocators.GPAllocator.FindLarge | lib/memory/gpallocator.c:96-106 | the block at the address, or none |
| GPAllocators.GPAllocator.FreeSmall | lib/memory/gpallocator.c:277-299 | frees one slot, and an emptied bucket unless it is alone in its class |
| GPAllocators.GPAllocator.Retire | lib/memory/gpallocator.c:283-298 | an empty bucket stays only as the sole one of its class |
| GPAllocators.GPAllocator.FreeLarge | lib/memory/gpallocator.c:301-314 | takes one block out of the list and gives it back with its list node |
| GPAllocators.GPAllocator.Free | lib/memory/gpallocator.c:316-330 | frees what the pointer points at and ignores pointers nobody owns |
| GPAllocators.GPAllocator.Grow | lib/memory/gpallocator.c:203-242 | in place within the slot; else every byte the old block had is in the new one and no byte outside it changes; fails exactly when serving the new size would |
| GPAllocators.GPAllocator.Shrink | lib/memory/gpallocator.c:244-275 | small blocks keep their slot, and the slice handed back is the caller's exactly when it fits the slot; a large block is resized by the backing allocator and keeps its bytes up to the smaller length, and its entry stands for nothing exactly when it is resized to no bytes |
| GPAllocators.GPAllocator.ResizeLarge | lib/memory/gpallocator.c:213-228 | the entry follows the block, byte by byte up to the smaller length, and no byte outside the new block changes; the list stays well formed exactly when the new size is not zero |
| GPAllocators.GPAllocator.MoveOut | lib/memory/gpallocator.c:235-241 | a new block holds the contents byte by byte, no byte outside it changes, and the old block is freed |
| GPAllocators.GPAllocator.LinkAtTail | lib/memory/gpallocator.c:122-129 | the class list stays doubly linked |
| GPAllocators.GPAllocator.Unlink | lib/memory/gpallocator.c:286-295 | and so it does without the bucket |
| GPAllocators.ServedKeeps | lib/memory/gpallocator.c:176-197 | serving takes nothing from any owner |
| GPAllocators.FreedKeeps | lib/memory/gpallocator.c:316-330 | freeing takes nothing from any other owner |
| GPAllocators.EmptyHasRoom | lib/memory/gpallocator.c:112-130 | an empty bucket is the head of its class and serves |
| GPAllocators.GPAllocator.CalcSlotCount | lib/memory/gpallocator.c:22-32 | at least one slot |
| GPAllocators.Bucket.constructor | lib/memory/gpallocator.c:34-62 | a bucket with every slot free |
| GPAllocators.GPAllocator.AddBucket | lib/memory/gpallocator.c:115-129 | the new bucket joins its class; when its bitmap is refused its memory is given back and nothing changes |
| GPAllocators.GPAllocator.DropBucket | lib/memory/gpallocator.c:286-296 | a bucket that is not alone leaves its class with its bitmap, restoring the rule on empty buckets |
| GPAllocators.GPAllocator.FindInClass | lib/memory/gpallocator.c:80-91 | one class is searched completely |
| GPAllocators.ResizeKeepsSpans | lib/memory/gpallocator.c:220-226 | no two blocks overlap after a resize, and every entry has bytes exactly when the resized one does |
| GPAllocators.GPAllocator.Destroy | lib/memory/gpallocator.c:376-394 | every block obtained is given back |
| GPAllocators.SmallHasClass | lib/memory/gpallocator.c:189-197 | a request goes to a bucket exactly when some class has a slot for it that is no larger than a bucket |
| GPAllocators.SecondRequest | lib/memory/gpallocator.c:112-130 | after a bucket was added, the next request of its class needs another one exactly when the class had a full bucket before or one slot fills a bucket |
| GPAllocators.FreedHasRoom | lib/memory/gpallocator.c:277-299 | freeing a slot of the head bucket makes room in its class, unless the bucket is given back |
| GPAllocators.FreedIsGone | lib/memory/gpallocator.c:316-330 | freeing leaves the owner nothing |
| GPAllocators.AlignedAsHeader | lib/memory/gpallocator.c:34-62 | a slot is aligned exactly when the alignment divides the length of the header before the first one |
| GPAllocators.MovedIsCarried | lib/memory/gpallocator.c:235-241 | a copy carries every byte as far as both blocks reach and changes none outside the new block |
| GPAllocators.CarriedBytes | lib/memory/gpallocator.c:235-241 | the same for each single byte |
| Numerals.FormatNumber | lib/nostd.c:145-183 | the usual numeral, truncated to the buffer, and its full length |
| Numerals.PutDigits | lib/nostd.c:156-169 | the digits come out last first |
| Numerals.CopyReversed | lib/nostd.c:176-181 | as many characters as leave room for the terminator |
| Numerals.TempSuffices | lib/nostd.c:156-174 | the digit buffer overflows for base two with a sign and the top bit set, and for nothing else |
| Numerals.DigitsBound | lib/nostd.c:156-169 | a number below 2^n has at most n digits, fewer from base three on |
| Strtoul.Strtoul | lib/nostd.c:423-528 | what the standard asks for, except exactly for bare prefixes and negative numbers out of range |
| Strtoul.ParseDigits | lib/nostd.c:468-511 | the saturated value of the longest run of digits, and its end |
| Strtoul.CutoffIsExact | lib/nostd.c:470-492 | the test holds exactly when the next step leaves the range |
| Strtoul.PrefixAgrees | lib/nostd.c:446-459 | where implementation and standard start the digits |
| Strtoul.Outcome | lib/nostd.c:446-527 | how the two results compare |
| Strtoul.BarePrefixExamples | lib/nostd.c:446-459 | the smallest texts on which they differ |
| Strtoul.DigitsAreRead | lib/nostd.c:145-183 | a numeral is worth its number |
| Strtoul.PrintThenParse | lib/nostd.c:145-528 | printing then reading gives the number back and consumes the text, in both letter cases |
| Strtoul.OctalZero | lib/nostd.c:451-453 | skipping a leading zero changes nothing |
| Strtoul.SkipDigits | lib/nostd.c:496-505 | the end of the run of digits |
| Reading.SignedNumberIsRead | lib/nostd.c:423-528 | a printed number behind white space and a sign is read as itself, or behind a minus as its negative within the unsigned type |
| Reading.NumeralIsRead | lib/nostd.c:423-528 | any numeral in an explicit base, behind any white space and sign and before anything that is no digit, is read up to its last digit; out of range it is the greatest number |
| Reading.HexIsRead | lib/nostd.c:446-459 | with base 16 or 0 digits behind 0x are read in base 16 |
| Reading.BaseIsRead | lib/nostd.c:446-459 | with base 0 a leading zero means base eight and any other digit base ten |
| Reading.OctalIsRead | lib/nostd.c:446-459 | the zero in front adds nothing to an octal numeral |
| Reading.DecimalIsRead | lib/nostd.c:446-459 | any digit but a zero in front means base ten |
| Reading.ValueIs | lib/nostd.c:491-516 | each digit makes what stands before it worth as many times as the base |
| Reading.NothingToRead | lib/nostd.c:423-528 | without a digit nothing is converted and the end is the start of the text |
| Reading.SignIsRead | lib/nostd.c:432-444 | white space is skipped, and one sign is taken for what it says |
| Reading.SpaceIs | lib/nostd.c:432-436 | white space is the space and the five characters from tab to return |
| Reading.DigitIs | lib/nostd.c:473-488 | the digits in order of their worth, letters in either case |
| Reading.NumeralIsPlain | lib/nostd.c:160-172 | a numeral has no leading zero and letters of one case |
| Printf.Vsnprintf | lib/nostd.c:185-399 | the first characters of the ideal expansion and a terminator; the result is the length exactly for finished formats of int length, and for a destination without room exactly when there is nothing to print |
| Printf.PutDirective | lib/nostd.c:199-385 | one directive at a time, in step with the expansion |
| Printf.PutConversion | lib/nostd.c:218-373 | each conversion prints the text of its argument |
| Printf.PutNumber | lib/nostd.c:249-258 | a number is copied from a buffer of its own |
| Printf.Put | lib/nostd.c:380-384 | a character without room is counted but not written |
| Printf.TotalIsLength | lib/nostd.c:398 | as an int, the total is the length exactly for finished formats of int length |
| Printf.FormatThenParse | lib/nostd.c:185-528 | a formatted number is read back by strtoul |
| Printf.NumberFits | lib/nostd.c:249-251 | the number buffer never truncates |
| Printf.PutText | lib/nostd.c:356-373 | a text is appended to what was printed, cut at the end of the buffer |
| Formatting.SignedRoundTrip | lib/nostd.c:218-258 | %d and %i in all three lengths: strtoul reads the text back as the value within the unsigned type, and it begins with a minus exactly for a negative value |
| Formatting.UnsignedRoundTrip | lib/nostd.c:260-305 | %u, %x and %X in all three lengths: strtoul reads the text back as the value, and it has no leading zero and letters of the case asked for |
| Formatting.PointerRoundTrip | lib/nostd.c:330-353 | %p prints 0x and the address, which is read back in base 16 and in base 0 |
| Formatting.CharIsPrinted | lib/nostd.c:307-313 | %c prints one character, the byte its code leaves |
| Formatting.TextIsPrinted | lib/nostd.c:315-328 | %s prints the text, and (null) when there is none |
| Formatting.PlainIsPrinted | lib/nostd.c:378-385 | without a percent sign a format prints itself |
| Formatting.OthersArePrinted | lib/nostd.c:355-373 | two percent signs print one, an unknown specifier prints itself |
| Formatting.PartsArePrinted | lib/nostd.c:185-399 | a format in two parts prints the one after the other, the first taking its arguments first |
| StrBuilders.StrBuilder.Appendf | lib/string/fmt.c:19-39 | measuring then writing appends the expansion, exactly when the format is finished and its length below the int limit; it fails exactly when the measured length is negative or new memory is needed and refused, and then changes nothing |
| StrBuilders.StrBuilder.Reserve | lib/string/string.c:18-95 | room for the text and a terminator, contents unchanged |
| StrBuilders.WholeText | lib/string/fmt.c:19-39 | nothing missing and nothing extra |
| StrBuilders.StrBuilder.constructor | lib/string/fmt.c:5-9 | an empty text |

## Left out

- WasmAllocators.WasmAllocator.Alloc: requests beyond half the address space (`Addressable`) are excluded, because the code then reads past its class arrays or wraps around; so do Grow and Shrink, which for a non-null pointer also require a non-zero alignment, since they divide by it.
- GPAllocators.GPAllocator.Alloc: sizes above half the word range are excluded, where rounding up wraps to zero; the address ignores the alignment, as in the code (see `GPAllocators.AlignedAsHeader`).
- GPAllocators.GPAllocator.Grow: a pointer into the bytes of a bucket that is not live is excluded, as in Shrink and Free; where a block of no bytes stands is left to the backing allocator.
- ArenaAllocators.ArenaAllocator.Alloc: the offset in the chunk is aligned, not the absolute address, as in the code; alignments are powers of two here and in every other allocator. Size arithmetic is unbounded here and in the fixed and slab allocators.
- ArenaAllocators.ArenaAllocator.Free: freeing twice and foreign pointers are excluded, here and in every other allocator; a slice with another length than the block is covered unless its end happens to be the boundary.
- SlabAllocators.SlabAllocator.Alloc: addresses do not wrap around, and the slab's own header and bitmap are objects of their own rather than bytes of the backing allocator.
- WasmAllocators.WasmAllocator.AllocBigPages: memory grown is never below memory seen before.
- Printf.Vsnprintf: the smallest value of a signed type is excluded, since negating it is undefined in C; so are arguments that do not match the format.
- StrBuilders.StrBuilder.Appendf: a measured length equal to the largest `int` is excluded, where the size of the second pass overflows.
- Strtoul.Strtoul: negating a result of 2^(N-1) is taken to wrap around, which C leaves undefined.
- RingBuffers.RingBuffer.Push: capacity zero is excluded, because the code then divides by zero; for the same reason FStreams.FStream.Write excludes it when there is anything to write.
- FStreams.FStream.FileWrite: a write by the operating system stores everything or nothing; partial writes are not modelled, and neither are gaps other than zeros left by seeking past the end. Outside POSIX systems the option to append is dropped on the way to the operating system, so that `append` is false there.
- FStreams.FStream.Read: capacity zero is excluded when there is anything to read, because the code then takes bytes from a buffer that stays empty.
- FStreams.FStream.Seek: offsets are not negative and do not wrap around.
- Vectors.Vector.Subslice: a length that does not fit in a word is excluded.
- MemStreams.MemStream.Write: positions that overflow a word are excluded.
- HashMaps.HashMap.Insert: capacities above 2^58 buckets, whose bytes a word cannot count, are excluded; no operation ever marks a bucket deleted, so that `deleted` is false throughout.
- Vectors.Vector.PushBack: doubling a capacity does not wrap around. Copying, clearing, indexing and iterating a vector only restate its contents.
- Null receivers, layout checks and user destructors, which are the same guard everywhere.
- Destroying the arena and the doubly linked list, a walk over one list each.
- Pages, files, directories, errno and the libc allocator: the operating system is part of the environment.
- The singly linked list, optional, result and reference-counting macros, strings beyond reserving, and hash functions: subsumed or straightforward.
- The examples: the 6502 emulator and the http server use the library and are not part of it.
