# Verified model of openshmem-rs

A Dafny model of the parts of the library that give its address space a meaning: the symmetric
heap allocator, typed one-sided transfers, the bootstrap handshake, the out-of-band allgather,
collective requests, atomics, completion and the process lifecycle. `dafny verify dfyconfig.toml`
checks the whole project.

| file | what it holds |
|---|---|
| `Machine.dfy` | 64-bit `usize`, checked arithmetic, the `!7` mask bit by bit, errors |
| `HeapSpec.dfy` | what a heap means: live offsets, free bytes, the reference allocator, the one gap list of a live map, conservation |
| `SymHeap.dfy` | the allocator: first fit, split, sort and merge, the `SymHeap` class, pointer translation |
| `Symmetry.dfy` | call histories on one PE, on all PEs, on heaps of different sizes; orders of frees |
| `PodCodec.dfy` | the ten scalar types as bit patterns, in both byte orders, and typed buffers |
| `Rma.dfy` | address checks, put and get over all PEs' memory, frame conditions |
| `Bootstrap.dfy` | the handshake of N processes as a transition system |
| `OobAllgather.dfy` | repeated allgather calls of N processes over one reused key |
| `Pgas.dfy` | bootstrap, symmetric heap and put composed |
| `Collectives.dfy` | blocking collectives and non-blocking requests over abstract operations, gather layout |
| `Atomics.dfy` | two's-complement bits, order independence, tickets, atomics on memory |
| `Lifecycle.dfy`, `Completion.dfy` | init and finalize histories; quiet |

The allocator's central fact is a representation theorem. `SymHeap.Valid` says the free list is
exactly the ordered list of maximal gaps the live map leaves, and `FreeListIsDetermined` says there
is only one such list. `Malloc` is proved against a reference that searches the heap byte by byte
and knows neither the free list nor the base address, so symmetry between PEs, independence of the
order of frees and monotonicity in the heap size become statements about the real class.

Where a method is proved against a function, a lemma says what that function means without it:
`AnswerMeaning`, `LiveIffHeld`, `ApplyMeaning`, `Widths`, `ByteOfValue`, `RangeChecks`,
`BroadcastMeaning`, `ReduceMeaning`, `CollectMeaning`, `InitMeaning`, `QueryMeaning`. Calls with
several checks are stated by `IsFirstFailure`, which lists the checks in order. The transition
systems have both halves: what no run can do, and what runs without a foreign failure reach.

Stored sums have type `usize`, a range of the integers, so every unchecked addition of the source
that is stored (`local_base + start`, `start + requested`, `last.start + last.len`,
`last.len += len`) carries a proof that it fits in 64 bits.

Foreign libraries appear as these assumptions:

- The system allocator places a region of `n` bytes at an 8-aligned base with `base + n <= 2^64`.
- A transport put or get is a byte copy inside the target's registered region and an error, with no
  effect, outside it. Transfers and atomics take effect one at a time.
- The key-value store shows what a process has committed; a fence is left only after every process
  has entered it (for repeated fences, as many of them as the leaver). Any foreign call may fail.
- A posted collective needs a finite number of progress calls, then has one final status; when it
  is UCC_OK its buffer, whose length never changes, holds the output.

Where the code and its documentation differ the model follows the code: `docs/DESIGN.md` speaks of
a jemalloc pool, where the code has its own free list, and of a per-endpoint fence, where the code
fences the whole worker. No transfer is checked against the target's capacity
(`CapacityIsNotChecked`, `AcceptedRange`), so in-bounds claims come from the allocator's invariant.

Five properties one might expect do not hold of the code, and each has its exact condition:

- Under the reused key an allgather call can return another call's bytes. Every return from call
  `r` is exact, in every run, iff there is one process or each process's next contribution has the
  same bytes or another length (`CallIsExactIff`; `RoundExactnessFails` is a run).
- An allgather call can fail although no foreign call does and all processes pass the same length:
  iff there are two processes or more and the next call has another length
  (`CallFailsAloneIff`; `SpuriousFailure` is an instance).
- `Ok(true)` from `test` does not always mean the destination was written: iff no earlier call
  failed (`OkTrueMeansWrittenIff`; `OkTrueUnwritten` is a request).
- The peer maps cover the whole job iff it has fewer than 2^32 PEs, because the loop bound is
  truncated (`CoversJobIff`; `TruncatedJobSize` is a run).
- `reduce` and `reduce_nb` agree iff the buffer is not empty (`ReduceAgreesIffNonEmpty`).

## Model

| member | source | states |
|---|---|---|
| Machine.MaskBits | src/symheap.rs:148-151 | the rounding mask clears the three low bits and keeps every other bit |
| HeapSpec.RoundUp8 | src/symheap.rs:148-151 | the request is rounded to the multiple of 8 in `[size, size + 8)` |
| HeapSpec.Place | src/symheap.rs:152-158 | the reference allocator finds the least offset with that many contiguous free bytes, or there is none |
| HeapSpec.MallocMeaning | src/symheap.rs:144-158 | the reference answers the least offset with room, or the error of the first failing check: zero size, size overflow, no room anywhere |
| HeapSpec.FreeListIsDetermined | src/symheap.rs:133-136 | two lists of exactly the maximal gaps of one live map are equal: the free list is a function of the live map |
| HeapSpec.RunInOneBlock | src/symheap.rs:152-156 | any contiguous free run lies inside a single free block, because blocks never touch |
| HeapSpec.MallocKeepsWellFormed | src/symheap.rs:144-169 | allocating at the least feasible offset keeps allocations aligned, inside the heap and disjoint |
| HeapSpec.Conservation | src/symheap.rs:144-202 | free and live bytes add up to the capacity: they tile the heap |
| SymHeaps.InsertByStart | src/symheap.rs:189 | insertion into the sorted list permutes the blocks and keeps the total length |
| SymHeaps.SortByStart | src/symheap.rs:189 | sorting permutes the blocks and keeps the total length |
| SymHeaps.SortStacks | src/symheap.rs:189 | sorting pairwise disjoint blocks in any order puts them in address order without overlap |
| SymHeaps.Coalesce | src/symheap.rs:189-200 | for any disjoint blocks in any order, the merge yields sorted blocks covering the same bytes, same total, no two touching |
| SymHeaps.MergedIsAligned | src/symheap.rs:190-200 | merging aligned blocks gives aligned blocks |
| SymHeaps.FirstFit | src/symheap.rs:152-156 | the position of the first block long enough, or none is |
| SymHeaps.FirstFitIsPlace | src/symheap.rs:152-158 | on a gap list, the first block that fits starts at the least feasible offset of the whole heap |
| SymHeaps.NoFitIsNoPlace | src/symheap.rs:152-156 | when no block fits, no contiguous free run of that size exists anywhere |
| SymHeaps.CoversAfterTake | src/symheap.rs:159-166 | cutting a request from the front of the chosen block takes exactly those bytes out of the free ones |
| SymHeaps.GapsAfterMalloc | src/symheap.rs:157-167 | removing or shrinking that block leaves exactly the gaps of the enlarged live map |
| SymHeaps.GapsAfterFree | src/symheap.rs:188-200 | merging in a freed block leaves exactly the gaps of the reduced live map |
| SymHeaps.WordsForIsExact | src/symheap.rs:111-118 | a heap size is accepted iff it is at least 8 and can be padded; `words * 8` is the least multiple of 8 holding it and fits |
| SymHeaps.WithSize | src/symheap.rs:110-141 | the new heap is one free block of the rounded size, or the exact error: too small, overflow, registration, rkey pack |
| SymHeaps.SymHeap.constructor | src/symheap.rs:130-140 | initial state: one block, nothing live, invariant holds |
| SymHeaps.SymHeap.Malloc | src/symheap.rs:144-169 | answers as the reference allocator shifted by the base; the new allocation is exactly that; pointers are 8-aligned; a failure changes nothing; the free list stays the gap list |
| SymHeaps.SymHeap.Claim | src/symheap.rs:157-168 | the chosen block's front becomes the allocation and the gap list is kept |
| SymHeaps.SymHeap.Free | src/symheap.rs:172-202 | succeeds iff the pointer is live (so the later rejections never fire), removes exactly it, and a rejected call changes nothing |
| Symmetry.RunOn | src/symheap.rs:144-202 | any history of mallocs and frees on a real heap gives the base-free outcome shifted by the base; the allocator then holds exactly the pointers whose call got them and no later call freed, with their rounded sizes, and every free was done, refused or skipped accordingly |
| Symmetry.RunOnAll | src/symheap.rs:28-46 | any number of PEs, any bases, any sizes the history does not exhaust: same successes and errors, each PE's pointers translate to every other's, equal free lists at equal sizes, and each allocator holds what its replies say |
| Symmetry.LiveIffHeld | src/symheap.rs:144-202 | an offset is live iff some malloc of the history got it and no later free named it; its length is that call's size rounded up |
| Symmetry.AnswerMeaning | src/symheap.rs:144-175 | what each call of a history is answered, from what is live when it is made |
| Symmetry.FirstFree | src/symheap.rs:172-202 | a pointer that no free has named since its malloc can be freed |
| Symmetry.SecondFree | src/symheap.rs:171-175 | a second free of a pointer is refused, unless a malloc in between got an equal one |
| Symmetry.FreedIsReused | src/symheap.rs:144-202 | after a malloc and its free the same malloc gets the same answer |
| Symmetry.RunIsWellFormed | src/symheap.rs:144-202 | after any history allocations are disjoint, aligned and inside the heap |
| Symmetry.RunPrefix | src/symheap.rs:144-202 | replies to a prefix of a history are a prefix of its replies: agreement holds at every step |
| Symmetry.TranslationKeepsOffset | src/symheap.rs:28-46 | the translated address is the one address at the pointer's own offset in the peer's heap, when there is one |
| Symmetry.TranslationRoundTrip | src/symheap.rs:42-46 | translating to a peer and back is the identity |
| Symmetry.MallocThenFree | src/symheap.rs:144-202 | a malloc followed by its free restores the exact free list and live map |
| Symmetry.FreeEach | src/symheap.rs:172-202 | freeing distinct live pointers removes exactly that set |
| Symmetry.FreeOrderIsIrrelevant | src/symheap.rs:172-202 | freeing the same pointers in two orders gives equal heaps |
| Symmetry.FreeEverything | src/symheap.rs:172-202 | freeing all pointers gives back one block, the whole heap |
| Symmetry.PlaceInLarger | src/symheap.rs:152-158 | a larger heap with the same allocations places a request where the smaller one does, or past its end |
| Symmetry.LargerHeapAgrees | src/symheap.rs:101-107 | until the smaller heap is exhausted, heaps of different sizes answer a history identically |
| Symmetry.FirstFailure | src/symheap.rs:152-156 | at the first exhausted call a larger heap also fails or answers with a block reaching past the smaller heap |
| Symmetry.TailIsFree | src/symheap.rs:133-136 | the larger heap's free list is the smaller one's with the tail joined on |
| Symmetry.RunOnTwoSizes | src/symheap.rs:101-107 | two real heaps of different sizes: same replies, and free lists related by that tail |
| PodCodec.ValueRoundTrip | src/rma.rs:257-263 | decode of a value's native bytes is the value, in either byte order |
| PodCodec.BytesRoundTrip | src/rma.rs:257-263 | any byte string of the right length decodes to a value whose bytes it is |
| PodCodec.Widths | src/rma.rs:272-283 | for each of the ten types, the number of bytes on the wire and the range of its values, in numbers |
| PodCodec.ByteOfValue | src/rma.rs:257-263 | byte `k` of a value is `v / 256^k % 256`, `k`-th from the front or from the back by byte order |
| PodCodec.OneAsF64 | src/rma.rs:257-263 | the eight bytes of the f64 value 1.0 in both byte orders |
| PodCodec.DecodeOfEncode | src/rma.rs:384-392 | decoding an encoded list gives the list back, for all ten types |
| PodCodec.EncodeOfDecode | src/rma.rs:384-392 | any whole number of chunks decodes without error and encodes back to the same bytes |
| PodCodec.DecodeConcat | src/rma.rs:389-391 | chunked decoding distributes over whole chunks |
| PodCodec.DecodeDropsRemainder | src/rma.rs:384-392 | decoding any bytes yields fitting values that encode to all of them but a last partial chunk |
| PodCodec.EncodeBuffer | src/coll.rs:246-256 | the append loop builds the concatenated encoding, 1, 2, 4 or 8 bytes a value by type, or refuses an overflowing length |
| PodCodec.DecodeBuffer | src/coll.rs:257-270 | overwrites the slice with the values that encode to the bytes; every other length is refused without writing |
| PodCodec.EncodedByte | src/rma.rs:357-372 | byte `j` of element `i` of an encoded buffer is at `i*SIZE + j` |
| PodCodec.MemoryImageIsEncoding | src/rma.rs:357-372 | the zero-copy view of a slice equals the concatenated encoding, and nothing else does |
| Rma.AcceptedRange | src/rma.rs:285-305 | an accepted range is inside the target heap exactly when offset plus length is within its capacity |
| Rma.RangeChecks | src/rma.rs:285-305 | a range is refused with the error of the first failing check, and otherwise addressed at its offset from the target's base |
| Rma.CapacityIsNotChecked | src/rma.rs:285-305 | the checks accept some range outside the heap |
| Rma.RangeInHeapIsAccepted | src/rma.rs:285-305 | every range inside a heap, empty ones with an address included, is accepted at the translation of the caller's own pointer |
| Rma.Fabric.PutMem | src/rma.rs:312-329 | success, each error and the exact new memory of a byte put |
| Rma.Fabric.GetMem | src/rma.rs:332-350 | success, each error and the bytes a get returns |
| Rma.Fabric.Put | src/rma.rs:379-381 | a typed put writes the encoding of the values, 1, 2, 4 or 8 bytes each by type, at the offset and changes nothing else |
| Rma.Fabric.Get | src/rma.rs:384-392 | a typed get returns values that fit and encode to the bytes held there |
| Rma.FrameByAllocation | src/rma.rs:312-329 | a change confined to a range of one allocation leaves every other live allocation of every PE alone, whatever each region's size |
| Rma.PutInside | src/rma.rs:379-381 | a put inside a live allocation succeeds and touches no other byte of any PE |
| Rma.PutThenGet | src/rma.rs:379-392 | put then get returns the same values for every type |
| Bootstrap.RunInv | src/bootstrap.rs:61-115 | the global invariant holds in every state of every interleaving |
| Bootstrap.LookupAfterFence | src/bootstrap.rs:78-94 | past the fence the store shows every process's three own keys |
| Bootstrap.NeverMissingKey | src/bootstrap.rs:85-95 | no process reads a missing key, and each read sees the peer's own value |
| Bootstrap.Agreement | src/bootstrap.rs:83-114 | every finished process holds each peer's own base and rkey; any two hold equal maps; the two maps agree on bases |
| Bootstrap.CoversJobIff | src/bootstrap.rs:85 | the maps have domain `0..size` iff the size is below 2^32 |
| Bootstrap.TruncatedJobSize | src/bootstrap.rs:85 | a run told a job size of 2^32 that finishes with both peer maps empty |
| Bootstrap.FailureBeforeFenceBlocksAll | src/bootstrap.rs:70-81 | once a process has failed before the fence, no process ever reads or finishes |
| Bootstrap.OnlyForeignFailures | src/bootstrap.rs:67-100 | a process fails only by a foreign call or for the one reason its own or its peers' data give; with complete data only by a foreign call |
| Bootstrap.ReadPeers | src/bootstrap.rs:83-114 | the read loop after the fence reports the first peer's missing key, incomplete metadata or foreign failure, or else fills exactly those maps; it succeeds iff there is none |
| Bootstrap.NoDeadlock | src/bootstrap.rs:61-115 | unless some process failed, all are done or one can step |
| Bootstrap.RunsAreBounded | src/bootstrap.rs:61-115 | every interleaving is finite, with a bound on its length |
| Bootstrap.CleanOutcome | src/bootstrap.rs:61-115 | how each process ends when no foreign call fails: zero size, its own empty value, in the fence behind another's, the first peer's fault, or done with every peer recorded |
| Bootstrap.CleanRunEnds | src/bootstrap.rs:61-115 | there is a run with no foreign failure that goes on until no process can step |
| Bootstrap.CanFinishIff | src/bootstrap.rs:61-115 | a process can finish iff the size is not zero, every process can publish, and the loop's peers are there and complete |
| OobAllgather.RunInv | src/coll.rs:40-81 | the multi-round invariant holds in every state of every interleaving of repeated calls |
| OobAllgather.EmptyCallRefused | src/coll.rs:47-49 | a call with an empty contribution is never got past: its process has not put or has failed |
| OobAllgather.SkewAtMostOne | src/coll.rs:59-62 | no two processes, failed or not, are more than one call apart |
| OobAllgather.SlotsWithinOneRound | src/coll.rs:63-75 | every filled slot holds that peer's contribution to this call or the next |
| OobAllgather.ReadIsExactIff | src/coll.rs:63-65 | while a call reads, the store shows it a peer's contribution to this call iff the peer has not committed its next one, or contributes the same bytes to both |
| OobAllgather.RoundExactnessFails | src/coll.rs:28-80 | a concrete reachable state where call 0 returned a call-1 contribution |
| OobAllgather.CallIsExactIff | src/coll.rs:40-81 | every return from a call is exact, in every run, iff there is one process or each next contribution has the same bytes or another length |
| OobAllgather.InexactReturn | src/coll.rs:59-76 | at any call, a peer whose next contribution has the same length can be read one call ahead |
| OobAllgather.IsolatedRound | src/coll.rs:52-76 | a call no process has run past gathered exactly its own contributions |
| OobAllgather.IsolatedRoundFillsBuffer | src/coll.rs:70-74 | the destination's slot `p*len..(p+1)*len` is then exactly process p's bytes |
| OobAllgather.OnlyForeignFailures | src/coll.rs:47-78 | with one non-empty length in each call, a call fails only when a foreign call does, or with -1 when the next call's length differs |
| OobAllgather.CallFailsAloneIff | src/coll.rs:67-68 | a call can fail with no foreign failure iff there are two processes or more and the next call has another length |
| OobAllgather.LengthChangeFails | src/coll.rs:67-68 | at any call, a peer whose next contribution has another length can make a reader fail |
| OobAllgather.SpuriousFailure | src/coll.rs:67-68 | agreed lengths one and then two: process 0's first call fails |
| OobAllgather.NoDeadlock | src/coll.rs:62 | while no process has failed, some process can step |
| OobAllgather.SlotOf | src/coll.rs:70-74 | slot `k` of the concatenated values is value `k` |
| OobAllgather.CopySlots | src/coll.rs:63-77 | the copy loop fills the buffer with all values, or stops at the first wrong length with the slots before it written |
| Pgas.PeersAreBases | src/bootstrap.rs:103-112 | a finished handshake's peer map is the map of all PEs' heap bases |
| Pgas.OwnPointer | src/symheap.rs:28-32 | on every PE the pointer of one call is its base plus a common offset |
| Pgas.PutThroughOwnPointer | src/rma.rs:379-381 | a put through a PE's own pointer to a shared allocation lands at the target's own pointer and changes no other live allocation |
| Collectives.Wait | src/coll.rs:142-153 | the progress loop terminates with the operation's one outcome |
| Collectives.TestHistory | src/coll.rs:190-214 | what the `k`-th call of `test` answers and leaves, for every `k` and every schedule |
| Collectives.WrittenAtMostOnce | src/coll.rs:202-212 | at most one call ever writes the destination, and it answers `Ok(true)` |
| Collectives.OkTrueMeansWrittenIff | src/coll.rs:202-213 | after `Ok(true)` the destination holds the result iff no earlier call failed |
| Collectives.OkTrueUnwritten | src/coll.rs:202-213 | a request whose failed finalize is followed by `Ok(true)` over an unwritten destination |
| Collectives.CollectiveRequest.constructor | src/coll.rs:169-184 | a new request holds its operation and buffers |
| Collectives.CollectiveRequest.Test | src/coll.rs:190-214 | one poll is one step of the request state machine |
| Collectives.CollectiveRequest.Wait | src/coll.rs:217-220 | waiting ends with the operation's outcome after `remaining + 1` polls; on a finished request it answers `Ok` and changes nothing |
| Collectives.CollectiveRequest.Gathered | src/coll.rs:223-234 | the values whose encoding is the receive buffer, short of a chunk at most, or the exact error |
| Collectives.InPlaceMeaning | src/coll.rs:303-313 | an in-place collective succeeds iff posting and the operation do, then holds the values its buffer encodes, and is untouched otherwise |
| Collectives.BroadcastMeaning | src/coll.rs:290-314 | a broadcast fails with the error of the first failing check, named in order, and otherwise leaves the values that encode to the output |
| Collectives.Broadcast | src/coll.rs:290-314 | the same, of the method's own result and contents: first failing check, or the values that encode to the output; untouched on an error |
| Collectives.BroadcastNb | src/coll.rs:403-438 | a posted request that holds the encoded values, or broadcast's own error |
| Collectives.BroadcastNbThenWait | src/coll.rs:403-438 | posting and waiting fails with the first failing check's error and otherwise leaves the values that encode to the output, as the blocking broadcast |
| Collectives.ReduceMeaning | src/coll.rs:353-376 | a reduce fails with the error of the first failing check, and otherwise leaves the values that encode to the output |
| Collectives.Reduce | src/coll.rs:353-376 | outcome and final contents of the blocking reduce |
| Collectives.ReduceNb | src/coll.rs:476-512 | a posted request over a non-empty destination, or the error of its specification, nothing written |
| Collectives.ReduceNbThenWait | src/coll.rs:476-512 | posting and waiting has the specified outcome and contents on every buffer, and the blocking reduce's on non-empty ones |
| Collectives.ReduceNbMeaning | src/coll.rs:476-512 | reduce_nb refuses an empty buffer and has reduce's checks on the others |
| Collectives.ReduceAgreesIffNonEmpty | src/coll.rs:353-376 | the specifications of reduce and reduce_nb agree iff the buffer is non-empty |
| Collectives.NestedIsFlat | src/coll.rs:342-345 | splitting by rank then by element decodes as the flat split does, with nothing dropped |
| Collectives.GatherLayout | src/coll.rs:342-345 | element `r*n + i` of the gathered values is rank r's `i`-th contribution |
| Collectives.CollectMeaning | src/coll.rs:316-347 | a collect fails with the error of the first failing check, and otherwise gives, `n` from each rank, the values that encode to the gathered buffer |
| Collectives.Collect | src/coll.rs:316-347 | the specified result or error; the values encode to the gathered buffer, as many from each rank as passed |
| Collectives.CollectNb | src/coll.rs:441-473 | a posted request holding the encoded contribution and a receive buffer of one such length a rank, last, or collect's own error |
| Collectives.CollectNbThenResult | src/coll.rs:441-473 | posting, waiting and reading the result is collect |
| Atomics.BitsRoundTrip | src/rma.rs:627-635 | conversion to bits and back is the identity both ways, at every width and sign |
| Atomics.AtomicWidths | src/rma.rs:747-774 | the width of each of the four types' cells and the range of its values, in numbers |
| Atomics.AddOnBits | src/rma.rs:627-643 | unsigned wrapping add on bits is the wrapping add at the value's own type |
| Atomics.BitwiseAt | src/rma.rs:776-797 | bit `k` of xor, and, or is given by the operation's truth table on bits `k` |
| Atomics.AnyInterleaving | src/rma.rs:776-797 | any arrival order of the same adds, or of the same xors, ands or ors, leaves one value |
| Atomics.OneWinner | src/rma.rs:852-876 | among contending compare-and-swaps exactly the first to arrive wins, whatever the order |
| Atomics.RepliesArePrefixSums | src/rma.rs:825-850 | fetch-add replies are the prefix sums of the arrival order, modulo the width |
| Atomics.TicketsDistinctIff | src/rma.rs:825-850 | unit fetch-adds return distinct tickets iff there are at most 2^w |
| Atomics.ApplyFits | src/rma.rs:776-823 | no operation takes a cell outside its width |
| Atomics.ApplyMeaning | src/rma.rs:776-823 | what each operation leaves in a cell: the sum modulo the width, the truth table at every bit, the new value, the replacement if the cell was as expected |
| Atomics.Atomic | src/rma.rs:776-876 | an atomic replies with the old cell, leaves in it what that operation must, and changes no other byte of any PE; when it succeeds and which error it gives otherwise |
| Atomics.AtomicEach | src/rma.rs:776-823 | operations arriving one after another leave the memory cell at their fold and no other byte changed |
| Atomics.AtomicsInAnyOrder | src/rma.rs:776-797 | two arrival orders of the same adds, xors, ands or ors leave the memory of all PEs equal |
| Atomics.FetchAdd | src/rma.rs:825-850 | when the call succeeds and which error it gives otherwise; the reply is the old value, the cell then holds the wrapping sum at the value's type, every other byte of every PE stays |
| Atomics.FetchSwap | src/rma.rs:848-850 | the reply is the old value, the cell then holds the operand, nothing else changes |
| Atomics.FetchCompareSwap | src/rma.rs:852-876 | the reply is the old value, the cell then holds the replacement iff that was the expected value, nothing else changes |
| Atomics.FetchXor | src/rma.rs:825-849 | the reply is the old value, the cell's bits then differ exactly where the operand has a one, nothing else changes |
| Lifecycle.Balance | src/init.rs:74-156 | connects minus disconnect attempts is 1 with state installed and 0 without, after any history |
| Lifecycle.InstalledIff | src/init.rs:74-187 | state is installed iff some init succeeded and was not finalized since |
| Lifecycle.InitMeaning | src/init.rs:74-156 | an init fails at the first step that does not answer, with its costs, and otherwise installs the rank, PMIx's job size or else the variable's, and the collectives |
| Lifecycle.InstalledIs | src/init.rs:126-138 | what is installed is what the live init found |
| Lifecycle.QueryMeaning | src/init.rs:158-187 | my_pe, n_pes and finalize answer from the live init, or as uninitialised |
| Lifecycle.Runtime.Init | src/init.rs:74-156 | every early exit disconnects and leaves no state; success installs rank, size and collectives |
| Lifecycle.Runtime.Finalize | src/init.rs:179-187 | clears the state and disconnects once; a repeated finalize is a no-op |
| Lifecycle.Runtime.MyPe | src/init.rs:158-164 | the rank of the installed state, or NotInitialized |
| Lifecycle.Runtime.NPes | src/init.rs:166-172 | the size of the installed state, or NotInitialized |
| Completion.QuietMeaning | src/rma.rs:896-907 | a quiet succeeds iff every flush does; on failure exactly the peers before the failing one have completed |
| Completion.QuietDrains | src/rma.rs:896-907 | a successful quiet leaves nothing outstanding to any PE |
| Completion.Endpoints.Quiet | src/rma.rs:896-907 | the loop over endpoints has that effect |
| Completion.Endpoints.QuietPe | src/rma.rs:910-924 | completes one PE, or reports it out of range or not in the job |
| Completion.Endpoints.QuietEach | src/rma.rs:896-924 | quiet equals quiet_pe on each peer in key order |

## Left out

- The UCX, PMIx and UCC calls themselves: foreign code, represented by the assumptions above.
- `Bootstrap` and `OobAllgather` are transition systems on values, because what matters is every
  interleaving of N processes; their loops over peers are also methods, `ReadPeers` and `CopySlots`.
- Completion of a single transfer: a put or get is one step, so waiting on its request is not modelled.
- `fence`: transfers here take effect in issue order, so there is nothing for it to order.
- `barrier` and `barrier_nb`: they move no data; their request is a request without destination.
- Reduction arithmetic and the table of supported reductions: the output comes from UCC; support is a parameter.
- `PeerRkeys` as a wrapper type: its insert and get are map update and lookup in `Bootstrap`.
- `SymAlloc`, `malloc`, `free`, `heap_base`, `quiet_all` at module level: delegation under the state lock.
- Environment parsing, error display and conversions, transport construction, drop order, `Send` impls.
- Floating-point values: `f32` and `f64` are 4- and 8-byte bit patterns.
- Collectives.ReduceAgreesIffNonEmpty: assumes the runtime, the posting and the operation never answer with reduce_nb's own empty-buffer error.
- Rma.Fabric.Put: takes the slice's memory image as a parameter; Rust's guarantee that the slice has that image is assumed.
- SymHeaps.SortByStart: represents the library's stable sort by insertion; its stability is not stated, since starts are distinct.
