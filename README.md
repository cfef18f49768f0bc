# FIIT_FA_SP core, modelled in Dafny

This project models the core of the FIIT_FA_SP C++ coursework library and proves properties of the model. The core has three parts.

- **Memory allocators.** `allocator_boundary_tags` keeps a doubly linked chain of block headers (63-bit size, allocated bit, next, prev, parent arena) in one arena. It allocates under first, best or worst fit, splits a block when the rest holds more than a header, and on deallocation merges a freed block with free neighbours. `allocator_buddies_system` keeps one-byte headers (occupied bit, 7-bit exponent) over an area of 2^k bytes. It splits blocks into buddies down to the request and merges them back on deallocation.
- **Arithmetic.** `big_int` is a sign and a vector of base-2^32 digits, least significant first. The model covers comparison, `+=`, `-=`, the shifts, the bitwise operators, schoolbook `*=`, the long division behind `/=` and `%=`, `to_string` and the string constructor. `fraction` is a numerator and a denominator kept in lowest terms with a positive denominator. The model covers gcd, `optimise`, the arithmetic operators, comparison, `pow`, `to_string` and `>>`.
- **Loggers.** The format expansion `make_format` (`%d`, `%t`, `%s`, `%m`) of the client and server loggers. The process-wide reference-counted file table behind `client_logger::refcounted_stream`. The two builders. The server logger's copy and move operations and the `/init` parameters they send.

## How the model is organised

- **Mutable state becomes classes.** Each allocator, stream, table, builder and logger is a Dafny `class` whose methods have `modifies` clauses.
  - The boundary-tags heap is a map from address to header.
  - The buddy area is an `array` of packed tags.
- **Loops stay loops.** Every loop of the source is a `method` with its invariants. That includes the carry and borrow loops, the schoolbook rows, the binary search of the long division, the fit searches, the split and merge loops, and the format and split loops.
- **Each method is proved against a specification function**, for example:
  - `AllocLayout` and `FreeLayout` on the list of spans;
  - `Mag` and `Value` on digit sequences;
  - `Expand` on the format;
  - `Join` and `PathsOf` on the server's path strings.
  The properties the source promises are lemmas about those functions: round trips, invariants kept, and uniqueness of normal forms.
- **Source bugs.** Where the source is wrong, the code as written is modelled beside the corrected code (see "## Findings"). The rest of the model uses the corrected definitions.

Files:

- `wrappers.dfy`, `powers.dfy`, `fit_mode.dfy`: Option, Result and Outcome; powers of two and floor log2; the fit modes.
- `boundary_tags_layout.dfy`, `boundary_tags.dfy`, `boundary_tags_findings.dfy`: the boundary-tags allocator.
- `buddies_layout.dfy`, `buddies.dfy`, `buddies_findings.dfy`: the buddy allocator.
- `big_int_digits.dfy`, `big_int.dfy`, `big_int_bits.dfy`, `big_int_muldiv.dfy`, `big_int_text.dfy`, `big_int_findings.dfy`: big_int.
- `fraction.dfy`, `fraction_text.dfy`, `fraction_findings.dfy`: fraction.
- `logger_format.dfy`, `logger_findings.dfy`, `client_logger.dfy`, `client_streams.dfy`, `client_streams_findings.dfy`, `client_logger_builder.dfy`, `server_logger_builder.dfy`, `server_logger.dfy`: the loggers.

## Model

| member | source | states |
|---|---|---|
| Powers.FloorLog2 | allocator/allocator_buddies_system/src/allocator_buddies_system.cpp:34 | floor(log2 n) is the k with 2^k <= n < 2^(k+1) |
| BoundaryTagsLayout.SplitKeeps | allocator/allocator_boundary_tags/src/allocator_boundary_tags.cpp:78-89 | cutting a block at need keeps the blocks tiling the arena, each at least a header |
| BoundaryTagsLayout.MergeKeeps | allocator/allocator_boundary_tags/src/allocator_boundary_tags.cpp:91-101 | joining two neighbouring blocks keeps the tiling and the minimum sizes |
| BoundaryTagsLayout.SetAllocatedKeeps | allocator/allocator_boundary_tags/src/allocator_boundary_tags.cpp:126-127 | flipping one block's allocated bit keeps the tiling and the minimum sizes |
| BoundaryTagsLayout.AllocKeeps | allocator/allocator_boundary_tags/src/allocator_boundary_tags.cpp:103-138 | allocation keeps the tiling, the minimum sizes and no two free blocks adjacent, and the chosen block is now allocated, cut to need when the rest holds more than a header |
| BoundaryTagsLayout.FreeForwardShape | allocator/allocator_boundary_tags/src/allocator_boundary_tags.cpp:154-155 | after marking free and merging a free successor, the freed block is free, the blocks before it are unchanged and no free pair follows it |
| BoundaryTagsLayout.FreeKeeps | allocator/allocator_boundary_tags/src/allocator_boundary_tags.cpp:140-158 | deallocation keeps the tiling, the minimum sizes and no two free blocks adjacent |
| BoundaryTagsLayout.AllocThenFree | allocator/allocator_boundary_tags/src/allocator_boundary_tags.cpp:103-158 | allocating from a free block and freeing the result gives back the block list unchanged |
| BoundaryTagsLayout.NoneChosenMeansNoFit | allocator/allocator_boundary_tags/src/allocator_boundary_tags.cpp:160-213 | under every fit mode, no block is chosen exactly when no free block is large enough |
| BoundaryTagsLayout.SplitIsInit | allocator/allocator_boundary_tags/src/allocator_boundary_tags.cpp:78-89 | splitBlockAndInit is shrinking the block, placing a zeroed header after it, and initBlockMetadata of that header with the block as predecessor |
| BoundaryTagsLayout.UpdateOne | allocator/allocator_boundary_tags/src/allocator_boundary_tags.cpp:126-127 | rewriting one listed header's size or flag, not its links, changes only that block of the list |
| BoundaryTagsLayout.SplitView | allocator/allocator_boundary_tags/src/allocator_boundary_tags.cpp:78-89 | the split header writes insert the new header into the chain right after the block and split its block in the list |
| BoundaryTagsLayout.MergeView | allocator/allocator_boundary_tags/src/allocator_boundary_tags.cpp:91-101 | the merge header writes remove the donor from the chain and merge the two blocks in the list |
| BoundaryTags.InfoTotal | allocator/allocator_boundary_tags/src/allocator_boundary_tags.cpp:244-258 | the sizes get_blocks_info reports add up to the arena's blocks plus one header per free block |
| BoundaryTags.ChainSplit | allocator/allocator_boundary_tags/src/allocator_boundary_tags.cpp:78-89 | a split keeps the header chain well formed and splits the block list |
| BoundaryTags.ChainFramed | allocator/allocator_boundary_tags/src/allocator_boundary_tags.cpp:35-41 | an arena whose region lies apart from the one written keeps its header chain and block list, so arenas sharing one memory do not disturb each other |
| BoundaryTags.ChainMerge | allocator/allocator_boundary_tags/src/allocator_boundary_tags.cpp:91-101 | a merge keeps the header chain well formed and merges the block list |
| BoundaryTags.Create | allocator/allocator_boundary_tags/src/allocator_boundary_tags.cpp:33-34 | the constructor throws "Not enough space" exactly when the size is below the allocator_metadata size, touching nothing; otherwise an allocator over the arena |
| BoundaryTags.BoundaryTagsAllocator.constructor | allocator/allocator_boundary_tags/src/allocator_boundary_tags.cpp:27-54 | the corrected constructor: the arena after the allocator_metadata is one free block of memSize - 32 bytes owned by this arena, and the allocator is valid |
| BoundaryTags.BoundaryTagsAllocator.CanMergeNextIff | allocator/allocator_boundary_tags/src/allocator_boundary_tags.cpp:61-64 | canMergeNext holds exactly when the next block in the chain is free, and then it is the block's successor |
| BoundaryTags.BoundaryTagsAllocator.CanMergePrevIff | allocator/allocator_boundary_tags/src/allocator_boundary_tags.cpp:56-59 | canMergePrev holds exactly when the previous block in the chain is free, and then it is the block's predecessor |
| BoundaryTags.BoundaryTagsAllocator.InitBlockMetadata | allocator/allocator_boundary_tags/src/allocator_boundary_tags.cpp:66-76 | a null block is left alone; otherwise it gets this arena as parent and the size, and with a predecessor it is linked in after it, the successor's back link updated (corrected) |
| BoundaryTags.BoundaryTagsAllocator.SplitBlockAndInit | allocator/allocator_boundary_tags/src/allocator_boundary_tags.cpp:78-89 | a block no larger than size is left alone; otherwise it keeps size bytes and a new free header takes the rest; the chain stays well formed and the list is split |
| BoundaryTags.BoundaryTagsAllocator.WriteSplit | allocator/allocator_boundary_tags/src/allocator_boundary_tags.cpp:79-86 | the header writes of a split: the block keeps size bytes and the new header after it is initialised as the free successor, owned by this arena |
| BoundaryTags.BoundaryTagsAllocator.MergeBlocks | allocator/allocator_boundary_tags/src/allocator_boundary_tags.cpp:91-101 | null arguments are ignored; otherwise the lower block absorbs the higher one (corrected: its size grows by the donor's), the chain stays well formed and the list is merged |
| BoundaryTags.BoundaryTagsAllocator.WriteMerge | allocator/allocator_boundary_tags/src/allocator_boundary_tags.cpp:95-99 | the header writes of a merge: the acceptor takes the donor's successor (corrected: and its bytes) and that successor points back at the acceptor |
| BoundaryTags.BoundaryTagsAllocator.FindFirstFit | allocator/allocator_boundary_tags/src/allocator_boundary_tags.cpp:160-172 | firstfit returns the first free block of at least need bytes, or null when there is none |
| BoundaryTags.BoundaryTagsAllocator.FindBestFit | allocator/allocator_boundary_tags/src/allocator_boundary_tags.cpp:174-188 | bestfit returns the first of the smallest free blocks of at least need bytes, or null when there is none |
| BoundaryTagsLayout.BestStep | allocator/allocator_boundary_tags/src/allocator_boundary_tags.cpp:174-188 | one more block in the bestfit scan: a free block of at least need bytes strictly below the running minimum becomes the candidate, and the scan state is kept |
| BoundaryTagsLayout.BestDone | allocator/allocator_boundary_tags/src/allocator_boundary_tags.cpp:174-188 | at the end of the list the scan state names the bestfit block, or no block qualifies |
| BoundaryTags.BoundaryTagsAllocator.FindWorstFit | allocator/allocator_boundary_tags/src/allocator_boundary_tags.cpp:199-213 | worstfit returns the first of the largest free blocks of at least need bytes, or null when there is none |
| BoundaryTagsLayout.WorstStep | allocator/allocator_boundary_tags/src/allocator_boundary_tags.cpp:199-213 | one more block in the worstfit scan: a free block of at least need bytes strictly above the running maximum becomes the candidate, and the scan state is kept |
| BoundaryTagsLayout.WorstDone | allocator/allocator_boundary_tags/src/allocator_boundary_tags.cpp:199-213 | at the end of the list the scan state names the worstfit block, or no block qualifies |
| BoundaryTags.BoundaryTagsAllocator.FindFit | allocator/allocator_boundary_tags/src/allocator_boundary_tags.cpp:111-121 | allocate's switch runs the search of the current fit mode |
| BoundaryTags.BoundaryTagsAllocator.MarkBlock | allocator/allocator_boundary_tags/src/allocator_boundary_tags.cpp:126-127 | setting the allocated bit (and the parent) of a listed block changes only that block's state in the list |
| BoundaryTags.BoundaryTagsAllocator.Allocate | allocator/allocator_boundary_tags/src/allocator_boundary_tags.cpp:103-138 | no block of size + 32 bytes under the fit mode: bad_alloc and nothing changes; otherwise the chosen block, split when the rest holds more than a header, is allocated and the address after its header returned; every header outside this arena's region is unchanged |
| BoundaryTags.BoundaryTagsAllocator.MergeFreed | allocator/allocator_boundary_tags/src/allocator_boundary_tags.cpp:155-157 | the merges with a free successor and then a free predecessor give the freed block list |
| BoundaryTags.BoundaryTagsAllocator.Deallocate | allocator/allocator_boundary_tags/src/allocator_boundary_tags.cpp:140-158 | null is ignored; a block not allocated by this arena is a double free and nothing changes; otherwise the block is freed and merged with free neighbours, and its header stays in memory marked free; every header outside this arena's region is unchanged |
| BoundaryTags.FreeTwice | allocator/allocator_boundary_tags/src/allocator_boundary_tags.cpp:140-158 | freeing the same pointer twice: the first call frees the block, the second reads the stale free header, reports a double free and leaves the block list unchanged |
| BoundaryTags.BoundaryTagsAllocator.FreeBlock | allocator/allocator_boundary_tags/src/allocator_boundary_tags.cpp:154-157 | marking the block free and merging it with free neighbours gives the freed block list, keeps the invariant, leaves the block's header present and free (merges change no allocated bit) and writes no header outside this arena |
| BoundaryTags.BoundaryTagsAllocator.SetFitMode | allocator/allocator_boundary_tags/src/allocator_boundary_tags.cpp:239-242 | set_fit_mode stores the mode |
| BoundaryTags.BoundaryTagsAllocator.BlocksInfo | allocator/allocator_boundary_tags/src/allocator_boundary_tags.cpp:244-258 | one entry per block in chain order; the sizes add up to the arena minus one header plus one header per free block |
| BoundaryTagsFindings.MergeLosesBytes | allocator/allocator_boundary_tags/src/allocator_boundary_tags.cpp:91-101 | merging two free 64-byte blocks as written leaves 64 bytes in no block; the corrected merge keeps the tiling |
| BoundaryTagsFindings.SplitLeavesStalePrev | allocator/allocator_boundary_tags/src/allocator_boundary_tags.cpp:66-89 | after a split as written the old successor still names the split block as predecessor, so freeing it does not merge with the free block before it; the corrected split links it back |
| BoundaryTagsFindings.StaleAllocatedBit | allocator/allocator_boundary_tags/src/allocator_boundary_tags.cpp:49-53 | when the first header's leftover allocated bit is set, no fit mode finds a block for any request; the corrected header serves every request up to the arena's size |
| BoundaryTagsFindings.HugeRequestWraps | allocator/allocator_boundary_tags/src/allocator_boundary_tags.cpp:219-221 | a request of 2^64 - 16 bytes asks as written for a 16-byte block, which the first free block satisfies; the corrected need fits no block |
| BuddiesLayout.Pack | allocator/allocator_buddies_system/include/allocator_buddies_system.h:20-23 | the packed header byte (occupied in bit 0, exponent in bits 1-7) fits in a byte |
| BuddiesLayout.PackRoundTrip | allocator/allocator_buddies_system/include/allocator_buddies_system.h:20-23 | every header decodes back from its byte and every byte from its header |
| BuddiesLayout.NearestGreaterKOf2 | allocator/allocator_buddies_system/include/allocator_buddies_system.h:27-41 | the bit-counting loop gives the exponent of the smallest power of two at least size (size_t(-1) for 0) |
| BuddiesLayout.CountBit | allocator/allocator_buddies_system/include/allocator_buddies_system.h:32-38 | one round of the loop counts bit i and remembers it when it is the highest one bit |
| BuddiesLayout.CeilFromCount | allocator/allocator_buddies_system/include/allocator_buddies_system.h:40 | what the loop leaves, the highest one bit bumped unless it is the only one, is the ceiling of log2 |
| BuddiesLayout.MinK | allocator/allocator_buddies_system/include/allocator_buddies_system.h:54 | min_k, the exponent for the one-byte block header, is 0 |
| BuddiesLayout.NextOffset | allocator/allocator_buddies_system/src/allocator_buddies_system.cpp:6-11 | next_block: the header 2^k bytes on when it lies below the area's last byte but one, and null exactly when it does not |
| BuddiesLayout.Walk | allocator/allocator_buddies_system/src/allocator_buddies_system.cpp:169-174 | the walk of headers from an offset starts with the header at that offset |
| BuddiesLayout.TiledCovers | allocator/allocator_buddies_system/src/allocator_buddies_system.cpp:163-177 | the blocks of a tiled area add up to the area |
| BuddiesLayout.TiledAdjacent | allocator/allocator_buddies_system/src/allocator_buddies_system.cpp:6-11 | in a tiled area every block starts where the previous one ends and the last ends at the area's end |
| BuddiesLayout.WalkIncreasing | allocator/allocator_buddies_system/src/allocator_buddies_system.cpp:6-11 | offsets along the walk strictly increase |
| BuddiesLayout.WalkFrame | allocator/allocator_buddies_system/src/allocator_buddies_system.cpp:81-87 | writes to headers off the walk change neither the walk nor the tiling |
| BuddiesLayout.SplitKeepsTiling | allocator/allocator_buddies_system/src/allocator_buddies_system.cpp:81-87 | one step of the split loop turns a block of exponent k into two buddies of exponent k - 1 and keeps the area tiled |
| BuddiesLayout.MergeKeepsTiling | allocator/allocator_buddies_system/src/allocator_buddies_system.cpp:115-120 | one step of the merge loop lets a block absorb the next one of its exponent and keeps the area tiled |
| BuddiesLayout.SplitKeepsAligned | allocator/allocator_buddies_system/src/allocator_buddies_system.cpp:81-87 | a split keeps every block aligned to its size |
| BuddiesLayout.MergeKeepsAligned | allocator/allocator_buddies_system/src/allocator_buddies_system.cpp:115-120 | a merge of a block aligned to twice its size with its buddy keeps every block aligned |
| BuddiesLayout.ChosenUnique | allocator/allocator_buddies_system/src/allocator_buddies_system.cpp:179-224 | each fit mode picks at most one block |
| BuddiesLayout.SplitTargetFits | allocator/allocator_buddies_system/src/allocator_buddies_system.cpp:81-87 | the split loop stops at a block that still holds the request after its header and is at most twice the request unless it reached exponent 4 |
| BuddiesLayout.AllocateThenFree | allocator/allocator_buddies_system/src/allocator_buddies_system.cpp:52-124 | allocating from a free aligned block and freeing the result restores the walk: the buddies the split left are exactly what the merge absorbs |
| BuddiesLayout.BuddiesAbsorbed | allocator/allocator_buddies_system/src/allocator_buddies_system.cpp:115-120 | the merge loop absorbs all the buddies a split left behind and then goes on as from the original block |
| BuddiesSystem.Info | allocator/allocator_buddies_system/src/allocator_buddies_system.cpp:163-177 | get_blocks_info_inner: one entry of size 2^k and occupancy per block of the walk |
| BuddiesSystem.InfoSize | allocator/allocator_buddies_system/src/allocator_buddies_system.cpp:163-177 | the sizes reported add up to the area |
| BuddiesSystem.Create | allocator/allocator_buddies_system/src/allocator_buddies_system.cpp:26-50 | a requested size below 5 is a logic_error; otherwise a valid allocator whose area is one free block |
| BuddiesSystem.BuddyAllocator.constructor | allocator/allocator_buddies_system/src/allocator_buddies_system.cpp:26-50 | the area is 2^floor(log2 size) bytes, one free block; memSize adds the two headers; the fit mode is stored |
| BuddiesSystem.BuddyAllocator.NextBlock | allocator/allocator_buddies_system/src/allocator_buddies_system.cpp:6-11 | next_block returns a header after the given one and inside the area, or null |
| BuddiesSystem.BuddyAllocator.GetFirst | allocator/allocator_buddies_system/src/allocator_buddies_system.cpp:214-224 | get_first returns the first free block of more than size bytes, or null when none |
| BuddiesSystem.BuddyAllocator.GetBest | allocator/allocator_buddies_system/src/allocator_buddies_system.cpp:179-194 | get_best (corrected fit test) returns the first fitting free block of least exponent, or null when none |
| BuddiesSystem.BuddyAllocator.GetWorst | allocator/allocator_buddies_system/src/allocator_buddies_system.cpp:196-211 | get_worst (corrected fit test) returns the first fitting free block of greatest non-zero exponent, or null when none |
| BuddiesSystem.BuddyAllocator.Carve | allocator/allocator_buddies_system/src/allocator_buddies_system.cpp:81-94 | the split loop and the marking leave the walk split down at the chosen block, which is occupied and still holds the request |
| BuddiesSystem.BuddyAllocator.SplitOnce | allocator/allocator_buddies_system/src/allocator_buddies_system.cpp:81-85 | one round of the split loop halves the chosen block: its exponent drops by one and its new buddy is a free block of the same exponent, the walk staying split down at the chosen block |
| BuddiesSystem.BuddyAllocator.Allocate | allocator/allocator_buddies_system/src/allocator_buddies_system.cpp:52-97 | nothing fits: null and nothing changes; otherwise the block chosen by the fit mode is split down, marked occupied and the address after its header returned |
| BuddiesSystem.BuddyAllocator.MergeRound | allocator/allocator_buddies_system/src/allocator_buddies_system.cpp:115-120 | one pass of the merge loop either absorbs the next free buddy of the same exponent or changes nothing |
| BuddiesSystem.BuddyAllocator.FreeHeader | allocator/allocator_buddies_system/src/allocator_buddies_system.cpp:115-122 | the merge loop and the final write leave the freed walk: the block absorbs its free buddies and is marked free |
| BuddiesSystem.BuddyAllocator.Deallocate | allocator/allocator_buddies_system/src/allocator_buddies_system.cpp:100-124 | null is ignored; an address outside the area is an invalid deallocation and nothing changes; otherwise the block is freed and merged |
| BuddiesSystem.BuddyAllocator.SetFitMode | allocator/allocator_buddies_system/src/allocator_buddies_system.cpp:146-150 | set_fit_mode stores the mode |
| BuddiesSystem.BuddyAllocator.BlocksInfo | allocator/allocator_buddies_system/src/allocator_buddies_system.cpp:152-177 | get_blocks_info reports every block in address order, the sizes adding up to the area |
| BuddiesFindings.BestFitOverrun | allocator/allocator_buddies_system/src/allocator_buddies_system.cpp:179-194 | on the walk after one allocation of 10 bytes, best fit as written picks for 16 bytes a 16-byte block that cannot hold them after its header; the corrected test picks the 32-byte block |
| BuddiesFindings.WorstFitOverrun | allocator/allocator_buddies_system/src/allocator_buddies_system.cpp:196-211 | on the walk after allocating 10 and then 20 bytes, worst fit as written picks for 16 bytes the 16-byte block that cannot hold them after its header; with the corrected test no block fits |
| BuddiesFindings.TwoAllocationsWalk | allocator/allocator_buddies_system/src/allocator_buddies_system.cpp:52-97 | a first-fit request of 20 bytes on the walk after one allocation takes the free 32-byte block whole |
| BuddiesFindings.TwoAllocationsScenario | allocator/allocator_buddies_system/src/allocator_buddies_system.cpp:52-97 | a fresh 64-byte first-fit allocator reaches that walk by allocating 10 bytes and then 20 |
| BuddiesFindings.OneAllocationScenario | allocator/allocator_buddies_system/src/allocator_buddies_system.cpp:52-97 | a fresh 64-byte first-fit allocator reaches that walk by allocating 10 bytes |
| BuddiesFindings.RangeCheckTooWide | allocator/allocator_buddies_system/src/allocator_buddies_system.cpp:106 | the range check as written admits addresses whose header lies just before or just after the area; the corrected check admits only headers inside it |
| BuddiesFindings.MisalignedMerge | allocator/allocator_buddies_system/src/allocator_buddies_system.cpp:115-120 | freeing the second block of a reachable walk as written merges it with a block that is not its buddy and breaks alignment; the corrected free keeps the walk aligned |
| BuddiesFindings.ThirdFreeScenario | allocator/allocator_buddies_system/src/allocator_buddies_system.cpp:52-124 | a 64-byte first-fit allocator reaches that walk by four allocations of 10 bytes and freeing the third |
| BigIntDigits.MagPadded | arithmetic/big_integer/src/big_int.cpp:241-242 | resizing the digits with zeros on top keeps the magnitude |
| BigIntDigits.MagShifted | arithmetic/big_integer/src/big_int.cpp:180-182 | inserting k zero digits at the bottom multiplies the magnitude by Base^k |
| BigIntDigits.MagZeroIff | arithmetic/big_integer/src/big_int.cpp:14-16 | on trimmed digits is_zero (the single digit 0) holds exactly when the magnitude is 0 |
| BigIntDigits.MagLonger | arithmetic/big_integer/src/big_int.cpp:29-32 | of two trimmed digit vectors the longer one has the larger magnitude |
| BigIntDigits.MagDiffer | arithmetic/big_integer/src/big_int.cpp:34-39 | between vectors of one length that agree above i, the digit at i decides the order |
| BigIntDigits.MagInjective | arithmetic/big_integer/src/big_int.cpp:14-22 | two trimmed digit vectors of one magnitude are the same |
| BigIntDigits.MagDrop | arithmetic/big_integer/src/big_int.cpp:214-216 | erasing the k lowest digits divides the magnitude by Base^k |
| BigInts.DigitsOf | arithmetic/big_integer/src/big_int.cpp:12 | the base-2^32 digits of n, least significant first, are trimmed and have magnitude n |
| BigInts.FromInt | arithmetic/big_integer/src/big_int.cpp:429 | the big_int built from a machine integer is in normal form and has that value |
| BigInts.NormalUnique | arithmetic/big_integer/src/big_int.cpp:14-22 | two normal big_ints with one value are the same digits and sign, so a value has one representation |
| BigInts.Trim | arithmetic/big_integer/src/big_int.cpp:18-22 | what optimise leaves is a prefix of the digits with the same magnitude, and it is trimmed when there was at least one digit |
| BigInts.TrimTrimmed | arithmetic/big_integer/src/big_int.cpp:18-22 | optimise leaves trimmed digits unchanged |
| BigInts.Optimise | arithmetic/big_integer/src/big_int.cpp:18-22 | the pop_back loop gives exactly the trimmed digits |
| BigInts.Compare | arithmetic/big_integer/src/big_int.cpp:24-42 | operator<=> orders by sign and then by magnitude; on normal forms (or equal signs) it is the order of the integer values |
| BigInts.Equals | arithmetic/big_integer/src/big_int.cpp:372-374 | on normal forms, == holds exactly when the values are equal, and exactly when the representations are equal |
| BigInts.AddRound | arithmetic/big_integer/src/big_int.cpp:245-257 | one round of the carry loop: the digits so far plus the carry stand for the sum of the operands' prefixes, and the carry is at most 1 |
| BigInts.AddDigits | arithmetic/big_integer/src/big_int.cpp:241-261 | the carry loop gives digits whose magnitude is the sum of the two magnitudes |
| BigInts.SubRound | arithmetic/big_integer/src/big_int.cpp:302-319 | one round of the borrow loop: the digits so far plus the borrow (0 or -1) stand for the difference of the prefixes |
| BigInts.SubDigits | arithmetic/big_integer/src/big_int.cpp:297-319 | with the larger magnitude first, the borrow loop gives the difference of the magnitudes |
| BigInts.SubNoBorrow | arithmetic/big_integer/src/big_int.cpp:302-321 | when the larger magnitude comes first the last round leaves no borrow |
| BigInts.PlusAssign | arithmetic/big_integer/src/big_int.cpp:70-72 | += gives the integer sum; a zero right operand leaves the left untouched; any other result is in normal form |
| BigInts.MinusAssign | arithmetic/big_integer/src/big_int.cpp:74-76 | -= gives the integer difference; a zero right operand leaves the left untouched; any other result is in normal form |
| BigInts.ShiftUpRound | arithmetic/big_integer/src/big_int.cpp:186-191 | one round of the <<= bit loop: digits so far plus the carry stand for the prefix times 2^bitShift, and the carry stays below 2^bitShift |
| BigInts.ShiftDigitsUp | arithmetic/big_integer/src/big_int.cpp:184-196 | the bit loop of <<= multiplies the magnitude by 2^bitShift |
| BigInts.ShiftLeft | arithmetic/big_integer/src/big_int.cpp:175-200 | <<= multiplies the value by 2^shift and keeps normal form |
| BigInts.ShiftSplit | arithmetic/big_integer/src/big_int.cpp:178-181 | inserting shift/32 zero digits and then shifting by shift%32 bits is shifting by shift |
| BigInts.ShiftDownRound | arithmetic/big_integer/src/big_int.cpp:221-226 | one round of the >>= loop: the digits from i-1 up equal the new digits times 2^bitShift plus the bits passed down |
| BigInts.ShiftDigitsDown | arithmetic/big_integer/src/big_int.cpp:219-227 | the top-down bit loop divides the magnitude by 2^bitShift, rounding down |
| BigInts.DropDigits | arithmetic/big_integer/src/big_int.cpp:214-227 | erasing shift/32 digits and then the bit loop divide the magnitude by 2^shift |
| BigInts.ShiftedDigits | arithmetic/big_integer/src/big_int.cpp:203-229 | the digits of >>= are trimmed with magnitude floor(mag / 2^shift); a zero shift or a zero value changes nothing |
| BigInts.ShiftPastDigits | arithmetic/big_integer/src/big_int.cpp:207-212 | a shift past every digit leaves zero |
| BigInts.ShiftDownTotal | arithmetic/big_integer/src/big_int.cpp:205-227 | dropping shift/32 digits and shifting by shift%32 bits divides by 2^shift |
| BigInts.ShiftRight | arithmetic/big_integer/src/big_int.cpp:202-235 | >>= divides the magnitude by 2^shift, rounding down, keeps the sign except on a zero result, and keeps normal form |
| BigIntBits.Bits | arithmetic/big_integer/src/big_int.cpp:142-173 | a bitwise operator on the low width bits of two numbers stays below 2^width |
| BigIntBits.BitDigits | arithmetic/big_integer/src/big_int.cpp:143-147 | the digit loop reads both operands at the longer length, a missing digit as 0, and combines each pair of digits |
| BigIntBits.Signed | arithmetic/big_integer/src/big_int.cpp:230-232 | a zero result gets the non-negative sign; any other keeps the sign given |
| BigIntBits.Bitwise | arithmetic/big_integer/src/big_int.cpp:142-173 | and, or and xor (zero result non-negative, the corrected form) always give a normal big_int |
| BigIntBits.Not | arithmetic/big_integer/src/big_int.cpp:132-140 | ~ (zero result non-negative, the corrected form) always gives a normal big_int |
| BigIntBits.BitwiseAssign | arithmetic/big_integer/src/big_int.cpp:142-173 | the resize-and-combine loop of the and-, or- and xor-assignments followed by optimise computes Bitwise |
| BigIntBits.Complemented | arithmetic/big_integer/src/big_int.cpp:132-140 | the complement loop of ~ followed by optimise computes Not |
| BigIntBits.BitsSame | arithmetic/big_integer/src/big_int.cpp:142-162 | x and x, and x or x, are x |
| BigIntBits.BitsXorSame | arithmetic/big_integer/src/big_int.cpp:164-173 | x ^ x is 0 |
| BigIntBits.BitsCommute | arithmetic/big_integer/src/big_int.cpp:142-173 | the bit operators commute |
| BigIntBits.BitsZero | arithmetic/big_integer/src/big_int.cpp:142-173 | x or 0 and x xor 0 are x; x and 0 is 0 |
| BigIntBits.TrimZeros | arithmetic/big_integer/src/big_int.cpp:18-22 | only all-zero digits optimise to the single digit 0 |
| BigIntBits.Idempotent | arithmetic/big_integer/src/big_int.cpp:142-162 | a and a, and a or a, give a back |
| BigIntBits.XorSelf | arithmetic/big_integer/src/big_int.cpp:164-173 | a ^ a is the big_int 0 |
| BigIntBits.Commutes | arithmetic/big_integer/src/big_int.cpp:142-173 | the digits of a op b do not depend on operand order; with equal signs the whole result does not |
| BigIntBits.WithZero | arithmetic/big_integer/src/big_int.cpp:142-173 | 0 is the identity of or and xor and absorbs and |
| BigIntBits.NotNot | arithmetic/big_integer/src/big_int.cpp:132-140 | ~~a is a when the top digit of a is not all ones |
| BigIntMulDiv.ProdFits | arithmetic/big_integer/src/big_int.cpp:467-470 | the 64-bit sum digit + carry + x*y in the inner loop cannot overflow |
| BigIntMulDiv.MulStep | arithmetic/big_integer/src/big_int.cpp:466-474 | one pass of the inner loop adds x times the next digit of the other into the result and carries the rest, the carry below the base |
| BigIntMulDiv.MulRow | arithmetic/big_integer/src/big_int.cpp:465-474 | the inner loop adds x * other * Base^i into the result |
| BigIntMulDiv.RowBelow | arithmetic/big_integer/src/big_int.cpp:463 | every partial product fits in the len(a) + len(b) digits allocated for the result |
| BigIntMulDiv.MulDigits | arithmetic/big_integer/src/big_int.cpp:462-475 | the schoolbook loops give the product of the magnitudes in len(a) + len(b) digits |
| BigIntMulDiv.Multiply | arithmetic/big_integer/src/big_int.cpp:443-481 | *= gives the integer product; a zero left operand is returned as it is; any other result is normal |
| BigIntMulDiv.Fits | arithmetic/big_integer/src/big_int.cpp:515-518 | one probe of the binary search says whether abs(other) * mid still fits in the remainder |
| BigIntMulDiv.QuotientDigit | arithmetic/big_integer/src/big_int.cpp:513-524 | the binary search finds the largest q below the base with abs(other) * q <= remain < abs(other) * (q+1) |
| BigIntMulDiv.BringDown | arithmetic/big_integer/src/big_int.cpp:504-511 | inserting the next digit below the remainder gives d + Base * remain, normal and non-negative |
| BigIntMulDiv.TakeOff | arithmetic/big_integer/src/big_int.cpp:526-530 | remain -= abs(other) * q leaves remain - q * abs(other), normal and non-negative |
| BigIntMulDiv.DivRound | arithmetic/big_integer/src/big_int.cpp:503-532 | one pass of the long division keeps dividend-suffix == quotient-suffix * abs(other) + remain with remain < abs(other) |
| BigIntMulDiv.LongDivision | arithmetic/big_integer/src/big_int.cpp:498-532 | the long division gives quotient and remainder of the magnitudes: m == q * abs(other) + r with r < abs(other) |
| BigIntMulDiv.TruncDivMeaning | arithmetic/big_integer/src/big_int.cpp:534 | the remainder of rounding toward zero is smaller than the divisor and never has the opposite sign of the dividend |
| BigIntMulDiv.Divide | arithmetic/big_integer/src/big_int.cpp:483-538 | /=: a zero dividend is returned as it is (0/0 is 0); a zero divisor is an error; otherwise the quotient rounded toward zero, normal |
| BigIntMulDiv.SignedQuotient | arithmetic/big_integer/src/big_int.cpp:534 | the sign rule (signs equal) on the quotient of the magnitudes is truncating division of the values |
| BigIntMulDiv.Modulo | arithmetic/big_integer/src/big_int.cpp:540-591 | %=: a zero dividend is returned as it is; a zero divisor is an error; otherwise abs(a) mod abs(b), non-negative and normal |
| BigIntMulDiv.DivModAgree | arithmetic/big_integer/src/big_int.cpp:483-591 | for a non-negative dividend, the quotient of /= and the remainder of %= satisfy x == q*y + r with r smaller than the divisor |
| BigIntText.DigitChar | arithmetic/big_integer/src/big_int.cpp:348 | '0' + d is a decimal digit character of value d |
| BigIntText.ReverseSnoc | arithmetic/big_integer/src/big_int.cpp:356 | reversing s + [c] puts c first |
| BigIntText.PeelDigit | arithmetic/big_integer/src/big_int.cpp:346-350 | one pass of the to_string loop yields the character of tmp % 10 and leaves tmp / 10 |
| BigIntText.ToString | arithmetic/big_integer/src/big_int.cpp:340-358 | to_string writes the decimal text of the value: "0", or the digits with no leading zero, after '-' when negative |
| BigIntText.SignLast | arithmetic/big_integer/src/big_int.cpp:352-356 | the '-' appended last comes first after the reverse |
| BigIntText.LeadingZero | arithmetic/big_integer/src/big_int.cpp:412-414 | a leading '0' does not change the number read |
| BigIntText.PushDigit | arithmetic/big_integer/src/big_int.cpp:427-429 | *this *= 10 then += digit gives value * 10 + digit, normal and non-negative |
| BigIntText.StripZeros | arithmetic/big_integer/src/big_int.cpp:412-414 | dropping leading zeros keeps emptiness, the all-digits property and the number read |
| BigIntText.Accumulate | arithmetic/big_integer/src/big_int.cpp:421-431 | a non-digit character is an error (invalid_argument); otherwise the decimal value of the characters |
| BigIntText.Parse | arithmetic/big_integer/src/big_int.cpp:395-436 | the string constructor: "" and a sign alone are 0; a sign is dropped; any non-digit is an error; otherwise the signed decimal value, normal |
| BigIntText.DigitsSpell | arithmetic/big_integer/src/big_int.cpp:340-358 | the digits written for a positive number are decimal, do not start with '0' and spell the number |
| BigIntText.RoundTrip | arithmetic/big_integer/src/big_int.cpp:340-436 | parsing what to_string writes gives the same big_int |
| BigIntText.Canonical | arithmetic/big_integer/src/big_int.cpp:340-358 | two values with the same text are equal: every value has one text |
| BigIntText.WriteThenRead | arithmetic/big_integer/src/big_int.cpp:340-436 | to_string then the string constructor gives back the big_int it started from |
| BigIntFindings.BitwiseAsWritten | arithmetic/big_integer/src/big_int.cpp:142-173 | the and-, or- and xor-assignments as written: the digits of the intended operator, always with the left operand's sign |
| BigIntFindings.NotAsWritten | arithmetic/big_integer/src/big_int.cpp:132-140 | ~ as written: the digits of the intended operator, always with the operand's sign |
| BigIntFindings.AsWrittenDiffersOnlyAtZero | arithmetic/big_integer/src/big_int.cpp:132-173 | the written and intended operators agree in value everywhere and differ only in the sign of a zero result |
| BigIntFindings.AndGivesNegativeZero | arithmetic/big_integer/src/big_int.cpp:142-151 | (-1) & 2 as written is the digit 0 with the negative sign, which is not the big_int 0; the intended result is 0 |
| BigIntFindings.XorGivesNegativeZero | arithmetic/big_integer/src/big_int.cpp:164-173 | (-1) ^ (-1) as written is a negative zero; the intended result is 0 |
| BigIntFindings.NotGivesNegativeZero | arithmetic/big_integer/src/big_int.cpp:132-140 | ~(-(2^32-1)) as written is a negative zero; the intended result is 0 |
| Fractions.Gcd | arithmetic/fraction/src/fraction.cpp:8-19 | Euclid's loop on the absolute values computes their greatest common divisor |
| Fractions.GcdPositive | arithmetic/fraction/src/fraction.cpp:8-19 | the gcd of two numbers not both zero is positive |
| Fractions.GcdDivides | arithmetic/fraction/src/fraction.cpp:8-19 | the gcd divides both numbers |
| Fractions.GcdGreatest | arithmetic/fraction/src/fraction.cpp:8-19 | every common divisor divides the gcd |
| Fractions.GcdScale | arithmetic/fraction/src/fraction.cpp:8-19 | scaling both numbers by k scales the gcd by k |
| Fractions.Reduced | arithmetic/fraction/src/fraction.cpp:29-31 | what is left after dividing out the gcd is coprime |
| Fractions.ReduceFacts | arithmetic/fraction/src/fraction.cpp:29-35 | dividing by the gcd leaves a coprime pair of the same ratio |
| Fractions.Optimise | arithmetic/fraction/src/fraction.cpp:21-36 | a zero denominator is an error; otherwise a fraction in lowest terms with positive denominator and the same value |
| Fractions.Make | arithmetic/fraction/src/fraction.cpp:37-43 | the constructor: a zero denominator is an error; otherwise the normal fraction of num / den |
| Fractions.Zero | arithmetic/fraction/src/fraction.cpp:45-46 | the default constructor is the normal fraction 0/1 |
| Fractions.NormalUnique | arithmetic/fraction/src/fraction.cpp:109-111 | two normal fractions of one value are equal field by field |
| Fractions.DenominatorDivides | arithmetic/fraction/src/fraction.cpp:109-111 | when a/b == c/d with a, b coprime, b divides d |
| Fractions.Equals | arithmetic/fraction/src/fraction.cpp:109-111 | on normal fractions == holds exactly when the values are equal |
| Fractions.Compare | arithmetic/fraction/src/fraction.cpp:113-120 | with positive denominators <=> is less, equivalent or greater exactly as the values are |
| Fractions.Add | arithmetic/fraction/src/fraction.cpp:48-59 | += and + give the normal fraction of the sum |
| Fractions.Subtract | arithmetic/fraction/src/fraction.cpp:61-72 | -= and - give the normal fraction of the difference |
| Fractions.Multiply | arithmetic/fraction/src/fraction.cpp:74-85 | *= and * give the normal fraction of the product |
| Fractions.Divide | arithmetic/fraction/src/fraction.cpp:87-100 | /= and /: a zero divisor is an error; otherwise the normal fraction of the quotient |
| Fractions.Negate | arithmetic/fraction/src/fraction.cpp:102-107 | unary - gives the normal fraction of the negated value |
| Fractions.NegateNegate | arithmetic/fraction/src/fraction.cpp:102-107 | negating twice gives the fraction back |
| Fractions.PowerHalves | arithmetic/fraction/src/fraction.cpp:285-290 | b^n is (b if n is odd) times (b*b)^(n/2), the square-and-multiply step |
| Fractions.Pow | arithmetic/fraction/src/fraction.cpp:279-293 | pow gives the normal fraction of the value raised to degree; degree 0 gives 1/1 |
| FractionText.FindSlash | arithmetic/fraction/src/fraction.cpp:130 | the slash found is the first one at or after i; none found means there is none |
| FractionText.IntegerParses | arithmetic/fraction/src/fraction.cpp:137-138 | a part matching [-+]?\d+ read by the big_int constructor is its integer value |
| FractionText.ReadInteger | arithmetic/fraction/src/fraction.cpp:137-138 | the big_int constructor on one part gives the integer the part spells |
| FractionText.Read | arithmetic/fraction/src/fraction.cpp:126-142 | >>: text not matching the pattern is an error; a zero denominator is an error; otherwise the normal fraction of the two parts (a missing denominator is 1) |
| FractionText.DecimalMatches | arithmetic/fraction/src/fraction.cpp:144-148 | the text written for an integer matches [-+]?\d+, has no slash and reads back as the integer |
| FractionText.FieldsOfText | arithmetic/fraction/src/fraction.cpp:126-148 | the text to_string writes reads back as the fraction's numerator and denominator |
| FractionText.WriteThenRead | arithmetic/fraction/src/fraction.cpp:126-148 | to_string then >> gives back the normal fraction it started from |
| FractionFindings.DivideAssignSelf | arithmetic/fraction/src/fraction.cpp:87-94 | x /= x as written: 0 is an error, and otherwise the result is 1/den, not 1 |
| FractionFindings.DivideSelf | arithmetic/fraction/src/fraction.cpp:87-100 | the intended quotient of a non-zero fraction by itself is 1/1 |
| FractionFindings.HalfDividedByItself | arithmetic/fraction/src/fraction.cpp:87-94 | 1/2 /= itself gives 1/2 as written, while the intended quotient is 1/1 |
| LoggerFormat.CharToFlag | logger/client_logger/src/client_logger.cpp:78-91 | char_to_flag gives a flag other than NO_FLAG exactly for 'd', 't', 's' and 'm', and that flag's own letter |
| LoggerFormat.LetterSelectsFlag | logger/client_logger/src/client_logger.cpp:78-91 | every flag is selected by its own letter |
| LoggerFormat.ExpandConcat | logger/client_logger/src/client_logger.cpp:34-67 | two complete formats one after the other expand to the two expansions one after the other |
| LoggerFormat.PlainVerbatim | logger/client_logger/src/client_logger.cpp:63-64 | text without '%' is copied verbatim |
| LoggerFormat.DirectiveAlone | logger/client_logger/src/client_logger.cpp:43-61 | %d, %t, %s and %m give the date, the time, the severity text and the message; '%' with any other character gives nothing |
| LoggerFormat.MessageUnused | logger/client_logger/src/client_logger.cpp:55-56 | a format without %m expands the same whatever the message |
| LoggerFormat.ExpandStep | logger/client_logger/src/client_logger.cpp:39-65 | one step of the loop writes the directive or character at i and goes on after it |
| ClientLoggers.ClientLogger.constructor | logger/client_logger/src/client_logger.cpp:69-76 | the logger keeps the format and the stream map it is given, and copying the map's refcounted_streams gives each held path one more count in the global table |
| ClientLoggers.CopyBalanced | logger/client_logger/src/client_logger.cpp:69-76 | copying stream lists whose paths are held keeps the global table balanced with the new logger as one more holder of each path, never loses a path (so out_of_range is not thrown), and raises the count of every listed path |
| ClientLoggers.ClientLogger.MakeFormat | logger/client_logger/src/client_logger.cpp:34-67 | make_format writes the expansion of the format: directives replaced by their texts, other characters copied |
| ClientStreams.Acquire | logger/client_logger/src/client_logger.cpp:121-127 | one more holder of a path: its count goes up, or a new entry with count 1; counts stay positive |
| ClientStreams.Release | logger/client_logger/src/client_logger.cpp:195-203 | one holder fewer: the count goes down and the entry is erased at zero; counts stay positive |
| ClientStreams.BalancedPositive | logger/client_logger/src/client_logger.cpp:9-10 | a table that counts its holders has only positive counts |
| ClientStreams.AcquireBalanced | logger/client_logger/src/client_logger.cpp:121-161 | a new holder keeps the table counting exactly its holders |
| ClientStreams.ReleaseBalanced | logger/client_logger/src/client_logger.cpp:195-203 | a holder that lets go keeps the table counting exactly its holders |
| ClientStreams.AcquireAllBalanced | logger/client_logger/src/client_logger.cpp:147-161 | copying a list of streams keeps the table balanced, each path gaining one holder per copy |
| ClientStreams.AcquireAllCounts | logger/client_logger/src/client_logger.cpp:147-161 | when every copied path is in the table, no entry is added and each count grows by the number of copies of its path |
| ClientStreams.ReleaseUndoesAcquire | logger/client_logger/src/client_logger.cpp:121-203 | letting go right after taking a path gives the table back |
| ClientStreams.ReleaseErases | logger/client_logger/src/client_logger.cpp:195-203 | the entry is erased exactly when its last holder lets go, and no other entry changes |
| ClientStreams.RefcountedStream.Holding | logger/client_logger/src/client_logger.cpp:121-145 | a stream made for a path holds it with its pointer set |
| ClientStreams.RefcountedStream.Move | logger/client_logger/src/client_logger.cpp:179-183 | the move constructor takes over path and pointer, nulls the source's pointer and changes no count |
| ClientStreams.RefcountedStream.CopyAssign | logger/client_logger/src/client_logger.cpp:163-177 | copy assignment (corrected): self-assignment changes nothing; otherwise the new path gains a holder, the old one loses one, and the table stays positive |
| ClientStreams.RefcountedStream.MoveAssign | logger/client_logger/src/client_logger.cpp:186-193 | move assignment (corrected): self-assignment changes nothing; otherwise the old path loses its holder, path and pointer are taken over and the source's pointer nulled |
| ClientStreams.RefcountedStream.Destroy | logger/client_logger/src/client_logger.cpp:195-203 | the destructor of a stream with its pointer set releases its path; a moved-from stream changes nothing |
| ClientStreams.StreamTable.Open | logger/client_logger/src/client_logger.cpp:121-145 | a path in the table gains a holder; a new path gets count 1, and when its file does not open the entry is erased again and ios_base::failure thrown |
| ClientStreams.StreamTable.Copy | logger/client_logger/src/client_logger.cpp:147-161 | the copy constructor: the source's path gains a holder, or out_of_range when the path is not in the table |
| ClientStreams.SharedFile | logger/client_logger/src/client_logger.cpp:121-203 | two streams on one file share its entry: it survives the first destruction with count 1 and is erased with the second |
| ClientStreamsFindings.CopyAssignAsWritten | logger/client_logger/src/client_logger.cpp:163-177 | copy assignment as written: the new path gains a holder and the old path keeps its count |
| ClientStreamsFindings.MoveAssignAsWritten | logger/client_logger/src/client_logger.cpp:186-193 | move assignment as written: path and pointer taken over, no count released |
| ClientStreamsFindings.CopyAssignUnbalances | logger/client_logger/src/client_logger.cpp:163-177 | after copy assignment as written from a live holder of p to another path, the table no longer counts its holders |
| ClientStreamsFindings.MoveAssignUnbalances | logger/client_logger/src/client_logger.cpp:186-193 | after move assignment as written over a live holder, the table no longer counts its holders |
| ClientStreamsFindings.CopyAssignLeaks | logger/client_logger/src/client_logger.cpp:163-203 | a = b as written and both destroyed leaves "a.log" with count 1 and no holder |
| ClientStreamsFindings.CopyAssignReleases | logger/client_logger/src/client_logger.cpp:163-203 | the same steps with the corrected copy assignment leave the table empty |
| ClientStreamsFindings.MoveAssignLeaks | logger/client_logger/src/client_logger.cpp:186-203 | a = std::move(b) as written and both destroyed leaves "a.log" with count 1 |
| ClientStreamsFindings.MoveAssignReleases | logger/client_logger/src/client_logger.cpp:186-203 | the same steps with the corrected move assignment leave the table empty |
| ClientLoggerBuilders.AddFileMeaning | logger/client_logger/src/client_logger_builder.cpp:12-46 | add_file_stream keeps the list free of repeats, adds exactly the canonical path, puts a new one first, and leaves the console flag and the other severities alone |
| ClientLoggerBuilders.AddFileIdempotent | logger/client_logger/src/client_logger_builder.cpp:33-43 | adding the same path twice is adding it once |
| ClientLoggerBuilders.AddConsoleMeaning | logger/client_logger/src/client_logger_builder.cpp:48-63 | add_console_stream sets the flag and leaves every file list and every other severity alone |
| ClientLoggerBuilders.AddConsoleCommutes | logger/client_logger/src/client_logger_builder.cpp:12-63 | file and console streams may be added in either order |
| ClientLoggerBuilders.ClientLoggerBuilder.Contains | logger/client_logger/src/client_logger_builder.cpp:33-39 | the search loop finds the canonical path exactly when it is in the list |
| ClientLoggerBuilders.ClientLoggerBuilder.AddFileStream | logger/client_logger/src/client_logger_builder.cpp:12-46 | the entry is created if missing; a present path or a stream that opens gives the new list; a stream that cannot be opened fails after the entry was created |
| ClientLoggerBuilders.ClientLoggerBuilder.AddConsoleStream | logger/client_logger/src/client_logger_builder.cpp:48-63 | the entry is created if missing and its console flag set |
| ClientLoggerBuilders.ClientLoggerBuilder.Clear | logger/client_logger/src/client_logger_builder.cpp:120-124 | clear empties the streams and resets the format to "%m" |
| ClientLoggerBuilders.ClientLoggerBuilder.SetFormat | logger/client_logger/src/client_logger_builder.cpp:130-135 | set_format stores the format and keeps the streams |
| ClientLoggerBuilders.ClientLoggerBuilder.SetDestination | logger/client_logger/src/client_logger_builder.cpp:163-167 | set_destination changes nothing for a client logger |
| ServerLoggerBuilders.AppendJoin | logger/server_logger/src/server_logger_builder.cpp:21-24 | appending a path to the join of non-empty paths is the join of one path more |
| ServerLoggerBuilders.AddFileKeeps | logger/server_logger/src/server_logger_builder.cpp:9-27 | add_file_stream leaves the console flag and the other severities as they were |
| ServerLoggerBuilders.AddFilesJoin | logger/server_logger/src/server_logger_builder.cpp:9-27 | adding non-empty paths one by one gives their join with "," in call order |
| ServerLoggerBuilders.AddConsoleKeeps | logger/server_logger/src/server_logger_builder.cpp:29-43 | add_console_stream sets the flag and changes no paths |
| ServerLoggerBuilders.ServerLoggerBuilder.AddFileStream | logger/server_logger/src/server_logger_builder.cpp:9-27 | the entry ("", false) is created if missing and the path appended after a "," when the string is not empty |
| ServerLoggerBuilders.ServerLoggerBuilder.AddConsoleStream | logger/server_logger/src/server_logger_builder.cpp:29-43 | the entry is created if missing and its console flag set |
| ServerLoggerBuilders.ServerLoggerBuilder.Clear | logger/server_logger/src/server_logger_builder.cpp:124-128 | clear empties the streams and restores the default destination, keeping the format |
| ServerLoggerBuilders.ServerLoggerBuilder.SetDestination | logger/server_logger/src/server_logger_builder.cpp:134-138 | set_destination stores the destination and keeps the rest |
| ServerLoggerBuilders.ServerLoggerBuilder.SetFormat | logger/server_logger/src/server_logger_builder.cpp:140-144 | set_format stores the format and keeps the rest |
| ServerLoggers.Fields | logger/server_logger/src/server_logger.cpp:123 | the pieces between commas, empty ones included, one more than there are commas; this is std::views::split on "," except that "" gives one empty piece where the split gives none, which NonEmpty drops, so PathsOf is the same |
| ServerLoggers.NonEmpty | logger/server_logger/src/server_logger.cpp:124 | only non-empty tokens are kept |
| ServerLoggers.FieldsOfJoin | logger/server_logger/src/server_logger.cpp:123 | the join of non-empty comma-free paths splits back into those paths |
| ServerLoggers.SplitJoinRoundTrip | logger/server_logger/src/server_logger.cpp:122-129 | what the builder joined splits back, empty pieces dropped, into the paths in the order they were added |
| ServerLoggers.NonEmptyConcat | logger/server_logger/src/server_logger.cpp:124 | dropping empty pieces distributes over concatenation |
| ServerLoggers.SplitPaths | logger/server_logger/src/server_logger.cpp:122-129 | the split loop yields exactly the non-empty pieces of the joined string |
| ServerLoggers.CloseStep | logger/server_logger/src/server_logger.cpp:123-124 | a separator closes the current token, any other character extends it |
| ServerLoggers.ServerLogger.constructor | logger/server_logger/src/server_logger.cpp:82-85 | the logger keeps the destination, the streams and the format |
| ServerLoggers.ServerLogger.Copy | logger/server_logger/src/server_logger.cpp:113-115 | the copy constructor copies the format, the streams and the server |
| ServerLoggers.ServerLogger.InitRequests | logger/server_logger/src/server_logger.cpp:117-134 | each severity's /init request carries the non-empty pieces of its joined paths and its console flag |
| ServerLoggers.ServerLogger.CopyAssign | logger/server_logger/src/server_logger.cpp:137-164 | self-assignment changes nothing and sends nothing; otherwise the fields are copied and every severity announced with its split paths |
| ServerLoggers.ServerLogger.Move | logger/server_logger/src/server_logger.cpp:166-172 | the move constructor takes everything over and leaves the source with no streams and the default server |
| ServerLoggers.ServerLogger.MoveAssign | logger/server_logger/src/server_logger.cpp:174-184 | the fields are taken over and the source left with no streams and the default server; without a self check a self-move leaves no streams |
| ServerLoggers.ServerLogger.MakeFormat | logger/server_logger/src/server_logger.cpp:32-65 | make_format writes the same expansion of the format as the client logger |
| LoggerFindings.CompleteReadsInside | logger/client_logger/src/client_logger.cpp:39-62 | a format is complete exactly when make_format, walking it as written, reads only positions inside it |
| LoggerFindings.TrailingPercentReadsPastEnd | logger/server_logger/src/server_logger.cpp:37-60 | on "%m%" make_format reads position 3, one past the end, and the format is not complete |

## Left out

- Logging calls (`debug_with_guard`, `error_with_guard` and the rest), the mutexes and `get_logger`/`get_typename` have no effect on the modelled state and are not modelled.
- The allocators' copy and move operations, `do_is_equal`, the destructors and the parent allocator (`allocator_global_heap` or `::operator new`) are not modelled. The arena is given as a base address over a map of headers or an array of tags. Memory outside the headers is not represented.
- BoundaryTags: the sizes of `allocator_metadata` (80 bytes) and `block_metadata` (32 bytes, packed) are fixed for a 64-bit target with a 40-byte `std::mutex`.
- BoundaryTags.BoundaryTagsAllocator.Deallocate: requires that the pointer given be 32 bytes past a header of this heap. The source reads whatever memory precedes a foreign pointer, which the model cannot represent.
- BuddiesSystem.Create: requires a size below 2^31. The source's `1 << (int)log2(size)` is undefined beyond that.
- BuddiesSystem: `pow` and `log2` on doubles are modelled as exact powers of two and floor log2.
- BigIntMulDiv.Multiply: uses the schoolbook rule for all sizes. The Karatsuba branch, taken for more than 64 digits of the right operand, is `multiply_karatsuba`, which is not part of this model. It also returns a product, so only the rule, not the result, is left out.
- BigInts.PlusAssign: only shift 0 is modelled, which is what `operator+=` and `operator-=` pass. Other shifts come only from `multiply_karatsuba`, which is not part of this model.
- BigInts.MinusAssign: only shift 0 is modelled, for the same reason.
- BigIntText.Parse: the radix parameter is ignored, as in the source. `std::isdigit` is modelled as '0'..'9' (the "C" locale).
- big_int: `++`, `--`, `operator bool` and the stream operators `<<` and `>>` are thin wrappers and are not modelled separately. The `big_int(long long)` constructor is `BigInts.FromInt`. `operator""_bi` is not modelled.
- Fractions: numerators and denominators are Dafny integers, not `big_int` values. The big_int operations are modelled and proved separately, and `fraction` uses only their integer meaning.
- Fractions: `sin`, `cos` and the other transcendental functions, `root`, `ln`, `lg` and `log2` work by floating-point-style series up to an epsilon and are not modelled.
- FractionText.Read: the regular expression `^([-+]?\d+)(?:/([-+]?\d+))?$` is modelled as a hand-written grammar, and stream extraction as a string input.
- Fractions: value semantics only. Aliasing between operands is modelled only for `x /= x` (see "## Findings").
- Loggers: the severity enumeration is `trace, debug, information, warning, error, critical`. `logger.h`, which declares it and `severity_to_string`, is not part of this model.
- Loggers: `current_date_to_string`, `current_time_to_string` and the severity text are inputs of `MakeFormat`, because they read the clock.
- `client_logger::log` and `server_logger::log` are I/O: console and file writes, and the `/log` request.
- The server logger's HTTP traffic is not modelled. This covers the constructor's `/destroy` and `/init` requests (which send the joined `path` unsplit), the destructor's `/destroy`, and the process id. The copy operations' `/init` parameters are returned as `InitRequests`.
- `transform_with_configuration` and `parse_severity` read JSON configuration files and are not modelled.
- `build()` is not modelled. The logger constructors take the builder's fields.
- The builders' constructors are not part of this model's source (their headers are not part of this model). Their initial state is assumed: no streams and the format given, and for the server builder also the destination given. `ClientLoggerBuilders.ClientLoggerBuilder.constructor` and `ServerLoggerBuilders.ServerLoggerBuilder.constructor` only set that state up.
- The client logger's copy and move operations copy or move its map of stream lists, and are not modelled separately. Its destructor, which releases every held path, is not modelled either.
- ClientLoggers.ClientLogger.constructor: requires every copied path to be in the table. The copy constructor's out_of_range branch (client_logger.cpp:159-160) is then never taken; `CopyBalanced` shows that this holds whenever the copied streams are live holders of a balanced table. The unwinding of a partial copy is not modelled. The map is copied in severity declaration order; `unordered_map` gives no order, and the counts do not depend on it.
- ClientLoggerBuilders.ClientLoggerBuilder.AddFileStream: `std::filesystem::weakly_canonical` is an input (the canonical path), and whether a new file opens is an input `opens`. The stream list holds the canonical paths. The global reference counts the list's streams take and give back are modelled in ClientStreams, not in the builder.
- ClientStreams: a moved-from `std::string` is modelled as the empty string, and an open `std::ofstream` is not represented.
- ServerLoggers.ServerLogger.Move: a moved-from `std::string` format is modelled as the empty string. The standard leaves its contents unspecified.
- ServerLoggers.ServerLogger.MoveAssign: a moved-from `std::string` format is modelled as the empty string, for the same reason.
- ClientLoggers.ClientLogger.MakeFormat: requires a complete format (no lone trailing '%'). On a format ending in a lone '%' the source reads past the end of the string and steps the iterator past `end()`, which is undefined behaviour (see "## Findings").
- ServerLoggers.ServerLogger.MakeFormat: requires a complete format, for the same reason.
- ServerLoggers.ServerLogger.Copy: the destination is modelled as the string the `httplib::Client` was built from, and the copy keeps it whole. The source rebuilds the client from `host()` and `port()` (server_logger.cpp:114), which keeps the host and the port but not the scheme.
- ServerLoggers.ServerLogger.CopyAssign: copies the destination whole, where the source rebuilds the client from host and port only (server_logger.cpp:139), as for Copy.
- ServerLoggers.ServerLogger.MoveAssign: has no self-assignment check in the source. The model follows it: a self-move leaves the logger without streams.

## Findings

| source | as written | input that shows it | evidently intended | confidence | as-written member | corrected member |
|---|---|---|---|---|---|---|
| allocator/allocator_boundary_tags/src/allocator_boundary_tags.cpp:91-101 | mergeBlocks relinks the chain but never adds the donor's size to the acceptor | free 64-byte blocks at 100 and 164 before an allocated one at 228: after the merge the 64 bytes at 164 are in no block | acceptor->size += donor->size | high; not executed | BoundaryTagsFindings.MergeLosesBytes | BoundaryTags.BoundaryTagsAllocator.MergeBlocks |
| allocator/allocator_boundary_tags/src/allocator_boundary_tags.cpp:71-75 | the new header of a split is linked after the block, but the old successor's prev still names the block | a free 128-byte block at 100 before an allocated one at 228, split at 48; freeing 228 then does not merge it with the free block at 148 | the successor's prev is set to the new header | high; not executed | BoundaryTagsFindings.SplitLeavesStalePrev | BoundaryTags.BoundaryTagsAllocator.InitBlockMetadata |
| allocator/allocator_boundary_tags/src/allocator_boundary_tags.cpp:49-53 | the constructor sets only size, next and prev of the first header; its allocated bit and parent are whatever the memory held | arena memory whose first header bytes have the allocated bit set: no fit mode finds a block for any request | the first header is zeroed (free, parent this arena) | medium; not executed | BoundaryTagsFindings.StaleAllocatedBit | BoundaryTags.BoundaryTagsAllocator.constructor |
| allocator/allocator_boundary_tags/src/allocator_boundary_tags.cpp:219-221 | realBlockSize computes size + 32 in size_t and wraps | allocate(2^64 - 16) looks for a 16-byte block and gets the first free block | a request that does not fit is refused with bad_alloc | medium; not executed | BoundaryTagsFindings.HugeRequestWraps | BoundaryTags.BoundaryTagsAllocator.Allocate |
| allocator/allocator_buddies_system/src/allocator_buddies_system.cpp:187 | get_best and get_worst accept a block when 2^k >= size, forgetting the one-byte header (get_first uses >) | 64-byte area after allocating 10 bytes; a best-fit request for 16 bytes gets the 16-byte block at offset 16 | 2^k - 1 >= size, as in get_first | high; not executed | BuddiesFindings.BestFitOverrun | BuddiesSystem.BuddyAllocator.GetBest |
| allocator/allocator_buddies_system/src/allocator_buddies_system.cpp:203 | get_worst accepts a block when 2^k >= size, forgetting the one-byte header | 64-byte first-fit area after allocating 10 and then 20 bytes; a worst-fit request for 16 bytes gets the 16-byte block at offset 16 | 2^k - 1 >= size, as in get_first | high; not executed | BuddiesFindings.WorstFitOverrun | BuddiesSystem.BuddyAllocator.GetWorst |
| allocator/allocator_buddies_system/src/allocator_buddies_system.cpp:106 | the range check admits any at from the start of the trusted memory to memSize + 1 past it | at equal to the trusted memory's first byte, whose header would be the byte before the allocator | only addresses whose header lies inside the area | high; not executed | BuddiesFindings.RangeCheckTooWide | BuddiesSystem.BuddyAllocator.Deallocate |
| allocator/allocator_buddies_system/src/allocator_buddies_system.cpp:115-120 | the merge loop absorbs any following free block of the same exponent, buddy or not | 64-byte area, four allocations of 10 bytes, the third freed, then the second freed: it merges with the third into a misaligned 32-byte block at 16 | merge only with the buddy (the block aligned to twice its size) | high; not executed | BuddiesFindings.MisalignedMerge | BuddiesSystem.BuddyAllocator.FreeHeader |
| arithmetic/big_integer/src/big_int.cpp:142-173 | the bitwise assignments &=, ^= and the or-assignment (and ~ at 132-140) keep the left sign when the result is zero | (-1) & 2 gives digit 0 with the negative sign, which compares below 0 | a zero result is non-negative, as after every other operation | high; not executed | BigIntFindings.AndGivesNegativeZero | BigIntBits.BitwiseAssign |
| logger/client_logger/src/client_logger.cpp:163-177 | copy assignment of refcounted_stream takes the new path but never releases the old one | streams on a.log and b.log, a = b, both destroyed: a.log stays with count 1 | the old path's count is released as in the destructor | high; not executed | ClientStreamsFindings.CopyAssignLeaks | ClientStreams.RefcountedStream.CopyAssign |
| logger/client_logger/src/client_logger.cpp:186-193 | move assignment of refcounted_stream overwrites the held path without releasing it | streams on a.log and b.log, a = std::move(b), both destroyed: a.log stays with count 1 | the old path's count is released first | high; not executed | ClientStreamsFindings.MoveAssignLeaks | ClientStreams.RefcountedStream.MoveAssign |
| logger/client_logger/src/client_logger.cpp:39-62 | make_format reads the character after a '%' and skips it, with no check that one is there | the format "%m%": the trailing '%' makes it read position 3 of a 3-character string and step past end() | a trailing '%' is copied or ignored without reading past the end | high; not executed | LoggerFindings.TrailingPercentReadsPastEnd | LoggerFindings.CompleteReadsInside |
| logger/server_logger/src/server_logger.cpp:37-60 | make_format advances past a '%' and reads the next character, with no check that one is there | the format "%m%", as for the client logger | a trailing '%' is copied or ignored without reading past the end | high; not executed | LoggerFindings.TrailingPercentReadsPastEnd | LoggerFindings.CompleteReadsInside |
| arithmetic/fraction/src/fraction.cpp:87-94 | x /= x reads other's fields after writing them: the numerator becomes n*d, then the denominator d*(n*d) | 1/2 /= itself gives 1/2 | every non-zero fraction divided by itself is 1/1 | high; not executed | FractionFindings.HalfDividedByItself | FractionFindings.DivideSelf |
