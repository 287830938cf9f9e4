# NCMalloc slab allocator core, modelled and proved in Dafny

NCMalloc is a per-CPU slab allocator. This project models the parts of it that decide memory layout and bookkeeping, and proves what they promise:

- **Slab layout (`slab_traits.dfy`).** Each size class has an `obj_slab_traits`: its capacity, its number of 64-bit slot words and its metadata size, either hard-coded (8, 16, 24, 32) or from the generic template. The four compile-time checks stamped out for every size are modelled: fit, bitmap, maximality and metadata. So are the size-class index, the rounding helpers and the per-index tables.
- **Check generator (`generate_asserts.dfy`).** The script that prints those checks. Its standard output is the sequence of `print` arguments.
- **Older size-class header (`slab_size_classes.dfy`).** An eleven-class table with its uint32 helpers.
- **Address arithmetic (`object_allocator.dfy`).** The object allocator's region bounds, range test, slab of an address, object address and size-class choice.
- **One slab's bitmaps (`obj_slab.dfy`).** The class `ObjSlab`: `_allocate` (its sequential meaning), `_free`, `_try_release` and `_set_owned`.
- **Bump allocator (`slab_allocation.dfy`).** The class `SharedMemorySlabAllocator` that carves the region into slabs.
- **Block list (`block_list_spec.dfy`, `block_list.dfy`).** A `node_block` is a 64-slot bitmap. `block_list` chains blocks on an iter list and an available list, and has three iterators. `BlockListSpec` states the list as a value, with its invariant. The classes `NodeBlock`, `BlockList`, `NodeIterator`, `SingleNodeIterator` and `BlockIterator` are proved to follow it.
- **System-information parsers (`sys_info.dfy`).** The in-buffer string logic: counting brackets, reading the transparent-huge-page mode, extracting an `_AC(0x...)` value, and packing and routing a cache's level and type.
- **Debug tracer (`backtracer.dfy`).** The ring buffer of frames of each thread, and thread registration.
- **Helpers.** `machine.dfy` holds uint32/uint64 wrap-around (`Wrap32`, `Wrap64`). `bitmask.dfy` models a 64-bit word as the set of its one-bit positions (`tzcnt`/`find_first_one` as `Lowest`, `blsr` as `ClearLowest`, popcount as cardinality). `cstrings.dfy` holds NUL-terminated buffers, and `results.dfy` the `Result`/`Option` types. `DIE`, `DIE_ASSERT` and `ERROR_ASSERT` become `Err` results.

Where the code and its documentation disagree, the model follows the code:

- The metadata check rounds to `L2_CACHE_LOAD_SIZE`. That is two cache lines, 128 bytes (lib/system/sys_info.h:960, lib/system/PRECOMPUTED_SYS_INFO.h:38), not one cache line.
- The bitmap check divides the capacity by 64 rounding down, while the generic `num_slot_vecs` rounds up. Both are modelled as written.

Some inconsistencies in the snapshot are modelled separately rather than reconciled:

- There are two `num_size_classes`: 18 in allocator/slab_traits.h and 11 in allocator/slab_size_classes.h. Each file is modelled on its own terms.
- allocator/obj_slab.h defines a non-template `obj_slab` parameterised at run time, and that class is what is modelled. The traits of allocator/object_allocator.h come from allocator/slab_traits.h.
- `size_idx_to_capacity` holds 165 for size 192, but the template gives 169, and 165 also fails the maximality check. `SlabTraits.CapacityTableDisagreesAt192` exposes this. The table is not read anywhere in the sources, so nothing else depends on it.
- `round_size_nb` rounds down where `round_size` rounds up. `SlabSizeClasses.RoundSizeNbRoundsDown` and `SlabSizeClasses.RoundSizeNbDiffersAtNine` state this. The variant is not called anywhere, so no corrected version is needed.
- The generic template meets all four checks exactly for chunk sizes of 40 and more (`SlabTraits.GenericAssertsIff`). Every generic size in the catalogue is 48 or more.

## Model

| member | source | states |
|---|---|---|
| SlabTraits.ConstevalSizeToIdx | allocator/slab_traits.h:12-27 | definition of `consteval_size_to_idx`: 0, 1 and 2 for 8, 16 and 24, otherwise 1 + size / 16; SizeToIdxInvertsClasses shows it inverts the class table |
| SlabTraits.SizeToIdx | allocator/slab_traits.h:29-32 | definition of `size_to_idx` in uint64_t: size / 8 - 1 below 32, wrapping below 8, and size / 16 + 1 from 32; SizeToIdxInvertsClasses, RoundedSizeHasClass and SizeToIdxWrapsBelowEight state what it computes |
| SlabTraits.GenericTraits | allocator/slab_traits.h:90-95 | definition of the generic template: 256 bytes of metadata, (slab_size - 256) / chunk_size objects, (capacity + 63) / 64 words; GenericCapacityBounds, GenericSlotVecsIsCeiling and GenericAssertsIff state its meaning |
| SlabTraits.ObjSlabTraits | allocator/slab_traits.h:55-95 | definition of `obj_slab_traits<chunk_size>`: the hard-coded values for 8, 16, 24 and 32, the generic template for every other size |
| SlabTraits.Used | allocator/slab_traits.h:100-102 | definition of `capacity * size + meta_data_size`, evaluated in uint64_t |
| SlabTraits.FitAssert | allocator/slab_traits.h:100-102 | definition of check 1: the objects and the metadata fit in `slab_size` |
| SlabTraits.BitmapAssert | allocator/slab_traits.h:104-106 | definition of check 2: `capacity / 64 <= num_slot_vecs`, with floor division as written |
| SlabTraits.MaximalAssert | allocator/slab_traits.h:108-110 | definition of check 3: the uint64_t remainder `slab_size - used` is below one object |
| SlabTraits.MetaRegion | allocator/slab_traits.h:112-118 | definition of one rounded region: 8-byte words rounded up to whole `L2_CACHE_LOAD_SIZE` (128-byte) loads; MetaRegionSmall gives its unwrapped value |
| SlabTraits.MetaNeeded | allocator/slab_traits.h:112-118 | definition of the metadata the check demands: the regions of 2 + num_slot_vecs and 3 + num_slot_vecs words, each rounded separately |
| SlabTraits.MetadataAssert | allocator/slab_traits.h:112-118 | definition of check 4: `meta_data_size` covers both rounded regions |
| SlabTraits.AllAsserts | allocator/slab_traits.h:100-118 | definition of the four stamped-out checks at one size, which ClassTraitsHold and GenericAssertsIff establish |
| SlabTraits.RoundSize | allocator/slab_traits.h:34-37 | below 32 bytes the size rounds up to a multiple of 8, from 32 on to a multiple of 16, by less than one granule |
| SlabTraits.SizeClassesFormula | allocator/slab_traits.h:8-9 | from index 3 on the size classes step by 16 bytes |
| SlabTraits.SizeToIdxInvertsClasses | allocator/slab_traits.h:12-32 | both `size_to_idx` and `consteval_size_to_idx` map every size class back to its index |
| SlabTraits.RoundedSizeHasClass | allocator/slab_traits.h:29-37 | every request of 1 to 256 bytes rounds to a size class, and `size_to_idx` finds its index |
| SlabTraits.SizeToIdxWrapsBelowEight | allocator/slab_traits.h:29-32 | a size below 8 wraps `size / 8 - 1` to 2^64 - 1 |
| SlabTraits.SpecialisedTraitsHold | allocator/slab_traits.h:61-88 | the four hard-coded sizes pass all four checks and fill the slab exactly |
| SlabTraits.SizeEightTraitsHold | allocator/slab_traits.h:121-135 | the checks stamped out for size 8 hold |
| SlabTraits.SizeSixteenTraitsHold | allocator/slab_traits.h:138-153 | the checks for size 16 hold |
| SlabTraits.SizeTwentyFourTraitsHold | allocator/slab_traits.h:76-81 | the checks hold for the hard-coded size 24, which no generated check covers |
| SlabTraits.SizeThirtyTwoTraitsHold | allocator/slab_traits.h:83-88 | the checks for size 32 hold |
| SlabTraits.SizeEightMetadataIsTight | allocator/slab_traits.h:61-66 | size 8's 1152 metadata bytes are exactly the two rounded regions |
| SlabTraits.GenericCapacityBounds | allocator/slab_traits.h:90-95 | the template's capacity is the most chunks that fit in the slab less 256 bytes |
| SlabTraits.GenericSlotVecsIsCeiling | allocator/slab_traits.h:90-95 | `(capacity + 63) / 64` is the least number of 64-bit words covering the capacity |
| SlabTraits.MetaRegionSmall | allocator/slab_traits.h:112-118 | for small word counts the uint64 rounding of a region does not wrap |
| SlabTraits.GenericAssertsIff | allocator/slab_traits.h:90-118 | the template passes all four checks exactly when the chunk size is at least 40; below that its 256 metadata bytes are too few |
| SlabTraits.GenericLargeHold | allocator/slab_traits.h:90-118 | from chunk size 40 on, the template passes all four checks |
| SlabTraits.GenericSmallFails | allocator/slab_traits.h:90-118 | below chunk size 40 the template fails the metadata check |
| SlabTraits.ClassTraitsHold | allocator/slab_traits.h:121-711 | every size class passes all four checks |
| SlabTraits.MetaDataTableAgrees | allocator/slab_traits.h:39-42 | the metadata table agrees with the traits of every size class |
| SlabTraits.CapacityTableAgrees | allocator/slab_traits.h:49-52 | the capacity table agrees with the traits of every size class except 192 |
| SlabTraits.CapacityTableDisagreesAt192 | allocator/slab_traits.h:49-52 | the table gives 165 for size 192 where the traits give 169, and 165 would fail the maximality check |
| GenerateAsserts.Replace | allocator/generate_asserts.py:36 | definition of Python's `str.replace`: left to right, non-overlapping; ReplaceRemovesAll, ReplaceWithoutPattern and ReplaceLeavesNoneAt state its meaning |
| GenerateAsserts.Instance | allocator/generate_asserts.py:36 | definition of `assert_template.replace("[SIZE]", str(size))`; InstanceHasNoPlaceholder states that no placeholder is left |
| GenerateAsserts.Header | allocator/generate_asserts.py:27-32 | definition of the print calls before the size loop; HeaderLayout and HeaderEntriesLayout give its lines |
| GenerateAsserts.Group | allocator/generate_asserts.py:35-37 | definition of the print calls for one size: every template instantiated, then `"\n"`; InstancesLayout gives its lines |
| GenerateAsserts.Body | allocator/generate_asserts.py:34-37 | definition of the print calls of the size loop, one group per size in list order; BodyLayout and BodyHasNoPlaceholder give its lines |
| GenerateAsserts.ReplaceRemovesAll | allocator/generate_asserts.py:36 | `replace` with a replacement that shares no character with the pattern leaves no occurrence of the pattern |
| GenerateAsserts.ReplaceWithoutPattern | allocator/generate_asserts.py:36 | `replace` changes nothing in a text without the pattern |
| GenerateAsserts.ReplaceLeavesNoneAt | allocator/generate_asserts.py:36 | after `replace` the pattern occurs at no position |
| GenerateAsserts.DigitChar | allocator/generate_asserts.py:36 | a decimal digit value has a digit character of that value |
| GenerateAsserts.NatToString | allocator/generate_asserts.py:36 | `str(size)` is a nonempty string of decimal digits without a leading zero |
| GenerateAsserts.NatToStringRoundTrip | allocator/generate_asserts.py:36 | reading back `str(n)` gives n |
| GenerateAsserts.DigitsAvoidPlaceholder | allocator/generate_asserts.py:36 | the digits of a size share no character with `[SIZE]` |
| GenerateAsserts.Emit | allocator/generate_asserts.py:27-37 | the print calls are the header followed by the body |
| GenerateAsserts.EmitHeader | allocator/generate_asserts.py:27-32 | the banner, each comment and its template as a comment, then the blank lines |
| GenerateAsserts.EmitGroup | allocator/generate_asserts.py:35-37 | every template instantiated at one size, then a blank line |
| GenerateAsserts.Generate | allocator/generate_asserts.py:1-37 | the whole script's print calls for the shipped comments, templates and sizes |
| GenerateAsserts.HeaderEntriesLayout | allocator/generate_asserts.py:28-30 | the header's i-th pair of lines is comment i and template i as a comment |
| GenerateAsserts.HeaderLayout | allocator/generate_asserts.py:27-32 | the header has 2 + 2n lines: the banner, the pairs, the blank lines |
| GenerateAsserts.InstancesLayout | allocator/generate_asserts.py:35-36 | the group for a size has template i instantiated at that size as its i-th line |
| GenerateAsserts.BodyLayout | allocator/generate_asserts.py:34-37 | line 5k + i of the body is template i at size k, and line 5k + 4 is the blank |
| GenerateAsserts.ShippedBodyLayout | allocator/generate_asserts.py:5-37 | the shipped body has 33 groups of 5 lines |
| GenerateAsserts.InstanceHasNoPlaceholder | allocator/generate_asserts.py:36 | an instantiated template has no `[SIZE]` left |
| GenerateAsserts.BodyHasNoPlaceholder | allocator/generate_asserts.py:34-37 | no generated check keeps a placeholder |
| GenerateAsserts.StdoutAppend | allocator/generate_asserts.py:27-37 | the printed text of two runs of calls is the concatenation of their texts |
| GenerateAsserts.SizesFormula | allocator/generate_asserts.py:5-9 | size k is 8 for k = 0 and 16k otherwise |
| GenerateAsserts.SizesShape | allocator/generate_asserts.py:5-9 | 33 ascending multiples of 8, from 8 and 16, covering every multiple of 16 from 32 to 512 and skipping 24 |
| GenerateAsserts.SizesAscending | allocator/generate_asserts.py:5-9 | the sizes are strictly ascending |
| GenerateAsserts.SizesCover | allocator/generate_asserts.py:5-9 | every multiple of 16 from 32 to 512 is listed |
| GenerateAsserts.SizesSkipTwentyFour | allocator/generate_asserts.py:5-9 | 24 is not listed |
| GenerateAsserts.GeneratedChecksHold | allocator/generate_asserts.py:19-24 | every check the script generates holds for its size |
| SlabSizeClasses.SizeToIdx | allocator/slab_size_classes.h:19-22 | definition of the uint32_t `size_to_idx`: (size + 7) / 8 - 1 up to 24, (size + 15) / 16 + 1 above; SizeToIdxOfTable and SizeToIdxInRange state what it computes |
| SlabSizeClasses.SizeToIdxNb | allocator/slab_size_classes.h:24-31 | definition of `size_to_idx_nb`: base 3 or 4, a shift by base and `2 * (base / 2) - 3` added, in uint32_t; SizeToIdxNbAgrees equates it with `size_to_idx` |
| ObjectAllocator.CalculateEnd | allocator/object_allocator.h:25-36 | definition of `calculate_end` as written, both branches in uint64_t; CalculateEndAligned and CalculateEndOvershoots state what it gives |
| ObjectAllocator.CalculateEndCorrected | allocator/object_allocator.h:25-36 | definition of the intended end, subtracting the bytes skipped to the first boundary; CalculateEndCorrectedFits states that it is the last boundary in the region |
| ObjectAllocator.InRange | allocator/object_allocator.h:164-172 | definition of `in_range`: strictly above `m` and strictly below `end` |
| ObjectAllocator.ObjectAddress | allocator/object_allocator.h:443-447 | definition of the returned address `slab + size * ret + size_idx_to_meta_data[size_idx]` in uint64_t; ObjectAddressInSlab places it in its slab |
| ObjectAllocator.AllocSizeIdx | allocator/object_allocator.h:474-475 | definition of the index `_allocate` uses, `size_to_idx(round_size(size))` narrowed to uint32_t; AllocSizeIdxFits and RawSizeIndexUndersizes state its meaning |
| SlabSizeClasses.IdxToSize | allocator/slab_size_classes.h:14-17 | every valid index names one of the eleven sizes |
| SlabSizeClasses.RoundSize | allocator/slab_size_classes.h:33-36 | up to 24 bytes the size rounds up to a multiple of 8, above to a multiple of 16, by less than one granule |
| SlabSizeClasses.RoundSizeNb | allocator/slab_size_classes.h:38-45 | the branch-free variant rounds DOWN to the granule |
| SlabSizeClasses.SizeToIdxNbAgrees | allocator/slab_size_classes.h:19-31 | the branch-free index agrees with `size_to_idx` on every uint32 size, and both wrap to 2^32 - 1 at size 0 |
| SlabSizeClasses.SlabSizesFormula | allocator/slab_size_classes.h:8-11 | from index 3 on the sizes step by 16 bytes |
| SlabSizeClasses.SizeToIdxOfTable | allocator/slab_size_classes.h:14-22 | `size_to_idx` inverts `idx_to_size` on the table |
| SlabSizeClasses.SizeToIdxInRange | allocator/slab_size_classes.h:14-36 | every size from 1 to 144 has a valid index whose size is its rounded size |
| SlabSizeClasses.RoundSizeNbRoundsDown | allocator/slab_size_classes.h:33-45 | the two rounding functions agree exactly on multiples of the granule |
| SlabSizeClasses.RoundSizeNbDiffersAtNine | allocator/slab_size_classes.h:33-45 | at size 9 `round_size` gives 16 but `round_size_nb` gives 8 |
| ObjectAllocator.RoundDownSlab | allocator/object_allocator.h:30-34 | `rounddown` to the slab size: the greatest multiple of 32 KiB not above x |
| ObjectAllocator.CalculateStart | allocator/object_allocator.h:20-23 | the first slab boundary at or above the region, when that does not wrap |
| ObjectAllocator.CalculateEndAligned | allocator/object_allocator.h:25-36 | the end is slab-aligned and not below the start |
| ObjectAllocator.CalculateEndOvershoots | allocator/object_allocator.h:25-36 | as written: a region at 32769 of 65537 bytes gets an end of 131072, past the region's end at 98306 |
| ObjectAllocator.CalculateEndCorrectedFits | allocator/object_allocator.h:25-36 | with the misalignment measured to the next boundary, the end is aligned, within the region, and leaves less than one slab unused |
| ObjectAllocator.AddrToSlab | allocator/object_allocator.h:483-486 | `addr & ~(slab_size - 1)` is the slab boundary at or below the address, less than one slab away |
| ObjectAllocator.AddrToSlabIdempotent | allocator/object_allocator.h:483-486 | masking twice is masking once |
| ObjectAllocator.AddrToSlabOfInside | allocator/object_allocator.h:483-486 | every address inside a slab maps back to that slab |
| ObjectAllocator.ObjectOffsetFits | allocator/object_allocator.h:443-447 | an object at a slot below the capacity lies after the metadata and inside the slab |
| ObjectAllocator.ClassBounds | allocator/slab_traits.h:39-52 | size classes, metadata sizes and capacities are within a slab |
| ObjectAllocator.CapacityBound | allocator/slab_traits.h:90-95 | no traits give more objects than bytes in a slab |
| ObjectAllocator.FitWithoutWrap | allocator/slab_traits.h:100-102 | the uint64 fit check holds without wrap-around for sizes up to 256 |
| ObjectAllocator.SlotBelowCapacityFits | allocator/object_allocator.h:443-447 | the object at a slot below the capacity ends within the slab |
| ObjectAllocator.ObjectAddressInSlab | allocator/object_allocator.h:443-447 | an allocated object's address lies after the metadata inside its slab, maps back to that slab, and is in the allocator's range |
| ObjectAllocator.AllocSizeIdxFits | allocator/object_allocator.h:474-475 | every request of 1 to 256 bytes gets a size class at least as large |
| ObjectAllocator.RawSizeIndexUndersizes | allocator/object_allocator.h:474-475 | indexing the unrounded size would give 9 bytes an 8-byte class; the rounded size gives 16 |
| ObjSlabs.HeldMember | allocator/obj_slab.h:48-50 | position p is marked exactly when bit p % 64 of word p / 64 is set |
| ObjSlabs.HeldRemove | allocator/obj_slab.h:179-182 | clearing bit b of word v unmarks exactly position 64v + b |
| ObjSlabs.HeldAdd | allocator/obj_slab.h:288-297 | setting bit b of word v marks exactly position 64v + b |
| ObjSlabs.HeldEmpty | allocator/obj_slab.h:66-70 | zeroed words mark nothing |
| ObjSlabs.Below | allocator/obj_slab.h:76-93 | the first n positions |
| ObjSlabs.EmptyWords | allocator/obj_slab.h:66-70 | 64 zeroed words |
| ObjSlabs.NoVecsNothingHeld | allocator/obj_slab.h:160-166 | with `available_vecs` zero no object is available, so FULL is the right answer |
| ObjSlabs.DropEmptyVec | allocator/obj_slab.h:142-152 | dropping the vector bit of an empty word (blsr) keeps the bitmap invariant |
| ObjSlabs.TakeLowest | allocator/obj_slab.h:169-197 | the object at 64 * tzcnt(vecs) + tzcnt(word) is available, below the capacity, the lowest available one, and clearing it removes exactly it |
| ObjSlabs.ClearBitAvailOk | allocator/obj_slab.h:179-182 | clearing a slot bit keeps the bitmap invariant |
| ObjSlabs.PositionBelow | allocator/obj_slab.h:195-197 | 64v + b is below the capacity |
| ObjSlabs.TakeLowestFirst | allocator/obj_slab.h:169-197 | the position `_allocate` returns is the lowest available one |
| ObjSlabs.RecordFree | allocator/obj_slab.h:288-302 | setting the freed bit and, for a first free in the word, the freed vector bit keeps the freeing invariant and marks exactly the object |
| ObjSlabs.Reclaim | allocator/obj_slab.h:240-263 | moving the freed words into an empty allocation side gives a valid allocation side |
| ObjSlabs.Position | allocator/obj_slab.h:271-278 | `(addr_minus_start - payload_offset) / block_size` is the object whose block holds the address, below the capacity |
| ObjSlabs.InitialWords | allocator/obj_slab.h:76-93 | the constructor's words make exactly the first nblocks positions available and satisfy the bitmap invariant |
| ObjSlabs.InitialWordAt | allocator/obj_slab.h:84-92 | under the constructor's words, position p is available exactly when p < nblocks |
| ObjSlabs.EmptySlotWords | allocator/obj_slab.h:66-70 | a zeroed freeing side marks nothing and satisfies its invariant |
| ObjSlabs.SlabBlocks | allocator/obj_slab.h:77 | `payload_size / block_size` objects, between 1 and the capacity |
| ObjSlabs.InitialSlotWords | allocator/obj_slab.h:78-92 | the `memset` and the last partial word: full words, then nblocks % 64 low bits or a full word |
| ObjSlabs.ObjSlab.constructor | allocator/obj_slab.h:76-93 | a new slab has the low nslots vector bits set and exactly the first nblocks objects available, nothing freed, and is owned |
| ObjSlabs.ObjSlab.Allocate | allocator/obj_slab.h:96-222 | FULL exactly when nothing is available; otherwise the lowest available object, which is no longer available; vector bits only drop |
| ObjSlabs.ObjSlab.TakeFirst | allocator/obj_slab.h:169-197 | takes the lowest available object from the first word with a free slot |
| ObjSlabs.ObjSlab.Free | allocator/obj_slab.h:269-303 | marks the object freed, sets its word's freed vector bit, and returns 1 exactly on a first free into an empty word of an unowned slab |
| ObjSlabs.ObjSlab.TryRelease | allocator/obj_slab.h:224-266 | with nothing freed the slab becomes unowned and returns 1; otherwise the freed objects become the available ones, the freeing side is emptied, and it returns 0 |
| ObjSlabs.ObjSlab.MoveWords | allocator/obj_slab.h:249-261 | every freed word moves into the allocation side and is cleared |
| ObjSlabs.ObjSlab.SetOwned | allocator/obj_slab.h:305-308 | clears bit 0 of the state and returns its old value, so the slab is owned afterwards |
| ObjSlabs.AllocateSeveral | allocator/obj_slab.h:96-222 | allocations with no free in between hand out distinct objects, each available at the start, and take exactly those away |
| SlabAllocation.NthSlab | allocator/slab_allocation.h:28-33 | the k-th slab handed out lies at or after the start, strictly after it for k > 0 |
| SlabAllocation.NthSlabsDisjoint | allocator/slab_allocation.h:28-33 | slabs handed out one after another do not overlap |
| SlabAllocation.NthSlabAligned | allocator/slab_allocation.h:17-21 | an aligned start keeps every slab aligned, so free can find a slab by masking |
| SlabAllocation.SharedMemorySlabAllocator.constructor | allocator/slab_allocation.h:20-21 | the bump pointer starts at the memory region |
| SlabAllocation.SharedMemorySlabAllocator.OutOfMemory | allocator/slab_allocation.h:23-26 | out of memory exactly when the bump pointer has reached the end |
| SlabAllocation.SharedMemorySlabAllocator.New | allocator/slab_allocation.h:28-33 | returns the old bump pointer and advances it by one slab, with 64-bit wrap-around |
| SlabAllocation.NewSlabBelow | allocator/object_allocator.h:430-437 | the refill gives up exactly when the allocator is out of memory, and otherwise returns a slab below the end |
| SlabAllocation.CarveSlabs | allocator/object_allocator.h:430-439 | repeated refills hand out successive, disjoint, aligned slabs below the end, stopping early only when the next would not start below it |
| BlockListSpec.Inv | lib/container/block_list.h:342-368 | definition of the list invariant: the lists duplicate-free, every available block has a free slot, no iter-list block is entirely free, every iter-list block with a free slot is available, and at most one available block, entirely free, is off the iter list; InvPassesCheck shows it implies `check()` |
| BlockListSpec.DropAsWritten | lib/container/block_list.h:290-305 | definition of `remove_batch` as written: or the mask in, then "was full" and "now entirely free" tested by `else if`; DropAsWrittenKeepsEmptyBlock shows the case it gets wrong |
| BlockListSpec.LeaveIter | lib/container/block_list.h:298-303 | `unlink_block`, then `unlink_available` and `free` unless the block is the only available one; it leaves the iter list without the block |
| BlockListSpec.Drop | lib/container/block_list.h:290-305 | definition of the intended drop: the two tests independent, as `pop()` performs them; DropKeepsInv and DropWholeBlockLeaves state its meaning |
| BlockListSpec.Remove | lib/container/block_list.h:312-330 | definition of `remove(n)` as written, the drop of the single bit of the node; RemoveIsDrop equates it with the intended drop |
| BlockListSpec.Drain | lib/container/block_list.h:414-432 | definition of the objects a cursor word yields under `get()` and `next()`, tzcnt then blsr; DrainSound, DrainComplete and DrainAscending state its meaning |
| BlockListSpec.Visit | lib/container/block_list.h:409-434 | definition of the walk of `node_iterator` over a block sequence: each block's used slots in turn; VisitSound, VisitComplete and VisitDistinct state its meaning |
| BlockListSpec.Traversal | lib/container/block_list.h:388-391 | definition of the full walk from `nbegin()`; TraversalIsObjects shows it yields the stored objects once each |
| BlockListSpec.CheckPasses | lib/container/block_list.h:342-368 | definition of what `check()` asserts about the contents: every available block has a free slot, and the uint32_t difference of the counts is 0 or 1 |
| BlockListSpec.Empty | lib/container/block_list.h:145-149 | `zero()` leaves both lists empty and no block with a word |
| BlockListSpec.Objects | lib/container/block_list.h:136-137 | the objects of the list are exactly the (block, slot) pairs of an iter-list block whose slot bit is clear |
| BlockListSpec.Unlisted | lib/container/block_list.h:160-197 | unlinking keeps every other block, removes the block once when it is listed, keeps the list duplicate-free and leaves a list without it unchanged |
| BlockListSpec.InitSlots | lib/container/block_list.h:61-64 | `init()`: the word is all ones except bit 0, so only slot 0 is used |
| BlockListSpec.InitSlotsObjects | lib/container/block_list.h:61-64 | after `init()` slot i is used exactly when i is 0 |
| BlockListSpec.TakeLowest | lib/container/block_list.h:52-58 | `block->insert` takes the lowest free slot of the available head, clears that bit and leaves the iter list alone |
| BlockListSpec.InsertAsWritten | lib/container/block_list.h:200-238 | `_insert` as written: with no available block the object lands in slot 0 of the new block |
| BlockListSpec.Insert | lib/container/block_list.h:200-238 | `_insert` with an entirely free available head restarted at slot 0 and put on the iter list; the object lands in the new block or the available head |
| BlockListSpec.InsertKeepsInv | lib/container/block_list.h:200-238 | insert keeps the list invariant, and the objects afterwards are the old ones plus exactly one new (block, slot) that was not stored before |
| BlockListSpec.InsertFreshInv | lib/container/block_list.h:202-215 | a fresh block linked on both lists keeps the invariant |
| BlockListSpec.InsertFreshObjects | lib/container/block_list.h:202-215 | a fresh block adds exactly (new block, 0) to the objects |
| BlockListSpec.InsertRestartInv | lib/container/block_list.h:216-225 | restarting an entirely free available block at slot 0 keeps the invariant |
| BlockListSpec.InsertRestartObjects | lib/container/block_list.h:216-225 | the restart adds exactly (available head, 0) to the objects |
| BlockListSpec.InsertLowestInv | lib/container/block_list.h:226-237 | taking the lowest free slot of the available head, and unlinking it from the available list once full, keeps the invariant |
| BlockListSpec.InsertLowestObjects | lib/container/block_list.h:226-237 | that insert adds exactly (available head, its lowest free slot) to the objects |
| BlockListSpec.InsertAsWrittenHides | lib/container/block_list.h:226-237 | as written: when the available head is the detached, entirely free block and the iter list is not empty, the object goes into that block and is not among the reachable objects |
| BlockListSpec.ObjectsOffList | lib/container/block_list.h:136-137 | changing the word of a block off the iter list changes no reachable object |
| BlockListSpec.WasFull | lib/container/block_list.h:294 | for a mask of used slots, `ret == mask` holds exactly when the block had no free slot |
| BlockListSpec.ObjectsOr | lib/container/block_list.h:95-99 | or-ing a mask into a listed block's word removes exactly those (block, slot) objects |
| BlockListSpec.DropKeeps | lib/container/block_list.h:290-305 | a drop that leaves the block with a used slot keeps the invariant and removes exactly the masked objects |
| BlockListSpec.DropFrees | lib/container/block_list.h:297-304 | a drop that frees the whole block keeps the invariant and removes exactly the masked objects |
| BlockListSpec.DropKeepsInv | lib/container/block_list.h:290-305 | any drop of used slots of an iter-list block keeps the invariant and removes exactly the masked objects |
| BlockListSpec.DropSlots | lib/container/block_list.h:95-99 | a drop changes only the dropped block's word, to the old word or the mask, and adds no block |
| BlockListSpec.RemoveIsDrop | lib/container/block_list.h:312-330 | `remove` of one used slot agrees with the corrected drop, keeps the invariant and removes exactly that object |
| BlockListSpec.DropAsWrittenKeepsEmptyBlock | lib/container/block_list.h:290-305 | as written: `remove_batch` with mask ~0 on a block with no free slot leaves the now entirely free block on the iter list, breaking the invariant |
| BlockListSpec.DropWholeBlockLeaves | lib/container/block_list.h:290-305 | the corrected drop takes that block off the iter list and keeps the invariant |
| BlockListSpec.RoomyCount | lib/container/block_list.h:357-366 | the count of blocks with a free slot is at most the length of the list |
| BlockListSpec.RoomyCountCard | lib/container/block_list.h:357-366 | on a duplicate-free list the count equals the number of distinct blocks with a free slot |
| BlockListSpec.InvPassesCheck | lib/container/block_list.h:342-368 | the invariant implies every assert of `check()`: available blocks have a free slot, and available blocks minus roomy iter-list blocks is 0 or 1 |
| BlockListSpec.AvailSplits | lib/container/block_list.h:342-368 | under the invariant the available blocks are the roomy iter-list blocks plus the available blocks off the iter list |
| BlockListSpec.SpareAtMostOne | lib/container/block_list.h:325-328 | at most one available block is off the iter list |
| BlockListSpec.DrainSound | lib/container/block_list.h:414-433 | a cursor word yields only its own block and slots of the word, none below its lowest |
| BlockListSpec.DrainComplete | lib/container/block_list.h:414-433 | a cursor word yields every slot of the word |
| BlockListSpec.DrainAscending | lib/container/block_list.h:414-433 | a cursor word yields its slots in strictly ascending order |
| BlockListSpec.VisitSound | lib/container/block_list.h:424-433 | a walk yields only used slots of blocks of the list |
| BlockListSpec.VisitComplete | lib/container/block_list.h:424-433 | a walk yields every used slot of every block of the list |
| BlockListSpec.VisitDistinct | lib/container/block_list.h:424-433 | a walk over a duplicate-free list yields no object twice |
| BlockListSpec.TraversalIsObjects | lib/container/block_list.h:388-391 | a full walk from `nbegin()` yields exactly the stored objects, each once |
| BlockListSpec.TraversalHead | lib/container/block_list.h:252-259 | under the invariant the first block of the iter list has a used slot, and the walk starts at its lowest used slot, which is what `head()` returns |
| BlockListSpec.TraversalAscending | lib/container/block_list.h:414-433 | within one block the walk yields slots in ascending order |
| BlockListSpec.PopWord | lib/container/block_list.h:264-286 | `pop()`'s word arithmetic: the lowest used slot exists and is used; after blsr and negation the word is the old free set plus that slot; the used word is ~0 exactly when the block had no free slot, and becomes 0 exactly when the block is then entirely free |
| BlockList.NodeBlock.constructor | lib/container/block_list.h:203-204 | a block from `calloc`: its word is zero |
| BlockList.NodeBlock.Init | lib/container/block_list.h:61-64 | `init()` sets the word to all ones but bit 0 |
| BlockList.NodeBlock.Insert | lib/container/block_list.h:52-58 | takes the lowest free slot (tzcnt), clears its bit (blsr), and reports whether the block is now full |
| BlockList.NodeBlock.Store | lib/container/block_list.h:286 | stores a new word |
| BlockList.NodeBlock.Drop | lib/container/block_list.h:95-99 | or-s the mask into the word and returns the new word |
| BlockList.BlockList.constructor | lib/container/block_list.h:136-138 | a new list is the empty state and its invariant holds |
| BlockList.BlockList.Zero | lib/container/block_list.h:145-149 | `zero()` empties both lists and re-establishes the invariant |
| BlockList.BlockList.LinkAvailable | lib/container/block_list.h:151-158 | pushes the block to the head of the available list, nothing else changes |
| BlockList.BlockList.UnlinkAvailable | lib/container/block_list.h:160-173 | takes the block out of the available list, nothing else changes |
| BlockList.BlockList.LinkBlock | lib/container/block_list.h:175-182 | pushes the block to the head of the iter list, nothing else changes |
| BlockList.BlockList.UnlinkBlock | lib/container/block_list.h:184-197 | takes the block out of the iter list, nothing else changes |
| BlockList.BlockList.Insert | lib/container/block_list.h:200-238 | follows the corrected insert on the abstract state, keeps the invariant and returns the block and slot the object went to |
| BlockList.BlockList.InsertFresh | lib/container/block_list.h:202-215 | a fresh block with the object in slot 0, linked on both lists |
| BlockList.BlockList.InsertRestart | lib/container/block_list.h:216-225 | the entirely free available head restarted with the object in slot 0, linked at the head of the iter list |
| BlockList.BlockList.InsertLowest | lib/container/block_list.h:226-237 | the lowest free slot of the available head; when that fills it, it leaves the available list |
| BlockList.BlockList.LeaveIterList | lib/container/block_list.h:298-303 | unlinks the block from the iter list, and from the available list and frees it exactly when the available list has a second block |
| BlockList.BlockList.DropLinks | lib/container/block_list.h:294-304 | the relinking of the corrected drop: available again when it was full, and off the iter list when entirely free |
| BlockList.BlockList.RemoveBatch | lib/container/block_list.h:290-305 | follows the corrected drop of the mask on the abstract state and keeps the invariant |
| BlockList.BlockList.RemoveLinks | lib/container/block_list.h:319-329 | the relinking of `remove` as written: the two tests chained by `else if` |
| BlockList.BlockList.Remove | lib/container/block_list.h:312-330 | follows `remove` as written on the abstract state, which for one slot agrees with the corrected drop, and keeps the invariant |
| BlockList.BlockList.DropDone | lib/container/block_list.h:290-305 | once the links and the word are updated, the lists and words are those of the corrected drop, and the invariant holds |
| BlockList.BlockList.Check | lib/container/block_list.h:342-368 | `check()` passes exactly when its asserts hold on the state, and it always passes under the invariant |
| BlockList.BlockList.CountAvailable | lib/container/block_list.h:344-355 | whether every available block has a free slot, and the uint32 count of available blocks |
| BlockList.BlockList.CountRoomy | lib/container/block_list.h:357-366 | subtracts, with uint32 wrap-around, the number of iter-list blocks that have a free slot |
| BlockList.BlockList.NBegin | lib/container/block_list.h:388-391 | the node iterator from the iter list head yields the full traversal, so exactly the stored objects |
| BlockList.BlockList.BBegin | lib/container/block_list.h:393-396 | the block iterator walks the iter list |
| BlockList.BlockList.Head | lib/container/block_list.h:252-259 | returns the first object of the traversal, a stored object |
| BlockList.BlockList.Pop | lib/container/block_list.h:261-288 | returns the first object of the traversal, removes exactly it as a one-slot drop and keeps the invariant |
| BlockList.BlockList.PopWordIs | lib/container/block_list.h:264-274 | the slot `pop()` takes is a stored object of the head block, and its word tests decide "was full" and "is empty" |
| BlockList.BlockList.PopFrom | lib/container/block_list.h:269-287 | relinks and stores the word like the corrected one-slot drop and keeps the invariant |
| BlockList.RoomyCountStep | lib/container/block_list.h:358-361 | one step of the count loop adds one for a block with a free slot |
| BlockList.DropListsAre | lib/container/block_list.h:294-304 | the relinking yields the lists of the corrected drop, and frees the block exactly when the drop removes its word |
| BlockList.RemoveLinkedIsDropLinked | lib/container/block_list.h:319-329 | for a single slot, the `else if` relinking of `remove` is that of the corrected drop |
| BlockList.PopRemovable | lib/container/block_list.h:264-274 | under the invariant the low slot `pop()` takes is a stored object, and its word tests are the drop's tests |
| BlockList.NodeIterator.constructor | lib/container/block_list.h:409-412 | an iterator at a list head yields the walk of that list |
| BlockList.NodeIterator.Get | lib/container/block_list.h:414-418 | the object at the cursor is the next one of the walk |
| BlockList.NodeIterator.End | lib/container/block_list.h:420-423 | the end tests that the walk is done |
| BlockList.NodeIterator.Next | lib/container/block_list.h:425-434 | the rest of the walk loses exactly its first object |
| BlockList.DrainNext | lib/container/block_list.h:427-432 | clearing the cursor's lowest bit drops the first object of the block, and an emptied cursor moves to the next block |
| BlockList.SingleNodeIterator.constructor | lib/container/block_list.h:459-461 | an iterator over one block yields its used slots in ascending order |
| BlockList.SingleNodeIterator.Get | lib/container/block_list.h:463-466 | the object at the cursor is the next one |
| BlockList.SingleNodeIterator.End | lib/container/block_list.h:468-471 | the end tests that no object is left |
| BlockList.SingleNodeIterator.Next | lib/container/block_list.h:473-476 | drops exactly the first object left, and nothing past the end |
| BlockList.BlockIterator.constructor | lib/container/block_list.h:499-501 | starts at the given block sequence |
| BlockList.BlockIterator.Get | lib/container/block_list.h:503-506 | the current block, or NULL past the end |
| BlockList.BlockIterator.End | lib/container/block_list.h:508-511 | the end tests that no block is left |
| BlockList.BlockIterator.Next | lib/container/block_list.h:513-516 | moves to the next block |
| BlockList.BlockIterator.NBegin | lib/container/block_list.h:528-531 | a single-block iterator over the current block's used slots |
| SysInfo.ParseMode | lib/system/sys_info.h:356-388 | definition of the parse of the buffer's string: die unless it has 0 or 2 brackets, otherwise match the whole text or the word between the first '[' and the next ']'; ThpPlain, ParseBracketed and ThpSelectsBracketed state its meaning |
| SysInfo.ThpSpec | lib/system/sys_info.h:341-389 | definition of `compute_transparent_huge_page_config` on the file's text: the first line through the 64-byte buffer, the size check, then the mode; ComputeThpConfig is proved to return it and ThpOfLine states its meaning |
| SysInfo.Pack | lib/system/sys_info.h:706 | definition of the returned word: `level` or-ed with `type << 16`; PackRoundTrip and PackSpill state when it splits back |
| SysInfo.LevelOf | lib/system/sys_info.h:732 | definition of `ret & 0xffff` |
| SysInfo.TypeOf | lib/system/sys_info.h:733 | definition of `ret >> 16` |
| SysInfo.Route | lib/system/sys_info.h:732-765 | definition of the dispatch on one packed word: the target filled, no target for an unknown type word, or the reason the probe dies; RouteOfPack ties it to Placement |
| SysInfo.Placement | lib/system/sys_info.h:734-765 | the independent statement of where a cache belongs: unified L2 and L3, data and instruction L1, anything else unsupported |
| SysInfo.DirRoute | lib/system/sys_info.h:730-765 | definition of what one directory does: its type error, or the route of its packed word |
| SysInfo.DirInfo | lib/system/sys_info.h:660-704 | definition of the `cache_info_t` filled from a directory, the size in bytes as `* 1024` in uint32_t |
| SysInfo.Apply | lib/system/sys_info.h:722-766 | definition of the outputs after the directories' effects in order, or the first error; ApplyFails, ApplyUntouched, ApplyLastWins and ApplyErrSticks state its meaning |
| SysInfo.CacheInfoSpec | lib/system/sys_info.h:710-766 | definition of `read_cache_info` on the directories read in order; ReadCacheInfo is proved to return it and CacheInfoFails, CacheInfoUntouched and CacheInfoLastWins state its meaning |
| SysInfo.BraceCount | lib/system/sys_info.h:329-339 | the number of '[' and ']' characters, at most the length of the string |
| SysInfo.BraceCountAppend | lib/system/sys_info.h:329-339 | the bracket count of a concatenation is the sum of the counts |
| SysInfo.ContainsBraces | lib/system/sys_info.h:329-339 | the loop up to the NUL returns the bracket count of the C string, as a uint32 |
| SysInfo.FgetsLine | lib/system/sys_info.h:352 | `fgets` reads at most 63 characters, up to and including the first newline, and reads nothing only at end of file |
| SysInfo.FgetsBuffer | lib/system/sys_info.h:347-352 | the 64-byte buffer starts with the line read, and the rest keeps the NULs of its `""` initialiser |
| SysInfo.FindFrom | lib/system/sys_info.h:363-376 | the first position from k holding the character, or the end of the string |
| SysInfo.MatchWord | lib/system/sys_info.h:379-388 | a mode exactly when the text starts with "always", "madvise" or "never"; any other text is the "no valid config" error |
| SysInfo.ThpWord | lib/system/sys_info.h:379-388 | each mode's name reads back as that mode |
| SysInfo.LineLenOfLine | lib/system/sys_info.h:352 | `fgets` stops at the first newline |
| SysInfo.BraceCountPlain | lib/system/sys_info.h:329-339 | text without brackets counts 0 |
| SysInfo.ThpLine | lib/system/sys_info.h:352-354 | a line of at most 62 characters ending in a newline passes the buffer-size check and the buffer holds exactly that line |
| SysInfo.BracketedCount | lib/system/sys_info.h:356-358 | a line with one bracketed word counts exactly 2 brackets |
| SysInfo.BracketPositions | lib/system/sys_info.h:363-376 | the two scans find the first '[' and the ']' after it |
| SysInfo.ThpBracketed | lib/system/sys_info.h:341-389 | on a line `pre[word]post`, the mode is that of the bracketed word |
| SysInfo.ThpOfLine | lib/system/sys_info.h:341-389 | on a line that fits the buffer, the result is the mode the line selects |
| SysInfo.ParseBracketed | lib/system/sys_info.h:360-388 | with two brackets, the word between the first '[' and the next ']' decides the mode |
| SysInfo.ThpPlain | lib/system/sys_info.h:379-388 | a line without brackets is matched from its first character |
| SysInfo.ThpSelectsBracketed | lib/system/sys_info.h:341-389 | the kernel's `always [madvise] never` form selects the bracketed mode |
| SysInfo.CutWord | lib/system/sys_info.h:372 | writing NUL at the ']' leaves the C string from the '[' as exactly the word between them |
| SysInfo.OpenLoop | lib/system/sys_info.h:362-369 | the first loop stops just after the first '[', with one bracket left to find, or at the NUL when there is none |
| SysInfo.CloseLoop | lib/system/sys_info.h:370-376 | the second loop writes NUL over the first ']' after the '[', and only there, and counts it |
| SysInfo.CutBracketed | lib/system/sys_info.h:360-377 | the bracket count reaches 0 exactly when a ']' follows the first '[', and then the parse starts at the word between them |
| SysInfo.ComputeThpConfig | lib/system/sys_info.h:341-389 | returns the mode the `enabled` file's first line selects, or the error the DIE_ASSERT / ERROR_ASSERT calls raise |
| SysInfo.FillBuffer | lib/system/sys_info.h:347-352 | the buffer after `fgets` |
| SysInfo.ParseBuffer | lib/system/sys_info.h:356-388 | parsing the buffer gives the mode of its C string |
| SysInfo.HexChar | lib/system/sys_info.h:411 | a digit value below 16 has a hexadecimal character of that value |
| SysInfo.ToHex | lib/system/sys_info.h:411 | a nonempty string of hexadecimal digits |
| SysInfo.HexValueToHex | lib/system/sys_info.h:411 | reading back the hexadecimal digits of v gives v |
| SysInfo.SkipSpaces | lib/system/sys_info.h:411 | `strtoull` skips leading white space |
| SysInfo.HexRunEnd | lib/system/sys_info.h:411 | the end of the longest run of hexadecimal digits |
| SysInfo.Strtoull | lib/system/sys_info.h:411-414 | `strtoull(..., 16)` finds no number exactly when no hexadecimal digit follows the optional sign and `0x` |
| SysInfo.StrtoullOfDigits | lib/system/sys_info.h:411 | a run of hexadecimal digits reads as its value, saturated at 2^64 - 1 |
| SysInfo.FindMarker | lib/system/sys_info.h:397-400 | the first position of `_AC(0x` from k, or the end |
| SysInfo.LastMarkerBelow | lib/system/sys_info.h:397-400 | the last position of `_AC(0x` below i, or none |
| SysInfo.CutCommas | lib/system/sys_info.h:401-404 | the buffer with every ',' after the first marker, up to i, replaced by NUL |
| SysInfo.AcValue | lib/system/sys_info.h:393-417 | "no value" is reported exactly when there is no `_AC(0x` or no ',' after it |
| SysInfo.MarkerInBuffer | lib/system/sys_info.h:397-398 | `strncmp` at a position before the NUL sees the C string |
| SysInfo.ScanStep | lib/system/sys_info.h:397-405 | one loop step: the marker test sees the original text, the hex start moves past each marker, and a ',' after the first marker is cut |
| SysInfo.ScanDone | lib/system/sys_info.h:397-406 | at the NUL the loop has cut every comma after the first marker, the hex start is past the last marker, and the end is set exactly when a ',' follows the first marker |
| SysInfo.ScanAc | lib/system/sys_info.h:395-405 | the scan loop: the new buffer, the start after the last marker and whether a comma followed the first |
| SysInfo.ScanChar | lib/system/sys_info.h:398-404 | one step of the scan keeps the scan state |
| SysInfo.GetAcValue | lib/system/sys_info.h:393-417 | `get_ac_value` returns the value the buffer's `_AC(0x...,` definition gives, or the DIE_ASSERT error |
| SysInfo.AcLineShape | lib/system/sys_info.h:393-406 | on a line `pre_AC(0xH,post` the marker and the comma are found where they are written |
| SysInfo.AcDigits | lib/system/sys_info.h:401-411 | on such a line the cut buffer reads exactly the digits H from the hex start |
| SysInfo.AcValueRoundTrip | lib/system/sys_info.h:393-417 | a line defining `_AC(0x<hex of v>,` yields v |
| SysInfo.TypeCode | lib/system/sys_info.h:607-609 | UCACHE, DCACHE and ICACHE are 1, 2 and 3 |
| SysInfo.CacheTypeOf | lib/system/sys_info.h:668-685 | the type file's text selects the kind by its prefix; a failed read or another text is an error |
| SysInfo.PackRoundTrip | lib/system/sys_info.h:706-733 | `level \| (type << 16)` splits back into level and type with `& 0xffff` and `>> 16` |
| SysInfo.PackSpill | lib/system/sys_info.h:706-733 | a level of 2^16 or more spills into the type half |
| SysInfo.ReadCacheDir | lib/system/sys_info.h:605-707 | fails exactly when the type is unknown, and otherwise returns the packed level and type and the sets, size in bytes and associativity |
| SysInfo.RouteOfPack | lib/system/sys_info.h:732-765 | a packed cache goes to the output its kind and level select, or to the matching DIE_ASSERT error |
| SysInfo.Caches.Set | lib/system/sys_info.h:737-763 | `memcpy` into one output changes that output and no other |
| SysInfo.EffectOf | lib/system/sys_info.h:730-765 | a directory whose type file names no known type dies with that error; one of a known type and a level below 2^16 is routed to its placement (unified L2 or L3, data or instruction L1) or dies with the placement's error; what it read goes with it |
| SysInfo.Step | lib/system/sys_info.h:732-765 | one directory dies exactly when its route does, with that error; otherwise the output it is routed to holds its data and every other output is unchanged |
| SysInfo.ApplyFails | lib/system/sys_info.h:722-766 | the loop fails exactly when one of its directories fails |
| SysInfo.ApplyUntouched | lib/system/sys_info.h:722-766 | an output no directory routes to keeps its initial value |
| SysInfo.ApplyLastWins | lib/system/sys_info.h:722-766 | an output ends with the data of the last directory routed to it |
| SysInfo.CacheInfoFails | lib/system/sys_info.h:710-766 | `read_cache_info` fails exactly when it meets an unsupported or unknown cache |
| SysInfo.CacheInfoUntouched | lib/system/sys_info.h:710-766 | an output no cache directory selects is left as it was |
| SysInfo.CacheInfoLastWins | lib/system/sys_info.h:710-766 | each output holds the data of the last cache directory that selects it |
| SysInfo.Dispatch | lib/system/sys_info.h:732-765 | the branch on type and level: error, no change, or the one output set |
| SysInfo.ApplyErrSticks | lib/system/sys_info.h:746-761 | once a directory fails, the later ones change nothing |
| SysInfo.ReadCacheInfo | lib/system/sys_info.h:710-766 | the loop over the directories returns what the fold over them specifies |
| SysInfo.ThpCode | lib/system/sys_info.h:25 | the three modes are numbered 0, 1 and 2 |
| Backtracer.ZeroFrame | lib/debug/backtracer.h:108-111 | a frame from `calloc`: every byte of `fn` is NUL |
| Backtracer.Printed | lib/debug/backtracer.h:42-53 | `%12.12s` prints a prefix of `fn` of at most 12 characters that stops before the first NUL |
| Backtracer.CopyName | lib/debug/backtracer.h:74 | `memcpy` of min(strlen(fn), 15) characters: the name's prefix of that length, then the field's old bytes, which nothing terminates |
| Backtracer.StaleNameShows | lib/debug/backtracer.h:74 | as written: after a long name, a shorter one prints with the tail of the long one after it, not as itself |
| Backtracer.CopyNameTerminated | lib/debug/backtracer.h:74 | the copy followed by a terminating NUL keeps the 16-byte field |
| Backtracer.TerminatedNameReadsBack | lib/debug/backtracer.h:74 | with the terminator, the printed name is the name cut to 12 characters, whatever the slot held before |
| Backtracer.ShowOrder | lib/debug/backtracer.h:78-94 | `show_frames` prints min(idx, n) frames labelled 0, 1, …; below n the slots are 0..idx-1 in order |
| Backtracer.ShowOrderWrappedIsPermutation | lib/debug/backtracer.h:88-93 | once the ring has wrapped, the listing names every slot exactly once |
| Backtracer.LastWrite | lib/debug/backtracer.h:70 | the push that last wrote a slot: the one index p in idx-n..idx-1 with p % n == slot |
| Backtracer.PositionWrite | lib/debug/backtracer.h:89-90 | line i of the wrapped listing shows push idx-n+i+1, except the last line, which shows push idx-n |
| Backtracer.ShowOrderOldestLast | lib/debug/backtracer.h:88-93 | the first n-1 lines are in push order, and the oldest frame, slot idx % n, comes last |
| Backtracer.ThreadFrames.constructor | lib/debug/backtracer.h:57-61 | a zero-filled `thread_frames`: idx and tid are 0 and every frame is zero |
| Backtracer.ThreadFrames.PushFrame | lib/debug/backtracer.h:64-76 | writes core, ln, bytes, the name (terminated, as evidently intended) and the timestamp into frame idx % n only, leaves every other frame alone, and increments the uint64 idx |
| Backtracer.ThreadFrames.ShowFrames | lib/debug/backtracer.h:78-94 | the (slot, label) pairs in printing order are ShowOrder(idx) |
| Backtracer.DbgTracer.constructor | lib/debug/backtracer.h:102-106 | tidx and hard_lock start at 0 |
| Backtracer.DbgTracer.Init | lib/debug/backtracer.h:108-117 | `init()` sets tidx and hard_lock to 0 |
| Backtracer.DbgTracer.RegisterThread | lib/debug/backtracer.h:119-127 | the fetch-and-add hands out the old tidx and dies (an error result) once it reaches 1024 |
| Backtracer.RegisterThreads | lib/debug/backtracer.h:119-127 | k registrations from a fresh tracer hand out 0, 1, … up to min(k, 1024) and die exactly when k > 1024 |
| Bitmask.Lowest | allocator/obj_slab.h:168-169 | `tzcnt`: the position of the lowest one bit, below every other one bit, and 64 exactly for the zero word |
| Bitmask.ClearLowest | allocator/obj_slab.h:179 | `blsr`: the word loses exactly its lowest one bit and keeps every other |
| CStrings.StrLen | lib/debug/backtracer.h:74 | `strlen`: the characters before the first NUL are non-NUL, and the one after them is NUL unless the buffer ends first |

## Left out

- Restartable per-CPU sequences and inline assembly: `try_pop`, `try_push`, `_send_slab` and the retry loop of `_inner_allocate` (allocator/object_allocator.h:175-413) are not modelled, because their subject is preemption safety.
- ObjSlabs.ObjSlab.Allocate: models the sequential meaning of the `rseq` critical section. A migration never happens, so `MIGRATED` is never returned.
- Concurrency: atomic fetch-and-add, `bitvec_atomics` operations and the `hard_lock` of the tracer are modelled by their single-threaded effect. Interleavings are not modelled.
- File and OS access in lib/system/sys_info.h (`fopen`, `fgets`, `sscanf`, `stat`, `sprintf`, `sysconf`, `read_kernel_header`, `create_defs`): a file is given to the model as its text.
- The `strtol`/`strtoul`/`atoi` parsing of the level, sets, size and associativity is not modelled. These numbers are parameters of `SysInfo.DirInfo`, and the `* 1024` of the size is done on unbounded integers.
- lib/misc/error_handling.h, lib/system/mmap_helpers.h and lib/system/signals.h are not part of this model. A `DIE` is an `Err` result.
- `_rdtsc`, `pthread_self`, the signal handler and `fprintf` of lib/debug/backtracer.h: the timestamp is a parameter, and printing is the list of (slot read, label printed) pairs. Every ring has 128 frames, as in every instance of the sources. `dbg_tracer::show` is not modelled, because it only prints.
- Backtracer.ThreadFrames.PushFrame: stores the name with a terminator, which is the evidently intended behaviour. The copy as written is `Backtracer.CopyName` (see Findings).
- Destruction is not modelled, because it only returns memory: `block_list::destroy`, `destroy_batch` and the destructors. As written, `destroy` walks `available_list` through `next_iter` (lib/container/block_list.h:335-339).
- `node_block::drop(node_t*)` (lib/container/block_list.h:101-104) is not modelled. It passes a slot index where a mask is expected.
- `node::get_block` pointer arithmetic (lib/container/block_list.h:19-23) is abstracted: an object is named by its block and slot.
- The intrusive `next_iter`/`prev_iter`/`next_avail`/`prev_avail` pointers are represented by the order of the lists. Because of that, the back-pointer asserts of `check()` hold by construction.
- `show`, `show_iter_list` and `show_available_list` only print, so they are not modelled.
- The values of type `T` stored in a block list are not modelled; an object is its (block, slot) position.
- BlockList.BlockList.Insert: follows the corrected BlockListSpec.Insert. When the iter list is not empty and the available head is an entirely free block off the iter list, it restarts that block and links it at the head of the iter list. As written (lib/container/block_list.h:226-237), the object goes into that block while the block stays off the iter list; that behaviour is BlockListSpec.InsertAsWritten (see Findings).
- BlockList.BlockList.InsertRestart: also restarts an entirely free available head when the iter list is not empty, the corrected case of BlockList.BlockList.Insert above. The source restarts a head only when the iter list is empty (lib/container/block_list.h:216-225).
- BlockList.BlockList.DropLinks: tests "was full" and "now entirely free" independently, as the corrected drop does. `remove_batch` as written chains the two tests with `else if` (lib/container/block_list.h:294-304); that relinking is BlockListSpec.DropAsWritten, and for `remove` it is BlockList.BlockList.RemoveLinks.
- BlockList.BlockList.RemoveBatch: follows the corrected BlockListSpec.Drop, so a full block that one mask empties leaves the iter list. As written it stays on the iter list with no object; that behaviour is BlockListSpec.DropAsWritten, shown by BlockListSpec.DropAsWrittenKeepsEmptyBlock (see Findings).
- BlockList.BlockList.Pop: the returned pointer is an object position. As written, `pop` returns a pointer into a block it may just have freed (lib/container/block_list.h:280-283), which a position cannot express.
- BlockList.BlockList.constructor: assumes the list object starts zeroed (the header's `= default` constructor leaves the heads uninitialised).
- BlockList.BlockIterator.NBegin: requires a current block. At the end the source would dereference NULL.
- BlockList.SingleNodeIterator.constructor: requires a non-null block, for the same reason.
- ObjSlabs.ObjSlab.constructor: assumes zero-filled memory in two places. It takes the freeing side (`freed_vecs`, `freed_slots`) and the state to start at zero, which the constructor never writes. It also takes `available_slots[nslots..63]` to be zero, since the constructor writes only the first nslots words (allocator/obj_slab.h:84-92); ObjSlabs.InitialSlotWords fills them with zeros.
- ObjSlabs.ObjSlab.TryRelease: requires a slab with no available vector bit. The source calls it only after `_allocate` found the slab full, and its loop overwrites the allocation side on that assumption (allocator/obj_slab.h:258-259). The `OBJ_SLAB_ASSERT(state == OWNED)` debug check is not modelled; the state becomes UNOWNED whatever it was.
- `size_idx_to_free_offset` (allocator/slab_traits.h) is not modelled, because nothing in the modelled code reads it.
- `cmath::roundup` (used by `calculate_start`) and `cmath::rounddown` (used by `calculate_end`, allocator/object_allocator.h:30-34) live in a header that is not part of this model. `roundup` is taken to mean the least multiple of the slab size not below its argument, and `rounddown` the greatest multiple not above it (ObjectAllocator.CalculateStart, ObjectAllocator.RoundDownSlab).
- SlabAllocation.SharedMemorySlabAllocator.New: wraps `current_slab` at 2^64 as `uint64_t` arithmetic does. Running out of address space is not otherwise modelled.
- GenerateAsserts.GeneratedChecksHold: the four stamped-out templates are proved to hold per size. Their text is not compared against the `static_assert` lines of allocator/slab_traits.h:121-711; the header is modelled by the same four predicates.
- tcmalloc-src/tcmalloc/pagemap.cc, src/slab_test.cc, src/rseq_demo.cc, dep/verify_rseq.cc, lib/util/casting.h and allocator/free_cache.h are not part of this model.

## Findings

| source | as written | input that shows it | evidently intended | confidence | as-written member | corrected member |
|---|---|---|---|---|---|---|
| allocator/object_allocator.h:25-36 | `calculate_end` subtracts `m % slab_size`, the distance back to the previous boundary, from the region size, and adds the result, rounded down to whole slabs, to the aligned start | m = 32769, region size = 65537: the end is 131072, one slab past the region's end at 98306 | subtract the distance forward to the next boundary, so the end is slab-aligned and inside the region | not executed | ObjectAllocator.CalculateEndOvershoots | ObjectAllocator.CalculateEndCorrectedFits |
| lib/debug/backtracer.h:74 | `memcpy` of min(strlen(fn), 15) bytes writes no terminator, so a shorter name leaves the tail of the previous one in the slot | push "object_allocator.h", then, once the ring has come round to the same slot, "obj_slab.h": `show_frames` prints "obj_slab.hoc" | copy the name and terminate it, so the slot prints the name itself | not executed | Backtracer.StaleNameShows | Backtracer.TerminatedNameReadsBack |
| lib/container/block_list.h:216-237 | `_insert` links an entirely free available head back onto the iter list only when the iter list is empty; otherwise it stores the object in that block while the block is off the iter list | one full block on the iter list, and a second block whose last object was removed, so it left the iter list and stayed as the only available block: the next insert goes into the second block, which no node iterator visits | link the entirely free head back at the head of the iter list whenever it is off it | not executed | BlockListSpec.InsertAsWrittenHides | BlockListSpec.InsertKeepsInv |
| lib/container/block_list.h:290-305 | `remove_batch` chains its two tests by `else if`, so when the mask frees every slot of a full block, the block goes back on the available list but stays on the iter list with no object | a full block and a mask of all 64 bits: afterwards the iter list holds a block with no object | test "now entirely free" also when the block was full | not executed | BlockListSpec.DropAsWrittenKeepsEmptyBlock | BlockListSpec.DropKeepsInv |
