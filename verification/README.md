# MiniatureOs memory, boot and loader core in Dafny

This project models the core of MiniatureOs, a small x86_64 operating system
written in Rust, together with its BIOS bootloader. It covers these parts:

- **Addresses and paging.** Physical and virtual addresses, frames and pages;
  page-table entries; the four-level mapped page table with `map_to`,
  `unmap` and `translate` for 4 KiB and 2 MiB pages; the identity mapping
  stage 3 builds before it enters long mode.
- **Frame allocators.** The kernel's bump, "nth" and linked-list frame
  allocators; the boot-time bump allocator over the E820 memory map; the
  buddy frame allocator.
- **Heap, regions and stacks.** The kernel's buddy heap allocator and its
  initialisation; the range allocator; virtual memory regions; the memory
  manager; kernel stacks with guard pages.
- **Utility containers.** The ring buffer, the FNV-1a hash and the
  chained hash map (a vector of buckets, each a vector of pairs), and the intrusive doubly linked list.
- **Loading the kernel.** ELF64 header, program-header and relocation
  parsing and loading, as the kernel's ELF loader and stage 4 of the
  bootloader do.
- **The boot path.** The MBR partition table; the disk address packet used
  with BIOS `int 13h` extended reads; the stage 2 disk reader; the FAT
  12/16/32 boot partition (BIOS parameter block, FAT entries, directory
  entries with long names, cluster chains); the global descriptor table;
  the interrupt descriptor table; VESA mode selection and framebuffer
  description.

Everything is modelled as immutable values and pure functions. Where the
source loops, the model is a method with loop invariants. Two things the
source treats as "stop here" are both modelled as `BootUtil.Halt`: a
`fail(code)` call in the boot stages, and a Rust panic (`unwrap`, `assert!`,
an out-of-bounds index). The model follows a debug build, in which Rust
checks integer arithmetic: a sum past the type's maximum or a difference
below zero panics rather than wrapping. Addresses are `bv64`, or `nat`
with explicit bounds; where a checked operation of the source is not
modelled, a line under "## Left out" names it. BIOS
calls, port I/O and inline assembly become parameters of the functions
that use their results.

The repository has two generations of the bootloader: `bootloader/…` and
`Bootloader/…`. Where both implement the same routine, the model follows
`bootloader/x86_64/bios/…` and cites the other when it differs.

## Model

| member | source | states |
|---|---|---|
| Memory.AlignDownAligned | x86_64/src/memory.rs:42-45 | the physical `align_down` gives a multiple of the alignment |
| Memory.AlignDownBelow | x86_64/src/memory.rs:42-45 | `align_down` never moves an address up |
| Memory.AlignDownSplit | x86_64/src/memory.rs:42-45 | `align_down` clears only the bits below the alignment, so adding the cleared bits back gives the address |
| Memory.LowBitsBelowAlign | x86_64/src/memory.rs:42-45 | for a power-of-two alignment, the bits `align_down` clears are worth less than the alignment |
| Memory.AlignUpAligned | x86_64/src/memory.rs:47-50 | `align_up` to a power of two panics exactly when `addr + align` overflows, and otherwise gives an aligned address |
| Memory.AlignUpWithinPage | x86_64/src/memory.rs:47-50 | `align_up` to 4 KiB, when it does not panic, gives an address at or above `addr` and less than 4096 above it |
| Memory.AlignUpWithinHugePage | x86_64/src/memory.rs:47-50 | `align_up` to 2 MiB, when it does not panic, gives an address at or above `addr` and less than 2 MiB above it |
| Memory.AlignUpPage | x86_64/src/memory.rs:47-50 | `align_up` to 4 KiB panics exactly in the last page of the 64-bit space; otherwise it keeps an aligned address and moves any other to the next page boundary |
| Memory.AlignUpPanicsAtTop | x86_64/src/memory.rs:47-50 | in the last page `align_up` panics even for the aligned address, because `addr + align` is evaluated first; one page lower it reaches the last page boundary |
| Memory.VirtualAlignDownIsOffset | x86_64/src/memory.rs:94-97 | the virtual `align_down` as written keeps the offset inside the block, which is exactly the part the physical `align_down` clears |
| Memory.VirtualAlignDownNotAligned | x86_64/src/memory.rs:94-97 | the virtual `align_down` as written maps 0x1234 to 0x234, which is not 4 KiB-aligned |
| Memory.IndicesBelow512 | x86_64/src/memory.rs:112-126 | each of the four table indices of a virtual address is below 512 |
| Memory.IndicesRecompose | x86_64/src/memory.rs:112-126 | the four indices and the page offset together give back bits 0..=47 of the address |
| Memory.SameIndicesSamePage | x86_64/src/memory.rs:112-126 | two addresses below 2^48 with equal indices lie on the same 4 KiB page |
| Memory.FrameAtContains | x86_64/src/memory.rs:163-168 | `PhysicalFrame::at_address` gives the page-aligned frame that holds the address |
| Memory.PageContainingContains | x86_64/src/memory.rs:196-202 | the corrected page lookup starts on a page boundary at most one page below the address, so the page holds the address |
| Memory.PageAtAsWrittenWrong | x86_64/src/memory.rs:196-202 | `Page::at_address`, built on the virtual `align_down` as written, does not give the page that holds 0x1234 |
| Memory.AddBytesPanics | x86_64/src/memory.rs:67-72 | adding `n` to a physical or virtual address panics exactly when the sum overflows |
| Memory.AddBytesAdvances | x86_64/src/memory.rs:129-134 | an address add that does not panic moves the address up by exactly `n` bytes |
| Memory.AddWithin | x86_64/src/memory.rs:67-72 | a sum that does not overflow lies above the address by exactly the amount added |
| Memory.StepFromPanics | x86_64/src/memory.rs:175-183 | `address + SIZE * n` panics exactly when `SIZE * n` or the sum leaves 64 bits |
| Memory.StepFromValue | x86_64/src/memory.rs:175-183 | a step that does not panic lands on the start plus `n` pages of bytes |
| Memory.StepFromIsAdd | x86_64/src/memory.rs:175-183 | below the multiplication limit a step is a plain address add of `n * 4096` |
| Memory.StepWithin | x86_64/src/memory.rs:175-183 | a step that neither panic cuts short moves the start up by exactly `n * 4096` bytes, and shifting the distance back gives `n` |
| Memory.AddIsStep | x86_64/src/memory.rs:175-213 | `PhysicalFrame + n` and `Page + n` panic exactly when the address step does and otherwise start where it lands |
| Memory.StepFromAdvances | x86_64/src/memory.rs:175-183 | a step that does not panic advances its start by exactly `n` whole pages |
| Memory.StepAdvancesByPages | x86_64/src/memory.rs:175-213 | adding `n` to a frame or a page panics exactly when `n * 4096` or the new start does not fit in 64 bits, and otherwise moves its start up by exactly `n * 4096` bytes |
| Memory.StepKeepsAlignment | x86_64/src/memory.rs:205-219 | stepping an aligned frame or page forward keeps it aligned |
| PageEntry.UnusedNotPresent | x86_64/src/paging/mod.rs:99-105 | an unused (all-zero) entry is not present |
| PageEntry.NonPresentNonzeroIsNeither | x86_64/src/paging/mod.rs:99-105 | no entry is both present and unused, and an entry is neither exactly when it is nonzero without the PRESENT bit |
| PageEntry.AddressIsEntryAddress | x86_64/src/paging/mod.rs:107-109 | `address` is always 4 KiB-aligned and below 2^48 |
| PageEntry.AddressIsMaskedEntry | x86_64/src/paging/mod.rs:107-109 | `address` is exactly bits 12..47 of the entry |
| PageEntry.SetAddressThenAddress | x86_64/src/paging/mod.rs:117-119 | after `set_address(a, f)` with an aligned address below 2^48, `address()` gives `a` back |
| PageEntry.SetAddressThenFlags | x86_64/src/paging/mod.rs:117-123 | after `set_address(a, f)` with an aligned address below 2^48, `flags()` gives `f` back |
| PageEntry.SetAddressUnalignedTruncates | x86_64/src/paging/mod.rs:117-119 | an unaligned address does not come back: `set_address(0x1234, NONE)` reads as 0x1000 |
| PageEntry.AddFlagsKeepsAddress | x86_64/src/paging/mod.rs:129-131 | `add_flags` keeps the address |
| PageEntry.AddFlagsUnion | x86_64/src/paging/mod.rs:129-131 | after `add_flags`, the flags are the old flags together with the added ones |
| PageEntry.AddFlagsPresent | x86_64/src/paging/mod.rs:129-131 | after `add_flags`, the entry is present if and only if it was already present or PRESENT was added |
| PageEntry.SetFlagsDropsAddress | x86_64/src/paging/mod.rs:125-127 | `set_flags` drops the address and keeps exactly the given flags |
| PageEntry.SetUnusedClears | x86_64/src/paging/mod.rs:133-135 | after `set_unused`, the entry is unused and not present, and holds address 0 |
| PageEntry.EmptyTable | x86_64/src/paging/mod.rs:147-151 | `PageTable::empty` is 512 unused entries |
| PageEntry.InitializeEmptyAt | x86_64/src/paging/mod.rs:161-168 | `initialize_empty_at_address` fails its assertion (`None`) unless the address is a multiple of 4096, and otherwise gives an empty table |
| Regions.SetStart | bootloader/x86_64/bios/common/src/lib.rs:124-126 | `set_start` moves the start and keeps the size, so the end moves by the same amount |
| Regions.SetSize | bootloader/x86_64/bios/common/src/lib.rs:136-138 | `set_size` changes the size and nothing else |
| Regions.Empty | bootloader/x86_64/bios/common/src/lib.rs:97-104 | `empty` is a zero-length region at address 0 that is not usable, and whose inclusive `contains` still admits address 0 |
| Regions.IntoPhysicalType | bootloader/x86_64/bios/common/src/lib.rs:76-83 | E820 type `Normal` becomes free memory and every other type becomes reserved |
| Regions.IntoPhysical | bootloader/x86_64/bios/common/src/lib.rs:107-117 | the conversion keeps start and size, and the region is free exactly when the E820 region is usable |
| Regions.ContainsEnd | bootloader/x86_64/bios/common/src/lib.rs:128-142 | `contains` includes the region's own `end`, because its upper bound is inclusive |
| Regions.ContainingFrame | bootloader/x86_64/bios/common/src/bump_frame_allocator.rs:79 | `containing_address` gives the start of the 4 KiB frame that holds the address |
| Mapper.PathOf | x86_64/src/paging/mapped_page_table.rs:111-137 | the path to the leaf entry is the page's L4, L3, L2 (and, for 4 KiB pages, L1) indices, each below 512 |
| Mapper.ClearBelowAt | x86_64/src/paging/mapped_page_table.rs:57-64 | after a fresh table is installed below an entry, every entry below it reads as unused and every other entry is unchanged |
| Mapper.GetOrAllocate | x86_64/src/paging/mapped_page_table.rs:48-78 | `get_or_allocate_pagetable` fails only on an unused entry with an empty allocator, changing nothing; an unused entry takes the allocator's first frame with the flags; a used entry consumes no frame and gains the parent flags |
| Mapper.WithParentFlagsUsed | x86_64/src/paging/mapped_page_table.rs:66-68 | adding the parent flags to a used entry keeps it used |
| Mapper.WithParentFlagsAddress | x86_64/src/paging/mapped_page_table.rs:66-68 | adding the parent flags keeps the entry's address |
| Mapper.WithParentFlagsFlags | x86_64/src/paging/mapped_page_table.rs:66-68 | adding the parent flags leaves exactly the old flags together with the new ones |
| Mapper.GetOrAllocateAt | x86_64/src/paging/mapped_page_table.rs:48-78 | `get_or_allocate_pagetable` touches only the entry it is given and, when it creates a table, the entries below it, which then read as unused |
| Mapper.ParentEntryUsed | x86_64/src/paging/mapped_page_table.rs:57-64 | a newly created parent entry carries PRESENT, so it is used |
| Mapper.Walk | x86_64/src/paging/mapped_page_table.rs:111-135 | the walk of `map_to` consumes frames only from the allocator it is given, and a failed walk has exhausted it |
| Mapper.WalkKeepsShorter | x86_64/src/paging/mapped_page_table.rs:111-135 | the walk leaves every entry above its first level unchanged |
| Mapper.WalkReaches | x86_64/src/paging/mapped_page_table.rs:111-135 | a successful walk leaves every table on the path in place, used |
| Mapper.WalkLeaf | x86_64/src/paging/mapped_page_table.rs:111-137 | the walk either keeps the leaf entry or, when it creates the table above it, clears it |
| Mapper.MapAt | x86_64/src/paging/mapped_page_table.rs:111-145 | on success the leaf entry holds the new entry and every table on its path exists; PageAlreadyMapped leaves the leaf as it was; FrameAllocationFailed happens only once the allocator is empty |
| Mapper.MapTo | x86_64/src/paging/mapped_page_table.rs:98-145 | `map_to` (4 KiB here; the 2 MiB version is the same one level shorter, with HUGE_PAGE added) returns the page to flush on success, and fails with FrameAllocationFailed only once the allocator is empty |
| Mapper.IdentityMap | x86_64/src/paging/mod.rs:218-229 | `identity_map` maps the frame to the page that starts at the frame's own address, and flushes that page |
| Mapper.Unmap | x86_64/src/paging/mapped_page_table.rs:147-178 | `unmap` as written panics exactly when a table on the path is missing, and every frame it reports is 0, because it reads the leaf only after clearing it |
| Mapper.UnmapReturningFrame | x86_64/src/paging/mapped_page_table.rs:166-177 | the corrected `unmap` panics exactly when a table on the path is missing, and succeeds exactly when the leaf is present |
| Mapper.DistinctPagesDistinctPaths | x86_64/src/memory.rs:112-126 | two distinct 4 KiB pages below 2^48 are reached through distinct index paths |
| Mapper.SamePathEntriesSameTranslation | x86_64/src/paging/mapped_page_table.rs:253-281 | two sets of tables that agree on every entry along a path translate that path alike |
| Mapper.StepKeepsTranslatePath | x86_64/src/paging/mapped_page_table.rs:48-78 | one `get_or_allocate_pagetable` step above the leaf level changes no translation of a path as long as the leaf's or longer |
| Mapper.WalkKeepsTranslatePath | x86_64/src/paging/mapped_page_table.rs:111-135 | the walk of `map_to` changes no translation of any path of the leaf's length |
| Mapper.LeafWriteKeepsOthers | x86_64/src/paging/mapped_page_table.rs:142 | writing the leaf entry changes no translation of any other path of the same length |
| Mapper.AlignedFrameKept | x86_64/src/paging/mapped_page_table.rs:253-281 | a frame aligned to its page size is its own `containing_address` |
| Mapper.LeafPresence | x86_64/src/paging/mapped_page_table.rs:142 | the leaf entry `map_to` writes is present if and only if the caller's flags include PRESENT |
| Mapper.SizeAlignedIsPageAligned | x86_64/src/paging/mapped_page_table.rs:142 | a frame aligned to either page size is 4 KiB-aligned, so the entry can hold it |
| Mapper.LeafReadBack | x86_64/src/paging/mapped_page_table.rs:142 | the leaf entry `map_to` writes reads back as the frame and the leaf flags |
| Mapper.WalkReachableOk | x86_64/src/paging/mapped_page_table.rs:57-77 | a walk along a path whose tables already exist allocates nothing and succeeds |
| Mapper.WalkMissingTableTakes | x86_64/src/paging/mapped_page_table.rs:57-64 | a walk that reaches a missing table while the allocator has frames takes at least one of them |
| Mapper.MapToTableFrames | x86_64/src/paging/mapped_page_table.rs:98-135 | `map_to` takes no frame from the allocator it is given when every table on the page's path exists, and at least one when a table is missing and a frame is left |
| Mapper.TranslateFollowsPath | x86_64/src/paging/mapped_page_table.rs:253-281 | two sets of tables that translate the path of a page alike translate the page alike |
| Mapper.Translate | x86_64/src/paging/mapped_page_table.rs:253-281 | `translate` for either page size; Mapper.MapThenTranslate, Mapper.UnmapThenNotMapped and Mapper.TranslateFollowsPath state what it gives |
| Mapper.MapAtKeepsOtherPaths | x86_64/src/paging/mapped_page_table.rs:98-145 | the body of `map_to` changes no translation of any other path of the leaf's length |
| Mapper.FailedMapAtKeepsPaths | x86_64/src/paging/mapped_page_table.rs:111-141 | a failing body of `map_to` changes no translation of any path of the leaf's length |
| Mapper.MapAtMappedPath | x86_64/src/paging/mapped_page_table.rs:137-141 | on a path that already translates, the body of `map_to` fails with PageAlreadyMapped and allocates nothing |
| Mapper.MapToKeepsOtherPages | x86_64/src/paging/mapped_page_table.rs:98-145 | `map_to` changes the translation of no other page of the same size, whether it succeeds or fails |
| Mapper.FailedMapToKeepsTranslations | x86_64/src/paging/mapped_page_table.rs:111-141 | a failing `map_to` changes no translation at all, though it may keep tables it created |
| Mapper.MapThenTranslate | x86_64/src/paging/mapped_page_table.rs:98-145 | after a successful `map_to` of a size-aligned frame with PRESENT among the flags, `translate` of the page gives that frame and the flags, plus HUGE_PAGE for a 2 MiB page |
| Mapper.MapWithoutPresentNotMapped | x86_64/src/paging/mapped_page_table.rs:142 | a `map_to` whose flags lack PRESENT, as for a guard page, leaves the page untranslatable |
| Mapper.MapToMappedPage | x86_64/src/paging/mapped_page_table.rs:137-141 | `map_to` of a page that already translates fails with PageAlreadyMapped and allocates nothing |
| Mapper.IdentityMapTranslates | x86_64/src/paging/mod.rs:218-229 | `identity_map` of a size-aligned frame makes the page at the same address translate to it |
| Mapper.UnmapThenNotMapped | x86_64/src/paging/mapped_page_table.rs:166-172 | after `unmap` succeeds, the page no longer translates |
| Mapper.UnmapKeepsOtherPages | x86_64/src/paging/mapped_page_table.rs:147-178 | `unmap` changes the translation of no other page of the same size |
| Mapper.MapThenUnmapAsWrittenLosesFrame | x86_64/src/paging/mapped_page_table.rs:172-177 | mapping a nonzero frame and then unmapping the page with `unmap` as written reports frame 0, not the mapped frame |
| Mapper.MapThenUnmapReturnsFrame | x86_64/src/paging/mapped_page_table.rs:166-177 | with the frame read before the entry is cleared, unmapping a freshly mapped page reports the mapped frame |
| Mapper.UnmapReportsTranslatedFrame | x86_64/src/paging/mapped_page_table.rs:166-177 | whenever `translate` finds a page, the corrected `unmap` succeeds and reports the translated frame |
| RingBuffers.Next | util/src/ringbuffer.rs:50-70 | the index after `i` stays below `N`, wrapping to 0 after `N - 1` |
| RingBuffers.Count | util/src/ringbuffer.rs:34-40 | the number of stored elements is below `N` and takes the read index to the write index |
| RingBuffers.New | util/src/ringbuffer.rs:26-32 | a new buffer of `N` slots stores nothing |
| RingBuffers.IsFull | util/src/ringbuffer.rs:34-36 | `is_full` holds exactly when `N - 1` elements are stored |
| RingBuffers.IsEmpty | util/src/ringbuffer.rs:38-40 | `is_empty` holds exactly when nothing is stored |
| RingBuffers.Put | util/src/ringbuffer.rs:50-59 | `put` fails with BufferFull, changing nothing, exactly when the buffer is full, and otherwise appends the element |
| RingBuffers.PutContents | util/src/ringbuffer.rs:50-59 | storing at the write index and advancing it appends the element to the contents |
| RingBuffers.Get | util/src/ringbuffer.rs:61-70 | `get` fails with BufferEmpty, changing nothing, exactly when the buffer is empty, and otherwise returns the oldest element and drops it |
| RingBuffers.GetContents | util/src/ringbuffer.rs:61-70 | reading at the read index and advancing it takes the oldest element off the contents |
| RingBuffers.AtReadsContents | util/src/ringbuffer.rs:80-82 | indexing `i` places past the read index reaches the `i`-th oldest element |
| RingBuffers.Iter | util/src/ringbuffer.rs:116-124 | the iterator yields exactly the stored elements, oldest first |
| RingBuffers.PutAll | util/src/ringbuffer.rs:50-59 | a run of `put`s keeps the buffer well formed and its size unchanged |
| RingBuffers.GetAll | util/src/ringbuffer.rs:61-70 | a run of `get`s keeps the buffer well formed |
| RingBuffers.PutAllAppends | util/src/ringbuffer.rs:50-59 | `put`s that fit all succeed and append their elements in order |
| RingBuffers.GetAllTakes | util/src/ringbuffer.rs:61-70 | `k` `get`s return the `k` oldest elements in order and leave the rest |
| RingBuffers.Fifo | util/src/ringbuffer.rs:145-171 | elements put into an empty buffer with room come back out in the order they were put, and the buffer is then empty |
| RingBuffers.CapacityIsNMinusOne | util/src/ringbuffer.rs:34-59 | a new buffer of `N` slots accepts `N - 1` puts, is then full (and, for `N > 1`, not empty), and refuses the next put without changing |
| Fnv.WriteConcat | util/src/hashmap.rs:24-29 | writing bytes in two pieces gives the same state as writing them at once |
| Fnv.Write | util/src/hashmap.rs:24-29 | `write` folds one FNV-1a step per byte into the state; Fnv.WriteConcat states that writing in pieces equals writing at once |
| Fnv.Fnv1a | util/src/hashmap.rs:17-33 | a fresh hasher (`default`), `write`, then `finish`; Fnv.Fnv1aSnoc and the test vectors state its values |
| Fnv.Fnv1aSnoc | util/src/hashmap.rs:24-29 | one more byte takes one FNV-1a step (xor, then multiply by the prime modulo 2^64) from the hash so far |
| Fnv.VectorEmpty | util/src/hashmap.rs:336 | the hash of no bytes is the offset basis 0xcbf29ce484222325 |
| Fnv.VectorA | util/src/hashmap.rs:337 | the hash of "a" is 0xaf63dc4c8601ec8c |
| Fnv.VectorZero | util/src/hashmap.rs:348 | the hash of the single byte 0 is 0xaf63bd4c8601b7df |
| Fnv.VectorFoo | util/src/hashmap.rs:344 | the hash of "foo" is 0xdcb27518fed9d577 |
| Fnv.VectorFoobar | util/src/hashmap.rs:347 | the hash of "foobar" is 0x85944171f73967e8 |
| HashMaps.Slot | util/src/hashmap.rs:176 | a key's slot among `n` buckets is below `n` |
| HashMaps.BucketOf | util/src/hashmap.rs:166-181 | `bucket` is None exactly when there are no buckets, and otherwise the key's home bucket |
| HashMaps.StoredAtHome | util/src/hashmap.rs:166-181 | in a valid map, a pair is stored exactly when it is in its key's home bucket |
| HashMaps.Position | util/src/hashmap.rs:138 | `position` gives the first index whose key matches, or None when no key matches |
| HashMaps.SwapRemoveContents | util/src/hashmap.rs:159 | `swap_remove` of a pair from a bucket with distinct keys keeps the keys distinct and drops exactly that key's pair |
| HashMaps.ReplaceValueContents | util/src/hashmap.rs:88-92 | replacing a pair's value leaves that key with the new value and every other pair as it was |
| HashMaps.WithBucketStored | util/src/hashmap.rs:80-97 | replacing one bucket with a bucket that keeps the slot discipline keeps the map valid; keys homed elsewhere keep their values |
| HashMaps.GetStored | util/src/hashmap.rs:107-118 | `get` finds exactly the stored value, and None for a key the map lacks |
| HashMaps.Get | util/src/hashmap.rs:107-118 | `get` searches only the key's bucket; HashMaps.GetStored states that on a valid map it finds exactly the stored value and None for an absent key |
| HashMaps.ContainsKey | util/src/hashmap.rs:99-105 | `contains_key` is `get(..).is_some()`; HashMaps.ContainsKeyHas states its meaning |
| HashMaps.ContainsKeyHas | util/src/hashmap.rs:99-105 | on a valid map `contains_key` holds exactly for the keys the map stores |
| HashMaps.GetMut | util/src/hashmap.rs:120-131 | the slot `get_mut` points at lies inside the buckets, and it holds the key; HashMaps.GetMutWrite states what a write through it does |
| HashMaps.New | util/src/hashmap.rs:42-47 | `new` is a valid, empty map without buckets |
| HashMaps.EmptyStoresNothing | util/src/hashmap.rs:208-210 | a valid map `is_empty` exactly when it stores no pair |
| HashMaps.FlattenMembers | util/src/hashmap.rs:234-249 | the pairs the iterator walks through are exactly the pairs in some bucket |
| HashMaps.FlattenDistinct | util/src/hashmap.rs:234-249 | buckets whose keys are distinct and home to their own bucket flatten to a sequence of distinct keys |
| HashMaps.IterYieldsEachOnce | util/src/hashmap.rs:216-249 | iteration yields `len` pairs, never a key twice, and exactly the stored pairs |
| HashMaps.Iter | util/src/hashmap.rs:216-249 | iteration walks the buckets in order, each bucket in order; HashMaps.IterYieldsEachOnce states it yields `len` pairs, each stored pair once |
| HashMaps.Len | util/src/hashmap.rs:212-214 | `len` reads the entry count; HashMaps.IterYieldsEachOnce and HashMaps.InsertCounts state it counts the stored pairs |
| HashMaps.IsEmpty | util/src/hashmap.rs:208-210 | `is_empty` tests the entry count; HashMaps.EmptyStoresNothing states it holds exactly when no pair is stored |
| HashMaps.PlaceGood | util/src/hashmap.rs:194-202 | rehashing fresh, distinct keys into the new buckets keeps every key in its slot and adds their number to the total |
| HashMaps.PlaceMembers | util/src/hashmap.rs:194-202 | after rehashing, a pair is in some bucket exactly when it was rehashed or was there already |
| HashMaps.RehashKeeps | util/src/hashmap.rs:189-205 | rehashing into `size` buckets keeps the map valid and keeps every stored pair |
| HashMaps.Rehash | util/src/hashmap.rs:189-205 | the pairs moved into `size` fresh buckets; HashMaps.RehashKeeps states the result is valid and stores the same pairs |
| HashMaps.ResizeKeeps | util/src/hashmap.rs:183-206 | `resize_if_needed` keeps every stored pair and leaves at least one bucket |
| HashMaps.ResizeIfNeeded | util/src/hashmap.rs:183-206 | `resize_if_needed` as written, which resizes only an empty map; HashMaps.ResizeKeeps states it keeps every pair and leaves a bucket |
| HashMaps.InsertAfterSpec | util/src/hashmap.rs:83-96 | once there is a bucket, `insert` stores `key -> value`, keeps every other pair, returns the old value if there was one, and counts one more entry exactly for a new key |
| HashMaps.InsertSpec | util/src/hashmap.rs:80-97 | `insert` on any valid map stores `key -> value`, keeps every other pair, returns the old value, and counts one more entry exactly for a new key |
| HashMaps.Insert | util/src/hashmap.rs:80-97 | `insert` keeps the map valid; HashMaps.InsertSpec states what it stores and returns |
| HashMaps.RemoveSpec | util/src/hashmap.rs:151-164 | `remove` drops exactly `key`, returns its value, and counts one entry fewer exactly then; an absent key changes nothing |
| HashMaps.Remove | util/src/hashmap.rs:151-164 | `remove` swap-removes the pair from its bucket; HashMaps.RemoveSpec states it drops exactly the key and returns its value |
| HashMaps.InsertThenRemove | util/src/hashmap.rs:488-503 | inserting a new key and removing it again returns the inserted value and restores the original length and contents |
| HashMaps.GetMutWrite | util/src/hashmap.rs:120-131 | `get_mut` finds exactly the stored keys, and a write through it is what `get` returns afterwards; other keys are untouched |
| HashMaps.EntrySpec | util/src/hashmap.rs:133-149 | `entry` is occupied exactly for a stored key and then points at that key's pair; inserting through a vacant entry is `insert` |
| HashMaps.InsertKeepsFewBuckets | util/src/hashmap.rs:183-187 | because `resize_if_needed` returns early for every non-empty map, `insert` never takes a map past two buckets, however many entries it holds |
| HashMaps.ThreeKeysTwoBuckets | util/src/hashmap.rs:183-187 | three distinct keys inserted into a new map give three entries in at most two buckets |
| HashMaps.InsertCounts | util/src/hashmap.rs:80-97 | after `insert`, the keys with a value are the old ones and `key`, and the count grows exactly for a new key |
| HashMaps.ResizeByLoadKeeps | util/src/hashmap.rs:183-206 | the corrected resize keeps the contents and the count; it leaves a map below three quarters load alone and otherwise doubles the buckets (0 becomes 1) |
| HashMaps.InsertByLoadBounded | util/src/hashmap.rs:80-97 | with the corrected resize, `insert` never leaves more entries than buckets, and it stores the pair as `insert` does |
| IntrusiveLists.New | util/src/intrusive_linked_list.rs:120-126 | a new list represents the empty sequence, whatever the nodes' links |
| IntrusiveLists.PushBack | util/src/intrusive_linked_list.rs:174-191 | `push_back` panics exactly when the node is already the tail; otherwise the node becomes the tail and `len` grows by one |
| IntrusiveLists.PushBackSpec | util/src/intrusive_linked_list.rs:174-191 | pushing a node that is not in the list at the back appends it, and no other node's links change |
| IntrusiveLists.PushFront | util/src/intrusive_linked_list.rs:193-211 | `push_front` panics exactly when the node is already the head; otherwise the node becomes the head and `len` grows by one |
| IntrusiveLists.PushFrontSpec | util/src/intrusive_linked_list.rs:193-211 | pushing a node that is not in the list at the front prepends it, and no other node's links change |
| IntrusiveLists.PopBack | util/src/intrusive_linked_list.rs:132-154 | `pop_back` of an empty list changes nothing and returns nothing; a returned node is the old tail, unlinked, and `len` drops by one |
| IntrusiveLists.PopBackSpec | util/src/intrusive_linked_list.rs:132-154 | on a well-formed list `pop_back` never panics and returns the last node unlinked, leaving the rest of the list |
| IntrusiveLists.PopFront | util/src/intrusive_linked_list.rs:156-172 | `pop_front` of an empty list changes nothing and returns nothing; a returned node is the old head, unlinked, and `len` drops by one |
| IntrusiveLists.PopFrontSpec | util/src/intrusive_linked_list.rs:156-172 | on a well-formed list `pop_front` never panics and returns the first node unlinked, leaving the rest of the list |
| IntrusiveLists.PopFrame | util/src/intrusive_linked_list.rs:132-172 | popping from either end changes the links of no node outside the list |
| IntrusiveLists.QueriesSpec | util/src/intrusive_linked_list.rs:265-297 | `front` and `back` are the first and last node; `is_empty` holds exactly when there are no nodes, which is exactly when `len` is 0; `len` counts the nodes |
| IntrusiveLists.Front | util/src/intrusive_linked_list.rs:265-269 | `front`; IntrusiveLists.QueriesSpec states it is the first node |
| IntrusiveLists.Back | util/src/intrusive_linked_list.rs:277-281 | `back`; IntrusiveLists.QueriesSpec states it is the last node |
| IntrusiveLists.IsEmpty | util/src/intrusive_linked_list.rs:290-293 | `is_empty`; IntrusiveLists.QueriesSpec states it holds exactly when there are no nodes |
| IntrusiveLists.Len | util/src/intrusive_linked_list.rs:295-297 | `len`; IntrusiveLists.QueriesSpec states it counts the nodes |
| IntrusiveLists.WalkFrom | util/src/intrusive_linked_list.rs:376-391 | following `next` links from the `i`-th node of a well-formed list yields the rest of the list |
| IntrusiveLists.IterSpec | util/src/intrusive_linked_list.rs:299-305 | the iterator yields the list's nodes, head first |
| IntrusiveLists.Iter | util/src/intrusive_linked_list.rs:299-305 | `iter`; IntrusiveLists.IterSpec states it yields the nodes head first |
| IntrusiveLists.Contains | util/src/intrusive_linked_list.rs:213-222 | `contains` holds exactly when the iterator reaches the node |
| IntrusiveLists.ContainsSpec | util/src/intrusive_linked_list.rs:213-222 | on a well-formed list, `contains` is membership |
| IntrusiveLists.Remove | util/src/intrusive_linked_list.rs:234-263 | `remove` panics exactly when a head without a predecessor is its own successor, or when a node that has a predecessor or is the head either has a successor while `len == 0` or is the tail without a successor and is its own predecessor or meets `len == 0`; a `remove` that returns a node returns that node and drops `len` by one |
| IntrusiveLists.RemoveAfterPrev | util/src/intrusive_linked_list.rs:249-263 | the `next` half of `remove`: when it hands back a node, that node is `x` and the length drops by one |
| IntrusiveLists.RemoveSelfLinkedTail | util/src/intrusive_linked_list.rs:254-258 | removing a tail whose predecessor is itself panics on the self-link assertion |
| IntrusiveLists.RemoveShape | util/src/intrusive_linked_list.rs:234-263 | on the `i`-th node of a well-formed list, `remove` moves the head or tail past it where needed and splices its neighbours together |
| IntrusiveLists.SplicedLinks | util/src/intrusive_linked_list.rs:234-263 | after the splice, every other node has the links it should have in the list without the removed node |
| IntrusiveLists.SplicedFrame | util/src/intrusive_linked_list.rs:234-263 | the splice unlinks the removed node and changes no node other than it and its neighbours |
| IntrusiveLists.RemoveSpec | util/src/intrusive_linked_list.rs:234-263 | removing the `i`-th node of a well-formed list never panics, hands the node back unlinked, keeps the other nodes in order, and changes no node outside the list |
| IntrusiveLists.SplicedRepresents | util/src/intrusive_linked_list.rs:234-263 | the list left after splicing out the `i`-th node represents the other nodes in order |
| IntrusiveLists.RemoveChecked | util/src/intrusive_linked_list.rs:224-230 | `remove_checked` of a node the iterator does not reach changes nothing and returns nothing |
| IntrusiveLists.RemoveCheckedSpec | util/src/intrusive_linked_list.rs:224-230 | on a well-formed list, `remove_checked` of a node not in the list changes nothing; of the `i`-th node, it removes that node as `remove` does |
| IntrusiveLists.PushBackAllAppends | util/src/intrusive_linked_list.rs:174-191 | pushing distinct new nodes at the back appends them in order |
| IntrusiveLists.PopFrontAllTakes | util/src/intrusive_linked_list.rs:156-172 | popping `k` nodes from the front returns the first `k` nodes in order and leaves the rest |
| IntrusiveLists.Fifo | util/src/intrusive_linked_list.rs:513-539 | distinct nodes pushed at the back of a new list come out of the front in push order, `len` counts them, and the list is then empty |
| IntrusiveLists.Mirror | util/src/intrusive_linked_list.rs:513-539 | on a one-node list `front` and `back` agree; after pushing another node at the front, `pop_back` returns the first node and `pop_front` the second, leaving the list empty |
| Powers.TrailingZerosPow2 | kernel/src/memory/buddy_frame_allocator.rs:260 | the trailing zeros of a power of two are its exponent, so a block is filed under its order |
| Powers.LowBit | kernel/src/memory/buddy_frame_allocator.rs:239-244 | `x & (!x + 1)` for `x > 0` is the largest power of two that divides `x` |
| Powers.PrevPow2 | kernel/src/memory/buddy_frame_allocator.rs:35-37 | `previous_power_of_two(n)` for `n > 0` is the largest power of two at most `n` |
| Powers.NextPow2 | kernel/src/memory/buddy_frame_allocator.rs:266 | `next_power_of_two(n)` is the smallest power of two at least `n`, and 1 for 0 |
| Powers.NextPow2Least | kernel/src/memory/buddy_frame_allocator.rs:266 | every power of two that is at least `n` is at least `next_power_of_two(n)` |
| Powers.FlipBitBuddy | kernel/src/memory/buddy_frame_allocator.rs:349 | for a block of `2^k` bytes aligned to `2^k`, toggling bit `k` gives the other half of the enclosing `2^(k+1)` block |
| BuddyCore.EmptyLists | kernel/src/memory/buddy_frame_allocator.rs:209-214 | `new` builds twenty empty free lists, which hold no bytes and no blocks |
| BuddyCore.Push | kernel/src/memory/buddy_frame_allocator.rs:143-146 | `push_front` onto list `k` puts the block first and leaves the other lists alone; a block of `2^k` bytes aligned to `2^k` keeps the lists sized |
| BuddyCore.Pop | kernel/src/memory/buddy_frame_allocator.rs:150-157 | `pop_front` of list `k` returns its first block and leaves the rest; the byte total drops by that block's size and the lists stay sized |
| BuddyCore.OrderOfBlock | kernel/src/memory/buddy_frame_allocator.rs:260 | a well-formed block is filed under its exponent, which is below twenty |
| BuddyCore.TilingTotal | kernel/src/memory/buddy_frame_allocator.rs:237-262 | the blocks of a tiling add up to the length of the range |
| BuddyCore.TilingCovers | kernel/src/memory/buddy_frame_allocator.rs:237-262 | an address lies in the tiled range exactly when it lies in one of its blocks |
| BuddyCore.TilingAbove | kernel/src/memory/buddy_frame_allocator.rs:237-262 | each block of a tiling lies inside the tiled range |
| BuddyCore.TileStep | kernel/src/memory/buddy_frame_allocator.rs:239-248 | one step of the `add_frame` loop creates a nonempty power-of-two block, aligned to its size, that fits in what is left |
| BuddyCore.TilesTile | kernel/src/memory/buddy_frame_allocator.rs:237-262 | the `add_frame` loop tiles `[start, end)` exactly, with power-of-two blocks of at most 512 KiB, each aligned to its size |
| BuddyCore.AddBlocks | kernel/src/memory/buddy_frame_allocator.rs:250-260 | filing well-formed blocks adds their bytes and their number to the lists and keeps them sized |
| BuddyCore.FirstNonEmpty | kernel/src/memory/buddy_frame_allocator.rs:287-291 | the search gives the first non-empty list at or above the order, or None when all of them are empty |
| BuddyCore.SplitOnce | kernel/src/memory/buddy_frame_allocator.rs:296-323 | one split takes the front block of list `j` and pushes its lower and then its upper half onto list `j - 1`, keeping the bytes and the sizing |
| BuddyCore.Split | kernel/src/memory/buddy_frame_allocator.rs:295-327 | splitting from order `j` down leaves a block on the requested list, keeps every byte, and adds one block per split |
| BuddyCore.SplitShape | kernel/src/memory/buddy_frame_allocator.rs:295-327 | after splitting, each intermediate order gains one block, the upper half of the piece above; the other lists are untouched |
| BuddyCore.SplitBottom | kernel/src/memory/buddy_frame_allocator.rs:295-327 | after splitting, the requested list starts with two new blocks of its size, the first being the top piece of the split block |
| BuddyCore.Remove | kernel/src/memory/buddy_frame_allocator.rs:177-200 | `remove` takes out the first block with the given start, keeping the other blocks, and fails exactly when no block starts there |
| BuddyCore.RemoveKeepsSized | kernel/src/memory/buddy_frame_allocator.rs:177-200 | removing from a sized list leaves it sized, and the removed block has the list's size |
| BuddyCore.Merge | kernel/src/memory/buddy_frame_allocator.rs:345-371 | the merge loop either files the region below the limit or reaches the limit unfiled, and each merge takes one block off the lists |
| BuddyCore.MergeStep | kernel/src/memory/buddy_frame_allocator.rs:346-361 | one merge takes the buddy off its list, and the doubled region is aligned one order up |
| BuddyCore.MergeAccounting | kernel/src/memory/buddy_frame_allocator.rs:345-371 | merging keeps the lists sized; a filed region adds exactly the freed bytes, and a region that reaches the limit carries every byte the lists lost |
| BuddyCore.MergeRegion | kernel/src/memory/buddy_frame_allocator.rs:345-371 | a region that reaches the limit has doubled once per merge and stays aligned to its size |
| BuddyCore.MergedRegion | kernel/src/memory/buddy_frame_allocator.rs:354-355 | the merged region starts at the lower buddy, is twice the size, and is aligned to its new size |
| BuddyCore.PushCover | kernel/src/memory/buddy_frame_allocator.rs:143-146 | `push_front` makes each address of the block free once more and changes no other address |
| BuddyCore.PopCover | kernel/src/memory/buddy_frame_allocator.rs:150-157 | `pop_front` frees exactly the popped block's addresses from the lists: what is left plus the block holds each address as often as before |
| BuddyCore.SplitCover | kernel/src/memory/buddy_frame_allocator.rs:295-327 | splitting sized lists trades blocks for their halves, so each address is held by as many free blocks as before |
| BuddyCore.AddBlocksCover | kernel/src/memory/buddy_frame_allocator.rs:250-260 | filing a list of blocks makes each address free once more per block holding it |
| BuddyCore.TilingCover | kernel/src/memory/buddy_frame_allocator.rs:237-262 | a tiling of `[start, end)` holds each address of the range exactly once and no other address |
| BuddyCore.RemoveCover | kernel/src/memory/buddy_frame_allocator.rs:177-200 | `remove` takes exactly the removed block's addresses off the list |
| BuddyCore.BuddiesCover | kernel/src/memory/buddy_frame_allocator.rs:354-355 | a block and its buddy hold exactly the addresses of the merged block |
| BuddyCore.MergeCover | kernel/src/memory/buddy_frame_allocator.rs:345-371 | merging keeps every address held as often as before, counting the region still in hand when it is not filed |
| BuddyFrameAllocator.New | kernel/src/memory/buddy_frame_allocator.rs:209-214 | `new` holds no free bytes, its lists are sized, and all 512 pool nodes are free |
| BuddyFrameAllocator.AddFrame | kernel/src/memory/buddy_frame_allocator.rs:232-263 | `add_frame` panics exactly when `start > end` or the pool has fewer nodes than the tiling has blocks; otherwise it adds exactly `end - start` bytes, and every pool node stays either free or on a list |
| BuddyFrameAllocator.Init | kernel/src/memory/buddy_frame_allocator.rs:216-230 | `init` keeps the lists sized and every pool node either free or on a list |
| BuddyFrameAllocator.InitRegionShortByOne | kernel/src/memory/buddy_frame_allocator.rs:225-228 | each usable region adds one byte less than its size, because `add_frame` is given `end() - 1` as an exclusive end |
| BuddyFrameAllocator.InitRegionFull | kernel/src/memory/buddy_frame_allocator.rs:225-228 | given the region's true end, `add_frame` adds every byte of the region |
| BuddyFrameAllocator.InitRegionFullCovers | kernel/src/memory/buddy_frame_allocator.rs:225-228 | with the true end, the blocks cover exactly the region's addresses |
| BuddyFrameAllocator.AllocPowerOfTwo | kernel/src/memory/buddy_frame_allocator.rs:284-332 | `alloc_power_of_two` panics exactly when the order is past the lists or the pool cannot supply two nodes per split; it returns nothing, changing nothing, exactly when no list at or above the order has a block; and a returned block takes one node plus one per split out of circulation |
| BuddyFrameAllocator.Alloc | kernel/src/memory/buddy_frame_allocator.rs:265-281 | `alloc` rounds the size up to a power of two and returns what `alloc_power_of_two` returns |
| BuddyFrameAllocator.AllocSound | kernel/src/memory/buddy_frame_allocator.rs:265-332 | on sized lists, an allocated block has exactly `next_power_of_two(size)` bytes, is aligned to that size, and its bytes leave the lists, which stay sized |
| BuddyFrameAllocator.AllocTopPiece | kernel/src/memory/buddy_frame_allocator.rs:284-332 | the allocated block is the top piece of the front block of the first non-empty list at or above its order |
| BuddyFrameAllocator.AllocLeaksSplitNodes | kernel/src/memory/buddy_frame_allocator.rs:296-323 | an allocation that splits `d` times loses `d` pool nodes: the cloned node of each split block never returns to the pool |
| BuddyFrameAllocator.AllocReturningNodes | kernel/src/memory/buddy_frame_allocator.rs:296-323 | with each split block's node given back, an allocation keeps every node either free or on a list |
| BuddyFrameAllocator.Dealloc | kernel/src/memory/buddy_frame_allocator.rs:334-372 | `dealloc` keeps every pool node either free or on a list |
| BuddyFrameAllocator.DeallocPlacedAccounting | kernel/src/memory/buddy_frame_allocator.rs:339-372 | freeing an aligned power-of-two block whose merges stop below order 20 puts back exactly its bytes and keeps the lists sized |
| BuddyFrameAllocator.DeallocAtTopLosesBlock | kernel/src/memory/buddy_frame_allocator.rs:345-371 | when merging reaches order 20 the loop ends without filing the merged block, so fewer bytes come back than were freed |
| BuddyFrameAllocator.TopOrderMergeLoses | kernel/src/memory/buddy_frame_allocator.rs:345-371 | freeing the upper 512 KiB half of a block at 0 empties the lists: both halves are lost |
| BuddyFrameAllocator.DeallocCapped | kernel/src/memory/buddy_frame_allocator.rs:334-372 | the corrected `dealloc` panics exactly on an odd size or when it needs a pool node and there is none, and keeps every node either free or on a list |
| BuddyFrameAllocator.DeallocCappedAccounting | kernel/src/memory/buddy_frame_allocator.rs:339-372 | with the merge capped at the top order, every freed byte comes back and the lists stay sized |
| BuddyFrameAllocator.AllocateFrame4KiB | kernel/src/memory/buddy_frame_allocator.rs:375-382 | a 4 KiB frame from the buddy allocator starts on a frame boundary |
| BuddyFrameAllocator.AllocateFrame4KiBSound | kernel/src/memory/buddy_frame_allocator.rs:375-382 | the 4 KiB frame is the allocated 4096-byte block itself, and those 4096 bytes leave the lists |
| BuddyFrameAllocator.AllocExact | kernel/src/memory/buddy_frame_allocator.rs:265-332 | a request for exactly `2^k` bytes gets a block aligned to `2^k`, whose bytes leave the lists |
| BuddyFrameAllocator.FrameAligned | kernel/src/memory/buddy_frame_allocator.rs:378 | a start aligned to `2^12` is its own `containing_address` |
| BuddyFrameAllocator.AllocateFrame2MiB | kernel/src/memory/buddy_frame_allocator.rs:384-391 | the 2 MiB `allocate_frame` asks for order 21, past the twenty lists, so it panics in every state |
| BuddyFrameAllocator.AllocChecked | kernel/src/memory/buddy_frame_allocator.rs:284-287 | with an order check in front of the lists, a request above the largest order reports no memory and changes nothing |
| BuddyFrameAllocator.CheckedTwoMiBReportsNone | kernel/src/memory/buddy_frame_allocator.rs:384-391 | with the check, a 2 MiB frame request reports no frame and leaves the allocator unchanged |
| BuddyFrameAllocator.AddFrameCover | kernel/src/memory/buddy_frame_allocator.rs:232-263 | `add_frame` makes each address of `[start, end)` free exactly once more, and no other address |
| BuddyFrameAllocator.AddFrameDisjoint | kernel/src/memory/buddy_frame_allocator.rs:232-263 | from disjoint free blocks, `add_frame` keeps them disjoint iff none of the added addresses was free already |
| BuddyFrameAllocator.InitDisjointFrom | kernel/src/memory/buddy_frame_allocator.rs:216-230 | `init` over sorted non-overlapping regions above every free address keeps the free blocks disjoint |
| BuddyFrameAllocator.InitDisjoint | kernel/src/memory/buddy_frame_allocator.rs:209-230 | `new` then `init` over a sorted, non-overlapping memory map leaves no address in two free blocks |
| BuddyFrameAllocator.AllocCover | kernel/src/memory/buddy_frame_allocator.rs:265-332 | an allocation takes exactly the returned block's addresses off the free lists |
| BuddyFrameAllocator.AllocDisjoint | kernel/src/memory/buddy_frame_allocator.rs:265-332 | from disjoint lists, every address of the allocated block was free exactly once, none stays free, and the free blocks stay disjoint |
| BuddyFrameAllocator.DeallocCover | kernel/src/memory/buddy_frame_allocator.rs:334-372 | `dealloc` never frees an address outside the freed block, and frees exactly its addresses when the block is filed |
| BuddyFrameAllocator.DeallocDisjoint | kernel/src/memory/buddy_frame_allocator.rs:334-372 | freeing a block none of whose addresses is free keeps the free blocks disjoint |
| BuddyFrameAllocator.DoubleFreeOverlaps | kernel/src/memory/buddy_frame_allocator.rs:334-372 | nothing stops a double free: freeing the still-free block at 0 leaves address 0 in two free blocks |
| BuddyFrameAllocator.DeallocCappedCover | kernel/src/memory/buddy_frame_allocator.rs:334-372 | the capped `dealloc` frees exactly the freed block's addresses |
| BuddyFrameAllocator.DeallocCappedDisjoint | kernel/src/memory/buddy_frame_allocator.rs:334-372 | from disjoint lists, the capped `dealloc` keeps them disjoint iff none of the freed addresses was free already |
| BuddyHeap.AlignLayoutSize | kernel/src/allocator/buddy_allocator.rs:287-292 | `align_layout_size` is the smallest power of two that holds the request, meets its alignment and is large enough for a chunk header |
| BuddyHeap.AddRegion | kernel/src/allocator/buddy_allocator.rs:252-277 | `add_region` panics exactly when `start > end`; otherwise it adds exactly `end - start` free bytes and keeps the lists sized |
| BuddyHeap.Init | kernel/src/allocator/buddy_allocator.rs:248-250 | `init(start, size)` adds exactly `size` free bytes and keeps the lists sized |
| BuddyHeap.InitCovers | kernel/src/allocator/buddy_allocator.rs:248-277 | the free blocks `init` creates cover exactly the bytes of `[start, start + size)` |
| BuddyHeap.InitFromMemoryMap | kernel/src/allocator/buddy_allocator.rs:232-246 | `init_from_memory_map` panics exactly when some usable region is empty, because `end() - 1` then falls below the start; it keeps the lists sized |
| BuddyHeap.MemoryMapShortByOne | kernel/src/allocator/buddy_allocator.rs:241-244 | for a nonempty usable region, the memory-map path adds one byte less than `init` does |
| BuddyHeap.InitFromMemoryMapFull | kernel/src/allocator/buddy_allocator.rs:236-245 | with each region's true end, initialising from the memory map adds exactly the bytes of the usable regions |
| BuddyHeap.Alloc | kernel/src/allocator/buddy_allocator.rs:295-342 | `alloc` panics exactly when the rounded size is past the lists; it returns nothing, changing nothing, exactly when no list at or above the order has a chunk; a returned chunk leaves one chunk more per split |
| BuddyHeap.AllocSound | kernel/src/allocator/buddy_allocator.rs:295-342 | an allocated chunk has the rounded layout size, holds the request, is aligned to its size and so to the layout's alignment, and its bytes leave the lists, which stay sized |
| BuddyHeap.Dealloc | kernel/src/allocator/buddy_allocator.rs:344-375 | each merge takes one chunk off the lists, and a chunk is filed only if merging stops below the top order |
| BuddyHeap.DeallocPlaced | kernel/src/allocator/buddy_allocator.rs:344-375 | freeing a chunk whose merges stop below the top order gives back exactly its bytes and keeps the lists sized |
| BuddyHeap.DeallocAtTopLoses | kernel/src/allocator/buddy_allocator.rs:350-374 | freeing a chunk whose merges reach the top order gives back fewer bytes than were freed: the merged chunk is never filed |
| BuddyHeap.DeallocCapped | kernel/src/allocator/buddy_allocator.rs:344-375 | the corrected `dealloc` adds at most one chunk to the lists |
| BuddyHeap.DeallocCappedAccounting | kernel/src/allocator/buddy_allocator.rs:344-375 | with the merge capped at the top order, every freed byte comes back and the lists stay sized |
| BuddyHeap.GlobalAllocate | kernel/src/allocator/buddy_allocator.rs:379-385 | `GlobalAlloc::alloc` returns the chunk's address when `alloc` finds one, and panics otherwise |
| BuddyHeap.GlobalDeallocate | kernel/src/allocator/buddy_allocator.rs:387-392 | `GlobalAlloc::dealloc` adds at most one chunk to the lists |
| BuddyHeap.AllocDeallocRoundTrip | kernel/src/allocator/buddy_allocator.rs:379-392 | freeing a fresh allocation with the same layout rebuilds the very chunk that was allocated, and when its merges stop below the top order the free bytes return to what they were |
| BuddyHeap.AddRegionCover | kernel/src/allocator/buddy_allocator.rs:252-277 | `add_region` makes each address of `[start, end)` free exactly once more, and no other address |
| BuddyHeap.AddRegionDisjoint | kernel/src/allocator/buddy_allocator.rs:252-277 | from disjoint free chunks, `add_region` keeps them disjoint iff none of the added addresses was free already |
| BuddyHeap.InitDisjoint | kernel/src/allocator/buddy_allocator.rs:248-277 | `init` on empty lists makes each address of `[start, start + size)` free exactly once and no other address free |
| BuddyHeap.AllocCover | kernel/src/allocator/buddy_allocator.rs:295-342 | an allocation takes exactly the returned chunk's addresses off the free lists |
| BuddyHeap.AllocDisjoint | kernel/src/allocator/buddy_allocator.rs:295-342 | from disjoint lists, every address of the allocated chunk was free exactly once, none stays free, and the free chunks stay disjoint |
| BuddyHeap.DeallocCover | kernel/src/allocator/buddy_allocator.rs:344-375 | `dealloc` never frees an address outside the freed chunk, and frees exactly its addresses when the chunk is filed |
| BuddyHeap.DeallocDisjoint | kernel/src/allocator/buddy_allocator.rs:344-375 | freeing a chunk none of whose addresses is free keeps the free chunks disjoint |
| BuddyHeap.DeallocCappedCover | kernel/src/allocator/buddy_allocator.rs:344-375 | the capped `dealloc` frees exactly the freed chunk's addresses |
| BuddyHeap.DeallocCappedDisjoint | kernel/src/allocator/buddy_allocator.rs:344-375 | from disjoint lists, the capped `dealloc` keeps them disjoint iff none of the freed addresses was free already |
| NthFrameAllocator.RegionFrames | x86_64/src/paging/bump_frame_allocator.rs:66-68 | stepping through a region by 4096 gives one frame per started page of its size |
| NthFrameAllocator.RegionFramesAligned | x86_64/src/paging/bump_frame_allocator.rs:66-68 | for an aligned region, frame `i` starts `i` pages past the start and lies inside the region |
| NthFrameAllocator.UsableFramesInUsableRegions | x86_64/src/paging/bump_frame_allocator.rs:64-69 | every frame `usable_frames` yields lies in a usable region |
| NthFrameAllocator.UsableFramesFrom | x86_64/src/paging/bump_frame_allocator.rs:64-69 | on a sorted map, no usable frame lies below the first region's start |
| NthFrameAllocator.UsableFramesIncreasing | x86_64/src/paging/bump_frame_allocator.rs:64-69 | on a sorted, disjoint map with aligned starts, the usable frames are strictly increasing |
| NthFrameAllocator.AllocateFrame | x86_64/src/paging/bump_frame_allocator.rs:77-81 | `allocate_frame` returns the `next`-th usable frame, or None when there are not that many, and always advances `next` |
| NthFrameAllocator.AllocateMany | x86_64/src/paging/bump_frame_allocator.rs:77-81 | `n` allocations advance `next` by `n`, and the `i`-th returns what an allocation at `next + i` returns |
| NthFrameAllocator.AllocationsDistinctAndUsable | x86_64/src/paging/bump_frame_allocator.rs:64-81 | on a sorted, disjoint map with aligned starts, two allocations never return the same frame, and every frame returned lies in a usable region |
| NthFrameAllocator.DeallocateIgnored | x86_64/src/paging/bump_frame_allocator.rs:84 | `deallocate_frame` does nothing: the next allocation is the same as without it |
| NthFrameAllocator.NewStartingAt | x86_64/src/paging/bump_frame_allocator.rs:38-58 | `new_starting_at` panics exactly when the first region containing the frame is not usable; otherwise that region, moved to start at the frame, heads the remaining map, or the map is drained when no region contains the frame |
| NthFrameAllocator.StartFrameFirst | x86_64/src/paging/bump_frame_allocator.rs:38-81 | after `new_starting_at` on an aligned frame inside a nonempty region, the first allocation is that frame |
| NthFrameAllocator.MaxPhysicalAddress | x86_64/src/paging/bump_frame_allocator.rs:60-62 | `max_physical_address` is the largest region end, and panics (None) on an empty map |
| StreamFrameAllocator.FindContaining | x86_64/src/frame_allocator.rs:29-37 | the search finds the first region that contains the address, or none when no region does |
| StreamFrameAllocator.FindUsable | x86_64/src/frame_allocator.rs:60-69 | the search finds the first usable region, or none when no region is usable |
| StreamFrameAllocator.NewStartingAt | x86_64/src/frame_allocator.rs:26-43 | `new_starting_at` panics exactly when the first region containing the frame is not usable; otherwise that region becomes current with the regions after it left, or there is no current region when no region contains the frame |
| StreamFrameAllocator.AllocateKernel | x86_64/src/frame_allocator.rs:51-75 | the kernel `allocate_frame` returns None exactly when there is no current region, and otherwise returns the current frame and keeps a current region |
| StreamFrameAllocator.AllocateBoot | bootloader/x86_64/bios/common/src/bump_frame_allocator.rs:66-97 | the boot `allocate_frame` returns None exactly when there is no current region, and drops the current region only when the next frame leaves it and no usable region follows |
| StreamFrameAllocator.KernelNeverExhausts | x86_64/src/frame_allocator.rs:51-75 | once the kernel allocator has a region, it never reports exhaustion again |
| StreamFrameAllocator.KernelRunsPastMap | x86_64/src/frame_allocator.rs:57-72 | with one usable page at 0, the kernel allocator hands out 0, then 0x1000 and 0x2000, which lie in no usable region |
| StreamFrameAllocator.BootDuplicatesFrame | bootloader/x86_64/bios/common/src/bump_frame_allocator.rs:72-94 | with two adjacent usable pages at 0 and 0x1000, the boot allocator hands out 0x1000 twice, because `contains` includes the end |
| StreamFrameAllocator.BootMaxPhysicalAddress | bootloader/x86_64/bios/common/src/bump_frame_allocator.rs:50-58 | `max_physical_address` panics (None) exactly when no region follows the start region, and otherwise bounds the end of every region that follows |
| StreamFrameAllocator.BootMaxMissesStartRegion | bootloader/x86_64/bios/common/src/bump_frame_allocator.rs:43-58 | starting inside the only region leaves nothing to take the maximum over, so `max_physical_address` panics |
| StreamFrameAllocator.MaxOverMap | bootloader/x86_64/bios/common/src/bump_frame_allocator.rs:50-58 | the maximum over the whole map is the largest region end, and exists exactly when the map is nonempty |
| StreamFrameAllocator.MaxOverMapCoversStart | bootloader/x86_64/bios/common/src/bump_frame_allocator.rs:30-58 | once the allocator starts inside a region, the maximum over the whole map exists and bounds that region's end |
| StreamFrameAllocator.FindFitting | x86_64/src/frame_allocator.rs:60-69 | the search finds the first usable region that holds a whole frame, or none |
| StreamFrameAllocator.AllocateExclusive | x86_64/src/frame_allocator.rs:51-75 | the corrected `allocate_frame` returns None exactly when there is no current region, and otherwise the current frame |
| StreamFrameAllocator.ExclusiveStep | x86_64/src/frame_allocator.rs:51-75 | a frame the corrected allocator returns lies wholly in a usable region, and the next frame it hands out lies above it; exhaustion is final |
| StreamFrameAllocator.RunAbove | x86_64/src/frame_allocator.rs:51-75 | every frame a later corrected allocation returns lies at or above the current next frame |
| StreamFrameAllocator.ExclusiveIncreasing | x86_64/src/frame_allocator.rs:51-75 | the corrected allocator returns strictly increasing frames, so it never returns a frame twice |
| StreamFrameAllocator.StartIsGood | x86_64/src/frame_allocator.rs:26-43 | on a sorted map with aligned starts, starting at a frame that fits in its region gives a state from which the corrected allocator is sound |
| FreeListAllocator.New | x86_64/src/paging/linked_list_frame_allocator.rs:61-67 | `new` has an empty free list, a size of 0, and a size that matches the list |
| FreeListAllocator.Pages | x86_64/src/paging/linked_list_frame_allocator.rs:88 | `range_inclusive(...).iter()` yields `count` consecutive pages starting at the first one |
| FreeListAllocator.RegionNodesInRegion | x86_64/src/paging/linked_list_frame_allocator.rs:83-99 | every node pushed for a region, less the offset, is a frame-aligned address inside the region |
| FreeListAllocator.PushAll | util/src/intrusive_linked_list.rs:193-211 | pushing nodes one by one at the front adds exactly those nodes, as a multiset, and leaves the last one pushed at the front |
| FreeListAllocator.PushAllPanics | util/src/intrusive_linked_list.rs:195 | pushing panics exactly when some node would go onto a head equal to it: the old head followed by the nodes has two equal neighbours |
| FreeListAllocator.RepeatSplit | util/src/intrusive_linked_list.rs:195 | two equal neighbours in `a + b` lie inside `a`, or inside `b` with the last element of `a` in front |
| FreeListAllocator.InitFrom | x86_64/src/paging/linked_list_frame_allocator.rs:75-100 | a loop that does not panic adds exactly the nodes it counts to the list |
| FreeListAllocator.InitFromPanics | x86_64/src/paging/linked_list_frame_allocator.rs:75-100 | the loop panics exactly when a usable region starts off a frame boundary or is empty at address 0 (where `end - 1` underflows), or when some node would be pushed onto an equal head |
| FreeListAllocator.Init | x86_64/src/paging/linked_list_frame_allocator.rs:69-106 | `init` panics exactly on a bad usable region (off a frame boundary, or empty at address 0) or a node pushed onto an equal head; otherwise it records the offset, and the list grows by the count it stores |
| FreeListAllocator.InitSortedPanics | x86_64/src/paging/linked_list_frame_allocator.rs:69-106 | on a sorted, non-overlapping map with a page-aligned offset, `init` of a new allocator panics exactly on a bad usable region: the head check never fires |
| FreeListAllocator.InitFromSucceeds | x86_64/src/paging/linked_list_frame_allocator.rs:75-100 | on a sorted, non-overlapping map without a bad region and with an aligned offset, the loop does not panic while the head lies below every region still to come |
| FreeListAllocator.PushRegionBelow | x86_64/src/paging/linked_list_frame_allocator.rs:83-99 | pushing a good region's nodes onto a list whose head lies below the region does not panic and leaves a head below the region's end |
| FreeListAllocator.InitAdjacentRegionsClash | x86_64/src/paging/linked_list_frame_allocator.rs:83-97 | with offset 0x800, two adjacent aligned regions both push the page at 0x2000, and `init` panics in `push_front` |
| FreeListAllocator.InitFromNodes | x86_64/src/paging/linked_list_frame_allocator.rs:75-100 | every node on the list after `init` was there before or belongs to a page of a usable region |
| FreeListAllocator.InitFreshIsSound | x86_64/src/paging/linked_list_frame_allocator.rs:69-106 | after `init` on a new allocator, the size matches the list and every node, less the offset, is a frame in a usable region |
| FreeListAllocator.NodeInUsableRegion | x86_64/src/paging/linked_list_frame_allocator.rs:83-99 | a node pushed for a usable, aligned region lies above the offset and, less the offset, is a frame of that region |
| FreeListAllocator.AllocateFrame | x86_64/src/paging/linked_list_frame_allocator.rs:110-120 | `allocate_frame` of an empty list returns None; otherwise it pops the first node, drops the size by one, and returns the frame holding the node's address less the offset |
| FreeListAllocator.DeallocateFrame | x86_64/src/paging/linked_list_frame_allocator.rs:122-130 | `deallocate_frame` panics exactly when the frame's node is already the head of the list; otherwise it pushes the node at the front and grows the size by one |
| FreeListAllocator.PushOne | util/src/intrusive_linked_list.rs:193-211 | one `push_front` panics on a node equal to the head and otherwise puts the node in front |
| FreeListAllocator.AllocateConsistent | x86_64/src/paging/linked_list_frame_allocator.rs:110-120 | on a consistent allocator, `allocate_frame` never underflows the size, returns a frame exactly when the list is nonempty, and stays consistent |
| FreeListAllocator.DeallocateConsistent | x86_64/src/paging/linked_list_frame_allocator.rs:122-130 | a `deallocate_frame` that does not panic keeps the size equal to the length of the list |
| FreeListAllocator.DeallocateThenAllocate | x86_64/src/paging/linked_list_frame_allocator.rs:110-130 | freeing an aligned frame without a panic and allocating again returns that frame and restores the allocator |
| FreeListAllocator.AllocatedFrameLeavesList | x86_64/src/paging/linked_list_frame_allocator.rs:110-120 | on a list without duplicates, the frame just allocated is no longer on the list |
| FreeListAllocator.AllocateKeepsDistinct | x86_64/src/paging/linked_list_frame_allocator.rs:110-120 | allocating keeps a list free of duplicates |
| FreeListAllocator.DeallocateKeepsDistinct | x86_64/src/paging/linked_list_frame_allocator.rs:122-130 | freeing a frame whose node is not on the list never panics and keeps the list free of duplicates |
| FreeListAllocator.DoubleFreePanics | x86_64/src/paging/linked_list_frame_allocator.rs:122-130 | freeing the same frame twice in a row panics the second time, when its node is the head |
| FreeListAllocator.DoubleFreeDuplicates | x86_64/src/paging/linked_list_frame_allocator.rs:122-130 | the head check is the only guard: freeing `f`, another frame `g`, then `f` again succeeds and leaves the node of `f` on the list twice |
| FreeListAllocator.PushAllDistinct | x86_64/src/paging/linked_list_frame_allocator.rs:90-99 | pushing distinct new nodes onto a list without duplicates never panics and keeps the list free of duplicates |
| FreeListAllocator.RegionNodesDistinct | x86_64/src/paging/linked_list_frame_allocator.rs:83-99 | the nodes pushed for one region are distinct and lie within the region shifted by the offset |
| FreeListAllocator.InitFromDistinct | x86_64/src/paging/linked_list_frame_allocator.rs:75-100 | on a sorted, disjoint map, the loop pushes no address twice |
| FreeListAllocator.PushRegion | x86_64/src/paging/linked_list_frame_allocator.rs:75-100 | pushing one usable region onto a distinct list below it never panics, keeps the list free of duplicates and below the next region's start |
| FreeListAllocator.InitFreshDistinct | x86_64/src/paging/linked_list_frame_allocator.rs:69-106 | on a sorted, disjoint map, `init` of a new allocator gives a list without duplicates |
| RangeAllocator.New | util/src/range_allocator.rs:11-16 | `new` keeps the total range and holds no allocated range |
| RangeAllocator.ContainsRangeByPoints | util/src/range_allocator.rs:61-63 | for a nonempty range, `contains_range` holds exactly when every point of the range lies in the total range |
| RangeAllocator.OverlapByPoints | util/src/range_allocator.rs:65-67 | for nonempty ranges, `ranges_overlap` is symmetric and holds exactly when some point lies in both |
| RangeAllocator.ContainsRange | util/src/range_allocator.rs:61-63 | `contains_range`; RangeAllocator.ContainsRangeByPoints states its meaning |
| RangeAllocator.RangesOverlap | util/src/range_allocator.rs:65-67 | `ranges_overlap`; RangeAllocator.OverlapByPoints states its meaning |
| RangeAllocator.ChainOrder | util/src/range_allocator.rs:5-8 | the stored ranges, in key order, are nonempty, inside their bounds, and each ends before the next starts |
| RangeAllocator.ValidDisjoint | util/src/range_allocator.rs:5-8 | in a valid allocator, two distinct stored ranges never overlap, and each is nonempty and inside the total range |
| RangeAllocator.Insert | util/src/range_allocator.rs:76 | `BTreeMap::insert` stores the range, keeps every range with another start, and adds nothing else |
| RangeAllocator.Lookup | util/src/range_allocator.rs:84 | `BTreeMap::get` finds the stored range with the given start, and None exactly when there is none |
| RangeAllocator.Delete | util/src/range_allocator.rs:86 | `BTreeMap::remove` keeps every range with another start and adds nothing |
| RangeAllocator.InsertChain | util/src/range_allocator.rs:76 | inserting a nonempty range that overlaps nothing keeps the stored ranges sorted and disjoint |
| RangeAllocator.DeleteChain | util/src/range_allocator.rs:86 | removing a key keeps the stored ranges sorted and disjoint |
| RangeAllocator.DeleteInsert | util/src/range_allocator.rs:76-86 | inserting a range under a fresh start and removing that start gives back the stored ranges |
| RangeAllocator.TryAllocateRange | util/src/range_allocator.rs:69-81 | `try_allocate_range` succeeds exactly when the range overlaps no stored range and lies in the total range; it then stores the range and keeps the others, and on failure changes nothing |
| RangeAllocator.DeallocateRange | util/src/range_allocator.rs:83-91 | `deallocate_range` succeeds exactly when the very range is stored under its start; it then removes it and keeps the others, and on failure changes nothing |
| RangeAllocator.DeallocateValid | util/src/range_allocator.rs:83-91 | deallocating keeps a valid allocator valid, and a deallocated range is no longer stored |
| RangeAllocator.DeleteRemovesKey | util/src/range_allocator.rs:86 | after `remove`, no stored range starts at the key |
| RangeAllocator.FreshKey | util/src/range_allocator.rs:69-81 | in a valid allocator, a nonempty range that overlaps nothing has a start that no stored range has |
| RangeAllocator.EmptyRangeOverwrites | util/src/range_allocator.rs:69-81 | `try_allocate_range` accepts the empty range 0..0, which overlaps nothing, and its insert replaces the stored 0..400, which can then no longer be freed |
| RangeAllocator.TryAllocateRangeChecked | util/src/range_allocator.rs:69-81 | with an emptiness check, allocation succeeds exactly for a nonempty range that overlaps nothing and lies in the total range, and failure changes nothing |
| RangeAllocator.CheckedRangeRoundTrip | util/src/range_allocator.rs:69-91 | with the check, allocation keeps the allocator valid, and freeing a range just allocated restores the allocator exactly |
| RangeAllocator.InsertedFound | util/src/range_allocator.rs:76-84 | after an insert, looking up its start finds the inserted range |
| RangeAllocator.ScanBest | util/src/range_allocator.rs:24-41 | the best-fit loop picks a hole that fits, with the smallest leftover; among equal leftovers it picks the first; and it keeps the earlier choice when no hole beats the current leftover |
| RangeAllocator.TryAllocateSize | util/src/range_allocator.rs:18-59 | a range `try_allocate_size` returns has the requested size, lies in the total range, and is stored with the others kept; a None changes nothing |
| RangeAllocator.ScanPicksFit | util/src/range_allocator.rs:24-41 | the hole the loop picks always fits the request before the next stored range |
| RangeAllocator.Scan | util/src/range_allocator.rs:24-41 | the best-fit loop; RangeAllocator.ScanBest and RangeAllocator.ScanPicksFit state what it picks |
| RangeAllocator.BestFit | util/src/range_allocator.rs:18-59 | when some hole between stored ranges fits, the result starts at the best-fitting one (smallest leftover, first among equals); otherwise it starts after the last stored range |
| RangeAllocator.AllocatedSizeDisjoint | util/src/range_allocator.rs:18-59 | in a valid allocator, a range `try_allocate_size` returns overlaps no stored range |
| RangeAllocator.TryAllocateSizeChecked | util/src/range_allocator.rs:18-59 | the corrected `try_allocate_size` refuses size 0 and otherwise behaves as written |
| RangeAllocator.CheckedSizeRoundTrip | util/src/range_allocator.rs:18-91 | the corrected `try_allocate_size` keeps the allocator valid, and freeing what it returned restores the allocator exactly |
| RangeAllocator.ZeroSizeOverwrites | util/src/range_allocator.rs:18-59 | as written, size 0 yields 0..0, and the next allocation of 100 bytes at 0 replaces it, so 0..0 can no longer be freed |
| RangeAllocator.InsertAt | util/src/range_allocator.rs:76 | inserting a range whose start lies between the keys before and after puts it between them |
| RangeAllocator.DeleteAt | util/src/range_allocator.rs:84-86 | a range stored between others is found by its start, and removing that start leaves the others in order |
| RangeAllocator.RangeScenario | util/src/range_allocator.rs:185-228 | the range test's sequence: allocate and free 0..1000; allocate 0..400 and 700..1000; refuse 500..701; allocate and free 500..600; allocate 400..700; leaving three ranges that fill 0..1000 |
| RangeAllocator.WholeRangeRoundTrip | util/src/range_allocator.rs:192-201 | allocating the whole range and freeing it restores a new allocator, after which 0..400 can be allocated |
| RangeAllocator.AcceptBetween | util/src/range_allocator.rs:69-81 | a nonempty range inside the total range that fits between the stored ranges is accepted and stored in its place |
| RangeAllocator.AddAdjacent | util/src/range_allocator.rs:203-207 | with 0..400 stored, 700..1000 is accepted |
| RangeAllocator.AddBetween | util/src/range_allocator.rs:215-219 | with 0..400 and 700..1000 stored, 500..600 is accepted between them |
| RangeAllocator.RemoveMiddle | util/src/range_allocator.rs:221 | freeing 500..600 from between 0..400 and 700..1000 leaves the other two |
| RangeAllocator.AddFilling | util/src/range_allocator.rs:223-227 | with 0..400 and 700..1000 stored, 400..700 is accepted and fills the gap |
| RangeAllocator.ExactHoleFirst | util/src/range_allocator.rs:154-161 | with 0..200, 400..600 and 700..900 stored, a request for 100 bytes picks the exact hole at 600 over the larger one at 200 |
| RangeAllocator.NextHole | util/src/range_allocator.rs:162-169 | with 0..200, 400..600, 600..700 and 700..900 stored, a request for 200 bytes picks the hole at 200 |
| RangeAllocator.TailUsed | util/src/range_allocator.rs:171-178 | with every hole taken below 900, no hole fits 100 bytes and the request goes after the last range, at 900 |
| RangeAllocator.ScanNoFit | util/src/range_allocator.rs:24-41 | when no hole fits, the loop picks nothing |
| RangeAllocator.ScanCheckedAgrees | util/src/range_allocator.rs:24-41 | the loop with u64 sums panics iff some hole's `last_end + size` at line 28 overflows, and otherwise picks what the unbounded loop picks |
| RangeAllocator.TryAllocateSizeAsWritten | util/src/range_allocator.rs:18-59 | `try_allocate_size` with u64 sums panics iff the sum at line 28 or 46 overflows, and otherwise returns what the unbounded model returns |
| RangeAllocator.SmallSizeNoOverflow | util/src/range_allocator.rs:18-59 | when the total range's end plus the size fits in u64, the sums never overflow |
| RangeAllocator.HugeSizePanics | util/src/range_allocator.rs:46 | a request of `u64::MAX` bytes from an empty allocator over `0x1000..u64::MAX` panics in the final sum, where the unbounded model reports no range |
| VirtualRegions.IntoEntryFlags | kernel/src/memory/region.rs:31-41 | An access mode sets WRITABLE exactly when it is writable and NO_EXECUTE exactly when it is not executable, and no other bit |
| VirtualRegions.FromEntryFlags | kernel/src/memory/region.rs:45-55 | The mode read back from entry flags is writable iff WRITABLE is set and executable iff NO_EXECUTE is clear; other bits are ignored |
| VirtualRegions.AccessFlagsRoundTrip | kernel/src/memory/region.rs:31-55 | Converting an access mode to entry flags and back yields the same mode |
| VirtualRegions.EntryFlagsRoundTrip | kernel/src/memory/region.rs:31-55 | Converting flags to a mode and back keeps exactly the WRITABLE and NO_EXECUTE bits of the flags |
| VirtualRegions.Writable | kernel/src/memory/region.rs:31-41 | the modes that set WRITABLE; VirtualRegions.IntoEntryFlags states the link |
| VirtualRegions.Executable | kernel/src/memory/region.rs:31-41 | the modes that leave NO_EXECUTE clear; VirtualRegions.IntoEntryFlags states the link |
| VirtualRegions.IntoRange | kernel/src/memory/region.rs:115 | A page range becomes the byte range from its first page's start to its last page's end, which is non-empty iff the page range is |
| VirtualRegions.PageCount | kernel/src/memory/region.rs:223-229 | A page range has zero pages iff it is empty, and otherwise its pages laid end to end reach the end of its last page |
| VirtualRegions.IsEmpty | kernel/src/memory/region.rs:223-229 | a page range is empty when its first page is past its last; VirtualRegions.PageCount states it has no pages exactly then |
| VirtualRegions.ByteSize | kernel/src/memory/region.rs:223-229 | The size of a page range in bytes is 4 KiB per page |
| VirtualRegions.Covering | kernel/src/memory/region.rs:145-150 | The page range recorded for an allocated byte range contains every address of that byte range and is not empty |
| VirtualRegions.CoveringExact | kernel/src/memory/region.rs:145-150 | For a page-aligned byte range, the recorded pages convert back to exactly that byte range |
| VirtualRegions.Consecutive | kernel/src/memory/manager.rs:171-178 | The i-th mapping request puts the i-th frame on the i-th page from the first page, with the given flags |
| VirtualRegions.ConsecutiveCovers | kernel/src/memory/manager.rs:171-178 | Mapping frames onto consecutive pages maps exactly the addresses from the first page up to the end of the last one |
| VirtualRegions.ConsecutiveLayout | kernel/src/memory/manager.rs:171-178 | Consecutive requests for `size` bytes of frames cover exactly those bytes and use the frames in order |
| VirtualRegions.NewTree | kernel/src/memory/region.rs:92-96 | A new region tree holds no regions |
| VirtualRegions.AddRegion | kernel/src/memory/region.rs:98-101 | Adding a region keeps the existing regions in place and appends one of the given type whose allocator manages the whole range, with nothing allocated and no sub-regions |
| VirtualRegions.FindFrom | kernel/src/memory/region.rs:112 | The search returns the first position of a region of the type at or after the start position, or None iff there is none |
| VirtualRegions.Find | kernel/src/memory/region.rs:112 | The region found is the first of its type, and None means no region has that type |
| VirtualRegions.FindSameTypes | kernel/src/memory/region.rs:112 | Two trees whose regions have the same types in the same order find the same region |
| VirtualRegions.TryAllocateRangeInRegion | kernel/src/memory/region.rs:103-125 | No region of the type gives Other and an unchanged tree; a range that overlaps an allocation or leaves the region gives InvalidRange and an unchanged tree; otherwise only the found region changes, it records the range under the name and its allocator holds it |
| VirtualRegions.TryAllocateSizeInRegion | kernel/src/memory/region.rs:127-161 | Size 0 gives InvalidSize and no region of the type gives Other, both with the tree unchanged; an allocator without room gives OutOfVirtualMemory; otherwise only the found region changes, and it records the pages covering the allocated bytes under the name |
| VirtualRegions.TryDeallocateFromRegion | kernel/src/memory/region.rs:163-178 | Succeeds iff a region of the type records the name; then it returns that range, drops the name and frees the range in that region only; otherwise the tree is unchanged and the error is InvalidRegion |
| VirtualRegions.AddRegionValid | kernel/src/memory/region.rs:98-101 | Adding a region keeps the tree's invariant: each allocator valid and page-aligned, each recorded name owning an allocated range |
| VirtualRegions.SizeAllocationAligned | kernel/src/memory/region.rs:141-151 | A page-aligned allocator hands out page-aligned byte ranges by size and stays page-aligned |
| VirtualRegions.AllocateSizeKeepsValid | kernel/src/memory/region.rs:127-161 | Allocating by size keeps the tree's invariant |
| VirtualRegions.AllocateRangeKeepsValid | kernel/src/memory/region.rs:103-125 | Allocating a non-empty page range keeps the tree's invariant |
| VirtualRegions.DeallocateKeepsValid | kernel/src/memory/region.rs:163-178 | Deallocating by name keeps the tree's invariant |
| VirtualRegions.SizeRoundTrip | kernel/src/memory/region.rs:127-178 | Allocating by size under a fresh name and then freeing that name gives back the original tree and the same page range |
| VirtualRegions.RangeRoundTrip | kernel/src/memory/region.rs:103-178 | Allocating a non-empty page range under a fresh name and then freeing that name gives back the original tree and the range |
| VirtualRegions.SameNameLosesRange | kernel/src/memory/region.rs:153-155 | A second allocation under the same name replaces the recorded range with a different one, while the first range stays allocated in the region's allocator |
| VirtualRegions.Start | kernel/src/memory/region.rs:211-217 | A stack region starts one page after its first page, so the guard page is skipped; any other region starts at its first page |
| VirtualRegions.End | kernel/src/memory/region.rs:219-221 | A region ends where its page range's byte range ends |
| VirtualRegions.Size | kernel/src/memory/region.rs:223-229 | A stack's size is one page less than its range; for a stack with no pages the subtraction underflows (None); any other region's size is its range's |
| VirtualRegions.StartSizeEnd | kernel/src/memory/region.rs:211-229 | For a non-empty range, start plus size is end |
| VirtualRegions.ContainsBetweenStartEnd | kernel/src/memory/region.rs:239-241 | An address is contained iff it lies in [start, end) or, for a stack, in the guard page just below start |
| VirtualRegions.Contains | kernel/src/memory/region.rs:239-241 | `contains`; VirtualRegions.ContainsBetweenStartEnd states which addresses it accepts |
| MemoryManager.TryAllocateFrames | kernel/src/memory/manager.rs:191-199 | Succeeds iff the allocator has `amt` frames, returning them in the order they are handed out; otherwise the error is OutOfPhysicalMemory and the frames taken are lost |
| MemoryManager.RegionSize | kernel/src/memory/manager.rs:143-146 | A stack reserves one more page than its data, any other region exactly its data, and the size stays page-aligned |
| MemoryManager.GuardCalls | kernel/src/memory/manager.rs:156-167 | A stack gets one request mapping frame 0 on its first page with no flags; other regions get none |
| MemoryManager.AllocateKernelRegionWithSize | kernel/src/memory/manager.rs:132-185 | Too few frames gives OutOfPhysicalMemory with the allocator drained; any error leaves the tree unchanged; success consumes exactly size/4 KiB frames |
| MemoryManager.PlacedPages | kernel/src/memory/region.rs:127-161 | A successful placement of a non-zero page-aligned size covers one page per 4 KiB of it |
| MemoryManager.RegionBounds | kernel/src/memory/region.rs:211-229 | A region placed on the pages reserved for `size` bytes has size `size` and spans exactly from start to end |
| MemoryManager.LayoutOf | kernel/src/memory/manager.rs:155-178 | The guard request of a stack followed by the frames mapped from start meet the layout: the frames in order cover exactly the region's bytes, with the requested access |
| MemoryManager.StackPieces | kernel/src/memory/manager.rs:132-185 | A successful stack allocation uses the first size/4 KiB frames of the allocator on the placed pages, after the guard request |
| MemoryManager.StackRegionLayout | kernel/src/memory/manager.rs:132-185 | A stack allocation never panics; on success its frames map exactly [start, end) in allocation order and its first page gets the non-present guard entry |
| MemoryManager.NonStackPanics | kernel/src/memory/manager.rs:169 | For any other region type, once frames and a virtual range are found, the page-count assertion fails |
| MemoryManager.AllocateKernelRegion | kernel/src/memory/manager.rs:132-185 | The corrected allocation has the same error behaviour and frame consumption as the original |
| MemoryManager.KernelRegionNoPanic | kernel/src/memory/manager.rs:169 | On a valid tree the corrected allocation never panics, whatever the region type |
| MemoryManager.KernelRegionPieces | kernel/src/memory/manager.rs:132-185 | A successful corrected allocation is the tree placement of the region size plus the first frames mapped from start, after the guard request for a stack |
| MemoryManager.KernelRegionLayout | kernel/src/memory/manager.rs:132-185 | On success the region has the requested size and its frames, in allocation order, map exactly its bytes with the requested access |
| MemoryManager.KernelRegionRecorded | kernel/src/memory/manager.rs:148-153 | The tree records the region's page range under its name in the first region of its type |
| MemoryManager.KernelRegionFreed | kernel/src/memory/manager.rs:148-153 | Freeing the name of a newly allocated region gives back the original tree and the region's page range |
| KernelHeap.InitHeapAt | kernel/src/allocator.rs:21-61 | The heap set-up panics iff there are fewer frames than heap pages plus one guard page |
| KernelHeap.InitHeapAtLayout | kernel/src/allocator.rs:26-60 | For a page-aligned heap of n pages, it panics iff fewer than n+1 frames are available; otherwise the first n frames map exactly the heap's bytes in order with PRESENT, WRITABLE and NO_EXECUTE, frame n+1 maps the page after the heap with no flags, and the heap allocator gets the heap's start and size |
| KernelHeap.InitHeapLayout | kernel/src/allocator.rs:15-61 | The 100 KiB kernel heap at 0x4444_4444_0000 takes 25 pages plus a guard: it panics iff fewer than 26 frames are available, and otherwise it has the layout above |
| KernelHeap.InitHeap | kernel/src/allocator.rs:21-61 | `init_heap` at the fixed start and size; KernelHeap.InitHeapLayout states when it panics and the layout it builds |
| KernelStacks.AllocStack | kernel/src/allocator/stack_allocator.rs:19-70 | Panics iff `pagesCnt` is 0 or the range has room but frames run out; returns None iff `pagesCnt` > 0 and the range lacks a guard page plus `pagesCnt` pages, and None changes nothing |
| KernelStacks.AllocStackLayout | kernel/src/allocator/stack_allocator.rs:29-59 | A successful allocation maps `pagesCnt` fresh frames in order, writable, onto exactly the pages after the guard page; the guard is not mapped, and the allocator keeps the pages after the stack |
| KernelStacks.RemainingPages | kernel/src/allocator/stack_allocator.rs:43 | Dropping k pages from the front of a range leaves k fewer pages |
| KernelStacks.StackSpanHitsGuard | kernel/src/allocator/stack_allocator.rs:63-66 | As written, the bytes [top - len, top) begin at the unmapped guard page, while the top itself is a mapped address |
| KernelStacks.OnePageStackUnmapped | kernel/src/allocator/stack_allocator.rs:33-34 | As written, a one-page stack has no mapped byte below its top |
| KernelStacks.AllocStackTopAtEnd | kernel/src/allocator/stack_allocator.rs:19-70 | With the top moved to the end of the last page, panics, failures, frames used and mapping calls are exactly those of the original |
| KernelStacks.StackSpanMapped | kernel/src/allocator/stack_allocator.rs:61-66 | With the corrected top, the bytes below the top are exactly the stack's mapped pages, starting one page after the guard |
| KernelStacks.NextStackAbove | kernel/src/allocator/stack_allocator.rs:43 | For every address the first stack maps, a second stack from the same allocator maps neither that address nor the one a page above it, so its guard page separates the two |
| Elf.ParseHeaderWith | util/src/elf_loader/elf.rs:142-209 | A header parses iff it has 64 bytes and passes every identification check, and then holds exactly the little-endian fields at their offsets; a wrong magic is reported iff the first four bytes differ; every failure is a header error; a panic (slice out of range) happens only on an input shorter than 64 bytes |
| Elf.HeaderErrors | util/src/elf_loader/elf.rs:146-173 | Each of the class, endianness, version, ABI, type and machine errors is reported iff its check is the first one to fail |
| Elf.ClassReportedAsType | util/src/elf_loader/elf.rs:150-153 | As written, a 32-bit file is rejected with InvalidElfType, and no input at all yields InvalidClass |
| Elf.HeaderVersionsAgree | util/src/elf_loader/elf.rs:146-173 | The as-written and corrected parsers differ iff the magic is right and the class byte is not 64-bit, and then only in InvalidClass against InvalidElfType |
| Elf.HeaderRoundTrip | util/src/elf_loader/elf.rs:142-209 | Parsing the 64 encoded bytes of a header with in-range fields, for every type 0 to 4, gives the header back |
| Elf.ParseHeaderAsWritten | util/src/elf_loader/elf.rs:142-209 | `ElfHeader::new` as written; Elf.ClassReportedAsType states it reports a bad class as InvalidElfType |
| Elf.ParseHeader | util/src/elf_loader/elf.rs:142-209 | `ElfHeader::new` with the class error named; Elf.HeaderErrors and Elf.HeaderRoundTrip state its errors and its inverse |
| Elf.SegmentTypeOf | util/src/elf_loader/elf.rs:287-304 | A segment type value decodes iff it is 0 to 7 or one of the three GNU values 0x6474e550 to 0x6474e552 |
| Elf.SegmentTypeRoundTrip | util/src/elf_loader/elf.rs:287-304 | Decoding a type's value gives the type, and a value that decodes is that type's value |
| Elf.NewSegmentFlags | util/src/elf_loader/elf.rs:317-340 | Flags are accepted iff only R, W and X are set, with executable iff X, writable iff W and readable iff R; otherwise the error is UnknownSegmentFlags |
| Elf.ParseProgramHeader | util/src/elf_loader/elf.rs:412-456 | A program header parses iff it has 0x38 bytes, a known type and an alignment of 0 or a power of two; then every field is the little-endian value at its offset; the only errors are InvalidSegmentType and InvalidAlignment |
| Elf.UnknownSegmentTypeFirst | util/src/elf_loader/elf.rs:416-417 | An unknown segment type is reported even when the header is too short, because the type is read first |
| Elf.UnknownFlagsAccepted | util/src/elf_loader/elf.rs:419-420 | A program header with unknown flag bits still parses, though the checked flags constructor rejects those bits |
| Elf.SectionTypeOf | util/src/elf_loader/elf.rs:531-555 | A section type value decodes iff it is 0 to 11, 14 to 18 or 0x6ffffff6 |
| Elf.SectionTypeRoundTrip | util/src/elf_loader/elf.rs:531-555 | Decoding a section type's value gives the type, and a value that decodes is that type's value |
| Elf.NewSectionFlags | util/src/elf_loader/elf.rs:576-596 | Section flags are accepted iff every bit is a known flag; otherwise the error is InvalidSectionFlags |
| Elf.ParseSectionHeader | util/src/elf_loader/elf.rs:669-715 | A section header parses iff it has 0x40 bytes and a known type; then type, offset, size and entry size are the little-endian values at their offsets; otherwise the error is InvalidHeaderType |
| Elf.TableFrom | util/src/elf_loader/elf.rs:219-233 | The header table read from entry i on has one entry for each of the remaining entries |
| Elf.TableEntries | util/src/elf_loader/elf.rs:229-233 | Position k of a parsed table holds entry i+k, parsed from its offset |
| Elf.TableComplete | util/src/elf_loader/elf.rs:219-227 | A table whose every entry lies inside the input and parses is accepted |
| Elf.TableOffsetError | util/src/elf_loader/elf.rs:219-225 | The first entry that runs past the input, after entries that parse, is reported with the table's offset error |
| Elf.TableErrorOnly | util/src/elf_loader/elf.rs:219-227 | The error chosen for an entry past the end changes nothing but that error |
| Elf.ProgramOffsetReportedAsSection | util/src/elf_loader/elf.rs:221-224 | As written, a program header table whose first entry runs past the end is reported as an invalid section header offset |
| Elf.ProgramOffsetReported | util/src/elf_loader/elf.rs:221-224 | In the corrected version, that entry is reported as an invalid program header offset |
| Elf.ProgramVersionsAgree | util/src/elf_loader/elf.rs:211-234 | The as-written and corrected versions agree except that one reports the section offset error where the other reports the program one |
| Elf.ProgramHeadersSpec | util/src/elf_loader/elf.rs:211-234 | Parsed program headers are, in order, the `e_phnum` entries every `e_phentsize` bytes from `e_phoff`; the table is accepted when every entry lies inside the input and parses |
| Elf.SectionHeadersSpec | util/src/elf_loader/elf.rs:236-259 | The same for the `e_shnum` section headers from `e_shoff` |
| Elf.ProgramHeadersAsWritten | util/src/elf_loader/elf.rs:211-234 | `program_headers` as written; Elf.ProgramOffsetReportedAsSection states its misreported error |
| Elf.ProgramHeaders | util/src/elf_loader/elf.rs:211-234 | `program_headers` with the program header error; Elf.ProgramHeadersSpec states which entries it yields |
| Elf.SectionHeaders | util/src/elf_loader/elf.rs:236-259 | `section_headers`; Elf.SectionHeadersSpec states which entries it yields |
| Elf.ParseRel | util/src/elf_loader/elf.rs:791-806 | A Rel entry carries no addend |
| Elf.ParseRela | util/src/elf_loader/elf.rs:808-826 | A Rela entry carries an addend |
| Elf.RelocationFields | util/src/elf_loader/elf.rs:791-826 | An entry parses iff the low 32 bits of `r_info` are a known x86-64 type (at most 16); then its offset, type and symbol are bytes 0-7, 8-11 and 12-15, and a Rela entry's addend is bytes 16-23 |
| Elf.RelaRoundTrip | util/src/elf_loader/elf.rs:808-826 | Parsing the encoding of a Rela entry with in-range fields gives the entry back |
| Elf.EntriesFrom | util/src/elf_loader/elf.rs:875-883 | The entries read from entry i of a relocation section are the remaining ones |
| Elf.SectionRelocations | util/src/elf_loader/elf.rs:875-883 | A section without relocations contributes none; a relocation section with entry size 0 panics on the division; otherwise it contributes size/entsize entries |
| Elf.SectionAddends | util/src/elf_loader/elf.rs:878-881 | Every entry of a Rela section has an addend, and no entry of a Rel section has one |
| Elf.AllRelocationsCount | util/src/elf_loader/elf.rs:868-900 | The relocation entries of a binary number the sum of its relocation sections' entry counts |
| Elf.RelocationEntries | util/src/elf_loader/elf.rs:868-900 | `relocation_entries`: the entries of each Rel or Rela section in order; Elf.AllRelocationsCount and Elf.SectionRelocations state how many each contributes |
| Elf.NewBinary | util/src/elf_loader/elf.rs:850-854 | Creating a binary succeeds iff the header parses, keeping the header and the bytes; it never returns an error, because a header error panics |
| Elf.EntryPoint | util/src/elf_loader/elf.rs:856-858 | `entry_point` returns the header's entry field; Elf.EntryPointField states which bytes that is |
| Elf.EntryPointField | util/src/elf_loader/elf.rs:142-209 | the entry point of a parsed binary is the 8-byte little-endian field at offset 0x18 |
| Elf.LoadableExact | util/src/elf_loader/mod.rs:20-22 | A program header is allocated iff it is one of the binary's headers and is loadable |
| Elf.LoadSpec | util/src/elf_loader/mod.rs:12-28 | A program header error returns that error before any call; a TLS segment panics before any call; otherwise every loadable header is allocated in order, then a relocation error returns it, or every relocation entry is relocated in order and loading succeeds |
| Elf.LoadBinary | util/src/elf_loader/mod.rs:12-28 | `load`; Elf.LoadSpec states the order of its errors, panics and calls |
| KernelLoading.SegmentPageFlags | bootloader/x86_64/bios/stage4/src/elf.rs:144-150 | Segment pages are always PRESENT, NO_EXECUTE iff the segment is not executable, WRITABLE iff it is writable, and carry no other flag |
| KernelLoading.AllocateSegment | bootloader/x86_64/bios/stage4/src/elf.rs:133-245 | The arithmetic of one header panics exactly on the u64 overflows and the `- 1` underflow of lines 134, 137, 141, 168, 188-189 and 216, where line 168's `start_page + frame_offset` panics once the last file frame's page starts at 2^64 and line 189's checked sum `virtual_start_address + mem_size` panics at 2^64 before its `- 1`; otherwise the plan of calls carries the segment flags, and has a partly zeroed page or .bss pages only when memory size exceeds file size |
| KernelLoading.FileMapped | bootloader/x86_64/bios/stage4/src/elf.rs:133-183 | When the physical and virtual starts share an in-page offset, the frame holding each file byte is mapped at the page holding that byte's virtual address |
| KernelLoading.FileMappingsDistinct | bootloader/x86_64/bios/stage4/src/elf.rs:165-183 | The file mappings use strictly increasing frames and pages, so no page is mapped twice |
| KernelLoading.BssPages | bootloader/x86_64/bios/stage4/src/elf.rs:216-245 | A fresh zeroed frame goes exactly to the pages that start inside [virtual start + file size, virtual start + memory size) |
| KernelLoading.BssZeroed | bootloader/x86_64/bios/stage4/src/elf.rs:186-245 | Every .bss byte is either in the partly zeroed last file page, at or after the zeroing offset, or in a fresh page, and the zeroing starts exactly at the end of the file data |
| KernelLoading.BssAfterFile | bootloader/x86_64/bios/stage4/src/elf.rs:191-203 | With congruent offsets, the partly zeroed page is the last file-backed page, and every fresh .bss page lies above every file page |
| KernelLoading.AllocateAll | bootloader/x86_64/bios/stage4/src/elf.rs:124-250 | When allocation completes, there is one plan per segment |
| KernelLoading.AllocateAllSegments | bootloader/x86_64/bios/stage4/src/elf.rs:124-250 | Allocation completes iff no segment's arithmetic panics, and then holds each segment's plan in order |
| KernelLoading.MapFileSpec | bootloader/x86_64/bios/stage4/src/elf.rs:165-183 | The file loop panics (`expect` at 181) iff a page is already mapped or repeated; otherwise every file page maps to its frame and earlier mappings stay |
| KernelLoading.MapBssSpec | bootloader/x86_64/bios/stage4/src/elf.rs:231-245 | The .bss loop panics iff the frame allocator runs dry (`expect` at 235) or a page is already mapped or repeated (243); otherwise page k gets the k-th free frame, earlier mappings stay, and exactly those frames are used up |
| KernelLoading.RunSegmentSpec | bootloader/x86_64/bios/stage4/src/elf.rs:165-245 | One segment's calls complete iff the file pages are fresh, the partly zeroed page translates (`expect` at 203), and the .bss loop can complete; then the table gains exactly the segment's pages with their frames and keeps all earlier entries |
| KernelLoading.MapFile | bootloader/x86_64/bios/stage4/src/elf.rs:165-183 | the file loop; KernelLoading.MapFileSpec states when it panics and what it maps |
| KernelLoading.MapBss | bootloader/x86_64/bios/stage4/src/elf.rs:231-245 | the .bss loop; KernelLoading.MapBssSpec states when it panics and which frames it uses |
| KernelLoading.RunSegment | bootloader/x86_64/bios/stage4/src/elf.rs:165-245 | one segment's calls; KernelLoading.RunSegmentSpec states when they complete and what they map |
| KernelLoading.LoadSegment | bootloader/x86_64/bios/stage4/src/elf.rs:133-245 | `allocate` for one header: AllocateSegment's arithmetic, then RunSegment; their rows state each half |
| KernelLoading.LoadAll | bootloader/x86_64/bios/stage4/src/elf.rs:124-250 | `allocate` over the loadable headers; KernelLoading.LoadAllKeeps and KernelLoading.LoadAllMapsFiles state what it keeps and maps |
| KernelLoading.CongruentSegmentLoads | bootloader/x86_64/bios/stage4/src/elf.rs:124-250 | For a segment with the same in-page offset in the image and in memory, loading completes iff its arithmetic does not panic, none of its pages is mapped yet, and there are enough free frames for its .bss |
| KernelLoading.LoadAllKeeps | bootloader/x86_64/bios/stage4/src/elf.rs:124-250 | Loading all segments never changes or removes an existing mapping |
| KernelLoading.LoadAllMapsFiles | bootloader/x86_64/bios/stage4/src/elf.rs:124-250 | After loading completes, each file byte of each congruent segment is reachable: its virtual page maps to the frame holding its image byte |
| KernelLoading.BssWithoutFramesPanics | bootloader/x86_64/bios/stage4/src/elf.rs:231-235 | A segment with a .bss page and no free frame panics in the .bss loop although its arithmetic and file mapping are fine |
| KernelLoading.MemSizeSumPanics | bootloader/x86_64/bios/stage4/src/elf.rs:189 | A .bss whose virtual start plus memory size is exactly 2^64 panics in the checked sum before the `- 1`, while one byte less completes |
| KernelLoading.PageSumPanics | bootloader/x86_64/bios/stage4/src/elf.rs:165-168 | A congruent segment without .bss whose two file pages are the last page below 2^64 and the next one panics in `start_page + frame_offset` for its second frame, while the same segment with one file page completes |
| KernelLoading.CongruentPageSum | bootloader/x86_64/bios/stage4/src/elf.rs:165-168 | With congruent offsets, the page of the last file frame reaches 2^64 exactly when the file bytes placed at the virtual start run past 2^64 |
| KernelLoading.RelocationValue | bootloader/x86_64/bios/stage4/src/elf.rs:64-68 | The relocated value is the 8 little-endian bytes whose value is base plus addend, for a sum below 2^64 |
| KernelLoading.RelocationOverflowPanics | bootloader/x86_64/bios/stage4/src/elf.rs:64-74 | A relocation whose `virtual_base + addend` or `virtual_base + offset + 8` exceeds u64 panics before any write, in both versions |
| KernelLoading.WritesSingle | bootloader/x86_64/bios/stage4/src/elf.rs:76-113 | A value inside one page is one write of all 8 bytes at its in-page offset in that page's frame |
| KernelLoading.WritesSplit | bootloader/x86_64/bios/stage4/src/elf.rs:93-112 | A value that crosses a page end is split there: its head goes at the in-page offset of the first frame and the rest at offset 0 of the next |
| KernelLoading.RelativeStores | bootloader/x86_64/bios/stage4/src/elf.rs:63-114 | A RELATIVE relocation with an addend and mapped pages stores each byte of the value at the physical address translating its virtual address |
| KernelLoading.RelativeUnmappedPanics | bootloader/x86_64/bios/stage4/src/elf.rs:80-83 | If a page holding a byte of the value has no translation, the relocation panics |
| KernelLoading.RelativeAtPageEndAsWritten | bootloader/x86_64/bios/stage4/src/elf.rs:74 | As written, a value that ends exactly at a page end also translates the next page, and panics when that page is unmapped, where the corrected version succeeds |
| KernelLoading.RelativeAtPageEndExample | bootloader/x86_64/bios/stage4/src/elf.rs:74 | With only page 0 mapped, a relocation at offset 0xff8 panics as written and succeeds when corrected |
| KernelLoading.RelativeVersionsAgree | bootloader/x86_64/bios/stage4/src/elf.rs:63-114 | When the value does not end on a page boundary, both versions give the same result |
| KernelLoading.HandleRelativeAsWritten | bootloader/x86_64/bios/stage4/src/elf.rs:63-114 | `handle_relative_relocation` as written; KernelLoading.RelativeAtPageEndAsWritten states its page-end case |
| KernelLoading.HandleRelative | bootloader/x86_64/bios/stage4/src/elf.rs:63-114 | the relocation with the page-end case corrected; KernelLoading.RelativeStores and KernelLoading.RelativeUnmappedPanics state its stores and panics |
| KernelLoading.Relocate | bootloader/x86_64/bios/stage4/src/elf.rs:252-263 | Any relocation type but RELATIVE panics, and so does a RELATIVE one without an addend |
| KernelLoading.KernelEntry | bootloader/x86_64/bios/stage4/src/elf.rs:57 | The entry point returned is the header's entry moved by the load base, and the call panics iff that u64 sum overflows |
| KernelLoading.EntryFromHeader | bootloader/x86_64/bios/stage4/src/elf.rs:53-57 | For a parsed image, the returned entry is the load base plus the little-endian 8-byte field at offset 0x18 |
| KernelLoading.EntryMapped | bootloader/x86_64/bios/stage4/src/elf.rs:48-58 | When the entry lies in the file bytes of a loaded congruent segment, the returned address is mapped to the frame holding the matching image byte |
| Fat.Window | Bootloader/x86_64/common/src/fat.rs:69-71 | A read of `len` bytes at a byte position returns exactly the disk's bytes from that position on |
| Fat.WindowSlice | Bootloader/x86_64/common/src/fat.rs:69-71 | A slice of a window is the window read at that offset |
| Fat.ParseBootSector | Bootloader/x86_64/common/src/fat.rs:68-111 | The parameter block parses (no panic) iff exactly one of the 16-bit and 32-bit total-sector fields is zero; a parsed block has in-range fields, and a FAT12/16 block has a zero 32-bit FAT size and root cluster |
| Fat.BootSectorRoundTrip | Bootloader/x86_64/common/src/fat.rs:68-111 | Parsing the boot sector a formatter writes for a well-formed parameter block gives that block back |
| Fat.ParseFields | Bootloader/x86_64/common/src/fat.rs:73-94 | Any sector whose little-endian fields at offsets 11 to 47 hold a well-formed block's values parses to that block |
| Fat.ReadSectors | Bootloader/x86_64/common/src/fat.rs:69-71 | a seek to a sector then `read_exact` of `len` bytes yields exactly the disk's `len` bytes from that sector's first byte |
| Fat.ParseBpb | Bootloader/x86_64/common/src/fat.rs:68-111 | `Bpb::parse` decodes sector 0; Fat.ParseBpbRoundTrip states it inverts the encoding |
| Fat.ParseBpbRoundTrip | Bootloader/x86_64/common/src/fat.rs:68-111 | a partition whose sector 0 holds an encoded boot sector parses back to that boot sector |
| Fat.RootDirSectors | Bootloader/x86_64/common/src/fat.rs:113-117 | With a non-zero sector size, the root directory takes the fewest whole sectors holding its 32-byte entries; a zero sector size divides by zero |
| Fat.FatSize | Bootloader/x86_64/common/src/fat.rs:132-139 | The FAT size is defined iff exactly one of the two size fields is non-zero, and it is that field |
| Fat.FirstRootDirSector | Bootloader/x86_64/common/src/fat.rs:158-160 | The root directory starts after the reserved sectors and every copy of the FAT |
| Fat.FirstDataSector | Bootloader/x86_64/common/src/fat.rs:152-156 | The data region starts right after the root directory |
| Fat.CountOfClusters | Bootloader/x86_64/common/src/fat.rs:119-130 | The cluster count is defined iff the data region starts within the volume and clusters are non-empty, and it is the number of whole clusters in the data region |
| Fat.FatTypeOf | Bootloader/x86_64/common/src/fat.rs:141-150 | A volume is FAT12 iff it has fewer than 4085 clusters, FAT16 iff it has 4085 to 65524, and FAT32 otherwise |
| Fat.FirstClusterSector | Bootloader/x86_64/common/src/fat.rs:170-172 | A cluster's first sector is defined iff its number is at least 2, where `cluster - 2` does not underflow |
| Fat.ClusterSectors | Bootloader/x86_64/common/src/fat.rs:170-172 | Cluster 2 starts the data region, and each cluster starts one cluster's sectors after the one before it |
| Fat.ClustersDisjoint | Bootloader/x86_64/common/src/fat.rs:170-172 | Distinct clusters occupy disjoint sector ranges |
| Fat.ParseFatEntry | Bootloader/x86_64/common/src/fat.rs:544-557 | A table value is reserved iff it is 0 or 1, bad iff it equals the type's threshold, the end of the file iff it is above the threshold, and otherwise a link to that very cluster |
| Fat.DataClustersBelowThreshold | Bootloader/x86_64/common/src/fat.rs:31-39 | On a FAT12 or FAT16 volume every data cluster number is below the threshold, so a link to it parses as that cluster |
| Fat.GetEntryReadsTable | Bootloader/x86_64/common/src/fat.rs:577-631 | With 512-byte sectors, looking up entry n reads exactly entry n of the table, for every FAT type |
| Fat.GetEntry12 | Bootloader/x86_64/common/src/fat.rs:577-631 | On FAT12, entry n is the 12 bits at bit 12n of the table |
| Fat.GetEntry16 | Bootloader/x86_64/common/src/fat.rs:577-631 | On FAT16, entry n is the 16-bit value at byte 2n of the table |
| Fat.GetEntry32 | Bootloader/x86_64/common/src/fat.rs:577-631 | On FAT32, entry n is the 32-bit value at byte 4n of the table |
| Fat.Fat12Entry | Bootloader/x86_64/common/src/fat.rs:577-631 | The two bytes at n + n/2 hold FAT12 entry n: the low 12 bits for an even n, the high 12 bits for an odd n |
| Fat.GetEntry | Bootloader/x86_64/common/src/fat.rs:577-631 | `get_entry`; Fat.GetEntryReadsTable and Fat.GetEntry12/16/32 state which table bytes it reads |
| Fat.FirstClusterField | Bootloader/x86_64/common/src/fat.rs:268-270 | A first cluster number's high half is the 16-bit field at byte 20 and its low half the one at byte 26 |
| Fat.TakeNonZero | Bootloader/x86_64/common/src/fat.rs:258 | The units kept are the longest prefix with no zero unit |
| Fat.DecodeUtf16 | Bootloader/x86_64/common/src/fat.rs:260 | Decoding yields only Unicode scalar values, and never more characters than units |
| Fat.DecodeBasic | Bootloader/x86_64/common/src/fat.rs:260 | Units without surrogates decode to the same characters |
| Fat.LongNameChain | Bootloader/x86_64/common/src/fat.rs:246-280 | A long-name chain that parses ends in a long-name entry with a name of at most 255 characters, and consumes whole entries up to the end of the buffer |
| Fat.ParseEntryWith | Bootloader/x86_64/common/src/fat.rs:232-305 | A first byte of 0 is the end of the directory and 0xE5 is an unused entry, each 32 bytes; a parsed entry consumes whole entries within the buffer; it is a long-name entry iff the attribute byte is 0x0F |
| Fat.ParseEntryAsWritten | Bootloader/x86_64/common/src/fat.rs:232-305 | `DirectoryEntry::parse` as written; Fat.LongNameOrderAsWritten states its long-name order |
| Fat.ParseEntry | Bootloader/x86_64/common/src/fat.rs:232-305 | the parse with each long-name part prepended; Fat.ParseEntryWith, Fat.ParseEntryPanics and Fat.LongNameOrder state its results |
| Fat.ParseEntryPanics | Bootloader/x86_64/common/src/fat.rs:232-305 | Parsing panics iff the buffer is empty, too short for the attribute byte, too short for a whole 8.3 entry, or holds a long-name chain that runs off the buffer or overflows the name |
| Fat.ShortEntryRoundTrip | Bootloader/x86_64/common/src/fat.rs:288-304 | An encoded 8.3 entry parses back to its name, attributes, first cluster and size, whatever follows it |
| Fat.LongEntryPart | Bootloader/x86_64/common/src/fat.rs:249-263 | A long-name entry encoded with a name part contributes exactly that part |
| Fat.TwoPartName | Bootloader/x86_64/common/src/fat.rs:246-280 | Two long-name entries, stored end first, followed by an 8.3 entry parse as one 96-byte entry with the 8.3 fields, whose name is the two parts in the chosen order |
| Fat.TwoChunkChain | Bootloader/x86_64/common/src/fat.rs:246-280 | Two long-name chunks followed by an 8.3 chunk parse as one long-name entry built from their parts and the 8.3 chunk's fields |
| Fat.ChainStart | Bootloader/x86_64/common/src/fat.rs:241-246 | An entry whose attribute byte is 0x0F starts the long-name chain from the first chunk |
| Fat.ChainLong | Bootloader/x86_64/common/src/fat.rs:248-263 | Each long-name chunk adds its part to the name collected so far |
| Fat.ChainEnd | Bootloader/x86_64/common/src/fat.rs:267-279 | The first chunk without the long-name attribute ends the chain with its attributes, first cluster and size, consuming the chunks up to it |
| Fat.LongNameOrderAsWritten | Bootloader/x86_64/common/src/fat.rs:260-263 | As written, a name stored over two entries parses as `last + first`, which differs from the stored name whenever the parts start differently |
| Fat.LongNameOrder | Bootloader/x86_64/common/src/fat.rs:246-280 | With each part prepended, the name is rebuilt in its stored order |
| FatFiles.RootDirSize | Bootloader/x86_64/common/src/fat.rs:162-164 | The root directory's size fits the u16 result iff it has fewer than 2048 entries, and is then 32 bytes per entry |
| FatFiles.RootEntries | Bootloader/x86_64/common/src/fat.rs:499-533 | The root directory iterator yields only file entries: unused entries are skipped and the end marker stops it |
| FatFiles.FirstMatch | Bootloader/x86_64/common/src/fat.rs:439 | The entry found has the queried name, and none means no entry has it |
| FatFiles.Find | Bootloader/x86_64/common/src/fat.rs:437-439 | An entry found by the search has the queried name |
| FatFiles.FindIsFirstMatch | Bootloader/x86_64/common/src/fat.rs:437-439 | When the whole directory parses, the lazy search finds the first entry of the directory with the name |
| FatFiles.FindPanicsOnlyIfWalkPanics | Bootloader/x86_64/common/src/fat.rs:437-439 | The search panics only if walking the whole directory panics |
| FatFiles.FindFile | Bootloader/x86_64/common/src/fat.rs:415-446 | A lookup finishes only when the root directory fills the 16 KiB buffer exactly and the volume is not FAT32; a file found is the first entry with the name, it is not a directory, and it carries that entry's first cluster and size |
| FatFiles.ChainWalk | Bootloader/x86_64/common/src/fat.rs:673-705 | Every sector a completed cluster walk yields lies in the data region, and there is at most one per step of fuel |
| FatFiles.ChainFuel | Bootloader/x86_64/common/src/fat.rs:673-705 | More fuel changes nothing once the walk has an outcome |
| FatFiles.SizeInSectors | Bootloader/x86_64/common/src/fat.rs:397-399 | The sector count is defined iff `size + 511` fits in a u32, and is then the fewest whole sectors holding the file |
| FatFiles.Copies | Bootloader/x86_64/common/src/fat.rs:471-483 | The k-th copy holds the cluster read at the k-th sector and goes to destination offset k times the cluster size |
| FatFiles.TryLoadFile | Bootloader/x86_64/common/src/fat.rs:462-492 | A loaded file's copies are whole clusters at consecutive offsets and cover its size; FileNotFound is returned iff the lookup finds no file |
| FatFiles.LoadedFile | Bootloader/x86_64/common/src/fat.rs:462-492 | A loaded file has the size its directory entry records, and copy k holds the sectors of the k-th cluster of its chain, all in the data region |
| FatFiles.LoadFuel | Bootloader/x86_64/common/src/fat.rs:471-483 | A load that finishes with some fuel finishes the same way with more |
| FatFiles.LoadReadError | Bootloader/x86_64/common/src/fat.rs:471-491 | For a found file, FileReadError is returned iff the cluster chain hits a bad or reserved entry or copies fewer sectors than the file's size needs |
| BootUtil.UnwrapOrFail | Bootloader/x86_64/util/src/lib.rs:47-56 | An option yields its value iff it is present, and otherwise halts with the given code |
| BootUtil.UnwrapResultOrFail | Bootloader/x86_64/util/src/lib.rs:58-67 | A result yields its value iff it is Ok, and otherwise halts with the given code, discarding the error |
| BootUtil.Unwrap | bootloader/x86_64/bios/common/src/mbr.rs:47 | An option yields its value iff it is present, and otherwise panics |
| Mbr.EntryAt | bootloader/x86_64/bios/common/src/mbr.rs:43-69 | Entry i can be read iff the table holds 16(i+1) bytes; it is bootable iff its byte 0 is 0x80, and its type, start LBA and sector count are byte 4 and the little-endian words at 8 and 12 |
| Mbr.GetPartitionTableEntry | bootloader/x86_64/bios/common/src/mbr.rs:43-69 | The BIOS stages read the entry iff the table holds all 16 of its bytes, and panic otherwise |
| Mbr.GetPartition | Bootloader/x86_64/mbr/src/mbr.rs:38-64 | The boot sector reads the entry iff the table holds all 16 of its bytes, and otherwise halts with one of the codes c, d, e or f |
| Mbr.GetPartitionCodes | Bootloader/x86_64/mbr/src/mbr.rs:41-61 | A short table halts with c when the entry starts past its end, d when it starts at its end, e when the type or start LBA is cut off, and f when only the sector count is |
| Mbr.EntryRoundTrip | bootloader/x86_64/bios/common/src/mbr.rs:43-69 | A record written at slot i of a table reads back the same, whatever surrounds it |
| Mbr.EncodedFields | bootloader/x86_64/bios/common/src/mbr.rs:49-67 | An encoded record's bootable flag, type, start LBA and sector count sit at bytes 0, 4, 8 and 12 |
| Dap.NewPacket | bootloader/x86_64/bios/stage2/src/dap.rs:18-32 | A packet is built iff the buffer lies below 1 MiB, so that the segment fits 16 bits; it then addresses exactly the buffer, with offset below 16, size 16, a zero byte and the given count and LBA; otherwise it stops |
| Dap.NewStage2 | bootloader/x86_64/bios/stage2/src/dap.rs:18-32 | stage 2's constructor panics where NewPacket stops; Dap.PacketAddressesBuffer states it addresses every buffer below 1 MiB |
| Dap.NewBootSector | bootloader/x86_64/bios/mbr/src/dap.rs:26-37 | the boot sectors' constructor fails with 'o' where NewPacket stops; Dap.PacketAddressesBuffer states it addresses every buffer below 1 MiB |
| Dap.PacketAddressesBuffer | bootloader/x86_64/bios/mbr/src/dap.rs:26-37 | Every buffer below 1 MiB is reachable by the stage 2 and boot-sector constructors, and addressed exactly |
| Dap.NewSwapped | Bootloader/x86_64/util/src/lib.rs:80-89 | The util crate's packet keeps both the segment and offset words within 16 bits |
| Dap.SwappedMissesBuffer | Bootloader/x86_64/util/src/lib.rs:85-86 | The util crate's packet addresses its buffer iff the buffer lies below 64 KiB |
| Dap.SwappedExample | Bootloader/x86_64/util/src/lib.rs:85-86 | A buffer at 0x1_0000 is read into physical address 16 |
| Dap.EncodedBuffer | bootloader/x86_64/bios/stage2/src/dap.rs:18-32 | The address the BIOS computes from the 16 packed bytes of a packet is the buffer the packet was built for |
| Disks.PlanCovers | bootloader/x86_64/bios/stage2/src/disk.rs:149-160 | The transfer loop's requests read `count` sectors from the start LBA into consecutive buffer positions |
| Disks.PlanStep | bootloader/x86_64/bios/stage2/src/disk.rs:149-160 | Each round reads min(count, 0x20) sectors, then the loop continues past them in both LBA and buffer |
| Disks.PlanSizes | bootloader/x86_64/bios/stage2/src/disk.rs:149-160 | The requests add up to `count` sectors, each reads 1 to 0x20 sectors, and all but the last read 0x20 |
| Disks.PlanPositions | bootloader/x86_64/bios/stage2/src/disk.rs:149-160 | Each request starts at the LBA and buffer position where the previous one ended |
| Disks.ChunkRequests | Bootloader/x86_64/common/src/disk.rs:62-73 | The loop, run request by request, produces exactly the plan, which covers the sectors |
| Disks.Saturate | bootloader/x86_64/bios/stage2/src/disk.rs:107-113 | A signed step from a position saturates: the result is the sum when it is in range, 0 below and the maximum above (the panic of negating the signed minimum is `SeekTo`'s) |
| Disks.SeekTo | bootloader/x86_64/bios/stage2/src/disk.rs:104-118 | A seek succeeds iff it is neither from the end, which is unimplemented, nor back by the signed minimum, whose negation at line 111 overflows; from the start it goes to the given position, and from the current position it moves by the saturating step |
| Disks.SeekBack | bootloader/x86_64/bios/stage2/src/disk.rs:107-113 | A step forward followed by the same step back, short of the ends, returns to the starting position |
| Disks.SeekBackByI64MinPanics | bootloader/x86_64/bios/stage2/src/disk.rs:111 | Seeking back by `i64::MIN` panics in the negation, while seeking back by one less succeeds |
| Disks.NewStage2Disk | bootloader/x86_64/bios/stage2/src/disk.rs:66-74 | A new disk reads from byte (base LBA + offset) times 512, with sector-aligned base and offset, 512-byte sectors, no cluster size and the given disk number |
| Disks.SectorsPerCluster | bootloader/x86_64/bios/stage2/src/disk.rs:98-100 | A zero sector size panics; otherwise the result is the whole sectors in a cluster |
| Disks.Stage2Seek | bootloader/x86_64/bios/stage2/src/disk.rs:103-118 | Stage 2's seek panics iff it is from the end or back by `i64::MIN`; otherwise it changes only the u64 offset, to the seek's target |
| Disks.Packets | bootloader/x86_64/bios/stage2/src/disk.rs:149-160 | One packet per request, in order, each addressing the request's buffer, LBA and count; any buffer at or past 1 MiB panics |
| Disks.PlanAsWritten | bootloader/x86_64/bios/stage2/src/disk.rs:142-146 | The sector count of the code is len/ss for an aligned position and one more otherwise, read from the sector holding the position |
| Disks.ReadSectorsAsWritten | bootloader/x86_64/bios/stage2/src/disk.rs:139-163 | The read panics on a buffer that is not a whole number of sectors, on a u64 overflow of the end address at line 142, and on an empty read at the start, where `end_addr - 1` underflows; otherwise it issues the as-written plan iff every packet can be built, and the offset becomes the end address, base included |
| Disks.ReadSectors | bootloader/x86_64/bios/stage2/src/disk.rs:139-163 | The corrected read panics on a partial sector or a u64 overflow of the end address; otherwise it reads exactly len/ss sectors from the sector holding the position into the buffer, and advances the position by len |
| Disks.ReadSectorsOverrun | bootloader/x86_64/bios/stage2/src/disk.rs:142-146 | As written, a read fills its buffer exactly iff the position is sector-aligned; otherwise it transfers one sector more than the buffer holds |
| Disks.ReadSectorsFits | bootloader/x86_64/bios/stage2/src/disk.rs:139-163 | The corrected read always transfers exactly the buffer's length |
| Disks.ReadSectorsFoldsBase | bootloader/x86_64/bios/stage2/src/disk.rs:142-162 | As written, the position after a read is the old one plus the length plus the base offset |
| Disks.ReadSectorsContinue | bootloader/x86_64/bios/stage2/src/disk.rs:139-163 | With the correction, a second read from an aligned position starts at the sector after the first read's last sector |
| Disks.ReadBytes | bootloader/x86_64/bios/stage2/src/disk.rs:122-137 | The call panics when the in-sector offset plus the length exceeds the 1024-byte scratch buffer; it succeeds iff that fits and the two-sector read succeeds, returning len bytes from the in-sector offset of the first sector read |
| Disks.ReadBytesAtPosition | bootloader/x86_64/bios/stage2/src/disk.rs:122-137 | With 512-byte sectors and an aligned base, the bytes returned start at the disk position and lie within the first 1024 bytes read |
| Disks.ReadBytesOverrun | bootloader/x86_64/bios/stage2/src/disk.rs:133 | A read of bytes off a sector boundary transfers three sectors, 1536 bytes, into the 1024-byte scratch buffer |
| Disks.ReadBytesOverrunExample | bootloader/x86_64/bios/stage2/src/disk.rs:122-137 | A new disk moved one byte on transfers three sectors on its first read of bytes |
| Disks.CommonSeek | Bootloader/x86_64/common/src/disk.rs:37-52 | The shared crate's seek panics iff it is from the end or back by `i32::MIN` (negated at line 45); otherwise it changes only the u32 offset, to the seek's target |
| Disks.ReadExact | Bootloader/x86_64/common/src/disk.rs:56-74 | The read covers the fewest 512-byte sectors holding len bytes, from LBA base + offset into consecutive buffer positions, and leaves the disk unchanged |
| Disks.ReadExactRepeats | Bootloader/x86_64/common/src/disk.rs:56-74 | Repeating a read without a seek reads the same sectors again |
| Gdt.NewDescriptor | x86_64/src/gdt.rs:39-56 | A new descriptor keeps exactly the given flags in its attribute bits |
| Gdt.LimitOfPlaced | x86_64/src/gdt.rs:52-53 | The limit read back from a descriptor is the given limit cut to 20 bits |
| Gdt.PlaceLimitKeepsBase | x86_64/src/gdt.rs:52-53 | Placing the limit leaves the base fields alone |
| Gdt.BaseOfPlaced | x86_64/src/gdt.rs:47-50 | The base read back is the given 32-bit base |
| Gdt.NewDescriptorFields | x86_64/src/gdt.rs:39-56 | A new descriptor reads back its limit cut to 20 bits, its base and its flags |
| Gdt.LimitTruncated | x86_64/src/gdt.rs:41 | A limit of 0x10_0000 reads back as 0, since the bits above 19 are dropped |
| Gdt.ProtectedModeCodeSegment | x86_64/src/gdt.rs:58-74 | The kernel crate's protected-mode code segment is flat over 4 GiB (limit 0xFFFFF in pages, base 0), present, a code segment, and accessed |
| Gdt.ProtectedModeDataSegment | x86_64/src/gdt.rs:76-85 | The protected-mode data segment is flat over 4 GiB, present, not executable, and accessed |
| Gdt.LongModeCodeSegment | x86_64/src/gdt.rs:87-98 | The long-mode code segment has zero base and limit, the L bit, no protected-mode or granularity bit, and is executable, present and accessed |
| Gdt.LongModeDataSegment | x86_64/src/gdt.rs:100-107 | The long-mode data segment has zero base and limit, no L bit, and is present, accessed and not executable |
| Gdt.BootProtectedModeCodeSegment | Bootloader/x86_64/common/src/gdt.rs:48-57 | The shared crate's protected-mode code segment is flat over 4 GiB, present and executable, without the accessed bit |
| Gdt.BootProtectedModeDataSegment | Bootloader/x86_64/common/src/gdt.rs:59-67 | The shared crate's protected-mode data segment is flat over 4 GiB, present and not executable, without the accessed bit |
| Gdt.PresetsDifferByAccessed | Bootloader/x86_64/common/src/gdt.rs:48-67 | The two crates' protected-mode presets differ only in the accessed bit |
| Gdt.NewTable | x86_64/src/gdt.rs:127-133 | A new table is all zero, with the null descriptor counted as used |
| Gdt.Push | x86_64/src/gdt.rs:149-158 | A push succeeds iff a slot is free, and otherwise panics with "GDT full"; it writes the value into the first free slot, returns that index and changes no other slot |
| Gdt.PushAllLayout | x86_64/src/gdt.rs:145-158 | Pushing several values succeeds iff they all fit; they land in order after the used slots, and every other slot is kept |
| Gdt.PushAllFromNew | x86_64/src/gdt.rs:127-158 | From a new table, at most seven values fit, and the table is then the null descriptor, the values, and zeros |
| Gdt.DescriptorLimit | x86_64/src/gdt.rs:183-188 | The `lgdt` limit fits 16 bits and is the offset of the last byte of the used slots |
| Idt.DefaultOptions | x86_64/src/idt.rs:11-18 | Default options are an interrupt gate that is not present, at ring 0, without a stack switch, and have no bit outside the gate type |
| Idt.SetPresent | x86_64/src/idt.rs:21-24 | The present bit becomes the given value, and no other bit changes |
| Idt.DisableInterrupts | x86_64/src/idt.rs:26-29 | Bit 8 is set iff interrupts stay enabled, and no other bit changes |
| Idt.DisableInterruptsGateType | x86_64/src/idt.rs:11-29 | On default options, disabling interrupts leaves an interrupt gate and enabling them makes a trap gate |
| Idt.SetPrivilegeLevel | x86_64/src/idt.rs:31-34 | The privilege level becomes the given ring, and no bit outside 13-14 changes |
| Idt.SetInterruptStackIndex | x86_64/src/idt.rs:39-42 | The stack index is set iff it fits three bits, changing no other bit; a larger index panics |
| Idt.Missing | x86_64/src/idt.rs:59-68 | A missing gate is a non-present interrupt gate with handler address 0 |
| Idt.SetHandler | x86_64/src/idt.rs:70-79 | Setting a handler makes the gate spell that address, marks it present without touching other option bits, and takes the running code selector |
| Idt.SplitRecompose | x86_64/src/idt.rs:71-74 | Splitting an address 16/16/32 and recomposing it gives it back |
| Idt.EncodedHandler | x86_64/src/idt.rs:47-56 | The offset the processor reads from a gate's 16 bytes is the handler the gate holds |
| Idt.EncodedOptions | x86_64/src/idt.rs:47-56 | The options word the processor reads from bytes 4-5 is the gate's options |
| Idt.HandlerRoundTrip | x86_64/src/idt.rs:70-79 | A gate given a handler sends the processor to that address |
| Idt.DefaultTable | x86_64/src/idt.rs:148-181 | Every gate of a default table is missing and not present |
| Idt.Install | x86_64/src/idt.rs:70-79 | Installing a handler at one vector makes that gate present with that handler and leaves every other gate unchanged |
| Idt.TableLimit | x86_64/src/idt.rs:133-140 | The `lidt` limit fits 16 bits and is the last byte of 256 16-byte gates |
| IdentityPaging.CreateMappings | bootloader/x86_64/bios/stage3/src/paging.rs:35-54 | The mapping fills a 512-entry PML4, a 512-entry PDPT and ten 512-entry page directories |
| IdentityPaging.AddressOfEntry | bootloader/x86_64/bios/stage3/src/paging.rs:41-50 | An aligned address combined with flags below 4096 reads back as that address, with the present bit taken from the flags |
| IdentityPaging.HugeEntry | bootloader/x86_64/bios/stage3/src/paging.rs:47-51 | A huge-page entry of the mapping holds its 2 MiB-aligned address and is present and huge |
| IdentityPaging.IdentityBelowTenGiB | bootloader/x86_64/bios/stage3/src/paging.rs:35-54 | For aligned tables, every virtual address below 10 GiB translates to itself |
| IdentityPaging.NothingAboveTenGiB | bootloader/x86_64/bios/stage3/src/paging.rs:35-54 | Every address from 10 GiB up to 2^48 faults |
| IdentityPaging.Translate | bootloader/x86_64/bios/stage3/src/paging.rs:35-54 | the walk through the tables the code builds; IdentityPaging.IdentityBelowTenGiB and IdentityPaging.NothingAboveTenGiB state its results |
| IdentityPaging.OtherEntriesZero | bootloader/x86_64/bios/stage3/src/paging.rs:41-43 | Only PML4 entry 0 and PDPT entries 0-9 are set, and the rest stay zero |
| Vesa.CallStatus | bootloader/x86_64/bios/stage2/src/vesa.rs:60-63 | A VESA call succeeds iff AX is 0x004F, and otherwise returns AX as the error |
| Vesa.Segment | Bootloader/x86_64/common/src/vesa.rs:17-19 | A far pointer's segment is its high 16 bits |
| Vesa.Offset | Bootloader/x86_64/common/src/vesa.rs:21-23 | A far pointer's offset is its low 16 bits, so segment and offset rebuild the pointer |
| Vesa.FarPointerRoundTrip | Bootloader/x86_64/common/src/vesa.rs:16-24 | The segment and offset of a pointer built from them come back unchanged |
| Vesa.ModeListAddress | bootloader/x86_64/bios/stage2/src/vesa.rs:79-81 | The list is read at segment times 16 plus offset, which lies below 1 MiB + 64 KiB |
| Vesa.Words | bootloader/x86_64/bios/stage2/src/vesa.rs:83 | Word i of the list is the little-endian pair at base + 2i, for every whole word in memory |
| Vesa.ModeAt | bootloader/x86_64/bios/stage2/src/vesa.rs:76-90 | Reading mode i gives None iff the word is 0xFFFF, and otherwise the word |
| Vesa.ModeIdsWords | bootloader/x86_64/bios/stage2/src/vesa.rs:98-102 | The mode list is exactly the words before the first 0xFFFF, and is undefined iff there is no terminator |
| Vesa.ModeIds | bootloader/x86_64/bios/stage2/src/vesa.rs:94-102 | the mode list read up to the terminator never contains 0xFFFF |
| Vesa.ModeList | bootloader/x86_64/bios/stage2/src/vesa.rs:94-102 | The mode list read from the controller's far pointer never contains the terminator |
| Vesa.ModeListInMemory | bootloader/x86_64/bios/stage2/src/vesa.rs:76-90 | Mode k of the list is the word at base + 2k, and the word after the last mode is the 0xFFFF terminator |
| Vesa.PixelDiffBound | bootloader/x86_64/bios/stage2/src/vesa.rs:96 | No pixel difference reaches u32::MAX, so the first candidate always beats the starting best |
| Vesa.BestMode | bootloader/x86_64/bios/stage2/src/vesa.rs:94-138 | There is a best mode iff some mode is a linear-framebuffer graphics mode with a packed or direct colour model; the first exact match wins; without one, the result is the first candidate closest in pixel count, then in depth |
| Vesa.ExactFound | bootloader/x86_64/bios/stage2/src/vesa.rs:122-124 | The first exact match is the only first exact match, and it is a candidate |
| Vesa.FirstCandidate | bootloader/x86_64/bios/stage2/src/vesa.rs:126-134 | The first candidate is the closest one so far |
| Vesa.CloserCandidate | bootloader/x86_64/bios/stage2/src/vesa.rs:129-134 | A strictly closer candidate becomes the closest so far |
| Vesa.FartherCandidate | bootloader/x86_64/bios/stage2/src/vesa.rs:129-134 | A mode that is not a strictly closer candidate leaves the closest so far in place |
| Vesa.FirstClosestUnique | bootloader/x86_64/bios/stage2/src/vesa.rs:129-134 | At most one mode is the first of the closest |
| Vesa.CommonBestMode | Bootloader/x86_64/common/src/vesa.rs:96-140 | The shared crate's version picks by the same rules (first exact match, else first closest candidate) and returns mode 0 when there is no candidate |
| Vesa.ModeRequest | bootloader/x86_64/bios/stage2/src/vesa.rs:145-149 | The mode word asks for the linear framebuffer (bit 14), clears bit 15, and keeps the mode number in bits 0-13 |
| Vesa.ModeRequestIdempotent | bootloader/x86_64/bios/stage2/src/vesa.rs:145-149 | Applying the request bits twice is applying them once, and a word is unchanged iff bits 14-15 already read 01 |
| Vesa.SetMode | bootloader/x86_64/bios/stage2/src/vesa.rs:140-160 | Setting a mode passes a word asking for the linear framebuffer with the mode number in bits 0-13, and succeeds iff AX is 0x004F |
| Vesa.PixelFormatOf | bootloader/x86_64/bios/stage2/src/vesa.rs:260-270 | The format is RGB iff the positions are 0, 8, 16, BGR iff they are 16, 8, 0, and otherwise Unknown with those positions |
| Vesa.PixelFormatRoundTrip | bootloader/x86_64/bios/stage2/src/vesa.rs:260-270 | A pixel format gives back the positions it was made from |
| Vesa.PixelFormatCanonical | bootloader/x86_64/bios/stage2/src/vesa.rs:260-270 | Every format except Unknown with the RGB or BGR positions is rebuilt from its positions |
| Vesa.ToFramebufferInfo | bootloader/x86_64/bios/stage2/src/vesa.rs:272-288 | A mode with fewer than 8 bits per pixel panics on the stride division; otherwise the framebuffer starts at the mode's address, spans height times bytes per scanline, has the mode's width and height, bits per pixel divided by 8 as bytes per pixel, the scanline length in whole pixels as stride, and the mode's pixel format |
| Vesa.PixelsInsideRegion | bootloader/x86_64/bios/stage2/src/vesa.rs:272-288 | Every pixel at x below the stride and y below the height lies inside the framebuffer region |

## Left out

- Physical memory is not modelled as bytes. Page tables are a map from table paths to entries, so a table frame that aliases mapped data cannot be expressed.
- MemoryManager, KernelHeap, KernelStacks and KernelLoading: `map_to` is recorded as a call, or applied to a map from pages to frames, and does not walk page tables. In the source every one of these `map_to` calls is handed the same frame allocator the data frames come from (kernel/src/allocator.rs:39 and 50-55, kernel/src/allocator/stack_allocator.rs:51-56, kernel/src/memory/manager.rs:160-165 and 176, stage 4 elf.rs:180 and 242). It takes one frame from that allocator for each intermediate table missing on the page's path, and fails when none is left (Mapper.MapToTableFrames). The frame counts, thresholds and orders stated by the members below hold only when every intermediate table on the path of each mapped page already exists.
- MemoryManager.AllocateKernelRegionWithSize: "success consumes exactly size/4 KiB frames" and "any error leaves the tree unchanged" assume the tables exist. Otherwise `map_to` takes further frames after the data frames, and a `map_to` that finds no frame for a table returns its error after the region is already recorded in the tree.
- MemoryManager.AllocateKernelRegion: inherits the same assumption about intermediate tables.
- KernelHeap.InitHeapAt: the "panics iff fewer than n+1 frames" threshold assumes the heap's page tables exist; otherwise the table frames raise it.
- KernelHeap.InitHeapAtLayout: "the first n frames map the heap in order" and the n+1 threshold assume the heap's page tables exist; otherwise table frames are taken between data frames.
- KernelHeap.InitHeapLayout: the 26-frame threshold and the frame order assume the tables for 0x4444_4444_0000 already exist.
- KernelStacks.AllocStack: "panics iff frames run out" counts only the stack's own frames and assumes the stack's page tables exist.
- KernelStacks.AllocStackLayout: "maps pagesCnt fresh frames in order" assumes the stack's page tables exist; otherwise table frames are taken between them.
- KernelLoading.MapFileSpec: "panics iff a page is already mapped or repeated" assumes the segment's page tables exist; otherwise the file loop's `map_to` also panics when no frame is left for a table.
- KernelLoading.MapBssSpec: "page k gets the k-th free frame" and "exactly those frames are used up" assume the .bss pages' tables exist; otherwise table frames are taken between them.
- KernelLoading.RunSegmentSpec: inherits the assumption of MapFileSpec and MapBssSpec.
- KernelLoading.CongruentSegmentLoads: "enough free frames for its .bss" counts only the .bss frames and assumes the segment's page tables exist.
- Memory: `PhysicalMemoryRegion`, `PageRangeInclusive`, `containing_address` and `Size2MiB` are imported from the `x86_64` crate's `memory` and `paging` modules but defined outside the modelled files. Their obvious meaning is assumed, and `Page::end` is taken as the exclusive end.
- Mapper: the 4 KiB and 2 MiB mappers share one model, parameterised by page size; their code differs only in the level at which the walk stops.
- IdentityPaging.CreateMappings: entries are numbers, and `|` with flags below 4096 is modelled as `+` on aligned addresses. `IdentityPaging.Translate` follows only the huge-page path the mapping uses. `enable_paging` is inline assembly and is left out.
- KernelLoading: the external ELF parsing crate stage 4 uses is replaced by the kernel's own parser (`Elf`). Progress printing is left out.
- KernelLoading.AllocateSegment: the frame and page iterators (`PhysicalFrame::range_inclusive`, `Page::range_inclusive`) are defined outside the modelled files, so an overflow they may hit when stepping past a range that ends in the top page is not modelled.
- FatFiles.ChainWalk: a cyclic cluster chain would loop forever in the source. The model walks with a fuel bound (one step per cluster of the volume) and reports exhaustion; FatFiles.TryLoadFile inherits this.
- Fat: u32 overflow in the sector arithmetic is not modelled, and disk read errors are not modelled. `CLUSTER_SIZE` is imported from the common crate's `disk` module (fat.rs:12) but defined outside the modelled files: two sectors per cluster is assumed, matching the `sectors_read += 2` of the read loop. The long-name checksum is not checked, as in the source.
- Bootloader/x86_64/common/src/dap.rs is not part of this model; the stage 2, MBR and util packets are.
- BIOS calls (`int 13h`, `int 10h`), port I/O and `lgdt`/`lidt`/`ljmp` are inline assembly. Their results are parameters of the functions that use them.
- Disks.ReadSectors: lengths and positions are unbounded, so the `as u32` truncation of the buffer address is not modelled. Disks.ReadExact likewise does not model read_exact's u32 truncation of the length.
- Gdt: `SegmentSelector` is imported from the `x86_64` crate's `gdt` module (idt.rs:4) but defined outside the modelled files. `GlobalDescriptorTable::initialize_at_address` writes through a raw pointer and is left out; `load` is reduced to its limit (Gdt.DescriptorLimit).
- Idt: the code segment register read by `set_handler_function` is a parameter (`cs`). The address printing in `load` is left out.
- Vesa: the results of BIOS functions 4F00h, 4F01h and 4F02h are parameters. The byte layouts of `VbeInfo` and `VbeModeInfo` are taken as already parsed records, except for the mode list, which is read from memory.
- Vesa.ModeIds: a mode list without a 0xFFFF terminator is None; the source would read past the end of memory.
- Vesa.CommonBestMode: the shared crate returns 0 for "no mode", which is indistinguishable from mode 0; the model states this rather than repairing it.
- KernelStacks: `dealloc_stack` is `unimplemented!()` in the source and is not modelled.
- `init_kernel_page_table` works through raw pointers into the bootloader's tables and is left out.
- MemoryManager.AllocateKernelRegionWithSize: manager.rs:181 and 183 pass a `bool` where a region type is expected. The model passes the requested type through.
- `try_allocate_kernel_region_with_frames` is commented out in the source and is not modelled.
- HashMaps: the FNV-1a hash of a key is taken over its byte encoding, which is a parameter (`keyBytes`) because the source hashes through `Hash` implementations.
- FreeListAllocator: the progress printing in `init` is left out.
- RangeAllocator.TryAllocateSize: the sums `last_end + size` (range_allocator.rs:28, 46) are unbounded here; RangeAllocator.TryAllocateSizeAsWritten gives the u64 panic and proves the two agree whenever it does not panic.
- VirtualRegions.TryAllocateSizeInRegion: builds on the unbounded RangeAllocator.TryAllocateSize, so a size near 2^64 yields no range where the source panics.
- Disks.ReadExact: the u32 sum `base_lba + offset` (common disk.rs:58) is unbounded here.
- Regions: a region's end is `start + size` without the u64 overflow check; firmware reports no region that reaches 2^64.
- BuddyFrameAllocator, BuddyHeap, FreeListAllocator, NthFrameAllocator and StreamFrameAllocator: addresses and counters are unbounded naturals, so these u64/usize overflows are not modelled: the free list's `start + offset`, `end - 1 + offset` and `free_list_size` counter (linked_list_frame_allocator.rs:84, 86, 129), the bump allocators' `current_frame + 1` and `next += 1`, and the buddy allocators' block ends and buddy addresses near 2^64.
- Memory.AlignUpAligned: states the panic and the alignment for every power of two; the bound "not below the address and less than `align` above it" is proved only for 4 KiB, the one alignment the code passes (elf.rs:216), and for 2 MiB (Memory.AlignUpWithinPage, Memory.AlignUpWithinHugePage), not for a symbolic power of two.

## Findings

| source | as written | input that shows it | evidently intended | confidence | as-written member | corrected member |
|---|---|---|---|---|---|---|
| x86_64/src/memory.rs:94-97 | The virtual `align_down` keeps the low bits (`addr & (align - 1)`) instead of clearing them | 0x1234 aligned down to 4096 gives 0x234 | 0x1000, as the physical version gives | not executed | Memory.VirtualAlignDownNotAligned | Memory.PageContainingContains |
| x86_64/src/paging/mapped_page_table.rs:172-177 | `unmap` clears the entry and then reads the frame from the cleared entry | map frame 0x5000, then unmap: the result is frame 0 | the frame that was mapped | not executed | Mapper.MapThenUnmapAsWrittenLosesFrame | Mapper.MapThenUnmapReturnsFrame |
| x86_64/src/frame_allocator.rs:57-72 | The kernel's bump allocator moves to the next frame without checking that it is still inside the usable region | one usable 4 KiB region at 0: the frames given out are 0, 0x1000, 0x2000 | switch to the next usable region once the current one is used up | not executed | StreamFrameAllocator.KernelRunsPastMap | StreamFrameAllocator.ExclusiveIncreasing |
| bootloader/x86_64/bios/common/src/bump_frame_allocator.rs:72-94 | When the boot allocator moves to the next region it returns that region's start without advancing past it | usable pages at 0 and 0x1000: the frames given out are 0, 0x1000, 0x1000 | every frame returned at most once | not executed | StreamFrameAllocator.BootDuplicatesFrame | StreamFrameAllocator.ExclusiveIncreasing |
| bootloader/x86_64/bios/common/src/bump_frame_allocator.rs:43-58 | `max_physical_address` looks only at regions after the current one | a map with one region of 64 KiB, started at 0: no maximum | the highest end over the whole map | not executed | StreamFrameAllocator.BootMaxMissesStartRegion | StreamFrameAllocator.MaxOverMapCoversStart |
| kernel/src/memory/buddy_frame_allocator.rs:225-228 | Each region is added up to `end() - 1`, one byte short | any usable region: one byte less is free than the region holds | the whole region is free | not executed | BuddyFrameAllocator.InitRegionShortByOne | BuddyFrameAllocator.InitRegionFull |
| kernel/src/allocator/buddy_allocator.rs:241-244 | The heap's memory-map initialisation stops at `end() - 1` | any nonempty usable region: one byte less is free | the whole region is free | not executed | BuddyHeap.MemoryMapShortByOne | BuddyHeap.InitFromMemoryMapFull |
| kernel/src/memory/buddy_frame_allocator.rs:345-371 | Merging continues to order 20, which has no free list, and the merged block is dropped | lists holding 0..512 KiB at the top order; free 512 KiB..1 MiB: nothing is left free | stop merging at the top order and keep the block | not executed | BuddyFrameAllocator.TopOrderMergeLoses | BuddyFrameAllocator.DeallocCappedAccounting |
| kernel/src/allocator/buddy_allocator.rs:350-374 | The heap's merge has the same unbounded loop, so a chunk that merges to the top order is lost | any chunk whose merges reach the top order | keep the merged chunk at the top order | not executed | BuddyHeap.DeallocAtTopLoses | BuddyHeap.DeallocCappedAccounting |
| kernel/src/memory/buddy_frame_allocator.rs:296-323 | Splitting a block takes a list node from the pool for each half but never returns the node of the block split | an allocation that splits d times loses d pool nodes | the split block's node goes back to the pool | not executed | BuddyFrameAllocator.AllocLeaksSplitNodes | BuddyFrameAllocator.AllocReturningNodes |
| kernel/src/memory/buddy_frame_allocator.rs:384-391 | The 2 MiB `allocate_frame` asks for order 21, beyond the 20 lists, and indexes out of bounds | any 2 MiB frame request | report that no frame is available | not executed | BuddyFrameAllocator.AllocateFrame2MiB | BuddyFrameAllocator.CheckedTwoMiBReportsNone |
| util/src/range_allocator.rs:69-81 | An empty range overlaps nothing and is accepted; its insert at the same start replaces a stored range | with 0..400 stored, allocate 0..0: 0..400 is gone and cannot be freed | refuse the empty range | not executed | RangeAllocator.EmptyRangeOverwrites | RangeAllocator.CheckedRangeRoundTrip |
| util/src/range_allocator.rs:18-59 | Size 0 yields an empty range at the start, which the next allocation replaces | allocate 0, then 100: 0..0 can no longer be freed | refuse size 0 | not executed | RangeAllocator.ZeroSizeOverwrites | RangeAllocator.CheckedSizeRoundTrip |
| kernel/src/memory/manager.rs:169 | The assertion that one frame fewer than pages was used holds only for stack regions, which leave a guard page | any non-stack kernel region that fits | the assertion applies to stacks only | not executed | MemoryManager.NonStackPanics | MemoryManager.KernelRegionNoPanic |
| kernel/src/allocator/stack_allocator.rs:63-66 | The stack top is the start address of the last page of the range, which is the guard page; the stack's span starts there too | a one-page stack: no byte of its span is mapped | the top is the end of the mapped pages | not executed | KernelStacks.OnePageStackUnmapped | KernelStacks.StackSpanMapped |
| util/src/hashmap.rs:183-187 | `resize_if_needed` returns early for any non-empty map, so the map never grows past two buckets | three distinct keys into a new map: three entries in at most two buckets | grow when the load passes three quarters | not executed | HashMaps.ThreeKeysTwoBuckets | HashMaps.InsertByLoadBounded |
| util/src/elf_loader/elf.rs:150-153 | A wrong class byte is reported as an invalid ELF type | a 32-bit ELF (class byte 1) is reported as InvalidElfType | report InvalidClass | not executed | Elf.ClassReportedAsType | Elf.HeaderVersionsAgree |
| util/src/elf_loader/elf.rs:221-224 | A program header table past the end of the file is reported as a section header error | phnum 1, a program header offset past the end: InvalidSectionHeader | report a program header error | not executed | Elf.ProgramOffsetReportedAsSection | Elf.ProgramVersionsAgree |
| bootloader/x86_64/bios/stage4/src/elf.rs:74 | The last page of an 8-byte relative store is taken as the page of `va + 8`, the byte after the value | a value ending exactly at a page end, with the next page unmapped: the translation panics | the page of the last byte, `va + 7` | not executed | KernelLoading.RelativeAtPageEndExample | KernelLoading.RelativeStores |
| Bootloader/x86_64/common/src/fat.rs:260-263 | Long-name entries are stored last part first, and the parser appends each part in the order it reads them | a two-entry long name "first"+"last" is read as "last"+"first" | prepend each part, so the name reads first to last | not executed | Fat.LongNameOrderAsWritten | Fat.LongNameOrder |
| Bootloader/x86_64/util/src/lib.rs:85-86 | The util crate's packet puts the low half of the buffer address in the segment and the high half in the offset | a buffer at 0x1_0000 is read into physical address 16 | segment = address >> 4, offset = address & 0xF | not executed | Dap.SwappedExample | Dap.PacketAddressesBuffer |
| bootloader/x86_64/bios/stage2/src/disk.rs:142-146 | The sector count is derived from the unaligned position, so a read that is not sector-aligned transfers one sector more than the buffer holds | a new disk moved one byte forward, then read 1 byte into a 1024-byte buffer: three 512-byte sectors written | read only as many sectors as the buffer holds | not executed | Disks.ReadBytesOverrunExample | Disks.ReadSectorsFits |
| bootloader/x86_64/bios/stage2/src/disk.rs:142-162 | The new offset is the end address, which includes `base_offset`, so every read moves the position forward by `base_offset` again | a disk with a nonzero base offset: the second read starts `base_offset` bytes too far | the offset excludes the base | not executed | Disks.ReadSectorsFoldsBase | Disks.ReadSectorsContinue |
