/**
 * The kernel memory manager: it takes physical frames from its frame
 * allocator, places regions in the region tree and lists the `map_to`
 * calls that back a region with those frames. The frame allocator is the
 * sequence of frames it would hand out, in order.
 */
module MemoryManager {
  import opened Wrappers
  import opened PageEntry
  import opened VirtualRegions
  import Regions
  import RangeAllocator

  /** The parts of the manager's state the operations touch. */
  datatype Kernel = Kernel(avail: seq<nat>, tree: RegionTree)

  /** A region placed in virtual memory and the mapping calls that back it. */
  datatype Mapped = Mapped(region: VirtualMemoryRegion, calls: seq<MapRequest>)

  datatype Outcome = Panicked | Done(kernel: Kernel, result: Result<Mapped, MemoryError>)

  /**
   * `try_allocate_frames`: `amt` frames in the order the allocator hands
   * them out. When the allocator runs dry the frames taken so far are
   * dropped, not given back.
   */
  function TryAllocateFrames(avail: seq<nat>, amt: nat): (res: (seq<nat>, Result<seq<nat>, MemoryError>))
    ensures res.1.Ok? <==> amt <= |avail|
    ensures res.1.Ok? ==> |res.1.value| == amt && res.1.value + res.0 == avail
    ensures res.1.Err? ==> res.1.error == OutOfPhysicalMemory && res.0 == []
    decreases amt
  {
    if amt == 0 then (avail, Ok([]))
    else if |avail| == 0 then ([], Err(OutOfPhysicalMemory))
    else
      var (rest, r) := TryAllocateFrames(avail[1..], amt - 1);
      match r
      case Ok(frames) =>
        assert [avail[0]] + frames + rest == [avail[0]] + (frames + rest);
        (rest, Ok([avail[0]] + frames))
      case Err(e) => (rest, Err(e))
  }

  /** The bytes a region of `typ` reserves for `size` bytes of data: stacks add a guard page. */
  function RegionSize(typ: RegionType, size: nat): (n: nat)
    requires Regions.IsFrameAligned(size)
    ensures Regions.IsFrameAligned(n)
    ensures n == size + (if typ == Stack then Regions.FRAME_SIZE else 0)
  {
    if typ == Stack then size + Regions.FRAME_SIZE else size
  }

  /** The request that maps a stack's first page to frame 0 with no flags: an entry that is not present. */
  function GuardCalls(typ: RegionType, p: PageRange): (calls: seq<MapRequest>)
    ensures typ == Stack ==> calls == [MapRequest(0, p.first, NONE)]
    ensures typ != Stack ==> calls == []
  {
    if typ == Stack then [MapRequest(0, p.first, NONE)] else []
  }

  /**
   * `allocate_kernel_region_with_size` as written: the frames are mapped
   * onto the pages after the first one for every region type, and the
   * region must have exactly one page more than there are frames.
   */
  function AllocateKernelRegionWithSize(k: Kernel, size: nat, name: string, typ: RegionType, flags: EntryFlags): (o: Outcome)
    requires Regions.IsFrameAligned(size)
    ensures size / Regions.FRAME_SIZE > |k.avail| ==> o == Done(k.(avail := []), Err(OutOfPhysicalMemory))
    ensures o.Done? && o.result.Err? ==> o.kernel.tree == k.tree
    ensures o.Done? && o.result.Ok? ==> o.kernel.avail == k.avail[size / Regions.FRAME_SIZE..]
  {
    var (avail, frames) := TryAllocateFrames(k.avail, size / Regions.FRAME_SIZE);
    match frames
    case Err(e) => Done(k.(avail := avail), Err(e))
    case Ok(fs) =>
      var (tree, pages) := TryAllocateSizeInRegion(k.tree, name, typ, RegionSize(typ, size));
      match pages
      case Err(e) => Done(Kernel(avail, k.tree), Err(e))
      case Ok(p) =>
        if PageCount(p) - 1 != |fs| then Panicked
        else
          var v := VirtualMemoryRegion(p, name, typ, FromEntryFlags(flags));
          Done(Kernel(avail, tree), Ok(Mapped(v, GuardCalls(typ, p) + Consecutive(fs, p.first + Regions.FRAME_SIZE, flags))))
  }

  /** The page range placed for `RegionSize(typ, size)` bytes in a valid tree has one page per 4 KiB. */
  lemma PlacedPages(t: RegionTree, name: string, typ: RegionType, n: nat)
    requires TreeValid(t) && Regions.IsFrameAligned(n)
    requires TryAllocateSizeInRegion(t, name, typ, n).1.Ok?
    ensures var p := TryAllocateSizeInRegion(t, name, typ, n).1.value;
            PageCount(p) * Regions.FRAME_SIZE == n && n > 0
  {
    var i := Find(t, typ).value;
    var a := t.regions[i].allocator;
    var x := RangeAllocator.TryAllocateSize(a, n).1.value;
    SizeAllocationAligned(a, n);
    CoveringExact(x);
  }

  /** A region placed on `RegionSize(typ, size)` bytes of pages spans `size` bytes from `start` to `end`. */
  lemma RegionBounds(p: PageRange, name: string, typ: RegionType, access: AccessFlags, size: nat)
    requires Regions.IsFrameAligned(size)
    requires PageCount(p) * Regions.FRAME_SIZE == RegionSize(typ, size) && !IsEmpty(p)
    ensures var v := VirtualMemoryRegion(p, name, typ, access);
            Size(v) == Some(size) && Start(v) + size == End(v)
  {
    var n := PageCount(p);
    assert p.first + n * Regions.FRAME_SIZE == p.last + Regions.FRAME_SIZE;
    assert ByteSize(p) == RegionSize(typ, size);
  }

  /**
   * The shape of a placed region: it has type `typ` and `size` bytes from
   * `start` to `end`; its calls begin with the guard entry of a stack, and
   * the rest map `frames`, in order and with `flags`, onto exactly the bytes
   * from `start` to `end`.
   */
  ghost predicate Layout(m: Mapped, typ: RegionType, frames: seq<nat>, flags: EntryFlags, size: nat) {
    var v := m.region;
    var g := |GuardCalls(typ, v.range)|;
    v.typ == typ && Size(v) == Some(size) && Start(v) + size == End(v)
    && g <= |m.calls| && m.calls[..g] == GuardCalls(typ, v.range)
    && DataCovers(m.calls[g..], Start(v), End(v))
    && FramesInOrder(m.calls[g..], frames, flags)
  }

  /**
   * The mapping calls for frames `fs` placed on pages `p`: the guard entry
   * of a stack, then the frames in order from `start`, which map exactly
   * the bytes from `start` to `end`.
   */
  lemma LayoutOf(fs: seq<nat>, p: PageRange, name: string, typ: RegionType, flags: EntryFlags, size: nat)
    requires Regions.IsFrameAligned(size) && |fs| == size / Regions.FRAME_SIZE
    requires PageCount(p) * Regions.FRAME_SIZE == RegionSize(typ, size) && !IsEmpty(p)
    ensures var v := VirtualMemoryRegion(p, name, typ, FromEntryFlags(flags));
            Layout(Mapped(v, GuardCalls(typ, p) + Consecutive(fs, Start(v), flags)), typ, fs, flags, size)
  {
    var v := VirtualMemoryRegion(p, name, typ, FromEntryFlags(flags));
    RegionBounds(p, name, typ, FromEntryFlags(flags), size);
    var guard := GuardCalls(typ, p);
    var data := Consecutive(fs, Start(v), flags);
    var calls := guard + data;
    assert calls[..|guard|] == guard && calls[|guard|..] == data;
    WholePages(size);
    ConsecutiveLayout(fs, Start(v), flags, size);
  }

  /** A page-aligned size is its number of pages times 4 KiB. */
  lemma WholePages(size: nat)
    requires Regions.IsFrameAligned(size)
    ensures size / Regions.FRAME_SIZE * Regions.FRAME_SIZE == size
  {
  }

  /** A successful stack allocation as written is built from the first frames of the allocator and the placed pages. */
  lemma StackPieces(k: Kernel, size: nat, name: string, flags: EntryFlags)
    returns (fs: seq<nat>, p: PageRange)
    requires TreeValid(k.tree) && Regions.IsFrameAligned(size)
    requires var o := AllocateKernelRegionWithSize(k, size, name, Stack, flags); o.Done? && o.result.Ok?
    ensures var o := AllocateKernelRegionWithSize(k, size, name, Stack, flags);
            var v := VirtualMemoryRegion(p, name, Stack, FromEntryFlags(flags));
            fs == k.avail[..size / Regions.FRAME_SIZE] && |fs| == size / Regions.FRAME_SIZE
            && PageCount(p) * Regions.FRAME_SIZE == RegionSize(Stack, size) && !IsEmpty(p)
            && o.result.value == Mapped(v, GuardCalls(Stack, p) + Consecutive(fs, Start(v), flags))
  {
    var (avail, frames) := TryAllocateFrames(k.avail, size / Regions.FRAME_SIZE);
    fs := frames.value;
    p := TryAllocateSizeInRegion(k.tree, name, Stack, RegionSize(Stack, size)).1.value;
    PlacedPages(k.tree, name, Stack, RegionSize(Stack, size));
    assert fs == k.avail[..size / Regions.FRAME_SIZE];
    assert PageCount(p) == |fs| + 1 by {
      assert PageCount(p) * Regions.FRAME_SIZE == (|fs| + 1) * Regions.FRAME_SIZE;
    }
  }

  /**
   * A stack region gets a non-present guard entry on its first page and its
   * frames, in allocation order, on the pages from `start` to `end`; its
   * size is the requested size. The page-count assertion holds for stacks.
   */
  lemma StackRegionLayout(k: Kernel, size: nat, name: string, flags: EntryFlags)
    requires TreeValid(k.tree) && Regions.IsFrameAligned(size)
    ensures var o := AllocateKernelRegionWithSize(k, size, name, Stack, flags);
            o.Done? && (o.result.Ok? ==>
              Layout(o.result.value, Stack, k.avail[..size / Regions.FRAME_SIZE], flags, size)
              && o.result.value.calls[0] == MapRequest(0, o.result.value.region.range.first, NONE))
  {
    var (avail, frames) := TryAllocateFrames(k.avail, size / Regions.FRAME_SIZE);
    if frames.Ok? && TryAllocateSizeInRegion(k.tree, name, Stack, RegionSize(Stack, size)).1.Ok? {
      PlacedPages(k.tree, name, Stack, RegionSize(Stack, size));
      var o := AllocateKernelRegionWithSize(k, size, name, Stack, flags);
      assert o.Done?;
      var fs, p := StackPieces(k, size, name, flags);
      LayoutOf(fs, p, name, Stack, flags, size);
    }
  }

  /**
   * For any other region type, once the frames and the virtual range are
   * found, the page-count assertion fails: such a region gets no extra page.
   */
  lemma NonStackPanics(k: Kernel, size: nat, name: string, typ: RegionType, flags: EntryFlags)
    requires TreeValid(k.tree) && Regions.IsFrameAligned(size) && typ != Stack
    requires size / Regions.FRAME_SIZE <= |k.avail|
    requires TryAllocateSizeInRegion(k.tree, name, typ, size).1.Ok?
    ensures AllocateKernelRegionWithSize(k, size, name, typ, flags).Panicked?
  {
    PlacedPages(k.tree, name, typ, size);
  }

  /**
   * `allocate_kernel_region_with_size` with the first page skipped only for
   * stacks: every other region maps its frames from its first page on.
   */
  function AllocateKernelRegion(k: Kernel, size: nat, name: string, typ: RegionType, flags: EntryFlags): (o: Outcome)
    requires Regions.IsFrameAligned(size)
    ensures size / Regions.FRAME_SIZE > |k.avail| ==> o == Done(k.(avail := []), Err(OutOfPhysicalMemory))
    ensures o.Done? && o.result.Err? ==> o.kernel.tree == k.tree
    ensures o.Done? && o.result.Ok? ==> o.kernel.avail == k.avail[size / Regions.FRAME_SIZE..]
  {
    var (avail, frames) := TryAllocateFrames(k.avail, size / Regions.FRAME_SIZE);
    match frames
    case Err(e) => Done(k.(avail := avail), Err(e))
    case Ok(fs) =>
      var (tree, pages) := TryAllocateSizeInRegion(k.tree, name, typ, RegionSize(typ, size));
      match pages
      case Err(e) => Done(Kernel(avail, k.tree), Err(e))
      case Ok(p) =>
        var v := VirtualMemoryRegion(p, name, typ, FromEntryFlags(flags));
        if PageCount(p) * Regions.FRAME_SIZE != size + (if typ == Stack then Regions.FRAME_SIZE else 0) then Panicked
        else Done(Kernel(avail, tree), Ok(Mapped(v, GuardCalls(typ, p) + Consecutive(fs, Start(v), flags))))
  }

  /** On a valid tree the corrected allocation never panics. */
  lemma KernelRegionNoPanic(k: Kernel, size: nat, name: string, typ: RegionType, flags: EntryFlags)
    requires TreeValid(k.tree) && Regions.IsFrameAligned(size)
    ensures AllocateKernelRegion(k, size, name, typ, flags).Done?
  {
    var (avail, frames) := TryAllocateFrames(k.avail, size / Regions.FRAME_SIZE);
    if frames.Ok? && TryAllocateSizeInRegion(k.tree, name, typ, RegionSize(typ, size)).1.Ok? {
      PlacedPages(k.tree, name, typ, RegionSize(typ, size));
    }
  }

  /** A successful corrected allocation is built from the first frames of the allocator and the placed pages. */
  lemma KernelRegionPieces(k: Kernel, size: nat, name: string, typ: RegionType, flags: EntryFlags)
    returns (fs: seq<nat>, p: PageRange)
    requires TreeValid(k.tree) && Regions.IsFrameAligned(size)
    requires var o := AllocateKernelRegion(k, size, name, typ, flags); o.Done? && o.result.Ok?
    ensures var o := AllocateKernelRegion(k, size, name, typ, flags);
            var v := VirtualMemoryRegion(p, name, typ, FromEntryFlags(flags));
            fs == k.avail[..size / Regions.FRAME_SIZE] && |fs| == size / Regions.FRAME_SIZE
            && TryAllocateSizeInRegion(k.tree, name, typ, RegionSize(typ, size)) == (o.kernel.tree, Ok(p))
            && PageCount(p) * Regions.FRAME_SIZE == RegionSize(typ, size) && !IsEmpty(p)
            && o.result.value == Mapped(v, GuardCalls(typ, p) + Consecutive(fs, Start(v), flags))
  {
    var (avail, frames) := TryAllocateFrames(k.avail, size / Regions.FRAME_SIZE);
    fs := frames.value;
    p := TryAllocateSizeInRegion(k.tree, name, typ, RegionSize(typ, size)).1.value;
    PlacedPages(k.tree, name, typ, RegionSize(typ, size));
  }

  /**
   * On success the region has the requested size, its frames, in
   * allocation order, map exactly the bytes from `start` to `end`, and a
   * stack also gets the non-present guard entry first.
   */
  lemma KernelRegionLayout(k: Kernel, size: nat, name: string, typ: RegionType, flags: EntryFlags)
    requires TreeValid(k.tree) && Regions.IsFrameAligned(size)
    requires var o := AllocateKernelRegion(k, size, name, typ, flags); o.Done? && o.result.Ok?
    ensures var o := AllocateKernelRegion(k, size, name, typ, flags);
            Layout(o.result.value, typ, k.avail[..size / Regions.FRAME_SIZE], flags, size)
  {
    var fs, p := KernelRegionPieces(k, size, name, typ, flags);
    LayoutOf(fs, p, name, typ, flags, size);
  }

  /** The tree records a corrected allocation under its name, in the first region of its type. */
  lemma KernelRegionRecorded(k: Kernel, size: nat, name: string, typ: RegionType, flags: EntryFlags)
    requires TreeValid(k.tree) && Regions.IsFrameAligned(size)
    requires var o := AllocateKernelRegion(k, size, name, typ, flags); o.Done? && o.result.Ok?
    ensures var o := AllocateKernelRegion(k, size, name, typ, flags);
            Find(k.tree, typ).Some? && Find(o.kernel.tree, typ) == Find(k.tree, typ)
            && o.kernel.tree.regions[Find(k.tree, typ).value].subregions[name] == o.result.value.region.range
  {
    var fs, p := KernelRegionPieces(k, size, name, typ, flags);
    var o := AllocateKernelRegion(k, size, name, typ, flags);
    FindSameTypes(k.tree, o.kernel.tree, typ);
  }

  /** Allocating a kernel region and freeing its name in the tree gives back the tree. */
  lemma KernelRegionFreed(k: Kernel, size: nat, name: string, typ: RegionType, flags: EntryFlags)
    requires TreeValid(k.tree) && Regions.IsFrameAligned(size)
    requires Find(k.tree, typ).Some? ==> name !in k.tree.regions[Find(k.tree, typ).value].subregions
    ensures var o := AllocateKernelRegion(k, size, name, typ, flags);
            o.Done? && o.result.Ok? ==>
              TryDeallocateFromRegion(o.kernel.tree, typ, name) == (k.tree, Ok(o.result.value.region.range))
  {
    var o := AllocateKernelRegion(k, size, name, typ, flags);
    if o.Done? && o.result.Ok? {
      var fs, p := KernelRegionPieces(k, size, name, typ, flags);
      SizeRoundTrip(k.tree, name, typ, RegionSize(typ, size));
    }
  }
}
