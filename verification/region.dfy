/**
 * The kernel's virtual memory regions: access flags and their page-table
 * encoding, the region tree (one best-fit range allocator per region, plus
 * the named sub-regions handed out of it) and the view a virtual memory
 * region gives of its page range, with the guard page of stacks.
 */
module VirtualRegions {
  import opened Wrappers
  import opened PageEntry
  import opened RangeAllocator
  import Regions

  // ---------------------------------------------------------------------------
  // Access flags

  datatype AccessFlags = Read | ReadWrite | Execute | ReadWriteExecute

  /** The two entry bits an access mode is encoded in. */
  const ACCESS_BITS: bv64 := WRITABLE | NO_EXECUTE

  /** `val.contains(bits)`: every bit of `bits` is set in `val`. */
  predicate HasFlags(val: bv64, bits: bv64) {
    val & bits == bits
  }

  predicate Writable(a: AccessFlags) {
    a.ReadWrite? || a.ReadWriteExecute?
  }

  predicate Executable(a: AccessFlags) {
    a.Execute? || a.ReadWriteExecute?
  }

  /** `Into<PageTableEntryFlags>`: writable modes set WRITABLE, non-executable ones NO_EXECUTE, nothing else. */
  function IntoEntryFlags(a: AccessFlags): (f: EntryFlags)
    ensures f & WRITABLE != 0 <==> Writable(a)
    ensures f & NO_EXECUTE != 0 <==> !Executable(a)
    ensures f & !ACCESS_BITS == 0
  {
    match a
    case Read => NO_EXECUTE
    case ReadWrite => WRITABLE | NO_EXECUTE
    case Execute => NONE
    case ReadWriteExecute => WRITABLE
  }

  /** `From<PageTableEntryFlags>`: only the WRITABLE and NO_EXECUTE bits decide the mode. */
  function FromEntryFlags(val: bv64): (a: AccessFlags)
    ensures Writable(a) <==> val & WRITABLE != 0
    ensures Executable(a) <==> val & NO_EXECUTE == 0
  {
    if HasFlags(val, WRITABLE | NO_EXECUTE) then ReadWrite
    else if HasFlags(val, WRITABLE) then ReadWriteExecute
    else if HasFlags(val, NO_EXECUTE) then Read
    else Execute
  }

  /** Converting an access mode to entry flags and back gives it back. */
  lemma AccessFlagsRoundTrip(a: AccessFlags)
    ensures FromEntryFlags(IntoEntryFlags(a)) == a
  {
  }

  /** Converting entry flags to an access mode and back keeps exactly their WRITABLE and NO_EXECUTE bits. */
  lemma EntryFlagsRoundTrip(val: bv64)
    ensures IntoEntryFlags(FromEntryFlags(val)) == val & ACCESS_BITS
  {
    if val & WRITABLE != 0 {
      if val & NO_EXECUTE != 0 {
        assert val & ACCESS_BITS == ACCESS_BITS;
      } else {
        assert val & ACCESS_BITS == WRITABLE;
      }
    } else if val & NO_EXECUTE != 0 {
      assert val & ACCESS_BITS == NO_EXECUTE;
    } else {
      assert val & ACCESS_BITS == 0;
    }
  }

  // ---------------------------------------------------------------------------
  // Page ranges

  /** The start address of a 4 KiB page. */
  type PageAddress = a: nat | Regions.IsFrameAligned(a)

  /**
   * `PageRangeInclusive`: the pages from `first` to `last`, both included;
   * empty when `first > last`.
   */
  datatype PageRange = PageRange(first: PageAddress, last: PageAddress)

  predicate IsEmpty(p: PageRange) {
    p.first > p.last
  }

  /** The conversion to an allocator range: from the first page's start to the last page's end. */
  function IntoRange(p: PageRange): (r: Range)
    ensures r.start == p.first && r.end == p.last + Regions.FRAME_SIZE
    ensures NonEmpty(r) <==> !IsEmpty(p)
  {
    Range(p.first, p.last + Regions.FRAME_SIZE)
  }

  /** The number of pages of the range. */
  function PageCount(p: PageRange): (n: nat)
    ensures n == 0 <==> IsEmpty(p)
    ensures !IsEmpty(p) ==> p.first + n * Regions.FRAME_SIZE == p.last + Regions.FRAME_SIZE
  {
    if IsEmpty(p) then 0 else (p.last - p.first) / Regions.FRAME_SIZE + 1
  }

  /** The size of the range in bytes. */
  function ByteSize(p: PageRange): (s: nat)
    ensures s == PageCount(p) * Regions.FRAME_SIZE
  {
    PageCount(p) * Regions.FRAME_SIZE
  }

  /** `contains_address`: `addr` lies in one of the pages. */
  predicate ContainsAddress(p: PageRange, addr: nat) {
    p.first <= addr < p.last + Regions.FRAME_SIZE
  }

  /** The pages holding the bytes `start` to `end - 1` of a range: the page range `try_allocate_size_in_region` records. */
  function Covering(x: Range): (p: PageRange)
    requires x.start < x.end
    ensures forall addr :: x.start <= addr < x.end ==> ContainsAddress(p, addr)
    ensures !IsEmpty(p)
  {
    PageRange(Regions.ContainingFrame(x.start), Regions.ContainingFrame(x.end - 1))
  }

  /** The pages covering a page-aligned range convert back to that very range. */
  lemma CoveringExact(x: Range)
    requires x.start < x.end && Regions.IsFrameAligned(x.start) && Regions.IsFrameAligned(x.end)
    ensures IntoRange(Covering(x)) == x
  {
    var q := x.end / Regions.FRAME_SIZE;
    assert x.end == q * Regions.FRAME_SIZE;
    assert x.end - 1 == (q - 1) * Regions.FRAME_SIZE + (Regions.FRAME_SIZE - 1);
    assert (x.end - 1) % Regions.FRAME_SIZE == Regions.FRAME_SIZE - 1;
  }

  // ---------------------------------------------------------------------------
  // Mapping requests

  /** A `map_to(frame, page, flags)` call the kernel makes while setting up a region. */
  datatype MapRequest = MapRequest(frame: nat, page: nat, flags: EntryFlags)

  /** The frames mapped in order onto consecutive pages from `firstPage`, all with `flags`. */
  function Consecutive(frames: seq<nat>, firstPage: nat, flags: EntryFlags): (calls: seq<MapRequest>)
    ensures |calls| == |frames|
    ensures forall i :: 0 <= i < |frames| ==>
              calls[i] == MapRequest(frames[i], firstPage + i * Regions.FRAME_SIZE, flags)
  {
    seq(|frames|, i requires 0 <= i < |frames| => MapRequest(frames[i], firstPage + i * Regions.FRAME_SIZE, flags))
  }

  /** Some request maps the page holding `addr`. */
  predicate MapsAddress(calls: seq<MapRequest>, addr: nat) {
    exists i :: 0 <= i < |calls| && calls[i].page <= addr < calls[i].page + Regions.FRAME_SIZE
  }

  /** Consecutive pages from `firstPage` map exactly the bytes from `firstPage` to the end of the last page. */
  lemma ConsecutiveCovers(frames: seq<nat>, firstPage: nat, flags: EntryFlags, addr: nat)
    ensures MapsAddress(Consecutive(frames, firstPage, flags), addr)
            <==> firstPage <= addr < firstPage + |frames| * Regions.FRAME_SIZE
  {
    var calls := Consecutive(frames, firstPage, flags);
    if firstPage <= addr < firstPage + |frames| * Regions.FRAME_SIZE {
      var i := (addr - firstPage) / Regions.FRAME_SIZE;
      assert calls[i].page <= addr < calls[i].page + Regions.FRAME_SIZE;
    }
    if MapsAddress(calls, addr) {
      var i :| 0 <= i < |calls| && calls[i].page <= addr < calls[i].page + Regions.FRAME_SIZE;
      assert (i + 1) * Regions.FRAME_SIZE <= |frames| * Regions.FRAME_SIZE;
    }
  }

  /** The requests map exactly the bytes from `lo` to `hi`. */
  ghost predicate DataCovers(calls: seq<MapRequest>, lo: nat, hi: nat) {
    forall addr: nat :: MapsAddress(calls, addr) <==> lo <= addr < hi
  }

  /** The requests map `frames` in order, all with `flags`. */
  predicate FramesInOrder(calls: seq<MapRequest>, frames: seq<nat>, flags: EntryFlags) {
    |calls| == |frames| && forall j :: 0 <= j < |frames| ==> calls[j].frame == frames[j] && calls[j].flags == flags
  }

  /** Consecutive requests from `first` for `size` bytes of frames cover exactly those bytes. */
  lemma ConsecutiveLayout(fs: seq<nat>, first: nat, flags: EntryFlags, size: nat)
    requires |fs| * Regions.FRAME_SIZE == size
    ensures DataCovers(Consecutive(fs, first, flags), first, first + size)
    ensures FramesInOrder(Consecutive(fs, first, flags), fs, flags)
  {
    forall addr: nat
      ensures MapsAddress(Consecutive(fs, first, flags), addr) <==> first <= addr < first + size
    {
      ConsecutiveCovers(fs, first, flags, addr);
    }
  }

  // ---------------------------------------------------------------------------
  // The region tree

  datatype RegionType = Stack | Heap | Elf | Other

  datatype MemoryError =
    | OutOfPhysicalMemory
    | OutOfVirtualMemory
    | InvalidSize
    | InvalidRange
    | InvalidRegion
    | Other

  /** A region: its range allocator and the named sub-regions allocated from it. */
  datatype RegionInfo = RegionInfo(allocator: Allocator, subregions: map<string, PageRange>, typ: RegionType)

  datatype RegionTree = RegionTree(regions: seq<RegionInfo>)

  function NewTree(): (t: RegionTree)
    ensures |t.regions| == 0
  {
    RegionTree([])
  }

  /** `add_region`: append a region whose allocator manages the whole page range and has nothing allocated. */
  function AddRegion(t: RegionTree, typ: RegionType, range: PageRange): (u: RegionTree)
    ensures |u.regions| == |t.regions| + 1 && u.regions[..|t.regions|] == t.regions
    ensures var info := u.regions[|t.regions|];
            info.typ == typ && info.allocator.total == IntoRange(range)
            && |info.allocator.ranges| == 0 && |info.subregions| == 0
  {
    RegionTree(t.regions + [RegionInfo(New(IntoRange(range)), map[], typ)])
  }

  /** `iter().find(|r| r.typ == typ)` from position `i` on. */
  function FindFrom(rs: seq<RegionInfo>, typ: RegionType, i: nat): (o: Option<nat>)
    requires i <= |rs|
    ensures o.Some? ==> i <= o.value < |rs| && rs[o.value].typ == typ
                        && forall j :: i <= j < o.value ==> rs[j].typ != typ
    ensures o.None? ==> forall j :: i <= j < |rs| ==> rs[j].typ != typ
    decreases |rs| - i
  {
    if i == |rs| then Option.None
    else if rs[i].typ == typ then Some(i)
    else FindFrom(rs, typ, i + 1)
  }

  /** The first region of type `typ`. */
  function Find(t: RegionTree, typ: RegionType): (o: Option<nat>)
    ensures o.Some? ==> o.value < |t.regions| && t.regions[o.value].typ == typ
                        && forall j :: 0 <= j < o.value ==> t.regions[j].typ != typ
    ensures o.None? ==> forall j :: 0 <= j < |t.regions| ==> t.regions[j].typ != typ
  {
    FindFrom(t.regions, typ, 0)
  }

  /** Trees with the same region types find the same region. */
  lemma FindSameTypes(t: RegionTree, u: RegionTree, typ: RegionType)
    requires |t.regions| == |u.regions|
    requires forall j :: 0 <= j < |t.regions| ==> t.regions[j].typ == u.regions[j].typ
    ensures Find(t, typ) == Find(u, typ)
  {
    var o, p := Find(t, typ), Find(u, typ);
    if o.Some? && p.Some? {
      assert !(o.value < p.value) && !(p.value < o.value);
    }
  }

  /** `try_allocate_range_in_region`. */
  function TryAllocateRangeInRegion(t: RegionTree, name: string, typ: RegionType, range: PageRange)
    : (res: (RegionTree, Result<(), MemoryError>))
    ensures Find(t, typ).None? ==> res == (t, Err(MemoryError.Other))
    ensures Find(t, typ).Some? ==>
              var i := Find(t, typ).value;
              var info := t.regions[i];
              if NoOverlap(info.allocator.ranges, IntoRange(range)) && ContainsRange(info.allocator.total, IntoRange(range))
              then res.1 == Ok(()) && |res.0.regions| == |t.regions|
                   && (forall j :: 0 <= j < |t.regions| && j != i ==> res.0.regions[j] == t.regions[j])
                   && res.0.regions[i].typ == typ
                   && res.0.regions[i].subregions == info.subregions[name := range]
                   && res.0.regions[i].allocator.total == info.allocator.total
                   && IntoRange(range) in res.0.regions[i].allocator.ranges
              else res == (t, Err(InvalidRange))
  {
    match Find(t, typ)
    case None => (t, Err(MemoryError.Other))
    case Some(i) =>
      var info := t.regions[i];
      var (a, ok) := TryAllocateRange(info.allocator, IntoRange(range));
      if !ok then (t, Err(InvalidRange))
      else (RegionTree(t.regions[i := RegionInfo(a, info.subregions[name := range], info.typ)]), Ok(()))
  }

  /** `try_allocate_size_in_region`: `size` is a whole number of pages, as `PageAlignedSize` guarantees. */
  function TryAllocateSizeInRegion(t: RegionTree, name: string, typ: RegionType, size: nat)
    : (res: (RegionTree, Result<PageRange, MemoryError>))
    requires Regions.IsFrameAligned(size)
    ensures size == 0 ==> res == (t, Err(InvalidSize))
    ensures size > 0 && Find(t, typ).None? ==> res == (t, Err(MemoryError.Other))
    ensures size > 0 && Find(t, typ).Some? ==>
              var i := Find(t, typ).value;
              var info := t.regions[i];
              var x := TryAllocateSize(info.allocator, size).1;
              if x.Some?
              then res.1 == Ok(Covering(x.value)) && |res.0.regions| == |t.regions|
                   && (forall j :: 0 <= j < |t.regions| && j != i ==> res.0.regions[j] == t.regions[j])
                   && res.0.regions[i].typ == typ
                   && res.0.regions[i].subregions == info.subregions[name := Covering(x.value)]
                   && res.0.regions[i].allocator == TryAllocateSize(info.allocator, size).0
              else res == (t, Err(OutOfVirtualMemory))
  {
    if size == 0 then (t, Err(InvalidSize))
    else
      match Find(t, typ)
      case None => (t, Err(MemoryError.Other))
      case Some(i) =>
        var info := t.regions[i];
        var (a, x) := TryAllocateSize(info.allocator, size);
        match x
        case None => (t, Err(OutOfVirtualMemory))
        case Some(r) =>
          var p := Covering(r);
          (RegionTree(t.regions[i := RegionInfo(a, info.subregions[name := p], info.typ)]), Ok(p))
  }

  /** `try_deallocate_from_region`: the result of freeing the range in the allocator is ignored. */
  function TryDeallocateFromRegion(t: RegionTree, typ: RegionType, name: string)
    : (res: (RegionTree, Result<PageRange, MemoryError>))
    ensures res.1.Ok? <==> Find(t, typ).Some? && name in t.regions[Find(t, typ).value].subregions
    ensures res.1.Ok? ==>
              var i := Find(t, typ).value;
              var info := t.regions[i];
              res.1.value == info.subregions[name] && |res.0.regions| == |t.regions|
              && (forall j :: 0 <= j < |t.regions| && j != i ==> res.0.regions[j] == t.regions[j])
              && res.0.regions[i].typ == typ
              && res.0.regions[i].subregions == info.subregions - {name}
              && res.0.regions[i].allocator == DeallocateRange(info.allocator, IntoRange(res.1.value)).0
    ensures res.1.Err? ==> res == (t, Err(InvalidRegion))
  {
    match Find(t, typ)
    case None => (t, Err(InvalidRegion))
    case Some(i) =>
      var info := t.regions[i];
      if name !in info.subregions then (t, Err(InvalidRegion))
      else
        var range := info.subregions[name];
        var (a, _) := DeallocateRange(info.allocator, IntoRange(range));
        (RegionTree(t.regions[i := RegionInfo(a, info.subregions - {name}, info.typ)]), Ok(range))
  }

  // ---------------------------------------------------------------------------
  // The tree's invariant and round trips

  /** Every allocated range of `a` starts and ends on a page boundary, and so does the managed range's start. */
  predicate PageAligned(a: Allocator) {
    Regions.IsFrameAligned(a.total.start)
    && forall x :: x in a.ranges ==> Regions.IsFrameAligned(x.start) && Regions.IsFrameAligned(x.end)
  }

  /** Every region's allocator keeps its invariant and allocates whole pages. */
  predicate TreeValid(t: RegionTree) {
    forall i :: 0 <= i < |t.regions| ==> Valid(t.regions[i].allocator) && PageAligned(t.regions[i].allocator)
  }

  /** A new region's allocator is valid and page-aligned. */
  lemma AddRegionValid(t: RegionTree, typ: RegionType, range: PageRange)
    requires TreeValid(t)
    ensures TreeValid(AddRegion(t, typ, range))
  {
    var u := AddRegion(t, typ, range);
    assert forall i :: 0 <= i < |t.regions| ==> u.regions[i] == t.regions[i];
  }

  /** A page-aligned allocator hands out page-aligned ranges by size. */
  lemma SizeAllocationAligned(a: Allocator, size: nat)
    requires PageAligned(a) && Regions.IsFrameAligned(size) && TryAllocateSize(a, size).1.Some?
    ensures var x := TryAllocateSize(a, size).1.value;
            Regions.IsFrameAligned(x.start) && Regions.IsFrameAligned(x.end)
    ensures PageAligned(TryAllocateSize(a, size).0)
  {
    var res := TryAllocateSize(a, size);
    var x := res.1.value;
    BestFit(a, size);
    var k: nat :| k <= |a.ranges| && x.start == LastEnd(a, k);
    LastEndAligned(a, k);
    assert Regions.IsFrameAligned(x.end) by {
      var q1, q2 := x.start / Regions.FRAME_SIZE, size / Regions.FRAME_SIZE;
      assert x.end == (q1 + q2) * Regions.FRAME_SIZE;
    }
  }

  lemma LastEndAligned(a: Allocator, i: nat)
    requires PageAligned(a) && i <= |a.ranges|
    ensures Regions.IsFrameAligned(LastEnd(a, i))
  {
    if i > 0 {
      assert a.ranges[i - 1] in a.ranges;
    }
  }

  /** Allocation by size keeps the tree's invariant. */
  lemma AllocateSizeKeepsValid(t: RegionTree, name: string, typ: RegionType, size: nat)
    requires TreeValid(t) && Regions.IsFrameAligned(size)
    ensures TreeValid(TryAllocateSizeInRegion(t, name, typ, size).0)
  {
    var res := TryAllocateSizeInRegion(t, name, typ, size);
    if res.1.Ok? {
      var i := Find(t, typ).value;
      var a := t.regions[i].allocator;
      CheckedSizeRoundTrip(a, size);
      SizeAllocationAligned(a, size);
    }
  }

  /** Allocation of a page range keeps the tree's invariant. */
  lemma AllocateRangeKeepsValid(t: RegionTree, name: string, typ: RegionType, range: PageRange)
    requires TreeValid(t) && !IsEmpty(range)
    ensures TreeValid(TryAllocateRangeInRegion(t, name, typ, range).0)
  {
    var res := TryAllocateRangeInRegion(t, name, typ, range);
    if res.1.Ok? {
      var i := Find(t, typ).value;
      var a := t.regions[i].allocator;
      CheckedRangeRoundTrip(a, IntoRange(range));
    }
  }

  /** Deallocation keeps the tree's invariant. */
  lemma DeallocateKeepsValid(t: RegionTree, typ: RegionType, name: string)
    requires TreeValid(t)
    ensures TreeValid(TryDeallocateFromRegion(t, typ, name).0)
  {
    var res := TryDeallocateFromRegion(t, typ, name);
    if res.1.Ok? {
      var i := Find(t, typ).value;
      DeallocateValid(t.regions[i].allocator, IntoRange(res.1.value));
    }
  }

  /**
   * Allocating a sub-region by size under a fresh name and then freeing it
   * by that name gives back the tree and the same page range.
   */
  lemma SizeRoundTrip(t: RegionTree, name: string, typ: RegionType, size: nat)
    requires TreeValid(t) && Regions.IsFrameAligned(size)
    requires Find(t, typ).Some? ==> name !in t.regions[Find(t, typ).value].subregions
    ensures var (u, r) := TryAllocateSizeInRegion(t, name, typ, size);
            r.Ok? ==> TryDeallocateFromRegion(u, typ, name) == (t, r)
  {
    var (u, r) := TryAllocateSizeInRegion(t, name, typ, size);
    if r.Ok? {
      var i := Find(t, typ).value;
      var info := t.regions[i];
      var a := info.allocator;
      var x := TryAllocateSize(a, size).1.value;
      FindSameTypes(t, u, typ);
      SizeAllocationAligned(a, size);
      CoveringExact(x);
      CheckedSizeRoundTrip(a, size);
      assert u.regions[i].subregions - {name} == info.subregions;
      assert u.regions[i := info] == t.regions;
    }
  }

  /**
   * Allocating a non-empty page range under a fresh name and then freeing
   * it by that name gives back the tree and the range.
   */
  lemma RangeRoundTrip(t: RegionTree, name: string, typ: RegionType, range: PageRange)
    requires TreeValid(t) && !IsEmpty(range)
    requires Find(t, typ).Some? ==> name !in t.regions[Find(t, typ).value].subregions
    ensures var (u, r) := TryAllocateRangeInRegion(t, name, typ, range);
            r.Ok? ==> TryDeallocateFromRegion(u, typ, name) == (t, Ok(range))
  {
    var (u, r) := TryAllocateRangeInRegion(t, name, typ, range);
    if r.Ok? {
      var i := Find(t, typ).value;
      var info := t.regions[i];
      FindSameTypes(t, u, typ);
      CheckedRangeRoundTrip(info.allocator, IntoRange(range));
      assert u.regions[i].subregions - {name} == info.subregions;
      assert u.regions[i := info] == t.regions;
    }
  }

  /**
   * Allocating twice under one name keeps only the second range under that
   * name, while the allocator still holds the first: it can no longer be
   * freed through the tree.
   */
  lemma SameNameLosesRange(t: RegionTree, name: string, typ: RegionType, size: nat)
    requires TreeValid(t) && Regions.IsFrameAligned(size)
    requires TryAllocateSizeInRegion(t, name, typ, size).1.Ok?
    ensures var (u, r1) := TryAllocateSizeInRegion(t, name, typ, size);
            var (w, r2) := TryAllocateSizeInRegion(u, name, typ, size);
            var i := Find(t, typ).value;
            r2.Ok? ==> w.regions[i].subregions[name] == r2.value && r2.value != r1.value
                       && IntoRange(r1.value) in w.regions[i].allocator.ranges
  {
    var (u, r1) := TryAllocateSizeInRegion(t, name, typ, size);
    var (w, r2) := TryAllocateSizeInRegion(u, name, typ, size);
    var i := Find(t, typ).value;
    if r2.Ok? {
      FindSameTypes(t, u, typ);
      var a := t.regions[i].allocator;
      var b := u.regions[i].allocator;
      var x1 := TryAllocateSize(a, size).1.value;
      SizeAllocationAligned(a, size);
      CoveringExact(x1);
      CheckedSizeRoundTrip(a, size);
      var x2 := TryAllocateSize(b, size).1.value;
      SizeAllocationAligned(b, size);
      CoveringExact(x2);
      AllocatedSizeDisjoint(b, size);
      assert x1 in b.ranges;
      var k :| 0 <= k < |b.ranges| && b.ranges[k] == x1;
      assert !RangesOverlap(b.ranges[k], x2);
      assert x1 != x2;
    }
  }

  // ---------------------------------------------------------------------------
  // Virtual memory regions

  /** A region's page range, name, type and access mode; its backing object is not modelled. */
  datatype VirtualMemoryRegion = VirtualMemoryRegion(range: PageRange, name: string, typ: RegionType, access: AccessFlags)

  /** `start`: a stack's first page is its guard page and is skipped. */
  function Start(v: VirtualMemoryRegion): (s: nat)
    ensures v.typ == Stack ==> s == v.range.first + Regions.FRAME_SIZE
    ensures v.typ != Stack ==> s == v.range.first
  {
    if v.typ == Stack then v.range.first + Regions.FRAME_SIZE else v.range.first
  }

  /** `end`: the end of the last page. */
  function End(v: VirtualMemoryRegion): (e: nat)
    ensures e == IntoRange(v.range).end
  {
    v.range.last + Regions.FRAME_SIZE
  }

  /**
   * `size`: a stack's size leaves out the guard page; for a stack of no
   * pages the `usize` subtraction underflows and panics (None).
   */
  function Size(v: VirtualMemoryRegion): (s: Option<nat>)
    ensures s.None? <==> v.typ == Stack && IsEmpty(v.range)
    ensures s.Some? && v.typ == Stack ==> s.value + Regions.FRAME_SIZE == ByteSize(v.range)
    ensures s.Some? && v.typ != Stack ==> s.value == ByteSize(v.range)
  {
    if v.typ == Stack then
      if ByteSize(v.range) < Regions.FRAME_SIZE then Option.None
      else Some(ByteSize(v.range) - Regions.FRAME_SIZE)
    else Some(ByteSize(v.range))
  }

  /** `contains`: page-range containment, which includes a stack's guard page. */
  predicate Contains(v: VirtualMemoryRegion, addr: nat) {
    ContainsAddress(v.range, addr)
  }

  /** For a non-empty range, `start` and `size` describe exactly the bytes up to `end`. */
  lemma StartSizeEnd(v: VirtualMemoryRegion)
    requires !IsEmpty(v.range)
    ensures Size(v).Some? && Start(v) + Size(v).value == End(v)
  {
  }

  /**
   * An address is contained exactly when it lies between `start` and
   * `end`, or, for a stack, in the guard page just below `start`.
   */
  lemma ContainsBetweenStartEnd(v: VirtualMemoryRegion, addr: nat)
    requires !IsEmpty(v.range)
    ensures Contains(v, addr) <==>
              (Start(v) <= addr < End(v)) || (v.typ == Stack && v.range.first <= addr < Start(v))
  {
  }
}
