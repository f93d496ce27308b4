/**
 * Physical memory regions as reported by the BIOS E820 call (chapter 15,
 * System Address Map Interfaces, of the ACPI Specification), and the
 * `MemoryRegion` view every frame allocator works with.
 *
 * Addresses are integers; `end` is `start + size` without the 64-bit
 * wrap-around, which no region reported by firmware reaches.
 */
module Regions {

  /** `Size4KiB::SIZE`. */
  const FRAME_SIZE: nat := 4096

  /** `E820MemoryRegionType`, whose default is `None`. */
  datatype E820Type = None | Normal | Reserved | AcpiReclaimable | AcpiNvs | Unusable

  /** `PhysicalMemoryRegionType`. */
  datatype PhysicalType = Free | Reserved

  /** `E820MemoryRegion`: 8 bytes of start, 8 of size, a 4-byte type and 4 bytes of ACPI attributes. */
  datatype Region = Region(start: nat, size: nat, typ: E820Type, acpiAttributes: nat)

  /** `PhysicalMemoryRegion`. */
  datatype PhysicalRegion = PhysicalRegion(start: nat, size: nat, typ: PhysicalType)

  /** The byte size of one E820 record. */
  const E820_RECORD_SIZE: nat := 8 + 8 + 4 + 4

  /** `end`: the first address after the region. */
  function End(r: Region): nat {
    r.start + r.size
  }

  /** `contains`: inclusive at both ends, so the address `end` itself counts as inside. */
  predicate Contains(r: Region, addr: nat) {
    r.start <= addr <= End(r)
  }

  /** `is_usable`: only `Normal` memory may be handed out. */
  predicate IsUsable(r: Region) {
    r.typ == Normal
  }

  /** `set_start`: moves the start and keeps the size, so the end moves with it. */
  function SetStart(r: Region, start: nat): (q: Region)
    ensures q.size == r.size && q.typ == r.typ && q.acpiAttributes == r.acpiAttributes
    ensures End(q) == End(r) - r.start + start
  {
    r.(start := start)
  }

  /** `set_size`: changes the size and nothing else. */
  function SetSize(r: Region, size: nat): (q: Region)
    ensures q.start == r.start && q.typ == r.typ && q.acpiAttributes == r.acpiAttributes
    ensures End(q) == r.start + size
  {
    r.(size := size)
  }

  /** `E820MemoryRegion::empty`. */
  function Empty(): (r: Region)
    ensures !IsUsable(r) && End(r) == 0 && Contains(r, 0)
  {
    Region(0, 0, Unusable, 0)
  }

  /** `Into<PhysicalMemoryRegionType>`: `Normal` is free memory, every other type is reserved. */
  function IntoPhysicalType(t: E820Type): (p: PhysicalType)
    ensures p == Free <==> t == Normal
  {
    match t
    case Normal => Free
    case _ => PhysicalType.Reserved
  }

  /** `Into<PhysicalMemoryRegion>`: start and size are kept, and the region is free exactly when usable. */
  function IntoPhysical(r: Region): (p: PhysicalRegion)
    ensures p.start == r.start && p.size == r.size
    ensures p.typ == Free <==> IsUsable(r)
  {
    PhysicalRegion(r.start, r.size, IntoPhysicalType(r.typ))
  }

  /** A region contains its own end address. */
  lemma ContainsEnd(r: Region)
    ensures Contains(r, End(r))
    ensures !Contains(r, End(r) + 1)
  {
  }

  /** `start` is 4 KiB-aligned. */
  predicate IsFrameAligned(addr: nat) {
    addr % FRAME_SIZE == 0
  }

  /** `PhysicalFrame::containing_address`: the start of the 4 KiB frame holding `addr`. */
  function ContainingFrame(addr: nat): (f: nat)
    ensures IsFrameAligned(f) && f <= addr < f + FRAME_SIZE
  {
    addr - addr % FRAME_SIZE
  }

  /** The memory map is in ascending order with no overlap: each region ends at or before the next one starts. */
  predicate SortedDisjoint(m: seq<Region>) {
    forall i, j :: 0 <= i < j < |m| ==> End(m[i]) <= m[j].start
  }

  /** Every region of the map starts on a 4 KiB boundary. */
  predicate AlignedStarts(m: seq<Region>) {
    forall i :: 0 <= i < |m| ==> IsFrameAligned(m[i].start)
  }

  /** `addr` lies in `[start, end)` of a usable region of the map. */
  predicate InUsableRegion(m: seq<Region>, addr: nat) {
    exists i :: 0 <= i < |m| && IsUsable(m[i]) && m[i].start <= addr < End(m[i])
  }

  /** `s` is strictly increasing, hence free of duplicates. */
  predicate StrictlyIncreasing(s: seq<nat>) {
    forall i, j :: 0 <= i < j < |s| ==> s[i] < s[j]
  }
}
