/**
 * Physical and virtual addresses, 4 KiB frames and pages, and the
 * page-table index fields of a virtual address.
 *
 * Addresses are `bv64`. The model follows a build with overflow checks, so
 * every `+`, `-` or `*` of the source that leaves the `u64` range is a
 * panic, written `None`. The operations carry no contracts of their own;
 * each property is a separate lemma, which keeps every bit-vector proof
 * obligation small. The allocators model addresses as integers instead,
 * because their properties are about arithmetic rather than bit layout.
 */
module Memory {
  import opened Wrappers

  /** `Size4KiB::SIZE`, the size of a frame and of a page. */
  const PAGE_SIZE: bv64 := 0x1000

  /** Mask of the 48 translated bits of a virtual address. */
  const ADDRESS_MASK_48: bv64 := 0xFFFF_FFFF_FFFF

  /** Frame and page counts from this one on overflow `Size4KiB::SIZE * n`. */
  const STEP_LIMIT: bv64 := 0x10_0000_0000_0000

  /** `align` is a nonzero power of two. */
  predicate IsPowerOfTwo(align: bv64) {
    align != 0 && align & (align - 1) == 0
  }

  /** `addr` is a multiple of the power of two `align`. */
  predicate IsAligned(addr: bv64, align: bv64) {
    addr & (align - 1) == 0
  }

  /** `addr` lies on a 4 KiB boundary. */
  predicate IsPageAligned(addr: bv64) {
    addr & 0xFFF == 0
  }

  /** `addr + n` leaves the `u64` range: the sum modulo 2^64 falls below `addr`. */
  predicate AddOverflows(addr: bv64, n: bv64) {
    addr + n < addr
  }

  /** The bits of `addr` from `align` up: the value `align_down` computes. */
  function MaskDown(addr: bv64, align: bv64): bv64 {
    addr & !(align - 1)
  }

  /** `PhysicalAddress::align_down`: `align - 1` underflows, and panics, for a zero `align`. */
  function AlignDown(addr: bv64, align: bv64): Option<bv64> {
    if align == 0 then None else Some(MaskDown(addr, align))
  }

  /**
   * `PhysicalAddress::align_up`, and `VirtualAddress::align_up`. Rust
   * evaluates `self.0 + align` first, so that sum overflowing panics even
   * when the aligned result would fit; a zero `align` panics at `align - 1`.
   */
  function AlignUp(addr: bv64, align: bv64): Option<bv64> {
    if align == 0 || AddOverflows(addr, align) then None
    else Some((addr + align - 1) & !(align - 1))
  }

  /** `VirtualAddress::align_down` as written: it masks with `align - 1` instead of its complement. */
  function VirtualAlignDownAsWritten(addr: bv64, align: bv64): Option<bv64> {
    if align == 0 then None else Some(addr & (align - 1))
  }

  /** `align_down` panics exactly for a zero `align` and otherwise yields a multiple of `align`. */
  lemma AlignDownAligned(addr: bv64, align: bv64)
    ensures AlignDown(addr, align).None? <==> align == 0
    ensures AlignDown(addr, align).Some? ==> IsAligned(AlignDown(addr, align).value, align)
  {
  }

  /** `align_down` never moves an address up. */
  lemma AlignDownBelow(addr: bv64, align: bv64)
    ensures AlignDown(addr, align).Some? ==> AlignDown(addr, align).value <= addr
  {
  }

  /** `align_down` only clears the bits below `align`: adding them back gives `addr`. */
  lemma AlignDownSplit(addr: bv64, align: bv64)
    ensures AlignDown(addr, align).Some? ==> AlignDown(addr, align).value | (addr & (align - 1)) == addr
  {
  }

  /** For a power-of-two `align` the cleared bits are worth less than `align`. */
  lemma LowBitsBelowAlign(addr: bv64, align: bv64)
    requires IsPowerOfTwo(align)
    ensures addr & (align - 1) < align
  {
  }

  /**
   * `align_up` to a power of two panics exactly when `addr + align`
   * overflows; otherwise it yields a multiple of `align`.
   */
  lemma AlignUpAligned(addr: bv64, align: bv64)
    requires IsPowerOfTwo(align)
    ensures AlignUp(addr, align).None? <==> AddOverflows(addr, align)
    ensures AlignUp(addr, align).Some? ==> IsAligned(AlignUp(addr, align).value, align)
  {
  }

  /** `align_up` without the overflow panic is the least multiple of `align` at or above `addr`: not below it and less than `align` above it. */
  predicate AlignsUpWithin(addr: bv64, align: bv64)
    requires AlignUp(addr, align).Some?
  {
    addr <= AlignUp(addr, align).value && AlignUp(addr, align).value - addr < align
  }

  /** The bound of `align_up` for 4 KiB, the alignment the kernel loader passes. */
  lemma AlignUpWithinPage(addr: bv64)
    requires AlignUp(addr, PAGE_SIZE).Some?
    ensures AlignsUpWithin(addr, PAGE_SIZE)
  {
  }

  /** The bound of `align_up` for 2 MiB, the other page size of the paging code. */
  lemma AlignUpWithinHugePage(addr: bv64)
    requires AlignUp(addr, 0x20_0000).Some?
    ensures AlignsUpWithin(addr, 0x20_0000)
  {
  }

  /**
   * `align_up` to 4 KiB panics in the last page of the address space, and
   * otherwise keeps an aligned address and moves any other to the next
   * page boundary.
   */
  lemma AlignUpPage(addr: bv64)
    ensures AlignUp(addr, PAGE_SIZE).None? <==> addr >= 0xFFFF_FFFF_FFFF_F000
    ensures AlignUp(addr, PAGE_SIZE).Some? && IsPageAligned(addr) ==> AlignUp(addr, PAGE_SIZE).value == addr
    ensures AlignUp(addr, PAGE_SIZE).Some? && !IsPageAligned(addr) ==>
              AlignUp(addr, PAGE_SIZE).value == MaskDown(addr, PAGE_SIZE) + PAGE_SIZE
  {
    AlignUpPageBits(addr);
  }

  lemma AlignUpPageBits(addr: bv64)
    ensures addr & 0xFFF == 0 ==> (addr + 0xFFF) & !0xFFF == addr
    ensures addr & 0xFFF != 0 ==> (addr + 0xFFF) & !0xFFF == (addr & !0xFFF) + 0x1000
  {
  }

  /**
   * In the last page of the address space `align_up` to 4 KiB panics, even
   * for the page-aligned address whose aligned value would be itself.
   */
  lemma AlignUpPanicsAtTop()
    ensures AlignUp(0xFFFF_FFFF_FFFF_F001, PAGE_SIZE).None?
    ensures AlignUp(0xFFFF_FFFF_FFFF_F000, PAGE_SIZE).None?
    ensures AlignUp(0xFFFF_FFFF_FFFF_E001, PAGE_SIZE) == Some(0xFFFF_FFFF_FFFF_F000)
  {
  }

  /**
   * The as-written virtual `align_down` returns the offset inside the
   * aligned block, the bits that the physical `align_down` clears.
   */
  lemma VirtualAlignDownIsOffset(addr: bv64, align: bv64)
    ensures VirtualAlignDownAsWritten(addr, align).None? <==> AlignDown(addr, align).None?
    ensures VirtualAlignDownAsWritten(addr, align).Some? ==>
              VirtualAlignDownAsWritten(addr, align).value | AlignDown(addr, align).value == addr
    ensures VirtualAlignDownAsWritten(addr, align).Some? ==>
              VirtualAlignDownAsWritten(addr, align).value & AlignDown(addr, align).value == 0
  {
  }

  /** The as-written virtual `align_down` of 0x1234 to 4 KiB is 0x234, which is not page-aligned. */
  lemma VirtualAlignDownNotAligned()
    ensures VirtualAlignDownAsWritten(0x1234, PAGE_SIZE) == Some(0x234)
    ensures !IsPageAligned(VirtualAlignDownAsWritten(0x1234, PAGE_SIZE).value)
  {
  }

  /** Index of the level-4 entry: bits 39..=47. */
  function L4Index(addr: bv64): bv64 {
    (addr >> 39) & 0x1FF
  }

  /** Index of the level-3 entry: bits 30..=38. */
  function L3Index(addr: bv64): bv64 {
    (addr >> 30) & 0x1FF
  }

  /** Index of the level-2 entry: bits 21..=29. */
  function L2Index(addr: bv64): bv64 {
    (addr >> 21) & 0x1FF
  }

  /** Index of the level-1 entry: bits 12..=20. */
  function L1Index(addr: bv64): bv64 {
    (addr >> 12) & 0x1FF
  }

  /** The offset inside the 4 KiB page: bits 0..=11. */
  function PageOffset(addr: bv64): bv64 {
    addr & 0xFFF
  }

  /** Every table index is below 512, the number of entries in a table. */
  lemma IndicesBelow512(addr: bv64)
    ensures L4Index(addr) < 512 && L3Index(addr) < 512
    ensures L2Index(addr) < 512 && L1Index(addr) < 512
  {
  }

  /** The four indices and the page offset together recompose bits 0..=47 of the address. */
  lemma IndicesRecompose(addr: bv64)
    ensures (L4Index(addr) << 39) | (L3Index(addr) << 30) | (L2Index(addr) << 21)
            | (L1Index(addr) << 12) | PageOffset(addr) == addr & ADDRESS_MASK_48
  {
  }

  /**
   * Two addresses below 2^48 whose four indices agree lie on the same 4 KiB
   * page, so distinct pages are reached through distinct index paths.
   */
  lemma SameIndicesSamePage(a: bv64, b: bv64)
    requires a <= ADDRESS_MASK_48 && b <= ADDRESS_MASK_48
    requires L4Index(a) == L4Index(b) && L3Index(a) == L3Index(b)
    requires L2Index(a) == L2Index(b) && L1Index(a) == L1Index(b)
    ensures AlignDown(a, PAGE_SIZE) == AlignDown(b, PAGE_SIZE)
  {
    IndicesRecompose(a);
    IndicesRecompose(b);
  }

  /** `Add<u64>` for addresses: advances by `n` bytes, and panics when the sum overflows. */
  function AddBytes(addr: bv64, n: bv64): Option<bv64> {
    if AddOverflows(addr, n) then None else Some(addr + n)
  }

  /** A 4 KiB physical frame, identified by its start address. */
  datatype Frame = Frame(start: bv64)

  /** A 4 KiB virtual page, identified by its start address. */
  datatype Page = Page(start: bv64)

  /** `PhysicalFrame::at_address`; `Size4KiB::SIZE` is not zero, so its `align_down` cannot panic. */
  function FrameAt(addr: bv64): Frame {
    Frame(MaskDown(addr, PAGE_SIZE))
  }

  /** `Page::at_address` as written, built on the as-written virtual `align_down`. */
  function PageAtAsWritten(addr: bv64): Page {
    Page(addr & (PAGE_SIZE - 1))
  }

  /** The page holding `addr`, the evidently intended `Page::at_address`. */
  function PageContaining(addr: bv64): Page {
    Page(MaskDown(addr, PAGE_SIZE))
  }

  /** `PhysicalFrame::at_address` yields the page-aligned frame holding `addr`. */
  lemma FrameAtContains(addr: bv64)
    ensures Some(FrameAt(addr).start) == AlignDown(addr, PAGE_SIZE)
    ensures IsPageAligned(FrameAt(addr).start)
    ensures FrameAt(addr).start <= addr
    ensures addr - FrameAt(addr).start < PAGE_SIZE
  {
  }

  /** The page holding `addr` starts at a page boundary at most one page below `addr`. */
  lemma PageContainingContains(addr: bv64)
    ensures IsPageAligned(PageContaining(addr).start)
    ensures PageContaining(addr).start <= addr
    ensures addr - PageContaining(addr).start < PAGE_SIZE
  {
  }

  /** `Page::at_address` as written disagrees with the page holding 0x1234. */
  lemma PageAtAsWrittenWrong()
    ensures Some(PageAtAsWritten(0x1234).start) == VirtualAlignDownAsWritten(0x1234, PAGE_SIZE)
    ensures PageAtAsWritten(0x1234).start == 0x234
    ensures PageContaining(0x1234).start == 0x1000
  {
  }

  /** `Size4KiB::SIZE * n`: panics once `n` reaches `STEP_LIMIT`, and below it is a shift by 12 bits (`PagesBytesShift`). */
  function PagesBytes(n: bv64): Option<bv64> {
    if n >= STEP_LIMIT then None else Some(n << 12)
  }

  /** `address + Size4KiB::SIZE * n`, the address arithmetic of `Frame + n` and `Page + n`. */
  function StepFrom(start: bv64, n: bv64): Option<bv64> {
    match PagesBytes(n)
    case None => None
    case Some(d) => AddBytes(start, d)
  }

  /** `PhysicalFrame + n`: advances by `n` whole frames; either multiplication or addition may overflow. */
  function FrameAdd(f: Frame, n: bv64): Option<Frame> {
    match StepFrom(f.start, n)
    case None => None
    case Some(a) => Some(Frame(a))
  }

  /** `Page + n`: advances by `n` whole pages, with the same overflow panics. */
  function PageAdd(p: Page, n: bv64): Option<Page> {
    match StepFrom(p.start, n)
    case None => None
    case Some(a) => Some(Page(a))
  }

  /** `4096 * n` below `STEP_LIMIT` is a shift by 12 bits, which a shift back undoes. */
  lemma PagesBytesShift(n: bv64)
    requires n < STEP_LIMIT
    ensures PAGE_SIZE * n == n << 12 && (n << 12) >> 12 == n
  {
  }

  /** The distance from `a` back from `a + d` is `d`. */
  lemma AddBytesDistance(a: bv64, d: bv64)
    ensures (a + d) - a == d
  {
  }

  /** `addr` moved up to `v` by exactly `n` bytes, without wrapping. */
  predicate MovedUpBy(addr: bv64, n: bv64, v: bv64) {
    addr <= v && v - addr == n
  }

  /** Adding `n` bytes to an address panics exactly on overflow. */
  lemma AddBytesPanics(addr: bv64, n: bv64)
    ensures AddBytes(addr, n).None? <==> AddOverflows(addr, n)
  {
  }

  /** An address add that does not panic moves the address up by exactly `n`. */
  lemma AddBytesAdvances(addr: bv64, n: bv64)
    requires AddBytes(addr, n).Some?
    ensures MovedUpBy(addr, n, AddBytes(addr, n).value)
  {
    AddBytesPanics(addr, n);
    AddWithin(addr, n);
  }

  /** A sum that does not overflow lies above the address, by exactly the amount added. */
  lemma AddWithin(addr: bv64, n: bv64)
    requires !AddOverflows(addr, n)
    ensures MovedUpBy(addr, n, addr + n)
  {
    AddBytesDistance(addr, n);
  }

  /** `start` moved to `v` by exactly `n * 4096` bytes, without wrapping. */
  predicate AdvancedBy(start: bv64, n: bv64, v: bv64) {
    start <= v && v - start == n << 12 && (v - start) >> 12 == n
  }

  /** The step panics exactly when the byte count or the new address overflows. */
  lemma StepFromPanics(start: bv64, n: bv64)
    ensures StepFrom(start, n).None? <==> n >= STEP_LIMIT || AddOverflows(start, n << 12)
  {
  }

  /** A step that does not panic lands on `start + (n << 12)`. */
  lemma StepFromValue(start: bv64, n: bv64)
    requires StepFrom(start, n).Some?
    ensures n < STEP_LIMIT && !AddOverflows(start, n << 12)
    ensures StepFrom(start, n).value == start + (n << 12)
  {
    StepFromPanics(start, n);
    StepFromIsAdd(start, n);
  }

  /** Below the limit the byte count is exact, so the step is a plain address add. */
  lemma StepFromIsAdd(start: bv64, n: bv64)
    requires n < STEP_LIMIT
    ensures StepFrom(start, n) == AddBytes(start, n << 12)
  {
  }

  /** The step that neither panic cuts short advances by `n` whole pages. */
  lemma StepWithin(start: bv64, n: bv64)
    requires n < STEP_LIMIT && !AddOverflows(start, n << 12)
    ensures AdvancedBy(start, n, start + (n << 12))
  {
    PagesBytesShift(n);
    AddBytesDistance(start, n << 12);
  }

  /** `StepFrom` under the frame and page wrappers. */
  lemma AddIsStep(f: Frame, p: Page, n: bv64)
    ensures FrameAdd(f, n).None? <==> StepFrom(f.start, n).None?
    ensures PageAdd(p, n).None? <==> StepFrom(p.start, n).None?
    ensures FrameAdd(f, n).Some? ==> FrameAdd(f, n).value.start == StepFrom(f.start, n).value
    ensures PageAdd(p, n).Some? ==> PageAdd(p, n).value.start == StepFrom(p.start, n).value
  {
  }

  /** A step from `start` that does not panic advances it by `n` whole pages. */
  lemma StepFromAdvances(start: bv64, n: bv64)
    requires StepFrom(start, n).Some?
    ensures AdvancedBy(start, n, StepFrom(start, n).value)
  {
    StepFromValue(start, n);
    StepWithin(start, n);
  }

  /**
   * Adding `n` to a frame or a page moves its start by exactly `n * 4096`
   * bytes; it panics exactly when that amount, or the new start, does not
   * fit in 64 bits.
   */
  lemma StepAdvancesByPages(f: Frame, p: Page, n: bv64)
    ensures FrameAdd(f, n).None? <==> n >= STEP_LIMIT || AddOverflows(f.start, n << 12)
    ensures PageAdd(p, n).None? <==> n >= STEP_LIMIT || AddOverflows(p.start, n << 12)
    ensures FrameAdd(f, n).Some? ==> AdvancedBy(f.start, n, FrameAdd(f, n).value.start)
    ensures PageAdd(p, n).Some? ==> AdvancedBy(p.start, n, PageAdd(p, n).value.start)
  {
    AddIsStep(f, p, n);
    StepFromPanics(f.start, n);
    StepFromPanics(p.start, n);
    if FrameAdd(f, n).Some? {
      StepFromAdvances(f.start, n);
    }
    if PageAdd(p, n).Some? {
      StepFromAdvances(p.start, n);
    }
  }

  /** An aligned address plus whole pages is aligned. */
  lemma AlignedSum(a: bv64, n: bv64)
    ensures IsPageAligned(a) ==> IsPageAligned(a + (n << 12))
  {
  }

  /** Stepping an aligned frame or page keeps it aligned. */
  lemma StepKeepsAlignment(f: Frame, p: Page, n: bv64)
    ensures IsPageAligned(f.start) && FrameAdd(f, n).Some? ==> IsPageAligned(FrameAdd(f, n).value.start)
    ensures IsPageAligned(p.start) && PageAdd(p, n).Some? ==> IsPageAligned(PageAdd(p, n).value.start)
  {
    AddIsStep(f, p, n);
    if FrameAdd(f, n).Some? {
      StepFromValue(f.start, n);
      AlignedSum(f.start, n);
    }
    if PageAdd(p, n).Some? {
      StepFromValue(p.start, n);
      AlignedSum(p.start, n);
    }
  }
}
