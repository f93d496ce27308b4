/**
 * The kernel's buddy frame allocator: the shared buddy lists plus a pool of
 * 512 list nodes that every free block occupies. Panics of the code
 * (assertions, an exhausted pool, an out-of-range list index) are the
 * `Panicked` outcome.
 */
module BuddyFrameAllocator {
  import opened Wrappers
  import opened Powers
  import opened BuddyCore
  import Regions

  /** `LIST_SIZE`: the number of nodes in the pool. */
  const LIST_SIZE: nat := 512
  /** The lowest set bit the code assumes for address 0. */
  const ZERO_LOWBIT: nat := 64

  /** The allocator: the free lists and the number of nodes left in the pool. */
  datatype Allocator = Allocator(lists: FreeLists, pool: nat)

  /** Outcome of an operation that may panic. */
  datatype Step<T> = Panicked | Done(allocator: Allocator, value: T)

  /** `new`: empty lists and a full pool. */
  function New(): (a: Allocator)
    ensures Total(a.lists) == 0 && Sized(a.lists) && a.pool + Count(a.lists) == LIST_SIZE
  {
    Allocator(EmptyLists(), LIST_SIZE)
  }

  lemma ZeroLowBitIsPow2()
    ensures IsPow2(ZERO_LOWBIT)
  {
  }

  /**
   * `add_frame(start, end)`: assert `start <= end`, then file one pool node
   * per block of the tiling of `[start, end)`; the pool panics when it runs dry.
   */
  function AddFrame(a: Allocator, start: nat, end: nat): (r: Step<()>)
    ensures r.Panicked? <==> start > end || |Tiles(start, end, ZERO_LOWBIT)| > a.pool
    ensures r.Done? ==> Total(r.allocator.lists) == Total(a.lists) + (end - start)
    ensures r.Done? ==> r.allocator.pool + Count(r.allocator.lists) == a.pool + Count(a.lists)
    ensures r.Done? && Sized(a.lists) ==> Sized(r.allocator.lists)
  {
    ZeroLowBitIsPow2();
    if start > end then Panicked
    else
      var blocks := Tiles(start, end, ZERO_LOWBIT);
      if |blocks| > a.pool then Panicked
      else
        TilesTile(start, end, ZERO_LOWBIT);
        TilingTotal(blocks, start, end);
        Done(Allocator(AddBlocks(a.lists, blocks), a.pool - |blocks|), ())
  }

  /**
   * `init`: `add_frame(start, end - 1)` for every usable region. A usable
   * region of size 0 fails the assertion, and one ending at address 0
   * underflows.
   */
  function Init(a: Allocator, m: seq<Regions.Region>): (r: Step<()>)
    ensures r.Done? && Sized(a.lists) ==> Sized(r.allocator.lists)
    ensures r.Done? ==> r.allocator.pool + Count(r.allocator.lists) == a.pool + Count(a.lists)
    decreases |m|
  {
    if |m| == 0 then Done(a, ())
    else if !Regions.IsUsable(m[0]) then Init(a, m[1..])
    else if Regions.End(m[0]) == 0 then Panicked
    else
      match AddFrame(a, m[0].start, Regions.End(m[0]) - 1)
      case Panicked => Panicked
      case Done(b, _) => Init(b, m[1..])
  }

  /** Each usable region adds one byte less than its size: its last byte never reaches a free list. */
  lemma InitRegionShortByOne(a: Allocator, r: Regions.Region)
    requires Regions.IsUsable(r) && Init(a, [r]).Done?
    ensures Total(Init(a, [r]).allocator.lists) + 1 == Total(a.lists) + r.size
  {
    assert [r][1..] == [];
  }

  /** `add_frame(start, end)` with the region's true end: every byte of the region is added. */
  function InitRegionFull(a: Allocator, r: Regions.Region): (s: Step<()>)
    requires Regions.IsUsable(r)
    ensures s.Done? ==> Total(s.allocator.lists) == Total(a.lists) + r.size
  {
    AddFrame(a, r.start, Regions.End(r))
  }

  /** With the true end the blocks cover exactly the region's addresses. */
  lemma InitRegionFullCovers(r: Regions.Region, x: nat)
    ensures IsPow2(ZERO_LOWBIT)
    ensures r.start <= x < Regions.End(r) <==> InSomeBlock(Tiles(r.start, Regions.End(r), ZERO_LOWBIT), x)
  {
    ZeroLowBitIsPow2();
    var bs := Tiles(r.start, Regions.End(r), ZERO_LOWBIT);
    TilesTile(r.start, Regions.End(r), ZERO_LOWBIT);
    TilingCovers(bs, r.start, Regions.End(r), x);
  }

  /**
   * `alloc_power_of_two(size)`: find the first non-empty list at order
   * `trailing_zeros(size)` or above, split down to that order (two pool
   * nodes per split; the split block's own node is not given back), then
   * pop the front of the wanted list. An order of `MAX_ORDER` or more
   * indexes past the lists.
   */
  function AllocPowerOfTwo(a: Allocator, size: nat): (r: Step<Option<Block>>)
    ensures r.Panicked? <==> TrailingZeros(size) >= MAX_ORDER
                             || (FirstNonEmpty(a.lists, TrailingZeros(size)).Some?
                                 && a.pool < 2 * (FirstNonEmpty(a.lists, TrailingZeros(size)).value - TrailingZeros(size)))
    ensures r.Done? ==> TrailingZeros(size) < MAX_ORDER
    ensures r.Done? && r.value.None? ==> r.allocator == a
    ensures r.Done? && r.value.None? <==> r.Done? && FirstNonEmpty(a.lists, TrailingZeros(size)).None?
    ensures r.Done? && r.value.Some? ==>
              var d := FirstNonEmpty(a.lists, TrailingZeros(size)).value - TrailingZeros(size);
              r.allocator.pool + Count(r.allocator.lists) + 1 + d == a.pool + Count(a.lists)
  {
    var order := TrailingZeros(size);
    if order >= MAX_ORDER then Panicked
    else
      match FirstNonEmpty(a.lists, order)
      case None => Done(a, Option.None)
      case Some(i) =>
        if a.pool < 2 * (i - order) then Panicked
        else
          var (l, b) := Pop(Split(a.lists, i, order), order);
          Done(Allocator(l, a.pool - 2 * (i - order)), Some(b))
  }

  /** `alloc(size)`: round up to a power of two, allocate, and give the block's node back to the pool. */
  function Alloc(a: Allocator, size: nat): (r: Step<Option<Block>>)
    ensures r.Panicked? <==> AllocPowerOfTwo(a, NextPow2(size)).Panicked?
    ensures r.Done? ==> r.value == AllocPowerOfTwo(a, NextPow2(size)).value
  {
    match AllocPowerOfTwo(a, NextPow2(size))
    case Panicked => Panicked
    case Done(b, None) => Done(b, Option.None)
    case Done(b, Some(block)) => Done(b.(pool := b.pool + 1), Some(block))
  }

  /**
   * On sized lists, a successful allocation returns a block of exactly
   * `next_power_of_two(size)` bytes, aligned to that size, and removes
   * exactly those bytes from the free lists, which stay sized.
   */
  lemma AllocSound(a: Allocator, size: nat)
    requires Sized(a.lists) && Alloc(a, size).Done? && Alloc(a, size).value.Some?
    ensures var r := Alloc(a, size);
            var b := r.value.value;
            b.size == NextPow2(size) && AlignedTo(b.start, Log2(NextPow2(size)))
            && Total(r.allocator.lists) + b.size == Total(a.lists)
            && Sized(r.allocator.lists)
  {
    var n := NextPow2(size);
    var order := TrailingZeros(n);
    Log2Pow2(n);
    TrailingZerosPow2(Log2(n));
    var i := FirstNonEmpty(a.lists, order).value;
    var l := Split(a.lists, i, order);
    assert ListSized(l[order], order);
  }

  /** The allocated block is the top piece of the front block of the first non-empty list at or above its order. */
  lemma AllocTopPiece(a: Allocator, size: nat)
    requires Alloc(a, size).Done? && Alloc(a, size).value.Some?
    ensures var order := TrailingZeros(NextPow2(size));
            order < MAX_ORDER && FirstNonEmpty(a.lists, order).Some?
            && var i := FirstNonEmpty(a.lists, order).value;
               Alloc(a, size).value.value.start + NextPow2(size) == a.lists[i][0].start + Pow2(i)
  {
    var n := NextPow2(size);
    var order := TrailingZeros(n);
    Log2Pow2(n);
    TrailingZerosPow2(Log2(n));
    var i := FirstNonEmpty(a.lists, order).value;
    if i > order {
      SplitBottom(a.lists, i, order);
    }
  }

  /** The pool leaks one node per split: after an allocation that split `d` times, `d` nodes are gone for good. */
  lemma AllocLeaksSplitNodes(a: Allocator, size: nat)
    requires Alloc(a, size).Done? && Alloc(a, size).value.Some?
    ensures var r := Alloc(a, size);
            var order := TrailingZeros(NextPow2(size));
            var d := FirstNonEmpty(a.lists, order).value - order;
            r.allocator.pool + Count(r.allocator.lists) + d == a.pool + Count(a.lists)
  {
  }

  /** `alloc_power_of_two` with the split block's node given back to the pool. */
  function AllocReturningNodes(a: Allocator, size: nat): (r: Step<Option<Block>>)
    ensures r.Done? ==> r.allocator.pool + Count(r.allocator.lists) == a.pool + Count(a.lists)
  {
    var order := TrailingZeros(NextPow2(size));
    match AllocPowerOfTwo(a, NextPow2(size))
    case Panicked => Panicked
    case Done(b, None) => Done(b, Option.None)
    case Done(b, Some(block)) =>
      var d := FirstNonEmpty(a.lists, order).value - order;
      Done(b.(pool := b.pool + 1 + d), Some(block))
  }

  /**
   * `dealloc(region)`: assert the size is even, then merge from order
   * `trailing_zeros(size)`. Each merged buddy's node goes back to the pool;
   * placing the final region takes one.
   */
  function Dealloc(a: Allocator, region: Block): (r: Step<bool>)
    ensures r.Done? ==> r.allocator.pool + Count(r.allocator.lists) == a.pool + Count(a.lists)
  {
    if region.size % 2 != 0 then Panicked
    else
      var o := Merge(a.lists, region, TrailingZeros(region.size), MAX_ORDER);
      if o.placed && a.pool + o.merges == 0 then Panicked
      else Done(Allocator(o.lists, a.pool + o.merges - (if o.placed then 1 else 0)), o.placed)
  }

  /**
   * Freeing an aligned power-of-two block whose merges stop below order 20
   * puts back exactly its bytes, and the lists stay sized.
   */
  lemma DeallocPlacedAccounting(a: Allocator, region: Block, order: nat)
    requires Sized(a.lists) && 0 < order && region.size == Pow2(order) && AlignedTo(region.start, order)
    requires Dealloc(a, region).Done? && Dealloc(a, region).value
    ensures Total(Dealloc(a, region).allocator.lists) == Total(a.lists) + region.size
    ensures Sized(Dealloc(a, region).allocator.lists)
  {
    TrailingZerosPow2(order);
    MergeAccounting(a.lists, region, order, MAX_ORDER);
  }

  /**
   * When merging reaches order 20 the loop ends without filing the merged
   * block: the freed block and every buddy merged into it leave the free
   * lists, so the total falls short of the freed size.
   */
  lemma DeallocAtTopLosesBlock(a: Allocator, region: Block, order: nat)
    requires Sized(a.lists) && 0 < order && region.size == Pow2(order) && AlignedTo(region.start, order)
    requires Dealloc(a, region).Done? && !Dealloc(a, region).value
    ensures Total(Dealloc(a, region).allocator.lists) < Total(a.lists) + region.size
  {
    TrailingZerosPow2(order);
    MergeAccounting(a.lists, region, order, MAX_ORDER);
    MergeRegion(a.lists, region, order, MAX_ORDER);
  }

  /** Freeing the upper half of a free top-order block: both halves disappear from the lists. */
  lemma TopOrderMergeLoses()
    ensures var l := EmptyLists()[MAX_ORDER - 1 := [Block(0, MAX_BLOCK)]];
            var a := Allocator(l, LIST_SIZE);
            var r := Dealloc(a, Block(MAX_BLOCK, MAX_BLOCK));
            r.Done? && !r.value && Total(r.allocator.lists) == 0
  {
    var l: FreeLists := EmptyLists()[MAX_ORDER - 1 := [Block(0, MAX_BLOCK)]];
    var region := Block(MAX_BLOCK, MAX_BLOCK);
    assert MAX_BLOCK == 2 * Pow2(MAX_ORDER - 2);
    TrailingZerosPow2(MAX_ORDER - 1);
    assert Bit(MAX_BLOCK, MAX_ORDER - 1) == 1 by {
      HighBitSet(MAX_ORDER - 1);
    }
    assert FlipBit(MAX_BLOCK, MAX_ORDER - 1) == 0;
    assert Remove(l[MAX_ORDER - 1], 0) == Some(([], Block(0, MAX_BLOCK)));
    var l1: FreeLists := l[MAX_ORDER - 1 := []];
    assert l1 == EmptyLists();
    var merged := Block(0, MAX_BLOCK * 2);
    assert Merge(l1, merged, MAX_ORDER, MAX_ORDER) == MergeOutcome(l1, merged, false, 0);
    assert Merge(l, region, MAX_ORDER - 1, MAX_ORDER) == MergeOutcome(l1, merged, false, 1);
  }

  lemma {:induction false} HighBitSet(k: nat)
    ensures Bit(Pow2(k), k) == 1
  {
    if k > 0 {
      HighBitSet(k - 1);
    }
  }

  /**
   * `dealloc` with the merge capped at the top order: the merged region is
   * filed on the last list instead of being dropped, so every freed byte
   * comes back.
   */
  function DeallocCapped(a: Allocator, region: Block): (r: Step<()>)
    ensures r.Panicked? <==> region.size % 2 != 0
                             || a.pool + Merge(a.lists, region, TrailingZeros(region.size), MAX_ORDER - 1).merges == 0
    ensures r.Done? ==> r.allocator.pool + Count(r.allocator.lists) == a.pool + Count(a.lists)
  {
    if region.size % 2 != 0 then Panicked
    else
      var o := Merge(a.lists, region, TrailingZeros(region.size), MAX_ORDER - 1);
      if a.pool + o.merges == 0 then Panicked
      else if o.placed then Done(Allocator(o.lists, a.pool + o.merges - 1), ())
      else Done(Allocator(Push(o.lists, MAX_ORDER - 1, o.region), a.pool + o.merges - 1), ())
  }

  /** The capped merge puts back exactly the freed bytes and keeps the lists sized. */
  lemma DeallocCappedAccounting(a: Allocator, region: Block, order: nat)
    requires Sized(a.lists) && 0 < order < MAX_ORDER && region.size == Pow2(order) && AlignedTo(region.start, order)
    requires DeallocCapped(a, region).Done?
    ensures Total(DeallocCapped(a, region).allocator.lists) == Total(a.lists) + region.size
    ensures Sized(DeallocCapped(a, region).allocator.lists)
  {
    TrailingZerosPow2(order);
    MergeAccounting(a.lists, region, order, MAX_ORDER - 1);
    MergeRegion(a.lists, region, order, MAX_ORDER - 1);
  }

  /** `allocate_frame` for 4 KiB frames: a 4096-byte block, reported as the frame holding its start. */
  function AllocateFrame4KiB(a: Allocator): (r: Step<Option<nat>>)
    ensures r.Done? && r.value.Some? ==> Regions.IsFrameAligned(r.value.value)
  {
    match Alloc(a, Regions.FRAME_SIZE)
    case Panicked => Panicked
    case Done(b, None) => Done(b, Option.None)
    case Done(b, Some(block)) => Done(b, Some(Regions.ContainingFrame(block.start)))
  }

  /**
   * A 4 KiB frame is the allocated block itself: the block starts on a
   * frame boundary, so the frame starts where the block does, and 4096
   * bytes leave the free lists.
   */
  lemma AllocateFrame4KiBSound(a: Allocator)
    requires Sized(a.lists) && AllocateFrame4KiB(a).Done? && AllocateFrame4KiB(a).value.Some?
    ensures Alloc(a, Regions.FRAME_SIZE).Done? && Alloc(a, Regions.FRAME_SIZE).value.Some?
    ensures AllocateFrame4KiB(a).value.value == Alloc(a, Regions.FRAME_SIZE).value.value.start
    ensures Total(AllocateFrame4KiB(a).allocator.lists) + Regions.FRAME_SIZE == Total(a.lists)
  {
    PageSizePowers();
    var r := Alloc(a, Regions.FRAME_SIZE);
    AllocExact(a, 12);
    FrameAligned(r.value.value.start);
  }

  /** A request for exactly `2^k` bytes gets a block aligned to `2^k`. */
  lemma AllocExact(a: Allocator, k: nat)
    requires Sized(a.lists) && Alloc(a, Pow2(k)).Done? && Alloc(a, Pow2(k)).value.Some?
    ensures AlignedTo(Alloc(a, Pow2(k)).value.value.start, k)
    ensures Total(Alloc(a, Pow2(k)).allocator.lists) + Pow2(k) == Total(a.lists)
  {
    NextPow2Exact(k);
    Pow2IsPow2(k);
    AllocSound(a, Pow2(k));
  }

  /** Alignment to `2^12` is alignment to a 4 KiB frame, which `containing_address` leaves in place. */
  lemma FrameAligned(x: nat)
    requires AlignedTo(x, 12)
    ensures Regions.ContainingFrame(x) == x
  {
    PageSizePowers();
    var q := AlignedMultiple(x, 12);
    assert x == q * Regions.FRAME_SIZE;
    assert x % Regions.FRAME_SIZE == 0;
  }

  /**
   * `allocate_frame` for 2 MiB frames asks for order 21, past the twenty
   * lists, so it panics whatever the state.
   */
  function AllocateFrame2MiB(a: Allocator): (r: Step<Option<nat>>)
    ensures r.Panicked?
  {
    PageSizePowers();
    NextPow2Exact(21);
    TrailingZerosPow2(21);
    match Alloc(a, 0x20_0000)
    case Panicked => Panicked
    case Done(b, None) => Done(b, Option.None)
    case Done(b, Some(block)) => Done(b, Some(Regions.ContainingFrame(block.start)))
  }

  lemma {:induction false} NextPow2Exact(k: nat)
    ensures NextPow2(Pow2(k)) == Pow2(k)
  {
    Pow2IsPow2(k);
    NextPow2Least(Pow2(k), Pow2(k));
  }

  /** An order check in front of the lists: a request above the largest order reports no memory instead of panicking. */
  function AllocChecked(a: Allocator, size: nat): (r: Step<Option<Block>>)
    ensures TrailingZeros(NextPow2(size)) >= MAX_ORDER ==> r == Done(a, Option.None)
  {
    if TrailingZeros(NextPow2(size)) >= MAX_ORDER then Done(a, Option.None) else Alloc(a, size)
  }

  /** With the check, a 2 MiB frame request leaves the allocator unchanged and reports no frame. */
  lemma CheckedTwoMiBReportsNone(a: Allocator)
    ensures AllocChecked(a, 0x20_0000) == Done(a, Option.None)
  {
    PageSizePowers();
    NextPow2Exact(21);
    TrailingZerosPow2(21);
  }

  // ---------------------------------------------------------------------------
  // Disjointness of the free blocks

  /** `add_frame` puts each address of `[start, end)` in exactly one new free block, and no other address. */
  lemma AddFrameCover(a: Allocator, start: nat, end: nat, x: nat)
    requires AddFrame(a, start, end).Done?
    ensures Cover(AddFrame(a, start, end).allocator.lists, x) == Cover(a.lists, x) + (if start <= x < end then 1 else 0)
  {
    ZeroLowBitIsPow2();
    var blocks := Tiles(start, end, ZERO_LOWBIT);
    TilesTile(start, end, ZERO_LOWBIT);
    AddBlocksCover(a.lists, blocks, x);
    TilingCover(blocks, start, end, x);
  }

  /** From disjoint free blocks, `add_frame` leaves them disjoint exactly when no free block held any of the added addresses. */
  lemma AddFrameDisjoint(a: Allocator, start: nat, end: nat)
    requires Disjoint(a.lists) && AddFrame(a, start, end).Done?
    ensures Disjoint(AddFrame(a, start, end).allocator.lists) <==> Unheld(a.lists, start, end)
  {
    var l := AddFrame(a, start, end).allocator.lists;
    if Unheld(a.lists, start, end) {
      forall x: nat ensures Cover(l, x) <= 1 {
        AddFrameCover(a, start, end, x);
      }
    } else {
      var x: nat :| start <= x < end && Cover(a.lists, x) != 0;
      AddFrameCover(a, start, end, x);
    }
  }

  /**
   * `init` over a sorted memory map whose regions do not overlap, from
   * disjoint lists holding nothing at or above `bound`, with every region
   * at or above `bound`, keeps the free blocks disjoint.
   */
  lemma {:induction false} InitDisjointFrom(a: Allocator, m: seq<Regions.Region>, bound: nat)
    requires Disjoint(a.lists) && forall x: nat :: bound <= x ==> Cover(a.lists, x) == 0
    requires Regions.SortedDisjoint(m) && forall i :: 0 <= i < |m| ==> bound <= m[i].start
    requires Init(a, m).Done?
    ensures Disjoint(Init(a, m).allocator.lists)
    decreases |m|
  {
    if |m| > 0 {
      assert forall i :: 0 <= i < |m| - 1 ==> m[1..][i] == m[i + 1];
      if !Regions.IsUsable(m[0]) {
        InitDisjointFrom(a, m[1..], bound);
      } else {
        var end := Regions.End(m[0]);
        var b := AddFrame(a, m[0].start, end - 1).allocator;
        AddFrameDisjoint(a, m[0].start, end - 1);
        forall x: nat | end <= x ensures Cover(b.lists, x) == 0 {
          AddFrameCover(a, m[0].start, end - 1, x);
        }
        InitDisjointFrom(b, m[1..], end);
      }
    }
  }

  /** `init` of a new allocator over a sorted, non-overlapping memory map leaves no address in two free blocks. */
  lemma InitDisjoint(m: seq<Regions.Region>)
    requires Regions.SortedDisjoint(m) && Init(New(), m).Done?
    ensures Disjoint(Init(New(), m).allocator.lists)
  {
    forall x: nat ensures Cover(New().lists, x) == 0 {
      EmptyCover(x);
    }
    InitDisjointFrom(New(), m, 0);
  }

  /** On sized lists, an allocation takes exactly the returned block's addresses off the free lists. */
  lemma AllocCover(a: Allocator, size: nat, x: nat)
    requires Sized(a.lists) && Alloc(a, size).Done? && Alloc(a, size).value.Some?
    ensures Cover(Alloc(a, size).allocator.lists, x) + Covers(Alloc(a, size).value.value, x) == Cover(a.lists, x)
  {
    var order := TrailingZeros(NextPow2(size));
    var i := FirstNonEmpty(a.lists, order).value;
    SplitCover(a.lists, i, order, x);
    PopCover(Split(a.lists, i, order), order, x);
  }

  /**
   * From sized, disjoint lists, every address of an allocated block was
   * free, no block left on the lists overlaps it, and the remaining free
   * blocks stay disjoint.
   */
  lemma AllocDisjoint(a: Allocator, size: nat)
    requires Sized(a.lists) && Disjoint(a.lists) && Alloc(a, size).Done? && Alloc(a, size).value.Some?
    ensures var r := Alloc(a, size);
            var b := r.value.value;
            Disjoint(r.allocator.lists) && Unheld(r.allocator.lists, b.start, b.start + b.size)
            && forall x: nat :: b.start <= x < b.start + b.size ==> Cover(a.lists, x) == 1
  {
    forall x: nat ensures Cover(Alloc(a, size).allocator.lists, x) + Covers(Alloc(a, size).value.value, x) == Cover(a.lists, x) {
      AllocCover(a, size, x);
    }
  }

  /**
   * `dealloc` of an aligned power-of-two block: a block it files adds
   * exactly the freed addresses; a region lost at the top order takes
   * addresses away, never adds any.
   */
  lemma DeallocCover(a: Allocator, region: Block, order: nat, x: nat)
    requires Sized(a.lists) && 0 < order && region.size == Pow2(order) && AlignedTo(region.start, order)
    requires Dealloc(a, region).Done?
    ensures Cover(Dealloc(a, region).allocator.lists, x) <= Cover(a.lists, x) + Covers(region, x)
    ensures Dealloc(a, region).value ==> Cover(Dealloc(a, region).allocator.lists, x) == Cover(a.lists, x) + Covers(region, x)
  {
    TrailingZerosPow2(order);
    MergeCover(a.lists, region, order, MAX_ORDER, x);
  }

  /** Freeing a block no free block overlaps keeps the free blocks disjoint. */
  lemma DeallocDisjoint(a: Allocator, region: Block, order: nat)
    requires Sized(a.lists) && Disjoint(a.lists) && 0 < order && region.size == Pow2(order) && AlignedTo(region.start, order)
    requires Unheld(a.lists, region.start, region.start + region.size) && Dealloc(a, region).Done?
    ensures Disjoint(Dealloc(a, region).allocator.lists)
  {
    forall x: nat ensures Cover(Dealloc(a, region).allocator.lists, x) <= 1 {
      DeallocCover(a, region, order, x);
    }
  }

  /**
   * Freeing a block that is still free files it a second time: with
   * `[0, 4 KiB)` on the order-12 list and its buddy in use, freeing it
   * again leaves address 0 in two free blocks.
   */
  lemma DoubleFreeOverlaps()
    ensures var a := Allocator(EmptyLists()[12 := [Block(0, 0x1000)]], LIST_SIZE);
            var r := Dealloc(a, Block(0, 0x1000));
            r.Done? && !Disjoint(r.allocator.lists)
  {
    var l: FreeLists := EmptyLists()[12 := [Block(0, 0x1000)]];
    var a := Allocator(l, LIST_SIZE);
    var region := Block(0, 0x1000);
    PageSizePowers();
    ZeroAligned(12);
    TrailingZerosPow2(12);
    assert FlipBit(0, 12) == 0x1000;
    assert Remove(l[12], 0x1000).None?;
    EmptyCover(0);
    CoverListsUpdate(EmptyLists(), 12, [Block(0, 0x1000)], 0);
    assert Cover(l, 0) == 1;
    DeallocCover(a, region, 12, 0);
    assert Cover(Dealloc(a, region).allocator.lists, 0) == 2;
  }

  /** The capped `dealloc` files exactly the freed addresses. */
  lemma DeallocCappedCover(a: Allocator, region: Block, order: nat, x: nat)
    requires Sized(a.lists) && 0 < order < MAX_ORDER && region.size == Pow2(order) && AlignedTo(region.start, order)
    requires DeallocCapped(a, region).Done?
    ensures Cover(DeallocCapped(a, region).allocator.lists, x) == Cover(a.lists, x) + Covers(region, x)
  {
    TrailingZerosPow2(order);
    MergeCover(a.lists, region, order, MAX_ORDER - 1, x);
    var o := Merge(a.lists, region, order, MAX_ORDER - 1);
    if !o.placed {
      PushCover(o.lists, MAX_ORDER - 1, o.region, x);
    }
  }

  /** From disjoint lists, the capped `dealloc` keeps them disjoint exactly when no free block overlapped the freed one. */
  lemma DeallocCappedDisjoint(a: Allocator, region: Block, order: nat)
    requires Sized(a.lists) && Disjoint(a.lists) && 0 < order < MAX_ORDER && region.size == Pow2(order) && AlignedTo(region.start, order)
    requires DeallocCapped(a, region).Done?
    ensures Disjoint(DeallocCapped(a, region).allocator.lists) <==> Unheld(a.lists, region.start, region.start + region.size)
  {
    var l := DeallocCapped(a, region).allocator.lists;
    if Unheld(a.lists, region.start, region.start + region.size) {
      forall x: nat ensures Cover(l, x) <= 1 {
        DeallocCappedCover(a, region, order, x);
      }
    } else {
      var x: nat :| region.start <= x < region.start + region.size && Cover(a.lists, x) != 0;
      DeallocCappedCover(a, region, order, x);
    }
  }
}
