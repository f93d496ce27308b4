/**
 * The kernel heap's buddy allocator. The free chunks live in the memory
 * they describe, so there is no node pool: a free block is a list entry and
 * nothing else. A `Layout` is its size and its power-of-two alignment.
 */
module BuddyHeap {
  import opened Wrappers
  import opened Powers
  import opened BuddyCore
  import Regions

  /** `size_of::<Chunk>()`: the link and the size word. */
  const MIN_SIZE: nat := 16
  /** The lowest set bit the code assumes for address 0. */
  const ZERO_LOWBIT: nat := 64

  /** Outcome of an operation that may panic. */
  datatype Step<T> = Panicked | Done(lists: FreeLists, value: T)

  function Max(a: nat, b: nat): nat {
    if a >= b then a else b
  }

  /**
   * `align_layout_size`: the smallest power of two that holds the request,
   * meets its alignment and is large enough for a chunk header.
   */
  function AlignLayoutSize(size: nat, align: nat): (s: nat)
    requires IsPow2(align)
    ensures IsPow2(s) && size <= s && align <= s && MIN_SIZE <= s
    ensures forall p :: IsPow2(p) && size <= p && align <= p && MIN_SIZE <= p ==> s <= p
  {
    Pow2IsPow2(4);
    forall p | IsPow2(p) && size <= p
      ensures NextPow2(size) <= p
    {
      NextPow2Least(size, p);
    }
    Max(NextPow2(size), Max(align, MIN_SIZE))
  }

  lemma ZeroLowBitIsPow2()
    ensures IsPow2(ZERO_LOWBIT)
  {
  }

  /** `add_region(start, end)`: assert `start <= end`, then push one chunk per block of the tiling of `[start, end)`. */
  function AddRegion(l: FreeLists, start: nat, end: nat): (r: Step<()>)
    ensures r.Panicked? <==> start > end
    ensures r.Done? ==> Total(r.lists) == Total(l) + (end - start)
    ensures r.Done? && Sized(l) ==> Sized(r.lists)
  {
    ZeroLowBitIsPow2();
    if start > end then Panicked
    else
      var blocks := Tiles(start, end, ZERO_LOWBIT);
      TilesTile(start, end, ZERO_LOWBIT);
      TilingTotal(blocks, start, end);
      Done(AddBlocks(l, blocks), ())
  }

  /** `init(start, size)`: the whole range `[start, start + size)` becomes free. */
  function Init(l: FreeLists, start: nat, size: nat): (r: FreeLists)
    ensures Total(r) == Total(l) + size
    ensures Sized(l) ==> Sized(r)
  {
    AddRegion(l, start, start + size).lists
  }

  /** Every byte handed to `init` lies in exactly one tile, so the free blocks cover the range. */
  lemma InitCovers(start: nat, size: nat, x: nat)
    ensures IsPow2(ZERO_LOWBIT)
    ensures start <= x < start + size <==> InSomeBlock(Tiles(start, start + size, ZERO_LOWBIT), x)
  {
    ZeroLowBitIsPow2();
    TilesTile(start, start + size, ZERO_LOWBIT);
    TilingCovers(Tiles(start, start + size, ZERO_LOWBIT), start, start + size, x);
  }

  /**
   * `init_from_memory_map`: `add_region(start, end - 1)` for every usable
   * region. An empty usable region panics: at address 0 the subtraction
   * underflows, elsewhere `start <= end - 1` fails.
   */
  function InitFromMemoryMap(l: FreeLists, m: seq<Regions.Region>): (r: Step<()>)
    ensures r.Done? && Sized(l) ==> Sized(r.lists)
    ensures r.Panicked? <==> exists i :: 0 <= i < |m| && Regions.IsUsable(m[i]) && m[i].size == 0
    decreases |m|
  {
    if |m| == 0 then Done(l, ())
    else if !Regions.IsUsable(m[0]) then
      var r := InitFromMemoryMap(l, m[1..]);
      assert forall i :: 0 < i < |m| ==> m[i] == m[1..][i - 1];
      r
    else if Regions.End(m[0]) == 0 then Panicked
    else
      match AddRegion(l, m[0].start, Regions.End(m[0]) - 1)
      case Panicked => Panicked
      case Done(l1, _) =>
        var r := InitFromMemoryMap(l1, m[1..]);
        assert forall i :: 0 < i < |m| ==> m[i] == m[1..][i - 1];
        r
  }

  /** The memory map path loses the last byte of each usable region, where `init` keeps it. */
  lemma MemoryMapShortByOne(l: FreeLists, r: Regions.Region)
    requires Regions.IsUsable(r) && r.size > 0
    ensures InitFromMemoryMap(l, [r]).Done?
    ensures Total(InitFromMemoryMap(l, [r]).lists) + 1 == Total(Init(l, r.start, r.size))
  {
    assert [r][1..] == [];
  }

  /** `init_from_memory_map` with each region's true end: the same bytes `init` would add. */
  function InitFromMemoryMapFull(l: FreeLists, m: seq<Regions.Region>): (r: FreeLists)
    ensures Total(r) == Total(l) + UsableBytes(m)
    ensures Sized(l) ==> Sized(r)
    decreases |m|
  {
    if |m| == 0 then l
    else if !Regions.IsUsable(m[0]) then InitFromMemoryMapFull(l, m[1..])
    else InitFromMemoryMapFull(Init(l, m[0].start, m[0].size), m[1..])
  }

  /** The bytes of the usable regions of a map. */
  function UsableBytes(m: seq<Regions.Region>): nat {
    if |m| == 0 then 0 else (if Regions.IsUsable(m[0]) then m[0].size else 0) + UsableBytes(m[1..])
  }

  /**
   * `alloc(layout)`: round the layout up with `align_layout_size`, split the
   * first non-empty list at or above that order down to it, and pop a chunk.
   * An order of `MAX_ORDER` or more indexes past the lists.
   */
  function Alloc(l: FreeLists, size: nat, align: nat): (r: Step<Option<Block>>)
    requires IsPow2(align)
    ensures r.Panicked? <==> TrailingZeros(AlignLayoutSize(size, align)) >= MAX_ORDER
    ensures r.Done? && r.value.None? <==> r.Done? && FirstNonEmpty(l, TrailingZeros(AlignLayoutSize(size, align))).None?
    ensures r.Done? && r.value.None? ==> r.lists == l
    ensures r.Done? && r.value.Some? ==> Count(r.lists) + 1 == Count(l) + (FirstNonEmpty(l, TrailingZeros(AlignLayoutSize(size, align))).value - TrailingZeros(AlignLayoutSize(size, align)))
  {
    var order := TrailingZeros(AlignLayoutSize(size, align));
    if order >= MAX_ORDER then Panicked
    else
      match FirstNonEmpty(l, order)
      case None => Done(l, Option.None)
      case Some(i) =>
        var (l1, b) := Pop(Split(l, i, order), order);
        Done(l1, Some(b))
  }

  /**
   * A chunk from `alloc` has the layout's rounded size, is aligned to it and
   * therefore to the layout's alignment, holds the request, and its bytes
   * leave the free lists.
   */
  lemma AllocSound(l: FreeLists, size: nat, align: nat)
    requires Sized(l) && IsPow2(align) && Alloc(l, size, align).Done? && Alloc(l, size, align).value.Some?
    ensures var r := Alloc(l, size, align);
            var b := r.value.value;
            b.size == AlignLayoutSize(size, align) && size <= b.size
            && AlignedTo(b.start, Log2(b.size)) && AlignedTo(b.start, Log2(align))
            && Total(r.lists) + b.size == Total(l) && Sized(r.lists)
  {
    var s := AlignLayoutSize(size, align);
    var order := TrailingZeros(s);
    Log2Pow2(s);
    TrailingZerosPow2(Log2(s));
    var i := FirstNonEmpty(l, order).value;
    var l1 := Split(l, i, order);
    assert ListSized(l1[order], order);
    var b := Alloc(l, size, align).value.value;
    Log2Monotone(align, s);
    AlignedWeaken(b.start, Log2(align), order);
  }

  /**
   * `dealloc(chunk)`: merge the chunk with free buddies from order
   * `trailing_zeros(size)` up; when merging reaches `MAX_ORDER` the merged
   * chunk is put on no list.
   */
  function Dealloc(l: FreeLists, chunk: Block): (r: MergeOutcome)
    ensures Count(r.lists) + r.merges == Count(l) + (if r.placed then 1 else 0)
  {
    Merge(l, chunk, TrailingZeros(chunk.size), MAX_ORDER)
  }

  /** Freeing a chunk whose merges stop below the top order gives back exactly its bytes. */
  lemma DeallocPlaced(l: FreeLists, chunk: Block, order: nat)
    requires Sized(l) && chunk.size == Pow2(order) && AlignedTo(chunk.start, order)
    requires Dealloc(l, chunk).placed
    ensures Total(Dealloc(l, chunk).lists) == Total(l) + chunk.size && Sized(Dealloc(l, chunk).lists)
  {
    TrailingZerosPow2(order);
    MergeAccounting(l, chunk, order, MAX_ORDER);
  }

  /** Freeing a chunk whose merges reach the top order loses it and every buddy merged into it. */
  lemma DeallocAtTopLoses(l: FreeLists, chunk: Block, order: nat)
    requires Sized(l) && chunk.size == Pow2(order) && AlignedTo(chunk.start, order)
    requires !Dealloc(l, chunk).placed
    ensures Total(Dealloc(l, chunk).lists) < Total(l) + chunk.size
  {
    TrailingZerosPow2(order);
    MergeAccounting(l, chunk, order, MAX_ORDER);
    MergeRegion(l, chunk, order, MAX_ORDER);
  }

  /** `dealloc` with the merge capped at the top order, filing the merged chunk on the last list. */
  function DeallocCapped(l: FreeLists, chunk: Block): (r: FreeLists)
    ensures Count(r) <= Count(l) + 1
  {
    var o := Merge(l, chunk, TrailingZeros(chunk.size), MAX_ORDER - 1);
    if o.placed then o.lists else Push(o.lists, MAX_ORDER - 1, o.region)
  }

  /** With the cap every freed byte comes back, however far the merging goes. */
  lemma DeallocCappedAccounting(l: FreeLists, chunk: Block, order: nat)
    requires Sized(l) && order < MAX_ORDER && chunk.size == Pow2(order) && AlignedTo(chunk.start, order)
    ensures Total(DeallocCapped(l, chunk)) == Total(l) + chunk.size && Sized(DeallocCapped(l, chunk))
  {
    TrailingZerosPow2(order);
    MergeAccounting(l, chunk, order, MAX_ORDER - 1);
    MergeRegion(l, chunk, order, MAX_ORDER - 1);
  }

  /** `GlobalAlloc::alloc`: the chunk's address, or a panic when the allocator has no memory. */
  function GlobalAllocate(l: FreeLists, size: nat, align: nat): (r: Step<nat>)
    requires IsPow2(align)
    ensures r.Done? <==> Alloc(l, size, align).Done? && Alloc(l, size, align).value.Some?
    ensures r.Done? ==> r.value == Alloc(l, size, align).value.value.start
  {
    match Alloc(l, size, align)
    case Panicked => Panicked
    case Done(_, None) => Panicked
    case Done(l1, Some(b)) => Done(l1, b.start)
  }

  /** `GlobalAlloc::dealloc`: rebuild the chunk from the pointer and the layout's rounded size, then free it. */
  function GlobalDeallocate(l: FreeLists, ptr: nat, size: nat, align: nat): (r: FreeLists)
    requires IsPow2(align)
    ensures Count(r) <= Count(l) + 1
  {
    Dealloc(l, Block(ptr, AlignLayoutSize(size, align))).lists
  }

  /**
   * Freeing a fresh allocation with the same layout rebuilds a chunk equal
   * to the one allocated; when its merges stop below the top order the free
   * bytes are back where they were.
   */
  lemma AllocDeallocRoundTrip(l: FreeLists, size: nat, align: nat)
    requires Sized(l) && IsPow2(align) && GlobalAllocate(l, size, align).Done?
    requires var a := GlobalAllocate(l, size, align);
             Dealloc(a.lists, Block(a.value, AlignLayoutSize(size, align))).placed
    ensures var a := GlobalAllocate(l, size, align);
            Block(a.value, AlignLayoutSize(size, align)) == Alloc(l, size, align).value.value
            && Total(GlobalDeallocate(a.lists, a.value, size, align)) == Total(l)
  {
    AllocSound(l, size, align);
    var a := GlobalAllocate(l, size, align);
    var s := AlignLayoutSize(size, align);
    Log2Pow2(s);
    DeallocPlaced(a.lists, Block(a.value, s), Log2(s));
  }

  // ---------------------------------------------------------------------------
  // Disjointness of the free chunks

  /** `add_region` puts each address of `[start, end)` in exactly one new free chunk, and no other address. */
  lemma AddRegionCover(l: FreeLists, start: nat, end: nat, x: nat)
    requires AddRegion(l, start, end).Done?
    ensures Cover(AddRegion(l, start, end).lists, x) == Cover(l, x) + (if start <= x < end then 1 else 0)
  {
    ZeroLowBitIsPow2();
    var blocks := Tiles(start, end, ZERO_LOWBIT);
    TilesTile(start, end, ZERO_LOWBIT);
    AddBlocksCover(l, blocks, x);
    TilingCover(blocks, start, end, x);
  }

  /** From disjoint free chunks, `add_region` leaves them disjoint exactly when no free chunk held any of the added addresses. */
  lemma AddRegionDisjoint(l: FreeLists, start: nat, end: nat)
    requires Disjoint(l) && AddRegion(l, start, end).Done?
    ensures Disjoint(AddRegion(l, start, end).lists) <==> Unheld(l, start, end)
  {
    var r := AddRegion(l, start, end).lists;
    if Unheld(l, start, end) {
      forall x: nat ensures Cover(r, x) <= 1 {
        AddRegionCover(l, start, end, x);
      }
    } else {
      var x: nat :| start <= x < end && Cover(l, x) != 0;
      AddRegionCover(l, start, end, x);
    }
  }

  /** `init` of empty lists leaves each address of `[start, start + size)` in exactly one free chunk, and no other address free. */
  lemma InitDisjoint(start: nat, size: nat)
    ensures Disjoint(Init(EmptyLists(), start, size))
    ensures forall x: nat :: Cover(Init(EmptyLists(), start, size), x) == if start <= x < start + size then 1 else 0
  {
    var r := Init(EmptyLists(), start, size);
    assert r == AddRegion(EmptyLists(), start, start + size).lists;
    forall x: nat ensures Cover(r, x) == if start <= x < start + size then 1 else 0 {
      EmptyCover(x);
      AddRegionCover(EmptyLists(), start, start + size, x);
    }
    assert Disjoint(r);
  }

  /** On sized lists, an allocation takes exactly the returned chunk's addresses off the free lists. */
  lemma AllocCover(l: FreeLists, size: nat, align: nat, x: nat)
    requires Sized(l) && IsPow2(align) && Alloc(l, size, align).Done? && Alloc(l, size, align).value.Some?
    ensures Cover(Alloc(l, size, align).lists, x) + Covers(Alloc(l, size, align).value.value, x) == Cover(l, x)
  {
    var order := TrailingZeros(AlignLayoutSize(size, align));
    var i := FirstNonEmpty(l, order).value;
    SplitCover(l, i, order, x);
    PopCover(Split(l, i, order), order, x);
  }

  /**
   * From sized, disjoint lists, every address of an allocated chunk was
   * free, no chunk left on the lists overlaps it, and the remaining free
   * chunks stay disjoint.
   */
  lemma AllocDisjoint(l: FreeLists, size: nat, align: nat)
    requires Sized(l) && Disjoint(l) && IsPow2(align) && Alloc(l, size, align).Done? && Alloc(l, size, align).value.Some?
    ensures var r := Alloc(l, size, align);
            var b := r.value.value;
            Disjoint(r.lists) && Unheld(r.lists, b.start, b.start + b.size)
            && forall x: nat :: b.start <= x < b.start + b.size ==> Cover(l, x) == 1
  {
    forall x: nat ensures Cover(Alloc(l, size, align).lists, x) + Covers(Alloc(l, size, align).value.value, x) == Cover(l, x) {
      AllocCover(l, size, align, x);
    }
  }

  /**
   * `dealloc` of an aligned power-of-two chunk: a chunk it files adds
   * exactly the freed addresses; a chunk lost at the top order takes
   * addresses away, never adds any.
   */
  lemma DeallocCover(l: FreeLists, chunk: Block, order: nat, x: nat)
    requires Sized(l) && chunk.size == Pow2(order) && AlignedTo(chunk.start, order)
    ensures Cover(Dealloc(l, chunk).lists, x) <= Cover(l, x) + Covers(chunk, x)
    ensures Dealloc(l, chunk).placed ==> Cover(Dealloc(l, chunk).lists, x) == Cover(l, x) + Covers(chunk, x)
  {
    TrailingZerosPow2(order);
    MergeCover(l, chunk, order, MAX_ORDER, x);
  }

  /** Freeing a chunk no free chunk overlaps keeps the free chunks disjoint. */
  lemma DeallocDisjoint(l: FreeLists, chunk: Block, order: nat)
    requires Sized(l) && Disjoint(l) && chunk.size == Pow2(order) && AlignedTo(chunk.start, order)
    requires Unheld(l, chunk.start, chunk.start + chunk.size)
    ensures Disjoint(Dealloc(l, chunk).lists)
  {
    forall x: nat ensures Cover(Dealloc(l, chunk).lists, x) <= 1 {
      DeallocCover(l, chunk, order, x);
    }
  }

  /** The capped `dealloc` files exactly the freed addresses. */
  lemma DeallocCappedCover(l: FreeLists, chunk: Block, order: nat, x: nat)
    requires Sized(l) && order < MAX_ORDER && chunk.size == Pow2(order) && AlignedTo(chunk.start, order)
    ensures Cover(DeallocCapped(l, chunk), x) == Cover(l, x) + Covers(chunk, x)
  {
    TrailingZerosPow2(order);
    MergeCover(l, chunk, order, MAX_ORDER - 1, x);
    var o := Merge(l, chunk, order, MAX_ORDER - 1);
    if !o.placed {
      PushCover(o.lists, MAX_ORDER - 1, o.region, x);
    }
  }

  /** From disjoint lists, the capped `dealloc` keeps them disjoint exactly when no free chunk overlapped the freed one. */
  lemma DeallocCappedDisjoint(l: FreeLists, chunk: Block, order: nat)
    requires Sized(l) && Disjoint(l) && order < MAX_ORDER && chunk.size == Pow2(order) && AlignedTo(chunk.start, order)
    ensures Disjoint(DeallocCapped(l, chunk)) <==> Unheld(l, chunk.start, chunk.start + chunk.size)
  {
    var r := DeallocCapped(l, chunk);
    if Unheld(l, chunk.start, chunk.start + chunk.size) {
      forall x: nat ensures Cover(r, x) <= 1 {
        DeallocCappedCover(l, chunk, order, x);
      }
    } else {
      var x: nat :| chunk.start <= x < chunk.start + chunk.size && Cover(l, x) != 0;
      DeallocCappedCover(l, chunk, order, x);
    }
  }
}
