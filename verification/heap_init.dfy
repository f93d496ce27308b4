/**
 * `init_heap`: the kernel heap's pages are mapped to fresh frames, the page
 * after them gets a frame with no flags as a guard, and the heap allocator
 * is initialised over the heap's bytes. The frame allocator is the sequence of frames
 * it would hand out, in order; exhaustion and mapping errors panic.
 */
module KernelHeap {
  import opened PageEntry
  import opened VirtualRegions
  import Regions
  import RangeAllocator

  const HEAP_START: nat := 0x4444_4444_0000
  /** 100 KiB. */
  const HEAP_SIZE: nat := 100 * 1024
  const HEAP_FLAGS: EntryFlags := PRESENT | WRITABLE | NO_EXECUTE

  /**
   * A panic, or the frames left, the `map_to` calls in order, and the start
   * and size the heap allocator's `init` is given.
   */
  datatype Outcome = Panicked | Done(avail: seq<nat>, calls: seq<MapRequest>, heapStart: nat, heapSize: nat)

  /** `init_heap` for a heap of `size` bytes at `start`: one fresh frame per heap page, then one for the guard page. */
  function InitHeapAt(avail: seq<nat>, start: nat, size: nat): (o: Outcome)
    requires size > 0
    ensures o.Panicked? <==> |avail| < PageCount(Covering(RangeAllocator.Range(start, start + size))) + 1
  {
    var pages := Covering(RangeAllocator.Range(start, start + size));
    var n := PageCount(pages);
    if |avail| < n + 1 then Panicked
    else
      var guard := MapRequest(avail[n], Regions.ContainingFrame(start + size), NONE);
      Done(avail[n + 1..],
           Consecutive(avail[..n], pages.first, HEAP_FLAGS) + [guard],
           start, size)
  }

  /**
   * For a page-aligned heap of `n` pages: with `n + 1` frames to hand out,
   * the first `n` map exactly the heap's bytes with PRESENT, WRITABLE and
   * NO_EXECUTE, in allocation order; the last goes to the page right after
   * the heap with no flags; and the heap allocator is initialised over
   * exactly the heap's bytes. With fewer frames it panics.
   */
  lemma InitHeapAtLayout(avail: seq<nat>, start: nat, size: nat)
    requires size > 0 && Regions.IsFrameAligned(start) && Regions.IsFrameAligned(size)
    ensures var o := InitHeapAt(avail, start, size);
            var n := size / Regions.FRAME_SIZE;
            (o.Panicked? <==> |avail| < n + 1)
            && (o.Done? ==>
                  |o.calls| == n + 1 && o.avail == avail[n + 1..]
                  && DataCovers(o.calls[..n], start, start + size)
                  && FramesInOrder(o.calls[..n], avail[..n], HEAP_FLAGS)
                  && o.calls[n] == MapRequest(avail[n], start + size, NONE)
                  && o.heapStart == start && o.heapSize == size)
  {
    var x := RangeAllocator.Range(start, start + size);
    CoveringExact(x);
    var n := size / Regions.FRAME_SIZE;
    PagesOfSize(PageCount(Covering(x)), size);
    var o := InitHeapAt(avail, start, size);
    if o.Done? {
      assert o.calls[..n] == Consecutive(avail[..n], start, HEAP_FLAGS);
      ConsecutiveLayout(avail[..n], start, HEAP_FLAGS, size);
    }
  }

  /** A number of pages spanning `size` bytes is `size / 4096`. */
  lemma PagesOfSize(pages: nat, size: nat)
    requires pages * Regions.FRAME_SIZE == size
    ensures pages == size / Regions.FRAME_SIZE
  {
  }

  /** `init_heap` over `[HEAP_START, HEAP_START + HEAP_SIZE)`. */
  function InitHeap(avail: seq<nat>): Outcome {
    InitHeapAt(avail, HEAP_START, HEAP_SIZE)
  }

  /**
   * The kernel heap is 25 pages: with 26 frames to hand out, the first 25
   * map exactly its bytes, in allocation order, the 26th goes to the guard
   * page right after it with no flags, and the heap allocator is
   * initialised over exactly its bytes; with fewer frames `init_heap` panics.
   */
  lemma InitHeapLayout(avail: seq<nat>)
    ensures var o := InitHeap(avail);
            (o.Panicked? <==> |avail| < 26)
            && (o.Done? ==>
                  |o.calls| == 26 && o.avail == avail[26..]
                  && DataCovers(o.calls[..25], HEAP_START, HEAP_START + HEAP_SIZE)
                  && FramesInOrder(o.calls[..25], avail[..25], HEAP_FLAGS)
                  && o.calls[25] == MapRequest(avail[25], HEAP_START + HEAP_SIZE, NONE)
                  && o.heapStart == HEAP_START && o.heapSize == HEAP_SIZE)
  {
    InitHeapAtLayout(avail, HEAP_START, HEAP_SIZE);
  }
}
