/**
 * The kernel's stack allocator: it carves stacks off the front of a page
 * range, leaving one unmapped guard page below each stack and mapping the
 * stack's pages to fresh frames. The frame allocator is the sequence of
 * frames it would hand out, in order; exhaustion and mapping errors panic.
 */
module KernelStacks {
  import opened Wrappers
  import opened PageEntry
  import opened VirtualRegions
  import Regions

  const STACK_FLAGS: EntryFlags := WRITABLE | PRESENT

  /** A stack: its top address and its length in bytes. */
  datatype Stack = Stack(top: nat, len: nat)

  /** The pages not yet handed out. */
  datatype StackAllocator = StackAllocator(pages: PageRange)

  /** A panic, or the allocator, the frames left, the `map_to` calls in order and the stack, if any. */
  datatype Outcome =
    | Panicked
    | Done(allocator: StackAllocator, avail: seq<nat>, calls: seq<MapRequest>, stack: Option<Stack>)

  /** The page `k` pages after `p`. */
  function Advance(p: PageAddress, k: nat): (q: PageAddress)
    ensures q == p + k * Regions.FRAME_SIZE
  {
    var a := p / Regions.FRAME_SIZE;
    assert Regions.IsFrameAligned(p);
    assert p % Regions.FRAME_SIZE == 0;
    assert p == a * Regions.FRAME_SIZE;
    var r: nat := (a + k) * Regions.FRAME_SIZE;
    r
  }

  /** The page-range iterator has a page at index `i` (counting from 0). */
  predicate HasPage(p: PageRange, i: nat) {
    i < PageCount(p)
  }

  /**
   * `alloc_stack` as written: the first page is the guard, the next
   * `pagesCnt` pages are the stack, and the top is the start address of the
   * stack's last page. `pages_cnt - 2` underflows, and panics, for 0 pages.
   */
  function AllocStack(s: StackAllocator, avail: seq<nat>, pagesCnt: nat): (o: Outcome)
    ensures o.Panicked? <==> pagesCnt == 0 || (HasPage(s.pages, pagesCnt) && |avail| < pagesCnt)
    ensures o.Done? && o.stack.None? <==> pagesCnt > 0 && !HasPage(s.pages, pagesCnt)
    ensures o.Done? && o.stack.None? ==> o.allocator == s && o.avail == avail && o.calls == []
  {
    if pagesCnt == 0 then Panicked
    else if !HasPage(s.pages, pagesCnt) then Done(s, avail, [], Option.None)
    else if |avail| < pagesCnt then Panicked
    else
      var start := Advance(s.pages.first, 1);
      var end := Advance(s.pages.first, pagesCnt);
      Done(StackAllocator(PageRange(Advance(s.pages.first, pagesCnt + 1), s.pages.last)),
           avail[pagesCnt..],
           Consecutive(avail[..pagesCnt], start, STACK_FLAGS),
           Some(Stack.Stack(end, pagesCnt * Regions.FRAME_SIZE)))
  }

  /**
   * A successful allocation maps `pagesCnt` fresh frames, in allocation
   * order and writable, onto exactly the pages after the guard page, leaves
   * the guard page unmapped, and the allocator resumes right after the
   * stack with `pagesCnt + 1` fewer pages.
   */
  lemma AllocStackLayout(s: StackAllocator, avail: seq<nat>, pagesCnt: nat)
    requires AllocStack(s, avail, pagesCnt).Done? && AllocStack(s, avail, pagesCnt).stack.Some?
    ensures var o := AllocStack(s, avail, pagesCnt);
            var guard := s.pages.first;
            var first := guard + Regions.FRAME_SIZE;
            DataCovers(o.calls, first, first + pagesCnt * Regions.FRAME_SIZE)
            && FramesInOrder(o.calls, avail[..pagesCnt], STACK_FLAGS)
            && !MapsAddress(o.calls, guard)
            && o.avail == avail[pagesCnt..]
            && o.allocator.pages.first == first + pagesCnt * Regions.FRAME_SIZE
            && o.allocator.pages.last == s.pages.last
            && PageCount(o.allocator.pages) + pagesCnt + 1 == PageCount(s.pages)
  {
    var o := AllocStack(s, avail, pagesCnt);
    var first := s.pages.first + Regions.FRAME_SIZE;
    ConsecutiveLayout(avail[..pagesCnt], first, STACK_FLAGS, pagesCnt * Regions.FRAME_SIZE);
    RemainingPages(s.pages, pagesCnt + 1);
  }

  /** Dropping `k` pages from the front of a range with at least `k` pages leaves `k` fewer. */
  lemma RemainingPages(p: PageRange, k: nat)
    requires k <= PageCount(p)
    ensures PageCount(PageRange(Advance(p.first, k), p.last)) + k == PageCount(p)
  {
    var n := PageCount(p);
    var q := PageRange(Advance(p.first, k), p.last);
    if k == n {
      if n > 0 {
        assert q.first == p.last + Regions.FRAME_SIZE;
      }
    } else {
      assert Advance(p.first, k) + (n - k) * Regions.FRAME_SIZE == p.last + Regions.FRAME_SIZE;
      var m := PageCount(q);
      assert q.first + m * Regions.FRAME_SIZE == q.last + Regions.FRAME_SIZE;
      assert (m + k) * Regions.FRAME_SIZE == n * Regions.FRAME_SIZE;
    }
  }

  /**
   * As written the stack's bytes below its top, `[top - len, top)`, start
   * at the guard page and stop short of the stack's last page: the guard
   * page is in the span and the last mapped page is not.
   */
  lemma StackSpanHitsGuard(s: StackAllocator, avail: seq<nat>, pagesCnt: nat)
    requires AllocStack(s, avail, pagesCnt).Done? && AllocStack(s, avail, pagesCnt).stack.Some?
    ensures var o := AllocStack(s, avail, pagesCnt);
            var st := o.stack.value;
            st.len <= st.top && st.top - st.len == s.pages.first
            && !MapsAddress(o.calls, st.top - st.len)
            && MapsAddress(o.calls, st.top)
  {
    AllocStackLayout(s, avail, pagesCnt);
  }

  /** A one-page stack as written has no mapped byte below its top. */
  lemma OnePageStackUnmapped(s: StackAllocator, avail: seq<nat>)
    requires AllocStack(s, avail, 1).Done? && AllocStack(s, avail, 1).stack.Some?
    ensures var o := AllocStack(s, avail, 1);
            var st := o.stack.value;
            forall addr: nat :: st.top - st.len <= addr < st.top ==> !MapsAddress(o.calls, addr)
  {
    AllocStackLayout(s, avail, 1);
  }

  /** `alloc_stack` with the top at the end of the stack's last page. */
  function AllocStackTopAtEnd(s: StackAllocator, avail: seq<nat>, pagesCnt: nat): (o: Outcome)
    ensures var w := AllocStack(s, avail, pagesCnt);
            o.Panicked? == w.Panicked?
            && (o.Done? ==>
                  o.allocator == w.allocator && o.avail == w.avail && o.calls == w.calls
                  && o.stack.Some? == w.stack.Some?)
  {
    match AllocStack(s, avail, pagesCnt)
    case Panicked => Panicked
    case Done(a, rest, calls, stack) =>
      Done(a, rest, calls, if stack.Some? then Some(Stack.Stack(stack.value.top + Regions.FRAME_SIZE, stack.value.len)) else Option.None)
  }

  /** With the top at the end of the last page, the bytes below the top are exactly the mapped pages. */
  lemma StackSpanMapped(s: StackAllocator, avail: seq<nat>, pagesCnt: nat)
    requires AllocStackTopAtEnd(s, avail, pagesCnt).Done? && AllocStackTopAtEnd(s, avail, pagesCnt).stack.Some?
    ensures var o := AllocStackTopAtEnd(s, avail, pagesCnt);
            var st := o.stack.value;
            st.len <= st.top && DataCovers(o.calls, st.top - st.len, st.top)
            && st.top - st.len == s.pages.first + Regions.FRAME_SIZE
  {
    AllocStackLayout(s, avail, pagesCnt);
  }

  /** The next stack from the same allocator is mapped entirely above the previous one, past its own guard page. */
  lemma NextStackAbove(s: StackAllocator, avail: seq<nat>, pagesCnt: nat, avail2: seq<nat>, pagesCnt2: nat)
    requires AllocStack(s, avail, pagesCnt).Done? && AllocStack(s, avail, pagesCnt).stack.Some?
    requires var o := AllocStack(s, avail, pagesCnt);
             AllocStack(o.allocator, avail2, pagesCnt2).Done? && AllocStack(o.allocator, avail2, pagesCnt2).stack.Some?
    ensures var o := AllocStack(s, avail, pagesCnt);
            var o2 := AllocStack(o.allocator, avail2, pagesCnt2);
            forall addr: nat :: MapsAddress(o.calls, addr) ==> !MapsAddress(o2.calls, addr) && !MapsAddress(o2.calls, addr + Regions.FRAME_SIZE)
  {
    var o := AllocStack(s, avail, pagesCnt);
    AllocStackLayout(s, avail, pagesCnt);
    AllocStackLayout(o.allocator, avail2, pagesCnt2);
  }
}
