/**
 * The kernel's linked-list frame allocator: every free frame holds a list
 * node at its address in the offset-mapped view of physical memory, and
 * allocation pops the front node. The list is a sequence of node (virtual)
 * addresses, front first; `size` is the separately kept counter.
 */
module FreeListAllocator {
  import opened Wrappers
  import opened Regions

  /** The allocator: node addresses (front first), the frame counter, the physical-memory offset. */
  datatype Allocator = Allocator(freeList: seq<nat>, size: nat, offset: nat)

  /** `new`: an empty list, a zero counter and a zero offset. */
  function New(): (a: Allocator)
    ensures a.freeList == [] && a.size == 0 && Consistent(a)
  {
    Allocator([], 0, 0)
  }

  /** The counter matches the list, and every node lies at or above the offset. */
  predicate Consistent(a: Allocator) {
    a.size == |a.freeList| && forall k :: 0 <= k < |a.freeList| ==> a.freeList[k] >= a.offset
  }

  /** `count` consecutive 4 KiB pages from `first`. */
  function Pages(first: nat, count: nat): (ps: seq<nat>)
    ensures |ps| == count
    ensures forall i :: 0 <= i < count ==> ps[i] == first + i * FRAME_SIZE
  {
    seq(count, i requires 0 <= i => first + i * FRAME_SIZE)
  }

  /**
   * The node addresses `init` creates for one region: the pages from the
   * one containing `start + offset` to the one containing `end - 1 + offset`,
   * inclusive; none for an empty region.
   */
  function RegionNodes(r: Region, offset: nat): (ns: seq<nat>) {
    if r.size == 0 then []
    else
      var first := ContainingFrame(r.start + offset);
      var last := ContainingFrame(End(r) - 1 + offset);
      Pages(first, (last - first) / FRAME_SIZE + 1)
  }

  /**
   * With an aligned start and an aligned offset, the nodes of a region are
   * exactly the frames of `[start, end)` shifted by the offset.
   */
  lemma RegionNodesInRegion(r: Region, offset: nat, k: nat)
    requires IsFrameAligned(r.start) && IsFrameAligned(offset)
    requires k < |RegionNodes(r, offset)|
    ensures RegionNodes(r, offset)[k] >= offset
    ensures IsFrameAligned(RegionNodes(r, offset)[k] - offset)
    ensures r.start <= RegionNodes(r, offset)[k] - offset < End(r)
  {
    var first := ContainingFrame(r.start + offset);
    var last := ContainingFrame(End(r) - 1 + offset);
    assert (r.start + offset) % FRAME_SIZE == 0;
    assert first == r.start + offset;
    assert (first + k * FRAME_SIZE) % FRAME_SIZE == 0;
    assert last % FRAME_SIZE == 0;
    assert k * FRAME_SIZE <= last - first;
  }

  /** The head of a list, as a sequence of at most one node. */
  function Front(list: seq<nat>): (f: seq<nat>)
    ensures |f| <= 1 && (|f| == 1 <==> |list| > 0)
    ensures |f| == 1 ==> f[0] == list[0]
  {
    if |list| == 0 then [] else [list[0]]
  }

  /** The last element of a sequence, as a sequence of at most one element. */
  function Last(s: seq<nat>): (l: seq<nat>)
    ensures |l| <= 1 && (|l| == 1 <==> |s| > 0)
    ensures |l| == 1 ==> l[0] == s[|s| - 1]
  {
    if |s| == 0 then [] else [s[|s| - 1]]
  }

  /** Some node directly follows an equal one. */
  predicate AdjacentRepeat(s: seq<nat>) {
    exists i :: 0 < i < |s| && s[i - 1] == s[i]
  }

  /**
   * `push_front` of every node in order: the last one pushed ends up at the
   * front. `None` is the panic of `push_front` on a node that is already
   * the head of the list.
   */
  function PushAll(list: seq<nat>, nodes: seq<nat>): (r: Option<seq<nat>>)
    ensures r.Some? ==> |r.value| == |list| + |nodes|
    ensures r.Some? ==> multiset(r.value) == multiset(list) + multiset(nodes)
    ensures r.Some? ==> Front(r.value) == Last(Front(list) + nodes)
    decreases |nodes|
  {
    if |nodes| == 0 then Some(list)
    else if |list| > 0 && list[0] == nodes[0] then Option.None
    else
      assert nodes == [nodes[0]] + nodes[1..];
      PushAll([nodes[0]] + list, nodes[1..])
  }

  /**
   * A repeat in `a + b` lies inside `a`, or where `b` meets the last
   * element of `a` or inside `b`.
   */
  lemma RepeatSplit(a: seq<nat>, b: seq<nat>)
    ensures AdjacentRepeat(a + b) <==> AdjacentRepeat(a) || AdjacentRepeat(Last(a) + b)
  {
    var s := a + b;
    var t := Last(a) + b;
    var d := |a| - |Last(a)|;
    assert forall k :: 0 <= k < |t| ==> t[k] == s[k + d];
    if AdjacentRepeat(s) {
      var i :| 0 < i < |s| && s[i - 1] == s[i];
      if i >= |a| {
        assert t[i - d - 1] == t[i - d];
      }
    }
    if AdjacentRepeat(a) {
      var i :| 0 < i < |a| && a[i - 1] == a[i];
      assert s[i - 1] == s[i];
    }
    if AdjacentRepeat(t) {
      var i :| 0 < i < |t| && t[i - 1] == t[i];
      assert s[i + d - 1] == s[i + d];
    }
  }

  /** A sequence of at most one element has no repeat. */
  lemma ShortNoRepeat(s: seq<nat>)
    requires |s| <= 1
    ensures !AdjacentRepeat(s)
  {
  }

  /** Pushing panics exactly when some node would be pushed onto an equal head. */
  lemma {:induction false} PushAllPanics(list: seq<nat>, nodes: seq<nat>)
    ensures PushAll(list, nodes).None? <==> AdjacentRepeat(Front(list) + nodes)
    decreases |nodes|
  {
    if |nodes| == 0 {
      assert Front(list) + nodes == Front(list);
      ShortNoRepeat(Front(list));
    } else {
      var a := Front(list) + [nodes[0]];
      assert Front(list) + nodes == a + nodes[1..];
      RepeatSplit(a, nodes[1..]);
      assert Last(a) + nodes[1..] == nodes;
      assert Front([nodes[0]] + list) + nodes[1..] == nodes;
      if |list| > 0 && list[0] == nodes[0] {
        assert a[0] == a[1];
      } else {
        assert !AdjacentRepeat(a) by {
          if |list| > 0 {
            assert a == [list[0], nodes[0]];
          } else {
            ShortNoRepeat(a);
          }
        }
        PushAllPanics([nodes[0]] + list, nodes[1..]);
      }
    }
  }

  /** A usable region on which `init` panics before pushing: its start is not 4 KiB-aligned, or it is empty at address 0, where `end - 1` underflows. */
  predicate BadRegion(r: Region) {
    IsUsable(r) && (!IsFrameAligned(r.start) || End(r) == 0)
  }

  /** The map has a region on which `init` panics. */
  predicate HasBadRegion(m: seq<Region>) {
    exists i :: 0 <= i < |m| && BadRegion(m[i])
  }

  /** Every node the loop of `init` creates, in the order it pushes them. */
  function AllNodes(m: seq<Region>, offset: nat): seq<nat>
    decreases |m|
  {
    if |m| == 0 then []
    else (if IsUsable(m[0]) then RegionNodes(m[0], offset) else []) + AllNodes(m[1..], offset)
  }

  /**
   * The loop over the usable regions of `init`: `None` is a panic, either
   * on a bad region or in `push_front`; otherwise the list and the number
   * of nodes pushed.
   */
  function InitFrom(list: seq<nat>, m: seq<Region>, offset: nat): (r: Option<(seq<nat>, nat)>)
    ensures r.Some? ==> |r.value.0| == |list| + r.value.1
    decreases |m|
  {
    if |m| == 0 then Some((list, 0))
    else if !IsUsable(m[0]) then InitFrom(list, m[1..], offset)
    else if !IsFrameAligned(m[0].start) || End(m[0]) == 0 then Option.None
    else
      var nodes := RegionNodes(m[0], offset);
      match PushAll(list, nodes)
      case None => Option.None
      case Some(pushed) =>
        var rest := InitFrom(pushed, m[1..], offset);
        if rest.None? then Option.None else Some((rest.value.0, rest.value.1 + |nodes|))
  }

  /** Whether the first region is bad decides nothing about the others. */
  lemma HasBadRegionTail(m: seq<Region>)
    requires |m| > 0
    ensures HasBadRegion(m) <==> BadRegion(m[0]) || HasBadRegion(m[1..])
  {
    assert forall i :: 0 < i < |m| ==> m[i] == m[1..][i - 1];
    if HasBadRegion(m[1..]) {
      var i :| 0 <= i < |m[1..]| && BadRegion(m[1..][i]);
      assert m[i + 1] == m[1..][i];
    }
  }

  /**
   * The loop of `init` panics exactly when the map has a bad usable region
   * or some node would be pushed onto an equal head.
   */
  lemma {:induction false} InitFromPanics(list: seq<nat>, m: seq<Region>, offset: nat)
    ensures InitFrom(list, m, offset).None? <==>
              HasBadRegion(m) || AdjacentRepeat(Front(list) + AllNodes(m, offset))
    decreases |m|
  {
    if |m| == 0 {
      assert Front(list) + AllNodes(m, offset) == Front(list);
      ShortNoRepeat(Front(list));
    } else {
      HasBadRegionTail(m);
      var rest := AllNodes(m[1..], offset);
      if !IsUsable(m[0]) {
        assert AllNodes(m, offset) == rest;
        InitFromPanics(list, m[1..], offset);
      } else if !IsFrameAligned(m[0].start) || End(m[0]) == 0 {
      } else {
        var nodes := RegionNodes(m[0], offset);
        var a := Front(list) + nodes;
        assert Front(list) + AllNodes(m, offset) == a + rest;
        RepeatSplit(a, rest);
        PushAllPanics(list, nodes);
        if PushAll(list, nodes).Some? {
          InitFromPanics(PushAll(list, nodes).value, m[1..], offset);
        }
      }
    }
  }

  /** Outcome of `init`. */
  datatype InitOutcome = InitPanicked | Initialized(allocator: Allocator)

  /** `init`: push a node for every page of every usable region, then store the count and the offset. */
  function Init(a: Allocator, m: seq<Region>, offset: nat): (o: InitOutcome)
    ensures o.InitPanicked? <==> HasBadRegion(m) || AdjacentRepeat(Front(a.freeList) + AllNodes(m, offset))
    ensures o.Initialized? ==> o.allocator.offset == offset && |o.allocator.freeList| == |a.freeList| + o.allocator.size
  {
    InitFromPanics(a.freeList, m, offset);
    match InitFrom(a.freeList, m, offset)
    case None => InitPanicked
    case Some((list, sz)) => Initialized(Allocator(list, sz, offset))
  }

  /** The nodes of one region are consecutive pages, so they strictly increase. */
  lemma RegionNodesIncreasing(r: Region, offset: nat)
    ensures StrictlyIncreasing(RegionNodes(r, offset))
  {
    var ns := RegionNodes(r, offset);
    forall i, j | 0 <= i < j < |ns| ensures ns[i] < ns[j] {
      assert ns[j] - ns[i] == (j - i) * FRAME_SIZE;
    }
  }

  /** A strictly increasing sequence has no repeat. */
  lemma IncreasingNoRepeat(s: seq<nat>)
    requires StrictlyIncreasing(s)
    ensures !AdjacentRepeat(s)
  {
  }

  /**
   * Pushing the nodes of a good usable region onto a list whose head lies
   * below the region (shifted by the offset) does not panic, and leaves a
   * head below the region's end.
   */
  lemma PushRegionBelow(list: seq<nat>, r: Region, offset: nat, bound: nat) returns (pushed: seq<nat>)
    requires IsFrameAligned(offset) && IsUsable(r) && !BadRegion(r)
    requires |list| > 0 ==> list[0] < bound
    requires bound <= r.start + offset
    ensures PushAll(list, RegionNodes(r, offset)) == Some(pushed)
    ensures |pushed| > 0 ==> pushed[0] < End(r) + offset
  {
    var nodes := RegionNodes(r, offset);
    var s := Front(list) + nodes;
    RegionNodesIncreasing(r, offset);
    RegionNodesDistinct(r, offset);
    assert StrictlyIncreasing(s) by {
      forall i, j | 0 <= i < j < |s| ensures s[i] < s[j] {
        if |list| > 0 && i == 0 {
          assert s[j] == nodes[j - 1];
        }
      }
    }
    IncreasingNoRepeat(s);
    PushAllPanics(list, nodes);
    pushed := PushAll(list, nodes).value;
  }

  /**
   * On a sorted, non-overlapping map without a bad region and with an
   * aligned offset, no push meets an equal head, provided the current head
   * lies below `bound` and every region starts at or above `bound - offset`.
   */
  lemma {:induction false} InitFromSucceeds(list: seq<nat>, m: seq<Region>, offset: nat, bound: nat)
    requires IsFrameAligned(offset) && SortedDisjoint(m) && !HasBadRegion(m)
    requires |list| > 0 ==> list[0] < bound
    requires forall i :: 0 <= i < |m| ==> bound <= m[i].start + offset
    ensures InitFrom(list, m, offset).Some?
    decreases |m|
  {
    if |m| > 0 {
      HasBadRegionTail(m);
      assert forall i :: 0 < i < |m| ==> m[i] == m[1..][i - 1];
      assert SortedDisjoint(m[1..]);
      if !IsUsable(m[0]) {
        InitFromSucceeds(list, m[1..], offset, bound);
      } else {
        var pushed := PushRegionBelow(list, m[0], offset, bound);
        forall i | 0 <= i < |m[1..]| ensures End(m[0]) + offset <= m[1..][i].start + offset {
          assert End(m[0]) <= m[i + 1].start;
        }
        InitFromSucceeds(pushed, m[1..], offset, End(m[0]) + offset);
      }
    }
  }

  /**
   * On a sorted, non-overlapping map and with a 4 KiB-aligned offset,
   * `init` of a new allocator panics exactly when a usable region starts
   * off a page boundary or is empty at address 0.
   */
  lemma InitSortedPanics(m: seq<Region>, offset: nat)
    requires IsFrameAligned(offset) && SortedDisjoint(m)
    ensures Init(New(), m, offset).InitPanicked? <==> HasBadRegion(m)
  {
    if !HasBadRegion(m) {
      InitFromSucceeds([], m, offset, 0);
    }
  }

  /**
   * With an offset that is not page-aligned, two adjacent aligned regions
   * share a page of the offset view, and `init` panics in `push_front`.
   */
  lemma InitAdjacentRegionsClash()
    ensures var m := [Region(0x1000, 0x1000, Normal, 0), Region(0x2000, 0x1000, Normal, 0)];
            !HasBadRegion(m) && SortedDisjoint(m) && Init(New(), m, 0x800).InitPanicked?
  {
    var m := [Region(0x1000, 0x1000, Normal, 0), Region(0x2000, 0x1000, Normal, 0)];
    assert RegionNodes(m[0], 0x800) == [0x1000, 0x2000];
    assert RegionNodes(m[1], 0x800) == [0x2000, 0x3000];
    assert AllNodes(m, 0x800) == [0x1000, 0x2000, 0x2000, 0x3000] by {
      assert AllNodes(m[1..], 0x800) == [0x2000, 0x3000] + AllNodes(m[2..], 0x800);
    }
    assert (Front([]) + AllNodes(m, 0x800))[1] == (Front([]) + AllNodes(m, 0x800))[2];
    HasBadRegionTail(m);
    HasBadRegionTail(m[1..]);
  }

  /** Every node the loop leaves in the list was there before or belongs to a usable region. */
  lemma {:induction false} InitFromNodes(list: seq<nat>, m: seq<Region>, offset: nat, x: nat)
    requires InitFrom(list, m, offset).Some?
    requires x in InitFrom(list, m, offset).value.0
    ensures x in list || exists i :: 0 <= i < |m| && IsUsable(m[i]) && x in RegionNodes(m[i], offset)
    decreases |m|
  {
    assert |m| > 0 || x in list;
    if |m| > 0 {
      assert forall i :: 0 < i < |m| ==> m[i] == m[1..][i - 1];
      if !IsUsable(m[0]) {
        InitFromNodes(list, m[1..], offset, x);
      } else {
        var pushed := PushAll(list, RegionNodes(m[0], offset)).value;
        InitFromNodes(pushed, m[1..], offset, x);
        assert x in multiset(pushed) ==> x in multiset(list) || x in multiset(RegionNodes(m[0], offset));
      }
    }
  }

  /**
   * `init` on a fresh allocator with a 4 KiB-aligned offset: the counter
   * matches the list, and every node is the offset image of an aligned
   * frame inside a usable region.
   */
  lemma InitFreshIsSound(m: seq<Region>, offset: nat)
    requires IsFrameAligned(offset)
    requires Init(New(), m, offset).Initialized?
    ensures Consistent(Init(New(), m, offset).allocator)
    ensures var a := Init(New(), m, offset).allocator;
            forall k :: 0 <= k < |a.freeList| ==>
              IsFrameAligned(a.freeList[k] - offset) && InUsableRegion(m, a.freeList[k] - offset)
  {
    var a := Init(New(), m, offset).allocator;
    forall k | 0 <= k < |a.freeList|
      ensures a.freeList[k] >= offset
      ensures IsFrameAligned(a.freeList[k] - offset) && InUsableRegion(m, a.freeList[k] - offset)
    {
      InitFromNodes([], m, offset, a.freeList[k]);
      NodeInUsableRegion(m, offset, a.freeList[k]);
    }
  }

  /** A node of some usable region with an aligned start is the offset image of an aligned frame of that region. */
  lemma NodeInUsableRegion(m: seq<Region>, offset: nat, x: nat)
    requires IsFrameAligned(offset)
    requires exists i :: 0 <= i < |m| && IsUsable(m[i]) && x in RegionNodes(m[i], offset)
    requires forall i :: 0 <= i < |m| && IsUsable(m[i]) ==> IsFrameAligned(m[i].start)
    ensures x >= offset && IsFrameAligned(x - offset) && InUsableRegion(m, x - offset)
  {
    var i :| 0 <= i < |m| && IsUsable(m[i]) && x in RegionNodes(m[i], offset);
    var j :| 0 <= j < |RegionNodes(m[i], offset)| && RegionNodes(m[i], offset)[j] == x;
    RegionNodesInRegion(m[i], offset, j);
  }

  /** Outcome of `allocate_frame`: the subtractions underflow (and panic) when the counter or the node is too small. */
  datatype AllocOutcome = AllocPanicked | Allocated(allocator: Allocator, frame: Option<nat>)

  /** `allocate_frame`: pop the front node and return the frame holding `node - offset`. */
  function AllocateFrame(a: Allocator): (o: AllocOutcome)
    ensures |a.freeList| == 0 ==> o == Allocated(a, Option.None)
    ensures o.Allocated? && o.frame.Some? ==>
              |a.freeList| > 0 && o.allocator.freeList == a.freeList[1..]
              && o.allocator.size == a.size - 1 && o.allocator.offset == a.offset
              && IsFrameAligned(o.frame.value)
              && o.frame.value <= a.freeList[0] - a.offset < o.frame.value + FRAME_SIZE
  {
    if |a.freeList| == 0 then Allocated(a, Option.None)
    else if a.size == 0 || a.freeList[0] < a.offset then AllocPanicked
    else
      Allocated(Allocator(a.freeList[1..], a.size - 1, a.offset),
                Some(ContainingFrame(a.freeList[0] - a.offset)))
  }

  /** A single `push_front`: it panics on a node equal to the head, and otherwise puts the node in front. */
  lemma PushOne(list: seq<nat>, x: nat)
    ensures PushAll(list, [x]) == if |list| > 0 && list[0] == x then Option.None else Some([x] + list)
  {
    if !(|list| > 0 && list[0] == x) {
      assert [x][1..] == [];
    }
  }

  /** Outcome of `deallocate_frame`: `push_front` panics when the node is already the head of the list. */
  datatype DeallocOutcome = DeallocPanicked | Deallocated(allocator: Allocator)

  /** `deallocate_frame`: push a node at the frame's offset address and count it. */
  function DeallocateFrame(a: Allocator, frame: nat): (o: DeallocOutcome)
    ensures o.DeallocPanicked? <==> |a.freeList| > 0 && a.freeList[0] == frame + a.offset
    ensures o.Deallocated? ==> o.allocator.freeList == [frame + a.offset] + a.freeList
    ensures o.Deallocated? ==> o.allocator.size == a.size + 1 && o.allocator.offset == a.offset
  {
    PushOne(a.freeList, frame + a.offset);
    match PushAll(a.freeList, [frame + a.offset])
    case None => DeallocPanicked
    case Some(list) => Deallocated(Allocator(list, a.size + 1, a.offset))
  }

  /** A consistent allocator never panics, returns a frame exactly when the list is non-empty, and stays consistent. */
  lemma AllocateConsistent(a: Allocator)
    requires Consistent(a)
    ensures AllocateFrame(a).Allocated?
    ensures AllocateFrame(a).frame.Some? <==> |a.freeList| > 0
    ensures Consistent(AllocateFrame(a).allocator)
  {
  }

  /** Deallocation keeps the allocator consistent. */
  lemma DeallocateConsistent(a: Allocator, frame: nat)
    requires Consistent(a)
    ensures DeallocateFrame(a, frame).Deallocated? ==> Consistent(DeallocateFrame(a, frame).allocator)
  {
  }

  /**
   * Freeing an aligned frame and allocating again gives the same frame back
   * and restores the allocator (LIFO), unless the free itself panicked.
   */
  lemma DeallocateThenAllocate(a: Allocator, frame: nat)
    requires IsFrameAligned(frame)
    ensures DeallocateFrame(a, frame).Deallocated? ==>
              AllocateFrame(DeallocateFrame(a, frame).allocator) == Allocated(a, Some(frame))
  {
    if DeallocateFrame(a, frame).Deallocated? {
      assert DeallocateFrame(a, frame).allocator.freeList[1..] == a.freeList;
    }
  }

  /**
   * When the nodes are distinct and each is the offset image of an aligned
   * frame, the frame handed out is not represented anywhere in the list
   * that remains.
   */
  lemma AllocatedFrameLeavesList(a: Allocator)
    requires Consistent(a) && |a.freeList| > 0
    requires forall i, j :: 0 <= i < j < |a.freeList| ==> a.freeList[i] != a.freeList[j]
    requires forall k :: 0 <= k < |a.freeList| ==> IsFrameAligned(a.freeList[k] - a.offset)
    ensures var o := AllocateFrame(a);
            o.Allocated? && o.frame.Some? && o.frame.value + a.offset !in o.allocator.freeList
  {
    var o := AllocateFrame(a);
    assert o.frame.value == a.freeList[0] - a.offset;
  }

  /** No node address occurs twice. */
  predicate Distinct(s: seq<nat>) {
    forall i, j :: 0 <= i < j < |s| ==> s[i] != s[j]
  }

  /** Allocation keeps the nodes distinct. */
  lemma AllocateKeepsDistinct(a: Allocator)
    requires Distinct(a.freeList) && AllocateFrame(a).Allocated?
    ensures Distinct(AllocateFrame(a).allocator.freeList)
  {
  }

  /**
   * Freeing a frame that is currently allocated (its node is not in the
   * list) never panics and keeps the nodes distinct.
   */
  lemma DeallocateKeepsDistinct(a: Allocator, frame: nat)
    requires Distinct(a.freeList) && frame + a.offset !in a.freeList
    ensures DeallocateFrame(a, frame).Deallocated?
    ensures Distinct(DeallocateFrame(a, frame).allocator.freeList)
  {
    var l := DeallocateFrame(a, frame).allocator.freeList;
    forall i, j | 0 <= i < j < |l| ensures l[i] != l[j] {
      if i == 0 {
        assert l[j] == a.freeList[j - 1];
      } else {
        assert l[i] == a.freeList[i - 1] && l[j] == a.freeList[j - 1];
      }
    }
  }

  /** Freeing a frame twice in a row panics the second time: its node is the head by then. */
  lemma DoubleFreePanics(a: Allocator, frame: nat)
    ensures DeallocateFrame(a, frame).Deallocated? ==>
              DeallocateFrame(DeallocateFrame(a, frame).allocator, frame).DeallocPanicked?
  {
  }

  /**
   * The head check is the only guard: freeing `f`, then another frame `g`,
   * then `f` again succeeds whenever the first free does, and leaves the
   * node of `f` on the list twice.
   */
  lemma DoubleFreeDuplicates(a: Allocator, f: nat, g: nat)
    requires f != g
    ensures var b := DeallocateFrame(a, f);
            b.Deallocated? ==>
              var c := DeallocateFrame(b.allocator, g);
              c.Deallocated? && DeallocateFrame(c.allocator, f).Deallocated?
              && !Distinct(DeallocateFrame(c.allocator, f).allocator.freeList)
  {
    var b := DeallocateFrame(a, f);
    if b.Deallocated? {
      var c := DeallocateFrame(b.allocator, g);
      var l := DeallocateFrame(c.allocator, f).allocator.freeList;
      assert l[0] == l[2];
    }
  }

  /** Pushing distinct nodes that are not yet in a distinct list keeps it distinct. */
  lemma {:induction false} PushAllDistinct(list: seq<nat>, nodes: seq<nat>)
    requires Distinct(list) && Distinct(nodes)
    requires forall k :: 0 <= k < |nodes| ==> nodes[k] !in list
    ensures PushAll(list, nodes).Some? && Distinct(PushAll(list, nodes).value)
    decreases |nodes|
  {
    if |nodes| > 0 {
      var l := [nodes[0]] + list;
      forall i, j | 0 <= i < j < |l| ensures l[i] != l[j] {
        if i > 0 {
          assert l[i] == list[i - 1];
        }
        assert l[j] == list[j - 1];
      }
      forall k | 0 <= k < |nodes[1..]| ensures nodes[1..][k] !in l {
        assert nodes[1..][k] == nodes[k + 1];
      }
      PushAllDistinct(l, nodes[1..]);
    }
  }

  /** The nodes of one region are distinct and lie in `[start + offset, end + offset)`. */
  lemma RegionNodesDistinct(r: Region, offset: nat)
    requires IsFrameAligned(r.start) && IsFrameAligned(offset)
    ensures Distinct(RegionNodes(r, offset))
    ensures forall k :: 0 <= k < |RegionNodes(r, offset)| ==>
              r.start + offset <= RegionNodes(r, offset)[k] < End(r) + offset
  {
    forall k | 0 <= k < |RegionNodes(r, offset)|
      ensures r.start + offset <= RegionNodes(r, offset)[k] < End(r) + offset
    {
      RegionNodesInRegion(r, offset, k);
    }
  }

  /**
   * On a sorted, non-overlapping map the loop of `init` keeps the list
   * distinct, provided what is already there lies below `bound` and every
   * remaining region starts at or above `bound - offset`.
   */
  lemma {:induction false} InitFromDistinct(list: seq<nat>, m: seq<Region>, offset: nat, bound: nat)
    requires IsFrameAligned(offset) && SortedDisjoint(m)
    requires Distinct(list)
    requires forall x :: x in list ==> x < bound
    requires forall i :: 0 <= i < |m| ==> bound <= m[i].start + offset
    requires InitFrom(list, m, offset).Some?
    ensures Distinct(InitFrom(list, m, offset).value.0)
    decreases |m|
  {
    if |m| > 0 {
      assert forall i :: 0 < i < |m| ==> m[i] == m[1..][i - 1];
      if !IsUsable(m[0]) {
        InitFromDistinct(list, m[1..], offset, bound);
      } else {
        var pushed := PushRegion(list, m, offset, bound);
        InitFromDistinct(pushed, m[1..], offset, End(m[0]) + offset);
      }
    }
  }

  /** One usable region's pushes keep the list distinct and below the region's end. */
  lemma PushRegion(list: seq<nat>, m: seq<Region>, offset: nat, bound: nat) returns (pushed: seq<nat>)
    requires IsFrameAligned(offset) && SortedDisjoint(m) && |m| > 0
    requires IsUsable(m[0]) && IsFrameAligned(m[0].start)
    requires Distinct(list)
    requires forall x :: x in list ==> x < bound
    requires bound <= m[0].start + offset
    ensures PushAll(list, RegionNodes(m[0], offset)) == Some(pushed)
    ensures Distinct(pushed)
    ensures forall x :: x in pushed ==> x < End(m[0]) + offset
    ensures forall i :: 0 <= i < |m[1..]| ==> End(m[0]) + offset <= m[1..][i].start + offset
  {
    var nodes := RegionNodes(m[0], offset);
    RegionNodesDistinct(m[0], offset);
    PushAllDistinct(list, nodes);
    pushed := PushAll(list, nodes).value;
    forall x | x in pushed ensures x < End(m[0]) + offset {
      assert x in multiset(pushed);
      if x !in list {
        assert x in multiset(nodes);
        var k :| 0 <= k < |nodes| && nodes[k] == x;
      }
    }
    forall i | 0 <= i < |m[1..]| ensures End(m[0]) <= m[1..][i].start {
      assert m[1..][i] == m[i + 1];
    }
  }

  /** `init` of a fresh allocator over a sorted, non-overlapping map creates no node twice. */
  lemma InitFreshDistinct(m: seq<Region>, offset: nat)
    requires IsFrameAligned(offset) && SortedDisjoint(m)
    requires Init(New(), m, offset).Initialized?
    ensures Distinct(Init(New(), m, offset).allocator.freeList)
  {
    InitFromDistinct([], m, offset, 0);
  }
}
