/**
 * The bump frame allocator of the kernel's paging code: it hands out the
 * `next`-th 4 KiB frame of the usable part of the memory map and never
 * takes a frame back.
 */
module NthFrameAllocator {
  import opened Wrappers
  import opened Regions

  /** The allocator: the remaining memory map and the number of frames requested so far. */
  datatype Allocator = Allocator(memoryMap: seq<Region>, next: nat)

  /** The frames `start..end` stepped by 4 KiB yields, each rounded down to its frame. */
  function RegionFrames(r: Region): (fs: seq<nat>)
    ensures |fs| == (r.size + FRAME_SIZE - 1) / FRAME_SIZE
  {
    seq((r.size + FRAME_SIZE - 1) / FRAME_SIZE, i requires 0 <= i => ContainingFrame(r.start + i * FRAME_SIZE))
  }

  /** `usable_frames`: the frames of every usable region, in map order. */
  function UsableFrames(m: seq<Region>): seq<nat> {
    if |m| == 0 then []
    else (if IsUsable(m[0]) then RegionFrames(m[0]) else []) + UsableFrames(m[1..])
  }

  /** With an aligned start, the frames of a region are the 4 KiB steps inside `[start, end)`. */
  lemma RegionFramesAligned(r: Region, i: nat)
    requires IsFrameAligned(r.start) && i < |RegionFrames(r)|
    ensures RegionFrames(r)[i] == r.start + i * FRAME_SIZE
    ensures r.start <= RegionFrames(r)[i] < End(r)
  {
    assert (r.start + i * FRAME_SIZE) % FRAME_SIZE == 0;
  }

  /** On a map with aligned starts, every frame `usable_frames` yields lies inside a usable region. */
  lemma {:induction false} UsableFramesInUsableRegions(m: seq<Region>, k: nat)
    requires AlignedStarts(m) && k < |UsableFrames(m)|
    ensures InUsableRegion(m, UsableFrames(m)[k])
    decreases |m|
  {
    var head := if IsUsable(m[0]) then RegionFrames(m[0]) else [];
    if k < |head| {
      RegionFramesAligned(m[0], k);
      assert 0 < |m| && IsUsable(m[0]) && m[0].start <= UsableFrames(m)[k] < End(m[0]);
    } else {
      assert AlignedStarts(m[1..]) by {
        forall i | 0 <= i < |m[1..]| ensures IsFrameAligned(m[1..][i].start) {
          assert m[1..][i] == m[i + 1];
        }
      }
      UsableFramesInUsableRegions(m[1..], k - |head|);
      var j :| 0 <= j < |m[1..]| && IsUsable(m[1..][j]) && m[1..][j].start <= UsableFrames(m[1..])[k - |head|] < End(m[1..][j]);
      assert m[1..][j] == m[j + 1];
    }
  }

  /** Every frame of a sorted map with aligned starts is at least the first region's start. */
  lemma {:induction false} UsableFramesFrom(m: seq<Region>, k: nat)
    requires |m| > 0 && AlignedStarts(m) && SortedDisjoint(m) && k < |UsableFrames(m)|
    ensures m[0].start <= UsableFrames(m)[k]
  {
    UsableFramesInUsableRegions(m, k);
    var j :| 0 <= j < |m| && IsUsable(m[j]) && m[j].start <= UsableFrames(m)[k] < End(m[j]);
    if j > 0 {
      assert End(m[0]) <= m[j].start;
    }
  }

  /**
   * On a sorted, non-overlapping map with aligned starts, `usable_frames`
   * is strictly increasing, so no frame appears twice.
   */
  lemma {:induction false} UsableFramesIncreasing(m: seq<Region>)
    requires AlignedStarts(m) && SortedDisjoint(m)
    ensures StrictlyIncreasing(UsableFrames(m))
    decreases |m|
  {
    if |m| > 0 {
      var head := if IsUsable(m[0]) then RegionFrames(m[0]) else [];
      var tail := UsableFrames(m[1..]);
      assert AlignedStarts(m[1..]) by {
        forall i | 0 <= i < |m[1..]| ensures IsFrameAligned(m[1..][i].start) {
          assert m[1..][i] == m[i + 1];
        }
      }
      assert SortedDisjoint(m[1..]) by {
        forall i, j | 0 <= i < j < |m[1..]| ensures End(m[1..][i]) <= m[1..][j].start {
          assert m[1..][i] == m[i + 1] && m[1..][j] == m[j + 1];
        }
      }
      UsableFramesIncreasing(m[1..]);
      forall i, j | 0 <= i < j < |head + tail|
        ensures (head + tail)[i] < (head + tail)[j]
      {
        if j < |head| {
          RegionFramesAligned(m[0], i);
          RegionFramesAligned(m[0], j);
        } else if i < |head| {
          RegionFramesAligned(m[0], i);
          UsableFramesFrom(m[1..], j - |head|);
          if |m| > 1 {
            assert End(m[0]) <= m[1].start;
          }
        }
      }
    }
  }

  /** `allocate_frame`: the `next`-th usable frame, or None past the end; `next` advances either way. */
  function AllocateFrame(a: Allocator): (r: (Allocator, Option<nat>))
    ensures r.0.memoryMap == a.memoryMap && r.0.next == a.next + 1
    ensures r.1.Some? <==> a.next < |UsableFrames(a.memoryMap)|
    ensures r.1.Some? ==> r.1.value == UsableFrames(a.memoryMap)[a.next]
  {
    var frames := UsableFrames(a.memoryMap);
    (a.(next := a.next + 1), if a.next < |frames| then Some(frames[a.next]) else Option.None)
  }

  /** `deallocate_frame`: a bump allocator never takes a frame back. */
  function DeallocateFrame(a: Allocator, frame: nat): Allocator {
    a
  }

  /** The results of `n` successive `allocate_frame` calls, and the allocator afterwards. */
  function AllocateMany(a: Allocator, n: nat): (r: (Allocator, seq<Option<nat>>))
    ensures r.0.memoryMap == a.memoryMap && r.0.next == a.next + n
    ensures |r.1| == n
    ensures forall i :: 0 <= i < n ==> r.1[i] == AllocateFrame(Allocator(a.memoryMap, a.next + i)).1
    decreases n
  {
    if n == 0 then (a, [])
    else
      var (b, first) := AllocateFrame(a);
      var (c, rest) := AllocateMany(b, n - 1);
      (c, [first] + rest)
  }

  /**
   * On a sorted, non-overlapping map with aligned starts, successive
   * `allocate_frame` calls never return the same frame twice, and every
   * frame they return lies in a usable region.
   */
  lemma AllocationsDistinctAndUsable(a: Allocator, n: nat, i: nat, j: nat)
    requires AlignedStarts(a.memoryMap) && SortedDisjoint(a.memoryMap)
    requires i < j < n
    ensures AllocateMany(a, n).1[i].Some? && AllocateMany(a, n).1[j].Some? ==>
              AllocateMany(a, n).1[i].value != AllocateMany(a, n).1[j].value
    ensures AllocateMany(a, n).1[i].Some? ==> InUsableRegion(a.memoryMap, AllocateMany(a, n).1[i].value)
  {
    var s := AllocateMany(a, n).1;
    var frames := UsableFrames(a.memoryMap);
    assert s[i] == AllocateFrame(Allocator(a.memoryMap, a.next + i)).1;
    assert s[j] == AllocateFrame(Allocator(a.memoryMap, a.next + j)).1;
    if s[i].Some? {
      assert s[i].value == frames[a.next + i];
      UsableFramesInUsableRegions(a.memoryMap, a.next + i);
      if s[j].Some? {
        assert s[j].value == frames[a.next + j];
        UsableFramesIncreasing(a.memoryMap);
      }
    }
  }

  /** `deallocate_frame` changes nothing, so the next allocation is the one that would have come anyway. */
  lemma DeallocateIgnored(a: Allocator, frame: nat)
    ensures AllocateFrame(DeallocateFrame(a, frame)) == AllocateFrame(a)
  {
  }

  /** Outcome of `new_starting_at`: it panics when the region holding the frame is not usable. */
  datatype InitOutcome = InitPanicked | Initialized(allocator: Allocator)

  /**
   * `new_starting_at`: drop regions until one contains the frame; that
   * region must be usable and gets the frame as its new start (its size is
   * kept). If no region contains the frame the map ends up empty.
   */
  function NewStartingAt(frame: nat, m: seq<Region>): (o: InitOutcome)
    ensures o.InitPanicked? <==> exists i :: 0 <= i < |m| && Contains(m[i], frame) && !IsUsable(m[i])
                                    && forall k :: 0 <= k < i ==> !Contains(m[k], frame)
    ensures o.Initialized? ==> o.allocator.next == 0
    ensures o.Initialized? && |o.allocator.memoryMap| > 0 ==>
              exists i :: 0 <= i < |m| && Contains(m[i], frame) && IsUsable(m[i])
                && (forall k :: 0 <= k < i ==> !Contains(m[k], frame))
                && o.allocator.memoryMap == [SetStart(m[i], frame)] + m[i + 1..]
    ensures o.Initialized? && |o.allocator.memoryMap| == 0 ==> forall k :: 0 <= k < |m| ==> !Contains(m[k], frame)
  {
    if |m| == 0 then Initialized(Allocator([], 0))
    else if Contains(m[0], frame) then
      if !IsUsable(m[0]) then InitPanicked
      else Initialized(Allocator([SetStart(m[0], frame)] + m[1..], 0))
    else
      var o := NewStartingAt(frame, m[1..]);
      assert forall i :: 0 < i < |m| ==> m[i] == m[1..][i - 1];
      if o.Initialized? && |o.allocator.memoryMap| > 0 then
        var i :| 0 <= i < |m[1..]| && Contains(m[1..][i], frame) && IsUsable(m[1..][i])
                 && (forall k :: 0 <= k < i ==> !Contains(m[1..][k], frame))
                 && o.allocator.memoryMap == [SetStart(m[1..][i], frame)] + m[1..][i + 1..];
        assert m[1..][i + 1..] == m[i + 2..];
        o
      else if o.InitPanicked? then
        var i :| 0 <= i < |m[1..]| && Contains(m[1..][i], frame) && !IsUsable(m[1..][i])
                 && forall k :: 0 <= k < i ==> !Contains(m[1..][k], frame);
        assert Contains(m[i + 1], frame) && !IsUsable(m[i + 1]);
        o
      else o
  }

  /** After starting at an aligned frame inside a usable region of nonzero size, the first allocation is that frame. */
  lemma StartFrameFirst(frame: nat, m: seq<Region>)
    requires IsFrameAligned(frame)
    requires NewStartingAt(frame, m).Initialized?
    requires |NewStartingAt(frame, m).allocator.memoryMap| > 0
    requires NewStartingAt(frame, m).allocator.memoryMap[0].size > 0
    ensures AllocateFrame(NewStartingAt(frame, m).allocator).1 == Some(frame)
  {
    var mm := NewStartingAt(frame, m).allocator.memoryMap;
    assert IsUsable(mm[0]);
    assert RegionFrames(mm[0])[0] == frame;
    assert UsableFrames(mm)[0] == frame;
  }

  /** `max_physical_address`: the largest end over the remaining map; the `unwrap` panics on an empty map. */
  function MaxPhysicalAddress(m: seq<Region>): (r: Option<nat>)
    ensures r.None? <==> |m| == 0
    ensures r.Some? ==> forall i :: 0 <= i < |m| ==> End(m[i]) <= r.value
    ensures r.Some? ==> exists i :: 0 <= i < |m| && End(m[i]) == r.value
  {
    if |m| == 0 then Option.None
    else
      var rest := MaxPhysicalAddress(m[1..]);
      assert forall i :: 0 < i < |m| ==> m[i] == m[1..][i - 1];
      if rest.None? || End(m[0]) >= rest.value then Some(End(m[0]))
      else
        var k :| 0 <= k < |m[1..]| && End(m[1..][k]) == rest.value;
        assert End(m[k + 1]) == rest.value;
        rest
  }
}
