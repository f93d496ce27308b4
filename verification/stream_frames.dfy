/**
 * The two iterator-driven bump frame allocators: the kernel's
 * (`x86_64/src/frame_allocator.rs`) and the bootloader's
 * (`bios/common/src/bump_frame_allocator.rs`). Both walk the memory map
 * once, keep the region they are carving from and the next frame to hand
 * out, and step frame by frame using the map's inclusive `contains`.
 */
module StreamFrameAllocator {
  import opened Wrappers
  import opened Regions
  import NthFrameAllocator

  /** The allocator: the regions not yet pulled from the iterator, the current region, the next frame. */
  datatype State = State(rest: seq<Region>, current: Option<Region>, frame: nat)

  /** Outcome of `new_starting_at`; `initial` is the bootloader's clone of the iterator after the search. */
  datatype InitOutcome = InitPanicked | Started(state: State, initial: seq<Region>)

  /** Index of the first region that contains `addr`, if any. */
  function FindContaining(m: seq<Region>, addr: nat): (r: Option<nat>)
    ensures r.Some? ==> r.value < |m| && Contains(m[r.value], addr)
    ensures r.Some? ==> forall k :: 0 <= k < r.value ==> !Contains(m[k], addr)
    ensures r.None? ==> forall k :: 0 <= k < |m| ==> !Contains(m[k], addr)
  {
    if |m| == 0 then Option.None
    else if Contains(m[0], addr) then Some(0)
    else
      var r := FindContaining(m[1..], addr);
      assert forall k :: 0 < k < |m| ==> m[k] == m[1..][k - 1];
      if r.Some? then Some(r.value + 1) else Option.None
  }

  /** Index of the first usable region, if any. */
  function FindUsable(m: seq<Region>): (r: Option<nat>)
    ensures r.Some? ==> r.value < |m| && IsUsable(m[r.value])
    ensures r.Some? ==> forall k :: 0 <= k < r.value ==> !IsUsable(m[k])
    ensures r.None? ==> forall k :: 0 <= k < |m| ==> !IsUsable(m[k])
  {
    if |m| == 0 then Option.None
    else if IsUsable(m[0]) then Some(0)
    else
      var r := FindUsable(m[1..]);
      assert forall k :: 0 < k < |m| ==> m[k] == m[1..][k - 1];
      if r.Some? then Some(r.value + 1) else Option.None
  }

  /**
   * `new_starting_at` (both variants): pull regions until one contains the
   * frame; it must be usable and becomes the current region. If none
   * contains it, the iterator is drained and there is no current region.
   */
  function NewStartingAt(frame: nat, m: seq<Region>): (o: InitOutcome)
    ensures o.InitPanicked? <==> FindContaining(m, frame).Some? && !IsUsable(m[FindContaining(m, frame).value])
    ensures o.Started? ==> o.state.frame == frame && o.state.rest == o.initial
    ensures o.Started? && o.state.current.Some? ==>
              exists i :: 0 <= i < |m| && o.state.current == Some(m[i]) && o.state.rest == m[i + 1..]
                && Contains(m[i], frame) && IsUsable(m[i])
    ensures o.Started? && o.state.current.None? ==>
              o.state.rest == [] && forall k :: 0 <= k < |m| ==> !Contains(m[k], frame)
  {
    match FindContaining(m, frame)
    case None => Started(State([], Option.None, frame), [])
    case Some(i) =>
      if !IsUsable(m[i]) then InitPanicked
      else Started(State(m[i + 1..], Some(m[i]), frame), m[i + 1..])
  }

  /** Kernel `allocate_frame`: when the iterator runs dry the current region is kept. */
  function AllocateKernel(s: State): (r: (State, Option<nat>))
    ensures s.current.None? ==> r == (s, Option.None)
    ensures s.current.Some? ==> r.1 == Some(s.frame) && r.0.current.Some?
    ensures r.0.frame > s.frame || s.current.None? || FindUsable(s.rest).Some?
  {
    if s.current.None? then (s, Option.None)
    else
      var next := s.frame + FRAME_SIZE;
      if Contains(s.current.value, next) then (s.(frame := next), Some(s.frame))
      else
        match FindUsable(s.rest)
        case Some(i) => (State(s.rest[i + 1..], Some(s.rest[i]), ContainingFrame(s.rest[i].start)), Some(s.frame))
        case None => (State([], s.current, next), Some(s.frame))
  }

  /** Bootloader `allocate_frame`: when the iterator runs dry the current region is cleared. */
  function AllocateBoot(s: State): (r: (State, Option<nat>))
    ensures s.current.None? ==> r == (s, Option.None)
    ensures s.current.Some? ==> r.1 == Some(s.frame)
    ensures s.current.Some? && r.0.current.None? ==>
              !Contains(s.current.value, s.frame + FRAME_SIZE) && FindUsable(s.rest).None?
  {
    if s.current.None? then (s, Option.None)
    else
      var next := s.frame + FRAME_SIZE;
      if Contains(s.current.value, next) then (s.(frame := next), Some(s.frame))
      else
        match FindUsable(s.rest)
        case Some(i) => (State(s.rest[i + 1..], Some(s.rest[i]), ContainingFrame(s.rest[i].start)), Some(s.frame))
        case None => (State([], Option.None, next), Some(s.frame))
  }

  /** Once it holds a region, the kernel allocator never reports exhaustion again. */
  lemma KernelNeverExhausts(s: State)
    requires s.current.Some?
    ensures AllocateKernel(s).1.Some?
    ensures AllocateKernel(AllocateKernel(s).0).1.Some?
  {
  }

  /**
   * A single usable page: the kernel allocator hands out the page, the
   * frame at its inclusive end, and then a frame beyond the whole map.
   */
  lemma KernelRunsPastMap()
    ensures var m := [Region(0, 0x1000, Normal, 0)];
            var o := NewStartingAt(0, m);
            o.Started? &&
            var (s1, f1) := AllocateKernel(o.state);
            var (s2, f2) := AllocateKernel(s1);
            var (_, f3) := AllocateKernel(s2);
            f1 == Some(0) && f2 == Some(0x1000) && f3 == Some(0x2000)
            && !InUsableRegion(m, 0x1000) && !InUsableRegion(m, 0x2000)
  {
  }

  /**
   * Two adjacent usable pages: because `contains` includes the end, the
   * bootloader allocator hands out the frame 0x1000 twice.
   */
  lemma BootDuplicatesFrame()
    ensures var m := [Region(0, 0x1000, Normal, 0), Region(0x1000, 0x1000, Normal, 0)];
            var o := NewStartingAt(0, m);
            o.Started? &&
            var (s1, f1) := AllocateBoot(o.state);
            var (s2, f2) := AllocateBoot(s1);
            var (_, f3) := AllocateBoot(s2);
            f1 == Some(0) && f2 == Some(0x1000) && f3 == Some(0x1000)
  {
  }

  /**
   * The bootloader's `max_physical_address`: the largest end over the
   * iterator cloned after the start region was taken; the `unwrap` panics
   * (None here) when nothing follows the start region.
   */
  function BootMaxPhysicalAddress(initial: seq<Region>): (r: Option<nat>)
    ensures r.None? <==> |initial| == 0
    ensures r.Some? ==> forall i :: 0 <= i < |initial| ==> End(initial[i]) <= r.value
  {
    NthFrameAllocator.MaxPhysicalAddress(initial)
  }

  /** Starting inside the last region leaves nothing to take the maximum over, so the call panics. */
  lemma BootMaxMissesStartRegion()
    ensures var m := [Region(0, 0x10000, Normal, 0)];
            var o := NewStartingAt(0, m);
            o.Started? && BootMaxPhysicalAddress(o.initial).None?
  {
  }

  /** The maximum taken over the whole map, as the name promises; it covers the start region too. */
  function MaxOverMap(m: seq<Region>): (r: Option<nat>)
    ensures r.None? <==> |m| == 0
    ensures r.Some? ==> forall i :: 0 <= i < |m| ==> End(m[i]) <= r.value
    ensures r.Some? ==> exists i :: 0 <= i < |m| && End(m[i]) == r.value
  {
    NthFrameAllocator.MaxPhysicalAddress(m)
  }

  /** Over the whole map the maximum exists whenever the allocator started inside a region, and bounds that region. */
  lemma MaxOverMapCoversStart(frame: nat, m: seq<Region>)
    requires NewStartingAt(frame, m).Started? && NewStartingAt(frame, m).state.current.Some?
    ensures MaxOverMap(m).Some?
    ensures End(NewStartingAt(frame, m).state.current.value) <= MaxOverMap(m).value
  {
  }

  // ---------------------------------------------------------------------------
  // The allocator with an exclusive end and exhaustion reported.

  /** Index of the first usable region that holds at least one whole frame. */
  function FindFitting(m: seq<Region>): (r: Option<nat>)
    ensures r.Some? ==> r.value < |m| && IsUsable(m[r.value]) && m[r.value].size >= FRAME_SIZE
    ensures r.None? ==> forall k :: 0 <= k < |m| ==> !(IsUsable(m[k]) && m[k].size >= FRAME_SIZE)
  {
    if |m| == 0 then Option.None
    else if IsUsable(m[0]) && m[0].size >= FRAME_SIZE then Some(0)
    else
      var r := FindFitting(m[1..]);
      assert forall k :: 0 < k < |m| ==> m[k] == m[1..][k - 1];
      if r.Some? then Some(r.value + 1) else Option.None
  }

  /**
   * `allocate_frame` handing out only whole frames inside the current
   * region, moving to the next usable region with room, and reporting
   * exhaustion once the map is used up.
   */
  function AllocateExclusive(s: State): (r: (State, Option<nat>))
    ensures s.current.None? ==> r == (s, Option.None)
    ensures s.current.Some? ==> r.1 == Some(s.frame)
  {
    if s.current.None? then (s, Option.None)
    else
      var next := s.frame + FRAME_SIZE;
      if next + FRAME_SIZE <= End(s.current.value) then (s.(frame := next), Some(s.frame))
      else
        match FindFitting(s.rest)
        case Some(i) => (State(s.rest[i + 1..], Some(s.rest[i]), ContainingFrame(s.rest[i].start)), Some(s.frame))
        case None => (State([], Option.None, next), Some(s.frame))
  }

  /** What the exclusive allocator keeps true: the next frame fits in a usable current region, and the rest lies above it. */
  predicate Good(s: State) {
    s.current.Some? ==>
      IsUsable(s.current.value) && s.current.value.start <= s.frame
      && s.frame + FRAME_SIZE <= End(s.current.value)
      && AlignedStarts(s.rest) && SortedDisjoint(s.rest)
      && forall k :: 0 <= k < |s.rest| ==> End(s.current.value) <= s.rest[k].start
  }

  /** Dropping a prefix of a sorted map with aligned starts keeps both properties. */
  lemma SuffixSorted(m: seq<Region>, i: nat, tail: seq<Region>)
    requires AlignedStarts(m) && SortedDisjoint(m) && i < |m| && tail == m[i + 1..]
    ensures AlignedStarts(tail) && SortedDisjoint(tail)
    ensures forall k :: 0 <= k < |tail| ==> End(m[i]) <= tail[k].start
  {
    assert forall k :: 0 <= k < |tail| ==> tail[k] == m[i + 1 + k];
  }

  /**
   * One step of the exclusive allocator: the returned frame lies wholly
   * inside a usable region, `Good` is kept, and the next frame handed out
   * lies above the whole returned frame.
   */
  lemma ExclusiveStep(s: State)
    requires Good(s)
    ensures var (t, r) := AllocateExclusive(s);
            Good(t)
            && (r.Some? ==> s.current.Some? && IsUsable(s.current.value)
                              && s.current.value.start <= r.value && r.value + FRAME_SIZE <= End(s.current.value))
            && (r.Some? && t.current.Some? ==> r.value + FRAME_SIZE <= t.frame)
            && (r.None? ==> t.current.None?)
  {
    if s.current.Some? {
      var next := s.frame + FRAME_SIZE;
      if next + FRAME_SIZE > End(s.current.value) {
        var f := FindFitting(s.rest);
        if f.Some? {
          var i := f.value;
          SuffixSorted(s.rest, i, s.rest[i + 1..]);
          assert IsFrameAligned(s.rest[i].start);
          assert ContainingFrame(s.rest[i].start) == s.rest[i].start;
        }
      }
    }
  }

  /** The frames `n` successive exclusive allocations return. */
  function RunExclusive(s: State, n: nat): (r: seq<Option<nat>>)
    ensures |r| == n
    ensures n > 0 ==> r[0] == AllocateExclusive(s).1
    decreases n
  {
    if n == 0 then [] else [AllocateExclusive(s).1] + RunExclusive(AllocateExclusive(s).0, n - 1)
  }

  /** Every frame a later allocation returns lies at or above the current next frame. */
  lemma {:induction false} RunAbove(s: State, n: nat, k: nat)
    requires Good(s) && k < n && RunExclusive(s, n)[k].Some?
    ensures s.current.Some? && s.frame <= RunExclusive(s, n)[k].value
    decreases n
  {
    ExclusiveStep(s);
    var t := AllocateExclusive(s).0;
    if k > 0 {
      assert RunExclusive(s, n)[k] == RunExclusive(t, n - 1)[k - 1];
      RunAbove(t, n - 1, k - 1);
      assert s.current.Some?;
    }
  }

  /**
   * From a `Good` state the exclusive allocator returns strictly increasing
   * frames, so it never hands out the same frame twice.
   */
  lemma {:induction false} ExclusiveIncreasing(s: State, n: nat, i: nat, j: nat)
    requires Good(s) && i < j < n
    requires RunExclusive(s, n)[i].Some? && RunExclusive(s, n)[j].Some?
    ensures RunExclusive(s, n)[i].value < RunExclusive(s, n)[j].value
    decreases n
  {
    ExclusiveStep(s);
    var t := AllocateExclusive(s).0;
    assert RunExclusive(s, n)[j] == RunExclusive(t, n - 1)[j - 1];
    if i == 0 {
      RunAbove(t, n - 1, j - 1);
    } else {
      assert RunExclusive(s, n)[i] == RunExclusive(t, n - 1)[i - 1];
      ExclusiveIncreasing(t, n - 1, i - 1, j - 1);
    }
  }

  /** On a sorted map with aligned starts, starting at a frame that fits in its region gives a `Good` state. */
  lemma StartIsGood(frame: nat, m: seq<Region>)
    requires AlignedStarts(m) && SortedDisjoint(m)
    requires NewStartingAt(frame, m).Started?
    requires var s := NewStartingAt(frame, m).state;
             s.current.Some? ==> frame + FRAME_SIZE <= End(s.current.value)
    ensures Good(NewStartingAt(frame, m).state)
  {
    var f := FindContaining(m, frame);
    if f.Some? {
      SuffixSorted(m, f.value, m[f.value + 1..]);
    }
  }
}
