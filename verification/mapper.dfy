/**
 * The 4-level mapper over recursively walked page tables: `map_to`,
 * `unmap` and `translate` for 4 KiB and 2 MiB pages.
 *
 * The tables of one address space are a map from index paths to entries:
 * the path `[i4]` names entry `i4` of the level-4 table, `[i4, i3]` entry
 * `i3` of the level-3 table that entry points to, and so on. An absent key
 * reads as an unused (zero) entry. A table is identified by the path of
 * the entry pointing to it, so creating a table clears every key below
 * that path. The frame allocator is the sequence of frames it would hand
 * out next.
 */
module Mapper {
  import opened Wrappers
  import opened Memory
  import opened PageEntry

  type Path = seq<bv64>
  type Tables = map<Path, Entry>

  /** The two page sizes the mapper supports. */
  datatype PageSize = Size4KiB | Size2MiB

  datatype MappingError = FrameAllocationFailed | PageAlreadyMapped
  datatype UnmappingError = PageNotMapped
  datatype TranslationError = NotMapped

  /** What `translate` reports: the frame the page maps to and the leaf entry's flags. */
  datatype Translation = Translation(frame: bv64, flags: EntryFlags)

  /** Flags every intermediate table entry is given or extended with: PRESENT | WRITABLE | USER_ACCESSIBLE. */
  const PARENT_FLAGS: EntryFlags := 7

  /** Number of indices on the path to the leaf entry: four for 4 KiB pages, three for 2 MiB pages. */
  function LeafDepth(size: PageSize): nat {
    if size == Size4KiB then 4 else 3
  }

  /** `SIZE - 1` of the page size: the offset bits `containing_address` clears. */
  function OffsetMask(size: PageSize): bv64 {
    if size == Size4KiB then 0xFFF else 0x1F_FFFF
  }

  /** The index path of the leaf entry for the page holding `addr`. */
  function PathOf(addr: bv64, size: PageSize): (p: Path)
    ensures |p| == LeafDepth(size)
  {
    [L4Index(addr), L3Index(addr), L2Index(addr), L1Index(addr)][..LeafDepth(size)]
  }

  /** The entry at a path; an absent key is an unused entry. */
  function EntryAt(t: Tables, p: Path): Entry {
    if p in t then t[p] else 0
  }

  /** `x` names an entry of a table reached through the entry at `p`, at any depth. */
  predicate Below(x: Path, p: Path) {
    |p| < |x| && x[..|p|] == p
  }

  /** Every entry below `p` becomes unused: the table `p` points to is freshly initialised empty. */
  function ClearBelow(t: Tables, p: Path): Tables {
    map x | x in t && !Below(x, p) :: t[x]
  }

  /** After clearing below `p`, entries below `p` read as unused and all others are unchanged. */
  lemma ClearBelowAt(t: Tables, p: Path, x: Path)
    ensures EntryAt(ClearBelow(t, p), x) == if Below(x, p) then 0 else EntryAt(t, x)
  {
  }

  /** Tables and allocator after walking some levels, and whether every level could be reached. */
  datatype WalkState = WalkState(tables: Tables, frames: seq<bv64>, ok: bool)

  /**
   * `get_or_allocate_pagetable` for the entry at `p`. An unused entry gets
   * the next frame from the allocator with `flags` and an empty table below
   * it, or the walk fails if the allocator is exhausted. A used entry keeps
   * its address and gains any of `flags` it lacks.
   */
  function GetOrAllocate(t: Tables, frames: seq<bv64>, p: Path, flags: EntryFlags): (w: WalkState)
    ensures w.ok <==> !IsUnused(EntryAt(t, p)) || |frames| > 0
    ensures !w.ok ==> w.tables == t && w.frames == frames == []
    ensures IsUnused(EntryAt(t, p)) && w.ok ==>
              EntryAt(w.tables, p) == SetAddress(frames[0], flags) && w.frames == frames[1..]
    ensures !IsUnused(EntryAt(t, p)) ==>
              && w.frames == frames
              && EntryAt(w.tables, p) == WithParentFlags(EntryAt(t, p), flags)
  {
    var e := EntryAt(t, p);
    if IsUnused(e) then
      if |frames| == 0 then WalkState(t, frames, false)
      else
        var entry := SetAddress(frames[0], flags);
        ClearBelowAt(t[p := entry], p, p);
        WalkState(ClearBelow(t[p := entry], p), frames[1..], true)
    else
      WalkState(t[p := WithParentFlags(e, flags)], frames, true)
  }

  /** The existing-entry branch of `get_or_allocate_pagetable`: flags the entry lacks are added. */
  function WithParentFlags(e: Entry, flags: EntryFlags): Entry {
    if flags != 0 && Flags(e) & flags != flags then AddFlags(e, flags) else e
  }

  /** Extending a used entry keeps it used. */
  lemma WithParentFlagsUsed(e: Entry, flags: EntryFlags)
    requires !IsUnused(e)
    ensures !IsUnused(WithParentFlags(e, flags))
  {
  }

  /** Extending an entry keeps its address. */
  lemma WithParentFlagsAddress(e: Entry, flags: EntryFlags)
    ensures Address(WithParentFlags(e, flags)) == Address(e)
  {
    if flags != 0 && Flags(e) & flags != flags {
      AddFlagsKeepsAddress(e, flags);
    }
  }

  /** Extending an entry leaves exactly its old flags plus `flags`. */
  lemma WithParentFlagsFlags(e: Entry, flags: EntryFlags)
    ensures Flags(WithParentFlags(e, flags)) == Flags(e) | flags
  {
    if flags != 0 && Flags(e) & flags != flags {
      AddedFlags(e, flags);
    } else {
      KeptFlags(e, flags);
    }
  }

  lemma AddedFlags(e: Entry, flags: EntryFlags)
    requires flags != 0 && Flags(e) & flags != flags
    ensures Flags(WithParentFlags(e, flags)) == Flags(e) | flags
  {
    AddFlagsUnion(e, flags);
  }

  lemma KeptFlags(e: Entry, flags: EntryFlags)
    requires !(flags != 0 && Flags(e) & flags != flags)
    ensures Flags(WithParentFlags(e, flags)) == Flags(e) | flags
  {
    ContainedFlagsUnion(Flags(e), flags);
  }

  /**
   * `get_or_allocate_pagetable` touches only the entry at `p` and, when it
   * creates a table, the entries below `p`, which then read as unused.
   */
  lemma GetOrAllocateAt(t: Tables, frames: seq<bv64>, p: Path, flags: EntryFlags, x: Path)
    ensures x != p && !Below(x, p) ==> EntryAt(GetOrAllocate(t, frames, p, flags).tables, x) == EntryAt(t, x)
    ensures x != p && !IsUnused(EntryAt(t, p)) ==> EntryAt(GetOrAllocate(t, frames, p, flags).tables, x) == EntryAt(t, x)
    ensures Below(x, p) && IsUnused(EntryAt(t, p)) && GetOrAllocate(t, frames, p, flags).ok ==>
              EntryAt(GetOrAllocate(t, frames, p, flags).tables, x) == 0
  {
    if IsUnused(EntryAt(t, p)) && |frames| > 0 {
      ClearBelowAt(t[p := SetAddress(frames[0], flags)], p, x);
    }
  }

  /** A new parent entry holds the PRESENT bit, so it is used. */
  lemma ParentEntryUsed(frame: bv64)
    ensures !IsUnused(SetAddress(frame, PARENT_FLAGS))
  {
  }

  lemma ContainedFlagsUnion(have: bv64, flags: bv64)
    requires !(flags != 0 && have & flags != flags)
    ensures have | flags == have
  {
  }

  /**
   * The three `get_or_allocate_pagetable` calls of `map_to` (two for a
   * 2 MiB page), for the strict prefixes of `path` of length `k` and up;
   * the first failure stops the walk and keeps what earlier levels created.
   */
  function Walk(t: Tables, frames: seq<bv64>, path: Path, k: nat): (w: WalkState)
    requires 1 <= k <= |path|
    ensures |w.frames| <= |frames|
    ensures !w.ok ==> w.frames == []
    decreases |path| - k
  {
    if k == |path| then WalkState(t, frames, true)
    else
      var s := GetOrAllocate(t, frames, path[..k], PARENT_FLAGS);
      if !s.ok then s else Walk(s.tables, s.frames, path, k + 1)
  }

  /** A walk leaves every entry at a path shorter than its first level unchanged. */
  lemma {:induction false} WalkKeepsShorter(t: Tables, frames: seq<bv64>, path: Path, k: nat, x: Path)
    requires 1 <= k <= |path| && |x| < k
    ensures EntryAt(Walk(t, frames, path, k).tables, x) == EntryAt(t, x)
    decreases |path| - k
  {
    if k < |path| {
      var s := GetOrAllocate(t, frames, path[..k], PARENT_FLAGS);
      GetOrAllocateAt(t, frames, path[..k], PARENT_FLAGS, x);
      if s.ok {
        WalkKeepsShorter(s.tables, s.frames, path, k + 1, x);
      }
    }
  }

  /** A successful walk leaves every table on the path in place. */
  lemma {:induction false} WalkReaches(t: Tables, frames: seq<bv64>, path: Path, k: nat, j: nat)
    requires 1 <= k <= j < |path|
    requires Walk(t, frames, path, k).ok
    ensures !IsUnused(EntryAt(Walk(t, frames, path, k).tables, path[..j]))
    decreases |path| - k
  {
    var s := GetOrAllocate(t, frames, path[..k], PARENT_FLAGS);
    if j == k {
      if IsUnused(EntryAt(t, path[..k])) {
        ParentEntryUsed(frames[0]);
      }
      if k + 1 < |path| {
        WalkKeepsShorter(s.tables, s.frames, path, k + 1, path[..k]);
      }
    } else {
      WalkReaches(s.tables, s.frames, path, k + 1, j);
    }
  }

  /** A walk either keeps the leaf entry or clears it, when it creates a table above it. */
  lemma {:induction false} WalkLeaf(t: Tables, frames: seq<bv64>, path: Path, k: nat)
    requires 1 <= k <= |path|
    ensures var leaf := EntryAt(Walk(t, frames, path, k).tables, path);
            leaf == EntryAt(t, path) || leaf == 0
    decreases |path| - k
  {
    if k < |path| {
      var s := GetOrAllocate(t, frames, path[..k], PARENT_FLAGS);
      assert path != path[..k];
      GetOrAllocateAt(t, frames, path[..k], PARENT_FLAGS, path);
      if s.ok {
        WalkLeaf(s.tables, s.frames, path, k + 1);
      }
    }
  }

  /** Every strict prefix of `q` leads to a used entry, so `get_pagetable` finds each table on the way. */
  predicate Reachable(t: Tables, q: Path) {
    forall i :: 1 <= i < |q| ==> !IsUnused(EntryAt(t, q[..i]))
  }

  /** The `translate` walk on a path: the leaf entry if every table exists and the leaf is present. */
  function TranslatePath(t: Tables, q: Path): Result<Entry, TranslationError> {
    if !Reachable(t, q) then Err(NotMapped)
    else if IsPresent(EntryAt(t, q)) then Ok(EntryAt(t, q))
    else Err(NotMapped)
  }

  /** `Translator::translate` for pages of either size. */
  function Translate(t: Tables, page: bv64, size: PageSize): Result<Translation, TranslationError> {
    match TranslatePath(t, PathOf(page, size))
    case Ok(e) => Ok(Translation(Address(e) & !OffsetMask(size), Flags(e)))
    case Err(err) => Err(err)
  }

  /** The flags written to the leaf entry: a 2 MiB mapping adds HUGE_PAGE. */
  function LeafFlags(flags: EntryFlags, size: PageSize): EntryFlags {
    if size == Size4KiB then flags else flags | HUGE_PAGE
  }

  /** Result of `map_to`: the tables and allocator afterwards, and the page to flush or the error. */
  datatype MapOutcome = MapOutcome(tables: Tables, frames: seq<bv64>, result: Result<bv64, MappingError>)

  /** `Mapper::map_to`. */
  function MapTo(t: Tables, frames: seq<bv64>, frame: bv64, page: bv64, flags: EntryFlags, size: PageSize): (o: MapOutcome)
    ensures o.result.Ok? ==> o.result.value == page
    ensures o.result == Err(FrameAllocationFailed) ==> o.frames == []
  {
    MapAt(t, frames, PathOf(page, size), SetAddress(frame, LeafFlags(flags, size)), page)
  }

  /**
   * The body of `map_to` on the path to the leaf entry: walk the levels
   * above it, refuse a present leaf, otherwise write `leaf` there.
   */
  function MapAt(t: Tables, frames: seq<bv64>, path: Path, leaf: Entry, page: bv64): (o: MapOutcome)
    requires |path| >= 1
    ensures o.result.Ok? ==> o.result.value == page
    ensures o.result == Err(FrameAllocationFailed) ==> o.frames == []
    ensures o.result.Ok? ==> EntryAt(o.tables, path) == leaf && Reachable(o.tables, path)
    ensures o.result == Err(PageAlreadyMapped) ==> EntryAt(o.tables, path) == EntryAt(t, path)
  {
    var w := Walk(t, frames, path, 1);
    if !w.ok then MapOutcome(w.tables, w.frames, Err(FrameAllocationFailed))
    else if IsPresent(EntryAt(w.tables, path)) then
      WalkLeaf(t, frames, path, 1);
      MapOutcome(w.tables, w.frames, Err(PageAlreadyMapped))
    else
      var u := w.tables[path := leaf];
      assert Reachable(u, path) by {
        forall i | 1 <= i < |path|
          ensures !IsUnused(EntryAt(u, path[..i]))
        {
          WalkReaches(t, frames, path, 1, i);
        }
      }
      MapOutcome(u, w.frames, Ok(page))
  }

  /** `Mapper::identity_map`: maps a frame to the page with the same address. */
  function IdentityMap(t: Tables, frames: seq<bv64>, frame: bv64, flags: EntryFlags, size: PageSize): (o: MapOutcome)
    ensures o.result.Ok? ==> o.result.value == frame & !OffsetMask(size)
  {
    MapTo(t, frames, frame, frame & !OffsetMask(size), flags, size)
  }

  /** Result of `unmap`: a missing table makes its `unwrap` panic. */
  datatype UnmapOutcome = UnmapPanicked | Unmapped(tables: Tables, result: Result<bv64, UnmappingError>)

  /**
   * `Mapper::unmap` as written: it clears the leaf entry and only then
   * reads the frame address out of it, so the frame it reports is always 0.
   */
  function Unmap(t: Tables, page: bv64, size: PageSize): (o: UnmapOutcome)
    ensures o.UnmapPanicked? <==> !Reachable(t, PathOf(page, size))
    ensures o.Unmapped? && o.result.Ok? ==> o.result.value == 0
  {
    var path := PathOf(page, size);
    if !Reachable(t, path) then UnmapPanicked
    else if Flags(EntryAt(t, path)) & PRESENT == 0 then Unmapped(t, Err(PageNotMapped))
    else
      var cleared := SetUnused();
      SetUnusedClears();
      Unmapped(t[path := cleared], Ok(Address(cleared) & !OffsetMask(size)))
  }

  /** `unmap` as evidently intended: the reported frame is read from the leaf entry before it is cleared. */
  function UnmapReturningFrame(t: Tables, page: bv64, size: PageSize): (o: UnmapOutcome)
    ensures o.UnmapPanicked? <==> !Reachable(t, PathOf(page, size))
    ensures o.Unmapped? ==> (o.result.Ok? <==> IsPresent(EntryAt(t, PathOf(page, size))))
  {
    var path := PathOf(page, size);
    if !Reachable(t, path) then UnmapPanicked
    else if Flags(EntryAt(t, path)) & PRESENT == 0 then Unmapped(t, Err(PageNotMapped))
    else Unmapped(t[path := SetUnused()], Ok(Address(EntryAt(t, path)) & !OffsetMask(size)))
  }

  /** The paths to the entries of two distinct 4 KiB pages below 2^48 differ. */
  lemma DistinctPagesDistinctPaths(a: bv64, b: bv64)
    requires a <= ADDRESS_MASK_48 && b <= ADDRESS_MASK_48
    requires AlignDown(a, PAGE_SIZE) != AlignDown(b, PAGE_SIZE)
    ensures PathOf(a, Size4KiB) != PathOf(b, Size4KiB)
  {
    if PathOf(a, Size4KiB) == PathOf(b, Size4KiB) {
      assert PathOf(a, Size4KiB)[0] == PathOf(b, Size4KiB)[0];
      assert PathOf(a, Size4KiB)[1] == PathOf(b, Size4KiB)[1];
      assert PathOf(a, Size4KiB)[2] == PathOf(b, Size4KiB)[2];
      assert PathOf(a, Size4KiB)[3] == PathOf(b, Size4KiB)[3];
      SameIndicesSamePage(a, b);
    }
  }

  /** Two tables that agree on every entry along `q` translate `q` alike. */
  lemma SamePathEntriesSameTranslation(t: Tables, u: Tables, q: Path)
    requires |q| >= 1
    requires forall i :: 1 <= i <= |q| ==> EntryAt(t, q[..i]) == EntryAt(u, q[..i])
    ensures TranslatePath(t, q) == TranslatePath(u, q)
  {
    assert q[..|q|] == q;
    assert EntryAt(t, q[..|q|]) == EntryAt(u, q[..|q|]);
    assert Reachable(t, q) <==> Reachable(u, q) by {
      forall i | 1 <= i < |q|
        ensures IsUnused(EntryAt(t, q[..i])) == IsUnused(EntryAt(u, q[..i]))
      {
      }
    }
  }

  /** A step of `get_or_allocate_pagetable` above the leaf level changes no translation of any path of the leaf's length or longer. */
  lemma StepKeepsTranslatePath(t: Tables, frames: seq<bv64>, p: Path, flags: EntryFlags, q: Path)
    requires 1 <= |p| < |q|
    ensures TranslatePath(GetOrAllocate(t, frames, p, flags).tables, q) == TranslatePath(t, q)
  {
    var w := GetOrAllocate(t, frames, p, flags);
    if q[..|p|] != p {
      forall i | 1 <= i <= |q|
        ensures EntryAt(w.tables, q[..i]) == EntryAt(t, q[..i])
      {
        if i >= |p| {
          assert q[..i][..|p|] == q[..|p|];
        }
        GetOrAllocateAt(t, frames, p, flags, q[..i]);
      }
      SamePathEntriesSameTranslation(w.tables, t, q);
    } else if !IsUnused(EntryAt(t, p)) {
      WithParentFlagsUsed(EntryAt(t, p), flags);
      forall i | 1 <= i < |q|
        ensures IsUnused(EntryAt(w.tables, q[..i])) == IsUnused(EntryAt(t, q[..i]))
      {
        GetOrAllocateAt(t, frames, p, flags, q[..i]);
      }
      GetOrAllocateAt(t, frames, p, flags, q);
    } else {
      assert q[..|p|] == p;
      assert !Reachable(t, q);
      if w.ok {
        var x := q[..|p| + 1];
        assert x[..|p|] == p;
        GetOrAllocateAt(t, frames, p, flags, x);
        if |p| + 1 == |q| {
          assert x == q;
        } else {
          assert !Reachable(w.tables, q);
        }
      }
    }
  }

  /** The walk of `map_to` changes no translation of any path of the leaf's length. */
  lemma {:induction false} WalkKeepsTranslatePath(t: Tables, frames: seq<bv64>, path: Path, k: nat, q: Path)
    requires 1 <= k <= |path| == |q|
    ensures TranslatePath(Walk(t, frames, path, k).tables, q) == TranslatePath(t, q)
    decreases |path| - k
  {
    if k < |path| {
      var s := GetOrAllocate(t, frames, path[..k], PARENT_FLAGS);
      StepKeepsTranslatePath(t, frames, path[..k], PARENT_FLAGS, q);
      if s.ok {
        WalkKeepsTranslatePath(s.tables, s.frames, path, k + 1, q);
      }
    }
  }

  /** Rewriting the leaf entry at `path` changes no translation of another path of the same length. */
  lemma LeafWriteKeepsOthers(t: Tables, path: Path, e: Entry, q: Path)
    requires |q| == |path| && q != path
    ensures TranslatePath(t[path := e], q) == TranslatePath(t, q)
  {
    forall i | 1 <= i <= |q|
      ensures EntryAt(t[path := e], q[..i]) == EntryAt(t, q[..i])
    {
      if i == |q| {
        assert q[..i] == q;
      }
    }
    SamePathEntriesSameTranslation(t[path := e], t, q);
  }

  /** A frame aligned to its page size is unchanged by `containing_address`. */
  lemma AlignedFrameKept(frame: bv64, size: PageSize)
    requires frame & OffsetMask(size) == 0
    ensures frame & !OffsetMask(size) == frame
  {
    if size == Size4KiB {
      AlignedKept4KiB(frame);
    } else {
      AlignedKept2MiB(frame);
    }
  }

  lemma AlignedKept4KiB(frame: bv64)
    requires frame & 0xFFF == 0
    ensures frame & !0xFFF == frame
  {
  }

  lemma AlignedKept2MiB(frame: bv64)
    requires frame & 0x1F_FFFF == 0
    ensures frame & !0x1F_FFFF == frame
  {
  }

  /** The leaf entry `map_to` writes is present exactly when the caller's flags include PRESENT. */
  lemma LeafPresence(frame: bv64, flags: EntryFlags, size: PageSize)
    requires frame & 0xFFF == 0
    ensures IsPresent(SetAddress(frame, LeafFlags(flags, size))) <==> flags & PRESENT != 0
  {
    if size == Size4KiB {
      LeafPresence4KiB(frame, flags);
    } else {
      LeafPresence2MiB(frame, flags);
    }
  }

  lemma LeafPresence4KiB(frame: bv64, flags: EntryFlags)
    requires frame & 0xFFF == 0
    ensures IsPresent(SetAddress(frame, flags)) <==> flags & PRESENT != 0
  {
  }

  lemma LeafPresence2MiB(frame: bv64, flags: EntryFlags)
    requires frame & 0xFFF == 0
    ensures IsPresent(SetAddress(frame, flags | HUGE_PAGE)) <==> flags & PRESENT != 0
  {
  }

  /** A frame aligned to a page size of the mapper is 4 KiB-aligned. */
  lemma SizeAlignedIsPageAligned(frame: bv64, size: PageSize)
    requires frame & OffsetMask(size) == 0
    ensures frame & 0xFFF == 0
  {
  }

  /** Reading back the leaf entry `map_to` writes gives the frame and the leaf flags. */
  lemma LeafReadBack(frame: bv64, flags: EntryFlags, size: PageSize)
    requires IsEntryAddress(frame) && frame & OffsetMask(size) == 0
    ensures Address(SetAddress(frame, LeafFlags(flags, size))) & !OffsetMask(size) == frame
    ensures Flags(SetAddress(frame, LeafFlags(flags, size))) == LeafFlags(flags, size)
  {
    SetAddressThenAddress(frame, LeafFlags(flags, size));
    SetAddressThenFlags(frame, LeafFlags(flags, size));
    AlignedFrameKept(frame, size);
  }

  /** A walk from a reachable path allocates nothing and succeeds. */
  lemma {:induction false} WalkReachableOk(t: Tables, frames: seq<bv64>, path: Path, k: nat)
    requires 1 <= k <= |path|
    requires forall i :: k <= i < |path| ==> !IsUnused(EntryAt(t, path[..i]))
    ensures Walk(t, frames, path, k).ok
    ensures Walk(t, frames, path, k).frames == frames
    decreases |path| - k
  {
    if k < |path| {
      var s := GetOrAllocate(t, frames, path[..k], PARENT_FLAGS);
      forall i | k < i < |path|
        ensures !IsUnused(EntryAt(s.tables, path[..i]))
      {
        GetOrAllocateAt(t, frames, path[..k], PARENT_FLAGS, path[..i]);
      }
      WalkReachableOk(s.tables, s.frames, path, k + 1);
    }
  }

  /** A walk that meets a missing table while frames are left takes at least one frame. */
  lemma {:induction false} WalkMissingTableTakes(t: Tables, frames: seq<bv64>, path: Path, k: nat, j: nat)
    requires 1 <= k <= j < |path|
    requires IsUnused(EntryAt(t, path[..j])) && |frames| > 0
    ensures |Walk(t, frames, path, k).frames| < |frames|
    decreases |path| - k
  {
    var s := GetOrAllocate(t, frames, path[..k], PARENT_FLAGS);
    if !IsUnused(EntryAt(t, path[..k])) {
      assert path[..j] != path[..k];
      GetOrAllocateAt(t, frames, path[..k], PARENT_FLAGS, path[..j]);
      WalkMissingTableTakes(s.tables, s.frames, path, k + 1, j);
    }
  }

  /**
   * `map_to` draws the frames for missing intermediate tables from the
   * allocator it is given: when every table on the page's path exists it
   * takes none, and otherwise it takes at least one while any is left.
   */
  lemma MapToTableFrames(t: Tables, frames: seq<bv64>, frame: bv64, page: bv64, flags: EntryFlags, size: PageSize)
    ensures Reachable(t, PathOf(page, size)) ==> MapTo(t, frames, frame, page, flags, size).frames == frames
    ensures !Reachable(t, PathOf(page, size)) && |frames| > 0 ==>
              |MapTo(t, frames, frame, page, flags, size).frames| < |frames|
  {
    var path := PathOf(page, size);
    if Reachable(t, path) {
      WalkReachableOk(t, frames, path, 1);
    } else if |frames| > 0 {
      var j :| 1 <= j < |path| && IsUnused(EntryAt(t, path[..j]));
      WalkMissingTableTakes(t, frames, path, 1, j);
    }
  }

  /** Two tables that translate the path of a page alike translate the page alike. */
  lemma TranslateFollowsPath(t: Tables, u: Tables, q: bv64, size: PageSize)
    requires TranslatePath(t, PathOf(q, size)) == TranslatePath(u, PathOf(q, size))
    ensures Translate(t, q, size) == Translate(u, q, size)
  {
  }

  /** The body of `map_to` changes no translation of another path of the leaf's length. */
  lemma MapAtKeepsOtherPaths(t: Tables, frames: seq<bv64>, path: Path, leaf: Entry, page: bv64, q: Path)
    requires |path| >= 1 && |q| == |path| && q != path
    ensures TranslatePath(MapAt(t, frames, path, leaf, page).tables, q) == TranslatePath(t, q)
  {
    var w := Walk(t, frames, path, 1);
    WalkKeepsTranslatePath(t, frames, path, 1, q);
    if w.ok && !IsPresent(EntryAt(w.tables, path)) {
      LeafWriteKeepsOthers(w.tables, path, leaf, q);
    }
  }

  /** A failing body of `map_to` changes no translation of any path of the leaf's length. */
  lemma FailedMapAtKeepsPaths(t: Tables, frames: seq<bv64>, path: Path, leaf: Entry, page: bv64, q: Path)
    requires |path| >= 1 && |q| == |path|
    requires MapAt(t, frames, path, leaf, page).result.Err?
    ensures TranslatePath(MapAt(t, frames, path, leaf, page).tables, q) == TranslatePath(t, q)
  {
    WalkKeepsTranslatePath(t, frames, path, 1, q);
  }

  /** The body of `map_to` on a path that already translates fails with PageAlreadyMapped and allocates nothing. */
  lemma MapAtMappedPath(t: Tables, frames: seq<bv64>, path: Path, leaf: Entry, page: bv64)
    requires |path| >= 1
    requires TranslatePath(t, path).Ok?
    ensures MapAt(t, frames, path, leaf, page).result == Err(PageAlreadyMapped)
    ensures MapAt(t, frames, path, leaf, page).frames == frames
  {
    WalkReachableOk(t, frames, path, 1);
    WalkKeepsTranslatePath(t, frames, path, 1, path);
  }

  /** `map_to` changes the translation of no other page of the same size, whether it succeeds or fails. */
  lemma MapToKeepsOtherPages(t: Tables, frames: seq<bv64>, frame: bv64, page: bv64, flags: EntryFlags, size: PageSize, q: bv64)
    requires PathOf(q, size) != PathOf(page, size)
    ensures Translate(MapTo(t, frames, frame, page, flags, size).tables, q, size) == Translate(t, q, size)
  {
    var o := MapAt(t, frames, PathOf(page, size), SetAddress(frame, LeafFlags(flags, size)), page);
    MapAtKeepsOtherPaths(t, frames, PathOf(page, size), SetAddress(frame, LeafFlags(flags, size)), page, PathOf(q, size));
    TranslateFollowsPath(o.tables, t, q, size);
  }

  /** A failing `map_to` changes no translation at all, though it may keep tables it created. */
  lemma FailedMapToKeepsTranslations(t: Tables, frames: seq<bv64>, frame: bv64, page: bv64, flags: EntryFlags, size: PageSize, q: bv64)
    requires MapTo(t, frames, frame, page, flags, size).result.Err?
    ensures Translate(MapTo(t, frames, frame, page, flags, size).tables, q, size) == Translate(t, q, size)
  {
    var o := MapAt(t, frames, PathOf(page, size), SetAddress(frame, LeafFlags(flags, size)), page);
    FailedMapAtKeepsPaths(t, frames, PathOf(page, size), SetAddress(frame, LeafFlags(flags, size)), page, PathOf(q, size));
    TranslateFollowsPath(o.tables, t, q, size);
  }

  /**
   * After a successful `map_to` of a frame aligned to the page size, with
   * PRESENT among the flags, `translate` of the page gives that frame and
   * the flags (plus HUGE_PAGE for a 2 MiB page).
   */
  lemma MapThenTranslate(t: Tables, frames: seq<bv64>, frame: bv64, page: bv64, flags: EntryFlags, size: PageSize)
    requires IsEntryAddress(frame) && frame & OffsetMask(size) == 0
    requires flags & PRESENT != 0
    requires MapTo(t, frames, frame, page, flags, size).result.Ok?
    ensures Translate(MapTo(t, frames, frame, page, flags, size).tables, page, size)
            == Ok(Translation(frame, LeafFlags(flags, size)))
  {
    var leaf := SetAddress(frame, LeafFlags(flags, size));
    var o := MapAt(t, frames, PathOf(page, size), leaf, page);
    SizeAlignedIsPageAligned(frame, size);
    LeafPresence(frame, flags, size);
    LeafReadBack(frame, flags, size);
    assert TranslatePath(o.tables, PathOf(page, size)) == Ok(leaf);
  }

  /** A `map_to` with flags lacking PRESENT, as for a guard page, leaves the page untranslatable. */
  lemma MapWithoutPresentNotMapped(t: Tables, frames: seq<bv64>, frame: bv64, page: bv64, flags: EntryFlags, size: PageSize)
    requires frame & 0xFFF == 0
    requires flags & PRESENT == 0
    requires MapTo(t, frames, frame, page, flags, size).result.Ok?
    ensures Translate(MapTo(t, frames, frame, page, flags, size).tables, page, size) == Err(NotMapped)
  {
    var leaf := SetAddress(frame, LeafFlags(flags, size));
    var o := MapAt(t, frames, PathOf(page, size), leaf, page);
    LeafPresence(frame, flags, size);
    assert TranslatePath(o.tables, PathOf(page, size)) == Err(NotMapped);
  }

  /** `map_to` of a page that already translates fails with PageAlreadyMapped, allocating nothing. */
  lemma MapToMappedPage(t: Tables, frames: seq<bv64>, frame: bv64, page: bv64, flags: EntryFlags, size: PageSize)
    requires Translate(t, page, size).Ok?
    ensures MapTo(t, frames, frame, page, flags, size).result == Err(PageAlreadyMapped)
    ensures MapTo(t, frames, frame, page, flags, size).frames == frames
  {
    MapAtMappedPath(t, frames, PathOf(page, size), SetAddress(frame, LeafFlags(flags, size)), page);
  }

  /** `identity_map` of a frame aligned to the page size makes the page at the same address translate to it. */
  lemma IdentityMapTranslates(t: Tables, frames: seq<bv64>, frame: bv64, flags: EntryFlags, size: PageSize)
    requires IsEntryAddress(frame) && frame & OffsetMask(size) == 0
    requires flags & PRESENT != 0
    requires IdentityMap(t, frames, frame, flags, size).result.Ok?
    ensures Translate(IdentityMap(t, frames, frame, flags, size).tables, frame, size)
            == Ok(Translation(frame, LeafFlags(flags, size)))
  {
    AlignedFrameKept(frame, size);
    MapThenTranslate(t, frames, frame, frame, flags, size);
  }

  /** After `unmap` succeeds the page no longer translates. */
  lemma UnmapThenNotMapped(t: Tables, page: bv64, size: PageSize)
    requires Unmap(t, page, size).Unmapped?
    ensures Translate(Unmap(t, page, size).tables, page, size) == Err(NotMapped)
  {
    var path := PathOf(page, size);
    SetUnusedClears();
    assert EntryAt(t[path := SetUnused()], path) == SetUnused();
  }

  /** `unmap` changes the translation of no other page of the same size. */
  lemma UnmapKeepsOtherPages(t: Tables, page: bv64, size: PageSize, q: bv64)
    requires PathOf(q, size) != PathOf(page, size)
    requires Unmap(t, page, size).Unmapped?
    ensures Translate(Unmap(t, page, size).tables, q, size) == Translate(t, q, size)
  {
    LeafWriteKeepsOthers(t, PathOf(page, size), SetUnused(), PathOf(q, size));
  }

  /**
   * Mapping a nonzero frame and then unmapping the page with the
   * as-written `unmap` reports frame 0 instead of the mapped frame.
   */
  lemma MapThenUnmapAsWrittenLosesFrame(t: Tables, frames: seq<bv64>, frame: bv64, page: bv64, flags: EntryFlags, size: PageSize)
    requires IsEntryAddress(frame) && frame & OffsetMask(size) == 0 && frame != 0
    requires flags & PRESENT != 0
    requires MapTo(t, frames, frame, page, flags, size).result.Ok?
    ensures Unmap(MapTo(t, frames, frame, page, flags, size).tables, page, size).Unmapped?
    ensures Unmap(MapTo(t, frames, frame, page, flags, size).tables, page, size).result == Ok(0)
    ensures Translate(MapTo(t, frames, frame, page, flags, size).tables, page, size).value.frame != 0
  {
    MapThenTranslate(t, frames, frame, page, flags, size);
  }

  /** With the frame read before clearing, unmapping a freshly mapped page reports the mapped frame. */
  lemma MapThenUnmapReturnsFrame(t: Tables, frames: seq<bv64>, frame: bv64, page: bv64, flags: EntryFlags, size: PageSize)
    requires IsEntryAddress(frame) && frame & OffsetMask(size) == 0
    requires flags & PRESENT != 0
    requires MapTo(t, frames, frame, page, flags, size).result.Ok?
    ensures UnmapReturningFrame(MapTo(t, frames, frame, page, flags, size).tables, page, size).Unmapped?
    ensures UnmapReturningFrame(MapTo(t, frames, frame, page, flags, size).tables, page, size).result == Ok(frame)
  {
    var o := MapTo(t, frames, frame, page, flags, size);
    MapThenTranslate(t, frames, frame, page, flags, size);
    UnmapReportsTranslatedFrame(o.tables, page, size);
  }

  /** Whenever `translate` finds a page, the corrected `unmap` succeeds and reports the translated frame. */
  lemma UnmapReportsTranslatedFrame(t: Tables, page: bv64, size: PageSize)
    requires Translate(t, page, size).Ok?
    ensures UnmapReturningFrame(t, page, size) == Unmapped(t[PathOf(page, size) := 0], Ok(Translate(t, page, size).value.frame))
  {
    assert Flags(EntryAt(t, PathOf(page, size))) & PRESENT == EntryAt(t, PathOf(page, size)) & PRESENT;
  }
}
