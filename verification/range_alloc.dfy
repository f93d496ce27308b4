/**
 * The best-fit virtual range allocator. The allocated ranges are a map
 * keyed by start address, kept here as the sequence of its values in key
 * order; inserting under a key that is already present replaces its range.
 */
module RangeAllocator {
  import opened Wrappers

  /** `u64::MAX`, the initial "best hole so far". */
  const U64_MAX: nat := 0xFFFF_FFFF_FFFF_FFFF

  /** A half-open range `[start, end)`. */
  datatype Range = Range(start: nat, end: nat)

  /** The managed range and the allocated ranges, in ascending start order. */
  datatype Allocator = Allocator(total: Range, ranges: seq<Range>)

  function New(total: Range): (a: Allocator)
    ensures a.total == total && |a.ranges| == 0
  {
    Allocator(total, [])
  }

  /** `contains_range`. */
  predicate ContainsRange(total: Range, r: Range) {
    total.start <= r.start && total.end >= r.end
  }

  /** `ranges_overlap`. */
  predicate RangesOverlap(r1: Range, r2: Range) {
    r1.start < r2.end && r1.end > r2.start
  }

  predicate NonEmpty(r: Range) {
    r.start < r.end
  }

  /** Address `x` lies in `r`. */
  predicate InRange(r: Range, x: nat) {
    r.start <= x < r.end
  }

  /** For non-empty ranges, containment is containment of every address. */
  lemma ContainsRangeByPoints(total: Range, r: Range)
    requires NonEmpty(r)
    ensures ContainsRange(total, r) <==> forall x :: InRange(r, x) ==> InRange(total, x)
  {
    if !ContainsRange(total, r) {
      if total.start > r.start {
        assert InRange(r, r.start);
      } else {
        assert InRange(r, r.end - 1);
      }
    }
  }

  /** For non-empty ranges the overlap test is symmetric and holds exactly when an address lies in both. */
  lemma OverlapByPoints(r1: Range, r2: Range)
    requires NonEmpty(r1) && NonEmpty(r2)
    ensures RangesOverlap(r1, r2) == RangesOverlap(r2, r1)
    ensures RangesOverlap(r1, r2) <==> exists x :: InRange(r1, x) && InRange(r2, x)
  {
    if RangesOverlap(r1, r2) {
      var x := if r1.start < r2.start then r2.start else r1.start;
      assert InRange(r1, x) && InRange(r2, x);
    }
  }

  // ---------------------------------------------------------------------------
  // The ordered map

  /**
   * The allocator's invariant from `lo` on: non-empty ranges, each starting
   * at or after the previous one's end, all below `hi`.
   */
  predicate Chain(rs: seq<Range>, lo: nat, hi: nat)
    decreases |rs|
  {
    |rs| == 0 || (lo <= rs[0].start < rs[0].end <= hi && Chain(rs[1..], rs[0].end, hi))
  }

  predicate Valid(a: Allocator) {
    Chain(a.ranges, a.total.start, a.total.end)
  }

  lemma ChainLower(rs: seq<Range>, lo: nat, lo2: nat, hi: nat)
    requires Chain(rs, lo, hi) && (|rs| == 0 || lo2 <= rs[0].start)
    ensures Chain(rs, lo2, hi)
  {
  }

  /** Under the invariant ranges are ordered, disjoint, non-empty and inside `[lo, hi)`. */
  lemma {:induction false} ChainOrder(rs: seq<Range>, lo: nat, hi: nat, i: nat, j: nat)
    requires Chain(rs, lo, hi) && i <= j < |rs|
    ensures lo <= rs[i].start < rs[i].end <= hi
    ensures i < j ==> rs[i].end <= rs[j].start
    decreases j
  {
    if i > 0 {
      ChainOrder(rs[1..], rs[0].end, hi, i - 1, j - 1);
    } else if j > 0 {
      ChainOrder(rs[1..], rs[0].end, hi, 0, j - 1);
    }
  }

  /** The ranges ranges of a valid allocator are pairwise disjoint and inside the total range. */
  lemma ValidDisjoint(a: Allocator, i: nat, j: nat)
    requires Valid(a) && i < |a.ranges| && j < |a.ranges| && i != j
    ensures !RangesOverlap(a.ranges[i], a.ranges[j])
    ensures ContainsRange(a.total, a.ranges[i]) && NonEmpty(a.ranges[i])
  {
    if i < j {
      ChainOrder(a.ranges, a.total.start, a.total.end, i, j);
    } else {
      ChainOrder(a.ranges, a.total.start, a.total.end, j, i);
      ChainOrder(a.ranges, a.total.start, a.total.end, i, i);
    }
  }

  /** `BTreeMap::insert(r.start, r)`: a new key goes in order, an existing key has its range replaced. */
  function Insert(rs: seq<Range>, r: Range): (res: seq<Range>)
    ensures r in res
    ensures forall x :: x in rs && x.start != r.start ==> x in res
    ensures forall x :: x in res ==> x == r || x in rs
    ensures |res| <= |rs| + 1
  {
    if |rs| == 0 then [r]
    else if r.start < rs[0].start then [r] + rs
    else if r.start == rs[0].start then [r] + rs[1..]
    else [rs[0]] + Insert(rs[1..], r)
  }

  /** `BTreeMap::get(key)`. */
  function Lookup(rs: seq<Range>, key: nat): (o: Option<Range>)
    ensures o.Some? ==> o.value in rs && o.value.start == key
    ensures o.None? <==> forall i :: 0 <= i < |rs| ==> rs[i].start != key
  {
    if |rs| == 0 then Option.None
    else if rs[0].start == key then Some(rs[0])
    else
      var o := Lookup(rs[1..], key);
      assert forall i :: 0 < i < |rs| ==> rs[i] == rs[1..][i - 1];
      o
  }

  /** `BTreeMap::remove(key)`. */
  function Delete(rs: seq<Range>, key: nat): (res: seq<Range>)
    ensures forall x :: x in res ==> x in rs
    ensures forall x :: x in rs && x.start != key ==> x in res
  {
    if |rs| == 0 then []
    else if rs[0].start == key then rs[1..]
    else [rs[0]] + Delete(rs[1..], key)
  }

  /** No ranges range overlaps `r`: the `all(...)` test of `try_allocate_range`. */
  predicate NoOverlap(rs: seq<Range>, r: Range) {
    forall i :: 0 <= i < |rs| ==> !RangesOverlap(rs[i], r)
  }

  /** Inserting a non-empty range that overlaps nothing keeps the invariant. */
  lemma {:induction false} InsertChain(rs: seq<Range>, lo: nat, hi: nat, r: Range)
    requires Chain(rs, lo, hi) && lo <= r.start && NonEmpty(r) && r.end <= hi && NoOverlap(rs, r)
    ensures Chain(Insert(rs, r), lo, hi)
    decreases |rs|
  {
    if |rs| > 0 {
      assert !RangesOverlap(rs[0], r);
      if r.start <= rs[0].start {
        ChainLower(rs, lo, r.end, hi);
      } else {
        assert forall i :: 0 <= i < |rs[1..]| ==> rs[1..][i] == rs[i + 1];
        InsertChain(rs[1..], rs[0].end, hi, r);
      }
    }
  }

  /** Removing a key keeps the invariant. */
  lemma {:induction false} DeleteChain(rs: seq<Range>, lo: nat, hi: nat, key: nat)
    requires Chain(rs, lo, hi)
    ensures Chain(Delete(rs, key), lo, hi)
    decreases |rs|
  {
    if |rs| > 0 {
      if rs[0].start == key {
        ChainLower(rs[1..], rs[0].end, lo, hi);
      } else {
        DeleteChain(rs[1..], rs[0].end, hi, key);
      }
    }
  }

  /** Removing a key that was just inserted under a fresh key gives back the original ranges. */
  lemma {:induction false} DeleteInsert(rs: seq<Range>, r: Range)
    requires forall i :: 0 <= i < |rs| ==> rs[i].start != r.start
    ensures Delete(Insert(rs, r), r.start) == rs
    decreases |rs|
  {
    if |rs| > 0 && r.start > rs[0].start {
      assert forall i :: 0 <= i < |rs[1..]| ==> rs[1..][i] == rs[i + 1];
      DeleteInsert(rs[1..], r);
    }
  }

  // ---------------------------------------------------------------------------
  // Operations

  /** `try_allocate_range`: store `r` if it lies inside the total range and overlaps no allocation. */
  function TryAllocateRange(a: Allocator, r: Range): (res: (Allocator, bool))
    ensures res.1 <==> NoOverlap(a.ranges, r) && ContainsRange(a.total, r)
    ensures res.1 ==> res.0.total == a.total && r in res.0.ranges
                      && forall x :: x in a.ranges && x.start != r.start ==> x in res.0.ranges
    ensures !res.1 ==> res.0 == a
  {
    if NoOverlap(a.ranges, r) && ContainsRange(a.total, r) then
      (a.(ranges := Insert(a.ranges, r)), true)
    else (a, false)
  }

  /** `deallocate_range`: remove the range stored under `r.start` if it equals `r`. */
  function DeallocateRange(a: Allocator, r: Range): (res: (Allocator, bool))
    ensures res.1 <==> Lookup(a.ranges, r.start) == Some(r)
    ensures res.1 ==> res.0.total == a.total
                      && forall x :: x in a.ranges && x.start != r.start ==> x in res.0.ranges
    ensures !res.1 ==> res.0 == a
  {
    if Lookup(a.ranges, r.start) == Some(r) then
      (a.(ranges := Delete(a.ranges, r.start)), true)
    else (a, false)
  }

  /** Deallocation keeps the invariant, and a freed range of a valid allocator is gone. */
  lemma DeallocateValid(a: Allocator, r: Range)
    requires Valid(a)
    ensures Valid(DeallocateRange(a, r).0)
    ensures DeallocateRange(a, r).1 ==> r !in DeallocateRange(a, r).0.ranges
  {
    DeleteChain(a.ranges, a.total.start, a.total.end, r.start);
    if DeallocateRange(a, r).1 {
      DeleteRemovesKey(a.ranges, a.total.start, a.total.end, r.start);
    }
  }

  /** Under the invariant keys are unique, so deleting a key leaves no range with that start. */
  lemma {:induction false} DeleteRemovesKey(rs: seq<Range>, lo: nat, hi: nat, key: nat)
    requires Chain(rs, lo, hi)
    ensures forall x :: x in Delete(rs, key) ==> x.start != key
    decreases |rs|
  {
    if |rs| > 0 {
      if rs[0].start == key {
        ChainAbove(rs[1..], rs[0].end, hi);
      } else {
        DeleteRemovesKey(rs[1..], rs[0].end, hi, key);
        if key < rs[0].start {
          ChainAbove(rs[1..], rs[0].end, hi);
        }
      }
    }
  }

  /** Every range of a chain starts at or above its lower bound. */
  lemma {:induction false} ChainAbove(rs: seq<Range>, lo: nat, hi: nat)
    requires Chain(rs, lo, hi)
    ensures forall x :: x in rs ==> lo <= x.start
    decreases |rs|
  {
    if |rs| > 0 {
      ChainAbove(rs[1..], rs[0].end, hi);
    }
  }

  /**
   * A non-empty range that overlaps none of a valid allocator's ranges has
   * a start no stored range has.
   */
  lemma FreshKey(a: Allocator, r: Range)
    requires Valid(a) && NonEmpty(r) && NoOverlap(a.ranges, r)
    ensures forall i :: 0 <= i < |a.ranges| ==> a.ranges[i].start != r.start
  {
    forall i | 0 <= i < |a.ranges|
      ensures a.ranges[i].start != r.start
    {
      ChainOrder(a.ranges, a.total.start, a.total.end, i, i);
    }
  }

  /**
   * A zero-length range overlaps nothing under the half-open test, so it is
   * accepted; stored under the start of an existing allocation it replaces
   * that allocation, which can then no longer be freed.
   */
  lemma EmptyRangeOverwrites()
    ensures var a := Allocator(Range(0, 1000), [Range(0, 400)]);
            var (b, ok) := TryAllocateRange(a, Range(0, 0));
            ok && b.ranges == [Range(0, 0)] && !DeallocateRange(b, Range(0, 400)).1
  {
    var a := Allocator(Range(0, 1000), [Range(0, 400)]);
    assert NoOverlap(a.ranges, Range(0, 0));
  }

  /** `try_allocate_range` refusing empty ranges, so that no stored range is replaced. */
  function TryAllocateRangeChecked(a: Allocator, r: Range): (res: (Allocator, bool))
    ensures res.1 <==> NonEmpty(r) && NoOverlap(a.ranges, r) && ContainsRange(a.total, r)
    ensures !res.1 ==> res.0 == a
  {
    if NonEmpty(r) then TryAllocateRange(a, r) else (a, false)
  }

  /** The checked allocation keeps the invariant, and freeing what it stored restores the allocator. */
  lemma CheckedRangeRoundTrip(a: Allocator, r: Range)
    requires Valid(a)
    ensures Valid(TryAllocateRangeChecked(a, r).0)
    ensures TryAllocateRangeChecked(a, r).1 ==> DeallocateRange(TryAllocateRangeChecked(a, r).0, r) == (a, true)
  {
    if TryAllocateRangeChecked(a, r).1 {
      InsertChain(a.ranges, a.total.start, a.total.end, r);
      FreshKey(a, r);
      DeleteInsert(a.ranges, r);
      var b := a.(ranges := Insert(a.ranges, r));
      InsertedFound(a.ranges, r);
    }
  }

  /** An inserted range is found under its key. */
  lemma {:induction false} InsertedFound(rs: seq<Range>, r: Range)
    ensures Lookup(Insert(rs, r), r.start) == Some(r)
    decreases |rs|
  {
    if |rs| > 0 && r.start > rs[0].start {
      InsertedFound(rs[1..], r);
    }
  }

  // ---------------------------------------------------------------------------
  // Best-fit allocation by size

  /** `last_end` when the loop reaches allocation `i`: the end of allocation `i - 1`, or the total start. */
  function LastEnd(a: Allocator, i: nat): nat
    requires i <= |a.ranges|
  {
    if i == 0 then a.total.start else a.ranges[i - 1].end
  }

  /** The hole before allocation `i` takes `size` bytes at `last_end` inside the total range. */
  predicate GapFits(a: Allocator, size: nat, i: nat)
    requires i < |a.ranges|
  {
    a.ranges[i].start > LastEnd(a, i)
    && LastEnd(a, i) + size <= a.ranges[i].start
    && ContainsRange(a.total, Range(LastEnd(a, i), LastEnd(a, i) + size))
  }

  /** The bytes a fitting hole would leave over. */
  function Leftover(a: Allocator, size: nat, i: nat): nat
    requires i < |a.ranges| && GapFits(a, size, i)
  {
    a.ranges[i].start - (LastEnd(a, i) + size)
  }

  /** The search loop from allocation `i`, with the best hole so far and its leftover. */
  function Scan(a: Allocator, size: nat, i: nat, best: Option<nat>, hole: nat): (k: Option<nat>)
    requires i <= |a.ranges|
    decreases |a.ranges| - i
  {
    if i == |a.ranges| then best
    else if GapFits(a, size, i) && Leftover(a, size, i) < hole then Scan(a, size, i + 1, Some(i), Leftover(a, size, i))
    else Scan(a, size, i + 1, best, hole)
  }

  /** Some hole at or after `i` fits with a leftover below `hole`. */
  predicate BetterHole(a: Allocator, size: nat, i: nat, hole: nat) {
    exists j :: i <= j < |a.ranges| && GapFits(a, size, j) && Leftover(a, size, j) < hole
  }

  /**
   * The loop keeps the best hole so far: it picks a fitting hole with the
   * smallest leftover, the earliest one on ties, and keeps its starting
   * choice only when no later hole beats the starting leftover.
   */
  lemma {:induction false} ScanBest(a: Allocator, size: nat, i: nat, best: Option<nat>, hole: nat)
    requires i <= |a.ranges|
    ensures var k := Scan(a, size, i, best, hole);
            if BetterHole(a, size, i, hole) then
              k.Some? && i <= k.value < |a.ranges| && GapFits(a, size, k.value) && Leftover(a, size, k.value) < hole
              && (forall j :: i <= j < |a.ranges| && GapFits(a, size, j) ==> Leftover(a, size, k.value) <= Leftover(a, size, j))
              && (forall j :: i <= j < k.value && GapFits(a, size, j) ==> Leftover(a, size, k.value) < Leftover(a, size, j))
            else k == best
    decreases |a.ranges| - i
  {
    if i < |a.ranges| {
      if GapFits(a, size, i) && Leftover(a, size, i) < hole {
        ScanBest(a, size, i + 1, Some(i), Leftover(a, size, i));
      } else {
        ScanBest(a, size, i + 1, best, hole);
        if BetterHole(a, size, i, hole) {
          var j :| i <= j < |a.ranges| && GapFits(a, size, j) && Leftover(a, size, j) < hole;
          assert j != i;
          assert BetterHole(a, size, i + 1, hole);
        }
      }
    }
  }

  /**
   * `try_allocate_size`: the best-fitting hole between allocations, or else
   * the space after the last allocation, if it lies inside the total range.
   */
  function TryAllocateSize(a: Allocator, size: nat): (res: (Allocator, Option<Range>))
    ensures res.1.Some? ==> var r := res.1.value;
              r.end == r.start + size && ContainsRange(a.total, r) && res.0.total == a.total
              && r in res.0.ranges && forall x :: x in a.ranges && x.start != r.start ==> x in res.0.ranges
    ensures res.1.Some? ==> res.0 == a.(ranges := Insert(a.ranges, res.1.value))
    ensures res.1.None? ==> res.0 == a
  {
    ScanPicksFit(a, size, 0, Option.None, U64_MAX);
    match Scan(a, size, 0, Option.None, U64_MAX)
    case Some(i) =>
      var r := Range(LastEnd(a, i), LastEnd(a, i) + size);
      (a.(ranges := Insert(a.ranges, r)), Some(r))
    case None =>
      var r := Range(LastEnd(a, |a.ranges|), LastEnd(a, |a.ranges|) + size);
      if ContainsRange(a.total, r) then (a.(ranges := Insert(a.ranges, r)), Some(r))
      else (a, Option.None)
  }

  /** A hole the loop picks fits. */
  lemma {:induction false} ScanPicksFit(a: Allocator, size: nat, i: nat, best: Option<nat>, hole: nat)
    requires i <= |a.ranges| && (best.Some? ==> best.value < |a.ranges| && GapFits(a, size, best.value))
    ensures var k := Scan(a, size, i, best, hole);
            k.Some? ==> k.value < |a.ranges| && GapFits(a, size, k.value)
    decreases |a.ranges| - i
  {
    if i < |a.ranges| {
      if GapFits(a, size, i) && Leftover(a, size, i) < hole {
        ScanPicksFit(a, size, i + 1, Some(i), Leftover(a, size, i));
      } else {
        ScanPicksFit(a, size, i + 1, best, hole);
      }
    }
  }

  /**
   * Best fit: when some hole fits (with a leftover below `u64::MAX`), the
   * range starts at the hole with the smallest leftover, the earliest on
   * ties; otherwise it starts after the last allocation.
   */
  lemma BestFit(a: Allocator, size: nat)
    requires TryAllocateSize(a, size).1.Some?
    ensures var r := TryAllocateSize(a, size).1.value;
            if BetterHole(a, size, 0, U64_MAX) then
              exists k :: 0 <= k < |a.ranges| && GapFits(a, size, k) && r.start == LastEnd(a, k)
                && (forall j :: 0 <= j < |a.ranges| && GapFits(a, size, j) ==> Leftover(a, size, k) <= Leftover(a, size, j))
                && (forall j :: 0 <= j < k && GapFits(a, size, j) ==> Leftover(a, size, k) < Leftover(a, size, j))
            else r.start == LastEnd(a, |a.ranges|)
  {
    ScanBest(a, size, 0, Option.None, U64_MAX);
  }

  /** On a valid allocator the range found by size overlaps no allocation. */
  lemma AllocatedSizeDisjoint(a: Allocator, size: nat)
    requires Valid(a) && TryAllocateSize(a, size).1.Some?
    ensures NoOverlap(a.ranges, TryAllocateSize(a, size).1.value)
  {
    var r := TryAllocateSize(a, size).1.value;
    var k := Scan(a, size, 0, Option.None, U64_MAX);
    ScanPicksFit(a, size, 0, Option.None, U64_MAX);
    var n := |a.ranges|;
    var at := if k.Some? then k.value else n;
    assert r.start == LastEnd(a, at);
    assert at < n ==> r.end <= a.ranges[at].start;
    forall j | 0 <= j < n
      ensures !RangesOverlap(a.ranges[j], r)
    {
      BetweenDisjoint(a, at, r, j);
    }
  }

  /** A range from the end of allocation `at - 1` to the start of allocation `at` overlaps no allocation. */
  lemma BetweenDisjoint(a: Allocator, at: nat, r: Range, j: nat)
    requires Valid(a) && at <= |a.ranges| && j < |a.ranges|
    requires r.start == LastEnd(a, at) && (at < |a.ranges| ==> r.end <= a.ranges[at].start)
    ensures !RangesOverlap(a.ranges[j], r)
  {
    if j < at {
      ChainOrder(a.ranges, a.total.start, a.total.end, j, at - 1);
      ChainOrder(a.ranges, a.total.start, a.total.end, at - 1, at - 1);
    } else {
      ChainOrder(a.ranges, a.total.start, a.total.end, at, j);
    }
  }

  /** `try_allocate_size` refusing a zero size, whose empty range could replace a stored one. */
  function TryAllocateSizeChecked(a: Allocator, size: nat): (res: (Allocator, Option<Range>))
    ensures size == 0 ==> res == (a, Option.None)
    ensures size > 0 ==> res == TryAllocateSize(a, size)
  {
    if size == 0 then (a, Option.None) else TryAllocateSize(a, size)
  }

  // ---------------------------------------------------------------------------
  // The u64 sum `last_end + size`

  /**
   * `last_end + size` is one past `u64::MAX` at allocation `j`, where the
   * loop computes it because the allocation starts above `last_end`.
   */
  predicate SumOverflowsAt(a: Allocator, size: nat, j: nat)
    requires j < |a.ranges|
  {
    a.ranges[j].start > LastEnd(a, j) && LastEnd(a, j) + size > U64_MAX
  }

  /** The search loop with the overflow check: None when `last_end + size` overflows, else the pick. */
  function ScanChecked(a: Allocator, size: nat, i: nat, best: Option<nat>, hole: nat): (k: Option<Option<nat>>)
    requires i <= |a.ranges|
    decreases |a.ranges| - i
  {
    if i == |a.ranges| then Some(best)
    else if SumOverflowsAt(a, size, i) then Option.None
    else if GapFits(a, size, i) && Leftover(a, size, i) < hole then ScanChecked(a, size, i + 1, Some(i), Leftover(a, size, i))
    else ScanChecked(a, size, i + 1, best, hole)
  }

  /** The checked loop panics exactly when some sum it computes overflows, and otherwise picks what the loop picks. */
  lemma {:induction false} ScanCheckedAgrees(a: Allocator, size: nat, i: nat, best: Option<nat>, hole: nat)
    requires i <= |a.ranges|
    ensures ScanChecked(a, size, i, best, hole).None? <==> exists j :: i <= j < |a.ranges| && SumOverflowsAt(a, size, j)
    ensures ScanChecked(a, size, i, best, hole).Some? ==> ScanChecked(a, size, i, best, hole).value == Scan(a, size, i, best, hole)
    decreases |a.ranges| - i
  {
    if i < |a.ranges| && !SumOverflowsAt(a, size, i) {
      if GapFits(a, size, i) && Leftover(a, size, i) < hole {
        ScanCheckedAgrees(a, size, i + 1, Some(i), Leftover(a, size, i));
      } else {
        ScanCheckedAgrees(a, size, i + 1, best, hole);
      }
    }
  }

  /** `try_allocate_size` panics: a sum inside the loop overflows, or no hole was picked and the sum after the loop does. */
  predicate SizeOverflows(a: Allocator, size: nat) {
    (exists j :: 0 <= j < |a.ranges| && SumOverflowsAt(a, size, j))
    || (Scan(a, size, 0, Option.None, U64_MAX).None? && LastEnd(a, |a.ranges|) + size > U64_MAX)
  }

  /** Outcome of `try_allocate_size` with its u64 sums checked. */
  datatype SizeOutcome = SizePanicked | SizeDone(allocator: Allocator, range: Option<Range>)

  /**
   * `try_allocate_size` as written, with `last_end + size` a checked u64
   * sum: it panics exactly when one of the sums it computes overflows, and
   * otherwise returns what the unchecked model returns.
   */
  function TryAllocateSizeAsWritten(a: Allocator, size: nat): (o: SizeOutcome)
    ensures o.SizePanicked? <==> SizeOverflows(a, size)
    ensures o.SizeDone? ==> (o.allocator, o.range) == TryAllocateSize(a, size)
  {
    ScanCheckedAgrees(a, size, 0, Option.None, U64_MAX);
    ScanPicksFit(a, size, 0, Option.None, U64_MAX);
    match ScanChecked(a, size, 0, Option.None, U64_MAX)
    case None => SizePanicked
    case Some(Some(i)) =>
      var r := Range(LastEnd(a, i), LastEnd(a, i) + size);
      SizeDone(a.(ranges := Insert(a.ranges, r)), Some(r))
    case Some(None) =>
      var last := LastEnd(a, |a.ranges|);
      if last + size > U64_MAX then SizePanicked
      else
        var r := Range(last, last + size);
        if ContainsRange(a.total, r) then SizeDone(a.(ranges := Insert(a.ranges, r)), Some(r))
        else SizeDone(a, Option.None)
  }

  /** On a valid allocator over a well-formed range, a size that fits above the end of the range never overflows a sum. */
  lemma SmallSizeNoOverflow(a: Allocator, size: nat)
    requires Valid(a) && a.total.start <= a.total.end && a.total.end + size <= U64_MAX
    ensures !SizeOverflows(a, size)
  {
    forall j | 0 <= j <= |a.ranges| ensures LastEnd(a, j) <= a.total.end {
      if j > 0 {
        ChainOrder(a.ranges, a.total.start, a.total.end, j - 1, j - 1);
      } else if |a.ranges| > 0 {
        ChainOrder(a.ranges, a.total.start, a.total.end, 0, 0);
      }
    }
  }

  /**
   * A request of `u64::MAX` bytes from a range starting at 4 KiB: the model
   * without the check reports no room, the code as written panics.
   */
  lemma HugeSizePanics()
    ensures var a := New(Range(0x1000, U64_MAX));
            TryAllocateSize(a, U64_MAX) == (a, Option.None)
            && TryAllocateSizeAsWritten(a, U64_MAX).SizePanicked?
  {
  }

  /** The checked allocation by size keeps the invariant, and freeing its range restores the allocator. */
  lemma CheckedSizeRoundTrip(a: Allocator, size: nat)
    requires Valid(a)
    ensures Valid(TryAllocateSizeChecked(a, size).0)
    ensures TryAllocateSizeChecked(a, size).1.Some? ==>
              var (b, r) := TryAllocateSizeChecked(a, size);
              DeallocateRange(b, r.value) == (a, true)
  {
    if TryAllocateSizeChecked(a, size).1.Some? {
      var r := TryAllocateSize(a, size).1.value;
      AllocatedSizeDisjoint(a, size);
      InsertChain(a.ranges, a.total.start, a.total.end, r);
      FreshKey(a, r);
      DeleteInsert(a.ranges, r);
      InsertedFound(a.ranges, r);
    }
  }

  /** A zero-size request after an empty allocation at the same start replaces it. */
  lemma ZeroSizeOverwrites()
    ensures var a := Allocator(Range(0, 1000), []);
            var (b, r0) := TryAllocateSize(a, 0);
            var (c, r1) := TryAllocateSize(b, 100);
            r0 == Some(Range(0, 0)) && r1 == Some(Range(0, 100))
            && c.ranges == [Range(0, 100)] && !DeallocateRange(c, Range(0, 0)).1
  {
    var a := Allocator(Range(0, 1000), []);
    var b := Allocator(Range(0, 1000), [Range(0, 0)]);
    assert Scan(b, 100, 1, Option.None, U64_MAX) == Option.None;
    assert !GapFits(b, 100, 0);
  }

  // ---------------------------------------------------------------------------
  // The unit tests' scenarios

  /** Inserting between the keys below and above `r.start` splices `r` in at that position. */
  lemma {:induction false} InsertAt(pre: seq<Range>, post: seq<Range>, r: Range)
    requires forall i :: 0 <= i < |pre| ==> pre[i].start < r.start
    requires |post| > 0 ==> r.start < post[0].start
    ensures Insert(pre + post, r) == pre + [r] + post
    decreases |pre|
  {
    if |pre| > 0 {
      var x, tail := pre[0], pre[1..];
      SplitHead(pre, post);
      SplitHeadAround(pre, r, post);
      InsertPast(x, tail + post, r);
      InsertAt(tail, post, r);
    } else {
      assert pre + post == post && pre + [r] + post == [r] + post;
      InsertFront(post, r);
    }
  }

  lemma SplitHead<T>(pre: seq<T>, post: seq<T>)
    requires |pre| > 0
    ensures pre + post == [pre[0]] + (pre[1..] + post)
  {
    assert pre == [pre[0]] + pre[1..];
  }

  lemma SplitHeadAround<T>(pre: seq<T>, x: T, post: seq<T>)
    requires |pre| > 0
    ensures pre + [x] + post == [pre[0]] + (pre[1..] + [x] + post)
  {
    assert pre == [pre[0]] + pre[1..];
  }

  /** A key below every stored key goes to the front. */
  lemma InsertFront(rs: seq<Range>, r: Range)
    requires |rs| > 0 ==> r.start < rs[0].start
    ensures Insert(rs, r) == [r] + rs
  {
    if |rs| == 0 {
      assert [r] + rs == [r];
    }
  }

  /** A key below `r.start` stays in front of the insertion point. */
  lemma InsertPast(x: Range, rest: seq<Range>, r: Range)
    requires x.start < r.start
    ensures Insert([x] + rest, r) == [x] + Insert(rest, r)
  {
    assert ([x] + rest)[1..] == rest;
  }

  /** Deleting the key of `x`, when no earlier allocation shares it, cuts out exactly `x`. */
  lemma {:induction false} DeleteAt(pre: seq<Range>, x: Range, post: seq<Range>)
    requires forall i :: 0 <= i < |pre| ==> pre[i].start != x.start
    ensures Lookup(pre + [x] + post, x.start) == Some(x)
    ensures Delete(pre + [x] + post, x.start) == pre + post
    decreases |pre|
  {
    if |pre| > 0 {
      SplitHeadAround(pre, x, post);
      SplitHead(pre, post);
      DeleteAt(pre[1..], x, post);
      DeletePast(pre[0], pre[1..] + [x] + post, x.start);
    } else {
      assert (pre + [x] + post)[1..] == post;
    }
  }

  /** Lookup and deletion pass over a first range with another key. */
  lemma DeletePast(y: Range, rest: seq<Range>, key: nat)
    requires y.start != key
    ensures Lookup([y] + rest, key) == Lookup(rest, key)
    ensures Delete([y] + rest, key) == [y] + Delete(rest, key)
  {
    assert ([y] + rest)[1..] == rest;
  }

  /** Ranges test: whole-range round trip, adjacent ranges accepted, `[500, 701)` against `[700, 1000)` refused. */
  lemma RangeScenario()
    ensures var a0 := New(Range(0, 1000));
            var (a1, ok1) := TryAllocateRange(a0, Range(0, 1000));
            var (a2, ok2) := DeallocateRange(a1, Range(0, 1000));
            var (a3, ok3) := TryAllocateRange(a2, Range(0, 400));
            var (a4, ok4) := TryAllocateRange(a3, Range(700, 1000));
            var (a5, ok5) := TryAllocateRange(a4, Range(500, 701));
            var (a6, ok6) := TryAllocateRange(a5, Range(500, 600));
            var (a7, ok7) := DeallocateRange(a6, Range(500, 600));
            var (a8, ok8) := TryAllocateRange(a7, Range(400, 700));
            ok1 && ok2 && ok3 && ok4 && !ok5 && ok6 && ok7 && ok8
            && a8.ranges == [Range(0, 400), Range(400, 700), Range(700, 1000)]
  {
    var t := Range(0, 1000);
    WholeRangeRoundTrip(t);
    var a3 := Allocator(t, [Range(0, 400)]);
    var a4 := Allocator(t, [Range(0, 400), Range(700, 1000)]);
    var a6 := Allocator(t, [Range(0, 400), Range(500, 600), Range(700, 1000)]);
    AddAdjacent(t);
    assert RangesOverlap(a4.ranges[1], Range(500, 701));
    AddBetween(t);
    RemoveMiddle(t);
    AddFilling(t);
  }

  lemma WholeRangeRoundTrip(t: Range)
    requires t == Range(0, 1000)
    ensures TryAllocateRange(New(t), t) == (Allocator(t, [t]), true)
    ensures DeallocateRange(Allocator(t, [t]), t) == (New(t), true)
    ensures TryAllocateRange(New(t), Range(0, 400)) == (Allocator(t, [Range(0, 400)]), true)
  {
    DeleteAt([], t, []);
    assert [] + [t] + [] == [t];
  }

  /**
   * Storing `r` between `pre` and `post`: when every range of `pre` ends by
   * `r.start` and every range of `post` starts at or after `r.end`, the
   * range is accepted and spliced in.
   */
  lemma AcceptBetween(a: Allocator, pre: seq<Range>, post: seq<Range>, r: Range)
    requires a.ranges == pre + post && ContainsRange(a.total, r) && NonEmpty(r)
    requires forall i :: 0 <= i < |pre| ==> pre[i].start < r.start && pre[i].end <= r.start
    requires forall i :: 0 <= i < |post| ==> r.end <= post[i].start
    ensures TryAllocateRange(a, r) == (a.(ranges := pre + [r] + post), true)
  {
    InsertAt(pre, post, r);
    forall i | 0 <= i < |a.ranges|
      ensures !RangesOverlap(a.ranges[i], r)
    {
      if i >= |pre| {
        assert a.ranges[i] == post[i - |pre|];
      }
    }
  }

  lemma AddAdjacent(t: Range)
    requires t == Range(0, 1000)
    ensures TryAllocateRange(Allocator(t, [Range(0, 400)]), Range(700, 1000))
            == (Allocator(t, [Range(0, 400), Range(700, 1000)]), true)
  {
    var a := Allocator(t, [Range(0, 400)]);
    assert a.ranges == [Range(0, 400)] + [];
    AcceptBetween(a, [Range(0, 400)], [], Range(700, 1000));
    assert [Range(0, 400)] + [Range(700, 1000)] + [] == [Range(0, 400), Range(700, 1000)];
  }

  lemma AddBetween(t: Range)
    requires t == Range(0, 1000)
    ensures TryAllocateRange(Allocator(t, [Range(0, 400), Range(700, 1000)]), Range(500, 600))
            == (Allocator(t, [Range(0, 400), Range(500, 600), Range(700, 1000)]), true)
  {
    var a := Allocator(t, [Range(0, 400), Range(700, 1000)]);
    assert a.ranges == [Range(0, 400)] + [Range(700, 1000)];
    AcceptBetween(a, [Range(0, 400)], [Range(700, 1000)], Range(500, 600));
    assert [Range(0, 400)] + [Range(500, 600)] + [Range(700, 1000)] == [Range(0, 400), Range(500, 600), Range(700, 1000)];
  }

  lemma RemoveMiddle(t: Range)
    requires t == Range(0, 1000)
    ensures DeallocateRange(Allocator(t, [Range(0, 400), Range(500, 600), Range(700, 1000)]), Range(500, 600))
            == (Allocator(t, [Range(0, 400), Range(700, 1000)]), true)
  {
    DeleteAt([Range(0, 400)], Range(500, 600), [Range(700, 1000)]);
    assert [Range(0, 400)] + [Range(500, 600)] + [Range(700, 1000)] == [Range(0, 400), Range(500, 600), Range(700, 1000)];
    assert [Range(0, 400)] + [Range(700, 1000)] == [Range(0, 400), Range(700, 1000)];
  }

  lemma AddFilling(t: Range)
    requires t == Range(0, 1000)
    ensures TryAllocateRange(Allocator(t, [Range(0, 400), Range(700, 1000)]), Range(400, 700))
            == (Allocator(t, [Range(0, 400), Range(400, 700), Range(700, 1000)]), true)
  {
    var a := Allocator(t, [Range(0, 400), Range(700, 1000)]);
    assert a.ranges == [Range(0, 400)] + [Range(700, 1000)];
    AcceptBetween(a, [Range(0, 400)], [Range(700, 1000)], Range(400, 700));
    assert [Range(0, 400)] + [Range(400, 700)] + [Range(700, 1000)] == [Range(0, 400), Range(400, 700), Range(700, 1000)];
  }

  /**
   * Size test, after freeing `[200, 400)` and `[600, 700)` out of five
   * back-to-back allocations: 100 bytes go to the exact hole at 600 rather
   * than the earlier hole at 200; then 200 bytes go to the hole at 200; with
   * no hole left, 100 bytes go after the last allocation, at 900.
   */
  lemma ExactHoleFirst(t: Range)
    requires t == Range(0, 1000)
    ensures var a := Allocator(t, [Range(0, 200), Range(400, 600), Range(700, 900)]);
            Scan(a, 100, 0, Option.None, U64_MAX) == Some(2) && LastEnd(a, 2) == 600
  {
    var a := Allocator(t, [Range(0, 200), Range(400, 600), Range(700, 900)]);
    assert !GapFits(a, 100, 0);
    assert GapFits(a, 100, 1) && Leftover(a, 100, 1) == 100;
    assert GapFits(a, 100, 2) && Leftover(a, 100, 2) == 0;
    assert Scan(a, 100, 0, Option.None, U64_MAX) == Scan(a, 100, 1, Option.None, U64_MAX);
    assert Scan(a, 100, 1, Option.None, U64_MAX) == Scan(a, 100, 2, Some(1), 100);
    assert Scan(a, 100, 2, Some(1), 100) == Scan(a, 100, 3, Some(2), 0);
  }

  lemma NextHole(t: Range)
    requires t == Range(0, 1000)
    ensures var a := Allocator(t, [Range(0, 200), Range(400, 600), Range(600, 700), Range(700, 900)]);
            Scan(a, 200, 0, Option.None, U64_MAX) == Some(1) && LastEnd(a, 1) == 200
  {
    var a := Allocator(t, [Range(0, 200), Range(400, 600), Range(600, 700), Range(700, 900)]);
    assert !GapFits(a, 200, 0);
    assert GapFits(a, 200, 1) && Leftover(a, 200, 1) == 0;
    assert !GapFits(a, 200, 2);
    assert !GapFits(a, 200, 3);
    assert Scan(a, 200, 0, Option.None, U64_MAX) == Scan(a, 200, 1, Option.None, U64_MAX);
    assert Scan(a, 200, 1, Option.None, U64_MAX) == Scan(a, 200, 2, Some(1), 0);
    assert Scan(a, 200, 2, Some(1), 0) == Scan(a, 200, 3, Some(1), 0);
  }

  lemma TailUsed(t: Range)
    requires t == Range(0, 1000)
    ensures var a := Allocator(t, [Range(0, 200), Range(200, 400), Range(400, 600), Range(600, 700), Range(700, 900)]);
            Scan(a, 100, 0, Option.None, U64_MAX) == Option.None && LastEnd(a, 5) == 900
  {
    var a := Allocator(t, [Range(0, 200), Range(200, 400), Range(400, 600), Range(600, 700), Range(700, 900)]);
    assert forall i :: 0 <= i < 5 ==> !GapFits(a, 100, i);
    ScanNoFit(a, 100, 0);
  }

  /** With no fitting hole from `i` on, the loop keeps "no candidate". */
  lemma {:induction false} ScanNoFit(a: Allocator, size: nat, i: nat)
    requires i <= |a.ranges| && forall j :: i <= j < |a.ranges| ==> !GapFits(a, size, j)
    ensures Scan(a, size, i, Option.None, U64_MAX) == Option.None
    decreases |a.ranges| - i
  {
    if i < |a.ranges| {
      ScanNoFit(a, size, i + 1);
    }
  }
}
