/**
 * The buddy algorithm shared by the kernel's buddy frame allocator and its
 * buddy heap: twenty free lists, list `k` holding blocks of `2^k` bytes.
 * Adding a range tiles it with size-aligned power-of-two blocks, allocation
 * splits the first larger block down to the requested order, and freeing
 * merges a block with its buddy `start ^ 2^k` for as long as the buddy is free.
 * The lists are sequences of blocks, front first.
 */
module BuddyCore {
  import opened Wrappers
  import opened Powers

  /** `MAX_ORDER`: the number of free lists. */
  const MAX_ORDER: nat := 20
  /** `1 << (MAX_ORDER - 1)`: the largest block `add_region` creates. */
  const MAX_BLOCK: nat := Pow2(MAX_ORDER - 1)

  /** A free block: its start and the size recorded with it. */
  datatype Block = Block(start: nat, size: nat)

  /** The free lists, one per order. */
  type FreeLists = l: seq<seq<Block>> | |l| == MAX_ORDER witness seq(MAX_ORDER, k => [])

  /** Twenty empty lists, as `new` builds them. */
  function EmptyLists(): (l: FreeLists)
    ensures forall k :: 0 <= k < MAX_ORDER ==> l[k] == []
    ensures Total(l) == 0 && Count(l) == 0 && Sized(l)
  {
    var l := seq(MAX_ORDER, k => []);
    EmptyTotal(l);
    l
  }

  lemma {:induction false} EmptyTotal(ls: seq<seq<Block>>)
    requires forall k :: 0 <= k < |ls| ==> ls[k] == []
    ensures SumLists(ls) == 0 && CountLists(ls) == 0
  {
    if |ls| > 0 {
      EmptyTotal(ls[1..]);
    }
  }

  // ---------------------------------------------------------------------------
  // Sizes and accounting

  /** The bytes held by a list of blocks. */
  function ListTotal(s: seq<Block>): nat {
    if |s| == 0 then 0 else s[0].size + ListTotal(s[1..])
  }

  /** The bytes held by a sequence of lists. */
  function SumLists(ls: seq<seq<Block>>): nat {
    if |ls| == 0 then 0 else ListTotal(ls[0]) + SumLists(ls[1..])
  }

  /** The bytes held by all free lists. */
  function Total(l: FreeLists): nat {
    SumLists(l)
  }

  /** Replacing one list changes the total by exactly the difference of the two lists. */
  lemma {:induction false} SumListsUpdate(ls: seq<seq<Block>>, k: nat, v: seq<Block>)
    requires k < |ls|
    ensures SumLists(ls[k := v]) + ListTotal(ls[k]) == SumLists(ls) + ListTotal(v)
  {
    if k > 0 {
      SumListsUpdate(ls[1..], k - 1, v);
      assert ls[k := v][1..] == ls[1..][k - 1 := v];
    }
  }

  /** The number of blocks on a sequence of lists. */
  function CountLists(ls: seq<seq<Block>>): nat {
    if |ls| == 0 then 0 else |ls[0]| + CountLists(ls[1..])
  }

  /** The number of free blocks, that is, of list nodes in use. */
  function Count(l: FreeLists): nat {
    CountLists(l)
  }

  lemma {:induction false} CountListsUpdate(ls: seq<seq<Block>>, k: nat, v: seq<Block>)
    requires k < |ls|
    ensures CountLists(ls[k := v]) + |ls[k]| == CountLists(ls) + |v|
  {
    if k > 0 {
      CountListsUpdate(ls[1..], k - 1, v);
      assert ls[k := v][1..] == ls[1..][k - 1 := v];
    }
  }

  /** Every block in list `k` has size `2^k` and starts on a multiple of `2^k`. */
  predicate ListSized(s: seq<Block>, k: nat) {
    forall i :: 0 <= i < |s| ==> s[i].size == Pow2(k) && AlignedTo(s[i].start, k)
  }

  /** The buddy invariant on sizes and alignment, for every list. */
  predicate Sized(l: FreeLists) {
    forall k :: 0 <= k < MAX_ORDER ==> ListSized(l[k], k)
  }

  /** `push_front` onto list `k`. */
  function Push(l: FreeLists, k: nat, b: Block): (r: FreeLists)
    requires k < MAX_ORDER
    ensures r[k] == [b] + l[k]
    ensures forall j :: 0 <= j < MAX_ORDER && j != k ==> r[j] == l[j]
    ensures Total(r) == Total(l) + b.size && Count(r) == Count(l) + 1
    ensures Sized(l) && b.size == Pow2(k) && AlignedTo(b.start, k) ==> Sized(r)
  {
    SumListsUpdate(l, k, [b] + l[k]);
    CountListsUpdate(l, k, [b] + l[k]);
    l[k := [b] + l[k]]
  }

  /** `pop_front` of list `k`. */
  function Pop(l: FreeLists, k: nat): (r: (FreeLists, Block))
    requires k < MAX_ORDER && |l[k]| > 0
    ensures r.0[k] == l[k][1..] && r.1 == l[k][0]
    ensures forall j :: 0 <= j < MAX_ORDER && j != k ==> r.0[j] == l[j]
    ensures Total(r.0) + r.1.size == Total(l) && Count(r.0) + 1 == Count(l)
    ensures Sized(l) ==> Sized(r.0)
  {
    SumListsUpdate(l, k, l[k][1..]);
    CountListsUpdate(l, k, l[k][1..]);
    (l[k := l[k][1..]], l[k][0])
  }

  // ---------------------------------------------------------------------------
  // add_region / add_frame

  /** A block `add_region` may create: a power of two no larger than `MAX_BLOCK`, aligned to its size. */
  predicate WellFormedBlock(b: Block) {
    IsPow2(b.size) && b.size <= MAX_BLOCK && AlignedTo(b.start, Log2(b.size))
  }

  /** The order a power-of-two block is filed under: its trailing zeros, below `MAX_ORDER`. */
  lemma OrderOfBlock(b: Block)
    requires WellFormedBlock(b)
    ensures TrailingZeros(b.size) == Log2(b.size) < MAX_ORDER
    ensures b.size == Pow2(Log2(b.size))
  {
    Log2Pow2(b.size);
    TrailingZerosPow2(Log2(b.size));
    if Log2(b.size) >= MAX_ORDER {
      Pow2Monotone(MAX_ORDER, Log2(b.size));
    }
  }

  /**
   * The blocks the loop of `add_region` creates for `[cur, end)`: at each
   * step the largest power of two that divides `cur`, fits in what is left
   * and does not exceed `MAX_BLOCK`. The lowest set bit of 0 is taken to be
   * `zeroBit` (the code uses 64).
   */
  function Tiles(cur: nat, end: nat, zeroBit: nat): (bs: seq<Block>)
    requires IsPow2(zeroBit)
    decreases end - cur
  {
    if cur >= end then []
    else
      TileSizePositive(cur, end, zeroBit);
      [Block(cur, TileSize(cur, end, zeroBit))] + Tiles(cur + TileSize(cur, end, zeroBit), end, zeroBit)
  }

  /** The size of the block the loop creates at `cur`. */
  function TileSize(cur: nat, end: nat, zeroBit: nat): nat
    requires IsPow2(zeroBit) && cur < end
  {
    var lowbit := if cur > 0 then LowBit(cur) else zeroBit;
    Min(Min(lowbit, PrevPow2(end - cur)), MAX_BLOCK)
  }

  lemma TileSizePositive(cur: nat, end: nat, zeroBit: nat)
    requires IsPow2(zeroBit) && cur < end
    ensures TileSize(cur, end, zeroBit) > 0
  {
    Pow2IsPow2(MAX_ORDER - 1);
  }

  function Min(a: nat, b: nat): nat {
    if a <= b then a else b
  }

  /** `blocks` lie back to back from `start` and end exactly at `end`. */
  predicate Tiling(blocks: seq<Block>, start: nat, end: nat)
    decreases |blocks|
  {
    if |blocks| == 0 then start == end
    else blocks[0].start == start && blocks[0].size > 0
         && Tiling(blocks[1..], start + blocks[0].size, end)
  }

  /** The bytes of a tiling add up to the length of the range. */
  lemma {:induction false} TilingTotal(blocks: seq<Block>, start: nat, end: nat)
    requires Tiling(blocks, start, end)
    ensures start <= end && ListTotal(blocks) == end - start
    decreases |blocks|
  {
    if |blocks| > 0 {
      TilingTotal(blocks[1..], start + blocks[0].size, end);
    }
  }

  /** `x` lies in one of the blocks. */
  predicate InSomeBlock(blocks: seq<Block>, x: nat) {
    exists i :: 0 <= i < |blocks| && blocks[i].start <= x < blocks[i].start + blocks[i].size
  }

  /** Every address of a tiled range lies in one of its blocks, and every block lies inside the range. */
  lemma {:induction false} TilingCovers(blocks: seq<Block>, start: nat, end: nat, x: nat)
    requires Tiling(blocks, start, end)
    ensures start <= x < end <==> InSomeBlock(blocks, x)
    decreases |blocks|
  {
    TilingTotal(blocks, start, end);
    if |blocks| > 0 {
      TilingCovers(blocks[1..], start + blocks[0].size, end, x);
      TilingTotal(blocks[1..], start + blocks[0].size, end);
      assert forall i :: 0 < i < |blocks| ==> blocks[i] == blocks[1..][i - 1];
      if exists i :: 0 <= i < |blocks| && blocks[i].start <= x < blocks[i].start + blocks[i].size {
        var i :| 0 <= i < |blocks| && blocks[i].start <= x < blocks[i].start + blocks[i].size;
        if i > 0 {
          TilingAbove(blocks[1..], start + blocks[0].size, end, i - 1);
        }
      }
    }
  }

  /** Each block of a tiling lies inside the tiled range. */
  lemma {:induction false} TilingAbove(blocks: seq<Block>, start: nat, end: nat, i: nat)
    requires Tiling(blocks, start, end) && i < |blocks|
    ensures start <= blocks[i].start && blocks[i].start + blocks[i].size <= end
    decreases |blocks|
  {
    if i > 0 {
      TilingAbove(blocks[1..], start + blocks[0].size, end, i - 1);
    } else {
      TilingTotal(blocks[1..], start + blocks[0].size, end);
    }
  }

  /** One step of the loop creates a well-formed block that fits in what is left. */
  lemma TileStep(cur: nat, end: nat, zeroBit: nat)
    requires IsPow2(zeroBit) && cur < end
    ensures WellFormedBlock(Block(cur, TileSize(cur, end, zeroBit)))
    ensures 0 < TileSize(cur, end, zeroBit) <= end - cur
  {
    var lowbit := if cur > 0 then LowBit(cur) else zeroBit;
    var size := TileSize(cur, end, zeroBit);
    Pow2IsPow2(MAX_ORDER - 1);
    assert IsPow2(size);
    if cur > 0 {
      Pow2BelowAligned(cur, size, lowbit);
    } else {
      ZeroAligned(Log2(size));
    }
  }

  /** A multiple of a power of two is a multiple of every smaller power of two. */
  lemma Pow2BelowAligned(x: nat, a: nat, b: nat)
    requires IsPow2(a) && IsPow2(b) && a <= b && AlignedTo(x, Log2(b))
    ensures AlignedTo(x, Log2(a))
  {
    Log2Pow2(a);
    Log2Pow2(b);
    if Log2(a) > Log2(b) {
      Pow2Monotone(Log2(b) + 1, Log2(a));
    }
    AlignedWeaken(x, Log2(a), Log2(b));
  }

  lemma {:induction false} ZeroAligned(k: nat)
    ensures AlignedTo(0, k)
  {
    if k > 0 {
      ZeroAligned(k - 1);
    }
  }

  /**
   * The loop of `add_region` tiles `[cur, end)` exactly, with blocks that
   * are powers of two no larger than `MAX_BLOCK` and aligned to their size.
   */
  lemma {:induction false} TilesTile(cur: nat, end: nat, zeroBit: nat)
    requires IsPow2(zeroBit) && cur <= end
    ensures Tiling(Tiles(cur, end, zeroBit), cur, end)
    ensures forall i :: 0 <= i < |Tiles(cur, end, zeroBit)| ==> WellFormedBlock(Tiles(cur, end, zeroBit)[i])
    decreases end - cur
  {
    if cur < end {
      TileStep(cur, end, zeroBit);
      var size := TileSize(cur, end, zeroBit);
      var ts := Tiles(cur, end, zeroBit);
      TilesTile(cur + size, end, zeroBit);
      assert ts == [Block(cur, size)] + Tiles(cur + size, end, zeroBit);
      assert ts[1..] == Tiles(cur + size, end, zeroBit);
    }
  }

  /** Push every block on the list of its order, in order. */
  function AddBlocks(l: FreeLists, blocks: seq<Block>): (r: FreeLists)
    requires forall i :: 0 <= i < |blocks| ==> WellFormedBlock(blocks[i])
    ensures Total(r) == Total(l) + ListTotal(blocks) && Count(r) == Count(l) + |blocks|
    ensures Sized(l) ==> Sized(r)
    decreases |blocks|
  {
    if |blocks| == 0 then l
    else
      OrderOfBlock(blocks[0]);
      var k := TrailingZeros(blocks[0].size);
      AddBlocks(Push(l, k, blocks[0]), blocks[1..])
  }

  // ---------------------------------------------------------------------------
  // Allocation

  /** The first order at or above `order` whose list is not empty. */
  function FirstNonEmpty(l: FreeLists, order: nat): (r: Option<nat>)
    requires order <= MAX_ORDER
    ensures r.Some? ==> order <= r.value < MAX_ORDER && |l[r.value]| > 0
    ensures r.Some? ==> forall k :: order <= k < r.value ==> |l[k]| == 0
    ensures r.None? ==> forall k :: order <= k < MAX_ORDER ==> |l[k]| == 0
    decreases MAX_ORDER - order
  {
    if order == MAX_ORDER then Option.None
    else if |l[order]| > 0 then Some(order)
    else FirstNonEmpty(l, order + 1)
  }

  /**
   * One split: pop the front block of list `j` and push its lower and then
   * its upper half onto list `j - 1`.
   */
  function SplitOnce(l: FreeLists, j: nat): (r: FreeLists)
    requires 0 < j < MAX_ORDER && |l[j]| > 0
    ensures r[j] == l[j][1..]
    ensures r[j - 1] == [Block(l[j][0].start + Pow2(j - 1), Pow2(j - 1)), Block(l[j][0].start, Pow2(j - 1))] + l[j - 1]
    ensures forall k :: 0 <= k < MAX_ORDER && k != j && k != j - 1 ==> r[k] == l[k]
    ensures Sized(l) ==> Sized(r) && Total(r) == Total(l)
    ensures Count(r) == Count(l) + 1
  {
    var (l1, b) := Pop(l, j);
    var half := Pow2(j - 1);
    var l2 := Push(l1, j - 1, Block(b.start, half));
    if Sized(l) then
      assert AlignedTo(b.start, j);
      AlignedWeaken(b.start, j - 1, j);
      Pow2Aligned(j - 1, j - 1);
      AlignedAdd(b.start, half, j - 1);
      Push(l2, j - 1, Block(b.start + half, half))
    else Push(l2, j - 1, Block(b.start + half, half))
  }

  /** The splitting loop: split from order `j` down to `order`. */
  function Split(l: FreeLists, j: nat, order: nat): (r: FreeLists)
    requires order <= j < MAX_ORDER && |l[j]| > 0
    ensures |r[order]| > 0
    ensures Sized(l) ==> Sized(r) && Total(r) == Total(l)
    ensures Count(r) == Count(l) + (j - order)
    decreases j
  {
    if j == order then l else Split(SplitOnce(l, j), j - 1, order)
  }

  /**
   * What splitting leaves behind, in closed form, one order at a time: for
   * a front block at `s` on list `i`, list `i` loses that block, each order
   * `k` strictly between `order` and `i` gains in front the block of `2^k`
   * bytes ending at `s + 2^i - 2^k`, and every other list above or below is
   * unchanged.
   */
  lemma {:induction false} SplitShape(l: FreeLists, i: nat, order: nat, k: nat)
    requires order < i < MAX_ORDER && |l[i]| > 0 && k < MAX_ORDER
    ensures var r := Split(l, i, order);
            var s := l[i][0].start;
            (k == i ==> r[k] == l[k][1..])
            && (order < k < i ==> |r[k]| == |l[k]| + 1 && r[k][1..] == l[k]
                                  && r[k][0].size == Pow2(k) && r[k][0].start + Pow2(k + 1) == s + Pow2(i))
            && (k < order || k > i ==> r[k] == l[k])
    decreases i
  {
    var l3 := SplitOnce(l, i);
    if i - 1 > order {
      SplitShape(l3, i - 1, order, k);
      if k == i - 1 {
        assert l3[i - 1][1..] == [Block(l[i][0].start, Pow2(i - 1))] + l[i - 1];
      }
    }
  }

  /**
   * The list of the requested order after splitting: two new blocks of
   * `2^order` bytes in front, the first ending at `s + 2^i` and the second
   * right below it.
   */
  lemma {:induction false} SplitBottom(l: FreeLists, i: nat, order: nat)
    requires order < i < MAX_ORDER && |l[i]| > 0
    ensures var r := Split(l, i, order);
            var s := l[i][0].start;
            |r[order]| == |l[order]| + 2 && r[order][2..] == l[order]
            && r[order][0].size == Pow2(order) && r[order][0].start + Pow2(order) == s + Pow2(i)
            && r[order][1].size == Pow2(order) && r[order][1].start + Pow2(order + 1) == s + Pow2(i)
    decreases i
  {
    var l3 := SplitOnce(l, i);
    if i - 1 > order {
      SplitBottom(l3, i - 1, order);
    } else {
      assert l3[order][2..] == l[order];
    }
  }

  /** First match of `start` in a list, removed: the `remove` walk of the free list. */
  function Remove(s: seq<Block>, start: nat): (r: Option<(seq<Block>, Block)>)
    ensures r.Some? ==> r.value.1.start == start && r.value.1 in s
    ensures r.Some? ==> ListTotal(s) == ListTotal(r.value.0) + r.value.1.size
    ensures r.Some? ==> forall b :: b in r.value.0 ==> b in s
    ensures r.Some? ==> |r.value.0| + 1 == |s|
    ensures r.None? <==> forall i :: 0 <= i < |s| ==> s[i].start != start
  {
    if |s| == 0 then Option.None
    else if s[0].start == start then Some((s[1..], s[0]))
    else
      match Remove(s[1..], start)
      case None =>
        assert forall i :: 0 < i < |s| ==> s[i] == s[1..][i - 1];
        Option.None
      case Some((rest, b)) => Some(([s[0]] + rest, b))
  }

  /** Removing from a sized list leaves it sized. */
  lemma RemoveKeepsSized(s: seq<Block>, start: nat, k: nat)
    requires ListSized(s, k) && Remove(s, start).Some?
    ensures ListSized(Remove(s, start).value.0, k)
    ensures Remove(s, start).value.1.size == Pow2(k)
  {
    var rest := Remove(s, start).value.0;
    forall i | 0 <= i < |rest| ensures rest[i].size == Pow2(k) && AlignedTo(rest[i].start, k) {
      assert rest[i] in s;
    }
  }

  /** Result of the merging loop: the lists, the last region and whether it was put on a list. */
  datatype MergeOutcome = MergeOutcome(lists: FreeLists, region: Block, placed: bool, merges: nat)

  /**
   * The merging loop of `dealloc`: while `order < limit` (the code uses
   * `MAX_ORDER`), remove the buddy at `start ^ 2^order` from list `order`
   * and double the region at the lower start; when the buddy is not free,
   * push the region on list `order` and stop. Reaching `limit` ends the
   * loop with the region on no list.
   */
  function Merge(l: FreeLists, region: Block, order: nat, limit: nat): (o: MergeOutcome)
    requires limit <= MAX_ORDER
    ensures o.placed ==> order + o.merges < limit
    ensures !o.placed ==> order + o.merges >= limit
    ensures !o.placed && order <= limit ==> order + o.merges == limit
    ensures Count(o.lists) + o.merges == Count(l) + (if o.placed then 1 else 0)
    decreases limit - order
  {
    if order >= limit then MergeOutcome(l, region, false, 0)
    else
      var buddy := FlipBit(region.start, order);
      match Remove(l[order], buddy)
      case Some((rest, b)) =>
        CountListsUpdate(l, order, rest);
        var merged := Block(Min(region.start, buddy), region.size * 2);
        var o := Merge(l[order := rest], merged, order + 1, limit);
        MergeOutcome(o.lists, o.region, o.placed, o.merges + 1)
      case None => MergeOutcome(Push(l, order, region), region, true, 0)
  }

  /** One merge step: the buddy leaves its list and the doubled region is sized and aligned one order up. */
  lemma MergeStep(l: FreeLists, region: Block, order: nat)
    requires order < MAX_ORDER && Sized(l)
    requires region.size == Pow2(order) && AlignedTo(region.start, order)
    requires Remove(l[order], FlipBit(region.start, order)).Some?
    ensures var buddy := FlipBit(region.start, order);
            var rest := Remove(l[order], buddy).value.0;
            var l1: FreeLists := l[order := rest];
            Sized(l1) && Total(l1) + region.size == Total(l)
            && AlignedTo(Min(region.start, buddy), order + 1) && region.size * 2 == Pow2(order + 1)
  {
    var buddy := FlipBit(region.start, order);
    var rest := Remove(l[order], buddy).value.0;
    RemoveKeepsSized(l[order], buddy, order);
    SumListsUpdate(l, order, rest);
    FlipBitBuddy(region.start, order);
  }

  /**
   * Merging keeps the lists sized, and accounts for every byte: a placed
   * region adds exactly the freed size, while a region that reaches the
   * limit takes its merged buddies with it.
   */
  lemma {:induction false} MergeAccounting(l: FreeLists, region: Block, order: nat, limit: nat)
    requires limit <= MAX_ORDER && Sized(l)
    requires region.size == Pow2(order) && AlignedTo(region.start, order)
    ensures var o := Merge(l, region, order, limit);
            Sized(o.lists)
            && (o.placed ==> Total(o.lists) == Total(l) + region.size)
            && (!o.placed ==> Total(o.lists) + o.region.size == Total(l) + region.size)
    decreases limit - order
  {
    if order < limit {
      var buddy := FlipBit(region.start, order);
      var r := Remove(l[order], buddy);
      if r.Some? {
        MergeStep(l, region, order);
        var l1: FreeLists := l[order := r.value.0];
        var merged := Block(Min(region.start, buddy), region.size * 2);
        MergeAccounting(l1, merged, order + 1, limit);
        var o := Merge(l1, merged, order + 1, limit);
        assert Merge(l, region, order, limit) == MergeOutcome(o.lists, o.region, o.placed, o.merges + 1);
      } else {
        assert Merge(l, region, order, limit) == MergeOutcome(Push(l, order, region), region, true, 0);
      }
    } else {
      assert Merge(l, region, order, limit) == MergeOutcome(l, region, false, 0);
    }
  }

  /** A region that reaches the limit unplaced has doubled once per merge and stays aligned to its size. */
  lemma {:induction false} MergeRegion(l: FreeLists, region: Block, order: nat, limit: nat)
    requires limit <= MAX_ORDER
    requires region.size == Pow2(order) && AlignedTo(region.start, order)
    ensures var o := Merge(l, region, order, limit);
            !o.placed ==> o.region.size == Pow2(order + o.merges) && AlignedTo(o.region.start, order + o.merges)
    decreases limit - order
  {
    if order < limit {
      var buddy := FlipBit(region.start, order);
      var r := Remove(l[order], buddy);
      if r.Some? {
        var merged := MergedRegion(region, order);
        var l1: FreeLists := l[order := r.value.0];
        MergeRegion(l1, merged, order + 1, limit);
        var o := Merge(l1, merged, order + 1, limit);
        assert Merge(l, region, order, limit) == MergeOutcome(o.lists, o.region, o.placed, o.merges + 1);
      }
    }
  }

  /** The region one merge produces: twice the size, at the lower of the two buddies, aligned to its new size. */
  lemma MergedRegion(region: Block, order: nat) returns (merged: Block)
    requires region.size == Pow2(order) && AlignedTo(region.start, order)
    ensures merged == Block(Min(region.start, FlipBit(region.start, order)), region.size * 2)
    ensures merged.size == Pow2(order + 1) && AlignedTo(merged.start, order + 1)
  {
    FlipBitBuddy(region.start, order);
    merged := Block(Min(region.start, FlipBit(region.start, order)), region.size * 2);
  }

  // ---------------------------------------------------------------------------
  // Disjointness

  /** 1 when block `b` holds address `x`, else 0. */
  function Covers(b: Block, x: nat): nat {
    if b.start <= x < b.start + b.size then 1 else 0
  }

  /** The number of blocks of a list holding `x`. */
  function ListCover(s: seq<Block>, x: nat): nat {
    if |s| == 0 then 0 else Covers(s[0], x) + ListCover(s[1..], x)
  }

  /** The number of blocks, over a sequence of lists, holding `x`. */
  function CoverLists(ls: seq<seq<Block>>, x: nat): nat {
    if |ls| == 0 then 0 else ListCover(ls[0], x) + CoverLists(ls[1..], x)
  }

  /** The number of free blocks holding `x`. */
  function Cover(l: FreeLists, x: nat): nat {
    CoverLists(l, x)
  }

  /** No address lies in two free blocks, and no block is listed twice. */
  ghost predicate Disjoint(l: FreeLists) {
    forall x: nat :: Cover(l, x) <= 1
  }

  /** No free block holds an address of `[start, end)`. */
  ghost predicate Unheld(l: FreeLists, start: nat, end: nat) {
    forall x: nat :: start <= x < end ==> Cover(l, x) == 0
  }

  /** Empty lists hold no address. */
  lemma EmptyCover(x: nat)
    ensures Cover(EmptyLists(), x) == 0
  {
    var l := EmptyLists();
    forall k | 0 <= k <= MAX_ORDER ensures CoverLists(l[k..], x) == 0 {
      EmptySuffixCover(l, k, x);
    }
    assert l[0..] == l;
  }

  lemma {:induction false} EmptySuffixCover(l: seq<seq<Block>>, k: nat, x: nat)
    requires k <= |l| && forall j :: 0 <= j < |l| ==> l[j] == []
    ensures CoverLists(l[k..], x) == 0
    decreases |l| - k
  {
    if k < |l| {
      EmptySuffixCover(l, k + 1, x);
      assert l[k..][1..] == l[k + 1..];
    }
  }

  lemma {:induction false} CoverListsUpdate(ls: seq<seq<Block>>, k: nat, v: seq<Block>, x: nat)
    requires k < |ls|
    ensures CoverLists(ls[k := v], x) + ListCover(ls[k], x) == CoverLists(ls, x) + ListCover(v, x)
  {
    if k > 0 {
      CoverListsUpdate(ls[1..], k - 1, v, x);
      assert ls[k := v][1..] == ls[1..][k - 1 := v];
    } else {
      assert ls[k := v][1..] == ls[1..];
    }
  }

  /** Pushing a block adds exactly its addresses. */
  lemma PushCover(l: FreeLists, k: nat, b: Block, x: nat)
    requires k < MAX_ORDER
    ensures Cover(Push(l, k, b), x) == Cover(l, x) + Covers(b, x)
  {
    CoverListsUpdate(l, k, [b] + l[k], x);
    assert ([b] + l[k])[1..] == l[k];
  }

  /** Popping a block removes exactly its addresses. */
  lemma PopCover(l: FreeLists, k: nat, x: nat)
    requires k < MAX_ORDER && |l[k]| > 0
    ensures Cover(Pop(l, k).0, x) + Covers(Pop(l, k).1, x) == Cover(l, x)
  {
    CoverListsUpdate(l, k, l[k][1..], x);
  }

  /** A block of `2^j` bytes holds exactly the addresses of its two halves. */
  lemma HalvesCover(start: nat, j: nat, x: nat)
    requires 0 < j
    ensures Covers(Block(start, Pow2(j)), x)
            == Covers(Block(start, Pow2(j - 1)), x) + Covers(Block(start + Pow2(j - 1), Pow2(j - 1)), x)
  {
  }

  /** One split trades a block for its two halves: every address is held as often as before. */
  lemma SplitOnceCover(l: FreeLists, j: nat, x: nat)
    requires 0 < j < MAX_ORDER && |l[j]| > 0 && l[j][0].size == Pow2(j)
    ensures Cover(SplitOnce(l, j), x) == Cover(l, x)
  {
    var (l1, b) := Pop(l, j);
    var half := Pow2(j - 1);
    var l2 := Push(l1, j - 1, Block(b.start, half));
    PopCover(l, j, x);
    PushCover(l1, j - 1, Block(b.start, half), x);
    PushCover(l2, j - 1, Block(b.start + half, half), x);
    HalvesCover(b.start, j, x);
  }

  /** Splitting sized lists holds every address as often as before. */
  lemma {:induction false} SplitCover(l: FreeLists, j: nat, order: nat, x: nat)
    requires order <= j < MAX_ORDER && |l[j]| > 0 && Sized(l)
    ensures Cover(Split(l, j, order), x) == Cover(l, x)
    decreases j
  {
    if j > order {
      SplitOnceCover(l, j, x);
      SplitCover(SplitOnce(l, j), j - 1, order, x);
    }
  }

  /** Pushing a list of blocks adds each block's addresses. */
  lemma {:induction false} AddBlocksCover(l: FreeLists, blocks: seq<Block>, x: nat)
    requires forall i :: 0 <= i < |blocks| ==> WellFormedBlock(blocks[i])
    ensures Cover(AddBlocks(l, blocks), x) == Cover(l, x) + ListCover(blocks, x)
    decreases |blocks|
  {
    if |blocks| > 0 {
      OrderOfBlock(blocks[0]);
      var k := TrailingZeros(blocks[0].size);
      PushCover(l, k, blocks[0], x);
      AddBlocksCover(Push(l, k, blocks[0]), blocks[1..], x);
    }
  }

  /** A tiling of `[start, end)` holds each address of the range once and no other address. */
  lemma {:induction false} TilingCover(blocks: seq<Block>, start: nat, end: nat, x: nat)
    requires Tiling(blocks, start, end)
    ensures ListCover(blocks, x) == if start <= x < end then 1 else 0
    decreases |blocks|
  {
    if |blocks| > 0 {
      TilingCover(blocks[1..], start + blocks[0].size, end, x);
      TilingTotal(blocks[1..], start + blocks[0].size, end);
    }
  }

  /** Removing the first match from a list removes exactly that block's addresses. */
  lemma {:induction false} RemoveCover(s: seq<Block>, start: nat, x: nat)
    requires Remove(s, start).Some?
    ensures ListCover(Remove(s, start).value.0, x) + Covers(Remove(s, start).value.1, x) == ListCover(s, x)
    decreases |s|
  {
    if s[0].start != start {
      RemoveCover(s[1..], start, x);
      var (rest, b) := Remove(s[1..], start).value;
      assert ([s[0]] + rest)[1..] == rest;
    }
  }

  /** A region and its buddy together hold exactly the addresses of the merged region. */
  lemma BuddiesCover(region: Block, order: nat, b: Block, x: nat)
    requires region.size == Pow2(order) && b.size == Pow2(order) && b.start == FlipBit(region.start, order)
    ensures Covers(Block(Min(region.start, b.start), region.size * 2), x) == Covers(region, x) + Covers(b, x)
  {
  }

  /**
   * Merging trades a region and its free buddies for the merged region:
   * every address is held, by a free block or by the region still in hand,
   * as often as before.
   */
  lemma {:induction false} MergeCover(l: FreeLists, region: Block, order: nat, limit: nat, x: nat)
    requires limit <= MAX_ORDER && Sized(l)
    requires region.size == Pow2(order) && AlignedTo(region.start, order)
    ensures var o := Merge(l, region, order, limit);
            Cover(o.lists, x) + (if o.placed then 0 else Covers(o.region, x)) == Cover(l, x) + Covers(region, x)
    decreases limit - order
  {
    if order < limit {
      var buddy := FlipBit(region.start, order);
      var r := Remove(l[order], buddy);
      if r.Some? {
        var (rest, b) := r.value;
        MergeStep(l, region, order);
        RemoveKeepsSized(l[order], buddy, order);
        RemoveCover(l[order], buddy, x);
        CoverListsUpdate(l, order, rest, x);
        BuddiesCover(region, order, b, x);
        var l1: FreeLists := l[order := rest];
        var merged := Block(Min(region.start, buddy), region.size * 2);
        MergeCover(l1, merged, order + 1, limit, x);
        var o := Merge(l1, merged, order + 1, limit);
        assert Merge(l, region, order, limit) == MergeOutcome(o.lists, o.region, o.placed, o.merges + 1);
      } else {
        PushCover(l, order, region, x);
        assert Merge(l, region, order, limit) == MergeOutcome(Push(l, order, region), region, true, 0);
      }
    } else {
      assert Merge(l, region, order, limit) == MergeOutcome(l, region, false, 0);
    }
  }
}
