/**
 * VESA BIOS Extensions: walking the controller's list of video mode
 * numbers, choosing the mode closest to a requested resolution and depth,
 * the mode word handed to function 4F02h, and what the loader makes of a
 * mode's information block (pixel format and framebuffer geometry).
 *
 * The BIOS calls themselves are parameters: a mode's information block is
 * given (or absent when function 4F01h fails), and a call's status is the
 * word it leaves in AX.
 */
module Vesa {
  import opened Wrappers
  import opened Bytes
  import opened BootUtil
  import Dap

  type U8 = x: nat | x < 0x100
  type U16 = x: nat | x < 0x1_0000

  const VESA_SUCCESS: nat := 0x4F
  const LIST_END: nat := 0xFFFF
  const U32_MAX: nat := 0xFFFF_FFFF
  const U8_MAX: nat := 0xFF

  /** Every VESA call succeeds exactly when it leaves 0x004F in AX. */
  function CallStatus(ax: U16): (r: Result<(), U16>)
    ensures r.Ok? <==> ax == VESA_SUCCESS
    ensures r.Err? ==> r.error == ax
  {
    if ax == VESA_SUCCESS then Ok(()) else Err(ax)
  }

  // ---------------------------------------------------------------------------
  // The mode list

  /** The segment half of a far pointer: its high 16 bits. */
  function Segment(p: nat): (s: U16)
    requires p < 0x1_0000_0000
    ensures s * 0x1_0000 <= p < (s + 1) * 0x1_0000
  {
    p / 0x1_0000
  }

  /** The offset half of a far pointer: its low 16 bits. */
  function Offset(p: nat): (o: U16)
    requires p < 0x1_0000_0000
    ensures Segment(p) * 0x1_0000 + o == p
  {
    p % 0x1_0000
  }

  /** A far pointer's parts come back out of it. */
  lemma FarPointerRoundTrip(segment: U16, offset: U16)
    ensures Segment(segment * 0x1_0000 + offset) == segment
    ensures Offset(segment * 0x1_0000 + offset) == offset
  {
    DivModUnique(segment * 0x1_0000 + offset, 0x1_0000, segment, offset);
  }

  /** Where `get_mode` reads the list: `(segment << 4) + offset`. */
  function ModeListAddress(p: nat): (a: nat)
    requires p < 0x1_0000_0000
    ensures a == Dap.RealModeAddress(Segment(p), Offset(p))
    ensures a < 0x11_0000 - 16
  {
    Segment(p) * 16 + Offset(p)
  }

  /**
   * The 16-bit words of `memory` from `base` on, as `*ptr.offset(i)` reads
   * them: word `i` is the little-endian pair at `base + 2 * i`.
   */
  function Words(memory: seq<byte>, base: nat): (ws: seq<U16>)
    ensures forall i :: 0 <= i < |ws| ==> base + 2 * i + 2 <= |memory| && ws[i] == U16At(memory, base + 2 * i)
    ensures base + 2 * |ws| + 2 > |memory|
  {
    var n := if base + 2 <= |memory| then (|memory| - base) / 2 else 0;
    seq(n, i requires 0 <= i < n => U16At(memory, base + 2 * i))
  }

  /** `get_mode(i)`: word `i` of the list, or `None` for the 0xFFFF that ends it. */
  function ModeAt(ws: seq<U16>, i: nat): (m: Option<U16>)
    requires i < |ws|
    ensures m.None? <==> ws[i] == LIST_END
    ensures m.Some? ==> m.value == ws[i]
  {
    if ws[i] == LIST_END then None else Some(ws[i])
  }

  /**
   * The mode numbers from index `from` up to the terminator. `None` when
   * the list runs off the end of memory before a terminator: the loader
   * would read on into whatever follows.
   */
  function ModeIds(ws: seq<U16>, from: nat): (r: Option<seq<U16>>)
    ensures r.Some? ==> LIST_END !in r.value
    decreases |ws| - from
  {
    if from >= |ws| then None
    else match ModeAt(ws, from)
      case None => Some([])
      case Some(m) =>
        match ModeIds(ws, from + 1)
        case None => None
        case Some(rest) => Some([m] + rest)
  }

  /**
   * The list is exactly the words before the first 0xFFFF at or after
   * `from`, and it is `None` exactly when there is no such 0xFFFF.
   */
  lemma {:induction false} ModeIdsWords(ws: seq<U16>, from: nat)
    ensures var r := ModeIds(ws, from);
            r.Some? ==> from + |r.value| < |ws| && ws[from + |r.value|] == LIST_END
                        && forall k :: 0 <= k < |r.value| ==> r.value[k] == ws[from + k]
    ensures ModeIds(ws, from).None? <==> forall k :: from <= k < |ws| ==> ws[k] != LIST_END
    decreases |ws| - from
  {
    if from < |ws| && ws[from] != LIST_END {
      ModeIdsWords(ws, from + 1);
      var r := ModeIds(ws, from);
      if r.Some? {
        var rest := ModeIds(ws, from + 1).value;
        assert r.value == [ws[from]] + rest;
        forall k | 1 <= k < |r.value|
          ensures r.value[k] == ws[from + k]
        {
          assert r.value[k] == rest[k - 1];
        }
      }
    }
  }

  /** The whole list reachable from the controller's far pointer. */
  function ModeList(memory: seq<byte>, pointer: nat): (r: Option<seq<U16>>)
    requires pointer < 0x1_0000_0000
    ensures r.Some? ==> LIST_END !in r.value
  {
    ModeIds(Words(memory, ModeListAddress(pointer)), 0)
  }

  /**
   * Mode `k` of a list read at `base` (`ModeList` reads at the pointer's
   * real-mode address) is the word at `base + 2 * k`, and the word after
   * the last mode is the terminator.
   */
  lemma ModeListInMemory(memory: seq<byte>, base: nat)
    requires ModeIds(Words(memory, base), 0).Some?
    ensures var ids := ModeIds(Words(memory, base), 0).value;
            base + 2 * |ids| + 2 <= |memory| && U16At(memory, base + 2 * |ids|) == LIST_END
            && forall k :: 0 <= k < |ids| ==> ids[k] == U16At(memory, base + 2 * k)
  {
    var ws := Words(memory, base);
    var ids := ModeIds(ws, 0).value;
    var n := |ids|;
    assert n < |ws| && ws[n] == LIST_END && forall k :: 0 <= k < n ==> ids[k] == ws[k] by {
      ModeIdsWords(ws, 0);
    }
    WordAt(memory, base, n);
  }

  lemma WordAt(memory: seq<byte>, base: nat, i: nat)
    requires i < |Words(memory, base)|
    ensures base + 2 * i + 2 <= |memory| && Words(memory, base)[i] == U16At(memory, base + 2 * i)
  {
  }

  // ---------------------------------------------------------------------------
  // Choosing a mode

  /** The fields of a mode information block the loader reads. */
  datatype ModeInfo = ModeInfo(
    attributes: U16, bytesPerScanline: U16, width: U16, height: U16,
    bitsPerPixel: U8, memoryModel: U8,
    redPosition: U8, greenPosition: U8, bluePosition: U8,
    framebuffer: nat)

  /** One mode number with the block function 4F01h returned, `None` if it failed. */
  datatype Query = Query(mode: U16, info: Option<ModeInfo>)

  /** A graphics mode (attribute bit 4) with a linear framebuffer (bit 7): `attributes & 0x90 == 0x90`. */
  predicate GraphicsWithFramebuffer(info: ModeInfo) {
    (info.attributes / 0x10) % 2 == 1 && (info.attributes / 0x80) % 2 == 1
  }

  /** Packed-pixel (4) or direct-colour (6) memory model. */
  predicate PixelMemoryModel(info: ModeInfo) {
    info.memoryModel == 4 || info.memoryModel == 6
  }

  /** A mode the search considers. */
  predicate Candidate(q: Query) {
    q.info.Some? && GraphicsWithFramebuffer(q.info.value) && PixelMemoryModel(q.info.value)
  }

  predicate Exact(q: Query, width: U16, height: U16, depth: U8) {
    Candidate(q) && q.info.value.width == width && q.info.value.height == height && q.info.value.bitsPerPixel == depth
  }

  function AbsDiff(a: nat, b: nat): nat {
    if a < b then b - a else a - b
  }

  /** How far a mode's pixel count is from the requested one. */
  function PixelDiff(info: ModeInfo, width: U16, height: U16): nat {
    AbsDiff(info.width * info.height, width * height)
  }

  function DepthDiff(info: ModeInfo, depth: U8): nat {
    AbsDiff(info.bitsPerPixel, depth)
  }

  /** `a` is strictly closer than `b`: fewer pixels off, or as many and less depth off. */
  predicate Closer(a: ModeInfo, b: ModeInfo, width: U16, height: U16, depth: U8) {
    PixelDiff(a, width, height) < PixelDiff(b, width, height)
    || (PixelDiff(a, width, height) == PixelDiff(b, width, height) && DepthDiff(a, depth) < DepthDiff(b, depth))
  }

  /** Some query before `n` is a candidate. */
  predicate AnyCandidate(qs: seq<Query>, n: nat)
    requires n <= |qs|
  {
    exists i :: 0 <= i < n && Candidate(qs[i])
  }

  /** Query `i` is the first exact match. */
  predicate FirstExact(qs: seq<Query>, i: nat, width: U16, height: U16, depth: U8) {
    i < |qs| && Exact(qs[i], width, height, depth)
    && forall j :: 0 <= j < i ==> !Exact(qs[j], width, height, depth)
  }

  /**
   * Among the candidates before `n`, query `k` is the closest, and every
   * earlier candidate is strictly farther: the first of the closest.
   */
  predicate FirstClosest(qs: seq<Query>, k: nat, n: nat, width: U16, height: U16, depth: U8)
    requires n <= |qs|
  {
    k < n && Candidate(qs[k])
    && forall j :: 0 <= j < n && Candidate(qs[j]) ==>
         !Closer(qs[j].info.value, qs[k].info.value, width, height, depth)
         && (j < k ==> Closer(qs[k].info.value, qs[j].info.value, width, height, depth))
  }

  lemma ProductBound(a: U16, b: U16)
    ensures a * b <= 0xFFFE_0001
  {
    MulMono(a, b, 0xFFFF);
    MulMono(0xFFFF, a, 0xFFFF);
    MulComm(a, 0xFFFF);
  }

  /** No pixel difference reaches `u32::MAX`, the starting "best". */
  lemma PixelDiffBound(info: ModeInfo, width: U16, height: U16)
    ensures PixelDiff(info, width, height) < U32_MAX
  {
    var a, b := info.width * info.height, width * height;
    ProductBound(info.width, info.height);
    ProductBound(width, height);
    assert AbsDiff(a, b) <= 0xFFFE_0001;
  }

  /**
   * `get_best_mode` of stage 2 over the list's queries: the first exact
   * match if there is one; otherwise the first of the closest candidates;
   * `None` when no mode is a candidate.
   */
  method BestMode(qs: seq<Query>, width: U16, height: U16, depth: U8) returns (best: Option<U16>)
    ensures best.Some? <==> AnyCandidate(qs, |qs|)
    ensures forall i: nat :: FirstExact(qs, i, width, height, depth) ==> best == Some(qs[i].mode)
    ensures best.Some? && (forall i :: 0 <= i < |qs| ==> !Exact(qs[i], width, height, depth)) ==>
              exists k: nat :: FirstClosest(qs, k, |qs|, width, height, depth) && best.value == qs[k].mode
  {
    best := None;
    var bestPix: nat := U32_MAX;
    var bestDepth: nat := U8_MAX;
    ghost var at: nat := 0;
    var i := 0;
    while i < |qs|
      invariant Searched(qs, i, best, bestPix, bestDepth, at, width, height, depth)
      decreases |qs| - i
    {
      var q := qs[i];
      if Candidate(q) {
        var info := q.info.value;
        if info.width == width && info.height == height && info.bitsPerPixel == depth {
          SearchEndsAtExact(qs, i, best, bestPix, bestDepth, at, width, height, depth);
          return Some(q.mode);
        }
        var pixDiff := PixelDiff(info, width, height);
        var depthDiff := DepthDiff(info, depth);
        if bestPix > pixDiff || (bestPix == pixDiff && bestDepth > depthDiff) {
          SearchTakesCloser(qs, i, best, bestPix, bestDepth, at, width, height, depth);
          best := Some(q.mode);
          bestPix := pixDiff;
          bestDepth := depthDiff;
          at := i;
        } else {
          SearchKeepsBest(qs, i, best, bestPix, bestDepth, at, width, height, depth);
        }
      } else {
        SearchKeepsBest(qs, i, best, bestPix, bestDepth, at, width, height, depth);
      }
      i := i + 1;
    }
    SearchDone(qs, best, bestPix, bestDepth, at, width, height, depth);
  }

  /**
   * The loop state of the search after `i` queries: no exact match yet;
   * nothing found and the starting "best" while no candidate was seen;
   * otherwise the first closest candidate so far and its distances.
   */
  ghost predicate Searched(qs: seq<Query>, i: nat, best: Option<U16>, bestPix: nat, bestDepth: nat, at: nat,
                           width: U16, height: U16, depth: U8) {
    i <= |qs|
    && (forall j :: 0 <= j < i ==> !Exact(qs[j], width, height, depth))
    && (best.None? ==> bestPix == U32_MAX && forall j :: 0 <= j < i ==> !Candidate(qs[j]))
    && (best.Some? ==> FirstClosest(qs, at, i, width, height, depth) && best.value == qs[at].mode
                       && bestPix == PixelDiff(qs[at].info.value, width, height)
                       && bestDepth == DepthDiff(qs[at].info.value, depth))
  }

  /** What `BestMode` promises of its result. */
  ghost predicate BestOf(qs: seq<Query>, best: Option<U16>, width: U16, height: U16, depth: U8) {
    (best.Some? <==> AnyCandidate(qs, |qs|))
    && (forall i: nat :: FirstExact(qs, i, width, height, depth) ==> best == Some(qs[i].mode))
    && (best.Some? && (forall i :: 0 <= i < |qs| ==> !Exact(qs[i], width, height, depth)) ==>
          exists k: nat :: FirstClosest(qs, k, |qs|, width, height, depth) && best.value == qs[k].mode)
  }

  lemma SearchEndsAtExact(qs: seq<Query>, i: nat, best: Option<U16>, bestPix: nat, bestDepth: nat, at: nat,
                          width: U16, height: U16, depth: U8)
    requires Searched(qs, i, best, bestPix, bestDepth, at, width, height, depth) && i < |qs|
    requires Candidate(qs[i]) && qs[i].info.value.width == width && qs[i].info.value.height == height
    requires qs[i].info.value.bitsPerPixel == depth
    ensures BestOf(qs, Some(qs[i].mode), width, height, depth)
  {
    ExactFound(qs, i, width, height, depth);
  }

  lemma SearchTakesCloser(qs: seq<Query>, i: nat, best: Option<U16>, bestPix: nat, bestDepth: nat, at: nat,
                          width: U16, height: U16, depth: U8)
    requires Searched(qs, i, best, bestPix, bestDepth, at, width, height, depth) && i < |qs| && Candidate(qs[i])
    requires !Exact(qs[i], width, height, depth)
    requires var info := qs[i].info.value;
             bestPix > PixelDiff(info, width, height)
             || (bestPix == PixelDiff(info, width, height) && bestDepth > DepthDiff(info, depth))
    ensures Searched(qs, i + 1, Some(qs[i].mode), PixelDiff(qs[i].info.value, width, height),
                     DepthDiff(qs[i].info.value, depth), i, width, height, depth)
  {
    if best.None? {
      FirstCandidate(qs, i, width, height, depth);
    } else {
      CloserCandidate(qs, at, i, width, height, depth);
    }
  }

  lemma SearchKeepsBest(qs: seq<Query>, i: nat, best: Option<U16>, bestPix: nat, bestDepth: nat, at: nat,
                        width: U16, height: U16, depth: U8)
    requires Searched(qs, i, best, bestPix, bestDepth, at, width, height, depth) && i < |qs|
    requires !Exact(qs[i], width, height, depth)
    requires Candidate(qs[i]) ==>
               var info := qs[i].info.value;
               !(bestPix > PixelDiff(info, width, height)
                 || (bestPix == PixelDiff(info, width, height) && bestDepth > DepthDiff(info, depth)))
    ensures Searched(qs, i + 1, best, bestPix, bestDepth, at, width, height, depth)
  {
    if Candidate(qs[i]) {
      PixelDiffBound(qs[i].info.value, width, height);
    }
    if best.Some? {
      FartherCandidate(qs, at, i, width, height, depth);
    }
  }

  lemma SearchDone(qs: seq<Query>, best: Option<U16>, bestPix: nat, bestDepth: nat, at: nat,
                   width: U16, height: U16, depth: U8)
    requires Searched(qs, |qs|, best, bestPix, bestDepth, at, width, height, depth)
    ensures BestOf(qs, best, width, height, depth)
  {
  }

  /** The first exact match ends the search. */
  lemma ExactFound(qs: seq<Query>, i: nat, width: U16, height: U16, depth: U8)
    requires i < |qs| && Exact(qs[i], width, height, depth)
    requires forall j :: 0 <= j < i ==> !Exact(qs[j], width, height, depth)
    ensures AnyCandidate(qs, |qs|)
    ensures forall j: nat :: FirstExact(qs, j, width, height, depth) <==> j == i
  {
  }

  /** The first candidate is the closest so far. */
  lemma FirstCandidate(qs: seq<Query>, i: nat, width: U16, height: U16, depth: U8)
    requires i < |qs| && Candidate(qs[i]) && forall j :: 0 <= j < i ==> !Candidate(qs[j])
    ensures FirstClosest(qs, i, i + 1, width, height, depth)
  {
  }

  /** A strictly closer candidate takes over. */
  lemma CloserCandidate(qs: seq<Query>, at: nat, i: nat, width: U16, height: U16, depth: U8)
    requires i < |qs| && Candidate(qs[i]) && FirstClosest(qs, at, i, width, height, depth)
    requires Closer(qs[i].info.value, qs[at].info.value, width, height, depth)
    ensures FirstClosest(qs, i, i + 1, width, height, depth)
  {
    var a, b := qs[i].info.value, qs[at].info.value;
    forall j | 0 <= j < i + 1 && Candidate(qs[j])
      ensures !Closer(qs[j].info.value, a, width, height, depth)
      ensures j < i ==> Closer(a, qs[j].info.value, width, height, depth)
    {
      if j < i {
        CloserStep(a, b, qs[j].info.value, width, height, depth);
      }
    }
  }

  /** A mode closer than `b` is closer than every mode `b` is not farther than. */
  lemma CloserStep(a: ModeInfo, b: ModeInfo, c: ModeInfo, width: U16, height: U16, depth: U8)
    requires Closer(a, b, width, height, depth) && !Closer(c, b, width, height, depth)
    ensures Closer(a, c, width, height, depth) && !Closer(c, a, width, height, depth)
  {
    LexBeats(PixelDiff(c, width, height), DepthDiff(c, depth), PixelDiff(a, width, height), DepthDiff(a, depth),
             PixelDiff(b, width, height), DepthDiff(b, depth));
  }

  /** In the lexicographic order, what beats `b` beats everything `b` is not beaten by. */
  lemma LexBeats(pc: nat, dc: nat, pa: nat, da: nat, pb: nat, db: nat)
    requires !(pc < pb || (pc == pb && dc < db))
    requires pa < pb || (pa == pb && da < db)
    ensures !(pc < pa || (pc == pa && dc < da))
    ensures pa < pc || (pa == pc && da < dc)
  {
  }

  /** A candidate no closer than the best so far leaves it in place. */
  lemma FartherCandidate(qs: seq<Query>, at: nat, i: nat, width: U16, height: U16, depth: U8)
    requires i < |qs| && FirstClosest(qs, at, i, width, height, depth)
    requires Candidate(qs[i]) ==> !Closer(qs[i].info.value, qs[at].info.value, width, height, depth)
    ensures FirstClosest(qs, at, i + 1, width, height, depth)
  {
  }

  /**
   * `get_best_mode` of the shared crate: the same search, but mode 0 when
   * no mode is a candidate.
   */
  method CommonBestMode(qs: seq<Query>, width: U16, height: U16, depth: U8) returns (mode: U16)
    ensures !AnyCandidate(qs, |qs|) ==> mode == 0
    ensures forall i: nat :: FirstExact(qs, i, width, height, depth) ==> mode == qs[i].mode
    ensures AnyCandidate(qs, |qs|) && (forall i :: 0 <= i < |qs| ==> !Exact(qs[i], width, height, depth)) ==>
              exists k: nat :: FirstClosest(qs, k, |qs|, width, height, depth) && mode == qs[k].mode
  {
    var best := BestMode(qs, width, height, depth);
    mode := if best.Some? then best.value else 0;
  }

  /** At most one query is the first of the closest. */
  lemma FirstClosestUnique(qs: seq<Query>, k1: nat, k2: nat, width: U16, height: U16, depth: U8)
    requires FirstClosest(qs, k1, |qs|, width, height, depth) && FirstClosest(qs, k2, |qs|, width, height, depth)
    ensures k1 == k2
  {
  }

  // ---------------------------------------------------------------------------
  // Setting a mode

  const LINEAR_FRAMEBUFFER_BIT: bv16 := 0x4000
  const KEEP_MEMORY_BIT: bv16 := 0x8000

  /**
   * The mode word `set_mode` passes in BX: bit 14 set to ask for the
   * linear framebuffer, bit 15 cleared so the BIOS clears the screen,
   * the mode number in the other bits unchanged.
   */
  function ModeRequest(mode: bv16): (r: bv16)
    ensures r & LINEAR_FRAMEBUFFER_BIT != 0 && r & KEEP_MEMORY_BIT == 0
    ensures r & 0x3FFF == mode & 0x3FFF
  {
    (mode | LINEAR_FRAMEBUFFER_BIT) & !KEEP_MEMORY_BIT
  }

  /** A request is already a request: asking twice asks for the same thing. */
  lemma ModeRequestIdempotent(mode: bv16)
    ensures ModeRequest(ModeRequest(mode)) == ModeRequest(mode)
    ensures ModeRequest(mode) == mode <==> mode & 0xC000 == LINEAR_FRAMEBUFFER_BIT
  {
  }

  /** `set_mode`: the word passed to function 4F02h and the call's outcome. */
  function SetMode(mode: U16, ax: U16): (r: (bv16, Result<(), U16>))
    ensures r.0 & LINEAR_FRAMEBUFFER_BIT != 0 && r.0 & KEEP_MEMORY_BIT == 0
    ensures r.0 & 0x3FFF == (mode as bv16) & 0x3FFF
    ensures r.1.Ok? <==> ax == VESA_SUCCESS
  {
    (ModeRequest(mode as bv16), CallStatus(ax))
  }

  // ---------------------------------------------------------------------------
  // What a mode looks like

  datatype PixelFormat = Rgb | Bgr | Unknown(red: U8, green: U8, blue: U8)

  /** `get_pixel_format`: the colour fields' bit positions. */
  function PixelFormatOf(red: U8, green: U8, blue: U8): (f: PixelFormat)
    ensures f == Rgb <==> red == 0 && green == 8 && blue == 16
    ensures f == Bgr <==> red == 16 && green == 8 && blue == 0
    ensures f.Unknown? ==> f.red == red && f.green == green && f.blue == blue
  {
    if red == 0 && green == 8 && blue == 16 then Rgb
    else if red == 16 && green == 8 && blue == 0 then Bgr
    else Unknown(red, green, blue)
  }

  /** The bit positions a format stands for. */
  function Positions(f: PixelFormat): (U8, U8, U8) {
    match f
    case Rgb => (0, 8, 16)
    case Bgr => (16, 8, 0)
    case Unknown(r, g, b) => (r, g, b)
  }

  /** A format remembers the positions it was made from. */
  lemma PixelFormatRoundTrip(red: U8, green: U8, blue: U8)
    ensures Positions(PixelFormatOf(red, green, blue)) == (red, green, blue)
  {
  }

  /**
   * The loader never produces `Unknown` with the positions of `Rgb` or
   * `Bgr`; every other format is rebuilt from its positions.
   */
  lemma PixelFormatCanonical(f: PixelFormat)
    requires f != Unknown(0, 8, 16) && f != Unknown(16, 8, 0)
    ensures PixelFormatOf(Positions(f).0, Positions(f).1, Positions(f).2) == f
  {
  }

  /** `FramebufferInfo`: the region, the visible size, and the pixel layout. */
  datatype FramebufferInfo = FramebufferInfo(
    start: nat, size: nat, width: U16, height: U16,
    bytesPerPixel: U8, stride: U16, format: PixelFormat)

  /**
   * `to_framebuffer_info`: `bits_per_pixel / 8` bytes a pixel, a region of
   * `height` scanlines, and a stride of whole pixels per scanline. Below 8
   * bits a pixel the stride divides by zero and panics.
   */
  function ToFramebufferInfo(info: ModeInfo): (r: Result<FramebufferInfo, Halt>)
    ensures r.Err? <==> info.bitsPerPixel < 8
    ensures r.Err? ==> r.error == Panic
    ensures r.Ok? ==> var f := r.value;
              f.start == info.framebuffer && f.size == info.height * info.bytesPerScanline
              && f.width == info.width && f.height == info.height
              && f.bytesPerPixel * 8 <= info.bitsPerPixel < f.bytesPerPixel * 8 + 8
              && f.stride * f.bytesPerPixel <= info.bytesPerScanline < (f.stride + 1) * f.bytesPerPixel
              && Positions(f.format) == (info.redPosition, info.greenPosition, info.bluePosition)
  {
    var bytesPerPixel := info.bitsPerPixel / 8;
    if bytesPerPixel == 0 then Err(Panic)
    else
      var stride := info.bytesPerScanline / bytesPerPixel;
      Ok(FramebufferInfo(info.framebuffer, info.height * info.bytesPerScanline, info.width, info.height,
                         bytesPerPixel, stride, PixelFormatOf(info.redPosition, info.greenPosition, info.bluePosition)))
  }

  /**
   * Every pixel a consumer addresses as `(y * stride + x) * bytes_per_pixel`
   * with `x < stride` and `y < height` lies inside the framebuffer region.
   */
  lemma PixelsInsideRegion(info: ModeInfo, x: nat, y: nat)
    requires ToFramebufferInfo(info).Ok?
    requires x < ToFramebufferInfo(info).value.stride && y < info.height
    ensures var f := ToFramebufferInfo(info).value;
            (y * f.stride + x + 1) * f.bytesPerPixel <= f.size
  {
    var f := ToFramebufferInfo(info).value;
    PixelBound(x, y, f.stride, f.bytesPerPixel, info.bytesPerScanline, info.height);
  }

  /** Pixel `(x, y)` of `h` scanlines of `line` bytes, `s` pixels of `b` bytes each fitting a scanline. */
  lemma PixelBound(x: nat, y: nat, s: nat, b: nat, line: nat, h: nat)
    requires x < s && y < h && s * b <= line
    ensures (y * s + x + 1) * b <= h * line
  {
    calc {
      (y * s + x + 1) * b;
    ==  { MulDistrib(b, y * s, x + 1); MulComm(y * s + x + 1, b); MulComm(y * s, b); MulComm(x + 1, b); }
      (y * s) * b + (x + 1) * b;
    <=  { MulMono(b, x + 1, s); MulComm(b, x + 1); MulComm(b, s); }
      (y * s) * b + s * b;
    ==  { MulAssoc(y, s, b); }
      y * (s * b) + s * b;
    <=  { MulMono(y, s * b, line); }
      y * line + line;
    ==  { MulDistrib(line, y, 1); MulComm(line, y); MulComm(line, y + 1); }
      (y + 1) * line;
    <=  { MulMono(line, y + 1, h); MulComm(line, y + 1); MulComm(line, h); }
      h * line;
    }
  }
}
