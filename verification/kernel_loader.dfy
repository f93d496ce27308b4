/**
 * The stage-4 kernel loader. The kernel image already sits in physical
 * memory at `kernelStart`; each loadable segment is mapped frame by frame at
 * `vbase + p_vaddr`, the part of its memory image past the file bytes
 * (.bss) is zeroed, and each R_X86_64_RELATIVE relocation (section 4.4 of
 * the System V AMD64 psABI) stores `vbase + addend` at `vbase + offset`.
 *
 * Addresses are integers and frames and pages are numbered by address
 * divided by 4096. The page table's translation is a parameter.
 */
module KernelLoading {
  import opened Wrappers
  import opened Bytes
  import PageEntry
  import Elf

  const PAGE: nat := 0x1000
  const U64_LIMIT: nat := 0x1_0000_0000_0000_0000

  datatype Step<T> = Panicked | Completed(value: T)

  // ---------------------------------------------------------------------------
  // Segments

  /** PRESENT always, NO_EXECUTE unless the segment is executable, WRITABLE if it is writable. */
  function SegmentPageFlags(flags: nat): (f: PageEntry.EntryFlags)
    ensures f & PageEntry.PRESENT == PageEntry.PRESENT
    ensures f & PageEntry.NO_EXECUTE == PageEntry.NO_EXECUTE <==> !Elf.IsExecutable(flags)
    ensures f & PageEntry.WRITABLE == PageEntry.WRITABLE <==> Elf.IsWritable(flags)
    ensures f & !(PageEntry.PRESENT | PageEntry.NO_EXECUTE | PageEntry.WRITABLE) == 0
  {
    var nx: bv64 := if Elf.IsExecutable(flags) then 0 else PageEntry.NO_EXECUTE;
    var w: bv64 := if Elf.IsWritable(flags) then PageEntry.WRITABLE else 0;
    PageEntry.PRESENT | nx | w
  }

  /** A `map_to` of frame number `frame` at page number `page`. */
  datatype Mapping = Mapping(frame: nat, page: nat)

  /** Zero bytes `from` to the end of the frame that `page` translates to. */
  datatype ZeroFill = ZeroFill(page: nat, from: nat)

  /**
   * What `allocate` does for one segment: the file-backed mappings in
   * order, the partial zeroing of the last file page, and the pages that
   * each get a fresh zeroed frame, all with `flags`.
   */
  datatype SegmentLoad = SegmentLoad(flags: PageEntry.EntryFlags, file: seq<Mapping>, tail: Option<ZeroFill>, bss: seq<nat>)

  /** `first ..= last`, empty when `last < first`. */
  function PageRange(first: nat, last: nat): (r: seq<nat>)
    ensures forall p :: p in r <==> first <= p <= last
  {
    var n := if last >= first then last - first + 1 else 0;
    var r := seq(n, k requires 0 <= k < n => first + k);
    forall p | first <= p <= last
      ensures p in r
    {
      assert r[p - first] == p;
    }
    r
  }

  /** `(a + 4095) & !4095`, divided by 4096: the number of the first page starting at or after `a`. */
  function CeilPage(a: nat): nat {
    (a + PAGE - 1) / PAGE
  }

  /** The `map_to` calls for the file bytes `[ps, ps + filesz)`, placed from the page holding `vs`. */
  function FileMappings(ps: nat, vs: nat, filesz: nat): seq<Mapping>
    requires ps + filesz > 0
  {
    var startFrame := ps / PAGE;
    var endFrame := (ps + filesz - 1) / PAGE;
    var n := if endFrame >= startFrame then endFrame - startFrame + 1 else 0;
    seq(n, k requires 0 <= k < n => Mapping(startFrame + k, vs / PAGE + k))
  }

  /** The partial zeroing of the page holding the last file byte, when the .bss starts inside it. */
  function ZeroTail(vs: nat, filesz: nat): Option<ZeroFill> {
    var zs := vs + filesz;
    if zs % PAGE != 0 then Some(ZeroFill((zs - 1) / PAGE, zs % PAGE)) else None
  }

  /** The pages from the one at `align_up(vs + filesz)` to the one holding `vs + memsz - 1`. */
  function BssPageList(vs: nat, filesz: nat, memsz: nat): seq<nat>
    requires memsz > filesz
  {
    PageRange(CeilPage(vs + filesz), (vs + memsz - 1) / PAGE)
  }

  /**
   * The u64 arithmetic of `allocate` for one header that overflows or
   * underflows: `kernel.start + p_offset + p_filesz` and the `- 1` after
   * it, `virtual_base + p_vaddr`, the `start_page + frame_offset` of the
   * last file frame (the start of the page it lands on must stay below
   * 2^64), and for a .bss the `align_up` of `vs + p_filesz` (which adds
   * 4096 first) and `vs + p_memsz`.
   */
  predicate SegmentArithmeticPanics(kernelStart: nat, vbase: nat, ph: Elf.ProgramHeader) {
    var ps, vs := kernelStart + ph.offset, vbase + ph.vaddr;
    ps + ph.filesz == 0 || ps + ph.filesz >= U64_LIMIT || vs >= U64_LIMIT
    || (vs / PAGE + (ps + ph.filesz - 1) / PAGE - ps / PAGE) * PAGE >= U64_LIMIT
    || (ph.memsz > ph.filesz && (vs + ph.filesz + PAGE >= U64_LIMIT || vs + ph.memsz >= U64_LIMIT))
  }

  /**
   * The calls `allocate` makes for one header, or its arithmetic panic.
   * Whether the calls themselves panic is `RunSegment`'s business.
   */
  function AllocateSegment(kernelStart: nat, vbase: nat, ph: Elf.ProgramHeader): (r: Step<SegmentLoad>)
    ensures r.Panicked? <==> SegmentArithmeticPanics(kernelStart, vbase, ph)
    ensures r.Completed? ==> r.value.flags == SegmentPageFlags(ph.flags)
    ensures r.Completed? ==> (r.value.tail.Some? || |r.value.bss| > 0 ==> ph.memsz > ph.filesz)
  {
    var ps := kernelStart + ph.offset;
    var vs := vbase + ph.vaddr;
    if SegmentArithmeticPanics(kernelStart, vbase, ph) then Panicked
    else
      var file := FileMappings(ps, vs, ph.filesz);
      var flags := SegmentPageFlags(ph.flags);
      if ph.memsz <= ph.filesz then Completed(SegmentLoad(flags, file, None, []))
      else Completed(SegmentLoad(flags, file, ZeroTail(vs, ph.filesz), BssPageList(vs, ph.filesz, ph.memsz)))
  }

  /** The segment's file bytes start at the same in-page offset in physical and virtual memory. */
  predicate Congruent(kernelStart: nat, vbase: nat, ph: Elf.ProgramHeader) {
    (kernelStart + ph.offset) % PAGE == (vbase + ph.vaddr) % PAGE
  }

  lemma DivShift(a: nat, o: nat, i: nat)
    requires o < PAGE
    ensures (a * PAGE + o + i) / PAGE == a + (o + i) / PAGE
  {
    var q, r := (o + i) / PAGE, (o + i) % PAGE;
    assert a * PAGE + o + i == (a + q) * PAGE + r;
  }

  /** `FileMapped` over the addresses alone. */
  lemma FileMappingAt(ps: nat, vs: nat, filesz: nat, i: nat)
    requires ps % PAGE == vs % PAGE && i < filesz
    ensures Mapping((ps + i) / PAGE, (vs + i) / PAGE) in FileMappings(ps, vs, filesz)
  {
    var o := ps % PAGE;
    DivShift(ps / PAGE, o, i);
    DivShift(vs / PAGE, o, i);
    DivShift(ps / PAGE, o, filesz - 1);
    var k := (o + i) / PAGE;
    assert FileMappings(ps, vs, filesz)[k] == Mapping((ps + i) / PAGE, (vs + i) / PAGE);
  }

  /**
   * With congruent offsets, file byte `i` is mapped: the frame holding
   * physical byte `ps + i` is mapped at the page holding virtual byte
   * `vs + i`.
   */
  lemma FileMapped(kernelStart: nat, vbase: nat, ph: Elf.ProgramHeader, i: nat)
    requires Congruent(kernelStart, vbase, ph) && i < ph.filesz
    ensures var r := AllocateSegment(kernelStart, vbase, ph);
            var ps, vs := kernelStart + ph.offset, vbase + ph.vaddr;
            r.Completed? ==> Mapping((ps + i) / PAGE, (vs + i) / PAGE) in r.value.file
  {
    var ps, vs := kernelStart + ph.offset, vbase + ph.vaddr;
    var r := AllocateSegment(kernelStart, vbase, ph);
    if r.Completed? {
      assert r.value.file == FileMappings(ps, vs, ph.filesz);
      FileMappingAt(ps, vs, ph.filesz, i);
    }
  }

  /** The file mappings use consecutive frames and consecutive pages, so no page is mapped twice. */
  lemma FileMappingsDistinct(kernelStart: nat, vbase: nat, ph: Elf.ProgramHeader)
    ensures var r := AllocateSegment(kernelStart, vbase, ph);
            r.Completed? ==> forall j, k :: 0 <= j < k < |r.value.file| ==>
                                r.value.file[j].page < r.value.file[k].page && r.value.file[j].frame < r.value.file[k].frame
  {
  }

  /**
   * A segment whose memory image is larger than its file gets a fresh
   * frame for exactly the pages that start inside `[vs + filesz, vs + memsz)`.
   */
  lemma BssPages(kernelStart: nat, vbase: nat, ph: Elf.ProgramHeader, p: nat)
    requires AllocateSegment(kernelStart, vbase, ph).Completed? && ph.memsz > ph.filesz
    ensures var vs := vbase + ph.vaddr;
            p in AllocateSegment(kernelStart, vbase, ph).value.bss <==> vs + ph.filesz <= p * PAGE < vs + ph.memsz
  {
  }

  /** `BssZeroed` over the addresses alone. */
  lemma ZeroedAt(vs: nat, filesz: nat, memsz: nat, a: nat)
    requires vs + filesz <= a < vs + memsz
    ensures var t := ZeroTail(vs, filesz);
            (t.Some? && a / PAGE == t.value.page && a % PAGE >= t.value.from) || a / PAGE in BssPageList(vs, filesz, memsz)
    ensures var t := ZeroTail(vs, filesz); t.Some? ==> t.value.page * PAGE + t.value.from == vs + filesz
  {
    var zs := vs + filesz;
    if zs % PAGE != 0 {
      assert (zs - 1) / PAGE == zs / PAGE;
    }
  }

  /**
   * The zeroing covers the whole .bss: every byte from `vs + filesz` to
   * `vs + memsz - 1` is either in the partly zeroed last file page at or
   * after the zero-fill offset, or in a fresh page. The partial zeroing
   * starts exactly at `vs + filesz`, so no file byte is cleared.
   */
  lemma BssZeroed(kernelStart: nat, vbase: nat, ph: Elf.ProgramHeader, a: nat)
    requires AllocateSegment(kernelStart, vbase, ph).Completed?
    requires var vs := vbase + ph.vaddr; vs + ph.filesz <= a < vs + ph.memsz
    ensures var s := AllocateSegment(kernelStart, vbase, ph).value;
            (s.tail.Some? && a / PAGE == s.tail.value.page && a % PAGE >= s.tail.value.from) || a / PAGE in s.bss
    ensures var s := AllocateSegment(kernelStart, vbase, ph).value;
            s.tail.Some? ==> s.tail.value.page * PAGE + s.tail.value.from == vbase + ph.vaddr + ph.filesz
  {
    BssPlan(kernelStart, vbase, ph);
    ZeroedIn(AllocateSegment(kernelStart, vbase, ph).value, vbase + ph.vaddr, ph.filesz, ph.memsz, a);
  }

  /** `ZeroedAt` for a plan holding that zero-fill and those .bss pages. */
  lemma ZeroedIn(s: SegmentLoad, vs: nat, filesz: nat, memsz: nat, a: nat)
    requires memsz > filesz && s.tail == ZeroTail(vs, filesz) && s.bss == BssPageList(vs, filesz, memsz)
    requires vs + filesz <= a < vs + memsz
    ensures (s.tail.Some? && a / PAGE == s.tail.value.page && a % PAGE >= s.tail.value.from) || a / PAGE in s.bss
    ensures s.tail.Some? ==> s.tail.value.page * PAGE + s.tail.value.from == vs + filesz
  {
    ZeroedAt(vs, filesz, memsz, a);
  }

  /** A completed plan with a .bss zeroes from `vs + filesz` and maps the pages after it. */
  lemma BssPlan(kernelStart: nat, vbase: nat, ph: Elf.ProgramHeader)
    requires AllocateSegment(kernelStart, vbase, ph).Completed? && ph.memsz > ph.filesz
    ensures var s, vs := AllocateSegment(kernelStart, vbase, ph).value, vbase + ph.vaddr;
            s.tail == ZeroTail(vs, ph.filesz) && s.bss == BssPageList(vs, ph.filesz, ph.memsz)
  {
  }

  /** `BssAfterFile` over the addresses alone. */
  lemma TailIsLastFilePage(ps: nat, vs: nat, filesz: nat, memsz: nat)
    requires ps % PAGE == vs % PAGE && ps + filesz > 0 && memsz > filesz
    ensures var file, t := FileMappings(ps, vs, filesz), ZeroTail(vs, filesz);
            t.Some? ==> |file| > 0 && file[|file| - 1].page == t.value.page
    ensures var file := FileMappings(ps, vs, filesz);
            forall m, p :: m in file && p in BssPageList(vs, filesz, memsz) ==> m.page < p
  {
    var o := ps % PAGE;
    DivShift(ps / PAGE, o, filesz + PAGE - 1);
    DivShift(vs / PAGE, o, filesz + PAGE - 1);
  }

  /**
   * With congruent offsets the page that gets partly zeroed is the last
   * file-backed page, so its translation exists, and no fresh .bss page
   * is one of the file-backed pages.
   */
  lemma BssAfterFile(kernelStart: nat, vbase: nat, ph: Elf.ProgramHeader)
    requires Congruent(kernelStart, vbase, ph) && AllocateSegment(kernelStart, vbase, ph).Completed?
    ensures var s := AllocateSegment(kernelStart, vbase, ph).value;
            s.tail.Some? ==> |s.file| > 0 && s.file[|s.file| - 1].page == s.tail.value.page
    ensures var s := AllocateSegment(kernelStart, vbase, ph).value;
            forall m, p :: m in s.file && p in s.bss ==> m.page < p
  {
    if ph.memsz > ph.filesz {
      TailIsLastFilePage(kernelStart + ph.offset, vbase + ph.vaddr, ph.filesz, ph.memsz);
    }
  }

  /** `allocate` over the loadable headers, in order; the first panic stops it. */
  function AllocateAll(kernelStart: nat, vbase: nat, phs: seq<Elf.ProgramHeader>): (r: Step<seq<SegmentLoad>>)
    ensures r.Completed? ==> |r.value| == |phs|
    decreases |phs|
  {
    if phs == [] then Completed([])
    else
      var first := AllocateSegment(kernelStart, vbase, phs[0]);
      var rest := AllocateAll(kernelStart, vbase, phs[1..]);
      if first.Panicked? || rest.Panicked? then Panicked
      else Completed([first.value] + rest.value)
  }

  /** Loading completes exactly when no segment panics, and then holds each segment's load in order. */
  lemma {:induction false} AllocateAllSegments(kernelStart: nat, vbase: nat, phs: seq<Elf.ProgramHeader>)
    ensures var r := AllocateAll(kernelStart, vbase, phs);
            r.Completed? <==> forall k :: 0 <= k < |phs| ==> AllocateSegment(kernelStart, vbase, phs[k]).Completed?
    ensures var r := AllocateAll(kernelStart, vbase, phs);
            r.Completed? ==> forall k :: 0 <= k < |phs| ==> r.value[k] == AllocateSegment(kernelStart, vbase, phs[k]).value
    decreases |phs|
  {
    if phs != [] {
      AllocateAllSegments(kernelStart, vbase, phs[1..]);
      assert forall k :: 1 <= k < |phs| ==> phs[k] == phs[1..][k - 1];
    }
  }

  // ---------------------------------------------------------------------------
  // Performing the calls

  /**
   * What the calls of `allocate` act on: the page table, as page number to
   * frame number, and the frames the frame allocator has left, in the
   * order it hands them out.
   */
  datatype LoadState = LoadState(table: map<nat, nat>, frames: seq<nat>)

  /** The page numbers of a list of mappings. */
  function PagesOf(ms: seq<Mapping>): (ps: seq<nat>)
    ensures |ps| == |ms| && forall k :: 0 <= k < |ms| ==> ps[k] == ms[k].page
  {
    seq(|ms|, k requires 0 <= k < |ms| => ms[k].page)
  }

  /** The page numbers of a list of mappings, as a set. */
  function PageSet(ms: seq<Mapping>): set<nat> {
    set m | m in ms :: m.page
  }

  /** None of `pages` is in `used`, and none repeats: no `map_to` meets an already mapped page. */
  predicate FreshPages(used: set<nat>, pages: seq<nat>) {
    (forall k :: 0 <= k < |pages| ==> pages[k] !in used)
    && (forall j, k :: 0 <= j < k < |pages| ==> pages[j] != pages[k])
  }

  /**
   * The file loop of `allocate`: `map_to` of each frame at its page.
   * `map_to` fails on a page that is already mapped, and the `expect`
   * turns that into a panic (`None`).
   */
  function MapFile(table: map<nat, nat>, ms: seq<Mapping>): Option<map<nat, nat>>
    decreases |ms|
  {
    if ms == [] then Some(table)
    else if ms[0].page in table then None
    else MapFile(table[ms[0].page := ms[0].frame], ms[1..])
  }

  /**
   * The .bss loop of `allocate`: for each page, take a frame from the
   * frame allocator (`expect`: panics when it is empty), then `map_to` it
   * (panics when the page is already mapped).
   */
  function MapBss(s: LoadState, pages: seq<nat>): Step<LoadState>
    decreases |pages|
  {
    if pages == [] then Completed(s)
    else if |s.frames| == 0 || pages[0] in s.table then Panicked
    else MapBss(LoadState(s.table[pages[0] := s.frames[0]], s.frames[1..]), pages[1..])
  }

  /** The file loop panics exactly on an already mapped or repeated page, and otherwise adds every mapping and keeps the old ones. */
  lemma {:induction false} MapFileSpec(table: map<nat, nat>, ms: seq<Mapping>)
    ensures MapFile(table, ms).Some? <==> FreshPages(table.Keys, PagesOf(ms))
    ensures MapFile(table, ms).Some? ==>
              var t := MapFile(table, ms).value;
              t.Keys == table.Keys + PageSet(ms)
              && (forall p :: p in table ==> t[p] == table[p])
              && (forall k :: 0 <= k < |ms| ==> t[ms[k].page] == ms[k].frame)
    decreases |ms|
  {
    if ms != [] {
      var t1 := table[ms[0].page := ms[0].frame];
      MapFileSpec(t1, ms[1..]);
      assert forall k :: 1 <= k < |ms| ==> ms[k] == ms[1..][k - 1];
      if ms[0].page !in table {
        assert FreshPages(table.Keys, PagesOf(ms)) <==> FreshPages(t1.Keys, PagesOf(ms[1..])) by {
          if FreshPages(t1.Keys, PagesOf(ms[1..])) {
            forall j, k | 0 <= j < k < |ms| ensures ms[j].page != ms[k].page {
              if j > 0 {
                assert PagesOf(ms[1..])[j - 1] == ms[j].page;
              }
              assert PagesOf(ms[1..])[k - 1] == ms[k].page;
            }
          }
        }
        if MapFile(table, ms).Some? {
          var t := MapFile(table, ms).value;
          assert ms == [ms[0]] + ms[1..];
          assert PageSet(ms) == {ms[0].page} + PageSet(ms[1..]);
          forall k | 0 <= k < |ms| ensures t[ms[k].page] == ms[k].frame {
            if k == 0 {
              assert PagesOf(ms[1..]) == PagesOf(ms)[1..];
            }
          }
        }
      } else {
        assert PagesOf(ms)[0] in table.Keys;
      }
    }
  }

  /**
   * The .bss loop panics exactly when the allocator has fewer frames than
   * there are pages or a page is already mapped or repeated; otherwise
   * page `k` gets the `k`-th frame, the old mappings stay, and those
   * frames are used up.
   */
  lemma MapBssSpec(s: LoadState, pages: seq<nat>)
    ensures MapBss(s, pages).Completed? <==> |pages| <= |s.frames| && FreshPages(s.table.Keys, pages)
    ensures MapBss(s, pages).Completed? ==>
              var r := MapBss(s, pages).value;
              r.frames == s.frames[|pages|..]
              && r.table.Keys == s.table.Keys + (set p | p in pages)
              && (forall p :: p in s.table ==> r.table[p] == s.table[p])
              && (forall k :: 0 <= k < |pages| ==> r.table[pages[k]] == s.frames[k])
  {
    MapBssPanics(s, pages);
    if MapBss(s, pages).Completed? {
      MapBssResult(s, pages);
    }
  }

  /** The panic half of `MapBssSpec`. */
  lemma {:induction false} MapBssPanics(s: LoadState, pages: seq<nat>)
    ensures MapBss(s, pages).Completed? <==> |pages| <= |s.frames| && FreshPages(s.table.Keys, pages)
    decreases |pages|
  {
    if pages != [] && |s.frames| > 0 && pages[0] !in s.table {
      var s1 := LoadState(s.table[pages[0] := s.frames[0]], s.frames[1..]);
      MapBssPanics(s1, pages[1..]);
      assert forall k :: 1 <= k < |pages| ==> pages[k] == pages[1..][k - 1];
      assert FreshPages(s.table.Keys, pages) <==> FreshPages(s1.table.Keys, pages[1..]);
    } else if pages != [] && pages[0] in s.table {
      assert !FreshPages(s.table.Keys, pages);
    }
  }

  /** The result half of `MapBssSpec`. */
  lemma {:induction false} MapBssResult(s: LoadState, pages: seq<nat>)
    requires MapBss(s, pages).Completed?
    ensures |pages| <= |s.frames|
    ensures var r := MapBss(s, pages).value;
            r.frames == s.frames[|pages|..]
            && r.table.Keys == s.table.Keys + (set p | p in pages)
            && (forall p :: p in s.table ==> r.table[p] == s.table[p])
            && (forall k :: 0 <= k < |pages| ==> r.table[pages[k]] == s.frames[k])
    decreases |pages|
  {
    if pages != [] {
      assert |s.frames| > 0 && pages[0] !in s.table;
      var s1 := LoadState(s.table[pages[0] := s.frames[0]], s.frames[1..]);
      assert MapBss(s, pages) == MapBss(s1, pages[1..]);
      MapBssResult(s1, pages[1..]);
      assert forall k :: 1 <= k < |pages| ==> pages[k] == pages[1..][k - 1];
      assert pages == [pages[0]] + pages[1..];
      assert (set p | p in pages) == {pages[0]} + (set p | p in pages[1..]);
      assert s.frames[1..][|pages| - 1..] == s.frames[|pages|..];
    }
  }


  /**
   * `allocate` for one segment's calls: the file loop, the `translate` of
   * the partly zeroed page (`expect`: panics when it is not mapped), then
   * the .bss loop.
   */
  function RunSegment(s: LoadState, load: SegmentLoad): Step<LoadState> {
    match MapFile(s.table, load.file)
    case None => Panicked
    case Some(t) =>
      if load.tail.Some? && load.tail.value.page !in t then Panicked
      else MapBss(LoadState(t, s.frames), load.bss)
  }

  /** The page numbers a segment's calls map. */
  function LoadPages(load: SegmentLoad): set<nat> {
    PageSet(load.file) + (set p | p in load.bss)
  }

  /**
   * One segment's calls panic exactly when a file page is mapped already
   * or twice, the partly zeroed page is not among the mapped pages, or the
   * .bss loop panics; when they complete, the file pages hold their
   * frames, the .bss pages hold fresh frames in order, and every earlier
   * mapping is kept.
   */
  lemma RunSegmentSpec(s: LoadState, load: SegmentLoad)
    ensures var fileSet := PageSet(load.file);
            RunSegment(s, load).Completed? <==>
              FreshPages(s.table.Keys, PagesOf(load.file))
              && (load.tail.Some? ==> load.tail.value.page in s.table || load.tail.value.page in fileSet)
              && |load.bss| <= |s.frames| && FreshPages(s.table.Keys + fileSet, load.bss)
    ensures RunSegment(s, load).Completed? ==>
              var r := RunSegment(s, load).value;
              r.table.Keys == s.table.Keys + LoadPages(load)
              && (forall p :: p in s.table ==> r.table[p] == s.table[p])
              && (forall k :: 0 <= k < |load.file| ==> r.table[load.file[k].page] == load.file[k].frame)
              && (forall k :: 0 <= k < |load.bss| ==> r.table[load.bss[k]] == s.frames[k])
              && r.frames == s.frames[|load.bss|..]
  {
    MapFileSpec(s.table, load.file);
    if MapFile(s.table, load.file).Some? {
      var t := MapFile(s.table, load.file).value;
      MapBssSpec(LoadState(t, s.frames), load.bss);
    }
  }

  /** `allocate` for one header: its arithmetic, then its calls. */
  function LoadSegment(s: LoadState, kernelStart: nat, vbase: nat, ph: Elf.ProgramHeader): Step<LoadState> {
    match AllocateSegment(kernelStart, vbase, ph)
    case Panicked => Panicked
    case Completed(load) => RunSegment(s, load)
  }

  /** The pages of `first ..= last` strictly increase. */
  lemma PageRangeIncreasing(first: nat, last: nat)
    ensures forall j, k :: 0 <= j < k < |PageRange(first, last)| ==> PageRange(first, last)[j] < PageRange(first, last)[k]
  {
  }

  /**
   * For a segment whose file bytes have the same in-page offset in the
   * image and in virtual memory, loading panics exactly when the
   * arithmetic panics, a page it maps is already mapped, or the frame
   * allocator has fewer frames than the .bss has pages: the partly zeroed
   * page is always the last file page, and no page is mapped twice.
   */
  lemma CongruentSegmentLoads(s: LoadState, kernelStart: nat, vbase: nat, ph: Elf.ProgramHeader)
    requires Congruent(kernelStart, vbase, ph)
    ensures var r := AllocateSegment(kernelStart, vbase, ph);
            LoadSegment(s, kernelStart, vbase, ph).Completed? <==>
              r.Completed? && (forall p :: p in LoadPages(r.value) ==> p !in s.table) && |r.value.bss| <= |s.frames|
  {
    var r := AllocateSegment(kernelStart, vbase, ph);
    if r.Completed? {
      CongruentPlanOrdered(kernelStart, vbase, ph);
      OrderedRuns(s, r.value);
    }
  }

  /** A congruent segment's completed plan is in the order `OrderedRuns` needs. */
  lemma CongruentPlanOrdered(kernelStart: nat, vbase: nat, ph: Elf.ProgramHeader)
    requires Congruent(kernelStart, vbase, ph) && AllocateSegment(kernelStart, vbase, ph).Completed?
    ensures OrderedPlan(AllocateSegment(kernelStart, vbase, ph).value)
  {
    FileMappingsDistinct(kernelStart, vbase, ph);
    BssAfterFile(kernelStart, vbase, ph);
    if ph.memsz > ph.filesz {
      var vs := vbase + ph.vaddr;
      BssPlan(kernelStart, vbase, ph);
      PageRangeIncreasing(CeilPage(vs + ph.filesz), (vs + ph.memsz - 1) / PAGE);
    }
  }

  /** The page order a congruent segment's plan has: file pages, then .bss pages, each increasing. */
  predicate OrderedPlan(load: SegmentLoad) {
    (forall j, k :: 0 <= j < k < |load.file| ==> load.file[j].page < load.file[k].page)
    && (forall j, k :: 0 <= j < k < |load.bss| ==> load.bss[j] < load.bss[k])
    && (forall m, p :: m in load.file && p in load.bss ==> m.page < p)
    && (load.tail.Some? ==> |load.file| > 0 && load.file[|load.file| - 1].page == load.tail.value.page)
  }

  /** A plan in that order runs exactly when none of its pages is mapped and the .bss has enough frames. */
  lemma OrderedRuns(s: LoadState, load: SegmentLoad)
    requires OrderedPlan(load)
    ensures RunSegment(s, load).Completed? <==>
              (forall p :: p in LoadPages(load) ==> p !in s.table) && |load.bss| <= |s.frames|
  {
    RunSegmentSpec(s, load);
    if load.tail.Some? {
      assert load.file[|load.file| - 1] in load.file;
    }
    assert forall p :: p in load.bss ==> p !in PageSet(load.file);
  }

  /** `allocate` over the loadable headers, in order, on one page table and frame allocator; the first panic stops it. */
  function LoadAll(s: LoadState, kernelStart: nat, vbase: nat, phs: seq<Elf.ProgramHeader>): Step<LoadState>
    decreases |phs|
  {
    if phs == [] then Completed(s)
    else match LoadSegment(s, kernelStart, vbase, phs[0])
      case Panicked => Panicked
      case Completed(s1) => LoadAll(s1, kernelStart, vbase, phs[1..])
  }

  /** Loading never changes or removes a mapping that was there before. */
  lemma {:induction false} LoadAllKeeps(s: LoadState, kernelStart: nat, vbase: nat, phs: seq<Elf.ProgramHeader>)
    requires LoadAll(s, kernelStart, vbase, phs).Completed?
    ensures forall p :: p in s.table ==> p in LoadAll(s, kernelStart, vbase, phs).value.table
                                          && LoadAll(s, kernelStart, vbase, phs).value.table[p] == s.table[p]
    decreases |phs|
  {
    if phs != [] {
      LoadAllFirst(s, kernelStart, vbase, phs);
      var s1 := LoadSegment(s, kernelStart, vbase, phs[0]).value;
      RunSegmentSpec(s, AllocateSegment(kernelStart, vbase, phs[0]).value);
      LoadAllKeeps(s1, kernelStart, vbase, phs[1..]);
    }
  }

  /** File byte `i` of `ph`: the page of its virtual address is mapped to the frame of its image byte. */
  predicate FileByteMapped(t: map<nat, nat>, kernelStart: nat, vbase: nat, ph: Elf.ProgramHeader, i: nat) {
    var ps, vs := kernelStart + ph.offset, vbase + ph.vaddr;
    (vs + i) / PAGE in t && t[(vs + i) / PAGE] == (ps + i) / PAGE
  }

  /** A load that completes has loaded its first segment, and continues from there. */
  lemma LoadAllFirst(s: LoadState, kernelStart: nat, vbase: nat, phs: seq<Elf.ProgramHeader>)
    requires phs != [] && LoadAll(s, kernelStart, vbase, phs).Completed?
    ensures LoadSegment(s, kernelStart, vbase, phs[0]).Completed?
    ensures LoadAll(s, kernelStart, vbase, phs) == LoadAll(LoadSegment(s, kernelStart, vbase, phs[0]).value, kernelStart, vbase, phs[1..])
  {
  }

  /**
   * After loading completes, every file byte of every segment with
   * congruent offsets is reachable: the page holding its virtual address
   * is mapped to the frame holding its image byte.
   */
  lemma {:induction false} LoadAllMapsFiles(s: LoadState, kernelStart: nat, vbase: nat, phs: seq<Elf.ProgramHeader>, k: nat, i: nat)
    requires LoadAll(s, kernelStart, vbase, phs).Completed?
    requires k < |phs| && Congruent(kernelStart, vbase, phs[k]) && i < phs[k].filesz
    ensures FileByteMapped(LoadAll(s, kernelStart, vbase, phs).value.table, kernelStart, vbase, phs[k], i)
    decreases |phs|
  {
    LoadAllFirst(s, kernelStart, vbase, phs);
    var s1 := LoadSegment(s, kernelStart, vbase, phs[0]).value;
    if k == 0 {
      SegmentMapsFile(s, kernelStart, vbase, phs[0], i);
      LoadAllKeeps(s1, kernelStart, vbase, phs[1..]);
    } else {
      assert phs[1..][k - 1] == phs[k];
      LoadAllMapsFiles(s1, kernelStart, vbase, phs[1..], k - 1, i);
    }
  }

  /** `LoadAllMapsFiles` for the segment just loaded. */
  lemma SegmentMapsFile(s: LoadState, kernelStart: nat, vbase: nat, ph: Elf.ProgramHeader, i: nat)
    requires LoadSegment(s, kernelStart, vbase, ph).Completed?
    requires Congruent(kernelStart, vbase, ph) && i < ph.filesz
    ensures FileByteMapped(LoadSegment(s, kernelStart, vbase, ph).value.table, kernelStart, vbase, ph, i)
  {
    var load := AllocateSegment(kernelStart, vbase, ph).value;
    var ps, vs := kernelStart + ph.offset, vbase + ph.vaddr;
    var m := Mapping((ps + i) / PAGE, (vs + i) / PAGE);
    assert LoadSegment(s, kernelStart, vbase, ph) == RunSegment(s, load);
    FileMapped(kernelStart, vbase, ph, i);
    MappingKept(s, load, m);
  }

  /** Each file mapping of a plan that runs is in the resulting table. */
  lemma MappingKept(s: LoadState, load: SegmentLoad, m: Mapping)
    requires RunSegment(s, load).Completed? && m in load.file
    ensures m.page in RunSegment(s, load).value.table && RunSegment(s, load).value.table[m.page] == m.frame
  {
    RunSegmentSpec(s, load);
    var j :| 0 <= j < |load.file| && load.file[j] == m;
    assert m.page in PageSet(load.file);
  }

  /**
   * A segment with a .bss page and an empty frame allocator panics in
   * `allocate_frame`'s `expect`, although its arithmetic and its file
   * mapping are fine.
   */
  lemma BssWithoutFramesPanics()
    ensures var ph := Elf.ProgramHeader(Elf.Load, 0, 0, 0, 0, 0x1000, 0x2000, 0x1000);
            AllocateSegment(0x10_0000, 0x4000_0000, ph).Completed?
            && LoadSegment(LoadState(map[], []), 0x10_0000, 0x4000_0000, ph).Panicked?
  {
    var ph := Elf.ProgramHeader(Elf.Load, 0, 0, 0, 0, 0x1000, 0x2000, 0x1000);
    var load := AllocateSegment(0x10_0000, 0x4000_0000, ph).value;
    BssPages(0x10_0000, 0x4000_0000, ph, 0x4000_1);
    CongruentSegmentLoads(LoadState(map[], []), 0x10_0000, 0x4000_0000, ph);
  }

  /**
   * `virtual_start_address + mem_size` is added before the `- 1`, so a
   * .bss reaching exactly 2^64 panics; one byte shorter completes.
   */
  lemma MemSizeSumPanics()
    ensures var ph := Elf.ProgramHeader(Elf.Load, 0, 0, 1, 0, 0, U64_LIMIT - 1, 0x1000);
            AllocateSegment(0x10_0000, 0, ph).Panicked?
    ensures var ph := Elf.ProgramHeader(Elf.Load, 0, 0, 1, 0, 0, U64_LIMIT - 2, 0x1000);
            AllocateSegment(0x10_0000, 0, ph).Completed?
  {
  }

  /**
   * A segment without .bss whose two file pages are the last page below
   * 2^64 and the one after it panics in `start_page + frame_offset` for
   * the second frame, while the same segment with one page of file
   * completes.
   */
  lemma PageSumPanics()
    ensures var ph := Elf.ProgramHeader(Elf.Load, 0, 0, U64_LIMIT - PAGE, 0, 0x2000, 0x2000, 0x1000);
            Congruent(0, 0, ph) && AllocateSegment(0, 0, ph).Panicked?
    ensures var ph := Elf.ProgramHeader(Elf.Load, 0, 0, U64_LIMIT - PAGE, 0, 0x1000, 0x1000, 0x1000);
            AllocateSegment(0, 0, ph).Completed?
  {
  }

  /**
   * With congruent offsets, the page `start_page + frame_offset` of the
   * last file frame reaches 2^64 exactly when the file bytes placed at the
   * virtual start run past 2^64.
   */
  lemma CongruentPageSum(ps: nat, vs: nat, filesz: nat)
    requires ps % PAGE == vs % PAGE && ps + filesz > 0 && vs < U64_LIMIT
    ensures (vs / PAGE + (ps + filesz - 1) / PAGE - ps / PAGE) * PAGE >= U64_LIMIT <==> vs + filesz > U64_LIMIT
  {
    var o := ps % PAGE;
    if filesz > 0 {
      DivShift(ps / PAGE, o, filesz - 1);
      DivShift(vs / PAGE, o, filesz - 1);
      var last := (vs + filesz - 1) / PAGE;
      assert vs / PAGE + (ps + filesz - 1) / PAGE - ps / PAGE == last;
      LastPageReaches(vs + filesz - 1);
    } else if o > 0 {
      assert (ps - 1) / PAGE == ps / PAGE;
    }
  }

  /** The page holding byte `a` starts at or above 2^64 exactly when `a` does. */
  lemma LastPageReaches(a: nat)
    ensures (a / PAGE) * PAGE >= U64_LIMIT <==> a >= U64_LIMIT
  {
  }

  // ---------------------------------------------------------------------------
  // Relative relocations

  /** Copy `bytes` to offset `offset` of frame number `frame`. */
  datatype Write = Write(frame: nat, offset: nat, bytes: seq<byte>)

  /**
   * The loop over the pages `page ..= last` of `handle_relative_relocation`,
   * `written` bytes of `value` stored so far. `Page::end` is taken as the
   * first address past the page.
   */
  function WritePages(translate: nat -> Option<nat>, va: nat, value: seq<byte>, page: nat, last: nat, written: nat): (r: Option<seq<Write>>)
    requires |value| == 8
    decreases last + 1 - page
  {
    if page > last then Some([])
    else match translate(page)
      case None => None
      case Some(frame) =>
        var pageStart := page * PAGE;
        var offset := if va > pageStart then va - pageStart else 0;
        var spans := va + 8 > pageStart + PAGE;
        if (spans && pageStart + PAGE < va) || (!spans && written > 8) then None
        else
          var count := if spans then pageStart + PAGE - va else 8 - written;
          if written + count > 8 then None
          else match WritePages(translate, va, value, page + 1, last, written + count)
            case None => None
            case Some(rest) => Some([Write(frame, offset, value[written..written + count])] + rest)
  }

  /** `(vbase + addend).to_ne_bytes()` on x86-64: the 8 little-endian bytes of the sum. */
  function RelocationValue(vbase: nat, addend: nat): (v: seq<byte>)
    requires vbase + addend < U64_LIMIT
    ensures |v| == 8 && Le(v) == vbase + addend
  {
    assert Pow256(8) == U64_LIMIT;
    LeToLe(vbase + addend, 8);
    ToLe(vbase + addend, 8)
  }

  /** The u64 sums of `handle_relative_relocation` that overflow: `vbase + addend`, and `vbase + offset` plus the 8 value bytes. */
  predicate RelocationOverflows(vbase: nat, rel: Elf.Relocation)
    requires rel.addend.Some?
  {
    vbase + rel.addend.value >= U64_LIMIT || vbase + rel.offset + 8 >= U64_LIMIT
  }

  /**
   * `handle_relative_relocation` with the last page taken as the one
   * holding `va + endSpan`: the source uses `endSpan == 8`, the page of the
   * first byte past the value.
   */
  function HandleRelativeWith(translate: nat -> Option<nat>, vbase: nat, rel: Elf.Relocation, endSpan: nat): Option<seq<Write>> {
    if rel.addend.None? || RelocationOverflows(vbase, rel) then None
    else
      var value := RelocationValue(vbase, rel.addend.value);
      var va := vbase + rel.offset;
      WritePages(translate, va, value, va / PAGE, (va + endSpan) / PAGE, 0)
  }

  function HandleRelativeAsWritten(translate: nat -> Option<nat>, vbase: nat, rel: Elf.Relocation): Option<seq<Write>> {
    HandleRelativeWith(translate, vbase, rel, 8)
  }

  /** The last page is the one holding the value's last byte. */
  function HandleRelative(translate: nat -> Option<nat>, vbase: nat, rel: Elf.Relocation): Option<seq<Write>> {
    HandleRelativeWith(translate, vbase, rel, 7)
  }

  /** Byte `b` is among the writes, at `offset` of frame `frame`. */
  ghost predicate Stores(ws: seq<Write>, frame: nat, offset: nat, b: byte) {
    exists k :: 0 <= k < |ws| && ws[k].frame == frame && ws[k].offset <= offset < ws[k].offset + |ws[k].bytes|
                && ws[k].bytes[offset - ws[k].offset] == b
  }

  /**
   * The writes hold exactly the 8 bytes of `value`, over at most two
   * pages, byte `j` at the in-page offset of `va + j` in the frame the page
   * of `va + j` translates to.
   */
  ghost predicate StoresValue(ws: seq<Write>, translate: nat -> Option<nat>, va: nat, value: seq<byte>)
    requires |value| == 8
  {
    TotalBytes(ws) == 8 && 1 <= |ws| <= 2
    && forall j :: 0 <= j < 8 ==> translate((va + j) / PAGE).Some? && Stores(ws, translate((va + j) / PAGE).value, (va + j) % PAGE, value[j])
  }

  function TotalBytes(ws: seq<Write>): nat
    decreases |ws|
  {
    if ws == [] then 0 else |ws[0].bytes| + TotalBytes(ws[1..])
  }

  /** The pages translated for a relocation at `va` hold its 8 bytes. */
  predicate BothMapped(translate: nat -> Option<nat>, va: nat) {
    translate(va / PAGE).Some? && translate((va + 7) / PAGE).Some?
  }

  /** A value wholly inside page `p` is one write at its in-page offset. */
  lemma WritesSingle(translate: nat -> Option<nat>, va: nat, value: seq<byte>, p: nat)
    requires |value| == 8 && p == va / PAGE && va % PAGE + 8 <= PAGE && translate(p).Some?
    ensures WritePages(translate, va, value, p, p, 0) == Some([Write(translate(p).value, va % PAGE, value)])
  {
    assert va == p * PAGE + va % PAGE;
    assert !(va + 8 > p * PAGE + PAGE);
    assert WritePages(translate, va, value, p + 1, p, 8) == Some([]);
    assert value[0..8] == value;
    var frame := translate(p).value;
    var offset := if va > p * PAGE then va - p * PAGE else 0;
    assert offset == va % PAGE;
    var count := 8 - 0;
    var w := Write(frame, offset, value[0..count]);
    assert [w] + [] == [w];
  }

  /** A value crossing into page `p + 1` is split at the page end. */
  lemma WritesSplit(translate: nat -> Option<nat>, va: nat, value: seq<byte>, p: nat)
    requires |value| == 8 && p == va / PAGE && va % PAGE + 8 > PAGE
    requires translate(p).Some? && translate(p + 1).Some?
    ensures var n := PAGE - va % PAGE;
            WritePages(translate, va, value, p, p + 1, 0)
              == Some([Write(translate(p).value, va % PAGE, value[..n]), Write(translate(p + 1).value, 0, value[n..])])
  {
    var n := PAGE - va % PAGE;
    var w0 := Write(translate(p).value, va % PAGE, value[..n]);
    var w1 := Write(translate(p + 1).value, 0, value[n..]);
    assert [w1] + [] == [w1];
    assert [w0] + [w1] == [w0, w1];
    assert value[0..n] == value[..n];
    assert value[n..8] == value[n..];
    assert va == p * PAGE + va % PAGE;
    assert (p + 1) * PAGE == p * PAGE + PAGE;
    assert WritePages(translate, va, value, p + 2, p + 1, 8) == Some([]);
    assert !(va + 8 > (p + 1) * PAGE + PAGE) && !(va > (p + 1) * PAGE);
    assert WritePages(translate, va, value, p + 1, p + 1, n) == Some([w1]);
    assert va + 8 > p * PAGE + PAGE;
  }

  /**
   * A RELATIVE relocation with an addend, whose pages are mapped, stores
   * the 8 bytes of `RelocationValue` so that
   * byte `j` lands at the in-page offset of `va + j` in the frame the
   * page of `va + j` translates to: 8 bytes in all, split over at most
   * two pages.
   */
  lemma RelativeStores(translate: nat -> Option<nat>, vbase: nat, rel: Elf.Relocation)
    requires rel.addend.Some? && !RelocationOverflows(vbase, rel) && BothMapped(translate, vbase + rel.offset)
    ensures var va := vbase + rel.offset;
            var value := RelocationValue(vbase, rel.addend.value);
            var r := HandleRelative(translate, vbase, rel);
            r.Some? && StoresValue(r.value, translate, va, value)
  {
    var va := vbase + rel.offset;
    var value := RelocationValue(vbase, rel.addend.value);
    assert HandleRelative(translate, vbase, rel) == WritePages(translate, va, value, va / PAGE, (va + 7) / PAGE, 0);
    ValueStores(translate, va, value);
  }

  /** `RelativeStores` for any 8-byte value. */
  lemma ValueStores(translate: nat -> Option<nat>, va: nat, value: seq<byte>)
    requires |value| == 8 && BothMapped(translate, va)
    ensures var r := WritePages(translate, va, value, va / PAGE, (va + 7) / PAGE, 0);
            r.Some? && StoresValue(r.value, translate, va, value)
  {
    var p := va / PAGE;
    var o := va % PAGE;
    assert va == p * PAGE + o;
    if o + 8 <= PAGE {
      assert (va + 7) / PAGE == p by { DivShift(p, o, 7); }
      WritesSingle(translate, va, value, p);
      StoresSingle(translate, va, value, p);
    } else {
      assert (va + 7) / PAGE == p + 1 by { DivShift(p, o, 7); }
      WritesSplit(translate, va, value, p);
      StoresSplit(translate, va, value, p);
    }
  }

  lemma StoresSingle(translate: nat -> Option<nat>, va: nat, value: seq<byte>, p: nat)
    requires |value| == 8 && p == va / PAGE && va % PAGE + 8 <= PAGE && translate(p).Some?
    ensures StoresValue([Write(translate(p).value, va % PAGE, value)], translate, va, value)
  {
    var o := va % PAGE;
    var ws := [Write(translate(p).value, o, value)];
    assert TotalBytes(ws[1..]) == 0;
    forall j | 0 <= j < 8
      ensures translate((va + j) / PAGE).Some? && Stores(ws, translate((va + j) / PAGE).value, (va + j) % PAGE, value[j])
    {
      DivShift(p, o, j);
      assert va + j == p * PAGE + o + j;
      assert ws[0].bytes[(va + j) % PAGE - o] == value[j];
    }
  }

  lemma StoresSplit(translate: nat -> Option<nat>, va: nat, value: seq<byte>, p: nat)
    requires |value| == 8 && p == va / PAGE && va % PAGE + 8 > PAGE
    requires translate(p).Some? && translate(p + 1).Some?
    ensures var n := PAGE - va % PAGE;
            StoresValue([Write(translate(p).value, va % PAGE, value[..n]), Write(translate(p + 1).value, 0, value[n..])], translate, va, value)
  {
    var o := va % PAGE;
    var n := PAGE - o;
    var ws := [Write(translate(p).value, o, value[..n]), Write(translate(p + 1).value, 0, value[n..])];
    assert ws[1..][1..] == [];
    assert TotalBytes(ws[1..]) == 8 - n;
    forall j | 0 <= j < 8
      ensures translate((va + j) / PAGE).Some? && Stores(ws, translate((va + j) / PAGE).value, (va + j) % PAGE, value[j])
    {
      SplitByteStored(translate, va, value, p, j);
    }
  }

  /** Byte `j` of a page-crossing value is in the first write before the page end and in the second after it. */
  lemma SplitByteStored(translate: nat -> Option<nat>, va: nat, value: seq<byte>, p: nat, j: nat)
    requires |value| == 8 && p == va / PAGE && va % PAGE + 8 > PAGE && j < 8
    requires translate(p).Some? && translate(p + 1).Some?
    ensures var n := PAGE - va % PAGE;
            var ws := [Write(translate(p).value, va % PAGE, value[..n]), Write(translate(p + 1).value, 0, value[n..])];
            translate((va + j) / PAGE).Some? && Stores(ws, translate((va + j) / PAGE).value, (va + j) % PAGE, value[j])
  {
    var o := va % PAGE;
    var n := PAGE - o;
    var ws := [Write(translate(p).value, o, value[..n]), Write(translate(p + 1).value, 0, value[n..])];
    DivShift(p, o, j);
    assert va + j == p * PAGE + o + j;
    if j < n {
      assert ws[0].bytes[(va + j) % PAGE - o] == value[j];
    } else {
      assert ws[1].bytes[(va + j) % PAGE] == value[j];
    }
  }

  /** An overflowing sum panics before anything is written, in both versions. */
  lemma RelocationOverflowPanics(translate: nat -> Option<nat>, vbase: nat, rel: Elf.Relocation)
    requires rel.addend.Some? && RelocationOverflows(vbase, rel)
    ensures HandleRelative(translate, vbase, rel).None? && HandleRelativeAsWritten(translate, vbase, rel).None?
  {
  }

  /** A missing translation of a page holding a byte of the value panics (`expect`). */
  lemma RelativeUnmappedPanics(translate: nat -> Option<nat>, vbase: nat, rel: Elf.Relocation)
    requires rel.addend.Some? && !BothMapped(translate, vbase + rel.offset)
    ensures HandleRelative(translate, vbase, rel).None?
  {
    var va := vbase + rel.offset;
    var p := va / PAGE;
    DivShift(p, va % PAGE, 7);
    if translate(p).Some? && !RelocationOverflows(vbase, rel) {
      var value := RelocationValue(vbase, rel.addend.value);
      assert WritePages(translate, va, value, p + 1, p + 1, PAGE - va % PAGE).None?;
    }
  }

  /**
   * As written, a value ending exactly at a page boundary also visits the
   * next page: it writes no byte there, but translating that page panics
   * when it is not mapped, although the value lies wholly in mapped memory.
   */
  lemma RelativeAtPageEndAsWritten(translate: nat -> Option<nat>, vbase: nat, rel: Elf.Relocation)
    requires rel.addend.Some? && !RelocationOverflows(vbase, rel) && (vbase + rel.offset + 8) % PAGE == 0
    requires BothMapped(translate, vbase + rel.offset) && translate((vbase + rel.offset + 8) / PAGE).None?
    ensures HandleRelativeAsWritten(translate, vbase, rel).None?
    ensures HandleRelative(translate, vbase, rel).Some?
  {
    var va := vbase + rel.offset;
    var p := va / PAGE;
    DivShift(p, va % PAGE, 8);
    var value := RelocationValue(vbase, rel.addend.value);
    assert HandleRelativeAsWritten(translate, vbase, rel) == WritePages(translate, va, value, p, p + 1, 0);
    WholeFirstPage(translate, va, value, p, p + 1);
    assert WritePages(translate, va, value, p + 1, p + 1, 8).None?;
    RelativeStores(translate, vbase, rel);
  }

  /** A value that fits in its first page is written there whole, and the loop goes on with all 8 bytes written. */
  lemma WholeFirstPage(translate: nat -> Option<nat>, va: nat, value: seq<byte>, p: nat, last: nat)
    requires |value| == 8 && p == va / PAGE && va + 8 <= (p + 1) * PAGE && p <= last && translate(p).Some?
    ensures WritePages(translate, va, value, p, last, 0).None? <==> WritePages(translate, va, value, p + 1, last, 8).None?
  {
  }

  /** A concrete case: a relocation at offset 0xff8 with page 1 unmapped. */
  lemma RelativeAtPageEndExample()
    ensures var translate := (p: nat) => if p == 0 then Some(7) else None;
            var rel := Elf.Relocation(Elf.R_X86_64_RELATIVE, 0xff8, 0, Some(0x10));
            HandleRelativeAsWritten(translate, 0, rel).None? && HandleRelative(translate, 0, rel).Some?
  {
    var translate := (p: nat) => if p == 0 then Some(7) else None;
    var rel := Elf.Relocation(Elf.R_X86_64_RELATIVE, 0xff8, 0, Some(0x10));
    RelativeAtPageEndAsWritten(translate, 0, rel);
  }

  /** Away from that boundary the two versions agree. */
  lemma RelativeVersionsAgree(translate: nat -> Option<nat>, vbase: nat, rel: Elf.Relocation)
    requires (vbase + rel.offset + 8) % PAGE != 0
    ensures HandleRelativeAsWritten(translate, vbase, rel) == HandleRelative(translate, vbase, rel)
  {
    var va := vbase + rel.offset;
    DivShift(va / PAGE, va % PAGE, 7);
    DivShift(va / PAGE, va % PAGE, 8);
  }

  /** `relocate`: anything but RELATIVE panics. */
  function Relocate(translate: nat -> Option<nat>, vbase: nat, rel: Elf.Relocation): (r: Option<seq<Write>>)
    ensures rel.rtype != Elf.R_X86_64_RELATIVE ==> r.None?
    ensures rel.rtype == Elf.R_X86_64_RELATIVE && rel.addend.None? ==> r.None?
  {
    if rel.rtype != Elf.R_X86_64_RELATIVE then None else HandleRelative(translate, vbase, rel)
  }

  /** `load_kernel`'s result: the entry point moved by the load base; the u64 sum panics (`None`) when it overflows. */
  function KernelEntry(vbase: nat, b: Elf.ElfBinary): (entry: Option<nat>)
    ensures entry.None? <==> vbase + b.header.entry >= U64_LIMIT
  {
    if vbase + Elf.EntryPoint(b) >= U64_LIMIT then None else Some(vbase + Elf.EntryPoint(b))
  }

  /** For a parsed image, the entry returned is the load base plus the 8-byte `e_entry` field at offset 0x18. */
  lemma EntryFromHeader(vbase: nat, raw: seq<byte>)
    requires Elf.NewBinary(raw).Done?
    ensures var e := KernelEntry(vbase, Elf.NewBinary(raw).value);
            e.Some? ==> |raw| >= 0x40 && e.value == vbase + LeAt(raw, 0x18, 8)
  {
  }

  /** The address `load_kernel` returns is mapped in `t`, to the frame holding the image byte at the entry's offset in `ph`. */
  predicate EntryIsMapped(t: map<nat, nat>, kernelStart: nat, vbase: nat, b: Elf.ElfBinary, ph: Elf.ProgramHeader) {
    var e := KernelEntry(vbase, b);
    e.Some? ==> e.value / PAGE in t && t[e.value / PAGE] == (kernelStart + ph.offset + (b.header.entry - ph.vaddr)) / PAGE
  }

  /**
   * When the entry point lies in the file bytes of a loaded segment with
   * congruent offsets, the address `load_kernel` returns is mapped: its
   * page goes to the frame holding the matching byte of the kernel image.
   */
  lemma EntryMapped(s: LoadState, kernelStart: nat, vbase: nat, b: Elf.ElfBinary, phs: seq<Elf.ProgramHeader>, k: nat)
    requires k < |phs| && Congruent(kernelStart, vbase, phs[k])
    requires phs[k].vaddr <= b.header.entry < phs[k].vaddr + phs[k].filesz
    ensures var r := LoadAll(s, kernelStart, vbase, phs);
            r.Completed? ==> EntryIsMapped(r.value.table, kernelStart, vbase, b, phs[k])
  {
    var r := LoadAll(s, kernelStart, vbase, phs);
    if r.Completed? {
      var ph, i := phs[k], b.header.entry - phs[k].vaddr;
      LoadAllMapsFiles(s, kernelStart, vbase, phs, k, i);
      EntryMappedIn(r.value.table, kernelStart, vbase, b, ph, i);
    }
  }

  /** `EntryMapped` for any table that maps the segment's file byte holding the entry. */
  lemma EntryMappedIn(t: map<nat, nat>, kernelStart: nat, vbase: nat, b: Elf.ElfBinary, ph: Elf.ProgramHeader, i: nat)
    requires ph.vaddr + i == b.header.entry && FileByteMapped(t, kernelStart, vbase, ph, i)
    ensures EntryIsMapped(t, kernelStart, vbase, b, ph)
  {
    assert vbase + ph.vaddr + i == vbase + b.header.entry;
  }

}
