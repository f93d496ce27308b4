/**
 * The page tables stage 3 builds before it enables long mode: one PML4
 * entry pointing to a PDPT whose first ten entries point to ten page
 * directories, each mapping 1 GiB with 2 MiB huge pages, so that the
 * first 10 GiB of virtual memory map onto the same physical addresses
 * (4-level paging, section 4.5 of the Intel 64 and IA-32 Architectures
 * Software Developer's Manual, Volume 3A).
 *
 * Entries are numbers here: the tables and huge pages are aligned, so the
 * `|` of an address with flag bits below 4096 is their sum.
 */
module IdentityPaging {
  import opened Wrappers
  import opened Bytes

  const ENTRY_COUNT: nat := 512
  const PAGE_SIZE: nat := 4096
  const HUGE_PAGE_SIZE: nat := 0x20_0000
  const GIB: nat := 0x4000_0000
  const PML4_SPAN: nat := 0x80_0000_0000
  const DIRECTORY_COUNT: nat := 10

  const PRESENT: nat := 1
  const WRITABLE: nat := 2
  const HUGE_PAGE: nat := 0x80

  /** The three tables: PML4, PDPT and the ten page directories. */
  datatype Tables = Tables(pml4: seq<nat>, pdpt: seq<nat>, pdt: seq<seq<nat>>)

  function EmptyTable(): seq<nat> {
    seq(ENTRY_COUNT, _ => 0)
  }

  predicate WellShaped(t: Tables) {
    |t.pml4| == ENTRY_COUNT && |t.pdpt| == ENTRY_COUNT && |t.pdt| == DIRECTORY_COUNT
    && forall i :: 0 <= i < DIRECTORY_COUNT ==> |t.pdt[i]| == ENTRY_COUNT
  }

  /**
   * `create_mappings` on the empty static tables; `pdpt` is the PDPT's
   * address and `directories` the address of the array of page
   * directories, which lie one after another.
   */
  function CreateMappings(pdpt: nat, directories: nat): (t: Tables)
    ensures WellShaped(t)
  {
    var flags := WRITABLE + PRESENT;
    Tables(
      EmptyTable()[0 := pdpt + flags],
      seq(ENTRY_COUNT, i => if i < DIRECTORY_COUNT then directories + i * PAGE_SIZE + flags else 0),
      seq(DIRECTORY_COUNT, i => seq(ENTRY_COUNT, j => i * GIB + j * HUGE_PAGE_SIZE + flags + HUGE_PAGE)))
  }

  // ---------------------------------------------------------------------------
  // What the processor makes of the tables

  predicate Present(e: nat) {
    e % 2 == 1
  }

  predicate Huge(e: nat) {
    (e / HUGE_PAGE) % 2 == 1
  }

  /** Bits 12 and up of an entry: the address it holds. */
  function EntryAddress(e: nat): nat {
    e / PAGE_SIZE * PAGE_SIZE
  }

  /**
   * The walk for a virtual address below 2^48: the PML4 entry must lead to
   * the PDPT and the PDPT entry to one of the directories, whose entry
   * must be a present huge page. `None` is a fault.
   */
  function Translate(t: Tables, pdpt: nat, directories: nat, v: nat): Option<nat>
    requires WellShaped(t) && v < ENTRY_COUNT * PML4_SPAN
  {
    var e4 := t.pml4[v / PML4_SPAN];
    if !Present(e4) || EntryAddress(e4) != pdpt then None
    else
      var e3 := t.pdpt[v / GIB % ENTRY_COUNT];
      if !Present(e3) || EntryAddress(e3) < directories then None
      else
        var k := (EntryAddress(e3) - directories) / PAGE_SIZE;
        if k >= DIRECTORY_COUNT || (EntryAddress(e3) - directories) % PAGE_SIZE != 0 then None
        else
          var e2 := t.pdt[k][v / HUGE_PAGE_SIZE % ENTRY_COUNT];
          if !Present(e2) || !Huge(e2) then None
          else Some(EntryAddress(e2) + v % HUGE_PAGE_SIZE)
  }

  /** An aligned address with flags below 4096 reads back as the address. */
  lemma AddressOfEntry(a: nat, flags: nat)
    requires a % PAGE_SIZE == 0 && flags < PAGE_SIZE
    ensures EntryAddress(a + flags) == a
    ensures (a + flags) % 2 == flags % 2
  {
    var q := a / PAGE_SIZE;
    assert a == q * PAGE_SIZE;
    DivModUnique(a + flags, PAGE_SIZE, q, flags);
    assert a + flags == (q * 2048 + flags / 2) * 2 + flags % 2;
    DivModUnique(a + flags, 2, q * 2048 + flags / 2, flags % 2);
  }

  /** The flags of a huge-page entry of the mapping. */
  lemma HugeEntry(a: nat)
    requires a % HUGE_PAGE_SIZE == 0
    ensures var e := a + WRITABLE + PRESENT + HUGE_PAGE;
            EntryAddress(e) == a && Present(e) && Huge(e)
  {
    var q := a / HUGE_PAGE_SIZE;
    assert a == q * HUGE_PAGE_SIZE;
    AddressOfEntry(a, WRITABLE + PRESENT + HUGE_PAGE);
    HugeBit(q);
  }

  lemma HugeBit(q: nat)
    ensures ((q * HUGE_PAGE_SIZE + WRITABLE + PRESENT + HUGE_PAGE) / HUGE_PAGE) % 2 == 1
  {
    var x := q * HUGE_PAGE_SIZE + WRITABLE + PRESENT + HUGE_PAGE;
    DivModUnique(x, HUGE_PAGE, q * 0x4000 + 1, WRITABLE + PRESENT);
    DivModUnique(q * 0x4000 + 1, 2, q * 0x2000, 1);
  }

  /** A virtual address below 10 GiB in GiB, 2 MiB and byte pieces. */
  lemma Pieces(v: nat)
    requires v < DIRECTORY_COUNT * GIB
    ensures v / PML4_SPAN == 0 && v / GIB % ENTRY_COUNT == v / GIB < DIRECTORY_COUNT
    ensures v == v / GIB * GIB + v / HUGE_PAGE_SIZE % ENTRY_COUNT * HUGE_PAGE_SIZE + v % HUGE_PAGE_SIZE
  {
    var g, h, b := v / GIB, v / HUGE_PAGE_SIZE, v % HUGE_PAGE_SIZE;
    DivDiv(v, HUGE_PAGE_SIZE, ENTRY_COUNT);
    assert h / ENTRY_COUNT == g;
  }

  /** The mapping is the identity on the first 10 GiB. */
  lemma IdentityBelowTenGiB(pdpt: nat, directories: nat, v: nat)
    requires pdpt % PAGE_SIZE == 0 && directories % PAGE_SIZE == 0
    requires v < DIRECTORY_COUNT * GIB
    ensures Translate(CreateMappings(pdpt, directories), pdpt, directories, v) == Some(v)
  {
    var t := CreateMappings(pdpt, directories);
    Pieces(v);
    var i, j := v / GIB, v / HUGE_PAGE_SIZE % ENTRY_COUNT;
    AddressOfEntry(pdpt, WRITABLE + PRESENT);
    assert t.pml4[0] == pdpt + (WRITABLE + PRESENT);
    assert (directories + i * PAGE_SIZE) % PAGE_SIZE == 0;
    AddressOfEntry(directories + i * PAGE_SIZE, WRITABLE + PRESENT);
    assert t.pdpt[i] == directories + i * PAGE_SIZE + (WRITABLE + PRESENT);
    DivModUnique(i * PAGE_SIZE, PAGE_SIZE, i, 0);
    var a := i * GIB + j * HUGE_PAGE_SIZE;
    assert a == (i * 512 + j) * HUGE_PAGE_SIZE;
    HugeEntry(a);
  }

  /** Above 10 GiB nothing is mapped. */
  lemma NothingAboveTenGiB(pdpt: nat, directories: nat, v: nat)
    requires DIRECTORY_COUNT * GIB <= v < ENTRY_COUNT * PML4_SPAN
    ensures Translate(CreateMappings(pdpt, directories), pdpt, directories, v).None?
  {
    var t := CreateMappings(pdpt, directories);
    if v / PML4_SPAN == 0 {
      assert v / GIB % ENTRY_COUNT >= DIRECTORY_COUNT;
      assert t.pdpt[v / GIB % ENTRY_COUNT] == 0;
    } else {
      assert t.pml4[v / PML4_SPAN] == 0;
    }
  }

  /** Only PML4 entry 0 and PDPT entries 0..9 are set; the rest stay zero. */
  lemma OtherEntriesZero(pdpt: nat, directories: nat)
    ensures var t := CreateMappings(pdpt, directories);
            (forall i :: 1 <= i < ENTRY_COUNT ==> t.pml4[i] == 0)
            && (forall i :: DIRECTORY_COUNT <= i < ENTRY_COUNT ==> t.pdpt[i] == 0)
  {
  }
}
