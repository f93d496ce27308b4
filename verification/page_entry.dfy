/**
 * Page-table entries of 4-level paging (section 4.5 of the Intel 64 and
 * IA-32 Architectures Software Developer's Manual, Volume 3A): a `u64`
 * whose bits 12..47 hold a 4 KiB-aligned physical address and whose low
 * twelve and top twelve bits hold flags.
 */
module PageEntry {

  import opened Wrappers

  /** The raw 64-bit value of a `PageTableEntry`. */
  type Entry = bv64

  /** The bits `PageTableEntryFlags` names: bits 0..11 and 52..63. */
  const FLAG_BITS: bv64 := 0xFFF0_0000_0000_0FFF

  /** A `PageTableEntryFlags` value: only named flag bits may be set. */
  type EntryFlags = f: bv64 | f & !FLAG_BITS == 0

  const NONE: EntryFlags := 0
  const PRESENT: EntryFlags := 1
  const WRITABLE: EntryFlags := 2
  const USER_ACCESSIBLE: EntryFlags := 4
  const HUGE_PAGE: EntryFlags := 0x80
  const NO_EXECUTE: EntryFlags := 0x8000_0000_0000_0000

  /** Bits 12..47 of an entry, where the physical address lives. */
  const ADDRESS_BITS: bv64 := 0x0000_FFFF_FFFF_F000

  /** `TABLE_ENTRY_COUNT`: a page table holds 512 entries. */
  const TABLE_ENTRY_COUNT: nat := 512

  /** `is_present`: the PRESENT bit is set. */
  predicate IsPresent(e: Entry) {
    e & PRESENT != 0
  }

  /** `is_unused`: the whole entry is zero. */
  predicate IsUnused(e: Entry) {
    e == 0
  }

  /** `address`: bits 12..47, kept in place. */
  function Address(e: Entry): bv64 {
    ((e >> 12) & 0xF_FFFF_FFFF) << 12
  }

  /** `flags`: `from_bits_truncate`, which keeps the named flag bits and drops the rest. */
  function Flags(e: Entry): EntryFlags {
    e & FLAG_BITS
  }

  /** `set_address`: the entry becomes the address ORed with the flags. */
  function SetAddress(addr: bv64, flags: EntryFlags): Entry {
    addr | flags
  }

  /** `set_flags`: the entry becomes the flags alone, dropping any address. */
  function SetFlags(flags: EntryFlags): Entry {
    flags
  }

  /** `add_flags`: ORs flags into the entry. */
  function AddFlags(e: Entry, flags: EntryFlags): Entry {
    e | flags
  }

  /** `set_unused`: the entry becomes zero. */
  function SetUnused(): Entry {
    0
  }

  /** An address an entry can hold: 4 KiB-aligned and below 2^48. */
  predicate IsEntryAddress(addr: bv64) {
    addr & !ADDRESS_BITS == 0
  }

  /** An unused entry is not present. */
  lemma UnusedNotPresent(e: Entry)
    ensures IsUnused(e) ==> !IsPresent(e)
  {
  }

  /**
   * An entry is neither present nor unused exactly when it is nonzero but
   * lacks the PRESENT bit (a swapped-out or flag-only entry such as
   * `WRITABLE` alone); no entry is both.
   */
  lemma NonPresentNonzeroIsNeither(e: Entry)
    ensures !(IsPresent(e) && IsUnused(e))
    ensures !IsPresent(e) && !IsUnused(e) <==> e != 0 && e & PRESENT == 0
  {
  }

  /** `address` is always 4 KiB-aligned and below 2^48. */
  lemma AddressIsEntryAddress(e: Entry)
    ensures IsEntryAddress(Address(e))
  {
  }

  /** `address` is exactly bits 12..47 of the entry. */
  lemma AddressIsMaskedEntry(e: Entry)
    ensures Address(e) == e & ADDRESS_BITS
  {
  }

  /** After `set_address(a, f)` with an address an entry can hold, `address()` reads back `a`. */
  lemma SetAddressThenAddress(addr: bv64, flags: EntryFlags)
    requires IsEntryAddress(addr)
    ensures Address(SetAddress(addr, flags)) == addr
  {
  }

  /** After `set_address(a, f)` with an address an entry can hold, `flags()` reads back `f`. */
  lemma SetAddressThenFlags(addr: bv64, flags: EntryFlags)
    requires IsEntryAddress(addr)
    ensures Flags(SetAddress(addr, flags)) == flags
  {
  }

  /** An unaligned address is not read back: `set_address(0x1234, NONE)` reads as 0x1000. */
  lemma SetAddressUnalignedTruncates()
    ensures Address(SetAddress(0x1234, NONE)) == 0x1000
  {
  }

  /** `add_flags` keeps the address. */
  lemma AddFlagsKeepsAddress(e: Entry, flags: EntryFlags)
    ensures Address(AddFlags(e, flags)) == Address(e)
  {
  }

  /** `add_flags` adds exactly the given flags to those already set. */
  lemma AddFlagsUnion(e: Entry, flags: EntryFlags)
    ensures Flags(AddFlags(e, flags)) == Flags(e) | flags
  {
    assert flags & FLAG_BITS == flags;
  }

  /** After `add_flags`, the entry is present iff it was, or PRESENT was added. */
  lemma AddFlagsPresent(e: Entry, flags: EntryFlags)
    ensures IsPresent(AddFlags(e, flags)) <==> IsPresent(e) || flags & PRESENT != 0
  {
  }

  /** `set_flags` discards the address and keeps exactly the given flags. */
  lemma SetFlagsDropsAddress(flags: EntryFlags)
    ensures Address(SetFlags(flags)) == 0
    ensures Flags(SetFlags(flags)) == flags
  {
  }

  /** After `set_unused` the entry is unused, not present, and holds address 0. */
  lemma SetUnusedClears()
    ensures IsUnused(SetUnused()) && !IsPresent(SetUnused()) && Address(SetUnused()) == 0
  {
  }

  /** `PageTable::empty`: 512 unused entries. */
  function EmptyTable(): (t: seq<Entry>)
    ensures |t| == TABLE_ENTRY_COUNT
    ensures forall i :: 0 <= i < |t| ==> IsUnused(t[i])
  {
    seq(TABLE_ENTRY_COUNT, _ => 0)
  }

  /** `initialize_empty_at_address`: an address not a multiple of the 4096-byte table size fails its assertion. */
  function InitializeEmptyAt(addr: nat): (r: Option<seq<Entry>>)
    ensures r.Some? <==> addr % 4096 == 0
    ensures r.Some? ==> r.value == EmptyTable()
  {
    if addr % 4096 == 0 then Some(EmptyTable()) else None
  }
}
