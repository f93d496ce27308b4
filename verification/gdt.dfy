/**
 * Segment descriptors and the global descriptor table (section 3.4.5 of
 * the Intel 64 and IA-32 Architectures Software Developer's Manual,
 * Volume 3A). A descriptor is a `u64`: segment limit bits 0..15 in bits
 * 0..15 and 16..19 in bits 48..51, base bits 0..23 in bits 16..39 and
 * 24..31 in bits 56..63, the access byte in bits 40..47 and the flags
 * nibble in bits 52..55.
 *
 * The kernel's crate and the boot loader's shared crate pack descriptors
 * with the same code; they differ in their presets.
 */
module Gdt {
  import opened Wrappers
  import opened BootUtil

  type Descriptor = bv64

  const ACCESSED: bv64 := 0x0000_0100_0000_0000
  const READ_WRITE: bv64 := 0x0000_0200_0000_0000
  const CONFORMING: bv64 := 0x0000_0400_0000_0000
  const EXECUTABLE: bv64 := 0x0000_0800_0000_0000
  const USER_SEGMENT: bv64 := 0x0000_1000_0000_0000
  const PRESENT: bv64 := 0x0000_8000_0000_0000
  const LONG_MODE: bv64 := 0x0020_0000_0000_0000
  const PROTECTED_MODE: bv64 := 0x0040_0000_0000_0000
  const GRANULARITY: bv64 := 0x0080_0000_0000_0000

  /** The bits `SegmentDescriptorFlags` names. */
  const FLAG_BITS: bv64 := 0x00E0_9F00_0000_0000

  /** A flags value: only named bits may be set. */
  type Flags = f: bv64 | f & !FLAG_BITS == 0

  /** Where the limit and the base live in a descriptor. */
  const LIMIT_FIELDS: bv64 := 0x000F_0000_0000_FFFF
  const BASE_FIELDS: bv64 := 0xFF00_00FF_FFFF_0000

  /** Everything else: the access byte and the flags nibble. */
  const ATTRIBUTE_FIELDS: bv64 := 0x00F0_FF00_0000_0000

  /** A `u32` argument. */
  predicate IsU32(x: bv64) {
    x & 0xFFFF_FFFF_0000_0000 == 0
  }

  /** The 20-bit segment limit the processor reads from a descriptor. */
  function Limit(d: Descriptor): bv64 {
    (d & 0xFFFF) | (((d >> 48) & 0xF) << 16)
  }

  /** The 32-bit base address the processor reads from a descriptor. */
  function Base(d: Descriptor): bv64 {
    ((d >> 16) & 0xFF_FFFF) | ((d >> 56) << 24)
  }

  /** The base fields placed into `desc`, as `new` does for a nonzero base. */
  function PlaceBase(desc: bv64, base: bv64): bv64 {
    (desc & !BASE_FIELDS) | ((base & 0xFF_FFFF) << 16) | (((base >> 24) & 0xFF) << 56)
  }

  /** The limit fields placed into `desc`. */
  function PlaceLimit(desc: bv64, limit: bv64): bv64 {
    (desc & !LIMIT_FIELDS) | (limit & 0xFFFF) | (((limit >> 16) & 0xF) << 48)
  }

  /**
   * `SegmentDescriptor::new`: the flags, then the base fields unless the
   * base is zero, then the limit fields; limit bits above 19 are dropped.
   */
  function NewDescriptor(flags: Flags, limit: bv64, base: bv64): (d: Descriptor)
    requires IsU32(limit) && IsU32(base)
    ensures d & ATTRIBUTE_FIELDS == flags
  {
    var desc := if base != 0 then PlaceBase(flags, base) else flags;
    AttributesKept(desc, flags, base);
    PlaceLimit(desc, limit)
  }

  lemma AttributesKept(desc: bv64, flags: Flags, base: bv64)
    requires desc == if base != 0 then PlaceBase(flags, base) else flags
    ensures desc & ATTRIBUTE_FIELDS == flags
  {
    assert flags & ATTRIBUTE_FIELDS == flags;
  }

  /** The limit read back is the given one cut to 20 bits. */
  lemma LimitOfPlaced(desc: bv64, limit: bv64)
    ensures Limit(PlaceLimit(desc, limit)) == limit & 0xF_FFFF
  {
  }

  /** Placing the limit leaves the base fields alone. */
  lemma PlaceLimitKeepsBase(desc: bv64, limit: bv64)
    ensures Base(PlaceLimit(desc, limit)) == Base(desc)
  {
  }

  /** The base read back is the given 32-bit one. */
  lemma BaseOfPlaced(desc: bv64, base: bv64)
    requires IsU32(base)
    ensures Base(PlaceBase(desc, base)) == base
  {
  }

  /** Flags have nothing in the base fields. */
  lemma FlagsHaveNoBase(flags: Flags)
    ensures Base(flags) == 0
  {
    assert flags & BASE_FIELDS == 0;
  }

  /** A descriptor reads back its limit (cut to 20 bits), its base and its flags. */
  lemma NewDescriptorFields(flags: Flags, limit: bv64, base: bv64)
    requires IsU32(limit) && IsU32(base)
    ensures var d := NewDescriptor(flags, limit, base);
            Limit(d) == limit & 0xF_FFFF && Base(d) == base && d & ATTRIBUTE_FIELDS == flags
  {
    var desc := if base != 0 then PlaceBase(flags, base) else flags;
    LimitOfPlaced(desc, limit);
    PlaceLimitKeepsBase(desc, limit);
    if base != 0 {
      BaseOfPlaced(flags, base);
    } else {
      FlagsHaveNoBase(flags);
    }
  }

  /** Limit bits above 19 are lost: a limit of 0x10_0000 reads back as 0. */
  lemma LimitTruncated()
    ensures Limit(NewDescriptor(0, 0x10_0000, 0)) == 0
  {
    NewDescriptorFields(0, 0x10_0000, 0);
  }

  // ---------------------------------------------------------------------------
  // Presets of the kernel's crate

  const PROTECTED_MODE_CODE_FLAGS: Flags := READ_WRITE | EXECUTABLE | PRESENT | USER_SEGMENT | PROTECTED_MODE | GRANULARITY | ACCESSED
  const PROTECTED_MODE_DATA_FLAGS: Flags := READ_WRITE | PRESENT | USER_SEGMENT | PROTECTED_MODE | GRANULARITY | ACCESSED
  const LONG_MODE_CODE_FLAGS: Flags := READ_WRITE | EXECUTABLE | PRESENT | USER_SEGMENT | LONG_MODE | ACCESSED
  const LONG_MODE_DATA_FLAGS: Flags := READ_WRITE | PRESENT | USER_SEGMENT | ACCESSED

  /** A flat segment over 4 GiB: limit 0xFFFFF in 4 KiB units, base 0. */
  predicate FlatProtectedMode(d: Descriptor) {
    Limit(d) == 0xF_FFFF && Base(d) == 0 && d & GRANULARITY != 0 && d & PROTECTED_MODE != 0
    && d & LONG_MODE == 0 && d & PRESENT != 0 && d & USER_SEGMENT != 0
  }

  function ProtectedModeCodeSegment(): (d: Descriptor)
    ensures FlatProtectedMode(d) && d & EXECUTABLE != 0 && d & ACCESSED != 0
  {
    NewDescriptorFields(PROTECTED_MODE_CODE_FLAGS, 0xF_FFFF, 0);
    NewDescriptor(PROTECTED_MODE_CODE_FLAGS, 0xF_FFFF, 0)
  }

  function ProtectedModeDataSegment(): (d: Descriptor)
    ensures FlatProtectedMode(d) && d & EXECUTABLE == 0 && d & ACCESSED != 0
  {
    NewDescriptorFields(PROTECTED_MODE_DATA_FLAGS, 0xF_FFFF, 0);
    NewDescriptor(PROTECTED_MODE_DATA_FLAGS, 0xF_FFFF, 0)
  }

  /** A long-mode segment: limit and base 0 (the processor ignores both). */
  predicate LongModeSegment(d: Descriptor) {
    Limit(d) == 0 && Base(d) == 0 && d & PROTECTED_MODE == 0 && d & GRANULARITY == 0
    && d & PRESENT != 0 && d & USER_SEGMENT != 0 && d & ACCESSED != 0
  }

  /** `long_mode_code_segment`, also `kernel_code_segment`. */
  function LongModeCodeSegment(): (d: Descriptor)
    ensures LongModeSegment(d) && d & LONG_MODE != 0 && d & EXECUTABLE != 0
  {
    NewDescriptorFields(LONG_MODE_CODE_FLAGS, 0, 0);
    NewDescriptor(LONG_MODE_CODE_FLAGS, 0, 0)
  }

  /** `long_mode_data_segment`, also `kernel_data_segment`. */
  function LongModeDataSegment(): (d: Descriptor)
    ensures LongModeSegment(d) && d & LONG_MODE == 0 && d & EXECUTABLE == 0
  {
    NewDescriptorFields(LONG_MODE_DATA_FLAGS, 0, 0);
    NewDescriptor(LONG_MODE_DATA_FLAGS, 0, 0)
  }

  // ---------------------------------------------------------------------------
  // Presets of the boot loader's shared crate: no ACCESSED bit

  const BOOT_CODE_FLAGS: Flags := READ_WRITE | EXECUTABLE | PRESENT | USER_SEGMENT | PROTECTED_MODE | GRANULARITY
  const BOOT_DATA_FLAGS: Flags := READ_WRITE | PRESENT | USER_SEGMENT | PROTECTED_MODE | GRANULARITY

  function BootProtectedModeCodeSegment(): (d: Descriptor)
    ensures FlatProtectedMode(d) && d & EXECUTABLE != 0 && d & ACCESSED == 0
  {
    NewDescriptorFields(BOOT_CODE_FLAGS, 0xF_FFFF, 0);
    NewDescriptor(BOOT_CODE_FLAGS, 0xF_FFFF, 0)
  }

  function BootProtectedModeDataSegment(): (d: Descriptor)
    ensures FlatProtectedMode(d) && d & EXECUTABLE == 0 && d & ACCESSED == 0
  {
    NewDescriptorFields(BOOT_DATA_FLAGS, 0xF_FFFF, 0);
    NewDescriptor(BOOT_DATA_FLAGS, 0xF_FFFF, 0)
  }

  /** The two crates' protected-mode presets differ only in the ACCESSED bit. */
  lemma PresetsDifferByAccessed()
    ensures ProtectedModeCodeSegment() == BootProtectedModeCodeSegment() | ACCESSED
    ensures ProtectedModeDataSegment() == BootProtectedModeDataSegment() | ACCESSED
  {
  }

  // ---------------------------------------------------------------------------
  // The table

  const ENTRY_COUNT: nat := 8

  /** `GlobalDescriptorTable`: eight slots, of which the first `size` are in use. */
  datatype Table = Table(entries: seq<Descriptor>, size: nat)

  predicate Valid(t: Table) {
    |t.entries| == ENTRY_COUNT && 1 <= t.size <= ENTRY_COUNT
  }

  /** `GlobalDescriptorTable::new`: all zero, the null descriptor in use. */
  function NewTable(): (t: Table)
    ensures Valid(t) && t.size == 1
    ensures forall i :: 0 <= i < ENTRY_COUNT ==> t.entries[i] == 0
  {
    Table(seq(ENTRY_COUNT, _ => 0), 1)
  }

  /** `push`: the next free slot, or "GDT full" once all eight are used. */
  function Push(t: Table, value: Descriptor): (r: Result<(Table, nat), Halt>)
    requires Valid(t)
    ensures r.Ok? <==> t.size < ENTRY_COUNT
    ensures r.Err? ==> r.error == Panic
    ensures r.Ok? ==> var (t', index) := r.value;
                      Valid(t') && index == t.size && t'.size == t.size + 1 && t'.entries[index] == value
                      && forall i :: 0 <= i < ENTRY_COUNT && i != index ==> t'.entries[i] == t.entries[i]
  {
    if t.size < ENTRY_COUNT then Ok((Table(t.entries[t.size := value], t.size + 1), t.size))
    else Err(Panic)
  }

  /** `add_entry` for a list of descriptors, in order. */
  function PushAll(t: Table, values: seq<Descriptor>): Result<Table, Halt>
    requires Valid(t)
    decreases |values|
  {
    if values == [] then Ok(t)
    else match Push(t, values[0])
      case Err(e) => Err(e)
      case Ok((t', _)) => PushAll(t', values[1..])
  }

  /**
   * Pushing onto a table: the values land in the slots after the used
   * ones, in order, and everything else is kept; one value too many panics.
   */
  lemma {:induction false} PushAllLayout(t: Table, values: seq<Descriptor>)
    requires Valid(t)
    ensures PushAll(t, values).Ok? <==> t.size + |values| <= ENTRY_COUNT
    ensures PushAll(t, values).Ok? ==>
              var t' := PushAll(t, values).value;
              Valid(t') && t'.size == t.size + |values|
              && (forall i :: 0 <= i < |values| ==> t'.entries[t.size + i] == values[i])
              && (forall i :: 0 <= i < t.size ==> t'.entries[i] == t.entries[i])
              && (forall i :: t.size + |values| <= i < ENTRY_COUNT ==> t'.entries[i] == t.entries[i])
    decreases |values|
  {
    if values != [] && t.size < ENTRY_COUNT {
      var (t1, _) := Push(t, values[0]).value;
      PushAllLayout(t1, values[1..]);
      if PushAll(t1, values[1..]).Ok? {
        var t' := PushAll(t1, values[1..]).value;
        forall i | 0 <= i < |values|
          ensures t'.entries[t.size + i] == values[i]
        {
          if i > 0 {
            assert values[i] == values[1..][i - 1];
          }
        }
      }
    }
  }

  /** From a new table: the null descriptor, the pushed ones, then zeros; at most seven fit. */
  lemma PushAllFromNew(values: seq<Descriptor>)
    ensures PushAll(NewTable(), values).Ok? <==> |values| < ENTRY_COUNT
    ensures PushAll(NewTable(), values).Ok? ==>
              var t := PushAll(NewTable(), values).value;
              t.size == 1 + |values| && t.entries == [0] + values + seq(ENTRY_COUNT - 1 - |values|, _ => 0)
  {
    PushAllLayout(NewTable(), values);
    if PushAll(NewTable(), values).Ok? {
      var t := PushAll(NewTable(), values).value;
      var expected := [0] + values + seq(ENTRY_COUNT - 1 - |values|, _ => 0);
      forall i | 0 <= i < ENTRY_COUNT
        ensures t.entries[i] == expected[i]
      {
        if 1 <= i < 1 + |values| {
          assert t.entries[1 + (i - 1)] == values[i - 1];
        }
      }
    }
  }

  /**
   * `GlobalDescriptorTableDescriptor::new`: the `lgdt` limit, the offset of
   * the last byte of the used slots.
   */
  function DescriptorLimit(t: Table): (limit: nat)
    requires Valid(t)
    ensures limit < 0x1_0000
    ensures (limit + 1) / 8 == t.size && (limit + 1) % 8 == 0
  {
    t.size * 8 - 1
  }
}
