/**
 * 64-bit interrupt and trap gates (section 6.14.1 of the Intel 64 and
 * IA-32 Architectures Software Developer's Manual, Volume 3A) and the
 * 256-entry interrupt descriptor table.
 *
 * A gate is 16 bytes: handler offset bits 0..15, the code-segment
 * selector, a 16-bit options word, offset bits 16..31, offset bits
 * 32..63 and a reserved doubleword. In the options word bits 0..2 select
 * an interrupt stack, bits 8..11 hold the gate type (0xE interrupt gate,
 * 0xF trap gate), bits 13..14 the privilege level and bit 15 the present
 * flag.
 */
module Idt {
  import opened Wrappers
  import opened BootUtil

  type Options = bv16

  const PRESENT_BIT: bv16 := 0x8000
  const PRIVILEGE_BITS: bv16 := 0x6000
  const STACK_INDEX_BITS: bv16 := 0x0007
  const GATE_TYPE_BITS: bv16 := 0x0F00
  const INTERRUPT_GATE: bv16 := 0xE
  const TRAP_GATE: bv16 := 0xF

  /** The gate type in bits 8..11. */
  function GateType(o: Options): bv16 {
    (o >> 8) & 0xF
  }

  predicate IsPresent(o: Options) {
    o & PRESENT_BIT != 0
  }

  function PrivilegeLevel(o: Options): bv16 {
    (o >> 13) & 0x3
  }

  function StackIndex(o: Options): bv16 {
    o & STACK_INDEX_BITS
  }

  /** `InterruptDescriptorOptions::default`: an interrupt gate, not present, ring 0, no stack switch. */
  function DefaultOptions(): (o: Options)
    ensures GateType(o) == INTERRUPT_GATE && !IsPresent(o) && PrivilegeLevel(o) == 0 && StackIndex(o) == 0
    ensures o & !GATE_TYPE_BITS == 0
  {
    INTERRUPT_GATE << 8
  }

  /** `set_present`: bit 15 only. */
  function SetPresent(o: Options, present: bool): (r: Options)
    ensures IsPresent(r) == present
    ensures r & !PRESENT_BIT == o & !PRESENT_BIT
  {
    PresentBitFacts(o);
    if present then o | PRESENT_BIT else o & !PRESENT_BIT
  }

  lemma PresentBitFacts(o: Options)
    ensures IsPresent(o | PRESENT_BIT) && (o | PRESENT_BIT) & !PRESENT_BIT == o & !PRESENT_BIT
    ensures !IsPresent(o & !PRESENT_BIT) && (o & !PRESENT_BIT) & !PRESENT_BIT == o & !PRESENT_BIT
  {
  }

  /** `disable_interrupts(d)`: bit 8 becomes `!d`. */
  function DisableInterrupts(o: Options, disable: bool): (r: Options)
    ensures r & !0x100 == o & !0x100
    ensures r & 0x100 != 0 <==> !disable
  {
    if disable then o & !0x100 else o | 0x100
  }

  /**
   * On a default options word, disabling interrupts leaves an interrupt
   * gate and enabling them makes a trap gate.
   */
  lemma DisableInterruptsGateType(disable: bool)
    ensures GateType(DisableInterrupts(DefaultOptions(), disable)) == if disable then INTERRUPT_GATE else TRAP_GATE
  {
  }

  /** `set_privilege_level`: bits 13..14. */
  function SetPrivilegeLevel(o: Options, level: bv16): (r: Options)
    requires level < 4
    ensures PrivilegeLevel(r) == level
    ensures r & !PRIVILEGE_BITS == o & !PRIVILEGE_BITS
  {
    (o & !PRIVILEGE_BITS) | (level << 13)
  }

  /**
   * `set_interrupt_stack_index`: bits 0..2; an index that does not fit
   * three bits fails `set_bits`' assertion.
   */
  function SetInterruptStackIndex(o: Options, index: bv16): (r: Result<Options, Halt>)
    ensures r.Ok? <==> index < 8
    ensures r.Err? ==> r.error == Panic
    ensures r.Ok? ==> StackIndex(r.value) == index && r.value & !STACK_INDEX_BITS == o & !STACK_INDEX_BITS
  {
    if index < 8 then Ok((o & !STACK_INDEX_BITS) | index) else Err(Panic)
  }

  // ---------------------------------------------------------------------------
  // Gates

  /** `InterruptDescriptor`, field by field. */
  datatype Gate = Gate(pointerLow: bv64, selector: bv64, options: Options, pointerMiddle: bv64, pointerHigh: bv64, reserved: bv64)

  /** `InterruptDescriptor::missing`: no handler, selector 0, default options. */
  function Missing(): (g: Gate)
    ensures !IsPresent(g.options) && GateType(g.options) == INTERRUPT_GATE
    ensures Handler(g) == 0
  {
    Gate(0, 0, DefaultOptions(), 0, 0, 0)
  }

  /** The handler address a gate's three offset fields spell. */
  function Handler(g: Gate): bv64 {
    Recompose(g.pointerLow, g.pointerMiddle, g.pointerHigh)
  }

  function Recompose(low: bv64, middle: bv64, high: bv64): bv64 {
    (low & 0xFFFF) | ((middle & 0xFFFF) << 16) | ((high & 0xFFFF_FFFF) << 32)
  }

  /**
   * `set_handler_function`: the address split 16/16/32, the selector of
   * the running code segment (`cs`, read from the register), and the gate
   * marked present; nothing else changes.
   */
  function SetHandler(g: Gate, address: bv64, cs: bv64): (r: Gate)
    ensures Handler(r) == address
    ensures IsPresent(r.options) && r.options & !PRESENT_BIT == g.options & !PRESENT_BIT
    ensures r.selector == cs && r.reserved == g.reserved
  {
    SplitRecompose(address);
    Gate(address & 0xFFFF, cs, SetPresent(g.options, true), (address >> 16) & 0xFFFF, address >> 32, g.reserved)
  }

  /** The 16/16/32 split of an address recomposes it. */
  lemma SplitRecompose(a: bv64)
    ensures Recompose(a & 0xFFFF, (a >> 16) & 0xFFFF, a >> 32) == a
  {
    assert ((a >> 32) & 0xFFFF_FFFF) << 32 == a & 0xFFFF_FFFF_0000_0000;
    assert (((a >> 16) & 0xFFFF) & 0xFFFF) << 16 == a & 0xFFFF_0000;
  }

  // ---------------------------------------------------------------------------
  // Bytes in memory

  /** The first quadword of a gate: offset 0..15, selector, options, offset 16..31. */
  function LowQuad(low: bv64, selector: bv64, options: bv64, middle: bv64): bv64 {
    (low & 0xFFFF) | ((selector & 0xFFFF) << 16) | ((options & 0xFFFF) << 32) | ((middle & 0xFFFF) << 48)
  }

  /** The second quadword: offset 32..63 and the reserved doubleword. */
  function HighQuad(high: bv64, reserved: bv64): bv64 {
    (high & 0xFFFF_FFFF) | ((reserved & 0xFFFF_FFFF) << 32)
  }

  /** The two little-endian quadwords of a gate, `repr(C)`. */
  function Encode(g: Gate): (bv64, bv64) {
    (LowQuad(g.pointerLow, g.selector, g.options as bv64, g.pointerMiddle), HighQuad(g.pointerHigh, g.reserved))
  }

  /** The handler offset the processor reads from a gate's quadwords. */
  function GateOffset(words: (bv64, bv64)): bv64 {
    Offset(words.0, words.1)
  }

  function Offset(w0: bv64, w1: bv64): bv64 {
    (w0 & 0xFFFF) | ((w0 >> 48) << 16) | ((w1 & 0xFFFF_FFFF) << 32)
  }

  /** The options word the processor reads from bytes 4..5. */
  function GateOptions(words: (bv64, bv64)): bv16 {
    ((words.0 >> 32) & 0xFFFF) as bv16
  }

  /** The processor finds the handler a gate was given. */
  lemma EncodedHandler(g: Gate)
    ensures GateOffset(Encode(g)) == Handler(g)
  {
    QuadOffset(g.pointerLow, g.selector, g.options as bv64, g.pointerMiddle, g.pointerHigh, g.reserved);
  }

  lemma QuadOffset(low: bv64, selector: bv64, options: bv64, middle: bv64, high: bv64, reserved: bv64)
    ensures Offset(LowQuad(low, selector, options, middle), HighQuad(high, reserved)) == Recompose(low, middle, high)
  {
    LowQuadOffset(low, selector, options, middle);
    HighQuadOffset(high, reserved);
  }

  lemma LowQuadOffset(low: bv64, selector: bv64, options: bv64, middle: bv64)
    ensures LowQuad(low, selector, options, middle) & 0xFFFF == low & 0xFFFF
    ensures LowQuad(low, selector, options, middle) >> 48 == middle & 0xFFFF
  {
  }

  lemma HighQuadOffset(high: bv64, reserved: bv64)
    ensures HighQuad(high, reserved) & 0xFFFF_FFFF == high & 0xFFFF_FFFF
  {
  }

  /** The processor finds the options word in bytes 4..5. */
  lemma EncodedOptions(g: Gate)
    ensures GateOptions(Encode(g)) == g.options
  {
  }

  /** A gate given a handler sends the processor to that address. */
  lemma HandlerRoundTrip(g: Gate, address: bv64, cs: bv64)
    ensures GateOffset(Encode(SetHandler(g, address, cs))) == address
  {
    EncodedHandler(SetHandler(g, address, cs));
  }

  // ---------------------------------------------------------------------------
  // The table

  const GATE_SIZE: nat := 16
  const VECTOR_COUNT: nat := 256

  /** `InterruptDescriptorTable`: its named fields are vectors 0..31 in order, then 224 interrupts. */
  type Table = t: seq<Gate> | |t| == VECTOR_COUNT witness seq(VECTOR_COUNT, _ => Missing())

  const DIVIDE_ERROR: nat := 0
  const DOUBLE_FAULT: nat := 8
  const GENERAL_PROTECTION_FAULT: nat := 13
  const PAGE_FAULT: nat := 14
  const FIRST_INTERRUPT: nat := 32

  /** `InterruptDescriptorTable::default`: every gate missing. */
  function DefaultTable(): (t: Table)
    ensures forall v :: 0 <= v < VECTOR_COUNT ==> t[v] == Missing() && !IsPresent(t[v].options)
  {
    seq(VECTOR_COUNT, _ => Missing())
  }

  /** Installing a handler at one vector leaves every other gate alone. */
  function Install(t: Table, vector: nat, address: bv64, cs: bv64): (r: Table)
    requires vector < VECTOR_COUNT
    ensures Handler(r[vector]) == address && IsPresent(r[vector].options)
    ensures forall v :: 0 <= v < VECTOR_COUNT && v != vector ==> r[v] == t[v]
  {
    t[vector := SetHandler(t[vector], address, cs)]
  }

  /** `load`: the `lidt` limit, the last byte of the 4096-byte table. */
  function TableLimit(): (limit: nat)
    ensures limit < 0x1_0000
    ensures (limit + 1) / GATE_SIZE == VECTOR_COUNT && (limit + 1) % GATE_SIZE == 0
  {
    VECTOR_COUNT * GATE_SIZE - 1
  }
}
