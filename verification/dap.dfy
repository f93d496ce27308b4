/**
 * The disk address packet of INT 13h function 42h (BIOS Enhanced Disk
 * Drive Services, "Extended Read"): 16 bytes holding the packet size 0x10,
 * a reserved zero, the sector count, the transfer buffer as a real-mode
 * `offset` at byte 4 and `segment` at byte 6, and the starting LBA. The
 * BIOS transfers to physical address `segment * 16 + offset`.
 *
 * Three constructors split the buffer address as `offset = addr & 0xF`,
 * `segment = addr >> 4` and stop when the segment does not fit 16 bits
 * (a panic in stage 2, `fail('o')` in the boot sectors). The one in the
 * shared util crate swaps both the arithmetic and the field order.
 */
module Dap {
  import opened Wrappers
  import opened Bytes
  import opened BootUtil

  const PACKET_SIZE: nat := 0x10

  /** The packet's fields in the order the BIOS reads them. */
  datatype Packet = Packet(size: nat, zero: nat, sectorCount: nat, offset: nat, segment: nat, startLba: nat)

  /** The real-mode address a segment and offset denote. */
  function RealModeAddress(segment: nat, offset: nat): nat {
    segment * 16 + offset
  }

  /** The address the BIOS transfers to for `p`. */
  function Buffer(p: Packet): nat {
    RealModeAddress(p.segment, p.offset)
  }

  /**
   * `DiskAddressPacket::new` of stage 2 and of both boot sectors; `halt`
   * is how each stops on an address of 1 MiB or more.
   */
  function NewPacket(address: nat, sectorCount: nat, startLba: nat, halt: Halt): (r: Result<Packet, Halt>)
    requires address < 0x1_0000_0000
    ensures r.Ok? <==> address < 0x10_0000
    ensures r.Err? ==> r.error == halt
    ensures r.Ok? ==> Buffer(r.value) == address && r.value.offset < 16 && r.value.segment < 0x1_0000
    ensures r.Ok? ==> r.value.size == PACKET_SIZE && r.value.zero == 0
                      && r.value.sectorCount == sectorCount && r.value.startLba == startLba
  {
    var segment := address / 16;
    if segment >= 0x1_0000 then Err(halt)
    else Ok(Packet(PACKET_SIZE, 0, sectorCount, address % 16, segment, startLba))
  }

  /** Stage 2: `expect("Buffer address too big")`. */
  function NewStage2(address: nat, sectorCount: nat, startLba: nat): Result<Packet, Halt>
    requires address < 0x1_0000_0000
  {
    NewPacket(address, sectorCount, startLba, Panic)
  }

  /** Both boot sectors: `unwrap_or_fail(b'o')`. */
  function NewBootSector(address: nat, sectorCount: nat, startLba: nat): Result<Packet, Halt>
    requires address < 0x1_0000_0000
  {
    NewPacket(address, sectorCount, startLba, Fail('o' as nat))
  }

  /** Every buffer below 1 MiB is reachable, and addressed exactly. */
  lemma PacketAddressesBuffer(address: nat, sectorCount: nat, startLba: nat)
    requires address < 0x10_0000
    ensures NewStage2(address, sectorCount, startLba).Ok? && Buffer(NewStage2(address, sectorCount, startLba).value) == address
    ensures NewBootSector(address, sectorCount, startLba).Ok? && Buffer(NewBootSector(address, sectorCount, startLba).value) == address
  {
  }

  /**
   * The util crate's constructor as written: `segment = addr & 0xFFFF`,
   * `offset = addr >> 16`, and `segment` declared before `offset`, so the
   * word at byte 4 — the offset the BIOS reads — is `addr & 0xFFFF` and the
   * word at byte 6 — its segment — is `addr >> 16`.
   */
  function NewSwapped(address: nat, sectorCount: nat, startLba: nat): (p: Packet)
    requires address < 0x1_0000_0000
    ensures p.offset < 0x1_0000 && p.segment < 0x1_0000
  {
    Packet(PACKET_SIZE, 0, sectorCount, address % 0x1_0000, address / 0x1_0000, startLba)
  }

  /**
   * The swapped packet addresses `(addr >> 16) * 16 + (addr & 0xFFFF)`,
   * which misses the buffer whenever it lies at or above 64 KiB.
   */
  lemma SwappedMissesBuffer(address: nat, sectorCount: nat, startLba: nat)
    requires address < 0x1_0000_0000
    ensures Buffer(NewSwapped(address, sectorCount, startLba)) == address <==> address < 0x1_0000
  {
    var p := NewSwapped(address, sectorCount, startLba);
    var hi, lo := address / 0x1_0000, address % 0x1_0000;
    assert address == hi * 0x1_0000 + lo;
    assert Buffer(p) == hi * 16 + lo;
  }

  /** The buffer at 0x1_0000 becomes physical address 16. */
  lemma SwappedExample()
    ensures Buffer(NewSwapped(0x1_0000, 1, 0)) == 16
  {
  }

  // ---------------------------------------------------------------------------
  // Bytes in memory

  /** The 16 bytes of a packet, `repr(C, packed)`, little-endian. */
  function EncodePacket(p: Packet): (raw: seq<byte>)
    requires p.size < 0x100 && p.zero < 0x100 && p.sectorCount < 0x1_0000 && p.offset < 0x1_0000 && p.segment < 0x1_0000
    ensures |raw| == PACKET_SIZE
  {
    ToLe(p.size, 1) + ToLe(p.zero, 1) + ToLe(p.sectorCount, 2) + ToLe(p.offset, 2) + ToLe(p.segment, 2) + ToLe(p.startLba, 8)
  }

  /** The buffer the BIOS reads out of a packet's bytes. */
  function BiosBuffer(raw: seq<byte>): nat
    requires |raw| == PACKET_SIZE
  {
    RealModeAddress(LeAt(raw, 6, 2), LeAt(raw, 4, 2))
  }

  /** The BIOS reads back the buffer a packet was built for. */
  lemma EncodedBuffer(p: Packet)
    requires p.size < 0x100 && p.zero < 0x100 && p.sectorCount < 0x1_0000 && p.offset < 0x1_0000 && p.segment < 0x1_0000
    ensures BiosBuffer(EncodePacket(p)) == Buffer(p)
  {
    var head := ToLe(p.size, 1) + ToLe(p.zero, 1) + ToLe(p.sectorCount, 2);
    var off, seg, lba := ToLe(p.offset, 2), ToLe(p.segment, 2), ToLe(p.startLba, 8);
    assert EncodePacket(p) == head + (off + (seg + lba));
    assert Pow256(2) == 0x1_0000;
    LeAtWhole(p.offset, 2);
    LeAtPrefix(off, seg + lba, 0, 2);
    LeAtShift(head, off + (seg + lba), 4, 0, 2);
    LeAtWhole(p.segment, 2);
    LeAtPrefix(seg, lba, 0, 2);
    LeAtShift(head + off, seg + lba, 6, 0, 2);
    assert head + off + (seg + lba) == head + (off + (seg + lba));
  }
}
