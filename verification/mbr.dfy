/**
 * The partition records of a master boot record, as laid out by section
 * 5.2.1 (Legacy Master Boot Record) of the UEFI Specification: 16 bytes
 * each, the boot indicator at byte 0 (0x80 for a bootable partition), the
 * OS type at byte 4, and the little-endian starting LBA and size in
 * sectors at bytes 8 and 12.
 *
 * Two readers exist: the stage-2 one unwraps every missing byte (a panic)
 * and the boot-sector one halts with a letter that says which read was
 * missing.
 */
module Mbr {
  import opened Wrappers
  import opened Bytes
  import opened BootUtil

  const ENTRY_SIZE: nat := 16
  const ENTRY_COUNT: nat := 4
  const BOOTABLE: byte := 0x80

  datatype PartitionEntry = PartitionEntry(bootable: bool, partitionType: nat, lba: nat, sectorCount: nat)

  /** Which read of an entry found the table too short. */
  datatype Missing = NoEntry | NoIndicator | NoType | NoLba | NoCount

  /**
   * Entry `index` of the table: the slice from `16 * index`, then its byte
   * 0, byte 4 and the four-byte fields at 8 and 12, in that order.
   */
  function EntryAt(table: seq<byte>, index: nat): (r: Result<PartitionEntry, Missing>)
    ensures r.Ok? <==> ENTRY_SIZE * index + ENTRY_SIZE <= |table|
    ensures r.Ok? ==> var off := ENTRY_SIZE * index;
                      r.value.bootable == (table[off] == BOOTABLE) && r.value.partitionType == U8At(table, off + 4)
                      && r.value.lba == U32At(table, off + 8) && r.value.sectorCount == U32At(table, off + 12)
  {
    var off := ENTRY_SIZE * index;
    if off > |table| then Err(NoEntry)
    else
      var buffer := table[off..];
      if |buffer| < 1 then Err(NoIndicator)
      else if |buffer| < 5 then Err(NoType)
      else if |buffer| < 12 then Err(NoLba)
      else if |buffer| < 16 then Err(NoCount)
      else
        LeAtShift(table[..off], buffer, off + 4, 4, 1);
        LeAtShift(table[..off], buffer, off + 8, 8, 4);
        LeAtShift(table[..off], buffer, off + 12, 12, 4);
        assert table[..off] + buffer == table;
        Ok(PartitionEntry(buffer[0] == BOOTABLE, U8At(buffer, 4), U32At(buffer, 8), U32At(buffer, 12)))
  }

  /** `get_partition_table_entry` of the BIOS stages: every missing read panics. */
  function GetPartitionTableEntry(table: seq<byte>, index: nat): (r: Result<PartitionEntry, Halt>)
    ensures r.Ok? <==> ENTRY_SIZE * index + ENTRY_SIZE <= |table|
    ensures r.Err? ==> r.error == Panic
    ensures r.Ok? ==> r.value == EntryAt(table, index).value
  {
    match EntryAt(table, index)
    case Ok(e) => Ok(e)
    case Err(_) => Err(Panic)
  }

  /** The letter `get_partition` halts with for each missing read. */
  function FailCode(m: Missing): nat {
    match m
    case NoEntry => 'c' as nat
    case NoIndicator => 'd' as nat
    case NoType => 'e' as nat
    case NoLba => 'e' as nat
    case NoCount => 'f' as nat
  }

  /** `get_partition` of the boot sector: a missing read halts with its letter. */
  function GetPartition(table: seq<byte>, index: nat): (r: Result<PartitionEntry, Halt>)
    ensures r.Ok? <==> ENTRY_SIZE * index + ENTRY_SIZE <= |table|
    ensures r.Ok? ==> r.value == EntryAt(table, index).value
    ensures r.Err? ==> r.error.Fail? && r.error.code in {'c' as nat, 'd' as nat, 'e' as nat, 'f' as nat}
  {
    match EntryAt(table, index)
    case Ok(e) => Ok(e)
    case Err(m) => Err(Fail(FailCode(m)))
  }

  /** Which letter a short table produces: `c` past its end, then `d`, `e` and `f` by how many bytes remain. */
  lemma GetPartitionCodes(table: seq<byte>, index: nat)
    requires ENTRY_SIZE * index + ENTRY_SIZE > |table|
    ensures var off := ENTRY_SIZE * index;
            GetPartition(table, index)
              == Err(Fail(if off > |table| then 'c' as nat
                          else if off == |table| then 'd' as nat
                          else if off + 12 > |table| then 'e' as nat
                          else 'f' as nat))
  {
  }

  // ---------------------------------------------------------------------------
  // Writing an entry

  predicate EntryOk(e: PartitionEntry) {
    e.partitionType < 0x100 && e.lba < 0x1_0000_0000 && e.sectorCount < 0x1_0000_0000
  }

  /** A 16-byte partition record; the CHS fields are left zero. */
  function EncodeEntry(e: PartitionEntry): (raw: seq<byte>)
    requires EntryOk(e)
    ensures |raw| == ENTRY_SIZE
  {
    [if e.bootable then BOOTABLE else 0, 0, 0, 0] + ToLe(e.partitionType, 1) + [0, 0, 0] + ToLe(e.lba, 4) + ToLe(e.sectorCount, 4)
  }

  /** A record written at slot `index` of a table reads back, whatever surrounds it. */
  lemma EntryRoundTrip(before: seq<byte>, e: PartitionEntry, after: seq<byte>)
    requires EntryOk(e) && |before| % ENTRY_SIZE == 0
    ensures EntryAt(before + EncodeEntry(e) + after, |before| / ENTRY_SIZE) == Ok(e)
  {
    var raw := EncodeEntry(e);
    var table := before + raw + after;
    var off := |before|;
    assert ENTRY_SIZE * (|before| / ENTRY_SIZE) == off;
    EncodedFields(e);
    assert table == before + (raw + after);
    LeAtPrefix(raw, after, 4, 1);
    LeAtPrefix(raw, after, 8, 4);
    LeAtPrefix(raw, after, 12, 4);
    LeAtShift(before, raw + after, off + 4, 4, 1);
    LeAtShift(before, raw + after, off + 8, 8, 4);
    LeAtShift(before, raw + after, off + 12, 12, 4);
    assert table[off] == raw[0];
  }

  /** The fields of an encoded record. */
  lemma EncodedFields(e: PartitionEntry)
    requires EntryOk(e)
    ensures var raw := EncodeEntry(e);
            (raw[0] == BOOTABLE) == e.bootable && LeAt(raw, 4, 1) == e.partitionType
            && LeAt(raw, 8, 4) == e.lba && LeAt(raw, 12, 4) == e.sectorCount
  {
    var head := [if e.bootable then BOOTABLE else 0, 0, 0, 0] + ToLe(e.partitionType, 1) + [0, 0, 0];
    var lba, count := ToLe(e.lba, 4), ToLe(e.sectorCount, 4);
    assert EncodeEntry(e) == head + (lba + count);
    assert Pow256(1) == 0x100 && Pow256(4) == 0x1_0000_0000;
    assert head[4..5] == ToLe(e.partitionType, 1);
    LeToLe(e.partitionType, 1);
    LeAtPrefix(head, lba + count, 4, 1);
    LeAtWhole(e.lba, 4);
    LeAtPrefix(lba, count, 0, 4);
    LeAtShift(head, lba + count, 8, 0, 4);
    LeAtWhole(e.sectorCount, 4);
    LeAtShift(head + lba, count, 12, 0, 4);
    assert head + (lba + count) == head + lba + count;
  }
}
