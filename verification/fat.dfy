/**
 * The stage-2 FAT reader: the BIOS parameter block in the boot sector, the
 * volume geometry derived from it, the FAT type by cluster count, and the
 * decoding of one file-allocation-table entry, as in the "FAT Type
 * Determination" section of Microsoft's FAT32 File System Specification.
 *
 * The disk is a function from a byte position, counted from the start of
 * the partition, to the byte stored there; a read of `len` bytes at sector
 * `s` returns the bytes from `s * 512`. Sectors are 512 bytes for the disk
 * reads whatever the parameter block says. Arithmetic that panics in the
 * source (division by zero, an unsigned subtraction below zero) is an
 * explicit `None`.
 */
module Fat {
  import opened Wrappers
  import opened Bytes
  import Powers

  const SECTOR_SIZE: nat := 512
  const ROOT_DIR_ENTRY_SIZE: nat := 0x20

  /** Byte `a` of the partition. */
  type Disk = nat -> byte

  /** `len` bytes of the disk from byte position `at`. */
  function Window(disk: Disk, at: nat, len: nat): (w: seq<byte>)
    ensures |w| == len && forall i :: 0 <= i < len ==> w[i] == disk(at + i)
  {
    seq(len, i requires 0 <= i < len => disk(at + i))
  }

  /** `seek(Start(sector))` followed by `read_exact` into a `len`-byte buffer. */
  function ReadSectors(disk: Disk, sector: nat, len: nat): (w: seq<byte>)
    ensures |w| == len
    ensures forall i :: 0 <= i < len ==> w[i] == disk(sector * SECTOR_SIZE + i)
  {
    Window(disk, sector * SECTOR_SIZE, len)
  }

  /** A slice of a window is the window further on. */
  lemma WindowSlice(disk: Disk, at: nat, len: nat, off: nat, n: nat)
    requires off + n <= len
    ensures Window(disk, at, len)[off..off + n] == Window(disk, at + off, n)
  {
  }

  // ---------------------------------------------------------------------------
  // BIOS parameter block

  datatype Bpb = Bpb(
    bytesPerSector: nat,
    sectorsPerCluster: nat,
    reservedSectorCount: nat,
    fatCount: nat,
    rootEntryCount: nat,
    totalSectors16: nat,
    totalSectors32: nat,
    fat16Size: nat,
    fat32Size: nat,
    rootCluster: nat)

  /** Every field fits the width it is stored in. */
  predicate BpbInRange(b: Bpb) {
    b.bytesPerSector < 0x1_0000 && b.sectorsPerCluster < 0x100 && b.reservedSectorCount < 0x1_0000
    && b.fatCount < 0x100 && b.rootEntryCount < 0x1_0000 && b.totalSectors16 < 0x1_0000
    && b.totalSectors32 < 0x1_0000_0000 && b.fat16Size < 0x1_0000 && b.fat32Size < 0x1_0000_0000
    && b.rootCluster < 0x1_0000_0000
  }

  /**
   * A block `parse` can return: exactly one total-sectors field is nonzero,
   * and a FAT12/16 block (16-bit total) has no FAT32 fields.
   */
  predicate BpbShape(b: Bpb) {
    (b.totalSectors16 != 0 && b.totalSectors32 == 0 && b.fat32Size == 0 && b.rootCluster == 0)
    || (b.totalSectors32 != 0 && b.totalSectors16 == 0)
  }

  /**
   * `BiosParameterBlock::parse` on the first sector: little-endian fields at
   * offsets 11, 13, 14, 16, 17, 19, 22 and 32, and for FAT32 also 36 and
   * 44. `None` is the panic when both or neither total-sectors field is zero.
   */
  function ParseBootSector(raw: seq<byte>): (r: Option<Bpb>)
    requires |raw| == SECTOR_SIZE
    ensures r.Some? <==> (U16At(raw, 19) == 0) != (U32At(raw, 32) == 0)
    ensures r.Some? ==> BpbInRange(r.value) && BpbShape(r.value)
  {
    var total16 := U16At(raw, 19);
    var total32 := U32At(raw, 32);
    if total16 != 0 && total32 == 0 then
      Some(Bpb(U16At(raw, 11), U8At(raw, 13), U16At(raw, 14), U8At(raw, 16), U16At(raw, 17),
               total16, total32, U16At(raw, 22), 0, 0))
    else if total32 != 0 && total16 == 0 then
      Some(Bpb(U16At(raw, 11), U8At(raw, 13), U16At(raw, 14), U8At(raw, 16), U16At(raw, 17),
               total16, total32, U16At(raw, 22), U32At(raw, 36), U32At(raw, 44)))
    else None
  }

  /** `parse` reads the boot sector, sector 0 of the partition. */
  function ParseBpb(disk: Disk): Option<Bpb> {
    ParseBootSector(ReadSectors(disk, 0, SECTOR_SIZE))
  }

  /** Byte `i` of a boot sector holding `b`; every other byte is zero. */
  function BootSectorByte(b: Bpb, i: nat): byte
    requires BpbInRange(b)
  {
    if 11 <= i < 13 then ToLe(b.bytesPerSector, 2)[i - 11]
    else if i == 13 then ToLe(b.sectorsPerCluster, 1)[0]
    else if 14 <= i < 16 then ToLe(b.reservedSectorCount, 2)[i - 14]
    else if i == 16 then ToLe(b.fatCount, 1)[0]
    else if 17 <= i < 19 then ToLe(b.rootEntryCount, 2)[i - 17]
    else if 19 <= i < 21 then ToLe(b.totalSectors16, 2)[i - 19]
    else if 22 <= i < 24 then ToLe(b.fat16Size, 2)[i - 22]
    else if 32 <= i < 36 then ToLe(b.totalSectors32, 4)[i - 32]
    else if 36 <= i < 40 then ToLe(b.fat32Size, 4)[i - 36]
    else if 44 <= i < 48 then ToLe(b.rootCluster, 4)[i - 44]
    else 0
  }

  /** A boot sector as a formatter writes it. */
  function EncodeBootSector(b: Bpb): (raw: seq<byte>)
    requires BpbInRange(b)
    ensures |raw| == SECTOR_SIZE
  {
    seq(SECTOR_SIZE, i requires 0 <= i < SECTOR_SIZE => BootSectorByte(b, i))
  }

  /** A field whose bytes are `ToLe(v, n)` reads back as `v`. */
  lemma FieldAt(raw: seq<byte>, off: nat, n: nat, v: nat)
    requires off + n <= |raw| && v < Pow256(n)
    requires forall i :: off <= i < off + n ==> raw[i] == ToLe(v, n)[i - off]
    ensures LeAt(raw, off, n) == v
  {
    assert raw[off..off + n] == ToLe(v, n);
    LeToLe(v, n);
  }

  /** The 16-bit fields of an encoded boot sector. */
  lemma ShortFields(b: Bpb)
    requires BpbInRange(b)
    ensures var raw := EncodeBootSector(b);
            LeAt(raw, 11, 2) == b.bytesPerSector && LeAt(raw, 14, 2) == b.reservedSectorCount
            && LeAt(raw, 17, 2) == b.rootEntryCount && LeAt(raw, 19, 2) == b.totalSectors16
            && LeAt(raw, 22, 2) == b.fat16Size && LeAt(raw, 13, 1) == b.sectorsPerCluster && LeAt(raw, 16, 1) == b.fatCount
  {
    var raw := EncodeBootSector(b);
    assert Pow256(2) == 0x1_0000;
    FieldAt(raw, 11, 2, b.bytesPerSector);
    FieldAt(raw, 14, 2, b.reservedSectorCount);
    FieldAt(raw, 17, 2, b.rootEntryCount);
    CountFields(b);
    assert Pow256(1) == 0x100;
    FieldAt(raw, 13, 1, b.sectorsPerCluster);
    FieldAt(raw, 16, 1, b.fatCount);
  }

  lemma CountFields(b: Bpb)
    requires BpbInRange(b)
    ensures var raw := EncodeBootSector(b);
            LeAt(raw, 19, 2) == b.totalSectors16 && LeAt(raw, 22, 2) == b.fat16Size
  {
    var raw := EncodeBootSector(b);
    assert Pow256(2) == 0x1_0000;
    FieldAt(raw, 19, 2, b.totalSectors16);
    FieldAt(raw, 22, 2, b.fat16Size);
  }

  /** The 32-bit fields of an encoded boot sector. */
  lemma LongFields(b: Bpb)
    requires BpbInRange(b)
    ensures var raw := EncodeBootSector(b);
            LeAt(raw, 32, 4) == b.totalSectors32 && LeAt(raw, 36, 4) == b.fat32Size && LeAt(raw, 44, 4) == b.rootCluster
  {
    var raw := EncodeBootSector(b);
    assert Pow256(4) == 0x1_0000_0000;
    FieldAt(raw, 32, 4, b.totalSectors32);
    FieldAt(raw, 36, 4, b.fat32Size);
    FieldAt(raw, 44, 4, b.rootCluster);
  }

  /** Parsing an encoded boot sector gives back its parameter block. */
  lemma BootSectorRoundTrip(b: Bpb)
    requires BpbInRange(b) && BpbShape(b)
    ensures ParseBootSector(EncodeBootSector(b)) == Some(b)
  {
    var raw := EncodeBootSector(b);
    ShortFields(b);
    LongFields(b);
    ParseFields(raw, b);
  }

  /** A partition whose sector 0 holds an encoded boot sector parses back to it. */
  lemma ParseBpbRoundTrip(disk: Disk, b: Bpb)
    requires BpbInRange(b) && BpbShape(b)
    requires forall i :: 0 <= i < SECTOR_SIZE ==> disk(i) == EncodeBootSector(b)[i]
    ensures ParseBpb(disk) == Some(b)
  {
    assert ReadSectors(disk, 0, SECTOR_SIZE) == EncodeBootSector(b);
    BootSectorRoundTrip(b);
  }

  /** `ParseBootSector` on any sector whose fields hold `b`. */
  lemma ParseFields(raw: seq<byte>, b: Bpb)
    requires |raw| == SECTOR_SIZE && BpbShape(b)
    requires LeAt(raw, 11, 2) == b.bytesPerSector && LeAt(raw, 13, 1) == b.sectorsPerCluster
    requires LeAt(raw, 14, 2) == b.reservedSectorCount && LeAt(raw, 16, 1) == b.fatCount
    requires LeAt(raw, 17, 2) == b.rootEntryCount && LeAt(raw, 19, 2) == b.totalSectors16
    requires LeAt(raw, 22, 2) == b.fat16Size && LeAt(raw, 32, 4) == b.totalSectors32
    requires LeAt(raw, 36, 4) == b.fat32Size && LeAt(raw, 44, 4) == b.rootCluster
    ensures ParseBootSector(raw) == Some(b)
  {
  }

  // ---------------------------------------------------------------------------
  // Geometry

  /** `root_dir_sectors`: the root directory's 32-byte entries rounded up to whole sectors. */
  function RootDirSectors(b: Bpb): (r: Option<nat>)
    ensures r.Some? <==> b.bytesPerSector > 0
    ensures r.Some? ==> r.value * b.bytesPerSector >= b.rootEntryCount * ROOT_DIR_ENTRY_SIZE
                        && r.value * b.bytesPerSector < b.rootEntryCount * ROOT_DIR_ENTRY_SIZE + b.bytesPerSector
  {
    if b.bytesPerSector == 0 then None
    else
      var x := b.rootEntryCount * ROOT_DIR_ENTRY_SIZE + b.bytesPerSector - 1;
      var q := x / b.bytesPerSector;
      assert x == q * b.bytesPerSector + x % b.bytesPerSector;
      Some(q)
  }

  /**
   * `fat_size`: the 16-bit field when only it is set, otherwise the 32-bit
   * one, which the debug assertion requires to be the only one set.
   */
  function FatSize(b: Bpb): (r: Option<nat>)
    ensures r.Some? <==> (b.fat16Size == 0) != (b.fat32Size == 0)
    ensures r.Some? ==> r.value > 0 && (r.value == b.fat16Size || r.value == b.fat32Size)
  {
    if b.fat16Size != 0 && b.fat32Size == 0 then Some(b.fat16Size)
    else if b.fat16Size == 0 && b.fat32Size != 0 then Some(b.fat32Size)
    else None
  }

  /** `first_root_dir_sector`: past the reserved sectors and every copy of the FAT. */
  function FirstRootDirSector(b: Bpb): (r: Option<nat>)
    ensures r.Some? <==> b.bytesPerSector > 0 && FatSize(b).Some?
    ensures r.Some? ==> r.value == b.reservedSectorCount + b.fatCount * FatSize(b).value
  {
    match (FatSize(b), RootDirSectors(b))
    case (Some(fs), Some(rds)) =>
      var first := b.reservedSectorCount + b.fatCount * fs + rds;
      Some(first - rds)
    case _ => None
  }

  /** `first_data_sector`: the data region follows the root directory. */
  function FirstDataSector(b: Bpb): (r: Option<nat>)
    ensures r.Some? <==> FirstRootDirSector(b).Some?
    ensures r.Some? ==> r.value == FirstRootDirSector(b).value + RootDirSectors(b).value
  {
    match (FatSize(b), RootDirSectors(b))
    case (Some(fs), Some(rds)) => Some(b.reservedSectorCount + b.fatCount * fs + rds)
    case _ => None
  }

  /** The total sector count: the 16-bit field unless it is zero. */
  function TotalSectors(b: Bpb): nat {
    if b.totalSectors16 != 0 then b.totalSectors16 else b.totalSectors32
  }

  /**
   * `count_of_clusters`: the whole clusters in the data region. `None` when
   * the data region would start past the end of the volume (the
   * subtraction panics) or a cluster has no sectors.
   */
  function CountOfClusters(b: Bpb): (r: Option<nat>)
    ensures r.Some? <==> FirstDataSector(b).Some? && FirstDataSector(b).value <= TotalSectors(b) && b.sectorsPerCluster > 0
    ensures r.Some? ==> r.value * b.sectorsPerCluster <= TotalSectors(b) - FirstDataSector(b).value
                        < (r.value + 1) * b.sectorsPerCluster
  {
    match FirstDataSector(b)
    case None => None
    case Some(fds) =>
      if fds > TotalSectors(b) || b.sectorsPerCluster == 0 then None
      else
        var data := TotalSectors(b) - fds;
        var q := data / b.sectorsPerCluster;
        assert data == q * b.sectorsPerCluster + data % b.sectorsPerCluster;
        Some(q)
  }

  datatype FatType = Fat12 | Fat16 | Fat32

  /** `fat_type`: fewer than 4085 clusters is FAT12, fewer than 65525 FAT16, otherwise FAT32. */
  function FatTypeOf(b: Bpb): (r: Option<FatType>)
    ensures r.Some? <==> CountOfClusters(b).Some?
    ensures r == Some(Fat12) <==> CountOfClusters(b).Some? && CountOfClusters(b).value < 4085
    ensures r == Some(Fat16) <==> CountOfClusters(b).Some? && 4085 <= CountOfClusters(b).value < 65525
    ensures r == Some(Fat32) <==> CountOfClusters(b).Some? && 65525 <= CountOfClusters(b).value
  {
    match CountOfClusters(b)
    case None => None
    case Some(n) => Some(if n < 4085 then Fat12 else if n < 65525 then Fat16 else Fat32)
  }

  /** `first_cluster_sector`: clusters are numbered from 2 at the first data sector. */
  function FirstClusterSector(b: Bpb, cluster: nat): (r: Option<nat>)
    ensures r.Some? <==> cluster >= 2 && FirstDataSector(b).Some?
  {
    if cluster < 2 then None
    else match FirstDataSector(b)
      case None => None
      case Some(fds) => Some((cluster - 2) * b.sectorsPerCluster + fds)
  }

  /**
   * Cluster 2 starts the data region and each cluster starts
   * `sectors_per_cluster` sectors after the one before it, so the clusters'
   * sector ranges tile the data region without overlapping.
   */
  lemma ClusterSectors(b: Bpb, n: nat)
    requires n >= 2 && FirstDataSector(b).Some?
    ensures FirstClusterSector(b, 2) == FirstDataSector(b)
    ensures FirstClusterSector(b, n + 1).value == FirstClusterSector(b, n).value + b.sectorsPerCluster
    ensures FirstClusterSector(b, n).value >= FirstDataSector(b).value
  {
    assert (n + 1 - 2) * b.sectorsPerCluster == (n - 2) * b.sectorsPerCluster + b.sectorsPerCluster;
  }

  /** Distinct clusters occupy disjoint sector ranges. */
  lemma {:induction false} ClustersDisjoint(b: Bpb, m: nat, n: nat)
    requires 2 <= m < n && FirstDataSector(b).Some?
    ensures FirstClusterSector(b, m).value + b.sectorsPerCluster <= FirstClusterSector(b, n).value
    decreases n - m
  {
    ClusterSectors(b, n - 1);
    if m < n - 1 {
      ClustersDisjoint(b, m, n - 1);
    }
  }

  // ---------------------------------------------------------------------------
  // File allocation table entries

  /** `classification_threshold`: the bad-cluster marker of each FAT type. */
  function Threshold(t: FatType): nat {
    match t
    case Fat12 => 0xFF7
    case Fat16 => 0xFFF7
    case Fat32 => 0xFFFFFF7
  }

  datatype FatEntry = EndOfFile | Cluster(number: nat) | BadCluster | ReservedCluster

  /** `FatEntry::parse`: 0 and 1 are reserved, the threshold is bad, above it ends the chain. */
  function ParseFatEntry(val: nat, t: FatType): (e: FatEntry)
    ensures e == ReservedCluster <==> val <= 1
    ensures e == BadCluster <==> val == Threshold(t)
    ensures e == EndOfFile <==> val > Threshold(t)
    ensures e.Cluster? <==> 2 <= val < Threshold(t)
    ensures e.Cluster? ==> e.number == val
  {
    if val <= 1 then ReservedCluster
    else if val > Threshold(t) then EndOfFile
    else if val == Threshold(t) then BadCluster
    else Cluster(val)
  }

  /**
   * On a FAT12 or FAT16 volume every data cluster number, 2 to
   * `count_of_clusters + 1`, is below the type's threshold, so an entry
   * pointing at one reads as that cluster and never as bad or end of file.
   */
  lemma DataClustersBelowThreshold(b: Bpb, n: nat)
    requires FatTypeOf(b) == Some(Fat12) || FatTypeOf(b) == Some(Fat16)
    requires 2 <= n <= CountOfClusters(b).value + 1
    ensures ParseFatEntry(n, FatTypeOf(b).value) == Cluster(n)
  {
  }

  /**
   * `FileAllocationTable::get_entry` for the table starting at sector
   * `first` with `sectorSize`-byte sectors. `None` is a panic: a zero
   * sector size, or an entry offset whose bytes run past the buffer read
   * (two sectors for FAT12, one otherwise).
   */
  function GetEntry(disk: Disk, t: FatType, first: nat, sectorSize: nat, cluster: nat): Option<FatEntry> {
    if sectorSize == 0 then None
    else
      var width := if t == Fat32 then 4 else 2;
      var fatOffset := match t
        case Fat12 => cluster + cluster / 2
        case Fat16 => cluster * 2
        case Fat32 => cluster * 4;
      var sector := first + fatOffset / sectorSize;
      var entryOffset := fatOffset % sectorSize;
      var buffer := ReadSectors(disk, sector, if t == Fat12 then 2 * SECTOR_SIZE else SECTOR_SIZE);
      if entryOffset + width > |buffer| then None
      else
        var value := LeAt(buffer, entryOffset, width);
        var val := match t
          case Fat12 => if cluster % 2 == 1 then value / 16 else value % 0x1000
          case Fat16 => value
          case Fat32 => value % 0x1000_0000;
        Some(ParseFatEntry(val, t))
  }

  /**
   * Entry `n` of the table at sector `first`, as the FAT specification lays
   * the table out: FAT12 entries are the consecutive 12-bit fields of the
   * table read as one little-endian number, FAT16 entries 16-bit fields and
   * FAT32 entries the low 28 bits of 32-bit fields.
   */
  function EntryValue(disk: Disk, t: FatType, first: nat, n: nat): nat {
    var base := first * SECTOR_SIZE;
    match t
    case Fat12 => (Le(Window(disk, base, n + n / 2 + 2)) / Powers.Pow2(12 * n)) % 0x1000
    case Fat16 => Le(Window(disk, base + 2 * n, 2))
    case Fat32 => Le(Window(disk, base + 4 * n, 4)) % 0x1000_0000
  }

  /** With 512-byte sectors, `get_entry` decodes exactly entry `n` of the table. */
  lemma GetEntryReadsTable(disk: Disk, t: FatType, first: nat, n: nat)
    ensures GetEntry(disk, t, first, SECTOR_SIZE, n) == Some(ParseFatEntry(EntryValue(disk, t, first, n), t))
  {
    match t
    case Fat12 => GetEntry12(disk, first, n);
    case Fat16 => GetEntry16(disk, first, n);
    case Fat32 => GetEntry32(disk, first, n);
  }

  lemma GetEntry12(disk: Disk, first: nat, n: nat)
    ensures GetEntry(disk, Fat12, first, SECTOR_SIZE, n) == Some(ParseFatEntry(EntryValue(disk, Fat12, first, n), Fat12))
  {
    var x := TableField(disk, first, n + n / 2, 2 * SECTOR_SIZE, 2);
    Fat12Entry(disk, first * SECTOR_SIZE, n);
  }

  lemma GetEntry16(disk: Disk, first: nat, n: nat)
    ensures GetEntry(disk, Fat16, first, SECTOR_SIZE, n) == Some(ParseFatEntry(EntryValue(disk, Fat16, first, n), Fat16))
  {
    var x := TableField(disk, first, n * 2, SECTOR_SIZE, 2);
  }

  lemma GetEntry32(disk: Disk, first: nat, n: nat)
    ensures GetEntry(disk, Fat32, first, SECTOR_SIZE, n) == Some(ParseFatEntry(EntryValue(disk, Fat32, first, n), Fat32))
  {
    var x := TableField(disk, first, n * 4, SECTOR_SIZE, 4);
  }

  /** The field of `width` bytes at byte `off` of the table, read through the sector holding it. */
  lemma TableField(disk: Disk, first: nat, off: nat, len: nat, width: nat) returns (x: nat)
    requires off % SECTOR_SIZE + width <= len
    ensures x == Le(Window(disk, first * SECTOR_SIZE + off, width))
    ensures LeAt(ReadSectors(disk, first + off / SECTOR_SIZE, len), off % SECTOR_SIZE, width) == x
  {
    var sector := first + off / SECTOR_SIZE;
    var eo := off % SECTOR_SIZE;
    assert sector * SECTOR_SIZE + eo == first * SECTOR_SIZE + off;
    WindowSlice(disk, sector * SECTOR_SIZE, len, eo, width);
    x := Le(Window(disk, first * SECTOR_SIZE + off, width));
  }

  lemma Pow2Bytes(k: nat)
    ensures Powers.Pow2(8 * k) == Pow256(k)
  {
    if k > 0 {
      Pow2Bytes(k - 1);
      Pow2Add(8 * (k - 1), 8);
    }
  }

  lemma {:induction false} Pow2Add(a: nat, b: nat)
    ensures Powers.Pow2(a + b) == Powers.Pow2(a) * Powers.Pow2(b)
    decreases b
  {
    if b > 0 {
      Pow2Add(a, b - 1);
      MulAssoc(Powers.Pow2(a), 2, Powers.Pow2(b - 1));
      MulComm(Powers.Pow2(a), 2);
      MulAssoc(2, Powers.Pow2(a), Powers.Pow2(b - 1));
    }
  }

  /**
   * The two bytes at `n + n / 2` of the table hold FAT12 entry `n`: its low
   * 12 bits for an even `n`, its high 12 bits for an odd one.
   */
  lemma Fat12Entry(disk: Disk, base: nat, n: nat)
    ensures var k := n + n / 2;
            var x := Le(Window(disk, base + k, 2));
            (Le(Window(disk, base, k + 2)) / Powers.Pow2(12 * n)) % 0x1000
              == if n % 2 == 1 then x / 16 else x % 0x1000
  {
    var k := n + n / 2;
    var w := Window(disk, base, k + 2);
    var x := Le(Window(disk, base + k, 2));
    WindowHigh(disk, base, k);
    Pow2Bytes(k);
    if n % 2 == 0 {
      assert 12 * n == 8 * k;
    } else {
      Fat12Odd(Le(w), k, x);
      assert 12 * n == 8 * k + 4;
    }
  }

  /** The bytes from `k` of a `k + 2`-byte window, as a number. */
  lemma WindowHigh(disk: Disk, base: nat, k: nat)
    ensures Le(Window(disk, base, k + 2)) / Pow256(k) == Le(Window(disk, base + k, 2)) < 0x1_0000
  {
    var w := Window(disk, base, k + 2);
    assert w == w[..k] + Window(disk, base + k, 2);
    LeConcatDivMod(w[..k], Window(disk, base + k, 2));
    LeBound(Window(disk, base + k, 2));
  }

  lemma Fat12Odd(v: nat, k: nat, x: nat)
    requires v / Pow256(k) == x < 0x1_0000
    ensures (v / Powers.Pow2(8 * k + 4)) % 0x1000 == x / 16
  {
    Pow2Bytes(k);
    Pow2Add(8 * k, 4);
    assert Powers.Pow2(4) == 16;
    DivDiv(v, Pow256(k), 16);
  }

  // ---------------------------------------------------------------------------
  // Directory entries

  const END_OF_DIRECTORY: byte := 0x00
  const UNUSED_ENTRY: byte := 0xE5
  const NORMAL_ENTRY_SIZE: nat := 0x20
  const LONG_FILE_NAME: nat := 0x0F
  const DIRECTORY: nat := 0x10
  /** The capacity of a long name, in characters. */
  const NAME_CAPACITY: nat := 255

  /**
   * A parsed entry. Names are sequences of Unicode scalar values: the 11
   * bytes of an 8.3 name as Latin-1 characters, or the decoded long name.
   */
  datatype DirEntry =
    | Unused
    | EndOfDir
    | Normal(name: seq<nat>, attributes: nat, firstCluster: nat, size: nat)
    | LongName(name: seq<nat>, attributes: nat, firstCluster: nat, size: nat)

  datatype ParseOutcome = ParsePanicked | ParsedEntry(consumed: nat, entry: DirEntry)

  /** The first cluster, `hi16(20..22) << 16 | lo16(26..28)`. */
  function FirstClusterField(e: seq<byte>): (c: nat)
    requires |e| >= NORMAL_ENTRY_SIZE
    ensures c / 0x1_0000 == U16At(e, 20) && c % 0x1_0000 == U16At(e, 26)
  {
    U16At(e, 20) * 0x1_0000 + U16At(e, 26)
  }

  /** Byte offset of UTF-16 unit `i` of a long-name entry: 5 units at 1, 6 at 14, 2 at 28. */
  function UnitOffset(i: nat): (off: nat)
    requires i < 13
    ensures off + 2 <= NORMAL_ENTRY_SIZE && off != 11 && off + 1 != 11
  {
    if i < 5 then 1 + 2 * i else if i < 11 then 14 + 2 * (i - 5) else 28 + 2 * (i - 11)
  }

  /** The 13 UTF-16 units of a long-name entry. */
  function Units(e: seq<byte>): (us: seq<nat>)
    requires |e| >= NORMAL_ENTRY_SIZE
    ensures |us| == 13
  {
    seq(13, i requires 0 <= i < 13 => U16At(e, UnitOffset(i)))
  }

  /** `take_while(|&c| c != 0)`. */
  function TakeNonZero(us: seq<nat>): (r: seq<nat>)
    ensures |r| <= |us| && r == us[..|r|]
    ensures forall i :: 0 <= i < |r| ==> r[i] != 0
    ensures |r| < |us| ==> us[|r|] == 0
    decreases |us|
  {
    if us == [] || us[0] == 0 then [] else [us[0]] + TakeNonZero(us[1..])
  }

  predicate IsLeadSurrogate(u: nat) { 0xD800 <= u < 0xDC00 }
  predicate IsTrailSurrogate(u: nat) { 0xDC00 <= u < 0xE000 }

  /** A Unicode scalar value: below 0x110000 and not a surrogate. */
  predicate IsScalar(c: nat) { c < 0x11_0000 && !(0xD800 <= c < 0xE000) }

  /**
   * `char::decode_utf16` followed by `filter_map(|c| c.ok())`: a lead
   * surrogate followed by a trail surrogate is one supplementary
   * character, and an unpaired surrogate is an error that is dropped.
   */
  function DecodeUtf16(us: seq<nat>): (cs: seq<nat>)
    requires forall i :: 0 <= i < |us| ==> us[i] < 0x1_0000
    ensures forall i :: 0 <= i < |cs| ==> IsScalar(cs[i])
    ensures |cs| <= |us|
    decreases |us|
  {
    if us == [] then []
    else if IsLeadSurrogate(us[0]) && |us| > 1 && IsTrailSurrogate(us[1]) then
      [0x1_0000 + (us[0] - 0xD800) * 0x400 + (us[1] - 0xDC00)] + DecodeUtf16(us[2..])
    else if IsLeadSurrogate(us[0]) || IsTrailSurrogate(us[0]) then DecodeUtf16(us[1..])
    else [us[0]] + DecodeUtf16(us[1..])
  }

  /** Without surrogates, decoding keeps every unit as its character. */
  lemma {:induction false} DecodeBasic(us: seq<nat>)
    requires forall i :: 0 <= i < |us| ==> us[i] < 0x1_0000 && !IsLeadSurrogate(us[i]) && !IsTrailSurrogate(us[i])
    ensures DecodeUtf16(us) == us
    decreases |us|
  {
    if us != [] {
      DecodeBasic(us[1..]);
    }
  }

  /** The characters one long-name entry contributes. */
  function LongNamePart(e: seq<byte>): seq<nat>
    requires |e| >= NORMAL_ENTRY_SIZE
  {
    DecodeUtf16(TakeNonZero(Units(e)))
  }

  /** Entry `k` of `raw`, as `raw.chunks(0x20)` yields it: the last may be short. */
  function Chunk(raw: seq<byte>, k: nat): (c: seq<byte>)
    requires NORMAL_ENTRY_SIZE * k < |raw|
    ensures 0 < |c| <= NORMAL_ENTRY_SIZE
  {
    var start := NORMAL_ENTRY_SIZE * k;
    raw[start..if start + NORMAL_ENTRY_SIZE <= |raw| then start + NORMAL_ENTRY_SIZE else |raw|]
  }

  /**
   * The loop over the entries of a long-name chain, from entry `k`, with the
   * name collected so far. Each long-name entry's characters are appended
   * (`prepend == false`, as the source does) or put in front
   * (`prepend == true`); the first other entry ends the chain and gives the
   * cluster, size and attributes. Running out of entries fails the
   * `total_size != 0` assertion and a name past 255 characters indexes
   * past the name array; both are panics, as is a short entry.
   */
  function LongNameChain(raw: seq<byte>, k: nat, name: seq<nat>, prepend: bool): (r: ParseOutcome)
    requires |name| <= NAME_CAPACITY
    ensures r.ParsedEntry? ==> r.entry.LongName? && |r.entry.name| <= NAME_CAPACITY
    ensures r.ParsedEntry? ==> NORMAL_ENTRY_SIZE * (k + 1) <= r.consumed <= |raw| && r.consumed % NORMAL_ENTRY_SIZE == 0
    decreases |raw| - NORMAL_ENTRY_SIZE * k
  {
    if NORMAL_ENTRY_SIZE * k >= |raw| then ParsePanicked
    else
      var e := Chunk(raw, k);
      if |e| < 12 then ParsePanicked
      else if U8At(e, 11) == LONG_FILE_NAME then
        if |e| < NORMAL_ENTRY_SIZE then ParsePanicked
        else
          var part := LongNamePart(e);
          if |name| + |part| > NAME_CAPACITY then ParsePanicked
          else LongNameChain(raw, k + 1, if prepend then part + name else name + part, prepend)
      else if |e| < NORMAL_ENTRY_SIZE then ParsePanicked
      else ParsedEntry(NORMAL_ENTRY_SIZE * (k + 1), LongName(name, U8At(e, 11), FirstClusterField(e), U32At(e, 28)))
  }

  /**
   * `DirectoryEntry::parse` on the rest of the directory buffer, with the
   * long-name order chosen by `prepend`. A first byte of 0 ends the
   * directory and 0xE5 marks a free entry, each 32 bytes; attribute 0x0F
   * starts a long-name chain.
   */
  function ParseEntryWith(raw: seq<byte>, prepend: bool): (r: ParseOutcome)
    ensures |raw| > 0 && raw[0] == END_OF_DIRECTORY ==> r == ParsedEntry(NORMAL_ENTRY_SIZE, EndOfDir)
    ensures |raw| > 0 && raw[0] == UNUSED_ENTRY ==> r == ParsedEntry(NORMAL_ENTRY_SIZE, Unused)
    ensures r.ParsedEntry? ==> r.consumed >= NORMAL_ENTRY_SIZE && r.consumed % NORMAL_ENTRY_SIZE == 0
    ensures r.ParsedEntry? && (r.entry.Normal? || r.entry.LongName?) ==> r.consumed <= |raw|
    ensures r.ParsedEntry? && (r.entry.EndOfDir? || r.entry.Unused?) ==> r.consumed == NORMAL_ENTRY_SIZE
    ensures r.ParsedEntry? && r.entry.Normal? ==> U8At(raw, 11) != LONG_FILE_NAME
    ensures r.ParsedEntry? && r.entry.LongName? ==> U8At(raw, 11) == LONG_FILE_NAME
    ensures r.ParsedEntry? ==> |raw| > 0
  {
    if |raw| == 0 then ParsePanicked
    else if raw[0] == END_OF_DIRECTORY then ParsedEntry(NORMAL_ENTRY_SIZE, EndOfDir)
    else if raw[0] == UNUSED_ENTRY then ParsedEntry(NORMAL_ENTRY_SIZE, Unused)
    else if |raw| < 12 then ParsePanicked
    else if U8At(raw, 11) == LONG_FILE_NAME then
      var r := LongNameChain(raw, 0, [], prepend);
      assert Chunk(raw, 0)[11] == raw[11];
      r
    else if |raw| < NORMAL_ENTRY_SIZE then ParsePanicked
    else ParsedEntry(NORMAL_ENTRY_SIZE, Normal(seq(11, i requires 0 <= i < 11 => U8At(raw, i)), U8At(raw, 11), FirstClusterField(raw), U32At(raw, 28)))
  }

  /**
   * The parse panics exactly on an empty buffer, a buffer too short for the
   * attribute byte or for a whole 8.3 entry, and a long-name chain that
   * panics.
   */
  lemma ParseEntryPanics(raw: seq<byte>, prepend: bool)
    ensures ParseEntryWith(raw, prepend) == ParsePanicked <==>
              |raw| == 0 || (raw[0] != END_OF_DIRECTORY && raw[0] != UNUSED_ENTRY
                             && (|raw| < 12 || (U8At(raw, 11) != LONG_FILE_NAME && |raw| < NORMAL_ENTRY_SIZE)
                                 || (U8At(raw, 11) == LONG_FILE_NAME && LongNameChain(raw, 0, [], prepend) == ParsePanicked)))
  {
  }

  function ParseEntryAsWritten(raw: seq<byte>): ParseOutcome {
    ParseEntryWith(raw, false)
  }

  function ParseEntry(raw: seq<byte>): ParseOutcome {
    ParseEntryWith(raw, true)
  }

  // ---------------------------------------------------------------------------
  // Encoding directory entries

  /** What an 8.3 entry can hold: a name not starting with an end or free marker, and no long-name attribute. */
  predicate ShortEntryOk(name: seq<byte>, attributes: nat, cluster: nat, size: nat) {
    |name| == 11 && name[0] != END_OF_DIRECTORY && name[0] != UNUSED_ENTRY
    && attributes < 0x100 && attributes != LONG_FILE_NAME && cluster < 0x1_0000_0000 && size < 0x1_0000_0000
  }

  /** Byte `i` of an 8.3 entry; the time and date fields are zero. */
  function ShortEntryByte(name: seq<byte>, attributes: nat, cluster: nat, size: nat, i: nat): byte
    requires ShortEntryOk(name, attributes, cluster, size)
  {
    if i < 11 then name[i]
    else if i == 11 then ToLe(attributes, 1)[0]
    else if 20 <= i < 22 then ToLe(cluster / 0x1_0000, 2)[i - 20]
    else if 26 <= i < 28 then ToLe(cluster % 0x1_0000, 2)[i - 26]
    else if 28 <= i < 32 then ToLe(size, 4)[i - 28]
    else 0
  }

  function EncodeShortEntry(name: seq<byte>, attributes: nat, cluster: nat, size: nat): (e: seq<byte>)
    requires ShortEntryOk(name, attributes, cluster, size)
    ensures |e| == NORMAL_ENTRY_SIZE
  {
    seq(NORMAL_ENTRY_SIZE, i requires 0 <= i < NORMAL_ENTRY_SIZE => ShortEntryByte(name, attributes, cluster, size, i))
  }

  /** The 8.3 name's bytes as Latin-1 characters. */
  function Latin1(name: seq<byte>): (cs: seq<nat>)
    ensures |cs| == |name| && forall i :: 0 <= i < |name| ==> cs[i] == name[i] as nat
  {
    seq(|name|, i requires 0 <= i < |name| => name[i] as nat)
  }

  /** The numeric fields of an encoded 8.3 entry read back. */
  lemma ShortEntryNumbers(name: seq<byte>, attributes: nat, cluster: nat, size: nat)
    requires ShortEntryOk(name, attributes, cluster, size)
    ensures var e := EncodeShortEntry(name, attributes, cluster, size);
            LeAt(e, 11, 1) == attributes && LeAt(e, 20, 2) == cluster / 0x1_0000
            && LeAt(e, 26, 2) == cluster % 0x1_0000 && LeAt(e, 28, 4) == size
  {
    var e := EncodeShortEntry(name, attributes, cluster, size);
    assert Pow256(1) == 0x100 && Pow256(2) == 0x1_0000 && Pow256(4) == 0x1_0000_0000;
    FieldAt(e, 11, 1, attributes);
    FieldAt(e, 20, 2, cluster / 0x1_0000);
    FieldAt(e, 26, 2, cluster % 0x1_0000);
    FieldAt(e, 28, 4, size);
  }

  /** The fields of an encoded 8.3 entry read back, whatever follows it. */
  lemma ShortEntryFields(name: seq<byte>, attributes: nat, cluster: nat, size: nat, rest: seq<byte>)
    requires ShortEntryOk(name, attributes, cluster, size)
    ensures var raw := EncodeShortEntry(name, attributes, cluster, size) + rest;
            U8At(raw, 11) == attributes && FirstClusterField(raw) == cluster && U32At(raw, 28) == size
            && seq(11, i requires 0 <= i < 11 => U8At(raw, i)) == Latin1(name)
  {
    var e := EncodeShortEntry(name, attributes, cluster, size);
    var raw := e + rest;
    ShortEntryNumbers(name, attributes, cluster, size);
    LeAtPrefix(e, rest, 11, 1);
    LeAtPrefix(e, rest, 20, 2);
    LeAtPrefix(e, rest, 26, 2);
    LeAtPrefix(e, rest, 28, 4);
    ShortEntryName(name, attributes, cluster, size, rest);
  }

  lemma ShortEntryName(name: seq<byte>, attributes: nat, cluster: nat, size: nat, rest: seq<byte>)
    requires ShortEntryOk(name, attributes, cluster, size)
    ensures var raw := EncodeShortEntry(name, attributes, cluster, size) + rest;
            seq(11, i requires 0 <= i < 11 => U8At(raw, i)) == Latin1(name)
  {
    var raw := EncodeShortEntry(name, attributes, cluster, size) + rest;
    forall i | 0 <= i < 11
      ensures U8At(raw, i) == name[i] as nat
    {
      ByteValue(raw, i);
    }
  }

  /** An encoded 8.3 entry parses back, in either long-name order. */
  lemma ShortEntryRoundTrip(name: seq<byte>, attributes: nat, cluster: nat, size: nat, rest: seq<byte>, prepend: bool)
    requires ShortEntryOk(name, attributes, cluster, size)
    ensures ParseEntryWith(EncodeShortEntry(name, attributes, cluster, size) + rest, prepend)
              == ParsedEntry(NORMAL_ENTRY_SIZE, Normal(Latin1(name), attributes, cluster, size))
  {
    ShortEntryFields(name, attributes, cluster, size, rest);
  }

  /** Characters one long-name entry can carry: 1 to 13 of them, each a non-surrogate, nonzero 16-bit unit. */
  predicate NamePartOk(part: seq<nat>) {
    0 < |part| <= 13 && forall i :: 0 <= i < |part| ==> 0 < part[i] < 0x1_0000 && !(0xD800 <= part[i] < 0xE000)
  }

  /** The 13 units of an entry holding `part`: a 0 terminator after a short part, then 0xFFFF padding. */
  function PadUnits(part: seq<nat>): (us: seq<nat>)
    requires NamePartOk(part)
    ensures |us| == 13 && us[..|part|] == part
    ensures |part| < 13 ==> us[|part|] == 0
    ensures UnitsOk(us)
  {
    if |part| == 13 then part
    else part + [0] + seq(12 - |part|, _ => 0xFFFF)
  }

  predicate UnitsOk(units: seq<nat>) {
    forall k :: 0 <= k < |units| ==> units[k] < 0x1_0000
  }

  /** UTF-16 units written back to back, two little-endian bytes each. */
  function UnitBytes(units: seq<nat>): (s: seq<byte>)
    ensures |s| == 2 * |units|
  {
    if units == [] then [] else ToLe(units[0], 2) + UnitBytes(units[1..])
  }

  /**
   * A long-name entry with sequence number `order` carrying 13 units:
   * units 0-4 at byte 1, the attribute byte at 11, type and checksum
   * (left zero) at 12-13, units 5-10 at 14, a zero cluster at 26, units
   * 11-12 at 28.
   */
  function EncodeUnits(order: nat, units: seq<nat>): (e: seq<byte>)
    requires order < 0x100 && |units| == 13
    ensures |e| == NORMAL_ENTRY_SIZE
  {
    LongEntryHead(order, units) + (UnitBytes(units[5..11]) + ([0, 0] + UnitBytes(units[11..])))
  }

  /** The first 14 bytes of a long-name entry. */
  function LongEntryHead(order: nat, units: seq<nat>): (h: seq<byte>)
    requires |units| == 13
    ensures |h| == 14
  {
    ToLe(order, 1) + UnitBytes(units[..5]) + ToLe(LONG_FILE_NAME, 1) + [0, 0]
  }

  function EncodeLongEntry(order: nat, part: seq<nat>): (e: seq<byte>)
    requires order < 0x100 && NamePartOk(part)
    ensures |e| == NORMAL_ENTRY_SIZE
  {
    EncodeUnits(order, PadUnits(part))
  }

  /** Unit `j` of a run sits at byte `2 * j`. */
  lemma {:induction false} UnitBytesAt(units: seq<nat>, j: nat)
    requires j < |units| && UnitsOk(units)
    ensures LeAt(UnitBytes(units), 2 * j, 2) == units[j]
    decreases j
  {
    var head, tail := ToLe(units[0], 2), UnitBytes(units[1..]);
    assert UnitBytes(units) == head + tail;
    assert Pow256(2) == 0x1_0000;
    if j == 0 {
      LeAtPrefix(head, tail, 0, 2);
      LeAtWhole(units[0], 2);
    } else {
      UnitBytesAt(units[1..], j - 1);
      LeAtShift(head, tail, 2 * j, 2 * (j - 1), 2);
    }
  }

  /** Unit `i` of an encoded entry reads back. */
  lemma UnitAt(order: nat, units: seq<nat>, i: nat)
    requires order < 0x100 && |units| == 13 && UnitsOk(units)
    requires i < 13
    ensures LeAt(EncodeUnits(order, units), UnitOffset(i), 2) == units[i]
  {
    var h := LongEntryHead(order, units);
    var mid, last := UnitBytes(units[5..11]), UnitBytes(units[11..]);
    var rest := mid + ([0, 0] + last);
    if i < 5 {
      var lead, run := ToLe(order, 1), UnitBytes(units[..5]);
      var after := ToLe(LONG_FILE_NAME, 1) + [0, 0] + rest;
      assert EncodeUnits(order, units) == lead + (run + after);
      UnitBytesAt(units[..5], i);
      LeAtPrefix(run, after, 2 * i, 2);
      LeAtShift(lead, run + after, 1 + 2 * i, 2 * i, 2);
    } else if i < 11 {
      UnitBytesAt(units[5..11], i - 5);
      LeAtPrefix(mid, [0, 0] + last, 2 * (i - 5), 2);
      LeAtShift(h, rest, UnitOffset(i), 2 * (i - 5), 2);
    } else {
      UnitBytesAt(units[11..], i - 11);
      LeAtShift(h + (mid + [0, 0]), last, UnitOffset(i), 2 * (i - 11), 2);
      assert EncodeUnits(order, units) == h + (mid + [0, 0]) + last;
    }
  }

  /** The attribute byte of an encoded long-name entry. */
  lemma LongEntryAttribute(order: nat, units: seq<nat>)
    requires order < 0x100 && |units| == 13
    ensures U8At(EncodeUnits(order, units), 11) == LONG_FILE_NAME
  {
    var front := ToLe(order, 1) + UnitBytes(units[..5]);
    var back := [0, 0] + (UnitBytes(units[5..11]) + ([0, 0] + UnitBytes(units[11..])));
    assert EncodeUnits(order, units) == front + (ToLe(LONG_FILE_NAME, 1) + back);
    LeAtPrefix(ToLe(LONG_FILE_NAME, 1), back, 0, 1);
    LeAtShift(front, ToLe(LONG_FILE_NAME, 1) + back, 11, 0, 1);
    assert Pow256(1) == 0x100;
    LeAtWhole(LONG_FILE_NAME, 1);
  }

  /** The units of an encoded long-name entry read back. */
  lemma LongEntryUnits(order: nat, units: seq<nat>)
    requires order < 0x100 && |units| == 13 && UnitsOk(units)
    ensures Units(EncodeUnits(order, units)) == units
    ensures U8At(EncodeUnits(order, units), 11) == LONG_FILE_NAME
  {
    var e := EncodeUnits(order, units);
    forall i | 0 <= i < 13
      ensures Units(e)[i] == units[i]
    {
      UnitAt(order, units, i);
    }
    LongEntryAttribute(order, units);
  }

  /** A long-name entry holding `part` contributes exactly `part`. */
  lemma LongEntryPart(order: nat, part: seq<nat>)
    requires order < 0x100 && NamePartOk(part)
    ensures LongNamePart(EncodeLongEntry(order, part)) == part
    ensures U8At(EncodeLongEntry(order, part), 11) == LONG_FILE_NAME
  {
    LongEntryUnits(order, PadUnits(part));
    var t := TakeNonZero(PadUnits(part));
    assert t == part;
    DecodeBasic(part);
  }

  /** The sequence-number byte of an encoded long-name entry. */
  lemma OrderByte(order: nat, units: seq<nat>)
    requires order < 0x100 && |units| == 13
    ensures EncodeUnits(order, units)[0] as nat == order
  {
    var e := EncodeUnits(order, units);
    var lead := ToLe(order, 1);
    assert e == lead + (e[1..]);
    assert Pow256(1) == 0x100;
    LeAtPrefix(lead, e[1..], 0, 1);
    LeAtWhole(order, 1);
    assert e[0..1] == [e[0]];
    assert Le(e[0..1]) == e[0] as nat + 256 * Le([]);
  }

  /** The 32-byte chunks of three entries laid end to end. */
  lemma ThreeChunks(a: seq<byte>, b: seq<byte>, c: seq<byte>, rest: seq<byte>)
    requires |a| == |b| == |c| == NORMAL_ENTRY_SIZE
    ensures var raw := a + (b + (c + rest));
            Chunk(raw, 0) == a && Chunk(raw, 1) == b && Chunk(raw, 2) == c
  {
    var raw := a + (b + (c + rest));
    assert raw[0..32] == a;
    assert raw[32..64] == b;
    assert raw[64..96] == c;
  }

  /**
   * A name split over two long-name entries, stored as the volume stores
   * them: the entry holding the end of the name (`last`) comes first on
   * disk, the one holding its start (`first`) second, then the 8.3 entry.
   * Appending in disk order yields `last + first`; prepending yields the
   * name.
   */
  lemma TwoPartName(first: seq<nat>, last: seq<nat>, name: seq<byte>, attributes: nat, cluster: nat, size: nat,
                    rest: seq<byte>, prepend: bool)
    requires NamePartOk(first) && NamePartOk(last) && ShortEntryOk(name, attributes, cluster, size)
    ensures var raw := EncodeLongEntry(0x42, last) + (EncodeLongEntry(0x01, first) + (EncodeShortEntry(name, attributes, cluster, size) + rest));
            ParseEntryWith(raw, prepend)
              == ParsedEntry(3 * NORMAL_ENTRY_SIZE, LongName(if prepend then first + last else last + first, attributes, cluster, size))
  {
    var l2, l1, s := EncodeLongEntry(0x42, last), EncodeLongEntry(0x01, first), EncodeShortEntry(name, attributes, cluster, size);
    var raw := l2 + (l1 + (s + rest));
    ThreeChunks(l2, l1, s, rest);
    LongEntryPart(0x42, last);
    LongEntryPart(0x01, first);
    assert s + [] == s;
    ShortEntryFields(name, attributes, cluster, size, []);
    OrderByte(0x42, PadUnits(last));
    LeAtPrefix(l2, l1 + (s + rest), 11, 1);
    TwoChunkChain(raw, first, last, prepend);
  }

  /** Two long-name chunks followed by an 8.3 chunk parse as one long-name entry. */
  lemma TwoChunkChain(raw: seq<byte>, first: seq<nat>, last: seq<nat>, prepend: bool)
    requires 3 * NORMAL_ENTRY_SIZE <= |raw| && |first| <= 13 && |last| <= 13
    requires raw[0] != END_OF_DIRECTORY && raw[0] != UNUSED_ENTRY && U8At(raw, 11) == LONG_FILE_NAME
    requires U8At(Chunk(raw, 0), 11) == LONG_FILE_NAME && LongNamePart(Chunk(raw, 0)) == last
    requires U8At(Chunk(raw, 1), 11) == LONG_FILE_NAME && LongNamePart(Chunk(raw, 1)) == first
    requires U8At(Chunk(raw, 2), 11) != LONG_FILE_NAME
    ensures var e := Chunk(raw, 2);
            ParseEntryWith(raw, prepend)
              == ParsedEntry(3 * NORMAL_ENTRY_SIZE, LongName(if prepend then first + last else last + first, U8At(e, 11), FirstClusterField(e), U32At(e, 28)))
  {
    ChainStart(raw, prepend);
    ChainLong(raw, 0, [], last, prepend);
    assert [] + last == last + [] == last;
    ChainLong(raw, 1, last, first, prepend);
    ChainEnd(raw, 2, if prepend then first + last else last + first, prepend);
  }

  /** A directory entry whose attribute byte is 0x0F starts a long-name chain. */
  lemma ChainStart(raw: seq<byte>, prepend: bool)
    requires |raw| >= 12 && raw[0] != END_OF_DIRECTORY && raw[0] != UNUSED_ENTRY && U8At(raw, 11) == LONG_FILE_NAME
    ensures ParseEntryWith(raw, prepend) == LongNameChain(raw, 0, [], prepend)
  {
  }

  /** A whole long-name chunk adds its part to the name. */
  lemma ChainLong(raw: seq<byte>, k: nat, name: seq<nat>, part: seq<nat>, prepend: bool)
    requires NORMAL_ENTRY_SIZE * (k + 1) <= |raw| && |name| + |part| <= NAME_CAPACITY
    requires U8At(Chunk(raw, k), 11) == LONG_FILE_NAME && LongNamePart(Chunk(raw, k)) == part
    ensures LongNameChain(raw, k, name, prepend) == LongNameChain(raw, k + 1, if prepend then part + name else name + part, prepend)
  {
  }

  /** A whole chunk without the long-name attribute ends the chain with its fields. */
  lemma ChainEnd(raw: seq<byte>, k: nat, name: seq<nat>, prepend: bool)
    requires NORMAL_ENTRY_SIZE * (k + 1) <= |raw| && |name| <= NAME_CAPACITY
    requires U8At(Chunk(raw, k), 11) != LONG_FILE_NAME
    ensures var e := Chunk(raw, k);
            LongNameChain(raw, k, name, prepend)
              == ParsedEntry(NORMAL_ENTRY_SIZE * (k + 1), LongName(name, U8At(e, 11), FirstClusterField(e), U32At(e, 28)))
  {
  }

  /**
   * As written, the start of a two-entry name lands after its end: the
   * parsed name is `last + first`, which differs from the stored name
   * whenever the two parts start with different characters.
   */
  lemma LongNameOrderAsWritten(first: seq<nat>, last: seq<nat>, name: seq<byte>, attributes: nat, cluster: nat, size: nat, rest: seq<byte>)
    requires NamePartOk(first) && NamePartOk(last) && ShortEntryOk(name, attributes, cluster, size)
    ensures var raw := EncodeLongEntry(0x42, last) + (EncodeLongEntry(0x01, first) + (EncodeShortEntry(name, attributes, cluster, size) + rest));
            var r := ParseEntryAsWritten(raw);
            r == ParsedEntry(3 * NORMAL_ENTRY_SIZE, LongName(last + first, attributes, cluster, size))
            && (first[0] != last[0] ==> r.entry.name != first + last)
  {
    TwoPartName(first, last, name, attributes, cluster, size, rest, false);
    assert (last + first)[0] == last[0] && (first + last)[0] == first[0];
  }

  /** Prepending each entry's part rebuilds the name in order. */
  lemma LongNameOrder(first: seq<nat>, last: seq<nat>, name: seq<byte>, attributes: nat, cluster: nat, size: nat, rest: seq<byte>)
    requires NamePartOk(first) && NamePartOk(last) && ShortEntryOk(name, attributes, cluster, size)
    ensures var raw := EncodeLongEntry(0x42, last) + (EncodeLongEntry(0x01, first) + (EncodeShortEntry(name, attributes, cluster, size) + rest));
            ParseEntry(raw) == ParsedEntry(3 * NORMAL_ENTRY_SIZE, LongName(first + last, attributes, cluster, size))
  {
    TwoPartName(first, last, name, attributes, cluster, size, rest, true);
  }
}
