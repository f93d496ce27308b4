/**
 * Disk access through INT 13h function 42h: the position bookkeeping of
 * the two `DiskAccess` types and the plan of extended-read requests a read
 * is split into. The BIOS call itself is not modelled; a read is the list
 * of requests it issues, each naming a starting LBA, a sector count of at
 * most 0x20 and the buffer address the sectors land at.
 */
module Disks {
  import opened Wrappers
  import opened BootUtil
  import opened Bytes
  import Dap

  const DEFAULT_SECTOR_SIZE: nat := 512
  const MAX_CHUNK: nat := 0x20
  const U32_MAX: nat := 0xFFFF_FFFF
  const U64_MAX: nat := 0xFFFF_FFFF_FFFF_FFFF
  /** `-i32::MIN` and `-i64::MIN`: the magnitudes of the signed minimums, one past the signed maximums. */
  const I32_MIN_ABS: nat := 0x8000_0000
  const I64_MIN_ABS: nat := 0x8000_0000_0000_0000

  /** One extended-read request. */
  datatype Request = Request(lba: nat, count: nat, buffer: nat)

  // ---------------------------------------------------------------------------
  // Request plans

  /** The sectors a list of requests transfers. */
  function Sectors(rs: seq<Request>): nat {
    if rs == [] then 0 else rs[0].count + Sectors(rs[1..])
  }

  function Min(a: nat, b: nat): nat {
    if a <= b then a else b
  }

  /**
   * The requests for `count` sectors from `lba` into `buffer`: chunks of
   * 0x20 sectors, the last one shorter, each buffer `stride` bytes per
   * sector past the one before.
   */
  function Plan(lba: nat, count: nat, buffer: nat, stride: nat): seq<Request>
    decreases count
  {
    if count == 0 then []
    else
      var n := Min(count, MAX_CHUNK);
      [Request(lba, n, buffer)] + Plan(lba + n, count - n, buffer + n * stride, stride)
  }

  /**
   * What a plan promises: every request moves 1 to 0x20 sectors and all
   * but the last exactly 0x20; request `i` starts where the ones before it
   * ended, on the disk and in the buffer; together they move `count`
   * sectors.
   */
  ghost predicate Covers(rs: seq<Request>, lba: nat, count: nat, buffer: nat, stride: nat) {
    Sectors(rs) == count
    && (forall i :: 0 <= i < |rs| ==> 1 <= rs[i].count <= MAX_CHUNK)
    && (forall i :: 0 <= i < |rs| - 1 ==> rs[i].count == MAX_CHUNK)
    && Positioned(rs, lba, buffer, stride)
  }

  lemma SectorsAppend(rs: seq<Request>, r: Request)
    ensures Sectors(rs + [r]) == Sectors(rs) + r.count
  {
    if rs != [] {
      assert (rs + [r])[1..] == rs[1..] + [r];
      SectorsAppend(rs[1..], r);
    } else {
      assert [] + [r] == [r];
    }
  }

  /** Every plan keeps the promise. */
  lemma PlanCovers(lba: nat, count: nat, buffer: nat, stride: nat)
    ensures Covers(Plan(lba, count, buffer, stride), lba, count, buffer, stride)
  {
    PlanSizes(lba, count, buffer, stride);
    PlanPositions(lba, count, buffer, stride);
  }

  /** A plan's first request, and the plan for what remains after it. */
  lemma PlanStep(lba: nat, count: nat, buffer: nat, stride: nat)
    requires count > 0
    ensures var n := Min(count, MAX_CHUNK);
            Plan(lba, count, buffer, stride) == [Request(lba, n, buffer)] + Plan(lba + n, count - n, buffer + n * stride, stride)
  {
  }

  lemma {:induction false} PlanSizes(lba: nat, count: nat, buffer: nat, stride: nat)
    ensures var rs := Plan(lba, count, buffer, stride);
            Sectors(rs) == count
            && (forall i :: 0 <= i < |rs| ==> 1 <= rs[i].count <= MAX_CHUNK)
            && (forall i :: 0 <= i < |rs| - 1 ==> rs[i].count == MAX_CHUNK)
    decreases count
  {
    if count > 0 {
      var n := Min(count, MAX_CHUNK);
      var tail := Plan(lba + n, count - n, buffer + n * stride, stride);
      PlanStep(lba, count, buffer, stride);
      PlanSizes(lba + n, count - n, buffer + n * stride, stride);
      var rs := [Request(lba, n, buffer)] + tail;
      assert rs[1..] == tail;
      assert count - n > 0 ==> n == MAX_CHUNK;
      assert tail == [] <==> count - n == 0;
    }
  }

  /** Positions in the buffer and on the disk, request by request. */
  ghost predicate Positioned(rs: seq<Request>, lba: nat, buffer: nat, stride: nat) {
    forall i :: 0 <= i < |rs| ==> rs[i].lba == lba + Sectors(rs[..i]) && rs[i].buffer == buffer + Sectors(rs[..i]) * stride
  }

  lemma {:induction false} PlanPositions(lba: nat, count: nat, buffer: nat, stride: nat)
    ensures Positioned(Plan(lba, count, buffer, stride), lba, buffer, stride)
    decreases count
  {
    if count > 0 {
      var n := Min(count, MAX_CHUNK);
      PlanStep(lba, count, buffer, stride);
      PlanPositions(lba + n, count - n, buffer + n * stride, stride);
      ConsPositioned(Request(lba, n, buffer), Plan(lba + n, count - n, buffer + n * stride, stride), stride);
    }
  }

  /** A request in front of a positioned list that starts where it ends. */
  lemma ConsPositioned(head: Request, tail: seq<Request>, stride: nat)
    requires Positioned(tail, head.lba + head.count, head.buffer + head.count * stride, stride)
    ensures Positioned([head] + tail, head.lba, head.buffer, stride)
  {
    var rs := [head] + tail;
    forall i | 0 <= i < |rs|
      ensures rs[i].lba == head.lba + Sectors(rs[..i]) && rs[i].buffer == head.buffer + Sectors(rs[..i]) * stride
    {
      if i == 0 {
        assert rs[..0] == [];
      } else {
        PrefixSectors(head, tail, i);
        var k := Sectors(tail[..i - 1]);
        assert (head.count + k) * stride == head.count * stride + k * stride;
      }
    }
  }

  lemma PrefixSectors(head: Request, tail: seq<Request>, i: nat)
    requires 1 <= i <= |tail| + 1
    ensures Sectors(([head] + tail)[..i]) == head.count + Sectors(tail[..i - 1])
  {
    assert ([head] + tail)[..i] == [head] + tail[..i - 1];
    assert ([head] + tail[..i - 1])[1..] == tail[..i - 1];
  }

  /** The loop of both `read_sectors` and `read_exact`, request by request. */
  method ChunkRequests(lba: nat, count: nat, buffer: nat, stride: nat) returns (rs: seq<Request>)
    ensures Covers(rs, lba, count, buffer, stride)
    ensures rs == Plan(lba, count, buffer, stride)
  {
    rs := [];
    var remaining: nat, next: nat, at: nat := count, lba, buffer;
    while remaining > 0
      invariant rs + Plan(next, remaining, at, stride) == Plan(lba, count, buffer, stride)
      decreases remaining
    {
      var n := Min(remaining, MAX_CHUNK);
      var r := Request(next, n, at);
      var after := Plan(next + n, remaining - n, at + n * stride, stride);
      PlanStep(next, remaining, at, stride);
      assert rs + ([r] + after) == (rs + [r]) + after;
      rs := rs + [r];
      remaining, next, at := remaining - n, next + n, at + n * stride;
    }
    assert rs + [] == rs;
    PlanCovers(lba, count, buffer, stride);
  }

  // ---------------------------------------------------------------------------
  // Positions

  /** `SeekFrom`; each disk type bounds the numbers by its own integer widths. */
  datatype SeekFrom = Start(to: nat) | End(delta: int) | Current(delta: int)

  /** `saturating_add` / `saturating_sub` of a signed step on an unsigned position. */
  function Saturate(x: nat, delta: int, max: nat): (y: nat)
    requires x <= max
    ensures y <= max
    ensures 0 <= x + delta <= max ==> y == x + delta
    ensures x + delta < 0 ==> y == 0
    ensures x + delta > max ==> y == max
  {
    if delta > 0 then (if x + delta > max then max else x + delta)
    else (if x + delta < 0 then 0 else x + delta)
  }

  /**
   * The new position of `seek`: `End` is `unimplemented!()`, and a step of
   * `-minDelta`, the signed type's minimum, overflows when it is negated.
   */
  function SeekTo(offset: nat, pos: SeekFrom, max: nat, minDelta: nat): (r: Result<nat, Halt>)
    requires offset <= max && (pos.Start? ==> pos.to <= max)
    requires pos.Current? ==> -(minDelta as int) <= pos.delta < minDelta
    ensures r.Ok? <==> !pos.End? && !(pos.Current? && pos.delta == -(minDelta as int))
    ensures r.Err? ==> r.error == Panic
    ensures r.Ok? ==> r.value <= max
    ensures pos.Start? ==> r == Ok(pos.to)
    ensures r.Ok? && pos.Current? ==> r.value == Saturate(offset, pos.delta, max)
  {
    match pos
    case Start(to) => Ok(to)
    case Current(delta) => if delta == -(minDelta as int) then Err(Panic) else Ok(Saturate(offset, delta, max))
    case End(_) => Err(Panic)
  }

  /** A step forward and the same step back return to where a seek started, short of the ends. */
  lemma SeekBack(offset: nat, k: nat, max: nat, minDelta: nat)
    requires offset + k <= max && k < minDelta
    ensures SeekTo(offset, Current(k), max, minDelta) == Ok(offset + k)
    ensures SeekTo(offset + k, Current(-(k as int)), max, minDelta) == Ok(offset)
  {
  }

  /** The minimum of `i64`, negated: `-i64::MIN` does not fit, so seeking back by it panics. */
  lemma SeekBackByI64MinPanics(offset: nat)
    requires offset <= U64_MAX
    ensures SeekTo(offset, Current(-(I64_MIN_ABS as int)), U64_MAX, I64_MIN_ABS) == Err(Panic)
    ensures SeekTo(offset, Current(-(I64_MIN_ABS as int) + 1), U64_MAX, I64_MIN_ABS).Ok?
  {
  }

  // ---------------------------------------------------------------------------
  // The stage-2 disk: byte positions, any sector size

  const TMP_BUFFER_SIZE: nat := 2 * DEFAULT_SECTOR_SIZE

  /** Stage 2's `DiskAccess`: `baseOffset` and `offset` are byte positions. */
  datatype Stage2Disk = Stage2Disk(diskNumber: nat, baseOffset: nat, offset: nat, sectorSize: nat, clusterSize: nat)

  /** The absolute byte position the next read starts at. */
  function Position(d: Stage2Disk): nat {
    d.baseOffset + d.offset
  }

  /** `DiskAccess::new`: the partition starts at LBA `baseLba`, reading at sector `offset` of it. */
  function NewStage2Disk(diskNumber: nat, baseLba: nat, offset: nat): (d: Stage2Disk)
    ensures Position(d) == (baseLba + offset) * DEFAULT_SECTOR_SIZE
    ensures d.baseOffset % DEFAULT_SECTOR_SIZE == 0 && d.offset % DEFAULT_SECTOR_SIZE == 0
    ensures d.sectorSize == DEFAULT_SECTOR_SIZE && d.clusterSize == 0 && d.diskNumber == diskNumber
  {
    Stage2Disk(diskNumber, baseLba * DEFAULT_SECTOR_SIZE, offset * DEFAULT_SECTOR_SIZE, DEFAULT_SECTOR_SIZE, 0)
  }

  /** `sectors_per_cluster`: the whole sectors in a cluster; a zero sector size divides by zero. */
  function SectorsPerCluster(d: Stage2Disk): (r: Result<nat, Halt>)
    ensures r.Err? <==> d.sectorSize == 0
    ensures r.Err? ==> r.error == Panic
    ensures r.Ok? ==> r.value * d.sectorSize <= d.clusterSize < (r.value + 1) * d.sectorSize
  {
    if d.sectorSize == 0 then Err(Panic) else Ok(d.clusterSize / d.sectorSize)
  }

  /** `seek` of stage 2, on the `u64` offset. */
  function Stage2Seek(d: Stage2Disk, pos: SeekFrom): (r: Result<Stage2Disk, Halt>)
    requires d.offset <= U64_MAX && (pos.Start? ==> pos.to <= U64_MAX)
    requires pos.Current? ==> -(I64_MIN_ABS as int) <= pos.delta < I64_MIN_ABS
    ensures r.Ok? <==> !pos.End? && pos != Current(-(I64_MIN_ABS as int))
    ensures r.Ok? ==> r.value == d.(offset := SeekTo(d.offset, pos, U64_MAX, I64_MIN_ABS).value)
  {
    match SeekTo(d.offset, pos, U64_MAX, I64_MIN_ABS)
    case Ok(offset) => Ok(d.(offset := offset))
    case Err(e) => Err(e)
  }

  /** A read: the requests issued, their packets, and the disk afterwards. */
  datatype Read = Read(requests: seq<Request>, packets: seq<Dap.Packet>, disk: Stage2Disk)

  /**
   * One packet per request, in order; the first buffer at or past 1 MiB
   * stops the loop with stage 2's `expect`.
   */
  function Packets(rs: seq<Request>): (r: Result<seq<Dap.Packet>, Halt>)
    ensures r.Ok? <==> forall i :: 0 <= i < |rs| ==> rs[i].buffer < 0x10_0000
    ensures r.Err? ==> r.error == Panic
    ensures r.Ok? ==> |r.value| == |rs|
    ensures r.Ok? ==> forall i :: 0 <= i < |rs| ==>
                        Dap.Buffer(r.value[i]) == rs[i].buffer && r.value[i].sectorCount == rs[i].count
                        && r.value[i].startLba == rs[i].lba
  {
    if rs == [] then Ok([])
    else if rs[0].buffer >= 0x1_0000_0000 then Err(Panic)
    else match Dap.NewStage2(rs[0].buffer, rs[0].count, rs[0].lba)
      case Err(e) => Err(e)
      case Ok(p) =>
        match Packets(rs[1..])
        case Err(e) => Err(e)
        case Ok(ps) => Ok([p] + ps)
  }

  /** The sectors from `(pos + len - 1) / ss` back to `pos / ss`, as `read_sectors` counts them. */
  lemma ReadCount(pos: nat, len: nat, ss: nat)
    requires ss > 0 && len % ss == 0 && pos + len > 0
    ensures (pos + len - 1) / ss + 1 >= pos / ss
    ensures (pos + len - 1) / ss + 1 - pos / ss == len / ss + (if pos % ss == 0 then 0 else 1)
  {
    DivModUnique(len, ss, len / ss, 0);
    EndSector(pos, len, ss, pos / ss, pos % ss, len / ss);
  }

  /** The sector of the last byte of `[pos, pos + len)`. */
  lemma EndSector(pos: nat, len: nat, ss: nat, q: nat, r: nat, k: nat)
    requires r < ss && pos == q * ss + r && len == k * ss && pos + len > 0
    ensures (pos + len - 1) / ss == if r > 0 then q + k else q + k - 1
  {
    if r > 0 {
      LastSector(pos + len - 1, q, r - 1, k, ss);
    } else if k > 0 {
      LastSector(pos + len - 1, q, ss - 1, k - 1, ss);
    } else {
      LastSector(pos + len - 1, q - 1, ss - 1, 0, ss);
    }
  }

  /** The sector holding byte `q * ss + k * ss + r`. */
  lemma LastSector(x: nat, q: nat, r: nat, k: nat, ss: nat)
    requires r < ss && x == q * ss + k * ss + r
    ensures x / ss == q + k
  {
    assert (q + k) * ss == q * ss + k * ss;
    DivModUnique(x, ss, q + k, r);
  }

  /** The requests `read_sectors` plans for `len` bytes at byte `pos`, sectors of `ss` bytes. */
  function PlanAsWritten(pos: nat, len: nat, ss: nat, buffer: nat): (rs: seq<Request>)
    requires ss > 0 && len % ss == 0 && pos + len > 0
    ensures Sectors(rs) == len / ss + (if pos % ss == 0 then 0 else 1)
  {
    PlanAsWrittenCovers(pos, len, ss, buffer);
    Plan(pos / ss, (pos + len - 1) / ss + 1 - pos / ss, buffer, ss)
  }

  /**
   * The requests `read_sectors` plans move the sectors the byte range
   * touches, in order, from the sector holding `pos`.
   */
  lemma PlanAsWrittenCovers(pos: nat, len: nat, ss: nat, buffer: nat)
    requires ss > 0 && len % ss == 0 && pos + len > 0
    ensures (pos + len - 1) / ss + 1 >= pos / ss
    ensures var count := (pos + len - 1) / ss + 1 - pos / ss;
            count == len / ss + (if pos % ss == 0 then 0 else 1)
            && Covers(Plan(pos / ss, count, buffer, ss), pos / ss, count, buffer, ss)
  {
    ReadCount(pos, len, ss);
    var start, end := pos / ss, (pos + len - 1) / ss;
    assert Covers(Plan(start, end + 1 - start, buffer, ss), start, end + 1 - start, buffer, ss) by {
      PlanCovers(start, end + 1 - start, buffer, ss);
    }
  }

  /**
   * `read_sectors` as written: a buffer length that is not a whole number
   * of sectors fails the `assert_eq!`; an end `base_offset + offset + len`
   * past `u64::MAX` overflows, and an end of 0 underflows; the sectors
   * counted are those the byte range `[pos, pos + len)` touches; afterwards
   * `offset` becomes the absolute end of the range, `baseOffset` included.
   */
  function ReadSectorsAsWritten(d: Stage2Disk, len: nat, buffer: nat): (r: Result<Read, Halt>)
    ensures r.Err? ==> r.error == Panic
    ensures !(d.sectorSize > 0 && len % d.sectorSize == 0 && 0 < Position(d) + len <= U64_MAX) ==> r.Err?
    ensures d.sectorSize > 0 && len % d.sectorSize == 0 && 0 < Position(d) + len <= U64_MAX ==>
              var rs := PlanAsWritten(Position(d), len, d.sectorSize, buffer);
              (r.Ok? <==> Packets(rs).Ok?)
              && (r.Ok? ==> r.value.requests == rs && r.value.packets == Packets(rs).value)
    ensures r.Ok? ==> r.value.disk == d.(offset := Position(d) + len)
  {
    if d.sectorSize == 0 || len % d.sectorSize != 0 || Position(d) + len == 0 || Position(d) + len > U64_MAX then Err(Panic)
    else
      var rs := PlanAsWritten(Position(d), len, d.sectorSize, buffer);
      match Packets(rs)
      case Err(e) => Err(e)
      case Ok(ps) => Ok(Read(rs, ps, d.(offset := Position(d) + len)))
  }

  /**
   * `read_sectors` as intended: the `len / ss` sectors from the one
   * holding `pos`, so exactly `len` bytes land in the buffer, and the
   * position moves on by `len`; an end past `u64::MAX` still overflows.
   */
  function ReadSectors(d: Stage2Disk, len: nat, buffer: nat): (r: Result<Read, Halt>)
    ensures r.Err? ==> r.error == Panic
    ensures !(d.sectorSize > 0 && len % d.sectorSize == 0 && Position(d) + len <= U64_MAX) ==> r.Err?
    ensures d.sectorSize > 0 && len % d.sectorSize == 0 && Position(d) + len <= U64_MAX ==>
              var rs := Plan(Position(d) / d.sectorSize, len / d.sectorSize, buffer, d.sectorSize);
              (r.Ok? <==> Packets(rs).Ok?)
              && (r.Ok? ==> r.value.requests == rs && r.value.packets == Packets(rs).value)
    ensures r.Ok? ==> Sectors(r.value.requests) * d.sectorSize == len
    ensures r.Ok? ==> Covers(r.value.requests, Position(d) / d.sectorSize, len / d.sectorSize, buffer, d.sectorSize)
    ensures r.Ok? ==> Position(r.value.disk) == Position(d) + len && r.value.disk.baseOffset == d.baseOffset
  {
    if d.sectorSize == 0 || len % d.sectorSize != 0 || Position(d) + len > U64_MAX then Err(Panic)
    else
      var count := len / d.sectorSize;
      var rs := Plan(Position(d) / d.sectorSize, count, buffer, d.sectorSize);
      PlanCovers(Position(d) / d.sectorSize, count, buffer, d.sectorSize);
      DivModUnique(len, d.sectorSize, count, 0);
      match Packets(rs)
      case Err(e) => Err(e)
      case Ok(ps) => Ok(Read(rs, ps, d.(offset := d.offset + len)))
  }

  /**
   * As written, a read from a position off a sector boundary transfers one
   * sector more than the buffer holds; only an aligned read fits.
   */
  lemma ReadSectorsOverrun(d: Stage2Disk, len: nat, buffer: nat)
    requires ReadSectorsAsWritten(d, len, buffer).Ok?
    ensures var rs := ReadSectorsAsWritten(d, len, buffer).value.requests;
            (Sectors(rs) * d.sectorSize == len <==> Position(d) % d.sectorSize == 0)
            && (Position(d) % d.sectorSize != 0 ==> Sectors(rs) * d.sectorSize == len + d.sectorSize)
  {
    var ss := d.sectorSize;
    var rs := PlanAsWritten(Position(d), len, ss, buffer);
    assert ReadSectorsAsWritten(d, len, buffer).value.requests == rs;
    ExactDiv(len, ss);
    ExtraSector(Sectors(rs), len / ss, ss, Position(d) % ss == 0);
  }

  lemma ExactDiv(len: nat, ss: nat)
    requires ss > 0 && len % ss == 0
    ensures len / ss * ss == len
  {
  }

  /** `k` or `k + 1` sectors of `ss` bytes against `k * ss`. */
  lemma ExtraSector(n: nat, k: nat, ss: nat, aligned: bool)
    requires ss > 0 && n == k + (if aligned then 0 else 1)
    ensures n * ss == k * ss <==> aligned
    ensures !aligned ==> n * ss == k * ss + ss
  {
    if !aligned {
      assert (k + 1) * ss == k * ss + ss;
    }
  }

  /** As intended, every read fills its buffer exactly. */
  lemma ReadSectorsFits(d: Stage2Disk, len: nat, buffer: nat)
    requires ReadSectors(d, len, buffer).Ok?
    ensures Sectors(ReadSectors(d, len, buffer).value.requests) * d.sectorSize == len
  {
  }

  /**
   * As written, the position after a read counts `baseOffset` twice, so a
   * second read without a seek in between starts `baseOffset` bytes past
   * the end of the first.
   */
  lemma ReadSectorsFoldsBase(d: Stage2Disk, len: nat, buffer: nat)
    requires ReadSectorsAsWritten(d, len, buffer).Ok?
    ensures Position(ReadSectorsAsWritten(d, len, buffer).value.disk) == Position(d) + len + d.baseOffset
  {
  }

  /**
   * As intended, two reads of whole sectors from an aligned position
   * continue one another: the second starts at the sector after the last
   * one the first read, and its buffer is wherever the caller put it.
   */
  lemma ReadSectorsContinue(d: Stage2Disk, len: nat, buffer: nat, len2: nat, buffer2: nat)
    requires ReadSectors(d, len, buffer).Ok? && Position(d) % d.sectorSize == 0 && len > 0
    requires ReadSectors(ReadSectors(d, len, buffer).value.disk, len2, buffer2).Ok? && len2 > 0
    ensures var first := ReadSectors(d, len, buffer).value.requests;
            var second := ReadSectors(ReadSectors(d, len, buffer).value.disk, len2, buffer2).value.requests;
            first != [] && second != [] && second[0].lba == first[0].lba + Sectors(first)
  {
    var ss := d.sectorSize;
    var read := ReadSectors(d, len, buffer).value;
    var first := read.requests;
    var second := ReadSectors(read.disk, len2, buffer2).value.requests;
    assert read.disk.sectorSize == ss;
    FirstRequest(first, Position(d) / ss, len / ss, buffer, ss);
    FirstRequest(second, (Position(d) + len) / ss, len2 / ss, buffer2, ss);
    AlignedAdvance(Position(d), len, ss);
  }

  /** The first request of a non-empty plan starts where the plan does. */
  lemma FirstRequest(rs: seq<Request>, lba: nat, count: nat, buffer: nat, stride: nat)
    requires Covers(rs, lba, count, buffer, stride) && count > 0
    ensures rs != [] && rs[0].lba == lba
  {
    assert rs[..0] == [];
  }

  /** Whole sectors after an aligned position end on a sector boundary. */
  lemma AlignedAdvance(pos: nat, len: nat, ss: nat)
    requires ss > 0 && pos % ss == 0 && len % ss == 0
    ensures (pos + len) / ss == pos / ss + len / ss
  {
    DivModUnique(pos, ss, pos / ss, 0);
    DivModUnique(len, ss, len / ss, 0);
    assert pos + len == (pos / ss + len / ss) * ss;
    DivModUnique(pos + len, ss, pos / ss + len / ss, 0);
  }

  // ---------------------------------------------------------------------------
  // read_bytes

  /** What `read_bytes` returns: `len` bytes of the scratch buffer, from disk byte `from` on. */
  datatype Window = Window(read: Read, from: nat, len: nat)

  /**
   * `read_bytes`: read the two sectors at the position into a 1024-byte
   * scratch buffer at `scratch` and return `len` bytes of it from
   * `offset % 512`; the `assert!` demands that window fit the buffer.
   */
  function ReadBytes(d: Stage2Disk, len: nat, scratch: nat): (r: Result<Window, Halt>)
    ensures d.offset % DEFAULT_SECTOR_SIZE + len > TMP_BUFFER_SIZE ==> r == Err(Panic)
    ensures r.Ok? <==> d.offset % DEFAULT_SECTOR_SIZE + len <= TMP_BUFFER_SIZE && ReadSectorsAsWritten(d, TMP_BUFFER_SIZE, scratch).Ok?
    ensures r.Ok? ==> r.value.read == ReadSectorsAsWritten(d, TMP_BUFFER_SIZE, scratch).value && r.value.len == len
    ensures r.Ok? ==> r.value.from == Position(d) / d.sectorSize * d.sectorSize + d.offset % DEFAULT_SECTOR_SIZE
  {
    var at := d.offset % DEFAULT_SECTOR_SIZE;
    if at + len > TMP_BUFFER_SIZE then Err(Panic)
    else match ReadSectorsAsWritten(d, TMP_BUFFER_SIZE, scratch)
      case Err(e) => Err(e)
      case Ok(read) => Ok(Window(read, Position(d) / d.sectorSize * d.sectorSize + at, len))
  }

  /**
   * With 512-byte sectors and a sector-aligned base, the window starts at
   * the disk position and ends inside the first 1024 bytes read.
   */
  lemma ReadBytesAtPosition(d: Stage2Disk, len: nat, scratch: nat)
    requires ReadBytes(d, len, scratch).Ok?
    requires d.sectorSize == DEFAULT_SECTOR_SIZE && d.baseOffset % DEFAULT_SECTOR_SIZE == 0
    ensures var w := ReadBytes(d, len, scratch).value;
            w.from == Position(d)
            && w.from + len <= Position(d) / DEFAULT_SECTOR_SIZE * DEFAULT_SECTOR_SIZE + TMP_BUFFER_SIZE
  {
    var b, o := d.baseOffset, d.offset;
    DivModUnique(b, DEFAULT_SECTOR_SIZE, b / DEFAULT_SECTOR_SIZE, 0);
    var q := b / DEFAULT_SECTOR_SIZE + o / DEFAULT_SECTOR_SIZE;
    assert b + o == q * DEFAULT_SECTOR_SIZE + o % DEFAULT_SECTOR_SIZE;
    DivModUnique(b + o, DEFAULT_SECTOR_SIZE, q, o % DEFAULT_SECTOR_SIZE);
  }

  /**
   * A `read_bytes` off a sector boundary transfers three sectors, 1536
   * bytes, into the 1024-byte scratch buffer.
   */
  lemma ReadBytesOverrun(d: Stage2Disk, len: nat, scratch: nat)
    requires ReadBytes(d, len, scratch).Ok?
    requires d.sectorSize == DEFAULT_SECTOR_SIZE && Position(d) % DEFAULT_SECTOR_SIZE != 0
    ensures Sectors(ReadBytes(d, len, scratch).value.read.requests) * DEFAULT_SECTOR_SIZE == 3 * DEFAULT_SECTOR_SIZE > TMP_BUFFER_SIZE
  {
    ReadSectorsOverrun(d, TMP_BUFFER_SIZE, scratch);
  }

  /** A freshly made disk, moved one byte on, overruns the scratch buffer on its first `read_bytes`. */
  lemma ReadBytesOverrunExample()
    ensures var d := NewStage2Disk(0x80, 0, 0).(offset := 1);
            ReadBytes(d, 1, 0x7000).Ok?
            && Sectors(ReadBytes(d, 1, 0x7000).value.read.requests) == 3
  {
    var rs := PlanAsWritten(1, TMP_BUFFER_SIZE, DEFAULT_SECTOR_SIZE, 0x7000);
    assert rs == [Request(0, 3, 0x7000)];
  }

  // ---------------------------------------------------------------------------
  // The shared disk: sector positions, 512-byte sectors

  /** The shared crate's `DiskAccess`: `baseLba` and `offset` count sectors. */
  datatype CommonDisk = CommonDisk(diskNumber: nat, baseLba: nat, offset: nat)

  /** A `read_exact`: the requests issued; the disk is left as it was. */
  datatype CommonRead = CommonRead(requests: seq<Request>, disk: CommonDisk)

  /** `seek` of the shared crate, on the `u32` offset. */
  function CommonSeek(d: CommonDisk, pos: SeekFrom): (r: Result<CommonDisk, Halt>)
    requires d.offset <= U32_MAX && (pos.Start? ==> pos.to <= U32_MAX)
    requires pos.Current? ==> -(I32_MIN_ABS as int) <= pos.delta < I32_MIN_ABS
    ensures r.Ok? <==> !pos.End? && pos != Current(-(I32_MIN_ABS as int))
    ensures r.Ok? ==> r.value == d.(offset := SeekTo(d.offset, pos, U32_MAX, I32_MIN_ABS).value)
  {
    match SeekTo(d.offset, pos, U32_MAX, I32_MIN_ABS)
    case Ok(offset) => Ok(d.(offset := offset))
    case Err(e) => Err(e)
  }

  /**
   * `read_exact`: the fewest 512-byte sectors holding `len` bytes, from
   * sector `baseLba + offset` on, in chunks of at most 0x20.
   */
  function ReadExact(d: CommonDisk, len: nat, buffer: nat): (r: CommonRead)
    ensures Covers(r.requests, d.baseLba + d.offset, Sectors(r.requests), buffer, DEFAULT_SECTOR_SIZE)
    ensures len <= Sectors(r.requests) * DEFAULT_SECTOR_SIZE < len + DEFAULT_SECTOR_SIZE
    ensures r.disk == d
  {
    var count := (len + (DEFAULT_SECTOR_SIZE - 1)) / DEFAULT_SECTOR_SIZE;
    PlanCovers(d.baseLba + d.offset, count, buffer, DEFAULT_SECTOR_SIZE);
    CommonRead(Plan(d.baseLba + d.offset, count, buffer, DEFAULT_SECTOR_SIZE), d)
  }

  /** `read_exact` leaves the position alone: repeating it without a seek reads the same sectors again. */
  lemma ReadExactRepeats(d: CommonDisk, len: nat, buffer: nat)
    ensures ReadExact(ReadExact(d, len, buffer).disk, len, buffer).requests == ReadExact(d, len, buffer).requests
  {
  }
}
