/**
 * Finding and loading a file of the FAT volume: the walk over the root
 * directory's entries, the name comparison, the chain of clusters the
 * allocation table links, and the copy of each cluster to the destination.
 *
 * Reading a cluster copies a fixed two-sector buffer, the size the loader
 * counts with (`sectors_read += 2`). A chain of clusters that loops back on
 * itself makes the source loop for ever; the model walks at most `fuel`
 * links and reports `Unfinished` past that.
 */
module FatFiles {
  import opened Wrappers
  import opened Bytes
  import opened Fat

  /** The buffer the root directory is read into: 512 entries of 32 bytes. */
  const ROOT_BUFFER: nat := 512 * ROOT_DIR_ENTRY_SIZE

  /** Bytes copied per cluster, and the sectors they count as. */
  const CLUSTER_BYTES: nat := 2 * SECTOR_SIZE
  const CLUSTER_SECTORS: nat := 2

  // ---------------------------------------------------------------------------
  // Entries

  /** `eq_name`: the stored name up to its first NUL equals the query. */
  predicate EqName(e: DirEntry, query: seq<nat>) {
    match e
    case Normal(name, _, _, _) => TakeNonZero(name) == query
    case LongName(name, _, _, _) => TakeNonZero(name) == query
    case _ => false
  }

  /** `is_dir`: the DIRECTORY bit (0x10) of the attributes. */
  predicate IsDir(e: DirEntry) {
    (e.Normal? || e.LongName?) && (e.attributes / DIRECTORY) % 2 == 1
  }

  /** `root_dir_size`: a `u16` product, so 2048 or more entries overflow. */
  function RootDirSize(b: Bpb): (r: Option<nat>)
    ensures r.Some? <==> b.rootEntryCount < 2048
    ensures r.Some? ==> r.value == b.rootEntryCount * ROOT_DIR_ENTRY_SIZE && r.value < 0x1_0000
  {
    var size := b.rootEntryCount * ROOT_DIR_ENTRY_SIZE;
    if size < 0x1_0000 then Some(size) else None
  }

  // ---------------------------------------------------------------------------
  // The root directory

  datatype Walk = WalkPanicked | Walked(entries: seq<DirEntry>)

  /**
   * Every item `RootDirIter` yields from `offset` on, eagerly: free entries
   * are skipped and the end-of-directory marker ends the walk. A parse
   * that panics, or an offset past the buffer, panics the walk.
   */
  function RootEntries(buf: seq<byte>, offset: nat, prepend: bool): (r: Walk)
    ensures r.Walked? ==> forall i :: 0 <= i < |r.entries| ==> r.entries[i].Normal? || r.entries[i].LongName?
    decreases |buf| + NORMAL_ENTRY_SIZE - offset
  {
    if offset > |buf| then WalkPanicked
    else match ParseEntryWith(buf[offset..], prepend)
      case ParsePanicked => WalkPanicked
      case ParsedEntry(n, e) =>
        if e.EndOfDir? then Walked([])
        else
          var rest := RootEntries(buf, offset + n, prepend);
          if rest.WalkPanicked? then WalkPanicked
          else if e.Unused? then rest
          else Walked([e] + rest.entries)
  }

  /** The first entry of `es` whose name is `query`, as `Iterator::find` returns it. */
  function FirstMatch(es: seq<DirEntry>, query: seq<nat>): (r: Option<DirEntry>)
    ensures r.Some? ==> r.value in es && EqName(r.value, query)
    ensures r.None? ==> forall i :: 0 <= i < |es| ==> !EqName(es[i], query)
  {
    if es == [] then None
    else if EqName(es[0], query) then Some(es[0])
    else FirstMatch(es[1..], query)
  }

  datatype Search = SearchPanicked | Searched(found: Option<DirEntry>)

  /**
   * `read_root_dir(..).filter_map(..).find(|e| e.eq_name(name))`: the
   * iterator is lazy, so the search stops at the first match and never
   * parses what follows it.
   */
  function Find(buf: seq<byte>, offset: nat, query: seq<nat>, prepend: bool): (r: Search)
    ensures r.Searched? && r.found.Some? ==> EqName(r.found.value, query)
    decreases |buf| + NORMAL_ENTRY_SIZE - offset
  {
    if offset > |buf| then SearchPanicked
    else match ParseEntryWith(buf[offset..], prepend)
      case ParsePanicked => SearchPanicked
      case ParsedEntry(n, e) =>
        if e.EndOfDir? then Searched(None)
        else if !e.Unused? && EqName(e, query) then Searched(Some(e))
        else Find(buf, offset + n, query, prepend)
  }

  /** When the whole directory parses, the lazy search finds the first match of the eager walk. */
  lemma FindIsFirstMatch(buf: seq<byte>, offset: nat, query: seq<nat>, prepend: bool)
    requires RootEntries(buf, offset, prepend).Walked?
    ensures Find(buf, offset, query, prepend) == Searched(FirstMatch(RootEntries(buf, offset, prepend).entries, query))
  {
    AgreesFrom(buf, offset, query, prepend);
  }

  /** The lazy search agrees with the eager walk from `offset` on, when the walk does not panic. */
  ghost predicate SearchAgrees(buf: seq<byte>, offset: nat, query: seq<nat>, prepend: bool) {
    RootEntries(buf, offset, prepend).Walked? ==>
      Find(buf, offset, query, prepend) == Searched(FirstMatch(RootEntries(buf, offset, prepend).entries, query))
  }

  lemma {:induction false} AgreesFrom(buf: seq<byte>, offset: nat, query: seq<nat>, prepend: bool)
    ensures SearchAgrees(buf, offset, query, prepend)
    decreases |buf| + NORMAL_ENTRY_SIZE - offset, 1
  {
    var walked, n, e := WalkCase(buf, offset, query, prepend);
    if walked {
      AgreesAfter(buf, offset, query, prepend, n, e);
    }
  }

  lemma {:induction false} AgreesAfter(buf: seq<byte>, offset: nat, query: seq<nat>, prepend: bool, n: nat, e: DirEntry)
    requires offset <= |buf| && ParseEntryWith(buf[offset..], prepend) == ParsedEntry(n, e)
    requires 0 < n <= |buf| + NORMAL_ENTRY_SIZE - offset
    ensures SearchAgrees(buf, offset, query, prepend)
    decreases |buf| + NORMAL_ENTRY_SIZE - offset, 0
  {
    StepAgrees(buf, offset, query, prepend, n, e);
    if !e.EndOfDir? {
      AgreesFrom(buf, offset + n, query, prepend);
    }
  }

  /** Whether the walk from `offset` goes through, and the entry it parses there when it does. */
  lemma WalkCase(buf: seq<byte>, offset: nat, query: seq<nat>, prepend: bool) returns (walked: bool, n: nat, e: DirEntry)
    ensures !walked ==> SearchAgrees(buf, offset, query, prepend)
    ensures walked ==> offset <= |buf| && ParseEntryWith(buf[offset..], prepend) == ParsedEntry(n, e)
                       && 0 < n <= |buf| + NORMAL_ENTRY_SIZE - offset
  {
    walked := RootEntries(buf, offset, prepend).Walked?;
    n, e := 0, EndOfDir;
    if walked {
      var p := ParseEntryWith(buf[offset..], prepend);
      n, e := p.consumed, p.entry;
    }
  }

  /** The search and the walk agree from an entry on when they agree after it. */
  lemma StepAgrees(buf: seq<byte>, offset: nat, query: seq<nat>, prepend: bool, n: nat, e: DirEntry)
    requires offset <= |buf| && ParseEntryWith(buf[offset..], prepend) == ParsedEntry(n, e)
    ensures (!e.EndOfDir? ==> SearchAgrees(buf, offset + n, query, prepend)) ==> SearchAgrees(buf, offset, query, prepend)
  {
    var w, f := RootEntries(buf, offset, prepend), Find(buf, offset, query, prepend);
    var wRest, fRest := RootEntries(buf, offset + n, prepend), Find(buf, offset + n, query, prepend);
    WalkStep(buf, offset, prepend, n, e);
    FindStep(buf, offset, query, prepend, n, e);
    if w.Walked? && (!e.EndOfDir? ==> SearchAgrees(buf, offset + n, query, prepend)) {
      StepMatches(e, query, w, f, wRest, fRest);
    }
  }

  /** The search and the walk agree after an entry when they agree on what follows it. */
  lemma StepMatches(e: DirEntry, query: seq<nat>, w: Walk, f: Search, wRest: Walk, fRest: Search)
    requires w == if e.EndOfDir? then Walked([])
                  else if wRest.WalkPanicked? then WalkPanicked
                  else if e.Unused? then wRest
                  else Walked([e] + wRest.entries)
    requires f == if e.EndOfDir? then Searched(None)
                  else if !e.Unused? && EqName(e, query) then Searched(Some(e))
                  else fRest
    requires w.Walked?
    requires !e.EndOfDir? && wRest.Walked? ==> fRest == Searched(FirstMatch(wRest.entries, query))
    ensures f == Searched(FirstMatch(w.entries, query))
  {
    if !e.EndOfDir? && !e.Unused? {
      FirstMatchCons(e, wRest.entries, query);
    }
  }

  /** One step of the eager walk over a parsed entry. */
  lemma WalkStep(buf: seq<byte>, offset: nat, prepend: bool, n: nat, e: DirEntry)
    requires offset <= |buf| && ParseEntryWith(buf[offset..], prepend) == ParsedEntry(n, e)
    ensures RootEntries(buf, offset, prepend)
            == if e.EndOfDir? then Walked([])
               else if RootEntries(buf, offset + n, prepend).WalkPanicked? then WalkPanicked
               else if e.Unused? then RootEntries(buf, offset + n, prepend)
               else Walked([e] + RootEntries(buf, offset + n, prepend).entries)
  {
    var r := RootEntries(buf, offset, prepend);
    if e.EndOfDir? {
      assert r == Walked([]);
    } else {
      var rest := RootEntries(buf, offset + n, prepend);
      assert r == if rest.WalkPanicked? then WalkPanicked else if e.Unused? then rest else Walked([e] + rest.entries);
    }
  }

  /** One step of the lazy search over a parsed entry. */
  lemma FindStep(buf: seq<byte>, offset: nat, query: seq<nat>, prepend: bool, n: nat, e: DirEntry)
    requires offset <= |buf| && ParseEntryWith(buf[offset..], prepend) == ParsedEntry(n, e)
    ensures Find(buf, offset, query, prepend)
            == if e.EndOfDir? then Searched(None)
               else if !e.Unused? && EqName(e, query) then Searched(Some(e))
               else Find(buf, offset + n, query, prepend)
  {
    var r := Find(buf, offset, query, prepend);
    if e.EndOfDir? {
      assert r == Searched(None);
    } else {
      assert r == if !e.Unused? && EqName(e, query) then Searched(Some(e)) else Find(buf, offset + n, query, prepend);
    }
  }

  lemma FirstMatchCons(e: DirEntry, es: seq<DirEntry>, query: seq<nat>)
    ensures FirstMatch([e] + es, query) == if EqName(e, query) then Some(e) else FirstMatch(es, query)
  {
    assert ([e] + es)[1..] == es;
  }

  /** A search that panics does so because the walk over the directory panics. */
  lemma FindPanicsOnlyIfWalkPanics(buf: seq<byte>, offset: nat, query: seq<nat>, prepend: bool)
    requires Find(buf, offset, query, prepend).SearchPanicked?
    ensures RootEntries(buf, offset, prepend).WalkPanicked?
  {
    if RootEntries(buf, offset, prepend).Walked? {
      FindIsFirstMatch(buf, offset, query, prepend);
    }
  }

  datatype File = File(startCluster: nat, size: nat)

  datatype Lookup = LookupPanicked | LookedUp(file: Option<File>)

  /**
   * `find_file_in_root_dir`: the root directory must fill exactly the
   * 16 KiB buffer and the volume must not be FAT32; a directory of the
   * right name is not a file.
   */
  function FindFile(disk: Disk, b: Bpb, query: seq<nat>, prepend: bool): (r: Lookup)
    ensures r.LookedUp? ==> RootDirSize(b) == Some(ROOT_BUFFER) && FatTypeOf(b).Some? && FatTypeOf(b) != Some(Fat32)
    ensures r.LookedUp? ==> Find(RootBuffer(disk, b), 0, query, prepend).Searched?
    ensures r.LookedUp? && r.file.Some? ==>
              var found := Find(RootBuffer(disk, b), 0, query, prepend).found;
              found.Some? && EqName(found.value, query) && !IsDir(found.value)
              && r.file.value == File(found.value.firstCluster, found.value.size)
  {
    if RootDirSize(b) != Some(ROOT_BUFFER) || FatTypeOf(b).None? || FatTypeOf(b) == Some(Fat32) then LookupPanicked
    else
      match Find(RootBuffer(disk, b), 0, query, prepend)
      case SearchPanicked => LookupPanicked
      case Searched(None) => LookedUp(None)
      case Searched(Some(e)) =>
        if IsDir(e) then LookedUp(None) else LookedUp(Some(File(e.firstCluster, e.size)))
  }

  /** The root directory sectors, read into the 16 KiB buffer. */
  function RootBuffer(disk: Disk, b: Bpb): (buf: seq<byte>)
    ensures |buf| == ROOT_BUFFER
  {
    match FirstRootDirSector(b)
    case Some(s) => ReadSectors(disk, s, ROOT_BUFFER)
    case None => ReadSectors(disk, 0, ROOT_BUFFER)
  }

  // ---------------------------------------------------------------------------
  // Cluster chains

  datatype Chain = ChainPanicked | ChainFailed | ChainDone(sectors: seq<nat>) | Unfinished

  /**
   * `FileIter` from `entry` on: each cluster yields its first sector and
   * moves to the cluster the table links it to; the end-of-file marker ends
   * the chain, and a bad or reserved entry fails with `FileReadError`. A
   * cluster below 2 underflows `first_cluster_sector`.
   */
  function ChainWalk(disk: Disk, b: Bpb, t: FatType, entry: FatEntry, fuel: nat): (r: Chain)
    ensures r.ChainDone? ==> forall i :: 0 <= i < |r.sectors| ==> FirstDataSector(b).Some? && r.sectors[i] >= FirstDataSector(b).value
    ensures r.ChainDone? ==> |r.sectors| <= fuel
    decreases fuel
  {
    match entry
    case BadCluster => ChainFailed
    case ReservedCluster => ChainFailed
    case EndOfFile => ChainDone([])
    case Cluster(n) =>
      if fuel == 0 then Unfinished
      else match (FirstClusterSector(b, n), GetEntry(disk, t, b.reservedSectorCount, b.bytesPerSector, n))
        case (Some(s), Some(next)) =>
          ClusterSectors(b, n);
          var rest := ChainWalk(disk, b, t, next, fuel - 1);
          if rest.ChainDone? then ChainDone([s] + rest.sectors) else rest
        case _ => ChainPanicked
  }

  /** More fuel changes nothing once the walk has an outcome. */
  lemma {:induction false} ChainFuel(disk: Disk, b: Bpb, t: FatType, entry: FatEntry, fuel: nat, more: nat)
    requires !ChainWalk(disk, b, t, entry, fuel).Unfinished?
    requires fuel <= more
    ensures ChainWalk(disk, b, t, entry, more) == ChainWalk(disk, b, t, entry, fuel)
    decreases fuel
  {
    if entry.Cluster? && fuel > 0 {
      var n := entry.number;
      if FirstClusterSector(b, n).Some? && GetEntry(disk, t, b.reservedSectorCount, b.bytesPerSector, n).Some? {
        ChainFuel(disk, b, t, GetEntry(disk, t, b.reservedSectorCount, b.bytesPerSector, n).value, fuel - 1, more - 1);
      }
    }
  }

  /** A file of `size` bytes spans `ceil(size / 512)` sectors; `size + 511` overflows a `u32` near the top. */
  function SizeInSectors(size: nat): (r: Option<nat>)
    ensures r.Some? <==> size + SECTOR_SIZE - 1 < 0x1_0000_0000
    ensures r.Some? ==> r.value * SECTOR_SIZE >= size && (r.value == 0 || (r.value - 1) * SECTOR_SIZE < size)
  {
    var x := size + SECTOR_SIZE - 1;
    if x >= 0x1_0000_0000 then None
    else
      var q := x / SECTOR_SIZE;
      assert x == q * SECTOR_SIZE + x % SECTOR_SIZE;
      Some(q)
  }

  // ---------------------------------------------------------------------------
  // Loading

  /** One cluster's buffer copied to `dest + offset`. */
  datatype Copy = Copy(offset: nat, data: seq<byte>)

  datatype Load = LoadPanicked | FileNotFound | FileReadError | LoadUnfinished | Loaded(size: nat, copies: seq<Copy>)

  /** The copies of the clusters at `sectors`, each two sectors after the one before it. */
  function Copies(disk: Disk, sectors: seq<nat>): (cs: seq<Copy>)
    ensures |cs| == |sectors|
    ensures forall k :: 0 <= k < |cs| ==> cs[k] == Copy(k * CLUSTER_BYTES, ReadSectors(disk, sectors[k], CLUSTER_BYTES))
  {
    seq(|sectors|, k requires 0 <= k < |sectors| => Copy(k * CLUSTER_BYTES, ReadSectors(disk, sectors[k], CLUSTER_BYTES)))
  }

  /** Enough clusters for the sectors a size needs hold that many bytes. */
  lemma ClustersHoldSize(n: nat, need: nat, size: nat)
    requires CLUSTER_SECTORS * n >= need && need * SECTOR_SIZE >= size
    ensures n * CLUSTER_BYTES >= size
  {
    assert n * CLUSTER_BYTES == (CLUSTER_SECTORS * n) * SECTOR_SIZE;
  }

  /**
   * `try_load_file`: find the file, copy each of its clusters in chain
   * order, and fail with `FileReadError` when fewer sectors were copied than
   * the file's size needs.
   */
  function TryLoadFile(disk: Disk, b: Bpb, query: seq<nat>, prepend: bool, fuel: nat): (r: Load)
    ensures r.Loaded? ==> |r.copies| * CLUSTER_BYTES >= r.size
    ensures r.Loaded? ==> forall k :: 0 <= k < |r.copies| ==> r.copies[k].offset == k * CLUSTER_BYTES && |r.copies[k].data| == CLUSTER_BYTES
    ensures r.FileNotFound? <==> FindFile(disk, b, query, prepend) == LookedUp(None)
  {
    match FindFile(disk, b, query, prepend)
    case LookupPanicked => LoadPanicked
    case LookedUp(None) => FileNotFound
    case LookedUp(Some(file)) =>
      var t := FatTypeOf(b).value;
      match ChainWalk(disk, b, t, Cluster(file.startCluster), fuel)
      case ChainPanicked => LoadPanicked
      case ChainFailed => FileReadError
      case Unfinished => LoadUnfinished
      case ChainDone(sectors) =>
        match SizeInSectors(file.size)
          case None => LoadPanicked
          case Some(need) =>
            if CLUSTER_SECTORS * |sectors| < need then FileReadError
            else
              ClustersHoldSize(|sectors|, need, file.size);
              Loaded(file.size, Copies(disk, sectors))
  }

  /**
   * A loaded file is the file the directory names: its size is the entry's
   * size, and copy `k` holds the two sectors at the `k`th cluster of its
   * chain, which lies in the data region.
   */
  lemma LoadedFile(disk: Disk, b: Bpb, query: seq<nat>, prepend: bool, fuel: nat)
    requires TryLoadFile(disk, b, query, prepend, fuel).Loaded?
    ensures var r := TryLoadFile(disk, b, query, prepend, fuel);
            var found := FindFile(disk, b, query, prepend);
            found.LookedUp? && found.file.Some? && found.file.value.size == r.size
            && var chain := ChainWalk(disk, b, FatTypeOf(b).value, Cluster(found.file.value.startCluster), fuel);
               chain.ChainDone? && |chain.sectors| == |r.copies|
               && forall k :: 0 <= k < |r.copies| ==>
                    r.copies[k].data == ReadSectors(disk, chain.sectors[k], CLUSTER_BYTES) && chain.sectors[k] >= FirstDataSector(b).value
  {
  }

  /** A load that finished with some fuel finishes the same way with more. */
  lemma LoadFuel(disk: Disk, b: Bpb, query: seq<nat>, prepend: bool, fuel: nat, more: nat)
    requires !TryLoadFile(disk, b, query, prepend, fuel).LoadUnfinished? && fuel <= more
    ensures TryLoadFile(disk, b, query, prepend, more) == TryLoadFile(disk, b, query, prepend, fuel)
  {
    match FindFile(disk, b, query, prepend)
    case LookupPanicked =>
    case LookedUp(None) =>
    case LookedUp(Some(file)) =>
      ChainFuel(disk, b, FatTypeOf(b).value, Cluster(file.startCluster), fuel, more);
  }

  /**
   * `FileReadError` comes from a bad or reserved cluster in the chain, or
   * from a chain too short for the size the directory records.
   */
  lemma LoadReadError(disk: Disk, b: Bpb, query: seq<nat>, prepend: bool, fuel: nat)
    requires FindFile(disk, b, query, prepend).LookedUp? && FindFile(disk, b, query, prepend).file.Some?
    ensures var file := FindFile(disk, b, query, prepend).file.value;
            var chain := ChainWalk(disk, b, FatTypeOf(b).value, Cluster(file.startCluster), fuel);
            TryLoadFile(disk, b, query, prepend, fuel) == FileReadError <==>
              chain.ChainFailed?
              || (chain.ChainDone? && SizeInSectors(file.size).Some? && CLUSTER_SECTORS * |chain.sectors| < SizeInSectors(file.size).value)
  {
  }
}
