/**
 * The ELF-64 reader: the file header, the program and section header
 * tables, and the Rel/Rela relocation entries, following chapter 4 ("ELF
 * Header", "Relocation") of the System V gABI. Every multi-byte field is
 * little-endian. Reading past the end of the input slice panics, as do the
 * `u64` additions of an offset that overflow.
 */
module Elf {
  import opened Wrappers
  import opened Bytes
  import Powers

  /** `2^64`: offsets at or past it overflow a `u64`. */
  const U64_LIMIT: nat := 0x1_0000_0000_0000_0000

  /** `2^32`: the split point of `r_info`. */
  const U32_LIMIT: nat := 0x1_0000_0000

  const MAGIC: seq<byte> := [0x7f, 0x45, 0x4c, 0x46]
  const CLASS_ELF64: byte := 2
  const DATA_LITTLE: byte := 1
  const MACHINE_X86_64: nat := 0x3e

  datatype HeaderError =
    InvalidMagic | InvalidClass | InvalidEndianess | InvalidVersion | InvalidAbi | InvalidElfType | InvalidMachine

  datatype ProgramHeaderError = UnknownSegmentFlags | InvalidSegmentType | InvalidAlignment | InvalidHeaderOffset

  datatype SectionHeaderError = InvalidHeaderType | InvalidSectionFlags | InvalidHeaderOffset

  datatype ElfError =
    | InvalidElfHeader(header: HeaderError)
    | InvalidProgramHeader(program: ProgramHeaderError)
    | InvalidSectionHeader(section: SectionHeaderError)
    | InvalidRelocationType
    | Other

  /** A panic, an `Err`, or an `Ok` value. */
  datatype Parse<T> = Panicked | Fail(error: ElfError) | Done(value: T)

  // ---------------------------------------------------------------------------
  // The file header

  datatype ElfHeader = ElfHeader(
    entry: nat, phoff: nat, shoff: nat,
    phentsize: nat, phnum: nat, shentsize: nat, shnum: nat, shstrndx: nat)

  /**
   * The first `k` identification checks pass: the magic, then the class,
   * data encoding, version and OS ABI bytes.
   */
  predicate IdentOk(raw: seq<byte>, k: nat)
    requires 4 <= k <= 8 && |raw| >= k
  {
    raw[..4] == MAGIC && (k >= 5 ==> raw[4] == CLASS_ELF64) && (k >= 6 ==> raw[5] == DATA_LITTLE)
    && (k >= 7 ==> raw[6] == 1) && (k >= 8 ==> raw[7] == 0)
  }

  /** Every check `ElfHeader::new` makes, given at least 64 bytes. */
  predicate Accepted(raw: seq<byte>)
    requires |raw| >= 0x40
  {
    IdentOk(raw, 8) && LeAt(raw, 0x10, 2) <= 4 && LeAt(raw, 0x12, 2) == MACHINE_X86_64
  }

  /** The header fields at their offsets. */
  function HeaderFields(raw: seq<byte>): ElfHeader
    requires |raw| >= 0x40
  {
    ElfHeader(LeAt(raw, 0x18, 8), LeAt(raw, 0x20, 8), LeAt(raw, 0x28, 8),
              LeAt(raw, 0x36, 2), LeAt(raw, 0x38, 2), LeAt(raw, 0x3a, 2), LeAt(raw, 0x3c, 2), LeAt(raw, 0x3e, 2))
  }

  /**
   * `ElfHeader::new`, reporting a bad class byte as `classError`. The checks
   * run in order and the first that fails decides the error; each reads its
   * bytes first, so a short input panics at the first byte it lacks.
   */
  function ParseHeaderWith(raw: seq<byte>, classError: HeaderError): (r: Parse<ElfHeader>)
    requires classError == InvalidClass || classError == InvalidElfType
    ensures r.Done? <==> |raw| >= 0x40 && Accepted(raw)
    ensures r.Done? ==> r.value == HeaderFields(raw)
    ensures r == Fail(InvalidElfHeader(InvalidMagic)) <==> |raw| >= 4 && raw[..4] != MAGIC
    ensures |raw| >= 5 && IdentOk(raw, 4) && raw[4] != CLASS_ELF64 ==> r == Fail(InvalidElfHeader(classError))
    ensures r.Fail? ==> r.error.InvalidElfHeader?
    ensures r.Panicked? ==> |raw| < 0x40
  {
    if |raw| < 4 then Panicked
    else if raw[..4] != MAGIC then Fail(InvalidElfHeader(InvalidMagic))
    else if |raw| < 5 then Panicked
    else if raw[4] != CLASS_ELF64 then Fail(InvalidElfHeader(classError))
    else if |raw| < 6 then Panicked
    else if raw[5] != DATA_LITTLE then Fail(InvalidElfHeader(InvalidEndianess))
    else if |raw| < 7 then Panicked
    else if raw[6] != 1 then Fail(InvalidElfHeader(InvalidVersion))
    else if |raw| < 8 then Panicked
    else if raw[7] != 0 then Fail(InvalidElfHeader(InvalidAbi))
    else if |raw| < 0x12 then Panicked
    else if LeAt(raw, 0x10, 2) > 4 then Fail(InvalidElfHeader(InvalidElfType))
    else if |raw| < 0x14 then Panicked
    else if LeAt(raw, 0x12, 2) != MACHINE_X86_64 then Fail(InvalidElfHeader(InvalidMachine))
    else if |raw| < 0x40 then Panicked
    else Done(HeaderFields(raw))
  }

  /** `ElfHeader::new` as written: a bad class byte is reported as `InvalidElfType`. */
  function ParseHeaderAsWritten(raw: seq<byte>): Parse<ElfHeader> {
    ParseHeaderWith(raw, InvalidElfType)
  }

  /** `ElfHeader::new` reporting a bad class byte as `InvalidClass`. */
  function ParseHeader(raw: seq<byte>): Parse<ElfHeader> {
    ParseHeaderWith(raw, InvalidClass)
  }

  /** Each error is reported exactly when its check is the first to fail. */
  lemma HeaderErrors(raw: seq<byte>)
    ensures ParseHeader(raw) == Fail(InvalidElfHeader(InvalidClass))
            <==> |raw| >= 5 && IdentOk(raw, 4) && raw[4] != CLASS_ELF64
    ensures ParseHeader(raw) == Fail(InvalidElfHeader(InvalidEndianess))
            <==> |raw| >= 6 && IdentOk(raw, 5) && raw[5] != DATA_LITTLE
    ensures ParseHeader(raw) == Fail(InvalidElfHeader(InvalidVersion))
            <==> |raw| >= 7 && IdentOk(raw, 6) && raw[6] != 1
    ensures ParseHeader(raw) == Fail(InvalidElfHeader(InvalidAbi))
            <==> |raw| >= 8 && IdentOk(raw, 7) && raw[7] != 0
    ensures ParseHeader(raw) == Fail(InvalidElfHeader(InvalidElfType))
            <==> |raw| >= 0x12 && IdentOk(raw, 8) && LeAt(raw, 0x10, 2) > 4
    ensures ParseHeader(raw) == Fail(InvalidElfHeader(InvalidMachine))
            <==> |raw| >= 0x14 && IdentOk(raw, 8) && LeAt(raw, 0x10, 2) <= 4 && LeAt(raw, 0x12, 2) != MACHINE_X86_64
  {
  }

  /**
   * As written, a 32-bit ELF file (class byte 1) is rejected as having an
   * invalid type, the same error as an unknown `e_type`; `InvalidClass` is
   * never produced.
   */
  lemma ClassReportedAsType(raw: seq<byte>)
    requires |raw| >= 5 && raw[..4] == MAGIC && raw[4] == 1
    ensures ParseHeaderAsWritten(raw) == Fail(InvalidElfHeader(InvalidElfType))
    ensures forall r: seq<byte> :: ParseHeaderAsWritten(r) != Fail(InvalidElfHeader(InvalidClass))
  {
  }

  /** The two versions differ exactly on a bad class byte, which only the corrected one tells apart from a bad type. */
  lemma HeaderVersionsAgree(raw: seq<byte>)
    ensures ParseHeader(raw) != ParseHeaderAsWritten(raw)
            <==> |raw| >= 5 && raw[..4] == MAGIC && raw[4] != CLASS_ELF64
    ensures ParseHeader(raw) != ParseHeaderAsWritten(raw) ==>
              ParseHeader(raw) == Fail(InvalidElfHeader(InvalidClass))
              && ParseHeaderAsWritten(raw) == Fail(InvalidElfHeader(InvalidElfType))
  {
  }

  /** Bytes 0 to 15: magic, class 64-bit, little-endian, version 1, System V ABI, padding. */
  function EncodeIdent(): (s: seq<byte>)
    ensures |s| == 0x10
  {
    MAGIC + [CLASS_ELF64, DATA_LITTLE, 1, 0, 0, 0, 0, 0, 0, 0, 0, 0]
  }

  /** Bytes 16 to 31: `e_type`, `e_machine`, `e_version` 1, `e_entry`. */
  function EncodeTypes(etype: nat, entry: nat): (s: seq<byte>)
    ensures |s| == 0x10
  {
    ToLe(etype, 2) + (ToLe(MACHINE_X86_64, 2) + (ToLe(1, 4) + ToLe(entry, 8)))
  }

  /** Bytes 32 to 47: `e_phoff`, `e_shoff`. */
  function EncodeOffsets(phoff: nat, shoff: nat): (s: seq<byte>)
    ensures |s| == 0x10
  {
    ToLe(phoff, 8) + ToLe(shoff, 8)
  }

  /** Bytes 48 to 55: `e_flags` 0, `e_ehsize` 64, `e_phentsize`. */
  function EncodeSizes(phentsize: nat): (s: seq<byte>)
    ensures |s| == 8
  {
    ToLe(0, 4) + (ToLe(0x40, 2) + ToLe(phentsize, 2))
  }

  /** Bytes 56 to 63: `e_phnum`, `e_shentsize`, `e_shnum`, `e_shstrndx`. */
  function EncodeCounts(h: ElfHeader): (s: seq<byte>)
    ensures |s| == 8
  {
    ToLe(h.phnum, 2) + (ToLe(h.shentsize, 2) + (ToLe(h.shnum, 2) + ToLe(h.shstrndx, 2)))
  }

  /** The 64 bytes of a little-endian x86-64 header with the given fields. */
  function EncodeHeader(h: ElfHeader, etype: nat): (raw: seq<byte>)
    ensures |raw| == 0x40
  {
    EncodeIdent() + (EncodeTypes(etype, h.entry) + (EncodeOffsets(h.phoff, h.shoff)
                     + (EncodeSizes(h.phentsize) + EncodeCounts(h))))
  }

  /** The header's fields fit their widths. */
  predicate HeaderInRange(h: ElfHeader) {
    h.entry < U64_LIMIT && h.phoff < U64_LIMIT && h.shoff < U64_LIMIT
    && h.phentsize < 0x1_0000 && h.phnum < 0x1_0000 && h.shentsize < 0x1_0000
    && h.shnum < 0x1_0000 && h.shstrndx < 0x1_0000
  }

  /** Parsing an encoded header gives back its fields, for every `e_type` from 0 to 4. */
  lemma HeaderRoundTrip(h: ElfHeader, etype: nat)
    requires HeaderInRange(h) && etype <= 4
    ensures ParseHeader(EncodeHeader(h, etype)) == Done(h)
  {
    TypesFields(etype, h.entry);
    OffsetsFields(h.phoff, h.shoff);
    SizesFields(h.phentsize);
    CountsFields(h);
    HeaderFromParts(EncodeIdent(), EncodeTypes(etype, h.entry), EncodeOffsets(h.phoff, h.shoff),
                    EncodeSizes(h.phentsize), EncodeCounts(h), h, etype);
  }

  /** The header assembled from its five parts, knowing only the fields each part holds. */
  lemma HeaderFromParts(i: seq<byte>, t: seq<byte>, o: seq<byte>, b1: seq<byte>, b2: seq<byte>, h: ElfHeader, etype: nat)
    requires i == EncodeIdent() && |t| == 0x10 && |o| == 0x10 && |b1| == 8 && |b2| == 8 && etype <= 4
    requires LeAt(t, 0, 2) == etype && LeAt(t, 2, 2) == MACHINE_X86_64 && LeAt(t, 8, 8) == h.entry
    requires LeAt(o, 0, 8) == h.phoff && LeAt(o, 8, 8) == h.shoff && LeAt(b1, 6, 2) == h.phentsize
    requires LeAt(b2, 0, 2) == h.phnum && LeAt(b2, 2, 2) == h.shentsize
    requires LeAt(b2, 4, 2) == h.shnum && LeAt(b2, 6, 2) == h.shstrndx
    ensures ParseHeader(i + (t + (o + (b1 + b2)))) == Done(h)
  {
    var r3 := b1 + b2;
    var r2 := o + r3;
    var r1 := t + r2;
    var raw := i + r1;
    LeAtShift(i, r1, 0x10, 0, 2);
    LeAtPrefix(t, r2, 0, 2);
    LeAtShift(i, r1, 0x12, 2, 2);
    LeAtPrefix(t, r2, 2, 2);
    LeAtShift(i, r1, 0x18, 8, 8);
    LeAtPrefix(t, r2, 8, 8);
    LeAtShift(i, r1, 0x20, 0x10, 8);
    LeAtShift(t, r2, 0x10, 0, 8);
    LeAtPrefix(o, r3, 0, 8);
    LeAtShift(i, r1, 0x28, 0x18, 8);
    LeAtShift(t, r2, 0x18, 8, 8);
    LeAtPrefix(o, r3, 8, 8);
    LeAtShift(i, r1, 0x36, 0x26, 2);
    LeAtShift(t, r2, 0x26, 0x16, 2);
    LeAtShift(o, r3, 0x16, 6, 2);
    LeAtPrefix(b1, b2, 6, 2);
    HeaderCounts(i, t, o, b1, b2);
    IdentFields(i, r1);
    assert Accepted(raw);
    assert HeaderFields(raw) == h;
  }

  lemma IdentFields(i: seq<byte>, rest: seq<byte>)
    requires i == EncodeIdent() && |rest| == 0x30
    ensures IdentOk(i + rest, 8)
  {
    assert (i + rest)[..4] == MAGIC;
  }

  lemma HeaderCounts(i: seq<byte>, t: seq<byte>, o: seq<byte>, b1: seq<byte>, b2: seq<byte>)
    requires |i| == 0x10 && |t| == 0x10 && |o| == 0x10 && |b1| == 8 && |b2| == 8
    ensures var raw := i + (t + (o + (b1 + b2)));
            LeAt(raw, 0x38, 2) == LeAt(b2, 0, 2) && LeAt(raw, 0x3a, 2) == LeAt(b2, 2, 2)
            && LeAt(raw, 0x3c, 2) == LeAt(b2, 4, 2) && LeAt(raw, 0x3e, 2) == LeAt(b2, 6, 2)
  {
    var r3 := b1 + b2;
    var r2 := o + r3;
    var r1 := t + r2;
    CountAt(i, t, o, b1, b2, 0);
    CountAt(i, t, o, b1, b2, 2);
    CountAt(i, t, o, b1, b2, 4);
    CountAt(i, t, o, b1, b2, 6);
  }

  lemma CountAt(i: seq<byte>, t: seq<byte>, o: seq<byte>, b1: seq<byte>, b2: seq<byte>, k: nat)
    requires |i| == 0x10 && |t| == 0x10 && |o| == 0x10 && |b1| == 8 && |b2| == 8 && k <= 6
    ensures LeAt(i + (t + (o + (b1 + b2))), 0x38 + k, 2) == LeAt(b2, k, 2)
  {
    LeAtShift(i, t + (o + (b1 + b2)), 0x38 + k, 0x28 + k, 2);
    LeAtShift(t, o + (b1 + b2), 0x28 + k, 0x18 + k, 2);
    LeAtShift(o, b1 + b2, 0x18 + k, 8 + k, 2);
    LeAtShift(b1, b2, 8 + k, k, 2);
  }

  lemma TypesFields(etype: nat, entry: nat)
    requires etype <= 4 && entry < U64_LIMIT
    ensures var t := EncodeTypes(etype, entry);
            LeAt(t, 0, 2) == etype && LeAt(t, 2, 2) == MACHINE_X86_64 && LeAt(t, 8, 8) == entry
  {
    var a, b, c, d := ToLe(etype, 2), ToLe(MACHINE_X86_64, 2), ToLe(1, 4), ToLe(entry, 8);
    LeAtPrefix(a, b + (c + d), 0, 2);
    LeAtWhole(etype, 2);
    LeAtShift(a, b + (c + d), 0x2, 0, 2);
    LeAtPrefix(b, c + d, 0, 2);
    LeAtWhole(MACHINE_X86_64, 2);
    LeAtShift(a, b + (c + d), 0x8, 6, 8);
    LeAtShift(b, c + d, 0x6, 4, 8);
    LeAtShift(c, d, 0x4, 0, 8);
    LeAtWhole(entry, 8);
  }

  lemma OffsetsFields(phoff: nat, shoff: nat)
    requires phoff < U64_LIMIT && shoff < U64_LIMIT
    ensures var o := EncodeOffsets(phoff, shoff);
            LeAt(o, 0, 8) == phoff && LeAt(o, 8, 8) == shoff
  {
    var a, b := ToLe(phoff, 8), ToLe(shoff, 8);
    LeAtPrefix(a, b, 0, 8);
    LeAtWhole(phoff, 8);
    LeAtShift(a, b, 0x8, 0, 8);
    LeAtWhole(shoff, 8);
  }

  lemma SizesFields(phentsize: nat)
    requires phentsize < 0x1_0000
    ensures LeAt(EncodeSizes(phentsize), 6, 2) == phentsize
  {
    var a, b, c := ToLe(0, 4), ToLe(0x40, 2), ToLe(phentsize, 2);
    LeAtShift(a, b + c, 0x6, 2, 2);
    LeAtShift(b, c, 0x2, 0, 2);
    LeAtWhole(phentsize, 2);
  }

  lemma CountsFields(h: ElfHeader)
    requires HeaderInRange(h)
    ensures var s := EncodeCounts(h);
            LeAt(s, 0, 2) == h.phnum && LeAt(s, 2, 2) == h.shentsize
            && LeAt(s, 4, 2) == h.shnum && LeAt(s, 6, 2) == h.shstrndx
  {
    var a, b, c, d := ToLe(h.phnum, 2), ToLe(h.shentsize, 2), ToLe(h.shnum, 2), ToLe(h.shstrndx, 2);
    LeAtPrefix(a, b + (c + d), 0, 2);
    LeAtWhole(h.phnum, 2);
    LeAtShift(a, b + (c + d), 0x2, 0, 2);
    LeAtPrefix(b, c + d, 0, 2);
    LeAtWhole(h.shentsize, 2);
    LeAtShift(a, b + (c + d), 0x4, 2, 2);
    LeAtShift(b, c + d, 0x2, 0, 2);
    LeAtPrefix(c, d, 0, 2);
    LeAtWhole(h.shnum, 2);
    LeAtShift(a, b + (c + d), 0x6, 4, 2);
    LeAtShift(b, c + d, 0x4, 2, 2);
    LeAtShift(c, d, 0x2, 0, 2);
    LeAtWhole(h.shstrndx, 2);
  }

  /** A field written with `ToLe` at `off` reads back as its value. */
  lemma Field(raw: seq<byte>, off: nat, v: nat, n: nat)
    requires off + n <= |raw| && v < Pow256(n) && raw[off..off + n] == ToLe(v, n)
    ensures LeAt(raw, off, n) == v
  {
    LeToLe(v, n);
  }

  // ---------------------------------------------------------------------------
  // Program headers

  datatype SegmentType = Null | Load | Dynamic | Interp | Note | Shlib | Phdr | Tls | GnuEhFrame | GnuStack | GnuRelro

  /** `SegmentType::try_from`. */
  function SegmentTypeOf(v: nat): (t: Option<SegmentType>)
    ensures t.Some? <==> v <= 7 || 0x6474e550 <= v <= 0x6474e552
  {
    match v
    case 0 => Some(Null)
    case 1 => Some(Load)
    case 2 => Some(Dynamic)
    case 3 => Some(Interp)
    case 4 => Some(Note)
    case 5 => Some(Shlib)
    case 6 => Some(Phdr)
    case 7 => Some(Tls)
    case 0x6474e550 => Some(GnuEhFrame)
    case 0x6474e551 => Some(GnuStack)
    case 0x6474e552 => Some(GnuRelro)
    case _ => Option.None
  }

  /** The `p_type` value of each segment type. */
  function SegmentTypeValue(t: SegmentType): nat {
    match t
    case Null => 0
    case Load => 1
    case Dynamic => 2
    case Interp => 3
    case Note => 4
    case Shlib => 5
    case Phdr => 6
    case Tls => 7
    case GnuEhFrame => 0x6474e550
    case GnuStack => 0x6474e551
    case GnuRelro => 0x6474e552
  }

  /** Decoding is the inverse of the type values. */
  lemma SegmentTypeRoundTrip(t: SegmentType, v: nat)
    ensures SegmentTypeOf(SegmentTypeValue(t)) == Some(t)
    ensures SegmentTypeOf(v) == Some(t) ==> SegmentTypeValue(t) == v
  {
  }

  const PF_X: nat := 1
  const PF_W: nat := 2
  const PF_R: nat := 4

  /** Bit `k` of `f`. */
  predicate Bit(f: nat, k: nat) {
    (f / Powers.Pow2(k)) % 2 == 1
  }

  predicate IsExecutable(flags: nat) {
    Bit(flags, 0)
  }

  predicate IsWritable(flags: nat) {
    Bit(flags, 1)
  }

  predicate IsReadable(flags: nat) {
    Bit(flags, 2)
  }

  /** `SegmentFlags::new` on a `u32`: flags outside R, W and X are an error. */
  function NewSegmentFlags(flags: nat): (r: Parse<nat>)
    requires flags < U32_LIMIT
    ensures r.Done? <==> flags < 8
    ensures r.Done? ==> r.value == flags
    ensures r.Fail? ==> r.error == InvalidProgramHeader(UnknownSegmentFlags)
    ensures r.Done? ==> (IsExecutable(flags) <==> flags in {1, 3, 5, 7})
                        && (IsWritable(flags) <==> flags in {2, 3, 6, 7})
                        && (IsReadable(flags) <==> flags >= 4)
  {
    if flags >= 8 then Fail(InvalidProgramHeader(UnknownSegmentFlags)) else Done(flags)
  }

  datatype ProgramHeader = ProgramHeader(
    typ: SegmentType, flags: nat, offset: nat, vaddr: nat, paddr: nat, filesz: nat, memsz: nat, align: nat)

  /**
   * `ProgramHeader::new`: the type is decoded first; the flags are taken
   * through `From`, so unknown flag bits are kept; an alignment that is
   * neither 0 nor a power of two is an error.
   */
  function ParseProgramHeader(s: seq<byte>): (r: Parse<ProgramHeader>)
    ensures r.Done? <==> |s| >= 0x38 && SegmentTypeOf(LeAt(s, 0, 4)).Some?
                         && (LeAt(s, 0x30, 8) == 0 || Powers.IsPow2(LeAt(s, 0x30, 8)))
    ensures r.Done? ==> r.value.flags == LeAt(s, 4, 4) && r.value.align == LeAt(s, 0x30, 8)
                        && SegmentTypeValue(r.value.typ) == LeAt(s, 0, 4)
                        && r.value.offset == LeAt(s, 8, 8) && r.value.vaddr == LeAt(s, 0x10, 8)
                        && r.value.filesz == LeAt(s, 0x20, 8) && r.value.memsz == LeAt(s, 0x28, 8)
    ensures r.Fail? ==> r.error == InvalidProgramHeader(InvalidSegmentType)
                        || r.error == InvalidProgramHeader(InvalidAlignment)
  {
    if |s| < 4 then Panicked
    else match SegmentTypeOf(LeAt(s, 0, 4))
      case None => Fail(InvalidProgramHeader(InvalidSegmentType))
      case Some(t) =>
        SegmentTypeRoundTrip(t, LeAt(s, 0, 4));
        if |s| < 0x38 then Panicked
        else
          var align := LeAt(s, 0x30, 8);
          if align != 0 && !Powers.IsPow2(align) then Fail(InvalidProgramHeader(InvalidAlignment))
          else Done(ProgramHeader(t, LeAt(s, 4, 4), LeAt(s, 8, 8), LeAt(s, 0x10, 8), LeAt(s, 0x18, 8),
                                  LeAt(s, 0x20, 8), LeAt(s, 0x28, 8), align))
  }

  /** A segment type with a value outside the table is an error even in a short header, whose remaining bytes are never read. */
  lemma UnknownSegmentTypeFirst(s: seq<byte>)
    requires 4 <= |s| < 0x38 && SegmentTypeOf(LeAt(s, 0, 4)).None?
    ensures ParseProgramHeader(s) == Fail(InvalidProgramHeader(InvalidSegmentType))
  {
  }

  /** Unknown flag bits pass `ProgramHeader::new`, though `SegmentFlags::new` rejects them. */
  lemma UnknownFlagsAccepted(s: seq<byte>)
    requires ParseProgramHeader(s).Done? && LeAt(s, 4, 4) >= 8
    ensures 8 <= ParseProgramHeader(s).value.flags < U32_LIMIT
    ensures NewSegmentFlags(ParseProgramHeader(s).value.flags).Fail?
  {
    LeBound(s[4..8]);
    assert Pow256(4) == U32_LIMIT;
  }

  function IsLoadable(p: ProgramHeader): bool {
    p.typ == Load
  }

  function IsTls(p: ProgramHeader): bool {
    p.typ == Tls
  }

  // ---------------------------------------------------------------------------
  // Section headers

  datatype SectionType =
    | SNull | Progbits | Symtab | Strtab | Rela | ShtHash | SDynamic | SNote | Nobits | Rel | SShlib | Dynsym
    | InitArray | FiniArray | PreinitArray | Group | SymtabShndx | GnuHash

  /** `SectionHeaderType::try_from`. */
  function SectionTypeOf(v: nat): (t: Option<SectionType>)
    ensures t.Some? <==> v <= 11 || 14 <= v <= 18 || v == 0x6ffffff6
  {
    match v
    case 0 => Some(SNull)
    case 1 => Some(Progbits)
    case 2 => Some(Symtab)
    case 3 => Some(Strtab)
    case 4 => Some(Rela)
    case 5 => Some(ShtHash)
    case 6 => Some(SDynamic)
    case 7 => Some(SNote)
    case 8 => Some(Nobits)
    case 9 => Some(Rel)
    case 10 => Some(SShlib)
    case 11 => Some(Dynsym)
    case 14 => Some(InitArray)
    case 15 => Some(FiniArray)
    case 16 => Some(PreinitArray)
    case 17 => Some(Group)
    case 18 => Some(SymtabShndx)
    case 0x6ffffff6 => Some(GnuHash)
    case _ => Option.None
  }

  /** The `sh_type` value of each section type. */
  function SectionTypeValue(t: SectionType): nat {
    match t
    case SNull => 0
    case Progbits => 1
    case Symtab => 2
    case Strtab => 3
    case Rela => 4
    case ShtHash => 5
    case SDynamic => 6
    case SNote => 7
    case Nobits => 8
    case Rel => 9
    case SShlib => 10
    case Dynsym => 11
    case InitArray => 14
    case FiniArray => 15
    case PreinitArray => 16
    case Group => 17
    case SymtabShndx => 18
    case GnuHash => 0x6ffffff6
  }

  /** Decoding is the inverse of the type values. */
  lemma SectionTypeRoundTrip(t: SectionType, v: nat)
    ensures SectionTypeOf(SectionTypeValue(t)) == Some(t)
    ensures SectionTypeOf(v) == Some(t) ==> SectionTypeValue(t) == v
  {
  }

  /** The known section flag bits: WRITE through TLS. */
  const KNOWN_SECTION_FLAGS: bv64 := 0x1 | 0x2 | 0x4 | 0x10 | 0x20 | 0x40 | 0x80 | 0x100 | 0x200 | 0x400

  /** `SectionFlags::new`: any bit outside the known ones is an error. */
  function NewSectionFlags(flags: bv64): (r: Parse<bv64>)
    ensures r.Done? <==> flags | KNOWN_SECTION_FLAGS == KNOWN_SECTION_FLAGS
    ensures r.Done? ==> r.value == flags
    ensures r.Fail? ==> r.error == InvalidSectionHeader(InvalidSectionFlags)
  {
    if flags & !KNOWN_SECTION_FLAGS != 0 then Fail(InvalidSectionHeader(InvalidSectionFlags)) else Done(flags)
  }

  datatype SectionHeader = SectionHeader(
    nameOff: nat, typ: SectionType, flags: nat, vaddr: nat, offset: nat, size: nat,
    link: nat, info: nat, addrAlign: nat, entsize: nat)

  /** `SectionHeader::new`: name and type are read first, the type is decoded, then the rest; flags go through `From`. */
  function ParseSectionHeader(s: seq<byte>): (r: Parse<SectionHeader>)
    ensures r.Done? <==> |s| >= 0x40 && SectionTypeOf(LeAt(s, 4, 4)).Some?
    ensures r.Done? ==> SectionTypeValue(r.value.typ) == LeAt(s, 4, 4)
                        && r.value.offset == LeAt(s, 0x18, 8) && r.value.size == LeAt(s, 0x20, 8)
                        && r.value.entsize == LeAt(s, 0x38, 8)
    ensures r.Fail? ==> r.error == InvalidSectionHeader(InvalidHeaderType)
  {
    if |s| < 8 then Panicked
    else match SectionTypeOf(LeAt(s, 4, 4))
      case None => Fail(InvalidSectionHeader(InvalidHeaderType))
      case Some(t) =>
        SectionTypeRoundTrip(t, LeAt(s, 4, 4));
        if |s| < 0x40 then Panicked
        else Done(SectionHeader(LeAt(s, 0, 4), t, LeAt(s, 8, 8), LeAt(s, 0x10, 8), LeAt(s, 0x18, 8),
                                LeAt(s, 0x20, 8), LeAt(s, 0x28, 4), LeAt(s, 0x2c, 4), LeAt(s, 0x30, 8),
                                LeAt(s, 0x38, 8)))
  }

  function ContainsRelocationEntries(sh: SectionHeader): bool {
    sh.typ == Rel || sh.typ == Rela
  }

  // ---------------------------------------------------------------------------
  // Header tables

  /** Where entry `i` of a table at `off` with entries of `entsize` bytes starts. */
  function EntryOffset(off: nat, entsize: nat, i: nat): nat {
    off + i * entsize
  }

  /**
   * The validation loop of `program_headers`/`section_headers` from entry
   * `i` on: each entry must lie inside the input, else `offsetError`, and
   * must parse; the headers are then yielded in table order.
   */
  function TableFrom<T>(raw: seq<byte>, off: nat, entsize: nat, num: nat, i: nat,
                        parse: seq<byte> -> Parse<T>, offsetError: ElfError): (r: Parse<seq<T>>)
    requires i <= num
    ensures r.Done? ==> |r.value| == num - i
    decreases num - i
  {
    if i == num then Done([])
    else
      var o := EntryOffset(off, entsize, i);
      if o + entsize >= U64_LIMIT then Panicked
      else if o + entsize > |raw| then Fail(offsetError)
      else match parse(raw[o..])
        case Panicked => Panicked
        case Fail(e) => Fail(e)
        case Done(h) =>
          match TableFrom(raw, off, entsize, num, i + 1, parse, offsetError)
          case Panicked => Panicked
          case Fail(e) => Fail(e)
          case Done(hs) => Done([h] + hs)
  }

  /** Entry `j` of a table lies inside the input, without overflow. */
  predicate EntryInside(raw: seq<byte>, off: nat, entsize: nat, j: nat) {
    EntryOffset(off, entsize, j) + entsize < U64_LIMIT && EntryOffset(off, entsize, j) + entsize <= |raw|
  }

  /** Entry `j` lies inside the input and parses to `h`. */
  ghost predicate EntryAt<T>(raw: seq<byte>, off: nat, entsize: nat, j: nat, parse: seq<byte> -> Parse<T>, h: T) {
    EntryInside(raw, off, entsize, j) && parse(raw[EntryOffset(off, entsize, j)..]) == Done(h)
  }

  /** Entry `j` lies inside the input and parses. */
  predicate EntryOk<T>(raw: seq<byte>, off: nat, entsize: nat, j: nat, parse: seq<byte> -> Parse<T>) {
    EntryInside(raw, off, entsize, j) && parse(raw[EntryOffset(off, entsize, j)..]).Done?
  }

  /** A table that parses holds, at position `k`, entry `i + k` parsed. */
  lemma {:induction false} TableEntries<T>(raw: seq<byte>, off: nat, entsize: nat, num: nat, i: nat,
                                           parse: seq<byte> -> Parse<T>, offsetError: ElfError)
    requires i <= num && TableFrom(raw, off, entsize, num, i, parse, offsetError).Done?
    ensures var hs := TableFrom(raw, off, entsize, num, i, parse, offsetError).value;
            forall k :: 0 <= k < |hs| ==> EntryAt(raw, off, entsize, i + k, parse, hs[k])
    decreases num - i
  {
    if i < num {
      TableEntries(raw, off, entsize, num, i + 1, parse, offsetError);
      var hs := TableFrom(raw, off, entsize, num, i, parse, offsetError).value;
      var rest := TableFrom(raw, off, entsize, num, i + 1, parse, offsetError).value;
      var o := EntryOffset(off, entsize, i);
      assert o + entsize < U64_LIMIT && o + entsize <= |raw|;
      assert parse(raw[o..]) == Done(hs[0]);
      forall k | 0 <= k < |hs|
        ensures EntryAt(raw, off, entsize, i + k, parse, hs[k])
      {
        if k > 0 {
          assert hs[k] == rest[k - 1] && i + k == (i + 1) + (k - 1);
        }
      }
    }
  }

  /** A table whose every entry lies inside the input and parses, parses. */
  lemma {:induction false} TableComplete<T>(raw: seq<byte>, off: nat, entsize: nat, num: nat, i: nat,
                                            parse: seq<byte> -> Parse<T>, offsetError: ElfError)
    requires i <= num
    requires forall j :: i <= j < num ==> EntryOk(raw, off, entsize, j, parse)
    ensures TableFrom(raw, off, entsize, num, i, parse, offsetError).Done?
    decreases num - i
  {
    if i < num {
      assert EntryOk(raw, off, entsize, i, parse);
      TableComplete(raw, off, entsize, num, i + 1, parse, offsetError);
    }
  }

  /** The first entry that runs past the input, after entries that parse, is reported as `offsetError`. */
  lemma {:induction false} TableOffsetError<T>(raw: seq<byte>, off: nat, entsize: nat, num: nat, i: nat, k: nat,
                                               parse: seq<byte> -> Parse<T>, offsetError: ElfError)
    requires i <= k < num
    requires forall j :: i <= j < k ==> EntryOk(raw, off, entsize, j, parse)
    requires EntryOffset(off, entsize, k) + entsize < U64_LIMIT && EntryOffset(off, entsize, k) + entsize > |raw|
    ensures TableFrom(raw, off, entsize, num, i, parse, offsetError) == Fail(offsetError)
    decreases k - i
  {
    if i < k {
      assert EntryOk(raw, off, entsize, i, parse);
      TableOffsetError(raw, off, entsize, num, i + 1, k, parse, offsetError);
    }
  }

  /** `program_headers` as written: an entry past the end is reported as a section header error. */
  function ProgramHeadersAsWritten(h: ElfHeader, raw: seq<byte>): Parse<seq<ProgramHeader>> {
    TableFrom(raw, h.phoff, h.phentsize, h.phnum, 0, ParseProgramHeader,
              InvalidSectionHeader(SectionHeaderError.InvalidHeaderOffset))
  }

  /** `program_headers` reporting an entry past the end as a program header error. */
  function ProgramHeaders(h: ElfHeader, raw: seq<byte>): Parse<seq<ProgramHeader>> {
    TableFrom(raw, h.phoff, h.phentsize, h.phnum, 0, ParseProgramHeader,
              InvalidProgramHeader(ProgramHeaderError.InvalidHeaderOffset))
  }

  /** `section_headers`. */
  function SectionHeaders(h: ElfHeader, raw: seq<byte>): Parse<seq<SectionHeader>> {
    TableFrom(raw, h.shoff, h.shentsize, h.shnum, 0, ParseSectionHeader,
              InvalidSectionHeader(SectionHeaderError.InvalidHeaderOffset))
  }

  /**
   * As written, a program header table whose first entry runs past the end
   * of the file is reported as an invalid section header offset.
   */
  lemma ProgramOffsetReportedAsSection(h: ElfHeader, raw: seq<byte>)
    requires h.phnum > 0 && h.phoff + h.phentsize < U64_LIMIT && h.phoff + h.phentsize > |raw|
    ensures ProgramHeadersAsWritten(h, raw) == Fail(InvalidSectionHeader(SectionHeaderError.InvalidHeaderOffset))
  {
  }

  /**
   * Reporting it as a program header error, the first program header entry
   * past the end of the file, after entries that parse, is an invalid
   * program header offset.
   */
  lemma ProgramOffsetReported(h: ElfHeader, raw: seq<byte>, k: nat)
    requires k < h.phnum
    requires forall j :: 0 <= j < k ==> EntryOk(raw, h.phoff, h.phentsize, j, ParseProgramHeader)
    requires EntryOffset(h.phoff, h.phentsize, k) + h.phentsize < U64_LIMIT
    requires EntryOffset(h.phoff, h.phentsize, k) + h.phentsize > |raw|
    ensures ProgramHeaders(h, raw) == Fail(InvalidProgramHeader(ProgramHeaderError.InvalidHeaderOffset))
  {
    TableOffsetError(raw, h.phoff, h.phentsize, h.phnum, 0, k, ParseProgramHeader,
                     InvalidProgramHeader(ProgramHeaderError.InvalidHeaderOffset));
  }

  /** The two versions of `program_headers` differ only in the error for an entry past the end. */
  lemma ProgramVersionsAgree(h: ElfHeader, raw: seq<byte>)
    ensures ProgramHeaders(h, raw) == ProgramHeadersAsWritten(h, raw)
            || (ProgramHeaders(h, raw) == Fail(InvalidProgramHeader(ProgramHeaderError.InvalidHeaderOffset))
                && ProgramHeadersAsWritten(h, raw) == Fail(InvalidSectionHeader(SectionHeaderError.InvalidHeaderOffset)))
  {
    TableErrorOnly(raw, h.phoff, h.phentsize, h.phnum, 0, ParseProgramHeader,
                   InvalidProgramHeader(ProgramHeaderError.InvalidHeaderOffset),
                   InvalidSectionHeader(SectionHeaderError.InvalidHeaderOffset));
  }

  /** Changing the offset error changes nothing but that error. */
  lemma {:induction false} TableErrorOnly<T>(raw: seq<byte>, off: nat, entsize: nat, num: nat, i: nat,
                                             parse: seq<byte> -> Parse<T>, e1: ElfError, e2: ElfError)
    requires i <= num
    ensures var r1, r2 := TableFrom(raw, off, entsize, num, i, parse, e1), TableFrom(raw, off, entsize, num, i, parse, e2);
            r1 == r2 || (r1 == Fail(e1) && r2 == Fail(e2))
    decreases num - i
  {
    if i < num {
      TableErrorOnly(raw, off, entsize, num, i + 1, parse, e1, e2);
    }
  }

  /**
   * The program headers are, in table order, the entries at `e_phoff`
   * every `e_phentsize` bytes, and the table parses when every one of its
   * `e_phnum` entries lies inside the file and parses.
   */
  lemma ProgramHeadersSpec(h: ElfHeader, raw: seq<byte>)
    ensures var r := ProgramHeaders(h, raw);
            r.Done? ==> |r.value| == h.phnum
                        && forall k :: 0 <= k < |r.value| ==> EntryAt(raw, h.phoff, h.phentsize, k, ParseProgramHeader, r.value[k])
    ensures (forall j :: 0 <= j < h.phnum ==> EntryOk(raw, h.phoff, h.phentsize, j, ParseProgramHeader))
            ==> ProgramHeaders(h, raw).Done?
  {
    var e := InvalidProgramHeader(ProgramHeaderError.InvalidHeaderOffset);
    if ProgramHeaders(h, raw).Done? {
      TableEntries(raw, h.phoff, h.phentsize, h.phnum, 0, ParseProgramHeader, e);
    }
    if forall j :: 0 <= j < h.phnum ==> EntryOk(raw, h.phoff, h.phentsize, j, ParseProgramHeader) {
      TableComplete(raw, h.phoff, h.phentsize, h.phnum, 0, ParseProgramHeader, e);
    }
  }

  /** The same for the section headers at `e_shoff`. */
  lemma SectionHeadersSpec(h: ElfHeader, raw: seq<byte>)
    ensures var r := SectionHeaders(h, raw);
            r.Done? ==> |r.value| == h.shnum
                        && forall k :: 0 <= k < |r.value| ==> EntryAt(raw, h.shoff, h.shentsize, k, ParseSectionHeader, r.value[k])
    ensures (forall j :: 0 <= j < h.shnum ==> EntryOk(raw, h.shoff, h.shentsize, j, ParseSectionHeader))
            ==> SectionHeaders(h, raw).Done?
  {
    var e := InvalidSectionHeader(SectionHeaderError.InvalidHeaderOffset);
    if SectionHeaders(h, raw).Done? {
      TableEntries(raw, h.shoff, h.shentsize, h.shnum, 0, ParseSectionHeader, e);
    }
    if forall j :: 0 <= j < h.shnum ==> EntryOk(raw, h.shoff, h.shentsize, j, ParseSectionHeader) {
      TableComplete(raw, h.shoff, h.shentsize, h.shnum, 0, ParseSectionHeader, e);
    }
  }

  // ---------------------------------------------------------------------------
  // Relocations

  const R_X86_64_RELATIVE: nat := 8

  /** A relocation: its type (0 to 16), offset, symbol index and, for Rela, addend. */
  datatype Relocation = Relocation(rtype: nat, offset: nat, symbol: nat, addend: Option<nat>)

  /** `RelocationEntry::new`: `r_offset`, then `r_info` split into type (low 32 bits) and symbol (high 32 bits). */
  function ParseRel(s: seq<byte>): (r: Parse<Relocation>)
    ensures r.Done? ==> r.value.addend.None?
  {
    if |s| < 0x10 then Panicked
    else
      var info := LeAt(s, 8, 8);
      if info % U32_LIMIT > 16 then Fail(InvalidRelocationType)
      else Done(Relocation(info % U32_LIMIT, LeAt(s, 0, 8), info / U32_LIMIT, Option.None))
  }

  /** `RelocationEntry::new_rela`: as `new`, all 24 bytes read first, with the addend at 0x10. */
  function ParseRela(s: seq<byte>): (r: Parse<Relocation>)
    ensures r.Done? ==> r.value.addend.Some?
  {
    if |s| < 0x18 then Panicked
    else
      var info := LeAt(s, 8, 8);
      if info % U32_LIMIT > 16 then Fail(InvalidRelocationType)
      else Done(Relocation(info % U32_LIMIT, LeAt(s, 0, 8), info / U32_LIMIT, Some(LeAt(s, 0x10, 8))))
  }

  /**
   * `r_info`'s low 32 bits are bytes 8 to 11 and its high 32 bits bytes 12
   * to 15: a parsed entry's type and symbol are those fields, its offset is
   * bytes 0 to 7, and a Rela addend is bytes 16 to 23. The type must be one
   * of the 17 known ones.
   */
  lemma RelocationFields(s: seq<byte>)
    requires |s| >= 0x10
    ensures ParseRel(s).Done? <==> LeAt(s, 8, 4) <= 16
    ensures ParseRel(s).Fail? <==> LeAt(s, 8, 4) > 16
    ensures ParseRel(s).Done? ==> ParseRel(s).value == Relocation(LeAt(s, 8, 4), LeAt(s, 0, 8), LeAt(s, 12, 4), Option.None)
    ensures |s| >= 0x18 && ParseRela(s).Done? ==>
              ParseRela(s).value == Relocation(LeAt(s, 8, 4), LeAt(s, 0, 8), LeAt(s, 12, 4), Some(LeAt(s, 0x10, 8)))
  {
    var info := s[8..16];
    assert Pow256(4) == U32_LIMIT;
    LeLowHigh(info, 4);
    assert info[..4] == s[8..12] && info[4..] == s[12..16];
  }

  /** The 24 bytes of a Rela entry. */
  function EncodeRela(r: Relocation): seq<byte>
    requires r.addend.Some?
  {
    ToLe(r.offset, 8) + ToLe(r.rtype, 4) + ToLe(r.symbol, 4) + ToLe(r.addend.value, 8)
  }

  /** Parsing an encoded Rela entry gives the entry back. */
  lemma RelaRoundTrip(r: Relocation)
    requires r.addend.Some? && r.rtype <= 16 && r.offset < U64_LIMIT && r.symbol < U32_LIMIT && r.addend.value < U64_LIMIT
    ensures ParseRela(EncodeRela(r)) == Done(r)
  {
    var s := EncodeRela(r);
    assert Pow256(4) == U32_LIMIT;
    Field(s, 0, r.offset, 8);
    Field(s, 8, r.rtype, 4);
    Field(s, 12, r.symbol, 4);
    Field(s, 0x10, r.addend.value, 8);
    RelocationFields(s);
  }

  /** The entries of relocation section `sh` from entry `i` on, `count` in all. */
  function EntriesFrom(raw: seq<byte>, sh: SectionHeader, i: nat, count: nat): (r: Parse<seq<Relocation>>)
    requires ContainsRelocationEntries(sh) && i <= count
    ensures r.Done? ==> |r.value| == count - i
    decreases count - i
  {
    if i == count then Done([])
    else
      var o := EntryOffset(sh.offset, sh.entsize, i);
      if o >= U64_LIMIT || o > |raw| then Panicked
      else
        var e := if sh.typ == Rel then ParseRel(raw[o..]) else ParseRela(raw[o..]);
        match e
        case Panicked => Panicked
        case Fail(err) => Fail(err)
        case Done(rel) =>
          match EntriesFrom(raw, sh, i + 1, count)
          case Panicked => Panicked
          case Fail(err) => Fail(err)
          case Done(rest) => Done([rel] + rest)
  }

  /** The entries of one section: none for a section without relocations; `size / entsize` of them otherwise, dividing by zero if `entsize` is 0. */
  function SectionRelocations(raw: seq<byte>, sh: SectionHeader): (r: Parse<seq<Relocation>>)
    ensures !ContainsRelocationEntries(sh) ==> r == Done([])
    ensures ContainsRelocationEntries(sh) && sh.entsize == 0 ==> r.Panicked?
    ensures r.Done? && ContainsRelocationEntries(sh) ==> |r.value| == sh.size / sh.entsize
  {
    if !ContainsRelocationEntries(sh) then Done([])
    else if sh.entsize == 0 then Panicked
    else EntriesFrom(raw, sh, 0, sh.size / sh.entsize)
  }

  /** Every entry of a Rela section carries an addend, and no entry of a Rel section does. */
  lemma SectionAddends(raw: seq<byte>, sh: SectionHeader)
    requires SectionRelocations(raw, sh).Done? && ContainsRelocationEntries(sh)
    ensures var rels := SectionRelocations(raw, sh).value;
            forall k :: 0 <= k < |rels| ==> (rels[k].addend.Some? <==> sh.typ == Rela)
  {
    RelaEntries(raw, sh, 0, sh.size / sh.entsize);
  }

  lemma {:induction false} RelaEntries(raw: seq<byte>, sh: SectionHeader, i: nat, count: nat)
    requires ContainsRelocationEntries(sh) && i <= count && EntriesFrom(raw, sh, i, count).Done?
    ensures var rels := EntriesFrom(raw, sh, i, count).value;
            forall k :: 0 <= k < |rels| ==> (rels[k].addend.Some? <==> sh.typ == Rela)
    decreases count - i
  {
    if i < count {
      RelaEntries(raw, sh, i + 1, count);
    }
  }

  /** The relocation entries of the sections from the first on, in section order. */
  function AllRelocations(raw: seq<byte>, shs: seq<SectionHeader>): Parse<seq<Relocation>>
    decreases |shs|
  {
    if shs == [] then Done([])
    else match SectionRelocations(raw, shs[0])
      case Panicked => Panicked
      case Fail(e) => Fail(e)
      case Done(rels) =>
        match AllRelocations(raw, shs[1..])
        case Panicked => Panicked
        case Fail(e) => Fail(e)
        case Done(rest) => Done(rels + rest)
  }

  /** `relocation_entries`: the section headers, then the entries of every Rel or Rela section. */
  function RelocationEntries(h: ElfHeader, raw: seq<byte>): Parse<seq<Relocation>> {
    match SectionHeaders(h, raw)
    case Panicked => Panicked
    case Fail(e) => Fail(e)
    case Done(shs) => AllRelocations(raw, shs)
  }

  /** Each section contributes `size / entsize` entries when it has relocations and none otherwise. */
  function RelocationCount(shs: seq<SectionHeader>): nat
    decreases |shs|
  {
    if shs == [] then 0
    else (if ContainsRelocationEntries(shs[0]) && shs[0].entsize > 0 then shs[0].size / shs[0].entsize else 0)
         + RelocationCount(shs[1..])
  }

  lemma {:induction false} AllRelocationsCount(raw: seq<byte>, shs: seq<SectionHeader>)
    ensures AllRelocations(raw, shs).Done? ==> |AllRelocations(raw, shs).value| == RelocationCount(shs)
    decreases |shs|
  {
    if shs != [] {
      AllRelocationsCount(raw, shs[1..]);
    }
  }

  // ---------------------------------------------------------------------------
  // The binary and its loader

  datatype ElfBinary = ElfBinary(raw: seq<byte>, header: ElfHeader)

  /** `ElfBinary::new`: a header error panics through `expect`. */
  function NewBinary(raw: seq<byte>): (r: Parse<ElfBinary>)
    ensures r.Done? <==> ParseHeader(raw).Done?
    ensures r.Done? ==> r.value.header == ParseHeader(raw).value && r.value.raw == raw
    ensures !r.Fail?
  {
    match ParseHeader(raw)
    case Done(h) => Done(ElfBinary(raw, h))
    case _ => Panicked
  }

  function EntryPoint(b: ElfBinary): nat {
    b.header.entry
  }

  /** The entry point of a parsed binary is the 8-byte little-endian field at offset 0x18 of its header. */
  lemma EntryPointField(raw: seq<byte>)
    requires NewBinary(raw).Done?
    ensures |raw| >= 0x40 && EntryPoint(NewBinary(raw).value) == LeAt(raw, 0x18, 8)
  {
  }

  /** A call the loader makes into its `ElfLoader`. */
  datatype Event = Allocate(ph: ProgramHeader) | Relocate(rel: Relocation)

  /** The calls made, and whether `load` panicked, returned an error or returned `Ok`. */
  datatype LoadOutcome =
    | LoadPanicked(events: seq<Event>)
    | LoadFailed(error: ElfError, events: seq<Event>)
    | Loaded(events: seq<Event>)

  function Loadable(phs: seq<ProgramHeader>): (r: seq<ProgramHeader>)
    ensures forall k :: 0 <= k < |r| ==> IsLoadable(r[k])
    decreases |phs|
  {
    if phs == [] then []
    else (if IsLoadable(phs[0]) then [phs[0]] else []) + Loadable(phs[1..])
  }

  function AllocateCalls(phs: seq<ProgramHeader>): (es: seq<Event>)
    ensures |es| == |phs|
    ensures forall k :: 0 <= k < |es| ==> es[k] == Allocate(phs[k])
  {
    seq(|phs|, k requires 0 <= k < |phs| => Allocate(phs[k]))
  }

  function RelocateCalls(rels: seq<Relocation>): (es: seq<Event>)
    ensures |es| == |rels|
    ensures forall k :: 0 <= k < |es| ==> es[k] == Relocate(rels[k])
  {
    seq(|rels|, k requires 0 <= k < |rels| => Relocate(rels[k]))
  }

  predicate HasTls(phs: seq<ProgramHeader>) {
    exists k :: 0 <= k < |phs| && IsTls(phs[k])
  }

  /**
   * `ElfBinary::load`: a TLS segment panics (`todo!`) before anything else;
   * otherwise `allocate` is called for each loadable header in order, then
   * the relocation entries are collected and `relocate` is called for each.
   */
  function LoadBinary(b: ElfBinary): LoadOutcome {
    match ProgramHeaders(b.header, b.raw)
    case Panicked => LoadPanicked([])
    case Fail(e) => LoadFailed(e, [])
    case Done(phs) =>
      if HasTls(phs) then LoadPanicked([])
      else
        var allocs := AllocateCalls(Loadable(phs));
        match RelocationEntries(b.header, b.raw)
        case Panicked => LoadPanicked(allocs)
        case Fail(e) => LoadFailed(e, allocs)
        case Done(rels) => Loaded(allocs + RelocateCalls(rels))
  }

  /**
   * What `load` does: with a TLS segment it panics having called nothing;
   * a program header error returns it having called nothing; otherwise
   * every loadable header is allocated once, in table order, and then, if
   * the relocations parse, each is passed to `relocate` in order, and only
   * after every allocation. A relocation error is returned after the
   * allocations and before any `relocate`.
   */
  lemma LoadSpec(b: ElfBinary)
    ensures var o := LoadBinary(b);
            var ph := ProgramHeaders(b.header, b.raw);
            (ph.Fail? ==> o == LoadFailed(ph.error, []))
            && (ph.Done? && HasTls(ph.value) ==> o == LoadPanicked([]))
            && (ph.Done? && !HasTls(ph.value) ==>
                  var n := |Loadable(ph.value)|;
                  var rs := RelocationEntries(b.header, b.raw);
                  |o.events| >= n
                  && (forall k :: 0 <= k < n ==> o.events[k] == Allocate(Loadable(ph.value)[k]))
                  && (rs.Fail? ==> o == LoadFailed(rs.error, o.events) && |o.events| == n)
                  && (rs.Done? ==> o.Loaded? && |o.events| == n + |rs.value|
                                   && forall k :: 0 <= k < |rs.value| ==> o.events[n + k] == Relocate(rs.value[k])))
  {
  }

  /** Every program header loaded is loadable, and every loadable one is loaded: `Loadable` keeps exactly those, in order. */
  lemma {:induction false} LoadableExact(phs: seq<ProgramHeader>, p: ProgramHeader)
    ensures p in Loadable(phs) <==> p in phs && IsLoadable(p)
    decreases |phs|
  {
    if phs != [] {
      LoadableExact(phs[1..], p);
      assert phs == [phs[0]] + phs[1..];
    }
  }
}
