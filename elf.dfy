/**
 * The ELF file header (System V ABI, chapter "Object Files", sections
 * "ELF Identification" and "ELF Header") as the decoder `ElfFile::new` reads
 * it: the 16-byte identification record, then one of two `#[repr(C)]` header
 * layouts chosen by the class byte.
 *
 * The source overlays the structs on the mapped file; here each field is read
 * from its byte offset explicitly, in the byte order of the host, and an
 * encoder puts the fields back at the same offsets.
 */
module Elf {
  import opened Bytes

  /** The magic number 7F 'E' 'L' 'F'. */
  const Magic: seq<byte> := [0x7f, 0x45, 0x4c, 0x46]

  const IdentSize: nat := 16
  const Elf32HeaderSize: nat := 52
  const Elf64HeaderSize: nat := 64

  /** `e_ident`: the first 16 bytes of every ELF file, whatever its class. */
  datatype ElfIdent = ElfIdent(
    magic: seq<byte>,
    elfClass: byte,
    data: byte,
    version: byte,
    osAbi: byte,
    abiVersion: byte,
    padding: seq<byte>)
  {
    /** The arrays `[u8; 4]` and `[u8; 7]` have those lengths. */
    predicate WellFormed() {
      |magic| == 4 && |padding| == 7
    }
  }

  /** The object file type `e_type`, a transparent wrapper around a u16. */
  datatype ElfType = ElfType(code: u16)

  /** The 32-bit layout: entry, phoff and shoff are four bytes wide. */
  datatype Elf32Header = Elf32Header(
    ident: ElfIdent,
    eType: ElfType,
    machine: u16,
    version: u32,
    entry: u32,
    phoff: u32,
    shoff: u32,
    flags: u32,
    ehsize: u16,
    phentsize: u16,
    phnum: u16,
    shentsize: u16,
    shnum: u16,
    shstrndx: u16)

  /** The 64-bit layout: entry, phoff and shoff are eight bytes wide. */
  datatype Elf64Header = Elf64Header(
    ident: ElfIdent,
    eType: ElfType,
    machine: u16,
    version: u32,
    entry: u64,
    phoff: u64,
    shoff: u64,
    flags: u32,
    ehsize: u16,
    phentsize: u16,
    phnum: u16,
    shentsize: u16,
    shnum: u16,
    shstrndx: u16)

  /** The header, tagged by the layout it was read with. */
  datatype ElfHeader = Elf32(h32: Elf32Header) | Elf64(h64: Elf64Header)
  {
    function Ident(): ElfIdent {
      match this
      case Elf32(h) => h.ident
      case Elf64(h) => h.ident
    }

    /** The number of bytes the layout occupies. */
    function Size(): (n: nat)
      ensures n == Elf32HeaderSize || n == Elf64HeaderSize
    {
      if Elf32? then Elf32HeaderSize else Elf64HeaderSize
    }
  }

  /** A decoded file: the identification record and the header it prefixes. */
  datatype ElfFile = ElfFile(ident: ElfIdent, header: ElfHeader)

  /** The ways `ElfFile::new` rejects a buffer; Truncated is not in the source. */
  datatype ElfError = NotElf | Truncated | EndiannessMismatch | InvalidClass

  datatype Result<T> = Ok(value: T) | Err(error: ElfError)

  function Message(e: ElfError): (s: string)
    ensures |s| > 0
  {
    match e
    case NotElf => "Not a valid ELF file"
    case Truncated => "ELF file is shorter than its header"
    case EndiannessMismatch => "ELF file endianess does not match the platform's endianess"
    case InvalidClass => "Invalid ELF class (not 32-bit or 64-bit)"
  }

  /** Each error has its own message. */
  lemma MessagesDistinct(a: ElfError, b: ElfError)
    ensures a != b ==> Message(a) != Message(b)
  {
  }

  predicate HasMagic(b: seq<byte>) {
    |b| >= 4 && b[..4] == Magic
  }

  /** The check of the data-encoding byte: accepted iff "data is 1" agrees with "host is little-endian". */
  predicate EndiannessMatches(data: byte, hostLittle: bool) {
    (data == 1) == hostLittle
  }

  // Overlays: the `#[repr(C)]` layouts read at their fixed offsets.

  function OverlayIdent(b: seq<byte>): (id: ElfIdent)
    requires |b| >= IdentSize
    ensures id.WellFormed()
  {
    ElfIdent(b[0..4], b[4], b[5], b[6], b[7], b[8], b[9..16])
  }

  function Overlay32(b: seq<byte>, little: bool): (h: Elf32Header)
    requires |b| >= Elf32HeaderSize
  {
    Elf32Header(
      OverlayIdent(b),
      ElfType(ReadU16(b, 16, little)),
      ReadU16(b, 18, little),
      ReadU32(b, 20, little),
      ReadU32(b, 24, little),
      ReadU32(b, 28, little),
      ReadU32(b, 32, little),
      ReadU32(b, 36, little),
      ReadU16(b, 40, little),
      ReadU16(b, 42, little),
      ReadU16(b, 44, little),
      ReadU16(b, 46, little),
      ReadU16(b, 48, little),
      ReadU16(b, 50, little))
  }

  function Overlay64(b: seq<byte>, little: bool): (h: Elf64Header)
    requires |b| >= Elf64HeaderSize
  {
    Elf64Header(
      OverlayIdent(b),
      ElfType(ReadU16(b, 16, little)),
      ReadU16(b, 18, little),
      ReadU32(b, 20, little),
      ReadU64(b, 24, little),
      ReadU64(b, 32, little),
      ReadU64(b, 40, little),
      ReadU32(b, 48, little),
      ReadU16(b, 52, little),
      ReadU16(b, 54, little),
      ReadU16(b, 56, little),
      ReadU16(b, 58, little),
      ReadU16(b, 60, little),
      ReadU16(b, 62, little))
  }

  /**
   * `ElfFile::new` after the file is mapped: the magic number, then the data
   * byte against the host byte order, then the class byte, which picks the
   * layout. The two length checks that yield Truncated are additions: the
   * source overlays the structs on whatever the file holds.
   */
  function Decode(b: seq<byte>, hostLittle: bool): (r: Result<ElfFile>)
    // the magic number is checked first, whatever follows it
    ensures r == Err(NotElf) <==> !HasMagic(b)
    // the data byte is checked before the class byte
    ensures r == Err(EndiannessMismatch) <==>
      HasMagic(b) && |b| >= IdentSize && !EndiannessMatches(b[5], hostLittle)
    ensures r == Err(InvalidClass) <==>
      HasMagic(b) && |b| >= IdentSize && EndiannessMatches(b[5], hostLittle) && b[4] !in {1, 2}
    ensures r == Err(Truncated) <==>
      HasMagic(b) && (|b| < IdentSize ||
        (EndiannessMatches(b[5], hostLittle) &&
         ((b[4] == 1 && |b| < Elf32HeaderSize) || (b[4] == 2 && |b| < Elf64HeaderSize))))
    // no partially valid result: success implies every check passed
    ensures r.Ok? ==>
      && HasMagic(b)
      && |b| >= r.value.header.Size()
      && EndiannessMatches(b[5], hostLittle)
      && r.value.ident == OverlayIdent(b)
      && r.value.header.Ident() == r.value.ident
    // the variant is chosen by the class byte alone
    ensures r.Ok? ==> (r.value.header.Elf32? <==> b[4] == 1) && (r.value.header.Elf64? <==> b[4] == 2)
  {
    if |b| < 4 || b[..4] != Magic then Err(NotElf)
    else if |b| < IdentSize then Err(Truncated)
    else
      var ident := OverlayIdent(b);
      if !EndiannessMatches(ident.data, hostLittle) then Err(EndiannessMismatch)
      else if ident.elfClass == 1 then
        if |b| < Elf32HeaderSize then Err(Truncated)
        else Ok(ElfFile(ident, Elf32(Overlay32(b, hostLittle))))
      else if ident.elfClass == 2 then
        if |b| < Elf64HeaderSize then Err(Truncated)
        else Ok(ElfFile(ident, Elf64(Overlay64(b, hostLittle))))
      else Err(InvalidClass)
  }

  // Encoding: the inverse of the overlays.

  function EncodeIdent(id: ElfIdent): (s: seq<byte>)
    requires id.WellFormed()
    ensures |s| == IdentSize
  {
    id.magic + [id.elfClass, id.data, id.version, id.osAbi, id.abiVersion] + id.padding
  }

  /** `e_type`, `e_machine` and `e_version`: bytes 16..24 in both layouts. */
  function EncodeCommon(eType: ElfType, machine: u16, version: u32, little: bool): (s: seq<byte>)
    ensures |s| == 8
  {
    PackU16(eType.code, little) + PackU16(machine, little) + PackU32(version, little)
  }

  /** `e_entry`, `e_phoff`, `e_shoff` as u32, then `e_flags`: bytes 24..40 of the 32-bit layout. */
  function EncodeAddresses32(entry: u32, phoff: u32, shoff: u32, flags: u32, little: bool): (s: seq<byte>)
    ensures |s| == 16
  {
    PackU32(entry, little) + PackU32(phoff, little) + PackU32(shoff, little) + PackU32(flags, little)
  }

  /** `e_entry`, `e_phoff`, `e_shoff` as u64, then `e_flags`: bytes 24..52 of the 64-bit layout. */
  function EncodeAddresses64(entry: u64, phoff: u64, shoff: u64, flags: u32, little: bool): (s: seq<byte>)
    ensures |s| == 28
  {
    PackU64(entry, little) + PackU64(phoff, little) + PackU64(shoff, little) + PackU32(flags, little)
  }

  /** The six u16 size and count fields that end both layouts. */
  function EncodeSizes(ehsize: u16, phentsize: u16, phnum: u16, shentsize: u16, shnum: u16, shstrndx: u16, little: bool): (s: seq<byte>)
    ensures |s| == 12
  {
    PackU16(ehsize, little) + PackU16(phentsize, little) + PackU16(phnum, little)
      + PackU16(shentsize, little) + PackU16(shnum, little) + PackU16(shstrndx, little)
  }

  function Encode32(h: Elf32Header, little: bool): (s: seq<byte>)
    requires h.ident.WellFormed()
    ensures |s| == Elf32HeaderSize
  {
    EncodeIdent(h.ident)
      + EncodeCommon(h.eType, h.machine, h.version, little)
      + EncodeAddresses32(h.entry, h.phoff, h.shoff, h.flags, little)
      + EncodeSizes(h.ehsize, h.phentsize, h.phnum, h.shentsize, h.shnum, h.shstrndx, little)
  }

  function Encode64(h: Elf64Header, little: bool): (s: seq<byte>)
    requires h.ident.WellFormed()
    ensures |s| == Elf64HeaderSize
  {
    EncodeIdent(h.ident)
      + EncodeCommon(h.eType, h.machine, h.version, little)
      + EncodeAddresses64(h.entry, h.phoff, h.shoff, h.flags, little)
      + EncodeSizes(h.ehsize, h.phentsize, h.phnum, h.shentsize, h.shnum, h.shstrndx, little)
  }

  function Encode(f: ElfFile, little: bool): (s: seq<byte>)
    requires f.header.Ident().WellFormed()
    ensures |s| == f.header.Size()
  {
    match f.header
    case Elf32(h) => Encode32(h, little)
    case Elf64(h) => Encode64(h, little)
  }

  /** What a file must satisfy for `Decode` to be able to produce it. */
  predicate Valid(f: ElfFile, hostLittle: bool) {
    && f.ident.WellFormed()
    && f.header.Ident() == f.ident
    && f.ident.magic == Magic
    && EndiannessMatches(f.ident.data, hostLittle)
    && (f.header.Elf32? <==> f.ident.elfClass == 1)
    && (f.header.Elf64? <==> f.ident.elfClass == 2)
  }

  // Round trips between the decoder and the encoder.

  lemma EncodeOverlayIdent(b: seq<byte>)
    requires |b| >= IdentSize
    ensures EncodeIdent(OverlayIdent(b)) == b[..IdentSize]
  {
  }

  // Each group of fields read at its offsets and packed again gives back its bytes.

  lemma EncodeReadCommon(b: seq<byte>, little: bool)
    requires |b| >= 24
    ensures EncodeCommon(ElfType(ReadU16(b, 16, little)), ReadU16(b, 18, little), ReadU32(b, 20, little), little) == b[16..24]
  {
    assert b[16..24] == b[16..18] + b[18..20] + b[20..24];
    PackReadU16(b, 16, little);
    PackReadU16(b, 18, little);
    PackReadU32(b, 20, little);
  }

  lemma EncodeReadAddresses32(b: seq<byte>, little: bool)
    requires |b| >= 40
    ensures EncodeAddresses32(ReadU32(b, 24, little), ReadU32(b, 28, little), ReadU32(b, 32, little), ReadU32(b, 36, little), little)
         == b[24..40]
  {
    assert b[24..40] == b[24..28] + b[28..32] + b[32..36] + b[36..40];
    PackReadU32(b, 24, little);
    PackReadU32(b, 28, little);
    PackReadU32(b, 32, little);
    PackReadU32(b, 36, little);
  }

  lemma EncodeReadAddresses64(b: seq<byte>, little: bool)
    requires |b| >= 52
    ensures EncodeAddresses64(ReadU64(b, 24, little), ReadU64(b, 32, little), ReadU64(b, 40, little), ReadU32(b, 48, little), little)
         == b[24..52]
  {
    assert b[24..52] == b[24..32] + b[32..40] + b[40..48] + b[48..52];
    PackReadU64(b, 24, little);
    PackReadU64(b, 32, little);
    PackReadU64(b, 40, little);
    PackReadU32(b, 48, little);
  }

  lemma EncodeReadSizes(b: seq<byte>, off: nat, little: bool)
    requires off + 12 <= |b|
    ensures EncodeSizes(ReadU16(b, off, little), ReadU16(b, off + 2, little), ReadU16(b, off + 4, little),
                        ReadU16(b, off + 6, little), ReadU16(b, off + 8, little), ReadU16(b, off + 10, little), little)
         == b[off..off + 12]
  {
    assert b[off..off + 12] == b[off..off + 2] + b[off + 2..off + 4] + b[off + 4..off + 6]
      + b[off + 6..off + 8] + b[off + 8..off + 10] + b[off + 10..off + 12];
    PackReadU16(b, off, little);
    PackReadU16(b, off + 2, little);
    PackReadU16(b, off + 4, little);
    PackReadU16(b, off + 6, little);
    PackReadU16(b, off + 8, little);
    PackReadU16(b, off + 10, little);
  }

  /** A 32-bit header whose four field groups match the bytes at their offsets encodes to those bytes. */
  lemma EncodeGroups32(h: Elf32Header, little: bool, b: seq<byte>)
    requires |b| >= Elf32HeaderSize && h.ident.WellFormed()
    requires EncodeIdent(h.ident) == b[..16]
    requires EncodeCommon(h.eType, h.machine, h.version, little) == b[16..24]
    requires EncodeAddresses32(h.entry, h.phoff, h.shoff, h.flags, little) == b[24..40]
    requires EncodeSizes(h.ehsize, h.phentsize, h.phnum, h.shentsize, h.shnum, h.shstrndx, little) == b[40..52]
    ensures Encode32(h, little) == b[..Elf32HeaderSize]
  {
    assert b[..Elf32HeaderSize] == b[..16] + b[16..24] + b[24..40] + b[40..52];
  }

  lemma OverlayEncodedIdent(b: seq<byte>, id: ElfIdent)
    requires |b| >= IdentSize && id.WellFormed() && b[..IdentSize] == EncodeIdent(id)
    ensures OverlayIdent(b) == id
  {
    var e := EncodeIdent(id);
    assert b[0..4] == e[0..4] == id.magic;
    assert b[9..16] == e[9..16] == id.padding;
  }

  /** Encoding the 32-bit overlay of a buffer gives back its first 52 bytes. */
  lemma EncodeOverlay32(b: seq<byte>, little: bool)
    requires |b| >= Elf32HeaderSize
    ensures Encode32(Overlay32(b, little), little) == b[..Elf32HeaderSize]
  {
    var h := Overlay32(b, little);
    assert EncodeIdent(h.ident) == b[..16] by { EncodeOverlayIdent(b); }
    assert EncodeCommon(h.eType, h.machine, h.version, little) == b[16..24] by { EncodeReadCommon(b, little); }
    assert EncodeAddresses32(h.entry, h.phoff, h.shoff, h.flags, little) == b[24..40] by {
      EncodeReadAddresses32(b, little);
    }
    assert EncodeSizes(h.ehsize, h.phentsize, h.phnum, h.shentsize, h.shnum, h.shstrndx, little) == b[40..52] by {
      EncodeReadSizes(b, 40, little);
    }
    EncodeGroups32(h, little, b);
  }


  /** A 64-bit header whose four field groups match the bytes at their offsets encodes to those bytes. */
  lemma EncodeGroups64(h: Elf64Header, little: bool, b: seq<byte>)
    requires |b| >= Elf64HeaderSize && h.ident.WellFormed()
    requires EncodeIdent(h.ident) == b[..16]
    requires EncodeCommon(h.eType, h.machine, h.version, little) == b[16..24]
    requires EncodeAddresses64(h.entry, h.phoff, h.shoff, h.flags, little) == b[24..52]
    requires EncodeSizes(h.ehsize, h.phentsize, h.phnum, h.shentsize, h.shnum, h.shstrndx, little) == b[52..64]
    ensures Encode64(h, little) == b[..Elf64HeaderSize]
  {
    assert b[..Elf64HeaderSize] == b[..16] + b[16..24] + b[24..52] + b[52..64];
  }

  /** Encoding the 64-bit overlay of a buffer gives back its first 64 bytes. */
  lemma EncodeOverlay64(b: seq<byte>, little: bool)
    requires |b| >= Elf64HeaderSize
    ensures Encode64(Overlay64(b, little), little) == b[..Elf64HeaderSize]
  {
    var h := Overlay64(b, little);
    assert EncodeIdent(h.ident) == b[..16] by { EncodeOverlayIdent(b); }
    assert EncodeCommon(h.eType, h.machine, h.version, little) == b[16..24] by { EncodeReadCommon(b, little); }
    assert EncodeAddresses64(h.entry, h.phoff, h.shoff, h.flags, little) == b[24..52] by {
      EncodeReadAddresses64(b, little);
    }
    assert EncodeSizes(h.ehsize, h.phentsize, h.phnum, h.shentsize, h.shnum, h.shstrndx, little) == b[52..64] by {
      EncodeReadSizes(b, 52, little);
    }
    EncodeGroups64(h, little, b);
  }


  // Each group of fields packed at its offsets reads back as the same values.

  lemma ReadEncodedCommon(b: seq<byte>, eType: ElfType, machine: u16, version: u32, little: bool)
    requires |b| >= 24 && b[16..24] == EncodeCommon(eType, machine, version, little)
    ensures ReadU16(b, 16, little) == eType.code
    ensures ReadU16(b, 18, little) == machine
    ensures ReadU32(b, 20, little) == version
  {
    SliceOfSlice(b, 16, 24, 0, 2);
    SliceOfSlice(b, 16, 24, 2, 4);
    SliceOfSlice(b, 16, 24, 4, 8);
    var s := b[16..24];
    assert s[0..2] == PackU16(eType.code, little);
    assert s[2..4] == PackU16(machine, little);
    assert s[4..8] == PackU32(version, little);
    ReadPackedU16(b, 16, eType.code, little);
    ReadPackedU16(b, 18, machine, little);
    ReadPackedU32(b, 20, version, little);
  }

  lemma ReadEncodedAddresses32(b: seq<byte>, entry: u32, phoff: u32, shoff: u32, flags: u32, little: bool)
    requires |b| >= 40 && b[24..40] == EncodeAddresses32(entry, phoff, shoff, flags, little)
    ensures ReadU32(b, 24, little) == entry
    ensures ReadU32(b, 28, little) == phoff
    ensures ReadU32(b, 32, little) == shoff
    ensures ReadU32(b, 36, little) == flags
  {
    SliceOfSlice(b, 24, 40, 0, 4);
    SliceOfSlice(b, 24, 40, 4, 8);
    SliceOfSlice(b, 24, 40, 8, 12);
    SliceOfSlice(b, 24, 40, 12, 16);
    var s := b[24..40];
    assert s[0..4] == PackU32(entry, little) && s[4..8] == PackU32(phoff, little);
    assert s[8..12] == PackU32(shoff, little) && s[12..16] == PackU32(flags, little);
    ReadPackedU32(b, 24, entry, little);
    ReadPackedU32(b, 28, phoff, little);
    ReadPackedU32(b, 32, shoff, little);
    ReadPackedU32(b, 36, flags, little);
  }

  lemma ReadEncodedAddresses64(b: seq<byte>, entry: u64, phoff: u64, shoff: u64, flags: u32, little: bool)
    requires |b| >= 52 && b[24..52] == EncodeAddresses64(entry, phoff, shoff, flags, little)
    ensures ReadU64(b, 24, little) == entry
    ensures ReadU64(b, 32, little) == phoff
    ensures ReadU64(b, 40, little) == shoff
    ensures ReadU32(b, 48, little) == flags
  {
    SliceOfSlice(b, 24, 52, 0, 8);
    SliceOfSlice(b, 24, 52, 8, 16);
    SliceOfSlice(b, 24, 52, 16, 24);
    SliceOfSlice(b, 24, 52, 24, 28);
    var s := b[24..52];
    assert s[0..8] == PackU64(entry, little) && s[8..16] == PackU64(phoff, little);
    assert s[16..24] == PackU64(shoff, little) && s[24..28] == PackU32(flags, little);
    ReadPackedU64(b, 24, entry, little);
    ReadPackedU64(b, 32, phoff, little);
    ReadPackedU64(b, 40, shoff, little);
    ReadPackedU32(b, 48, flags, little);
  }

  lemma ReadEncodedSizes(b: seq<byte>, off: nat, ehsize: u16, phentsize: u16, phnum: u16,
                         shentsize: u16, shnum: u16, shstrndx: u16, little: bool)
    requires off + 12 <= |b|
    requires b[off..off + 12] == EncodeSizes(ehsize, phentsize, phnum, shentsize, shnum, shstrndx, little)
    ensures ReadU16(b, off, little) == ehsize
    ensures ReadU16(b, off + 2, little) == phentsize
    ensures ReadU16(b, off + 4, little) == phnum
    ensures ReadU16(b, off + 6, little) == shentsize
    ensures ReadU16(b, off + 8, little) == shnum
    ensures ReadU16(b, off + 10, little) == shstrndx
  {
    SliceOfSlice(b, off, off + 12, 0, 2);
    SliceOfSlice(b, off, off + 12, 2, 4);
    SliceOfSlice(b, off, off + 12, 4, 6);
    SliceOfSlice(b, off, off + 12, 6, 8);
    SliceOfSlice(b, off, off + 12, 8, 10);
    SliceOfSlice(b, off, off + 12, 10, 12);
    var s := b[off..off + 12];
    assert s[0..2] == PackU16(ehsize, little) && s[2..4] == PackU16(phentsize, little);
    assert s[4..6] == PackU16(phnum, little) && s[6..8] == PackU16(shentsize, little);
    assert s[8..10] == PackU16(shnum, little) && s[10..12] == PackU16(shstrndx, little);
    ReadPackedU16(b, off, ehsize, little);
    ReadPackedU16(b, off + 2, phentsize, little);
    ReadPackedU16(b, off + 4, phnum, little);
    ReadPackedU16(b, off + 6, shentsize, little);
    ReadPackedU16(b, off + 8, shnum, little);
    ReadPackedU16(b, off + 10, shstrndx, little);
  }

  /** A buffer from which every field of a 32-bit header reads back overlays as that header. */
  lemma OverlayFields32(b: seq<byte>, h: Elf32Header, little: bool)
    requires |b| >= Elf32HeaderSize
    requires OverlayIdent(b) == h.ident
    requires ReadU16(b, 16, little) == h.eType.code && ReadU16(b, 18, little) == h.machine && ReadU32(b, 20, little) == h.version
    requires ReadU32(b, 24, little) == h.entry && ReadU32(b, 28, little) == h.phoff && ReadU32(b, 32, little) == h.shoff && ReadU32(b, 36, little) == h.flags
    requires ReadU16(b, 40, little) == h.ehsize && ReadU16(b, 42, little) == h.phentsize && ReadU16(b, 44, little) == h.phnum
    requires ReadU16(b, 46, little) == h.shentsize && ReadU16(b, 48, little) == h.shnum && ReadU16(b, 50, little) == h.shstrndx
    ensures Overlay32(b, little) == h
  {
  }

  /** A buffer whose four field groups hold the encodings of a 32-bit header's fields overlays as that header. */
  lemma OverlayGroups32(b: seq<byte>, h: Elf32Header, little: bool)
    requires |b| >= Elf32HeaderSize && h.ident.WellFormed()
    requires b[..16] == EncodeIdent(h.ident)
    requires b[16..24] == EncodeCommon(h.eType, h.machine, h.version, little)
    requires b[24..40] == EncodeAddresses32(h.entry, h.phoff, h.shoff, h.flags, little)
    requires b[40..52] == EncodeSizes(h.ehsize, h.phentsize, h.phnum, h.shentsize, h.shnum, h.shstrndx, little)
    ensures Overlay32(b, little) == h
  {
    assert OverlayIdent(b) == h.ident by { OverlayEncodedIdent(b, h.ident); }
    assert ReadU16(b, 16, little) == h.eType.code && ReadU16(b, 18, little) == h.machine && ReadU32(b, 20, little) == h.version by {
      ReadEncodedCommon(b, h.eType, h.machine, h.version, little);
    }
    assert ReadU32(b, 24, little) == h.entry && ReadU32(b, 28, little) == h.phoff && ReadU32(b, 32, little) == h.shoff && ReadU32(b, 36, little) == h.flags by {
      ReadEncodedAddresses32(b, h.entry, h.phoff, h.shoff, h.flags, little);
    }
    assert ReadU16(b, 40, little) == h.ehsize && ReadU16(b, 42, little) == h.phentsize && ReadU16(b, 44, little) == h.phnum && ReadU16(b, 46, little) == h.shentsize && ReadU16(b, 48, little) == h.shnum && ReadU16(b, 50, little) == h.shstrndx by {
      ReadEncodedSizes(b, 40, h.ehsize, h.phentsize, h.phnum, h.shentsize, h.shnum, h.shstrndx, little);
    }
    OverlayFields32(b, h, little);
  }

  /** Overlaying the 32-bit layout on an encoded header, whatever follows it, gives the header back. */
  lemma Overlay32Encode(h: Elf32Header, little: bool, rest: seq<byte>)
    requires h.ident.WellFormed()
    ensures Overlay32(Encode32(h, little) + rest, little) == h
  {
    var ident, common := EncodeIdent(h.ident), EncodeCommon(h.eType, h.machine, h.version, little);
    var addresses := EncodeAddresses32(h.entry, h.phoff, h.shoff, h.flags, little);
    var sizes := EncodeSizes(h.ehsize, h.phentsize, h.phnum, h.shentsize, h.shnum, h.shstrndx, little);
    var b := Encode32(h, little) + rest;
    assert b == ident + common + addresses + sizes + rest;
    ConcatParts(ident, common, addresses, sizes, rest);
    OverlayGroups32(b, h, little);
  }


  /** A buffer from which every field of a 64-bit header reads back overlays as that header. */
  lemma OverlayFields64(b: seq<byte>, h: Elf64Header, little: bool)
    requires |b| >= Elf64HeaderSize
    requires OverlayIdent(b) == h.ident
    requires ReadU16(b, 16, little) == h.eType.code && ReadU16(b, 18, little) == h.machine && ReadU32(b, 20, little) == h.version
    requires ReadU64(b, 24, little) == h.entry && ReadU64(b, 32, little) == h.phoff && ReadU64(b, 40, little) == h.shoff && ReadU32(b, 48, little) == h.flags
    requires ReadU16(b, 52, little) == h.ehsize && ReadU16(b, 54, little) == h.phentsize && ReadU16(b, 56, little) == h.phnum
    requires ReadU16(b, 58, little) == h.shentsize && ReadU16(b, 60, little) == h.shnum && ReadU16(b, 62, little) == h.shstrndx
    ensures Overlay64(b, little) == h
  {
  }

  /** A buffer whose four field groups hold the encodings of a 64-bit header's fields overlays as that header. */
  lemma OverlayGroups64(b: seq<byte>, h: Elf64Header, little: bool)
    requires |b| >= Elf64HeaderSize && h.ident.WellFormed()
    requires b[..16] == EncodeIdent(h.ident)
    requires b[16..24] == EncodeCommon(h.eType, h.machine, h.version, little)
    requires b[24..52] == EncodeAddresses64(h.entry, h.phoff, h.shoff, h.flags, little)
    requires b[52..64] == EncodeSizes(h.ehsize, h.phentsize, h.phnum, h.shentsize, h.shnum, h.shstrndx, little)
    ensures Overlay64(b, little) == h
  {
    assert OverlayIdent(b) == h.ident by { OverlayEncodedIdent(b, h.ident); }
    assert ReadU16(b, 16, little) == h.eType.code && ReadU16(b, 18, little) == h.machine && ReadU32(b, 20, little) == h.version by {
      ReadEncodedCommon(b, h.eType, h.machine, h.version, little);
    }
    assert ReadU64(b, 24, little) == h.entry && ReadU64(b, 32, little) == h.phoff && ReadU64(b, 40, little) == h.shoff && ReadU32(b, 48, little) == h.flags by {
      ReadEncodedAddresses64(b, h.entry, h.phoff, h.shoff, h.flags, little);
    }
    assert ReadU16(b, 52, little) == h.ehsize && ReadU16(b, 54, little) == h.phentsize && ReadU16(b, 56, little) == h.phnum && ReadU16(b, 58, little) == h.shentsize && ReadU16(b, 60, little) == h.shnum && ReadU16(b, 62, little) == h.shstrndx by {
      ReadEncodedSizes(b, 52, h.ehsize, h.phentsize, h.phnum, h.shentsize, h.shnum, h.shstrndx, little);
    }
    OverlayFields64(b, h, little);
  }

  /** Overlaying the 64-bit layout on an encoded header, whatever follows it, gives the header back. */
  lemma Overlay64Encode(h: Elf64Header, little: bool, rest: seq<byte>)
    requires h.ident.WellFormed()
    ensures Overlay64(Encode64(h, little) + rest, little) == h
  {
    var ident, common := EncodeIdent(h.ident), EncodeCommon(h.eType, h.machine, h.version, little);
    var addresses := EncodeAddresses64(h.entry, h.phoff, h.shoff, h.flags, little);
    var sizes := EncodeSizes(h.ehsize, h.phentsize, h.phnum, h.shentsize, h.shnum, h.shstrndx, little);
    var b := Encode64(h, little) + rest;
    assert b == ident + common + addresses + sizes + rest;
    ConcatParts(ident, common, addresses, sizes, rest);
    OverlayGroups64(b, h, little);
  }


  /**
   * A successful decode is valid and accounts for exactly the bytes of its
   * layout: re-encoding it gives back the first 52 (Elf32) or 64 (Elf64)
   * bytes of the buffer.
   */
  lemma DecodeEncode(b: seq<byte>, hostLittle: bool)
    requires Decode(b, hostLittle).Ok?
    ensures Valid(Decode(b, hostLittle).value, hostLittle)
    ensures Encode(Decode(b, hostLittle).value, hostLittle) == b[..Decode(b, hostLittle).value.header.Size()]
  {
    if b[4] == 1 {
      EncodeOverlay32(b, hostLittle);
    } else {
      EncodeOverlay64(b, hostLittle);
    }
  }

  /** Every valid file is decoded from its encoding, whatever bytes follow the header. */
  lemma EncodeDecode(f: ElfFile, hostLittle: bool, rest: seq<byte>)
    requires Valid(f, hostLittle)
    ensures Decode(Encode(f, hostLittle) + rest, hostLittle) == Ok(f)
  {
    var b := Encode(f, hostLittle) + rest;
    assert b[..4] == Magic;
    assert b[4] == f.ident.elfClass && b[5] == f.ident.data;
    match f.header
    case Elf32(h) => Overlay32Encode(h, hostLittle, rest);
    case Elf64(h) => Overlay64Encode(h, hostLittle, rest);
  }

  /** A decoded buffer is the encoding of its result followed by what lies past the header. */
  lemma DecodedSplits(b: seq<byte>, hostLittle: bool)
    requires Decode(b, hostLittle).Ok?
    ensures var f := Decode(b, hostLittle).value;
      && Valid(f, hostLittle) && f.header.Size() <= |b|
      && b == Encode(f, hostLittle) + b[f.header.Size()..]
  {
    var n := Decode(b, hostLittle).value.header.Size();
    DecodeEncode(b, hostLittle);
    assert b == b[..n] + b[n..];
  }

  /** Only the header bytes decide a successful decode: appending bytes changes nothing. */
  lemma DecodeIgnoresTrailing(b: seq<byte>, rest: seq<byte>, hostLittle: bool)
    requires Decode(b, hostLittle).Ok?
    ensures Decode(b + rest, hostLittle) == Decode(b, hostLittle)
  {
    var r := Decode(b, hostLittle);
    var f := r.value;
    assert r == Ok(f);
    assert f.header.Size() <= |b|;
    var tail := b[f.header.Size()..];
    var e := Encode(f, hostLittle) + (tail + rest);
    assert b + rest == e && Valid(f, hostLittle) by {
      DecodedSplits(b, hostLittle);
    }
    assert Decode(e, hostLittle) == Ok(f) by {
      EncodeDecode(f, hostLittle, tail + rest);
    }
  }

  /** Four bytes that are not the magic number are rejected whatever follows them. */
  lemma DecodeNotElfWhateverFollows(b: seq<byte>, rest: seq<byte>, hostLittle: bool)
    requires |b| == 4 && b != Magic
    ensures Decode(b + rest, hostLittle) == Err(NotElf)
  {
    assert (b + rest)[..4] == b;
  }

  /**
   * The magic test is the only length test the source makes before it
   * overlays the 16-byte identification and then a 52- or 64-byte header.
   * A buffer holding just the magic number passes it, and the identification
   * is then read past its end. A 16-byte buffer with class 2 and data byte 1
   * passes every check the source makes on a little-endian host, and the
   * 64-byte layout is then read 48 bytes past its end. `Decode` rejects both
   * as Truncated.
   */
  lemma MagicGuardAdmitsShortBuffer()
    ensures HasMagic(Magic) && |Magic| < IdentSize
    ensures forall hostLittle :: Decode(Magic, hostLittle) == Err(Truncated)
    ensures var b := Magic + [2, 1] + seq(10, _ => 0);
      && HasMagic(b) && EndiannessMatches(b[5], true) && b[4] == 2
      && |b| == IdentSize < Elf64HeaderSize
      && Decode(b, true) == Err(Truncated)
  {
    var b: seq<byte> := Magic + [2, 1] + seq(10, _ => 0);
    assert b[..4] == Magic;
  }
}
