// The ELF structures of the elf crate: the file header, the type, flag and
// symbol-info decoders, and the string table section. A source is the bytes
// it still holds, as in the bytestruct codecs.
module Elf {
  import opened Wrappers
  import opened Bytes
  import opened ByteStruct
  import Text

  /** `ELF_VERSION`. */
  const ElfVersion: byte := 1

  /** The four bytes every ELF file starts with: 0x7F 'E' 'L' 'F'. */
  const Magic: seq<byte> := [0x7F, 0x45, 0x4C, 0x46]

  /** `Class`: the width of addresses and offsets. */
  datatype Class = ThirtyTwoBit | SixtyFourBit

  /** The integer `read_value` reads for a class. */
  function ValueKind(c: Class): IntKind
  {
    match c
    case ThirtyTwoBit => U32
    case SixtyFourBit => U64
  }

  /** `Class::read_value`: a u32 widened to u64 for 32-bit files, a u64 for 64-bit ones. */
  function ReadValue(c: Class, input: seq<byte>, e: Endian): (r: Read<int>)
    ensures r.Ok? <==> |input| >= (if c == ThirtyTwoBit then 4 else 8)
    ensures r.Ok? ==> 0 <= r.value.0 < 0x1_0000_0000_0000_0000
    ensures r.Ok? ==> r.value.1 == input[(if c == ThirtyTwoBit then 4 else 8)..]
    ensures c == ThirtyTwoBit && r.Ok? ==> r.value.0 < 0x1_0000_0000
  {
    ReadInt(ValueKind(c), input, e)
  }

  /** A value written in the class's width reads back unchanged, leaving what followed. */
  lemma ReadWrittenValue(c: Class, x: int, e: Endian, rest: seq<byte>)
    requires 0 <= x < (if c == ThirtyTwoBit then 0x1_0000_0000 else 0x1_0000_0000_0000_0000)
    ensures ReadValue(c, WriteInt(ValueKind(c), x, e) + rest, e) == Ok((x, rest))
  {
    ReadWriteInt(ValueKind(c), x, e, rest);
  }

  // ----- ElfType -----

  /** `ElfType`: the object file type. */
  datatype ElfType = NoType | RelocatableFile | ExecutableFile | SharedObject | CoreFile
    | TypeOSSpecific(value: nat) | TypeProcessorSpecific(value: nat)

  /** The values each variant is decoded from. */
  predicate ValidElfType(t: ElfType)
  {
    match t
    case TypeOSSpecific(v) => 0xFE00 <= v <= 0xFEFF
    case TypeProcessorSpecific(v) => 0xFF00 <= v <= 0xFFFF
    case _ => true
  }

  /** The u16 an `ElfType` is stored as. */
  function ElfTypeValue(t: ElfType): nat
  {
    match t
    case NoType => 0
    case RelocatableFile => 1
    case ExecutableFile => 2
    case SharedObject => 3
    case CoreFile => 4
    case TypeOSSpecific(v) => v
    case TypeProcessorSpecific(v) => v
  }

  /** `ElfType::read_from_with_endian` once the u16 is read: 0-4, the OS range or the processor range. */
  function DecodeElfType(v: nat): (r: Result<ElfType, IoError>)
    ensures r.Ok? <==> v <= 4 || 0xFE00 <= v <= 0xFFFF
    ensures r.Err? ==> r.error == InvalidData
  {
    if v == 0 then Ok(NoType)
    else if v == 1 then Ok(RelocatableFile)
    else if v == 2 then Ok(ExecutableFile)
    else if v == 3 then Ok(SharedObject)
    else if v == 4 then Ok(CoreFile)
    else if 0xFE00 <= v <= 0xFEFF then Ok(TypeOSSpecific(v))
    else if 0xFF00 <= v <= 0xFFFF then Ok(TypeProcessorSpecific(v))
    else Err(InvalidData)
  }

  /** Decoding is a bijection between the accepted values and the valid types. */
  lemma ElfTypeRoundTrip(t: ElfType, v: nat)
    ensures ValidElfType(t) ==> DecodeElfType(ElfTypeValue(t)) == Ok(t)
    ensures DecodeElfType(v).Ok? ==> ValidElfType(DecodeElfType(v).value) && ElfTypeValue(DecodeElfType(v).value) == v
  {
  }

  function ReadElfType(input: seq<byte>, e: Endian): (r: Read<ElfType>)
    ensures r.Ok? ==> |input| >= 2 && r.value.1 == input[2..]
  {
    match ReadInt(U16, input, e)
    case Err(err) => Err(err)
    case Ok((v, rest)) =>
      match DecodeElfType(v)
      case Err(err) => Err(err)
      case Ok(t) => Ok((t, rest))
  }

  // ----- ProgramHeaderType -----

  datatype ProgramHeaderType = Null | LoadableSegment | DynamicLink | Interpreter | Auxiliary
    | Reserved | ProgramHeaderTable | ThreadLocalStorage
    | SegmentOSSpecific(value: nat) | SegmentProcessorSpecific(value: nat)

  predicate ValidProgramHeaderType(t: ProgramHeaderType)
  {
    match t
    case SegmentOSSpecific(v) => 0x6000_0000 <= v <= 0x6FFF_FFFF
    case SegmentProcessorSpecific(v) => 0x7000_0000 <= v <= 0x7FFF_FFFF
    case _ => true
  }

  function ProgramHeaderTypeValue(t: ProgramHeaderType): nat
  {
    match t
    case Null => 0
    case LoadableSegment => 1
    case DynamicLink => 2
    case Interpreter => 3
    case Auxiliary => 4
    case Reserved => 5
    case ProgramHeaderTable => 6
    case ThreadLocalStorage => 7
    case SegmentOSSpecific(v) => v
    case SegmentProcessorSpecific(v) => v
  }

  /** `ProgramHeaderType::read_from_with_endian` once the u32 is read. */
  function DecodeProgramHeaderType(v: nat): (r: Result<ProgramHeaderType, IoError>)
    ensures r.Ok? <==> v <= 7 || 0x6000_0000 <= v <= 0x7FFF_FFFF
    ensures r.Err? ==> r.error == InvalidData
  {
    if v == 0 then Ok(Null)
    else if v == 1 then Ok(LoadableSegment)
    else if v == 2 then Ok(DynamicLink)
    else if v == 3 then Ok(Interpreter)
    else if v == 4 then Ok(Auxiliary)
    else if v == 5 then Ok(Reserved)
    else if v == 6 then Ok(ProgramHeaderTable)
    else if v == 7 then Ok(ThreadLocalStorage)
    else if 0x6000_0000 <= v <= 0x6FFF_FFFF then Ok(SegmentOSSpecific(v))
    else if 0x7000_0000 <= v <= 0x7FFF_FFFF then Ok(SegmentProcessorSpecific(v))
    else Err(InvalidData)
  }

  lemma ProgramHeaderTypeRoundTrip(t: ProgramHeaderType, v: nat)
    ensures ValidProgramHeaderType(t) ==> DecodeProgramHeaderType(ProgramHeaderTypeValue(t)) == Ok(t)
    ensures DecodeProgramHeaderType(v).Ok? ==>
      ValidProgramHeaderType(DecodeProgramHeaderType(v).value) && ProgramHeaderTypeValue(DecodeProgramHeaderType(v).value) == v
  {
  }

  // ----- SectionHeaderType -----

  datatype SectionHeaderType = SectionNull | ProgramData | SymbolTable | StringTable
    | RelocationTableAppends | SymbolHashTable | DynamicLinkingInfo | Notes | Blank
    | RelocationTable | DynamicLinkerSymbols | Constructors | Destructors | PreConstructors
    | SectionGroup | SectionIndices | Number | SectionOSSpecific(value: nat)

  predicate ValidSectionHeaderType(t: SectionHeaderType)
  {
    t.SectionOSSpecific? ==> 0x6000_0000 <= t.value < 0x1_0000_0000
  }

  function SectionHeaderTypeValue(t: SectionHeaderType): nat
  {
    match t
    case SectionNull => 0x0
    case ProgramData => 0x1
    case SymbolTable => 0x2
    case StringTable => 0x3
    case RelocationTableAppends => 0x4
    case SymbolHashTable => 0x5
    case DynamicLinkingInfo => 0x6
    case Notes => 0x7
    case Blank => 0x8
    case RelocationTable => 0x9
    case DynamicLinkerSymbols => 0xB
    case Constructors => 0xE
    case Destructors => 0xF
    case PreConstructors => 0x10
    case SectionGroup => 0x11
    case SectionIndices => 0x12
    case Number => 0x13
    case SectionOSSpecific(v) => v
  }

  /** `SectionHeaderType::read_from_with_endian` once the u32 is read: 0xA, 0xC, 0xD and 0x14-0x5FFFFFFF are refused. */
  function DecodeSectionHeaderType(v: nat): (r: Result<SectionHeaderType, IoError>)
    requires v < 0x1_0000_0000
    ensures r.Ok? <==> v <= 0x9 || v == 0xB || 0xE <= v <= 0x13 || 0x6000_0000 <= v
    ensures r.Err? ==> r.error == InvalidData
  {
    if v == 0x0 then Ok(SectionNull)
    else if v == 0x1 then Ok(ProgramData)
    else if v == 0x2 then Ok(SymbolTable)
    else if v == 0x3 then Ok(StringTable)
    else if v == 0x4 then Ok(RelocationTableAppends)
    else if v == 0x5 then Ok(SymbolHashTable)
    else if v == 0x6 then Ok(DynamicLinkingInfo)
    else if v == 0x7 then Ok(Notes)
    else if v == 0x8 then Ok(Blank)
    else if v == 0x9 then Ok(RelocationTable)
    else if v == 0xB then Ok(DynamicLinkerSymbols)
    else if v == 0xE then Ok(Constructors)
    else if v == 0xF then Ok(Destructors)
    else if v == 0x10 then Ok(PreConstructors)
    else if v == 0x11 then Ok(SectionGroup)
    else if v == 0x12 then Ok(SectionIndices)
    else if v == 0x13 then Ok(Number)
    else if 0x6000_0000 <= v then Ok(SectionOSSpecific(v))
    else Err(InvalidData)
  }

  lemma SectionHeaderTypeRoundTrip(t: SectionHeaderType, v: nat)
    requires v < 0x1_0000_0000
    ensures ValidSectionHeaderType(t) ==> DecodeSectionHeaderType(SectionHeaderTypeValue(t)) == Ok(t)
    ensures DecodeSectionHeaderType(v).Ok? ==>
      ValidSectionHeaderType(DecodeSectionHeaderType(v).value) && SectionHeaderTypeValue(DecodeSectionHeaderType(v).value) == v
  {
  }

  // ----- ProgramHeaderFlags -----

  /** `ProgramHeaderFlags`: the u32 of segment permission bits. */
  datatype ProgramHeaderFlags = ProgramHeaderFlags(bits: nat)

  /** `ProgramHeaderFlags::read_from_with_endian` once the u32 is read: anything above 7 is refused. */
  function DecodeProgramHeaderFlags(v: nat): (r: Result<ProgramHeaderFlags, IoError>)
    ensures r.Ok? <==> v <= 7
    ensures r.Ok? ==> r.value.bits == v
    ensures r.Err? ==> r.error == InvalidData
  {
    if v > 7 then Err(InvalidData) else Ok(ProgramHeaderFlags(v))
  }

  /** `executable`: bit 0x1. */
  predicate Executable(f: ProgramHeaderFlags)
    requires f.bits < 0x1_0000_0000
  {
    (f.bits as bv32) & 0x1 == 0x1
  }

  /** `writable`: bit 0x2. */
  predicate Writable(f: ProgramHeaderFlags)
    requires f.bits < 0x1_0000_0000
  {
    (f.bits as bv32) & 0x2 == 0x2
  }

  /** `readable`: bit 0x4. */
  predicate Readable(f: ProgramHeaderFlags)
    requires f.bits < 0x1_0000_0000
  {
    (f.bits as bv32) & 0x4 == 0x4
  }

  /** The three permissions determine accepted flags, 4 for read, 2 for write and 1 for execute. */
  lemma FlagsArePermissions(f: ProgramHeaderFlags)
    requires f.bits <= 7
    ensures f.bits == (if Readable(f) then 4 else 0) + (if Writable(f) then 2 else 0) + (if Executable(f) then 1 else 0)
  {
    var b := f.bits;
    if b == 0 {} else if b == 1 {} else if b == 2 {} else if b == 3 {}
    else if b == 4 {} else if b == 5 {} else if b == 6 {} else {}
  }

  // ----- symbol info -----

  datatype ElfSymbolType = SymNone | Object | Func | Section | File | Common | ThreadLocal
    | SymOSSpecific(value: nat) | SymProcessorSpecific(value: nat)

  datatype ElfSymbolBinding = Local | Global | Weak | BindOSSpecific(value: nat) | BindProcessorSpecific(value: nat)

  /** `ElfSymbolType::try_from`: 0-6, 10-12 for the OS, 13-15 for the processor. */
  function DecodeSymbolType(v: nat): (r: Result<ElfSymbolType, IoError>)
    ensures r.Ok? <==> v <= 6 || 10 <= v <= 15
    ensures r.Err? ==> r.error == InvalidData
  {
    if v == 0 then Ok(SymNone)
    else if v == 1 then Ok(Object)
    else if v == 2 then Ok(Func)
    else if v == 3 then Ok(Section)
    else if v == 4 then Ok(File)
    else if v == 5 then Ok(Common)
    else if v == 6 then Ok(ThreadLocal)
    else if 10 <= v <= 12 then Ok(SymOSSpecific(v))
    else if 13 <= v <= 15 then Ok(SymProcessorSpecific(v))
    else Err(InvalidData)
  }

  /** `ElfSymbolBinding::try_from`: 0-2, 10-12 for the OS, 13-15 for the processor. */
  function DecodeSymbolBinding(v: nat): (r: Result<ElfSymbolBinding, IoError>)
    ensures r.Ok? <==> v <= 2 || 10 <= v <= 15
    ensures r.Err? ==> r.error == InvalidData
  {
    if v == 0 then Ok(Local)
    else if v == 1 then Ok(Global)
    else if v == 2 then Ok(Weak)
    else if 10 <= v <= 12 then Ok(BindOSSpecific(v))
    else if 13 <= v <= 15 then Ok(BindProcessorSpecific(v))
    else Err(InvalidData)
  }

  function SymbolTypeValue(t: ElfSymbolType): nat
  {
    match t
    case SymNone => 0
    case Object => 1
    case Func => 2
    case Section => 3
    case File => 4
    case Common => 5
    case ThreadLocal => 6
    case SymOSSpecific(v) => v
    case SymProcessorSpecific(v) => v
  }

  function SymbolBindingValue(b: ElfSymbolBinding): nat
  {
    match b
    case Local => 0
    case Global => 1
    case Weak => 2
    case BindOSSpecific(v) => v
    case BindProcessorSpecific(v) => v
  }

  /** The split of a symbol's info byte: the binding from the high nibble (`info >> 4`), then the type from the low one (`info & 0xF`). */
  function SymbolInfo(info: bv8): (r: Result<(ElfSymbolBinding, ElfSymbolType), IoError>)
  {
    match DecodeSymbolBinding((info >> 4) as nat)
    case Err(e) => Err(e)
    case Ok(b) =>
      match DecodeSymbolType((info & 0xF) as nat)
      case Err(e) => Err(e)
      case Ok(t) => Ok((b, t))
  }

  /** The nibbles of the info byte are its value divided by 16 and its remainder. */
  lemma Nibbles(info: bv8)
    ensures (info >> 4) as nat == info as nat / 16
    ensures (info & 0xF) as nat == info as nat % 16
  {
    assert info >> 4 == info / 16;
    assert info & 0xF == info % 16;
  }

  /** The info byte is accepted iff both nibbles decode, and what it decodes to rebuilds it. */
  lemma SymbolInfoRoundTrip(info: bv8)
    ensures SymbolInfo(info).Ok? <==> DecodeSymbolBinding(info as nat / 16).Ok? && DecodeSymbolType(info as nat % 16).Ok?
    ensures SymbolInfo(info).Ok? ==>
      SymbolBindingValue(SymbolInfo(info).value.0) * 16 + SymbolTypeValue(SymbolInfo(info).value.1) == info as nat
  {
    Nibbles(info);
  }

  // ----- ElfHeader -----

  /** The number of `Abi` variants; the derived reader accepts discriminants 0 to 18. */
  const AbiCount: nat := 19

  /** The discriminants of `TargetArch`, the machines the derived reader accepts. */
  const TargetArchs: set<nat> := {0x0, 0x1, 0x2, 0x3, 0x4, 0x5, 0x6, 0x7, 0x08, 0x09, 0x0A, 0x0F,
    0x13, 0x14, 0x15, 0x16, 0x28, 0x2A, 0x32, 0x3E, 0xB7, 0xF3}

  /** `ElfHeader`; `abi` and `architecture` are kept as the discriminants of their enums. */
  datatype ElfHeader = ElfHeader(
    elfClass: Class,
    endian: Endian,
    abi: nat,
    abiVersion: nat,
    ty: ElfType,
    architecture: nat,
    entrypointOffset: nat,
    programHeaderOffset: nat,
    sectionHeaderOffset: nat,
    flags: nat,
    headerSize: nat,
    programHeaderSize: nat,
    programHeaderTableLen: nat,
    sectionHeaderSize: nat,
    sectionHeaderTableLen: nat,
    sectionHeaderTableNameIdx: nat)

  /**
   * How reading a header ends: a header and the bytes after it, an I/O error,
   * or a derived enum reader meeting a discriminant it has no variant for.
   */
  datatype HeaderRead = Header(header: ElfHeader, rest: seq<byte>) | Fails(error: IoError) | UnknownDiscriminant

  /** The bytes `read_value` reads for a class. */
  function ValueWidth(c: Class): nat
  {
    if c == ThirtyTwoBit then 4 else 8
  }

  /** The bytes `ElfHeader::read_from` consumes: the 52- or 64-byte ELF header and 6 more. */
  function HeaderSize(c: Class): nat
  {
    46 + 3 * ValueWidth(c)
  }

  /** The integer of kind k stored at byte offset off. */
  function Field(input: seq<byte>, off: nat, k: IntKind, e: Endian): (n: nat)
    requires off + Width(k) <= |input| && !Signed(k)
    ensures n < Modulus(k)
  {
    ReadInt(k, input[off..], e).value.0
  }

  /**
   * The header by its layout: the identification bytes at 0-15, the type at
   * 16, the machine at 18, the three class-width offsets from 24, then the
   * flags and the six u16 sizes and counts; each check fails as soon as its
   * bytes are present, and a short input fails where it runs out.
   */
  function HeaderAt(input: seq<byte>): HeaderRead
  {
    if |input| < 4 then Fails(UnexpectedEof)
    else if input[..4] != Magic then Fails(InvalidData)
    else if |input| < 5 then Fails(UnexpectedEof)
    else if input[4] != 1 && input[4] != 2 then UnknownDiscriminant
    else if |input| < 6 then Fails(UnexpectedEof)
    else if input[5] != 1 && input[5] != 2 then Fails(InvalidData)
    else if |input| < 7 then Fails(UnexpectedEof)
    else if input[6] != ElfVersion then Fails(InvalidData)
    else if |input| < 8 then Fails(UnexpectedEof)
    else if input[7] >= AbiCount then UnknownDiscriminant
    else if |input| < 18 then Fails(UnexpectedEof)
    else TailAt(input, if input[4] == 1 then ThirtyTwoBit else SixtyFourBit, if input[5] == 1 then Little else Big)
  }

  /** The header from the type at offset 16 on, for the class and byte order of the identification bytes. */
  function TailAt(input: seq<byte>, c: Class, e: Endian): HeaderRead
    requires |input| >= 18
  {
    var ty := DecodeElfType(Field(input, 16, U16, e));
    if ty.Err? then Fails(InvalidData)
    else ArchAt(input, c, e, ty.value)
  }

  /** The header from the machine at offset 18 on, once the type is decoded. */
  function ArchAt(input: seq<byte>, c: Class, e: Endian, ty: ElfType): HeaderRead
  {
    if |input| < 20 then Fails(UnexpectedEof)
    else if Field(input, 18, U16, e) !in TargetArchs then UnknownDiscriminant
    else FieldsAt(input, c, e, ty, Field(input, 18, U16, e))
  }

  /** The header from offset 20 on, once the type and machine are decoded. */
  function FieldsAt(input: seq<byte>, c: Class, e: Endian, ty: ElfType, arch: nat): HeaderRead
    requires |input| >= 20
  {
    if |input| < HeaderSize(c) then Fails(UnexpectedEof)
    else
      var (entry, ph, sh) := OffsetsAt(input[24..], c, e);
      var fs := SizesAt(input[24 + 3 * ValueWidth(c)..], e);
      Header(ElfHeader(c, e, input[7], input[8], ty, arch,
        entry, ph, sh, fs[0], fs[1], fs[2], fs[3], fs[4], fs[5], fs[6]),
        input[HeaderSize(c)..])
  }

  /** The entry point, program header and section header offsets, one class width apart. */
  function OffsetsAt(input: seq<byte>, c: Class, e: Endian): (nat, nat, nat)
    requires |input| >= 3 * ValueWidth(c)
  {
    var k := ValueKind(c);
    var w := ValueWidth(c);
    assert Width(k) == w;
    (Field(input, 0, k, e), Field(input, w, k, e), Field(input, 2 * w, k, e))
  }

  /** The u32 flags, then the six u16 sizes and counts. */
  function SizesAt(input: seq<byte>, e: Endian): (fs: seq<nat>)
    requires |input| >= 16
    ensures |fs| == 7
  {
    [Field(input, 0, U32, e)] + seq(6, j requires 0 <= j < 6 => Field(input, 4 + 2 * j, U16, e))
  }

  /** The source's result: a derived enum reader's unknown discriminant is a panic. */
  function AsWritten(h: HeaderRead): Outcome<Read<ElfHeader>>
  {
    match h
    case Header(header, rest) => Returns(Ok((header, rest)))
    case Fails(e) => Returns(Err(e))
    case UnknownDiscriminant => Panics
  }

  /** The header reader with an unknown class, ABI or machine refused as invalid data, as the
      endian and version bytes are, instead of the derived reader's panic. */
  function ReadElfHeaderChecked(input: seq<byte>): (r: Read<ElfHeader>)
    ensures r.Ok? <==> HeaderAt(input).Header?
    ensures HeaderAt(input) == UnknownDiscriminant ==> r == Err(InvalidData)
    ensures AsWritten(HeaderAt(input)).Returns? ==> AsWritten(HeaderAt(input)) == Returns(r)
  {
    match HeaderAt(input)
    case Header(header, rest) => Ok((header, rest))
    case Fails(e) => Err(e)
    case UnknownDiscriminant => Err(InvalidData)
  }

  /** The reader as written panics on the class byte 3 after the magic, where the checked one refuses it. */
  lemma UnknownClassPanics(input: seq<byte>)
    requires |input| >= 5 && input[..4] == Magic && input[4] == 3
    ensures AsWritten(HeaderAt(input)) == Panics
    ensures ReadElfHeaderChecked(input) == Err(InvalidData)
  {
  }

  /** An ABI byte of 19 or more, with a valid identification before it, panics as written. */
  lemma UnknownAbiPanics(input: seq<byte>)
    requires |input| >= 8 && input[..4] == Magic && input[4] in {1, 2} && input[5] in {1, 2}
    requires input[6] == ElfVersion && input[7] >= AbiCount
    ensures AsWritten(HeaderAt(input)) == Panics
    ensures ReadElfHeaderChecked(input) == Err(InvalidData)
  {
  }

  /** A header is only read from the magic, a class and endian byte of 1 or 2, and version 1. */
  lemma HeaderChecks(input: seq<byte>)
    ensures HeaderAt(input).Header? ==>
      && input[..4] == Magic
      && (input[4] == 1 || input[4] == 2)
      && (input[5] == 1 || input[5] == 2)
      && input[6] == ElfVersion
      && HeaderAt(input).header.elfClass == (if input[4] == 1 then ThirtyTwoBit else SixtyFourBit)
      && HeaderAt(input).header.endian == (if input[5] == 1 then Little else Big)
      && |input| >= HeaderSize(HeaderAt(input).header.elfClass)
      && HeaderAt(input).rest == input[HeaderSize(HeaderAt(input).header.elfClass)..]
    ensures |input| >= 4 && input[..4] != Magic ==> HeaderAt(input) == Fails(InvalidData)
    ensures |input| >= 6 && input[..4] == Magic && input[4] in {1, 2} && input[5] !in {1, 2} ==> HeaderAt(input) == Fails(InvalidData)
    ensures |input| >= 7 && input[..4] == Magic && input[4] in {1, 2} && input[5] in {1, 2} && input[6] != ElfVersion ==>
      HeaderAt(input) == Fails(InvalidData)
  {
  }

  /** `ElfHeader::read_from`: the reads in the source's order, each failure returned at once. */
  method ReadElfHeader(input: seq<byte>) returns (r: Outcome<Read<ElfHeader>>)
    ensures r == AsWritten(HeaderAt(input))
  {
    var magic := ReadBytes(input, 4);
    if magic.Err? {
      return Returns(Err(magic.error));
    }
    if magic.value.0 != Magic {
      return Returns(Err(InvalidData));
    }
    var s := magic.value.1;
    assert s == input[4..];
    var classByte := ReadInt(U8, s, Little);
    if classByte.Err? {
      return Returns(Err(classByte.error));
    }
    if classByte.value.0 != 1 && classByte.value.0 != 2 {
      return Panics;
    }
    var cls := if classByte.value.0 == 1 then ThirtyTwoBit else SixtyFourBit;
    s := classByte.value.1;
    assert s == input[5..];
    var endianByte := ReadInt(U8, s, Little);
    if endianByte.Err? {
      return Returns(Err(endianByte.error));
    }
    var endian;
    if endianByte.value.0 == 1 {
      endian := Little;
    } else if endianByte.value.0 == 2 {
      endian := Big;
    } else {
      return Returns(Err(InvalidData));
    }
    s := endianByte.value.1;
    assert s == input[6..];
    var version := ReadInt(U8, s, Little);
    if version.Err? {
      return Returns(Err(version.error));
    }
    if version.value.0 != ElfVersion {
      return Returns(Err(InvalidData));
    }
    s := version.value.1;
    assert s == input[7..];
    var abi := ReadInt(U8, s, endian);
    if abi.Err? {
      return Returns(Err(abi.error));
    }
    if abi.value.0 >= AbiCount {
      return Panics;
    }
    s := abi.value.1;
    var abiVersion := ReadInt(U8, s, Little);
    if abiVersion.Err? {
      return Returns(Err(abiVersion.error));
    }
    s := abiVersion.value.1;
    var padding := ReadBytes(s, 7);
    if padding.Err? {
      return Returns(Err(padding.error));
    }
    s := padding.value.1;
    assert s == input[16..];
    r := ReadHeaderTail(input, cls, endian);
  }

  /** The rest of `ElfHeader::read_from`, from the type at offset 16 on, once the identification bytes are accepted. */
  method ReadHeaderTail(input: seq<byte>, cls: Class, endian: Endian) returns (r: Outcome<Read<ElfHeader>>)
    requires |input| >= 16
    ensures |input| >= 18 ==> r == AsWritten(TailAt(input, cls, endian))
    ensures |input| < 18 ==> r == Returns(Err(UnexpectedEof))
  {
    var ty := ReadElfType(input[16..], endian);
    if ty.Err? {
      return Returns(Err(ty.error));
    }
    assert ty.value.0 == DecodeElfType(Field(input, 16, U16, endian)).value;
    r := ReadArch(input, cls, endian, ty.value.0);
  }

  /** The machine read at offset 18, refused by a panic when unknown, then the rest. */
  method ReadArch(input: seq<byte>, cls: Class, endian: Endian, ty: ElfType) returns (r: Outcome<Read<ElfHeader>>)
    requires |input| >= 18
    ensures r == AsWritten(ArchAt(input, cls, endian, ty))
  {
    var arch := ReadInt(U16, input[18..], endian);
    if arch.Err? {
      return Returns(Err(arch.error));
    }
    if arch.value.0 !in TargetArchs {
      return Panics;
    }
    assert arch.value.1 == input[20..];
    var h := ReadHeaderFields(input, cls, endian, ty, arch.value.0);
    r := AsWritten(h);
  }

  /** The fields from offset 20, gathered into the header. */
  method ReadHeaderFields(input: seq<byte>, cls: Class, endian: Endian, ty: ElfType, arch: nat) returns (h: HeaderRead)
    requires |input| >= 20
    ensures h == FieldsAt(input, cls, endian, ty, arch)
  {
    var fields := ReadFields(input[20..], cls, endian);
    if fields.Err? {
      return Fails(fields.error);
    }
    var (offsets, fs) := fields.value.0;
    var (entry, ph, sh) := offsets;
    assert input[20..][4..] == input[24..];
    assert input[20..][4 + 3 * ValueWidth(cls)..] == input[24 + 3 * ValueWidth(cls)..];
    h := Header(ElfHeader(cls, endian, input[7], input[8], ty, arch,
      entry, ph, sh, fs[0], fs[1], fs[2], fs[3], fs[4], fs[5], fs[6]), fields.value.1);
  }

  /** From offset 20: the second copy of the version, the three offsets, the flags and the sizes. */
  method ReadFields(input: seq<byte>, c: Class, e: Endian) returns (r: Read<((nat, nat, nat), seq<nat>)>)
    ensures r.Ok? <==> |input| >= 26 + 3 * ValueWidth(c)
    ensures r.Err? ==> r.error == UnexpectedEof
    ensures r.Ok? ==>
      && r.value.0 == (OffsetsAt(input[4..], c, e), SizesAt(input[4 + 3 * ValueWidth(c)..], e))
      && r.value.1 == input[26 + 3 * ValueWidth(c)..]
  {
    var version := ReadInt(U32, input, e);
    if version.Err? {
      return Err(version.error);
    }
    var s := version.value.1;
    var offsets := ReadOffsets(s, c, e);
    if offsets.Err? {
      return Err(offsets.error);
    }
    s := offsets.value.1;
    assert s == input[4 + 3 * ValueWidth(c)..];
    var sizes := ReadSizes(s, e);
    if sizes.Err? {
      return Err(sizes.error);
    }
    r := Ok(((offsets.value.0, sizes.value.0), sizes.value.1));
  }

  /** The three class-width offsets of the header, read one after the other. */
  method ReadOffsets(input: seq<byte>, c: Class, e: Endian) returns (r: Read<(nat, nat, nat)>)
    ensures r.Ok? <==> |input| >= 3 * ValueWidth(c)
    ensures r.Err? ==> r.error == UnexpectedEof
    ensures r.Ok? ==> r.value.0 == OffsetsAt(input, c, e) && r.value.1 == input[3 * ValueWidth(c)..]
  {
    var w := ValueWidth(c);
    var entry := ReadValue(c, input, e);
    if entry.Err? {
      return Err(entry.error);
    }
    var s := entry.value.1;
    var ph := ReadValue(c, s, e);
    if ph.Err? {
      return Err(ph.error);
    }
    s := ph.value.1;
    assert s == input[2 * w..];
    var sh := ReadValue(c, s, e);
    if sh.Err? {
      return Err(sh.error);
    }
    assert input[0..] == input && entry.value.1 == input[w..];
    r := Ok(((entry.value.0, ph.value.0, sh.value.0), sh.value.1));
  }

  /** The end of the header read: the flags, the six u16 sizes and counts, and 6 bytes skipped. */
  method ReadSizes(input: seq<byte>, e: Endian) returns (r: Read<seq<nat>>)
    ensures r.Ok? <==> |input| >= 22
    ensures r.Err? ==> r.error == UnexpectedEof
    ensures r.Ok? ==> r.value.0 == SizesAt(input, e) && r.value.1 == input[22..]
  {
    var flags := ReadInt(U32, input, e);
    if flags.Err? {
      return Err(flags.error);
    }
    var fs: seq<nat> := [flags.value.0];
    var s := flags.value.1;
    var j := 1;
    while j < 7
      invariant 1 <= j <= 7 && |fs| == j
      invariant |input| >= 2 + 2 * j && s == input[2 + 2 * j..]
      invariant fs[0] == ReadInt(U32, input, e).value.0
      invariant forall m :: 1 <= m < j ==> fs[m] == Field(input, 2 + 2 * m, U16, e)
    {
      var v := ReadInt(U16, s, e);
      if v.Err? {
        return Err(v.error);
      }
      fs := fs + [v.value.0];
      s := v.value.1;
      j := j + 1;
    }
    var padding := ReadBytes(s, 6);
    if padding.Err? {
      return Err(padding.error);
    }
    assert input[0..] == input;
    assert fs == SizesAt(input, e);
    r := Ok((fs, padding.value.1));
  }
}
