// The blocks of a loggerd log file: the file header, entry blocks listing the
// offsets of their fields, and field blocks holding one key and value padded
// to 64 bytes. Every block starts with a one-byte type and a u64 size; all
// integers are little-endian and times are i64 nanoseconds since the epoch.
module LogDisk {
  import opened Wrappers
  import opened Bytes
  import opened ByteStruct

  const MaxFieldSize: nat := 48000
  const Version: nat := 1

  /** `MAGIC`: the bytes of "QLOGFILE". */
  const Magic: seq<byte> := [0x51, 0x4C, 0x4F, 0x47, 0x46, 0x49, 0x4C, 0x45]

  /** Field blocks are padded to a multiple of this many bytes. */
  const FieldAlign: nat := 64

  // ----- structs of integer fields -----

  /** The values xs fit the integer types ks, one for one. */
  predicate Fit(ks: seq<IntKind>, xs: seq<int>)
  {
    |ks| == |xs| && forall i :: 0 <= i < |ks| ==> InRange(ks[i], xs[i])
  }

  /** The bytes all the integer types take together. */
  function Widths(ks: seq<IntKind>): nat
  {
    if ks == [] then 0 else Width(ks[0]) + Widths(ks[1..])
  }

  /** The derived writer of integer fields: each in turn, in declaration order. */
  function WriteInts(ks: seq<IntKind>, xs: seq<int>, e: Endian): (r: seq<byte>)
    requires Fit(ks, xs)
    ensures |r| == Widths(ks)
    decreases |ks|
  {
    if ks == [] then []
    else
      assert InRange(ks[0], xs[0]);
      assert Fit(ks[1..], xs[1..]) by {
        forall i | 0 <= i < |ks| - 1
          ensures InRange(ks[1..][i], xs[1..][i])
        {
          assert InRange(ks[i + 1], xs[i + 1]);
        }
      }
      WriteInt(ks[0], xs[0], e) + WriteInts(ks[1..], xs[1..], e)
  }

  /** The derived reader of integer fields: each in turn, stopping at the first short read. */
  function ReadInts(ks: seq<IntKind>, input: seq<byte>, e: Endian): (r: Read<seq<int>>)
    ensures r.Ok? <==> |input| >= Widths(ks)
    ensures r.Err? ==> r.error == UnexpectedEof
    ensures r.Ok? ==> Fit(ks, r.value.0) && r.value.1 == input[Widths(ks)..]
    decreases |ks|
  {
    if ks == [] then Ok(([], input))
    else
      match ReadInt(ks[0], input, e)
      case Err(err) => Err(err)
      case Ok((x, rest)) =>
        match ReadInts(ks[1..], rest, e)
        case Err(err) => Err(err)
        case Ok((xs, rest')) =>
          assert forall i :: 1 <= i < |ks| ==> ([x] + xs)[i] == xs[i - 1] && ks[i] == ks[1..][i - 1];
          Ok(([x] + xs, rest'))
  }

  /** Reading back written fields gives the values and leaves what followed. */
  lemma {:induction false} ReadWrittenInts(ks: seq<IntKind>, xs: seq<int>, e: Endian, rest: seq<byte>)
    requires Fit(ks, xs)
    ensures ReadInts(ks, WriteInts(ks, xs, e) + rest, e) == Ok((xs, rest))
    decreases |ks|
  {
    if ks != [] {
      assert Fit(ks[1..], xs[1..]) by {
        forall i | 0 <= i < |ks| - 1
          ensures InRange(ks[1..][i], xs[1..][i])
        {
          assert InRange(ks[i + 1], xs[i + 1]);
        }
      }
      var tail := WriteInts(ks[1..], xs[1..], e) + rest;
      AppendAssoc(WriteInt(ks[0], xs[0], e), WriteInts(ks[1..], xs[1..], e), rest);
      ReadWriteInt(ks[0], xs[0], e, tail);
      ReadWrittenInts(ks[1..], xs[1..], e, rest);
      assert [xs[0]] + xs[1..] == xs;
    }
  }

  /** Conversely, a successful read consumed exactly the encoding of the values it returned. */
  lemma {:induction false} WriteReadInts(ks: seq<IntKind>, input: seq<byte>, e: Endian)
    requires |input| >= Widths(ks)
    ensures var (xs, rest) := ReadInts(ks, input, e).value; WriteInts(ks, xs, e) + rest == input
    decreases |ks|
  {
    if ks != [] {
      var (x, rest) := ReadInt(ks[0], input, e).value;
      WriteReadInt(ks[0], input, e);
      WriteReadInts(ks[1..], rest, e);
      var (xs, rest') := ReadInts(ks[1..], rest, e).value;
      assert ([x] + xs)[1..] == xs;
      AppendAssoc(WriteInt(ks[0], x, e), WriteInts(ks[1..], xs, e), rest');
    }
  }

  // ----- enums -----

  /** `Compression`: none or gzip. */
  datatype Compression = Uncompressed | Gzip

  /** `BlockType`, as a u8 discriminant in declaration order. */
  datatype BlockType = Checkpoint | Entry | Field

  function BlockTypeCode(t: BlockType): (b: nat)
    ensures b < 3
  {
    match t
    case Checkpoint => 0
    case Entry => 1
    case Field => 2
  }

  function BlockTypeOf(b: int): (r: Option<BlockType>)
    ensures r.Some? <==> 0 <= b < 3
    ensures r.Some? ==> BlockTypeCode(r.value) == b
  {
    if b == 0 then Some(Checkpoint) else if b == 1 then Some(Entry) else if b == 2 then Some(Field) else None
  }

  lemma BlockTypeRoundTrip(t: BlockType)
    ensures BlockTypeOf(BlockTypeCode(t)) == Some(t)
  {
  }

  // ----- HeaderBlock -----

  /** `HeaderBlock`. */
  datatype HeaderBlock = HeaderBlock(
    magic: seq<byte>,
    version: int,
    compression: Compression,
    reserved: int,
    machineId: int,
    timeMin: int,
    timeMax: int,
    firstHashBlockOffset: int,
    firstEntryBlockOffset: int,
    firstCheckpointBlockOffset: int)

  /** `HeaderBlock::default` with the two readings of the clock it takes. */
  function DefaultHeader(now: int, later: int): HeaderBlock
  {
    HeaderBlock(Magic, Version, Uncompressed, 0, 0, now, later, 0, 0, 0)
  }

  /** `HeaderBlock::validate`: the magic first, then the version. */
  function Validate(h: HeaderBlock): (r: Result<(), string>)
    ensures r.Ok? <==> h.magic == Magic && h.version == Version
    ensures h.magic != Magic ==> r == Err("Invalid magic number")
    ensures h.magic == Magic && h.version != Version ==> r == Err("Invalid version number")
  {
    if Magic != h.magic then Err("Invalid magic number")
    else if Version != h.version then Err("Invalid version number")
    else Ok(())
  }

  /** The default header validates: it has no compression, no blocks yet, and the clock's two readings as its time range. */
  lemma DefaultHeaderValid(now: int, later: int)
    ensures Validate(DefaultHeader(now, later)) == Ok(())
    ensures var h := DefaultHeader(now, later);
      h.compression == Uncompressed && h.firstHashBlockOffset == 0 && h.firstEntryBlockOffset == 0
      && h.firstCheckpointBlockOffset == 0 && h.timeMin == now && h.timeMax == later
  {
  }

  // ----- BlockHeader -----

  /** `BlockHeader`: the type of a block and its size. */
  datatype BlockHeader = BlockHeader(blockType: BlockType, blockSize: int)

  const BlockHeaderSize: nat := 9

  /** The derived writer: the type as one byte, then the size as a u64. */
  function WriteBlockHeader(h: BlockHeader, e: Endian): (r: seq<byte>)
    requires InRange(U64, h.blockSize)
    ensures |r| == BlockHeaderSize
    ensures r[0] == BlockTypeCode(h.blockType)
  {
    WriteInt(U8, BlockTypeCode(h.blockType), e) + WriteInt(U64, h.blockSize, e)
  }

  /**
   * The block header reader with the type corrected: the type byte is read
   * and decoded first, as the derived reader does, and one other than 0, 1
   * and 2 is `InvalidData`, where the derived reader panics; only then is
   * the size read.
   */
  function ReadBlockHeader(input: seq<byte>, e: Endian): (r: Read<BlockHeader>)
    ensures r.Err? <==> |input| < BlockHeaderSize || input[0] >= 3
    ensures r.Err? ==> r.error == (if |input| >= 1 && input[0] >= 3 then InvalidData else UnexpectedEof)
    ensures r.Ok? ==> BlockTypeOf(input[0]) == Some(r.value.0.blockType)
    ensures r.Ok? ==> InRange(U64, r.value.0.blockSize) && r.value.1 == input[BlockHeaderSize..]
    ensures r.Ok? ==> input == WriteBlockHeader(r.value.0, e) + r.value.1
  {
    BlockHeaderBytes(input, e);
    match ReadInt(U8, input, e)
    case Err(err) => Err(err)
    case Ok((code, rest)) =>
      match BlockTypeOf(code)
      case None => Err(InvalidData)
      case Some(t) =>
        match ReadInt(U64, rest, e)
        case Err(err) => Err(err)
        case Ok((size, rest')) => Ok((BlockHeader(t, size), rest'))
  }

  /** Nine bytes or more are a type byte, a u64 and what follows, each read back as it is encoded. */
  lemma BlockHeaderBytes(input: seq<byte>, e: Endian)
    ensures |input| >= BlockHeaderSize ==>
      var (x, rest) := ReadInt(U8, input, e).value;
      var (y, rest') := ReadInt(U64, rest, e).value;
      WriteInt(U8, x, e) + WriteInt(U64, y, e) + rest' == input
  {
    if |input| >= BlockHeaderSize {
      WriteReadInt(U8, input, e);
      var (x, rest) := ReadInt(U8, input, e).value;
      WriteReadInt(U64, rest, e);
      var (y, rest') := ReadInt(U64, rest, e).value;
      AppendAssoc(WriteInt(U8, x, e), WriteInt(U64, y, e), rest');
    }
  }

  /**
   * The derived block header reader as written: the `BlockType` reader it
   * calls first panics on a discriminant other than 0, 1 and 2 as soon as
   * that one byte is read, before the size is.
   */
  function ReadBlockHeaderAsWritten(input: seq<byte>, e: Endian): (r: Outcome<Read<BlockHeader>>)
    ensures r.Panics? <==> |input| >= 1 && input[0] >= 3
    ensures r.Returns? ==> r.value == ReadBlockHeader(input, e)
  {
    match ReadInt(U8, input, e)
    case Err(err) => Returns(Err(err))
    case Ok((code, rest)) =>
      match BlockTypeOf(code)
      case None => Panics
      case Some(t) =>
        match ReadInt(U64, rest, e)
        case Err(err) => Returns(Err(err))
        case Ok((size, rest')) => Returns(Ok((BlockHeader(t, size), rest')))
  }

  lemma ReadWrittenBlockHeader(h: BlockHeader, e: Endian, rest: seq<byte>)
    requires InRange(U64, h.blockSize)
    ensures ReadBlockHeader(WriteBlockHeader(h, e) + rest, e) == Ok((h, rest))
    ensures ReadBlockHeaderAsWritten(WriteBlockHeader(h, e) + rest, e) == Returns(Ok((h, rest)))
  {
    var tb := WriteInt(U8, BlockTypeCode(h.blockType), e);
    var sb := WriteInt(U64, h.blockSize, e);
    assert tb + sb + rest == tb + (sb + rest);
    ReadWriteInt(U8, BlockTypeCode(h.blockType), e, sb + rest);
    ReadWriteInt(U64, h.blockSize, e, rest);
    BlockTypeRoundTrip(h.blockType);
  }

  // ----- EntryBlock -----

  /** `EntryBlock`, with its `EntryBlockHeader` (the time and the next entry block) flattened in. */
  datatype EntryBlock = EntryBlock(header: BlockHeader, time: int, nextEntryBlockOffset: int, fieldOffsets: seq<int>)

  function U64s(n: nat): (ks: seq<IntKind>)
    ensures |ks| == n && Widths(ks) == 8 * n
  {
    if n == 0 then [] else
      var ks := [U64] + U64s(n - 1);
      assert ks[1..] == U64s(n - 1);
      ks
  }

  /** The entry block's integers after the block header: the time, the next offset and the vector's count. */
  const EntryLayout: seq<IntKind> := [I64, U64, U64]

  /** The fields of an entry block hold values of their types; the vector's length is a u64 too. */
  predicate EntryFits(b: EntryBlock)
  {
    InRange(U64, b.header.blockSize) && InRange(U64, b.nextEntryBlockOffset)
    && InRange(U64, |b.fieldOffsets|) && Fit(U64s(|b.fieldOffsets|), b.fieldOffsets)
  }

  /** The derived writer: the block header, the time, the next offset, then the vector as a count and its items. */
  function WriteEntryBlock(b: EntryBlock): (r: Result<seq<byte>, IoError>)
    requires EntryFits(b)
    ensures r.Ok? <==> InRange(I64, b.time)
    ensures r.Ok? ==> |r.value| == 33 + 8 * |b.fieldOffsets|
  {
    if !InRange(I64, b.time) then Err(InvalidData)
    else
      assert EntryLayout[1..] == [U64, U64] && EntryLayout[2..] == [U64] && EntryLayout[3..] == [];
      Ok(WriteBlockHeader(b.header, Little)
        + WriteInts(EntryLayout, [b.time, b.nextEntryBlockOffset, |b.fieldOffsets|], Little)
        + WriteInts(U64s(|b.fieldOffsets|), b.fieldOffsets, Little))
  }

  /**
   * The entry block reader with the block type corrected, as `ReadBlockHeader`
   * corrects it: an unknown type is `InvalidData`, every other failure is a
   * short read, and a successful read consumed exactly the encoding of an
   * entry block the writer accepts.
   */
  function ReadEntryBlock(input: seq<byte>): (r: Read<EntryBlock>)
    ensures |input| >= 1 && input[0] >= 3 ==> r == Err(InvalidData)
    ensures r.Err? && r.error != UnexpectedEof ==> |input| >= 1 && input[0] >= 3 && r.error == InvalidData
    ensures r.Ok? ==> |input| >= BlockHeaderSize && BlockTypeOf(input[0]) == Some(r.value.0.header.blockType)
    ensures r.Ok? ==> EntryFits(r.value.0) && InRange(I64, r.value.0.time)
    ensures r.Ok? ==> input == WriteEntryBlock(r.value.0).value + r.value.1
  {
    match ReadBlockHeader(input, Little)
    case Err(err) => Err(err)
    case Ok((h, rest)) =>
      var r := ReadEntryFields(h, rest);
      if r.Ok? then
        EntryBlockBytes(r.value.0, r.value.1);
        r
      else r
  }

  /**
   * The derived entry block reader as written: it panics exactly where the
   * block header reader does, and otherwise reads what `ReadEntryBlock` reads.
   */
  function ReadEntryBlockAsWritten(input: seq<byte>): (r: Outcome<Read<EntryBlock>>)
    ensures r.Panics? <==> |input| >= 1 && input[0] >= 3
    ensures r.Returns? ==> r.value == ReadEntryBlock(input)
  {
    match ReadBlockHeaderAsWritten(input, Little)
    case Panics => Panics
    case Returns(Err(err)) => Returns(Err(err))
    case Returns(Ok((h, rest))) => Returns(ReadEntryFields(h, rest))
  }

  /** An entry block is written as its header, then its fields after the header. */
  lemma EntryBlockBytes(b: EntryBlock, rest: seq<byte>)
    requires EntryFits(b) && InRange(I64, b.time)
    ensures WriteBlockHeader(b.header, Little) + (EntryFieldBytes(b) + rest) == WriteEntryBlock(b).value + rest
  {
    var hb := WriteBlockHeader(b.header, Little);
    assert EntryLayout[1..] == [U64, U64] && EntryLayout[2..] == [U64] && EntryLayout[3..] == [];
    var mb := WriteInts(EntryLayout, [b.time, b.nextEntryBlockOffset, |b.fieldOffsets|], Little);
    var ob := WriteInts(U64s(|b.fieldOffsets|), b.fieldOffsets, Little);
    assert WriteEntryBlock(b).value == hb + mb + ob;
    AppendAssoc(mb, ob, rest);
    AppendAssoc(hb, mb, ob + rest);
    AppendAssoc(hb + mb, ob, rest);
  }

  /** The fields of an entry block after its header: time, next offset, count, then the offsets. */
  function ReadEntryFields(h: BlockHeader, rest: seq<byte>): (r: Read<EntryBlock>)
    requires InRange(U64, h.blockSize)
    ensures r.Err? ==> r.error == UnexpectedEof
    ensures r.Ok? ==> r.value.0.header == h && EntryFits(r.value.0) && InRange(I64, r.value.0.time)
    ensures r.Ok? ==> rest == EntryFieldBytes(r.value.0) + r.value.1
  {
    match ReadInts(EntryLayout, rest, Little)
    case Err(err) => Err(err)
    case Ok((xs, rest')) =>
      assert InRange(EntryLayout[2], xs[2]);
      match ReadInts(U64s(xs[2]), rest', Little)
      case Err(err) => Err(err)
      case Ok((offsets, rest'')) =>
        var b := EntryBlock(h, xs[0], xs[1], offsets);
        EntryFieldsRead(rest, xs, rest', b, rest'');
        Ok((b, rest''))
  }

  /** The bytes of an entry block after its header: time, next offset, count, then the offsets. */
  function EntryFieldBytes(b: EntryBlock): (r: seq<byte>)
    requires EntryFits(b) && InRange(I64, b.time)
  {
    assert EntryLayout[1..] == [U64, U64] && EntryLayout[2..] == [U64] && EntryLayout[3..] == [];
    WriteInts(EntryLayout, [b.time, b.nextEntryBlockOffset, |b.fieldOffsets|], Little)
      + WriteInts(U64s(|b.fieldOffsets|), b.fieldOffsets, Little)
  }

  /** When the two reads of the fields give b, b fits and the bytes read are b's fields. */
  lemma EntryFieldsRead(rest: seq<byte>, xs: seq<int>, rest': seq<byte>, b: EntryBlock, tail: seq<byte>)
    requires ReadInts(EntryLayout, rest, Little) == Ok((xs, rest'))
    requires ReadInts(U64s(xs[2]), rest', Little) == Ok((b.fieldOffsets, tail))
    requires b.time == xs[0] && b.nextEntryBlockOffset == xs[1] && InRange(U64, b.header.blockSize)
    ensures EntryFits(b) && InRange(I64, b.time)
    ensures rest == EntryFieldBytes(b) + tail
  {
    EntryFieldsFit(xs, b);
    WriteReadInts(EntryLayout, rest, Little);
    WriteReadInts(U64s(xs[2]), rest', Little);
    AppendAssoc(WriteInts(EntryLayout, xs, Little), WriteInts(U64s(xs[2]), b.fieldOffsets, Little), tail);
  }

  /** Values read for the entry layout and the offsets make an entry block that fits. */
  lemma EntryFieldsFit(xs: seq<int>, b: EntryBlock)
    requires Fit(EntryLayout, xs) && Fit(U64s(xs[2]), b.fieldOffsets)
    requires b.time == xs[0] && b.nextEntryBlockOffset == xs[1] && InRange(U64, b.header.blockSize)
    ensures EntryFits(b) && InRange(I64, b.time)
    ensures xs == [b.time, b.nextEntryBlockOffset, |b.fieldOffsets|]
  {
    assert InRange(EntryLayout[0], xs[0]) && InRange(EntryLayout[1], xs[1]);
  }

  /** A written entry block reads back, and what follows it is left. */
  lemma ReadWrittenEntryBlock(b: EntryBlock, rest: seq<byte>)
    requires EntryFits(b) && InRange(I64, b.time)
    ensures ReadEntryBlock(WriteEntryBlock(b).value + rest) == Ok((b, rest))
  {
    var hb := WriteBlockHeader(b.header, Little);
    var xs := [b.time, b.nextEntryBlockOffset, |b.fieldOffsets|];
    var mb := WriteInts(EntryLayout, xs, Little);
    var ob := WriteInts(U64s(|b.fieldOffsets|), b.fieldOffsets, Little);
    assert Fit(EntryLayout, xs);
    assert WriteEntryBlock(b).value == hb + mb + ob;
    Bytes.AppendAssoc(hb + mb, ob, rest);
    Bytes.AppendAssoc(hb, mb, ob + rest);
    ReadWrittenBlockHeader(b.header, Little, mb + (ob + rest));
    ReadWrittenInts(EntryLayout, xs, Little, ob + rest);
    ReadWrittenInts(U64s(|b.fieldOffsets|), b.fieldOffsets, Little, rest);
    assert EntryBlock(b.header, xs[0], xs[1], b.fieldOffsets) == b;
  }

  /** `Size::size` of an entry block as written: the vector counts its items only. */
  function EntrySizeAsWritten(offsets: seq<int>): nat
  {
    BlockHeaderSize + 16 + 8 * |offsets|
  }

  /** The size of what the writer emits: the vector's count included. */
  function EntrySize(offsets: seq<int>): nat
  {
    BlockHeaderSize + 16 + 8 + 8 * |offsets|
  }

  /** `EntryBlock::new` as written: type Entry, no next block, and the block size from `size`. */
  function NewEntryBlockAsWritten(time: int, offsets: seq<int>): (b: EntryBlock)
    ensures b.header.blockType == Entry && b.nextEntryBlockOffset == 0
    ensures b.time == time && b.fieldOffsets == offsets
  {
    EntryBlock(BlockHeader(Entry, EntrySizeAsWritten(offsets)), time, 0, offsets)
  }

  /** `EntryBlock::new` with the size of what is written. */
  function NewEntryBlock(time: int, offsets: seq<int>): (b: EntryBlock)
    ensures b.header.blockType == Entry && b.nextEntryBlockOffset == 0
    ensures b.time == time && b.fieldOffsets == offsets
  {
    EntryBlock(BlockHeader(Entry, EntrySize(offsets)), time, 0, offsets)
  }

  /** The offsets fit a u64 each, and there are few enough that the size fits too. */
  predicate OffsetsFit(offsets: seq<int>)
  {
    |offsets| < 0x1000_0000_0000_0000 && Fit(U64s(|offsets|), offsets)
  }

  /** As written, the recorded block size falls 8 bytes short of the block the writer emits. */
  lemma EntrySizeShort(time: int, offsets: seq<int>)
    requires OffsetsFit(offsets) && InRange(I64, time)
    ensures EntryFits(NewEntryBlockAsWritten(time, offsets))
    ensures |WriteEntryBlock(NewEntryBlockAsWritten(time, offsets)).value| == NewEntryBlockAsWritten(time, offsets).header.blockSize + 8
  {
  }

  /** Corrected, the recorded block size is the length of the block the writer emits. */
  lemma EntrySizeExact(time: int, offsets: seq<int>)
    requires OffsetsFit(offsets) && InRange(I64, time)
    ensures EntryFits(NewEntryBlock(time, offsets))
    ensures |WriteEntryBlock(NewEntryBlock(time, offsets)).value| == NewEntryBlock(time, offsets).header.blockSize
  {
  }

  // ----- FieldBlock -----

  /** `FieldBlock`: a key and a value as UTF-8 bytes, and the padding after them. */
  datatype FieldBlock = FieldBlock(header: BlockHeader, key: seq<byte>, value: seq<byte>, padding: Padding)

  /** `LengthPrefixedString::<MAX_FIELD_SIZE>::size`: the bytes and a two-byte prefix. */
  function StringSize(s: seq<byte>): (n: nat)
    ensures n == |s| + 2
  {
    LengthPrefixedSize(MaxFieldSize, s)
  }

  /** `FieldBlock::new` as written: the padding aligns the key and value alone, not the block header before them. */
  function NewFieldBlockAsWritten(key: string, value: string): (b: FieldBlock)
    ensures b.header.blockType == Field && b.key == Utf8Encode(key) && b.value == Utf8Encode(value)
    ensures b.header.blockSize == StringSize(b.key) + StringSize(b.value) + b.padding.amt
    ensures 1 <= b.padding.amt <= FieldAlign && b.header.blockSize % FieldAlign == 0
  {
    var k, v := Utf8Encode(key), Utf8Encode(value);
    var p := NewPadding(FieldAlign, StringSize(k) + StringSize(v));
    FieldBlock(BlockHeader(Field, StringSize(k) + StringSize(v) + p.amt), k, v, p)
  }

  /** `FieldBlock::new` with the padding the reader expects: the whole block, header included, ends on a 64-byte boundary. */
  function NewFieldBlock(key: string, value: string): (b: FieldBlock)
    ensures b.header.blockType == Field && b.key == Utf8Encode(key) && b.value == Utf8Encode(value)
    ensures b.header.blockSize == StringSize(b.key) + StringSize(b.value) + b.padding.amt
    ensures 1 <= b.padding.amt <= FieldAlign && (BlockHeaderSize + b.header.blockSize) % FieldAlign == 0
  {
    var k, v := Utf8Encode(key), Utf8Encode(value);
    var p := NewPadding(FieldAlign, BlockHeaderSize + StringSize(k) + StringSize(v));
    FieldBlock(BlockHeader(Field, StringSize(k) + StringSize(v) + p.amt), k, v, p)
  }

  /** The derived writer: the block header, key and value with little-endian length prefixes, then zero padding. */
  function WriteFieldBlock(b: FieldBlock): (r: seq<byte>)
    requires InRange(U64, b.header.blockSize)
    ensures |r| == BlockHeaderSize + StringSize(b.key) + StringSize(b.value) + b.padding.amt
  {
    WriteBlockHeader(b.header, Little)
    + WriteLengthPrefixed(MaxFieldSize, b.key, Little)
    + WriteLengthPrefixed(MaxFieldSize, b.value, Little)
    + WritePadding(b.padding)
  }

  /** A field block's header, key and value as the writer emits them: all but its padding. */
  function FieldHead(b: FieldBlock): (r: seq<byte>)
    requires InRange(U64, b.header.blockSize)
    ensures |r| == BlockHeaderSize + StringSize(b.key) + StringSize(b.value)
  {
    WriteBlockHeader(b.header, Little)
    + WriteLengthPrefixed(MaxFieldSize, b.key, Little)
    + WriteLengthPrefixed(MaxFieldSize, b.value, Little)
  }

  /**
   * The derived reader with the prefix byte order corrected, so the length
   * prefixes are read in the order they were written: an unknown type is
   * `InvalidData`, and a successful read has a known type, UTF-8 key and
   * value, and the padding that aligns everything before it, block header
   * included. `ReadFieldBlockLayout` states which bytes it consumed.
   */
  function ReadFieldBlock(input: seq<byte>): (r: Read<FieldBlock>)
    ensures |input| >= 1 && input[0] >= 3 ==> r == Err(InvalidData)
    ensures r.Ok? ==> |input| >= BlockHeaderSize && BlockTypeOf(input[0]) == Some(r.value.0.header.blockType)
    ensures r.Ok? ==> InRange(U64, r.value.0.header.blockSize) && ValidUtf8(r.value.0.key) && ValidUtf8(r.value.0.value)
    ensures r.Ok? ==> PaddedAsRead(r.value.0)
  {
    var hr := ReadBlockHeader(input, Little);
    if hr.Err? then Err(hr.error) else ReadFieldKey(hr.value.0, hr.value.1)
  }

  /**
   * Conversely, a field block read found the encoding of its header, key and
   * value, then the padding's bytes, whatever they held, then what it left.
   */
  lemma ReadFieldBlockLayout(input: seq<byte>)
    requires ReadFieldBlock(input).Ok?
    ensures var (b, rest) := ReadFieldBlock(input).value;
      |input| == |FieldHead(b)| + b.padding.amt + |rest|
      && input[..|FieldHead(b)|] == FieldHead(b)
      && rest == input[|FieldHead(b)| + b.padding.amt..]
  {
    var (h, rest0) := ReadBlockHeader(input, Little).value;
    var (k, rest1) := ReadLengthPrefixed(MaxFieldSize, rest0, Little).value;
    var (v, rest2) := ReadLengthPrefixed(MaxFieldSize, rest1, Little).value;
    var (b, rest) := ReadFieldBlock(input).value;
    assert b.header == h && b.key == k && b.value == v;
    var amt := b.padding.amt;
    assert rest == rest2[amt..];
    var hb, kb, vb := WriteBlockHeader(h, Little), WriteLengthPrefixed(MaxFieldSize, k, Little), WriteLengthPrefixed(MaxFieldSize, v, Little);
    assert input == hb + (kb + (vb + rest2));
    AppendAssoc(hb, kb, vb + rest2);
    AppendAssoc(hb + kb, vb, rest2);
    assert input == FieldHead(b) + rest2;
    assert input[..|FieldHead(b)|] == FieldHead(b);
    assert input[|FieldHead(b)| + amt..] == rest2[amt..];
  }

  /** The padding is what the reader skips: it aligns the block header, key and value before it. */
  predicate PaddedAsRead(b: FieldBlock)
  {
    b.padding == NewPadding(FieldAlign, BlockHeaderSize + StringSize(b.key) + StringSize(b.value))
  }

  /** The key, value and padding after the block header, both prefixes in the order written. */
  function ReadFieldKey(h: BlockHeader, input: seq<byte>): (r: Read<FieldBlock>)
    ensures r.Ok? ==> r.value.0.header == h && ValidUtf8(r.value.0.key) && ValidUtf8(r.value.0.value)
    ensures r.Ok? ==> PaddedAsRead(r.value.0)
  {
    var kr := ReadLengthPrefixed(MaxFieldSize, input, Little);
    if kr.Err? then Err(kr.error) else ReadFieldValue(h, kr.value.0, kr.value.1)
  }

  /** The value and padding after the key. */
  function ReadFieldValue(h: BlockHeader, k: seq<byte>, input: seq<byte>): (r: Read<FieldBlock>)
    ensures r.Ok? ==> r.value.0.header == h && r.value.0.key == k && ValidUtf8(r.value.0.value)
    ensures r.Ok? ==> PaddedAsRead(r.value.0)
  {
    var vr := ReadLengthPrefixed(MaxFieldSize, input, Little);
    if vr.Err? then Err(vr.error) else ReadFieldPadding(h, k, vr.value.0, vr.value.1)
  }

  function ReadFieldPadding(h: BlockHeader, k: seq<byte>, v: seq<byte>, input: seq<byte>): (r: Read<FieldBlock>)
    ensures var amt := PaddingAmount(FieldAlign, BlockHeaderSize + StringSize(k) + StringSize(v));
      r.Ok? ==> |input| >= amt && r.value.1 == input[amt..]
    ensures r.Ok? ==> r.value.0 == FieldBlock(h, k, v, NewPadding(FieldAlign, BlockHeaderSize + StringSize(k) + StringSize(v)))
  {
    match ReadPadding(FieldAlign, BlockHeaderSize + StringSize(k) + StringSize(v), input)
    case Err(err) => Err(err)
    case Ok((p, rest)) => Ok((FieldBlock(h, k, v, p), rest))
  }

  /**
   * The derived reader as written: the block header reader panics on an
   * unknown type, and `LengthPrefixedString` reads both prefixes big-endian.
   */
  function ReadFieldBlockAsWritten(input: seq<byte>): (r: Outcome<Read<FieldBlock>>)
    ensures r.Panics? <==> |input| >= 1 && input[0] >= 3
  {
    match ReadBlockHeaderAsWritten(input, Little)
    case Panics => Panics
    case Returns(Err(err)) => Returns(Err(err))
    case Returns(Ok((h, rest))) => Returns(ReadFieldKeyAsWritten(h, rest))
  }

  /** The key, value and padding as written, both prefixes read big-endian. */
  function ReadFieldKeyAsWritten(h: BlockHeader, input: seq<byte>): (r: Read<FieldBlock>)
  {
    match ReadLengthPrefixedAsWritten(MaxFieldSize, input, Little)
    case Err(err) => Err(err)
    case Ok((k, rest)) =>
      match ReadLengthPrefixedAsWritten(MaxFieldSize, rest, Little)
      case Err(err) => Err(err)
      case Ok((v, rest')) => ReadFieldPadding(h, k, v, rest')
  }

  /** A key or value short enough that its length fits the two-byte prefix. */
  predicate FieldFits(s: string)
  {
    Utf8StringLength(s) < 0x1_0000
  }

  /** A field block whose size fits a u64 and whose key and value are UTF-8 with lengths that fit their prefix. */
  predicate Writable(b: FieldBlock)
  {
    InRange(U64, b.header.blockSize)
    && ValidUtf8(b.key) && ValidUtf8(b.value) && |b.key| < 0x1_0000 && |b.value| < 0x1_0000
  }

  /** Reading a written field block gets through its header, key and value; what is left is the padding and what follows. */
  lemma ReadFieldBlockUpToPadding(b: FieldBlock, rest: seq<byte>)
    requires Writable(b)
    ensures ReadFieldBlock(WriteFieldBlock(b) + rest) == ReadFieldPadding(b.header, b.key, b.value, WritePadding(b.padding) + rest)
  {
    var hb := WriteBlockHeader(b.header, Little);
    var kb := WriteLengthPrefixed(MaxFieldSize, b.key, Little);
    var vb := WriteLengthPrefixed(MaxFieldSize, b.value, Little);
    var pb := WritePadding(b.padding);
    var tail := kb + (vb + (pb + rest));
    AppendAssoc4(hb, kb, vb, pb, rest);
    assert WriteFieldBlock(b) + rest == hb + tail;
    PowValues();
    assert PrefixKind(MaxFieldSize) == U16;
    ReadWrittenBlockHeader(b.header, Little, tail);
    assert ReadFieldBlock(hb + tail) == ReadFieldKey(b.header, tail);
    ReadWrittenLengthPrefixed(MaxFieldSize, b.key, Little, vb + (pb + rest));
    assert ReadFieldKey(b.header, tail) == ReadFieldValue(b.header, b.key, vb + (pb + rest));
    ReadWrittenLengthPrefixed(MaxFieldSize, b.value, Little, pb + rest);
  }

  /** Corrected, a new field block written and read back is the same block, and what follows it is left. */
  lemma ReadWrittenFieldBlock(key: string, value: string, rest: seq<byte>)
    requires FieldFits(key) && FieldFits(value)
    ensures InRange(U64, NewFieldBlock(key, value).header.blockSize)
    ensures ReadFieldBlock(WriteFieldBlock(NewFieldBlock(key, value)) + rest) == Ok((NewFieldBlock(key, value), rest))
    ensures |WriteFieldBlock(NewFieldBlock(key, value))| == BlockHeaderSize + NewFieldBlock(key, value).header.blockSize
  {
    var b := NewFieldBlock(key, value);
    ReadFieldBlockUpToPadding(b, rest);
    ReadWrittenPadding(FieldAlign, BlockHeaderSize + StringSize(b.key) + StringSize(b.value), rest);
  }

  /** The padding of `FieldBlock::new` and the padding the reader skips never agree. */
  lemma PaddingsDiffer(n: nat)
    ensures PaddingAmount(FieldAlign, n) != PaddingAmount(FieldAlign, BlockHeaderSize + n)
  {
    var a := PaddingAmount(FieldAlign, n);
    var q := (n + a) / 64;
    assert n + a == q * 64;
    // n + a is aligned, so 9 + n + a is not, and the reader's padding differs.
    ModUnique(9 + n + a, 64, q, 9);
  }

  /** Reading padding after p leaves the bytes that followed, shifted by how much more or less the reader skips than p holds. */
  lemma PaddingLeftover(h: BlockHeader, k: seq<byte>, v: seq<byte>, p: Padding, rest: seq<byte>)
    ensures ReadFieldPadding(h, k, v, WritePadding(p) + rest).Ok? ==>
      |ReadFieldPadding(h, k, v, WritePadding(p) + rest).value.1| + PaddingAmount(FieldAlign, BlockHeaderSize + StringSize(k) + StringSize(v))
      == p.amt + |rest|
  {
  }

  /**
   * As written, reading a new field block back gets through its header, key
   * and value, and then skips an amount of padding that is never the amount
   * written, so the bytes it leaves are not the ones that followed the block.
   */
  lemma AsWrittenFieldBlockMisread(key: string, value: string, rest: seq<byte>)
    requires FieldFits(key) && FieldFits(value)
    ensures var b := NewFieldBlockAsWritten(key, value);
      Writable(b)
      && ReadFieldBlock(WriteFieldBlock(b) + rest) == ReadFieldPadding(b.header, b.key, b.value, WritePadding(b.padding) + rest)
  {
    var b := NewFieldBlockAsWritten(key, value);
    ReadFieldBlockUpToPadding(b, rest);
  }

  /**
   * As written, a key of 1 to 255 bytes has its prefix read big-endian as 256
   * times its length: the block fails with `UnexpectedEof` when fewer bytes
   * follow, and never gives back a key of the length written.
   */
  lemma AsWrittenFieldKeyMisread(b: FieldBlock, rest: seq<byte>)
    requires Writable(b) && |b.key| < 256
    ensures var r := ReadFieldBlockAsWritten(WriteFieldBlock(b) + rest);
      r.Returns?
      && (r.value.Ok? ==> |r.value.value.0.key| == 256 * |b.key|)
      && (|WriteFieldBlock(b) + rest| < BlockHeaderSize + 2 + 256 * |b.key| ==> r == Returns(Err(UnexpectedEof)))
  {
    var hb := WriteBlockHeader(b.header, Little);
    var kb := WriteLengthPrefixed(MaxFieldSize, b.key, Little);
    var vb := WriteLengthPrefixed(MaxFieldSize, b.value, Little);
    var pb := WritePadding(b.padding);
    AppendAssoc4(hb, kb, vb, pb, rest);
    PowValues();
    assert PrefixKind(MaxFieldSize) == U16;
    ReadWrittenBlockHeader(b.header, Little, kb + (vb + (pb + rest)));
    AsWrittenLittlePrefix(MaxFieldSize, b.key, vb + (pb + rest));
  }

  /**
   * As written, an empty key and value do read back, the padding included,
   * but the writer padded 60 bytes and the reader skips 51, so 9 zero bytes
   * are left in front of what followed the block.
   */
  lemma AsWrittenEmptyFieldMisread(rest: seq<byte>)
    ensures var b := NewFieldBlockAsWritten("", "");
      b.padding.amt == 60
      && ReadFieldBlockAsWritten(WriteFieldBlock(b) + rest) == Returns(Ok((b.(padding := Padding(51)), Zeros(9) + rest)))
  {
    var b := NewFieldBlockAsWritten("", "");
    EmptyFieldBlock();
    var hb := WriteBlockHeader(b.header, Little);
    var z: seq<byte> := [0, 0];
    var pb := WritePadding(b.padding);
    AppendAssoc4(hb, z, z, pb, rest);
    ReadWrittenBlockHeader(b.header, Little, z + (z + (pb + rest)));
    EmptyPrefixAsWritten(z + (pb + rest));
    EmptyPrefixAsWritten(pb + rest);
    ZerosDrop(51, 9, rest);
  }

  /** The as-written field block of an empty key and value: empty strings with zero prefixes, 60 bytes of padding, and 51 for the reader. */
  lemma EmptyFieldBlock()
    ensures var b := NewFieldBlockAsWritten("", "");
      b.key == [] && b.value == [] && b.padding.amt == 60 && b.header.blockSize == 64
      && WriteFieldBlock(b) == WriteBlockHeader(b.header, Little) + [0, 0] + [0, 0] + WritePadding(b.padding)
    ensures PaddingAmount(FieldAlign, BlockHeaderSize + StringSize([]) + StringSize([])) == 51
  {
    PowValues();
    assert PrefixKind(MaxFieldSize) == U16;
    LittleU16ReadBig(0, []);
    WriteLengthPrefixedFits(MaxFieldSize, [], Little);
  }

  /**
   * A type byte of 3 to 255 at the start of a block makes the derived
   * readers of every block panic, however few bytes follow it, where the
   * corrected ones return `InvalidData`.
   */
  lemma UnknownBlockTypePanics(input: seq<byte>)
    requires |input| >= 1 && input[0] >= 3
    ensures ReadBlockHeaderAsWritten(input, Little) == Panics
    ensures ReadEntryBlockAsWritten(input) == Panics && ReadFieldBlockAsWritten(input) == Panics
    ensures ReadBlockHeader(input, Little) == Err(InvalidData)
    ensures ReadEntryBlock(input) == Err(InvalidData) && ReadFieldBlock(input) == Err(InvalidData)
  {
  }

  /** The smallest such input: the type byte 3 alone, and the nine-byte header with it and a zero size. */
  lemma TypeThreePanics()
    ensures ReadBlockHeaderAsWritten([3], Little) == Panics
    ensures ReadBlockHeader([3], Little) == Err(InvalidData)
    ensures ReadBlockHeaderAsWritten([3, 0, 0, 0, 0, 0, 0, 0, 0], Little) == Panics
    ensures ReadBlockHeader([3, 0, 0, 0, 0, 0, 0, 0, 0], Little) == Err(InvalidData)
  {
    UnknownBlockTypePanics([3]);
    UnknownBlockTypePanics([3, 0, 0, 0, 0, 0, 0, 0, 0]);
  }

  /** As written, a zero prefix reads as the empty string whatever its order. */
  lemma EmptyPrefixAsWritten(rest: seq<byte>)
    ensures ReadLengthPrefixedAsWritten(MaxFieldSize, [0, 0] + rest, Little) == Ok(([], rest))
  {
    PowValues();
    assert PrefixKind(MaxFieldSize) == U16;
    LittleU16ReadBig(0, rest);
    assert ValidUtf8([]);
  }
}
