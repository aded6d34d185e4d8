// The "newc" CPIO archive format of the initramfs builder: a 110-byte ASCII
// header per entry, the NUL-terminated name and the data, each padded to a
// 4-byte boundary, and a closing entry named TRAILER!!!.
module Cpio {
  import opened Wrappers
  import opened Bytes
  import Text

  const U32: nat := 0x1_0000_0000
  type u32 = x: int | 0 <= x < 0x1_0000_0000

  /** The ASCII bytes of the characters of s. */
  function AsciiBytes(s: string): (r: seq<byte>)
    requires forall i :: 0 <= i < |s| ==> (s[i] as int) < 0x80
    ensures |r| == |s| && IsAscii(r)
    ensures forall i :: 0 <= i < |s| ==> r[i] == s[i] as int
  {
    seq(|s|, i requires 0 <= i < |s| => s[i] as int)
  }

  /** The characters of ASCII bytes. */
  function AsciiChars(bs: seq<byte>): (s: string)
    requires IsAscii(bs)
    ensures |s| == |bs| && forall i :: 0 <= i < |bs| ==> s[i] as int == bs[i]
  {
    seq(|bs|, i requires 0 <= i < |bs| => bs[i] as char)
  }

  /** `CPIO_MAGIC`: "070701". */
  const Magic: seq<byte> := [0x30, 0x37, 0x30, 0x37, 0x30, 0x31]

  /** `HEADER_LENGTH`: the magic and 13 fields of 8 hex digits. */
  const HeaderLength: nat := |Magic| + 13 * 8

  /** `TRAILER_ENTRY_NAME`: "TRAILER!!!". */
  const TrailerName: seq<byte> := [0x54, 0x52, 0x41, 0x49, 0x4C, 0x45, 0x52, 0x21, 0x21, 0x21]

  const Alignment: nat := 4

  /** `EntryHeader`: the twelve numeric fields, in the order they are written. */
  datatype Header = Header(
    inode: u32, mode: u32, uid: u32, gid: u32, nlink: u32, mtime: u32, size: u32,
    devmajor: u32, devminor: u32, rdevmajor: u32, rdevminor: u32,
    /** The length of the name, its NUL terminator included. */
    namesize: u32)

  function Fields(h: Header): (fs: seq<u32>)
    ensures |fs| == 12
  {
    [h.inode, h.mode, h.uid, h.gid, h.nlink, h.mtime, h.size,
     h.devmajor, h.devminor, h.rdevmajor, h.rdevminor, h.namesize]
  }

  function HeaderOf(fs: seq<u32>): (h: Header)
    requires |fs| == 12
    ensures Fields(h) == fs
  {
    Header(fs[0], fs[1], fs[2], fs[3], fs[4], fs[5], fs[6], fs[7], fs[8], fs[9], fs[10], fs[11])
  }

  /** `Entry`: a header, the name (the bytes of a UTF-8 string) and the file data. */
  datatype Entry = Entry(header: Header, name: seq<byte>, data: seq<byte>)

  /** What reading can give instead of a value: the reader running dry, or a bad magic or number. */
  datatype CpioError = UnexpectedEof | InvalidData

  /** `num_padding_bytes`: how many bytes bring n up to a multiple of p. */
  function NumPaddingBytes(n: nat, p: nat): (r: nat)
    requires p > 0
    ensures r < p && (n + r) % p == 0
  {
    var m := n % p;
    if m == 0 then
      ModUnique(p, p, 1, 0);
      (p - m) % p
    else
      ModUnique(p - m, p, 0, p - m);
      assert n + (p - m) == (n / p + 1) * p + 0;
      ModUnique(n + (p - m), p, n / p + 1, 0);
      (p - m) % p
  }

  // ----- numbers as eight hex digits -----

  lemma Pow16Eight()
    ensures Text.Pow16(8) == U32
  {
    assert Text.Pow16(4) == 0x1_0000;
    assert Text.Pow16(8) == 0x1_0000 * Text.Pow16(4) by {
      assert Text.Pow16(8) == 16 * 16 * 16 * 16 * Text.Pow16(4);
    }
  }

  predicate IsHexDigitByte(b: byte)
  {
    (0x30 <= b <= 0x39) || (0x61 <= b <= 0x66) || (0x41 <= b <= 0x46)
  }

  /** `format!("{:08x}", n)`: eight lower-case hex digits, as bytes. */
  function HexField(n: u32): (r: seq<byte>)
    ensures |r| == 8 && IsAscii(r)
    ensures forall i :: 0 <= i < 8 ==> (0x30 <= r[i] <= 0x39 || 0x61 <= r[i] <= 0x66)
  {
    Pow16Eight();
    AsciiBytes(Text.HexString(n, 8))
  }

  /**
   * `read_ascii_uint32` on eight bytes already read: `from_utf8` and then
   * `u32::from_str_radix(_, 16)`, which takes an optional '+' and hex digits
   * of either case; a failure of either step is InvalidData.
   */
  function ParseField(bs: seq<byte>): (r: Result<u32, CpioError>)
    requires |bs| == 8
    ensures r.Err? ==> r.error == InvalidData
    ensures r.Ok? ==> (bs[0] == 0x2B || IsHexDigitByte(bs[0])) && forall i :: 1 <= i < 8 ==> IsHexDigitByte(bs[i])
    ensures (forall i :: 0 <= i < 8 ==> IsHexDigitByte(bs[i])) ==> r.Ok?
  {
    if !IsAscii(bs) then Err(InvalidData)
    else
      var s := AsciiChars(bs);
      assert forall i :: 0 <= i < 8 ==> (Text.DigitValue(s[i], 16) >= 0 <==> IsHexDigitByte(bs[i]));
      HexDigitsBound(s);
      Pow16Eight();
      match Text.ParseUnsigned(s, 16, Text.U32_MAX)
      case None => Err(InvalidData)
      case Some(v) =>
        assert s[0] == '+' ==> s[1..] == AsciiChars(bs[1..]);
        Ok(v)
  }

  lemma {:induction false} HexDigitsBound(s: string)
    ensures Text.AllDigits(s, 16) ==> Text.DigitsValue(s, 16) < Text.Pow16(|s|)
  {
    if s != [] && Text.AllDigits(s, 16) {
      var init := s[..|s| - 1];
      assert Text.AllDigits(init, 16) by {
        assert forall i :: 0 <= i < |init| ==> init[i] == s[i];
      }
      HexDigitsBound(init);
    }
  }

  /** Reading back a written field gives the number. */
  lemma ParseHexField(n: u32)
    ensures ParseField(HexField(n)) == Ok(n)
  {
    Pow16Eight();
    var s := Text.HexString(n, 8);
    assert AsciiChars(HexField(n)) == s;
    Text.ParseHexString(n, 8, Text.U32_MAX);
  }

  // ----- reading a byte stream -----

  /** `read_exact`: the next n bytes and what is left, or the end of the input. */
  function ReadExact(r: seq<byte>, n: nat): (res: Result<(seq<byte>, seq<byte>), CpioError>)
    ensures res.Ok? <==> n <= |r|
    ensures res.Ok? ==> |res.value.0| == n && res.value.0 + res.value.1 == r
    ensures res.Err? ==> res.error == UnexpectedEof
  {
    if n <= |r| then Ok((r[..n], r[n..])) else Err(UnexpectedEof)
  }

  lemma ReadExactPrefix(a: seq<byte>, b: seq<byte>)
    ensures ReadExact(a + b, |a|) == Ok((a, b))
  {
    assert (a + b)[..|a|] == a && (a + b)[|a|..] == b;
  }

  /** `read_ascii_uint32`: eight bytes, parsed. */
  function ReadField(r: seq<byte>): (res: Result<(u32, seq<byte>), CpioError>)
    ensures res.Ok? ==> |res.value.1| + 8 == |r| && res.value.1 == r[8..]
  {
    match ReadExact(r, 8)
    case Err(e) => Err(e)
    case Ok((bs, rest)) =>
      match ParseField(bs)
      case Err(e) => Err(e)
      case Ok(v) => Ok((v, rest))
  }

  /** k fields, one after the other; the first failure stops the read. */
  function ReadFields(r: seq<byte>, k: nat): (res: Result<(seq<u32>, seq<byte>), CpioError>)
    ensures res.Ok? ==> |res.value.0| == k && |res.value.1| + 8 * k == |r|
  {
    if k == 0 then Ok(([], r))
    else
      match ReadField(r)
      case Err(e) => Err(e)
      case Ok((v, rest)) =>
        match ReadFields(rest, k - 1)
        case Err(e) => Err(e)
        case Ok((vs, rest')) => Ok(([v] + vs, rest'))
  }

  /** `EntryHeader::read`: the magic, then the twelve fields. */
  function ReadHeader(r: seq<byte>): (res: Result<(Header, seq<byte>), CpioError>)
    ensures res.Ok? ==> |res.value.1| + 102 == |r|
    ensures |r| >= 6 && r[..6] != Magic ==> res == Err(InvalidData)
  {
    match ReadExact(r, 6)
    case Err(e) => Err(e)
    case Ok((m, rest)) =>
      if m != Magic then Err(InvalidData)
      else
        match ReadFields(rest, 12)
        case Err(e) => Err(e)
        case Ok((fs, rest')) => Ok((HeaderOf(fs), rest'))
  }

  /** `trim_end_matches('\0')`: the name without its trailing NUL bytes. */
  function TrimNuls(bs: seq<byte>): (r: seq<byte>)
    ensures |r| <= |bs| && r == bs[..|r|]
    ensures r == [] || r[|r| - 1] != 0
    ensures forall i :: |r| <= i < |bs| ==> bs[i] == 0
  {
    if bs != [] && bs[|bs| - 1] == 0 then TrimNuls(bs[..|bs| - 1]) else bs
  }

  /**
   * `Entry::read` after the header: the checksum field (read and ignored),
   * the name and its padding, the data and its padding; then the name is
   * decoded as UTF-8, where `unwrap` panics on a name that is not, and its
   * trailing NULs dropped.
   */
  function ReadBody(h: Header, r: seq<byte>): (res: Outcome<Result<(Entry, seq<byte>), CpioError>>)
    ensures res.Returns? && res.value.Ok? ==> |res.value.value.1| + 8 <= |r|
    ensures res.Returns? && res.value.Ok? ==> 8 + h.namesize <= |r| && ValidUtf8(r[8..8 + h.namesize])
    ensures res.Panics? ==> 8 + h.namesize <= |r| && !ValidUtf8(r[8..8 + h.namesize])
  {
    match ReadField(r)
    case Err(e) => Returns(Err(e))
    case Ok((_, r2)) =>
      match ReadExact(r2, h.namesize)
      case Err(e) => Returns(Err(e))
      case Ok((namebuf, r3)) =>
        assert namebuf == r2[..h.namesize] == r[8..8 + h.namesize];
        match ReadExact(r3, NumPaddingBytes(HeaderLength + h.namesize, Alignment))
        case Err(e) => Returns(Err(e))
        case Ok((_, r4)) =>
          match ReadExact(r4, h.size)
          case Err(e) => Returns(Err(e))
          case Ok((data, r5)) =>
            match ReadExact(r5, NumPaddingBytes(h.size, Alignment))
            case Err(e) => Returns(Err(e))
            case Ok((_, r6)) =>
              if !ValidUtf8(namebuf) then Panics
              else Returns(Ok((Entry(h, TrimNuls(namebuf), data), r6)))
  }

  /** The bytes a body takes: the checksum field, the name and the data, each padded. */
  function BodyLength(h: Header): nat
  {
    8 + h.namesize + NumPaddingBytes(HeaderLength + h.namesize, Alignment)
      + h.size + NumPaddingBytes(h.size, Alignment)
  }

  /** A body whose bytes are all there and whose name is not UTF-8 makes the `unwrap` panic. */
  lemma NonUtf8NamePanics(h: Header, r: seq<byte>)
    requires BodyLength(h) <= |r| && !ValidUtf8(r[8..8 + h.namesize])
    requires ReadField(r).Ok?
    ensures ReadBody(h, r) == Panics
  {
    var n := h.namesize;
    var p1 := NumPaddingBytes(HeaderLength + n, Alignment);
    var r2 := r[8..];
    assert r2[..n] == r[8..8 + n] && r2[n..] == r[8 + n..];
    var r3 := r[8 + n..];
    assert r3[p1..] == r[8 + n + p1..];
    var r4 := r[8 + n + p1..];
    assert r4[h.size..] == r[8 + n + p1 + h.size..];
  }

  /** `Entry::read`: the header, then the rest of the entry. */
  function ReadEntry(r: seq<byte>): (res: Outcome<Result<(Entry, seq<byte>), CpioError>>)
    ensures res.Returns? && res.value.Ok? ==> |res.value.value.1| + HeaderLength <= |r|
    ensures |r| >= 6 && r[..6] != Magic ==> res == Returns(Err(InvalidData))
  {
    match ReadHeader(r)
    case Err(e) => Returns(Err(e))
    case Ok((h, r1)) => ReadBody(h, r1)
  }

  /** A header whose first field ends in a byte that is not a hex digit is refused as InvalidData. */
  lemma ReadEntryBadField(r: seq<byte>)
    requires |r| >= 14 && r[..6] == Magic && !IsHexDigitByte(r[13])
    ensures ReadEntry(r) == Returns(Err(InvalidData))
  {
    var rest := r[6..];
    assert ReadExact(r, 6) == Ok((Magic, rest));
    assert ReadExact(rest, 8).value.0 == r[6..14];
    assert ParseField(r[6..14]).Err?;
  }

  // ----- writing -----

  function HexFields(ns: seq<u32>): (r: seq<byte>)
    ensures |r| == 8 * |ns|
  {
    if ns == [] then [] else HexField(ns[0]) + HexFields(ns[1..])
  }

  /** `format!("{:08x}", 0)`: the checksum field, always zero. */
  const ZeroField: seq<byte> := [0x30, 0x30, 0x30, 0x30, 0x30, 0x30, 0x30, 0x30]

  lemma ZeroFieldReads(rest: seq<byte>)
    ensures ReadField(ZeroField + rest) == Ok((0, rest))
  {
    ReadExactPrefix(ZeroField, rest);
    var s := AsciiChars(ZeroField);
    assert forall i :: 0 <= i < |s| ==> s[i] == '0';
    ZeroDigits(s);
  }

  lemma {:induction false} ZeroDigits(s: string)
    requires forall i :: 0 <= i < |s| ==> s[i] == '0'
    ensures Text.AllDigits(s, 16) && Text.DigitsValue(s, 16) == 0
  {
    if s != [] {
      ZeroDigits(s[..|s| - 1]);
    }
  }

  /** `EntryHeader::write`: the magic, the twelve fields and a zero checksum. */
  function WriteHeader(h: Header): (r: seq<byte>)
    ensures |r| == HeaderLength == 110
  {
    Magic + HexFields(Fields(h)) + ZeroField
  }

  lemma SliceRight<T>(a: seq<T>, b: seq<T>, x: nat, y: nat)
    requires |a| <= x <= y <= |a| + |b|
    ensures (a + b)[x..y] == b[x - |a|..y - |a|]
  {
  }

  lemma SliceLeft<T>(a: seq<T>, b: seq<T>, x: nat, y: nat)
    requires x <= y <= |a|
    ensures (a + b)[x..y] == a[x..y]
  {
  }

  lemma {:induction false} HexFieldsSlices(ns: seq<u32>, i: nat)
    requires i < |ns|
    ensures HexFields(ns)[8 * i..8 * i + 8] == HexField(ns[i])
  {
    var h := HexField(ns[0]);
    var t := HexFields(ns[1..]);
    assert HexFields(ns) == h + t;
    if i == 0 {
      SliceLeft(h, t, 0, 8);
      assert h[0..8] == h;
    } else {
      HexFieldsSlices(ns[1..], i - 1);
      SliceRight(h, t, 8 * i, 8 * i + 8);
    }
  }

  /** The written header is the magic, then each field as eight hex digits, then "00000000". */
  lemma WriteHeaderLayout(h: Header, i: nat)
    requires i < 12
    ensures WriteHeader(h)[..6] == Magic
    ensures WriteHeader(h)[6 + 8 * i..14 + 8 * i] == HexField(Fields(h)[i])
    ensures WriteHeader(h)[102..] == [0x30, 0x30, 0x30, 0x30, 0x30, 0x30, 0x30, 0x30]
  {
    var fs := HexFields(Fields(h));
    var z := ZeroField;
    var front := Magic + fs;
    assert WriteHeader(h) == front + z;
    HexFieldsSlices(Fields(h), i);
    SliceLeft(front, z, 6 + 8 * i, 14 + 8 * i);
    SliceRight(Magic, fs, 6 + 8 * i, 14 + 8 * i);
    SliceLeft(front, z, 0, 6);
    SliceLeft(Magic, fs, 0, 6);
    SliceRight(front, z, 102, 110);
    assert z[0..8] == z;
  }

  /** What follows the header: name, NUL, padding, data, padding. */
  function WriteBody(e: Entry): seq<byte>
  {
    e.name + [0] + Zeros(NumPaddingBytes(HeaderLength + e.header.namesize, Alignment))
    + e.data + Zeros(NumPaddingBytes(e.header.size, Alignment))
  }

  /** `Entry::write`: the header, then the body. */
  function WriteEntry(e: Entry): (r: seq<byte>)
    ensures |r| >= HeaderLength
  {
    WriteHeader(e.header) + WriteBody(e)
  }

  /** `trailer`: the closing entry. */
  function Trailer(): (e: Entry)
    ensures e.name == TrailerName && e.header.namesize == 11 && e.header.nlink == 1 && e.data == []
    ensures Fields(e.header) == [0, 0, 0, 0, 1, 0, 0, 0, 0, 0, 0, 11]
  {
    Entry(Header(0, 0, 0, 0, 1, 0, 0, 0, 0, 0, 0, |TrailerName| + 1), TrailerName, [])
  }

  // ----- round trips -----

  /** An entry that reads back as itself: the sizes agree with the name and data, the name is UTF-8 and does not end in NUL. */
  predicate WellFormed(e: Entry)
  {
    && e.header.namesize == |e.name| + 1
    && e.header.size == |e.data|
    && ValidUtf8(e.name)
    && (e.name == [] || e.name[|e.name| - 1] != 0)
  }

  lemma TrailerWellFormed()
    ensures WellFormed(Trailer())
  {
    AsciiIsValidUtf8(TrailerName);
  }

  lemma ReadHexField(n: u32, rest: seq<byte>)
    ensures ReadField(HexField(n) + rest) == Ok((n, rest))
  {
    ReadExactPrefix(HexField(n), rest);
    ParseHexField(n);
  }

  lemma {:induction false} ReadHexFields(ns: seq<u32>, rest: seq<byte>)
    ensures ReadFields(HexFields(ns) + rest, |ns|) == Ok((ns, rest))
  {
    if ns == [] {
      assert HexFields(ns) + rest == rest;
    } else {
      ReadHexFields(ns[1..], rest);
      ReadHexFieldsStep(ns, rest);
    }
  }

  lemma ReadHexFieldsStep(ns: seq<u32>, rest: seq<byte>)
    requires ns != []
    requires ReadFields(HexFields(ns[1..]) + rest, |ns[1..]|) == Ok((ns[1..], rest))
    ensures ReadFields(HexFields(ns) + rest, |ns|) == Ok((ns, rest))
  {
    var y := HexFields(ns[1..]) + rest;
    HexFieldsCons(ns, rest);
    ReadHexField(ns[0], y);
    ReadFieldsCons(HexFields(ns) + rest, y, ns[0], ns[1..], rest);
    HeadTail(ns);
  }

  lemma HexFieldsCons(ns: seq<u32>, rest: seq<byte>)
    requires ns != []
    ensures HexFields(ns) + rest == HexField(ns[0]) + (HexFields(ns[1..]) + rest)
  {
    AppendAssoc(HexField(ns[0]), HexFields(ns[1..]), rest);
  }

  /** One field read, then the others. */
  lemma ReadFieldsCons(r: seq<byte>, y: seq<byte>, v: u32, vs: seq<u32>, rest: seq<byte>)
    requires ReadField(r) == Ok((v, y))
    requires ReadFields(y, |vs|) == Ok((vs, rest))
    ensures ReadFields(r, |vs| + 1) == Ok(([v] + vs, rest))
  {
  }

  /** Reading a written header gives the header, with the checksum field left to read. */
  lemma ReadWrittenHeader(h: Header, rest: seq<byte>)
    ensures ReadHeader(WriteHeader(h) + rest) == Ok((h, ZeroField + rest))
  {
    var fs := HexFields(Fields(h));
    assert WriteHeader(h) + rest == Magic + (fs + (ZeroField + rest));
    ReadExactPrefix(Magic, fs + (ZeroField + rest));
    ReadHexFields(Fields(h), ZeroField + rest);
    assert HeaderOf(Fields(h)) == h;
  }

  lemma ValidWithNul(name: seq<byte>)
    requires ValidUtf8(name)
    ensures ValidUtf8(name + [0])
  {
    AsciiIsValidUtf8([0]);
    ValidUtf8Append(name, [0]);
  }

  /** Reading back a written body gives the entry. */
  lemma ReadWrittenBody(e: Entry, rest: seq<byte>)
    requires WellFormed(e)
    ensures ReadBody(e.header, ZeroField + (WriteBody(e) + rest)) == Returns(Ok((e, rest)))
  {
    var h := e.header;
    var pad1 := Zeros(NumPaddingBytes(HeaderLength + h.namesize, Alignment));
    var pad2 := Zeros(NumPaddingBytes(h.size, Alignment));
    var r5 := pad2 + rest;
    var r4 := e.data + r5;
    var r3 := pad1 + r4;
    var r2 := (e.name + [0]) + r3;
    assert WriteBody(e) + rest == r2;
    ZeroFieldReads(r2);
    ReadExactPrefix(e.name + [0], r3);
    ReadExactPrefix(pad1, r4);
    ReadExactPrefix(e.data, r5);
    ReadExactPrefix(pad2, rest);
    ValidWithNul(e.name);
    assert TrimNuls(e.name + [0]) == e.name by {
      assert (e.name + [0])[..|e.name|] == e.name;
    }
  }

  /** Reading back a written well-formed entry gives the entry, and stops right after it. */
  lemma ReadWrittenEntry(e: Entry, rest: seq<byte>)
    requires WellFormed(e)
    ensures ReadEntry(WriteEntry(e) + rest) == Returns(Ok((e, rest)))
  {
    var r1 := ZeroField + (WriteBody(e) + rest);
    assert WriteEntry(e) + rest == WriteHeader(e.header) + (WriteBody(e) + rest);
    ReadWrittenHeader(e.header, WriteBody(e) + rest);
    ReadWrittenBody(e, rest);
  }

  /** A written entry whose name, with its NUL, is not UTF-8 makes the reader panic. */
  lemma WrittenNonUtf8NamePanics(e: Entry, rest: seq<byte>)
    requires e.header.namesize == |e.name| + 1 && e.header.size == |e.data|
    requires !ValidUtf8(e.name + [0])
    ensures ReadEntry(WriteEntry(e) + rest) == Panics
  {
    var r := ZeroField + (WriteBody(e) + rest);
    assert WriteEntry(e) + rest == WriteHeader(e.header) + (WriteBody(e) + rest);
    ReadWrittenHeader(e.header, WriteBody(e) + rest);
    ZeroFieldReads(WriteBody(e) + rest);
    assert r[8..8 + e.header.namesize] == e.name + [0];
    NonUtf8NamePanics(e.header, r);
  }

  lemma Regroup<T>(a: seq<T>, b: seq<T>, c: seq<T>, d: seq<T>)
    ensures a + b + c + d == a + (b + c + d)
  {
  }


  // ----- archives -----

  /** The entries of an archive written one after the other. */
  function EntriesBytes(es: seq<Entry>): seq<byte>
  {
    if es == [] then [] else WriteEntry(es[0]) + EntriesBytes(es[1..])
  }

  /** `CPIOArchive::write`: every entry, then the trailer. */
  function ArchiveBytes(es: seq<Entry>): seq<byte>
  {
    EntriesBytes(es) + WriteEntry(Trailer())
  }

  /**
   * `CPIOArchive::read`: entries up to the first one named TRAILER!!!, which
   * is dropped; a panic while reading an entry ends everything.
   */
  function Archive(r: seq<byte>): (res: Outcome<Result<seq<Entry>, CpioError>>)
    decreases |r|
  {
    match ReadEntry(r)
    case Panics => Panics
    case Returns(Err(e)) => Returns(Err(e))
    case Returns(Ok((entry, rest))) =>
      if entry.name == TrailerName then Returns(Ok([]))
      else Prefixed([entry], Archive(rest))
  }

  /** Entries already read, in front of what the rest of the stream gives. */
  function Prefixed(es: seq<Entry>, res: Outcome<Result<seq<Entry>, CpioError>>): Outcome<Result<seq<Entry>, CpioError>>
  {
    match res
    case Panics => Panics
    case Returns(Err(e)) => Returns(Err(e))
    case Returns(Ok(more)) => Returns(Ok(es + more))
  }

  lemma PrefixedNothing(res: Outcome<Result<seq<Entry>, CpioError>>)
    ensures Prefixed([], res) == res
  {
    if res.Returns? && res.value.Ok? {
      assert [] + res.value.value == res.value.value;
    }
  }

  lemma PrefixedTwice(a: seq<Entry>, b: seq<Entry>, res: Outcome<Result<seq<Entry>, CpioError>>)
    ensures Prefixed(a, Prefixed(b, res)) == Prefixed(a + b, res)
  {
    if res.Returns? && res.value.Ok? {
      AppendAssoc(a, b, res.value.value);
    }
  }

  /** One step of `Archive`: a panic, an error, the trailer, or an entry before the rest of the archive. */
  lemma ArchiveStep(r: seq<byte>)
    ensures ReadEntry(r).Panics? ==> Archive(r) == Panics
    ensures ReadEntry(r).Returns? && ReadEntry(r).value.Err? ==> Archive(r) == Returns(Err(ReadEntry(r).value.error))
    ensures ReadEntry(r).Returns? && ReadEntry(r).value.Ok? && ReadEntry(r).value.value.0.name == TrailerName ==>
      Archive(r) == Returns(Ok([]))
    ensures ReadEntry(r).Returns? && ReadEntry(r).value.Ok? && ReadEntry(r).value.value.0.name != TrailerName ==>
      Archive(r) == Prefixed([ReadEntry(r).value.value.0], Archive(ReadEntry(r).value.value.1))
  {
  }

  /** An entry whose name is not UTF-8 ends the archive in a panic, whatever entries came before it. */
  lemma ArchivePanics(es: seq<Entry>, r: seq<byte>)
    requires ReadEntry(r).Panics?
    ensures Prefixed(es, Archive(r)) == Panics
  {
    ArchiveStep(r);
  }

  method ReadArchive(input: seq<byte>) returns (res: Outcome<Result<seq<Entry>, CpioError>>)
    ensures res == Archive(input)
  {
    var entries: seq<Entry> := [];
    var reader := input;
    PrefixedNothing(Archive(input));
    while true
      invariant Prefixed(entries, Archive(reader)) == Archive(input)
      decreases |reader|
    {
      var next := ReadEntry(reader);
      ArchiveStep(reader);
      if next.Panics? {
        return Panics;
      }
      if next.value.Err? {
        return Returns(Err(next.value.error));
      }
      var (entry, rest) := next.value.value;
      if entry.name == TrailerName {
        assert entries + [] == entries;
        return Returns(Ok(entries));
      }
      PrefixedTwice(entries, [entry], Archive(rest));
      entries := entries + [entry];
      reader := rest;
    }
  }

  lemma {:induction false} EntriesBytesSnoc(es: seq<Entry>, e: Entry)
    ensures EntriesBytes(es + [e]) == EntriesBytes(es) + WriteEntry(e)
  {
    if es == [] {
      assert es + [e] == [e];
      assert EntriesBytes([e]) == WriteEntry(e) + EntriesBytes([]);
    } else {
      EntriesBytesSnoc(es[1..], e);
      assert (es + [e])[1..] == es[1..] + [e];
      AppendAssoc(WriteEntry(es[0]), EntriesBytes(es[1..]), WriteEntry(e));
    }
  }

  method WriteArchive(entries: seq<Entry>) returns (out: seq<byte>)
    ensures out == ArchiveBytes(entries)
  {
    out := [];
    for i := 0 to |entries|
      invariant out == EntriesBytes(entries[..i])
    {
      EntriesBytesSnoc(entries[..i], entries[i]);
      assert entries[..i + 1] == entries[..i] + [entries[i]];
      out := out + WriteEntry(entries[i]);
    }
    assert entries[..|entries|] == entries;
    out := out + WriteEntry(Trailer());
  }

  /** Every entry reads back as itself and none is named like the trailer. */
  predicate ReadsBack(es: seq<Entry>)
  {
    es == [] || (WellFormed(es[0]) && es[0].name != TrailerName && ReadsBack(es[1..]))
  }

  lemma ConsSplit<T>(s: seq<T>)
    requires s != []
    ensures [s[0]] + s[1..] == s
  {
  }

  /**
   * Reading back a written archive gives its entries, as long as each reads
   * back as itself and none is named like the trailer.
   */
  lemma {:induction false} ReadWrittenArchive(es: seq<Entry>, rest: seq<byte>)
    requires ReadsBack(es)
    ensures Archive(ArchiveBytes(es) + rest) == Returns(Ok(es))
  {
    if es == [] {
      ReadWrittenTrailer(rest);
    } else {
      ReadWrittenArchive(es[1..], rest);
      ReadWrittenArchiveStep(es, rest);
    }
  }

  /** Only the trailer written: nothing to read. */
  lemma ReadWrittenTrailer(rest: seq<byte>)
    ensures Archive(ArchiveBytes([]) + rest) == Returns(Ok([]))
  {
    var t := WriteEntry(Trailer());
    assert ArchiveBytes([]) == [] + t;
    assert [] + t == t;
    TrailerWellFormed();
    ReadWrittenEntry(Trailer(), rest);
    ArchiveStep(t + rest);
  }

  lemma ReadWrittenArchiveStep(es: seq<Entry>, rest: seq<byte>)
    requires es != [] && ReadsBack(es)
    requires Archive(ArchiveBytes(es[1..]) + rest) == Returns(Ok(es[1..]))
    ensures Archive(ArchiveBytes(es) + rest) == Returns(Ok(es))
  {
    var x := ArchiveBytes(es) + rest;
    var y := ArchiveBytes(es[1..]) + rest;
    var w0, e1, t := WriteEntry(es[0]), EntriesBytes(es[1..]), WriteEntry(Trailer());
    assert EntriesBytes(es) == w0 + e1;
    Regroup(w0, e1, t, rest);
    ReadWrittenEntry(es[0], y);
    ArchiveStep(x);
    ConsSplit(es);
  }

  // ----- file name prefixes -----

  const Slash: byte := 0x2F
  const Dot: seq<byte> := [0x2E]

  /** The pieces of a path that are normal components: not empty, not ".". */
  function Normals(pieces: seq<seq<byte>>): (cs: seq<seq<byte>>)
    ensures forall i :: 0 <= i < |cs| ==> cs[i] != [] && cs[i] != Dot
  {
    if pieces == [] then []
    else (if pieces[0] == [] || pieces[0] == Dot then [] else [pieces[0]]) + Normals(pieces[1..])
  }

  /**
   * `Path::components`, each as its bytes: the root as "/", a leading "."
   * of a relative path kept, later "." and empty pieces dropped.
   */
  function Components(p: seq<byte>): (cs: seq<seq<byte>>)
  {
    var pieces := Text.Split(p, Slash);
    if |p| > 0 && p[0] == Slash then [[Slash]] + Normals(pieces)
    else if pieces[0] == Dot then [Dot] + Normals(pieces[1..])
    else Normals(pieces)
  }

  /** A path spelling out components: the root, then the rest joined by "/". */
  function Rebuild(cs: seq<seq<byte>>): seq<byte>
  {
    if cs != [] && cs[0] == [Slash] then [Slash] + Text.Join(cs[1..], Slash)
    else Text.Join(cs, Slash)
  }

  /** `name.len() as u32 + 1`, wrapping as release builds do. */
  function NameSize(name: seq<byte>): (n: u32)
    ensures |name| + 1 < U32 ==> n == |name| + 1
  {
    (|name| % U32 + 1) % U32
  }

  /**
   * `Entry::trim_file_prefix`: a name that is the prefix itself becomes "."
   * (namesize 2); a name under the prefix loses it; any other name stays.
   */
  function TrimFilePrefix(e: Entry, prefix: seq<byte>): (r: Entry)
    ensures r.data == e.data
    ensures Fields(r.header)[..11] == Fields(e.header)[..11]
    ensures Components(e.name) == Components(prefix) ==> r.name == Dot && r.header.namesize == 2
    ensures Components(e.name) != Components(prefix) && Components(prefix) <= Components(e.name) ==>
      && r.name == Rebuild(Components(e.name)[|Components(prefix)|..])
      && r.header.namesize == NameSize(r.name)
    ensures !(Components(prefix) <= Components(e.name)) ==> r == e
  {
    var c := Components(e.name);
    var pc := Components(prefix);
    if c == pc then e.(name := Dot, header := e.header.(namesize := 2))
    else if pc <= c then
      var n := Rebuild(c[|pc|..]);
      e.(name := n, header := e.header.(namesize := NameSize(n)))
    else e
  }

  /** Components a path can have: the root or a "." only first, then normal pieces without "/". */
  predicate ComponentsShape(cs: seq<seq<byte>>)
  {
    var start := if cs != [] && (cs[0] == [Slash] || cs[0] == Dot) then 1 else 0;
    forall i :: start <= i < |cs| ==> cs[i] != [] && cs[i] != Dot && Slash !in cs[i]
  }

  lemma {:induction false} NormalsOfNormal(cs: seq<seq<byte>>)
    requires forall i :: 0 <= i < |cs| ==> cs[i] != [] && cs[i] != Dot
    ensures Normals(cs) == cs
  {
    if cs != [] {
      NormalsOfNormal(cs[1..]);
      assert [cs[0]] + cs[1..] == cs;
    }
  }

  lemma {:induction false} NormalsDropEmpty(cs: seq<seq<byte>>)
    requires cs != [] && cs[0] == []
    ensures Normals(cs) == Normals(cs[1..])
  {
  }

  lemma {:induction false} ComponentsShaped(p: seq<byte>)
    ensures ComponentsShape(Components(p))
  {
    var pieces := Text.Split(p, Slash);
    var cs := Components(p);
    assert forall i :: 0 <= i < |pieces| ==> Slash !in pieces[i];
    NormalsSubset(pieces);
    NormalsSubset(pieces[1..]);
    assert forall x :: x in pieces[1..] ==> x in pieces;
    var ns := if |p| > 0 && p[0] == Slash then Normals(pieces)
              else if pieces[0] == Dot then Normals(pieces[1..]) else Normals(pieces);
    assert forall i :: 0 <= i < |ns| ==> ns[i] != [] && ns[i] != Dot && Slash !in ns[i] by {
      forall i | 0 <= i < |ns|
        ensures Slash !in ns[i]
      {
        assert ns[i] in pieces;
      }
    }
    if |p| > 0 && p[0] == Slash {
      assert cs == [[Slash]] + ns;
    } else if pieces[0] == Dot {
      assert cs == [Dot] + ns;
    } else {
      assert cs == ns;
      if cs != [] {
        assert Slash in [Slash];
        assert cs[0] != [Slash];
      }
    }
  }

  lemma {:induction false} NormalsSubset(pieces: seq<seq<byte>>)
    ensures forall x :: x in Normals(pieces) ==> x in pieces
  {
    if pieces != [] {
      NormalsSubset(pieces[1..]);
    }
  }

  /** Components of the normal pieces joined by "/" are those pieces. */
  lemma JoinedNormals(cs: seq<seq<byte>>)
    requires forall i :: 0 <= i < |cs| ==> cs[i] != [] && cs[i] != Dot && Slash !in cs[i]
    ensures Normals(Text.Split(Text.Join(cs, Slash), Slash)) == cs
  {
    if cs == [] {
      assert Text.Split(Text.Join(cs, Slash), Slash) == [[]];
      assert Normals([[]]) == [] + Normals([]);
    } else {
      Text.SplitJoin(cs, Slash);
      NormalsOfNormal(cs);
    }
  }

  /** Rebuilding a path from its components gives back the same components. */
  lemma RebuildComponents(cs: seq<seq<byte>>)
    requires ComponentsShape(cs)
    ensures Components(Rebuild(cs)) == cs
  {
    if cs != [] && cs[0] == [Slash] {
      RebuildRooted(cs);
    } else if cs != [] && cs[0] == Dot {
      RebuildDotted(cs);
    } else {
      RebuildRelative(cs);
    }
  }

  lemma RebuildRooted(cs: seq<seq<byte>>)
    requires ComponentsShape(cs) && cs != [] && cs[0] == [Slash]
    ensures Components(Rebuild(cs)) == cs
  {
    var rest := cs[1..];
    var j := Text.Join(rest, Slash);
    JoinedNormals(rest);
    Text.SplitPrefix([], j, Slash);
    assert [] + [Slash] + j == [Slash] + j;
    assert Text.Split([Slash] + j, Slash) == [[]] + Text.Split(j, Slash);
    NormalsDropEmpty([[]] + Text.Split(j, Slash));
    assert ([[]] + Text.Split(j, Slash))[1..] == Text.Split(j, Slash);
    assert [[Slash]] + rest == cs;
  }

  lemma RebuildDotted(cs: seq<seq<byte>>)
    requires ComponentsShape(cs) && cs != [] && cs[0] == Dot
    ensures Components(Rebuild(cs)) == cs
  {
    var rest := cs[1..];
    var j := Text.Join(rest, Slash);
    JoinedNormals(rest);
    if rest == [] {
      assert Text.Join(cs, Slash) == Dot;
      Text.SplitNoSep(Dot, Slash);
      assert [Dot] + rest == cs;
    } else {
      assert Text.Join(cs, Slash) == Dot + [Slash] + j;
      Text.SplitPrefix(Dot, j, Slash);
      assert ([Dot] + Text.Split(j, Slash))[1..] == Text.Split(j, Slash);
      assert [Dot] + rest == cs;
    }
  }

  lemma RebuildRelative(cs: seq<seq<byte>>)
    requires ComponentsShape(cs) && !(cs != [] && (cs[0] == [Slash] || cs[0] == Dot))
    ensures Components(Rebuild(cs)) == cs
  {
    JoinedNormals(cs);
    var j := Text.Join(cs, Slash);
    assert Rebuild(cs) == j;
    if cs != [] {
      JoinHead(cs);
      Text.SplitJoin(cs, Slash);
      assert j[0] == cs[0][0];
      assert Slash !in cs[0];
      assert Text.Split(j, Slash)[0] != Dot;
    }
  }

  lemma JoinHead(cs: seq<seq<byte>>)
    requires cs != [] && cs[0] != []
    ensures |Text.Join(cs, Slash)| > 0 && Text.Join(cs, Slash)[0] == cs[0][0]
  {
  }

  /** A stripped name put back under the prefix has the original name's components. */
  lemma TrimmedComponents(e: Entry, prefix: seq<byte>)
    requires Components(prefix) <= Components(e.name) && Components(e.name) != Components(prefix)
    ensures Components(prefix) + Components(TrimFilePrefix(e, prefix).name) == Components(e.name)
  {
    var cs := Components(e.name);
    var k := |Components(prefix)|;
    ComponentsShaped(e.name);
    SuffixShaped(cs, k);
    RebuildComponents(cs[k..]);
    assert TrimFilePrefix(e, prefix).name == Rebuild(cs[k..]);
    assert cs[..k] + cs[k..] == cs;
  }

  lemma SuffixShaped(cs: seq<seq<byte>>, k: nat)
    requires ComponentsShape(cs) && k <= |cs|
    ensures ComponentsShape(cs[k..])
  {
    if k > 0 {
      assert forall i :: 0 <= i < |cs| - k ==> cs[k..][i] == cs[i + k];
    }
  }
}
