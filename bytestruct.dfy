// The bytestruct codecs: fixed-width integers in either byte order,
// NUL-terminated and length-prefixed strings, vectors with a u64 count, and
// alignment padding. A source is modelled as the bytes it still holds, so a
// read returns its value together with the bytes left over; a target is the
// byte string a write appends.
module ByteStruct {
  import opened Wrappers
  import opened Bytes

  /** The `io::ErrorKind`s the codecs produce. */
  datatype IoError = UnexpectedEof | InvalidData | InvalidInput

  /** The outcome of a read: the value and the bytes left in the source. */
  type Read<T> = Result<(T, seq<byte>), IoError>

  /** `read_exact` into an n-byte buffer. */
  function ReadBytes(input: seq<byte>, n: nat): (r: Read<seq<byte>>)
    ensures r.Ok? <==> n <= |input|
    ensures r.Err? ==> r.error == UnexpectedEof
    ensures r.Ok? ==> r.value.0 + r.value.1 == input && |r.value.0| == n
  {
    if |input| < n then Err(UnexpectedEof) else Ok((input[..n], input[n..]))
  }

  lemma ReadBytesPrefix(a: seq<byte>, b: seq<byte>)
    ensures ReadBytes(a + b, |a|) == Ok((a, b))
  {
    assert (a + b)[..|a|] == a && (a + b)[|a|..] == b;
  }

  // ----- integers -----

  datatype IntKind = U8 | U16 | U32 | U64 | I16 | I32 | I64

  /** `Size::size` of every integer type: its width in bytes. */
  function Width(k: IntKind): (w: nat)
    ensures w == 1 || w == 2 || w == 4 || w == 8
  {
    match k
    case U8 => 1
    case U16 | I16 => 2
    case U32 | I32 => 4
    case U64 | I64 => 8
  }

  predicate Signed(k: IntKind)
  {
    k == I16 || k == I32 || k == I64
  }

  /** The values of the Rust integer type k. */
  predicate InRange(k: IntKind, x: int)
  {
    if Signed(k) then 0 <= x + Modulus(k) / 2 && x < Modulus(k) / 2
    else 0 <= x < Modulus(k)
  }

  /** The number of values of a k-sized integer, 2^(8 * Width(k)). */
  function Modulus(k: IntKind): nat
  {
    match k
    case U8 => 0x100
    case U16 | I16 => 0x1_0000
    case U32 | I32 => 0x1_0000_0000
    case U64 | I64 => 0x1_0000_0000_0000_0000
  }

  lemma ModulusIsPow(k: IntKind)
    ensures Modulus(k) == Pow(256, Width(k))
  {
    PowValues();
  }

  /** `write_to_with_endian` of an integer: `to_be_bytes` or `to_le_bytes`; a u8 ignores the order. */
  function WriteInt(k: IntKind, x: int, e: Endian): (r: seq<byte>)
    requires InRange(k, x)
    ensures |r| == Width(k)
  {
    ModulusIsPow(k);
    if k == U8 then [x]
    else if Signed(k) then Encode(ToTwos(x, Width(k)), Width(k), e)
    else Encode(x, Width(k), e)
  }

  /** `read_from_with_endian` of an integer: `read_exact` of its width, then `from_be_bytes` or `from_le_bytes`. */
  function ReadInt(k: IntKind, input: seq<byte>, e: Endian): (r: Read<int>)
    ensures r.Ok? <==> |input| >= Width(k)
    ensures r.Err? ==> r.error == UnexpectedEof
    ensures r.Ok? ==> InRange(k, r.value.0) && r.value.1 == input[Width(k)..]
  {
    ModulusIsPow(k);
    var w := Width(k);
    if |input| < w then Err(UnexpectedEof)
    else
      var n := if k == U8 then input[0] else Decode(input[..w], e);
      Ok((if Signed(k) then FromTwos(n, w) else n, input[w..]))
  }

  /** Reading back a written integer in the same byte order gives the value and leaves what followed. */
  lemma ReadWriteInt(k: IntKind, x: int, e: Endian, rest: seq<byte>)
    requires InRange(k, x)
    ensures ReadInt(k, WriteInt(k, x, e) + rest, e) == Ok((x, rest))
  {
    ModulusIsPow(k);
    var w := Width(k);
    var bs := WriteInt(k, x, e);
    assert (bs + rest)[..w] == bs;
    assert (bs + rest)[w..] == rest;
    if k != U8 {
      if Signed(k) {
        DecodeEncode(ToTwos(x, w), w, e);
        FromToTwos(x, w);
      } else {
        DecodeEncode(x, w, e);
      }
    }
  }

  /** Conversely, a successful read consumed exactly the encoding of the value it returned. */
  lemma WriteReadInt(k: IntKind, input: seq<byte>, e: Endian)
    requires |input| >= Width(k)
    ensures var (x, rest) := ReadInt(k, input, e).value; WriteInt(k, x, e) + rest == input
  {
    ModulusIsPow(k);
    var w := Width(k);
    assert input == input[..w] + input[w..];
    if k != U8 {
      EncodeDecode(input[..w], e);
      if Signed(k) {
        ToFromTwos(Decode(input[..w], e), w);
      }
    }
  }

  // ----- NullTerminatedString<MAX_SIZE> -----

  /** The index of the first NUL byte, or |s| when there is none. */
  function FirstNul(s: seq<byte>): (k: nat)
    ensures k <= |s|
    ensures forall i :: 0 <= i < k ==> s[i] != 0
    ensures k < |s| ==> s[k] == 0
  {
    if s == [] || s[0] == 0 then 0 else 1 + FirstNul(s[1..])
  }

  lemma FirstNulUnique(s: seq<byte>, k: nat)
    requires k <= |s| && forall i :: 0 <= i < k ==> s[i] != 0
    requires k < |s| ==> s[k] == 0
    ensures FirstNul(s) == k
  {
  }

  /**
   * Reading a NullTerminatedString<max>: exactly max bytes are consumed and
   * the string is the valid UTF-8 before the first NUL among them.
   */
  function NullTerminated(max: nat, input: seq<byte>): (r: Read<seq<byte>>)
    ensures r == Err(UnexpectedEof) <==> |input| < max
    ensures r.Ok? ==>
      var (s, rest) := r.value;
      rest == input[max..] && |s| < max && s == input[..|s|] && input[|s|] == 0 &&
      (forall i :: 0 <= i < |s| ==> s[i] != 0) && ValidUtf8(s)
    ensures |input| >= max && (forall i :: 0 <= i < max ==> input[i] != 0) ==> r == Err(InvalidData)
  {
    if |input| < max then Err(UnexpectedEof)
    else
      var buf := input[..max];
      var len := FirstNul(buf);
      if len == max then Err(InvalidData)
      else if !ValidUtf8(buf[..len]) then Err(InvalidData)
      else Ok((buf[..len], input[max..]))
  }

  /** The reader's counting loop. */
  method ReadNullTerminated(max: nat, input: seq<byte>) returns (r: Read<seq<byte>>)
    ensures r == NullTerminated(max, input)
  {
    if |input| < max {
      return Err(UnexpectedEof);
    }
    var buf := input[..max];
    var len := 0;
    while len < max && buf[len] != 0
      invariant len <= max
      invariant forall i :: 0 <= i < len ==> buf[i] != 0
    {
      len := len + 1;
    }
    FirstNulUnique(buf, len);
    if len == max {
      return Err(InvalidData);
    }
    if !ValidUtf8(buf[..len]) {
      return Err(InvalidData);
    }
    return Ok((buf[..len], input[max..]));
  }

  function NullTerminatedSize(s: seq<byte>): nat
  {
    |s| + 1
  }

  /** The writer emits the string's bytes and one NUL, and nothing to fill up to MAX_SIZE. */
  function WriteNullTerminated(s: seq<byte>): (r: seq<byte>)
    ensures |r| == NullTerminatedSize(s)
    ensures r[|s|] == 0
  {
    s + [0]
  }

  /**
   * A written string reads back once the bytes that follow it make up the
   * rest of the MAX_SIZE field.
   */
  lemma ReadWrittenNullTerminated(max: nat, s: seq<byte>, fill: seq<byte>, rest: seq<byte>)
    requires ValidUtf8(s) && forall i :: 0 <= i < |s| ==> s[i] != 0
    requires |s| + 1 + |fill| == max
    ensures NullTerminated(max, WriteNullTerminated(s) + fill + rest) == Ok((s, rest))
  {
    var input := WriteNullTerminated(s) + fill + rest;
    var buf := input[..max];
    assert buf[..|s|] == s;
    assert buf[|s|] == 0;
    FirstNulUnique(buf, |s|);
    assert input[max..] == rest;
  }

  // ----- LengthPrefixedString<MAX_SIZE> -----

  lemma PowValues()
    ensures Pow(256, 1) == 0x100 && Pow(256, 2) == 0x1_0000
    ensures Pow(256, 4) == 0x1_0000_0000 && Pow(256, 8) == 0x1_0000_0000_0000_0000
  {
    assert Pow(256, 2) == 256 * Pow(256, 1);
    assert Pow(256, 4) == 256 * 256 * Pow(256, 2);
    assert Pow(256, 8) == 256 * 256 * 256 * 256 * Pow(256, 4);
  }

  /** The integer type of the length prefix, chosen by MAX_SIZE. */
  function PrefixKind(max: nat): (k: IntKind)
    ensures !Signed(k)
  {
    if max <= 0xFF then U8
    else if max <= 0xFFFF then U16
    else if max <= 0xFFFF_FFFF then U32
    else U64
  }

  /** The prefix is the narrowest of 1, 2, 4 and 8 bytes that holds MAX_SIZE. */
  lemma PrefixWidthFits(max: nat)
    requires max < Modulus(U64)
    ensures max < Modulus(PrefixKind(max))
    ensures Width(PrefixKind(max)) == 1 || Pow(256, Width(PrefixKind(max)) / 2) <= max
  {
    PowValues();
  }

  function LengthPrefixedSize(max: nat, s: seq<byte>): nat
  {
    |s| + Width(PrefixKind(max))
  }

  /** The writer: `len as uN` in the given byte order, truncated to the prefix width, then the bytes. */
  function WriteLengthPrefixed(max: nat, s: seq<byte>, e: Endian): (r: seq<byte>)
    ensures |r| == LengthPrefixedSize(max, s)
    ensures r[|r| - |s|..] == s
  {
    var k := PrefixKind(max);
    WriteInt(k, |s| % Modulus(k), e) + s
  }

  /** A prefix of kind k in the given order, then that many bytes of valid UTF-8. */
  function ReadPrefixed(k: IntKind, input: seq<byte>, order: Endian): (r: Read<seq<byte>>)
    requires !Signed(k)
    ensures r.Ok? ==>
      var (s, rest) := r.value;
      ValidUtf8(s) && InRange(k, |s|) && input == WriteInt(k, |s|, order) + s + rest
  {
    match ReadInt(k, input, order)
    case Err(err) => Err(err)
    case Ok((n, rest)) =>
      WriteReadInt(k, input, order);
      if |rest| < n then Err(UnexpectedEof)
      else if !ValidUtf8(rest[..n]) then Err(InvalidData)
      else
        var s := rest[..n];
        assert |s| == n && rest == s + rest[n..];
        assert input == WriteInt(k, n, order) + s + rest[n..];
        Ok((s, rest[n..]))
  }

  /** The reader as written: the prefix is always read big-endian, whatever order is asked for. */
  function ReadLengthPrefixedAsWritten(max: nat, input: seq<byte>, e: Endian): (r: Read<seq<byte>>)
    ensures r.Ok? ==> ValidUtf8(r.value.0) && |r.value.0| + |r.value.1| + Width(PrefixKind(max)) == |input|
  {
    ReadPrefixed(PrefixKind(max), input, Big)
  }

  /** Below the prefix width, `len as uN` does not truncate. */
  lemma WriteLengthPrefixedFits(max: nat, s: seq<byte>, e: Endian)
    requires |s| < Modulus(PrefixKind(max))
    ensures WriteLengthPrefixed(max, s, e) == WriteInt(PrefixKind(max), |s|, e) + s
  {
    ModUnique(|s|, Modulus(PrefixKind(max)), 0, |s|);
  }

  /** The reader with the prefix in the order asked for, which is what the writer uses. */
  function ReadLengthPrefixed(max: nat, input: seq<byte>, e: Endian): (r: Read<seq<byte>>)
    ensures r.Ok? ==> ValidUtf8(r.value.0) && input == WriteLengthPrefixed(max, r.value.0, e) + r.value.1
  {
    var r := ReadPrefixed(PrefixKind(max), input, e);
    if r.Ok? then
      WriteLengthPrefixedFits(max, r.value.0, e);
      r
    else r
  }

  lemma ReadWrittenLengthPrefixed(max: nat, s: seq<byte>, e: Endian, rest: seq<byte>)
    requires ValidUtf8(s) && |s| < Modulus(PrefixKind(max))
    ensures ReadLengthPrefixed(max, WriteLengthPrefixed(max, s, e) + rest, e) == Ok((s, rest))
  {
    var k := PrefixKind(max);
    var p := WriteInt(k, |s|, e);
    WriteLengthPrefixedFits(max, s, e);
    AppendAssoc(p, s, rest);
    ReadWriteInt(k, |s|, e, s + rest);
    assert (s + rest)[..|s|] == s && (s + rest)[|s|..] == rest;
  }

  /** The reader as written agrees with the writer only for big-endian or one-byte prefixes. */
  lemma AsWrittenReadsBigEndian(max: nat, s: seq<byte>, e: Endian, rest: seq<byte>)
    requires ValidUtf8(s) && |s| < Modulus(PrefixKind(max))
    requires e == Big || PrefixKind(max) == U8
    ensures ReadLengthPrefixedAsWritten(max, WriteLengthPrefixed(max, s, e) + rest, e) == Ok((s, rest))
  {
    ReadWrittenLengthPrefixed(max, s, Big, rest);
  }

  /** A one-byte string written with a little-endian two-byte prefix is misread as 256 bytes long. */
  lemma LittlePrefixMisread()
    ensures WriteLengthPrefixed(256, [0x61], Little) == [1, 0, 0x61]
    ensures ReadLengthPrefixedAsWritten(256, [1, 0, 0x61], Little) == Err(UnexpectedEof)
  {
    PowValues();
    assert EncodeLE(1, 2) == [1, 0] by {
      assert EncodeLE(0, 1) == [0] + EncodeLE(0, 0);
    }
    var bs: seq<byte> := [1, 0, 0x61];
    assert bs[..2] == [1, 0];
    assert Reverse(bs[..2]) == [0, 1];
    assert DecodeLE([0, 1]) == 256 by {
      assert DecodeLE([1]) == 1 + 256 * DecodeLE([]);
    }
    assert ReadInt(U16, bs, Big) == Ok((256, [0x61]));
  }

  /** A little-endian u16 below 256 is its value then a zero byte, which read big-endian is 256 times the value. */
  lemma LittleU16ReadBig(n: nat, t: seq<byte>)
    requires n < 256
    ensures WriteInt(U16, n, Little) == [n, 0]
    ensures ReadInt(U16, [n, 0] + t, Big) == Ok((256 * n, t))
  {
    PowValues();
    assert EncodeLE(n, 2) == [n] + EncodeLE(0, 1);
    assert EncodeLE(0, 1) == [0] + EncodeLE(0, 0);
    var bs: seq<byte> := [n, 0] + t;
    assert bs[..2] == [n, 0];
    assert Reverse(bs[..2]) == [0, n];
    assert DecodeLE([0, n]) == 256 * n by {
      assert [0, n][1..] == [n];
      assert DecodeLE([n]) == n + 256 * DecodeLE([]);
    }
  }

  /**
   * The reader as written, on a string shorter than 256 bytes whose two-byte
   * prefix was written little-endian: it takes 256 times as many bytes as the
   * string holds, so the empty string alone reads back.
   */
  lemma AsWrittenLittlePrefix(max: nat, s: seq<byte>, rest: seq<byte>)
    requires PrefixKind(max) == U16 && ValidUtf8(s) && |s| < 256
    ensures var r := ReadLengthPrefixedAsWritten(max, WriteLengthPrefixed(max, s, Little) + rest, Little);
      var n, after := 256 * |s|, s + rest;
      r == if |after| < n then Err(UnexpectedEof)
           else if !ValidUtf8(after[..n]) then Err(InvalidData)
           else Ok((after[..n], after[n..]))
  {
    PowValues();
    LittleU16ReadBig(|s|, s + rest);
    WriteLengthPrefixedFits(max, s, Little);
    AppendAssoc([|s|, 0], s, rest);
  }

  // ----- Vec<T> -----

  /** An item type's reader, writer and `Size::size`. */
  datatype Codec<!T> = Codec(
    read: (seq<byte>, Endian) -> Read<T>,
    write: (T, Endian) -> seq<byte>,
    size: T -> nat)

  ghost predicate ReadsBackItem<T>(c: Codec<T>, x: T, rest: seq<byte>, e: Endian)
  {
    c.read(c.write(x, e) + rest, e) == Ok((x, rest))
  }

  /** The item's reader undoes its writer. */
  ghost predicate RoundTrips<T(!new)>(c: Codec<T>)
  {
    forall x: T, rest: seq<byte>, e: Endian :: ReadsBackItem(c, x, rest, e)
  }

  /** The item's size is the length of what its writer emits. */
  ghost predicate SizeExact<T(!new)>(c: Codec<T>)
  {
    forall x: T, e: Endian :: |c.write(x, e)| == c.size(x)
  }

  /** n items one after another; also the reader of an array `[T; n]`. */
  function ReadItems<T>(c: Codec<T>, n: nat, input: seq<byte>, e: Endian): (r: Read<seq<T>>)
    ensures r.Ok? ==> |r.value.0| == n
  {
    if n == 0 then Ok(([], input))
    else
      match c.read(input, e)
      case Err(err) => Err(err)
      case Ok((x, rest)) =>
        match ReadItems(c, n - 1, rest, e)
        case Err(err) => Err(err)
        case Ok((xs, rest')) => Ok(([x] + xs, rest'))
  }

  /** A u64 count in the given order, then that many items. */
  function VecRead<T>(c: Codec<T>, input: seq<byte>, e: Endian): (r: Read<seq<T>>)
    ensures r.Ok? ==> |input| >= 8 && |r.value.0| == Decode(input[..8], e)
  {
    match ReadInt(U64, input, e)
    case Err(err) => Err(err)
    case Ok((count, rest)) => ReadItems(c, count, rest, e)
  }

  function Prefixed<T>(items: seq<T>, r: Read<seq<T>>): Read<seq<T>>
  {
    match r
    case Err(err) => Err(err)
    case Ok((xs, rest)) => Ok((items + xs, rest))
  }

  lemma PrefixedNothing<T>(r: Read<seq<T>>)
    ensures Prefixed([], r) == r
  {
    match r
    case Err(_) =>
    case Ok((xs, rest)) =>
      assert [] + xs == xs;
  }

  lemma PrefixedStep<T>(c: Codec<T>, items: seq<T>, n: nat, source: seq<byte>, e: Endian)
    requires n > 0 && c.read(source, e).Ok?
    ensures var (x, rest) := c.read(source, e).value;
      Prefixed(items, ReadItems(c, n, source, e)) == Prefixed(items + [x], ReadItems(c, n - 1, rest, e))
  {
    var (x, rest) := c.read(source, e).value;
    match ReadItems(c, n - 1, rest, e)
    case Err(_) =>
    case Ok((xs, rest')) =>
      assert items + ([x] + xs) == (items + [x]) + xs;
  }

  /** The reader's loop: `count` reads, each pushed onto the vector. */
  method ReadVec<T>(c: Codec<T>, input: seq<byte>, e: Endian) returns (r: Read<seq<T>>)
    ensures r == VecRead(c, input, e)
  {
    var head := ReadInt(U64, input, e);
    if head.Err? {
      return Err(head.error);
    }
    var count := head.value.0;
    var source := head.value.1;
    var items: seq<T> := [];
    var i := 0;
    PrefixedNothing(ReadItems(c, count, source, e));
    while i < count
      invariant 0 <= i <= count
      invariant Prefixed(items, ReadItems(c, count - i, source, e)) == ReadItems(c, count, head.value.1, e)
      decreases count - i
    {
      var item := c.read(source, e);
      if item.Err? {
        return Err(item.error);
      }
      PrefixedStep(c, items, count - i, source, e);
      items := items + [item.value.0];
      source := item.value.1;
      i := i + 1;
    }
    assert items + [] == items;
    return Ok((items, source));
  }

  function ItemsBytes<T>(c: Codec<T>, xs: seq<T>, e: Endian): seq<byte>
  {
    if xs == [] then [] else c.write(xs[0], e) + ItemsBytes(c, xs[1..], e)
  }

  /** The count goes out as `len as u64`: wrapped to 64 bits. */
  function VecBytes<T>(c: Codec<T>, xs: seq<T>, e: Endian): seq<byte>
  {
    WriteInt(U64, |xs| % Modulus(U64), e) + ItemsBytes(c, xs, e)
  }

  lemma {:induction false} ItemsBytesSnoc<T>(c: Codec<T>, xs: seq<T>, x: T, e: Endian)
    ensures ItemsBytes(c, xs + [x], e) == ItemsBytes(c, xs, e) + c.write(x, e)
  {
    if xs == [] {
      assert [] + [x] == [x];
      assert ItemsBytes(c, [x], e) == c.write(x, e) + ItemsBytes(c, [], e);
    } else {
      assert (xs + [x])[1..] == xs[1..] + [x];
      ItemsBytesSnoc(c, xs[1..], x, e);
      AppendAssoc(c.write(xs[0], e), ItemsBytes(c, xs[1..], e), c.write(x, e));
    }
  }


  /** The writer's loop: the count, then each item in turn. */
  method WriteVec<T>(c: Codec<T>, xs: seq<T>, e: Endian) returns (out: seq<byte>)
    ensures out == VecBytes(c, xs, e)
  {
    var count := WriteInt(U64, |xs| % Modulus(U64), e);
    out := count;
    for i := 0 to |xs|
      invariant out == count + ItemsBytes(c, xs[..i], e)
    {
      assert xs[..i + 1] == xs[..i] + [xs[i]];
      ItemsBytesSnoc(c, xs[..i], xs[i], e);
      AppendAssoc(count, ItemsBytes(c, xs[..i], e), c.write(xs[i], e));
      out := out + c.write(xs[i], e);
    }
    assert xs[..|xs|] == xs;
  }

  lemma {:induction false} ReadWrittenItems<T(!new)>(c: Codec<T>, xs: seq<T>, rest: seq<byte>, e: Endian)
    requires RoundTrips(c)
    ensures ReadItems(c, |xs|, ItemsBytes(c, xs, e) + rest, e) == Ok((xs, rest))
  {
    if xs != [] {
      var input := ItemsBytes(c, xs, e) + rest;
      var tail := ItemsBytes(c, xs[1..], e) + rest;
      assert ItemsBytes(c, xs, e) == c.write(xs[0], e) + ItemsBytes(c, xs[1..], e);
      AppendAssoc(c.write(xs[0], e), ItemsBytes(c, xs[1..], e), rest);
      assert input == c.write(xs[0], e) + tail;
      assert ReadsBackItem(c, xs[0], tail, e);
      assert c.read(input, e) == Ok((xs[0], tail));
      ReadWrittenItems(c, xs[1..], rest, e);
      assert |xs[1..]| == |xs| - 1;
      assert ReadItems(c, |xs| - 1, tail, e) == Ok((xs[1..], rest));
      assert ReadItems(c, |xs|, input, e) == Ok(([xs[0]] + xs[1..], rest));
      assert [xs[0]] + xs[1..] == xs;
    } else {
      assert ItemsBytes(c, xs, e) + rest == rest;
    }
  }

  /** A written vector of fewer than 2^64 items reads back. */
  lemma ReadWrittenVec<T(!new)>(c: Codec<T>, xs: seq<T>, rest: seq<byte>, e: Endian)
    requires RoundTrips(c) && |xs| < Modulus(U64)
    ensures VecRead(c, VecBytes(c, xs, e) + rest, e) == Ok((xs, rest))
  {
    var count := WriteInt(U64, |xs|, e);
    ModUnique(|xs|, Modulus(U64), 0, |xs|);
    AppendAssoc(count, ItemsBytes(c, xs, e), rest);
    ReadWriteInt(U64, |xs|, e, ItemsBytes(c, xs, e) + rest);
    ReadWrittenItems(c, xs, rest, e);
  }

  /** `Vec::size` as written: the sum of the item sizes. */
  function VecSizeAsWritten<T>(c: Codec<T>, xs: seq<T>): nat
  {
    if xs == [] then 0 else c.size(xs[0]) + VecSizeAsWritten(c, xs[1..])
  }

  /** The size of what the reader consumes: the 8-byte count and the items. */
  function VecSize<T>(c: Codec<T>, xs: seq<T>): nat
  {
    8 + VecSizeAsWritten(c, xs)
  }

  lemma {:induction false} ItemsBytesSize<T(!new)>(c: Codec<T>, xs: seq<T>, e: Endian)
    requires SizeExact(c)
    ensures |ItemsBytes(c, xs, e)| == VecSizeAsWritten(c, xs)
  {
    if xs != [] {
      ItemsBytesSize(c, xs[1..], e);
    }
  }

  lemma VecBytesSize<T(!new)>(c: Codec<T>, xs: seq<T>, e: Endian)
    requires SizeExact(c)
    ensures |VecBytes(c, xs, e)| == VecSize(c, xs)
  {
    ItemsBytesSize(c, xs, e);
  }

  /** As written, the size of every vector falls 8 bytes short of its encoding. */
  lemma VecSizeAsWrittenShort<T(!new)>(c: Codec<T>, xs: seq<T>, e: Endian)
    requires SizeExact(c)
    ensures |VecBytes(c, xs, e)| == VecSizeAsWritten(c, xs) + 8
  {
    ItemsBytesSize(c, xs, e);
  }

  // ----- Padding<ALIGN> -----

  datatype Padding = Padding(amt: nat)

  /** `ALIGN - prev_size % ALIGN`: a whole ALIGN when already aligned, never 0. */
  function PaddingAmount(align: nat, prev: nat): (amt: nat)
    requires align > 0
    ensures 1 <= amt <= align
    ensures (prev + amt) % align == 0
    ensures amt == align <==> prev % align == 0
  {
    var q, m := prev / align, prev % align;
    assert (q + 1) * align == q * align + align;
    ModUnique(prev + (align - m), align, q + 1, 0);
    align - m
  }

  function NewPadding(align: nat, prev: nat): (p: Padding)
    requires align > 0
  {
    Padding(PaddingAmount(align, prev))
  }

  /** Reading padding skips its amount of bytes, whatever they hold. */
  function ReadPadding(align: nat, prev: nat, input: seq<byte>): (r: Read<Padding>)
    requires align > 0
    ensures r.Ok? <==> |input| >= PaddingAmount(align, prev)
    ensures r.Err? ==> r.error == UnexpectedEof
    ensures r.Ok? ==> r.value == (NewPadding(align, prev), input[PaddingAmount(align, prev)..])
  {
    var amt := PaddingAmount(align, prev);
    if |input| < amt then Err(UnexpectedEof) else Ok((Padding(amt), input[amt..]))
  }

  function WritePadding(p: Padding): (r: seq<byte>)
    ensures |r| == p.amt && forall i :: 0 <= i < |r| ==> r[i] == 0
  {
    Zeros(p.amt)
  }

  /** Written padding brings the bytes before it to a multiple of ALIGN and reads back. */
  lemma ReadWrittenPadding(align: nat, prev: nat, rest: seq<byte>)
    requires align > 0
    ensures (prev + |WritePadding(NewPadding(align, prev))|) % align == 0
    ensures ReadPadding(align, prev, WritePadding(NewPadding(align, prev)) + rest) == Ok((NewPadding(align, prev), rest))
  {
    var z := WritePadding(NewPadding(align, prev));
    assert (z + rest)[|z|..] == rest;
  }
}
