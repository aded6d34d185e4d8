// Netlink attribute (rtattr) framing with 4-byte alignment, the attribute
// payload decoders of the netlink crate and of its rtnetlink module, and the
// length a written message header carries. Sources and targets are byte
// strings; the socket is not modelled.
module Netlink {
  import opened Wrappers
  import opened Bytes
  import opened ByteStruct

  /** The attribute header: a u16 length and a u16 type. */
  const AttributeSize: nat := 4
  const AlignTo: nat := 4

  /** `(n + 3) & !3`: n rounded up to a multiple of 4 (clearing the two low bits is subtracting the remainder mod 4). */
  function AlignUp(n: nat): (r: nat)
    ensures r % AlignTo == 0 && n <= r < n + AlignTo
  {
    (n + AlignTo - 1) - (n + AlignTo - 1) % AlignTo
  }

  /** The zero bytes that follow an attribute of length n. */
  function PaddingLength(n: nat): (p: nat)
    ensures p < AlignTo && (n + p) % AlignTo == 0
    ensures p == 0 <==> n % AlignTo == 0
  {
    AlignUp(n) - n
  }

  /** The data and the padding of an attribute whose header said `length`. */
  function ReadAttributeBody(length: nat, ty: int, source: seq<byte>): (r: Read<(int, seq<byte>)>)
    requires length >= AttributeSize
    ensures r.Ok? ==>
      var ((t, data), rest) := r.value;
      t == ty && |data| == length - AttributeSize &&
      |source| == |data| + PaddingLength(length) + |rest| &&
      source == data + source[|data|..|source| - |rest|] + rest
  {
    match ReadBytes(source, length - AttributeSize)
    case Err(err) => Err(err)
    case Ok((data, r1)) =>
      match ReadBytes(r1, PaddingLength(length))
      case Err(err) => Err(err)
      case Ok((pad, r2)) =>
        assert source[|data|..|source| - |r2|] == pad;
        Ok(((ty, data), r2))
  }

  /** netlink `read_attribute`: a length below the header size is refused as InvalidInput. */
  function ReadAttribute(input: seq<byte>, e: Endian): (r: Read<(int, seq<byte>)>)
    ensures |input| >= 2 && Decode(input[..2], e) < AttributeSize ==> r == Err(InvalidInput)
    ensures r.Ok? ==>
      var ((ty, data), rest) := r.value;
      InRange(U16, ty) && |input| == AlignUp(AttributeSize + |data|) + |rest| &&
      Decode(input[..2], e) == AttributeSize + |data| &&
      input[AttributeSize..AttributeSize + |data|] == data && rest == input[|input| - |rest|..]
  {
    match ReadInt(U16, input, e)
    case Err(err) => Err(err)
    case Ok((length, r1)) =>
      if length < AttributeSize then Err(InvalidInput)
      else
        match ReadInt(U16, r1, e)
        case Err(err) => Err(err)
        case Ok((ty, r2)) =>
          var r := ReadAttributeBody(length, ty, r2);
          assert r.Ok? ==> r2 == input[AttributeSize..];
          r
  }

  /**
   * `write_attribute`: nothing for None; otherwise the length `4 + |data|`
   * (wrapped to u16), the type, the data and zero padding to a multiple of 4.
   * The data is the bytes its own writer produced.
   */
  function WriteAttribute(ty: int, data: Option<seq<byte>>, e: Endian): (r: seq<byte>)
    requires InRange(U16, ty)
    ensures data.None? ==> r == []
    ensures data.Some? ==>
      |r| == AlignUp(AttributeSize + |data.value|) &&
      r[AttributeSize..AttributeSize + |data.value|] == data.value &&
      forall i :: AttributeSize + |data.value| <= i < |r| ==> r[i] == 0
  {
    match data
    case None => []
    case Some(bytes) =>
      var length := AttributeSize + |bytes|;
      WriteInt(U16, length % 0x1_0000, e) + WriteInt(U16, ty, e) + bytes + Zeros(PaddingLength(length))
  }

  /** The reader on a length, a type, data, padding and what follows. */
  lemma ReadAttributeOf(length: nat, ty: int, data: seq<byte>, pad: seq<byte>, rest: seq<byte>, e: Endian)
    requires InRange(U16, length) && InRange(U16, ty)
    requires length == AttributeSize + |data| && |pad| == PaddingLength(length)
    ensures ReadAttribute(WriteInt(U16, length, e) + (WriteInt(U16, ty, e) + (data + (pad + rest))), e) == Ok(((ty, data), rest))
  {
    ReadWriteInt(U16, length, e, WriteInt(U16, ty, e) + (data + (pad + rest)));
    ReadWriteInt(U16, ty, e, data + (pad + rest));
    ReadBytesPrefix(data, pad + rest);
    ReadBytesPrefix(pad, rest);
  }

  /** An attribute whose length fits in a u16 reads back as its type and data. */
  lemma ReadWrittenAttribute(ty: int, data: seq<byte>, e: Endian, rest: seq<byte>)
    requires InRange(U16, ty) && AttributeSize + |data| < 0x1_0000
    ensures ReadAttribute(WriteAttribute(ty, Some(data), e) + rest, e) == Ok(((ty, data), rest))
  {
    var length := AttributeSize + |data|;
    ModUnique(length, 0x1_0000, 0, length);
    var a := WriteInt(U16, length, e);
    var b := WriteInt(U16, ty, e);
    var z := Zeros(PaddingLength(length));
    assert WriteAttribute(ty, Some(data), e) == a + b + data + z;
    AppendAssoc4(a, b, data, z, rest);
    ReadAttributeOf(length, ty, data, z, rest, e);
  }

  /**
   * rtnetlink `read_attribute`, which has no minimum-length check: once the
   * type is read, `length - 4` underflows for a length below 4 and panics.
   */
  function ReadAttributeUnguarded(input: seq<byte>, e: Endian): (r: Outcome<Read<(int, seq<byte>)>>)
  {
    match ReadInt(U16, input, e)
    case Err(err) => Returns(Err(err))
    case Ok((length, r1)) =>
      match ReadInt(U16, r1, e)
      case Err(err) => Returns(Err(err))
      case Ok((ty, r2)) =>
        if length < AttributeSize then Panics
        else Returns(ReadAttributeBody(length, ty, r2))
  }

  /** The unguarded reader panics exactly where the guarded one refuses a short length, and agrees elsewhere. */
  lemma UnguardedAgrees(input: seq<byte>, e: Endian)
    ensures ReadAttributeUnguarded(input, e).Panics? <==> |input| >= AttributeSize && Decode(input[..2], e) < AttributeSize
    ensures |input| < 2 || Decode(input[..2], e) >= AttributeSize ==>
      ReadAttributeUnguarded(input, e) == Returns(ReadAttribute(input, e))
  {
    if |input| >= AttributeSize {
      assert input[2..][..2] == input[2..4];
    }
  }

  /** A two-byte length field of 2 makes the unguarded reader panic. */
  lemma ShortAttributePanics()
    ensures ReadAttributeUnguarded([2, 0, 0, 0], Little) == Panics
    ensures ReadAttribute([2, 0, 0, 0], Little) == Err(InvalidInput)
  {
    var bs: seq<byte> := [2, 0, 0, 0];
    assert bs[..2] == [2, 0];
    assert DecodeLE([2, 0]) == 2 by {
      assert DecodeLE([0]) == 0 + 256 * DecodeLE([]);
    }
  }

  // ----- attribute payloads -----

  /** netlink `new_string`: the payload without its final byte (the NUL, not checked), as UTF-8. */
  function NewString(buffer: seq<byte>): (r: Result<seq<byte>, IoError>)
    requires |buffer| > 0
    ensures r.Ok? <==> ValidUtf8(buffer[..|buffer| - 1])
    ensures r.Ok? ==> r.value + [buffer[|buffer| - 1]] == buffer
    ensures r.Err? ==> r.error == InvalidData
  {
    var s := buffer[..|buffer| - 1];
    assert s + [buffer[|buffer| - 1]] == buffer;
    if ValidUtf8(s) then Ok(s) else Err(InvalidData)
  }

  /** rtnetlink `new_string`: the whole payload, as UTF-8. */
  function NewStringWhole(buffer: seq<byte>): (r: Result<seq<byte>, IoError>)
    ensures r.Ok? <==> ValidUtf8(buffer)
    ensures r.Ok? ==> r.value == buffer
    ensures r.Err? ==> r.error == InvalidData
  {
    if ValidUtf8(buffer) then Ok(buffer) else Err(InvalidData)
  }

  /** The two agree once the netlink reader's last byte is set aside. */
  lemma NewStringDropsLast(buffer: seq<byte>)
    requires |buffer| > 0
    ensures NewString(buffer) == NewStringWhole(buffer[..|buffer| - 1])
  {
  }

  /** A NUL-terminated string as the kernel sends it decodes to the string. */
  lemma NewStringOfTerminated(s: seq<byte>)
    requires ValidUtf8(s)
    ensures NewString(WriteNullTerminated(s)) == Ok(s)
  {
    assert WriteNullTerminated(s)[..|s|] == s;
  }

  /** `new_u32` (both crates): exactly four bytes, little-endian. */
  function NewU32(buffer: seq<byte>): (r: Result<int, IoError>)
    ensures r.Ok? <==> |buffer| == 4
    ensures r.Err? ==> r.error == InvalidData
    ensures r.Ok? ==> InRange(U32, r.value) && WriteInt(U32, r.value, Little) == buffer
  {
    if |buffer| != 4 then Err(InvalidData)
    else
      EncodeDecodeLE(buffer);
      Ok(DecodeLE(buffer))
  }

  lemma NewU32OfWritten(x: int)
    requires InRange(U32, x)
    ensures NewU32(WriteInt(U32, x, Little)) == Ok(x)
  {
    DecodeEncodeLE(x, 4);
  }

  /** rtnetlink `new_mac_address`: exactly six bytes. */
  function NewMacAddress(buffer: seq<byte>): (r: Result<seq<byte>, IoError>)
    ensures r.Ok? <==> |buffer| == 6
    ensures r.Ok? ==> r.value == buffer
    ensures r.Err? ==> r.error == InvalidData
  {
    if |buffer| == 6 then Ok(buffer) else Err(InvalidData)
  }

  // ----- message header -----

  /** `NetlinkMessageHeader`, with the message type as its u16 value. */
  datatype MessageHeader = MessageHeader(length: int, messageType: int, flags: int, sequenceNumber: int, pid: int)

  const HeaderSize: nat := 16

  predicate ValidHeader(h: MessageHeader)
  {
    InRange(U32, h.length) && InRange(U16, h.messageType) && InRange(U16, h.flags) &&
    InRange(U32, h.sequenceNumber) && InRange(U32, h.pid)
  }

  /** The fields in declaration order. */
  function WriteHeader(h: MessageHeader, e: Endian): (r: seq<byte>)
    requires ValidHeader(h)
    ensures |r| == HeaderSize
  {
    WriteInt(U32, h.length, e) + WriteInt(U16, h.messageType, e) + WriteInt(U16, h.flags, e) +
    WriteInt(U32, h.sequenceNumber, e) + WriteInt(U32, h.pid, e)
  }

  /** The bits of the declared `NetlinkFlags`. */
  const KnownFlags: bv16 := 0x0F1F

  /** `NetlinkFlags::from_bits(bits)` is Some. */
  predicate KnownFlagBits(flags: int)
    requires 0 <= flags < 0x1_0000
  {
    (flags as bv16) & !KnownFlags == 0
  }

  /**
   * The derived header reader: the message type is checked by its enum's
   * reader `isType`, and flags outside `NetlinkFlags` reach an unwrap that panics.
   */
  function ReadHeader(input: seq<byte>, e: Endian, isType: int -> bool): (r: Outcome<Read<MessageHeader>>)
    ensures r.Returns? && r.value.Ok? ==>
      var (h, rest) := r.value.value;
      ValidHeader(h) && isType(h.messageType) && |input| >= HeaderSize && rest == input[HeaderSize..]
  {
    match ReadInt(U32, input, e)
    case Err(err) => Returns(Err(err))
    case Ok((length, r1)) =>
      match ReadInt(U16, r1, e)
      case Err(err) => Returns(Err(err))
      case Ok((ty, r2)) =>
        if !isType(ty) then Returns(Err(InvalidData))
        else
          match ReadInt(U16, r2, e)
          case Err(err) => Returns(Err(err))
          case Ok((flags, r3)) =>
            if !KnownFlagBits(flags) then Panics
            else
              match ReadInt(U32, r3, e)
              case Err(err) => Returns(Err(err))
              case Ok((sequence, r4)) =>
                match ReadInt(U32, r4, e)
                case Err(err) => Returns(Err(err))
                case Ok((pid, r5)) => Returns(Ok((MessageHeader(length, ty, flags, sequence, pid), r5)))
  }

  /** `write_netlink_message`: the length field is set to header size plus body length (as u32); little-endian. */
  function WriteNetlinkMessage(h: MessageHeader, body: seq<byte>): (r: seq<byte>)
    requires ValidHeader(h)
    ensures |r| == HeaderSize + |body| && r[HeaderSize..] == body
  {
    WriteHeader(h.(length := (HeaderSize + |body|) % 0x1_0000_0000), Little) + body
  }

  /** The derived reader undoes the derived writer, for a known message type and known flags. */
  lemma ReadWrittenHeader(h: MessageHeader, rest: seq<byte>, e: Endian, isType: int -> bool)
    requires ValidHeader(h) && isType(h.messageType) && KnownFlagBits(h.flags)
    ensures ReadHeader(WriteHeader(h, e) + rest, e, isType) == Returns(Ok((h, rest)))
  {
    var a := WriteInt(U32, h.length, e);
    var b := WriteInt(U16, h.messageType, e);
    var c := WriteInt(U16, h.flags, e);
    var d := WriteInt(U32, h.sequenceNumber, e);
    var f := WriteInt(U32, h.pid, e);
    var t4 := f + rest;
    var t3 := d + t4;
    var t2 := c + t3;
    var t1 := b + t2;
    AppendAssoc5(a, b, c, d, f, rest);
    ReadWriteInt(U32, h.length, e, t1);
    ReadWriteInt(U16, h.messageType, e, t2);
    ReadWriteInt(U16, h.flags, e, t3);
    ReadWriteInt(U32, h.sequenceNumber, e, t4);
    ReadWriteInt(U32, h.pid, e, rest);
  }

  /** A written message's header reads back with its length field equal to the whole message's length. */
  lemma ReadWrittenMessage(h: MessageHeader, body: seq<byte>, isType: int -> bool)
    requires ValidHeader(h) && isType(h.messageType) && KnownFlagBits(h.flags)
    requires HeaderSize + |body| < 0x1_0000_0000
    ensures ReadHeader(WriteNetlinkMessage(h, body), Little, isType) ==
      Returns(Ok((h.(length := |WriteNetlinkMessage(h, body)|), body)))
  {
    var n := HeaderSize + |body|;
    ModUnique(n, 0x1_0000_0000, 0, n);
    ReadWrittenHeader(h.(length := n), body, Little, isType);
  }

  /** The enum reader of `BaseNetlinkMessageType`. */
  predicate IsBaseMessageType(v: int)
  {
    1 <= v <= 4
  }
}
