// The string table section of an ELF file: a run of NUL-terminated strings,
// each found again by the offset in the section where it starts.
module ElfStrings {
  import opened Wrappers
  import opened Bytes
  import opened ByteStruct
  import Text

  /** Each byte as the char with the same value, as `*byte as char` builds a string. */
  function Chars(bs: seq<byte>): (r: string)
    ensures |r| == |bs|
    ensures forall i :: 0 <= i < |bs| ==> r[i] == bs[i] as char
  {
    seq(|bs|, i requires 0 <= i < |bs| => bs[i] as char)
  }

  /** The bytes the pieces take up in the section, each with its terminating NUL. */
  function Span(ps: seq<seq<byte>>): nat
  {
    if ps == [] then 0 else |ps[0]| + 1 + Span(ps[1..])
  }

  lemma {:induction false} SpanSnoc(ps: seq<seq<byte>>, p: seq<byte>)
    ensures Span(ps + [p]) == Span(ps) + |p| + 1
  {
    if ps != [] {
      assert (ps + [p])[1..] == ps[1..] + [p];
      SpanSnoc(ps[1..], p);
    } else {
      assert [p][1..] == [];
    }
  }

  /** Every piece paired with the offset it starts at. */
  function Entries(ps: seq<seq<byte>>): (es: seq<(nat, string)>)
    ensures |es| == |ps|
  {
    seq(|ps|, k requires 0 <= k < |ps| => (Span(ps[..k]), Chars(ps[k])))
  }

  lemma EntriesSnoc(ps: seq<seq<byte>>, p: seq<byte>)
    ensures Entries(ps + [p]) == Entries(ps) + [(Span(ps), Chars(p))]
  {
    var l := Entries(ps + [p]);
    var r := Entries(ps) + [(Span(ps), Chars(p))];
    forall k | 0 <= k < |l|
      ensures l[k] == r[k]
    {
      assert (ps + [p])[..k] == if k < |ps| then ps[..k] else ps;
    }
  }

  /** `StringTableSection`: the strings of the section with their offsets. */
  datatype StringTableSection = StringTableSection(strings: seq<(nat, string)>)

  /** `StringTableSection::read`: the pieces between NULs, refused when the last one is not terminated. */
  function ParseStringTable(bytes: seq<byte>): Result<StringTableSection, IoError>
  {
    var ps := Text.Split(bytes, 0);
    if ps[|ps| - 1] != [] then Err(InvalidData)
    else Ok(StringTableSection(Entries(ps[..|ps| - 1])))
  }

  /** What the loop has after reading bs: the strings pushed, the one being built, and where it began. */
  function Scanned(bs: seq<byte>): (seq<(nat, string)>, string, nat)
  {
    var ps := Text.Split(bs, 0);
    (Entries(ps[..|ps| - 1]), Chars(ps[|ps| - 1]), Span(ps[..|ps| - 1]))
  }

  /** One more byte: a NUL pushes the string built so far, any other byte extends it. */
  lemma ScannedStep(bs: seq<byte>, b: byte)
    requires Scanned(bs).2 + |Scanned(bs).1| == |bs|
    ensures var (strings, build, start) := Scanned(bs);
      Scanned(bs + [b]) == if b == 0 then (strings + [(start, build)], "", |bs| + 1) else (strings, build + [b as char], start)
  {
    var ps := Text.Split(bs, 0);
    var init, last := ps[..|ps| - 1], ps[|ps| - 1];
    assert ps == init + [last];
    Text.SplitSnoc(bs, b, 0);
    var ps' := Text.Split(bs + [b], 0);
    if b == 0 {
      EntriesSnoc(init, last);
      SpanSnoc(init, last);
      assert ps'[..|ps'| - 1] == ps;
    } else {
      assert ps'[..|ps'| - 1] == init;
      assert Chars(last + [b]) == Chars(last) + [b as char];
    }
  }

  /** The loop of `StringTableSection::read`: a string is pushed at each NUL, with the offset it began at. */
  method ReadStringTable(bytes: seq<byte>) returns (r: Result<StringTableSection, IoError>)
    ensures r == ParseStringTable(bytes)
  {
    var start: nat := 0;
    var build: string := "";
    var strings: seq<(nat, string)> := [];
    var i := 0;
    assert bytes[..0] == [];
    while i < |bytes|
      invariant 0 <= i <= |bytes|
      invariant (strings, build, start) == Scanned(bytes[..i])
      invariant start + |build| == i
    {
      ScannedStep(bytes[..i], bytes[i]);
      assert bytes[..i + 1] == bytes[..i] + [bytes[i]];
      if bytes[i] == 0 {
        strings := strings + [(start, build)];
        build := "";
        start := i + 1;
      } else {
        build := build + [bytes[i] as char];
      }
      i := i + 1;
    }
    assert bytes[..i] == bytes;
    if build != "" {
      return Err(InvalidData);
    }
    return Ok(StringTableSection(strings));
  }

  /** A section reads exactly when it is empty or ends with a NUL. */
  lemma ParseStringTableOk(bytes: seq<byte>)
    ensures ParseStringTable(bytes).Ok? <==> bytes == [] || bytes[|bytes| - 1] == 0
  {
    Text.SplitLastEmpty(bytes, 0);
  }

  /** In the bytes that join the pieces with NULs, piece k sits at the span of the pieces before it. */
  lemma {:induction false} JoinLayout(ps: seq<seq<byte>>, k: nat)
    requires k < |ps|
    ensures var o := Span(ps[..k]); var j := Text.Join(ps, 0);
      o + |ps[k]| <= |j| && j[o..o + |ps[k]|] == ps[k]
      && (k < |ps| - 1 ==> o + |ps[k]| < |j| && j[o + |ps[k]|] == 0)
      && (k == |ps| - 1 ==> o + |ps[k]| == |j|)
  {
    var j := Text.Join(ps, 0);
    if k == 0 {
      assert ps[..0] == [];
      if |ps| > 1 {
        assert j == ps[0] + [0] + Text.Join(ps[1..], 0);
        assert j[..|ps[0]|] == ps[0];
      }
    } else {
      var rest := Text.Join(ps[1..], 0);
      assert j == ps[0] + [0] + rest;
      JoinLayout(ps[1..], k - 1);
      assert ps[..k] == [ps[0]] + ps[1..][..k - 1];
      assert ([ps[0]] + ps[1..][..k - 1])[1..] == ps[1..][..k - 1];
      var o := Span(ps[..k]);
      var o' := Span(ps[1..][..k - 1]);
      assert o == |ps[0]| + 1 + o';
      assert j[|ps[0]| + 1..] == rest;
      assert j[o..o + |ps[k]|] == rest[o'..o' + |ps[k]|];
    }
  }

  /** Entry k of a section read from bytes: its string, then a NUL, at its offset, and no NUL inside it. */
  lemma EntryLayout(bytes: seq<byte>, k: nat)
    requires ParseStringTable(bytes).Ok?
    requires k < |ParseStringTable(bytes).value.strings|
    ensures var (o, s) := ParseStringTable(bytes).value.strings[k];
      o + |s| < |bytes| && bytes[o + |s|] == 0
      && (forall i :: o <= i < o + |s| ==> bytes[i] != 0)
      && s == Chars(bytes[o..o + |s|])
  {
    var ps := Text.Split(bytes, 0);
    Text.JoinSplit(bytes, 0);
    JoinLayout(ps, k);
    assert ps[..|ps| - 1][..k] == ps[..k];
    var o := Span(ps[..k]);
    assert bytes[o..o + |ps[k]|] == ps[k];
    assert 0 !in ps[k];
    forall i | o <= i < o + |ps[k]|
      ensures bytes[i] != 0
    {
      assert bytes[i] == ps[k][i - o];
    }
  }

  /** The pieces before the last end exactly where the last one starts. */
  lemma SpanOfTable(bytes: seq<byte>)
    requires ParseStringTable(bytes).Ok?
    ensures Span(Text.Split(bytes, 0)[..|Text.Split(bytes, 0)| - 1]) == |bytes|
  {
    var ps := Text.Split(bytes, 0);
    Text.JoinSplit(bytes, 0);
    JoinLayout(ps, |ps| - 1);
  }

  /** Every offset below the span of the pieces falls inside one of them or on its NUL. */
  lemma {:induction false} Covered(ps: seq<seq<byte>>, offset: nat)
    requires offset < Span(ps)
    ensures exists k :: 0 <= k < |ps| && Span(ps[..k]) <= offset <= Span(ps[..k]) + |ps[k]|
  {
    var init := ps[..|ps| - 1];
    var last := ps[|ps| - 1];
    assert ps == init + [last];
    SpanSnoc(init, last);
    if offset >= Span(init) {
      assert Span(ps[..|ps| - 1]) <= offset <= Span(ps[..|ps| - 1]) + |ps[|ps| - 1]|;
    } else {
      Covered(init, offset);
      var k :| 0 <= k < |init| && Span(init[..k]) <= offset <= Span(init[..k]) + |init[k]|;
      assert init[..k] == ps[..k];
    }
  }

  /** The width a lookup allows a string: its UTF-8 byte length as written, its number of bytes as meant. */
  function Width(s: string, utf8: bool): nat
  {
    if utf8 then Utf8StringLength(s) else |s|
  }

  predicate Covers(e: (nat, string), offset: nat, utf8: bool)
  {
    e.0 <= offset <= e.0 + Width(e.1, utf8)
  }

  /** `Iterator::find` over the entries from index j: the first entry whose span holds the offset. */
  function FindFrom(es: seq<(nat, string)>, offset: nat, utf8: bool, j: nat): (r: Option<nat>)
    requires j <= |es|
    ensures r.Some? ==> (j <= r.value < |es| && Covers(es[r.value], offset, utf8)
      && forall i :: j <= i < r.value ==> !Covers(es[i], offset, utf8))
    ensures r.None? ==> forall i :: j <= i < |es| ==> !Covers(es[i], offset, utf8)
    decreases |es| - j
  {
    if j == |es| then None
    else if Covers(es[j], offset, utf8) then Some(j)
    else FindFrom(es, offset, utf8, j + 1)
  }

  /** `str::split_at(n).1`: what follows the first n UTF-8 bytes, a panic when n is inside a char. */
  function SplitAtBytes(s: string, n: nat): (r: Outcome<string>)
    requires n <= Utf8StringLength(s)
    ensures n == 0 ==> r == Returns(s)
  {
    if n == 0 then Returns(s)
    else if Utf8Length(s[0]) <= n then SplitAtBytes(s[1..], n - Utf8Length(s[0]))
    else Panics
  }

  /** On an ASCII string byte offsets are char offsets. */
  lemma {:induction false} SplitAtBytesAscii(s: string, n: nat)
    requires IsAsciiString(s) && n <= |s|
    ensures n <= Utf8StringLength(s) && SplitAtBytes(s, n) == Returns(s[n..])
  {
    AsciiStringLength(s);
    if n > 0 {
      assert IsAsciiString(s[1..]);
      SplitAtBytesAscii(s[1..], n - 1);
      assert s[1..][n - 1..] == s[n..];
    }
  }

  /** `get_string_at_offset` as written: the entry is matched against `s.len()`, the UTF-8 length,
      and the string is split at a UTF-8 byte index, though each char stands for one section byte. */
  function GetStringAtOffsetAsWritten(t: StringTableSection, offset: nat): (r: Outcome<Option<string>>)
    ensures FindFrom(t.strings, offset, true, 0).None? ==> r == Returns(None)
  {
    match FindFrom(t.strings, offset, true, 0)
    case None => Returns(None)
    case Some(k) =>
      var (o, s) := t.strings[k];
      var n := offset - o;
      if n == 0 then Returns(Some(s))
      else match SplitAtBytes(s, n)
        case Panics => Panics
        case Returns(tail) => Returns(Some(tail))
  }

  /** `get_string_at_offset` measured in section bytes: the rest of the string the offset points into. */
  function GetStringAtOffset(t: StringTableSection, offset: nat): (r: Option<string>)
    ensures r.None? <==> forall i :: 0 <= i < |t.strings| ==> !Covers(t.strings[i], offset, false)
  {
    match FindFrom(t.strings, offset, false, 0)
    case None => None
    case Some(k) =>
      var (o, s) := t.strings[k];
      var n := offset - o;
      if n == 0 then Some(s) else Some(s[n..])
  }

  /** A lookup in a section read from bytes finds a string exactly for the offsets inside the section. */
  lemma LookupFinds(bytes: seq<byte>, offset: nat)
    requires ParseStringTable(bytes).Ok?
    ensures GetStringAtOffset(ParseStringTable(bytes).value, offset).None? <==> offset >= |bytes|
  {
    var t := ParseStringTable(bytes).value;
    if offset < |bytes| {
      var ps := Text.Split(bytes, 0);
      var init := ps[..|ps| - 1];
      SpanOfTable(bytes);
      Covered(init, offset);
      var k :| 0 <= k < |init| && Span(init[..k]) <= offset <= Span(init[..k]) + |init[k]|;
      assert Covers(t.strings[k], offset, false);
    } else {
      forall i | 0 <= i < |t.strings|
        ensures !Covers(t.strings[i], offset, false)
      {
        EntryLayout(bytes, i);
      }
    }
  }

  /** What a lookup finds in a section read from bytes is the rest of the entry it lands in. */
  lemma LookupRest(bytes: seq<byte>, offset: nat)
    requires ParseStringTable(bytes).Ok?
    requires GetStringAtOffset(ParseStringTable(bytes).value, offset).Some?
    ensures var s := GetStringAtOffset(ParseStringTable(bytes).value, offset).value;
      offset + |s| < |bytes| && bytes[offset + |s|] == 0
      && (forall i :: offset <= i < offset + |s| ==> bytes[i] != 0)
      && s == Chars(bytes[offset..offset + |s|])
  {
    var t := ParseStringTable(bytes).value;
    var m := FindFrom(t.strings, offset, false, 0).value;
    EntryLayout(bytes, m);
    var (o, s) := t.strings[m];
    var tail := GetStringAtOffset(t, offset).value;
    assert tail == s[offset - o..];
    assert offset + |tail| == o + |s|;
    assert bytes[offset..offset + |tail|] == bytes[o..o + |s|][offset - o..];
  }

  /** A lookup in a section read from bytes gives the chars from the offset up to the next NUL,
      and nothing for an offset past the end. */
  lemma GetStringAtOffsetMeaning(bytes: seq<byte>, offset: nat)
    requires ParseStringTable(bytes).Ok?
    ensures var r := GetStringAtOffset(ParseStringTable(bytes).value, offset);
      (offset >= |bytes| <==> r.None?)
      && (r.Some? ==> var s := r.value;
            offset + |s| < |bytes| && bytes[offset + |s|] == 0
            && (forall i :: offset <= i < offset + |s| ==> bytes[i] != 0)
            && s == Chars(bytes[offset..offset + |s|]))
  {
    LookupFinds(bytes, offset);
    if offset < |bytes| {
      LookupRest(bytes, offset);
    }
  }

  /** When only ASCII was read, the lookup as written agrees with the one in section bytes. */
  lemma {:induction false} FindFromAscii(es: seq<(nat, string)>, offset: nat, j: nat)
    requires j <= |es|
    requires forall i :: 0 <= i < |es| ==> IsAsciiString(es[i].1)
    ensures FindFrom(es, offset, true, j) == FindFrom(es, offset, false, j)
    decreases |es| - j
  {
    if j < |es| {
      AsciiStringLength(es[j].1);
      FindFromAscii(es, offset, j + 1);
    }
  }

  lemma AsWrittenAgreesAscii(t: StringTableSection, offset: nat)
    requires forall i :: 0 <= i < |t.strings| ==> IsAsciiString(t.strings[i].1)
    ensures GetStringAtOffsetAsWritten(t, offset) == Returns(GetStringAtOffset(t, offset))
  {
    FindFromAscii(t.strings, offset, 0);
    var f := FindFrom(t.strings, offset, false, 0);
    if f.Some? {
      var (o, s) := t.strings[f.value];
      if offset - o > 0 {
        assert IsAsciiString(s);
        AsciiStringLength(s);
        SplitAtBytesAscii(s, offset - o);
      }
    }
  }
}

// The UTF-8 length mistake of `get_string_at_offset`, on two small sections.
module ElfStringsExamples {
  import opened Wrappers
  import opened ElfStrings
  import Bytes
  import Text

  lemma ParseFirst()
    ensures ParseStringTable([0xC3, 0, 0x41, 0]) == Ok(StringTableSection([(0, [0xC3 as char]), (2, "A")]))
  {
    var b: seq<Bytes.byte> := [0xC3, 0, 0x41, 0];
    assert b[1..] == [0, 0x41, 0] && b[2..] == [0x41, 0] && b[3..] == [0] && b[4..] == [];
    assert b[3..][1..] == b[4..] && b[2..][1..] == b[3..] && b[1..][1..] == b[2..];
    assert Text.Split(b[3..], 0) == [[], []];
    assert [0x41] + [] == [0x41];
    assert Text.Split(b[2..], 0) == [[0x41], []];
    assert Text.Split(b[1..], 0) == [[], [0x41], []];
    assert [0xC3] + [] == [0xC3];
    var ps: seq<seq<Bytes.byte>> := Text.Split(b, 0);
    assert ps == [[0xC3], [0x41], []];
    var init := ps[..2];
    assert init == [[0xC3], [0x41]];
    assert |init[..0]| == 0 && init[..1] == [[0xC3]];
    assert Span(init[..1]) == 2;
    assert Chars([0xC3]) == [0xC3 as char] && Chars([0x41]) == "A";
    var es := Entries(init);
    assert es[0] == (0, [0xC3 as char]) && es[1] == (2, "A");
    assert es == [(0, [0xC3 as char]), (2, "A")];
  }

  lemma ParseSecond()
    ensures ParseStringTable([0xC3, 0x41, 0]) == Ok(StringTableSection([(0, [0xC3 as char, 'A'])]))
  {
    var b: seq<Bytes.byte> := [0xC3, 0x41, 0];
    assert b[1..] == [0x41, 0] && b[2..] == [0] && b[3..] == [];
    assert b[2..][1..] == b[3..] && b[1..][1..] == b[2..];
    assert Text.Split(b[2..], 0) == [[], []];
    assert [0x41] + [] == [0x41];
    assert Text.Split(b[1..], 0) == [[0x41], []];
    assert [0xC3] + [0x41] == [0xC3, 0x41];
    var ps: seq<seq<Bytes.byte>> := Text.Split(b, 0);
    assert ps == [[0xC3, 0x41], []];
    assert ps[..1] == [[0xC3, 0x41]] && |ps[..1][..0]| == 0;
    assert Chars([0xC3, 0x41]) == [0xC3 as char, 'A'];
    var es := Entries(ps[..1]);
    assert es[0] == (0, [0xC3 as char, 'A']);
    assert es == [(0, [0xC3 as char, 'A'])];
  }

  /** The section "\xC3\0A\0": at offset 2, where "A" begins, the lookup as written returns "",
      because the two-byte UTF-8 length of 'Ã' stretches the first entry over offset 2. */
  lemma AsWrittenMissesString()
    ensures ParseStringTable([0xC3, 0, 0x41, 0]) == Ok(StringTableSection([(0, [0xC3 as char]), (2, "A")]))
    ensures GetStringAtOffsetAsWritten(StringTableSection([(0, [0xC3 as char]), (2, "A")]), 2) == Returns(Some(""))
    ensures GetStringAtOffset(StringTableSection([(0, [0xC3 as char]), (2, "A")]), 2) == Some("A")
  {
    ParseFirst();
    var es := [(0, [0xC3 as char]), (2, "A")];
    assert Bytes.Utf8StringLength([0xC3 as char]) == 2;
    assert FindFrom(es, 2, true, 0) == Some(0);
    assert FindFrom(es, 2, false, 1) == Some(1);
    assert Bytes.Utf8Length(0xC3 as char) == 2;
    assert [0xC3 as char][1..] == [];
  }

  /** The section "\xC3A\0": offset 1 is inside the UTF-8 encoding of 'Ã', so `split_at` panics. */
  lemma AsWrittenPanicsInsideChar()
    ensures ParseStringTable([0xC3, 0x41, 0]) == Ok(StringTableSection([(0, [0xC3 as char, 'A'])]))
    ensures GetStringAtOffsetAsWritten(StringTableSection([(0, [0xC3 as char, 'A'])]), 1) == Panics
    ensures GetStringAtOffset(StringTableSection([(0, [0xC3 as char, 'A'])]), 1) == Some("A")
  {
    ParseSecond();
    var s := [0xC3 as char, 'A'];
    assert Bytes.Utf8Length(0xC3 as char) == 2;
    assert s[1..] == "A" && s[1..][1..] == [];
    assert Bytes.Utf8Length('A') == 1;
    assert Bytes.Utf8StringLength("A") == 1;
    assert Bytes.Utf8StringLength(s) == 3;
  }
}
