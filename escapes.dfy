// ANSI control sequences (CSI, "ESC ["): the cursor movements and erase in
// line, their display form and the byte-at-a-time reader.
module Escapes {
  import opened Wrappers
  import opened Bytes
  import opened Text

  const Esc: char := '\U{1B}'
  const Csi: byte := 0x5B        // '['
  const Semicolon: byte := 0x3B  // ';'

  datatype EscapeError = Malformed | NumParams(expected: nat, found: nat) | Unsupported(c: char) | Io

  datatype Sequence =
    | CursorUp(n: byte)
    | CursorDown(n: byte)
    | CursorForward(n: byte)
    | CursorBack(n: byte)
    | EraseInLine(n: byte)

  /** The final letter of each sequence. */
  function Letter(s: Sequence): char
  {
    match s
    case CursorUp(_) => 'A'
    case CursorDown(_) => 'B'
    case CursorForward(_) => 'C'
    case CursorBack(_) => 'D'
    case EraseInLine(_) => 'K'
  }

  predicate IsFinal(c: char) { c in {'A', 'B', 'C', 'D', 'K'} }

  /** The parameter a sequence takes when none is given: 0 for erase in line, 1 otherwise. */
  function DefaultParam(c: char): byte
  {
    if c == 'K' then 0 else 1
  }

  /** The sequence of a final letter with its one parameter. */
  function Make(c: char, n: byte): (s: Sequence)
    requires IsFinal(c)
    ensures Letter(s) == c && s.n == n
  {
    if c == 'A' then CursorUp(n)
    else if c == 'B' then CursorDown(n)
    else if c == 'C' then CursorForward(n)
    else if c == 'D' then CursorBack(n)
    else EraseInLine(n)
  }

  /**
   * `ANSIEscapeSequence::new` with the derived `parse`: an unknown letter is
   * unsupported; no parameter gives the default; otherwise exactly one.
   */
  function New(c: char, params: seq<byte>): (r: Result<Sequence, EscapeError>)
    ensures !IsFinal(c) ==> r == Err(Unsupported(c))
    ensures IsFinal(c) && |params| == 0 ==> r == Ok(Make(c, DefaultParam(c)))
    ensures IsFinal(c) && |params| == 1 ==> r == Ok(Make(c, params[0]))
    ensures IsFinal(c) && |params| > 1 ==> r == Err(NumParams(1, |params|))
  {
    if !IsFinal(c) then Err(Unsupported(c))
    else if |params| == 0 then Ok(Make(c, DefaultParam(c)))
    else if |params| != 1 then Err(NumParams(1, |params|))
    else Ok(Make(c, params[0]))
  }

  /** `{}` of a display: ESC, '[', the decimal parameter and the letter. */
  function Display(s: Sequence): (r: string)
    ensures |r| >= 4 && r[0] == Esc && r[1] == '[' && r[|r| - 1] == Letter(s)
  {
    [Esc, '['] + DecimalString(s.n) + [Letter(s)]
  }

  predicate IsDigitByte(b: byte) { 0x30 <= b <= 0x39 }

  function ByteChar(b: byte): char { (b as int) as char }

  /** The list with the buffered digits added as a parameter, if there are any. */
  function PushParam(buffer: string, params: seq<byte>): (r: Result<seq<byte>, EscapeError>)
    ensures buffer == [] ==> r == Ok(params)
  {
    if buffer == [] then Ok(params)
    else
      match ParseUnsigned(buffer, 10, U8_MAX)
      case Some(v) => Ok(params + [v as byte])
      case None => Err(Io)
  }

  /**
   * The parameter bytes after '[': digits build up a parameter, which must
   * fit a byte; ';' ends one, and any other byte ends the list and is the
   * final byte. The end of the input is an I/O error.
   */
  function Scan(input: seq<byte>, buffer: string, params: seq<byte>): (r: Result<(seq<byte>, byte, seq<byte>), EscapeError>)
    ensures r.Ok? ==> !IsDigitByte(r.value.1) && r.value.1 != Semicolon
    decreases |input|
  {
    if input == [] then Err(Io)
    else
      var b := input[0];
      if IsDigitByte(b) then Scan(input[1..], buffer + [ByteChar(b)], params)
      else
        match PushParam(buffer, params)
        case Err(e) => Err(e)
        case Ok(ps) =>
          if b != Semicolon then Ok((ps, b, input[1..]))
          else Scan(input[1..], [], ps)
  }

  /** What is left after the final byte is a proper suffix of the input. */
  lemma {:induction false} ScanRest(input: seq<byte>, buffer: string, params: seq<byte>)
    ensures var r := Scan(input, buffer, params);
      r.Ok? ==> |r.value.2| < |input| && r.value.2 == input[|input| - |r.value.2|..]
    decreases |input|
  {
    if input != [] {
      var b := input[0];
      var r := Scan(input, buffer, params);
      var next := if IsDigitByte(b) then buffer + [ByteChar(b)] else [];
      var ps := if IsDigitByte(b) then Ok(params) else PushParam(buffer, params);
      if r.Ok? && (IsDigitByte(b) || b == Semicolon) {
        assert r == Scan(input[1..], next, ps.value);
        ScanRest(input[1..], next, ps.value);
        var k := |input[1..]| - |r.value.2|;
        assert input[1..][k..] == input[k + 1..];
      }
    }
  }

  /**
   * The reader, given the bytes after ESC; pushDefault says whether a missing
   * parameter list becomes [1] before the sequence is built.
   */
  function ReadWith(pushDefault: bool, input: seq<byte>): (r: Result<(Sequence, seq<byte>), EscapeError>)
    ensures input == [] ==> r == Err(Io)
    ensures input != [] && input[0] != Csi ==> r == Err(Malformed)
    ensures r.Ok? ==> |r.value.1| < |input| && r.value.1 == input[|input| - |r.value.1|..]
  {
    if input == [] then Err(Io)
    else if input[0] != Csi then Err(Malformed)
    else
      ScanRest(input[1..], [], []);
      match Scan(input[1..], [], [])
      case Err(e) => Err(e)
      case Ok((params, last, rest)) =>
        var ps := if pushDefault && params == [] then [1] else params;
        match New(ByteChar(last), ps)
        case Err(e) => Err(e)
        case Ok(s) => Ok((s, rest))
  }

  /** `ANSIEscapeSequence::read` as written: with no parameter the list becomes [1]. */
  function ReadAsWritten(input: seq<byte>): Result<(Sequence, seq<byte>), EscapeError>
  {
    ReadWith(true, input)
  }

  /** The reader with each sequence's own default when no parameter is given. */
  function Read(input: seq<byte>): Result<(Sequence, seq<byte>), EscapeError>
  {
    ReadWith(false, input)
  }

  /** `ANSIEscapeSequence::read`, byte by byte (with the defaults of Read). */
  method ReadEscape(input: seq<byte>) returns (r: Result<(Sequence, seq<byte>), EscapeError>)
    ensures r == Read(input)
  {
    if |input| == 0 {
      return Err(Io);
    }
    if input[0] != Csi {
      return Err(Malformed);
    }
    ghost var scanned := Scan(input[1..], [], []);
    var params: seq<byte> := [];
    var buffer: string := [];
    var i := 1;
    var done := false;
    var last: byte := 0;
    while !done
      invariant 1 <= i <= |input|
      invariant !done ==> Scan(input[i..], buffer, params) == scanned
      invariant done ==> scanned == Ok((params, last, input[i..]))
      decreases |input| - i, if done then 0 else 1
    {
      if i == |input| {
        return Err(Io);
      }
      var b := input[i];
      assert input[i..][1..] == input[i + 1..];
      i := i + 1;
      if IsDigitByte(b) {
        buffer := buffer + [ByteChar(b)];
      } else {
        if buffer != [] {
          var v := ParseUnsigned(buffer, 10, U8_MAX);
          if v.None? {
            return Err(Io);
          }
          assert PushParam(buffer, params) == Ok(params + [v.value as byte]);
          params := params + [v.value as byte];
          buffer := [];
        }
        if b != Semicolon {
          last := b;
          done := true;
        }
      }
    }
    var s := New(ByteChar(last), params);
    if s.Err? {
      return Err(s.error);
    }
    return Ok((s.value, input[i..]));
  }

  // ------------------------------------------------------------ the writer

  /** The ASCII bytes of a string of ASCII characters. */
  function AsciiBytes(s: string): (r: seq<byte>)
    requires forall i :: 0 <= i < |s| ==> (s[i] as int) < 0x80
    ensures |r| == |s| && forall i :: 0 <= i < |s| ==> r[i] == s[i] as int
  {
    seq(|s|, i requires 0 <= i < |s| => (s[i] as int) as byte)
  }

  lemma DecimalAscii(n: nat)
    ensures forall i :: 0 <= i < |DecimalString(n)| ==> IsDigitByte(DecimalString(n)[i] as int)
  {
    var d := DecimalString(n);
    forall i | 0 <= i < |d| ensures IsDigitByte(d[i] as int) {
      assert DigitValue(d[i], 10) >= 0;
    }
  }

  /** The bytes of the decimal form of n. */
  function DecimalBytes(n: nat): (r: seq<byte>)
    ensures |r| > 0 && forall i :: 0 <= i < |r| ==> IsDigitByte(r[i])
  {
    DecimalAscii(n);
    AsciiBytes(DecimalString(n))
  }

  /** Parameters as a CSI sequence writes them: decimal, separated by ';'. */
  function ParamBytes(ps: seq<byte>): seq<byte>
  {
    if ps == [] then []
    else if |ps| == 1 then DecimalBytes(ps[0])
    else DecimalBytes(ps[0]) + [Semicolon] + ParamBytes(ps[1..])
  }

  /** The bytes of Display after ESC. */
  function DisplayBytes(s: Sequence): (r: seq<byte>)
  {
    [Csi] + DecimalBytes(s.n) + [Letter(s) as int as byte]
  }

  lemma DisplayBytesAreDisplay(s: Sequence)
    ensures forall i :: 0 <= i < |Display(s)| ==> (Display(s)[i] as int) < 0x80
    ensures DisplayBytes(s) == AsciiBytes(Display(s))[1..]
  {
    DisplayAscii(s);
    var d, w := Display(s), DisplayBytes(s);
    var a, ds, db := AsciiBytes(d), DecimalString(s.n), DecimalBytes(s.n);
    assert |w| == |a| - 1;
    forall i | 0 <= i < |w| ensures w[i] == a[i + 1] {
      if 1 <= i < |w| - 1 {
        assert w[i] == db[i - 1] == ds[i - 1] as int;
        assert d[i + 1] == ds[i - 1];
      }
    }
  }

  lemma DisplayAscii(s: Sequence)
    ensures forall i :: 0 <= i < |Display(s)| ==> (Display(s)[i] as int) < 0x80
  {
    var d := Display(s);
    DecimalAscii(s.n);
    assert forall i :: 0 <= i < |d| ==> (d[i] as int) < 0x80 by {
      forall i | 0 <= i < |d| ensures (d[i] as int) < 0x80 {
        if 2 <= i < |d| - 1 {
          assert d[i] == DecimalString(s.n)[i - 2];
        }
      }
    }
  }

  /** The characters accumulated from digit bytes. */
  function DigitChars(ds: seq<byte>): string
  {
    seq(|ds|, i requires 0 <= i < |ds| => ByteChar(ds[i]))
  }

  lemma {:induction false} ScanDigits(ds: seq<byte>, tail: seq<byte>, buffer: string, params: seq<byte>)
    requires forall i :: 0 <= i < |ds| ==> IsDigitByte(ds[i])
    ensures Scan(ds + tail, buffer, params) == Scan(tail, buffer + DigitChars(ds), params)
    decreases |ds|
  {
    if ds != [] {
      assert (ds + tail)[1..] == ds[1..] + tail;
      ScanDigits(ds[1..], tail, buffer + [ByteChar(ds[0])], params);
      assert buffer + [ByteChar(ds[0])] + DigitChars(ds[1..]) == buffer + DigitChars(ds);
    } else {
      assert ds + tail == tail;
      assert buffer + DigitChars(ds) == buffer;
    }
  }

  lemma DecimalDigitChars(n: nat)
    ensures DigitChars(DecimalBytes(n)) == DecimalString(n)
  {
    DecimalAscii(n);
  }

  /** The characters of a written parameter, pushed as that parameter. */
  lemma PushWrittenParam(p: byte, params: seq<byte>)
    ensures PushParam(DigitChars(DecimalBytes(p)), params) == Ok(params + [p])
  {
    DecimalDigitChars(p);
    ParseDecimalString(p, U8_MAX);
  }

  /** Reading one written parameter and the byte after it. */
  lemma ScanParam(p: byte, b: byte, tail: seq<byte>, params: seq<byte>)
    requires !IsDigitByte(b)
    ensures Scan(DecimalBytes(p) + [b] + tail, [], params)
         == if b == Semicolon then Scan(tail, [], params + [p]) else Ok((params + [p], b, tail))
  {
    var d := DecimalBytes(p);
    assert d + [b] + tail == d + ([b] + tail);
    ScanDigits(d, [b] + tail, [], params);
    assert [] + DigitChars(d) == DigitChars(d);
    PushWrittenParam(p, params);
    ScanStop(b, tail, DigitChars(d), params);
  }

  /** A byte other than a digit ends the parameter in the buffer. */
  lemma ScanStop(b: byte, tail: seq<byte>, buffer: string, params: seq<byte>)
    requires !IsDigitByte(b) && PushParam(buffer, params).Ok?
    ensures Scan([b] + tail, buffer, params)
         == if b == Semicolon then Scan(tail, [], PushParam(buffer, params).value) else Ok((PushParam(buffer, params).value, b, tail))
  {
    assert ([b] + tail)[0] == b;
    assert ([b] + tail)[1..] == tail;
  }

  /** A final byte with no parameter before it. */
  lemma ScanFinal(last: byte, rest: seq<byte>, params: seq<byte>)
    requires !IsDigitByte(last) && last != Semicolon
    ensures Scan([last] + rest, [], params) == Ok((params, last, rest))
  {
    assert ([last] + rest)[1..] == rest;
  }

  /** Written parameters, then a final byte, read back as those parameters. */
  lemma {:induction false} ScanParams(ps: seq<byte>, last: byte, rest: seq<byte>, params: seq<byte>)
    requires !IsDigitByte(last) && last != Semicolon
    ensures Scan(ParamBytes(ps) + [last] + rest, [], params) == Ok((params + ps, last, rest))
    decreases |ps|
  {
    if ps == [] {
      ScanNoParams(last, rest, params);
    } else if |ps| == 1 {
      ScanOneParam(ps, last, rest, params);
    } else {
      ScanParams(ps[1..], last, rest, params + [ps[0]]);
      ScanParamsStep(ps, last, rest, params);
    }
  }

  lemma ScanNoParams(last: byte, rest: seq<byte>, params: seq<byte>)
    requires !IsDigitByte(last) && last != Semicolon
    ensures Scan(ParamBytes([]) + [last] + rest, [], params) == Ok((params + [], last, rest))
  {
    assert ParamBytes([]) + [last] + rest == [last] + rest;
    ScanFinal(last, rest, params);
    assert params + [] == params;
  }

  lemma ScanOneParam(ps: seq<byte>, last: byte, rest: seq<byte>, params: seq<byte>)
    requires |ps| == 1 && !IsDigitByte(last) && last != Semicolon
    ensures Scan(ParamBytes(ps) + [last] + rest, [], params) == Ok((params + ps, last, rest))
  {
    ScanParam(ps[0], last, rest, params);
    assert params + [ps[0]] == params + ps;
  }

  /** Several parameters: the first, its ';', then the others as the induction gives them. */
  lemma ScanParamsStep(ps: seq<byte>, last: byte, rest: seq<byte>, params: seq<byte>)
    requires |ps| >= 2
    requires Scan(ParamBytes(ps[1..]) + [last] + rest, [], params + [ps[0]]) == Ok((params + [ps[0]] + ps[1..], last, rest))
    ensures Scan(ParamBytes(ps) + [last] + rest, [], params) == Ok((params + ps, last, rest))
  {
    var tail := ParamBytes(ps[1..]) + [last] + rest;
    calc {
      Scan(ParamBytes(ps) + [last] + rest, [], params);
      == { ParamBytesCons(ps, last, rest); }
      Scan(DecimalBytes(ps[0]) + [Semicolon] + tail, [], params);
      == { ScanParam(ps[0], Semicolon, tail, params); }
      Scan(tail, [], params + [ps[0]]);
      == { assert params + [ps[0]] + ps[1..] == params + ps; }
      Ok((params + ps, last, rest));
    }
  }

  lemma ParamBytesCons(ps: seq<byte>, last: byte, rest: seq<byte>)
    requires |ps| >= 2
    ensures ParamBytes(ps) + [last] + rest == DecimalBytes(ps[0]) + [Semicolon] + (ParamBytes(ps[1..]) + [last] + rest)
  {
    var d, more := DecimalBytes(ps[0]), ParamBytes(ps[1..]);
    assert ParamBytes(ps) == d + [Semicolon] + more;
    AppendAssoc(d + [Semicolon], more, [last] + rest);
    AppendAssoc(d + [Semicolon] + more, [last], rest);
    AppendAssoc(more, [last], rest);
  }


  /** Reading a written sequence: '[', parameters and final byte. */
  lemma ReadWritten(pushDefault: bool, ps: seq<byte>, last: byte, rest: seq<byte>)
    requires !IsDigitByte(last) && last != Semicolon
    ensures ReadWith(pushDefault, [Csi] + ParamBytes(ps) + [last] + rest)
         == match New(ByteChar(last), if pushDefault && ps == [] then [1] else ps)
            case Err(e) => Err(e)
            case Ok(s) => Ok((s, rest))
  {
    var input := [Csi] + ParamBytes(ps) + [last] + rest;
    assert input[1..] == ParamBytes(ps) + [last] + rest;
    ScanParams(ps, last, rest, []);
    assert [] + ps == ps;
  }

  lemma LetterRoundTrip(s: Sequence)
    ensures ByteChar(Letter(s) as int as byte) == Letter(s)
    ensures !IsDigitByte(Letter(s) as int as byte) && Letter(s) as int as byte != Semicolon
  {
  }

  /** Display, after its ESC, reads back as the same sequence, by both readers. */
  lemma ReadDisplay(s: Sequence, rest: seq<byte>)
    ensures Read(DisplayBytes(s) + rest) == Ok((s, rest))
    ensures ReadAsWritten(DisplayBytes(s) + rest) == Ok((s, rest))
  {
    var last := Letter(s) as int as byte;
    LetterRoundTrip(s);
    assert ParamBytes([s.n]) == DecimalBytes(s.n);
    assert DisplayBytes(s) + rest == [Csi] + ParamBytes([s.n]) + [last] + rest;
    ReadWritten(false, [s.n], last, rest);
    ReadWritten(true, [s.n], last, rest);
    assert Make(Letter(s), s.n) == s;
  }

  /** More than one parameter is an error for every supported sequence. */
  lemma ReadTooManyParams(ps: seq<byte>, s: Sequence, rest: seq<byte>)
    requires |ps| > 1
    ensures Read([Csi] + ParamBytes(ps) + [Letter(s) as int as byte] + rest) == Err(NumParams(1, |ps|))
  {
    LetterRoundTrip(s);
    ReadWritten(false, ps, Letter(s) as int as byte, rest);
  }

  /** A final byte that is no supported letter is reported as it is. */
  lemma ReadUnsupported(ps: seq<byte>, last: byte, rest: seq<byte>)
    requires !IsDigitByte(last) && last != Semicolon && !IsFinal(ByteChar(last))
    ensures Read([Csi] + ParamBytes(ps) + [last] + rest) == Err(Unsupported(ByteChar(last)))
    ensures ReadAsWritten([Csi] + ParamBytes(ps) + [last] + rest) == Err(Unsupported(ByteChar(last)))
  {
    ReadWritten(false, ps, last, rest);
    ReadWritten(true, ps, last, rest);
  }

  /** The two readers differ only on an erase in line without parameters. */
  lemma AsWrittenAgrees(input: seq<byte>)
    requires input != [] && input[0] == Csi
    requires Scan(input[1..], [], []).Ok? ==>
      Scan(input[1..], [], []).value.0 != [] || ByteChar(Scan(input[1..], [], []).value.1) != 'K'
    ensures ReadAsWritten(input) == Read(input)
  {
  }

  /** "[A" is a cursor up by one, with either reader. */
  lemma CursorUpDefault()
    ensures Read([0x5B, 0x41]) == Ok((CursorUp(1), []))
    ensures ReadAsWritten([0x5B, 0x41]) == Ok((CursorUp(1), []))
  {
    assert [0x5B, 0x41] == [Csi] + ParamBytes([]) + [0x41] + [];
    ReadWritten(false, [], 0x41, []);
    ReadWritten(true, [], 0x41, []);
  }

  /** "[10A" is a cursor up by ten. */
  lemma CursorUpTen()
    ensures Read([0x5B, 0x31, 0x30, 0x41]) == Ok((CursorUp(10), []))
  {
    DecimalTen();
    assert DisplayBytes(CursorUp(10)) + [] == [0x5B, 0x31, 0x30, 0x41];
    ReadDisplay(CursorUp(10), []);
  }

  lemma DecimalTen()
    ensures DecimalString(10) == "10"
  {
  }

  /** "[K" is read as an erase in line of 1 by the source, where its default is 0. */
  lemma EraseInLineDefault()
    ensures ReadAsWritten([0x5B, 0x4B]) == Ok((EraseInLine(1), []))
    ensures Read([0x5B, 0x4B]) == Ok((EraseInLine(0), []))
  {
    assert [0x5B, 0x4B] == [Csi] + ParamBytes([]) + [0x4B] + [];
    ReadWritten(false, [], 0x4B, []);
    ReadWritten(true, [], 0x4B, []);
  }

  /** A parameter that does not fit a byte is an error. */
  lemma ReadParameterTooLarge(n: nat, last: byte, rest: seq<byte>)
    requires n > U8_MAX && !IsDigitByte(last)
    ensures Read([Csi] + DecimalBytes(n) + [last] + rest) == Err(Io)
    ensures ReadAsWritten([Csi] + DecimalBytes(n) + [last] + rest) == Err(Io)
  {
    var input := [Csi] + DecimalBytes(n) + [last] + rest;
    assert input[1..] == DecimalBytes(n) + ([last] + rest);
    ScanDigits(DecimalBytes(n), [last] + rest, [], []);
    DecimalDigitChars(n);
    assert [] + DecimalString(n) == DecimalString(n);
    assert PushParam(DecimalString(n), []) == Err(Io);
  }

  lemma DisplayTests()
    ensures Display(CursorUp(10)) == "\U{1B}[10A"
    ensures Display(EraseInLine(0)) == "\U{1B}[0K"
  {
    DecimalTen();
    assert DecimalString(0) == "0";
  }
}
