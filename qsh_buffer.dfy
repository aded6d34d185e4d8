// The line buffer of the qsh shell: chars typed at a cursor, echoed when
// typed at the end, handed out as a line when a newline arrives.
module QshBuffer {
  import opened Wrappers
  import Bytes

  /** The error the reader gives when it runs dry before a full char. */
  datatype IoError = UnexpectedEof

  /** `read_char`: one byte, taken as the char with that code. */
  function ByteChar(b: Bytes.byte): (c: char)
    ensures c as int == b
  {
    b as char
  }

  /** The chars the reader gives for a run of bytes, one per byte. */
  function Chars(bs: seq<Bytes.byte>): (cs: string)
    ensures |cs| == |bs| && forall i :: 0 <= i < |bs| ==> cs[i] as int == bs[i]
  {
    seq(|bs|, i requires 0 <= i < |bs| => ByteChar(bs[i]))
  }

  /** c put at the cursor, everything from the cursor on moving one place right. */
  function Inserted(buffer: string, position: nat, c: char): (r: string)
    requires position <= |buffer|
    ensures |r| == |buffer| + 1 && r[position] == c
    ensures r[..position] == buffer[..position] && r[position + 1..] == buffer[position..]
  {
    buffer[..position] + [c] + buffer[position..]
  }

  /** The buffer once the chars cs are typed at a cursor starting at position. */
  function Typed(buffer: string, position: nat, cs: string): (r: string)
    requires position <= |buffer|
    ensures |r| == |buffer| + |cs|
  {
    if cs == [] then buffer
    else Inserted(Typed(buffer, position, cs[..|cs| - 1]), position + |cs| - 1, cs[|cs| - 1])
  }

  /** What typing the chars cs echoes: each char typed at the end of the buffer. */
  function Echoed(buffer: string, position: nat, cs: string): string
    requires position <= |buffer|
  {
    if cs == [] then []
    else
      var before := Typed(buffer, position, cs[..|cs| - 1]);
      Echoed(buffer, position, cs[..|cs| - 1]) + (if position + |cs| - 1 == |before| then [cs[|cs| - 1]] else [])
  }

  /** Typing at the end of the buffer appends the chars and echoes each of them. */
  lemma {:induction false} TypedAtEnd(buffer: string, cs: string)
    ensures Typed(buffer, |buffer|, cs) == buffer + cs
    ensures Echoed(buffer, |buffer|, cs) == cs
  {
    if cs != [] {
      var init := cs[..|cs| - 1];
      TypedAtEnd(buffer, init);
      assert buffer + init + [cs[|cs| - 1]] == buffer + cs by {
        assert init + [cs[|cs| - 1]] == cs;
      }
      assert init + [cs[|cs| - 1]] == cs;
    }
  }

  /** The first newline byte of a run of bytes, if there is one. */
  function NewlineIndex(bs: seq<Bytes.byte>): (r: Option<nat>)
    ensures r.Some? ==> r.value < |bs| && bs[r.value] == 10 && forall j :: 0 <= j < r.value ==> bs[j] != 10
    ensures r.None? ==> forall j :: 0 <= j < |bs| ==> bs[j] != 10
  {
    if bs == [] then None
    else if bs[0] == 10 then Some(0)
    else match NewlineIndex(bs[1..])
      case None => None
      case Some(k) => Some(k + 1)
  }

  /** `Buffer`: the typed line, the cursor, and the reader and writer it sits between. */
  class Buffer {
    /** What is typed so far. */
    var buffer: string
    /** The cursor, as a char index into the buffer. */
    var position: nat
    /** The bytes the reader has still to give. */
    var input: seq<Bytes.byte>
    /** Everything written to the writer so far. */
    var output: string

    ghost predicate Valid()
      reads this
    {
      position <= |buffer|
    }

    /** The fields, as one value. */
    function State(): ReadState
      reads this
    {
      ReadState(buffer, position, input, output)
    }

    /** `Buffer::new`: nothing typed, the cursor at 0. */
    constructor(input: seq<Bytes.byte>)
      ensures Valid()
      ensures buffer == [] && position == 0 && this.input == input && output == []
    {
      buffer := [];
      position := 0;
      this.input := input;
      output := [];
    }

    /** `push_char`: at the end the char is appended and echoed; before it, inserted silently. */
    method PushChar(c: char)
      requires Valid()
      modifies this
      ensures Valid()
      ensures buffer == Inserted(old(buffer), old(position), c)
      ensures position == old(position) + 1
      ensures output == old(output) + (if old(position) == |old(buffer)| then [c] else [])
      ensures input == old(input)
    {
      if position == |buffer| {
        buffer := buffer + [c];
        output := output + [c];
      } else {
        buffer := buffer[..position] + [c] + buffer[position..];
      }
      position := position + 1;
    }

    /** `flush`: hands out the line and empties the buffer. */
    method Flush() returns (line: string)
      modifies this
      ensures line == old(buffer)
      ensures buffer == [] && position == 0 && Valid()
      ensures input == old(input) && output == old(output)
    {
      line := buffer;
      buffer := [];
      position := 0;
    }

    /** `read_char`: the next byte as a char, or an error at the end of the input. */
    method ReadChar() returns (r: Result<char, IoError>)
      modifies this
      ensures old(input) == [] ==> r == Err(UnexpectedEof) && input == old(input)
      ensures old(input) != [] ==> r == Ok(ByteChar(old(input)[0])) && input == old(input)[1..]
      ensures buffer == old(buffer) && position == old(position) && output == old(output)
    {
      if input == [] {
        return Err(UnexpectedEof);
      }
      r := Ok(ByteChar(input[0]));
      input := input[1..];
    }

    /**
     * `read`: types every char up to the first newline, echoes a newline and
     * hands out the line; if the input runs out first, the error is returned
     * and what was typed stays in the buffer.
     */
    method Read() returns (r: Result<string, IoError>)
      requires Valid()
      modifies this
      ensures Valid()
      ensures (r, State()) == Reading(old(State()))
    {
      ghost var target := Reading(State());
      while true
        invariant Valid()
        invariant Reading(State()) == target
        decreases |input|
      {
        var c := ReadChar();
        if c.Err? {
          return Err(c.error);
        }
        if c.value == '\n' {
          output := output + ['\n'];
          var line := Flush();
          return Ok(line);
        }
        PushChar(c.value);
      }
    }
  }

  /** The state `read` works on: the fields of a `Buffer`. */
  datatype ReadState = ReadState(buffer: string, position: nat, input: seq<Bytes.byte>, output: string)

  /** What `read` does to a state, one byte at a time. */
  function Reading(s: ReadState): (Result<string, IoError>, ReadState)
    requires s.position <= |s.buffer|
    decreases |s.input|
  {
    if s.input == [] then (Err(UnexpectedEof), s)
    else if s.input[0] == 10 then (Ok(s.buffer), ReadState([], 0, s.input[1..], s.output + ['\n']))
    else
      var c := ByteChar(s.input[0]);
      Reading(ReadState(Inserted(s.buffer, s.position, c), s.position + 1, s.input[1..],
                        s.output + (if s.position == |s.buffer| then [c] else [])))
  }

  /** The state reached from (b0, p0, _, o0) by typing the bytes consumed, with rest left to read. */
  function Typing(b0: string, p0: nat, o0: string, consumed: seq<Bytes.byte>, rest: seq<Bytes.byte>): (s: ReadState)
    requires p0 <= |b0|
    ensures s.position <= |s.buffer|
  {
    ReadState(Typed(b0, p0, Chars(consumed)), p0 + |consumed|, rest, o0 + Echoed(b0, p0, Chars(consumed)))
  }

  /**
   * What `read` is meant to give: with a newline in the input, the chars
   * before the first one typed at the cursor, handed out as the line, and
   * the buffer emptied; without one, every char typed and an error.
   */
  function ReadOutcome(b0: string, p0: nat, in0: seq<Bytes.byte>, o0: string): (Result<string, IoError>, ReadState)
    requires p0 <= |b0|
  {
    match NewlineIndex(in0)
    case Some(k) =>
      var cs := Chars(in0[..k]);
      (Ok(Typed(b0, p0, cs)), ReadState([], 0, in0[k + 1..], o0 + Echoed(b0, p0, cs) + ['\n']))
    case None =>
      var cs := Chars(in0);
      (Err(UnexpectedEof), ReadState(Typed(b0, p0, cs), p0 + |cs|, [], o0 + Echoed(b0, p0, cs)))
  }

  /** Reading a byte other than a newline types it. */
  lemma ReadingTypes(b0: string, p0: nat, o0: string, consumed: seq<Bytes.byte>, rest: seq<Bytes.byte>)
    requires p0 <= |b0| && rest != [] && rest[0] != 10
    ensures Reading(Typing(b0, p0, o0, consumed, rest)) == Reading(Typing(b0, p0, o0, consumed + [rest[0]], rest[1..]))
  {
    TypedStep(b0, p0, consumed, rest[0]);
    var s := Typing(b0, p0, o0, consumed, rest);
    var c := ByteChar(rest[0]);
    var echo := if s.position == |s.buffer| then [c] else [];
    Bytes.AppendAssoc(o0, Echoed(b0, p0, Chars(consumed)), echo);
    assert ReadState(Inserted(s.buffer, s.position, c), s.position + 1, rest[1..], s.output + echo)
        == Typing(b0, p0, o0, consumed + [rest[0]], rest[1..]);
  }

  /** Reading stops at the end of the input or at the first newline. */
  lemma ReadingStops(b0: string, p0: nat, in0: seq<Bytes.byte>, o0: string,
                     consumed: seq<Bytes.byte>, rest: seq<Bytes.byte>)
    requires p0 <= |b0| && in0 == consumed + rest && (rest == [] || rest[0] == 10)
    requires forall j :: 0 <= j < |consumed| ==> consumed[j] != 10
    ensures Reading(Typing(b0, p0, o0, consumed, rest)) == ReadOutcome(b0, p0, in0, o0)
  {
    if rest == [] {
      NoNewline(in0, consumed, rest);
    } else {
      NewlineExit(in0, consumed, rest);
    }
  }

  /** Reading from the state after typing the bytes consumed gives the outcome for the whole input. */
  lemma {:induction false} ReadingMeaning(b0: string, p0: nat, in0: seq<Bytes.byte>, o0: string,
                                          consumed: seq<Bytes.byte>, rest: seq<Bytes.byte>)
    requires p0 <= |b0| && in0 == consumed + rest
    requires forall j :: 0 <= j < |consumed| ==> consumed[j] != 10
    ensures Reading(Typing(b0, p0, o0, consumed, rest)) == ReadOutcome(b0, p0, in0, o0)
    decreases |rest|
  {
    if rest == [] || rest[0] == 10 {
      ReadingStops(b0, p0, in0, o0, consumed, rest);
    } else {
      ReadingTypes(b0, p0, o0, consumed, rest);
      assert (consumed + [rest[0]]) + rest[1..] == in0 by {
        assert [rest[0]] + rest[1..] == rest;
        Bytes.AppendAssoc(consumed, [rest[0]], rest[1..]);
      }
      ReadingMeaning(b0, p0, in0, o0, consumed + [rest[0]], rest[1..]);
    }
  }

  /** `read` from any state gives the intended outcome. */
  lemma ReadingIsOutcome(s: ReadState)
    requires s.position <= |s.buffer|
    ensures Reading(s) == ReadOutcome(s.buffer, s.position, s.input, s.output)
  {
    ReadingMeaning(s.buffer, s.position, s.input, s.output, [], s.input);
    TypingNothing(s.buffer, s.position, s.output, s.input);
  }

  /** Before any byte is consumed, the state is the one reading started from. */
  lemma TypingNothing(b0: string, p0: nat, o0: string, rest: seq<Bytes.byte>)
    requires p0 <= |b0|
    ensures Typing(b0, p0, o0, [], rest) == ReadState(b0, p0, rest, o0)
  {
    var cs := Chars([]);
    assert cs == [];
    assert Typed(b0, p0, cs) == b0;
    assert Echoed(b0, p0, cs) == [];
    assert o0 + [] == o0;
  }


  /** One more char typed: inserted at the cursor, echoed if the cursor is at the end. */
  lemma TypedStep(buffer: string, position: nat, bs: seq<Bytes.byte>, b: Bytes.byte)
    requires position <= |buffer|
    ensures var cs := Chars(bs + [b]);
      && Typed(buffer, position, cs)
         == Inserted(Typed(buffer, position, Chars(bs)), position + |bs|, ByteChar(b))
      && Echoed(buffer, position, cs)
         == Echoed(buffer, position, Chars(bs))
            + (if position + |bs| == |Typed(buffer, position, Chars(bs))| then [ByteChar(b)] else [])
  {
    var cs := Chars(bs + [b]);
    assert cs[..|cs| - 1] == Chars(bs);
  }

  /** The input ran out with no newline among the bytes consumed. */
  lemma NoNewline(in0: seq<Bytes.byte>, consumed: seq<Bytes.byte>, rest: seq<Bytes.byte>)
    requires in0 == consumed + rest && rest == []
    requires forall j :: 0 <= j < |consumed| ==> consumed[j] != 10
    ensures NewlineIndex(in0).None? && Chars(in0) == Chars(consumed)
  {
    assert in0 == consumed;
  }

  /** The byte read was the first newline: the line is what came before it. */
  lemma NewlineExit(in0: seq<Bytes.byte>, consumed: seq<Bytes.byte>, rest: seq<Bytes.byte>)
    requires in0 == consumed + rest && rest != [] && rest[0] == 10
    requires forall j :: 0 <= j < |consumed| ==> consumed[j] != 10
    ensures NewlineIndex(in0) == Some(|consumed|)
    ensures in0[..|consumed|] == consumed && in0[|consumed| + 1..] == rest[1..]
  {
    NewlineFirst(in0, |consumed|);
  }

  /** A newline at k with none before it is the first newline. */
  lemma {:induction false} NewlineFirst(bs: seq<Bytes.byte>, k: nat)
    requires k < |bs| && bs[k] == 10 && forall j :: 0 <= j < k ==> bs[j] != 10
    ensures NewlineIndex(bs) == Some(k)
  {
    if k > 0 {
      NewlineFirst(bs[1..], k - 1);
    }
  }

  /** On a new buffer, `read` hands out exactly the chars before the first newline and echoes them with it. */
  lemma ReadFresh(bs: seq<Bytes.byte>, k: nat)
    requires k < |bs| && bs[k] == 10 && forall j :: 0 <= j < k ==> bs[j] != 10
    ensures Reading(ReadState([], 0, bs, [])) == (Ok(Chars(bs[..k])), ReadState([], 0, bs[k + 1..], Chars(bs[..k]) + ['\n']))
  {
    FreshOutcome(bs, k);
    ReadingIsOutcome(ReadState([], 0, bs, []));
  }

  lemma FreshOutcome(bs: seq<Bytes.byte>, k: nat)
    requires k < |bs| && bs[k] == 10 && forall j :: 0 <= j < k ==> bs[j] != 10
    ensures ReadOutcome([], 0, bs, []) == (Ok(Chars(bs[..k])), ReadState([], 0, bs[k + 1..], Chars(bs[..k]) + ['\n']))
  {
    var cs := Chars(bs[..k]);
    NewlineFirst(bs, k);
    TypedAtEnd([], cs);
    var e: string := [];
    assert e + cs + ['\n'] == cs + ['\n'];
    assert e + cs == cs;
    assert Typed(e, 0, cs) == cs;
    assert Echoed(e, 0, cs) == cs;
  }

  // ----- push_char as written -----

  /** What push_char does as written, or that it panics. */
  datatype PushOutcome = Pushed(buffer: string, position: nat, echo: string) | Panicked

  /** The char index whose UTF-8 byte offset in s is b, if b falls on a char boundary. */
  function CharIndexAt(s: string, b: nat): (r: Option<nat>)
    ensures r.Some? ==> r.value <= |s| && Bytes.Utf8StringLength(s[..r.value]) == b
    decreases |s|
  {
    if b == 0 then Some(0)
    else if s == [] then None
    else
      var n := Bytes.Utf8Length(s[0]);
      if b < n then None
      else match CharIndexAt(s[1..], b - n)
        case None => None
        case Some(j) =>
          assert s[..j + 1] == [s[0]] + s[1..][..j];
          Utf8StringLengthCons(s[0], s[1..][..j]);
          Some(j + 1)
  }

  lemma Utf8StringLengthCons(c: char, s: string)
    ensures Bytes.Utf8StringLength([c] + s) == Bytes.Utf8Length(c) + Bytes.Utf8StringLength(s)
  {
    assert ([c] + s)[0] == c && ([c] + s)[1..] == s;
  }

  /**
   * `push_char` as written: the cursor counts chars, but it is compared with
   * the buffer's length in bytes and used as a byte offset for the insertion,
   * which panics off a char boundary.
   */
  function PushCharAsWritten(buffer: string, position: nat, c: char): PushOutcome
  {
    if position == Bytes.Utf8StringLength(buffer) then Pushed(buffer + [c], position + 1, [c])
    else match CharIndexAt(buffer, position)
      case None => Panicked
      case Some(j) => Pushed(buffer[..j] + [c] + buffer[j..], position + 1, [])
  }

  /** On an ASCII buffer the byte and the char counts agree, and push_char as written does as `PushChar`. */
  lemma PushCharAsciiAgrees(buffer: string, position: nat, c: char)
    requires Bytes.IsAsciiString(buffer) && position <= |buffer|
    ensures PushCharAsWritten(buffer, position, c)
         == Pushed(Inserted(buffer, position, c), position + 1, if position == |buffer| then [c] else [])
  {
    Bytes.AsciiStringLength(buffer);
    if position != |buffer| {
      AsciiCharIndex(buffer, position);
    }
  }

  lemma {:induction false} AsciiCharIndex(s: string, j: nat)
    requires Bytes.IsAsciiString(s) && j <= |s|
    ensures CharIndexAt(s, j) == Some(j)
  {
    if j > 0 {
      assert Bytes.IsAsciiString(s[1..]) by {
        forall i | 0 <= i < |s[1..]| ensures (s[1..][i] as int) < 0x80 {
          assert s[1..][i] == s[i + 1];
        }
      }
      assert Bytes.Utf8Length(s[0]) == 1;
      AsciiCharIndex(s[1..], j - 1);
    }
  }

  /**
   * Typing the byte 0xE9 and then 'a': the first char is stored as two UTF-8
   * bytes while the cursor moves by one, so the second push inserts at byte
   * offset 1, inside that char, and panics. `Buffer.PushChar` appends it.
   */
  lemma PushCharNonAsciiPanics()
    ensures PushCharAsWritten([], 0, ByteChar(0xE9)) == Pushed([ByteChar(0xE9)], 1, [ByteChar(0xE9)])
    ensures PushCharAsWritten([ByteChar(0xE9)], 1, 'a') == Panicked
    ensures Inserted([ByteChar(0xE9)], 1, 'a') == [ByteChar(0xE9), 'a']
  {
    var e := ByteChar(0xE9);
    assert Bytes.Utf8Length(e) == 2;
    assert Bytes.Utf8StringLength([e]) == 2 by {
      assert [e][1..] == [];
    }
  }
}
