// The qsh tokenizer: consumers that each try to read one kind of token at a
// position of a sequence of chars. A consumer either declines (no token
// starts here), produces a token recording the literal text it covered, its
// start, its length and what it decodes to, or fails.
module QshConsumers {
  import opened Wrappers
  import opened Text
  import Bytes

  /** A token: the text it covers, where it starts, how many chars it spans and its payload. */
  datatype Token<T> = Token(literal: string, start: nat, length: nat, token: T)

  /** The parser errors the consumers report, each with the text the source gives it. */
  datatype ErrorKind = InvalidEscapeSequence | UnknownEscape(c: char) | ExpectedClosingQuote(q: Quote)

  /** The panics of a hexadecimal escape whose digits name no char. */
  datatype PanicKind = InvalidHexDigits(digits: string) | InvalidCodePoint(value: nat)

  /** A parser error at a position, or a panic (kept as a value here). */
  datatype Failure = ParserError(kind: ErrorKind, start: nat) | Panic(reason: PanicKind)

  /** The message of a parser error. */
  function ErrorMessage(k: ErrorKind): string
  {
    match k
    case InvalidEscapeSequence => "Invalid escape sequence"
    case UnknownEscape(c) => "Invalid escape sequence: \\" + [c]
    case ExpectedClosingQuote(q) => "Expected closing quote: " + [QuoteChar(q)]
  }

  /** The message of a panic. */
  function PanicMessage(k: PanicKind): string
  {
    match k
    case InvalidHexDigits(digits) => "BUG: Invalid hex character: " + digits
    case InvalidCodePoint(value) => "BUG: Invalid hex character from u32: " + DecimalString(value)
  }

  type Parsed<T> = Result<Option<Token<T>>, Failure>

  /** The two quoting styles of a quoted string. */
  datatype Quote = Single | Double

  function QuoteChar(q: Quote): char
  {
    match q
    case Single => '\''
    case Double => '"'
  }

  /** `has_available_chars`: at least len chars are left from start. */
  predicate HasAvailableChars(input: string, start: nat, len: nat)
  {
    start + len <= |input|
  }

  /** The token covers exactly the chars input[start..start + length], at least one of them. */
  predicate Spans<T>(t: Token<T>, input: string, start: nat)
  {
    t.start == start && t.length > 0 && start + t.length <= |input| &&
    t.literal == input[start..start + t.length]
  }

  /** The characters a backslash escapes, and what each decodes to. */
  const EscapedChars: map<char, char> :=
    map['b' := '\U{0008}', 'f' := '\U{000C}', 'n' := '\n', 'r' := '\r', 't' := '\t', '\\' := '\\']

  /** `char::is_ascii_hexdigit`. */
  predicate IsHexDigit(c: char)
  {
    '0' <= c <= '9' || 'a' <= c <= 'f' || 'A' <= c <= 'F'
  }

  /** The code points `char::from_u32` rejects below 0x110000. */
  predicate IsSurrogate(n: int)
  {
    0xD800 <= n <= 0xDFFF
  }

  /** The characters with a meaning of their own: the escape and both quotes. */
  predicate Special(c: char) { c == '\\' || c == '\'' || c == '"' }

  /** The characters an unquoted character may not be. */
  predicate Breaks(c: char) { Special(c) || IsWhitespace(c) }

  /** The kinds of char a scan stops at. */
  datatype Stop = AtWhitespace | AtNonWhitespace | AtNonHexDigit | AtQuoteStop(q: Quote) | AtBreak | AtSpecial

  predicate Stops(stop: Stop, c: char)
  {
    match stop
    case AtWhitespace => IsWhitespace(c)
    case AtNonWhitespace => !IsWhitespace(c)
    case AtNonHexDigit => !IsHexDigit(c)
    case AtQuoteStop(q) => c == '\\' || c == QuoteChar(q)
    case AtBreak => Breaks(c)
    case AtSpecial => Special(c)
  }

  /** The first position at or after from whose char satisfies stop, or the end. */
  function Scan(s: string, from: nat, stop: Stop): (k: nat)
    requires from <= |s|
    ensures from <= k <= |s|
    decreases |s| - from
  {
    if from == |s| || Stops(stop, s[from]) then from else Scan(s, from + 1, stop)
  }

  /** Scan stops at the first stopping char, or at the end. */
  lemma {:induction false} ScanFacts(s: string, from: nat, stop: Stop)
    requires from <= |s|
    ensures var k := Scan(s, from, stop);
      && (forall j :: from <= j < k ==> !Stops(stop, s[j]))
      && (k < |s| ==> Stops(stop, s[k]))
    decreases |s| - from
  {
    if from < |s| && !Stops(stop, s[from]) {
      ScanFacts(s, from + 1, stop);
    }
  }

  /** Scan finds the first stopping char, so any position with that property is where it stops. */
  lemma {:induction false} ScanExact(s: string, from: nat, stop: Stop, k: nat)
    requires from <= k <= |s|
    requires forall j :: from <= j < k ==> !Stops(stop, s[j])
    requires k < |s| ==> Stops(stop, s[k])
    ensures Scan(s, from, stop) == k
    decreases k - from
  {
    if from < k {
      ScanExact(s, from + 1, stop, k);
    }
  }

  /** Two adjacent slices make up the slice that spans both. */
  lemma Adjacent(s: string, a: nat, b: nat, c: nat)
    requires a <= b <= c <= |s|
    ensures s[a..b] + s[b..c] == s[a..c]
  {
  }

  /** The literal read so far, then the next token's, is the input up to that token's end. */
  lemma LiteralGrows<T>(input: string, start: nat, length: nat, literal: string, t: Token<T>)
    requires Spans(t, input, start + length) && literal == input[start..start + length]
    ensures literal + t.literal == input[start..start + length + t.length]
  {
    Adjacent(input, start, start + length, start + length + t.length);
  }

  // ----- Whitespace -----

  /** The maximal run of whitespace at start. */
  function WhitespaceRun(input: string, start: nat): (w: string)
    requires start <= |input|
    ensures start + |w| <= |input| && w == input[start..start + |w|]
    ensures forall j :: start <= j < start + |w| ==> IsWhitespace(input[j])
    ensures start + |w| < |input| ==> !IsWhitespace(input[start + |w|])
  {
    ScanFacts(input, start, AtNonWhitespace);
    input[start..Scan(input, start, AtNonWhitespace)]
  }

  /** `Whitespace::try_consume` as written: the length is the run's UTF-8 byte count. */
  function WhitespaceAsWritten(input: string, start: nat): (r: Parsed<()>)
    requires start <= |input|
    ensures r.Ok?
    ensures r.value.None? <==> start == |input| || !IsWhitespace(input[start])
    ensures r.value.Some? ==>
      && r.value.value.start == start
      && r.value.value.literal == WhitespaceRun(input, start)
      && r.value.value.length == Bytes.Utf8StringLength(r.value.value.literal)
  {
    var literal := WhitespaceRun(input, start);
    if literal == [] then Ok(None)
    else Ok(Some(Token(literal, start, Bytes.Utf8StringLength(literal), ())))
  }

  /** `Whitespace::try_consume`, counting the run in chars like every other position. */
  function Whitespace(input: string, start: nat): (r: Parsed<()>)
    requires start <= |input|
    ensures r.Ok?
    ensures r.value.None? <==> start == |input| || !IsWhitespace(input[start])
    ensures r.value.Some? ==> Spans(r.value.value, input, start)
    ensures r.value.Some? ==>
      forall j :: start <= j < start + r.value.value.length ==> IsWhitespace(input[j])
    ensures r.value.Some? && start + r.value.value.length < |input| ==>
      !IsWhitespace(input[start + r.value.value.length])
  {
    var literal := WhitespaceRun(input, start);
    if literal == [] then Ok(None)
    else Ok(Some(Token(literal, start, |literal|, ())))
  }

  /** On ASCII input the byte count and the char count agree. */
  lemma WhitespaceAscii(input: string, start: nat)
    requires start <= |input| && Bytes.IsAsciiString(input)
    ensures WhitespaceAsWritten(input, start) == Whitespace(input, start)
  {
    var w := WhitespaceRun(input, start);
    assert Bytes.IsAsciiString(w) by {
      forall j | 0 <= j < |w| ensures (w[j] as int) < 0x80 {
        assert w[j] == input[start + j];
      }
    }
    Bytes.AsciiStringLength(w);
  }

  /**
   * An ideographic space between two letters: the run at 1 is one char long,
   * but the token as written claims three, reaching past the end of the input.
   */
  lemma WhitespaceOverrun()
    ensures var input := ['a', '\U{3000}', 'b'];
      && WhitespaceAsWritten(input, 1) == Ok(Some(Token(['\U{3000}'], 1, 3, ())))
      && 1 + WhitespaceAsWritten(input, 1).value.value.length > |input|
      && Whitespace(input, 1) == Ok(Some(Token(['\U{3000}'], 1, 1, ())))
  {
    var input := ['a', '\U{3000}', 'b'];
    assert Scan(input, 1, AtNonWhitespace) == 2 by {
      assert Scan(input, 2, AtNonWhitespace) == 2;
    }
    assert WhitespaceRun(input, 1) == ['\U{3000}'];
    assert Bytes.Utf8StringLength(['\U{3000}']) == 3 by {
      assert ['\U{3000}'][1..] == [];
    }
  }

  // ----- Hexadecimal escapes -----

  /** `\u` with at least four chars available from start. */
  predicate HexIntro(input: string, start: nat)
  {
    HasAvailableChars(input, start, 4) && input[start] == '\\' && input[start + 1] == 'u'
  }

  /** How many hexadecimal digits follow from, up to n of them. */
  function HexRun(input: string, from: nat, n: nat): (k: nat)
    ensures k <= n && (k == 0 || from + k <= |input|)
    decreases n
  {
    if n == 0 || from >= |input| || !IsHexDigit(input[from]) then 0
    else 1 + HexRun(input, from + 1, n - 1)
  }

  /** The run is made of hexadecimal digits and is as long as it can be. */
  lemma {:induction false} HexRunFacts(input: string, from: nat, n: nat)
    ensures var k := HexRun(input, from, n);
      && (forall j :: from <= j < from + k ==> IsHexDigit(input[j]))
      && (k < n && from + k < |input| ==> !IsHexDigit(input[from + k]))
    decreases n
  {
    if n > 0 && from < |input| && IsHexDigit(input[from]) {
      HexRunFacts(input, from + 1, n - 1);
    }
  }

  /** Any run of digits that stops where the digits or the allowance end is the run. */
  lemma {:induction false} HexRunExact(input: string, from: nat, n: nat, i: nat)
    requires i <= n && from + i <= |input|
    requires forall j :: from <= j < from + i ==> IsHexDigit(input[j])
    requires i == n || from + i == |input| || !IsHexDigit(input[from + i])
    ensures HexRun(input, from, n) == i
    decreases i
  {
    if i > 0 {
      HexRunExact(input, from + 1, n - 1, i - 1);
    }
  }

  /** The hexadecimal digits after `\u`: the longest run of them, at most four. */
  function HexDigitsAt(input: string, start: nat): (d: string)
    requires start + 2 <= |input|
    ensures |d| <= 4 && start + 2 + |d| <= |input| && d == input[start + 2..start + 2 + |d|]
  {
    input[start + 2..start + 2 + HexRun(input, start + 2, 4)]
  }

  lemma HexDigitsFacts(input: string, start: nat)
    requires start + 2 <= |input|
    ensures var d := HexDigitsAt(input, start);
      && (forall j :: 0 <= j < |d| ==> IsHexDigit(d[j]))
      && AllDigits(d, 16)
      && (|d| < 4 && start + 2 + |d| < |input| ==> !IsHexDigit(input[start + 2 + |d|]))
  {
    HexRunFacts(input, start + 2, 4);
    var d := HexDigitsAt(input, start);
    assert forall j :: 0 <= j < |d| ==> d[j] == input[start + 2 + j];
  }

  /** Digits that `from_str_radix` or `from_u32` reject: none at all, or a surrogate. */
  predicate HexInvalid(input: string, start: nat)
    requires start + 2 <= |input|
  {
    var d := HexDigitsAt(input, start);
    d == [] || (AllDigits(d, 16) && IsSurrogate(DigitsValue(d, 16)))
  }

  /** A hexadecimal escape token: `\u`, the digits, and the char their value names. */
  predicate HexToken(t: Token<char>, input: string, start: nat)
  {
    && HexIntro(input, start)
    && Spans(t, input, start)
    && var d := HexDigitsAt(input, start);
       && d != []
       && t.literal == "\\u" + d
       && t.length == 2 + |d|
       && AllDigits(d, 16)
       && t.token as int == DigitsValue(d, 16)
  }

  lemma {:induction false} DigitsBound(d: string)
    requires AllDigits(d, 16)
    ensures DigitsValue(d, 16) < Pow16(|d|)
  {
    if d != [] {
      DigitsBound(d[..|d| - 1]);
    }
  }

  /** A value of at most four hexadecimal digits is below 0x10000. */
  lemma HexValueBound(d: string)
    requires AllDigits(d, 16) && |d| <= 4
    ensures DigitsValue(d, 16) < 0x1_0000
  {
    DigitsBound(d);
    assert Pow16(0) == 1;
    assert Pow16(1) == 16;
    assert Pow16(2) == 0x100;
    assert Pow16(3) == 0x1000;
    assert Pow16(4) == 0x1_0000;
  }

  /** `from_str_radix(_, 16)` on at most four hexadecimal digits. */
  lemma ParseHexDigits(d: string)
    requires AllDigits(d, 16) && |d| <= 4
    ensures DigitsValue(d, 16) < 0x1_0000
    ensures ParseUnsigned(d, 16, U32_MAX) == if d == [] then None else Some(DigitsValue(d, 16))
  {
    HexValueBound(d);
    assert d == [] || d[0] != '+';
  }

  /**
   * `HexCharacter::try_consume`: `\u` and up to four hexadecimal digits name
   * a char; digits that name none are the two panics of the source. Parsing
   * at most four hexadecimal digits fails only when there are none
   * (`ParseHexDigits`), so the value is taken directly.
   */
  ghost function HexCharacter(input: string, start: nat): (r: Parsed<char>)
  {
    if !HexIntro(input, start) then Ok(None)
    else
      var digits := HexDigitsAt(input, start);
      if digits == [] then Err(Panic(InvalidHexDigits(digits)))
      else
        HexDigitsFacts(input, start);
        var c := DigitsValue(digits, 16);
        if IsSurrogate(c) || c >= 0x11_0000 then Err(Panic(InvalidCodePoint(c)))
        else Ok(Some(Token("\\u" + digits, start, 2 + |digits|, c as char)))
  }

  /**
   * A hexadecimal escape declines exactly when no `\u` with four chars opens
   * at start, fails (by panic) exactly on no digits or a surrogate, and
   * otherwise covers `\u` and its digits and decodes to their value.
   */
  lemma HexCharacterOutcome(input: string, start: nat)
    ensures var r := HexCharacter(input, start);
      && (r == Ok(None) <==> !HexIntro(input, start))
      && (r.Err? <==> HexIntro(input, start) && HexInvalid(input, start))
      && (r.Err? ==> r.error.Panic?)
      && (r.Ok? && r.value.Some? ==> HexToken(r.value.value, input, start))
  {
    if HexIntro(input, start) {
      var d := HexDigitsAt(input, start);
      HexDigitsFacts(input, start);
      HexValueBound(d);
      assert "\\u" + d == input[start..start + 2 + |d|];
    }
  }

  /**
   * The loop of `HexCharacter::try_consume` over the window of up to four
   * chars after `\u`: it takes hexadecimal digits while they last.
   */
  method ReadHexDigits(input: string, start: nat) returns (literal: string, length: nat, encoded: string)
    requires HexIntro(input, start)
    ensures encoded == HexDigitsAt(input, start)
    ensures literal == "\\u" + encoded && length == 2 + |encoded|
  {
    literal := "\\u";
    length := 2;
    encoded := "";
    var end := if start + 6 < |input| then start + 6 else |input|;
    var window := input[start + 2..end];
    var i := 0;
    while i < |window| && IsHexDigit(window[i])
      invariant 0 <= i <= |window|
      invariant encoded == input[start + 2..start + 2 + i]
      invariant literal == "\\u" + encoded
      invariant length == 2 + i
      invariant forall j :: start + 2 <= j < start + 2 + i ==> IsHexDigit(input[j])
    {
      literal := literal + [window[i]];
      encoded := encoded + [window[i]];
      length := length + 1;
      i := i + 1;
    }
    assert i < |window| ==> window[i] == input[start + 2 + i];
    HexRunExact(input, start + 2, 4, i);
  }

  /** `HexCharacter::try_consume`. */
  method TryConsumeHexCharacter(input: string, start: nat) returns (r: Parsed<char>)
    ensures r == HexCharacter(input, start)
  {
    if !HasAvailableChars(input, start, 4) || input[start] != '\\' || input[start + 1] != 'u' {
      return Ok(None);
    }
    var literal, length, encoded := ReadHexDigits(input, start);
    HexDigitsFacts(input, start);
    ParseHexDigits(encoded);
    var parsed := ParseUnsigned(encoded, 16, U32_MAX);
    if parsed.None? {
      return Err(Panic(InvalidHexDigits(encoded)));
    }
    var c := parsed.value;
    if IsSurrogate(c) || c >= 0x11_0000 {
      return Err(Panic(InvalidCodePoint(c)));
    }
    return Ok(Some(Token(literal, start, length, c as char)));
  }

  // ----- Escaped characters -----

  /** A backslash at start that begins no escape this tokenizer knows. */
  predicate EscapeAbsent(input: string, start: nat)
  {
    start + 1 < |input| && input[start + 1] !in EscapedChars && !HexIntro(input, start)
  }

  /** An escape token: a backslash and a table entry, or a hexadecimal escape. */
  predicate EscapeToken(t: Token<char>, input: string, start: nat)
  {
    && Spans(t, input, start)
    && t.length >= 2
    && input[start] == '\\'
    && if input[start + 1] in EscapedChars then
         t.length == 2 && t.token == EscapedChars[input[start + 1]]
       else HexToken(t, input, start)
  }

  /**
   * `EscapedCharacter::try_consume`: a backslash and an entry of the escape
   * table, or a hexadecimal escape; the length is the literal's byte count.
   */
  ghost function EscapedCharacter(input: string, start: nat): (r: Parsed<char>)
    requires start < |input|
    ensures r.Ok? && r.value.Some? ==> r.value.value.length >= 2
  {
    if input[start] != '\\' then Ok(None)
    else if !HasAvailableChars(input, start, 2) then Err(ParserError(InvalidEscapeSequence, start))
    else if input[start + 1] in EscapedChars then
      var literal := [input[start], input[start + 1]];
      Ok(Some(Token(literal, start, Bytes.Utf8StringLength(literal), EscapedChars[input[start + 1]])))
    else
      match HexCharacter(input, start)
      case Err(e) => Err(e)
      case Ok(None) => Ok(None)
      case Ok(Some(t)) => Ok(Some(Token(t.literal, start, Bytes.Utf8StringLength(t.literal), t.token)))
  }

  /** Every escape literal is ASCII, so its byte count is its length in chars. */
  lemma EscapedCharacterOutcome(input: string, start: nat)
    requires start < |input|
    ensures var r := EscapedCharacter(input, start);
      && (r == Ok(None) <==> input[start] != '\\' || EscapeAbsent(input, start))
      && (input[start] == '\\' && start + 1 == |input| ==>
            r == Err(ParserError(InvalidEscapeSequence, start)))
      && (r.Err? <==>
            input[start] == '\\' &&
            (start + 1 == |input| ||
             (input[start + 1] !in EscapedChars && HexIntro(input, start) && HexInvalid(input, start))))
      && (r.Err? && r.error.ParserError? ==> r.error.start == start)
      && (r.Ok? && r.value.Some? ==> EscapeToken(r.value.value, input, start))
  {
    if input[start] == '\\' && start + 1 < |input| {
      if input[start + 1] in EscapedChars {
        var literal := [input[start], input[start + 1]];
        assert Bytes.IsAsciiString(literal);
        Bytes.AsciiStringLength(literal);
      } else {
        HexCharacterOutcome(input, start);
        var h := HexCharacter(input, start);
        if h.Ok? && h.value.Some? {
          var literal := h.value.value.literal;
          var d := HexDigitsAt(input, start);
          HexDigitsFacts(input, start);
          assert Bytes.IsAsciiString(literal) by {
            assert literal == "\\u" + d;
            forall j | 2 <= j < |literal| ensures (literal[j] as int) < 0x80 {
              assert IsHexDigit(d[j - 2]);
            }
          }
          Bytes.AsciiStringLength(literal);
        }
      }
    }
  }

  /** `EscapedCharacter::try_consume`. */
  method TryConsumeEscapedCharacter(input: string, start: nat) returns (r: Parsed<char>)
    requires start < |input|
    ensures r == EscapedCharacter(input, start)
  {
    if input[start] != '\\' {
      return Ok(None);
    }
    if !HasAvailableChars(input, start, 2) {
      return Err(ParserError(InvalidEscapeSequence, start));
    }
    var next := input[start + 1];
    var literal: string;
    var decoded: char;
    if next in EscapedChars {
      literal := [input[start], next];
      decoded := EscapedChars[next];
    } else {
      var hex := TryConsumeHexCharacter(input, start);
      if hex.Err? {
        return Err(hex.error);
      }
      if hex.value.None? {
        return Ok(None);
      }
      literal := hex.value.value.literal;
      decoded := hex.value.value.token;
    }
    return Ok(Some(Token(literal, start, Bytes.Utf8StringLength(literal), decoded)));
  }

  /** `UnescapedCharacter::try_consume`: any char but a backslash or the quote. */
  function UnescapedCharacter(input: string, start: nat, q: Quote): (r: Parsed<char>)
    requires start < |input|
    ensures r.Ok?
    ensures r.value.None? <==> Stops(AtQuoteStop(q), input[start])
    ensures r.value.Some? ==>
      && Spans(r.value.value, input, start)
      && r.value.value.length == 1
      && r.value.value.token == input[start]
  {
    if input[start] == '\\' || input[start] == QuoteChar(q) then Ok(None)
    else Ok(Some(Token([input[start]], start, 1, input[start])))
  }

  /** An escape inside a quoted string: a known escape, or a backslash before the quote. */
  predicate QuotedEscapeToken(t: Token<char>, input: string, start: nat, q: Quote)
  {
    || EscapeToken(t, input, start)
    || (&& Spans(t, input, start)
        && t.length == 2
        && input[start] == '\\'
        && input[start + 1] == QuoteChar(q)
        && t.token == QuoteChar(q))
  }

  lemma QuotedEscapeSpans(t: Token<char>, input: string, start: nat, q: Quote)
    requires QuotedEscapeToken(t, input, start, q)
    ensures Spans(t, input, start) && t.length >= 2
  {
  }

  /**
   * `EscapedStringChar::try_consume`: an escape, or a backslash before the
   * quote; any other char after a backslash is an error.
   */
  ghost function EscapedStringChar(input: string, start: nat, q: Quote): (r: Parsed<char>)
    requires start < |input|
    ensures r.Ok? && r.value.Some? ==> r.value.value.length >= 2
  {
    match EscapedCharacter(input, start)
    case Err(e) => Err(e)
    case Ok(Some(t)) => Ok(Some(Token(t.literal, start, t.length, t.token)))
    case Ok(None) =>
      if HasAvailableChars(input, start, 2) && input[start] == '\\' then
        if input[start + 1] == QuoteChar(q) then Ok(Some(Token([input[start], input[start + 1]], start, 2, QuoteChar(q))))
        else Err(ParserError(UnknownEscape(input[start + 1]), start))
      else Ok(None)
  }

  /**
   * An escape in a quoted string declines exactly off a backslash, decodes a
   * backslash before the quote to the quote, and rejects an unknown escape.
   */
  lemma EscapedStringCharOutcome(input: string, start: nat, q: Quote)
    requires start < |input|
    ensures var r := EscapedStringChar(input, start, q);
      && (r == Ok(None) <==> input[start] != '\\')
      && (r.Ok? && r.value.Some? ==> QuotedEscapeToken(r.value.value, input, start, q))
      && (input[start] == '\\' && start + 1 < |input| && input[start + 1] == QuoteChar(q) ==>
            r == Ok(Some(Token([input[start], input[start + 1]], start, 2, QuoteChar(q)))))
      && (input[start] == '\\' && EscapeAbsent(input, start) && input[start + 1] != QuoteChar(q) ==>
            r == Err(ParserError(UnknownEscape(input[start + 1]), start)))
      && (r.Err? && r.error.ParserError? ==> r.error.start == start)
  {
    EscapedCharacterOutcome(input, start);
  }

  /** The facts about an escape in a quoted string that the string itself relies on. */
  lemma EscapedStringCharShape(input: string, start: nat, q: Quote)
    requires start < |input|
    ensures var r := EscapedStringChar(input, start, q);
      && (r == Ok(None) <==> input[start] != '\\')
      && (r.Ok? && r.value.Some? ==> Spans(r.value.value, input, start) && r.value.value.length >= 2)
      && (r.Err? && r.error.ParserError? ==> r.error.start == start)
  {
    EscapedStringCharOutcome(input, start, q);
    var r := EscapedStringChar(input, start, q);
    if r.Ok? && r.value.Some? {
      QuotedEscapeSpans(r.value.value, input, start, q);
    }
  }

  /** `EscapedStringChar::try_consume`. */
  method TryConsumeEscapedStringChar(input: string, start: nat, q: Quote) returns (r: Parsed<char>)
    requires start < |input|
    ensures r == EscapedStringChar(input, start, q)
  {
    var escaped := TryConsumeEscapedCharacter(input, start);
    if escaped.Err? {
      return Err(escaped.error);
    }
    if escaped.value.Some? {
      var t := escaped.value.value;
      return Ok(Some(Token(t.literal, start, t.length, t.token)));
    }
    if HasAvailableChars(input, start, 2) && input[start] == '\\' {
      if input[start + 1] == QuoteChar(q) {
        return Ok(Some(Token([input[start], input[start + 1]], start, 2, QuoteChar(q))));
      } else {
        return Err(ParserError(UnknownEscape(input[start + 1]), start));
      }
    }
    return Ok(None);
  }

  // ----- Quoted strings -----

  /** A quoted string token: opening and closing quote, the decoded text between. */
  predicate QuotedToken(t: Token<string>, input: string, start: nat, q: Quote)
  {
    && Spans(t, input, start)
    && t.length >= 2
    && input[start] == QuoteChar(q)
    && input[start + t.length - 1] == QuoteChar(q)
    && |t.token| <= t.length - 2
  }

  /** The opening quote at start with at least one more char after it. */
  predicate QuoteOpens(input: string, start: nat, q: Quote)
  {
    HasAvailableChars(input, start, 2) && input[start] == QuoteChar(q)
  }

  /**
   * The end of a quoted string after length chars: the closing quote must
   * come next. The literal the source accumulates token by token is the
   * stretch of input the tokens cover, so it is written here as that slice.
   */
  ghost function QuotedClose(input: string, start: nat, q: Quote, length: nat, decoded: string): Parsed<string>
  {
    if HasAvailableChars(input, start + length, 1) && input[start + length] == QuoteChar(q) then
      Ok(Some(Token(input[start..start + length + 1], start, length + 1, decoded)))
    else Err(ParserError(ExpectedClosingQuote(q), start))
  }

  /** One pass of the loop body of a quoted string: a plain char, else an escape. */
  ghost function QuotedStep(input: string, pos: nat, q: Quote): (r: Parsed<char>)
    requires pos < |input|
  {
    var plain := UnescapedCharacter(input, pos, q);
    if plain.value.Some? then plain else EscapedStringChar(input, pos, q)
  }

  /**
   * The steps of the loop of a quoted string: at each position of the input,
   * the step it takes there. A step depends on its position alone, so the
   * loop is a walk over this table; the quantifier is instantiated only
   * where a step at a position is named, which keeps what the loop proofs
   * see of the escapes to the facts they use.
   */
  ghost predicate StepsAre(steps: seq<Parsed<char>>, input: string, q: Quote)
  {
    && |steps| == |input|
    && forall p {:trigger QuotedStep(input, p, q)} :: 0 <= p < |input| ==> steps[p] == QuotedStep(input, p, q)
  }

  lemma QuotedStepsExist(input: string, q: Quote)
    ensures exists steps :: StepsAre(steps, input, q)
  {
    var steps := seq(|input|, p requires 0 <= p < |input| => QuotedStep(input, p, q));
    assert StepsAre(steps, input, q);
  }

  lemma StepsAreUnique(steps: seq<Parsed<char>>, input: string, q: Quote)
    requires StepsAre(steps, input, q)
    ensures forall s {:trigger StepsAre(s, input, q)} :: StepsAre(s, input, q) ==> s == steps
  {
    forall s | StepsAre(s, input, q) ensures s == steps {
      forall p | 0 <= p < |input| ensures s[p] == steps[p] {
        assert s[p] == QuotedStep(input, p, q);
      }
    }
  }

  /**
   * What the loop of a quoted string relies on about a step: it declines
   * exactly at the quote, reads a plain char as itself, fails only at a
   * backslash, and otherwise covers at least one char of the input.
   */
  predicate StepShaped(r: Parsed<char>, input: string, pos: nat, q: Quote)
    requires pos < |input|
  {
    && (r == Ok(None) <==> input[pos] == QuoteChar(q))
    && (r.Ok? && r.value.Some? ==> 0 < r.value.value.length && pos + r.value.value.length <= |input|)
    && (r.Err? ==> input[pos] == '\\')
    && (r.Err? && r.error.ParserError? ==> r.error.start == pos)
    && (!Stops(AtQuoteStop(q), input[pos]) ==> r == Ok(Some(Token([input[pos]], pos, 1, input[pos]))))
  }

  predicate StepsShaped(steps: seq<Parsed<char>>, input: string, q: Quote)
  {
    && |steps| == |input|
    && forall p {:trigger StepShaped(steps[p], input, p, q)} :: 0 <= p < |input| ==> StepShaped(steps[p], input, p, q)
  }

  lemma QuotedStepShaped(input: string, pos: nat, q: Quote)
    requires pos < |input|
    ensures StepShaped(QuotedStep(input, pos, q), input, pos, q)
  {
    if input[pos] == '\\' {
      EscapedStringCharShape(input, pos, q);
    }
  }

  lemma StepsAreShaped(steps: seq<Parsed<char>>, input: string, q: Quote)
    requires StepsAre(steps, input, q)
    ensures StepsShaped(steps, input, q)
  {
    forall p | 0 <= p < |input| ensures StepShaped(steps[p], input, p, q) {
      QuotedStepShaped(input, p, q);
    }
  }

  /**
   * The loop of a quoted string once length chars are read: steps until one
   * declines, then the closing quote.
   */
  ghost function QuotedFrom(steps: seq<Parsed<char>>, input: string, start: nat, q: Quote, length: nat, decoded: string): Parsed<string>
    requires StepsShaped(steps, input, q)
    decreases |input| - (start + length)
  {
    if start + length >= |input| then QuotedClose(input, start, q, length, decoded)
    else
      assert StepShaped(steps[start + length], input, start + length, q);
      match steps[start + length]
      case Err(e) => Err(e)
      case Ok(None) => QuotedClose(input, start, q, length, decoded)
      case Ok(Some(t)) => QuotedFrom(steps, input, start, q, length + t.length, decoded + [t.token])
  }

  /** `QuotedString::<QUOTE>::try_consume`. */
  ghost function QuotedString(input: string, start: nat, q: Quote): Parsed<string>
  {
    if !QuoteOpens(input, start, q) then Ok(None)
    else
      QuotedStepsExist(input, q);
      var steps :| StepsAre(steps, input, q);
      StepsAreShaped(steps, input, q);
      QuotedFrom(steps, input, start, q, 1, "")
  }

  /** Whatever table of steps the loop is given, it is the one the quoted string walks. */
  lemma QuotedStringFrom(input: string, start: nat, q: Quote, steps: seq<Parsed<char>>)
    requires QuoteOpens(input, start, q) && StepsAre(steps, input, q) && StepsShaped(steps, input, q)
    ensures QuotedString(input, start, q) == QuotedFrom(steps, input, start, q, 1, "")
  {
    StepsAreUnique(steps, input, q);
  }

  /**
   * Where the loop of a quoted string ends, from any state it passes
   * through: where the closing quote is due (at the end of the input or at
   * an unescaped quote), or at a backslash whose escape fails.
   */
  lemma {:induction false} QuotedFromEnds(steps: seq<Parsed<char>>, input: string, start: nat, q: Quote, length: nat, decoded: string)
      returns (n: nat, dec: string, closed: bool)
    requires StepsShaped(steps, input, q)
    requires 1 <= length && start + length <= |input| && |decoded| <= length - 1
    ensures length <= n && start + n <= |input| && |dec| <= n - 1
    ensures closed ==> start + n == |input| || input[start + n] == QuoteChar(q)
    ensures closed ==> QuotedFrom(steps, input, start, q, length, decoded) == QuotedClose(input, start, q, n, dec)
    ensures !closed ==> start + n < |input| && input[start + n] == '\\'
    ensures !closed ==> QuotedFrom(steps, input, start, q, length, decoded).Err?
    ensures !closed && QuotedFrom(steps, input, start, q, length, decoded).error.ParserError? ==>
      QuotedFrom(steps, input, start, q, length, decoded).error.start == start + n
    decreases |input| - (start + length)
  {
    if start + length >= |input| {
      return length, decoded, true;
    }
    assert StepShaped(steps[start + length], input, start + length, q);
    match steps[start + length] {
      case Err(_) =>
        return length, decoded, false;
      case Ok(None) =>
        return length, decoded, true;
      case Ok(Some(t)) =>
        n, dec, closed := QuotedFromEnds(steps, input, start, q, length + t.length, decoded + [t.token]);
    }
  }

  /**
   * Without a backslash before the first quote, the loop reads plain chars
   * up to that quote: the token covers the stretch and decodes to the chars
   * between the quotes.
   */
  lemma {:induction false} QuotedFromPlain(steps: seq<Parsed<char>>, input: string, start: nat, q: Quote, length: nat, decoded: string, k: nat)
    requires StepsShaped(steps, input, q)
    requires 1 <= length && start + length <= k < |input| && input[k] == QuoteChar(q)
    requires forall j :: start + length <= j < k ==> !Stops(AtQuoteStop(q), input[j])
    requires decoded == input[start + 1..start + length]
    ensures QuotedFrom(steps, input, start, q, length, decoded)
         == Ok(Some(Token(input[start..k + 1], start, k + 1 - start, input[start + 1..k])))
    decreases k - (start + length)
  {
    var p := start + length;
    assert StepShaped(steps[p], input, p, q);
    if p < k {
      assert input[start + 1..p] + [input[p]] == input[start + 1..p + 1] by {
        assert [input[p]] == input[p..p + 1];
        Adjacent(input, start + 1, p, p + 1);
      }
      QuotedFromPlain(steps, input, start, q, length + 1, decoded + [input[p]], k);
    }
  }

  /**
   * What a quoted string promises of any result: it declines exactly when no
   * quote opens at start; a token runs from the opening to a closing quote;
   * an error the parser reports lies at or after start.
   */
  ghost predicate QuotedShape(r: Parsed<string>, input: string, start: nat, q: Quote)
  {
    && (r == Ok(None) <==> !QuoteOpens(input, start, q))
    && (r.Ok? && r.value.Some? ==> QuotedToken(r.value.value, input, start, q))
    && (r.Err? && r.error.ParserError? ==> r.error.start >= start)
  }

  /**
   * What a quoted string promises of particular inputs: when no backslash
   * comes before the first closing quote the token is exactly that stretch
   * and decodes to the chars between the quotes; without a closing quote it
   * fails.
   */
  ghost predicate QuotedExact(r: Parsed<string>, input: string, start: nat, q: Quote)
  {
    && (QuoteOpens(input, start, q) ==>
          var k := Scan(input, start + 1, AtQuoteStop(q));
          k < |input| && input[k] == QuoteChar(q) ==>
            r == Ok(Some(Token(input[start..k + 1], start, k + 1 - start, input[start + 1..k]))))
    && (QuoteOpens(input, start, q) && Scan(input, start + 1, AtQuoteStop(q)) == |input| ==>
          r == Err(ParserError(ExpectedClosingQuote(q), start)))
    && (QuoteOpens(input, start, q) && QuoteChar(q) !in input[start + 1..] ==> r.Err?)
  }

  lemma QuotedStringShape(input: string, start: nat, q: Quote)
    ensures QuotedShape(QuotedString(input, start, q), input, start, q)
  {
    if QuoteOpens(input, start, q) {
      QuotedStepsExist(input, q);
      var steps :| StepsAre(steps, input, q);
      StepsAreShaped(steps, input, q);
      QuotedStringFrom(input, start, q, steps);
      var n, dec, closed := QuotedFromEnds(steps, input, start, q, 1, "");
    }
  }

  lemma QuotedStringExact(input: string, start: nat, q: Quote)
    ensures QuotedExact(QuotedString(input, start, q), input, start, q)
  {
    if QuoteOpens(input, start, q) {
      QuotedStepsExist(input, q);
      var steps :| StepsAre(steps, input, q);
      StepsAreShaped(steps, input, q);
      QuotedStringFrom(input, start, q, steps);
      var n, dec, closed := QuotedFromEnds(steps, input, start, q, 1, "");
      var k := Scan(input, start + 1, AtQuoteStop(q));
      ScanFacts(input, start + 1, AtQuoteStop(q));
      if k < |input| && input[k] == QuoteChar(q) {
        QuotedFromPlain(steps, input, start, q, 1, "", k);
      }
      if start + n < |input| {
        assert input[start + n] == input[start + 1..][n - 1];
      }
      if k == |input| {
        assert QuoteChar(q) !in input[start + 1..] by {
          forall j | start + 1 <= j < |input| ensures input[j] != QuoteChar(q) {
            assert !Stops(AtQuoteStop(q), input[j]);
          }
        }
      }
    }
  }

  /** A step that reads a token moves the loop of a quoted string past it. */
  lemma QuotedFromAdvance(steps: seq<Parsed<char>>, input: string, start: nat, q: Quote, length: nat, decoded: string, t: Token<char>)
    requires StepsShaped(steps, input, q)
    requires start + length < |input| && steps[start + length] == Ok(Some(t))
    requires start + length + t.length <= |input|
    ensures QuotedFrom(steps, input, start, q, length, decoded)
         == QuotedFrom(steps, input, start, q, length + t.length, decoded + [t.token])
  {
  }

  /** Where no step reads a token, the loop of a quoted string closes it. */
  lemma QuotedFromStops(steps: seq<Parsed<char>>, input: string, start: nat, q: Quote, length: nat, decoded: string)
    requires StepsShaped(steps, input, q) && start + length <= |input|
    requires start + length == |input| || steps[start + length] == Ok(None)
    ensures QuotedFrom(steps, input, start, q, length, decoded) == QuotedClose(input, start, q, length, decoded)
  {
  }

  lemma LiteralSnoc(s: string, a: nat, b: nat)
    requires a <= b < |s|
    ensures s[a..b] + [s[b]] == s[a..b + 1]
  {
  }

  /** One pass of the loop body of `QuotedString::<QUOTE>::try_consume`. */
  method TryConsumeQuotedStep(ghost steps: seq<Parsed<char>>, input: string, pos: nat, q: Quote) returns (r: Parsed<char>)
    requires pos < |input| && StepsAre(steps, input, q)
    ensures r == steps[pos]
    ensures r.Ok? && r.value.Some? ==> Spans(r.value.value, input, pos)
  {
    assert steps[pos] == QuotedStep(input, pos, q);
    var unescaped := UnescapedCharacter(input, pos, q);
    if unescaped.value.Some? {
      return unescaped;
    }
    r := TryConsumeEscapedStringChar(input, pos, q);
    EscapedStringCharShape(input, pos, q);
  }

  /** `QuotedString::<QUOTE>::try_consume`, its loop over plain chars and escapes. */
  method TryConsumeQuotedString(input: string, start: nat, q: Quote) returns (r: Parsed<string>)
    ensures r == QuotedString(input, start, q)
  {
    if !HasAvailableChars(input, start, 2) || input[start] != QuoteChar(q) {
      return Ok(None);
    }
    QuotedStepsExist(input, q);
    ghost var steps :| StepsAre(steps, input, q);
    StepsAreShaped(steps, input, q);
    QuotedStringFrom(input, start, q, steps);
    r := TryConsumeQuotedLoop(steps, input, start, q);
  }

  /** The loop of `QuotedString::<QUOTE>::try_consume`, after the opening quote. */
  method TryConsumeQuotedLoop(ghost steps: seq<Parsed<char>>, input: string, start: nat, q: Quote) returns (r: Parsed<string>)
    requires QuoteOpens(input, start, q) && StepsAre(steps, input, q) && StepsShaped(steps, input, q)
    ensures r == QuotedFrom(steps, input, start, q, 1, "")
  {
    ghost var target := QuotedFrom(steps, input, start, q, 1, "");
    var literal := [QuoteChar(q)];
    var decoded := "";
    var length := 1;
    while start + length < |input|
      invariant 1 <= length && start + length <= |input|
      invariant literal == input[start..start + length]
      invariant QuotedFrom(steps, input, start, q, length, decoded) == target
      decreases |input| - (start + length)
    {
      var step := TryConsumeQuotedStep(steps, input, start + length, q);
      if step.Err? {
        return Err(step.error);
      }
      if step.value.None? {
        break;
      }
      var t := step.value.value;
      QuotedFromAdvance(steps, input, start, q, length, decoded, t);
      LiteralGrows(input, start, length, literal, t);
      literal := literal + t.literal;
      decoded := decoded + [t.token];
      length := length + t.length;
    }
    QuotedFromStops(steps, input, start, q, length, decoded);
    if HasAvailableChars(input, start + length, 1) && input[start + length] == QuoteChar(q) {
      LiteralSnoc(input, start, start + length);
      literal := literal + [QuoteChar(q)];
      length := length + 1;
    } else {
      return Err(ParserError(ExpectedClosingQuote(q), start));
    }
    return Ok(Some(Token(literal, start, length, decoded)));
  }

  // ----- Unquoted strings -----

  /** `UnquotedCharacter::try_consume`: any char but whitespace, a quote or a backslash. */
  function UnquotedCharacter(input: string, start: nat): (r: Parsed<char>)
    requires start < |input|
    ensures r.Ok?
    ensures r.value.None? <==> Breaks(input[start])
    ensures r.value.Some? ==>
      && Spans(r.value.value, input, start)
      && r.value.value.length == 1
      && r.value.value.token == input[start]
  {
    var c := input[start];
    if IsWhitespace(c) || c == '\'' || c == '"' || c == '\\' then Ok(None)
    else Ok(Some(Token([c], start, 1, c)))
  }

  /** No unquoted string starts at start: a break that is not the start of a known escape. */
  predicate UnquotedAbsent(input: string, start: nat)
    requires start < |input|
  {
    Breaks(input[start]) && (input[start] != '\\' || EscapeAbsent(input, start))
  }

  /** One pass of the loop body of an unquoted string: a plain char, else an escape. */
  ghost function UnquotedStep(input: string, pos: nat): (r: Parsed<char>)
    requires pos < |input|
  {
    var plain := UnquotedCharacter(input, pos);
    if plain.value.Some? then plain else EscapedCharacter(input, pos)
  }

  /** The steps of the loop of an unquoted string at each position, as for a quoted string. */
  ghost predicate UnquotedStepsAre(steps: seq<Parsed<char>>, input: string)
  {
    && |steps| == |input|
    && forall p {:trigger UnquotedStep(input, p)} :: 0 <= p < |input| ==> steps[p] == UnquotedStep(input, p)
  }

  lemma UnquotedStepsExist(input: string)
    ensures exists steps :: UnquotedStepsAre(steps, input)
  {
    var steps := seq(|input|, p requires 0 <= p < |input| => UnquotedStep(input, p));
    assert UnquotedStepsAre(steps, input);
  }

  lemma UnquotedStepsAreUnique(steps: seq<Parsed<char>>, input: string)
    requires UnquotedStepsAre(steps, input)
    ensures forall s {:trigger UnquotedStepsAre(s, input)} :: UnquotedStepsAre(s, input) ==> s == steps
  {
    forall s | UnquotedStepsAre(s, input) ensures s == steps {
      forall p | 0 <= p < |input| ensures s[p] == steps[p] {
        assert s[p] == UnquotedStep(input, p);
      }
    }
  }

  /**
   * What the loop of an unquoted string relies on about a step: it declines
   * exactly where no unquoted string starts, reads a plain char as itself,
   * fails only at a backslash, and otherwise covers at least one char.
   */
  predicate UnquotedStepShaped(r: Parsed<char>, input: string, pos: nat)
    requires pos < |input|
  {
    && (r == Ok(None) <==> UnquotedAbsent(input, pos))
    && (r.Ok? && r.value.Some? ==> 0 < r.value.value.length && pos + r.value.value.length <= |input|)
    && (r.Err? ==> input[pos] == '\\')
    && (r.Err? && r.error.ParserError? ==> r.error.start == pos)
    && (!Breaks(input[pos]) ==> r == Ok(Some(Token([input[pos]], pos, 1, input[pos]))))
  }

  predicate UnquotedStepsShaped(steps: seq<Parsed<char>>, input: string)
  {
    && |steps| == |input|
    && forall p {:trigger UnquotedStepShaped(steps[p], input, p)} :: 0 <= p < |input| ==> UnquotedStepShaped(steps[p], input, p)
  }

  lemma UnquotedStepShapedAt(input: string, pos: nat)
    requires pos < |input|
    ensures UnquotedStepShaped(UnquotedStep(input, pos), input, pos)
  {
    if input[pos] == '\\' {
      EscapedCharacterOutcome(input, pos);
    }
  }

  lemma UnquotedStepsAreShaped(steps: seq<Parsed<char>>, input: string)
    requires UnquotedStepsAre(steps, input)
    ensures UnquotedStepsShaped(steps, input)
  {
    forall p | 0 <= p < |input| ensures UnquotedStepShaped(steps[p], input, p) {
      UnquotedStepShapedAt(input, p);
    }
  }

  /** The end of an unquoted string after length chars: a token if it read any. */
  function UnquotedClose(input: string, start: nat, length: nat, decoded: string): Parsed<string>
    requires length == 0 || start + length <= |input|
  {
    if length > 0 then Ok(Some(Token(input[start..start + length], start, length, decoded)))
    else Ok(None)
  }

  /** The loop of an unquoted string once length chars are read. */
  ghost function UnquotedFrom(steps: seq<Parsed<char>>, input: string, start: nat, length: nat, decoded: string): Parsed<string>
    requires UnquotedStepsShaped(steps, input)
    requires length == 0 || start + length <= |input|
    decreases |input| - (start + length)
  {
    if start + length >= |input| then UnquotedClose(input, start, length, decoded)
    else
      assert UnquotedStepShaped(steps[start + length], input, start + length);
      match steps[start + length]
      case Err(e) => Err(e)
      case Ok(None) => UnquotedClose(input, start, length, decoded)
      case Ok(Some(t)) => UnquotedFrom(steps, input, start, length + t.length, decoded + [t.token])
  }

  /** `UnquotedString::try_consume`. */
  ghost function UnquotedString(input: string, start: nat): Parsed<string>
  {
    UnquotedStepsExist(input);
    var steps :| UnquotedStepsAre(steps, input);
    UnquotedStepsAreShaped(steps, input);
    UnquotedFrom(steps, input, start, 0, "")
  }

  lemma UnquotedStringFrom(input: string, start: nat, steps: seq<Parsed<char>>)
    requires UnquotedStepsAre(steps, input) && UnquotedStepsShaped(steps, input)
    ensures UnquotedString(input, start) == UnquotedFrom(steps, input, start, 0, "")
  {
    UnquotedStepsAreUnique(steps, input);
  }

  /**
   * Where the loop of an unquoted string ends, from any state it passes
   * through: at the end of the input or where no unquoted string starts, or
   * at a backslash whose escape fails.
   */
  lemma {:induction false} UnquotedFromEnds(steps: seq<Parsed<char>>, input: string, start: nat, length: nat, decoded: string)
      returns (n: nat, dec: string, closed: bool)
    requires UnquotedStepsShaped(steps, input)
    requires length == 0 || start + length <= |input|
    requires |decoded| <= length
    ensures length <= n && (n == 0 || start + n <= |input|) && |dec| <= n
    ensures closed ==> start + n >= |input| || UnquotedAbsent(input, start + n)
    ensures closed ==> UnquotedFrom(steps, input, start, length, decoded) == UnquotedClose(input, start, n, dec)
    ensures !closed ==> start + n < |input| && input[start + n] == '\\'
    ensures !closed ==> UnquotedFrom(steps, input, start, length, decoded).Err?
    ensures !closed && UnquotedFrom(steps, input, start, length, decoded).error.ParserError? ==>
      UnquotedFrom(steps, input, start, length, decoded).error.start == start + n
    decreases |input| - (start + length)
  {
    if start + length >= |input| {
      return length, decoded, true;
    }
    assert UnquotedStepShaped(steps[start + length], input, start + length);
    match steps[start + length] {
      case Err(_) =>
        return length, decoded, false;
      case Ok(None) =>
        return length, decoded, true;
      case Ok(Some(t)) =>
        n, dec, closed := UnquotedFromEnds(steps, input, start, length + t.length, decoded + [t.token]);
    }
  }

  /**
   * Over plain chars up to a break that starts no escape, the loop reads
   * each char as itself and stops at the break.
   */
  lemma {:induction false} UnquotedFromPlain(steps: seq<Parsed<char>>, input: string, start: nat, length: nat, decoded: string, k: nat)
    requires UnquotedStepsShaped(steps, input)
    requires start + length <= k <= |input|
    requires forall j :: start + length <= j < k ==> !Breaks(input[j])
    requires k < |input| ==> Breaks(input[k]) && input[k] != '\\'
    requires decoded == input[start..start + length]
    ensures UnquotedFrom(steps, input, start, length, decoded) == UnquotedClose(input, start, k - start, input[start..k])
    decreases k - (start + length)
  {
    var p := start + length;
    if p < |input| {
      assert UnquotedStepShaped(steps[p], input, p);
    }
    if p < k {
      assert input[start..p] + [input[p]] == input[start..p + 1] by {
        assert [input[p]] == input[p..p + 1];
        Adjacent(input, start, p, p + 1);
      }
      UnquotedFromPlain(steps, input, start, length + 1, decoded + [input[p]], k);
    }
  }

  /**
   * What an unquoted string promises of any result: it declines exactly at
   * the end of the input or where no unquoted string starts; a token covers
   * the input from start up to the end or a break; an error the parser
   * reports lies at or after start.
   */
  ghost predicate UnquotedShape(r: Parsed<string>, input: string, start: nat)
  {
    && (r == Ok(None) <==> start >= |input| || UnquotedAbsent(input, start))
    && (r.Ok? && r.value.Some? ==>
          var t := r.value.value;
          && Spans(t, input, start)
          && |t.token| <= t.length
          && (start + t.length == |input| || UnquotedAbsent(input, start + t.length)))
    && (r.Err? && r.error.ParserError? ==> r.error.start >= start)
  }

  /**
   * What an unquoted string promises of a plain word: up to the first break,
   * when that break starts no escape, it reads the word as itself.
   */
  ghost predicate UnquotedExact(r: Parsed<string>, input: string, start: nat)
  {
    start <= |input| ==>
      var k := Scan(input, start, AtBreak);
      (k < |input| && input[k] == '\\') ||
      r == (if k == start then Ok(None) else Ok(Some(Token(input[start..k], start, k - start, input[start..k]))))
  }

  lemma UnquotedStringShape(input: string, start: nat)
    ensures UnquotedShape(UnquotedString(input, start), input, start)
  {
    UnquotedStepsExist(input);
    var steps :| UnquotedStepsAre(steps, input);
    UnquotedStepsAreShaped(steps, input);
    UnquotedStringFrom(input, start, steps);
    var n, dec, closed := UnquotedFromEnds(steps, input, start, 0, "");
    if start < |input| {
      assert UnquotedStepShaped(steps[start], input, start);
      if UnquotedAbsent(input, start) {
        assert steps[start] == Ok(None);
        assert UnquotedFrom(steps, input, start, 0, "") == Ok(None);
      }
    }
  }

  lemma UnquotedStringExact(input: string, start: nat)
    ensures UnquotedExact(UnquotedString(input, start), input, start)
  {
    if start <= |input| {
      UnquotedStepsExist(input);
      var steps :| UnquotedStepsAre(steps, input);
      UnquotedStepsAreShaped(steps, input);
      UnquotedStringFrom(input, start, steps);
      var k := Scan(input, start, AtBreak);
      ScanFacts(input, start, AtBreak);
      if k == |input| || input[k] != '\\' {
        UnquotedFromPlain(steps, input, start, 0, "", k);
      }
    }
  }

  /** A step that reads a token moves the loop of an unquoted string past it. */
  lemma UnquotedFromAdvance(steps: seq<Parsed<char>>, input: string, start: nat, length: nat, decoded: string, t: Token<char>)
    requires UnquotedStepsShaped(steps, input)
    requires start + length < |input| && steps[start + length] == Ok(Some(t))
    requires start + length + t.length <= |input|
    ensures UnquotedFrom(steps, input, start, length, decoded)
         == UnquotedFrom(steps, input, start, length + t.length, decoded + [t.token])
  {
  }

  /** One pass of the loop body of `UnquotedString::try_consume`. */
  method TryConsumeUnquotedStep(ghost steps: seq<Parsed<char>>, input: string, pos: nat) returns (r: Parsed<char>)
    requires pos < |input| && UnquotedStepsAre(steps, input)
    ensures r == steps[pos]
    ensures r.Ok? && r.value.Some? ==> Spans(r.value.value, input, pos)
  {
    assert steps[pos] == UnquotedStep(input, pos);
    var unquoted := UnquotedCharacter(input, pos);
    if unquoted.value.Some? {
      return unquoted;
    }
    r := TryConsumeEscapedCharacter(input, pos);
    EscapedCharacterOutcome(input, pos);
  }

  /** `UnquotedString::try_consume`, its loop over plain chars and escapes. */
  method TryConsumeUnquotedString(input: string, start: nat) returns (r: Parsed<string>)
    ensures r == UnquotedString(input, start)
  {
    UnquotedStepsExist(input);
    ghost var steps :| UnquotedStepsAre(steps, input);
    UnquotedStepsAreShaped(steps, input);
    UnquotedStringFrom(input, start, steps);
    ghost var target := UnquotedString(input, start);
    var literal := "";
    var decoded := "";
    var length := 0;
    while start + length < |input|
      invariant length == 0 ==> literal == ""
      invariant length > 0 ==> start + length <= |input| && literal == input[start..start + length]
      invariant UnquotedFrom(steps, input, start, length, decoded) == target
      decreases |input| - (start + length)
    {
      var step := TryConsumeUnquotedStep(steps, input, start + length);
      if step.Err? {
        return Err(step.error);
      }
      if step.value.None? {
        break;
      }
      var t := step.value.value;
      UnquotedFromAdvance(steps, input, start, length, decoded, t);
      LiteralGrows(input, start, length, literal, t);
      literal := literal + t.literal;
      decoded := decoded + [t.token];
      length := length + t.length;
    }
    if length > 0 {
      return Ok(Some(Token(literal, start, length, decoded)));
    } else {
      return Ok(None);
    }
  }
}
