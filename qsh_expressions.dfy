// The upper consumers of the qsh tokenizer: a quoted or unquoted string, a
// combined string made of such parts with nothing between them, and an
// expression made of combined strings separated by whitespace.
module QshExpressions {
  import opened Wrappers
  import Bytes
  import opened Text
  import opened QshConsumers

  /** `QuotedOrUnquotedString`: what a part decodes to, by how it was written. */
  datatype Str = SingleQuoted(decoded: string) | DoubleQuoted(decoded: string) | Unquoted(decoded: string)

  /** The parts of a combined string. */
  type Parts = seq<Token<Str>>

  // ----- Quoted or unquoted strings -----

  /**
   * No part starts at start: whitespace, a quote with nothing after it, or a
   * backslash that begins no known escape.
   */
  predicate PartAbsent(input: string, start: nat)
    requires start < |input|
  {
    || IsWhitespace(input[start])
    || ((input[start] == '\'' || input[start] == '"') && start + 1 == |input|)
    || (input[start] == '\\' && EscapeAbsent(input, start))
  }

  /** A part token: a quoted string of either kind, or an unquoted string. */
  predicate PartToken(t: Token<Str>, input: string, start: nat)
  {
    && Spans(t, input, start)
    && match t.token
       case SingleQuoted(d) => QuotedToken(Token(t.literal, start, t.length, d), input, start, Single)
       case DoubleQuoted(d) => QuotedToken(Token(t.literal, start, t.length, d), input, start, Double)
       case Unquoted(d) =>
         && input[start] != '\'' && input[start] != '"'
         && |d| <= t.length
         && (start + t.length == |input| || UnquotedAbsent(input, start + t.length))
  }

  /** `QuotedOrUnquotedString::try_consume`: a single-quoted, else a double-quoted, else an unquoted string. */
  ghost function QuotedOrUnquotedString(input: string, start: nat): Parsed<Str>
  {
    match QuotedString(input, start, Single)
    case Err(e) => Err(e)
    case Ok(Some(t)) => Ok(Some(Token(t.literal, start, t.length, SingleQuoted(t.token))))
    case Ok(None) =>
      match QuotedString(input, start, Double)
      case Err(e) => Err(e)
      case Ok(Some(t)) => Ok(Some(Token(t.literal, start, t.length, DoubleQuoted(t.token))))
      case Ok(None) =>
        match UnquotedString(input, start)
        case Err(e) => Err(e)
        case Ok(Some(t)) => Ok(Some(Token(t.literal, start, t.length, Unquoted(t.token))))
        case Ok(None) => Ok(None)
  }

  /**
   * A part declines exactly where none starts, is otherwise a part token of
   * the kind its first char selects, and reports errors at or after start.
   */
  lemma QuotedOrUnquotedOutcome(input: string, start: nat)
    ensures var r := QuotedOrUnquotedString(input, start);
      && (r == Ok(None) <==> start >= |input| || PartAbsent(input, start))
      && (r.Ok? && r.value.Some? ==> PartToken(r.value.value, input, start))
      && (r.Err? && r.error.ParserError? ==> r.error.start >= start)
  {
    QuotedStringShape(input, start, Single);
    QuotedStringShape(input, start, Double);
    UnquotedStringShape(input, start);
  }

  /** A plain word that ends at whitespace or the end of the input is an unquoted part. */
  lemma QuotedOrUnquotedWord(input: string, start: nat)
    requires start < |input| && !Breaks(input[start])
    requires var k := Scan(input, start, AtBreak); k == |input| || input[k] != '\\'
    ensures var k := Scan(input, start, AtBreak);
      QuotedOrUnquotedString(input, start)
        == Ok(Some(Token(input[start..k], start, k - start, Unquoted(input[start..k]))))
  {
    QuotedStringShape(input, start, Single);
    QuotedStringShape(input, start, Double);
    UnquotedStringExact(input, start);
    assert Scan(input, start, AtBreak) != start;
  }

  /** A quote that opens a string with no closing quote and no backslash after it fails there. */
  lemma QuotedOrUnquotedUnclosed(input: string, start: nat, q: Quote)
    requires QuoteOpens(input, start, q) && Scan(input, start + 1, AtQuoteStop(q)) == |input|
    ensures QuotedOrUnquotedString(input, start) == Err(ParserError(ExpectedClosingQuote(q), start))
  {
    QuotedStringExact(input, start, q);
    QuotedStringShape(input, start, Single);
  }

  /** `QuotedOrUnquotedString::try_consume`. */
  method TryConsumeQuotedOrUnquotedString(input: string, start: nat) returns (r: Parsed<Str>)
    ensures r == QuotedOrUnquotedString(input, start)
  {
    var single := TryConsumeQuotedString(input, start, Single);
    if single.Err? {
      return Err(single.error);
    }
    if single.value.Some? {
      var t := single.value.value;
      return Ok(Some(Token(t.literal, start, t.length, SingleQuoted(t.token))));
    }
    var double := TryConsumeQuotedString(input, start, Double);
    if double.Err? {
      return Err(double.error);
    }
    if double.value.Some? {
      var t := double.value.value;
      return Ok(Some(Token(t.literal, start, t.length, DoubleQuoted(t.token))));
    }
    var unquoted := TryConsumeUnquotedString(input, start);
    if unquoted.Err? {
      return Err(unquoted.error);
    }
    if unquoted.value.Some? {
      var t := unquoted.value.value;
      return Ok(Some(Token(t.literal, start, t.length, Unquoted(t.token))));
    }
    return Ok(None);
  }

  // ----- Combined strings -----

  /** The concatenation of the parts' literals. */
  function Literals(parts: Parts): string
  {
    if parts == [] then "" else Literals(parts[..|parts| - 1]) + parts[|parts| - 1].literal
  }

  /** The sum of the parts' lengths. */
  function Lengths(parts: Parts): nat
  {
    if parts == [] then 0 else Lengths(parts[..|parts| - 1]) + parts[|parts| - 1].length
  }

  /** Appending a part adds its literal and its length. */
  lemma LiteralsAppend(parts: Parts, t: Token<Str>)
    ensures Literals(parts + [t]) == Literals(parts) + t.literal
    ensures Lengths(parts + [t]) == Lengths(parts) + t.length
  {
    assert (parts + [t])[..|parts|] == parts;
  }

  /** The parts of a combined string at each position, as for the strings' own loops. */
  ghost predicate PartsAre(steps: seq<Parsed<Str>>, input: string)
  {
    && |steps| == |input|
    && forall p {:trigger QuotedOrUnquotedString(input, p)} :: 0 <= p < |input| ==> steps[p] == QuotedOrUnquotedString(input, p)
  }

  lemma PartsExist(input: string)
    ensures exists steps :: PartsAre(steps, input)
  {
    var steps := seq(|input|, p requires 0 <= p < |input| => QuotedOrUnquotedString(input, p));
    assert PartsAre(steps, input);
  }

  lemma PartsAreUnique(steps: seq<Parsed<Str>>, input: string)
    requires PartsAre(steps, input)
    ensures forall s {:trigger PartsAre(s, input)} :: PartsAre(s, input) ==> s == steps
  {
    forall s | PartsAre(s, input) ensures s == steps {
      forall p | 0 <= p < |input| ensures s[p] == steps[p] {
        assert s[p] == QuotedOrUnquotedString(input, p);
      }
    }
  }

  /** What the loop of a combined string relies on about a part. */
  predicate PartShaped(r: Parsed<Str>, input: string, pos: nat)
    requires pos < |input|
  {
    && (r == Ok(None) <==> PartAbsent(input, pos))
    && (r.Ok? && r.value.Some? ==> Spans(r.value.value, input, pos))
    && (r.Err? && r.error.ParserError? ==> r.error.start >= pos)
  }

  predicate PartsShaped(steps: seq<Parsed<Str>>, input: string)
  {
    && |steps| == |input|
    && forall p {:trigger PartShaped(steps[p], input, p)} :: 0 <= p < |input| ==> PartShaped(steps[p], input, p)
  }

  lemma PartsAreShaped(steps: seq<Parsed<Str>>, input: string)
    requires PartsAre(steps, input)
    ensures PartsShaped(steps, input)
  {
    forall p | 0 <= p < |input| ensures PartShaped(steps[p], input, p) {
      QuotedOrUnquotedOutcome(input, p);
      var r := QuotedOrUnquotedString(input, p);
      if r.Ok? && r.value.Some? {
        assert PartToken(r.value.value, input, p);
      }
    }
  }

  /** The end of a combined string: a token if it read any part. */
  function CombinedClose(input: string, start: nat, length: nat, parts: Parts): Parsed<Parts>
    requires parts == [] || start + length <= |input|
  {
    if parts == [] then Ok(None)
    else Ok(Some(Token(input[start..start + length], start, length, parts)))
  }

  /** The loop of a combined string once length chars are read into parts. */
  ghost function CombinedFrom(steps: seq<Parsed<Str>>, input: string, start: nat, length: nat, parts: Parts): Parsed<Parts>
    requires PartsShaped(steps, input)
    requires length == 0 || start + length <= |input|
    requires |parts| <= length
    decreases |input| - (start + length)
  {
    if start + length >= |input| then CombinedClose(input, start, length, parts)
    else
      assert PartShaped(steps[start + length], input, start + length);
      match steps[start + length]
      case Err(e) => Err(e)
      case Ok(None) => CombinedClose(input, start, length, parts)
      case Ok(Some(t)) => CombinedFrom(steps, input, start, length + t.length, parts + [t])
  }

  /** `CombinedString::try_consume`. */
  ghost function CombinedString(input: string, start: nat): Parsed<Parts>
  {
    PartsExist(input);
    var steps :| PartsAre(steps, input);
    PartsAreShaped(steps, input);
    CombinedFrom(steps, input, start, 0, [])
  }

  lemma CombinedStringFrom(input: string, start: nat, steps: seq<Parsed<Str>>)
    requires PartsAre(steps, input) && PartsShaped(steps, input)
    ensures CombinedString(input, start) == CombinedFrom(steps, input, start, 0, [])
  {
    PartsAreUnique(steps, input);
  }

  /**
   * Where the loop of a combined string ends, from any state it passes
   * through: at the end of the input or where no part starts, with the parts
   * covering what was read; or at a part that fails.
   */
  lemma {:induction false} CombinedFromEnds(steps: seq<Parsed<Str>>, input: string, start: nat, length: nat, parts: Parts)
      returns (n: nat, ps: Parts, closed: bool)
    requires PartsShaped(steps, input)
    requires length == 0 || start + length <= |input|
    requires |parts| <= length
    ensures length <= n && (n == 0 || start + n <= |input|) && |ps| <= n
    ensures |parts| <= |ps| && (n > length ==> |parts| < |ps|)
    ensures closed ==> start + n >= |input| || PartAbsent(input, start + n)
    ensures closed ==> CombinedFrom(steps, input, start, length, parts) == CombinedClose(input, start, n, ps)
    ensures !closed ==> CombinedFrom(steps, input, start, length, parts).Err?
    ensures !closed && CombinedFrom(steps, input, start, length, parts).error.ParserError? ==>
      CombinedFrom(steps, input, start, length, parts).error.start >= start + n
    decreases |input| - (start + length)
  {
    if start + length >= |input| {
      return length, parts, true;
    }
    assert PartShaped(steps[start + length], input, start + length);
    match steps[start + length] {
      case Err(_) =>
        return length, parts, false;
      case Ok(None) =>
        return length, parts, true;
      case Ok(Some(t)) =>
        n, ps, closed := CombinedFromEnds(steps, input, start, length + t.length, parts + [t]);
    }
  }

  /**
   * The parts a combined string reads join up to the stretch its token
   * spans: their literals concatenate to it and their lengths add up to its
   * length.
   */
  lemma {:induction false} CombinedFromJoins(steps: seq<Parsed<Str>>, input: string, start: nat, length: nat, parts: Parts)
    requires PartsShaped(steps, input)
    requires start + length <= |input| && |parts| <= length
    requires Literals(parts) == input[start..start + length] && Lengths(parts) == length
    ensures var r := CombinedFrom(steps, input, start, length, parts);
      r.Ok? && r.value.Some? ==>
        Literals(r.value.value.token) == r.value.value.literal && Lengths(r.value.value.token) == r.value.value.length
    decreases |input| - (start + length)
  {
    if start + length < |input| {
      assert PartShaped(steps[start + length], input, start + length);
      match steps[start + length] {
        case Err(_) =>
        case Ok(None) =>
        case Ok(Some(t)) =>
          LiteralsAppend(parts, t);
          Adjacent(input, start, start + length, start + length + t.length);
          CombinedFromJoins(steps, input, start, length + t.length, parts + [t]);
      }
    }
  }

  /**
   * What a combined string promises of any result: it declines exactly where
   * no part starts; a token is covered by its parts with nothing between
   * them, and ends where no further part starts; an error the parser
   * reports lies at or after start.
   */
  ghost predicate CombinedShape(r: Parsed<Parts>, input: string, start: nat)
  {
    && (r == Ok(None) <==> start >= |input| || PartAbsent(input, start))
    && (r.Ok? && r.value.Some? ==>
          var t := r.value.value;
          && Spans(t, input, start)
          && t.token != []
          && (start + t.length == |input| || PartAbsent(input, start + t.length)))
    && (r.Err? && r.error.ParserError? ==> r.error.start >= start)
  }

  lemma CombinedStringShape(input: string, start: nat)
    ensures CombinedShape(CombinedString(input, start), input, start)
  {
    PartsExist(input);
    var steps :| PartsAre(steps, input);
    PartsAreShaped(steps, input);
    CombinedStringFrom(input, start, steps);
    var n, ps, closed := CombinedFromEnds(steps, input, start, 0, []);
    if start < |input| {
      assert PartShaped(steps[start], input, start);
    }
  }

  /**
   * A combined string's literal is the concatenation of its parts' literals,
   * and its length the sum of theirs.
   */
  lemma CombinedStringParts(input: string, start: nat)
    ensures var r := CombinedString(input, start);
      r.Ok? && r.value.Some? ==>
        && Literals(r.value.value.token) == r.value.value.literal
        && Lengths(r.value.value.token) == r.value.value.length
  {
    if start <= |input| {
      PartsExist(input);
      var steps :| PartsAre(steps, input);
      PartsAreShaped(steps, input);
      CombinedStringFrom(input, start, steps);
      CombinedFromJoins(steps, input, start, 0, []);
    }
  }

  /** A plain word that ends at whitespace or the end of the input is a combined string of one unquoted part. */
  lemma CombinedWord(input: string, start: nat)
    requires start < |input| && !Breaks(input[start])
    requires var k := Scan(input, start, AtBreak); k == |input| || IsWhitespace(input[k])
    ensures var k := Scan(input, start, AtBreak);
      var w := input[start..k];
      CombinedString(input, start) == Ok(Some(Token(w, start, k - start, [Token(w, start, k - start, Unquoted(w))])))
  {
    var k := Scan(input, start, AtBreak);
    PartsExist(input);
    var steps :| PartsAre(steps, input);
    PartsAreShaped(steps, input);
    CombinedStringFrom(input, start, steps);
    assert steps[start] == QuotedOrUnquotedString(input, start);
    QuotedOrUnquotedWord(input, start);
    var w := input[start..k];
    var part := Token(w, start, k - start, Unquoted(w));
    assert [] + [part] == [part];
    CombinedFromAdvance(steps, input, start, 0, [], part);
    if k < |input| {
      assert PartShaped(steps[k], input, k);
    }
    assert CombinedFrom(steps, input, start, k - start, [part]) == CombinedClose(input, start, k - start, [part]);
  }

  /**
   * Plain chars up to a quote that opens a string with no closing quote and
   * no backslash after it: the combined string fails at that quote.
   */
  lemma CombinedUnclosed(input: string, start: nat, k: nat, q: Quote)
    requires QuoteOpens(input, k, q) && Scan(input, k + 1, AtQuoteStop(q)) == |input|
    requires start <= k && forall j :: start <= j < k ==> !Breaks(input[j])
    ensures CombinedString(input, start) == Err(ParserError(ExpectedClosingQuote(q), k))
  {
    PartsExist(input);
    var steps :| PartsAre(steps, input);
    PartsAreShaped(steps, input);
    CombinedStringFrom(input, start, steps);
    assert steps[k] == QuotedOrUnquotedString(input, k);
    QuotedOrUnquotedUnclosed(input, k, q);
    if start < k {
      ScanExact(input, start, AtBreak, k);
      assert steps[start] == QuotedOrUnquotedString(input, start);
      QuotedOrUnquotedWord(input, start);
    }
  }

  /** A part that is read moves the loop of a combined string past it. */
  lemma CombinedFromAdvance(steps: seq<Parsed<Str>>, input: string, start: nat, length: nat, parts: Parts, t: Token<Str>)
    requires PartsShaped(steps, input)
    requires |parts| <= length
    requires start + length < |input| && steps[start + length] == Ok(Some(t))
    requires start + length + t.length <= |input| && t.length > 0
    ensures CombinedFrom(steps, input, start, length, parts)
         == CombinedFrom(steps, input, start, length + t.length, parts + [t])
  {
  }

  /** One pass of the loop body of `CombinedString::try_consume`. */
  method TryConsumePart(ghost steps: seq<Parsed<Str>>, input: string, pos: nat) returns (r: Parsed<Str>)
    requires pos < |input| && PartsAre(steps, input)
    ensures r == steps[pos]
    ensures r.Ok? && r.value.Some? ==> Spans(r.value.value, input, pos)
  {
    assert steps[pos] == QuotedOrUnquotedString(input, pos);
    r := TryConsumeQuotedOrUnquotedString(input, pos);
    QuotedOrUnquotedOutcome(input, pos);
    if r.Ok? && r.value.Some? {
      assert PartToken(r.value.value, input, pos);
    }
  }

  /** `CombinedString::try_consume`: parts until none starts; the literal joins theirs. */
  method TryConsumeCombinedString(input: string, start: nat) returns (r: Parsed<Parts>)
    ensures r == CombinedString(input, start)
  {
    PartsExist(input);
    ghost var steps :| PartsAre(steps, input);
    PartsAreShaped(steps, input);
    CombinedStringFrom(input, start, steps);
    ghost var target := CombinedString(input, start);
    var parts: Parts := [];
    var length := 0;
    while start + length < |input|
      invariant length == 0 || start + length <= |input|
      invariant |parts| <= length
      invariant start + length <= |input| ==> Literals(parts) == input[start..start + length]
      invariant CombinedFrom(steps, input, start, length, parts) == target
      decreases |input| - (start + length)
    {
      var step := TryConsumePart(steps, input, start + length);
      if step.Err? {
        return Err(step.error);
      }
      if step.value.None? {
        break;
      }
      var t := step.value.value;
      CombinedFromAdvance(steps, input, start, length, parts, t);
      LiteralsAppend(parts, t);
      Adjacent(input, start, start + length, start + length + t.length);
      length := length + t.length;
      parts := parts + [t];
    }
    if parts == [] {
      return Ok(None);
    }
    return Ok(Some(Token(Literals(parts), start, length, parts)));
  }

  // ----- Expressions -----

  /** What one pass of the loop of an expression reads: whitespace, or a combined string. */
  datatype Piece = Gap | Word(parts: Parts)

  /** The combined strings of an expression. */
  type Words = seq<Token<Parts>>

  /** One pass of the loop body of an expression: whitespace, else a combined string. */
  ghost function ExpressionStep(input: string, pos: nat): Parsed<Piece>
    requires pos < |input|
  {
    var w := Whitespace(input, pos);
    if w.value.Some? then Ok(Some(Token(w.value.value.literal, pos, w.value.value.length, Gap)))
    else
      match CombinedString(input, pos)
      case Err(e) => Err(e)
      case Ok(None) => Ok(None)
      case Ok(Some(t)) => Ok(Some(Token(t.literal, pos, t.length, Word(t.token))))
  }

  /** The pieces of an expression at each position, as for the strings' own loops. */
  ghost predicate PiecesAre(steps: seq<Parsed<Piece>>, input: string)
  {
    && |steps| == |input|
    && forall p {:trigger ExpressionStep(input, p)} :: 0 <= p < |input| ==> steps[p] == ExpressionStep(input, p)
  }

  lemma PiecesExist(input: string)
    ensures exists steps :: PiecesAre(steps, input)
  {
    var steps := seq(|input|, p requires 0 <= p < |input| => ExpressionStep(input, p));
    assert PiecesAre(steps, input);
  }

  lemma PiecesAreUnique(steps: seq<Parsed<Piece>>, input: string)
    requires PiecesAre(steps, input)
    ensures forall s {:trigger PiecesAre(s, input)} :: PiecesAre(s, input) ==> s == steps
  {
    forall s | PiecesAre(s, input) ensures s == steps {
      forall p | 0 <= p < |input| ensures s[p] == steps[p] {
        assert s[p] == ExpressionStep(input, p);
      }
    }
  }

  /**
   * r is what the loop of a combined string gives from start, whichever
   * table of parts it reads (there is one, and only one).
   */
  ghost predicate CombinedReads(input: string, start: nat, r: Parsed<Parts>)
  {
    forall steps {:trigger PartsAre(steps, input)} ::
      PartsAre(steps, input) && PartsShaped(steps, input) ==> CombinedFrom(steps, input, start, 0, []) == r
  }

  lemma CombinedReadsString(input: string, start: nat)
    ensures CombinedReads(input, start, CombinedString(input, start))
  {
    forall steps | PartsAre(steps, input) && PartsShaped(steps, input)
      ensures CombinedFrom(steps, input, start, 0, []) == CombinedString(input, start)
    {
      CombinedStringFrom(input, start, steps);
    }
  }

  lemma CombinedReadsOnly(input: string, start: nat, r: Parsed<Parts>)
    requires CombinedReads(input, start, r)
    ensures r == CombinedString(input, start)
  {
    PartsExist(input);
    var steps: seq<Parsed<Str>> :| PartsAre(steps, input);
    PartsAreShaped(steps, input);
    CombinedStringFrom(input, start, steps);
  }

  /** A word of an expression: the combined string read at its start, which is not whitespace. */
  ghost predicate WordAt(t: Token<Parts>, input: string)
  {
    && t.start < |input|
    && !IsWhitespace(input[t.start])
    && CombinedReads(input, t.start, Ok(Some(t)))
  }

  lemma WordAtCombined(t: Token<Parts>, input: string)
    requires WordAt(t, input)
    ensures CombinedString(input, t.start) == Ok(Some(t))
  {
    CombinedReadsOnly(input, t.start, Ok(Some(t)));
  }

  /**
   * What the loop of an expression relies on about a piece: it declines
   * exactly where neither whitespace nor a part starts; whitespace is read as
   * its maximal run; a word is the combined string there and ends where no
   * part starts.
   */
  ghost predicate PieceShaped(r: Parsed<Piece>, input: string, pos: nat)
    requires pos < |input|
  {
    && (r == Ok(None) <==> !IsWhitespace(input[pos]) && PartAbsent(input, pos))
    && (r.Ok? && r.value.Some? ==> Spans(r.value.value, input, pos))
    && (r.Ok? && r.value.Some? && r.value.value.token.Gap? ==>
          && (forall j :: pos <= j < pos + r.value.value.length ==> IsWhitespace(input[j]))
          && (pos + r.value.value.length == |input| || !IsWhitespace(input[pos + r.value.value.length])))
    && (r.Ok? && r.value.Some? && r.value.value.token.Word? ==>
          var t := r.value.value;
          && !IsWhitespace(input[pos])
          && t.token.parts != []
          && WordAt(Token(t.literal, pos, t.length, t.token.parts), input)
          && (pos + t.length == |input| || PartAbsent(input, pos + t.length)))
    && (r.Err? ==> !IsWhitespace(input[pos]))
    && (r.Err? && r.error.ParserError? ==> r.error.start >= pos)
  }

  ghost predicate PiecesShaped(steps: seq<Parsed<Piece>>, input: string)
  {
    && |steps| == |input|
    && forall p {:trigger PieceShaped(steps[p], input, p)} :: 0 <= p < |input| ==> PieceShaped(steps[p], input, p)
  }

  lemma PieceShapedAt(input: string, pos: nat)
    requires pos < |input|
    ensures PieceShaped(ExpressionStep(input, pos), input, pos)
  {
    CombinedStringShape(input, pos);
    CombinedReadsString(input, pos);
  }

  lemma PiecesAreShaped(steps: seq<Parsed<Piece>>, input: string)
    requires PiecesAre(steps, input)
    ensures PiecesShaped(steps, input)
  {
    forall p | 0 <= p < |input| ensures PieceShaped(steps[p], input, p) {
      PieceShapedAt(input, p);
    }
  }

  /** The end of an expression: a token if it read any word. */
  function ExpressionClose(input: string, start: nat, length: nat, parts: Words): Parsed<Words>
    requires parts == [] || start + length <= |input|
  {
    if parts == [] then Ok(None)
    else Ok(Some(Token(input[start..start + length], start, length, parts)))
  }

  /** The loop of an expression once length chars are read; whitespace adds no part. */
  ghost function ExpressionFrom(steps: seq<Parsed<Piece>>, input: string, start: nat, length: nat, parts: Words): Parsed<Words>
    requires PiecesShaped(steps, input)
    requires length == 0 || start + length <= |input|
    requires |parts| <= length
    decreases |input| - (start + length)
  {
    if start + length >= |input| then ExpressionClose(input, start, length, parts)
    else
      assert PieceShaped(steps[start + length], input, start + length);
      match steps[start + length]
      case Err(e) => Err(e)
      case Ok(None) => ExpressionClose(input, start, length, parts)
      case Ok(Some(t)) =>
        match t.token
        case Gap => ExpressionFrom(steps, input, start, length + t.length, parts)
        case Word(ps) => ExpressionFrom(steps, input, start, length + t.length, parts + [Token(t.literal, t.start, t.length, ps)])
  }

  /** `Expression::try_consume`. */
  ghost function Expression(input: string, start: nat): Parsed<Words>
  {
    PiecesExist(input);
    var steps :| PiecesAre(steps, input);
    PiecesAreShaped(steps, input);
    ExpressionFrom(steps, input, start, 0, [])
  }

  lemma ExpressionFromSteps(input: string, start: nat, steps: seq<Parsed<Piece>>)
    requires PiecesAre(steps, input) && PiecesShaped(steps, input)
    ensures Expression(input, start) == ExpressionFrom(steps, input, start, 0, [])
  {
    PiecesAreUnique(steps, input);
  }

  /** A piece that is read moves the loop of an expression past it. */
  lemma ExpressionFromAdvance(steps: seq<Parsed<Piece>>, input: string, start: nat, length: nat, parts: Words, t: Token<Piece>)
    requires PiecesShaped(steps, input)
    requires |parts| <= length
    requires start + length < |input| && steps[start + length] == Ok(Some(t))
    requires start + length + t.length <= |input| && t.length > 0
    ensures t.token.Gap? ==>
      ExpressionFrom(steps, input, start, length, parts) == ExpressionFrom(steps, input, start, length + t.length, parts)
    ensures t.token.Word? ==>
      ExpressionFrom(steps, input, start, length, parts)
        == ExpressionFrom(steps, input, start, length + t.length, parts + [Token(t.literal, t.start, t.length, t.token.parts)])
  {
  }

  /**
   * Where the loop of an expression ends, from any state it passes through:
   * at the end of the input or where neither whitespace nor a part starts;
   * or at a combined string that fails.
   */
  lemma {:induction false} ExpressionFromEnds(steps: seq<Parsed<Piece>>, input: string, start: nat, length: nat, parts: Words)
      returns (n: nat, ws: Words, closed: bool)
    requires PiecesShaped(steps, input)
    requires length == 0 || start + length <= |input|
    requires |parts| <= length
    ensures length <= n && (n == 0 || start + n <= |input|) && |ws| <= n && |parts| <= |ws|
    ensures closed ==> start + n >= |input| || (!IsWhitespace(input[start + n]) && PartAbsent(input, start + n))
    ensures closed ==> ExpressionFrom(steps, input, start, length, parts) == ExpressionClose(input, start, n, ws)
    ensures !closed ==> ExpressionFrom(steps, input, start, length, parts).Err?
    ensures !closed && ExpressionFrom(steps, input, start, length, parts).error.ParserError? ==>
      ExpressionFrom(steps, input, start, length, parts).error.start >= start + n
    decreases |input| - (start + length)
  {
    if start + length >= |input| {
      return length, parts, true;
    }
    assert PieceShaped(steps[start + length], input, start + length);
    match steps[start + length] {
      case Err(_) =>
        return length, parts, false;
      case Ok(None) =>
        return length, parts, true;
      case Ok(Some(t)) =>
        match t.token {
          case Gap =>
            n, ws, closed := ExpressionFromEnds(steps, input, start, length + t.length, parts);
          case Word(ps) =>
            n, ws, closed := ExpressionFromEnds(steps, input, start, length + t.length, parts + [Token(t.literal, t.start, t.length, ps)]);
        }
    }
  }

  /** Once a word is read, the expression does not decline. */
  lemma ExpressionFromNotNone(steps: seq<Parsed<Piece>>, input: string, start: nat, length: nat, parts: Words)
    requires PiecesShaped(steps, input)
    requires length == 0 || start + length <= |input|
    requires |parts| <= length && parts != []
    ensures ExpressionFrom(steps, input, start, length, parts) != Ok(None)
  {
    var n, ws, closed := ExpressionFromEnds(steps, input, start, length, parts);
  }

  /** Every char from a to b is whitespace. */
  predicate AllWhitespace(input: string, a: nat, b: nat)
  {
    a <= b <= |input| && forall j :: a <= j < b ==> IsWhitespace(input[j])
  }

  /**
   * The words lie between from and end in order, each the combined string
   * at its start, with whitespace before the first, after the last and
   * between each two of them, and at least one char of it between two words.
   */
  ghost predicate WordsLaid(parts: Words, input: string, from: nat, end: nat)
    decreases |parts|
  {
    if parts == [] then AllWhitespace(input, from, end)
    else
      var init, last := parts[..|parts| - 1], parts[|parts| - 1];
      && WordAt(last, input)
      && AllWhitespace(input, last.start + last.length, end)
      && WordsLaid(init, input, from, last.start)
      && (init != [] ==> init[|init| - 1].start + init[|init| - 1].length < last.start)
  }

  /** A word read right where the last one ended would not be preceded by whitespace. */
  ghost predicate WordsOpen(parts: Words, input: string, end: nat)
  {
    parts != [] && parts[|parts| - 1].start + parts[|parts| - 1].length == end && end < |input| ==>
      PartAbsent(input, end)
  }

  lemma WordsLaidGap(parts: Words, input: string, from: nat, end: nat, end': nat)
    requires WordsLaid(parts, input, from, end) && AllWhitespace(input, end, end')
    ensures WordsLaid(parts, input, from, end')
  {
  }

  lemma WordsLaidWord(parts: Words, input: string, from: nat, end: nat, w: Token<Parts>)
    requires WordsLaid(parts, input, from, end) && WordsOpen(parts, input, end)
    requires w.start == end && WordAt(w, input) && !PartAbsent(input, end)
    requires w.start + w.length <= |input|
    ensures WordsLaid(parts + [w], input, from, w.start + w.length)
  {
    assert (parts + [w])[..|parts|] == parts;
  }

  /** Whitespace read by an expression keeps its words laid out. */
  lemma ExpressionWordsGap(steps: seq<Parsed<Piece>>, input: string, start: nat, length: nat, parts: Words, t: Token<Piece>)
    requires PiecesShaped(steps, input)
    requires start + length < |input| && |parts| <= length
    requires steps[start + length] == Ok(Some(t)) && t.token.Gap?
    requires WordsLaid(parts, input, start, start + length) && WordsOpen(parts, input, start + length)
    ensures t.length > 0 && start + length + t.length <= |input| && |parts| <= length + t.length
    ensures WordsLaid(parts, input, start, start + length + t.length)
    ensures WordsOpen(parts, input, start + length + t.length)
    ensures ExpressionFrom(steps, input, start, length, parts) == ExpressionFrom(steps, input, start, length + t.length, parts)
  {
    var p := start + length;
    assert PieceShaped(steps[p], input, p);
    WordsLaidGap(parts, input, start, p, p + t.length);
    ExpressionFromAdvance(steps, input, start, length, parts, t);
  }

  /** A word read by an expression is laid out after the ones before it. */
  lemma ExpressionWordsWord(steps: seq<Parsed<Piece>>, input: string, start: nat, length: nat, parts: Words, t: Token<Piece>)
      returns (w: Token<Parts>)
    requires PiecesShaped(steps, input)
    requires start + length < |input| && |parts| <= length
    requires steps[start + length] == Ok(Some(t)) && t.token.Word?
    requires WordsLaid(parts, input, start, start + length) && WordsOpen(parts, input, start + length)
    ensures w == Token(t.literal, t.start, t.length, t.token.parts)
    ensures t.length > 0 && start + length + t.length <= |input| && |parts + [w]| <= length + t.length
    ensures WordsLaid(parts + [w], input, start, start + length + t.length)
    ensures WordsOpen(parts + [w], input, start + length + t.length)
    ensures ExpressionFrom(steps, input, start, length, parts) == ExpressionFrom(steps, input, start, length + t.length, parts + [w])
  {
    var p := start + length;
    assert PieceShaped(steps[p], input, p);
    w := Token(t.literal, t.start, t.length, t.token.parts);
    WordsLaidWord(parts, input, start, p, w);
    ExpressionFromAdvance(steps, input, start, length, parts, t);
  }

  /** Where no piece is read, the loop of an expression yields what it has, or the error. */
  lemma ExpressionFromStop(steps: seq<Parsed<Piece>>, input: string, start: nat, length: nat, parts: Words)
    requires PiecesShaped(steps, input)
    requires start + length <= |input| && |parts| <= length
    requires !(start + length < |input| && steps[start + length].Ok? && steps[start + length].value.Some?)
    ensures var r := ExpressionFrom(steps, input, start, length, parts);
      r.Ok? && r.value.Some? ==> r.value.value.token == parts && r.value.value.length == length
  {
  }

  /** The words an expression reads are laid out with whitespace around and between them. */
  lemma {:induction false} ExpressionFromWords(steps: seq<Parsed<Piece>>, input: string, start: nat, length: nat, parts: Words)
      returns (n: nat, ws: Words)
    requires PiecesShaped(steps, input)
    requires start + length <= |input| && |parts| <= length
    requires WordsLaid(parts, input, start, start + length) && WordsOpen(parts, input, start + length)
    ensures WordsLaid(ws, input, start, start + n)
    ensures var r := ExpressionFrom(steps, input, start, length, parts);
      r.Ok? && r.value.Some? ==> r.value.value.token == ws && r.value.value.length == n
    decreases |input| - (start + length)
  {
    var p := start + length;
    if p < |input| && steps[p].Ok? && steps[p].value.Some? {
      var t := steps[p].value.value;
      var parts' := ExpressionWordsStep(steps, input, start, length, parts, t);
      n, ws := ExpressionFromWords(steps, input, start, length + t.length, parts');
    } else {
      ExpressionFromStop(steps, input, start, length, parts);
      n, ws := length, parts;
    }
  }

  /** A piece read by an expression, whitespace or a word, keeps its words laid out. */
  lemma ExpressionWordsStep(steps: seq<Parsed<Piece>>, input: string, start: nat, length: nat, parts: Words, t: Token<Piece>)
      returns (parts': Words)
    requires PiecesShaped(steps, input)
    requires start + length < |input| && |parts| <= length
    requires steps[start + length] == Ok(Some(t))
    requires WordsLaid(parts, input, start, start + length) && WordsOpen(parts, input, start + length)
    ensures t.length > 0 && start + length + t.length <= |input| && |parts'| <= length + t.length
    ensures WordsLaid(parts', input, start, start + length + t.length)
    ensures WordsOpen(parts', input, start + length + t.length)
    ensures ExpressionFrom(steps, input, start, length, parts) == ExpressionFrom(steps, input, start, length + t.length, parts')
  {
    if t.token.Gap? {
      ExpressionWordsGap(steps, input, start, length, parts, t);
      parts' := parts;
    } else {
      var w := ExpressionWordsWord(steps, input, start, length, parts, t);
      parts' := parts + [w];
    }
  }

  /**
   * What an expression promises of any result: it declines exactly when
   * only whitespace, or nothing a part can start with, comes after the
   * leading whitespace; a token spans its input, holds at least one word,
   * lays its words out with whitespace around and between them, and stops
   * where neither whitespace nor a part starts; an error the parser reports
   * lies at or after start.
   */
  ghost predicate ExpressionShape(r: Parsed<Words>, input: string, start: nat)
  {
    && (r == Ok(None) <==>
          start >= |input| ||
          var k := Scan(input, start, AtNonWhitespace); k == |input| || PartAbsent(input, k))
    && (r.Ok? && r.value.Some? ==>
          var t := r.value.value;
          && Spans(t, input, start)
          && t.token != []
          && WordsLaid(t.token, input, start, start + t.length)
          && (start + t.length == |input| ||
              (!IsWhitespace(input[start + t.length]) && PartAbsent(input, start + t.length))))
    && (r.Err? && r.error.ParserError? ==> r.error.start >= start)
  }

  /** The loop of an expression declines exactly when no word follows the leading whitespace. */
  lemma ExpressionFromNone(steps: seq<Parsed<Piece>>, input: string, start: nat)
    requires PiecesShaped(steps, input) && start < |input|
    ensures ExpressionFrom(steps, input, start, 0, []) == Ok(None) <==>
      var k := Scan(input, start, AtNonWhitespace); k == |input| || PartAbsent(input, k)
  {
    var k := Scan(input, start, AtNonWhitespace);
    assert PieceShaped(steps[start], input, start);
    if steps[start].Ok? && steps[start].value.Some? {
      var t := steps[start].value.value;
      if t.token.Gap? {
        ExpressionFromAdvance(steps, input, start, 0, [], t);
        ScanExact(input, start, AtNonWhitespace, start + t.length);
        if k < |input| {
          assert PieceShaped(steps[k], input, k);
          if steps[k].Ok? && steps[k].value.Some? {
            var u := steps[k].value.value;
            ExpressionFromAdvance(steps, input, start, t.length, [], u);
            assert [] + [Token(u.literal, u.start, u.length, u.token.parts)] == [Token(u.literal, u.start, u.length, u.token.parts)];
            ExpressionFromNotNone(steps, input, start, t.length + u.length, [Token(u.literal, u.start, u.length, u.token.parts)]);
          }
        }
      } else {
        ScanExact(input, start, AtNonWhitespace, start);
        ExpressionFromAdvance(steps, input, start, 0, [], t);
        assert [] + [Token(t.literal, t.start, t.length, t.token.parts)] == [Token(t.literal, t.start, t.length, t.token.parts)];
        ExpressionFromNotNone(steps, input, start, t.length, [Token(t.literal, t.start, t.length, t.token.parts)]);
      }
    } else {
      ScanExact(input, start, AtNonWhitespace, start);
    }
  }

  lemma ExpressionOutcome(input: string, start: nat)
    ensures ExpressionShape(Expression(input, start), input, start)
  {
    PiecesExist(input);
    var steps: seq<Parsed<Piece>> :| PiecesAre(steps, input);
    PiecesAreShaped(steps, input);
    ExpressionFromSteps(input, start, steps);
    var n, ws, closed := ExpressionFromEnds(steps, input, start, 0, []);
    if start <= |input| {
      var n', ws' := ExpressionFromWords(steps, input, start, 0, []);
    }
    if start < |input| {
      ExpressionFromNone(steps, input, start);
    }
  }

  /** One pass of the loop body of `Expression::try_consume`. */
  method TryConsumePiece(ghost steps: seq<Parsed<Piece>>, input: string, pos: nat) returns (r: Parsed<Piece>)
    requires pos < |input| && PiecesAre(steps, input)
    ensures r == steps[pos]
    ensures r.Ok? && r.value.Some? ==> Spans(r.value.value, input, pos)
  {
    assert steps[pos] == ExpressionStep(input, pos);
    PieceShapedAt(input, pos);
    var w := Whitespace(input, pos);
    if w.value.Some? {
      return Ok(Some(Token(w.value.value.literal, pos, w.value.value.length, Gap)));
    }
    var c := TryConsumeCombinedString(input, pos);
    match c {
      case Err(e) => return Err(e);
      case Ok(None) => return Ok(None);
      case Ok(Some(t)) => return Ok(Some(Token(t.literal, pos, t.length, Word(t.token))));
    }
  }

  /**
   * `Expression::try_consume`: whitespace and combined strings until neither
   * starts; the literal joins what each read.
   */
  method TryConsumeExpression(input: string, start: nat) returns (r: Parsed<Words>)
    ensures r == Expression(input, start)
  {
    PiecesExist(input);
    ghost var steps :| PiecesAre(steps, input);
    PiecesAreShaped(steps, input);
    ExpressionFromSteps(input, start, steps);
    ghost var target := Expression(input, start);
    var literal := "";
    var parts: Words := [];
    var length := 0;
    while start + length < |input|
      invariant length == 0 || start + length <= |input|
      invariant |parts| <= length
      invariant start + length <= |input| ==> literal == input[start..start + length]
      invariant ExpressionFrom(steps, input, start, length, parts) == target
      decreases |input| - (start + length)
    {
      var step := TryConsumePiece(steps, input, start + length);
      if step.Err? {
        return Err(step.error);
      }
      if step.value.None? {
        break;
      }
      var t := step.value.value;
      ExpressionFromAdvance(steps, input, start, length, parts, t);
      LiteralGrows(input, start, length, literal, t);
      literal := literal + t.literal;
      if t.token.Word? {
        parts := parts + [Token(t.literal, t.start, t.length, t.token.parts)];
      }
      length := length + t.length;
    }
    if parts == [] {
      return Ok(None);
    }
    return Ok(Some(Token(literal, start, length, parts)));
  }

  // ----- Expressions of plain words -----

  /** No escape and no quote at j. */
  predicate PlainChar(input: string, j: nat)
    requires j < |input|
  {
    !Special(input[j])
  }

  /** No escape and no quote from from to to. */
  predicate Plain(input: string, from: nat, to: nat)
  {
    forall j {:trigger PlainChar(input, j)} :: from <= j < to && j < |input| ==> PlainChar(input, j)
  }

  /**
   * The reference reading of an input with no escape and no quote: the
   * runs of non-whitespace, each a combined string of one unquoted part.
   */
  function PlainWords(input: string, from: nat): Words
    requires from <= |input|
    decreases |input| - from
  {
    var a := Scan(input, from, AtNonWhitespace);
    if a == |input| then []
    else
      var b := Scan(input, a + 1, AtBreak);
      var w := input[a..b];
      [Token(w, a, b - a, [Token(w, a, b - a, Unquoted(w))])] + PlainWords(input, b)
  }


  /** At whitespace an expression reads the whole run as one gap. */
  lemma PieceGap(steps: seq<Parsed<Piece>>, input: string, p: nat)
    requires PiecesAre(steps, input)
    requires p < |input| && IsWhitespace(input[p])
    ensures var q := Scan(input, p, AtNonWhitespace);
      p < q && steps[p] == Ok(Some(Token(input[p..q], p, q - p, Gap)))
  {
    assert steps[p] == ExpressionStep(input, p);
  }

  /** A run of plain chars ending at whitespace or the end is read as one word of one unquoted part. */
  lemma PieceWord(steps: seq<Parsed<Piece>>, input: string, p: nat)
    requires PiecesAre(steps, input)
    requires p < |input| && !Breaks(input[p])
    requires var k := Scan(input, p, AtBreak); k == |input| || IsWhitespace(input[k])
    ensures var k := Scan(input, p, AtBreak);
      var w := input[p..k];
      steps[p] == Ok(Some(Token(w, p, k - p, Word([Token(w, p, k - p, Unquoted(w))]))))
  {
    assert steps[p] == ExpressionStep(input, p);
    CombinedWord(input, p);
  }

  /** Plain chars before an unclosed quote: the expression's step there fails at the quote. */
  lemma PieceUnclosed(steps: seq<Parsed<Piece>>, input: string, p: nat, k: nat, q: Quote)
    requires PiecesAre(steps, input)
    requires QuoteOpens(input, k, q) && Scan(input, k + 1, AtQuoteStop(q)) == |input|
    requires p <= k && forall j :: p <= j < k ==> !Breaks(input[j])
    ensures steps[p] == Err(ParserError(ExpectedClosingQuote(q), k))
  {
    assert steps[p] == ExpressionStep(input, p);
    CombinedUnclosed(input, p, k, q);
    if p == k {
      assert !IsWhitespace(input[p]);
    }
  }

  /** Whitespace adds no plain word. */
  lemma PlainWordsGap(input: string, p: nat)
    requires p < |input| && IsWhitespace(input[p])
    ensures PlainWords(input, p) == PlainWords(input, Scan(input, p, AtNonWhitespace))
  {
    var q := Scan(input, p, AtNonWhitespace);
    ScanFacts(input, p, AtNonWhitespace);
    ScanExact(input, q, AtNonWhitespace, q);
  }

  /** A run of plain chars is the next plain word. */
  lemma PlainWordsWord(input: string, p: nat)
    requires p < |input| && !Breaks(input[p])
    ensures var k := Scan(input, p, AtBreak);
      var w := input[p..k];
      PlainWords(input, p) == [Token(w, p, k - p, [Token(w, p, k - p, Unquoted(w))])] + PlainWords(input, k)
  {
    ScanExact(input, p, AtNonWhitespace, p);
  }

  /** A plain word read by an expression: one unquoted part up to the next whitespace. */
  lemma ExpressionPlainWord(steps: seq<Parsed<Piece>>, input: string, start: nat, length: nat, parts: Words)
    requires PiecesAre(steps, input) && PiecesShaped(steps, input)
    requires start + length < |input| && |parts| <= length
    requires !Breaks(input[start + length])
    requires var k := Scan(input, start + length, AtBreak); k == |input| || IsWhitespace(input[k])
    ensures var p, k := start + length, Scan(input, start + length, AtBreak);
      var w := input[p..k];
      && p < k
      && ExpressionFrom(steps, input, start, length, parts)
         == ExpressionFrom(steps, input, start, k - start, parts + [Token(w, p, k - p, [Token(w, p, k - p, Unquoted(w))])])
  {
    var p := start + length;
    var k := Scan(input, p, AtBreak);
    var w := input[p..k];
    PieceWord(steps, input, p);
    var t := Token(w, p, k - p, Word([Token(w, p, k - p, Unquoted(w))]));
    ExpressionFromAdvance(steps, input, start, length, parts, t);
  }

  /** Whitespace read by an expression: the whole run. */
  lemma ExpressionPlainGap(steps: seq<Parsed<Piece>>, input: string, start: nat, length: nat, parts: Words)
    requires PiecesAre(steps, input) && PiecesShaped(steps, input)
    requires start + length < |input| && |parts| <= length
    requires IsWhitespace(input[start + length])
    ensures var q := Scan(input, start + length, AtNonWhitespace);
      && start + length < q
      && ExpressionFrom(steps, input, start, length, parts) == ExpressionFrom(steps, input, start, q - start, parts)
  {
    var p := start + length;
    var q := Scan(input, p, AtNonWhitespace);
    PieceGap(steps, input, p);
    ExpressionFromAdvance(steps, input, start, length, parts, Token(input[p..q], p, q - p, Gap));
  }

  /**
   * One piece of plain input, whitespace or a word, read by the expression
   * and taken off the reference reading alike: one step of ExpressionFromPlain.
   */
  lemma ExpressionPlainAdvance(steps: seq<Parsed<Piece>>, input: string, start: nat, length: nat, parts: Words)
      returns (length': nat, parts': Words)
    requires PiecesAre(steps, input) && PiecesShaped(steps, input)
    requires start + length < |input| && |parts| <= length
    requires Plain(input, start + length, |input|)
    ensures length < length' && start + length' <= |input| && |parts'| <= length'
    ensures Plain(input, start + length', |input|)
    ensures ExpressionFrom(steps, input, start, length, parts) == ExpressionFrom(steps, input, start, length', parts')
    ensures parts + PlainWords(input, start + length) == parts' + PlainWords(input, start + length')
  {
    if IsWhitespace(input[start + length]) {
      length', parts' := ExpressionPlainAdvanceGap(steps, input, start, length, parts);
    } else {
      length', parts' := ExpressionPlainAdvanceWord(steps, input, start, length, parts);
    }
  }

  lemma ExpressionPlainAdvanceGap(steps: seq<Parsed<Piece>>, input: string, start: nat, length: nat, parts: Words)
      returns (length': nat, parts': Words)
    requires PiecesAre(steps, input) && PiecesShaped(steps, input)
    requires start + length < |input| && |parts| <= length
    requires Plain(input, start + length, |input|) && IsWhitespace(input[start + length])
    ensures length < length' && start + length' <= |input| && |parts'| <= length'
    ensures Plain(input, start + length', |input|)
    ensures ExpressionFrom(steps, input, start, length, parts) == ExpressionFrom(steps, input, start, length', parts')
    ensures parts + PlainWords(input, start + length) == parts' + PlainWords(input, start + length')
  {
    var p := start + length;
    var q := Scan(input, p, AtNonWhitespace);
    ScanFacts(input, p, AtNonWhitespace);
    ExpressionPlainGap(steps, input, start, length, parts);
    PlainWordsGap(input, p);
    length', parts' := q - start, parts;
    assert start + length' == q;
  }

  lemma ExpressionPlainAdvanceWord(steps: seq<Parsed<Piece>>, input: string, start: nat, length: nat, parts: Words)
      returns (length': nat, parts': Words)
    requires PiecesAre(steps, input) && PiecesShaped(steps, input)
    requires start + length < |input| && |parts| <= length
    requires Plain(input, start + length, |input|) && !IsWhitespace(input[start + length])
    ensures length < length' && start + length' <= |input| && |parts'| <= length'
    ensures Plain(input, start + length', |input|)
    ensures ExpressionFrom(steps, input, start, length, parts) == ExpressionFrom(steps, input, start, length', parts')
    ensures parts + PlainWords(input, start + length) == parts' + PlainWords(input, start + length')
  {
    var p := start + length;
    var k := Scan(input, p, AtBreak);
    var w := input[p..k];
    var wt := Token(w, p, k - p, [Token(w, p, k - p, Unquoted(w))]);
    assert PlainChar(input, p);
    ScanFacts(input, p, AtBreak);
    if k < |input| {
      assert PlainChar(input, k);
    }
    ExpressionPlainWord(steps, input, start, length, parts);
    length', parts' := k - start, parts + [wt];
    PlainWordsAfter(input, start, length, parts, length', parts');
  }

  /** The words before a plain word, then the plain words from it on. */
  lemma PlainWordsAfter(input: string, start: nat, length: nat, parts: Words, length': nat, parts': Words)
    requires start + length < |input| && !Breaks(input[start + length])
    requires var p, k := start + length, Scan(input, start + length, AtBreak);
      var w := input[p..k];
      && start + length' == k
      && parts' == parts + [Token(w, p, k - p, [Token(w, p, k - p, Unquoted(w))])]
    ensures parts + PlainWords(input, start + length) == parts' + PlainWords(input, start + length')
  {
    var p := start + length;
    var k := Scan(input, p, AtBreak);
    var w := input[p..k];
    PlainWordsWord(input, p);
    Bytes.AppendAssoc(parts, [Token(w, p, k - p, [Token(w, p, k - p, Unquoted(w))])], PlainWords(input, k));
  }

  /** At the end of the input the expression closes with the words it has. */
  lemma ExpressionPlainEnd(steps: seq<Parsed<Piece>>, input: string, start: nat, length: nat, parts: Words)
    requires PiecesShaped(steps, input)
    requires start + length == |input| && |parts| <= length
    ensures ExpressionFrom(steps, input, start, length, parts)
         == ExpressionClose(input, start, |input| - start, parts + PlainWords(input, start + length))
  {
    assert PlainWords(input, start + length) == [];
    assert parts + [] == parts;
  }

  lemma {:induction false} ExpressionFromPlain(steps: seq<Parsed<Piece>>, input: string, start: nat, length: nat, parts: Words)
    requires PiecesAre(steps, input) && PiecesShaped(steps, input)
    requires start + length <= |input| && |parts| <= length
    requires Plain(input, start + length, |input|)
    ensures ExpressionFrom(steps, input, start, length, parts)
         == ExpressionClose(input, start, |input| - start, parts + PlainWords(input, start + length))
    decreases |input| - (start + length)
  {
    if start + length == |input| {
      ExpressionPlainEnd(steps, input, start, length, parts);
    } else {
      var length', parts' := ExpressionPlainAdvance(steps, input, start, length, parts);
      ExpressionFromPlain(steps, input, start, length', parts');
    }
  }

  /**
   * With no escape and no quote, an expression reads the whole rest of the
   * input, its words being the runs of non-whitespace.
   */
  lemma ExpressionPlain(input: string, start: nat)
    requires start <= |input| && Plain(input, start, |input|)
    ensures Expression(input, start) == ExpressionClose(input, start, |input| - start, PlainWords(input, start))
  {
    PiecesExist(input);
    var steps: seq<Parsed<Piece>> :| PiecesAre(steps, input);
    PiecesAreShaped(steps, input);
    ExpressionFromSteps(input, start, steps);
    ExpressionFromPlain(steps, input, start, 0, []);
    assert [] + PlainWords(input, start) == PlainWords(input, start);
  }

  /** Past a plain word before an unclosed quote the expression still fails there: one step of ExpressionFromUnclosed. */
  lemma ExpressionUnclosedWordStep(steps: seq<Parsed<Piece>>, input: string, start: nat, length: nat, parts: Words, k: nat, q: Quote)
    requires PiecesAre(steps, input) && PiecesShaped(steps, input)
    requires start + length < k < |input| && |parts| <= length
    requires Plain(input, start + length, k) && !IsWhitespace(input[start + length])
    requires var p, e := start + length, Scan(input, start + length, AtBreak);
      var w := input[p..e];
      && p < e < k
      && ExpressionFrom(steps, input, start, e - start, parts + [Token(w, p, e - p, [Token(w, p, e - p, Unquoted(w))])])
         == Err(ParserError(ExpectedClosingQuote(q), k))
    ensures ExpressionFrom(steps, input, start, length, parts) == Err(ParserError(ExpectedClosingQuote(q), k))
  {
    var p := start + length;
    var e := Scan(input, p, AtBreak);
    assert PlainChar(input, p);
    ScanFacts(input, p, AtBreak);
    assert PlainChar(input, e);
    ExpressionPlainWord(steps, input, start, length, parts);
  }

  lemma {:induction false} ExpressionFromUnclosed(steps: seq<Parsed<Piece>>, input: string, start: nat, length: nat, parts: Words, k: nat, q: Quote)
    requires PiecesAre(steps, input) && PiecesShaped(steps, input)
    requires QuoteOpens(input, k, q) && Scan(input, k + 1, AtQuoteStop(q)) == |input|
    requires start + length <= k && |parts| <= length
    requires Plain(input, start + length, k)
    ensures ExpressionFrom(steps, input, start, length, parts) == Err(ParserError(ExpectedClosingQuote(q), k))
    decreases k - (start + length)
  {
    var p := start + length;
    if IsWhitespace(input[p]) {
      var e := Scan(input, p, AtNonWhitespace);
      ScanFacts(input, p, AtNonWhitespace);
      assert e <= k;
      ExpressionPlainGap(steps, input, start, length, parts);
      ExpressionFromUnclosed(steps, input, start, e - start, parts, k, q);
    } else {
      var e := Scan(input, p, AtBreak);
      ScanFacts(input, p, AtBreak);
      assert e <= k;
      if e == k {
        PieceUnclosed(steps, input, p, k, q);
      } else {
        assert PlainChar(input, p);
        var w := input[p..e];
        ExpressionFromUnclosed(steps, input, start, e - start, parts + [Token(w, p, e - p, [Token(w, p, e - p, Unquoted(w))])], k, q);
        ExpressionUnclosedWordStep(steps, input, start, length, parts, k, q);
      }
    }
  }

  /**
   * Plain chars and whitespace up to a quote that is never closed: the
   * expression fails at that quote.
   */
  lemma ExpressionUnclosed(input: string, start: nat, k: nat, q: Quote)
    requires QuoteOpens(input, k, q) && Scan(input, k + 1, AtQuoteStop(q)) == |input|
    requires start <= k && Plain(input, start, k)
    ensures Expression(input, start) == Err(ParserError(ExpectedClosingQuote(q), k))
  {
    PiecesExist(input);
    var steps: seq<Parsed<Piece>> :| PiecesAre(steps, input);
    PiecesAreShaped(steps, input);
    ExpressionFromSteps(input, start, steps);
    ExpressionFromUnclosed(steps, input, start, 0, [], k, q);
  }
}
