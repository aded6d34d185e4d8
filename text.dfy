// Character classes and the number syntax of Rust's `str::parse` and
// `from_str_radix` for unsigned integers, with the matching display forms.
module Text {
  import opened Wrappers

  /** `char::is_whitespace`: the Unicode White_Space property. */
  predicate IsWhitespace(c: char)
  {
    var n := c as int;
    (0x09 <= n <= 0x0D) || n == 0x20 || n == 0x85 || n == 0xA0 || n == 0x1680 ||
    (0x2000 <= n <= 0x200A) || n == 0x2028 || n == 0x2029 || n == 0x202F ||
    n == 0x205F || n == 0x3000
  }

  /** `char::is_ascii_whitespace`: space, tab, line feed, form feed and carriage return. */
  predicate IsAsciiWhitespace(c: char)
  {
    c == ' ' || c == '\t' || c == '\n' || c == '\U{000C}' || c == '\r'
  }

  /** The value of c as a digit in the given radix (both letter cases), or -1. */
  function DigitValue(c: char, radix: nat): (d: int)
    requires 2 <= radix <= 36
    ensures -1 <= d < radix
  {
    var v :=
      if '0' <= c <= '9' then c as int - '0' as int
      else if 'a' <= c <= 'z' then c as int - 'a' as int + 10
      else if 'A' <= c <= 'Z' then c as int - 'A' as int + 10
      else -1;
    if v < radix then v else -1
  }

  predicate AllDigits(s: string, radix: nat)
    requires 2 <= radix <= 36
  {
    forall i :: 0 <= i < |s| ==> DigitValue(s[i], radix) >= 0
  }

  /** The value of a string of digits, most significant first. */
  function DigitsValue(s: string, radix: nat): nat
    requires 2 <= radix <= 36 && AllDigits(s, radix)
  {
    if s == [] then 0
    else
      DigitsInit(s, radix);
      Scale(DigitsValue(s[..|s| - 1], radix), radix);
      DigitsValue(s[..|s| - 1], radix) * radix + DigitValue(s[|s| - 1], radix)
  }

  lemma DigitsInit(s: string, radix: nat)
    requires 2 <= radix <= 36 && AllDigits(s, radix) && s != []
    ensures AllDigits(s[..|s| - 1], radix) && DigitValue(s[|s| - 1], radix) >= 0
  {
  }

  lemma Scale(n: nat, radix: nat)
    ensures n * radix >= 0
  {
  }

  /**
   * Parsing an unsigned integer no larger than max: an optional '+', then at
   * least one digit; anything else, or a value above max, is an error.
   */
  function ParseUnsigned(s: string, radix: nat, max: nat): (r: Option<nat>)
    requires 2 <= radix <= 36
    ensures r.Some? ==> r.value <= max
    ensures r.Some? ==> |s| > 0 && (s[0] == '+' || DigitValue(s[0], radix) >= 0)
  {
    var digits := if |s| > 0 && s[0] == '+' then s[1..] else s;
    if |digits| == 0 || !AllDigits(digits, radix) then None
    else
      var v := DigitsValue(digits, radix);
      if v <= max then Some(v) else None
  }

  const U8_MAX: nat := 0xFF
  const U32_MAX: nat := 0xFFFF_FFFF

  /** `n.to_string()` for a natural number: decimal, no leading zeros. */
  function DecimalString(n: nat): (s: string)
    ensures |s| > 0 && AllDigits(s, 10)
    ensures DigitsValue(s, 10) == n
    ensures s[0] != '+'
  {
    var last := [('0' as int + n % 10) as char];
    assert DigitValue(last[0], 10) == n % 10;
    if n < 10 then last
    else
      var front := DecimalString(n / 10);
      var s := front + last;
      assert s[..|s| - 1] == front;
      s
  }

  lemma ParseDecimalString(n: nat, max: nat)
    requires n <= max
    ensures ParseUnsigned(DecimalString(n), 10, max) == Some(n)
  {
  }

  /** The lower-case hexadecimal digit of d. */
  function HexDigit(d: nat): (c: char)
    requires d < 16
    ensures ('0' <= c <= '9' || 'a' <= c <= 'f') && DigitValue(c, 16) == d
  {
    if d < 10 then ('0' as int + d) as char else ('a' as int + d - 10) as char
  }

  /** The last w lower-case hexadecimal digits of n, zero padded: `{:0wx}`. */
  function HexString(n: nat, w: nat): (s: string)
    requires n < Pow16(w)
    ensures |s| == w && AllDigits(s, 16)
    ensures DigitsValue(s, 16) == n
    ensures forall i :: 0 <= i < |s| ==> '0' <= s[i] <= '9' || 'a' <= s[i] <= 'f'
  {
    if w == 0 then ""
    else
      var last := [HexDigit(n % 16)];
      var front := HexString(n / 16, w - 1);
      var s := front + last;
      assert s[..|s| - 1] == front;
      s
  }

  function Pow16(w: nat): (r: nat)
    ensures r > 0
  {
    if w == 0 then 1 else 16 * Pow16(w - 1)
  }

  lemma ParseHexString(n: nat, w: nat, max: nat)
    requires n < Pow16(w) && n <= max && w > 0
    ensures ParseUnsigned(HexString(n, w), 16, max) == Some(n)
  {
  }

  /** `str::split(sep)` (also over bytes): the pieces between occurrences of sep, always at least one. */
  function Split<T(==)>(s: seq<T>, sep: T): (parts: seq<seq<T>>)
    ensures |parts| >= 1
    ensures forall i :: 0 <= i < |parts| ==> sep !in parts[i]
  {
    if s == [] then [[]]
    else
      var rest := Split(s[1..], sep);
      if s[0] == sep then [[]] + rest
      else [[s[0]] + rest[0]] + rest[1..]
  }

  /** Joining with the separator undoes `Split`. */
  function Join<T>(parts: seq<seq<T>>, sep: T): seq<T>
  {
    if parts == [] then []
    else if |parts| == 1 then parts[0]
    else parts[0] + [sep] + Join(parts[1..], sep)
  }

  lemma {:induction false} JoinSplit<T>(s: seq<T>, sep: T)
    ensures Join(Split(s, sep), sep) == s
  {
    if s != [] {
      JoinSplit(s[1..], sep);
      var rest := Split(s[1..], sep);
      if s[0] != sep {
        assert Split(s, sep)[1..] == rest[1..];
        if |rest| > 1 {
          assert rest == [rest[0]] + rest[1..];
        }
      }
    }
  }

  lemma {:induction false} SplitJoin<T>(parts: seq<seq<T>>, sep: T)
    requires |parts| >= 1
    requires forall i :: 0 <= i < |parts| ==> sep !in parts[i]
    ensures Split(Join(parts, sep), sep) == parts
    decreases |Join(parts, sep)|
  {
    if |parts| == 1 {
      SplitNoSep(parts[0], sep);
    } else {
      SplitJoin(parts[1..], sep);
      SplitPrefix(parts[0], Join(parts[1..], sep), sep);
      assert parts == [parts[0]] + parts[1..];
    }
  }

  /** A value in none of the parts, other than the separator, is not in their join. */
  lemma {:induction false} JoinAbsent<T>(parts: seq<seq<T>>, sep: T, c: T)
    requires c != sep && forall i :: 0 <= i < |parts| ==> c !in parts[i]
    ensures c !in Join(parts, sep)
  {
    if |parts| > 1 {
      JoinAbsent(parts[1..], sep, c);
    }
  }

  lemma {:induction false} SplitNoSep<T>(s: seq<T>, sep: T)
    requires sep !in s
    ensures Split(s, sep) == [s]
  {
    if s != [] {
      SplitNoSep(s[1..], sep);
      assert [s[0]] + s[1..] == s;
    }
  }

  lemma {:induction false} SplitPrefix<T>(a: seq<T>, b: seq<T>, sep: T)
    requires sep !in a
    ensures Split(a + [sep] + b, sep) == [a] + Split(b, sep)
  {
    if a == [] {
      assert a + [sep] + b == [sep] + b;
      assert ([sep] + b)[1..] == b;
    } else {
      SplitPrefix(a[1..], b, sep);
      var rest := Split(a[1..] + [sep] + b, sep);
      assert (a + [sep] + b)[1..] == a[1..] + [sep] + b;
      assert rest[0] == a[1..] && rest[1..] == Split(b, sep);
      assert [a[0]] + a[1..] == a;
    }
  }

  /** A separator at the end starts a new, empty piece. */
  lemma {:induction false} SplitSnocSep<T>(s: seq<T>, sep: T)
    ensures Split(s + [sep], sep) == Split(s, sep) + [[]]
  {
    if s == [] {
      assert [sep][1..] == [];
    } else {
      var t := s[1..];
      assert (s + [sep])[1..] == t + [sep];
      SplitSnocSep(t, sep);
      var rs := Split(t, sep);
      if s[0] != sep {
        assert (rs + [[]])[1..] == rs[1..] + [[]];
      }
    }
  }

  /** Appending x to s extends the last piece of s by x. */
  predicate ExtendsLast<T(==)>(s: seq<T>, x: T, sep: T)
  {
    var ps := Split(s, sep);
    Split(s + [x], sep) == ps[..|ps| - 1] + [ps[|ps| - 1] + [x]]
  }

  lemma ExtendsLastSepHead<T>(s: seq<T>, x: T, sep: T)
    requires s != [] && s[0] == sep && x != sep
    requires ExtendsLast(s[1..], x, sep)
    ensures ExtendsLast(s, x, sep)
  {
    assert (s + [x])[1..] == s[1..] + [x];
    var rs := Split(s[1..], sep);
    var ps := Split(s, sep);
    assert ps == [[]] + rs;
    assert ps[..|ps| - 1] == [[]] + rs[..|rs| - 1];
  }

  lemma ExtendsLastValueHead<T>(s: seq<T>, x: T, sep: T)
    requires s != [] && s[0] != sep && x != sep
    requires ExtendsLast(s[1..], x, sep)
    ensures ExtendsLast(s, x, sep)
  {
    var t := s[1..];
    assert (s + [x])[1..] == t + [x];
    var rs := Split(t, sep);
    var ps := Split(s, sep);
    var rx := Split(t + [x], sep);
    assert rx == rs[..|rs| - 1] + [rs[|rs| - 1] + [x]];
    assert Split(s + [x], sep) == [[s[0]] + rx[0]] + rx[1..];
    assert ps == [[s[0]] + rs[0]] + rs[1..];
    if |rs| == 1 {
      assert rx == [rs[0] + [x]];
      assert [s[0]] + (rs[0] + [x]) == [s[0]] + rs[0] + [x];
    } else {
      assert rx[0] == rs[0] && rx[1..] == rs[1..][..|rs| - 2] + [rs[|rs| - 1] + [x]];
      assert ps[..|ps| - 1] == [[s[0]] + rs[0]] + rs[1..][..|rs| - 2];
    }
  }

  /** Any other value at the end extends the last piece. */
  lemma {:induction false} SplitSnocOther<T>(s: seq<T>, x: T, sep: T)
    requires x != sep
    ensures ExtendsLast(s, x, sep)
  {
    if s == [] {
      assert [x][1..] == [];
      assert Split([x], sep) == [[x] + []];
      assert [] + [x] == [x] + [];
    } else {
      SplitSnocOther(s[1..], x, sep);
      if s[0] == sep {
        ExtendsLastSepHead(s, x, sep);
      } else {
        ExtendsLastValueHead(s, x, sep);
      }
    }
  }

  /** One more value at the end either starts a new piece (the separator) or extends the last one. */
  lemma SplitSnoc<T>(s: seq<T>, x: T, sep: T)
    ensures var ps := Split(s, sep);
      Split(s + [x], sep) == if x == sep then ps + [[]] else ps[..|ps| - 1] + [ps[|ps| - 1] + [x]]
  {
    if x == sep {
      SplitSnocSep(s, sep);
    } else {
      SplitSnocOther(s, x, sep);
    }
  }

  /** The last piece is empty exactly when nothing follows the last separator. */
  lemma SplitLastEmpty<T>(s: seq<T>, sep: T)
    ensures var ps := Split(s, sep); ps[|ps| - 1] == [] <==> s == [] || s[|s| - 1] == sep
  {
    if s != [] {
      var init := s[..|s| - 1];
      assert s == init + [s[|s| - 1]];
      SplitSnoc(init, s[|s| - 1], sep);
    }
  }

  /** `str::split_once(sep)`: the text before and after the first sep. */
  function SplitOnce(s: string, sep: char): (r: Option<(string, string)>)
    ensures r.None? <==> sep !in s
    ensures r.Some? ==> s == r.value.0 + [sep] + r.value.1 && sep !in r.value.0
  {
    if s == [] then None
    else if s[0] == sep then Some(("", s[1..]))
    else match SplitOnce(s[1..], sep)
      case None => None
      case Some((a, b)) => Some(([s[0]] + a, b))
  }

  /** Splitting on runs of the characters satisfying `sep` and dropping empty pieces. */
  function SplitWords(s: string, sep: char -> bool): (words: seq<string>)
    ensures forall i :: 0 <= i < |words| ==> |words[i]| > 0
    ensures forall i, j :: 0 <= i < |words| && 0 <= j < |words[i]| ==> !sep(words[i][j])
    decreases |s|
  {
    if s == [] then []
    else if sep(s[0]) then SplitWords(s[1..], sep)
    else
      var w := Word(s, sep);
      [w] + SplitWords(s[|w|..], sep)
  }

  /** The longest prefix of s without a separator character. */
  function Word(s: string, sep: char -> bool): (w: string)
    ensures |w| <= |s| && w == s[..|w|]
    ensures forall j :: 0 <= j < |w| ==> !sep(w[j])
    ensures |w| < |s| ==> sep(s[|w|])
    ensures |s| > 0 && !sep(s[0]) ==> |w| > 0
  {
    if s == [] || sep(s[0]) then "" else [s[0]] + Word(s[1..], sep)
  }

  /**
   * `str::lines()`: pieces ending at '\n', each with one '\r' before the
   * '\n' removed; a final piece with no '\n' after it is kept as it is,
   * '\r' included, and dropped when empty.
   */
  function Lines(s: string): (lines: seq<string>)
    ensures forall i :: 0 <= i < |lines| ==> '\n' !in lines[i]
  {
    var parts := Split(s, '\n');
    var last := parts[|parts| - 1];
    StripCarriageReturns(parts[..|parts| - 1]) + (if last == "" then [] else [last])
  }

  function StripCarriageReturns(lines: seq<string>): (r: seq<string>)
    requires forall i :: 0 <= i < |lines| ==> '\n' !in lines[i]
    ensures |r| == |lines|
    ensures forall i :: 0 <= i < |r| ==> '\n' !in r[i]
    ensures forall i :: 0 <= i < |r| ==> r[i] == lines[i] || r[i] + "\r" == lines[i]
  {
    if lines == [] then []
    else
      var l := lines[0];
      var first := if |l| > 0 && l[|l| - 1] == '\r' then l[..|l| - 1] else l;
      assert first == l || first + "\r" == l;
      [first] + StripCarriageReturns(lines[1..])
  }

  function StartsWith(s: string, prefix: string): bool
  {
    |prefix| <= |s| && s[..|prefix|] == prefix
  }

  /** A string of separators has no words, and every word-free string is all separators. */
  lemma {:induction false} SplitWordsNone(s: string, sep: char -> bool)
    ensures SplitWords(s, sep) == [] <==> forall i :: 0 <= i < |s| ==> sep(s[i])
    decreases |s|
  {
    if s != [] {
      if sep(s[0]) {
        SplitWordsNone(s[1..], sep);
        assert forall i :: 1 <= i < |s| ==> s[i] == s[1..][i - 1];
      }
    }
  }

  /** pat occurs in s starting at position j. */
  predicate OccursAt(s: string, pat: string, j: int)
  {
    0 <= j && j + |pat| <= |s| && s[j..j + |pat|] == pat
  }

  /** pat occurs somewhere in s. */
  predicate Contains(s: string, pat: string)
  {
    exists j :: 0 <= j <= |s| && OccursAt(s, pat, j)
  }

  /** `str::replace`: the occurrences of pat found left to right, without overlap, each replaced by rep. */
  function ReplaceAll(s: string, pat: string, rep: string): string
    requires |pat| > 0
    decreases |s|
  {
    if |s| < |pat| then s
    else if s[..|pat|] == pat then rep + ReplaceAll(s[|pat|..], pat, rep)
    else [s[0]] + ReplaceAll(s[1..], pat, rep)
  }

  /** The pieces of s between the occurrences of pat that `ReplaceAll` finds. */
  function Pieces(s: string, pat: string): (ps: seq<string>)
    requires |pat| > 0
    ensures |ps| >= 1
    decreases |s|
  {
    if |s| < |pat| then [s]
    else if s[..|pat|] == pat then [""] + Pieces(s[|pat|..], pat)
    else
      var rest := Pieces(s[1..], pat);
      [[s[0]] + rest[0]] + rest[1..]
  }

  /** Joining with a separator string. */
  function JoinWith(parts: seq<string>, sep: string): string
  {
    if parts == [] then ""
    else if |parts| == 1 then parts[0]
    else parts[0] + sep + JoinWith(parts[1..], sep)
  }

  lemma JoinWithCons(p: string, parts: seq<string>, sep: string)
    requires |parts| >= 1
    ensures JoinWith([p] + parts, sep) == p + sep + JoinWith(parts, sep)
  {
    assert ([p] + parts)[1..] == parts;
  }

  lemma JoinWithHead(c: char, parts: seq<string>, sep: string)
    requires |parts| >= 1
    ensures JoinWith([[c] + parts[0]] + parts[1..], sep) == [c] + JoinWith(parts, sep)
  {
    var q := [[c] + parts[0]] + parts[1..];
    if |parts| > 1 {
      assert q[1..] == parts[1..];
      assert parts == [parts[0]] + parts[1..];
      JoinWithCons(parts[0], parts[1..], sep);
    }
  }

  /** Joining the pieces with pat gives s back. */
  lemma {:induction false} JoinPieces(s: string, pat: string)
    requires |pat| > 0
    ensures JoinWith(Pieces(s, pat), pat) == s
    decreases |s|
  {
    if |s| >= |pat| {
      if s[..|pat|] == pat {
        var t := s[|pat|..];
        var ps := Pieces(t, pat);
        assert Pieces(s, pat) == [""] + ps;
        JoinPieces(t, pat);
        JoinWithCons("", ps, pat);
        assert "" + pat + t == s[..|pat|] + s[|pat|..] == s;
      } else {
        var t := s[1..];
        var ps := Pieces(t, pat);
        assert Pieces(s, pat) == [[s[0]] + ps[0]] + ps[1..];
        JoinPieces(t, pat);
        JoinWithHead(s[0], ps, pat);
        assert [s[0]] + t == s;
      }
    }
  }

  /** `ReplaceAll` joins the same pieces with rep instead. */
  lemma {:induction false} ReplacePieces(s: string, pat: string, rep: string)
    requires |pat| > 0
    ensures ReplaceAll(s, pat, rep) == JoinWith(Pieces(s, pat), rep)
    decreases |s|
  {
    if |s| >= |pat| {
      if s[..|pat|] == pat {
        var t := s[|pat|..];
        ReplacePieces(t, pat, rep);
        JoinWithCons("", Pieces(t, pat), rep);
      } else {
        var t := s[1..];
        ReplacePieces(t, pat, rep);
        JoinWithHead(s[0], Pieces(t, pat), rep);
      }
    }
  }

  /** The first piece is a prefix of s. */
  lemma {:induction false} FirstPiecePrefix(s: string, pat: string)
    requires |pat| > 0
    ensures |Pieces(s, pat)[0]| <= |s| && s[..|Pieces(s, pat)[0]|] == Pieces(s, pat)[0]
    decreases |s|
  {
    if |s| >= |pat| && s[..|pat|] != pat {
      FirstPiecePrefix(s[1..], pat);
    }
  }

  /** No piece holds an occurrence of pat. */
  lemma {:induction false} PiecesFree(s: string, pat: string)
    requires |pat| > 0
    ensures forall i :: 0 <= i < |Pieces(s, pat)| ==> !Contains(Pieces(s, pat)[i], pat)
    decreases |s|
  {
    var ps := Pieces(s, pat);
    if |s| < |pat| {
      assert !Contains(s, pat);
    } else if s[..|pat|] == pat {
      var t := s[|pat|..];
      PiecesFree(t, pat);
      assert !Contains("", pat);
      assert ps[1..] == Pieces(t, pat);
    } else {
      var t := s[1..];
      PiecesFree(t, pat);
      var rest := Pieces(t, pat);
      FirstPiecePrefix(t, pat);
      assert ps[0] == [s[0]] + rest[0];
      PieceHeadFree(s, pat, rest[0]);
      assert forall i :: 1 <= i < |ps| ==> ps[i] == rest[i];
    }
  }

  /**
   * `ReplaceAll` cuts s at the occurrences of pat into pieces that hold no
   * occurrence of pat, and joins those pieces with rep instead.
   */
  lemma ReplaceAllPieces(s: string, pat: string, rep: string)
    requires |pat| > 0
    ensures JoinWith(Pieces(s, pat), pat) == s
    ensures ReplaceAll(s, pat, rep) == JoinWith(Pieces(s, pat), rep)
    ensures forall i :: 0 <= i < |Pieces(s, pat)| ==> !Contains(Pieces(s, pat)[i], pat)
  {
    JoinPieces(s, pat);
    ReplacePieces(s, pat, rep);
    PiecesFree(s, pat);
  }

  /** A first piece that does not start with pat and whose tail holds no pat holds no pat. */
  lemma PieceHeadFree(s: string, pat: string, tail: string)
    requires |pat| > 0 && |s| >= |pat| && s[..|pat|] != pat
    requires !Contains(tail, pat)
    requires |tail| <= |s| - 1 && s[1..1 + |tail|] == tail
    ensures !Contains([s[0]] + tail, pat)
  {
    var w := [s[0]] + tail;
    forall j | 0 <= j && j + |pat| <= |w|
      ensures !OccursAt(w, pat, j)
    {
      if j == 0 {
        assert w[..|pat|] == s[..|pat|];
      } else {
        assert w[j..j + |pat|] == tail[j - 1..j - 1 + |pat|];
        assert !OccursAt(tail, pat, j - 1);
      }
    }
  }

  /** Text without pat is left alone. */
  lemma {:induction false} ReplaceAbsent(s: string, pat: string, rep: string)
    requires |pat| > 0 && !Contains(s, pat)
    ensures ReplaceAll(s, pat, rep) == s
    decreases |s|
  {
    if |s| >= |pat| {
      assert !OccursAt(s, pat, 0);
      assert s[0..|pat|] == s[..|pat|];
      assert !Contains(s[1..], pat) by {
        forall j | 0 <= j && j + |pat| <= |s[1..]|
          ensures !OccursAt(s[1..], pat, j)
        {
          assert s[1..][j..j + |pat|] == s[j + 1..j + 1 + |pat|];
          assert !OccursAt(s, pat, j + 1);
        }
      }
      ReplaceAbsent(s[1..], pat, rep);
    }
  }
  /** Every word is cut from s, so a character absent from s is absent from every word. */
  lemma {:induction false} SplitWordsFree(s: string, sep: char -> bool, c: char)
    requires c !in s
    ensures forall i :: 0 <= i < |SplitWords(s, sep)| ==> c !in SplitWords(s, sep)[i]
    decreases |s|
  {
    if s != [] {
      if sep(s[0]) {
        SplitWordsFree(s[1..], sep, c);
      } else {
        var w := Word(s, sep);
        assert c !in w by {
          assert forall j :: 0 <= j < |w| ==> w[j] == s[j];
        }
        assert c !in s[|w|..] by {
          assert forall j :: |w| <= j < |s| ==> s[|w|..][j - |w|] == s[j];
        }
        SplitWordsFree(s[|w|..], sep, c);
      }
    }
  }

  /** Replacing builds the result from s and rep alone. */
  lemma {:induction false} ReplaceAllFree(s: string, pat: string, rep: string, c: char)
    requires |pat| > 0 && c !in s && c !in rep
    ensures c !in ReplaceAll(s, pat, rep)
    decreases |s|
  {
    if |s| >= |pat| {
      if s[..|pat|] == pat {
        assert c !in s[|pat|..] by {
          assert forall j :: |pat| <= j < |s| ==> s[|pat|..][j - |pat|] == s[j];
        }
        ReplaceAllFree(s[|pat|..], pat, rep, c);
      } else {
        assert c !in s[1..] by {
          assert forall j :: 1 <= j < |s| ==> s[1..][j - 1] == s[j];
        }
        ReplaceAllFree(s[1..], pat, rep, c);
      }
    }
  }
}
