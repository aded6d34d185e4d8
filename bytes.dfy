// Bytes, fixed-width unsigned and two's-complement integer encodings in both
// byte orders, and UTF-8 well-formedness (RFC 3629, section 4).
module Bytes {
  type byte = x: int | 0 <= x < 256

  datatype Endian = Big | Little

  function Pow(b: nat, e: nat): (r: nat)
    ensures b > 0 ==> r > 0
  {
    if e == 0 then 1 else b * Pow(b, e - 1)
  }

  lemma PowStep(e: nat)
    requires e > 0
    ensures Pow(256, e) == 256 * Pow(256, e - 1)
  {
  }

  function Reverse<T>(s: seq<T>): (r: seq<T>)
    ensures |r| == |s|
    ensures forall i :: 0 <= i < |s| ==> r[i] == s[|s| - 1 - i]
  {
    if s == [] then [] else Reverse(s[1..]) + [s[0]]
  }

  lemma ReverseReverse<T>(s: seq<T>)
    ensures Reverse(Reverse(s)) == s
  {
  }

  lemma AppendAssoc<T>(a: seq<T>, b: seq<T>, c: seq<T>)
    ensures a + b + c == a + (b + c)
  {
  }

  lemma AppendAssoc4<T>(a: seq<T>, b: seq<T>, c: seq<T>, d: seq<T>, e: seq<T>)
    ensures a + b + c + d + e == a + (b + (c + (d + e)))
  {
    AppendAssoc(a + b + c, d, e);
    AppendAssoc(a + b, c, d + e);
    AppendAssoc(a, b, c + (d + e));
  }

  lemma AppendAssoc5<T>(a: seq<T>, b: seq<T>, c: seq<T>, d: seq<T>, e: seq<T>, f: seq<T>)
    ensures a + b + c + d + e + f == a + (b + (c + (d + (e + f))))
  {
    AppendAssoc(a + b + c + d, e, f);
    AppendAssoc4(a, b, c, d, e + f);
  }

  lemma HeadTail<T>(s: seq<T>)
    requires s != []
    ensures [s[0]] + s[1..] == s
  {
  }

  /** Little-endian encoding of n in exactly w bytes. */
  function EncodeLE(n: nat, w: nat): (r: seq<byte>)
    requires n < Pow(256, w)
    ensures |r| == w
    decreases w
  {
    if w == 0 then []
    else
      PowStep(w);
      [n % 256] + EncodeLE(n / 256, w - 1)
  }

  /** The value of a little-endian byte string. */
  function DecodeLE(bs: seq<byte>): (n: nat)
    ensures n < Pow(256, |bs|)
  {
    if bs == [] then 0
    else
      var rest := DecodeLE(bs[1..]);
      assert rest <= Pow(256, |bs| - 1) - 1;
      bs[0] + 256 * rest
  }

  lemma {:induction false} DecodeEncodeLE(n: nat, w: nat)
    requires n < Pow(256, w)
    ensures DecodeLE(EncodeLE(n, w)) == n
    decreases w
  {
    if w > 0 {
      PowStep(w);
      DecodeEncodeLE(n / 256, w - 1);
      var e := EncodeLE(n, w);
      assert e[1..] == EncodeLE(n / 256, w - 1);
    }
  }

  lemma {:induction false} EncodeDecodeLE(bs: seq<byte>)
    ensures EncodeLE(DecodeLE(bs), |bs|) == bs
  {
    if bs != [] {
      EncodeDecodeLE(bs[1..]);
      var n := DecodeLE(bs);
      assert n % 256 == bs[0];
      assert n / 256 == DecodeLE(bs[1..]);
    }
  }

  function Encode(n: nat, w: nat, e: Endian): (r: seq<byte>)
    requires n < Pow(256, w)
    ensures |r| == w
  {
    if e == Little then EncodeLE(n, w) else Reverse(EncodeLE(n, w))
  }

  function Decode(bs: seq<byte>, e: Endian): (n: nat)
    ensures n < Pow(256, |bs|)
  {
    if e == Little then DecodeLE(bs) else DecodeLE(Reverse(bs))
  }

  lemma DecodeEncode(n: nat, w: nat, e: Endian)
    requires n < Pow(256, w)
    ensures Decode(Encode(n, w, e), e) == n
  {
    DecodeEncodeLE(n, w);
    if e == Big {
      ReverseReverse(EncodeLE(n, w));
    }
  }

  lemma EncodeDecode(bs: seq<byte>, e: Endian)
    ensures Encode(Decode(bs, e), |bs|, e) == bs
  {
    if e == Little {
      EncodeDecodeLE(bs);
    } else {
      EncodeDecodeLE(Reverse(bs));
      ReverseReverse(bs);
    }
  }

  /** Two's complement of a signed value in w bytes, and back. */
  function ToTwos(x: int, w: nat): (n: nat)
    requires w > 0 && 0 <= x + Pow(256, w) / 2 && x < Pow(256, w) / 2
    ensures n < Pow(256, w)
  {
    if x >= 0 then x else x + Pow(256, w)
  }

  function FromTwos(n: nat, w: nat): (x: int)
    requires w > 0 && n < Pow(256, w)
    ensures 0 <= x + Pow(256, w) / 2 && x < Pow(256, w) / 2
  {
    var m := Pow(256, w);
    HalfBounds(m);
    if n < m / 2 then n else n - m
  }

  lemma HalfBounds(m: nat)
    ensures m / 2 <= m && m - m / 2 >= m / 2
  {
  }

  /** The remainder is the one r with a == q * p + r and 0 <= r < p. */
  lemma ModUnique(a: nat, p: nat, q: nat, r: nat)
    requires 0 <= r < p && a == q * p + r
    ensures a % p == r
  {
    var q', r' := a / p, a % p;
    assert a == q' * p + r';
    if q > q' {
      MulGap(q, q', p);
      assert false;
    } else if q < q' {
      MulGap(q', q, p);
      assert false;
    }
  }

  lemma MulGap(q: int, q': int, p: nat)
    requires q > q'
    ensures q * p - q' * p >= p
  {
    MulAtLeast(q - q', p);
    assert (q - q') * p == q * p - q' * p;
  }

  lemma MulAtLeast(t: int, p: nat)
    requires t >= 1
    ensures t * p >= p
  {
  }

  function Zeros(n: nat): (z: seq<byte>)
    ensures |z| == n && forall i :: 0 <= i < n ==> z[i] == 0
  {
    seq(n, _ => 0)
  }

  /** Dropping n of n + m zeros leaves m zeros. */
  lemma ZerosDrop(n: nat, m: nat, rest: seq<byte>)
    ensures (Zeros(n + m) + rest)[n..] == Zeros(m) + rest
  {
  }

  lemma FromToTwos(x: int, w: nat)
    requires w > 0 && 0 <= x + Pow(256, w) / 2 && x < Pow(256, w) / 2
    ensures FromTwos(ToTwos(x, w), w) == x
  {
  }

  lemma ToFromTwos(n: nat, w: nat)
    requires w > 0 && n < Pow(256, w)
    ensures ToTwos(FromTwos(n, w), w) == n
  {
  }

  predicate IsContinuation(b: byte) { 0x80 <= b < 0xC0 }

  /**
   * The length of the well-formed UTF-8 character at the head of s
   * (the table of RFC 3629, section 4), or 0 when the head is ill-formed.
   */
  function HeadCharLength(s: seq<byte>): (k: nat)
    requires |s| > 0
    ensures k <= |s| && k <= 4
  {
    var b := s[0];
    if b < 0x80 then 1
    else if 0xC2 <= b <= 0xDF then
      if |s| >= 2 && IsContinuation(s[1]) then 2 else 0
    else if 0xE0 <= b <= 0xEF then
      var lo := if b == 0xE0 then 0xA0 else 0x80;
      var hi := if b == 0xED then 0x9F else 0xBF;
      if |s| >= 3 && lo <= s[1] <= hi && IsContinuation(s[2]) then 3 else 0
    else if 0xF0 <= b <= 0xF4 then
      var lo := if b == 0xF0 then 0x90 else 0x80;
      var hi := if b == 0xF4 then 0x8F else 0xBF;
      if |s| >= 4 && lo <= s[1] <= hi && IsContinuation(s[2]) && IsContinuation(s[3]) then 4 else 0
    else 0
  }

  /** `std::str::from_utf8` succeeds exactly on these byte strings. */
  predicate ValidUtf8(s: seq<byte>)
    decreases |s|
  {
    s == [] || (HeadCharLength(s) > 0 && ValidUtf8(s[HeadCharLength(s)..]))
  }

  predicate IsAscii(s: seq<byte>) { forall i :: 0 <= i < |s| ==> s[i] < 0x80 }

  lemma {:induction false} AsciiIsValidUtf8(s: seq<byte>)
    requires IsAscii(s)
    ensures ValidUtf8(s)
    decreases |s|
  {
    if s != [] {
      AsciiIsValidUtf8(s[1..]);
    }
  }

  lemma {:induction false} ValidUtf8Append(a: seq<byte>, b: seq<byte>)
    requires ValidUtf8(a) && ValidUtf8(b)
    ensures ValidUtf8(a + b)
    decreases |a|
  {
    if a != [] {
      var k := HeadCharLength(a);
      assert k <= |a|;
      assert forall i :: 0 <= i < |a| ==> (a + b)[i] == a[i];
      assert HeadCharLength(a + b) == k;
      assert (a + b)[k..] == a[k..] + b;
      ValidUtf8Append(a[k..], b);
    } else {
      assert a + b == b;
    }
  }

  /** The number of bytes `char::len_utf8` gives for c. */
  function Utf8Length(c: char): (n: nat)
    ensures 1 <= n <= 4
    ensures n == 1 <==> (c as int) < 0x80
  {
    if (c as int) < 0x80 then 1
    else if (c as int) < 0x800 then 2
    else if (c as int) < 0x10000 then 3
    else 4
  }

  /** `str::len`: the UTF-8 byte length of a string. */
  function Utf8StringLength(s: string): (n: nat)
    ensures n >= |s|
  {
    if s == [] then 0 else Utf8Length(s[0]) + Utf8StringLength(s[1..])
  }

  predicate IsAsciiString(s: string) { forall i :: 0 <= i < |s| ==> (s[i] as int) < 0x80 }

  lemma {:induction false} AsciiStringLength(s: string)
    ensures Utf8StringLength(s) == |s| <==> IsAsciiString(s)
  {
    if s != [] {
      AsciiStringLength(s[1..]);
      if IsAsciiString(s) {
        assert IsAsciiString(s[1..]);
      } else if (s[0] as int) < 0x80 {
        assert !IsAsciiString(s[1..]);
      }
    }
  }

  /** `str::as_bytes` for one character: its UTF-8 encoding (RFC 3629, section 3). */
  function Utf8Char(c: char): (r: seq<byte>)
    ensures |r| == Utf8Length(c)
  {
    var n := c as int;
    if n < 0x80 then [n as byte]
    else if n < 0x800 then [(0xC0 + n / 0x40) as byte, (0x80 + n % 0x40) as byte]
    else if n < 0x10000 then
      [(0xE0 + n / 0x1000) as byte, (0x80 + n / 0x40 % 0x40) as byte, (0x80 + n % 0x40) as byte]
    else
      [(0xF0 + n / 0x40000) as byte, (0x80 + n / 0x1000 % 0x40) as byte,
       (0x80 + n / 0x40 % 0x40) as byte, (0x80 + n % 0x40) as byte]
  }

  lemma Utf8CharValid(c: char)
    ensures ValidUtf8(Utf8Char(c))
  {
    var r := Utf8Char(c);
    var k := |r|;
    assert HeadCharLength(r) == k;
    assert r[k..] == [];
  }

  /** `str::as_bytes`: the UTF-8 encoding of a string, which is always well-formed. */
  function Utf8Encode(s: string): (r: seq<byte>)
    ensures |r| == Utf8StringLength(s)
    ensures ValidUtf8(r)
  {
    if s == [] then []
    else
      Utf8CharValid(s[0]);
      ValidUtf8Append(Utf8Char(s[0]), Utf8Encode(s[1..]));
      Utf8Char(s[0]) + Utf8Encode(s[1..])
  }
}
