// The SHA-crypt password hash of crypt(3) ("$5$" and "$6$"): the rounds
// check, the digest A/B/DP/DS/C construction and the shuffled base-64
// encoding of the final digest. SHA-256 and SHA-512 themselves are a
// parameter (see Digest).
module Sha {
  import opened Wrappers
  import opened Bytes

  const RoundsMin: nat := 1000
  const RoundsMax: nat := 999_999_999
  const RoundsDefault: nat := 5000

  datatype Sha2Mode = Sha256 | Sha512

  datatype Sha2Error = InvalidRounds(rounds: nat)

  /** The size in bytes of the digest of the mode. */
  function DigestLength(mode: Sha2Mode): nat
  {
    if mode == Sha256 then 32 else 64
  }

  /**
   * A message digest: any function giving DigestLength(mode) bytes for every
   * input stands for SHA-256 and SHA-512.
   */
  type Digest = f: (Sha2Mode, seq<byte>) -> seq<byte> | forall mode, x :: |f(mode, x)| == DigestLength(mode)
    witness (mode: Sha2Mode, x: seq<byte>) => seq(DigestLength(mode), (_: int) => 0 as byte)

  // ---------------------------------------------------------------- rounds

  /** The rounds value in force: the default when none is given, and it must lie in range. */
  function CheckRounds(rounds: Option<nat>): (r: Result<nat, Sha2Error>)
    ensures r.Ok? <==> RoundsMin <= rounds.UnwrapOr(RoundsDefault) <= RoundsMax
    ensures r.Ok? ==> r.value == rounds.UnwrapOr(RoundsDefault)
    ensures r.Err? ==> r.error == InvalidRounds(rounds.UnwrapOr(RoundsDefault))
  {
    var n := rounds.UnwrapOr(RoundsDefault);
    if RoundsMin <= n <= RoundsMax then Ok(n) else Err(InvalidRounds(n))
  }

  lemma DefaultRounds()
    ensures CheckRounds(None) == Ok(5000)
    ensures CheckRounds(Some(999)) == Err(InvalidRounds(999))
    ensures CheckRounds(Some(1_000_000_000)).Err?
  {
  }

  // ------------------------------------------------------- byte sequences

  /** n copies of x, one after the other. */
  function Repeat(x: seq<byte>, n: nat): (r: seq<byte>)
    ensures |r| == n * |x|
  {
    if n == 0 then [] else Repeat(x, n - 1) + x
  }

  /** `d.iter().cycle().take(n)`: the first n bytes of d repeated without end. */
  function Cycle(d: seq<byte>, n: nat): (r: seq<byte>)
    requires |d| > 0
    ensures |r| == n
  {
    seq(n, i requires 0 <= i < n => d[i % |d|])
  }

  lemma {:induction false} RepeatIndex(d: seq<byte>, k: nat, i: nat)
    requires |d| > 0 && i < k * |d|
    ensures Repeat(d, k)[i] == d[i % |d|]
  {
    var front := Repeat(d, k - 1);
    assert Repeat(d, k) == front + d;
    if i < (k - 1) * |d| {
      RepeatIndex(d, k - 1, i);
    } else {
      ModUnique(i, |d|, k - 1, i - (k - 1) * |d|);
    }
  }

  /**
   * The cycled sequence is the "for each whole block of the length use the
   * entire digest, for the remaining m bytes use the first m bytes of it"
   * construction of SHA-crypt.
   */
  lemma CycleBlocks(d: seq<byte>, k: nat, m: nat)
    requires 0 < |d| && m <= |d|
    ensures Cycle(d, k * |d| + m) == Repeat(d, k) + d[..m]
  {
    var n := k * |d| + m;
    var lhs := Cycle(d, n);
    var rhs := Repeat(d, k) + d[..m];
    forall i | 0 <= i < n
      ensures lhs[i] == rhs[i]
    {
      if i < k * |d| {
        RepeatIndex(d, k, i);
      } else {
        ModUnique(i, |d|, k, i - k * |d|);
      }
    }
  }

  /** Digest B or the password for each bit of len, lowest first, up to its highest 1. */
  function LengthBits(len: nat, b: seq<byte>, password: seq<byte>): seq<byte>
    decreases len
  {
    if len == 0 then []
    else (if len % 2 == 1 then b else password) + LengthBits(len / 2, b, password)
  }

  /** The number of salt copies in the input of digest DS: 16 + A[0]. */
  function DsCount(a0: byte): (n: nat)
    ensures 16 <= n < 16 + 256
  {
    16 + a0
  }

  /**
   * The count as the source computes it: `16 + digest_a[0]` is an 8-bit
   * addition, which wraps (in a release build) when A[0] is 240 or more.
   */
  function DsCountAsWritten(a0: byte): (n: nat)
    ensures n < 256
    ensures a0 < 240 ==> n == DsCount(a0)
    ensures a0 >= 240 ==> n == DsCount(a0) - 256
  {
    (16 + a0) % 256
  }

  lemma DsCountOverflow(salt: seq<byte>)
    requires |salt| > 0
    ensures Repeat(salt, DsCountAsWritten(240)) == []
    ensures |Repeat(salt, DsCount(240))| == 256 * |salt|
  {
    assert DsCountAsWritten(240) == 0;
  }

  /**
   * The input of digest C in the given round: P on odd rounds and the previous
   * digest (A/C) on even ones; then S unless the round is divisible by 3; then
   * P unless it is divisible by 7; then the previous digest on odd rounds and
   * P on even ones.
   */
  function RoundInput(round: nat, prev: seq<byte>, p: seq<byte>, s: seq<byte>): seq<byte>
  {
    (if round % 2 == 1 then p else prev)
    + (if round % 3 != 0 then s else [])
    + (if round % 7 != 0 then p else [])
    + (if round % 2 == 1 then prev else p)
  }

  lemma RoundInputShape(round: nat, prev: seq<byte>, p: seq<byte>, s: seq<byte>)
    ensures var c := RoundInput(round, prev, p, s);
      |c| == |p| + |prev| + (if round % 3 != 0 then |s| else 0) + (if round % 7 != 0 then |p| else 0)
      && (round % 2 == 1 ==> c[..|p|] == p && c[|c| - |prev|..] == prev)
      && (round % 2 == 0 ==> c[..|prev|] == prev && c[|c| - |p|..] == p)
      && (round % 3 != 0 && round % 2 == 1 ==> c[|p|..|p| + |s|] == s)
      && (round % 3 != 0 && round % 2 == 0 ==> c[|prev|..|prev| + |s|] == s)
  {
  }

  /** The digest after the first n rounds, starting from digest A. */
  function Rounds(mode: Sha2Mode, n: nat, a: seq<byte>, p: seq<byte>, s: seq<byte>, digest: Digest): (r: seq<byte>)
    requires |a| == DigestLength(mode)
    ensures |r| == DigestLength(mode)
  {
    if n == 0 then a else digest(mode, RoundInput(n - 1, Rounds(mode, n - 1, a, p, s, digest), p, s))
  }

  // ---------------------------------------------------------------- base 64

  const B64Table: string := "./0123456789ABCDEFGHIJKLMNOPQRSTUVWXYZabcdefghijklmnopqrstuvwxyz"

  /** The 24-bit word a b c cut into four 6-bit values, least significant first. */
  function Base64Bytes(a: byte, b: byte, c: byte): (r: seq<nat>)
    ensures |r| == 4
    ensures forall i :: 0 <= i < 4 ==> r[i] < 64
    ensures r[0] + 64 * r[1] + 4096 * r[2] + 262144 * r[3] == a * 65536 + b * 256 + c
  {
    // (a << 16) | (b << 8) | c: the three bytes do not overlap
    var w := a * 0x1_0000 + b * 0x100 + c;
    // w >> 6, w >> 12 and w >> 18
    WordDigits(w);
    [w % 64, w / 64 % 64, w / 64 / 64 % 64, w / 64 / 64 / 64 % 64]
  }

  /** A 24-bit word is the sum of its four 6-bit digits. */
  lemma WordDigits(w: nat)
    requires w < 0x100_0000
    ensures w / 64 / 64 / 64 < 64 && w / 64 / 64 / 64 % 64 == w / 64 / 64 / 64
    ensures w % 64 + 64 * (w / 64 % 64) + 4096 * (w / 64 / 64 % 64) + 262144 * (w / 64 / 64 / 64 % 64) == w
  {
    var q1 := w / 64;
    var q2 := q1 / 64;
    SixBits(w, 262144);
    SixBits(q1, 4096);
    SixBits(q2, 64);
  }

  /** Cutting the low six bits off a number below 64 * bound. */
  lemma SixBits(x: nat, bound: nat)
    requires x < 64 * bound
    ensures x / 64 < bound && x == x % 64 + 64 * (x / 64)
  {
  }

  /** A byte position of the digest, or the constant 0. */
  datatype Pick = At(index: nat) | Zero

  /** Three picked bytes and the number of characters taken from their word. */
  datatype Chunk = Chunk(a: Pick, b: Pick, c: Pick, chars: nat)

  function Sha256Groups(): seq<Chunk>
  {
    [ Chunk(At(0), At(10), At(20), 4), Chunk(At(21), At(1), At(11), 4),
      Chunk(At(12), At(22), At(2), 4), Chunk(At(3), At(13), At(23), 4),
      Chunk(At(24), At(4), At(14), 4), Chunk(At(15), At(25), At(5), 4),
      Chunk(At(6), At(16), At(26), 4), Chunk(At(27), At(7), At(17), 4),
      Chunk(At(18), At(28), At(8), 4), Chunk(At(9), At(19), At(29), 4),
      Chunk(Zero, At(31), At(30), 3) ]
  }

  function Sha512Groups(): seq<Chunk>
  {
    [ Chunk(At(0), At(21), At(42), 4), Chunk(At(22), At(43), At(1), 4),
      Chunk(At(44), At(2), At(23), 4), Chunk(At(3), At(24), At(45), 4),
      Chunk(At(25), At(46), At(4), 4), Chunk(At(47), At(5), At(26), 4),
      Chunk(At(6), At(27), At(48), 4), Chunk(At(28), At(49), At(7), 4),
      Chunk(At(50), At(8), At(29), 4), Chunk(At(9), At(30), At(51), 4),
      Chunk(At(31), At(52), At(10), 4), Chunk(At(53), At(11), At(32), 4),
      Chunk(At(12), At(33), At(54), 4), Chunk(At(34), At(55), At(13), 4),
      Chunk(At(56), At(14), At(35), 4), Chunk(At(15), At(36), At(57), 4),
      Chunk(At(37), At(58), At(16), 4), Chunk(At(59), At(17), At(38), 4),
      Chunk(At(18), At(39), At(60), 4), Chunk(At(40), At(61), At(19), 4),
      Chunk(At(62), At(20), At(41), 4),
      Chunk(Zero, Zero, At(63), 2) ]
  }

  function Groups(mode: Sha2Mode): seq<Chunk>
  {
    if mode == Sha256 then Sha256Groups() else Sha512Groups()
  }

  predicate PickFits(p: Pick, len: nat) { p.At? ==> p.index < len }

  predicate GroupFits(g: Chunk, len: nat)
  {
    PickFits(g.a, len) && PickFits(g.b, len) && PickFits(g.c, len) && g.chars <= 4
  }

  predicate GroupsFit(groups: seq<Chunk>, len: nat)
  {
    forall i :: 0 <= i < |groups| ==> GroupFits(groups[i], len)
  }

  /** Every group of the table but the last yields four characters. */
  predicate FullGroups(groups: seq<Chunk>)
  {
    |groups| > 0 && forall i :: 0 <= i < |groups| - 1 ==> groups[i].chars == 4
  }

  lemma TablesFit(mode: Sha2Mode)
    ensures GroupsFit(Groups(mode), DigestLength(mode))
    ensures FullGroups(Groups(mode))
    ensures |Groups(mode)| == if mode == Sha256 then 11 else 22
    ensures Groups(mode)[|Groups(mode)| - 1].chars == if mode == Sha256 then 3 else 2
  {
  }

  function PickByte(data: seq<byte>, p: Pick): byte
    requires PickFits(p, |data|)
  {
    if p.Zero? then 0 else data[p.index]
  }

  function GroupChars(data: seq<byte>, g: Chunk): (r: string)
    requires GroupFits(g, |data|)
    ensures |r| == g.chars
    ensures forall i :: 0 <= i < |r| ==> r[i] in B64Table
  {
    var v := Base64Bytes(PickByte(data, g.a), PickByte(data, g.b), PickByte(data, g.c));
    seq(g.chars, i requires 0 <= i < g.chars => B64Table[v[i]])
  }

  /** The characters of the groups, in order. */
  function EncodeGroups(data: seq<byte>, groups: seq<Chunk>): (r: string)
    requires GroupsFit(groups, |data|)
    ensures forall i :: 0 <= i < |r| ==> r[i] in B64Table
    decreases |groups|
  {
    if groups == [] then ""
    else EncodeGroups(data, groups[..|groups| - 1]) + GroupChars(data, groups[|groups| - 1])
  }

  lemma {:induction false} EncodeGroupsLength(data: seq<byte>, groups: seq<Chunk>)
    requires GroupsFit(groups, |data|) && FullGroups(groups)
    ensures |EncodeGroups(data, groups)| == 4 * (|groups| - 1) + groups[|groups| - 1].chars
    decreases |groups|
  {
    var front := groups[..|groups| - 1];
    if |front| > 0 {
      assert FullGroups(front);
      EncodeGroupsLength(data, front);
    }
  }

  /** `crypt_sha2_base64`: the encoding of a final digest. */
  function Base64(mode: Sha2Mode, data: seq<byte>): (r: string)
    requires |data| == DigestLength(mode)
    ensures |r| == if mode == Sha256 then 43 else 86
    ensures forall i :: 0 <= i < |r| ==> r[i] in B64Table
  {
    TablesFit(mode);
    EncodeGroupsLength(data, Groups(mode));
    EncodeGroups(data, Groups(mode))
  }

  /** The loop of `crypt_sha2_base64`: the characters of each group in turn. */
  method EncodeGroupsLoop(data: seq<byte>, groups: seq<Chunk>) returns (encode: string)
    requires GroupsFit(groups, |data|)
    ensures encode == EncodeGroups(data, groups)
  {
    encode := "";
    for i := 0 to |groups|
      invariant encode == EncodeGroups(data, groups[..i])
    {
      var g := groups[i];
      var v := Base64Bytes(PickByte(data, g.a), PickByte(data, g.b), PickByte(data, g.c));
      ghost var chars := GroupChars(data, g);
      var j := 0;
      while j < g.chars
        invariant j <= g.chars
        invariant encode == EncodeGroups(data, groups[..i]) + chars[..j]
      {
        assert chars[..j + 1] == chars[..j] + [B64Table[v[j]]];
        encode := encode + [B64Table[v[j]]];
        j := j + 1;
      }
      assert groups[..i + 1][..i] == groups[..i];
      assert chars[..j] == chars;
    }
    assert groups[..|groups|] == groups;
  }

  /** `crypt_sha2_base64`. */
  method CryptSha2Base64(mode: Sha2Mode, data: seq<byte>) returns (encode: string)
    requires |data| == DigestLength(mode)
    ensures encode == Base64(mode, data)
  {
    TablesFit(mode);
    encode := EncodeGroupsLoop(data, Groups(mode));
  }

  // ------------------------------------------------------------ SHA-crypt

  /** Digest A, from which the DS count is taken. */
  function DigestA(mode: Sha2Mode, salt: seq<byte>, password: seq<byte>, digest: Digest): (a: seq<byte>)
    ensures |a| == DigestLength(mode)
  {
    var b := digest(mode, password + salt + password);
    digest(mode, password + salt + Cycle(b, |password|) + LengthBits(|password|, b, password))
  }

  /** Byte sequence P: digest DP of |password| copies of the password, cycled to its length. */
  function SequenceP(mode: Sha2Mode, password: seq<byte>, digest: Digest): (p: seq<byte>)
    ensures |p| == |password|
  {
    var dp := digest(mode, Repeat(password, |password|));
    Cycle(dp, |password|)
  }

  /** Byte sequence S: digest DS of the given number of salt copies, cycled to the salt's length. */
  function SequenceS(copies: nat, mode: Sha2Mode, salt: seq<byte>, digest: Digest): (s: seq<byte>)
    ensures |s| == |salt|
  {
    var ds := digest(mode, Repeat(salt, copies));
    Cycle(ds, |salt|)
  }

  /**
   * The SHA-crypt hash of password with salt, where count gives the number of
   * salt copies in digest DS from the first byte of digest A.
   */
  function ShaCryptWith(count: byte -> nat, mode: Sha2Mode, salt: seq<byte>, password: seq<byte>,
                        rounds: Option<nat>, digest: Digest): (r: Result<string, Sha2Error>)
    ensures r.Err? <==> !(RoundsMin <= rounds.UnwrapOr(RoundsDefault) <= RoundsMax)
    ensures r.Err? ==> r.error == InvalidRounds(rounds.UnwrapOr(RoundsDefault))
    ensures r.Ok? ==> |r.value| == (if mode == Sha256 then 43 else 86)
    ensures r.Ok? ==> forall i :: 0 <= i < |r.value| ==> r.value[i] in B64Table
  {
    match CheckRounds(rounds)
    case Err(e) => Err(e)
    case Ok(n) =>
      var a := DigestA(mode, salt, password, digest);
      var p := SequenceP(mode, password, digest);
      var s := SequenceS(count(a[0]), mode, salt, digest);
      Ok(Base64(mode, Rounds(mode, n, a, p, s, digest)))
  }

  /** `crypt_sha2`: SHA-crypt with 16 + A[0] salt copies in digest DS. */
  function ShaCrypt(mode: Sha2Mode, salt: seq<byte>, password: seq<byte>, rounds: Option<nat>, digest: Digest)
    : (r: Result<string, Sha2Error>)
    ensures r.Err? <==> !(RoundsMin <= rounds.UnwrapOr(RoundsDefault) <= RoundsMax)
  {
    ShaCryptWith(DsCount, mode, salt, password, rounds, digest)
  }

  /** `crypt_sha2` as written, with the 8-bit count. */
  function ShaCryptAsWritten(mode: Sha2Mode, salt: seq<byte>, password: seq<byte>, rounds: Option<nat>, digest: Digest)
    : (r: Result<string, Sha2Error>)
    ensures r.Err? <==> !(RoundsMin <= rounds.UnwrapOr(RoundsDefault) <= RoundsMax)
  {
    ShaCryptWith(DsCountAsWritten, mode, salt, password, rounds, digest)
  }

  /** The two agree unless the first byte of digest A is 240 or more. */
  lemma AsWrittenAgrees(mode: Sha2Mode, salt: seq<byte>, password: seq<byte>, rounds: Option<nat>, digest: Digest)
    requires DigestA(mode, salt, password, digest)[0] < 240
    ensures ShaCryptAsWritten(mode, salt, password, rounds, digest) == ShaCrypt(mode, salt, password, rounds, digest)
  {
  }

  /** `crypt_sha2`, building each digest input step by step. */
  method CryptSha2(mode: Sha2Mode, salt: seq<byte>, password: seq<byte>, rounds: Option<nat>, digest: Digest)
    returns (r: Result<string, Sha2Error>)
    ensures r == ShaCrypt(mode, salt, password, rounds, digest)
  {
    var n := rounds.UnwrapOr(RoundsDefault);
    if !(RoundsMin <= n <= RoundsMax) {
      return Err(InvalidRounds(n));
    }

    var digestB := digest(mode, password + salt + password);
    var inputA := password + salt + Cycle(digestB, |password|);
    ghost var target := inputA + LengthBits(|password|, digestB, password);
    var len: nat := |password|;
    while len > 0
      invariant inputA + LengthBits(len, digestB, password) == target
    {
      // len & 1 == 1, then len >>= 1
      var part := if len % 2 == 1 then digestB else password;
      assert inputA + LengthBits(len, digestB, password) == (inputA + part) + LengthBits(len / 2, digestB, password);
      inputA := inputA + part;
      len := len / 2;
    }
    assert inputA == target;
    var digestA := digest(mode, inputA);

    var inputDP: seq<byte> := [];
    for i := 0 to |password|
      invariant inputDP == Repeat(password, i)
    {
      inputDP := inputDP + password;
    }
    var p := Cycle(digest(mode, inputDP), |password|);

    var inputDS: seq<byte> := [];
    for i := 0 to DsCount(digestA[0])
      invariant inputDS == Repeat(salt, i)
    {
      inputDS := inputDS + salt;
    }
    var s := Cycle(digest(mode, inputDS), |salt|);

    var previous := digestA;
    for round := 0 to n
      invariant previous == Rounds(mode, round, digestA, p, s, digest)
    {
      ghost var first := if round % 2 == 1 then p else previous;
      ghost var withS := first + (if round % 3 != 0 then s else []);
      ghost var withP := withS + (if round % 7 != 0 then p else []);
      var c: seq<byte> := [];
      if round % 2 == 1 { c := c + p; } else { c := c + previous; }
      assert c == first;
      if round % 3 != 0 { c := c + s; }
      assert c == withS;
      if round % 7 != 0 { c := c + p; }
      assert c == withP;
      if round % 2 == 1 { c := c + previous; } else { c := c + p; }
      assert c == RoundInput(round, previous, p, s);
      previous := digest(mode, c);
    }

    assert digestA == DigestA(mode, salt, password, digest);
    assert p == SequenceP(mode, password, digest);
    assert s == SequenceS(DsCount(digestA[0]), mode, salt, digest);
    assert CheckRounds(rounds) == Ok(n);
    var encoded := CryptSha2Base64(mode, previous);
    r := Ok(encoded);
  }
}
