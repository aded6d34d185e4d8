// The account databases: passwd, group and shadow lines, crypt(3) password
// strings, the lines written back, password verification and the search
// for a free user or group id.
module Auth {
  import opened Wrappers
  import opened Bytes
  import opened Text
  import opened Sha

  datatype AuthError = Malformed | Unsupported(algorithm: string) | InvalidPassword | AlwaysBad

  // -------------------------------------------------------------- passwd

  datatype User = User(username: string, uid: nat, gid: nat, home: string, shell: string)

  /** A `name:password:uid:gid:gecos:home:shell` line of the passwd file. */
  function FromPasswdLine(line: string): (r: Result<User, AuthError>)
    ensures var parts := Split(line, ':');
      (r.Ok? <==> |parts| == 7 && ParseUnsigned(parts[2], 10, U32_MAX).Some?
                               && ParseUnsigned(parts[3], 10, U32_MAX).Some?)
      && (r.Err? ==> r.error == Malformed)
      && (r.Ok? ==> r.value.username == parts[0] && r.value.home == parts[5] && r.value.shell == parts[6]
                    && r.value.uid <= U32_MAX && r.value.gid <= U32_MAX)
  {
    var parts := Split(line, ':');
    if |parts| != 7 then Err(Malformed)
    else
      match (ParseUnsigned(parts[2], 10, U32_MAX), ParseUnsigned(parts[3], 10, U32_MAX))
      case (Some(uid), Some(gid)) => Ok(User(parts[0], uid, gid, parts[5], parts[6]))
      case _ => Err(Malformed)
  }

  /** The passwd line of a user, with the given password and comment fields. */
  function PasswdLine(u: User, password: string, gecos: string): string
  {
    Join([u.username, password, DecimalString(u.uid), DecimalString(u.gid), gecos, u.home, u.shell], ':')
  }

  predicate NoColon(s: string) { ':' !in s }

  lemma ParsePasswdLine(u: User, password: string, gecos: string)
    requires NoColon(u.username) && NoColon(password) && NoColon(gecos) && NoColon(u.home) && NoColon(u.shell)
    requires u.uid <= U32_MAX && u.gid <= U32_MAX
    ensures FromPasswdLine(PasswdLine(u, password, gecos)) == Ok(u)
  {
    var parts := [u.username, password, DecimalString(u.uid), DecimalString(u.gid), gecos, u.home, u.shell];
    SplitJoin(parts, ':');
    ParseDecimalString(u.uid, U32_MAX);
    ParseDecimalString(u.gid, U32_MAX);
  }

  lemma DecimalZero()
    ensures DecimalString(0) == "0"
  {
  }

  lemma RootPasswdLineJoin()
    ensures Join(["root", "x", "0", "0", "root", "/root", "/bin/bash"], ':') == "root:x:0:0:root:/root:/bin/bash"
  {
  }

  lemma RootPasswdLineFields()
    ensures PasswdLine(User("root", 0, 0, "/root", "/bin/bash"), "x", "root") == "root:x:0:0:root:/root:/bin/bash"
  {
    DecimalZero();
    RootPasswdLineJoin();
  }

  lemma RootPasswdLine()
    ensures FromPasswdLine("root:x:0:0:root:/root:/bin/bash") == Ok(User("root", 0, 0, "/root", "/bin/bash"))
  {
    RootPasswdLineFields();
    ParsePasswdLine(User("root", 0, 0, "/root", "/bin/bash"), "x", "root");
  }

  // --------------------------------------------------------------- group

  datatype Group = Group(gid: nat, name: string)

  /** A `name:password:gid:members` line of the group file. */
  function FromGroupLine(line: string): (r: Result<Group, AuthError>)
    ensures var parts := Split(line, ':');
      (r.Ok? <==> |parts| == 4 && ParseUnsigned(parts[2], 10, U32_MAX).Some?)
      && (r.Err? ==> r.error == Malformed)
      && (r.Ok? ==> r.value.name == parts[0] && r.value.gid <= U32_MAX)
  {
    var parts := Split(line, ':');
    if |parts| != 4 then Err(Malformed)
    else
      match ParseUnsigned(parts[2], 10, U32_MAX)
      case Some(gid) => Ok(Group(gid, parts[0]))
      case None => Err(Malformed)
  }

  /** The line `Group::write` produces for a group: `name:x:gid:`. */
  function GroupLine(g: Group): string
  {
    Join([g.name, "x", DecimalString(g.gid), ""], ':')
  }

  lemma ParseGroupLine(g: Group)
    requires NoColon(g.name) && g.gid <= U32_MAX
    ensures FromGroupLine(GroupLine(g)) == Ok(g)
  {
    SplitJoin([g.name, "x", DecimalString(g.gid), ""], ':');
    ParseDecimalString(g.gid, U32_MAX);
  }

  lemma GroupTests()
    ensures FromGroupLine("root:x:0:") == Ok(Group(0, "root"))
    ensures FromGroupLine("YY").Err?
  {
    DecimalZero();
    var parts := ["root", "x", "0", ""];
    assert Join(parts[2..], ':') == "0:";
    assert GroupLine(Group(0, "root")) == "root:x:0:";
    ParseGroupLine(Group(0, "root"));
    SplitNoSep("YY", ':');
  }

  // ------------------------------------------------------ crypt(3) strings

  datatype HashedPassword = HashedPassword(salt: string, hash: string, rounds: Option<nat>, algorithm: Sha2Mode)

  const RoundsPrefix: string := "rounds="

  /** `str::trim_start_matches`: every leading copy of pat removed. */
  function TrimStartMatches(s: string, pat: string): (r: string)
    requires |pat| > 0
    ensures |r| <= |s| && r == s[|s| - |r|..]
    ensures !StartsWith(r, pat)
    decreases |s|
  {
    if StartsWith(s, pat) then TrimStartMatches(s[|pat|..], pat) else s
  }

  /** The algorithm of a `$id$` field: 5 is SHA-256 and 6 is SHA-512. */
  function AlgorithmOf(id: string): (r: Option<Sha2Mode>)
    ensures r == Some(Sha256) <==> id == "5"
    ensures r == Some(Sha512) <==> id == "6"
    ensures r.None? <==> id != "5" && id != "6"
  {
    if id == "5" then Some(Sha256) else if id == "6" then Some(Sha512) else None
  }

  /** The rounds of a `rounds=N` field. */
  function RoundsOf(field: string): (r: Result<nat, AuthError>)
    ensures r.Ok? <==> StartsWith(field, RoundsPrefix)
                       && ParseUnsigned(TrimStartMatches(field, RoundsPrefix), 10, U32_MAX).Some?
    ensures r.Err? ==> r.error == Malformed
  {
    if !StartsWith(field, RoundsPrefix) then Err(Malformed)
    else
      match ParseUnsigned(TrimStartMatches(field, RoundsPrefix), 10, U32_MAX)
      case Some(n) => Ok(n)
      case None => Err(Malformed)
  }

  /**
   * `HashedPassword::from_crypt_password`: `$id$salt$hash` or
   * `$id$rounds=N$salt$hash`; any other number of `$` fields can never match.
   */
  function FromCryptPassword(crypt: string): (r: Result<HashedPassword, AuthError>)
    ensures var parts := Split(crypt, '$');
      (|parts| != 4 && |parts| != 5 ==> r == Err(AlwaysBad))
      && (|parts| == 5 && RoundsOf(parts[2]).Err? ==> r == Err(Malformed))
      && ((|parts| == 4 || (|parts| == 5 && RoundsOf(parts[2]).Ok?)) ==>
            (AlgorithmOf(parts[1]).None? ==> r == Err(Unsupported(parts[1])))
            && (AlgorithmOf(parts[1]).Some? ==> r.Ok? && r.value.algorithm == AlgorithmOf(parts[1]).value))
      && (r.Ok? ==> r.value.salt == parts[|parts| - 2] && r.value.hash == parts[|parts| - 1])
      && (r.Ok? ==> (r.value.rounds.Some? <==> |parts| == 5))
      && (r.Ok? && |parts| == 5 ==> r.value.rounds == Some(RoundsOf(parts[2]).value))
  {
    var parts := Split(crypt, '$');
    var fields: Result<(string, string, Option<nat>), AuthError> :=
      if |parts| == 4 then Ok((parts[2], parts[3], None))
      else if |parts| == 5 then
        match RoundsOf(parts[2])
        case Ok(n) => Ok((parts[3], parts[4], Some(n)))
        case Err(e) => Err(e)
      else Err(AlwaysBad);
    match fields
    case Err(e) => Err(e)
    case Ok((salt, hash, rounds)) =>
      match AlgorithmOf(parts[1])
      case Some(mode) => Ok(HashedPassword(salt, hash, rounds, mode))
      case None => Err(Unsupported(parts[1]))
  }

  /** The `Display` form of the algorithm. */
  function AlgorithmString(mode: Sha2Mode): (s: string)
    ensures AlgorithmOf(s) == Some(mode)
  {
    match mode
    case Sha256 => "5"
    case Sha512 => assert "6"[0] != "5"[0]; "6"
  }

  /** The `Display` form of a hashed password; the rounds are not written. */
  function HashedPasswordString(h: HashedPassword): string
  {
    Join(["", AlgorithmString(h.algorithm), h.salt, h.hash], '$')
  }

  predicate NoDollar(s: string) { '$' !in s }

  lemma ParseHashedPasswordString(h: HashedPassword)
    requires NoDollar(h.salt) && NoDollar(h.hash)
    ensures FromCryptPassword(HashedPasswordString(h)) == Ok(h.(rounds := None))
  {
    SplitJoin(["", AlgorithmString(h.algorithm), h.salt, h.hash], '$');
  }

  /** The crypt string with an explicit rounds field. */
  function CryptStringWithRounds(h: HashedPassword, n: nat): string
  {
    Join(["", AlgorithmString(h.algorithm), RoundsPrefix + DecimalString(n), h.salt, h.hash], '$')
  }

  /** A decimal string holds only digits. */
  lemma DecimalStringFree(n: nat, c: char)
    requires DigitValue(c, 10) < 0
    ensures c !in DecimalString(n)
  {
    var d := DecimalString(n);
    forall i | 0 <= i < |d| ensures d[i] != c {
      assert DigitValue(d[i], 10) >= 0;
    }
  }

  lemma TrimRoundsPrefix(d: string)
    requires |d| > 0 && DigitValue(d[0], 10) >= 0
    ensures TrimStartMatches(RoundsPrefix + d, RoundsPrefix) == d
  {
    var field := RoundsPrefix + d;
    assert field[..|RoundsPrefix|] == RoundsPrefix;
    assert field[|RoundsPrefix|..] == d;
    assert d[0] != RoundsPrefix[0];
  }

  lemma RoundsField(n: nat)
    requires n <= U32_MAX
    ensures NoDollar(RoundsPrefix + DecimalString(n))
    ensures RoundsOf(RoundsPrefix + DecimalString(n)) == Ok(n)
  {
    var d := DecimalString(n);
    DecimalStringFree(n, '$');
    assert '$' !in RoundsPrefix;
    TrimRoundsPrefix(d);
    ParseDecimalString(n, U32_MAX);
  }

  lemma ParseCryptStringWithRounds(h: HashedPassword, n: nat)
    requires NoDollar(h.salt) && NoDollar(h.hash) && n <= U32_MAX
    ensures FromCryptPassword(CryptStringWithRounds(h, n)) == Ok(h.(rounds := Some(n)))
  {
    RoundsField(n);
    SplitJoin(["", AlgorithmString(h.algorithm), RoundsPrefix + DecimalString(n), h.salt, h.hash], '$');
  }

  lemma CryptStringWithoutFields()
    ensures FromCryptPassword("x") == Err(AlwaysBad)
    ensures FromCryptPassword("") == Err(AlwaysBad)
  {
    SplitNoSep("x", '$');
    SplitNoSep("", '$');
  }

  lemma CryptStringUnsupported(id: string, salt: string, hash: string)
    requires id != "5" && id != "6" && NoDollar(id) && NoDollar(salt) && NoDollar(hash)
    ensures FromCryptPassword(Join(["", id, salt, hash], '$')) == Err(Unsupported(id))
  {
    SplitJoin(["", id, salt, hash], '$');
  }

  // --------------------------------------------------------------- shadow

  datatype ShadowEntry = ShadowEntry(username: string, passwordHash: Option<HashedPassword>, lastChange: nat)

  /** A `name:password:lastchange:...` line of the shadow file, with its nine fields. */
  function FromShadowLine(line: string): (r: Result<ShadowEntry, AuthError>)
    ensures var parts := Split(line, ':');
      (r.Ok? <==> |parts| == 9 && ParseUnsigned(parts[2], 10, U32_MAX).Some?)
      && (r.Err? ==> r.error == Malformed)
      && (r.Ok? ==> r.value.username == parts[0] && r.value.lastChange <= U32_MAX)
      && (r.Ok? ==> (r.value.passwordHash.Some? <==> FromCryptPassword(parts[1]).Ok?))
  {
    var parts := Split(line, ':');
    if |parts| != 9 then Err(Malformed)
    else
      var password := match FromCryptPassword(parts[1])
        case Ok(h) => Some(h)
        case Err(_) => None;
      match ParseUnsigned(parts[2], 10, U32_MAX)
      case Some(last) => Ok(ShadowEntry(parts[0], password, last))
      case None => Err(Malformed)
  }

  const NonExistentPassword: string := "x"

  /** The `Display` form of a shadow entry: `name:password:lastchange::::::`. */
  function ShadowEntryString(e: ShadowEntry): string
  {
    var password := match e.passwordHash
      case Some(h) => HashedPasswordString(h)
      case None => NonExistentPassword;
    Join([e.username, password, DecimalString(e.lastChange), "", "", "", "", "", ""], ':')
  }

  /** The hash with its rounds forgotten, as the `Display` form loses them. */
  function WithoutRounds(h: Option<HashedPassword>): Option<HashedPassword>
  {
    match h
    case Some(p) => Some(p.(rounds := None))
    case None => None
  }

  predicate PrintableHash(h: HashedPassword)
  {
    NoDollar(h.salt) && NoDollar(h.hash) && NoColon(h.salt) && NoColon(h.hash)
  }

  lemma ParseShadowEntryString(e: ShadowEntry)
    requires NoColon(e.username) && e.lastChange <= U32_MAX
    requires e.passwordHash.Some? ==> PrintableHash(e.passwordHash.value)
    ensures FromShadowLine(ShadowEntryString(e)) == Ok(e.(passwordHash := WithoutRounds(e.passwordHash)))
  {
    var password := match e.passwordHash
      case Some(h) => HashedPasswordString(h)
      case None => NonExistentPassword;
    var d := DecimalString(e.lastChange);
    var parts := [e.username, password, d, "", "", "", "", "", ""];
    assert NoColon(d) by {
      forall i | 0 <= i < |d| ensures d[i] != ':' {
        assert DigitValue(d[i], 10) >= 0;
      }
    }
    match e.passwordHash {
      case Some(h) =>
        JoinAbsent(["", AlgorithmString(h.algorithm), h.salt, h.hash], '$', ':');
        ParseHashedPasswordString(h);
      case None =>
        SplitNoSep(NonExistentPassword, '$');
    }
    SplitJoin(parts, ':');
    ParseDecimalString(e.lastChange, U32_MAX);
  }

  // ---------------------------------------------------------- verification

  /** `HashedPassword::verify`: the password hashes to the stored hash. */
  function Verify(h: HashedPassword, password: string, digest: Digest): (r: Result<bool, AuthError>)
    ensures r.Err? <==> !(RoundsMin <= h.rounds.UnwrapOr(RoundsDefault) <= RoundsMax)
    ensures r.Err? ==> r.error == InvalidPassword
    ensures r.Ok? ==> (r.value <==>
      h.hash == ShaCrypt(h.algorithm, Utf8Encode(h.salt), Utf8Encode(password), h.rounds, digest).value)
  {
    match ShaCrypt(h.algorithm, Utf8Encode(h.salt), Utf8Encode(password), h.rounds, digest)
    case Err(_) => Err(InvalidPassword)
    case Ok(hash) => Ok(h.hash == hash)
  }

  /** `ShadowEntry::verify_password`: an entry without a hash accepts no password. */
  function VerifyPassword(e: ShadowEntry, password: string, digest: Digest): (r: Result<bool, AuthError>)
    ensures e.passwordHash.None? ==> r == Ok(false)
    ensures r == Ok(true) ==> e.passwordHash.Some?
  {
    match e.passwordHash
    case Some(h) => Verify(h, password, digest)
    case None => Ok(false)
  }

  /** The hash SHA-crypt gives for a password verifies that password. */
  lemma VerifyOwnHash(mode: Sha2Mode, salt: string, password: string, rounds: Option<nat>, digest: Digest)
    requires RoundsMin <= rounds.UnwrapOr(RoundsDefault) <= RoundsMax
    ensures var hash := ShaCrypt(mode, Utf8Encode(salt), Utf8Encode(password), rounds, digest).value;
      Verify(HashedPassword(salt, hash, rounds, mode), password, digest) == Ok(true)
  {
  }

  /** A stored hash of the wrong length, or with a character outside the table, matches no password. */
  lemma VerifyMalformedHash(h: HashedPassword, password: string, digest: Digest)
    requires |h.hash| != (if h.algorithm == Sha256 then 43 else 86)
             || exists i :: 0 <= i < |h.hash| && h.hash[i] !in B64Table
    ensures Verify(h, password, digest) != Ok(true)
  {
  }

  // ------------------------------------------------------------ free ids

  /**
   * `find_non_overlapping_value` as written: the i-th value of lo..hi is
   * compared with values[i], and indexing past the end of values panics.
   */
  function ScanAsWritten(lo: nat, hi: nat, values: seq<nat>, i: nat): (r: Outcome<Option<nat>>)
    ensures r.Returns? && r.value.Some? ==> lo + i <= r.value.value < hi
    decreases hi - (lo + i)
  {
    if lo + i >= hi then Returns(None)
    else if i >= |values| then Panics
    else if values[i] != lo + i then Returns(Some(lo + i))
    else ScanAsWritten(lo, hi, values, i + 1)
  }

  method FindNonOverlappingValueAsWritten(lo: nat, hi: nat, values: seq<nat>) returns (r: Outcome<Option<nat>>)
    ensures r == ScanAsWritten(lo, hi, values, 0)
  {
    var i := 0;
    while lo + i < hi
      invariant ScanAsWritten(lo, hi, values, i) == ScanAsWritten(lo, hi, values, 0)
      decreases hi - (lo + i)
    {
      if i >= |values| {
        return Panics;
      }
      if values[i] != lo + i {
        return Returns(Some(lo + i));
      }
      i := i + 1;
    }
    return Returns(None);
  }

  /** The first value of lo..hi that is not among values: what the documentation promises. */
  function FirstFree(lo: nat, hi: nat, values: seq<nat>): (r: Option<nat>)
    ensures r.Some? ==> lo <= r.value < hi && r.value !in values
                        && forall w :: lo <= w < r.value ==> w in values
    ensures r.None? ==> forall w :: lo <= w < hi ==> w in values
    decreases hi - lo
  {
    if lo >= hi then None
    else if lo !in values then Some(lo)
    else FirstFree(lo + 1, hi, values)
  }

  /** `find_non_overlapping_value`, corrected to search values rather than index them. */
  method FindNonOverlappingValue(lo: nat, hi: nat, values: seq<nat>) returns (r: Option<nat>)
    ensures r == FirstFree(lo, hi, values)
  {
    var v := lo;
    while v < hi
      invariant lo <= v
      invariant FirstFree(v, hi, values) == FirstFree(lo, hi, values)
      decreases hi - v
    {
      if v !in values {
        return Some(v);
      }
      v := v + 1;
    }
    return None;
  }

  /**
   * The ids the callers collect: inside lo..hi and sorted, as `sort()`
   * leaves them, so an id that two users or groups share appears twice.
   */
  predicate SortedIn(values: seq<nat>, lo: nat, hi: nat)
  {
    (forall i :: 0 <= i < |values| ==> lo <= values[i] < hi)
    && (forall i, j :: 0 <= i < j < |values| ==> values[i] <= values[j])
  }

  /** Some id appears twice. */
  predicate HasRepeat(values: seq<nat>)
  {
    exists i, j :: 0 <= i < j < |values| && values[i] == values[j]
  }

  /** Sorted ids inside lo..hi with no id appearing twice. */
  predicate StrictlyAscendingIn(values: seq<nat>, lo: nat, hi: nat)
  {
    (forall i :: 0 <= i < |values| ==> lo <= values[i] < hi)
    && (forall i, j :: 0 <= i < j < |values| ==> values[i] < values[j])
  }

  lemma {:induction false} ScanAgrees(lo: nat, hi: nat, values: seq<nat>, i: nat)
    requires StrictlyAscendingIn(values, lo, hi)
    requires i <= |values| && forall j :: 0 <= j < i ==> values[j] == lo + j
    requires ScanAsWritten(lo, hi, values, i).Returns?
    ensures ScanAsWritten(lo, hi, values, i).value == FirstFree(lo, hi, values)
    decreases hi - (lo + i)
  {
    if lo + i >= hi {
      forall w | lo <= w < hi ensures w in values {
        assert values[w - lo] == w;
      }
    } else if values[i] != lo + i {
      var v := lo + i;
      forall w | lo <= w < v ensures w in values {
        assert values[w - lo] == w;
      }
      assert values[i] > v by {
        if i > 0 {
          assert values[i - 1] < values[i];
        }
      }
      assert v !in values by {
        forall j | 0 <= j < |values| ensures values[j] != v {
          if j < i {
            assert values[j] == lo + j;
          } else if j > i {
            assert values[i] < values[j];
          }
        }
      }
      FirstFreeUnique(lo, hi, values, v);
    } else {
      ScanAgrees(lo, hi, values, i + 1);
    }
  }

  lemma FirstFreeUnique(lo: nat, hi: nat, values: seq<nat>, v: nat)
    requires lo <= v < hi && v !in values && forall w :: lo <= w < v ==> w in values
    ensures FirstFree(lo, hi, values) == Some(v)
  {
    var r := FirstFree(lo, hi, values);
    assert r.Some? && !(r.value < v) && !(v < r.value);
  }

  /** Whenever the source's scan returns, on sorted ids without repeats, it returns the first free id. */
  lemma AsWrittenReturnsFirstFree(lo: nat, hi: nat, values: seq<nat>)
    requires StrictlyAscendingIn(values, lo, hi)
    requires ScanAsWritten(lo, hi, values, 0).Returns?
    ensures ScanAsWritten(lo, hi, values, 0).value == FirstFree(lo, hi, values)
  {
    ScanAgrees(lo, hi, values, 0);
  }

  /** Strictly ascending ids are exactly sorted ids without a repeat. */
  lemma StrictlyAscendingWithoutRepeat(values: seq<nat>, lo: nat, hi: nat)
    ensures StrictlyAscendingIn(values, lo, hi) <==> SortedIn(values, lo, hi) && !HasRepeat(values)
  {
    if SortedIn(values, lo, hi) && !HasRepeat(values) {
      forall i, j | 0 <= i < j < |values| ensures values[i] < values[j] {
        assert values[i] != values[j];
      }
    }
  }

  /**
   * On sorted ids, every id below a value the scan as written returns is in
   * use, and the value itself is in use only when some id repeats.
   */
  lemma {:induction false} ScanUsedOnlyOnRepeat(lo: nat, hi: nat, values: seq<nat>, i: nat)
    requires SortedIn(values, lo, hi)
    requires i <= |values| && forall j :: 0 <= j < i ==> values[j] == lo + j
    requires ScanAsWritten(lo, hi, values, i).Returns? && ScanAsWritten(lo, hi, values, i).value.Some?
    ensures var v := ScanAsWritten(lo, hi, values, i).value.value;
      (forall w :: lo <= w < v ==> w in values) && (v in values ==> HasRepeat(values))
    decreases hi - (lo + i)
  {
    if values[i] != lo + i {
      var v := lo + i;
      forall w | lo <= w < v ensures w in values {
        assert values[w - lo] == w;
      }
      if v in values {
        var k :| 0 <= k < |values| && values[k] == v;
        if k < i {
          assert values[k] == lo + k;
        }
        assert values[i] <= values[k];
        assert i > 0 && values[i - 1] <= values[i];
        assert values[i - 1] == values[i];
      }
    } else {
      ScanUsedOnlyOnRepeat(lo, hi, values, i + 1);
    }
  }

  /** On the sorted ids the callers collect, the scan as written hands out a used id only when some id repeats. */
  lemma AsWrittenUsedOnlyOnRepeat(lo: nat, hi: nat, values: seq<nat>)
    requires SortedIn(values, lo, hi)
    requires ScanAsWritten(lo, hi, values, 0).Returns? && ScanAsWritten(lo, hi, values, 0).value.Some?
    ensures var v := ScanAsWritten(lo, hi, values, 0).value.value;
      (forall w :: lo <= w < v ==> w in values) && (v in values ==> HasRepeat(values))
  {
    ScanUsedOnlyOnRepeat(lo, hi, values, 0);
  }

  /** Two users with uid 1000 and one with 1001: the scan as written hands out 1001, which is in use, where 1002 is free. */
  lemma AsWrittenDuplicateReturnsUsed()
    ensures SortedIn([1000, 1000, 1001], 1000, 65535) && HasRepeat([1000, 1000, 1001])
    ensures ScanAsWritten(1000, 65535, [1000, 1000, 1001], 0) == Returns(Some(1001))
    ensures 1001 in [1000, 1000, 1001]
    ensures FirstFree(1000, 65535, [1000, 1000, 1001]) == Some(1002)
  {
    var used := [1000, 1000, 1001];
    assert used[0] == used[1];
    assert ScanAsWritten(1000, 65535, used, 1) == Returns(Some(1001));
    assert forall w :: 1000 <= w < 1002 ==> w in used by {
      forall w | 1000 <= w < 1002 ensures w in used {
        assert used[w - 1000 + 1] == w;
      }
    }
    FirstFreeUnique(1000, 65535, used, 1002);
  }

  /** With no id of 1000..65535 in use, the scan panics where 1000 is free. */
  lemma AsWrittenPanicsWhenUnused()
    ensures ScanAsWritten(1000, 65535, [], 0) == Panics
    ensures FirstFree(1000, 65535, []) == Some(1000)
  {
  }

  /** The scan steps over a prefix of values that matches the range. */
  lemma {:induction false} ScanSkipsPrefix(lo: nat, hi: nat, values: seq<nat>, k: nat)
    requires k <= |values| && lo + k <= hi
    requires forall j :: 0 <= j < k ==> values[j] == lo + j
    ensures ScanAsWritten(lo, hi, values, 0) == ScanAsWritten(lo, hi, values, k)
  {
    if k > 0 {
      ScanSkipsPrefix(lo, hi, values, k - 1);
    }
  }

  /**
   * When the ids in use are exactly lo, lo + 1, ..., and some id of the range
   * is still free, the scan runs off the end of values and panics.
   */
  lemma AsWrittenPanicsWhenPrefixUsed(lo: nat, hi: nat, values: seq<nat>)
    requires forall j :: 0 <= j < |values| ==> values[j] == lo + j
    requires lo + |values| < hi
    ensures ScanAsWritten(lo, hi, values, 0) == Panics
    ensures FirstFree(lo, hi, values) == Some(lo + |values|)
  {
    ScanSkipsPrefix(lo, hi, values, |values|);
    var v := lo + |values|;
    forall w | lo <= w < v ensures w in values {
      assert values[w - lo] == w;
    }
    FirstFreeUnique(lo, hi, values, v);
  }

  lemma FreeIdTestGap()
    ensures ScanAsWritten(0, 10, [0, 1, 2, 3, 4, 5, 6, 7, 8, 10], 0) == Returns(Some(9))
    ensures FirstFree(0, 10, [0, 1, 2, 3, 4, 5, 6, 7, 8, 10]) == Some(9)
  {
    var gap := [0, 1, 2, 3, 4, 5, 6, 7, 8, 10];
    assert forall j :: 0 <= j < 9 ==> gap[j] == j;
    ScanSkipsPrefix(0, 10, gap, 9);
    assert forall w :: 0 <= w < 9 ==> w in gap by {
      forall w | 0 <= w < 9 ensures w in gap {
        assert gap[w] == w;
      }
    }
    FirstFreeUnique(0, 10, gap, 9);
  }

  lemma FreeIdTestFull()
    ensures ScanAsWritten(0, 10, [0, 1, 2, 3, 4, 5, 6, 7, 8, 9], 0) == Returns(None)
    ensures FirstFree(0, 10, [0, 1, 2, 3, 4, 5, 6, 7, 8, 9]) == None
  {
    var full := [0, 1, 2, 3, 4, 5, 6, 7, 8, 9];
    assert forall j :: 0 <= j < 10 ==> full[j] == j;
    ScanSkipsPrefix(0, 10, full, 10);
    assert forall w :: 0 <= w < 10 ==> w in full by {
      forall w | 0 <= w < 10 ensures w in full {
        assert full[w] == w;
      }
    }
  }
}
