// The options a log reader sends loggerd: a time window, field filters and
// whether to follow the log, built from key/value pairs and written back as
// the header of a read stream.
module LogControl {
  import opened Wrappers
  import Text
  import Bytes

  const MinTimeHeader: string := "_MIN_TIME"
  const MaxTimeHeader: string := "_MAX_TIME"
  const FollowHeader: string := "_FOLLOW"

  /** `KV`: one field of a log. */
  datatype KV = KV(key: string, value: string)

  /** `LogMessage`, with its timestamp as an instant on a line of integers. */
  datatype LogMessage = LogMessage(timestamp: int, fields: seq<KV>, message: string)

  /** `ReadStreamOpts`. */
  datatype ReadStreamOpts = ReadStreamOpts(minTime: Option<int>, maxTime: Option<int>, filters: Option<seq<KV>>, follow: bool)

  /** `ReadStreamOptsParseError`: a time that is not RFC 3339, or a follow flag that is not a bool. */
  datatype ParseError = InvalidTime | InvalidFollow

  /** `ReadStreamOpts::new`: no window, no filters, no following. */
  function New(): ReadStreamOpts
  {
    ReadStreamOpts(None, None, None, false)
  }

  function WithMinTime(o: ReadStreamOpts, t: int): ReadStreamOpts
  {
    o.(minTime := Some(t))
  }

  function WithMaxTime(o: ReadStreamOpts, t: int): ReadStreamOpts
  {
    o.(maxTime := Some(t))
  }

  function WithFilters(o: ReadStreamOpts, filters: seq<KV>): ReadStreamOpts
  {
    o.(filters := Some(filters))
  }

  function WithFollow(o: ReadStreamOpts, follow: bool): ReadStreamOpts
  {
    o.(follow := follow)
  }

  /** Each builder sets its own field only: applied in either order they give the same options. */
  lemma BuildersIndependent(o: ReadStreamOpts, lo: int, hi: int, fs: seq<KV>, b: bool)
    ensures var a := WithFollow(WithFilters(WithMaxTime(WithMinTime(o, lo), hi), fs), b);
      a == WithMinTime(WithMaxTime(WithFilters(WithFollow(o, b), fs), hi), lo)
      && a == ReadStreamOpts(Some(lo), Some(hi), Some(fs), b)
    ensures WithMinTime(o, lo).maxTime == o.maxTime && WithMinTime(o, lo).filters == o.filters && WithMinTime(o, lo).follow == o.follow
    ensures WithMaxTime(o, hi).minTime == o.minTime && WithMaxTime(o, hi).filters == o.filters && WithMaxTime(o, hi).follow == o.follow
    ensures WithFilters(o, fs).minTime == o.minTime && WithFilters(o, fs).maxTime == o.maxTime && WithFilters(o, fs).follow == o.follow
    ensures WithFollow(o, b).minTime == o.minTime && WithFollow(o, b).maxTime == o.maxTime && WithFollow(o, b).filters == o.filters
  {
  }

  // ----- matches -----

  /** `Iterator::find` on the fields from index j: the first field with the key. */
  function FindKey(fields: seq<KV>, key: string, j: nat): (r: Option<nat>)
    requires j <= |fields|
    ensures r.Some? ==> (j <= r.value < |fields| && fields[r.value].key == key
      && forall i :: j <= i < r.value ==> fields[i].key != key)
    ensures r.None? ==> forall i :: j <= i < |fields| ==> fields[i].key != key
    decreases |fields| - j
  {
    if j == |fields| then None
    else if fields[j].key == key then Some(j)
    else FindKey(fields, key, j + 1)
  }

  /** A filter lets a log through unless the log's first field with that key has another value. */
  predicate Passes(filter: KV, fields: seq<KV>)
  {
    match FindKey(fields, filter.key, 0)
    case None => true
    case Some(k) => fields[k].value == filter.value
  }

  /** `ReadStreamOpts::matches`: inside the window, and through every filter. */
  predicate Matches(o: ReadStreamOpts, log: LogMessage)
  {
    && (o.minTime.Some? ==> log.timestamp >= o.minTime.value)
    && (o.maxTime.Some? ==> log.timestamp <= o.maxTime.value)
    && (o.filters.Some? ==> forall i :: 0 <= i < |o.filters.value| ==> Passes(o.filters.value[i], log.fields))
  }

  /** The options of `new` let every log through. */
  lemma NewMatchesAll(log: LogMessage)
    ensures Matches(New(), log)
  {
  }

  /** A filter on a key the log lacks changes nothing; one whose key the log has with another value rejects it. */
  lemma FilterOnKey(o: ReadStreamOpts, fs: seq<KV>, f: KV, log: LogMessage)
    requires o.filters == Some(fs)
    ensures (forall i :: 0 <= i < |log.fields| ==> log.fields[i].key != f.key) ==>
      (Matches(o.(filters := Some(fs + [f])), log) <==> Matches(o, log))
    ensures (exists i :: (0 <= i < |log.fields| && log.fields[i].key == f.key && log.fields[i].value != f.value
        && forall j :: 0 <= j < i ==> log.fields[j].key != f.key)) ==>
      !Matches(o.(filters := Some(fs + [f])), log)
  {
    var fs' := fs + [f];
    assert fs'[|fs|] == f;
    if forall i :: 0 <= i < |log.fields| ==> log.fields[i].key != f.key {
      assert Passes(f, log.fields);
      assert forall i :: 0 <= i < |fs| ==> fs'[i] == fs[i];
    }
    if exists i :: 0 <= i < |log.fields| && log.fields[i].key == f.key && log.fields[i].value != f.value
        && forall j :: 0 <= j < i ==> log.fields[j].key != f.key {
      var i :| 0 <= i < |log.fields| && log.fields[i].key == f.key && log.fields[i].value != f.value
        && forall j :: 0 <= j < i ==> log.fields[j].key != f.key;
      var k := FindKey(log.fields, f.key, 0);
      assert k.Some? && k.value == i;
      assert !Passes(fs'[|fs|], log.fields);
    }
  }

  /** A log outside the window never matches. */
  lemma OutsideWindow(o: ReadStreamOpts, log: LogMessage)
    requires (o.minTime.Some? && log.timestamp < o.minTime.value) || (o.maxTime.Some? && log.timestamp > o.maxTime.value)
    ensures !Matches(o, log)
  {
  }

  // ----- from_kvs -----

  /** `str::parse::<bool>`: exactly "true" or "false". */
  function ParseBool(s: string): (r: Option<bool>)
    ensures r.Some? <==> s == "true" || s == "false"
    ensures r.Some? ==> (r.value <==> s == "true")
  {
    if s == "true" then Some(true) else if s == "false" then Some(false) else None
  }

  function BoolString(b: bool): (s: string)
    ensures ParseBool(s) == Some(b)
  {
    if b then "true" else "false"
  }

  predicate IsHeader(key: string)
  {
    key == MinTimeHeader || key == MaxTimeHeader || key == FollowHeader
  }

  /** What is wrong with one pair, if anything: a time header whose value does not parse, or a follow header that is not a bool. */
  function EntryError(kv: (string, string), parseTime: string -> Option<int>): Option<ParseError>
  {
    if kv.0 == MinTimeHeader || kv.0 == MaxTimeHeader then
      if parseTime(kv.1).None? then Some(InvalidTime) else None
    else if kv.0 == FollowHeader then
      if ParseBool(kv.1).None? then Some(InvalidFollow) else None
    else None
  }

  /** The error of the first bad pair. */
  function FirstError(kvs: seq<(string, string)>, parseTime: string -> Option<int>): (r: Option<ParseError>)
    ensures r.None? <==> forall i :: 0 <= i < |kvs| ==> EntryError(kvs[i], parseTime).None?
  {
    if kvs == [] then None
    else if EntryError(kvs[0], parseTime).Some? then EntryError(kvs[0], parseTime)
    else FirstError(kvs[1..], parseTime)
  }

  lemma {:induction false} FirstErrorAppend(a: seq<(string, string)>, b: seq<(string, string)>, parseTime: string -> Option<int>)
    ensures FirstError(a + b, parseTime) == if FirstError(a, parseTime).Some? then FirstError(a, parseTime) else FirstError(b, parseTime)
  {
    if a == [] {
      assert a + b == b;
    } else {
      assert (a + b)[1..] == a[1..] + b;
      FirstErrorAppend(a[1..], b, parseTime);
    }
  }

  /** The time of the last pair with the key; a later pair overrides an earlier one. */
  function LastTime(kvs: seq<(string, string)>, key: string, parseTime: string -> Option<int>): Option<int>
  {
    if kvs == [] then None
    else if kvs[|kvs| - 1].0 == key then parseTime(kvs[|kvs| - 1].1)
    else LastTime(kvs[..|kvs| - 1], key, parseTime)
  }

  /** The follow flag of the last follow pair, false when there is none. */
  function LastFollow(kvs: seq<(string, string)>): bool
  {
    if kvs == [] then false
    else if kvs[|kvs| - 1].0 == FollowHeader then ParseBool(kvs[|kvs| - 1].1) == Some(true)
    else LastFollow(kvs[..|kvs| - 1])
  }

  /** The pairs that are not headers, as filters, in their order. */
  function Filters(kvs: seq<(string, string)>): (fs: seq<KV>)
    ensures |fs| <= |kvs|
    ensures forall i :: 0 <= i < |fs| ==> !IsHeader(fs[i].key)
  {
    if kvs == [] then []
    else
      var kv := kvs[|kvs| - 1];
      Filters(kvs[..|kvs| - 1]) + (if IsHeader(kv.0) then [] else [KV(kv.0, kv.1)])
  }

  /** `from_kvs` by what it produces: the first bad pair's error, or the last of each header and every other pair as a filter. */
  function ReadOpts(kvs: seq<(string, string)>, parseTime: string -> Option<int>): Result<ReadStreamOpts, ParseError>
  {
    match FirstError(kvs, parseTime)
    case Some(e) => Err(e)
    case None => Ok(ReadStreamOpts(LastTime(kvs, MinTimeHeader, parseTime), LastTime(kvs, MaxTimeHeader, parseTime),
      Some(Filters(kvs)), LastFollow(kvs)))
  }

  /** `ReadStreamOpts::from_kvs`: the pairs in order, each header through its builder, the rest pushed as filters. */
  method FromKvs(kvs: seq<(string, string)>, parseTime: string -> Option<int>) returns (r: Result<ReadStreamOpts, ParseError>)
    ensures r == ReadOpts(kvs, parseTime)
  {
    var opts := New();
    var filters: seq<KV> := [];
    var i := 0;
    while i < |kvs|
      invariant 0 <= i <= |kvs|
      invariant FirstError(kvs[..i], parseTime).None?
      invariant opts == ReadStreamOpts(LastTime(kvs[..i], MinTimeHeader, parseTime), LastTime(kvs[..i], MaxTimeHeader, parseTime), None, LastFollow(kvs[..i]))
      invariant filters == Filters(kvs[..i])
    {
      var (key, value) := kvs[i];
      assert kvs[..i + 1][..i] == kvs[..i];
      assert kvs[..i + 1] == kvs[..i] + [kvs[i]];
      FirstErrorAppend(kvs[..i], [kvs[i]], parseTime);
      if EntryError(kvs[i], parseTime).Some? {
        FirstErrorAppend(kvs[..i + 1], kvs[i + 1..], parseTime);
        assert kvs[..i + 1] + kvs[i + 1..] == kvs;
        return Err(EntryError(kvs[i], parseTime).value);
      }
      if key == MinTimeHeader {
        opts := WithMinTime(opts, parseTime(value).value);
      } else if key == MaxTimeHeader {
        opts := WithMaxTime(opts, parseTime(value).value);
      } else if key == FollowHeader {
        opts := WithFollow(opts, ParseBool(value).value);
      } else {
        filters := filters + [KV(key, value)];
      }
      i := i + 1;
    }
    assert kvs[..i] == kvs;
    return Ok(WithFilters(opts, filters));
  }

  // ----- to_header_string -----

  /** The pairs of the header, in the order `to_header_string` writes them: the window, the filters, then the follow flag. */
  function HeaderKvs(o: ReadStreamOpts, formatTime: int -> string): (kvs: seq<(string, string)>)
    ensures |kvs| >= 1 && kvs[|kvs| - 1] == (FollowHeader, BoolString(o.follow))
  {
    MinPart(o, formatTime) + MaxPart(o, formatTime) + FilterPairs(FiltersOf(o)) + [FollowPair(o)]
  }

  function FiltersOf(o: ReadStreamOpts): seq<KV>
  {
    if o.filters.Some? then o.filters.value else []
  }

  function MinPart(o: ReadStreamOpts, formatTime: int -> string): (kvs: seq<(string, string)>)
    ensures |kvs| <= 1 && forall i :: 0 <= i < |kvs| ==> o.minTime.Some? && kvs[i] == (MinTimeHeader, formatTime(o.minTime.value))
    ensures |kvs| == 1 <==> o.minTime.Some?
  {
    if o.minTime.Some? then [(MinTimeHeader, formatTime(o.minTime.value))] else []
  }

  function MaxPart(o: ReadStreamOpts, formatTime: int -> string): (kvs: seq<(string, string)>)
    ensures |kvs| <= 1 && forall i :: 0 <= i < |kvs| ==> o.maxTime.Some? && kvs[i] == (MaxTimeHeader, formatTime(o.maxTime.value))
    ensures |kvs| == 1 <==> o.maxTime.Some?
  {
    if o.maxTime.Some? then [(MaxTimeHeader, formatTime(o.maxTime.value))] else []
  }

  function FollowPair(o: ReadStreamOpts): (string, string)
  {
    (FollowHeader, BoolString(o.follow))
  }

  function FilterPairs(fs: seq<KV>): (kvs: seq<(string, string)>)
    ensures |kvs| == |fs| && forall i :: 0 <= i < |fs| ==> kvs[i] == (fs[i].key, fs[i].value)
  {
    seq(|fs|, i requires 0 <= i < |fs| => (fs[i].key, fs[i].value))
  }

  /** `to_header_string`: each pair as `key=value`, joined by spaces. */
  function ToHeaderString(o: ReadStreamOpts, formatTime: int -> string): string
  {
    var kvs := HeaderKvs(o, formatTime);
    Text.Join(seq(|kvs|, i requires 0 <= i < |kvs| => kvs[i].0 + "=" + kvs[i].1), ' ')
  }

  /** A pair list without the key leaves the last time of that key as it was. */
  lemma {:induction false} LastTimeSkip(a: seq<(string, string)>, b: seq<(string, string)>, key: string, parseTime: string -> Option<int>)
    requires forall i :: 0 <= i < |b| ==> b[i].0 != key
    ensures LastTime(a + b, key, parseTime) == LastTime(a, key, parseTime)
    decreases |b|
  {
    if b == [] {
      assert a + b == a;
    } else {
      assert (a + b)[..|a + b| - 1] == a + b[..|b| - 1];
      LastTimeSkip(a, b[..|b| - 1], key, parseTime);
    }
  }

  lemma {:induction false} FiltersAppend(a: seq<(string, string)>, b: seq<(string, string)>)
    ensures Filters(a + b) == Filters(a) + Filters(b)
    decreases |b|
  {
    if b == [] {
      assert a + b == a;
    } else {
      assert (a + b)[..|a + b| - 1] == a + b[..|b| - 1];
      FiltersAppend(a, b[..|b| - 1]);
    }
  }

  lemma {:induction false} FiltersOfPairs(fs: seq<KV>)
    requires forall i :: 0 <= i < |fs| ==> !IsHeader(fs[i].key)
    ensures Filters(FilterPairs(fs)) == fs
    decreases |fs|
  {
    if fs != [] {
      var init := fs[..|fs| - 1];
      assert FilterPairs(fs)[..|fs| - 1] == FilterPairs(init);
      FiltersOfPairs(init);
      assert fs == init + [fs[|fs| - 1]];
    }
  }

  lemma {:induction false} NoErrorInPairs(fs: seq<KV>, parseTime: string -> Option<int>)
    requires forall i :: 0 <= i < |fs| ==> !IsHeader(fs[i].key)
    ensures FirstError(FilterPairs(fs), parseTime).None?
  {
    var kvs := FilterPairs(fs);
    forall i | 0 <= i < |kvs|
      ensures EntryError(kvs[i], parseTime).None?
    {
      assert kvs[i].0 == fs[i].key;
    }
  }

  /** The three header keys differ from one another. */
  lemma HeadersDistinct()
    ensures MinTimeHeader != MaxTimeHeader && MinTimeHeader != FollowHeader && MaxTimeHeader != FollowHeader
  {
    assert MinTimeHeader[2] != MaxTimeHeader[2];
    assert |MinTimeHeader| != |FollowHeader|;
  }

  /** No pair of the header is rejected. */
  lemma HeaderNoError(o: ReadStreamOpts, formatTime: int -> string, parseTime: string -> Option<int>)
    requires forall t :: parseTime(formatTime(t)) == Some(t)
    requires forall i :: 0 <= i < |FiltersOf(o)| ==> !IsHeader(FiltersOf(o)[i].key)
    ensures FirstError(HeaderKvs(o, formatTime), parseTime).None?
  {
    var a := MinPart(o, formatTime);
    var b := MaxPart(o, formatTime);
    var c := FilterPairs(FiltersOf(o));
    var d := [FollowPair(o)];
    HeadersDistinct();
    NoErrorInPairs(FiltersOf(o), parseTime);
    if o.minTime.Some? {
      var t := o.minTime.value;
      assert parseTime(formatTime(t)) == Some(t);
      assert EntryError(a[0], parseTime).None?;
    }
    if o.maxTime.Some? {
      var t := o.maxTime.value;
      assert parseTime(formatTime(t)) == Some(t);
      assert EntryError(b[0], parseTime).None?;
    }
    assert EntryError(d[0], parseTime).None?;
    FirstErrorAppend(a, b, parseTime);
    FirstErrorAppend(a + b, c, parseTime);
    FirstErrorAppend(a + b + c, d, parseTime);
  }

  /** The filters of the header read back as the options' filters. */
  lemma HeaderFilters(o: ReadStreamOpts, formatTime: int -> string)
    requires forall i :: 0 <= i < |FiltersOf(o)| ==> !IsHeader(FiltersOf(o)[i].key)
    ensures Filters(HeaderKvs(o, formatTime)) == FiltersOf(o)
  {
    var a := MinPart(o, formatTime);
    var b := MaxPart(o, formatTime);
    var c := FilterPairs(FiltersOf(o));
    var d := [FollowPair(o)];
    FiltersAppend(a, b);
    FiltersAppend(a + b, c);
    FiltersAppend(a + b + c, d);
    FiltersOfPairs(FiltersOf(o));
    if a != [] {
      assert a[..0] == [];
    }
    if b != [] {
      assert b[..0] == [];
    }
    assert d[..0] == [];
    assert Filters(a) == [] && Filters(b) == [] && Filters(d) == [];
  }

  /** The header's minimum time reads back as the options' minimum. */
  lemma HeaderMinTime(o: ReadStreamOpts, formatTime: int -> string, parseTime: string -> Option<int>)
    requires forall t :: parseTime(formatTime(t)) == Some(t)
    requires forall i :: 0 <= i < |FiltersOf(o)| ==> !IsHeader(FiltersOf(o)[i].key)
    ensures LastTime(HeaderKvs(o, formatTime), MinTimeHeader, parseTime) == o.minTime
  {
    var a := MinPart(o, formatTime);
    var rest := MaxPart(o, formatTime) + FilterPairs(FiltersOf(o)) + [FollowPair(o)];
    HeaderAfterMin(o, formatTime);
    NoMinTimeAfter(o, formatTime);
    LastTimeSkip(a, rest, MinTimeHeader, parseTime);
    MinPartTime(o, formatTime, parseTime);
  }

  lemma MinPartTime(o: ReadStreamOpts, formatTime: int -> string, parseTime: string -> Option<int>)
    requires forall t :: parseTime(formatTime(t)) == Some(t)
    ensures LastTime(MinPart(o, formatTime), MinTimeHeader, parseTime) == o.minTime
  {
    if o.minTime.Some? {
      var t := o.minTime.value;
      assert parseTime(formatTime(t)) == Some(t);
    }
  }

  lemma HeaderAfterMin(o: ReadStreamOpts, formatTime: int -> string)
    ensures HeaderKvs(o, formatTime) == MinPart(o, formatTime) + (MaxPart(o, formatTime) + FilterPairs(FiltersOf(o)) + [FollowPair(o)])
  {
    var a, b, c, d := MinPart(o, formatTime), MaxPart(o, formatTime), FilterPairs(FiltersOf(o)), [FollowPair(o)];
    Bytes.AppendAssoc(a, b, c);
    Bytes.AppendAssoc(a, b + c, d);
  }

  /** No pair after the minimum time has its key. */
  lemma NoMinTimeAfter(o: ReadStreamOpts, formatTime: int -> string)
    requires forall i :: 0 <= i < |FiltersOf(o)| ==> !IsHeader(FiltersOf(o)[i].key)
    ensures var rest := MaxPart(o, formatTime) + FilterPairs(FiltersOf(o)) + [FollowPair(o)];
      forall i :: 0 <= i < |rest| ==> rest[i].0 != MinTimeHeader
  {
    var b, c, d := MaxPart(o, formatTime), FilterPairs(FiltersOf(o)), [FollowPair(o)];
    HeadersDistinct();
    forall i | 0 <= i < |b + c + d|
      ensures (b + c + d)[i].0 != MinTimeHeader
    {
      if i < |b| {
        assert (b + c + d)[i] == b[i];
      } else if i < |b| + |c| {
        assert (b + c + d)[i] == c[i - |b|];
      } else {
        assert (b + c + d)[i] == d[0];
      }
    }
  }

  /** The header's maximum time reads back as the options' maximum. */
  lemma HeaderMaxTime(o: ReadStreamOpts, formatTime: int -> string, parseTime: string -> Option<int>)
    requires forall t :: parseTime(formatTime(t)) == Some(t)
    requires forall i :: 0 <= i < |FiltersOf(o)| ==> !IsHeader(FiltersOf(o)[i].key)
    ensures LastTime(HeaderKvs(o, formatTime), MaxTimeHeader, parseTime) == o.maxTime
  {
    var a := MinPart(o, formatTime);
    var b := MaxPart(o, formatTime);
    var rest := FilterPairs(FiltersOf(o)) + [FollowPair(o)];
    HeadersDistinct();
    assert HeaderKvs(o, formatTime) == (a + b) + rest;
    LastTimeSkip(a + b, rest, MaxTimeHeader, parseTime);
    if o.maxTime.Some? {
      assert (a + b)[|a + b| - 1] == b[0];
    } else {
      assert a + b == a;
      if a != [] {
        assert a[..0] == [];
      }
    }
  }

  /**
   * Reading back the pairs of the header gives the options again, with absent
   * filters read as an empty list, when the time parser reads what the time
   * formatter writes and no filter uses a header key.
   */
  lemma HeaderRoundTrip(o: ReadStreamOpts, formatTime: int -> string, parseTime: string -> Option<int>)
    requires forall t :: parseTime(formatTime(t)) == Some(t)
    requires o.filters.Some? ==> forall i :: 0 <= i < |o.filters.value| ==> !IsHeader(o.filters.value[i].key)
    ensures ReadOpts(HeaderKvs(o, formatTime), parseTime) == Ok(o.(filters := Some(if o.filters.Some? then o.filters.value else [])))
  {
    HeaderNoError(o, formatTime, parseTime);
    HeaderFilters(o, formatTime);
    HeaderMinTime(o, formatTime, parseTime);
    HeaderMaxTime(o, formatTime, parseTime);
    assert LastFollow(HeaderKvs(o, formatTime)) == o.follow;
  }

  /**
   * The header string splits back into its pairs: at every space into the
   * `key=value` parts, and each part at its first '=', when no key holds a
   * '=' or a space, no value a space, and no formatted time a space.
   */
  lemma HeaderStringSplits(o: ReadStreamOpts, formatTime: int -> string)
    requires forall t :: ' ' !in formatTime(t)
    requires o.filters.Some? ==> forall i :: 0 <= i < |o.filters.value| ==>
      '=' !in o.filters.value[i].key && ' ' !in o.filters.value[i].key && ' ' !in o.filters.value[i].value
    ensures var kvs := HeaderKvs(o, formatTime);
      var parts := Text.Split(ToHeaderString(o, formatTime), ' ');
      |parts| == |kvs| && forall i :: 0 <= i < |kvs| ==> Text.SplitOnce(parts[i], '=') == Some(kvs[i])
  {
    var kvs := HeaderKvs(o, formatTime);
    var ps := seq(|kvs|, i requires 0 <= i < |kvs| => kvs[i].0 + "=" + kvs[i].1);
    forall i | 0 <= i < |kvs|
      ensures ' ' !in ps[i] && '=' !in kvs[i].0
    {
      PairFree(o, formatTime, i);
    }
    Text.SplitJoin(ps, ' ');
    forall i | 0 <= i < |kvs|
      ensures Text.SplitOnce(ps[i], '=') == Some(kvs[i])
    {
      assert ps[i] == kvs[i].0 + ['='] + kvs[i].1;
      SplitOnceAt(kvs[i].0, kvs[i].1);
    }
  }

  lemma ConstantsFree()
    ensures ' ' !in MinTimeHeader && '=' !in MinTimeHeader
    ensures ' ' !in MaxTimeHeader && '=' !in MaxTimeHeader
    ensures ' ' !in FollowHeader && '=' !in FollowHeader
    ensures forall b :: ' ' !in BoolString(b)
  {
    assert forall c :: c in MinTimeHeader ==> c != ' ' && c != '=';
    assert forall c :: c in MaxTimeHeader ==> c != ' ' && c != '=';
    assert forall c :: c in FollowHeader ==> c != ' ' && c != '=';
    assert forall c :: c in "true" || c in "false" ==> c != ' ';
  }

  /** Pair i of the header has no space in it, and no '=' in its key. */
  lemma PairFree(o: ReadStreamOpts, formatTime: int -> string, i: nat)
    requires forall t :: ' ' !in formatTime(t)
    requires o.filters.Some? ==> forall i :: 0 <= i < |o.filters.value| ==>
      '=' !in o.filters.value[i].key && ' ' !in o.filters.value[i].key && ' ' !in o.filters.value[i].value
    requires i < |HeaderKvs(o, formatTime)|
    ensures var kv := HeaderKvs(o, formatTime)[i];
      ' ' !in kv.0 && ' ' !in kv.1 && '=' !in kv.0
  {
    var a := MinPart(o, formatTime);
    var b := MaxPart(o, formatTime);
    var c := FilterPairs(FiltersOf(o));
    var d := [FollowPair(o)];
    var kvs := HeaderKvs(o, formatTime);
    ConstantsFree();
    if i < |a| {
      assert kvs[i] == a[i];
    } else if i < |a| + |b| {
      assert kvs[i] == b[i - |a|];
      var t := o.maxTime.value;
      assert b[i - |a|] == (MaxTimeHeader, formatTime(t));
      assert ' ' !in formatTime(t);
    } else if i < |a| + |b| + |c| {
      assert kvs[i] == c[i - |a| - |b|];
    } else {
      assert kvs[i] == d[0];
    }
  }

  /** A string split at the first '=' of `key=value` when the key has none. */
  lemma {:induction false} SplitOnceAt(key: string, value: string)
    requires '=' !in key
    ensures Text.SplitOnce(key + ['='] + value, '=') == Some((key, value))
  {
    if key != [] {
      assert (key + ['='] + value)[1..] == key[1..] + ['='] + value;
      SplitOnceAt(key[1..], value);
      assert [key[0]] + key[1..] == key;
    }
  }
}
