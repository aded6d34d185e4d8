// logctl, the command-line client of loggerd: turning `key=value` arguments
// into the pairs a write stream is tagged with, choosing the output format of
// a read stream, and rendering one log in the text format.
module LogCtl {
  import opened Wrappers
  import Str = Text
  import LogControl

  type KV = LogControl.KV

  /** `split_once('=')` on one argument: the text before the first '=' and the text after it. */
  function SplitKv(kv: string): (r: Option<KV>)
    ensures r.None? <==> '=' !in kv
    ensures r.Some? ==> kv == r.value.key + ['='] + r.value.value && '=' !in r.value.key
  {
    match Str.SplitOnce(kv, '=')
    case None => None
    case Some((k, v)) => Some(LogControl.KV(k, v))
  }

  /** A pair whose key has no '=' comes back out of its `key=value` argument. */
  lemma SplitKvJoined(p: KV)
    requires '=' !in p.key
    ensures SplitKv(p.key + ['='] + p.value) == Some(p)
  {
    LogControl.SplitOnceAt(p.key, p.value);
  }

  /** What `validate_kvs` returns: every argument split, in order, or the error naming the first without '='. */
  function ValidKvs(kvs: seq<string>): Result<seq<KV>, string>
  {
    if kvs == [] then Ok([])
    else match SplitKv(kvs[0])
      case None => Err("invalid kv: " + kvs[0])
      case Some(p) => Prepend([p], ValidKvs(kvs[1..]))
  }

  /** The pairs already split, in front of what the rest of the arguments give. */
  function Prepend(done: seq<KV>, r: Result<seq<KV>, string>): Result<seq<KV>, string>
  {
    match r
    case Ok(rest) => Ok(done + rest)
    case Err(e) => Err(e)
  }

  lemma PrependNothing(r: Result<seq<KV>, string>)
    ensures Prepend([], r) == r
  {
    match r
    case Ok(v) => assert [] + v == v;
    case Err(_) =>
  }

  /** `validate_kvs`: the loop over the arguments, returning at the first one without '='. */
  method ValidateKvs(kvs: seq<string>) returns (r: Result<seq<KV>, string>)
    ensures r == ValidKvs(kvs)
  {
    var result: seq<KV> := [];
    assert kvs[0..] == kvs;
    PrependNothing(ValidKvs(kvs));
    for i := 0 to |kvs|
      invariant ValidKvs(kvs) == Prepend(result, ValidKvs(kvs[i..]))
    {
      assert kvs[i..][0] == kvs[i] && kvs[i..][1..] == kvs[i + 1..];
      match Str.SplitOnce(kvs[i], '=') {
        case None =>
          return Err("invalid kv: " + kvs[i]);
        case Some((key, value)) =>
          var p := LogControl.KV(key, value);
          match ValidKvs(kvs[i + 1..]) {
            case Ok(rest) => assert result + ([p] + rest) == (result + [p]) + rest;
            case Err(_) =>
          }
          result := result + [p];
      }
    }
    assert kvs[|kvs|..] == [];
    assert result + [] == result;
    return Ok(result);
  }

  /** The arguments are accepted exactly when each has a '=', and then each pair spells its argument, in order. */
  lemma {:induction false} ValidKvsOk(kvs: seq<string>)
    ensures ValidKvs(kvs).Ok? <==> forall i :: 0 <= i < |kvs| ==> '=' in kvs[i]
    ensures ValidKvs(kvs).Ok? ==> |ValidKvs(kvs).value| == |kvs|
    ensures ValidKvs(kvs).Ok? ==> forall i :: 0 <= i < |kvs| ==>
      (var p := ValidKvs(kvs).value[i]; kvs[i] == p.key + ['='] + p.value && '=' !in p.key)
  {
    if kvs != [] {
      ValidKvsOk(kvs[1..]);
      if '=' in kvs[0] && ValidKvs(kvs[1..]).Ok? {
        var ps := ValidKvs(kvs).value;
        forall i | 0 <= i < |kvs|
          ensures kvs[i] == ps[i].key + ['='] + ps[i].value && '=' !in ps[i].key
        {
          if i > 0 {
            assert ps[i] == ValidKvs(kvs[1..]).value[i - 1];
            assert kvs[i] == kvs[1..][i - 1];
          }
        }
      }
      if !(forall i :: 0 <= i < |kvs[1..]| ==> '=' in kvs[1..][i]) {
        var i :| 0 <= i < |kvs[1..]| && '=' !in kvs[1..][i];
        assert kvs[i + 1] == kvs[1..][i];
      }
    }
  }

  /** When argument k is the first without '=', the error names it. */
  lemma {:induction false} ValidKvsErr(kvs: seq<string>, k: nat)
    requires k < |kvs| && '=' !in kvs[k]
    requires forall j :: 0 <= j < k ==> '=' in kvs[j]
    ensures ValidKvs(kvs) == Err("invalid kv: " + kvs[k])
  {
    if k > 0 {
      forall j | 0 <= j < k - 1
        ensures '=' in kvs[1..][j]
      {
        assert kvs[1..][j] == kvs[j + 1];
      }
      ValidKvsErr(kvs[1..], k - 1);
      assert '=' in kvs[0];
    }
  }

  /** A value may hold '=' of its own: only the first one splits. */
  lemma SplitsAtFirst()
    ensures ValidKvs(["a=b=c"]) == Ok([LogControl.KV("a", "b=c")])
  {
    SplitKvJoined(LogControl.KV("a", "b=c"));
    assert "a=b=c" == "a" + ['='] + "b=c";
    assert ["a=b=c"][1..] == [];
    assert [LogControl.KV("a", "b=c")] + [] == [LogControl.KV("a", "b=c")];
  }

  /** `OutputLogFormat`. */
  datatype OutputLogFormat = Text | Json

  /** The name each format is given by on the command line. */
  function FormatName(f: OutputLogFormat): string
  {
    match f
    case Text => "text"
    case Json => "json"
  }

  /** `OutputLogFormat::try_from`: "text" and "json" name the two formats; anything else is refused by name. */
  function TryFrom(value: string): (r: Result<OutputLogFormat, string>)
    ensures r.Ok? <==> value == "text" || value == "json"
    ensures r.Ok? ==> FormatName(r.value) == value
    ensures r.Err? ==> r.error == "unknown log format: " + value
  {
    if value == "text" then Ok(Text)
    else if value == "json" then Ok(Json)
    else Err("unknown log format: " + value)
  }

  /** Every format is read back from its name. */
  lemma TryFromName(f: OutputLogFormat)
    ensures TryFrom(FormatName(f)) == Ok(f)
  {
    assert "text"[0] != "json"[0];
  }

  /** The order a `HashMap` visits its entries in: every key exactly once. */
  predicate IterationOrder(log: map<string, string>, order: seq<string>)
  {
    (forall i :: 0 <= i < |order| ==> order[i] in log)
    && (forall k :: k in log ==> k in order)
    && (forall i, j :: 0 <= i < j < |order| ==> order[i] != order[j])
  }

  predicate Listed(log: map<string, string>, order: seq<string>)
  {
    forall i :: 0 <= i < |order| ==> order[i] in log
  }

  /** Keys starting with "__" are loggerd's own and are not printed as pairs. */
  predicate Internal(k: string)
  {
    Str.StartsWith(k, "__")
  }

  /** ` key=value` for a printed key, nothing for an internal one. */
  function Pair(log: map<string, string>, k: string): string
    requires k in log
  {
    if Internal(k) then "" else " " + k + "=" + log[k]
  }

  /** The pairs of a log in the order its keys are visited. */
  function KvString(log: map<string, string>, order: seq<string>): string
    requires Listed(log, order)
  {
    if order == [] then ""
    else KvString(log, order[..|order| - 1]) + Pair(log, order[|order| - 1])
  }

  /** The timestamp, or "<no timestamp>" when the log has none. */
  function Timestamp(log: map<string, string>): string
  {
    if "__timestamp" in log then log["__timestamp"] else "<no timestamp>"
  }

  /** The message, or "<no message>" when the log has none. */
  function Message(log: map<string, string>): string
  {
    if "__msg" in log then log["__msg"] else "<no message>"
  }

  /** A log in the text format: the timestamp, the pairs, a space and the message. */
  function TextLine(log: map<string, string>, order: seq<string>): string
    requires Listed(log, order)
  {
    Timestamp(log) + KvString(log, order) + " " + Message(log)
  }

  /** `format_log`: JSON through the serialiser, text by the loop over the entries. */
  method FormatLog(format: OutputLogFormat, log: map<string, string>, order: seq<string>, toJson: map<string, string> -> string)
    returns (s: string)
    requires IterationOrder(log, order)
    ensures format == Json ==> s == toJson(log)
    ensures format == Text ==> s == TextLine(log, order)
  {
    match format {
      case Json =>
        return toJson(log);
      case Text =>
        var kvString := "";
        for i := 0 to |order|
          invariant kvString == KvString(log, order[..i])
        {
          KvStringStep(log, order, i);
          var k := order[i];
          if Str.StartsWith(k, "__") {
            continue;
          }
          kvString := kvString + (" " + k + "=" + log[k]);
        }
        assert order[..|order|] == order;
        return Timestamp(log) + kvString + " " + Message(log);
    }
  }

  /** One more key visited adds its pair. */
  lemma KvStringStep(log: map<string, string>, order: seq<string>, i: nat)
    requires Listed(log, order) && i < |order|
    ensures Listed(log, order[..i]) && Listed(log, order[..i + 1])
    ensures KvString(log, order[..i + 1]) == KvString(log, order[..i]) + Pair(log, order[i])
  {
    assert order[..i + 1][..i] == order[..i];
  }

  lemma ListedAppend(log: map<string, string>, a: seq<string>, b: seq<string>)
    requires Listed(log, a) && Listed(log, b)
    ensures Listed(log, a + b)
  {
    forall i | 0 <= i < |a + b|
      ensures (a + b)[i] in log
    {
      if i >= |a| {
        assert (a + b)[i] == b[i - |a|];
      }
    }
  }

  /** The pairs of two runs of keys are the pairs of the first, then those of the second. */
  lemma {:induction false} KvStringAppend(log: map<string, string>, a: seq<string>, b: seq<string>)
    requires Listed(log, a) && Listed(log, b)
    ensures Listed(log, a + b)
    ensures KvString(log, a + b) == KvString(log, a) + KvString(log, b)
    decreases |b|
  {
    ListedAppend(log, a, b);
    if b == [] {
      assert a + b == a;
    } else {
      var init := b[..|b| - 1];
      var last := b[|b| - 1];
      assert Listed(log, init);
      KvStringAppend(log, a, init);
      assert (a + b)[..|a + b| - 1] == a + init;
      assert (a + b)[|a + b| - 1] == last;
      assert KvString(log, a + b) == KvString(log, a + init) + Pair(log, last);
      assert KvString(log, b) == KvString(log, init) + Pair(log, last);
    }
  }

  /** The keys that are printed, in visiting order. */
  function Shown(order: seq<string>): (r: seq<string>)
    ensures forall i :: 0 <= i < |r| ==> !Internal(r[i]) && r[i] in order
  {
    if order == [] then []
    else if Internal(order[|order| - 1]) then Shown(order[..|order| - 1])
    else Shown(order[..|order| - 1]) + [order[|order| - 1]]
  }

  /** A printed key is one of the shown keys. */
  lemma ShownListed(log: map<string, string>, order: seq<string>)
    requires Listed(log, order)
    ensures Listed(log, Shown(order))
  {
  }

  /**
   * The pairs are exactly ` key=value` for each key not starting with "__", in
   * visiting order: the internal keys contribute nothing.
   */
  lemma {:induction false} KvStringShown(log: map<string, string>, order: seq<string>)
    requires Listed(log, order)
    ensures Listed(log, Shown(order))
    ensures KvString(log, order) == KvString(log, Shown(order))
    ensures forall i :: 0 <= i < |Shown(order)| ==> Pair(log, Shown(order)[i]) == " " + Shown(order)[i] + "=" + log[Shown(order)[i]]
  {
    ShownListed(log, order);
    if order != [] {
      var init := order[..|order| - 1];
      var k := order[|order| - 1];
      KvStringShown(log, init);
      if !Internal(k) {
        KvStringAppend(log, Shown(init), [k]);
        assert [k][..0] == [];
      }
    }
  }

  /** Changing a "__" key other than the timestamp and the message leaves the text line as it is. */
  lemma {:induction false} InternalHidden(log: map<string, string>, order: seq<string>, k: string, v: string)
    requires Listed(log, order) && Internal(k) && k != "__timestamp" && k != "__msg"
    ensures Listed(log[k := v], order)
    ensures TextLine(log[k := v], order) == TextLine(log, order)
  {
    KvStringInternal(log, order, k, v);
  }

  lemma {:induction false} KvStringInternal(log: map<string, string>, order: seq<string>, k: string, v: string)
    requires Listed(log, order) && Internal(k)
    ensures Listed(log[k := v], order)
    ensures KvString(log[k := v], order) == KvString(log, order)
  {
    if order != [] {
      KvStringInternal(log, order[..|order| - 1], k, v);
    }
  }

  /** An empty log prints both placeholders and no pairs. */
  lemma EmptyLog()
    ensures TextLine(map[], []) == "<no timestamp> <no message>"
  {
  }

  /** A key of the visiting order that is printed is among the shown keys. */
  lemma {:induction false} ShownHas(order: seq<string>, k: string)
    requires k in order && !Internal(k)
    ensures k in Shown(order)
  {
    var init := order[..|order| - 1];
    if order[|order| - 1] != k {
      assert k in init by {
        var i :| 0 <= i < |order| && order[i] == k;
        assert init[i] == k;
      }
      ShownHas(init, k);
    }
  }

  /** A visiting order without repeats shows each key once. */
  lemma {:induction false} ShownDistinct(order: seq<string>)
    requires forall i, j :: 0 <= i < j < |order| ==> order[i] != order[j]
    ensures forall i, j :: 0 <= i < j < |Shown(order)| ==> Shown(order)[i] != Shown(order)[j]
  {
    if order != [] {
      var init := order[..|order| - 1];
      var k := order[|order| - 1];
      ShownDistinct(init);
      assert k !in init by {
        forall i | 0 <= i < |init| ensures init[i] != k {
          assert order[i] != order[|order| - 1];
        }
      }
    }
  }

  /** When one key alone is not internal, every visiting order shows that key alone. */
  lemma ShownOnly(log: map<string, string>, order: seq<string>, k: string)
    requires IterationOrder(log, order) && k in log && !Internal(k)
    requires forall k' :: k' in log && k' != k ==> Internal(k')
    ensures Shown(order) == [k]
  {
    var sh := Shown(order);
    assert forall i :: 0 <= i < |sh| ==> sh[i] == k;
    ShownHas(order, k);
    ShownDistinct(order);
    if |sh| >= 2 {
      FirstTwoDiffer(sh);
      assert false;
    }
  }

  lemma FirstTwoDiffer(s: seq<string>)
    requires |s| >= 2 && forall i, j :: 0 <= i < j < |s| ==> s[i] != s[j]
    ensures s[0] != s[1]
  {
  }

  /** A log whose one printed key is k prints its timestamp, that pair and its message, in every visiting order. */
  lemma SinglePairLine(log: map<string, string>, order: seq<string>, k: string)
    requires IterationOrder(log, order) && k in log && !Internal(k)
    requires forall k' :: k' in log && k' != k ==> Internal(k')
    ensures TextLine(log, order) == Timestamp(log) + (" " + k + "=" + log[k]) + " " + Message(log)
  {
    ShownOnly(log, order, k);
    KvStringShown(log, order);
    assert [k][..0] == [];
    assert KvString(log, [k]) == " " + k + "=" + log[k];
    assert KvString(log, order) == " " + k + "=" + log[k];
  }

  /**
   * A log with a timestamp, a message and one pair prints the timestamp
   * first and the message last, whatever order its keys are visited in.
   */
  lemma OnePair(order: seq<string>)
    requires IterationOrder(map["__timestamp" := "t", "__msg" := "m", "a" := "1"], order)
    ensures TextLine(map["__timestamp" := "t", "__msg" := "m", "a" := "1"], order) == "t a=1 m"
  {
    var log := map["__timestamp" := "t", "__msg" := "m", "a" := "1"];
    assert "__timestamp"[..2] == "__" && "__msg"[..2] == "__" && "a" != "__";
    assert forall k' :: k' in log && k' != "a" ==> Internal(k');
    SinglePairLine(log, order, "a");
    assert Timestamp(log) == "t" && Message(log) == "m" && log["a"] == "1";
  }
}
