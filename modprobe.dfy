// modprobe's dependency resolution: the modules.dep and modules.name line
// formats, and the round-by-round (Kahn) ordering of the modules to load so
// that every module comes after the modules it depends on.
module Modprobe {
  import opened Wrappers
  import Text
  import G = Graph

  /** Module name to the names of the modules it depends on. */
  type DepMap = map<string, seq<string>>

  /** A module's dependencies, none for a module the map does not know (`remove(..).unwrap_or(Vec::new())`). */
  function Lookup(all: DepMap, m: string): (ds: seq<string>)
    ensures m !in all ==> ds == []
    ensures m in all ==> ds == all[m]
  {
    if m in all then all[m] else []
  }

  // ---------------------------------------------------------------------------
  // Line formats

  /** The key of a "key:value" line, cut at the first ':'. */
  function KeyOf(line: string): (r: Option<string>)
    ensures r.None? <==> ':' !in line
  {
    match Text.SplitOnce(line, ':')
    case None => None
    case Some((k, v)) => Some(k)
  }

  /**
   * The map the lines build, later lines overwriting earlier ones with the
   * same key, and lines without ':' skipped.
   */
  ghost function ColonEntries<V>(lines: seq<string>, conv: string -> V): map<string, V>
    decreases |lines|
  {
    if lines == [] then map[]
    else
      var before := ColonEntries(lines[..|lines| - 1], conv);
      match Text.SplitOnce(lines[|lines| - 1], ':')
      case None => before
      case Some((k, v)) => before[k := conv(v)]
  }

  /** One more line: its entry, when it has a ':', replaces any before it with the same key. */
  lemma ColonEntriesSnoc<V>(lines: seq<string>, i: nat, conv: string -> V)
    requires i < |lines|
    ensures ColonEntries(lines[..i + 1], conv) ==
      match Text.SplitOnce(lines[i], ':')
      case None => ColonEntries(lines[..i], conv)
      case Some((k, v)) => ColonEntries(lines[..i], conv)[k := conv(v)]
  {
    assert lines[..i + 1][..i] == lines[..i];
  }

  /** The value part of a "key:value" line, converted. */
  ghost function ValueOf<V>(line: string, conv: string -> V): V
    requires ':' in line
  {
    match Text.SplitOnce(line, ':')
    case Some((k, v)) => conv(v)
  }

  /** A key is in the map exactly when some line carries it. */
  lemma {:induction false} ColonEntriesKeys<V>(lines: seq<string>, conv: string -> V)
    ensures forall k :: k in ColonEntries(lines, conv) ==> exists i :: 0 <= i < |lines| && KeyOf(lines[i]) == Some(k)
    ensures forall i :: 0 <= i < |lines| && KeyOf(lines[i]).Some? ==> KeyOf(lines[i]).value in ColonEntries(lines, conv)
    decreases |lines|
  {
    if lines != [] {
      var front := lines[..|lines| - 1];
      ColonEntriesKeys(front, conv);
      forall i | 0 <= i < |front|
        ensures lines[i] == front[i]
      {
      }
    }
  }

  /** The value for a key comes from the last line that carries it. */
  lemma {:induction false} ColonEntriesLastWins<V>(lines: seq<string>, conv: string -> V, i: nat)
    requires i < |lines| && KeyOf(lines[i]).Some?
    requires forall j :: i < j < |lines| ==> KeyOf(lines[j]) != KeyOf(lines[i])
    ensures KeyOf(lines[i]).value in ColonEntries(lines, conv)
      && ColonEntries(lines, conv)[KeyOf(lines[i]).value] == ValueOf(lines[i], conv)
    decreases |lines|
  {
    var front := lines[..|lines| - 1];
    if i < |lines| - 1 {
      assert lines[i] == front[i];
      ColonEntriesLastWins(front, conv, i);
      ColonEntriesKeys(front, conv);
    }
  }

  /** The dependency list after the ':', split on ASCII whitespace. */
  function DependencyList(deps: string): (ds: seq<string>)
    ensures forall i :: 0 <= i < |ds| ==> |ds[i]| > 0
  {
    Text.SplitWords(deps, Text.IsAsciiWhitespace)
  }

  /** `load_mod_dependencies`, on the text of modules.dep. */
  method LoadModDependencies(file: string) returns (found: DepMap)
    ensures found == ColonEntries(Text.Lines(file), DependencyList)
  {
    var lines := Text.Lines(file);
    found := map[];
    var i := 0;
    while i < |lines|
      invariant 0 <= i <= |lines|
      invariant found == ColonEntries(lines[..i], DependencyList)
    {
      ColonEntriesSnoc(lines, i, DependencyList);
      match Text.SplitOnce(lines[i], ':') {
        case None =>
        case Some((path, deps)) =>
          found := found[path := DependencyList(deps)];
      }
      i := i + 1;
    }
    assert lines[..|lines|] == lines;
  }

  /** `load_module_names`, on the text of modules.name: module name to path. */
  method LoadModuleNames(file: string) returns (out: map<string, string>)
    ensures out == ColonEntries(Text.Lines(file), (p: string) => p)
  {
    var lines := Text.Lines(file);
    out := map[];
    var i := 0;
    while i < |lines|
      invariant 0 <= i <= |lines|
      invariant out == ColonEntries(lines[..i], (p: string) => p)
    {
      ColonEntriesSnoc(lines, i, (p: string) => p);
      match Text.SplitOnce(lines[i], ':') {
        case None =>
        case Some((name, path)) =>
          out := out[name := path];
      }
      i := i + 1;
    }
    assert lines[..|lines|] == lines;
  }

  // ---------------------------------------------------------------------------
  // Filtering dependency lists

  /** The names of v not in gone, in their order: the `retain` for each name in gone. */
  function Without(v: seq<string>, gone: seq<string>): (r: seq<string>)
    ensures |r| <= |v|
  {
    if v == [] then []
    else (if v[0] in gone then [] else [v[0]]) + Without(v[1..], gone)
  }

  /** Exactly the names of v outside gone are kept. */
  lemma {:induction false} WithoutMembers(v: seq<string>, gone: seq<string>)
    ensures forall x :: x in Without(v, gone) ==> x in v && x !in gone
    ensures forall x :: x in v && x !in gone ==> x in Without(v, gone)
  {
    if v != [] {
      WithoutMembers(v[1..], gone);
      assert v == [v[0]] + v[1..];
    }
  }

  /** Removing names in two steps removes them all. */
  lemma {:induction false} WithoutAppend(v: seq<string>, a: seq<string>, b: seq<string>)
    ensures Without(Without(v, a), b) == Without(v, a + b)
  {
    if v != [] {
      WithoutAppend(v[1..], a, b);
      var head := if v[0] in a then [] else [v[0]];
      WithoutConcat(head, Without(v[1..], a), b);
    }
  }

  lemma {:induction false} WithoutConcat(x: seq<string>, y: seq<string>, gone: seq<string>)
    ensures Without(x + y, gone) == Without(x, gone) + Without(y, gone)
  {
    if x != [] {
      assert (x + y)[1..] == x[1..] + y;
      WithoutConcat(x[1..], y, gone);
      var head := if x[0] in gone then [] else [x[0]];
      assert Without(x + y, gone) == head + Without(x[1..] + y, gone);
      assert head + (Without(x[1..], gone) + Without(y, gone)) == (head + Without(x[1..], gone)) + Without(y, gone);
    } else {
      assert x + y == y;
    }
  }

  /** `v.retain(|s| s != name)` for each name in turn. */
  method RemoveNames(v: seq<string>, names: seq<string>) returns (w: seq<string>)
    ensures w == Without(v, names)
  {
    w := v;
    var i := 0;
    assert Without(v, []) == v by {
      WithoutNothing(v);
    }
    while i < |names|
      invariant 0 <= i <= |names|
      invariant w == Without(v, names[..i])
    {
      WithoutAppend(v, names[..i], [names[i]]);
      assert names[..i] + [names[i]] == names[..i + 1];
      w := Without(w, [names[i]]);
      i := i + 1;
    }
    assert names[..|names|] == names;
  }

  lemma {:induction false} WithoutNothing(v: seq<string>)
    ensures Without(v, []) == v
  {
    if v != [] {
      WithoutNothing(v[1..]);
    }
  }

  // ---------------------------------------------------------------------------
  // Load orders

  /** Every module in order comes after each of its dependencies. */
  ghost predicate LoadOrder(order: seq<string>, deps: DepMap)
  {
    forall i :: 0 <= i < |order| ==> order[i] in deps && forall d :: d in deps[order[i]] ==> d in order[..i]
  }

  /** A load order of exactly the modules of deps, each once. */
  ghost predicate ValidOrder(order: seq<string>, deps: DepMap)
  {
    G.Distinct(order) && (forall m :: m in deps ==> m in order) && LoadOrder(order, deps)
  }

  /**
   * The state between rounds: the loaded modules, in load order, and the
   * rest, each with the dependencies not yet loaded.
   */
  ghost predicate Progress(deps0: DepMap, deps: DepMap, loaded: seq<string>)
  {
    && G.Distinct(loaded)
    && (forall m :: m in loaded ==> m in deps0 && m !in deps)
    && (forall m :: m in deps ==> m in deps0 && deps[m] == Without(deps0[m], loaded))
    && (forall m :: m in deps0 ==> m in deps || m in loaded)
    && LoadOrder(loaded, deps0)
  }

  /** No round can load anything: every remaining module still waits for one that is not loaded. */
  ghost predicate Stuck(deps0: DepMap, loaded: seq<string>, rest: DepMap)
  {
    Progress(deps0, rest, loaded) && rest != map[] && forall m :: m in rest ==> rest[m] != []
  }

  /** Every module depends only on modules of the map. */
  ghost predicate Closed(deps: DepMap)
  {
    forall m, d :: m in deps && d in deps[m] ==> d in deps
  }

  /** A load order of all the modules exists only when the map is closed. */
  lemma ValidOrderClosed(order: seq<string>, deps: DepMap)
    requires ValidOrder(order, deps)
    ensures Closed(deps)
  {
    forall m, d | m in deps && d in deps[m]
      ensures d in deps
    {
      var i :| 0 <= i < |order| && order[i] == m;
      assert d in order[..i];
      var j :| 0 <= j < i && order[j] == d;
      assert order[j] in deps;
    }
  }

  /** While modules remain, every load order of all the modules shows a remaining module that is ready. */
  lemma ReadyExists(deps0: DepMap, rest: DepMap, loaded: seq<string>)
    requires Progress(deps0, rest, loaded) && rest != map[]
    ensures forall order :: ValidOrder(order, deps0) ==> exists m :: m in rest && rest[m] == []
  {
    forall order | ValidOrder(order, deps0)
      ensures exists m :: m in rest && rest[m] == []
    {
      var some :| some in rest;
      var k :| 0 <= k < |order| && order[k] == some;
      var i0 := FirstIn(order, rest, k);
      var m := order[i0];
      forall d | d in deps0[m]
        ensures d in loaded
      {
        assert d in order[..i0];
        var j :| 0 <= j < i0 && order[j] == d;
        assert order[j] in deps0;
      }
      WithoutAll(deps0[m], loaded);
    }
  }

  /** The first position of order holding a key of rest, given that position k does. */
  lemma FirstIn(order: seq<string>, rest: DepMap, k: nat) returns (i: nat)
    requires k < |order| && order[k] in rest
    ensures i <= k && order[i] in rest
    ensures forall j :: 0 <= j < i ==> order[j] !in rest
  {
    i := 0;
    while order[i] !in rest
      invariant i <= k
      invariant forall j :: 0 <= j < i ==> order[j] !in rest
      decreases k - i
    {
      i := i + 1;
    }
  }

  lemma {:induction false} WithoutAll(v: seq<string>, gone: seq<string>)
    requires forall x :: x in v ==> x in gone
    ensures Without(v, gone) == []
  {
    if v != [] {
      WithoutAll(v[1..], gone);
    }
  }

  /** A stuck state admits no load order of all the modules: the error is justified. */
  lemma StuckHasNoOrder(deps0: DepMap, loaded: seq<string>, rest: DepMap)
    requires Stuck(deps0, loaded, rest)
    ensures forall order :: !ValidOrder(order, deps0)
  {
    ReadyExists(deps0, rest, loaded);
  }

  /** `deps.extract_if(|_, v| v.is_empty())`: the ready modules, in the map's order, and the rest. */
  method ExtractReady(deps: DepMap) returns (ready: seq<string>, rest: DepMap)
    ensures G.Distinct(ready)
    ensures forall m :: m in ready ==> m in deps && deps[m] == []
    ensures forall m :: m in deps && deps[m] == [] ==> m in ready
    ensures forall m :: m in rest ==> m in deps && deps[m] != [] && rest[m] == deps[m]
    ensures forall m :: m in deps && deps[m] != [] ==> m in rest
  {
    ready := [];
    rest := map[];
    var todo := deps.Keys;
    while todo != {}
      invariant todo <= deps.Keys
      invariant G.Distinct(ready)
      invariant forall m :: m in ready ==> m in deps && deps[m] == [] && m !in todo
      invariant forall m :: m in rest ==> m in deps && deps[m] != [] && rest[m] == deps[m] && m !in todo
      invariant forall m :: m in deps && m !in todo ==> m in ready || m in rest
      decreases todo
    {
      var m :| m in todo;
      if deps[m] == [] {
        ready := ready + [m];
      } else {
        rest := rest[m := deps[m]];
      }
      todo := todo - {m};
    }
  }

  /** The `retain` over every remaining entry: the names just loaded are crossed off each list. */
  method RemoveLoaded(deps: DepMap, loadedNow: seq<string>) returns (updated: DepMap)
    ensures updated.Keys == deps.Keys
    ensures forall m :: m in deps ==> updated[m] == Without(deps[m], loadedNow)
  {
    updated := deps;
    var todo := deps.Keys;
    while todo != {}
      invariant todo <= deps.Keys && updated.Keys == deps.Keys
      invariant forall m :: m in deps && m !in todo ==> updated[m] == Without(deps[m], loadedNow)
      invariant forall m :: m in todo ==> updated[m] == deps[m]
      decreases todo
    {
      var m :| m in todo;
      var v := RemoveNames(updated[m], loadedNow);
      updated := updated[m := v];
      todo := todo - {m};
    }
  }

  /** One round keeps the progress invariant. */
  lemma RoundStep(deps0: DepMap, deps: DepMap, loaded: seq<string>, ready: seq<string>, rest: DepMap, updated: DepMap)
    requires Progress(deps0, deps, loaded)
    requires G.Distinct(ready)
    requires forall m :: m in ready ==> m in deps && deps[m] == []
    requires forall m :: m in deps && deps[m] == [] ==> m in ready
    requires forall m :: m in rest ==> m in deps && deps[m] != [] && rest[m] == deps[m]
    requires forall m :: m in deps && deps[m] != [] ==> m in rest
    requires updated.Keys == rest.Keys
    requires forall m :: m in rest ==> updated[m] == Without(rest[m], ready)
    ensures Progress(deps0, updated, loaded + ready)
  {
    var next := loaded + ready;
    forall m | m in updated
      ensures updated[m] == Without(deps0[m], next)
    {
      WithoutAppend(deps0[m], loaded, ready);
    }
    forall m | m in ready
      ensures m in deps0 && Without(deps0[m], loaded) == []
    {
    }
    RoundLoadOrder(deps0, loaded, ready);
  }

  /** Modules whose dependencies are all loaded can be loaded next, in any order. */
  lemma RoundLoadOrder(deps0: DepMap, loaded: seq<string>, ready: seq<string>)
    requires LoadOrder(loaded, deps0)
    requires forall m :: m in ready ==> m in deps0 && Without(deps0[m], loaded) == []
    ensures LoadOrder(loaded + ready, deps0)
  {
    var next := loaded + ready;
    forall i | 0 <= i < |next|
      ensures next[i] in deps0 && forall d :: d in deps0[next[i]] ==> d in next[..i]
    {
      if i < |loaded| {
        assert next[..i] == loaded[..i];
      } else {
        var m := ready[i - |loaded|];
        assert m in ready;
        WithoutMembers(deps0[m], loaded);
        assert next[..i][..|loaded|] == loaded;
        forall d | d in deps0[m]
          ensures d in next[..i]
        {
          assert d in loaded;
        }
      }
    }
  }

  /**
   * The round loop of `find_modules_to_load`: each round takes out every
   * module with no dependency left, crosses them off the other lists and
   * appends them to the output; a round with nothing ready while modules
   * remain reports the remaining map.
   */
  method Schedule(deps0: DepMap) returns (r: Result<seq<string>, DepMap>)
    ensures r.Ok? ==> ValidOrder(r.value, deps0)
    ensures r.Err? ==> exists loaded :: Stuck(deps0, loaded, r.error)
    ensures r.Err? ==> forall order :: !ValidOrder(order, deps0)
  {
    var deps := deps0;
    var out := [];
    ProgressStart(deps0);
    while deps != map[]
      invariant Progress(deps0, deps, out)
      decreases |deps|
    {
      var ready, rest := ExtractReady(deps);
      if ready == [] {
        NothingReady(deps0, deps, out, rest);
        return Err(deps);
      }
      var updated := RemoveLoaded(rest, ready);
      RoundStep(deps0, deps, out, ready, rest, updated);
      RoundShrinks(deps, ready, rest, updated);
      deps := updated;
      out := out + ready;
    }
    return Ok(out);
  }

  lemma ProgressStart(deps0: DepMap)
    ensures Progress(deps0, deps0, [])
  {
    forall m | m in deps0
      ensures deps0[m] == Without(deps0[m], [])
    {
      WithoutNothing(deps0[m]);
    }
  }

  /** A round with nothing ready leaves the state stuck, and the error is justified. */
  lemma NothingReady(deps0: DepMap, deps: DepMap, loaded: seq<string>, rest: DepMap)
    requires Progress(deps0, deps, loaded) && deps != map[]
    requires forall m :: m in deps ==> deps[m] != []
    ensures Stuck(deps0, loaded, deps)
    ensures forall order :: !ValidOrder(order, deps0)
  {
    StuckHasNoOrder(deps0, loaded, deps);
  }

  lemma SubsetCardinality(a: set<string>, b: set<string>)
    requires a <= b
    ensures |a| <= |b|
    decreases |a|
  {
    if a != {} {
      var x :| x in a;
      SubsetCardinality(a - {x}, b - {x});
    }
  }

  /** A round that loads something leaves fewer modules. */
  lemma RoundShrinks(deps: DepMap, ready: seq<string>, rest: DepMap, updated: DepMap)
    requires |ready| > 0 && ready[0] in deps
    requires forall m :: m in rest ==> m in deps
    requires ready[0] !in rest
    requires updated.Keys == rest.Keys
    ensures |updated| < |deps|
  {
    var smaller := deps.Keys - {ready[0]};
    assert |smaller| == |deps.Keys| - 1;
    SubsetCardinality(rest.Keys, smaller);
  }

  // ---------------------------------------------------------------------------
  // Seeding and the whole resolution

  /**
   * The seeding loop as written: only the requested module is ever put on the
   * scan list, so its dependencies never reach the map.
   */
  method SeedAsWritten(all: DepMap, root: string) returns (deps: DepMap)
    ensures deps == map[root := Lookup(all, root)]
  {
    var remaining := all;
    deps := map[];
    var scan := [root];
    while scan != []
      invariant (deps == map[] && scan == [root]) || (deps == map[root := Lookup(all, root)] && scan == [])
      invariant remaining == all || deps != map[]
      decreases |scan|
    {
      var m := scan[|scan| - 1];
      scan := scan[..|scan| - 1];
      if m in deps {
        continue;
      }
      deps := deps[m := Lookup(remaining, m)];
      remaining := remaining - {m};
    }
  }

  /** With the seeding as written the only modules loaded are the requested one, and only when it has no dependency. */
  method FindModulesToLoadAsWritten(modulesDep: string, root: string) returns (r: Result<seq<string>, DepMap>)
    ensures r.Ok? <==> Lookup(ColonEntries(Text.Lines(modulesDep), DependencyList), root) == []
    ensures r.Ok? ==> r.value == [root]
  {
    var all := LoadModDependencies(modulesDep);
    var deps := SeedAsWritten(all, root);
    r := Schedule(deps);
    if r.Ok? {
      ValidOrderClosed(r.value, deps);
      OnlyRoot(r.value, deps, root);
    }
    if Lookup(all, root) == [] {
      assert ValidOrder([root], deps);
    }
  }

  lemma OnlyRoot(order: seq<string>, deps: DepMap, root: string)
    requires deps.Keys == {root} && ValidOrder(order, deps)
    ensures order == [root] && deps[root] == []
  {
    assert root in order;
    assert forall i :: 0 <= i < |order| ==> order[i] == root;
    G.DistinctCardinality(order);
    assert (set x | x in order) == {root};
    assert |order| == 1;
    assert order[0] == root;
    assert order == [root];
    assert order[..0] == [];
    assert forall d :: d in deps[order[0]] ==> d in order[..0];
    WithoutAll(deps[root], order[..0]);
    WithoutNothing(deps[root]);
  }

  /** A module with a dependency other than itself cannot be loaded by the seeding as written. */
  lemma AsWrittenNotClosed(all: DepMap, root: string, d: string)
    requires d in Lookup(all, root) && d != root
    ensures !Closed(map[root := Lookup(all, root)])
  {
    var seeded := map[root := Lookup(all, root)];
    assert root in seeded && d in seeded[root] && d !in seeded;
  }

  /**
   * The seeding loop as evidently intended: every module taken off the scan
   * list puts its own dependencies on it, so the map ends up closed.
   */
  method SeedClosure(all: DepMap, root: string) returns (deps: DepMap)
    ensures Seeded(deps, all, root)
    ensures forall m :: m in deps <==> Reaches(all, root, m)
  {
    ReachesRoot(all, root);
    var remaining := all;
    deps := map[];
    var scan := [root];
    while scan != []
      invariant forall m :: m in deps ==> deps[m] == Lookup(all, m)
      invariant forall m :: m in remaining <==> m in all && m !in deps
      invariant forall m :: m in remaining ==> remaining[m] == all[m]
      invariant root in deps || root in scan
      invariant Covered(deps, scan)
      invariant forall m :: m in deps ==> Reaches(all, root, m)
      invariant forall x :: x in scan ==> Reaches(all, root, x)
      decreases |remaining|, |scan|
    {
      var m := scan[|scan| - 1];
      if m in deps {
        ScanSkip(deps, scan);
        scan := scan[..|scan| - 1];
        continue;
      }
      ScanSeed(deps, scan, Lookup(remaining, m));
      ScanReaches(all, root, scan, Lookup(remaining, m));
      scan := scan[..|scan| - 1];
      var ds := Lookup(remaining, m);
      if m in remaining {
        assert (remaining - {m}).Keys == remaining.Keys - {m};
        assert |remaining.Keys - {m}| < |remaining.Keys|;
      }
      deps := deps[m := ds];
      remaining := remaining - {m};
      scan := scan + ds;
    }
    assert Seeded(deps, all, root);
    forall m | Reaches(all, root, m)
      ensures m in deps
    {
      SeededHoldsReachable(deps, all, root, m);
    }
  }

  /** The dependencies of the last module scanned are reachable, like the rest of the scan list. */
  lemma ScanReaches(all: DepMap, root: string, scan: seq<string>, ds: seq<string>)
    requires scan != [] && ds == Lookup(all, scan[|scan| - 1])
    requires forall x :: x in scan ==> Reaches(all, root, x)
    ensures forall x :: x in scan[..|scan| - 1] + ds ==> Reaches(all, root, x)
  {
    forall d | d in ds
      ensures Reaches(all, root, d)
    {
      ReachesStep(all, root, scan[|scan| - 1], d);
    }
  }

  /** Every dependency of a seeded module is seeded or still on the scan list. */
  ghost predicate Covered(deps: DepMap, scan: seq<string>)
  {
    forall m, d :: m in deps && d in deps[m] ==> d in deps || d in scan
  }

  /** Taking a seeded module off the scan list keeps the map covered. */
  lemma ScanSkip(deps: DepMap, scan: seq<string>)
    requires scan != [] && scan[|scan| - 1] in deps && Covered(deps, scan)
    ensures Covered(deps, scan[..|scan| - 1])
  {
    assert scan == scan[..|scan| - 1] + [scan[|scan| - 1]];
  }

  /** Seeding the last module on the scan list with ds, and scanning ds instead, keeps the map covered. */
  lemma ScanSeed(deps: DepMap, scan: seq<string>, ds: seq<string>)
    requires scan != [] && Covered(deps, scan)
    ensures Covered(deps[scan[|scan| - 1] := ds], scan[..|scan| - 1] + ds)
  {
    assert scan == scan[..|scan| - 1] + [scan[|scan| - 1]];
  }

  /** deps holds the requested module, is closed, and takes every list from all. */
  ghost predicate Seeded(deps: DepMap, all: DepMap, root: string)
  {
    root in deps && Closed(deps) && forall m :: m in deps ==> deps[m] == Lookup(all, m)
  }

  /** Each module of p is a dependency of the one before it. */
  ghost predicate DependencyPath(all: DepMap, p: seq<string>)
  {
    p != [] && forall i :: 0 < i < |p| ==> p[i] in Lookup(all, p[i - 1])
  }

  /** m is root, or a dependency of a dependency ... of root. */
  ghost predicate Reaches(all: DepMap, root: string, m: string)
  {
    exists p :: DependencyPath(all, p) && p[0] == root && p[|p| - 1] == m
  }

  lemma ReachesRoot(all: DepMap, root: string)
    ensures Reaches(all, root, root)
  {
    assert DependencyPath(all, [root]);
  }

  /** A dependency of a reachable module is reachable. */
  lemma ReachesStep(all: DepMap, root: string, m: string, d: string)
    requires Reaches(all, root, m) && d in Lookup(all, m)
    ensures Reaches(all, root, d)
  {
    var p :| DependencyPath(all, p) && p[0] == root && p[|p| - 1] == m;
    var q := p + [d];
    forall i | 0 < i < |q|
      ensures q[i] in Lookup(all, q[i - 1])
    {
      if i < |p| {
        assert q[i] == p[i] && q[i - 1] == p[i - 1];
      }
    }
    assert DependencyPath(all, q) && q[0] == root && q[|q| - 1] == d;
  }

  lemma {:induction false} PathSeeded(deps: DepMap, all: DepMap, root: string, p: seq<string>, i: nat)
    requires Seeded(deps, all, root) && DependencyPath(all, p) && p[0] == root && i < |p|
    ensures p[i] in deps
  {
    if i > 0 {
      PathSeeded(deps, all, root, p, i - 1);
      assert p[i] in deps[p[i - 1]];
    }
  }

  /** A seeded map holds every module reachable from the requested one. */
  lemma SeededHoldsReachable(deps: DepMap, all: DepMap, root: string, m: string)
    requires Seeded(deps, all, root) && Reaches(all, root, m)
    ensures m in deps
  {
    var p :| DependencyPath(all, p) && p[0] == root && p[|p| - 1] == m;
    PathSeeded(deps, all, root, p, |p| - 1);
  }

  /**
   * `find_modules_to_load` with the corrected seeding: the requested module
   * and everything it needs, each after its dependencies; an error only when
   * no such order exists (a dependency cycle).
   */
  method FindModulesToLoad(modulesDep: string, root: string) returns (r: Result<seq<string>, DepMap>)
    ensures r.Ok? ==> root in r.value && exists deps ::
      (Seeded(deps, ColonEntries(Text.Lines(modulesDep), DependencyList), root) && ValidOrder(r.value, deps))
    ensures r.Err? ==> exists deps ::
      (Seeded(deps, ColonEntries(Text.Lines(modulesDep), DependencyList), root) && forall order :: !ValidOrder(order, deps))
    ensures r.Ok? ==> forall m :: m in r.value <==> Reaches(ColonEntries(Text.Lines(modulesDep), DependencyList), root, m)
  {
    var all := LoadModDependencies(modulesDep);
    var deps := SeedClosure(all, root);
    r := Schedule(deps);
    assert Seeded(deps, all, root);
    if r.Ok? {
      OrderHoldsExactly(r.value, deps);
    }
  }

  /** A load order of all the modules lists exactly the map's modules. */
  lemma OrderHoldsExactly(order: seq<string>, deps: DepMap)
    requires ValidOrder(order, deps)
    ensures forall m :: m in order <==> m in deps
  {
    forall m | m in order
      ensures m in deps
    {
      var i :| 0 <= i < |order| && order[i] == m;
    }
  }
}
