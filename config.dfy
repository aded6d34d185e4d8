// qinit's configuration: the services and spheres read from the service
// directories, the cross-service checks on wants and needs, and the
// resolution of a sphere into a start order (qinit/src/config/mod.rs).
module QinitConfig {
  import opened Wrappers
  import opened Validation
  import opened ServiceConfigs
  import G = Graph

  /** A sphere: a named group of services, each with the arguments it is started with. */
  datatype SphereDefinition = SphereDefinition(name: string, services: seq<Dependency>)

  /** `ServiceSkeleton`: a service together with the arguments it is started with. */
  type Skeleton = (ServiceConfig, map<string, string>)

  datatype ResolveError =
    | UnknownSphere(sphere: string)
    | UnknownService(service: string)
    | UnknownArgument(service: string, argument: string)
    | DependencyCycle

  predicate AllFatal(r: ValidationResult)
  {
    forall i :: 0 <= i < |r.errors| ==> r.errors[i].fatal
  }

  lemma AllFatalMerge(a: ValidationResult, b: ValidationResult)
    requires AllFatal(a) && AllFatal(b)
    ensures AllFatal(Merge(a, b))
  {
    assert forall i :: |a.errors| <= i < |a.errors| + |b.errors| ==> Merge(a, b).errors[i] == b.errors[i - |a.errors|];
  }

  // ---------------------------------------------------------------------
  // What `validate` looks for.

  /** The dependency passes an argument its target does not declare. */
  ghost predicate UnknownArgumentIn(target: ServiceConfig, args: map<string, string>)
  {
    exists k :: k in args && !HasArgument(target.service, k)
  }

  /** The dependency leaves out an argument its target declares. */
  ghost predicate MissingArgumentIn(target: ServiceConfig, args: map<string, string>)
  {
    exists i :: 0 <= i < |target.service.arguments| && target.service.arguments[i].name !in args
  }

  ghost predicate WantProblem(services: map<string, ServiceConfig>, d: Dependency)
  {
    d.name !in services || UnknownArgumentIn(services[d.name], d.args)
  }

  /** A need must name a known service and bind exactly the arguments it declares. */
  ghost predicate NeedProblem(services: map<string, ServiceConfig>, d: Dependency)
  {
    d.name !in services || UnknownArgumentIn(services[d.name], d.args) || MissingArgumentIn(services[d.name], d.args)
  }

  ghost predicate ServiceProblem(services: map<string, ServiceConfig>, s: ServiceConfig)
  {
    (exists i :: 0 <= i < |s.wants| && WantProblem(services, s.wants[i])) ||
    (exists i :: 0 <= i < |s.needs| && NeedProblem(services, s.needs[i]))
  }

  ghost predicate ConfigProblem(services: map<string, ServiceConfig>)
  {
    exists k :: k in services && ServiceProblem(services, services[k])
  }

  /** `retain(|a| a.name != name)` on the list of arguments still unbound. */
  function Without(args: seq<Argument>, name: string): (r: seq<Argument>)
    ensures forall i :: 0 <= i < |r| ==> r[i].name != name
    ensures |r| <= |args|
  {
    if args == [] then []
    else (if args[0].name == name then [] else [args[0]]) + Without(args[1..], name)
  }

  /** The arguments whose names are not among the given keys, in order. */
  ghost function Unbound(args: seq<Argument>, keys: set<string>): seq<Argument>
  {
    if args == [] then []
    else (if args[0].name in keys then [] else [args[0]]) + Unbound(args[1..], keys)
  }

  lemma {:induction false} WithoutUnbound(args: seq<Argument>, keys: set<string>, name: string)
    ensures Without(Unbound(args, keys), name) == Unbound(args, keys + {name})
  {
    if args != [] {
      WithoutUnbound(args[1..], keys, name);
      var head := if args[0].name in keys then [] else [args[0]];
      assert Unbound(args, keys) == head + Unbound(args[1..], keys);
      WithoutAppend(head, Unbound(args[1..], keys), name);
    }
  }

  lemma {:induction false} WithoutAppend(a: seq<Argument>, b: seq<Argument>, name: string)
    ensures Without(a + b, name) == Without(a, name) + Without(b, name)
  {
    if a == [] {
      assert a + b == b;
    } else {
      assert (a + b)[1..] == a[1..] + b;
      WithoutAppend(a[1..], b, name);
    }
  }

  /** Some argument is left unbound exactly when one of them is not among the keys. */
  lemma {:induction false} UnboundEmpty(args: seq<Argument>, keys: set<string>)
    ensures Unbound(args, keys) == [] <==> forall i :: 0 <= i < |args| ==> args[i].name in keys
  {
    if args != [] {
      UnboundEmpty(args[1..], keys);
      assert forall i :: 1 <= i < |args| ==> args[i] == args[1..][i - 1];
    }
  }

  function JoinNames(args: seq<Argument>): string
  {
    if args == [] then ""
    else if |args| == 1 then args[0].name
    else args[0].name + ", " + JoinNames(args[1..])
  }

  /**
   * The argument check shared by wants and needs: every key of the
   * dependency's arguments, in the map's own order, must be declared by the
   * target; the arguments the keys leave unbound come back too.
   */
  method CheckArgumentNames(owner: string, verb: string, target: ServiceConfig, args: map<string, string>)
    returns (r: ValidationResult, missing: seq<Argument>)
    ensures AllFatal(r)
    ensures IsError(r) <==> UnknownArgumentIn(target, args)
    ensures missing == Unbound(target.service.arguments, args.Keys)
  {
    r := NoErrors;
    missing := target.service.arguments;
    var remaining := args.Keys;
    ghost var done: set<string> := {};
    assert Unbound(target.service.arguments, {}) == target.service.arguments by {
      UnboundNone(target.service.arguments);
    }
    while remaining != {}
      invariant remaining + done == args.Keys && remaining !! done
      invariant AllFatal(r)
      invariant IsError(r) <==> exists k :: k in done && !HasArgument(target.service, k)
      invariant missing == Unbound(target.service.arguments, done)
      decreases |remaining|
    {
      var name :| name in remaining;
      if !HasArgument(target.service, name) {
        r := AddError(r, Fatal("Service " + owner + " " + verb + " service " + target.name +
          " with non-existent argument " + name));
      }
      WithoutUnbound(target.service.arguments, done, name);
      missing := Without(missing, name);
      remaining := remaining - {name};
      done := done + {name};
    }
  }

  lemma {:induction false} UnboundNone(args: seq<Argument>)
    ensures Unbound(args, {}) == args
  {
    if args != [] {
      UnboundNone(args[1..]);
      assert [args[0]] + args[1..] == args;
    }
  }

  /** The checks `validate` makes on one wanted service. */
  method CheckWant(services: map<string, ServiceConfig>, owner: string, d: Dependency) returns (r: ValidationResult)
    ensures AllFatal(r)
    ensures IsError(r) <==> WantProblem(services, d)
  {
    if d.name !in services {
      r := Single(Fatal("Service " + owner + " wants non-existent service " + d.name));
      return;
    }
    var unbound;
    r, unbound := CheckArgumentNames(owner, "wants", services[d.name], d.args);
  }

  /** The checks `validate` makes on one needed service, missing arguments included. */
  method CheckNeed(services: map<string, ServiceConfig>, owner: string, d: Dependency) returns (r: ValidationResult)
    ensures AllFatal(r)
    ensures IsError(r) <==> NeedProblem(services, d)
  {
    if d.name !in services {
      r := Single(Fatal("Service " + owner + " needs non-existent service " + d.name));
      return;
    }
    var needed := services[d.name];
    var missing;
    r, missing := CheckArgumentNames(owner, "needs", needed, d.args);
    UnboundEmpty(needed.service.arguments, d.args.Keys);
    if missing != [] {
      r := AddError(r, Fatal("Service " + owner + " needs service " + needed.name +
        " with missing arguments: " + JoinNames(missing)));
    }
  }

  /** The wants of one service, then its needs, each in order. */
  method CheckService(services: map<string, ServiceConfig>, s: ServiceConfig) returns (r: ValidationResult)
    ensures AllFatal(r)
    ensures IsError(r) <==> ServiceProblem(services, s)
  {
    r := NoErrors;
    var i := 0;
    while i < |s.wants|
      invariant 0 <= i <= |s.wants|
      invariant AllFatal(r)
      invariant IsError(r) <==> exists j :: 0 <= j < i && WantProblem(services, s.wants[j])
    {
      var e := CheckWant(services, s.name, s.wants[i]);
      AllFatalMerge(r, e);
      MergeVerdict(r, e);
      r := Merge(r, e);
      i := i + 1;
    }
    i := 0;
    ghost var afterWants := r;
    while i < |s.needs|
      invariant 0 <= i <= |s.needs|
      invariant AllFatal(r)
      invariant IsError(r) <==> IsError(afterWants) || exists j :: 0 <= j < i && NeedProblem(services, s.needs[j])
    {
      var e := CheckNeed(services, s.name, s.needs[i]);
      AllFatalMerge(r, e);
      MergeVerdict(r, e);
      r := Merge(r, e);
      i := i + 1;
    }
  }

  // ---------------------------------------------------------------------
  // The graph a sphere resolves to.

  /** The vertex of a dependency: the named service with the dependency's arguments. */
  function Vertex(services: map<string, ServiceConfig>, d: Dependency): (v: Skeleton)
    requires d.name in services
    ensures v.0 == services[d.name] && v.1 == d.args
  {
    (services[d.name], d.args)
  }

  /**
   * The edge recording that service needs dependency. Flatten puts the
   * target of an edge before its source, so the edge runs from the service
   * to what it needs.
   */
  function NeedsEdge(service: Skeleton, dependency: Skeleton): (e: G.Edge<Skeleton, ()>)
    ensures e.from == service && e.to == dependency
  {
    G.Edge(service, dependency, ())
  }

  /** The edge as `resolve_sphere_to_service_set` adds it: from the dependency to the service. */
  function NeedsEdgeAsWritten(service: Skeleton, dependency: Skeleton): (e: G.Edge<Skeleton, ()>)
    ensures e.from == dependency && e.to == service
  {
    G.Edge(dependency, service, ())
  }

  /** In every order Flatten may return, a need comes before the service that needs it. */
  lemma NeedStartsFirst(order: seq<Skeleton>, es: seq<G.Edge<Skeleton, ()>>, service: Skeleton, dependency: Skeleton, p: nat)
    requires G.Topological(order, es) && NeedsEdge(service, dependency) in es
    requires p < |order| && order[p] == service
    ensures dependency in order[..p]
  {
    var k :| 0 <= k < |es| && es[k] == NeedsEdge(service, dependency);
  }

  /** With the edge as written, the service comes first and the dependency it needs after it. */
  lemma AsWrittenServiceStartsFirst(order: seq<Skeleton>, es: seq<G.Edge<Skeleton, ()>>, service: Skeleton, dependency: Skeleton, p: nat)
    requires G.Topological(order, es) && NeedsEdgeAsWritten(service, dependency) in es
    requires p < |order| && order[p] == dependency
    ensures service in order[..p]
  {
    var k :| 0 <= k < |es| && es[k] == NeedsEdgeAsWritten(service, dependency);
  }

  /** The wants entry for dependency d: the wanted service with d's arguments. */
  function WantsEntry(services: map<string, ServiceConfig>, d: Dependency): (w: Skeleton)
    requires d.name in services
    ensures w == Vertex(services, d)
  {
    (services[d.name], d.args)
  }

  /** The wants entry as written: the lookup uses the wanting service's own name. */
  function WantsEntryAsWritten(services: map<string, ServiceConfig>, service: ServiceConfig, d: Dependency): (w: Option<Skeleton>)
    ensures w.Some? <==> service.name in services
    ensures w.Some? ==> w.value == (services[service.name], d.args)
  {
    if service.name in services then Some((services[service.name], d.args)) else None
  }

  /** As written, the entry names the service that wants, never the wanted one. */
  lemma WantsAsWrittenNamesWanter(services: map<string, ServiceConfig>, service: ServiceConfig, d: Dependency)
    requires forall k :: k in services ==> services[k].name == k
    requires service.name in services && d.name in services && d.name != service.name
    ensures WantsEntryAsWritten(services, service, d).value.0.name == service.name
    ensures WantsEntryAsWritten(services, service, d).value.0 != WantsEntry(services, d).0
  {
  }

  /** The corrected entry names the wanted service. */
  lemma WantsEntryNamesWanted(services: map<string, ServiceConfig>, d: Dependency)
    requires forall k :: k in services ==> services[k].name == k
    requires d.name in services
    ensures WantsEntry(services, d).0.name == d.name && WantsEntry(services, d).1 == d.args
  {
  }

  /** `add_vertex` on the vertex list: appended only when absent. */
  function AddV(vs: seq<Skeleton>, v: Skeleton): seq<Skeleton>
  {
    if v in vs then vs else vs + [v]
  }

  ghost predicate NeedsKnown(services: map<string, ServiceConfig>, needs: seq<Dependency>)
  {
    forall j :: 0 <= j < |needs| ==> needs[j].name in services
  }

  ghost function NeedEdges(services: map<string, ServiceConfig>, v: Skeleton, needs: seq<Dependency>): seq<G.Edge<Skeleton, ()>>
    requires NeedsKnown(services, needs)
  {
    if needs == [] then []
    else NeedEdges(services, v, needs[..|needs| - 1]) + [NeedsEdge(v, Vertex(services, needs[|needs| - 1]))]
  }

  ghost function NeedVertices(vs: seq<Skeleton>, services: map<string, ServiceConfig>, v: Skeleton, needs: seq<Dependency>): seq<Skeleton>
    requires NeedsKnown(services, needs)
  {
    if needs == [] then vs
    else AddV(AddV(NeedVertices(vs, services, v, needs[..|needs| - 1]), v), Vertex(services, needs[|needs| - 1]))
  }

  ghost function WantEntries(services: map<string, ServiceConfig>, wants: seq<Dependency>): seq<Skeleton>
    requires NeedsKnown(services, wants)
  {
    if wants == [] then []
    else WantEntries(services, wants[..|wants| - 1]) + [WantsEntry(services, wants[|wants| - 1])]
  }

  /** A sphere entry that resolves: a known service, known argument keys, known needs and wants. */
  ghost predicate Resolvable(services: map<string, ServiceConfig>, e: Dependency)
  {
    e.name in services &&
    (forall k :: k in e.args ==> HasArgument(services[e.name].service, k)) &&
    NeedsKnown(services, services[e.name].needs) &&
    NeedsKnown(services, services[e.name].wants)
  }

  ghost predicate AllResolvable(services: map<string, ServiceConfig>, entries: seq<Dependency>)
  {
    forall j :: 0 <= j < |entries| ==> Resolvable(services, entries[j])
  }

  ghost function SphereEdges(services: map<string, ServiceConfig>, entries: seq<Dependency>): seq<G.Edge<Skeleton, ()>>
    requires AllResolvable(services, entries)
  {
    if entries == [] then []
    else
      var e := entries[|entries| - 1];
      SphereEdges(services, entries[..|entries| - 1]) + NeedEdges(services, Vertex(services, e), services[e.name].needs)
  }

  ghost function SphereVertices(services: map<string, ServiceConfig>, entries: seq<Dependency>): seq<Skeleton>
    requires AllResolvable(services, entries)
  {
    if entries == [] then []
    else
      var e := entries[|entries| - 1];
      var v := Vertex(services, e);
      NeedVertices(AddV(SphereVertices(services, entries[..|entries| - 1]), v), services, v, services[e.name].needs)
  }

  ghost function SphereWants(services: map<string, ServiceConfig>, entries: seq<Dependency>): seq<Skeleton>
    requires AllResolvable(services, entries)
  {
    if entries == [] then []
    else
      var e := entries[|entries| - 1];
      SphereWants(services, entries[..|entries| - 1]) + WantEntries(services, services[e.name].wants)
  }

  /** Every need of every sphere entry is an edge of the sphere's graph. */
  lemma {:induction false} SphereEdgesHoldNeeds(services: map<string, ServiceConfig>, entries: seq<Dependency>, i: nat, j: nat)
    requires AllResolvable(services, entries)
    requires i < |entries| && j < |services[entries[i].name].needs|
    ensures NeedsEdge(Vertex(services, entries[i]), Vertex(services, services[entries[i].name].needs[j]))
      in SphereEdges(services, entries)
    decreases |entries|
  {
    var n := |entries| - 1;
    var e := entries[n];
    if i < n {
      assert entries[..n][i] == entries[i];
      SphereEdgesHoldNeeds(services, entries[..n], i, j);
    } else {
      NeedEdgesHold(services, Vertex(services, e), services[e.name].needs, j);
    }
  }

  lemma {:induction false} NeedEdgesHold(services: map<string, ServiceConfig>, v: Skeleton, needs: seq<Dependency>, j: nat)
    requires NeedsKnown(services, needs) && j < |needs|
    ensures NeedsEdge(v, Vertex(services, needs[j])) in NeedEdges(services, v, needs)
    decreases |needs|
  {
    var n := |needs| - 1;
    if j < n {
      assert needs[..n][j] == needs[j];
      NeedEdgesHold(services, v, needs[..n], j);
    }
  }

  /**
   * In an order Flatten returns for a sphere, every service named by the
   * sphere comes after each service it needs.
   */
  lemma SphereNeedsStartFirst(services: map<string, ServiceConfig>, entries: seq<Dependency>, order: seq<Skeleton>, i: nat, j: nat, p: nat)
    requires AllResolvable(services, entries) && G.Topological(order, SphereEdges(services, entries))
    requires i < |entries| && j < |services[entries[i].name].needs|
    requires p < |order| && order[p] == Vertex(services, entries[i])
    ensures Vertex(services, services[entries[i].name].needs[j]) in order[..p]
  {
    SphereEdgesHoldNeeds(services, entries, i, j);
    NeedStartsFirst(order, SphereEdges(services, entries), Vertex(services, entries[i]),
      Vertex(services, services[entries[i].name].needs[j]), p);
  }

  /** The sphere entry's vertex is added, then its needs and wants, as one step of the resolution. */
  lemma SphereStep(services: map<string, ServiceConfig>, entries: seq<Dependency>, i: nat)
    requires i < |entries| && AllResolvable(services, entries[..i]) && Resolvable(services, entries[i])
    ensures AllResolvable(services, entries[..i + 1])
    ensures SphereEdges(services, entries[..i + 1]) ==
      SphereEdges(services, entries[..i]) + NeedEdges(services, Vertex(services, entries[i]), services[entries[i].name].needs)
    ensures SphereVertices(services, entries[..i + 1]) ==
      NeedVertices(AddV(SphereVertices(services, entries[..i]), Vertex(services, entries[i])),
        services, Vertex(services, entries[i]), services[entries[i].name].needs)
    ensures SphereWants(services, entries[..i + 1]) ==
      SphereWants(services, entries[..i]) + WantEntries(services, services[entries[i].name].wants)
  {
    assert entries[..i + 1][..i] == entries[..i];
    assert entries[..i + 1][i] == entries[i];
  }

  /** The first of the keys, in the map's own order, that the definition does not declare. */
  method FirstUnknownArgument(def: ServiceDefinition, keys: set<string>) returns (o: Option<string>)
    ensures o.None? ==> forall k :: k in keys ==> HasArgument(def, k)
    ensures o.Some? ==> o.value in keys && !HasArgument(def, o.value)
  {
    var remaining := keys;
    while remaining != {}
      invariant remaining <= keys
      invariant forall k :: k in keys - remaining ==> HasArgument(def, k)
      decreases |remaining|
    {
      var k :| k in remaining;
      if !HasArgument(def, k) {
        return Some(k);
      }
      remaining := remaining - {k};
    }
    return None;
  }

  /** The edges from a service to each service it needs, in order, with their vertices. */
  method AddNeeds(graph: G.Graph<Skeleton, ()>, services: map<string, ServiceConfig>, service: ServiceConfig, v: Skeleton)
    returns (err: Option<ResolveError>)
    requires graph.Valid()
    modifies graph
    ensures graph.Valid()
    ensures err.None? <==> NeedsKnown(services, service.needs)
    ensures err.None? ==> graph.edges == old(graph.edges) + NeedEdges(services, v, service.needs)
    ensures err.None? ==> graph.vertices == NeedVertices(old(graph.vertices), services, v, service.needs)
  {
    var j := 0;
    while j < |service.needs|
      invariant 0 <= j <= |service.needs|
      invariant graph.Valid()
      invariant NeedsKnown(services, service.needs[..j])
      invariant graph.edges == old(graph.edges) + NeedEdges(services, v, service.needs[..j])
      invariant graph.vertices == NeedVertices(old(graph.vertices), services, v, service.needs[..j])
    {
      var d := service.needs[j];
      if d.name !in services {
        return Some(UnknownService(service.name));
      }
      NeedsSnoc(services, v, service.needs, j, old(graph.vertices));
      AddVTwice(graph.vertices, v, Vertex(services, d));
      graph.AddEdge(v, (), Vertex(services, d));
      j := j + 1;
    }
    assert service.needs[..j] == service.needs;
    return None;
  }

  /** One more need: its edge and its vertices follow the ones before. */
  lemma NeedsSnoc(services: map<string, ServiceConfig>, v: Skeleton, needs: seq<Dependency>, j: nat, vs: seq<Skeleton>)
    requires j < |needs| && NeedsKnown(services, needs[..j]) && needs[j].name in services
    ensures NeedsKnown(services, needs[..j + 1])
    ensures NeedEdges(services, v, needs[..j + 1]) == NeedEdges(services, v, needs[..j]) + [G.Edge(v, Vertex(services, needs[j]), ())]
    ensures NeedVertices(vs, services, v, needs[..j + 1]) == AddV(AddV(NeedVertices(vs, services, v, needs[..j]), v), Vertex(services, needs[j]))
  {
    assert needs[..j + 1][..j] == needs[..j];
    assert needs[..j + 1][j] == needs[j];
  }

  /** The vertices AddEdge leaves: from, then to, each added when it is new. */
  lemma AddVTwice(vs: seq<Skeleton>, from: Skeleton, to: Skeleton)
    ensures vs + (if from in vs then [] else [from]) + (if to in vs || to == from then [] else [to]) == AddV(AddV(vs, from), to)
  {
    if from !in vs {
      assert vs + [from] + [] == vs + [from];
    } else {
      assert vs + [] == vs;
    }
  }

  /** The wants entries of one service, in order. */
  method CollectWants(services: map<string, ServiceConfig>, service: ServiceConfig)
    returns (err: Option<ResolveError>, ws: seq<Skeleton>)
    ensures err.None? <==> NeedsKnown(services, service.wants)
    ensures err.None? ==> ws == WantEntries(services, service.wants)
  {
    ws := [];
    var j := 0;
    while j < |service.wants|
      invariant 0 <= j <= |service.wants|
      invariant NeedsKnown(services, service.wants[..j])
      invariant ws == WantEntries(services, service.wants[..j])
    {
      var d := service.wants[j];
      if d.name !in services {
        return Some(UnknownService(d.name)), ws;
      }
      assert service.wants[..j + 1][..j] == service.wants[..j];
      ws := ws + [WantsEntry(services, d)];
      j := j + 1;
    }
    assert service.wants[..j] == service.wants;
    return None, ws;
  }

  /** One sphere entry: its service's vertex, the edges to its needs, and its wants entries. */
  method ResolveEntry(graph: G.Graph<Skeleton, ()>, services: map<string, ServiceConfig>, e: Dependency)
    returns (err: Option<ResolveError>, ws: seq<Skeleton>)
    requires graph.Valid()
    modifies graph
    ensures graph.Valid()
    ensures err.None? <==> Resolvable(services, e)
    ensures err.None? ==>
      && graph.vertices == NeedVertices(AddV(old(graph.vertices), Vertex(services, e)), services, Vertex(services, e), services[e.name].needs)
      && graph.edges == old(graph.edges) + NeedEdges(services, Vertex(services, e), services[e.name].needs)
      && ws == WantEntries(services, services[e.name].wants)
  {
    ws := [];
    if e.name !in services {
      return Some(UnknownService(e.name)), ws;
    }
    var service := services[e.name];
    var bad := FirstUnknownArgument(service.service, e.args.Keys);
    if bad.Some? {
      return Some(UnknownArgument(e.name, bad.value)), ws;
    }
    var v := Vertex(services, e);
    graph.AddVertex(v);
    err := AddNeeds(graph, services, service, v);
    if err.Some? {
      return err, ws;
    }
    err, ws := CollectWants(services, service);
  }

  /** order is a start order for the sphere: it respects every need and lists exactly the sphere's vertices. */
  ghost predicate SphereOrder(services: map<string, ServiceConfig>, entries: seq<Dependency>, order: seq<Skeleton>)
    requires AllResolvable(services, entries)
  {
    G.Topological(order, SphereEdges(services, entries)) &&
    (forall v :: v in SphereVertices(services, entries) ==> v in order) &&
    (forall v :: v in order ==> v in SphereVertices(services, entries))
  }

  class Config {
    var services: map<string, ServiceConfig>
    var spheres: map<string, SphereDefinition>

    /** Every service and sphere is filed under its own name. */
    ghost predicate Valid()
      reads this
    {
      (forall k :: k in services ==> services[k].name == k) &&
      (forall k :: k in spheres ==> spheres[k].name == k)
    }

    constructor Empty()
      ensures Valid()
      ensures services == map[] && spheres == map[]
    {
      services := map[];
      spheres := map[];
    }

    /**
     * `add_service`: a second service of the same name is refused with one
     * fatal error; otherwise the service is validated, kept (with its own
     * errors stored) unless validation found something fatal, and the
     * validation result is returned.
     */
    method AddService(service: ServiceConfig) returns (r: ValidationResult)
      requires Valid()
      modifies this
      ensures Valid()
      ensures spheres == old(spheres)
      ensures service.name in old(services) ==>
        services == old(services) && r == Single(Fatal("Service with name " + service.name + " already exists"))
      ensures service.name !in old(services) ==>
        r == InContext(ServiceErrors(service), ServiceContext(service)) &&
        services == if IsFatal(r) then old(services) else old(services)[service.name := service.(errors := ServiceErrors(service))]
      ensures service.name !in old(services) ==> (service.name in services <==> !ServiceFatal(service))
    {
      if service.name in services {
        r := Single(Fatal("Service with name " + service.name + " already exists"));
        return;
      }
      var updated;
      updated, r := ValidateService(service);
      if !IsFatal(r) {
        services := services[service.name := updated];
      }
    }

    /** Filing a sphere read from a file: a second sphere of the same name is refused. */
    method AddSphere(sphere: SphereDefinition) returns (r: ValidationResult)
      requires Valid()
      modifies this
      ensures Valid()
      ensures services == old(services)
      ensures sphere.name in old(spheres) ==>
        spheres == old(spheres) && r == Single(Fatal("Sphere with name " + sphere.name + " already exists"))
      ensures sphere.name !in old(spheres) ==> spheres == old(spheres)[sphere.name := sphere] && r == NoErrors
    {
      if sphere.name in spheres {
        r := Single(Fatal("Sphere with name " + sphere.name + " already exists"));
        return;
      }
      spheres := spheres[sphere.name := sphere];
      r := NoErrors;
    }

    /**
     * `validate`: every error it reports is fatal, and it reports one exactly
     * when some service wants or needs an unknown service, passes an
     * argument the target does not declare, or needs a service without
     * binding all of that service's arguments.
     */
    method Validate() returns (r: ValidationResult)
      ensures AllFatal(r)
      ensures IsFatal(r) <==> IsError(r)
      ensures IsError(r) <==> ConfigProblem(services)
    {
      r := NoErrors;
      var remaining := services.Keys;
      ghost var done: set<string> := {};
      while remaining != {}
        invariant remaining + done == services.Keys && remaining !! done
        invariant AllFatal(r)
        invariant IsError(r) <==> exists k :: k in done && ServiceProblem(services, services[k])
        decreases |remaining|
      {
        var k :| k in remaining;
        var e := CheckService(services, services[k]);
        AllFatalMerge(r, e);
        MergeVerdict(r, e);
        r := Merge(r, e);
        remaining := remaining - {k};
        done := done + {k};
      }
      AnyFatalSome(r.errors);
      if IsError(r) {
        assert r.errors[0].fatal;
      }
    }

    /**
     * `resolve_sphere_to_service_set`: an unknown sphere, an entry naming an
     * unknown service or passing an argument that service does not declare,
     * or a need or want naming an unknown service is an error; otherwise the
     * graph of the entries and their needs is flattened (a cycle is an
     * error) and returned with the wants of the entries' services.
     */
    method ResolveSphere(sphereName: string) returns (r: Result<(seq<Skeleton>, seq<Skeleton>), ResolveError>)
      ensures sphereName !in spheres ==> r == Err(UnknownSphere(sphereName))
      ensures r.Ok? ==>
        && sphereName in spheres && AllResolvable(services, spheres[sphereName].services)
        && SphereOrder(services, spheres[sphereName].services, r.value.0)
        && r.value.1 == SphereWants(services, spheres[sphereName].services)
      ensures sphereName in spheres && AllResolvable(services, spheres[sphereName].services) ==>
        (r.Err? <==> G.HasCycle(SphereVertices(services, spheres[sphereName].services),
                                SphereEdges(services, spheres[sphereName].services)))
    {
      if sphereName !in spheres {
        return Err(UnknownSphere(sphereName));
      }
      var entries := spheres[sphereName].services;
      var graph := new G.Graph<Skeleton, ()>.Empty();
      var wants: seq<Skeleton> := [];
      var i := 0;
      while i < |entries|
        invariant 0 <= i <= |entries|
        invariant fresh(graph) && graph.Valid()
        invariant AllResolvable(services, entries[..i])
        invariant graph.vertices == SphereVertices(services, entries[..i])
        invariant graph.edges == SphereEdges(services, entries[..i])
        invariant wants == SphereWants(services, entries[..i])
      {
        var err, ws := ResolveEntry(graph, services, entries[i]);
        if err.Some? {
          return Err(err.value);
        }
        SphereStep(services, entries, i);
        wants := wants + ws;
        i := i + 1;
      }
      assert entries[..i] == entries;
      var order := graph.Flatten();
      if order.Err? {
        return Err(DependencyCycle);
      }
      return Ok((order.value, wants));
    }
  }
}
