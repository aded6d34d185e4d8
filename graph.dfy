// The dependency graph qinit flattens into a start order
// (qinit/src/config/graph.rs): vertices, labelled edges `from -> to` meaning
// "from needs to", and Kahn's algorithm over a stack.
module Graph {
  import opened Wrappers

  datatype GraphError = Cycle

  datatype Edge<V, E> = Edge(from: V, to: V, data: E)

  predicate Distinct<T(==)>(s: seq<T>)
  {
    forall i, j :: 0 <= i < j < |s| ==> s[i] != s[j]
  }

  /** A sequence without repeats has as many elements as its set. */
  lemma {:induction false} DistinctCardinality<T>(s: seq<T>)
    requires Distinct(s)
    ensures |(set x | x in s)| == |s|
    decreases |s|
  {
    if s != [] {
      var front := s[..|s| - 1];
      var last := s[|s| - 1];
      DistinctCardinality(front);
      assert (set x | x in s) == (set x | x in front) + {last} by {
        assert s == front + [last];
      }
      assert last !in (set x | x in front);
    }
  }

  /** Some edge of es leaves u. */
  predicate HasOutgoing<V(==), E>(es: seq<Edge<V, E>>, u: V)
  {
    exists i :: 0 <= i < |es| && es[i].from == u
  }

  /** No two edges join the same ordered pair of vertices. */
  predicate NoDuplicatePairs<V(==), E>(es: seq<Edge<V, E>>)
  {
    forall i, j :: 0 <= i < j < |es| ==> es[i].from != es[j].from || es[i].to != es[j].to
  }

  /**
   * A non-empty set of vertices each of which has an edge to a member of the
   * set. A finite graph has one exactly when it has a cycle: follow the edges
   * inside the set until a vertex repeats.
   */
  ghost predicate ClosedSet<V(!new), E(!new)>(s: set<V>, vs: seq<V>, es: seq<Edge<V, E>>)
  {
    && s != {}
    && (forall u :: u in s ==> u in vs)
    && (forall u {:trigger EdgeInto(es, s, u)} :: u in s ==> EdgeInto(es, s, u))
  }

  /** Some edge of es leads from u into s. */
  ghost predicate EdgeInto<V, E>(es: seq<Edge<V, E>>, s: set<V>, u: V)
  {
    exists i :: 0 <= i < |es| && es[i].from == u && es[i].to in s
  }

  ghost predicate HasCycle<V(!new), E(!new)>(vs: seq<V>, es: seq<Edge<V, E>>)
  {
    exists s: set<V> :: ClosedSet(s, vs, es)
  }

  /** A walk whose every step is an edge and which returns to its start. */
  ghost predicate ClosedWalk<V(!new), E(!new)>(w: seq<V>, vs: seq<V>, es: seq<Edge<V, E>>)
  {
    && |w| >= 2 && w[0] == w[|w| - 1]
    && (forall i :: 0 <= i < |w| ==> w[i] in vs)
    && (forall i :: 0 <= i < |w| - 1 ==> exists k :: 0 <= k < |es| && es[k].from == w[i] && es[k].to == w[i + 1])
  }

  /** Every closed walk, a self-loop or the two- and three-vertex cycles among them, is a cycle. */
  lemma ClosedWalkIsCycle<V(!new), E(!new)>(w: seq<V>, vs: seq<V>, es: seq<Edge<V, E>>)
    requires ClosedWalk(w, vs, es)
    ensures HasCycle(vs, es)
  {
    var s := set i | 0 <= i < |w| :: w[i];
    assert w[0] in s;
    forall u | u in s
      ensures EdgeInto(es, s, u)
    {
      var i :| 0 <= i < |w| && w[i] == u;
      var j := if i < |w| - 1 then i else 0;
      assert w[j] == u;
      var k :| 0 <= k < |es| && es[k].from == w[j] && es[k].to == w[j + 1];
      assert es[k].to in s;
    }
    assert ClosedSet(s, vs, es);
  }

  /**
   * order lists every vertex after the targets of all its edges, counting
   * from the first occurrence.
   */
  ghost predicate Topological<V, E>(order: seq<V>, es: seq<Edge<V, E>>)
  {
    forall i, k :: 0 <= i < |order| && 0 <= k < |es| && es[k].from == order[i] ==> es[k].to in order[..i]
  }

  lemma TopologicalHasNoCycle<V(!new), E(!new)>(order: seq<V>, vs: seq<V>, es: seq<Edge<V, E>>)
    requires Topological(order, es)
    requires forall u :: u in vs ==> u in order
    ensures !HasCycle(vs, es)
  {
    forall s: set<V> ensures !ClosedSet(s, vs, es) {
      ClosedSubsetOfOrderIsEmpty(order, vs, es, s);
    }
  }

  /** A set of ordered vertices each with an edge into the set must be empty. */
  lemma ClosedSubsetOfOrderIsEmpty<V(!new), E(!new)>(order: seq<V>, vs: seq<V>, es: seq<Edge<V, E>>, s: set<V>)
    requires Topological(order, es)
    requires forall u :: u in vs ==> u in order
    ensures (forall u :: u in s ==> u in vs)
      && (forall u {:trigger EdgeInto(es, s, u)} :: u in s ==> EdgeInto(es, s, u))
      ==> s == {}
  {
    if (forall u :: u in s ==> u in vs)
      && (forall u {:trigger EdgeInto(es, s, u)} :: u in s ==> EdgeInto(es, s, u)) {
      PrefixAvoidsClosedSet(order, es, s, |order|);
      assert forall u :: u in s ==> u in order;
      assert forall j :: 0 <= j < |order| ==> order[j] !in s;
      assert s == {};
    }
  }

  lemma {:induction false} PrefixAvoidsClosedSet<V, E>(order: seq<V>, es: seq<Edge<V, E>>, s: set<V>, n: nat)
    requires Topological(order, es) && n <= |order|
    requires forall u {:trigger EdgeInto(es, s, u)} :: u in s ==> EdgeInto(es, s, u)
    ensures forall j :: 0 <= j < n ==> order[j] !in s
  {
    if n > 0 {
      PrefixAvoidsClosedSet(order, es, s, n - 1);
      var w := order[n - 1];
      forall k | 0 <= k < |es| && es[k].from == w
        ensures es[k].to !in s
      {
        assert es[k].to in order[..n - 1];
      }
      assert !EdgeInto(es, s, w);
    }
  }

  /** The edges of es not ending at v, in order (what `retain` keeps). */
  function Keep<V(==), E>(es: seq<Edge<V, E>>, v: V): (r: seq<Edge<V, E>>)
    ensures |r| <= |es|
    ensures forall k :: 0 <= k < |r| ==> r[k].to != v
  {
    if es == [] then []
    else Keep(es[..|es| - 1], v) + (if es[|es| - 1].to != v then [es[|es| - 1]] else [])
  }

  /** The sources of the edges of es ending at v, in order (what `retain` removes). */
  function Sources<V(==), E>(es: seq<Edge<V, E>>, v: V): (r: seq<V>)
  {
    if es == [] then []
    else Sources(es[..|es| - 1], v) + (if es[|es| - 1].to == v then [es[|es| - 1].from] else [])
  }

  /** The candidates without an outgoing edge in es, in order. */
  function Ready<V(==), E>(cs: seq<V>, es: seq<Edge<V, E>>): (r: seq<V>)
    ensures |r| <= |cs|
    ensures forall k :: 0 <= k < |r| ==> !HasOutgoing(es, r[k])
  {
    if cs == [] then []
    else Ready(cs[..|cs| - 1], es) + (if !HasOutgoing(es, cs[|cs| - 1]) then [cs[|cs| - 1]] else [])
  }

  lemma {:induction false} KeepMembers<V, E>(es: seq<Edge<V, E>>, v: V)
    ensures forall e :: e in Keep(es, v) ==> e in es && e.to != v
    ensures forall e :: e in es && e.to != v ==> e in Keep(es, v)
  {
    if es != [] {
      KeepMembers(es[..|es| - 1], v);
      assert es == es[..|es| - 1] + [es[|es| - 1]];
    }
  }

  lemma {:induction false} SourcesMembers<V, E>(es: seq<Edge<V, E>>, v: V)
    ensures |Sources(es, v)| + |Keep(es, v)| == |es|
    ensures forall u :: u in Sources(es, v) ==> exists k :: 0 <= k < |es| && es[k].to == v && es[k].from == u
    ensures forall k :: 0 <= k < |es| && es[k].to == v ==> es[k].from in Sources(es, v)
  {
    if es != [] {
      var front := es[..|es| - 1];
      SourcesMembers(front, v);
      assert forall k :: 0 <= k < |front| ==> front[k] == es[k];
    }
  }

  lemma {:induction false} ReadyMembers<V, E>(cs: seq<V>, es: seq<Edge<V, E>>)
    ensures forall u :: u in Ready(cs, es) ==> u in cs && !HasOutgoing(es, u)
    ensures forall u :: u in cs && !HasOutgoing(es, u) ==> u in Ready(cs, es)
  {
    if cs != [] {
      ReadyMembers(cs[..|cs| - 1], es);
      assert cs == cs[..|cs| - 1] + [cs[|cs| - 1]];
    }
  }

  lemma {:induction false} KeepNoDuplicates<V, E>(es: seq<Edge<V, E>>, v: V)
    requires NoDuplicatePairs(es)
    ensures NoDuplicatePairs(Keep(es, v))
  {
    if es != [] {
      var front := es[..|es| - 1];
      var last := es[|es| - 1];
      assert forall k :: 0 <= k < |front| ==> front[k] == es[k];
      assert NoDuplicatePairs(front);
      KeepNoDuplicates(front, v);
      KeepMembers(front, v);
      var kf := Keep(front, v);
      forall i | 0 <= i < |kf|
        ensures kf[i].from != last.from || kf[i].to != last.to
      {
        assert kf[i] in Keep(front, v);
        assert kf[i] in front;
        var j :| 0 <= j < |front| && front[j] == kf[i];
        assert es[j] == kf[i];
      }
    }
  }

  lemma {:induction false} SourcesDistinct<V, E>(es: seq<Edge<V, E>>, v: V)
    requires NoDuplicatePairs(es)
    ensures Distinct(Sources(es, v))
  {
    if es != [] {
      var front := es[..|es| - 1];
      var last := es[|es| - 1];
      assert forall k :: 0 <= k < |front| ==> front[k] == es[k];
      assert NoDuplicatePairs(front);
      SourcesDistinct(front, v);
      SourcesMembers(front, v);
      assert last.to == v ==> last.from !in Sources(front, v);
    }
  }

  lemma {:induction false} ReadyDistinct<V, E>(cs: seq<V>, es: seq<Edge<V, E>>)
    requires Distinct(cs)
    ensures Distinct(Ready(cs, es))
  {
    if cs != [] {
      var front := cs[..|cs| - 1];
      assert Distinct(front);
      ReadyDistinct(front, es);
      ReadyMembers(front, es);
      assert cs[|cs| - 1] !in front;
    }
  }

  lemma {:induction false} DistinctCount<T>(s: seq<T>, x: T)
    requires Distinct(s)
    ensures multiset(s)[x] == if x in s then 1 else 0
  {
    if s != [] {
      assert s == [s[0]] + s[1..];
      assert Distinct(s[1..]);
      DistinctCount(s[1..], x);
    }
  }

  lemma SameElementsSameMultiset<T>(a: seq<T>, b: seq<T>)
    requires Distinct(a) && Distinct(b)
    requires forall x :: x in a <==> x in b
    ensures multiset(a) == multiset(b)
  {
    forall x ensures multiset(a)[x] == multiset(b)[x] {
      DistinctCount(a, x);
      DistinctCount(b, x);
    }
  }

  lemma OutgoingSubset<V, E>(a: seq<Edge<V, E>>, b: seq<Edge<V, E>>, u: V)
    requires forall e :: e in a ==> e in b
    ensures HasOutgoing(a, u) ==> HasOutgoing(b, u)
  {
    if HasOutgoing(a, u) {
      var i :| 0 <= i < |a| && a[i].from == u;
      assert a[i] in a;
      var j :| 0 <= j < |b| && b[j] == a[i];
    }
  }

  predicate Disjoint<T(==)>(a: seq<T>, b: seq<T>)
  {
    forall i, j :: 0 <= i < |a| && 0 <= j < |b| ==> a[i] != b[j]
  }

  /** The pending edges are exactly those whose target has not been visited. */
  ghost predicate PendingExact<V(!new), E(!new)>(es: seq<Edge<V, E>>, visited: seq<V>, pending: seq<Edge<V, E>>)
  {
    && (forall e :: e in pending ==> e in es && e.to !in visited)
    && (forall e :: e in es && e.to !in visited ==> e in pending)
  }

  /** The listed vertices are vertices with no pending edge. */
  ghost predicate Drained<V, E>(vs: seq<V>, pending: seq<Edge<V, E>>, xs: seq<V>)
  {
    forall i :: 0 <= i < |xs| ==> !HasOutgoing(pending, xs[i]) && xs[i] in vs
  }

  /** Every vertex without a pending edge has been stacked. */
  ghost predicate Complete<V(!new), E>(vs: seq<V>, pending: seq<Edge<V, E>>, visited: seq<V>, stack: seq<V>)
  {
    forall u :: u in vs && !HasOutgoing(pending, u) ==> u in visited || u in stack
  }

  ghost predicate Unique<V, E>(es: seq<Edge<V, E>>, visited: seq<V>, stack: seq<V>, pending: seq<Edge<V, E>>)
  {
    NoDuplicatePairs(es) ==>
      NoDuplicatePairs(pending) && Distinct(visited) && Distinct(stack) && Disjoint(visited, stack)
  }

  /** The state Kahn's loop keeps between two pops; see `Graph.Flatten`. */
  ghost predicate FlattenInv<V(!new), E(!new)>(vs: seq<V>, es: seq<Edge<V, E>>, visited: seq<V>, stack: seq<V>, pending: seq<Edge<V, E>>)
  {
    && PendingExact(es, visited, pending)
    && Drained(vs, pending, visited)
    && Drained(vs, pending, stack)
    && Complete(vs, pending, visited, stack)
    && Topological(visited, es)
    && Unique(es, visited, stack, pending)
  }

  ghost predicate EdgesWithin<V, E>(vs: seq<V>, es: seq<Edge<V, E>>)
  {
    forall k :: 0 <= k < |es| ==> es[k].from in vs && es[k].to in vs
  }

  lemma FlattenInit<V(!new), E(!new)>(vs: seq<V>, es: seq<Edge<V, E>>)
    requires Distinct(vs)
    ensures FlattenInv(vs, es, [], Ready(vs, es), es)
  {
    ReadyMembers(vs, es);
    ReadyDistinct(vs, es);
  }

  /** One pop of Kahn's loop keeps FlattenInv. */
  lemma FlattenStep<V(!new), E(!new)>(vs: seq<V>, es: seq<Edge<V, E>>, visited: seq<V>, stack: seq<V>, pending: seq<Edge<V, E>>)
    requires EdgesWithin(vs, es)
    requires FlattenInv(vs, es, visited, stack, pending) && |stack| > 0
    ensures var v := stack[|stack| - 1];
      FlattenInv(vs, es, visited + [v],
        stack[..|stack| - 1] + Ready(Sources(pending, v), Keep(pending, v)), Keep(pending, v))
  {
    var v := stack[|stack| - 1];
    KeepMembers(pending, v);
    assert PendingExact(es, visited + [v], Keep(pending, v));
    StepNoOutgoing(vs, es, visited, stack, pending);
    StepTopological(vs, es, visited, stack, pending);
    StepComplete(vs, es, visited, stack, pending);
    StepDistinct(vs, es, visited, stack, pending);
  }

  lemma StepNoOutgoing<V(!new), E(!new)>(vs: seq<V>, es: seq<Edge<V, E>>, visited: seq<V>, stack: seq<V>, pending: seq<Edge<V, E>>)
    requires EdgesWithin(vs, es)
    requires FlattenInv(vs, es, visited, stack, pending) && |stack| > 0
    ensures var v := stack[|stack| - 1];
      var kept := Keep(pending, v);
      var nvisited := visited + [v];
      var nstack := stack[..|stack| - 1] + Ready(Sources(pending, v), kept);
      Drained(vs, kept, nvisited) && Drained(vs, kept, nstack)
  {
    var v := stack[|stack| - 1];
    var kept := Keep(pending, v);
    KeepMembers(pending, v);
    forall u ensures HasOutgoing(kept, u) ==> HasOutgoing(pending, u) {
      OutgoingSubset(kept, pending, u);
    }
    StepFresh(vs, es, visited, stack, pending);
  }

  lemma StepDistinct<V(!new), E(!new)>(vs: seq<V>, es: seq<Edge<V, E>>, visited: seq<V>, stack: seq<V>, pending: seq<Edge<V, E>>)
    requires EdgesWithin(vs, es)
    requires FlattenInv(vs, es, visited, stack, pending) && |stack| > 0
    ensures var v := stack[|stack| - 1];
      var kept := Keep(pending, v);
      var nvisited := visited + [v];
      var nstack := stack[..|stack| - 1] + Ready(Sources(pending, v), kept);
      Unique(es, nvisited, nstack, kept)
  {
    var v := stack[|stack| - 1];
    var kept := Keep(pending, v);
    var sources := Sources(pending, v);
    if NoDuplicatePairs(es) {
      StepFresh(vs, es, visited, stack, pending);
      KeepNoDuplicates(pending, v);
      SourcesDistinct(pending, v);
      ReadyDistinct(sources, kept);
      DistinctStep(visited, stack, Ready(sources, kept), pending);
    }
  }

  /** Vertices pushed by a pop are vertices that had a pending edge to the popped one. */
  lemma StepFresh<V(!new), E(!new)>(vs: seq<V>, es: seq<Edge<V, E>>, visited: seq<V>, stack: seq<V>, pending: seq<Edge<V, E>>)
    requires EdgesWithin(vs, es)
    requires FlattenInv(vs, es, visited, stack, pending) && |stack| > 0
    ensures var v := stack[|stack| - 1];
      forall u :: u in Ready(Sources(pending, v), Keep(pending, v)) ==> u in vs && HasOutgoing(pending, u)
  {
    var v := stack[|stack| - 1];
    SourcesMembers(pending, v);
    ReadyMembers(Sources(pending, v), Keep(pending, v));
    forall u | u in Ready(Sources(pending, v), Keep(pending, v))
      ensures u in vs && HasOutgoing(pending, u)
    {
      var k :| 0 <= k < |pending| && pending[k].to == v && pending[k].from == u;
      assert pending[k] in pending;
      var j :| 0 <= j < |es| && es[j] == pending[k];
    }
  }

  lemma StepTopological<V(!new), E(!new)>(vs: seq<V>, es: seq<Edge<V, E>>, visited: seq<V>, stack: seq<V>, pending: seq<Edge<V, E>>)
    requires FlattenInv(vs, es, visited, stack, pending) && |stack| > 0
    ensures Topological(visited + [stack[|stack| - 1]], es)
  {
    var v := stack[|stack| - 1];
    var nv := visited + [v];
    forall i, k | 0 <= i < |nv| && 0 <= k < |es| && es[k].from == nv[i]
      ensures es[k].to in nv[..i]
    {
      if i < |visited| {
        assert nv[..i] == visited[..i];
      } else {
        assert nv[..i] == visited;
        assert !HasOutgoing(pending, v);
        assert forall j :: 0 <= j < |pending| ==> pending[j] != es[k];
        assert es[k] !in pending;
      }
    }
  }

  lemma StepComplete<V(!new), E(!new)>(vs: seq<V>, es: seq<Edge<V, E>>, visited: seq<V>, stack: seq<V>, pending: seq<Edge<V, E>>)
    requires FlattenInv(vs, es, visited, stack, pending) && |stack| > 0
    ensures var v := stack[|stack| - 1];
      var kept := Keep(pending, v);
      Complete(vs, kept, visited + [v], stack[..|stack| - 1] + Ready(Sources(pending, v), kept))
  {
    var v := stack[|stack| - 1];
    var kept := Keep(pending, v);
    var sources := Sources(pending, v);
    KeepMembers(pending, v);
    SourcesMembers(pending, v);
    ReadyMembers(sources, kept);
    forall u | u in vs && !HasOutgoing(kept, u)
      ensures u in visited + [v] || u in stack[..|stack| - 1] + Ready(sources, kept)
    {
      if HasOutgoing(pending, u) {
        var k :| 0 <= k < |pending| && pending[k].from == u;
        assert pending[k] in pending;
        assert forall j :: 0 <= j < |kept| ==> kept[j].from != u;
        assert pending[k] !in kept;
        assert u in sources;
      } else {
        assert u in visited || u in stack;
        assert stack == stack[..|stack| - 1] + [v];
      }
    }
  }

  /** Moving the popped vertex to visited and pushing new vertices keeps both lists duplicate-free and disjoint. */
  lemma DistinctStep<V, E>(visited: seq<V>, stack: seq<V>, newly: seq<V>, es: seq<Edge<V, E>>)
    requires |stack| > 0
    requires Distinct(visited) && Distinct(stack) && Distinct(newly) && Disjoint(visited, stack)
    requires forall i :: 0 <= i < |visited| ==> !HasOutgoing(es, visited[i])
    requires forall i :: 0 <= i < |stack| ==> !HasOutgoing(es, stack[i])
    requires forall u :: u in newly ==> HasOutgoing(es, u)
    ensures Distinct(visited + [stack[|stack| - 1]])
    ensures Distinct(stack[..|stack| - 1] + newly)
    ensures Disjoint(visited + [stack[|stack| - 1]], stack[..|stack| - 1] + newly)
  {
    var v := stack[|stack| - 1];
    var rest := stack[..|stack| - 1];
    assert forall i, j :: 0 <= i < |newly| && 0 <= j < |stack| ==> newly[i] != stack[j];
    assert forall i, j :: 0 <= i < |newly| && 0 <= j < |visited| ==> newly[i] != visited[j];
  }

  class Graph<V(==,!new), E(==,!new)> {
    var vertices: seq<V>
    var edges: seq<Edge<V, E>>

    /** Vertices are unique and every edge joins two of them. */
    ghost predicate Valid()
      reads this
    {
      Distinct(vertices) && EdgesWithin(vertices, edges)
    }

    constructor Empty()
      ensures Valid()
      ensures vertices == [] && edges == []
    {
      vertices := [];
      edges := [];
    }

    method AddVertex(vertex: V)
      requires Valid()
      modifies this
      ensures Valid()
      ensures vertices == if vertex in old(vertices) then old(vertices) else old(vertices) + [vertex]
      ensures edges == old(edges)
    {
      var i := 0;
      while i < |vertices|
        invariant 0 <= i <= |vertices|
        invariant vertex !in vertices[..i]
      {
        if vertices[i] == vertex {
          return;
        }
        assert vertices[..i + 1] == vertices[..i] + [vertices[i]];
        i := i + 1;
      }
      assert vertices[..i] == vertices;
      vertices := vertices + [vertex];
    }

    method AddEdge(from: V, data: E, to: V)
      requires Valid()
      modifies this
      ensures Valid()
      ensures vertices == old(vertices) + (if from in old(vertices) then [] else [from])
        + (if to in old(vertices) || to == from then [] else [to])
      ensures edges == old(edges) + [Edge(from, to, data)]
    {
      if from !in vertices {
        vertices := vertices + [from];
      }
      if to !in vertices {
        vertices := vertices + [to];
      }
      edges := edges + [Edge(from, to, data)];
    }

    /** Appends to stack, in order, the candidates that have no outgoing edge in es. */
    static method PushReady(stack: seq<V>, candidates: seq<V>, es: seq<Edge<V, E>>) returns (r: seq<V>)
      ensures r == stack + Ready(candidates, es)
    {
      r := stack;
      var j := 0;
      while j < |candidates|
        invariant 0 <= j <= |candidates|
        invariant r == stack + Ready(candidates[..j], es)
      {
        assert candidates[..j + 1][..j] == candidates[..j];
        var c := candidates[j];
        var outgoing := exists k :: 0 <= k < |es| && es[k].from == c;
        if !outgoing {
          r := r + [c];
        }
        j := j + 1;
      }
      assert candidates[..j] == candidates;
    }

    /** `edges.retain(|e| e.to != v)`, collecting the sources of the removed edges. */
    static method RemoveEdgesTo(es: seq<Edge<V, E>>, v: V) returns (kept: seq<Edge<V, E>>, sources: seq<V>)
      ensures kept == Keep(es, v) && sources == Sources(es, v)
    {
      kept, sources := [], [];
      var i := 0;
      while i < |es|
        invariant 0 <= i <= |es|
        invariant kept == Keep(es[..i], v) && sources == Sources(es[..i], v)
      {
        assert es[..i + 1][..i] == es[..i];
        if es[i].to != v {
          kept := kept + [es[i]];
        } else {
          sources := sources + [es[i].from];
        }
        i := i + 1;
      }
      assert es[..i] == es;
    }

    /**
     * Kahn's algorithm: an order in which every vertex follows the targets of
     * its edges, or Cycle exactly when the graph has a cycle. With no
     * repeated edge the order holds each vertex once.
     */
    method Flatten() returns (r: Result<seq<V>, GraphError>)
      requires Valid()
      ensures r.Err? <==> HasCycle(vertices, edges)
      ensures r.Ok? ==> Topological(r.value, edges)
      ensures r.Ok? ==> forall u :: u in r.value ==> u in vertices
      ensures r.Ok? ==> forall u :: u in vertices ==> u in r.value
      ensures r.Ok? && NoDuplicatePairs(edges) ==> Distinct(r.value) && multiset(r.value) == multiset(vertices)
    {
      var visited: seq<V> := [];
      var stack := PushReady([], vertices, edges);
      FlattenInit(vertices, edges);
      var pending := edges;
      while |stack| > 0
        invariant FlattenInv(vertices, edges, visited, stack, pending)
        decreases |stack| + |pending|
      {
        var v := stack[|stack| - 1];
        FlattenStep(vertices, edges, visited, stack, pending);
        SourcesMembers(pending, v);
        stack := stack[..|stack| - 1];
        visited := visited + [v];
        var kept, sources := RemoveEdgesTo(pending, v);
        stack := PushReady(stack, sources, kept);
        pending := kept;
      }
      if |pending| == 0 {
        r := Ok(visited);
        FlattenDone(vertices, edges, visited, pending);
      } else {
        r := Err(Cycle);
        PendingEdgesFormCycle(vertices, edges, visited, pending);
      }
    }
  }

  lemma FlattenDone<V(!new), E(!new)>(vs: seq<V>, es: seq<Edge<V, E>>, visited: seq<V>, pending: seq<Edge<V, E>>)
    requires Distinct(vs)
    requires FlattenInv(vs, es, visited, [], pending) && |pending| == 0
    ensures !HasCycle(vs, es)
    ensures forall u :: u in visited ==> u in vs
    ensures forall u :: u in vs ==> u in visited
    ensures NoDuplicatePairs(es) ==> Distinct(visited) && multiset(visited) == multiset(vs)
  {
    assert forall u :: u in vs ==> !HasOutgoing(pending, u);
    TopologicalHasNoCycle(visited, vs, es);
    if NoDuplicatePairs(es) {
      SameElementsSameMultiset(visited, vs);
    }
  }

  /** When the stack runs dry with edges left, their sources form a closed set. */
  lemma PendingEdgesFormCycle<V(!new), E(!new)>(vs: seq<V>, es: seq<Edge<V, E>>, visited: seq<V>, pending: seq<Edge<V, E>>)
    requires EdgesWithin(vs, es)
    requires FlattenInv(vs, es, visited, [], pending) && |pending| > 0
    ensures HasCycle(vs, es)
  {
    var s := set k | 0 <= k < |pending| :: pending[k].from;
    assert pending[0].from in s;
    forall u | u in s
      ensures u in vs && EdgeInto(es, s, u)
    {
      var k :| 0 <= k < |pending| && pending[k].from == u;
      var t := pending[k].to;
      assert pending[k] in pending;
      var i :| 0 <= i < |es| && es[i] == pending[k];
      assert t !in visited;
      assert t in vs;
      assert HasOutgoing(pending, t);
      var k2 :| 0 <= k2 < |pending| && pending[k2].from == t;
      assert t in s;
    }
    assert ClosedSet(s, vs, es);
  }
}
