/**
 What the walk over the registry reports, told from the registry alone: the chains of types, each reached
 from the one before by a pointer or container attribute, as a child, or as an aggregated object.
 */
module TypeChains {
  import opened TypePaths

  // ---- One step -----------------------------------------------------------------------------------------------

  /** What an edge comes from: an attribute of the type, a registered type, or a known aggregation. */
  datatype Origin = FromAttribute(i: nat) | FromChild(u: Tid) | FromAggregate(k: nat)

  /** From `t` one gets to `u` by `name`, because of `o`. */
  predicate EdgeFrom(g: Registry, t: Tid, o: Origin, name: string, u: Tid)
    requires |g.names| == |g.attributes| == |g.ancestors| && t < |g.names|
  {
    u < |g.names| &&
    match o
    case FromAttribute(i) =>
      i < |g.attributes[t]| &&
      (match g.attributes[t][i]
       case PointerAttribute(l, pointee) => name == l && u == pointee && u != g.objectTid
       case ContainerAttribute(l, item) => name == l + "/[i]" && u == item
       case PlainAttribute(_) => false)
    case FromChild(c) => c == u && t in g.ancestors[u] && name == "$" + g.names[u]
    case FromAggregate(k) =>
      && k < |g.aggregates| && (g.aggregates[k] == (t, u) || g.aggregates[k] == (u, t))
      && name == "$" + g.names[u]
  }

  /** Attributes in order, then children in order of registration, then aggregations in order. */
  predicate Earlier(o: Origin, p: Origin) {
    match (o, p)
    case (FromAttribute(i), FromAttribute(j)) => i < j
    case (FromAttribute(_), _) => true
    case (FromChild(u), FromChild(v)) => u < v
    case (FromChild(_), FromAggregate(_)) => true
    case (FromAggregate(k), FromAggregate(l)) => k < l
    case _ => false
  }

  /** The edges have these origins, one each and in order. */
  predicate Originate(g: Registry, t: Tid, es: seq<Edge>, os: seq<Origin>)
    requires |g.names| == |g.attributes| == |g.ancestors| && t < |g.names|
  {
    && |os| == |es|
    && (forall k | 0 <= k < |es| :: EdgeFrom(g, t, os[k], es[k].name, es[k].target))
    && (forall j, k | 0 <= j < k < |os| :: Earlier(os[j], os[k]))
  }

  /** No edge with an origin of this kind from the `n`-th on is missing. */
  ghost predicate AllFrom(g: Registry, t: Tid, kind: nat, n: nat, os: seq<Origin>)
    requires |g.names| == |g.attributes| == |g.ancestors| && t < |g.names|
  {
    forall o, name, u | Kind(o) == kind && Position(o) >= n && EdgeFrom(g, t, o, name, u) :: o in os
  }

  function Kind(o: Origin): nat {
    match o
    case FromAttribute(_) => 0
    case FromChild(_) => 1
    case FromAggregate(_) => 2
  }

  function Position(o: Origin): nat {
    match o
    case FromAttribute(i) => i
    case FromChild(u) => u
    case FromAggregate(k) => k
  }

  predicate Within(os: seq<Origin>, kind: nat, n: nat) {
    forall k | 0 <= k < |os| :: Kind(os[k]) == kind && Position(os[k]) >= n
  }

  lemma TwoParts(g: Registry, t: Tid, es: seq<Edge>, os: seq<Origin>, es1: seq<Edge>, os1: seq<Origin>)
    requires g.Valid() && t < |g.names| && Originate(g, t, es, os) && Originate(g, t, es1, os1)
    requires forall j, k | 0 <= j < |os| && 0 <= k < |os1| :: Earlier(os[j], os1[k])
    ensures Originate(g, t, es + es1, os + os1)
  {
  }

  /** One more origin in front, or none if its place gives no edge. */
  lemma PutInFront(g: Registry, t: Tid, kind: nat, n: nat, es: seq<Edge>, os: seq<Origin>,
                   front: seq<Edge>, o: Origin) returns (all: seq<Origin>)
    requires g.Valid() && t < |g.names| && Kind(o) == kind && Position(o) == n
    requires Originate(g, t, es, os) && Within(os, kind, n + 1) && AllFrom(g, t, kind, n + 1, os)
    requires front == [] ==> forall name, u :: !EdgeFrom(g, t, o, name, u)
    requires front != [] ==> |front| == 1 && EdgeFrom(g, t, o, front[0].name, front[0].target)
    ensures Originate(g, t, front + es, all) && Within(all, kind, n) && AllFrom(g, t, kind, n, all)
  {
    var here := if front == [] then [] else [o];
    all := here + os;
    TwoParts(g, t, front, here, es, os);
    forall p, name, u | Kind(p) == kind && Position(p) >= n && EdgeFrom(g, t, p, name, u)
      ensures p in all
    {
      if Position(p) == n {
        assert p == o;
      }
    }
  }

  lemma {:induction false} AttributeOrigins(g: Registry, t: Tid, n: nat) returns (os: seq<Origin>)
    requires g.Valid() && t < |g.names| && n <= |g.attributes[t]|
    ensures var es := AttributeEdges(g, g.attributes[t][n..]);
            Originate(g, t, es, os) && Within(os, 0, n) && AllFrom(g, t, 0, n, os)
    decreases |g.attributes[t]| - n
  {
    var attrs := g.attributes[t];
    if n == |attrs| {
      os := [];
    } else {
      var rest := AttributeOrigins(g, t, n + 1);
      var a := attrs[n];
      assert attrs[n..][1..] == attrs[n + 1..] && g.TargetOk(a);
      var front := match a
        case PointerAttribute(name, u) => if u == g.objectTid then [] else [Edge(name, u)]
        case ContainerAttribute(name, u) => [Edge(name + "/[i]", u)]
        case PlainAttribute(_) => [];
      os := PutInFront(g, t, 0, n, AttributeEdges(g, attrs[n + 1..]), rest, front, FromAttribute(n));
    }
  }

  lemma {:induction false} ChildOrigins(g: Registry, t: Tid, n: nat) returns (os: seq<Origin>)
    requires g.Valid() && t < |g.names| && n <= |g.names|
    ensures Originate(g, t, ChildEdges(g, t, n), os) && Within(os, 1, n) && AllFrom(g, t, 1, n, os)
    decreases |g.names| - n
  {
    if n == |g.names| {
      os := [];
    } else {
      var rest := ChildOrigins(g, t, n + 1);
      var front := if t in g.ancestors[n] then [Edge("$" + g.names[n], n)] else [];
      os := PutInFront(g, t, 1, n, ChildEdges(g, t, n + 1), rest, front, FromChild(n));
    }
  }

  lemma {:induction false} AggregateOrigins(g: Registry, t: Tid, n: nat) returns (os: seq<Origin>)
    requires g.Valid() && t < |g.names| && n <= |g.aggregates|
    ensures var es := AggregateEdges(g, t, g.aggregates[n..]);
            Originate(g, t, es, os) && Within(os, 2, n) && AllFrom(g, t, 2, n, os)
    decreases |g.aggregates| - n
  {
    if n == |g.aggregates| {
      os := [];
    } else {
      var rest := AggregateOrigins(g, t, n + 1);
      var (a, b) := g.aggregates[n];
      assert g.aggregates[n..][1..] == g.aggregates[n + 1..] && g.aggregates[n] in g.aggregates;
      var front := if b == t then [Edge("$" + g.names[a], a)] else if a == t then [Edge("$" + g.names[b], b)] else [];
      os := PutInFront(g, t, 2, n, AggregateEdges(g, t, g.aggregates[n + 1..]), rest, front, FromAggregate(n));
    }
  }

  /**
   The ways on from a type are exactly those that the registry gives it, one for each attribute that is not
   a pointer to a plain Object, each child and each aggregation, in this order.
   */
  lemma EdgesFromRegistry(g: Registry, t: Tid) returns (os: seq<Origin>)
    requires g.Valid() && t < |g.names|
    ensures Originate(g, t, Edges(g, t), os)
    ensures forall o, name, u | EdgeFrom(g, t, o, name, u) :: o in os
  {
    var a := AttributeOrigins(g, t, 0);
    var c := ChildOrigins(g, t, 0);
    var b := AggregateOrigins(g, t, 0);
    assert g.attributes[t][0..] == g.attributes[t] && g.aggregates[0..] == g.aggregates;
    os := a + c + b;
    TwoParts(g, t, AttributeEdges(g, g.attributes[t]), a, ChildEdges(g, t, 0), c);
    TwoParts(g, t, AttributeEdges(g, g.attributes[t]) + ChildEdges(g, t, 0), a + c,
             AggregateEdges(g, t, g.aggregates), b);
    forall o, name, u | EdgeFrom(g, t, o, name, u)
      ensures o in os
    {
      assert Kind(o) == 0 || Kind(o) == 1 || Kind(o) == 2;
    }
  }

  /** Some origin leads from `t` to `u` by this label. */
  ghost predicate Joined(g: Registry, t: Tid, name: string, u: Tid)
    requires |g.names| == |g.attributes| == |g.ancestors| && t < |g.names|
  {
    exists o :: EdgeFrom(g, t, o, name, u)
  }

  /** An origin gives one edge. */
  lemma OneEdgeEach(g: Registry, t: Tid, o: Origin, name: string, u: Tid, name1: string, u1: Tid)
    requires g.Valid() && t < |g.names| && EdgeFrom(g, t, o, name, u) && EdgeFrom(g, t, o, name1, u1)
    ensures u == u1 && name == name1
  {
  }

  lemma JoinedIffEdge(g: Registry, t: Tid, name: string, u: Tid)
    requires g.Valid() && t < |g.names|
    ensures Joined(g, t, name, u) <==> Edge(name, u) in Edges(g, t)
  {
    var os := EdgesFromRegistry(g, t);
    var es := Edges(g, t);
    if Edge(name, u) in es {
      var k :| 0 <= k < |es| && es[k] == Edge(name, u);
      assert EdgeFrom(g, t, os[k], name, u);
    }
    if Joined(g, t, name, u) {
      var o :| EdgeFrom(g, t, o, name, u);
      var k :| 0 <= k < |os| && os[k] == o;
      OneEdgeEach(g, t, o, name, u, es[k].name, es[k].target);
      assert es[k] == Edge(name, u);
    }
  }

  // ---- Many steps ---------------------------------------------------------------------------------------------

  /** Types from `t` on, each joined to the next by its label. */
  ghost predicate IsChain(g: Registry, t: Tid, labels: seq<string>, types: seq<Tid>)
    requires |g.names| == |g.attributes| == |g.ancestors| && t < |g.names|
    decreases |labels|
  {
    && |types| == |labels| + 1 && types[0] == t
    && (labels != [] ==>
          && types[1] < |g.names| && Joined(g, t, labels[0], types[1])
          && IsChain(g, types[1], labels[1..], types[1..]))
  }

  lemma {:induction false} RouteIsChain(g: Registry, t: Tid, r: Route)
    requires g.Valid() && t < |g.names| && IsRoute(g, t, r)
    ensures IsChain(g, t, LabelsOn(g, t, r), TypesOn(g, t, r))
    ensures EndOf(g, t, r) == TypesOn(g, t, r)[|TypesOn(g, t, r)| - 1]
    decreases |r|
  {
    EdgeTargets(g, t);
    if r != [] {
      var e := Edges(g, t)[r[0]];
      RouteIsChain(g, e.target, r[1..]);
      JoinedIffEdge(g, t, e.name, e.target);
      assert Edge(e.name, e.target) in Edges(g, t);
      assert TypesOn(g, t, r)[1..] == TypesOn(g, e.target, r[1..]);
      assert LabelsOn(g, t, r)[1..] == LabelsOn(g, e.target, r[1..]);
    }
  }

  lemma {:induction false} ChainIsRoute(g: Registry, t: Tid, labels: seq<string>, types: seq<Tid>) returns (r: Route)
    requires g.Valid() && t < |g.names| && IsChain(g, t, labels, types)
    ensures IsRoute(g, t, r) && LabelsOn(g, t, r) == labels && TypesOn(g, t, r) == types
    decreases |labels|
  {
    EdgeTargets(g, t);
    if labels == [] {
      r := [];
    } else {
      JoinedIffEdge(g, t, labels[0], types[1]);
      var k :| 0 <= k < |Edges(g, t)| && Edges(g, t)[k] == Edge(labels[0], types[1]);
      var rest := ChainIsRoute(g, types[1], labels[1..], types[1..]);
      r := [k] + rest;
      assert r[1..] == rest;
    }
  }

  /** The type at the end of a chain on which no type is met twice, with the labels on the way. */
  ghost predicate EndsChain(g: Registry, root: Tid, entry: (Tid, string), labels: seq<string>, types: seq<Tid>)
    requires |g.names| == |g.attributes| == |g.ancestors| && root < |g.names|
  {
    && IsChain(g, root, labels, types) && Distinct(types)
    && entry == (types[|types| - 1], PathString(labels))
  }

  /**
   From a root with nothing on the stack, the walk reports exactly the ends of the chains of different types
   that the registry gives, each with the labels on the way.
   */
  lemma WalkReportsChains(g: Registry, root: Tid, entry: (Tid, string))
    requires g.Valid() && root < |g.names|
    ensures entry in Walk(g, root, {}, []) <==> exists labels, types :: EndsChain(g, root, entry, labels, types)
  {
    WalkIsPreorderOfSimplePaths(g, root);
    var rs, walk := Routes(g, root, {}), Walk(g, root, {}, []);
    if entry in walk {
      var i :| 0 <= i < |walk| && walk[i] == entry;
      EntryOfRoute(g, root, rs, walk, i);
    }
    if exists labels, types :: EndsChain(g, root, entry, labels, types) {
      var labels, types :| EndsChain(g, root, entry, labels, types);
      var r := ChainIsRoute(g, root, labels, types);
      assert IsSimple(g, root, r, {});
      var i :| 0 <= i < |rs| && rs[i] == r;
      RouteIsChain(g, root, r);
      assert [] + labels == labels;
      assert walk[i] == entry;
    }
  }

  lemma EntryOfRoute(g: Registry, root: Tid, rs: seq<Route>, walk: seq<(Tid, string)>, i: nat)
    requires g.Valid() && root < |g.names| && Reports(g, root, [], rs, walk) && i < |walk|
    requires forall r :: r in rs <==> IsSimple(g, root, r, {})
    ensures exists labels, types :: EndsChain(g, root, walk[i], labels, types)
  {
    var r := rs[i];
    assert r in rs;
    RouteIsChain(g, root, r);
    assert [] + LabelsOn(g, root, r) == LabelsOn(g, root, r);
    assert EndsChain(g, root, walk[i], LabelsOn(g, root, r), TypesOn(g, root, r));
  }

  /** The labels of a path are read from the root on, each after a slash. */
  lemma {:induction false} PathFromRoot(name: string, path: seq<string>)
    ensures PathString([]) == ""
    ensures PathString([name] + path) == "/" + name + PathString(path)
    decreases |path|
  {
    var all := [name] + path;
    if path == [] {
      assert all[..|all| - 1] == [];
      assert "" + "/" + name == "/" + name + "";
    } else {
      var front, last := path[..|path| - 1], path[|path| - 1];
      PathFromRoot(name, front);
      assert all[..|all| - 1] == [name] + front;
      Regroup("/" + name, PathString(front), "/", last);
    }
  }
}
