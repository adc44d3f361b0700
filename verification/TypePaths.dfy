/**
 The configuration paths of a registry of types, found by a depth-first walk, and independently as the
 routes along which no type is met twice.
 */
module TypePaths {

  // A registered type, by its position in the registry.
  type Tid = nat

  datatype Attribute =
    | PointerAttribute(name: string, pointee: Tid)
    | ContainerAttribute(name: string, item: Tid)
    | PlainAttribute(name: string)

  /** `ancestors[t]` are the types that t is a child of, directly or not; `objectTid` is ns3::Object. */
  datatype Registry = Registry(
    names: seq<string>,
    attributes: seq<seq<Attribute>>,
    ancestors: seq<set<Tid>>,
    objectTid: Tid,
    aggregates: seq<(Tid, Tid)>)
  {
    ghost predicate Valid() {
      && |names| == |attributes| == |ancestors|
      && (forall t | 0 <= t < |names| :: forall a | a in attributes[t] :: TargetOk(a))
      && (forall p | p in aggregates :: p.0 < |names| && p.1 < |names|)
    }

    predicate TargetOk(a: Attribute) {
      match a
      case PointerAttribute(_, t) => t < |names|
      case ContainerAttribute(_, t) => t < |names|
      case PlainAttribute(_) => true
    }
  }

  datatype Edge = Edge(name: string, target: Tid)

  /** A pointer to a plain Object is not followed: it would lead everywhere. */
  function AttributeEdges(g: Registry, attrs: seq<Attribute>): seq<Edge> {
    if attrs == [] then []
    else
      (match attrs[0]
       case PointerAttribute(name, t) => if t == g.objectTid then [] else [Edge(name, t)]
       case ContainerAttribute(name, t) => [Edge(name + "/[i]", t)]
       case PlainAttribute(_) => [])
      + AttributeEdges(g, attrs[1..])
  }

  /** The children of `t` among the types from position `j` on. */
  function ChildEdges(g: Registry, t: Tid, j: nat): seq<Edge>
    requires |g.names| == |g.ancestors| && j <= |g.names|
    decreases |g.names| - j
  {
    if j == |g.names| then []
    else (if t in g.ancestors[j] then [Edge("$" + g.names[j], j)] else []) + ChildEdges(g, t, j + 1)
  }

  function AggregateEdges(g: Registry, t: Tid, pairs: seq<(Tid, Tid)>): seq<Edge>
    requires forall p | p in pairs :: p.0 < |g.names| && p.1 < |g.names|
  {
    if pairs == [] then []
    else
      var (a, b) := pairs[0];
      (if b == t then [Edge("$" + g.names[a], a)] else if a == t then [Edge("$" + g.names[b], b)] else [])
      + AggregateEdges(g, t, pairs[1..])
  }

  /** All ways on from `t`, in the order in which they are tried. */
  ghost function Edges(g: Registry, t: Tid): seq<Edge>
    requires g.Valid() && t < |g.names|
  {
    AttributeEdges(g, g.attributes[t]) + ChildEdges(g, t, 0) + AggregateEdges(g, t, g.aggregates)
  }

  predicate TargetsOk(g: Registry, es: seq<Edge>) {
    forall i | 0 <= i < |es| :: es[i].target < |g.names|
  }

  lemma {:induction false} AttributeTargets(g: Registry, attrs: seq<Attribute>)
    requires forall a | a in attrs :: g.TargetOk(a)
    ensures TargetsOk(g, AttributeEdges(g, attrs))
  {
    if attrs != [] {
      assert attrs[0] in attrs;
      AttributeTargets(g, attrs[1..]);
    }
  }

  lemma {:induction false} ChildTargets(g: Registry, t: Tid, j: nat)
    requires |g.names| == |g.ancestors| && j <= |g.names|
    ensures TargetsOk(g, ChildEdges(g, t, j))
    decreases |g.names| - j
  {
    if j < |g.names| {
      ChildTargets(g, t, j + 1);
    }
  }

  lemma {:induction false} AggregateTargets(g: Registry, t: Tid, pairs: seq<(Tid, Tid)>)
    requires forall p | p in pairs :: p.0 < |g.names| && p.1 < |g.names|
    ensures TargetsOk(g, AggregateEdges(g, t, pairs))
  {
    if pairs != [] {
      assert pairs[0] in pairs;
      AggregateTargets(g, t, pairs[1..]);
    }
  }

  lemma EdgeTargets(g: Registry, t: Tid)
    requires g.Valid() && t < |g.names|
    ensures TargetsOk(g, Edges(g, t))
  {
    AttributeTargets(g, g.attributes[t]);
    ChildTargets(g, t, 0);
    AggregateTargets(g, t, g.aggregates);
  }

  // ---- The walk ------------------------------------------------------------------------------------

  function PathString(path: seq<string>): string {
    if path == [] then "" else PathString(path[..|path| - 1]) + "/" + path[|path| - 1]
  }

  function UpTo(n: nat): (s: set<nat>)
    ensures forall t: nat :: t in s <==> t < n
  {
    if n == 0 then {} else UpTo(n - 1) + {n - 1}
  }

  /** The types not yet on the stack; each call of the walk takes one away. */
  ghost function Free(g: Registry, done: set<Tid>): set<Tid> {
    UpTo(|g.names|) - done
  }

  lemma FreeShrinks(g: Registry, t: Tid, done: set<Tid>)
    requires t < |g.names| && t !in done
    ensures |Free(g, done + {t})| < |Free(g, done)|
  {
    assert Free(g, done + {t}) == Free(g, done) - {t};
    assert t in Free(g, done);
  }

  ghost function Walk(g: Registry, t: Tid, done: set<Tid>, path: seq<string>): seq<(Tid, string)>
    requires g.Valid() && t < |g.names|
    decreases |Free(g, done)|, 1, 0
  {
    if t in done then []
    else
      EdgeTargets(g, t);
      FreeShrinks(g, t, done);
      [(t, PathString(path))] + WalkEdges(g, Edges(g, t), done + {t}, path)
  }

  ghost function WalkEdges(g: Registry, es: seq<Edge>, done: set<Tid>, path: seq<string>): seq<(Tid, string)>
    requires g.Valid() && TargetsOk(g, es)
    decreases |Free(g, done)|, 2, |es|
  {
    if es == [] then []
    else Walk(g, es[0].target, done, path + [es[0].name]) + WalkEdges(g, es[1..], done, path)
  }

  lemma {:induction false} WalkEdgesJoin(g: Registry, es: seq<Edge>, fs: seq<Edge>, done: set<Tid>, path: seq<string>)
    requires g.Valid() && TargetsOk(g, es) && TargetsOk(g, fs)
    ensures TargetsOk(g, es + fs)
    ensures WalkEdges(g, es + fs, done, path) == WalkEdges(g, es, done, path) + WalkEdges(g, fs, done, path)
  {
    if es == [] {
      assert es + fs == fs;
    } else {
      assert (es + fs)[1..] == es[1..] + fs;
      WalkEdgesJoin(g, es[1..], fs, done, path);
    }
  }

  lemma Regroup<T>(h: seq<T>, x: seq<T>, y: seq<T>, z: seq<T>)
    ensures h + (x + y + z) == h + x + y + z
  {
  }

  lemma PartTargets(g: Registry, t: Tid)
    requires g.Valid() && t < |g.names|
    ensures TargetsOk(g, AttributeEdges(g, g.attributes[t]))
    ensures TargetsOk(g, ChildEdges(g, t, 0))
    ensures TargetsOk(g, AggregateEdges(g, t, g.aggregates))
  {
    AttributeTargets(g, g.attributes[t]);
    ChildTargets(g, t, 0);
    AggregateTargets(g, t, g.aggregates);
  }

  lemma JoinThree(g: Registry, a: seq<Edge>, c: seq<Edge>, b: seq<Edge>, done: set<Tid>, path: seq<string>)
    requires g.Valid() && TargetsOk(g, a) && TargetsOk(g, c) && TargetsOk(g, b)
    ensures TargetsOk(g, a + c + b)
    ensures WalkEdges(g, a + c + b, done, path)
         == WalkEdges(g, a, done, path) + WalkEdges(g, c, done, path) + WalkEdges(g, b, done, path)
  {
    WalkEdgesJoin(g, a, c, done, path);
    WalkEdgesJoin(g, a + c, b, done, path);
  }

  lemma WalkInParts(g: Registry, t: Tid, done: set<Tid>, path: seq<string>)
    requires g.Valid() && t < |g.names| && t !in done
    ensures TargetsOk(g, AttributeEdges(g, g.attributes[t]))
    ensures TargetsOk(g, ChildEdges(g, t, 0))
    ensures TargetsOk(g, AggregateEdges(g, t, g.aggregates))
    ensures Walk(g, t, done, path)
         == [(t, PathString(path))] + WalkEdges(g, AttributeEdges(g, g.attributes[t]), done + {t}, path)
            + WalkEdges(g, ChildEdges(g, t, 0), done + {t}, path)
            + WalkEdges(g, AggregateEdges(g, t, g.aggregates), done + {t}, path)
  {
    var a, c, b := AttributeEdges(g, g.attributes[t]), ChildEdges(g, t, 0), AggregateEdges(g, t, g.aggregates);
    PartTargets(g, t);
    JoinThree(g, a, c, b, done + {t}, path);
    Regroup([(t, PathString(path))], WalkEdges(g, a, done + {t}, path), WalkEdges(g, c, done + {t}, path),
            WalkEdges(g, b, done + {t}, path));
  }

  // ---- Routes: paths as the choices made on the way ----------------------------------------------------

  type Route = seq<nat>

  ghost predicate IsRoute(g: Registry, t: Tid, r: Route)
    requires g.Valid() && t < |g.names|
    decreases |r|
  {
    EdgeTargets(g, t);
    r == [] || (r[0] < |Edges(g, t)| && IsRoute(g, Edges(g, t)[r[0]].target, r[1..]))
  }

  ghost function TypesOn(g: Registry, t: Tid, r: Route): seq<Tid>
    requires g.Valid() && t < |g.names| && IsRoute(g, t, r)
    decreases |r|
  {
    EdgeTargets(g, t);
    if r == [] then [t] else [t] + TypesOn(g, Edges(g, t)[r[0]].target, r[1..])
  }

  ghost function LabelsOn(g: Registry, t: Tid, r: Route): seq<string>
    requires g.Valid() && t < |g.names| && IsRoute(g, t, r)
    decreases |r|
  {
    EdgeTargets(g, t);
    if r == [] then [] else [Edges(g, t)[r[0]].name] + LabelsOn(g, Edges(g, t)[r[0]].target, r[1..])
  }

  predicate Distinct(ts: seq<Tid>) {
    forall i, j | 0 <= i < j < |ts| :: ts[i] != ts[j]
  }

  /** A route on which no type is met twice, nor any of those in `done`. */
  ghost predicate IsSimple(g: Registry, t: Tid, r: Route, done: set<Tid>)
    requires g.Valid() && t < |g.names|
  {
    && IsRoute(g, t, r)
    && var ts := TypesOn(g, t, r);
       Distinct(ts) && forall i | 0 <= i < |ts| :: ts[i] !in done
  }

  lemma SimpleStep(g: Registry, t: Tid, r: Route, done: set<Tid>)
    requires g.Valid() && t < |g.names|
    ensures TargetsOk(g, Edges(g, t))
    ensures r == [] ==> (IsSimple(g, t, r, done) <==> t !in done)
    ensures r != [] ==>
              (IsSimple(g, t, r, done) <==>
                 && t !in done && r[0] < |Edges(g, t)|
                 && IsSimple(g, Edges(g, t)[r[0]].target, r[1..], done + {t}))
  {
    EdgeTargets(g, t);
    if IsRoute(g, t, r) {
      var ts := TypesOn(g, t, r);
      assert ts[0] == t;
      if r != [] {
        var us := TypesOn(g, Edges(g, t)[r[0]].target, r[1..]);
        assert ts == [t] + us;
        SimpleCons(t, us, done);
      }
    }
  }

  lemma SimpleCons(t: Tid, us: seq<Tid>, done: set<Tid>)
    ensures Distinct([t] + us) && (forall i | 0 <= i < |us| + 1 :: ([t] + us)[i] !in done)
       <==> t !in done && Distinct(us) && (forall i | 0 <= i < |us| :: us[i] !in done + {t})
  {
    var ts := [t] + us;
    assert ts[0] == t && forall i | 0 <= i < |us| :: us[i] == ts[i + 1];
    if Distinct(ts) && (forall i | 0 <= i < |ts| :: ts[i] !in done) {
      forall i, j | 0 <= i < j < |us|
        ensures us[i] != us[j]
      {
        assert ts[i + 1] != ts[j + 1];
      }
    }
  }

  /** Preorder: a route comes before those that go on from it and those that turn off later. */
  predicate Before(r: Route, q: Route) {
    q != [] && (r == [] || r[0] < q[0] || (r[0] == q[0] && Before(r[1..], q[1..])))
  }

  predicate Ordered(rs: seq<Route>) {
    forall i, j | 0 <= i < j < |rs| :: Before(rs[i], rs[j])
  }

  /** The routes that the walk takes, in its order. */
  ghost function Routes(g: Registry, t: Tid, done: set<Tid>): seq<Route>
    requires g.Valid() && t < |g.names|
    decreases |Free(g, done)|, 1, 0
  {
    if t in done then []
    else
      EdgeTargets(g, t);
      FreeShrinks(g, t, done);
      [[]] + RoutesFrom(g, Edges(g, t), 0, done + {t})
  }

  ghost function RoutesFrom(g: Registry, es: seq<Edge>, i: nat, done: set<Tid>): seq<Route>
    requires g.Valid() && TargetsOk(g, es) && i <= |es|
    decreases |Free(g, done)|, 2, |es| - i
  {
    if i == |es| then []
    else Turned(i, Routes(g, es[i].target, done)) + RoutesFrom(g, es, i + 1, done)
  }

  function Turned(i: nat, rs: seq<Route>): (ts: seq<Route>)
    ensures |ts| == |rs|
    ensures forall k | 0 <= k < |rs| :: ts[k] == [i] + rs[k]
  {
    seq(|rs|, k requires 0 <= k < |rs| => [i] + rs[k])
  }

  lemma TurnedHas(i: nat, rs: seq<Route>, r: Route)
    ensures r in Turned(i, rs) <==> r != [] && r[0] == i && r[1..] in rs
  {
    if r != [] && r[0] == i && r[1..] in rs {
      var k :| 0 <= k < |rs| && rs[k] == r[1..];
      assert Turned(i, rs)[k] == [i] + r[1..] == r;
    }
    if r in Turned(i, rs) {
      var k :| 0 <= k < |rs| && Turned(i, rs)[k] == r;
      assert r[1..] == rs[k];
    }
  }

  lemma {:induction false} RoutesFromHas(g: Registry, es: seq<Edge>, i: nat, done: set<Tid>, r: Route)
    requires g.Valid() && TargetsOk(g, es) && i <= |es|
    ensures r in RoutesFrom(g, es, i, done) <==>
              r != [] && i <= r[0] < |es| && r[1..] in Routes(g, es[r[0]].target, done)
    decreases |es| - i
  {
    if i < |es| {
      TurnedHas(i, Routes(g, es[i].target, done), r);
      RoutesFromHas(g, es, i + 1, done, r);
    }
  }

  /** Sound and complete: the walk takes a route exactly when no type is met twice on it. */
  lemma {:induction false} RoutesAreSimple(g: Registry, t: Tid, done: set<Tid>, r: Route)
    requires g.Valid() && t < |g.names|
    ensures r in Routes(g, t, done) <==> IsSimple(g, t, r, done)
    decreases |r|
  {
    SimpleStep(g, t, r, done);
    if t !in done {
      var es := Edges(g, t);
      RoutesFromHas(g, es, 0, done + {t}, r);
      if r != [] && r[0] < |es| {
        RoutesAreSimple(g, es[r[0]].target, done + {t}, r[1..]);
      }
    }
  }

  lemma TurnedOrdered(i: nat, rs: seq<Route>)
    requires Ordered(rs)
    ensures Ordered(Turned(i, rs))
  {
    forall j, k | 0 <= j < k < |rs|
      ensures Before(Turned(i, rs)[j], Turned(i, rs)[k])
    {
      assert ([i] + rs[j])[1..] == rs[j] && ([i] + rs[k])[1..] == rs[k];
    }
  }

  lemma OrderedJoin(rs: seq<Route>, qs: seq<Route>)
    requires Ordered(rs) && Ordered(qs)
    requires forall j, k | 0 <= j < |rs| && 0 <= k < |qs| :: Before(rs[j], qs[k])
    ensures Ordered(rs + qs)
  {
  }

  /** Preorder, and so no route twice. */
  lemma {:induction false} RoutesOrdered(g: Registry, t: Tid, done: set<Tid>)
    requires g.Valid() && t < |g.names|
    ensures Ordered(Routes(g, t, done))
    decreases |Free(g, done)|, 1, 0
  {
    if t !in done {
      EdgeTargets(g, t);
      FreeShrinks(g, t, done);
      var rest := RoutesFrom(g, Edges(g, t), 0, done + {t});
      RoutesFromOrdered(g, Edges(g, t), 0, done + {t});
      forall k | 0 <= k < |rest|
        ensures rest[k] != []
      {
        RoutesFromHas(g, Edges(g, t), 0, done + {t}, rest[k]);
      }
      OrderedJoin([[]], rest);
    }
  }

  lemma {:induction false} RoutesFromOrdered(g: Registry, es: seq<Edge>, i: nat, done: set<Tid>)
    requires g.Valid() && TargetsOk(g, es) && i <= |es|
    ensures Ordered(RoutesFrom(g, es, i, done))
    decreases |Free(g, done)|, 2, |es| - i
  {
    if i < |es| {
      var here := Routes(g, es[i].target, done);
      RoutesOrdered(g, es[i].target, done);
      TurnedOrdered(i, here);
      RoutesFromOrdered(g, es, i + 1, done);
      var rest := RoutesFrom(g, es, i + 1, done);
      forall j, k | 0 <= j < |here| && 0 <= k < |rest|
        ensures Before(Turned(i, here)[j], rest[k])
      {
        RoutesFromHas(g, es, i + 1, done, rest[k]);
      }
      OrderedJoin(Turned(i, here), rest);
    }
  }

  // ---- The walk reports the routes --------------------------------------------------------------------------

  ghost function EndOf(g: Registry, t: Tid, r: Route): (e: Tid)
    requires g.Valid() && t < |g.names| && IsRoute(g, t, r)
    ensures TypesOn(g, t, r) != [] && e == TypesOn(g, t, r)[|TypesOn(g, t, r)| - 1]
    decreases |r|
  {
    EdgeTargets(g, t);
    if r == [] then t else EndOf(g, Edges(g, t)[r[0]].target, r[1..])
  }

  /** What is reported for a route: its last type, and the labels on the way to it. */
  ghost function Report(g: Registry, t: Tid, path: seq<string>, r: Route): (Tid, string)
    requires g.Valid() && t < |g.names| && IsRoute(g, t, r)
  {
    (EndOf(g, t, r), PathString(path + LabelsOn(g, t, r)))
  }

  ghost predicate Reports(g: Registry, t: Tid, path: seq<string>, rs: seq<Route>, out: seq<(Tid, string)>)
    requires g.Valid() && t < |g.names|
  {
    && |out| == |rs|
    && forall k | 0 <= k < |rs| :: IsRoute(g, t, rs[k]) && out[k] == Report(g, t, path, rs[k])
  }

  lemma ReportTurned(g: Registry, t: Tid, path: seq<string>, i: nat, r: Route)
    requires g.Valid() && t < |g.names| && TargetsOk(g, Edges(g, t)) && i < |Edges(g, t)|
    requires IsRoute(g, Edges(g, t)[i].target, r)
    ensures IsRoute(g, t, [i] + r)
    ensures Report(g, t, path, [i] + r) == Report(g, Edges(g, t)[i].target, path + [Edges(g, t)[i].name], r)
  {
    var e := Edges(g, t)[i];
    assert ([i] + r)[1..] == r;
    assert path + LabelsOn(g, t, [i] + r) == path + [e.name] + LabelsOn(g, e.target, r);
  }

  lemma ReportsTurned(g: Registry, t: Tid, path: seq<string>, i: nat, rs: seq<Route>, out: seq<(Tid, string)>)
    requires g.Valid() && t < |g.names| && TargetsOk(g, Edges(g, t)) && i < |Edges(g, t)|
    requires Reports(g, Edges(g, t)[i].target, path + [Edges(g, t)[i].name], rs, out)
    ensures Reports(g, t, path, Turned(i, rs), out)
  {
    forall k | 0 <= k < |rs|
      ensures IsRoute(g, t, Turned(i, rs)[k]) && out[k] == Report(g, t, path, Turned(i, rs)[k])
    {
      ReportTurned(g, t, path, i, rs[k]);
    }
  }

  lemma ReportsJoin(g: Registry, t: Tid, path: seq<string>, rs: seq<Route>, out: seq<(Tid, string)>,
                    qs: seq<Route>, more: seq<(Tid, string)>)
    requires g.Valid() && t < |g.names| && Reports(g, t, path, rs, out) && Reports(g, t, path, qs, more)
    ensures Reports(g, t, path, rs + qs, out + more)
  {
  }

  lemma {:induction false} WalkReports(g: Registry, t: Tid, done: set<Tid>, path: seq<string>)
    requires g.Valid() && t < |g.names|
    ensures Reports(g, t, path, Routes(g, t, done), Walk(g, t, done, path))
    decreases |Free(g, done)|, 1, 0
  {
    if t !in done {
      EdgeTargets(g, t);
      FreeShrinks(g, t, done);
      var es := Edges(g, t);
      assert es[0..] == es;
      WalkEdgesReport(g, t, 0, done + {t}, path);
      assert path + [] == path;
      assert Reports(g, t, path, [[]], [(t, PathString(path))]);
      ReportsJoin(g, t, path, [[]], [(t, PathString(path))], RoutesFrom(g, es, 0, done + {t}),
                  WalkEdges(g, es, done + {t}, path));
    }
  }

  lemma {:induction false} WalkEdgesReport(g: Registry, t: Tid, i: nat, done: set<Tid>, path: seq<string>)
    requires g.Valid() && t < |g.names| && TargetsOk(g, Edges(g, t)) && i <= |Edges(g, t)|
    ensures Reports(g, t, path, RoutesFrom(g, Edges(g, t), i, done), WalkEdges(g, Edges(g, t)[i..], done, path))
    decreases |Free(g, done)|, 2, |Edges(g, t)| - i
  {
    var es := Edges(g, t);
    if i < |es| {
      var e := es[i];
      assert es[i..][0] == e && es[i..][1..] == es[i + 1..];
      WalkReports(g, e.target, done, path + [e.name]);
      var rs, out := Routes(g, e.target, done), Walk(g, e.target, done, path + [e.name]);
      ReportsTurned(g, t, path, i, rs, out);
      WalkEdgesReport(g, t, i + 1, done, path);
      ReportsJoin(g, t, path, Turned(i, rs), out, RoutesFrom(g, es, i + 1, done),
                  WalkEdges(g, es[i + 1..], done, path));
    }
  }

  lemma {:induction false} BeforeIsIrreflexive(r: Route)
    ensures !Before(r, r)
    decreases |r|
  {
    if r != [] {
      BeforeIsIrreflexive(r[1..]);
    }
  }

  predicate AllDifferent(rs: seq<Route>) {
    forall i, j | 0 <= i < j < |rs| :: rs[i] != rs[j]
  }

  lemma OrderedAreDifferent(rs: seq<Route>)
    requires Ordered(rs)
    ensures AllDifferent(rs)
  {
    forall i, j | 0 <= i < j < |rs|
      ensures rs[i] != rs[j]
    {
      BeforeIsIrreflexive(rs[i]);
    }
  }

  /**
   From a root with nothing on the stack, the walk reports, in preorder and each once, exactly the paths
   on which no type is met twice.
   */
  lemma WalkIsPreorderOfSimplePaths(g: Registry, root: Tid)
    requires g.Valid() && root < |g.names|
    ensures var rs := Routes(g, root, {});
            && Reports(g, root, [], rs, Walk(g, root, {}, []))
            && Ordered(rs) && AllDifferent(rs)
            && forall r :: r in rs <==> IsSimple(g, root, r, {})
  {
    WalkReports(g, root, {}, []);
    RoutesOrdered(g, root, {});
    OrderedAreDifferent(Routes(g, root, {}));
    forall r
      ensures r in Routes(g, root, {}) <==> IsSimple(g, root, r, {})
    {
      RoutesAreSimple(g, root, {}, r);
    }
  }

  // ---- What sorting and removing duplicates would change ------------------------------------------------

  predicate SortedByType(output: seq<(Tid, string)>) {
    forall i, j | 0 <= i < j < |output| :: output[i].0 <= output[j].0
  }

  predicate NoneTwice(output: seq<(Tid, string)>) {
    forall i, j | 0 <= i < j < |output| :: output[i] != output[j]
  }

  /** The second of two types is the parent of the first, and comes before it. */
  lemma WalkCanBeUnsorted() returns (g: Registry)
    ensures g.Valid() && |g.names| == 2 && !SortedByType(Walk(g, 1, {}, []))
  {
    g := Registry(["a", "b"], [[], []], [{1}, {}], 9, []);
    FreeShrinks(g, 1, {});
    assert AttributeEdges(g, g.attributes[1]) == [] && AggregateEdges(g, 1, g.aggregates) == [];
    assert ChildEdges(g, 1, 2) == [] && ChildEdges(g, 1, 1) == [];
    var e := Edge("$" + g.names[0], 0);
    assert ChildEdges(g, 1, 0) == [e];
    assert Edges(g, 1) == [e];
    var walk := Walk(g, 1, {}, []);
    assert walk[0].0 == 1 && walk[1].0 == 0 by {
      OneEdge(g, e, {} + {1}, []);
    }
  }

  lemma OneEdge(g: Registry, e: Edge, done: set<Tid>, path: seq<string>)
    requires g.Valid() && e.target < |g.names| && e.target !in done
    ensures WalkEdges(g, [e], done, path) == Walk(g, e.target, done, path + [e.name])
    ensures |WalkEdges(g, [e], done, path)| > 0
    ensures WalkEdges(g, [e], done, path)[0] == (e.target, PathString(path + [e.name]))
  {
    assert [e][1..] == [];
    assert Walk(g, e.target, done, path + [e.name]) + [] == Walk(g, e.target, done, path + [e.name]);
  }

  /** Two types, and an aggregation of them registered twice. */
  const AGGREGATED_TWICE := Registry(["a", "b"], [[], []], [{}, {}], 9, [(0, 1), (0, 1)])

  lemma TwoEqualEdges(e: Edge)
    requires e == Edge("$b", 1)
    ensures AGGREGATED_TWICE.Valid() && Edges(AGGREGATED_TWICE, 0) == [e] + [e]
  {
    var g := AGGREGATED_TWICE;
    assert "$" + g.names[1] == "$b";
    assert AttributeEdges(g, g.attributes[0]) == [];
    assert ChildEdges(g, 0, 2) == [] && ChildEdges(g, 0, 1) == [] && ChildEdges(g, 0, 0) == [];
    assert g.aggregates[1..] == [(0, 1)] && g.aggregates[1..][1..] == [];
    assert AggregateEdges(g, 0, []) == [] && AggregateEdges(g, 0, [(0, 1)]) == [e];
    assert AggregateEdges(g, 0, g.aggregates) == [e] + [e];
  }

  lemma TwiceTheSame(g: Registry, e: Edge, done: set<Tid>, path: seq<string>) returns (n: nat)
    requires g.Valid() && e.target < |g.names| && e.target !in done
    ensures TargetsOk(g, [e] + [e])
    ensures var walk := WalkEdges(g, [e] + [e], done, path);
            0 < n < |walk| && walk[0] == walk[n]
  {
    OneEdge(g, e, done, path);
    WalkEdgesJoin(g, [e], [e], done, path);
    var half := WalkEdges(g, [e], done, path);
    n := |half|;
    assert (half + half)[0] == (half + half)[n];
  }

  lemma WalkUnfolds(g: Registry, t: Tid, done: set<Tid>, path: seq<string>)
    requires g.Valid() && t < |g.names| && t !in done
    ensures TargetsOk(g, Edges(g, t))
    ensures Walk(g, t, done, path) == [(t, PathString(path))] + WalkEdges(g, Edges(g, t), done + {t}, path)
  {
    EdgeTargets(g, t);
    FreeShrinks(g, t, done);
  }

  /** Every path through that aggregation is then reported twice. */
  lemma WalkCanRepeat() returns (g: Registry)
    ensures g.Valid() && |g.names| == 2 && !NoneTwice(Walk(g, 0, {}, []))
  {
    g := AGGREGATED_TWICE;
    var e := Edge("$b", 1);
    TwoEqualEdges(e);
    WalkUnfolds(g, 0, {}, []);
    var n := TwiceTheSame(g, e, {} + {0}, []);
    var walk, rest := Walk(g, 0, {}, []), WalkEdges(g, [e] + [e], {} + {0}, []);
    assert walk[1] == rest[0] && walk[n + 1] == rest[n];
  }
}
