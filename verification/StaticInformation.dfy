/** StaticInformation as an object: the recursive gathering of configuration paths with its two stacks. */
module StaticInformation {
  import opened TypePaths

  class StaticInformation {
    const g: Registry
    var output: seq<(Tid, string)>
    var currentPath: seq<string>
    var alreadyProcessed: seq<Tid>

    constructor (g: Registry)
      requires g.Valid()
      ensures this.g == g && output == [] && currentPath == [] && alreadyProcessed == []
    {
      this.g := g;
      output, currentPath, alreadyProcessed := [], [], [];
    }

    ghost function Done(): set<Tid>
      reads this
    {
      set t | t in alreadyProcessed
    }

    method GetCurrentPath() returns (s: string)
      ensures s == PathString(currentPath)
    {
      s := "";
      for i := 0 to |currentPath|
        invariant s == PathString(currentPath[..i])
      {
        assert currentPath[..i + 1][..i] == currentPath[..i];
        s := s + "/" + currentPath[i];
      }
      assert currentPath[..|currentPath|] == currentPath;
    }

    method RecordOutput(tid: Tid)
      modifies this`output
      ensures output == old(output) + [(tid, PathString(currentPath))]
    {
      var path := GetCurrentPath();
      output := output + [(tid, path)];
    }

    method HasAlreadyBeenProcessed(tid: Tid) returns (found: bool)
      ensures found <==> tid in Done()
    {
      for i := 0 to |alreadyProcessed|
        invariant tid !in alreadyProcessed[..i]
      {
        if alreadyProcessed[i] == tid {
          return true;
        }
      }
      found := false;
    }

    /** Goes one edge further, and comes back with both stacks as they were. */
    method Follow(tid: Tid, name: string, target: Tid)
      requires g.Valid() && tid < |g.names| && target < |g.names| && tid !in Done()
      modifies this
      ensures currentPath == old(currentPath) && alreadyProcessed == old(alreadyProcessed)
      ensures output == old(output) + Walk(g, target, old(Done()) + {tid}, old(currentPath) + [name])
      decreases |Free(g, Done())|, 0
    {
      FreeShrinks(g, tid, Done());
      currentPath := currentPath + [name];
      alreadyProcessed := alreadyProcessed + [tid];
      assert Done() == old(Done()) + {tid};
      DoGather(target);
      alreadyProcessed := alreadyProcessed[..|alreadyProcessed| - 1];
      currentPath := currentPath[..|currentPath| - 1];
    }

    /** Appends the walk from `tid`; both stacks come back as they were. */
    method DoGather(tid: Tid)
      requires g.Valid() && tid < |g.names|
      modifies this
      ensures currentPath == old(currentPath) && alreadyProcessed == old(alreadyProcessed)
      ensures output == old(output) + Walk(g, tid, old(Done()), old(currentPath))
      decreases |Free(g, Done())|, 3
    {
      var processed := HasAlreadyBeenProcessed(tid);
      if processed {
        assert output == output + [];
        return;
      }
      ghost var start, done, path := output, Done() + {tid}, currentPath;
      WalkInParts(g, tid, Done(), currentPath);
      ghost var here := [(tid, PathString(path))];
      ghost var attributes := WalkEdges(g, AttributeEdges(g, g.attributes[tid]), done, path);
      ghost var children := WalkEdges(g, ChildEdges(g, tid, 0), done, path);
      ghost var aggregates := WalkEdges(g, AggregateEdges(g, tid, g.aggregates), done, path);
      assert start + here + attributes + children + aggregates
          == start + (here + attributes + children + aggregates);
      GatherEdges(tid);
    }

    method GatherEdges(tid: Tid)
      requires g.Valid() && tid < |g.names| && tid !in Done()
      requires TargetsOk(g, AttributeEdges(g, g.attributes[tid])) && TargetsOk(g, ChildEdges(g, tid, 0))
      requires TargetsOk(g, AggregateEdges(g, tid, g.aggregates))
      modifies this
      ensures currentPath == old(currentPath) && alreadyProcessed == old(alreadyProcessed)
      ensures var done, path := old(Done()) + {tid}, currentPath;
              output == old(output) + [(tid, PathString(path))]
                        + WalkEdges(g, AttributeEdges(g, g.attributes[tid]), done, path)
                        + WalkEdges(g, ChildEdges(g, tid, 0), done, path)
                        + WalkEdges(g, AggregateEdges(g, tid, g.aggregates), done, path)
      decreases |Free(g, Done())|, 2
    {
      RecordOutput(tid);
      GatherAttributes(tid);
      GatherChildren(tid);
      GatherAggregates(tid);
    }

    /** The edges `es` have been followed from `tid`, in order. */
    ghost predicate Followed(before: seq<(Tid, string)>, tid: Tid, es: seq<Edge>)
      requires g.Valid() && TargetsOk(g, es)
      reads this
    {
      output == before + WalkEdges(g, es, Done() + {tid}, currentPath)
    }

    method GatherAttributes(tid: Tid)
      requires g.Valid() && tid < |g.names| && tid !in Done()
      modifies this
      ensures currentPath == old(currentPath) && alreadyProcessed == old(alreadyProcessed)
      ensures TargetsOk(g, AttributeEdges(g, g.attributes[tid]))
      ensures Followed(old(output), tid, AttributeEdges(g, g.attributes[tid]))
      decreases |Free(g, Done())|, 1
    {
      var attrs := g.attributes[tid];
      AttributeTargets(g, attrs);
      ghost var goal := output + WalkEdges(g, AttributeEdges(g, attrs), Done() + {tid}, currentPath);
      var rest := attrs;
      while rest != []
        invariant forall a | a in rest :: g.TargetOk(a)
        invariant TargetsOk(g, AttributeEdges(g, rest))
        invariant currentPath == old(currentPath) && alreadyProcessed == old(alreadyProcessed)
        invariant output + WalkEdges(g, AttributeEdges(g, rest), Done() + {tid}, currentPath) == goal
        decreases |rest|
      {
        var info := rest[0];
        ghost var before := output;
        AttributeTargets(g, rest[1..]);
        match info {
          case PointerAttribute(name, pointee) =>
            if pointee != g.objectTid {
              OneMore(before, AttributeEdges(g, rest), Done() + {tid}, currentPath);
              Follow(tid, name, pointee);
            }
          case ContainerAttribute(name, item) =>
            OneMore(before, AttributeEdges(g, rest), Done() + {tid}, currentPath);
            Follow(tid, name + "/[i]", item);
          case PlainAttribute(_) =>
        }
        assert AttributeEdges(g, rest) == AttributeEdges(g, rest[1..])
            || AttributeEdges(g, rest)[1..] == AttributeEdges(g, rest[1..]);
        rest := rest[1..];
      }
    }

    /** Following the first edge of several brings what is still to come one edge nearer. */
    lemma OneMore(before: seq<(Tid, string)>, es: seq<Edge>, done: set<Tid>, path: seq<string>)
      requires g.Valid() && TargetsOk(g, es) && es != []
      ensures before + WalkEdges(g, es, done, path)
           == before + Walk(g, es[0].target, done, path + [es[0].name]) + WalkEdges(g, es[1..], done, path)
    {
    }

    method GatherChildren(tid: Tid)
      requires g.Valid() && tid < |g.names| && tid !in Done()
      modifies this
      ensures currentPath == old(currentPath) && alreadyProcessed == old(alreadyProcessed)
      ensures TargetsOk(g, ChildEdges(g, tid, 0))
      ensures Followed(old(output), tid, ChildEdges(g, tid, 0))
      decreases |Free(g, Done())|, 1
    {
      ChildTargets(g, tid, 0);
      ghost var goal := output + WalkEdges(g, ChildEdges(g, tid, 0), Done() + {tid}, currentPath);
      for j := 0 to |g.names|
        invariant TargetsOk(g, ChildEdges(g, tid, j))
        invariant currentPath == old(currentPath) && alreadyProcessed == old(alreadyProcessed)
        invariant output + WalkEdges(g, ChildEdges(g, tid, j), Done() + {tid}, currentPath) == goal
      {
        ChildTargets(g, tid, j + 1);
        if tid in g.ancestors[j] {
          OneMore(output, ChildEdges(g, tid, j), Done() + {tid}, currentPath);
          Follow(tid, "$" + g.names[j], j);
          assert ChildEdges(g, tid, j)[1..] == ChildEdges(g, tid, j + 1);
        } else {
          assert ChildEdges(g, tid, j) == ChildEdges(g, tid, j + 1);
        }
      }
    }

    method GatherAggregates(tid: Tid)
      requires g.Valid() && tid < |g.names| && tid !in Done()
      modifies this
      ensures currentPath == old(currentPath) && alreadyProcessed == old(alreadyProcessed)
      ensures TargetsOk(g, AggregateEdges(g, tid, g.aggregates))
      ensures Followed(old(output), tid, AggregateEdges(g, tid, g.aggregates))
      decreases |Free(g, Done())|, 1
    {
      AggregateTargets(g, tid, g.aggregates);
      ghost var goal := output + WalkEdges(g, AggregateEdges(g, tid, g.aggregates), Done() + {tid}, currentPath);
      var rest: seq<(Tid, Tid)> := g.aggregates;
      while rest != []
        invariant forall p | p in rest :: p.0 < |g.names| && p.1 < |g.names|
        invariant TargetsOk(g, AggregateEdges(g, tid, rest))
        invariant currentPath == old(currentPath) && alreadyProcessed == old(alreadyProcessed)
        invariant output + WalkEdges(g, AggregateEdges(g, tid, rest), Done() + {tid}, currentPath) == goal
        decreases |rest|
      {
        var item := rest[0];
        assert item in rest;
        AggregateTargets(g, tid, rest[1..]);
        if item.0 == tid || item.1 == tid {
          var other := item.1;
          if item.1 == tid {
            other := item.0;
          }
          OneMore(output, AggregateEdges(g, tid, rest), Done() + {tid}, currentPath);
          Follow(tid, "$" + g.names[other], other);
          assert AggregateEdges(g, tid, rest)[1..] == AggregateEdges(g, tid, rest[1..]);
        } else {
          assert AggregateEdges(g, tid, rest) == AggregateEdges(g, tid, rest[1..]);
        }
        rest := rest[1..];
      }
    }

    /**
     Uniquefy takes its container by value, so after the walk the list is neither sorted nor freed of
     duplicates: it is the old list with the walk after it.
     */
    method Gather(tid: Tid)
      requires g.Valid() && tid < |g.names| && currentPath == [] && alreadyProcessed == []
      modifies this
      ensures currentPath == [] && alreadyProcessed == []
      ensures output == old(output) + Walk(g, tid, {}, [])
    {
      assert Done() == {};
      DoGather(tid);
    }
  }
}
