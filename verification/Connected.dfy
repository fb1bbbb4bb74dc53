/** `query_connected`: is the target reachable within max_depth undirected steps, and how far is it? */
module Connected {
  import opened Basics
  import opened Multigraph
  import opened BreadthFirst

  datatype ConnectedResult = ConnectedResult(connected: bool, distance: Option<nat>)

  /** Adjacency by neighbour only, as this query builds it: from the outgoing lists alone. */
  ghost predicate UndirectedNeighbours(edges: seq<Edge>, adj: map<NodeId, seq<NodeId>>) {
    forall u, w :: w in At(adj, u) <==> Step(edges, "both", u, w)
  }

  /** Exactly the edges seen so far contribute, each to both of its ends. */
  ghost predicate BuiltFrom(seen: set<Edge>, adj: map<NodeId, seq<NodeId>>) {
    forall u, w :: w in At(adj, u) <==> exists e :: e in seen && Links(e, "both", u, w)
  }

  lemma BuiltFromOneMore(seen: set<Edge>, adj: map<NodeId, seq<NodeId>>, e: Edge)
    requires BuiltFrom(seen, adj)
    ensures BuiltFrom(seen + {e}, Push(Push(adj, e.src, e.dst), e.dst, e.src))
  {
    var adj' := Push(Push(adj, e.src, e.dst), e.dst, e.src);
    forall u, w ensures w in At(adj', u) <==> exists x :: x in seen + {e} && Links(x, "both", u, w) {
      if x :| x in seen && Links(x, "both", u, w) {
        assert x in seen + {e};
      }
      assert e in seen + {e};
    }
  }

  /** The edges used so far: those of the nodes no longer pending, and `part` of the current one's. */
  ghost predicate Used(edges: seq<Edge>, pending: set<NodeId>, part: seq<Edge>, seen: set<Edge>) {
    forall e :: e in seen <==> (e in edges && e.src !in pending) || e in part
  }

  lemma BuiltFromNothing()
    ensures BuiltFrom({}, map[])
  {
  }

  lemma OutgoingLeave(edges: seq<Edge>, outgoing: EdgeLists, incoming: EdgeLists, u: NodeId)
    requires ListsGraph(edges, outgoing, incoming) && u in outgoing
    ensures forall e :: e in outgoing[u] ==> e.src == u
  {
    assert ListsNode(edges, outgoing, incoming, u);
    forall e {
      OutEdgesMembers(edges, u, e);
    }
  }

  lemma UsedOneMore(edges: seq<Edge>, pending: set<NodeId>, out: seq<Edge>, i: nat, seen: set<Edge>)
    requires i < |out| && Used(edges, pending, out[..i], seen)
    ensures Used(edges, pending, out[..i + 1], seen + {out[i]})
  {
    assert out[..i + 1] == out[..i] + [out[i]];
  }

  lemma UsedNone(edges: seq<Edge>, outgoing: EdgeLists, incoming: EdgeLists)
    requires ListsGraph(edges, outgoing, incoming)
    ensures Used(edges, outgoing.Keys, [], {})
  {
    forall e | e in edges ensures e.src in outgoing {
      OutEdgesMembers(edges, e.src, e);
      assert ListsNode(edges, outgoing, incoming, e.src);
    }
  }

  lemma UsedNode(edges: seq<Edge>, outgoing: EdgeLists, incoming: EdgeLists,
                 pending: set<NodeId>, u: NodeId, seen: set<Edge>)
    requires ListsGraph(edges, outgoing, incoming)
    requires u in pending && u in outgoing
    requires Used(edges, pending, outgoing[u], seen)
    ensures Used(edges, pending - {u}, [], seen)
  {
    assert ListsNode(edges, outgoing, incoming, u);
    forall e {
      OutEdgesMembers(edges, u, e);
    }
  }

  lemma NeighboursOfAll(edges: seq<Edge>, seen: set<Edge>, adj: map<NodeId, seq<NodeId>>)
    requires BuiltFrom(seen, adj) && Used(edges, {}, [], seen)
    ensures UndirectedNeighbours(edges, adj)
  {
  }

  method BuildNeighbours(ghost edges: seq<Edge>, outgoing: EdgeLists, ghost incoming: EdgeLists)
    returns (adj: map<NodeId, seq<NodeId>>)
    requires ListsGraph(edges, outgoing, incoming)
    ensures UndirectedNeighbours(edges, adj)
  {
    hide Used, BuiltFrom, ListsGraph, UndirectedNeighbours;
    adj := map[];
    ghost var seen: set<Edge> := {};
    var pending := outgoing.Keys;
    BuiltFromNothing();
    UsedNone(edges, outgoing, incoming);
    while pending != {}
      invariant pending <= outgoing.Keys
      invariant BuiltFrom(seen, adj)
      invariant Used(edges, pending, [], seen)
      decreases pending
    {
      var u :| u in pending;
      var out := outgoing[u];
      OutgoingLeave(edges, outgoing, incoming, u);
      var i := 0;
      while i < |out|
        invariant 0 <= i <= |out|
        invariant BuiltFrom(seen, adj)
        invariant Used(edges, pending, out[..i], seen)
      {
        BuiltFromOneMore(seen, adj, out[i]);
        UsedOneMore(edges, pending, out, i, seen);
        assert out[i] in out;
        adj := Push(Push(adj, u, out[i].dst), out[i].dst, u);
        seen := seen + {out[i]};
        i := i + 1;
      }
      assert out[..i] == out;
      UsedNode(edges, outgoing, incoming, pending, u, seen);
      pending := pending - {u};
    }
    NeighboursOfAll(edges, seen, adj);
  }

  method QueryConnected(db: Snapshot, source: NodeId, target: NodeId, maxDepth: int,
                        types: seq<string>, project: Option<ProjectId>)
    returns (r: ConnectedResult)
    ensures r.connected == r.distance.Some?
    ensures source == target ==> r.distance == Some(0)
    ensures source != target ==>
              IsDistanceWithin(FilteredEdges(db, types, project), "both", source, target, maxDepth, r.distance)
    ensures source != target && types == [] && project == None ==>
              IsDistanceWithin(db.rows, "both", source, target, maxDepth, r.distance)
  {
    WithoutFilters(db);
    hide BfsInv, ReachIn, Step, IsDistance, FilteredEdges, Universe;
    ghost var edges := FilteredEdges(db, types, project);
    var outgoing, incoming := LoadFullGraph(db, types, project);
    if source == target {
      return ConnectedResult(true, Some(0));
    }
    var adj := BuildNeighbours(edges, outgoing, incoming);
    ghost var done := {};
    var visited: map<NodeId, nat> := map[source := 0];
    var queue: Queue := [Entry(source, 0)];
    BfsStart(edges, "both", source, maxDepth);
    while queue != []
      invariant BfsInv(edges, "both", source, maxDepth, visited, queue, done)
      invariant target !in done
      decreases Universe(edges, source) - visited.Keys, |queue|
    {
      ghost var before, known := queue, visited.Keys;
      var Entry(current, depth) := queue[0];
      queue := queue[1..];
      assert before == [Entry(current, depth)] + queue;
      if current == target {
        BfsHeadExact(edges, "both", source, maxDepth, visited, before, done);
        return ConnectedResult(true, Some(depth));
      }
      if depth < maxDepth {
        var neighbours := At(adj, current);
        var i := 0;
        while i < |neighbours|
          invariant 0 <= i <= |neighbours|
          invariant BfsInv(edges, "both", source, maxDepth, visited, [Entry(current, depth)] + queue, done)
          invariant forall j :: 0 <= j < i ==> neighbours[j] in visited
          invariant || Universe(edges, source) - visited.Keys < Universe(edges, source) - known
                    || (visited.Keys == known && queue == before[1..])
        {
          if neighbours[i] !in visited {
            assert neighbours[i] in neighbours;
            BfsDiscover(edges, "both", source, maxDepth, visited, [Entry(current, depth)] + queue, done, neighbours[i]);
            assert [Entry(current, depth)] + (queue + [Entry(neighbours[i], depth + 1)])
                == [Entry(current, depth)] + queue + [Entry(neighbours[i], depth + 1)];
            visited := visited[neighbours[i] := depth + 1];
            queue := queue + [Entry(neighbours[i], depth + 1)];
          }
          i := i + 1;
        }
      }
      BfsFinish(edges, "both", source, maxDepth, visited, [Entry(current, depth)] + queue, done);
      done := done + {current};
    }
    BfsAnswer(edges, "both", source, maxDepth, visited, done, target);
    return ConnectedResult(false, None);
  }
}
