/** `query_neighborhood`: all nodes within max_depth steps, in breadth-first order, with the edges that found them. */
module Neighborhood {
  import opened Basics
  import opened Multigraph
  import opened BreadthFirst

  datatype Neighbour = Neighbour(node: NodeId, depth: nat, viaType: Option<string>, viaId: Option<EdgeId>)

  datatype NeighborhoodResult = NeighborhoodResult(nodes: seq<Neighbour>, edges: seq<Edge>)

  /** A queue element of this search also remembers the edge that discovered the node. */
  datatype Pending = Pending(node: NodeId, depth: nat, via: Option<Edge>)

  function Entries(pending: seq<Pending>): (queue: Queue)
    ensures |queue| == |pending|
    ensures forall i :: 0 <= i < |pending| ==> queue[i] == Entry(pending[i].node, pending[i].depth)
  {
    seq(|pending|, i requires 0 <= i < |pending| => Entry(pending[i].node, pending[i].depth))
  }

  function Report(p: Pending): Neighbour {
    match p.via
    case None => Neighbour(p.node, p.depth, None, None)
    case Some(e) => Neighbour(p.node, p.depth, Some(e.relationType), Some(e.id))
  }

  // ---------------------------------------------------------------------------------
  // What the result means
  // ---------------------------------------------------------------------------------

  /** The depth reported for v, if v is reported. */
  ghost function ReportedDepth(nodes: seq<Neighbour>, v: NodeId): Option<nat> {
    if i :| 0 <= i < |nodes| && nodes[i].node == v then Some(nodes[i].depth) else None
  }

  /** The i-th node hangs off the source or an earlier reported node, one level up, by the i-th edge. */
  ghost predicate HangsByEdge(edges: seq<Edge>, direction: string, s: NodeId, r: NeighborhoodResult, i: nat)
    requires i < |r.nodes| == |r.edges|
  {
    && r.edges[i] in edges
    && r.nodes[i].viaId == Some(r.edges[i].id)
    && r.nodes[i].viaType == Some(r.edges[i].relationType)
    && (|| (r.nodes[i].depth == 1 && Links(r.edges[i], direction, s, r.nodes[i].node))
        || exists j :: 0 <= j < i && r.nodes[j].depth + 1 == r.nodes[i].depth
                       && Links(r.edges[i], direction, r.nodes[j].node, r.nodes[i].node))
  }

  /** The result is a breadth-first tree of the ball of radius maxDepth around s (s itself excluded). */
  ghost predicate IsBfsTree(edges: seq<Edge>, direction: string, s: NodeId, maxDepth: int, r: NeighborhoodResult) {
    && |r.nodes| == |r.edges|
    && (forall i, j :: 0 <= i < j < |r.nodes| ==> r.nodes[i].node != r.nodes[j].node)
    && (forall i, j :: 0 <= i < j < |r.nodes| ==> r.nodes[i].depth <= r.nodes[j].depth)
    && (forall i :: 0 <= i < |r.nodes| ==> r.nodes[i].node != s && HangsByEdge(edges, direction, s, r, i))
    && (forall v :: v != s ==> IsDistanceWithin(edges, direction, s, v, maxDepth, ReportedDepth(r.nodes, v)))
  }

  // ---------------------------------------------------------------------------------
  // Discovery order
  // ---------------------------------------------------------------------------------

  ghost predicate Discovered(edges: seq<Edge>, direction: string, order: seq<Pending>, i: nat)
    requires i < |order|
  {
    && order[i].via.Some? && order[i].via.value in edges
    && exists j :: 0 <= j < i && order[j].depth + 1 == order[i].depth
                   && Links(order[i].via.value, direction, order[j].node, order[i].node)
  }

  /** Everything encountered so far, in order of discovery, starting with the source. */
  ghost predicate TreeOrder(edges: seq<Edge>, direction: string, s: NodeId,
                            visited: map<NodeId, nat>, order: seq<Pending>)
  {
    && |order| > 0 && order[0] == Pending(s, 0, None)
    && (forall i, j :: 0 <= i < j < |order| ==> order[i].node != order[j].node)
    && (forall i, j :: 0 <= i < j < |order| ==> order[i].depth <= order[j].depth)
    && (forall i :: 0 < i < |order| ==> Discovered(edges, direction, order, i))
    && (forall i :: 0 <= i < |order| ==> order[i].node in visited && visited[order[i].node] == order[i].depth)
    && (forall v :: v in visited ==> exists i :: 0 <= i < |order| && order[i].node == v)
  }

  lemma StaysDiscovered(edges: seq<Edge>, direction: string, order: seq<Pending>, i: nat, next: Pending)
    requires i < |order| && Discovered(edges, direction, order, i)
    ensures Discovered(edges, direction, order + [next], i)
  {
    var j :| 0 <= j < i && order[j].depth + 1 == order[i].depth
             && Links(order[i].via.value, direction, order[j].node, order[i].node);
    assert (order + [next])[j] == order[j];
  }

  lemma TreeGrows(edges: seq<Edge>, direction: string, s: NodeId, visited: map<NodeId, nat>,
                  order: seq<Pending>, parent: nat, e: Edge, w: NodeId)
    requires TreeOrder(edges, direction, s, visited, order)
    requires parent < |order| && w !in visited
    requires e in edges && Links(e, direction, order[parent].node, w)
    requires forall i :: 0 <= i < |order| ==> order[i].depth <= order[parent].depth + 1
    ensures TreeOrder(edges, direction, s, visited[w := order[parent].depth + 1],
                      order + [Pending(w, order[parent].depth + 1, Some(e))])
  {
    hide Links;
    var order' := order + [Pending(w, order[parent].depth + 1, Some(e))];
    var visited' := visited[w := order[parent].depth + 1];
    forall i | 0 < i < |order'| ensures Discovered(edges, direction, order', i) {
      if i < |order| {
        StaysDiscovered(edges, direction, order, i, order'[|order|]);
      } else {
        assert order'[parent] == order[parent];
      }
    }
    forall v | v in visited' ensures exists i :: 0 <= i < |order'| && order'[i].node == v {
      if v == w {
        assert order'[|order|].node == w;
      } else {
        var i :| 0 <= i < |order| && order[i].node == v;
        assert order'[i].node == v;
      }
    }
  }

  /** One more discovery keeps both the search invariant and the tree. */
  lemma Discover(edges: seq<Edge>, direction: string, s: NodeId, maxDepth: int, visited: map<NodeId, nat>,
                 order: seq<Pending>, popped: nat, done: set<NodeId>, e: Edge, w: NodeId)
    requires popped < |order|
    requires BfsInv(edges, direction, s, maxDepth, visited, Entries(order[popped..]), done)
    requires TreeOrder(edges, direction, s, visited, order)
    requires order[popped].depth < maxDepth && w !in visited
    requires e in edges && Links(e, direction, order[popped].node, w)
    ensures var next := Pending(w, order[popped].depth + 1, Some(e));
            && w in Universe(edges, s)
            && (order + [next])[popped..] == order[popped..] + [next]
            && BfsInv(edges, direction, s, maxDepth, visited[w := order[popped].depth + 1],
                      Entries((order + [next])[popped..]), done)
            && TreeOrder(edges, direction, s, visited[w := order[popped].depth + 1], order + [next])
  {
    hide TreeOrder, BfsInv, Universe;
    var next := Pending(w, order[popped].depth + 1, Some(e));
    var queue := Entries(order[popped..]);
    assert queue[0] == Entry(order[popped].node, order[popped].depth);
    assert Step(edges, direction, queue[0].node, w);
    BfsDiscover(edges, direction, s, maxDepth, visited, queue, done, w);
    assert (order + [next])[popped..] == order[popped..] + [next];
    assert Entries((order + [next])[popped..]) == queue + [Entry(w, next.depth)];
    DepthsBounded(edges, direction, s, maxDepth, visited, order, popped, done);
    TreeGrows(edges, direction, s, visited, order, popped, e, w);
  }

  lemma DepthsBounded(edges: seq<Edge>, direction: string, s: NodeId, maxDepth: int, visited: map<NodeId, nat>,
                      order: seq<Pending>, popped: nat, done: set<NodeId>)
    requires popped < |order|
    requires BfsInv(edges, direction, s, maxDepth, visited, Entries(order[popped..]), done)
    requires TreeOrder(edges, direction, s, visited, order)
    ensures forall i :: 0 <= i < |order| ==> order[i].depth <= order[popped].depth + 1
  {
    assert Entries(order[popped..])[0] == Entry(order[popped].node, order[popped].depth);
    forall i | 0 <= i < |order| ensures order[i].depth <= order[popped].depth + 1 {
      assert order[i].node in visited;
    }
  }

  // ---------------------------------------------------------------------------------
  // The query
  // ---------------------------------------------------------------------------------

  /** The state between two steps: `popped` entries of the discovery order were taken from the queue. */
  ghost predicate Searching(edges: seq<Edge>, direction: string, s: NodeId, maxDepth: int, visited: map<NodeId, nat>,
                            order: seq<Pending>, popped: nat, done: set<NodeId>, found: seq<Edge>)
  {
    && popped <= |order|
    && BfsInv(edges, direction, s, maxDepth, visited, Entries(order[popped..]), done)
    && TreeOrder(edges, direction, s, visited, order)
    && |found| == |order| - 1
    && forall i :: 0 <= i < |found| ==> order[i + 1].via == Some(found[i])
  }

  /** What was appended to the node list: every popped entry but the source. */
  ghost predicate Reported(order: seq<Pending>, popped: nat, nodes: seq<Neighbour>) {
    && popped <= |order|
    && |nodes| == (if popped == 0 then 0 else popped - 1)
    && forall i :: 0 <= i < |nodes| ==> nodes[i] == Report(order[i + 1])
  }

  lemma ReadyAtStart(edges: seq<Edge>, direction: string, s: NodeId, maxDepth: int)
    ensures Ready(edges, direction, s, maxDepth, map[s := 0], [Pending(s, 0, None)], 0, {},
                  [Pending(s, 0, None)], NeighborhoodResult([], []))
  {
    BfsStart(edges, direction, s, maxDepth);
    var order := [Pending(s, 0, None)];
    assert order[0].node == s;
    assert Entries(order[0..]) == [Entry(s, 0)];
  }

  lemma DiscoverEdge(edges: seq<Edge>, direction: string, s: NodeId, maxDepth: int, visited: map<NodeId, nat>,
                     order: seq<Pending>, popped: nat, done: set<NodeId>, found: seq<Edge>, e: Edge, w: NodeId)
    requires Searching(edges, direction, s, maxDepth, visited, order, popped, done, found)
    requires popped < |order| && order[popped].depth < maxDepth && w !in visited
    requires e in edges && Links(e, direction, order[popped].node, w)
    ensures var next := Pending(w, order[popped].depth + 1, Some(e));
            && w in Universe(edges, s)
            && (order + [next])[popped + 1..] == order[popped + 1..] + [next]
            && Searching(edges, direction, s, maxDepth, visited[w := order[popped].depth + 1],
                         order + [next], popped, done, found + [e])
  {
    hide TreeOrder, BfsInv;
    Discover(edges, direction, s, maxDepth, visited, order, popped, done, e, w);
  }

  lemma AllNeighboursKnown(edges: seq<Edge>, direction: string, visited: map<NodeId, nat>, u: NodeId)
    requires GoesOut(direction) ==> forall e :: e in OutEdges(edges, u) ==> e.dst in visited
    requires GoesIn(direction) ==> forall e :: e in InEdges(edges, u) ==> e.src in visited
    ensures forall w :: Step(edges, direction, u, w) ==> w in visited
  {
    forall w | Step(edges, direction, u, w) ensures w in visited {
      var e :| e in edges && Links(e, direction, u, w);
      OutEdgesMembers(edges, u, e);
      InEdgesMembers(edges, u, e);
    }
  }

  lemma FinishNode(edges: seq<Edge>, direction: string, s: NodeId, maxDepth: int, visited: map<NodeId, nat>,
                   order: seq<Pending>, popped: nat, done: set<NodeId>, found: seq<Edge>)
    requires Searching(edges, direction, s, maxDepth, visited, order, popped, done, found)
    requires popped < |order|
    requires order[popped].depth < maxDepth ==>
               forall w :: Step(edges, direction, order[popped].node, w) ==> w in visited
    ensures Searching(edges, direction, s, maxDepth, visited, order, popped + 1, done + {order[popped].node}, found)
  {
    hide TreeOrder, BfsInv;
    var queue := Entries(order[popped..]);
    assert queue[0] == Entry(order[popped].node, order[popped].depth);
    BfsFinish(edges, direction, s, maxDepth, visited, queue, done);
    assert Entries(order[popped + 1..]) == queue[1..];
  }

  lemma PositiveDepth(edges: seq<Edge>, direction: string, s: NodeId, visited: map<NodeId, nat>,
                      order: seq<Pending>, i: nat)
    requires TreeOrder(edges, direction, s, visited, order) && i < |order|
    ensures order[i].depth > 0 <==> i > 0
  {
    if i > 0 {
      assert Discovered(edges, direction, order, i);
    }
  }

  lemma FinishedIsTree(edges: seq<Edge>, direction: string, s: NodeId, maxDepth: int, visited: map<NodeId, nat>,
                       order: seq<Pending>, done: set<NodeId>, r: NeighborhoodResult)
    requires Searching(edges, direction, s, maxDepth, visited, order, |order|, done, r.edges)
    requires Reported(order, |order|, r.nodes)
    ensures IsBfsTree(edges, direction, s, maxDepth, r)
  {
    assert Entries(order[|order|..]) == [];
    forall i | 0 <= i < |r.nodes| ensures r.nodes[i].node != s && HangsByEdge(edges, direction, s, r, i) {
      HangsAsDiscovered(edges, direction, s, visited, order, r, i);
    }
    forall v | v != s ensures IsDistanceWithin(edges, direction, s, v, maxDepth, ReportedDepth(r.nodes, v)) {
      BfsAnswer(edges, direction, s, maxDepth, visited, done, v);
      ReportedIsFound(edges, direction, s, visited, order, r.nodes, v);
    }
  }

  lemma HangsAsDiscovered(edges: seq<Edge>, direction: string, s: NodeId, visited: map<NodeId, nat>,
                          order: seq<Pending>, r: NeighborhoodResult, i: nat)
    requires TreeOrder(edges, direction, s, visited, order)
    requires Reported(order, |order|, r.nodes) && |r.edges| == |r.nodes| && i < |r.nodes|
    requires forall i :: 0 <= i < |r.edges| ==> order[i + 1].via == Some(r.edges[i])
    ensures r.nodes[i].node != s && HangsByEdge(edges, direction, s, r, i)
  {
    assert order[i + 1].node != order[0].node;
    assert Discovered(edges, direction, order, i + 1);
    hide TreeOrder;
    var j :| 0 <= j < i + 1 && order[j].depth + 1 == order[i + 1].depth
             && Links(order[i + 1].via.value, direction, order[j].node, order[i + 1].node);
    if j > 0 {
      assert r.nodes[j - 1] == Report(order[j]);
    }
  }

  lemma ReportedIsFound(edges: seq<Edge>, direction: string, s: NodeId, visited: map<NodeId, nat>,
                        order: seq<Pending>, nodes: seq<Neighbour>, v: NodeId)
    requires TreeOrder(edges, direction, s, visited, order)
    requires Reported(order, |order|, nodes) && v != s
    ensures ReportedDepth(nodes, v) == Found(visited, v)
  {
    hide Discovered, Links;
    if v in visited {
      var i :| 0 <= i < |order| && order[i].node == v;
      NodeIsReported(order, nodes, i);
      var k := ReportedAt(nodes, v);
      assert order[k + 1].node == v;
    } else {
      forall k | 0 <= k < |nodes| ensures nodes[k].node != v {
        assert order[k + 1].node in visited;
      }
    }
  }

  lemma NodeIsReported(order: seq<Pending>, nodes: seq<Neighbour>, i: nat)
    requires Reported(order, |order|, nodes) && 0 < i < |order|
    ensures i - 1 < |nodes| && nodes[i - 1].node == order[i].node && nodes[i - 1].depth == order[i].depth
  {
  }

  lemma ReportedAt(nodes: seq<Neighbour>, v: NodeId) returns (k: nat)
    requires exists i :: 0 <= i < |nodes| && nodes[i].node == v
    ensures k < |nodes| && nodes[k].node == v && ReportedDepth(nodes, v) == Some(nodes[k].depth)
  {
    k :| 0 <= k < |nodes| && nodes[k].node == v && ReportedDepth(nodes, v) == Some(nodes[k].depth);
  }

  /** Loop invariant of the outer loop. */
  ghost predicate Ready(edges: seq<Edge>, direction: string, s: NodeId, maxDepth: int, visited: map<NodeId, nat>,
                        order: seq<Pending>, popped: nat, done: set<NodeId>,
                        queue: seq<Pending>, r: NeighborhoodResult)
  {
    && Searching(edges, direction, s, maxDepth, visited, order, popped, done, r.edges)
    && Reported(order, popped, r.nodes)
    && queue == order[popped..]
  }

  /** Loop invariant of the inner loops: `current` was taken from the queue and is being expanded. */
  ghost predicate Expanding(edges: seq<Edge>, direction: string, s: NodeId, maxDepth: int, visited: map<NodeId, nat>,
                            order: seq<Pending>, popped: nat, done: set<NodeId>, current: Pending,
                            queue: seq<Pending>, r: NeighborhoodResult)
  {
    && popped < |order| && order[popped] == current
    && Searching(edges, direction, s, maxDepth, visited, order, popped, done, r.edges)
    && Reported(order, popped + 1, r.nodes)
    && queue == order[popped + 1..]
  }

  lemma PopHead(edges: seq<Edge>, direction: string, s: NodeId, maxDepth: int, visited: map<NodeId, nat>,
                order: seq<Pending>, popped: nat, done: set<NodeId>, queue: seq<Pending>, r: NeighborhoodResult)
    requires Ready(edges, direction, s, maxDepth, visited, order, popped, done, queue, r)
    requires queue != []
    ensures Expanding(edges, direction, s, maxDepth, visited, order, popped, done, queue[0], queue[1..],
                      r.(nodes := if queue[0].depth > 0 then r.nodes + [Report(queue[0])] else r.nodes))
  {
    hide BfsInv;
    PositiveDepth(edges, direction, s, visited, order, popped);
    assert queue[0] == order[popped];
  }

  /** One step over an adjacency list: what the code does with one edge of the current node. */
  lemma Visit(edges: seq<Edge>, direction: string, s: NodeId, maxDepth: int, visited: map<NodeId, nat>,
              order: seq<Pending>, popped: nat, done: set<NodeId>, current: Pending,
              queue: seq<Pending>, r: NeighborhoodResult, e: Edge, w: NodeId)
    requires Expanding(edges, direction, s, maxDepth, visited, order, popped, done, current, queue, r)
    requires current.depth < maxDepth && w !in visited
    requires e in edges && Links(e, direction, current.node, w)
    ensures var next := Pending(w, current.depth + 1, Some(e));
            && w in Universe(edges, s)
            && Expanding(edges, direction, s, maxDepth, visited[w := current.depth + 1], order + [next], popped, done,
                         current, queue + [next], r.(edges := r.edges + [e]))
  {
    hide Searching, Universe;
    DiscoverEdge(edges, direction, s, maxDepth, visited, order, popped, done, r.edges, e, w);
  }

  lemma NextHead(edges: seq<Edge>, direction: string, s: NodeId, maxDepth: int, visited: map<NodeId, nat>,
                 order: seq<Pending>, popped: nat, done: set<NodeId>, current: Pending,
                 queue: seq<Pending>, r: NeighborhoodResult)
    requires Expanding(edges, direction, s, maxDepth, visited, order, popped, done, current, queue, r)
    requires current.depth < maxDepth ==> forall w :: Step(edges, direction, current.node, w) ==> w in visited
    ensures Ready(edges, direction, s, maxDepth, visited, order, popped + 1, done + {current.node}, queue, r)
  {
    hide Searching;
    FinishNode(edges, direction, s, maxDepth, visited, order, popped, done, r.edges);
  }

  lemma NothingLeft(edges: seq<Edge>, direction: string, s: NodeId, maxDepth: int, visited: map<NodeId, nat>,
                    order: seq<Pending>, popped: nat, done: set<NodeId>, r: NeighborhoodResult)
    requires Ready(edges, direction, s, maxDepth, visited, order, popped, done, [], r)
    ensures IsBfsTree(edges, direction, s, maxDepth, r)
  {
    FinishedIsTree(edges, direction, s, maxDepth, visited, order, done, r);
  }

  /** The adjacency lists of u hold exactly its edges, each touching u at the right end. */
  lemma ListedAt(edges: seq<Edge>, direction: string, outgoing: EdgeLists, incoming: EdgeLists, u: NodeId)
    requires ListsGraph(edges, outgoing, incoming)
    ensures At(outgoing, u) == OutEdges(edges, u) && At(incoming, u) == InEdges(edges, u)
    ensures forall e :: e in OutEdges(edges, u) ==> e in edges && (GoesOut(direction) ==> Links(e, direction, u, e.dst))
    ensures forall e :: e in InEdges(edges, u) ==> e in edges && (GoesIn(direction) ==> Links(e, direction, u, e.src))
  {
    assert ListsNode(edges, outgoing, incoming, u);
    forall e
      ensures e in OutEdges(edges, u) <==> e in edges && e.src == u
      ensures e in InEdges(edges, u) <==> e in edges && e.dst == u
    {
      OutEdgesMembers(edges, u, e);
      InEdgesMembers(edges, u, e);
    }
  }

  /** Either nothing was discovered since the head was taken, or fewer nodes remain undiscovered. */
  ghost predicate Progress(universe: set<NodeId>, known: set<NodeId>, visited: set<NodeId>,
                           before: seq<Pending>, queue: seq<Pending>)
  {
    universe - visited < universe - known || (visited == known && queue == before)
  }

  method QueryNeighborhood(db: Snapshot, source: NodeId, maxDepth: int, direction: string,
                           types: seq<string>, project: Option<ProjectId>)
    returns (r: NeighborhoodResult)
    ensures IsBfsTree(FilteredEdges(db, types, project), direction, source, maxDepth, r)
    ensures types == [] && project == None ==> IsBfsTree(db.rows, direction, source, maxDepth, r)
  {
    WithoutFilters(db);
    hide Ready, Expanding, IsBfsTree, ListsGraph, FilteredEdges, Universe, Step, Links, GoesOut, GoesIn;
    hide At, OutEdges, InEdges, Report;
    ghost var edges := FilteredEdges(db, types, project);
    var outgoing, incoming := LoadFullGraph(db, types, project);
    var visited: map<NodeId, nat> := map[source := 0];
    var queue := [Pending(source, 0, None)];
    r := NeighborhoodResult([], []);
    ghost var order, popped: nat, done: set<NodeId> := queue, 0, {};
    ReadyAtStart(edges, direction, source, maxDepth);
    while queue != []
      invariant Ready(edges, direction, source, maxDepth, visited, order, popped, done, queue, r)
      decreases Universe(edges, source) - visited.Keys, |queue|
    {
      PopHead(edges, direction, source, maxDepth, visited, order, popped, done, queue, r);
      var current := queue[0];
      queue := queue[1..];
      ghost var known, before := visited.Keys, queue;
      if current.depth > 0 {
        r := r.(nodes := r.nodes + [Report(current)]);
      }
      if current.depth < maxDepth {
        ListedAt(edges, direction, outgoing, incoming, current.node);
        if GoesOut(direction) {
          var out := At(outgoing, current.node);
          var i := 0;
          while i < |out|
            invariant 0 <= i <= |out|
            invariant Expanding(edges, direction, source, maxDepth, visited, order, popped, done, current, queue, r)
            invariant forall j :: 0 <= j < i ==> out[j].dst in visited
            invariant Progress(Universe(edges, source), known, visited.Keys, before, queue)
          {
            var edge := out[i];
            if edge.dst !in visited {
              Visit(edges, direction, source, maxDepth, visited, order, popped, done, current, queue, r, edge, edge.dst);
              visited := visited[edge.dst := current.depth + 1];
              queue := queue + [Pending(edge.dst, current.depth + 1, Some(edge))];
              order := order + [Pending(edge.dst, current.depth + 1, Some(edge))];
              r := r.(edges := r.edges + [edge]);
            }
            i := i + 1;
          }
        }
        ghost var afterOut := visited.Keys;
        if GoesIn(direction) {
          var inc := At(incoming, current.node);
          var i := 0;
          while i < |inc|
            invariant 0 <= i <= |inc|
            invariant Expanding(edges, direction, source, maxDepth, visited, order, popped, done, current, queue, r)
            invariant forall j :: 0 <= j < i ==> inc[j].src in visited
            invariant afterOut <= visited.Keys
            invariant Progress(Universe(edges, source), known, visited.Keys, before, queue)
          {
            var edge := inc[i];
            if edge.src !in visited {
              Visit(edges, direction, source, maxDepth, visited, order, popped, done, current, queue, r, edge, edge.src);
              visited := visited[edge.src := current.depth + 1];
              queue := queue + [Pending(edge.src, current.depth + 1, Some(edge))];
              order := order + [Pending(edge.src, current.depth + 1, Some(edge))];
              r := r.(edges := r.edges + [edge]);
            }
            i := i + 1;
          }
        }
        AllNeighboursKnown(edges, direction, visited, current.node);
      }
      NextHead(edges, direction, source, maxDepth, visited, order, popped, done, current, queue, r);
      done, popped := done + {current.node}, popped + 1;
    }
    NothingLeft(edges, direction, source, maxDepth, visited, order, popped, done, r);
  }
}
