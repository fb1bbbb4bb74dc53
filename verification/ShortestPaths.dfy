/**
  `query_shortest_paths`: the length of a shortest undirected path and up to ten such paths,
  found by a backtracking search over a shared path stack.
*/
module ShortestPaths {
  import opened Basics
  import opened Multigraph
  import opened BreadthFirst

  const MAX_PATHS: nat := 10

  datatype PathsResult = PathsResult(paths: seq<Path>, shortestPathLength: Option<nat>)

  // ---------------------------------------------------------------------------------
  // Adjacency order
  // ---------------------------------------------------------------------------------

  function OutHops(edges: seq<Edge>): (r: seq<Hop>)
    ensures |r| == |edges|
    ensures forall i :: 0 <= i < |edges| ==> r[i] == Hop(edges[i].dst, edges[i])
  {
    seq(|edges|, i requires 0 <= i < |edges| => Hop(edges[i].dst, edges[i]))
  }

  function InHops(edges: seq<Edge>): (r: seq<Hop>)
    ensures |r| == |edges|
    ensures forall i :: 0 <= i < |edges| ==> r[i] == Hop(edges[i].src, edges[i])
  {
    seq(|edges|, i requires 0 <= i < |edges| => Hop(edges[i].src, edges[i]))
  }

  /** The undirected adjacency list of u: its outgoing edges in row order, then its incoming ones. */
  function Hops(edges: seq<Edge>, u: NodeId): seq<Hop> {
    OutHops(OutEdges(edges, u)) + InHops(InEdges(edges, u))
  }

  lemma HopsMembers(edges: seq<Edge>, u: NodeId, h: Hop)
    ensures h in Hops(edges, u) <==> h.edge in edges && Links(h.edge, "both", u, h.node)
  {
    OutEdgesMembers(edges, u, h.edge);
    InEdgesMembers(edges, u, h.edge);
    if h.edge in OutEdges(edges, u) && h.edge.dst == h.node {
      var i :| 0 <= i < |OutEdges(edges, u)| && OutEdges(edges, u)[i] == h.edge;
      assert OutHops(OutEdges(edges, u))[i] == h;
    }
    if h.edge in InEdges(edges, u) && h.edge.src == h.node {
      var i :| 0 <= i < |InEdges(edges, u)| && InEdges(edges, u)[i] == h.edge;
      assert InHops(InEdges(edges, u))[i] == h;
    }
  }

  // ---------------------------------------------------------------------------------
  // The uncapped enumeration, as a function
  // ---------------------------------------------------------------------------------

  /** All completions of the path stack (nodes, stack) that end at the target with dist edges. */
  ghost function Enumerate(edges: seq<Edge>, target: NodeId, dist: nat, nodes: seq<NodeId>, stack: seq<Edge>): seq<Path>
    requires |nodes| == |stack| + 1
    decreases if |stack| <= dist then dist + 1 - |stack| else 0, 1, 0
  {
    var current := nodes[|nodes| - 1];
    if |stack| > dist then []
    else if current == target && |stack| == dist then [Path(nodes, stack)]
    else EnumerateHops(edges, target, dist, nodes, stack, Hops(edges, current))
  }

  ghost function EnumerateHops(edges: seq<Edge>, target: NodeId, dist: nat, nodes: seq<NodeId>, stack: seq<Edge>,
                               hops: seq<Hop>): seq<Path>
    requires |nodes| == |stack| + 1 && |stack| <= dist
    decreases dist + 1 - |stack|, 0, |hops|
  {
    if hops == [] then []
    else
      (if hops[0].node in nodes then []
       else Enumerate(edges, target, dist, nodes + [hops[0].node], stack + [hops[0].edge]))
      + EnumerateHops(edges, target, dist, nodes, stack, hops[1..])
  }

  /** Every shortest path from s to t, in the order the search meets them. */
  ghost function AllShortestPaths(edges: seq<Edge>, s: NodeId, t: NodeId, dist: nat): seq<Path> {
    Enumerate(edges, t, dist, [s], [])
  }

  function Cap(paths: seq<Path>): seq<Path> {
    if |paths| <= MAX_PATHS then paths else paths[..MAX_PATHS]
  }

  lemma EnumerateEnds(edges: seq<Edge>, target: NodeId, dist: nat, nodes: seq<NodeId>, stack: seq<Edge>)
    requires |nodes| == |stack| + 1
    ensures Enumerate(edges, target, dist, nodes, stack)
         == if |stack| > dist then []
            else if nodes[|stack|] == target && |stack| == dist then [Path(nodes, stack)]
            else EnumerateHops(edges, target, dist, nodes, stack, Hops(edges, nodes[|stack|]))
  {
  }

  lemma NoHopsLeft(edges: seq<Edge>, target: NodeId, dist: nat, nodes: seq<NodeId>, stack: seq<Edge>, hops: seq<Hop>)
    requires |nodes| == |stack| + 1 && |stack| <= dist
    ensures EnumerateHops(edges, target, dist, nodes, stack, hops[|hops|..]) == []
  {
  }

  ghost function ThroughHop(edges: seq<Edge>, target: NodeId, dist: nat, nodes: seq<NodeId>, stack: seq<Edge>, h: Hop): seq<Path>
    requires |nodes| == |stack| + 1 && |stack| <= dist
  {
    if h.node in nodes then [] else Enumerate(edges, target, dist, nodes + [h.node], stack + [h.edge])
  }

  /** One iteration of the search loop, in terms of the uncapped enumeration. */
  lemma EnumerateFirstHop(edges: seq<Edge>, target: NodeId, dist: nat, nodes: seq<NodeId>, stack: seq<Edge>,
                          hops: seq<Hop>, i: nat, found: seq<Path>)
    requires |nodes| == |stack| + 1 && |stack| <= dist && i < |hops|
    ensures Cap(found + EnumerateHops(edges, target, dist, nodes, stack, hops[i..]))
         == Cap(Cap(found + ThroughHop(edges, target, dist, nodes, stack, hops[i]))
                + EnumerateHops(edges, target, dist, nodes, stack, hops[i + 1..]))
  {
    var now := ThroughHop(edges, target, dist, nodes, stack, hops[i]);
    assert hops[i..][1..] == hops[i + 1..];
    CapTwice(found, now, EnumerateHops(edges, target, dist, nodes, stack, hops[i + 1..]));
  }

  lemma CapTwice(a: seq<Path>, b: seq<Path>, c: seq<Path>)
    ensures Cap(Cap(a + b) + c) == Cap(a + (b + c))
  {
  }

  // ---------------------------------------------------------------------------------
  // What is enumerated: exactly the shortest paths
  // ---------------------------------------------------------------------------------

  /** p completes the stack: a simple continuation along hops, ending at the target after dist edges. */
  ghost predicate Completes(edges: seq<Edge>, target: NodeId, dist: nat, nodes: seq<NodeId>, stack: seq<Edge>, p: Path) {
    && |p.edges| == dist && |p.nodes| == dist + 1 && p.nodes[dist] == target
    && nodes <= p.nodes && stack <= p.edges
    && (forall i :: |stack| <= i < dist ==> Hop(p.nodes[i + 1], p.edges[i]) in Hops(edges, p.nodes[i]))
    && (forall i :: |nodes| <= i <= dist ==> p.nodes[i] !in p.nodes[..i])
  }

  /** The next hop p takes after the stack. */
  ghost function NextHop(stack: seq<Edge>, p: Path): Hop
    requires |stack| < |p.edges| < |p.nodes|
  {
    Hop(p.nodes[|stack| + 1], p.edges[|stack|])
  }

  lemma {:induction false} EnumerateExact(edges: seq<Edge>, target: NodeId, dist: nat, nodes: seq<NodeId>, stack: seq<Edge>, p: Path)
    requires |nodes| == |stack| + 1
    ensures p in Enumerate(edges, target, dist, nodes, stack) <==> Completes(edges, target, dist, nodes, stack, p)
    decreases if |stack| <= dist then dist + 1 - |stack| else 0, 1, 0
  {
    var current := nodes[|nodes| - 1];
    if |stack| > dist {
    } else if current == target && |stack| == dist {
      if Completes(edges, target, dist, nodes, stack, p) {
        assert p.nodes == nodes && p.edges == stack;
      }
    } else {
      EnumerateHopsExact(edges, target, dist, nodes, stack, Hops(edges, current), p);
    }
  }

  lemma {:induction false} EnumerateHopsExact(edges: seq<Edge>, target: NodeId, dist: nat, nodes: seq<NodeId>, stack: seq<Edge>,
                                              hops: seq<Hop>, p: Path)
    requires |nodes| == |stack| + 1 && |stack| <= dist
    requires |stack| == dist ==> nodes[|nodes| - 1] != target
    requires forall h :: h in hops ==> h in Hops(edges, nodes[|nodes| - 1])
    ensures p in EnumerateHops(edges, target, dist, nodes, stack, hops)
       <==> Completes(edges, target, dist, nodes, stack, p) && |stack| < dist && NextHop(stack, p) in hops
    decreases dist + 1 - |stack|, 0, |hops|
  {
    hide Hops, Completes;
    if hops != [] {
      var h := hops[0];
      assert h in hops;
      assert forall x :: x in hops <==> x == h || x in hops[1..];
      EnumerateHopsExact(edges, target, dist, nodes, stack, hops[1..], p);
      if h.node !in nodes {
        EnumerateExact(edges, target, dist, nodes + [h.node], stack + [h.edge], p);
      }
      CompletesByHop(edges, target, dist, nodes, stack, h, p);
    }
  }

  /** Completing the stack through h is completing the stack with h pushed onto it. */
  lemma CompletesByHop(edges: seq<Edge>, target: NodeId, dist: nat, nodes: seq<NodeId>, stack: seq<Edge>, h: Hop, p: Path)
    requires |nodes| == |stack| + 1 && |stack| <= dist
    requires |stack| == dist ==> nodes[|nodes| - 1] != target
    requires h in Hops(edges, nodes[|nodes| - 1])
    ensures h.node !in nodes && Completes(edges, target, dist, nodes + [h.node], stack + [h.edge], p)
       <==> Completes(edges, target, dist, nodes, stack, p) && |stack| < dist && NextHop(stack, p) == h
  {
    hide Hops;
    var nodes', stack' := nodes + [h.node], stack + [h.edge];
    if Completes(edges, target, dist, nodes', stack', p) {
      assert nodes' <= p.nodes && stack' <= p.edges;
      assert p.nodes[|nodes|] == nodes'[|nodes|] && p.edges[|stack|] == stack'[|stack|];
      assert p.nodes[..|nodes|] == nodes;
      assert p.nodes[|stack|] == nodes[|nodes| - 1];
    }
    if Completes(edges, target, dist, nodes, stack, p) && |stack| < dist && NextHop(stack, p) == h {
      assert p.nodes[..|nodes|] == nodes;
      assert p.nodes[|nodes|] !in p.nodes[..|nodes|];
      assert nodes' == p.nodes[..|nodes'|] && stack' == p.edges[..|stack'|];
    }
  }

  /** A path is enumerated exactly if it is a shortest path from s to t: none is spurious, none is missing. */
  lemma AllShortestPathsExact(edges: seq<Edge>, s: NodeId, t: NodeId, dist: nat, p: Path)
    requires IsDistance(edges, "both", s, t, dist)
    ensures p in AllShortestPaths(edges, s, t, dist) <==> IsPathOfLength(edges, s, t, dist, p)
  {
    EnumerateExact(edges, t, dist, [s], [], p);
    if IsPathOfLength(edges, s, t, dist, p) {
      ShortestIsSimple(edges, s, t, dist, p);
      assert [s] == p.nodes[..1];
      assert [] == p.edges[..0];
      forall i | 0 <= i < dist ensures Hop(p.nodes[i + 1], p.edges[i]) in Hops(edges, p.nodes[i]) {
        HopsMembers(edges, p.nodes[i], Hop(p.nodes[i + 1], p.edges[i]));
      }
    }
    if Completes(edges, t, dist, [s], [], p) {
      assert p.nodes[0] == [s][0];
      forall i | 0 <= i < dist ensures p.edges[i] in edges && Links(p.edges[i], "both", p.nodes[i], p.nodes[i + 1]) {
        HopsMembers(edges, p.nodes[i], Hop(p.nodes[i + 1], p.edges[i]));
      }
    }
  }

  // ---------------------------------------------------------------------------------
  // In which order: that of the adjacency lists, without repetition
  // ---------------------------------------------------------------------------------

  /** p and q agree up to node i, and there p takes an earlier hop of the adjacency list than q. */
  ghost predicate DivergesAt(edges: seq<Edge>, p: Path, q: Path, i: nat, a: nat, b: nat) {
    && i < |p.edges| < |p.nodes| && i < |q.edges| < |q.nodes|
    && p.nodes[..i + 1] == q.nodes[..i + 1] && p.edges[..i] == q.edges[..i]
    && a < b < |Hops(edges, p.nodes[i])|
    && Hops(edges, p.nodes[i])[a] == Hop(p.nodes[i + 1], p.edges[i])
    && Hops(edges, p.nodes[i])[b] == Hop(q.nodes[i + 1], q.edges[i])
  }

  ghost predicate Before(edges: seq<Edge>, p: Path, q: Path) {
    exists i: nat, a: nat, b: nat :: DivergesAt(edges, p, q, i, a, b)
  }

  ghost predicate InAdjacencyOrder(edges: seq<Edge>, paths: seq<Path>) {
    forall i, j :: 0 <= i < j < |paths| ==> Before(edges, paths[i], paths[j]) && paths[i] != paths[j]
  }

  /** Following e from u comes before following f: leaving edges before arriving ones, and each kind in row order. */
  ghost predicate FollowedBefore(edges: seq<Edge>, u: NodeId, e: Edge, f: Edge) {
    && (e.src == u || f.src != u)
    && ((e.src == u && f.src != u) || exists m, n :: 0 <= m < n < |edges| && edges[m] == e && edges[n] == f)
  }

  lemma {:induction false} OutEdgesInRowOrder(edges: seq<Edge>, u: NodeId, a: nat, b: nat) returns (m: nat, n: nat)
    requires a < b < |OutEdges(edges, u)|
    ensures m < n < |edges| && edges[m] == OutEdges(edges, u)[a] && edges[n] == OutEdges(edges, u)[b]
  {
    var init := edges[..|edges| - 1];
    if b < |OutEdges(init, u)| {
      m, n := OutEdgesInRowOrder(init, u, a, b);
    } else {
      OutEdgesMembers(init, u, OutEdges(init, u)[a]);
      m :| 0 <= m < |init| && init[m] == OutEdges(init, u)[a];
      n := |init|;
    }
  }

  lemma {:induction false} InEdgesInRowOrder(edges: seq<Edge>, u: NodeId, a: nat, b: nat) returns (m: nat, n: nat)
    requires a < b < |InEdges(edges, u)|
    ensures m < n < |edges| && edges[m] == InEdges(edges, u)[a] && edges[n] == InEdges(edges, u)[b]
  {
    var init := edges[..|edges| - 1];
    if b < |InEdges(init, u)| {
      m, n := InEdgesInRowOrder(init, u, a, b);
    } else {
      InEdgesMembers(init, u, InEdges(init, u)[a]);
      m :| 0 <= m < |init| && init[m] == InEdges(init, u)[a];
      n := |init|;
    }
  }

  /** The adjacency list of a node on the rows, self-loops aside. */
  lemma HopsInRowOrder(edges: seq<Edge>, u: NodeId, a: nat, b: nat)
    requires a < b < |Hops(edges, u)| && Hops(edges, u)[a].node != u && Hops(edges, u)[b].node != u
    ensures FollowedBefore(edges, u, Hops(edges, u)[a].edge, Hops(edges, u)[b].edge)
  {
    var out, inc := OutEdges(edges, u), InEdges(edges, u);
    if a < |out| {
      OutEdgesMembers(edges, u, out[a]);
    } else {
      InEdgesMembers(edges, u, inc[a - |out|]);
    }
    if b < |out| {
      OutEdgesMembers(edges, u, out[b]);
      var m, n := OutEdgesInRowOrder(edges, u, a, b);
    } else {
      InEdgesMembers(edges, u, inc[b - |out|]);
      if a >= |out| {
        var m, n := InEdgesInRowOrder(edges, u, a - |out|, b - |out|);
      }
    }
  }

  lemma {:induction false} OutEdgesDistinct(edges: seq<Edge>, u: NodeId)
    requires DistinctIds(edges)
    ensures DistinctIds(OutEdges(edges, u))
  {
    if edges != [] {
      var init := edges[..|edges| - 1];
      OutEdgesDistinct(init, u);
      forall i | 0 <= i < |OutEdges(init, u)| ensures OutEdges(init, u)[i].id != edges[|init|].id {
        OutEdgesMembers(init, u, OutEdges(init, u)[i]);
      }
    }
  }

  lemma {:induction false} InEdgesDistinct(edges: seq<Edge>, u: NodeId)
    requires DistinctIds(edges)
    ensures DistinctIds(InEdges(edges, u))
  {
    if edges != [] {
      var init := edges[..|edges| - 1];
      InEdgesDistinct(init, u);
      forall i | 0 <= i < |InEdges(init, u)| ensures InEdges(init, u)[i].id != edges[|init|].id {
        InEdgesMembers(init, u, InEdges(init, u)[i]);
      }
    }
  }

  /** Only a self-loop is listed twice at a node. */
  lemma HopsDistinct(edges: seq<Edge>, u: NodeId, a: nat, b: nat)
    requires DistinctIds(edges) && a < b < |Hops(edges, u)|
    requires Hops(edges, u)[a].node != u
    ensures Hops(edges, u)[a] != Hops(edges, u)[b]
  {
    var out, inc := OutEdges(edges, u), InEdges(edges, u);
    OutEdgesDistinct(edges, u);
    InEdgesDistinct(edges, u);
    if a < |out| <= b {
      InEdgesMembers(edges, u, inc[b - |out|]);
    }
  }

  lemma {:induction false} EnumerateOrdered(edges: seq<Edge>, target: NodeId, dist: nat, nodes: seq<NodeId>, stack: seq<Edge>)
    requires |nodes| == |stack| + 1 && DistinctIds(edges)
    ensures InAdjacencyOrder(edges, Enumerate(edges, target, dist, nodes, stack))
    decreases if |stack| <= dist then dist + 1 - |stack| else 0, 1, 0
  {
    var current := nodes[|nodes| - 1];
    if |stack| <= dist && !(current == target && |stack| == dist) {
      assert Hops(edges, current)[0..] == Hops(edges, current);
      EnumerateHopsOrdered(edges, target, dist, nodes, stack, 0);
    }
  }

  lemma {:induction false} EnumerateHopsOrdered(edges: seq<Edge>, target: NodeId, dist: nat, nodes: seq<NodeId>, stack: seq<Edge>, k: nat)
    requires |nodes| == |stack| + 1 && |stack| <= dist && DistinctIds(edges)
    requires |stack| == dist ==> nodes[|nodes| - 1] != target
    requires k <= |Hops(edges, nodes[|nodes| - 1])|
    ensures InAdjacencyOrder(edges, EnumerateHops(edges, target, dist, nodes, stack, Hops(edges, nodes[|nodes| - 1])[k..]))
    decreases dist + 1 - |stack|, 0, |Hops(edges, nodes[|nodes| - 1])| - k
  {
    hide Hops, Before, Completes;
    var all := Hops(edges, nodes[|nodes| - 1]);
    if k < |all| {
      var h := all[k];
      assert all[k..] == [h] + all[k + 1..];
      EnumerateHopsOrdered(edges, target, dist, nodes, stack, k + 1);
      var later := EnumerateHops(edges, target, dist, nodes, stack, all[k + 1..]);
      if h.node !in nodes {
        EnumerateOrdered(edges, target, dist, nodes + [h.node], stack + [h.edge]);
        var now := Enumerate(edges, target, dist, nodes + [h.node], stack + [h.edge]);
        forall i, j | 0 <= i < |now| && 0 <= j < |later|
          ensures Before(edges, now[i], later[j]) && now[i] != later[j]
        {
          assert now[i] in now && later[j] in later;
          HopOrder(edges, target, dist, nodes, stack, k, now[i], later[j]);
        }
      }
    }
  }

  /** Whatever continues by hop k precedes whatever continues by a later hop. */
  lemma HopOrder(edges: seq<Edge>, target: NodeId, dist: nat, nodes: seq<NodeId>, stack: seq<Edge>, k: nat, p: Path, q: Path)
    requires |nodes| == |stack| + 1 && |stack| <= dist && DistinctIds(edges)
    requires |stack| == dist ==> nodes[|nodes| - 1] != target
    requires k < |Hops(edges, nodes[|nodes| - 1])|
    requires var h := Hops(edges, nodes[|nodes| - 1])[k];
             h.node !in nodes && p in Enumerate(edges, target, dist, nodes + [h.node], stack + [h.edge])
    requires q in EnumerateHops(edges, target, dist, nodes, stack, Hops(edges, nodes[|nodes| - 1])[k + 1..])
    ensures Before(edges, p, q) && p != q
  {
    hide Hops;
    var u := nodes[|nodes| - 1];
    var all := Hops(edges, u);
    EnumerateExact(edges, target, dist, nodes + [all[k].node], stack + [all[k].edge], p);
    CompletesByHop(edges, target, dist, nodes, stack, all[k], p);
    EnumerateHopsExact(edges, target, dist, nodes, stack, all[k + 1..], q);
    var b :| k < b < |all| && all[b] == NextHop(stack, q);
    assert p.nodes[..|nodes|] == nodes == q.nodes[..|nodes|];
    assert p.edges[..|stack|] == stack == q.edges[..|stack|];
    assert p.nodes[|stack|] == p.nodes[..|nodes|][|stack|] == u;
    assert DivergesAt(edges, p, q, |stack|, k, b);
    HopsDistinct(edges, u, k, b);
  }

  lemma AllShortestPathsOrdered(edges: seq<Edge>, s: NodeId, t: NodeId, dist: nat)
    requires DistinctIds(edges)
    ensures InAdjacencyOrder(edges, AllShortestPaths(edges, s, t, dist))
  {
    EnumerateOrdered(edges, t, dist, [s], []);
  }

  // ---------------------------------------------------------------------------------
  // The code: adjacency building, backtracking search, query
  // ---------------------------------------------------------------------------------

  type HopLists = map<NodeId, seq<Hop>>

  ghost predicate ListsHops(edges: seq<Edge>, adj: HopLists) {
    forall u :: At(adj, u) == Hops(edges, u) && (u in adj <==> |Hops(edges, u)| > 0)
  }

  /** First pass done for the nodes not in `pending`. */
  ghost predicate OutListed(edges: seq<Edge>, pending: set<NodeId>, adj: HopLists) {
    forall u :: && At(adj, u) == (if u in pending then [] else OutHops(OutEdges(edges, u)))
                && (u in adj <==> |At(adj, u)| > 0)
  }

  /** Second pass done for the nodes not in `pending`. */
  ghost predicate InListed(edges: seq<Edge>, pending: set<NodeId>, adj: HopLists) {
    forall u :: && At(adj, u) == OutHops(OutEdges(edges, u)) + (if u in pending then [] else InHops(InEdges(edges, u)))
                && (u in adj <==> |At(adj, u)| > 0)
  }

  /** adj is base with the first n of some entries appended under u. */
  ghost predicate Appended(base: HopLists, u: NodeId, entries: seq<Hop>, n: nat, adj: HopLists) {
    && n <= |entries|
    && At(adj, u) == At(base, u) + entries[..n]
    && (forall v :: v != u ==> At(adj, v) == At(base, v))
    && (forall v :: v in adj <==> v in base || (v == u && n > 0))
  }

  lemma AppendedNothing(base: HopLists, u: NodeId, entries: seq<Hop>)
    ensures Appended(base, u, entries, 0, base)
  {
  }

  lemma AppendedOneMore(base: HopLists, u: NodeId, entries: seq<Hop>, n: nat, adj: HopLists)
    requires Appended(base, u, entries, n, adj) && n < |entries|
    ensures Appended(base, u, entries, n + 1, Push(adj, u, entries[n]))
  {
    assert At(base, u) + entries[..n + 1] == (At(base, u) + entries[..n]) + [entries[n]];
  }

  lemma OutNodeListed(edges: seq<Edge>, pending: set<NodeId>, base: HopLists, u: NodeId, adj: HopLists)
    requires OutListed(edges, pending, base) && u in pending
    requires Appended(base, u, OutHops(OutEdges(edges, u)), |OutEdges(edges, u)|, adj)
    ensures OutListed(edges, pending - {u}, adj)
  {
    var hops := OutHops(OutEdges(edges, u));
    assert At(adj, u) == [] + hops[..|hops|] == hops;
  }

  lemma InNodeListed(edges: seq<Edge>, pending: set<NodeId>, base: HopLists, u: NodeId, adj: HopLists)
    requires InListed(edges, pending, base) && u in pending
    requires Appended(base, u, InHops(InEdges(edges, u)), |InEdges(edges, u)|, adj)
    ensures InListed(edges, pending - {u}, adj)
  {
    var hops := InHops(InEdges(edges, u));
    assert At(base, u) == OutHops(OutEdges(edges, u)) + [] == OutHops(OutEdges(edges, u));
    assert hops[..|hops|] == hops;
  }

  /** Nodes without a list have no edges, so both passes start and end as they should. */
  lemma PassBoundaries(edges: seq<Edge>, outgoing: EdgeLists, incoming: EdgeLists, adj: HopLists)
    requires ListsGraph(edges, outgoing, incoming)
    ensures OutListed(edges, outgoing.Keys, map[])
    ensures OutListed(edges, {}, adj) ==> InListed(edges, incoming.Keys, adj)
    ensures InListed(edges, {}, adj) ==> ListsHops(edges, adj)
  {
    forall u ensures u !in outgoing ==> OutHops(OutEdges(edges, u)) == [] {
      assert ListsNode(edges, outgoing, incoming, u);
    }
    forall u ensures u !in incoming ==> InHops(InEdges(edges, u)) == [] {
      assert ListsNode(edges, outgoing, incoming, u);
    }
    forall u ensures OutHops(OutEdges(edges, u)) + [] == OutHops(OutEdges(edges, u)) {
    }
  }

  method BuildHops(ghost edges: seq<Edge>, outgoing: EdgeLists, incoming: EdgeLists) returns (adj: HopLists)
    requires ListsGraph(edges, outgoing, incoming)
    ensures ListsHops(edges, adj)
  {
    hide OutListed, InListed, ListsHops, Appended, ListsGraph, OutEdges, InEdges;
    adj := map[];
    PassBoundaries(edges, outgoing, incoming, adj);
    var pending := outgoing.Keys;
    while pending != {}
      invariant pending <= outgoing.Keys && OutListed(edges, pending, adj)
      decreases pending
    {
      var u :| u in pending;
      ghost var base := adj;
      var out := outgoing[u];
      ListedLists(edges, outgoing, incoming, u);
      AppendedNothing(base, u, OutHops(out));
      var i := 0;
      while i < |out|
        invariant 0 <= i <= |out|
        invariant Appended(base, u, OutHops(out), i, adj)
      {
        AppendedOneMore(base, u, OutHops(out), i, adj);
        adj := Push(adj, u, Hop(out[i].dst, out[i]));
        i := i + 1;
      }
      OutNodeListed(edges, pending, base, u, adj);
      pending := pending - {u};
    }
    PassBoundaries(edges, outgoing, incoming, adj);
    pending := incoming.Keys;
    while pending != {}
      invariant pending <= incoming.Keys && InListed(edges, pending, adj)
      decreases pending
    {
      var u :| u in pending;
      ghost var base := adj;
      var inc := incoming[u];
      ListedLists(edges, outgoing, incoming, u);
      AppendedNothing(base, u, InHops(inc));
      var i := 0;
      while i < |inc|
        invariant 0 <= i <= |inc|
        invariant Appended(base, u, InHops(inc), i, adj)
      {
        AppendedOneMore(base, u, InHops(inc), i, adj);
        adj := Push(adj, u, Hop(inc[i].src, inc[i]));
        i := i + 1;
      }
      InNodeListed(edges, pending, base, u, adj);
      pending := pending - {u};
    }
    PassBoundaries(edges, outgoing, incoming, adj);
  }

  lemma ListedLists(edges: seq<Edge>, outgoing: EdgeLists, incoming: EdgeLists, u: NodeId)
    requires ListsGraph(edges, outgoing, incoming)
    ensures u in outgoing ==> outgoing[u] == OutEdges(edges, u)
    ensures u in incoming ==> incoming[u] == InEdges(edges, u)
  {
    assert ListsNode(edges, outgoing, incoming, u);
  }

  /** The state shared by the nested search function and its recursive calls. */
  class PathSearch {
    const adj: HopLists
    const target: NodeId
    const dist: nat
    var paths: seq<Path>
    var pathNodes: seq<NodeId>
    var pathEdges: seq<Edge>

    constructor (adj: HopLists, source: NodeId, target: NodeId, dist: nat)
      ensures this.adj == adj && this.target == target && this.dist == dist
      ensures paths == [] && pathNodes == [source] && pathEdges == []
    {
      this.adj, this.target, this.dist := adj, target, dist;
      paths, pathNodes, pathEdges := [], [source], [];
    }

    /**
      Backtracking search from the top of the path stack.  The stack is restored, and the paths found
      are those of the uncapped enumeration, appended up to the cap.
      */
    method Dfs(ghost edges: seq<Edge>, current: NodeId, depth: nat)
      requires ListsHops(edges, adj)
      requires |pathNodes| == |pathEdges| + 1 && pathNodes[|pathEdges|] == current && depth == |pathEdges|
      requires |paths| <= MAX_PATHS && depth <= dist + 1
      modifies this
      ensures pathNodes == old(pathNodes) && pathEdges == old(pathEdges)
      ensures paths == Cap(old(paths) + Enumerate(edges, target, dist, old(pathNodes), old(pathEdges)))
      decreases dist + 1 - depth
    {
      hide Hops, Enumerate, EnumerateHops;
      EnumerateEnds(edges, target, dist, pathNodes, pathEdges);
      if |paths| >= MAX_PATHS {
        return;
      }
      if depth > dist {
        return;
      }
      if current == target && depth == dist {
        paths := paths + [Path(pathNodes, pathEdges)];
        return;
      }
      var hops := At(adj, current);
      assert hops == Hops(edges, current);
      assert hops[0..] == hops;
      var i := 0;
      while i < |hops|
        invariant 0 <= i <= |hops|
        invariant pathNodes == old(pathNodes) && pathEdges == old(pathEdges) && |paths| <= MAX_PATHS
        invariant Cap(paths + EnumerateHops(edges, target, dist, pathNodes, pathEdges, hops[i..]))
               == Cap(old(paths) + EnumerateHops(edges, target, dist, pathNodes, pathEdges, hops))
      {
        var Hop(neighbor, edge) := hops[i];
        EnumerateFirstHop(edges, target, dist, pathNodes, pathEdges, hops, i, paths);
        if neighbor !in pathNodes {
          pathNodes := pathNodes + [neighbor];
          pathEdges := pathEdges + [edge];
          Dfs(edges, neighbor, depth + 1);
          pathEdges := pathEdges[..|pathEdges| - 1];
          pathNodes := pathNodes[..|pathNodes| - 1];
          assert pathNodes == old(pathNodes) && pathEdges == old(pathEdges);
        } else {
          assert Cap(paths + []) == paths;
        }
        i := i + 1;
      }
      NoHopsLeft(edges, target, dist, pathNodes, pathEdges, hops);
      assert paths + [] == paths;
    }
  }

  method QueryShortestPaths(db: Snapshot, source: NodeId, target: NodeId, maxDepth: int,
                            types: seq<string>, project: Option<ProjectId>)
    returns (r: PathsResult)
    ensures source == target ==> r == PathsResult([], Some(0))
    ensures source != target ==>
              var edges := FilteredEdges(db, types, project);
              && IsDistanceWithin(edges, "both", source, target, maxDepth, r.shortestPathLength)
              && r.paths == (match r.shortestPathLength
                             case None => []
                             case Some(d) => Cap(AllShortestPaths(edges, source, target, d)))
    ensures source != target && types == [] && project == None ==>
              && IsDistanceWithin(db.rows, "both", source, target, maxDepth, r.shortestPathLength)
              && r.paths == (match r.shortestPathLength
                             case None => []
                             case Some(d) => Cap(AllShortestPaths(db.rows, source, target, d)))
  {
    WithoutFilters(db);
    hide BfsInv, ReachIn, Step, IsDistance, FilteredEdges, Universe, ListsHops, Hops, Enumerate;
    ghost var edges := FilteredEdges(db, types, project);
    var outgoing, incoming := LoadFullGraph(db, types, project);
    if source == target {
      return PathsResult([], Some(0));
    }
    var adj := BuildHops(edges, outgoing, incoming);
    ghost var done := {};
    var visited: map<NodeId, nat> := map[source := 0];
    var queue: Queue := [Entry(source, 0)];
    BfsStart(edges, "both", source, maxDepth);
    while queue != []
      invariant BfsInv(edges, "both", source, maxDepth, visited, queue, done)
      decreases Universe(edges, source) - visited.Keys, |queue|
    {
      var Entry(current, depth) := queue[0];
      ghost var known, before := visited.Keys, queue[1..];
      assert queue == [Entry(current, depth)] + queue[1..];
      queue := queue[1..];
      if depth < maxDepth {
        var hops := At(adj, current);
        HopsAreSteps(edges, adj, current);
        var i := 0;
        while i < |hops|
          invariant 0 <= i <= |hops|
          invariant BfsInv(edges, "both", source, maxDepth, visited, [Entry(current, depth)] + queue, done)
          invariant forall j :: 0 <= j < i ==> hops[j].node in visited
          invariant || Universe(edges, source) - visited.Keys < Universe(edges, source) - known
                    || (visited.Keys == known && queue == before)
        {
          if hops[i].node !in visited {
            BfsDiscover(edges, "both", source, maxDepth, visited, [Entry(current, depth)] + queue, done, hops[i].node);
            assert [Entry(current, depth)] + (queue + [Entry(hops[i].node, depth + 1)])
                == [Entry(current, depth)] + queue + [Entry(hops[i].node, depth + 1)];
            visited := visited[hops[i].node := depth + 1];
            queue := queue + [Entry(hops[i].node, depth + 1)];
          }
          i := i + 1;
        }
      }
      BfsFinish(edges, "both", source, maxDepth, visited, [Entry(current, depth)] + queue, done);
      done := done + {current};
    }
    BfsAnswer(edges, "both", source, maxDepth, visited, done, target);
    if target !in visited {
      return PathsResult([], None);
    }
    var search := new PathSearch(adj, source, target, visited[target]);
    FirstHopExists(edges, adj, source, target, visited[target]);
    if source in adj {
      search.Dfs(edges, source, 0);
      assert [] + AllShortestPaths(edges, source, target, visited[target]) == AllShortestPaths(edges, source, target, visited[target]);
    }
    return PathsResult(search.paths, Some(visited[target]));
  }

  lemma HopsAreSteps(edges: seq<Edge>, adj: HopLists, u: NodeId)
    requires ListsHops(edges, adj)
    ensures forall i :: 0 <= i < |At(adj, u)| ==> Step(edges, "both", u, At(adj, u)[i].node)
    ensures forall w :: Step(edges, "both", u, w) ==> exists i :: 0 <= i < |At(adj, u)| && At(adj, u)[i].node == w
  {
    var hops := Hops(edges, u);
    assert At(adj, u) == hops;
    forall i | 0 <= i < |hops| ensures Step(edges, "both", u, hops[i].node) {
      HopsMembers(edges, u, hops[i]);
    }
    forall w | Step(edges, "both", u, w) ensures exists i :: 0 <= i < |hops| && hops[i].node == w {
      var e :| e in edges && Links(e, "both", u, w);
      HopsMembers(edges, u, Hop(w, e));
      var i :| 0 <= i < |hops| && hops[i] == Hop(w, e);
      assert hops[i].node == w;
    }
  }

  /** If the target is elsewhere and reachable, the source has an adjacency list. */
  lemma FirstHopExists(edges: seq<Edge>, adj: HopLists, s: NodeId, t: NodeId, dist: nat)
    requires ListsHops(edges, adj) && s != t && IsDistance(edges, "both", s, t, dist)
    ensures s in adj
  {
    var p := WalkOfReach(edges, s, t, dist);
    HopsMembers(edges, s, Hop(p.nodes[1], p.edges[0]));
    assert Hop(p.nodes[1], p.edges[0]) in Hops(edges, s);
  }
}
