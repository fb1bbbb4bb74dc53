/** The three traversal queries compared with one another on one snapshot of the graph. */
module GraphQueries {
  import opened Basics
  import opened Multigraph
  import opened BreadthFirst
  import opened Neighborhood
  import opened Connected
  import opened ShortestPaths

  /**
    On the same rows, filters and depth limit, the undirected neighbourhood, the connectivity query and
    the shortest-path query report the same distance between two different nodes, or all report none.
    */
  lemma QueriesAgree(edges: seq<Edge>, s: NodeId, t: NodeId, maxDepth: int,
                     neighborhood: NeighborhoodResult, connected: ConnectedResult, paths: PathsResult)
    requires s != t
    requires IsBfsTree(edges, "both", s, maxDepth, neighborhood)
    requires IsDistanceWithin(edges, "both", s, t, maxDepth, connected.distance)
    requires IsDistanceWithin(edges, "both", s, t, maxDepth, paths.shortestPathLength)
    ensures ReportedDepth(neighborhood.nodes, t) == connected.distance == paths.shortestPathLength
    ensures connected.distance.None? <==> forall p, k: nat :: IsPathOfLength(edges, s, t, k, p) ==> maxDepth < k
  {
    DistanceUnique(edges, "both", s, t, maxDepth, ReportedDepth(neighborhood.nodes, t), connected.distance);
    DistanceUnique(edges, "both", s, t, maxDepth, paths.shortestPathLength, connected.distance);
    if connected.distance.None? {
      forall p, k: nat | IsPathOfLength(edges, s, t, k, p) ensures maxDepth < k {
        ReachOfWalk(edges, s, t, k, p);
      }
    } else {
      var p := WalkOfReach(edges, s, t, connected.distance.value);
      assert IsPathOfLength(edges, s, t, connected.distance.value, p);
    }
  }

  /** The rows of one snapshot have distinct ids whatever the filters. */
  lemma FilteredIdsDistinct(db: Snapshot, types: seq<string>, project: Option<ProjectId>)
    requires DistinctIds(db.rows)
    ensures DistinctIds(FilteredEdges(db, types, project))
  {
    SelectKeepsIdsDistinct(db.rows, e => TypeAllowed(types, e));
    SelectKeepsIdsDistinct(Select(db.rows, e => TypeAllowed(types, e)), e => ProjectAllowed(db, project, e));
  }

  /**
    The reported paths are the first ten (or all, if there are fewer) of the shortest paths in adjacency
    order: each one is a shortest path, none repeats, the order is that of the adjacency lists, every
    missing path would come after all of them, and none is missing unless ten are reported.
    */
  lemma ReportedPathsExact(edges: seq<Edge>, s: NodeId, t: NodeId, dist: nat, paths: seq<Path>)
    requires DistinctIds(edges) && IsDistance(edges, "both", s, t, dist)
    requires paths == Cap(AllShortestPaths(edges, s, t, dist))
    ensures forall p :: p in paths ==> IsPathOfLength(edges, s, t, dist, p) && IsSimple(p.nodes)
    ensures InAdjacencyOrder(edges, paths)
    ensures |paths| <= 10
    ensures forall p :: IsPathOfLength(edges, s, t, dist, p) && p !in paths ==>
              |paths| == 10 && forall i :: 0 <= i < |paths| ==> Before(edges, paths[i], p)
    ensures paths != []
  {
    hide AllShortestPaths, Before, IsPathOfLength, IsDistance;
    var all := AllShortestPaths(edges, s, t, dist);
    AllShortestPathsOrdered(edges, s, t, dist);
    forall p | p in paths ensures IsPathOfLength(edges, s, t, dist, p) && IsSimple(p.nodes) {
      AllShortestPathsExact(edges, s, t, dist, p);
      ShortestIsSimple(edges, s, t, dist, p);
    }
    forall p | IsPathOfLength(edges, s, t, dist, p) && p !in paths
      ensures |paths| == 10 && forall i :: 0 <= i < |paths| ==> Before(edges, paths[i], p)
    {
      AllShortestPathsExact(edges, s, t, dist, p);
      var j :| 0 <= j < |all| && all[j] == p;
      assert j >= |paths|;
    }
    SomePathExists(edges, s, t, dist);
  }

  /** A path of d edges, on the rows: it starts at s, ends at t, and each of its edges joins its neighbours. */
  lemma PathOnRows(edges: seq<Edge>, s: NodeId, t: NodeId, d: nat, p: Path)
    ensures IsPathOfLength(edges, s, t, d, p) <==> (
              && |p.edges| == d && |p.nodes| == d + 1 && p.nodes[0] == s && p.nodes[d] == t
              && forall i :: 0 <= i < d ==>
                   && p.edges[i] in edges
                   && ((p.edges[i].src, p.edges[i].dst) == (p.nodes[i], p.nodes[i + 1])
                       || (p.edges[i].src, p.edges[i].dst) == (p.nodes[i + 1], p.nodes[i])))
  {
  }

  /** Of two reported paths the earlier one takes, where they part, an edge that is followed earlier. */
  lemma OrderOnRows(edges: seq<Edge>, s: NodeId, t: NodeId, d: nat, p: Path, q: Path)
    requires IsPathOfLength(edges, s, t, d, p) && IsPathOfLength(edges, s, t, d, q)
    requires IsSimple(p.nodes) && IsSimple(q.nodes) && Before(edges, p, q)
    ensures exists i :: 0 <= i < d && p.nodes[..i + 1] == q.nodes[..i + 1] && p.edges[..i] == q.edges[..i]
                        && FollowedBefore(edges, p.nodes[i], p.edges[i], q.edges[i])
  {
    hide Hops, FollowedBefore;
    var i: nat, a: nat, b: nat :| DivergesAt(edges, p, q, i, a, b);
    assert p.nodes[i] == p.nodes[..i + 1][i] == q.nodes[..i + 1][i] == q.nodes[i];
    assert p.nodes[i + 1] != p.nodes[i] && q.nodes[i + 1] != q.nodes[i];
    HopsInRowOrder(edges, p.nodes[i], a, b);
  }

  lemma SomePathExists(edges: seq<Edge>, s: NodeId, t: NodeId, dist: nat)
    requires IsDistance(edges, "both", s, t, dist)
    ensures AllShortestPaths(edges, s, t, dist) != []
  {
    var p := WalkOfReach(edges, s, t, dist);
    AllShortestPathsExact(edges, s, t, dist, p);
  }
}
