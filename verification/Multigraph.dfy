/**
  The directed multigraph that the traversal queries run over: memories are nodes and
  active `memory_relations` rows are edges.  Walks and distances are defined on the rows
  themselves, so that every query is judged against the same graph and not against the
  adjacency lists it happens to build.
*/
module Multigraph {
  import opened Basics

  type NodeId = Uuid
  type EdgeId = Uuid
  type ProjectId = Uuid

  datatype Edge = Edge(id: EdgeId, src: NodeId, dst: NodeId, relationType: string)

  /** One entry of an adjacency list: the node it leads to, and over which edge. */
  datatype Hop = Hop(node: NodeId, edge: Edge)

  /** The rows one query sees: active edges in row order, and each memory's project. */
  datatype Snapshot = Snapshot(rows: seq<Edge>, projectOf: map<NodeId, Option<ProjectId>>)

  /** memory_relation_id is the primary key of memory_relations. */
  ghost predicate DistinctIds(rows: seq<Edge>) {
    forall i, j :: 0 <= i < j < |rows| ==> rows[i].id != rows[j].id
  }

  predicate GoesOut(direction: string) { direction == "outgoing" || direction == "both" }

  predicate GoesIn(direction: string) { direction == "incoming" || direction == "both" }

  /** Edge e may be followed from u to v when traversing in the given direction. */
  predicate Links(e: Edge, direction: string, u: NodeId, v: NodeId) {
    || (GoesOut(direction) && e.src == u && e.dst == v)
    || (GoesIn(direction) && e.dst == u && e.src == v)
  }

  ghost predicate Step(edges: seq<Edge>, direction: string, u: NodeId, v: NodeId) {
    exists e :: e in edges && Links(e, direction, u, v)
  }

  /** "outgoing" follows an edge from its start to its end, "incoming" the other way, "both" either way, and no other word any. */
  lemma DirectionsExact(e: Edge, direction: string, u: NodeId, v: NodeId)
    ensures Links(e, "outgoing", u, v) <==> (e.src, e.dst) == (u, v)
    ensures Links(e, "incoming", u, v) <==> (e.src, e.dst) == (v, u)
    ensures Links(e, "both", u, v) <==> (e.src, e.dst) == (u, v) || (e.src, e.dst) == (v, u)
    ensures Links(e, direction, u, v) ==> direction == "outgoing" || direction == "incoming" || direction == "both"
  {
    assert |"outgoing"| == 8 && |"incoming"| == 8 && |"both"| == 4;
    assert "outgoing"[0] != "incoming"[0];
  }

  /** v can be reached from s by a walk of exactly k edges. */
  ghost predicate ReachIn(edges: seq<Edge>, direction: string, s: NodeId, v: NodeId, k: nat)
    decreases k
  {
    if k == 0 then s == v
    else exists u :: ReachIn(edges, direction, s, u, k - 1) && Step(edges, direction, u, v)
  }

  ghost predicate IsDistance(edges: seq<Edge>, direction: string, s: NodeId, v: NodeId, d: nat) {
    && ReachIn(edges, direction, s, v, d)
    && forall k: nat :: ReachIn(edges, direction, s, v, k) ==> d <= k
  }

  /** What a depth-limited query should report: the distance, if it is at most the limit. */
  ghost predicate IsDistanceWithin(edges: seq<Edge>, direction: string, s: NodeId, v: NodeId,
                                   maxDepth: int, answer: Option<nat>)
  {
    match answer
    case Some(d) => d <= maxDepth && IsDistance(edges, direction, s, v, d)
    case None => forall k: nat :: ReachIn(edges, direction, s, v, k) ==> maxDepth < k
  }

  /** A walk: the nodes visited and the edge taken at each step, in either direction. */
  datatype Path = Path(nodes: seq<NodeId>, edges: seq<Edge>)

  ghost predicate IsWalk(edges: seq<Edge>, p: Path) {
    && |p.nodes| == |p.edges| + 1
    && forall i :: 0 <= i < |p.edges| ==>
         p.edges[i] in edges && Links(p.edges[i], "both", p.nodes[i], p.nodes[i + 1])
  }

  ghost predicate IsSimple(nodes: seq<NodeId>) {
    forall i, j :: 0 <= i < j < |nodes| ==> nodes[i] != nodes[j]
  }

  /** A walk of d edges from s to t. */
  ghost predicate IsPathOfLength(edges: seq<Edge>, s: NodeId, t: NodeId, d: nat, p: Path) {
    && IsWalk(edges, p) && |p.edges| == d
    && p.nodes[0] == s && p.nodes[d] == t
  }

  /** Following a walk from its m-th node onwards adds its remaining length. */
  lemma {:induction false} ExtendReach(edges: seq<Edge>, p: Path, s: NodeId, from: nat, to: nat, k: nat)
    requires IsWalk(edges, p) && from <= to < |p.nodes|
    requires ReachIn(edges, "both", s, p.nodes[from], k)
    ensures ReachIn(edges, "both", s, p.nodes[to], k + (to - from))
  {
    if from < to {
      ExtendReach(edges, p, s, from, to - 1, k);
      assert p.edges[to - 1] in edges && Links(p.edges[to - 1], "both", p.nodes[to - 1], p.nodes[to]);
      assert Step(edges, "both", p.nodes[to - 1], p.nodes[to]);
    }
  }

  /** Reachability in k steps is exactly the existence of a walk of k edges. */
  lemma {:induction false} WalkOfReach(edges: seq<Edge>, s: NodeId, t: NodeId, k: nat) returns (p: Path)
    requires ReachIn(edges, "both", s, t, k)
    ensures IsPathOfLength(edges, s, t, k, p)
    decreases k
  {
    if k == 0 {
      p := Path([s], []);
    } else {
      var u :| ReachIn(edges, "both", s, u, k - 1) && Step(edges, "both", u, t);
      var e :| e in edges && Links(e, "both", u, t);
      var q := WalkOfReach(edges, s, u, k - 1);
      p := Path(q.nodes + [t], q.edges + [e]);
    }
  }

  lemma ReachOfWalk(edges: seq<Edge>, s: NodeId, t: NodeId, k: nat, p: Path)
    requires IsPathOfLength(edges, s, t, k, p)
    ensures ReachIn(edges, "both", s, t, k)
  {
    ExtendReach(edges, p, s, 0, k, 0);
  }

  /** Every shortest walk is simple, so a search that never revisits a node loses none of them. */
  lemma ShortestIsSimple(edges: seq<Edge>, s: NodeId, t: NodeId, d: nat, p: Path)
    requires IsDistance(edges, "both", s, t, d)
    requires IsPathOfLength(edges, s, t, d, p)
    ensures IsSimple(p.nodes)
  {
    forall i, j | 0 <= i < j < |p.nodes| ensures p.nodes[i] != p.nodes[j] {
      if p.nodes[i] == p.nodes[j] {
        ExtendReach(edges, p, s, 0, i, 0);
        ExtendReach(edges, p, s, j, d, i);
      }
    }
  }

  // ---------------------------------------------------------------------------------
  // Loading
  // ---------------------------------------------------------------------------------

  predicate TypeAllowed(types: seq<string>, e: Edge) { types == [] || e.relationType in types }

  predicate InProject(db: Snapshot, project: ProjectId, v: NodeId) {
    v in db.projectOf && db.projectOf[v] == Some(project)
  }

  predicate ProjectAllowed(db: Snapshot, project: Option<ProjectId>, e: Edge) {
    project.None? || InProject(db, project.value, e.src) || InProject(db, project.value, e.dst)
  }

  function Select(edges: seq<Edge>, keep: Edge -> bool): seq<Edge> {
    if edges == [] then []
    else Select(edges[..|edges| - 1], keep) + (if keep(edges[|edges| - 1]) then [edges[|edges| - 1]] else [])
  }

  lemma {:induction false} SelectMembers(edges: seq<Edge>, keep: Edge -> bool, e: Edge)
    ensures e in Select(edges, keep) <==> e in edges && keep(e)
  {
    if edges != [] {
      SelectMembers(edges[..|edges| - 1], keep, e);
      assert edges == edges[..|edges| - 1] + [edges[|edges| - 1]];
    }
  }

  /** The edges a query traverses: an empty type list means "any type". */
  function FilteredEdges(db: Snapshot, types: seq<string>, project: Option<ProjectId>): seq<Edge> {
    Select(Select(db.rows, e => TypeAllowed(types, e)), e => ProjectAllowed(db, project, e))
  }

  /**
    Which rows a query traverses: those of a listed type, where an empty list lists every type, that touch
    the project at one end, where no project means every project.
    */
  lemma FilteredEdgesExact(db: Snapshot, types: seq<string>, project: Option<ProjectId>, e: Edge)
    ensures e in FilteredEdges(db, types, project) <==> (
              && e in db.rows
              && (types != [] ==> e.relationType in types)
              && (project.Some? ==> (e.src in db.projectOf && db.projectOf[e.src] == project)
                                    || (e.dst in db.projectOf && db.projectOf[e.dst] == project)))
  {
    SelectMembers(Select(db.rows, e => TypeAllowed(types, e)), e => ProjectAllowed(db, project, e), e);
    SelectMembers(db.rows, e => TypeAllowed(types, e), e);
  }

  lemma {:induction false} SelectAll(edges: seq<Edge>, keep: Edge -> bool)
    requires forall e :: e in edges ==> keep(e)
    ensures Select(edges, keep) == edges
  {
    if edges != [] {
      SelectAll(edges[..|edges| - 1], keep);
    }
  }

  /** A query without filters traverses every row, in row order. */
  lemma WithoutFilters(db: Snapshot)
    ensures FilteredEdges(db, [], None) == db.rows
  {
    SelectAll(db.rows, e => TypeAllowed([], e));
    SelectAll(db.rows, e => ProjectAllowed(db, None, e));
  }

  /** Two positions of a selection come from two rows in the same order. */
  lemma {:induction false} SelectKeepsOrder(edges: seq<Edge>, keep: Edge -> bool, a: nat, b: nat) returns (m: nat, n: nat)
    requires a < b < |Select(edges, keep)|
    ensures m < n < |edges| && edges[m] == Select(edges, keep)[a] && edges[n] == Select(edges, keep)[b]
  {
    var init := edges[..|edges| - 1];
    if b < |Select(init, keep)| {
      m, n := SelectKeepsOrder(init, keep, a, b);
    } else {
      SelectMembers(init, keep, Select(init, keep)[a]);
      m :| 0 <= m < |init| && init[m] == Select(init, keep)[a];
      n := |init|;
    }
  }

  /** Filtering keeps the rows in their order. */
  lemma FilteredInRowOrder(db: Snapshot, types: seq<string>, project: Option<ProjectId>, a: nat, b: nat) returns (m: nat, n: nat)
    requires a < b < |FilteredEdges(db, types, project)|
    ensures m < n < |db.rows|
    ensures db.rows[m] == FilteredEdges(db, types, project)[a] && db.rows[n] == FilteredEdges(db, types, project)[b]
  {
    var c, d := SelectKeepsOrder(Select(db.rows, e => TypeAllowed(types, e)), e => ProjectAllowed(db, project, e), a, b);
    m, n := SelectKeepsOrder(db.rows, e => TypeAllowed(types, e), c, d);
  }

  lemma {:induction false} SelectKeepsIdsDistinct(edges: seq<Edge>, keep: Edge -> bool)
    requires DistinctIds(edges)
    ensures DistinctIds(Select(edges, keep))
  {
    if edges != [] {
      var init := edges[..|edges| - 1];
      SelectKeepsIdsDistinct(init, keep);
      var r := Select(init, keep);
      forall i | 0 <= i < |r| ensures r[i].id != edges[|edges| - 1].id {
        SelectMembers(init, keep, r[i]);
        assert r[i] in r;
      }
    }
  }

  /** The edges leaving u, in row order. */
  function OutEdges(edges: seq<Edge>, u: NodeId): seq<Edge> {
    if edges == [] then []
    else
      var last := edges[|edges| - 1];
      OutEdges(edges[..|edges| - 1], u) + (if last.src == u then [last] else [])
  }

  /** The edges arriving at u, in row order. */
  function InEdges(edges: seq<Edge>, u: NodeId): seq<Edge> {
    if edges == [] then []
    else
      var last := edges[|edges| - 1];
      InEdges(edges[..|edges| - 1], u) + (if last.dst == u then [last] else [])
  }

  lemma {:induction false} OutEdgesMembers(edges: seq<Edge>, u: NodeId, e: Edge)
    ensures e in OutEdges(edges, u) <==> e in edges && e.src == u
  {
    if edges != [] {
      OutEdgesMembers(edges[..|edges| - 1], u, e);
      assert edges == edges[..|edges| - 1] + [edges[|edges| - 1]];
    }
  }

  lemma {:induction false} InEdgesMembers(edges: seq<Edge>, u: NodeId, e: Edge)
    ensures e in InEdges(edges, u) <==> e in edges && e.dst == u
  {
    if edges != [] {
      InEdgesMembers(edges[..|edges| - 1], u, e);
      assert edges == edges[..|edges| - 1] + [edges[|edges| - 1]];
    }
  }

  /** dict.get(u, []) on an adjacency map. */
  function At<T>(adj: map<NodeId, seq<T>>, u: NodeId): seq<T> {
    if u in adj then adj[u] else []
  }

  /** defaultdict(list): append one entry under u. */
  function Push<T>(adj: map<NodeId, seq<T>>, u: NodeId, x: T): (r: map<NodeId, seq<T>>)
    ensures r.Keys == adj.Keys + {u}
    ensures forall v :: At(r, v) == if v == u then At(adj, v) + [x] else At(adj, v)
  {
    adj[u := At(adj, u) + [x]]
  }

  type EdgeLists = map<NodeId, seq<Edge>>

  /** The lists of u hold its outgoing, resp. incoming, edges in row order, and are absent when empty. */
  ghost predicate ListsNode(edges: seq<Edge>, outgoing: EdgeLists, incoming: EdgeLists, u: NodeId) {
    && At(outgoing, u) == OutEdges(edges, u)
    && At(incoming, u) == InEdges(edges, u)
    && (u in outgoing <==> |OutEdges(edges, u)| > 0)
    && (u in incoming <==> |InEdges(edges, u)| > 0)
  }

  ghost predicate ListsGraph(edges: seq<Edge>, outgoing: EdgeLists, incoming: EdgeLists) {
    forall u :: ListsNode(edges, outgoing, incoming, u)
  }

  lemma EdgesOneMore(edges: seq<Edge>, e: Edge, u: NodeId)
    ensures OutEdges(edges + [e], u) == OutEdges(edges, u) + (if e.src == u then [e] else [])
    ensures InEdges(edges + [e], u) == InEdges(edges, u) + (if e.dst == u then [e] else [])
  {
    assert (edges + [e])[..|edges|] == edges;
  }

  lemma ListsOneMore(edges: seq<Edge>, e: Edge, outgoing: EdgeLists, incoming: EdgeLists)
    requires ListsGraph(edges, outgoing, incoming)
    ensures ListsGraph(edges + [e], Push(outgoing, e.src, e), Push(incoming, e.dst, e))
  {
    forall u ensures ListsNode(edges + [e], Push(outgoing, e.src, e), Push(incoming, e.dst, e), u) {
      EdgesOneMore(edges, e, u);
      assert ListsNode(edges, outgoing, incoming, u);
    }
  }

  lemma NoListsYet()
    ensures ListsGraph([], map[], map[])
  {
  }

  method LoadFullGraph(db: Snapshot, types: seq<string>, project: Option<ProjectId>)
    returns (outgoing: EdgeLists, incoming: EdgeLists)
    ensures ListsGraph(FilteredEdges(db, types, project), outgoing, incoming)
  {
    hide OutEdges, InEdges, ListsNode, FilteredEdges;
    var edges := FilteredEdges(db, types, project);
    outgoing, incoming := map[], map[];
    var i := 0;
    NoListsYet();
    assert edges[..0] == [];
    while i < |edges|
      invariant 0 <= i <= |edges|
      invariant ListsGraph(edges[..i], outgoing, incoming)
    {
      var e := edges[i];
      ListsOneMore(edges[..i], e, outgoing, incoming);
      assert edges[..i + 1] == edges[..i] + [e];
      outgoing := Push(outgoing, e.src, e);
      incoming := Push(incoming, e.dst, e);
      i := i + 1;
    }
    assert edges[..i] == edges;
  }

  function Endpoints(edges: seq<Edge>): set<NodeId> {
    (set e | e in edges :: e.src) + (set e | e in edges :: e.dst)
  }
}
