/**
  The invariant shared by the three breadth-first searches.  `visited` maps every
  encountered node to its depth, `queue` holds the encountered nodes that are still to be
  expanded, and `done` (known to the proof only) the ones that already were.
*/
module BreadthFirst {
  import opened Basics
  import opened Multigraph

  datatype Entry = Entry(node: NodeId, depth: nat)

  type Queue = seq<Entry>

  /** Every node a search from s can ever encounter; what is left of it bounds the search. */
  ghost function Universe(edges: seq<Edge>, s: NodeId): set<NodeId> {
    {s} + Endpoints(edges)
  }

  ghost predicate Expanded(edges: seq<Edge>, direction: string, visited: map<NodeId, nat>, v: NodeId)
    requires v in visited
  {
    forall w :: Step(edges, direction, v, w) ==> w in visited && visited[w] <= visited[v] + 1
  }

  ghost predicate Queued(queue: Queue, v: NodeId) {
    exists i :: 0 <= i < |queue| && queue[i].node == v
  }

  ghost predicate QueueOrdered(visited: map<NodeId, nat>, queue: Queue) {
    && (forall i :: 0 <= i < |queue| ==> queue[i].node in visited && visited[queue[i].node] == queue[i].depth)
    && (forall i, j :: 0 <= i < j < |queue| ==> queue[i].depth <= queue[j].depth)
    && (|queue| > 0 ==> forall v :: v in visited ==> visited[v] <= queue[0].depth + 1)
  }

  ghost predicate BfsInv(edges: seq<Edge>, direction: string, s: NodeId, maxDepth: int,
                         visited: map<NodeId, nat>, queue: Queue, done: set<NodeId>)
  {
    && s in visited && visited[s] == 0
    && visited.Keys <= Universe(edges, s)
    && QueueOrdered(visited, queue)
    && (forall v :: v in visited ==> ReachIn(edges, direction, s, v, visited[v]))
    && (forall v :: v in visited ==> visited[v] == 0 || visited[v] <= maxDepth)
    && (forall v :: v in visited ==> v in done || Queued(queue, v))
    && (forall v :: v in done ==> v in visited && (visited[v] < maxDepth ==> Expanded(edges, direction, visited, v)))
  }

  lemma BfsStart(edges: seq<Edge>, direction: string, s: NodeId, maxDepth: int)
    ensures BfsInv(edges, direction, s, maxDepth, map[s := 0], [Entry(s, 0)], {})
  {
    var q: Queue := [Entry(s, 0)];
    assert q[0].node == s;
  }

  lemma ReachNext(edges: seq<Edge>, direction: string, s: NodeId, u: NodeId, k: nat, w: NodeId)
    requires ReachIn(edges, direction, s, u, k) && Step(edges, direction, u, w)
    ensures ReachIn(edges, direction, s, w, k + 1)
    ensures w in Universe(edges, s)
  {
    assert w in Endpoints(edges);
  }

  lemma HeadDepth(visited: map<NodeId, nat>, queue: Queue)
    requires QueueOrdered(visited, queue) && |queue| > 0
    ensures queue[0].node in visited && visited[queue[0].node] == queue[0].depth
    ensures forall v :: v in visited ==> visited[v] <= queue[0].depth + 1
  {
  }

  lemma QueueGrows(visited: map<NodeId, nat>, queue: Queue, w: NodeId)
    requires QueueOrdered(visited, queue) && |queue| > 0 && w !in visited
    ensures QueueOrdered(visited[w := queue[0].depth + 1], queue + [Entry(w, queue[0].depth + 1)])
  {
    forall i | 0 <= i < |queue| ensures queue[i].depth <= queue[0].depth + 1 {
      assert queue[i].node in visited;
    }
  }

  /** Encountering a new neighbour of the node at the head of the queue. */
  lemma BfsDiscover(edges: seq<Edge>, direction: string, s: NodeId, maxDepth: int,
                    visited: map<NodeId, nat>, queue: Queue, done: set<NodeId>, w: NodeId)
    requires BfsInv(edges, direction, s, maxDepth, visited, queue, done)
    requires |queue| > 0 && queue[0].depth < maxDepth
    requires w !in visited && Step(edges, direction, queue[0].node, w)
    ensures w in Universe(edges, s)
    ensures BfsInv(edges, direction, s, maxDepth, visited[w := queue[0].depth + 1], queue + [Entry(w, queue[0].depth + 1)], done)
  {
    hide Step, Universe, ReachIn, QueueOrdered;
    var depth := queue[0].depth + 1;
    var visited', queue' := visited[w := depth], queue + [Entry(w, depth)];
    assert QueueOrdered(visited, queue);
    HeadDepth(visited, queue);
    ReachNext(edges, direction, s, queue[0].node, queue[0].depth, w);
    QueueGrows(visited, queue, w);
    forall v | v in visited' ensures v in done || Queued(queue', v) {
      if v == w {
        assert queue'[|queue|].node == w;
      } else if v !in done {
        assert Queued(queue, v);
        var i :| 0 <= i < |queue| && queue[i].node == v;
        assert queue'[i].node == v;
      }
    }
    forall v | v in done && visited'[v] < maxDepth ensures Expanded(edges, direction, visited', v) {
      assert Expanded(edges, direction, visited, v);
    }
  }

  /** Dropping the head of the queue once all its neighbours are known (or it is at the limit). */
  lemma BfsFinish(edges: seq<Edge>, direction: string, s: NodeId, maxDepth: int,
                  visited: map<NodeId, nat>, queue: Queue, done: set<NodeId>)
    requires BfsInv(edges, direction, s, maxDepth, visited, queue, done)
    requires |queue| > 0
    requires queue[0].depth < maxDepth ==> forall w :: Step(edges, direction, queue[0].node, w) ==> w in visited
    ensures BfsInv(edges, direction, s, maxDepth, visited, queue[1..], done + {queue[0].node})
  {
    hide Universe, Endpoints, ReachIn, Step;
    var rest := queue[1..];
    assert forall i :: 0 < i < |queue| ==> rest[i - 1] == queue[i];
    forall v | v in visited ensures v in done + {queue[0].node} || Queued(rest, v) {
      assert v in done || Queued(queue, v);
      if v !in done && v != queue[0].node {
        var i :| 0 <= i < |queue| && queue[i].node == v;
        assert rest[i - 1].node == v;
      }
    }
  }

  /** Depths up to that of the queue's head are final: nothing nearer is still missing. */
  lemma {:induction false} BfsSettled(edges: seq<Edge>, direction: string, s: NodeId, maxDepth: int,
                                      visited: map<NodeId, nat>, queue: Queue, done: set<NodeId>,
                                      v: NodeId, k: nat)
    requires BfsInv(edges, direction, s, maxDepth, visited, queue, done)
    requires ReachIn(edges, direction, s, v, k)
    requires k == 0 || k <= maxDepth
    requires |queue| > 0 ==> k <= queue[0].depth
    ensures v in visited && visited[v] <= k
    decreases k
  {
    if k > 0 {
      var u :| ReachIn(edges, direction, s, u, k - 1) && Step(edges, direction, u, v);
      BfsSettled(edges, direction, s, maxDepth, visited, queue, done, u, k - 1);
      assert Expanded(edges, direction, visited, u);
    }
  }

  /** The node at the head of the queue has its exact distance. */
  lemma BfsHeadExact(edges: seq<Edge>, direction: string, s: NodeId, maxDepth: int,
                     visited: map<NodeId, nat>, queue: Queue, done: set<NodeId>)
    requires BfsInv(edges, direction, s, maxDepth, visited, queue, done)
    requires |queue| > 0
    ensures IsDistance(edges, direction, s, queue[0].node, queue[0].depth)
    ensures queue[0].node != s ==> queue[0].depth <= maxDepth
  {
    var Entry(v, d) := queue[0];
    forall k: nat | ReachIn(edges, direction, s, v, k) ensures d <= k {
      if k < d {
        BfsSettled(edges, direction, s, maxDepth, visited, queue, done, v, k);
      }
    }
  }

  /** With the queue empty, `visited` is exactly the ball of radius maxDepth with its distances. */
  lemma BfsComplete(edges: seq<Edge>, direction: string, s: NodeId, maxDepth: int,
                    visited: map<NodeId, nat>, done: set<NodeId>)
    requires BfsInv(edges, direction, s, maxDepth, visited, [], done)
    ensures forall v :: v in visited ==> IsDistance(edges, direction, s, v, visited[v])
    ensures forall v :: v !in visited ==> forall k: nat :: ReachIn(edges, direction, s, v, k) ==> maxDepth < k
  {
    forall v, k: nat | ReachIn(edges, direction, s, v, k) && (k == 0 || k <= maxDepth)
      ensures v in visited && visited[v] <= k
    {
      BfsSettled(edges, direction, s, maxDepth, visited, [], done, v, k);
    }
    forall v | v in visited ensures IsDistance(edges, direction, s, v, visited[v]) {
      forall k: nat | ReachIn(edges, direction, s, v, k) ensures visited[v] <= k {
        if k > maxDepth && k > 0 {
          assert visited[v] == 0 || visited[v] <= maxDepth;
        }
      }
    }
  }

  /** What a finished search knows about one node. */
  ghost function Found(visited: map<NodeId, nat>, v: NodeId): Option<nat> {
    if v in visited then Some(visited[v]) else None
  }

  lemma BfsAnswer(edges: seq<Edge>, direction: string, s: NodeId, maxDepth: int,
                  visited: map<NodeId, nat>, done: set<NodeId>, v: NodeId)
    requires BfsInv(edges, direction, s, maxDepth, visited, [], done)
    requires v != s
    ensures IsDistanceWithin(edges, direction, s, v, maxDepth, Found(visited, v))
    ensures v in visited ==> v in done
  {
    BfsComplete(edges, direction, s, maxDepth, visited, done);
  }

  /** Distances are unique, so two searches that both report one report the same one. */
  lemma DistanceUnique(edges: seq<Edge>, direction: string, s: NodeId, v: NodeId, maxDepth: int,
                       a: Option<nat>, b: Option<nat>)
    requires IsDistanceWithin(edges, direction, s, v, maxDepth, a)
    requires IsDistanceWithin(edges, direction, s, v, maxDepth, b)
    ensures a == b
  {
    if a.Some? {
      assert ReachIn(edges, direction, s, v, a.value);
    }
    if b.Some? {
      assert ReachIn(edges, direction, s, v, b.value);
    }
  }
}
