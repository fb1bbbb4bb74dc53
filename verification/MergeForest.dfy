/**
  The merged_into relation.  As long as no memory that was merged away is brought back, it is a forest whose
  roots were never merged; and as long as no text is edited either, a root's text still contains the text of
  everything that was absorbed on the way to it.
*/
module MergeForest {
  import opened Basics
  import opened WriteProtocol
  import opened ExactlyOnce
  import opened Memories
  import opened MemoryRuns
  import opened Serialisability

  ghost predicate HasEdgeFrom(b: MemoryTables, id: MemoryId) {
    exists i :: 0 <= i < |b.relations| && b.relations[i].from == id
  }

  ghost predicate OccursAt(text: string, part: string, i: nat) {
    i + |part| <= |text| && text[i..i + |part|] == part
  }

  ghost predicate Contains(text: string, part: string) {
    exists i: nat :: OccursAt(text, part, i)
  }

  /** The graph part: one edge per merged memory, none from live ones, and edges lead forward in time. */
  ghost predicate Forest(b: MemoryTables) {
    && (forall i :: 0 <= i < |b.relations| ==> b.relations[i].from in b.memories && b.relations[i].to in b.memories)
    && (forall i, j :: 0 <= i < j < |b.relations| ==> b.relations[i].from != b.relations[j].from)
    && (forall id :: id in b.memories && b.memories[id].status == Merged ==> HasEdgeFrom(b, id))
    && (forall i :: 0 <= i < |b.relations| ==> b.memories[b.relations[i].from].status in {Merged, Deleted})
    && (forall i, j :: 0 <= i < |b.relations| && 0 <= j < |b.relations| && b.relations[j].from == b.relations[i].to ==> i < j)
  }

  /** The text part: along every edge, the absorbed text is contained in the absorbing one. */
  ghost predicate TextsKept(b: MemoryTables)
    requires Forest(b)
  {
    forall i :: 0 <= i < |b.relations| ==>
      Contains(b.memories[b.relations[i].to].content.text, b.memories[b.relations[i].from].content.text)
  }

  ghost predicate KeepingForest(b: MemoryTables) { Forest(b) && TextsKept(b) }

  /** A restore of a memory that has been merged away (which requires deleting it first). */
  ghost predicate RevivesMerged(b: MemoryTables, op: Op) {
    op.Restore? && HasEdgeFrom(b, op.id)
  }

  predicate EditsText(op: Op) { op.Update? && op.patch.text.Some? }

  // ---------------------------------------------------------------------------------
  // Containment of texts
  // ---------------------------------------------------------------------------------

  lemma ContainsSelf(a: string)
    ensures Contains(a, a)
  {
    assert OccursAt(a, a, 0);
  }

  lemma ContainsMiddle(before: string, part: string, after: string)
    ensures Contains(before + part + after, part)
  {
    var text := before + part + after;
    assert OccursAt(text, part, |before|);
  }

  lemma ContainsTransitive(a: string, b: string, c: string)
    requires Contains(a, b) && Contains(b, c)
    ensures Contains(a, c)
  {
    var i: nat :| OccursAt(a, b, i);
    var j: nat :| OccursAt(b, c, j);
    forall k | 0 <= k < |c| ensures a[i + j + k] == c[k] {
      assert a[i + (j + k)] == a[i..i + |b|][j + k] == b[j + k] == b[j..j + |c|][k];
    }
    assert a[i + j..i + j + |c|] == c;
    assert OccursAt(a, c, i + j);
  }

  lemma MergedTextContains(s: Memory, c: Memory)
    ensures Contains(MergedText(s, c), s.content.text) && Contains(MergedText(s, c), c.content.text)
  {
    var middle := "\n\n--- Merged from " + c.canonicalKey + " ---\n";
    assert MergedText(s, c) == [] + s.content.text + (middle + c.content.text);
    ContainsMiddle([], s.content.text, middle + c.content.text);
    assert MergedText(s, c) == (s.content.text + middle) + c.content.text + [];
    ContainsMiddle(s.content.text + middle, c.content.text, []);
  }

  // ---------------------------------------------------------------------------------
  // One serial operation
  // ---------------------------------------------------------------------------------

  /** What an operation other than a merge may change: one row, and in it not the relations. */
  lemma NonMergeEffect(op: Op, b: MemoryTables)
    requires SerialOp(op, b).Wrote? && !op.Merge?
    ensures var b' := SerialOp(op, b).state;
            && b'.relations == b.relations
            && op.id in b'.memories && b'.memories.Keys == b.memories.Keys + {op.id}
            && (forall id :: id in b.memories && id != op.id ==> b'.memories[id] == b.memories[id])
            && (op.IsInsert() <==> op.id !in b.memories)
            && (op.IsInsert() ==> Mergeable(b'.memories[op.id].status))
            && (op.IsTransition() ==> StatusAllows(op, b.memories[op.id].status) && b'.memories[op.id].status == TargetStatus(op))
            && (!op.IsInsert() && !op.IsTransition() ==> b'.memories[op.id].status == b.memories[op.id].status)
            && (!op.IsInsert() && !EditsText(op) ==> b'.memories[op.id].content.text == b.memories[op.id].content.text)
  {
    hide CanonicalKeyTaken, RowAllowed;
  }

  lemma MergeEffect(op: Op, b: MemoryTables)
    requires SerialOp(op, b).Wrote? && op.Merge?
    ensures op.id in b.memories && op.consumed in b.memories && op.id != op.consumed
    ensures Mergeable(b.memories[op.id].status) && Mergeable(b.memories[op.consumed].status)
    ensures var s, c, b' := b.memories[op.id], b.memories[op.consumed], SerialOp(op, b).state;
            && b'.memories.Keys == b.memories.Keys
            && (forall id :: id in b.memories && id != op.id && id != op.consumed ==> b'.memories[id] == b.memories[id])
            && b'.memories[op.id].status == s.status && b'.memories[op.id].content.text == MergedText(s, c)
            && b'.memories[op.consumed].status == Merged && b'.memories[op.consumed].content == c.content
            && b'.relations == AddRelation(b.relations, Relation(op.consumed, c.version + 1, op.id, s.version + 1))
  {
  }

  lemma NonMergeForest(op: Op, b: MemoryTables)
    requires SerialOp(op, b).Wrote? && !op.Merge? && Forest(b)
    ensures Forest(SerialOp(op, b).state) <==> !RevivesMerged(b, op)
  {
    hide SerialOp, Forest;
    NonMergeEffect(op, b);
    var b' := SerialOp(op, b).state;
    if RevivesMerged(b, op) {
      LiveEdgeBreaks(b', op.id);
    } else {
      SameEdgesKept(op, b, b');
    }
  }

  /** A live memory with an outgoing edge is no forest. */
  lemma LiveEdgeBreaks(b: MemoryTables, id: MemoryId)
    requires HasEdgeFrom(b, id) && id in b.memories && b.memories[id].status == Active
    ensures !Forest(b)
  {
  }

  lemma SameEdgesKept(op: Op, b: MemoryTables, b': MemoryTables)
    requires Forest(b) && b'.relations == b.relations && b.memories.Keys <= b'.memories.Keys
    requires !RevivesMerged(b, op) && op.id in b'.memories && b'.memories.Keys == b.memories.Keys + {op.id}
    requires forall id :: id in b.memories && id != op.id ==> b'.memories[id] == b.memories[id]
    requires op.id !in b.memories ==> b'.memories[op.id].status != Merged
    requires op.id in b.memories ==>
               || b'.memories[op.id].status == b.memories[op.id].status
               || (op.IsTransition() && StatusAllows(op, b.memories[op.id].status) && b'.memories[op.id].status == TargetStatus(op))
    ensures Forest(b')
  {
    forall i | 0 <= i < |b'.relations| ensures b'.memories[b'.relations[i].from].status in {Merged, Deleted} {
      assert b.memories[b.relations[i].from].status in {Merged, Deleted};
      assert HasEdgeFrom(b, b.relations[i].from);
    }
    forall id | id in b'.memories && b'.memories[id].status == Merged ensures HasEdgeFrom(b', id) {
      assert HasEdgeFrom(b, id);
    }
  }

  lemma MergeForestKept(op: Op, b: MemoryTables)
    requires SerialOp(op, b).Wrote? && op.Merge? && Forest(b)
    ensures Forest(SerialOp(op, b).state)
    ensures !HasEdgeFrom(b, op.id) && !HasEdgeFrom(b, op.consumed)
    ensures SerialOp(op, b).state.relations
         == b.relations + [Relation(op.consumed, b.memories[op.consumed].version + 1, op.id, b.memories[op.id].version + 1)]
  {
    hide SerialOp, MergedText, Forest;
    MergeEffect(op, b);
    LiveHasNoEdge(b, op.id);
    LiveHasNoEdge(b, op.consumed);
    OneEdgeMore(b, SerialOp(op, b).state, op.consumed, op.id,
                Relation(op.consumed, b.memories[op.consumed].version + 1, op.id, b.memories[op.id].version + 1));
  }

  lemma LiveHasNoEdge(b: MemoryTables, id: MemoryId)
    requires Forest(b) && id in b.memories && Mergeable(b.memories[id].status)
    ensures !HasEdgeFrom(b, id)
  {
  }

  /** Marking one live memory as merged, with an edge to another live one, keeps the forest. */
  lemma OneEdgeMore(b: MemoryTables, b': MemoryTables, from: MemoryId, to: MemoryId, r: Relation)
    requires Forest(b) && from in b.memories && to in b.memories && from != to && r.from == from && r.to == to
    requires !HasEdgeFrom(b, from) && !HasEdgeFrom(b, to)
    requires b'.memories.Keys == b.memories.Keys && b'.relations == b.relations + [r]
    requires b'.memories[from].status == Merged && b'.memories[to].status == b.memories[to].status
    requires forall id :: id in b.memories && id != from && id != to ==> b'.memories[id] == b.memories[id]
    ensures Forest(b')
  {
    assert b'.relations[|b.relations|] == r;
    assert forall i :: 0 <= i < |b.relations| ==> b'.relations[i] == b.relations[i];
    forall i | 0 <= i < |b.relations| ensures b.relations[i].from != from && b.relations[i].from != to {
      assert HasEdgeFrom(b, b.relations[i].from);
    }
    hide HasEdgeFrom;
    MergedHaveEdges(b, b', from, r);
  }

  lemma MergedHaveEdges(b: MemoryTables, b': MemoryTables, from: MemoryId, r: Relation)
    requires Forest(b) && b'.relations == b.relations + [r] && r.from == from
    requires forall id :: id in b'.memories && b'.memories[id].status == Merged && id != from ==>
               id in b.memories && b.memories[id].status == Merged
    ensures forall id :: id in b'.memories && b'.memories[id].status == Merged ==> HasEdgeFrom(b', id)
  {
    assert b'.relations[|b.relations|] == r;
    forall id | id in b'.memories && b'.memories[id].status == Merged ensures HasEdgeFrom(b', id) {
      if id != from {
        assert HasEdgeFrom(b, id);
        var i :| 0 <= i < |b.relations| && b.relations[i].from == id;
        assert b'.relations[i].from == id;
      }
    }
  }

  /** Exactly the revival of a merged memory breaks the forest; every other operation keeps it. */
  lemma ForestKeptExactly(op: Op, b: MemoryTables)
    requires SerialOp(op, b).Wrote? && Forest(b)
    ensures Forest(SerialOp(op, b).state) <==> !RevivesMerged(b, op)
  {
    if op.Merge? {
      MergeForestKept(op, b);
    } else {
      NonMergeForest(op, b);
    }
  }

  lemma TextsKeptByOp(op: Op, b: MemoryTables)
    requires SerialOp(op, b).Wrote? && KeepingForest(b)
    requires !RevivesMerged(b, op) && !EditsText(op)
    ensures KeepingForest(SerialOp(op, b).state)
  {
    hide SerialOp, Contains, MergedText, Forest;
    ForestKeptExactly(op, b);
    EdgesStay(b);
    var b' := SerialOp(op, b).state;
    if op.Merge? {
      MergeEffect(op, b);
      MergeForestKept(op, b);
      EdgesStay(b');
      forall i | 0 <= i < |b'.relations|
        ensures Contains(b'.memories[b'.relations[i].to].content.text, b'.memories[b'.relations[i].from].content.text)
      {
        MergeKeepsText(op, b, i);
      }
    } else {
      NonMergeEffect(op, b);
    }
  }

  /** Edges join stored memories. */
  lemma EdgesStay(b: MemoryTables)
    requires Forest(b)
    ensures forall i :: 0 <= i < |b.relations| ==> b.relations[i].from in b.memories && b.relations[i].to in b.memories
  {
  }

  lemma MergeKeepsText(op: Op, b: MemoryTables, i: nat)
    requires SerialOp(op, b).Wrote? && op.Merge? && KeepingForest(b) && Forest(SerialOp(op, b).state)
    requires i < |SerialOp(op, b).state.relations|
    ensures var b' := SerialOp(op, b).state;
            Contains(b'.memories[b'.relations[i].to].content.text, b'.memories[b'.relations[i].from].content.text)
  {
    hide SerialOp, Contains, MergedText;
    MergeEffect(op, b);
    MergeForestKept(op, b);
    var s, c := b.memories[op.id], b.memories[op.consumed];
    MergedTextContains(s, c);
    if i < |b.relations| {
      var r := b.relations[i];
      assert r.from != op.id && r.from != op.consumed by {
        assert HasEdgeFrom(b, r.from);
      }
      if r.to == op.id {
        ContainsTransitive(MergedText(s, c), s.content.text, b.memories[r.from].content.text);
      }
    }
  }

  // ---------------------------------------------------------------------------------
  // Every run
  // ---------------------------------------------------------------------------------

  /** No committed call of the run revives a merged memory. */
  ghost predicate NoRevival(s: System) {
    LogHasJobs(s) &&
    forall i :: 0 <= i < |s.world.log| ==> !RevivesMerged(s.world.log[i].before, CommittedCall(s, i).op)
  }

  /** No committed call of the run edits a text. */
  ghost predicate NoTextEdit(s: System) {
    LogHasJobs(s) && forall i :: 0 <= i < |s.world.log| ==> !EditsText(CommittedCall(s, i).op)
  }

  /** The n-th group is the serial execution of its call on the tables before it. */
  lemma GroupIsSerial(start: Tables<MemoryTables>, s: System, n: nat)
    requires TablesAreLog(start, s.world) && SystemInv(s) && LogHasJobs(s) && n < |s.world.log|
    ensures var op := CommittedCall(s, n).op;
            && TablesAfter(start, s.world.log, n).business == s.world.log[n].before
            && SerialOp(op, s.world.log[n].before).Wrote?
            && SerialOp(op, s.world.log[n].before).state == TablesAfter(start, s.world.log, n + 1).business
  {
    hide SystemInv, TablesAreLog, RunGroup, SerialOp, ReadNow, Admissible, RequestFor;
    LoggedIsSerial(s, n);
    TablesStepForward(start, s.world, n);
  }

  lemma {:induction false} LogKeepsForest(start: Tables<MemoryTables>, s: System, n: nat)
    requires TablesAreLog(start, s.world) && SystemInv(s)
    requires NoRevival(s) && Forest(start.business) && n <= |s.world.log|
    ensures Forest(TablesAfter(start, s.world.log, n).business)
  {
    hide Forest, SystemInv, RevivesMerged, TablesAreLog, SerialOp;
    if n > 0 {
      LogKeepsForest(start, s, n - 1);
      GroupIsSerial(start, s, n - 1);
      ForestKeptExactly(CommittedCall(s, n - 1).op, s.world.log[n - 1].before);
    }
  }

  lemma {:induction false} LogKeepsTexts(start: Tables<MemoryTables>, s: System, n: nat)
    requires TablesAreLog(start, s.world) && SystemInv(s)
    requires NoRevival(s) && NoTextEdit(s) && KeepingForest(start.business) && n <= |s.world.log|
    ensures KeepingForest(TablesAfter(start, s.world.log, n).business)
  {
    hide KeepingForest, SystemInv, RevivesMerged, TablesAreLog, SerialOp, EditsText;
    if n > 0 {
      LogKeepsTexts(start, s, n - 1);
      GroupIsSerial(start, s, n - 1);
      TextsKeptByOp(CommittedCall(s, n - 1).op, s.world.log[n - 1].before);
    }
  }

  /** Without a revival every run keeps the forest, whatever else it does. */
  lemma RunKeepsForest(start: Tables<MemoryTables>, moves: seq<Move>)
    requires UniqueKeys(start.events) && Forest(start.business)
    requires NoRevival(RunSystem(StartSystem(start), moves))
    ensures Forest(RunSystem(StartSystem(start), moves).world.tables.business)
  {
    hide RunSystem, Forest, NoRevival, TablesAreLog, SystemInv;
    var s := RunSystem(StartSystem(start), moves);
    RunKeepsFullInv(start, moves);
    LogKeepsForest(start, s, |s.world.log|);
    WholeLog(start, s.world);
  }

  /** If it edits no text either, every absorbed text stays contained. */
  lemma RunKeepsTexts(start: Tables<MemoryTables>, moves: seq<Move>)
    requires UniqueKeys(start.events) && KeepingForest(start.business)
    requires NoRevival(RunSystem(StartSystem(start), moves)) && NoTextEdit(RunSystem(StartSystem(start), moves))
    ensures KeepingForest(RunSystem(StartSystem(start), moves).world.tables.business)
  {
    hide RunSystem, KeepingForest, NoRevival, NoTextEdit, TablesAreLog, SystemInv;
    var s := RunSystem(StartSystem(start), moves);
    RunKeepsFullInv(start, moves);
    LogKeepsTexts(start, s, |s.world.log|);
    WholeLog(start, s.world);
  }

  // ---------------------------------------------------------------------------------
  // What a forest gives: following merged_into ends at the survivor of all merges
  // ---------------------------------------------------------------------------------

  /** The position of the only edge leaving id. */
  ghost function EdgeFrom(b: MemoryTables, id: MemoryId): nat
    requires HasEdgeFrom(b, id)
  {
    var i :| 0 <= i < |b.relations| && b.relations[i].from == id; i
  }

  /** The memories met when following merged_into from id, id first. */
  ghost function MergeChain(b: MemoryTables, id: MemoryId): (chain: seq<MemoryId>)
    requires Forest(b)
    ensures |chain| > 0 && chain[0] == id
    decreases if HasEdgeFrom(b, id) then |b.relations| - EdgeFrom(b, id) else 0
  {
    if HasEdgeFrom(b, id) then [id] + MergeChain(b, b.relations[EdgeFrom(b, id)].to) else [id]
  }

  /**
    The chain of every memory visits no memory twice and ends at one that was not merged into anything,
    whose text contains the text of every memory on the chain.
    */
  lemma {:induction false} ChainEndsAtSurvivor(b: MemoryTables, id: MemoryId)
    requires KeepingForest(b) && id in b.memories
    ensures var chain := MergeChain(b, id);
            var root := chain[|chain| - 1];
            && root in b.memories && b.memories[root].status != Merged && !HasEdgeFrom(b, root)
            && (forall k :: 0 <= k < |chain| ==> chain[k] in b.memories)
            && (forall k :: 0 <= k < |chain| ==> Contains(b.memories[root].content.text, b.memories[chain[k]].content.text))
            && (forall k :: 0 <= k < |chain| - 1 ==> HasEdgeFrom(b, chain[k]) && b.relations[EdgeFrom(b, chain[k])].to == chain[k + 1])
            && (forall k :: 0 < k < |chain| - 1 ==> EdgeFrom(b, chain[k - 1]) < EdgeFrom(b, chain[k]))
    decreases if HasEdgeFrom(b, id) then |b.relations| - EdgeFrom(b, id) else 0
  {
    hide Contains;
    if HasEdgeFrom(b, id) {
      var next := b.relations[EdgeFrom(b, id)].to;
      ChainEndsAtSurvivor(b, next);
      var rest := MergeChain(b, next);
      var root := b.memories[rest[|rest| - 1]].content.text;
      ContainsTransitive(root, b.memories[next].content.text, b.memories[id].content.text);
    } else {
      ContainsSelf(b.memories[id].content.text);
    }
  }

  // ---------------------------------------------------------------------------------
  // When a merge closes a cycle
  // ---------------------------------------------------------------------------------

  /** A path along merged_into edges, given by their positions in the table. */
  ghost predicate IsMergePath(relations: seq<Relation>, path: seq<nat>) {
    && (forall k :: 0 <= k < |path| ==> path[k] < |relations|)
    && (forall k :: 0 < k < |path| ==> relations[path[k]].from == relations[path[k - 1]].to)
  }

  /** The first and the last memory of a path. */
  ghost predicate Joins(relations: seq<Relation>, path: seq<nat>, x: MemoryId, y: MemoryId) {
    && path != [] && IsMergePath(relations, path)
    && relations[path[0]].from == x && relations[path[|path| - 1]].to == y
  }

  /** Following merged_into leads from x to y. */
  ghost predicate Leads(relations: seq<Relation>, x: MemoryId, y: MemoryId) {
    exists path :: Joins(relations, path, x, y)
  }

  ghost predicate Acyclic(relations: seq<Relation>) {
    forall x :: !Leads(relations, x, x)
  }

  /** The merge would close a chain: the survivor already leads to the memory it is to absorb. */
  ghost predicate ClosesChain(b: MemoryTables, op: Op) {
    op.Merge? && Leads(b.relations, op.id, op.consumed)
  }

  lemma JoinsTogether(relations: seq<Relation>, a: seq<nat>, b: seq<nat>, x: MemoryId, y: MemoryId, z: MemoryId)
    requires Joins(relations, a, x, y) && Joins(relations, b, y, z)
    ensures Joins(relations, a + b, x, z)
  {
    var path := a + b;
    forall k | 0 < k < |path| ensures relations[path[k]].from == relations[path[k - 1]].to {
      if k > |a| {
        assert path[k] == b[k - |a|] && path[k - 1] == b[k - |a| - 1];
      }
    }
  }

  /** Paths stay paths as edges are added. */
  lemma JoinsMore(relations: seq<Relation>, more: seq<Relation>, path: seq<nat>, x: MemoryId, y: MemoryId)
    requires Joins(relations, path, x, y) && relations <= more
    ensures Joins(more, path, x, y)
  {
  }

  lemma CyclesStay(relations: seq<Relation>, more: seq<Relation>)
    requires relations <= more && Acyclic(more)
    ensures Acyclic(relations)
  {
    forall x ensures !Leads(relations, x, x) {
      if path :| Joins(relations, path, x, x) {
        JoinsMore(relations, more, path, x, x);
        assert Leads(more, x, x);
      }
    }
  }

  /** A path that does not use the last edge. */
  lemma JoinsWithout(relations: seq<Relation>, r: Relation, path: seq<nat>, x: MemoryId, y: MemoryId)
    requires Joins(relations + [r], path, x, y) && forall k :: 0 <= k < |path| ==> path[k] != |relations|
    ensures Joins(relations, path, x, y)
  {
  }

  lemma JoinsPart(relations: seq<Relation>, path: seq<nat>, x: MemoryId, y: MemoryId, i: nat, j: nat)
    requires Joins(relations, path, x, y) && i < j <= |path|
    ensures Joins(relations, path[i..j], relations[path[i]].from, relations[path[j - 1]].to)
  {
    var part := path[i..j];
    forall k | 0 < k < |part| ensures relations[part[k]].from == relations[part[k - 1]].to {
      assert part[k] == path[i + k] && part[k - 1] == path[i + k - 1];
    }
  }

  /** Where a path first uses the last edge, if it does: before that, it is a path without it. */
  lemma UpToNewEdge(relations: seq<Relation>, r: Relation, path: seq<nat>, x: MemoryId, y: MemoryId)
    requires Joins(relations + [r], path, x, y)
    ensures Leads(relations, x, y) || x == r.from || Leads(relations, x, r.from)
  {
    if j :| 0 <= j < |path| && path[j] == |relations| && forall k :: 0 <= k < j ==> path[k] != |relations| {
      if j > 0 {
        JoinsPart(relations + [r], path, x, y, 0, j);
        assert (relations + [r])[path[j]].from == (relations + [r])[path[j - 1]].to;
        JoinsWithout(relations, r, path[0..j], x, r.from);
      }
    } else {
      NeverUsed(path, |relations|);
      JoinsWithout(relations, r, path, x, y);
    }
  }

  lemma {:induction false} NeverUsed(path: seq<nat>, e: nat)
    requires !exists j :: 0 <= j < |path| && path[j] == e && forall k :: 0 <= k < j ==> path[k] != e
    ensures forall k :: 0 <= k < |path| ==> path[k] != e
  {
    if path != [] {
      var init := path[..|path| - 1];
      forall j | 0 <= j < |init| && init[j] == e ensures exists k :: 0 <= k < j && init[k] == e {
        assert path[j] == e;
        var k :| 0 <= k < j && path[k] == e;
        assert init[k] == e;
      }
      NeverUsed(init, e);
      assert forall k :: 0 <= k < |init| ==> path[k] == init[k];
    }
  }

  /** After its last use of the new edge, a path is one without it. */
  lemma {:induction false} AfterNewEdge(relations: seq<Relation>, r: Relation, path: seq<nat>, x: MemoryId, y: MemoryId)
    requires Joins(relations + [r], path, x, y)
    ensures Leads(relations, x, y) || r.to == y || Leads(relations, r.to, y)
    decreases |path|
  {
    var all := relations + [r];
    if i :| 0 <= i < |path| && path[i] == |relations| {
      if i + 1 < |path| {
        JoinsPart(all, path, x, y, i + 1, |path|);
        assert all[path[i + 1]].from == r.to;
        AfterNewEdge(relations, r, path[i + 1..|path|], r.to, y);
      }
    } else {
      JoinsWithout(relations, r, path, x, y);
    }
  }

  lemma LeadsTogether(relations: seq<Relation>, x: MemoryId, y: MemoryId, z: MemoryId)
    requires Leads(relations, x, y) && Leads(relations, y, z)
    ensures Leads(relations, x, z)
  {
    var a :| Joins(relations, a, x, y);
    var b :| Joins(relations, b, y, z);
    JoinsTogether(relations, a, b, x, y, z);
  }

  /** A new edge between two different memories closes a cycle exactly if its end already leads to its start. */
  lemma NewEdgeCloses(relations: seq<Relation>, r: Relation)
    requires Acyclic(relations) && r.from != r.to
    ensures Acyclic(relations + [r]) <==> !Leads(relations, r.to, r.from)
  {
    hide Joins;
    var all := relations + [r];
    if path :| Joins(relations, path, r.to, r.from) {
      JoinsMore(relations, all, path, r.to, r.from);
      EdgeJoins(relations, r);
      assert Leads(all, r.to, r.from) && Leads(all, r.from, r.to);
      LeadsTogether(all, r.to, r.from, r.to);
    } else {
      forall x ensures !Leads(all, x, x) {
        if path :| Joins(all, path, x, x) {
          UpToNewEdge(relations, r, path, x, x);
          AfterNewEdge(relations, r, path, x, x);
          if x != r.from && x != r.to {
            LeadsTogether(relations, r.to, x, r.from);
          }
        }
      }
    }
  }

  lemma EdgeJoins(relations: seq<Relation>, r: Relation)
    ensures Joins(relations + [r], [|relations|], r.from, r.to)
  {
  }

  /** Edges are only ever added. */
  lemma RelationsGrow(op: Op, b: MemoryTables)
    requires SerialOp(op, b).Wrote?
    ensures b.relations <= SerialOp(op, b).state.relations
  {
    hide SerialOp;
    if op.Merge? {
      MergeEffect(op, b);
    } else {
      NonMergeEffect(op, b);
    }
  }

  /**
    Exactly which operations close a cycle, in any state without one: merges of a memory that the survivor
    already leads to, that is, into which the survivor was once merged, directly or along a chain.
    */
  lemma AcyclicKeptExactly(op: Op, b: MemoryTables)
    requires SerialOp(op, b).Wrote? && Acyclic(b.relations)
    ensures Acyclic(SerialOp(op, b).state.relations) <==> !ClosesChain(b, op)
  {
    hide SerialOp, Acyclic, Leads;
    if op.Merge? {
      MergeEffect(op, b);
      var r := Relation(op.consumed, b.memories[op.consumed].version + 1, op.id, b.memories[op.id].version + 1);
      if AddRelation(b.relations, r) == b.relations {
        StoredEdgeClosesNothing(b.relations, r);
      } else {
        NewEdgeCloses(b.relations, r);
      }
    } else {
      NonMergeEffect(op, b);
    }
  }

  /** ON CONFLICT DO NOTHING: without a cycle, the end of a stored edge does not lead to its start. */
  lemma StoredEdgeClosesNothing(relations: seq<Relation>, r: Relation)
    requires Acyclic(relations) && AddRelation(relations, r) == relations
    ensures !Leads(relations, r.to, r.from)
  {
    assert relations + [r] != relations;
    var i :| 0 <= i < |relations| && relations[i].from == r.from && relations[i].to == r.to;
    assert Joins(relations, [i], r.from, r.to);
    if Leads(relations, r.to, r.from) {
      LeadsTogether(relations, r.to, r.from, r.to);
    }
  }

  lemma {:induction false} LogAcyclicExactly(start: Tables<MemoryTables>, s: System, n: nat)
    requires TablesAreLog(start, s.world) && SystemInv(s) && LogHasJobs(s) && n <= |s.world.log|
    requires Acyclic(start.business.relations)
    ensures Acyclic(TablesAfter(start, s.world.log, n).business.relations)
       <==> forall i :: 0 <= i < n ==> !ClosesChain(s.world.log[i].before, CommittedCall(s, i).op)
  {
    hide Acyclic, ClosesChain, SystemInv, TablesAreLog, SerialOp;
    if n > 0 {
      LogAcyclicExactly(start, s, n - 1);
      GroupIsSerial(start, s, n - 1);
      AcyclicStep(CommittedCall(s, n - 1).op, s.world.log[n - 1].before);
    }
  }

  /** After an operation there is no cycle exactly if there was none and it closes none. */
  lemma AcyclicStep(op: Op, b: MemoryTables)
    requires SerialOp(op, b).Wrote?
    ensures Acyclic(SerialOp(op, b).state.relations) <==> Acyclic(b.relations) && !ClosesChain(b, op)
  {
    hide Acyclic, ClosesChain, SerialOp;
    RelationsGrow(op, b);
    if Acyclic(b.relations) {
      AcyclicKeptExactly(op, b);
    } else if Acyclic(SerialOp(op, b).state.relations) {
      CyclesStay(b.relations, SerialOp(op, b).state.relations);
    }
  }

  /** Over any run, merged_into is free of cycles exactly if no committed merge closed a chain. */
  lemma RunAcyclicExactly(start: Tables<MemoryTables>, moves: seq<Move>)
    requires UniqueKeys(start.events) && Acyclic(start.business.relations)
    ensures var s := RunSystem(StartSystem(start), moves);
            && LogHasJobs(s)
            && (Acyclic(s.world.tables.business.relations)
                <==> forall i :: 0 <= i < |s.world.log| ==> !ClosesChain(s.world.log[i].before, CommittedCall(s, i).op))
  {
    hide RunSystem, Acyclic, ClosesChain, TablesAreLog;
    var s := RunSystem(StartSystem(start), moves);
    RunKeepsFullInv(start, moves);
    forall i | 0 <= i < |s.world.log| ensures s.world.log[i].client in s.jobs && s.jobs[s.world.log[i].client].Submitted? {
      LoggedIsSerial(s, i);
    }
    LogAcyclicExactly(start, s, |s.world.log|);
    WholeLog(start, s.world);
  }

  lemma {:induction false} ForestPathsAscend(b: MemoryTables, path: seq<nat>)
    requires Forest(b) && IsMergePath(b.relations, path) && path != []
    ensures path[0] <= path[|path| - 1]
  {
    if |path| > 1 {
      ForestPathsAscend(b, path[..|path| - 1]);
    }
  }

  /** In a forest no path leads back to where it started. */
  lemma MergedIntoAcyclic(b: MemoryTables)
    requires Forest(b)
    ensures Acyclic(b.relations)
  {
    forall x, path | Joins(b.relations, path, x, x) ensures false {
      ForestPathsAscend(b, path);
    }
  }

  /** In every run without a revival, each merged memory was absorbed by exactly one, and no chain of merges closes. */
  lemma RunMergesOnce(start: Tables<MemoryTables>, moves: seq<Move>, id: MemoryId)
    requires UniqueKeys(start.events) && Forest(start.business)
    requires var s := RunSystem(StartSystem(start), moves);
             && NoRevival(s) && id in s.world.tables.business.memories
             && s.world.tables.business.memories[id].status == Merged
    ensures var b := RunSystem(StartSystem(start), moves).world.tables.business;
            && (exists i :: 0 <= i < |b.relations| && b.relations[i].from == id
                            && forall j :: 0 <= j < |b.relations| && b.relations[j].from == id ==> j == i)
            && Acyclic(b.relations)
  {
    hide RunSystem, NoRevival, Acyclic;
    RunKeepsForest(start, moves);
    var b := RunSystem(StartSystem(start), moves).world.tables.business;
    MergedIntoAcyclic(b);
    assert HasEdgeFrom(b, id);
    var i :| 0 <= i < |b.relations| && b.relations[i].from == id;
  }

  /**
    Merged is not terminal in the code: deletion accepts merged memories and restoring accepts deleted ones.
    Merging b into a, deleting and restoring b, and merging a into b makes the two point at each other.
    */
  lemma ReviveThenMergeBack(t: MemoryTables, a: MemoryId, b: MemoryId) returns (t': MemoryTables)
    requires a in t.memories && b in t.memories && a != b && t.relations == []
    requires t.memories[a].status == Active && t.memories[b].status == Active
    requires t.memories[b].reviewItem.Some?
    ensures exists t1, t2, t3, m1, m2, m3, m4 ::
              && SerialOp(Merge(a, b), t) == Wrote(t1, m1)
              && SerialOp(Delete(b), t1) == Wrote(t2, m2)
              && SerialOp(Restore(b), t2) == Wrote(t3, m3)
              && SerialOp(Merge(b, a), t3) == Wrote(t', m4)
    ensures |t'.relations| == 2
    ensures t'.relations[0].from == b && t'.relations[0].to == a && t'.relations[1].from == a && t'.relations[1].to == b
    ensures !Forest(t') && !Acyclic(t'.relations)
  {
    hide SerialOp, Forest;
    var t1, m1 := MergeGoesThrough(t, a, b);
    var t2, m2 := DeleteGoesThrough(t1, b);
    var t3, m3 := RestoreGoesThrough(t2, b);
    var t4, m4 := MergeGoesThrough(t3, b, a);
    t' := t4;
    assert t'.relations == [t'.relations[0], t'.relations[1]];
    CycleIsNoForest(t');
  }

  /** Two mergeable memories can be merged; the survivor's row only moves on. */
  lemma MergeGoesThrough(t: MemoryTables, a: MemoryId, b: MemoryId) returns (t': MemoryTables, m: Memory)
    requires a in t.memories && b in t.memories && a != b
    requires Mergeable(t.memories[a].status) && Mergeable(t.memories[b].status)
    requires forall i :: 0 <= i < |t.relations| ==> t.relations[i].from != b
    ensures SerialOp(Merge(a, b), t) == Wrote(t', m)
    ensures a in t'.memories && b in t'.memories && t'.memories[b].status == Merged
    ensures t'.memories[a].status == t.memories[a].status
    ensures t'.memories[a].reviewItem == t.memories[a].reviewItem && t'.memories[b].reviewItem == t.memories[b].reviewItem
    ensures |t'.relations| == |t.relations| + 1 && t'.relations[..|t.relations|] == t.relations
    ensures t'.relations[|t.relations|].from == b && t'.relations[|t.relations|].to == a
  {
    hide MergedText;
    var r := SerialOp(Merge(a, b), t);
    t', m := r.state, r.result;
  }

  lemma DeleteGoesThrough(t: MemoryTables, id: MemoryId) returns (t': MemoryTables, m: Memory)
    requires id in t.memories && t.memories[id].status != Deleted
    ensures SerialOp(Delete(id), t) == Wrote(t', m)
    ensures t'.relations == t.relations && t'.memories == t.memories[id := m]
    ensures m.status == Deleted && m.reviewItem == t.memories[id].reviewItem
  {
    var r := SerialOp(Delete(id), t);
    t', m := r.state, r.result;
  }

  lemma RestoreGoesThrough(t: MemoryTables, id: MemoryId) returns (t': MemoryTables, m: Memory)
    requires id in t.memories && t.memories[id].status == Deleted && t.memories[id].reviewItem.Some?
    ensures SerialOp(Restore(id), t) == Wrote(t', m)
    ensures t'.relations == t.relations && t'.memories == t.memories[id := m]
    ensures m.status == Active && m.reviewItem == t.memories[id].reviewItem
  {
    var r := SerialOp(Restore(id), t);
    t', m := r.state, r.result;
  }

  lemma CycleIsNoForest(t: MemoryTables)
    requires |t.relations| == 2
    requires t.relations[0].to == t.relations[1].from && t.relations[1].to == t.relations[0].from
    ensures !Forest(t) && !Acyclic(t.relations)
  {
    var x := t.relations[0].from;
    assert Joins(t.relations, [0, 1], x, x);
    assert Leads(t.relations, x, x);
  }
}
