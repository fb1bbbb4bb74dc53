/**
  The version history: the rows of `memory_versions` replay each memory from its creation to its current
  fields, and the versions they skip are exactly the quality updates.
*/
module MemoryHistory {
  import opened Basics
  import opened WriteProtocol
  import opened ExactlyOnce
  import opened Memories
  import opened MemoryRuns
  import opened Serialisability

  /** The history rows of one memory, in the order they were inserted. */
  function HistoryOf(versions: seq<VersionRow>, id: MemoryId): seq<VersionRow> {
    if versions == [] then []
    else
      var last := versions[|versions| - 1];
      HistoryOf(versions[..|versions| - 1], id) + (if last.memory == id then [last] else [])
  }

  ghost predicate Recorded(history: seq<VersionRow>, v: nat) {
    exists i :: 0 <= i < |history| && history[i].version == v
  }

  /** A committed quality update of the memory produced version v. */
  ghost predicate IsQualityUpdate(e: OutboxEvent, id: MemoryId, v: nat) {
    e.eventType == QUALITY_UPDATED && e.aggregateType == MEMORY && e.aggregateId == id && e.aggregateVersion == v
  }

  ghost predicate QualityUpdated(events: seq<OutboxEvent>, id: MemoryId, v: nat) {
    exists i :: 0 <= i < |events| && IsQualityUpdate(events[i], id, v)
  }

  /** Read in order, the rows go from creation to `now` without a break. */
  ghost predicate Replays(history: seq<VersionRow>, now: Data) {
    && history != [] && history[0].version == 1 && history[0].before == None
    && (forall i :: 0 < i < |history| ==> history[i - 1].version < history[i].version)
    && (forall i :: 0 < i < |history| ==> history[i].before == Some(history[i - 1].after))
    && history[|history| - 1].after == now
  }

  ghost predicate HistoryOk(row: Option<Memory>, history: seq<VersionRow>, events: seq<OutboxEvent>, id: MemoryId) {
    match row
    case None => history == [] && forall v :: !QualityUpdated(events, id, v)
    case Some(m) =>
      && Replays(history, DataOf(m))
      && (forall i :: 0 <= i < |history| ==> history[i].version <= m.version)
      && (forall v: nat :: QualityUpdated(events, id, v) ==> v <= m.version && !Recorded(history, v))
      && (forall v: nat :: 1 <= v <= m.version ==> Recorded(history, v) || QualityUpdated(events, id, v))
  }

  function RowOf(t: MemoryTables, id: MemoryId): Option<Memory> {
    if id in t.memories then Some(t.memories[id]) else None
  }

  ghost predicate MemoryHistoryOk(t: Tables<MemoryTables>, id: MemoryId) {
    HistoryOk(RowOf(t.business, id), HistoryOf(t.business.versions, id), t.events, id)
  }

  ghost predicate HistoryInv(t: Tables<MemoryTables>) {
    forall id :: MemoryHistoryOk(t, id)
  }

  // ---------------------------------------------------------------------------------
  // What one commit does to one memory
  // ---------------------------------------------------------------------------------

  datatype Effect =
    | Untouched
    | Created(row: Memory, entry: VersionRow)
    | Revised(row: Memory, entry: VersionRow)         // a new version with a history row
    | Rescored(row: Memory)                           // a new version without one

  ghost predicate HasEffect(t: Tables<MemoryTables>, t': Tables<MemoryTables>, e: OutboxEvent, id: MemoryId, effect: Effect) {
    var row, row' := RowOf(t.business, id), RowOf(t'.business, id);
    var history, history' := HistoryOf(t.business.versions, id), HistoryOf(t'.business.versions, id);
    && t'.events == t.events + [e]
    && (effect.Rescored? <==> (e.eventType == QUALITY_UPDATED && e.aggregateType == MEMORY && e.aggregateId == id))
    && match effect
       case Untouched => row' == row && history' == history
       case Created(m, entry) =>
         && row == None && row' == Some(m) && m.version == 1
         && entry.version == 1 && entry.before == None && entry.after == DataOf(m)
         && history' == history + [entry]
       case Revised(m, entry) =>
         && row.Some? && row' == Some(m) && m.version == row.value.version + 1
         && entry.version == m.version && entry.before == Some(DataOf(row.value)) && entry.after == DataOf(m)
         && history' == history + [entry]
       case Rescored(m) =>
         && row.Some? && row' == Some(m) && m.version == row.value.version + 1 && e.aggregateVersion == m.version
         && DataOf(m) == DataOf(row.value) && history' == history
  }

  lemma QualityGrows(events: seq<OutboxEvent>, e: OutboxEvent, id: MemoryId, v: nat)
    ensures QualityUpdated(events + [e], id, v) <==> QualityUpdated(events, id, v) || IsQualityUpdate(e, id, v)
  {
    var events' := events + [e];
    assert events'[|events|] == e;
    if i :| 0 <= i < |events| && IsQualityUpdate(events[i], id, v) {
      assert events'[i] == events[i];
    }
  }

  lemma RecordedGrows(history: seq<VersionRow>, entry: VersionRow, v: nat)
    ensures Recorded(history + [entry], v) <==> Recorded(history, v) || entry.version == v
  {
    var history' := history + [entry];
    assert history'[|history|] == entry;
    if i :| 0 <= i < |history| && history[i].version == v {
      assert history'[i] == history[i];
    }
  }

  lemma EffectKeepsHistory(t: Tables<MemoryTables>, t': Tables<MemoryTables>, e: OutboxEvent, id: MemoryId, effect: Effect)
    requires MemoryHistoryOk(t, id) && HasEffect(t, t', e, id, effect)
    ensures MemoryHistoryOk(t', id)
  {
    hide HistoryOf, QualityUpdated, Recorded;
    var history := HistoryOf(t.business.versions, id);
    forall v: nat ensures QualityUpdated(t'.events, id, v) <==> QualityUpdated(t.events, id, v) || IsQualityUpdate(e, id, v) {
      QualityGrows(t.events, e, id, v);
    }
    if effect.Created? || effect.Revised? {
      forall v: nat ensures Recorded(history + [effect.entry], v) <==> Recorded(history, v) || effect.entry.version == v {
        RecordedGrows(history, effect.entry, v);
      }
      NothingRecorded();
    }
    if effect.Rescored? {
      NotRecordedBeyond(history, RowOf(t.business, id).value.version);
    }
  }

  lemma NothingRecorded()
    ensures forall v: nat :: !Recorded([], v)
  {
  }

  lemma NotRecordedBeyond(history: seq<VersionRow>, top: nat)
    requires forall i :: 0 <= i < |history| ==> history[i].version <= top
    ensures forall v: nat :: Recorded(history, v) ==> v <= top
  {
  }

  lemma HistoryGrows(versions: seq<VersionRow>, entry: VersionRow, id: MemoryId)
    ensures HistoryOf(versions + [entry], id) == HistoryOf(versions, id) + (if entry.memory == id then [entry] else [])
  {
    assert (versions + [entry])[..|versions|] == versions;
  }

  lemma HistoryGrowsTwice(versions: seq<VersionRow>, a: VersionRow, b: VersionRow, id: MemoryId)
    ensures HistoryOf(versions + [a, b], id)
         == HistoryOf(versions, id) + (if a.memory == id then [a] else []) + (if b.memory == id then [b] else [])
  {
    assert versions + [a, b] == (versions + [a]) + [b];
    HistoryGrows(versions, a, id);
    HistoryGrows(versions + [a], b, id);
  }

  /** The effect of a serial call on one memory. */
  ghost function EffectOf(call: Call, t: Tables<MemoryTables>, id: MemoryId): Effect
    requires SerialCall(t, call).Some?
  {
    var op, b, b' := call.op, t.business, SerialCall(t, call).value.business;
    if id !in b'.memories then Untouched
    else
      var m := b'.memories[id];
      if op.IsInsert() && id == op.id then Created(m, VersionRow(id, 1, ActionName(op), None, DataOf(m)))
      else if !op.IsInsert() && id == op.id && id in b.memories then
        if op.UpdateQuality? then Rescored(m)
        else Revised(m, VersionRow(id, m.version, ActionName(op), Some(DataOf(b.memories[id])), DataOf(m)))
      else if op.Merge? && id == op.consumed && id in b.memories then
        Revised(m, VersionRow(id, m.version, "merge", Some(DataOf(b.memories[id])), DataOf(m)))
      else Untouched
  }

  /** A serial call that commits, taken apart. */
  lemma SerialCallParts(call: Call, t: Tables<MemoryTables>) returns (seen: Reads)
    requires SerialCall(t, call).Some?
    ensures ReadNow(call.op, t.business) == Some(seen) && Admissible(call.op, seen)
    ensures Transact(call.op, seen, t.business).Wrote?
    ensures var t' := SerialCall(t, call).value;
            && t'.business == Transact(call.op, seen, t.business).state
            && t'.events == t.events + [EventFor(call.op, seen, call.requestKey)]
  {
    seen := ReadNow(call.op, t.business).value;
    RequestRuns(call.op, seen, call.requestKey, t.business);
  }

  lemma InsertEffect(call: Call, t: Tables<MemoryTables>, seen: Reads, id: MemoryId)
    requires SerialCall(t, call).Some? && call.op.IsInsert()
    requires ReadNow(call.op, t.business) == Some(seen) && Admissible(call.op, seen)
    requires Transact(call.op, seen, t.business).Wrote?
    requires SerialCall(t, call).value.business == Transact(call.op, seen, t.business).state
    requires SerialCall(t, call).value.events == t.events + [EventFor(call.op, seen, call.requestKey)]
    ensures HasEffect(t, SerialCall(t, call).value, EventFor(call.op, seen, call.requestKey), id, EffectOf(call, t, id))
  {
    hide SerialCall, HistoryOf, KeyFor;
    var t' := SerialCall(t, call).value;
    HistoryGrows(t.business.versions, t'.business.versions[|t.business.versions|], id);
  }

  lemma RewriteEffect(call: Call, t: Tables<MemoryTables>, seen: Reads, id: MemoryId)
    requires SerialCall(t, call).Some? && seen.OneRow?
    requires ReadNow(call.op, t.business) == Some(seen) && Admissible(call.op, seen)
    requires Transact(call.op, seen, t.business).Wrote?
    requires SerialCall(t, call).value.business == Transact(call.op, seen, t.business).state
    requires SerialCall(t, call).value.events == t.events + [EventFor(call.op, seen, call.requestKey)]
    ensures HasEffect(t, SerialCall(t, call).value, EventFor(call.op, seen, call.requestKey), id, EffectOf(call, t, id))
  {
    hide SerialCall, HistoryOf, KeyFor, Patched, RowAllowed;
    var t' := SerialCall(t, call).value;
    if call.op.UpdateQuality? {
      assert t'.business.versions == t.business.versions + [] == t.business.versions;
    } else {
      HistoryGrows(t.business.versions, t'.business.versions[|t.business.versions|], id);
    }
  }

  lemma MergeEffect(call: Call, t: Tables<MemoryTables>, seen: Reads, id: MemoryId)
    requires SerialCall(t, call).Some? && seen.TwoRows?
    requires ReadNow(call.op, t.business) == Some(seen) && Admissible(call.op, seen)
    requires Transact(call.op, seen, t.business).Wrote?
    requires SerialCall(t, call).value.business == Transact(call.op, seen, t.business).state
    requires SerialCall(t, call).value.events == t.events + [EventFor(call.op, seen, call.requestKey)]
    ensures HasEffect(t, SerialCall(t, call).value, EventFor(call.op, seen, call.requestKey), id, EffectOf(call, t, id))
  {
    hide SerialCall, HistoryOf, KeyFor, MergedText, AddRelation;
    var t' := SerialCall(t, call).value;
    var n := |t.business.versions|;
    HistoryGrowsTwice(t.business.versions, t'.business.versions[n], t'.business.versions[n + 1], id);
  }

  lemma SerialCallKeepsHistory(t: Tables<MemoryTables>, call: Call)
    requires HistoryInv(t) && SerialCall(t, call).Some?
    ensures HistoryInv(SerialCall(t, call).value)
  {
    hide HistoryOk, HasEffect, SerialCall, Transact;
    var seen := SerialCallParts(call, t);
    var t' := SerialCall(t, call).value;
    forall id ensures MemoryHistoryOk(t', id) {
      match seen {
        case NoRead => InsertEffect(call, t, seen, id);
        case OneRow(_) => RewriteEffect(call, t, seen, id);
        case TwoRows(_, _) => MergeEffect(call, t, seen, id);
      }
      assert MemoryHistoryOk(t, id);
      EffectKeepsHistory(t, t', EventFor(call.op, seen, call.requestKey), id, EffectOf(call, t, id));
    }
  }

  /**
    Under every concurrent run each memory has at most one history row per version, the rows replay it from
    creation to its current fields, and the versions without a row are exactly the quality updates.
    */
  lemma HistoryReplays(start: Tables<MemoryTables>, moves: seq<Move>, id: MemoryId)
    requires UniqueKeys(start.events) && HistoryInv(start)
    requires id in RunSystem(StartSystem(start), moves).world.tables.business.memories
    ensures var t := RunSystem(StartSystem(start), moves).world.tables;
            var m, history := t.business.memories[id], HistoryOf(t.business.versions, id);
            && Replays(history, DataOf(m))
            && (forall i, j :: 0 <= i < j < |history| ==> history[i].version < history[j].version)
            && (forall v: nat :: 1 <= v <= m.version ==> (Recorded(history, v) <==> !QualityUpdated(t.events, id, v)))
            && (forall v: nat :: Recorded(history, v) || QualityUpdated(t.events, id, v) ==> v <= m.version)
  {
    hide RunSystem, HistoryOf, SerialCall, SerialRun, QualityUpdated;
    var t := RunSystem(StartSystem(start), moves).world.tables;
    var calls := CommittedRunIsSerial(start, moves);
    forall t, call | HistoryInv(t) && SerialCall(t, call).Some? ensures HistoryInv(SerialCall(t, call).value) {
      SerialCallKeepsHistory(t, call);
    }
    SerialRunKeeps(start, calls, HistoryInv, call => true);
    assert MemoryHistoryOk(t, id);
    VersionsIncrease(HistoryOf(t.business.versions, id));
    NotRecordedBeyond(HistoryOf(t.business.versions, id), t.business.memories[id].version);
  }

  lemma {:induction false} VersionsIncrease(history: seq<VersionRow>)
    requires forall i :: 0 < i < |history| ==> history[i - 1].version < history[i].version
    ensures forall i, j :: 0 <= i < j < |history| ==> history[i].version < history[j].version
  {
    if |history| > 1 {
      var init := history[..|history| - 1];
      VersionsIncrease(init);
      assert forall i, j :: 0 <= i < j < |init| ==> init[i].version < init[j].version;
      forall i | 0 <= i < |init| ensures history[i].version < history[|init|].version {
        assert init[|init| - 1].version < history[|init|].version;
      }
    }
  }

  /** An empty database satisfies the invariant, so the guarantee covers every run from it. */
  lemma EmptyHistoryOk()
    ensures HistoryInv(Tables(MemoryTables(map[], [], [], []), [], []))
  {
  }
}
