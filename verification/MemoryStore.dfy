/**
  The transactions of the memory operations as they run: statement by statement over mutable tables, with
  an early return when a WHERE clause matches nothing.  What an aborted one leaves behind is rolled back by
  the session, so only the error is specified then.
*/
module MemoryStore {
  import opened Basics
  import opened WriteProtocol
  import opened ExactlyOnce
  import opened Memories

  class MemoryRepository {
    var memories: map<MemoryId, Memory>
    var versions: seq<VersionRow>
    var relations: seq<Relation>
    var sources: seq<Source>

    function Contents(): MemoryTables
      reads this
    {
      MemoryTables(memories, versions, relations, sources)
    }

    constructor (t: MemoryTables)
      ensures Contents() == t
    {
      memories, versions, relations, sources := t.memories, t.versions, t.relations, t.sources;
    }

    method RecordVersion(id: MemoryId, version: nat, action: string, before: Option<Data>, after: Data)
      modifies this`versions
      ensures versions == old(versions) + [VersionRow(id, version, action, before, after)]
    {
      versions := versions + [VersionRow(id, version, action, before, after)];
    }

    method DoInsert(op: Op) returns (r: Outcome<Memory>)
      requires op.IsInsert()
      modifies this
      ensures match Insert(op, old(Contents()))
              case Wrote(t, m) => r == Returned(m) && Contents() == t
              case Failed(e) => r == Raised(e)
    {
      if op.id in memories || CanonicalKeyTaken(Contents(), op.project, op.canonicalKey) {
        return Raised(IntegrityError);
      }
      var status := if op.Create? then Draft else Active;
      var review := if op.Create? then None else Some(op.review);
      var row := Memory(op.project, op.canonicalKey, op.content, status, 1, review, 0.0, 0.0);
      memories := memories[op.id := row];
      RecordVersion(op.id, 1, "create", None, DataOf(row));
      if op.Activate? {
        sources := sources + [Source(op.id, 1, op.candidate)];
      } else {
        assert sources + [] == sources;
      }
      return Returned(row);
    }

    /** The update, quality, approve and status-transition transactions. */
    method DoRewrite(op: Op, existing: Memory) returns (r: Outcome<Memory>)
      requires !op.IsInsert() && !op.Merge?
      modifies this
      ensures match RewriteRow(op, existing, old(Contents()))
              case Wrote(t, m) => r == Returned(m) && Contents() == t
              case Failed(e) => r == Raised(e)
    {
      var before := DataOf(existing);
      var newVersion := existing.version + 1;
      if op.id !in memories || !RowMatches(op, existing, memories[op.id]) {
        return Raised(CallbackError("concurrent modification"));
      }
      var row := Rewritten(op, existing, memories[op.id]);
      if !RowAllowed(row) {
        return Raised(IntegrityError);
      }
      memories := memories[op.id := row];
      if !op.UpdateQuality? {
        RecordVersion(op.id, newVersion, ActionName(op), Some(before), DataOf(row));
      } else {
        assert old(versions) + [] == old(versions);
      }
      return Returned(row);
    }

    method DoMerge(survivorId: MemoryId, consumedId: MemoryId, survivor: Memory, consumed: Memory) returns (r: Outcome<Memory>)
      requires survivorId != consumedId
      modifies this
      ensures match MergeRows(survivorId, consumedId, survivor, consumed, old(Contents()))
              case Wrote(t, m) => r == Returned(m) && Contents() == t
              case Failed(e) => r == Raised(e)
    {
      var mergedText := MergedText(survivor, consumed);
      // 1. the survivor absorbs the text
      if survivorId !in memories || memories[survivorId].version != survivor.version {
        return Raised(CallbackError("concurrent modification"));
      }
      var s := memories[survivorId];
      s := s.(content := s.content.(text := mergedText), version := survivor.version + 1);
      memories := memories[survivorId := s];
      // 2. the consumed memory is marked
      if || consumedId !in memories || !Mergeable(memories[consumedId].status)
         || memories[consumedId].version != consumed.version
      {
        return Raised(CallbackError("concurrent modification"));
      }
      var c := memories[consumedId].(status := Merged, version := consumed.version + 1);
      memories := memories[consumedId := c];
      // 3. and 4. both get a history row
      RecordVersion(survivorId, s.version, "merge", Some(DataOf(survivor)), DataOf(s));
      RecordVersion(consumedId, c.version, "merge", Some(DataOf(consumed)), DataOf(c));
      assert versions == old(versions) + [VersionRow(survivorId, s.version, "merge", Some(DataOf(survivor)), DataOf(s)),
                                          VersionRow(consumedId, c.version, "merge", Some(DataOf(consumed)), DataOf(c))];
      // 5. the relation
      relations := AddRelation(relations, Relation(consumedId, c.version, survivorId, s.version));
      return Returned(s);
    }
  }

  /**
    One operation through the helper, as its API function runs it: read the rows, check them, then write.
    The rows are read from what the session sees, its own pending writes included.  Unless the session is
    inside an explicit outer transaction, others may commit before the write and before the re-check.
    */
  method Perform(session: Session<MemoryTables>, op: Op, requestKey: string,
                 committedAtWrite: Tables<MemoryTables>, atWrite: Tables<MemoryTables>, atRecheck: Tables<MemoryTables>)
    returns (out: Outcome<Memory>)
    requires session.Valid() && (session.view == session.committed ==> atWrite == committedAtWrite)
    modifies session
    ensures session.Valid() && (session.origin == ExplicitBegin <==> old(session.origin) == ExplicitBegin)
    ensures session.origin == ExplicitBegin ==> session.committed == old(session.committed)
    ensures var start := old(session.view);
            match ReadNow(op, start.business)
            case None => out.Raised? && session.view == start && session.committed == old(session.committed)
            case Some(seen) =>
              if !Admissible(op, seen) then out.Raised? && session.view == start && session.committed == old(session.committed)
              else
                var request := RequestFor(op, seen, requestKey);
                if old(session.origin) == ExplicitBegin
                then WroteInside(start, session.view, out, request.work, request.audit, request.event, request.resolve)
                else WroteAmid(old(session.committed), start, session.committed, session.view, out,
                               committedAtWrite, atWrite, atRecheck, request.work, request.audit, request.event, request.resolve)
  {
    hide WroteInside, WroteAmid, WriteAmidOthers, RequestFor;
    session.Touch();
    var rows := ReadNow(op, session.view.business);
    if rows.None? {
      return Raised(CallbackError("not found"));
    }
    var seen := rows.value;
    if !Admissible(op, seen) {
      return Raised(CallbackError("wrong status"));
    }
    var request := RequestFor(op, seen, requestKey);
    out := session.WriteIdempotent(request.work, request.audit, request.event, request.resolve,
                                   committedAtWrite, atWrite, atRecheck);
  }
}
