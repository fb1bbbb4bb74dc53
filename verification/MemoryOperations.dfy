/**
  What each operation on memories does, row by row and field by field, when nobody else writes meanwhile and its
  idempotency key is unused.
*/
module MemoryOperations {
  import opened Basics
  import opened WriteProtocol
  import opened ExactlyOnce
  import opened Memories
  import opened MemoryRuns
  import opened Serialisability
  import opened KeyCollisions

  /** The call fails and leaves everything as it was. */
  predicate Refused(t: Tables<MemoryTables>, call: Call) {
    CallAlone(t, call).0 == t && CallAlone(t, call).1.Raised?
  }

  /** One memory is rewritten, with or without a history row, and the group's audit and event rows are added. */
  predicate Rewrites(t: Tables<MemoryTables>, call: Call, id: MemoryId, m': Memory, history: seq<VersionRow>,
                     audit: string, event: string, key: string)
  {
    CallAlone(t, call) == (
      Tables(MemoryTables(t.business.memories[id := m'], t.business.versions + history, t.business.relations, t.business.sources),
             t.audits + [AuditEvent(audit, "memory", id)],
             t.events + [OutboxEvent(event, "memory", id, m'.version, key)]),
      Returned(m'))
  }

  /** The two ways a call with an unused key can end. */
  lemma WithUnusedKey(t: Tables<MemoryTables>, call: Call)
    requires !KeyUsed(t.events, KeyFor(call.op, call.requestKey))
    ensures PassesChecks(t, call) ==>
              var seen := ReadNow(call.op, t.business).value;
              match Transact(call.op, seen, t.business)
              case Wrote(b, m) =>
                CallAlone(t, call) == (Tables(b, t.audits + [AuditFor(call.op)], t.events + [EventFor(call.op, seen, call.requestKey)]), Returned(m))
              case Failed(_) => Refused(t, call)
    ensures !PassesChecks(t, call) ==> Refused(t, call)
  {
    hide Admissible, Transact, KeyFor;
    if PassesChecks(t, call) {
      var seen := ReadNow(call.op, t.business).value;
      RequestRuns(call.op, seen, call.requestKey, t.business);
      RequestParts(call.op, seen, call.requestKey);
      UnusedNotFound(t, RequestFor(call.op, seen, call.requestKey).event);
    }
  }

  /** The key of an operation that is no creation, with its tag written out. */
  lemma KeySpelled(op: Op, requestKey: string, infix: string)
    requires !op.IsInsert() && ":" + Tag(op) + ":" == infix
    ensures KeyFor(op, requestKey) == requestKey + infix + Digits(op.id.bits)
  {
    assert requestKey + ":" + Tag(op) + ":" == requestKey + (":" + Tag(op) + ":");
  }

  /** The same for a call that rewrites one memory, with its key and rows written out. */
  lemma RewriteEnds(t: Tables<MemoryTables>, call: Call, audit: string, event: string, infix: string)
    requires !call.op.IsInsert() && !call.op.Merge?
    requires AuditAction(call.op) == audit && EventType(call.op) == event && ":" + Tag(call.op) + ":" == infix
    requires !KeyUsed(t.events, call.requestKey + infix + Digits(call.op.id.bits))
    ensures var id := call.op.id;
            if id in t.business.memories && Admissible(call.op, OneRow(t.business.memories[id])) then
              var m := t.business.memories[id];
              match RewriteRow(call.op, m, t.business)
              case Wrote(b, m') =>
                CallAlone(t, call) == (
                  Tables(b, t.audits + [AuditEvent(audit, "memory", id)],
                         t.events + [OutboxEvent(event, "memory", id, m.version + 1, call.requestKey + infix + Digits(id.bits))]),
                  Returned(m'))
              case Failed(_) => Refused(t, call)
            else Refused(t, call)
  {
    hide CallAlone, RewriteRow, Admissible, KeyFor, Tag, AuditAction, EventType, Digits;
    KeySpelled(call.op, call.requestKey, infix);
    WithUnusedKey(t, call);
  }

  lemma UpdateDoes(t: Tables<MemoryTables>, id: MemoryId, p: Patch, requestKey: string)
    requires !KeyUsed(t.events, requestKey + ":update:" + Digits(id.bits))
    ensures var call := Call(Update(id, p), requestKey);
            if id in t.business.memories && (t.business.memories[id].status == Active ==> t.business.memories[id].reviewItem.Some?) then
              var m := t.business.memories[id];
              var content := Content(if p.title.Some? then p.title else m.content.title,
                                     if p.text.Some? then p.text.value else m.content.text,
                                     if p.sensitivity.Some? then p.sensitivity.value else m.content.sensitivity,
                                     if p.nodeType.Some? then p.nodeType else m.content.nodeType);
              Rewrites(t, call, id, m.(content := content, version := m.version + 1),
                       [VersionRow(id, m.version + 1, "update", Some(Data(m.content, m.status)), Data(content, m.status))],
                       "memory.update", "memory.updated", requestKey + ":update:" + Digits(id.bits))
            else Refused(t, call)
  {
    hide CallAlone;
    assert ":" + Tag(Update(id, p)) + ":" == ":update:";
    RewriteEnds(t, Call(Update(id, p), requestKey), "memory.update", "memory.updated", ":update:");
  }

  lemma UpdateQualityDoes(t: Tables<MemoryTables>, id: MemoryId, score: real, weight: real, requestKey: string)
    requires !KeyUsed(t.events, requestKey + ":quality:" + Digits(id.bits))
    ensures var call := Call(UpdateQuality(id, score, weight), requestKey);
            if id in t.business.memories && (t.business.memories[id].status == Active ==> t.business.memories[id].reviewItem.Some?) then
              var m := t.business.memories[id];
              Rewrites(t, call, id, m.(qualityScore := score, searchWeight := weight, version := m.version + 1), [],
                       "memory.quality", "memory.quality_updated", requestKey + ":quality:" + Digits(id.bits))
            else Refused(t, call)
  {
    hide CallAlone;
    assert ":" + Tag(UpdateQuality(id, score, weight)) + ":" == ":quality:";
    RewriteEnds(t, Call(UpdateQuality(id, score, weight), requestKey), "memory.quality", "memory.quality_updated", ":quality:");
  }

  lemma ApproveDoes(t: Tables<MemoryTables>, id: MemoryId, review: Option<Uuid>, requestKey: string)
    requires !KeyUsed(t.events, requestKey + ":approve:" + Digits(id.bits))
    ensures var call := Call(Approve(id, review), requestKey);
            if id in t.business.memories && t.business.memories[id].status == Draft
               && (t.business.memories[id].reviewItem.Some? || review.Some?) then
              var m := t.business.memories[id];
              Rewrites(t, call, id,
                       m.(status := Active, reviewItem := if m.reviewItem.Some? then m.reviewItem else review, version := m.version + 1),
                       [VersionRow(id, m.version + 1, "approve", Some(Data(m.content, Draft)), Data(m.content, Active))],
                       "memory.approve", "memory.approved", requestKey + ":approve:" + Digits(id.bits))
            else Refused(t, call)
  {
    hide CallAlone;
    assert ":" + Tag(Approve(id, review)) + ":" == ":approve:";
    RewriteEnds(t, Call(Approve(id, review), requestKey), "memory.approve", "memory.approved", ":approve:");
  }

  lemma ExpireDoes(t: Tables<MemoryTables>, id: MemoryId, requestKey: string)
    requires !KeyUsed(t.events, requestKey + ":expired:" + Digits(id.bits))
    ensures var call := Call(Expire(id), requestKey);
            if id in t.business.memories && t.business.memories[id].status == Active then
              var m := t.business.memories[id];
              Rewrites(t, call, id, m.(status := Expired, version := m.version + 1),
                       [VersionRow(id, m.version + 1, "expire", Some(Data(m.content, Active)), Data(m.content, Expired))],
                       "memory.expired", "memory.expired", requestKey + ":expired:" + Digits(id.bits))
            else Refused(t, call)
  {
    hide CallAlone;
    assert ":" + Tag(Expire(id)) + ":" == ":expired:";
    RewriteEnds(t, Call(Expire(id), requestKey), "memory.expired", "memory.expired", ":expired:");
  }

  lemma RestoreDoes(t: Tables<MemoryTables>, id: MemoryId, requestKey: string)
    requires !KeyUsed(t.events, requestKey + ":restored:" + Digits(id.bits))
    ensures var call := Call(Restore(id), requestKey);
            if id in t.business.memories && t.business.memories[id].status in {Expired, Deleted}
               && t.business.memories[id].reviewItem.Some? then
              var m := t.business.memories[id];
              Rewrites(t, call, id, m.(status := Active, version := m.version + 1),
                       [VersionRow(id, m.version + 1, "restore", Some(Data(m.content, m.status)), Data(m.content, Active))],
                       "memory.restored", "memory.restored", requestKey + ":restored:" + Digits(id.bits))
            else Refused(t, call)
  {
    hide CallAlone;
    assert ":" + Tag(Restore(id)) + ":" == ":restored:";
    RewriteEnds(t, Call(Restore(id), requestKey), "memory.restored", "memory.restored", ":restored:");
  }

  lemma DeleteDoes(t: Tables<MemoryTables>, id: MemoryId, requestKey: string)
    requires !KeyUsed(t.events, requestKey + ":deleted:" + Digits(id.bits))
    ensures var call := Call(Delete(id), requestKey);
            if id in t.business.memories && t.business.memories[id].status != Deleted then
              var m := t.business.memories[id];
              Rewrites(t, call, id, m.(status := Deleted, version := m.version + 1),
                       [VersionRow(id, m.version + 1, "delete", Some(Data(m.content, m.status)), Data(m.content, Deleted))],
                       "memory.deleted", "memory.deleted", requestKey + ":deleted:" + Digits(id.bits))
            else Refused(t, call)
  {
    hide CallAlone;
    assert ":" + Tag(Delete(id)) + ":" == ":deleted:";
    RewriteEnds(t, Call(Delete(id), requestKey), "memory.deleted", "memory.deleted", ":deleted:");
  }

  lemma RejectDoes(t: Tables<MemoryTables>, id: MemoryId, requestKey: string)
    requires !KeyUsed(t.events, requestKey + ":rejected:" + Digits(id.bits))
    ensures var call := Call(Reject(id), requestKey);
            if id in t.business.memories && t.business.memories[id].status == Draft then
              var m := t.business.memories[id];
              Rewrites(t, call, id, m.(status := Deleted, version := m.version + 1),
                       [VersionRow(id, m.version + 1, "reject", Some(Data(m.content, Draft)), Data(m.content, Deleted))],
                       "memory.rejected", "memory.rejected", requestKey + ":rejected:" + Digits(id.bits))
            else Refused(t, call)
  {
    hide CallAlone;
    assert ":" + Tag(Reject(id)) + ":" == ":rejected:";
    RewriteEnds(t, Call(Reject(id), requestKey), "memory.rejected", "memory.rejected", ":rejected:");
  }

  /** Which merges are accepted. */
  predicate CanMerge(t: MemoryTables, s: MemoryId, c: MemoryId) {
    && s in t.memories && c in t.memories && s != c
    && t.memories[s].status in {Draft, Active} && t.memories[c].status in {Draft, Active}
  }

  lemma MergeDoes(t: Tables<MemoryTables>, s: MemoryId, c: MemoryId, requestKey: string)
    requires !KeyUsed(t.events, requestKey + ":merge:" + Digits(s.bits))
    ensures var call := Call(Merge(s, c), requestKey);
            if CanMerge(t.business, s, c) then
              var survivor, consumed := t.business.memories[s], t.business.memories[c];
              var text := survivor.content.text + "\n\n--- Merged from " + consumed.canonicalKey + " ---\n" + consumed.content.text;
              var survivor' := survivor.(content := survivor.content.(text := text), version := survivor.version + 1);
              var consumed' := consumed.(status := Merged, version := consumed.version + 1);
              var stored := exists i :: 0 <= i < |t.business.relations|
                                        && t.business.relations[i].from == c && t.business.relations[i].to == s;
              CallAlone(t, call) == (
                Tables(MemoryTables(t.business.memories[s := survivor'][c := consumed'],
                                    t.business.versions
                                    + [VersionRow(s, survivor.version + 1, "merge", Some(Data(survivor.content, survivor.status)),
                                                  Data(survivor'.content, survivor.status)),
                                       VersionRow(c, consumed.version + 1, "merge", Some(Data(consumed.content, consumed.status)),
                                                  Data(consumed.content, Merged))],
                                    if stored then t.business.relations
                                    else t.business.relations + [Relation(c, consumed.version + 1, s, survivor.version + 1)],
                                    t.business.sources),
                       t.audits + [AuditEvent("memory.merge", "memory", s)],
                       t.events + [OutboxEvent("memory.merged", "memory", s, survivor.version + 1,
                                               requestKey + ":merge:" + Digits(s.bits))]),
                Returned(survivor'))
            else Refused(t, call)
  {
    hide CallAlone;
    var op := Merge(s, c);
    assert ":" + Tag(op) + ":" == ":merge:";
    KeySpelled(op, requestKey, ":merge:");
    WithUnusedKey(t, Call(op, requestKey));
    if CanMerge(t.business, s, c) {
      var seen := TwoRows(t.business.memories[s], t.business.memories[c]);
      assert AuditFor(op) == AuditEvent("memory.merge", "memory", s);
      assert EventFor(op, seen, requestKey)
          == OutboxEvent("memory.merged", "memory", s, seen.survivor.version + 1, requestKey + ":merge:" + Digits(s.bits));
    }
  }

  /** A new memory: its row, its first history row, and the source row of an activation. */
  predicate Creates(t: Tables<MemoryTables>, call: Call, id: MemoryId, m: Memory, sources: seq<Source>, audit: string, event: string)
  {
    CallAlone(t, call) == (
      Tables(MemoryTables(t.business.memories[id := m],
                          t.business.versions + [VersionRow(id, 1, "create", None, Data(m.content, m.status))],
                          t.business.relations, t.business.sources + sources),
             t.audits + [AuditEvent(audit, "memory", id)],
             t.events + [OutboxEvent(event, "memory", id, 1, call.requestKey)]),
      Returned(m))
  }

  predicate IsFree(t: MemoryTables, id: MemoryId, project: Uuid, canonicalKey: string) {
    id !in t.memories
    && forall other :: other in t.memories && t.memories[other].project == project ==> t.memories[other].canonicalKey != canonicalKey
  }

  lemma CreateDoes(t: Tables<MemoryTables>, id: MemoryId, project: Uuid, canonicalKey: string, content: Content, requestKey: string)
    requires !KeyUsed(t.events, requestKey)
    ensures var call := Call(Create(id, project, canonicalKey, content), requestKey);
            if IsFree(t.business, id, project, canonicalKey) then
              Creates(t, call, id, Memory(project, canonicalKey, content, Draft, 1, None, 0.0, 0.0), [], "memory.create", "memory.created")
            else Refused(t, call)
  {
    hide CallAlone;
    WithUnusedKey(t, Call(Create(id, project, canonicalKey, content), requestKey));
    if IsFree(t.business, id, project, canonicalKey) {
      var op := Create(id, project, canonicalKey, content);
      assert !CanonicalKeyTaken(t.business, project, canonicalKey);
      assert AuditFor(op) == AuditEvent("memory.create", "memory", id);
      assert EventFor(op, NoRead, requestKey) == OutboxEvent("memory.created", "memory", id, 1, requestKey);
      assert t.business.sources + [] == t.business.sources;
    }
  }

  lemma ActivateDoes(t: Tables<MemoryTables>, id: MemoryId, project: Uuid, canonicalKey: string, content: Content,
                     review: Uuid, candidate: Uuid, requestKey: string)
    requires !KeyUsed(t.events, requestKey)
    ensures var call := Call(Activate(id, project, canonicalKey, content, review, candidate), requestKey);
            if IsFree(t.business, id, project, canonicalKey) then
              Creates(t, call, id, Memory(project, canonicalKey, content, Active, 1, Some(review), 0.0, 0.0),
                      [Source(id, 1, candidate)], "memory.activate", "memory.activated")
            else Refused(t, call)
  {
    hide CallAlone;
    WithUnusedKey(t, Call(Activate(id, project, canonicalKey, content, review, candidate), requestKey));
  }

  /** A quality update has no stored object to return: repeated under its key it raises a conflict. */
  lemma RepeatedQualityConflicts(t: Tables<MemoryTables>, id: MemoryId, score: real, weight: real, requestKey: string)
    requires id in t.business.memories
    requires KeyTaken(t, Call(UpdateQuality(id, score, weight), requestKey))
    ensures CallAlone(t, Call(UpdateQuality(id, score, weight), requestKey))
         == (t, Raised(IdempotencyConflict(requestKey + ":quality:" + Digits(id.bits), "memory")))
  {
    assert ":" + Tag(UpdateQuality(id, score, weight)) + ":" == ":quality:";
    KeySpelled(UpdateQuality(id, score, weight), requestKey, ":quality:");
  }
}
