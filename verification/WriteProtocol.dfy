/**
  The write helpers every repository goes through: a business change, an audit row and an outbox event
  in one transaction, guarded by the UNIQUE idempotency key of the `events` table.

  B is the state of the business tables and R what the business callback returns.  A callback is a
  function from the tables it sees to the tables it leaves (or to the exception it raises).
*/
module WriteProtocol {
  import opened Basics

  datatype AuditEvent = AuditEvent(action: string, objectType: string, objectId: Uuid)

  datatype OutboxEvent = OutboxEvent(eventType: string, aggregateType: string, aggregateId: Uuid,
                                     aggregateVersion: nat, idempotencyKey: string)

  /** All the tables of the database, as one session sees them. */
  datatype Tables<B> = Tables(business: B, audits: seq<AuditEvent>, events: seq<OutboxEvent>)

  datatype Error =
    | IntegrityError                                    // a constraint of the database was violated
    | IdempotencyConflict(key: string, aggregateType: string)
    | CallbackError(message: string)                    // ValueError, LookupError, ...
    | TransactionAborted                                // a statement after a failed one in the same transaction

  datatype Attempt<S, R> = Wrote(state: S, result: R) | Failed(error: Error)

  datatype Outcome<R> = Returned(value: R) | Raised(error: Error)

  type Work<!B, !R> = B -> Attempt<B, R>

  /** Reads back the business object an earlier write created. */
  type Resolver<!B, !R> = (B, Uuid) -> Outcome<R>

  // ---------------------------------------------------------------------------------
  // The statements, as functions on the tables
  // ---------------------------------------------------------------------------------

  predicate KeyUsed(events: seq<OutboxEvent>, key: string) {
    exists i :: 0 <= i < |events| && events[i].idempotencyKey == key
  }

  ghost predicate UniqueKeys(events: seq<OutboxEvent>) {
    forall i, j :: 0 <= i < j < |events| ==> events[i].idempotencyKey != events[j].idempotencyKey
  }

  /** The first event with this key and aggregate type: `SELECT aggregate_id ... LIMIT 1`. */
  function CheckKey(events: seq<OutboxEvent>, key: string, aggregateType: string): (r: Option<Uuid>)
    ensures r.Some? <==> exists e :: e in events && e.idempotencyKey == key && e.aggregateType == aggregateType
    ensures r.Some? ==> exists e :: e in events && e.idempotencyKey == key && e.aggregateType == aggregateType
                                    && e.aggregateId == r.value
  {
    if events == [] then None
    else if events[0].idempotencyKey == key && events[0].aggregateType == aggregateType then Some(events[0].aggregateId)
    else
      assert events == [events[0]] + events[1..];
      CheckKey(events[1..], key, aggregateType)
  }

  /** The first event with this key whatever its type. */
  function CheckKeyAny(events: seq<OutboxEvent>, key: string): (r: Option<OutboxEvent>)
    ensures r.Some? <==> KeyUsed(events, key)
    ensures r.Some? ==> r.value in events && r.value.idempotencyKey == key
  {
    if events == [] then None
    else if events[0].idempotencyKey == key then Some(events[0])
    else
      assert events == [events[0]] + events[1..];
      CheckKeyAny(events[1..], key)
  }

  /**
    With unique keys the two lookups tell the same: a key belongs to a type exactly if its only event has it,
    and is a conflict exactly if its only event has another type.
    */
  lemma LookupsAgree(events: seq<OutboxEvent>, key: string, aggregateType: string)
    requires UniqueKeys(events)
    ensures var any := CheckKeyAny(events, key);
            && CheckKey(events, key, aggregateType)
               == (if any.Some? && any.value.aggregateType == aggregateType then Some(any.value.aggregateId) else None)
            && (KeyUsed(events, key) && CheckKey(events, key, aggregateType).None?
                <==> any.Some? && any.value.aggregateType != aggregateType)
  {
    var any, typed := CheckKeyAny(events, key), CheckKey(events, key, aggregateType);
    if typed.Some? {
      var e :| e in events && e.idempotencyKey == key && e.aggregateType == aggregateType && e.aggregateId == typed.value;
      var i :| 0 <= i < |events| && events[i] == e;
      assert KeyUsed(events, key);
      var j :| 0 <= j < |events| && events[j] == any.value;
    }
  }

  function RunGroup<B, R>(t: Tables<B>, work: Work<B, R>, audit: AuditEvent, event: OutboxEvent): Attempt<Tables<B>, R> {
    match work(t.business)
    case Failed(e) => Failed(e)
    case Wrote(b, r) =>
      if KeyUsed(t.events, event.idempotencyKey) then Failed(IntegrityError)
      else Wrote(Tables(b, t.audits + [audit], t.events + [event]), r)
  }

  function Replay<B, R>(t: Tables<B>, id: Uuid, event: OutboxEvent, resolve: Option<Resolver<B, R>>): Outcome<R> {
    match resolve
    case None => Raised(IdempotencyConflict(event.idempotencyKey, event.aggregateType))
    case Some(f) => f(t.business, id)
  }

  /** The pre-check of one caller: the existing aggregate, if the key is set and already used for this type. */
  function PreCheck<B>(t: Tables<B>, event: OutboxEvent): Option<Uuid> {
    if event.idempotencyKey == "" then None else CheckKey(t.events, event.idempotencyKey, event.aggregateType)
  }

  /**
    What one caller gets, and what the database holds afterwards, when other sessions may commit between
    its steps: atCheck, atWrite and atRecheck are the tables it finds at its three accesses.
    */
  function WriteAmidOthers<B, R>(atCheck: Tables<B>, atWrite: Tables<B>, atRecheck: Tables<B>,
                                 work: Work<B, R>, audit: AuditEvent, event: OutboxEvent,
                                 resolve: Option<Resolver<B, R>>): (Tables<B>, Outcome<R>)
  {
    match PreCheck(atCheck, event)
    case Some(id) => (atCheck, Replay(atCheck, id, event, resolve))
    case None =>
      match RunGroup(atWrite, work, audit, event)
      case Wrote(t, r) => (t, Returned(r))
      case Failed(e) =>
        if e == IntegrityError && resolve.Some? && event.idempotencyKey != "" then
          match PreCheck(atRecheck, event)
          case Some(id) => (atRecheck, resolve.value(atRecheck.business, id))
          case None => (atRecheck, Raised(e))
        else (atWrite, Raised(e))
  }

  /** The same when nobody else writes meanwhile. */
  function IdempotentWrite<B, R>(t: Tables<B>, work: Work<B, R>, audit: AuditEvent, event: OutboxEvent,
                                 resolve: Option<Resolver<B, R>>): (Tables<B>, Outcome<R>)
  {
    WriteAmidOthers(t, t, t, work, audit, event, resolve)
  }

  /**
    A call changes the tables exactly if its work succeeds and its key is unused; so a call that returns
    normally was applied exactly if its key was unused.
    */
  lemma AppliedExactly<B, R>(t: Tables<B>, work: Work<B, R>, audit: AuditEvent, event: OutboxEvent,
                             resolve: Option<Resolver<B, R>>)
    ensures var (t', out) := IdempotentWrite(t, work, audit, event, resolve);
            && (t' != t <==> work(t.business).Wrote? && !KeyUsed(t.events, event.idempotencyKey))
            && (out.Returned? ==> (t' != t <==> !KeyUsed(t.events, event.idempotencyKey)))
  {
    assert t.events + [event] != t.events;
    if PreCheck(t, event).Some? {
      var e :| e in t.events && e.idempotencyKey == event.idempotencyKey;
      assert KeyUsed(t.events, event.idempotencyKey);
    }
  }

  /**
    A call is dropped (it returns normally and leaves everything as it was) exactly if its key is set and used
    for its type, and reading the aggregate stored under it gives a value.
    */
  lemma DroppedExactly<B, R>(t: Tables<B>, work: Work<B, R>, audit: AuditEvent, event: OutboxEvent,
                             resolve: Option<Resolver<B, R>>)
    ensures var (t', out) := IdempotentWrite(t, work, audit, event, resolve);
            out.Returned? && t' == t
            <==> PreCheck(t, event).Some? && Replay(t, PreCheck(t, event).value, event, resolve).Returned?
  {
    assert t.events + [event] != t.events;
  }

  /** Sequential retries: once a write went through, repeating it changes nothing and resolves its aggregate. */
  lemma RetryIsReplay<B, R>(t: Tables<B>, work: Work<B, R>, audit: AuditEvent, event: OutboxEvent,
                            resolve: Option<Resolver<B, R>>, work2: Work<B, R>, audit2: AuditEvent, event2: OutboxEvent)
    requires event.idempotencyKey != "" && UniqueKeys(t.events)
    requires event2.idempotencyKey == event.idempotencyKey
    requires IdempotentWrite(t, work, audit, event, resolve).0 != t
    ensures var t' := IdempotentWrite(t, work, audit, event, resolve).0;
            var (t'', out) := IdempotentWrite(t', work2, audit2, event2, resolve);
            && t'' == t'
            && out == if event2.aggregateType == event.aggregateType then Replay(t', event.aggregateId, event2, resolve)
                      else match work2(t'.business)
                           case Failed(e) => Raised(e)
                           case Wrote(_, _) => Raised(IntegrityError)
  {
    var t' := IdempotentWrite(t, work, audit, event, resolve).0;
    assert t'.events == t.events + [event];
    assert t'.events[|t.events|] == event;
    var id := CheckKey(t'.events, event.idempotencyKey, event2.aggregateType);
    if id.Some? {
      var e :| e in t'.events && e.idempotencyKey == event.idempotencyKey && e.aggregateType == event2.aggregateType
               && e.aggregateId == id.value;
      assert e == event;
    }
    assert event2.aggregateType == event.aggregateType ==> id.Some? by {
      assert event in t'.events;
    }
  }

  // ---------------------------------------------------------------------------------
  // The session
  // ---------------------------------------------------------------------------------

  /** Who, if anyone, began the session's current transaction. */
  datatype Origin = NoTransaction | AutoBegin | ExplicitBegin

  class Session<B> {
    /** What other sessions can see. */
    var committed: Tables<B>
    /** What this session sees, including its own uncommitted writes. */
    var view: Tables<B>
    var origin: Origin

    ghost predicate Valid()
      reads this
    {
      origin == NoTransaction ==> view == committed
    }

    constructor (tables: Tables<B>)
      ensures Valid() && committed == view == tables && origin == NoTransaction
    {
      committed, view, origin := tables, tables, NoTransaction;
    }

    /** Any statement outside a transaction begins one implicitly. */
    method Touch()
      requires Valid()
      modifies this`origin
      ensures Valid()
      ensures origin == if old(origin) == NoTransaction then AutoBegin else old(origin)
    {
      if origin == NoTransaction {
        origin := AutoBegin;
      }
    }

    method Commit()
      modifies this
      ensures Valid() && origin == NoTransaction
      ensures committed == view == old(view)
    {
      committed, origin := view, NoTransaction;
    }

    method Rollback()
      modifies this
      ensures Valid() && origin == NoTransaction
      ensures committed == view == old(committed)
    {
      view, origin := committed, NoTransaction;
    }

    method CheckIdempotencyKey(key: string, aggregateType: string) returns (id: Option<Uuid>)
      requires Valid()
      modifies this`origin
      ensures Valid()
      ensures origin == if old(origin) == NoTransaction then AutoBegin else old(origin)
      ensures id == CheckKey(view.events, key, aggregateType)
    {
      Touch();
      id := CheckKey(view.events, key, aggregateType);
    }

    /** Insert the audit row, then the event row; the latter's UNIQUE key may already be taken. */
    method AddAuditAndOutbox(audit: AuditEvent, event: OutboxEvent) returns (ok: bool)
      modifies this`view
      ensures ok == !KeyUsed(old(view).events, event.idempotencyKey)
      ensures ok ==> view == Tables(old(view).business, old(view).audits + [audit], old(view).events + [event])
    {
      view := view.(audits := view.audits + [audit]);
      ok := !KeyUsed(view.events, event.idempotencyKey);
      if ok {
        view := view.(events := view.events + [event]);
      }
    }

    /**
      `write_with_audit_and_outbox`: the three ownership cases of the transaction helper.  Without an
      explicit outer owner the group is committed or rolled back here, together with whatever the session
      had pending; under an explicit owner nothing becomes visible to others yet.
      */
    method WriteWithAuditAndOutbox<R>(work: Work<B, R>, audit: AuditEvent, event: OutboxEvent) returns (out: Outcome<R>)
      requires Valid()
      modifies this
      ensures Valid()
      ensures match RunGroup(old(view), work, audit, event)
              case Wrote(t, r) => out == Returned(r) && view == t
              case Failed(e) => out == Raised(e)
      ensures old(origin) != ExplicitBegin ==> origin == NoTransaction
      ensures old(origin) != ExplicitBegin ==> committed == if out.Returned? then view else old(committed)
      ensures old(origin) == ExplicitBegin ==> origin == ExplicitBegin && committed == old(committed)
    {
      var outer := origin;
      if origin == NoTransaction {
        origin := ExplicitBegin;
      }
      match work(view.business) {
        case Failed(e) =>
          out := Raised(e);
        case Wrote(b, r) =>
          view := view.(business := b);
          var ok := AddAuditAndOutbox(audit, event);
          out := if ok then Returned(r) else Raised(IntegrityError);
      }
      if outer != ExplicitBegin {
        if out.Returned? {
          Commit();
        } else {
          Rollback();
        }
      }
    }

    /** The next statement of this session finds what others committed in the meantime, besides its own pending writes. */
    method OthersCommit(committed': Tables<B>, view': Tables<B>)
      requires Valid() && origin != ExplicitBegin && (origin == NoTransaction ==> view' == committed')
      modifies this`committed, this`view
      ensures Valid() && committed == committed' && view == view'
    {
      committed, view := committed', view';
    }

    /**
      `write_with_audit_outbox_idempotency`.  Unless the session is inside an explicit outer transaction,
      others may commit before the write and before the re-check: before the write they leave
      committedAtWrite, which this session sees as atWrite if it has writes pending.  Pending writes are
      committed with the group, or rolled back with it.  Inside an explicit outer transaction nothing is
      committed here, and the re-check after a lost race fails like any statement of an aborted transaction.
      */
    method WriteIdempotent<R>(work: Work<B, R>, audit: AuditEvent, event: OutboxEvent, resolve: Option<Resolver<B, R>>,
                              committedAtWrite: Tables<B>, atWrite: Tables<B>, atRecheck: Tables<B>)
      returns (out: Outcome<R>)
      requires Valid() && (view == committed ==> atWrite == committedAtWrite)
      modifies this
      ensures Valid() && (origin == ExplicitBegin <==> old(origin) == ExplicitBegin)
      ensures old(origin) != ExplicitBegin ==>
                WroteAmid(old(committed), old(view), committed, view, out, committedAtWrite, atWrite, atRecheck,
                          work, audit, event, resolve)
      ensures old(origin) != ExplicitBegin && old(view) == old(committed) ==>
                && view == committed
                && (committed, out) == WriteAmidOthers(old(committed), atWrite, atRecheck, work, audit, event, resolve)
      ensures old(origin) == ExplicitBegin ==>
                committed == old(committed) && WroteInside(old(view), view, out, work, audit, event, resolve)
    {
      var outer, key := origin, event.idempotencyKey;
      if key != "" {
        var existing := CheckIdempotencyKey(key, event.aggregateType);
        if existing.Some? {
          return Replay(view, existing.value, event, resolve);
        }
      }
      if outer != ExplicitBegin {
        OthersCommit(committedAtWrite, atWrite);
      }
      out := WriteWithAuditAndOutbox(work, audit, event);
      if out == Raised(IntegrityError) {
        if key != "" && resolve.Some? {
          if outer == ExplicitBegin {
            return Raised(TransactionAborted);
          }
          OthersCommit(atRecheck, atRecheck);
          var existing := CheckIdempotencyKey(key, event.aggregateType);
          if existing.Some? {
            out := resolve.value(view.business, existing.value);
          }
        }
      }
    }
  }

  /** A lost race that is checked again. */
  predicate Rechecks(e: Error, event: OutboxEvent, hasResolver: bool) {
    e == IntegrityError && hasResolver && event.idempotencyKey != ""
  }

  /** How a caller outside any explicit transaction ends, whose session may have writes pending. */
  predicate WroteAmid<B(==), R(==)>(committed: Tables<B>, view: Tables<B>, committed': Tables<B>, view': Tables<B>, out: Outcome<R>,
                                    committedAtWrite: Tables<B>, atWrite: Tables<B>, atRecheck: Tables<B>, work: Work<B, R>,
                                    audit: AuditEvent, event: OutboxEvent, resolve: Option<Resolver<B, R>>)
  {
    && out == WriteAmidOthers(view, atWrite, atRecheck, work, audit, event, resolve).1
    && match PreCheck(view, event)
       case Some(_) => committed' == committed && view' == view
       case None =>
         match RunGroup(atWrite, work, audit, event)
         case Wrote(t, _) => committed' == view' == t
         case Failed(e) => committed' == view' == if Rechecks(e, event, resolve.Some?) then atRecheck else committedAtWrite
  }

  /** Without pending writes that is the step-wise caller. */
  lemma NothingPending<B, R>(start: Tables<B>, end: Tables<B>, view: Tables<B>, out: Outcome<R>, atWrite: Tables<B>,
                             atRecheck: Tables<B>, work: Work<B, R>, audit: AuditEvent, event: OutboxEvent,
                             resolve: Option<Resolver<B, R>>)
    ensures WroteAmid(start, start, end, view, out, atWrite, atWrite, atRecheck, work, audit, event, resolve)
            <==> (view == end && (end, out) == WriteAmidOthers(start, atWrite, atRecheck, work, audit, event, resolve))
  {
  }

  /** What one caller gets inside an explicit outer transaction, and what that transaction sees afterwards. */
  predicate WroteInside<B(==), R(==)>(before: Tables<B>, after: Tables<B>, out: Outcome<R>, work: Work<B, R>,
                                      audit: AuditEvent, event: OutboxEvent, resolve: Option<Resolver<B, R>>)
  {
    match PreCheck(before, event)
    case Some(id) => after == before && out == Replay(before, id, event, resolve)
    case None =>
      match RunGroup(before, work, audit, event)
      case Wrote(t, r) => after == t && out == Returned(r)
      case Failed(e) =>
        out == Raised(if e == IntegrityError && resolve.Some? && event.idempotencyKey != "" then TransactionAborted else e)
  }

  /** The ways a call inside an explicit outer transaction can end, on the rows. */
  lemma InsideOutcomes<B, R>(before: Tables<B>, after: Tables<B>, out: Outcome<R>, work: Work<B, R>,
                             audit: AuditEvent, event: OutboxEvent, resolve: Option<Resolver<B, R>>)
    requires WroteInside(before, after, out, work, audit, event, resolve)
    ensures var key := event.idempotencyKey;
            var known := key != "" && exists e :: e in before.events && e.idempotencyKey == key && e.aggregateType == event.aggregateType;
            var used := exists i :: 0 <= i < |before.events| && before.events[i].idempotencyKey == key;
            && (known ==> after == before)
            && (known && resolve.None? ==> out == Raised(IdempotencyConflict(key, event.aggregateType)))
            && (!known ==>
                  match work(before.business)
                  case Wrote(b, r) =>
                    if used then out == Raised(if resolve.Some? && key != "" then TransactionAborted else IntegrityError)
                    else after == Tables(b, before.audits + [audit], before.events + [event]) && out == Returned(r)
                  case Failed(e) =>
                    out == Raised(if e == IntegrityError && resolve.Some? && key != "" then TransactionAborted else e))
  {
  }
}
