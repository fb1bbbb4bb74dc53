/**
  Operations whose idempotency keys collide.  Apart from creations, an operation derives its key from the
  request's key, its kind and one memory; what else it asks for (the new fields, the memory to absorb) is not in
  the key.  Only one operation per key is ever applied; this module says exactly which, and what the others get.
*/
module KeyCollisions {
  import opened Basics
  import opened WriteProtocol
  import opened ExactlyOnce
  import opened Memories
  import opened MemoryRuns
  import opened Serialisability

  /** One call from its first read to its end while nobody else writes: what it leaves and what it returns. */
  function CallAlone(t: Tables<MemoryTables>, call: Call): (Tables<MemoryTables>, Outcome<Memory>) {
    match ReadNow(call.op, t.business)
    case None => (t, Raised(CallbackError("not found")))
    case Some(seen) =>
      if !Admissible(call.op, seen) then (t, Raised(CallbackError("wrong status")))
      else
        var request := RequestFor(call.op, seen, call.requestKey);
        IdempotentWrite(t, request.work, request.audit, request.event, request.resolve)
  }

  predicate PassesChecks(t: Tables<MemoryTables>, call: Call) {
    ReadNow(call.op, t.business).Some? && Admissible(call.op, ReadNow(call.op, t.business).value)
  }

  /** An event of a memory operation is stored under the call's key. */
  predicate KeyTaken(t: Tables<MemoryTables>, call: Call) {
    var key := KeyFor(call.op, call.requestKey);
    key != "" && CheckKey(t.events, key, MEMORY).Some?
  }

  /** A call that returns normally was applied exactly if its key was unused. */
  lemma AppliedIffKeyUnused(t: Tables<MemoryTables>, call: Call)
    requires CallAlone(t, call).1.Returned?
    ensures CallAlone(t, call).0 != t <==> !KeyUsed(t.events, KeyFor(call.op, call.requestKey))
  {
    hide Admissible, RequestFor, IdempotentWrite;
    var seen := ReadNow(call.op, t.business).value;
    RequestParts(call.op, seen, call.requestKey);
    var request := RequestFor(call.op, seen, call.requestKey);
    WriteProtocol.AppliedExactly(t, request.work, request.audit, request.event, request.resolve);
  }

  lemma RequestParts(op: Op, seen: Reads, requestKey: string)
    requires Admissible(op, seen)
    ensures var request := RequestFor(op, seen, requestKey);
            && request.event.idempotencyKey == KeyFor(op, requestKey) && request.event.aggregateType == MEMORY
            && request.event.aggregateId == op.id
            && (request.resolve.Some? <==> !op.UpdateQuality?)
            && (request.resolve.Some? ==> forall t, id :: request.resolve.value(t, id) == GetMemory(t, id))
  {
  }

  /**
    A call is dropped (it returns normally and changes nothing) exactly if it passes the checks on its rows, is
    no quality update, and its key is taken by a memory operation on a memory that is there.
    */
  lemma DroppedIffKeyTaken(t: Tables<MemoryTables>, call: Call)
    ensures var (t', out) := CallAlone(t, call);
            out.Returned? && t' == t
            <==> PassesChecks(t, call) && !call.op.UpdateQuality? && KeyTaken(t, call)
                 && CheckKey(t.events, KeyFor(call.op, call.requestKey), MEMORY).value in t.business.memories
  {
    hide Admissible, RequestFor, IdempotentWrite, CheckKey, KeyFor;
    if PassesChecks(t, call) {
      var seen := ReadNow(call.op, t.business).value;
      RequestParts(call.op, seen, call.requestKey);
      var request := RequestFor(call.op, seen, call.requestKey);
      WriteProtocol.DroppedExactly(t, request.work, request.audit, request.event, request.resolve);
    }
  }

  /** After an applied call, every call with the same key that passes its checks gets the first one's memory and changes nothing. */
  lemma SecondCallIsDropped(t: Tables<MemoryTables>, first: Call, second: Call)
    requires CallAlone(t, first).0 != t
    requires KeyFor(first.op, first.requestKey) == KeyFor(second.op, second.requestKey) != ""
    requires !second.op.UpdateQuality? && PassesChecks(CallAlone(t, first).0, second)
    ensures var t' := CallAlone(t, first).0;
            && first.op.id in t'.business.memories
            && CallAlone(t', second) == (t', Returned(t'.business.memories[first.op.id]))
  {
    hide Admissible, RequestFor, CheckKey, KeyFor, Transact;
    var t' := CallAlone(t, first).0;
    var seen := ReadNow(first.op, t.business).value;
    RequestParts(first.op, seen, first.requestKey);
    RequestRuns(first.op, seen, first.requestKey, t.business);
    AppliedRowThere(first.op, seen, t.business);
    var request := RequestFor(first.op, seen, first.requestKey);
    AppendedKeyFound(t.events, request.event);
    RequestParts(second.op, ReadNow(second.op, t'.business).value, second.requestKey);
  }

  lemma AppliedRowThere(op: Op, seen: Reads, t: MemoryTables)
    requires Admissible(op, seen) && Transact(op, seen, t).Wrote?
    ensures op.id in Transact(op, seen, t).state.memories
  {
  }

  lemma AppendedKeyFound(events: seq<OutboxEvent>, e: OutboxEvent)
    requires !KeyUsed(events, e.idempotencyKey)
    ensures CheckKey(events + [e], e.idempotencyKey, e.aggregateType) == Some(e.aggregateId)
  {
    var r := CheckKey(events + [e], e.idempotencyKey, e.aggregateType);
    assert e in events + [e];
    var f :| f in events + [e] && f.idempotencyKey == e.idempotencyKey && f.aggregateType == e.aggregateType && f.aggregateId == r.value;
  }

  /** Two updates without a request key: whatever the second one asks for, it gets the memory as the first one left it. */
  lemma SecondUpdateIsDropped(t: Tables<MemoryTables>, id: MemoryId, p1: Patch, p2: Patch)
    requires CallAlone(t, Call(Update(id, p1), "")).0 != t
    ensures var t' := CallAlone(t, Call(Update(id, p1), "")).0;
            && id in t'.business.memories
            && CallAlone(t', Call(Update(id, p2), "")) == (t', Returned(t'.business.memories[id]))
  {
    hide IdempotentWrite;
    var first, second := Call(Update(id, p1), ""), Call(Update(id, p2), "");
    var seen := ReadNow(first.op, t.business).value;
    RequestRuns(first.op, seen, "", t.business);
    WroteIsWork(t, first);
    SecondCallIsDropped(t, first, second);
  }

  /** The business part of an applied call. */
  lemma WroteIsWork(t: Tables<MemoryTables>, call: Call)
    requires CallAlone(t, call).0 != t
    ensures PassesChecks(t, call)
    ensures var seen := ReadNow(call.op, t.business).value;
            && Transact(call.op, seen, t.business).Wrote?
            && CallAlone(t, call).0.business == Transact(call.op, seen, t.business).state
  {
    hide Admissible, RequestFor, Transact;
    RequestRuns(call.op, ReadNow(call.op, t.business).value, call.requestKey, t.business);
  }

  /**
    Two memories merged into one survivor under the same request: the second merge returns the survivor like a
    success, but nothing is merged and the second memory is as mergeable as before.
    */
  lemma SecondMergeIsDropped(t: Tables<MemoryTables>, survivor: MemoryId, a: MemoryId, b: MemoryId, requestKey: string)
    requires b in t.business.memories && Mergeable(t.business.memories[b].status) && a != b && survivor != b
    requires CallAlone(t, Call(Merge(survivor, a), requestKey)).0 != t
    ensures var t' := CallAlone(t, Call(Merge(survivor, a), requestKey)).0;
            && survivor in t'.business.memories
            && CallAlone(t', Call(Merge(survivor, b), requestKey)) == (t', Returned(t'.business.memories[survivor]))
            && b in t'.business.memories && t'.business.memories[b] == t.business.memories[b]
  {
    hide IdempotentWrite, MergedText;
    var first, second := Call(Merge(survivor, a), requestKey), Call(Merge(survivor, b), requestKey);
    WroteIsWork(t, first);
    SecondCallIsDropped(t, first, second);
  }

  // ---------------------------------------------------------------------------------
  // Which keys collide
  // ---------------------------------------------------------------------------------

  lemma {:induction false} DigitsInjective(m: nat, n: nat)
    requires Digits(m) == Digits(n)
    ensures m == n
  {
    DigitsLast(m);
    DigitsLast(n);
    if m >= 10 && n >= 10 {
      assert Digits(m)[..|Digits(m)| - 1] == Digits(m / 10) && Digits(n)[..|Digits(n)| - 1] == Digits(n / 10);
      DigitsInjective(m / 10, n / 10);
    } else {
      DigitsLast(m / 10);
      DigitsLast(n / 10);
    }
  }

  lemma {:induction false} DigitsLast(n: nat)
    ensures |Digits(n)| > 0 && Digits(n)[|Digits(n)| - 1] == ('0' as int + n % 10) as char
    ensures ':' !in Digits(n)
  {
    if n >= 10 {
      DigitsLast(n / 10);
    }
  }

  /** A prefix up to a colon that occurs in neither part before it determines both parts. */
  lemma CutsAgree(a: string, x: string, b: string, y: string)
    requires a + ":" + x == b + ":" + y && ':' !in a && ':' !in b
    ensures a == b && x == y
  {
    var s := a + ":" + x;
    assert forall k :: 0 <= k < |a| ==> s[k] == a[k];
    assert forall k :: 0 <= k < |b| ==> s[k] == b[k];
    assert s[|a|] == ':' && s[|b|] == ':';
    assert |a| == |b|;
    assert s[..|a|] == a && s[..|b|] == b;
    assert s[|a| + 1..] == x && s[|b| + 1..] == y;
  }

  /** The same kind of operation, whatever else it asks for. */
  predicate SameKind(a: Op, b: Op) {
    || (a.Update? && b.Update?) || (a.UpdateQuality? && b.UpdateQuality?) || (a.Merge? && b.Merge?)
    || (a.Approve? && b.Approve?) || (a.Expire? && b.Expire?) || (a.Restore? && b.Restore?)
    || (a.Delete? && b.Delete?) || (a.Reject? && b.Reject?)
  }

  lemma TagsTellKinds(a: Op, b: Op)
    requires !a.IsInsert() && !b.IsInsert()
    ensures Tag(a) == Tag(b) <==> SameKind(a, b)
    ensures ':' !in Tag(a)
  {
    var x, y := Tag(a), Tag(b);
    assert |x| == 7 ==> x == "quality" || x == "approve" || x == "expired" || x == "deleted";
    assert |x| > 0 && |y| > 0 && (x == y ==> |x| == |y| && x[0] == y[0]);
  }

  /**
    Under one request, two operations other than creations derive the same key exactly if they are of the same
    kind and on the same memory.
    */
  lemma KeysCollideExactly(a: Op, b: Op, requestKey: string)
    requires !a.IsInsert() && !b.IsInsert()
    ensures KeyFor(a, requestKey) == KeyFor(b, requestKey) <==> SameKind(a, b) && a.id == b.id
  {
    hide Tag, Digits, SameKind, KeyFor;
    TagsTellKinds(a, b);
    TagsTellKinds(b, a);
    KeyCuts(a, requestKey);
    KeyCuts(b, requestKey);
    if KeyFor(a, requestKey) == KeyFor(b, requestKey) {
      CutsAgree(Tag(a), Digits(a.id.bits), Tag(b), Digits(b.id.bits));
      DigitsInjective(a.id.bits, b.id.bits);
    }
  }

  /** Without the request's key, a derived key is the tag, a colon and the memory. */
  lemma KeyCuts(op: Op, requestKey: string)
    requires !op.IsInsert()
    ensures var key := KeyFor(op, requestKey);
            && |key| > |requestKey| && key[|requestKey| + 1..] == Tag(op) + ":" + Digits(op.id.bits)
            && key == requestKey + ":" + Tag(op) + ":" + Digits(op.id.bits)
  {
    hide Tag, Digits;
    assert requestKey + ":" + Tag(op) + ":" + Digits(op.id.bits) == (requestKey + ":") + (Tag(op) + ":" + Digits(op.id.bits));
  }

  /**
    After an applied call, a call of the same kind under the same request on another memory, if it passes its
    checks, is applied exactly if its own transaction succeeds and no earlier event used its own key.
    */
  lemma OtherMemoryNotAffected(t: Tables<MemoryTables>, first: Call, second: Call)
    requires CallAlone(t, first).0 != t && first.requestKey == second.requestKey
    requires SameKind(first.op, second.op) && first.op.id != second.op.id
    requires PassesChecks(CallAlone(t, first).0, second)
    ensures var t' := CallAlone(t, first).0;
            var work := Transact(second.op, ReadNow(second.op, t'.business).value, t'.business);
            && (CallAlone(t', second).0 != t' <==> work.Wrote? && !KeyUsed(t.events, KeyFor(second.op, second.requestKey)))
            && (CallAlone(t', second).0 != t' ==>
                  CallAlone(t', second).0.business == work.state && CallAlone(t', second).1 == Returned(work.result))
  {
    hide Admissible, RequestFor, KeyFor, Transact;
    var t' := CallAlone(t, first).0;
    KeysCollideExactly(first.op, second.op, first.requestKey);
    var seen := ReadNow(first.op, t.business).value;
    RequestParts(first.op, seen, first.requestKey);
    var added := RequestFor(first.op, seen, first.requestKey).event;
    assert t'.events == t.events + [added];
    PushedKey(t.events, added, KeyFor(second.op, second.requestKey));
    var seen2 := ReadNow(second.op, t'.business).value;
    RequestParts(second.op, seen2, second.requestKey);
    RequestRuns(second.op, seen2, second.requestKey, t'.business);
    var request := RequestFor(second.op, seen2, second.requestKey);
    WriteProtocol.AppliedExactly(t', request.work, request.audit, request.event, request.resolve);
  }

  lemma PushedKey(events: seq<OutboxEvent>, e: OutboxEvent, key: string)
    ensures KeyUsed(events + [e], key) <==> KeyUsed(events, key) || e.idempotencyKey == key
  {
    var all := events + [e];
    assert all[|events|] == e;
    if i :| 0 <= i < |events| && events[i].idempotencyKey == key {
      assert all[i].idempotencyKey == key;
    }
  }

  // ---------------------------------------------------------------------------------
  // Concurrent runs
  // ---------------------------------------------------------------------------------

  lemma SameKeySameGroup(start: Tables<MemoryTables>, w: MemoryWorld, i: nat, j: nat)
    requires TablesAreLog(start, w) && i < |w.log| && j < |w.log|
    requires w.log[i].request.event.idempotencyKey == w.log[j].request.event.idempotencyKey
    ensures i == j
  {
    assert w.tables.events[|start.events| + i] == w.log[i].request.event;
    assert w.tables.events[|start.events| + j] == w.log[j].request.event;
  }

  /** Of all calls of a run that derive the same key, whatever they ask for, at most one commits. */
  lemma SameKeyCommitsOnce(start: Tables<MemoryTables>, moves: seq<Move>, i: nat, j: nat)
    requires UniqueKeys(start.events)
    requires var s := RunSystem(StartSystem(start), moves);
             && i < |s.world.log| && j < |s.world.log| && LogHasJobs(s)
             && KeyFor(CommittedCall(s, i).op, CommittedCall(s, i).requestKey)
                == KeyFor(CommittedCall(s, j).op, CommittedCall(s, j).requestKey)
    ensures i == j
  {
    hide RunSystem, TablesAreLog, SerialOp, ReadNow, Admissible;
    var s := RunSystem(StartSystem(start), moves);
    RunKeepsFullInv(start, moves);
    LoggedIsSerial(s, i);
    LoggedIsSerial(s, j);
    SameKeySameGroup(start, s.world, i, j);
  }

  /** In particular at most one update of a memory sent without a key, and one merge into a memory per request key. */
  lemma KeylessUpdatesCommitOnce(start: Tables<MemoryTables>, moves: seq<Move>, i: nat, j: nat, id: MemoryId)
    requires UniqueKeys(start.events)
    requires var s := RunSystem(StartSystem(start), moves);
             && i < |s.world.log| && j < |s.world.log| && LogHasJobs(s)
             && CommittedCall(s, i).op.Update? && CommittedCall(s, i).op.id == id && CommittedCall(s, i).requestKey == ""
             && CommittedCall(s, j).op.Update? && CommittedCall(s, j).op.id == id && CommittedCall(s, j).requestKey == ""
    ensures i == j
  {
    hide RunSystem;
    SameKeyCommitsOnce(start, moves, i, j);
  }

  /**
    What the other calls of a run get whose key a committed group carries: none of them was applied, and one
    that returned normally was answered with the group's memory.
    */
  lemma OthersAreNotApplied(start: Tables<MemoryTables>, moves: seq<Move>, i: nat, c: Client)
    requires UniqueKeys(start.events)
    requires var w := RunSystem(StartSystem(start), moves).world;
             && i < |w.log| && c in w.clients && w.log[i].client != c && w.clients[c].Ended?
             && w.clients[c].request.Key() == w.log[i].request.Key()
    ensures var w := RunSystem(StartSystem(start), moves).world;
            && !w.clients[c].ending.Written?
            && (w.clients[c].ending.Replayed? ==> w.clients[c].ending.aggregate == w.log[i].request.event.aggregateId)
  {
    hide RunSystem, SystemInv;
    RunKeepsFullInv(start, moves);
    NotApplied(start, RunSystem(StartSystem(start), moves).world, i, c);
  }

  lemma NotApplied(start: Tables<MemoryTables>, w: MemoryWorld, i: nat, c: Client)
    requires Inv(start, w) && i < |w.log| && c in w.clients && w.log[i].client != c && w.clients[c].Ended?
    requires w.clients[c].request.Key() == w.log[i].request.Key()
    ensures !w.clients[c].ending.Written?
    ensures w.clients[c].ending.Replayed? ==> w.clients[c].ending.aggregate == w.log[i].request.event.aggregateId
  {
    hide TablesAreLog;
    assert ClientOk(w, c);
    EventOfGroup(start, w, i);
    if w.clients[c].ending.Written? {
      var k :| 0 <= k < |w.log| && w.log[k].client == c && w.log[k].request == w.clients[c].request;
      SameKeySameGroup(start, w, i, k);
    } else if w.clients[c].ending.Replayed? {
      var k :| 0 <= k < |w.tables.events| && w.tables.events[k].idempotencyKey == w.clients[c].request.Key()
               && w.tables.events[k].aggregateId == w.clients[c].ending.aggregate;
      SameKeySameEvent(start, w, w.tables.events[k], w.log[i].request.event);
    }
  }

  /** One of the rows the call read has moved on since. */
  predicate RowMoved(op: Op, seen: Reads, t: MemoryTables) {
    match seen
    case NoRead => false
    case OneRow(row) => op.id in t.memories && row.version != t.memories[op.id].version
    case TwoRows(s, c) =>
      op.Merge? && op.id in t.memories && op.consumed in t.memories
      && (s.version != t.memories[op.id].version || c.version != t.memories[op.consumed].version)
  }

  /** A call that reaches its write after a row it read has moved on ends with an exception, not with the stored memory. */
  lemma StaleWriteThrows(s: System, c: Client)
    requires SystemInv(s) && c in s.world.clients && s.world.clients[c].Writing?
    requires s.jobs[c].Submitted? && RowMoved(s.jobs[c].op, s.jobs[c].seen, s.world.tables.business)
    ensures var w' := Moved(s, Protocol(c, Write(c))).world;
            && w'.clients[c].Ended? && w'.clients[c].ending == Threw(CallbackError("concurrent modification"))
            && w'.tables == s.world.tables
  {
    hide MergedText;
    assert JobOk(s, c);
  }

  /** Two updates of one memory that both pass the check before either writes. */
  function Race(id: MemoryId, p1: Patch, p2: Patch, a: Client, b: Client): seq<Move> {
    [Begin(a, Update(id, p1), ""), Begin(b, Update(id, p2), ""), Protocol(a, Check(a)), Protocol(b, Check(b)),
     Protocol(a, Write(a)), Protocol(b, Write(b))]
  }

  lemma RunSixMoves(s: System, m: seq<Move>)
    requires |m| == 6
    ensures RunSystem(s, m) == Moved(Moved(Moved(Moved(Moved(Moved(s, m[0]), m[1]), m[2]), m[3]), m[4]), m[5])
  {
    hide Moved;
    assert RunSystem(s, m[..0]) == s;
    forall k | 0 <= k < 6 ensures RunSystem(s, m[..k + 1]) == Moved(RunSystem(s, m[..k]), m[k]) {
      assert m[..k + 1][..k] == m[..k];
    }
    assert m[..6] == m;
  }

  /** The racing case: the first update commits, the second is not answered but fails, and is not applied. */
  lemma RacingUpdateThrows(t: Tables<MemoryTables>, id: MemoryId, p1: Patch, p2: Patch, a: Client, b: Client)
    requires a != b && id in t.business.memories && !KeyUsed(t.events, KeyFor(Update(id, p1), ""))
    requires RowAllowed(t.business.memories[id])
    ensures var w := RunSystem(StartSystem(t), Race(id, p1, p2, a, b)).world;
            && a in w.clients && w.clients[a].Ended? && w.clients[a].ending.Written?
            && b in w.clients && w.clients[b].Ended? && w.clients[b].ending == Threw(CallbackError("concurrent modification"))
            && |w.log| == 1
  {
    hide Moved, RequestFor, RunGroup, PreCheck, KeyFor, Transact;
    var m := Race(id, p1, p2, a, b);
    var s0 := StartSystem(t);
    RunSixMoves(s0, m);
    var s2 := BothBegin(t, id, p1, p2, a, b);
    var s4 := BothCheck(s2, t, id, p1, p2, a, b);
    OneWrites(s4, t, id, p1, p2, a, b);
  }

  ghost predicate BothAt(s: System, t: Tables<MemoryTables>, id: MemoryId, p1: Patch, p2: Patch, a: Client, b: Client, writing: bool) {
    && id in t.business.memories
    && var seen := OneRow(t.business.memories[id]);
    && Admissible(Update(id, p1), seen) && Admissible(Update(id, p2), seen)
    && s.world.tables == t && s.world.log == []
    && a in s.world.clients && b in s.world.clients
    && s.world.clients[a] == (if writing then Writing(RequestFor(Update(id, p1), seen, "")) else Checking(RequestFor(Update(id, p1), seen, "")))
    && s.world.clients[b] == (if writing then Writing(RequestFor(Update(id, p2), seen, "")) else Checking(RequestFor(Update(id, p2), seen, "")))
  }

  lemma BothBegin(t: Tables<MemoryTables>, id: MemoryId, p1: Patch, p2: Patch, a: Client, b: Client) returns (s: System)
    requires a != b && id in t.business.memories
    ensures s == Moved(Moved(StartSystem(t), Begin(a, Update(id, p1), "")), Begin(b, Update(id, p2), ""))
    ensures BothAt(s, t, id, p1, p2, a, b, false)
  {
    hide RequestFor;
    s := Moved(Moved(StartSystem(t), Begin(a, Update(id, p1), "")), Begin(b, Update(id, p2), ""));
  }

  lemma BothCheck(s: System, t: Tables<MemoryTables>, id: MemoryId, p1: Patch, p2: Patch, a: Client, b: Client) returns (s': System)
    requires a != b && BothAt(s, t, id, p1, p2, a, b, false) && !KeyUsed(t.events, KeyFor(Update(id, p1), ""))
    ensures s' == Moved(Moved(s, Protocol(a, Check(a))), Protocol(b, Check(b)))
    ensures BothAt(s', t, id, p1, p2, a, b, true)
  {
    hide RequestFor, KeyFor;
    var seen := OneRow(t.business.memories[id]);
    SameUpdateKey(id, p1, p2);
    RequestParts(Update(id, p1), seen, "");
    RequestParts(Update(id, p2), seen, "");
    UnusedNotFound(t, RequestFor(Update(id, p1), seen, "").event);
    UnusedNotFound(t, RequestFor(Update(id, p2), seen, "").event);
    s' := Moved(Moved(s, Protocol(a, Check(a))), Protocol(b, Check(b)));
  }

  lemma SameUpdateKey(id: MemoryId, p1: Patch, p2: Patch)
    ensures KeyFor(Update(id, p1), "") == KeyFor(Update(id, p2), "")
  {
  }

  lemma UnusedNotFound(t: Tables<MemoryTables>, e: OutboxEvent)
    requires !KeyUsed(t.events, e.idempotencyKey)
    ensures PreCheck(t, e).None?
  {
    forall f | f in t.events ensures f.idempotencyKey != e.idempotencyKey {
      var i :| 0 <= i < |t.events| && t.events[i] == f;
    }
  }

  lemma OneWrites(s: System, t: Tables<MemoryTables>, id: MemoryId, p1: Patch, p2: Patch, a: Client, b: Client)
    requires a != b && BothAt(s, t, id, p1, p2, a, b, true) && !KeyUsed(t.events, KeyFor(Update(id, p1), ""))
    requires RowAllowed(t.business.memories[id])
    ensures var w := Moved(Moved(s, Protocol(a, Write(a))), Protocol(b, Write(b))).world;
            && a in w.clients && w.clients[a].Ended? && w.clients[a].ending.Written?
            && b in w.clients && w.clients[b].Ended? && w.clients[b].ending == Threw(CallbackError("concurrent modification"))
            && |w.log| == 1
  {
    hide RequestFor, KeyFor;
    var seen := OneRow(t.business.memories[id]);
    RequestParts(Update(id, p1), seen, "");
    RequestRuns(Update(id, p1), seen, "", t.business);
    var s' := Moved(s, Protocol(a, Write(a)));
    RequestRuns(Update(id, p2), seen, "", s'.world.tables.business);
  }
}
