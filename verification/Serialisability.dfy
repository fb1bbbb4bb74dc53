/** Every concurrent run of the memory operations ends where a serial run of its committed calls ends. */
module Serialisability {
  import opened Basics
  import opened WriteProtocol
  import opened ExactlyOnce
  import opened Memories
  import opened MemoryRuns

  datatype Call = Call(op: Op, requestKey: string)

  /** One call executed alone from its first read to its commit; None if it does not commit. */
  function SerialCall(t: Tables<MemoryTables>, call: Call): Option<Tables<MemoryTables>> {
    match ReadNow(call.op, t.business)
    case None => None
    case Some(seen) =>
      if Admissible(call.op, seen) then
        var request := RequestFor(call.op, seen, call.requestKey);
        match RunGroup(t, request.work, request.audit, request.event)
        case Wrote(t', _) => Some(t')
        case Failed(_) => None
      else None
  }

  function SerialRun(t: Tables<MemoryTables>, calls: seq<Call>): Option<Tables<MemoryTables>> {
    if calls == [] then Some(t)
    else
      match SerialRun(t, calls[..|calls| - 1])
      case None => None
      case Some(t') => SerialCall(t', calls[|calls| - 1])
  }

  /** The call behind the i-th committed group. */
  function CommittedCall(s: System, i: nat): Call
    requires i < |s.world.log|
    requires s.world.log[i].client in s.jobs && s.jobs[s.world.log[i].client].Submitted?
  {
    var job := s.jobs[s.world.log[i].client];
    Call(job.op, job.requestKey)
  }

  ghost predicate LogHasJobs(s: System) {
    forall i :: 0 <= i < |s.world.log| ==> s.world.log[i].client in s.jobs && s.jobs[s.world.log[i].client].Submitted?
  }

  function CommittedCalls(s: System, n: nat): (r: seq<Call>)
    requires LogHasJobs(s) && n <= |s.world.log|
    ensures |r| == n
    ensures forall i :: 0 <= i < n ==> r[i] == CommittedCall(s, i)
  {
    seq(n, i requires 0 <= i < n => CommittedCall(s, i))
  }

  /** Both invariants of a run: that of the write protocol and that of the memory clients. */
  ghost predicate FullInv(start: Tables<MemoryTables>, s: System) {
    Inv(start, s.world) && SystemInv(s)
  }

  lemma MoveIsStep(s: System, m: Move)
    ensures Moved(s, m).world == s.world || exists a :: Moved(s, m).world == Step(s.world, a)
  {
    hide Step, Admissible, RequestFor, ReadNow;
    var s' := Moved(s, m);
    match m {
      case Protocol(c, action) =>
        assert s'.world == s.world || s'.world == Step(s.world, action);
      case Begin(c, op, requestKey) =>
        match ReadNow(op, s.world.tables.business) {
          case Some(seen) =>
            if Admissible(op, seen) {
              var request := RequestFor(op, seen, requestKey);
              assert s'.world == s.world || s'.world == Step(s.world, Submit(c, request));
            }
          case None =>
        }
      case ReadConsumed(c) =>
        if c in s.jobs && s.jobs[c].SurvivorRead? && s.jobs[c].op.Merge? && s.jobs[c].op.consumed in s.world.tables.business.memories {
          var job := s.jobs[c];
          var seen := TwoRows(job.survivor, s.world.tables.business.memories[job.op.consumed]);
          if Admissible(job.op, seen) {
            var request := RequestFor(job.op, seen, job.requestKey);
            assert s'.world == s.world || s'.world == Step(s.world, Submit(c, request));
          }
        }
    }
  }

  lemma MoveKeepsProtocolInv(start: Tables<MemoryTables>, s: System, m: Move)
    requires Inv(start, s.world)
    ensures Inv(start, Moved(s, m).world)
  {
    hide Inv, Step, Moved;
    MoveIsStep(s, m);
    if Moved(s, m).world != s.world {
      var a :| Moved(s, m).world == Step(s.world, a);
      StepKeepsInv(start, s.world, a);
    }
  }

  lemma {:induction false} RunKeepsFullInv(tables: Tables<MemoryTables>, moves: seq<Move>)
    requires UniqueKeys(tables.events)
    ensures FullInv(tables, RunSystem(StartSystem(tables), moves))
  {
    hide Inv, SystemInv, Moved;
    RunKeepsSystemInv(tables, moves);
    if moves == [] {
      RunKeepsInv<MemoryTables, Memory>(tables, []);
    } else {
      RunKeepsFullInv(tables, moves[..|moves| - 1]);
      MoveKeepsProtocolInv(tables, RunSystem(StartSystem(tables), moves[..|moves| - 1]), moves[|moves| - 1]);
    }
  }

  // ---------------------------------------------------------------------------------
  // The theorem
  // ---------------------------------------------------------------------------------

  /** The tables after the first n groups. */
  ghost function TablesAfter(start: Tables<MemoryTables>, log: seq<ExactlyOnce.Commit<MemoryTables, Memory>>, n: nat): Tables<MemoryTables>
    requires n <= |log|
  {
    Tables(if n == 0 then start.business else log[n - 1].after,
           start.audits + LogAudits(log)[..n], start.events + LogEvents(log)[..n])
  }

  lemma NextKeyUnused(start: Tables<MemoryTables>, log: seq<ExactlyOnce.Commit<MemoryTables, Memory>>, n: nat)
    requires n < |log| && UniqueKeys(start.events + LogEvents(log))
    ensures !KeyUsed(start.events + LogEvents(log)[..n], log[n].request.event.idempotencyKey)
  {
    var all := start.events + LogEvents(log);
    var prefix := start.events + LogEvents(log)[..n];
    assert forall k :: 0 <= k < |prefix| ==> prefix[k] == all[k];
    assert all[|start.events| + n] == log[n].request.event;
  }

  lemma TablesStepForward(start: Tables<MemoryTables>, w: MemoryWorld, n: nat)
    requires TablesAreLog(start, w) && n < |w.log|
    ensures TablesAfter(start, w.log, n).business == w.log[n].before
    ensures RunGroup(TablesAfter(start, w.log, n), w.log[n].request.work, w.log[n].request.audit, w.log[n].request.event)
         == Wrote(TablesAfter(start, w.log, n + 1), w.log[n].result)
  {
    var log := w.log;
    NextKeyUnused(start, log, n);
    assert LogAudits(log)[..n + 1] == LogAudits(log)[..n] + [log[n].request.audit];
    assert LogEvents(log)[..n + 1] == LogEvents(log)[..n] + [log[n].request.event];
    assert start.audits + LogAudits(log)[..n + 1] == (start.audits + LogAudits(log)[..n]) + [log[n].request.audit];
    assert start.events + LogEvents(log)[..n + 1] == (start.events + LogEvents(log)[..n]) + [log[n].request.event];
  }

  lemma CommitIsSerialCall(s: System, n: nat, t: Tables<MemoryTables>, t': Tables<MemoryTables>)
    requires LogHasJobs(s) && n < |s.world.log| && IsSerialCommit(s, s.world.log[n])
    requires t.business == s.world.log[n].before
    requires var request := s.world.log[n].request;
             RunGroup(t, request.work, request.audit, request.event) == Wrote(t', s.world.log[n].result)
    ensures SerialCall(t, CommittedCall(s, n)) == Some(t')
  {
    hide RequestFor, Transact, Admissible, ReadNow, SerialOp;
  }

  lemma {:induction false} PrefixIsSerial(start: Tables<MemoryTables>, s: System, n: nat)
    requires TablesAreLog(start, s.world) && LogHasJobs(s) && n <= |s.world.log|
    requires forall i :: 0 <= i < |s.world.log| ==> IsSerialCommit(s, s.world.log[i])
    ensures SerialRun(start, CommittedCalls(s, n)) == Some(TablesAfter(start, s.world.log, n))
  {
    hide SerialCall, RunGroup, IsSerialCommit, TablesAreLog;
    if n == 0 {
      assert start.audits + LogAudits(s.world.log)[..0] == start.audits;
      assert start.events + LogEvents(s.world.log)[..0] == start.events;
    } else {
      PrefixIsSerial(start, s, n - 1);
      TablesStepForward(start, s.world, n - 1);
      CommitIsSerialCall(s, n - 1, TablesAfter(start, s.world.log, n - 1), TablesAfter(start, s.world.log, n));
      assert CommittedCalls(s, n)[..n - 1] == CommittedCalls(s, n - 1);
    }
  }

  lemma LoggedIsSerial(s: System, i: nat)
    requires SystemInv(s) && i < |s.world.log|
    ensures IsSerialCommit(s, s.world.log[i])
  {
  }

  /**
    Serialisability: whatever the interleaving of early reads and later commits, the committed tables
    (memories, history, relations, audit and events) are those of executing the committed calls one after
    the other, each from its first read to its commit, in commit order.
    */
  lemma CommittedRunIsSerial(start: Tables<MemoryTables>, moves: seq<Move>) returns (calls: seq<Call>)
    requires UniqueKeys(start.events)
    ensures var s := RunSystem(StartSystem(start), moves);
            && |calls| == |s.world.log|
            && (forall i :: 0 <= i < |calls| ==>
                  s.world.log[i].client in s.jobs && s.jobs[s.world.log[i].client].Submitted?
                  && calls[i] == CommittedCall(s, i))
            && SerialRun(start, calls) == Some(s.world.tables)
  {
    hide RunSystem;
    var s := RunSystem(StartSystem(start), moves);
    RunKeepsFullInv(start, moves);
    forall i | 0 <= i < |s.world.log| ensures s.world.log[i].client in s.jobs && s.jobs[s.world.log[i].client].Submitted? {
      LoggedIsSerial(s, i);
    }
    hide IsSerialCommit;
    calls := CommittedCalls(s, |s.world.log|);
    PrefixIsSerial(start, s, |s.world.log|);
    WholeLog(start, s.world);
  }

  lemma WholeLog(start: Tables<MemoryTables>, w: MemoryWorld)
    requires TablesAreLog(start, w)
    ensures TablesAfter(start, w.log, |w.log|) == w.tables
  {
    assert LogAudits(w.log)[..|w.log|] == LogAudits(w.log);
    assert LogEvents(w.log)[..|w.log|] == LogEvents(w.log);
  }

  /**
    Principle for the invariants below: what holds at the start and is kept by every serial call holds
    after every concurrent run.
    */
  lemma {:induction false} SerialRunKeeps(start: Tables<MemoryTables>, calls: seq<Call>, inv: Tables<MemoryTables> -> bool,
                                          allowed: Call -> bool)
    requires SerialRun(start, calls).Some? && inv(start)
    requires forall i :: 0 <= i < |calls| ==> allowed(calls[i])
    requires forall t, call :: inv(t) && allowed(call) && SerialCall(t, call).Some? ==> inv(SerialCall(t, call).value)
    ensures inv(SerialRun(start, calls).value)
  {
    if calls != [] {
      SerialRunKeeps(start, calls[..|calls| - 1], inv, allowed);
      var t := SerialRun(start, calls[..|calls| - 1]).value;
      assert inv(t) && allowed(calls[|calls| - 1]) && SerialCall(t, calls[|calls| - 1]).Some?;
    }
  }
}
