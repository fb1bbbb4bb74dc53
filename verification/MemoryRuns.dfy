/**
  Concurrent clients of the memory operations: each reads its rows, later goes through the write protocol,
  and interleaves freely with all others in between.
*/
module MemoryRuns {
  import opened Basics
  import opened WriteProtocol
  import opened ExactlyOnce
  import opened Memories

  /** A call being prepared or carried out; a merge reads the survivor first and the consumed row later. */
  datatype Job =
    | SurvivorRead(op: Op, requestKey: string, survivor: Memory)
    | Submitted(op: Op, requestKey: string, seen: Reads)
    | Refused(op: Op)                                 // a row was missing or had the wrong status

  type MemoryWorld = World<MemoryTables, Memory>

  datatype System = System(world: MemoryWorld, jobs: map<Client, Job>)

  datatype Move =
    | Begin(client: Client, op: Op, requestKey: string)
    | ReadConsumed(client: Client)
    | Protocol(client: Client, action: ExactlyOnce.Action<MemoryTables, Memory>)

  function SetJob(s: System, c: Client, j: Job): System { s.(jobs := s.jobs[c := j]) }

  /** The call's rows are read: check them and hand the request to the write helper, or refuse. */
  function SubmitWith(s: System, c: Client, op: Op, requestKey: string, seen: Reads): System {
    if Admissible(op, seen) then
      System(Step(s.world, Submit(c, RequestFor(op, seen, requestKey))), s.jobs[c := Submitted(op, requestKey, seen)])
    else SetJob(s, c, Refused(op))
  }

  function Moved(s: System, m: Move): System {
    var tables := s.world.tables.business;
    match m
    case Begin(c, op, requestKey) =>
      if c in s.jobs then s
      else if op.Merge? then
        if op.id in tables.memories && StatusAllows(op, tables.memories[op.id].status)
        then SetJob(s, c, SurvivorRead(op, requestKey, tables.memories[op.id]))
        else SetJob(s, c, Refused(op))
      else
        (match ReadNow(op, tables)
         case None => SetJob(s, c, Refused(op))
         case Some(seen) => SubmitWith(s, c, op, requestKey, seen))
    case ReadConsumed(c) =>
      if c in s.jobs && s.jobs[c].SurvivorRead? && s.jobs[c].op.Merge? then
        var SurvivorRead(op, requestKey, survivor) := s.jobs[c];
        if op.consumed in tables.memories then
          SubmitWith(s, c, op, requestKey, TwoRows(survivor, tables.memories[op.consumed]))
        else SetJob(s, c, Refused(op))
      else s
    case Protocol(c, action) =>
      if action.client == c && !action.Submit? then s.(world := Step(s.world, action)) else s
  }

  function RunSystem(start: System, moves: seq<Move>): System {
    if moves == [] then start else Moved(RunSystem(start, moves[..|moves| - 1]), moves[|moves| - 1])
  }

  function StartSystem(tables: Tables<MemoryTables>): System { System(Start(tables), map[]) }

  // ---------------------------------------------------------------------------------
  // Invariant: whatever a client holds was true of its rows when it read them
  // ---------------------------------------------------------------------------------

  ghost predicate JobOk(s: System, c: Client)
    requires c in s.jobs
  {
    match s.jobs[c]
    case SurvivorRead(op, _, survivor) =>
      op.Merge? && RowWasRead(op.id, survivor, s.world.tables.business) && c !in s.world.clients
    case Submitted(op, requestKey, seen) =>
      && Admissible(op, seen)
      && WereRead(op, seen, s.world.tables.business)
      && c in s.world.clients && s.world.clients[c].request == RequestFor(op, seen, requestKey)
    case Refused(_) => c !in s.world.clients
  }

  /** A logged group is the serial execution of its client's operation on the tables it found. */
  ghost predicate IsSerialCommit(s: System, k: ExactlyOnce.Commit<MemoryTables, Memory>) {
    && k.client in s.jobs && s.jobs[k.client].Submitted?
    && var Submitted(op, requestKey, seen) := s.jobs[k.client];
       && Admissible(op, seen) && ReadNow(op, k.before) == Some(seen)
       && k.request == RequestFor(op, seen, requestKey)
       && SerialOp(op, k.before) == Wrote(k.after, k.result)
  }

  ghost predicate SystemInv(s: System) {
    && (forall c :: c in s.jobs ==> JobOk(s, c))
    && (forall c :: c in s.world.clients ==> c in s.jobs)
    && (forall i :: 0 <= i < |s.world.log| ==> IsSerialCommit(s, s.world.log[i]))
  }

  /** Steps of the protocol other than a successful write leave tables and log alone. */
  lemma WriteOrQuiet(w: MemoryWorld, a: ExactlyOnce.Action<MemoryTables, Memory>)
    ensures || (Step(w, a).tables == w.tables && Step(w, a).log == w.log)
            || (a.Write? && a.client in w.clients && w.clients[a.client].Writing?
             && RunGroup(w.tables, w.clients[a.client].request.work, w.clients[a.client].request.audit,
                         w.clients[a.client].request.event).Wrote?)
    ensures !a.Submit? ==> Step(w, a).clients.Keys == w.clients.Keys
    ensures forall c :: c in w.clients ==> c in Step(w, a).clients && Step(w, a).clients[c].request == w.clients[c].request
  {
  }

  lemma RequestRuns(op: Op, seen: Reads, requestKey: string, t: MemoryTables)
    requires Admissible(op, seen)
    ensures RequestFor(op, seen, requestKey).work(t) == Transact(op, seen, t)
  {
  }

  lemma JobStaysOk(s: System, s': System, c: Client)
    requires c in s.jobs && JobOk(s, c) && c in s'.jobs && s'.jobs[c] == s.jobs[c]
    requires RowsAdvance(s.world.tables.business, s'.world.tables.business)
    requires c in s.world.clients <==> c in s'.world.clients
    requires c in s.world.clients ==> s'.world.clients[c].request == s.world.clients[c].request
    ensures JobOk(s', c)
  {
    match s.jobs[c]
    case Submitted(op, _, seen) =>
      AdvanceKeepsReads(op, seen, s.world.tables.business, s'.world.tables.business);
    case _ =>
  }

  lemma ProtocolKeepsInv(s: System, c: Client, a: ExactlyOnce.Action<MemoryTables, Memory>)
    requires SystemInv(s) && a.client == c && !a.Submit?
    ensures SystemInv(s.(world := Step(s.world, a)))
  {
    hide RequestFor, Transact, SerialOp, Admissible, RowsAdvance, Step;
    var s' := s.(world := Step(s.world, a));
    WriteOrQuiet(s.world, a);
    var t, t' := s.world.tables.business, s'.world.tables.business;
    if s'.world.tables == s.world.tables && s'.world.log == s.world.log {
      RowsStay(t);
    } else {
      WriteIsSerial(s, c, a);
    }
    forall d | d in s'.jobs ensures JobOk(s', d) {
      JobStaysOk(s, s', d);
    }
    forall i | 0 <= i < |s'.world.log| ensures IsSerialCommit(s', s'.world.log[i]) {
      if i < |s.world.log| {
        assert IsSerialCommit(s, s.world.log[i]);
      }
    }
  }

  lemma RowsStay(t: MemoryTables)
    ensures RowsAdvance(t, t)
  {
  }

  lemma WriteIsSerial(s: System, c: Client, a: ExactlyOnce.Action<MemoryTables, Memory>)
    requires SystemInv(s) && a.Write? && a.client == c && c in s.world.clients && s.world.clients[c].Writing?
    requires RunGroup(s.world.tables, s.world.clients[c].request.work, s.world.clients[c].request.audit,
                      s.world.clients[c].request.event).Wrote?
    ensures var w' := Step(s.world, a);
            && RowsAdvance(s.world.tables.business, w'.tables.business)
            && |w'.log| == |s.world.log| + 1 && w'.log[..|s.world.log|] == s.world.log
            && IsSerialCommit(s.(world := w'), w'.log[|s.world.log|])
  {
    hide Transact, SerialOp, Admissible, RowsAdvance, ReadNow, WereRead;
    assert JobOk(s, c);
    var Submitted(op, requestKey, seen) := s.jobs[c];
    var t := s.world.tables.business;
    RequestRuns(op, seen, requestKey, t);
    TransactAdvances(op, seen, t);
    StaleSuccessIsSerial(op, seen, t);
  }

  /** A client's job changes, and at most a request of its own is submitted. */
  lemma JobChangeKeepsInv(s: System, s': System, c: Client)
    requires SystemInv(s) && OnlyOwnJob(s, s', c)
    ensures SystemInv(s')
  {
    hide RequestFor, Transact, SerialOp, Admissible, RowsAdvance, WereRead;
    RowsStay(s.world.tables.business);
    forall d | d in s'.jobs ensures JobOk(s', d) {
      if d != c {
        JobStaysOk(s, s', d);
      }
    }
    forall i | 0 <= i < |s'.world.log| ensures IsSerialCommit(s', s'.world.log[i]) {
      assert IsSerialCommit(s, s.world.log[i]);
    }
  }

  /** A step that touches nothing but the client's own job and request. */
  ghost predicate OnlyOwnJob(s: System, s': System, c: Client) {
    && s'.world.tables == s.world.tables && s'.world.log == s.world.log
    && c in s'.jobs && JobOk(s', c) && (c in s.jobs ==> !s.jobs[c].Submitted?)
    && s'.jobs.Keys == s.jobs.Keys + {c}
    && (forall d :: d in s.jobs && d != c ==> s'.jobs[d] == s.jobs[d])
    && (forall d :: d != c ==> (d in s'.world.clients <==> d in s.world.clients))
    && (forall d :: d != c && d in s.world.clients ==> s'.world.clients[d] == s.world.clients[d])
  }

  lemma SubmitChangesOwnJob(s: System, c: Client, op: Op, requestKey: string, seen: Reads)
    requires WereRead(op, seen, s.world.tables.business) && c !in s.world.clients
    requires c in s.jobs ==> !s.jobs[c].Submitted?
    ensures OnlyOwnJob(s, SubmitWith(s, c, op, requestKey, seen), c)
  {
    hide RequestFor, Admissible, WereRead;
  }

  lemma BeginChangesOwnJob(s: System, c: Client, op: Op, requestKey: string)
    requires SystemInv(s) && c !in s.jobs
    ensures OnlyOwnJob(s, Moved(s, Begin(c, op, requestKey)), c)
  {
    hide SubmitWith, Admissible;
    var tables := s.world.tables.business;
    if !op.Merge? && ReadNow(op, tables).Some? {
      SubmitChangesOwnJob(s, c, op, requestKey, ReadNow(op, tables).value);
    }
  }

  lemma ReadConsumedChangesOwnJob(s: System, c: Client)
    requires SystemInv(s) && c in s.jobs && s.jobs[c].SurvivorRead? && s.jobs[c].op.Merge?
    ensures OnlyOwnJob(s, Moved(s, ReadConsumed(c)), c)
  {
    hide SubmitWith, Admissible;
    assert JobOk(s, c);
    var SurvivorRead(op, requestKey, survivor) := s.jobs[c];
    if op.consumed in s.world.tables.business.memories {
      SubmitChangesOwnJob(s, c, op, requestKey, TwoRows(survivor, s.world.tables.business.memories[op.consumed]));
    }
  }

  lemma MoveKeepsInv(s: System, m: Move)
    requires SystemInv(s)
    ensures SystemInv(Moved(s, m))
  {
    hide SystemInv, JobOk, Step, OnlyOwnJob, SubmitWith;
    match m
    case Protocol(c, action) =>
      if action.client == c && !action.Submit? {
        ProtocolKeepsInv(s, c, action);
      }
    case Begin(c, op, requestKey) =>
      if c !in s.jobs {
        BeginChangesOwnJob(s, c, op, requestKey);
        JobChangeKeepsInv(s, Moved(s, m), c);
      }
    case ReadConsumed(c) =>
      if c in s.jobs && s.jobs[c].SurvivorRead? && s.jobs[c].op.Merge? {
        ReadConsumedChangesOwnJob(s, c);
        JobChangeKeepsInv(s, Moved(s, m), c);
      }
  }

  lemma {:induction false} RunKeepsSystemInv(tables: Tables<MemoryTables>, moves: seq<Move>)
    ensures SystemInv(RunSystem(StartSystem(tables), moves))
  {
    if moves != [] {
      RunKeepsSystemInv(tables, moves[..|moves| - 1]);
      MoveKeepsInv(RunSystem(StartSystem(tables), moves[..|moves| - 1]), moves[|moves| - 1]);
    }
  }
}
