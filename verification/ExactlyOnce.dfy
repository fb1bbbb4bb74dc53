/**
  Any number of concurrent callers of the idempotent write, as a step system.  Each caller's pre-check,
  its write transaction and its re-check after a lost race are separate steps that interleave freely with
  those of the others; a write transaction commits atomically or not at all.
*/
module ExactlyOnce {
  import opened Basics
  import opened WriteProtocol

  type Client = Uuid

  datatype Request<!B, !R> = Request(audit: AuditEvent, event: OutboxEvent, work: Work<B, R>,
                                     resolve: Option<Resolver<B, R>>)
  {
    function Key(): string { event.idempotencyKey }
  }

  /** How a call ended: with its own write, with the object of an earlier write, or with an exception. */
  datatype Ending<R> = Written(result: R) | Replayed(aggregate: Uuid, value: R) | Threw(error: Error)

  datatype Phase<!B, !R> =
    | Checking(request: Request<B, R>)
    | Writing(request: Request<B, R>)
    | Rechecking(request: Request<B, R>)
    | Ended(request: Request<B, R>, ending: Ending<R>)
    | Abandoned(request: Request<B, R>)               // the caller died; its open transaction is gone

  /** One committed group: who wrote it, and the business tables around it. */
  datatype Commit<!B, !R> = Commit(client: Client, request: Request<B, R>, before: B, after: B, result: R)

  datatype World<!B, !R> = World(tables: Tables<B>, clients: map<Client, Phase<B, R>>, log: seq<Commit<B, R>>)

  datatype Action<!B, !R> =
    | Submit(client: Client, request: Request<B, R>)  // a new call, or the retry of an earlier one
    | Check(client: Client)
    | Write(client: Client)
    | Recheck(client: Client)
    | Abandon(client: Client)

  function Resolve<B, R>(w: World<B, R>, id: Uuid, request: Request<B, R>): Ending<R> {
    match Replay(w.tables, id, request.event, request.resolve)
    case Returned(v) => Replayed(id, v)
    case Raised(e) => Threw(e)
  }

  function SetPhase<B, R>(w: World<B, R>, c: Client, p: Phase<B, R>): World<B, R> {
    w.(clients := w.clients[c := p])
  }

  function DoWrite<B, R>(w: World<B, R>, c: Client, request: Request<B, R>): World<B, R> {
    match RunGroup(w.tables, request.work, request.audit, request.event)
    case Wrote(t, r) =>
      World(t, w.clients[c := Ended(request, Written(r))],
            w.log + [Commit(c, request, w.tables.business, t.business, r)])
    case Failed(e) =>
      if e == IntegrityError && request.resolve.Some? && request.Key() != "" then SetPhase(w, c, Rechecking(request))
      else SetPhase(w, c, Ended(request, Threw(e)))
  }

  /** One step; an action that is not enabled changes nothing. */
  function Step<B, R>(w: World<B, R>, a: Action<B, R>): World<B, R> {
    match a
    case Submit(c, request) =>
      if c in w.clients then w else SetPhase(w, c, Checking(request))
    case Check(c) =>
      if c in w.clients && w.clients[c].Checking? then
        var request := w.clients[c].request;
        match PreCheck(w.tables, request.event)
        case Some(id) => SetPhase(w, c, Ended(request, Resolve(w, id, request)))
        case None => SetPhase(w, c, Writing(request))
      else w
    case Write(c) =>
      if c in w.clients && w.clients[c].Writing? then DoWrite(w, c, w.clients[c].request) else w
    case Recheck(c) =>
      if c in w.clients && w.clients[c].Rechecking? then
        var request := w.clients[c].request;
        match PreCheck(w.tables, request.event)
        case Some(id) => SetPhase(w, c, Ended(request, Resolve(w, id, request)))
        case None => SetPhase(w, c, Ended(request, Threw(IntegrityError)))
      else w
    case Abandon(c) =>
      if c in w.clients && !w.clients[c].Ended? then SetPhase(w, c, Abandoned(w.clients[c].request)) else w
  }

  function Run<B, R>(w: World<B, R>, actions: seq<Action<B, R>>): World<B, R> {
    if actions == [] then w else Step(Run(w, actions[..|actions| - 1]), actions[|actions| - 1])
  }

  function Start<B, R>(tables: Tables<B>): World<B, R> {
    World(tables, map[], [])
  }

  // ---------------------------------------------------------------------------------
  // The invariant
  // ---------------------------------------------------------------------------------

  function LogEvents<B, R>(log: seq<Commit<B, R>>): (r: seq<OutboxEvent>)
    ensures |r| == |log|
    ensures forall i :: 0 <= i < |log| ==> r[i] == log[i].request.event
  {
    seq(|log|, i requires 0 <= i < |log| => log[i].request.event)
  }

  function LogAudits<B, R>(log: seq<Commit<B, R>>): (r: seq<AuditEvent>)
    ensures |r| == |log|
    ensures forall i :: 0 <= i < |log| ==> r[i] == log[i].request.audit
  {
    seq(|log|, i requires 0 <= i < |log| => log[i].request.audit)
  }

  /** Each group is its request's work applied to what the previous group left. */
  ghost predicate Chained<B, R>(start: B, log: seq<Commit<B, R>>, end: B) {
    && (forall i :: 0 <= i < |log| ==> log[i].request.work(log[i].before) == Wrote(log[i].after, log[i].result))
    && (forall i :: 0 < i < |log| ==> log[i].before == log[i - 1].after)
    && (if log == [] then end == start else log[0].before == start && log[|log| - 1].after == end)
  }

  /** The tables hold exactly the initial rows and those of the logged groups. */
  ghost predicate TablesAreLog<B, R>(start: Tables<B>, w: World<B, R>) {
    && Chained(start.business, w.log, w.tables.business)
    && w.tables.audits == start.audits + LogAudits(w.log)
    && w.tables.events == start.events + LogEvents(w.log)
    && UniqueKeys(w.tables.events)
  }

  /** There is an event with this key, type and aggregate. */
  predicate HasEvent(events: seq<OutboxEvent>, key: string, aggregateType: string, id: Uuid) {
    exists i :: 0 <= i < |events| && events[i].idempotencyKey == key
                && events[i].aggregateType == aggregateType && events[i].aggregateId == id
  }

  /** What a client's phase says about the log and the events. */
  ghost predicate ClientOk<B, R>(w: World<B, R>, c: Client)
    requires c in w.clients
  {
    match w.clients[c]
    case Ended(request, Written(r)) =>
      exists i :: 0 <= i < |w.log| && w.log[i].client == c && w.log[i].request == request && w.log[i].result == r
    case Ended(request, Replayed(id, v)) =>
      HasEvent(w.tables.events, request.Key(), request.event.aggregateType, id)
    case _ => true
  }

  ghost predicate HasWritten<B, R>(w: World<B, R>, c: Client) {
    c in w.clients && w.clients[c].Ended? && w.clients[c].ending.Written?
  }

  ghost predicate Inv<B, R>(start: Tables<B>, w: World<B, R>) {
    && TablesAreLog(start, w)
    && (forall c :: c in w.clients ==> ClientOk(w, c))
    && (forall i :: 0 <= i < |w.log| ==> HasWritten(w, w.log[i].client))
    && (forall i, j :: 0 <= i < j < |w.log| ==> w.log[i].client != w.log[j].client)
  }

  lemma ChainGrows<B, R>(start: B, log: seq<Commit<B, R>>, end: B, entry: Commit<B, R>)
    requires Chained(start, log, end) && entry.before == end
    requires entry.request.work(entry.before) == Wrote(entry.after, entry.result)
    ensures Chained(start, log + [entry], entry.after)
  {
    var log' := log + [entry];
    forall i | 0 < i < |log'| ensures log'[i].before == log'[i - 1].after {
      assert log'[i - 1] == log[i - 1];
      assert i < |log| ==> log'[i] == log[i];
    }
  }

  lemma CommitKeepsTables<B, R>(start: Tables<B>, w: World<B, R>, c: Client, request: Request<B, R>)
    requires TablesAreLog(start, w)
    requires RunGroup(w.tables, request.work, request.audit, request.event).Wrote?
    ensures TablesAreLog(start, DoWrite(w, c, request))
  {
    var w' := DoWrite(w, c, request);
    ChainGrows(start.business, w.log, w.tables.business, w'.log[|w.log|]);
    assert LogEvents(w'.log) == LogEvents(w.log) + [request.event];
    assert LogAudits(w'.log) == LogAudits(w.log) + [request.audit];
    assert w'.tables.events == start.events + LogEvents(w'.log);
    assert w'.tables.audits == start.audits + LogAudits(w'.log);
  }

  lemma PreCheckFinds<B>(t: Tables<B>, event: OutboxEvent)
    ensures PreCheck(t, event).Some? ==>
              HasEvent(t.events, event.idempotencyKey, event.aggregateType, PreCheck(t, event).value)
  {
    if PreCheck(t, event).Some? {
      var e :| e in t.events && e.idempotencyKey == event.idempotencyKey && e.aggregateType == event.aggregateType
               && e.aggregateId == PreCheck(t, event).value;
      var i :| 0 <= i < |t.events| && t.events[i] == e;
    }
  }

  lemma WriteKeepsInv<B, R>(start: Tables<B>, w: World<B, R>, c: Client)
    requires Inv(start, w) && c in w.clients && w.clients[c].Writing?
    ensures Inv(start, DoWrite(w, c, w.clients[c].request))
  {
    hide TablesAreLog;
    var request := w.clients[c].request;
    var w' := DoWrite(w, c, request);
    if RunGroup(w.tables, request.work, request.audit, request.event).Wrote? {
      CommitKeepsTables(start, w, c, request);
      assert w'.log[|w.log|].client == c;
      assert w'.tables.events[..|w.tables.events|] == w.tables.events;
      forall d | d in w'.clients ensures ClientOk(w', d) {
        if d != c {
          assert ClientOk(w, d);
          ClientStaysOk(w, w', d);
        }
      }
    } else {
      QuietStepKeepsInv(start, w, c, w'.clients[c]);
    }
  }

  lemma ClientStaysOk<B, R>(w: World<B, R>, w': World<B, R>, d: Client)
    requires d in w.clients && ClientOk(w, d) && d in w'.clients && w'.clients[d] == w.clients[d]
    requires w.log <= w'.log && w.tables.events <= w'.tables.events
    ensures ClientOk(w', d)
  {
    match w.clients[d]
    case Ended(request, Written(r)) =>
      var i :| 0 <= i < |w.log| && w.log[i].client == d && w.log[i].request == request && w.log[i].result == r;
      assert w'.log[i] == w.log[i];
    case Ended(request, Replayed(id, v)) =>
      var i :| 0 <= i < |w.tables.events| && w.tables.events[i].idempotencyKey == request.Key()
               && w.tables.events[i].aggregateType == request.event.aggregateType && w.tables.events[i].aggregateId == id;
      assert w'.tables.events[i] == w.tables.events[i];
    case _ =>
  }

  /** A step that only moves one unfinished client on. */
  lemma QuietStepKeepsInv<B, R>(start: Tables<B>, w: World<B, R>, c: Client, p: Phase<B, R>)
    requires Inv(start, w) && (c in w.clients ==> !w.clients[c].Ended?)
    requires p.Ended? && p.ending.Replayed? ==>
               HasEvent(w.tables.events, p.request.Key(), p.request.event.aggregateType, p.ending.aggregate)
    requires p.Ended? ==> !p.ending.Written?
    ensures Inv(start, SetPhase(w, c, p))
  {
    hide TablesAreLog, HasEvent;
    var w' := SetPhase(w, c, p);
    assert TablesAreLog(start, w') by { SameTables(start, w, w'); }
    forall d | d in w'.clients ensures ClientOk(w', d) {
      if d != c {
        assert ClientOk(w, d);
        ClientStaysOk(w, w', d);
      }
    }
    forall i | 0 <= i < |w'.log| ensures HasWritten(w', w'.log[i].client) {
      assert HasWritten(w, w.log[i].client);
    }
  }

  lemma SameTables<B, R>(start: Tables<B>, w: World<B, R>, w': World<B, R>)
    requires TablesAreLog(start, w) && w'.tables == w.tables && w'.log == w.log
    ensures TablesAreLog(start, w')
  {
  }

  lemma StepKeepsInv<B, R>(start: Tables<B>, w: World<B, R>, a: Action<B, R>)
    requires Inv(start, w)
    ensures Inv(start, Step(w, a))
  {
    hide Inv, HasEvent;
    var w' := Step(w, a);
    var c := a.client;
    if w' != w {
      match a
      case Write(_) => WriteKeepsInv(start, w, c);
      case Check(_) =>
        PreCheckFinds(w.tables, w.clients[c].request.event);
        QuietStepKeepsInv(start, w, c, w'.clients[c]);
      case Recheck(_) =>
        PreCheckFinds(w.tables, w.clients[c].request.event);
        QuietStepKeepsInv(start, w, c, w'.clients[c]);
      case _ => QuietStepKeepsInv(start, w, c, w'.clients[c]);
    }
  }

  lemma {:induction false} RunKeepsInv<B, R>(start: Tables<B>, actions: seq<Action<B, R>>)
    requires UniqueKeys(start.events)
    ensures Inv(start, Run(Start(start), actions))
  {
    if actions == [] {
      var w: World<B, R> := Start(start);
      assert start.events + LogEvents(w.log) == start.events;
      assert start.audits + LogAudits(w.log) == start.audits;
    } else {
      RunKeepsInv(start, actions[..|actions| - 1]);
      StepKeepsInv(start, Run(Start(start), actions[..|actions| - 1]), actions[|actions| - 1]);
    }
  }

  // ---------------------------------------------------------------------------------
  // The guarantees, for every run
  // ---------------------------------------------------------------------------------

  /** Over any run, no two committed groups share a key, and none reuses a key of the initial events. */
  lemma AtMostOneGroupPerKey<B, R>(start: Tables<B>, actions: seq<Action<B, R>>, i: nat, j: nat)
    requires UniqueKeys(start.events)
    requires i < |Run(Start(start), actions).log| && j < |Run(Start(start), actions).log|
    ensures var log := Run(Start(start), actions).log;
            && (log[i].request.Key() == log[j].request.Key() ==> i == j)
            && !KeyUsed(start.events, log[i].request.Key())
  {
    hide Run, Chained, ClientOk;
    RunKeepsInv(start, actions);
    var w := Run(Start(start), actions);
    assert w.tables.events[|start.events| + i] == w.log[i].request.event;
    assert w.tables.events[|start.events| + j] == w.log[j].request.event;
    assert forall k :: 0 <= k < |start.events| ==> w.tables.events[k] == start.events[k];
  }

  /** The group that carries a key, if one committed during the run. */
  ghost predicate IsGroupOf<B, R>(w: World<B, R>, key: string, i: nat) {
    i < |w.log| && w.log[i].request.Key() == key
  }

  lemma GroupInLog<B, R>(w: World<B, R>, c: Client, i: nat, j: nat)
    requires c in w.clients
    requires IsGroupOf(w, w.clients[c].request.Key(), i) && IsGroupOf(w, w.clients[c].request.Key(), j)
    ensures i < |w.log| && j < |w.log| && w.log[i].request.Key() == w.log[j].request.Key()
  {
  }

  /** The event at position k is an initial one or that of a logged group. */
  lemma EventOrigin<B, R>(start: Tables<B>, w: World<B, R>, k: nat)
    requires TablesAreLog(start, w) && k < |w.tables.events|
    ensures k < |start.events| ==> w.tables.events[k] == start.events[k]
    ensures k >= |start.events| ==> k - |start.events| < |w.log|
                                    && w.tables.events[k] == w.log[k - |start.events|].request.event
  {
  }

  lemma GroupOfReturn<B, R>(start: Tables<B>, w: World<B, R>, c: Client) returns (i: nat)
    requires Inv(start, w)
    requires c in w.clients && w.clients[c].Ended? && !w.clients[c].ending.Threw?
    requires !KeyUsed(start.events, w.clients[c].request.Key())
    ensures var Ended(request, ending) := w.clients[c];
            && IsGroupOf(w, request.Key(), i)
            && w.log[i].request.event.aggregateType == request.event.aggregateType
            && match ending
               case Written(r) => w.log[i].client == c && w.log[i].request == request && w.log[i].result == r
               case Replayed(id, _) => w.log[i].request.event.aggregateId == id
  {
    hide TablesAreLog, HasWritten;
    var Ended(request, ending) := w.clients[c];
    assert ClientOk(w, c);
    match ending {
      case Written(r) =>
        i :| 0 <= i < |w.log| && w.log[i].client == c && w.log[i].request == request && w.log[i].result == r;
      case Replayed(id, v) =>
        var k :| 0 <= k < |w.tables.events| && w.tables.events[k].idempotencyKey == request.Key()
                 && w.tables.events[k].aggregateType == request.event.aggregateType && w.tables.events[k].aggregateId == id;
        EventOrigin(start, w, k);
        i := k - |start.events|;
    }
  }

  /**
    Exactly-once effect: when a call with a fresh non-empty key returns normally, precisely one group with
    that key has committed, it has the call's aggregate type, and the call returned either that group's own
    result (if it wrote it) or the object of that group's aggregate id.
    */
  lemma NormalReturnMeansOneGroup<B, R>(start: Tables<B>, actions: seq<Action<B, R>>, c: Client) returns (i: nat)
    requires UniqueKeys(start.events)
    requires var w := Run(Start(start), actions);
             c in w.clients && w.clients[c].Ended? && !w.clients[c].ending.Threw?
             && !KeyUsed(start.events, w.clients[c].request.Key())
    ensures var w := Run(Start(start), actions);
            var Ended(request, ending) := w.clients[c];
            && IsGroupOf(w, request.Key(), i)
            && (forall j: nat :: IsGroupOf(w, request.Key(), j) ==> j == i)
            && w.log[i].request.event.aggregateType == request.event.aggregateType
            && match ending
               case Written(r) => w.log[i].client == c && w.log[i].request == request && w.log[i].result == r
               case Replayed(id, _) => w.log[i].request.event.aggregateId == id
  {
    hide Run, Inv, IsGroupOf;
    RunKeepsInv(start, actions);
    i := GroupOfReturn(start, Run(Start(start), actions), c);
    forall j: nat | IsGroupOf(Run(Start(start), actions), Run(Start(start), actions).clients[c].request.Key(), j) ensures j == i {
      GroupInLog(Run(Start(start), actions), c, i, j);
      AtMostOneGroupPerKey(start, actions, i, j);
    }
  }

  lemma EventOfGroup<B, R>(start: Tables<B>, w: World<B, R>, i: nat)
    requires TablesAreLog(start, w) && i < |w.log|
    ensures w.log[i].request.event in w.tables.events
  {
    assert w.tables.events[|start.events| + i] == w.log[i].request.event;
  }

  lemma SameKeySameEvent<B, R>(start: Tables<B>, w: World<B, R>, e: OutboxEvent, f: OutboxEvent)
    requires TablesAreLog(start, w) && e in w.tables.events && f in w.tables.events
    requires e.idempotencyKey == f.idempotencyKey
    ensures e == f
  {
  }

  /** A call that returned normally has an event of its own key and type in the table. */
  lemma ReturnHasEvent<B, R>(start: Tables<B>, w: World<B, R>, c: Client) returns (e: OutboxEvent)
    requires Inv(start, w)
    requires c in w.clients && w.clients[c].Ended? && !w.clients[c].ending.Threw?
    ensures e in w.tables.events && e.idempotencyKey == w.clients[c].request.Key()
    ensures e.aggregateType == w.clients[c].request.event.aggregateType
  {
    hide TablesAreLog, HasWritten;
    var Ended(request, ending) := w.clients[c];
    assert ClientOk(w, c);
    match ending {
      case Written(r) =>
        var i :| 0 <= i < |w.log| && w.log[i].client == c && w.log[i].request == request && w.log[i].result == r;
        EventOfGroup(start, w, i);
        e := request.event;
      case Replayed(id, v) =>
        var k :| 0 <= k < |w.tables.events| && w.tables.events[k].idempotencyKey == request.Key()
                 && w.tables.events[k].aggregateType == request.event.aggregateType && w.tables.events[k].aggregateId == id;
        e := w.tables.events[k];
    }
  }

  /**
    A call whose key is taken by an event of another aggregate type never returns normally, and never
    writes: it ends, if it ends, with an exception, and the log holds nothing of it.
    */
  lemma OtherTypeThrows<B, R>(start: Tables<B>, actions: seq<Action<B, R>>, c: Client, e: OutboxEvent)
    requires UniqueKeys(start.events)
    requires var w := Run(Start(start), actions);
             && c in w.clients && e in w.tables.events
             && e.idempotencyKey == w.clients[c].request.Key()
             && e.aggregateType != w.clients[c].request.event.aggregateType
    ensures var w := Run(Start(start), actions);
            && (w.clients[c].Ended? ==> w.clients[c].ending.Threw?)
            && forall i :: 0 <= i < |w.log| ==> w.log[i].client != c
  {
    hide Run, TablesAreLog, ClientOk;
    RunKeepsInv(start, actions);
    var w := Run(Start(start), actions);
    if w.clients[c].Ended? && !w.clients[c].ending.Threw? {
      var f := ReturnHasEvent(start, w, c);
      SameKeySameEvent(start, w, e, f);
    }
    forall i | 0 <= i < |w.log| ensures w.log[i].client != c {
      assert HasWritten(w, w.log[i].client);
    }
  }

  /** What a replaying call returned is what `resolve_existing` gave at some moment of the run. */
  lemma {:induction false} ReplayedIsResolved<B, R>(start: Tables<B>, actions: seq<Action<B, R>>, c: Client) returns (n: nat)
    requires var w := Run(Start(start), actions);
             c in w.clients && w.clients[c].Ended? && w.clients[c].ending.Replayed?
    ensures n < |actions|
    ensures var Ended(request, Replayed(id, v)) := Run(Start(start), actions).clients[c];
            && request.resolve.Some?
            && request.resolve.value(Run(Start(start), actions[..n]).tables.business, id) == Returned(v)
  {
    var before := Run(Start(start), actions[..|actions| - 1]);
    if c in before.clients && before.clients[c].Ended? {
      n := ReplayedIsResolved(start, actions[..|actions| - 1], c);
      assert actions[..|actions| - 1][..n] == actions[..n];
    } else {
      n := |actions| - 1;
    }
  }

  /** The business tables are the initial ones with each committed group's work applied once, in commit order. */
  lemma EffectIsTheLog<B, R>(start: Tables<B>, actions: seq<Action<B, R>>)
    requires UniqueKeys(start.events)
    ensures var w := Run(Start(start), actions);
            && Chained(start.business, w.log, w.tables.business)
            && w.tables.events == start.events + LogEvents(w.log)
            && w.tables.audits == start.audits + LogAudits(w.log)
  {
    RunKeepsInv(start, actions);
  }

  /**
    Whether a call that returned normally was applied: it was exactly if a committed group is its own; and when
    its key was fresh, exactly if the one group that carries its key is.
    */
  lemma AppliedInRun<B, R>(start: Tables<B>, actions: seq<Action<B, R>>, c: Client)
    requires UniqueKeys(start.events)
    requires var w := Run(Start(start), actions);
             c in w.clients && w.clients[c].Ended? && !w.clients[c].ending.Threw?
    ensures var w := Run(Start(start), actions);
            && (w.clients[c].ending.Written? <==> exists i :: 0 <= i < |w.log| && w.log[i].client == c)
            && (!KeyUsed(start.events, w.clients[c].request.Key()) ==>
                  exists i: nat :: IsGroupOf(w, w.clients[c].request.Key(), i)
                                   && (w.clients[c].ending.Written? <==> w.log[i].client == c))
  {
    hide Run, TablesAreLog;
    RunKeepsInv(start, actions);
    var w := Run(Start(start), actions);
    assert ClientOk(w, c);
    forall i | 0 <= i < |w.log| && w.log[i].client == c ensures w.clients[c].ending.Written? {
      assert HasWritten(w, w.log[i].client);
    }
    if !KeyUsed(start.events, w.clients[c].request.Key()) {
      var i := NormalReturnMeansOneGroup(start, actions, c);
      assert IsGroupOf(w, w.clients[c].request.Key(), i);
    }
  }

  // ---------------------------------------------------------------------------------
  // The steps of one client are the code of one caller
  // ---------------------------------------------------------------------------------

  function OutcomeOf<R>(e: Ending<R>): Outcome<R> {
    match e
    case Written(r) => Returned(r)
    case Replayed(_, v) => Returned(v)
    case Threw(error) => Raised(error)
  }

  /** A client has ended as the step-wise specification of the caller says. */
  predicate EndedAs<B(==), R(==)>(w: World<B, R>, c: Client, expected: (Tables<B>, Outcome<R>)) {
    c in w.clients && w.clients[c].Ended? && (w.tables, OutcomeOf(w.clients[c].ending)) == expected
  }

  /**
    A client checks in w1, writes in w2 and re-checks in w3, where others have moved in between: it ends, after
    the step at which the caller's code ends, with that code's outcome and leaves the tables it leaves.
    */
  lemma StepsAreTheCaller<B, R>(w1: World<B, R>, w2: World<B, R>, w3: World<B, R>, c: Client)
    requires c in w1.clients && w1.clients[c].Checking?
    requires c in w2.clients && w2.clients[c] == Step(w1, Check(c)).clients[c]
    requires c in w3.clients && w3.clients[c] == Step(w2, Write(c)).clients[c]
    ensures var request := w1.clients[c].request;
            var expected := WriteAmidOthers(w1.tables, w2.tables, w3.tables, request.work, request.audit, request.event, request.resolve);
            var checked, written, rechecked := Step(w1, Check(c)), Step(w2, Write(c)), Step(w3, Recheck(c));
            EndedAs(if checked.clients[c].Ended? then checked else if written.clients[c].Ended? then written else rechecked, c, expected)
  {
    hide PreCheck, RunGroup;
    var request := w1.clients[c].request;
    match PreCheck(w1.tables, request.event)
    case Some(id) =>
    case None =>
      match RunGroup(w2.tables, request.work, request.audit, request.event)
      case Wrote(_, _) =>
      case Failed(e) =>
  }
}
