/**
  The usage limiter: limits with sliding windows, checked against the committed rows of budget_tracking.
  Money is exact (float rounding is not modelled) and time is in seconds.
*/
module Budget {
  import opened Basics

  datatype Subject = Subject(kind: string, id: Uuid)

  datatype Scope = Scope(capability: Option<Uuid>, provider: Option<Uuid>, project: Option<Uuid>)

  datatype Limit = Limit(
    id: Uuid, subject: Subject, scope: Scope, limitScope: string, windowUnit: string,
    maxRequests: Option<nat>, maxInputTokens: Option<nat>, maxOutputTokens: Option<nat>, maxTotalTokens: Option<nat>,
    maxCost: Option<real>, blockThreshold: Option<real>, enabled: bool)

  datatype ReservationState = Reserved | Committed | Released | Denied

  /** committed_cost and released_cost are NOT NULL DEFAULT 0. */
  datatype Row = Row(
    id: Uuid, subject: Subject, scope: Scope, state: ReservationState,
    estimatedInput: Option<nat>, estimatedOutput: Option<nat>, actualInput: Option<nat>, actualOutput: Option<nat>,
    reservedCost: real, committedCost: real, releasedCost: real, deniedReason: Option<string>, createdAt: int)

  datatype Call = Call(subject: Subject, scope: Scope, estimatedCost: real)

  datatype Usage = Usage(requests: nat, input: nat, output: nat, total: nat, cost: real)

  datatype Denial = Blocked | TooManyRequests | TooMuchInput | TooMuchOutput | TooManyTokens | TooExpensive

  // ---------------------------------------------------------------------------------
  // Windows, matching, aggregation
  // ---------------------------------------------------------------------------------

  function LowerChar(c: char): char {
    if 'A' <= c <= 'Z' then (c as int + 32) as char else c
  }

  function Lower(s: string): string {
    seq(|s|, i requires 0 <= i < |s| => LowerChar(s[i]))
  }

  /** Length of the window; anything unknown (or empty) counts as a day. */
  function WindowSeconds(unit: string): int {
    var u := Lower(unit);
    if u == "minute" then 60
    else if u == "hour" then 3600
    else if u == "month" then 30 * 86400
    else 86400
  }

  function WindowStart(now: int, unit: string): int { now - WindowSeconds(unit) }

  /** `(:x IS NULL OR column IS NULL OR column = :x)` */
  predicate Compatible(limit: Option<Uuid>, call: Option<Uuid>) {
    call.None? || limit.None? || limit == call
  }

  predicate ExactSubject(l: Limit, s: Subject) { l.subject == s }

  predicate Applies(l: Limit, s: Subject) {
    ExactSubject(l, s) || (l.subject.kind == "project" && l.limitScope == "global")
  }

  predicate Matches(l: Limit, c: Call) {
    && l.enabled && Applies(l, c.subject)
    && Compatible(l.scope.capability, c.scope.capability)
    && Compatible(l.scope.provider, c.scope.provider)
    && Compatible(l.scope.project, c.scope.project)
  }

  /** `(:x IS NULL OR column = :x)`, with the limit's own value for :x. */
  predicate Narrowed(limit: Option<Uuid>, row: Option<Uuid>) {
    limit.None? || limit == row
  }

  /** A scope the limit's aggregate looks at. */
  predicate Covers(l: Limit, s: Scope) {
    && Narrowed(l.scope.capability, s.capability)
    && Narrowed(l.scope.provider, s.provider)
    && Narrowed(l.scope.project, s.project)
  }

  predicate Counted(l: Limit, s: Subject, start: int, r: Row) {
    r.state == Committed && r.createdAt >= start && r.subject == s && Covers(l, r.scope)
  }

  function OrZero(a: Option<nat>, b: Option<nat>): nat {
    if a.Some? then a.value else if b.Some? then b.value else 0
  }

  function Aggregate(rows: seq<Row>, l: Limit, s: Subject, start: int): Usage {
    if rows == [] then Usage(0, 0, 0, 0, 0.0)
    else
      var u, r := Aggregate(rows[..|rows| - 1], l, s, start), rows[|rows| - 1];
      if Counted(l, s, start, r) then
        var i, o := OrZero(r.actualInput, r.estimatedInput), OrZero(r.actualOutput, r.estimatedOutput);
        Usage(u.requests + 1, u.input + i, u.output + o, u.total + i + o,
              u.cost + r.committedCost)
      else u
  }

  /** The four things counted against limits of whole numbers. */
  datatype Measure = Requests | InputTokens | OutputTokens | TotalTokens

  function AmountIn(m: Measure, u: Usage): nat {
    match m
    case Requests => u.requests
    case InputTokens => u.input
    case OutputTokens => u.output
    case TotalTokens => u.total
  }

  function MaximumOf(m: Measure, l: Limit): Option<nat> {
    match m
    case Requests => l.maxRequests
    case InputTokens => l.maxInputTokens
    case OutputTokens => l.maxOutputTokens
    case TotalTokens => l.maxTotalTokens
  }

  /** What one counted row contributes. */
  function AmountOf(m: Measure, r: Row): nat {
    match m
    case Requests => 1
    case InputTokens => OrZero(r.actualInput, r.estimatedInput)
    case OutputTokens => OrZero(r.actualOutput, r.estimatedOutput)
    case TotalTokens => OrZero(r.actualInput, r.estimatedInput) + OrZero(r.actualOutput, r.estimatedOutput)
  }

  /** The measures on the fields: amounts actually used, else those estimated, else none. */
  lemma MeasuresExact(u: Usage, l: Limit, r: Row)
    ensures AmountIn(Requests, u) == u.requests && MaximumOf(Requests, l) == l.maxRequests && AmountOf(Requests, r) == 1
    ensures AmountIn(InputTokens, u) == u.input && MaximumOf(InputTokens, l) == l.maxInputTokens
    ensures AmountIn(OutputTokens, u) == u.output && MaximumOf(OutputTokens, l) == l.maxOutputTokens
    ensures AmountIn(TotalTokens, u) == u.total && MaximumOf(TotalTokens, l) == l.maxTotalTokens
    ensures AmountOf(TotalTokens, r) == AmountOf(InputTokens, r) + AmountOf(OutputTokens, r)
    ensures (r.actualInput.Some? ==> AmountOf(InputTokens, r) == r.actualInput.value)
         && (r.actualInput.None? && r.estimatedInput.Some? ==> AmountOf(InputTokens, r) == r.estimatedInput.value)
         && (r.actualInput.None? && r.estimatedInput.None? ==> AmountOf(InputTokens, r) == 0)
    ensures (r.actualOutput.Some? ==> AmountOf(OutputTokens, r) == r.actualOutput.value)
         && (r.actualOutput.None? && r.estimatedOutput.Some? ==> AmountOf(OutputTokens, r) == r.estimatedOutput.value)
         && (r.actualOutput.None? && r.estimatedOutput.None? ==> AmountOf(OutputTokens, r) == 0)
  {
  }

  predicate AtLeast(n: nat, bound: Option<nat>) { bound.Some? && n >= bound.value }

  predicate Exceeds(cost: real, bound: Option<real>) { bound.Some? && cost > bound.value }

  /** The checks of one limit, most severe first. */
  function Verdict(l: Limit, u: Usage, estimate: real): Option<Denial> {
    if Exceeds(u.cost + estimate, l.blockThreshold) then Some(Blocked)
    else if AtLeast(u.requests, l.maxRequests) then Some(TooManyRequests)
    else if AtLeast(u.input, l.maxInputTokens) then Some(TooMuchInput)
    else if AtLeast(u.output, l.maxOutputTokens) then Some(TooMuchOutput)
    else if AtLeast(u.total, l.maxTotalTokens) then Some(TooManyTokens)
    else if Exceeds(u.cost + estimate, l.maxCost) then Some(TooExpensive)
    else None
  }

  function VerdictNow(l: Limit, rows: seq<Row>, now: int, c: Call): Option<Denial> {
    Verdict(l, Aggregate(rows, l, c.subject, WindowStart(now, l.windowUnit)), c.estimatedCost)
  }

  /** The matching limits whose subject is (or is not) the caller itself, in order of creation. */
  function MatchingGroup(limits: seq<Limit>, c: Call, own: bool): (r: seq<Limit>)
    ensures forall l :: l in r <==> l in limits && Matches(l, c) && ExactSubject(l, c.subject) == own
  {
    if limits == [] then []
    else
      var init, last := MatchingGroup(limits[..|limits| - 1], c, own), limits[|limits| - 1];
      assert limits == limits[..|limits| - 1] + [last];
      if Matches(last, c) && ExactSubject(last, c.subject) == own then init + [last] else init
  }

  /** ORDER BY: the caller's own limits first, then the global ones, each group in order of creation. */
  function MatchingLimits(limits: seq<Limit>, c: Call): (r: seq<Limit>)
    ensures forall l :: l in r <==> l in limits && Matches(l, c)
  {
    MatchingGroup(limits, c, true) + MatchingGroup(limits, c, false)
  }

  // ---------------------------------------------------------------------------------
  // The code
  // ---------------------------------------------------------------------------------

  class BudgetStore {
    var rows: seq<Row>
    /** In order of creation. */
    var limits: seq<Limit>

    constructor (limits: seq<Limit>)
      ensures rows == [] && this.limits == limits
    {
      rows, this.limits := [], limits;
    }

    method MatchLimits(c: Call) returns (matching: seq<Limit>)
      ensures matching == MatchingLimits(limits, c)
    {
      var own: seq<Limit>, others: seq<Limit> := [], [];
      var i := 0;
      while i < |limits|
        invariant 0 <= i <= |limits|
        invariant own == MatchingGroup(limits[..i], c, true) && others == MatchingGroup(limits[..i], c, false)
      {
        assert limits[..i + 1][..i] == limits[..i];
        if Matches(limits[i], c) {
          if ExactSubject(limits[i], c.subject) {
            own := own + [limits[i]];
          } else {
            others := others + [limits[i]];
          }
        }
        i := i + 1;
      }
      assert limits[..i] == limits;
      matching := own + others;
    }

    /**
      Each limit's usage is read in a session of its own, and others may commit in between: tables[k] is what
      the k-th reading finds.  A call passes exactly if every matching limit lets it pass; else the first
      refusing limit is given with its reason.
      */
    method CheckBudgetAllow(c: Call, now: int, tables: seq<seq<Row>>) returns (allowed: bool, reason: Option<(Limit, Denial)>)
      requires |tables| == |MatchingLimits(limits, c)|
      ensures var matching := MatchingLimits(limits, c);
              && (allowed <==> forall k :: 0 <= k < |matching| ==> VerdictNow(matching[k], tables[k], now, c).None?)
              && (allowed <==> reason.None?)
              && (reason.Some? ==> exists k :: 0 <= k < |matching| && RefusesFirst(matching, tables, now, c, k, reason.value))
    {
      var matching := MatchLimits(c);
      var i := 0;
      while i < |matching|
        invariant 0 <= i <= |matching|
        invariant forall k :: 0 <= k < i ==> VerdictNow(matching[k], tables[k], now, c).None?
      {
        var l := matching[i];
        var usage := Aggregate(tables[i], l, c.subject, WindowStart(now, l.windowUnit));
        var verdict := Verdict(l, usage, c.estimatedCost);
        if verdict.Some? {
          assert RefusesFirst(matching, tables, now, c, i, (l, verdict.value));
          return false, Some((l, verdict.value));
        }
        i := i + 1;
      }
      return true, None;
    }

    /** A reservation is invisible to every check: no limit's usage changes. */
    method ReserveBudget(id: Uuid, c: Call, estimatedInput: Option<nat>, estimatedOutput: Option<nat>, now: int)
      modifies this`rows
      ensures |rows| == |old(rows)| + 1 && rows[..|old(rows)|] == old(rows)
      ensures rows[|old(rows)|] == Row(id, c.subject, c.scope, Reserved, estimatedInput, estimatedOutput, None, None,
                                       c.estimatedCost, 0.0, 0.0, None, now)
      ensures forall l, s, start :: Aggregate(rows, l, s, start) == Aggregate(old(rows), l, s, start)
    {
      rows := rows + [NewReservation(id, c, estimatedInput, estimatedOutput, now)];
      assert rows[..|rows| - 1] == old(rows);
    }

    /** UPDATE ... WHERE budget_tracking_id = :id AND reservation_state = :expected */
    method TransitionBudgetState(id: Uuid, newState: ReservationState, expected: ReservationState,
                                 actualInput: Option<nat>, actualOutput: Option<nat>, committedCost: Option<real>,
                                 releasedCost: Option<real>, deniedReason: Option<string>)
      returns (changed: bool)
      modifies this`rows
      ensures changed <==> exists i :: 0 <= i < |old(rows)| && old(rows)[i].id == id && old(rows)[i].state == expected
      ensures |rows| == |old(rows)|
      ensures forall i :: 0 <= i < |rows| && old(rows)[i].id == id && old(rows)[i].state == expected ==>
                var r := old(rows)[i];
                rows[i] == Row(r.id, r.subject, r.scope, newState, r.estimatedInput, r.estimatedOutput,
                               if actualInput.None? then r.actualInput else actualInput,
                               if actualOutput.None? then r.actualOutput else actualOutput, r.reservedCost,
                               if committedCost.None? then r.committedCost else committedCost.value,
                               if releasedCost.None? then r.releasedCost else releasedCost.value,
                               if deniedReason.None? then r.deniedReason else deniedReason, r.createdAt)
      ensures forall i :: 0 <= i < |rows| && !(old(rows)[i].id == id && old(rows)[i].state == expected) ==>
                rows[i] == old(rows)[i]
      ensures expected == Reserved ==>
                CountsTransition(old(rows), rows, id, newState, actualInput, actualOutput, committedCost)
    {
      hide CountsTransition;
      changed := false;
      var i := 0;
      while i < |rows|
        invariant 0 <= i <= |rows| == |old(rows)|
        invariant changed <==> exists k :: 0 <= k < i && old(rows)[k].id == id && old(rows)[k].state == expected
        invariant forall k :: 0 <= k < i && old(rows)[k].id == id && old(rows)[k].state == expected ==>
                    rows[k] == Settled(old(rows)[k], newState, actualInput, actualOutput, committedCost, releasedCost, deniedReason)
        invariant forall k :: 0 <= k < i && !(old(rows)[k].id == id && old(rows)[k].state == expected) ==>
                    rows[k] == old(rows)[k]
        invariant forall k :: i <= k < |rows| ==> rows[k] == old(rows)[k]
      {
        if rows[i].id == id && rows[i].state == expected {
          rows := rows[i := Settled(rows[i], newState, actualInput, actualOutput, committedCost, releasedCost, deniedReason)];
          changed := true;
        }
        i := i + 1;
      }
      if expected == Reserved {
        TransitionCounts(old(rows), rows, id, newState, actualInput, actualOutput, committedCost, releasedCost, deniedReason);
      }
    }
  }

  function NewReservation(id: Uuid, c: Call, estimatedInput: Option<nat>, estimatedOutput: Option<nat>, now: int): Row {
    Row(id, c.subject, c.scope, Reserved, estimatedInput, estimatedOutput, None, None, c.estimatedCost, 0.0, 0.0, None, now)
  }

  /** The k-th limit is the first whose reading refuses the call. */
  ghost predicate RefusesFirst(matching: seq<Limit>, tables: seq<seq<Row>>, now: int, c: Call, k: nat, refusal: (Limit, Denial))
    requires k < |matching| == |tables|
  {
    && refusal.0 == matching[k] && VerdictNow(matching[k], tables[k], now, c) == Some(refusal.1)
    && forall i :: 0 <= i < k ==> VerdictNow(matching[i], tables[i], now, c).None?
  }

  function Given<T>(a: Option<T>, b: T): T { if a.Some? then a.value else b }

  /** COALESCE(:new, old) on the amounts and the reason. */
  function Settled(r: Row, newState: ReservationState, actualInput: Option<nat>, actualOutput: Option<nat>,
                   committedCost: Option<real>, releasedCost: Option<real>, deniedReason: Option<string>): Row
  {
    r.(state := newState,
       actualInput := if actualInput.Some? then actualInput else r.actualInput,
       actualOutput := if actualOutput.Some? then actualOutput else r.actualOutput,
       committedCost := Given(committedCost, r.committedCost),
       releasedCost := Given(releasedCost, r.releasedCost),
       deniedReason := if deniedReason.Some? then deniedReason else r.deniedReason)
  }

  // ---------------------------------------------------------------------------------
  // Matching and verdicts, on the fields
  // ---------------------------------------------------------------------------------

  /** s spells the lower-case word w, in any mixture of cases. */
  ghost predicate Spells(s: string, w: string) {
    |s| == |w| && forall i :: 0 <= i < |s| ==> s[i] == w[i] || ('A' <= s[i] <= 'Z' && s[i] as int + 32 == w[i] as int)
  }

  /** A window is a minute, an hour, thirty days or, whatever else is said, a day. */
  lemma WindowStartExact(now: int, unit: string)
    ensures now - WindowStart(now, unit)
         == if Spells(unit, "minute") then 60
            else if Spells(unit, "hour") then 3600
            else if Spells(unit, "month") then 2592000
            else 86400
  {
    LowerSpells(unit, "minute");
    LowerSpells(unit, "hour");
    LowerSpells(unit, "month");
  }

  lemma LowerSpells(s: string, w: string)
    requires forall i :: 0 <= i < |w| ==> 'a' <= w[i] <= 'z'
    ensures Lower(s) == w <==> Spells(s, w)
  {
    if Spells(s, w) {
      assert forall i :: 0 <= i < |s| ==> Lower(s)[i] == w[i];
    }
    if Lower(s) == w {
      assert forall i :: 0 <= i < |s| ==> Lower(s)[i] == w[i];
    }
  }

  /**
    Which limits bear on a call: the enabled ones of its own subject and the global ones of any project, unless
    limit and call name different capabilities, providers or projects.
    */
  lemma MatchesExactly(l: Limit, c: Call)
    ensures Matches(l, c) <==> (
              && l.enabled
              && ((l.subject.kind == c.subject.kind && l.subject.id == c.subject.id)
                  || (l.subject.kind == "project" && l.limitScope == "global"))
              && (l.scope.capability.Some? && c.scope.capability.Some? ==> l.scope.capability.value == c.scope.capability.value)
              && (l.scope.provider.Some? && c.scope.provider.Some? ==> l.scope.provider.value == c.scope.provider.value)
              && (l.scope.project.Some? && c.scope.project.Some? ==> l.scope.project.value == c.scope.project.value))
  {
  }

  lemma {:induction false} MatchingGroupOrder(limits: seq<Limit>, c: Call, own: bool, a: nat, b: nat) returns (m: nat, n: nat)
    requires a < b < |MatchingGroup(limits, c, own)|
    ensures m < n < |limits|
    ensures limits[m] == MatchingGroup(limits, c, own)[a] && limits[n] == MatchingGroup(limits, c, own)[b]
  {
    var init := limits[..|limits| - 1];
    if b < |MatchingGroup(init, c, own)| {
      m, n := MatchingGroupOrder(init, c, own, a, b);
    } else {
      assert MatchingGroup(init, c, own)[a] in init;
      m :| 0 <= m < |init| && init[m] == MatchingGroup(init, c, own)[a];
      n := |init|;
    }
  }

  /** Matching limits are checked the caller's own first, then the others, each kind in order of creation. */
  lemma MatchingLimitsOrder(limits: seq<Limit>, c: Call, a: nat, b: nat) returns (m: nat, n: nat)
    requires a < b < |MatchingLimits(limits, c)|
    ensures m < |limits| && n < |limits| && m != n
    ensures limits[m] == MatchingLimits(limits, c)[a] && limits[n] == MatchingLimits(limits, c)[b]
    ensures limits[n].subject == c.subject ==> limits[m].subject == c.subject
    ensures (limits[m].subject == c.subject <==> limits[n].subject == c.subject) ==> m < n
  {
    var own, others := MatchingGroup(limits, c, true), MatchingGroup(limits, c, false);
    if b < |own| {
      m, n := MatchingGroupOrder(limits, c, true, a, b);
      assert own[a] == limits[m] && own[a] in own && own[b] in own;
    } else if a < |own| {
      assert own[a] in own && others[b - |own|] in others;
      m :| 0 <= m < |limits| && limits[m] == own[a];
      n :| 0 <= n < |limits| && limits[n] == others[b - |own|];
    } else {
      m, n := MatchingGroupOrder(limits, c, false, a - |own|, b - |own|);
      assert others[a - |own|] in others && others[b - |own|] in others;
    }
  }

  /** A limit lets a call pass exactly if what is counted is below each maximum and the cost, with the estimate, within both bounds. */
  lemma AllowedExactly(l: Limit, rows: seq<Row>, now: int, c: Call)
    ensures var u := Aggregate(rows, l, c.subject, WindowStart(now, l.windowUnit));
            VerdictNow(l, rows, now, c).None? <==> (
              && (l.maxRequests.Some? ==> u.requests < l.maxRequests.value)
              && (l.maxInputTokens.Some? ==> u.input < l.maxInputTokens.value)
              && (l.maxOutputTokens.Some? ==> u.output < l.maxOutputTokens.value)
              && (l.maxTotalTokens.Some? ==> u.total < l.maxTotalTokens.value)
              && (l.maxCost.Some? ==> u.cost + c.estimatedCost <= l.maxCost.value)
              && (l.blockThreshold.Some? ==> u.cost + c.estimatedCost <= l.blockThreshold.value))
  {
  }

  /** Which reason a refusal gives: the most severe bound that is violated. */
  lemma ReasonExactly(l: Limit, rows: seq<Row>, now: int, c: Call)
    ensures var u := Aggregate(rows, l, c.subject, WindowStart(now, l.windowUnit));
            var blocked := l.blockThreshold.Some? && l.blockThreshold.value < u.cost + c.estimatedCost;
            var requests := l.maxRequests.Some? && l.maxRequests.value <= u.requests;
            var input := l.maxInputTokens.Some? && l.maxInputTokens.value <= u.input;
            var output := l.maxOutputTokens.Some? && l.maxOutputTokens.value <= u.output;
            var total := l.maxTotalTokens.Some? && l.maxTotalTokens.value <= u.total;
            var cost := l.maxCost.Some? && l.maxCost.value < u.cost + c.estimatedCost;
            var verdict := VerdictNow(l, rows, now, c);
            && (blocked <==> verdict == Some(Blocked))
            && (!blocked && requests <==> verdict == Some(TooManyRequests))
            && (!blocked && !requests && input <==> verdict == Some(TooMuchInput))
            && (!blocked && !requests && !input && output <==> verdict == Some(TooMuchOutput))
            && (!blocked && !requests && !input && !output && total <==> verdict == Some(TooManyTokens))
            && (!blocked && !requests && !input && !output && !total && cost <==> verdict == Some(TooExpensive))
  {
  }

  // ---------------------------------------------------------------------------------
  // What one call adds to a usage
  // ---------------------------------------------------------------------------------

  /** The k-th row is the one with the id, which is the primary key. */
  ghost predicate IsOnly(rows: seq<Row>, k: int, id: Uuid) {
    && 0 <= k < |rows| && rows[k].id == id
    && forall i :: 0 <= i < |rows| && i != k ==> rows[i].id != id
  }

  /**
    The usage after a reserved row is committed with the given amounts.  If the limit's aggregate looks at the
    row, its usage grows by one call, by the amounts given (else those stored, else the estimates, else nothing)
    and by the cost given (else the one stored); otherwise it stays as it was.
    */
  ghost predicate AddsCall(r: Row, actualInput: Option<nat>, actualOutput: Option<nat>, cost: Option<real>,
                           l: Limit, s: Subject, start: int, before: Usage, after: Usage)
  {
    if r.subject == s && r.createdAt >= start
       && (l.scope.capability.None? || r.scope.capability == l.scope.capability)
       && (l.scope.provider.None? || r.scope.provider == l.scope.provider)
       && (l.scope.project.None? || r.scope.project == l.scope.project)
    then
      var i := if actualInput.Some? then actualInput.value
               else if r.actualInput.Some? then r.actualInput.value
               else if r.estimatedInput.Some? then r.estimatedInput.value
               else 0;
      var o := if actualOutput.Some? then actualOutput.value
               else if r.actualOutput.Some? then r.actualOutput.value
               else if r.estimatedOutput.Some? then r.estimatedOutput.value
               else 0;
      var c := if cost.Some? then cost.value else r.committedCost;
      after == Usage(before.requests + 1, before.input + i, before.output + o, before.total + i + o, before.cost + c)
    else after == before
  }

  /** A transition of the one reserved row with the id adds the call to the usages if it commits, and else changes none. */
  ghost predicate CountsTransition(rows: seq<Row>, rows': seq<Row>, id: Uuid, newState: ReservationState,
                                   actualInput: Option<nat>, actualOutput: Option<nat>, cost: Option<real>)
  {
    forall k, l, s, start :: IsOnly(rows, k, id) && rows[k].state == Reserved ==>
      var before, after := Aggregate(rows, l, s, start), Aggregate(rows', l, s, start);
      if newState == Committed then AddsCall(rows[k], actualInput, actualOutput, cost, l, s, start, before, after)
      else after == before
  }

  lemma TransitionCounts(rows: seq<Row>, rows': seq<Row>, id: Uuid, newState: ReservationState,
                         actualInput: Option<nat>, actualOutput: Option<nat>, committedCost: Option<real>,
                         releasedCost: Option<real>, deniedReason: Option<string>)
    requires |rows'| == |rows|
    requires forall i :: 0 <= i < |rows| ==>
               rows'[i] == if rows[i].id == id && rows[i].state == Reserved
                           then Settled(rows[i], newState, actualInput, actualOutput, committedCost, releasedCost, deniedReason)
                           else rows[i]
    ensures CountsTransition(rows, rows', id, newState, actualInput, actualOutput, committedCost)
  {
    hide Aggregate, AddsCall, Settled;
    forall k, l, s, start | IsOnly(rows, k, id) && rows[k].state == Reserved
      ensures var before, after := Aggregate(rows, l, s, start), Aggregate(rows', l, s, start);
              if newState == Committed then AddsCall(rows[k], actualInput, actualOutput, committedCost, l, s, start, before, after)
              else after == before
    {
      assert rows' == rows[k := Settled(rows[k], newState, actualInput, actualOutput, committedCost, releasedCost, deniedReason)];
      SettledUsage(rows, k, newState, actualInput, actualOutput, committedCost, releasedCost, deniedReason, l, s, start);
    }
  }

  function Plus(a: Usage, b: Usage): Usage {
    Usage(a.requests + b.requests, a.input + b.input, a.output + b.output, a.total + b.total, a.cost + b.cost)
  }

  /** What one row adds to the aggregate. */
  function Contribution(r: Row, l: Limit, s: Subject, start: int): Usage {
    if !Counted(l, s, start, r) then Usage(0, 0, 0, 0, 0.0)
    else
      var i, o := OrZero(r.actualInput, r.estimatedInput), OrZero(r.actualOutput, r.estimatedOutput);
      Usage(1, i, o, i + o, r.committedCost)
  }

  lemma AggregateLast(rows: seq<Row>, l: Limit, s: Subject, start: int)
    requires rows != []
    ensures Aggregate(rows, l, s, start)
         == Plus(Aggregate(rows[..|rows| - 1], l, s, start), Contribution(rows[|rows| - 1], l, s, start))
  {
  }

  lemma SettledRow(r: Row, newState: ReservationState, actualInput: Option<nat>, actualOutput: Option<nat>,
                   committedCost: Option<real>, releasedCost: Option<real>, deniedReason: Option<string>,
                   l: Limit, s: Subject, start: int, u: Usage)
    requires r.state == Reserved
    ensures var r' := Settled(r, newState, actualInput, actualOutput, committedCost, releasedCost, deniedReason);
            var before, after := Plus(u, Contribution(r, l, s, start)), Plus(u, Contribution(r', l, s, start));
            if newState == Committed then AddsCall(r, actualInput, actualOutput, committedCost, l, s, start, before, after)
            else after == before
  {
  }

  lemma AddsCallBesides(r: Row, actualInput: Option<nat>, actualOutput: Option<nat>, cost: Option<real>,
                        l: Limit, s: Subject, start: int, before: Usage, after: Usage, more: Usage)
    requires AddsCall(r, actualInput, actualOutput, cost, l, s, start, before, after)
    ensures AddsCall(r, actualInput, actualOutput, cost, l, s, start, Plus(before, more), Plus(after, more))
  {
  }

  /** Committing a reserved row adds the call; releasing or denying it adds nothing. */
  lemma {:induction false} SettledUsage(rows: seq<Row>, k: nat, newState: ReservationState,
                                        actualInput: Option<nat>, actualOutput: Option<nat>, committedCost: Option<real>,
                                        releasedCost: Option<real>, deniedReason: Option<string>,
                                        l: Limit, s: Subject, start: int)
    requires k < |rows| && rows[k].state == Reserved
    ensures var r' := Settled(rows[k], newState, actualInput, actualOutput, committedCost, releasedCost, deniedReason);
            var before, after := Aggregate(rows, l, s, start), Aggregate(rows[k := r'], l, s, start);
            if newState == Committed then AddsCall(rows[k], actualInput, actualOutput, committedCost, l, s, start, before, after)
            else after == before
  {
    hide Aggregate, Settled, Contribution, Plus, AddsCall;
    var r' := Settled(rows[k], newState, actualInput, actualOutput, committedCost, releasedCost, deniedReason);
    var rows', n := rows[k := r'], |rows| - 1;
    AggregateLast(rows, l, s, start);
    AggregateLast(rows', l, s, start);
    if k == n {
      assert rows'[..n] == rows[..n];
      SettledRow(rows[k], newState, actualInput, actualOutput, committedCost, releasedCost, deniedReason, l, s, start,
                 Aggregate(rows[..n], l, s, start));
    } else {
      assert rows'[..n] == rows[..n][k := r'];
      SettledUsage(rows[..n], k, newState, actualInput, actualOutput, committedCost, releasedCost, deniedReason, l, s, start);
      if newState == Committed {
        AddsCallBesides(rows[k], actualInput, actualOutput, committedCost, l, s, start,
                        Aggregate(rows[..n], l, s, start), Aggregate(rows'[..n], l, s, start), Contribution(rows[n], l, s, start));
      }
    }
  }
}
