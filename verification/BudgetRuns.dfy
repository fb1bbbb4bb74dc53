/**
  Concurrent calls under a budget.  A check reads the usage of one matching limit after the other; a call that
  passes them all is admitted, then reserved, and later committed at its actual cost or given up.  No check
  sees a call before it is committed.  Nothing here says that a call costs what was estimated: theorems that
  need it say so.
*/
module BudgetRuns {
  import opened Basics
  import opened Budget

  /** A check under way: when it began, which admitted calls were over then, and how many limits it has passed. */
  datatype Checking = Checking(call: Call, at: int, over: set<nat>, passed: nat)

  /** An admitted call with what its check knew, and its row once reserved. */
  datatype Admission = Admission(call: Call, checkedAt: int, over: set<nat>, row: Option<Row>)

  datatype State = State(now: int, admitted: seq<Admission>, checks: map<Uuid, Checking>)

  datatype Action =
    | Tick(seconds: nat)
    | BeginCheck(check: Uuid, call: Call)
    | ReadNext(check: Uuid)
    | Admit(check: Uuid)
    | Reserve(index: nat, id: Uuid, estimatedInput: Option<nat>, estimatedOutput: Option<nat>)
    | Commit(index: nat, actualInput: Option<nat>, actualOutput: Option<nat>, cost: real)
    | GiveUp(index: nat, state: ReservationState, releasedCost: Option<real>, reason: Option<string>)

  /** The budget_tracking table: the rows of the calls that were reserved. */
  function Table(admitted: seq<Admission>): seq<Row> {
    if admitted == [] then []
    else
      var last := admitted[|admitted| - 1];
      Table(admitted[..|admitted| - 1]) + (if last.row.Some? then [last.row.value] else [])
  }

  predicate Finished(a: Admission) { a.row.Some? && a.row.value.state != Reserved }

  function Over(admitted: seq<Admission>): set<nat> {
    set i | 0 <= i < |admitted| && Finished(admitted[i])
  }

  function WithRow(admitted: seq<Admission>, i: nat, row: Row): seq<Admission>
    requires i < |admitted|
  {
    admitted[i := admitted[i].(row := Some(row))]
  }

  predicate IsReserved(admitted: seq<Admission>, i: nat) {
    i < |admitted| && admitted[i].row.Some? && admitted[i].row.value.state == Reserved
  }

  function Next(limits: seq<Limit>, s: State, a: Action): State {
    match a
    case Tick(d) => s.(now := s.now + d)
    case BeginCheck(k, c) =>
      if k in s.checks then s else s.(checks := s.checks[k := Checking(c, s.now, Over(s.admitted), 0)])
    case ReadNext(k) =>
      if k !in s.checks || s.checks[k].passed >= |MatchingLimits(limits, s.checks[k].call)| then s
      else
        var check := s.checks[k];
        var l := MatchingLimits(limits, check.call)[check.passed];
        if VerdictNow(l, Table(s.admitted), check.at, check.call).None?
        then s.(checks := s.checks[k := check.(passed := check.passed + 1)])
        else s.(checks := s.checks - {k})
    case Admit(k) =>
      if k !in s.checks || s.checks[k].passed < |MatchingLimits(limits, s.checks[k].call)| then s
      else
        var check := s.checks[k];
        s.(admitted := s.admitted + [Admission(check.call, check.at, check.over, None)], checks := s.checks - {k})
    case Reserve(i, id, input, output) =>
      if i < |s.admitted| && s.admitted[i].row.None?
      then s.(admitted := WithRow(s.admitted, i, NewReservation(id, s.admitted[i].call, input, output, s.now)))
      else s
    case Commit(i, input, output, cost) =>
      if IsReserved(s.admitted, i)
      then s.(admitted := WithRow(s.admitted, i, Settled(s.admitted[i].row.value, Committed, input, output, Some(cost), None, None)))
      else s
    case GiveUp(i, state, cost, reason) =>
      if IsReserved(s.admitted, i) && state in {Released, Denied}
      then s.(admitted := WithRow(s.admitted, i, Settled(s.admitted[i].row.value, state, None, None, None, cost, reason)))
      else s
  }

  function RunFrom(limits: seq<Limit>, s: State, actions: seq<Action>): State {
    if actions == [] then s
    else Next(limits, RunFrom(limits, s, actions[..|actions| - 1]), actions[|actions| - 1])
  }

  function Run(limits: seq<Limit>, start: int, actions: seq<Action>): State {
    RunFrom(limits, State(start, [], map[]), actions)
  }

  // ---------------------------------------------------------------------------------
  // Sums and counts, term by term
  // ---------------------------------------------------------------------------------

  function Sum(terms: seq<real>): real {
    if terms == [] then 0.0 else Sum(terms[..|terms| - 1]) + terms[|terms| - 1]
  }

  function Total(terms: seq<nat>): nat {
    if terms == [] then 0 else Total(terms[..|terms| - 1]) + terms[|terms| - 1]
  }

  lemma {:induction false} SumLe(a: seq<real>, b: seq<real>, c: seq<real>)
    requires |a| == |b| == |c| && forall i :: 0 <= i < |a| ==> a[i] <= b[i] + c[i]
    ensures Sum(a) <= Sum(b) + Sum(c)
  {
    if a != [] {
      var n := |a| - 1;
      SumLe(a[..n], b[..n], c[..n]);
    }
  }

  lemma {:induction false} SumMonotone(a: seq<real>, b: seq<real>)
    requires |a| == |b| && forall i :: 0 <= i < |a| ==> a[i] <= b[i]
    ensures Sum(a) <= Sum(b)
  {
    if a != [] {
      SumMonotone(a[..|a| - 1], b[..|b| - 1]);
    }
  }

  lemma {:induction false} SumOne(terms: seq<real>, z: nat)
    requires z < |terms| && forall i :: 0 <= i < |terms| && i != z ==> terms[i] == 0.0
    ensures Sum(terms) == terms[z]
  {
    var n := |terms| - 1;
    if z < n {
      SumOne(terms[..n], z);
    } else {
      SumZero(terms[..n]);
    }
  }

  lemma {:induction false} SumZero(terms: seq<real>)
    requires forall i :: 0 <= i < |terms| ==> terms[i] == 0.0
    ensures Sum(terms) == 0.0
  {
    if terms != [] {
      SumZero(terms[..|terms| - 1]);
    }
  }

  lemma {:induction false} TotalLe(a: seq<nat>, b: seq<nat>, c: seq<nat>)
    requires |a| == |b| == |c| && forall i :: 0 <= i < |a| ==> a[i] <= b[i] + c[i]
    ensures Total(a) <= Total(b) + Total(c)
  {
    if a != [] {
      var n := |a| - 1;
      TotalLe(a[..n], b[..n], c[..n]);
    }
  }

  lemma {:induction false} TotalMonotone(a: seq<nat>, b: seq<nat>)
    requires |a| == |b| && forall i :: 0 <= i < |a| ==> a[i] <= b[i]
    ensures Total(a) <= Total(b)
  {
    if a != [] {
      TotalMonotone(a[..|a| - 1], b[..|b| - 1]);
    }
  }

  lemma {:induction false} TotalOne(terms: seq<nat>, z: nat)
    requires z < |terms| && forall i :: 0 <= i < |terms| && i != z ==> terms[i] == 0
    ensures Total(terms) == terms[z]
  {
    var n := |terms| - 1;
    if z < n {
      TotalOne(terms[..n], z);
    } else {
      TotalZero(terms[..n]);
    }
  }

  lemma {:induction false} TotalZero(terms: seq<nat>)
    requires forall i :: 0 <= i < |terms| ==> terms[i] == 0
    ensures Total(terms) == 0
  {
    if terms != [] {
      TotalZero(terms[..|terms| - 1]);
    }
  }

  lemma SumPush(terms: seq<real>, x: real)
    ensures Sum(terms + [x]) == Sum(terms) + x
  {
    assert (terms + [x])[..|terms|] == terms;
  }

  lemma TotalPush(terms: seq<nat>, x: nat)
    ensures Total(terms + [x]) == Total(terms) + x
  {
    assert (terms + [x])[..|terms|] == terms;
  }

  // ---------------------------------------------------------------------------------
  // What the aggregate query sees
  // ---------------------------------------------------------------------------------

  predicate Counts(l: Limit, s: Subject, start: int, a: Admission) {
    a.row.Some? && Counted(l, s, start, a.row.value)
  }

  function Cost(l: Limit, s: Subject, start: int, a: Admission): real {
    if Counts(l, s, start, a) then a.row.value.committedCost else 0.0
  }

  predicate Concerns(l: Limit, s: Subject, c: Call) { c.subject == s && Covers(l, c.scope) }

  function Estimate(l: Limit, s: Subject, c: Call): real { if Concerns(l, s, c) then c.estimatedCost else 0.0 }

  /** What one call contributes to a measure. */
  function Amount(m: Measure, l: Limit, s: Subject, start: int, a: Admission): nat {
    if Counts(l, s, start, a) then AmountOf(m, a.row.value) else 0
  }

  /** Costs, or amounts, of the calls of a set. */
  function Costs(admitted: seq<Admission>, these: set<nat>, l: Limit, s: Subject, start: int): seq<real> {
    seq(|admitted|, i requires 0 <= i < |admitted| => if i in these then Cost(l, s, start, admitted[i]) else 0.0)
  }

  function Amounts(m: Measure, admitted: seq<Admission>, these: set<nat>, l: Limit, s: Subject, start: int): seq<nat> {
    seq(|admitted|, i requires 0 <= i < |admitted| => if i in these then Amount(m, l, s, start, admitted[i]) else 0)
  }

  function AllCosts(admitted: seq<Admission>, l: Limit, s: Subject, start: int): seq<real> {
    seq(|admitted|, i requires 0 <= i < |admitted| => Cost(l, s, start, admitted[i]))
  }

  function AllAmounts(m: Measure, admitted: seq<Admission>, l: Limit, s: Subject, start: int): seq<nat> {
    seq(|admitted|, i requires 0 <= i < |admitted| => Amount(m, l, s, start, admitted[i]))
  }

  function UsageOf(admitted: seq<Admission>, l: Limit, s: Subject, start: int): Usage {
    Aggregate(Table(admitted), l, s, start)
  }

  /** The usage query adds up the counted calls. */
  lemma {:induction false} AggregateIsSum(admitted: seq<Admission>, l: Limit, s: Subject, start: int)
    ensures UsageOf(admitted, l, s, start).cost == Sum(AllCosts(admitted, l, s, start))
    ensures forall m :: AmountIn(m, UsageOf(admitted, l, s, start)) == Total(AllAmounts(m, admitted, l, s, start))
  {
    hide UsageOf, Cost, Amount;
    if admitted == [] {
      UsageOfNone(l, s, start);
    } else {
      var init, last := admitted[..|admitted| - 1], admitted[|admitted| - 1];
      AggregateIsSum(init, l, s, start);
      TableLast(admitted, l, s, start);
      assert AllCosts(admitted, l, s, start) == AllCosts(init, l, s, start) + [Cost(l, s, start, last)];
      SumPush(AllCosts(init, l, s, start), Cost(l, s, start, last));
      forall m ensures AmountIn(m, UsageOf(admitted, l, s, start)) == Total(AllAmounts(m, admitted, l, s, start)) {
        assert AllAmounts(m, admitted, l, s, start) == AllAmounts(m, init, l, s, start) + [Amount(m, l, s, start, last)];
        TotalPush(AllAmounts(m, init, l, s, start), Amount(m, l, s, start, last));
      }
    }
  }

  lemma UsageOfNone(l: Limit, s: Subject, start: int)
    ensures UsageOf([], l, s, start) == Usage(0, 0, 0, 0, 0.0)
  {
  }

  lemma TableLast(admitted: seq<Admission>, l: Limit, s: Subject, start: int)
    requires admitted != []
    ensures var init, last := admitted[..|admitted| - 1], admitted[|admitted| - 1];
            && UsageOf(admitted, l, s, start).cost == UsageOf(init, l, s, start).cost + Cost(l, s, start, last)
            && forall m :: AmountIn(m, UsageOf(admitted, l, s, start))
                           == AmountIn(m, UsageOf(init, l, s, start)) + Amount(m, l, s, start, last)
  {
    var init, last := admitted[..|admitted| - 1], admitted[|admitted| - 1];
    if last.row.Some? {
      var rows := Table(admitted);
      assert rows[..|rows| - 1] == Table(init);
    } else {
      assert Table(admitted) == Table(init);
    }
  }

  // ---------------------------------------------------------------------------------
  // Invariant
  // ---------------------------------------------------------------------------------

  predicate AdmissionOk(a: Admission) {
    a.row.Some? ==> a.row.value.subject == a.call.subject && a.row.value.scope == a.call.scope
                    && a.row.value.createdAt >= a.checkedAt
  }

  /** Committed calls did not cost less than nothing. */
  predicate CostsNotNegative(admitted: seq<Admission>) {
    forall i :: 0 <= i < |admitted| && admitted[i].row.Some? && admitted[i].row.value.state == Committed ==>
      admitted[i].row.value.committedCost >= 0.0
  }

  predicate EstimatesNotNegative(admitted: seq<Admission>) {
    forall i :: 0 <= i < |admitted| ==> admitted[i].call.estimatedCost >= 0.0
  }

  /** Committed calls cost at most their estimates. */
  predicate WithinEstimates(admitted: seq<Admission>) {
    && CostsNotNegative(admitted) && EstimatesNotNegative(admitted)
    && forall i :: 0 <= i < |admitted| && admitted[i].row.Some? && admitted[i].row.value.state == Committed ==>
         admitted[i].row.value.committedCost <= admitted[i].call.estimatedCost
  }

  /** A cost bound of a limit: its maximum or its blocking threshold. */
  predicate IsCostBound(l: Limit, bound: real) { l.maxCost == Some(bound) || l.blockThreshold == Some(bound) }

  /** A limit's verdict, in terms of the calls that were over when the check began. */
  predicate Passed(admitted: seq<Admission>, l: Limit, c: Call, at: int, over: set<nat>) {
    var start := WindowStart(at, l.windowUnit);
    && (CostsNotNegative(admitted) ==>
          && (l.maxCost.Some? ==> Sum(Costs(admitted, over, l, c.subject, start)) + c.estimatedCost <= l.maxCost.value)
          && (l.blockThreshold.Some? ==> Sum(Costs(admitted, over, l, c.subject, start)) + c.estimatedCost <= l.blockThreshold.value))
    && forall m :: MaximumOf(m, l).Some? ==> Total(Amounts(m, admitted, over, l, c.subject, start)) < MaximumOf(m, l).value
  }

  /** Who was over stays over and unchanged. */
  predicate StayOver(admitted: seq<Admission>, over: set<nat>) {
    forall i :: i in over ==> i < |admitted| && Finished(admitted[i])
  }

  predicate CheckOk(limits: seq<Limit>, s: State, k: Uuid)
    requires k in s.checks
  {
    var check := s.checks[k];
    && StayOver(s.admitted, check.over) && check.at <= s.now
    && check.passed <= |MatchingLimits(limits, check.call)|
    && forall p :: 0 <= p < check.passed ==>
         Passed(s.admitted, MatchingLimits(limits, check.call)[p], check.call, check.at, check.over)
  }

  predicate AdmittedOk(limits: seq<Limit>, s: State, z: nat)
    requires z < |s.admitted|
  {
    var a := s.admitted[z];
    && StayOver(s.admitted, a.over) && a.checkedAt <= s.now && AdmissionOk(a)
    && (forall i :: i in a.over ==> i < z)
    && forall l :: l in limits && Matches(l, a.call) ==> Passed(s.admitted, l, a.call, a.checkedAt, a.over)
  }

  ghost predicate Inv(limits: seq<Limit>, s: State) {
    && (forall k :: k in s.checks ==> CheckOk(limits, s, k))
    && (forall z :: 0 <= z < |s.admitted| ==> AdmittedOk(limits, s, z))
  }

  /** Steps never touch a call that is over. */
  predicate Extends(admitted: seq<Admission>, admitted': seq<Admission>) {
    && |admitted| <= |admitted'|
    && forall i :: 0 <= i < |admitted| && Finished(admitted[i]) ==> admitted'[i] == admitted[i]
  }

  lemma StepExtends(limits: seq<Limit>, s: State, a: Action)
    ensures Extends(s.admitted, Next(limits, s, a).admitted)
  {
    hide MatchingLimits, VerdictNow, Table, Over, Settled, NewReservation;
  }

  lemma {:induction false} SumExtends(a: seq<real>, b: seq<real>)
    requires |a| <= |b| && forall i :: 0 <= i < |b| ==> b[i] == if i < |a| then a[i] else 0.0
    ensures Sum(a) == Sum(b)
  {
    if |a| < |b| {
      SumExtends(a, b[..|b| - 1]);
    } else {
      assert a == b;
    }
  }

  lemma {:induction false} TotalExtends(a: seq<nat>, b: seq<nat>)
    requires |a| <= |b| && forall i :: 0 <= i < |b| ==> b[i] == if i < |a| then a[i] else 0
    ensures Total(a) == Total(b)
  {
    if |a| < |b| {
      TotalExtends(a, b[..|b| - 1]);
    } else {
      assert a == b;
    }
  }

  lemma PassedStays(admitted: seq<Admission>, admitted': seq<Admission>, l: Limit, c: Call, at: int, over: set<nat>)
    requires Extends(admitted, admitted') && StayOver(admitted, over) && Passed(admitted, l, c, at, over)
    ensures Passed(admitted', l, c, at, over)
  {
    hide Counts, Cost, Amount, Sum, Total, MaximumOf;
    var start := WindowStart(at, l.windowUnit);
    SumExtends(Costs(admitted, over, l, c.subject, start), Costs(admitted', over, l, c.subject, start));
    forall m ensures Total(Amounts(m, admitted', over, l, c.subject, start)) == Total(Amounts(m, admitted, over, l, c.subject, start)) {
      TotalExtends(Amounts(m, admitted, over, l, c.subject, start), Amounts(m, admitted', over, l, c.subject, start));
    }
    assert CostsNotNegative(admitted') ==> CostsNotNegative(admitted);
  }

  lemma AllowedAmount(m: Measure, l: Limit, u: Usage, estimate: real)
    requires Verdict(l, u, estimate).None? && MaximumOf(m, l).Some?
    ensures AmountIn(m, u) < MaximumOf(m, l).value
  {
  }

  /** Whatever else committed since the check began, the reading saw at least the calls that were over then. */
  lemma ReadingPasses(admitted: seq<Admission>, l: Limit, c: Call, at: int, over: set<nat>)
    requires VerdictNow(l, Table(admitted), at, c).None? && StayOver(admitted, over)
    ensures Passed(admitted, l, c, at, over)
  {
    hide Counts, Sum, Total, Table, Aggregate;
    var start := WindowStart(at, l.windowUnit);
    AggregateIsSum(admitted, l, c.subject, start);
    forall m | MaximumOf(m, l).Some? ensures Total(Amounts(m, admitted, over, l, c.subject, start)) < MaximumOf(m, l).value {
      AllowedAmount(m, l, UsageOf(admitted, l, c.subject, start), c.estimatedCost);
      TotalMonotone(Amounts(m, admitted, over, l, c.subject, start), AllAmounts(m, admitted, l, c.subject, start));
    }
    if CostsNotNegative(admitted) {
      forall i | 0 <= i < |admitted| ensures Cost(l, c.subject, start, admitted[i]) >= 0.0 {
        CountsCommitted(l, c.subject, start, admitted[i]);
      }
      SumMonotone(Costs(admitted, over, l, c.subject, start), AllCosts(admitted, l, c.subject, start));
    }
  }

  lemma CountsCommitted(l: Limit, s: Subject, start: int, a: Admission)
    ensures Counts(l, s, start, a) ==> a.row.Some? && a.row.value.state == Committed
                                       && a.row.value.subject == s && a.row.value.createdAt >= start && Covers(l, a.row.value.scope)
  {
  }

  lemma ChecksStay(limits: seq<Limit>, s: State, s': State, k: Uuid)
    requires k in s.checks && CheckOk(limits, s, k) && k in s'.checks && s'.checks[k] == s.checks[k]
    requires Extends(s.admitted, s'.admitted) && s.now <= s'.now
    ensures CheckOk(limits, s', k)
  {
    hide Passed, MatchingLimits;
    var check := s.checks[k];
    forall p | 0 <= p < check.passed
      ensures Passed(s'.admitted, MatchingLimits(limits, check.call)[p], check.call, check.at, check.over)
    {
      PassedStays(s.admitted, s'.admitted, MatchingLimits(limits, check.call)[p], check.call, check.at, check.over);
    }
  }

  lemma AdmittedStays(limits: seq<Limit>, s: State, s': State, z: nat)
    requires z < |s.admitted| && AdmittedOk(limits, s, z)
    requires Extends(s.admitted, s'.admitted) && s.now <= s'.now
    requires s'.admitted[z] == s.admitted[z].(row := s'.admitted[z].row) && AdmissionOk(s'.admitted[z])
    ensures AdmittedOk(limits, s', z)
  {
    hide Passed, Matches;
    var a := s.admitted[z];
    forall l | l in limits && Matches(l, a.call) ensures Passed(s'.admitted, l, a.call, a.checkedAt, a.over) {
      PassedStays(s.admitted, s'.admitted, l, a.call, a.checkedAt, a.over);
    }
  }

  lemma RowsStayOk(limits: seq<Limit>, s: State, a: Action, z: nat)
    requires z < |s.admitted| && AdmissionOk(s.admitted[z]) && s.admitted[z].checkedAt <= s.now
    ensures var s' := Next(limits, s, a);
            && z < |s'.admitted| && s.now <= s'.now
            && s'.admitted[z] == s.admitted[z].(row := s'.admitted[z].row) && AdmissionOk(s'.admitted[z])
  {
    hide MatchingLimits, VerdictNow, Table, Over;
  }

  lemma NewCheckOk(limits: seq<Limit>, s: State, a: Action, k: Uuid)
    requires Inv(limits, s) && k in Next(limits, s, a).checks
    requires k !in s.checks || Next(limits, s, a).checks[k] != s.checks[k]
    ensures CheckOk(limits, Next(limits, s, a), k)
  {
    hide Passed, MatchingLimits, VerdictNow, Table;
    if a.ReadNext? {
      var check := s.checks[k];
      assert CheckOk(limits, s, k);
      ReadingPasses(s.admitted, MatchingLimits(limits, check.call)[check.passed], check.call, check.at, check.over);
    }
  }

  lemma NewAdmissionOk(limits: seq<Limit>, s: State, k: Uuid)
    requires Inv(limits, s) && Next(limits, s, Admit(k)) != s
    ensures AdmittedOk(limits, Next(limits, s, Admit(k)), |s.admitted|)
  {
    hide Passed;
    var check, s' := s.checks[k], Next(limits, s, Admit(k));
    assert CheckOk(limits, s, k);
    StepExtends(limits, s, Admit(k));
    forall l | l in limits && Matches(l, check.call) ensures Passed(s'.admitted, l, check.call, check.at, check.over) {
      assert l in MatchingLimits(limits, check.call);
      var p :| 0 <= p < |MatchingLimits(limits, check.call)| && MatchingLimits(limits, check.call)[p] == l;
      PassedStays(s.admitted, s'.admitted, l, check.call, check.at, check.over);
    }
  }

  lemma NextKeepsInv(limits: seq<Limit>, s: State, a: Action)
    requires Inv(limits, s)
    ensures Inv(limits, Next(limits, s, a))
  {
    hide Next, CheckOk, Extends;
    var s' := Next(limits, s, a);
    StepExtends(limits, s, a);
    StepShape(limits, s, a);
    forall k | k in s'.checks ensures CheckOk(limits, s', k) {
      if k in s.checks && s'.checks[k] == s.checks[k] {
        ChecksStay(limits, s, s', k);
      } else {
        NewCheckOk(limits, s, a, k);
      }
    }
    forall z | 0 <= z < |s'.admitted| ensures AdmittedOk(limits, s', z) {
      if z < |s.admitted| {
        assert AdmittedOk(limits, s, z);
        RowsStayOk(limits, s, a, z);
        AdmittedStays(limits, s, s', z);
      } else {
        NewAdmissionOk(limits, s, a.check);
      }
    }
  }

  lemma StepShape(limits: seq<Limit>, s: State, a: Action)
    ensures var s' := Next(limits, s, a);
            && s.now <= s'.now && |s.admitted| <= |s'.admitted| <= |s.admitted| + 1
            && (|s'.admitted| > |s.admitted| ==> a.Admit?)
  {
    hide MatchingLimits, VerdictNow, Table, Over, Settled, NewReservation;
  }

  lemma AllOk(limits: seq<Limit>, s: State)
    requires Inv(limits, s)
    ensures forall i :: 0 <= i < |s.admitted| ==> AdmissionOk(s.admitted[i])
  {
    forall i | 0 <= i < |s.admitted| ensures AdmissionOk(s.admitted[i]) {
      assert AdmittedOk(limits, s, i);
    }
  }

  lemma {:induction false} RunKeepsInv(limits: seq<Limit>, start: int, actions: seq<Action>)
    ensures Inv(limits, Run(limits, start, actions))
  {
    hide Inv;
    if actions != [] {
      RunKeepsInv(limits, start, actions[..|actions| - 1]);
      NextKeepsInv(limits, Run(limits, start, actions[..|actions| - 1]), actions[|actions| - 1]);
    } else {
      NothingYet(limits, start);
    }
  }

  lemma NothingYet(limits: seq<Limit>, start: int)
    ensures Inv(limits, State(start, [], map[]))
  {
  }

  // ---------------------------------------------------------------------------------
  // How far a window can be overdrawn
  // ---------------------------------------------------------------------------------

  /** The earlier calls that were not over when the z-th admitted call's check began. */
  predicate WasInFlight(admitted: seq<Admission>, z: nat, i: nat)
    requires z < |admitted|
  {
    i < z && i !in admitted[z].over
  }

  function FlightCosts(admitted: seq<Admission>, z: nat, l: Limit, s: Subject, start: int): seq<real>
    requires z < |admitted|
  {
    seq(|admitted|, i requires 0 <= i < |admitted| => if WasInFlight(admitted, z, i) then Cost(l, s, start, admitted[i]) else 0.0)
  }

  function FlightEstimates(admitted: seq<Admission>, z: nat, l: Limit, s: Subject): seq<real>
    requires z < |admitted|
  {
    seq(|admitted|, i requires 0 <= i < |admitted| => if WasInFlight(admitted, z, i) then Estimate(l, s, admitted[i].call) else 0.0)
  }

  function FlightAmounts(m: Measure, admitted: seq<Admission>, z: nat, l: Limit, s: Subject, start: int): seq<nat>
    requires z < |admitted|
  {
    seq(|admitted|, i requires 0 <= i < |admitted| => if WasInFlight(admitted, z, i) then Amount(m, l, s, start, admitted[i]) else 0)
  }

  /** z is the last admitted call that the limit counts for the subject in the window. */
  predicate IsLastCounted(admitted: seq<Admission>, l: Limit, s: Subject, start: int, z: nat) {
    && z < |admitted| && Counts(l, s, start, admitted[z])
    && forall i :: z < i < |admitted| ==> !Counts(l, s, start, admitted[i])
  }

  /** The z-th call alone. */
  function Single(admitted: seq<Admission>, z: nat, x: real): seq<real> {
    seq(|admitted|, i => if i == z then x else 0.0)
  }

  function SingleAmount(admitted: seq<Admission>, z: nat, x: nat): seq<nat> {
    seq(|admitted|, i => if i == z then x else 0)
  }

  /** Counting from a later start only loses, and what is not over at z's check was in flight or is z itself. */
  lemma SplitAtCheck(admitted: seq<Admission>, z: nat, l: Limit, s: Subject, early: int, late: int)
    requires IsLastCounted(admitted, l, s, late, z) && early <= late && CostsNotNegative(admitted)
    ensures Sum(AllCosts(admitted, l, s, late))
         <= Sum(Costs(admitted, admitted[z].over, l, s, early)) + Sum(FlightCosts(admitted, z, l, s, late))
            + admitted[z].row.value.committedCost
  {
    hide Sum;
    var over := Costs(admitted, admitted[z].over, l, s, early);
    var flight := FlightCosts(admitted, z, l, s, late);
    var own := Single(admitted, z, admitted[z].row.value.committedCost);
    var rest := seq(|admitted|, i requires 0 <= i < |admitted| => flight[i] + own[i]);
    SumLe(AllCosts(admitted, l, s, late), over, rest);
    SumLe(rest, flight, own);
    SumOne(own, z);
  }

  lemma AmountAtCheck(m: Measure, admitted: seq<Admission>, z: nat, l: Limit, s: Subject, early: int, late: int)
    requires IsLastCounted(admitted, l, s, late, z) && early <= late
    ensures Total(AllAmounts(m, admitted, l, s, late))
         <= Total(Amounts(m, admitted, admitted[z].over, l, s, early)) + Total(FlightAmounts(m, admitted, z, l, s, late))
            + AmountOf(m, admitted[z].row.value)
  {
    hide Total, AmountOf;
    var over := Amounts(m, admitted, admitted[z].over, l, s, early);
    var flight := FlightAmounts(m, admitted, z, l, s, late);
    var own := SingleAmount(admitted, z, AmountOf(m, admitted[z].row.value));
    var rest := seq(|admitted|, i requires 0 <= i < |admitted| => flight[i] + own[i]);
    TotalLe(AllAmounts(m, admitted, l, s, late), over, rest);
    TotalLe(rest, flight, own);
    TotalOne(own, z);
  }

  /** The last counted call passed the limit. */
  lemma LastPassed(limits: seq<Limit>, s: State, l: Limit, subject: Subject, start: int, z: nat)
    requires Inv(limits, s) && l in limits && l.enabled && Applies(l, subject)
    requires IsLastCounted(s.admitted, l, subject, start, z)
    ensures var a := s.admitted[z];
            a.call.subject == subject && a.checkedAt <= s.now && Passed(s.admitted, l, a.call, a.checkedAt, a.over)
  {
    hide Passed;
    assert AdmittedOk(limits, s, z);
    assert Matches(l, s.admitted[z].call);
  }

  /**
    The sliding-window bound, at any moment from now on.  For every run, the calls, input, output and total
    tokens in the window are below the limit's maximum plus what the calls contribute that were in flight when
    the last counted call's check began, and what that call itself contributes (its own call, or its tokens:
    the check looks at no token estimate).  The cost exceeds a bound at most by what those calls really cost and
    by what the last call cost beyond its own estimate.
    */
  lemma WindowBound(limits: seq<Limit>, start: int, actions: seq<Action>, l: Limit, s: Subject, at: int, z: nat)
    requires l in limits && l.enabled && Applies(l, s)
    requires var state := Run(limits, start, actions);
             at >= state.now && IsLastCounted(state.admitted, l, s, WindowStart(at, l.windowUnit), z)
    ensures var admitted := Run(limits, start, actions).admitted;
            var from := WindowStart(at, l.windowUnit);
            var usage := UsageOf(admitted, l, s, from);
            && (forall m :: MaximumOf(m, l).Some? ==>
                  AmountIn(m, usage) < MaximumOf(m, l).value + Total(FlightAmounts(m, admitted, z, l, s, from))
                                       + AmountOf(m, admitted[z].row.value))
            && (CostsNotNegative(admitted) ==>
                  forall bound :: IsCostBound(l, bound) ==>
                    usage.cost <= bound + Sum(FlightCosts(admitted, z, l, s, from))
                                  + (admitted[z].row.value.committedCost - admitted[z].call.estimatedCost))
  {
    hide Run, UsageOf, Sum, Total, Counts, AmountOf, AmountIn, MaximumOf;
    RunKeepsInv(limits, start, actions);
    var state := Run(limits, start, actions);
    var admitted, a := state.admitted, state.admitted[z];
    var late, early := WindowStart(at, l.windowUnit), WindowStart(a.checkedAt, l.windowUnit);
    AggregateIsSum(admitted, l, s, late);
    LastPassed(limits, state, l, s, late, z);
    CountsCommitted(l, s, late, a);
    forall m ensures Total(AllAmounts(m, admitted, l, s, late))
                  <= Total(Amounts(m, admitted, a.over, l, s, early)) + Total(FlightAmounts(m, admitted, z, l, s, late))
                     + AmountOf(m, a.row.value) {
      AmountAtCheck(m, admitted, z, l, s, early, late);
    }
    if CostsNotNegative(admitted) {
      SplitAtCheck(admitted, z, l, s, early, late);
    }
  }

  lemma FlightCostsEstimated(admitted: seq<Admission>, z: nat, l: Limit, s: Subject, start: int)
    requires z < |admitted| && WithinEstimates(admitted)
    requires forall i :: 0 <= i < |admitted| ==> AdmissionOk(admitted[i])
    ensures Sum(FlightCosts(admitted, z, l, s, start)) <= Sum(FlightEstimates(admitted, z, l, s))
  {
    hide Sum;
    SumMonotone(FlightCosts(admitted, z, l, s, start), FlightEstimates(admitted, z, l, s));
  }

  /** If calls cost at most their estimates, so does the overdraft: the estimates of the calls then in flight. */
  lemma WindowBoundEstimated(limits: seq<Limit>, start: int, actions: seq<Action>, l: Limit, s: Subject, at: int, z: nat)
    requires l in limits && l.enabled && Applies(l, s)
    requires var state := Run(limits, start, actions);
             && at >= state.now && IsLastCounted(state.admitted, l, s, WindowStart(at, l.windowUnit), z)
             && WithinEstimates(state.admitted)
    ensures var admitted := Run(limits, start, actions).admitted;
            forall bound :: IsCostBound(l, bound) ==>
              UsageOf(admitted, l, s, WindowStart(at, l.windowUnit)).cost <= bound + Sum(FlightEstimates(admitted, z, l, s))
  {
    hide Run, UsageOf, Sum, Total, FlightCosts, FlightEstimates, FlightAmounts;
    var state := Run(limits, start, actions);
    var from := WindowStart(at, l.windowUnit);
    RunKeepsInv(limits, start, actions);
    AllOk(limits, state);
    WindowBound(limits, start, actions, l, s, at, z);
    FlightCostsEstimated(state.admitted, z, l, s, from);
    CountsCommitted(l, s, from, state.admitted[z]);
  }

  /** Calls of the subject are serialised: each check begins only when all earlier calls are over. */
  predicate Serialised(admitted: seq<Admission>, s: Subject) {
    forall z, i :: 0 <= i < z < |admitted| && admitted[z].call.subject == s && i !in admitted[z].over ==>
      admitted[i].call.subject != s
  }

  lemma {:induction false} LastCounted(admitted: seq<Admission>, n: nat, l: Limit, s: Subject, start: int) returns (z: int)
    requires n <= |admitted| && forall i :: n <= i < |admitted| ==> !Counts(l, s, start, admitted[i])
    ensures z < 0 ==> forall i :: 0 <= i < |admitted| ==> !Counts(l, s, start, admitted[i])
    ensures z >= 0 ==> IsLastCounted(admitted, l, s, start, z)
    decreases n
  {
    if n == 0 {
      z := -1;
    } else if Counts(l, s, start, admitted[n - 1]) {
      z := n - 1;
    } else {
      z := LastCounted(admitted, n - 1, l, s, start);
    }
  }

  lemma NothingCounted(admitted: seq<Admission>, l: Limit, s: Subject, start: int)
    requires forall i :: 0 <= i < |admitted| ==> !Counts(l, s, start, admitted[i])
    ensures UsageOf(admitted, l, s, start).cost == 0.0 && forall m :: AmountIn(m, UsageOf(admitted, l, s, start)) == 0
  {
    AggregateIsSum(admitted, l, s, start);
    SumZero(AllCosts(admitted, l, s, start));
    forall m ensures Total(AllAmounts(m, admitted, l, s, start)) == 0 {
      TotalZero(AllAmounts(m, admitted, l, s, start));
    }
  }

  lemma NoneInFlight(admitted: seq<Admission>, z: nat, l: Limit, s: Subject, start: int)
    requires z < |admitted| && Serialised(admitted, s) && admitted[z].call.subject == s
    requires forall i :: 0 <= i < |admitted| ==> AdmissionOk(admitted[i])
    ensures Sum(FlightEstimates(admitted, z, l, s)) == 0.0
    ensures forall m :: Total(FlightAmounts(m, admitted, z, l, s, start)) == 0
  {
    SumZero(FlightEstimates(admitted, z, l, s));
    forall m ensures Total(FlightAmounts(m, admitted, z, l, s, start)) == 0 {
      TotalZero(FlightAmounts(m, admitted, z, l, s, start));
    }
  }

  /**
    When a subject's calls are serialised: max_requests holds in every window ending now or later, the token
    limits are exceeded at most by the last counted call's own tokens, and the cost bounds hold if calls cost at
    most their estimates.
    */
  lemma SerialisedBound(limits: seq<Limit>, start: int, actions: seq<Action>, l: Limit, s: Subject, at: int)
    requires l in limits && l.enabled && Applies(l, s)
    requires at >= Run(limits, start, actions).now && Serialised(Run(limits, start, actions).admitted, s)
    ensures var admitted := Run(limits, start, actions).admitted;
            var usage := UsageOf(admitted, l, s, WindowStart(at, l.windowUnit));
            && (l.maxRequests.Some? ==> usage.requests <= l.maxRequests.value)
            && (forall z: nat, m :: IsLastCounted(admitted, l, s, WindowStart(at, l.windowUnit), z) && MaximumOf(m, l).Some? ==>
                  AmountIn(m, usage) < MaximumOf(m, l).value + AmountOf(m, admitted[z].row.value))
            && (WithinEstimates(admitted) ==> forall bound :: IsCostBound(l, bound) && bound >= 0.0 ==> usage.cost <= bound)
  {
    hide Run, UsageOf, Counted, FlightEstimates, FlightAmounts, FlightCosts, Sum, Total;
    var state := Run(limits, start, actions);
    var from := WindowStart(at, l.windowUnit);
    RunKeepsInv(limits, start, actions);
    AllOk(limits, state);
    forall z: nat | IsLastCounted(state.admitted, l, s, from, z)
      ensures forall m :: MaximumOf(m, l).Some? ==>
                AmountIn(m, UsageOf(state.admitted, l, s, from)) < MaximumOf(m, l).value + AmountOf(m, state.admitted[z].row.value)
      ensures WithinEstimates(state.admitted) ==>
                forall bound :: IsCostBound(l, bound) ==> UsageOf(state.admitted, l, s, from).cost <= bound
    {
      LastPassed(limits, state, l, s, from, z);
      NoneInFlight(state.admitted, z, l, s, from);
      WindowBound(limits, start, actions, l, s, at, z);
      if WithinEstimates(state.admitted) {
        WindowBoundEstimated(limits, start, actions, l, s, at, z);
      }
    }
    var z := LastCounted(state.admitted, |state.admitted|, l, s, from);
    if z < 0 {
      NothingCounted(state.admitted, l, s, from);
    } else {
      assert IsLastCounted(state.admitted, l, s, from, z);
    }
    assert MaximumOf(Requests, l) == l.maxRequests;
    assert AmountIn(Requests, UsageOf(state.admitted, l, s, from)) == UsageOf(state.admitted, l, s, from).requests;
  }

  /** The same on the fields of the limit and of the last counted row. */
  lemma SerialisedBoundByField(limits: seq<Limit>, start: int, actions: seq<Action>, l: Limit, s: Subject, at: int)
    requires l in limits && l.enabled && (l.subject == s || (l.subject.kind == "project" && l.limitScope == "global"))
    requires at >= Run(limits, start, actions).now && Serialised(Run(limits, start, actions).admitted, s)
    ensures var admitted := Run(limits, start, actions).admitted;
            var usage := UsageOf(admitted, l, s, WindowStart(at, l.windowUnit));
            && (l.maxRequests.Some? ==> usage.requests <= l.maxRequests.value)
            && (WithinEstimates(admitted) && l.maxCost.Some? && l.maxCost.value >= 0.0 ==> usage.cost <= l.maxCost.value)
            && (WithinEstimates(admitted) && l.blockThreshold.Some? && l.blockThreshold.value >= 0.0 ==>
                  usage.cost <= l.blockThreshold.value)
            && forall z: nat :: IsLastCounted(admitted, l, s, WindowStart(at, l.windowUnit), z) ==>
                 admitted[z].row.Some? && TokensWithin(l, usage, admitted[z].row.value)
  {
    var admitted := Run(limits, start, actions).admitted;
    var from := WindowStart(at, l.windowUnit);
    assert Applies(l, s);
    hide Run, UsageOf, IsLastCounted, AmountIn, AmountOf, MaximumOf, Serialised, WithinEstimates, Applies, WindowStart, TokensWithin;
    SerialisedBound(limits, start, actions, l, s, at);
    var usage := UsageOf(admitted, l, s, from);
    assert l.maxCost.Some? ==> IsCostBound(l, l.maxCost.value);
    assert l.blockThreshold.Some? ==> IsCostBound(l, l.blockThreshold.value);
    forall z: nat | IsLastCounted(admitted, l, s, from, z)
      ensures z < |admitted| && admitted[z].row.Some? && TokensWithin(l, usage, admitted[z].row.value)
    {
      LastHasRow(admitted, l, s, from, z);
      TokensByField(l, usage, admitted[z].row.value);
    }
  }

  /** With known actual amounts, tokens exceed their limits by less than those. */
  predicate TokensWithin(l: Limit, usage: Usage, r: Row) {
    r.actualInput.Some? && r.actualOutput.Some? ==>
      && (l.maxInputTokens.Some? ==> usage.input < l.maxInputTokens.value + r.actualInput.value)
      && (l.maxOutputTokens.Some? ==> usage.output < l.maxOutputTokens.value + r.actualOutput.value)
      && (l.maxTotalTokens.Some? ==> usage.total < l.maxTotalTokens.value + r.actualInput.value + r.actualOutput.value)
  }

  lemma TokensByField(l: Limit, usage: Usage, r: Row)
    requires forall m :: MaximumOf(m, l).Some? ==> AmountIn(m, usage) < MaximumOf(m, l).value + AmountOf(m, r)
    ensures TokensWithin(l, usage, r)
  {
    hide AmountIn, AmountOf, MaximumOf;
    MeasuresExact(usage, l, r);
  }

  /** The conditions on the calls, written out. */
  lemma WrittenOut(admitted: seq<Admission>, s: Subject)
    ensures Serialised(admitted, s) <==> (
              forall z, i :: 0 <= i < z < |admitted| && admitted[z].call.subject == s && i !in admitted[z].over ==>
                admitted[i].call.subject != s)
    ensures WithinEstimates(admitted) <==> (
              && (forall i :: 0 <= i < |admitted| ==> admitted[i].call.estimatedCost >= 0.0)
              && forall i :: 0 <= i < |admitted| && admitted[i].row.Some? && admitted[i].row.value.state == Committed ==>
                   0.0 <= admitted[i].row.value.committedCost <= admitted[i].call.estimatedCost)
  {
  }

  lemma LastHasRow(admitted: seq<Admission>, l: Limit, s: Subject, start: int, z: nat)
    requires IsLastCounted(admitted, l, s, start, z)
    ensures z < |admitted| && admitted[z].row.Some?
  {
  }

  // ---------------------------------------------------------------------------------
  // The steps of a run are the statements of the store
  // ---------------------------------------------------------------------------------

  /** A new check begins now with no limit passed, and knows exactly the admitted calls that are committed, released or denied. */
  lemma NewCheckKnows(limits: seq<Limit>, s: State, k: Uuid, c: Call, i: nat)
    requires k !in s.checks
    ensures var s' := Next(limits, s, BeginCheck(k, c));
            && k in s'.checks && s'.checks[k].call == c && s'.checks[k].at == s.now && s'.checks[k].passed == 0
            && (i in s'.checks[k].over <==>
                  i < |s.admitted| && s.admitted[i].row.Some? && s.admitted[i].row.value.state in {Committed, Released, Denied})
  {
  }

  /** A check admits one call at most, after it has passed every matching limit, and is over then. */
  lemma CheckAdmitsOnce(limits: seq<Limit>, s: State, a: Action)
    ensures var s' := Next(limits, s, a);
            |s'.admitted| > |s.admitted| ==>
              && a.Admit? && a.check in s.checks && a.check !in s'.checks
              && s.checks[a.check].passed >= |MatchingLimits(limits, s.checks[a.check].call)|
              && s'.admitted == s.admitted + [Admission(s.checks[a.check].call, s.checks[a.check].at, s.checks[a.check].over, None)]
  {
    hide MatchingLimits, VerdictNow, Table, Over;
  }

  lemma {:induction false} TableOfReplaced(admitted: seq<Admission>, i: nat, row: Row) returns (p: nat)
    requires i < |admitted|
    ensures p <= |Table(admitted)|
    ensures admitted[i].row.None? ==> Table(WithRow(admitted, i, row)) == Table(admitted)[..p] + [row] + Table(admitted)[p..]
    ensures admitted[i].row.Some? ==>
              && p < |Table(admitted)| && Table(admitted)[p] == admitted[i].row.value
              && Table(WithRow(admitted, i, row)) == Table(admitted)[p := row]
  {
    var n := |admitted| - 1;
    var init, admitted' := admitted[..n], WithRow(admitted, i, row);
    if i == n {
      p := |Table(init)|;
      assert admitted'[..n] == init;
    } else {
      p := TableOfReplaced(init, i, row);
      assert admitted'[..n] == WithRow(init, i, row);
    }
  }

  /**
    What the steps of a run do to budget_tracking: a reservation inserts a reserved row without amounts, a
    commit turns a reserved row into a committed one with its actual amounts and cost, giving up turns it into a
    released or denied one; nothing else touches the table.
    */
  lemma StepOnTable(limits: seq<Limit>, s: State, a: Action) returns (p: nat)
    ensures p <= |Table(s.admitted)|
    ensures var rows, rows' := Table(s.admitted), Table(Next(limits, s, a).admitted);
            match a
            case Reserve(i, id, input, output) =>
              if i < |s.admitted| && s.admitted[i].row.None? then
                var c := s.admitted[i].call;
                rows' == rows[..p] + [Row(id, c.subject, c.scope, Reserved, input, output, None, None, c.estimatedCost,
                                          0.0, 0.0, None, s.now)] + rows[p..]
              else rows' == rows
            case Commit(i, input, output, cost) =>
              if i < |s.admitted| && s.admitted[i].row.Some? && s.admitted[i].row.value.state == Reserved then
                && p < |rows| && rows[p] == s.admitted[i].row.value
                && rows' == rows[p := rows[p].(state := Committed, committedCost := cost,
                                               actualInput := if input.Some? then input else rows[p].actualInput,
                                               actualOutput := if output.Some? then output else rows[p].actualOutput)]
              else rows' == rows
            case GiveUp(i, state, cost, reason) =>
              if && i < |s.admitted| && s.admitted[i].row.Some? && s.admitted[i].row.value.state == Reserved
                 && (state == Released || state == Denied) then
                && p < |rows| && rows[p] == s.admitted[i].row.value
                && rows' == rows[p := rows[p].(state := state,
                                               releasedCost := if cost.Some? then cost.value else rows[p].releasedCost,
                                               deniedReason := if reason.Some? then reason else rows[p].deniedReason)]
              else rows' == rows
            case _ => rows' == rows
  {
    p := 0;
    match a {
      case Reserve(i, id, input, output) =>
        if i < |s.admitted| && s.admitted[i].row.None? {
          p := TableOfReplaced(s.admitted, i, NewReservation(id, s.admitted[i].call, input, output, s.now));
        }
      case Commit(i, input, output, cost) =>
        if IsReserved(s.admitted, i) {
          p := TableOfReplaced(s.admitted, i, Settled(s.admitted[i].row.value, Committed, input, output, Some(cost), None, None));
        }
      case GiveUp(i, state, cost, reason) =>
        if IsReserved(s.admitted, i) && state in {Released, Denied} {
          p := TableOfReplaced(s.admitted, i, Settled(s.admitted[i].row.value, state, None, None, None, cost, reason));
        }
      case Admit(k) =>
        assert Next(limits, s, a).admitted != s.admitted ==>
                 Next(limits, s, a).admitted[..|s.admitted|] == s.admitted && Next(limits, s, a).admitted[|s.admitted|].row.None?;
      case _ =>
    }
  }

  // ---------------------------------------------------------------------------------
  // Calls a limit matches but never counts
  // ---------------------------------------------------------------------------------

  /** A matching call is not covered exactly if the limit names a capability, provider or project and the call none. */
  lemma MatchesUncovered(l: Limit, c: Call)
    requires Matches(l, c)
    ensures !Covers(l, c.scope)
       <==> (l.scope.capability.Some? && c.scope.capability.None?) || (l.scope.provider.Some? && c.scope.provider.None?)
            || (l.scope.project.Some? && c.scope.project.None?)
  {
  }

  /** A limit never fills for a subject whose calls it does not cover, however many it lets pass. */
  lemma UncoveredNeverFill(limits: seq<Limit>, start: int, actions: seq<Action>, l: Limit, s: Subject, from: int)
    requires var admitted := Run(limits, start, actions).admitted;
             forall i :: 0 <= i < |admitted| && admitted[i].call.subject == s ==> !Covers(l, admitted[i].call.scope)
    ensures var usage := UsageOf(Run(limits, start, actions).admitted, l, s, from);
            usage.cost == 0.0 && forall m :: AmountIn(m, usage) == 0
  {
    hide Run, UsageOf;
    RunKeepsInv(limits, start, actions);
    AllOk(limits, Run(limits, start, actions));
    NothingCounted(Run(limits, start, actions).admitted, l, s, from);
  }
}
