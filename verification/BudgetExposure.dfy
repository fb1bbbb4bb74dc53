/**
  When a limit can still be overrun.  A call that is not over yet may be committed later; the exposure of a
  window is what it counts now plus all such calls that could still fall into it.
*/
module BudgetExposure {
  import opened Basics
  import opened Budget
  import opened BudgetRuns

  /** A call of the subject that may still be counted: not over, and not reserved before the window. */
  predicate Outstanding(l: Limit, s: Subject, start: int, a: Admission) {
    !Finished(a) && Concerns(l, s, a.call) && (a.row.Some? ==> a.row.value.createdAt >= start)
  }

  function OutstandingCosts(admitted: seq<Admission>, l: Limit, s: Subject, start: int): seq<real> {
    seq(|admitted|, i requires 0 <= i < |admitted| =>
      if Outstanding(l, s, start, admitted[i]) then admitted[i].call.estimatedCost else 0.0)
  }

  function OutstandingCalls(admitted: seq<Admission>, l: Limit, s: Subject, start: int): seq<nat> {
    seq(|admitted|, i requires 0 <= i < |admitted| => if Outstanding(l, s, start, admitted[i]) then 1 else 0)
  }

  /** The usage of the window that ends now. */
  function UsageNow(s: State, l: Limit, subject: Subject): Usage {
    UsageOf(s.admitted, l, subject, WindowStart(s.now, l.windowUnit))
  }

  /** No call is admitted. */
  predicate AdmitsNone(actions: seq<Action>) { forall k :: 0 <= k < |actions| ==> !actions[k].Admit? }

  /** No commit costs less than nothing or more than its call's estimate. */
  predicate ChargesWithin(admitted: seq<Admission>, actions: seq<Action>) {
    forall k :: 0 <= k < |actions| && actions[k].Commit? && actions[k].index < |admitted| ==>
      0.0 <= actions[k].cost <= admitted[actions[k].index].call.estimatedCost
  }

  /** However the calls under way go on within their estimates, the window's cost stays within the bound. */
  ghost predicate KeepsCost(limits: seq<Limit>, s: State, l: Limit, subject: Subject, bound: real) {
    forall more :: AdmitsNone(more) && ChargesWithin(s.admitted, more) ==>
      UsageNow(RunFrom(limits, s, more), l, subject).cost <= bound
  }

  /** However the calls under way go on, at whatever cost, the window's calls stay within the bound. */
  ghost predicate KeepsRequests(limits: seq<Limit>, s: State, l: Limit, subject: Subject, bound: nat) {
    forall more :: AdmitsNone(more) ==> UsageNow(RunFrom(limits, s, more), l, subject).requests <= bound
  }

  // ---------------------------------------------------------------------------------
  // Exposure, call by call
  // ---------------------------------------------------------------------------------

  function Exposed(l: Limit, s: Subject, start: int, a: Admission): real {
    if Outstanding(l, s, start, a) then a.call.estimatedCost else Cost(l, s, start, a)
  }

  function ExposedCall(l: Limit, s: Subject, start: int, a: Admission): nat {
    if Outstanding(l, s, start, a) then 1 else Amount(Requests, l, s, start, a)
  }

  function ExposedCosts(admitted: seq<Admission>, l: Limit, s: Subject, start: int): seq<real> {
    seq(|admitted|, i requires 0 <= i < |admitted| => Exposed(l, s, start, admitted[i]))
  }

  function ExposedCalls(admitted: seq<Admission>, l: Limit, s: Subject, start: int): seq<nat> {
    seq(|admitted|, i requires 0 <= i < |admitted| => ExposedCall(l, s, start, admitted[i]))
  }

  lemma {:induction false} SumAdd(a: seq<real>, b: seq<real>, c: seq<real>)
    requires |a| == |b| == |c| && forall i :: 0 <= i < |a| ==> a[i] == b[i] + c[i]
    ensures Sum(a) == Sum(b) + Sum(c)
  {
    if a != [] {
      var n := |a| - 1;
      SumAdd(a[..n], b[..n], c[..n]);
    }
  }

  lemma {:induction false} TotalAdd(a: seq<nat>, b: seq<nat>, c: seq<nat>)
    requires |a| == |b| == |c| && forall i :: 0 <= i < |a| ==> a[i] == b[i] + c[i]
    ensures Total(a) == Total(b) + Total(c)
  {
    if a != [] {
      var n := |a| - 1;
      TotalAdd(a[..n], b[..n], c[..n]);
    }
  }

  lemma ExposureIsSum(admitted: seq<Admission>, l: Limit, s: Subject, start: int)
    ensures Sum(ExposedCosts(admitted, l, s, start))
         == UsageOf(admitted, l, s, start).cost + Sum(OutstandingCosts(admitted, l, s, start))
    ensures Total(ExposedCalls(admitted, l, s, start))
         == UsageOf(admitted, l, s, start).requests + Total(OutstandingCalls(admitted, l, s, start))
  {
    hide Sum, Total, UsageOf, Concerns;
    AggregateIsSum(admitted, l, s, start);
    SumAdd(ExposedCosts(admitted, l, s, start), AllCosts(admitted, l, s, start), OutstandingCosts(admitted, l, s, start));
    assert AmountIn(Requests, UsageOf(admitted, l, s, start)) == UsageOf(admitted, l, s, start).requests;
    TotalAdd(ExposedCalls(admitted, l, s, start), AllAmounts(Requests, admitted, l, s, start), OutstandingCalls(admitted, l, s, start));
  }

  /** With every call over, the exposure is the usage. */
  lemma NothingOutstanding(admitted: seq<Admission>, l: Limit, s: Subject, start: int)
    requires forall i :: 0 <= i < |admitted| ==> Finished(admitted[i])
    ensures Sum(ExposedCosts(admitted, l, s, start)) == UsageOf(admitted, l, s, start).cost
    ensures Total(ExposedCalls(admitted, l, s, start)) == UsageOf(admitted, l, s, start).requests
  {
    hide Sum, Total, UsageOf;
    ExposureIsSum(admitted, l, s, start);
    SumZero(OutstandingCosts(admitted, l, s, start));
    TotalZero(OutstandingCalls(admitted, l, s, start));
  }

  // ---------------------------------------------------------------------------------
  // Going on never raises the exposure
  // ---------------------------------------------------------------------------------

  predicate RowsOk(s: State) {
    forall i :: 0 <= i < |s.admitted| ==> AdmissionOk(s.admitted[i]) && s.admitted[i].checkedAt <= s.now
  }

  predicate SameCalls(admitted: seq<Admission>, admitted': seq<Admission>) {
    |admitted| == |admitted'| && forall i :: 0 <= i < |admitted| ==> admitted'[i].call == admitted[i].call
  }

  lemma StepKeepsRows(limits: seq<Limit>, s: State, a: Action)
    requires RowsOk(s) && !a.Admit?
    ensures RowsOk(Next(limits, s, a)) && SameCalls(s.admitted, Next(limits, s, a).admitted)
  {
    hide MatchingLimits, VerdictNow, Table, Over;
  }

  /** One admission in one step: what may still be counted, or costs, only shrinks. */
  lemma StepExposure(limits: seq<Limit>, s: State, a: Action, l: Limit, subject: Subject, i: nat)
    requires RowsOk(s) && !a.Admit? && i < |s.admitted|
    ensures var s' := Next(limits, s, a);
            var before, after := WindowStart(s.now, l.windowUnit), WindowStart(s'.now, l.windowUnit);
            && i < |s'.admitted|
            && ExposedCall(l, subject, after, s'.admitted[i]) <= ExposedCall(l, subject, before, s.admitted[i])
            && (CostsNotNegative(s.admitted) && EstimatesNotNegative(s.admitted) && ChargesWithin(s.admitted, [a]) ==>
                  Exposed(l, subject, after, s'.admitted[i]) <= Exposed(l, subject, before, s.admitted[i]))
  {
    hide MatchingLimits, VerdictNow, Table, Over, Covers, WindowSeconds;
    WindowMoves(s.now, Next(limits, s, a).now, l.windowUnit);
    assert [a][0] == a;
  }

  lemma WindowMoves(now: int, later: int, unit: string)
    ensures now <= later ==> WindowStart(now, unit) <= WindowStart(later, unit)
    ensures WindowStart(now, unit) <= now
  {
  }

  lemma StepKeepsCosts(limits: seq<Limit>, s: State, a: Action)
    requires !a.Admit? && CostsNotNegative(s.admitted) && EstimatesNotNegative(s.admitted) && ChargesWithin(s.admitted, [a])
    ensures CostsNotNegative(Next(limits, s, a).admitted) && EstimatesNotNegative(Next(limits, s, a).admitted)
  {
    hide MatchingLimits, VerdictNow, Table, Over;
    assert [a][0] == a;
  }

  lemma {:induction false} RunExposedCalls(limits: seq<Limit>, s: State, more: seq<Action>, l: Limit, subject: Subject)
    requires RowsOk(s) && AdmitsNone(more)
    ensures var s' := RunFrom(limits, s, more);
            && RowsOk(s') && SameCalls(s.admitted, s'.admitted)
            && Total(ExposedCalls(s'.admitted, l, subject, WindowStart(s'.now, l.windowUnit)))
               <= Total(ExposedCalls(s.admitted, l, subject, WindowStart(s.now, l.windowUnit)))
  {
    hide Next, Total, RowsOk, ExposedCall, WindowStart;
    if more != [] {
      var init, a := more[..|more| - 1], more[|more| - 1];
      RunExposedCalls(limits, s, init, l, subject);
      var mid := RunFrom(limits, s, init);
      var s' := Next(limits, mid, a);
      StepKeepsRows(limits, mid, a);
      forall i | 0 <= i < |mid.admitted|
        ensures ExposedCall(l, subject, WindowStart(s'.now, l.windowUnit), s'.admitted[i])
             <= ExposedCall(l, subject, WindowStart(mid.now, l.windowUnit), mid.admitted[i])
      {
        StepExposure(limits, mid, a, l, subject, i);
      }
      TotalMonotone(ExposedCalls(s'.admitted, l, subject, WindowStart(s'.now, l.windowUnit)),
                    ExposedCalls(mid.admitted, l, subject, WindowStart(mid.now, l.windowUnit)));
    }
  }

  lemma {:induction false} RunExposedCosts(limits: seq<Limit>, s: State, more: seq<Action>, l: Limit, subject: Subject)
    requires RowsOk(s) && AdmitsNone(more) && ChargesWithin(s.admitted, more)
    requires CostsNotNegative(s.admitted) && EstimatesNotNegative(s.admitted)
    ensures var s' := RunFrom(limits, s, more);
            && RowsOk(s') && SameCalls(s.admitted, s'.admitted)
            && CostsNotNegative(s'.admitted) && EstimatesNotNegative(s'.admitted)
            && Sum(ExposedCosts(s'.admitted, l, subject, WindowStart(s'.now, l.windowUnit)))
               <= Sum(ExposedCosts(s.admitted, l, subject, WindowStart(s.now, l.windowUnit)))
  {
    hide Next, Sum, RowsOk, Exposed, WindowStart, CostsNotNegative, EstimatesNotNegative;
    if more != [] {
      var init, a := more[..|more| - 1], more[|more| - 1];
      RunExposedCosts(limits, s, init, l, subject);
      var mid := RunFrom(limits, s, init);
      var s' := Next(limits, mid, a);
      ChargesLast(s.admitted, mid.admitted, more);
      StepKeepsRows(limits, mid, a);
      StepKeepsCosts(limits, mid, a);
      forall i | 0 <= i < |mid.admitted|
        ensures Exposed(l, subject, WindowStart(s'.now, l.windowUnit), s'.admitted[i])
             <= Exposed(l, subject, WindowStart(mid.now, l.windowUnit), mid.admitted[i])
      {
        StepExposure(limits, mid, a, l, subject, i);
      }
      SumMonotone(ExposedCosts(s'.admitted, l, subject, WindowStart(s'.now, l.windowUnit)),
                  ExposedCosts(mid.admitted, l, subject, WindowStart(mid.now, l.windowUnit)));
    }
  }

  lemma ChargesLast(admitted: seq<Admission>, admitted': seq<Admission>, more: seq<Action>)
    requires ChargesWithin(admitted, more) && SameCalls(admitted, admitted') && more != []
    ensures ChargesWithin(admitted', [more[|more| - 1]])
  {
  }

  // ---------------------------------------------------------------------------------
  // And the whole exposure can become usage
  // ---------------------------------------------------------------------------------

  /** Bring one call to its end at its estimate, without letting time pass. */
  function SettleOne(admitted: seq<Admission>, i: nat): seq<Action>
    requires i < |admitted|
  {
    if Finished(admitted[i]) then []
    else
      (if admitted[i].row.None? then [Reserve(i, Uuid(0), None, None)] else [])
      + [Commit(i, None, None, admitted[i].call.estimatedCost)]
  }

  lemma RunOneMore(limits: seq<Limit>, s: State, actions: seq<Action>, a: Action)
    ensures RunFrom(limits, s, actions + [a]) == Next(limits, RunFrom(limits, s, actions), a)
  {
    assert (actions + [a])[..|actions|] == actions;
  }

  lemma {:induction false} RunOn(limits: seq<Limit>, s: State, a: seq<Action>, b: seq<Action>)
    ensures RunFrom(limits, s, a + b) == RunFrom(limits, RunFrom(limits, s, a), b)
  {
    if b == [] {
      assert a + b == a;
    } else {
      RunOn(limits, s, a, b[..|b| - 1]);
      assert (a + b)[..|a + b| - 1] == a + b[..|b| - 1];
    }
  }

  /** The exposure of one call at a moment is the same in both lists. */
  predicate SameExposure(a: Admission, b: Admission, l: Limit, s: Subject, start: int) {
    Exposed(l, s, start, a) == Exposed(l, s, start, b) && ExposedCall(l, s, start, a) == ExposedCall(l, s, start, b)
  }

  /** A step that changes the i-th call only, and not its exposure. */
  predicate OnlyCall(s: State, s': State, i: nat, l: Limit, subject: Subject) {
    && i < |s.admitted| == |s'.admitted| && s'.now == s.now && s'.admitted[i].call == s.admitted[i].call
    && (forall k :: 0 <= k < |s.admitted| && k != i ==> s'.admitted[k] == s.admitted[k])
    && SameExposure(s'.admitted[i], s.admitted[i], l, subject, WindowStart(s.now, l.windowUnit))
  }

  lemma ReserveOne(limits: seq<Limit>, s: State, i: nat, l: Limit, subject: Subject)
    requires i < |s.admitted| && s.admitted[i].row.None?
    ensures var s' := Next(limits, s, Reserve(i, Uuid(0), None, None));
            OnlyCall(s, s', i, l, subject) && IsReserved(s'.admitted, i)
            && s'.admitted[i].row.value.subject == s.admitted[i].call.subject
            && s'.admitted[i].row.value.scope == s.admitted[i].call.scope
  {
    hide Covers, WindowSeconds;
    WindowMoves(s.now, s.now, l.windowUnit);
  }

  lemma CommitOne(limits: seq<Limit>, s: State, i: nat, l: Limit, subject: Subject)
    requires IsReserved(s.admitted, i)
    requires s.admitted[i].row.value.subject == s.admitted[i].call.subject
    requires s.admitted[i].row.value.scope == s.admitted[i].call.scope
    ensures var s' := Next(limits, s, Commit(i, None, None, s.admitted[i].call.estimatedCost));
            OnlyCall(s, s', i, l, subject) && Finished(s'.admitted[i])
  {
    hide Covers, WindowSeconds;
  }

  lemma OnlyCallTwice(s: State, mid: State, s': State, i: nat, l: Limit, subject: Subject)
    requires OnlyCall(s, mid, i, l, subject) && OnlyCall(mid, s', i, l, subject)
    ensures OnlyCall(s, s', i, l, subject)
  {
    hide Exposed, ExposedCall, WindowStart;
  }

  lemma RunOneOrTwo(limits: seq<Limit>, s: State, a: Action, b: Action)
    ensures RunFrom(limits, s, []) == s && RunFrom(limits, s, [a]) == Next(limits, s, a)
    ensures RunFrom(limits, s, [a, b]) == Next(limits, Next(limits, s, a), b)
  {
    hide Next;
    assert [] + [a] == [a] && [a] + [b] == [a, b];
    RunOneMore(limits, s, [], a);
    RunOneMore(limits, s, [a], b);
  }

  lemma SettleOneSettles(limits: seq<Limit>, s: State, i: nat, l: Limit, subject: Subject)
    requires RowsOk(s) && i < |s.admitted|
    ensures var s' := RunFrom(limits, s, SettleOne(s.admitted, i));
            OnlyCall(s, s', i, l, subject) && Finished(s'.admitted[i])
  {
    hide Next, RunFrom, Exposed, ExposedCall, WindowStart;
    assert AdmissionOk(s.admitted[i]);
    var reserve := Reserve(i, Uuid(0), None, None);
    var commit := Commit(i, None, None, s.admitted[i].call.estimatedCost);
    RunOneOrTwo(limits, s, reserve, commit);
    RunOneOrTwo(limits, s, commit, commit);
    if s.admitted[i].row.None? {
      assert SettleOne(s.admitted, i) == [reserve, commit];
      hide OnlyCall, Finished, RowsOk;
      var mid := Next(limits, s, reserve);
      ReserveOne(limits, s, i, l, subject);
      KeepsCall(s, mid, i, l, subject);
      CommitOne(limits, mid, i, l, subject);
      OnlyCallTwice(s, mid, Next(limits, mid, commit), i, l, subject);
    } else if IsReserved(s.admitted, i) {
      assert SettleOne(s.admitted, i) == [commit];
      CommitOne(limits, s, i, l, subject);
    }
  }

  lemma KeepsCall(s: State, s': State, i: nat, l: Limit, subject: Subject)
    requires OnlyCall(s, s', i, l, subject)
    ensures i < |s.admitted| == |s'.admitted| && s'.admitted[i].call == s.admitted[i].call
  {
  }

  /** Everything under way is brought to its end at its estimate. */
  lemma {:induction false} SettleFirst(limits: seq<Limit>, s: State, n: nat, l: Limit, subject: Subject) returns (more: seq<Action>)
    requires RowsOk(s) && n <= |s.admitted|
    ensures AdmitsNone(more) && (EstimatesNotNegative(s.admitted) ==> ChargesWithin(s.admitted, more))
    ensures var s' := RunFrom(limits, s, more);
            && s'.now == s.now && SameCalls(s.admitted, s'.admitted)
            && (forall i :: 0 <= i < n ==> Finished(s'.admitted[i]))
            && (forall i :: n <= i < |s.admitted| ==> s'.admitted[i] == s.admitted[i])
            && (forall i :: 0 <= i < |s.admitted| ==>
                  SameExposure(s'.admitted[i], s.admitted[i], l, subject, WindowStart(s.now, l.windowUnit)))
  {
    hide RunFrom, SameExposure, WindowStart, RowsOk, SettleOne, AdmitsNone, ChargesWithin, Finished;
    if n == 0 {
      more := [];
      SettleNothing(limits, s);
      SameAsItself(s.admitted, l, subject, WindowStart(s.now, l.windowUnit));
    } else {
      var before := SettleFirst(limits, s, n - 1, l, subject);
      var mid := RunFrom(limits, s, before);
      RunExposedCalls(limits, s, before, l, subject);
      SettleOneSettles(limits, mid, n - 1, l, subject);
      var last := SettleOne(mid.admitted, n - 1);
      RunOn(limits, s, before, last);
      SettleOneCharges(s.admitted, mid.admitted, before, n - 1);
      more := before + last;
    }
  }

  lemma SettleNothing(limits: seq<Limit>, s: State)
    ensures RunFrom(limits, s, []) == s && AdmitsNone([]) && ChargesWithin(s.admitted, [])
  {
  }

  lemma SettleOneCharges(admitted: seq<Admission>, admitted': seq<Admission>, before: seq<Action>, i: nat)
    requires SameCalls(admitted, admitted') && i < |admitted| && AdmitsNone(before)
    requires EstimatesNotNegative(admitted) ==> ChargesWithin(admitted, before)
    ensures AdmitsNone(before + SettleOne(admitted', i))
    ensures EstimatesNotNegative(admitted) ==> ChargesWithin(admitted, before + SettleOne(admitted', i))
  {
  }

  lemma SameAsItself(admitted: seq<Admission>, l: Limit, s: Subject, start: int)
    ensures forall i :: 0 <= i < |admitted| ==> SameExposure(admitted[i], admitted[i], l, s, start)
  {
  }

  /** There is a continuation within the estimates whose usage is the whole exposure. */
  lemma ExposureIsReached(limits: seq<Limit>, s: State, l: Limit, subject: Subject) returns (more: seq<Action>)
    requires RowsOk(s)
    ensures AdmitsNone(more) && (EstimatesNotNegative(s.admitted) ==> ChargesWithin(s.admitted, more))
    ensures var from := WindowStart(s.now, l.windowUnit);
            && UsageNow(RunFrom(limits, s, more), l, subject).cost == Sum(ExposedCosts(s.admitted, l, subject, from))
            && UsageNow(RunFrom(limits, s, more), l, subject).requests == Total(ExposedCalls(s.admitted, l, subject, from))
  {
    hide RunFrom, Sum, Total, UsageOf, Exposed, ExposedCall;
    more := SettleFirst(limits, s, |s.admitted|, l, subject);
    var s' := RunFrom(limits, s, more);
    var from := WindowStart(s.now, l.windowUnit);
    NothingOutstanding(s'.admitted, l, subject, from);
    assert forall i :: 0 <= i < |s.admitted| ==> SameExposure(s'.admitted[i], s.admitted[i], l, subject, from);
    assert ExposedCosts(s'.admitted, l, subject, from) == ExposedCosts(s.admitted, l, subject, from);
    assert ExposedCalls(s'.admitted, l, subject, from) == ExposedCalls(s.admitted, l, subject, from);
  }

  // ---------------------------------------------------------------------------------
  // The exact conditions
  // ---------------------------------------------------------------------------------

  lemma ReachedRowsOk(limits: seq<Limit>, start: int, actions: seq<Action>)
    ensures RowsOk(Run(limits, start, actions))
  {
    hide Run;
    RunKeepsInv(limits, start, actions);
    var s := Run(limits, start, actions);
    forall i | 0 <= i < |s.admitted| ensures AdmissionOk(s.admitted[i]) && s.admitted[i].checkedAt <= s.now {
      assert AdmittedOk(limits, s, i);
    }
  }

  /**
    In every reachable state: the window's cost stays within a bound, however the calls under way go on within
    their estimates, exactly if what it counts now and the estimates of the outstanding calls are within it.
    */
  lemma KeepsCostExactly(limits: seq<Limit>, start: int, actions: seq<Action>, l: Limit, subject: Subject, bound: real)
    requires var s := Run(limits, start, actions);
             CostsNotNegative(s.admitted) && EstimatesNotNegative(s.admitted)
    ensures var s := Run(limits, start, actions);
            var outstanding := Sum(OutstandingCosts(s.admitted, l, subject, WindowStart(s.now, l.windowUnit)));
            KeepsCost(limits, s, l, subject, bound) <==> UsageNow(s, l, subject).cost + outstanding <= bound
  {
    hide Run, RunFrom, Sum, Total, UsageOf, RowsOk, CostsNotNegative, EstimatesNotNegative, ChargesWithin, ExposedCosts, OutstandingCosts;
    var s := Run(limits, start, actions);
    ReachedRowsOk(limits, start, actions);
    ExposureIsSum(s.admitted, l, subject, WindowStart(s.now, l.windowUnit));
    var most := ExposureIsReached(limits, s, l, subject);
    forall more | AdmitsNone(more) && ChargesWithin(s.admitted, more)
      ensures UsageNow(RunFrom(limits, s, more), l, subject).cost
           <= Sum(ExposedCosts(s.admitted, l, subject, WindowStart(s.now, l.windowUnit)))
    {
      RunExposedCosts(limits, s, more, l, subject);
      UsageIsExposed(RunFrom(limits, s, more), l, subject);
    }
  }

  lemma UsageIsExposed(s: State, l: Limit, subject: Subject)
    ensures var from := WindowStart(s.now, l.windowUnit);
            && UsageNow(s, l, subject).requests <= Total(ExposedCalls(s.admitted, l, subject, from))
            && (EstimatesNotNegative(s.admitted) ==> UsageNow(s, l, subject).cost <= Sum(ExposedCosts(s.admitted, l, subject, from)))
  {
    hide Sum, Total, UsageOf;
    var from := WindowStart(s.now, l.windowUnit);
    ExposureIsSum(s.admitted, l, subject, from);
    if EstimatesNotNegative(s.admitted) {
      var none := seq(|s.admitted|, i => 0.0);
      SumMonotone(none, OutstandingCosts(s.admitted, l, subject, from));
      SumZero(none);
    }
  }

  /** The same for the number of calls, whatever the calls under way cost. */
  lemma KeepsRequestsExactly(limits: seq<Limit>, start: int, actions: seq<Action>, l: Limit, subject: Subject, bound: nat)
    ensures var s := Run(limits, start, actions);
            var outstanding := Total(OutstandingCalls(s.admitted, l, subject, WindowStart(s.now, l.windowUnit)));
            KeepsRequests(limits, s, l, subject, bound) <==> UsageNow(s, l, subject).requests + outstanding <= bound
  {
    hide Run, RunFrom, Sum, Total, UsageOf, RowsOk, ExposedCalls, OutstandingCalls;
    var s := Run(limits, start, actions);
    ReachedRowsOk(limits, start, actions);
    ExposureIsSum(s.admitted, l, subject, WindowStart(s.now, l.windowUnit));
    var most := ExposureIsReached(limits, s, l, subject);
    forall more | AdmitsNone(more)
      ensures UsageNow(RunFrom(limits, s, more), l, subject).requests
           <= Total(ExposedCalls(s.admitted, l, subject, WindowStart(s.now, l.windowUnit)))
    {
      RunExposedCalls(limits, s, more, l, subject);
      UsageIsExposed(RunFrom(limits, s, more), l, subject);
    }
  }

  /** After some continuation, the i-th admitted call is counted by the limit. */
  predicate CountedAfter(limits: seq<Limit>, s: State, more: seq<Action>, l: Limit, i: nat) {
    var s' := RunFrom(limits, s, more);
    AdmitsNone(more) && i < |s'.admitted|
    && Counts(l, s'.admitted[i].call.subject, WindowStart(s'.now, l.windowUnit), s'.admitted[i])
  }

  /**
    A call that has just been admitted, by a limit that may match it, can come to be counted by that limit
    exactly if the limit covers its scope.
    */
  lemma CountableExactly(limits: seq<Limit>, start: int, actions: seq<Action>, l: Limit, i: nat)
    requires i < |Run(limits, start, actions).admitted| && Run(limits, start, actions).admitted[i].row.None?
    ensures var s := Run(limits, start, actions);
            (exists more :: CountedAfter(limits, s, more, l, i)) <==> Covers(l, s.admitted[i].call.scope)
  {
    hide Run, RunFrom, RowsOk, SettleOne, Covers, Next;
    var s := Run(limits, start, actions);
    ReachedRowsOk(limits, start, actions);
    var c := s.admitted[i].call;
    forall more | CountedAfter(limits, s, more, l, i) ensures Covers(l, c.scope) {
      RunExposedCalls(limits, s, more, l, c.subject);
      CoveredIfCounted(RunFrom(limits, s, more), l, i);
    }
    if Covers(l, c.scope) {
      SettleOneSettles(limits, s, i, l, c.subject);
      SettleOneAdmitsNone(s.admitted, i);
      assert Outstanding(l, c.subject, WindowStart(s.now, l.windowUnit), s.admitted[i]);
      assert CountedAfter(limits, s, SettleOne(s.admitted, i), l, i);
    }
  }

  lemma CoveredIfCounted(s: State, l: Limit, i: nat)
    requires RowsOk(s) && i < |s.admitted| && Counts(l, s.admitted[i].call.subject, WindowStart(s.now, l.windowUnit), s.admitted[i])
    ensures Covers(l, s.admitted[i].call.scope)
  {
    assert AdmissionOk(s.admitted[i]);
  }

  lemma SettleOneAdmitsNone(admitted: seq<Admission>, i: nat)
    requires i < |admitted|
    ensures AdmitsNone(SettleOne(admitted, i))
  {
  }

  // ---------------------------------------------------------------------------------
  // An overrun
  // ---------------------------------------------------------------------------------

  /** Two calls checked before either commits. */
  function TwoChecks(c: Call, a: Uuid, b: Uuid): seq<Action> {
    [BeginCheck(a, c), BeginCheck(b, c), ReadNext(a), ReadNext(b), Admit(a), Admit(b)]
  }

  lemma OneLimitMatches(l: Limit, c: Call)
    requires Matches(l, c)
    ensures MatchingLimits([l], c) == [l]
  {
    hide Matches;
    assert [l][..0] == [];
    var own := ExactSubject(l, c.subject);
    assert MatchingGroup([l], c, own) == [] + [l] == [l];
    assert MatchingGroup([l], c, !own) == [];
    assert [l] + [] == [] + [l] == [l];
  }

  lemma NothingSpent(l: Limit, c: Call, at: int)
    requires l.maxCost == Some(c.estimatedCost) && l.blockThreshold.None?
    requires l.maxRequests.None? && l.maxInputTokens.None? && l.maxOutputTokens.None? && l.maxTotalTokens.None?
    ensures VerdictNow(l, Table([]), at, c).None?
  {
  }

  lemma TwoAdmitted(l: Limit, c: Call, start: int, a: Uuid, b: Uuid)
    requires a != b && Matches(l, c) && l.maxCost == Some(c.estimatedCost) && l.blockThreshold.None?
    requires l.maxRequests.None? && l.maxInputTokens.None? && l.maxOutputTokens.None? && l.maxTotalTokens.None?
    ensures var s := Run([l], start, TwoChecks(c, a, b));
            s.now == start && s.admitted == [Admission(c, start, {}, None), Admission(c, start, {}, None)]
  {
    hide Matches, MatchingLimits, VerdictNow, Table, RunFrom;
    OneLimitMatches(l, c);
    NothingSpent(l, c, start);
    var s0, all := State(start, [], map[]), TwoChecks(c, a, b);
    var check := Checking(c, start, {}, 0);
    assert Over([]) == {};
    RunSteps([l], s0, all);
    var s2 := State(start, [], map[a := check, b := check]);
    assert Next([l], Next([l], s0, all[0]), all[1]) == s2;
    var s4 := State(start, [], map[a := check.(passed := 1), b := check.(passed := 1)]);
    assert Next([l], Next([l], s2, all[2]), all[3]) == s4;
  }

  lemma RunSteps(limits: seq<Limit>, s: State, actions: seq<Action>)
    requires |actions| == 6
    ensures RunFrom(limits, s, actions)
         == Next(limits, Next(limits, Next(limits, Next(limits, Next(limits, Next(limits, s,
              actions[0]), actions[1]), actions[2]), actions[3]), actions[4]), actions[5])
  {
    hide Next;
    assert RunFrom(limits, s, actions[..0]) == s;
    forall k | 0 <= k < 6 ensures RunFrom(limits, s, actions[..k + 1]) == Next(limits, RunFrom(limits, s, actions[..k]), actions[k]) {
      assert actions[..k + 1] == actions[..k] + [actions[k]];
      RunOneMore(limits, s, actions[..k], actions[k]);
    }
    assert actions[..6] == actions;
  }

  /**
    Concurrent checks can overrun a limit even when every call costs what was estimated: both calls are
    admitted, and together they cost twice the limit.
    */
  lemma ConcurrentChecksOverrun(l: Limit, c: Call, start: int, a: Uuid, b: Uuid) returns (actions: seq<Action>)
    requires a != b && Matches(l, c) && Covers(l, c.scope) && c.estimatedCost > 0.0
    requires l.maxCost == Some(c.estimatedCost) && l.blockThreshold.None?
    requires l.maxRequests.None? && l.maxInputTokens.None? && l.maxOutputTokens.None? && l.maxTotalTokens.None?
    ensures TwoChecks(c, a, b) <= actions
    ensures UsageNow(Run([l], start, actions), l, c.subject).cost == 2.0 * c.estimatedCost
  {
    hide Matches, Covers, RunFrom, Sum, UsageNow, Outstanding;
    var s := Run([l], start, TwoChecks(c, a, b));
    TwoAdmitted(l, c, start, a, b);
    ReachedRowsOk([l], start, TwoChecks(c, a, b));
    var more := ExposureIsReached([l], s, l, c.subject);
    RunOn([l], State(start, [], map[]), TwoChecks(c, a, b), more);
    actions := TwoChecks(c, a, b) + more;
    TwiceExposed(l, c, s.admitted, WindowStart(s.now, l.windowUnit));
  }

  lemma TwiceExposed(l: Limit, c: Call, admitted: seq<Admission>, from: int)
    requires |admitted| == 2 && Covers(l, c.scope)
    requires forall i :: 0 <= i < 2 ==> admitted[i].call == c && admitted[i].row.None?
    ensures Sum(ExposedCosts(admitted, l, c.subject, from)) == 2.0 * c.estimatedCost
  {
    var terms := ExposedCosts(admitted, l, c.subject, from);
    assert terms == [c.estimatedCost] + [c.estimatedCost];
    SumPush([], c.estimatedCost);
    SumPush([c.estimatedCost], c.estimatedCost);
    assert [] + [c.estimatedCost] == [c.estimatedCost];
  }
}
