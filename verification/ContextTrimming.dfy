/**
  Greedy token-budget trimming of the ranked groups, and the item list of the finished pack.
  Ratios are exact numbers, so products are not rounded.
*/
module ContextTrimming {
  import opened Basics
  import opened ContextRanking

  function TokenSum(items: seq<Item>): nat {
    if items == [] then 0 else TokenSum(items[..|items| - 1]) + Tokens(items[|items| - 1])
  }

  /** The items whose flag is `wanted`, in order. */
  function Picked(items: seq<Item>, flags: seq<bool>, wanted: bool): seq<Item>
    requires |items| == |flags|
  {
    if items == [] then []
    else
      var init := Picked(items[..|items| - 1], flags[..|items| - 1], wanted);
      if flags[|items| - 1] == wanted then init + [items[|items| - 1]] else init
  }

  /** Whether each item fits on top of the items already taken before it. */
  function TrimFlags(items: seq<Item>, budget: int): (flags: seq<bool>)
    ensures |flags| == |items|
  {
    if items == [] then []
    else
      var init := TrimFlags(items[..|items| - 1], budget);
      init + [TokenSum(Picked(items[..|items| - 1], init, true)) + Tokens(items[|items| - 1]) <= budget]
  }

  function Taken(items: seq<Item>, budget: int): seq<Item> { Picked(items, TrimFlags(items, budget), true) }

  function Trimmed(items: seq<Item>, budget: int): seq<Item> { Picked(items, TrimFlags(items, budget), false) }

  // ---------------------------------------------------------------------------------
  // What the greedy choice is
  // ---------------------------------------------------------------------------------

  lemma PickedPush(items: seq<Item>, flags: seq<bool>, x: Item, flag: bool, wanted: bool)
    requires |items| == |flags|
    ensures Picked(items + [x], flags + [flag], wanted)
         == if flag == wanted then Picked(items, flags, wanted) + [x] else Picked(items, flags, wanted)
  {
    assert (items + [x])[..|items|] == items && (flags + [flag])[..|flags|] == flags;
  }

  lemma TokenSumPush(items: seq<Item>, x: Item)
    ensures TokenSum(items + [x]) == TokenSum(items) + Tokens(x)
  {
    assert (items + [x])[..|items|] == items;
  }

  /** One more candidate: it is taken exactly when it still fits. */
  lemma TrimPush(items: seq<Item>, x: Item, budget: int)
    ensures var fits := TokenSum(Taken(items, budget)) + Tokens(x) <= budget;
            && TrimFlags(items + [x], budget) == TrimFlags(items, budget) + [fits]
            && Taken(items + [x], budget) == (if fits then Taken(items, budget) + [x] else Taken(items, budget))
            && Trimmed(items + [x], budget) == (if fits then Trimmed(items, budget) else Trimmed(items, budget) + [x])
  {
    var flags := TrimFlags(items, budget);
    var fits := TokenSum(Taken(items, budget)) + Tokens(x) <= budget;
    assert (items + [x])[..|items|] == items;
    PickedPush(items, flags, x, fits, true);
    PickedPush(items, flags, x, fits, false);
  }

  lemma {:induction false} TakenFitsBudget(items: seq<Item>, budget: int)
    ensures TokenSum(Taken(items, budget)) <= if budget > 0 then budget else 0
    ensures budget < 0 ==> Taken(items, budget) == []
  {
    if items != [] {
      var init, last := items[..|items| - 1], items[|items| - 1];
      assert items == init + [last];
      TakenFitsBudget(init, budget);
      TrimPush(init, last, budget);
      TokenSumPush(Taken(init, budget), last);
    }
  }

  /** No excluded item fits on top of what its group finally takes. */
  lemma {:induction false} NothingMoreFits(items: seq<Item>, budget: int, i: nat)
    requires i < |items| && !TrimFlags(items, budget)[i]
    ensures TokenSum(Taken(items, budget)) + Tokens(items[i]) > budget
  {
    var init, last := items[..|items| - 1], items[|items| - 1];
    assert items == init + [last];
    TrimPush(init, last, budget);
    TokenSumPush(Taken(init, budget), last);
    if i < |init| {
      NothingMoreFits(init, budget, i);
    }
  }

  lemma {:induction false} TrimPartitions(items: seq<Item>, flags: seq<bool>)
    requires |items| == |flags|
    ensures multiset(Picked(items, flags, true)) + multiset(Picked(items, flags, false)) == multiset(items)
  {
    if items != [] {
      assert items == items[..|items| - 1] + [items[|items| - 1]];
      TrimPartitions(items[..|items| - 1], flags[..|items| - 1]);
    }
  }

  ghost predicate Feasible(items: seq<Item>, flags: seq<bool>, budget: int) {
    |flags| == |items| && TokenSum(Picked(items, flags, true)) <= budget
  }

  /** At the first place where they differ, a takes the item and b does not. */
  ghost predicate Prefers(a: seq<bool>, b: seq<bool>) {
    |a| == |b| && exists i :: 0 <= i < |a| && a[..i] == b[..i] && a[i] && !b[i]
  }

  lemma PrefersPush(a: seq<bool>, b: seq<bool>, x: bool, y: bool)
    requires Prefers(a, b)
    ensures Prefers(a + [x], b + [y])
  {
    var i :| 0 <= i < |a| && a[..i] == b[..i] && a[i] && !b[i];
    assert (a + [x])[..i] == a[..i] && (b + [y])[..i] == b[..i];
    assert (a + [x])[i] && !(b + [y])[i];
  }

  lemma {:induction false} GreedyBeats(items: seq<Item>, flags: seq<bool>, budget: int)
    requires Feasible(items, flags, budget)
    ensures flags == TrimFlags(items, budget) || Prefers(TrimFlags(items, budget), flags)
  {
    if items != [] {
      var init, last := items[..|items| - 1], items[|items| - 1];
      var flags', flag := flags[..|init|], flags[|init|];
      assert items == init + [last] && flags == flags' + [flag];
      FeasiblePop(init, flags', last, flag, budget);
      GreedyBeats(init, flags', budget);
      TrimPush(init, last, budget);
      hide TokenSum, Picked, TrimFlags, Prefers, Taken;
      var best, fits := TrimFlags(init, budget), TokenSum(Taken(init, budget)) + Tokens(last) <= budget;
      if flags' != best {
        PrefersPush(best, flags', fits, flag);
      } else if flag != fits {
        PrefersLast(best, fits, flag);
      }
    }
  }

  /** A feasible choice is feasible without its last item, and if it takes that, the item fits on top. */
  lemma FeasiblePop(items: seq<Item>, flags: seq<bool>, x: Item, flag: bool, budget: int)
    requires |items| == |flags| && Feasible(items + [x], flags + [flag], budget)
    ensures Feasible(items, flags, budget)
    ensures flag ==> TokenSum(Picked(items, flags, true)) + Tokens(x) <= budget
  {
    hide TokenSum, Picked;
    PickedPush(items, flags, x, flag, true);
    TokenSumPush(Picked(items, flags, true), x);
  }

  lemma PrefersLast(flags: seq<bool>, x: bool, y: bool)
    requires x && !y
    ensures Prefers(flags + [x], flags + [y])
  {
    assert (flags + [x])[..|flags|] == flags == (flags + [y])[..|flags|];
    assert (flags + [x])[|flags|] && !(flags + [y])[|flags|];
  }

  ghost predicate BestByRank(items: seq<Item>, flags: seq<bool>, budget: nat) {
    && Feasible(items, flags, budget)
    && forall other :: Feasible(items, other, budget) ==> other == flags || Prefers(flags, other)
  }

  /**
    The greedy choice is the best one by rank: among all choices that stay within a non-negative budget it
    is the one that at the first difference with any other choice takes the better-ranked item.
    */
  lemma GreedyIsBestByRank(items: seq<Item>, flags: seq<bool>, budget: nat)
    ensures flags == TrimFlags(items, budget) <==> BestByRank(items, flags, budget)
  {
    var best := TrimFlags(items, budget);
    TakenFitsBudget(items, budget);
    assert Feasible(items, best, budget);
    forall other | Feasible(items, other, budget) ensures other == best || Prefers(best, other) {
      GreedyBeats(items, other, budget);
    }
    if flags != best && Feasible(items, flags, budget) {
      PrefersOneWay(best, flags);
    }
  }

  lemma PrefersOneWay(a: seq<bool>, b: seq<bool>)
    requires Prefers(a, b)
    ensures !Prefers(b, a)
  {
    var i :| 0 <= i < |a| && a[..i] == b[..i] && a[i] && !b[i];
    assert forall k :: 0 <= k < i ==> a[k] == a[..i][k] == b[..i][k] == b[k];
    forall j | 0 <= j < |b| && b[j] && !a[j] ensures b[..j] != a[..j] {
      assert b[..j][i] != a[..j][i];
    }
  }

  // ---------------------------------------------------------------------------------
  // Budgets
  // ---------------------------------------------------------------------------------

  /** int(x): towards zero. */
  function Truncate(x: real): int { if x >= 0.0 then x.Floor else -((-x).Floor) }

  function UsableTokens(maxTokens: int, reserve: int): (usable: int)
    ensures usable >= 1
  {
    if maxTokens - reserve > 1 then maxTokens - reserve else 1
  }

  function Positive(n: int): nat { if n > 0 then n else 0 }

  function Portion(whole: real, ratio: real): real { whole * ratio }

  lemma PortionsFit(whole: real, a: real, b: real)
    requires whole >= 0.0 && a >= 0.0 && b >= 0.0 && a + b <= 1.0
    ensures Portion(whole, a) >= 0.0 && Portion(whole, b) >= 0.0 && Portion(whole, a) + Portion(whole, b) <= whole
  {
    assert whole * a + whole * b == whole * (a + b);
    assert whole * (1.0 - (a + b)) >= 0.0;
  }

  lemma TruncatedParts(a: real, b: real, whole: int)
    requires a >= 0.0 && b >= 0.0 && a + b <= whole as real
    ensures Truncate(a) >= 0 && Truncate(b) >= 0 && Truncate(a) + Truncate(b) <= whole
  {
    assert Truncate(a) as real <= a && Truncate(b) as real <= b;
  }

  /** A group's budget: int(usable_tokens * ratio). */
  function Share(usable: int, ratio: real): int { Truncate(Portion(usable as real, ratio)) }

  lemma SharesFit(usable: int, a: real, b: real)
    requires usable >= 1 && a >= 0.0 && b >= 0.0 && a + b <= 1.0
    ensures Share(usable, a) >= 0 && Share(usable, b) >= 0 && Share(usable, a) + Share(usable, b) <= usable
  {
    hide Truncate, Portion;
    PortionsFit(usable as real, a, b);
    TruncatedParts(Portion(usable as real, a), Portion(usable as real, b), usable);
  }

  /** With non-negative ratios that sum to at most one, everything included fits the usable tokens. */
  lemma TotalWithinUsable(knowledge: seq<Item>, memories: seq<Item>, maxTokens: int, reserve: int,
                          knowledgeRatio: real, memoryRatio: real)
    requires knowledgeRatio >= 0.0 && memoryRatio >= 0.0 && knowledgeRatio + memoryRatio <= 1.0
    ensures var usable := UsableTokens(maxTokens, reserve);
            TokenSum(Taken(knowledge, Share(usable, knowledgeRatio)))
            + TokenSum(Taken(memories, Share(usable, memoryRatio))) <= usable
  {
    hide Taken, TokenSum, Share, UsableTokens;
    var usable := UsableTokens(maxTokens, reserve);
    SharesFit(usable, knowledgeRatio, memoryRatio);
    TakenFitsBudget(knowledge, Share(usable, knowledgeRatio));
    TakenFitsBudget(memories, Share(usable, memoryRatio));
  }

  /** The optional settings of a compilation. */
  datatype TokenBudget = TokenBudget(maxTokens: Option<int>, reserve: Option<int>,
                                     knowledgeRatio: Option<real>, memoryRatio: Option<real>)

  datatype GroupBudgets = GroupBudgets(usable: int, knowledge: int, memory: int)

  function Given<T>(setting: Option<T>, default: T): T { if setting.Some? then setting.value else default }

  /** The two groups' budgets, with the defaults of the compiler. */
  function Budgets(b: TokenBudget): GroupBudgets {
    var usable := UsableTokens(Given(b.maxTokens, 4096), Given(b.reserve, 512));
    GroupBudgets(usable, Share(usable, Given(b.knowledgeRatio, 0.6)), Share(usable, Given(b.memoryRatio, 0.4)))
  }

  /** n is the product cut off towards zero. */
  ghost predicate IsShare(n: int, usable: int, ratio: real) {
    var x := usable as real * ratio;
    if x >= 0.0 then n as real <= x < n as real + 1.0 else n as real - 1.0 < x <= n as real
  }

  /** One usable token is left at least, and the two budgets are its shares cut off towards zero. */
  lemma BudgetsExact(maxTokens: int, reserve: int, a: real, b: real)
    ensures var r := Budgets(TokenBudget(Some(maxTokens), Some(reserve), Some(a), Some(b)));
            && r.usable == (if maxTokens > reserve then maxTokens - reserve else 1)
            && IsShare(r.knowledge, r.usable, a) && IsShare(r.memory, r.usable, b)
  {
    hide Share, IsShare;
    var r := Budgets(TokenBudget(Some(maxTokens), Some(reserve), Some(a), Some(b)));
    ShareExact(r.usable, a);
    ShareExact(r.usable, b);
  }

  lemma ShareExact(usable: int, ratio: real)
    ensures IsShare(Share(usable, ratio), usable, ratio)
  {
    CutsOff(Portion(usable as real, ratio));
  }

  lemma CutsOff(x: real)
    ensures var n := Truncate(x);
            if x >= 0.0 then n as real <= x < n as real + 1.0 else n as real - 1.0 < x <= n as real
  {
  }

  /** Settings left out stand for 4096 tokens, 512 reserved, and ratios of 0.6 and 0.4. */
  lemma DefaultsExact(b: TokenBudget)
    ensures Budgets(b) == Budgets(TokenBudget(if b.maxTokens.None? then Some(4096) else b.maxTokens,
                                              if b.reserve.None? then Some(512) else b.reserve,
                                              if b.knowledgeRatio.None? then Some(0.6) else b.knowledgeRatio,
                                              if b.memoryRatio.None? then Some(0.4) else b.memoryRatio))
    ensures Budgets(TokenBudget(None, None, None, None)) == GroupBudgets(3584, 2150, 1433)
  {
    BudgetsExact(4096, 512, 0.6, 0.4);
    var r := Budgets(TokenBudget(Some(4096), Some(512), Some(0.6), Some(0.4)));
    assert r.usable as real * 0.6 == 2150.4 && r.usable as real * 0.4 == 1433.6;
  }

  /** An item counts with its own tokens, and with none if it has no count. */
  lemma TokenSumExact(items: seq<Item>, x: Item, n: nat)
    ensures TokenSum([]) == 0
    ensures TokenSum(items + [x.(tokenCount := Some(n))]) == TokenSum(items) + n
    ensures TokenSum(items + [x.(tokenCount := None)]) == TokenSum(items)
  {
    TokenSumPush(items, x.(tokenCount := Some(n)));
    TokenSumPush(items, x.(tokenCount := None));
  }

  lemma TakesOneThatFits(x: Item, budget: int)
    requires Tokens(x) <= budget
    ensures TokenSum(Taken([x], budget)) == Tokens(x)
  {
    TrimPush([], x, budget);
    assert [] + [x] == [x];
    TokenSumPush([], x);
  }

  ghost predicate AlwaysFits(knowledgeBudget: int, memoryBudget: int, usable: int) {
    forall knowledge, memories ::
      AllOfKind(knowledge, KnowledgeChunk) && AllOfKind(memories, MemoryItem) ==>
        TokenSum(Taken(knowledge, knowledgeBudget)) + TokenSum(Taken(memories, memoryBudget)) <= usable
  }

  /** For any ratios: the included tokens always fit exactly when the two positive budgets together do. */
  lemma TotalFitsExactly(knowledgeBudget: int, memoryBudget: int, usable: int)
    ensures AlwaysFits(knowledgeBudget, memoryBudget, usable)
       <==> Positive(knowledgeBudget) + Positive(memoryBudget) <= usable
  {
    hide Taken, TokenSum, AllOfKind;
    forall items, budget: int ensures TokenSum(Taken(items, budget)) <= Positive(budget) {
      TakenFitsBudget(items, budget);
    }
    var knowledge := FillsBudget(KnowledgeChunk, knowledgeBudget);
    var memories := FillsBudget(MemoryItem, memoryBudget);
  }

  /** Some candidates use up a budget, unless it is negative. */
  lemma FillsBudget(kind: ItemType, budget: int) returns (items: seq<Item>)
    ensures AllOfKind(items, kind) && TokenSum(Taken(items, budget)) == Positive(budget)
  {
    var x := Item(kind, None, 0.0, Some(Positive(budget)));
    if budget > 0 {
      items := [x];
      TakesOneThatFits(x, budget);
    } else {
      items := [];
    }
  }

  // ---------------------------------------------------------------------------------
  // The loops, and the finished item list
  // ---------------------------------------------------------------------------------

  /** An item with the decision written into it. */
  datatype Placed = Placed(item: Item, included: bool, exclusionReason: Option<string>)

  const TOKEN_BUDGET_EXCEEDED := "token_budget_exceeded"

  function Included(items: seq<Item>): (r: seq<Placed>)
    ensures |r| == |items|
  {
    seq(|items|, i requires 0 <= i < |items| => Placed(items[i], true, None))
  }

  function Excluded(items: seq<Item>): (r: seq<Placed>)
    ensures |r| == |items|
  {
    seq(|items|, i requires 0 <= i < |items| => Placed(items[i], false, Some(TOKEN_BUDGET_EXCEEDED)))
  }

  lemma PlacedPush(taken: seq<Item>, trimmed: seq<Item>, x: Item)
    ensures Included(taken + [x]) == Included(taken) + [Placed(x, true, None)]
    ensures Excluded(trimmed + [x]) == Excluded(trimmed) + [Placed(x, false, Some(TOKEN_BUDGET_EXCEEDED))]
  {
  }

  lemma TrimNothing(budget: int)
    ensures Taken([], budget) == [] && Trimmed([], budget) == [] && TokenSum([]) == 0
  {
  }

  /** The trimming loop of one group, appending to the two lists. */
  method TrimGroup(items: seq<Item>, budget: int, included0: seq<Placed>, excluded0: seq<Placed>)
    returns (included: seq<Placed>, excluded: seq<Placed>, tokenSum: nat)
    ensures included == included0 + Included(Taken(items, budget))
    ensures excluded == excluded0 + Excluded(Trimmed(items, budget))
    ensures tokenSum == TokenSum(Taken(items, budget))
  {
    hide TrimFlags, Picked, Taken, Trimmed, TokenSum, Included, Excluded, Tokens;
    included, excluded, tokenSum := included0, excluded0, 0;
    var i := 0;
    TrimNothing(budget);
    while i < |items|
      invariant 0 <= i <= |items|
      invariant included == included0 + Included(Taken(items[..i], budget))
      invariant excluded == excluded0 + Excluded(Trimmed(items[..i], budget))
      invariant tokenSum == TokenSum(Taken(items[..i], budget))
    {
      var item := items[i];
      ghost var taken, trimmed := Taken(items[..i], budget), Trimmed(items[..i], budget);
      assert items[..i + 1] == items[..i] + [item];
      TrimPush(items[..i], item, budget);
      TokenSumPush(taken, item);
      PlacedPush(taken, trimmed, item);
      if tokenSum + Tokens(item) <= budget {
        tokenSum := tokenSum + Tokens(item);
        included := included + [Placed(item, true, None)];
      } else {
        excluded := excluded + [Placed(item, false, Some(TOKEN_BUDGET_EXCEEDED))];
      }
      i := i + 1;
    }
    assert items[..i] == items;
  }

  datatype CompileMode = Full | SearchFallback

  datatype Pack = Pack(items: seq<Placed>, totalTokenCount: nat, includedCount: nat, excludedCount: nat)

  function CountIncluded(items: seq<Placed>): nat {
    if items == [] then 0
    else CountIncluded(items[..|items| - 1]) + (if items[|items| - 1].included then 1 else 0)
  }

  /** Tokens of the included items of a list. */
  function IncludedTokens(items: seq<Placed>): nat {
    if items == [] then 0
    else
      IncludedTokens(items[..|items| - 1])
      + (if items[|items| - 1].included then Tokens(items[|items| - 1].item) else 0)
  }

  lemma {:induction false} CountsOfExcluded(a: seq<Placed>, items: seq<Item>)
    ensures CountIncluded(a + Excluded(items)) == CountIncluded(a)
    ensures IncludedTokens(a + Excluded(items)) == IncludedTokens(a)
  {
    if items == [] {
      assert a + Excluded(items) == a;
    } else {
      var init := items[..|items| - 1];
      CountsOfExcluded(a, init);
      assert (a + Excluded(items))[..|a + Excluded(items)| - 1] == a + Excluded(init);
    }
  }

  lemma {:induction false} CountsOfIncluded(a: seq<Placed>, items: seq<Item>)
    ensures CountIncluded(a + Included(items)) == CountIncluded(a) + |items|
    ensures IncludedTokens(a + Included(items)) == IncludedTokens(a) + TokenSum(items)
  {
    if items == [] {
      assert a + Included(items) == a;
    } else {
      var init := items[..|items| - 1];
      CountsOfIncluded(a, init);
      assert (a + Included(items))[..|a + Included(items)| - 1] == a + Included(init);
    }
  }

  /** The first n items are included, and all others excluded for exceeding the budget. */
  ghost predicate IncludedFirst(items: seq<Placed>, n: nat) {
    && n <= |items|
    && (forall i :: 0 <= i < n ==> items[i].included && items[i].exclusionReason == None)
    && (forall i :: n <= i < |items| ==> !items[i].included && items[i].exclusionReason == Some("token_budget_exceeded"))
  }

  lemma PackIncludedFirst(tk: seq<Item>, tm: seq<Item>, xk: seq<Item>, xm: seq<Item>)
    ensures IncludedFirst(Included(tk) + Included(tm) + (Excluded(xk) + Excluded(xm)), |tk| + |tm|)
  {
  }

  /**
    Steps 4 and 4b: trim both groups, put the included items first, and in full mode fall back to the query
    itself when nothing was found.  The counts returned are the real ones, except that the fallback item's
    tokens are not added to the total.
    */
  method AssemblePack(knowledge: seq<Item>, memories: seq<Item>, knowledgeBudget: int, memoryBudget: int,
                      mode: CompileMode, queryTokens: nat)
    returns (pack: Pack)
    ensures knowledge + memories != [] || mode == SearchFallback ==>
              pack.items == Included(Taken(knowledge, knowledgeBudget)) + Included(Taken(memories, memoryBudget))
                            + (Excluded(Trimmed(knowledge, knowledgeBudget)) + Excluded(Trimmed(memories, memoryBudget)))
    ensures knowledge + memories == [] && mode == Full ==>
              pack.items == [Placed(Item(FallbackQuery, None, 0.0, Some(queryTokens)), true, None)]
    ensures IncludedFirst(pack.items, pack.includedCount)
    ensures pack.includedCount == CountIncluded(pack.items) && pack.excludedCount == |pack.items| - pack.includedCount
    ensures pack.totalTokenCount == TokenSum(Taken(knowledge, knowledgeBudget)) + TokenSum(Taken(memories, memoryBudget))
    ensures pack.totalTokenCount == IncludedTokens(pack.items)
       <==> !(knowledge + memories == [] && mode == Full && queryTokens > 0)
  {
    hide TrimFlags, Picked, Taken, Trimmed, TokenSum, Included, Excluded, CountIncluded, IncludedTokens, IncludedFirst;
    var included, excluded, knowledgeSum, memorySum;
    included, excluded, knowledgeSum := TrimGroup(knowledge, knowledgeBudget, [], []);
    included, excluded, memorySum := TrimGroup(memories, memoryBudget, included, excluded);
    var items := included + excluded;
    ghost var tk, tm := Taken(knowledge, knowledgeBudget), Taken(memories, memoryBudget);
    ghost var xk, xm := Trimmed(knowledge, knowledgeBudget), Trimmed(memories, memoryBudget);
    assert items == Included(tk) + Included(tm) + (Excluded(xk) + Excluded(xm));
    CountsInPack(tk, tm, xk, xm);
    PackIncludedFirst(tk, tm, xk, xm);
    TrimSizes(knowledge, knowledgeBudget);
    TrimSizes(memories, memoryBudget);
    if items == [] && mode == Full {
      var fallback := Item(FallbackQuery, None, 0.0, Some(queryTokens));
      items := [Placed(fallback, true, None)];
      CountsOfOne(items[0]);
      TrimNothing(knowledgeBudget);
      TrimNothing(memoryBudget);
    }
    var count := |included|;
    if included == [] {
      count := CountFlags(items);
    }
    pack := Pack(items, knowledgeSum + memorySum, count, |excluded|);
  }

  method CountFlags(items: seq<Placed>) returns (count: nat)
    ensures count == CountIncluded(items)
  {
    count := 0;
    var i := 0;
    while i < |items|
      invariant 0 <= i <= |items| && count == CountIncluded(items[..i])
    {
      assert items[..i + 1][..i] == items[..i];
      if items[i].included { count := count + 1; }
      i := i + 1;
    }
    assert items[..i] == items;
  }

  lemma CountsOfOne(x: Placed)
    requires x.included
    ensures CountIncluded([x]) == 1 && IncludedTokens([x]) == Tokens(x.item)
    ensures x.exclusionReason == None ==> IncludedFirst([x], 1)
  {
    assert [x][..0] == [];
  }

  lemma CountsOfNone()
    ensures CountIncluded([]) == 0 && IncludedTokens([]) == 0
  {
  }

  lemma CountsInPack(tk: seq<Item>, tm: seq<Item>, xk: seq<Item>, xm: seq<Item>)
    ensures var items := Included(tk) + Included(tm) + (Excluded(xk) + Excluded(xm));
            CountIncluded(items) == |tk| + |tm| && IncludedTokens(items) == TokenSum(tk) + TokenSum(tm)
  {
    hide TokenSum, Included, Excluded, CountIncluded, IncludedTokens;
    CountsOfNone();
    CountsOfIncluded([], tk);
    assert [] + Included(tk) == Included(tk);
    CountsOfIncluded(Included(tk), tm);
    CountsOfExcluded(Included(tk) + Included(tm), xk);
    CountsOfExcluded(Included(tk) + Included(tm) + Excluded(xk), xm);
    assert Included(tk) + Included(tm) + Excluded(xk) + Excluded(xm)
        == Included(tk) + Included(tm) + (Excluded(xk) + Excluded(xm));
  }

  lemma {:induction false} PickedSizes(items: seq<Item>, flags: seq<bool>)
    requires |items| == |flags|
    ensures |Picked(items, flags, true)| + |Picked(items, flags, false)| == |items|
  {
    if items != [] {
      PickedSizes(items[..|items| - 1], flags[..|items| - 1]);
    }
  }

  lemma TrimSizes(items: seq<Item>, budget: int)
    ensures |Taken(items, budget)| + |Trimmed(items, budget)| == |items|
  {
    PickedSizes(items, TrimFlags(items, budget));
  }
}
