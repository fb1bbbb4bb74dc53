/**
  The ranking core of the context compiler: stable sorts, re-ranking of the merged pool, and splitting it by
  type again.  Scores are exact numbers (no NaN).
*/
module ContextRanking {
  import opened Basics

  datatype ItemType = KnowledgeChunk | MemoryItem | FallbackQuery

  datatype Item = Item(kind: ItemType, id: Option<Uuid>, score: real, tokenCount: Option<nat>)

  /** `item.get("token_count", 0) or 0` */
  function Tokens(item: Item): nat { if item.tokenCount.Some? then item.tokenCount.value else 0 }

  // ---------------------------------------------------------------------------------
  // list.sort(key=score, reverse=True): descending, and stable
  // ---------------------------------------------------------------------------------

  function InsertDesc(sorted: seq<Item>, x: Item): seq<Item> {
    if sorted == [] || sorted[|sorted| - 1].score >= x.score then sorted + [x]
    else InsertDesc(sorted[..|sorted| - 1], x) + [sorted[|sorted| - 1]]
  }

  function SortDesc(items: seq<Item>): seq<Item> {
    if items == [] then [] else InsertDesc(SortDesc(items[..|items| - 1]), items[|items| - 1])
  }

  ghost predicate Descending(items: seq<Item>) {
    forall i, j :: 0 <= i < j < |items| ==> items[i].score >= items[j].score
  }

  function WithScore(items: seq<Item>, score: real): seq<Item> {
    if items == [] then []
    else WithScore(items[..|items| - 1], score) + (if items[|items| - 1].score == score then [items[|items| - 1]] else [])
  }

  /** r is items sorted: descending, and items of equal score keep their order. */
  ghost predicate IsStableSort(items: seq<Item>, r: seq<Item>) {
    Descending(r) && forall score :: WithScore(r, score) == WithScore(items, score)
  }

  lemma {:induction false} InsertKeeps(sorted: seq<Item>, x: Item)
    requires Descending(sorted)
    ensures Descending(InsertDesc(sorted, x))
  {
    if sorted != [] && sorted[|sorted| - 1].score < x.score {
      var init, last := sorted[..|sorted| - 1], sorted[|sorted| - 1];
      InsertKeeps(init, x);
      InsertAbove(init, x, last.score);
    }
  }

  lemma {:induction false} InsertAdds(sorted: seq<Item>, x: Item)
    ensures multiset(InsertDesc(sorted, x)) == multiset(sorted) + multiset{x}
  {
    if sorted != [] && sorted[|sorted| - 1].score < x.score {
      var init, last := sorted[..|sorted| - 1], sorted[|sorted| - 1];
      assert sorted == init + [last];
      InsertAdds(init, x);
    }
  }

  lemma {:induction false} InsertAbove(sorted: seq<Item>, x: Item, low: real)
    requires x.score >= low && forall i :: 0 <= i < |sorted| ==> sorted[i].score >= low
    ensures forall i :: 0 <= i < |InsertDesc(sorted, x)| ==> InsertDesc(sorted, x)[i].score >= low
  {
    if sorted != [] && sorted[|sorted| - 1].score < x.score {
      InsertAbove(sorted[..|sorted| - 1], x, low);
    }
  }

  lemma {:induction false} InsertStable(sorted: seq<Item>, x: Item, score: real)
    requires Descending(sorted)
    ensures WithScore(InsertDesc(sorted, x), score) == WithScore(sorted, score) + (if x.score == score then [x] else [])
  {
    if sorted == [] || sorted[|sorted| - 1].score >= x.score {
      assert (sorted + [x])[..|sorted|] == sorted;
    } else {
      var init, last := sorted[..|sorted| - 1], sorted[|sorted| - 1];
      InsertStable(init, x, score);
      var r := InsertDesc(init, x);
      assert (r + [last])[..|r|] == r;
    }
  }

  lemma {:induction false} SortIsStableSort(items: seq<Item>)
    ensures IsStableSort(items, SortDesc(items))
    ensures multiset(SortDesc(items)) == multiset(items)
  {
    if items != [] {
      var init, last := items[..|items| - 1], items[|items| - 1];
      assert items == init + [last];
      SortIsStableSort(init);
      InsertKeeps(SortDesc(init), last);
      InsertAdds(SortDesc(init), last);
      forall score ensures WithScore(SortDesc(items), score) == WithScore(items, score) {
        InsertStable(SortDesc(init), last, score);
      }
    }
  }

  lemma {:induction false} ScoresOf(items: seq<Item>, x: Item)
    ensures x in WithScore(items, x.score) <==> x in items
  {
    if items != [] {
      assert items == items[..|items| - 1] + [items[|items| - 1]];
      ScoresOf(items[..|items| - 1], x);
    }
  }

  ghost predicate SameByScore(a: seq<Item>, b: seq<Item>) {
    forall score :: WithScore(a, score) == WithScore(b, score)
  }

  lemma SameMembers(a: seq<Item>, b: seq<Item>, x: Item)
    requires SameByScore(a, b) && x in a
    ensures x in b
  {
    ScoresOf(a, x);
    ScoresOf(b, x);
    assert WithScore(a, x.score) == WithScore(b, x.score);
  }

  lemma SameLast(a: seq<Item>, b: seq<Item>)
    requires SameByScore(a, b) && Descending(a) && Descending(b) && a != [] && b != []
    ensures a[|a| - 1] == b[|b| - 1]
  {
    var x, y := a[|a| - 1], b[|b| - 1];
    assert x.score == y.score by {
      SameMembers(a, b, x);
      SameMembers(b, a, y);
    }
    assert WithScore(a, x.score) == WithScore(b, x.score);
    assert WithScore(a, x.score)[|WithScore(a, x.score)| - 1] == x;
    assert WithScore(b, x.score)[|WithScore(b, x.score)| - 1] == y;
  }

  lemma SamePop(a: seq<Item>, b: seq<Item>, x: Item)
    requires SameByScore(a + [x], b + [x])
    ensures SameByScore(a, b)
  {
    forall score ensures WithScore(a, score) == WithScore(b, score) {
      assert WithScore(a + [x], score) == WithScore(b + [x], score);
      assert (a + [x])[..|a|] == a && (b + [x])[..|b|] == b;
      var sa, sb, tail := WithScore(a, score), WithScore(b, score), if x.score == score then [x] else [];
      assert sa + tail == sb + tail;
      assert sa == (sa + tail)[..|sa|] && sb == (sb + tail)[..|sb|];
    }
  }

  lemma {:induction false} SameByScoreEqual(a: seq<Item>, b: seq<Item>)
    requires SameByScore(a, b) && Descending(a) && Descending(b)
    ensures a == b
  {
    hide WithScore;
    if a == [] && b != [] {
      SameMembers(b, a, b[0]);
    } else if a != [] {
      SameMembers(a, b, a[0]);
      SameLast(a, b);
      var a', b', x := a[..|a| - 1], b[..|b| - 1], a[|a| - 1];
      assert a == a' + [x] && b == b' + [x];
      SamePop(a', b', x);
      SameByScoreEqual(a', b');
    }
  }

  /** There is only one stable descending order, so SortDesc is what any stable sort computes. */
  lemma StableSortUnique(items: seq<Item>, a: seq<Item>, b: seq<Item>)
    requires IsStableSort(items, a) && IsStableSort(items, b)
    ensures a == b
  {
    hide WithScore;
    SameByScoreEqual(a, b);
  }

  // ---------------------------------------------------------------------------------
  // Sorting the merged pool and filtering by type
  // ---------------------------------------------------------------------------------

  function OfKind(items: seq<Item>, kind: ItemType): seq<Item> {
    if items == [] then []
    else OfKind(items[..|items| - 1], kind) + (if items[|items| - 1].kind == kind then [items[|items| - 1]] else [])
  }

  lemma {:induction false} OfKindJoin(a: seq<Item>, b: seq<Item>, kind: ItemType)
    ensures OfKind(a + b, kind) == OfKind(a, kind) + OfKind(b, kind)
  {
    if b == [] {
      assert a + b == a;
    } else {
      assert (a + b)[..|a + b| - 1] == a + b[..|b| - 1];
      OfKindJoin(a, b[..|b| - 1], kind);
    }
  }

  lemma {:induction false} OfKindMembers(items: seq<Item>, kind: ItemType, x: Item)
    ensures x in OfKind(items, kind) <==> x in items && x.kind == kind
  {
    if items != [] {
      OfKindMembers(items[..|items| - 1], kind, x);
      assert items == items[..|items| - 1] + [items[|items| - 1]];
    }
  }

  lemma {:induction false} OfKindAll(items: seq<Item>, kind: ItemType)
    requires forall x :: x in items ==> x.kind == kind
    ensures OfKind(items, kind) == items
  {
    if items != [] {
      var init, last := items[..|items| - 1], items[|items| - 1];
      assert items == init + [last];
      OfKindAll(init, kind);
    }
  }

  lemma {:induction false} OfKindNone(items: seq<Item>, kind: ItemType)
    requires forall x :: x in items ==> x.kind != kind
    ensures OfKind(items, kind) == []
  {
    if items != [] {
      var init, last := items[..|items| - 1], items[|items| - 1];
      assert items == init + [last];
      OfKindNone(init, kind);
    }
  }

  lemma OfKindPush(items: seq<Item>, x: Item, kind: ItemType)
    ensures OfKind(items + [x], kind) == if x.kind == kind then OfKind(items, kind) + [x] else OfKind(items, kind)
  {
    assert (items + [x])[..|items|] == items;
  }

  lemma InsertPush(sorted: seq<Item>, last: Item, x: Item)
    requires last.score < x.score
    ensures InsertDesc(sorted + [last], x) == InsertDesc(sorted, x) + [last]
  {
    assert (sorted + [last])[..|sorted|] == sorted;
  }

  /** Putting a lower item behind both sides. */
  lemma FilterPush(init: seq<Item>, last: Item, x: Item, kind: ItemType)
    requires last.score < x.score
    requires x.kind == kind ==> OfKind(InsertDesc(init, x), kind) == InsertDesc(OfKind(init, kind), x)
    requires x.kind != kind ==> OfKind(InsertDesc(init, x), kind) == OfKind(init, kind)
    ensures x.kind == kind ==> OfKind(InsertDesc(init, x) + [last], kind) == InsertDesc(OfKind(init + [last], kind), x)
    ensures x.kind != kind ==> OfKind(InsertDesc(init, x) + [last], kind) == OfKind(init + [last], kind)
  {
    hide OfKind, InsertDesc;
    OfKindPush(init, last, kind);
    OfKindPush(InsertDesc(init, x), last, kind);
    InsertPush(OfKind(init, kind), last, x);
  }

  /** An item that belongs behind all others. */
  lemma FilterBelow(sorted: seq<Item>, x: Item, kind: ItemType)
    requires Descending(sorted) && (sorted != [] ==> sorted[|sorted| - 1].score >= x.score)
    ensures x.kind == kind ==> OfKind(InsertDesc(sorted, x), kind) == InsertDesc(OfKind(sorted, kind), x)
    ensures x.kind != kind ==> OfKind(InsertDesc(sorted, x), kind) == OfKind(sorted, kind)
  {
    hide OfKind;
    var group := OfKind(sorted, kind);
    OfKindPush(sorted, x, kind);
    if group != [] {
      OfKindMembers(sorted, kind, group[|group| - 1]);
    }
  }

  lemma {:induction false} InsertFilter(sorted: seq<Item>, x: Item, kind: ItemType)
    requires Descending(sorted)
    ensures x.kind == kind ==> OfKind(InsertDesc(sorted, x), kind) == InsertDesc(OfKind(sorted, kind), x)
    ensures x.kind != kind ==> OfKind(InsertDesc(sorted, x), kind) == OfKind(sorted, kind)
  {
    if sorted == [] || sorted[|sorted| - 1].score >= x.score {
      FilterBelow(sorted, x, kind);
    } else {
      var init, last := sorted[..|sorted| - 1], sorted[|sorted| - 1];
      assert sorted == init + [last];
      InsertFilter(init, x, kind);
      InsertPush(init, last, x);
      FilterPush(init, last, x, kind);
    }
  }

  /** Sorting the merged list and filtering by type is the same as sorting each group. */
  lemma {:induction false} SortThenSplit(items: seq<Item>, kind: ItemType)
    ensures OfKind(SortDesc(items), kind) == SortDesc(OfKind(items, kind))
  {
    hide InsertDesc, WithScore, IsStableSort;
    if items != [] {
      var init, last := items[..|items| - 1], items[|items| - 1];
      assert items == init + [last];
      SortThenSplit(init, kind);
      assert Descending(SortDesc(init)) by { SortIsStableSort(init); }
      SortPush(init, last);
      OfKindPush(init, last, kind);
      InsertFilter(SortDesc(init), last, kind);
      SortPush(OfKind(init, kind), last);
    }
  }

  lemma SortPush(items: seq<Item>, x: Item)
    ensures SortDesc(items + [x]) == InsertDesc(SortDesc(items), x)
  {
    assert (items + [x])[..|items|] == items;
  }

  lemma {:induction false} SortSorted(items: seq<Item>)
    requires Descending(items)
    ensures SortDesc(items) == items
  {
    if items != [] {
      SortSorted(items[..|items| - 1]);
    }
  }

  // ---------------------------------------------------------------------------------
  // Re-ranking
  // ---------------------------------------------------------------------------------

  /** One reranker output: the parsed id (None if it is no integer) and the new score. */
  datatype Reranked = Reranked(index: Option<int>, score: real)

  /** The score map: later outputs overwrite earlier ones, unparsable ids are skipped. */
  function ScoreMap(outputs: seq<Reranked>): map<int, real> {
    if outputs == [] then map[]
    else
      var last, m := outputs[|outputs| - 1], ScoreMap(outputs[..|outputs| - 1]);
      if last.index.Some? then m[last.index.value := last.score] else m
  }

  /** Items with the scores found under their position (from `offset` on); others keep theirs. */
  function Rescore(items: seq<Item>, scores: map<int, real>, offset: nat): (r: seq<Item>)
    ensures |r| == |items|
    ensures forall i :: 0 <= i < |items| ==>
              r[i] == if offset + i in scores then items[i].(score := scores[offset + i]) else items[i]
  {
    seq(|items|, i requires 0 <= i < |items| =>
      if offset + i in scores then items[i].(score := scores[offset + i]) else items[i])
  }

  ghost predicate AllOfKind(items: seq<Item>, kind: ItemType) { forall x :: x in items ==> x.kind == kind }

  lemma RescoreSplits(knowledge: seq<Item>, memories: seq<Item>, scores: map<int, real>)
    requires AllOfKind(knowledge, KnowledgeChunk) && AllOfKind(memories, MemoryItem)
    ensures OfKind(Rescore(knowledge + memories, scores, 0), KnowledgeChunk) == Rescore(knowledge, scores, 0)
    ensures OfKind(Rescore(knowledge + memories, scores, 0), MemoryItem) == Rescore(memories, scores, |knowledge|)
  {
    hide OfKind, Rescore, AllOfKind;
    var k, m := Rescore(knowledge, scores, 0), Rescore(memories, scores, |knowledge|);
    RescoreJoin(knowledge, memories, scores);
    RescoreKeepsKind(knowledge, scores, 0, KnowledgeChunk);
    RescoreKeepsKind(memories, scores, |knowledge|, MemoryItem);
    OfKindJoined(k, m);
  }

  lemma RescoreJoin(a: seq<Item>, b: seq<Item>, scores: map<int, real>)
    ensures Rescore(a + b, scores, 0) == Rescore(a, scores, 0) + Rescore(b, scores, |a|)
  {
  }

  /** Splitting the two groups joined gives the groups back. */
  lemma OfKindJoined(k: seq<Item>, m: seq<Item>)
    requires AllOfKind(k, KnowledgeChunk) && AllOfKind(m, MemoryItem)
    ensures OfKind(k + m, KnowledgeChunk) == k && OfKind(k + m, MemoryItem) == m
  {
    hide OfKind;
    OfKindJoin(k, m, KnowledgeChunk);
    OfKindJoin(k, m, MemoryItem);
    OfKindAll(k, KnowledgeChunk);
    OfKindAll(m, MemoryItem);
    OfKindNone(k, MemoryItem);
    OfKindNone(m, KnowledgeChunk);
    assert k + [] == k && [] + m == m;
  }

  // ---------------------------------------------------------------------------------
  // What ranking means, on the reranker's outputs
  // ---------------------------------------------------------------------------------

  /** The i-th output is the last one that names position j. */
  ghost predicate LastNaming(outputs: seq<Reranked>, j: int, i: int) {
    && 0 <= i < |outputs| && outputs[i].index == Some(j)
    && forall h :: i < h < |outputs| ==> outputs[h].index != Some(j)
  }

  /** The score of the last output that names position j, or else the item's own. */
  ghost predicate IsFinalScore(outputs: seq<Reranked>, j: int, own: real, score: real) {
    && (forall i :: LastNaming(outputs, j, i) ==> score == outputs[i].score)
    && ((forall i :: 0 <= i < |outputs| ==> outputs[i].index != Some(j)) ==> score == own)
  }

  /** r is items, whose first one is at position `offset` of the merged list, with their final scores. */
  ghost predicate TakesScores(items: seq<Item>, outputs: seq<Reranked>, offset: nat, r: seq<Item>) {
    && |r| == |items|
    && forall j :: 0 <= j < |r| ==>
         r[j] == items[j].(score := r[j].score) && IsFinalScore(outputs, offset + j, items[j].score, r[j].score)
  }

  /**
    Each group's candidates are sorted, take the scores the reranker gives their positions in the merged list,
    knowledge first, and are sorted again.  No reranker runs, or counts, on one candidate or on an error.
    */
  ghost predicate IsRanking(knowledge0: seq<Item>, memories0: seq<Item>, outputs: Option<seq<Reranked>>,
                            knowledge: seq<Item>, memories: seq<Item>)
  {
    exists k, m, k', m' ::
      && IsStableSort(knowledge0, k) && IsStableSort(memories0, m)
      && var heeded := if outputs.None? || |knowledge0| + |memories0| <= 1 then [] else outputs.value;
      && TakesScores(k, heeded, 0, k') && TakesScores(m, heeded, |k|, m')
      && IsStableSort(k', knowledge) && IsStableSort(m', memories)
  }

  lemma {:induction false} ScoreMapNames(outputs: seq<Reranked>, j: int)
    requires j in ScoreMap(outputs)
    ensures exists i :: 0 <= i < |outputs| && outputs[i].index == Some(j)
  {
    var init, last := outputs[..|outputs| - 1], outputs[|outputs| - 1];
    if last.index != Some(j) {
      ScoreMapNames(init, j);
      var i :| 0 <= i < |init| && init[i].index == Some(j);
      assert outputs[i].index == Some(j);
    }
  }

  lemma {:induction false} ScoreMapHolds(outputs: seq<Reranked>, j: int, i: int)
    requires LastNaming(outputs, j, i)
    ensures j in ScoreMap(outputs) && ScoreMap(outputs)[j] == outputs[i].score
  {
    var init, last := outputs[..|outputs| - 1], outputs[|outputs| - 1];
    if i < |init| {
      assert LastNaming(init, j, i);
      ScoreMapHolds(init, j, i);
      assert last.index != Some(j);
    }
  }

  lemma RescoreTakesScores(items: seq<Item>, outputs: seq<Reranked>, offset: nat)
    ensures TakesScores(items, outputs, offset, Rescore(items, ScoreMap(outputs), offset))
  {
    hide ScoreMap, LastNaming, IsFinalScore;
    var r := Rescore(items, ScoreMap(outputs), offset);
    forall j | 0 <= j < |items| ensures IsFinalScore(outputs, offset + j, items[j].score, r[j].score) {
      FinalScoreOf(outputs, offset + j, items[j].score);
    }
  }

  lemma FinalScoreOf(outputs: seq<Reranked>, j: int, own: real)
    ensures IsFinalScore(outputs, j, own, if j in ScoreMap(outputs) then ScoreMap(outputs)[j] else own)
  {
    hide ScoreMap;
    if j in ScoreMap(outputs) {
      ScoreMapNames(outputs, j);
    }
    forall i | LastNaming(outputs, j, i) ensures j in ScoreMap(outputs) && ScoreMap(outputs)[j] == outputs[i].score {
      ScoreMapHolds(outputs, j, i);
    }
  }

  lemma RankingMeets(knowledge0: seq<Item>, memories0: seq<Item>, outputs: Option<seq<Reranked>>)
    ensures var k, m := SortDesc(knowledge0), SortDesc(memories0);
            var scores := if outputs.None? || |k + m| <= 1 then map[] else ScoreMap(outputs.value);
            IsRanking(knowledge0, memories0, outputs, SortDesc(Rescore(k, scores, 0)), SortDesc(Rescore(m, scores, |k|)))
  {
    hide SortDesc, IsStableSort, TakesScores, Rescore, ScoreMap;
    var k, m := SortDesc(knowledge0), SortDesc(memories0);
    SortIsStableSort(knowledge0);
    SortIsStableSort(memories0);
    assert |multiset(k)| == |multiset(knowledge0)| && |multiset(m)| == |multiset(memories0)|;
    var heeded := if outputs.None? || |knowledge0| + |memories0| <= 1 then [] else outputs.value;
    assert ScoreMap([]) == map[] by { NoOutputs(); }
    RescoreTakesScores(k, heeded, 0);
    RescoreTakesScores(m, heeded, |k|);
    SortIsStableSort(Rescore(k, ScoreMap(heeded), 0));
    SortIsStableSort(Rescore(m, ScoreMap(heeded), |k|));
  }

  lemma NoOutputs()
    ensures ScoreMap([]) == map[]
  {
  }

  /**
    Steps 3 and 3b of the compiler on the two candidate groups.  `outputs` is what the reranker returned;
    None stands for a RerankerError.  Whatever it returned (missing, repeated or out-of-range positions),
    each group ends up as its own candidates with their final scores, stably sorted.
    */
  method RankGroups(knowledge0: seq<Item>, memories0: seq<Item>, outputs: Option<seq<Reranked>>)
    returns (knowledge: seq<Item>, memories: seq<Item>)
    requires AllOfKind(knowledge0, KnowledgeChunk) && AllOfKind(memories0, MemoryItem)
    ensures IsRanking(knowledge0, memories0, outputs, knowledge, memories)
    ensures var k, m := SortDesc(knowledge0), SortDesc(memories0);
            var scores := if outputs.None? || |k + m| <= 1 then map[] else ScoreMap(outputs.value);
            knowledge == SortDesc(Rescore(k, scores, 0)) && memories == SortDesc(Rescore(m, scores, |k|))
    ensures AllOfKind(knowledge, KnowledgeChunk) && AllOfKind(memories, MemoryItem)
  {
    hide SortDesc, OfKind, IsRanking;
    RankingMeets(knowledge0, memories0, outputs);
    knowledge, memories := SortDesc(knowledge0), SortDesc(memories0);
    SortKeepsKind(knowledge0, KnowledgeChunk);
    SortKeepsKind(memories0, MemoryItem);
    ghost var k, m := knowledge, memories;
    NoScoresNoChange(knowledge0, 0);
    NoScoresNoChange(memories0, |k|);
    var all := knowledge + memories;
    if |all| > 1 && outputs.Some? {
      var scoreMap: map<int, real> := map[];
      var i := 0;
      while i < |outputs.value|
        invariant 0 <= i <= |outputs.value| && scoreMap == ScoreMap(outputs.value[..i])
      {
        assert outputs.value[..i + 1][..i] == outputs.value[..i];
        if outputs.value[i].index.Some? {
          scoreMap := scoreMap[outputs.value[i].index.value := outputs.value[i].score];
        }
        i := i + 1;
      }
      assert outputs.value[..i] == outputs.value;
      if scoreMap != map[] {
        var idx := 0;
        ghost var before := all;
        while idx < |all|
          invariant 0 <= idx <= |all| == |before|
          invariant forall j :: 0 <= j < |all| ==>
                      all[j] == if j < idx then Rescore(before, scoreMap, 0)[j] else before[j]
        {
          if idx in scoreMap {
            all := all[idx := all[idx].(score := scoreMap[idx])];
          }
          idx := idx + 1;
        }
        assert all == Rescore(before, scoreMap, 0);
        all := SortDesc(all);
        knowledge, memories := OfKind(all, KnowledgeChunk), OfKind(all, MemoryItem);
        RescoreSplits(k, m, scoreMap);
        SortThenSplit(Rescore(before, scoreMap, 0), KnowledgeChunk);
        SortThenSplit(Rescore(before, scoreMap, 0), MemoryItem);
        RescoreKeepsKind(k, scoreMap, 0, KnowledgeChunk);
        RescoreKeepsKind(m, scoreMap, |k|, MemoryItem);
        SortKeepsKind(Rescore(k, scoreMap, 0), KnowledgeChunk);
        SortKeepsKind(Rescore(m, scoreMap, |k|), MemoryItem);
      }
    }
  }

  lemma SortKeepsKind(items: seq<Item>, kind: ItemType)
    requires AllOfKind(items, kind)
    ensures AllOfKind(SortDesc(items), kind)
  {
    SortIsStableSort(items);
    forall x | x in SortDesc(items) ensures x.kind == kind {
      assert x in multiset(SortDesc(items));
      assert x in items;
    }
  }

  lemma RescoreKeepsKind(items: seq<Item>, scores: map<int, real>, offset: nat, kind: ItemType)
    requires AllOfKind(items, kind)
    ensures AllOfKind(Rescore(items, scores, offset), kind)
  {
    var r := Rescore(items, scores, offset);
    forall x | x in r ensures x.kind == kind {
      var i :| 0 <= i < |r| && r[i] == x;
      assert items[i] in items;
    }
  }

  lemma NoScoresNoChange(items: seq<Item>, offset: nat)
    ensures SortDesc(Rescore(SortDesc(items), map[], offset)) == SortDesc(items)
  {
    SortIsStableSort(items);
    SortSorted(SortDesc(items));
    assert Rescore(SortDesc(items), map[], offset) == SortDesc(items);
  }

  /** The items with their scores taken off: what ranking may not lose or invent. */
  function Unscored(items: seq<Item>): multiset<Item> {
    if items == [] then multiset{}
    else Unscored(items[..|items| - 1]) + multiset{items[|items| - 1].(score := 0.0)}
  }

  lemma {:induction false} UnscoredInsert(sorted: seq<Item>, x: Item)
    ensures Unscored(InsertDesc(sorted, x)) == Unscored(sorted) + multiset{x.(score := 0.0)}
  {
    if sorted == [] || sorted[|sorted| - 1].score >= x.score {
      assert (sorted + [x])[..|sorted|] == sorted;
    } else {
      var init, last := sorted[..|sorted| - 1], sorted[|sorted| - 1];
      UnscoredInsert(init, x);
      var r := InsertDesc(init, x);
      assert (r + [last])[..|r|] == r;
    }
  }

  lemma {:induction false} UnscoredSort(items: seq<Item>)
    ensures Unscored(SortDesc(items)) == Unscored(items)
  {
    if items != [] {
      UnscoredSort(items[..|items| - 1]);
      UnscoredInsert(SortDesc(items[..|items| - 1]), items[|items| - 1]);
    }
  }

  lemma {:induction false} UnscoredRescore(items: seq<Item>, scores: map<int, real>, offset: nat)
    ensures Unscored(Rescore(items, scores, offset)) == Unscored(items)
  {
    if items != [] {
      UnscoredRescore(items[..|items| - 1], scores, offset);
      var r := Rescore(items, scores, offset);
      assert r[..|r| - 1] == Rescore(items[..|items| - 1], scores, offset);
    }
  }

  /** Ranking loses and invents nothing: up to its scores, each group is a permutation of its candidates. */
  lemma RankedIsPermutation(items: seq<Item>, scores: map<int, real>, offset: nat)
    ensures Unscored(SortDesc(Rescore(SortDesc(items), scores, offset))) == Unscored(items)
  {
    UnscoredSort(items);
    UnscoredRescore(SortDesc(items), scores, offset);
    UnscoredSort(Rescore(SortDesc(items), scores, offset));
  }
}
