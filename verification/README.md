# Verified models of Mneme's core algorithms

A Dafny model of the parts of Mneme that carry state, loops or concurrency, with proofs about them. Each area
has an imperative model that follows the Python code (classes with fields, loops, in-place updates), a
specification it is proved against, and theorems about that specification over all inputs or all runs.

`dafny verify dfyconfig.toml` checks everything.

## What is modelled

**Graph traversal** (`Multigraph`, `BreadthFirst`, `Neighborhood`, `Connected`, `ShortestPaths`,
`GraphQueries`). The reference is a multigraph given by its filtered edge rows: walks, distances as minimal
walk lengths, simple paths. The adjacency lists, the three breadth-first loops and the backtracking path search
with its shared stack and its cap of ten are methods with loops and mutable fields. Entries of one adjacency
list keep row order. The keys of an adjacency dictionary are visited in arbitrary order; no proved result
depends on it.

**Write protocol** (`WriteProtocol`, `ExactlyOnce`). A session has a committed and a private view of the tables
and an owner of the current transaction. Business work is a function from tables to tables or to an error. The
concurrent system has any number of callers whose pre-check, write transaction and re-check interleave freely;
a write transaction commits atomically or fails on the UNIQUE idempotency key.

**Versioned memories** (`Memories`, `MemoryRuns`, `Serialisability`, `MemoryHistory`, `MergeForest`,
`KeyCollisions`, `MemoryOperations`, `MemoryStore`). Each operation reads rows early and writes later through
the protocol above, guarded by the version it read. All of create, activate, update, quality update, merge,
approve, reject, expire, restore and delete are included, and the theorems range over every interleaving of any
number of clients.

**Canonical keys, event log, budget** (`CanonicalKeys`; `EventLog`, `EventLogRuns`, `EventLogReplay`; `Budget`,
`BudgetRuns`, `BudgetExposure`). Step systems with any number of clients on top of imperative models of the single
calls. A budget check reads one limit after the other while other calls commit, and a commit may cost any amount.

**Document tree, markdown, database URL** (`FolderTree`, `FolderTreeBuilder`; `Markdown`; `DbUrl`). The tree
builder works on heap nodes reached through aliases and a path map. Parsers are related to a grammar or a
recursive definition and to their printers.

**Context compiler and message import** (`ContextRanking`, `ContextTrimming`; `Messages`).

## Where the code and its documentation disagree

The model follows the code. These findings have their own lemmas:

- Merge is documented as possible only from `active`, and no transition out of `merged` is listed
  (`mneme/db/memories.py:19-26`). The code merges drafts too, `delete_memory` accepts merged memories, and
  `restore_memory` then revives them; `MergeForest.ForestKeptExactly` shows that this is the only operation that leaves
  the forest. After it `merged_into` can become a cycle (`MergeForest.ReviveThenMergeBack`).
  `MergeForest.AcyclicKeptExactly` says exactly which merge closes one, from any state without a cycle, and
  `MergeForest.RunAcyclicExactly` which runs end with one.
- Apart from creations, an operation derives its idempotency key from the request's key, its kind and one memory. Of
  all calls that derive the same key at most one is ever applied (`KeyCollisions.SameKeyCommitsOnce`). A later call that
  passes its checks is answered with the stored memory and changes nothing, whatever it asks for: the second update
  without a key (`KeyCollisions.SecondUpdateIsDropped`), and the second merge into a survivor under one request
  (`KeyCollisions.SecondMergeIsDropped`), which `mneme/memory/refine/merge.py:303-314` counts as a success. A call that
  raced past the check before the first one committed fails with an exception instead
  (`KeyCollisions.RacingUpdateThrows`). `KeyCollisions.DroppedIffKeyTaken` and `KeyCollisions.AppliedIffKeyUnused` say
  exactly when a call is dropped and when it is applied.
- A custom canonical key can take the number that is generated next. While the key numbered one above the row count is
  stored, every generated creation in the project that counts is refused, and this stays so until another custom key is
  stored (`CanonicalKeys.BlockedForGood`); bringing the key numbered 2 to an empty project is enough
  (`CanonicalKeys.CustomKeyBlocks`). Custom creations take no lock, so one can also take the number between another
  creation's count and its insert (`CanonicalKeys.RacingCustomKey`). `CanonicalKeys.RefusedAmidOthers` says for every
  interleaving exactly when a generated creation is refused.
- A call without a capability, provider or project matches a limit that names one, but its usage is never counted by that
  limit, which therefore never fills for such calls (`BudgetRuns.MatchesUncovered`, `BudgetRuns.UncoveredNeverFill`,
  `BudgetExposure.CountableExactly`).
- A reader that pages through a stream and goes on after a short page skips events appended in between
  (`EventLogReplay.ReaderSkips`). `EventLogReplay.ReplayExactly` gives the exact condition on the log, and
  `EventLogReplay.StoppingReaderIsSafe` the rule for readers.
- Limit checks do not see calls in flight, so concurrent calls can overrun a limit
  (`BudgetExposure.ConcurrentChecksOverrun`). `BudgetExposure.KeepsCostExactly` and `BudgetExposure.KeepsRequestsExactly`
  say exactly when that can still happen. Besides, a call may cost more than was estimated: the gateway estimates
  `max_tokens` at the input price and later charges input and output (`mneme/gateway/call.py:374-379`, `536-541`).
  `BudgetRuns.WindowBound` therefore counts real costs; where a theorem needs costs within the estimates it says so.
- A document whose last heading is empty changes when it is loaded and saved (`Markdown.BareHeadingIsGlued`,
  `Markdown.ResaveExact`).
- The duplicate check for messages is documented as matching the UNIQUE constraint, but for a message without a source
  it is stricter and can make the import depend on the order of the messages (`Messages.CheckAgainstConstraint`,
  `Messages.OrderMatters`); `Messages.OrderFreeExactly` says exactly when it does not.
- The tokens of the fallback item are missing from the pack's total (`ContextTrimming.AssemblePack`).

## Model

| member | source | states |
|---|---|---|
| Multigraph.LoadFullGraph | mneme/db/graph.py:411-490 | the adjacency dictionaries hold, for every node, exactly its edges that pass the type and project filters, in row order, with no entry for a node without edges |
| Multigraph.ShortestIsSimple | mneme/db/graph.py:672-678 | every shortest walk visits no node twice, so the in-path check of the search loses none |
| Multigraph.FilteredEdgesExact | mneme/db/graph.py:430-461 | a row is traversed exactly if its type is listed, where an empty list lists every type, and, if a project is given, one of its two ends belongs to it |
| Multigraph.WithoutFilters | mneme/db/graph.py:430-461 | without filters every active row is traversed, in row order |
| Multigraph.FilteredInRowOrder | mneme/db/graph.py:430-461 | filtering keeps the rows in their order |
| BreadthFirst.BfsSettled | mneme/db/graph.py:516-552 | during any of the three searches, every node nearer than the head of the queue already has its exact depth |
| BreadthFirst.BfsHeadExact | mneme/db/graph.py:607-619 | the depth at which a node is taken from the queue is its distance, so stopping at the target there is right |
| BreadthFirst.BfsComplete | mneme/db/graph.py:511-552 | a finished search has visited exactly the ball of radius max_depth, each node with its distance |
| Neighborhood.QueryNeighborhood | mneme/db/graph.py:493-561 | the result is a breadth-first tree of the ball around the source: exactly the nodes at directed distance 1..max_depth, once each, in non-decreasing depth, one edge per node linking it to a node one level up; without filters, all of this on the active rows themselves |
| Connected.BuildNeighbours | mneme/db/graph.py:718-724 | built from the outgoing lists alone, the neighbour lists contain exactly the undirected neighbours |
| Connected.QueryConnected | mneme/db/graph.py:693-753 | reports the undirected distance if it is at most max_depth and "not connected" exactly otherwise; without filters, all of this on the active rows themselves |
| ShortestPaths.BuildHops | mneme/db/graph.py:594-604 | the two passes give every node its outgoing hops followed by its incoming hops, in row order |
| ShortestPaths.PathSearch.Dfs | mneme/db/graph.py:633-681 | restores the shared path stack and appends exactly the completions of the stack, in search order, up to ten paths |
| ShortestPaths.QueryShortestPaths | mneme/db/graph.py:564-690 | the length is the undirected distance (absent exactly beyond max_depth) and the paths are the capped enumeration of all shortest paths; without filters, all of this on the active rows themselves |
| ShortestPaths.AllShortestPathsExact | mneme/db/graph.py:638-678 | a path is enumerated if and only if it is a walk of minimal length from source to target |
| ShortestPaths.AllShortestPathsOrdered | mneme/db/graph.py:638-678 | the enumeration follows the order of the adjacency lists and repeats no path |
| GraphQueries.ReportedPathsExact | mneme/db/graph.py:633-681 | the reported paths are the first ten shortest paths in adjacency order: all real, simple, in order, and one is missing only if ten that precede it are reported |
| GraphQueries.OrderOnRows | mneme/db/graph.py:594-604 | where two reported paths part, the earlier one takes an edge leaving the node and the later one an edge arriving there, or both take edges of the same kind and the earlier path the earlier row |
| GraphQueries.QueriesAgree | mneme/db/graph.py:493-753 | with equal filters and depth limit, neighbourhood depth, connectivity distance and shortest-path length of two different nodes coincide, and all are absent exactly if every walk between them is longer than max_depth |
| GraphQueries.FilteredIdsDistinct | mneme/db/graph.py:430-461 | rows keep distinct ids under every filter, which the order of the paths relies on |
| WriteProtocol.CheckKey | mneme/db/idempotency.py:46-80 | finds an aggregate exactly if an event with this key and type exists, and then returns the aggregate of one |
| WriteProtocol.CheckKeyAny | mneme/db/idempotency.py:83-117 | finds an event exactly if the key is used at all |
| WriteProtocol.LookupsAgree | mneme/db/idempotency.py:46-117 | with unique keys the typed lookup is the untyped one filtered by type, and a key is a conflict for a type exactly if its one event has another type |
| WriteProtocol.AppliedExactly | mneme/db/audit.py:307-347 | a call changes the tables exactly if its work succeeds and its key is unused; one that returns normally was applied exactly if its key was unused |
| WriteProtocol.DroppedExactly | mneme/db/audit.py:310-323 | a call returns normally without changing anything exactly if its key is set and used for its type and the stored aggregate can be read |
| WriteProtocol.RetryIsReplay | mneme/db/audit.py:307-347 | after a write went through, repeating it leaves all tables as they are and returns the existing aggregate, and another type raises |
| WriteProtocol.Session.WriteWithAuditAndOutbox | mneme/db/audit.py:211-241 | commits business, audit and event rows together or nothing, unless an explicit outer transaction owns the session, which then stays open with nothing committed |
| WriteProtocol.Session.WriteIdempotent | mneme/db/audit.py:244-347 | statement by statement, with commits of others before the write and before the re-check, ends as the step-wise specification says; pending writes of the session are committed with the group or rolled back with it; inside an explicit outer transaction nothing is committed and a lost race ends in an exception |
| WriteProtocol.NothingPending | mneme/db/audit.py:307-347 | without pending writes, that is exactly the step-wise caller of the concurrent system |
| ExactlyOnce.RunKeepsInv | mneme/db/audit.py:307-347 | in every interleaving of any number of callers the tables hold exactly the committed groups, keys stay unique, and every finished caller's answer is backed by an event |
| ExactlyOnce.AtMostOneGroupPerKey | mneme/db/audit.py:307-347 | no two committed groups share a key, and none reuses a key that was there before |
| ExactlyOnce.NormalReturnMeansOneGroup | mneme/db/audit.py:307-347 | a normal return with a fresh key means that exactly one group with it has committed, of the call's type, and the answer is that group's result or resolves its aggregate id |
| ExactlyOnce.OtherTypeThrows | mneme/db/audit.py:332-347 | a caller whose key belongs to another aggregate type never returns normally and leaves no rows |
| ExactlyOnce.ReplayedIsResolved | mneme/db/audit.py:318-345 | what a replaying call returns is what `resolve_existing` gave at some moment of the run |
| ExactlyOnce.EffectIsTheLog | mneme/db/audit.py:211-241 | the business tables are the initial ones with the work of each committed group applied once, in commit order |
| ExactlyOnce.AppliedInRun | mneme/db/audit.py:307-347 | in every run, a call that returned normally was applied exactly if the one group carrying its key is its own |
| ExactlyOnce.StepsAreTheCaller | mneme/db/audit.py:307-347 | a client's check, write and re-check steps at any three moments of a run end with the outcome and the tables of the caller's code at those moments |
| Memories.StaleSuccessIsSerial | mneme/db/memories.py:404-499 | a transaction that succeeds on rows read earlier read the current rows, so all checks made on them still hold, and it does what the whole operation would do executed at that moment |
| Memories.TransactAdvances | mneme/db/memories.py:404-499 | no transaction removes a memory, and a row that changes gets the next version |
| MemoryRuns.RunKeepsSystemInv | mneme/db/memories.py:973-1073 | in every interleaving, rows read early are never newer than the current ones, and every committed group is the serial execution of its client's operation |
| Serialisability.CommittedRunIsSerial | mneme/db/memories.py:1094-1180 | every concurrent run leaves all tables exactly as executing its committed calls one after the other in commit order, each from its first read to its commit |
| KeyCollisions.AppliedIffKeyUnused | mneme/db/memories.py:993 | an operation that returns normally was applied exactly if its derived key was unused |
| KeyCollisions.DroppedIffKeyTaken | mneme/db/memories.py:1060-1073 | an operation returns normally and changes nothing exactly if it passes its checks, is no quality update, and its key is taken by an operation on a memory that is there |
| KeyCollisions.KeysCollideExactly | mneme/db/memories.py:993 | under one request key, two operations other than creations derive the same key if and only if they are of the same kind and on the same memory |
| KeyCollisions.OtherMemoryNotAffected | mneme/db/memories.py:993 | after an applied call, a call of the same kind on another memory under the same request, if it passes its checks, is applied exactly if its transaction succeeds and no earlier event used its own key |
| KeyCollisions.SecondCallIsDropped | mneme/db/memories.py:1060-1073 | after an applied call, any call with the same key that passes its checks gets the first one's memory and changes nothing |
| KeyCollisions.SecondUpdateIsDropped | mneme/db/memories.py:993 | the second update of a memory without a request key is dropped, whatever it asks for |
| KeyCollisions.SecondMergeIsDropped | mneme/db/memories.py:1130 | the second merge into a survivor under one request returns the survivor, but the second memory is not merged |
| KeyCollisions.SameKeyCommitsOnce | mneme/db/memories.py:985-995 | over any run at most one of the operations that derive the same key commits |
| KeyCollisions.KeylessUpdatesCommitOnce | mneme/db/memories.py:993 | in particular at most one update of a memory sent without a key |
| KeyCollisions.OthersAreNotApplied | mneme/db/memories.py:985-1073 | in any run the other calls with the key of a committed group are not applied, and one that returned normally was answered with the group's memory |
| KeyCollisions.StaleWriteThrows | mneme/db/memories.py:404-499 | a call that reaches its write after a row it read has moved on, for a merge either of its two rows, ends with an exception and changes nothing |
| KeyCollisions.RacingUpdateThrows | mneme/db/memories.py:985-1058 | of two keyless updates that both pass the check, the first commits and the second fails |
| MemoryOperations.CreateDoes | mneme/db/memories.py:814-917 | a free memory id and canonical key give a draft at version 1 with its history, audit and event rows under the request key; otherwise the call is refused |
| MemoryOperations.ActivateDoes | mneme/db/memories.py:679-811 | likewise an active memory with its review item and the source row of its candidate |
| MemoryOperations.UpdateDoes | mneme/db/memories.py:973-1077 | exactly the given fields are replaced, the version goes up by one, and the history row holds the fields before and after; the key is `<request key>:update:<memory>` |
| MemoryOperations.UpdateQualityDoes | mneme/db/memories.py:567-646 | only score, weight and version change, without a history row |
| MemoryOperations.MergeDoes | mneme/db/memories.py:1080-1256 | for two different draft or active memories: the text of the consumed memory is appended to the survivor under its canonical key, the consumed memory becomes merged, both get history rows, and the relation is stored once |
| MemoryOperations.ApproveDoes | mneme/db/memories.py:1458-1587 | exactly a draft that has or is given a review item becomes active and keeps its own review item if it has one |
| MemoryOperations.ExpireDoes | mneme/db/memories.py:1388-1403 | exactly an active memory becomes expired |
| MemoryOperations.RestoreDoes | mneme/db/memories.py:1406-1428 | exactly an expired or deleted memory with a review item becomes active again |
| MemoryOperations.DeleteDoes | mneme/db/memories.py:1431-1451 | exactly a memory that is not yet deleted becomes deleted |
| MemoryOperations.RejectDoes | mneme/db/memories.py:1590-1617 | exactly a draft becomes deleted, with its own action, event and key |
| MemoryOperations.RepeatedQualityConflicts | mneme/db/memories.py:586-646 | a quality update repeated under its key raises a conflict naming that key, since it has no stored object to return |
| MemoryHistory.SerialCallKeepsHistory | mneme/db/memories.py:160-188 | every committed operation keeps the history in step with the memories |
| MemoryHistory.HistoryReplays | mneme/db/memories.py:512-520 | under every run each memory has at most one history row per version, rows replay it from creation to its current fields (each `before` is the previous `after`), and versions without a row are exactly the quality updates |
| MergeForest.ForestKeptExactly | mneme/db/memories.py:1406-1451 | an operation keeps `merged_into` a forest (one edge per merged memory, none from others, no cycle) if and only if it does not revive a merged memory |
| MergeForest.TextsKeptByOp | mneme/db/memories.py:1094-1237 | without text edits and such revivals, along every edge the absorbed text stays contained in the absorbing one |
| MergeForest.RunKeepsForest | mneme/db/memories.py:1151-1237 | every concurrent run without a revival keeps the forest, text edits or not |
| MergeForest.RunKeepsTexts | mneme/db/memories.py:1094-1237 | every concurrent run without revivals and text edits also keeps absorbed texts contained |
| MergeForest.RunMergesOnce | mneme/db/memories.py:1151-1237 | in every run without a revival each merged memory has exactly one outgoing edge, and no path of edges closes |
| MergeForest.ChainEndsAtSurvivor | mneme/db/memories.py:1094-1237 | following the edges from any memory ends at one that was not merged and whose text contains that of every memory on the way |
| MergeForest.MergedIntoAcyclic | mneme/db/memories.py:1151-1237 | in a forest no path of edges returns to where it started |
| MergeForest.AcyclicKeptExactly | mneme/db/memories.py:1151-1237 | from any state without a cycle, an operation leads to one if and only if it merges into a survivor from which edges already lead to the memory to be absorbed |
| MergeForest.RunAcyclicExactly | mneme/db/memories.py:1151-1237 | over any run, the edges end without a cycle if and only if no committed merge was such a one |
| MergeForest.ReviveThenMergeBack | mneme/db/memories.py:1406-1451 | merge, delete, restore and merge back is accepted step by step and ends in a cycle of two edges |
| MemoryStore.MemoryRepository.DoInsert | mneme/db/memories.py:731-770 | inserting the row, its first history row and, for an activation, its source row, statement by statement, is the insert of the specification, with its integrity errors |
| MemoryStore.MemoryRepository.DoRewrite | mneme/db/memories.py:1012-1058 | the guarded single-row update with its history row is the rewrite of the specification; a stale version or status writes nothing |
| MemoryStore.MemoryRepository.DoMerge | mneme/db/memories.py:1151-1237 | the two guarded updates, two history rows and the relation are the merge of the specification |
| MemoryStore.Perform | mneme/db/memories.py:973-1073 | reading, checking and writing through the session is the step-wise protocol, with pending writes and inside an explicit outer transaction as well; refused operations commit nothing. What each operation does is stated field by field in `MemoryOperations`, and which operations share a key in `KeyCollisions.KeysCollideExactly` |
| CanonicalKeys.NumbersAreGapFree | mneme/db/memories.py:82-115 | with the project lock held from count to commit and no custom keys in the project, the committed keys are exactly 1..n in commit order, also with rollbacks, and no generated key is refused |
| CanonicalKeys.KeysAreDistinct | mneme/db/memories.py:814-898 | with custom keys as well, no two committed creations of a project share a key |
| CanonicalKeys.RefusedAmidOthers | mneme/db/memories.py:97-115 | whatever others do between a creation's count and its insert, it is refused exactly if the key numbered one above the row count was stored when it counted, or a custom creation with that key commits in between |
| CanonicalKeys.RefusedExactly | mneme/db/memories.py:97-115 | the instance with nothing in between: refused exactly if the key numbered one above the row count is stored |
| CanonicalKeys.RacingCustomKey | mneme/db/memories.py:822-826 | a run in which that key is stored neither at the count nor at the write, and the generated key is refused all the same |
| CanonicalKeys.BlockedForGood | mneme/db/memories.py:822-826 | a project in that state gets no new memory in any continuation without custom keys |
| CanonicalKeys.CustomKeyBlocks | mneme/db/memories.py:822-826 | the custom key numbered 2 brings an empty project into that state |
| EventLog.Log.AppendEventLog | mneme/db/event_log.py:161-208 | appends one row with the stream's next version, never a version already taken, and keeps all streams gap-free |
| EventLog.Log.AppendEventLogBatch | mneme/db/event_log.py:211-257 | appends the whole batch with consecutive versions after one read of the latest |
| EventLog.LatestIsGreatest | mneme/db/event_log.py:111 | the latest version is the greatest one among the stream's rows, and 0 without rows |
| EventLogRuns.StreamsAreGapFree | mneme/db/event_log.py:183-257 | under every interleaving of transactions with single and batch appends every stream is numbered 1..n, and existing rows never change |
| EventLogReplay.PagedReplayExact | mneme/db/event_log.py:264-303 | pages read while the log grows never repeat an event, and are a prefix of the stream after the given version if and only if no non-empty page follows a short one |
| EventLogReplay.PageExact | mneme/db/event_log.py:264-303 | a page holds, in ascending order, exactly the events of the stream whose versions are the page_size many after after_version and the earlier pages; a page number below 1 is the first and a negative after_version is 0 |
| EventLogReplay.SuffixExact | mneme/db/event_log.py:264-303 | what the pages are compared with is the stream's events after that version, ascending |
| EventLogReplay.ReplayExactly | mneme/db/event_log.py:264-303 | the same with a condition on the log alone: a stream too short for a page at its read has nothing on any later page at that page's read |
| EventLogReplay.StoppingReaderIsSafe | mneme/db/event_log.py:264-303 | a reader that reads nothing after a short page gets a prefix |
| EventLogReplay.ReaderSkips | mneme/db/event_log.py:264-303 | a run of one writer in which a reader with pages of two never sees the second event |
| EventLogReplay.ReplayDuringRun | mneme/db/event_log.py:264-303 | the same for the tables a concurrent run of writers passes through |
| Budget.BudgetStore.MatchLimits | mneme/db/budget.py:162-186 | exactly the enabled limits matching the call, those of its own subject first, each group in order of creation |
| Budget.MatchingLimitsOrder | mneme/db/budget.py:183-185 | of two matching limits the one checked first is the caller's own while the other is not, or was created earlier |
| Budget.WindowStartExact | mneme/db/budget.py:240-252 | a window starts 60 seconds, an hour, 30 days or, for every other word, a day ago, in any mixture of cases |
| Budget.BudgetStore.CheckBudgetAllow | mneme/db/budget.py:353-506 | a call passes if and only if every matching limit lets it pass on the committed rows found when that limit's usage is read; a refusal names the first limit that refuses and why. `Budget.AllowedExactly` and `Budget.ReasonExactly` state the verdict on the fields of the limit and its usage, `Budget.MatchesExactly` which limits match, and `Budget.SettledUsage` what each call adds to a usage |
| Budget.BudgetStore.ReserveBudget | mneme/db/budget.py:258-306 | adds a reservation that no limit's usage sees |
| Budget.BudgetStore.TransitionBudgetState | mneme/db/budget.py:309-339 | changes exactly the row with the id and the expected state, field by field, keeping amounts and reason that are not given, and reports whether there was one; a committed reservation adds itself to every usage that covers it and to no other, a released or denied one to none |
| Budget.SettledUsage | mneme/db/budget.py:190-209 | committing a reserved row with given amounts adds one call, those amounts (else the stored ones, else the estimates, else nothing), their sum and the cost to the usage of every limit covering its subject, scope and time, and changes no other usage; releasing or denying it changes none |
| BudgetRuns.AggregateIsSum | mneme/db/budget.py:190-211 | the usage query is the cost and number of the counted calls of the subject in the window |
| BudgetRuns.StepOnTable | mneme/db/budget.py:258-339 | the steps of a run do to budget_tracking exactly what reserving, committing and giving up a reserved row do, and nothing else touches it |
| BudgetRuns.WindowBound | mneme/db/budget.py:395-491 | for every run and any later time, the window's calls, input, output and total tokens are below the limit plus what the calls contribute that were in flight when the last counted call's check began and what that call itself contributes; and, if no call costs less than nothing, the cost exceeds a bound by at most what those calls really cost plus what the last call cost beyond its estimate |
| BudgetRuns.WindowBoundEstimated | mneme/db/budget.py:395-491 | if calls cost at most their estimates, the cost is at most the bound plus the estimates of those calls |
| BudgetRuns.SerialisedBound | mneme/db/budget.py:395-491 | when the subject's calls are serialised, the number of calls stays within the limit in every run, token limits are exceeded by at most the last counted call's tokens, and the cost stays within the limit if calls cost at most their estimates |
| BudgetRuns.SerialisedBoundByField | mneme/db/budget.py:395-491 | the same on the fields of the limit and of the last counted row |
| BudgetRuns.MatchesUncovered | mneme/db/budget.py:173-209 | a matching call is not covered by the limit's usage query exactly if the limit names a capability, provider or project and the call none |
| BudgetRuns.UncoveredNeverFill | mneme/db/budget.py:190-211 | a limit counts nothing, in any run, for a subject none of whose calls it covers |
| BudgetExposure.KeepsCostExactly | mneme/db/budget.py:190-211 | in every reachable state with non-negative amounts, the window's cost stays within a bound in all continuations without new admissions and within the estimates exactly if the cost now and the estimates of the calls that can still be counted are within it |
| BudgetExposure.KeepsRequestsExactly | mneme/db/budget.py:190-211 | likewise for the number of calls, whatever they cost |
| BudgetExposure.CountableExactly | mneme/db/budget.py:190-211 | in every reachable state, a call just admitted can come to be counted by a limit exactly if the limit's usage query covers its scope |
| BudgetExposure.ConcurrentChecksOverrun | mneme/db/budget.py:190-211 | two calls checked before either commits can cost twice the limit |
| FolderTree.SegmentsOfJoin | mneme/db/knowledge_tree.py:41-52 | a folder's map key determines its segments, so different normalised prefixes never share a folder |
| FolderTree.TreePlacesEveryDocument | mneme/db/knowledge_tree.py:34-70 | flattening the tree gives the input rows back as a multiset, each under exactly its own segments |
| FolderTree.DocumentIsFiled | mneme/db/knowledge_tree.py:39-70 | a document with a folder path is in the tree as often as in the rows at exactly the segments its path spells, one without a path at the root, and nowhere else |
| FolderTree.SplitExact | mneme/db/knowledge_tree.py:41 | splitting gives exactly the non-empty, slash-free segments that the path spells with slashes between them and any number of slashes elsewhere |
| FolderTree.SlashesDoNotMatter | mneme/db/knowledge_tree.py:40-41 | slashes in front, at the end or doubled do not change where a document is filed, an empty path is the root, and a folder's key leads to that folder |
| FolderTree.KeyIsShortest | mneme/db/knowledge_tree.py:46-47 | of all paths that spell the same segments the folder's key is the shortest |
| FolderTree.TreeIsTidy | mneme/db/knowledge_tree.py:34-70 | no folder is empty and siblings have different names: one folder per distinct prefix |
| FolderTreeBuilder.Descend | mneme/db/knowledge_tree.py:41-60 | one path segment finds or creates its folder through the map and leaves every other folder as it was |
| FolderTreeBuilder.AddLeaf | mneme/db/knowledge_tree.py:61-69 | the document ends up in the folder of its whole path only |
| FolderTreeBuilder.GetDocumentTree | mneme/db/knowledge_tree.py:16-72 | the heap structure built through aliases reads as the recursive group-by, whose documents are where `FolderTree.DocumentIsFiled` says, and the map holds exactly the folders |
| Markdown.HeadingIsPattern | mneme/db/knowledge_tree.py:192-196 | the cut test is the regular expression `#{1,6}\s` |
| Markdown.ParseMarkdownToBlocks | mneme/db/knowledge_tree.py:182-240 | the blocks are the stripped non-empty sections in order, numbered from 1, with the kind their first line gives them |
| Markdown.KindExact | mneme/db/knowledge_tree.py:203-216 | the kind goes by the first line: heading pattern, three backquotes, a bar with another bar from the third character on, `> `, `- ` or `* `, else paragraph |
| Markdown.NoBlocksExactly | mneme/db/knowledge_tree.py:198-201 | a text gives no block exactly if it consists of white space, listed by code point |
| Markdown.SaveLoadKeepsText | mneme/db/knowledge_tree.py:105 | loading a saved text keeps the sequence of its non-space characters |
| Markdown.ResaveExact | mneme/db/knowledge_tree.py:192-240 | saving the loaded text gives the same blocks if and only if there is at most one block or the last is not a bare run of one to six `#`; otherwise that block is glued to its predecessor |
| Markdown.SecondSaveIsStable | mneme/db/knowledge_tree.py:192-240 | from the second save on nothing changes |
| Markdown.BareHeadingIsGlued | mneme/db/knowledge_tree.py:192-240 | a concrete text whose blocks change |
| Markdown.KnowledgeDocument.UpdateDocumentContent | mneme/db/knowledge_tree.py:111-179 | replaces all blocks by those of the new text and increments the version |
| Markdown.KnowledgeDocument.GetDocumentContent | mneme/db/knowledge_tree.py:75-108 | joins the blocks in order with blank lines |
| ContextRanking.SortIsStableSort | mneme/context/compiler.py:196-198 | the sort is descending, a permutation, and keeps the order of equal scores |
| ContextRanking.StableSortUnique | mneme/context/compiler.py:196-198 | only one sequence satisfies that, so the model's sort is what any stable sort computes |
| ContextRanking.SortThenSplit | mneme/context/compiler.py:240-245 | sorting the merged list and filtering by type equals sorting each group |
| ContextRanking.RescoreSplits | mneme/context/compiler.py:235-238 | re-scoring the merged list by position re-scores each group by its own positions |
| ContextRanking.RankGroups | mneme/context/compiler.py:196-250 | whatever the reranker returns (missing, repeated, out-of-range or unparsable ids, or an error), each group is the stable sort of its sorted candidates, where position j of the merged list carries the score of the last output naming j, and its own if there is none, after an error, or with at most one candidate |
| ContextRanking.RankedIsPermutation | mneme/context/compiler.py:196-250 | up to the scores, each ranked group is a permutation of its candidates |
| ContextTrimming.TrimGroup | mneme/context/compiler.py:257-283 | the loop puts each item, in order, into the included or the excluded list by the greedy choice, with its reason, and sums the tokens |
| ContextTrimming.TakenFitsBudget | mneme/context/compiler.py:257-267 | a group's included tokens never exceed its budget (nothing is included under a negative one) |
| ContextTrimming.NothingMoreFits | mneme/context/compiler.py:257-267 | no excluded item would fit on top of what its group finally includes |
| ContextTrimming.GreedyIsBestByRank | mneme/context/compiler.py:257-267 | the choice is exactly the feasible one that, at the first difference with any other feasible choice, takes the better-ranked item |
| ContextTrimming.TrimPartitions | mneme/context/compiler.py:257-283 | included and excluded items together are the candidates |
| ContextTrimming.TotalWithinUsable | mneme/context/compiler.py:104-111 | for any token limit and reserve, with non-negative ratios that sum to at most one, the total fits the usable tokens |
| ContextTrimming.BudgetsExact | mneme/context/compiler.py:104-111 | the usable tokens are the limit less the reserve but at least one, and each group's budget is its ratio of them cut off towards zero |
| ContextTrimming.DefaultsExact | mneme/context/compiler.py:104-111 | settings left out stand for 4096 tokens, 512 reserved, and ratios of 0.6 and 0.4, which gives 2150 and 1433 tokens |
| ContextTrimming.TokenSumExact | mneme/context/compiler.py:257-258 | an item counts with its own tokens, and with none if it has no count |
| ContextTrimming.TotalFitsExactly | mneme/context/compiler.py:109-111 | for any two budgets, the total fits for all candidates if and only if the positive parts of the budgets together do |
| ContextTrimming.AssemblePack | mneme/context/compiler.py:251-297 | included items come first, the counts are those of the list, a full-mode pack is never empty, and the total is the included tokens except exactly when a fallback item with tokens was added |
| Messages.MessageStore.CreateMessage | mneme/db/messages.py:208-305 | returns a stored message matching the request; writes one row and perhaps the start time exactly if none was stored before |
| Messages.MessageStore.CreateMessageBatch | mneme/db/messages.py:312-419 | stores exactly the messages that neither the table nor an earlier message of the batch covers, in order, keeps UNIQUE, and reports true counts, ids, earliest requested and last stored time |
| Messages.StoredExactly | mneme/db/messages.py:374-410 | a batch stores exactly the messages of which no copy was stored or came earlier, each with its id, conversation, text, text digest, time, and its own source or else that of the batch |
| Messages.StoredInOrder | mneme/db/messages.py:374-410 | the stored rows are in the order of the messages |
| Messages.CoveredExactly | mneme/db/messages.py:133-152 | the duplicate check finds something exactly if a row has the digest and the time and, if a source is asked for, that source |
| Messages.CheckDecidesNew | mneme/db/messages.py:376-389 | checking against the growing table decides exactly whether nothing stored before the batch and nothing earlier in the batch covers the message |
| Messages.CheckAgainstConstraint | mneme/db/messages.py:127-152 | the check lets no UNIQUE violation through, and agrees with UNIQUE exactly when the message names a source or nothing with its hash and time is stored |
| Messages.BatchKeepsUnique | mneme/db/messages.py:376-408 | a batch never violates UNIQUE |
| Messages.ReimportStoresNothing | mneme/db/messages.py:325-326 | a batch of messages that were part of an earlier batch stores nothing, whatever came in between |
| Messages.OrderFreeExactly | mneme/db/messages.py:374-410 | all orders of a batch store the same keys exactly if no message without a source, not covered by the store, shares digest and time with a sourced message of the batch |
| Messages.StoredKeysAreAdded | mneme/db/messages.py:374-410 | those keys are the keys of the rows the batch adds |
| Messages.OrderMatters | mneme/db/messages.py:483-504 | a message without a source is dropped after, but kept before, the same message with a source |
| DbUrl.ParseDbUrl | mneme/backup/pg_dump.py:50-91 | the prefix loop and the splits compute the parser function, with its errors |
| DbUrl.ParseIsGrammar | mneme/backup/pg_dump.py:50-91 | a URL parses to given parameters if and only if it reads as prefix, account, `@`, server, `/`, database with those parts and the separators at their first or last possible place |
| DbUrl.UnsupportedExactly | mneme/backup/pg_dump.py:66-72 | the scheme is refused exactly if the URL starts with none of the three prefixes |
| DbUrl.RefusedExactly | mneme/backup/pg_dump.py:74-76 | after a known prefix, parsing succeeds exactly if some `/` follows some `@`, and a missing `@` is its own error |
| DbUrl.PrintParseExact | mneme/backup/engine.py:333-337 | arbitrary parameters survive printing and parsing if and only if user and password have no `@`, user and host no `:`, and the database no `/` |
| DbUrl.ReprintedUrlIsSame | mneme/backup/engine.py:333-337 | for every accepted URL, the URL rebuilt for pg_dump parses to the same parameters |
| DbUrl.ParsedParts | mneme/backup/pg_dump.py:50-91 | concrete URLs with and without password and port, among them the default port 5432 |

## Left out

- Memories.StaleSuccessIsSerial: restore, delete and reject read their row twice in the code; the model keeps the second read, which is the one the transaction uses.
- WriteProtocol.Session.WriteWithAuditAndOutbox: the optional `on_success` callback inside the transaction is not modelled; no memory or message operation passes one.
- WriteProtocol.Session.WriteIdempotent: inside an explicit outer transaction nobody else's commits become visible in between, and a statement after a failed one fails as on PostgreSQL; a `transaction` block nested in an implicitly begun one, which commits at its inner exit (mneme/db/transactions.py:36-40), is not modelled.
- MemoryStore.Perform: the same holds inside an explicit outer transaction.
- MemoryRuns.RunKeepsSystemInv: decay, emotion, refinement and smart merge also write `memories` and are not among the operations.
- MemoryHistory.HistoryReplays: does not extend to smart merge, which sets a new version without a version guard and without a history row (mneme/memory/refine/merge.py:283-301).
- Serialisability.CommittedRunIsSerial: does not extend to smart merge for the same reason.
- Budget.BudgetStore.CheckBudgetAllow: amounts are exact numbers, so float rounding is not modelled; the limits themselves do not change while a check is under way.
- ContextTrimming.TotalWithinUsable: the products of tokens and ratios are exact, so float rounding before truncation is not modelled.
- ContextRanking.RankGroups: scores are real numbers, so NaN is not modelled; the reranker itself is an arbitrary input.
- Markdown.ParseMarkdownToBlocks: block keys, plain text and token counts are not modelled.
- Markdown.KnowledgeDocument.UpdateDocumentContent: content hashes and marking indexes stale are not modelled.
- Messages.MessageStore.CreateMessage: foreign keys, replay by idempotency key and losing a concurrent insert are not modelled here; the last two are those of the write protocol.
- Messages.MessageStore.CreateMessageBatch: foreign keys, parent messages, sensitivity and the concurrent race between two imports are not modelled; idempotent replay is that of the write protocol.
- EventLogReplay.PagedReplayExact: the `total` that `read_stream` returns ignores `after_version` and is not specified.
- Memory fields that only record times or stores, the search index hooks and automatically created graph relations.
- The sensitivity filter of the context compiler: a one-line comparison of ordinals.
- Node titles and metadata in graph results, subgraph and summary queries, and listing with filters.
- Usage-limit maintenance, `api_call_logs`, outbox publishing, federation and index states.
- Hashes, identifiers and token estimates are arbitrary values; uuid, JSON and datetime conversion is not modelled.
- SQLAlchemy, HTTP routing, subprocesses, file transfer, logging, metrics and configuration.
