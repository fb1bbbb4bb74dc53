/**
  The write operations on memories: what each reads and checks first, and what its transaction later does
  to the tables.  Rows read early may be stale by then, so a transaction is a function of both the rows
  that were read and the tables it finds.
*/
module Memories {
  import opened Basics
  import opened WriteProtocol
  import opened ExactlyOnce

  type MemoryId = Uuid

  datatype Status = Draft | Active | Expired | Merged | Deleted

  datatype Content = Content(title: Option<string>, text: string, sensitivity: string, nodeType: Option<string>)

  datatype Memory = Memory(project: Uuid, canonicalKey: string, content: Content, status: Status, version: nat,
                           reviewItem: Option<Uuid>, qualityScore: real, searchWeight: real)

  /** The fields a history row records. */
  datatype Data = Data(content: Content, status: Status)

  datatype VersionRow = VersionRow(memory: MemoryId, version: nat, action: string, before: Option<Data>, after: Data)

  /** A merged_into relation: `from` was absorbed by `to`. */
  datatype Relation = Relation(from: MemoryId, fromVersion: nat, to: MemoryId, toVersion: nat)

  /** A memory_sources row: the candidate a memory was activated from. */
  datatype Source = Source(memory: MemoryId, version: nat, candidate: Uuid)

  datatype MemoryTables = MemoryTables(memories: map<MemoryId, Memory>, versions: seq<VersionRow>,
                                       relations: seq<Relation>, sources: seq<Source>)

  /** The optional fields of an update request. */
  datatype Patch = Patch(title: Option<string>, text: Option<string>, sensitivity: Option<string>, nodeType: Option<string>)

  datatype Op =
    | Create(id: MemoryId, project: Uuid, canonicalKey: string, content: Content)
    | Activate(id: MemoryId, project: Uuid, canonicalKey: string, content: Content, review: Uuid, candidate: Uuid)
    | Update(id: MemoryId, patch: Patch)
    | UpdateQuality(id: MemoryId, score: real, weight: real)
    | Merge(id: MemoryId, consumed: MemoryId)         // id is the survivor
    | Approve(id: MemoryId, reviewItem: Option<Uuid>)
    | Expire(id: MemoryId)
    | Restore(id: MemoryId)
    | Delete(id: MemoryId)
    | Reject(id: MemoryId)
  {
    predicate IsInsert() { Create? || Activate? }
    predicate IsTransition() { Expire? || Restore? || Delete? || Reject? || Approve? }
  }

  // ---------------------------------------------------------------------------------
  // Reading and checking
  // ---------------------------------------------------------------------------------

  /** The rows an operation has read before its transaction. */
  datatype Reads = NoRead | OneRow(row: Memory) | TwoRows(survivor: Memory, consumed: Memory)

  function DataOf(m: Memory): Data { Data(m.content, m.status) }

  predicate Mergeable(s: Status) { s == Draft || s == Active }

  /** The status check of a single-row operation. */
  predicate StatusAllows(op: Op, s: Status) {
    match op
    case Expire(_) => s == Active
    case Restore(_) => s == Expired || s == Deleted
    case Delete(_) => s != Deleted
    case Reject(_) => s == Draft
    case Approve(_, _) => s == Draft
    case _ => true
  }

  /** All checks on the rows read, passed or not. */
  predicate Admissible(op: Op, seen: Reads) {
    match op
    case Create(_, _, _, _) => seen.NoRead?
    case Activate(_, _, _, _, _, _) => seen.NoRead?
    case Merge(s, c) => seen.TwoRows? && Mergeable(seen.survivor.status) && Mergeable(seen.consumed.status) && s != c
    case _ => seen.OneRow? && StatusAllows(op, seen.row.status)
  }

  /** The rows the operation would read right now; None if one of them does not exist. */
  function ReadNow(op: Op, t: MemoryTables): Option<Reads> {
    if op.IsInsert() then Some(NoRead)
    else if op.id !in t.memories then None
    else if op.Merge? then
      if op.consumed in t.memories then Some(TwoRows(t.memories[op.id], t.memories[op.consumed])) else None
    else Some(OneRow(t.memories[op.id]))
  }

  // ---------------------------------------------------------------------------------
  // The transactions
  // ---------------------------------------------------------------------------------

  /** CHECK (status <> 'active' OR activated_by_review_item_id IS NOT NULL). */
  predicate RowAllowed(m: Memory) { m.status == Active ==> m.reviewItem.Some? }

  /** UNIQUE (project_id, canonical_key). */
  predicate CanonicalKeyTaken(t: MemoryTables, project: Uuid, key: string) {
    exists id :: id in t.memories && t.memories[id].project == project && t.memories[id].canonicalKey == key
  }

  function Coalesce<T>(a: Option<T>, b: T): T { if a.Some? then a.value else b }

  function OrElse<T>(a: Option<T>, b: Option<T>): Option<T> { if a.Some? then a else b }

  function Patched(c: Content, p: Patch): Content {
    Content(OrElse(p.title, c.title), Coalesce(p.text, c.text), Coalesce(p.sensitivity, c.sensitivity),
            OrElse(p.nodeType, c.nodeType))
  }

  function MergedText(survivor: Memory, consumed: Memory): string {
    survivor.content.text + "\n\n--- Merged from " + consumed.canonicalKey + " ---\n" + consumed.content.text
  }

  /** Where a transition leads; deletion and rejection both end in Deleted. */
  function TargetStatus(op: Op): Status {
    match op
    case Expire(_) => Expired
    case Restore(_) => Active
    case Approve(_, _) => Active
    case _ => Deleted
  }

  function ActionName(op: Op): string {
    match op
    case Create(_, _, _, _) => "create"
    case Activate(_, _, _, _, _, _) => "create"
    case Update(_, _) => "update"
    case UpdateQuality(_, _, _) => "quality"
    case Merge(_, _) => "merge"
    case Approve(_, _) => "approve"
    case Expire(_) => "expire"
    case Restore(_) => "restore"
    case Delete(_) => "delete"
    case Reject(_) => "reject"
  }

  /** The row a single-row operation writes over the current row. */
  function Rewritten(op: Op, read: Memory, current: Memory): Memory
    requires !op.IsInsert() && !op.Merge?
  {
    var bumped := current.(version := read.version + 1);
    match op
    case Update(_, p) => bumped.(content := Patched(current.content, p))
    case UpdateQuality(_, score, weight) => bumped.(qualityScore := score, searchWeight := weight)
    case Approve(_, review) =>
      bumped.(status := Active, reviewItem := OrElse(current.reviewItem, OrElse(review, read.reviewItem)))
    case _ => bumped.(status := TargetStatus(op))
  }

  /** The WHERE clause of a single-row operation: version unchanged, and for transitions status unchanged. */
  predicate RowMatches(op: Op, read: Memory, current: Memory) {
    current.version == read.version && (op.IsTransition() ==> current.status == read.status)
  }

  function Stale<S, R>(): Attempt<S, R> { Failed(CallbackError("concurrent modification")) }

  function Insert(op: Op, t: MemoryTables): Attempt<MemoryTables, Memory>
    requires op.IsInsert()
  {
    var row := Memory(op.project, op.canonicalKey, op.content, if op.Create? then Draft else Active, 1,
                      if op.Create? then None else Some(op.review), 0.0, 0.0);
    if op.id in t.memories || CanonicalKeyTaken(t, op.project, op.canonicalKey) then Failed(IntegrityError)
    else
      Wrote(t.(memories := t.memories[op.id := row],
               versions := t.versions + [VersionRow(op.id, 1, ActionName(op), None, DataOf(row))],
               sources := t.sources + (if op.Create? then [] else [Source(op.id, 1, op.candidate)])), row)
  }

  function RewriteRow(op: Op, read: Memory, t: MemoryTables): Attempt<MemoryTables, Memory>
    requires !op.IsInsert() && !op.Merge?
  {
    if op.id !in t.memories || !RowMatches(op, read, t.memories[op.id]) then Stale()
    else
      var row := Rewritten(op, read, t.memories[op.id]);
      if !RowAllowed(row) then Failed(IntegrityError)
      else
        var history := if op.UpdateQuality? then []
                       else [VersionRow(op.id, read.version + 1, ActionName(op), Some(DataOf(read)), DataOf(row))];
        Wrote(t.(memories := t.memories[op.id := row], versions := t.versions + history), row)
  }

  /** INSERT ... ON CONFLICT (from, to, type) DO NOTHING. */
  function AddRelation(relations: seq<Relation>, r: Relation): seq<Relation> {
    if exists i :: 0 <= i < |relations| && relations[i].from == r.from && relations[i].to == r.to then relations
    else relations + [r]
  }

  function MergeRows(s: MemoryId, c: MemoryId, survivor: Memory, consumed: Memory, t: MemoryTables): Attempt<MemoryTables, Memory>
    requires s != c
  {
    if s !in t.memories || t.memories[s].version != survivor.version then Stale()
    else if c !in t.memories || !Mergeable(t.memories[c].status) || t.memories[c].version != consumed.version then Stale()
    else
      var current := t.memories[s];
      var s' := current.(content := current.content.(text := MergedText(survivor, consumed)), version := survivor.version + 1);
      var c' := t.memories[c].(status := Merged, version := consumed.version + 1);
      Wrote(MemoryTables(t.memories[s := s'][c := c'],
                         t.versions + [VersionRow(s, s'.version, "merge", Some(DataOf(survivor)), DataOf(s')),
                                       VersionRow(c, c'.version, "merge", Some(DataOf(consumed)), DataOf(c'))],
                         AddRelation(t.relations, Relation(c, c'.version, s, s'.version)), t.sources),
            s')
  }

  /** The business part of an operation's transaction. */
  function Transact(op: Op, seen: Reads, t: MemoryTables): Attempt<MemoryTables, Memory>
    requires Admissible(op, seen)
  {
    match seen
    case NoRead => Insert(op, t)
    case OneRow(row) => RewriteRow(op, row, t)
    case TwoRows(s, c) => MergeRows(op.id, op.consumed, s, c, t)
  }

  // ---------------------------------------------------------------------------------
  // The request handed to the write helper
  // ---------------------------------------------------------------------------------

  const MEMORY: string := "memory"
  const QUALITY_UPDATED: string := "memory.quality_updated"

  function Digits(n: nat): string {
    if n < 10 then [('0' as int + n) as char] else Digits(n / 10) + [('0' as int + n % 10) as char]
  }

  /** What distinguishes the keys of the operations derived from one request. */
  function Tag(op: Op): string {
    match op
    case Expire(_) => "expired"
    case Restore(_) => "restored"
    case Delete(_) => "deleted"
    case Reject(_) => "rejected"
    case _ => ActionName(op)
  }

  /** Creations use the request's key as it is; all other operations derive theirs from it. */
  function KeyFor(op: Op, requestKey: string): string {
    if op.IsInsert() then requestKey else requestKey + ":" + Tag(op) + ":" + Digits(op.id.bits)
  }

  function EventType(op: Op): string {
    match op
    case Create(_, _, _, _) => "memory.created"
    case Activate(_, _, _, _, _, _) => "memory.activated"
    case Update(_, _) => "memory.updated"
    case UpdateQuality(_, _, _) => QUALITY_UPDATED
    case Merge(_, _) => "memory.merged"
    case Approve(_, _) => "memory.approved"
    case Expire(_) => "memory.expired"
    case Restore(_) => "memory.restored"
    case Delete(_) => "memory.deleted"
    case Reject(_) => "memory.rejected"
  }

  function NewVersion(seen: Reads): nat {
    match seen
    case NoRead => 1
    case OneRow(row) => row.version + 1
    case TwoRows(s, _) => s.version + 1
  }

  function EventFor(op: Op, seen: Reads, requestKey: string): OutboxEvent {
    OutboxEvent(EventType(op), MEMORY, op.id, NewVersion(seen), KeyFor(op, requestKey))
  }

  function AuditAction(op: Op): string {
    if op.Activate? then "memory.activate" else "memory." + Tag(op)
  }

  function AuditFor(op: Op): AuditEvent { AuditEvent(AuditAction(op), MEMORY, op.id) }

  function GetMemory(t: MemoryTables, id: MemoryId): Outcome<Memory> {
    if id in t.memories then Returned(t.memories[id]) else Raised(CallbackError("not found during idempotent replay"))
  }

  function RequestFor(op: Op, seen: Reads, requestKey: string): Request<MemoryTables, Memory>
    requires Admissible(op, seen)
  {
    Request(AuditFor(op), EventFor(op, seen, requestKey), t => Transact(op, seen, t),
            if op.UpdateQuality? then None else Some((t, id) => GetMemory(t, id)))
  }

  /** The whole operation executed at one moment: read, check, and write. */
  function SerialOp(op: Op, t: MemoryTables): Attempt<MemoryTables, Memory> {
    match ReadNow(op, t)
    case None => Failed(CallbackError("not found"))
    case Some(seen) =>
      if Admissible(op, seen) then Transact(op, seen, t) else Failed(CallbackError("wrong status"))
  }

  // ---------------------------------------------------------------------------------
  // What every transaction does to the rows
  // ---------------------------------------------------------------------------------

  /** Rows are never removed, and a row that changes moves to the next version. */
  ghost predicate RowsAdvance(t: MemoryTables, t': MemoryTables) {
    forall id :: id in t.memories ==>
      id in t'.memories && (t'.memories[id] == t.memories[id] || t'.memories[id].version == t.memories[id].version + 1)
  }

  lemma TransactAdvances(op: Op, seen: Reads, t: MemoryTables)
    requires Admissible(op, seen) && Transact(op, seen, t).Wrote?
    ensures RowsAdvance(t, Transact(op, seen, t).state)
  {
    hide Insert, MergedText, CanonicalKeyTaken, RowAllowed, Patched, AddRelation, RewriteRow;
    match seen {
      case NoRead => InsertAdvances(op, t);
      case OneRow(row) => RewriteAdvances(op, row, t);
      case TwoRows(_, _) =>
    }
  }

  lemma InsertAdvances(op: Op, t: MemoryTables)
    requires op.IsInsert() && Insert(op, t).Wrote?
    ensures RowsAdvance(t, Insert(op, t).state)
  {
  }

  lemma RewriteAdvances(op: Op, read: Memory, t: MemoryTables)
    requires !op.IsInsert() && !op.Merge? && RewriteRow(op, read, t).Wrote?
    ensures RowsAdvance(t, RewriteRow(op, read, t).state)
  {
  }

  /** Rows read at some earlier moment: never newer than the current ones, and equal if not older. */
  ghost predicate RowWasRead(id: MemoryId, row: Memory, t: MemoryTables) {
    && id in t.memories && row.version <= t.memories[id].version
    && (row.version == t.memories[id].version ==> row == t.memories[id])
  }

  ghost predicate WereRead(op: Op, seen: Reads, t: MemoryTables) {
    match seen
    case NoRead => true
    case OneRow(row) => RowWasRead(op.id, row, t)
    case TwoRows(s, c) => op.Merge? && RowWasRead(op.id, s, t) && RowWasRead(op.consumed, c, t)
  }

  lemma AdvanceKeepsReads(op: Op, seen: Reads, t: MemoryTables, t': MemoryTables)
    requires RowsAdvance(t, t') && WereRead(op, seen, t)
    ensures WereRead(op, seen, t')
  {
  }

  /**
    A transaction that succeeds on rows read earlier is the serial execution of its operation at the moment
    of its commit: the rows it read are the current ones, so every check made on them still holds, also
    those its SQL does not repeat (such as the survivor's status).
    */
  lemma StaleSuccessIsSerial(op: Op, seen: Reads, t: MemoryTables)
    requires Admissible(op, seen) && WereRead(op, seen, t)
    requires Transact(op, seen, t).Wrote?
    ensures ReadNow(op, t) == Some(seen)
    ensures SerialOp(op, t) == Transact(op, seen, t)
  {
  }
}
