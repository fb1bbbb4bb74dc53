/**
  Canonical keys.  A generated key is `{project_code}-mem-{n}`: the creation takes its project's advisory lock,
  counts the project's rows, and keeps the lock until its transaction commits or rolls back.  A creation may
  also bring its own key; it takes no lock.  UNIQUE (project_id, canonical_key) refuses a key that is there.
*/
module CanonicalKeys {
  import opened Basics

  type Client = Uuid
  type Project = Uuid

  /** A key of the generated form, or any other. */
  datatype Key = Numbered(n: nat) | Other(text: string)

  datatype Row = Row(project: Project, key: Key)

  datatype Creation =
    | Waiting(project: Project)                       // asked for the lock
    | Locked(project: Project)                        // holds it, has not counted yet
    | Counted(project: Project, number: nat)          // holds it, knows its number
    | Custom(project: Project, key: Key)              // brings its own key
    | Committed(project: Project, key: Key)
    | Failed(project: Project)                        // rolled back, or refused by UNIQUE

  /** The rows are in commit order; the lock table says which client holds which project's lock. */
  datatype State = State(rows: seq<Row>, locks: map<Project, Client>, creations: map<Client, Creation>)

  datatype Action =
    | Start(client: Client, project: Project)
    | StartCustom(client: Client, project: Project, key: Key)
    | Lock(client: Client)
    | Count(client: Client)
    | CommitRow(client: Client)
    | Rollback(client: Client)

  function CountRows(rows: seq<Row>, p: Project): nat {
    if rows == [] then 0
    else CountRows(rows[..|rows| - 1], p) + (if rows[|rows| - 1].project == p then 1 else 0)
  }

  /** The keys of one project, in commit order. */
  function Keys(rows: seq<Row>, p: Project): seq<Key> {
    if rows == [] then []
    else Keys(rows[..|rows| - 1], p) + (if rows[|rows| - 1].project == p then [rows[|rows| - 1].key] else [])
  }

  predicate Holds(c: Creation) { c.Locked? || c.Counted? }

  /** The INSERT and the commit, or the refusal. */
  function Insert(s: State, c: Client, row: Row): State {
    if row in s.rows then s.(creations := s.creations[c := Failed(row.project)])
    else s.(rows := s.rows + [row], creations := s.creations[c := Committed(row.project, row.key)])
  }

  function Next(s: State, a: Action): State {
    var c := a.client;
    match a
    case Start(_, p) =>
      if c in s.creations then s else s.(creations := s.creations[c := Waiting(p)])
    case StartCustom(_, p, key) =>
      if c in s.creations then s else s.(creations := s.creations[c := Custom(p, key)])
    case Lock(_) =>
      if c in s.creations && s.creations[c].Waiting? && s.creations[c].project !in s.locks then
        s.(locks := s.locks[s.creations[c].project := c], creations := s.creations[c := Locked(s.creations[c].project)])
      else s
    case Count(_) =>
      if c in s.creations && s.creations[c].Locked? then
        var p := s.creations[c].project;
        s.(creations := s.creations[c := Counted(p, CountRows(s.rows, p) + 1)])
      else s
    case CommitRow(_) =>
      if c in s.creations && s.creations[c].Counted? then
        var Counted(p, n) := s.creations[c];
        Insert(s.(locks := s.locks - {p}), c, Row(p, Numbered(n)))
      else if c in s.creations && s.creations[c].Custom? then
        Insert(s, c, Row(s.creations[c].project, s.creations[c].key))
      else s
    case Rollback(_) =>
      if c in s.creations && !s.creations[c].Committed? then
        var p := s.creations[c].project;
        s.(locks := if Holds(s.creations[c]) then s.locks - {p} else s.locks,
           creations := s.creations[c := Failed(p)])
      else s
  }

  function RunFrom(s: State, actions: seq<Action>): State {
    if actions == [] then s else Next(RunFrom(s, actions[..|actions| - 1]), actions[|actions| - 1])
  }

  function Run(actions: seq<Action>): State { RunFrom(State([], map[], map[]), actions) }

  // ---------------------------------------------------------------------------------
  // Counting the rows of a project
  // ---------------------------------------------------------------------------------

  /** 1, 2, ..., n. */
  ghost predicate IsCounting(keys: seq<Key>) {
    forall i :: 0 <= i < |keys| ==> keys[i] == Numbered(i + 1)
  }

  lemma {:induction false} KeysCount(rows: seq<Row>, p: Project)
    ensures |Keys(rows, p)| == CountRows(rows, p)
  {
    if rows != [] {
      KeysCount(rows[..|rows| - 1], p);
    }
  }

  lemma RowsGrow(rows: seq<Row>, r: Row, p: Project)
    ensures CountRows(rows + [r], p) == CountRows(rows, p) + (if r.project == p then 1 else 0)
    ensures Keys(rows + [r], p) == Keys(rows, p) + (if r.project == p then [r.key] else [])
  {
    assert (rows + [r])[..|rows|] == rows;
  }

  lemma {:induction false} KeysMembers(rows: seq<Row>, p: Project, key: Key)
    ensures key in Keys(rows, p) <==> Row(p, key) in rows
  {
    if rows != [] {
      KeysMembers(rows[..|rows| - 1], p, key);
      assert rows == rows[..|rows| - 1] + [rows[|rows| - 1]];
    }
  }

  // ---------------------------------------------------------------------------------
  // Invariants
  // ---------------------------------------------------------------------------------

  ghost predicate LockInv(s: State) {
    && (forall c :: c in s.creations && Holds(s.creations[c]) ==>
          s.creations[c].project in s.locks && s.locks[s.creations[c].project] == c)
    && (forall p :: p in s.locks ==>
          s.locks[p] in s.creations && Holds(s.creations[s.locks[p]]) && s.creations[s.locks[p]].project == p)
    && (forall i, j :: 0 <= i < j < |s.rows| ==> s.rows[i] != s.rows[j])
  }

  lemma NextKeepsLocks(s: State, a: Action)
    requires LockInv(s)
    ensures LockInv(Next(s, a))
  {
    hide CountRows;
  }

  /** A step concerns its own client only; whatever comes, a committed or failed creation stays as it ended. */
  lemma EndedStays(s: State, a: Action, c: Client)
    requires c in s.creations && (c != a.client || s.creations[c].Committed? || s.creations[c].Failed?)
    ensures c in Next(s, a).creations && Next(s, a).creations[c] == s.creations[c]
  {
  }

  lemma {:induction false} RunKeepsLocks(actions: seq<Action>)
    ensures LockInv(Run(actions))
  {
    if actions != [] {
      RunKeepsLocks(actions[..|actions| - 1]);
      NextKeepsLocks(Run(actions[..|actions| - 1]), actions[|actions| - 1]);
    }
  }

  /** No creation of the project brings its own key. */
  ghost predicate NoCustom(actions: seq<Action>, p: Project) {
    forall k :: 0 <= k < |actions| ==> !(actions[k].StartCustom? && actions[k].project == p)
  }

  /** The number a lock holder has read is still the next one: nobody else of its project commits meanwhile. */
  ghost predicate CountingInv(s: State, p: Project) {
    && (forall c :: c in s.creations && s.creations[c].project == p ==> !s.creations[c].Custom?)
    && (forall c :: c in s.creations && s.creations[c].project == p && s.creations[c].Counted? ==>
          s.creations[c].number == CountRows(s.rows, p) + 1)
    && IsCounting(Keys(s.rows, p))
  }

  lemma NextKeepsCounting(s: State, a: Action, p: Project)
    requires LockInv(s) && CountingInv(s, p) && !(a.StartCustom? && a.project == p)
    ensures CountingInv(Next(s, a), p)
  {
    hide CountRows, Keys;
    if a.CommitRow? && Next(s, a).rows != s.rows {
      CommitKeepsCounting(s, a.client, p);
    }
  }

  lemma CommitKeepsCounting(s: State, c: Client, p: Project)
    requires LockInv(s) && CountingInv(s, p) && Next(s, CommitRow(c)).rows != s.rows
    ensures CountingInv(Next(s, CommitRow(c)), p)
  {
    hide CountRows, Keys;
    var s' := Next(s, CommitRow(c));
    var row := Row(s.creations[c].project, if s.creations[c].Counted? then Numbered(s.creations[c].number) else s.creations[c].key);
    assert s'.rows == s.rows + [row];
    RowsGrow(s.rows, row, p);
    KeysCount(s.rows, p);
  }

  lemma {:induction false} RunKeepsCounting(actions: seq<Action>, p: Project)
    requires NoCustom(actions, p)
    ensures CountingInv(Run(actions), p)
  {
    if actions != [] {
      RunKeepsCounting(actions[..|actions| - 1], p);
      RunKeepsLocks(actions[..|actions| - 1]);
      NextKeepsCounting(Run(actions[..|actions| - 1]), actions[|actions| - 1], p);
    }
  }

  /** Whatever keys are brought along, no two committed creations of a project share one. */
  lemma KeysAreDistinct(actions: seq<Action>)
    ensures forall i, j :: 0 <= i < j < |Run(actions).rows| ==> Run(actions).rows[i] != Run(actions).rows[j]
  {
    RunKeepsLocks(actions);
  }

  /**
    In a project without custom keys, however creations interleave and whichever roll back, the committed keys
    are exactly those numbered 1..n in commit order, and no generated key is ever refused.
    */
  lemma NumbersAreGapFree(actions: seq<Action>, p: Project)
    requires NoCustom(actions, p)
    ensures IsCounting(Keys(Run(actions).rows, p))
    ensures var s := Run(actions);
            forall c :: c in s.creations && s.creations[c].project == p && s.creations[c].Counted? ==>
              Next(s, CommitRow(c)).creations[c] == Committed(p, Numbered(CountRows(s.rows, p) + 1))
  {
    hide Run, CountRows, Keys;
    RunKeepsCounting(actions, p);
    var s := Run(actions);
    forall c | c in s.creations && s.creations[c].project == p && s.creations[c].Counted?
      ensures Row(p, Numbered(s.creations[c].number)) !in s.rows
    {
      KeysMembers(s.rows, p, Numbered(s.creations[c].number));
      KeysCount(s.rows, p);
    }
  }

  // ---------------------------------------------------------------------------------
  // With custom keys
  // ---------------------------------------------------------------------------------

  /** The key generated next is already there. */
  predicate Blocked(s: State, p: Project) { Row(p, Numbered(CountRows(s.rows, p) + 1)) in s.rows }

  /** None of the actions is the client's. */
  predicate NotOf(c: Client, actions: seq<Action>) {
    forall k :: 0 <= k < |actions| ==> actions[k].client != c
  }

  /** In state s, the action stores this custom key (or finds it stored). */
  predicate StoresCustom(s: State, a: Action, p: Project, key: Key) {
    a.CommitRow? && a.client in s.creations && s.creations[a.client] == Custom(p, key)
  }

  /** Somewhere along the actions a custom creation commits with this key. */
  ghost predicate CustomCommits(s: State, actions: seq<Action>, p: Project, key: Key) {
    exists k :: 0 <= k < |actions| && StoresCustom(RunFrom(s, actions[..k]), actions[k], p, key)
  }

  /** While c holds the lock, its number can be taken by nobody but a custom creation. */
  lemma HolderStep(s: State, a: Action, c: Client)
    requires LockInv(s) && c in s.creations && s.creations[c].Counted? && a.client != c
    ensures var s', p, key := Next(s, a), s.creations[c].project, Numbered(s.creations[c].number);
            && c in s'.creations && s'.creations[c] == s.creations[c]
            && (Row(p, key) in s'.rows <==> Row(p, key) in s.rows || StoresCustom(s, a, p, key))
  {
    hide CountRows;
  }

  lemma {:induction false} HolderRun(s: State, actions: seq<Action>, c: Client)
    requires LockInv(s) && c in s.creations && s.creations[c].Counted? && NotOf(c, actions)
    ensures var s', p, key := RunFrom(s, actions), s.creations[c].project, Numbered(s.creations[c].number);
            && LockInv(s') && c in s'.creations && s'.creations[c] == s.creations[c]
            && (Row(p, key) in s'.rows <==> Row(p, key) in s.rows || CustomCommits(s, actions, p, key))
  {
    hide LockInv, StoresCustom, Next;
    if actions != [] {
      var init, a := actions[..|actions| - 1], actions[|actions| - 1];
      HolderRun(s, init, c);
      HolderStep(RunFrom(s, init), a, c);
      NextKeepsLocks(RunFrom(s, init), a);
      CustomCommitsPush(s, init, a, s.creations[c].project, Numbered(s.creations[c].number));
      assert init + [a] == actions;
    }
  }

  lemma CustomCommitsPush(s: State, init: seq<Action>, a: Action, p: Project, key: Key)
    ensures CustomCommits(s, init + [a], p, key) <==> CustomCommits(s, init, p, key) || StoresCustom(RunFrom(s, init), a, p, key)
  {
    hide StoresCustom, RunFrom;
    var all := init + [a];
    assert all[..|init|] == init && all[|init|] == a;
    assert forall k :: 0 <= k < |init| ==> all[..k] == init[..k] && all[k] == init[k];
    if k :| 0 <= k < |all| && StoresCustom(RunFrom(s, all[..k]), all[k], p, key) {
      assert k < |init| ==> StoresCustom(RunFrom(s, init[..k]), init[k], p, key);
    }
    if k :| 0 <= k < |init| && StoresCustom(RunFrom(s, init[..k]), init[k], p, key) {
      assert StoresCustom(RunFrom(s, all[..k]), all[k], p, key);
    }
  }

  /**
    Whatever the others do between a creation's count and its insert: it is refused exactly if its project was
    blocked when it counted, or a custom creation with its number commits in between.  Custom creations take
    no lock.
    */
  lemma RefusedAmidOthers(s: State, c: Client, actions: seq<Action>)
    requires LockInv(s) && c in s.creations && s.creations[c].Locked? && NotOf(c, actions)
    ensures var p, key := s.creations[c].project, Numbered(CountRows(s.rows, s.creations[c].project) + 1);
            var counted := Next(s, Count(c));
            var s' := Next(RunFrom(counted, actions), CommitRow(c));
            && c in s'.creations
            && (s'.creations[c] == Failed(p) <==> Blocked(s, p) || CustomCommits(counted, actions, p, key))
            && (s'.creations[c] == Committed(p, key) <==> !Blocked(s, p) && !CustomCommits(counted, actions, p, key))
  {
    hide CountRows, RunFrom, CustomCommits;
    NextKeepsLocks(s, Count(c));
    HolderRun(Next(s, Count(c)), actions, c);
  }

  /** With nothing in between: a creation that counts and commits at once is refused exactly if its project is blocked. */
  lemma RefusedExactly(s: State, c: Client)
    requires c in s.creations && s.creations[c].Locked?
    ensures var s' := Next(Next(s, Count(c)), CommitRow(c));
            var p := s.creations[c].project;
            && (s'.creations[c] == Failed(p) <==> Blocked(s, p))
            && (s'.creations[c] == Committed(p, Numbered(CountRows(s.rows, p) + 1)) <==> !Blocked(s, p))
  {
    hide CountRows;
  }

  /** A race: the project is blocked at no moment, and yet the generated key is refused. */
  lemma RacingCustomKey(c: Client, d: Client, p: Project)
    requires c != d
    ensures var before := Run([Start(c, p), Lock(c)]);
            var between := [StartCustom(d, p, Numbered(1)), CommitRow(d)];
            var atWrite := RunFrom(Next(before, Count(c)), between);
            && c in before.creations && before.creations[c] == Locked(p)
            && !Blocked(before, p) && !Blocked(atWrite, p)
            && c in atWrite.creations && Next(atWrite, CommitRow(c)).creations == atWrite.creations[c := Failed(p)]
            && !Blocked(Next(atWrite, CommitRow(c)), p)
  {
    hide Next, CountRows, Blocked;
    RunTwo(State([], map[], map[]), [Start(c, p), Lock(c)]);
    LockedAlone(c, p);
    var before := Run([Start(c, p), Lock(c)]);
    var counted := Next(before, Count(c));
    RunTwo(counted, [StartCustom(d, p, Numbered(1)), CommitRow(d)]);
    CustomOvertakes(counted, c, d, p);
    CountsOfFirst(p);
  }

  lemma LockedAlone(c: Client, p: Project)
    ensures var s := Next(Next(State([], map[], map[]), Start(c, p)), Lock(c));
            && s == State([], map[p := c], map[c := Locked(p)])
            && Next(s, Count(c)) == State([], map[p := c], map[c := Counted(p, 1)])
  {
  }

  lemma CustomOvertakes(s: State, c: Client, d: Client, p: Project)
    requires c != d && s == State([], map[p := c], map[c := Counted(p, 1)])
    ensures var s' := Next(Next(s, StartCustom(d, p, Numbered(1))), CommitRow(d));
            && s'.rows == [Row(p, Numbered(1))] && c in s'.creations
            && Next(s', CommitRow(c)).creations == s'.creations[c := Failed(p)] && Next(s', CommitRow(c)).rows == s'.rows
  {
    assert [] + [Row(p, Numbered(1))] == [Row(p, Numbered(1))];
    var s1 := Next(s, StartCustom(d, p, Numbered(1)));
    assert s1.creations[d] == Custom(p, Numbered(1));
  }

  lemma CountsOfFirst(p: Project)
    ensures forall s: State :: s.rows == [] || s.rows == [Row(p, Numbered(1))] ==> !Blocked(s, p)
  {
    RowsGrow([], Row(p, Numbered(1)), p);
    assert [] + [Row(p, Numbered(1))] == [Row(p, Numbered(1))];
  }

  lemma RunTwo(s: State, actions: seq<Action>)
    requires |actions| == 2
    ensures RunFrom(s, actions) == Next(Next(s, actions[0]), actions[1])
  {
    hide Next;
    assert actions[..1][..0] == [];
    assert RunFrom(s, actions[..1]) == Next(s, actions[0]);
  }

  /** Nobody of the project has a key in hand. */
  ghost predicate NoneUnderWay(s: State, p: Project) {
    forall c :: c in s.creations && s.creations[c].project == p ==> !s.creations[c].Counted? && !s.creations[c].Custom?
  }

  /** Whoever counts in a blocked project gets a number that is refused. */
  ghost predicate StuckInv(s: State, p: Project, rows: seq<Row>) {
    && Keys(s.rows, p) == Keys(rows, p) && Blocked(s, p)
    && forall c :: c in s.creations && s.creations[c].project == p ==>
         !s.creations[c].Custom? && (s.creations[c].Counted? ==> s.creations[c].number == CountRows(s.rows, p) + 1)
  }

  lemma NextStaysStuck(s: State, a: Action, p: Project, rows: seq<Row>)
    requires StuckInv(s, p, rows) && !(a.StartCustom? && a.project == p)
    ensures StuckInv(Next(s, a), p, rows)
  {
    hide CountRows, Keys;
    var s' := Next(s, a);
    if s'.rows != s.rows {
      RowsGrow(s.rows, s'.rows[|s.rows|], p);
    }
  }

  /**
    A blocked project stays blocked: until somebody brings another key of his own, no memory of the project is
    ever created again, whatever the creations do.
    */
  lemma {:induction false} BlockedForGood(s: State, p: Project, actions: seq<Action>)
    requires Blocked(s, p) && NoneUnderWay(s, p) && NoCustom(actions, p)
    ensures StuckInv(RunFrom(s, actions), p, s.rows)
    ensures Keys(RunFrom(s, actions).rows, p) == Keys(s.rows, p) && Blocked(RunFrom(s, actions), p)
  {
    if actions != [] {
      BlockedForGood(s, p, actions[..|actions| - 1]);
      NextStaysStuck(RunFrom(s, actions[..|actions| - 1]), actions[|actions| - 1], p, s.rows);
    }
  }

  /** One creation blocks an empty project: it brings the key numbered 2. */
  lemma CustomKeyBlocks(c: Client, p: Project)
    ensures var s := Run([StartCustom(c, p, Numbered(2)), CommitRow(c)]);
            s.rows == [Row(p, Numbered(2))] && Blocked(s, p) && NoneUnderWay(s, p)
  {
    RunTwo(State([], map[], map[]), [StartCustom(c, p, Numbered(2)), CommitRow(c)]);
    assert [Row(p, Numbered(2))][..0] == [];
  }
}
