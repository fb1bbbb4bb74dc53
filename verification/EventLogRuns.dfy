/**
  Concurrent writers of the event log.  A transaction may append to several streams, several times; each
  append reads the latest version it can see (committed rows and its own), and its rows become visible all
  at once at commit, unless one of their versions was taken in the meantime.
*/
module EventLogRuns {
  import opened Basics
  import opened EventLog

  type Client = Uuid

  /** An open transaction: its uncommitted rows, and an append between its read and its inserts. */
  datatype Transaction = Transaction(pending: seq<Event>, append: Option<Append>)

  datatype Append = Append(stream: Stream, latest: nat, bodies: seq<string>)

  datatype State = State(rows: seq<Event>, open: map<Client, Transaction>)

  datatype Action =
    | Begin(client: Client)
    | ReadLatest(client: Client, stream: Stream, bodies: seq<string>)
    | InsertRows(client: Client)
    | Commit(client: Client)
    | Abort(client: Client)

  predicate Clashes(rows: seq<Event>, pending: seq<Event>) {
    exists i :: 0 <= i < |pending| && VersionTaken(rows, pending[i].stream, pending[i].version)
  }

  function Next(s: State, a: Action): State {
    var c := a.client;
    if a.Begin? then (if c in s.open then s else s.(open := s.open[c := Transaction([], None)]))
    else if c !in s.open then s
    else
      var t := s.open[c];
      match a
      case ReadLatest(_, st, bodies) =>
        if t.append.Some? then s
        else s.(open := s.open[c := t.(append := Some(Append(st, LatestVersion(s.rows + t.pending, st), bodies)))])
      case InsertRows(_) =>
        if t.append.None? then s
        else
          var Append(st, latest, bodies) := t.append.value;
          s.(open := s.open[c := Transaction(t.pending + Numbered(st, latest, bodies), None)])
      case Commit(_) =>
        // UNIQUE (stream_type, stream_id, stream_version): one clash fails the whole transaction
        State(if Clashes(s.rows, t.pending) then s.rows else s.rows + t.pending, s.open - {c})
      case _ => s.(open := s.open - {c})
  }

  function Run(s: State, actions: seq<Action>): State {
    if actions == [] then s else Next(Run(s, actions[..|actions| - 1]), actions[|actions| - 1])
  }

  /**
    What an open transaction knows about a stream with n committed rows: either somebody has since taken its
    first version (it will fail), or its rows continue the committed ones without a gap.
    */
  ghost predicate StreamOk(n: nat, own: seq<Event>) {
    own != [] ==> 1 <= own[0].version <= n + 1 && (own[0].version == n + 1 ==> Consecutive(own, n + 1))
  }

  ghost predicate AppendOk(n: nat, own: seq<Event>, latest: nat) {
    && (own == [] ==> latest <= n)
    && (own != [] && own[0].version == n + 1 ==> latest == n + |own|)
  }

  ghost predicate TransactionOk(rows: seq<Event>, t: Transaction) {
    && (forall st :: StreamOk(|StreamRows(rows, st)|, StreamRows(t.pending, st)))
    && (t.append.Some? ==>
          var st := t.append.value.stream;
          AppendOk(|StreamRows(rows, st)|, StreamRows(t.pending, st), t.append.value.latest))
  }

  ghost predicate Inv(s: State) {
    GapFree(s.rows) && forall c :: c in s.open ==> TransactionOk(s.rows, s.open[c])
  }

  /** Reading the latest version sees the committed rows and one's own. */
  lemma ReadIsOk(rows: seq<Event>, t: Transaction, st: Stream, bodies: seq<string>)
    requires GapFree(rows) && TransactionOk(rows, t)
    ensures TransactionOk(rows, t.(append := Some(Append(st, LatestVersion(rows + t.pending, st), bodies))))
  {
    var own, committed := StreamRows(t.pending, st), StreamRows(rows, st);
    StreamRowsJoin(rows, t.pending, st);
    assert StreamOk(|committed|, own);
    if own == [] || own[0].version == |committed| + 1 {
      assert Consecutive(committed, 1);
      assert Consecutive(committed + own, 1);
      LatestOfConsecutive(rows + t.pending, st, 1);
    }
  }

  lemma StagedRowsContinue(n: nat, own: seq<Event>, st: Stream, latest: nat, bodies: seq<string>)
    requires StreamOk(n, own) && AppendOk(n, own, latest)
    ensures StreamOk(n, own + Numbered(st, latest, bodies))
  {
    assert own != [] ==> (own + Numbered(st, latest, bodies))[0] == own[0];
  }

  lemma InsertIsOk(rows: seq<Event>, t: Transaction)
    requires TransactionOk(rows, t) && t.append.Some?
    ensures var Append(st, latest, bodies) := t.append.value;
            TransactionOk(rows, Transaction(t.pending + Numbered(st, latest, bodies), None))
  {
    var Append(st, latest, bodies) := t.append.value;
    hide StreamRows, Numbered, StreamOk, AppendOk;
    var added := Numbered(st, latest, bodies);
    forall other ensures StreamOk(|StreamRows(rows, other)|, StreamRows(t.pending + added, other)) {
      StreamRowsJoin(t.pending, added, other);
      OneStreamOnly(added, st, other);
      var n, own := |StreamRows(rows, other)|, StreamRows(t.pending, other);
      assert StreamOk(n, own);
      if other == st {
        StagedRowsContinue(n, own, st, latest, bodies);
      } else {
        assert own + [] == own;
      }
    }
  }

  /** A commit of others only adds rows, so a transaction either goes on or is doomed to fail. */
  lemma OthersCommitIsOk(rows: seq<Event>, added: seq<Event>, t: Transaction)
    requires TransactionOk(rows, t)
    ensures TransactionOk(rows + added, t)
  {
    forall st
      ensures StreamOk(|StreamRows(rows + added, st)|, StreamRows(t.pending, st))
      ensures |StreamRows(rows + added, st)| >= |StreamRows(rows, st)|
    {
      StreamRowsJoin(rows, added, st);
      assert StreamOk(|StreamRows(rows, st)|, StreamRows(t.pending, st));
    }
  }

  /** A commit without a clash continues every stream exactly where it ends. */
  lemma CommitKeepsGapFree(rows: seq<Event>, t: Transaction)
    requires GapFree(rows) && TransactionOk(rows, t) && !Clashes(rows, t.pending)
    ensures GapFree(rows + t.pending)
  {
    forall st ensures Consecutive(StreamRows(rows + t.pending, st), 1) {
      StreamRowsJoin(rows, t.pending, st);
      var own, committed := StreamRows(t.pending, st), StreamRows(rows, st);
      assert Consecutive(committed, 1);
      assert StreamOk(|committed|, own);
      if own != [] {
        StreamRowsMembers(t.pending, st, own[0]);
        assert own[0] in own;
        TakenInStream(rows, st, 1, own[0].version);
      }
    }
  }

  lemma NextKeepsInv(s: State, a: Action)
    requires Inv(s)
    ensures Inv(Next(s, a))
    ensures s.rows <= Next(s, a).rows
  {
    hide GapFree, TransactionOk, LatestVersion;
    var c := a.client;
    if c in s.open {
      var t := s.open[c];
      assert TransactionOk(s.rows, t);
      match a
      case ReadLatest(_, st, bodies) => ReadIsOk(s.rows, t, st, bodies);
      case InsertRows(_) =>
        if t.append.Some? {
          InsertIsOk(s.rows, t);
        }
      case Commit(_) =>
        if !Clashes(s.rows, t.pending) {
          CommitKeepsGapFree(s.rows, t);
          forall d | d in s.open ensures TransactionOk(s.rows + t.pending, s.open[d]) {
            OthersCommitIsOk(s.rows, t.pending, s.open[d]);
          }
        }
      case _ =>
    } else {
      FreshTransactionOk(s.rows);
    }
  }

  lemma FreshTransactionOk(rows: seq<Event>)
    ensures TransactionOk(rows, Transaction([], None))
  {
  }

  /**
    Streams are gap-free and append-only: under any interleaving of appends, batches and aborts, the
    committed versions of every stream are exactly 1..n in commit order, and committed rows never change.
    */
  lemma {:induction false} StreamsAreGapFree(s: State, actions: seq<Action>)
    requires Inv(s)
    ensures Inv(Run(s, actions)) && GapFree(Run(s, actions).rows)
    ensures s.rows <= Run(s, actions).rows
  {
    hide GapFree, TransactionOk;
    if actions != [] {
      StreamsAreGapFree(s, actions[..|actions| - 1]);
      NextKeepsInv(Run(s, actions[..|actions| - 1]), actions[|actions| - 1]);
    }
  }

  lemma EmptyLogOk()
    ensures Inv(State([], map[]))
  {
  }
}
