/**
  The append-only event log: version numbers per stream, taken optimistically as "latest + 1" and guarded by
  UNIQUE (stream_type, stream_id, stream_version).
*/
module EventLog {
  import opened Basics

  datatype Stream = Stream(kind: string, id: Uuid)

  datatype Event = Event(stream: Stream, version: nat, body: string)

  /** COALESCE(MAX(stream_version), 0) */
  function LatestVersion(rows: seq<Event>, st: Stream): nat {
    if rows == [] then 0
    else
      var last, before := rows[|rows| - 1], LatestVersion(rows[..|rows| - 1], st);
      if last.stream == st && last.version > before then last.version else before
  }

  /** The rows of one stream, in insertion order. */
  function StreamRows(rows: seq<Event>, st: Stream): seq<Event> {
    if rows == [] then []
    else StreamRows(rows[..|rows| - 1], st) + (if rows[|rows| - 1].stream == st then [rows[|rows| - 1]] else [])
  }

  /** The i-th row carries version first + i. */
  ghost predicate Consecutive(events: seq<Event>, first: nat) {
    forall i :: 0 <= i < |events| ==> events[i].version == first + i
  }

  /** Every stream is numbered 1, 2, ..., n without gaps, in insertion order. */
  ghost predicate GapFree(rows: seq<Event>) {
    forall st :: Consecutive(StreamRows(rows, st), 1)
  }

  predicate VersionTaken(rows: seq<Event>, st: Stream, version: nat) {
    exists i :: 0 <= i < |rows| && rows[i].stream == st && rows[i].version == version
  }

  /** The rows an append stages for a stream whose latest version it read as `latest`. */
  function Numbered(st: Stream, latest: nat, bodies: seq<string>): (r: seq<Event>)
    ensures |r| == |bodies|
    ensures forall i :: 0 <= i < |bodies| ==> r[i] == Event(st, latest + 1 + i, bodies[i])
  {
    seq(|bodies|, i requires 0 <= i < |bodies| => Event(st, latest + 1 + i, bodies[i]))
  }

  // ---------------------------------------------------------------------------------
  // Facts about streams
  // ---------------------------------------------------------------------------------

  lemma {:induction false} StreamRowsJoin(a: seq<Event>, b: seq<Event>, st: Stream)
    ensures StreamRows(a + b, st) == StreamRows(a, st) + StreamRows(b, st)
  {
    if b == [] {
      assert a + b == a;
    } else {
      StreamRowsJoin(a, b[..|b| - 1], st);
      assert (a + b)[..|a + b| - 1] == a + b[..|b| - 1];
    }
  }

  lemma {:induction false} OneStreamOnly(rows: seq<Event>, own: Stream, st: Stream)
    requires forall i :: 0 <= i < |rows| ==> rows[i].stream == own
    ensures StreamRows(rows, st) == if st == own then rows else []
  {
    if rows != [] {
      OneStreamOnly(rows[..|rows| - 1], own, st);
    }
  }

  lemma {:induction false} StreamRowsMembers(rows: seq<Event>, st: Stream, e: Event)
    ensures e in StreamRows(rows, st) <==> e in rows && e.stream == st
  {
    if rows != [] {
      StreamRowsMembers(rows[..|rows| - 1], st, e);
      assert rows == rows[..|rows| - 1] + [rows[|rows| - 1]];
    }
  }

  /** The latest version depends on the stream's own rows only; of consecutive rows it is the last one. */
  lemma {:induction false} LatestOfConsecutive(rows: seq<Event>, st: Stream, first: nat)
    requires Consecutive(StreamRows(rows, st), first) && first > 0
    ensures LatestVersion(rows, st) == if StreamRows(rows, st) == [] then 0 else first + |StreamRows(rows, st)| - 1
  {
    if rows != [] {
      var init := rows[..|rows| - 1];
      assert forall i :: 0 <= i < |StreamRows(init, st)| ==> StreamRows(init, st)[i] == StreamRows(rows, st)[i];
      LatestOfConsecutive(init, st, first);
      var own := StreamRows(rows, st);
      assert rows[|init|].stream == st ==> own[|own| - 1] == rows[|init|];
    }
  }

  /** The latest version is the greatest one of the stream's rows, and 0 if there are none. */
  lemma {:induction false} LatestIsGreatest(rows: seq<Event>, st: Stream)
    ensures forall e :: e in rows && e.stream == st ==> e.version <= LatestVersion(rows, st)
    ensures LatestVersion(rows, st) == 0 || exists e :: e in rows && e.stream == st && e.version == LatestVersion(rows, st)
  {
    if rows != [] {
      var init, last := rows[..|rows| - 1], rows[|rows| - 1];
      LatestIsGreatest(init, st);
      assert rows == init + [last];
      assert last in rows && forall e :: e in init ==> e in rows;
    }
  }

  lemma TakenInStream(rows: seq<Event>, st: Stream, first: nat, version: nat)
    requires Consecutive(StreamRows(rows, st), first)
    ensures VersionTaken(rows, st, version) <==> first <= version < first + |StreamRows(rows, st)|
  {
    var own := StreamRows(rows, st);
    if VersionTaken(rows, st, version) {
      var i :| 0 <= i < |rows| && rows[i].stream == st && rows[i].version == version;
      StreamRowsMembers(rows, st, rows[i]);
    }
    if first <= version < first + |own| {
      StreamRowsMembers(rows, st, own[version - first]);
      assert own[version - first] in own;
    }
  }

  // ---------------------------------------------------------------------------------
  // The code, run by one session
  // ---------------------------------------------------------------------------------

  class Log {
    var rows: seq<Event>

    constructor ()
      ensures rows == []
    {
      rows := [];
    }

    method AppendEventLog(st: Stream, body: string) returns (entry: Event)
      requires GapFree(rows)
      modifies this
      ensures entry == Event(st, |StreamRows(old(rows), st)| + 1, body)
      ensures rows == old(rows) + [entry] && GapFree(rows)
      ensures !VersionTaken(old(rows), st, entry.version)
    {
      var latest := LatestVersion(rows, st);
      LatestOfConsecutive(rows, st, 1);
      TakenInStream(rows, st, 1, latest + 1);
      entry := Event(st, latest + 1, body);
      AppendKeepsGapFree(rows, st, [body]);
      assert Numbered(st, latest, [body]) == [entry];
      rows := rows + [entry];
    }

    /** The batch reads the latest version once and counts on from it. */
    method AppendEventLogBatch(st: Stream, bodies: seq<string>) returns (results: seq<Event>)
      requires GapFree(rows)
      modifies this
      ensures results == Numbered(st, |StreamRows(old(rows), st)|, bodies)
      ensures rows == old(rows) + results && GapFree(rows)
      ensures forall e :: e in results ==> !VersionTaken(old(rows), st, e.version)
    {
      var latest := LatestVersion(rows, st);
      LatestOfConsecutive(rows, st, 1);
      forall version: nat | version > latest ensures !VersionTaken(rows, st, version) {
        TakenInStream(rows, st, 1, version);
      }
      AppendKeepsGapFree(rows, st, bodies);
      results := [];
      var i := 0;
      while i < |bodies|
        invariant 0 <= i <= |bodies|
        invariant results == Numbered(st, latest, bodies)[..i]
        invariant rows == old(rows) + results
      {
        var row := Event(st, latest + 1 + i, bodies[i]);
        rows := rows + [row];
        results := results + [row];
        i := i + 1;
      }
    }
  }

  lemma AppendKeepsGapFree(rows: seq<Event>, st: Stream, bodies: seq<string>)
    requires GapFree(rows)
    ensures GapFree(rows + Numbered(st, |StreamRows(rows, st)|, bodies))
  {
    var added := Numbered(st, |StreamRows(rows, st)|, bodies);
    forall other ensures Consecutive(StreamRows(rows + added, other), 1) {
      StreamRowsJoin(rows, added, other);
      OneStreamOnly(added, st, other);
      assert Consecutive(StreamRows(rows, other), 1);
    }
  }
}
