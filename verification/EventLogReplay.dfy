/** `read_stream`: replaying a stream page by page while writers keep appending. */
module EventLogReplay {
  import opened Basics
  import opened EventLog
  import opened EventLogRuns

  function Min(a: int, b: int): int { if a <= b then a else b }

  /** WHERE stream_version > :after_version */
  function Since(rows: seq<Event>, after: int): seq<Event> {
    if rows == [] then []
    else Since(rows[..|rows| - 1], after) + (if rows[|rows| - 1].version > after then [rows[|rows| - 1]] else [])
  }

  function InsertByVersion(sorted: seq<Event>, e: Event): seq<Event> {
    if sorted == [] || sorted[|sorted| - 1].version <= e.version then sorted + [e]
    else InsertByVersion(sorted[..|sorted| - 1], e) + [sorted[|sorted| - 1]]
  }

  /** ORDER BY stream_version ASC */
  function SortByVersion(rows: seq<Event>): seq<Event> {
    if rows == [] then [] else InsertByVersion(SortByVersion(rows[..|rows| - 1]), rows[|rows| - 1])
  }

  /** LIMIT :size OFFSET :offset */
  function Window(rows: seq<Event>, offset: nat, size: nat): (r: seq<Event>)
    ensures |r| <= size
  {
    rows[Min(offset, |rows|)..Min(offset + size, |rows|)]
  }

  /** Page numbers below 1 mean the first page; a non-positive after_version means the whole stream. */
  function ReadPage(rows: seq<Event>, st: Stream, after: int, page: int, size: nat): seq<Event> {
    var selected := if after > 0 then Since(StreamRows(rows, st), after) else StreamRows(rows, st);
    var number := if page < 1 then 0 else page - 1;
    Window(SortByVersion(selected), number * size, size)
  }

  /** The stream after a version, as a reader wants to see it. */
  ghost function Suffix(rows: seq<Event>, st: Stream, after: int): seq<Event> {
    var own := StreamRows(rows, st);
    if after <= 0 then own else own[Min(after, |own|)..]
  }

  lemma {:induction false} SortedStaysPut(rows: seq<Event>)
    requires forall i, j :: 0 <= i < j < |rows| ==> rows[i].version <= rows[j].version
    ensures SortByVersion(rows) == rows
  {
    if rows != [] {
      SortedStaysPut(rows[..|rows| - 1]);
    }
  }

  lemma {:induction false} SinceDropsPrefix(rows: seq<Event>, first: nat, after: int)
    requires Consecutive(rows, first) && after >= first - 1
    ensures Since(rows, after) == rows[Min(after - first + 1, |rows|)..]
  {
    if rows != [] {
      var init, n, dropped := rows[..|rows| - 1], |rows| - 1, after - first + 1;
      SinceDropsPrefix(init, first, after);
      assert rows[n].version == first + n;
      if dropped <= n {
        assert rows[dropped..] == init[dropped..] + [rows[n]];
      } else {
        assert rows[Min(dropped, |rows|)..] == [] == init[Min(dropped, n)..];
      }
    }
  }

  /** On a gap-free stream a page is a window of the suffix. */
  lemma PageIsWindow(rows: seq<Event>, st: Stream, after: int, page: nat, size: nat)
    requires GapFree(rows)
    ensures ReadPage(rows, st, after, page + 1, size) == Window(Suffix(rows, st, after), page * size, size)
  {
    var own := StreamRows(rows, st);
    assert Consecutive(own, 1);
    if after > 0 {
      SinceDropsPrefix(own, 1, after);
    }
    SortedStaysPut(Suffix(rows, st, after));
  }

  /** Of consecutive rows, a window holds those whose versions lie between its ends. */
  lemma WindowMembers(list: seq<Event>, first: nat, offset: nat, size: nat, e: Event)
    requires Consecutive(list, first)
    ensures e in Window(list, offset, size) <==> e in list && first + offset <= e.version < first + offset + size
  {
    var w := Window(list, offset, size);
    if e in w {
      var i :| 0 <= i < |w| && w[i] == e;
      assert list[offset + i] == e;
    }
    if e in list && first + offset <= e.version < first + offset + size {
      var i :| 0 <= i < |list| && list[i] == e;
      assert w[i - offset] == e;
    }
  }

  /** The suffix holds the stream's events after the version, in ascending order; every version counts as after a non-positive one. */
  lemma SuffixExact(rows: seq<Event>, st: Stream, after: int, e: Event)
    requires GapFree(rows)
    ensures e in Suffix(rows, st, after) <==> e in rows && e.stream == st && e.version > after
    ensures var r := Suffix(rows, st, after);
            forall i, j :: 0 <= i < j < |r| ==> r[i].version < r[j].version
  {
    var own := StreamRows(rows, st);
    assert Consecutive(own, 1);
    StreamRowsMembers(rows, st, e);
    if e in own {
      var i :| 0 <= i < |own| && own[i] == e;
      assert after > 0 && e.version > after ==> Suffix(rows, st, after)[i - after] == e;
    }
    if e in Suffix(rows, st, after) {
      var i :| 0 <= i < |Suffix(rows, st, after)| && Suffix(rows, st, after)[i] == e;
      assert e == own[if after <= 0 then i else after + i];
    }
  }

  /**
    What a page holds: the stream's events in ascending order whose versions are the `size` many after
    after_version and the earlier pages.  Pages below 1 are the first one, and versions below 0 are 0.
    */
  lemma PageExact(rows: seq<Event>, st: Stream, after: int, page: int, size: nat, e: Event)
    requires GapFree(rows)
    ensures var r := ReadPage(rows, st, after, page, size);
            var skipped := (if after > 0 then after else 0) + (if page > 1 then page - 1 else 0) * size;
            && (e in r <==> e in rows && e.stream == st && skipped < e.version <= skipped + size)
            && (forall i, j :: 0 <= i < j < |r| ==> r[i].version < r[j].version)
  {
    hide SortByVersion, Suffix, Window, Since, GapFree;
    var n: nat := if page > 1 then page - 1 else 0;
    assert ReadPage(rows, st, after, page, size) == ReadPage(rows, st, after, n + 1, size);
    PageIsWindow(rows, st, after, n, size);
    SuffixExact(rows, st, after, e);
    if e in rows && e.stream == st {
      FromPositive(rows, st, e);
    }
    var first := if after <= 0 then 1 else after + 1;
    var offset: nat := n * size;
    SuffixConsecutive(rows, st, after);
    WindowMembers(Suffix(rows, st, after), first, offset, size, e);
    WindowVersions(Suffix(rows, st, after), offset, size, first);
  }

  lemma FromPositive(rows: seq<Event>, st: Stream, e: Event)
    requires GapFree(rows) && e in rows && e.stream == st
    ensures e.version > 0
  {
    assert Consecutive(StreamRows(rows, st), 1);
    StreamRowsMembers(rows, st, e);
  }

  lemma SuffixGrows(rows: seq<Event>, more: seq<Event>, st: Stream, after: int)
    requires rows <= more && GapFree(more)
    ensures Suffix(rows, st, after) <= Suffix(more, st, after)
    ensures GapFree(rows)
  {
    assert more == rows + more[|rows|..];
    forall other ensures Consecutive(StreamRows(rows, other), 1) && StreamRows(rows, other) <= StreamRows(more, other) {
      StreamRowsJoin(rows, more[|rows|..], other);
      assert Consecutive(StreamRows(more, other), 1);
      assert forall i :: 0 <= i < |StreamRows(rows, other)| ==> StreamRows(rows, other)[i] == StreamRows(more, other)[i];
    }
  }

  // ---------------------------------------------------------------------------------
  // Reading pages 1, 2, ... of a growing list
  // ---------------------------------------------------------------------------------

  ghost predicate Growing(lists: seq<seq<Event>>) {
    forall i, j :: 0 <= i <= j < |lists| ==> lists[i] <= lists[j]
  }

  /** How many rows the first n pages span. */
  ghost function Span(n: nat, size: nat): nat {
    if n == 0 then 0 else Span(n - 1, size) + size
  }

  lemma {:induction false} SpanIsProduct(n: nat, size: nat)
    ensures Span(n, size) == n * size
  {
    if n > 0 {
      SpanIsProduct(n - 1, size);
    }
  }

  lemma {:induction false} SpanMonotone(a: nat, b: nat, size: nat)
    requires a <= b
    ensures Span(a, size) <= Span(b, size)
  {
    if a < b {
      SpanMonotone(a, b - 1, size);
    }
  }

  /** Page i+1 is read from the i-th state of the list. */
  ghost function Pages(lists: seq<seq<Event>>, size: nat): (pages: seq<seq<Event>>)
    ensures |pages| == |lists|
    ensures forall i :: 0 <= i < |lists| ==> pages[i] == Window(lists[i], Span(i, size), size)
  {
    seq(|lists|, i requires 0 <= i < |lists| => Window(lists[i], Span(i, size), size))
  }

  function Concat(pages: seq<seq<Event>>): seq<Event> {
    if pages == [] then [] else Concat(pages[..|pages| - 1]) + pages[|pages| - 1]
  }

  /** Nothing is read after a page that came back short. */
  ghost predicate StopsWhenShort(pages: seq<seq<Event>>, size: nat) {
    forall i, j :: 0 <= i < j < |pages| && |pages[i]| < size ==> pages[j] == []
  }

  lemma ConcatNext(pages: seq<seq<Event>>, n: nat)
    requires n < |pages|
    ensures Concat(pages[..n + 1]) == Concat(pages[..n]) + pages[n]
  {
    assert pages[..n + 1][..n] == pages[..n];
  }

  /** As long as all pages are full, they add up to the beginning of the list. */
  lemma {:induction false} FullPages(lists: seq<seq<Event>>, size: nat, n: nat)
    requires Growing(lists) && n <= |lists|
    requires forall i :: 0 <= i < n ==> |Pages(lists, size)[i]| == size
    ensures n > 0 ==> Span(n, size) <= |lists[n - 1]|
                      && Concat(Pages(lists, size)[..n]) == lists[n - 1][..Span(n, size)]
    ensures n == 0 ==> Concat(Pages(lists, size)[..n]) == []
  {
    hide Window, Concat, Growing, Pages;
    if n > 0 {
      FullPages(lists, size, n - 1);
      ConcatNext(Pages(lists, size), n - 1);
      BeforePage(lists, size, n - 1);
      var list := lists[n - 1];
      assert Pages(lists, size)[n - 1] == Window(list, Span(n - 1, size), size);
      FullWindow(list, Span(n - 1, size), size);
      assert Span(n, size) == Span(n - 1, size) + size;
    } else {
      ConcatNothing(Pages(lists, size));
    }
  }

  lemma ConcatNothing(pages: seq<seq<Event>>)
    ensures Concat(pages[..0]) == []
  {
  }

  /** What full pages gave so far is still the beginning of the list when the next page is read. */
  lemma BeforePage(lists: seq<seq<Event>>, size: nat, n: nat)
    requires Growing(lists) && n < |lists|
    requires n > 0 ==> Span(n, size) <= |lists[n - 1]|
    ensures Span(n, size) <= |lists[n]|
    ensures n > 0 ==> lists[n - 1][..Span(n, size)] == lists[n][..Span(n, size)]
    ensures n == 0 ==> lists[n][..Span(n, size)] == []
  {
    if n > 0 {
      assert lists[n - 1] <= lists[n];
      PrefixTake(lists[n - 1], lists[n], Span(n, size));
    }
  }

  lemma PrefixTake(a: seq<Event>, b: seq<Event>, n: nat)
    requires a <= b && n <= |a|
    ensures a[..n] == b[..n]
  {
  }

  lemma FullWindow(list: seq<Event>, offset: nat, size: nat)
    requires offset <= |list| && |Window(list, offset, size)| == size
    ensures offset + size <= |list|
    ensures list[..offset] + Window(list, offset, size) == list[..offset + size]
  {
  }

  lemma ShortWindow(list: seq<Event>, offset: nat, size: nat)
    requires offset <= |list| && |Window(list, offset, size)| < size
    ensures |list| < offset + size
    ensures list[..offset] + Window(list, offset, size) == list
  {
  }

  /** The first short page reaches the end of the list as it is then. */
  lemma UpToFirstShort(lists: seq<seq<Event>>, size: nat, k: nat)
    requires Growing(lists) && k < |lists|
    requires forall i :: 0 <= i < k ==> |Pages(lists, size)[i]| == size
    requires |Pages(lists, size)[k]| < size
    ensures Concat(Pages(lists, size)[..k + 1]) == lists[k]
    ensures |lists[k]| < Span(k + 1, size)
  {
    hide Window, Concat;
    FullPages(lists, size, k);
    ConcatNext(Pages(lists, size), k);
    BeforePage(lists, size, k);
    ShortWindow(lists[k], Span(k, size), size);
  }

  lemma {:induction false} EmptyPagesAddNothing(pages: seq<seq<Event>>, n: nat)
    requires n <= |pages| && forall j :: n <= j < |pages| ==> pages[j] == []
    ensures Concat(pages) == Concat(pages[..n])
  {
    if n < |pages| {
      EmptyPagesAddNothing(pages[..|pages| - 1], n);
      assert pages[..|pages| - 1][..n] == pages[..n];
    } else {
      assert pages[..n] == pages;
    }
  }

  lemma {:induction false} ConcatPrefix(pages: seq<seq<Event>>, n: nat)
    requires n <= |pages|
    ensures Concat(pages[..n]) <= Concat(pages)
  {
    if n < |pages| {
      ConcatPrefix(pages[..|pages| - 1], n);
      assert pages[..|pages| - 1][..n] == pages[..n];
    } else {
      assert pages[..n] == pages;
    }
  }

  /** The first short page, if there is one. */
  lemma {:induction false} FirstShort(pages: seq<seq<Event>>, size: nat) returns (k: nat)
    requires forall i :: 0 <= i < |pages| ==> |pages[i]| <= size
    ensures k <= |pages|
    ensures forall i :: 0 <= i < k ==> |pages[i]| == size
    ensures k < |pages| ==> |pages[k]| < size
  {
    k := 0;
    while k < |pages| && |pages[k]| == size
      invariant k <= |pages| && forall i :: 0 <= i < k ==> |pages[i]| == size
    {
      k := k + 1;
    }
  }

  lemma StoppingIsPrefix(lists: seq<seq<Event>>, size: nat)
    requires Growing(lists) && lists != [] && StopsWhenShort(Pages(lists, size), size)
    ensures Concat(Pages(lists, size)) <= lists[|lists| - 1]
  {
    hide Window, Concat, Span;
    var pages := Pages(lists, size);
    var k := FirstShort(pages, size);
    if k == |lists| {
      FullPages(lists, size, k);
      assert pages[..k] == pages;
    } else {
      UpToFirstShort(lists, size, k);
      EmptyPagesAddNothing(pages, k + 1);
    }
  }

  /** The first non-empty page after page k. */
  lemma NextNonEmpty(pages: seq<seq<Event>>, k: nat, j: nat) returns (n: nat)
    requires k < j < |pages| && pages[j] != []
    ensures k < n <= j && pages[n] != [] && forall l :: k < l < n ==> pages[l] == []
  {
    n := k + 1;
    while pages[n] == []
      invariant k < n <= j && forall l :: k < l < n ==> pages[l] == []
      decreases j - n
    {
      n := n + 1;
    }
  }

  /** A non-empty page after a short one leaves out what was appended behind the short one. */
  lemma ContinuingSkips(lists: seq<seq<Event>>, size: nat, first: nat)
    requires Growing(lists) && lists != [] && !StopsWhenShort(Pages(lists, size), size)
    requires Consecutive(lists[|lists| - 1], first)
    ensures !(Concat(Pages(lists, size)) <= lists[|lists| - 1])
  {
    hide Concat, Span, Consecutive, Window;
    var pages := Pages(lists, size);
    var k := FirstShort(pages, size);
    var i, j :| 0 <= i < j < |pages| && |pages[i]| < size && pages[j] != [];
    assert k <= i;
    var n := NextNonEmpty(pages, k, j);
    BeforeGap(lists, size, k, n);
    SpanMonotone(k + 1, n, size);
    WindowHead(lists[n], Span(n, size), size);
    var all, e := lists[|lists| - 1], lists[n][Span(n, size)];
    assert lists[n] <= all;
    SkippedVersion(all, first, |lists[k]|, Span(n, size), e);
    assert Concat(pages)[|lists[k]|] == e by {
      ConcatNext(pages, n);
      ConcatPrefix(pages, n + 1);
    }
  }

  /** Up to the first non-empty page after the first short one, the pages give the list as the short one found it. */
  lemma BeforeGap(lists: seq<seq<Event>>, size: nat, k: nat, n: nat)
    requires Growing(lists) && k < n < |lists|
    requires forall i :: 0 <= i < k ==> |Pages(lists, size)[i]| == size
    requires |Pages(lists, size)[k]| < size
    requires forall i :: k < i < n ==> Pages(lists, size)[i] == []
    ensures Concat(Pages(lists, size)[..n]) == lists[k] && |lists[k]| < Span(k + 1, size)
  {
    hide Concat, Span, Window, Pages;
    var pages := Pages(lists, size);
    UpToFirstShort(lists, size, k);
    assert pages[..n][..k + 1] == pages[..k + 1];
    EmptyPagesAddNothing(pages[..n], k + 1);
  }

  lemma WindowHead(list: seq<Event>, offset: nat, size: nat)
    requires Window(list, offset, size) != []
    ensures offset < |list| && Window(list, offset, size)[0] == list[offset]
  {
  }

  /** The row at a later position has another version, so it cannot stand at an earlier one. */
  lemma SkippedVersion(all: seq<Event>, first: nat, early: nat, late: nat, e: Event)
    requires Consecutive(all, first) && early < late < |all| && all[late] == e
    ensures all[early] != e
  {
  }

  ghost predicate Ascending(events: seq<Event>) {
    forall i, j :: 0 <= i < j < |events| ==> events[i].version < events[j].version
  }

  ghost predicate Below(events: seq<Event>, bound: nat) {
    forall i :: 0 <= i < |events| ==> events[i].version < bound
  }

  lemma AscendingJoin(a: seq<Event>, b: seq<Event>, low: nat, high: nat)
    requires Ascending(a) && Below(a, low) && Ascending(b) && Below(b, high) && low <= high
    requires forall i :: 0 <= i < |b| ==> low <= b[i].version
    ensures Ascending(a + b) && Below(a + b, high)
  {
  }

  /** Versions only go up, so no event is ever read twice. */
  lemma {:induction false} NeverRepeats(lists: seq<seq<Event>>, size: nat, first: nat, n: nat)
    requires n <= |lists|
    requires forall i :: 0 <= i < |lists| ==> Consecutive(lists[i], first)
    ensures Ascending(Concat(Pages(lists, size)[..n])) && Below(Concat(Pages(lists, size)[..n]), first + Span(n, size))
  {
    hide Window, Concat, Consecutive, Ascending, Below, Pages;
    if n > 0 {
      NeverRepeats(lists, size, first, n - 1);
      ConcatNext(Pages(lists, size), n - 1);
      var page := Window(lists[n - 1], Span(n - 1, size), size);
      assert Pages(lists, size)[n - 1] == page;
      WindowVersions(lists[n - 1], Span(n - 1, size), size, first);
      AscendingJoin(Concat(Pages(lists, size)[..n - 1]), page, first + Span(n - 1, size), first + Span(n, size));
    } else {
      ConcatNothing(Pages(lists, size));
      NothingAscends(first);
    }
  }

  lemma NothingAscends(bound: nat)
    ensures Ascending([]) && Below([], bound)
  {
  }

  lemma WindowVersions(list: seq<Event>, offset: nat, size: nat, first: nat)
    requires Consecutive(list, first)
    ensures var w := Window(list, offset, size);
            && Ascending(w) && Below(w, first + offset + size)
            && forall i :: 0 <= i < |w| ==> first + offset <= w[i].version
  {
  }

  // ---------------------------------------------------------------------------------
  // The guarantee
  // ---------------------------------------------------------------------------------

  ghost predicate GrowingTables(tables: seq<seq<Event>>) {
    forall i, j :: 0 <= i <= j < |tables| ==> tables[i] <= tables[j]
  }

  ghost function PagesRead(tables: seq<seq<Event>>, st: Stream, after: int, size: nat): (pages: seq<seq<Event>>)
    ensures |pages| == |tables|
  {
    seq(|tables|, i requires 0 <= i < |tables| => ReadPage(tables[i], st, after, i + 1, size))
  }

  /**
    Reading pages 1, 2, ... with a fixed after_version while writers append never repeats an event; and it
    yields a gap-free beginning of the stream after that version exactly if no non-empty page follows a
    short one.  A reader that goes on after a short page skips what was appended in between.
    */
  lemma PagedReplayExact(tables: seq<seq<Event>>, st: Stream, after: int, size: nat)
    requires tables != [] && GrowingTables(tables) && GapFree(tables[|tables| - 1])
    ensures var pages := PagesRead(tables, st, after, size);
            && (Concat(pages) <= Suffix(tables[|tables| - 1], st, after) <==> StopsWhenShort(pages, size))
            && Ascending(Concat(pages))
  {
    hide ReadPage, Suffix, Concat, GapFree, Window, StopsWhenShort, Consecutive, Span, Ascending;
    var last := tables[|tables| - 1];
    var lists := seq(|tables|, i requires 0 <= i < |tables| => Suffix(tables[i], st, after));
    var first := if after <= 0 then 1 else after + 1;
    forall i, j | 0 <= i <= j < |tables| ensures lists[i] <= lists[j] {
      SuffixGrows(tables[j], last, st, after);
      SuffixGrows(tables[i], tables[j], st, after);
    }
    forall i | 0 <= i < |tables|
      ensures ReadPage(tables[i], st, after, i + 1, size) == Window(lists[i], Span(i, size), size)
      ensures Consecutive(lists[i], first)
    {
      SuffixGrows(tables[i], last, st, after);
      PageIsWindow(tables[i], st, after, i, size);
      SpanIsProduct(i, size);
      SuffixConsecutive(tables[i], st, after);
    }
    assert PagesRead(tables, st, after, size) == Pages(lists, size);
    NeverRepeats(lists, size, first, |lists|);
    assert Pages(lists, size)[..|lists|] == Pages(lists, size);
    if StopsWhenShort(Pages(lists, size), size) {
      StoppingIsPrefix(lists, size);
    } else {
      ContinuingSkips(lists, size, first);
    }
  }

  /**
    The same condition, over the log alone: once the stream, as long as it was at some read, did not fill that
    page, it is never so long at a later read that the later page has an event.
    */
  ghost predicate ReadsInTime(tables: seq<seq<Event>>, st: Stream, after: int, size: nat) {
    forall i, j :: 0 <= i < j < |tables| && |Suffix(tables[i], st, after)| < Span(i + 1, size) ==>
      |Suffix(tables[j], st, after)| <= Span(j, size)
  }

  lemma WindowSizes(list: seq<Event>, n: nat, size: nat)
    ensures |Window(list, Span(n, size), size)| < size <==> |list| < Span(n + 1, size)
    ensures size > 0 ==> (Window(list, Span(n, size), size) == [] <==> |list| <= Span(n, size))
  {
    hide Span;
    SpanStep(n, size);
    SpanIsProduct(n, size);
  }

  lemma SpanStep(n: nat, size: nat)
    ensures Span(n + 1, size) == Span(n, size) + size
  {
  }

  lemma StoppingIsInTime(tables: seq<seq<Event>>, st: Stream, after: int, size: nat)
    requires GrowingTables(tables) && (tables != [] ==> GapFree(tables[|tables| - 1]))
    ensures StopsWhenShort(PagesRead(tables, st, after, size), size) <==> ReadsInTime(tables, st, after, size)
  {
    hide ReadPage, Suffix, Window, Span, GapFree;
    var pages := PagesRead(tables, st, after, size);
    if StopsWhenShort(pages, size) {
      forall i, j | 0 <= i < j < |tables| && |Suffix(tables[i], st, after)| < Span(i + 1, size)
        ensures |Suffix(tables[j], st, after)| <= Span(j, size)
      {
        PageSizes(tables, st, after, size, i);
        PageSizes(tables, st, after, size, j);
        SpanIsProduct(i + 1, size);
      }
    }
    if ReadsInTime(tables, st, after, size) {
      forall i, j | 0 <= i < j < |pages| && |pages[i]| < size ensures pages[j] == [] {
        PageSizes(tables, st, after, size, i);
        PageSizes(tables, st, after, size, j);
        assert tables[i] <= tables[j];
      }
    }
  }

  lemma PageSizes(tables: seq<seq<Event>>, st: Stream, after: int, size: nat, i: nat)
    requires i < |tables| && GrowingTables(tables) && GapFree(tables[|tables| - 1])
    ensures var page, list := PagesRead(tables, st, after, size)[i], Suffix(tables[i], st, after);
            && (|page| < size <==> |list| < Span(i + 1, size))
            && (size > 0 ==> (page == [] <==> |list| <= Span(i, size)))
  {
    hide ReadPage, Suffix, Window, Span, GapFree;
    SuffixGrows(tables[i], tables[|tables| - 1], st, after);
    PageIsWindow(tables[i], st, after, i, size);
    SpanIsProduct(i, size);
    WindowSizes(Suffix(tables[i], st, after), i, size);
  }

  /** The replay is a gap-free beginning of the stream exactly if the log grew in time for the reads. */
  lemma ReplayExactly(tables: seq<seq<Event>>, st: Stream, after: int, size: nat)
    requires tables != [] && GrowingTables(tables) && GapFree(tables[|tables| - 1])
    ensures Concat(PagesRead(tables, st, after, size)) <= Suffix(tables[|tables| - 1], st, after)
       <==> ReadsInTime(tables, st, after, size)
  {
    hide Concat, Suffix, GapFree, PagesRead, ReadsInTime, StopsWhenShort;
    PagedReplayExact(tables, st, after, size);
    StoppingIsInTime(tables, st, after, size);
  }

  /** The reader's rule: whoever reads nothing after a short page gets a beginning of the stream. */
  lemma StoppingReaderIsSafe(tables: seq<seq<Event>>, st: Stream, after: int, size: nat)
    requires tables != [] && GrowingTables(tables) && GapFree(tables[|tables| - 1])
    requires forall i :: 0 <= i < |tables| - 1 ==> |PagesRead(tables, st, after, size)[i]| >= size
    ensures Concat(PagesRead(tables, st, after, size)) <= Suffix(tables[|tables| - 1], st, after)
  {
    hide Concat, Suffix, GapFree;
    PagedReplayExact(tables, st, after, size);
  }

  lemma SuffixConsecutive(rows: seq<Event>, st: Stream, after: int)
    requires GapFree(rows)
    ensures Consecutive(Suffix(rows, st, after), if after <= 0 then 1 else after + 1)
  {
    assert Consecutive(StreamRows(rows, st), 1);
  }

  /** The same for the states a concurrent run passes through. */
  lemma ReplayDuringRun(actions: seq<Action>, moments: seq<nat>, st: Stream, after: int, size: nat)
    requires moments != []
    requires forall i :: 0 <= i < |moments| ==> moments[i] <= |actions|
    requires forall i, j :: 0 <= i <= j < |moments| ==> moments[i] <= moments[j]
    ensures var tables := seq(|moments|, i requires 0 <= i < |moments| => Run(State([], map[]), actions[..moments[i]]).rows);
            var pages := PagesRead(tables, st, after, size);
            && (Concat(pages) <= Suffix(tables[|tables| - 1], st, after) <==> StopsWhenShort(pages, size))
            && Ascending(Concat(pages))
  {
    hide GapFree, Run, PagesRead, Suffix, Concat, StopsWhenShort, Ascending;
    var start := State([], map[]);
    var tables := seq(|moments|, i requires 0 <= i < |moments| => Run(start, actions[..moments[i]]).rows);
    EmptyLogOk();
    forall i, j | 0 <= i <= j < |moments| ensures tables[i] <= tables[j] {
      RunGrows(start, actions[..moments[j]], moments[i]);
      assert actions[..moments[j]][..moments[i]] == actions[..moments[i]];
    }
    StreamsAreGapFree(start, actions[..moments[|moments| - 1]]);
    PagedReplayExact(tables, st, after, size);
  }

  lemma {:induction false} RunGrows(s: State, actions: seq<Action>, n: nat)
    requires Inv(s) && n <= |actions|
    ensures Run(s, actions[..n]).rows <= Run(s, actions).rows
  {
    if n < |actions| {
      var init := actions[..|actions| - 1];
      RunGrows(s, init, n);
      assert init[..n] == actions[..n];
      StreamsAreGapFree(s, init);
      NextKeepsInv(Run(s, init), actions[|actions| - 1]);
    } else {
      assert actions[..n] == actions;
    }
  }

  // ---------------------------------------------------------------------------------
  // A run in which a reader skips an event
  // ---------------------------------------------------------------------------------

  /** One writer appends one event, and later three more. */
  function FourAppends(c: Client, st: Stream, body: string): seq<Action> {
    [Begin(c), ReadLatest(c, st, [body]), InsertRows(c), Commit(c),
     Begin(c), ReadLatest(c, st, [body, body, body]), InsertRows(c), Commit(c)]
  }

  /** A whole transaction with one append, while no other is open. */
  lemma AppendAlone(rows: seq<Event>, c: Client, st: Stream, bodies: seq<string>)
    requires forall i :: 0 <= i < |rows| ==> rows[i] == Event(st, i + 1, rows[i].body)
    ensures var s := State(rows, map[]);
            var s4 := Next(Next(Next(Next(s, Begin(c)), ReadLatest(c, st, bodies)), InsertRows(c)), Commit(c));
            s4 == State(rows + Numbered(st, |rows|, bodies), map[])
  {
    hide LatestVersion, StreamRows;
    OneStreamOnly(rows, st, st);
    LatestOfConsecutive(rows, st, 1);
    var added := Numbered(st, |rows|, bodies);
    assert [] + added == added && rows + [] == rows;
    assert !Clashes(rows, added);
  }

  lemma RunFour(s: State, actions: seq<Action>, n: nat)
    requires n + 4 <= |actions|
    ensures Run(s, actions[..n + 4])
         == Next(Next(Next(Next(Run(s, actions[..n]), actions[n]), actions[n + 1]), actions[n + 2]), actions[n + 3])
  {
    hide Next;
    forall k | n <= k < n + 4 ensures Run(s, actions[..k + 1]) == Next(Run(s, actions[..k]), actions[k]) {
      assert actions[..k + 1][..k] == actions[..k];
    }
  }

  /**
    The reader asks for pages of two.  It reads its first page when one event is there, three more are appended,
    and its second page starts behind the second event, which it never sees.
    */
  lemma ReaderSkips(c: Client, st: Stream, body: string)
    ensures var actions := FourAppends(c, st, body);
            var tables := [Run(State([], map[]), actions[..4]).rows, Run(State([], map[]), actions[..8]).rows];
            && tables == [Numbered(st, 0, [body]), Numbered(st, 0, [body, body, body, body])]
            && Concat(PagesRead(tables, st, 0, 2)) == [Event(st, 1, body), Event(st, 3, body), Event(st, 4, body)]
            && !ReadsInTime(tables, st, 0, 2)
  {
    hide Run, Next, ReadPage, Concat, Numbered, FourAppends, PagesRead, ReadsInTime;
    TablesRead(c, st, body);
    var one, four := Numbered(st, 0, [body]), Numbered(st, 0, [body, body, body, body]);
    ReadsOf(one, four, st);
  }

  lemma TablesRead(c: Client, st: Stream, body: string)
    ensures var actions := FourAppends(c, st, body);
            && Run(State([], map[]), actions[..4]).rows == Numbered(st, 0, [body])
            && Run(State([], map[]), actions[..8]).rows == Numbered(st, 0, [body, body, body, body])
  {
    hide Run, Next;
    var actions, start := FourAppends(c, st, body), State([], map[]);
    var one, four := Numbered(st, 0, [body]), Numbered(st, 0, [body, body, body, body]);
    RunNothing(start, actions);
    RunFour(start, actions, 0);
    AppendAlone([], c, st, [body]);
    assert [] + one == one;
    assert Run(start, actions[..4]) == State(one, map[]);
    RunFour(start, actions, 4);
    AppendAlone(one, c, st, [body, body, body]);
    assert one + Numbered(st, 1, [body, body, body]) == four;
  }

  lemma RunNothing(s: State, actions: seq<Action>)
    ensures Run(s, actions[..0]) == s
  {
  }

  lemma ReadsOf(one: seq<Event>, four: seq<Event>, st: Stream)
    requires |one| == 1 && |four| == 4 && one <= four
    requires forall i :: 0 <= i < 4 ==> four[i] == Event(st, i + 1, four[i].body)
    ensures Concat(PagesRead([one, four], st, 0, 2)) == [four[0], four[2], four[3]]
    ensures !ReadsInTime([one, four], st, 0, 2)
  {
    hide ReadPage, StreamRows;
    var tables := [one, four];
    assert one[0] == four[0];
    OneStreamOnly(one, st, st);
    OneStreamOnly(four, st, st);
    WholeStream(one, st);
    WholeStream(four, st);
    PageIsWindow(one, st, 0, 0, 2);
    PageIsWindow(four, st, 0, 1, 2);
    var pages := PagesRead(tables, st, 0, 2);
    assert pages[0] == [four[0]] && pages[1] == four[2..4] == [four[2], four[3]];
    ConcatTwo(pages);
    SpanIsProduct(1, 2);
    assert |Suffix(tables[0], st, 0)| < Span(0 + 1, 2) && |Suffix(tables[1], st, 0)| > Span(1, 2);
  }

  lemma ConcatTwo(pages: seq<seq<Event>>)
    requires |pages| == 2
    ensures Concat(pages) == pages[0] + pages[1]
  {
    assert pages[..1][..0] == [];
    assert Concat(pages[..1]) == [] + pages[0] == pages[0];
  }

  /** A log of one stream numbered from 1 is that stream after version 0, and gap-free. */
  lemma WholeStream(rows: seq<Event>, st: Stream)
    requires forall i :: 0 <= i < |rows| ==> rows[i] == Event(st, i + 1, rows[i].body)
    ensures GapFree(rows) && Suffix(rows, st, 0) == rows
  {
    hide StreamRows;
    forall other ensures Consecutive(StreamRows(rows, other), 1) {
      OneStreamOnly(rows, st, other);
    }
    OneStreamOnly(rows, st, st);
  }
}
