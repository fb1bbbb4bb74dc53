/**
  The document tree of a project as a value: a recursive group-by of the documents over the segments of
  their folder paths, and what such a tree contains.
*/
module FolderTree {
  import opened Basics

  datatype Document = Document(id: Uuid, title: string, folderPath: Option<string>)

  /** `path.split("/")` without the empty pieces. */
  function Segments(path: string): seq<string> {
    Pieces(path, "")
  }

  function Pieces(path: string, current: string): seq<string>
    decreases |path|
  {
    if path == "" then (if current == "" then [] else [current])
    else if path[0] == '/' then (if current == "" then [] else [current]) + Pieces(path[1..], "")
    else Pieces(path[1..], current + [path[0]])
  }

  /** The segments joined by single slashes: the key of a folder. */
  function JoinPath(segments: seq<string>): string {
    if segments == [] then ""
    else if |segments| == 1 then segments[0]
    else JoinPath(segments[..|segments| - 1]) + "/" + segments[|segments| - 1]
  }

  ghost predicate ValidSegments(segments: seq<string>) {
    forall i :: 0 <= i < |segments| ==> segments[i] != "" && '/' !in segments[i]
  }

  function PathOf(d: Document): string {
    if d.folderPath.Some? then d.folderPath.value else ""
  }

  function SegmentsOf(d: Document): seq<string> { Segments(PathOf(d)) }

  lemma {:induction false} PiecesValid(path: string, current: string)
    requires '/' !in current
    ensures ValidSegments(Pieces(path, current))
    decreases |path|
  {
    if path != "" {
      if path[0] == '/' {
        PiecesValid(path[1..], "");
      } else {
        PiecesValid(path[1..], current + [path[0]]);
      }
    }
  }

  lemma {:induction false} PiecesOfWord(word: string, rest: string, current: string)
    requires '/' !in word
    ensures Pieces(word + rest, current) == Pieces(rest, current + word)
    decreases |word|
  {
    if word == "" {
      assert word + rest == rest && current + word == current;
    } else {
      assert (word + rest)[1..] == word[1..] + rest;
      assert current + [word[0]] + word[1..] == current + word;
      PiecesOfWord(word[1..], rest, current + [word[0]]);
    }
  }

  /** Splitting after a complete first part. */
  lemma {:induction false} PiecesJoin(a: string, b: string, current: string)
    ensures Pieces(a + "/" + b, current) == Pieces(a, current) + Pieces(b, "")
    decreases |a|
  {
    if a == "" {
      assert a + "/" + b == "/" + b && ("/" + b)[1..] == b;
    } else {
      assert (a + "/" + b)[1..] == a[1..] + "/" + b;
      if a[0] == '/' {
        PiecesJoin(a[1..], b, "");
      } else {
        PiecesJoin(a[1..], b, current + [a[0]]);
      }
    }
  }

  /** A folder key determines its segments: different normalised prefixes never share a key. */
  lemma {:induction false} SegmentsOfJoin(segments: seq<string>)
    requires ValidSegments(segments)
    ensures Segments(JoinPath(segments)) == segments
  {
    if segments != [] {
      var init, last := segments[..|segments| - 1], segments[|segments| - 1];
      assert last + "" == last && "" + last == last;
      PiecesOfWord(last, "", "");
      if init != [] {
        SegmentsOfJoin(init);
        PiecesJoin(JoinPath(init), last, "");
      }
    }
  }

  // ---------------------------------------------------------------------------------
  // The tree as a recursive group-by
  // ---------------------------------------------------------------------------------

  /** One line of a folder listing. */
  datatype Entry = Sub(name: string) | Leaf(doc: Document)

  datatype Tree = Folder(name: string, path: string, children: seq<Tree>) | File(doc: Document)

  function WithSub(listing: seq<Entry>, name: string): seq<Entry> {
    if Sub(name) in listing then listing else listing + [Sub(name)]
  }

  /** What a document contributes to the listing of the folder `prefix`. */
  function WithDocument(listing: seq<Entry>, d: Document, prefix: seq<string>): seq<Entry> {
    var segments := SegmentsOf(d);
    if prefix == segments then listing + [Leaf(d)]
    else if prefix < segments then WithSub(listing, segments[|prefix|])
    else listing
  }

  /** The listing of a folder: subfolders by first appearance, documents in row order. */
  function Listing(docs: seq<Document>, prefix: seq<string>): seq<Entry> {
    if docs == [] then [] else WithDocument(Listing(docs[..|docs| - 1], prefix), docs[|docs| - 1], prefix)
  }

  /** `prefix` leads to a folder: some document lies in it or below. */
  ghost predicate IsFolder(docs: seq<Document>, prefix: seq<string>) {
    prefix != [] && exists i :: 0 <= i < |docs| && prefix <= SegmentsOf(docs[i])
  }

  function Depth(docs: seq<Document>): nat {
    if docs == [] then 0
    else
      var d, rest := |SegmentsOf(docs[|docs| - 1])|, Depth(docs[..|docs| - 1]);
      if d > rest then d else rest
  }

  lemma {:induction false} ListedSub(docs: seq<Document>, prefix: seq<string>, name: string)
    ensures Sub(name) in Listing(docs, prefix) <==> IsFolder(docs, prefix + [name])
    ensures Sub(name) in Listing(docs, prefix) ==> |prefix| < Depth(docs)
  {
    if docs != [] {
      var init, d := docs[..|docs| - 1], docs[|docs| - 1];
      ListedSub(init, prefix, name);
      var q := prefix + [name];
      FolderGrows(init, d, q);
      assert init + [d] == docs;
      var segments := SegmentsOf(d);
      assert q <= segments <==> prefix < segments && segments[|prefix|] == name;
    }
  }

  lemma FolderGrows(docs: seq<Document>, d: Document, q: seq<string>)
    ensures IsFolder(docs + [d], q) <==> IsFolder(docs, q) || (q != [] && q <= SegmentsOf(d))
  {
    var docs' := docs + [d];
    assert docs'[|docs|] == d;
    if q != [] {
      if i :| 0 <= i < |docs| && q <= SegmentsOf(docs[i]) {
        assert docs'[i] == docs[i];
      }
    }
  }

  /** The tree below a folder. */
  function Build(docs: seq<Document>, prefix: seq<string>): seq<Tree>
    decreases if |prefix| <= Depth(docs) then Depth(docs) - |prefix| else 0, 1, 0
  {
    BuildEntries(docs, prefix, Listing(docs, prefix))
  }

  function BuildEntries(docs: seq<Document>, prefix: seq<string>, entries: seq<Entry>): (r: seq<Tree>)
    requires forall e :: e in entries ==> e in Listing(docs, prefix)
    ensures |r| == |entries|
    decreases if |prefix| <= Depth(docs) then Depth(docs) - |prefix| else 0, 0, |entries|
  {
    if entries == [] then []
    else
      var last := entries[|entries| - 1];
      assert last in entries;
      assert forall e :: e in entries[..|entries| - 1] ==> e in entries;
      BuildEntries(docs, prefix, entries[..|entries| - 1])
      + [match last
         case Leaf(d) => File(d)
         case Sub(name) =>
           ListedSub(docs, prefix, name);
           Folder(name, JoinPath(prefix + [name]), Build(docs, prefix + [name]))]
  }

  // ---------------------------------------------------------------------------------
  // What the tree contains
  // ---------------------------------------------------------------------------------

  /** A document with the names of the folders above it. */
  datatype Placed = Placed(at: seq<string>, doc: Document)

  function Placements(trees: seq<Tree>, at: seq<string>): multiset<Placed> {
    if trees == [] then multiset{} else Placements(trees[..|trees| - 1], at) + PlacementsOf(trees[|trees| - 1], at)
  }

  function PlacementsOf(t: Tree, at: seq<string>): multiset<Placed> {
    match t
    case File(d) => multiset{Placed(at, d)}
    case Folder(name, _, children) => Placements(children, at + [name])
  }

  /** The rows below a prefix, each at its own segments. */
  function Below(docs: seq<Document>, prefix: seq<string>): multiset<Placed> {
    if docs == [] then multiset{}
    else
      var d := docs[|docs| - 1];
      Below(docs[..|docs| - 1], prefix) + (if prefix <= SegmentsOf(d) then multiset{Placed(SegmentsOf(d), d)} else multiset{})
  }

  /** The rows a listing's entries account for. */
  function Accounted(docs: seq<Document>, prefix: seq<string>, entries: seq<Entry>): multiset<Placed> {
    if entries == [] then multiset{}
    else
      Accounted(docs, prefix, entries[..|entries| - 1]) + Share(docs, prefix, entries[|entries| - 1])
  }

  function Share(docs: seq<Document>, prefix: seq<string>, e: Entry): multiset<Placed> {
    match e
    case Leaf(d) => multiset{Placed(prefix, d)}
    case Sub(name) => Below(docs, prefix + [name])
  }

  ghost predicate SubsDistinct(entries: seq<Entry>) {
    forall i, j :: 0 <= i < j < |entries| && entries[i].Sub? ==> entries[i] != entries[j]
  }

  lemma {:induction false} ListingSubsDistinct(docs: seq<Document>, prefix: seq<string>)
    ensures SubsDistinct(Listing(docs, prefix))
  {
    if docs != [] {
      ListingSubsDistinct(docs[..|docs| - 1], prefix);
    }
  }

  /** The row d lies in or below the subfolder `name` of `prefix`. */
  predicate Under(d: Document, prefix: seq<string>, name: string) {
    prefix < SegmentsOf(d) && SegmentsOf(d)[|prefix|] == name
  }

  lemma BelowGrows(docs: seq<Document>, d: Document, prefix: seq<string>, name: string)
    ensures Below(docs + [d], prefix + [name])
         == Below(docs, prefix + [name]) + (if Under(d, prefix, name) then multiset{Placed(SegmentsOf(d), d)} else multiset{})
  {
    hide SegmentsOf;
    assert (docs + [d])[..|docs|] == docs;
    assert prefix + [name] <= SegmentsOf(d) <==> Under(d, prefix, name);
  }

  ghost predicate SomeUnder(d: Document, prefix: seq<string>, entries: seq<Entry>) {
    prefix < SegmentsOf(d) && Sub(SegmentsOf(d)[|prefix|]) in entries
  }

  lemma SomeUnderLast(d: Document, prefix: seq<string>, init: seq<Entry>, last: Entry)
    ensures SomeUnder(d, prefix, init + [last]) <==>
              SomeUnder(d, prefix, init) || (last.Sub? && Under(d, prefix, last.name))
    ensures last.Sub? && last !in init && Under(d, prefix, last.name) ==> !SomeUnder(d, prefix, init)
  {
    hide SegmentsOf;
  }

  /** One more row below the prefix is accounted for by the one subfolder it belongs to. */
  lemma {:induction false} AccountedGrows(docs: seq<Document>, d: Document, prefix: seq<string>, entries: seq<Entry>)
    requires SubsDistinct(entries)
    ensures Accounted(docs + [d], prefix, entries)
         == Accounted(docs, prefix, entries)
            + (if SomeUnder(d, prefix, entries) then multiset{Placed(SegmentsOf(d), d)} else multiset{})
  {
    if entries != [] {
      hide SegmentsOf, Below, Under, SomeUnder, Accounted, Share, SubsDistinct;
      var init, last := entries[..|entries| - 1], entries[|entries| - 1];
      assert entries == init + [last];
      LastIsNew(init, last);
      AccountedGrows(docs, d, prefix, init);
      AccountedLast(docs, prefix, init, last);
      AccountedLast(docs + [d], prefix, init, last);
      ShareGrows(docs, d, prefix, last);
      SomeUnderLast(d, prefix, init, last);
    } else {
      assert !SomeUnder(d, prefix, entries);
    }
  }

  lemma LastIsNew(init: seq<Entry>, last: Entry)
    requires SubsDistinct(init + [last])
    ensures SubsDistinct(init) && (last.Sub? ==> last !in init)
  {
    var entries := init + [last];
    assert entries[|init|] == last;
    assert forall i :: 0 <= i < |init| ==> init[i] == entries[i];
  }

  lemma ShareGrows(docs: seq<Document>, d: Document, prefix: seq<string>, e: Entry)
    ensures Share(docs + [d], prefix, e)
         == Share(docs, prefix, e) + (if e.Sub? && Under(d, prefix, e.name) then multiset{Placed(SegmentsOf(d), d)} else multiset{})
  {
    hide SegmentsOf, Below, Under;
    if e.Sub? {
      BelowGrows(docs, d, prefix, e.name);
    }
  }

  /** A folder with no rows below accounts for nothing. */
  lemma {:induction false} NothingBelow(docs: seq<Document>, q: seq<string>)
    requires q != [] && !IsFolder(docs, q)
    ensures Below(docs, q) == multiset{}
  {
    if docs != [] {
      FolderGrows(docs[..|docs| - 1], docs[|docs| - 1], q);
      assert docs[..|docs| - 1] + [docs[|docs| - 1]] == docs;
      NothingBelow(docs[..|docs| - 1], q);
    }
  }

  lemma ListingOneMore(docs: seq<Document>, d: Document, prefix: seq<string>)
    ensures Listing(docs + [d], prefix) == WithDocument(Listing(docs, prefix), d, prefix)
  {
    assert (docs + [d])[..|docs|] == docs;
  }

  lemma BelowOneMore(docs: seq<Document>, d: Document, prefix: seq<string>)
    ensures Below(docs + [d], prefix)
         == Below(docs, prefix) + (if prefix <= SegmentsOf(d) then multiset{Placed(SegmentsOf(d), d)} else multiset{})
  {
    assert (docs + [d])[..|docs|] == docs;
  }

  lemma AccountedLast(docs: seq<Document>, prefix: seq<string>, entries: seq<Entry>, e: Entry)
    ensures Accounted(docs, prefix, entries + [e])
         == Accounted(docs, prefix, entries)
            + Share(docs, prefix, e)
  {
    assert (entries + [e])[..|entries|] == entries;
  }

  /** The entry a row adds accounts for that row, if no existing subfolder does. */
  lemma NewEntryAccounts(docs: seq<Document>, d: Document, prefix: seq<string>, before: seq<Entry>)
    requires before == Listing(docs, prefix)
    ensures Accounted(docs + [d], prefix, WithDocument(before, d, prefix))
         == Accounted(docs + [d], prefix, before)
            + (if prefix <= SegmentsOf(d) && !SomeUnder(d, prefix, before) then multiset{Placed(SegmentsOf(d), d)} else multiset{})
  {
    hide SegmentsOf, Listing, Accounted, Below;
    var segments := SegmentsOf(d);
    if prefix == segments {
      AccountedLast(docs + [d], prefix, before, Leaf(d));
    } else if prefix < segments && Sub(segments[|prefix|]) !in before {
      var name := segments[|prefix|];
      AccountedLast(docs + [d], prefix, before, Sub(name));
      ListedSub(docs, prefix, name);
      NothingBelow(docs, prefix + [name]);
      BelowGrows(docs, d, prefix, name);
    }
  }

  lemma {:induction false} ListingAccountsForAll(docs: seq<Document>, prefix: seq<string>)
    ensures Accounted(docs, prefix, Listing(docs, prefix)) == Below(docs, prefix)
  {
    if docs == [] {
      EmptyAccounts(prefix);
    } else {
      hide SegmentsOf, Listing, Accounted, Below, SomeUnder, WithDocument, SubsDistinct;
      var init, d := docs[..|docs| - 1], docs[|docs| - 1];
      assert init + [d] == docs;
      var before := Listing(init, prefix);
      ListingAccountsForAll(init, prefix);
      ListingSubsDistinct(init, prefix);
      AccountedGrows(init, d, prefix, before);
      NewEntryAccounts(init, d, prefix, before);
      SomeUnderIsBelow(d, prefix, before);
      BelowOneMore(init, d, prefix);
      ListingOneMore(init, d, prefix);
    }
  }

  lemma EmptyAccounts(prefix: seq<string>)
    ensures Accounted([], prefix, Listing([], prefix)) == Below([], prefix)
  {
  }

  lemma SomeUnderIsBelow(d: Document, prefix: seq<string>, entries: seq<Entry>)
    ensures SomeUnder(d, prefix, entries) ==> prefix <= SegmentsOf(d)
  {
  }

  lemma {:induction false} BuildPlaces(docs: seq<Document>, prefix: seq<string>)
    ensures Placements(Build(docs, prefix), prefix) == Below(docs, prefix)
    decreases if |prefix| <= Depth(docs) then Depth(docs) - |prefix| else 0, 1, 0
  {
    BuildEntriesPlaces(docs, prefix, Listing(docs, prefix));
    ListingAccountsForAll(docs, prefix);
  }

  lemma {:induction false} BuildEntriesPlaces(docs: seq<Document>, prefix: seq<string>, entries: seq<Entry>)
    requires forall e :: e in entries ==> e in Listing(docs, prefix)
    ensures Placements(BuildEntries(docs, prefix, entries), prefix) == Accounted(docs, prefix, entries)
    decreases if |prefix| <= Depth(docs) then Depth(docs) - |prefix| else 0, 0, |entries|
  {
    if entries != [] {
      var init, last := entries[..|entries| - 1], entries[|entries| - 1];
      assert last in entries;
      assert forall e :: e in init ==> e in entries;
      BuildEntriesPlaces(docs, prefix, init);
      var trees := BuildEntries(docs, prefix, entries);
      assert trees[..|init|] == BuildEntries(docs, prefix, init);
      if last.Sub? {
        ListedSub(docs, prefix, last.name);
        BuildPlaces(docs, prefix + [last.name]);
      }
    }
  }

  function AllPlaced(docs: seq<Document>): multiset<Placed> {
    if docs == [] then multiset{} else AllPlaced(docs[..|docs| - 1]) + multiset{Placed(SegmentsOf(docs[|docs| - 1]), docs[|docs| - 1])}
  }

  lemma {:induction false} AllBelowRoot(docs: seq<Document>)
    ensures Below(docs, []) == AllPlaced(docs)
  {
    if docs != [] {
      AllBelowRoot(docs[..|docs| - 1]);
      assert [] <= SegmentsOf(docs[|docs| - 1]);
    }
  }

  /** The tree holds every document exactly once, and exactly under the folders its path names. */
  lemma TreePlacesEveryDocument(docs: seq<Document>)
    ensures Placements(Build(docs, []), []) == AllPlaced(docs)
  {
    BuildPlaces(docs, []);
    AllBelowRoot(docs);
  }

  // ---------------------------------------------------------------------------------
  // Where a folder path leads
  // ---------------------------------------------------------------------------------

  /** The path consists of the given segments in order, with slashes between them and any number more anywhere else. */
  ghost predicate Spells(path: string, segments: seq<string>)
    decreases |segments|
  {
    if segments == [] then forall i :: 0 <= i < |path| ==> path[i] == '/'
    else exists a: nat :: SpellsFrom(path, segments, a)
  }

  /** The first segment starts at position a, after slashes only, and ends at a slash or at the end. */
  ghost predicate SpellsFrom(path: string, segments: seq<string>, a: nat)
    requires segments != []
    decreases |segments|, 0
  {
    var b := a + |segments[0]|;
    && b <= |path| && (forall i :: 0 <= i < a ==> path[i] == '/')
    && path[a..b] == segments[0]
    && (b < |path| ==> path[b] == '/')
    && Spells(path[b..], segments[1..])
  }

  lemma LeadingSlash(path: string, segments: seq<string>)
    requires Spells(path, segments)
    ensures Spells("/" + path, segments)
  {
    if segments != [] {
      var a: nat :| SpellsFrom(path, segments, a);
      var b := a + |segments[0]|;
      assert ("/" + path)[a + 1..b + 1] == path[a..b];
      assert ("/" + path)[b + 1..] == path[b..];
      assert SpellsFrom("/" + path, segments, a + 1);
    }
  }

  lemma {:induction false} PiecesSpelled(path: string, current: string)
    requires '/' !in current
    ensures Spells(current + path, Pieces(path, current))
    decreases |path|
  {
    var all, pieces := current + path, Pieces(path, current);
    if path == "" || path[0] == '/' {
      if path != "" {
        PiecesSpelled(path[1..], "");
        assert "" + path[1..] == path[1..];
        assert "/" + path[1..] == path;
        LeadingSlash(path[1..], Pieces(path[1..], ""));
      }
      if current == "" {
        assert all == path && pieces == if path == "" then [] else Pieces(path[1..], "");
      } else {
        assert pieces[0] == current && pieces[1..] == (if path == "" then [] else Pieces(path[1..], ""));
        assert all[..|current|] == current && all[|current|..] == path;
        assert SpellsFrom(all, pieces, 0);
      }
    } else {
      assert current + path == (current + [path[0]]) + path[1..];
      PiecesSpelled(path[1..], current + [path[0]]);
    }
  }

  lemma {:induction false} PiecesAfterSlashes(slashes: string, rest: string)
    requires forall i :: 0 <= i < |slashes| ==> slashes[i] == '/'
    ensures Pieces(slashes + rest, "") == Pieces(rest, "")
    decreases |slashes|
  {
    if slashes == "" {
      assert slashes + rest == rest;
    } else {
      assert (slashes + rest)[1..] == slashes[1..] + rest;
      PiecesAfterSlashes(slashes[1..], rest);
    }
  }

  /** The slashes in front, the first segment, and what follows it. */
  lemma SpelledParts(path: string, segments: seq<string>) returns (slashes: string, rest: string)
    requires segments != [] && Spells(path, segments)
    ensures path == slashes + (segments[0] + rest)
    ensures forall i :: 0 <= i < |slashes| ==> slashes[i] == '/'
    ensures (rest == "" || rest[0] == '/') && Spells(rest, segments[1..])
  {
    var a: nat :| SpellsFrom(path, segments, a);
    var b := a + |segments[0]|;
    slashes, rest := path[..a], path[b..];
    hide Spells, SpellsFrom;
    assert path[a..] == path[a..b] + rest;
  }

  lemma {:induction false} SpelledPieces(path: string, segments: seq<string>)
    requires ValidSegments(segments) && Spells(path, segments)
    ensures Pieces(path, "") == segments
    decreases |segments|
  {
    if segments == [] {
      assert path + "" == path;
      PiecesAfterSlashes(path, "");
    } else {
      hide Spells;
      var word := segments[0];
      var slashes, rest := SpelledParts(path, segments);
      SpelledPieces(rest, segments[1..]);
      assert word != "" && '/' !in word;
      hide ValidSegments;
      PiecesAfterSlashes(slashes, word + rest);
      PiecesOfWord(word, rest, "");
      assert "" + word == word && segments == [word] + segments[1..];
    }
  }

  /** Splitting gives exactly the segments the path spells. */
  lemma SplitExact(path: string, segments: seq<string>)
    ensures Segments(path) == segments <==> ValidSegments(segments) && Spells(path, segments)
  {
    PiecesValid(path, "");
    PiecesSpelled(path, "");
    assert "" + path == path;
    if ValidSegments(segments) && Spells(path, segments) {
      SpelledPieces(path, segments);
    }
  }

  /** A document without a folder path is filed at the root, one with a path under the folders its path spells. */
  ghost predicate FiledAt(d: Document, segments: seq<string>) {
    match d.folderPath
    case None => segments == []
    case Some(path) => ValidSegments(segments) && Spells(path, segments)
  }

  /** The tree holds each document as often as the rows do where it is filed, and nowhere else. */
  lemma {:induction false} DocumentIsFiled(docs: seq<Document>, d: Document, segments: seq<string>)
    ensures Placements(Build(docs, []), [])[Placed(segments, d)] == if FiledAt(d, segments) then multiset(docs)[d] else 0
  {
    TreePlacesEveryDocument(docs);
    SplitExact(PathOf(d), segments);
    assert d.folderPath.None? ==> (Spells("", segments) && ValidSegments(segments) <==> segments == []) by {
      SplitExact("", segments);
    }
    PlacedCount(docs, d, segments);
  }

  lemma {:induction false} PlacedCount(docs: seq<Document>, d: Document, segments: seq<string>)
    ensures AllPlaced(docs)[Placed(segments, d)] == if SegmentsOf(d) == segments then multiset(docs)[d] else 0
  {
    if docs != [] {
      PlacedCount(docs[..|docs| - 1], d, segments);
      assert docs == docs[..|docs| - 1] + [docs[|docs| - 1]];
    }
  }

  /** Slashes at the front, at the end, or doubled do not change where a document is filed; a folder's key leads to that folder. */
  lemma SlashesDoNotMatter(d: Document, a: string, b: string, segments: seq<string>)
    ensures FiledAt(d.(folderPath := Some("/" + a)), segments) <==> FiledAt(d.(folderPath := Some(a)), segments)
    ensures FiledAt(d.(folderPath := Some(a + "/")), segments) <==> FiledAt(d.(folderPath := Some(a)), segments)
    ensures FiledAt(d.(folderPath := Some(a + "//" + b)), segments) <==> FiledAt(d.(folderPath := Some(a + "/" + b)), segments)
    ensures FiledAt(d.(folderPath := Some("")), segments) <==> FiledAt(d.(folderPath := None), segments)
    ensures ValidSegments(segments) ==> FiledAt(d.(folderPath := Some(JoinPath(segments))), segments)
  {
    PiecesJoin("", a, "");
    PiecesJoin(a, "", "");
    PiecesJoin(a, "/" + b, "");
    PiecesJoin("", b, "");
    PiecesJoin(a, b, "");
    assert "" + "/" + a == "/" + a && a + "/" + "" == a + "/" && "" + "/" + b == "/" + b;
    assert a + "/" + ("/" + b) == a + "//" + b;
    SplitExact("/" + a, segments);
    SplitExact(a, segments);
    SplitExact(a + "/", segments);
    SplitExact(a + "//" + b, segments);
    SplitExact(a + "/" + b, segments);
    SplitExact("", segments);
    if ValidSegments(segments) {
      SegmentsOfJoin(segments);
      SplitExact(JoinPath(segments), segments);
    }
  }

  /** Slashes only separate: one of those before a first segment can be dropped. */
  lemma DropSlash(rest: string, segments: seq<string>)
    requires segments != [] && ValidSegments(segments) && Spells(rest, segments) && (rest != "" ==> rest[0] == '/')
    ensures rest != "" && Spells(rest[1..], segments)
  {
    var c: nat :| SpellsFrom(rest, segments, c);
    var d := c + |segments[0]|;
    assert segments[0] != "" && rest[c] == rest[c..d][0] == segments[0][0];
    var less := rest[1..];
    assert forall i :: 0 <= i < c - 1 ==> less[i] == rest[i + 1];
    assert less[c - 1..d - 1] == rest[c..d];
    assert less[d - 1..] == rest[d..];
    assert d < |rest| ==> less[d - 1] == rest[d];
    assert SpellsFrom(less, segments, c - 1);
  }

  /** Of all paths that spell the same segments the folder's key is the shortest. */
  lemma {:induction false} KeyIsShortest(path: string, segments: seq<string>)
    requires ValidSegments(segments) && Spells(path, segments)
    ensures path == JoinPath(segments) || |path| > |JoinPath(segments)|
    decreases |segments|
  {
    if segments != [] {
      hide Spells;
      var slashes, rest := SpelledParts(path, segments);
      if |segments| > 1 {
        DropSlash(rest, segments[1..]);
        KeyIsShortest(rest[1..], segments[1..]);
        JoinFirst(segments);
        assert rest == "/" + rest[1..];
      } else {
        assert JoinPath(segments) == segments[0];
      }
    }
  }

  lemma {:induction false} JoinFirst(segments: seq<string>)
    requires |segments| > 1
    ensures JoinPath(segments) == segments[0] + "/" + JoinPath(segments[1..])
  {
    var init, last := segments[..|segments| - 1], segments[|segments| - 1];
    if |segments| > 2 {
      JoinFirst(init);
      assert init[1..] == segments[1..][..|segments| - 2];
      assert segments[0] + "/" + JoinPath(init[1..]) + "/" + last == segments[0] + "/" + (JoinPath(init[1..]) + "/" + last);
    } else {
      assert init == [segments[0]] && segments[1..] == [last];
    }
  }

  /** No folder is empty, siblings have different names, and every folder carries its own key. */
  ghost predicate Tidy(trees: seq<Tree>, prefix: seq<string>) {
    && (forall i :: 0 <= i < |trees| && trees[i].Folder? ==>
          trees[i].children != [] && trees[i].path == JoinPath(prefix + [trees[i].name]))
    && (forall i, j :: 0 <= i < j < |trees| && trees[i].Folder? && trees[j].Folder? ==> trees[i].name != trees[j].name)
    && (forall i :: 0 <= i < |trees| ==> trees[i].Folder? ==> Tidy(trees[i].children, prefix + [trees[i].name]))
  }

  function TreeFor(docs: seq<Document>, prefix: seq<string>, e: Entry): Tree {
    match e
    case Leaf(d) => File(d)
    case Sub(name) => Folder(name, JoinPath(prefix + [name]), Build(docs, prefix + [name]))
  }

  /** What each entry of a listing turns into. */
  lemma {:induction false} EntryTrees(docs: seq<Document>, prefix: seq<string>, entries: seq<Entry>)
    requires forall e :: e in entries ==> e in Listing(docs, prefix)
    ensures var trees := BuildEntries(docs, prefix, entries);
            forall i :: 0 <= i < |entries| ==>
              trees[i] == TreeFor(docs, prefix, entries[i])
    decreases |entries|
  {
    hide Build, JoinPath, Listing;
    if entries != [] {
      var init := entries[..|entries| - 1];
      assert entries[|init|] in entries;
      assert forall e :: e in init ==> e in entries;
      EntryTrees(docs, prefix, init);
    }
  }

  lemma {:induction false} FoldersNotEmpty(docs: seq<Document>, prefix: seq<string>)
    requires prefix == [] || IsFolder(docs, prefix)
    requires prefix != [] || docs != []
    ensures Listing(docs, prefix) != []
  {
    if docs != [] {
      var init, d := docs[..|docs| - 1], docs[|docs| - 1];
      FolderGrows(init, d, prefix);
      assert init + [d] == docs;
      if prefix != [] && !(prefix <= SegmentsOf(d)) {
        FoldersNotEmpty(init, prefix);
      }
    }
  }

  lemma {:induction false} TreeIsTidy(docs: seq<Document>, prefix: seq<string>)
    ensures Tidy(Build(docs, prefix), prefix)
    decreases if |prefix| <= Depth(docs) then Depth(docs) - |prefix| else 0
  {
    var entries, trees := Listing(docs, prefix), Build(docs, prefix);
    EntryTrees(docs, prefix, entries);
    ListingSubsDistinct(docs, prefix);
    forall i | 0 <= i < |trees| && trees[i].Folder?
      ensures trees[i].children != [] && Tidy(trees[i].children, prefix + [trees[i].name])
    {
      assert entries[i] in entries;
      ListedSub(docs, prefix, entries[i].name);
      TreeIsTidy(docs, prefix + [entries[i].name]);
      FoldersNotEmpty(docs, prefix + [entries[i].name]);
    }
  }
}
