/**
  Saving and loading a document's markdown: it is cut before every heading line, the pieces are stripped
  and stored as blocks, and loading joins the blocks with a blank line.
*/
module Markdown {
  import opened Basics

  /** str.isspace, which both str.strip and the regular expressions' \s go by. */
  predicate IsSpace(c: char) {
    || '\t' <= c <= '\r' || '\U{1c}' <= c <= ' ' || c == '\U{85}' || c == '\U{a0}' || c == '\U{1680}'
    || '\U{2000}' <= c <= '\U{200a}' || c == '\U{2028}' || c == '\U{2029}' || c == '\U{202f}'
    || c == '\U{205f}' || c == '\U{3000}'
  }

  // ---------------------------------------------------------------------------------
  // Cutting
  // ---------------------------------------------------------------------------------

  /** Length of the run of '#' at the start. */
  function Hashes(s: string): (n: nat)
    ensures n <= |s|
    ensures forall i :: 0 <= i < n ==> s[i] == '#'
    ensures n < |s| ==> s[n] != '#'
  {
    if s != "" && s[0] == '#' then 1 + Hashes(s[1..]) else 0
  }

  /** The text starts with #{1,6}\s. */
  predicate Heading(s: string) {
    1 <= Hashes(s) <= 6 && Hashes(s) < |s| && IsSpace(s[Hashes(s)])
  }

  /** The pattern read as a regular expression: some number of '#' from 1 to 6, then a space character. */
  lemma HeadingIsPattern(s: string)
    ensures Heading(s) <==>
              exists k :: 1 <= k <= 6 && k < |s| && IsSpace(s[k]) && forall i :: 0 <= i < k ==> s[i] == '#'
  {
    if k :| 1 <= k <= 6 && k < |s| && IsSpace(s[k]) && forall i :: 0 <= i < k ==> s[i] == '#' {
      assert k == Hashes(s);
    }
  }

  /** \n(?=#{1,6}\s) matches here. */
  predicate CutHere(s: string) {
    s != "" && s[0] == '\n' && Heading(s[1..])
  }

  /** re.split: the newlines before headings are removed, everything else is kept. */
  function Sections(s: string): (r: seq<string>)
    ensures |r| > 0
  {
    if s == "" then [""]
    else if CutHere(s) then [""] + Sections(s[1..])
    else
      var rest := Sections(s[1..]);
      [[s[0]] + rest[0]] + rest[1..]
  }

  function StripLeft(s: string): string {
    if s != "" && IsSpace(s[0]) then StripLeft(s[1..]) else s
  }

  function StripRight(s: string): string {
    if s != "" && IsSpace(s[|s| - 1]) then StripRight(s[..|s| - 1]) else s
  }

  function Strip(s: string): string { StripRight(StripLeft(s)) }

  function StripAll(sections: seq<string>): seq<string> {
    if sections == [] then []
    else (if Strip(sections[0]) == "" then [] else [Strip(sections[0])]) + StripAll(sections[1..])
  }

  /** The contents of the blocks a text is saved as. */
  function Parse(markdown: string): seq<string> { StripAll(Sections(markdown)) }

  /** "\n\n".join */
  function Join(blocks: seq<string>): string {
    if blocks == [] then ""
    else if |blocks| == 1 then blocks[0]
    else blocks[0] + "\n\n" + Join(blocks[1..])
  }

  // ---------------------------------------------------------------------------------
  // Nothing but white space is lost
  // ---------------------------------------------------------------------------------

  function NonSpace(s: string): string {
    if s == "" then "" else (if IsSpace(s[0]) then "" else [s[0]]) + NonSpace(s[1..])
  }

  lemma {:induction false} NonSpaceJoin(a: string, b: string)
    ensures NonSpace(a + b) == NonSpace(a) + NonSpace(b)
  {
    if a == "" {
      assert a + b == b;
    } else {
      assert (a + b)[1..] == a[1..] + b;
      NonSpaceJoin(a[1..], b);
    }
  }

  lemma {:induction false} NonSpaceLeft(s: string)
    ensures NonSpace(StripLeft(s)) == NonSpace(s)
  {
    if s != "" && IsSpace(s[0]) {
      NonSpaceLeft(s[1..]);
    }
  }

  lemma {:induction false} NonSpaceRight(s: string)
    ensures NonSpace(StripRight(s)) == NonSpace(s)
  {
    hide IsSpace;
    if s != "" && IsSpace(s[|s| - 1]) {
      var init, last := s[..|s| - 1], s[|s| - 1];
      NonSpaceRight(init);
      assert s == init + [last];
      NonSpaceJoin(init, [last]);
      assert [last][1..] == [] && NonSpace([last]) == [];
    }
  }

  function NonSpaceAll(pieces: seq<string>): string {
    if pieces == [] then "" else NonSpace(pieces[0]) + NonSpaceAll(pieces[1..])
  }

  lemma {:induction false} SectionsKeep(s: string)
    ensures NonSpaceAll(Sections(s)) == NonSpace(s)
  {
    hide Heading;
    if s != "" {
      SectionsKeep(s[1..]);
      var rest := Sections(s[1..]);
      if !CutHere(s) {
        NonSpaceJoin([s[0]], rest[0]);
        assert [s[0]][1..] == "";
      }
    }
  }

  lemma {:induction false} StripAllKeeps(sections: seq<string>)
    ensures NonSpaceAll(StripAll(sections)) == NonSpaceAll(sections)
  {
    if sections != [] {
      StripAllKeeps(sections[1..]);
      NonSpaceLeft(sections[0]);
      NonSpaceRight(StripLeft(sections[0]));
      var c, rest := Strip(sections[0]), StripAll(sections[1..]);
      assert ([c] + rest)[1..] == rest;
      assert [] + rest == rest;
    }
  }

  lemma {:induction false} JoinKeeps(blocks: seq<string>)
    ensures NonSpace(Join(blocks)) == NonSpaceAll(blocks)
  {
    if |blocks| > 1 {
      JoinKeeps(blocks[1..]);
      NonSpaceJoin(blocks[0] + "\n\n", Join(blocks[1..]));
      NonSpaceJoin(blocks[0], "\n\n");
      assert NonSpace("\n\n") == "";
    }
  }

  /** What a document loads back as has the same characters, white space aside, in the same order. */
  lemma SaveLoadKeepsText(markdown: string)
    ensures NonSpace(Join(Parse(markdown))) == NonSpace(markdown)
  {
    SectionsKeep(markdown);
    StripAllKeeps(Sections(markdown));
    JoinKeeps(Parse(markdown));
  }

  /** The white space of Unicode, by code point. */
  predicate IsSpaceCode(n: int) {
    n in {0x9, 0xa, 0xb, 0xc, 0xd, 0x1c, 0x1d, 0x1e, 0x1f, 0x20, 0x85, 0xa0, 0x1680,
          0x2000, 0x2001, 0x2002, 0x2003, 0x2004, 0x2005, 0x2006, 0x2007, 0x2008, 0x2009, 0x200a,
          0x2028, 0x2029, 0x202f, 0x205f, 0x3000}
  }

  /** A text is saved as no block at all exactly if it consists of white space. */
  lemma NoBlocksExactly(markdown: string)
    ensures Parse(markdown) == [] <==> forall i :: 0 <= i < |markdown| ==> IsSpaceCode(markdown[i] as int)
  {
    SectionsKeep(markdown);
    StripAllKeeps(Sections(markdown));
    SpacesOnly(markdown);
    StrippedNotSpaces(Sections(markdown));
  }

  lemma {:induction false} SpacesOnly(s: string)
    ensures NonSpace(s) == "" <==> forall i :: 0 <= i < |s| ==> IsSpaceCode(s[i] as int)
  {
    if s != "" {
      SpacesOnly(s[1..]);
      assert forall i :: 0 <= i < |s| ==> s[i] == (if i == 0 then s[0] else s[1..][i - 1]);
      assert IsSpace(s[0]) <==> IsSpaceCode(s[0] as int);
    }
  }

  lemma {:induction false} StrippedNotSpaces(sections: seq<string>)
    ensures NonSpaceAll(StripAll(sections)) == "" <==> StripAll(sections) == []
  {
    if sections != [] {
      StrippedNotSpaces(sections[1..]);
      var c := Strip(sections[0]);
      StripLeftStarts(sections[0]);
      StripRightKeepsFirst(StripLeft(sections[0]));
      if c != "" {
        assert ([c] + StripAll(sections[1..]))[0] == c && NonSpace(c)[0] == c[0];
      } else {
        assert [] + StripAll(sections[1..]) == StripAll(sections[1..]);
      }
    }
  }

  lemma {:induction false} StripLeftStarts(s: string)
    ensures StripLeft(s) == "" || !IsSpace(StripLeft(s)[0])
  {
    if s != "" && IsSpace(s[0]) {
      StripLeftStarts(s[1..]);
    }
  }

  lemma {:induction false} StripRightKeepsFirst(s: string)
    ensures StripRight(s) == "" || StripRight(s)[0] == s[0]
  {
    if s != "" && IsSpace(s[|s| - 1]) {
      StripRightKeepsFirst(s[..|s| - 1]);
    }
  }

  // ---------------------------------------------------------------------------------
  // Cuts depend on what follows only through its first character
  // ---------------------------------------------------------------------------------

  predicate StartsWithSpace(s: string) { s != "" && IsSpace(s[0]) }

  /** No cut begins inside a when rest follows it. */
  predicate NoCut(a: string, rest: string) {
    a == "" || (!CutHere(a + rest) && NoCut(a[1..], rest))
  }

  lemma {:induction false} HashesWithin(y: string, rest: string)
    requires rest == "" || rest[0] != '#'
    ensures Hashes(y + rest) == Hashes(y)
  {
    if y != "" && y[0] == '#' {
      assert (y + rest)[1..] == y[1..] + rest;
      HashesWithin(y[1..], rest);
    } else if y == "" {
      assert y + rest == rest;
    }
  }

  /** A heading's decision, when white space or nothing follows y. */
  lemma HeadingBefore(y: string, rest: string)
    requires rest == "" || IsSpace(rest[0])
    ensures Heading(y + rest) <==> Heading(y) || (rest != "" && 1 <= Hashes(y) <= 6 && Hashes(y) == |y|)
  {
    HashesWithin(y, rest);
  }

  lemma {:induction false} NoCutSameSpace(a: string, r1: string, r2: string)
    requires NoCut(a, r1) && StartsWithSpace(r1) && (r2 == "" || StartsWithSpace(r2))
    ensures NoCut(a, r2)
  {
    if a != "" {
      NoCutSameSpace(a[1..], r1, r2);
      assert (a + r1)[1..] == a[1..] + r1 && (a + r2)[1..] == a[1..] + r2;
      HeadingBefore(a[1..], r1);
      HeadingBefore(a[1..], r2);
    }
  }

  lemma {:induction false} NoCutParts(a: string, b: string, rest: string)
    ensures NoCut(a + b, rest) <==> NoCut(a, b + rest) && NoCut(b, rest)
  {
    if a == "" {
      assert a + b == b;
    } else {
      assert (a + b)[1..] == a[1..] + b && a + b + rest == a + (b + rest);
      NoCutParts(a[1..], b, rest);
    }
  }

  lemma {:induction false} StripLeftParts(s: string) returns (spaces: string)
    ensures s == spaces + StripLeft(s)
    ensures StripLeft(s) == "" || !IsSpace(StripLeft(s)[0])
    ensures spaces == "" <==> s == "" || !IsSpace(s[0])
  {
    if s != "" && IsSpace(s[0]) {
      var more := StripLeftParts(s[1..]);
      spaces := [s[0]] + more;
    } else {
      spaces := "";
    }
  }

  lemma {:induction false} StripRightParts(s: string) returns (spaces: string)
    ensures s == StripRight(s) + spaces
    ensures StripRight(s) == "" || !IsSpace(StripRight(s)[|StripRight(s)| - 1])
    ensures spaces == "" || IsSpace(spaces[0])
  {
    if s != "" && IsSpace(s[|s| - 1]) {
      var more := StripRightParts(s[..|s| - 1]);
      spaces := more + [s[|s| - 1]];
    } else {
      spaces := "";
    }
  }

  /** A string without white space at its ends, and not empty. */
  predicate Trimmed(s: string) { s != "" && !IsSpace(s[0]) && !IsSpace(s[|s| - 1]) }

  lemma TrimmedIsFixed(s: string)
    requires Trimmed(s)
    ensures Strip(s) == s && Strip(s + "\n") == s
  {
    assert StripLeft(s + "\n") == s + "\n";
    assert (s + "\n")[..|s|] == s;
  }

  /** Stripping a section: what is left is trimmed, and has no cut before what follows. */
  lemma StripKeepsNoCut(s: string, rest: string)
    requires NoCut(s, rest) && (rest == "" || StartsWithSpace(rest))
    ensures var c := Strip(s);
            && (c == "" || Trimmed(c)) && NoCut(c, "")
            && (rest != "" ==> NoCut(c, "\n"))
  {
    var left := StripLeftParts(s);
    var mid := StripLeft(s);
    var right := StripRightParts(mid);
    var c := Strip(s);
    assert s == left + mid && mid == c + right;
    NoCutParts(left, mid, rest);
    NoCutParts(c, right, rest);
    if right + rest == "" {
      assert right + rest == "";
    } else {
      NoCutSameSpace(c, right + rest, "\n");
      NoCutSameSpace(c, right + rest, "");
    }
    if c != "" {
      assert mid[0] == c[0];
    }
  }

  /** Stripping a section that starts with a heading leaves a heading, if a line end is put back. */
  lemma StripKeepsHeading(s: string, rest: string)
    requires Heading(s + rest) && (rest == "" || StartsWithSpace(rest))
    ensures Strip(s) != "" && Heading(Strip(s) + "\n")
  {
    HeadingBefore(s, rest);
    assert s[0] == '#';
    var right := StripRightParts(s);
    var c := Strip(s);
    assert StripLeft(s) == s && s == c + right;
    HashesWithin(c, right);
    HeadingBefore(c, "\n");
    if c != "" {
      HeadingBefore(c, right);
    }
  }

  // ---------------------------------------------------------------------------------
  // What the sections, and hence the blocks, of any text look like
  // ---------------------------------------------------------------------------------

  /** Sections without cuts inside; all but the first start with a heading. */
  ghost predicate SectionsOk(sections: seq<string>) {
    && (forall i :: 0 <= i < |sections| - 1 ==> NoCut(sections[i], "\n"))
    && (|sections| > 0 ==> NoCut(sections[|sections| - 1], ""))
    && (forall i :: 1 <= i < |sections| - 1 ==> Heading(sections[i] + "\n"))
    && (|sections| > 1 ==> Heading(sections[|sections| - 1]))
  }

  /** The text from the first section on: the sections with the removed newlines put back. */
  function Rejoin(sections: seq<string>): string
    requires |sections| > 0
  {
    if |sections| == 1 then sections[0] else sections[0] + "\n" + Rejoin(sections[1..])
  }

  lemma {:induction false} SectionsRejoin(s: string)
    ensures Rejoin(Sections(s)) == s
  {
    if s != "" {
      SectionsRejoin(s[1..]);
      var rest := Sections(s[1..]);
      if CutHere(s) {
        assert Sections(s)[1..] == rest;
      } else {
        var first := [s[0]] + rest[0];
        assert Sections(s) == [first] + rest[1..];
        assert Sections(s)[1..] == rest[1..];
        if |rest| == 1 {
          assert [s[0]] + s[1..] == s;
        } else {
          assert first + "\n" + Rejoin(rest[1..]) == [s[0]] + (rest[0] + "\n" + Rejoin(rest[1..]));
        }
      }
    }
  }

  /** What follows the first section in the text. */
  function Tail(sections: seq<string>): string
    requires |sections| > 0
  {
    if |sections| == 1 then "" else "\n" + Rejoin(sections[1..])
  }

  lemma {:induction false} FirstSection(s: string)
    ensures var r := Sections(s);
            NoCut(r[0], Tail(r)) && (|r| > 1 ==> Heading(Rejoin(r[1..])))
  {
    hide Heading, Rejoin;
    if s != "" {
      FirstSection(s[1..]);
      TailJoins(s);
      TailJoins(s[1..]);
      SectionsRejoin(s);
      SectionsRejoin(s[1..]);
      var r, rest := Sections(s), Sections(s[1..]);
      if CutHere(s) {
        assert r[1..] == rest;
      } else {
        assert r[1..] == rest[1..];
        assert r[0][1..] == rest[0];
        assert r[0] + Tail(r) == s;
      }
    }
  }

  lemma TailJoins(s: string)
    ensures Sections(s)[0] + Tail(Sections(s)) == s
  {
    SectionsRejoin(s);
    hide Sections;
    var r := Sections(s);
    if |r| == 1 {
      assert r[0] + "" == r[0];
    } else {
      assert r[0] + "\n" + Rejoin(r[1..]) == r[0] + ("\n" + Rejoin(r[1..]));
    }
  }

  /** Cutting off the first section leaves a text whose sections are the others. */
  lemma {:induction false} OtherSections(s: string)
    requires |Sections(s)| > 1
    ensures Sections(Rejoin(Sections(s)[1..])) == Sections(s)[1..]
  {
    if CutHere(s) {
      SectionsRejoin(s[1..]);
      assert Sections(s)[1..] == Sections(s[1..]);
    } else {
      OtherSections(s[1..]);
      assert Sections(s)[1..] == Sections(s[1..])[1..];
    }
  }

  lemma {:induction false} AllSectionsOk(s: string)
    ensures SectionsOk(Sections(s))
    decreases |Sections(s)|
  {
    hide Sections, Heading, NoCut;
    var r := Sections(s);
    FirstSection(s);
    if |r| > 1 {
      var t := Rejoin(r[1..]);
      OtherSections(s);
      AllSectionsOk(t);
      NoCutSameSpace(r[0], Tail(r), "\n");
      if |r| > 2 {
        var more := "\n" + Rejoin(r[2..]);
        assert r[1..][1..] == r[2..];
        assert t == r[1] + more;
        HeadingBefore(r[1], more);
        HeadingBefore(r[1], "\n");
      }
      forall i | 1 <= i < |r| - 1 ensures NoCut(r[i], "\n") {
        assert r[i] == r[1..][i - 1];
      }
      forall i | 2 <= i < |r| - 1 ensures Heading(r[i] + "\n") {
        assert r[i] == r[1..][i - 1];
      }
      assert r[|r| - 1] == r[1..][|r| - 2];
    }
  }

  /** A lone run of one to six '#': a heading line that lost its text. */
  predicate Bare(b: string) { 1 <= |b| <= 6 && Hashes(b) == |b| }

  ghost predicate BlocksOk(blocks: seq<string>) {
    && (forall i :: 0 <= i < |blocks| ==> Trimmed(blocks[i]))
    && (forall i :: 0 <= i < |blocks| - 1 ==> NoCut(blocks[i], "\n"))
    && (|blocks| > 0 ==> NoCut(blocks[|blocks| - 1], ""))
    && (forall i :: 1 <= i < |blocks| ==> Heading(blocks[i] + "\n"))
  }

  lemma {:induction false} StripHeadingSections(sections: seq<string>)
    requires sections != [] && SectionsOk(sections)
    requires Heading(sections[0] + (if |sections| == 1 then "" else "\n"))
    ensures |StripAll(sections)| == |sections| && BlocksOk(StripAll(sections)) && Heading(StripAll(sections)[0] + "\n")
  {
    var rest := if |sections| == 1 then "" else "\n";
    StripKeepsNoCut(sections[0], rest);
    StripKeepsHeading(sections[0], rest);
    var c := Strip(sections[0]);
    if |sections| > 1 {
      HeadingNext(sections);
      StripHeadingSections(sections[1..]);
      BlocksCons(c, StripAll(sections[1..]));
    } else {
      assert StripAll(sections) == [c] + StripAll(sections[1..]) == [c];
    }
  }

  lemma HeadingNext(sections: seq<string>)
    requires |sections| > 1 && SectionsOk(sections)
    ensures SectionsOk(sections[1..])
    ensures Heading(sections[1] + (if |sections| == 2 then "" else "\n"))
  {
    var more := sections[1..];
    assert forall i :: 0 <= i < |more| ==> more[i] == sections[i + 1];
    assert sections[1] + "" == sections[1];
  }

  lemma BlocksCons(c: string, blocks: seq<string>)
    requires Trimmed(c) && NoCut(c, "\n") && BlocksOk(blocks)
    requires blocks != [] && Heading(blocks[0] + "\n")
    ensures BlocksOk([c] + blocks)
  {
    hide NoCut, Heading, Trimmed;
  }

  lemma ParseIsOk(s: string)
    ensures BlocksOk(Parse(s))
  {
    hide Sections, StripAll, Strip, NoCut, Heading, Trimmed, SectionsOk, BlocksOk;
    AllSectionsOk(s);
    var r := Sections(s);
    FirstSectionOk(r);
    assert r == [r[0]] + r[1..];
    StripAllCons(r[0], r[1..]);
    if |r| > 1 {
      HeadingNext(r);
      StripHeadingSections(r[1..]);
      if Strip(r[0]) == "" {
        assert [] + StripAll(r[1..]) == StripAll(r[1..]);
      } else {
        BlocksCons(Strip(r[0]), StripAll(r[1..]));
      }
    } else {
      StripNothing();
      OneBlockOk(Strip(r[0]));
    }
  }

  /** The first section, stripped: nothing, or a block with no cut before what follows. */
  lemma FirstSectionOk(r: seq<string>)
    requires r != [] && SectionsOk(r)
    ensures Strip(r[0]) != "" ==> Trimmed(Strip(r[0])) && NoCut(Strip(r[0]), if |r| == 1 then "" else "\n")
  {
    hide NoCut, Strip, Heading;
    StripKeepsNoCut(r[0], if |r| == 1 then "" else "\n");
  }

  lemma OneBlockOk(c: string)
    requires c != "" ==> Trimmed(c) && NoCut(c, "")
    ensures BlocksOk((if c == "" then [] else [c]) + [])
  {
  }

  // ---------------------------------------------------------------------------------
  // Parsing what was joined
  // ---------------------------------------------------------------------------------

  lemma {:induction false} CutAfter(a: string, rest: string)
    requires NoCut(a, "\n" + rest) && Heading(rest)
    ensures Sections(a + "\n" + rest) == [a] + Sections(rest)
  {
    var s := a + "\n" + rest;
    if a == "" {
      assert s[1..] == rest;
    } else {
      assert s == a + ("\n" + rest);
      assert s[1..] == a[1..] + "\n" + rest;
      CutAfter(a[1..], rest);
      assert [s[0]] + a[1..] == a;
    }
  }

  lemma {:induction false} NoCutNoSections(a: string)
    requires NoCut(a, "")
    ensures Sections(a) == [a]
  {
    if a != "" {
      assert a + "" == a;
      NoCutNoSections(a[1..]);
      assert [a[0]] + a[1..] == a;
    }
  }

  lemma {:induction false} HashesBare(b: string)
    requires Heading(b + "\n")
    ensures Bare(b) <==> !Heading(b)
  {
    HeadingBefore(b, "\n");
  }

  /** The text from a heading block on starts with a heading, unless it is a single bare one. */
  lemma JoinStartsWithHeading(blocks: seq<string>)
    requires blocks != [] && Heading(blocks[0] + "\n") && (|blocks| == 1 ==> !Bare(blocks[0]))
    ensures Heading(Join(blocks))
  {
    hide Heading, Hashes, Bare;
    if |blocks| == 1 {
      HashesBare(blocks[0]);
    } else {
      var more := "\n\n" + Join(blocks[1..]);
      assert Join(blocks) == blocks[0] + more;
      HeadingBefore(blocks[0], "\n");
      HeadingBefore(blocks[0], more);
    }
  }

  lemma BlankLineNoCut(a: string, rest: string)
    requires NoCut(a, "\n")
    ensures NoCut(a + "\n", "\n" + rest)
  {
    var r := "\n" + rest;
    NoCutParts(a, "\n", r);
    NoCutSameSpace(a, "\n", "\n" + r);
    assert ("\n" + r)[1..] == r && r[0] == '\n';
    assert NoCut("\n", r) by {
      assert "\n"[1..] == "";
    }
  }

  /** The blocks come back unless the last of several is bare. */
  lemma {:induction false} JoinParses(blocks: seq<string>)
    requires BlocksOk(blocks)
    requires |blocks| > 1 ==> !Bare(blocks[|blocks| - 1])
    ensures Parse(Join(blocks)) == blocks
  {
    if blocks == [] {
      assert StripAll([""]) == [];
    } else if |blocks| == 1 {
      NoCutNoSections(blocks[0]);
      TrimmedIsFixed(blocks[0]);
      assert StripAll([blocks[0]]) == [blocks[0]] + StripAll([]);
    } else {
      var more := blocks[1..];
      BlocksTail(blocks);
      JoinParses(more);
      JoinStartsWithHeading(more);
      FirstBlockParses(blocks[0], Join(more));
      assert blocks == [blocks[0]] + more;
    }
  }

  /** A block, a blank line and a text that starts with a heading parse as that block and the text's blocks. */
  lemma FirstBlockParses(block: string, rest: string)
    requires Trimmed(block) && NoCut(block, "\n") && Heading(rest)
    ensures Parse(block + "\n\n" + rest) == [block] + Parse(rest)
  {
    hide StripAll, Sections, Strip, NoCut, Heading;
    BlankLineNoCut(block, rest);
    CutAfter(block + "\n", rest);
    assert block + "\n\n" + rest == block + "\n" + "\n" + rest;
    TrimmedIsFixed(block);
    StripFirst(block + "\n", Sections(rest));
  }

  lemma StripFirst(section: string, sections: seq<string>)
    requires Strip(section) != ""
    ensures StripAll([section] + sections) == [Strip(section)] + StripAll(sections)
  {
    hide Strip;
    assert ([section] + sections)[1..] == sections;
  }

  lemma BlocksTail(blocks: seq<string>)
    requires |blocks| > 1 && BlocksOk(blocks)
    ensures BlocksOk(blocks[1..]) && Heading(blocks[1] + "\n")
  {
    var more := blocks[1..];
    assert forall i :: 0 <= i < |more| ==> more[i] == blocks[i + 1];
  }

  /** The list a bare last block turns into: it is glued to its predecessor. */
  function Glued(blocks: seq<string>): seq<string>
    requires |blocks| > 1
  {
    var n := |blocks|;
    blocks[..n - 2] + [blocks[n - 2] + "\n\n" + blocks[n - 1]]
  }

  lemma {:induction false} JoinGlued(blocks: seq<string>)
    requires |blocks| > 1
    ensures Join(Glued(blocks)) == Join(blocks)
  {
    if |blocks| > 2 {
      JoinGlued(blocks[1..]);
      assert Glued(blocks)[1..] == Glued(blocks[1..]);
    } else {
      assert Join(blocks[1..]) == blocks[1];
    }
  }

  lemma {:induction false} BareNoCut(b: string)
    requires Hashes(b) == |b|
    ensures NoCut(b, "")
  {
    if b != "" {
      BareNoCut(b[1..]);
    }
  }

  lemma GluedNoCut(a: string, b: string)
    requires NoCut(a, "\n") && Bare(b)
    ensures NoCut(a + "\n\n" + b, "")
  {
    BlankLineNoCut(a, b);
    BareNoCut(b);
    HeadingBefore(b, "");
    assert b + "" == b;
    assert a + "\n\n" + b == (a + "\n") + ("\n" + b);
    assert ("\n" + b)[1..] == b;
    NoCutParts(a + "\n", "\n" + b, "");
    assert ("\n" + b) + "" == "\n" + b;
  }

  lemma GluedIsOk(blocks: seq<string>)
    requires |blocks| > 1 && BlocksOk(blocks) && Bare(blocks[|blocks| - 1])
    ensures BlocksOk(Glued(blocks))
    ensures |Glued(blocks)| > 1 ==> !Bare(Glued(blocks)[|Glued(blocks)| - 1])
  {
    var n := |blocks|;
    var a, b := blocks[n - 2], blocks[n - 1];
    var glued := a + "\n\n" + b;
    GluedNoCut(a, b);
    var g := Glued(blocks);
    assert forall i :: 0 <= i < n - 2 ==> g[i] == blocks[i];
    assert glued[0] == a[0] && glued[|glued| - 1] == b[|b| - 1];
    assert glued[|a|] == '\n';
    assert Hashes(glued) < |glued|;
    if n > 2 {
      HeadingBefore(a, "\n");
      HeadingBefore(a, "\n\n" + b + "\n");
      assert glued + "\n" == a + ("\n\n" + b + "\n");
    }
  }

  /**
    Saving what was loaded gives the same blocks exactly if there is at most one block or the last one is
    not a bare run of one to six '#'.  Otherwise the bare block is glued to the one before it.
    */
  lemma ResaveExact(markdown: string)
    ensures var blocks := Parse(markdown);
            Parse(Join(blocks)) == if |blocks| > 1 && Bare(blocks[|blocks| - 1]) then Glued(blocks) else blocks
    ensures var blocks := Parse(markdown);
            Parse(Join(blocks)) == blocks <==> |blocks| <= 1 || !Bare(blocks[|blocks| - 1])
  {
    var blocks := Parse(markdown);
    ParseIsOk(markdown);
    if |blocks| > 1 && Bare(blocks[|blocks| - 1]) {
      GluedIsOk(blocks);
      JoinGlued(blocks);
      JoinParses(Glued(blocks));
      assert |Glued(blocks)| == |blocks| - 1;
    } else {
      JoinParses(blocks);
    }
  }

  /** From the second save on nothing changes any more. */
  lemma SecondSaveIsStable(markdown: string)
    ensures var loaded := Join(Parse(markdown));
            Parse(Join(Parse(loaded))) == Parse(loaded)
  {
    var blocks := Parse(markdown);
    ResaveExact(markdown);
    if |blocks| > 1 && Bare(blocks[|blocks| - 1]) {
      JoinGlued(blocks);
    }
  }

  lemma {:induction false} NoNewlineNoCut(a: string, rest: string)
    requires '\n' !in a
    ensures NoCut(a, rest)
  {
    if a != "" {
      NoNewlineNoCut(a[1..], rest);
    }
  }

  lemma BareExampleSections()
    ensures Sections("# A\n## ") == ["# A", "## "]
  {
    hide IsSpace, Sections;
    assert Hashes("## ") == 2 by {
      assert "## "[1..] == "# " && "# "[1..] == " ";
    }
    assert Heading("## ") by { SpaceIsSpace(); }
    NoNewlineNoCut("# A", "\n" + "## ");
    NoNewlineNoCut("## ", "");
    assert "# A\n## " == "# A" + "\n" + "## ";
    CutAfter("# A", "## ");
    NoCutNoSections("## ");
  }

  lemma SpaceIsSpace()
    ensures IsSpace(' ') && !IsSpace('#') && !IsSpace('A')
  {
  }

  lemma BareExampleStrips()
    ensures StripAll(["# A", "## "]) == ["# A", "##"]
  {
    hide IsSpace, StripRight;
    SpaceIsSpace();
    TrimmedIsFixed("# A");
    assert Strip("## ") == "##" by {
      assert StripLeft("## ") == "## " && StripLeft("##") == "##";
      var right := StripRightParts("## ");
      TrimmedIsFixed("##");
      StripRightLast("##", ' ');
      assert "##" + [' '] == "## ";
    }
    assert ["# A", "## "][1..] == ["## "] && ["## "][1..] == [];
  }

  lemma StripRightLast(s: string, c: char)
    requires IsSpace(c)
    ensures StripRight(s + [c]) == StripRight(s)
  {
    assert (s + [c])[..|s|] == s;
  }

  /** Such a text: its empty second heading does not survive being loaded and saved. */
  lemma BareHeadingIsGlued()
    ensures Parse("# A\n## ") == ["# A", "##"]
    ensures Parse(Join(Parse("# A\n## "))) == ["# A\n\n##"]
  {
    hide Sections, StripAll, Join;
    BareExampleSections();
    BareExampleStrips();
    assert Hashes("##") == 2 by {
      assert "##"[1..] == "#" && "#"[1..] == "";
    }
    ResaveExact("# A\n## ");
    assert "# A" + "\n\n" + "##" == "# A\n\n##";
  }

  // ---------------------------------------------------------------------------------
  // The code
  // ---------------------------------------------------------------------------------

  datatype Block = Block(order: nat, kind: string, content: string)

  function FirstLine(s: string): string {
    if s == "" || s[0] == '\n' then "" else [s[0]] + FirstLine(s[1..])
  }

  predicate StartsWith(s: string, prefix: string) { prefix <= s }

  function Kind(section: string): string {
    var line := FirstLine(section);
    if Heading(line) then "title"
    else if StartsWith(line, "```") then "code"
    else if StartsWith(line, "|") && |line| > 2 && '|' in line[2..] then "table"
    else if StartsWith(line, "> ") then "quote"
    else if StartsWith(line, "- ") || StartsWith(line, "* ") then "list"
    else "paragraph"
  }

  /** The kind of a block goes by its first line. */
  lemma KindExact(section: string, line: string)
    requires '\n' !in line && (section == line || line + "\n" <= section)
    ensures Kind(section)
         == if exists k :: 1 <= k <= 6 && k < |line| && IsSpace(line[k]) && forall i :: 0 <= i < k ==> line[i] == '#' then "title"
            else if |line| >= 3 && line[0] == line[1] == line[2] == '`' then "code"
            else if line != "" && line[0] == '|' && exists i :: 2 <= i < |line| && line[i] == '|' then "table"
            else if |line| >= 2 && line[0] == '>' && line[1] == ' ' then "quote"
            else if |line| >= 2 && (line[0] == '-' || line[0] == '*') && line[1] == ' ' then "list"
            else "paragraph"
  {
    if section == line {
      assert line + section[|line|..] == section;
    } else {
      assert line + section[|line|..] == section;
    }
    FirstLineIs(line, section[|line|..]);
    HeadingIsPattern(line);
    if i :| 2 <= i < |line| && line[i] == '|' {
      assert line[2..][i - 2] == '|';
    }
  }

  lemma {:induction false} FirstLineIs(line: string, rest: string)
    requires '\n' !in line && (rest == "" || rest[0] == '\n')
    ensures FirstLine(line + rest) == line
  {
    if line == "" {
      assert line + rest == rest;
    } else {
      assert (line + rest)[1..] == line[1..] + rest;
      FirstLineIs(line[1..], rest);
    }
  }

  /** The blocks are the parsed contents, numbered from 1 in text order. */
  ghost predicate StoresAs(blocks: seq<Block>, contents: seq<string>) {
    && |blocks| == |contents|
    && forall i :: 0 <= i < |blocks| ==> blocks[i] == Block(i + 1, Kind(contents[i]), contents[i])
  }

  method ParseMarkdownToBlocks(markdown: string) returns (blocks: seq<Block>)
    ensures StoresAs(blocks, Parse(markdown))
  {
    var sections := Sections(markdown);
    blocks := [];
    var order := 0;
    var i := 0;
    while i < |sections|
      invariant 0 <= i <= |sections|
      invariant StoresAs(blocks, StripAll(sections[..i])) && order == |blocks|
    {
      StripAllNext(sections, i);
      var section := Strip(sections[i]);
      if section != "" {
        order := order + 1;
        blocks := blocks + [Block(order, Kind(section), section)];
      }
      i := i + 1;
    }
    assert sections[..i] == sections;
  }

  /** The block a section gives, if any. */
  function Stripped(section: string): seq<string> { if Strip(section) == "" then [] else [Strip(section)] }

  lemma StripAllCons(section: string, sections: seq<string>)
    ensures StripAll([section] + sections) == Stripped(section) + StripAll(sections)
  {
    hide Strip;
    assert ([section] + sections)[1..] == sections;
  }

  lemma {:induction false} StripAllJoin(a: seq<string>, b: seq<string>)
    ensures StripAll(a + b) == StripAll(a) + StripAll(b)
  {
    hide Stripped, StripAll;
    if a == [] {
      assert a + b == b;
      assert StripAll([]) == [] by { StripNothing(); }
    } else {
      StripAllJoin(a[1..], b);
      StripAllCons(a[0], a[1..]);
      StripAllCons(a[0], a[1..] + b);
      assert a == [a[0]] + a[1..] && a + b == [a[0]] + (a[1..] + b);
    }
  }

  lemma StripNothing()
    ensures StripAll([]) == []
  {
  }

  lemma StripAllNext(sections: seq<string>, i: nat)
    requires i < |sections|
    ensures StripAll(sections[..i + 1])
         == StripAll(sections[..i]) + (if Strip(sections[i]) == "" then [] else [Strip(sections[i])])
  {
    hide Strip, StripAll;
    assert sections[..i + 1] == sections[..i] + [sections[i]];
    StripAllJoin(sections[..i], [sections[i]]);
    StripAllCons(sections[i], []);
    StripNothing();
    assert [sections[i]] + [] == [sections[i]];
  }

  class KnowledgeDocument {
    var blocks: seq<Block>
    var currentVersion: nat

    constructor ()
      ensures blocks == [] && currentVersion == 1
    {
      blocks, currentVersion := [], 1;
    }

    /** Clear the blocks, insert the new ones, bump the version. */
    method UpdateDocumentContent(markdown: string) returns (newVersion: nat)
      modifies this
      ensures newVersion == currentVersion == old(currentVersion) + 1
      ensures StoresAs(blocks, Parse(markdown))
    {
      newVersion := currentVersion + 1;
      blocks := ParseMarkdownToBlocks(markdown);
      currentVersion := newVersion;
    }

    /** The blocks' contents, joined by blank lines. */
    method GetDocumentContent(ghost contents: seq<string>) returns (markdown: string)
      requires StoresAs(blocks, contents)
      ensures markdown == Join(contents)
    {
      markdown := "";
      var i := |blocks|;
      while i > 0
        invariant 0 <= i <= |blocks|
        invariant markdown == Join(contents[i..])
      {
        i := i - 1;
        assert contents[i..][1..] == contents[i + 1..];
        markdown := if i == |blocks| - 1 then blocks[i].content else blocks[i].content + "\n\n" + markdown;
      }
      assert contents[0..] == contents;
    }
  }
}
