/** The text that a template sync appends, told by the lines of the upstream text
    (`src/brain/rsi_sync.rs`, `src/brain/rsi_pruned.rs`). */
module SyncText {
  import opened Text
  import opened SectionText
  import opened Pruned
  import opened TopSections
  import opened Sync

  // ----- what is to be appended ---------------------------------------------------------

  /** A line that starts a section. */
  predicate IsHeading(line: string) {
    (|line| >= 3 && line[..3] == "## ") || (|line| >= 4 && line[..4] == "### ")
  }

  /** The next heading from line `j` on, or the end. */
  function NextHeading(lines: seq<string>, j: nat): (e: nat)
    requires j <= |lines|
    ensures j <= e <= |lines|
    ensures forall k :: j <= k < e ==> !IsHeading(lines[k])
    ensures e < |lines| ==> IsHeading(lines[e])
    decreases |lines| - j
  {
    if j == |lines| || IsHeading(lines[j]) then j else NextHeading(lines, j + 1)
  }

  /** The lines from line `i` up to the next heading. */
  function Section(lines: seq<string>, i: nat): (own: seq<string>)
    requires i < |lines|
    ensures own != [] && own[0] == lines[i] && own <= lines[i..]
    ensures forall k :: 1 <= k < |own| ==> !IsHeading(own[k])
    ensures i + |own| < |lines| ==> IsHeading(lines[i + |own|])
  {
    lines[i..NextHeading(lines, i + 1)]
  }

  /** Line `i` starts a section that the local file lacks. */
  predicate StartsNew(lines: seq<string>, i: nat, local: set<string>)
    requires i < |lines|
  {
    IsHeading(lines[i]) && lines[i] !in local
  }

  predicate AnyNew(lines: seq<string>, i: nat, local: set<string>) {
    exists k :: i <= k < |lines| && StartsNew(lines, k, local)
  }

  /** The lines as they are after the filter has read them, which it does if there
      is something to exclude. */
  function Seen(lines: seq<string>, excluded: set<string>): (r: seq<string>)
    ensures |r| == |lines|
  {
    if excluded == {} then lines else StripCRs(lines)
  }

  /** What the section at line `i` adds: a blank line and its own lines up to the
      next heading, and one more blank line if the filter has read the text and
      another new section came behind. */
  function Piece(lines: seq<string>, i: nat, local: set<string>, excluded: set<string>): seq<string>
    requires i < |lines|
  {
    if StartsNew(lines, i, local) && StripCR(lines[i]) !in excluded then
      [""] + Seen(Section(lines, i), excluded)
      + (if excluded != {} && AnyNew(lines, i + 1, local) then [""] else [])
    else []
  }

  /** All that is added from line `i` on. */
  function Appended(lines: seq<string>, i: nat, local: set<string>, excluded: set<string>): seq<string>
    requires i <= |lines|
    decreases |lines| - i
  {
    if i == |lines| then [] else Piece(lines, i, local, excluded) + Appended(lines, i + 1, local, excluded)
  }

  // ----- blocks -------------------------------------------------------------------------

  lemma HeadingIs(line: string)
    ensures IsHeading(line) <==> IsSectionHeader(line)
  {
  }

  lemma {:induction false} LeadingBodyIs(lines: seq<string>, j: nat)
    requires j <= |lines|
    ensures LeadingBody(lines[j..]) == lines[j..NextHeading(lines, j)]
    decreases |lines| - j
  {
    if j < |lines| {
      HeadingIs(lines[j]);
      assert lines[j..][1..] == lines[j + 1..];
      LeadingBodyIs(lines, j + 1);
      if !IsHeading(lines[j]) {
        var e := NextHeading(lines, j + 1);
        assert lines[j..e] == [lines[j]] + lines[j + 1..e];
      }
    }
  }

  /** The blocks from line `i` on begin with that of line `i`, if it is a heading. */
  lemma BlocksAt(lines: seq<string>, i: nat)
    requires i < |lines|
    ensures Blocks(lines[i..]) ==
            (if IsHeading(lines[i]) then [Block(lines[i], Section(lines, i))] else [])
            + Blocks(lines[i + 1..])
  {
    HeadingIs(lines[i]);
    CutStep(lines, i);
    LeadingBodyIs(lines, i + 1);
    var e := NextHeading(lines, i + 1);
    assert lines[i..e] == [lines[i]] + lines[i + 1..e];
  }

  /** The lines of blocks, a blank line before each. */
  function Spread(blocks: seq<Block>): seq<string> {
    if blocks == [] then [] else [""] + blocks[0].content + Spread(blocks[1..])
  }

  lemma {:induction false} SpreadIsGlue(blocks: seq<Block>)
    requires blocks != []
    ensures Spread(blocks) == [""] + Glue(blocks)
  {
    if |blocks| > 1 {
      SpreadIsGlue(blocks[1..]);
    } else {
      assert blocks[1..] == [];
    }
  }

  lemma RenderIsSpread(blocks: seq<Block>)
    requires GoodBlocks(blocks)
    ensures Render(blocks) == Unlines(Spread(blocks))
  {
    hide GoodBlocks, Texts, Lines, Glue;
    if blocks != [] {
      SpreadIsGlue(blocks);
      RenderIsUnlines(blocks);
      hide Render, Spread;
      assert ([""] + Glue(blocks))[1..] == Glue(blocks);
      assert "" + "\n" + Unlines(Glue(blocks)) == "\n" + Unlines(Glue(blocks));
    }
  }

  /** The blocks as the filter reads them from the extracted text: without one
      carriage return in each line, and with the blank line before the next one. */
  function Reread(blocks: seq<Block>): seq<Block> {
    if blocks == [] then []
    else
      [Block(StripCR(blocks[0].header),
             StripCRs(blocks[0].content) + (if |blocks| > 1 then [""] else []))] + Reread(blocks[1..])
  }

  lemma StripCRsConcat(a: seq<string>, b: seq<string>)
    ensures StripCRs(a + b) == StripCRs(a) + StripCRs(b)
  {
    hide StripCR;
  }

  lemma {:induction false} BodyThenBlocks(body: seq<string>, rest: seq<string>)
    requires HeadersOf(body) == []
    ensures LeadingBody(body + rest) == body + LeadingBody(rest)
    ensures Blocks(body + rest) == Blocks(rest)
  {
    hide IsSectionHeader;
    if body == [] {
      assert body + rest == rest;
    } else {
      assert (body + rest)[1..] == body[1..] + rest;
      BodyThenBlocks(body[1..], rest);
      assert body == [body[0]] + body[1..];
    }
  }

  lemma BlankLine(rest: seq<string>)
    ensures Blocks([""] + rest) == Blocks(rest) && LeadingBody([""] + rest) == [""] + LeadingBody(rest)
  {
    assert ([""] + rest)[1..] == rest;
  }

  lemma {:induction false} SpreadReread(blocks: seq<Block>)
    requires GoodBlocks(blocks)
    ensures Blocks(StripCRs(Spread(blocks))) == Reread(blocks)
    ensures blocks != [] ==> LeadingBody(StripCRs(Spread(blocks))) == [""]
  {
    hide StripCR, IsSectionHeader;
    if blocks == [] {
      assert StripCRs([]) == [];
    } else {
      var b, rest := blocks[0], blocks[1..];
      assert GoodBlock(b);
      SpreadReread(rest);
      SpreadOne(b, Spread(rest));
    }
  }

  lemma SpreadLines(b: Block, rest: seq<string>)
    requires b.content != [] && b.content[0] == b.header
    ensures StripCRs([""] + b.content + rest) ==
            [""] + ([StripCR(b.header)] + (StripCRs(b.content[1..]) + StripCRs(rest)))
    ensures StripCRs(b.content) == [StripCR(b.header)] + StripCRs(b.content[1..])
  {
    hide StripCR, StripCRs;
    StripCRsConcat([""], b.content + rest);
    StripCRsConcat(b.content, rest);
    SeqAssoc([""], b.content, rest);
    StripCRsCons(b.content);
    BlankStays();
    SeqAssoc([StripCR(b.header)], StripCRs(b.content[1..]), StripCRs(rest));
  }

  /** One block in front. */
  lemma SpreadOne(b: Block, rest: seq<string>)
    requires GoodBlock(b)
    ensures var h, body := StripCR(b.header), StripCRs(b.content);
            var all := StripCRs([""] + b.content + rest);
            && Blocks(all) == [Block(h, body + LeadingBody(StripCRs(rest)))] + Blocks(StripCRs(rest))
            && LeadingBody(all) == [""]
  {
    hide StripCR, StripCRs, IsSectionHeader;
    SpreadLines(b, rest);
    HeaderStripped(b.header);
    StrippedHeaderLines(b.content[1..]);
    BlankStays();
    var h, tail, after := StripCR(b.header), StripCRs(b.content[1..]), StripCRs(rest);
    NoHeadersStripped();
    BodyThenBlocks(tail, after);
    HeadThenBlocks(h, tail, after);
    BlankLine([h] + (tail + after));
  }

  lemma NoHeadersStripped()
    ensures StripCRs([]) == []
  {
  }

  lemma HeadThenBlocks(h: string, tail: seq<string>, after: seq<string>)
    requires IsSectionHeader(h)
    requires LeadingBody(tail + after) == tail + LeadingBody(after) && Blocks(tail + after) == Blocks(after)
    ensures var all := [h] + (tail + after);
            && Blocks(all) == [Block(h, ([h] + tail) + LeadingBody(after))] + Blocks(after)
            && LeadingBody(all) == []
  {
    hide IsSectionHeader;
    var all := [h] + (tail + after);
    assert all[1..] == tail + after;
    SeqAssoc([h], tail, LeadingBody(after));
  }

  lemma BlankStays()
    ensures StripCRs([""]) == [""]
  {
  }

  // ----- the appended lines -------------------------------------------------------------

  /** Without anything to exclude. */
  lemma {:induction false} PlainAppended(lines: seq<string>, i: nat, local: set<string>)
    requires i <= |lines|
    ensures Appended(lines, i, local, {}) == Spread(Without(Blocks(lines[i..]), local))
    decreases |lines| - i
  {
    hide StripCR, IsHeading;
    if i < |lines| {
      BlocksAt(lines, i);
      PlainAppended(lines, i + 1, local);
      WithoutFirst(lines, i, local);
    } else {
      assert lines[i..] == [];
    }
  }

  lemma WithoutFirst(lines: seq<string>, i: nat, local: set<string>)
    requires i < |lines|
    ensures Without(Blocks(lines[i..]), local) ==
            (if StartsNew(lines, i, local) then [Block(lines[i], Section(lines, i))] else [])
            + Without(Blocks(lines[i + 1..]), local)
  {
    hide IsHeading;
    BlocksAt(lines, i);
    var rest := Blocks(lines[i + 1..]);
    if IsHeading(lines[i]) {
      var b := Block(lines[i], Section(lines, i));
      assert ([b] + rest)[1..] == rest;
    }
  }

  lemma {:induction false} AnyNewIff(lines: seq<string>, i: nat, local: set<string>)
    requires i <= |lines|
    ensures AnyNew(lines, i, local) <==> Without(Blocks(lines[i..]), local) != []
    decreases |lines| - i
  {
    hide StartsNew;
    if i < |lines| {
      WithoutFirst(lines, i, local);
      AnyNewIff(lines, i + 1, local);
    } else {
      assert lines[i..] == [];
    }
  }

  /** With something to exclude: what the filter leaves of the blocks. */
  lemma {:induction false} FilteredAppended(lines: seq<string>, i: nat, local: set<string>, excluded: set<string>)
    requires i <= |lines| && excluded != {}
    ensures Appended(lines, i, local, excluded) ==
            Spread(Without(Reread(Without(Blocks(lines[i..]), local)), excluded))
    decreases |lines| - i
  {
    hide StripCR, StartsNew, Blocks;
    if i < |lines| {
      WithoutFirst(lines, i, local);
      FilteredAppended(lines, i + 1, local, excluded);
      AnyNewIff(lines, i + 1, local);
      if StartsNew(lines, i, local) {
        var b := Block(lines[i], Section(lines, i));
        var rest := Without(Blocks(lines[i + 1..]), local);
        RereadFirst(b, rest, excluded);
      } else {
        assert Piece(lines, i, local, excluded) == [];
        assert [] + Without(Blocks(lines[i + 1..]), local) == Without(Blocks(lines[i + 1..]), local);
      }
    } else {
      NoBlocks(lines);
    }
  }

  lemma NoBlocks(lines: seq<string>)
    ensures Blocks(lines[|lines|..]) == []
  {
  }

  lemma RereadFirst(b: Block, rest: seq<Block>, excluded: set<string>)
    ensures Spread(Without(Reread([b] + rest), excluded)) ==
            (if StripCR(b.header) in excluded then []
             else [""] + StripCRs(b.content) + (if rest != [] then [""] else []))
            + Spread(Without(Reread(rest), excluded))
  {
    hide StripCR, StripCRs;
    assert ([b] + rest)[1..] == rest;
    var c := Block(StripCR(b.header), StripCRs(b.content) + (if rest != [] then [""] else []));
    assert Reread([b] + rest) == [c] + Reread(rest);
    assert ([c] + Reread(rest))[1..] == Reread(rest);
    if c.header !in excluded {
      var more := Without(Reread(rest), excluded);
      assert ([c] + more)[1..] == more;
    }
  }

  /** The new sections, exactly, for any texts. */
  lemma NewSectionsAre(local: string, upstream: string, excluded: set<string>)
    ensures NewSections(local, upstream, excluded) ==
            Unlines(Appended(Lines(upstream), 0, HeaderSet(local), excluded))
  {
    var lines := Lines(upstream);
    LinesHaveNoNewlines(upstream);
    BlocksAreGood(lines);
    hide Lines, HeaderSet, Appended;
    var blocks := Without(Blocks(lines), HeaderSet(local));
    WithoutGood(Blocks(lines), HeaderSet(local));
    assert lines[0..] == lines;
    RenderIsSpread(blocks);
    if excluded == {} {
      PlainAppended(lines, 0, HeaderSet(local));
    } else {
      FilteredAppended(lines, 0, HeaderSet(local), excluded);
      ExtractedLines(blocks);
      var found := Reread(blocks);
      LinesHaveNoNewlines(Render(blocks));
      BlocksAreGood(Lines(Render(blocks)));
      WithoutGood(found, excluded);
      RenderIsSpread(Without(found, excluded));
    }
  }

  /** The filter alone, on any text: it leaves the sections whose heading is not
      excluded. */
  lemma FilterKeeps(text: string, excluded: set<string>)
    ensures FilterPrunedSections(text, excluded) ==
            if excluded == {} then text else Unlines(Appended(Lines(text), 0, excluded, {}))
  {
    var lines := Lines(text);
    LinesHaveNoNewlines(text);
    BlocksAreGood(lines);
    hide Lines, Appended;
    WithoutGood(Blocks(lines), excluded);
    assert lines[0..] == lines;
    PlainAppended(lines, 0, excluded);
    RenderIsSpread(Without(Blocks(lines), excluded));
  }

  /** What the filter finds in the extracted text. */
  lemma ExtractedLines(blocks: seq<Block>)
    requires GoodBlocks(blocks)
    ensures Blocks(Lines(Render(blocks))) == Reread(blocks)
  {
    SpreadReread(blocks);
    if blocks == [] {
      LinesEmptyIff("");
    } else {
      RenderIsUnlines(blocks);
      SpreadIsGlue(blocks);
      hide Lines, Render, Blocks, Spread, Glue, GoodBlocks;
      StripCRsConcat([""], Glue(blocks));
      BlankStays();
    }
  }

  // ----- what is written ----------------------------------------------------------------

  /** The headings of a text. */
  ghost function Headings(text: string): set<string> {
    set l | l in Lines(text) && IsHeading(l)
  }

  lemma {:induction false} HeadersAre(lines: seq<string>)
    ensures forall l :: l in HeadersOf(lines) <==> l in lines && IsHeading(l)
  {
    hide IsHeading, IsSectionHeader;
    if lines != [] {
      HeadersAre(lines[1..]);
      HeadingIs(lines[0]);
    }
  }

  lemma HeadingsAre(text: string)
    ensures Headings(text) == HeaderSet(text)
  {
    hide Lines, IsHeading, HeadersOf;
    HeadersAre(Lines(text));
  }

  /** The lines that a sync has to add. */
  ghost function ToAppend(local: string, upstream: string, excluded: set<string>): seq<string> {
    Appended(Lines(upstream), 0, Headings(local), excluded)
  }

  lemma {:induction false} AppendedClean(lines: seq<string>, i: nat, local: set<string>, excluded: set<string>)
    requires i <= |lines| && NoNewlines(lines)
    ensures var a := Appended(lines, i, local, excluded); NoNewlines(a) && (a != [] ==> a[0] == "")
    decreases |lines| - i
  {
    hide Piece;
    if i < |lines| {
      AppendedClean(lines, i + 1, local, excluded);
      PieceClean(lines, i, local, excluded);
      CleanConcat(Piece(lines, i, local, excluded), Appended(lines, i + 1, local, excluded));
    }
  }

  lemma CleanConcat(a: seq<string>, b: seq<string>)
    requires NoNewlines(a) && NoNewlines(b)
    ensures NoNewlines(a + b)
    ensures a != [] ==> (a + b)[0] == a[0]
    ensures a == [] ==> a + b == b
  {
  }

  lemma PieceClean(lines: seq<string>, i: nat, local: set<string>, excluded: set<string>)
    requires i < |lines| && NoNewlines(lines)
    ensures var p := Piece(lines, i, local, excluded); NoNewlines(p) && (p != [] ==> p[0] == "")
  {
    hide StartsNew, AnyNew;
    var own := Section(lines, i);
    forall l | l in Seen(own, excluded)
      ensures '\n' !in l
    {
      var k :| 0 <= k < |own| && Seen(own, excluded)[k] == l;
      assert own[k] in lines;
    }
  }

  /** What a sync writes, exactly, for any texts: the local text and behind it the
      lines to append; and what is read back. */
  lemma SyncWrites(local: string, upstream: string, excluded: set<string>, cap: nat)
    requires SyncOf(local, upstream, excluded, cap).Written?
    ensures var content, added := SyncOf(local, upstream, excluded, cap).content, ToAppend(local, upstream, excluded);
            && added != []
            && content == local + Unlines(added)
            && Lines(content) == Lines(local + "\n") + StripCRs(added)[1..]
  {
    hide Lines, NewSections, Appended, Trim, TopNewSections, CountSections, ExtractNewSections, HeaderSet, Headings;
    NewSectionsAre(local, upstream, excluded);
    HeadingsAre(local);
    TrimEmpty();
    LinesHaveNoNewlines(upstream);
    var added := ToAppend(local, upstream, excluded);
    AppendedClean(Lines(upstream), 0, Headings(local), excluded);
    AppendedIsRead(local, added);
  }

  lemma AppendedIsRead(local: string, added: seq<string>)
    requires NoNewlines(added) && added != [] && added[0] == ""
    ensures Lines(local + Unlines(added)) == Lines(local + "\n") + StripCRs(added)[1..]
  {
    hide Lines, StripCR;
    var rest := Unlines(added[1..]);
    assert local + Unlines(added) == local + "\n" + rest by {
      assert Unlines(added) == "" + "\n" + rest;
    }
    LinesAppendBlock(local, rest);
    LinesUnlines(added[1..]);
    StripCRsCons(added);
  }

  /** A section that is to arrive. */
  predicate Arrives(lines: seq<string>, i: nat, local: set<string>, excluded: set<string>)
    requires i < |lines|
  {
    StartsNew(lines, i, local) && StripCR(lines[i]) !in excluded
  }

  /** Its lines stand in `all` from position `p` on, behind a blank one. */
  ghost predicate StandsAt(own: seq<string>, all: seq<string>, p: nat) {
    0 < p && p + |own| <= |all| && all[p - 1] == "" && all[p..p + |own|] == own
  }

  lemma StandsBehind(own: seq<string>, front: seq<string>, rest: seq<string>, p: nat)
    requires StandsAt(own, rest, p)
    ensures StandsAt(own, front + rest, |front| + p)
  {
    var all := front + rest;
    assert all[|front| + p - 1] == rest[p - 1];
    assert all[|front| + p..|front| + p + |own|] == rest[p..p + |own|];
  }

  lemma StandsFirst(own: seq<string>, last: seq<string>, rest: seq<string>)
    ensures StandsAt(own, [""] + own + last + rest, 1)
  {
    assert ([""] + own + last + rest)[1..1 + |own|] == own;
  }

  lemma {:induction false} AppendedHas(lines: seq<string>, j: nat, local: set<string>, excluded: set<string>, i: nat)
    returns (p: nat)
    requires j <= i < |lines| && Arrives(lines, i, local, excluded)
    ensures StandsAt(Seen(Section(lines, i), excluded), Appended(lines, j, local, excluded), p)
    decreases i - j
  {
    hide StartsNew, AnyNew, Section, Seen, StandsAt, StripCR;
    var own := Seen(Section(lines, i), excluded);
    var piece, rest := Piece(lines, j, local, excluded), Appended(lines, j + 1, local, excluded);
    if i == j {
      p := 1;
      StandsFirst(own, if excluded != {} && AnyNew(lines, i + 1, local) then [""] else [], rest);
    } else {
      var q := AppendedHas(lines, j + 1, local, excluded, i);
      p := |piece| + q;
      hide Piece;
      StandsBehind(own, piece, rest, q);
    }
  }

  /** The lines of a section as they are found in the written file. */
  function Found(own: seq<string>, excluded: set<string>): seq<string> {
    StripCRs(Seen(own, excluded))
  }

  /** Every upstream section that arrives stands in the written file: its lines
      one after the other, each without the carriage returns that reading costs,
      behind the local lines, and behind a blank line unless it comes right behind
      them. */
  lemma SectionArrives(local: string, upstream: string, excluded: set<string>, cap: nat, i: nat) returns (p: nat)
    requires SyncOf(local, upstream, excluded, cap).Written?
    requires i < |Lines(upstream)| && Arrives(Lines(upstream), i, Headings(local), excluded)
    ensures var lines, all := Lines(upstream), Lines(SyncOf(local, upstream, excluded, cap).content);
            var own, front := Found(Section(lines, i), excluded), |Lines(local + "\n")|;
            front <= p && p + |own| <= |all| && all[p..p + |own|] == own && (p == front || all[p - 1] == "")
  {
    hide SyncOf, Lines, IsHeading, Headings, Appended, Arrives, Section, Seen;
    SyncWrites(local, upstream, excluded, cap);
    var lines, added := Lines(upstream), ToAppend(local, upstream, excluded);
    var own := Seen(Section(lines, i), excluded);
    var q := AppendedHas(lines, 0, Headings(local), excluded, i);
    p := |Lines(local + "\n")| + q - 1;
    StandsBehindRead(Lines(local + "\n"), added, own, q);
  }

  lemma StandsBehindRead(front: seq<string>, added: seq<string>, own: seq<string>, q: nat)
    requires StandsAt(own, added, q)
    ensures var all, p := front + StripCRs(added)[1..], |front| + q - 1;
            && p + |own| <= |all| && all[p..p + |own|] == StripCRs(own)
            && (p == |front| || all[p - 1] == "")
  {
    hide StripCR;
    var all, p := front + StripCRs(added)[1..], |front| + q - 1;
    forall k | 0 <= k < |own|
      ensures all[p + k] == StripCRs(own)[k]
    {
      assert added[q..q + |own|][k] == added[q + k];
    }
    assert all[p..p + |own|] == StripCRs(own);
    BlankStays();
    assert StripCR("") == StripCRs([""])[0];
  }

  // ----- when it writes -----------------------------------------------------------------

  ghost predicate AnyArrives(lines: seq<string>, i: nat, local: set<string>, excluded: set<string>) {
    exists k :: i <= k < |lines| && Arrives(lines, k, local, excluded)
  }

  lemma {:induction false} AppendedSome(lines: seq<string>, i: nat, local: set<string>, excluded: set<string>)
    requires i <= |lines|
    ensures Appended(lines, i, local, excluded) != [] <==> AnyArrives(lines, i, local, excluded)
    decreases |lines| - i
  {
    hide StartsNew, AnyNew, Seen, Section;
    if i < |lines| {
      AppendedSome(lines, i + 1, local, excluded);
      assert Piece(lines, i, local, excluded) != [] <==> Arrives(lines, i, local, excluded);
    }
  }

  lemma {:induction false} NewHeaders(lines: seq<string>, local: set<string>)
    ensures HeadersWithout(HeadersOf(lines), local) != [] <==> AnyNew(lines, 0, local)
  {
    hide IsHeading;
    HeadersAre(lines);
    var unseen := HeadersWithout(HeadersOf(lines), local);
    if unseen != [] {
      assert unseen[0] in unseen;
      var k :| 0 <= k < |lines| && lines[k] == unseen[0];
      assert StartsNew(lines, k, local);
    }
    if k :| 0 <= k < |lines| && StartsNew(lines, k, local) {
      assert lines[k] in unseen;
    }
  }

  /** The lines of the merged text as the sync counts them: the line break between
      the two texts counts twice if the local text is open at its end. */
  ghost function CountedLines(local: string, added: seq<string>): nat {
    |Lines(local + Unlines(added))| + (if local == "" || EndsWith(local, '\n') then 0 else 1)
  }

  lemma CountedIs(local: string, added: seq<string>)
    requires NoNewlines(added) && added != [] && added[0] == ""
    ensures CountedLines(local, added) == |Lines(local)| + |Lines(Unlines(added))|
  {
    hide Lines;
    LinesUnlines(added);
    AppendedIsRead(local, added);
    LinesAppendBlock(local, "");
  }

  /** The outcome of a sync, exactly, for any texts. */
  lemma SyncOutcome(local: string, upstream: string, excluded: set<string>, cap: nat)
    ensures var r, lines, mine := SyncOf(local, upstream, excluded, cap), Lines(upstream), Headings(local);
            var added := ToAppend(local, upstream, excluded);
            && (r.UpToDate? <==> !AnyNew(lines, 0, mine))
            && (r.AllPruned? <==> AnyNew(lines, 0, mine) && !AnyArrives(lines, 0, mine, excluded))
            && (r.BailedForCap? <==> AnyArrives(lines, 0, mine, excluded) && CountedLines(local, added) > cap)
            && (r.Written? <==> AnyArrives(lines, 0, mine, excluded) && CountedLines(local, added) <= cap)
            && (r.BailedForCap? ==>
                  r.report == CapBailReport(|Lines(local)|, |lines|, CountedLines(local, added), cap,
                                            TopNewSections(Unlines(added), REPORTED)))
  {
    hide Lines, Appended, Trim, TopNewSections, CountSections, ExtractNewSections, HeaderSet, Headings, NewSections,
         HeadersOf, AnyNew, AnyArrives, CountedLines, Unlines;
    var lines, mine := Lines(upstream), Headings(local);
    var added := ToAppend(local, upstream, excluded);
    HeadingsAre(local);
    NewSectionsAre(local, upstream, excluded);
    LinesHaveNoNewlines(upstream);
    AppendedClean(lines, 0, mine, excluded);
    AppendedSome(lines, 0, mine, excluded);
    ExtractedHeaders(local, upstream);
    NewHeaders(lines, mine);
    AddedBlank(local, upstream, excluded);
    if added != [] {
      CountedIs(local, added);
    }
  }

  /** New sections are blank only if there are none, alone and behind the local
      text. */
  lemma AddedBlank(local: string, upstream: string, excluded: set<string>)
    ensures var added := NewSections(local, upstream, excluded);
            && (Trim(added) == "" <==> added == "")
            && (added != "" ==> Trim(local + added) != "")
            && (AnyArrives(Lines(upstream), 0, Headings(local), excluded) ==>
                  AnyNew(Lines(upstream), 0, Headings(local)))
  {
    var added := NewSections(local, upstream, excluded);
    NewSectionsAre(local, upstream, excluded);
    HeadingsAre(local);
    TrimEmpty();
    var lines, mine := Lines(upstream), Headings(local);
    LinesHaveNoNewlines(upstream);
    AppendedClean(lines, 0, mine, excluded);
    AppendedSome(lines, 0, mine, excluded);
    hide Lines, Appended, Trim, NewSections, HeaderSet, Headings, StripCR, IsWhitespace;
    if i :| 0 <= i < |lines| && Arrives(lines, i, mine, excluded) {
      assert StartsNew(lines, i, mine);
      var q := AppendedHas(lines, 0, mine, excluded, i);
      var list := Appended(lines, 0, mine, excluded);
      HeadStands(lines, i, excluded, list, q);
      HashInText(list, q);
      var k :| 0 <= k < |added| && added[k] == '#';
      HashIsSolid();
      TrimKeeps(added, k);
      assert (local + added)[|local| + k] == added[k];
      TrimKeeps(local + added, |local| + k);
    }
  }

  lemma HashIsSolid()
    ensures !IsWhitespace('#')
  {
  }

  lemma HeadStands(lines: seq<string>, i: nat, excluded: set<string>, list: seq<string>, q: nat)
    requires i < |lines| && IsHeading(lines[i])
    requires StandsAt(Seen(Section(lines, i), excluded), list, q)
    ensures q < |list| && list[q] != "" && list[q][0] == '#'
  {
    hide IsHeading, StripCR, Section;
    var own := Seen(Section(lines, i), excluded);
    assert list[q..q + |own|][0] == list[q];
    HeadHash(lines[i]);
  }

  lemma HeadHash(line: string)
    requires IsHeading(line)
    ensures line != "" && line[0] == '#' && StripCR(line) != "" && StripCR(line)[0] == '#'
  {
    HeaderStripped(line);
  }

  lemma {:induction false} HashInText(list: seq<string>, q: nat)
    requires q < |list| && list[q] != "" && list[q][0] == '#'
    ensures exists k :: 0 <= k < |Unlines(list)| && Unlines(list)[k] == '#'
    decreases q
  {
    var rest := Unlines(list[1..]);
    if q == 0 {
      assert Unlines(list)[0] == '#';
    } else {
      HashInText(list[1..], q - 1);
      var k :| 0 <= k < |rest| && rest[k] == '#';
      assert Unlines(list)[|list[0]| + 1 + k] == rest[k];
    }
  }

  // ----- how many it reports ------------------------------------------------------------

  /** The top sections among the sections that arrive. */
  ghost function TopArrivals(lines: seq<string>, i: nat, local: set<string>, excluded: set<string>): set<nat> {
    set k: nat | i <= k < |lines| && Arrives(lines, k, local, excluded) && StartsTop(lines[k])
  }

  lemma {:induction false} CountConcat(a: seq<string>, b: seq<string>)
    ensures CountSections(a + b) == CountSections(a) + CountSections(b)
  {
    hide IsTopHeader;
    if a == [] {
      assert a + b == b;
    } else {
      assert (a + b)[1..] == a[1..] + b;
      CountConcat(a[1..], b);
    }
  }

  lemma {:induction false} CountNone(lines: seq<string>)
    requires forall l :: l in lines ==> !IsHeading(l)
    ensures CountSections(lines) == 0
  {
    if lines != [] {
      assert lines[0] in lines;
      CountNone(lines[1..]);
    }
  }

  lemma TopStripped(line: string)
    ensures IsTopHeader(StripCR(line)) <==> StartsTop(line)
  {
    var front := StripCR(line);
    if EndsWith(line, '\r') {
      assert front == line[..|line| - 1];
      if "## " <= line {
        assert line[2] == ' ' && |front| >= 3 && front[..3] == line[..3];
      }
    }
  }

  lemma {:induction false} CountStripped(lines: seq<string>)
    ensures CountSections(StripCRs(lines)) == CountSections(lines)
  {
    hide StripCR, IsTopHeader;
    if lines != [] {
      CountStripped(lines[1..]);
      StripCRsCons(lines);
      assert ([StripCR(lines[0])] + StripCRs(lines[1..]))[1..] == StripCRs(lines[1..]);
      TopStripped(lines[0]);
      TopIs(lines[0]);
    } else {
      assert StripCRs([]) == [];
    }
  }

  lemma OwnCount(lines: seq<string>, i: nat, excluded: set<string>)
    requires i < |lines|
    ensures CountSections(Seen(Section(lines, i), excluded)) == if StartsTop(lines[i]) then 1 else 0
  {
    hide StripCR, StripCRs, IsTopHeader, IsHeading, StartsTop, CountSections, Section;
    var own := Section(lines, i);
    CountStripped(own);
    HeadCount(own);
    TopIs(lines[i]);
  }

  lemma HeadCount(own: seq<string>)
    requires own != [] && forall k :: 1 <= k < |own| ==> !IsHeading(own[k])
    ensures CountSections(own) == if IsTopHeader(own[0]) then 1 else 0
  {
    hide IsTopHeader, IsHeading;
    forall l | l in own[1..]
      ensures !IsHeading(l)
    {
      var k :| 0 <= k < |own[1..]| && own[1..][k] == l;
      assert own[k + 1] == l;
    }
    CountNone(own[1..]);
  }

  lemma PieceCount(lines: seq<string>, i: nat, local: set<string>, excluded: set<string>)
    requires i < |lines|
    ensures CountSections(Piece(lines, i, local, excluded)) ==
            if Arrives(lines, i, local, excluded) && StartsTop(lines[i]) then 1 else 0
  {
    hide StripCR, CountSections, StartsNew, AnyNew, Section, StartsTop, Seen;
    BlankCounts();
    if Arrives(lines, i, local, excluded) {
      var own := Seen(Section(lines, i), excluded);
      var last: seq<string> := if excluded != {} && AnyNew(lines, i + 1, local) then [""] else [];
      CountConcat([""] + own, last);
      CountConcat([""], own);
      OwnCount(lines, i, excluded);
    }
  }

  lemma BlankCounts()
    ensures CountSections([""]) == 0 && CountSections([]) == 0
  {
    assert [""][1..] == [];
  }

  lemma {:induction false} AppendedCount(lines: seq<string>, i: nat, local: set<string>, excluded: set<string>)
    requires i <= |lines|
    ensures CountSections(Appended(lines, i, local, excluded)) == |TopArrivals(lines, i, local, excluded)|
    decreases |lines| - i
  {
    hide Piece, Arrives, StartsTop;
    var tops := TopArrivals(lines, i, local, excluded);
    if i < |lines| {
      PieceCount(lines, i, local, excluded);
      AppendedCount(lines, i + 1, local, excluded);
      CountConcat(Piece(lines, i, local, excluded), Appended(lines, i + 1, local, excluded));
      var rest := TopArrivals(lines, i + 1, local, excluded);
      assert tops == if Arrives(lines, i, local, excluded) && StartsTop(lines[i]) then {i} + rest else rest;
    } else {
      assert tops == {};
    }
  }

  /** A sync reports the number of top sections that arrive. */
  lemma SectionsAddedAre(local: string, upstream: string, excluded: set<string>, cap: nat)
    requires SyncOf(local, upstream, excluded, cap).Written?
    ensures SyncOf(local, upstream, excluded, cap).sectionsAdded ==
            |TopArrivals(Lines(upstream), 0, Headings(local), excluded)|
  {
    hide Lines, NewSections, Appended, Trim, TopNewSections, CountSections, ExtractNewSections, HeaderSet, Headings;
    NewSectionsAre(local, upstream, excluded);
    HeadingsAre(local);
    LinesHaveNoNewlines(upstream);
    var added := ToAppend(local, upstream, excluded);
    AppendedClean(Lines(upstream), 0, Headings(local), excluded);
    LinesUnlines(added);
    CountStripped(added);
    AppendedCount(Lines(upstream), 0, Headings(local), excluded);
  }
}
