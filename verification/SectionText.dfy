/** `##` and `###` sections of a brain file as the sync code cuts them
    (`src/brain/rsi_sync.rs`, `src/brain/rsi_pruned.rs`). */
module SectionText {
  import opened Text

  predicate IsSectionHeader(line: string) {
    "## " <= line || "### " <= line
  }

  /** `extract_section_headers` on lines. */
  function HeadersOf(lines: seq<string>): seq<string> {
    if lines == [] then []
    else if IsSectionHeader(lines[0]) then [lines[0]] + HeadersOf(lines[1..])
    else HeadersOf(lines[1..])
  }

  function ExtractSectionHeaders(content: string): seq<string> {
    HeadersOf(Lines(content))
  }

  /** The headers of a text, as the set the callers look them up in. */
  ghost function HeaderSet(content: string): set<string> {
    set h | h in ExtractSectionHeaders(content)
  }

  /** A header line and the lines up to the next header, its own included. */
  datatype Block = Block(header: string, content: seq<string>)

  function LeadingBody(lines: seq<string>): seq<string> {
    if lines == [] || IsSectionHeader(lines[0]) then [] else [lines[0]] + LeadingBody(lines[1..])
  }

  function Blocks(lines: seq<string>): seq<Block> {
    if lines == [] then []
    else if IsSectionHeader(lines[0]) then
      [Block(lines[0], [lines[0]] + LeadingBody(lines[1..]))] + Blocks(lines[1..])
    else Blocks(lines[1..])
  }

  /** The accumulator loop that both `extract_new_sections` and
      `filter_pruned_sections` run over their lines. */
  method CutBlocks(lines: seq<string>) returns (blocks: seq<Block>)
    ensures blocks == Blocks(lines)
  {
    blocks := [];
    var currentHeader := "";
    var currentContent: seq<string> := [];
    assert lines[0..] == lines;
    for i := 0 to |lines|
      invariant currentHeader == "" ==> Blocks(lines) == blocks + Blocks(lines[i..])
      invariant currentHeader != "" ==>
                  Blocks(lines) == blocks + [Block(currentHeader, currentContent + LeadingBody(lines[i..]))]
                                   + Blocks(lines[i..])
    {
      var line := lines[i];
      CutStep(lines, i);
      if IsSectionHeader(line) {
        if currentHeader != "" {
          blocks := blocks + [Block(currentHeader, currentContent)];
        }
        assert currentContent + [] == currentContent;
        currentHeader := line;
        currentContent := [line];
      } else if currentHeader != "" {
        SeqAssoc(currentContent, [line], LeadingBody(lines[i + 1..]));
        currentContent := currentContent + [line];
      }
    }
    assert lines[|lines|..] == [];
    assert currentContent + [] == currentContent;
    if currentHeader != "" {
      blocks := blocks + [Block(currentHeader, currentContent)];
    }
  }

  lemma CutStep(lines: seq<string>, i: nat)
    requires i < |lines|
    ensures IsSectionHeader(lines[i]) ==>
              && lines[i] != "" && LeadingBody(lines[i..]) == []
              && Blocks(lines[i..]) ==
                   [Block(lines[i], [lines[i]] + LeadingBody(lines[i + 1..]))] + Blocks(lines[i + 1..])
    ensures !IsSectionHeader(lines[i]) ==>
              && LeadingBody(lines[i..]) == [lines[i]] + LeadingBody(lines[i + 1..])
              && Blocks(lines[i..]) == Blocks(lines[i + 1..])
  {
    assert lines[i..][1..] == lines[i + 1..];
  }

  // ----- choosing blocks and writing them out ------------------------------------

  /** The blocks whose header is not in `unwanted`. */
  function Without(blocks: seq<Block>, unwanted: set<string>): seq<Block> {
    if blocks == [] then []
    else if blocks[0].header in unwanted then Without(blocks[1..], unwanted)
    else [blocks[0]] + Without(blocks[1..], unwanted)
  }

  function HeadersWithout(headers: seq<string>, unwanted: set<string>): (r: seq<string>)
    ensures forall h :: h in r <==> h in headers && h !in unwanted
  {
    if headers == [] then []
    else if headers[0] in unwanted then HeadersWithout(headers[1..], unwanted)
    else [headers[0]] + HeadersWithout(headers[1..], unwanted)
  }

  function Texts(blocks: seq<Block>): seq<string> {
    if blocks == [] then [] else [Join(blocks[0].content, "\n")] + Texts(blocks[1..])
  }

  /** Blocks as text to append: a blank line before each. */
  function Render(blocks: seq<Block>): string {
    if blocks == [] then "" else "\n" + Join(Texts(blocks), "\n\n") + "\n"
  }

  /** The lines of the rendered text after its first, empty one. */
  function Glue(blocks: seq<Block>): seq<string> {
    if blocks == [] then []
    else if |blocks| == 1 then blocks[0].content
    else blocks[0].content + [""] + Glue(blocks[1..])
  }

  ghost predicate GoodBlock(b: Block) {
    && b.content != [] && b.content[0] == b.header && IsSectionHeader(b.header)
    && NoNewlines(b.content)
    && HeadersOf(b.content[1..]) == []
  }

  ghost predicate GoodBlocks(blocks: seq<Block>) {
    forall i :: 0 <= i < |blocks| ==> GoodBlock(blocks[i])
  }

  // ----- facts about headers ---------------------------------------------------------

  lemma {:induction false} HeadersConcat(a: seq<string>, b: seq<string>)
    ensures HeadersOf(a + b) == HeadersOf(a) + HeadersOf(b)
  {
    if a == [] {
      assert a + b == b;
    } else {
      assert (a + b)[1..] == a[1..] + b;
      HeadersConcat(a[1..], b);
    }
  }

  /** Losing a carriage return makes and breaks no header. */
  lemma HeaderStripped(line: string)
    ensures IsSectionHeader(StripCR(line)) <==> IsSectionHeader(line)
  {
    var front := StripCR(line);
    if EndsWith(line, '\r') {
      assert front == line[..|line| - 1];
      if "## " <= line {
        assert line[2] == ' ' && |front| >= 3 && front[..3] == line[..3];
      }
      if "### " <= line {
        assert line[3] == ' ' && |front| >= 4 && front[..4] == line[..4];
      }
    }
  }

  lemma {:induction false} StrippedHeaderLines(lines: seq<string>)
    ensures HeadersOf(StripCRs(lines)) == StripCRs(HeadersOf(lines))
  {
    hide IsSectionHeader, StripCR;
    if lines != [] {
      StrippedHeaderLines(lines[1..]);
      HeaderStripped(lines[0]);
      StripCRsCons(lines);
      var rest := StripCRs(lines[1..]);
      assert ([StripCR(lines[0])] + rest)[1..] == rest;
      if IsSectionHeader(lines[0]) {
        StripCRsCons([lines[0]] + HeadersOf(lines[1..]));
        assert ([lines[0]] + HeadersOf(lines[1..]))[1..] == HeadersOf(lines[1..]);
      }
    } else {
      assert StripCRs(lines) == [];
    }
  }

  lemma {:induction false} LeadingBodyHasNoHeaders(lines: seq<string>)
    requires NoNewlines(lines)
    ensures HeadersOf(LeadingBody(lines)) == []
    ensures NoNewlines(LeadingBody(lines))
  {
    if lines != [] && !IsSectionHeader(lines[0]) {
      assert NoNewlines(lines[1..]);
      LeadingBodyHasNoHeaders(lines[1..]);
      var rest := LeadingBody(lines[1..]);
      assert ([lines[0]] + rest)[1..] == rest;
    }
  }

  /** Cutting lines gives good blocks, one per header, in order. */
  lemma {:induction false} BlocksAreGood(lines: seq<string>)
    requires NoNewlines(lines)
    ensures GoodBlocks(Blocks(lines))
    ensures BlockHeaders(Blocks(lines)) == HeadersOf(lines)
  {
    if lines != [] {
      assert NoNewlines(lines[1..]);
      BlocksAreGood(lines[1..]);
      if IsSectionHeader(lines[0]) {
        LeadingBodyHasNoHeaders(lines[1..]);
        var body := LeadingBody(lines[1..]);
        var b := Block(lines[0], [lines[0]] + body);
        assert b.content[1..] == body;
        assert GoodBlock(b);
        assert Blocks(lines)[1..] == Blocks(lines[1..]);
      }
    }
  }

  function BlockHeaders(blocks: seq<Block>): seq<string> {
    if blocks == [] then [] else [blocks[0].header] + BlockHeaders(blocks[1..])
  }

  lemma {:induction false} WithoutHeaders(blocks: seq<Block>, unwanted: set<string>)
    ensures BlockHeaders(Without(blocks, unwanted)) == HeadersWithout(BlockHeaders(blocks), unwanted)
  {
    if blocks != [] {
      WithoutHeaders(blocks[1..], unwanted);
      var rest := Without(blocks[1..], unwanted);
      assert ([blocks[0]] + rest)[1..] == rest;
      assert BlockHeaders(blocks)[1..] == BlockHeaders(blocks[1..]);
    }
  }

  lemma {:induction false} WithoutGood(blocks: seq<Block>, unwanted: set<string>)
    requires GoodBlocks(blocks)
    ensures GoodBlocks(Without(blocks, unwanted))
  {
    hide GoodBlock;
    if blocks != [] {
      WithoutGood(blocks[1..], unwanted);
    }
  }

  lemma {:induction false} GlueHeaders(blocks: seq<Block>)
    requires GoodBlocks(blocks)
    ensures HeadersOf(Glue(blocks)) == BlockHeaders(blocks)
    ensures NoNewlines(Glue(blocks))
  {
    if blocks != [] {
      var b := blocks[0];
      assert GoodBlock(b);
      GlueHeaders(blocks[1..]);
      if |blocks| > 1 {
        HeadersConcat(b.content + [""], Glue(blocks[1..]));
        HeadersConcat(b.content, [""]);
        assert HeadersOf([""]) == [];
      } else {
        assert blocks[1..] == [];
      }
    }
  }

  // ----- the rendered text, read back ----------------------------------------------

  lemma {:induction false} JoinTexts(blocks: seq<Block>)
    requires GoodBlocks(blocks) && blocks != []
    ensures Join(Texts(blocks), "\n\n") + "\n" == Unlines(Glue(blocks))
  {
    var b := blocks[0];
    assert GoodBlock(b);
    hide GoodBlock;
    JoinUnlines(b.content);
    if |blocks| == 1 {
      assert blocks[1..] == [];
      assert Texts(blocks) == [Join(b.content, "\n")];
    } else {
      JoinTexts(blocks[1..]);
      assert Texts(blocks)[1..] == Texts(blocks[1..]);
      JoinTwo(Join(b.content, "\n"), Join(Texts(blocks[1..]), "\n\n"), b.content, Glue(blocks[1..]));
    }
  }

  lemma JoinTwo(first: string, rest: string, a: seq<string>, b: seq<string>)
    requires first + "\n" == Unlines(a) && rest + "\n" == Unlines(b)
    ensures (first + "\n\n" + rest) + "\n" == Unlines(a + [""] + b)
  {
    UnlinesConcat(a + [""], b);
    UnlinesConcat(a, [""]);
    assert Unlines([""]) == "\n" by {
      assert [""][1..] == [];
    }
    hide Unlines;
    assert (first + "\n\n" + rest) + "\n" == (first + "\n") + "\n" + (rest + "\n");
  }

  /** The rendered text is one newline and then the glued lines; reading them
      costs each a carriage return. */
  lemma RenderIsUnlines(blocks: seq<Block>)
    requires GoodBlocks(blocks) && blocks != []
    ensures Render(blocks) == "\n" + Unlines(Glue(blocks))
    ensures Lines(Render(blocks)) == [""] + StripCRs(Glue(blocks))
  {
    JoinTexts(blocks);
    GlueHeaders(blocks);
    hide GoodBlocks, Unlines, Lines, Glue, Texts, NoNewlines, StripCRs;
    assert Render(blocks) == "\n" + (Join(Texts(blocks), "\n\n") + "\n");
    LinesLeadingNewline(Unlines(Glue(blocks)));
    LinesUnlines(Glue(blocks));
  }

  /** What reading a rendered text back gives: the blocks' headers, each without
      one carriage return. */
  lemma RenderedHeaders(blocks: seq<Block>)
    requires GoodBlocks(blocks)
    ensures ExtractSectionHeaders(Render(blocks)) == StripCRs(BlockHeaders(blocks))
  {
    if blocks != [] {
      RenderIsUnlines(blocks);
      GlueHeaders(blocks);
      hide GoodBlocks, Render, Glue, StripCRs;
      StrippedHeaderLines(Glue(blocks));
      HeadersConcat([""], StripCRs(Glue(blocks)));
      assert HeadersOf([""]) == [];
    } else {
      assert StripCRs([]) == [];
    }
  }

  /** Text that is not all blank does not trim to nothing. */
  lemma {:induction false} TrimKeeps(s: string, i: nat)
    requires i < |s| && !IsWhitespace(s[i])
    ensures Trim(s) != ""
  {
    if IsWhitespace(s[0]) {
      TrimKeeps(s[1..], i - 1);
    } else {
      TrimEndKeepsFront(s);
    }
  }

  /** A rendered text is blank only if there is nothing in it. */
  lemma RenderBlank(blocks: seq<Block>)
    requires GoodBlocks(blocks)
    ensures Trim(Render(blocks)) == "" <==> blocks == []
  {
    if blocks != [] {
      var b := blocks[0];
      assert GoodBlock(b);
      RenderIsUnlines(blocks);
      var glue := Glue(blocks);
      assert glue[0] == b.content[0];
      assert Unlines(glue)[0] == '#';
      hide Render, Glue, Unlines, GoodBlock;
      TrimKeeps(Render(blocks), 1);
    }
  }
}
