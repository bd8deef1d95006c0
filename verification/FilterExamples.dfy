/** Texts on which the filter does not do what it is meant to
    (`src/brain/filter.rs`). */
module FilterExamples {
  import opened Text
  import opened Sections
  import opened Filter
  import opened FilterPasses

  // ----- the abort ------------------------------------------------------------------------

  /** The classifier of body lines aborts on a lone bar and on nothing else. */
  lemma CrashIff(line: string)
    ensures LineKind(line) == Crash <==> Trim(line) == "|"
  {
    hide Trim, IsInFlightMarker, Split;
    var trimmed := Trim(line);
    if trimmed == "|" {
      BarIsNoMarker();
      BarIsShort();
    } else if trimmed != "" && |trimmed| == 1 {
      assert trimmed[0] != '|';
    }
  }

  lemma BarIsShort()
    ensures !IsHorizontalRule("|")
  {
    assert "|"[0] == '|';
  }

  lemma BarIsNoMarker()
    ensures !IsInFlightMarker("|")
  {
    hide Find, MARKERS;
    assert AsciiLower("|") == "|";
    forall k | 0 <= k < |MARKERS|
      ensures !MarkedBy("|", MARKERS[k])
    {
      MarkersAreLetters(k);
      FindAbsent("|", MARKERS[k], MARKERS[k][0], 0, 0);
    }
  }

  lemma MarkersAreLetters(k: nat)
    requires k < |MARKERS|
    ensures MARKERS[k] != "" && MARKERS[k][0] != '|'
  {
  }

  const BAR_TEXT: string := Unlines(["## A", "|"])

  /** A header with a lone bar below it. */
  lemma BarAborts()
    ensures Strip(BAR_TEXT).Panic?
  {
    hide TagOf, Unlines, Lines, LineKind;
    var lines := ["## A", "|"];
    assert CleanLines(lines);
    LinesUnlinesClean(lines);
    HeaderTag('A');
    BarTag();
    var tags := Tags(lines);
    assert tags[0] == TagOf(HeaderOf('A')) && tags[1] == Body(Crash);
    assert NextAtMost(tags, 1, 2) == 2;
    assert tags[1..2] == [Body(Crash)];
    assert CrashesAt(tags, 0);
  }

  function HeaderOf(c: char): string {
    ['#', '#', ' ', c]
  }

  lemma HeaderTag(c: char)
    ensures TagOf(HeaderOf(c)) == Header(2)
  {
    hide LineKind;
    var line := HeaderOf(c);
    HashIsNoBlank();
    assert TrimStart(line) == line;
    HashesAre(line, 2);
  }

  lemma HashIsNoBlank()
    ensures !IsWhitespace('#')
  {
  }

  lemma BarTag()
    ensures TagOf("|") == Body(Crash)
  {
    hide LineKind;
    BarIsNoBlank();
    TrimFixed("|");
    CrashIff("|");
    assert TrimStart("|") == "|";
    assert LeadingHashes("|") == 0;
  }

  lemma BarIsNoBlank()
    ensures !IsWhitespace('|')
  {
  }

  // ----- the newline at the end -------------------------------------------------------------

  const OPEN_LINES: seq<string> := ["## A", "x", "", "## B"]

  lemma TextTag()
    ensures TagOf("x") == Body(Content) && TagOf("") == Body(Quiet)
  {
    hide IsInFlightMarker, IsWhitespace;
    XIsNoBlank();
    TrimFixed("x");
    TrimEmpty();
    assert TrimStart("x") == "x" && TrimStart("") == "";
    assert LeadingHashes("x") == 0 && LeadingHashes("") == 0;
    var comment := "<!--";
    assert |comment| == 4;
    XIsShort();
  }

  lemma XIsShort()
    ensures !IsHorizontalRule("x")
  {
    assert "x"[0] == 'x';
  }

  lemma XIsNoBlank()
    ensures !IsWhitespace('x')
  {
  }

  lemma OpenTags()
    ensures Tags(OPEN_LINES) == [Header(2), Body(Content), Body(Quiet), Header(2)]
  {
    hide TagOf;
    HeaderTag('A');
    HeaderTag('B');
    TextTag();
    assert OPEN_LINES[0] == HeaderOf('A') && OPEN_LINES[3] == HeaderOf('B');
  }

  lemma OpenKept()
    ensures KeptLines(OPEN_LINES) == ["## A", "x", ""]
    ensures AnyDrops(Tags(OPEN_LINES)) && !Crashes(Tags(OPEN_LINES))
  {
    hide TagOf, Tags;
    OpenTags();
    var tags := Tags(OPEN_LINES);
    assert NextAtMost(tags, 3, 2) == 3 && NextAtMost(tags, 2, 2) == 3 && NextAtMost(tags, 1, 2) == 3;
    assert tags[1..3][0] == Body(Content);
    assert tags[4..4] == [];
    assert !Dropped(tags, 0) && !Dropped(tags, 1) && !Dropped(tags, 2) && Drops(tags, 3);
    assert Keep(OPEN_LINES, tags, 4, 4) == [];
    assert Keep(OPEN_LINES, tags, 3, 4) == [];
    assert Keep(OPEN_LINES, tags, 2, 4) == [""];
    assert Keep(OPEN_LINES, tags, 1, 4) == ["x", ""];
  }

  /** A text without a newline at its end that comes out with one: the blank line
      before the header that goes is the last that is kept. */
  lemma OpenComesOutClosed()
    ensures var content := Join(OPEN_LINES, "\n");
            !EndsWith(content, '\n') && Strip(content).Done? && EndsWith(Strip(content).value, '\n')
  {
    hide Lines, Unlines, Join, Tags, KeptLines, StrippedHeaders;
    var content := Join(OPEN_LINES, "\n");
    var front := OPEN_LINES[..3];
    JoinUnlines(OPEN_LINES);
    assert content == Unlines(front) + "## B";
    assert NoNewlines(front);
    LinesOpenEnd(front, "## B");
    assert StripCRs(front) == front;
    assert Lines(content) == OPEN_LINES;
    OpenKept();
    var kept := KeptLines(OPEN_LINES);
    assert NoNewlines(kept);
    ClosedIff(content, kept);
  }
}
