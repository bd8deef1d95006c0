/** Inputs on which the stub warnings of `src/brain/dedup_scan.rs` miss a header. */
module StubExamples {
  import opened Text
  import opened Ordering
  import opened Sections
  import opened Filter
  import opened Dedup
  import opened DedupProposals
  import opened DedupRounds
  import opened SteadyLines
  import opened StubRisk
  import opened DedupFiling
  import FilterPasses

  // ----- where a range covers a header ----------------------------------------------------------

  lemma {:induction false} StubsAreLines(lines: seq<string>)
    ensures forall h :: h in StubTexts(lines) ==> h in lines
  {
    hide TagOf, QuietLines;
    if lines != [] {
      StubsAreLines(lines[1..]);
    }
  }

  lemma HeadStub(lines: seq<string>)
    requires lines != [] && lines[0] !in lines[1..] && TagOf(lines[0]).Header?
    ensures lines[0] in StubTexts(lines) <==> QuietLines(lines[1..], TagOf(lines[0]).level)
  {
    hide TagOf, QuietLines;
    StubsAreLines(lines[1..]);
  }

  /** The shape of the example: a section whose only line is repeated at the
      end of the next one, before a last line. */
  ghost predicate IsExample(lines: seq<string>, text: string) {
    && |lines| == 6 && CleanLines(lines)
    && lines[0] !in lines[1..] && TagOf(lines[0]) == TagOf(lines[2]) == Header(2)
    && TagOf(lines[1]) == TagOf(lines[5]) == Body(Content)
    && forall k :: 0 <= k < 6 ==> (Bears(lines[k], text) <==> k == 1 || k == 4)
  }

  lemma Unroll(lines: seq<string>, removed: set<nat>)
    requires |lines| == 6
    ensures Remaining(lines, removed, 0) ==
            Kept1(lines, removed, 0) + (Kept1(lines, removed, 1) + (Kept1(lines, removed, 2)
            + (Kept1(lines, removed, 3) + (Kept1(lines, removed, 4) + Kept1(lines, removed, 5)))))
  {
    assert Remaining(lines, removed, 6) == [];
    assert Remaining(lines, removed, 5) == Kept1(lines, removed, 5);
    assert Remaining(lines, removed, 4) == Kept1(lines, removed, 4) + Remaining(lines, removed, 5);
    assert Remaining(lines, removed, 3) == Kept1(lines, removed, 3) + Remaining(lines, removed, 4);
    assert Remaining(lines, removed, 2) == Kept1(lines, removed, 2) + Remaining(lines, removed, 3);
    assert Remaining(lines, removed, 1) == Kept1(lines, removed, 1) + Remaining(lines, removed, 2);
  }

  function Kept1(lines: seq<string>, removed: set<nat>, i: nat): seq<string>
    requires i < |lines|
  {
    if i + 1 in removed then [] else [lines[i]]
  }

  lemma ExampleNumbers(lines: seq<string>, text: string)
    requires IsExample(lines, text)
    ensures LineNumbers(lines, text, 0) == [2, 5]
  {
    hide Bears, TagOf, CleanLines;
    assert LineNumbers(lines, text, 6) == [];
    assert LineNumbers(lines, text, 5) == [];
    assert LineNumbers(lines, text, 4) == [5];
    assert LineNumbers(lines, text, 3) == [5];
    assert LineNumbers(lines, text, 2) == [5];
    assert LineNumbers(lines, text, 1) == [2, 5];
  }

  lemma ExampleRemovals(lines: seq<string>)
    requires |lines| == 6
    ensures Remaining(lines, {2, 5}, 0) == [lines[0], lines[2], lines[3], lines[5]]
    ensures Remaining(lines, {2, 3, 4, 5}, 0) == [lines[0], lines[5]]
  {
    hide Remaining;
    Unroll(lines, {2, 5});
    Unroll(lines, {2, 3, 4, 5});
  }

  lemma ExampleStubs(lines: seq<string>, text: string)
    requires IsExample(lines, text)
    ensures lines[0] !in StubTexts(lines)
    ensures lines[0] in StubTexts([lines[0], lines[2], lines[3], lines[5]])
    ensures lines[0] !in StubTexts([lines[0], lines[5]])
  {
    hide TagOf, StubTexts, Bears, CleanLines;
    var exact, hull := [lines[0], lines[2], lines[3], lines[5]], [lines[0], lines[5]];
    assert exact[1..] == [lines[2], lines[3], lines[5]] && hull[1..] == [lines[5]];
    HeadStub(exact);
    HeadStub(hull);
    HeadStub(lines);
  }

  lemma ExampleRange()
    ensures SetOf(ParseLineRange(LineRange([2, 5]))) == {2, 3, 4, 5}
  {
    hide ParseLineRange, LineRange;
    RangeIsHull([2, 5]);
    var ns := ParseLineRange(LineRange([2, 5]));
    assert forall n :: n in ns <==> 2 <= n <= 5;
  }

  /** The range of one proposal, being printed as a span, can cover a header, and
      then the planned removal hides a stub that the proposal itself leaves. */
  lemma RangeHidesStub(lines: seq<string>, text: string)
    requires IsExample(lines, text)
    ensures var content, planned := Unlines(lines), SetOf(ParseLineRange(LineRange([2, 5])));
            && Tidy(content) && LineNumbers(Lines(content), text, 0) == [2, 5]
            && lines[0] in RiskOf(content, {2, 5})
            && lines[0] !in RiskOf(content, planned)
  {
    hide TagOf, Unlines, Lines, StrippedHeaders, Bears, LineNumbers, Remaining, ParseLineRange, LineRange, AfterRemoval,
         StubTexts;
    var content := Unlines(lines);
    LinesUnlinesClean(lines);
    ExampleNumbers(lines, text);
    ExampleRange();
    ExampleRemovals(lines);
    ExampleStubs(lines, text);
    StubsAfterRemoval(content, {2, 5});
    StubsAfterRemoval(content, {2, 3, 4, 5});
    StubsAreStripped(lines);
  }

  /** A line of plain words is content. */
  lemma WordsTrim(line: string)
    requires line != "" && 'a' <= line[0] <= 'z' && 'a' <= line[|line| - 1] <= 'z'
    ensures Trim(line) == line && TrimStart(line) == line
  {
    hide Trim, IsWhitespace;
    LetterIsNotBlank(line[0]);
    LetterIsNotBlank(line[|line| - 1]);
    TrimFixed(line);
  }

  lemma LetterIsNotBlank(c: char)
    requires 'a' <= c <= 'z'
    ensures !IsWhitespace(c)
  {
  }

  lemma WordsNotStructural(trimmed: string)
    requires trimmed != "" && 'a' <= trimmed[0] <= 'z'
    ensures IsStructuralOnly(trimmed) == Done(false)
  {
    var comment := "<!--";
    assert comment[0] != trimmed[0];
  }

  lemma WordsAreContent(line: string)
    requires line != "" && 'a' <= line[0] <= 'z' && 'a' <= line[|line| - 1] <= 'z'
    ensures TagOf(line) == Body(Content)
    ensures |line| >= MIN_LINE_LEN ==> !IsStructuralLine(line)
  {
    hide IsInFlightMarker, IsStructuralOnly, Trim, TrimStart, Find;
    ByteLenAtLeast(line);
    WordsTrim(line);
    WordsNotStructural(line);
    assert LeadingHashes(line) == 0;
  }

  const REPEATED: string := "a repeated line"
  const OTHER: string := "other text here"
  const MORE: string := "more text"
  const COVERED: seq<string> := ["## A", REPEATED, "## B", OTHER, REPEATED, MORE]

  lemma HeaderLine(line: string, text: string)
    requires |line| >= 3 && line[..3] == "## "
    ensures TagOf(line) == Header(2) && !Bears(line, text)
  {
    hide TagOf, IsStructuralLine, Trim;
    FilterPasses.HeaderTag(line, 2);
    TagIsHeader(line);
    HeadersAreStructural(line);
  }

  lemma TagIsHeader(line: string)
    ensures TagOf(line).Header? ==> IsHeader(line)
  {
    hide LineKind, HeaderLevel;
  }

  lemma OtherLine(line: string, text: string)
    requires line != "" && 'a' <= line[0] <= 'z' && 'a' <= line[|line| - 1] <= 'z' && line != text
    ensures TagOf(line) == Body(Content) && !Bears(line, text)
  {
    hide TagOf, IsStructuralLine, Trim;
    WordsAreContent(line);
    WordsTrim(line);
  }

  lemma RepeatedLine(text: string)
    requires |text| >= MIN_LINE_LEN && 'a' <= text[0] <= 'z' && 'a' <= text[|text| - 1] <= 'z'
    ensures TagOf(text) == Body(Content) && Bears(text, text)
  {
    hide TagOf, IsStructuralLine, Trim;
    WordsAreContent(text);
    WordsTrim(text);
  }

  lemma CoveredIsExample()
    ensures IsExample(COVERED, REPEATED)
  {
    hide TagOf, Bears, CleanLines;
    CoveredClean();
    HeaderLine("## A", REPEATED);
    HeaderLine("## B", REPEATED);
    RepeatedLine(REPEATED);
    OtherLine(OTHER, REPEATED);
    OtherLine(MORE, REPEATED);
  }

  lemma CoveredClean()
    ensures CleanLines(COVERED) && COVERED[0] !in COVERED[1..]
    ensures OTHER != REPEATED && MORE != REPEATED
  {
    assert OTHER[0] != REPEATED[0] && MORE[0] != REPEATED[0];
    assert forall k :: 0 <= k < 6 ==> !EndsWith(COVERED[k], '\r') && '\n' !in COVERED[k];
  }

  // ----- two files --------------------------------------------------------------------------

  /** The line that stays in one file, and the example in another. */
  const TEXTS: map<string, string> := map["SOUL.md" := Unlines([REPEATED]), "USER.md" := Unlines(COVERED)]

  lemma TextsRead()
    ensures LinesOf(TEXTS) == map["SOUL.md" := [REPEATED], "USER.md" := COVERED]
    ensures TEXTS["USER.md"] == Unlines(COVERED)
  {
    hide Lines, Unlines, COVERED, REPEATED, CleanLines;
    FilesApart();
    CoveredIsExample();
    RepeatedClean();
    LinesUnlinesClean([REPEATED]);
    LinesUnlinesClean(COVERED);
  }

  lemma FilesApart()
    ensures "SOUL.md" != "USER.md" && "SOUL.md" in BRAIN_FILES && "USER.md" in BRAIN_FILES
    ensures FileLess("SOUL.md", "USER.md")
  {
    assert "SOUL.md"[0] != "USER.md"[0];
    assert BRAIN_FILES[0] == "SOUL.md" && BRAIN_FILES[1] == "USER.md";
  }

  lemma RepeatedClean()
    ensures CleanLines([REPEATED])
  {
    assert forall k :: 0 <= k < |REPEATED| ==> REPEATED[k] != '\n';
  }

  /** A short line bears nothing. */
  lemma ShortLine(text: string)
    ensures !Bears(MORE, text)
  {
    hide Trim;
    WordsTrim(MORE);
    AsciiBytes(MORE);
  }

  /** Where any text stands in the second file. */
  lemma CoveredNumbers(text: string)
    ensures text == REPEATED ==> LineNumbers(COVERED, text, 0) == [2, 5]
    ensures text != REPEATED ==> |LineNumbers(COVERED, text, 0)| <= 1
  {
    hide Bears;
    HeaderLine("## A", text);
    HeaderLine("## B", text);
    ShortLine(text);
    if text == REPEATED {
      CoveredIsExample();
      hide COVERED, REPEATED, IsExample;
      ExampleNumbers(COVERED, text);
    } else {
      RepeatedBears(text);
      assert LineNumbers(COVERED, text, 6) == [];
      assert LineNumbers(COVERED, text, 5) == [];
      assert LineNumbers(COVERED, text, 4) == [];
      assert |LineNumbers(COVERED, text, 3)| <= 1;
      assert |LineNumbers(COVERED, text, 2)| <= 1;
      assert |LineNumbers(COVERED, text, 1)| <= 1;
    }
  }

  lemma RepeatedBears(text: string)
    ensures Bears(REPEATED, text) <==> text == REPEATED
  {
    hide Trim, IsStructuralLine;
    WordsAreContent(REPEATED);
    WordsTrim(REPEATED);
  }

  lemma SoulNumbers(text: string)
    ensures LineNumbers([REPEATED], text, 0) == if text == REPEATED then [1] else []
  {
    hide Bears;
    RepeatedBears(text);
    assert LineNumbers([REPEATED], text, 1) == [];
  }

  /** The lines of the two files, and of no other. */
  lemma BearingFiles(docs: Docs, text: string)
    requires docs == map["SOUL.md" := [REPEATED], "USER.md" := COVERED]
    ensures FileLines(docs, "SOUL.md", text) == if text == REPEATED then [1] else []
    ensures text == REPEATED ==> FileLines(docs, "USER.md", text) == [2, 5]
    ensures text != REPEATED ==> |FileLines(docs, "USER.md", text)| <= 1
    ensures forall f :: f != "SOUL.md" && f != "USER.md" ==> FileLines(docs, f, text) == []
  {
    hide COVERED, REPEATED, LineNumbers;
    FilesApart();
    SoulNumbers(text);
    CoveredNumbers(text);
  }

  /** Only the repeated line occurs twice. */
  lemma OnlyRepeated(docs: Docs, text: string)
    requires docs == map["SOUL.md" := [REPEATED], "USER.md" := COVERED]
    ensures |Occurrences(docs, text, 0)| >= MIN_DUPLICATE_COUNT <==> text == REPEATED
  {
    hide COVERED, REPEATED, LineNumbers, FileLines, BRAIN_FILES, Occurrences;
    FilesApart();
    BearingFiles(docs, text);
    if text == REPEATED {
      CountBound(docs, text, "USER.md");
    } else {
      OneFile(docs, text, 0, "USER.md");
    }
  }

  /** The scan finds one cluster, over both files. */
  lemma OneCluster(docs: Docs, clusters: seq<Cluster>)
    requires docs == map["SOUL.md" := [REPEATED], "USER.md" := COVERED]
    requires IsScan(docs, clusters)
    ensures |clusters| == 1 && clusters[0].text == REPEATED
    ensures clusters[0].locations == [Location("SOUL.md", [1]), Location("USER.md", [2, 5])]
  {
    hide COVERED, REPEATED, IsCluster, Occurrences;
    OnlyRepeated(docs, REPEATED);
    ClusterIsRepeated(docs, clusters[0]);
    if |clusters| > 1 {
      ClusterIsRepeated(docs, clusters[1]);
      ClustersDiffer(docs, clusters, 0, 1);
    }
  }

  lemma ClusterIsRepeated(docs: Docs, c: Cluster)
    requires docs == map["SOUL.md" := [REPEATED], "USER.md" := COVERED]
    requires IsCluster(docs, c)
    ensures c.text == REPEATED
    ensures c.locations == [Location("SOUL.md", [1]), Location("USER.md", [2, 5])]
  {
    hide COVERED, REPEATED, Occurrences, FileLines, BRAIN_FILES, FileLess;
    OnlyRepeated(docs, c.text);
    BearingFiles(docs, c.text);
    FilesApart();
    var ls, a, b := c.locations, Location("SOUL.md", [1]), Location("USER.md", [2, 5]);
    assert a in ls && b in ls;
    assert forall i :: 0 <= i < |ls| ==> IsLocation(docs, c.text, ls[i]);
    TwoInOrder(ls, a, b);
  }

  lemma TwoInOrder(ls: seq<Location>, a: Location, b: Location)
    requires a in ls && b in ls && FileLess(a.file, b.file)
    requires forall i :: 0 <= i < |ls| ==> ls[i] == a || ls[i] == b
    requires forall i, j :: 0 <= i < j < |ls| ==> FileLess(ls[i].file, ls[j].file)
    ensures ls == [a, b]
  {
    hide FileLess;
    FileIsOrder();
    assert !FileLess(a.file, a.file) && !FileLess(b.file, b.file) && !FileLess(b.file, a.file);
    assert a != b;
    forall i, j | 0 <= i < j < |ls|
      ensures ls[i] == a && ls[j] == b
    {
      assert FileLess(ls[i].file, ls[j].file);
    }
    assert |ls| > 1 ==> ls[0] == a && ls[1] == b;
    assert |ls| >= 2;
    assert ls[|ls| - 1] == b && ls[|ls| / 2] == b;
  }

  /** What is proposed: to remove lines 2 and 5 of the second file. */
  lemma OneProposal(clusters: seq<Cluster>)
    requires IsScan(LinesOf(TEXTS), clusters)
    ensures |clusters| == 1 && clusters[0].text == REPEATED
    ensures var ps := AllProposals(clusters);
            && |ps| == 1 && ps[0].targetFile == "USER.md" && ps[0].removed == [2, 5]
            && Planned(ps, "USER.md") == ParseLineRange(LineRange([2, 5]))
            && Targets(ps) == {"USER.md"}
  {
    hide COVERED, REPEATED, LineRange, ParseLineRange, IsScan, IsCluster, AllProposals, ProposalsOf, LinesOf;
    TextsRead();
    var docs := LinesOf(TEXTS);
    OneCluster(docs, clusters);
    ClustersOfScan(docs, clusters);
    ProposalCount(docs, clusters[0]);
    AllProposalsStep(clusters);
    NoProposals();
    assert clusters[..0] == [];
    var ps := AllProposals(clusters);
    assert ps == ProposalsOf(clusters[0]);
    PlannedOne(ps, "USER.md");
  }

  lemma PlannedOne(ps: seq<Proposal>, f: string)
    requires |ps| == 1 && ps[0].targetFile == f
    ensures Planned(ps, f) == ParseLineRange(ps[0].lineRange) && Targets(ps) == {f}
  {
    hide ParseLineRange;
    assert ps[..0] == [];
    assert Planned(ps[..0], f) == [];
    assert [] + ParseLineRange(ps[0].lineRange) == ParseLineRange(ps[0].lineRange);
  }

  /** What is filed for the two files: one proposal, carrying out which would
      newly leave `## A` without a body, and whose warnings do not say so. */
  lemma SpanHidesStub(clusters: seq<Cluster>, results: seq<Filed>)
    requires IsScan(LinesOf(TEXTS), clusters) && IsFiled(TEXTS, AllStaged(clusters), results)
    ensures |results| == 1
    ensures var p := results[0].proposal;
            && p.targetFile == "USER.md" && p.removed == [2, 5]
            && "## A" in RiskOf(TEXTS["USER.md"], SetOf(p.removed))
            && "## A" !in results[0].warnings
  {
    hide IsScan, LinesOf, AllStaged, RiskOf, Planned, ParseLineRange, LineRange, COVERED, REPEATED, IsExample, Tidy,
         Lines, LineNumbers, Unlines;
    OneProposal(clusters);
    TextsRead();
    CoveredIsExample();
    FirstCovered();
    RangeHidesStub(COVERED, REPEATED);
    var ps := AllProposals(clusters);
    var p := results[0].proposal;
    assert p == ps[0];
    assert SetOf(p.removed) == {2, 5};
    assert TEXTS["USER.md"] == Unlines(COVERED);
    WarningsAre(TEXTS, ps, "USER.md", "## A");
  }

  lemma FirstCovered()
    ensures |COVERED| == 6 && COVERED[0] == "## A"
  {
  }

  /** And it is filed: no excerpt and no check aborts. */
  lemma FilingSucceeds(clusters: seq<Cluster>, r: Outcome<seq<Filed>>)
    requires IsGenerated(TEXTS, clusters, r)
    ensures r.Done? && IsFiled(TEXTS, AllStaged(clusters), r.value)
  {
    hide IsScan, LinesOf, AllStaged, CheckPanics, IsFiled, Planned, ParseLineRange, LineRange, COVERED, REPEATED,
         Unlines, Excerpt, Targets;
    OneProposal(clusters);
    QuotesRepeated();
    TextsRead();
    ChecksCovered();
    ExampleRange();
  }

  lemma QuotesRepeated()
    ensures Excerpt(REPEATED, EXCERPT_BYTES).Done?
  {
    hide Excerpt, REPEATED;
    RepeatedIsAscii();
    ExcerptPanicsIff(REPEATED, EXCERPT_BYTES);
    forall k | 0 <= k < |REPEATED|
      ensures !Straddles(REPEATED, k, EXCERPT_BYTES)
    {
      AsciiBytes(REPEATED[..k]);
    }
  }

  lemma RepeatedIsAscii()
    ensures |REPEATED| == 15 && forall k :: 0 <= k < |REPEATED| ==> REPEATED[k] < '\U{0080}'
  {
  }

  /** Nothing in the second file, or in what is left of it, makes the filter abort. */
  lemma ChecksCovered()
    ensures !CheckPanics(Unlines(COVERED), {2, 3, 4, 5})
  {
    hide TagOf, Lines, Unlines, REPEATED, Crashes, Remaining, Join, CleanLines, IsExample;
    CoveredIsExample();
    CoveredClean();
    CoveredTags();
    LinesUnlinesClean(COVERED);
    ExampleRemovals(COVERED);
    NoCrash(COVERED);
    var left := ["## A", MORE];
    LeftClean();
    FilterPasses.JoinedLines(left);
    BlankIsQuiet();
    var out := Lines(Join(left, "\n"));
    assert forall l :: l in out ==> l in left;
    NoCrash(out);
  }

  lemma BlankIsQuiet()
    ensures TagOf("") == Body(Quiet)
  {
  }

  lemma LeftClean()
    ensures CleanLines(["## A", MORE])
  {
    assert forall k :: 0 <= k < |MORE| ==> MORE[k] != '\n';
  }

  lemma CoveredTags()
    ensures forall l :: l in COVERED ==> TagOf(l) != Body(Crash)
    ensures forall l :: l in ["## A", MORE] ==> TagOf(l) != Body(Crash)
  {
    hide TagOf, Bears;
    CoveredClean();
    HeaderLine("## A", REPEATED);
    HeaderLine("## B", REPEATED);
    RepeatedLine(REPEATED);
    OtherLine(OTHER, REPEATED);
    OtherLine(MORE, REPEATED);
  }

  lemma NoCrash(lines: seq<string>)
    requires forall l :: l in lines ==> TagOf(l) != Body(Crash)
    ensures !Crashes(Tags(lines))
  {
    hide TagOf;
    var tags := Tags(lines);
    forall i | 0 <= i < |tags|
      ensures tags[i] != Body(Crash)
    {
      assert lines[i] in lines;
    }
    forall i | 0 <= i < |tags|
      ensures !CrashesAt(tags, i)
    {
      if tags[i].Header? {
        NoCrashIn(tags[i + 1..RegionEnd(tags, i)]);
      }
    }
  }

  lemma {:induction false} NoCrashIn(body: seq<Tag>)
    requires forall i :: 0 <= i < |body| ==> body[i] != Body(Crash)
    ensures ScanKind(body) != Crash
  {
    if body != [] && KindOf(body[0]) == Quiet {
      NoCrashIn(body[1..]);
    }
  }

  // ----- headers that change their name ------------------------------------------------------

  const RULE: string := "---"

  lemma RuleIsQuiet()
    ensures TagOf(RULE) == Body(Quiet) && CleanLines([MORE, RULE])
  {
    hide IsInFlightMarker;
    RuleIsRule();
    TrimFixed(RULE);
    RuleIsNoMarker();
    LeftClean();
    assert '\n' !in RULE && !EndsWith(RULE, '\r');
    assert MORE in ["## A", MORE];
  }

  lemma RuleIsRule()
    ensures IsHorizontalRule(RULE) && !IsWhitespace('-') && HeaderLevel(RULE) == 0
  {
    assert RULE[1..] == "--" && "--"[1..] == "-" && "-"[1..] == "";
    AsciiBytes(RULE);
    assert CountChar("-", '-') == 1 && CountChar("--", '-') == 2;
  }

  lemma RuleIsNoMarker()
    ensures !IsInFlightMarker(RULE)
  {
    hide Find, AsciiLower;
    assert AsciiLower(RULE) == RULE by {
      RuleIsLower();
    }
    FindAbsent(RULE, MARKERS[0], 't', 0, 0);
    FindAbsent(RULE, MARKERS[1], 't', 0, 0);
    FindAbsent(RULE, MARKERS[2], 'w', 0, 0);
    FindAbsent(RULE, MARKERS[3], 'p', 0, 0);
  }

  lemma RuleIsLower()
    ensures AsciiLower(RULE) == RULE
  {
  }

  /** The condition on names is exact, line by line: around every line that
      changes its name there is a text in which a larger removal, without header
      lines, hides a header that a smaller one reports. */
  lemma RenamedHides(line: string) returns (content: string)
    requires Renamed(line) && '\n' !in line
    ensures Lines(content) == [line, MORE, RULE] && HeaderFree(Lines(content), {2, 3})
    ensures StripCR(line) in RiskOf(content, {2}) && StripCR(line) !in RiskOf(content, {2, 3})
  {
    hide TagOf, Lines, Unlines, StubTexts, StrippedHeaders, StripCR, Join, Remaining, MORE, RULE, CleanLines, Renamed;
    content := Unlines([line + "\r", MORE, RULE]);
    RuleIsQuiet();
    MoreIsContent();
    RenamedRead(line);
    var lines := [line, MORE, RULE];
    RemainingOfThree(lines);
    StubsAreStripped(lines);
    NoStubBefore(lines);
    RenamedAfter(line);
  }

  lemma MoreIsContent()
    ensures TagOf(MORE) == Body(Content)
  {
    hide TagOf;
    WordsAreContent(MORE);
  }

  lemma RenamedRead(line: string)
    requires '\n' !in line && CleanLines([MORE, RULE])
    ensures Lines(Unlines([line + "\r", MORE, RULE])) == [line, MORE, RULE]
  {
    hide Lines, Unlines, MORE, RULE;
    var written := [line + "\r", MORE, RULE];
    assert MORE in [MORE, RULE] && RULE in [MORE, RULE];
    assert (line + "\r")[..|line|] == line && EndsWith(line + "\r", '\r');
    LinesUnlines(written);
  }

  lemma RemainingOfThree(lines: seq<string>)
    requires |lines| == 3
    ensures Remaining(lines, {2}, 0) == [lines[0], lines[2]] && Remaining(lines, {2, 3}, 0) == [lines[0]]
  {
    assert Remaining(lines, {2}, 3) == [] && Remaining(lines, {2, 3}, 3) == [];
    assert Remaining(lines, {2}, 2) == [lines[2]] && Remaining(lines, {2, 3}, 2) == [];
    assert Remaining(lines, {2}, 1) == [lines[2]] && Remaining(lines, {2, 3}, 1) == [];
  }

  lemma NoStubBefore(lines: seq<string>)
    requires |lines| == 3 && TagOf(lines[1]) == Body(Content) && TagOf(lines[2]).Body?
    ensures StubTexts(lines) == {}
  {
    hide TagOf;
    assert lines[1..][0] == lines[1] && lines[1..][1..] == lines[2..];
    assert lines[2..][0] == lines[2] && lines[2..][1..] == [];
    assert StubTexts(lines[2..]) == {} && StubTexts(lines[1..]) == {};
    assert forall level :: !QuietLines(lines[1..], level);
  }

  /** What the filter sees after either removal. */
  lemma RenamedAfter(line: string)
    requires Renamed(line) && '\n' !in line && TagOf(RULE) == Body(Quiet) && CleanLines([MORE, RULE])
    ensures StripCR(line) in SetOf(StrippedHeaders(Lines(Join([line, RULE], "\n"))))
    ensures StripCR(line) !in SetOf(StrippedHeaders(Lines(Join([line], "\n"))))
  {
    hide TagOf, Lines, StubTexts, StrippedHeaders, StripCR, Join, MORE, RULE;
    var two, one := [line, RULE], [line];
    RuleIsSomething();
    assert RULE in [MORE, RULE] && line != "";
    FilterPasses.JoinedReads(two);
    FilterPasses.JoinedReads(one);
    StripOne(line);
    assert two[..1] == [line] && one[..0] == [];
    assert Lines(Join(two, "\n")) == [StripCR(line), RULE];
    assert Lines(Join(one, "\n")) == [line];
    StubsAreStripped([StripCR(line), RULE]);
    StubsAreStripped(one);
    TagIsHeader(StripCR(line));
    TagOfHeader(StripCR(line));
    HeadFirst(StripCR(line), RULE);
    StubsAreLines(one);
  }

  lemma RuleIsSomething()
    ensures RULE != ""
  {
  }

  lemma StripOne(line: string)
    requires EndsWith(line, '\r')
    ensures StripCRs([line]) == [StripCR(line)] && StripCRs([]) == [] && StripCR(line) != line
  {
    assert |StripCR(line)| == |line| - 1;
  }

  lemma HeadFirst(head: string, rule: string)
    requires TagOf(head).Header? && TagOf(rule) == Body(Quiet)
    ensures head in StubTexts([head, rule])
  {
    hide TagOf;
    var lines := [head, rule];
    assert lines[1..] == [rule] && [rule][1..] == [];
    assert QuietLines([], TagOf(head).level);
    assert QuietLines([rule], TagOf(head).level);
  }
}
