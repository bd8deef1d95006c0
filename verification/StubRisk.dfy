/** The warnings that come with removal proposals: the headers that the planned
    removals would leave without a body (`src/brain/dedup_scan.rs`). */
module StubRisk {
  import opened Text
  import opened Ordering
  import opened Sections
  import opened Filter
  import opened Dedup
  import opened DedupProposals
  import opened DedupRounds
  import opened SteadyLines
  import FilterPasses
  import Numbers

  const USIZE_MAX: nat := 0xFFFF_FFFF_FFFF_FFFF

  // ----- line ranges -----------------------------------------------------------------

  function Span(low: nat, high: nat): (ns: seq<nat>)
    requires low <= high
    ensures forall n :: n in ns <==> low <= n <= high
    decreases high - low
  {
    if low == high then [low] else [low] + Span(low + 1, high)
  }

  /** `parse_line_range`. */
  function ParseLineRange(range: string): seq<nat> {
    match Find(range, "-", 0)
    case Some(p) =>
      var first := Numbers.Parse(Trim(range[..p]), USIZE_MAX);
      var last := Numbers.Parse(Trim(range[p + 1..]), USIZE_MAX);
      if first.Some? && last.Some? && last.value >= first.value then Span(first.value, last.value) else []
    case None =>
      var n := Numbers.Parse(Trim(range), USIZE_MAX);
      if n.Some? then [n.value] else []
  }

  lemma ParseNumber(n: nat)
    requires n <= USIZE_MAX
    ensures Numbers.Parse(Trim(Numbers.Print(n)), USIZE_MAX) == Some(n)
    ensures '-' !in Numbers.Print(n)
  {
    Numbers.PrintTrim(n);
    Numbers.ParsePrint(n, USIZE_MAX);
  }

  /** A printed range is read back as everything between its ends: all the
      lines it was made from, and exactly those when they are consecutive. */
  lemma RangeIsHull(ns: seq<nat>)
    requires ns != [] && forall n :: n in ns ==> n <= USIZE_MAX
    ensures ParseLineRange(LineRange(ns)) == Span(MinOf(ns), MaxOf(ns))
    ensures forall n :: n in ns ==> n in ParseLineRange(LineRange(ns))
    ensures (forall n :: n in ParseLineRange(LineRange(ns)) ==> n in ns) <==>
            forall n :: MinOf(ns) <= n <= MaxOf(ns) ==> n in ns
  {
    hide Trim, Numbers.Parse, Numbers.Print, Find;
    var low, high := MinOf(ns), MaxOf(ns);
    ParseNumber(low);
    ParseNumber(high);
    var a, b := Numbers.Print(low), Numbers.Print(high);
    FindChar(a, '-', b, 0);
    if |ns| == 1 {
      assert Span(low, high) == [ns[0]];
    } else {
      var range := a + "-" + b;
      assert range[..|a|] == a && range[|a| + 1..] == b;
    }
  }

  // ----- stubs --------------------------------------------------------------------------

  /** Nothing but quiet lines before the next header of the level or above. */
  predicate QuietLines(lines: seq<string>, level: nat) {
    || lines == []
    || AtMost(TagOf(lines[0]), level)
    || (TagOf(lines[0]) == Body(Quiet) && QuietLines(lines[1..], level))
  }

  /** The header lines without a body. */
  function StubTexts(lines: seq<string>): set<string> {
    if lines == [] then {}
    else
      var tag := TagOf(lines[0]);
      (if tag.Header? && QuietLines(lines[1..], tag.level) then {lines[0]} else {}) + StubTexts(lines[1..])
  }

  lemma {:induction false} QuietLinesFrom(lines: seq<string>, j: nat, level: nat)
    requires j <= |lines|
    ensures var tags := Tags(lines);
            QuietLines(lines[j..], level) <==> ScanKind(tags[j..NextAtMost(tags, j, level)]) == Quiet
    decreases |lines| - j
  {
    hide TagOf;
    var tags := Tags(lines);
    var e := NextAtMost(tags, j, level);
    if j < |lines| {
      assert lines[j..][0] == lines[j] && lines[j..][1..] == lines[j + 1..];
      QuietLinesFrom(lines, j + 1, level);
      if !AtMost(tags[j], level) {
        assert tags[j..e] == [tags[j]] + tags[j + 1..e];
        assert tags[j..e][0] == tags[j] && tags[j..e][1..] == tags[j + 1..e];
      }
    }
  }

  /** The stubs are what the filter would strip. */
  lemma {:induction false} StubsAreDrops(lines: seq<string>, j: nat, h: string)
    requires j <= |lines|
    ensures h in StubTexts(lines[j..]) <==> exists i :: j <= i < |lines| && Drops(Tags(lines), i) && lines[i] == h
    decreases |lines| - j
  {
    hide TagOf, QuietLines;
    if j < |lines| {
      StubsAreDrops(lines, j + 1, h);
      assert lines[j..][0] == lines[j] && lines[j..][1..] == lines[j + 1..];
      var tag := TagOf(lines[j]);
      if tag.Header? {
        QuietLinesFrom(lines, j + 1, tag.level);
      }
    }
  }

  lemma {:induction false} DroppedAre(lines: seq<string>, i: nat, h: string)
    requires i <= |lines|
    ensures h in DroppedHeaders(lines, Tags(lines), i) <==>
            exists k :: 0 <= k < i && Drops(Tags(lines), k) && lines[k] == h
  {
    hide Drops, TagOf;
    if i > 0 {
      DroppedAre(lines, i - 1, h);
      var before := DroppedHeaders(lines, Tags(lines), i - 1);
      assert DroppedHeaders(lines, Tags(lines), i) ==
             if Drops(Tags(lines), i - 1) then before + [lines[i - 1]] else before;
    }
  }

  lemma StubsAreStripped(lines: seq<string>)
    ensures forall h :: h in StubTexts(lines) <==> h in StrippedHeaders(lines)
  {
    hide StubTexts, Drops, DroppedHeaders;
    assert lines[0..] == lines;
    forall h
      ensures h in StubTexts(lines) <==> h in StrippedHeaders(lines)
    {
      StubsAreDrops(lines, 0, h);
      DroppedAre(lines, |lines|, h);
    }
  }

  // ----- more removals, more stubs --------------------------------------------------------

  /** No line of the set is a header. */
  ghost predicate HeaderFree(lines: seq<string>, removed: set<nat>) {
    forall n :: 1 <= n <= |lines| && n in removed ==> TagOf(lines[n - 1]).Body?
  }

  lemma {:induction false} QuietGrows(lines: seq<string>, a: set<nat>, b: set<nat>, i: nat, level: nat)
    requires i <= |lines| && a <= b && HeaderFree(lines, b)
    requires QuietLines(Remaining(lines, a, i), level)
    ensures QuietLines(Remaining(lines, b, i), level)
    decreases |lines| - i
  {
    hide TagOf;
    if i < |lines| {
      var ra, rb := Remaining(lines, a, i + 1), Remaining(lines, b, i + 1);
      assert ([lines[i]] + ra)[1..] == ra && ([lines[i]] + rb)[1..] == rb;
      if i + 1 in a || !AtMost(TagOf(lines[i]), level) {
        QuietGrows(lines, a, b, i + 1, level);
      }
    }
  }

  lemma {:induction false} StubsGrow(lines: seq<string>, a: set<nat>, b: set<nat>, i: nat)
    requires i <= |lines| && a <= b && HeaderFree(lines, b)
    ensures StubTexts(Remaining(lines, a, i)) <= StubTexts(Remaining(lines, b, i))
    decreases |lines| - i
  {
    hide TagOf, QuietLines;
    if i < |lines| {
      StubsGrow(lines, a, b, i + 1);
      var ra, rb := Remaining(lines, a, i + 1), Remaining(lines, b, i + 1);
      assert ([lines[i]] + ra)[1..] == ra && ([lines[i]] + rb)[1..] == rb;
      var tag := TagOf(lines[i]);
      if i + 1 !in a && tag.Header? && QuietLines(ra, tag.level) {
        QuietGrows(lines, a, b, i + 1, tag.level);
      }
    }
  }

  // ----- which headers are left without a body ------------------------------------------------

  /** Of the lines that a removal leaves, those from index `j` on are quiet up to
      the next one that is a header of the level or above. */
  ghost predicate QuietUpTo(lines: seq<string>, removed: set<nat>, j: nat, level: nat) {
    exists e: nat :: EndsQuiet(lines, removed, j, level, e)
  }

  ghost predicate EndsQuiet(lines: seq<string>, removed: set<nat>, j: nat, level: nat, e: nat) {
    && j <= e <= |lines|
    && (e < |lines| ==> e + 1 !in removed && AtMost(TagOf(lines[e]), level))
    && forall k :: j <= k < e && LeftAt(removed, k) ==> TagOf(lines[k]) == Body(Quiet)
  }

  ghost predicate LeftAt(removed: set<nat>, k: nat) {
    k + 1 !in removed
  }

  lemma {:induction false} QuietUpToIff(lines: seq<string>, removed: set<nat>, j: nat, level: nat)
    requires j <= |lines|
    ensures QuietLines(Remaining(lines, removed, j), level) <==> QuietUpTo(lines, removed, j, level)
    decreases |lines| - j
  {
    hide TagOf;
    if j == |lines| {
      assert EndsQuiet(lines, removed, j, level, j);
    } else {
      QuietUpToIff(lines, removed, j + 1, level);
      var rest := Remaining(lines, removed, j + 1);
      assert ([lines[j]] + rest)[1..] == rest;
      if LeftAt(removed, j) && AtMost(TagOf(lines[j]), level) {
        assert EndsQuiet(lines, removed, j, level, j);
      } else {
        var next := j + 1;
        if e: nat :| EndsQuiet(lines, removed, j, level, e) {
          assert e > j;
          assert EndsQuiet(lines, removed, next, level, e);
          assert LeftAt(removed, j) ==> TagOf(lines[j]) == Body(Quiet);
        }
        if e: nat :| EndsQuiet(lines, removed, next, level, e) {
          assert !LeftAt(removed, j) || TagOf(lines[j]) == Body(Quiet) ==> EndsQuiet(lines, removed, j, level, e);
        }
      }
    }
  }

  /** The line is left, is a header, and has no body left. */
  ghost predicate EmptiedAt(lines: seq<string>, removed: set<nat>, i: nat) {
    && i < |lines| && LeftAt(removed, i) && TagOf(lines[i]).Header?
    && QuietUpTo(lines, removed, i + 1, TagOf(lines[i]).level)
  }

  lemma {:induction false} StubsAreEmptied(lines: seq<string>, removed: set<nat>, j: nat, h: string)
    requires j <= |lines|
    ensures h in StubTexts(Remaining(lines, removed, j)) <==>
            exists i :: j <= i < |lines| && EmptiedAt(lines, removed, i) && lines[i] == h
    decreases |lines| - j
  {
    hide TagOf, QuietLines, QuietUpTo;
    if j < |lines| {
      StubsAreEmptied(lines, removed, j + 1, h);
      var rest := Remaining(lines, removed, j + 1);
      assert ([lines[j]] + rest)[1..] == rest;
      if TagOf(lines[j]).Header? {
        QuietUpToIff(lines, removed, j + 1, TagOf(lines[j]).level);
      }
    }
  }

  // ----- the check ---------------------------------------------------------------------------

  function SetOf<T>(xs: seq<T>): set<T> {
    set x | x in xs
  }

  /** The text after a removal, as the check builds it. */
  function AfterRemoval(content: string, removed: set<nat>): string {
    Join(Remaining(Lines(content), removed, 0), "\n")
  }

  /** The headers that a removal would newly leave without a body. */
  function RiskOf(content: string, removed: set<nat>): set<string> {
    SetOf(StrippedHeaders(Lines(AfterRemoval(content, removed)))) - SetOf(StrippedHeaders(Lines(content)))
  }

  /** The filter runs into a lone bar, before or after the removal. */
  ghost predicate CheckPanics(content: string, removed: set<nat>) {
    Crashes(Tags(Lines(content))) || Crashes(Tags(Lines(AfterRemoval(content, removed))))
  }

  method HeadersWithEmptyBody(content: string) returns (r: Outcome<set<string>>)
    ensures r.Panic? <==> Crashes(Tags(Lines(content)))
    ensures r.Done? ==> r.value == SetOf(StrippedHeaders(Lines(content)))
  {
    hide TagOf, Lines;
    var res := StripEmptySections(content);
    if res.Panic? {
      return Panic;
    }
    return Done(SetOf(res.value.strippedHeaders));
  }

  /** `compute_stub_risk`, on the text of the file if it can be read. */
  method ComputeStubRisk(file: Option<string>, removed: seq<nat>) returns (r: Outcome<seq<string>>)
    ensures file.None? ==> r == Done([])
    ensures file.Some? ==>
              var set_ := SetOf(removed);
              && (r.Panic? <==> CheckPanics(file.value, set_))
              && (r.Done? ==> r.value == Sorted(RiskOf(file.value, set_)))
  {
    hide TagOf, Lines, StrippedHeaders, Crashes;
    if file.None? {
      return Done([]);
    }
    var removedSet := SetOf(removed);
    var lines := Lines(file.value);
    var post: seq<string> := [];
    for i := 0 to |lines|
      invariant post + Remaining(lines, removedSet, i) == Remaining(lines, removedSet, 0)
    {
      if i + 1 !in removedSet {
        SeqAssoc(post, [lines[i]], Remaining(lines, removedSet, i + 1));
        post := post + [lines[i]];
      }
    }
    assert post == Remaining(lines, removedSet, 0);
    var before := HeadersWithEmptyBody(file.value);
    if before.Panic? {
      return Panic;
    }
    var after := HeadersWithEmptyBody(Join(post, "\n"));
    if after.Panic? {
      return Panic;
    }
    var names := SortNames(after.value - before.value);
    return Done(names);
  }

  lemma {:induction false} RemainingFrom(lines: seq<string>, removed: set<nat>, i: nat, l: string)
    requires i <= |lines| && l in Remaining(lines, removed, i)
    ensures l in lines
    decreases |lines| - i
  {
    if i + 1 in removed || l != lines[i] {
      RemainingFrom(lines, removed, i + 1, l);
    }
  }

  lemma {:induction false} QuietTrailingBlank(lines: seq<string>, level: nat)
    ensures QuietLines(lines + [""], level) == QuietLines(lines, level)
  {
    hide TagOf;
    FilterPasses.BlankTag();
    if lines != [] {
      assert (lines + [""])[1..] == lines[1..] + [""];
      QuietTrailingBlank(lines[1..], level);
    } else {
      assert ([] + [""])[1..] == [];
    }
  }

  lemma {:induction false} StubsTrailingBlank(lines: seq<string>)
    ensures StubTexts(lines + [""]) == StubTexts(lines)
  {
    hide TagOf, QuietLines;
    FilterPasses.BlankTag();
    if lines != [] {
      assert (lines + [""])[1..] == lines[1..] + [""];
      StubsTrailingBlank(lines[1..]);
      if TagOf(lines[0]).Header? {
        QuietTrailingBlank(lines[1..], TagOf(lines[0]).level);
      }
    } else {
      assert ([] + [""])[1..] == [];
    }
  }

  /** A line that is a header once a carriage return at its end is gone, and so
      changes its name, at least, when it is read back. */
  predicate Renamed(line: string) {
    EndsWith(line, '\r') && IsHeader(StripCR(line))
  }

  /** A text in which no header changes its name. Its other lines may end in
      carriage returns. */
  ghost predicate NamesKeep(content: string) {
    forall l :: l in Lines(content) ==> !Renamed(l)
  }

  lemma KeptLineTag(line: string)
    requires !Renamed(line) && '\n' !in line
    ensures TagOf(StripCR(line)) == TagOf(line) && (TagOf(line).Header? ==> StripCR(line) == line)
  {
    hide TagOf, IsHeader, Fading, Returns;
    if EndsWith(line, '\r') {
      if Fading(line) {
        FadingIsContent(line);
        FadingStripped(line);
      } else {
        TagSteady(line);
      }
      TagOfHeader(StripCR(line));
    }
  }

  /** A fading line loses one of its carriage returns. */
  lemma FadingStripped(line: string)
    requires Fading(line) && '\n' !in line && EndsWith(line, '\r')
    ensures TagOf(StripCR(line)) == Body(Content) || TagOf(StripCR(line)).Header?
  {
    hide TagOf, IsCore, Fading;
    var core, n := FadingIs(line);
    assert line[..|line| - 1] == core + Returns(n - 1);
    CoreTag(core, n - 1);
  }

  lemma {:induction false} QuietRead(read: seq<string>, lines: seq<string>, level: nat)
    requires |read| == |lines| && forall i :: 0 <= i < |lines| ==> TagOf(read[i]) == TagOf(lines[i])
    ensures QuietLines(read, level) == QuietLines(lines, level)
  {
    hide TagOf;
    if lines != [] {
      var r, l := read[1..], lines[1..];
      assert forall i :: 0 <= i < |l| ==> r[i] == read[i + 1] && l[i] == lines[i + 1];
      QuietRead(r, l, level);
    }
  }

  lemma {:induction false} StubsRead(read: seq<string>, lines: seq<string>)
    requires |read| == |lines|
    requires forall i :: 0 <= i < |lines| ==>
               TagOf(read[i]) == TagOf(lines[i]) && (TagOf(lines[i]).Header? ==> read[i] == lines[i])
    ensures StubTexts(read) == StubTexts(lines)
  {
    hide TagOf, QuietLines;
    if lines != [] {
      var r, l := read[1..], lines[1..];
      assert forall i :: 0 <= i < |l| ==> r[i] == read[i + 1] && l[i] == lines[i + 1];
      StubsRead(r, l);
      if TagOf(lines[0]).Header? {
        QuietRead(r, l, TagOf(lines[0]).level);
      }
    }
  }

  /** What the filter sees after a removal. */
  lemma StubsAfterRemoval(content: string, removed: set<nat>)
    requires NamesKeep(content)
    ensures SetOf(StrippedHeaders(Lines(AfterRemoval(content, removed))))
            == StubTexts(Remaining(Lines(content), removed, 0))
  {
    hide TagOf, Lines, StubTexts, StrippedHeaders, Renamed, ReadsAs, StripCR;
    var lines := Lines(content);
    var kept := Remaining(lines, removed, 0);
    var out := Lines(AfterRemoval(content, removed));
    StubsAreStripped(out);
    if kept == [] {
      LinesEmptyIff("");
      assert out == [];
      return;
    }
    LinesHaveNoNewlines(content);
    forall l | l in kept
      ensures '\n' !in l && !Renamed(l)
    {
      RemainingFrom(lines, removed, 0, l);
    }
    JoinedReadsAs(kept);
    StubsTrailingBlank(out);
    var read := if ReadsAs(out, kept) then out else out + [""];
    ReadTags(read, kept);
    StubsRead(read, kept);
  }

  lemma JoinedReadsAs(kept: seq<string>)
    requires NoNewlines(kept) && kept != []
    ensures var out := Lines(Join(kept, "\n")); ReadsAs(out, kept) || ReadsAs(out + [""], kept)
  {
    hide Lines, StripCR, Join;
    FilterPasses.JoinedReads(kept);
    var front, last := kept[..|kept| - 1], kept[|kept| - 1];
    assert kept == front + [last];
  }

  lemma ReadTags(read: seq<string>, lines: seq<string>)
    requires ReadsAs(read, lines) && forall l :: l in lines ==> '\n' !in l && !Renamed(l)
    ensures |read| == |lines|
    ensures forall i :: 0 <= i < |lines| ==>
              TagOf(read[i]) == TagOf(lines[i]) && (TagOf(lines[i]).Header? ==> read[i] == lines[i])
  {
    hide TagOf, Renamed, StripCR;
    forall i | 0 <= i < |lines|
      ensures TagOf(read[i]) == TagOf(lines[i]) && (TagOf(lines[i]).Header? ==> read[i] == lines[i])
    {
      assert lines[i] in lines;
      KeptLineTag(lines[i]);
    }
  }

  /** More removals never hide a warning, as long as no header goes. */
  lemma RiskGrows(content: string, a: set<nat>, b: set<nat>)
    requires NamesKeep(content) && a <= b && HeaderFree(Lines(content), b)
    ensures RiskOf(content, a) <= RiskOf(content, b)
  {
    hide TagOf, Lines, StubTexts, StrippedHeaders, AfterRemoval, NamesKeep, HeaderFree;
    StubsAfterRemoval(content, a);
    StubsAfterRemoval(content, b);
    StubsGrow(Lines(content), a, b, 0);
  }

  /** A header that one removal newly leaves without a body is reported for
      another, larger or not, exactly if some line that reads so is left by it
      without a body. */
  lemma ReportedIff(content: string, exact: set<nat>, planned: set<nat>, h: string)
    requires NamesKeep(content) && h in RiskOf(content, exact)
    ensures h in RiskOf(content, planned) <==>
            exists i :: 0 <= i < |Lines(content)| && EmptiedAt(Lines(content), planned, i) && Lines(content)[i] == h
  {
    hide TagOf, Lines, StubTexts, StrippedHeaders, AfterRemoval, NamesKeep, EmptiedAt;
    StubsAfterRemoval(content, planned);
    StubsAreEmptied(Lines(content), planned, 0, h);
  }

  /** The lines that proposals are about are never headers. */
  lemma DuplicatesAreNotHeaders(docs: Docs, clusters: seq<Cluster>, f: string, n: nat)
    requires IsScan(docs, clusters) && Removes(clusters, f, n)
    ensures f in docs && 1 <= n <= |docs[f]| && !IsHeader(docs[f][n - 1])
  {
    hide Removes, IsScan, IsStructuralLine;
    OnlyTextIsRemoved(docs, clusters, f, n);
    HeadersAreStructural(docs[f][n - 1]);
  }

  lemma HeadersAreStructural(line: string)
    ensures IsHeader(line) ==> IsStructuralLine(line)
  {
    if IsHeader(line) {
      var t := TrimStart(line);
      assert t[0] == '#';
      TrimEndKeepsFront(t);
    }
  }
}
