/** Repeating `strip_empty_sections` on a text (`src/brain/filter.rs`). */
module FilterPasses {
  import opened Text
  import opened Sections
  import opened Passes
  import opened Filter
  import opened SteadyLines

  /** One call, as a function of the text. */
  ghost function Strip(content: string): Outcome<string> {
    if Crashes(Tags(Lines(content))) then Panic else Done(Stripped(content).content)
  }

  ghost function StripTimes(content: string, n: nat): Outcome<string> {
    if n == 0 then Done(content)
    else
      var before := StripTimes(content, n - 1);
      if before.Panic? then Panic else Strip(before.value)
  }

  function Heads(content: string): seq<Head> {
    Outline(Tags(Lines(content)))
  }

  // ----- reading the output back ----------------------------------------------

  lemma {:induction false} KeepTags(lines: seq<string>, tags: seq<Tag>, i: nat)
    requires tags == Tags(lines) && i <= |lines|
    ensures Tags(Keep(lines, tags, i, |lines|)) == Keep(tags, tags, i, |tags|)
    decreases |lines| - i
  {
    hide TagOf;
    if i < |lines| {
      KeepTags(lines, tags, i + 1);
    }
  }

  lemma {:induction false} OutlineTrailingBlank(tags: seq<Tag>)
    ensures Outline(tags + [Body(Quiet)]) == Outline(tags)
    ensures RunKind(tags + [Body(Quiet)]) == RunKind(tags)
  {
    var t := tags + [Body(Quiet)];
    if tags == [] {
      assert t[1..] == [];
    } else {
      assert t[1..] == tags[1..] + [Body(Quiet)];
      OutlineTrailingBlank(tags[1..]);
    }
  }

  /** Joined lines, left open or closed, are read back as they were, except
      that an open last line that is blank is lost. */
  lemma JoinedLines(kept: seq<string>)
    requires CleanLines(kept) && kept != []
    ensures var out := Lines(Join(kept, "\n")); out == kept || kept == out + [""]
    ensures Lines(Join(kept, "\n") + "\n") == kept
  {
    hide Join, Unlines, Lines;
    var front, last := kept[..|kept| - 1], kept[|kept| - 1];
    assert kept == front + [last];
    JoinUnlines(kept);
    LinesUnlinesClean(kept);
    assert last in kept && forall l :: l in front ==> l in kept;
    LinesOpenEnd(front, last);
    assert StripCRs(front) == front by {
      assert forall i :: 0 <= i < |front| ==> front[i] in front;
    }
  }

  /** The same for any lines: those that are closed lose a carriage return. */
  lemma JoinedReads(kept: seq<string>)
    requires NoNewlines(kept) && kept != []
    ensures var front, last := kept[..|kept| - 1], kept[|kept| - 1];
            Lines(Join(kept, "\n")) == StripCRs(front) + (if last == "" then [] else [last])
    ensures Lines(Join(kept, "\n") + "\n") == StripCRs(kept)
  {
    hide Join, Unlines, Lines, StripCRs;
    var front, last := kept[..|kept| - 1], kept[|kept| - 1];
    assert kept == front + [last];
    assert last in kept && forall l :: l in front ==> l in kept;
    JoinUnlines(kept);
    LinesUnlines(kept);
    LinesOpenEnd(front, last);
  }

  /** The output is read back as the kept lines, some of them without a
      carriage return, and give or take one blank line at the end. */
  lemma WrittenLines(content: string, kept: seq<string>)
    requires NoNewlines(kept)
    ensures var out := Lines(Written(content, kept));
            ReadsAs(out, kept) || ReadsAs(out + [""], kept) || ReadsAs(out, kept + [""])
  {
    hide Lines, NoNewlines, StripCR;
    var joined := Join(kept, "\n");
    var out := Lines(Written(content, kept));
    assert Written(content, kept) == joined || Written(content, kept) == joined + "\n";
    if kept == [] {
      assert joined == "" && "\n" + "" == "\n" && joined + "\n" == "\n";
      LinesEmptyIff("");
      LinesLeadingNewline("");
    } else {
      JoinedReads(kept);
      var front, last := kept[..|kept| - 1], kept[|kept| - 1];
      assert kept == front + [last];
    }
  }

  lemma BlankTag()
    ensures TagOf("") == Body(Quiet)
  {
  }

  lemma OutlineUpToBlank(out: seq<string>, kept: seq<string>)
    requires ReadsAs(out, kept) || ReadsAs(out + [""], kept) || ReadsAs(out, kept + [""])
    requires SteadyAll(kept)
    ensures Outline(Tags(out)) == Outline(Tags(kept)) && SteadyAll(out)
  {
    hide TagOf, Fading, ReadsAs;
    BlankTag();
    BlankIsSteady();
    if ReadsAs(out, kept) {
      SteadyTags(out, kept);
    } else if ReadsAs(out + [""], kept) {
      SteadyTags(out + [""], kept);
      assert Tags(out + [""]) == Tags(out) + [Body(Quiet)];
      OutlineTrailingBlank(Tags(out));
      assert forall l :: l in out ==> l in out + [""];
    } else {
      SteadyTags(out, kept + [""]);
      assert Tags(kept + [""]) == Tags(kept) + [Body(Quiet)];
      OutlineTrailingBlank(Tags(kept));
    }
  }

  lemma BlankIsSteady()
    ensures !Fading("")
  {
  }

  lemma KeptSteady(content: string)
    requires Steady(content)
    ensures SteadyAll(KeptLines(Lines(content)))
  {
    hide Tags, Fading;
    var lines := Lines(content);
    forall l | l in KeptLines(lines)
      ensures !Fading(l)
    {
      KeepFrom(lines, Tags(lines), 0, |lines|, l);
    }
  }

  lemma KeptOneLine(content: string)
    ensures NoNewlines(KeptLines(Lines(content)))
  {
    hide Tags;
    var lines := Lines(content);
    LinesHaveNoNewlines(content);
    forall l | l in KeptLines(lines)
      ensures '\n' !in l
    {
      KeepFrom(lines, Tags(lines), 0, |lines|, l);
    }
  }

  /** One call on a steady text is one pass over its outline, and its result is
      steady again. */
  lemma StripIsPass(content: string)
    requires Steady(content)
    ensures Steady(Stripped(content).content)
    ensures Heads(Stripped(content).content) == PassOutline(Heads(content))
  {
    hide Tags, Fading, ReadsAs, SteadyAll;
    var lines := Lines(content);
    var tags := Tags(lines);
    var kept := KeptLines(lines);
    KeepTags(lines, tags, 0);
    OutlineOfPass(tags);
    if AnyDrops(tags) {
      KeptSteady(content);
      KeptOneLine(content);
      WrittenLines(content, kept);
      OutlineUpToBlank(Lines(Written(content, kept)), kept);
    } else {
      NothingDropsNothingGoes(tags, 0);
    }
  }

  lemma {:induction false} NothingDropsNothingGoes(tags: seq<Tag>, i: nat)
    requires !AnyDrops(tags) && i <= |tags|
    ensures Keep(tags, tags, i, |tags|) == tags[i..]
  {
    forall j | i <= j < |tags|
      ensures !Dropped(tags, j)
    {
      if Dropped(tags, j) {
        var k := DroppedHasHeader(tags, j);
      }
    }
    KeepAll(tags, tags, i, |tags|);
  }

  // ----- levels ------------------------------------------------------------------

  lemma {:induction false} OutlineOfAtx(tags: seq<Tag>)
    requires forall i :: 0 <= i < |tags| && tags[i].Header? ==> 2 <= tags[i].level <= 6
    ensures AtxLevels(Outline(tags))
  {
    if tags != [] {
      OutlineOfAtx(tags[1..]);
    }
  }

  lemma OutlineLevels(lines: seq<string>)
    ensures AtxLevels(Outline(Tags(lines)))
  {
    hide TagOf;
    forall i | 0 <= i < |lines| && Tags(lines)[i].Header?
      ensures 2 <= Tags(lines)[i].level <= 6
    {
      LevelRange(lines[i]);
    }
    OutlineOfAtx(Tags(lines));
  }

  lemma LevelRange(line: string)
    ensures TagOf(line).Header? ==> 2 <= TagOf(line).level <= 6
  {
    hide LineKind;
  }

  // ----- crashes -------------------------------------------------------------------

  ghost predicate CrashHead(heads: seq<Head>) {
    exists h :: h in heads && h.kind == Crash
  }

  /** A header whose scan crashes is never dropped, and none comes new. */
  lemma {:induction false} PassKeepsCrashes(heads: seq<Head>)
    ensures CrashHead(PassOutline(heads)) <==> CrashHead(heads)
  {
    if heads != [] {
      PassKeepsCrashes(heads[1..]);
      var rest := heads[1..];
      assert heads == [heads[0]] + rest;
      if FirstDrops(heads) {
        if h :| h in heads && h.kind == Crash {
          assert h in rest;
        }
      } else {
        assert PassOutline(heads) == [heads[0]] + PassOutline(rest);
        if h :| h in heads && h.kind == Crash {
          if h == heads[0] {
            assert h in PassOutline(heads);
          } else {
            assert h in rest;
          }
        }
        if h :| h in PassOutline(rest) && h.kind == Crash {
          assert h in PassOutline(heads);
        }
        if h :| h in PassOutline(heads) && h.kind == Crash {
          assert h == heads[0] || h in PassOutline(rest);
        }
      }
    }
  }

  /** Whether a call aborts can be read off the outline. */
  lemma StripPanics(content: string)
    ensures Strip(content).Panic? <==> CrashHead(Heads(content))
  {
    hide Tags, Stripped, Lines;
    CrashOutline(Tags(Lines(content)));
  }

  // ----- the main results --------------------------------------------------------

  lemma OneCall(content: string)
    requires Steady(content) && !CrashHead(Heads(content))
    ensures var r := Strip(content);
            && r.Done? && Steady(r.value)
            && Heads(r.value) == PassOutline(Heads(content))
            && !CrashHead(Heads(r.value))
  {
    StripPanics(content);
    StripIsPass(content);
    hide Heads, Stripped, CrashHead, Steady, Crashes, Tags, Lines;
    PassKeepsCrashes(Heads(content));
  }

  /** After `n` calls: the outline has been passed over `n` times. */
  lemma {:induction false} AfterCalls(content: string, n: nat)
    requires Steady(content) && !CrashHead(Heads(content))
    ensures var r := StripTimes(content, n);
            && r.Done? && Steady(r.value)
            && Heads(r.value) == Passed(Heads(content), n)
            && !CrashHead(Heads(r.value))
  {
    hide Heads, Strip, CrashHead, Steady;
    if n > 0 {
      AfterCalls(content, n - 1);
      OneCall(StripTimes(content, n - 1).value);
    }
  }

  /** A call leaves a text, any text, as it is iff no header in it has an empty
      region. */
  lemma FixpointIff(content: string)
    requires !CrashHead(Heads(content))
    ensures Strip(content) == Done(content) <==> PassOutline(Heads(content)) == Heads(content)
    ensures Strip(content) == Done(content) <==> !AnyDrops(Tags(Lines(content)))
  {
    hide Tags, Lines, HeadLines, CrashHead, Crashes, Drops;
    StripPanics(content);
    var tags := Tags(Lines(content));
    if AnyDrops(tags) {
      DropsShorten(tags);
      CallShortens(content);
    } else {
      NothingDropsNothingGoes(tags, 0);
      OutlineOfPass(tags);
      assert tags[0..] == tags;
    }
  }

  lemma DropsShorten(tags: seq<Tag>)
    requires AnyDrops(tags)
    ensures PassOutline(Outline(tags)) != Outline(tags)
  {
    var i :| 0 <= i < |tags| && Drops(tags, i);
    OutlineSuffix(tags, i);
    var heads, k := Outline(tags), |Outline(tags)| - |Outline(tags[i..])|;
    RegionOutline(tags, i);
    assert OutlineDrops(heads, k);
    PassShortens(heads);
  }

  lemma {:induction false} OutlineSuffix(tags: seq<Tag>, i: nat)
    requires i <= |tags|
    ensures |Outline(tags[i..])| <= |Outline(tags)|
    ensures Outline(tags)[|Outline(tags)| - |Outline(tags[i..])|..] == Outline(tags[i..])
  {
    if i == 0 {
      assert tags[0..] == tags;
    } else {
      OutlineSuffix(tags[1..], i - 1);
      assert tags[1..][i - 1..] == tags[i..];
    }
  }

  /** Five calls always reach a fixpoint; after `k` of them no header of level
      `7 - k` or deeper has an empty region. A text that makes a later call
      abort makes the first one abort. */
  lemma FivePasses(content: string, n: nat)
    requires Steady(content)
    ensures CrashHead(Heads(content)) && n > 0 ==> StripTimes(content, n).Panic?
    ensures !CrashHead(Heads(content)) && n >= 5 ==>
              && StripTimes(content, n).Done?
              && StripTimes(content, n) == StripTimes(content, 5)
              && Strip(StripTimes(content, n).value) == StripTimes(content, n)
    ensures !CrashHead(Heads(content)) && n <= 7 ==>
              && StripTimes(content, n).Done?
              && SettledFrom(Heads(StripTimes(content, n).value), 7 - n)
  {
    hide Stripped;
    if CrashHead(Heads(content)) {
      if n > 0 {
        FirstCallPanics(content, n);
      }
    } else {
      OutlineLevels(Lines(content));
      hide Heads, Strip, CrashHead, Steady;
      AfterCalls(content, n);
      if n <= 7 {
        SettledAfter(Heads(content), n);
      }
      if n >= 5 {
        StableAfterFive(content, n);
      }
    }
  }

  lemma {:induction false} FirstCallPanics(content: string, n: nat)
    requires CrashHead(Heads(content)) && n > 0
    ensures StripTimes(content, n).Panic?
  {
    hide Heads, CrashHead, Crashes, Tags, Lines;
    if n == 1 {
      StripPanics(content);
      assert StripTimes(content, 0) == Done(content);
    } else {
      FirstCallPanics(content, n - 1);
    }
  }

  lemma {:induction false} StableAfterFive(content: string, n: nat)
    requires Steady(content) && !CrashHead(Heads(content)) && AtxLevels(Heads(content)) && n >= 5
    ensures StripTimes(content, n).Done?
    ensures StripTimes(content, n) == StripTimes(content, 5)
    ensures Strip(StripTimes(content, n).value) == StripTimes(content, n)
  {
    hide Heads, Strip, CrashHead, Steady;
    AfterCalls(content, n);
    FivePassesOutline(Heads(content), n);
    FixpointIff(StripTimes(content, n).value);
    if n > 5 {
      StableAfterFive(content, n - 1);
    }
  }

  // ----- any text ---------------------------------------------------------------------

  /** A pass that drops something leaves fewer lines that are or may become
      headers. */
  lemma {:induction false} KeptHeadLines(lines: seq<string>, i: nat)
    requires i <= |lines|
    ensures var tags := Tags(lines);
            && HeadLines(Keep(lines, tags, i, |lines|)) <= HeadLines(lines[i..])
            && ((exists k :: i <= k < |lines| && Drops(tags, k)) ==>
                  HeadLines(Keep(lines, tags, i, |lines|)) < HeadLines(lines[i..]))
    decreases |lines| - i
  {
    hide TagOf, MayHead, RegionKind;
    var tags := Tags(lines);
    if i < |lines| {
      KeptHeadLines(lines, i + 1);
      assert lines[i..][0] == lines[i] && lines[i..][1..] == lines[i + 1..];
      var rest := Keep(lines, tags, i + 1, |lines|);
      if Dropped(tags, i) {
        if Drops(tags, i) {
          HeaderMayHead(lines[i]);
        }
      } else {
        assert ([lines[i]] + rest)[1..] == rest;
        assert !Drops(tags, i);
      }
    }
  }

  lemma HeaderMayHead(line: string)
    requires TagOf(line).Header?
    ensures MayHead(line)
  {
    hide Fading, HeaderLevel, LineKind;
  }

  /** Every call that changes the text leaves fewer such lines in it. */
  lemma CallShortens(content: string)
    requires AnyDrops(Tags(Lines(content)))
    ensures HeadLines(Lines(Stripped(content).content)) < HeadLines(Lines(content))
  {
    hide Tags, MayHead, ReadsAs, Lines, Drops;
    var lines := Lines(content);
    var kept := KeptLines(lines);
    KeptHeadLines(lines, 0);
    assert lines[0..] == lines;
    KeptOneLine(content);
    WrittenLines(content, kept);
    var out := Lines(Written(content, kept));
    HeadLinesBlank(out);
    HeadLinesBlank(kept);
    if ReadsAs(out, kept) {
      HeadLinesRead(out, kept);
    } else if ReadsAs(out + [""], kept) {
      HeadLinesRead(out + [""], kept);
    } else {
      HeadLinesRead(out, kept + [""]);
    }
  }

  lemma NoHeadLines(lines: seq<string>, i: nat)
    requires HeadLines(lines) == 0 && i < |lines|
    ensures !MayHead(lines[i])
  {
    hide MayHead;
    if i > 0 {
      NoHeadLines(lines[1..], i - 1);
    }
  }

  lemma HeadlessIsFixed(content: string)
    requires HeadLines(Lines(content)) == 0
    ensures Strip(content) == Done(content)
  {
    hide TagOf, MayHead, RegionKind, HeadLines, Lines;
    var lines := Lines(content);
    forall i | 0 <= i < |lines|
      ensures !Tags(lines)[i].Header?
    {
      NoHeadLines(lines, i);
      if TagOf(lines[i]).Header? {
        HeaderMayHead(lines[i]);
      }
    }
  }

  lemma {:induction false} CallsShorten(content: string, n: nat)
    requires StripTimes(content, n).Done?
    ensures var r := StripTimes(content, n);
            Strip(r.value) == r || HeadLines(Lines(r.value)) + n <= HeadLines(Lines(content))
  {
    hide Strip, HeadLines, Lines;
    if n > 0 {
      CallsShorten(content, n - 1);
      OneCallShortens(StripTimes(content, n - 1).value);
    }
  }

  lemma OneCallShortens(content: string)
    requires Strip(content).Done?
    ensures Strip(content) == Done(content) || HeadLines(Lines(Strip(content).value)) < HeadLines(Lines(content))
  {
    hide Tags, HeadLines, Lines, Crashes, AnyDrops;
    if AnyDrops(Tags(Lines(content))) {
      CallShortens(content);
    }
  }

  /** Any text at all reaches a fixpoint, unless a call aborts, within as many
      calls as it has lines that are headers or fading. */
  lemma SettlesWithin(content: string, n: nat)
    requires n >= HeadLines(Lines(content))
    ensures var r := StripTimes(content, n); r.Panic? || Strip(r.value) == r
  {
    hide Strip, HeadLines, Lines;
    if StripTimes(content, n).Done? {
      CallsShorten(content, n);
      var r := StripTimes(content, n).value;
      if HeadLines(Lines(r)) == 0 {
        HeadlessIsFixed(r);
      }
    }
  }

  // ----- five is tight --------------------------------------------------------------

  const CHAIN_LINES: seq<string> := ["## a", "### a", "#### a", "##### a", "###### a"]

  lemma ChainTags()
    ensures Tags(CHAIN_LINES) == [Header(2), Header(3), Header(4), Header(5), Header(6)]
  {
    hide TagOf;
    HeaderTag("## a", 2);
    HeaderTag("### a", 3);
    HeaderTag("#### a", 4);
    HeaderTag("##### a", 5);
    HeaderTag("###### a", 6);
  }

  lemma HeaderTag(line: string, level: nat)
    requires 2 <= level <= 6 && |line| >= level
    requires forall k :: 0 <= k < level ==> line[k] == '#'
    requires |line| > level ==> line[level] == ' '
    ensures TagOf(line) == Header(level)
  {
    hide LineKind;
    assert TrimStart(line) == line;
    LeadingHashesIs(line, level);
  }

  lemma {:induction false} LeadingHashesIs(s: string, n: nat)
    requires n <= |s|
    requires forall k :: 0 <= k < n ==> s[k] == '#'
    requires n < |s| ==> s[n] != '#'
    ensures LeadingHashes(s) == n
  {
    if n > 0 {
      LeadingHashesIs(s[1..], n - 1);
    }
  }

  lemma {:induction false} ChainOutline(tags: seq<Tag>, first: nat)
    requires forall k :: 0 <= k < |tags| ==> tags[k] == Header(first + k)
    ensures Outline(tags) == Chain(first, |tags|)
    decreases |tags|
  {
    if tags != [] {
      ChainOutline(tags[1..], first + 1);
    }
  }

  lemma ChainText()
    ensures Tidy(Unlines(CHAIN_LINES)) && Steady(Unlines(CHAIN_LINES))
    ensures Heads(Unlines(CHAIN_LINES)) == Chain(2, 5)
  {
    ChainTags();
    hide TagOf, Unlines, Lines;
    ChainOutline(Tags(CHAIN_LINES), 2);
    assert CleanLines(CHAIN_LINES);
    LinesUnlinesClean(CHAIN_LINES);
    TidyIsSteady(Unlines(CHAIN_LINES));
  }

  /** A tidy text on which the fifth call still changes something. */
  lemma FiveIsTight()
    ensures var content := Unlines(CHAIN_LINES);
            && Tidy(content) && !CrashHead(Heads(content))
            && StripTimes(content, 4).Done?
            && Strip(StripTimes(content, 4).value) != StripTimes(content, 4)
  {
    ChainText();
    hide Heads, Strip, Unlines, CHAIN_LINES, Tidy, Steady, CrashHead;
    ChainHasNoCrash(2, 5);
    AfterCalls(Unlines(CHAIN_LINES), 4);
    ChainAfter(2, 5, 4);
    PassChain(2, 1);
    FixpointIff(StripTimes(Unlines(CHAIN_LINES), 4).value);
  }

  lemma {:induction false} ChainHasNoCrash(first: nat, n: nat)
    ensures !CrashHead(Chain(first, n))
    decreases n
  {
    if n > 0 {
      ChainHasNoCrash(first + 1, n - 1);
    }
  }

  // ----- with a fading line no number of calls is enough ----------------------------

  /** A header line with `n - i` carriage returns, for each `i` below `n`. */
  function Stairs(core: string, n: nat): (r: seq<string>)
    ensures |r| == n
    ensures forall i :: 0 <= i < n ==> r[i] == core + Returns(n - i)
  {
    seq(n, i requires 0 <= i < n => core + Returns(n - i))
  }

  lemma StripStair(core: string, k: nat)
    requires k > 0 && '\n' !in core
    ensures StripCR(core + Returns(k)) == core + Returns(k - 1)
    ensures '\n' !in core + Returns(k)
  {
    var line := core + Returns(k);
    assert EndsWith(line, '\r');
    assert line[..|line| - 1] == core + Returns(k - 1);
  }

  /** Read back, every step has one carriage return less. */
  lemma StairsRead(core: string, n: nat)
    requires '\n' !in core
    ensures var lines := Lines(Unlines(Stairs(core, n)));
            |lines| == n && forall i :: 0 <= i < n ==> lines[i] == core + Returns(n - 1 - i)
  {
    hide Lines, Unlines, StripCR, Returns;
    forall i | 0 <= i < n
      ensures StripCR(Stairs(core, n)[i]) == core + Returns(n - 1 - i)
      ensures '\n' !in Stairs(core, n)[i]
    {
      StripStair(core, n - i);
    }
    LinesUnlines(Stairs(core, n));
  }

  lemma {:induction false} LastHeaderDrops(xs: seq<string>, tags: seq<Tag>, i: nat)
    requires |xs| == |tags| > 0 && i < |tags|
    requires forall k :: 0 <= k < |tags| - 1 ==> tags[k] == Body(Content)
    requires tags[|tags| - 1].Header?
    ensures Keep(xs, tags, i, |tags|) == xs[i..|tags| - 1]
    ensures Drops(tags, |tags| - 1) && !CrashHead(Outline(tags))
  {
    var last := |tags| - 1;
    assert tags[last + 1..RegionEnd(tags, last)] == [];
    forall k | 0 <= k < last
      ensures !Dropped(tags, k)
    {
      if Dropped(tags, k) {
        var h := DroppedHasHeader(tags, k);
      }
    }
    KeepAll(xs, tags, i, last);
    KeepNone(xs, tags, last, |tags|);
    KeepSplit(xs, tags, i, last, |tags|);
    OutlineOfOneHeader(tags);
  }

  lemma {:induction false} OutlineOfOneHeader(tags: seq<Tag>)
    requires |tags| > 0
    requires forall k :: 0 <= k < |tags| - 1 ==> tags[k] == Body(Content)
    requires tags[|tags| - 1].Header?
    ensures Outline(tags) == [Head(tags[|tags| - 1].level, Quiet)]
  {
    if |tags| > 1 {
      OutlineOfOneHeader(tags[1..]);
    } else {
      assert tags[1..] == [];
    }
  }

  lemma StairsTags(core: string, n: nat)
    requires n > 0 && IsCore(core)
    ensures var lines := Lines(Unlines(Stairs(core, n)));
            && |lines| == n && lines[0..n - 1] == Stairs(core, n - 1)
            && Tags(lines)[n - 1].Header?
            && forall i :: 0 <= i < n - 1 ==> Tags(lines)[i] == Body(Content)
  {
    hide TagOf, Lines, Unlines, Returns, Fading, TrimStart;
    StairsRead(core, n);
    var lines := Lines(Unlines(Stairs(core, n)));
    forall i | 0 <= i < n
      ensures if i == n - 1 then Tags(lines)[i].Header? else Tags(lines)[i] == Body(Content)
    {
      CoreTag(core, n - 1 - i);
    }
    assert lines[0..n - 1] == Stairs(core, n - 1);
  }

  /** Each call takes one step off the stairs. */
  lemma StairsStep(core: string, n: nat)
    requires n >= 2 && IsCore(core)
    ensures Strip(Unlines(Stairs(core, n))) == Done(Unlines(Stairs(core, n - 1)))
  {
    hide TagOf, Tags, Lines, Stairs, CrashHead, Crashes, Unlines, IsCore;
    var content := Unlines(Stairs(core, n));
    StairsTags(core, n);
    LastHeaderDrops(Lines(content), Tags(Lines(content)), 0);
    StripPanics(content);
    StairsWritten(content, core, n - 1);
  }

  lemma StairsWritten(content: string, core: string, n: nat)
    requires n > 0 && content != "" && content == Unlines(Stairs(core, n + 1))
    ensures Written(content, Stairs(core, n)) == Unlines(Stairs(core, n))
  {
    JoinUnlines(Stairs(core, n));
    var last := Stairs(core, n)[n - 1];
    assert last[|last| - 1] != '\n';
    hide Unlines, Stairs;
  }

  /** Stairs of `n` steps lose one step with each call. */
  lemma {:induction false} StairsAfter(core: string, n: nat, k: nat)
    requires k < n && IsCore(core)
    ensures StripTimes(Unlines(Stairs(core, n)), k) == Done(Unlines(Stairs(core, n - k)))
  {
    hide Strip, Stairs, IsCore;
    if k > 0 {
      StairsAfter(core, n, k - 1);
      StairsStep(core, n - k + 1);
    }
  }

  lemma StairsDiffer(core: string, n: nat)
    requires n > 0 && '\n' !in core
    ensures Unlines(Stairs(core, n)) != Unlines(Stairs(core, n - 1))
  {
    hide Lines, Unlines, Stairs;
    StairsRead(core, n);
    StairsRead(core, n - 1);
  }

  /** The condition is exact, line by line: for every fading line and every
      number of calls there is a text with this line in it that one more call
      still changes. */
  lemma FadingHasNoBound(line: string, n: nat) returns (content: string)
    requires Fading(line) && '\n' !in line
    ensures line in Lines(content)
    ensures StripTimes(content, n).Done? && Strip(StripTimes(content, n).value).Done?
    ensures Strip(StripTimes(content, n).value) != StripTimes(content, n)
  {
    hide Fading, IsCore, Returns, Strip, Stairs, Unlines, Lines;
    var core, m := FadingIs(line);
    CoreIsOneLine(core);
    var q := m + n + 2;
    content := Unlines(Stairs(core, q));
    StairsRead(core, q);
    assert Lines(content)[q - 1 - m] == line;
    StairsAfter(core, q, n);
    StairsStep(core, q - n);
    StairsDiffer(core, q - n);
  }

  lemma CoreIsOneLine(core: string)
    requires IsCore(core)
    ensures '\n' !in core
  {
  }
}
