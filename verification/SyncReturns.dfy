/** Runs over the brain files and the sidecar in which an excluded section comes
    back although nobody cleared its record or wrote it into the file. */
module SyncReturns {
  import opened Text
  import opened SectionText
  import opened Ordering
  import opened Pruned
  import opened Sync
  import opened MovedArray
  import opened MovedPairs
  import opened CommaBreaks
  import opened Sidecar
  import opened SectionNames
  import opened Reloading
  import opened SyncRuns

  /** A header that upstream has, that the file lacks and that is not excluded is
      written by the next sync under a sufficient cap. */
  lemma WantedIsWritten(local: string, upstream: string, excluded: set<string>, cap: nat, h: string)
    requires Wanted(local, upstream, excluded, h) && !EndsWith(h, '\r')
    requires cap >= |Lines(local)| + |Lines(NewSections(local, upstream, excluded))|
    ensures var r := SyncOf(local, upstream, excluded, cap); r.Written? && h in ExtractSectionHeaders(r.content)
  {
    hide NewSections, SyncOf, ExtractSectionHeaders, Lines, Arriving, Arrived, StripCR;
    WantedIsAppended(local, upstream, excluded, cap, h);
    SyncAppends(local, upstream, excluded, cap);
    var unseen := HeadersWithout(ExtractSectionHeaders(upstream), HeaderSet(local));
    ArrivedSelf(h, excluded);
    ArrivingAre(unseen, excluded, h);
    assert h in unseen;
  }

  lemma WantedIsAppended(local: string, upstream: string, excluded: set<string>, cap: nat, u: string)
    requires Wanted(local, upstream, excluded, u)
    requires cap >= |Lines(local)| + |Lines(NewSections(local, upstream, excluded))|
    ensures SyncOf(local, upstream, excluded, cap).Written?
  {
    hide NewSections, ExtractNewSections, ExtractSectionHeaders, Lines, CountSections, StripCR, Trim;
    NothingToAppendIff(local, upstream, excluded, cap);
    BlankIsAllBlank(local, NewSections(local, upstream, excluded));
  }

  /** Blank together, blank each. */
  lemma BlankIsAllBlank(a: string, b: string)
    ensures Trim(a + b) == "" ==> Trim(b) == ""
  {
    hide Trim, IsWhitespace;
    if Trim(a + b) == "" {
      forall i | 0 <= i < |b|
        ensures IsWhitespace(b[i])
      {
        if !IsWhitespace(b[i]) {
          assert (a + b)[|a| + i] == b[i];
          TrimKeeps(a + b, |a| + i);
        }
      }
      TrimLeadingBlanks(b, "");
      assert b + "" == b;
      TrimEmpty();
    }
  }

  /** Every sync with an upstream that has the header, under a sufficient cap,
      writes it into the file if the file lacks it. */
  ghost predicate ComesBack(t: State, f: string, h: string) {
    forall upstream, cap: nat ::
      && f in t.files && h in ExtractSectionHeaders(upstream) && h !in ExtractSectionHeaders(t.files[f])
      && cap >= |Lines(t.files[f])| + |Lines(NewSections(t.files[f], upstream, Load(t.sidecar).Excluded(f)))|
      ==> Has(Next(t, SyncFile(f, upstream, cap)), f, h)
  }

  lemma UnexcludedComesBack(t: State, f: string, h: string)
    requires h !in Load(t.sidecar).Excluded(f) && !EndsWith(h, '\r')
    ensures ComesBack(t, f, h)
  {
    hide Load, SyncOf, Lines, NewSections, ExtractSectionHeaders;
    var excluded := Load(t.sidecar).Excluded(f);
    forall upstream, cap: nat |
      && f in t.files && h in ExtractSectionHeaders(upstream) && h !in ExtractSectionHeaders(t.files[f])
      && cap >= |Lines(t.files[f])| + |Lines(NewSections(t.files[f], upstream, excluded))|
      ensures Has(Next(t, SyncFile(f, upstream, cap)), f, h)
    {
      WantedIsWritten(t.files[f], upstream, excluded, cap, h);
    }
  }

  /** One such sync, of the header alone. */
  lemma ComesBackNow(t: State, f: string, h: string) returns (cap: nat)
    requires ComesBack(t, f, h) && f in t.files && t.files[f] == "" && ExtractSectionHeaders(h + "\n") == [h]
    ensures Has(Next(t, SyncFile(f, h + "\n", cap)), f, h)
  {
    hide Load, Next, Has, Lines, NewSections, ExtractSectionHeaders;
    NoHeadersInNothing();
    cap := |Lines("")| + |Lines(NewSections("", h + "\n", Load(t.sidecar).Excluded(f)))|;
    assert h in ExtractSectionHeaders(h + "\n");
  }

  // ----- displaced records -------------------------------------------------------------------

  /** A record that a step displaces is gone: unless the header is moved too, the
      next sync with an upstream that has it writes it into the file. */
  lemma DisplacedReturns(s: State, step: Step, f: string, h: string)
    requires Proper(s.sidecar) && Plain(step) && Displaces(s, step, f, h)
    requires h in Load(s.sidecar).PrunedHeaders(f) && !EndsWith(h, '\r')
    ensures h !in Load(Next(s, step).sidecar).PrunedHeaders(f)
    ensures h !in Load(Next(s, step).sidecar).MovedSources(f) ==> ComesBack(Next(s, step), f, h)
  {
    hide Proper, Plain, Load, Next, ComesBack;
    PrunedNextIff(s, step, f, h);
    if h !in Load(Next(s, step).sidecar).MovedSources(f) {
      UnexcludedComesBack(Next(s, step), f, h);
    }
  }

  /** So is a header that a recorded rewrite takes out of a file under a path that
      is neither its name nor read for it, unless it is excluded otherwise. */
  lemma UnrecordedReturns(s: State, step: Step, f: string, h: string)
    requires Proper(s.sidecar) && Plain(step) && step.Shrink? && step.file == f && h in Removed(s, step)
    requires step.key != f && !TakesPruned(ToSave(s, step).value, step.key, f) && !EndsWith(h, '\r')
    requires h !in Load(s.sidecar).PrunedHeaders(f)
    ensures h !in Load(Next(s, step).sidecar).PrunedHeaders(f)
    ensures h !in Load(Next(s, step).sidecar).MovedSources(f) ==> ComesBack(Next(s, step), f, h)
  {
    hide Proper, Plain, Load, Next, ComesBack, TakesPruned;
    ShrunkRecordedIff(s, step, f, h);
    if h !in Load(Next(s, step).sidecar).MovedSources(f) {
      UnexcludedComesBack(Next(s, step), f, h);
    }
  }

  /** A move that does not leave the pairs well nested loses a moved header: it is
      no longer excluded unless it is pruned too, and then the next sync with an
      upstream that has it writes it into the file. No clear, no write by the
      user. */
  lemma BrokenMoveReturns(s: State, f: string, entries: seq<MovedEntry>, now: string) returns (h: string)
    requires Proper(s.sidecar) && Plain(Move(f, entries, now)) && entries != []
    requires DistinctSources(EntriesOf(Load(s.sidecar), f))
    requires !WellNested(MergeMoved(EntriesOf(Load(s.sidecar), f), entries))
    ensures FirstMoved(MergeMoved(EntriesOf(Load(s.sidecar), f), entries), h).Some?
    ensures var moved := Next(s, Move(f, entries, now));
            && h !in Load(moved.sidecar).MovedSources(f)
            && (h !in Load(moved.sidecar).PrunedHeaders(f) && !EndsWith(h, '\r') ==> ComesBack(moved, f, h))
  {
    hide Proper, Plain, FitAll, SaveText, Parsed, WellNested, DistinctSources, SectionName, NamesSections, ComesBack,
         OthersNamed, MovedHeir;
    var step := Move(f, entries, now);
    LoadIsFit(s.sidecar);
    StepSaves(s, step);
    var d := RecordMovedIn(Load(s.sidecar), f, entries, now);
    assert EntriesOf(d, f) == MergeMoved(EntriesOf(Load(s.sidecar), f), entries);
    MergeMovedDistinct(EntriesOf(Load(s.sidecar), f), entries);
    MovedSurviveIff(d, f);
    SourcesOf(d, f);
    NoSources(EntriesOf(d, f));
    NothingNested();
    if SectionName(f) {
      NamedWith(d, f);
    } else {
      NothingForOthers(d, f);
    }
    hide Load;
    h :| h in d.MovedSources(f) && h !in Load(Saved(d)).MovedSources(f);
    if h !in Load(Saved(d)).PrunedHeaders(f) && !EndsWith(h, '\r') {
      UnexcludedComesBack(Next(s, step), f, h);
    }
  }

  lemma NamedWith(d: PrunedData, k: string)
    requires OthersNamed(d, k) && SectionName(k)
    ensures NamesSections(d)
  {
  }

  lemma NothingNested()
    ensures WellNested([])
  {
    RereadIff([]);
  }

  // ----- runs -----------------------------------------------------------------------------------

  const SOUL: string := "SOUL.md"
  const LOST: MovedEntry := MovedEntry("## a]", "USER.md")
  const STAMP: string := "2026-01-01"

  lemma SoulIsSectionName()
    ensures SectionName(SOUL)
  {
    hide IsWhitespace, Trim;
    SoulIsSolid();
    TrimFixed(SOUL);
  }

  lemma SoulIsSolid()
    ensures !IsWhitespace(SOUL[0]) && !IsWhitespace(SOUL[|SOUL| - 1])
  {
  }

  lemma LostIsPlain()
    ensures Plain(Move(SOUL, [LOST], STAMP))
  {
    hide IsWhitespace, SectionName, PlainName;
    SoulIsSectionName();
    SectionNameOwner(None, SOUL);
    OneLineBreaks(LOST.header, ' ');
    OneLineBreaks(LOST.dest, ' ');
  }

  /** A line that is a header is the one header of its text. */
  lemma OneHeader(h: string)
    requires OneLine(h) && "## " <= h && !EndsWith(h, '\r')
    ensures ExtractSectionHeaders(h + "\n") == [h]
  {
    hide Lines;
    LinesCons(h, "");
    LinesEmptyIff("");
    assert h + "\n" + "" == h + "\n";
    var lines := [h];
    assert Lines(h + "\n") == lines;
    assert IsSectionHeader(lines[0]) && lines[1..] == [];
    assert HeadersOf(lines) == [h] + HeadersOf([]);
  }

  /** Such a run: from nothing but an empty file, a move whose header closes a
      bracket that it did not open, and a sync with an upstream that has it. The
      program recorded that the header does not belong here, and writes it. */
  lemma UnbalancedMoveReturns() returns (cap: nat)
    ensures var s := State(map[SOUL := ""], None);
            var steps := [Move(SOUL, [LOST], STAMP), SyncFile(SOUL, "## a]" + "\n", cap)];
            && !Has(s, SOUL, "## a]")
            && Has(After(s, steps), SOUL, "## a]")
            && forall i :: 0 <= i < |steps| ==>
                 Plain(steps[i]) && !Clears(steps[i], SOUL) && !Brings(steps[i], SOUL, "## a]")
  {
    hide SyncOf, SaveText, Parsed, WellNested, Lines, ExtractSectionHeaders, ComesBack, PairsOf, PairArray, SOUL,
         LOST, STAMP;
    var s := State(map[SOUL := ""], None);
    var move := Move(SOUL, [LOST], STAMP);
    LostIsPlain();
    LostIsLost();
    var h := BrokenMoveReturns(s, SOUL, [LOST], STAMP);
    NothingPruned(s, move);
    OneHeader("## a]");
    cap := ComesBackNow(Next(s, move), SOUL, "## a]");
    AfterTwo(s, move, SyncFile(SOUL, "## a]" + "\n", cap));
    BlankShowsNothing();
  }

  lemma LostIsLost()
    ensures LOST.header == "## a]" && !EndsWith("## a]", '\r')
    ensures MergeMoved([], [LOST]) == [LOST] && !WellNested([LOST])
    ensures forall h :: FirstMoved([LOST], h).Some? <==> h == "## a]"
    ensures "## a]" + "\r\r" != "## a]"
  {
    hide PairsOf, PairArray, WellNested;
    UnbalancedIsLost();
    assert [LOST][1..] == [] && [] + [LOST] == [LOST];
    assert |"## a]" + "\r\r"| == 7;
  }

  lemma NothingPruned(s: State, step: Step)
    requires s.sidecar.None? && step.Move? && Plain(step)
    ensures forall f :: Load(Next(s, step).sidecar).PrunedHeaders(f) == {}
  {
    hide Plain, SaveText, Parsed, FitAll, PrunedHeir, MovedHeir, Reread;
    StepSaves(s, step);
    var e := RecordMovedIn(EMPTY, step.file, step.entries, step.now);
    Reloaded(e);
    var r := Load(Saved(e));
    forall f
      ensures r.PrunedHeaders(f) == {}
    {
      assert Returns(r, e, f);
      assert forall g :: PrunedOf(e, g) == [];
    }
  }

  lemma AfterTwo(s: State, a: Step, b: Step)
    ensures After(s, [a, b]) == Next(Next(s, a), b)
  {
    hide Next;
    assert [a, b][..1] == [a] && [a][..0] == [];
    assert After(s, []) == s;
    assert After(s, [a]) == Next(s, a);
  }

  lemma BlankShowsNothing()
    ensures forall h :: !Shows("", h)
  {
    LinesLeadingNewline("");
    assert "\n" + "" == "\n" && "" + "\n" == "\n";
    LinesEmptyIff("");
    hide Lines;
    BlankIsNoHeader();
    assert [""] + [] == [""];
  }

  // ----- rewrites under another path ----------------------------------------------------------

  const A: string := "## A"

  lemma AIsHeader()
    ensures OneLine(A) && "## " <= A && !EndsWith(A, '\r') && A + "\r\r" != A
  {
    assert |A + "\r\r"| == |A| + 2;
  }

  /** The rewrite that empties a file of one header. */
  lemma Emptied(s: State, step: Step, h: string)
    requires step.Shrink? && step.file in s.files && s.files[step.file] == h + "\n" && step.text == ""
    requires OneLine(h) && "## " <= h && !EndsWith(h, '\r')
    ensures Removed(s, step) != [] && forall x :: x in Removed(s, step) <==> x == h
  {
    OneHeader(h);
    NoHeadersInNothing();
    hide ExtractSectionHeaders, DetectRemovedSections;
    assert h in Removed(s, step);
  }

  /** Without moved pairs before there are none after. */
  lemma NothingMoved(s: State, step: Step)
    requires Proper(s.sidecar) && Plain(step) && step.Shrink?
    requires forall f :: EntriesOf(Load(s.sidecar), f) == []
    ensures forall f :: EntriesOf(Load(Next(s, step).sidecar), f) == []
  {
    hide Proper, Plain, SaveText, Parsed, FitAll, PrunedHeir, MovedHeir, Reread, DetectRemovedSections, OthersNamed;
    StepSaves(s, step);
    match ToSave(s, step) {
      case None =>
      case Some(e) =>
        assert e.moved == Load(s.sidecar).moved;
        assert forall g :: EntriesOf(e, g) == EntriesOf(Load(s.sidecar), g);
        NothingReread();
        Reloaded(e);
        var r := Load(Saved(e));
        forall f
          ensures EntriesOf(r, f) == []
        {
          assert Returns(r, e, f);
        }
    }
  }

  lemma NoSourcesOf(d: PrunedData, f: string)
    requires EntriesOf(d, f) == []
    ensures d.MovedSources(f) == {}
  {
    SourcesOf(d, f);
    NoSources([]);
  }

  const DOTTED: string := "./SOUL.md"

  lemma DottedIsSectionName()
    ensures SectionName(DOTTED) && DOTTED != SOUL
  {
    hide IsWhitespace, Trim;
    assert |DOTTED| == 9 && |SOUL| == 7;
    DottedIsSolid();
    TrimFixed(DOTTED);
  }

  lemma DottedIsSolid()
    ensures !IsWhitespace(DOTTED[0]) && !IsWhitespace(DOTTED[|DOTTED| - 1])
  {
  }

  /** A path that is another spelling of the file: the rewrite is recorded under
      that spelling, where no sync looks, and the next sync appends what it took
      out. */
  lemma OtherPathReturns() returns (cap: nat)
    ensures var s := State(map[SOUL := A + "\n"], None);
            var shrink := Shrink(SOUL, DOTTED, "", STAMP);
            && Plain(shrink) && Recorded(Next(s, shrink), DOTTED, A)
            && !Has(Next(s, shrink), SOUL, A)
            && Has(Next(Next(s, shrink), SyncFile(SOUL, A + "\n", cap)), SOUL, A)
  {
    hide SaveText, Parsed, SyncOf, SectionName, PlainName, Shows, ExtractSectionHeaders, DetectRemovedSections,
         TakesPruned, ComesBack, SOUL, DOTTED, A, STAMP;
    var s := State(map[SOUL := A + "\n"], None);
    var shrink := Shrink(SOUL, DOTTED, "", STAMP);
    DottedIsSectionName();
    SectionNameOwner(None, DOTTED);
    StampIsPlain();
    AIsHeader();
    Emptied(s, shrink, A);
    hide Removed;
    DottedRecorded(s, shrink);
    TakesOnlyOthers(ToSave(s, shrink).value, DOTTED, SOUL);
    UnrecordedReturns(s, shrink, SOUL, A);
    NothingMoved(s, shrink);
    NoSourcesOf(Load(Next(s, shrink).sidecar), SOUL);
    BlankShowsNothing();
    OneHeader(A);
    cap := ComesBackNow(Next(s, shrink), SOUL, A);
  }

  lemma StampIsPlain()
    ensures PlainStamp(STAMP)
  {
  }

  /** Under the path itself the header is recorded. */
  lemma DottedRecorded(s: State, step: Step)
    requires s.sidecar.None? && Plain(step) && step.Shrink? && SectionName(step.key) && A in Removed(s, step)
    ensures Recorded(Next(s, step), step.key, A)
  {
    hide Plain, SaveText, Parsed, FitAll, SectionName, TakesPruned, OthersNamed, PrunedHeir, MovedHeir, Removed, A;
    StepSaves(s, step);
    var e := ToSave(s, step).value;
    Reloaded(e);
    assert Returns(Load(Saved(e)), e, step.key);
    MergeHeadersIsUnion([], Removed(s, step));
    HeirsAmong(e, step.key, step.key);
    NoneTakenByItself(e, step.key);
  }

  // ----- a name with an equals sign -------------------------------------------------------------

  const USER: string := "USER.md"
  const NOTE: string := "memory/k=v.md"
  const B: string := "## B"

  lemma BIsHeader()
    ensures OneLine(B) && "## " <= B && !EndsWith(B, '\r') && A != B
  {
    assert A[3] != B[3];
  }

  lemma NamesOfRun()
    ensures SectionName(USER) && TrimmedLine(NOTE) && '=' in NOTE && LexLess(USER, NOTE) && USER != NOTE
  {
    hide IsWhitespace, Trim;
    EndsSolid();
    TrimFixed(USER);
    TrimFixed(NOTE);
    assert NOTE[8] == '=';
    assert USER[0] < NOTE[0];
  }

  lemma EndsSolid()
    ensures !IsWhitespace(USER[0]) && !IsWhitespace(USER[|USER| - 1])
    ensures !IsWhitespace(NOTE[0]) && !IsWhitespace(NOTE[|NOTE| - 1])
  {
  }

  /** The first record there is, under a name that the parser can give. */
  lemma FirstRecord(s: State, step: Step)
    requires s.sidecar.None? && Plain(step) && step.Shrink? && SectionName(step.key)
    ensures forall x :: HasAny(Load(Next(s, step).sidecar), x) ==> x == step.key
  {
    hide Plain, SaveText, Parsed, FitAll, SectionName, TakesPruned, TakesMoved, OthersNamed, PrunedHeir, MovedHeir,
         Reread, DetectRemovedSections;
    StepSaves(s, step);
    match ToSave(s, step) {
      case None =>
      case Some(e) =>
        NothingReread();
        Reloaded(e);
        var r := Load(Saved(e));
        forall x | HasAny(r, x)
          ensures x == step.key
        {
          assert Returns(r, e, x);
          assert forall g :: EntriesOf(e, g) == [];
          assert SectionName(x);
          HeirsAmong(e, step.key, x);
          TakesOnlyOthers(e, step.key, x);
        }
    }
  }

  /** A recorded rewrite under a path with `=` displaces the record of another
      file: `## A` is pruned from one file, then `## B` from the other, and the
      next sync of the first appends `## A` again. */
  lemma EqualsSignReturns() returns (cap: nat)
    ensures var s := State(map[USER := A + "\n", NOTE := B + "\n"], None);
            var first, second := Shrink(USER, USER, "", STAMP), Shrink(NOTE, NOTE, "", STAMP);
            && Plain(first) && Plain(second)
            && Recorded(Next(s, first), USER, A) && !Has(Next(Next(s, first), second), USER, A)
            && Has(Next(Next(Next(s, first), second), SyncFile(USER, A + "\n", cap)), USER, A)
  {
    hide SaveText, Parsed, SyncOf, SectionName, PlainName, TrimmedLine, Shows, ExtractSectionHeaders,
         DetectRemovedSections, TakesPruned, ComesBack, Displaces, LexLess, USER, NOTE, A, B, STAMP;
    var s := State(map[USER := A + "\n", NOTE := B + "\n"], None);
    var first, second := Shrink(USER, USER, "", STAMP), Shrink(NOTE, NOTE, "", STAMP);
    NamesOfRun();
    SectionNameOwner(None, USER);
    NoteIsPlain();
    StampIsPlain();
    AIsHeader();
    BIsHeader();
    var t := Next(s, first);
    Emptied(s, first, A);
    Emptied(t, second, B);
    hide Removed;
    ShrunkRecordedIff(s, first, USER, A);
    StepSaves(s, first);
    FirstRecord(s, first);
    NoteDisplaces(t, second);
    DisplacedReturns(t, second, USER, A);
    NothingMoved(s, first);
    NothingMoved(t, second);
    NoSourcesOf(Load(Next(t, second).sidecar), USER);
    BlankShowsNothing();
    OneHeader(A);
    cap := ComesBackNow(Next(t, second), USER, A);
  }

  lemma NoteIsPlain()
    ensures PlainName(NOTE)
  {
    NamesOfRun();
    hide PlainName, Trim;
    OneLineOwner(None, NOTE);
  }

  lemma NoteDisplaces(t: State, step: Step)
    requires Proper(t.sidecar) && step.Shrink? && step.key == NOTE && Removed(t, step) != [] && A !in Removed(t, step)
    requires Recorded(t, USER, A) && forall x :: HasAny(Load(t.sidecar), x) ==> x == USER
    ensures Displaces(t, step, USER, A)
  {
    hide Proper, Load, TrimmedLine, LexLess, Displaces, Removed, USER, NOTE, A;
    NamesOfRun();
    DisplacesIff(t, step, USER, A);
  }

  // ----- a header that upstream keeps sending ----------------------------------------------

  /** Upstream with one header whose line ends in two carriage returns. */
  const DOUBLED: string := "## A\r\r\n"

  lemma DoubledLines()
    ensures Lines(DOUBLED) == ["## A\r"]
    ensures Blocks(Lines(DOUBLED)) == [Block("## A\r", ["## A\r"])]
  {
    LinesCons("## A\r\r", "");
    assert "## A\r\r" + "\n" + "" == DOUBLED;
    assert StripCR("## A\r\r") == "## A\r";
    var lines := ["## A\r"];
    assert "## " <= lines[0];
    assert lines[1..] == [];
  }

  lemma DoubledExtract(local: string)
    requires "## A\r" !in HeaderSet(local)
    ensures ExtractNewSections(local, DOUBLED) == "\n## A\r\n"
    ensures Trim("\n## A\r\n") != ""
  {
    hide HeaderSet, Lines, Trim, Blocks;
    DoubledLines();
    var b := Block("## A\r", ["## A\r"]);
    assert [b][1..] == [];
    assert Without([b], HeaderSet(local)) == [b];
    assert Texts([b]) == ["## A\r"];
    TrimKeeps("\n## A\r\n", 1);
  }

  lemma DoubledMerged()
    ensures HeaderSet("") == {}
    ensures HeaderSet("\n## A\r\n") == {"## A"}
  {
    ReadHeader("");
    NoHeadersInNothing();
    hide Lines, HeadersOf;
    var once := "\n## A\r\n";
    assert once + "" == once;
    assert ExtractSectionHeaders(once) == ["## A"];
  }

  lemma NoHeadersInNothing()
    ensures ExtractSectionHeaders("") == []
  {
    assert Lines("") == [];
  }

  lemma ReadHeader(rest: string)
    ensures ExtractSectionHeaders("\n## A\r\n" + rest) == ["## A"] + ExtractSectionHeaders(rest)
  {
    hide Lines, HeadersOf;
    var tail := "## A\r" + "\n" + rest;
    assert "\n## A\r\n" + rest == "\n" + tail;
    LinesLeadingNewline(tail);
    LinesCons("## A\r", rest);
    assert StripCR("## A\r") == "## A";
    HeadersConcat(["", "## A"], Lines(rest));
    HeadersOfOnce();
    SeqAssoc([""], ["## A"], Lines(rest));
    assert [""] + ["## A"] == ["", "## A"];
  }

  lemma HeadersOfOnce()
    ensures HeadersOf(["", "## A"]) == ["## A"]
  {
    assert ["", "## A"][1..] == ["## A"] && ["## A"][1..] == [];
    assert "## " <= "## A";
  }

  /** With a doubled carriage return upstream the sync does not converge: the
      header it appends is read back without its carriage return, so the next
      sync appends it again. */
  lemma DoubledReturnsDoNotConverge()
    ensures var r := SyncOf("", DOUBLED, {}, 500);
            r.Written? && SyncOf(r.content, DOUBLED, {}, 500).Written?
  {
    hide ExtractNewSections, HeaderSet, Lines, Trim, ExtractSectionHeaders, CountSections;
    DoubledMerged();
    assert "## A\r" != "## A" by {
      assert |"## A\r"| != |"## A"|;
    }
    var once := "\n## A\r\n";
    DoubledExtract("");
    DoubledExtract(once);
    DoubledCounts();
    assert "" + once == once;
    TrimOfTwice();
  }

  lemma TrimOfTwice()
    ensures Trim("\n## A\r\n" + "\n## A\r\n") != ""
  {
    TrimKeeps("\n## A\r\n" + "\n## A\r\n", 1);
  }

  lemma DoubledCounts()
    ensures |Lines("")| == 0 && |Lines("\n## A\r\n")| == 2
  {
    hide Lines, StripCR;
    LinesEmptyIff("");
    var tail := "## A\r" + "\n" + "";
    assert "\n" + tail == "\n## A\r\n";
    LinesLeadingNewline(tail);
    LinesCons("## A\r", "");
  }

  /** With three carriage returns upstream a header comes in although it is
      excluded: it is neither local nor excluded in the form in which it is looked
      up, and has lost both differences when the file is read. */
  lemma ExcludedComesIn() returns (cap: nat)
    ensures var r := SyncOf("", A + "\r\r\r" + "\n", {A}, cap);
            r.Written? && !Shows("", A) && Shows(r.content, A)
  {
    hide SyncOf, Lines, NewSections, Shows, A;
    var upstream := A + "\r\r\r" + "\n";
    AIsHeader();
    TwiceHeader(A);
    assert StripCR(A + "\r\r") == A + "\r";
    assert A + "\r" != A by {
      assert |A + "\r"| == |A| + 1;
    }
    NoHeadersInNothing();
    hide ExtractSectionHeaders;
    assert Wanted("", upstream, {A}, A + "\r\r");
    cap := |Lines("")| + |Lines(NewSections("", upstream, {A}))|;
    WantedIsAppended("", upstream, {A}, cap, A + "\r\r");
    BlankShowsNothing();
    SyncIntroducesIff("", upstream, {A}, cap, A);
  }

  lemma TwiceHeader(h: string)
    requires OneLine(h) && "## " <= h
    ensures ExtractSectionHeaders(h + "\r\r\r" + "\n") == [h + "\r\r"]
  {
    hide Lines;
    var line := h + "\r\r\r";
    LinesCons(line, "");
    LinesEmptyIff("");
    assert line + "\n" + "" == line + "\n";
    assert (h + "\r\r") + "\r" == line;
    var lines := [h + "\r\r"];
    assert Lines(line + "\n") == lines;
    assert IsSectionHeader(lines[0]) && lines[1..] == [];
    assert HeadersOf(lines) == [h + "\r\r"] + HeadersOf([]);
  }
}
