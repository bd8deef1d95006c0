/** Template sync of one brain file (`src/brain/rsi_sync.rs`): what upstream
    has and the local file lacks is appended, under a cap on the lines. */
module Sync {
  import opened Text
  import opened SectionText
  import opened Pruned
  import opened TopSections

  /** `extract_new_sections`. */
  ghost function ExtractNewSections(local: string, upstream: string): string {
    Render(Without(Blocks(Lines(upstream)), HeaderSet(local)))
  }

  method ExtractNew(local: string, upstream: string) returns (r: string)
    ensures r == ExtractNewSections(local, upstream)
  {
    var localHeaders := set h | h in ExtractSectionHeaders(local);
    var blocks := CutBlocks(Lines(upstream));
    var newBlocks: seq<Block> := [];
    assert blocks[0..] == blocks;
    for i := 0 to |blocks|
      invariant Without(blocks, localHeaders) == newBlocks + Without(blocks[i..], localHeaders)
    {
      assert blocks[i..][1..] == blocks[i + 1..];
      if blocks[i].header !in localHeaders {
        newBlocks := newBlocks + [blocks[i]];
      }
    }
    assert blocks[|blocks|..] == [];
    assert newBlocks + [] == newBlocks;
    if newBlocks == [] {
      return "";
    }
    return "\n" + Join(Texts(newBlocks), "\n\n") + "\n";
  }

  datatype CapBailReport = CapBailReport(
    localLines: nat,
    upstreamLines: nat,
    mergedLines: nat,
    cap: nat,
    topNewSections: seq<string>)

  datatype SyncResult =
    | UpToDate
    | AllPruned
    | BailedForCap(report: CapBailReport)
    | MergedEmpty
    | Written(content: string, sectionsAdded: nat)

  const REPORTED: nat := 3

  function CountSections(lines: seq<string>): nat {
    if lines == [] then 0 else (if IsTopHeader(lines[0]) then 1 else 0) + CountSections(lines[1..])
  }

  /** What is left of upstream's new sections after the user's choices. */
  ghost function NewSections(local: string, upstream: string, excluded: set<string>): string {
    FilterPrunedSections(ExtractNewSections(local, upstream), excluded)
  }

  ghost function SyncOf(local: string, upstream: string, excluded: set<string>, cap: nat): SyncResult {
    var extracted := ExtractNewSections(local, upstream);
    var added := NewSections(local, upstream, excluded);
    var merged := |Lines(local)| + |Lines(added)|;
    if Trim(extracted) == "" then UpToDate
    else if Trim(added) == "" then AllPruned
    else if merged > cap then
      BailedForCap(CapBailReport(|Lines(local)|, |Lines(upstream)|, merged, cap, TopNewSections(added, REPORTED)))
    else if Trim(local + added) == "" then MergedEmpty
    else Written(local + added, CountSections(Lines(added)))
  }

  /** `sync_single_file`, with both texts read. */
  method SyncSingleFile(local: string, upstream: string, state: PrunedState, filename: string, cap: nat)
    returns (r: SyncResult)
    ensures r == SyncOf(local, upstream, state.Data().Excluded(filename), cap)
  {
    hide ExtractNewSections, FilterPrunedSections, Trim, Lines, CountSections, TopNewSections;
    var newSections := ExtractNew(local, upstream);
    if Trim(newSections) == "" {
      return UpToDate;
    }
    newSections := FilterPruned(newSections, state, filename);
    if Trim(newSections) == "" {
      return AllPruned;
    }
    var sectionsCount := CountSections(Lines(newSections));
    var mergedLineCount := |Lines(local)| + |Lines(newSections)|;
    if mergedLineCount > cap {
      var top := TopNewSectionsBySize(newSections, REPORTED);
      return BailedForCap(CapBailReport(|Lines(local)|, |Lines(upstream)|, mergedLineCount, cap, top));
    }
    var updated := local + newSections;
    if Trim(updated) == "" {
      return MergedEmpty;
    }
    return Written(updated, sectionsCount);
  }

  // ----- what is appended -----------------------------------------------------------

  /** The headers that the sync appends, as they will be found in the file: a
      header loses a carriage return when the new sections are read by the
      filter, which they are only if there is something to exclude, and when
      the file is read. */
  function Arriving(headers: seq<string>, excluded: set<string>): seq<string> {
    if excluded == {} then StripCRs(headers)
    else StripCRs(HeadersWithout(StripCRs(headers), excluded))
  }

  function Arrived(h: string, excluded: set<string>): string {
    if excluded == {} then StripCR(h) else StripCR(StripCR(h))
  }

  /** What arrives, header by header: the filter sees each without one carriage
      return. */
  lemma ArrivingAre(headers: seq<string>, excluded: set<string>, h: string)
    ensures h in Arriving(headers, excluded) <==>
            exists u :: u in headers && StripCR(u) !in excluded && Arrived(u, excluded) == h
  {
    hide StripCR;
    StrippedMembers(headers, h);
    if excluded != {} {
      var seen := HeadersWithout(StripCRs(headers), excluded);
      StrippedMembers(seen, h);
      if h in Arriving(headers, excluded) {
        var g :| g in seen && StripCR(g) == h;
        StrippedMembers(headers, g);
      }
      if u :| u in headers && StripCR(u) !in excluded && Arrived(u, excluded) == h {
        StrippedMembers(headers, StripCR(u));
        assert StripCR(u) in seen;
      }
    }
  }

  lemma StrippedMembers(headers: seq<string>, h: string)
    ensures h in StripCRs(headers) <==> exists u :: u in headers && StripCR(u) == h
  {
    hide StripCR;
    var r := StripCRs(headers);
    if h in r {
      var i :| 0 <= i < |r| && r[i] == h;
      assert headers[i] in headers;
    }
    if u :| u in headers && StripCR(u) == h {
      var i :| 0 <= i < |headers| && headers[i] == u;
      assert r[i] == h;
    }
  }

  /** Without carriage returns at the end of headers, all that is not excluded
      arrives as it is. */
  lemma ArrivingClean(headers: seq<string>, excluded: set<string>)
    requires forall h :: h in headers ==> !EndsWith(h, '\r')
    ensures Arriving(headers, excluded) == HeadersWithout(headers, excluded)
  {
    hide EndsWith;
    assert StripCRs(headers) == headers;
    if excluded == {} {
      NothingUnwanted(headers);
    } else {
      var r := HeadersWithout(headers, excluded);
      assert forall i :: 0 <= i < |r| ==> r[i] in r;
      assert StripCRs(r) == r;
    }
  }

  lemma {:induction false} NothingUnwanted(headers: seq<string>)
    ensures HeadersWithout(headers, {}) == headers
  {
    if headers != [] {
      NothingUnwanted(headers[1..]);
    }
  }

  /** The headers of the new sections: upstream's, in order, without those of
      the local file, each without one carriage return. */
  lemma ExtractedHeaders(local: string, upstream: string)
    ensures var r := ExtractNewSections(local, upstream);
            var unseen := HeadersWithout(ExtractSectionHeaders(upstream), HeaderSet(local));
            && ExtractSectionHeaders(r) == StripCRs(unseen)
            && (Trim(r) == "" <==> unseen == [])
  {
    LinesHaveNoNewlines(upstream);
    BlocksAreGood(Lines(upstream));
    hide Lines, Render, HeaderSet, Trim;
    var blocks := Blocks(Lines(upstream));
    WithoutGood(blocks, HeaderSet(local));
    WithoutHeaders(blocks, HeaderSet(local));
    RenderedHeaders(Without(blocks, HeaderSet(local)));
    RenderBlank(Without(blocks, HeaderSet(local)));
  }

  lemma FilteredBlank(text: string, excluded: set<string>)
    requires excluded != {}
    ensures Trim(FilterPrunedSections(text, excluded)) == "" <==>
            HeadersWithout(ExtractSectionHeaders(text), excluded) == []
  {
    LinesHaveNoNewlines(text);
    BlocksAreGood(Lines(text));
    hide Lines, Render, Trim;
    var blocks := Blocks(Lines(text));
    WithoutGood(blocks, excluded);
    WithoutHeaders(blocks, excluded);
    RenderBlank(Without(blocks, excluded));
  }

  lemma NewSectionHeaders(local: string, upstream: string, excluded: set<string>)
    ensures var r := NewSections(local, upstream, excluded);
            var arriving := Arriving(HeadersWithout(ExtractSectionHeaders(upstream), HeaderSet(local)), excluded);
            && ExtractSectionHeaders(r) == arriving
            && (Trim(r) == "" <==> arriving == [])
  {
    ExtractedHeaders(local, upstream);
    var extracted := ExtractNewSections(local, upstream);
    hide ExtractNewSections, ExtractSectionHeaders, HeaderSet, Trim;
    FilteredHeaders(extracted, excluded);
    if excluded != {} {
      FilteredBlank(extracted, excluded);
    }
  }

  /** Every text the sync appends starts with a newline, so it never extends
      the last local line. */
  lemma NewSectionsStart(local: string, upstream: string, excluded: set<string>)
    ensures var r := NewSections(local, upstream, excluded);
            r == "" || (r[0] == '\n' && r == "\n" + r[1..])
  {
    hide Lines, HeaderSet, Join;
  }

  lemma BlankIsNoHeader()
    ensures HeadersOf([""]) == []
  {
  }

  /** The headers of a text when its last line is closed: they are the same
      unless that line is open and ends in a carriage return. */
  lemma ClosedHeaders(text: string)
    ensures !OpenReturn(text) ==> ExtractSectionHeaders(text + "\n") == ExtractSectionHeaders(text)
    ensures forall h ::
              h in ExtractSectionHeaders(text) && !EndsWith(h, '\r') ==> h in ExtractSectionHeaders(text + "\n")
  {
    LinesPlusNewline(text);
    var ls := Lines(text);
    hide Lines, HeadersOf, StripCR;
    if text == "" || EndsWith(text, '\n') {
      BlankIsNoHeader();
      HeadersConcat(ls, [""]);
    } else {
      LinesEmptyIff(text);
      var front, last := ls[..|ls| - 1], ls[|ls| - 1];
      assert ls == front + [last];
      LastLineEnds(text);
      HeadersConcat(front, [last]);
      HeadersConcat(front, [StripCR(last)]);
      HeadersOfLine(last);
    }
  }

  /** The text ends in a carriage return: its last line is open, and will lose
      it when something is appended. */
  predicate OpenReturn(text: string) {
    EndsWith(text, '\r')
  }

  lemma {:induction false} LastLineEnds(text: string)
    requires text != "" && !EndsWith(text, '\n')
    ensures var ls := Lines(text); ls != [] && (EndsWith(ls[|ls| - 1], '\r') <==> EndsWith(text, '\r'))
    decreases |text|
  {
    hide StripCR;
    if LineLength(text) < |text| {
      var line, rest := LinesHead(text);
      LastLineEnds(rest);
      assert rest[|rest| - 1] == text[|text| - 1];
    }
  }

  lemma HeadersOfLine(line: string)
    ensures !EndsWith(line, '\r') ==> StripCR(line) == line
    ensures forall h :: h in HeadersOf([line]) ==> h == line
  {
    assert [line][1..] == [];
  }

  /** Appending a block appends its headers to those of the closed text. */
  lemma AppendHeaders(local: string, block: string)
    requires block != "" && block[0] == '\n'
    ensures ExtractSectionHeaders(local + block)
         == ExtractSectionHeaders(local + "\n") + ExtractSectionHeaders(block)
  {
    var rest := block[1..];
    assert block == "\n" + rest;
    assert local + block == local + "\n" + rest;
    LinesAppendBlock(local, rest);
    LinesLeadingNewline(rest);
    hide Lines, HeadersOf;
    BlankIsNoHeader();
    HeadersConcat(Lines(local + "\n"), Lines(rest));
    HeadersConcat([""], Lines(rest));
  }

  // ----- the main results ------------------------------------------------------------

  /** A sync only appends, whatever the texts: the local text is a prefix of the
      written one, whose headers are the local ones, with the last line closed,
      followed by what arrives of the upstream headers that are not local. */
  lemma SyncAppends(local: string, upstream: string, excluded: set<string>, cap: nat)
    ensures var r := SyncOf(local, upstream, excluded, cap);
            r.Written? ==>
              && local < r.content
              && ExtractSectionHeaders(r.content)
                 == ExtractSectionHeaders(local + "\n")
                    + Arriving(HeadersWithout(ExtractSectionHeaders(upstream), HeaderSet(local)), excluded)
  {
    hide NewSections, ExtractNewSections, ExtractSectionHeaders, HeaderSet, Trim, Arriving, Lines, TopNewSections,
         CountSections;
    var r := SyncOf(local, upstream, excluded, cap);
    if r.Written? {
      NewSectionHeaders(local, upstream, excluded);
      NewSectionsStart(local, upstream, excluded);
      TrimEmpty();
      AppendHeaders(local, NewSections(local, upstream, excluded));
    }
  }

  lemma {:induction false} WithoutTwice(headers: seq<string>, a: set<string>, b: set<string>)
    ensures HeadersWithout(HeadersWithout(headers, a), b) == HeadersWithout(headers, a + b)
  {
    if headers != [] {
      WithoutTwice(headers[1..], a, b);
    }
  }

  /** On tidy texts: the local headers followed by exactly the upstream headers
      that are not local, pruned or moved, in upstream's order. */
  lemma TidySyncAppends(local: string, upstream: string, excluded: set<string>, cap: nat)
    requires Tidy(local) && Tidy(upstream)
    ensures var r := SyncOf(local, upstream, excluded, cap);
            r.Written? ==>
              ExtractSectionHeaders(r.content)
              == ExtractSectionHeaders(local)
                 + HeadersWithout(ExtractSectionHeaders(upstream), HeaderSet(local) + excluded)
  {
    hide NewSections, ExtractNewSections, SyncOf, HeaderSet, Arriving, Lines, HeadersOf;
    SyncAppends(local, upstream, excluded, cap);
    TidyHeaders(local);
    TidyHeaders(upstream);
    ClosedHeaders(local);
    var unseen := HeadersWithout(ExtractSectionHeaders(upstream), HeaderSet(local));
    ArrivingClean(unseen, excluded);
    WithoutTwice(ExtractSectionHeaders(upstream), HeaderSet(local), excluded);
  }

  lemma TidyHeaders(text: string)
    requires Tidy(text)
    ensures forall h :: h in ExtractSectionHeaders(text) ==> !EndsWith(h, '\r')
    ensures !OpenReturn(text)
  {
    HeadersAreLines(Lines(text));
    var ls := Lines(text);
    assert ls == [] || ls[|ls| - 1] in ls;
    if OpenReturn(text) {
      LastLineEnds(text);
    }
  }

  lemma {:induction false} HeadersAreLines(lines: seq<string>)
    ensures forall h :: h in HeadersOf(lines) ==> h in lines && IsSectionHeader(h)
  {
    hide IsSectionHeader;
    if lines != [] {
      HeadersAreLines(lines[1..]);
    }
  }

  /** A sync writes nothing for want of new sections exactly when every upstream
      header is local or, without one carriage return, excluded. */
  lemma NothingToAppendIff(local: string, upstream: string, excluded: set<string>, cap: nat)
    ensures var r := SyncOf(local, upstream, excluded, cap);
            (r.UpToDate? || r.AllPruned?) <==>
            forall u :: u in ExtractSectionHeaders(upstream) ==>
                          u in ExtractSectionHeaders(local) || StripCR(u) in excluded
  {
    ExtractedHeaders(local, upstream);
    NewSectionHeaders(local, upstream, excluded);
    var unseen := HeadersWithout(ExtractSectionHeaders(upstream), HeaderSet(local));
    hide NewSections, ExtractNewSections, ExtractSectionHeaders, Trim, Lines, Arriving, StripCR;
    var arriving := Arriving(unseen, excluded);
    forall u | u in ExtractSectionHeaders(upstream) && u !in ExtractSectionHeaders(local) && StripCR(u) !in excluded
      ensures arriving != [] && unseen != []
    {
      assert u in unseen;
      ArrivingAre(unseen, excluded, Arrived(u, excluded));
    }
    if arriving != [] {
      ArrivingAre(unseen, excluded, arriving[0]);
      assert arriving[0] in arriving;
    } else {
      ArrivingNone(excluded);
    }
  }

  lemma ArrivingNone(excluded: set<string>)
    ensures Arriving([], excluded) == []
  {
    assert StripCRs([]) == [];
  }

  /** An upstream header that is not local and not excluded, as the filter sees
      it. */
  ghost predicate Wanted(local: string, upstream: string, excluded: set<string>, u: string) {
    u in ExtractSectionHeaders(upstream) && u !in ExtractSectionHeaders(local) && StripCR(u) !in excluded
  }

  /** The header ends in a carriage return and is neither excluded, as the filter
      sees it, nor in the closed local text. */
  ghost predicate Returning(local: string, excluded: set<string>, h: string) {
    EndsWith(h, '\r') && StripCR(h) !in excluded && h !in ExtractSectionHeaders(local + "\n")
  }

  /** What loses its carriage returns on the way and comes out as `h`. */
  function Twin(h: string, excluded: set<string>): string {
    if excluded == {} then h + "\r" else h + "\r\r"
  }

  lemma TwinArrives(h: string, u: string, excluded: set<string>)
    requires EndsWith(h, '\r')
    ensures Arrived(u, excluded) == h <==> u == Twin(h, excluded)
  {
    if excluded == {} {
      StripIs(u, h);
    } else {
      StripIs(StripCR(u), h);
      StripIs(u, h + "\r");
      assert (h + "\r") + "\r" == h + "\r\r";
    }
  }

  /** A line that keeps a carriage return has lost one. */
  lemma StripIs(u: string, h: string)
    requires EndsWith(h, '\r')
    ensures StripCR(u) == h <==> u == h + "\r"
  {
    if u == h + "\r" {
      assert u[..|u| - 1] == h;
    }
  }

  /** What a header of the file is found as when the text is closed. */
  lemma ArrivedSelf(h: string, excluded: set<string>)
    requires !EndsWith(h, '\r')
    ensures Arrived(h, excluded) == h
  {
  }

  /** Convergence, exactly and for all texts: after a write, syncing again with
      the same upstream appends nothing iff every wanted upstream header that
      ends in a carriage return, and is not in the closed local text, has a
      wanted twin with one more (two more if something is excluded). */
  lemma SyncConvergesIff(local: string, upstream: string, excluded: set<string>, cap: nat, cap': nat)
    requires SyncOf(local, upstream, excluded, cap).Written?
    ensures var again := SyncOf(SyncOf(local, upstream, excluded, cap).content, upstream, excluded, cap');
            (again.UpToDate? || again.AllPruned?) <==>
            forall h :: h in ExtractSectionHeaders(upstream) && Returning(local, excluded, h) ==>
              Wanted(local, upstream, excluded, Twin(h, excluded))
  {
    hide SyncOf, ExtractSectionHeaders, StripCR, Arrived, Twin, Arriving;
    var content := SyncOf(local, upstream, excluded, cap).content;
    SyncAppends(local, upstream, excluded, cap);
    NothingToAppendIff(content, upstream, excluded, cap');
    ClosedHeaders(local);
    var unseen := HeadersWithout(ExtractSectionHeaders(upstream), HeaderSet(local));
    forall h |
      h in ExtractSectionHeaders(upstream) && StripCR(h) !in excluded && h !in ExtractSectionHeaders(local + "\n")
      ensures h in ExtractSectionHeaders(content) <==>
              (EndsWith(h, '\r') ==> Wanted(local, upstream, excluded, Twin(h, excluded)))
    {
      ArrivingAre(unseen, excluded, h);
      if EndsWith(h, '\r') {
        TwinWanted(local, upstream, excluded, h);
      } else {
        ArrivedSelf(h, excluded);
        assert h in unseen;
      }
    }
  }

  lemma TwinWanted(local: string, upstream: string, excluded: set<string>, h: string)
    requires EndsWith(h, '\r')
    ensures (exists u :: u in HeadersWithout(ExtractSectionHeaders(upstream), HeaderSet(local))
                         && StripCR(u) !in excluded && Arrived(u, excluded) == h)
            <==> Wanted(local, upstream, excluded, Twin(h, excluded))
  {
    hide ExtractSectionHeaders, StripCR, Arrived, Twin;
    var unseen := HeadersWithout(ExtractSectionHeaders(upstream), HeaderSet(local));
    if u :| u in unseen && StripCR(u) !in excluded && Arrived(u, excluded) == h {
      TwinArrives(h, u, excluded);
    }
    if Wanted(local, upstream, excluded, Twin(h, excluded)) {
      TwinArrives(h, Twin(h, excluded), excluded);
      assert Twin(h, excluded) in unseen;
    }
  }

  /** In particular it converges when no upstream header ends in a carriage
      return, whatever the other lines. */
  lemma SyncConverges(local: string, upstream: string, excluded: set<string>, cap: nat, cap': nat)
    requires forall h :: h in ExtractSectionHeaders(upstream) ==> !EndsWith(h, '\r')
    ensures var r := SyncOf(local, upstream, excluded, cap);
            r.Written? ==>
              var again := SyncOf(r.content, upstream, excluded, cap');
              again.UpToDate? || again.AllPruned?
  {
    hide SyncOf, ExtractSectionHeaders, EndsWith;
    if SyncOf(local, upstream, excluded, cap).Written? {
      SyncConvergesIff(local, upstream, excluded, cap, cap');
    }
  }

  /** The computed line count against the true one, for every text: exact when
      the local file is empty or ends in a newline, else one too high. */
  lemma MergedCount(local: string, upstream: string, excluded: set<string>)
    ensures var added := NewSections(local, upstream, excluded);
            added != "" ==>
              |Lines(local)| + |Lines(added)|
              == |Lines(local + added)| + (if local == "" || EndsWith(local, '\n') then 0 else 1)
  {
    NewSectionsStart(local, upstream, excluded);
    var added := NewSections(local, upstream, excluded);
    hide NewSections;
    if added != "" {
      var rest := added[1..];
      assert local + added == local + "\n" + rest;
      LinesAppendBlock(local, rest);
      LinesLeadingNewline(rest);
    }
  }

  /** No file that the sync writes has more lines than its cap. */
  lemma LineCap(local: string, upstream: string, excluded: set<string>, cap: nat)
    ensures var r := SyncOf(local, upstream, excluded, cap);
            r.Written? ==> |Lines(r.content)| <= cap
  {
    hide NewSections, ExtractNewSections, Lines, Trim, CountSections;
    MergedCount(local, upstream, excluded);
    TrimEmpty();
  }
}
