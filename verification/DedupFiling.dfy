/** The proposals as they are filed: with a rationale, and with the warnings for
    everything that is planned for their file (`src/brain/dedup_scan.rs`). */
module DedupFiling {
  import opened Text
  import opened Ordering
  import opened Filter
  import opened Dedup
  import opened DedupProposals
  import opened StubRisk
  import Numbers

  // ----- the whole scan ------------------------------------------------------------------------

  const EXCERPT_BYTES: nat := 80

  /** The first `n` bytes of a text, or all of it: slicing aborts within a
      character. */
  function Excerpt(s: string, n: nat): Outcome<string> {
    if n == 0 || s == "" then Done("")
    else if CharBytes(s[0]) > n then Panic
    else
      match Excerpt(s[1..], n - CharBytes(s[0]))
      case Panic => Panic
      case Done(rest) => Done([s[0]] + rest)
  }

  /** It aborts exactly when a character begins before the cut and ends behind it. */
  lemma {:induction false} ExcerptPanicsIff(s: string, n: nat)
    ensures Excerpt(s, n).Panic? <==> CutsCharacter(s, n)
    ensures Excerpt(s, n).Done? ==>
              Excerpt(s, n).value <= s && ByteLen(Excerpt(s, n).value) == if ByteLen(s) <= n then ByteLen(s) else n
  {
    if n > 0 && s != "" {
      if CharBytes(s[0]) > n {
        assert Straddles(s, 0, n);
      } else {
        ExcerptPanicsIff(s[1..], n - CharBytes(s[0]));
        StraddlesTail(s, n);
      }
    }
  }

  /** That many letters. */
  function Letters(n: nat): (s: string)
    ensures |s| == n && forall k :: 0 <= k < n ==> s[k] == 'a'
  {
    if n == 0 then "" else Letters(n - 1) + "a"
  }

  /** A letter with an accent behind 79 plain ones takes two bytes, and the cut
      falls between them. */
  lemma AccentPanics()
    ensures Excerpt(Letters(79) + "\U{00E9}", EXCERPT_BYTES).Panic?
  {
    hide Excerpt, ByteLen;
    var text := Letters(79) + "\U{00E9}";
    assert text[..79] == Letters(79);
    AsciiBytes(text[..79]);
    assert Straddles(text, 79, EXCERPT_BYTES);
    ExcerptPanicsIff(text, EXCERPT_BYTES);
  }

  /** A proposal as it is filed. */
  datatype Filed = Filed(proposal: Proposal, rationale: string, warnings: seq<string>)

  function Rationale(excerpt: string, c: Cluster, p: Proposal): string {
    "Found '" + excerpt + "' appearing " + Numbers.Print(c.totalCount) + " times across brain files. "
    + "Keeping canonical copy at " + p.duplicateOf + ", removing duplicate(s)."
  }

  /** The lines that the ranges of the proposals for a file cover. */
  function Planned(ps: seq<Proposal>, f: string): seq<nat> {
    if ps == [] then []
    else
      var last := ps[|ps| - 1];
      if last.targetFile == f then Planned(ps[..|ps| - 1], f) + ParseLineRange(last.lineRange)
      else Planned(ps[..|ps| - 1], f)
  }

  lemma PlannedMore(ps: seq<Proposal>, p: Proposal, f: string)
    ensures Planned(ps + [p], f) ==
            if p.targetFile == f then Planned(ps, f) + ParseLineRange(p.lineRange) else Planned(ps, f)
  {
    assert (ps + [p])[..|ps|] == ps;
  }

  lemma {:induction false} PlannedCovers(ps: seq<Proposal>, i: nat, n: nat)
    requires i < |ps| && n in ParseLineRange(ps[i].lineRange)
    ensures n in Planned(ps, ps[i].targetFile)
  {
    hide ParseLineRange;
    if i < |ps| - 1 {
      PlannedCovers(ps[..|ps| - 1], i, n);
    }
  }

  /** The start of the text, as the rationale quotes it, where it can be cut. */
  function Quotation(c: Cluster): string {
    match Excerpt(c.text, EXCERPT_BYTES)
    case Done(s) => s
    case Panic => ""
  }

  /** The proposals of a cluster with their rationales. */
  function WithRationale(c: Cluster, ps: seq<Proposal>): (r: seq<(Proposal, string)>)
    ensures |r| == |ps|
  {
    seq(|ps|, i requires 0 <= i < |ps| => (ps[i], Rationale(Quotation(c), c, ps[i])))
  }

  function AllStaged(clusters: seq<Cluster>): seq<(Proposal, string)> {
    if clusters == [] then []
    else
      var last := clusters[|clusters| - 1];
      AllStaged(clusters[..|clusters| - 1]) + (if CanPropose(last) then WithRationale(last, ProposalsOf(last)) else [])
  }

  function Firsts(staged: seq<(Proposal, string)>): (ps: seq<Proposal>)
    ensures |ps| == |staged|
    ensures forall i :: 0 <= i < |ps| ==> ps[i] == staged[i].0
  {
    seq(|staged|, i requires 0 <= i < |staged| => staged[i].0)
  }

  function AllProposals(clusters: seq<Cluster>): seq<Proposal> {
    Firsts(AllStaged(clusters))
  }

  lemma AllProposalsStep(clusters: seq<Cluster>)
    requires clusters != []
    ensures var last := clusters[|clusters| - 1];
            AllProposals(clusters) == AllProposals(clusters[..|clusters| - 1])
                                      + (if CanPropose(last) then ProposalsOf(last) else [])
  {
    hide ProposalsOf, Rationale, Quotation;
  }

  ghost predicate ExcerptPanics(clusters: seq<Cluster>) {
    exists i :: 0 <= i < |clusters| && Excerpt(clusters[i].text, EXCERPT_BYTES).Panic?
  }

  ghost function Targets(ps: seq<Proposal>): set<string> {
    set i | 0 <= i < |ps| :: ps[i].targetFile
  }

  datatype Staging = Staging(staged: seq<(Proposal, string)>, planned: map<string, seq<nat>>)

  /** The staged proposals are `all`, and their ranges are planned. */
  ghost predicate IsStaged(s: Staging, all: seq<(Proposal, string)>) {
    s.staged == all && IsPlan(s.planned, Firsts(all))
  }

  lemma StageNothing()
    ensures IsStaged(Staging([], map[]), [])
  {
    PlanNothing();
  }

  lemma StageMore(s: Staging, all: seq<(Proposal, string)>, p: Proposal, rationale: string)
    requires IsStaged(s, all)
    ensures IsStaged(
              Staging(s.staged + [(p, rationale)],
                      s.planned[p.targetFile := Get(s.planned, p.targetFile) + ParseLineRange(p.lineRange)]),
              all + [(p, rationale)])
  {
    hide IsPlan, ParseLineRange;
    PlanMore(s.planned, Firsts(all), p);
    assert Firsts(all + [(p, rationale)]) == Firsts(all) + [p];
  }

  method StageCluster(c: Cluster, proposals: seq<Proposal>, before: Staging, ghost all: seq<(Proposal, string)>)
    returns (r: Outcome<Staging>)
    requires proposals != [] && IsStaged(before, all)
    ensures r.Panic? <==> Excerpt(c.text, EXCERPT_BYTES).Panic?
    ensures r.Done? ==> IsStaged(r.value, all + WithRationale(c, proposals))
  {
    hide Excerpt, Rationale, IsStaged, ParseLineRange;
    var excerpt := Excerpt(c.text, EXCERPT_BYTES);
    var staged, planned := before.staged, before.planned;
    ghost var more := WithRationale(c, proposals);
    ghost var done := all;
    for j := 0 to |proposals|
      invariant done == all + more[..j]
      invariant IsStaged(Staging(staged, planned), done)
      invariant j > 0 ==> excerpt.Done?
    {
      var p := proposals[j];
      if excerpt.Panic? {
        return Panic;
      }
      StageMore(Staging(staged, planned), done, p, Rationale(excerpt.value, c, p));
      planned := planned[p.targetFile := Get(planned, p.targetFile) + ParseLineRange(p.lineRange)];
      staged := staged + [(p, Rationale(excerpt.value, c, p))];
      SeqAssoc(all, more[..j], [more[j]]);
      assert more[..j + 1] == more[..j] + [more[j]];
      done := done + [more[j]];
    }
    assert more[..|proposals|] == more;
    return Done(Staging(staged, planned));
  }

  /** The first loop: all proposals of all clusters, and what they cover. */
  method Stage(clusters: seq<Cluster>, ghost docs: Docs) returns (r: Outcome<Staging>)
    requires forall i :: 0 <= i < |clusters| ==> IsCluster(docs, clusters[i])
    ensures r.Panic? <==> ExcerptPanics(clusters)
    ensures r.Done? ==> IsStaged(r.value, AllStaged(clusters))
  {
    hide IsCluster, ProposalsOf, Excerpt, IsStaged, WithRationale;
    var all := Staging([], map[]);
    StageNothing();
    for i := 0 to |clusters|
      invariant IsStaged(all, AllStaged(clusters[..i]))
      invariant forall k :: 0 <= k < i ==> Excerpt(clusters[k].text, EXCERPT_BYTES).Done?
    {
      assert clusters[..i + 1][..i] == clusters[..i];
      ProposalCount(docs, clusters[i]);
      var proposals := ClusterToProposals(clusters[i]);
      var more := StageCluster(clusters[i], proposals, all, AllStaged(clusters[..i]));
      if more.Panic? {
        return Panic;
      }
      all := more.value;
    }
    assert clusters[..|clusters|] == clusters;
    return Done(all);
  }

  ghost predicate IsPlan(planned: map<string, seq<nat>>, ps: seq<Proposal>) {
    && planned.Keys == Targets(ps)
    && forall f :: f in planned ==> planned[f] == Planned(ps, f)
  }

  lemma PlanNothing()
    ensures IsPlan(map[], [])
  {
  }

  lemma PlanMore(planned: map<string, seq<nat>>, ps: seq<Proposal>, p: Proposal)
    requires IsPlan(planned, ps)
    ensures IsPlan(planned[p.targetFile := Get(planned, p.targetFile) + ParseLineRange(p.lineRange)], ps + [p])
  {
    hide ParseLineRange;
    var more := ps + [p];
    forall f
      ensures f in Targets(more) <==> f in Targets(ps) || f == p.targetFile
    {
      if f in Targets(ps) {
        var i :| 0 <= i < |ps| && ps[i].targetFile == f;
        assert more[i].targetFile == f;
      }
      assert more[|ps|] == p;
    }
    forall f
      ensures Planned(more, f) ==
              if f == p.targetFile then Planned(ps, f) + ParseLineRange(p.lineRange) else Planned(ps, f)
    {
      PlannedMore(ps, p, f);
    }
    if p.targetFile !in planned {
      NothingPlanned(ps, p.targetFile);
    }
  }

  lemma {:induction false} NothingPlanned(ps: seq<Proposal>, f: string)
    requires f !in Targets(ps)
    ensures Planned(ps, f) == []
  {
    hide ParseLineRange;
    if ps != [] {
      var front := ps[..|ps| - 1];
      assert ps[|ps| - 1].targetFile in Targets(ps);
      assert forall i :: 0 <= i < |front| ==> front[i] == ps[i];
      NothingPlanned(front, f);
    }
  }

  /** The warnings for a file: the stubs of all that is planned for it. */
  ghost function WarningsFor(texts: map<string, string>, ps: seq<Proposal>, f: string): seq<string> {
    if f in texts then Sorted(RiskOf(texts[f], SetOf(Planned(ps, f)))) else []
  }

  ghost predicate WarningPanics(texts: map<string, string>, ps: seq<Proposal>) {
    exists f :: f in Targets(ps) && f in texts && CheckPanics(texts[f], SetOf(Planned(ps, f)))
  }

  /** The proposals of all clusters, in order, each with its rationale and the
      warnings for its file. */
  ghost predicate IsFiled(texts: map<string, string>, all: seq<(Proposal, string)>, results: seq<Filed>) {
    && |results| == |all|
    && forall i :: 0 <= i < |all| ==>
         && results[i].proposal == all[i].0
         && results[i].rationale == all[i].1
         && results[i].warnings == WarningsFor(texts, Firsts(all), all[i].0.targetFile)
  }

  method AllWarnings(texts: map<string, string>, planned: map<string, seq<nat>>, ghost ps: seq<Proposal>)
    returns (r: Outcome<map<string, seq<string>>>)
    requires IsPlan(planned, ps)
    ensures r.Panic? <==> WarningPanics(texts, ps)
    ensures r.Done? ==>
              r.value.Keys == Targets(ps) && forall f :: f in r.value ==> r.value[f] == WarningsFor(texts, ps, f)
  {
    hide CheckPanics, RiskOf, Planned, Targets;
    var warnings: map<string, seq<string>> := map[];
    var rest := planned.Keys;
    while rest != {}
      invariant rest <= planned.Keys && warnings.Keys == planned.Keys - rest
      invariant forall f :: f in warnings ==> warnings[f] == WarningsFor(texts, ps, f)
      invariant forall f :: f in warnings && f in texts ==> !CheckPanics(texts[f], SetOf(Planned(ps, f)))
      decreases rest
    {
      var f :| f in rest;
      rest := rest - {f};
      var w := ComputeStubRisk(if f in texts then Some(texts[f]) else None, planned[f]);
      if w.Panic? {
        assert f in Targets(ps) && f in texts;
        return Panic;
      }
      warnings := warnings[f := w.value];
    }
    return Done(warnings);
  }

  /** What `generate_dedup_proposals` comes to for the clusters of a scan. */
  ghost predicate IsGenerated(texts: map<string, string>, clusters: seq<Cluster>, r: Outcome<seq<Filed>>) {
    var ps := AllProposals(clusters);
    && IsScan(LinesOf(texts), clusters)
    && (r.Panic? <==> ExcerptPanics(clusters) || WarningPanics(texts, ps))
    && (r.Done? ==> IsFiled(texts, AllStaged(clusters), r.value))
  }

  /** `generate_dedup_proposals`. */
  method GenerateDedupProposals(texts: map<string, string>) returns (r: Outcome<seq<Filed>>)
    ensures exists clusters :: IsGenerated(texts, clusters, r)
  {
    hide IsScan, LinesOf, AllStaged, ExcerptPanics, WarningPanics, IsFiled, IsStaged, IsPlan, IsCluster;
    var clusters := ScanBrainFiles(texts);
    ghost var all := AllStaged(clusters);
    ghost var ps := AllProposals(clusters);
    assert forall i :: 0 <= i < |clusters| ==> IsCluster(LinesOf(texts), clusters[i]) by {
      ClustersOfScan(LinesOf(texts), clusters);
    }
    var staging := Stage(clusters, LinesOf(texts));
    if staging.Panic? {
      assert IsGenerated(texts, clusters, Panic);
      return Panic;
    }
    StagedPlan(staging.value, all);
    var warnings := AllWarnings(texts, staging.value.planned, ps);
    if warnings.Panic? {
      assert IsGenerated(texts, clusters, Panic);
      return Panic;
    }
    var results := AttachWarnings(texts, staging.value.staged, warnings.value);
    assert IsGenerated(texts, clusters, Done(results));
    return Done(results);
  }

  /** The last loop: every proposal gets the warnings for its file. */
  method AttachWarnings(texts: map<string, string>, staged: seq<(Proposal, string)>, warnings: map<string, seq<string>>)
    returns (results: seq<Filed>)
    requires warnings.Keys == Targets(Firsts(staged))
    requires forall f :: f in warnings ==> warnings[f] == WarningsFor(texts, Firsts(staged), f)
    ensures IsFiled(texts, staged, results)
  {
    hide WarningsFor;
    ghost var ps := Firsts(staged);
    results := [];
    for i := 0 to |staged|
      invariant |results| == i
      invariant forall k :: 0 <= k < i ==>
                  && results[k].proposal == staged[k].0 && results[k].rationale == staged[k].1
                  && results[k].warnings == WarningsFor(texts, ps, staged[k].0.targetFile)
    {
      var (proposal, rationale) := staged[i];
      assert proposal == ps[i];
      assert proposal.targetFile in Targets(ps);
      results := results + [Filed(proposal, rationale, warnings[proposal.targetFile])];
    }
  }

  lemma ClustersOfScan(docs: Docs, clusters: seq<Cluster>)
    requires IsScan(docs, clusters)
    ensures forall i :: 0 <= i < |clusters| ==> IsCluster(docs, clusters[i])
  {
  }

  lemma StagedPlan(s: Staging, all: seq<(Proposal, string)>)
    requires IsStaged(s, all)
    ensures s.staged == all && IsPlan(s.planned, Firsts(all))
  {
  }

  // ----- what the warnings are worth ----------------------------------------------------------

  /** Every proposal is about at least one line, and its range is printed from
      its lines. */
  lemma {:induction false} ProposalsHaveRanges(docs: Docs, clusters: seq<Cluster>, i: nat)
    requires forall k :: 0 <= k < |clusters| ==> IsCluster(docs, clusters[k])
    requires i < |AllProposals(clusters)|
    ensures var p := AllProposals(clusters)[i];
            && p.removed != [] && p.lineRange == LineRange(p.removed) && p.targetFile in docs
            && forall n :: n in p.removed ==> 1 <= n <= |docs[p.targetFile]|
  {
    hide IsCluster, ProposalsOf, LineRange, At, AllProposals;
    NoProposals();
    if clusters != [] {
      AllProposalsStep(clusters);
      var front, last := clusters[..|clusters| - 1], clusters[|clusters| - 1];
      var before := AllProposals(front);
      if i < |before| {
        ProposalsHaveRanges(docs, front, i);
      } else {
        ProposalCount(docs, last);
        var p := ProposalsOf(last)[i - |before|];
        assert AllProposals(clusters)[i] == p;
        RemovedAreLines(docs, last, i - |before|);
      }
    }
  }

  lemma NoProposals()
    ensures AllProposals([]) == []
  {
  }

  lemma RemovedAreLines(docs: Docs, c: Cluster, i: nat)
    requires IsCluster(docs, c) && CanPropose(c) && i < |ProposalsOf(c)|
    ensures var p := ProposalsOf(c)[i];
            p.targetFile in docs && forall n :: n in p.removed ==> 1 <= n <= |docs[p.targetFile]|
  {
    hide IsCluster, ProposalsOf, LineRange, Bears;
    ProposalCount(docs, c);
    var p := ProposalsOf(c)[i];
    forall n | n in p.removed
      ensures p.targetFile in docs && 1 <= n <= |docs[p.targetFile]|
    {
      assert ClusterRemoves(c, p.targetFile, n);
      ClusterRemovesIff(docs, c, p.targetFile, n);
    }
    assert p.removed[0] in p.removed;
  }

  /** A header that carrying out one proposal would newly empty is among its
      warnings exactly when some line that reads so is left, and left without a
      body, by all that is planned for the file. */
  lemma WarnedIff(texts: map<string, string>, clusters: seq<Cluster>, results: seq<Filed>, i: nat, h: string)
    requires IsFiled(texts, AllStaged(clusters), results) && i < |results|
    requires var p := results[i].proposal;
             && p.targetFile in texts && NamesKeep(texts[p.targetFile])
             && h in RiskOf(texts[p.targetFile], SetOf(p.removed))
    ensures var f := results[i].proposal.targetFile;
            var lines, planned := Lines(texts[f]), SetOf(Planned(AllProposals(clusters), f));
            h in results[i].warnings <==>
            exists k :: 0 <= k < |lines| && EmptiedAt(lines, planned, k) && lines[k] == h
  {
    hide AllStaged, NamesKeep, RiskOf, Planned, Lines, EmptiedAt, WarningsFor;
    var p := AllProposals(clusters)[i];
    assert results[i].proposal == p;
    WarningsAre(texts, AllProposals(clusters), p.targetFile, h);
    ReportedIff(texts[p.targetFile], SetOf(p.removed), SetOf(Planned(AllProposals(clusters), p.targetFile)), h);
  }

  lemma WarningsAre(texts: map<string, string>, ps: seq<Proposal>, f: string, h: string)
    requires f in texts
    ensures h in WarningsFor(texts, ps, f) <==> h in RiskOf(texts[f], SetOf(Planned(ps, f)))
  {
    hide RiskOf, Planned;
  }

  /** In particular no such header is missing as long as the ranges planned for
      the file cover no header. */
  lemma WarningsMissNothing(texts: map<string, string>, clusters: seq<Cluster>, results: seq<Filed>, i: nat)
    requires IsScan(LinesOf(texts), clusters) && IsFiled(texts, AllStaged(clusters), results)
    requires i < |results|
    requires var f := results[i].proposal.targetFile;
             f in texts ==>
               && NamesKeep(texts[f]) && |Lines(texts[f])| <= USIZE_MAX
               && HeaderFree(Lines(texts[f]), SetOf(Planned(AllProposals(clusters), f)))
    ensures var p := results[i].proposal;
            && p.targetFile in texts
            && forall h :: h in RiskOf(texts[p.targetFile], SetOf(p.removed)) ==> h in results[i].warnings
  {
    hide AllStaged, IsCluster, HeaderFree, NamesKeep, RiskOf, ParseLineRange, LineRange, Planned, Lines;
    var ps := AllProposals(clusters);
    var p := ps[i];
    ProposalsHaveRanges(LinesOf(texts), clusters, i);
    RangeIsHull(p.removed);
    forall n | n in p.removed
      ensures n in Planned(ps, p.targetFile)
    {
      PlannedCovers(ps, i, n);
    }
    RiskGrows(texts[p.targetFile], SetOf(p.removed), SetOf(Planned(ps, p.targetFile)));
  }
}
