/** The stub warnings, told by the characters of the lines
    (`src/brain/dedup_scan.rs`, `src/brain/filter.rs`). */
module StubVerdicts {
  import opened Text
  import opened Sections
  import opened Filter
  import opened LineVerdicts
  import opened DedupRounds
  import opened StubRisk

  /** Some header line that reads so has an empty section. */
  ghost predicate IsStub(content: string, h: string) {
    exists i: nat :: i < |Lines(content)| && IsEmptySection(Lines(content), i) && Lines(content)[i] == h
  }

  lemma StrippedIff(content: string, h: string)
    ensures h in StrippedHeaders(Lines(content)) <==> IsStub(content, h)
  {
    hide TagOf, Lines, Drops, IsEmptySection;
    var lines := Lines(content);
    DroppedAre(lines, |lines|, h);
    forall i: nat | i < |lines|
      ensures Drops(Tags(lines), i) <==> IsEmptySection(lines, i)
    {
      DropsIff(lines, i);
    }
  }

  /** A header is at risk exactly if a line that reads so has an empty section after
      the removal, and none has before. */
  lemma RiskIff(content: string, removed: set<nat>, h: string)
    ensures h in RiskOf(content, removed) <==>
            IsStub(Join(Remaining(Lines(content), removed, 0), "\n"), h) && !IsStub(content, h)
  {
    hide StrippedHeaders, Lines, IsStub, Join;
    StrippedIff(content, h);
    StrippedIff(AfterRemoval(content, removed), h);
  }
}
