# Verified models of the StemCell core

This project models, in Dafny, the parts of StemCell whose behaviour is hard to
see from reading one function, and proves what they promise: the algebra of
markdown sections in the brain files, the sidecar file of pruned sections, the
lock and registry protocols between processes, and several small algorithms and
long-running loops. `dafny verify dfyconfig.toml` checks all of it.

Code that works step by step in the source is a method or a class here, proved
against a function or a predicate; what the source promises is then proved about
that function, for all inputs or all runs.

## The modules

- `Text`, `Numbers`, `Ordering`: Rust's `str::lines` (with its `\r` rule), `trim`,
  `split`, `join`, byte lengths, printed and parsed numbers, the order of strings,
  and the library sort.
- `Sections`, `Passes`, `Filter`, `SteadyLines`, `FilterPasses`, `FilterExamples`,
  `LineVerdicts` (`src/brain/filter.rs`): one pass of `strip_empty_sections` on lines,
  its outline, what a lost carriage return changes, repeated passes, texts that go
  wrong, and the whole call told by the characters of the lines.
- `SectionText`, `Pruned`, `Sync`, `SyncText`, `TopSections`, `SyncRuns`, `SyncReturns`
  (`src/brain/rsi_sync.rs`, `src/brain/rsi_pruned.rs`): template sync of one file, the
  lines that it appends, runs that mix syncs with user changes, and the runs in which
  an excluded section comes back.
- `MovedArray`, `MovedPairs`, `CommaBreaks`, `Sidecar`, `SectionNames`, `Reloading`,
  `Layouts` (`src/brain/rsi_pruned.rs`): the printer and the hand-written parser of the
  sidecar file, the names of its sections, what comes back of what was saved, and files
  in other layouts.
- `Dedup`, `DedupTexts`, `DedupProposals`, `DedupRounds`, `StubRisk`, `StubVerdicts`,
  `DedupFiling`, `StubExamples` (`src/brain/dedup_scan.rs`): duplicate lines, the
  proposals to remove them, what is left, and the warnings.
- `TokenLocks`, `Registry` (`src/config/profile.rs`): transition systems over any
  number of processes.
- `Wrap` (`src/cli/ui.rs`), `Debate` (`src/a2a/debate.rs`), `RsiCycle`, `RsiReports`
  (`src/brain/rsi.rs`), `ShellTokens` (`src/brain/rsi_subsystem.rs`), `Features`
  (`build.rs`), `Frontmatter` (`src/brain/skills.rs`).

## What the code does not keep

Where a promise turned out to be false, the code is modelled as it is, a lemma
gives an input on which it fails, and the condition under which it holds is
proved.

- A doubled carriage return before a newline loses one `\r` each time a text is
  read and written.
  - For the filter only one kind of line matters: blanks, two to six hashes and then
    only carriage returns, which is no header as it stands and becomes one. Without
    such a line five calls are always enough (`FilterPasses.FivePasses`); around every
    such line there are texts for which no number of calls is
    (`FilterPasses.FadingHasNoBound`).
  - Template sync converges exactly when every upstream header that ends in a carriage
    return has its twin with one more (`Sync.SyncConvergesIff`); an upstream that
    makes every sync append again is `SyncReturns.DoubledReturnsDoNotConverge`. An
    excluded header can come in exactly with two carriage returns at its end
    (`SyncRuns.SyncIntroducesIff`, `SyncReturns.ExcludedComesIn`).
- A sidecar section whose name has `=` in it is no section to the parser, so what
  stands in it is read for the nearest file before it, or for none
  (`Reloading.FallsIff`). What was saved comes back whole exactly when every file
  with entries has a name without `=`, newline and blanks at its ends, and the moved
  pairs of every file are well nested (`Reloading.RoundTripIff`).
  - The write tool records under any relative path, so such names occur. A pruned
    header stays recorded through every run exactly as long as no step displaces it
    (`SyncRuns.PrunedRecordedIff`): a recorded rewrite under a path with `=`, which
    has the file as its nearest name below and takes out other headers
    (`SyncRuns.DisplacesIff`). Until then it stays gone
    (`SyncRuns.PrunedStaysGone`); after `## B` is pruned from `memory/k=v.md`, the next
    sync of `USER.md` appends the `## A` that was pruned from it
    (`SyncReturns.EqualsSignReturns`).
  - The tool records under the path as it is given, and the sync looks up the name of
    the file. What a rewrite takes out is recorded for the file exactly when both are
    the same, or the path is read for the file as above, or it was recorded before
    (`SyncRuns.ShrunkRecordedIff`); a rewrite of `./SOUL.md` is undone by the next sync
    (`SyncReturns.OtherPathReturns`).
- The sidecar is saved and loaded between any two steps, so a moved pair that is not
  read back is forgotten. Where every section is its file's own, the moved headers of
  a file stay excluded exactly when its pairs are well nested
  (`SyncRuns.MovedSurviveIff`). A move of `## a]` is not: the next sync writes that
  header back (`SyncReturns.UnbalancedMoveReturns`). Only the tests call
  `record_moved` and `clear` so far, so such a run needs a caller still to come, or a
  sidecar edited by hand.
- A body line that is a single `|` makes `is_table_separator` slice out of range, and no
  other line makes the scan abort (`FilterExamples.CrashIff`).
  `Filter.StripEmptySections` aborts exactly when a header's scan reaches such a
  line; `FilterPasses.StripPanics` says when, and `FilterExamples.BarAborts` is a text.
- The newline at the end of a filtered text is not kept "iff the original had one":
  a text without one gets one when the last line that is kept is blank
  (`Filter.ClosedIff`, `FilterExamples.OpenComesOutClosed`).
- A marker such as `TODO` is looked for as a word only where it occurs first
  (`Filter.InFlightMarkerIff`), so a later one is overlooked
  (`Filter.LaterMarkerIsMissed`).
- The rationale of a dedup proposal cuts the text at byte 80, and aborts exactly
  when a character straddles that byte (`DedupFiling.ExcerptPanicsIff`), as an accented
  letter behind 79 plain ones does (`DedupFiling.AccentPanics`).
- A lock left by a dead process can be taken over exactly when the profile name in
  it has no colon (`TokenLocks.DeadLockTakeover`); names that pass
  `validate_profile_name` have none. The name behind `-p` does not pass it
  (`src/cli/args.rs:387`): a lock taken under `a:b` stays
  (`TokenLocks.DeadLockStays`).
- `release_all_locks` trims the record before it compares it, so it removes the locks
  of the process exactly when the profile name does not begin with a blank
  (`TokenLocks.ReleaseAllFreesIff`); the lock of a process under ` a` stays
  (`TokenLocks.BlankKeepsLock`).
- Moved pairs come back from the sidecar exactly when their brackets nest
  (`MovedPairs.PairArrayRoundTripsIff`): `parse_moved_array` counts brackets inside
  strings. Each pair must be balanced, except that the last one of a file may
  leave one bracket open, which the bracket of the array then closes.
- A front matter split reassembles to its input exactly when the closing fence is
  `---` without blanks around it (`Frontmatter.ReassemblesIff`,
  `Frontmatter.BlankIsLost`), and aborts exactly
  when a character lies across one of the two bytes it cuts at
  (`Frontmatter.SplitAbortsIff`), as a no-break space behind the fence does
  (`Frontmatter.BlankBreaksSplit`).
- The counter of the engine is written before the scan that it calls for, and the hash
  before the agent that it calls for is launched; each write empties its file first.
  - A kill between the hash and the agent loses that launch until the opportunities
    change (`RsiCycle.LaunchesIff`, `RsiCycle.LaunchIsLost`); one in the write of the
    hash makes any list news to the next cycle (`RsiCycle.LaunchesAgain`).
  - A kill between the counter and the end of a due scan loses that scan
    (`RsiCycle.ScanIsLost`), and one in the write of the counter loses the cycles
    counted towards the next (`RsiCycle.CounterIsCut`). The scans are complete exactly
    when no scan was lost and the lost cycles do not make up one
    (`RsiCycle.ScansCompleteIff`).
- `wrap_plain` drops a space for every line that would start with one
  (`Wrap.WrapKeepsTextIff`), as one of two spaces at the end of a full line
  (`Wrap.SpaceIsLost`).
- The comment on `hash_opportunities` says that the separator cannot appear inside
  a description. Nothing enforces it. Lists of descriptions that keep to it have
  different joins (`RsiCycle.JoinInjective`), and every description that does not
  gives rise to two different lists with the same join
  (`RsiCycle.SeparatorLineCollides`).
- A dedup proposal keeps the span of its lines as text, not the lines, and the
  cumulative stub check works on the spans. A header that one proposal empties is
  reported exactly when the lines outside all spans leave it in place and without a
  body (`DedupFiling.WarnedIff`); two files for which it is not are
  `StubExamples.SpanHidesStub`. Without a span that covers a header none is missed
  (`DedupFiling.WarningsMissNothing`).
- One round of dedup removals need not be the last: when several files bear a text
  and the one that keeps it repeats it, the next scan finds it again
  (`DedupRounds.OneRoundSufficesIff`, `DedupRounds.OneRoundIsNotEnough`). Two rounds
  always are enough
  (`DedupRounds.TwoRoundsSuffice`).

## Model

| member | source | states |
|---|---|---|
| Filter.StripEmptySections | src/brain/filter.rs:44-111 | the call aborts exactly when some header's scan reaches a lone bar, and otherwise returns the text without the lines of the empty regions and the list of their headers |
| Filter.BodyIsEmpty | src/brain/filter.rs:141-158 | the early-exit loop finds what the first line that is not blank or structural decides |
| Filter.CheckInFlightMarker | src/brain/filter.rs:163-188 | found iff one of the four markers stands in the line as a word, judged at its first occurrence |
| Filter.FindRegionEnd | src/brain/filter.rs:64-71 | the region ends at the next header of the same or a higher rank, or at the end of the text |
| Filter.ScanHeaders | src/brain/filter.rs:60-80 | the header loop, which skips over each dropped region, finds the regions of all headers with an empty region, and aborts iff one scan aborts |
| Filter.HeaderLevelIff | src/brain/filter.rs:121-138 | the level is n from 2 to 6 iff the line is blanks, n hashes, and then a space or nothing |
| Filter.InFlightMarkerIff | src/brain/filter.rs:160-188 | a line is recognised iff some marker, in any case, stands in it as a word where that marker first occurs |
| Filter.LaterMarkerIsMissed | src/brain/filter.rs:160-188 | a line with a marker as a word, behind an occurrence of it inside another word, that is taken for quiet |
| Filter.ClosedIff | src/brain/filter.rs:101-105 | the output ends in a newline iff the input does or its last of several lines is blank |
| Filter.HeaderIsContent | src/brain/filter.rs:121-157 | the emptiness scan, which does not look for headers, stops at every one |
| FilterExamples.CrashIff | src/brain/filter.rs:193-231 | a body line makes the scan abort iff it is a lone bar, blanks around it aside |
| FilterExamples.BarAborts | src/brain/filter.rs:222-231 | such a text: a header and a lone bar |
| FilterExamples.OpenComesOutClosed | src/brain/filter.rs:101-105 | a text without a newline at its end that comes out with one |
| LineVerdicts.MarkerIff | src/brain/filter.rs:160-188 | a line is recognised as in flight iff one of the four marker words stands in it in any case, where it first occurs, with no letter, digit or underscore next to it |
| LineVerdicts.KindIff | src/brain/filter.rs:141-239 | for any line: quiet iff it is blank, or has no such marker and is a rule, a table rule, a comment or a short quote, told by its characters; aborting iff a lone bar; content otherwise |
| LineVerdicts.QuietIff | src/brain/filter.rs:121-239 | the same for lines that may be headers |
| LineVerdicts.DropsIff | src/brain/filter.rs:60-158 | a header is dropped iff every line below it, before the next header of its level or a higher rank, is quiet; its scan aborts iff only quiet lines come before a lone bar there |
| LineVerdicts.StripIs | src/brain/filter.rs:44-111 | the result of a call on any text, by the characters of its lines: abort, content and stripped headers |
| LineVerdicts.MarkerStays | src/brain/filter.rs:141-158 | a header stays if a line with a marker lies below it, and so does the line, if it is no header |
| Sections.AssembleKept | src/brain/filter.rs:89-99 | the loop over the drop ranges keeps exactly the lines outside them, in order |
| Sections.OneHeaderPerDrop | src/brain/filter.rs:60-80 | a dropped region holds no header but its first line |
| Sections.DroppedIffInEmptyRegion | src/brain/filter.rs:60-99 | a line is dropped iff it lies in the region of a header whose region is empty |
| Sections.DropRangesIncrease | src/brain/filter.rs:57-80 | the drop ranges are disjoint and increasing |
| Passes.KeptRegion | src/brain/filter.rs:51-99 | in the output, the region of a kept header is its old region without the dropped lines, so no region grows |
| Passes.OutlineOfPass | src/brain/filter.rs:44-111 | one pass over a document is one pass over the list of its headers with the verdicts on the lines below them |
| Passes.PassSettles | src/brain/filter.rs:44-111 | if no header of some level or deeper has an empty region, then after a pass none of the next level up has either |
| SteadyLines.TagSteady | src/brain/filter.rs:121-207 | losing the carriage return at its end changes what the filter sees in a line only if the line is blanks, two to six hashes and carriage returns |
| FilterPasses.StripIsPass | src/brain/filter.rs:44-111 | one call on a text without such a line is one pass over its outline, through writing and reading the text, and its result has no such line either |
| FilterPasses.StripPanics | src/brain/filter.rs:222-231 | whether a call aborts depends on the outline alone |
| FilterPasses.FixpointIff | src/brain/filter.rs:44-111 | a call that does not abort leaves a text, any text, as it is iff no header in it has an empty region |
| FilterPasses.FivePasses | src/brain/filter.rs:44-138 | five calls reach a fixpoint of every text without a line of blanks, hashes and carriage returns only; after k calls no header of level 7 - k or deeper has an empty region, and if the first call does not abort none does |
| FilterPasses.FadingHasNoBound | src/brain/filter.rs:44-138 | around every such line, and for every number of calls, there is a text that one more call still changes |
| FilterPasses.SettlesWithin | src/brain/filter.rs:44-138 | any text at all reaches a fixpoint, or makes a call abort, within as many calls as it has lines that are headers or such lines |
| FilterPasses.FiveIsTight | src/brain/filter.rs:44-138 | on a chain of `##` to `######` headers the fifth call still changes the text |
| SectionText.CutBlocks | src/brain/rsi_sync.rs:204-238 | the accumulator loop cuts a text into one block for each header, in order |
| SectionText.RenderedHeaders | src/brain/rsi_sync.rs:240-271 | reading a rendered list of blocks back gives exactly their headers, in order, each without one carriage return at its end |
| Sync.ExtractNew | src/brain/rsi_sync.rs:200-262 | the text of the upstream blocks whose header is not local |
| Sync.ExtractedHeaders | src/brain/rsi_sync.rs:200-271 | for any texts, the headers of the new sections are upstream's, in order, without the local ones, each without one carriage return, and the text is blank iff there are none |
| Sync.SyncSingleFile | src/brain/rsi_sync.rs:480-663 | the result of syncing one file, including the bail-out on the cap and its report |
| Sync.SyncAppends | src/brain/rsi_sync.rs:509-597 | for any texts, a written file starts with the local text, and its headers are those of the local text, its last line closed, followed by what arrives of the upstream headers that are not local, in order |
| Sync.TidySyncAppends | src/brain/rsi_sync.rs:509-597 | on texts without doubled carriage returns: the local headers followed by exactly the upstream headers that are not local, pruned or moved, in order |
| Sync.ArrivingAre | src/brain/rsi_sync.rs:509-597 | a header arrives iff it comes from an upstream one that the filter does not exclude by losing one carriage return, or two if something is excluded |
| Sync.SyncConvergesIff | src/brain/rsi_sync.rs:509-597 | for any texts: after a write another sync against the same upstream appends nothing iff every wanted upstream header that ends in a carriage return, and is not in the closed local text, has a wanted twin with one more, or two more if something is excluded |
| Sync.SyncConverges | src/brain/rsi_sync.rs:509-597 | in particular it appends nothing when no upstream header line ends in a doubled carriage return |
| Sync.NothingToAppendIff | src/brain/rsi_sync.rs:509-535 | for any texts, nothing is appended iff every upstream header is local or, without one carriage return, pruned or moved |
| Sync.MergedCount | src/brain/rsi_sync.rs:553-597 | the computed line count is the true one if the local text is empty or ends in a newline, and one too high otherwise |
| Sync.LineCap | src/brain/rsi_sync.rs:553-597 | no file that is written has more lines than the cap |
| SyncText.SyncWrites | src/brain/rsi_sync.rs:200-597 | for any texts, the written text is the local one and behind it, for each upstream section that arrives, in order, a blank line and its lines up to the next heading, and one more blank line if the filter has read them and another new section followed; and how it is read back |
| SyncText.SectionArrives | src/brain/rsi_sync.rs:200-597 | each upstream section that arrives stands in the written file whole, its lines one after the other, each without the carriage returns that reading costs |
| SyncText.SyncOutcome | src/brain/rsi_sync.rs:509-611 | for any texts, which of the four outcomes a sync has: up to date iff no upstream section is new, all pruned iff some are and none arrives, bailed iff some arrives and the counted lines exceed the cap, with the fields of its report, and written otherwise |
| SyncText.SectionsAddedAre | src/brain/rsi_sync.rs:542-663 | a sync reports the number of `## ` sections that arrive |
| SyncText.FilterKeeps | src/brain/rsi_pruned.rs:448-494 | the filter alone, on any text, leaves the sections whose heading is not excluded, with their lines |
| TopSections.CutSections | src/brain/rsi_sync.rs:398-415 | the accumulator loop gives each `## ` header with the number of lines of its section |
| TopSections.SizesFrom | src/brain/rsi_sync.rs:398-415 | each section counts the lines from its header to the next one |
| TopSections.SizesCover | src/brain/rsi_sync.rs:398-415 | every line from the first such header on is counted exactly once |
| TopSections.BySizeSorts | src/brain/rsi_sync.rs:416 | the sort puts larger sections first and keeps all sections of each size, in their order |
| TopSections.ListedAreLargest | src/brain/rsi_sync.rs:416-421 | a listed section is at least as large as every one left out, and none is left out unless the list is full |
| SyncRuns.SyncIntroducesIff | src/brain/rsi_sync.rs:509-597 | for any texts, a written file newly shows an excluded header iff upstream has it with two carriage returns, in a form neither local nor excluded |
| SyncRuns.Reloaded | src/brain/rsi_pruned.rs:87-343 | after a save and a load each file has the headers, and what the reader makes of the moved pairs, of the last section that falls to it, under names the parser can give, and all of it can be saved again |
| SyncRuns.ExcludedStaysGone | src/brain/rsi_pruned.rs:87-494 | over every run of syncs, rewrites, moves and clears, each step loading and saving the sidecar, an excluded header does not come back unless it is cleared or a step brings it by itself; a pruned one as long as no step displaces its record, a moved one as long as each move on the file leaves its pairs well nested and no other is read for it |
| SyncRuns.PrunedStaysGone | src/brain/rsi_pruned.rs:87-494 | a pruned header that the file does not show stays out of it, and recorded, over every run in which no step clears or displaces its record or brings it by itself |
| SyncRuns.PrunedNextIff | src/brain/rsi_pruned.rs:87-396 | a pruned header is still recorded after a step that is no clear iff the step does not displace it |
| SyncRuns.PrunedRecordedIff | src/brain/rsi_pruned.rs:87-396 | over a run without clears it is recorded at every moment iff no step displaces it |
| SyncRuns.DisplacesIff | src/brain/tools/write_stemcell_file.rs:20-57 | a recorded rewrite under a path on one line displaces the record of a file iff it takes out headers but not that one, there is `=` in the path, and the file is the nearest name below it with records |
| SyncRuns.ShrunkRecordedIff | src/brain/tools/write_stemcell_file.rs:189-196 | a header that a recorded rewrite takes out of a file is recorded for it iff the given path is the name of the file, or is read for the file, or the header was recorded before |
| SyncRuns.ShrunkStaysGone | src/brain/rsi_pruned.rs:369-494 | what a rewrite recorded under the name of the file takes out stays gone in the same way |
| SyncRuns.MovedSurviveIff | src/brain/rsi_pruned.rs:199-343 | all moved headers of a file are still excluded after a save and a load iff its pairs are well nested, or another section is read for it and has them all; iff they are well nested where every section is its file's own |
| SyncRuns.MovedStaysGone | src/brain/rsi_pruned.rs:87-494 | a moved header stays gone over every run in which each move on the file leaves its pairs well nested and no other is read for it |
| SyncReturns.BrokenMoveReturns | src/brain/rsi_pruned.rs:87-494 | a move that does not leave them so loses a moved header, which the next sync with an upstream that has it writes back, unless it is pruned too |
| SyncReturns.DisplacedReturns | src/brain/rsi_pruned.rs:87-494 | a header whose record a step displaces is written back by the next sync with an upstream that has it, unless it is moved too |
| SyncReturns.UnrecordedReturns | src/brain/tools/write_stemcell_file.rs:189-196 | so is one that a rewrite takes out under a path that is neither the name of the file nor read for it |
| SyncReturns.EqualsSignReturns | src/brain/rsi_pruned.rs:160-165 | such a run: `## A` is pruned from `USER.md`, `## B` from `memory/k=v.md`, and a sync of `USER.md` appends `## A` |
| SyncReturns.OtherPathReturns | src/brain/tools/write_stemcell_file.rs:150-195 | such a run: `## A` is taken out of `SOUL.md` as `./SOUL.md`, and a sync of `SOUL.md` appends it |
| SyncReturns.UnbalancedMoveReturns | src/brain/rsi_pruned.rs:199-238 | such a run: a move of `## a]` and one sync |
| SyncRuns.ClearForgets | src/brain/rsi_pruned.rs:386-396 | after a clear, a save and a load nothing of the file is recorded |
| SyncReturns.DoubledReturnsDoNotConverge | src/brain/rsi_sync.rs:200-271 | an upstream text with a doubled carriage return whose header every sync appends again |
| SyncReturns.ExcludedComesIn | src/brain/rsi_sync.rs:509-597 | an upstream text with three carriage returns behind a header that comes in although it is excluded |
| Pruned.PrunedState.RecordPruned | src/brain/rsi_pruned.rs:369-381 | the new state: the headers merged in, the time stamp, and nothing else changed |
| Pruned.PrunedState.RecordMoved | src/brain/rsi_pruned.rs:403-415 | the new state: entries merged in by header, the time stamp, and nothing else changed |
| Pruned.PrunedState.Clear | src/brain/rsi_pruned.rs:386-396 | the new state: the entries of one file, or of all, are gone |
| Pruned.MergeHeadersIsUnion | src/brain/rsi_pruned.rs:369-381 | recording adds exactly the given headers and keeps the old ones in front |
| Pruned.MergeMovedLookup | src/brain/rsi_pruned.rs:403-424 | the first destination recorded for a header stays its destination |
| Pruned.RecordingExcludes | src/brain/rsi_pruned.rs:369-424 | recording extends the excluded headers of that file by exactly what is recorded, and of no other file |
| Pruned.ClearingForgets | src/brain/rsi_pruned.rs:386-396 | a clear forgets the exclusions and the time of its files, and of no other |
| Pruned.DetectRemoved | src/brain/rsi_pruned.rs:429-439 | the headers of the old text that the new one lacks, sorted |
| Pruned.FilterPruned | src/brain/rsi_pruned.rs:448-494 | the text of the blocks whose header is neither pruned nor moved |
| Pruned.FilteredHeaders | src/brain/rsi_pruned.rs:448-494 | for any text, with something excluded, the headers that the filter leaves are the old ones, in order, without the excluded ones, each without one carriage return |
| MovedArray.ParseStringArray | src/brain/rsi_pruned.rs:241-277 | the scanning loop reads the strings of the array, escapes resolved |
| MovedArray.StringArrayRoundTrip | src/brain/rsi_pruned.rs:241-321 | any list of strings whatever comes back from its written array |
| MovedArray.ParseMovedArray | src/brain/rsi_pruned.rs:199-238 | the bracket-counting loop cuts out the pieces, and those with two strings are the pairs |
| MovedPairs.NestingEscape | src/brain/rsi_pruned.rs:199-223 | escaping does not change how the brackets of a text nest |
| MovedPairs.RowOutcome | src/brain/rsi_pruned.rs:199-223 | a balanced row gives its pair, one with open brackets keeps it pending, and one that closes early has lost it for good |
| MovedPairs.PairArrayRoundTripsIff | src/brain/rsi_pruned.rs:199-238 | a written array of pairs is read back iff the brackets of every pair are balanced, where the last may leave one open; otherwise at least one pair is lost |
| MovedPairs.BracketFree | src/brain/rsi_pruned.rs:199-223 | pairs whose strings have no brackets are well nested |
| Layouts.LaidOutPairs | src/brain/rsi_pruned.rs:194-238 | pairs with balanced brackets are read as they are however they are laid out, on one line or many, with anything but brackets between them |
| Layouts.OneLineMoved | src/brain/rsi_pruned.rs:178-184 | a moved array that ends on its own line gives the pairs of its section |
| Layouts.PaddedLine | src/brain/rsi_pruned.rs:127-160 | outside of arrays, blanks around a line make no difference |
| Layouts.VersionOne | src/brain/rsi_pruned.rs:105-125 | a sidecar without a schema version is read as version 1 |
| Sidecar.Save | src/brain/rsi_pruned.rs:284-342 | the text is the prologue and, for each file with entries in sorted order, its section |
| Sidecar.Parse | src/brain/rsi_pruned.rs:112-192 | the line loop computes what the lines give one after the other |
| Sidecar.RowsBuffered | src/brain/rsi_pruned.rs:131-144 | no written row ends the multi-line array, whatever its strings hold |
| CommaBreaks.RereadKeeps | src/brain/rsi_pruned.rs:199-277 | what is read of an array of pairs, however damaged, has newlines only after commas if what was written had |
| Reloading.ReadsRows | src/brain/rsi_pruned.rs:131-144 | rows with such newlines, written and read line by line, are collected like whole rows |
| SectionNames.OneLineOwner | src/brain/rsi_pruned.rs:160-165 | a section with `=` in its name is read for the file of the section before, and any other on one line for its name without the blanks around it |
| SectionNames.ParsedNamed | src/brain/rsi_pruned.rs:112-192 | from any text at all, what is read is for names on one line, without `=` and without blanks at their ends |
| Reloading.SectionRead | src/brain/rsi_pruned.rs:303-341 | a written section, wherever it stands, has the effect of its lists on the file that it is read for, and none before the first section |
| Reloading.ListsReturn | src/brain/rsi_pruned.rs:112-343 | after a save and a load a file has the pruned headers of the last section with some that falls to it, and likewise what the reader makes of the moved pairs |
| Reloading.PrunedHeirIff | src/brain/rsi_pruned.rs:112-343 | which section that is: the last, in the order of the names, of those with pruned headers that fall to the file |
| Reloading.MovedHeirIff | src/brain/rsi_pruned.rs:112-343 | and likewise for the moved pairs that the reader makes something of |
| Reloading.FallsIff | src/brain/rsi_pruned.rs:160-165 | with trimmed names on one line, a section without `=` falls to its own file and one with `=` to the nearest file below it that has a section without |
| Reloading.TakesPrunedIff | src/brain/rsi_pruned.rs:112-343 | one such list among others takes the place of the list of a file iff it has `=` in its name and the file is the nearest below |
| Reloading.RoundTripIff | src/brain/rsi_pruned.rs:112-343 | parsing what was saved gives the same pruned, moved and time stamp maps without empty entries, in schema version 2, iff every file with entries has a name that the parser can give and the moved pairs of every file are well nested |
| Reloading.NamedReturns | src/brain/rsi_pruned.rs:112-343 | with such names, whatever the moved pairs hold, the pruned headers and time stamps come back, and the moved pairs as the reader takes them |
| Reloading.ExclusionsSurvive | src/brain/rsi_pruned.rs:87-343 | with such names and well nested pairs the same headers are excluded from every file after saving and loading |
| Reloading.UnbalancedIsLost | src/brain/rsi_pruned.rs:199-238 | a pair whose header closes a bracket that it did not open is not read back |
| Dedup.ScanBrainFiles | src/brain/dedup_scan.rs:107-167 | one cluster for every text that occurs twice, with all its lines in each file, files in canonical order, clusters by frequency and text |
| DedupTexts.ClusterTexts | src/brain/dedup_scan.rs:62-167 | a text has a cluster iff at least two lines of the scanned files trim to it, and it has ten bytes or more and is no heading, no rule, no row between bars with `---` in it and no quote under twenty bytes |
| DedupTexts.ClusterHolds | src/brain/dedup_scan.rs:107-167 | the cluster has exactly those lines, each under its file, and their number |
| DedupTexts.ScanOrder | src/brain/dedup_scan.rs:150-167 | frequent texts come first, then by characters; within a cluster files by rank, then by name |
| Dedup.RanksByPurpose | src/brain/dedup_scan.rs:39-55 | the seven named files rank by purpose, all others after them |
| Dedup.LineNumbersAre | src/brain/dedup_scan.rs:119-134 | the recorded lines of a text are exactly those that bear it, in increasing order |
| Dedup.LinesInOccurrences | src/brain/dedup_scan.rs:136-149 | grouping the occurrences by file gives back the lines of each file |
| Ordering.SortBy | src/brain/dedup_scan.rs:150-158 | the sorted list is increasing and has the same elements |
| DedupProposals.ClusterToProposals | src/brain/dedup_scan.rs:178-220 | the proposals of a cluster |
| DedupProposals.ProposalCount | src/brain/dedup_scan.rs:178-259 | a cluster over k files gives k - 1 proposals, one when k is 1, each with its target, exact lines, count and canonical place |
| DedupProposals.DuplicateOfTells | src/brain/dedup_scan.rs:249 | the named place determines the file and the line |
| DedupProposals.RemovesIff | src/brain/dedup_scan.rs:178-259 | a line is removed iff it bears the text of a cluster and is not canonical |
| DedupProposals.ContentConserved | src/brain/dedup_scan.rs:107-259 | carrying out all proposals of all clusters leaves every text at the place that `duplicate_of` names, the first line in the lowest-ranked file that bears it |
| DedupRounds.TextsConserved | src/brain/dedup_scan.rs:107-220 | after all exact removals the same texts are present as before |
| DedupRounds.AfterRound | src/brain/dedup_scan.rs:178-220 | how often each file bears a text after a round |
| DedupRounds.OneRoundSufficesIff | src/brain/dedup_scan.rs:107-220 | the scan after a round finds nothing iff no text of several files is repeated in the one that keeps it |
| DedupRounds.OneRoundIsNotEnough | src/brain/dedup_scan.rs:107-220 | such files: a text twice in `SOUL.md` and once in `USER.md` |
| DedupRounds.TwoRoundsSuffice | src/brain/dedup_scan.rs:107-220 | a scan after two rounds always finds nothing, and no text is lost on the way |
| StubRisk.RangeIsHull | src/brain/dedup_scan.rs:238-248 | a printed range is parsed as all lines between its ends, which are just the given ones iff those are consecutive |
| StubRisk.ComputeStubRisk | src/brain/dedup_scan.rs:349-394 | the sorted headers that the filter would strip after the removal and not before |
| StubVerdicts.RiskIff | src/brain/dedup_scan.rs:349-394 | a header is at risk iff a line that reads so has a section of quiet lines only after the removal, and none has before |
| StubRisk.StubsAreStripped | src/brain/dedup_scan.rs:387-394 | the headers without a body are exactly those that the filter strips |
| StubRisk.RiskGrows | src/brain/dedup_scan.rs:349-394 | for removals without header lines, in a text whose headers do not change their names when read back, a larger one reports every header that a smaller one does |
| StubExamples.RenamedHides | src/brain/dedup_scan.rs:349-394 | around every line that changes its name so there is a text in which this fails |
| StubRisk.StubsAreEmptied | src/brain/dedup_scan.rs:349-394 | what the filter would strip after a removal are the header lines that are left and that have only quiet lines left up to the next header left of their level or above |
| StubRisk.ReportedIff | src/brain/dedup_scan.rs:349-394 | a header that one removal newly empties is reported for another iff a line that reads so is left by it without a body |
| StubRisk.DuplicatesAreNotHeaders | src/brain/dedup_scan.rs:62-90 | no line that a proposal removes is a header |
| StubExamples.RangeHidesStub | src/brain/dedup_scan.rs:326-394 | in a document of this shape the span of lines 2 and 5 covers a header, and the stub that removing those two leaves is no stub after removing the span |
| StubExamples.SpanHidesStub | src/brain/dedup_scan.rs:107-394 | two files whose scan files one proposal, for lines 2 and 5 of the second, which newly empties `## A` and whose warnings lack it |
| StubExamples.FilingSucceeds | src/brain/dedup_scan.rs:266-321 | on these two files nothing aborts |
| DedupFiling.ExcerptPanicsIff | src/brain/dedup_scan.rs:280-285 | the cut at a byte aborts iff a character begins before and ends behind it, and is as long as it can be otherwise |
| DedupFiling.AccentPanics | src/brain/dedup_scan.rs:280-285 | such a text: 79 letters and an accented one |
| DedupFiling.GenerateDedupProposals | src/brain/dedup_scan.rs:266-321 | for the clusters of a scan: all their proposals, in order, each with its rationale and the warnings for everything planned for its file; aborts iff an excerpt or a stub check does |
| DedupFiling.WarnedIff | src/brain/dedup_scan.rs:266-394 | a header that one proposal would newly empty is among its warnings iff some line that reads so is left, and left without a body, by all that is planned for the file |
| DedupFiling.WarningsMissNothing | src/brain/dedup_scan.rs:266-394 | in particular none is missing unless a planned span covers a header |
| TokenLocks.LockDirectory.AcquireTokenLock | src/config/profile.rs:547-590 | the outcome and the lock files after an acquisition |
| TokenLocks.LockDirectory.ReleaseTokenLock | src/config/profile.rs:593-598 | the lock file is gone, and nothing else changes |
| TokenLocks.LockDirectory.ReleaseAllLocks | src/config/profile.rs:601-616 | the loop removes exactly the files with the caller's own record |
| TokenLocks.AcquireIff | src/config/profile.rs:547-590 | in a reachable state an acquisition succeeds iff there is no lock, or its profile name has no colon and it is the caller's or a dead process's |
| TokenLocks.OutcomeIs | src/config/profile.rs:547-590 | the outcome for any contents of a lock file, which of the two refusals included |
| TokenLocks.ReadRecord | src/config/profile.rs:556-575 | a record gives its pid back iff the profile name has no colon, and reads as pid 0 otherwise |
| TokenLocks.LockNameInjective | src/config/profile.rs:549-552 | different channels or token hashes never share a lock file |
| TokenLocks.InvariantNext | src/config/profile.rs:547-616 | every step keeps every live process's locks on disk under its own record |
| TokenLocks.MutualExclusion | src/config/profile.rs:547-616 | over every run of spawns with pid reuse, acquisitions, releases and crashes no two live processes hold the same lock, whatever the profile names |
| TokenLocks.DeadLockTakeover | src/config/profile.rs:547-590 | in every reachable state a lock of a dead process can be taken over iff its profile name has no colon |
| TokenLocks.DeadLockStays | src/config/profile.rs:547-590 | a run under the profile name `a:b` after which the lock of a dead process is refused |
| TokenLocks.ValidNamesAreTakenOver | src/config/profile.rs:628-642 | valid profile names have no colon |
| TokenLocks.ReleaseAllFreesIff | src/config/profile.rs:601-616 | in every reachable state the release of all locks removes a lock of the process iff its profile name does not begin with a blank |
| TokenLocks.ReleasedIsFree | src/config/profile.rs:593-598 | a released lock can be taken by any process |
| TokenLocks.BlankKeepsLock | src/config/profile.rs:601-616 | a run under the profile name ` a` after which the lock file is still there |
| Registry.ProfileRegistry.Register | src/config/profile.rs:173-183 | the new entry is in the map, and nothing else changes |
| Registry.ProfileRegistry.Touch | src/config/profile.rs:185-189 | only the time of an existing entry changes |
| Registry.InvariantNext | src/config/profile.rs:106-171 | every step keeps the lock exclusive and the computed update fresh |
| Registry.FileIsAllRenames | src/config/profile.rs:106-171 | over every interleaving the file holds the updates of the completed renames, applied in their order |
| Registry.NoUpdateIsLost | src/config/profile.rs:96-171 | from a fresh start, with crashes anywhere, a reader finds no file or a complete registry, and it is exactly the updates of the completed renames |
| Registry.RenamesInLockOrder | src/config/profile.rs:122-171 | the completed renames happen in the order in which their calls took the lock |
| Registry.RegisteredStays | src/config/profile.rs:122-189 | over every run, if a call that registers a profile completes, and all that complete with a later lock register others or touch some, the file has the profile as it was registered |
| Registry.FileEntries | src/config/profile.rs:122-189 | over every run of calls that create, import, use and delete profiles: the file has exactly the profiles that were made and not deleted since, by the order of the locks, each as it was made last and with the time of its last use since |
| Registry.OneInside | src/config/profile.rs:122-171 | at most one call is between its lock and its unlock |
| Wrap.WrapPlain | src/cli/ui.rs:1254-1272 | the loop computes the greedy filling |
| Wrap.WrapIsOptimal | src/cli/ui.rs:1254-1272 | for every text of which no greedy line starts with a space, single-spaced words in particular, the lines joined give the text back, each line fits or is one word, and no other breaking has fewer lines |
| Wrap.WrapFillsLines | src/cli/ui.rs:1254-1272 | no line has more bytes than the width unless it is one word, and the next word would not fit on any |
| Wrap.WrapKeepsTextIff | src/cli/ui.rs:1254-1272 | for every text the lines joined give it back iff no greedy line starts with a space, or it is empty |
| Wrap.SpaceIsLost | src/cli/ui.rs:1254-1272 | such a text: two letters with two spaces between them, at width 1 |
| Wrap.NoEmptyFullStarts | src/cli/ui.rs:1254-1272 | with single spaces between words none does |
| Wrap.WrapKeepsLetters | src/cli/ui.rs:1254-1272 | on any text, wrapping loses, adds and reorders nothing but spaces |
| Debate.AnalyzeConsensus | src/a2a/debate.rs:272-312 | the counts of positions, split into agreement and contention at the threshold; consensus iff the confidence and some position reach it |
| Debate.AverageIs | src/a2a/debate.rs:273-278 | the average times the number of bees is the sum of their confidences |
| Debate.AverageBetween | src/a2a/debate.rs:273-278 | it lies between any bounds on them |
| Debate.ConsensusIff | src/a2a/debate.rs:272-303 | consensus iff that sum, and the number of bees that hold some position, reach the threshold times the number of bees |
| Debate.AtMostOneAgreement | src/a2a/debate.rs:288-293 | with a threshold above one half at most one position is agreed on |
| Debate.DebateSession.RecordRound | src/a2a/debate.rs:315-346 | the round is appended with its analysis, and the state says how it ends |
| Debate.RunDebate | src/a2a/debate.rs:583-641 | a run that does not fail numbers its rounds from 1, shows each critique the round before, ends Concluded iff its last round brings consensus, and no earlier round does; it fails only where nobody answers |
| Debate.FinishOrFail | src/a2a/debate.rs:624-628 | answers that make a run fail let none finish |
| Debate.WithoutPositionsExhausted | src/a2a/debate.rs:606-641 | since answers carry no positions, a run that finishes is Exhausted after exactly the maximum number of rounds |
| Debate.FinishedUnique | src/a2a/debate.rs:583-641 | the answers determine the number of rounds and the final state |
| RsiCycle.JoinInjective | src/brain/rsi.rs:50-55 | different lists of descriptions without a separator line have different joins |
| RsiCycle.SeparatorLineCollides | src/brain/rsi.rs:47-55 | around any description with a separator line, two different lists have the same join |
| RsiCycle.RsiEngine.Compare | src/brain/rsi.rs:818-835 | for any opportunities, they are news iff their join differs from that of the previous analysed cycle, and the hash is stored |
| RsiCycle.RsiEngine.Cycle | src/brain/rsi.rs:557-905 | a cycle does what the history calls for, also when the process is killed in the write of the hash, after it, while the agent runs, in the write of the counter, or in the scan |
| RsiCycle.RsiEngine.Start | src/brain/rsi.rs:553-560 | a restart forgets the feedback count and takes the counter from its file |
| RsiReports.Run | src/brain/rsi.rs:557-905 | over every run with restarts and kills the reports are those that the history calls for, told by the events and the reports before as in the next three rows |
| RsiReports.IdleIff | src/brain/rsi.rs:568-588 | a report is idle iff its event is a restart, has no count or one below 50, or has the count of the last event before it that was not idle, with no restart or kill from that one on |
| RsiReports.LaunchedIff | src/brain/rsi.rs:818-870 | a busy cycle tells and launches iff its opportunities join to another text than those of the last busy cycle, or the hash of that was cut off, and it is not killed before |
| RsiReports.ScannedIff | src/brain/rsi.rs:885-890 | a busy cycle scans iff it is a 24th counted one since the counter was last cut off, and it is not killed |
| RsiCycle.LaunchesIff | src/brain/rsi.rs:818-870 | with descriptions that are not empty and have no separator line, an analysed cycle launches the agent iff its list is not empty, is not that of the previous analysed cycle, or the hash of that was cut off, and the process is not killed between the start of writing the hash and launching |
| RsiCycle.LaunchIsLost | src/brain/rsi.rs:818-870 | a launch that such a kill prevents is not made up for by the same list |
| RsiCycle.ScansCounted | src/brain/rsi.rs:885-890 | of the counted cycles every 24th is scanned or missed, apart from those counted towards a scan when a write of the counter was cut off |
| RsiCycle.ScansCompleteIff | src/brain/rsi.rs:885-890 | the scans done are the counted cycles divided by 24 iff no kill falls between writing the counter and the end of a due scan, and the cycles that cut off counters lost do not make up a scan with those counted since |
| RsiCycle.ScanIsLost | src/brain/rsi.rs:885-890 | such a run: killed in the scan of the 24th cycle, no scan is done for it |
| RsiCycle.CounterIsCut | src/brain/rsi.rs:885-890 | another: killed in the write of the counter of the 24th cycle, no scan is done for 24 counted cycles |
| RsiCycle.LaunchesAgain | src/brain/rsi.rs:805-870 | of two analysed cycles in a row the second launches the agent iff the lists differ or the first was killed in the write of the hash, whatever older lists were |
| ShellTokens.FirstMeaningfulToken | src/brain/rsi_subsystem.rs:155-207 | the result is the first longest stretch without blanks behind blanks and assignments, none iff there is nothing else |
| ShellTokens.TokenUnique | src/brain/rsi_subsystem.rs:155-207 | the grammar determines the token |
| ShellTokens.PrefixIsIgnored | src/brain/rsi_subsystem.rs:155-207 | a prefix of blanks and assignments does not change the token behind it |
| ShellTokens.QuotedIsSkipped | src/brain/rsi_subsystem.rs:168-188 | an assignment with a value in single or double quotes is skipped whole, blanks in it included |
| ShellTokens.BareIsSkipped | src/brain/rsi_subsystem.rs:168-192 | one without quotes is skipped up to the next blank |
| ShellTokens.WordIsToken | src/brain/rsi_subsystem.rs:193-203 | a first word that is no assignment is the token, options with `=` included |
| ShellTokens.ClassifyBashCommand | src/brain/rsi_subsystem.rs:44-150 | a class iff the token, in lower case, is in the table |
| Features.ExpandImplies | build.rs:209-229 | the loop ends with the least set that contains the input and obeys all rules |
| Features.LeastClosedUnique | build.rs:209-229 | the result does not depend on the order of the rules |
| Features.ExpandIdempotent | build.rs:209-229 | expanding twice is expanding once |
| Features.ClosedIffReached | build.rs:209-229 | a name is switched on iff a chain of rules leads to it |
| Features.ResolveActiveFeatures | build.rs:231-249 | the active features are those of an enabled toggle's entry and the aliases with an enabled pack |
| Features.PipelineMonotone | build.rs:209-249 | more toggles never switch a feature off |
| Frontmatter.SplitFrontmatter | src/brain/skills.rs:179-200 | the result of the split with its byte offsets, aborts included |
| Frontmatter.RoundTrip | src/brain/skills.rs:179-200 | front matter of whole lines, none a fence, and any body come back from the split of their composition |
| Frontmatter.SplitSomeIff | src/brain/skills.rs:179-200 | a text that does not abort has front matter iff it starts with `---` and a newline and some line behind trims to `---` |
| Frontmatter.SplitParts | src/brain/skills.rs:179-200 | and then, for any text, it is as many bytes as the lines before the first such line have with one for each line break, four more bytes are skipped, and the rest is the body |
| Frontmatter.ReassemblesIff | src/brain/skills.rs:179-200 | a split reassembles to its input iff the closing fence is exactly `---` |
| Frontmatter.BlankIsLost | src/brain/skills.rs:179-200 | such a text, with a blank behind the fence |
| Frontmatter.SplitAbortsIff | src/brain/skills.rs:179-200 | for any text, the split aborts iff a character lies across the byte at which the closing fence is taken to start or the fourth byte from there |
| Frontmatter.FenceAbortsIff | src/brain/skills.rs:179-200 | without carriage returns, iff one lies across the fourth byte of the closing fence |
| Frontmatter.BlankBreaksSplit | src/brain/skills.rs:179-200 | such a text, with a no-break space behind the fence |

## Left out

- File, network and database access, the clock, notifications, and the text of prompts and reports: they are parameters, or nothing depends on them.
- `acquire_token_lock` reads and then writes without a lock; the model takes it as one step.
- The save of the registry without the lock (`src/cli/args.rs:391`) is not a step of the registry protocol, and Windows has no lock there.
- Hashes (SHA-256 of the opportunities, `hash_token`): the first is taken as injective and printed as some text without blanks around it, the second as any hex text.
- `to_lowercase` on positions is a parameter; agreement and contention are maps, since a HashMap's order is not fixed.
- Confidences are real numbers, so rounding and NaN are not modelled.
- The answers of a debate are given by round and not as a function of the prompt, which loses nothing for statements about all answers.
- Reloading.RoundTripIff: pruned headers and time stamps are single lines, time stamps have no quotes at their ends, and newlines in moved pairs follow a comma; all that the program records or reads back from its own file is so.
- Reloading.ListsReturn: file names without a line of their own that sets one of the parser's four keys; only a name with a newline in it can have one.
- SyncRuns.ExcludedStaysGone: paths, time stamps and pairs given to its steps are such, and a save that fails is not modelled. Which file a path leads to is left to the step, so that links and other spellings are covered.
- SyncRuns.DisplacesIff: for paths that are one trimmed line; `SyncRuns.PrunedRecordedIff` is about the others too.
- Layouts.LaidOutPairs: about balanced pairs; which others come back is proved for the layout that is written (`MovedPairs.PairArrayRoundTripsIff`).
- MovedArray.ParseMovedArray: the depth is an unbounded integer, where the source has 32 bits.
- DedupProposals.ContentConserved: about the exact lines of the proposals; applying a proposal by its printed span can remove other lines (`StubRisk.RangeIsHull`).
- DedupRounds.TwoRoundsSuffice: on lists of lines, the form the scan reads; how an edited file is written is not part of it.
- RsiReports.Run: at most 2^64 - 1 events, so the counter does not wrap; failed writes of the two files, and the way opportunities are found, are not modelled. A kill in the write of either file leaves it empty, since its few bytes are one write; a kill before that of the hash leaves nothing behind and is a restart.
- Frontmatter.ReassemblesIff: for texts without carriage returns.
- StubRisk.ReportedIff: for texts in which no line becomes a header, or a header of another name, when it loses the carriage return at its end; `StubExamples.RenamedHides` shows why for each such line.
- `classify_bash_command`: its table of tools is a parameter; `extract_cmd_from_meta` is not part of this model.
- The library sorts are insertion sorts here; only their result matters.
- Fetching templates, backups, `sync_templates` over all files, and filing proposals into the store add only wiring.
