/** Whole runs over the brain files and the sidecar file: template syncs, user
    rewrites that are recorded or not, moves, and clears. Every step that looks
    at the sidecar loads it, and every step that changes it saves it. */
module SyncRuns {
  import opened Text
  import opened SectionText
  import opened Ordering
  import opened Pruned
  import opened Sync
  import opened MovedArray
  import opened MovedPairs
  import opened CommaBreaks
  import opened Sidecar
  import opened SectionNames
  import opened Reloading

  /** The brain files, and the text of the sidecar, if there is one. */
  datatype State = State(files: map<string, string>, sidecar: Option<string>)

  datatype Step =
    /** The sync of one file against whatever upstream offers. */
    | SyncFile(file: string, upstream: string, cap: nat)
    /** A rewrite with cleanup or dedup intent: removed headers are recorded, under
        the path as it was given, which need not be the name of the file. */
    | Shrink(file: string, key: string, text: string, now: string)
    /** A rewrite that records nothing. */
    | Edit(file: string, text: string)
    /** A move, and a clear: no command does either yet. */
    | Move(file: string, entries: seq<MovedEntry>, now: string)
    | Clear(scope: Option<string>)

  const EMPTY: PrunedData := PrunedData(SCHEMA_VERSION, map[], map[], map[])

  /** `PrunedState::load`. */
  function Load(sidecar: Option<string>): PrunedData {
    match sidecar
    case None => EMPTY
    case Some(text) => Parsed(text)
  }

  ghost function Saved(d: PrunedData): Option<string> {
    Some(SaveText(d))
  }

  /** The headers that a recorded rewrite takes out of its file. */
  ghost function Removed(s: State, step: Step): seq<string>
    requires step.Shrink?
  {
    DetectRemovedSections(if step.file in s.files then s.files[step.file] else "", step.text)
  }

  ghost function Next(s: State, step: Step): State {
    match step
    case SyncFile(f, upstream, cap) =>
      if f !in s.files then s
      else
        var r := SyncOf(s.files[f], upstream, Load(s.sidecar).Excluded(f), cap);
        if r.Written? then s.(files := s.files[f := r.content]) else s
    case Shrink(f, key, text, now) =>
      var removed := Removed(s, step);
      State(s.files[f := text],
            if removed == [] then s.sidecar else Saved(RecordPrunedIn(Load(s.sidecar), key, removed, now)))
    case Edit(f, text) => s.(files := s.files[f := text])
    case Move(f, entries, now) => s.(sidecar := Saved(RecordMovedIn(Load(s.sidecar), f, entries, now)))
    case Clear(scope) => s.(sidecar := Saved(ClearIn(Load(s.sidecar), scope)))
  }

  ghost function After(s: State, steps: seq<Step>): State {
    if steps == [] then s else Next(After(s, steps[..|steps| - 1]), steps[|steps| - 1])
  }

  // ----- what a save and a load keep -----------------------------------------------------

  /** The sidecar was written by the program, or is not there. */
  ghost predicate Proper(sidecar: Option<string>) {
    sidecar.None? || exists d :: FitAll(d) && sidecar == Saved(d)
  }

  /** What a step may be given: names, time stamps and pairs that can be saved. */
  predicate Plain(step: Step) {
    match step
    case Shrink(_, key, _, now) => PlainName(key) && PlainStamp(now)
    case Move(f, entries, now) =>
      PlainName(f) && PlainStamp(now) && forall i :: 0 <= i < |entries| ==> CommaEntry(entries[i])
    case _ => true
  }

  /** What comes back for one file. */
  ghost predicate Returns(r: PrunedData, d: PrunedData, f: string) {
    && PrunedOf(r, f) == (match PrunedHeir(d, f) case None => [] case Some(g) => PrunedOf(d, g))
    && EntriesOf(r, f) == (match MovedHeir(d, f) case None => [] case Some(g) => Reread(EntriesOf(d, g)))
  }

  /** After a save and a load each file has the headers, and what the reader makes
      of the moved pairs, of the last section that falls to it, under names that
      the parser can give, and all of it can be saved again. */
  lemma Reloaded(d: PrunedData)
    requires FitAll(d)
    ensures var r := Load(Saved(d)); FitAll(r) && Named(r) && forall f :: Returns(r, d, f)
  {
    hide SaveText, Parsed, Fit, SectionName, PrunedHeir, MovedHeir, Reread;
    ParsedNamed(SaveText(d));
    ParsedHolds(d);
    var r := Load(Saved(d));
    forall f
      ensures Returns(r, d, f)
    {
      ListsReturn(d, f);
    }
    forall f | f in AllFiles(r)
      ensures Fit(r, f)
    {
      ReloadedFit(r, d, f);
    }
  }

  lemma ReloadedFit(r: PrunedData, d: PrunedData, f: string)
    requires FitAll(d) && Holds(r, d, SavedOrder(d)) && SectionName(f) && Returns(r, d, f)
    ensures Fit(r, f)
  {
    hide LastFor, SectionName, PlainName, PlainStamp, SavedOrder, Reread, CommaEntries;
    SectionNameOwner(None, f);
    NoEntries();
    match PrunedHeir(d, f) {
      case None =>
      case Some(g) => PartsWell(d, g);
    }
    match MovedHeir(d, f) {
      case None =>
      case Some(g) => RereadFit(d, g);
    }
    if f in r.prunedAt {
      var g := LastFor(d, SavedOrder(d), f, HasStamp(d)).value;
      LastForHas(d, SavedOrder(d), f, HasStamp(d));
      StampFit(d, g);
      assert r.prunedAt[f] == Stamps(d)(g);
    }
  }

  lemma {:induction false} LastForHas(d: PrunedData, files: seq<string>, f: string, has: string -> bool)
    ensures var g := LastFor(d, files, f, has); g.Some? ==> has(g.value)
    decreases |files|
  {
    hide Current;
    if files != [] {
      LastForHas(d, files[..|files| - 1], f, has);
    }
  }

  lemma RereadFit(d: PrunedData, f: string)
    requires FitAll(d)
    ensures CommaEntries(Reread(EntriesOf(d, f)))
  {
    hide CommaEntries, PlainName, PlainStamp, PairsOf, PairArray;
    NoEntries();
    PartsWell(d, f);
    RereadKeeps(EntriesOf(d, f));
  }

  lemma StampFit(d: PrunedData, f: string)
    requires FitAll(d) && HasStamp(d)(f)
    ensures f in d.prunedAt && PlainStamp(d.prunedAt[f])
  {
    hide CommaEntries, PlainName, PlainStamp;
    assert f in AllFiles(d);
  }

  lemma NoEntries()
    ensures CommaEntries([])
  {
  }

  lemma LoadIsFit(sidecar: Option<string>)
    requires Proper(sidecar)
    ensures FitAll(Load(sidecar)) && Named(Load(sidecar))
  {
    hide SaveText, Parsed, Fit;
    if sidecar.Some? {
      var d :| FitAll(d) && sidecar == Saved(d);
      Reloaded(d);
    }
  }

  /** Recording and clearing keep it fit to be saved. */
  lemma PruneRecordedWell(d: PrunedData, f: string, headers: seq<string>, now: string)
    requires FitAll(d) && PlainName(f) && PlainStamp(now)
    requires forall h :: h in headers ==> OneLine(h)
    ensures FitAll(RecordPrunedIn(d, f, headers, now))
  {
    hide PlainName, PlainStamp, OneLine, CommaEntries, Fit;
    PartsWell(d, f);
    MergeHeadersIsUnion(PrunedOf(d, f), headers);
    var p := RecordPrunedIn(d, f, headers, now);
    forall g | g in AllFiles(p)
      ensures Fit(p, g)
    {
      if g == f && headers != [] {
        WellOfParts(p, f);
      } else {
        SameWell(d, p, g);
      }
    }
  }

  lemma MoveRecordedWell(d: PrunedData, f: string, entries: seq<MovedEntry>, now: string)
    requires FitAll(d) && PlainName(f) && PlainStamp(now)
    requires CommaEntries(entries)
    ensures FitAll(RecordMovedIn(d, f, entries, now))
  {
    hide PlainName, PlainStamp, OneLine, CommaEntries, Fit;
    PartsWell(d, f);
    MergedKeeps(EntriesOf(d, f), entries);
    var m := RecordMovedIn(d, f, entries, now);
    forall g | g in AllFiles(m)
      ensures Fit(m, g)
    {
      if g == f && entries != [] {
        WellOfParts(m, f);
      } else {
        SameWell(d, m, g);
      }
    }
  }

  lemma MergedKeeps(existing: seq<MovedEntry>, entries: seq<MovedEntry>)
    requires CommaEntries(existing) && CommaEntries(entries)
    ensures CommaEntries(MergeMoved(existing, entries))
  {
    hide CommaEntry;
    MergeMovedFrom(existing, entries);
  }

  lemma WellOfParts(r: PrunedData, f: string)
    requires PlainName(f) && f in r.prunedAt && PlainStamp(r.prunedAt[f])
    requires (forall h :: h in PrunedOf(r, f) ==> OneLine(h)) && CommaEntries(EntriesOf(r, f))
    ensures Fit(r, f)
  {
  }

  lemma SameWell(d: PrunedData, r: PrunedData, f: string)
    requires f in AllFiles(r) ==> f in AllFiles(d)
    requires PrunedOf(d, f) == PrunedOf(r, f) && EntriesOf(d, f) == EntriesOf(r, f)
    requires f in r.prunedAt <==> f in d.prunedAt
    requires f in r.prunedAt ==> r.prunedAt[f] == d.prunedAt[f]
    requires Fit(d, f)
    ensures Fit(r, f)
  {
    hide PlainName, PlainStamp, CommaEntries, OneLine;
  }

  lemma PartsWell(d: PrunedData, f: string)
    requires f in AllFiles(d) ==> Fit(d, f)
    ensures forall h :: h in PrunedOf(d, f) ==> OneLine(h)
    ensures CommaEntries(EntriesOf(d, f))
  {
    hide PlainName, PlainStamp, CommaEntry, OneLine;
  }

  lemma {:induction false} MergeMovedFrom(existing: seq<MovedEntry>, entries: seq<MovedEntry>)
    ensures forall e :: e in MergeMoved(existing, entries) ==> e in existing || e in entries
    decreases entries
  {
    if entries != [] {
      var e := entries[0];
      MergeMovedFrom(if FirstMoved(existing, e.header).Some? then existing else existing + [e], entries[1..]);
    }
  }

  lemma ClearedFit(d: PrunedData, scope: Option<string>)
    requires FitAll(d)
    ensures FitAll(ClearIn(d, scope))
  {
    hide Fit;
    var r := ClearIn(d, scope);
    forall f | f in AllFiles(r)
      ensures Fit(r, f)
    {
      assert f in AllFiles(d);
      SameWell(d, r, f);
    }
  }

  lemma RemovedAreLines(before: string, after: string)
    ensures forall h :: h in DetectRemovedSections(before, after) ==> OneLine(h)
  {
    LinesHaveNoNewlines(before);
    HeadersAreLines(Lines(before));
  }

  /** What a step saves, if it does. */
  ghost function ToSave(s: State, step: Step): Option<PrunedData> {
    match step
    case Shrink(_, key, _, now) =>
      var removed := Removed(s, step);
      if removed == [] then None else Some(RecordPrunedIn(Load(s.sidecar), key, removed, now))
    case Move(f, entries, now) => Some(RecordMovedIn(Load(s.sidecar), f, entries, now))
    case Clear(scope) => Some(ClearIn(Load(s.sidecar), scope))
    case _ => None
  }

  /** The name under which it records. */
  function KeyOf(step: Step): string {
    match step
    case Shrink(_, key, _, _) => key
    case Move(f, _, _) => f
    case _ => ""
  }

  lemma StepSaves(s: State, step: Step)
    requires Proper(s.sidecar) && Plain(step)
    ensures match ToSave(s, step)
            case None => Next(s, step).sidecar == s.sidecar
            case Some(d) => FitAll(d) && OthersNamed(d, KeyOf(step)) && Next(s, step).sidecar == Saved(d)
    ensures Proper(Next(s, step).sidecar)
  {
    hide Fit, PlainName, PlainStamp, CommaEntry, OneLine, SaveText, Parsed, SyncOf, RecordPrunedIn, RecordMovedIn,
         ClearIn, OthersNamed, DetectRemovedSections;
    LoadIsFit(s.sidecar);
    var d := Load(s.sidecar);
    RecordsNamed(s, step);
    match step {
      case Shrink(f, key, text, now) =>
        var before := if f in s.files then s.files[f] else "";
        RemovedAreLines(before, text);
        PruneRecordedWell(d, key, DetectRemovedSections(before, text), now);
      case Move(f, entries, now) =>
        MoveRecordedWell(d, f, entries, now);
      case Clear(scope) =>
        ClearedFit(d, scope);
      case _ =>
    }
  }

  lemma RecordsNamed(s: State, step: Step)
    requires Named(Load(s.sidecar))
    ensures ToSave(s, step).Some? ==> OthersNamed(ToSave(s, step).value, KeyOf(step))
  {
    hide Load, SectionName;
  }

  lemma {:induction false} ProperAfter(s: State, steps: seq<Step>)
    requires Proper(s.sidecar) && forall i :: 0 <= i < |steps| ==> Plain(steps[i])
    ensures Proper(After(s, steps).sidecar)
  {
    hide Proper, Plain, Next;
    if steps != [] {
      ProperAfter(s, steps[..|steps| - 1]);
      StepSaves(After(s, steps[..|steps| - 1]), steps[|steps| - 1]);
    }
  }

  // ----- what a sync brings in ------------------------------------------------------------

  /** The header is in the text, or will be when its last line is closed. */
  ghost predicate Shows(text: string, h: string) {
    h in ExtractSectionHeaders(text) || h in ExtractSectionHeaders(text + "\n")
  }

  ghost predicate Has(s: State, f: string, h: string) {
    f in s.files && Shows(s.files[f], h)
  }

  /** An excluded header gets into a file through a sync, with any texts, exactly
      when upstream has it with two carriage returns, in which form it is
      neither local nor, with one of them gone, excluded. */
  lemma SyncIntroducesIff(local: string, upstream: string, excluded: set<string>, cap: nat, h: string)
    requires SyncOf(local, upstream, excluded, cap).Written?
    requires h in excluded && !Shows(local, h)
    ensures Shows(SyncOf(local, upstream, excluded, cap).content, h) <==> Wanted(local, upstream, excluded, h + "\r\r")
  {
    hide SyncOf, ExtractSectionHeaders, StripCR, Arrived, Arriving, Lines;
    var content := SyncOf(local, upstream, excluded, cap).content;
    SyncAppends(local, upstream, excluded, cap);
    WrittenIsClosed(local, upstream, excluded, cap);
    ClosedHeaders(content);
    var unseen := HeadersWithout(ExtractSectionHeaders(upstream), HeaderSet(local));
    ArrivingAre(unseen, excluded, h);
    if u :| u in unseen && StripCR(u) !in excluded && Arrived(u, excluded) == h {
      TwoReturns(u, h, excluded);
      assert Wanted(local, upstream, excluded, u);
    }
    if Wanted(local, upstream, excluded, h + "\r\r") {
      TwoReturns(h + "\r\r", h, excluded);
      assert h + "\r\r" in unseen;
    }
  }

  lemma TwoReturns(u: string, h: string, excluded: set<string>)
    requires h in excluded && StripCR(u) !in excluded
    ensures Arrived(u, excluded) == h <==> u == h + "\r\r"
  {
    var once := h + "\r";
    StripIs(u, once);
    assert once + "\r" == h + "\r\r";
    assert EndsWith(once, '\r') && once[..|once| - 1] == h;
  }

  lemma WrittenIsClosed(local: string, upstream: string, excluded: set<string>, cap: nat)
    requires SyncOf(local, upstream, excluded, cap).Written?
    ensures !OpenReturn(SyncOf(local, upstream, excluded, cap).content)
  {
    hide Lines, Join, Trim, CountSections, Blocks, HeaderSet;
    TrimEmpty();
    var added := NewSections(local, upstream, excluded);
    assert added != "" && added[|added| - 1] == '\n';
    assert (local + added)[|local + added| - 1] == '\n';
  }

  // ----- what stays gone ------------------------------------------------------------------

  predicate Clears(step: Step, f: string) {
    step.Clear? && (step.scope == None || step.scope == Some(f))
  }

  /** The step brings the header by itself: the user writes it into the file, or
      upstream has it with two carriage returns. */
  ghost predicate Brings(step: Step, f: string, h: string) {
    match step
    case SyncFile(g, upstream, _) => g == f && h + "\r\r" in ExtractSectionHeaders(upstream)
    case Shrink(g, _, text, _) => g == f && Shows(text, h)
    case Edit(g, text) => g == f && Shows(text, h)
    case _ => false
  }

  lemma StaysOut(s: State, step: Step, f: string, h: string)
    requires h in Load(s.sidecar).Excluded(f) && !Has(s, f, h) && !Brings(step, f, h)
    ensures !Has(Next(s, step), f, h)
  {
    hide SyncOf, Shows, ExtractSectionHeaders, SaveText, Parsed;
    if step.SyncFile? && step.file == f && f in s.files {
      var excluded := Load(s.sidecar).Excluded(f);
      if SyncOf(s.files[f], step.upstream, excluded, step.cap).Written? {
        SyncIntroducesIff(s.files[f], step.upstream, excluded, step.cap, h);
      }
    }
  }

  /** The headers that the step records are read for `f` in place of its own, and
      `h` is not among them. */
  ghost predicate Displaces(s: State, step: Step, f: string, h: string) {
    && step.Shrink? && Removed(s, step) != [] && h !in Removed(s, step)
    && TakesPruned(ToSave(s, step).value, step.key, f)
  }

  /** What that means for a path on one line: it has `=` in it, and `f` is the
      nearest name below it with records. */
  lemma DisplacesIff(s: State, step: Step, f: string, h: string)
    requires Proper(s.sidecar) && step.Shrink? && TrimmedLine(step.key)
    ensures Displaces(s, step, f, h) <==>
            && Removed(s, step) != [] && h !in Removed(s, step)
            && '=' in step.key && Nearest(Load(s.sidecar), f, step.key)
  {
    hide Load, Proper, TrimmedLine, TakesPruned, Nearest, LexLess, DetectRemovedSections;
    if Removed(s, step) != [] {
      LoadIsFit(s.sidecar);
      RecordsNamed(s, step);
      TakesPrunedIff(ToSave(s, step).value, step.key, f);
      MergeHeadersIsUnion(PrunedOf(Load(s.sidecar), step.key), Removed(s, step));
      NearestBefore(Load(s.sidecar), step.key, Removed(s, step), step.now, f);
    }
  }

  /** Recording under a name changes nothing below it. */
  lemma NearestBefore(d: PrunedData, k: string, headers: seq<string>, now: string, f: string)
    ensures Nearest(RecordPrunedIn(d, k, headers, now), f, k) <==> Nearest(d, f, k)
  {
    hide LexLess;
    NotBelowItself(k);
    var e := RecordPrunedIn(d, k, headers, now);
    assert forall x :: x != k ==> (HasAny(e, x) <==> HasAny(d, x));
  }

  /** A pruned header stays recorded through a step that is no clear exactly when
      the step does not displace it. */
  lemma PrunedNextIff(s: State, step: Step, f: string, h: string)
    requires Proper(s.sidecar) && Plain(step)
    requires h in Load(s.sidecar).PrunedHeaders(f) && !Clears(step, f)
    ensures h in Load(Next(s, step).sidecar).PrunedHeaders(f) <==> !Displaces(s, step, f, h)
  {
    hide Proper, Plain, SaveText, Parsed, FitAll, SectionName, TakesPruned, OthersNamed, PrunedHeir, MovedHeir,
         DetectRemovedSections;
    LoadIsFit(s.sidecar);
    StepSaves(s, step);
    var d := Load(s.sidecar);
    hide Next;
    match ToSave(s, step) {
      case None =>
      case Some(e) =>
        PrunedKept(s, step, f, h);
        Reloaded(e);
        assert Returns(Load(Saved(e)), e, f);
        hide Load;
        HeirsAmong(e, KeyOf(step), f);
        TakesOnlyOthers(e, KeyOf(step), f);
        if !SectionName(KeyOf(step)) {
          TakenHeaders(s, step, h);
        }
    }
  }

  /** A name that the parser can give takes nothing from another file. */
  lemma TakesOnlyOthers(d: PrunedData, k: string, f: string)
    ensures SectionName(k) ==> !TakesPruned(d, k, f) && !TakesMoved(d, k, f)
    ensures TakesPruned(d, k, f) ==> PrunedOf(d, k) != []
  {
    hide Target, SectionName, Reread, LexLess;
    HasIsAny(d);
    assert Reread(EntriesOf(d, k)) != [] ==> HasMoved(d)(k);
    if HasAny(d, k) && SectionName(k) {
      TargetOwn(d, k);
    }
  }

  /** What is saved under any other name is what the step records. */
  lemma TakenHeaders(s: State, step: Step, h: string)
    requires Named(Load(s.sidecar)) && ToSave(s, step).Some? && !SectionName(KeyOf(step))
    ensures var e := ToSave(s, step).value;
            && (!step.Shrink? ==> PrunedOf(e, KeyOf(step)) == [])
            && (step.Shrink? ==> (h in PrunedOf(e, KeyOf(step)) <==> h in Removed(s, step)))
            && (!step.Move? ==> EntriesOf(e, KeyOf(step)) == [])
  {
    hide Load, SectionName, DetectRemovedSections;
    if step.Shrink? {
      MergeHeadersIsUnion([], Removed(s, step));
    }
  }

  lemma PrunedKept(s: State, step: Step, f: string, h: string)
    requires h in Load(s.sidecar).PrunedHeaders(f) && !Clears(step, f)
    ensures ToSave(s, step).Some? ==> h in ToSave(s, step).value.PrunedHeaders(f)
  {
    hide Load, DetectRemovedSections;
    var d := Load(s.sidecar);
    if step.Shrink? {
      MergeHeadersIsUnion(PrunedOf(d, step.key), Removed(s, step));
    }
  }

  /** Pruned sections stay gone: a header recorded as pruned that the file does
      not show is not brought back by any run of syncs against any texts,
      rewrites, moves and clears, each step loading and saving the sidecar, until
      its records are cleared or displaced or some step brings it by itself. */
  lemma {:induction false} PrunedStaysGone(s: State, steps: seq<Step>, f: string, h: string)
    requires Proper(s.sidecar) && forall i :: 0 <= i < |steps| ==> Plain(steps[i])
    requires h in Load(s.sidecar).PrunedHeaders(f) && !Has(s, f, h)
    requires forall i :: 0 <= i < |steps| ==> !Clears(steps[i], f) && !Brings(steps[i], f, h)
    requires forall i :: 0 <= i < |steps| ==> !Displaces(After(s, steps[..i]), steps[i], f, h)
    ensures h in Load(After(s, steps).sidecar).PrunedHeaders(f) && !Has(After(s, steps), f, h)
  {
    hide Proper, Plain, Load, Has, Brings, Next, Displaces;
    if steps != [] {
      var front, step := steps[..|steps| - 1], steps[|steps| - 1];
      var before := After(s, front);
      assert forall i :: 0 <= i < |front| ==> front[..i] == steps[..i];
      PrunedStaysGone(s, front, f, h);
      ProperAfter(s, front);
      PrunedNextIff(before, step, f, h);
      StaysOut(before, step, f, h);
    }
  }

  ghost predicate Recorded(s: State, f: string, h: string) {
    h in Load(s.sidecar).PrunedHeaders(f)
  }

  /** And its record is there at every moment of such a run exactly when no step
      displaces it. */
  lemma {:induction false} PrunedRecordedIff(s: State, steps: seq<Step>, f: string, h: string)
    requires Proper(s.sidecar) && forall i :: 0 <= i < |steps| ==> Plain(steps[i])
    requires Recorded(s, f, h) && forall i :: 0 <= i < |steps| ==> !Clears(steps[i], f)
    ensures (forall n :: 0 <= n <= |steps| ==> Recorded(After(s, steps[..n]), f, h)) <==>
            (forall i :: 0 <= i < |steps| ==> !Displaces(After(s, steps[..i]), steps[i], f, h))
    decreases |steps|
  {
    hide Proper, Plain, After, Recorded, Displaces;
    if steps == [] {
      AfterNone(s);
    } else {
      var front, step := steps[..|steps| - 1], steps[|steps| - 1];
      assert front == steps[..|front|] && steps[..|steps|] == steps;
      PrunedRecordedIff(s, front, f, h);
      RecordedMore(s, front, step, f, h);
      assert steps == front + [step];
      assert forall n :: 0 <= n <= |front| ==> front[..n] == steps[..n];
    }
  }

  lemma AfterNone(s: State)
    ensures forall n, steps: seq<Step> :: n == 0 <= |steps| ==> After(s, steps[..n]) == s
  {
  }

  lemma RecordedMore(s: State, steps: seq<Step>, step: Step, f: string, h: string)
    requires Proper(s.sidecar) && Plain(step) && !Clears(step, f) && forall i :: 0 <= i < |steps| ==> Plain(steps[i])
    ensures Recorded(After(s, steps), f, h) ==>
              (Recorded(After(s, steps + [step]), f, h) <==> !Displaces(After(s, steps), step, f, h))
  {
    hide Proper, Plain, Load, Next, Displaces, Clears;
    assert (steps + [step])[..|steps|] == steps;
    if Recorded(After(s, steps), f, h) {
      ProperAfter(s, steps);
      PrunedNextIff(After(s, steps), step, f, h);
    }
  }

  /** A header that a recorded rewrite takes out of a file is recorded for that
      file exactly when the path is the name of the file, or is read for it, or
      the header was recorded before. */
  lemma ShrunkRecordedIff(s: State, step: Step, f: string, h: string)
    requires Proper(s.sidecar) && Plain(step) && step.Shrink? && step.file == f && h in Removed(s, step)
    ensures h in Load(Next(s, step).sidecar).PrunedHeaders(f) <==>
            || (step.key == f && SectionName(f))
            || TakesPruned(ToSave(s, step).value, step.key, f)
            || h in Load(s.sidecar).PrunedHeaders(f)
  {
    hide Proper, Plain, SaveText, Parsed, FitAll, SectionName, TakesPruned, OthersNamed, PrunedHeir, MovedHeir,
         DetectRemovedSections;
    LoadIsFit(s.sidecar);
    StepSaves(s, step);
    var d, e := Load(s.sidecar), ToSave(s, step).value;
    hide Next;
    Reloaded(e);
    assert Returns(Load(Saved(e)), e, f);
    hide Load;
    MergeHeadersIsUnion(PrunedOf(d, step.key), Removed(s, step));
    if SectionName(f) {
      HeirsAmong(e, step.key, f);
    } else {
      NothingForOthers(e, f);
      NoneTakenForOthers(e, step.key, f);
    }
  }

  lemma NoneTakenForOthers(d: PrunedData, k: string, f: string)
    requires !SectionName(f)
    ensures !TakesPruned(d, k, f)
  {
    hide Target, SectionName, LexLess;
    TargetNamed(d, k);
  }

  /** What a rewrite recorded under the name of the file takes out stays gone. */
  lemma ShrunkStaysGone(s: State, f: string, text: string, now: string, steps: seq<Step>, h: string)
    requires var step := Shrink(f, f, text, now);
             && Proper(s.sidecar) && Plain(step) && SectionName(f) && h in Removed(s, step) && !Shows(text, h)
             && (forall i :: 0 <= i < |steps| ==> Plain(steps[i]) && !Clears(steps[i], f) && !Brings(steps[i], f, h))
             && forall i :: 0 <= i < |steps| ==> !Displaces(After(Next(s, step), steps[..i]), steps[i], f, h)
    ensures !Has(After(Next(s, Shrink(f, f, text, now)), steps), f, h)
  {
    hide Proper, Plain, SaveText, Parsed, Load, Shows, SectionName, Displaces, DetectRemovedSections;
    var step := Shrink(f, f, text, now);
    ShrunkRecordedIff(s, step, f, h);
    StepSaves(s, step);
    assert !Has(Next(s, step), f, h);
    hide Next;
    PrunedStaysGone(Next(s, step), steps, f, h);
  }

  // ----- moved headers ---------------------------------------------------------------------

  ghost predicate DistinctSources(entries: seq<MovedEntry>) {
    forall i, j :: 0 <= i < j < |entries| ==> entries[i].header != entries[j].header
  }

  function Sources(entries: seq<MovedEntry>): (s: set<string>)
    ensures forall h :: h in s <==> FirstMoved(entries, h).Some?
  {
    MovedHeadersSound(entries);
    set k | 0 <= k < |entries| :: entries[k].header
  }

  lemma SourcesOf(d: PrunedData, f: string)
    ensures d.MovedSources(f) == Sources(EntriesOf(d, f))
  {
  }

  lemma {:induction false} SourcesCount(entries: seq<MovedEntry>)
    ensures |Sources(entries)| <= |entries|
    ensures DistinctSources(entries) ==> |Sources(entries)| == |entries|
  {
    if entries != [] {
      var front, last := entries[..|entries| - 1], entries[|entries| - 1].header;
      SourcesCount(front);
      SourcesFront(entries);
      assert Sources(entries) == Sources(front) + {last};
      if DistinctSources(entries) {
        assert DistinctSources(front);
        assert last !in Sources(front) by {
          FirstMovedSome(front, last);
        }
      }
    } else {
      assert Sources(entries) == {};
    }
  }

  lemma SourcesFront(entries: seq<MovedEntry>)
    requires entries != []
    ensures forall h :: h in Sources(entries) <==>
              h in Sources(entries[..|entries| - 1]) || h == entries[|entries| - 1].header
  {
    var front, last := entries[..|entries| - 1], entries[|entries| - 1];
    assert entries == front + [last];
    forall h
      ensures h in Sources(entries) <==> h in Sources(front) || h == last.header
    {
      FirstMovedAppend(front, last, h);
    }
  }

  /** Recording keeps sources distinct. */
  lemma {:induction false} MergeMovedDistinct(existing: seq<MovedEntry>, entries: seq<MovedEntry>)
    requires DistinctSources(existing)
    ensures DistinctSources(MergeMoved(existing, entries))
    decreases entries
  {
    if entries != [] {
      var e := entries[0];
      FirstMovedSome(existing, e.header);
      MergeMovedDistinct(if FirstMoved(existing, e.header).Some? then existing else existing + [e], entries[1..]);
    }
  }

  /** Of distinct moved headers all are still excluded after a save and a load
      exactly when the pairs of the file are well nested, if every section is its
      file's own; and otherwise when the pairs read for the file have them all. */
  lemma MovedSurviveIff(d: PrunedData, f: string)
    requires FitAll(d) && DistinctSources(EntriesOf(d, f))
    ensures d.MovedSources(f) <= Load(Saved(d)).MovedSources(f) <==>
            match MovedHeir(d, f)
            case None => EntriesOf(d, f) == []
            case Some(g) =>
              if g == f then WellNested(EntriesOf(d, f))
              else Sources(EntriesOf(d, f)) <= Sources(Reread(EntriesOf(d, g)))
    ensures NamesSections(d) ==>
              (d.MovedSources(f) <= Load(Saved(d)).MovedSources(f) <==> WellNested(EntriesOf(d, f)))
  {
    hide FitAll, SaveText, Parsed, WellNested, Reread, Sources, DistinctSources, PrunedHeir, MovedHeir, NamesSections,
         SectionName;
    Reloaded(d);
    var r := Load(Saved(d));
    assert Returns(r, d, f);
    hide Load;
    SourcesOf(d, f);
    SourcesOf(r, f);
    NoSources(EntriesOf(d, f));
    SourcesRereadIff(EntriesOf(d, f));
    if NamesSections(d) {
      MovedOwn(d, f);
      RereadIff(EntriesOf(d, f));
    }
  }

  lemma MovedOwn(d: PrunedData, f: string)
    requires NamesSections(d)
    ensures MovedHeir(d, f) == if Reread(EntriesOf(d, f)) != [] then Some(f) else None
    ensures Reread([]) == []
  {
    hide SectionName, LastFor, Reread, Sorted;
    HasIsAny(d);
    OwnLast(d, SavedOrder(d), f, HasMoved(d));
    assert HasMoved(d)(f) ==> f in SavedOrder(d);
    NothingReread();
  }

  lemma NothingReread()
    ensures Reread([]) == []
  {
  }

  lemma NoSources(entries: seq<MovedEntry>)
    ensures Sources(entries) == {} <==> entries == []
    ensures Sources([]) == {}
  {
    assert entries != [] ==> entries[0].header in Sources(entries);
  }

  lemma SourcesRereadIff(before: seq<MovedEntry>)
    requires DistinctSources(before)
    ensures Sources(before) <= Sources(Reread(before)) <==> WellNested(before)
  {
    hide WellNested, Sources, DistinctSources, PairsOf, PairArray;
    var after := Reread(before);
    SourcesCount(before);
    SourcesCount(after);
    RereadIff(before);
    if !WellNested(before) {
      PairArrayRoundTripsIff(before);
      if Sources(before) <= Sources(after) {
        SubsetSize(Sources(before), Sources(after));
      }
    }
  }

  lemma SubsetSize<T>(a: set<T>, b: set<T>)
    requires a <= b
    ensures |a| <= |b|
  {
    assert b == a + (b - a);
  }

  /** A move on the file leaves its pairs well nested, and one under another name
      is not read for it. */
  ghost predicate NestsAfter(s: State, step: Step, f: string) {
    step.Move? ==>
      if step.file == f then WellNested(MergeMoved(EntriesOf(Load(s.sidecar), f), step.entries))
      else !TakesMoved(ToSave(s, step).value, step.file, f)
  }

  /** The moved pairs of the file that the next load gives are those that were
      saved. */
  lemma MovedNext(s: State, step: Step, f: string, h: string)
    requires Proper(s.sidecar) && Plain(step) && NestsAfter(s, step, f)
    requires h in Load(s.sidecar).MovedSources(f) && WellNested(EntriesOf(Load(s.sidecar), f)) && !Clears(step, f)
    ensures h in Load(Next(s, step).sidecar).MovedSources(f) && WellNested(EntriesOf(Load(Next(s, step).sidecar), f))
  {
    hide Proper, Plain, SaveText, Parsed, FitAll, WellNested, Reread, Sources, SectionName, TakesMoved, OthersNamed,
         PrunedHeir, MovedHeir, DetectRemovedSections;
    LoadIsFit(s.sidecar);
    StepSaves(s, step);
    hide Next;
    match ToSave(s, step) {
      case None =>
      case Some(e) =>
        MovedKept(s, step, f, h);
        NotTaken(s, step, f);
        Reloaded(e);
        assert Returns(Load(Saved(e)), e, f);
        assert SectionName(f);
        HeirsAmong(e, KeyOf(step), f);
        RereadIff(EntriesOf(e, f));
        hide Load;
        SourcesOf(e, f);
        SourcesOf(Load(Next(s, step).sidecar), f);
        NoSources(EntriesOf(e, f));
    }
  }

  lemma NotTaken(s: State, step: Step, f: string)
    requires Named(Load(s.sidecar)) && ToSave(s, step).Some? && NestsAfter(s, step, f)
    ensures !TakesMoved(ToSave(s, step).value, KeyOf(step), f)
  {
    hide Load, SectionName, DetectRemovedSections, WellNested, Target;
    if !step.Move? {
      TakesOnlyOthers(ToSave(s, step).value, KeyOf(step), f);
      if !SectionName(KeyOf(step)) {
        TakenHeaders(s, step, "");
        NothingReread();
      }
    }
  }

  lemma MovedKept(s: State, step: Step, f: string, h: string)
    requires h in Load(s.sidecar).MovedSources(f) && WellNested(EntriesOf(Load(s.sidecar), f)) && !Clears(step, f)
    requires NestsAfter(s, step, f)
    ensures ToSave(s, step).Some? ==>
              && h in ToSave(s, step).value.MovedSources(f)
              && WellNested(EntriesOf(ToSave(s, step).value, f))
  {
    hide Load, WellNested, TakesMoved, DetectRemovedSections;
    var d := Load(s.sidecar);
    if step.Move? {
      MergeMovedLookup(EntriesOf(d, step.file), step.entries, h);
    }
  }

  /** Moved sections stay gone in the same way, over every run in which each move
      on the file leaves its pairs well nested and no other is read for it. */
  lemma {:induction false} MovedStaysGone(s: State, steps: seq<Step>, f: string, h: string)
    requires Proper(s.sidecar) && forall i :: 0 <= i < |steps| ==> Plain(steps[i])
    requires h in Load(s.sidecar).MovedSources(f) && WellNested(EntriesOf(Load(s.sidecar), f)) && !Has(s, f, h)
    requires forall i :: 0 <= i < |steps| ==> !Clears(steps[i], f) && !Brings(steps[i], f, h)
    requires forall i :: 0 <= i < |steps| ==> NestsAfter(After(s, steps[..i]), steps[i], f)
    ensures var t := After(s, steps);
            h in Load(t.sidecar).MovedSources(f) && WellNested(EntriesOf(Load(t.sidecar), f)) && !Has(t, f, h)
  {
    hide Proper, Plain, Load, Has, Brings, Next, WellNested;
    if steps != [] {
      var front, step := steps[..|steps| - 1], steps[|steps| - 1];
      assert forall i :: 0 <= i < |front| ==> front[..i] == steps[..i];
      MovedStaysGone(s, front, f, h);
      ProperAfter(s, front);
      MovedNext(After(s, front), step, f, h);
      StaysOut(After(s, front), step, f, h);
    }
  }

  /** Both together: what is excluded stays out of the file. */
  lemma ExcludedStaysGone(s: State, steps: seq<Step>, f: string, h: string)
    requires Proper(s.sidecar) && forall i :: 0 <= i < |steps| ==> Plain(steps[i])
    requires h in Load(s.sidecar).Excluded(f) && !Has(s, f, h)
    requires forall i :: 0 <= i < |steps| ==> !Clears(steps[i], f) && !Brings(steps[i], f, h)
    requires || (h in Load(s.sidecar).PrunedHeaders(f)
                 && forall i :: 0 <= i < |steps| ==> !Displaces(After(s, steps[..i]), steps[i], f, h))
             || (h in Load(s.sidecar).MovedSources(f) && WellNested(EntriesOf(Load(s.sidecar), f))
                 && forall i :: 0 <= i < |steps| ==> NestsAfter(After(s, steps[..i]), steps[i], f))
    ensures h in Load(After(s, steps).sidecar).Excluded(f) && !Has(After(s, steps), f, h)
  {
    hide Proper, Plain, Load, Has, Brings, After, WellNested, Displaces, NestsAfter;
    if && h in Load(s.sidecar).PrunedHeaders(f)
       && forall i :: 0 <= i < |steps| ==> !Displaces(After(s, steps[..i]), steps[i], f, h) {
      PrunedStaysGone(s, steps, f, h);
    } else {
      MovedStaysGone(s, steps, f, h);
    }
  }

  /** After a clear of a file nothing of it is recorded. */
  lemma ClearForgets(s: State, scope: Option<string>, f: string)
    requires Proper(s.sidecar) && Clears(Clear(scope), f)
    ensures Load(Next(s, Clear(scope)).sidecar).Excluded(f) == {}
  {
    hide SaveText, Parsed, FitAll, Reread, PrunedHeir, MovedHeir, SectionName;
    LoadIsFit(s.sidecar);
    StepSaves(s, Clear(scope));
    var d := ClearIn(Load(s.sidecar), scope);
    Reloaded(d);
    var r := Load(Saved(d));
    assert Returns(r, d, f);
    hide Load;
    assert PrunedOf(d, f) == [] && EntriesOf(d, f) == [];
    NothingReread();
    if SectionName(f) {
      HeirsAmong(d, f, f);
      NoneTakenByItself(d, f);
    } else {
      NothingForOthers(d, f);
    }
    assert PrunedOf(r, f) == [] && EntriesOf(r, f) == [];
    SourcesOf(r, f);
    NoSources([]);
  }

  lemma NoneTakenByItself(d: PrunedData, f: string)
    ensures !TakesPruned(d, f, f) && !TakesMoved(d, f, f)
  {
  }
}
