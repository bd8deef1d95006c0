/** What the engine reports over a run, told by the events and the reports before
    (`src/brain/rsi.rs`). */
module RsiReports {
  import opened Text
  import opened RsiCycle

  /** The reports of a run. */
  ghost predicate AreReports(events: seq<Event>, reports: seq<Report>) {
    |reports| == |events| && forall i :: 0 <= i < |events| ==> reports[i] == Expected(events[..i], events[i])
  }

  /** The process goes through the event. */
  predicate RunsOn(e: Event) {
    e.Wake? && e.killed == Never
  }

  /** Event `j` is the last before `i` that was not idle. */
  predicate LastBusy(reports: seq<Report>, j: nat, i: nat)
    requires i <= |reports|
  {
    j < i && !reports[j].Idle? && forall k :: j < k < i ==> reports[k].Idle?
  }

  /** The feedback count is what the process has seen last. */
  ghost predicate IsUnchanged(events: seq<Event>, reports: seq<Report>, i: nat, total: int)
    requires |reports| == |events| && i <= |events|
  {
    exists j: nat ::
      && LastBusy(reports, j, i)
      && events[j].Wake? && events[j].total == Some(total)
      && forall k :: j <= k < i ==> RunsOn(events[k])
  }

  /** Nothing is to be done on an event: a restart, a count that is missing or too
      small, or one that was seen last. */
  ghost predicate IsSkipped(events: seq<Event>, reports: seq<Report>, i: nat)
    requires |reports| == |events| && i < |events|
  {
    || events[i].Restart?
    || events[i].total.None?
    || events[i].total.value < 50
    || IsUnchanged(events, reports, i, events[i].total.value)
  }

  lemma {:induction false} LastSeenIff(events: seq<Event>, reports: seq<Report>, i: nat, total: int)
    requires AreReports(events, reports) && i <= |events| && total >= 50
    ensures LastSeen(events[..i]) == total <==> IsUnchanged(events, reports, i, total)
  {
    hide Expected, LastSeen, IsAnalysed;
    if i == 0 {
      NothingSeen();
      assert events[..0] == [];
    } else {
      var before, e := events[..i - 1], events[i - 1];
      assert events[..i] == before + [e];
      LastSeenIff(events, reports, i - 1, total);
      HistoryGrows(before, e);
      BusyIff(before, e);
      UnchangedStep(events, reports, i, total);
    }
  }

  lemma NothingSeen()
    ensures LastSeen([]) == 0
  {
  }

  lemma BusyIff(before: seq<Event>, e: Event)
    ensures Expected(before, e).Idle? <==> !IsAnalysed(before, e)
    ensures IsAnalysed(before, e) ==> e.Wake? && e.total.Some?
  {
    hide LastSeen;
  }

  lemma UnchangedStep(events: seq<Event>, reports: seq<Report>, i: nat, total: int)
    requires |reports| == |events| && 0 < i <= |events|
    requires !reports[i - 1].Idle? ==> events[i - 1].Wake?
    ensures IsUnchanged(events, reports, i, total) <==>
            && RunsOn(events[i - 1])
            && if reports[i - 1].Idle? then IsUnchanged(events, reports, i - 1, total)
               else events[i - 1].total == Some(total)
  {
    if !reports[i - 1].Idle? && RunsOn(events[i - 1]) && events[i - 1].total == Some(total) {
      assert LastBusy(reports, i - 1, i);
    }
    if reports[i - 1].Idle? && RunsOn(events[i - 1]) && IsUnchanged(events, reports, i - 1, total) {
      var j: nat :| LastBusy(reports, j, i - 1) && events[j].Wake? && events[j].total == Some(total)
                    && forall k :: j <= k < i - 1 ==> RunsOn(events[k]);
      assert LastBusy(reports, j, i);
    }
    if IsUnchanged(events, reports, i, total) {
      var j: nat :| LastBusy(reports, j, i) && events[j].Wake? && events[j].total == Some(total)
                    && forall k :: j <= k < i ==> RunsOn(events[k]);
      if j < i - 1 {
        assert LastBusy(reports, j, i - 1);
      }
    }
  }

  /** The gates of a cycle: a report is idle exactly if its event is a restart, has
      no count or one below 50, or has the count of the last event before it that was
      not idle, and from that one on the process was neither restarted nor killed. */
  lemma IdleIff(events: seq<Event>, reports: seq<Report>, i: nat)
    requires AreReports(events, reports) && i < |events|
    ensures reports[i].Idle? <==> IsSkipped(events, reports, i)
  {
    hide LastSeen, IsUnchanged;
    if events[i].Wake? && events[i].total.Some? && events[i].total.value >= 50 {
      LastSeenIff(events, reports, i, events[i].total.value);
    }
  }

  // ----- the agent ----------------------------------------------------------------------------

  /** The opportunities are news: there was no busy event before, its hash was cut
      off, or its opportunities join to another text. */
  ghost predicate IsTold(events: seq<Event>, reports: seq<Report>, i: nat, opps: seq<string>)
    requires |reports| == |events| && i <= |events|
  {
    forall j: nat :: LastBusy(reports, j, i) && events[j].Wake? ==>
      events[j].killed == InHashWrite || Join(events[j].opportunities, SEPARATOR) != Join(opps, SEPARATOR)
  }

  lemma {:induction false} LastListIff(events: seq<Event>, reports: seq<Report>, i: nat, opps: seq<string>)
    requires AreReports(events, reports) && i <= |events|
    ensures IsNews(LastList(events[..i]), opps) <==> IsTold(events, reports, i, opps)
  {
    hide Expected, LastSeen, IsAnalysed, Join, LastList;
    if i == 0 {
      NothingListed();
      assert events[..0] == [];
    } else {
      var before, e := events[..i - 1], events[i - 1];
      assert events[..i] == before + [e];
      LastListIff(events, reports, i - 1, opps);
      HistoryGrows(before, e);
      BusyIff(before, e);
      BusyStep(reports, i);
    }
  }

  lemma NothingListed()
    ensures LastList([]) == None
  {
  }

  lemma BusyStep(reports: seq<Report>, i: nat)
    requires 0 < i <= |reports|
    ensures forall j: nat :: LastBusy(reports, j, i) <==>
              if reports[i - 1].Idle? then LastBusy(reports, j, i - 1) else j == i - 1
  {
  }

  /** A busy cycle tells and launches what it finds exactly if that is news and the
      process is not killed before. */
  lemma LaunchedIff(events: seq<Event>, reports: seq<Report>, i: nat)
    requires AreReports(events, reports) && i < |events| && !reports[i].Idle?
    ensures events[i].Wake?
    ensures var e := events[i];
            var told := IsTold(events, reports, i, e.opportunities) && e.killed != InHashWrite && e.killed != AfterHash;
            && reports[i].announced == (if told then e.opportunities else [])
            && (reports[i].launched <==> told && e.opportunities != [])
  {
    hide LastSeen, LastList, IsTold, IsNews;
    BusyIff(events[..i], events[i]);
    LastListIff(events, reports, i, events[i].opportunities);
  }

  // ----- the scan -----------------------------------------------------------------------------

  /** The cycle gets as far as the counter. */
  predicate IsCountedAt(events: seq<Event>, reports: seq<Report>, k: nat)
    requires |reports| == |events| && k < |events|
  {
    !reports[k].Idle? && events[k].Wake? && (events[k].killed == Never || events[k].killed == InScan)
  }

  predicate IsResetAt(events: seq<Event>, reports: seq<Report>, k: nat)
    requires |reports| == |events| && k < |events|
  {
    !reports[k].Idle? && events[k].Wake? && events[k].killed == InCounterWrite
  }

  /** The counted cycles before event `i` since the counter was last cut off. */
  ghost function CountedSince(events: seq<Event>, reports: seq<Report>, i: nat): set<nat>
    requires |reports| == |events| && i <= |events|
  {
    set k: nat | k < i && IsCountedAt(events, reports, k) && forall r :: k < r < i ==> !IsResetAt(events, reports, r)
  }

  lemma {:induction false} CounterIs(events: seq<Event>, reports: seq<Report>, i: nat)
    requires AreReports(events, reports) && i <= |events|
    ensures Counter(events[..i]) == |CountedSince(events, reports, i)|
  {
    hide Expected, LastSeen, IsAnalysed, Counter, IsCountedAt, IsResetAt;
    if i == 0 {
      NothingCounted();
      assert events[..0] == [];
      assert CountedSince(events, reports, 0) == {};
    } else {
      var before, e := events[..i - 1], events[i - 1];
      assert events[..i] == before + [e];
      CounterIs(events, reports, i - 1);
      HistoryGrows(before, e);
      AtIff(events, reports, i - 1);
      var rest := CountedSince(events, reports, i - 1);
      if IsResetAt(events, reports, i - 1) {
        assert CountedSince(events, reports, i) == {};
      } else if IsCountedAt(events, reports, i - 1) {
        assert CountedSince(events, reports, i) == rest + {i - 1};
      } else {
        assert CountedSince(events, reports, i) == rest;
      }
    }
  }

  lemma NothingCounted()
    ensures Counter([]) == 0
  {
  }

  lemma AtIff(events: seq<Event>, reports: seq<Report>, k: nat)
    requires AreReports(events, reports) && k < |events|
    ensures IsCounted(events[..k], events[k]) <==> IsCountedAt(events, reports, k)
    ensures IsReset(events[..k], events[k]) <==> IsResetAt(events, reports, k)
    ensures !(IsCountedAt(events, reports, k) && IsResetAt(events, reports, k))
  {
    hide LastSeen, Expected, IsAnalysed;
    BusyIff(events[..k], events[k]);
  }

  /** A busy cycle scans exactly if it is the 24th counted one, or a multiple of it,
      since the counter was last cut off, and the process is not killed. */
  lemma ScannedIff(events: seq<Event>, reports: seq<Report>, i: nat)
    requires AreReports(events, reports) && i < |events| && !reports[i].Idle?
    ensures events[i].Wake?
    ensures reports[i].scanned <==>
            events[i].killed == Never && (|CountedSince(events, reports, i)| + 1) % 24 == 0
  {
    hide LastSeen, LastList, IsNews, Counter, CountedSince, Join;
    BusyIff(events[..i], events[i]);
    CounterIs(events, reports, i);
  }

  // ----- a run --------------------------------------------------------------------------------

  /** Every run does what its history calls for, and that is: each report is idle
      as the gates say, and else tells, launches and scans as above. */
  method Run(events: seq<Event>, digest: string -> string) returns (reports: seq<Report>)
    requires IsDigest(digest) && |events| <= U64_MAX
    ensures AreReports(events, reports)
    ensures forall i :: 0 <= i < |events| ==> (reports[i].Idle? <==> IsSkipped(events, reports, i))
    ensures forall i :: 0 <= i < |events| && !reports[i].Idle? ==> IsAsTold(events, reports, i)
  {
    hide Expected, IsDigest, RsiEngine.Valid, IsSkipped, IsAsTold;
    var engine := new RsiEngine(digest);
    reports := [];
    for i := 0 to |events|
      invariant fresh(engine) && engine.Valid() && engine.history == events[..i] && |reports| == i
      invariant forall k :: 0 <= k < i ==> reports[k] == Expected(events[..k], events[k])
    {
      assert events[..i + 1] == events[..i] + [events[i]];
      var report := Idle;
      match events[i] {
        case Wake(total, opps, killed) => report := engine.Cycle(total, opps, killed);
        case Restart =>
          engine.Start();
          RestartIsIdle(events[..i]);
      }
      reports := reports + [report];
    }
    forall i | 0 <= i < |events|
      ensures reports[i].Idle? <==> IsSkipped(events, reports, i)
      ensures !reports[i].Idle? ==> IsAsTold(events, reports, i)
    {
      IdleIff(events, reports, i);
      if !reports[i].Idle? {
        BusyIsAsTold(events, reports, i);
      }
    }
  }

  lemma BusyIsAsTold(events: seq<Event>, reports: seq<Report>, i: nat)
    requires AreReports(events, reports) && i < |events| && !reports[i].Idle?
    ensures IsAsTold(events, reports, i)
  {
    hide AreReports, IsTold, CountedSince;
    LaunchedIff(events, reports, i);
    ScannedIff(events, reports, i);
  }

  /** What a busy cycle tells, launches and scans. */
  ghost predicate IsAsTold(events: seq<Event>, reports: seq<Report>, i: nat)
    requires |reports| == |events| && i < |events| && !reports[i].Idle?
  {
    var e := events[i];
    && e.Wake?
    && var told := IsTold(events, reports, i, e.opportunities) && e.killed != InHashWrite && e.killed != AfterHash;
       && reports[i].announced == (if told then e.opportunities else [])
       && (reports[i].launched <==> told && e.opportunities != [])
       && (reports[i].scanned <==> e.killed == Never && (|CountedSince(events, reports, i)| + 1) % 24 == 0)
  }

  lemma RestartIsIdle(h: seq<Event>)
    ensures Expected(h, Restart) == Idle
  {
  }
}
