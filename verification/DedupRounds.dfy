/** Carrying out all proposals of a scan, and scanning again. */
module DedupRounds {
  import opened Text
  import opened Ordering
  import opened Dedup
  import opened DedupProposals

  /** The lines from index `i` on whose numbers are not in the set. */
  function Remaining(lines: seq<string>, removed: set<nat>, i: nat): seq<string>
    requires i <= |lines|
    decreases |lines| - i
  {
    if i == |lines| then []
    else if i + 1 in removed then Remaining(lines, removed, i + 1)
    else [lines[i]] + Remaining(lines, removed, i + 1)
  }

  ghost function RemovedIn(clusters: seq<Cluster>, f: string, total: nat): set<nat> {
    set n | 1 <= n <= total && Removes(clusters, f, n)
  }

  ghost function CarryOut(docs: Docs, clusters: seq<Cluster>): Docs {
    map f | f in docs :: Remaining(docs[f], RemovedIn(clusters, f, |docs[f]|), 0)
  }

  // ----- counting ------------------------------------------------------------------------

  function Count(lines: seq<string>, text: string): nat {
    if lines == [] then 0 else (if Bears(lines[0], text) then 1 else 0) + Count(lines[1..], text)
  }

  lemma {:induction false} CountIs(lines: seq<string>, text: string, i: nat)
    requires i <= |lines|
    ensures |LineNumbers(lines, text, i)| == Count(lines[i..], text)
    decreases |lines| - i
  {
    hide Bears;
    if i < |lines| {
      CountIs(lines, text, i + 1);
      assert lines[i..][1..] == lines[i + 1..];
    }
  }

  /** The number of occurrences from index `i` on that stay. */
  function Spared(lines: seq<string>, removed: set<nat>, text: string, i: nat): nat
    requires i <= |lines|
    decreases |lines| - i
  {
    if i == |lines| then 0
    else (if Bears(lines[i], text) && i + 1 !in removed then 1 else 0) + Spared(lines, removed, text, i + 1)
  }

  lemma {:induction false} CountRemaining(lines: seq<string>, removed: set<nat>, text: string, i: nat)
    requires i <= |lines|
    ensures Count(Remaining(lines, removed, i), text) == Spared(lines, removed, text, i)
    decreases |lines| - i
  {
    hide Bears;
    if i < |lines| {
      CountRemaining(lines, removed, text, i + 1);
      var rest := Remaining(lines, removed, i + 1);
      assert ([lines[i]] + rest)[1..] == rest;
    }
  }

  lemma {:induction false} SparedAll(lines: seq<string>, removed: set<nat>, text: string, i: nat)
    requires i <= |lines|
    requires forall n :: n in LineNumbers(lines, text, i) ==> n !in removed
    ensures Spared(lines, removed, text, i) == |LineNumbers(lines, text, i)|
    decreases |lines| - i
  {
    hide Bears;
    if i < |lines| {
      var rest := LineNumbers(lines, text, i + 1);
      assert forall n :: n in rest ==> n in LineNumbers(lines, text, i);
      SparedAll(lines, removed, text, i + 1);
    }
  }

  lemma {:induction false} SparedNone(lines: seq<string>, removed: set<nat>, text: string, i: nat)
    requires i <= |lines|
    requires forall n :: n in LineNumbers(lines, text, i) ==> n in removed
    ensures Spared(lines, removed, text, i) == 0
    decreases |lines| - i
  {
    hide Bears;
    if i < |lines| {
      var rest := LineNumbers(lines, text, i + 1);
      assert forall n :: n in rest ==> n in LineNumbers(lines, text, i);
      SparedNone(lines, removed, text, i + 1);
    }
  }

  lemma {:induction false} SparedFirst(lines: seq<string>, removed: set<nat>, text: string, i: nat)
    requires i <= |lines| && LineNumbers(lines, text, i) != []
    requires forall n :: n in LineNumbers(lines, text, i) ==> (n in removed <==> n != LineNumbers(lines, text, i)[0])
    ensures Spared(lines, removed, text, i) == 1
    decreases |lines| - i
  {
    hide Bears;
    if i < |lines| {
      var rest := LineNumbers(lines, text, i + 1);
      if Bears(lines[i], text) {
        LineNumbersAre(lines, text, i + 1);
        forall n | n in rest
          ensures n in removed
        {
          assert n in LineNumbers(lines, text, i);
        }
        SparedNone(lines, removed, text, i + 1);
      } else {
        SparedFirst(lines, removed, text, i + 1);
      }
    }
  }

  /** How often the file bears the text. */
  function CountAt(docs: Docs, f: string, text: string): nat {
    |FileLines(docs, f, text)|
  }

  lemma CountAfter(docs: Docs, clusters: seq<Cluster>, f: string, text: string)
    requires f in docs
    ensures CountAt(CarryOut(docs, clusters), f, text)
            == Spared(docs[f], RemovedIn(clusters, f, |docs[f]|), text, 0)
  {
    hide Bears, Removes;
    var removed := RemovedIn(clusters, f, |docs[f]|);
    var after := Remaining(docs[f], removed, 0);
    CountIs(after, text, 0);
    assert after[0..] == after;
    CountRemaining(docs[f], removed, text, 0);
  }

  /** What a round leaves of a text: of a text of no cluster, and in the file
      that keeps it when there are others, everything; one line in the file
      that alone bears it; nothing anywhere else. */
  lemma AfterRound(docs: Docs, clusters: seq<Cluster>, f: string, text: string)
    requires IsScan(docs, clusters) && f in BRAIN_FILES
    ensures var c := ClusterWith(clusters, text);
            var before, after := CountAt(docs, f, text), CountAt(CarryOut(docs, clusters), f, text);
            if c.None? then after == before
            else
              && c.value.locations != []
              && var first := c.value.locations[0].file;
                 after == if f != first then 0 else if |c.value.locations| == 1 then 1 else before
  {
    hide Occurrences, Removes, BRAIN_FILES, IsCluster, Bears;
    var c := ClusterWith(clusters, text);
    var g, m := "", 0;
    if c.Some? {
      g, m := FirstLocation(docs, c.value);
    }
    if f in docs {
      var removed := RemovedIn(clusters, f, |docs[f]|);
      var ns := LineNumbers(docs[f], text, 0);
      forall n | n in ns
        ensures n in removed <==> c.Some? && !IsCanonical(c.value, f, n)
      {
        LineNumbersAre(docs[f], text, 0);
        RemovesIff(docs, clusters, f, n, text);
      }
      CountAfter(docs, clusters, f, text);
      if c.None? {
        SparedAll(docs[f], removed, text, 0);
      } else {
        KeptInCluster(docs, c.value, f, removed);
      }
    } else if c.Some? {
      assert At(docs, g, m, text);
    }
  }

  lemma KeptInCluster(docs: Docs, c: Cluster, f: string, removed: set<nat>)
    requires IsCluster(docs, c) && f in BRAIN_FILES && f in docs
    requires c.locations != [] && c.locations[0].lines != []
    requires forall n :: n in LineNumbers(docs[f], c.text, 0) ==> (n in removed <==> !IsCanonical(c, f, n))
    ensures var first := c.locations[0].file;
            Spared(docs[f], removed, c.text, 0) ==
            if f != first then 0 else if |c.locations| == 1 then 1 else |LineNumbers(docs[f], c.text, 0)|
  {
    hide Occurrences, BRAIN_FILES, Bears, FileLess, LineNumbers;
    assert IsLocation(docs, c.text, c.locations[0]);
    var ns := LineNumbers(docs[f], c.text, 0);
    if |c.locations| > 1 {
      if f == c.locations[0].file {
        SparedAll(docs[f], removed, c.text, 0);
      } else {
        SparedNone(docs[f], removed, c.text, 0);
      }
    } else if f == c.locations[0].file {
      SparedFirst(docs[f], removed, c.text, 0);
    } else {
      assert forall l :: l in c.locations ==> l.file != f;
      assert ns == FileLines(docs, f, c.text);
      SparedNone(docs[f], removed, c.text, 0);
    }
  }

  // ----- rounds ---------------------------------------------------------------------------

  /** At least one file bears the text. */
  ghost predicate Present(docs: Docs, text: string) {
    exists f :: f in BRAIN_FILES && CountAt(docs, f, text) > 0
  }

  /** No text is borne by two files. */
  ghost predicate OneHolder(docs: Docs) {
    forall text, f, g ::
      f in BRAIN_FILES && g in BRAIN_FILES && CountAt(docs, f, text) > 0 && CountAt(docs, g, text) > 0 ==> f == g
  }

  /** Carrying out all proposals loses no text and brings none. */
  lemma TextsConserved(docs: Docs, clusters: seq<Cluster>, text: string)
    requires IsScan(docs, clusters)
    ensures Present(CarryOut(docs, clusters), text) <==> Present(docs, text)
  {
    hide BRAIN_FILES, FileLines, CarryOut, IsScan;
    var after := CarryOut(docs, clusters);
    var c := ClusterWith(clusters, text);
    forall f | f in BRAIN_FILES
      ensures c.None? ==> CountAt(after, f, text) == CountAt(docs, f, text)
    {
      AfterRound(docs, clusters, f, text);
    }
    if c.Some? {
      ClusterPresent(docs, clusters, c.value);
    }
  }

  lemma ClusterPresent(docs: Docs, clusters: seq<Cluster>, c: Cluster)
    requires IsScan(docs, clusters) && ClusterWith(clusters, c.text) == Some(c)
    ensures Present(CarryOut(docs, clusters), c.text) && Present(docs, c.text)
  {
    hide BRAIN_FILES, FileLines, CarryOut, IsCluster, Occurrences, At;
    var g, m := FirstLocation(docs, c);
    AtIff(docs, g, m, c.text);
    assert CountAt(docs, g, c.text) > 0;
    AfterRound(docs, clusters, g, c.text);
    assert CountAt(CarryOut(docs, clusters), g, c.text) > 0;
  }

  /** After a round every text is in one file only. */
  lemma RoundLeavesOneHolder(docs: Docs, clusters: seq<Cluster>)
    requires IsScan(docs, clusters)
    ensures OneHolder(CarryOut(docs, clusters))
  {
    hide BRAIN_FILES, CountAt, CarryOut, IsScan;
    var after := CarryOut(docs, clusters);
    forall text, f, g |
      f in BRAIN_FILES && g in BRAIN_FILES && CountAt(after, f, text) > 0 && CountAt(after, g, text) > 0
      ensures f == g
    {
      AfterRound(docs, clusters, f, text);
      AfterRound(docs, clusters, g, text);
      if ClusterWith(clusters, text).None? {
        HoldersOfOnce(docs, clusters, text, f, g);
      }
    }
  }

  lemma HoldersOfOnce(docs: Docs, clusters: seq<Cluster>, text: string, f: string, g: string)
    requires IsScan(docs, clusters) && ClusterWith(clusters, text).None?
    requires f in BRAIN_FILES && g in BRAIN_FILES && CountAt(docs, f, text) > 0 && CountAt(docs, g, text) > 0
    ensures f == g
  {
    hide BRAIN_FILES, IsScan, At, FileLines;
    var n, m := FileLines(docs, f, text)[0], FileLines(docs, g, text)[0];
    AtIff(docs, f, n, text);
    AtIff(docs, g, m, text);
    OccursOnce(docs, clusters, text, f, n, g, m);
  }

  /** With one holder, occurrences are counted in one file. */
  lemma CountWithOneHolder(docs: Docs, text: string, g: string)
    requires OneHolder(docs) && g in BRAIN_FILES && CountAt(docs, g, text) > 0
    ensures |Occurrences(docs, text, 0)| == CountAt(docs, g, text)
  {
    hide BRAIN_FILES, Occurrences, FileLines;
    assert BRAIN_FILES[0..] == BRAIN_FILES;
    forall f | f in BRAIN_FILES && f != g
      ensures FileLines(docs, f, text) == []
    {
      assert CountAt(docs, f, text) == 0;
    }
    OneFile(docs, text, 0, g);
  }

  /** The file that bears a text that occurs twice. */
  lemma HolderOf(docs: Docs, c: Cluster)
    requires IsCluster(docs, c)
    ensures c.locations != [] && c.locations[0].file in BRAIN_FILES
    ensures CountAt(docs, c.locations[0].file, c.text) == |c.locations[0].lines| > 0
    ensures OneHolder(docs) ==> |c.locations| == 1
  {
    hide BRAIN_FILES, Occurrences, FileLines, FileLess;
    ClusterFiles(docs, c);
    var ls := c.locations;
    assert IsLocation(docs, c.text, ls[0]);
    if OneHolder(docs) && |ls| > 1 {
      assert IsLocation(docs, c.text, ls[1]);
      assert CountAt(docs, ls[0].file, c.text) > 0 && CountAt(docs, ls[1].file, c.text) > 0;
      assert FileLess(ls[0].file, ls[1].file);
      FileIrreflexive(ls[0].file);
    }
  }

  lemma FileIrreflexive(f: string)
    ensures !FileLess(f, f)
  {
    LexIrreflexive(f);
  }

  /** What is found after a round: exactly the texts that several files bore
      and the first of them more than once. */
  lemma FoundAfterRound(docs: Docs, first: seq<Cluster>, second: seq<Cluster>, text: string)
    requires IsScan(docs, first) && IsScan(CarryOut(docs, first), second)
    ensures ClusterWith(second, text).Some? <==>
            var c := ClusterWith(first, text);
            c.Some? && |c.value.locations| > 1 && |c.value.locations[0].lines| > 1
  {
    hide BRAIN_FILES, Occurrences, FileLines, CarryOut, CountAt, IsCluster;
    var c, after := ClusterWith(first, text), CarryOut(docs, first);
    RoundLeavesOneHolder(docs, first);
    FoundIff(after, second, text);
    FoundIff(docs, first, text);
    if c.None? {
      SmallStaysSmall(docs, first, text);
    } else {
      HolderOf(docs, c.value);
      var g := c.value.locations[0].file;
      AfterRound(docs, first, g, text);
      CountWithOneHolder(after, text, g);
    }
  }

  /** One round is enough exactly when no text of several files is repeated in
      the one that keeps it. */
  lemma OneRoundSufficesIff(docs: Docs, first: seq<Cluster>, second: seq<Cluster>)
    requires IsScan(docs, first) && IsScan(CarryOut(docs, first), second)
    ensures second == [] <==>
            forall c :: c in first ==>
              && c.locations != []
              && (|c.locations| > 1 ==> |c.locations[0].lines| == 1)
  {
    hide BRAIN_FILES, Occurrences, CarryOut, IsCluster;
    forall i | 0 <= i < |first|
      ensures ClusterWith(first, first[i].text) == Some(first[i])
      ensures first[i].locations != [] && first[i].locations[0].lines != []
    {
      HolderOf(docs, first[i]);
      var c := ClusterWith(first, first[i].text).value;
      var j :| 0 <= j < |first| && first[j] == c;
      ClustersDiffer(docs, first, i, j);
    }
    if second != [] {
      FoundAfterRound(docs, first, second, second[0].text);
    } else {
      forall c | c in first
        ensures |c.locations| > 1 ==> |c.locations[0].lines| == 1
      {
        FoundAfterRound(docs, first, second, c.text);
      }
    }
  }

  lemma FoundIff(docs: Docs, clusters: seq<Cluster>, text: string)
    requires IsScan(docs, clusters)
    ensures ClusterWith(clusters, text).Some? <==> |Occurrences(docs, text, 0)| >= MIN_DUPLICATE_COUNT
  {
    hide Occurrences;
    var c := ClusterWith(clusters, text);
    if c.Some? {
      assert IsCluster(docs, c.value);
    }
  }

  lemma SmallStaysSmall(docs: Docs, clusters: seq<Cluster>, text: string)
    requires IsScan(docs, clusters) && ClusterWith(clusters, text).None?
    ensures |Occurrences(CarryOut(docs, clusters), text, 0)| < MIN_DUPLICATE_COUNT
  {
    hide BRAIN_FILES, Occurrences, CarryOut, IsScan, FileLines;
    var after := CarryOut(docs, clusters);
    RoundLeavesOneHolder(docs, clusters);
    FoundIff(docs, clusters, text);
    if Present(after, text) {
      var g :| g in BRAIN_FILES && CountAt(after, g, text) > 0;
      CountWithOneHolder(after, text, g);
      AfterRound(docs, clusters, g, text);
      CountBound(docs, text, g);
    } else {
      NoFile(after, text);
    }
  }

  /** One file has no more occurrences than there are. */
  lemma CountBound(docs: Docs, text: string, g: string)
    requires g in BRAIN_FILES
    ensures CountAt(docs, g, text) <= |Occurrences(docs, text, 0)|
  {
    hide BRAIN_FILES, Occurrences, FileLines, LinesIn;
    assert BRAIN_FILES[0..] == BRAIN_FILES;
    LinesInOccurrences(docs, text, 0, g);
    LinesInShorter(Occurrences(docs, text, 0), g);
  }

  lemma {:induction false} LinesInShorter(locations: seq<(string, nat)>, f: string)
    ensures |LinesIn(locations, f)| <= |locations|
  {
    if locations != [] {
      LinesInShorter(locations[1..], f);
    }
  }

  /** Two rounds always suffice: a third scan finds nothing, and no text is lost. */
  lemma TwoRoundsSuffice(docs: Docs, first: seq<Cluster>, second: seq<Cluster>, third: seq<Cluster>)
    requires IsScan(docs, first)
    requires IsScan(CarryOut(docs, first), second)
    requires IsScan(CarryOut(CarryOut(docs, first), second), third)
    ensures third == []
    ensures forall text :: Present(CarryOut(CarryOut(docs, first), second), text) <==> Present(docs, text)
  {
    hide BRAIN_FILES, Occurrences, CarryOut, IsCluster, Present;
    var after := CarryOut(docs, first);
    forall text
      ensures Present(CarryOut(after, second), text) <==> Present(docs, text)
    {
      TextsConserved(docs, first, text);
      TextsConserved(after, second, text);
    }
    if third != [] {
      var text := third[0].text;
      FoundAfterRound(after, second, third, text);
      RoundLeavesOneHolder(docs, first);
      HolderOf(after, ClusterWith(second, text).value);
    }
  }

  // ----- one round is not enough ------------------------------------------------------------

  const AGAIN: string := "said twice here"
  const TWICE: Docs := map["SOUL.md" := [AGAIN, AGAIN], "USER.md" := [AGAIN]]

  lemma AgainBears()
    ensures Bears(AGAIN, AGAIN)
  {
    hide IsWhitespace, Find;
    AgainIsSolid();
    TrimFixed(AGAIN);
    ByteLenAtLeast(AGAIN);
    assert AGAIN[0] == 's';
  }

  lemma AgainIsSolid()
    ensures !IsWhitespace(AGAIN[0]) && !IsWhitespace(AGAIN[|AGAIN| - 1])
  {
  }

  lemma TwiceLines()
    ensures FileLines(TWICE, "SOUL.md", AGAIN) == [1, 2] && FileLines(TWICE, "USER.md", AGAIN) == [1]
  {
    hide Bears, AGAIN;
    AgainBears();
    var two, one := [AGAIN, AGAIN], [AGAIN];
    assert LineNumbers(two, AGAIN, 2) == [] && LineNumbers(two, AGAIN, 1) == [2];
    assert LineNumbers(one, AGAIN, 1) == [];
  }

  /** A text twice in `SOUL.md` and once in `USER.md`: the scan after a round
      always finds it again. */
  lemma OneRoundIsNotEnough(first: seq<Cluster>, second: seq<Cluster>)
    requires IsScan(TWICE, first) && IsScan(CarryOut(TWICE, first), second)
    ensures second != []
  {
    hide AGAIN, TWICE, FileLines, Occurrences, CarryOut, FileLess, At;
    TwiceLines();
    var soul, user := "SOUL.md", "USER.md";
    assert BRAIN_FILES[0] == soul && BRAIN_FILES[1] == user;
    CountBound(TWICE, AGAIN, soul);
    FoundIff(TWICE, first, AGAIN);
    var c := ClusterWith(first, AGAIN).value;
    SoulFirst(c);
    OneRoundSufficesIff(TWICE, first, second);
  }

  lemma SoulFirst(c: Cluster)
    requires IsCluster(TWICE, c) && c.text == AGAIN
    ensures |c.locations| > 1 && |c.locations[0].lines| > 1
  {
    hide AGAIN, TWICE, FileLines, Occurrences, FileLess;
    TwiceLines();
    var soul, user := "SOUL.md", "USER.md";
    assert BRAIN_FILES[0] == soul && BRAIN_FILES[1] == user;
    var l, m := Location(soul, [1, 2]), Location(user, [1]);
    assert l in c.locations && m in c.locations;
    var i :| 0 <= i < |c.locations| && c.locations[i] == l;
    var j :| 0 <= j < |c.locations| && c.locations[j] == m;
    assert i != j;
    var first := c.locations[0];
    if i > 0 {
      assert FileLess(first.file, soul);
    }
    NothingBeforeSoul(first.file);
  }

  lemma NothingBeforeSoul(f: string)
    ensures !FileLess(f, "SOUL.md")
  {
    FileIrreflexive("SOUL.md");
  }
}
