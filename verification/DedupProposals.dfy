/** The removals proposed for the duplicate lines, and what is left when they
    are carried out (`src/brain/dedup_scan.rs`). */
module DedupProposals {
  import opened Text
  import opened Ordering
  import opened Dedup
  import Numbers

  /** A proposal; `removed` are the lines it is about, of which the program
      keeps the span, as text, and the number. */
  datatype Proposal = Proposal(
    targetFile: string,
    duplicateText: string,
    lineRange: string,
    duplicateOf: string,
    count: nat,
    removed: seq<nat>)

  function MinOf(ns: seq<nat>): (m: nat)
    requires ns != []
    ensures m in ns && forall n :: n in ns ==> m <= n
  {
    if |ns| == 1 then ns[0]
    else
      var m := MinOf(ns[1..]);
      assert ns == [ns[0]] + ns[1..];
      if ns[0] < m then ns[0] else m
  }

  function MaxOf(ns: seq<nat>): (m: nat)
    requires ns != []
    ensures m in ns && forall n :: n in ns ==> n <= m
  {
    if |ns| == 1 then ns[0]
    else
      var m := MaxOf(ns[1..]);
      assert ns == [ns[0]] + ns[1..];
      if ns[0] > m then ns[0] else m
  }

  function LineRange(ns: seq<nat>): string
    requires ns != []
  {
    if |ns| == 1 then Numbers.Print(ns[0])
    else Numbers.Print(MinOf(ns)) + "-" + Numbers.Print(MaxOf(ns))
  }

  function DuplicateOf(file: string, line: nat): string {
    file + ":" + Numbers.Print(line)
  }

  function BuildProposal(c: Cluster, canonicalFile: string, firstLine: nat, target: string, removed: seq<nat>):
    Option<Proposal>
  {
    if removed == [] then None
    else Some(Proposal(target, c.text, LineRange(removed), DuplicateOf(canonicalFile, firstLine), |removed|, removed))
  }

  /** The first line of the first location is looked at, except when a single
      location has none. */
  predicate CanPropose(c: Cluster) {
    |c.locations| <= 1 || c.locations[0].lines != []
  }

  /** `cluster_to_proposals`. */
  method ClusterToProposals(c: Cluster) returns (proposals: seq<Proposal>)
    requires CanPropose(c)
    ensures proposals == ProposalsOf(c)
  {
    hide BuildProposal;
    proposals := [];
    if c.locations == [] {
      return;
    }
    var canonical := c.locations[0];
    if |c.locations| == 1 {
      if |canonical.lines| <= 1 {
        return;
      }
      var p := BuildProposal(c, canonical.file, canonical.lines[0], canonical.file, canonical.lines[1..]);
      if p.Some? {
        proposals := [p.value];
      }
      return;
    }
    for i := 1 to |c.locations|
      invariant proposals + ProposalsFrom(c, i) == ProposalsOf(c)
    {
      var other := c.locations[i];
      var p := BuildProposal(c, canonical.file, canonical.lines[0], other.file, other.lines);
      assert ProposalsFrom(c, i) == OptionList(p) + ProposalsFrom(c, i + 1);
      if p.Some? {
        SeqAssoc(proposals, [p.value], ProposalsFrom(c, i + 1));
        proposals := proposals + [p.value];
      } else {
        assert [] + ProposalsFrom(c, i + 1) == ProposalsFrom(c, i + 1);
      }
    }
  }

  function OptionList<T>(p: Option<T>): seq<T> {
    match p
    case None => []
    case Some(x) => [x]
  }

  function ProposalsFrom(c: Cluster, i: nat): seq<Proposal>
    requires 1 <= i <= |c.locations| && c.locations[0].lines != []
    decreases |c.locations| - i
  {
    if i == |c.locations| then []
    else
      OptionList(BuildProposal(
        c, c.locations[0].file, c.locations[0].lines[0], c.locations[i].file, c.locations[i].lines))
      + ProposalsFrom(c, i + 1)
  }

  function ProposalsOf(c: Cluster): seq<Proposal>
    requires CanPropose(c)
  {
    if c.locations == [] then []
    else if |c.locations| == 1 then
      var l := c.locations[0];
      if |l.lines| <= 1 then [] else OptionList(BuildProposal(c, l.file, l.lines[0], l.file, l.lines[1..]))
    else ProposalsFrom(c, 1)
  }

  // ----- the proposals of a cluster ----------------------------------------------------

  /** The occurrences, when only the file `g` has any. */
  lemma {:induction false} OneFile(docs: Docs, text: string, k: nat, g: string)
    requires k <= |BRAIN_FILES|
    requires forall f :: f in BRAIN_FILES && f != g ==> FileLines(docs, f, text) == []
    ensures |Occurrences(docs, text, k)| == if g in BRAIN_FILES[k..] then |FileLines(docs, g, text)| else 0
    decreases |BRAIN_FILES| - k
  {
    hide BRAIN_FILES, Located, FileLines;
    if k < |BRAIN_FILES| {
      OneFile(docs, text, k + 1, g);
      var f := BRAIN_FILES[k];
      assert BRAIN_FILES[k..] == [f] + BRAIN_FILES[k + 1..];
      LaterFilesDiffer(k);
      LocatedCount(docs, f, text);
    }
  }

  lemma LocatedCount(docs: Docs, f: string, text: string)
    ensures f in docs ==> |Located(f, docs[f], text, 0)| == |FileLines(docs, f, text)|
    ensures f !in docs ==> FileLines(docs, f, text) == []
  {
    if f in docs {
      LocatedCountFrom(f, docs[f], text, 0);
    }
  }

  lemma {:induction false} LocatedCountFrom(f: string, lines: seq<string>, text: string, i: nat)
    requires i <= |lines|
    ensures |Located(f, lines, text, i)| == |LineNumbers(lines, text, i)|
    decreases |lines| - i
  {
    hide Bears;
    if i < |lines| {
      LocatedCountFrom(f, lines, text, i + 1);
    }
  }

  lemma NoFile(docs: Docs, text: string)
    requires forall f :: f in BRAIN_FILES ==> FileLines(docs, f, text) == []
    ensures Occurrences(docs, text, 0) == []
  {
    hide BRAIN_FILES, Occurrences;
    OneFile(docs, text, 0, "");
    assert BRAIN_FILES[0..] == BRAIN_FILES;
  }

  /** The files of a cluster are those that bear its text. */
  lemma ClusterFiles(docs: Docs, c: Cluster)
    requires IsCluster(docs, c)
    ensures c.locations != [] && CanPropose(c)
    ensures |c.locations| == 1 ==> |c.locations[0].lines| == c.totalCount
  {
    hide Occurrences, FileLines, BRAIN_FILES, FileLess;
    if c.locations == [] {
      forall f | f in BRAIN_FILES
        ensures FileLines(docs, f, c.text) == []
      {
      }
      NoFile(docs, c.text);
    } else {
      assert IsLocation(docs, c.text, c.locations[0]);
      var g := c.locations[0].file;
      if |c.locations| == 1 {
        assert forall l :: l in c.locations ==> l.file == g;
        OneFile(docs, c.text, 0, g);
        assert BRAIN_FILES[0..] == BRAIN_FILES;
      }
    }
  }

  lemma {:induction false} ProposalsFromAre(docs: Docs, c: Cluster, i: nat)
    requires IsCluster(docs, c) && 1 <= i <= |c.locations| && c.locations[0].lines != []
    ensures var ps := ProposalsFrom(c, i);
            && |ps| == |c.locations| - i
            && forall k :: 0 <= k < |ps| ==>
                 && ps[k].targetFile == c.locations[i + k].file
                 && ps[k].removed == c.locations[i + k].lines != []
                 && ps[k].count == |ps[k].removed|
                 && ps[k].duplicateText == c.text
                 && ps[k].lineRange == LineRange(ps[k].removed)
                 && ps[k].duplicateOf == DuplicateOf(c.locations[0].file, c.locations[0].lines[0])
    decreases |c.locations| - i
  {
    hide Occurrences, FileLines, BRAIN_FILES, LineRange, DuplicateOf, FileLess;
    if i < |c.locations| {
      ProposalsFromAre(docs, c, i + 1);
      assert IsLocation(docs, c.text, c.locations[i]);
    }
  }

  /** A cluster over k files gives k - 1 proposals, one for each file but the
      first in the canonical order, with all of its lines; a cluster within one
      file gives one, with all lines but the first. */
  lemma ProposalCount(docs: Docs, c: Cluster)
    requires IsCluster(docs, c)
    ensures CanPropose(c)
    ensures var ps, k := ProposalsOf(c), |c.locations|;
            && k >= 1 && c.locations[0].lines != []
            && |ps| == (if k == 1 then 1 else k - 1)
            && forall i :: 0 <= i < |ps| ==>
                 && ps[i].targetFile == (if k == 1 then c.locations[0] else c.locations[i + 1]).file
                 && ps[i].removed == (if k == 1 then c.locations[0].lines[1..] else c.locations[i + 1].lines) != []
                 && ps[i].count == |ps[i].removed|
                 && ps[i].duplicateText == c.text
                 && ps[i].lineRange == LineRange(ps[i].removed)
                 && ps[i].duplicateOf == DuplicateOf(c.locations[0].file, c.locations[0].lines[0])
  {
    hide Occurrences, FileLines, BRAIN_FILES, LineRange, DuplicateOf, FileLess;
    ClusterFiles(docs, c);
    assert IsLocation(docs, c.text, c.locations[0]);
    if |c.locations| > 1 {
      ProposalsFromAre(docs, c, 1);
    }
  }

  // ----- carrying them out ----------------------------------------------------------------

  /** Some proposal of some cluster names the line. */
  ghost predicate Removes(clusters: seq<Cluster>, f: string, n: nat) {
    exists i :: 0 <= i < |clusters| && ClusterRemoves(clusters[i], f, n)
  }

  ghost predicate ClusterRemoves(c: Cluster, f: string, n: nat) {
    && CanPropose(c)
    && exists i ::
         0 <= i < |ProposalsOf(c)| && ProposalsOf(c)[i].targetFile == f && n in ProposalsOf(c)[i].removed
  }

  /** The line of the file bears the text. */
  ghost predicate At(docs: Docs, f: string, n: nat, text: string) {
    f in BRAIN_FILES && f in docs && 1 <= n <= |docs[f]| && Bears(docs[f][n - 1], text)
  }

  lemma AtIff(docs: Docs, f: string, n: nat, text: string)
    ensures At(docs, f, n, text) <==> f in BRAIN_FILES && n in FileLines(docs, f, text)
  {
    hide Bears, BRAIN_FILES;
    if f in docs {
      LineNumbersAre(docs[f], text, 0);
    }
  }

  /** The first occurrence in the first file. */
  predicate IsCanonical(c: Cluster, f: string, n: nat)
    requires c.locations != [] && c.locations[0].lines != []
  {
    if |c.locations| == 1 then n == c.locations[0].lines[0] else f == c.locations[0].file
  }

  lemma ClusterRemovesIff(docs: Docs, c: Cluster, f: string, n: nat)
    requires IsCluster(docs, c)
    ensures c.locations != [] && c.locations[0].lines != []
    ensures ClusterRemoves(c, f, n) <==> At(docs, f, n, c.text) && !IsCanonical(c, f, n)
  {
    hide Occurrences, BRAIN_FILES, ProposalsOf, LineRange, DuplicateOf, FileLess, At, FileLines;
    ProposalCount(docs, c);
    AtIff(docs, f, n, c.text);
    var ps, ls := ProposalsOf(c), c.locations;
    assert forall i :: 0 <= i < |ls| ==> IsLocation(docs, c.text, ls[i]);
    if |ls| == 1 {
      assert ps[0].targetFile == ls[0].file;
      InTail(docs, ls[0].file, c.text);
      assert At(docs, f, n, c.text) ==> Location(f, FileLines(docs, f, c.text)) == ls[0];
    } else {
      if At(docs, f, n, c.text) && f != ls[0].file {
        var j :| 0 <= j < |ls| && ls[j] == Location(f, FileLines(docs, f, c.text));
        assert ps[j - 1].targetFile == f && n in ps[j - 1].removed;
      }
      if ClusterRemoves(c, f, n) {
        var i :| 0 <= i < |ps| && ps[i].targetFile == f && n in ps[i].removed;
        assert FileLess(ls[0].file, ls[i + 1].file);
        FileIsOrder();
      }
    }
  }

  lemma InTail(docs: Docs, f: string, text: string)
    ensures var ns := FileLines(docs, f, text); ns != [] ==> forall n :: n in ns[1..] <==> n in ns && n != ns[0]
  {
    hide Bears;
    var ns := FileLines(docs, f, text);
    if f in docs && ns != [] {
      LineNumbersAre(docs[f], text, 0);
      forall n
        ensures n in ns[1..] <==> n in ns && n != ns[0]
      {
        if n in ns[1..] {
          var j :| 0 <= j < |ns[1..]| && ns[1..][j] == n;
          assert ns[0] < ns[j + 1];
        }
        assert ns == [ns[0]] + ns[1..];
      }
    }
  }

  // ----- conservation -----------------------------------------------------------------------

  lemma {:induction false} LocationsIn(locations: seq<(string, nat)>, f: string, n: nat)
    ensures (f, n) in locations <==> n in LinesIn(locations, f)
  {
    if locations != [] {
      assert locations == [locations[0]] + locations[1..];
      LocationsIn(locations[1..], f, n);
    }
  }

  /** The occurrences are the lines that bear the text. */
  lemma OccurrencesAre(docs: Docs, text: string, f: string, n: nat)
    ensures (f, n) in Occurrences(docs, text, 0) <==> At(docs, f, n, text)
  {
    hide Occurrences, At, BRAIN_FILES, FileLines, LinesIn;
    LocationsIn(Occurrences(docs, text, 0), f, n);
    LinesInOccurrences(docs, text, 0, f);
    AtIff(docs, f, n, text);
    assert BRAIN_FILES[0..] == BRAIN_FILES;
  }

  /** A text of no cluster occurs at most once. */
  lemma OccursOnce(docs: Docs, clusters: seq<Cluster>, text: string, f: string, n: nat, g: string, m: nat)
    requires IsScan(docs, clusters) && ClusterWith(clusters, text).None?
    requires At(docs, f, n, text) && At(docs, g, m, text)
    ensures f == g && n == m
  {
    hide Occurrences, At, IsCluster;
    OccurrencesAre(docs, text, f, n);
    OccurrencesAre(docs, text, g, m);
    var locations := Occurrences(docs, text, 0);
    assert |locations| < MIN_DUPLICATE_COUNT;
    assert locations[0] == (f, n) && locations[0] == (g, m);
  }

  /** The cluster of a text, if there is one. */
  ghost function ClusterWith(clusters: seq<Cluster>, text: string): (r: Option<Cluster>)
    ensures r.Some? ==> r.value in clusters && r.value.text == text
    ensures r.None? ==> forall i :: 0 <= i < |clusters| ==> clusters[i].text != text
  {
    if i :| 0 <= i < |clusters| && clusters[i].text == text then Some(clusters[i]) else None
  }

  lemma LexIrreflexive(a: string)
    ensures !LexLess(a, a)
  {
    if LexLess(a, a) {
      LexAsymmetric(a, a);
    }
  }

  lemma ClustersDiffer(docs: Docs, clusters: seq<Cluster>, i: nat, j: nat)
    requires IsScan(docs, clusters) && i < |clusters| && j < |clusters|
    requires clusters[i].text == clusters[j].text
    ensures i == j
  {
    hide Occurrences, LexLess;
    LexIrreflexive(clusters[i].text);
    assert IsCluster(docs, clusters[i]) && IsCluster(docs, clusters[j]);
    assert i < j ==> ComesBefore(clusters[i], clusters[j]);
    assert j < i ==> ComesBefore(clusters[j], clusters[i]);
  }

  /** Exactly what is removed: the lines that bear the text of a cluster,
      except the canonical ones. Structural lines, header lines and the text
      of no cluster stay. */
  lemma RemovesIff(docs: Docs, clusters: seq<Cluster>, f: string, n: nat, text: string)
    requires IsScan(docs, clusters) && At(docs, f, n, text)
    ensures var c := ClusterWith(clusters, text);
            && (c.Some? ==> c.value.locations != [] && c.value.locations[0].lines != [])
            && (Removes(clusters, f, n) <==> c.Some? && !IsCanonical(c.value, f, n))
  {
    hide Occurrences, ClusterRemoves, IsCluster;
    var c := ClusterWith(clusters, text);
    forall i | 0 <= i < |clusters|
      ensures ClusterRemoves(clusters[i], f, n) ==> clusters[i].text == text
      ensures c.Some? && clusters[i].text == text ==> clusters[i] == c.value
    {
      ClusterRemovesIff(docs, clusters[i], f, n);
      if c.Some? && clusters[i].text == text {
        var j :| 0 <= j < |clusters| && clusters[j] == c.value;
        ClustersDiffer(docs, clusters, i, j);
      }
    }
    if c.Some? {
      ClusterRemovesIff(docs, c.value, f, n);
    }
  }

  lemma OnlyTextIsRemoved(docs: Docs, clusters: seq<Cluster>, f: string, n: nat)
    requires IsScan(docs, clusters) && Removes(clusters, f, n)
    ensures f in BRAIN_FILES && f in docs && 1 <= n <= |docs[f]|
    ensures !IsStructuralLine(docs[f][n - 1]) && At(docs, f, n, Trim(docs[f][n - 1]))
  {
    hide Occurrences, ClusterRemoves, IsCluster, BRAIN_FILES, IsStructuralLine;
    var i :| 0 <= i < |clusters| && ClusterRemoves(clusters[i], f, n);
    ClusterRemovesIff(docs, clusters[i], f, n);
  }

  /** Every text survives: at `g`:`m`, the first line in the first file, by the
      canonical order, that bears it, which is also what the proposals for the
      text name. */
  lemma ContentConserved(docs: Docs, clusters: seq<Cluster>, f: string, n: nat, text: string)
    returns (g: string, m: nat)
    requires IsScan(docs, clusters) && At(docs, f, n, text)
    ensures At(docs, g, m, text) && !Removes(clusters, g, m)
    ensures forall h, k :: At(docs, h, k, text) ==> h == g || FileLess(g, h)
    ensures forall k :: At(docs, g, k, text) ==> m <= k
    ensures forall c, p :: c in clusters && c.text == text && CanPropose(c) && p in ProposalsOf(c) ==>
              p.duplicateOf == DuplicateOf(g, m)
  {
    hide Occurrences, At, IsCluster, FileLess, DuplicateOf, ProposalsOf, Removes;
    var found := ClusterWith(clusters, text);
    if found.None? {
      g, m := f, n;
      forall h, k | At(docs, h, k, text)
        ensures h == g && k == m
      {
        OccursOnce(docs, clusters, text, f, n, h, k);
      }
      RemovesIff(docs, clusters, f, n, text);
      return;
    }
    var c := found.value;
    ClusterFiles(docs, c);
    g, m := FirstLocation(docs, c);
    RemovesIff(docs, clusters, g, m, text);
    forall d, p | d in clusters && d.text == text && CanPropose(d) && p in ProposalsOf(d)
      ensures p.duplicateOf == DuplicateOf(g, m)
    {
      var i :| 0 <= i < |clusters| && clusters[i] == d;
      var j :| 0 <= j < |clusters| && clusters[j] == c;
      ClustersDiffer(docs, clusters, i, j);
      ProposalCount(docs, c);
    }
  }

  lemma FirstLocation(docs: Docs, c: Cluster) returns (g: string, m: nat)
    requires IsCluster(docs, c)
    ensures c.locations != [] && c.locations[0].file == g && c.locations[0].lines != [] && c.locations[0].lines[0] == m
    ensures At(docs, g, m, c.text)
    ensures forall h, k :: At(docs, h, k, c.text) ==> h == g || FileLess(g, h)
    ensures forall k :: At(docs, g, k, c.text) ==> m <= k
  {
    hide Occurrences, At, FileLess, FileLines, BRAIN_FILES;
    ClusterFiles(docs, c);
    var ls := c.locations;
    assert IsLocation(docs, c.text, ls[0]);
    g, m := ls[0].file, ls[0].lines[0];
    AtIff(docs, g, m, c.text);
    forall h, k | At(docs, h, k, c.text)
      ensures h == g || FileLess(g, h)
    {
      AtIff(docs, h, k, c.text);
      var j :| 0 <= j < |ls| && ls[j] == Location(h, FileLines(docs, h, c.text));
      assert j > 0 ==> FileLess(ls[0].file, ls[j].file);
    }
    forall k | At(docs, g, k, c.text)
      ensures m <= k
    {
      AtIff(docs, g, k, c.text);
      FirstIsLeast(docs, g, c.text);
    }
  }

  lemma FirstIsLeast(docs: Docs, f: string, text: string)
    ensures var ns := FileLines(docs, f, text); forall n :: n in ns ==> ns[0] <= n
  {
    hide Bears;
    if f in docs {
      LineNumbersAre(docs[f], text, 0);
    }
  }

  /** What a proposal names tells file and line apart. */
  lemma DuplicateOfTells(f: string, n: nat, g: string, m: nat)
    requires DuplicateOf(f, n) == DuplicateOf(g, m)
    ensures f == g && n == m
  {
    hide Numbers.Print;
    SplitAtLast(f, Numbers.Print(n), g, Numbers.Print(m), ':');
    Numbers.PrintInjective(n, m);
  }
}
