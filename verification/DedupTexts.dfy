/** What a scan for duplicates finds, told by the lines of the files
    (`src/brain/dedup_scan.rs`). */
module DedupTexts {
  import opened Text
  import opened Ordering
  import opened Dedup
  import opened DedupProposals

  predicate DashesAt(t: string, p: nat) {
    p + 3 <= |t| && t[p] == t[p + 1] == t[p + 2] == '-'
  }

  /** A text that is looked at: ten bytes or more, no heading, no rule, no row
      between bars with dashes in it, and no quote under twenty bytes. */
  ghost predicate IsScanned(t: string) {
    && ByteLen(t) >= 10
    && t[0] != '#'
    && (exists k :: 0 <= k < |t| && t[k] != '-' && t[k] != '=' && t[k] != '*' && t[k] != '_')
    && !(t[0] == '|' && t[|t| - 1] == '|' && exists p: nat :: DashesAt(t, p))
    && !(t[0] == '>' && ByteLen(t) < 20)
  }

  lemma DashesIff(t: string)
    ensures Find(t, "---", 0).Some? <==> exists p: nat :: DashesAt(t, p)
  {
    FindIsFirst(t, "---", 0);
    hide Find, OccursAt, DashesAt;
    forall p: nat
      ensures OccursAt(t, "---", p) <==> DashesAt(t, p)
    {
      DashesHere(t, p);
    }
  }

  lemma DashesHere(t: string, p: nat)
    ensures OccursAt(t, "---", p) <==> DashesAt(t, p)
  {
    if p + 3 <= |t| {
      var part := t[p..p + 3];
      assert part[0] == t[p] && part[1] == t[p + 1] && part[2] == t[p + 2];
    }
  }

  lemma ScannedIff(line: string)
    ensures !IsStructuralLine(line) <==> IsScanned(Trim(line))
  {
    hide Trim, Find, ByteLen;
    var t := Trim(line);
    ByteLenAtLeast(t);
    EmptyBytes();
    if t != "" {
      DashesIff(t);
    }
  }

  lemma EmptyBytes()
    ensures ByteLen("") == 0
  {
  }

  // ----- places -----------------------------------------------------------------------------

  /** The numbers, from 1, of the lines that trim to the text. */
  ghost function LinesWith(lines: seq<string>, text: string): set<nat> {
    set n: nat | 1 <= n <= |lines| && LineTrimsTo(lines, n, text)
  }

  predicate LineTrimsTo(lines: seq<string>, n: nat, text: string)
    requires 1 <= n <= |lines|
  {
    Trim(lines[n - 1]) == text
  }

  /** All such lines of the scanned files. */
  ghost function Places(docs: Docs, text: string): set<(string, nat)> {
    set f, n | f in docs && f in BRAIN_FILES && n in LinesWith(docs[f], text) :: (f, n)
  }

  lemma AtPlace(docs: Docs, f: string, n: nat, text: string)
    ensures At(docs, f, n, text) <==> IsScanned(text) && (f, n) in Places(docs, text)
  {
    hide Trim, IsStructuralLine, IsScanned, BRAIN_FILES;
    if f in docs && 1 <= n <= |docs[f]| {
      ScannedIff(docs[f][n - 1]);
    }
  }

  ghost predicate Distinct<T>(s: seq<T>) {
    forall i, j :: 0 <= i < j < |s| ==> s[i] != s[j]
  }

  lemma DistinctConcat<T>(a: seq<T>, b: seq<T>)
    requires Distinct(a) && Distinct(b) && forall x :: x in a ==> x !in b
    ensures Distinct(a + b)
  {
    var s := a + b;
    forall i, j | 0 <= i < j < |s|
      ensures s[i] != s[j]
    {
      if i < |a| <= j {
        assert a[i] in a && b[j - |a|] in b;
      }
    }
  }

  lemma {:induction false} DistinctSize<T>(s: seq<T>)
    requires Distinct(s)
    ensures |set x | x in s| == |s|
  {
    if s != [] {
      var front, last := s[..|s| - 1], s[|s| - 1];
      DistinctSize(front);
      assert s == front + [last];
      assert (set x | x in s) == (set x | x in front) + {last};
      assert last !in front;
    } else {
      assert (set x | x in s) == {};
    }
  }

  lemma {:induction false} LocatedDistinct(f: string, lines: seq<string>, text: string, i: nat)
    requires i <= |lines|
    ensures Distinct(Located(f, lines, text, i))
    ensures forall x :: x in Located(f, lines, text, i) ==> x.0 == f && x.1 > i
    decreases |lines| - i
  {
    hide Bears;
    if i < |lines| {
      LocatedDistinct(f, lines, text, i + 1);
      if Bears(lines[i], text) {
        DistinctConcat([(f, i + 1)], Located(f, lines, text, i + 1));
      }
    }
  }

  lemma {:induction false} OccurrencesDistinct(docs: Docs, text: string, k: nat)
    requires k <= |BRAIN_FILES|
    ensures Distinct(Occurrences(docs, text, k))
    ensures forall x :: x in Occurrences(docs, text, k) ==> x.0 in BRAIN_FILES[k..]
    decreases |BRAIN_FILES| - k
  {
    hide BRAIN_FILES, Located;
    if k < |BRAIN_FILES| {
      OccurrencesDistinct(docs, text, k + 1);
      var f := BRAIN_FILES[k];
      assert BRAIN_FILES[k..] == [f] + BRAIN_FILES[k + 1..];
      LaterFilesDiffer(k);
      if f in docs {
        LocatedDistinct(f, docs[f], text, 0);
        DistinctConcat(Located(f, docs[f], text, 0), Occurrences(docs, text, k + 1));
      }
    }
  }

  /** How often a text occurs, for the scan. */
  lemma OccurrencesCount(docs: Docs, text: string)
    ensures |Occurrences(docs, text, 0)| == if IsScanned(text) then |Places(docs, text)| else 0
  {
    hide Occurrences, Places, At, IsScanned;
    var found := Occurrences(docs, text, 0);
    OccurrencesDistinct(docs, text, 0);
    DistinctSize(found);
    forall x: (string, nat)
      ensures x in found <==> IsScanned(text) && x in Places(docs, text)
    {
      OccurrencesAre(docs, text, x.0, x.1);
      AtPlace(docs, x.0, x.1, text);
    }
    assert (set x | x in found) == if IsScanned(text) then Places(docs, text) else {};
  }

  // ----- the scan -----------------------------------------------------------------------------

  /** Which texts have a cluster: exactly those to which at least two lines of the
      scanned files trim, and that are looked at. */
  lemma ClusterTexts(docs: Docs, clusters: seq<Cluster>, text: string)
    requires IsScan(docs, clusters)
    ensures (exists i :: 0 <= i < |clusters| && clusters[i].text == text) <==>
            IsScanned(text) && |Places(docs, text)| >= 2
  {
    hide Occurrences, Places, IsScanned;
    OccurrencesCount(docs, text);
    if i :| 0 <= i < |clusters| && clusters[i].text == text {
      assert IsCluster(docs, clusters[i]);
    }
  }

  /** And what is in it: the number of those lines, and every one of them under its
      file. */
  lemma ClusterHolds(docs: Docs, clusters: seq<Cluster>, i: nat, f: string, n: nat)
    requires IsScan(docs, clusters) && i < |clusters|
    ensures var c := clusters[i];
            && c.totalCount == |Places(docs, c.text)|
            && ((exists l :: l in c.locations && l.file == f && n in l.lines) <==> (f, n) in Places(docs, c.text))
  {
    hide Occurrences, Places, IsScanned, At, FileLines, BRAIN_FILES, FileLess;
    var c := clusters[i];
    assert IsCluster(docs, c);
    OccurrencesCount(docs, c.text);
    AtPlace(docs, f, n, c.text);
    AtIff(docs, f, n, c.text);
    if l :| l in c.locations && l.file == f && n in l.lines {
      var k :| 0 <= k < |c.locations| && c.locations[k] == l;
      assert IsLocation(docs, c.text, l);
    }
    if (f, n) in Places(docs, c.text) {
      var l := Location(f, FileLines(docs, f, c.text));
      assert l in c.locations && n in l.lines;
    }
  }

  /** The order: more frequent texts first, and texts of one frequency by
      characters; within a cluster files by rank, and files of one rank by name. */
  lemma ScanOrder(docs: Docs, clusters: seq<Cluster>, i: nat, j: nat)
    requires IsScan(docs, clusters) && i < j < |clusters|
    ensures var a, b := clusters[i], clusters[j];
            && |Places(docs, a.text)| >= |Places(docs, b.text)|
            && (|Places(docs, a.text)| == |Places(docs, b.text)| ==> LexLess(a.text, b.text))
    ensures forall k, m :: 0 <= k < m < |clusters[i].locations| ==>
              var f, g := clusters[i].locations[k].file, clusters[i].locations[m].file;
              && CanonicalFileRank(f) <= CanonicalFileRank(g)
              && (CanonicalFileRank(f) == CanonicalFileRank(g) ==> LexLess(f, g))
  {
    hide Occurrences, Places, LexLess, CanonicalFileRank, IsLocation;
    assert IsCluster(docs, clusters[i]);
    ClusterHolds(docs, clusters, i, "", 0);
    ClusterHolds(docs, clusters, j, "", 0);
    assert ComesBefore(clusters[i], clusters[j]);
  }
}
