/** The scan for duplicate lines in the brain files and the removals it
    proposes (`src/brain/dedup_scan.rs`). A file is the list of its lines. */
module Dedup {
  import opened Text
  import opened Ordering
  import Numbers

  /** The files that exist and can be read, with their lines. */
  type Docs = map<string, seq<string>>

  const BRAIN_FILES: seq<string> := [
    "SOUL.md", "USER.md", "AGENTS.md", "CODE.md", "TOOLS.md",
    "SECURITY.md", "MEMORY.md", "BOOT.md", "BOOTSTRAP.md", "HEARTBEAT.md"]

  const MIN_LINE_LEN: nat := 10
  const MIN_DUPLICATE_COUNT: nat := 2

  function CanonicalFileRank(file: string): nat {
    if file == "SOUL.md" then 0
    else if file == "AGENTS.md" then 1
    else if file == "TOOLS.md" then 2
    else if file == "CODE.md" then 3
    else if file == "SECURITY.md" then 4
    else if file == "MEMORY.md" then 5
    else if file == "USER.md" then 6
    else 255
  }

  /** The files that keep a text before all others, by purpose. */
  const PURPOSE_ORDER: seq<string> :=
    ["SOUL.md", "AGENTS.md", "TOOLS.md", "CODE.md", "SECURITY.md", "MEMORY.md", "USER.md"]

  /** The named files rank by purpose, and every other file ranks after them. */
  lemma RanksByPurpose(file: string)
    ensures forall i :: 0 <= i < |PURPOSE_ORDER| && PURPOSE_ORDER[i] == file ==> CanonicalFileRank(file) == i
    ensures file !in PURPOSE_ORDER ==> CanonicalFileRank(file) == 255
  {
  }

  predicate IsStructuralLine(line: string) {
    var trimmed := Trim(line);
    || trimmed == ""
    || ByteLen(trimmed) < MIN_LINE_LEN
    || trimmed[0] == '#'
    || (forall k :: 0 <= k < |trimmed| ==> trimmed[k] in {'-', '=', '*', '_'})
    || (trimmed[0] == '|' && trimmed[|trimmed| - 1] == '|' && Find(trimmed, "---", 0).Some?)
    || (trimmed[0] == '>' && ByteLen(trimmed) < 20)
  }

  /** The line counts as an occurrence of the text. */
  predicate Bears(line: string, text: string) {
    !IsStructuralLine(line) && Trim(line) == text
  }

  // ----- where a text occurs ----------------------------------------------------------

  /** The numbers, from 1, of the lines from index `i` on that bear the text. */
  function LineNumbers(lines: seq<string>, text: string, i: nat): seq<nat>
    requires i <= |lines|
    decreases |lines| - i
  {
    if i == |lines| then []
    else if Bears(lines[i], text) then [i + 1] + LineNumbers(lines, text, i + 1)
    else LineNumbers(lines, text, i + 1)
  }

  ghost predicate Ascending(ns: seq<nat>) {
    forall a, b :: 0 <= a < b < |ns| ==> ns[a] < ns[b]
  }

  lemma PrependAscending(n: nat, ns: seq<nat>)
    requires Ascending(ns) && (forall m :: m in ns ==> n < m)
    ensures Ascending([n] + ns)
  {
    var all := [n] + ns;
    forall a, b | 0 <= a < b < |all|
      ensures all[a] < all[b]
    {
      assert all[b] == ns[b - 1] && ns[b - 1] in ns;
      assert a == 0 || all[a] == ns[a - 1];
    }
  }

  /** They are all of them, in order. */
  lemma {:induction false} LineNumbersAre(lines: seq<string>, text: string, i: nat)
    requires i <= |lines|
    ensures forall n :: n in LineNumbers(lines, text, i) <==> i < n <= |lines| && Bears(lines[n - 1], text)
    ensures Ascending(LineNumbers(lines, text, i))
    decreases |lines| - i
  {
    hide Bears;
    if i < |lines| {
      LineNumbersAre(lines, text, i + 1);
      if Bears(lines[i], text) {
        PrependAscending(i + 1, LineNumbers(lines, text, i + 1));
      }
    }
  }

  function FileLines(docs: Docs, f: string, text: string): seq<nat> {
    if f in docs then LineNumbers(docs[f], text, 0) else []
  }

  /** The same with the name of the file. */
  function Located(f: string, lines: seq<string>, text: string, i: nat): seq<(string, nat)>
    requires i <= |lines|
    decreases |lines| - i
  {
    if i == |lines| then []
    else if Bears(lines[i], text) then [(f, i + 1)] + Located(f, lines, text, i + 1)
    else Located(f, lines, text, i + 1)
  }

  /** All occurrences, from the `k`-th file on, in the order of the scan. */
  function Occurrences(docs: Docs, text: string, k: nat): seq<(string, nat)>
    requires k <= |BRAIN_FILES|
    decreases |BRAIN_FILES| - k
  {
    if k == |BRAIN_FILES| then []
    else
      var f := BRAIN_FILES[k];
      (if f in docs then Located(f, docs[f], text, 0) else []) + Occurrences(docs, text, k + 1)
  }

  /** The line numbers that go with one file. */
  function LinesIn(locations: seq<(string, nat)>, f: string): seq<nat> {
    if locations == [] then []
    else if locations[0].0 == f then [locations[0].1] + LinesIn(locations[1..], f)
    else LinesIn(locations[1..], f)
  }

  lemma {:induction false} LinesInConcat(a: seq<(string, nat)>, b: seq<(string, nat)>, f: string)
    ensures LinesIn(a + b, f) == LinesIn(a, f) + LinesIn(b, f)
  {
    if a == [] {
      assert a + b == b;
    } else {
      assert (a + b)[1..] == a[1..] + b;
      LinesInConcat(a[1..], b, f);
    }
  }

  lemma {:induction false} LinesInLocated(g: string, lines: seq<string>, text: string, i: nat, f: string)
    requires i <= |lines|
    ensures LinesIn(Located(g, lines, text, i), f) == if f == g then LineNumbers(lines, text, i) else []
    decreases |lines| - i
  {
    hide Bears;
    if i < |lines| {
      LinesInLocated(g, lines, text, i + 1, f);
      if Bears(lines[i], text) {
        var rest := Located(g, lines, text, i + 1);
        assert ([(g, i + 1)] + rest)[1..] == rest;
      }
    }
  }

  lemma FilesDiffer(i: nat, j: nat)
    requires i < j < |BRAIN_FILES|
    ensures BRAIN_FILES[i] != BRAIN_FILES[j]
  {
    var third := f requires |f| > 3 => (|f|, f[0], f[3]) ;
    assert third(BRAIN_FILES[i]) != third(BRAIN_FILES[j]);
  }

  lemma {:induction false} LinesInOccurrences(docs: Docs, text: string, k: nat, f: string)
    requires k <= |BRAIN_FILES|
    ensures LinesIn(Occurrences(docs, text, k), f) == if f in BRAIN_FILES[k..] then FileLines(docs, f, text) else []
    decreases |BRAIN_FILES| - k
  {
    hide LinesIn, Located, FileLines, BRAIN_FILES;
    if k == |BRAIN_FILES| {
      LinesInNone(f);
    } else {
      var g := BRAIN_FILES[k];
      LinesInOccurrences(docs, text, k + 1, f);
      LinesInFile(docs, g, text, f, Occurrences(docs, text, k + 1));
      assert BRAIN_FILES[k..] == [g] + BRAIN_FILES[k + 1..];
      LaterFilesDiffer(k);
      LinesInNone(f);
    }
  }

  lemma LinesInNone(f: string)
    ensures LinesIn([], f) == []
  {
  }

  lemma LaterFilesDiffer(k: nat)
    requires k < |BRAIN_FILES|
    ensures BRAIN_FILES[k] !in BRAIN_FILES[k + 1..]
  {
    hide BRAIN_FILES;
    forall j | k < j < |BRAIN_FILES|
      ensures BRAIN_FILES[j] != BRAIN_FILES[k]
    {
      FilesDiffer(k, j);
    }
  }

  lemma LinesInFile(docs: Docs, g: string, text: string, f: string, later: seq<(string, nat)>)
    ensures var here := if g in docs then Located(g, docs[g], text, 0) else [];
            LinesIn(here + later, f) == (if f == g then FileLines(docs, f, text) else []) + LinesIn(later, f)
  {
    hide Located, LineNumbers, LinesIn;
    if g in docs {
      LinesInConcat(Located(g, docs[g], text, 0), later, f);
      LinesInLocated(g, docs[g], text, 0, f);
    } else {
      assert [] + later == later;
    }
  }

  // ----- clusters -------------------------------------------------------------------------

  datatype Location = Location(file: string, lines: seq<nat>)

  datatype Cluster = Cluster(text: string, locations: seq<Location>, totalCount: nat)

  /** Files in the order in which they may keep the text. */
  predicate FileLess(a: string, b: string) {
    || CanonicalFileRank(a) < CanonicalFileRank(b)
    || (CanonicalFileRank(a) == CanonicalFileRank(b) && LexLess(a, b))
  }

  lemma FileIsOrder()
    ensures IsOrder(FileLess)
  {
    hide CanonicalFileRank, LexLess;
    LexIsOrder();
  }

  function CountOf(found: map<string, Cluster>, text: string): nat {
    if text in found then found[text].totalCount else 0
  }

  predicate CountLess(found: map<string, Cluster>, a: string, b: string) {
    ComesBefore(Cluster(a, [], CountOf(found, a)), Cluster(b, [], CountOf(found, b)))
  }

  lemma CountIsOrder(found: map<string, Cluster>)
    ensures IsOrder((a, b) => CountLess(found, a, b))
  {
    hide LexLess;
    LexIsOrder();
  }

  ghost predicate IsCluster(docs: Docs, c: Cluster) {
    && c.totalCount == |Occurrences(docs, c.text, 0)| >= MIN_DUPLICATE_COUNT
    && (forall i, j :: 0 <= i < j < |c.locations| ==> FileLess(c.locations[i].file, c.locations[j].file))
    && (forall i :: 0 <= i < |c.locations| ==> IsLocation(docs, c.text, c.locations[i]))
    && (forall f :: f in BRAIN_FILES && FileLines(docs, f, c.text) != [] ==>
          Location(f, FileLines(docs, f, c.text)) in c.locations)
  }

  /** All the lines of one file that bear the text, and at least one. */
  ghost predicate IsLocation(docs: Docs, text: string, l: Location) {
    l.file in BRAIN_FILES && l.lines == FileLines(docs, l.file, text) != []
  }

  /** The result of a scan: one cluster for every text that occurs twice. */
  ghost predicate IsScan(docs: Docs, clusters: seq<Cluster>) {
    && (forall i :: 0 <= i < |clusters| ==> IsCluster(docs, clusters[i]))
    && (forall text :: |Occurrences(docs, text, 0)| >= MIN_DUPLICATE_COUNT ==>
          exists i :: 0 <= i < |clusters| && clusters[i].text == text)
    && (forall i, j :: 0 <= i < j < |clusters| ==> ComesBefore(clusters[i], clusters[j]))
  }

  /** Most frequent first, then by text. */
  predicate ComesBefore(c: Cluster, d: Cluster) {
    c.totalCount > d.totalCount || (c.totalCount == d.totalCount && LexLess(c.text, d.text))
  }

  function Get<V>(m: map<string, seq<V>>, k: string): seq<V> {
    if k in m then m[k] else []
  }

  /** What the map holds and what the files from the `k`-th on hold are all
      occurrences. */
  ghost predicate Collected(occ: map<string, seq<(string, nat)>>, docs: Docs, k: nat)
    requires k <= |BRAIN_FILES|
  {
    && (forall t :: t in occ ==> occ[t] != [])
    && (forall t :: Get(occ, t) + Occurrences(docs, t, k) == Occurrences(docs, t, 0))
  }

  /** The same in the middle of the `k`-th file. */
  ghost predicate CollectedIn(occ: map<string, seq<(string, nat)>>, docs: Docs, k: nat, lines: seq<string>, i: nat)
    requires k < |BRAIN_FILES| && i <= |lines|
  {
    && (forall t :: t in occ ==> occ[t] != [])
    && (forall t :: Get(occ, t) + (Located(BRAIN_FILES[k], lines, t, i) + Occurrences(docs, t, k + 1))
                    == Occurrences(docs, t, 0))
  }

  lemma CollectLine(occ: map<string, seq<(string, nat)>>, docs: Docs, k: nat, lines: seq<string>, i: nat)
    requires k < |BRAIN_FILES| && i < |lines|
    requires CollectedIn(occ, docs, k, lines, i)
    ensures CollectedIn(WithLine(occ, BRAIN_FILES[k], lines[i], i), docs, k, lines, i + 1)
  {
    hide Occurrences, BRAIN_FILES, Located, WithLine, Get;
    forall t
      ensures Get(WithLine(occ, BRAIN_FILES[k], lines[i], i), t)
              + (Located(BRAIN_FILES[k], lines, t, i + 1) + Occurrences(docs, t, k + 1))
              == Occurrences(docs, t, 0)
    {
      WithLineGets(occ, BRAIN_FILES[k], lines[i], i, t);
      LocatedStep(BRAIN_FILES[k], lines, t, i);
      var located := Located(BRAIN_FILES[k], lines, t, i + 1);
      MoveOver(Get(occ, t), (BRAIN_FILES[k], i + 1), located, Occurrences(docs, t, k + 1));
    }
    WithLineGets(occ, BRAIN_FILES[k], lines[i], i, "");
  }

  /** The map after one more line. */
  function WithLine(occ: map<string, seq<(string, nat)>>, f: string, line: string, i: nat):
    map<string, seq<(string, nat)>>
  {
    if IsStructuralLine(line) then occ else occ[Trim(line) := Get(occ, Trim(line)) + [(f, i + 1)]]
  }

  lemma WithLineGets(occ: map<string, seq<(string, nat)>>, f: string, line: string, i: nat, t: string)
    ensures Get(WithLine(occ, f, line, i), t) == if Bears(line, t) then Get(occ, t) + [(f, i + 1)] else Get(occ, t)
    ensures (forall u :: u in occ ==> occ[u] != []) ==>
              forall u :: u in WithLine(occ, f, line, i) ==> WithLine(occ, f, line, i)[u] != []
  {
    hide IsStructuralLine, Trim;
  }

  lemma LocatedStep(f: string, lines: seq<string>, text: string, i: nat)
    requires i < |lines|
    ensures var rest := Located(f, lines, text, i + 1);
            Located(f, lines, text, i) == if Bears(lines[i], text) then [(f, i + 1)] + rest else rest
  {
  }

  lemma MoveOver<T>(a: seq<T>, x: T, b: seq<T>, c: seq<T>)
    ensures (a + [x]) + (b + c) == a + (([x] + b) + c)
  {
  }

  lemma CollectEnds(occ: map<string, seq<(string, nat)>>, docs: Docs, k: nat, lines: seq<string>)
    requires k < |BRAIN_FILES|
    ensures BRAIN_FILES[k] in docs && docs[BRAIN_FILES[k]] == lines && Collected(occ, docs, k) ==>
              CollectedIn(occ, docs, k, lines, 0)
    ensures CollectedIn(occ, docs, k, lines, |lines|) ==> Collected(occ, docs, k + 1)
    ensures BRAIN_FILES[k] !in docs && Collected(occ, docs, k) ==> Collected(occ, docs, k + 1)
  {
    hide BRAIN_FILES, Bears;
    if CollectedIn(occ, docs, k, lines, |lines|) {
      forall t
        ensures Get(occ, t) + Occurrences(docs, t, k + 1) == Occurrences(docs, t, 0)
      {
        assert Located(BRAIN_FILES[k], lines, t, |lines|) == [];
        assert [] + Occurrences(docs, t, k + 1) == Occurrences(docs, t, k + 1);
      }
    }
    if BRAIN_FILES[k] !in docs && Collected(occ, docs, k) {
      forall t
        ensures Get(occ, t) + Occurrences(docs, t, k + 1) == Occurrences(docs, t, 0)
      {
        assert [] + Occurrences(docs, t, k + 1) == Occurrences(docs, t, k + 1);
      }
    }
  }

  method CollectFile(occ: map<string, seq<(string, nat)>>, ghost docs: Docs, k: nat, lines: seq<string>)
    returns (r: map<string, seq<(string, nat)>>)
    requires k < |BRAIN_FILES| && CollectedIn(occ, docs, k, lines, 0)
    ensures CollectedIn(r, docs, k, lines, |lines|)
  {
    hide IsStructuralLine, Trim, CollectedIn, BRAIN_FILES, Get;
    r := occ;
    for i := 0 to |lines|
      invariant CollectedIn(r, docs, k, lines, i)
    {
      CollectLine(r, docs, k, lines, i);
      if !IsStructuralLine(lines[i]) {
        var text := Trim(lines[i]);
        r := r[text := Get(r, text) + [(BRAIN_FILES[k], i + 1)]];
      }
    }
  }

  /** All occurrences of all texts. */
  method Collect(texts: map<string, string>, ghost docs: Docs) returns (occ: map<string, seq<(string, nat)>>)
    requires docs == LinesOf(texts)
    ensures forall t :: t in occ <==> Occurrences(docs, t, 0) != []
    ensures forall t :: t in occ ==> occ[t] == Occurrences(docs, t, 0)
  {
    hide Collected, CollectedIn, Lines;
    occ := map[];
    CollectStart(docs);
    for k := 0 to |BRAIN_FILES|
      invariant Collected(occ, docs, k)
    {
      CollectEnds(occ, docs, k, []);
      if BRAIN_FILES[k] !in texts {
        continue;
      }
      var lines := Lines(texts[BRAIN_FILES[k]]);
      CollectEnds(occ, docs, k, lines);
      occ := CollectFile(occ, docs, k, lines);
      CollectEnds(occ, docs, k, lines);
    }
    CollectEnd(occ, docs);
  }

  lemma CollectStart(docs: Docs)
    ensures Collected(map[], docs, 0)
  {
    hide Occurrences, BRAIN_FILES;
    forall t
      ensures Get(map[], t) + Occurrences(docs, t, 0) == Occurrences(docs, t, 0)
    {
    }
  }

  lemma CollectEnd(occ: map<string, seq<(string, nat)>>, docs: Docs)
    requires Collected(occ, docs, |BRAIN_FILES|)
    ensures forall t :: t in occ <==> Occurrences(docs, t, 0) != []
    ensures forall t :: t in occ ==> occ[t] == Occurrences(docs, t, 0)
  {
    hide BRAIN_FILES;
    forall t
      ensures Get(occ, t) == Occurrences(docs, t, 0)
    {
      assert Occurrences(docs, t, |BRAIN_FILES|) == [];
      assert Get(occ, t) + [] == Get(occ, t);
    }
  }

  function LinesOf(texts: map<string, string>): Docs {
    map f | f in texts :: Lines(texts[f])
  }

  method GroupByFile(locations: seq<(string, nat)>) returns (byFile: map<string, seq<nat>>)
    ensures forall f :: f in byFile <==> LinesIn(locations, f) != []
    ensures forall f :: f in byFile ==> byFile[f] == LinesIn(locations, f)
  {
    byFile := map[];
    for i := 0 to |locations|
      invariant forall f :: f in byFile ==> byFile[f] != []
      invariant forall f :: Get(byFile, f) + LinesIn(locations[i..], f) == LinesIn(locations, f)
    {
      assert locations[i..][1..] == locations[i + 1..];
      var (file, line) := locations[i];
      byFile := byFile[file := Get(byFile, file) + [line]];
    }
  }

  method MakeCluster(text: string, locations: seq<(string, nat)>, ghost docs: Docs) returns (c: Cluster)
    requires locations == Occurrences(docs, text, 0) && |locations| >= MIN_DUPLICATE_COUNT
    ensures IsCluster(docs, c) && c.text == text && c.totalCount == |locations|
  {
    hide Occurrences, LinesIn, FileLess, IsOrder, FileLines, BRAIN_FILES;
    var byFile := GroupByFile(locations);
    FileIsOrder();
    var order := SortBy(byFile.Keys, FileLess);
    var sorted: seq<Location> := [];
    for i := 0 to |order|
      invariant |sorted| == i
      invariant forall k :: 0 <= k < i ==> order[k] in byFile && sorted[k] == Location(order[k], byFile[order[k]])
    {
      assert order[i] in order;
      sorted := sorted + [Location(order[i], byFile[order[i]])];
    }
    c := Cluster(text, sorted, |locations|);
    assert BRAIN_FILES[0..] == BRAIN_FILES;
    forall f
      ensures LinesIn(locations, f) == if f in BRAIN_FILES then FileLines(docs, f, text) else []
    {
      LinesInOccurrences(docs, text, 0, f);
    }
    forall f | f in BRAIN_FILES && FileLines(docs, f, text) != []
      ensures Location(f, FileLines(docs, f, text)) in c.locations
    {
      assert f in order;
      var k :| 0 <= k < |order| && order[k] == f;
      assert sorted[k] == Location(f, FileLines(docs, f, text));
    }
  }

  /** `scan_brain_files`. */
  method ScanBrainFiles(texts: map<string, string>) returns (clusters: seq<Cluster>)
    ensures IsScan(LinesOf(texts), clusters)
  {
    hide IsCluster, Occurrences, LexLess, IsOrder, LinesOf;
    ghost var docs := LinesOf(texts);
    var occ := Collect(texts, docs);
    var found: map<string, Cluster> := map[];
    var rest := occ.Keys;
    while rest != {}
      invariant rest <= occ.Keys
      invariant forall t :: t in found <==> t in occ.Keys - rest && |occ[t]| >= MIN_DUPLICATE_COUNT
      invariant forall t :: t in found ==>
                  IsCluster(docs, found[t]) && found[t].text == t && found[t].totalCount == |occ[t]|
      decreases rest
    {
      var text :| text in rest;
      rest := rest - {text};
      if |occ[text]| < MIN_DUPLICATE_COUNT {
        continue;
      }
      var c := MakeCluster(text, occ[text], docs);
      found := found[text := c];
    }
    clusters := SortClusters(found);
    forall text | |Occurrences(docs, text, 0)| >= MIN_DUPLICATE_COUNT
      ensures exists i :: 0 <= i < |clusters| && clusters[i].text == text
    {
      assert text in occ && text in found;
    }
  }

  method SortClusters(found: map<string, Cluster>) returns (clusters: seq<Cluster>)
    requires forall t :: t in found ==> found[t].text == t
    ensures forall i :: 0 <= i < |clusters| ==> clusters[i].text in found && found[clusters[i].text] == clusters[i]
    ensures forall t :: t in found ==> exists i :: 0 <= i < |clusters| && clusters[i].text == t
    ensures forall i, j :: 0 <= i < j < |clusters| ==> ComesBefore(clusters[i], clusters[j])
  {
    hide LexLess, IsOrder, ComesBefore;
    CountIsOrder(found);
    var order := SortBy(found.Keys, (a, b) => CountLess(found, a, b));
    clusters := [];
    for i := 0 to |order|
      invariant |clusters| == i
      invariant forall k :: 0 <= k < i ==> order[k] in found && clusters[k] == found[order[k]]
    {
      assert order[i] in order;
      clusters := clusters + [found[order[i]]];
    }
    SortedClusters(found, order, clusters);
  }

  lemma SortedClusters(found: map<string, Cluster>, order: seq<string>, clusters: seq<Cluster>)
    requires forall t :: t in found ==> found[t].text == t
    requires IncreasingBy(order, (a, b) => CountLess(found, a, b))
    requires forall x :: x in order <==> x in found.Keys
    requires |clusters| == |order|
    requires forall k :: 0 <= k < |order| ==> order[k] in found && clusters[k] == found[order[k]]
    ensures forall t :: t in found ==> exists i :: 0 <= i < |clusters| && clusters[i].text == t
    ensures forall i, j :: 0 <= i < j < |clusters| ==> ComesBefore(clusters[i], clusters[j])
  {
    hide LexLess;
    forall t | t in found
      ensures exists i :: 0 <= i < |clusters| && clusters[i].text == t
    {
      assert t in order;
      var k :| 0 <= k < |order| && order[k] == t;
      assert clusters[k].text == t;
    }
    forall i, j | 0 <= i < j < |clusters|
      ensures ComesBefore(clusters[i], clusters[j])
    {
      assert CountLess(found, order[i], order[j]);
    }
  }
}
