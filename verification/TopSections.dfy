/** The largest sections of a text, for the report of a sync that would exceed
    the cap (`top_new_sections_by_size` in `src/brain/rsi_sync.rs`). */
module TopSections {
  import opened Text
  import Numbers

  /** A `## ` line and the number of lines of its section. */
  datatype Sized = Sized(header: string, lines: nat)

  predicate IsTopHeader(line: string) {
    "## " <= line
  }

  /** The lines before the next section. */
  function LinesBefore(lines: seq<string>): (n: nat)
    ensures n <= |lines|
  {
    if lines == [] || IsTopHeader(lines[0]) then 0 else 1 + LinesBefore(lines[1..])
  }

  function SectionSizes(lines: seq<string>): seq<Sized> {
    if lines == [] then []
    else if IsTopHeader(lines[0]) then [Sized(lines[0], 1 + LinesBefore(lines[1..]))] + SectionSizes(lines[1..])
    else SectionSizes(lines[1..])
  }

  method CutSections(lines: seq<string>) returns (byHeader: seq<Sized>)
    ensures byHeader == SectionSizes(lines)
  {
    hide IsTopHeader, SectionSizes, LinesBefore;
    NothingCut();
    byHeader := [];
    var current: Option<string> := None;
    var count := 0;
    for i := 0 to |lines|
      invariant byHeader + Unfinished(current, count, lines[i..]) + SectionSizes(lines[i..]) == SectionSizes(lines)
    {
      TopStep(lines, i);
      var line := lines[i];
      if IsTopHeader(line) {
        if current.Some? {
          byHeader := byHeader + [Sized(current.value, count)];
        }
        SeqAssoc(byHeader, [Sized(line, 1 + LinesBefore(lines[i + 1..]))], SectionSizes(lines[i + 1..]));
        assert byHeader + [] == byHeader;
        current := Some(line);
        count := 1;
      } else if current.Some? {
        count := count + 1;
      }
    }
    assert lines[|lines|..] == [];
    if current.Some? {
      byHeader := byHeader + [Sized(current.value, count)];
    }
    assert byHeader + [] == byHeader;
  }

  lemma NothingCut()
    ensures SectionSizes([]) == [] && LinesBefore([]) == 0
  {
  }

  lemma TopStep(lines: seq<string>, i: nat)
    requires i < |lines|
    ensures IsTopHeader(lines[i]) ==>
              && LinesBefore(lines[i..]) == 0
              && SectionSizes(lines[i..]) ==
                   [Sized(lines[i], 1 + LinesBefore(lines[i + 1..]))] + SectionSizes(lines[i + 1..])
    ensures !IsTopHeader(lines[i]) ==>
              && LinesBefore(lines[i..]) == 1 + LinesBefore(lines[i + 1..])
              && SectionSizes(lines[i..]) == SectionSizes(lines[i + 1..])
  {
    assert lines[i..][0] == lines[i] && lines[i..][1..] == lines[i + 1..];
  }

  function Unfinished(current: Option<string>, count: nat, rest: seq<string>): seq<Sized> {
    match current
    case None => []
    case Some(h) => [Sized(h, count + LinesBefore(rest))]
  }

  function TotalLines(s: seq<Sized>): nat {
    if s == [] then 0 else s[0].lines + TotalLines(s[1..])
  }

  /** Every line from the first section on is counted once. */
  lemma {:induction false} SizesCover(lines: seq<string>)
    ensures LinesBefore(lines) + TotalLines(SectionSizes(lines)) == |lines|
  {
    hide IsTopHeader;
    if lines != [] {
      SizesCover(lines[1..]);
      if IsTopHeader(lines[0]) {
        var rest := SectionSizes(lines[1..]);
        assert ([Sized(lines[0], 1 + LinesBefore(lines[1..]))] + rest)[1..] == rest;
      }
    }
  }

  /** A line that starts a top section. */
  predicate StartsTop(line: string) {
    |line| >= 3 && line[..3] == "## "
  }

  /** The next such line from line `j` on, or the end. */
  function NextTop(lines: seq<string>, j: nat): (e: nat)
    requires j <= |lines|
    ensures j <= e <= |lines|
    ensures forall k :: j <= k < e ==> !StartsTop(lines[k])
    ensures e < |lines| ==> StartsTop(lines[e])
    decreases |lines| - j
  {
    if j == |lines| || StartsTop(lines[j]) then j else NextTop(lines, j + 1)
  }

  lemma TopIs(line: string)
    ensures IsTopHeader(line) <==> StartsTop(line)
  {
  }

  lemma {:induction false} BeforeIs(lines: seq<string>, j: nat)
    requires j <= |lines|
    ensures LinesBefore(lines[j..]) == NextTop(lines, j) - j
    ensures SectionSizes(lines[j..]) == SectionSizes(lines[NextTop(lines, j)..])
    decreases |lines| - j
  {
    hide IsTopHeader, StartsTop;
    if j < |lines| {
      assert lines[j..][0] == lines[j] && lines[j..][1..] == lines[j + 1..];
      TopIs(lines[j]);
      BeforeIs(lines, j + 1);
    }
  }

  /** The sizes from line `i` on: the first is that of the next section, whose lines
      run from its header to the one after it, and the rest are those of the others. */
  lemma SizesFrom(lines: seq<string>, i: nat)
    requires i <= |lines|
    ensures var p := NextTop(lines, i);
            SectionSizes(lines[i..]) ==
            if p == |lines| then []
            else [Sized(lines[p], NextTop(lines, p + 1) - p)] + SectionSizes(lines[NextTop(lines, p + 1)..])
  {
    hide IsTopHeader, StartsTop;
    var p := NextTop(lines, i);
    BeforeIs(lines, i);
    if p < |lines| {
      assert lines[p..][0] == lines[p] && lines[p..][1..] == lines[p + 1..];
      TopIs(lines[p]);
      BeforeIs(lines, p + 1);
    } else {
      assert lines[p..] == [];
    }
  }

  // ----- sorting by size ------------------------------------------------------------------

  function InsertBySize(s: seq<Sized>, x: Sized): seq<Sized> {
    if s == [] then [x]
    else if s[0].lines < x.lines then [x] + s
    else [s[0]] + InsertBySize(s[1..], x)
  }

  /** `sort_by_key` with the reversed size: largest first, and stable. */
  function BySize(s: seq<Sized>): seq<Sized> {
    if s == [] then [] else InsertBySize(BySize(s[..|s| - 1]), s[|s| - 1])
  }

  ghost predicate Descending(s: seq<Sized>) {
    forall i, j :: 0 <= i < j < |s| ==> s[i].lines >= s[j].lines
  }

  /** The elements of one size, in order. */
  function OfSize(s: seq<Sized>, n: nat): seq<Sized> {
    if s == [] then []
    else if s[0].lines == n then [s[0]] + OfSize(s[1..], n)
    else OfSize(s[1..], n)
  }

  lemma {:induction false} OfSizeAppend(s: seq<Sized>, x: Sized, n: nat)
    ensures OfSize(s + [x], n) == OfSize(s, n) + if x.lines == n then [x] else []
  {
    if s == [] {
      assert s + [x] == [x] && [x][1..] == [];
    } else {
      assert (s + [x])[1..] == s[1..] + [x];
      OfSizeAppend(s[1..], x, n);
    }
  }

  lemma {:induction false} NoneOfSize(s: seq<Sized>, n: nat)
    requires forall i :: 0 <= i < |s| ==> s[i].lines < n
    ensures OfSize(s, n) == []
  {
    if s != [] {
      NoneOfSize(s[1..], n);
    }
  }

  lemma {:induction false} InsertMembers(s: seq<Sized>, x: Sized)
    ensures var r := InsertBySize(s, x); |r| == |s| + 1 && forall y :: y in r ==> y == x || y in s
  {
    if s != [] && s[0].lines >= x.lines {
      InsertMembers(s[1..], x);
      assert forall y :: y in InsertBySize(s, x) ==> y == s[0] || y in InsertBySize(s[1..], x);
    }
  }

  lemma PrependDescending(x: Sized, s: seq<Sized>)
    requires Descending(s) && forall y :: y in s ==> y.lines <= x.lines
    ensures Descending([x] + s)
  {
    var r := [x] + s;
    forall i, j | 0 <= i < j < |r|
      ensures r[i].lines >= r[j].lines
    {
      assert r[j] == s[j - 1] && s[j - 1] in s;
      assert i == 0 || r[i] == s[i - 1];
    }
  }

  lemma TailDescending(s: seq<Sized>)
    requires Descending(s) && s != []
    ensures Descending(s[1..]) && forall y :: y in s ==> y.lines <= s[0].lines
  {
    var t := s[1..];
    forall i, j | 0 <= i < j < |t|
      ensures t[i].lines >= t[j].lines
    {
      assert t[i] == s[i + 1] && t[j] == s[j + 1];
    }
    forall y | y in s
      ensures y.lines <= s[0].lines
    {
      var i :| 0 <= i < |s| && s[i] == y;
      assert i == 0 || s[0].lines >= s[i].lines;
    }
  }

  lemma {:induction false} InsertDescends(s: seq<Sized>, x: Sized)
    requires Descending(s)
    ensures Descending(InsertBySize(s, x))
  {
    hide Descending;
    if s == [] {
      OneDescends(x);
    } else {
      TailDescending(s);
      if s[0].lines < x.lines {
        PrependDescending(x, s);
      } else {
        InsertDescends(s[1..], x);
        InsertMembers(s[1..], x);
        PrependDescending(s[0], InsertBySize(s[1..], x));
      }
    }
  }

  lemma OneDescends(x: Sized)
    ensures Descending([x])
  {
  }

  lemma {:induction false} InsertOfSize(s: seq<Sized>, x: Sized, n: nat)
    requires Descending(s)
    ensures OfSize(InsertBySize(s, x), n) == OfSize(s, n) + if x.lines == n then [x] else []
  {
    hide Descending;
    if s == [] {
      assert [x][1..] == [];
    } else {
      TailDescending(s);
      if s[0].lines < x.lines {
        assert ([x] + s)[1..] == s;
        if x.lines == n {
          assert forall i :: 0 <= i < |s| ==> s[i] in s;
          NoneOfSize(s, n);
        }
      } else {
        InsertOfSize(s[1..], x, n);
        var rest := InsertBySize(s[1..], x);
        assert ([s[0]] + rest)[1..] == rest;
      }
    }
  }

  /** Sorting puts the larger first, and keeps all sections of each size, in
      their order. */
  lemma {:induction false} BySizeSorts(s: seq<Sized>, n: nat)
    ensures Descending(BySize(s)) && |BySize(s)| == |s|
    ensures OfSize(BySize(s), n) == OfSize(s, n)
  {
    if s != [] {
      var front, last := s[..|s| - 1], s[|s| - 1];
      hide Descending;
      BySizeSorts(front, n);
      InsertMembers(BySize(front), last);
      InsertDescends(BySize(front), last);
      InsertOfSize(BySize(front), last, n);
      OfSizeAppend(front, last, n);
      assert s == front + [last];
    }
  }

  function Described(s: Sized): string {
    s.header + " (" + Numbers.Print(s.lines) + " lines)"
  }

  function TopNewSections(text: string, n: nat): (r: seq<string>) {
    var sorted := BySize(SectionSizes(Lines(text)));
    var k := if n < |sorted| then n else |sorted|;
    seq(k, i requires 0 <= i < k => Described(sorted[i]))
  }

  method TopNewSectionsBySize(text: string, n: nat) returns (r: seq<string>)
    ensures r == TopNewSections(text, n)
  {
    hide Lines, SectionSizes, BySize, Described;
    var byHeader := CutSections(Lines(text));
    var sorted := BySize(byHeader);
    r := [];
    for i := 0 to if n < |sorted| then n else |sorted|
      invariant |r| == i && forall k :: 0 <= k < i ==> r[k] == Described(sorted[k])
    {
      r := r + [Described(sorted[i])];
    }
  }

  /** The report lists sections that are at least as large as every one it
      leaves out, and leaves none out unless it is full. */
  lemma ListedAreLargest(text: string, n: nat, i: nat, j: nat)
    requires i < |TopNewSections(text, n)| <= j < |SectionSizes(Lines(text))|
    ensures var sorted := BySize(SectionSizes(Lines(text)));
            && |sorted| == |SectionSizes(Lines(text))| && |TopNewSections(text, n)| == n
            && TopNewSections(text, n)[i] == Described(sorted[i])
            && sorted[i].lines >= sorted[j].lines
  {
    hide Lines, SectionSizes, Described;
    BySizeSorts(SectionSizes(Lines(text)), 0);
  }
}
