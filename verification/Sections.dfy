/** The section algebra behind the read-time filter (`src/brain/filter.rs`,
    lines 44-138), over lines reduced to what the filter looks at. */
module Sections {

  /** What a body line does to the emptiness scan: let it go on, stop it with
      "not empty", or abort it. */
  datatype Kind = Quiet | Content | Crash

  /** A line: a header with its level, or a body line. */
  datatype Tag = Header(level: nat) | Body(kind: Kind)

  /** To the headers above it a header is content. */
  function KindOf(t: Tag): Kind {
    match t
    case Header(_) => Content
    case Body(k) => k
  }

  /** The verdict of the scan: the first line that is not quiet decides. */
  function ScanKind(body: seq<Tag>): (k: Kind)
    ensures k == Quiet <==> forall i :: 0 <= i < |body| ==> body[i] == Body(Quiet)
  {
    if body == [] then Quiet
    else if KindOf(body[0]) == Quiet then ScanKind(body[1..])
    else KindOf(body[0])
  }

  // ----- regions --------------------------------------------------------

  predicate AtMost(t: Tag, level: nat) {
    t.Header? && t.level <= level
  }

  /** The first position from `j` on holding a header of level at most `level`. */
  function NextAtMost(tags: seq<Tag>, j: nat, level: nat): (e: nat)
    requires j <= |tags|
    ensures j <= e <= |tags|
    ensures forall k :: j <= k < e ==> !AtMost(tags[k], level)
    ensures e < |tags| ==> AtMost(tags[e], level)
    decreases |tags| - j
  {
    if j == |tags| || AtMost(tags[j], level) then j
    else NextAtMost(tags, j + 1, level)
  }

  /** The end of the region of the header at `i`. */
  function RegionEnd(tags: seq<Tag>, i: nat): (e: nat)
    requires i < |tags| && tags[i].Header?
    ensures i < e <= |tags|
  {
    NextAtMost(tags, i + 1, tags[i].level)
  }

  function RegionKind(tags: seq<Tag>, i: nat): Kind
    requires i < |tags| && tags[i].Header?
  {
    ScanKind(tags[i + 1..RegionEnd(tags, i)])
  }

  /** Position `i` is a header with an empty region. */
  predicate Drops(tags: seq<Tag>, i: nat)
    requires i < |tags|
  {
    tags[i].Header? && RegionKind(tags, i) == Quiet
  }

  /** Some header's scan aborts. */
  ghost predicate Crashes(tags: seq<Tag>) {
    exists i :: 0 <= i < |tags| && CrashesAt(tags, i)
  }

  /** Line `j` goes: the header it stands under (itself, if it is one) has an
      empty region. */
  predicate Dropped(tags: seq<Tag>, j: nat)
    requires j < |tags|
  {
    if tags[j].Header? then Drops(tags, j) else j > 0 && Dropped(tags, j - 1)
  }

  /** An empty region holds no header but its own first line. */
  lemma OneHeaderPerDrop(tags: seq<Tag>, i: nat, k: nat)
    requires i < |tags| && Drops(tags, i) && i < k < RegionEnd(tags, i)
    ensures !tags[k].Header?
  {
    var body := tags[i + 1..RegionEnd(tags, i)];
    assert body[k - i - 1] == tags[k];
  }

  lemma DropsCovers(tags: seq<Tag>, i: nat, j: nat)
    requires i < |tags| && Drops(tags, i) && i <= j < RegionEnd(tags, i)
    ensures Dropped(tags, j)
    decreases j
  {
    if i < j {
      OneHeaderPerDrop(tags, i, j);
      DropsCovers(tags, i, j - 1);
    }
  }

  lemma {:induction false} DroppedHasHeader(tags: seq<Tag>, j: nat) returns (i: nat)
    requires j < |tags| && Dropped(tags, j)
    ensures i <= j && Drops(tags, i) && j < RegionEnd(tags, i)
  {
    if tags[j].Header? {
      i := j;
    } else {
      i := DroppedHasHeader(tags, j - 1);
    }
  }

  /** The dropped lines are exactly the regions, header included, of the
      headers whose region is empty. */
  lemma DroppedIffInEmptyRegion(tags: seq<Tag>, j: nat)
    requires j < |tags|
    ensures Dropped(tags, j) <==>
            exists i :: 0 <= i <= j && Drops(tags, i) && j < RegionEnd(tags, i)
  {
    if Dropped(tags, j) {
      var i := DroppedHasHeader(tags, j);
    }
    if i :| 0 <= i <= j && Drops(tags, i) && j < RegionEnd(tags, i) {
      DropsCovers(tags, i, j);
    }
  }

  // ----- what is kept ----------------------------------------------------

  /** The elements of `xs` at the positions of `[i, j)` that are not dropped,
      in order; `xs` runs beside `tags`. */
  function Keep<T>(xs: seq<T>, tags: seq<Tag>, i: nat, j: nat): (kept: seq<T>)
    requires i <= j <= |tags| == |xs|
    ensures |kept| <= j - i
    decreases j - i
  {
    if i == j then []
    else if Dropped(tags, i) then Keep(xs, tags, i + 1, j)
    else [xs[i]] + Keep(xs, tags, i + 1, j)
  }

  /** One pass over the tags themselves. */
  function Pass(tags: seq<Tag>): seq<Tag> {
    Keep(tags, tags, 0, |tags|)
  }

  lemma {:induction false} KeepSplit<T>(xs: seq<T>, tags: seq<Tag>, i: nat, m: nat, j: nat)
    requires i <= m <= j <= |tags| == |xs|
    ensures Keep(xs, tags, i, j) == Keep(xs, tags, i, m) + Keep(xs, tags, m, j)
    decreases m - i
  {
    if i < m {
      KeepSplit(xs, tags, i + 1, m, j);
    }
  }

  lemma {:induction false} KeepAll<T>(xs: seq<T>, tags: seq<Tag>, i: nat, j: nat)
    requires i <= j <= |tags| == |xs|
    requires forall k :: i <= k < j ==> !Dropped(tags, k)
    ensures Keep(xs, tags, i, j) == xs[i..j]
    decreases j - i
  {
    if i < j {
      KeepAll(xs, tags, i + 1, j);
      assert xs[i..j] == [xs[i]] + xs[i + 1..j];
    }
  }

  lemma {:induction false} KeepNone<T>(xs: seq<T>, tags: seq<Tag>, i: nat, j: nat)
    requires i <= j <= |tags| == |xs|
    requires forall k :: i <= k < j ==> Dropped(tags, k)
    ensures Keep(xs, tags, i, j) == []
    decreases j - i
  {
    if i < j {
      KeepNone(xs, tags, i + 1, j);
    }
  }

  /** Everything kept was there before. */
  lemma {:induction false} KeepFrom<T>(xs: seq<T>, tags: seq<Tag>, i: nat, j: nat, x: T)
    requires i <= j <= |tags| == |xs|
    requires x in Keep(xs, tags, i, j)
    ensures x in xs
    decreases j - i
  {
    if !Dropped(tags, i) && x == xs[i] {
    } else {
      KeepFrom(xs, tags, i + 1, j, x);
    }
  }

  // ----- the drop ranges ---------------------------------------------------

  /** The regions to drop that start before `i`, in order. */
  function DropRanges(tags: seq<Tag>, i: nat): seq<(nat, nat)>
    requires i <= |tags|
  {
    if i == 0 then []
    else if Drops(tags, i - 1) then DropRanges(tags, i - 1) + [(i - 1, RegionEnd(tags, i - 1))]
    else DropRanges(tags, i - 1)
  }

  /** The headers that are dropped before position `i`, in order. */
  function DroppedHeaders<T>(xs: seq<T>, tags: seq<Tag>, i: nat): seq<T>
    requires i <= |tags| == |xs|
  {
    if i == 0 then []
    else if Drops(tags, i - 1) then DroppedHeaders(xs, tags, i - 1) + [xs[i - 1]]
    else DroppedHeaders(xs, tags, i - 1)
  }

  /** Every range is the region of a header that drops. */
  lemma {:induction false} DropRangeIs(tags: seq<Tag>, i: nat, n: nat)
    requires i <= |tags| && n < |DropRanges(tags, i)|
    ensures var r := DropRanges(tags, i)[n];
            r.0 < i && Drops(tags, r.0) && r.1 == RegionEnd(tags, r.0)
  {
    if n < |DropRanges(tags, i - 1)| {
      DropRangeIs(tags, i - 1, n);
    }
  }

  /** Past the start of an empty region there is nothing more to drop in it. */
  lemma {:induction false} DropRangesSkip<T>(xs: seq<T>, tags: seq<Tag>, i: nat, e: nat)
    requires i < |tags| == |xs| && Drops(tags, i) && i < e <= RegionEnd(tags, i)
    ensures DropRanges(tags, e) == DropRanges(tags, i) + [(i, RegionEnd(tags, i))]
    ensures DroppedHeaders(xs, tags, e) == DroppedHeaders(xs, tags, i) + [xs[i]]
    decreases e
  {
    if e > i + 1 {
      DropRangesSkip(xs, tags, i, e - 1);
      OneHeaderPerDrop(tags, i, e - 1);
    }
  }

  /** The ranges are disjoint and increasing. */
  lemma {:induction false} DropRangesIncrease(tags: seq<Tag>, i: nat, a: nat, b: nat)
    requires i <= |tags| && a < b < |DropRanges(tags, i)|
    ensures DropRanges(tags, i)[a].1 <= DropRanges(tags, i)[b].0
  {
    var before := DropRanges(tags, i - 1);
    if b < |before| {
      DropRangesIncrease(tags, i - 1, a, b);
    } else {
      DropRangeIs(tags, i - 1, a);
      var start := before[a].0;
      if RegionEnd(tags, start) > i - 1 {
        OneHeaderPerDrop(tags, start, i - 1);
      }
    }
  }

  /** Every header that drops has its range. */
  lemma {:induction false} DropRangeOf(tags: seq<Tag>, i: nat, j: nat) returns (n: nat)
    requires j < i <= |tags| && Drops(tags, j)
    ensures n < |DropRanges(tags, i)| && DropRanges(tags, i)[n] == (j, RegionEnd(tags, j))
  {
    if j == i - 1 {
      n := |DropRanges(tags, i - 1)|;
    } else {
      n := DropRangeOf(tags, i - 1, j);
    }
  }

  /** A line outside the ranges, between the `n`th and the one before, stays. */
  lemma StaysBetween(tags: seq<Tag>, n: nat, j: nat)
    requires n <= |DropRanges(tags, |tags|)| && j < |tags|
    requires n > 0 ==> DropRanges(tags, |tags|)[n - 1].1 <= j
    requires n < |DropRanges(tags, |tags|)| ==> j < DropRanges(tags, |tags|)[n].0
    ensures !Dropped(tags, j)
  {
    if Dropped(tags, j) {
      var i := DroppedHasHeader(tags, j);
      var k := DropRangeOf(tags, |tags|, i);
      if k < n - 1 {
        DropRangesIncrease(tags, |tags|, k, n - 1);
        DropRangeIs(tags, |tags|, n - 1);
      }
      if k > n {
        DropRangesIncrease(tags, |tags|, n, k);
        DropRangeIs(tags, |tags|, n);
      }
      assert false;
    }
  }

  lemma KeepBetween<T>(xs: seq<T>, tags: seq<Tag>, n: nat, from: nat, to: nat)
    requires n <= |DropRanges(tags, |tags|)| && from <= to <= |tags| == |xs|
    requires n > 0 ==> DropRanges(tags, |tags|)[n - 1].1 <= from
    requires n < |DropRanges(tags, |tags|)| ==> to <= DropRanges(tags, |tags|)[n].0
    ensures Keep(xs, tags, from, to) == xs[from..to]
  {
    forall j | from <= j < to
      ensures !Dropped(tags, j)
    {
      StaysBetween(tags, n, j);
    }
    KeepAll(xs, tags, from, to);
  }

  lemma KeepNothingInRange<T>(xs: seq<T>, tags: seq<Tag>, n: nat)
    requires n < |DropRanges(tags, |tags|)| && |tags| == |xs|
    ensures var r := DropRanges(tags, |tags|)[n];
            r.0 < r.1 <= |tags| && Keep(xs, tags, r.0, r.1) == []
  {
    DropRangeIs(tags, |tags|, n);
    var r := DropRanges(tags, |tags|)[n];
    forall j | r.0 <= j < r.1
      ensures Dropped(tags, j)
    {
      DropsCovers(tags, r.0, j);
    }
    KeepNone(xs, tags, r.0, r.1);
  }

  ghost predicate CrashesAt(tags: seq<Tag>, i: nat)
    requires i < |tags|
  {
    tags[i].Header? && RegionKind(tags, i) == Crash
  }

  /** A position where nothing is dropped leaves the ranges as they are. */
  lemma PlainStep<T>(xs: seq<T>, tags: seq<Tag>, i: nat)
    requires i < |tags| == |xs| && !Drops(tags, i)
    ensures DropRanges(tags, i + 1) == DropRanges(tags, i)
    ensures DroppedHeaders(xs, tags, i + 1) == DroppedHeaders(xs, tags, i)
  {
  }

  /** Nothing in an empty region crashes. */
  lemma DropDoesNotCrash(tags: seq<Tag>, i: nat)
    requires i < |tags| && Drops(tags, i)
    ensures forall k :: i <= k < RegionEnd(tags, i) ==> !CrashesAt(tags, k)
  {
    forall k | i < k < RegionEnd(tags, i)
      ensures !tags[k].Header?
    {
      OneHeaderPerDrop(tags, i, k);
    }
  }

  /** The loop that turns the ranges into what is kept. */
  method AssembleKept<T>(xs: seq<T>, dropRanges: seq<(nat, nat)>, ghost tags: seq<Tag>)
    returns (kept: seq<T>)
    requires |xs| == |tags|
    requires dropRanges == DropRanges(tags, |tags|)
    ensures kept == Keep(xs, tags, 0, |tags|)
  {
    var total := |xs|;
    kept := [];
    var cursor := 0;
    for n := 0 to |dropRanges|
      invariant cursor == if n == 0 then 0 else dropRanges[n - 1].1
      invariant cursor <= total
      invariant kept == Keep(xs, tags, 0, cursor)
    {
      var (start, end) := dropRanges[n];
      if n > 0 {
        DropRangesIncrease(tags, total, n - 1, n);
      }
      KeepNothingInRange(xs, tags, n);
      KeepBetween(xs, tags, n, cursor, start);
      KeepSplit(xs, tags, 0, cursor, end);
      KeepSplit(xs, tags, cursor, start, end);
      if cursor < start {
        kept := kept + xs[cursor..start];
      }
      cursor := end;
    }
    KeepBetween(xs, tags, |dropRanges|, cursor, total);
    KeepSplit(xs, tags, 0, cursor, total);
    if cursor < total {
      kept := kept + xs[cursor..total];
    }
  }
}
