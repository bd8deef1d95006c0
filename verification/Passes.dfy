/** Repeating the pass of `Sections`: what one pass does to the outline of a
    document, and after how many passes nothing is left to drop. */
module Passes {
  import opened Sections
  import opened Text

  // ----- the outline of a document ----------------------------------------

  /** A header and the verdict on the body lines right below it, up to the
      next header of any level. */
  datatype Head = Head(level: nat, kind: Kind)

  function RunKind(tags: seq<Tag>): Kind {
    if tags == [] || tags[0].Header? then Quiet
    else if tags[0].kind == Quiet then RunKind(tags[1..])
    else tags[0].kind
  }

  function Outline(tags: seq<Tag>): seq<Head> {
    if tags == [] then []
    else if tags[0].Header? then [Head(tags[0].level, RunKind(tags[1..]))] + Outline(tags[1..])
    else Outline(tags[1..])
  }

  /** The region of the first header is empty: its own lines are quiet and no
      deeper header follows. */
  predicate FirstDrops(heads: seq<Head>) {
    && heads != []
    && heads[0].kind == Quiet
    && (|heads| == 1 || heads[1].level <= heads[0].level)
  }

  function PassOutline(heads: seq<Head>): (r: seq<Head>)
    ensures |r| <= |heads|
  {
    if heads == [] then []
    else if FirstDrops(heads) then PassOutline(heads[1..])
    else [heads[0]] + PassOutline(heads[1..])
  }

  ghost predicate OutlineDrops(heads: seq<Head>, i: nat)
    requires i < |heads|
  {
    FirstDrops(heads[i..])
  }

  // ----- the outline decides -----------------------------------------------

  /** The verdict on a region, read off the outline. */
  function FirstKind(run: Kind, level: nat, rest: seq<Head>): Kind {
    if run != Quiet then run
    else if rest != [] && rest[0].level > level then Content
    else Quiet
  }

  lemma {:induction false} ScanOutline(tags: seq<Tag>, j: nat, level: nat)
    requires j <= |tags|
    ensures ScanKind(tags[j..NextAtMost(tags, j, level)])
         == FirstKind(RunKind(tags[j..]), level, Outline(tags[j..]))
    decreases |tags| - j
  {
    var e := NextAtMost(tags, j, level);
    if j == |tags| || AtMost(tags[j], level) {
      assert tags[j..e] == [];
    } else {
      var body := tags[j..e];
      assert body[0] == tags[j] && body[1..] == tags[j + 1..e];
      assert tags[j..][1..] == tags[j + 1..];
      ScanOutline(tags, j + 1, level);
    }
  }

  /** Whether a header drops or crashes depends on the outline alone. */
  lemma RegionOutline(tags: seq<Tag>, i: nat)
    requires i < |tags| && tags[i].Header?
    ensures var heads := Outline(tags[i..]);
            && heads != [] && heads[0].level == tags[i].level
            && RegionKind(tags, i) == FirstKind(heads[0].kind, heads[0].level, heads[1..])
            && (Drops(tags, i) <==> FirstDrops(heads))
  {
    assert tags[i..][1..] == tags[i + 1..];
    ScanOutline(tags, i + 1, tags[i].level);
  }

  /** The document has a crash iff its outline shows one. */
  lemma {:induction false} CrashOutline(tags: seq<Tag>)
    ensures Crashes(tags) <==> exists h :: h in Outline(tags) && h.kind == Crash
  {
    assert tags[0..] == tags;
    CrashOutlineFrom(tags, 0);
  }

  lemma {:induction false} CrashOutlineFrom(tags: seq<Tag>, i: nat)
    requires i <= |tags|
    ensures (exists k :: i <= k < |tags| && CrashesAt(tags, k))
       <==> (exists h :: h in Outline(tags[i..]) && h.kind == Crash)
    decreases |tags| - i
  {
    if i < |tags| {
      CrashOutlineFrom(tags, i + 1);
      var heads, rest := Outline(tags[i..]), Outline(tags[i + 1..]);
      assert tags[i..][1..] == tags[i + 1..];
      if tags[i].Header? {
        RegionOutline(tags, i);
        assert heads == [heads[0]] + rest;
        assert CrashesAt(tags, i) <==> heads[0].kind == Crash;
        if h :| h in rest && h.kind == Crash {
          assert h in heads;
        }
      } else {
        assert heads == rest;
      }
    } else {
      assert tags[i..] == [];
    }
  }

  // ----- one pass on the outline ---------------------------------------------

  /** Under a dropped header, or at a header, what is kept starts anew. */
  lemma {:induction false} KeepStartsAnew(tags: seq<Tag>, i: nat)
    requires i <= |tags|
    requires i < |tags| ==> tags[i].Header? || Dropped(tags, i)
    ensures var k := Keep(tags, tags, i, |tags|); k == [] || k[0].Header?
    decreases |tags| - i
  {
    if i < |tags| && Dropped(tags, i) {
      KeepStartsAnew(tags, i + 1);
    }
  }

  /** The lines below a kept line, up to the next header, are all kept. */
  lemma {:induction false} RunKept(tags: seq<Tag>, i: nat)
    requires 0 < i <= |tags| && !Dropped(tags, i - 1)
    ensures RunKind(Keep(tags, tags, i, |tags|)) == RunKind(tags[i..])
    decreases |tags| - i
  {
    if i < |tags| {
      if tags[i].Header? {
        KeepStartsAnew(tags, i);
      } else {
        RunKept(tags, i + 1);
        assert tags[i..][1..] == tags[i + 1..];
        var k := Keep(tags, tags, i, |tags|);
        assert k == [tags[i]] + Keep(tags, tags, i + 1, |tags|);
        assert k[1..] == Keep(tags, tags, i + 1, |tags|);
      }
    } else {
      assert tags[i..] == [];
    }
  }

  lemma {:induction false} OutlineOfKeep(tags: seq<Tag>, i: nat)
    requires i <= |tags|
    ensures Outline(Keep(tags, tags, i, |tags|)) == PassOutline(Outline(tags[i..]))
    decreases |tags| - i
  {
    if i < |tags| {
      OutlineOfKeep(tags, i + 1);
      assert tags[i..][1..] == tags[i + 1..];
      var rest := Keep(tags, tags, i + 1, |tags|);
      var heads := Outline(tags[i..]);
      if tags[i].Header? {
        RegionOutline(tags, i);
        assert heads[1..] == Outline(tags[i + 1..]);
        if !Drops(tags, i) {
          RunKept(tags, i + 1);
          assert ([tags[i]] + rest)[1..] == rest;
        }
      } else if !Dropped(tags, i) {
        assert ([tags[i]] + rest)[1..] == rest;
      }
    } else {
      assert tags[i..] == [];
    }
  }

  /** One pass over the document is one pass over its outline. */
  lemma OutlineOfPass(tags: seq<Tag>)
    ensures Outline(Pass(tags)) == PassOutline(Outline(tags))
  {
    OutlineOfKeep(tags, 0);
    assert tags[0..] == tags;
  }

  /** Something drops iff the pass shortens the outline. */
  lemma {:induction false} PassShortens(heads: seq<Head>)
    ensures |PassOutline(heads)| < |heads| <==> exists i :: 0 <= i < |heads| && OutlineDrops(heads, i)
    ensures PassOutline(heads) == heads <==> |PassOutline(heads)| == |heads|
  {
    if heads != [] {
      PassShortens(heads[1..]);
      assert heads[0..] == heads;
      forall i | 1 <= i < |heads|
        ensures heads[i..] == heads[1..][i - 1..]
      {
      }
      if FirstDrops(heads) {
        assert OutlineDrops(heads, 0);
      } else if i :| 0 <= i < |heads| && OutlineDrops(heads, i) {
        assert i >= 1;
        assert OutlineDrops(heads[1..], i - 1);
      }
      if i :| 0 <= i < |heads[1..]| && OutlineDrops(heads[1..], i) {
        assert OutlineDrops(heads, i + 1);
      }
    }
  }

  // ----- how many passes ------------------------------------------------------

  /** Nothing of level `level` or deeper drops. */
  ghost predicate SettledFrom(heads: seq<Head>, level: nat) {
    forall i :: 0 <= i < |heads| && heads[i].level >= level ==> !OutlineDrops(heads, i)
  }

  lemma SettledTail(heads: seq<Head>, level: nat)
    requires heads != [] && SettledFrom(heads, level)
    ensures SettledFrom(heads[1..], level)
  {
    forall i | 0 <= i < |heads[1..]| && heads[1..][i].level >= level
      ensures !OutlineDrops(heads[1..], i)
    {
      assert heads[1..][i..] == heads[i + 1..];
      assert !OutlineDrops(heads, i + 1);
    }
  }

  /** After a pass the next level up is settled too: what drops only now must
      have had a deeper header below it, and that one could not drop. */
  lemma {:induction false} PassSettles(heads: seq<Head>, level: nat)
    requires level > 0 && SettledFrom(heads, level)
    ensures SettledFrom(PassOutline(heads), level - 1)
  {
    if heads != [] {
      SettledTail(heads, level);
      PassSettles(heads[1..], level);
      var r, rest := PassOutline(heads), PassOutline(heads[1..]);
      if !FirstDrops(heads) {
        forall i | 0 <= i < |r| && r[i].level >= level - 1
          ensures !OutlineDrops(r, i)
        {
          if i > 0 {
            assert r[i..] == rest[i - 1..];
            assert !OutlineDrops(rest, i - 1);
          } else if heads[0].kind == Quiet {
            assert heads[1].level >= level;
            assert heads[1..] == heads[1..][0..];
            assert !OutlineDrops(heads, 1);
            assert rest[0] == heads[1];
            assert r[0..] == r;
          }
        }
      }
    }
  }

  function Passed(heads: seq<Head>, n: nat): seq<Head> {
    if n == 0 then heads else PassOutline(Passed(heads, n - 1))
  }

  ghost predicate AtxLevels(heads: seq<Head>) {
    forall h :: h in heads ==> 2 <= h.level <= 6
  }

  lemma {:induction false} PassKeepsHeads(heads: seq<Head>, h: Head)
    requires h in PassOutline(heads)
    ensures h in heads
  {
    if h != heads[0] {
      PassKeepsHeads(heads[1..], h);
    }
  }

  lemma {:induction false} PassedKeepsHeads(heads: seq<Head>, n: nat, h: Head)
    requires h in Passed(heads, n)
    ensures h in heads
  {
    if n > 0 {
      PassKeepsHeads(Passed(heads, n - 1), h);
      PassedKeepsHeads(heads, n - 1, h);
    }
  }

  /** After `n` passes no header of level `7 - n` or deeper is empty. */
  lemma {:induction false} SettledAfter(heads: seq<Head>, n: nat)
    requires AtxLevels(heads) && n <= 7
    ensures SettledFrom(Passed(heads, n), 7 - n)
  {
    if n > 0 {
      SettledAfter(heads, n - 1);
      PassSettles(Passed(heads, n - 1), 8 - n);
    }
  }

  /** Five passes settle every outline. */
  lemma {:induction false} FivePassesOutline(heads: seq<Head>, n: nat)
    requires AtxLevels(heads) && n >= 5
    ensures Passed(heads, n) == Passed(heads, 5)
    ensures PassOutline(Passed(heads, n)) == Passed(heads, n)
  {
    if n > 5 {
      FivePassesOutline(heads, n - 1);
    } else {
      SettledAfter(heads, 5);
      var r := Passed(heads, 5);
      forall i | 0 <= i < |r|
        ensures !OutlineDrops(r, i)
      {
        assert r[i] in r;
        PassedKeepsHeads(heads, 5, r[i]);
      }
      PassShortens(r);
    }
  }

  /** A chain of `n` ever deeper quiet headers, the first of level `first`. */
  function Chain(first: nat, n: nat): seq<Head>
    decreases n
  {
    if n == 0 then [] else [Head(first, Quiet)] + Chain(first + 1, n - 1)
  }

  /** Each pass takes only the deepest header off a chain. */
  lemma {:induction false} PassChain(first: nat, n: nat)
    requires n > 0
    ensures PassOutline(Chain(first, n)) == Chain(first, n - 1)
    decreases n
  {
    var c := Chain(first, n);
    assert c[1..] == Chain(first + 1, n - 1);
    if n > 1 {
      PassChain(first + 1, n - 1);
      assert c[1] == Head(first + 1, Quiet);
    } else {
      assert c == [Head(first, Quiet)];
    }
  }

  /** A chain of `n` headers needs exactly `n` passes. */
  lemma {:induction false} ChainAfter(first: nat, n: nat, k: nat)
    requires k <= n
    ensures Passed(Chain(first, n), k) == Chain(first, n - k)
  {
    if k > 0 {
      ChainAfter(first, n, k - 1);
      PassChain(first, n - k + 1);
    }
  }

  // ----- regions in the output ---------------------------------------------

  /** After a dropped region the next kept line, if any, is a header at most
      as deep as the dropped one. */
  lemma {:induction false} AfterDrop(tags: seq<Tag>, j: nat, level: nat)
    requires j <= |tags|
    requires j < |tags| ==> AtMost(tags[j], level)
    ensures var k := Keep(tags, tags, j, |tags|); k == [] || AtMost(k[0], level)
    decreases |tags| - j
  {
    if j < |tags| && Drops(tags, j) {
      var e := RegionEnd(tags, j);
      AfterDrop(tags, e, level);
      forall m | j <= m < e
        ensures Dropped(tags, m)
      {
        DropsCovers(tags, j, m);
      }
      KeepNone(tags, tags, j, e);
      KeepSplit(tags, tags, j, e, |tags|);
    }
  }

  lemma {:induction false} NextAtMostIs(tags: seq<Tag>, j: nat, e: nat, level: nat)
    requires j <= e <= |tags|
    requires forall k :: j <= k < e ==> !AtMost(tags[k], level)
    requires e == |tags| || AtMost(tags[e], level)
    ensures NextAtMost(tags, j, level) == e
    decreases e - j
  {
    if j < e {
      NextAtMostIs(tags, j + 1, e, level);
    }
  }

  lemma {:induction false} KeptWithin(tags: seq<Tag>, i: nat, j: nat, n: nat)
    requires i <= j <= |tags| && n < |Keep(tags, tags, i, j)|
    ensures exists k :: i <= k < j && Keep(tags, tags, i, j)[n] == tags[k]
    decreases j - i
  {
    if Dropped(tags, i) {
      KeptWithin(tags, i + 1, j, n);
    } else if n > 0 {
      KeptWithin(tags, i + 1, j, n - 1);
    }
  }

  /** The output cut at a kept header and at the end of its old region. */
  lemma CutPass(tags: seq<Tag>, i: nat, e: nat)
    requires i < e <= |tags| && !Dropped(tags, i)
    ensures Pass(tags) == Keep(tags, tags, 0, i) + Keep(tags, tags, i, e) + Keep(tags, tags, e, |tags|)
    ensures Keep(tags, tags, i, e) == [tags[i]] + Keep(tags, tags, i + 1, e)
    ensures |Keep(tags, tags, 0, e)| == |Keep(tags, tags, 0, i)| + |Keep(tags, tags, i, e)|
  {
    KeepSplit(tags, tags, 0, i, |tags|);
    KeepSplit(tags, tags, i, e, |tags|);
    KeepSplit(tags, tags, 0, i, e);
    SeqAssoc(Keep(tags, tags, 0, i), Keep(tags, tags, i, e), Keep(tags, tags, e, |tags|));
  }

  lemma KeptBelow(tags: seq<Tag>, i: nat, e: nat, level: nat)
    requires i <= e <= |tags|
    requires forall k :: i <= k < e ==> !AtMost(tags[k], level)
    ensures forall n :: 0 <= n < |Keep(tags, tags, i, e)| ==> !AtMost(Keep(tags, tags, i, e)[n], level)
  {
    forall n | 0 <= n < |Keep(tags, tags, i, e)|
      ensures !AtMost(Keep(tags, tags, i, e)[n], level)
    {
      KeptWithin(tags, i, e, n);
    }
  }

  lemma RegionInThree(a: seq<Tag>, head: Tag, b: seq<Tag>, c: seq<Tag>)
    requires head.Header?
    requires forall n :: 0 <= n < |b| ==> !AtMost(b[n], head.level)
    requires c == [] || AtMost(c[0], head.level)
    ensures var out := a + ([head] + b) + c;
            && out[|a|] == head
            && RegionEnd(out, |a|) == |a| + 1 + |b|
            && out[|a|..RegionEnd(out, |a|)] == [head] + b
  {
    var out := a + ([head] + b) + c;
    var end := |a| + 1 + |b|;
    assert out[|a|..end] == [head] + b;
    forall k | |a| + 1 <= k < end
      ensures !AtMost(out[k], head.level)
    {
      assert out[k] == b[k - |a| - 1];
    }
    NextAtMostIs(out, |a| + 1, end, head.level);
  }

  /** No region grows: in the output, the region of a kept header is exactly
      its old region without the dropped lines. */
  lemma KeptRegion(tags: seq<Tag>, i: nat)
    requires i < |tags| && tags[i].Header? && !Drops(tags, i)
    ensures var at := |Keep(tags, tags, 0, i)|;
            var e := RegionEnd(tags, i);
            var out := Pass(tags);
            && at < |out| && out[at] == tags[i]
            && RegionEnd(out, at) == |Keep(tags, tags, 0, e)|
            && out[at..RegionEnd(out, at)] == Keep(tags, tags, i, e)
  {
    var e := RegionEnd(tags, i);
    CutPass(tags, i, e);
    KeptBelow(tags, i + 1, e, tags[i].level);
    AfterDrop(tags, e, tags[i].level);
    RegionInThree(Keep(tags, tags, 0, i), tags[i], Keep(tags, tags, i + 1, e), Keep(tags, tags, e, |tags|));
  }
}
