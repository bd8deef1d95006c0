/** The cycle loop of the self-improvement engine (`src/brain/rsi.rs`): gates,
    the persisted hash of the last opportunity list and the persisted cycle
    counter, over runs with restarts. */
module RsiCycle {
  import opened Text
  import Numbers

  const MIN_ENTRIES: int := 50
  const SCAN_EVERY: nat := 24
  const U64_MAX: nat := 0xFFFF_FFFF_FFFF_FFFF
  const SEPARATOR: string := "\n---\n"

  // ----- the separator join -------------------------------------------------------

  /** The lines of the joined descriptions. */
  function Pieces(opps: seq<string>): seq<string>
    requires opps != []
  {
    if |opps| == 1 then Split(opps[0], '\n')
    else Split(opps[0], '\n') + ["---"] + Pieces(opps[1..])
  }

  lemma {:induction false} SplitWhole(s: string, c: char)
    requires c !in s
    ensures Split(s, c) == [s]
  {
    if s != "" {
      SplitWhole(s[1..], c);
      assert [s[0]] + s[1..] == s;
    }
  }

  lemma SplitCons(x: char, s: string, c: char)
    ensures var rest := Split(s, c);
            Split([x] + s, c) == if x == c then [""] + rest else [[x] + rest[0]] + rest[1..]
  {
    assert ([x] + s)[1..] == s;
  }

  lemma {:induction false} SplitConcat(a: string, b: string)
    ensures Split(a + "\n" + b, '\n') == Split(a, '\n') + Split(b, '\n')
  {
    hide Split;
    if a == "" {
      SplitWhole(a, '\n');
      SplitCons('\n', b, '\n');
      assert a + "\n" + b == ['\n'] + b;
    } else {
      var x, s := a[0], a[1..];
      SplitConcat(s, b);
      SplitCons(x, s, '\n');
      SplitCons(x, s + "\n" + b, '\n');
      assert a == [x] + s && a + "\n" + b == [x] + (s + "\n" + b);
      var rest, tail := Split(s, '\n'), Split(b, '\n');
      assert (rest + tail)[1..] == rest[1..] + tail;
      SeqAssoc([[x] + rest[0]], rest[1..], tail);
      SeqAssoc([""], rest, tail);
    }
  }

  lemma {:induction false} SplitOfJoin(opps: seq<string>)
    requires opps != []
    ensures Split(Join(opps, SEPARATOR), '\n') == Pieces(opps)
  {
    hide Split;
    if |opps| > 1 {
      var rest := Join(opps[1..], SEPARATOR);
      SplitOfJoin(opps[1..]);
      SplitConcat("---", rest);
      SplitWhole("---", '\n');
      SplitConcat(opps[0], "---" + "\n" + rest);
      assert Join(opps, SEPARATOR) == opps[0] + "\n" + ("---" + "\n" + rest);
    }
  }

  /** A description as the join expects them: not empty, and without the
      separator among its lines. */
  predicate Unambiguous(description: string) {
    description != "" && "---" !in Split(description, '\n')
  }

  ghost predicate AllUnambiguous(opps: seq<string>) {
    forall d :: d in opps ==> Unambiguous(d)
  }

  /** Two lists that avoid `x` are equal when what comes before the first `x`
      is the same. */
  lemma SameBeforeMark<T>(a: seq<T>, b: seq<T>, mark: T, r: seq<T>, q: seq<T>)
    requires mark !in a && mark !in b
    requires a + [mark] + r == b + [mark] + q
    ensures a == b && r == q
  {
    var s, t := a + [mark] + r, b + [mark] + q;
    assert s[|a|] == mark && t[|b|] == mark;
    assert forall i :: 0 <= i < |a| ==> s[i] == a[i] != mark;
    assert forall i :: 0 <= i < |b| ==> t[i] == b[i] != mark;
    assert a == s[..|a|] && b == t[..|a|];
    assert r == s[|a| + 1..] && q == t[|a| + 1..];
  }

  /** Different lists of unambiguous descriptions join to different texts. */
  lemma {:induction false} PiecesInjective(a: seq<string>, b: seq<string>)
    requires a != [] && b != [] && AllUnambiguous(a) && AllUnambiguous(b)
    requires Pieces(a) == Pieces(b)
    ensures a == b
    decreases |a|
  {
    hide Split;
    assert Unambiguous(a[0]) && Unambiguous(b[0]);
    SplitJoin(a[0], '\n');
    SplitJoin(b[0], '\n');
    var x, y := Split(a[0], '\n'), Split(b[0], '\n');
    assert |a| == 1 ==> "---" !in Pieces(a);
    assert |b| == 1 ==> "---" !in Pieces(b);
    assert |a| > 1 ==> Pieces(a)[|x|] == "---";
    assert |b| > 1 ==> Pieces(b)[|y|] == "---";
    if |a| > 1 {
      SameBeforeMark(x, y, "---", Pieces(a[1..]), Pieces(b[1..]));
      PiecesInjective(a[1..], b[1..]);
      assert a == [a[0]] + a[1..] && b == [b[0]] + b[1..];
    } else {
      assert a == [a[0]] && b == [b[0]];
    }
  }

  lemma JoinEmptyIff(opps: seq<string>)
    requires AllUnambiguous(opps)
    ensures Join(opps, SEPARATOR) == "" <==> opps == []
  {
    if opps != [] {
      assert Unambiguous(opps[0]);
    }
  }

  lemma JoinInjective(a: seq<string>, b: seq<string>)
    requires AllUnambiguous(a) && AllUnambiguous(b)
    requires Join(a, SEPARATOR) == Join(b, SEPARATOR)
    ensures a == b
  {
    hide Split, Join, Pieces;
    JoinEmptyIff(a);
    JoinEmptyIff(b);
    if a != [] {
      SplitOfJoin(a);
      SplitOfJoin(b);
      PiecesInjective(a, b);
    }
  }

  /** The condition is exact, description by description: around any
      description that has the separator as a line, a list of three and a list
      of two collide. */
  lemma SeparatorLineCollides(d: string) returns (before: string, after: string)
    requires "---" in Split(d, '\n')
    ensures before != "" && after != ""
    ensures Join(["a", d, "b"], SEPARATOR) == Join([before, after], SEPARATOR)
  {
    hide Split, Join;
    var pieces := Split(d, '\n');
    SplitJoin(d, '\n');
    var k :| 0 <= k < |pieces| && pieces[k] == "---";
    var front, back := pieces[..k], pieces[k + 1..];
    assert pieces == front + ["---"] + back;
    before, after := Join(["a", "---"] + front, "\n"), Join(back + ["---", "b"], "\n");
    JoinConcat(["a", "---"] + front, ["---"] + (back + ["---", "b"]), "\n");
    JoinConcat(["---"], back + ["---", "b"], "\n");
    JoinConcat(["a", "---"], pieces + ["---", "b"], "\n");
    JoinConcat(pieces, ["---", "b"], "\n");
    assert (["a", "---"] + front) + (["---"] + (back + ["---", "b"])) == ["a", "---"] + (pieces + ["---", "b"]);
    JoinOfTwo("a", "---", "\n");
    JoinOfTwo("---", "b", "\n");
    JoinOfOne("---", "\n");
    JoinOfTwo(before, after, SEPARATOR);
    JoinOfThree("a", d, "b", SEPARATOR);
    NonEmptyEnds(front, back);
    assert before + "\n" + ("---" + "\n" + after) == before + SEPARATOR + after;
    assert ("a" + "\n" + "---") + "\n" + (d + "\n" + ("---" + "\n" + "b")) == "a" + SEPARATOR + (d + SEPARATOR + "b");
  }

  lemma NonEmptyEnds(front: seq<string>, back: seq<string>)
    ensures Join(["a", "---"] + front, "\n") != ""
    ensures Join(back + ["---", "b"], "\n") != ""
  {
    assert (["a", "---"] + front)[0] == "a";
    if back != [] {
      JoinConcat(back, ["---", "b"], "\n");
    } else {
      assert back + ["---", "b"] == ["---", "b"];
    }
  }

  lemma JoinOfOne(a: string, sep: string)
    ensures Join([a], sep) == a
  {
  }

  lemma JoinOfTwo(a: string, b: string, sep: string)
    ensures Join([a, b], sep) == a + sep + b
  {
    assert [a, b][1..] == [b];
  }

  lemma JoinOfThree(a: string, b: string, c: string, sep: string)
    ensures Join([a, b, c], sep) == a + sep + (b + sep + c)
  {
    assert [a, b, c][1..] == [b, c];
    JoinOfTwo(b, c, sep);
  }

  // ----- what a run should do, told from its history alone ---------------------------

  /** Where the process is killed in a cycle, if it is: in the write of the hash,
      which empties the file first; after it and before anything is announced;
      while the agent runs; in the write of the counter, which empties its file;
      or after that, before the scan is done. */
  datatype KillPoint = Never | InHashWrite | AfterHash | InAgent | InCounterWrite | InScan

  /** Killed before the opportunities are announced. */
  predicate IsEarly(killed: KillPoint) {
    killed == InHashWrite || killed == AfterHash
  }

  /** What happens to the engine: it wakes up with a feedback count (none when
      the query fails) and the opportunities it finds, and may be killed; or it
      is restarted between two cycles. A killed engine starts again. */
  datatype Event =
    | Wake(total: Option<int>, opportunities: seq<string>, killed: KillPoint)
    | Restart

  /** What a cycle does to the outside. */
  datatype Report =
    | Idle
    | Analysed(announced: seq<string>, launched: bool, scanned: bool)

  /** The count of the last analysed cycle since the engine last started. */
  function LastSeen(h: seq<Event>): int
    decreases |h|, 0
  {
    if h == [] then 0
    else
      var before, e := h[..|h| - 1], h[|h| - 1];
      if e.Restart? || e.killed != Never then 0
      else if IsAnalysed(before, e) then e.total.value
      else LastSeen(before)
  }

  /** A cycle is analysed if there is enough feedback, and not as much as the
      last time. */
  predicate IsAnalysed(before: seq<Event>, e: Event)
    decreases |before|, 1
  {
    e.Wake? && e.total.Some? && e.total.value >= MIN_ENTRIES && e.total.value != LastSeen(before)
  }

  /** The opportunities of the last analysed cycle, over all restarts, if its hash
      was written. */
  function LastList(h: seq<Event>): Option<seq<string>> {
    if h == [] then None
    else
      var before, e := h[..|h| - 1], h[|h| - 1];
      if IsAnalysed(before, e) then Remembered(e) else LastList(before)
  }

  function Remembered(e: Event): Option<seq<string>>
    requires e.Wake?
  {
    if e.killed == InHashWrite then None else Some(e.opportunities)
  }

  /** The cycle gets as far as the counter. */
  predicate IsCounted(before: seq<Event>, e: Event) {
    IsAnalysed(before, e) && (e.killed == Never || e.killed == InScan)
  }

  /** The number of cycles that got so far. */
  function Counted(h: seq<Event>): (n: nat)
    ensures n <= |h|
  {
    if h == [] then 0
    else
      var before, e := h[..|h| - 1], h[|h| - 1];
      Counted(before) + (if IsCounted(before, e) then 1 else 0)
  }

  /** The cycle is killed in the write of the counter, which starts again from 0. */
  predicate IsReset(before: seq<Event>, e: Event) {
    IsAnalysed(before, e) && e.killed == InCounterWrite
  }

  /** The counted cycles since the counter last started from 0. */
  function Counter(h: seq<Event>): (n: nat)
    ensures n <= |h|
  {
    if h == [] then 0
    else
      var before, e := h[..|h| - 1], h[|h| - 1];
      if IsReset(before, e) then 0 else Counter(before) + (if IsCounted(before, e) then 1 else 0)
  }

  /** The cycle is a 24th one, which calls for a scan. */
  predicate IsDue(before: seq<Event>, e: Event) {
    IsCounted(before, e) && (Counter(before) + 1) % SCAN_EVERY == 0
  }

  /** The joined opportunities are not those of the previous analysed cycle. */
  predicate IsNews(last: Option<seq<string>>, opps: seq<string>) {
    last.None? || Join(last.value, SEPARATOR) != Join(opps, SEPARATOR)
  }

  /** What the engine should do on an event. */
  function Expected(before: seq<Event>, e: Event): Report {
    if !IsAnalysed(before, e) then Idle
    else
      var told := IsNews(LastList(before), e.opportunities) && !IsEarly(e.killed);
      Analysed(
        if told then e.opportunities else [],
        told && e.opportunities != [],
        IsDue(before, e) && e.killed == Never)
  }

  lemma HistoryGrows(h: seq<Event>, e: Event)
    ensures LastSeen(h + [e]) ==
            if e.Restart? || e.killed != Never then 0 else if IsAnalysed(h, e) then e.total.value else LastSeen(h)
    ensures LastList(h + [e]) == if IsAnalysed(h, e) then Remembered(e) else LastList(h)
    ensures Counter(h + [e]) == if IsReset(h, e) then 0 else Counter(h) + if IsCounted(h, e) then 1 else 0
  {
    assert (h + [e])[..|h|] == h;
  }

  // ----- the engine --------------------------------------------------------------------

  /** A hash without collisions, printed as some text without blanks around it. */
  ghost predicate IsDigest(digest: string -> string) {
    && (forall a, b :: digest(a) == digest(b) ==> a == b)
    && (forall a :: Trim(digest(a)) == digest(a) && digest(a) != "")
  }

  function HashOpportunities(opps: seq<string>, digest: string -> string): string {
    digest(Join(opps, SEPARATOR))
  }

  lemma HashIff(a: seq<string>, b: seq<string>, digest: string -> string)
    requires IsDigest(digest)
    ensures HashOpportunities(a, digest) == HashOpportunities(b, digest) <==> !IsNews(Some(a), b)
  {
    hide Join;
  }

  /** The counter that the engine starts with. */
  function LoadCounter(file: Option<string>): nat {
    if file.None? then 0
    else
      var parsed := Numbers.Parse(Trim(file.value), U64_MAX);
      if parsed.Some? then parsed.value else 0
  }

  /** The engine: two variables, and two files that outlive it. */
  class RsiEngine {
    const digest: string -> string
    var lastSeen: int
    var cycleNumber: nat
    var hashFile: Option<string>
    var cycleFile: Option<string>
    /** All that happened since the files did not exist. */
    ghost var history: seq<Event>

    ghost predicate Valid()
      reads this
    {
      && IsDigest(digest)
      && lastSeen == LastSeen(history)
      && cycleNumber == Counter(history) == LoadCounter(cycleFile)
      && |history| <= U64_MAX
      && HashIsOf(hashFile, LastList(history), digest)
    }

    constructor (digest: string -> string)
      requires IsDigest(digest)
      ensures Valid() && history == [] && this.digest == digest
    {
      this.digest := digest;
      lastSeen, cycleNumber := 0, 0;
      hashFile, cycleFile := None, None;
      history := [];
    }

    /** The start of the process, with what the files say. */
    method Start()
      requires Valid() && |history| < U64_MAX
      modifies this
      ensures Valid() && history == old(history) + [Restart]
    {
      lastSeen := 0;
      cycleNumber := LoadCounter(cycleFile);
      history := history + [Restart];
      HistoryGrows(old(history), Restart);
    }

    /** The comparison with the previous list, which is replaced. */
    method Compare(opps: seq<string>, ghost past: seq<Event>) returns (news: bool)
      requires IsDigest(digest) && HashIsOf(hashFile, LastList(past), digest)
      modifies this`hashFile
      ensures hashFile == Some(HashOpportunities(opps, digest))
      ensures HashIsOf(hashFile, Some(opps), digest)
      ensures news <==> IsNews(LastList(past), opps)
    {
      hide Join, LastList, Trim, HashOpportunities, IsNews;
      var current := HashOpportunities(opps, digest);
      var previous := if hashFile.Some? then Some(Trim(hashFile.value)) else None;
      var duplicate := previous == Some(current);
      ghost var last := LastList(past);
      if last.Some? {
        HashIff(last.value, opps, digest);
      } else {
        NoneIsNews(opps);
      }
      EmptyIsNoHash(opps, digest);
      hashFile := Some(current);
      HashTrimmed(opps, digest);
      news := !duplicate;
    }

    /** One turn of the loop, and a new start if the process is killed in it. */
    method Cycle(total: Option<int>, opps: seq<string>, killed: KillPoint) returns (report: Report)
      requires Valid() && |history| < U64_MAX
      modifies this
      ensures Valid()
      ensures var e := Wake(total, opps, killed);
              history == old(history) + [e] && report == Expected(old(history), e)
    {
      hide LoadCounter, HashIsOf, IsNews, IsDigest, LastSeen, LastList, Counter;
      ghost var past := history;
      HistoryGrows(past, Wake(total, opps, killed));
      history := past + [Wake(total, opps, killed)];
      report := Idle;
      if total.Some? && total.value >= MIN_ENTRIES && total.value != lastSeen {
        lastSeen := total.value;
        report := Analyse(opps, killed, past);
      }
      if killed != Never {
        lastSeen := 0;
        cycleNumber := LoadCounter(cycleFile);
      }
    }

    /** The part of a turn behind the gates, up to where the process is killed. */
    method Analyse(opps: seq<string>, killed: KillPoint, ghost past: seq<Event>) returns (report: Report)
      requires IsDigest(digest) && HashIsOf(hashFile, LastList(past), digest)
      requires cycleNumber == LoadCounter(cycleFile) == Counter(past) < U64_MAX
      modifies this`hashFile, this`cycleFile, this`cycleNumber
      ensures HashIsOf(hashFile, if killed == InHashWrite then None else Some(opps), digest)
      ensures killed != InCounterWrite ==> cycleNumber == LoadCounter(cycleFile)
      ensures LoadCounter(cycleFile) ==
              if killed == InCounterWrite then 0
              else Counter(past) + if killed == Never || killed == InScan then 1 else 0
      ensures var told := IsNews(LastList(past), opps) && !IsEarly(killed);
              report == Analysed(
                if told then opps else [],
                told && opps != [],
                killed == Never && (Counter(past) + 1) % SCAN_EVERY == 0)
    {
      hide LoadCounter, HashIsOf, IsNews, IsDigest, Counter;
      var news := Compare(opps, past);
      if killed == InHashWrite {
        hashFile := Some("");
        EmptyIsNoList(digest);
        return Analysed([], false, false);
      }
      if killed == AfterHash {
        return Analysed([], false, false);
      }
      var announced := if news then opps else [];
      var launched := news && opps != [];
      if killed == InAgent {
        return Analysed(announced, launched, false);
      }
      cycleNumber := (cycleNumber + 1) % (U64_MAX + 1);
      if killed == InCounterWrite {
        cycleFile := Some("");
        EmptyIsZero();
        return Analysed(announced, launched, false);
      }
      cycleFile := Some(Numbers.Print(cycleNumber));
      LoadPrinted(cycleNumber);
      if killed == InScan {
        return Analysed(announced, launched, false);
      }
      return Analysed(announced, launched, cycleNumber % SCAN_EVERY == 0);
    }
  }

  /** The hash file belongs to the list, if there is one, and is missing or empty
      otherwise. */
  ghost predicate HashIsOf(file: Option<string>, last: Option<seq<string>>, digest: string -> string) {
    && (last.None? ==> file.None? || file.value == "")
    && (last.Some? ==>
          && file.Some?
          && file.value == HashOpportunities(last.value, digest)
          && Trim(file.value) == file.value)
  }

  lemma HashTrimmed(opps: seq<string>, digest: string -> string)
    requires IsDigest(digest)
    ensures var h := HashOpportunities(opps, digest); Trim(h) == h
  {
  }

  lemma EmptyIsNoHash(opps: seq<string>, digest: string -> string)
    requires IsDigest(digest)
    ensures HashOpportunities(opps, digest) != "" && Trim("") == ""
  {
    TrimEmpty();
  }

  lemma EmptyIsNoList(digest: string -> string)
    ensures HashIsOf(Some(""), None, digest)
  {
  }

  /** An emptied counter file counts from 0. */
  lemma EmptyIsZero()
    ensures LoadCounter(Some("")) == 0
  {
    TrimEmpty();
  }

  lemma NoneIsNews(opps: seq<string>)
    ensures IsNews(None, opps)
  {
  }

  /** The counter survives a restart. */
  lemma LoadPrinted(n: nat)
    requires n <= U64_MAX
    ensures LoadCounter(Some(Numbers.Print(n))) == n
  {
    hide Trim, Numbers.Parse, Numbers.Print;
    Numbers.PrintTrim(n);
    Numbers.ParsePrint(n, U64_MAX);
  }

  // ----- what the history calls for: the agent ---------------------------------------------

  ghost predicate Readable(h: seq<Event>) {
    forall i :: 0 <= i < |h| && h[i].Wake? ==> AllUnambiguous(h[i].opportunities)
  }

  lemma {:induction false} LastListReadable(h: seq<Event>)
    requires Readable(h)
    ensures LastList(h).Some? ==> AllUnambiguous(LastList(h).value)
  {
    hide AllUnambiguous;
    if h != [] {
      LastListReadable(h[..|h| - 1]);
    }
  }

  /** With descriptions that are not empty and have no separator line, an analysed
      cycle launches the agent exactly when there are opportunities, they are not
      those of the previous analysed cycle, over all restarts and kills, or its
      hash was cut off, and the process is not killed between the start of writing
      the hash and launching. */
  lemma LaunchesIff(h: seq<Event>, e: Event)
    requires Readable(h + [e]) && IsAnalysed(h, e)
    ensures Expected(h, e).launched <==>
            e.opportunities != [] && LastList(h) != Some(e.opportunities) && !IsEarly(e.killed)
  {
    hide AllUnambiguous, Join;
    assert forall i :: 0 <= i < |h| ==> (h + [e])[i] == h[i];
    assert (h + [e])[|h|] == e;
    LastListReadable(h);
    if LastList(h).Some? && !IsNews(LastList(h), e.opportunities) {
      JoinInjective(LastList(h).value, e.opportunities);
    }
  }

  /** The previous analysed cycle's list is what counts, not any older one: a
      list that comes back after another one, or after a hash that was cut off,
      launches the agent again. */
  lemma LaunchesAgain(h: seq<Event>, a: Event, b: Event)
    requires IsAnalysed(h, a) && IsAnalysed(h + [a], b)
    requires b.opportunities != [] && !IsEarly(b.killed)
    ensures Expected(h + [a], b).launched <==> a.killed == InHashWrite || IsNews(Some(a.opportunities), b.opportunities)
  {
    assert (h + [a])[..|h|] == h;
  }

  /** A launch that a kill prevents is not made up for: the hash is written, so
      the same list is no news to the next cycle. */
  lemma LaunchIsLost(h: seq<Event>, a: Event, b: Event)
    requires IsAnalysed(h, a) && a.killed == AfterHash && IsAnalysed(h + [a], b)
    requires a.opportunities == b.opportunities
    ensures !Expected(h, a).launched && !Expected(h + [a], b).launched
  {
    assert (h + [a])[..|h|] == h;
  }

  // ----- what the history calls for: the scans ----------------------------------------------

  /** The number of scans in a run. */
  function Scans(h: seq<Event>): nat {
    if h == [] then 0
    else
      var before, e := h[..|h| - 1], h[|h| - 1];
      var r := Expected(before, e);
      Scans(before) + (if r.Analysed? && r.scanned then 1 else 0)
  }

  /** The process is killed in a scan that is due, or right before it. */
  predicate IsMissed(before: seq<Event>, e: Event) {
    IsDue(before, e) && e.killed == InScan
  }

  function Missed(h: seq<Event>): nat {
    if h == [] then 0
    else
      var before, e := h[..|h| - 1], h[|h| - 1];
      Missed(before) + (if IsMissed(before, e) then 1 else 0)
  }

  /** The counted cycles that no scan has followed when the counter starts from 0
      again. */
  function Lost(h: seq<Event>): nat {
    if h == [] then 0
    else
      var before, e := h[..|h| - 1], h[|h| - 1];
      Lost(before) + (if IsReset(before, e) then Counter(before) % SCAN_EVERY else 0)
  }

  /** Of the counted cycles every 24th is scanned or missed, apart from those that
      the counter lost. */
  lemma {:induction false} ScansCounted(h: seq<Event>)
    ensures Counted(h) == SCAN_EVERY * (Scans(h) + Missed(h)) + Lost(h) + Counter(h) % SCAN_EVERY
  {
    if h != [] {
      var before, e := h[..|h| - 1], h[|h| - 1];
      ScansCounted(before);
      hide IsAnalysed, IsNews;
      DueIff(before, e);
      hide Expected, IsDue, IsMissed, IsCounted, IsReset;
      NextMultiple(Counter(before));
    }
  }

  /** A cycle that is due is scanned or missed, and no other is. */
  lemma DueIff(before: seq<Event>, e: Event)
    ensures var r := Expected(before, e); (r.Analysed? && r.scanned) <==> IsDue(before, e) && !IsMissed(before, e)
    ensures IsMissed(before, e) ==> IsDue(before, e)
    ensures IsDue(before, e) <==> IsCounted(before, e) && (Counter(before) + 1) % SCAN_EVERY == 0
    ensures !(IsCounted(before, e) && IsReset(before, e))
  {
    hide IsAnalysed, IsNews, Counter;
  }

  lemma NextMultiple(n: nat)
    ensures (n + 1) % SCAN_EVERY == if n % SCAN_EVERY == SCAN_EVERY - 1 then 0 else n % SCAN_EVERY + 1
  {
  }

  lemma {:induction false} LostIff(h: seq<Event>)
    requires forall i :: 0 <= i < |h| ==> !IsReset(h[..i], h[i])
    ensures Lost(h) == 0
  {
    hide IsReset;
    if h != [] {
      var before := h[..|h| - 1];
      assert forall i :: 0 <= i < |before| ==> before[..i] == h[..i];
      LostIff(before);
    }
  }

  lemma {:induction false} MissedIff(h: seq<Event>)
    ensures Missed(h) == 0 <==> forall i :: 0 <= i < |h| ==> !IsMissed(h[..i], h[i])
  {
    hide IsMissed;
    if h != [] {
      var before := h[..|h| - 1];
      MissedIff(before);
      assert forall i :: 0 <= i < |before| ==> before[..i] == h[..i];
    }
  }

  /** Restarts and kills neither lose nor repeat a scan, exactly if none falls
      between writing the counter and the end of a scan that is due, and the
      cycles that cut off counters lost do not make up a scan with those counted
      since. */
  lemma ScansCompleteIff(h: seq<Event>)
    ensures Scans(h) == Counted(h) / SCAN_EVERY <==>
            && (forall i :: 0 <= i < |h| ==> !IsMissed(h[..i], h[i]))
            && Lost(h) + Counter(h) % SCAN_EVERY < SCAN_EVERY
    ensures (forall i :: 0 <= i < |h| ==> !IsReset(h[..i], h[i])) ==> Lost(h) == 0
  {
    ScansCounted(h);
    MissedIff(h);
    if forall i :: 0 <= i < |h| ==> !IsReset(h[..i], h[i]) {
      LostIff(h);
    }
  }

  /** Cycles without opportunities, under ever changing counts. */
  function Cycles(n: nat): (h: seq<Event>)
    ensures |h| == n
  {
    if n == 0 then [] else Cycles(n - 1) + [Wake(Some(MIN_ENTRIES + n), [], Never)]
  }

  lemma {:induction false} CyclesCount(n: nat)
    ensures Counted(Cycles(n)) == Counter(Cycles(n)) == n && Missed(Cycles(n)) == Lost(Cycles(n)) == 0
    ensures LastSeen(Cycles(n)) == if n == 0 then 0 else MIN_ENTRIES + n
  {
    if n > 0 {
      CyclesCount(n - 1);
      assert Cycles(n)[..n - 1] == Cycles(n - 1);
    }
  }

  /** Such a loss: killed in the scan of the 24th cycle, the engine starts again
      from 24, and that scan is never done. */
  lemma ScanIsLost()
    ensures var h := Cycles(SCAN_EVERY - 1) + [Wake(Some(MIN_ENTRIES), [], InScan)];
            Counted(h) == SCAN_EVERY && Scans(h) == 0
  {
    var before, e := Cycles(SCAN_EVERY - 1), Wake(Some(MIN_ENTRIES), [], InScan);
    CyclesCount(SCAN_EVERY - 1);
    ScansCounted(before);
    assert (before + [e])[..|before|] == before;
  }

  /** Another: killed in the write of the counter of the 24th cycle, the engine
      counts from 0, and the 24th counted cycle calls for no scan. */
  lemma CounterIsCut()
    ensures var cut, e := Wake(Some(MIN_ENTRIES), [], InCounterWrite), Wake(Some(MIN_ENTRIES), [], Never);
            var h := Cycles(SCAN_EVERY - 1) + [cut] + [e];
            Counted(h) == SCAN_EVERY && Scans(h) == Missed(h) == 0
  {
    hide Cycles, IsNews;
    var cut, e := Wake(Some(MIN_ENTRIES), [], InCounterWrite), Wake(Some(MIN_ENTRIES), [], Never);
    var before := Cycles(SCAN_EVERY - 1);
    var middle := before + [cut];
    CyclesCount(SCAN_EVERY - 1);
    ScansCounted(before);
    HistoryGrows(before, cut);
    HistoryGrows(middle, e);
    assert LastSeen(middle) == 0;
    assert IsReset(before, cut) && Counter(middle) == 0;
    assert middle[..|before|] == before && (middle + [e])[..|middle|] == middle;
    assert Counted(middle) == SCAN_EVERY - 1;
    ScansCounted(middle + [e]);
    assert Lost(middle + [e]) == Lost(middle) == SCAN_EVERY - 1;
  }
}
