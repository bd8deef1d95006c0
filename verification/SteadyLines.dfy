/** Which lines the filter (`src/brain/filter.rs`) sees differently once a
    carriage return at their end is gone. */
module SteadyLines {
  import opened Text
  import opened Sections
  import opened Filter

  /** Blanks, two to six hashes, and then only carriage returns, at least one:
      no header as it stands, but one when the returns are gone. */
  predicate Fading(line: string) {
    var t := TrimStart(line);
    var n := LeadingHashes(t);
    && 2 <= n <= 6 && n < |t|
    && forall k :: n <= k < |t| ==> t[k] == '\r'
  }

  /** A text without such a line. */
  ghost predicate Steady(content: string) {
    SteadyAll(Lines(content))
  }

  ghost predicate SteadyAll(lines: seq<string>) {
    forall l :: l in lines ==> !Fading(l)
  }

  lemma ReturnIsBlank()
    ensures IsWhitespace('\r') && !IsWhitespace('#')
  {
  }

  /** A blank at the end is in the way of trimming the start only if there is
      nothing else. */
  lemma {:induction false} TrimStartFront(s: string)
    requires s != "" && IsWhitespace(s[|s| - 1])
    ensures var t := TrimStart(s);
            && TrimStart(s[..|s| - 1]) == (if t == "" then "" else t[..|t| - 1])
            && (t != "" ==> |t| >= 2 && t[|t| - 1] == s[|s| - 1] && !IsWhitespace(t[0]))
  {
    hide IsWhitespace;
    var front := s[..|s| - 1];
    if IsWhitespace(s[0]) {
      if |s| > 1 {
        TrimStartFront(s[1..]);
        assert s[1..][..|s| - 2] == front[1..];
      }
    }
  }

  lemma LevelOfFront(t: string)
    requires |t| >= 2 && t[|t| - 1] == '\r'
    ensures var f := t[..|t| - 1]; LeadingHashes(f) == LeadingHashes(t) <= |f|
  {
    var n := LeadingHashes(t);
    HashesStop(t);
    HashesAre(t[..|t| - 1], n);
  }

  /** Dropping the carriage return at the end changes the tag of no other line,
      and makes no line fading. */
  lemma TagSteady(line: string)
    requires EndsWith(line, '\r') && !Fading(line)
    ensures TagOf(StripCR(line)) == TagOf(line) && !Fading(StripCR(line))
  {
    hide IsWhitespace, TrimStart, LeadingHashes, LineKind;
    ReturnIsBlank();
    TrimStartFront(line);
    var front := StripCR(line);
    assert front == line[..|line| - 1];
    var t := TrimStart(line);
    KindSteady(line);
    if t != "" {
      LevelOfFront(t);
      var n, f := LeadingHashes(t), t[..|t| - 1];
      assert TrimStart(front) == f && LeadingHashes(f) == n;
      assert forall k :: n <= k < |f| ==> f[k] == t[k];
    }
  }

  lemma KindSteady(line: string)
    requires EndsWith(line, '\r')
    ensures LineKind(StripCR(line)) == LineKind(line)
  {
    hide IsWhitespace, IsInFlightMarker, IsStructuralOnly, TrimStart;
    ReturnIsBlank();
    TrimStartFront(line);
    assert StripCR(line) == line[..|line| - 1];
    assert Trim(StripCR(line)) == Trim(line);
  }

  /** A fading line is content, whatever the number of its carriage returns,
      and with none of them it is a header. */
  lemma FadingIsContent(line: string)
    requires Fading(line)
    ensures TagOf(line) == Body(Content)
  {
    hide IsInFlightMarker, IsWhitespace;
    ReturnIsBlank();
    var t := TrimStart(line);
    assert t[0] == '#';
    TrimEndKeepsFront(t);
    NumberSignIsContent(Trim(line));
  }

  /** Lines as they are read back: some have lost a carriage return. */
  ghost predicate ReadsAs(read: seq<string>, lines: seq<string>) {
    && |read| == |lines|
    && forall i :: 0 <= i < |lines| ==> read[i] == lines[i] || read[i] == StripCR(lines[i])
  }

  lemma SteadyTags(read: seq<string>, lines: seq<string>)
    requires ReadsAs(read, lines) && SteadyAll(lines)
    ensures Tags(read) == Tags(lines) && SteadyAll(read)
  {
    hide TagOf, Fading;
    forall i | 0 <= i < |lines|
      ensures TagOf(read[i]) == TagOf(lines[i]) && !Fading(read[i])
    {
      assert lines[i] in lines;
      if read[i] != lines[i] {
        TagSteady(lines[i]);
      }
    }
  }

  /** In particular every text with LF or CRLF line ends only is steady. */
  lemma TidyIsSteady(content: string)
    requires Tidy(content)
    ensures Steady(content)
  {
    hide Fading;
    forall l | l in Lines(content)
      ensures !Fading(l)
    {
      FadingEnds(l);
    }
  }

  lemma FadingEnds(line: string)
    ensures Fading(line) ==> EndsWith(line, '\r')
  {
    TrimStartSuffix(line);
  }

  lemma {:induction false} TrimStartSuffix(s: string)
    ensures var t := TrimStart(s); |t| <= |s| && t == s[|s| - |t|..]
  {
    hide IsWhitespace;
    if s != "" && IsWhitespace(s[0]) {
      TrimStartSuffix(s[1..]);
    }
  }

  // ----- a fading line is a header line and carriage returns --------------------------

  function Returns(n: nat): string {
    seq(n, i => '\r')
  }

  /** Blanks and two to six hashes, in one line. */
  predicate IsCore(core: string) {
    var t := TrimStart(core);
    && '\n' !in core
    && 2 <= |t| <= 6
    && forall k :: 0 <= k < |t| ==> t[k] == '#'
  }

  lemma FadingIs(line: string) returns (core: string, n: nat)
    requires Fading(line) && '\n' !in line
    ensures IsCore(core) && n > 0 && line == core + Returns(n)
  {
    hide IsWhitespace, TrimStart;
    var t := TrimStart(line);
    TrimStartSuffix(line);
    n := |t| - LeadingHashes(t);
    core := line[..|line| - n];
    TailIsReturns(line, t, n);
    assert line == core + Returns(n);
    TrimStartKeeps(core, Returns(n), t);
  }

  lemma TailIsReturns(line: string, t: string, n: nat)
    requires n <= |t| <= |line| && t == line[|line| - |t|..]
    requires forall k :: |t| - n <= k < |t| ==> t[k] == '\r'
    ensures line[|line| - n..] == Returns(n)
  {
    var tail := line[|line| - n..];
    forall k | 0 <= k < n
      ensures tail[k] == '\r'
    {
      assert tail[k] == t[|t| - n + k];
    }
  }

  /** The start is trimmed alike whatever follows. */
  lemma {:induction false} TrimStartKeeps(s: string, tail: string, t: string)
    requires t == TrimStart(s + tail) && |t| > |tail|
    ensures TrimStart(s) == t[..|t| - |tail|] && t == TrimStart(s) + tail
  {
    hide IsWhitespace;
    if s == "" {
      assert s + tail == tail;
      TrimStartSuffix(tail);
    } else if IsWhitespace(s[0]) {
      assert (s + tail)[1..] == s[1..] + tail;
      TrimStartKeeps(s[1..], tail, t);
    } else {
      assert t == s + tail;
    }
  }

  lemma {:induction false} TrimStartAppend(s: string, tail: string)
    requires TrimStart(s) != ""
    ensures TrimStart(s + tail) == TrimStart(s) + tail
  {
    hide IsWhitespace;
    if IsWhitespace(s[0]) {
      assert (s + tail)[1..] == s[1..] + tail;
      TrimStartAppend(s[1..], tail);
    }
  }

  /** With carriage returns it is content, without any a header. */
  lemma CoreTag(core: string, k: nat)
    requires IsCore(core)
    ensures k > 0 ==> Fading(core + Returns(k)) && TagOf(core + Returns(k)) == Body(Content)
    ensures TagOf(core) == Header(|TrimStart(core)|)
    ensures core + Returns(0) == core
  {
    hide IsWhitespace, LineKind;
    var t := TrimStart(core);
    HashesAre(t, |t|);
    assert core + Returns(0) == core;
    if k > 0 {
      TrimStartAppend(core, Returns(k));
      HashesAre(t + Returns(k), |t|);
      FadingIsContent(core + Returns(k));
    }
  }

  // ----- lines that are headers or may become some -----------------------------------

  predicate MayHead(line: string) {
    IsHeader(line) || Fading(line)
  }

  function HeadLines(lines: seq<string>): nat {
    if lines == [] then 0 else (if MayHead(lines[0]) then 1 else 0) + HeadLines(lines[1..])
  }

  /** Reading lines back makes no more of them. */
  lemma {:induction false} HeadLinesRead(read: seq<string>, lines: seq<string>)
    requires ReadsAs(read, lines)
    ensures HeadLines(read) <= HeadLines(lines)
  {
    hide MayHead;
    if lines != [] {
      var r, l := read[1..], lines[1..];
      assert forall i :: 0 <= i < |l| ==> r[i] == read[i + 1] && l[i] == lines[i + 1];
      HeadLinesRead(r, l);
      assert read[0] == lines[0] || read[0] == StripCR(lines[0]);
      MayHeadStripped(lines[0]);
    }
  }

  lemma MayHeadStripped(line: string)
    ensures MayHead(StripCR(line)) ==> MayHead(line)
  {
    hide HeaderLevel, LineKind, Fading, StripCR;
    if EndsWith(line, '\r') && !Fading(line) {
      TagSteady(line);
      TagOfHeader(line);
      TagOfHeader(StripCR(line));
    }
  }

  lemma TagOfHeader(line: string)
    ensures TagOf(line).Header? <==> IsHeader(line)
  {
    hide HeaderLevel, LineKind;
  }

  lemma {:induction false} HeadLinesBlank(lines: seq<string>)
    ensures HeadLines(lines + [""]) == HeadLines(lines)
  {
    hide MayHead;
    BlankIsNoHead();
    if lines == [] {
      assert lines + [""] == [""] && [""][1..] == [];
    } else {
      assert (lines + [""])[1..] == lines[1..] + [""];
      HeadLinesBlank(lines[1..]);
    }
  }

  lemma BlankIsNoHead()
    ensures !MayHead("")
  {
  }
}
