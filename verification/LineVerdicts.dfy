/** What the filter takes a line for, and which sections it drops, told by the
    characters of the lines (`src/brain/filter.rs`). */
module LineVerdicts {
  import opened Text
  import opened Sections
  import opened Filter
  import opened FilterExamples
  import FilterPasses

  // ----- markers ------------------------------------------------------------------------

  predicate IsWordChar(c: char) {
    'a' <= c <= 'z' || 'A' <= c <= 'Z' || '0' <= c <= '9' || c == '_'
  }

  /** The same letter, or the capital of it. */
  predicate SameLetter(c: char, small: char) {
    c == small || ('A' <= c <= 'Z' && c as int + 32 == small as int)
  }

  /** The word stands at position `p`, in any case, perhaps within another. */
  predicate StandsIn(t: string, word: string, p: nat) {
    p + |word| <= |t| && forall k :: 0 <= k < |word| ==> SameLetter(t[p + k], word[k])
  }

  /** It stands there for the first time, and as a word of its own. */
  predicate FirstAsWord(t: string, word: string, p: nat) {
    && StandsIn(t, word, p)
    && (p > 0 ==> !IsWordChar(t[p - 1]))
    && (p + |word| < |t| ==> !IsWordChar(t[p + |word|]))
    && forall q: nat :: q < p ==> !StandsIn(t, word, q)
  }

  /** One of the four markers does. */
  ghost predicate NamesMarker(t: string) {
    exists word: string, p: nat :: IsMarker(word) && FirstAsWord(t, word, p)
  }

  predicate IsMarker(word: string) {
    word == "tbd" || word == "todo" || word == "wip" || word == "placeholder"
  }

  lemma LowerAt(t: string, k: nat, small: char)
    requires k < |t| && !('A' <= small <= 'Z')
    ensures AsciiLower(t)[k] == small <==> SameLetter(t[k], small)
  {
  }

  lemma MarkersAreSmall(word: string)
    requires IsMarker(word)
    ensures forall k :: 0 <= k < |word| ==> !('A' <= word[k] <= 'Z')
    ensures exists k :: 0 <= k < |MARKERS| && MARKERS[k] == word
  {
    assert MARKERS[0] == "tbd" && MARKERS[1] == "todo" && MARKERS[2] == "wip" && MARKERS[3] == "placeholder";
  }

  lemma StandsIff(t: string, word: string, p: nat)
    requires IsMarker(word)
    ensures StandsIn(t, word, p) <==> OccursAt(AsciiLower(t), word, p)
  {
    MarkersAreSmall(word);
    hide AsciiLower, SameLetter;
    var lower := AsciiLower(t);
    if p + |word| <= |t| {
      forall k | 0 <= k < |word|
        ensures lower[p + k] == word[k] <==> SameLetter(t[p + k], word[k])
      {
        LowerAt(t, p + k, word[k]);
      }
      var part := lower[p..p + |word|];
      assert forall k :: 0 <= k < |word| ==> part[k] == lower[p + k];
      if StandsIn(t, word, p) {
        assert lower[p..p + |word|] == word;
      }
    }
  }

  lemma WordCharIff(t: string, k: nat)
    requires k < |t|
    ensures IsWordByte(AsciiLower(t)[k]) <==> IsWordChar(t[k])
  {
  }

  lemma FirstIff(t: string, word: string, p: nat)
    requires IsMarker(word)
    ensures FirstAsWord(t, word, p) <==> FirstWordAt(AsciiLower(t), word, p)
  {
    hide AsciiLower, IsWordByte, IsWordChar, IsMarker, StandsIn, OccursAt;
    forall q: nat
      ensures StandsIn(t, word, q) <==> OccursAt(AsciiLower(t), word, q)
    {
      StandsIff(t, word, q);
    }
    StandsFits(t, word, p);
    if StandsIn(t, word, p) {
      if p > 0 {
        WordCharIff(t, p - 1);
      }
      if p + |word| < |t| {
        WordCharIff(t, p + |word|);
      }
    }
  }

  lemma StandsFits(t: string, word: string, p: nat)
    ensures StandsIn(t, word, p) ==> p + |word| <= |t|
  {
  }

  /** The filter recognises exactly these lines as in flight. */
  lemma MarkerIff(t: string)
    ensures IsInFlightMarker(t) <==> NamesMarker(t)
  {
    hide AsciiLower, FirstAsWord, FirstWordAt, IsInFlightMarker, MARKERS;
    InFlightMarkerIff(t);
    if IsInFlightMarker(t) {
      var k: nat, p: nat :| k < |MARKERS| && FirstWordAt(AsciiLower(t), MARKERS[k], p);
      MarkerAt(k);
      FirstIff(t, MARKERS[k], p);
    }
    if NamesMarker(t) {
      var word, p: nat :| IsMarker(word) && FirstAsWord(t, word, p);
      FirstIff(t, word, p);
      MarkersAreSmall(word);
    }
  }

  lemma MarkerAt(k: nat)
    requires k < |MARKERS|
    ensures IsMarker(MARKERS[k])
  {
  }

  // ----- structural lines -----------------------------------------------------------------

  /** At least three of one of `-`, `*` and `_`, and only spaces between them. */
  ghost predicate IsRule(t: string) {
    && t != "" && t[0] in {'-', '*', '_'}
    && (forall k :: 0 <= k < |t| ==> t[k] == t[0] || t[k] == ' ')
    && exists a, b :: 0 < a < b < |t| && t[a] == t[b] == t[0]
  }

  predicate IsRuleCell(cell: string) {
    Trim(cell) != "" && forall c :: c in Trim(cell) ==> c == '-' || c == ':' || c == ' '
  }

  /** Bars at both ends, and between any two bars a cell of `-`, `:` and spaces. */
  predicate IsTableRule(t: string) {
    && |t| >= 2 && t[0] == '|' && t[|t| - 1] == '|'
    && forall cell :: cell in Split(t[1..|t| - 1], '|') ==> IsRuleCell(cell)
  }

  predicate IsComment(t: string) {
    |t| >= 4 && t[..4] == "<!--" && t[|t| - 3..] == "-->"
  }

  predicate IsShortQuote(t: string) {
    t != "" && t[0] == '>' && ByteLen(t) < 40
  }

  ghost predicate IsStructural(t: string) {
    IsRule(t) || IsTableRule(t) || IsComment(t) || IsShortQuote(t)
  }

  lemma {:induction false} CountAtLeast(s: string, c: char)
    ensures CountChar(s, c) >= 1 <==> c in s
  {
    if s != "" {
      CountAtLeast(s[1..], c);
      assert s == [s[0]] + s[1..];
    }
  }

  lemma {:induction false} CountTwo(s: string, c: char)
    ensures CountChar(s, c) >= 2 <==> exists a, b :: 0 <= a < b < |s| && s[a] == s[b] == c
  {
    if s != "" {
      var rest := s[1..];
      CountTwo(rest, c);
      CountAtLeast(rest, c);
      if s[0] == c && c in rest {
        var k :| 0 <= k < |rest| && rest[k] == c;
        assert s[0] == s[k + 1] == c;
      }
      if CountChar(rest, c) >= 2 {
        var a, b :| 0 <= a < b < |rest| && rest[a] == rest[b] == c;
        assert s[a + 1] == s[b + 1] == c;
      }
      if a, b :| 0 <= a < b < |s| && s[a] == s[b] == c {
        assert rest[b - 1] == c;
        if a > 0 {
          assert rest[a - 1] == rest[b - 1] == c;
        }
      }
    }
  }

  lemma RuleIff(t: string)
    ensures IsHorizontalRule(t) <==> IsRule(t)
  {
    ByteLenAtLeast(t);
    if t != "" {
      hide ByteLen;
      var rest := t[1..];
      CountTwo(rest, t[0]);
      assert CountChar(t, t[0]) == 1 + CountChar(rest, t[0]);
      if IsRule(t) {
        var a, b :| 0 < a < b < |t| && t[a] == t[b] == t[0];
        assert rest[a - 1] == rest[b - 1] == t[0];
      }
      if CountChar(rest, t[0]) >= 2 {
        var a, b :| 0 <= a < b < |rest| && rest[a] == rest[b] == t[0];
        assert t[a + 1] == t[b + 1] == t[0];
      }
    } else {
      assert ByteLen("") == 0;
    }
  }

  lemma TableIff(t: string)
    ensures IsTableSeparator(t) == Done(true) <==> IsTableRule(t)
    ensures IsTableSeparator(t) == Panic <==> t == "|"
  {
    hide Trim, Split;
    if |t| >= 2 {
      var cells := Split(t[1..|t| - 1], '|');
      forall cell | cell in cells
        ensures IsSeparatorCell(cell) <==> IsRuleCell(cell)
      {
        CellIff(cell);
      }
      assert forall k :: 0 <= k < |cells| ==> cells[k] in cells;
    } else if t != "" && t[0] == '|' {
      assert t == "|";
    }
  }

  lemma CellIff(cell: string)
    ensures IsSeparatorCell(cell) <==> IsRuleCell(cell)
  {
    hide Trim;
    var c := Trim(cell);
    assert forall k :: 0 <= k < |c| ==> c[k] in c;
  }

  lemma StructuralIff(t: string)
    ensures IsStructuralOnly(t) == Panic <==> t == "|"
    ensures IsStructuralOnly(t) == Done(true) <==> IsStructural(t)
  {
    hide IsHorizontalRule, IsTableSeparator, IsRule, IsTableRule, ByteLen;
    RuleIff(t);
    TableIff(t);
    CommentIff(t);
    BarIsNoRule();
  }

  lemma CommentIff(t: string)
    ensures IsHtmlCommentOnly(t) <==> IsComment(t)
  {
  }

  lemma BarIsNoRule()
    ensures !IsRule("|") && !IsTableRule("|") && !IsComment("|") && !IsShortQuote("|")
  {
  }

  // ----- verdicts ---------------------------------------------------------------------------

  /** A header of level `n`. */
  predicate IsHeaderOf(line: string, n: nat) {
    2 <= n <= 6 && IsAtx(line, n)
  }

  /** A line that leaves a section empty. */
  ghost predicate IsQuiet(line: string) {
    var t := Trim(line);
    t == "" || (!NamesMarker(t) && IsStructural(t))
  }

  lemma TagIff(line: string, n: nat)
    ensures TagOf(line) == Header(n) <==> IsHeaderOf(line, n)
  {
    hide LineKind, HeaderLevel, IsAtx;
    if 2 <= n <= 6 {
      HeaderLevelIff(line, n);
    }
    assert TagOf(line).Header? ==> TagOf(line) == Header(HeaderLevel(line));
  }

  /** The verdict on any line, by its characters: blank and structural lines
      without a marker are quiet, a lone bar aborts, and all else is content. */
  lemma KindIff(line: string)
    ensures LineKind(line) == Quiet <==> IsQuiet(line)
    ensures LineKind(line) == Crash <==> Trim(line) == "|"
    ensures LineKind(line) == Content <==> !IsQuiet(line) && Trim(line) != "|"
  {
    hide Trim, IsInFlightMarker, NamesMarker, IsStructuralOnly, IsStructural;
    var t := Trim(line);
    MarkerIff(t);
    StructuralIff(t);
    CrashIff(line);
    BarIsNoRule();
    assert !IsStructural("|") by {
      BarIsNotStructural();
    }
  }

  lemma BarIsNotStructural()
    ensures !IsStructural("|")
  {
    BarIsNoRule();
  }

  lemma QuietIff(line: string)
    ensures TagOf(line) == Body(Quiet) <==> IsQuiet(line)
    ensures TagOf(line) == Body(Content) <==>
            !IsQuiet(line) && Trim(line) != "|" && forall n: nat :: !IsHeaderOf(line, n)
    ensures TagOf(line) == Body(Crash) <==> Trim(line) == "|"
  {
    hide Trim, IsQuiet, LineKind, HeaderLevel, IsHeaderOf;
    KindIff(line);
    KindOfTag(line);
    if TagOf(line).Header? {
      TagIff(line, TagOf(line).level);
      HeaderIsContent(line);
    } else {
      forall n: nat
        ensures !IsHeaderOf(line, n)
      {
        TagIff(line, n);
      }
    }
  }

  // ----- sections -----------------------------------------------------------------------------

  /** Line `j` lies below the header of level `n` at line `i`, before the next
      header of that level or a higher rank. */
  ghost predicate Below(lines: seq<string>, i: nat, n: nat, j: nat) {
    && i < j < |lines|
    && forall k: nat, m: nat :: i < k <= j && IsHeaderOf(lines[k], m) ==> m > n
  }

  /** The section of the header at line `i` has nothing but quiet lines. */
  ghost predicate IsEmptySection(lines: seq<string>, i: nat) {
    && i < |lines|
    && exists n: nat :: IsHeaderOf(lines[i], n) && forall j: nat :: Below(lines, i, n, j) ==> IsQuiet(lines[j])
  }

  /** A lone bar is reached below the header through quiet lines only. */
  ghost predicate ReachesBar(lines: seq<string>, i: nat) {
    && i < |lines|
    && exists n: nat, j: nat ::
         IsHeaderOf(lines[i], n) && Below(lines, i, n, j) && Trim(lines[j]) == "|" && AllQuiet(lines, i, j)
  }

  lemma BelowIff(lines: seq<string>, i: nat, n: nat, j: nat)
    requires i < |lines| && Tags(lines)[i] == Header(n)
    ensures Below(lines, i, n, j) <==> i < j < RegionEnd(Tags(lines), i)
  {
    hide TagOf, IsHeaderOf;
    var tags := Tags(lines);
    forall k | 0 <= k < |lines|
      ensures AtMost(tags[k], n) <==> exists m: nat :: m <= n && IsHeaderOf(lines[k], m)
    {
      AtMostIff(lines[k], n);
    }
  }

  lemma AtMostIff(line: string, n: nat)
    ensures AtMost(TagOf(line), n) <==> exists m: nat :: m <= n && IsHeaderOf(line, m)
  {
    hide TagOf, IsHeaderOf;
    if AtMost(TagOf(line), n) {
      TagIff(line, TagOf(line).level);
    }
    if m: nat :| m <= n && IsHeaderOf(line, m) {
      TagIff(line, m);
    }
  }

  /** A header is dropped exactly when its section is empty, and the scan below it
      aborts exactly when it reaches a lone bar. */
  lemma DropsIff(lines: seq<string>, i: nat)
    requires i < |lines|
    ensures Drops(Tags(lines), i) <==> IsEmptySection(lines, i)
    ensures CrashesAt(Tags(lines), i) <==> ReachesBar(lines, i)
  {
    hide TagOf, IsHeaderOf, IsQuiet, Trim, Below;
    var tags := Tags(lines);
    forall n: nat
      ensures tags[i] == Header(n) <==> IsHeaderOf(lines[i], n)
    {
      TagIff(lines[i], n);
    }
    if tags[i].Header? {
      var n, e := tags[i].level, RegionEnd(tags, i);
      forall j: nat
        ensures Below(lines, i, n, j) <==> i < j < e
      {
        BelowIff(lines, i, n, j);
      }
      RegionVerdict(lines, i, e);
    }
  }

  ghost predicate AllQuiet(lines: seq<string>, i: nat, e: nat)
    requires e <= |lines|
  {
    forall j :: i < j < e ==> IsQuiet(lines[j])
  }

  ghost predicate BarFirst(lines: seq<string>, i: nat, e: nat)
    requires e <= |lines|
  {
    exists j: nat :: i < j < e && Trim(lines[j]) == "|" && AllQuiet(lines, i, j)
  }

  lemma RegionVerdict(lines: seq<string>, i: nat, e: nat)
    requires i < e <= |lines|
    ensures var body := Tags(lines)[i + 1..e];
            && (ScanKind(body) == Quiet <==> AllQuiet(lines, i, e))
            && (ScanKind(body) == Crash <==> BarFirst(lines, i, e))
    decreases e - i
  {
    hide TagOf, IsQuiet, Trim;
    var body := Tags(lines)[i + 1..e];
    if i + 1 < e {
      RegionVerdict(lines, i + 1, e);
      assert body[1..] == Tags(lines)[i + 2..e];
      QuietIff(lines[i + 1]);
      BarIsNotQuiet(lines[i + 1]);
      KindOfTag(lines[i + 1]);
      VerdictStep(lines, i, e);
    }
  }

  lemma BarIsNotQuiet(line: string)
    ensures Trim(line) == "|" ==> !IsQuiet(line)
  {
    hide Trim, NamesMarker, IsStructural;
    BarIsNotStructural();
  }

  lemma VerdictStep(lines: seq<string>, i: nat, e: nat)
    requires i + 1 < e <= |lines| && (Trim(lines[i + 1]) == "|" ==> !IsQuiet(lines[i + 1]))
    ensures AllQuiet(lines, i, e) <==> IsQuiet(lines[i + 1]) && AllQuiet(lines, i + 1, e)
    ensures BarFirst(lines, i, e) <==>
            Trim(lines[i + 1]) == "|" || (IsQuiet(lines[i + 1]) && BarFirst(lines, i + 1, e))
  {
    hide IsQuiet, Trim;
    if Trim(lines[i + 1]) == "|" {
      assert AllQuiet(lines, i, i + 1);
    }
    if IsQuiet(lines[i + 1]) && BarFirst(lines, i + 1, e) {
      var j: nat :| i + 1 < j < e && Trim(lines[j]) == "|" && AllQuiet(lines, i + 1, j);
      assert AllQuiet(lines, i, j);
    }
    if BarFirst(lines, i, e) {
      var j: nat :| i < j < e && Trim(lines[j]) == "|" && AllQuiet(lines, i, j);
      if j > i + 1 {
        assert AllQuiet(lines, i + 1, j);
      }
    }
  }

  // ----- the call ------------------------------------------------------------------------------

  /** Line `j` is a header with an empty section, or below one. */
  ghost predicate Goes(lines: seq<string>, j: nat) {
    exists i: nat :: i <= j && IsEmptySection(lines, i) && (i == j || LiesBelow(lines, i, j))
  }

  ghost predicate LiesBelow(lines: seq<string>, i: nat, j: nat) {
    i < |lines| && exists n: nat :: IsHeaderOf(lines[i], n) && Below(lines, i, n, j)
  }

  /** The lines that stay, from line `i` on. */
  ghost function Staying(lines: seq<string>, i: nat): seq<string>
    requires i <= |lines|
    decreases |lines| - i
  {
    if i == |lines| then []
    else if Goes(lines, i) then Staying(lines, i + 1)
    else [lines[i]] + Staying(lines, i + 1)
  }

  /** The headers that go, from line `i` on. */
  ghost function GoingHeaders(lines: seq<string>, i: nat): seq<string>
    requires i <= |lines|
    decreases |lines| - i
  {
    if i == |lines| then []
    else (if IsEmptySection(lines, i) then [lines[i]] else []) + GoingHeaders(lines, i + 1)
  }

  lemma GoesIff(lines: seq<string>, j: nat)
    requires j < |lines|
    ensures Dropped(Tags(lines), j) <==> Goes(lines, j)
  {
    hide TagOf, IsHeaderOf, Below, IsEmptySection, Dropped;
    var tags := Tags(lines);
    DroppedIffInEmptyRegion(tags, j);
    forall i: nat | i <= j
      ensures Drops(tags, i) <==> IsEmptySection(lines, i)
      ensures Drops(tags, i) && i < j ==> (j < RegionEnd(tags, i) <==> LiesBelow(lines, i, j))
    {
      DropsIff(lines, i);
      if Drops(tags, i) && i < j {
        forall n: nat
          ensures tags[i] == Header(n) <==> IsHeaderOf(lines[i], n)
        {
          TagIff(lines[i], n);
        }
        BelowIff(lines, i, tags[i].level, j);
      }
    }
  }

  lemma {:induction false} StayingIs(lines: seq<string>, i: nat)
    requires i <= |lines|
    ensures Keep(lines, Tags(lines), i, |lines|) == Staying(lines, i)
    decreases |lines| - i
  {
    hide TagOf, Goes, Dropped;
    if i < |lines| {
      StayingIs(lines, i + 1);
      GoesIff(lines, i);
    }
  }

  lemma {:induction false} HeadersGo(lines: seq<string>, i: nat)
    requires i <= |lines|
    ensures DroppedHeaders(lines, Tags(lines), |lines|) ==
            DroppedHeaders(lines, Tags(lines), i) + GoingHeaders(lines, i)
    decreases |lines| - i
  {
    hide TagOf, IsEmptySection, Drops;
    if i < |lines| {
      HeadersGo(lines, i + 1);
      DropsIff(lines, i);
      SeqAssoc(DroppedHeaders(lines, Tags(lines), i),
               if IsEmptySection(lines, i) then [lines[i]] else [], GoingHeaders(lines, i + 1));
    }
  }

  /** What a call returns, by the characters of the lines, for any text: it aborts
      exactly if some header's scan reaches a lone bar; else it gives back the text
      if no section is empty, and otherwise the lines that stay, joined. */
  lemma StripIs(content: string)
    ensures var lines := Lines(content);
            && (Crashes(Tags(lines)) <==> exists i: nat :: ReachesBar(lines, i))
            && Stripped(content).strippedHeaders == GoingHeaders(lines, 0)
            && (Stripped(content).content ==
                  if forall i: nat :: !IsEmptySection(lines, i) then content
                  else
                    var out := Join(Staying(lines, 0), "\n");
                    if EndsWith(content, '\n') && !EndsWith(out, '\n') then out + "\n" else out)
  {
    hide TagOf, Lines, IsEmptySection, ReachesBar, Staying, GoingHeaders, Join, Drops;
    var lines := Lines(content);
    forall i: nat | i < |lines|
      ensures Drops(Tags(lines), i) <==> IsEmptySection(lines, i)
      ensures CrashesAt(Tags(lines), i) <==> ReachesBar(lines, i)
    {
      DropsIff(lines, i);
    }
    OnlyLines(lines);
    StayingIs(lines, 0);
    HeadersGo(lines, 0);
    assert DroppedHeaders(lines, Tags(lines), 0) == [];
    assert [] + GoingHeaders(lines, 0) == GoingHeaders(lines, 0);
  }

  lemma OnlyLines(lines: seq<string>)
    ensures forall i: nat :: IsEmptySection(lines, i) || ReachesBar(lines, i) ==> i < |lines|
  {
  }

  /** A header stays if a line with such a marker lies below it, and so does the
      line, if it is no header itself. */
  lemma MarkerStays(lines: seq<string>, i: nat, j: nat)
    requires LiesBelow(lines, i, j) && NamesMarker(Trim(lines[j])) && Trim(lines[j]) != ""
    ensures !Goes(lines, i)
    ensures (forall n: nat :: !IsHeaderOf(lines[j], n)) ==> !Goes(lines, j)
  {
    hide IsHeaderOf, NamesMarker, Trim;
    LoudStays(lines, i, j);
  }

  lemma EmptyBelow(lines: seq<string>, i: nat, j: nat)
    requires IsEmptySection(lines, i) && LiesBelow(lines, i, j)
    ensures IsQuiet(lines[j])
  {
    hide IsHeaderOf, IsQuiet;
    forall n: nat
      ensures TagOf(lines[i]) == Header(n) <==> IsHeaderOf(lines[i], n)
    {
      TagIff(lines[i], n);
    }
    hide TagOf;
  }

  lemma LoudStays(lines: seq<string>, i: nat, j: nat)
    requires LiesBelow(lines, i, j) && !IsQuiet(lines[j])
    ensures !Goes(lines, i)
    ensures (forall n: nat :: !IsHeaderOf(lines[j], n)) ==> !Goes(lines, j)
  {
    hide IsHeaderOf, IsQuiet, LiesBelow;
    HeaderIsLoud(lines, i, j);
    forall k: nat, l: nat | IsEmptySection(lines, k) && LiesBelow(lines, k, l)
      ensures IsQuiet(lines[l])
    {
      EmptyBelow(lines, k, l);
    }
  }

  lemma HeaderIsLoud(lines: seq<string>, i: nat, j: nat)
    requires LiesBelow(lines, i, j)
    ensures i < j < |lines| && !IsQuiet(lines[i])
    ensures forall k: nat, l: nat :: LiesBelow(lines, k, l) ==> l < |lines|
  {
    hide IsHeaderOf, IsQuiet;
    var n: nat :| IsHeaderOf(lines[i], n) && Below(lines, i, n, j);
    TagIff(lines[i], n);
    QuietIff(lines[i]);
  }
}
