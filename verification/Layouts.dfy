/** Sidecar files in other layouts than the one that is written: by hand, or by an
    older version (`src/brain/rsi_pruned.rs`). */
module Layouts {
  import opened Text
  import opened Pruned
  import opened MovedArray
  import opened MovedPairs
  import opened Sidecar
  import Numbers

  // ----- arrays of pairs ----------------------------------------------------------------

  /** A pair as it is written. */
  function PairText(e: MovedEntry): string {
    "[" + Quote(e.header) + ", " + Quote(e.dest) + "]"
  }

  /** What may stand between two pairs: anything without brackets. */
  predicate IsGap(gap: string) {
    '[' !in gap && ']' !in gap
  }

  /** Pairs, each behind some gap. */
  function Laid(entries: seq<MovedEntry>, gaps: seq<string>): string
    requires |gaps| == |entries|
  {
    if entries == [] then "" else gaps[0] + PairText(entries[0]) + Laid(entries[1..], gaps[1..])
  }

  lemma {:induction false} ScanGap(s: Scanner, gap: string)
    requires s.depth < 2 && IsGap(gap)
    ensures ScanAll(s, gap) == s
    decreases gap
  {
    if gap != "" {
      ScanGap(s, gap[1..]);
    }
  }

  lemma ScanPair(raws: seq<string>, e: MovedEntry) returns (raw: string)
    requires PairNesting(e) == Some(2)
    ensures ScanAll(Scanner(1, "", raws), PairText(e)) == Scanner(1, "", raws + [raw]) && PairOf(raw) == Some(e)
  {
    hide ScanAll, PairOf, Quote, PairNesting;
    var s := Scanner(1, "", raws);
    RowOutcome(raws, e);
    raw :| ScanAll(s, Row(e) + "\n") == Scanner(1, "", raws + [raw]) && PairOf(raw) == Some(e);
    assert Row(e) + "\n" == "  " + (PairText(e) + ",\n");
    ScanConcat(s, "  ", PairText(e) + ",\n");
    ScanGap(s, "  ");
    ScanConcat(s, PairText(e), ",\n");
    CommaAndBreak(ScanAll(s, PairText(e)));
  }

  /** Neither of the two characters closes anything. */
  lemma CommaAndBreak(s: Scanner)
    requires ScanAll(s, ",\n").depth == 1
    ensures ScanAll(s, ",\n") == s
  {
    assert ",\n"[1..] == "\n" && "\n"[1..] == "";
  }

  lemma {:induction false} ScanLaid(raws: seq<string>, entries: seq<MovedEntry>, gaps: seq<string>)
    requires |gaps| == |entries| && forall i :: 0 <= i < |gaps| ==> IsGap(gaps[i])
    requires forall i :: 0 <= i < |entries| ==> PairNesting(entries[i]) == Some(2)
    ensures var r := ScanAll(Scanner(1, "", raws), Laid(entries, gaps));
            r.depth == 1 && r.current == "" && PairsIn(r.raws) == PairsIn(raws) + entries
    decreases entries
  {
    hide ScanAll, PairNesting, PairText, PairOf, PairsIn, IsGap;
    var s := Scanner(1, "", raws);
    if entries == [] {
      ScanNothing(s);
      assert PairsIn(raws) + entries == PairsIn(raws);
    } else {
      var e, rest := entries[0], Laid(entries[1..], gaps[1..]);
      ScanConcat(s, gaps[0] + PairText(e), rest);
      ScanConcat(s, gaps[0], PairText(e));
      ScanGap(s, gaps[0]);
      var raw := ScanPair(raws, e);
      PairsMore(raws, raw);
      ScanLaid(raws + [raw], entries[1..], gaps[1..]);
      assert entries == [e] + entries[1..];
      SeqAssoc(PairsIn(raws), [e], entries[1..]);
    }
  }

  /** However an array of pairs is laid out, on one line or many, balanced pairs are
      read as they are. */
  lemma LaidOutPairs(entries: seq<MovedEntry>, gaps: seq<string>, before: string, last: string, after: string)
    requires |gaps| == |entries| && forall i :: 0 <= i < |gaps| ==> IsGap(gaps[i])
    requires IsGap(before) && IsGap(last) && IsGap(after)
    requires forall i :: 0 <= i < |entries| ==> PairNesting(entries[i]) == Some(2)
    ensures PairsOf(before + ("[" + (Laid(entries, gaps) + (last + ("]" + after))))) == entries
  {
    hide ScanAll, PairNesting, PairText, PairOf, PairsIn, IsGap;
    var start := Scanner(0, "", []);
    var pairs := Laid(entries, gaps);
    ScanConcat(start, before, "[" + (pairs + (last + ("]" + after))));
    ScanGap(start, before);
    ScanConcat(start, "[", pairs + (last + ("]" + after)));
    Brackets([]);
    ScanConcat(Scanner(1, "", []), pairs, last + ("]" + after));
    ScanLaid([], entries, gaps);
    var r := ScanAll(Scanner(1, "", []), pairs);
    ScanConcat(r, last, "]" + after);
    ScanGap(r, last);
    ScanConcat(r, "]", after);
    Brackets(r.raws);
    ScanGap(Scanner(0, "", r.raws), after);
    NoPairs();
    assert [] + entries == entries;
  }

  lemma NoPairs()
    ensures PairsIn([]) == []
  {
  }

  lemma Brackets(raws: seq<string>)
    ensures ScanAll(Scanner(0, "", raws), "[") == Scanner(1, "", raws)
    ensures ScanAll(Scanner(1, "", raws), "]") == Scanner(0, "", raws)
  {
    assert "["[1..] == "" && "]"[1..] == "";
  }

  /** A moved array on one line of a section. */
  lemma OneLineMoved(s: ParseState, f: string, entries: seq<MovedEntry>, gaps: seq<string>, last: string)
    requires s.buffer.None? && s.file == Some(f)
    requires |gaps| == |entries| && forall i :: 0 <= i < |gaps| ==> IsGap(gaps[i])
    requires IsGap(last) && forall i :: 0 <= i < |entries| ==> PairNesting(entries[i]) == Some(2)
    ensures ParseLine(s, "moved = " + ("[" + Laid(entries, gaps) + last + "]")) ==
            s.(data := SetMoved(s.data, f, entries))
  {
    hide ParseLine, PairsOf, Assign, Laid, PairNesting, Solid, IsGap;
    var value := "[" + Laid(entries, gaps) + last + "]";
    BracketsSolid(Laid(entries, gaps) + last);
    assert value == "[" + (Laid(entries, gaps) + last) + "]";
    MovedWord();
    assert "moved" + " = " + value == "moved = " + value;
    KeyLine(s, f, "moved", value);
    AssignMoved(s, f, value);
    NoGap();
    LaidOutPairs(entries, gaps, "", last, "");
    assert "" + ("[" + (Laid(entries, gaps) + (last + ("]" + "")))) == value;
  }

  lemma BracketsSolid(inner: string)
    ensures Solid("[" + inner + "]")
  {
    hide IsWhitespace;
    RowEnds();
  }

  lemma AssignMoved(s: ParseState, f: string, value: string)
    requires value != "" && value[0] == '[' && value[|value| - 1] == ']'
    ensures Assign(s, f, "moved", value) == s.(data := SetMoved(s.data, f, PairsOf(value)))
  {
    hide PairsOf, StringsOf, TrimQuotes;
    MovedWord();
  }

  lemma NoGap()
    ensures IsGap("")
  {
  }

  lemma MovedWord()
    ensures Solid("moved") && '=' !in "moved" && "moved"[0] == 'm' && "moved" != "pruned" && "moved" != "pruned_at"
  {
    assert |"moved"| == 5 && |"pruned"| == 6 && |"pruned_at"| == 9;
  }

  // ----- lines ----------------------------------------------------------------------------

  predicate IsBlank(text: string) {
    forall c :: c in text ==> IsWhitespace(c)
  }

  lemma {:induction false} TrimTrailing(s: string, blank: string)
    requires IsBlank(blank)
    ensures TrimEnd(s + blank) == TrimEnd(s)
    decreases |blank|
  {
    hide IsWhitespace;
    if blank == "" {
      assert s + blank == s;
    } else {
      var front, last := blank[..|blank| - 1], blank[|blank| - 1];
      assert last in blank;
      assert (s + blank)[|s + blank| - 1] == last && (s + blank)[..|s + blank| - 1] == s + front;
      TrimTrailing(s, front);
    }
  }

  lemma {:induction false} TrimStartTail(s: string, blank: string)
    ensures TrimStart(s + blank) == if TrimStart(s) == "" then TrimStart(blank) else TrimStart(s) + blank
    decreases s
  {
    hide IsWhitespace;
    if s == "" {
      assert s + blank == blank;
    } else if IsWhitespace(s[0]) {
      assert (s + blank)[1..] == s[1..] + blank;
      TrimStartTail(s[1..], blank);
    }
  }

  lemma {:induction false} BlankTrims(blank: string)
    requires IsBlank(blank)
    ensures TrimStart(blank) == ""
  {
    hide IsWhitespace;
    if blank != "" {
      assert blank[0] in blank;
      BlankTrims(blank[1..]);
    }
  }

  lemma TrimPadded(left: string, s: string, right: string)
    requires IsBlank(left) && IsBlank(right)
    ensures Trim(left + s + right) == Trim(s)
  {
    hide IsWhitespace, TrimStart, TrimEnd;
    assert left + s + right == left + (s + right);
    TrimLeadingBlanks(left, s + right);
    TrimStartTail(s, right);
    BlankTrims(right);
    TrimTrailing(TrimStart(s), right);
    TrimEndNothing();
  }

  lemma TrimEndNothing()
    ensures TrimEnd("") == ""
  {
  }

  /** Outside of unfinished arrays, blanks around a line make no difference. */
  lemma PaddedLine(s: ParseState, left: string, line: string, right: string)
    requires s.buffer.None? && IsBlank(left) && IsBlank(right)
    ensures ParseLine(s, left + line + right) == ParseLine(s, line)
  {
    hide Trim, SplitOnce, SchemaLine, IsSection, Assign;
    TrimPadded(left, line, right);
  }

  /** A line that names the schema version, perhaps. */
  predicate NamesVersion(line: string) {
    var parts := SplitOnce(Trim(line));
    parts.Some? && Trim(parts.value.0) == "schema_version"
  }

  lemma SameVersion(s: ParseState, line: string)
    requires !NamesVersion(line)
    ensures ParseLine(s, line).data.schemaVersion == s.data.schemaVersion
  {
    hide Trim, SplitOnce, PairsOf, StringsOf, TrimQuotes, Numbers.Parse, IsSection;
  }

  lemma {:induction false} SameVersions(s: ParseState, lines: seq<string>)
    requires forall l :: l in lines ==> !NamesVersion(l)
    ensures ParseLines(s, lines).data.schemaVersion == s.data.schemaVersion
    decreases lines
  {
    hide ParseLine, NamesVersion;
    if lines != [] {
      assert lines[0] in lines;
      SameVersion(s, lines[0]);
      SameVersions(ParseLine(s, lines[0]), lines[1..]);
    }
  }

  /** A sidecar of the first version has no line for it, and is read as version 1. */
  lemma VersionOne(text: string)
    requires forall l :: l in Lines(text) ==> !NamesVersion(l)
    ensures Parsed(text).schemaVersion == 1
  {
    hide ParseLines, Lines, NamesVersion;
    SameVersions(INITIAL, Lines(text));
  }
}
