/** Strings whose newlines all follow a comma. What the reader of moved pairs
    makes of a damaged array can hold newlines, but only such ones: they are
    those between two rows (`src/brain/rsi_pruned.rs`). */
module CommaBreaks {
  import opened Text
  import opened Pruned
  import opened MovedArray
  import opened MovedPairs

  /** Every newline follows a comma; `prev` is the character before the text. */
  predicate BreaksAfter(s: string, prev: char) {
    s == "" || ((s[0] == '\n' ==> prev == ',') && BreaksAfter(s[1..], s[0]))
  }

  predicate CommaBreaks(s: string) {
    BreaksAfter(s, ' ')
  }

  predicate CommaEntry(e: MovedEntry) {
    CommaBreaks(e.header) && CommaBreaks(e.dest)
  }

  ghost predicate CommaEntries(entries: seq<MovedEntry>) {
    forall e :: e in entries ==> CommaEntry(e)
  }

  function LastOr(s: string, prev: char): char {
    if s == "" then prev else s[|s| - 1]
  }

  lemma {:induction false} BreaksConcat(a: string, b: string, prev: char)
    ensures BreaksAfter(a + b, prev) <==> BreaksAfter(a, prev) && BreaksAfter(b, LastOr(a, prev))
    decreases a
  {
    if a == "" {
      assert a + b == b;
    } else {
      assert (a + b)[1..] == a[1..] + b;
      BreaksConcat(a[1..], b, a[0]);
    }
  }

  /** What comes before matters only if it is a comma. */
  lemma BreaksPrev(s: string, p: char, q: char)
    requires BreaksAfter(s, p) && (p == ',' ==> q == ',')
    ensures BreaksAfter(s, q)
  {
  }

  lemma {:induction false} OneLineBreaks(s: string, prev: char)
    requires '\n' !in s
    ensures BreaksAfter(s, prev)
  {
    if s != "" {
      OneLineBreaks(s[1..], s[0]);
    }
  }

  // ----- written --------------------------------------------------------------------------

  lemma {:induction false} EscapeBreaks(s: string, prev: char)
    requires BreaksAfter(s, prev)
    ensures BreaksAfter(Escape(s), prev)
    ensures LastOr(Escape(s), prev) == LastOr(s, prev)
    decreases s
  {
    hide Escape;
    if s == "" {
      EscapePlain("");
    } else {
      var c, rest := s[0], s[1..];
      assert s == [c] + rest;
      EscapeCons(c, rest);
      EscapeBreaks(rest, c);
      EscapeCharBreaks(c, prev);
      BreaksConcat(EscapeChar(c), Escape(rest), prev);
    }
  }

  lemma EscapeCharBreaks(c: char, prev: char)
    requires c == '\n' ==> prev == ','
    ensures BreaksAfter(EscapeChar(c), prev) && LastOr(EscapeChar(c), prev) == c
  {
    var e := EscapeChar(c);
    assert [c][1..] == "";
    if |e| == 2 {
      assert e[1..] == [c];
    }
  }

  lemma QuoteBreaks(s: string, prev: char)
    requires CommaBreaks(s)
    ensures BreaksAfter(Quote(s), prev) && LastOr(Quote(s), prev) == '"'
  {
    hide Escape, BreaksAfter;
    OneLineBreaks("\"", prev);
    BreaksPrev(s, ' ', '"');
    EscapeBreaks(s, '"');
    BreaksConcat("\"", Escape(s), prev);
    OneLineBreaks("\"", LastOr(s, '"'));
    BreaksConcat("\"" + Escape(s), "\"", prev);
  }

  /** The rows of an array, from any line on. */
  lemma RowBreaks(e: MovedEntry, prev: char)
    requires CommaEntry(e)
    ensures BreaksAfter(Row(e) + "\n", prev) && LastOr(Row(e) + "\n", prev) == '\n'
    ensures LastOr(Row(e), prev) == ','
  {
    hide Quote, BreaksAfter;
    var h, d := Quote(e.header), Quote(e.dest);
    OneLineBreaks("  [", prev);
    QuoteBreaks(e.header, '[');
    BreaksConcat("  [", h, prev);
    OneLineBreaks(", ", '"');
    BreaksConcat("  [" + h, ", ", prev);
    QuoteBreaks(e.dest, ' ');
    BreaksConcat("  [" + h + ", ", d, prev);
    OneLineBreaks("],", '"');
    BreaksConcat("  [" + h + ", " + d, "],", prev);
    NewlineBreaks();
    BreaksConcat(Row(e), "\n", prev);
  }

  lemma NewlineBreaks()
    ensures BreaksAfter("\n", ',')
  {
    assert "\n"[1..] == "";
  }

  lemma {:induction false} RowsBreaks(entries: seq<MovedEntry>, prev: char)
    requires CommaEntries(entries)
    ensures BreaksAfter(Unlines(Rows(entries)), prev)
    decreases entries
  {
    hide Row, BreaksAfter, CommaEntry;
    if entries == [] {
      OneLineBreaks("", prev);
    } else {
      var e, rest := entries[0], entries[1..];
      assert Rows(entries)[0] == Row(e) && Rows(entries)[1..] == Rows(rest);
      RowBreaks(e, prev);
      RowsBreaks(rest, '\n');
      BreaksConcat(Row(e) + "\n", Unlines(Rows(rest)), prev);
    }
  }

  // ----- read -----------------------------------------------------------------------------

  /** The reader has kept up with the text: whether or not it is within a
      string, a newline that comes next cannot be torn from its comma. */
  ghost predicate ReaderKeeps(r: Reader, prev: char) {
    && (forall s :: s in r.result ==> CommaBreaks(s))
    && CommaBreaks(r.current)
    && (prev == ',' && (r.inString || r.escape) ==> LastOr(r.current, ' ') == ',')
    && (prev == ',' ==> !r.escape)
  }

  lemma {:induction false} FeedKeeps(r: Reader, text: string, prev: char)
    requires ReaderKeeps(r, prev) && BreaksAfter(text, prev)
    ensures forall s :: s in FeedAll(r, text).result ==> CommaBreaks(s)
    decreases text
  {
    hide CommaBreaks;
    if text != "" {
      FeedOneKeeps(r, text[0], prev);
      FeedKeeps(Feed(r, text[0]), text[1..], text[0]);
    }
  }

  lemma FeedOneKeeps(r: Reader, c: char, prev: char)
    requires ReaderKeeps(r, prev) && (c == '\n' ==> prev == ',')
    ensures ReaderKeeps(Feed(r, c), c)
  {
    NoBreaks();
    BreaksConcat(r.current, [c], ' ');
    CharBreaks(c, LastOr(r.current, ' '));
    hide BreaksAfter;
  }

  lemma NoBreaks()
    ensures CommaBreaks("")
  {
  }

  lemma CharBreaks(c: char, prev: char)
    ensures BreaksAfter([c], prev) <==> (c == '\n' ==> prev == ',')
  {
    assert [c][1..] == "";
  }

  /** A piece, in its brackets. */
  ghost predicate PieceKeeps(raw: string) {
    exists inner :: IsPiece(raw, inner)
  }

  predicate IsPiece(raw: string, inner: string) {
    raw == "[" + inner + "]" && BreaksAfter(inner, '[')
  }

  ghost predicate ScannerKeeps(s: Scanner, prev: char) {
    && (forall raw :: raw in s.raws ==> PieceKeeps(raw))
    && (s.depth < 2 <==> s.current == "")
    && (s.depth >= 2 ==> s.current[0] == '[' && BreaksAfter(s.current[1..], '['))
    && (s.depth >= 2 && prev == ',' ==> LastOr(s.current, ' ') == ',')
  }

  lemma ScanOneKeeps(s: Scanner, c: char, prev: char)
    requires ScannerKeeps(s, prev) && (c == '\n' ==> prev == ',')
    ensures ScannerKeeps(Scan(s, c), c)
  {
    if s.depth >= 2 {
      var inner := s.current[1..];
      assert s.current == "[" + inner;
      assert (s.current + [c])[1..] == inner + [c];
      BreaksConcat(inner, [c], '[');
      CharBreaks(c, LastOr(inner, '['));
      assert LastOr(inner, '[') == LastOr(s.current, ' ');
      hide BreaksAfter;
      if c == ']' && s.depth == 2 {
        assert IsPiece(s.current + [c], inner);
      }
    } else {
      assert "" + [c] == [c] && [c][1..] == "";
    }
  }

  lemma {:induction false} ScanKeeps(s: Scanner, text: string, prev: char)
    requires ScannerKeeps(s, prev) && BreaksAfter(text, prev)
    ensures ScannerKeeps(ScanAll(s, text), LastOr(text, prev))
    decreases text
  {
    hide ScannerKeeps, Scan;
    if text != "" {
      ScanOneKeeps(s, text[0], prev);
      ScanKeeps(Scan(s, text[0]), text[1..], text[0]);
    }
  }

  lemma PieceGives(raw: string)
    requires PieceKeeps(raw)
    ensures PairOf(raw).Some? ==> CommaEntry(PairOf(raw).value)
  {
    hide StringsOf, CommaBreaks, BreaksAfter;
    var inner :| IsPiece(raw, inner);
    BracketedStrings(inner);
    NoBreaks();
    FeedKeeps(START, inner, '[');
  }

  lemma {:induction false} PairsKeep(raws: seq<string>)
    requires forall raw :: raw in raws ==> PieceKeeps(raw)
    ensures CommaEntries(PairsIn(raws))
  {
    hide PairOf, PieceKeeps, CommaEntry;
    if raws != [] {
      var front, last := raws[..|raws| - 1], raws[|raws| - 1];
      assert last in raws && forall raw :: raw in front ==> raw in raws;
      PairsKeep(front);
      PieceGives(last);
    }
  }

  /** Whatever becomes of an array of pairs, what is read of it has newlines only
      after commas if what was written had. */
  lemma RereadKeeps(entries: seq<MovedEntry>)
    requires CommaEntries(entries)
    ensures CommaEntries(PairsOf(PairArray(entries)))
  {
    hide CommaEntries, Rows, PairsIn, Unlines, ScannerKeeps;
    var start := Scanner(0, "", []);
    var body := Unlines(Rows(entries));
    assert PairArray(entries) == "[\n" + (body + "]\n");
    ScanConcat(start, "[\n", body + "]\n");
    AfterOpening();
    ScanConcat(Scanner(1, "", []), body, "]\n");
    RowsBreaks(entries, '\n');
    OpeningKeeps();
    ScanKeeps(Scanner(1, "", []), body, '\n');
    var s := ScanAll(Scanner(1, "", []), body);
    EndKeeps(s, LastOr(body, '\n'));
    PairsKeep(ScanAll(s, "]\n").raws);
  }

  lemma AfterOpening()
    ensures ScanAll(Scanner(0, "", []), "[\n") == Scanner(1, "", [])
  {
    assert "[\n"[1..] == "\n" && "\n"[1..] == "";
  }

  lemma OpeningKeeps()
    ensures ScannerKeeps(Scanner(1, "", []), '\n')
  {
  }

  /** The end of the array closes a piece or none. */
  lemma EndKeeps(s: Scanner, prev: char)
    requires ScannerKeeps(s, prev)
    ensures forall raw :: raw in ScanAll(s, "]\n").raws ==> PieceKeeps(raw)
  {
    ScanOneKeeps(s, ']', prev);
    hide ScannerKeeps;
    assert "]\n"[1..] == "\n" && "\n"[1..] == "";
    var t := Scan(s, ']');
    assert ScanAll(s, "]\n") == Scan(t, '\n');
    assert Scan(t, '\n').raws == t.raws;
    RawsKeep(t, ']');
  }

  lemma RawsKeep(s: Scanner, prev: char)
    requires ScannerKeeps(s, prev)
    ensures forall raw :: raw in s.raws ==> PieceKeeps(raw)
  {
  }

  // ----- read line by line ------------------------------------------------------------------

  /** A text of such lines, closed, is read as lines that all end in a comma. */
  lemma {:induction false} CommaLines(text: string, prev: char)
    requires BreaksAfter(text, prev) && (text == "" || EndsWith(text, '\n')) && prev != ','
    ensures var ls := Lines(text); Unlines(ls) == text && forall l :: l in ls ==> EndsWith(l, ',')
    decreases |text|
  {
    hide BreaksAfter, Lines, LineEnd, StripCR;
    LinesEmptyIff(text);
    if text != "" {
      var line, rest := LinesHead(text);
      assert text == line + ("\n" + rest);
      BreaksConcat(line, "\n" + rest, prev);
      BreaksConcat("\n", rest, LastOr(line, prev));
      CharBreaks('\n', LastOr(line, prev));
      CommaLines(rest, '\n');
      NoReturn(line);
      assert Lines(text) == [line] + Lines(rest);
      assert ([line] + Lines(rest))[1..] == Lines(rest);
    }
  }

  lemma NoReturn(line: string)
    requires EndsWith(line, ',')
    ensures StripCR(line) == line
  {
  }
}
