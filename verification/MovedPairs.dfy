/** Which arrays of pairs come back from the sidecar. The reader counts brackets
    inside strings too. */
module MovedPairs {
  import opened Text
  import opened Pruned
  import opened MovedArray

  /** The depth after a text inside a pair, none if a pair would close in it. */
  function NestingAfter(text: string, depth: int): (r: Option<int>)
    requires depth >= 2
    ensures r.Some? ==> r.value >= 2
  {
    if text == "" then Some(depth)
    else if text[0] == '[' then NestingAfter(text[1..], depth + 1)
    else if text[0] == ']' then if depth == 2 then None else NestingAfter(text[1..], depth - 1)
    else NestingAfter(text[1..], depth)
  }

  function PairNesting(e: MovedEntry): Option<int> {
    NestingAfter(e.header + e.dest, 2)
  }

  /** The brackets of every pair are balanced; one bracket may stay open in
      the last. */
  predicate WellNested(entries: seq<MovedEntry>) {
    forall i :: 0 <= i < |entries| ==>
      PairNesting(entries[i]) == Some(2) || (i == |entries| - 1 && PairNesting(entries[i]) == Some(3))
  }

  lemma {:induction false} NestingConcat(a: string, b: string, depth: int)
    requires depth >= 2
    ensures NestingAfter(a + b, depth) ==
            match NestingAfter(a, depth)
            case None => None
            case Some(d) => NestingAfter(b, d)
    decreases a
  {
    if a == "" {
      assert a + b == b;
    } else {
      assert (a + b)[1..] == a[1..] + b && (a + b)[0] == a[0];
      if a[0] == '[' {
        NestingConcat(a[1..], b, depth + 1);
      } else if a[0] == ']' {
        if depth > 2 {
          NestingConcat(a[1..], b, depth - 1);
        }
      } else {
        NestingConcat(a[1..], b, depth);
      }
    }
  }

  lemma NestingEscapeChar(c: char, depth: int)
    requires depth >= 2
    ensures NestingAfter(EscapeChar(c), depth) == NestingAfter([c], depth)
  {
    var e := EscapeChar(c);
    assert [c][1..] == "";
    if |e| == 2 {
      assert e[1..] == [c];
    }
  }

  lemma {:induction false} NestingEscape(s: string, depth: int)
    requires depth >= 2
    ensures NestingAfter(Escape(s), depth) == NestingAfter(s, depth)
    decreases s
  {
    hide Escape, EscapeChar, NestingAfter;
    if s == "" {
      EscapePlain("");
    } else {
      var c, rest := s[0], s[1..];
      assert s == [c] + rest;
      EscapeCons(c, rest);
      NestingEscapeChar(c, depth);
      NestingConcat(EscapeChar(c), Escape(rest), depth);
      NestingConcat([c], rest, depth);
      var d := NestingAfter([c], depth);
      if d.Some? {
        NestingEscape(rest, d.value);
      }
    }
  }

  // ----- scanning ------------------------------------------------------------------------------

  lemma {:induction false} ScanConcat(s: Scanner, a: string, b: string)
    ensures ScanAll(s, a + b) == ScanAll(ScanAll(s, a), b)
    decreases a
  {
    hide Scan;
    if a == "" {
      assert a + b == b;
    } else {
      assert (a + b)[1..] == a[1..] + b;
      ScanConcat(Scan(s, a[0]), a[1..], b);
    }
  }

  /** A text in which no pair closes is collected whole. */
  lemma {:induction false} ScanWithin(s: Scanner, text: string)
    requires s.depth >= 2 && NestingAfter(text, s.depth).Some?
    ensures ScanAll(s, text) == Scanner(NestingAfter(text, s.depth).value, s.current + text, s.raws)
    decreases text
  {
    if text == "" {
      assert s.current + text == s.current;
    } else {
      ScanWithin(Scan(s, text[0]), text[1..]);
      assert s.current + text == (s.current + [text[0]]) + text[1..];
    }
  }

  /** How the string reader stands after what is collected so far. */
  function ReaderOf(current: string): Reader
    requires current != ""
  {
    FeedAll(START, current[1..])
  }

  lemma ReaderMore(current: string, more: string)
    requires current != ""
    ensures ReaderOf(current + more) == FeedAll(ReaderOf(current), more)
  {
    assert (current + more)[1..] == current[1..] + more;
    FeedConcat(START, current[1..], more);
  }

  /** The quotes that the reader has seen. */
  function QuotesOf(r: Reader): nat {
    2 * |r.result| + if r.inString then 1 else 0
  }

  function QuotesSeen(s: Scanner): nat {
    if s.current == "" then 0 else QuotesOf(ReaderOf(s.current))
  }

  /** A collected piece starts with its bracket, and the reader is not in the
      middle of an escape. */
  predicate Aligned(s: Scanner) {
    && (s.depth < 2 <==> s.current == "")
    && (s.current != "" ==> s.current[0] == '[' && !ReaderOf(s.current).escape)
  }

  /** A piece that closes gives the strings that the reader has completed. */
  lemma PieceStrings(current: string)
    requires current != "" && current[0] == '['
    ensures StringsOf(current + "]") == ReaderOf(current).result
  {
    hide StringsOf, FeedAll;
    assert current + "]" == "[" + current[1..] + "]";
    BracketedStrings(current[1..]);
  }

  /** The account of a scan: four quotes for every pair that is found, and the
      quotes of the piece at hand, of which a pair has use for four. */
  function Used(s: Scanner): nat {
    4 * |PairsIn(s.raws)| + Useful(QuotesSeen(s))
  }

  function Useful(quotes: nat): nat {
    if quotes >= 5 then quotes - 1 else quotes
  }

  lemma PairsMore(raws: seq<string>, raw: string)
    ensures PairsIn(raws + [raw]) == match PairOf(raw) case Some(p) => PairsIn(raws) + [p] case None => PairsIn(raws)
  {
    assert (raws + [raw])[..|raws|] == raws;
  }

  /** One character of a string never adds to the account; one that closes a
      piece with less than a pair loses its quotes. */
  lemma EscapedCharUsed(s: Scanner, c: char)
    requires Aligned(s)
    ensures var r := ScanAll(s, EscapeChar(c));
            && Aligned(r) && Used(r) <= Used(s)
            && (s.depth == 2 && c == ']' && 1 <= QuotesSeen(s) <= 3 ==> Used(r) < Used(s))
            && (s.depth >= 2 && NestingAfter([c], s.depth).Some? ==>
                  r.depth == NestingAfter([c], s.depth).value && QuotesSeen(r) == QuotesSeen(s))
  {
    hide FeedAll, PairOf, PairsIn, StringsOf, EscapeChar;
    EscapedCharScan(s, c);
    if s.depth >= 2 {
      NestingOfChar(c, s.depth);
    }
    if s.current != "" {
      ReaderMore(s.current, EscapeChar(c));
      FeedEscapedChar(ReaderOf(s.current), c);
      if c == ']' && s.depth == 2 {
        PieceStrings(s.current);
        PairsMore(s.raws, s.current + [c]);
        PairOfTwo(s.current + [c]);
      }
    } else if c == '[' && s.depth == 1 {
      OpeningBracket();
    }
  }

  lemma PairOfTwo(raw: string)
    ensures PairOf(raw).Some? <==> |StringsOf(raw)| == 2
  {
    hide StringsOf;
  }

  lemma OpeningBracket()
    ensures ReaderOf("[") == START
  {
    assert "["[1..] == "";
  }

  lemma EscapedCharScan(s: Scanner, c: char)
    requires Aligned(s)
    ensures ScanAll(s, EscapeChar(c)) ==
            if c == '[' then
              Scanner(
                s.depth + 1,
                if s.depth >= 2 then s.current + EscapeChar(c) else if s.depth == 1 then "[" else "",
                s.raws)
            else if c == ']' && s.depth == 2 then Scanner(1, "", s.raws + [s.current + [c]])
            else if c == ']' then Scanner(s.depth - 1, if s.depth >= 2 then s.current + EscapeChar(c) else "", s.raws)
            else if s.depth >= 2 then s.(current := s.current + EscapeChar(c))
            else s
    ensures c == '[' || c == ']' ==> EscapeChar(c) == [c]
  {
    hide ReaderOf, ScanAll;
    if c == '\\' || c == '"' {
      var e := EscapeChar(c);
      assert e == ['\\'] + [c];
      ScanConcat(s, ['\\'], [c]);
      ScanChar(s, '\\');
      ScanChar(Scan(s, '\\'), c);
      SeqAssoc(s.current, ['\\'], [c]);
    } else {
      ScanChar(s, c);
      assert s.depth == 1 ==> s.current + ['['] == "[";
    }
  }

  lemma NestingOfChar(c: char, depth: int)
    requires depth >= 2
    ensures NestingAfter([c], depth) ==
            if c == '[' then Some(depth + 1)
            else if c != ']' then Some(depth)
            else if depth == 2 then None
            else Some(depth - 1)
  {
    assert [c][1..] == "";
  }

  /** Nor does a whole escaped text; one in which a piece closes before it has
      a pair loses. */
  lemma {:induction false} EscapedUsed(s: Scanner, text: string)
    requires Aligned(s)
    ensures var r := ScanAll(s, Escape(text));
            && Aligned(r) && Used(r) <= Used(s)
            && (s.depth >= 2 && 1 <= QuotesSeen(s) <= 3 && NestingAfter(text, s.depth).None? ==> Used(r) < Used(s))
    decreases text
  {
    hide Escape, EscapeChar, Used, QuotesSeen, ScanAll;
    if text == "" {
      EscapePlain("");
      ScanNothing(s);
    } else {
      var c, rest := text[0], text[1..];
      assert text == [c] + rest;
      EscapeCons(c, rest);
      ScanConcat(s, EscapeChar(c), Escape(rest));
      EscapedCharUsed(s, c);
      EscapedUsed(ScanAll(s, EscapeChar(c)), rest);
      if s.depth >= 2 {
        NestingConcat([c], rest, s.depth);
        NestingOfChar(c, s.depth);
      }
    }
  }

  lemma ScanNothing(s: Scanner)
    ensures ScanAll(s, "") == s
  {
  }

  /** A quote adds one to the account, except the fifth of a piece. */
  lemma QuoteUsed(s: Scanner)
    requires Aligned(s)
    ensures var r := ScanAll(s, "\"");
            && Aligned(r) && Used(r) <= Used(s) + 1 && r.raws == s.raws && r.depth == s.depth
            && (QuotesSeen(s) == 4 ==> Used(r) < Used(s) + 1)
  {
    hide FeedAll, PairsIn;
    ScanChar(s, '"');
    if s.depth >= 2 {
      ReaderMore(s.current, "\"");
      FeedChar(ReaderOf(s.current), '"');
    }
  }

  lemma ScanChar(s: Scanner, c: char)
    ensures ScanAll(s, [c]) == Scan(s, c)
  {
    assert [c][1..] == "";
  }

  // ----- a row -----------------------------------------------------------------------------------

  /** The nine parts of a row and its line end. */
  function Part(e: MovedEntry, k: nat): string
    requires k < 9
  {
    match k
    case 0 => "  ["
    case 2 => Escape(e.header)
    case 4 => ", "
    case 6 => Escape(e.dest)
    case 8 => "],\n"
    case _ => "\""
  }

  function AfterParts(s: Scanner, e: MovedEntry, k: nat): Scanner
    requires k <= 9
  {
    if k == 0 then s else ScanAll(AfterParts(s, e, k - 1), Part(e, k - 1))
  }

  lemma PartsText(e: MovedEntry)
    ensures Row(e) + "\n" ==
            (((((((Part(e, 0) + Part(e, 1)) + Part(e, 2)) + Part(e, 3)) + Part(e, 4)) + Part(e, 5)) + Part(e, 6))
             + Part(e, 7)) + Part(e, 8)
  {
    hide Escape;
    var h, d := Escape(e.header), Escape(e.dest);
    assert "  [" + ("\"" + h + "\"") == (("  [" + "\"") + h) + "\"";
    assert (((("  [" + "\"") + h) + "\"") + ", ") + ("\"" + d + "\"")
           == (((((("  [" + "\"") + h) + "\"") + ", ") + "\"") + d) + "\"";
  }

  lemma RowIsParts(s: Scanner, e: MovedEntry)
    ensures ScanAll(s, Row(e) + "\n") == AfterParts(s, e, 9)
  {
    hide ScanAll, Part, Row;
    PartsText(e);
    var t1 := Part(e, 0) + Part(e, 1);
    var t2 := t1 + Part(e, 2);
    var t3 := t2 + Part(e, 3);
    var t4 := t3 + Part(e, 4);
    var t5 := t4 + Part(e, 5);
    var t6 := t5 + Part(e, 6);
    var t7 := t6 + Part(e, 7);
    ScanConcat(s, t7, Part(e, 8));
    ScanConcat(s, t6, Part(e, 7));
    ScanConcat(s, t5, Part(e, 6));
    ScanConcat(s, t4, Part(e, 5));
    ScanConcat(s, t3, Part(e, 4));
    ScanConcat(s, t2, Part(e, 3));
    ScanConcat(s, t1, Part(e, 2));
    ScanConcat(s, Part(e, 0), Part(e, 1));
    PartsUnrolled(s, e);
  }

  lemma PartsUnrolled(s: Scanner, e: MovedEntry)
    ensures AfterParts(s, e, 9) ==
            ScanAll(ScanAll(ScanAll(ScanAll(ScanAll(ScanAll(ScanAll(ScanAll(ScanAll(s,
              Part(e, 0)), Part(e, 1)), Part(e, 2)), Part(e, 3)), Part(e, 4)), Part(e, 5)), Part(e, 6)),
              Part(e, 7)), Part(e, 8))
  {
    hide ScanAll, Part;
    assert AfterParts(s, e, 1) == ScanAll(s, Part(e, 0));
    assert AfterParts(s, e, 3) == ScanAll(ScanAll(AfterParts(s, e, 1), Part(e, 1)), Part(e, 2));
    assert AfterParts(s, e, 5) == ScanAll(ScanAll(AfterParts(s, e, 3), Part(e, 3)), Part(e, 4));
    assert AfterParts(s, e, 7) == ScanAll(ScanAll(AfterParts(s, e, 5), Part(e, 5)), Part(e, 6));
  }

  /** Each part adds at most its quote. */
  lemma {:induction false} PartsUsed(s: Scanner, e: MovedEntry, j: nat, k: nat)
    requires j <= k <= 9 && Aligned(AfterParts(s, e, j))
    ensures Aligned(AfterParts(s, e, k))
    ensures Used(AfterParts(s, e, k)) <= Used(AfterParts(s, e, j)) + (k / 2 - j / 2)
    decreases k - j
  {
    hide ScanAll, Used, Aligned, Escape;
    if j < k {
      PartsUsed(s, e, j, k - 1);
      PartUsed(AfterParts(s, e, k - 1), e, k - 1);
    }
  }

  lemma PartUsed(s: Scanner, e: MovedEntry, k: nat)
    requires k < 9 && Aligned(s)
    ensures var r := ScanAll(s, Part(e, k)); Aligned(r) && Used(r) <= Used(s) + k % 2
  {
    hide ScanAll, Used, Aligned, Escape;
    if k % 2 == 1 {
      QuoteUsed(s);
    } else {
      EscapePlain("  [");
      EscapePlain(", ");
      EscapePlain("],\n");
      var text := match k case 0 => "  [" case 2 => e.header case 4 => ", " case 6 => e.dest case _ => "],\n";
      EscapedUsed(s, text);
    }
  }

  // ----- what becomes of a row ---------------------------------------------------------------------

  /** A scan with a whole pair at hand: the piece has its four quotes, and
      would give the pair if it closed. */
  ghost predicate Holding(s: Scanner, e: MovedEntry) {
    Aligned(s) && s.depth >= 2 && QuotesSeen(s) == 4 && PairOf(s.current + "]") == Some(e)
  }

  /** Up to the end of the header. */
  lemma HeaderPart(raws: seq<string>, e: MovedEntry)
    ensures var s, r := Scanner(1, "", raws), AfterParts(Scanner(1, "", raws), e, 3);
            var a := NestingAfter(e.header, 2);
            && Aligned(s) && Aligned(r)
            && (a.None? ==> Used(r) < Used(s) + 1)
            && (a.Some? ==> r == Scanner(a.value, "[\"" + Escape(e.header), raws)
                            && ReaderOf(r.current) == Reader(e.header, true, false, []))
  {
    hide Escape, Used, NestingAfter, FeedAll;
    var s := Scanner(1, "", raws);
    var bracket, quoted := Scanner(2, "[", raws), Scanner(2, "[\"", raws);
    OpenRow(raws);
    OpenRow2(raws);
    assert AfterParts(s, e, 1) == bracket && AfterParts(s, e, 2) == quoted;
    PartsUsed(s, e, 0, 2);
    EscapedUsed(quoted, e.header);
    NestingEscape(e.header, 2);
    if NestingAfter(e.header, 2).Some? {
      ScanWithin(quoted, Escape(e.header));
      ReaderMore("[\"", Escape(e.header));
      FeedEscaped(Reader("", true, false, []), e.header);
      assert "" + e.header == e.header;
    }
  }

  lemma OpenRow(raws: seq<string>)
    ensures ScanAll(Scanner(1, "", raws), "  [") == Scanner(2, "[", raws)
  {
    assert "  ["[1..] == " [" && " ["[1..] == "[" && "["[1..] == "";
  }

  lemma OpenRow2(raws: seq<string>)
    ensures ScanAll(Scanner(2, "[", raws), "\"") == Scanner(2, "[\"", raws)
    ensures ReaderOf("[\"") == Reader("", true, false, []) && QuotesSeen(Scanner(2, "[\"", raws)) == 1
    ensures Aligned(Scanner(2, "[\"", raws))
  {
    ScanChar(Scanner(2, "[", raws), '"');
    assert "[\""[1..] == "\"";
    FeedChar(START, '"');
  }

  /** Between the two strings. */
  lemma BetweenPart(s: Scanner, header: string)
    requires Aligned(s) && s.depth >= 2 && ReaderOf(s.current) == Reader(header, true, false, [])
    ensures var r := ScanAll(ScanAll(ScanAll(s, "\""), ", "), "\"");
            && Aligned(r) && r.depth == s.depth && r.raws == s.raws
            && ReaderOf(r.current) == Reader("", true, false, [header])
            && Used(r) <= Used(s) + 2
  {
    hide Escape, Used, FeedAll, ScanAll;
    QuoteUsed(s);
    var s1, q1 := AddWithin(s, "\"");
    FeedChar(q1, '"');
    EscapePlain(", ");
    EscapedUsed(s1, ", ");
    var s2, q2 := AddWithin(s1, ", ");
    FeedBetween(q2, ", ");
    QuoteUsed(s2);
    var s3, q3 := AddWithin(s2, "\"");
    FeedChar(q3, '"');
    assert [] + [header] == [header];
  }

  /** The destination and its closing quote. */
  lemma DestPart(s: Scanner, e: MovedEntry)
    requires Aligned(s) && s.depth >= 2 && ReaderOf(s.current) == Reader("", true, false, [e.header])
    ensures var r := ScanAll(ScanAll(s, Escape(e.dest)), "\"");
            var b := NestingAfter(e.dest, s.depth);
            && Aligned(r)
            && (b.None? ==> Used(r) < Used(s) + 1)
            && (b.Some? ==> r.depth == b.value && r.raws == s.raws && Holding(r, e)
                            && ReaderOf(r.current) == Reader("", false, false, [e.header, e.dest]))
  {
    hide Escape, Used, NestingAfter, FeedAll, ScanAll;
    EscapedUsed(s, e.dest);
    NestingEscape(e.dest, s.depth);
    var t := ScanAll(s, Escape(e.dest));
    QuoteUsed(t);
    if NestingAfter(e.dest, s.depth).Some? {
      ScanWithin(s, Escape(e.dest));
      ReaderMore(s.current, Escape(e.dest));
      FeedEscaped(ReaderOf(s.current), e.dest);
      assert "" + e.dest == e.dest;
      var r, q := AddWithin(t, "\"");
      FeedChar(q, '"');
      assert [e.header] + [e.dest] == [e.header, e.dest];
      HoldsPair(r, e);
    }
  }

  lemma HoldsPair(s: Scanner, e: MovedEntry)
    requires Aligned(s) && s.depth >= 2 && ReaderOf(s.current) == Reader("", false, false, [e.header, e.dest])
    ensures Holding(s, e)
  {
    hide FeedAll, StringsOf;
    PieceStrings(s.current);
  }

  /** Text without brackets inside a pair. */
  lemma AddWithin(s: Scanner, text: string) returns (r: Scanner, reader: Reader)
    requires Aligned(s) && s.depth >= 2 && '[' !in text && ']' !in text
    ensures r == ScanAll(s, text) == Scanner(s.depth, s.current + text, s.raws)
    ensures reader == ReaderOf(s.current)
    ensures ReaderOf(r.current) == FeedAll(reader, text)
  {
    NoBrackets(text, s.depth);
    ScanWithin(s, text);
    ReaderMore(s.current, text);
    r := ScanAll(s, text);
    reader := ReaderOf(s.current);
  }

  lemma {:induction false} NoBrackets(text: string, depth: int)
    requires depth >= 2 && '[' !in text && ']' !in text
    ensures NestingAfter(text, depth) == Some(depth)
    decreases text
  {
    if text != "" {
      NoBrackets(text[1..], depth);
    }
  }

  /** The end of a row, after both strings. */
  lemma CloseRow(s: Scanner, e: MovedEntry)
    requires Holding(s, e) && ReaderOf(s.current) == Reader("", false, false, [e.header, e.dest])
    ensures var r := ScanAll(s, "],\n");
            && (s.depth == 2 ==> r == Scanner(1, "", s.raws + [s.current + "]"]))
            && (s.depth > 2 ==> r.depth == s.depth - 1 && r.raws == s.raws && Holding(r, e))
  {
    hide FeedAll, PairOf, StringsOf;
    var tail := "],\n";
    if s.depth == 2 {
      assert tail[1..] == ",\n" && ",\n"[1..] == "\n" && "\n"[1..] == "";
    } else {
      assert tail[1..] == ",\n";
      NoBrackets(",\n", s.depth - 1);
      ScanWithin(s, tail);
      ReaderMore(s.current, tail);
      FeedBetween(ReaderOf(s.current), tail);
      HoldsPair(ScanAll(s, tail), e);
    }
  }

  /** The row of a balanced pair gives the pair; after one with open brackets it
      is still at hand; one that closes early has lost it. */
  lemma RowOutcome(raws: seq<string>, e: MovedEntry)
    ensures var s, r := Scanner(1, "", raws), ScanAll(Scanner(1, "", raws), Row(e) + "\n");
            match PairNesting(e)
            case None => Aligned(r) && Used(r) < Used(s) + 4
            case Some(b) =>
              if b == 2 then exists raw :: r == Scanner(1, "", raws + [raw]) && PairOf(raw) == Some(e)
              else r.depth == b - 1 && r.raws == raws && Holding(r, e)
  {
    hide ScanAll, Escape, Used, NestingAfter, FeedAll, Row, PairOf, PairsIn;
    var s := Scanner(1, "", raws);
    RowIsParts(s, e);
    HeaderPart(raws, e);
    NestingConcat(e.header, e.dest, 2);
    var s3 := AfterParts(s, e, 3);
    if NestingAfter(e.header, 2).None? {
      PartsUsed(s, e, 3, 9);
      return;
    }
    PartsUsed(s, e, 0, 3);
    BetweenPart(s3, e.header);
    var s6 := AfterParts(s, e, 6);
    SixParts(s, e);
    DestPart(s6, e);
    var s8 := AfterParts(s, e, 8);
    if NestingAfter(e.dest, s6.depth).None? {
      PartsUsed(s, e, 8, 9);
      return;
    }
    CloseRow(s8, e);
  }

  lemma SixParts(s: Scanner, e: MovedEntry)
    ensures AfterParts(s, e, 6) == ScanAll(ScanAll(ScanAll(AfterParts(s, e, 3), "\""), ", "), "\"")
    ensures AfterParts(s, e, 8) == ScanAll(ScanAll(AfterParts(s, e, 6), Escape(e.dest)), "\"")
    ensures AfterParts(s, e, 9) == ScanAll(AfterParts(s, e, 8), "],\n")
  {
    hide ScanAll, Escape;
    assert AfterParts(s, e, 4) == ScanAll(AfterParts(s, e, 3), "\"");
    assert AfterParts(s, e, 5) == ScanAll(AfterParts(s, e, 4), ", ");
    assert AfterParts(s, e, 7) == ScanAll(AfterParts(s, e, 6), Escape(e.dest));
  }

  // ----- the array -------------------------------------------------------------------------------------

  /** The rows still to come, and the end. */
  function Rest(entries: seq<MovedEntry>): string {
    Unlines(Rows(entries)) + "]\n"
  }

  lemma RestCons(entries: seq<MovedEntry>)
    requires entries != []
    ensures Rest(entries) == (Row(entries[0]) + "\n") + Rest(entries[1..])
  {
    hide Row;
    assert Rows(entries)[0] == Row(entries[0]) && Rows(entries)[1..] == Rows(entries[1..]);
    assert Unlines(Rows(entries)) == Row(entries[0]) + "\n" + Unlines(Rows(entries[1..]));
  }

  /** From any state, the rest adds at most four for every row. */
  lemma {:induction false} RestUsed(s: Scanner, entries: seq<MovedEntry>)
    requires Aligned(s)
    ensures Used(ScanAll(s, Rest(entries))) <= Used(s) + 4 * |entries|
    decreases entries
  {
    hide ScanAll, Used, Aligned, Row, Escape, Rest;
    if entries == [] {
      RestNone();
      EscapePlain("]\n");
      EscapedUsed(s, "]\n");
    } else {
      var e := entries[0];
      RestCons(entries);
      ScanConcat(s, Row(e) + "\n", Rest(entries[1..]));
      RowIsParts(s, e);
      PartsUsed(s, e, 0, 9);
      RestUsed(AfterParts(s, e, 9), entries[1..]);
    }
  }

  lemma RestNone()
    ensures Rest([]) == "]\n"
  {
  }

  lemma UsedPairs(s: Scanner)
    ensures 4 * |PairsIn(s.raws)| <= Used(s)
    ensures s.current == "" ==> Used(s) == 4 * |PairsIn(s.raws)|
  {
    hide PairsIn, ReaderOf;
  }

  /** Once a quote too many is spent, not all pairs can come. */
  lemma NotAllPairs(s: Scanner, entries: seq<MovedEntry>, found: nat)
    requires Aligned(s) && Used(s) < 4 * found
    ensures |PairsIn(ScanAll(s, Rest(entries)).raws)| < found + |entries|
  {
    hide ScanAll, Used, Aligned, Rest, PairsIn;
    RestUsed(s, entries);
    UsedPairs(ScanAll(s, Rest(entries)));
  }

  /** With a pair at hand, the first quote of a further row is one too many. */
  lemma HeldRowLoses(s: Scanner, e: MovedEntry, entries: seq<MovedEntry>)
    requires Holding(s, e) && entries != []
    ensures |PairsIn(ScanAll(s, Rest(entries)).raws)| <= |PairsIn(s.raws)| + |entries|
  {
    hide ScanAll, Used, Aligned, Rest, PairsIn, Row, Escape, PairOf;
    var f := entries[0];
    var opening := AfterParts(s, f, 1);
    assert AfterParts(s, f, 0) == s && Part(f, 0) == "  [";
    assert opening == ScanAll(s, "  [");
    KeepsHolding(s, e, "  [");
    PartsUsed(s, f, 0, 1);
    QuoteUsed(opening);
    assert AfterParts(s, f, 2) == ScanAll(opening, "\"");
    PartsUsed(s, f, 2, 9);
    RowIsParts(s, f);
    RestCons(entries);
    ScanConcat(s, Row(f) + "\n", Rest(entries[1..]));
    UsedWhenHolding(s, e);
    NotAllPairs(AfterParts(s, f, 9), entries[1..], |PairsIn(s.raws)| + 2);
  }

  lemma UsedWhenHolding(s: Scanner, e: MovedEntry)
    requires Holding(s, e)
    ensures Used(s) == 4 * |PairsIn(s.raws)| + 4
  {
    hide PairsIn, PairOf, ReaderOf;
  }

  lemma KeepsHolding(s: Scanner, e: MovedEntry, text: string)
    requires Holding(s, e) && text == "  ["
    ensures QuotesSeen(ScanAll(s, text)) == 4 && Aligned(ScanAll(s, text))
  {
    hide PairOf, FeedAll;
    assert text[1..] == " [" && " ["[1..] == "[" && "["[1..] == "";
    assert NestingAfter("[", s.depth) == Some(s.depth + 1);
    assert NestingAfter(" [", s.depth) == Some(s.depth + 1);
    ScanWithin(s, text);
    ReaderMore(s.current, text);
    FeedBetween(ReaderOf(s.current), text);
  }

  lemma WellNestedCons(entries: seq<MovedEntry>)
    requires entries != []
    ensures WellNested(entries) <==>
            && (PairNesting(entries[0]) == Some(2) || (|entries| == 1 && PairNesting(entries[0]) == Some(3)))
            && WellNested(entries[1..])
  {
    hide PairNesting;
    var rest := entries[1..];
    if WellNested(entries) {
      forall i | 0 <= i < |rest|
        ensures PairNesting(rest[i]) == Some(2) || (i == |rest| - 1 && PairNesting(rest[i]) == Some(3))
      {
        assert rest[i] == entries[i + 1];
      }
    }
    if WellNested(rest) {
      forall i | 1 <= i < |entries|
        ensures PairNesting(entries[i]) == Some(2) || (i == |entries| - 1 && PairNesting(entries[i]) == Some(3))
      {
        assert entries[i] == rest[i - 1];
      }
    }
  }

  /** The end of the array, with a pair at hand: one open bracket is closed by it. */
  lemma EndWhileHolding(s: Scanner, e: MovedEntry)
    requires Holding(s, e)
    ensures ScanAll(s, "]\n").raws == if s.depth == 2 then s.raws + [s.current + "]"] else s.raws
  {
    hide PairOf, ReaderOf;
    assert "]\n"[1..] == "\n" && "\n"[1..] == "";
  }

  lemma EndOfArray(raws: seq<string>)
    ensures ScanAll(Scanner(1, "", raws), "]\n").raws == raws
  {
    assert "]\n"[1..] == "\n" && "\n"[1..] == "";
  }

  /** Reading the rest of an array from the start of a row. */
  lemma {:induction false} RowsIff(raws: seq<string>, entries: seq<MovedEntry>)
    ensures PairsIn(ScanAll(Scanner(1, "", raws), Rest(entries)).raws) == PairsIn(raws) + entries <==>
            WellNested(entries)
    ensures !WellNested(entries) ==>
              |PairsIn(ScanAll(Scanner(1, "", raws), Rest(entries)).raws)| < |PairsIn(raws)| + |entries|
    decreases entries
  {
    hide ScanAll, Rest, PairsIn, PairOf, Used, Row, Holding, PairNesting;
    var s := Scanner(1, "", raws);
    if entries == [] {
      RestNone();
      EndOfArray(raws);
      assert PairsIn(raws) + entries == PairsIn(raws);
      return;
    }
    var e, rest := entries[0], entries[1..];
    assert entries == [e] + rest;
    RestCons(entries);
    WellNestedCons(entries);
    ScanConcat(s, Row(e) + "\n", Rest(rest));
    RowOutcome(raws, e);
    var r := ScanAll(s, Row(e) + "\n");
    var nesting := PairNesting(e);
    if nesting.None? {
      UsedPairs(s);
      NotAllPairs(r, rest, |PairsIn(raws)| + 1);
    } else if nesting == Some(2) {
      var raw :| r == Scanner(1, "", raws + [raw]) && PairOf(raw) == Some(e);
      RowsIff(raws + [raw], rest);
      PairsMore(raws, raw);
      SeqAssoc(PairsIn(raws), [e], rest);
    } else if rest != [] {
      HeldRowLoses(r, e, rest);
    } else {
      assert entries == [e];
      LastRowIff(r, e, nesting.value);
    }
  }

  /** The last row, with brackets left open. */
  lemma LastRowIff(s: Scanner, e: MovedEntry, nesting: int)
    requires Holding(s, e) && s.depth == nesting - 1
    ensures PairsIn(ScanAll(s, Rest([])).raws) == PairsIn(s.raws) + [e] <==> nesting == 3
    ensures nesting != 3 ==> |PairsIn(ScanAll(s, Rest([])).raws)| <= |PairsIn(s.raws)|
  {
    hide ScanAll, Rest, PairsIn, PairOf;
    RestNone();
    EndWhileHolding(s, e);
    PairsMore(s.raws, s.current + "]");
    assert |PairsIn(s.raws) + [e]| == |PairsIn(s.raws)| + 1;
  }

  /** Exactly the well nested arrays of pairs come back; of any other at least
      one pair is lost. */
  lemma PairArrayRoundTripsIff(entries: seq<MovedEntry>)
    ensures PairsOf(PairArray(entries)) == entries <==> WellNested(entries)
    ensures !WellNested(entries) ==> |PairsOf(PairArray(entries))| < |entries|
  {
    hide WellNested, Row;
    var start := Scanner(0, "", []);
    assert PairArray(entries) == "[\n" + Rest(entries);
    ScanConcat(start, "[\n", Rest(entries));
    assert "[\n"[1..] == "\n" && "\n"[1..] == "";
    assert ScanAll(start, "[\n") == Scanner(1, "", []);
    hide ScanAll, Rest;
    RowsIff([], entries);
    assert [] + entries == entries;
  }

  /** Pairs whose strings have no brackets are well nested. */
  lemma BracketFree(entries: seq<MovedEntry>)
    requires forall e :: e in entries ==> '[' !in e.header + e.dest && ']' !in e.header + e.dest
    ensures WellNested(entries)
  {
    forall i | 0 <= i < |entries|
      ensures PairNesting(entries[i]) == Some(2)
    {
      NoBrackets(entries[i].header + entries[i].dest, 2);
    }
  }
}
