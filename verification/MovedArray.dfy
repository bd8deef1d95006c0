/** String arrays and arrays of pairs, as the sidecar writes and reads them
    (`parse_string_array` and `parse_moved_array` in `src/brain/rsi_pruned.rs`). */
module MovedArray {
  import opened Text
  import opened Pruned

  // ----- writing ------------------------------------------------------------------------

  function Replace(s: string, c: char, with: string): string {
    if s == "" then "" else (if s[0] == c then with else [s[0]]) + Replace(s[1..], c, with)
  }

  function Escape(s: string): string {
    Replace(Replace(s, '\\', "\\\\"), '"', "\\\"")
  }

  function Quote(s: string): string {
    "\"" + Escape(s) + "\""
  }

  function Quoted(strings: seq<string>): seq<string> {
    seq(|strings|, i requires 0 <= i < |strings| => Quote(strings[i]))
  }

  function StringArray(strings: seq<string>): string {
    "[" + Join(Quoted(strings), ", ") + "]"
  }

  /** The line of one pair. */
  function Row(e: MovedEntry): string {
    "  [" + Quote(e.header) + ", " + Quote(e.dest) + "],"
  }

  function Rows(entries: seq<MovedEntry>): (lines: seq<string>)
    ensures |lines| == |entries|
  {
    seq(|entries|, i requires 0 <= i < |entries| => Row(entries[i]))
  }

  /** The array, over several lines. */
  function PairArray(entries: seq<MovedEntry>): string {
    "[\n" + Unlines(Rows(entries)) + "]\n"
  }

  /** What one character turns into. */
  function EscapeChar(c: char): string {
    if c == '\\' then "\\\\" else if c == '"' then "\\\"" else [c]
  }

  lemma EscapeCons(c: char, s: string)
    ensures Escape([c] + s) == EscapeChar(c) + Escape(s)
  {
    assert ([c] + s)[1..] == s;
    var rest := Replace(s, '\\', "\\\\");
    if c == '\\' {
      assert "\\\\" + rest == ['\\'] + (['\\'] + rest);
      ReplaceCons('\\', ['\\'] + rest, '"', "\\\"");
      ReplaceCons('\\', rest, '"', "\\\"");
      assert ['\\'] + (['\\'] + Escape(s)) == "\\\\" + Escape(s);
    } else {
      ReplaceCons(c, rest, '"', "\\\"");
    }
  }

  lemma ReplaceCons(x: char, s: string, c: char, with: string)
    ensures Replace([x] + s, c, with) == (if x == c then with else [x]) + Replace(s, c, with)
  {
    assert ([x] + s)[1..] == s;
  }

  /** Text without quotes and backslashes stays as it is. */
  lemma {:induction false} EscapePlain(s: string)
    requires '"' !in s && '\\' !in s
    ensures Escape(s) == s
  {
    if s != "" {
      EscapePlain(s[1..]);
      EscapeCons(s[0], s[1..]);
      assert s == [s[0]] + s[1..];
    }
  }

  // ----- reading strings -------------------------------------------------------------------

  datatype Reader = Reader(current: string, inString: bool, escape: bool, result: seq<string>)

  function Feed(r: Reader, c: char): Reader {
    if r.escape then r.(current := r.current + [c], escape := false)
    else if c == '\\' then r.(escape := true)
    else if c == '"' then
      if r.inString then Reader("", false, false, r.result + [r.current]) else r.(inString := true)
    else if r.inString then r.(current := r.current + [c])
    else r
  }

  function FeedAll(r: Reader, s: string): Reader
    decreases s
  {
    if s == "" then r else FeedAll(Feed(r, s[0]), s[1..])
  }

  const START: Reader := Reader("", false, false, [])

  /** `parse_string_array`, as a function. */
  function StringsOf(value: string): seq<string> {
    var trimmed := Trim(value);
    if trimmed == "" || trimmed[0] != '[' || trimmed[|trimmed| - 1] != ']' then []
    else FeedAll(START, trimmed[1..|trimmed| - 1]).result
  }

  method ParseStringArray(value: string) returns (result: seq<string>)
    ensures result == StringsOf(value)
  {
    var trimmed := Trim(value);
    if trimmed == "" || trimmed[0] != '[' || trimmed[|trimmed| - 1] != ']' {
      return [];
    }
    var inner := trimmed[1..|trimmed| - 1];
    result := [];
    var current := "";
    var inString, escape := false, false;
    for i := 0 to |inner|
      invariant FeedAll(Reader(current, inString, escape, result), inner[i..]) == FeedAll(START, inner)
    {
      assert inner[i..][1..] == inner[i + 1..];
      var ch := inner[i];
      if escape {
        current := current + [ch];
        escape := false;
        continue;
      }
      if ch == '\\' {
        escape := true;
        continue;
      }
      if ch == '"' {
        if inString {
          result := result + [current];
          current := "";
          inString := false;
        } else {
          inString := true;
        }
        continue;
      }
      if inString {
        current := current + [ch];
      }
    }
  }

  lemma {:induction false} FeedConcat(r: Reader, a: string, b: string)
    ensures FeedAll(r, a + b) == FeedAll(FeedAll(r, a), b)
    decreases a
  {
    if a == "" {
      assert a + b == b;
    } else {
      assert (a + b)[1..] == a[1..] + b;
      FeedConcat(Feed(r, a[0]), a[1..], b);
    }
  }

  lemma FeedChar(r: Reader, c: char)
    ensures FeedAll(r, [c]) == Feed(r, c)
  {
    assert [c][1..] == "";
  }

  lemma FeedEscapedChar(r: Reader, c: char)
    requires !r.escape
    ensures FeedAll(r, EscapeChar(c)) ==
            if r.inString || c == '\\' || c == '"' then r.(current := r.current + [c]) else r
  {
    var e := EscapeChar(c);
    if |e| == 2 {
      assert e[1..] == [c];
      FeedChar(Feed(r, '\\'), c);
    } else {
      FeedChar(r, c);
    }
  }

  /** Inside a string, an escaped text reads as the text. */
  lemma {:induction false} FeedEscaped(r: Reader, s: string)
    requires r.inString && !r.escape
    ensures FeedAll(r, Escape(s)) == r.(current := r.current + s)
    decreases s
  {
    hide Escape, EscapeChar;
    if s == "" {
      EscapePlain("");
      assert r.current + s == r.current;
    } else {
      EscapeCons(s[0], s[1..]);
      assert s == [s[0]] + s[1..];
      FeedConcat(r, EscapeChar(s[0]), Escape(s[1..]));
      FeedEscapedChar(r, s[0]);
      var next := r.(current := r.current + [s[0]]);
      FeedEscaped(next, s[1..]);
      SeqAssoc(r.current, [s[0]], s[1..]);
    }
  }

  lemma FeedQuoted(result: seq<string>, s: string)
    ensures FeedAll(Reader("", false, false, result), Quote(s)) == Reader("", false, false, result + [s])
  {
    hide Escape;
    var r := Reader("", false, false, result);
    SeqAssoc("\"", Escape(s), "\"");
    FeedConcat(r, "\"", Escape(s) + "\"");
    FeedChar(r, '"');
    FeedConcat(Feed(r, '"'), Escape(s), "\"");
    FeedEscaped(Feed(r, '"'), s);
    assert "" + s == s;
    FeedChar(Reader(s, true, false, result), '"');
  }

  /** Between strings, what is no quote and no backslash does not matter. */
  lemma {:induction false} FeedBetween(r: Reader, s: string)
    requires !r.inString && !r.escape && '"' !in s && '\\' !in s
    ensures FeedAll(r, s) == r
    decreases s
  {
    if s != "" {
      FeedBetween(r, s[1..]);
    }
  }

  lemma {:induction false} FeedJoined(result: seq<string>, strings: seq<string>)
    ensures FeedAll(Reader("", false, false, result), Join(Quoted(strings), ", ")) ==
            Reader("", false, false, result + strings)
    decreases strings
  {
    hide Quote;
    var r := Reader("", false, false, result);
    if strings == [] {
      assert result + strings == result;
    } else {
      var rest := strings[1..];
      assert strings == [strings[0]] + rest;
      assert Quoted(strings)[1..] == Quoted(rest);
      var next := Reader("", false, false, result + [strings[0]]);
      FeedQuoted(result, strings[0]);
      FeedJoined(result + [strings[0]], rest);
      SeqAssoc(result, [strings[0]], rest);
      if rest != [] {
        FeedConcat(r, Quote(strings[0]) + ", ", Join(Quoted(rest), ", "));
        FeedConcat(r, Quote(strings[0]), ", ");
        FeedBetween(next, ", ");
      }
    }
  }

  /** Round trip of string arrays: any strings at all come back. */
  lemma StringArrayRoundTrip(strings: seq<string>)
    ensures StringsOf(StringArray(strings)) == strings
  {
    hide Quote, Join, StringsOf;
    BracketedStrings(Join(Quoted(strings), ", "));
    FeedJoined([], strings);
    assert [] + strings == strings;
  }

  /** What is read between brackets. */
  lemma BracketedStrings(inner: string)
    ensures StringsOf("[" + inner + "]") == FeedAll(START, inner).result
  {
    hide Trim, FeedAll;
    var text := "[" + inner + "]";
    assert text[0] == '[' && text[|text| - 1] == ']' && text[1..|text| - 1] == inner;
    TrimFixed(text);
  }

  // ----- reading pairs ------------------------------------------------------------------------

  datatype Scanner = Scanner(depth: int, current: string, raws: seq<string>)

  function Scan(s: Scanner, c: char): Scanner {
    if c == '[' then
      Scanner(s.depth + 1, if s.depth + 1 >= 2 then s.current + [c] else s.current, s.raws)
    else if c == ']' then
      if s.depth == 2 then Scanner(1, "", s.raws + [s.current + [c]])
      else Scanner(s.depth - 1, if s.depth >= 2 then s.current + [c] else s.current, s.raws)
    else if s.depth >= 2 then s.(current := s.current + [c])
    else s
  }

  function ScanAll(s: Scanner, text: string): Scanner
    decreases text
  {
    if text == "" then s else ScanAll(Scan(s, text[0]), text[1..])
  }

  function PairOf(raw: string): Option<MovedEntry> {
    var strings := StringsOf(raw);
    if |strings| == 2 then Some(MovedEntry(strings[0], strings[1])) else None
  }

  function PairsIn(raws: seq<string>): seq<MovedEntry> {
    if raws == [] then []
    else
      var last := PairOf(raws[|raws| - 1]);
      if last.Some? then PairsIn(raws[..|raws| - 1]) + [last.value] else PairsIn(raws[..|raws| - 1])
  }

  /** `parse_moved_array`, as a function. */
  function PairsOf(value: string): seq<MovedEntry> {
    PairsIn(ScanAll(Scanner(0, "", []), value).raws)
  }

  method ParseMovedArray(value: string) returns (pairs: seq<MovedEntry>)
    ensures pairs == PairsOf(value)
  {
    hide PairOf;
    var depth := 0;
    var current := "";
    var pairsRaw: seq<string> := [];
    for i := 0 to |value|
      invariant ScanAll(Scanner(depth, current, pairsRaw), value[i..]) == ScanAll(Scanner(0, "", []), value)
    {
      assert value[i..][1..] == value[i + 1..];
      var ch := value[i];
      if ch == '[' {
        depth := depth + 1;
        if depth >= 2 {
          current := current + [ch];
        }
      } else if ch == ']' {
        if depth == 2 {
          current := current + [ch];
          pairsRaw := pairsRaw + [current];
          current := "";
        } else if depth >= 2 {
          current := current + [ch];
        }
        depth := depth - 1;
      } else if depth >= 2 {
        current := current + [ch];
      }
    }
    pairs := [];
    for i := 0 to |pairsRaw|
      invariant pairs == PairsIn(pairsRaw[..i])
    {
      assert pairsRaw[..i + 1][..i] == pairsRaw[..i];
      var pair := ReadPair(pairsRaw[i]);
      if pair.Some? {
        pairs := pairs + [pair.value];
      }
    }
    assert pairsRaw[..|pairsRaw|] == pairsRaw;
  }

  method ReadPair(raw: string) returns (pair: Option<MovedEntry>)
    ensures pair == PairOf(raw)
  {
    var strings := ParseStringArray(raw);
    if |strings| == 2 {
      return Some(MovedEntry(strings[0], strings[1]));
    }
    return None;
  }
}
