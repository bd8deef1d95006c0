/** Greedy word wrap of the startup banner (`wrap_plain` in `src/cli/ui.rs`). */
module Wrap {
  import opened Text

  /** The rest of the loop: the line in hand and the words to come. */
  function Fill(cur: string, words: seq<string>, width: nat): seq<string>
    decreases words
  {
    if words == [] then (if cur == "" then [] else [cur])
    else if cur == "" then Fill(words[0], words[1..], width)
    else if ByteLen(cur) + 1 + ByteLen(words[0]) <= width then Fill(cur + " " + words[0], words[1..], width)
    else [cur] + Fill(words[0], words[1..], width)
  }

  method WrapPlain(text: string, width: nat) returns (out: seq<string>)
    ensures out == Fill("", Split(text, ' '), width)
  {
    out := [];
    var cur := "";
    var words := Split(text, ' ');
    assert words[0..] == words;
    for i := 0 to |words|
      invariant Fill("", words, width) == out + Fill(cur, words[i..], width)
    {
      var word := words[i];
      assert words[i..][1..] == words[i + 1..];
      if cur == "" {
        cur := word;
      } else if ByteLen(cur) + 1 + ByteLen(word) <= width {
        cur := cur + " " + word;
      } else {
        SeqAssoc(out, [cur], Fill(word, words[i + 1..], width));
        out := out + [cur];
        cur := word;
      }
    }
    assert words[|words|..] == [];
    if cur != "" {
      out := out + [cur];
    }
  }

  // ----- breakings ---------------------------------------------------------------

  function Line(chunk: seq<string>): string {
    Join(chunk, " ")
  }

  function LinesOf(chunks: seq<seq<string>>): (r: seq<string>)
    ensures |r| == |chunks|
    ensures forall i :: 0 <= i < |chunks| ==> r[i] == Line(chunks[i])
  {
    if chunks == [] then [] else [Line(chunks[0])] + LinesOf(chunks[1..])
  }

  function Flatten(chunks: seq<seq<string>>): seq<string> {
    if chunks == [] then [] else chunks[0] + Flatten(chunks[1..])
  }

  /** A chunk makes an acceptable line: it fits, or is a single word. */
  predicate Fits(chunk: seq<string>, width: nat) {
    |chunk| == 1 || (chunk != [] && ByteLen(Line(chunk)) <= width)
  }

  /** A way to break the words into lines: nothing lost, reordered or empty,
      and every line acceptable. */
  ghost predicate Breaking(words: seq<string>, chunks: seq<seq<string>>, width: nat) {
    && Flatten(chunks) == words
    && forall i :: 0 <= i < |chunks| ==> Fits(chunks[i], width)
  }

  predicate NoEmptyWords(words: seq<string>) {
    forall i :: 0 <= i < |words| ==> words[i] != ""
  }

  // ----- the greedy breaking ----------------------------------------------------------

  /** The longest acceptable first line that has at least `m` words. */
  function Extend(words: seq<string>, m: nat, width: nat): (n: nat)
    requires 1 <= m <= |words| && Fits(words[..m], width)
    ensures m <= n <= |words|
    ensures Fits(words[..n], width)
    ensures n < |words| ==> !Fits(words[..n + 1], width)
    decreases |words| - m
  {
    if m < |words| && Fits(words[..m + 1], width) then Extend(words, m + 1, width) else m
  }

  /** The number of words on the first greedy line. */
  function First(words: seq<string>, width: nat): (n: nat)
    requires words != []
    ensures 1 <= n <= |words|
  {
    Extend(words, 1, width)
  }

  function Greedy(words: seq<string>, width: nat): seq<seq<string>>
    decreases |words|
  {
    if words == [] then []
    else
      var n := First(words, width);
      [words[..n]] + Greedy(words[n..], width)
  }

  lemma LineAppend(chunk: seq<string>, word: string)
    requires chunk != []
    ensures Line(chunk + [word]) == Line(chunk) + " " + word
    ensures ByteLen(Line(chunk + [word])) == ByteLen(Line(chunk)) + 1 + ByteLen(word)
  {
    assert Join([word], " ") == word;
    assert ByteLen(" ") == 1 by {
      assert " "[1..] == "";
    }
    hide Join, ByteLen;
    JoinConcat(chunk, [word], " ");
    ByteLenConcat(Line(chunk) + " ", word);
    ByteLenConcat(Line(chunk), " ");
  }

  lemma {:induction false} LineFront(chunk: seq<string>)
    requires |chunk| >= 2
    ensures ByteLen(Line(chunk[1..])) <= ByteLen(Line(chunk))
  {
    ByteLenConcat(chunk[0] + " ", Line(chunk[1..]));
  }

  /** Leaving words off the end of an acceptable line keeps it acceptable. */
  lemma {:induction false} FitsPrefix(words: seq<string>, a: nat, b: nat, width: nat)
    requires 1 <= a <= b <= |words| && Fits(words[..b], width)
    ensures Fits(words[..a], width)
    decreases b - a
  {
    if a < b {
      assert words[..b] == words[..b - 1] + [words[b - 1]];
      LineAppend(words[..b - 1], words[b - 1]);
      hide Line;
      FitsPrefix(words, a, b - 1, width);
    }
  }

  /** No acceptable first line is longer than the greedy one. */
  lemma GreedyFirstIsLongest(words: seq<string>, c: nat, width: nat)
    requires 1 <= c <= |words| && Fits(words[..c], width)
    ensures c <= First(words, width)
  {
    var n := First(words, width);
    if c > n {
      FitsPrefix(words, n + 1, c, width);
    }
  }

  lemma DropFirst(words: seq<string>, n: nat)
    requires 2 <= n <= |words|
    ensures words[1..][..n - 1] == words[..n][1..]
    ensures words[1..][n - 1..] == words[n..]
  {
  }

  /** Without its first word, the greedy first line ends no earlier. */
  lemma FirstWithoutOne(words: seq<string>, width: nat)
    requires words != [] && First(words, width) > 1
    ensures |words| > 1
    ensures First(words[1..], width) + 1 >= First(words, width)
  {
    var n := First(words, width);
    LineFront(words[..n]);
    DropFirst(words, n);
    hide Line, Extend;
    GreedyFirstIsLongest(words[1..], n - 1, width);
  }

  lemma GreedyStep(words: seq<string>, width: nat)
    requires words != []
    ensures |Greedy(words, width)| == 1 + |Greedy(words[First(words, width)..], width)|
  {
  }

  lemma SliceSlice(words: seq<string>, a: nat, b: nat)
    requires a <= a + b <= |words|
    ensures words[a..][b..] == words[a + b..]
  {
  }

  /** Fewer words never need more lines. */
  lemma {:induction false} GreedySuffix(words: seq<string>, j: nat, width: nat)
    requires j <= |words|
    ensures |Greedy(words[j..], width)| <= |Greedy(words, width)|
    decreases |words|, j
  {
    hide Greedy, First;
    if j == 0 {
      assert words[0..] == words;
    } else if j == 1 {
      GreedyWithoutOne(words, width);
    } else {
      GreedySuffix(words, 1, width);
      GreedySuffix(words[1..], j - 1, width);
      SliceSlice(words, 1, j - 1);
    }
  }

  lemma {:induction false} GreedyWithoutOne(words: seq<string>, width: nat)
    requires words != []
    ensures |Greedy(words[1..], width)| <= |Greedy(words, width)|
    decreases |words|, 0
  {
    hide Greedy, First;
    var n := First(words, width);
    GreedyStep(words, width);
    if n > 1 {
      FirstWithoutOne(words, width);
      var m := First(words[1..], width);
      GreedyStep(words[1..], width);
      SliceSlice(words, 1, m);
      SliceSlice(words, n, m + 1 - n);
      GreedySuffix(words[n..], m + 1 - n, width);
    }
  }

  /** Breaking the words after any acceptable first line needs at most one line
      less than breaking them all. */
  lemma GreedyAfter(words: seq<string>, c: nat, width: nat)
    requires 1 <= c <= |words| && Fits(words[..c], width)
    ensures |Greedy(words, width)| <= 1 + |Greedy(words[c..], width)|
  {
    hide Greedy, First, Fits;
    GreedyStep(words, width);
    GreedyFirstIsLongest(words, c, width);
    var n := First(words, width);
    GreedySuffix(words[c..], n - c, width);
    SliceSlice(words, c, n - c);
  }

  /** The greedy breaking has the fewest lines. */
  lemma {:induction false} GreedyIsOptimal(words: seq<string>, chunks: seq<seq<string>>, width: nat)
    requires Breaking(words, chunks, width)
    ensures |Greedy(words, width)| <= |chunks|
    decreases |chunks|
  {
    hide Fits, First;
    if chunks != [] {
      FirstChunk(words, chunks, width);
      hide Greedy, Breaking, Flatten;
      GreedyAfter(words, |chunks[0]|, width);
      GreedyIsOptimal(words[|chunks[0]|..], chunks[1..], width);
    }
  }

  lemma FirstChunk(words: seq<string>, chunks: seq<seq<string>>, width: nat)
    requires Breaking(words, chunks, width) && chunks != []
    ensures var c, rest := |chunks[0]|, Flatten(chunks[1..]);
            && 1 <= c <= |words| && words[..c] == chunks[0] && words[c..] == rest
            && Fits(chunks[0], width) && Breaking(rest, chunks[1..], width)
  {
    hide Line;
    var rest := Flatten(chunks[1..]);
    assert words == chunks[0] + rest;
    assert Fits(chunks[0], width);
    forall i | 0 <= i < |chunks[1..]|
      ensures Fits(chunks[1..][i], width)
    {
      assert chunks[1..][i] == chunks[i + 1];
    }
  }

  lemma {:induction false} GreedyBreaks(words: seq<string>, width: nat)
    ensures Breaking(words, Greedy(words, width), width)
    decreases |words|
  {
    if words != [] {
      var n := Extend(words, 1, width);
      GreedyBreaks(words[n..], width);
      assert words == words[..n] + words[n..];
      var g := Greedy(words, width);
      assert g[1..] == Greedy(words[n..], width);
    }
  }

  // ----- the loop is greedy ---------------------------------------------------------------

  predicate StartsFull(chunk: seq<string>) {
    chunk == [] || chunk[0] != ""
  }

  /** Every line of the greedy breaking starts with a word that is not empty. */
  predicate FullStarts(words: seq<string>, width: nat)
    decreases |words|
  {
    words == [] || (words[0] != "" && FullStarts(words[First(words, width)..], width))
  }

  lemma {:induction false} FullStartsIff(words: seq<string>, width: nat)
    ensures FullStarts(words, width) <==>
            forall i :: 0 <= i < |Greedy(words, width)| ==> StartsFull(Greedy(words, width)[i])
    decreases |words|
  {
    hide First;
    if words != [] {
      var n := First(words, width);
      FullStartsIff(words[n..], width);
      var g := Greedy(words, width);
      assert g == [words[..n]] + Greedy(words[n..], width);
      assert words[..n][0] == words[0];
      assert g[0] == words[..n];
      assert forall i :: 1 <= i < |g| ==> g[i] == Greedy(words[n..], width)[i - 1];
      assert forall i :: 0 <= i < |Greedy(words[n..], width)| ==> Greedy(words[n..], width)[i] == g[i + 1];
    }
  }

  lemma {:induction false} NoEmptyFullStarts(words: seq<string>, width: nat)
    requires NoEmptyWords(words)
    ensures FullStarts(words, width)
    decreases |words|
  {
    hide First;
    if words != [] {
      NoEmptyFullStarts(words[First(words, width)..], width);
    }
  }

  /** With the first `m` words on the line in hand, the loop goes on as the
      greedy breaking does, if the words to come do so. */
  lemma {:induction false} FillIsGreedy(words: seq<string>, m: nat, width: nat)
    requires 1 <= m <= |words| && words[0] != "" && Fits(words[..m], width)
    requires FullStarts(words[Extend(words, m, width)..], width)
    ensures var n := Extend(words, m, width);
            Fill(Line(words[..m]), words[m..], width) == [Line(words[..n])] + LinesOf(Greedy(words[n..], width))
    decreases |words| - m
  {
    hide Greedy, LinesOf, Line, Fits, Fill;
    LineNotEmpty(words[..m]);
    var rest := words[m..];
    FillStep(words, m, width);
    if m == |words| {
      assert rest == [] && Extend(words, m, width) == m;
      NothingToWrap(width);
      assert [Line(words[..m])] + [] == [Line(words[..m])];
    } else if Fits(words[..m + 1], width) {
      FillIsGreedy(words, m + 1, width);
    } else {
      assert Extend(words, m, width) == m;
      OneWordFits(rest, width);
      FillIsGreedy(rest, 1, width);
      GreedyLines(rest, width);
    }
  }

  lemma NothingToWrap(width: nat)
    ensures LinesOf(Greedy([], width)) == []
  {
  }

  lemma OneWordFits(words: seq<string>, width: nat)
    requires words != []
    ensures Fits(words[..1], width) && Line(words[..1]) == words[0]
  {
    assert words[..1] == [words[0]];
  }

  lemma GreedyLines(words: seq<string>, width: nat)
    requires words != []
    ensures var n := First(words, width);
            LinesOf(Greedy(words, width)) == [Line(words[..n])] + LinesOf(Greedy(words[n..], width))
  {
    hide Line, First;
    var g := Greedy(words, width);
    assert g[1..] == Greedy(words[First(words, width)..], width);
  }

  /** One turn of the loop, with a line in hand. */
  lemma FillStep(words: seq<string>, m: nat, width: nat)
    requires 1 <= m <= |words| && Fits(words[..m], width) && Line(words[..m]) != ""
    ensures Fill(Line(words[..m]), words[m..], width) ==
            if m == |words| then [Line(words[..m])]
            else if Fits(words[..m + 1], width) then Fill(Line(words[..m + 1]), words[m + 1..], width)
            else [Line(words[..m])] + Fill(words[m], words[m + 1..], width)
    ensures m < |words| ==> words[m..][0] == words[m] && words[m..][1..] == words[m + 1..]
  {
    hide Line;
    if m < |words| {
      assert words[m..][1..] == words[m + 1..];
      assert words[..m + 1] == words[..m] + [words[m]];
      LineAppend(words[..m], words[m]);
    }
  }

  lemma LineNotEmpty(chunk: seq<string>)
    requires chunk != [] && chunk[0] != ""
    ensures Line(chunk) != ""
  {
  }

  lemma FillFromNothing(words: seq<string>, width: nat)
    requires FullStarts(words, width)
    ensures Fill("", words, width) == LinesOf(Greedy(words, width))
  {
    hide Greedy, LinesOf, Line, Fits;
    if words == [] {
      NothingToWrap(width);
    } else {
      OneWordFits(words, width);
      FillIsGreedy(words, 1, width);
      GreedyLines(words, width);
    }
  }

  // ----- the text is kept --------------------------------------------------------------------

  lemma {:induction false} JoinLines(chunks: seq<seq<string>>)
    requires forall i :: 0 <= i < |chunks| ==> chunks[i] != []
    ensures Join(LinesOf(chunks), " ") == Join(Flatten(chunks), " ")
  {
    if |chunks| == 1 {
      assert Flatten(chunks[1..]) == [];
      assert Flatten(chunks) == chunks[0];
    } else if |chunks| > 1 {
      JoinLines(chunks[1..]);
      assert LinesOf(chunks)[1..] == LinesOf(chunks[1..]);
      assert Flatten(chunks[1..]) == chunks[1] + Flatten(chunks[1..][1..]);
      JoinConcat(chunks[0], Flatten(chunks[1..]), " ");
    }
  }

  /** Joining the lines gives the text back, every line fits or is one word, and
      no other way to break the words does with fewer lines; for every text of
      which no greedy line starts with a space, and so in particular for words
      with single spaces between them. */
  lemma WrapIsOptimal(text: string, width: nat)
    requires FullStarts(Split(text, ' '), width)
    ensures var words, out := Split(text, ' '), Fill("", Split(text, ' '), width);
            && Join(out, " ") == text
            && (exists chunks :: Breaking(words, chunks, width) && out == LinesOf(chunks))
            && (forall chunks :: Breaking(words, chunks, width) ==> |out| <= |chunks|)
  {
    var words := Split(text, ' ');
    FillFromNothing(words, width);
    GreedyBreaks(words, width);
    SplitJoin(text, ' ');
    hide Split, Fill, Line, Join, FullStarts;
    JoinLines(Greedy(words, width));
    forall chunks | Breaking(words, chunks, width)
      ensures |Greedy(words, width)| <= |chunks|
    {
      GreedyIsOptimal(words, chunks, width);
    }
  }

  /** Lines of words: each is one word or not wider than allowed, and the first word
      of the next line would make it wider. */
  ghost predicate FullLines(chunks: seq<seq<string>>, width: nat) {
    forall i :: 0 <= i < |chunks| ==>
      && chunks[i] != []
      && (|chunks[i]| == 1 || ByteLen(Join(chunks[i], " ")) <= width)
      && (i + 1 < |chunks| ==>
            chunks[i + 1] != [] && ByteLen(Join(chunks[i], " ")) + 1 + ByteLen(chunks[i + 1][0]) > width)
  }

  lemma {:induction false} GreedyIsFull(words: seq<string>, width: nat)
    ensures FullLines(Greedy(words, width), width)
    decreases |words|
  {
    hide ByteLen, Join;
    if words != [] {
      var n := First(words, width);
      var rest := Greedy(words[n..], width);
      GreedyIsFull(words[n..], width);
      FirstIsFull(words, n, width);
      assert Greedy(words, width) == [words[..n]] + rest;
      if n < |words| {
        assert rest[0][0] == words[n];
      }
      FullCons(words[..n], rest, width);
    }
  }

  lemma FirstIsFull(words: seq<string>, n: nat, width: nat)
    requires words != [] && n == First(words, width)
    ensures n == 1 || ByteLen(Join(words[..n], " ")) <= width
    ensures n < |words| ==> ByteLen(Join(words[..n], " ")) + 1 + ByteLen(words[n]) > width
  {
    hide ByteLen, Join;
    if n < |words| {
      assert words[..n + 1] == words[..n] + [words[n]];
      LineAppend(words[..n], words[n]);
    }
  }

  lemma FullCons(chunk: seq<string>, rest: seq<seq<string>>, width: nat)
    requires FullLines(rest, width) && chunk != []
    requires |chunk| == 1 || ByteLen(Join(chunk, " ")) <= width
    requires rest != [] ==> rest[0] != [] && ByteLen(Join(chunk, " ")) + 1 + ByteLen(rest[0][0]) > width
    ensures FullLines([chunk] + rest, width)
  {
    hide ByteLen, Join;
    var all := [chunk] + rest;
    assert forall i :: 1 <= i < |all| ==> all[i] == rest[i - 1];
  }

  /** In bytes: no line is wider than allowed unless it is one word, and each takes as
      many words as it can. */
  lemma WrapFillsLines(text: string, width: nat) returns (chunks: seq<seq<string>>)
    requires FullStarts(Split(text, ' '), width)
    ensures Flatten(chunks) == Split(text, ' ') && FullLines(chunks, width)
    ensures var out := Fill("", Split(text, ' '), width);
            |out| == |chunks| && forall i :: 0 <= i < |out| ==> out[i] == Join(chunks[i], " ")
  {
    var words := Split(text, ' ');
    FillFromNothing(words, width);
    GreedyBreaks(words, width);
    hide Split, Fill, Join, FullStarts, FullLines;
    GreedyIsFull(words, width);
    chunks := Greedy(words, width);
  }

  // ----- when a space is lost -----------------------------------------------------------------

  lemma JoinCons(word: string, words: seq<string>)
    ensures |Join([word] + words, " ")| == |word| + if words == [] then 0 else 1 + |Join(words, " ")|
  {
    assert ([word] + words)[1..] == words;
  }

  lemma JoinPair(a: string, b: string, words: seq<string>)
    ensures Join([a + " " + b] + words, " ") == Join([a] + ([b] + words), " ")
  {
    assert ([a + " " + b] + words)[1..] == words;
    assert ([a] + ([b] + words))[1..] == [b] + words;
    assert ([b] + words)[1..] == words;
  }

  /** The lines are never longer together than the words, and shorter if the line
      in hand is empty and there are words to come. */
  lemma {:induction false} FillBound(cur: string, words: seq<string>, width: nat)
    ensures var bound := |Join([cur] + words, " ")|;
            |Join(Fill(cur, words, width), " ")| <= if cur == "" && words != [] then bound - 1 else bound
    decreases words
  {
    hide Join, ByteLen;
    JoinCons(cur, words);
    if words == [] {
      JoinCons(cur, []);
      JoinOfNothing();
      assert [cur] + [] == [cur];
    } else {
      var word, rest := words[0], words[1..];
      assert words == [word] + rest;
      if cur == "" {
        FillBound(word, rest, width);
      } else if ByteLen(cur) + 1 + ByteLen(word) <= width {
        FillBound(cur + " " + word, rest, width);
        JoinPair(cur, word, rest);
      } else {
        FillBound(word, rest, width);
        JoinCons(cur, Fill(word, rest, width));
      }
    }
  }

  lemma JoinOfNothing()
    ensures Join([], " ") == ""
  {
  }

  /** A line that starts with a space makes the lines shorter together than the
      words. */
  lemma {:induction false} FillLoses(words: seq<string>, m: nat, width: nat)
    requires 1 <= m <= |words| && words[0] != "" && Fits(words[..m], width)
    requires !FullStarts(words[Extend(words, m, width)..], width)
    ensures |Join(Fill(Line(words[..m]), words[m..], width), " ")| < |Join(words, " ")|
    decreases |words| - m
  {
    hide Line, Fits, Fill, Join;
    LineNotEmpty(words[..m]);
    FillStep(words, m, width);
    if m < |words| && Fits(words[..m + 1], width) {
      FillLoses(words, m + 1, width);
    } else {
      var rest := words[m..];
      assert Extend(words, m, width) == m && rest != [];
      JoinSplitAt(words, m);
      var tail := Fill(rest[0], rest[1..], width);
      JoinCons(Line(words[..m]), tail);
      assert rest == [rest[0]] + rest[1..];
      if rest[0] == "" {
        FillBound("", rest[1..], width);
        EmptyTail(rest[1..], width);
      } else {
        OneWordFits(rest, width);
        FillLoses(rest, 1, width);
      }
    }
  }

  lemma EmptyTail(words: seq<string>, width: nat)
    ensures words == [] ==> Fill("", words, width) == []
  {
  }

  lemma JoinSplitAt(words: seq<string>, m: nat)
    requires 1 <= m < |words|
    ensures |Join(words, " ")| == |Line(words[..m])| + 1 + |Join(words[m..], " ")|
  {
    assert words == words[..m] + words[m..];
    JoinConcat(words[..m], words[m..], " ");
  }

  /** For every text: joining the lines gives it back exactly when no greedy line
      starts with a space, or it is empty. Runs of spaces are kept within lines;
      one that falls at the start of a line loses a space. */
  lemma WrapKeepsTextIff(text: string, width: nat)
    ensures var words := Split(text, ' ');
            Join(Fill("", words, width), " ") == text <==>
            text == "" || forall i :: 0 <= i < |Greedy(words, width)| ==> StartsFull(Greedy(words, width)[i])
  {
    var words := Split(text, ' ');
    FullStartsIff(words, width);
    SplitJoin(text, ' ');
    hide Split, Join, Greedy, ByteLen;
    var first, rest := words[0], words[1..];
    assert words == [first] + rest;
    assert Fill("", words, width) == Fill(first, rest, width);
    if text == "" {
      FillBound("", words, width);
      JoinCons("", words);
    } else if FullStarts(words, width) {
      WrapIsOptimal(text, width);
    } else if first == "" {
      FillBound("", rest, width);
      JoinCons("", []);
      JoinOfNothing();
      assert [""] + [] == [""];
    } else {
      OneWordFits(words, width);
      FillLoses(words, 1, width);
    }
  }

  // ----- any text -----------------------------------------------------------------------------

  function Unspaced(s: string): string {
    if s == "" then ""
    else if s[0] == ' ' then Unspaced(s[1..])
    else [s[0]] + Unspaced(s[1..])
  }

  function UnspacedAll(lines: seq<string>): string {
    if lines == [] then "" else Unspaced(lines[0]) + UnspacedAll(lines[1..])
  }

  lemma {:induction false} UnspacedConcat(a: string, b: string)
    ensures Unspaced(a + b) == Unspaced(a) + Unspaced(b)
  {
    if a == "" {
      assert a + b == b;
    } else {
      assert (a + b)[1..] == a[1..] + b;
      UnspacedConcat(a[1..], b);
    }
  }

  lemma {:induction false} UnspacedWords(text: string)
    ensures UnspacedAll(Split(text, ' ')) == Unspaced(text)
  {
    if text == "" {
      assert [""][1..] == [];
    } else {
      UnspacedWords(text[1..]);
      var rest := Split(text[1..], ' ');
      if text[0] == ' ' {
        assert ([""] + rest)[1..] == rest;
      } else {
        var first := [text[0]] + rest[0];
        assert ([first] + rest[1..])[1..] == rest[1..];
        UnspacedConcat([text[0]], rest[0]);
        assert Unspaced([text[0]]) == [text[0]];
      }
    }
  }

  lemma {:induction false} FillKeepsLetters(cur: string, words: seq<string>, width: nat)
    ensures UnspacedAll(Fill(cur, words, width)) == Unspaced(cur) + UnspacedAll(words)
    decreases words
  {
    if words == [] {
      assert [cur][1..] == [];
    } else if cur == "" {
      FillKeepsLetters(words[0], words[1..], width);
    } else if ByteLen(cur) + 1 + ByteLen(words[0]) <= width {
      FillKeepsLetters(cur + " " + words[0], words[1..], width);
      UnspacedConcat(cur + " ", words[0]);
      UnspacedConcat(cur, " ");
      assert Unspaced(" ") == "";
    } else {
      FillKeepsLetters(words[0], words[1..], width);
      var rest := Fill(words[0], words[1..], width);
      assert ([cur] + rest)[1..] == rest;
    }
  }

  /** Any text at all, runs of spaces included: wrapping loses, adds and
      reorders nothing but spaces. */
  lemma WrapKeepsLetters(text: string, width: nat)
    ensures UnspacedAll(Fill("", Split(text, ' '), width)) == Unspaced(text)
  {
    FillKeepsLetters("", Split(text, ' '), width);
    UnspacedWords(text);
    assert Unspaced("") == "";
  }

  const DOUBLE: string := "a  b"

  /** Two spaces at the end of a full line: the second would start the next one,
      and is lost. */
  lemma SpaceIsLost()
    ensures Fill("", Split(DOUBLE, ' '), 1) == ["a", "b"]
    ensures Join(["a", "b"], " ") == "a b" != DOUBLE
  {
    DoubleWords();
    hide Split;
    OneByte();
    var words := ["a", "", "b"];
    assert words[1..] == ["", "b"] && ["", "b"][1..] == ["b"] && ["b"][1..] == [];
    assert Fill("b", [], 1) == ["b"];
    assert Fill("", ["b"], 1) == ["b"];
    assert Fill("a", ["", "b"], 1) == ["a"] + Fill("", ["b"], 1);
    assert ["a", "b"][1..] == ["b"];
    assert |"a b"| == 3;
  }

  lemma DoubleWords()
    ensures Split(DOUBLE, ' ') == ["a", "", "b"]
  {
    assert DOUBLE[1..] == "  b" && "  b"[1..] == " b" && " b"[1..] == "b" && "b"[1..] == "";
    assert Split("", ' ') == [""];
    var none := [""];
    assert none[1..] == [] && ['b'] + none[0] == "b";
    assert Split("b", ' ') == [['b'] + none[0]] + none[1..] == ["b"];
    assert Split(" b", ' ') == ["", "b"];
    assert Split("  b", ' ') == ["", "", "b"];
    var rest := ["", "", "b"];
    assert rest[1..] == ["", "b"] && ['a'] + rest[0] == "a";
    assert Split(DOUBLE, ' ') == [['a'] + rest[0]] + rest[1..];
  }

  lemma OneByte()
    ensures ByteLen("a") == 1 && ByteLen("") == 0
  {
    assert "a"[1..] == "";
  }
}
