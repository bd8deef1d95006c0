/** Strings as the program handles them: Rust's `str::lines`, `trim`, `join`
    and byte lengths, with the facts every other module needs about them. */
module Text {

  datatype Option<+T> = None | Some(value: T)

  /** A computation that may abort the way Rust's slicing does. */
  datatype Outcome<+T> = Done(value: T) | Panic

  // ----- characters ---------------------------------------------------

  /** The Unicode White_Space class, which `str::trim` strips. */
  predicate IsWhitespace(c: char) {
    || '\t' <= c <= '\r'
    || c == ' '
    || c == '\U{0085}'
    || c == '\U{00A0}'
    || c == '\U{1680}'
    || '\U{2000}' <= c <= '\U{200A}'
    || c == '\U{2028}'
    || c == '\U{2029}'
    || c == '\U{202F}'
    || c == '\U{205F}'
    || c == '\U{3000}'
  }

  predicate IsAsciiAlphanumeric(c: char) {
    || 'a' <= c <= 'z'
    || 'A' <= c <= 'Z'
    || '0' <= c <= '9'
  }

  /** Bytes that UTF-8 spends on a character. */
  function CharBytes(c: char): nat {
    if c < '\U{0080}' then 1 else if c < '\U{0800}' then 2 else if c < '\U{10000}' then 3 else 4
  }

  /** `str::len`: the length in bytes. */
  function ByteLen(s: string): nat {
    if s == "" then 0 else CharBytes(s[0]) + ByteLen(s[1..])
  }

  lemma {:induction false} ByteLenAtLeast(s: string)
    ensures ByteLen(s) >= |s|
  {
    if s != "" {
      ByteLenAtLeast(s[1..]);
    }
  }

  lemma {:induction false} ByteLenConcat(a: string, b: string)
    ensures ByteLen(a + b) == ByteLen(a) + ByteLen(b)
  {
    if a == "" {
      assert a + b == b;
    } else {
      assert (a + b)[1..] == a[1..] + b;
      ByteLenConcat(a[1..], b);
    }
  }

  // ----- byte positions -----------------------------------------------

  /** The `k`-th character begins before byte `n` and ends after it. */
  predicate Straddles(s: string, k: nat, n: nat)
    requires k < |s|
  {
    ByteLen(s[..k]) < n < ByteLen(s[..k]) + CharBytes(s[k])
  }

  ghost predicate CutsCharacter(s: string, n: nat) {
    exists k :: 0 <= k < |s| && Straddles(s, k, n)
  }

  lemma StraddlesTail(s: string, n: nat)
    requires s != "" && CharBytes(s[0]) <= n
    ensures CutsCharacter(s, n) <==> CutsCharacter(s[1..], n - CharBytes(s[0]))
  {
    var tail, m := s[1..], n - CharBytes(s[0]);
    assert s[..0] == "";
    if k :| 0 <= k < |s| && Straddles(s, k, n) {
      StraddlesNext(s, k - 1, n);
      assert Straddles(tail, k - 1, m);
    }
    if k :| 0 <= k < |tail| && Straddles(tail, k, m) {
      StraddlesNext(s, k, n);
      assert Straddles(s, k + 1, n);
    }
  }

  lemma StraddlesNext(s: string, k: nat, n: nat)
    requires k + 1 < |s| && CharBytes(s[0]) <= n
    ensures Straddles(s, k + 1, n) <==> Straddles(s[1..], k, n - CharBytes(s[0]))
  {
    assert s[..k + 1][1..] == s[1..][..k];
  }

  /** Before the end of a text, and behind it, nothing is cut. */
  lemma CutsWithin(s: string, n: nat)
    ensures CutsCharacter(s, n) ==> 0 < n < ByteLen(s)
  {
    if k :| 0 <= k < |s| && Straddles(s, k, n) {
      assert s == s[..k] + ([s[k]] + s[k + 1..]);
      ByteLenConcat(s[..k], [s[k]] + s[k + 1..]);
      assert ([s[k]] + s[k + 1..])[1..] == s[k + 1..];
    }
  }

  /** Text in front only shifts the cut. */
  lemma {:induction false} CutsShift(a: string, s: string, n: nat)
    ensures CutsCharacter(a + s, ByteLen(a) + n) <==> CutsCharacter(s, n)
  {
    if a == "" {
      assert a + s == s;
    } else {
      assert (a + s)[1..] == a[1..] + s;
      CutsShift(a[1..], s, n);
      StraddlesTail(a + s, ByteLen(a) + n);
    }
  }

  /** Text behind a line does not matter to a cut within the line. */
  lemma {:induction false} CutsFront(s: string, tail: string, n: nat)
    requires n <= ByteLen(s)
    ensures CutsCharacter(s + tail, n) <==> CutsCharacter(s, n)
    decreases |s|
  {
    CutsWithin(s + tail, n);
    CutsWithin(s, n);
    if s != "" && n > 0 {
      var x := s + tail;
      assert x[1..] == s[1..] + tail && x[0] == s[0];
      if CharBytes(s[0]) <= n {
        CutsFront(s[1..], tail, n - CharBytes(s[0]));
        StraddlesTail(s, n);
        StraddlesTail(x, n);
      } else {
        assert Straddles(s, 0, n) && Straddles(x, 0, n) by {
          assert s[..0] == "" && x[..0] == "";
        }
      }
    }
  }

  function AsciiLower(s: string): (r: string)
    ensures |r| == |s|
  {
    seq(|s|, i requires 0 <= i < |s| => if 'A' <= s[i] <= 'Z' then (s[i] as int + 32) as char else s[i])
  }

  // ----- searching ----------------------------------------------------

  function CountChar(s: string, c: char): (n: nat)
    ensures n <= |s|
  {
    if s == "" then 0 else (if s[0] == c then 1 else 0) + CountChar(s[1..], c)
  }

  predicate HasSuffix(s: string, suffix: string) {
    |suffix| <= |s| && s[|s| - |suffix|..] == suffix
  }

  /** `str::find`: the first occurrence of `pat` at or after `from`. */
  function Find(s: string, pat: string, from: nat): (r: Option<nat>)
    requires from <= |s|
    ensures r.Some? ==> from <= r.value <= |s| - |pat| && pat <= s[r.value..]
    decreases |s| - from
  {
    if pat <= s[from..] then Some(from)
    else if from == |s| then None
    else Find(s, pat, from + 1)
  }

  predicate OccursAt(s: string, pat: string, p: nat) {
    p + |pat| <= |s| && s[p..p + |pat|] == pat
  }

  /** What is found is the first occurrence, and nothing is found only if there
      is none. */
  lemma {:induction false} FindIsFirst(s: string, pat: string, from: nat)
    requires from <= |s|
    ensures var r := Find(s, pat, from);
            && (r.Some? ==> OccursAt(s, pat, r.value) && forall q :: from <= q < r.value ==> !OccursAt(s, pat, q))
            && (r.None? ==> forall q :: from <= q ==> !OccursAt(s, pat, q))
    decreases |s| - from
  {
    assert pat <= s[from..] <==> OccursAt(s, pat, from) by {
      if OccursAt(s, pat, from) {
        assert s[from..][..|pat|] == s[from..from + |pat|];
      }
    }
    if from < |s| && !(pat <= s[from..]) {
      FindIsFirst(s, pat, from + 1);
    }
  }

  /** The first occurrence of a character is where the text before has none. */
  lemma {:induction false} FindChar(a: string, c: char, rest: string, from: nat)
    requires from <= |a| && c !in a
    ensures Find(a + [c] + rest, [c], from) == Some(|a|)
    ensures Find(a, [c], from) == None
    decreases |a| - from
  {
    var whole := a + [c] + rest;
    if from < |a| {
      assert whole[from] == a[from] && a[from..][0] == a[from] && whole[from..][0] == a[from];
      FindChar(a, c, rest, from + 1);
    } else {
      assert whole[from..] == [c] + rest && a[from..] == "";
    }
  }

  /** `str::split` on one character: never empty. */
  function Split(s: string, c: char): (r: seq<string>)
    ensures r != []
  {
    if s == "" then [""]
    else
      var rest := Split(s[1..], c);
      if s[0] == c then [""] + rest else [[s[0]] + rest[0]] + rest[1..]
  }

  // ----- trimming -----------------------------------------------------

  function TrimStart(s: string): string {
    if s != "" && IsWhitespace(s[0]) then TrimStart(s[1..]) else s
  }

  function TrimEnd(s: string): string {
    if s != "" && IsWhitespace(s[|s| - 1]) then TrimEnd(s[..|s| - 1]) else s
  }

  /** `str::trim`. */
  function Trim(s: string): string {
    TrimEnd(TrimStart(s))
  }

  lemma {:induction false} TrimStartShorter(s: string)
    ensures |TrimStart(s)| <= |s|
  {
    hide IsWhitespace;
    if s != "" && IsWhitespace(s[0]) {
      TrimStartShorter(s[1..]);
    }
  }

  lemma {:induction false} TrimEndShorter(s: string)
    ensures |TrimEnd(s)| <= |s|
  {
    hide IsWhitespace;
    if s != "" && IsWhitespace(s[|s| - 1]) {
      TrimEndShorter(s[..|s| - 1]);
    }
  }

  lemma TrimIsShorter(s: string)
    ensures |Trim(s)| <= |s|
  {
    TrimStartShorter(s);
    TrimEndShorter(TrimStart(s));
  }

  /** A string with no white space at either end is its own trim. */
  lemma TrimFixed(s: string)
    requires s == "" || (!IsWhitespace(s[0]) && !IsWhitespace(s[|s| - 1]))
    ensures Trim(s) == s
  {
  }

  /** The first non-blank character survives trimming at the end. */
  lemma {:induction false} TrimEndKeepsFront(s: string)
    requires s != "" && !IsWhitespace(s[0])
    ensures TrimEnd(s) != "" && TrimEnd(s)[0] == s[0]
  {
    if IsWhitespace(s[|s| - 1]) {
      TrimEndKeepsFront(s[..|s| - 1]);
    }
  }

  lemma TrimDropsBlank(s: string)
    requires s != "" && IsWhitespace(s[0])
    ensures Trim(s) == Trim(s[1..])
  {
    hide IsWhitespace, TrimEnd;
  }

  /** Trimming eats only into what stands before a solid tail. */
  lemma {:induction false} TrimKeepsTail(a: string, tail: string) returns (rest: string)
    requires tail != "" && !IsWhitespace(tail[0]) && !IsWhitespace(tail[|tail| - 1])
    ensures Trim(a + tail) == rest + tail
  {
    hide Trim, IsWhitespace;
    var s := a + tail;
    assert s[|s| - 1] == tail[|tail| - 1];
    if a != "" && IsWhitespace(a[0]) {
      rest := TrimKeepsTail(a[1..], tail);
      assert s[1..] == a[1..] + tail;
      TrimDropsBlank(s);
    } else {
      rest := a;
      TrimFixed(s);
    }
  }

  /** White space before the text does not matter to the trim. */
  lemma {:induction false} TrimLeadingBlanks(blank: string, s: string)
    requires forall c :: c in blank ==> IsWhitespace(c)
    ensures Trim(blank + s) == Trim(s)
  {
    if blank == "" {
      assert blank + s == s;
    } else {
      assert (blank + s)[1..] == blank[1..] + s;
      TrimLeadingBlanks(blank[1..], s);
    }
  }

  lemma SeqAssoc<T>(a: seq<T>, b: seq<T>, c: seq<T>)
    ensures (a + b) + c == a + (b + c)
  {
  }

  /** The last separator tells what is before and after it. */
  lemma SplitAtLast(a: string, m: string, b: string, n: string, sep: char)
    requires sep !in m && sep !in n
    requires a + [sep] + m == b + [sep] + n
    ensures a == b && m == n
  {
    var s, t := a + [sep] + m, b + [sep] + n;
    assert s[|a|] == sep && t[|b|] == sep;
    assert forall i :: |a| < i < |s| ==> s[i] == m[i - |a| - 1];
    assert forall i :: |b| < i < |t| ==> t[i] == n[i - |b| - 1];
    assert |a| == |b|;
    assert s[..|a|] == a && t[..|b|] == b;
    assert s[|a| + 1..] == m && t[|b| + 1..] == n;
  }

  lemma FirstIsMember<T>(xs: seq<T>)
    ensures xs == [] || xs[0] in xs
  {
  }

  lemma TrimEmpty()
    ensures Trim("") == ""
  {
  }

  // ----- lines --------------------------------------------------------

  predicate EndsWith(s: string, c: char) {
    s != "" && s[|s| - 1] == c
  }

  /** What `lines` does to a terminated line: one carriage return goes. */
  function StripCR(line: string): (r: string)
    ensures !EndsWith(line, '\r') ==> r == line
    ensures EndsWith(line, '\r') ==> r + "\r" == line
  {
    if EndsWith(line, '\r') then line[..|line| - 1] else line
  }

  function StripCRs(lines: seq<string>): (r: seq<string>)
    ensures |r| == |lines|
    ensures forall i :: 0 <= i < |lines| ==> r[i] == StripCR(lines[i])
  {
    seq(|lines|, i requires 0 <= i < |lines| => StripCR(lines[i]))
  }

  /** Position `n` is the first newline of `s`, or its end. */
  predicate LineEnd(s: string, n: nat) {
    && n <= |s|
    && (forall i :: 0 <= i < n ==> s[i] != '\n')
    && (n < |s| ==> s[n] == '\n')
  }

  lemma {:induction false} LineEndExists(s: string)
    ensures exists n: nat :: LineEnd(s, n)
  {
    if s == "" || s[0] == '\n' {
      assert LineEnd(s, 0);
    } else {
      LineEndExists(s[1..]);
      var n: nat :| LineEnd(s[1..], n);
      assert forall i :: 1 <= i < n + 1 ==> s[i] == s[1..][i - 1];
      assert LineEnd(s, n + 1);
    }
  }

  function LineLength(s: string): (n: nat)
    ensures LineEnd(s, n)
  {
    LineEndExists(s);
    var n: nat :| LineEnd(s, n);
    n
  }

  lemma LineLengthIs(line: string, rest: string)
    requires '\n' !in line
    ensures LineLength(line + "\n" + rest) == |line|
    ensures LineLength(line) == |line|
  {
    assert LineEnd(line + "\n" + rest, |line|);
    assert LineEnd(line, |line|);
  }

  /** `str::lines`: split at newlines, dropping one carriage return before
      each; the text after the last newline is a line only if not empty. */
  function Lines(s: string): (r: seq<string>)
    ensures r == [] <==> s == ""
  {
    if s == "" then []
    else
      var n := LineLength(s);
      if n == |s| then [s]
      else [StripCR(s[..n])] + Lines(s[n + 1..])
  }

  lemma {:induction false} LinesHaveNoNewlines(s: string)
    ensures NoNewlines(Lines(s))
  {
    if s != "" {
      var n := LineLength(s);
      if n < |s| {
        LinesHaveNoNewlines(s[n + 1..]);
        forall l | l in Lines(s)
          ensures '\n' !in l
        {
          if l == StripCR(s[..n]) {
            assert forall i :: 0 <= i < |l| ==> l[i] == s[i];
          }
        }
      }
    }
  }

  /** Every line followed by a newline. */
  function Unlines(lines: seq<string>): (r: string)
    ensures lines == [] <==> r == ""
    ensures r != "" ==> r[|r| - 1] == '\n'
  {
    if lines == [] then "" else lines[0] + "\n" + Unlines(lines[1..])
  }

  /** `[T]::join`. */
  function Join(parts: seq<string>, sep: string): string {
    if parts == [] then ""
    else if |parts| == 1 then parts[0]
    else parts[0] + sep + Join(parts[1..], sep)
  }

  lemma {:induction false} JoinConcat(a: seq<string>, b: seq<string>, sep: string)
    requires a != [] && b != []
    ensures Join(a + b, sep) == Join(a, sep) + sep + Join(b, sep)
  {
    if |a| == 1 {
      assert (a + b)[1..] == b;
    } else {
      assert (a + b)[1..] == a[1..] + b;
      JoinConcat(a[1..], b, sep);
      assert a[0] + sep + (Join(a[1..], sep) + sep + Join(b, sep))
          == (a[0] + sep + Join(a[1..], sep)) + sep + Join(b, sep);
    }
  }

  /** Joining the pieces of a split gives the text back. */
  lemma {:induction false} SplitJoin(text: string, c: char)
    ensures Join(Split(text, c), [c]) == text
  {
    if text != "" {
      SplitJoin(text[1..], c);
      var rest := Split(text[1..], c);
      if text[0] == c {
        assert ([""] + rest)[1..] == rest;
        assert "" + [c] + text[1..] == text;
      } else {
        SplitJoinStep(text[0], rest, c);
      }
    }
  }

  lemma SplitJoinStep(x: char, rest: seq<string>, c: char)
    requires rest != []
    ensures Join([[x] + rest[0]] + rest[1..], [c]) == [x] + Join(rest, [c])
  {
    var parts := [[x] + rest[0]] + rest[1..];
    assert parts[1..] == rest[1..];
    if |rest| > 1 {
      assert ([x] + rest[0]) + [c] + Join(rest[1..], [c]) == [x] + (rest[0] + [c] + Join(rest[1..], [c]));
    }
  }

  ghost predicate NoNewlines(lines: seq<string>) {
    forall l :: l in lines ==> '\n' !in l
  }

  /** Lines that reading back does not change: no newline, no final `\r`. */
  ghost predicate CleanLines(lines: seq<string>) {
    forall l :: l in lines ==> '\n' !in l && !EndsWith(l, '\r')
  }

  /** A text whose lines stay what they are when written out with `\n` and
      read again. LF and CRLF texts are tidy; a doubled carriage return, or a
      bare one at the very end, is not. */
  ghost predicate Tidy(s: string) {
    forall l :: l in Lines(s) ==> !EndsWith(l, '\r')
  }

  lemma {:induction false} LinesCons(line: string, rest: string)
    requires '\n' !in line
    ensures Lines(line + "\n" + rest) == [StripCR(line)] + Lines(rest)
  {
    var s := line + "\n" + rest;
    LineLengthIs(line, rest);
    assert s[..|line|] == line;
    assert s[|line| + 1..] == rest;
  }

  lemma LinesLeadingNewline(rest: string)
    ensures Lines("\n" + rest) == [""] + Lines(rest)
  {
    LinesCons("", rest);
    assert "" + "\n" + rest == "\n" + rest;
  }

  /** A text that is closed, or has a newline in it, is its first line and
      the rest. */
  lemma LinesHead(s: string) returns (line: string, rest: string)
    requires EndsWith(s, '\n') || LineLength(s) < |s|
    ensures '\n' !in line && s == line + "\n" + rest && |rest| < |s|
    ensures Lines(s) == [StripCR(line)] + Lines(rest)
    ensures EndsWith(s, '\n') <==> (rest == "" || EndsWith(rest, '\n'))
  {
    var n := LineLength(s);
    assert n < |s| by {
      if n == |s| {
        assert false;
      }
    }
    line, rest := s[..n], s[n + 1..];
    if rest != "" {
      assert rest[|rest| - 1] == s[|s| - 1];
    }
  }

  lemma LinesConsConcat(line: string, rest: string, b: string)
    requires '\n' !in line
    ensures Lines(line + "\n" + rest + b) == [StripCR(line)] + Lines(rest + b)
  {
    assert line + "\n" + rest + b == line + "\n" + (rest + b);
    LinesCons(line, rest + b);
  }

  /** Text cut after a newline is read piece by piece. */
  lemma {:induction false} LinesConcat(a: string, b: string)
    requires a == "" || EndsWith(a, '\n')
    ensures Lines(a + b) == Lines(a) + Lines(b)
    decreases |a|
  {
    if a == "" {
      assert a + b == b;
    } else {
      var line, rest := LinesHead(a);
      LinesConcat(rest, b);
      LinesConsConcat(line, rest, b);
      SeqAssoc([StripCR(line)], Lines(rest), Lines(b));
    }
  }

  lemma StripCRsCons(lines: seq<string>)
    requires lines != []
    ensures StripCRs(lines) == [StripCR(lines[0])] + StripCRs(lines[1..])
  {
    hide StripCR;
  }

  lemma {:induction false} LinesUnlines(lines: seq<string>)
    requires NoNewlines(lines)
    ensures Lines(Unlines(lines)) == StripCRs(lines)
  {
    if lines != [] {
      LinesUnlinesStep(lines);
      assert NoNewlines(lines[1..]);
      LinesUnlines(lines[1..]);
      StripCRsCons(lines);
    } else {
      assert StripCRs(lines) == [];
    }
  }

  lemma LinesUnlinesStep(lines: seq<string>)
    requires lines != [] && '\n' !in lines[0]
    ensures Lines(Unlines(lines)) == [StripCR(lines[0])] + Lines(Unlines(lines[1..]))
  {
    var rest := Unlines(lines[1..]);
    assert Unlines(lines) == lines[0] + "\n" + rest;
    hide Unlines, StripCR;
    LinesCons(lines[0], rest);
  }

  /** Round trip: clean lines written out are read back unchanged. */
  lemma LinesUnlinesClean(lines: seq<string>)
    requires CleanLines(lines)
    ensures Lines(Unlines(lines)) == lines
  {
    LinesUnlines(lines);
    assert StripCRs(lines) == lines;
  }

  /** The same when the last line is left open. */
  lemma LinesOpenEnd(lines: seq<string>, last: string)
    requires NoNewlines(lines) && '\n' !in last
    ensures Lines(Unlines(lines) + last) == StripCRs(lines) + (if last == "" then [] else [last])
  {
    LinesUnlines(lines);
    LinesConcat(Unlines(lines), last);
    if last != "" {
      LineLengthIs(last, "");
    }
  }

  lemma {:induction false} UnlinesConcat(a: seq<string>, b: seq<string>)
    ensures Unlines(a + b) == Unlines(a) + Unlines(b)
  {
    if a == [] {
      assert a + b == b;
    } else {
      assert (a + b)[1..] == a[1..] + b;
      UnlinesConcat(a[1..], b);
    }
  }

  /** Joining with newlines leaves only the last newline out. */
  lemma {:induction false} JoinUnlines(lines: seq<string>)
    requires lines != []
    ensures Join(lines, "\n") == Unlines(lines[..|lines| - 1]) + lines[|lines| - 1]
    ensures Join(lines, "\n") + "\n" == Unlines(lines)
  {
    if |lines| > 1 {
      var front := lines[..|lines| - 1];
      JoinUnlines(lines[1..]);
      assert lines[1..][..|lines| - 2] == front[1..];
    } else {
      assert lines[1..] == [];
      assert Unlines(lines) == lines[0] + "\n" + "";
    }
  }

  lemma LastOfCons<T>(x: T, l: seq<T>)
    requires l != []
    ensures ([x] + l)[..|l|] == [x] + l[..|l| - 1] && ([x] + l)[|l|] == l[|l| - 1]
  {
  }

  /** Closing an open last line costs it at most a carriage return. */
  lemma {:induction false} LinesCloseEnd(a: string)
    requires a != "" && !EndsWith(a, '\n')
    ensures var ls := Lines(a); Lines(a + "\n") == ls[..|ls| - 1] + [StripCR(ls[|ls| - 1])]
    decreases |a|
  {
    hide StripCR;
    if LineLength(a) == |a| {
      LinesCons(a, "") by {
        assert a[..|a|] == a;
      }
      assert a + "\n" + "" == a + "\n";
    } else {
      var line, rest := LinesHead(a);
      LinesCloseEnd(rest);
      LinesConsConcat(line, rest, "\n");
      LastOfCons(StripCR(line), Lines(rest));
      var l := Lines(rest);
      SeqAssoc([StripCR(line)], l[..|l| - 1], [StripCR(l[|l| - 1])]);
    }
  }

  /** Terminating the last line: an open last line is closed (and loses one
      carriage return); a text that is empty or closed gains an empty line. */
  lemma LinesPlusNewline(a: string)
    ensures a == "" || EndsWith(a, '\n') ==> Lines(a + "\n") == Lines(a) + [""]
    ensures a != "" && !EndsWith(a, '\n') ==>
              var ls := Lines(a); Lines(a + "\n") == ls[..|ls| - 1] + [StripCR(ls[|ls| - 1])]
  {
    if a == "" || EndsWith(a, '\n') {
      LinesConcat(a, "\n");
      LinesCons("", "");
      assert "" + "\n" + "" == "\n";
    } else {
      LinesCloseEnd(a);
    }
  }

  /** Appending a text that starts with a newline to a tidy text. */
  lemma LinesAppendBlock(a: string, b: string)
    ensures Lines(a + "\n" + b) == Lines(a + "\n") + Lines(b)
    ensures |Lines(a + "\n")| == |Lines(a)| + (if a == "" || EndsWith(a, '\n') then 1 else 0)
    ensures Tidy(a) ==> Lines(a + "\n") == Lines(a) + (if a == "" || EndsWith(a, '\n') then [""] else [])
  {
    hide Lines;
    LinesConcat(a + "\n", b);
    LinesPlusNewline(a);
    LinesEmptyIff(a);
    if a != "" && !EndsWith(a, '\n') && Tidy(a) {
      var ls := Lines(a);
      assert ls[|ls| - 1] in ls;
      assert ls == ls[..|ls| - 1] + [ls[|ls| - 1]];
    }
  }

  lemma LinesEmptyIff(s: string)
    ensures Lines(s) == [] <==> s == ""
  {
  }
}
