/** Splitting a `SKILL.md` into front matter and body (`split_frontmatter` in
    `src/brain/skills.rs`), with its byte offsets. */
module Frontmatter {
  import opened Text

  const FENCE := "---"

  /** The character position at byte offset `b`; slicing elsewhere than between
      two characters aborts. */
  function CharIndex(s: string, b: nat): (r: Outcome<nat>)
    ensures r.Done? ==> r.value <= |s| && ByteLen(s[..r.value]) == b
  {
    if b == 0 then assert s[..0] == ""; Done(0)
    else if s == "" || CharBytes(s[0]) > b then Panic
    else
      match CharIndex(s[1..], b - CharBytes(s[0]))
      case Panic => Panic
      case Done(i) =>
        assert s[..i + 1][1..] == s[1..][..i];
        Done(i + 1)
  }

  /** The byte offset at which the closing fence is taken to start: every line
      before it counts its bytes and one more. */
  function FenceOffset(lines: seq<string>, acc: nat): Option<nat> {
    if lines == [] then None
    else if Trim(lines[0]) == FENCE then Some(acc)
    else FenceOffset(lines[1..], acc + ByteLen(lines[0]) + 1)
  }

  /** What is before byte `b` of `s`, and what is from byte `b + 4` on. */
  function CutAround(s: string, b: nat): Outcome<(string, string)> {
    var bodyStart := if b + 4 <= ByteLen(s) then b + 4 else ByteLen(s);
    match (CharIndex(s, b), CharIndex(s, bodyStart))
    case (Done(i), Done(j)) => Done((s[..i], s[j..]))
    case (_, _) => Panic
  }

  function SplitOf(raw: string): Outcome<Option<(string, string)>> {
    if !("---\n" <= raw) then Done(None)
    else
      var afterOpen := raw[4..];
      match FenceOffset(Lines(afterOpen), 0)
      case None => Done(None)
      case Some(b) =>
        match CutAround(afterOpen, b)
        case Panic => Panic
        case Done(parts) => Done(Some(parts))
  }

  method SplitFrontmatter(raw: string) returns (r: Outcome<Option<(string, string)>>)
    ensures r == SplitOf(raw)
  {
    hide Trim, ByteLen, CutAround, Lines, CharIndex;
    if !("---\n" <= raw) {
      return Done(None);
    }
    var afterOpen := raw[4..];
    var lines := Lines(afterOpen);
    assert lines[0..] == lines;
    var acc: nat := 0;
    for k := 0 to |lines|
      invariant FenceOffset(lines, 0) == FenceOffset(lines[k..], acc)
    {
      assert lines[k..][1..] == lines[k + 1..];
      if Trim(lines[k]) == FENCE {
        var parts := CutAround(afterOpen, acc);
        match parts {
          case Panic => return Panic;
          case Done(p) => return Done(Some(p));
        }
      }
      acc := acc + ByteLen(lines[k]) + 1;
    }
    return Done(None);
  }

  // ----- offsets -----------------------------------------------------------------

  lemma {:induction false} CharIndexAt(a: string, b: string)
    ensures CharIndex(a + b, ByteLen(a)) == Done(|a|)
  {
    if a != "" {
      assert (a + b)[1..] == a[1..] + b;
      CharIndexAt(a[1..], b);
    }
  }

  lemma {:induction false} UnlinesLenCons(line: string, rest: string)
    ensures ByteLen(line + "\n" + rest) == ByteLen(line) + 1 + ByteLen(rest)
  {
    ByteLenConcat(line + "\n", rest);
    ByteLenConcat(line, "\n");
    assert "\n"[1..] == "";
  }

  /** Counting on from `acc`: the fence is at the length of the lines before it. */
  lemma {:induction false} FenceAfter(before: seq<string>, rest: seq<string>, acc: nat)
    requires rest != [] && Trim(rest[0]) == FENCE
    requires forall i :: 0 <= i < |before| ==> Trim(before[i]) != FENCE
    ensures FenceOffset(before + rest, acc) == Some(acc + ByteLen(Unlines(before)))
    decreases |before|
  {
    hide Trim;
    if before == [] {
      assert before + rest == rest;
    } else {
      assert (before + rest)[1..] == before[1..] + rest;
      FenceAfter(before[1..], rest, acc + ByteLen(before[0]) + 1);
      UnlinesLenCons(before[0], Unlines(before[1..]));
    }
  }

  lemma CutIs(s: string, b: nat, i: nat, j: nat)
    requires CharIndex(s, b) == Done(i) && b + 4 <= ByteLen(s) && CharIndex(s, b + 4) == Done(j)
    ensures CutAround(s, b) == Done((s[..i], s[j..]))
  {
    hide ByteLen, CharIndex;
  }

  lemma Regroup(fm: string, mid: string, body: string)
    ensures fm + mid + body == fm + (mid + body)
    ensures (fm + mid + body)[..|fm|] == fm
    ensures (fm + mid + body)[|fm + mid|..] == body
  {
  }

  /** Cutting around four bytes in the middle. */
  lemma CutAroundFour(s: string, fm: string, mid: string, body: string)
    requires s == fm + mid + body && ByteLen(mid) == 4
    ensures CutAround(s, ByteLen(fm)) == Done((fm, body))
  {
    hide ByteLen, CharIndex, CutAround;
    Regroup(fm, mid, body);
    CharIndexAt(fm, mid + body);
    CharIndexAt(fm + mid, body);
    ByteLenConcat(fm, mid);
    ByteLenConcat(fm + mid, body);
    CutIs(s, ByteLen(fm), |fm|, |fm + mid|);
  }

  /** Cutting at a fence of at most four bytes that ends the text. */
  lemma CutAtEnd(s: string, fm: string, fence: string)
    requires s == fm + fence && ByteLen(fence) <= 4
    ensures CutAround(s, ByteLen(fm)) == Done((fm, ""))
  {
    hide ByteLen, CharIndex;
    CharIndexAt(fm, fence);
    CharIndexAt(s, "");
    assert s + "" == s;
    ByteLenConcat(fm, fence);
    assert s[..|fm|] == fm && s[|s|..] == "";
  }

  lemma FenceBytes()
    ensures ByteLen("---\n") == 4 && ByteLen("---") == 3
  {
    assert "---\n"[1..] == "--\n" && "--\n"[1..] == "-\n" && "-\n"[1..] == "\n" && "\n"[1..] == "";
    assert "---"[1..] == "--" && "--"[1..] == "-" && "-"[1..] == "";
  }

  lemma TrimFence()
    ensures Trim(FENCE) == FENCE
  {
    TrimFixed(FENCE);
  }

  // ----- the main results --------------------------------------------------------------

  /** Round trip: front matter of whole lines, none of them a fence, and any
      body are what the split of their composition gives back. */
  lemma RoundTrip(fmLines: seq<string>, body: string)
    requires CleanLines(fmLines)
    requires forall i :: 0 <= i < |fmLines| ==> Trim(fmLines[i]) != FENCE
    ensures SplitOf("---\n" + Unlines(fmLines) + "---\n" + body) == Done(Some((Unlines(fmLines), body)))
  {
    hide Lines, Trim, ByteLen, CutAround, Unlines, FenceOffset, SplitOf, CleanLines;
    var fm := Unlines(fmLines);
    var after := fm + "---\n" + body;
    Regroup(fm, "---\n", body);
    Composed(fm, body);
    SplitOpened(after);
    ComposedLines(fmLines, body);
    TrimFence();
    FenceAfter(fmLines, [FENCE] + Lines(body), 0);
    FenceBytes();
    CutAroundFour(after, fm, "---\n", body);
  }

  lemma Composed(fm: string, body: string)
    ensures "---\n" + fm + "---\n" + body == "---\n" + (fm + "---\n" + body)
  {
  }

  /** The split of a text with its opening fence. */
  lemma SplitOpened(after: string)
    ensures SplitOf("---\n" + after) ==
            match FenceOffset(Lines(after), 0)
            case None => Done(None)
            case Some(b) =>
              match CutAround(after, b)
              case Panic => Panic
              case Done(parts) => Done(Some(parts))
  {
    hide Lines, FenceOffset, CutAround;
    var raw := "---\n" + after;
    assert raw[4..] == after;
  }

  lemma ComposedLines(fmLines: seq<string>, body: string)
    requires CleanLines(fmLines)
    ensures Lines(Unlines(fmLines) + ("---\n" + body)) == fmLines + ([FENCE] + Lines(body))
  {
    hide Lines, CleanLines, StripCR;
    LinesUnlinesClean(fmLines);
    LinesConcat(Unlines(fmLines), "---\n" + body);
    hide Unlines;
    assert "---\n" + body == FENCE + "\n" + body;
    LinesCons(FENCE, body);
  }

  /** The line that is taken for the closing fence. */
  function FirstFence(lines: seq<string>): Option<string> {
    if lines == [] then None
    else if Trim(lines[0]) == FENCE then Some(lines[0])
    else FirstFence(lines[1..])
  }

  /** `s` is `before`, whole lines, then the line `fence` and what follows it. */
  ghost predicate FenceAt(s: string, before: seq<string>, fence: string, rest: string) {
    && s == Unlines(before) + rest
    && '\n' !in fence && (rest == fence || fence + "\n" <= rest)
  }

  /** The text around the closing fence, for a text without carriage returns. */
  lemma {:induction false} FenceDecomposes(s: string, acc: nat)
    returns (before: seq<string>, fence: string, rest: string)
    requires '\r' !in s && FirstFence(Lines(s)).Some?
    ensures FenceAt(s, before, fence, rest)
    ensures FirstFence(Lines(s)) == Some(fence) && Trim(fence) == FENCE
    ensures FenceOffset(Lines(s), acc) == Some(acc + ByteLen(Unlines(before)))
    decreases |s|
  {
    hide Trim, ByteLen, FenceAt, Lines, Unlines;
    if LineLength(s) == |s| {
      before, fence, rest := [], s, s;
      OneLine(s);
    } else {
      var line, tail := FirstLine(s);
      var lines := Lines(s);
      assert lines[1..] == Lines(tail);
      if Trim(line) == FENCE {
        before, fence, rest := [], line, s;
        FenceHere(s, line, tail);
      } else {
        var b;
        b, fence, rest := FenceDecomposes(tail, acc + ByteLen(line) + 1);
        before := [line] + b;
        FenceFurther(line, tail, b, fence, rest);
      }
    }
  }

  lemma FenceFurther(line: string, tail: string, before: seq<string>, fence: string, rest: string)
    requires FenceAt(tail, before, fence, rest)
    ensures FenceAt(line + "\n" + tail, [line] + before, fence, rest)
    ensures ByteLen(Unlines([line] + before)) == ByteLen(line) + 1 + ByteLen(Unlines(before))
  {
    hide ByteLen;
    assert ([line] + before)[1..] == before;
    assert Unlines([line] + before) == line + "\n" + Unlines(before);
    hide Unlines;
    UnlinesLenCons(line, Unlines(before));
    assert line + "\n" + (Unlines(before) + rest) == (line + "\n" + Unlines(before)) + rest;
  }

  lemma FenceHere(s: string, line: string, tail: string)
    requires s == line + "\n" + tail && '\n' !in line
    ensures FenceAt(s, [], line, s)
    ensures ByteLen(Unlines([])) == 0
  {
    assert "" + s == s;
  }

  lemma OneLine(s: string)
    requires LineLength(s) == |s| && FirstFence(Lines(s)).Some?
    ensures FenceAt(s, [], s, s)
    ensures FirstFence(Lines(s)) == Some(s) && Trim(s) == FENCE
    ensures forall acc: nat :: FenceOffset(Lines(s), acc) == Some(acc)
    ensures ByteLen(Unlines([])) == 0
  {
    hide Trim;
    assert s != "";
    var lines := Lines(s);
    assert lines == [s] && lines[1..] == [];
    assert "" + s == s;
  }

  lemma FirstLine(s: string) returns (line: string, tail: string)
    requires '\r' !in s && LineLength(s) < |s|
    ensures s == line + "\n" + tail && '\n' !in line && '\r' !in tail && |tail| < |s|
    ensures Lines(s) == [line] + Lines(tail)
  {
    hide Lines, Trim;
    line, tail := LinesHead(s);
    assert forall i :: 0 <= i < |line| ==> line[i] == s[i];
    assert forall i :: 0 <= i < |tail| ==> tail[i] == s[|line| + 1 + i];
  }

  /** A split reassembles to its input: with the closing fence closed by a
      newline, or at the very end. */
  ghost predicate Reassembles(raw: string, fm: string, body: string) {
    || raw == "---\n" + fm + "---\n" + body
    || (body == "" && raw == "---\n" + fm + "---")
  }

  /** Without carriage returns a split reassembles to its input iff its closing
      fence is exactly `---`. A fence with blanks around it closes too, but
      four bytes are skipped whatever the line is. */
  lemma ReassemblesIff(raw: string)
    requires '\r' !in raw && "---\n" <= raw
    requires FirstFence(Lines(raw[4..])).Some?
    ensures var r := SplitOf(raw);
            (r.Done? && r.value.Some? && Reassembles(raw, r.value.value.0, r.value.value.1))
            <==> FirstFence(Lines(raw[4..])) == Some(FENCE)
  {
    hide Lines, Trim, ByteLen, FirstFence, FenceOffset, CutAround;
    var s := raw[4..];
    assert raw == "---\n" + s;
    var before, fence, rest := FenceDecomposes(s, 0);
    var fm := Unlines(before);
    hide Unlines;
    if fence == FENCE {
      CutExact(raw, s, fm, rest);
    } else {
      NotReassembled(raw, fm, fence, rest);
      CutPrefix(s, fm, rest);
    }
  }

  // ----- when the split aborts ---------------------------------------------------------

  lemma {:induction false} CharIndexIff(s: string, b: nat)
    ensures CharIndex(s, b).Panic? <==> b > ByteLen(s) || CutsCharacter(s, b)
  {
    CutsWithin(s, b);
    if b > 0 && s != "" {
      if CharBytes(s[0]) > b {
        assert s[..0] == "";
        assert Straddles(s, 0, b);
      } else {
        CharIndexIff(s[1..], b - CharBytes(s[0]));
        StraddlesTail(s, b);
      }
    }
  }

  lemma FenceCons(line: string, lines: seq<string>, acc: nat)
    ensures FenceOffset([line] + lines, acc) ==
            if Trim(line) == FENCE then Some(acc) else FenceOffset(lines, acc + ByteLen(line) + 1)
  {
    hide Trim, ByteLen;
    assert ([line] + lines)[1..] == lines;
  }

  lemma OpenLine(s: string)
    requires s != "" && LineLength(s) == |s|
    ensures Lines(s) == [s] && [s] + [] == [s]
  {
  }

  lemma NoFence(acc: nat)
    ensures FenceOffset([], acc) == None
  {
  }

  lemma {:induction false} FenceWithin(s: string, acc: nat)
    ensures FenceOffset(Lines(s), acc).Some? ==> FenceOffset(Lines(s), acc).value <= acc + ByteLen(s)
    decreases |s|
  {
    hide Trim, StripCR, ByteLen, Lines, FenceOffset, LineEnd;
    if s == "" {
      LinesEmptyIff(s);
      NoFence(acc);
    } else if LineLength(s) == |s| {
      OpenLine(s);
      FenceCons(s, [], acc);
      NoFence(acc + ByteLen(s) + 1);
    } else {
      LineLengthBound(s);
      var line, tail := LinesHead(s);
      FenceCons(StripCR(line), Lines(tail), acc);
      StrippedBytes(line);
      FenceWithin(tail, acc + ByteLen(StripCR(line)) + 1);
      UnlinesLenCons(line, tail);
    }
  }

  lemma LineLengthBound(s: string)
    ensures LineLength(s) <= |s|
  {
  }

  lemma StrippedBytes(line: string)
    ensures ByteLen(StripCR(line)) <= ByteLen(line)
  {
    if EndsWith(line, '\r') {
      ByteLenConcat(StripCR(line), "\r");
    }
  }

  lemma CutAroundPanics(s: string, b: nat)
    requires b <= ByteLen(s)
    ensures CutAround(s, b).Panic? <==> CutsCharacter(s, b) || CutsCharacter(s, b + 4)
  {
    hide ByteLen, CharIndex;
    CharIndexIff(s, b);
    CharIndexIff(s, b + 4);
    CharIndexIff(s, ByteLen(s));
    CutsWithin(s, ByteLen(s));
    CutsWithin(s, b + 4);
  }

  /** The split aborts exactly when a character lies across the byte at which the
      closing fence is taken to start, or the fourth byte from there. */
  lemma SplitAbortsIff(raw: string)
    ensures SplitOf(raw).Panic? <==>
            && "---\n" <= raw
            && FenceOffset(Lines(raw[4..]), 0).Some?
            && var b := FenceOffset(Lines(raw[4..]), 0).value;
               CutsCharacter(raw[4..], b) || CutsCharacter(raw[4..], b + 4)
  {
    hide Lines, FenceOffset, CutAround, CutsCharacter, ByteLen;
    if "---\n" <= raw {
      var s := raw[4..];
      FenceWithin(s, 0);
      if FenceOffset(Lines(s), 0).Some? {
        CutAroundPanics(s, FenceOffset(Lines(s), 0).value);
      }
    }
  }

  /** Without carriage returns: exactly when a character lies across the fourth
      byte of the closing fence, which a blank of several bytes can. */
  lemma FenceAbortsIff(raw: string)
    requires '\r' !in raw && "---\n" <= raw
    requires FirstFence(Lines(raw[4..])).Some?
    ensures SplitOf(raw).Panic? <==> CutsCharacter(FirstFence(Lines(raw[4..])).value, 4)
  {
    hide Lines, Trim, ByteLen, FirstFence, FenceOffset, CutAround, CutsCharacter, Unlines;
    SplitAbortsIff(raw);
    var s := raw[4..];
    var before, fence, rest := FenceDecomposes(s, 0);
    var fm := Unlines(before);
    assert s == fm + rest;
    CutsShift(fm, rest, 0);
    CutsWithin(rest, 0);
    CutsShift(fm, rest, 4);
    FenceCut(fence, rest);
  }

  lemma FenceCut(fence: string, rest: string)
    requires Trim(fence) == FENCE && (rest == fence || fence + "\n" <= rest)
    ensures CutsCharacter(rest, 4) <==> CutsCharacter(fence, 4)
  {
    hide Trim, CutsCharacter;
    FenceIsLong(fence);
    if rest != fence {
      var tail := rest[|fence| + 1..];
      assert rest == fence + ("\n" + tail);
      assert rest == (fence + "\n") + tail;
      ByteLenConcat(fence, "\n");
      assert "\n"[1..] == "";
      CutsFront(fence + "\n", tail, 4);
      if ByteLen(fence) >= 4 {
        CutsFront(fence, "\n", 4);
      } else {
        CutsWithin(fence + "\n", 4);
        CutsWithin(fence, 4);
      }
    }
  }

  lemma FenceIsLong(fence: string)
    requires Trim(fence) == FENCE
    ensures ByteLen(fence) >= 3
  {
    TrimIsShorter(fence);
    ByteLenAtLeast(fence);
    assert |FENCE| == 3;
  }

  /** Such a text: the no-break space behind the fence is trimmed off, and its
      two bytes lie across the cut. */
  lemma BlankBreaksSplit()
    ensures SplitOf("---\n---\U{00A0}\n") == Panic
  {
    hide Lines, Trim, ByteLen, CutsCharacter, SplitOf;
    var raw, fence := "---\n---\U{00A0}\n", "---\U{00A0}";
    assert raw[4..] == fence + "\n" + "";
    LinesCons(fence, "");
    LinesEmptyIff("");
    BlankIsTrimmed();
    BlankIsCut();
    assert StripCR(fence) == fence;
    assert FirstFence(Lines(raw[4..])) == Some(fence);
    FenceAbortsIff(raw);
  }

  lemma BlankIsTrimmed()
    ensures Trim("---\U{00A0}") == FENCE
  {
    var s := "---\U{00A0}";
    assert TrimStart(s) == s;
    assert s[..3] == FENCE;
    assert TrimEnd(s) == TrimEnd(FENCE) == FENCE;
  }

  lemma BlankIsCut()
    ensures CutsCharacter("---\U{00A0}", 4)
  {
    var s := "---\U{00A0}";
    assert s[..3] == FENCE && s[3] == '\U{00A0}';
    FenceBytes();
    assert Straddles(s, 3, 4);
  }

  /** What is cut off in front is the lines before the fence. */
  lemma CutPrefix(s: string, fm: string, rest: string)
    requires s == fm + rest
    ensures var r := CutAround(s, ByteLen(fm)); r.Done? ==> r.value.0 == fm
  {
    CharIndexAt(fm, rest);
    assert s[..|fm|] == fm;
  }

  lemma CutExact(raw: string, s: string, fm: string, rest: string)
    requires raw == "---\n" + s && s == fm + rest
    requires rest == FENCE || FENCE + "\n" <= rest
    ensures var r := CutAround(s, ByteLen(fm)); r.Done? && Reassembles(raw, r.value.0, r.value.1)
  {
    FenceBytes();
    hide ByteLen, CutAround;
    if rest == FENCE {
      CutAtEnd(s, fm, rest);
      assert raw == "---\n" + fm + "---";
    } else {
      var body := rest[4..];
      assert rest == "---\n" + body;
      assert s == fm + "---\n" + body;
      CutAroundFour(s, fm, "---\n", body);
      assert raw == "---\n" + fm + "---\n" + body;
    }
  }

  lemma FirstLineIs(rest: string, a: string, b: string)
    requires '\n' !in a && '\n' !in b
    requires rest == a || a + "\n" <= rest
    requires rest == b || b + "\n" <= rest
    ensures a == b
  {
    assert |a| < |rest| ==> rest[|a|] == '\n';
    assert |b| < |rest| ==> rest[|b|] == '\n';
    assert forall i :: 0 <= i < |a| ==> rest[i] == a[i];
    assert forall i :: 0 <= i < |b| ==> rest[i] == b[i];
    assert |a| == |b|;
    assert a == rest[..|a|] && b == rest[..|b|];
  }

  lemma ReassembledFence(raw: string, fm: string, rest: string, body: string)
    requires raw == "---\n" + (fm + rest) && Reassembles(raw, fm, body)
    ensures rest == FENCE || FENCE + "\n" <= rest
  {
    var k := 4 + |fm|;
    assert raw[k..] == rest;
    if raw == "---\n" + fm + "---\n" + body {
      assert raw[k..] == "---\n" + body;
    } else {
      assert raw[k..] == "---";
    }
  }

  lemma NotReassembled(raw: string, fm: string, fence: string, rest: string)
    requires raw == "---\n" + (fm + rest)
    requires '\n' !in fence && (rest == fence || fence + "\n" <= rest)
    requires fence != FENCE
    ensures forall body :: !Reassembles(raw, fm, body)
  {
    forall body
      ensures !Reassembles(raw, fm, body)
    {
      if Reassembles(raw, fm, body) {
        ReassembledFence(raw, fm, rest, body);
        FirstLineIs(rest, fence, FENCE);
      }
    }
  }

  const LOOSE: string := "---\n--- \nbody"

  /** A fence with a blank behind it: four bytes of it are skipped, so the newline
      that ends it is taken for the start of the body. */
  lemma BlankIsLost()
    ensures SplitOf(LOOSE) == Done(Some(("", "\nbody"))) && !Reassembles(LOOSE, "", "\nbody")
  {
    hide Lines, Trim, ByteLen, CutAround, Reassembles, SplitOf;
    var fence := "--- ";
    assert LOOSE[4..] == fence + "\n" + "body";
    LinesCons(fence, "body");
    assert StripCR(fence) == fence;
    LooseIsFence();
    assert FirstFence(Lines(LOOSE[4..])) == Some(fence);
    ReassemblesIff(LOOSE);
    LooseSplit();
  }

  lemma LooseIsFence()
    ensures Trim("--- ") == FENCE && "--- " != FENCE
  {
    var s := "--- ";
    assert |s| == 4 && |FENCE| == 3;
    assert TrimStart(s) == s;
    assert s[..3] == FENCE;
    assert TrimEnd(s) == TrimEnd(FENCE) == FENCE;
  }

  lemma LooseSplit()
    ensures SplitOf(LOOSE) == Done(Some(("", "\nbody")))
  {
    hide Lines, Trim, ByteLen, CutAround;
    var fence := "--- ";
    var s := fence + "\n" + "body";
    assert LOOSE == "---\n" + s && LOOSE[4..] == s;
    LinesCons(fence, "body");
    assert StripCR(fence) == fence;
    LooseIsFence();
    assert Lines(s)[0] == fence;
    assert FenceOffset(Lines(s), 0) == Some(0);
    LooseBytes();
    assert s == "" + fence + "\nbody";
    CutAroundFour(s, "", fence, "\nbody");
  }

  lemma LooseBytes()
    ensures ByteLen("--- ") == 4 && ByteLen("") == 0
  {
    assert "--- "[1..] == "-- " && "-- "[1..] == "- " && "- "[1..] == " " && " "[1..] == "";
  }

  // ----- when there is front matter, and what it is ---------------------------------------

  /** Line `k` is the first that trims to a fence. */
  ghost predicate FirstFenceAt(lines: seq<string>, k: nat) {
    k < |lines| && Trim(lines[k]) == "---" && forall i :: 0 <= i < k ==> Trim(lines[i]) != "---"
  }

  lemma {:induction false} FenceOffsetIff(lines: seq<string>, acc: nat)
    ensures FenceOffset(lines, acc).Some? <==> exists k: nat :: FirstFenceAt(lines, k)
    ensures forall k: nat :: FirstFenceAt(lines, k) ==>
              FenceOffset(lines, acc) == Some(acc + ByteLen(Unlines(lines[..k])))
    decreases lines
  {
    hide Trim, ByteLen, Unlines;
    if lines != [] {
      var rest := lines[1..];
      FenceOffsetIff(rest, acc + ByteLen(lines[0]) + 1);
      if Trim(lines[0]) != FENCE {
        if k: nat :| FirstFenceAt(rest, k) {
          assert FirstFenceAt(lines, k + 1);
        }
      } else {
        assert FirstFenceAt(lines, 0);
      }
      forall k: nat | FirstFenceAt(lines, k)
        ensures FenceOffset(lines, acc) == Some(acc + ByteLen(Unlines(lines[..k])))
      {
        assert lines == lines[..k] + lines[k..];
        FenceAfter(lines[..k], lines[k..], acc);
      }
    }
  }

  lemma {:induction false} FirstFenceExists(lines: seq<string>, j: nat)
    requires j < |lines| && Trim(lines[j]) == "---"
    ensures exists k: nat :: FirstFenceAt(lines, k)
    decreases j
  {
    hide Trim;
    if i :| 0 <= i < j && Trim(lines[i]) == "---" {
      FirstFenceExists(lines, i);
    } else {
      assert FirstFenceAt(lines, j);
    }
  }

  /** A text that does not make the split abort has front matter exactly when it
      starts with a fence line and some line behind it trims to a fence. */
  lemma SplitSomeIff(raw: string)
    requires SplitOf(raw).Done?
    ensures SplitOf(raw).value.Some? <==>
            && |raw| >= 4 && raw[..4] == "---\n"
            && exists k :: 0 <= k < |Lines(raw[4..])| && Trim(Lines(raw[4..])[k]) == "---"
  {
    hide Lines, Trim, CutAround;
    if "---\n" <= raw {
      var lines := Lines(raw[4..]);
      FenceOffsetIff(lines, 0);
      if k :| 0 <= k < |lines| && Trim(lines[k]) == "---" {
        FirstFenceExists(lines, k);
      }
      if k: nat :| FirstFenceAt(lines, k) {
        assert Trim(lines[k]) == "---";
      }
    }
  }

  /** And then, for any text: the front matter is as many bytes as the lines before
      the first such line have with one byte for each line break, four bytes behind
      it, or what is left of them, are skipped, and the rest is the body. */
  lemma SplitParts(raw: string) returns (k: nat, mid: string)
    requires SplitOf(raw).Done? && SplitOf(raw).value.Some?
    ensures var (fm, body) := SplitOf(raw).value.value;
            && raw == "---\n" + (fm + mid + body)
            && FirstFenceAt(Lines(raw[4..]), k)
            && ByteLen(fm) == ByteLen(Unlines(Lines(raw[4..])[..k]))
            && (ByteLen(mid) == 4 || (ByteLen(mid) < 4 && body == ""))
  {
    hide Lines, Trim, CutAround, Unlines, ByteLen;
    SplitSomeIff(raw);
    var s := raw[4..];
    assert raw == "---\n" + s;
    var lines := Lines(s);
    FenceOffsetIff(lines, 0);
    k :| FirstFenceAt(lines, k);
    mid := CutParts(s, ByteLen(Unlines(lines[..k])));
  }

  lemma CutParts(s: string, b: nat) returns (mid: string)
    requires CutAround(s, b).Done?
    ensures var (fm, body) := CutAround(s, b).value;
            && s == fm + mid + body && ByteLen(fm) == b
            && (ByteLen(mid) == 4 || (ByteLen(mid) < 4 && body == ""))
  {
    hide ByteLen, CharIndex;
    var e := if b + 4 <= ByteLen(s) then b + 4 else ByteLen(s);
    var i, j := CharIndex(s, b).value, CharIndex(s, e).value;
    PrefixBytes(s, i);
    PrefixOrder(s, i, j);
    if i <= j {
      mid := s[i..j];
      assert s[..j] == s[..i] + mid;
      ByteLenConcat(s[..i], mid);
      assert s == s[..i] + mid + s[j..];
      assert s[..j] + s[j..] == s;
      ByteLenConcat(s[..j], s[j..]);
      NoBytes(s[j..]);
    }
  }

  lemma PrefixBytes(s: string, i: nat)
    requires i <= |s|
    ensures ByteLen(s[..i]) <= ByteLen(s)
  {
    assert s[..i] + s[i..] == s;
    ByteLenConcat(s[..i], s[i..]);
  }

  lemma PrefixOrder(s: string, i: nat, j: nat)
    requires i <= |s| && j <= |s| && ByteLen(s[..i]) <= ByteLen(s[..j])
    ensures i <= j
  {
    if j < i {
      assert s[..i] == s[..j] + s[j..i];
      ByteLenConcat(s[..j], s[j..i]);
      ByteLenAtLeast(s[j..i]);
    }
  }

  lemma NoBytes(s: string)
    ensures ByteLen(s) == 0 ==> s == ""
  {
    ByteLenAtLeast(s);
  }
}
