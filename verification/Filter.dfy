/** The read-time filter for brain files: `src/brain/filter.rs`.

    A `##` to `######` header is dropped together with its region when the
    region holds nothing but blank and structural lines. */
module Filter {
  import opened Text
  import opened Sections

  // ----- line classifiers ---------------------------------------------

  function LeadingHashes(s: string): (n: nat)
    ensures n <= |s|
    ensures forall k :: 0 <= k < n ==> s[k] == '#'
  {
    if s != "" && s[0] == '#' then 1 + LeadingHashes(s[1..]) else 0
  }

  /** 2 to 6 for an ATX header, 0 for any other line and for `# ` titles. */
  function HeaderLevel(line: string): (level: nat)
    ensures level == 0 || 2 <= level <= 6
  {
    var trimmed := TrimStart(line);
    var hashes := LeadingHashes(trimmed);
    if !(2 <= hashes <= 6) then 0
    else
      var rest := trimmed[hashes..];
      if rest != "" && rest[0] != ' ' then 0 else hashes
  }

  predicate IsHeader(line: string) {
    HeaderLevel(line) != 0
  }

  /** An ATX header of level `n`: blanks, `n` hashes, and then a space or nothing. */
  predicate IsAtx(line: string, n: nat) {
    var t := TrimStart(line);
    && n <= |t|
    && (forall k :: 0 <= k < n ==> t[k] == '#')
    && (n == |t| || t[n] == ' ')
  }

  /** The level is that of an ATX header, from 2 to 6. */
  lemma HeaderLevelIff(line: string, n: nat)
    requires 2 <= n <= 6
    ensures HeaderLevel(line) == n <==> IsAtx(line, n)
  {
    hide TrimStart;
    var t := TrimStart(line);
    HashesStop(t);
    if IsAtx(line, n) {
      HashesAre(t, n);
    }
  }

  lemma {:induction false} HashesStop(s: string)
    ensures var n := LeadingHashes(s); n == |s| || s[n] != '#'
  {
    if s != "" && s[0] == '#' {
      HashesStop(s[1..]);
    }
  }

  lemma {:induction false} HashesAre(s: string, n: nat)
    requires n <= |s| && (forall k :: 0 <= k < n ==> s[k] == '#') && (n == |s| || s[n] != '#')
    ensures LeadingHashes(s) == n
  {
    if n > 0 {
      HashesAre(s[1..], n - 1);
    }
  }

  const MARKERS: seq<string> := ["tbd", "todo", "wip", "placeholder"]

  predicate IsWordByte(c: char) {
    IsAsciiAlphanumeric(c) || c == '_'
  }

  /** The first occurrence of `marker` stands as a word of its own. */
  predicate MarkedBy(lower: string, marker: string) {
    match Find(lower, marker, 0)
    case None => false
    case Some(pos) =>
      && (pos == 0 || !IsWordByte(lower[pos - 1]))
      && (pos + |marker| >= |lower| || !IsWordByte(lower[pos + |marker|]))
  }

  predicate IsInFlightMarker(trimmed: string) {
    exists k :: 0 <= k < |MARKERS| && MarkedBy(AsciiLower(trimmed), MARKERS[k])
  }

  /** The marker stands at position `p` as a word of its own. */
  predicate WordAt(lower: string, marker: string, p: nat) {
    && OccursAt(lower, marker, p)
    && (p == 0 || !IsWordByte(lower[p - 1]))
    && (p + |marker| == |lower| || !IsWordByte(lower[p + |marker|]))
  }

  /** It does so, and occurs nowhere before. */
  predicate FirstWordAt(lower: string, marker: string, p: nat) {
    WordAt(lower, marker, p) && forall q :: 0 <= q < p ==> !OccursAt(lower, marker, q)
  }

  lemma MarkedByIff(lower: string, marker: string)
    ensures MarkedBy(lower, marker) <==> exists p: nat :: FirstWordAt(lower, marker, p)
  {
    hide IsWordByte;
    FindIsFirst(lower, marker, 0);
    if MarkedBy(lower, marker) {
      assert FirstWordAt(lower, marker, Find(lower, marker, 0).value);
    }
    if p: nat :| FirstWordAt(lower, marker, p) {
      assert OccursAt(lower, marker, p);
    }
  }

  /** A line is recognised as in flight iff some marker, in any case, stands in
      it as a word where it first occurs. A marker word with an earlier
      occurrence of the same marker inside another word is overlooked. */
  lemma InFlightMarkerIff(trimmed: string)
    ensures IsInFlightMarker(trimmed) <==>
            exists k: nat, p: nat :: k < |MARKERS| && FirstWordAt(AsciiLower(trimmed), MARKERS[k], p)
  {
    hide MARKERS, MarkedBy, FirstWordAt, AsciiLower;
    var lower := AsciiLower(trimmed);
    forall k | 0 <= k < |MARKERS|
      ensures MarkedBy(lower, MARKERS[k]) <==> exists p: nat :: FirstWordAt(lower, MARKERS[k], p)
    {
      MarkedByIff(lower, MARKERS[k]);
    }
  }

  predicate IsHorizontalRule(trimmed: string) {
    && ByteLen(trimmed) >= 3
    && trimmed[0] in {'-', '*', '_'}
    && (forall k :: 0 <= k < |trimmed| ==> trimmed[k] == trimmed[0] || trimmed[k] == ' ')
    && CountChar(trimmed, trimmed[0]) >= 3
  }

  predicate IsSeparatorCell(cell: string) {
    var c := Trim(cell);
    c != "" && forall k :: 0 <= k < |c| ==> c[k] in {'-', ':', ' '}
  }

  /** Slicing off both bars aborts when the line is a single bar. */
  function IsTableSeparator(trimmed: string): Outcome<bool> {
    if trimmed == "" || trimmed[0] != '|' || trimmed[|trimmed| - 1] != '|' then Done(false)
    else if |trimmed| == 1 then Panic
    else
      var cells := Split(trimmed[1..|trimmed| - 1], '|');
      Done(forall k :: 0 <= k < |cells| ==> IsSeparatorCell(cells[k]))
  }

  predicate IsHtmlCommentOnly(trimmed: string) {
    "<!--" <= trimmed && HasSuffix(trimmed, "-->")
  }

  function IsStructuralOnly(trimmed: string): Outcome<bool> {
    if IsHorizontalRule(trimmed) then Done(true)
    else
      match IsTableSeparator(trimmed)
      case Panic => Panic
      case Done(true) => Done(true)
      case Done(false) =>
        Done(IsHtmlCommentOnly(trimmed) || (trimmed != "" && trimmed[0] == '>' && ByteLen(trimmed) < 40))
  }

  function LineKind(line: string): Kind {
    var trimmed := Trim(line);
    if trimmed == "" then Quiet
    else if IsInFlightMarker(trimmed) then Content
    else
      match IsStructuralOnly(trimmed)
      case Panic => Crash
      case Done(structural) => if structural then Quiet else Content
  }

  function TagOf(line: string): Tag {
    if IsHeader(line) then Header(HeaderLevel(line)) else Body(LineKind(line))
  }

  function Tags(lines: seq<string>): (tags: seq<Tag>)
    ensures |tags| == |lines|
    ensures forall i :: 0 <= i < |lines| ==> tags[i] == TagOf(lines[i])
  {
    seq(|lines|, i requires 0 <= i < |lines| => TagOf(lines[i]))
  }

  /** The emptiness scan does not look for headers, but stops at every one:
      a header line is neither blank nor structural. */
  lemma HeaderIsContent(line: string)
    requires IsHeader(line)
    ensures LineKind(line) == Content
  {
    var t := TrimStart(line);
    assert t[0] == '#';
    TrimEndKeepsFront(t);
    NumberSignIsContent(Trim(line));
  }

  lemma NumberSignIsContent(trimmed: string)
    requires trimmed != "" && trimmed[0] == '#'
    ensures IsStructuralOnly(trimmed) == Done(false)
  {
    var comment := "<!--";
    assert comment[0] != trimmed[0];
  }

  lemma KindOfTag(line: string)
    ensures KindOf(TagOf(line)) == LineKind(line)
  {
    if IsHeader(line) {
      HeaderIsContent(line);
    }
  }

  const LATER: string := "> xtbd tbd"

  /** Such a line: it has a marker as a word, and is taken for quiet. */
  lemma LaterMarkerIsMissed()
    ensures WordAt(AsciiLower(LATER), "tbd", 7) && LineKind(LATER) == Quiet
  {
    hide Trim, IsInFlightMarker, IsStructuralOnly, AsciiLower;
    TrimFixed(LATER);
    LaterIsLower();
    LaterIsMissed();
    LaterIsStructural();
    assert LATER[7..10] == "tbd";
  }

  lemma LaterIsLower()
    ensures AsciiLower(LATER) == LATER
  {
  }

  lemma LaterIsMissed()
    ensures !IsInFlightMarker(LATER)
  {
    hide Find, MarkedBy, AsciiLower, LATER;
    LaterIsLower();
    FirstIsInWord();
    assert !MarkedBy(LATER, MARKERS[0]);
    OtherMarkers();
  }

  lemma OtherMarkers()
    ensures !MarkedBy(LATER, MARKERS[1]) && !MarkedBy(LATER, MARKERS[2]) && !MarkedBy(LATER, MARKERS[3])
  {
    hide Find;
    FindAbsent(LATER, MARKERS[1], 'o', 1, 0);
    FindAbsent(LATER, MARKERS[2], 'w', 0, 0);
    FindAbsent(LATER, MARKERS[3], 'p', 0, 0);
  }

  lemma LaterIsStructural()
    ensures IsStructuralOnly(LATER) == Done(true)
  {
    hide IsHorizontalRule;
    AsciiBytes(LATER);
    NoRule(LATER);
    var comment := "<!--";
    assert comment[0] != LATER[0];
  }

  lemma NoRule(trimmed: string)
    requires trimmed != "" && trimmed[0] == '>'
    ensures !IsHorizontalRule(trimmed)
  {
  }

  lemma FirstIsInWord()
    ensures Find(LATER, "tbd", 0) == Some(3) && !MarkedBy(LATER, "tbd")
  {
    assert LATER[0..][0] == '>' && LATER[1..][0] == ' ' && LATER[2..][0] == 'x' && "tbd"[0] == 't';
    assert LATER[3..6] == "tbd" && LATER[3..][..3] == "tbd";
    assert Find(LATER, "tbd", 3) == Some(3);
    assert Find(LATER, "tbd", 2) == Some(3);
    assert Find(LATER, "tbd", 1) == Some(3);
  }

  /** What has a character that the text lacks is not in it. */
  lemma {:induction false} FindAbsent(s: string, pat: string, c: char, k: nat, from: nat)
    requires k < |pat| && pat[k] == c && c !in s && from <= |s|
    ensures Find(s, pat, from) == None
    decreases |s| - from
  {
    assert from + k < |s| ==> s[from..][k] == s[from + k] != c;
    if from < |s| {
      FindAbsent(s, pat, c, k, from + 1);
    }
  }

  lemma {:induction false} AsciiBytes(s: string)
    requires forall k :: 0 <= k < |s| ==> s[k] < '\U{0080}'
    ensures ByteLen(s) == |s|
  {
    if s != "" {
      AsciiBytes(s[1..]);
    }
  }

  // ----- methods for the two early-exit loops ---------------------------

  method CheckInFlightMarker(trimmed: string) returns (found: bool)
    ensures found <==> IsInFlightMarker(trimmed)
  {
    var lower := AsciiLower(trimmed);
    for k := 0 to |MARKERS|
      invariant forall m :: 0 <= m < k ==> !MarkedBy(lower, MARKERS[m])
    {
      if MarkedBy(lower, MARKERS[k]) {
        return true;
      }
    }
    return false;
  }

  method BodyIsEmpty(body: seq<string>) returns (r: Outcome<bool>)
    ensures r == VerdictOf(ScanKind(Tags(body)))
  {
    hide TagOf;
    ghost var tags := Tags(body);
    for i := 0 to |body|
      invariant ScanKind(tags) == ScanKind(tags[i..])
    {
      assert tags[i..][1..] == tags[i + 1..];
      KindOfTag(body[i]);
      var trimmed := Trim(body[i]);
      if trimmed == "" {
        continue;
      }
      var marked := CheckInFlightMarker(trimmed);
      if marked {
        return Done(false);
      }
      match IsStructuralOnly(trimmed) {
        case Panic => return Panic;
        case Done(structural) =>
          if !structural {
            return Done(false);
          }
      }
    }
    return Done(true);
  }

  // ----- the pass -------------------------------------------------------

  datatype StripResult = StripResult(content: string, strippedHeaders: seq<string>)

  /** The lines that a pass over `lines` keeps. */
  function KeptLines(lines: seq<string>): seq<string> {
    Keep(lines, Tags(lines), 0, |lines|)
  }

  function StrippedHeaders(lines: seq<string>): seq<string> {
    DroppedHeaders(lines, Tags(lines), |lines|)
  }

  ghost predicate AnyDrops(tags: seq<Tag>) {
    exists i :: 0 <= i < |tags| && Drops(tags, i)
  }

  /** The kept lines written out: joined, closed iff the input was, except
      that a final blank line counts as closing. */
  function Written(content: string, kept: seq<string>): string {
    var out := Join(kept, "\n");
    if EndsWith(content, '\n') && !EndsWith(out, '\n') then out + "\n" else out
  }

  /** The output ends in a newline if the input did, and also when its last
      line is blank: an open input can come out closed. */
  lemma ClosedIff(content: string, kept: seq<string>)
    requires NoNewlines(kept)
    ensures EndsWith(Written(content, kept), '\n') <==>
            EndsWith(content, '\n') || (|kept| >= 2 && kept[|kept| - 1] == "")
  {
    hide Join;
    JoinCloses(kept);
  }

  lemma JoinCloses(kept: seq<string>)
    requires NoNewlines(kept)
    ensures EndsWith(Join(kept, "\n"), '\n') <==> |kept| >= 2 && kept[|kept| - 1] == ""
  {
    hide Join, Unlines;
    if kept == [] {
      JoinOfNothing();
    } else {
      var u, last := Unlines(kept[..|kept| - 1]), kept[|kept| - 1];
      JoinUnlines(kept);
      assert last in kept;
      ClosedConcat(u, last);
    }
  }

  lemma JoinOfNothing()
    ensures Join([], "\n") == ""
  {
  }

  lemma ClosedConcat(u: string, last: string)
    requires '\n' !in last && (u == "" || u[|u| - 1] == '\n')
    ensures EndsWith(u + last, '\n') <==> u != "" && last == ""
  {
    if last == "" {
      assert u + last == u;
    } else {
      assert last[|last| - 1] in last;
    }
  }

  method FindRegionEnd(levels: seq<nat>, lvl: nat, bodyStart: nat, ghost tags: seq<Tag>)
    returns (bodyEnd: nat)
    requires LevelsOf(levels, tags) && bodyStart <= |tags|
    ensures bodyEnd == NextAtMost(tags, bodyStart, lvl)
  {
    bodyEnd := |levels|;
    for j := bodyStart to |levels|
      invariant bodyEnd == |levels|
      invariant NextAtMost(tags, bodyStart, lvl) == NextAtMost(tags, j, lvl)
    {
      if levels[j] != 0 && levels[j] <= lvl {
        bodyEnd := j;
        break;
      }
    }
  }

  lemma {:induction false} NoRangesNoDrops(tags: seq<Tag>)
    ensures DropRanges(tags, |tags|) == [] <==> !AnyDrops(tags)
  {
    if i :| 0 <= i < |tags| && Drops(tags, i) {
      var n := DropRangeOf(tags, |tags|, i);
    }
    if DropRanges(tags, |tags|) != [] {
      DropRangeIs(tags, |tags|, 0);
    }
  }

  lemma TagsSlice(lines: seq<string>, i: nat, j: nat)
    requires i <= j <= |lines|
    ensures Tags(lines[i..j]) == Tags(lines)[i..j]
  {
    hide TagOf;
  }

  function VerdictOf(k: Kind): Outcome<bool> {
    match k
    case Quiet => Done(true)
    case Content => Done(false)
    case Crash => Panic
  }

  /** The levels computed beforehand agree with the tags. */
  ghost predicate LevelsOf(levels: seq<nat>, tags: seq<Tag>) {
    && |levels| == |tags|
    && forall k :: 0 <= k < |tags| ==>
         if tags[k].Header? then levels[k] == tags[k].level != 0 else levels[k] == 0
  }

  lemma LevelsAgree(lines: seq<string>, levels: seq<nat>)
    requires |levels| == |lines|
    requires forall i :: 0 <= i < |lines| ==> levels[i] == HeaderLevel(lines[i])
    ensures LevelsOf(levels, Tags(lines))
  {
    hide HeaderLevel, LineKind;
  }

  /** One header: where its region ends, and whether it is empty. */
  method InspectHeader(lines: seq<string>, levels: seq<nat>, i: nat, ghost tags: seq<Tag>)
    returns (bodyEnd: nat, empty: Outcome<bool>)
    requires tags == Tags(lines) && LevelsOf(levels, tags)
    requires i < |tags| && tags[i].Header?
    ensures bodyEnd == RegionEnd(tags, i)
    ensures empty.Panic? <==> CrashesAt(tags, i)
    ensures empty == Done(true) <==> Drops(tags, i)
  {
    hide TagOf;
    bodyEnd := FindRegionEnd(levels, levels[i], i + 1, tags);
    TagsSlice(lines, i + 1, bodyEnd);
    empty := BodyIsEmpty(lines[i + 1..bodyEnd]);
  }

  lemma NothingDropped(lines: seq<string>, tags: seq<Tag>)
    requires |lines| == |tags|
    ensures DropRanges(tags, 0) == [] && DroppedHeaders(lines, tags, 0) == []
  {
  }

  /** The loop over the headers: the regions to drop, or an abort. */
  method ScanHeaders(lines: seq<string>, levels: seq<nat>, ghost tags: seq<Tag>)
    returns (r: Outcome<(seq<(nat, nat)>, seq<string>)>)
    requires tags == Tags(lines) && LevelsOf(levels, tags)
    ensures r.Panic? <==> Crashes(tags)
    ensures r.Done? ==> r.value == (DropRanges(tags, |tags|), DroppedHeaders(lines, tags, |tags|))
  {
    hide TagOf, DropRanges, DroppedHeaders, RegionEnd, RegionKind;
    NothingDropped(lines, tags);
    var total := |lines|;
    var dropRanges: seq<(nat, nat)> := [];
    var strippedHeaders: seq<string> := [];
    var i := 0;
    while i < total
      invariant 0 <= i <= total
      invariant dropRanges == DropRanges(tags, i)
      invariant strippedHeaders == DroppedHeaders(lines, tags, i)
      invariant forall k :: 0 <= k < i ==> !CrashesAt(tags, k)
    {
      if levels[i] != 0 {
        var bodyEnd, empty := InspectHeader(lines, levels, i, tags);
        if empty.Panic? {
          return Panic;
        }
        if empty.value {
          DropRangesSkip(lines, tags, i, bodyEnd);
          DropDoesNotCrash(tags, i);
          dropRanges := dropRanges + [(i, bodyEnd)];
          strippedHeaders := strippedHeaders + [lines[i]];
          i := bodyEnd;
          continue;
        }
      }
      PlainStep(lines, tags, i);
      i := i + 1;
    }
    return Done((dropRanges, strippedHeaders));
  }

  /** The pass aborts exactly when some header's scan runs into a lone bar;
      otherwise it drops exactly the empty regions. */
  method StripEmptySections(content: string) returns (r: Outcome<StripResult>)
    ensures r.Panic? <==> Crashes(Tags(Lines(content)))
    ensures r.Done? ==> r.value == Stripped(content)
  {
    hide TagOf, HeaderLevel;
    var lines := Lines(content);
    var total := |lines|;
    ghost var tags := Tags(lines);
    NoRangesNoDrops(tags);
    if total == 0 {
      return Done(StripResult("", []));
    }
    var levels := seq(total, i requires 0 <= i < total => HeaderLevel(lines[i]));
    LevelsAgree(lines, levels);
    var scan := ScanHeaders(lines, levels, tags);
    if scan.Panic? {
      return Panic;
    }
    var (dropRanges, strippedHeaders) := scan.value;
    if dropRanges == [] {
      return Done(StripResult(content, strippedHeaders));
    }
    var kept := AssembleKept(lines, dropRanges, tags);
    var out := Join(kept, "\n");
    if EndsWith(content, '\n') && !EndsWith(out, '\n') {
      out := out + "\n";
    }
    return Done(StripResult(out, strippedHeaders));
  }

  /** What a pass that does not abort returns. */
  ghost function Stripped(content: string): StripResult {
    var lines := Lines(content);
    StripResult(if AnyDrops(Tags(lines)) then Written(content, KeptLines(lines)) else content,
                StrippedHeaders(lines))
  }
}
