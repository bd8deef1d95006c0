/** What a save and a load keep of the pruned and moved sections: whose section
    each list is read for, which list wins, and when all of it comes back
    (`src/brain/rsi_pruned.rs`). */
module Reloading {
  import opened Text
  import opened Ordering
  import opened Pruned
  import opened MovedArray
  import opened MovedPairs
  import opened CommaBreaks
  import opened Sidecar
  import opened SectionNames
  import Numbers

  /** What the program puts into a section. Moved pairs may hold a newline after
      a comma, since reading a damaged array can bring one in. */
  ghost predicate WellFormed(d: PrunedData, f: string) {
    HasAny(d, f) ==>
      && (f in d.prunedAt ==> PlainStamp(d.prunedAt[f]))
      && (forall h :: h in PrunedOf(d, f) ==> OneLine(h))
      && CommaEntries(EntriesOf(d, f))
  }

  /** And under which name. */
  ghost predicate Fit(d: PrunedData, f: string) {
    WellFormed(d, f) && (HasAny(d, f) ==> PlainName(f))
  }

  // ----- written out and read ------------------------------------------------------------

  /** The lines written out and read. */
  function ReadText(s: ParseState, lines: seq<string>): ParseState {
    ParseLines(s, Lines(Unlines(lines)))
  }

  lemma ReadClean(s: ParseState, lines: seq<string>)
    requires CleanLines(lines)
    ensures ReadText(s, lines) == ParseLines(s, lines)
  {
    hide ParseLines, CleanLines;
    LinesUnlinesClean(lines);
  }

  lemma ReadConcat(s: ParseState, a: seq<string>, b: seq<string>)
    ensures ReadText(s, a + b) == ReadText(ReadText(s, a), b)
  {
    hide ParseLines, Lines;
    UnlinesConcat(a, b);
    LinesConcat(Unlines(a), Unlines(b));
    ParseConcat(s, Lines(Unlines(a)), Lines(Unlines(b)));
  }

  lemma {:induction false} ReplaceOneLine(s: string, c: char, with: string)
    requires OneLine(s) && OneLine(with)
    ensures OneLine(Replace(s, c, with))
  {
    if s != "" {
      ReplaceOneLine(s[1..], c, with);
    }
  }

  lemma QuoteOneLine(s: string)
    requires OneLine(s)
    ensures OneLine(Quote(s))
  {
    ReplaceOneLine(s, '\\', "\\\\");
    ReplaceOneLine(Replace(s, '\\', "\\\\"), '"', "\\\"");
  }

  lemma {:induction false} JoinOneLine(parts: seq<string>, sep: string)
    requires OneLine(sep) && forall p :: p in parts ==> OneLine(p)
    ensures OneLine(Join(parts, sep))
  {
    if parts != [] {
      assert parts[0] in parts;
      JoinOneLine(parts[1..], sep);
    }
  }

  lemma PrunedClean(headers: seq<string>)
    requires forall h :: h in headers ==> OneLine(h)
    ensures CleanLines(PrunedLines(headers))
  {
    hide Quote, Join;
    forall q | q in Quoted(headers)
      ensures OneLine(q)
    {
      var i :| 0 <= i < |headers| && q == Quote(headers[i]);
      assert headers[i] in headers;
      QuoteOneLine(headers[i]);
    }
    JoinOneLine(Quoted(headers), ", ");
  }

  lemma StampClean(d: PrunedData, f: string)
    requires f in d.prunedAt ==> PlainStamp(d.prunedAt[f])
    ensures CleanLines(PrunedAtLines(d, f))
  {
  }

  lemma FixedClean()
    ensures CleanLines([""]) && CleanLines(["moved = ["]) && CleanLines(["]"]) && CleanLines([])
  {
  }

  // ----- rows -------------------------------------------------------------------------------

  /** Lines that end in a comma are collected in an unfinished array. */
  lemma {:induction false} CommaLinesBuffered(s: ParseState, buffer: string, lines: seq<string>)
    requires s.buffer == Some(buffer) && forall l :: l in lines ==> EndsWith(l, ',')
    ensures ParseLines(s, lines) == s.(buffer := Some(buffer + Unlines(lines)))
    decreases lines
  {
    hide ParseLine;
    if lines == [] {
      assert buffer + "" == buffer;
    } else {
      var line, rest := lines[0], lines[1..];
      assert line in lines;
      CommaLineBuffered(s, buffer, line);
      CommaLinesBuffered(ParseLine(s, line), buffer + line + "\n", rest);
      assert buffer + (line + "\n" + Unlines(rest)) == (buffer + line + "\n") + Unlines(rest);
    }
  }

  lemma CommaLineBuffered(s: ParseState, buffer: string, line: string)
    requires s.buffer == Some(buffer) && EndsWith(line, ',')
    ensures ParseLine(s, line) == s.(buffer := Some(buffer + line + "\n"))
  {
    hide Trim, PairsOf;
    CommaStays(line);
  }

  lemma CommaStays(line: string)
    requires EndsWith(line, ',')
    ensures EndsWith(Trim(line), ',')
  {
    hide Trim, IsWhitespace;
    RowEnds();
    assert line == line[..|line| - 1] + ",";
    var rest := TrimKeepsTail(line[..|line| - 1], ",");
  }

  /** Rows are collected as they were written, even where a string breaks one in
      two. */
  lemma ReadsRows(s: ParseState, buffer: string, entries: seq<MovedEntry>)
    requires s.buffer == Some(buffer) && CommaEntries(entries)
    ensures ReadText(s, Rows(entries)) == s.(buffer := Some(buffer + Unlines(Rows(entries))))
  {
    hide ParseLines, Lines, Rows, CommaEntries;
    RowsBreaks(entries, ' ');
    var text := Unlines(Rows(entries));
    hide Unlines;
    CommaLines(text, ' ');
    CommaLinesBuffered(s, buffer, Lines(text));
  }

  // ----- a section behind a section --------------------------------------------------------

  function Reread(entries: seq<MovedEntry>): seq<MovedEntry> {
    if entries == [] then [] else PairsOf(PairArray(entries))
  }

  lemma MovedTextRead(s: ParseState, f: string, entries: seq<MovedEntry>)
    requires s.buffer.None? && s.file == Some(f) && CommaEntries(entries)
    ensures ReadText(s, MovedLines(entries)) == s.(data := SetMoved(s.data, f, Reread(entries)))
  {
    hide ParseLine, ReadText, PairsOf, Rows, CommaEntries, Unlines;
    FixedClean();
    if entries == [] {
      ReadClean(s, []);
    } else {
      var first := ["moved = ["];
      ReadConcat(s, first, Rows(entries) + ["]"]);
      ReadClean(s, first);
      ParseOne(s, "moved = [");
      MovedKey(s, f);
      var opening := s.(buffer := Some("[\n"));
      ReadConcat(opening, Rows(entries), ["]"]);
      ReadsRows(opening, "[\n", entries);
      var full := opening.(buffer := Some("[\n" + Unlines(Rows(entries))));
      ReadClean(full, ["]"]);
      ParseOne(full, "]");
      ClosingLine(full, f, "[\n" + Unlines(Rows(entries)));
      assert ("[\n" + Unlines(Rows(entries))) + "]" + "\n" == PairArray(entries);
    }
  }

  /** The effect of the lines of a section of `d`, read for some file or none. */
  function WithBody(data: PrunedData, file: Option<string>, d: PrunedData, f: string): PrunedData {
    match file
    case None => data
    case Some(g) =>
      var a := SetPruned(data, g, PrunedOf(d, f));
      var b := if f in d.prunedAt then a.(prunedAt := a.prunedAt[g := d.prunedAt[f]]) else a;
      SetMoved(b, g, Reread(EntriesOf(d, f)))
  }

  lemma BodyRead(s: ParseState, d: PrunedData, f: string)
    requires s.buffer.None? && WellFormed(d, f) && HasAny(d, f)
    ensures ReadText(s, SectionBody(d, f)) == s.(data := WithBody(s.data, s.file, d, f))
  {
    match s.file {
      case None => IdleBody(s, d, f);
      case Some(g) => NamedBody(s, g, d, f);
    }
  }

  lemma NamedBody(s: ParseState, g: string, d: PrunedData, f: string)
    requires s.buffer.None? && s.file == Some(g) && WellFormed(d, f) && HasAny(d, f)
    ensures ReadText(s, SectionBody(d, f)) == s.(data := WithBody(s.data, Some(g), d, f))
  {
    hide ParseLine, ReadText, PairsOf, PairArray, PrunedLines, MovedLines, CommaEntries, CleanLines;
    var p, t, m := PrunedLines(PrunedOf(d, f)), PrunedAtLines(d, f), MovedLines(EntriesOf(d, f));
    PrunedClean(PrunedOf(d, f));
    StampClean(d, f);
    FixedClean();
    ReadConcat(s, p, t + (m + [""]));
    ReadClean(s, p);
    PrunedRead(s, g, PrunedOf(d, f));
    var s2 := ParseLines(s, p);
    ReadConcat(s2, t, m + [""]);
    ReadClean(s2, t);
    PrunedAtRead(s2, g, d, f);
    var s3 := ParseLines(s2, t);
    ReadConcat(s3, m, [""]);
    MovedTextRead(s3, g, EntriesOf(d, f));
    var s4 := ReadText(s3, m);
    ReadClean(s4, [""]);
    ParseOne(s4, "");
    CommentLine(s4, "");
  }

  /** A line that does nothing before the first section. */
  predicate Idle(line: string) {
    var trimmed := Trim(line);
    trimmed == "" || (!IsSection(trimmed) && SchemaLine(INITIAL, trimmed).None?)
  }

  lemma IdleLine(s: ParseState, line: string)
    requires s.buffer.None? && s.file.None? && Idle(line)
    ensures ParseLine(s, line) == s
  {
    hide Trim, IsSection, SplitOnce, Numbers.Parse;
  }

  lemma {:induction false} IdleLines(s: ParseState, lines: seq<string>)
    requires s.buffer.None? && s.file.None? && forall l :: l in lines ==> Idle(l)
    ensures ParseLines(s, lines) == s
    decreases lines
  {
    hide ParseLine, Idle;
    if lines != [] {
      assert lines[0] in lines;
      IdleLine(s, lines[0]);
      IdleLines(s, lines[1..]);
    }
  }

  lemma KeyIdle(key: string, value: string)
    requires Solid(key) && Solid(value) && '=' !in key && key[0] != '[' && key != "schema_version"
    ensures Idle(key + " = " + value)
  {
    hide Trim, SplitOnce, Numbers.Parse, IsWhitespace, IsSection;
    KeyParts(key, value);
    var line := key + " = " + value;
    assert line[0] != '[';
    assert !IsSection(line) by {
      NoBracket(line);
    }
  }

  lemma NoBracket(line: string)
    requires line != "" && line[0] != '['
    ensures !IsSection(line)
  {
  }

  lemma CommaIdle(line: string)
    requires EndsWith(line, ',')
    ensures Idle(line)
  {
    hide Trim, Numbers.Parse, Find;
    CommaStays(line);
    var trimmed := Trim(line);
    match SplitOnce(trimmed) {
      case None =>
      case Some((key, value)) =>
        FindIsFirst(trimmed, "=", 0);
        CommaValue(trimmed, |key|);
    }
  }

  lemma CommaValue(line: string, p: nat)
    requires EndsWith(line, ',') && p < |line| && line[p] == '='
    ensures Numbers.Parse(Trim(line[p + 1..]), Numbers.U32_MAX).None?
  {
    hide Trim;
    var value := line[p + 1..];
    assert value[|value| - 1] == ',';
    CommaStays(value);
    CommaIsNoNumber(Trim(value));
  }

  lemma CommaIsNoNumber(s: string)
    requires EndsWith(s, ',')
    ensures Numbers.Parse(s, Numbers.U32_MAX).None?
  {
    if s[0] == '+' && |s| > 1 {
      assert s[1..][|s| - 2] == ',';
    }
  }

  lemma FixedIdle()
    ensures Idle("") && Idle("]") && Idle("moved = [")
  {
    hide Trim, IsWhitespace;
    RowEnds();
    TrimEmpty();
    TrimFixed("]");
    FindChar("]", '=', "", 0);
    SolidMoved();
    KeyIdle("moved", "[");
    assert "moved" + " = " + "[" == "moved = [";
  }

  lemma SolidMoved()
    ensures Solid("moved") && Solid("[") && '=' !in "moved" && "moved"[0] == 'm' && "moved" != "schema_version"
  {
    assert |"moved"| == 5;
  }

  lemma IdleRead(s: ParseState, lines: seq<string>)
    requires s.buffer.None? && s.file.None? && CleanLines(lines) && forall l :: l in lines ==> Idle(l)
    ensures ReadText(s, lines) == s
  {
    hide Idle, ParseLines, CleanLines;
    ReadClean(s, lines);
    IdleLines(s, lines);
  }

  lemma IdleMoved(s: ParseState, entries: seq<MovedEntry>)
    requires s.buffer.None? && s.file.None? && CommaEntries(entries)
    ensures ReadText(s, MovedLines(entries)) == s
  {
    hide Idle, ParseLines, Lines, Rows, CommaEntries, CleanLines;
    FixedClean();
    FixedIdle();
    if entries == [] {
      IdleRead(s, []);
    } else {
      ReadConcat(s, ["moved = ["], Rows(entries) + ["]"]);
      IdleRead(s, ["moved = ["]);
      ReadConcat(s, Rows(entries), ["]"]);
      RowsBreaks(entries, ' ');
      var text := Unlines(Rows(entries));
      hide Unlines;
      CommaLines(text, ' ');
      forall l | l in Lines(text)
        ensures Idle(l)
      {
        CommaIdle(l);
      }
      IdleLines(s, Lines(text));
      IdleRead(s, ["]"]);
    }
  }

  lemma IdleBody(s: ParseState, d: PrunedData, f: string)
    requires s.buffer.None? && s.file.None? && WellFormed(d, f) && HasAny(d, f)
    ensures ReadText(s, SectionBody(d, f)) == s
  {
    hide Idle, ReadText, CommaEntries, CleanLines, MovedLines, StringArray;
    var p, t, m := PrunedLines(PrunedOf(d, f)), PrunedAtLines(d, f), MovedLines(EntriesOf(d, f));
    PrunedClean(PrunedOf(d, f));
    StampClean(d, f);
    FixedClean();
    FixedIdle();
    KeysIdle(d, f);
    ReadConcat(s, p, t + (m + [""]));
    IdleRead(s, p);
    ReadConcat(s, t, m + [""]);
    IdleRead(s, t);
    ReadConcat(s, m, [""]);
    IdleMoved(s, EntriesOf(d, f));
    IdleRead(s, [""]);
  }

  lemma KeysIdle(d: PrunedData, f: string)
    ensures forall l :: l in PrunedLines(PrunedOf(d, f)) ==> Idle(l)
    ensures forall l :: l in PrunedAtLines(d, f) ==> Idle(l)
  {
    hide Idle, StringArray, IsWhitespace;
    PrunedWords();
    QuoteSolid();
    var list := StringArray(PrunedOf(d, f));
    ArraySolid(PrunedOf(d, f));
    assert |"schema_version"| == 14 && |"pruned"| == 6 && |"pruned_at"| == 9;
    KeyIdle("pruned", list);
    assert "pruned" + " = " + list == "pruned = " + list;
    if f in d.prunedAt {
      var value := "\"" + d.prunedAt[f] + "\"";
      KeyIdle("pruned_at", value);
      assert "pruned_at" + " = " + value == "pruned_at = \"" + d.prunedAt[f] + "\"";
    }
  }

  lemma HeadingText(s: ParseState, f: string)
    requires s.buffer.None? && PlainName(f)
    ensures ReadText(s, ["[" + f + "]"]) == s.(file := Owner(s.file, f))
  {
    hide ParseLines, Lines, FileAfter, AssignsKey;
    UnlinesOne("[" + f + "]");
    HeadingLines(s, Heading(f));
  }

  /** A section, wherever it stands. */
  lemma SectionRead(s: ParseState, d: PrunedData, f: string)
    requires s.buffer.None? && Fit(d, f)
    ensures ReadText(s, FileSection(d, f)) ==
            if HasAny(d, f) then s.(file := Owner(s.file, f), data := WithBody(s.data, Owner(s.file, f), d, f)) else s
  {
    hide ReadText, SectionBody, WithBody, Owner, PlainName, WellFormed;
    if HasAny(d, f) {
      ReadConcat(s, ["[" + f + "]"], SectionBody(d, f));
      HeadingText(s, f);
      BodyRead(s.(file := Owner(s.file, f)), d, f);
    } else {
      FixedClean();
      ReadClean(s, []);
    }
  }

  // ----- which list is read for which file ---------------------------------------------------

  /** The file of the section that is open behind the sections of `files`. */
  function Current(d: PrunedData, files: seq<string>): Option<string>
    decreases |files|
  {
    if files == [] then None
    else
      var before, f := Current(d, files[..|files| - 1]), files[|files| - 1];
      if HasAny(d, f) then Owner(before, f) else before
  }

  /** The last of the files that has something to be read for `g`. */
  function LastFor(d: PrunedData, files: seq<string>, g: string, has: string -> bool): Option<string>
    decreases |files|
  {
    if files == [] then None
    else if has(files[|files| - 1]) && Current(d, files) == Some(g) then Some(files[|files| - 1])
    else LastFor(d, files[..|files| - 1], g, has)
  }

  /** The map holds for each file what the last section with something for it
      has. */
  ghost predicate Gathers<T(!new)>(m: map<string, T>, d: PrunedData, files: seq<string>, has: string -> bool,
                                   of: string -> T)
  {
    forall g ::
      && (g in m <==> LastFor(d, files, g, has).Some?)
      && (g in m ==> m[g] == of(LastFor(d, files, g, has).value))
  }

  lemma GathersMore<T(!new)>(m: map<string, T>, d: PrunedData, files: seq<string>, has: string -> bool, of: string -> T)
    requires files != [] && Gathers(m, d, files[..|files| - 1], has, of)
    ensures var f, file := files[|files| - 1], Current(d, files);
            Gathers(if has(f) && file.Some? then m[file.value := of(f)] else m, d, files, has, of)
  {
    hide Current;
  }

  function HasPruned(d: PrunedData): string -> bool {
    f => PrunedOf(d, f) != []
  }

  function HasStamp(d: PrunedData): string -> bool {
    f => HasAny(d, f) && f in d.prunedAt
  }

  function HasMoved(d: PrunedData): string -> bool {
    f => Reread(EntriesOf(d, f)) != []
  }

  function PrunedLists(d: PrunedData): string -> seq<string> {
    f => PrunedOf(d, f)
  }

  function Stamps(d: PrunedData): string -> string {
    f => if f in d.prunedAt then d.prunedAt[f] else ""
  }

  function MovedLists(d: PrunedData): string -> seq<MovedEntry> {
    f => Reread(EntriesOf(d, f))
  }

  ghost predicate Holds(r: PrunedData, d: PrunedData, files: seq<string>) {
    && r.schemaVersion == SCHEMA_VERSION
    && Gathers(r.pruned, d, files, HasPruned(d), PrunedLists(d))
    && Gathers(r.prunedAt, d, files, HasStamp(d), Stamps(d))
    && Gathers(r.moved, d, files, HasMoved(d), MovedLists(d))
  }

  lemma HoldsMore(r: PrunedData, d: PrunedData, files: seq<string>)
    requires files != [] && Holds(r, d, files[..|files| - 1])
    ensures var f := files[|files| - 1];
            Holds(if HasAny(d, f) then WithBody(r, Current(d, files), d, f) else r, d, files)
  {
    hide Gathers, Current, PairsOf, PairArray;
    var f, file := files[|files| - 1], Current(d, files);
    GathersMore(r.pruned, d, files, HasPruned(d), PrunedLists(d));
    GathersMore(r.prunedAt, d, files, HasStamp(d), Stamps(d));
    GathersMore(r.moved, d, files, HasMoved(d), MovedLists(d));
    var more := if HasAny(d, f) then WithBody(r, file, d, f) else r;
    assert more.pruned == if HasPruned(d)(f) && file.Some? then r.pruned[file.value := PrunedLists(d)(f)] else r.pruned;
    assert more.prunedAt == if HasStamp(d)(f) && file.Some? then r.prunedAt[file.value := Stamps(d)(f)] else r.prunedAt;
    assert more.moved == if HasMoved(d)(f) && file.Some? then r.moved[file.value := MovedLists(d)(f)] else r.moved;
  }

  lemma {:induction false} SectionsRead(s: ParseState, d: PrunedData, files: seq<string>)
    requires s == INITIAL.(data := INITIAL.data.(schemaVersion := SCHEMA_VERSION))
    requires forall f :: f in files ==> Fit(d, f)
    ensures var r := ReadText(s, FileSections(d, files));
            r.buffer.None? && r.file == Current(d, files) && Holds(r.data, d, files)
    decreases |files|
  {
    hide ReadText, FileSection, Fit, Owner, WithBody;
    if files == [] {
      FixedClean();
      ReadClean(s, []);
      NothingHeld(s.data, d);
    } else {
      var front, f := files[..|files| - 1], files[|files| - 1];
      assert files == front + [f];
      SectionsRead(s, d, front);
      BlocksMore(d, front, f);
      ReadConcat(s, FileSections(d, front), FileSection(d, f));
      var before := ReadText(s, FileSections(d, front));
      SectionRead(before, d, f);
      hide Holds;
      HoldsMore(before.data, d, files);
    }
  }

  lemma NothingHeld(r: PrunedData, d: PrunedData)
    requires r == INITIAL.data.(schemaVersion := SCHEMA_VERSION)
    ensures Holds(r, d, [])
  {
  }

  lemma PrologueClean()
    ensures CleanLines(Prologue())
  {
    hide Numbers.Print, COMMENT1, COMMENT2, COMMENT3;
    CommentShape();
    var version := "schema_version = " + Numbers.Print(SCHEMA_VERSION);
    assert OneLine(version) && !EndsWith(version, '\r');
    forall l | l in Prologue()
      ensures OneLine(l) && !EndsWith(l, '\r')
    {
      assert l in [COMMENT1, COMMENT2, COMMENT3, "", version, ""];
    }
  }

  ghost predicate FitAll(d: PrunedData) {
    forall f :: f in AllFiles(d) ==> Fit(d, f)
  }

  /** The files in the order in which they are written. */
  ghost function SavedOrder(d: PrunedData): seq<string> {
    Sorted(AllFiles(d))
  }

  lemma ParsedHolds(d: PrunedData)
    requires FitAll(d)
    ensures Holds(Parsed(SaveText(d)), d, SavedOrder(d))
  {
    hide Prologue, FileSections, Fit, ParseLines, CleanLines, Holds, Current, AllFiles;
    var start := INITIAL.(data := INITIAL.data.(schemaVersion := SCHEMA_VERSION));
    ReadConcat(INITIAL, Prologue(), FileSections(d, SavedOrder(d)));
    PrologueClean();
    ReadClean(INITIAL, Prologue());
    PrologueRead();
    SectionsRead(start, d, SavedOrder(d));
  }

  /** The file whose pruned headers, or moved pairs, are those of `f` after a
      save and a load. */
  ghost function PrunedHeir(d: PrunedData, f: string): Option<string> {
    LastFor(d, SavedOrder(d), f, HasPruned(d))
  }

  ghost function MovedHeir(d: PrunedData, f: string): Option<string> {
    LastFor(d, SavedOrder(d), f, HasMoved(d))
  }

  /** What comes back for a file. */
  lemma ListsReturn(d: PrunedData, f: string)
    requires FitAll(d)
    ensures var r := Parsed(SaveText(d));
            && PrunedOf(r, f) == (match PrunedHeir(d, f) case None => [] case Some(g) => PrunedOf(d, g))
            && EntriesOf(r, f) == (match MovedHeir(d, f) case None => [] case Some(g) => Reread(EntriesOf(d, g)))
  {
    hide SaveText, Parsed, FitAll, LastFor, SavedOrder, PairsOf, PairArray;
    ParsedHolds(d);
  }

  // ----- whose section it is -------------------------------------------------------------------

  lemma {:induction false} CurrentNamed(d: PrunedData, files: seq<string>)
    ensures NamedFile(Current(d, files))
    decreases |files|
  {
    hide NamedFile, Owner, HasAny;
    if files == [] {
      NoFileNamed();
    } else {
      CurrentNamed(d, files[..|files| - 1]);
      OwnerNames(Current(d, files[..|files| - 1]), files[|files| - 1]);
    }
  }

  lemma NoFileNamed()
    ensures NamedFile(None)
  {
  }

  /** The files up to this one. */
  function Upto(files: seq<string>, f: string): (r: seq<string>)
    ensures r <= files
    ensures f in files ==> r != [] && r[|r| - 1] == f
    decreases |files|
  {
    if files == [] || files[|files| - 1] == f then files else Upto(files[..|files| - 1], f)
  }

  /** The file that the section of `k` is read for. */
  ghost function Target(d: PrunedData, k: string): Option<string> {
    Current(d, Upto(SavedOrder(d), k))
  }

  lemma IncreasingFront(files: seq<string>)
    requires Increasing(files) && files != []
    ensures var front, last := files[..|files| - 1], files[|files| - 1];
            && Increasing(front)
            && (forall f :: f in files <==> f in front || f == last)
            && (forall f :: f in front ==> LexLess(f, last))
            && last !in front
  {
    hide LexLess;
    var front, last := files[..|files| - 1], files[|files| - 1];
    assert files == front + [last];
    forall f | f in front
      ensures LexLess(f, last) && f != last
    {
      var i :| 0 <= i < |front| && front[i] == f;
      assert LexLess(files[i], files[|files| - 1]);
      LexAsymmetric(f, last);
    }
  }

  /** Something in the section of `x` is read for `f`. */
  ghost predicate Falls(d: PrunedData, files: seq<string>, f: string, has: string -> bool, x: string) {
    x in files && has(x) && Current(d, Upto(files, x)) == Some(f)
  }

  lemma FallsFront(d: PrunedData, files: seq<string>, f: string, has: string -> bool)
    requires Increasing(files) && files != []
    ensures var front, last := files[..|files| - 1], files[|files| - 1];
            && (forall x :: Falls(d, files, f, has, x) <==>
                  Falls(d, front, f, has, x) || (x == last && has(last) && Current(d, files) == Some(f)))
            && (forall x :: Falls(d, front, f, has, x) ==> LexLess(x, last) && x != last)
  {
    hide LexLess, Current;
    IncreasingFront(files);
  }

  /** The last file is later than all others that something is read from. */
  lemma {:induction false} LastForIff(d: PrunedData, files: seq<string>, f: string, has: string -> bool, g: string)
    requires Increasing(files)
    ensures LastFor(d, files, f, has) == Some(g) <==>
            Falls(d, files, f, has, g) && forall x :: Falls(d, files, f, has, x) ==> x == g || LexLess(x, g)
    decreases |files|
  {
    hide LexLess, Current, Falls;
    if files != [] {
      var front, last := files[..|files| - 1], files[|files| - 1];
      IncreasingFront(files);
      FallsFront(d, files, f, has);
      LastForIff(d, front, f, has, g);
      if Falls(d, front, f, has, g) {
        LexAsymmetric(g, last);
      }
    } else {
      NoneFall(d, f, has);
    }
  }

  lemma NoneFall(d: PrunedData, f: string, has: string -> bool)
    ensures forall x :: !Falls(d, [], f, has, x)
  {
  }

  /** Which pruned list is read for a file: that of the last file, in their order,
      that has one and whose section falls to it. */
  lemma PrunedHeirIff(d: PrunedData, f: string, g: string)
    ensures PrunedHeir(d, f) == Some(g) <==>
            && PrunedOf(d, g) != [] && Target(d, g) == Some(f)
            && forall x :: PrunedOf(d, x) != [] && Target(d, x) == Some(f) ==> x == g || LexLess(x, g)
  {
    hide LexLess, Current, Upto;
    LastForIff(d, SavedOrder(d), f, HasPruned(d), g);
    assert forall x :: PrunedOf(d, x) != [] ==> x in SavedOrder(d);
  }

  lemma MovedHeirIff(d: PrunedData, f: string, g: string)
    ensures MovedHeir(d, f) == Some(g) <==>
            && Reread(EntriesOf(d, g)) != [] && Target(d, g) == Some(f)
            && forall x :: Reread(EntriesOf(d, x)) != [] && Target(d, x) == Some(f) ==> x == g || LexLess(x, g)
  {
    hide LexLess, Current, Upto, Reread;
    LastForIff(d, SavedOrder(d), f, HasMoved(d), g);
    HasIsAny(d);
    assert forall x :: HasMoved(d)(x) ==> x in SavedOrder(d);
  }

  // ----- single-line names -----------------------------------------------------------------------

  /** A name as the tools pass it: one line, trimmed. */
  predicate TrimmedLine(f: string) {
    OneLine(f) && Trim(f) == f
  }

  lemma {:induction false} CurrentIff(d: PrunedData, files: seq<string>, f: string)
    requires Increasing(files) && forall x :: x in files && HasAny(d, x) ==> TrimmedLine(x)
    ensures Current(d, files) == Some(f) <==>
            && f in files && HasAny(d, f) && '=' !in f
            && forall x :: x in files && HasAny(d, x) && '=' !in x ==> x == f || LexLess(x, f)
    decreases |files|
  {
    hide LexLess, Owner, HasAny, PlainName, Trim;
    if files != [] {
      var front, last := files[..|files| - 1], files[|files| - 1];
      IncreasingFront(files);
      CurrentIff(d, front, f);
      if HasAny(d, last) {
        OneLineOwner(Current(d, front), last);
        if f in front {
          LexAsymmetric(f, last);
        }
      }
    }
  }

  lemma {:induction false} UptoMembers(files: seq<string>, k: string)
    requires Increasing(files) && k in files
    ensures Increasing(Upto(files, k))
    ensures forall x :: x in Upto(files, k) <==> x in files && (x == k || LexLess(x, k))
    decreases |files|
  {
    hide LexLess;
    var front, last := files[..|files| - 1], files[|files| - 1];
    IncreasingFront(files);
    if last != k {
      UptoMembers(front, k);
      LexAsymmetric(k, last);
    } else {
      forall x | x in files && LexLess(x, k)
        ensures x in files
      {
      }
    }
  }

  /** A section without `=` in its name is read for its own file, and one with `=`
      for the nearest file below it that has a section without. */
  lemma FallsIff(d: PrunedData, k: string, f: string)
    requires HasAny(d, k) && forall x :: HasAny(d, x) ==> TrimmedLine(x)
    ensures Target(d, k) == Some(f) <==>
            if '=' !in k then f == k
            else && '=' !in f && HasAny(d, f) && LexLess(f, k)
                 && forall x :: HasAny(d, x) && '=' !in x && LexLess(x, k) ==> x == f || LexLess(x, f)
  {
    hide LexLess, Current, Trim, Sorted;
    var files := SavedOrder(d);
    assert forall x :: HasAny(d, x) ==> x in files;
    UptoMembers(files, k);
    CurrentIff(d, Upto(files, k), f);
    if '=' !in k {
      CurrentIff(d, Upto(files, k), k);
    }
  }

  // ----- when all of it comes back -----------------------------------------------------------------

  /** Among names that the parser can give, every section is its file's own. */
  lemma {:induction false} OwnLast(d: PrunedData, files: seq<string>, f: string, has: string -> bool)
    requires forall x :: x in files && HasAny(d, x) ==> SectionName(x)
    requires forall x :: has(x) ==> HasAny(d, x)
    ensures LastFor(d, files, f, has) == if f in files && has(f) then Some(f) else None
    decreases |files|
  {
    hide Owner, HasAny, SectionName, PlainName;
    if files != [] {
      var front, last := files[..|files| - 1], files[|files| - 1];
      assert files == front + [last];
      OwnLast(d, front, f, has);
      if HasAny(d, last) {
        SectionNameOwner(Current(d, front), last);
      }
    }
  }

  /** Nothing is read for a name that the parser cannot give. */
  lemma {:induction false} NoneForOthers(d: PrunedData, files: seq<string>, f: string, has: string -> bool)
    requires !SectionName(f)
    ensures LastFor(d, files, f, has) == None
    decreases |files|
  {
    CurrentNamed(d, files);
    hide Current, SectionName;
    if files != [] {
      NoneForOthers(d, files[..|files| - 1], f, has);
    }
  }

  /** One file under any name among such: its list is what is read for the file
      that its section falls to, unless that one has a list and comes later. */
  lemma {:induction false} LastAmong(d: PrunedData, files: seq<string>, k: string, f: string, has: string -> bool)
    requires Increasing(files) && forall x :: x in files && HasAny(d, x) && x != k ==> SectionName(x)
    requires SectionName(f) && forall x :: has(x) ==> HasAny(d, x)
    ensures LastFor(d, files, f, has) ==
            if k in files && has(k) && k != f && Current(d, Upto(files, k)) == Some(f)
               && !(f in files && has(f) && LexLess(k, f)) then Some(k)
            else if f in files && has(f) then Some(f)
            else None
    decreases |files|
  {
    hide LexLess, Owner, HasAny, SectionName, PlainName;
    if files != [] {
      var front, last := files[..|files| - 1], files[|files| - 1];
      IncreasingFront(files);
      LastAmong(d, front, k, f, has);
      assert k in front ==> Upto(files, k) == Upto(front, k);
      if last == f {
        if HasAny(d, f) {
          SectionNameOwner(Current(d, front), f);
        }
      } else if last == k {
        if f in front {
          LexAsymmetric(f, k);
        }
      } else if HasAny(d, last) {
        SectionNameOwner(Current(d, front), last);
      }
    }
  }

  lemma TargetNamed(d: PrunedData, k: string)
    ensures NamedFile(Target(d, k))
  {
    CurrentNamed(d, Upto(SavedOrder(d), k));
  }

  lemma TargetOwn(d: PrunedData, k: string)
    requires HasAny(d, k) && SectionName(k)
    ensures Target(d, k) == Some(k)
  {
    hide SectionName, PlainName, Sorted;
    var files := Upto(SavedOrder(d), k);
    assert k in SavedOrder(d);
    SectionNameOwner(Current(d, files[..|files| - 1]), k);
  }

  /** At most this one file has a name that the parser cannot give. */
  ghost predicate OthersNamed(d: PrunedData, k: string) {
    forall x :: HasAny(d, x) && x != k ==> SectionName(x)
  }

  /** The pruned headers of `k` are read for `f` instead of its own. */
  ghost predicate TakesPruned(d: PrunedData, k: string, f: string) {
    k != f && PrunedOf(d, k) != [] && Target(d, k) == Some(f) && !(PrunedOf(d, f) != [] && LexLess(k, f))
  }

  ghost predicate TakesMoved(d: PrunedData, k: string, f: string) {
    && k != f && Reread(EntriesOf(d, k)) != [] && Target(d, k) == Some(f)
    && !(Reread(EntriesOf(d, f)) != [] && LexLess(k, f))
  }

  lemma HeirsAmong(d: PrunedData, k: string, f: string)
    requires OthersNamed(d, k) && SectionName(f)
    ensures PrunedHeir(d, f) ==
            if TakesPruned(d, k, f) then Some(k) else if PrunedOf(d, f) != [] then Some(f) else None
    ensures MovedHeir(d, f) ==
            if TakesMoved(d, k, f) then Some(k) else if Reread(EntriesOf(d, f)) != [] then Some(f) else None
  {
    hide SectionName, Current, LastFor, Upto, Sorted, LexLess, Reread;
    HasIsAny(d);
    assert forall x :: HasAny(d, x) ==> x in SavedOrder(d);
    LastAmong(d, SavedOrder(d), k, f, HasPruned(d));
    LastAmong(d, SavedOrder(d), k, f, HasMoved(d));
  }

  lemma NothingForOthers(d: PrunedData, f: string)
    requires !SectionName(f)
    ensures PrunedHeir(d, f) == None && MovedHeir(d, f) == None
  {
    hide SectionName, LastFor, SavedOrder;
    NoneForOthers(d, SavedOrder(d), f, HasPruned(d));
    NoneForOthers(d, SavedOrder(d), f, HasMoved(d));
  }

  lemma NotBelowItself(k: string)
    ensures !LexLess(k, k)
  {
    if LexLess(k, k) {
      LexAsymmetric(k, k);
    }
  }

  /** A list under a name on one line is read for another file exactly when there
      is `=` in the name and the other file is the nearest below it. */
  lemma TakesPrunedIff(d: PrunedData, k: string, f: string)
    requires OthersNamed(d, k) && TrimmedLine(k)
    ensures TakesPruned(d, k, f) <==> PrunedOf(d, k) != [] && '=' in k && Nearest(d, f, k)
  {
    hide LexLess, Target, Trim;
    if PrunedOf(d, k) != [] {
      FallsIff(d, k, f);
      NotBelowItself(k);
      if LexLess(f, k) {
        LexAsymmetric(f, k);
      }
    }
  }

  /** The greatest name below `k` with something to save. */
  ghost predicate Nearest(d: PrunedData, f: string, k: string) {
    HasAny(d, f) && LexLess(f, k) && forall x :: HasAny(d, x) && LexLess(x, k) ==> x == f || LexLess(x, f)
  }

  /** The state without empty entries, in the current version. */
  function Normalised(d: PrunedData): PrunedData {
    PrunedData(
      SCHEMA_VERSION,
      map f | f in d.pruned && d.pruned[f] != [] :: d.pruned[f],
      map f | f in d.prunedAt && HasAny(d, f) :: d.prunedAt[f],
      map f | f in d.moved && d.moved[f] != [] :: d.moved[f])
  }

  ghost predicate NamesSections(d: PrunedData) {
    forall f :: HasAny(d, f) ==> SectionName(f)
  }

  lemma RereadIff(entries: seq<MovedEntry>)
    ensures Reread(entries) == entries <==> WellNested(entries)
  {
    hide PairsOf, PairArray;
    if entries != [] {
      PairArrayRoundTripsIff(entries);
    }
  }

  lemma NamesFit(d: PrunedData)
    requires NamesSections(d) && forall f :: f in AllFiles(d) ==> WellFormed(d, f)
    ensures FitAll(d)
  {
    hide SectionName, PlainName, WellFormed;
    forall f | f in AllFiles(d) && HasAny(d, f)
      ensures PlainName(f)
    {
      SectionNameOwner(None, f);
    }
  }

  lemma GathersOwn<T(!new)>(m: map<string, T>, d: PrunedData, has: string -> bool, of: string -> T)
    requires Gathers(m, d, SavedOrder(d), has, of)
    requires NamesSections(d) && forall f :: has(f) ==> HasAny(d, f)
    ensures forall f :: f in m <==> has(f)
    ensures forall f :: f in m ==> m[f] == of(f)
  {
    hide LastFor, SectionName, Sorted;
    forall f
      ensures LastFor(d, SavedOrder(d), f, has) == if has(f) then Some(f) else None
    {
      assert HasAny(d, f) ==> f in SavedOrder(d);
      OwnLast(d, SavedOrder(d), f, has);
    }
  }

  /** With such names every list comes back, the moved pairs as the reader takes
      them. */
  lemma NamedReturns(d: PrunedData)
    requires NamesSections(d) && forall f :: f in AllFiles(d) ==> WellFormed(d, f)
    ensures var r := Parsed(SaveText(d));
            && r.schemaVersion == SCHEMA_VERSION
            && r.pruned == Normalised(d).pruned
            && r.prunedAt == Normalised(d).prunedAt
            && (forall f :: f in r.moved <==> Reread(EntriesOf(d, f)) != [])
            && (forall f :: f in r.moved ==> r.moved[f] == Reread(EntriesOf(d, f)))
  {
    hide SaveText, Parsed, FitAll, NamesSections, WellFormed;
    NamesFit(d);
    ParsedHolds(d);
    HoldsOwn(Parsed(SaveText(d)), d);
  }

  lemma HoldsOwn(r: PrunedData, d: PrunedData)
    requires Holds(r, d, SavedOrder(d)) && NamesSections(d)
    ensures r.schemaVersion == SCHEMA_VERSION
    ensures r.pruned == Normalised(d).pruned && r.prunedAt == Normalised(d).prunedAt
    ensures forall f :: f in r.moved <==> Reread(EntriesOf(d, f)) != []
    ensures forall f :: f in r.moved ==> r.moved[f] == Reread(EntriesOf(d, f))
  {
    hide NamesSections, Gathers, SavedOrder, HasAny, PairsOf, PairArray, Normalised;
    HasIsAny(d);
    GathersOwn(r.pruned, d, HasPruned(d), PrunedLists(d));
    PrunedSame(r.pruned, d);
    GathersOwn(r.prunedAt, d, HasStamp(d), Stamps(d));
    StampsSame(r.prunedAt, d);
    GathersOwn(r.moved, d, HasMoved(d), MovedLists(d));
  }

  lemma PrunedSame(m: map<string, seq<string>>, d: PrunedData)
    requires forall f :: f in m <==> HasPruned(d)(f)
    requires forall f :: f in m ==> m[f] == PrunedLists(d)(f)
    ensures m == Normalised(d).pruned
  {
    assert forall f :: f in m <==> f in Normalised(d).pruned;
  }

  lemma StampsSame(m: map<string, string>, d: PrunedData)
    requires forall f :: f in m <==> HasStamp(d)(f)
    requires forall f :: f in m ==> m[f] == Stamps(d)(f)
    ensures m == Normalised(d).prunedAt
  {
    hide HasAny;
    assert forall f :: f in m <==> f in Normalised(d).prunedAt;
  }

  lemma HasIsAny(d: PrunedData)
    ensures forall f :: HasPruned(d)(f) ==> HasAny(d, f)
    ensures forall f :: HasStamp(d)(f) ==> HasAny(d, f)
    ensures forall f :: HasMoved(d)(f) ==> HasAny(d, f)
  {
    hide PairsOf, PairArray;
  }

  lemma MovedSameIff(m: map<string, seq<MovedEntry>>, d: PrunedData)
    requires forall f :: f in m <==> Reread(EntriesOf(d, f)) != []
    requires forall f :: f in m ==> m[f] == Reread(EntriesOf(d, f))
    ensures m == Normalised(d).moved <==> forall f :: f in d.moved ==> WellNested(d.moved[f])
  {
    hide PairsOf, PairArray, WellNested;
    var n := Normalised(d).moved;
    forall f | f in d.moved
      ensures Reread(d.moved[f]) == d.moved[f] <==> WellNested(d.moved[f])
    {
      RereadIff(d.moved[f]);
    }
    if forall f :: f in d.moved ==> Reread(d.moved[f]) == d.moved[f] {
      assert forall f :: f in m <==> f in n;
      assert forall f :: f in m ==> m[f] == n[f];
    }
    if m == n {
      forall f | f in d.moved
        ensures Reread(d.moved[f]) == d.moved[f]
      {
        if d.moved[f] != [] {
          assert f in n && f in m;
        }
      }
    }
  }

  /** Round trip: what was saved is read back, up to empty entries and the
      schema version, exactly when every file with entries has a name that the
      parser can give and the moved pairs of every file are well nested. */
  lemma RoundTripIff(d: PrunedData)
    requires forall f :: f in AllFiles(d) ==> WellFormed(d, f)
    ensures Parsed(SaveText(d)) == Normalised(d) <==>
            NamesSections(d) && forall f :: f in d.moved ==> WellNested(d.moved[f])
  {
    hide WellFormed, SaveText, Parsed, WellNested, Reread, SectionName;
    ParsedNamed(SaveText(d));
    var r, n := Parsed(SaveText(d)), Normalised(d);
    if NamesSections(d) {
      NamedReturns(d);
      MovedSameIff(r.moved, d);
    } else {
      var f :| HasAny(d, f) && !SectionName(f);
      assert f in AllFiles(n) && f !in AllFiles(r);
    }
  }

  /** A restart excludes the same headers from every file. */
  lemma ExclusionsSurvive(d: PrunedData, f: string)
    requires NamesSections(d) && forall g :: g in AllFiles(d) ==> WellFormed(d, g)
    requires forall g :: g in d.moved ==> WellNested(d.moved[g])
    ensures Parsed(SaveText(d)).Excluded(f) == d.Excluded(f)
  {
    hide WellFormed, SaveText, Parsed, WellNested;
    RoundTripIff(d);
    var r := Parsed(SaveText(d));
    assert r == Normalised(d);
    assert r.PrunedHeaders(f) == d.PrunedHeaders(f);
    assert r.MovedSources(f) == d.MovedSources(f);
  }

  /** A pair that is lost: its header closes a bracket that it did not open. */
  lemma UnbalancedIsLost()
    ensures var e := MovedEntry("## a]", "USER.md");
            !WellNested([e]) && PairsOf(PairArray([e])) != [e]
  {
    hide PairsOf, PairArray;
    var e := MovedEntry("## a]", "USER.md");
    assert "## a]"[1..] == "# a]" && "# a]"[1..] == " a]" && " a]"[1..] == "a]" && "a]"[1..] == "]";
    NestingConcat("## a]", "USER.md", 2);
    assert NestingAfter("a]", 2).None?;
    assert NestingAfter("# a]", 2).None?;
    assert NestingAfter("## a]", 2).None?;
    assert PairNesting([e][0]).None?;
    PairArrayRoundTripsIff([e]);
  }
}
