/** The names between the brackets of the sidecar's sections. A name is written
    as it is given; what the parser takes it for is another matter, since a line
    with `=` is no section to it (`src/brain/rsi_pruned.rs`). */
module SectionNames {
  import opened Text
  import opened Pruned
  import opened MovedArray
  import opened Sidecar
  import Numbers

  /** What the parser can give as the name of a section. */
  predicate SectionName(f: string) {
    OneLine(f) && '=' !in f && Trim(f) == f
  }

  /** The line would set one of the parser's keys. */
  predicate AssignsKey(line: string) {
    var parts := SplitOnce(Trim(line));
    parts.Some? && Trim(parts.value.0) in {"schema_version", "pruned", "pruned_at", "moved"}
  }

  /** The file of the current section, after a line that sets no key. */
  function FileAfterLine(file: Option<string>, line: string): Option<string> {
    var trimmed := Trim(line);
    if IsSection(trimmed) then Some(Trim(trimmed[1..|trimmed| - 1])) else file
  }

  function FileAfter(file: Option<string>, lines: seq<string>): Option<string>
    decreases lines
  {
    if lines == [] then file else FileAfter(FileAfterLine(file, lines[0]), lines[1..])
  }

  /** The lines that the name of `f` makes in its brackets. */
  function Heading(f: string): seq<string> {
    Lines("[" + f + "]" + "\n")
  }

  /** The file that the section of `f` is read for, behind a section of `file`. */
  function Owner(file: Option<string>, f: string): Option<string> {
    FileAfter(file, Heading(f))
  }

  /** A name without a line of its own that sets a key. */
  predicate PlainName(f: string) {
    forall l :: l in Heading(f) ==> !AssignsKey(l)
  }

  // ----- headings ----------------------------------------------------------------------

  lemma HeadingLine(s: ParseState, line: string)
    requires s.buffer.None? && !AssignsKey(line)
    ensures ParseLine(s, line) == s.(file := FileAfterLine(s.file, line))
  {
    hide Trim, SplitOnce, PairsOf, StringsOf, TrimQuotes, Numbers.Parse;
  }

  lemma {:induction false} HeadingLines(s: ParseState, lines: seq<string>)
    requires s.buffer.None? && forall l :: l in lines ==> !AssignsKey(l)
    ensures ParseLines(s, lines) == s.(file := FileAfter(s.file, lines))
    decreases lines
  {
    hide ParseLine, FileAfterLine, AssignsKey;
    if lines != [] {
      assert lines[0] in lines;
      HeadingLine(s, lines[0]);
      HeadingLines(ParseLine(s, lines[0]), lines[1..]);
    }
  }

  /** A name on one line: with `=` in it the section is read for the file of the
      section before, and otherwise for the name without the blanks around it. */
  lemma OneLineOwner(file: Option<string>, f: string)
    requires OneLine(f)
    ensures PlainName(f)
    ensures Owner(file, f) == if '=' in f then file else Some(Trim(f))
  {
    hide Trim, IsWhitespace, Find;
    var line := "[" + f + "]";
    HeadingOneLine(f);
    BracketsTrim(f);
    assert line[1..|line| - 1] == f;
    var lines := [line];
    assert lines[1..] == [];
    assert FileAfter(FileAfterLine(file, line), []) == FileAfterLine(file, line);
    FindIsFirst(line, "=", 0);
    FindEquals(line);
    if '=' in f {
      var p := Find(line, "=", 0).value;
      assert line[p] == '=';
      BracketIsNoKey(line[..p]);
    }
  }

  lemma FindEquals(s: string)
    ensures Find(s, "=", 0).Some? <==> '=' in s
  {
    FindIsFirst(s, "=", 0);
    hide Find;
    forall i | 0 <= i < |s|
      ensures OccursAt(s, "=", i) <==> s[i] == '='
    {
      assert s[i..i + 1] == [s[i]];
    }
    if '=' in s {
      var i :| 0 <= i < |s| && s[i] == '=';
      assert OccursAt(s, "=", i);
    }
  }

  lemma HeadingOneLine(f: string)
    requires OneLine(f)
    ensures Heading(f) == ["[" + f + "]"]
  {
    hide Lines;
    var line := "[" + f + "]";
    assert line + "\n" + "" == line + "\n";
    LinesCons(line, "");
    LinesEmptyIff("");
    assert [line] + [] == [line];
  }

  lemma BracketsTrim(f: string)
    ensures Trim("[" + f + "]") == "[" + f + "]"
  {
    hide IsWhitespace, Trim;
    RowEnds();
    TrimFixed("[" + f + "]");
  }

  lemma BracketIsNoKey(key: string)
    requires key != "" && key[0] == '['
    ensures Trim(key) !in {"schema_version", "pruned", "pruned_at", "moved"}
  {
    hide IsWhitespace;
    RowEnds();
    assert TrimStart(key) == key;
    TrimEndKeepsFront(key);
  }

  lemma SectionNameOwner(file: Option<string>, f: string)
    requires SectionName(f)
    ensures PlainName(f) && Owner(file, f) == Some(f)
  {
    hide PlainName, Owner, Trim;
    OneLineOwner(file, f);
  }

  // ----- every name that is read -------------------------------------------------------

  lemma {:induction false} TrimEndOf(s: string)
    ensures TrimEnd(s) <= s
    ensures TrimEnd(s) == "" || !IsWhitespace(TrimEnd(s)[|TrimEnd(s)| - 1])
  {
    hide IsWhitespace;
    if s != "" && IsWhitespace(s[|s| - 1]) {
      TrimEndOf(s[..|s| - 1]);
    }
  }

  lemma {:induction false} TrimStartOf(s: string)
    ensures forall c :: c in TrimStart(s) ==> c in s
    ensures TrimStart(s) == "" || !IsWhitespace(TrimStart(s)[0])
  {
    hide IsWhitespace;
    if s != "" && IsWhitespace(s[0]) {
      TrimStartOf(s[1..]);
    }
  }

  /** What is trimmed has only characters of the string, and nothing is left to
      trim. */
  lemma TrimOf(s: string)
    ensures forall c :: c in Trim(s) ==> c in s
    ensures Trim(Trim(s)) == Trim(s)
  {
    hide IsWhitespace, TrimStart, TrimEnd;
    TrimStartOf(s);
    TrimEndOf(TrimStart(s));
    assert Trim(s) != "" ==> Trim(s)[0] == TrimStart(s)[0];
    TrimFixed(Trim(s));
  }

  ghost predicate NamedFile(file: Option<string>) {
    file.Some? ==> SectionName(file.value)
  }

  lemma LineNames(file: Option<string>, line: string)
    requires NamedFile(file) && OneLine(line)
    ensures NamedFile(FileAfterLine(file, line))
  {
    hide Trim, Find;
    var trimmed := Trim(line);
    if IsSection(trimmed) {
      var inner := trimmed[1..|trimmed| - 1];
      TrimOf(line);
      TrimOf(inner);
      FindEquals(trimmed);
    }
  }

  lemma {:induction false} FileAfterNames(file: Option<string>, lines: seq<string>)
    requires NamedFile(file) && NoNewlines(lines)
    ensures NamedFile(FileAfter(file, lines))
    decreases lines
  {
    hide FileAfterLine, NamedFile;
    if lines != [] {
      assert lines[0] in lines;
      LineNames(file, lines[0]);
      FileAfterNames(FileAfterLine(file, lines[0]), lines[1..]);
    }
  }

  lemma OwnerNames(file: Option<string>, f: string)
    requires NamedFile(file)
    ensures NamedFile(Owner(file, f))
  {
    LinesHaveNoNewlines("[" + f + "]" + "\n");
    hide Lines, FileAfter, NamedFile;
    FileAfterNames(file, Heading(f));
  }

  ghost predicate Named(d: PrunedData) {
    forall f :: f in AllFiles(d) ==> SectionName(f)
  }

  /** The line adds no file but the current one. */
  ghost predicate AddsOnly(s: ParseState, t: ParseState) {
    forall f :: f in AllFiles(t.data) ==> f in AllFiles(s.data) || s.file == Some(f)
  }

  lemma AssignAdds(s: ParseState, f: string, key: string, value: string)
    requires s.file == Some(f)
    ensures var t := Assign(s, f, key, value); AddsOnly(s, t) && t.file == s.file
  {
    hide PairsOf, StringsOf, TrimQuotes;
  }

  lemma BufferedAdds(s: ParseState, buffer: string, line: string)
    ensures var t := Buffered(s, buffer, line); AddsOnly(s, t) && t.file == s.file
  {
    hide PairsOf, Trim;
  }

  lemma ParseLineNames(s: ParseState, line: string)
    requires NamedFile(s.file) && Named(s.data) && OneLine(line)
    ensures var t := ParseLine(s, line); NamedFile(t.file) && Named(t.data)
  {
    LineNames(s.file, line);
    ParseLineAdds(s, line);
    hide SectionName, ParseLine, FileAfterLine;
  }

  lemma ParseLineAdds(s: ParseState, line: string)
    ensures var t := ParseLine(s, line); AddsOnly(s, t) && (t.file == s.file || t.file == FileAfterLine(s.file, line))
  {
    hide Trim, SplitOnce, SchemaLine, IsSection, Assign, Buffered, AddsOnly;
    var t := ParseLine(s, line);
    if t.data.(schemaVersion := 0) == s.data.(schemaVersion := 0) {
      SameAdds(s, t);
    }
    if s.buffer.Some? {
      BufferedAdds(s, s.buffer.value, line);
    }
    match (s.file, SplitOnce(Trim(line))) {
      case (Some(f), Some((key, value))) => AssignAdds(s, f, Trim(key), Trim(value));
      case _ =>
    }
  }

  lemma SameAdds(s: ParseState, t: ParseState)
    requires t.data.(schemaVersion := 0) == s.data.(schemaVersion := 0)
    ensures AddsOnly(s, t)
  {
  }

  lemma {:induction false} ParseLinesNames(s: ParseState, lines: seq<string>)
    requires NamedFile(s.file) && Named(s.data) && NoNewlines(lines)
    ensures Named(ParseLines(s, lines).data)
    decreases lines
  {
    hide ParseLine, NamedFile, Named;
    if lines != [] {
      assert lines[0] in lines;
      ParseLineNames(s, lines[0]);
      ParseLinesNames(ParseLine(s, lines[0]), lines[1..]);
    }
  }

  /** Whatever the text, each file that something is read for has such a name. */
  lemma ParsedNamed(text: string)
    ensures Named(Parsed(text))
  {
    LinesHaveNoNewlines(text);
    hide ParseLines, Lines, SectionName;
    assert AllFiles(INITIAL.data) == {};
    ParseLinesNames(INITIAL, Lines(text));
  }
}
