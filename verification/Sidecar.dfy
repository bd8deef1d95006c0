/** The sidecar file of pruned and moved sections: the text that `save` builds
    and the line by line `parse` (`src/brain/rsi_pruned.rs`). */
module Sidecar {
  import opened Text
  import opened Ordering
  import opened Pruned
  import opened MovedArray
  import opened MovedPairs
  import Numbers

  // ----- writing ---------------------------------------------------------------------------

  const COMMENT1: string := "# Pruned brain-file sections."
  const COMMENT2: string := "# Sections listed here will" + " NOT be re-added by sync_templates()."
  const COMMENT3: string := "# Edit manually or use" + " `stemcell pruned clear` to reset."
  const COMMENTS: seq<string> := [COMMENT1, COMMENT2, COMMENT3, ""]

  function Prologue(): seq<string> {
    COMMENTS + ["schema_version = " + Numbers.Print(SCHEMA_VERSION), ""]
  }

  function PrunedOf(d: PrunedData, f: string): seq<string> {
    if f in d.pruned then d.pruned[f] else []
  }

  function EntriesOf(d: PrunedData, f: string): seq<MovedEntry> {
    if f in d.moved then d.moved[f] else []
  }

  predicate HasAny(d: PrunedData, f: string) {
    PrunedOf(d, f) != [] || EntriesOf(d, f) != []
  }

  function PrunedLines(headers: seq<string>): seq<string> {
    if headers == [] then [] else ["pruned = " + StringArray(headers)]
  }

  function PrunedAtLines(d: PrunedData, f: string): seq<string> {
    if f in d.prunedAt then ["pruned_at = \"" + d.prunedAt[f] + "\""] else []
  }

  function MovedLines(entries: seq<MovedEntry>): seq<string> {
    if entries == [] then [] else ["moved = ["] + (Rows(entries) + ["]"])
  }

  /** The lines of a section below its name. */
  function SectionBody(d: PrunedData, f: string): seq<string> {
    PrunedLines(PrunedOf(d, f)) + (PrunedAtLines(d, f) + (MovedLines(EntriesOf(d, f)) + [""]))
  }

  function FileSection(d: PrunedData, f: string): seq<string> {
    if !HasAny(d, f) then [] else ["[" + f + "]"] + SectionBody(d, f)
  }

  function FileSections(d: PrunedData, files: seq<string>): seq<string> {
    if files == [] then [] else FileSection(d, files[0]) + FileSections(d, files[1..])
  }

  function AllFiles(d: PrunedData): set<string> {
    d.pruned.Keys + d.prunedAt.Keys + d.moved.Keys
  }

  ghost function SaveText(d: PrunedData): string {
    Unlines(Prologue() + FileSections(d, Sorted(AllFiles(d))))
  }

  /** The text of `save`. */
  method Save(d: PrunedData) returns (content: string)
    ensures content == SaveText(d)
  {
    hide Prologue, FileSection, Unlines, Sorted;
    content := Unlines(Prologue());
    assert Prologue() + [] == Prologue();
    var files := SortNames(AllFiles(d));
    for i := 0 to |files|
      invariant content == Unlines(Prologue() + FileSections(d, files[..i]))
    {
      var block := SaveBlock(d, files[i]);
      UnlinesConcat(Prologue() + FileSections(d, files[..i]), FileSection(d, files[i]));
      content := content + block;
      BlocksMore(d, files[..i], files[i]);
      assert files[..i + 1] == files[..i] + [files[i]];
      SeqAssoc(Prologue(), FileSections(d, files[..i]), FileSection(d, files[i]));
    }
    assert files[..|files|] == files;
  }

  lemma {:induction false} BlocksMore(d: PrunedData, files: seq<string>, f: string)
    ensures FileSections(d, files + [f]) == FileSections(d, files) + FileSection(d, f)
  {
    hide FileSection;
    if files == [] {
      assert files + [f] == [f] && [f][1..] == [];
      assert [] + FileSection(d, f) == FileSection(d, f) + [];
    } else {
      assert (files + [f])[1..] == files[1..] + [f];
      BlocksMore(d, files[1..], f);
      SeqAssoc(FileSection(d, files[0]), FileSections(d, files[1..]), FileSection(d, f));
    }
  }

  method SaveBlock(d: PrunedData, f: string) returns (text: string)
    ensures text == Unlines(FileSection(d, f))
  {
    hide Unlines, StringArray, Rows;
    text := "";
    var headers := PrunedOf(d, f);
    var entries := EntriesOf(d, f);
    if headers == [] && entries == [] {
      UnlinesNone();
      return;
    }
    var name := "[" + f + "]";
    text := name + "\n";
    UnlinesOne(name);
    if headers != [] {
      var list := SaveStrings(headers);
      UnlinesOne("pruned = " + list);
      text := text + ("pruned = " + list + "\n");
    } else {
      UnlinesNone();
      assert text + "" == text;
    }
    UnlinesConcat([name], PrunedLines(headers));
    if f in d.prunedAt {
      var line := "pruned_at = \"" + d.prunedAt[f] + "\"";
      UnlinesOne(line);
      text := text + (line + "\n");
    } else {
      UnlinesNone();
      assert text + "" == text;
    }
    UnlinesConcat([name] + PrunedLines(headers), PrunedAtLines(d, f));
    if entries != [] {
      var rows := SaveRows(entries);
      MovedText(entries);
      text := text + ("moved = [" + "\n" + rows + "]" + "\n");
    } else {
      UnlinesNone();
      assert text + "" == text;
    }
    UnlinesConcat([name] + PrunedLines(headers) + PrunedAtLines(d, f), MovedLines(entries));
    text := text + "\n";
    UnlinesOne("");
    UnlinesConcat([name] + PrunedLines(headers) + PrunedAtLines(d, f) + MovedLines(entries), [""]);
    Regroup([name], PrunedLines(headers), PrunedAtLines(d, f), MovedLines(entries), [""]);
  }

  lemma Regroup<T>(a: seq<T>, b: seq<T>, c: seq<T>, d: seq<T>, e: seq<T>)
    ensures a + b + c + d + e == a + (b + (c + (d + e)))
  {
  }

  lemma UnlinesNone()
    ensures Unlines([]) == ""
  {
  }

  lemma UnlinesOne(line: string)
    ensures Unlines([line]) == line + "\n"
  {
    assert [line][1..] == [];
    assert line + "\n" + Unlines([]) == line + "\n";
  }

  lemma MovedText(entries: seq<MovedEntry>)
    requires entries != []
    ensures Unlines(MovedLines(entries)) == "moved = [" + "\n" + Unlines(Rows(entries)) + "]" + "\n"
  {
    hide Unlines, Rows;
    UnlinesOne("moved = [");
    UnlinesOne("]");
    UnlinesConcat(Rows(entries), ["]"]);
    UnlinesConcat(["moved = ["], Rows(entries) + ["]"]);
  }

  method SaveStrings(headers: seq<string>) returns (text: string)
    ensures text == StringArray(headers)
  {
    hide Quote, Join;
    var escaped: seq<string> := [];
    for i := 0 to |headers|
      invariant |escaped| == i && forall k :: 0 <= k < i ==> escaped[k] == Quote(headers[k])
    {
      escaped := escaped + [Quote(headers[i])];
    }
    assert escaped == Quoted(headers);
    text := "[" + Join(escaped, ", ") + "]";
  }

  method SaveRows(entries: seq<MovedEntry>) returns (text: string)
    ensures text == Unlines(Rows(entries))
  {
    hide Row, Unlines;
    text := "";
    UnlinesNone();
    assert Rows(entries[..0]) == [];
    for i := 0 to |entries|
      invariant text == Unlines(Rows(entries[..i]))
    {
      assert Rows(entries[..i + 1]) == Rows(entries[..i]) + [Row(entries[i])];
      UnlinesConcat(Rows(entries[..i]), [Row(entries[i])]);
      UnlinesOne(Row(entries[i]));
      text := text + (Row(entries[i]) + "\n");
    }
    assert entries[..|entries|] == entries;
  }

  // ----- reading -----------------------------------------------------------------------------

  /** What the parser knows between two lines: the state read so far, the file
      of the current section, and the lines of an unfinished moved array. */
  datatype ParseState = ParseState(data: PrunedData, file: Option<string>, buffer: Option<string>)

  const INITIAL: ParseState := ParseState(PrunedData(1, map[], map[], map[]), None, None)

  /** `split_once('=')`. */
  function SplitOnce(s: string): Option<(string, string)> {
    match Find(s, "=", 0)
    case None => None
    case Some(p) => Some((s[..p], s[p + 1..]))
  }

  /** `trim_matches('"')`. */
  function TrimQuotes(s: string): string {
    if s != "" && s[0] == '"' then TrimQuotes(s[1..])
    else if s != "" && s[|s| - 1] == '"' then TrimQuotes(s[..|s| - 1])
    else s
  }

  function SetMoved(d: PrunedData, f: string, entries: seq<MovedEntry>): PrunedData {
    if entries == [] then d else d.(moved := d.moved[f := entries])
  }

  function SetPruned(d: PrunedData, f: string, headers: seq<string>): PrunedData {
    if headers == [] then d else d.(pruned := d.pruned[f := headers])
  }

  predicate IsSection(trimmed: string) {
    trimmed != "" && trimmed[0] == '[' && trimmed[|trimmed| - 1] == ']' && Find(trimmed, "=", 0).None?
  }

  /** The schema version that the line sets, if it does. */
  function SchemaLine(s: ParseState, trimmed: string): Option<nat> {
    if s.file.Some? then None
    else
      match SplitOnce(trimmed)
      case None => None
      case Some((key, value)) =>
        if Trim(key) == "schema_version" then Numbers.Parse(Trim(value), Numbers.U32_MAX) else None
  }

  /** A key of the section of `f`. */
  function Assign(s: ParseState, f: string, key: string, value: string): ParseState {
    if key == "pruned_at" then s.(data := s.data.(prunedAt := s.data.prunedAt[f := TrimQuotes(value)]))
    else if key == "pruned" then s.(data := SetPruned(s.data, f, StringsOf(value)))
    else if key == "moved" && value != "" && value[0] == '[' then
      if value[|value| - 1] == ']' then s.(data := SetMoved(s.data, f, PairsOf(value)))
      else s.(buffer := Some(value + "\n"))
    else s
  }

  /** A line within an unfinished array. */
  function Buffered(s: ParseState, buffer: string, line: string): ParseState {
    var all := buffer + line + "\n";
    if EndsWith(Trim(line), ']') then
      s.(buffer := None, data := if s.file.Some? then SetMoved(s.data, s.file.value, PairsOf(all)) else s.data)
    else s.(buffer := Some(all))
  }

  function ParseLine(s: ParseState, line: string): ParseState {
    var trimmed := Trim(line);
    if s.buffer.Some? then Buffered(s, s.buffer.value, line)
    else if trimmed == "" || trimmed[0] == '#' then s
    else if SchemaLine(s, trimmed).Some? then
      s.(data := s.data.(schemaVersion := SchemaLine(s, trimmed).value))
    else if IsSection(trimmed) then s.(file := Some(Trim(trimmed[1..|trimmed| - 1])))
    else
      match (s.file, SplitOnce(trimmed))
      case (Some(f), Some((key, value))) => Assign(s, f, Trim(key), Trim(value))
      case _ => s
  }

  function ParseLines(s: ParseState, lines: seq<string>): ParseState
    decreases lines
  {
    if lines == [] then s else ParseLines(ParseLine(s, lines[0]), lines[1..])
  }

  function Parsed(content: string): PrunedData {
    ParseLines(INITIAL, Lines(content)).data
  }

  /** `parse`. */
  method Parse(content: string) returns (data: PrunedData)
    ensures data == Parsed(content)
  {
    hide ParseLine, Lines;
    var lines := Lines(content);
    data := INITIAL.data;
    var currentFile: Option<string>, movedBuffer: Option<string> := None, None;
    for i := 0 to |lines|
      invariant ParseLines(ParseState(data, currentFile, movedBuffer), lines[i..]) == ParseLines(INITIAL, lines)
    {
      assert lines[i..][1..] == lines[i + 1..];
      data, currentFile, movedBuffer := ReadLine(data, currentFile, movedBuffer, lines[i]);
    }
  }

  /** The body of the loop. */
  method ReadLine(before: PrunedData, file: Option<string>, movedBuffer: Option<string>, line: string)
    returns (data: PrunedData, currentFile: Option<string>, buffer: Option<string>)
    ensures ParseState(data, currentFile, buffer) == ParseLine(ParseState(before, file, movedBuffer), line)
  {
    hide Trim, Find, PairsOf, StringsOf, TrimQuotes, Numbers.Parse;
    data, currentFile, buffer := before, file, movedBuffer;
    var trimmed := Trim(line);
    if buffer.Some? {
      var all := buffer.value + line + "\n";
      buffer := Some(all);
      if EndsWith(trimmed, ']') {
        buffer := None;
        if currentFile.Some? {
          var pairs := ParseMovedArray(all);
          if pairs != [] {
            data := data.(moved := data.moved[currentFile.value := pairs]);
          }
        }
      }
      return;
    }
    if trimmed == "" || trimmed[0] == '#' {
      return;
    }
    var assignment := SplitOnce(trimmed);
    if currentFile.None? && assignment.Some? && Trim(assignment.value.0) == "schema_version" {
      var version := Numbers.Parse(Trim(assignment.value.1), Numbers.U32_MAX);
      if version.Some? {
        data := data.(schemaVersion := version.value);
        return;
      }
    }
    if IsSection(trimmed) {
      currentFile := Some(Trim(trimmed[1..|trimmed| - 1]));
      return;
    }
    if currentFile.Some? && assignment.Some? {
      var f := currentFile.value;
      var key, value := Trim(assignment.value.0), Trim(assignment.value.1);
      if key == "pruned_at" {
        data := data.(prunedAt := data.prunedAt[f := TrimQuotes(value)]);
      } else if key == "pruned" {
        var headers := ParseStringArray(value);
        if headers != [] {
          data := data.(pruned := data.pruned[f := headers]);
        }
      } else if key == "moved" && value != "" && value[0] == '[' {
        if value[|value| - 1] == ']' {
          var pairs := ParseMovedArray(value);
          if pairs != [] {
            data := data.(moved := data.moved[f := pairs]);
          }
        } else {
          buffer := Some(value + "\n");
        }
      }
    }
  }

  // ----- the lines that `save` writes, read again ------------------------------------------------

  lemma {:induction false} ParseConcat(s: ParseState, a: seq<string>, b: seq<string>)
    ensures ParseLines(s, a + b) == ParseLines(ParseLines(s, a), b)
    decreases a
  {
    hide ParseLine;
    if a == [] {
      assert a + b == b;
    } else {
      assert (a + b)[1..] == a[1..] + b;
      ParseConcat(ParseLine(s, a[0]), a[1..], b);
    }
  }

  lemma ParseOne(s: ParseState, line: string)
    ensures ParseLines(s, [line]) == ParseLine(s, line)
  {
    hide ParseLine;
    assert [line][1..] == [];
  }

  /** A word as a key or a value: not empty, and no blanks at its ends. */
  predicate Solid(s: string) {
    s != "" && !IsWhitespace(s[0]) && !IsWhitespace(s[|s| - 1])
  }

  lemma TrimTrailingBlank(s: string)
    requires Solid(s)
    ensures Trim(s + " ") == s
  {
    hide IsWhitespace;
    BlankIsWhitespace();
    var t := s + " ";
    assert t[0] == s[0] && t[|t| - 1] == ' ' && t[..|t| - 1] == s;
    assert TrimStart(t) == t;
    assert TrimEnd(t) == TrimEnd(s) == s;
  }

  lemma BlankIsWhitespace()
    ensures IsWhitespace(' ')
  {
  }

  /** A line `key = value` in a section. */
  lemma KeyLine(s: ParseState, f: string, key: string, value: string)
    requires s.buffer.None? && s.file == Some(f)
    requires Solid(key) && Solid(value) && '=' !in key && key[0] != '[' && key[0] != '#'
    ensures ParseLine(s, key + " = " + value) == Assign(s, f, key, value)
  {
    hide Trim, SplitOnce, Assign, IsWhitespace;
    KeyParts(key, value);
  }

  lemma KeyParts(key: string, value: string)
    requires Solid(key) && Solid(value) && '=' !in key
    ensures var line := key + " = " + value;
            && Trim(line) == line && line[0] == key[0]
            && SplitOnce(line) == Some((key + " ", " " + value))
    ensures Trim(key + " ") == key && Trim(" " + value) == value
  {
    hide Trim, Find, IsWhitespace;
    var line := key + " = " + value;
    assert line[0] == key[0] && line[|line| - 1] == value[|value| - 1];
    TrimFixed(line);
    var left, right := key + " ", " " + value;
    assert line == left + ['='] + right;
    FindChar(left, '=', right, 0);
    assert line[..|left|] == left && line[|left| + 1..] == right;
    TrimTrailingBlank(key);
    BlankIsWhitespace();
    TrimDropsBlank(right);
    assert right[1..] == value;
    TrimFixed(value);
  }

  lemma CommentLine(s: ParseState, line: string)
    requires s.buffer.None? && (line == "" || (line[0] == '#' && !IsWhitespace(line[|line| - 1])))
    ensures ParseLine(s, line) == s
  {
    hide Trim, IsWhitespace, SchemaLine, IsSection, Assign, Buffered;
    if line == "" {
      TrimEmpty();
    } else {
      HashIsSolid();
      TrimFixed(line);
    }
  }

  lemma HashIsSolid()
    ensures !IsWhitespace('#')
  {
  }

  lemma SchemaVersionLine(s: ParseState)
    requires s.buffer.None? && s.file.None?
    ensures ParseLine(s, "schema_version = " + Numbers.Print(SCHEMA_VERSION)) ==
            s.(data := s.data.(schemaVersion := SCHEMA_VERSION))
  {
    hide Trim, Find, IsWhitespace, Numbers.Print, Numbers.Parse;
    var key, value := "schema_version", Numbers.Print(SCHEMA_VERSION);
    var line := "schema_version = " + value;
    SchemaWords();
    assert line[0] == key[0] && line[|line| - 1] == value[|value| - 1];
    TrimFixed(line);
    var left, right := key + " ", " " + value;
    assert line == left + ['='] + right;
    FindChar(left, '=', right, 0);
    assert line[..|left|] == left && line[|left| + 1..] == right;
    TrimTrailingBlank(key);
    BlankIsWhitespace();
    TrimDropsBlank(right);
    assert right[1..] == value;
    TrimFixed(value);
    Numbers.ParsePrint(SCHEMA_VERSION, Numbers.U32_MAX);
  }

  lemma SchemaWords()
    ensures Solid("schema_version") && Solid(Numbers.Print(SCHEMA_VERSION))
    ensures '=' !in "schema_version" && "schema_version"[0] == 's'
  {
    hide Numbers.Print;
  }

  /** After the first lines, the schema version is known. */
  lemma PrologueRead()
    ensures ParseLines(INITIAL, Prologue()) == INITIAL.(data := INITIAL.data.(schemaVersion := SCHEMA_VERSION))
  {
    hide ParseLine, Numbers.Print;
    var version := "schema_version = " + Numbers.Print(SCHEMA_VERSION);
    ParseConcat(INITIAL, COMMENTS, [version, ""]);
    CommentsRead(INITIAL);
    assert [version, ""] == [version] + [""];
    ParseConcat(INITIAL, [version], [""]);
    ParseOne(INITIAL, version);
    SchemaVersionLine(INITIAL);
    var next := ParseLine(INITIAL, version);
    ParseOne(next, "");
    CommentLine(next, "");
  }

  lemma CommentsRead(s: ParseState)
    requires s.buffer.None?
    ensures ParseLines(s, COMMENTS) == s
  {
    hide ParseLine, COMMENT1, COMMENT2, COMMENT3;
    assert COMMENTS[1..] == [COMMENT2, COMMENT3, ""];
    assert [COMMENT2, COMMENT3, ""][1..] == [COMMENT3, ""] && [COMMENT3, ""][1..] == [""] && [""][1..] == [];
    CommentShape();
    CommentLine(s, COMMENT1);
    CommentLine(s, COMMENT2);
    CommentLine(s, COMMENT3);
    CommentLine(s, "");
    assert ParseLines(s, [""]) == s;
    assert ParseLines(s, [COMMENT3, ""]) == s;
    assert ParseLines(s, [COMMENT2, COMMENT3, ""]) == s;
  }

  predicate OneLine(s: string) {
    '\n' !in s
  }

  predicate IsComment(line: string) {
    line != "" && line[0] == '#' && line[|line| - 1] == '.' && OneLine(line)
  }

  lemma CommentShape()
    ensures IsComment(COMMENT1) && IsComment(COMMENT2) && IsComment(COMMENT3)
    ensures forall c: string :: IsComment(c) ==> !IsWhitespace(c[|c| - 1])
  {
    hide IsWhitespace;
    SolidDot();
    CommentShape1();
    CommentShape2();
    CommentShape3();
  }

  lemma CommentShape1()
    ensures IsComment(COMMENT1)
  {
    assert COMMENT1[0] == '#';
  }

  lemma CommentShape2()
    ensures IsComment(COMMENT2)
  {
    assert "# Sections listed here will"[0] == '#';
  }

  lemma CommentShape3()
    ensures IsComment(COMMENT3)
  {
    assert "# Edit manually or use"[0] == '#';
  }

  lemma SolidDot()
    ensures !IsWhitespace('.')
  {
  }

  /** The quotes around a time stamp. */
  lemma QuotesTrimmed(ts: string)
    requires ts == "" || (ts[0] != '"' && ts[|ts| - 1] != '"')
    ensures TrimQuotes("\"" + ts + "\"") == ts
  {
    var all := "\"" + ts + "\"";
    var tail := ts + "\"";
    assert all[1..] == tail;
    assert all[0] == '"' && TrimQuotes(all) == TrimQuotes(tail);
    if ts == "" {
      assert tail[0] == '"' && tail[1..] == "" && TrimQuotes(tail) == TrimQuotes("");
    } else {
      assert tail[0] == ts[0] && tail[|tail| - 1] == '"' && tail[..|tail| - 1] == ts;
      assert TrimQuotes(tail) == TrimQuotes(ts);
      assert TrimQuotes(ts) == ts;
    }
  }

  /** Rows are collected, whatever they hold, since none ends with a bracket. */
  lemma RowBuffered(s: ParseState, buffer: string, e: MovedEntry)
    requires s.buffer == Some(buffer)
    ensures ParseLine(s, Row(e)) == s.(buffer := Some(buffer + Row(e) + "\n"))
  {
    hide Trim, Escape, PairsOf;
    var body := "[" + Quote(e.header) + ", " + Quote(e.dest) + "],";
    BlankIsWhitespace();
    assert Row(e) == "  " + body;
    TrimLeadingBlanks("  ", body);
    assert body[|body| - 1] == ',' && body[0] == '[';
    RowEnds();
    TrimFixed(body);
  }

  lemma RowEnds()
    ensures !IsWhitespace(',') && !IsWhitespace('[') && !IsWhitespace(']')
  {
  }

  lemma {:induction false} RowsBuffered(s: ParseState, buffer: string, entries: seq<MovedEntry>)
    requires s.buffer == Some(buffer)
    ensures ParseLines(s, Rows(entries)) == s.(buffer := Some(buffer + Unlines(Rows(entries))))
    decreases entries
  {
    hide ParseLine, Row;
    if entries == [] {
      assert buffer + "" == buffer;
    } else {
      var e, rest := entries[0], entries[1..];
      assert Rows(entries)[0] == Row(e) && Rows(entries)[1..] == Rows(rest);
      RowBuffered(s, buffer, e);
      RowsBuffered(ParseLine(s, Row(e)), buffer + Row(e) + "\n", rest);
      assert buffer + (Row(e) + "\n" + Unlines(Rows(rest))) == (buffer + Row(e) + "\n") + Unlines(Rows(rest));
    }
  }

  lemma MovedKey(s: ParseState, f: string)
    requires s.buffer.None? && s.file == Some(f)
    ensures ParseLine(s, "moved = [") == s.(buffer := Some("[\n"))
  {
    hide PairsOf, StringsOf, TrimQuotes, ParseLine;
    assert Solid("moved") && Solid("[");
    assert "moved" + " = " + "[" == "moved = [";
    KeyLine(s, f, "moved", "[");
    assert "moved"[0] != "pruned"[0] && "moved"[0] != "pruned_at"[0];
    assert "[" + "\n" == "[\n";
  }

  lemma ClosingLine(s: ParseState, f: string, buffer: string)
    requires s.file == Some(f) && s.buffer == Some(buffer)
    ensures ParseLine(s, "]") == s.(buffer := None, data := SetMoved(s.data, f, PairsOf(buffer + "]" + "\n")))
  {
    hide PairsOf, Trim;
    RowEnds();
    TrimFixed("]");
  }

  lemma PrunedRead(s: ParseState, f: string, headers: seq<string>)
    requires s.buffer.None? && s.file == Some(f)
    ensures ParseLines(s, PrunedLines(headers)) == s.(data := SetPruned(s.data, f, headers))
  {
    hide ParseLine, StringsOf, StringArray, TrimQuotes;
    if headers != [] {
      var value := StringArray(headers);
      ArraySolid(headers);
      assert "pruned" + " = " + value == "pruned = " + value;
      ParseOne(s, "pruned = " + value);
      PrunedWords();
      KeyLine(s, f, "pruned", value);
      StringArrayRoundTrip(headers);
    }
  }

  lemma PrunedWords()
    ensures Solid("pruned") && '=' !in "pruned" && "pruned"[0] == 'p'
    ensures Solid("pruned_at") && '=' !in "pruned_at" && "pruned_at"[0] == 'p'
    ensures "pruned" != "pruned_at"
  {
    assert |"pruned"| == 6 && |"pruned_at"| == 9;
  }

  lemma ArraySolid(headers: seq<string>)
    ensures Solid(StringArray(headers))
  {
    hide Join, Quoted;
    RowEnds();
  }

  /** A time stamp: one line, not quoted itself. */
  predicate PlainStamp(ts: string) {
    '\n' !in ts && (ts == "" || (ts[0] != '"' && ts[|ts| - 1] != '"'))
  }

  lemma PrunedAtRead(s: ParseState, g: string, d: PrunedData, f: string)
    requires s.buffer.None? && s.file == Some(g)
    requires f in d.prunedAt ==> PlainStamp(d.prunedAt[f])
    ensures ParseLines(s, PrunedAtLines(d, f)) ==
            if f in d.prunedAt then s.(data := s.data.(prunedAt := s.data.prunedAt[g := d.prunedAt[f]])) else s
  {
    hide ParseLine, StringsOf, TrimQuotes;
    if f in d.prunedAt {
      var ts := d.prunedAt[f];
      var value := "\"" + ts + "\"";
      assert "pruned_at" + " = " + value == "pruned_at = \"" + ts + "\"";
      ParseOne(s, "pruned_at = \"" + ts + "\"");
      PrunedWords();
      QuoteSolid();
      assert value[0] == '"' && value[|value| - 1] == '"';
      KeyLine(s, g, "pruned_at", value);
      QuotesTrimmed(ts);
    }
  }

  lemma QuoteSolid()
    ensures !IsWhitespace('"')
  {
  }
}
