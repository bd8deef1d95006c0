/** The sidecar of pruned and moved sections (`src/brain/rsi_pruned.rs`). */
module Pruned {
  import opened Text
  import opened SectionText
  import opened Ordering

  const SCHEMA_VERSION: nat := 2

  datatype MovedEntry = MovedEntry(header: string, dest: string)

  /** The contents of a `PrunedState`. */
  datatype PrunedData = PrunedData(
    schemaVersion: nat,
    pruned: map<string, seq<string>>,
    prunedAt: map<string, string>,
    moved: map<string, seq<MovedEntry>>)
  {
    predicate IsPruned(filename: string, header: string) {
      filename in pruned && header in pruned[filename]
    }

    function PrunedHeaders(filename: string): (s: set<string>)
      ensures forall h :: h in s <==> IsPruned(filename, h)
    {
      if filename in pruned then set h | h in pruned[filename] else {}
    }

    function MovedSources(filename: string): (s: set<string>)
      ensures forall h :: h in s <==> MovedDestination(filename, h).Some?
    {
      if filename in moved then
        MovedHeadersSound(moved[filename]);
        set k | 0 <= k < |moved[filename]| :: moved[filename][k].header
      else {}
    }

    function MovedDestination(filename: string, header: string): Option<string> {
      if filename in moved then FirstMoved(moved[filename], header) else None
    }

    /** Headers that the user decided do not belong in the file. */
    function Excluded(filename: string): set<string> {
      PrunedHeaders(filename) + MovedSources(filename)
    }
  }

  function FirstMoved(entries: seq<MovedEntry>, header: string): Option<string> {
    if entries == [] then None
    else if entries[0].header == header then Some(entries[0].dest)
    else FirstMoved(entries[1..], header)
  }

  lemma {:induction false} FirstMovedSome(entries: seq<MovedEntry>, header: string)
    ensures FirstMoved(entries, header).Some? <==>
            exists k :: 0 <= k < |entries| && entries[k].header == header
  {
    if entries != [] {
      FirstMovedSome(entries[1..], header);
      if k :| 0 <= k < |entries| && entries[k].header == header {
        if k > 0 {
          assert entries[1..][k - 1].header == header;
        }
      }
    }
  }

  lemma MovedHeadersSound(entries: seq<MovedEntry>)
    ensures forall h :: FirstMoved(entries, h).Some? <==>
                        exists k :: 0 <= k < |entries| && entries[k].header == h
  {
    forall h
      ensures FirstMoved(entries, h).Some? <==>
              exists k :: 0 <= k < |entries| && entries[k].header == h
    {
      FirstMovedSome(entries, h);
    }
  }

  // ----- recording ------------------------------------------------------------------

  /** Append what is not there yet. */
  function MergeHeaders(existing: seq<string>, headers: seq<string>): seq<string>
    decreases headers
  {
    if headers == [] then existing
    else MergeHeaders(if headers[0] in existing then existing else existing + [headers[0]], headers[1..])
  }

  function MergeMoved(existing: seq<MovedEntry>, entries: seq<MovedEntry>): seq<MovedEntry>
    decreases entries
  {
    if entries == [] then existing
    else MergeMoved(if FirstMoved(existing, entries[0].header).Some? then existing
                    else existing + [entries[0]], entries[1..])
  }

  /** Recording adds exactly the given headers, and keeps the old ones first. */
  lemma {:induction false} MergeHeadersIsUnion(existing: seq<string>, headers: seq<string>)
    ensures existing <= MergeHeaders(existing, headers)
    ensures forall h :: h in MergeHeaders(existing, headers) <==> h in existing || h in headers
    decreases headers
  {
    if headers != [] {
      MergeHeadersIsUnion(if headers[0] in existing then existing else existing + [headers[0]], headers[1..]);
    }
  }

  lemma {:induction false} FirstMovedAppend(existing: seq<MovedEntry>, e: MovedEntry, header: string)
    ensures FirstMoved(existing + [e], header) ==
            if FirstMoved(existing, header).Some? then FirstMoved(existing, header)
            else if e.header == header then Some(e.dest) else None
  {
    if existing == [] {
      assert existing + [e] == [e];
      assert [e][1..] == [];
    } else {
      assert (existing + [e])[1..] == existing[1..] + [e];
      FirstMovedAppend(existing[1..], e, header);
    }
  }

  /** The first destination ever recorded for a header stays its destination. */
  lemma {:induction false} MergeMovedLookup(existing: seq<MovedEntry>, entries: seq<MovedEntry>, header: string)
    ensures FirstMoved(MergeMoved(existing, entries), header) ==
            if FirstMoved(existing, header).Some? then FirstMoved(existing, header)
            else FirstMoved(entries, header)
    decreases entries
  {
    if entries != [] {
      var e := entries[0];
      FirstMovedAppend(existing, e, header);
      MergeMovedLookup(if FirstMoved(existing, e.header).Some? then existing else existing + [e], entries[1..], header);
    }
  }

  function RecordPrunedIn(d: PrunedData, filename: string, headers: seq<string>, now: string): PrunedData {
    if headers == [] then d
    else
      var existing := if filename in d.pruned then d.pruned[filename] else [];
      d.(pruned := d.pruned[filename := MergeHeaders(existing, headers)],
         prunedAt := d.prunedAt[filename := now])
  }

  function RecordMovedIn(d: PrunedData, filename: string, entries: seq<MovedEntry>, now: string): PrunedData {
    if entries == [] then d
    else
      var existing := if filename in d.moved then d.moved[filename] else [];
      d.(moved := d.moved[filename := MergeMoved(existing, entries)],
         prunedAt := d.prunedAt[filename := now])
  }

  function ClearIn(d: PrunedData, filename: Option<string>): PrunedData {
    match filename
    case Some(f) => d.(pruned := d.pruned - {f}, prunedAt := d.prunedAt - {f}, moved := d.moved - {f})
    case None => d.(pruned := map[], prunedAt := map[], moved := map[])
  }

  /** The sidecar in memory. */
  class PrunedState {
    var schemaVersion: nat
    var pruned: map<string, seq<string>>
    var prunedAt: map<string, string>
    var moved: map<string, seq<MovedEntry>>

    function Data(): PrunedData
      reads this
    {
      PrunedData(schemaVersion, pruned, prunedAt, moved)
    }

    constructor ()
      ensures Data() == PrunedData(SCHEMA_VERSION, map[], map[], map[])
    {
      schemaVersion := SCHEMA_VERSION;
      pruned, prunedAt, moved := map[], map[], map[];
    }

    method RecordPruned(filename: string, headers: seq<string>, now: string)
      modifies this
      ensures Data() == RecordPrunedIn(old(Data()), filename, headers, now)
    {
      if headers == [] {
        return;
      }
      var entry := if filename in pruned then pruned[filename] else [];
      ghost var all := MergeHeaders(entry, headers);
      assert headers[0..] == headers;
      for i := 0 to |headers|
        invariant MergeHeaders(entry, headers[i..]) == all
        invariant Data() == old(Data())
      {
        assert headers[i..][1..] == headers[i + 1..];
        if headers[i] !in entry {
          entry := entry + [headers[i]];
        }
      }
      pruned := pruned[filename := entry];
      prunedAt := prunedAt[filename := now];
    }

    method RecordMoved(filename: string, entries: seq<MovedEntry>, now: string)
      modifies this
      ensures Data() == RecordMovedIn(old(Data()), filename, entries, now)
    {
      if entries == [] {
        return;
      }
      var bucket := if filename in moved then moved[filename] else [];
      ghost var all := MergeMoved(bucket, entries);
      assert entries[0..] == entries;
      for i := 0 to |entries|
        invariant MergeMoved(bucket, entries[i..]) == all
        invariant Data() == old(Data())
      {
        assert entries[i..][1..] == entries[i + 1..];
        if FirstMoved(bucket, entries[i].header).None? {
          bucket := bucket + [entries[i]];
        }
      }
      moved := moved[filename := bucket];
      prunedAt := prunedAt[filename := now];
    }

    method Clear(filename: Option<string>)
      modifies this
      ensures Data() == ClearIn(old(Data()), filename)
    {
      match filename {
        case Some(f) =>
          pruned := pruned - {f};
          prunedAt := prunedAt - {f};
          moved := moved - {f};
        case None =>
          pruned := map[];
          prunedAt := map[];
          moved := map[];
      }
    }
  }

  /** Recording extends the excluded headers of that file by exactly what is
      recorded, and touches no other file. */
  lemma RecordingExcludes(d: PrunedData, filename: string, headers: seq<string>, entries: seq<MovedEntry>,
                          now: string, other: string)
    ensures forall h :: h in RecordPrunedIn(d, filename, headers, now).Excluded(other) <==>
              h in d.Excluded(other) || (other == filename && h in headers)
    ensures forall h :: h in RecordMovedIn(d, filename, entries, now).Excluded(other) <==>
              h in d.Excluded(other) || (other == filename && FirstMoved(entries, h).Some?)
  {
    if headers != [] {
      MergeHeadersIsUnion(if filename in d.pruned then d.pruned[filename] else [], headers);
    }
    forall h
      ensures h in RecordMovedIn(d, filename, entries, now).Excluded(other) <==>
              h in d.Excluded(other) || (other == filename && FirstMoved(entries, h).Some?)
    {
      if entries != [] {
        MergeMovedLookup(if filename in d.moved then d.moved[filename] else [], entries, h);
      }
    }
  }

  /** It notes the time for that file alone, if there is something to record, and
      changes nothing else. */
  lemma RecordingNotes(d: PrunedData, f: string, headers: seq<string>, entries: seq<MovedEntry>, now: string)
    ensures var r := RecordPrunedIn(d, f, headers, now);
            && r.moved == d.moved && r.schemaVersion == d.schemaVersion
            && (headers == [] ==> r == d)
            && (headers != [] ==> f in r.prunedAt && r.prunedAt[f] == now && r.prunedAt - {f} == d.prunedAt - {f}
                                  && r.pruned - {f} == d.pruned - {f})
    ensures var r := RecordMovedIn(d, f, entries, now);
            && r.pruned == d.pruned && r.schemaVersion == d.schemaVersion
            && (entries == [] ==> r == d)
            && (entries != [] ==> f in r.prunedAt && r.prunedAt[f] == now && r.prunedAt - {f} == d.prunedAt - {f}
                                  && r.moved - {f} == d.moved - {f})
  {
  }

  /** A clear forgets what is recorded of its files, and nothing of any other. */
  lemma ClearingForgets(d: PrunedData, scope: Option<string>, g: string)
    ensures var r := ClearIn(d, scope);
            if scope == None || scope == Some(g) then
              r.Excluded(g) == {} && g !in r.prunedAt
            else
              && r.Excluded(g) == d.Excluded(g)
              && (g in r.prunedAt <==> g in d.prunedAt) && (g in d.prunedAt ==> r.prunedAt[g] == d.prunedAt[g])
  {
  }

  // ----- diffing and filtering ---------------------------------------------------------

  /** `detect_removed_sections`: headers of `before` that `after` lacks, sorted. */
  ghost function DetectRemovedSections(before: string, after: string): (r: seq<string>)
    ensures forall h :: h in r <==> h in ExtractSectionHeaders(before) && h !in ExtractSectionHeaders(after)
  {
    Sorted(HeaderSet(before) - HeaderSet(after))
  }

  method DetectRemoved(before: string, after: string) returns (r: seq<string>)
    ensures r == DetectRemovedSections(before, after)
  {
    var oldHeaders := set h | h in ExtractSectionHeaders(before);
    var newHeaders := set h | h in ExtractSectionHeaders(after);
    r := SortNames(oldHeaders - newHeaders);
  }

  /** `filter_pruned_sections`, given the excluded headers. */
  function FilterPrunedSections(newSections: string, excluded: set<string>): string {
    if excluded == {} then newSections
    else Render(Without(Blocks(Lines(newSections)), excluded))
  }

  method FilterPruned(newSections: string, state: PrunedState, filename: string) returns (r: string)
    ensures r == FilterPrunedSections(newSections, state.Data().Excluded(filename))
  {
    var pruned := state.Data().PrunedHeaders(filename);
    var movedSources := state.Data().MovedSources(filename);
    if pruned == {} && movedSources == {} {
      return newSections;
    }
    var blocks := CutBlocks(Lines(newSections));
    var kept: seq<Block> := [];
    assert blocks[0..] == blocks;
    for i := 0 to |blocks|
      invariant Without(blocks, pruned + movedSources) == kept + Without(blocks[i..], pruned + movedSources)
    {
      assert blocks[i..][1..] == blocks[i + 1..];
      if !(blocks[i].header in pruned || blocks[i].header in movedSources) {
        kept := kept + [blocks[i]];
      }
    }
    assert blocks[|blocks|..] == [];
    assert kept + [] == kept;
    if kept == [] {
      return "";
    }
    return "\n" + Join(Texts(kept), "\n\n") + "\n";
  }

  /** What the filter leaves of a text: with nothing excluded the text itself,
      else its headers without the excluded ones, in order, each without one
      carriage return. */
  lemma FilteredHeaders(newSections: string, excluded: set<string>)
    ensures ExtractSectionHeaders(FilterPrunedSections(newSections, excluded)) ==
            if excluded == {} then ExtractSectionHeaders(newSections)
            else StripCRs(HeadersWithout(ExtractSectionHeaders(newSections), excluded))
  {
    if excluded != {} {
      LinesHaveNoNewlines(newSections);
      BlocksAreGood(Lines(newSections));
      hide Lines, Render;
      var blocks := Blocks(Lines(newSections));
      WithoutGood(blocks, excluded);
      WithoutHeaders(blocks, excluded);
      RenderedHeaders(Without(blocks, excluded));
    }
  }
}
