/** `build_resources_index`: the loops over the walked files, their lines and
    the matches on each line, and what the resulting index holds.

    Reading files is left to the caller: `contents(path)` is the sequence of
    lines of `path` as the file iterator yields them. */
module Indexer {
  import opened Wrappers
  import opened Paths
  import opened Classifier
  import opened Extractor
  import opened ResourceIndex

  // ---------------------------------------------------------------------
  // The operations a build performs, in order

  /** One reference operation per match on line `lineNumber` of `source`. */
  function LineEvents(source: string, lineNumber: nat, paths: seq<string>): seq<Event>
    decreases |paths|
  {
    if paths == [] then []
    else LineEvents(source, lineNumber, paths[..|paths| - 1]) + [ReferenceFound(source, lineNumber, paths[|paths| - 1])]
  }

  /** The reference operations of a whole file; lines are numbered from 0. */
  function LinesEvents(source: string, lines: seq<string>): seq<Event>
    decreases |lines|
  {
    if lines == [] then []
    else
      var n := |lines| - 1;
      LinesEvents(source, lines[..n]) + LineEvents(source, n, Extract(lines[n]))
  }

  function FileEvents(source: string, lines: seq<string>): seq<Event> {
    [SourceScanned(source)] + LinesEvents(source, lines)
  }

  /** The operations of scanning `files` in order: the classified ones only. */
  function ScanEvents(files: seq<string>, contents: string -> seq<string>): seq<Event>
    decreases |files|
  {
    if files == [] then []
    else
      var f := files[|files| - 1];
      ScanEvents(files[..|files| - 1], contents) + (if IsGodotText(f) then FileEvents(f, contents(f)) else [])
  }

  /** A reference to `target` sits on line `line` of the classified walked
      file `source`. */
  predicate Found(validFiles: seq<string>, contents: string -> seq<string>, source: string, line: nat, target: string) {
    source in validFiles && IsGodotText(source) && line < |contents(source)| && target in Extract(contents(source)[line])
  }

  lemma {:induction false} LineEventsIff(source: string, lineNumber: nat, paths: seq<string>, e: Event)
    ensures e in LineEvents(source, lineNumber, paths) <==> e.ReferenceFound? && e.source == source && e.line == lineNumber && e.target in paths
    decreases |paths|
  {
    if paths != [] {
      var init := paths[..|paths| - 1];
      LineEventsIff(source, lineNumber, init, e);
      assert paths == init + [paths[|paths| - 1]];
    }
  }

  lemma {:induction false} LinesEventsIff(source: string, lines: seq<string>, e: Event)
    ensures e in LinesEvents(source, lines) <==>
              e.ReferenceFound? && e.source == source && e.line < |lines| && e.target in Extract(lines[e.line])
    decreases |lines|
  {
    if lines != [] {
      var n := |lines| - 1;
      LinesEventsIff(source, lines[..n], e);
      LineEventsIff(source, n, Extract(lines[n]), e);
      if e.ReferenceFound? && e.line < n {
        assert lines[..n][e.line] == lines[e.line];
      }
    }
  }

  /** A scan operation happens exactly for the classified files scanned. */
  lemma {:induction false} ScannedIff(files: seq<string>, contents: string -> seq<string>, p: string)
    ensures SourceScanned(p) in ScanEvents(files, contents) <==> p in files && IsGodotText(p)
    decreases |files|
  {
    if files != [] {
      var init := files[..|files| - 1];
      var f := files[|files| - 1];
      assert files == init + [f];
      ScannedIff(init, contents, p);
      LinesEventsIff(f, contents(f), SourceScanned(p));
    }
  }

  /** A reference operation happens exactly for each match on each line of
      each classified file scanned. */
  lemma {:induction false} FoundIff(files: seq<string>, contents: string -> seq<string>, s: string, l: nat, t: string)
    ensures ReferenceFound(s, l, t) in ScanEvents(files, contents) <==> Found(files, contents, s, l, t)
    decreases |files|
  {
    if files != [] {
      var init := files[..|files| - 1];
      var f := files[|files| - 1];
      assert files == init + [f];
      FoundIff(init, contents, s, l, t);
      LinesEventsIff(f, contents(f), ReferenceFound(s, l, t));
    }
  }

  /** Extending a trace whose every new reference has an already scanned
      source keeps sources first. */
  lemma {:induction false} SourcesFirstExtend(a: seq<Event>, b: seq<Event>, source: string)
    requires SourcesFirst(a) && SourceScanned(source) in a
    requires forall e :: e in b && e.ReferenceFound? ==> e.source == source
    ensures SourcesFirst(a + b)
    decreases |b|
  {
    if b == [] {
      assert a + b == a;
    } else {
      var init := b[..|b| - 1];
      var last := b[|b| - 1];
      assert b == init + [last];
      assert last in b;
      SourcesFirstExtend(a, init, source);
      SnocFacts([], a + init, last);
      assert a + b == (a + init) + [last];
      assert SourceScanned(source) in a + init;
    }
  }

  /** A file's operations start with its own scan. */
  lemma FileSourcesFirst(a: seq<Event>, source: string, lines: seq<string>)
    requires SourcesFirst(a)
    ensures SourcesFirst(a + FileEvents(source, lines))
  {
    var b := a + [SourceScanned(source)];
    SnocFacts([], a, SourceScanned(source));
    forall e | e in LinesEvents(source, lines) && e.ReferenceFound? ensures e.source == source {
      LinesEventsIff(source, lines, e);
    }
    SourcesFirstExtend(b, LinesEvents(source, lines), source);
    assert a + FileEvents(source, lines) == b + LinesEvents(source, lines);
  }

  lemma {:induction false} ScanSourcesFirst(files: seq<string>, contents: string -> seq<string>)
    ensures SourcesFirst(ScanEvents(files, contents))
    decreases |files|
  {
    if files != [] {
      var init := files[..|files| - 1];
      var f := files[|files| - 1];
      ScanSourcesFirst(init, contents);
      var a := ScanEvents(init, contents);
      FileSourcesFirst(a, f, contents(f));
      assert a + [] == a;
    }
  }

  lemma ScanIsWellFormed(validFiles: seq<string>, contents: string -> seq<string>)
    ensures SourcesFirst(ScanEvents(validFiles, contents))
    ensures ScannedAreValid(validFiles, ScanEvents(validFiles, contents))
  {
    ScanSourcesFirst(validFiles, contents);
    forall p | SourceScanned(p) in ScanEvents(validFiles, contents) ensures p in validFiles {
      ScannedIff(validFiles, contents, p);
    }
  }

  /** The index `build_resources_index(valid_files)` returns. */
  function BuildIndex(validFiles: seq<string>, contents: string -> seq<string>): Index {
    ScanSourcesFirst(validFiles, contents);
    Replay(validFiles, ScanEvents(validFiles, contents))
  }

  lemma ScanEventsSnoc(files: seq<string>, f: string, contents: string -> seq<string>)
    ensures ScanEvents(files + [f], contents) ==
              ScanEvents(files, contents) + (if IsGodotText(f) then FileEvents(f, contents(f)) else [])
  {
    assert (files + [f])[..|files|] == files;
  }

  lemma LinesEventsSnoc(source: string, lines: seq<string>, l: nat)
    requires l < |lines|
    ensures LinesEvents(source, lines[..l + 1]) == LinesEvents(source, lines[..l]) + LineEvents(source, l, Extract(lines[l]))
  {
    assert lines[..l + 1][..l] == lines[..l];
  }

  /** One more line of a file extends its operations by that line's. */
  lemma LinesProgress(scanned: seq<Event>, source: string, lines: seq<string>, l: nat)
    requires l < |lines|
    ensures (scanned + LinesEvents(source, lines[..l])) + LineEvents(source, l, Extract(lines[l])) ==
              scanned + LinesEvents(source, lines[..l + 1])
  {
    LinesEventsSnoc(source, lines, l);
    Associative(scanned, LinesEvents(source, lines[..l]), LineEvents(source, l, Extract(lines[l])));
  }

  lemma LineEventsSnoc(source: string, lineNumber: nat, paths: seq<string>, m: nat)
    requires m < |paths|
    ensures LineEvents(source, lineNumber, paths[..m + 1]) ==
              LineEvents(source, lineNumber, paths[..m]) + [ReferenceFound(source, lineNumber, paths[m])]
  {
    assert paths[..m + 1][..m] == paths[..m];
  }

  // ---------------------------------------------------------------------
  // The build loop

  /** Lines 71-74: create or revalidate the entry of a classified file. */
  method RecordSource(keys: seq<string>, entries: map<string, Entry>, path: string)
    returns (keys': seq<string>, entries': map<string, Entry>)
    ensures Index(keys', entries') == AddSource(Index(keys, entries), path)
  {
    keys', entries' := keys, entries;
    if path !in entries' {
      keys' := keys' + [path];
      entries' := entries'[path := Entry(true, 0, [], [])];
    } else {
      entries' := entries'[path := entries'[path].(valid := true)];
    }
  }

  /** The body of the innermost loop: record one reference found on line
      `lineNumber` of `path`. */
  method RecordReference(validFiles: seq<string>, keys: seq<string>, entries: map<string, Entry>,
                         path: string, lineNumber: nat, resLocalPath: string)
    returns (keys': seq<string>, entries': map<string, Entry>)
    requires path in entries
    ensures Index(keys', entries') == AddReference(validFiles, Index(keys, entries), path, lineNumber, resLocalPath)
  {
    keys', entries' := keys, entries;
    var validRes := resLocalPath in validFiles;
    if resLocalPath !in entries' {
      keys' := keys' + [resLocalPath];
      entries' := entries'[resLocalPath := Entry(validRes, 1, [], [])];
    } else {
      entries' := entries'[resLocalPath := entries'[resLocalPath].(count := entries'[resLocalPath].count + 1)];
    }
    entries' := entries'[path := entries'[path].(references := entries'[path].references + [Reference(lineNumber, resLocalPath, validRes)])];
    entries' := entries'[resLocalPath := entries'[resLocalPath].(citedBy := entries'[resLocalPath].citedBy + [Citation(path, lineNumber)])];
  }

  /** The loop over the matches of one line (lines 81-104). */
  method ScanLine(validFiles: seq<string>, keys: seq<string>, entries: map<string, Entry>,
                  path: string, lineNumber: nat, result: seq<string>, ghost trace: seq<Event>)
    returns (keys': seq<string>, entries': map<string, Entry>)
    requires SourcesFirst(trace) && SourceScanned(path) in trace
    requires Index(keys, entries) == Replay(validFiles, trace)
    ensures SourcesFirst(trace + LineEvents(path, lineNumber, result))
    ensures Index(keys', entries') == Replay(validFiles, trace + LineEvents(path, lineNumber, result))
  {
    keys', entries' := keys, entries;
    ghost var done := trace;
    for m := 0 to |result|
      invariant done == trace + LineEvents(path, lineNumber, result[..m])
      invariant SourcesFirst(done) && SourceScanned(path) in done
      invariant Index(keys', entries') == Replay(validFiles, done)
    {
      var resLocalPath := result[m];
      LineEventsSnoc(path, lineNumber, result, m);
      ghost var e := ReferenceFound(path, lineNumber, resLocalPath);
      SnocFacts(validFiles, done, e);
      ReplaySnoc(validFiles, done, e);
      assert trace + LineEvents(path, lineNumber, result[..m + 1]) == done + [e];
      keys', entries' := RecordReference(validFiles, keys', entries', path, lineNumber, resLocalPath);
      done := done + [e];
    }
    assert result[..|result|] == result;
  }

  /** Lines 76-105: the lines of a classified file `path` whose scan
      operation ends `scanned`, numbered by a running counter from 0, each
      line's matches recorded when there are any. */
  method ScanLines(validFiles: seq<string>, keys: seq<string>, entries: map<string, Entry>,
                   path: string, lines: seq<string>, ghost scanned: seq<Event>)
    returns (keys': seq<string>, entries': map<string, Entry>)
    requires SourcesFirst(scanned) && SourceScanned(path) in scanned
    requires Index(keys, entries) == Replay(validFiles, scanned)
    ensures SourcesFirst(scanned + LinesEvents(path, lines))
    ensures Index(keys', entries') == Replay(validFiles, scanned + LinesEvents(path, lines))
  {
    keys', entries' := keys, entries;
    ghost var done := scanned;
    assert scanned + LinesEvents(path, lines[..0]) == scanned;
    var lineNumber := 0;
    for l := 0 to |lines|
      invariant lineNumber == l
      invariant done == scanned + LinesEvents(path, lines[..l])
      invariant SourcesFirst(done) && SourceScanned(path) in done
      invariant Index(keys', entries') == Replay(validFiles, done)
    {
      var result := Extract(lines[l]);
      ghost var next := done + LineEvents(path, lineNumber, result);
      assert next == scanned + LinesEvents(path, lines[..l + 1]) by {
        LinesProgress(scanned, path, lines, l);
      }
      if |result| > 0 {
        keys', entries' := ScanLine(validFiles, keys', entries', path, lineNumber, result, done);
      } else {
        assert next == done;
      }
      done := next;
      lineNumber := lineNumber + 1;
    }
    assert lines[..|lines|] == lines;
  }

  /** Lines 71-105 for a classified file `path`: its entry, then its lines. */
  method ScanFile(validFiles: seq<string>, keys: seq<string>, entries: map<string, Entry>,
                  path: string, lines: seq<string>, ghost trace: seq<Event>)
    returns (keys': seq<string>, entries': map<string, Entry>)
    requires SourcesFirst(trace) && Index(keys, entries) == Replay(validFiles, trace)
    ensures SourcesFirst(trace + FileEvents(path, lines))
    ensures Index(keys', entries') == Replay(validFiles, trace + FileEvents(path, lines))
  {
    keys', entries' := RecordSource(keys, entries, path);
    ghost var scanned := trace + [SourceScanned(path)];
    assert SourcesFirst(scanned) && Index(keys', entries') == Replay(validFiles, scanned) by {
      ReplaySnoc(validFiles, trace, SourceScanned(path));
    }
    keys', entries' := ScanLines(validFiles, keys', entries', path, lines, scanned);
    assert scanned + LinesEvents(path, lines) == trace + FileEvents(path, lines) by {
      Associative(trace, [SourceScanned(path)], LinesEvents(path, lines));
    }
  }

  /** `build_resources_index(valid_files)`: each classified file in order
      gets its entry (lines 71-74) and its lines scanned (lines 76-105). */
  method BuildResourcesIndex(validFiles: seq<string>, contents: string -> seq<string>) returns (index: Index)
    ensures index == BuildIndex(validFiles, contents)
  {
    var keys: seq<string> := [];
    var entries: map<string, Entry> := map[];
    ghost var trace: seq<Event> := [];
    for f := 0 to |validFiles|
      invariant trace == ScanEvents(validFiles[..f], contents)
      invariant SourcesFirst(trace)
      invariant Index(keys, entries) == Replay(validFiles, trace)
    {
      var path := validFiles[f];
      ghost var extended := ScanEvents(validFiles[..f + 1], contents);
      assert extended == trace + (if IsGodotText(path) then FileEvents(path, contents(path)) else []) by {
        assert validFiles[..f + 1] == validFiles[..f] + [path];
        ScanEventsSnoc(validFiles[..f], path, contents);
      }
      var mimeType := GuessType(path);
      if mimeType.Some? && StartsWith(mimeType.value, GodotPrefix) {
        keys, entries := ScanFile(validFiles, keys, entries, path, contents(path), trace);
      } else {
        assert trace == extended;
      }
      trace := extended;
    }
    assert validFiles[..|validFiles|] == validFiles;
    index := Index(keys, entries);
  }
}
