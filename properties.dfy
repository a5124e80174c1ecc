/** What `build_resources_index(valid_files)` returns, stated in terms of the
    walked files and their lines rather than of the build's operations. */
module BuildProperties {
  import opened Paths
  import opened Classifier
  import opened Extractor
  import opened ResourceIndex
  import opened Indexer

  /** The build's operations are well formed and its result is their closed form. */
  lemma BuildDescribed(validFiles: seq<string>, contents: string -> seq<string>)
    ensures var events := ScanEvents(validFiles, contents);
            SourcesFirst(events) && ScannedAreValid(validFiles, events) &&
            Describes(validFiles, events, BuildIndex(validFiles, contents))
  {
    ScanIsWellFormed(validFiles, contents);
    ReplayDescribed(validFiles, ScanEvents(validFiles, contents));
  }

  // ---------------------------------------------------------------------
  // Keys and their entries

  /** The keys are exactly the scanned files and the referenced paths. */
  lemma BuildKeys(validFiles: seq<string>, contents: string -> seq<string>, k: string)
    ensures k in BuildIndex(validFiles, contents).entries <==>
              (k in validFiles && IsGodotText(k)) || exists s, l :: Found(validFiles, contents, s, l, k)
  {
    var events := ScanEvents(validFiles, contents);
    BuildDescribed(validFiles, contents);
    if k in BuildIndex(validFiles, contents).entries {
      var i := KeyIsMentioned(events, k);
      assert events[i] in events;
      match events[i]
      case SourceScanned(p) => ScannedIff(validFiles, contents, k);
      case ReferenceFound(s, l, t) => FoundIff(validFiles, contents, s, l, k);
    }
    if k in validFiles && IsGodotText(k) {
      ScannedIff(validFiles, contents, k);
      var i :| 0 <= i < |events| && events[i] == SourceScanned(k);
      MentionedIsKey(events, i);
    }
    if exists s, l :: Found(validFiles, contents, s, l, k) {
      var s, l :| Found(validFiles, contents, s, l, k);
      FoundIff(validFiles, contents, s, l, k);
      var i :| 0 <= i < |events| && events[i] == ReferenceFound(s, l, k);
      MentionedIsKey(events, i);
    }
  }

  /** The key sequence lists every entry exactly once; the reports walk it. */
  lemma BuildKeysOrdered(validFiles: seq<string>, contents: string -> seq<string>)
    ensures var idx := BuildIndex(validFiles, contents);
            NoDuplicates(idx.keys) && forall k :: k in idx.keys <==> k in idx.entries
  {
    BuildDescribed(validFiles, contents);
    FirstMentionsHasNoDuplicates(ScanEvents(validFiles, contents));
  }

  /** `valid` says whether the path is one of the walked files, for sources
      (set true) and targets (`res_local_path in valid_files`) alike. */
  lemma BuildValidity(validFiles: seq<string>, contents: string -> seq<string>, k: string)
    requires k in BuildIndex(validFiles, contents).entries
    ensures BuildIndex(validFiles, contents).entries[k].valid <==> k in validFiles
  {
    BuildDescribed(validFiles, contents);
  }

  /** `count` is the length of `by`. */
  lemma CountIsCitations(validFiles: seq<string>, contents: string -> seq<string>, k: string)
    requires k in BuildIndex(validFiles, contents).entries
    ensures var e := BuildIndex(validFiles, contents).entries[k];
            e.count == |e.citedBy|
  {
    BuildDescribed(validFiles, contents);
  }

  /** `by` of `t` lists exactly the places where `t` is referenced. */
  lemma CitedByIff(validFiles: seq<string>, contents: string -> seq<string>, t: string, c: Citation)
    requires t in BuildIndex(validFiles, contents).entries
    ensures c in BuildIndex(validFiles, contents).entries[t].citedBy <==> Found(validFiles, contents, c.source, c.at, t)
  {
    BuildDescribed(validFiles, contents);
    IncomingIff(t, ScanEvents(validFiles, contents), c);
    FoundIff(validFiles, contents, c.source, c.at, t);
  }

  /** `references` of `s` lists exactly the matches found in `s`, each with
      the validity of its target. */
  lemma ReferencesIff(validFiles: seq<string>, contents: string -> seq<string>, s: string, r: Reference)
    requires s in BuildIndex(validFiles, contents).entries
    ensures r in BuildIndex(validFiles, contents).entries[s].references <==>
              Found(validFiles, contents, s, r.line, r.path) && (r.valid <==> r.path in validFiles)
  {
    BuildDescribed(validFiles, contents);
    OutgoingIff(validFiles, s, ScanEvents(validFiles, contents), r);
    FoundIff(validFiles, contents, s, r.line, r.path);
  }

  /** Every stored reference is mirrored by a citation in an existing target
      entry with the same validity, and the other way round. */
  lemma BuildMirrored(validFiles: seq<string>, contents: string -> seq<string>)
    ensures ReferencesMirrored(BuildIndex(validFiles, contents))
    ensures CitationsMirrored(BuildIndex(validFiles, contents))
  {
    BuildDescribed(validFiles, contents);
    DescribedIsMirrored(validFiles, ScanEvents(validFiles, contents), BuildIndex(validFiles, contents));
  }

  /** An entry nobody references is a scanned (walked, classified) file. */
  lemma UnreferencedIsClassifiedFile(validFiles: seq<string>, contents: string -> seq<string>, k: string)
    requires k in BuildIndex(validFiles, contents).entries
    requires BuildIndex(validFiles, contents).entries[k].count == 0
    ensures k in validFiles && IsGodotText(k)
  {
    BuildDescribed(validFiles, contents);
    UnreferencedWasScanned(validFiles, ScanEvents(validFiles, contents), BuildIndex(validFiles, contents), k);
    ScannedIff(validFiles, contents, k);
  }

  /** An invalid entry is referenced at least once. */
  lemma InvalidEntryIsReferenced(validFiles: seq<string>, contents: string -> seq<string>, k: string)
    requires k in BuildIndex(validFiles, contents).entries
    requires !BuildIndex(validFiles, contents).entries[k].valid
    ensures BuildIndex(validFiles, contents).entries[k].count >= 1
  {
    BuildDescribed(validFiles, contents);
    InvalidIsReferenced(validFiles, ScanEvents(validFiles, contents), BuildIndex(validFiles, contents), k);
  }

  /** Every target path has the shape the pattern admits. */
  lemma ReferencedPathShape(validFiles: seq<string>, contents: string -> seq<string>, s: string, r: Reference)
    requires s in BuildIndex(validFiles, contents).entries
    requires r in BuildIndex(validFiles, contents).entries[s].references
    ensures IsLocalPath(r.path) && r.line < |contents(s)|
  {
    ReferencesIff(validFiles, contents, s, r);
    ExtractedPathShape(contents(s)[r.line], r.path);
  }

  // ---------------------------------------------------------------------
  // Sums

  /** The number of matches on the given lines. */
  function LineMatchCount(lines: seq<string>): nat
    decreases |lines|
  {
    if lines == [] then 0
    else LineMatchCount(lines[..|lines| - 1]) + |Extract(lines[|lines| - 1])|
  }

  /** The number of matches across all classified files among `files`. */
  function MatchCount(files: seq<string>, contents: string -> seq<string>): nat
    decreases |files|
  {
    if files == [] then 0
    else
      var f := files[|files| - 1];
      MatchCount(files[..|files| - 1], contents) + (if IsGodotText(f) then LineMatchCount(contents(f)) else 0)
  }

  lemma {:induction false} ReferenceCountAppend(a: seq<Event>, b: seq<Event>)
    ensures ReferenceCount(a + b) == ReferenceCount(a) + ReferenceCount(b)
    decreases |b|
  {
    if b == [] {
      assert a + b == a;
    } else {
      var n := |b| - 1;
      assert (a + b)[..|a + b| - 1] == a + b[..n];
      ReferenceCountAppend(a, b[..n]);
    }
  }

  lemma {:induction false} LineReferenceCount(source: string, lineNumber: nat, paths: seq<string>)
    ensures ReferenceCount(LineEvents(source, lineNumber, paths)) == |paths|
    decreases |paths|
  {
    if paths != [] {
      var init := LineEvents(source, lineNumber, paths[..|paths| - 1]);
      LineReferenceCount(source, lineNumber, paths[..|paths| - 1]);
      assert (init + [ReferenceFound(source, lineNumber, paths[|paths| - 1])])[..|init|] == init;
    }
  }

  lemma {:induction false} LinesReferenceCount(source: string, lines: seq<string>)
    ensures ReferenceCount(LinesEvents(source, lines)) == LineMatchCount(lines)
    decreases |lines|
  {
    if lines != [] {
      var n := |lines| - 1;
      LinesReferenceCount(source, lines[..n]);
      LineReferenceCount(source, n, Extract(lines[n]));
      ReferenceCountAppend(LinesEvents(source, lines[..n]), LineEvents(source, n, Extract(lines[n])));
    }
  }

  lemma {:induction false} ScanReferenceCount(files: seq<string>, contents: string -> seq<string>)
    ensures ReferenceCount(ScanEvents(files, contents)) == MatchCount(files, contents)
    decreases |files|
  {
    if files != [] {
      var init := files[..|files| - 1];
      var f := files[|files| - 1];
      ScanReferenceCount(init, contents);
      var tail := if IsGodotText(f) then FileEvents(f, contents(f)) else [];
      ReferenceCountAppend(ScanEvents(init, contents), tail);
      if IsGodotText(f) {
        LinesReferenceCount(f, contents(f));
        ReferenceCountAppend([SourceScanned(f)], LinesEvents(f, contents(f)));
        assert [SourceScanned(f)][..0] == [];
      }
    }
  }

  /** Summed over the index, the counts, the `by` lengths and the
      `references` lengths each equal the number of matches in all scanned
      files. */
  lemma BuildTotals(validFiles: seq<string>, contents: string -> seq<string>)
    ensures var idx := BuildIndex(validFiles, contents);
            var matches := MatchCount(validFiles, contents);
            Total(idx, Counts) == matches && Total(idx, CitationLists) == matches &&
            Total(idx, ReferenceLists) == matches
  {
    var events := ScanEvents(validFiles, contents);
    ScanIsWellFormed(validFiles, contents);
    TotalsAreReferenceCount(validFiles, events);
    ScanReferenceCount(validFiles, contents);
  }

  // ---------------------------------------------------------------------
  // Order of a source's references

  predicate LinesNondecreasing(refs: seq<Reference>) {
    forall i, j :: 0 <= i < j < |refs| ==> refs[i].line <= refs[j].line
  }

  lemma {:induction false} OutgoingAppend(validFiles: seq<string>, s: string, a: seq<Event>, b: seq<Event>)
    ensures Outgoing(validFiles, s, a + b) == Outgoing(validFiles, s, a) + Outgoing(validFiles, s, b)
    decreases |b|
  {
    if b == [] {
      assert a + b == a;
    } else {
      var n := |b| - 1;
      assert (a + b)[..|a + b| - 1] == a + b[..n];
      OutgoingAppend(validFiles, s, a, b[..n]);
      var tail := if b[n].ReferenceFound? && b[n].source == s then [Reference(b[n].line, b[n].target, b[n].target in validFiles)] else [];
      Associative(Outgoing(validFiles, s, a), Outgoing(validFiles, s, b[..n]), tail);
    }
  }

  /** The references one line contributes all carry that line's number. */
  lemma LineOutgoing(validFiles: seq<string>, s: string, source: string, lineNumber: nat, paths: seq<string>, r: Reference)
    requires r in Outgoing(validFiles, s, LineEvents(source, lineNumber, paths))
    ensures r.line == lineNumber && s == source
  {
    var events := LineEvents(source, lineNumber, paths);
    OutgoingIff(validFiles, s, events, r);
    LineEventsIff(source, lineNumber, paths, ReferenceFound(s, r.line, r.path));
  }

  /** Appending references of line `n` after references of earlier lines
      keeps line numbers in order. */
  lemma AppendLineNondecreasing(front: seq<Reference>, back: seq<Reference>, n: nat)
    requires LinesNondecreasing(front) && forall r :: r in front ==> r.line < n
    requires forall r :: r in back ==> r.line == n
    ensures LinesNondecreasing(front + back)
  {
    var refs := front + back;
    forall i, j | 0 <= i < j < |refs| ensures refs[i].line <= refs[j].line {
      if j < |front| {
        assert refs[i] == front[i] && refs[j] == front[j];
      } else if i < |front| {
        assert refs[i] in front && refs[j] in back;
      } else {
        assert refs[i] in back && refs[j] in back;
      }
    }
  }

  /** Within one file, references are stored line by line, numbered from 0. */
  lemma {:induction false} LinesOutgoingOrdered(validFiles: seq<string>, s: string, lines: seq<string>)
    ensures var refs := Outgoing(validFiles, s, LinesEvents(s, lines));
            LinesNondecreasing(refs) && forall r :: r in refs ==> r.line < |lines|
    decreases |lines|
  {
    if lines != [] {
      var n := |lines| - 1;
      var front := Outgoing(validFiles, s, LinesEvents(s, lines[..n]));
      var back := Outgoing(validFiles, s, LineEvents(s, n, Extract(lines[n])));
      LinesOutgoingOrdered(validFiles, s, lines[..n]);
      OutgoingAppend(validFiles, s, LinesEvents(s, lines[..n]), LineEvents(s, n, Extract(lines[n])));
      forall r | r in back ensures r.line == n {
        LineOutgoing(validFiles, s, s, n, Extract(lines[n]), r);
      }
      AppendLineNondecreasing(front, back, n);
    }
  }

  /** A file's operations hold no reference found in another file. */
  lemma OtherFileOutgoing(validFiles: seq<string>, s: string, f: string, lines: seq<string>)
    requires f != s
    ensures Outgoing(validFiles, s, FileEvents(f, lines)) == []
  {
    var events := FileEvents(f, lines);
    if Outgoing(validFiles, s, events) != [] {
      var r := Outgoing(validFiles, s, events)[0];
      OutgoingIff(validFiles, s, events, r);
      var i :| 0 <= i < |events| && events[i] == ReferenceFound(s, r.line, r.path);
      assert i > 0 && events[i] == LinesEvents(f, lines)[i - 1];
      LinesEventsIff(f, lines, events[i]);
    }
  }

  lemma OwnFileOutgoing(validFiles: seq<string>, s: string, lines: seq<string>)
    ensures Outgoing(validFiles, s, FileEvents(s, lines)) == Outgoing(validFiles, s, LinesEvents(s, lines))
  {
    OutgoingAppend(validFiles, s, [SourceScanned(s)], LinesEvents(s, lines));
    assert [SourceScanned(s)][..0] == [];
  }

  /** When each file is walked once, a source's references are those of its
      own scan. */
  lemma {:induction false} ScanOutgoing(validFiles: seq<string>, files: seq<string>, contents: string -> seq<string>, s: string)
    requires NoDuplicates(files)
    ensures Outgoing(validFiles, s, ScanEvents(files, contents)) ==
              if s in files && IsGodotText(s) then Outgoing(validFiles, s, LinesEvents(s, contents(s))) else []
    decreases |files|
  {
    if files != [] {
      var init := files[..|files| - 1];
      var f := files[|files| - 1];
      assert files == init + [f];
      assert NoDuplicates(init) by {
        forall i, j | 0 <= i < j < |init| ensures init[i] != init[j] {
          assert init[i] == files[i] && init[j] == files[j];
        }
      }
      ScanOutgoing(validFiles, init, contents, s);
      var tail := if IsGodotText(f) then FileEvents(f, contents(f)) else [];
      OutgoingAppend(validFiles, s, ScanEvents(init, contents), tail);
      if IsGodotText(f) {
        if f == s {
          OwnFileOutgoing(validFiles, s, contents(s));
          assert s !in init;
        } else {
          OtherFileOutgoing(validFiles, s, f, contents(f));
        }
      } else {
        assert Outgoing(validFiles, s, []) == [];
      }
    }
  }

  /** Line numbers are 0-based and never decrease along a source's
      `references`, when the walk lists each file once. */
  lemma BuildReferencesInLineOrder(validFiles: seq<string>, contents: string -> seq<string>, s: string)
    requires NoDuplicates(validFiles)
    requires s in BuildIndex(validFiles, contents).entries
    ensures var refs := BuildIndex(validFiles, contents).entries[s].references;
            LinesNondecreasing(refs) && forall r :: r in refs ==> r.line < |contents(s)|
  {
    BuildDescribed(validFiles, contents);
    ScanOutgoing(validFiles, validFiles, contents, s);
    LinesOutgoingOrdered(validFiles, s, contents(s));
  }
}
