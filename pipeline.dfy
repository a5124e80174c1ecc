/** `main`'s sequence (lines 181-185): walk, build, then the two reports;
    and what the reports say about the walked files. */
module Pipeline {
  import opened Paths
  import opened Classifier
  import opened ResourceIndex
  import opened Walk
  import opened Indexer
  import opened BuildProperties
  import opened Reports

  /** The built index lists its entries once each, so both reports apply. */
  lemma BuildIsKeyed(validFiles: seq<string>, contents: string -> seq<string>)
    ensures var idx := BuildIndex(validFiles, contents);
            Keyed(idx.keys, idx.entries)
  {
    BuildKeysOrdered(validFiles, contents);
  }

  /** The three steps of `main` that compute something: the walk filter, the
      build and the two reports (the index file is not written here). */
  method RunIndexer(walk: seq<WalkEntry>, contents: string -> seq<string>)
    returns (index: Index, badReferences: seq<ReportLine>, orphans: seq<string>)
    ensures index == BuildIndex(KeptPaths(walk), contents)
    ensures Keyed(index.keys, index.entries)
    ensures badReferences == BadReferences(index)
    ensures orphans == OrphanResources(index)
  {
    var validFiles := RetrieveValidFilepaths(walk);
    index := BuildResourcesIndex(validFiles, contents);
    BuildIsKeyed(validFiles, contents);
    badReferences := BadReferences(index);
    orphans := OrphanResources(index);
  }

  /** A path is reported as an orphan exactly when it is a classified walked
      file that no scanned line references. */
  lemma BuildOrphansIff(validFiles: seq<string>, contents: string -> seq<string>, k: string)
    ensures var idx := BuildIndex(validFiles, contents);
            Keyed(idx.keys, idx.entries) &&
            (k in OrphanResources(idx) <==>
               k in validFiles && IsGodotText(k) && forall s, l :: !Found(validFiles, contents, s, l, k))
  {
    var idx := BuildIndex(validFiles, contents);
    BuildKeysOrdered(validFiles, contents);
    OrphanResourcesIff(idx, k);
    BuildKeys(validFiles, contents, k);
    if k in idx.entries {
      CountIsCitations(validFiles, contents, k);
      if idx.entries[k].count == 0 {
        UnreferencedIsClassifiedFile(validFiles, contents, k);
        forall s, l ensures !Found(validFiles, contents, s, l, k) {
          CitedByIff(validFiles, contents, k, Citation(s, l));
        }
      } else {
        var c := idx.entries[k].citedBy[0];
        CitedByIff(validFiles, contents, k, c);
      }
    }
  }

  /** A path gets a header in the bad-reference report exactly when it is
      referenced somewhere but is not a walked file. */
  lemma BuildBadHeadersIff(validFiles: seq<string>, contents: string -> seq<string>, k: string)
    ensures var idx := BuildIndex(validFiles, contents);
            Keyed(idx.keys, idx.entries) &&
            (k in HeaderKeys(BadReferences(idx)) <==>
               k !in validFiles && exists s, l :: Found(validFiles, contents, s, l, k))
  {
    var idx := BuildIndex(validFiles, contents);
    BuildKeysOrdered(validFiles, contents);
    HeadersAreInvalidKeys(idx.keys, idx.entries);
    KeysWhereIff(idx.keys, idx.entries, IsInvalid, k);
    BuildKeys(validFiles, contents, k);
    if k in idx.entries {
      BuildValidity(validFiles, contents, k);
    }
  }

  /** Every citation line of the bad-reference report names a scanned line
      that references a path outside the walked files. */
  lemma BuildBadCitationLines(validFiles: seq<string>, contents: string -> seq<string>)
    ensures var idx := BuildIndex(validFiles, contents);
            Keyed(idx.keys, idx.entries) &&
            var lines := BadReferences(idx);
            forall i :: 0 <= i < |lines| && lines[i].ReferencedAt? ==>
              exists t :: t !in validFiles && Found(validFiles, contents, lines[i].source, lines[i].at, t)
  {
    var idx := BuildIndex(validFiles, contents);
    BuildKeysOrdered(validFiles, contents);
    var lines := BadReferences(idx);
    forall i | 0 <= i < |lines| && lines[i].ReferencedAt?
      ensures exists t :: t !in validFiles && Found(validFiles, contents, lines[i].source, lines[i].at, t)
    {
      var c := Citation(lines[i].source, lines[i].at);
      BadLinesFromIndex(idx.keys, idx.entries, i);
      var t :| t in idx.keys && !idx.entries[t].valid && c in idx.entries[t].citedBy;
      BuildValidity(validFiles, contents, t);
      CitedByIff(validFiles, contents, t, c);
    }
  }

  /** A walked file that is not a classified text file is never reported as
      an orphan, referenced or not: it gets an entry only when referenced. */
  lemma UnclassifiedNeverOrphan(validFiles: seq<string>, contents: string -> seq<string>, k: string)
    requires !IsGodotText(k)
    ensures var idx := BuildIndex(validFiles, contents);
            Keyed(idx.keys, idx.entries) && k !in OrphanResources(idx)
  {
    BuildOrphansIff(validFiles, contents, k);
  }

  /** An image such as `./c.png` is not a classified file. */
  lemma ImageNotClassified()
    ensures !IsGodotText("./c.png")
  {
    assert "./c.png" == "." + "/" + "c" + ".png";
    assert "c"[0] != '.';
    ExtensionOfFile(".", "c", ".png");
  }
}
