/** `diagnosis_bad_references` and `diagnosis_orphan_resources`: read-only
    walks over the index in insertion order. Each report is the sequence of
    the lines it prints after its fixed banner. */
module Reports {
  import opened Paths
  import opened ResourceIndex

  /** A printed line of the bad-reference report. */
  datatype ReportLine =
    | ImportWarning(key: string)               // "Warning ! Referencing an import '<key>'"
    | InvalidResource(key: string, count: nat) // "The resource '<key>' is not valid. Referenced <count> time(s) at :"
    | ReferencedAt(source: string, at: nat)    // "\t<source>:<at>"

  const ImportPrefix: string := "./.import"

  /** Every key in the insertion order has an entry, as for a dict's items. */
  predicate Keyed(keys: seq<string>, entries: map<string, Entry>) {
    forall k :: k in keys ==> k in entries
  }

  predicate IsInvalid(e: Entry) {
    !e.valid
  }

  predicate IsUnreferenced(e: Entry) {
    e.count == 0
  }

  // ---------------------------------------------------------------------
  // Selecting keys

  /** The keys whose entry satisfies `keep`, in key order. */
  function KeysWhere(keys: seq<string>, entries: map<string, Entry>, keep: Entry -> bool): seq<string>
    requires Keyed(keys, entries)
    decreases |keys|
  {
    if keys == [] then []
    else
      var k := keys[|keys| - 1];
      KeysWhere(keys[..|keys| - 1], entries, keep) + (if keep(entries[k]) then [k] else [])
  }

  lemma {:induction false} KeysWhereIff(keys: seq<string>, entries: map<string, Entry>, keep: Entry -> bool, k: string)
    requires Keyed(keys, entries)
    ensures k in KeysWhere(keys, entries, keep) <==> k in keys && keep(entries[k])
    decreases |keys|
  {
    if keys != [] {
      var init := keys[..|keys| - 1];
      assert keys == init + [keys[|keys| - 1]];
      KeysWhereIff(init, entries, keep, k);
    }
  }

  /** The selection keeps key order: its `i`-th key sits at position
      `pos[i]` of `keys`, and positions strictly increase. */
  lemma {:induction false} KeysWhereInOrder(keys: seq<string>, entries: map<string, Entry>, keep: Entry -> bool)
    returns (pos: seq<nat>)
    requires Keyed(keys, entries)
    ensures var selected := KeysWhere(keys, entries, keep);
            |pos| == |selected| &&
            (forall i :: 0 <= i < |pos| ==> pos[i] < |keys| && keys[pos[i]] == selected[i]) &&
            (forall i, j :: 0 <= i < j < |pos| ==> pos[i] < pos[j])
    decreases |keys|
  {
    if keys == [] {
      pos := [];
    } else {
      var n := |keys| - 1;
      var init := keys[..n];
      var earlier := KeysWhereInOrder(init, entries, keep);
      forall i | 0 <= i < |earlier| ensures keys[earlier[i]] == init[earlier[i]] {
      }
      pos := if keep(entries[keys[n]]) then earlier + [n] else earlier;
    }
  }

  // ---------------------------------------------------------------------
  // The bad-reference report

  /** The header printed for an invalid entry. */
  function Header(key: string, e: Entry): ReportLine {
    if StartsWith(key, ImportPrefix) then ImportWarning(key) else InvalidResource(key, e.count)
  }

  function CitationLines(citedBy: seq<Citation>): seq<ReportLine> {
    seq(|citedBy|, i requires 0 <= i < |citedBy| => ReferencedAt(citedBy[i].source, citedBy[i].at))
  }

  /** What one entry contributes: nothing when valid, otherwise its header
      and one line per citation. */
  function Block(key: string, e: Entry): seq<ReportLine> {
    if e.valid then [] else [Header(key, e)] + CitationLines(e.citedBy)
  }

  function BadLines(keys: seq<string>, entries: map<string, Entry>): seq<ReportLine>
    requires Keyed(keys, entries)
    decreases |keys|
  {
    if keys == [] then []
    else
      var k := keys[|keys| - 1];
      BadLines(keys[..|keys| - 1], entries) + Block(k, entries[k])
  }

  /** The lines `diagnosis_bad_references(index)` prints after its banner. */
  function BadReferences(idx: Index): seq<ReportLine>
    requires Keyed(idx.keys, idx.entries)
  {
    BadLines(idx.keys, idx.entries)
  }

  /** The report over a concatenation of key sequences is the concatenation
      of the reports. */
  lemma {:induction false} BadLinesAppend(a: seq<string>, b: seq<string>, entries: map<string, Entry>)
    requires Keyed(a, entries) && Keyed(b, entries)
    ensures Keyed(a + b, entries)
    ensures BadLines(a + b, entries) == BadLines(a, entries) + BadLines(b, entries)
    decreases |b|
  {
    if b == [] {
      assert a + b == a;
    } else {
      var n := |b| - 1;
      assert (a + b)[..|a + b| - 1] == a + b[..n];
      BadLinesAppend(a, b[..n], entries);
      Associative(BadLines(a, entries), BadLines(b[..n], entries), Block(b[n], entries[b[n]]));
    }
  }

  lemma BadLinesSingle(k: string, entries: map<string, Entry>)
    requires k in entries
    ensures BadLines([k], entries) == Block(k, entries[k])
  {
    assert [k][..0] == [];
  }

  /** Each key's block sits, contiguously, between the blocks of the keys
      before it and those of the keys after it. */
  lemma BadLinesSplit(keys: seq<string>, entries: map<string, Entry>, j: nat)
    requires Keyed(keys, entries) && j < |keys|
    ensures BadLines(keys, entries) ==
              BadLines(keys[..j], entries) + Block(keys[j], entries[keys[j]]) + BadLines(keys[j + 1..], entries)
  {
    assert keys == (keys[..j] + [keys[j]]) + keys[j + 1..];
    BadLinesAppend(keys[..j], [keys[j]], entries);
    BadLinesAppend(keys[..j] + [keys[j]], keys[j + 1..], entries);
    BadLinesSingle(keys[j], entries);
  }

  /** The keys named by the header lines, in order. */
  function HeaderKeys(lines: seq<ReportLine>): seq<string>
    decreases |lines|
  {
    if lines == [] then []
    else
      var line := lines[|lines| - 1];
      HeaderKeys(lines[..|lines| - 1]) + (if line.ReferencedAt? then [] else [line.key])
  }

  lemma {:induction false} HeaderKeysAppend(a: seq<ReportLine>, b: seq<ReportLine>)
    ensures HeaderKeys(a + b) == HeaderKeys(a) + HeaderKeys(b)
    decreases |b|
  {
    if b == [] {
      assert a + b == a;
    } else {
      var n := |b| - 1;
      assert (a + b)[..|a + b| - 1] == a + b[..n];
      HeaderKeysAppend(a, b[..n]);
      Associative(HeaderKeys(a), HeaderKeys(b[..n]), if b[n].ReferencedAt? then [] else [b[n].key]);
    }
  }

  lemma {:induction false} CitationLinesHaveNoHeader(citedBy: seq<Citation>)
    ensures HeaderKeys(CitationLines(citedBy)) == []
    decreases |citedBy|
  {
    if citedBy != [] {
      var n := |citedBy| - 1;
      var lines := CitationLines(citedBy);
      assert lines[..n] == CitationLines(citedBy[..n]);
      CitationLinesHaveNoHeader(citedBy[..n]);
    }
  }

  lemma BlockHeaderKeys(key: string, e: Entry)
    ensures HeaderKeys(Block(key, e)) == if e.valid then [] else [key]
  {
    if !e.valid {
      HeaderKeysAppend([Header(key, e)], CitationLines(e.citedBy));
      CitationLinesHaveNoHeader(e.citedBy);
      assert [Header(key, e)][..0] == [];
    }
  }

  /** One header per invalid entry, in insertion order. */
  lemma {:induction false} HeadersAreInvalidKeys(keys: seq<string>, entries: map<string, Entry>)
    requires Keyed(keys, entries)
    ensures HeaderKeys(BadLines(keys, entries)) == KeysWhere(keys, entries, IsInvalid)
    decreases |keys|
  {
    if keys != [] {
      var n := |keys| - 1;
      HeadersAreInvalidKeys(keys[..n], entries);
      HeaderKeysAppend(BadLines(keys[..n], entries), Block(keys[n], entries[keys[n]]));
      BlockHeaderKeys(keys[n], entries[keys[n]]);
    }
  }

  /** Where each printed line comes from: a header names an invalid entry,
      in the warning form exactly for import paths and with that entry's
      count otherwise; a citation line is a citation of an invalid entry. */
  predicate LineFromIndex(line: ReportLine, keys: seq<string>, entries: map<string, Entry>)
    requires Keyed(keys, entries)
  {
    match line
    case ImportWarning(k) => k in keys && !entries[k].valid && StartsWith(k, ImportPrefix)
    case InvalidResource(k, c) => k in keys && !entries[k].valid && !StartsWith(k, ImportPrefix) && c == entries[k].count
    case ReferencedAt(s, a) => exists k :: k in keys && !entries[k].valid && Citation(s, a) in entries[k].citedBy
  }

  /** Origins stay valid when more keys follow. */
  lemma LineFromIndexWiden(line: ReportLine, keys: seq<string>, more: seq<string>, entries: map<string, Entry>)
    requires Keyed(keys, entries) && Keyed(more, entries) && forall k :: k in keys ==> k in more
    requires LineFromIndex(line, keys, entries)
    ensures LineFromIndex(line, more, entries)
  {
    if line.ReferencedAt? {
      var h :| h in keys && !entries[h].valid && Citation(line.source, line.at) in entries[h].citedBy;
      assert h in more;
    }
  }

  lemma BlockFromIndex(keys: seq<string>, entries: map<string, Entry>, k: string, m: nat)
    requires Keyed(keys, entries) && k in keys && m < |Block(k, entries[k])|
    ensures LineFromIndex(Block(k, entries[k])[m], keys, entries)
  {
    var e := entries[k];
    if m > 0 {
      var c := e.citedBy[m - 1];
      assert Block(k, e)[m] == ReferencedAt(c.source, c.at);
      assert c in e.citedBy;
    }
  }

  lemma {:induction false} BadLinesFromIndex(keys: seq<string>, entries: map<string, Entry>, i: nat)
    requires Keyed(keys, entries) && i < |BadLines(keys, entries)|
    ensures LineFromIndex(BadLines(keys, entries)[i], keys, entries)
    decreases |keys|
  {
    var n := |keys| - 1;
    var init := keys[..n];
    var front := BadLines(init, entries);
    if i < |front| {
      BadLinesFromIndex(init, entries, i);
      LineFromIndexWiden(front[i], init, keys, entries);
    } else {
      BlockFromIndex(keys, entries, keys[n], i - |front|);
    }
  }

  // ---------------------------------------------------------------------
  // The orphan report

  /** The keys `diagnosis_orphan_resources(index)` prints after its banner
      and its warning: every entry with a zero count, in insertion order. */
  function OrphanResources(idx: Index): seq<string>
    requires Keyed(idx.keys, idx.entries)
  {
    KeysWhere(idx.keys, idx.entries, IsUnreferenced)
  }

  lemma OrphanResourcesIff(idx: Index, k: string)
    requires Keyed(idx.keys, idx.entries)
    ensures k in OrphanResources(idx) <==> k in idx.keys && idx.entries[k].count == 0
  {
    KeysWhereIff(idx.keys, idx.entries, IsUnreferenced, k);
  }

  lemma OrphanResourcesInOrder(idx: Index) returns (pos: seq<nat>)
    requires Keyed(idx.keys, idx.entries)
    ensures var orphans := OrphanResources(idx);
            |pos| == |orphans| &&
            (forall i :: 0 <= i < |pos| ==> pos[i] < |idx.keys| && idx.keys[pos[i]] == orphans[i]) &&
            (forall i, j :: 0 <= i < j < |pos| ==> pos[i] < pos[j])
  {
    pos := KeysWhereInOrder(idx.keys, idx.entries, IsUnreferenced);
  }
}
