/** The cross-reference index of `build_resources_index` and the two
    dictionary operations that build it.

    The Python index is a dict from path to a dict with the fields `valid`,
    `count`, `references` and `by`; here it is a key sequence in insertion
    order (Python dicts keep it, and the reports walk it) next to a map from
    key to a record. The nested loops of the build perform one operation per
    classified file (lines 71-74) and one per reference found (lines 84-104);
    a run of the build is that sequence of operations, an `Event` trace, and
    the index is the fold `Replay` of the trace. `Describes` gives the index
    of a trace in closed form; every property below is derived from it. */
module ResourceIndex {

  /** An outgoing edge as stored in `references`: `{line, path, valid}`. */
  datatype Reference = Reference(line: nat, path: string, valid: bool)

  /** An incoming edge as stored in `by` (`citedBy` here): `{source, at}`. */
  datatype Citation = Citation(source: string, at: nat)

  datatype Entry = Entry(valid: bool, count: nat, references: seq<Reference>, citedBy: seq<Citation>)

  datatype Index = Index(keys: seq<string>, entries: map<string, Entry>)

  const EmptyIndex: Index := Index([], map[])

  /** One operation of the build: a classified file about to be scanned, or
      a reference found on line `line` of `source` pointing at `target`. */
  datatype Event = SourceScanned(path: string) | ReferenceFound(source: string, line: nat, target: string)

  /** The key an operation may insert. */
  function Mention(e: Event): string {
    match e
    case SourceScanned(p) => p
    case ReferenceFound(_, _, t) => t
  }

  predicate NoDuplicates(s: seq<string>) {
    forall i, j :: 0 <= i < j < |s| ==> s[i] != s[j]
  }

  // ---------------------------------------------------------------------
  // The two dictionary operations

  /** Lines 71-74: a classified file gets a fresh valid entry, or, when it is
      already indexed (as an earlier target), its `valid` becomes true. */
  function AddSource(idx: Index, path: string): Index {
    if path !in idx.entries then
      Index(idx.keys + [path], idx.entries[path := Entry(true, 0, [], [])])
    else
      Index(idx.keys, idx.entries[path := idx.entries[path].(valid := true)])
  }

  /** Scanning a path adds it to the index as a valid key; when it was
      already indexed only its `valid` changes, and no other entry changes. */
  lemma AddSourceEffect(idx: Index, path: string)
    ensures var r := AddSource(idx, path);
      && r.entries.Keys == idx.entries.Keys + {path}
      && r.keys == (if path in idx.entries then idx.keys else idx.keys + [path])
      && r.entries[path].valid
      && (path in idx.entries ==>
            r.entries[path].count == idx.entries[path].count &&
            r.entries[path].references == idx.entries[path].references &&
            r.entries[path].citedBy == idx.entries[path].citedBy)
      && (path !in idx.entries ==> r.entries[path] == Entry(true, 0, [], []))
      && (forall k :: k in idx.entries && k != path ==> r.entries[k] == idx.entries[k])
  {
  }

  /** Lines 84-104: the target's entry is created (valid when the target is
      a walked file, count 1) or its count is incremented; then the edge is
      appended to the source's `references` and to the target's `by`. */
  function AddReference(validFiles: seq<string>, idx: Index, source: string, line: nat, target: string): Index
    requires source in idx.entries
  {
    var validRes := target in validFiles;
    var created :=
      if target !in idx.entries then
        Index(idx.keys + [target], idx.entries[target := Entry(validRes, 1, [], [])])
      else
        Index(idx.keys, idx.entries[target := idx.entries[target].(count := idx.entries[target].count + 1)]);
    var src := created.entries[source];
    var withReference := created.entries[source := src.(references := src.references + [Reference(line, target, validRes)])];
    var dst := withReference[target];
    Index(created.keys, withReference[target := dst.(citedBy := dst.citedBy + [Citation(source, line)])])
  }

  /** A reference adds its target to the index with one more citation and
      validity by membership in the walked files, appends the edge to its
      source, and changes no other entry. */
  lemma AddReferenceEffect(validFiles: seq<string>, idx: Index, source: string, line: nat, target: string)
    requires source in idx.entries
    ensures var r := AddReference(validFiles, idx, source, line, target);
      var before := if target in idx.entries then idx.entries[target] else Entry(target in validFiles, 0, [], []);
      var after := r.entries[target];
      && r.entries.Keys == idx.entries.Keys + {target}
      && r.keys == (if target in idx.entries then idx.keys else idx.keys + [target])
      && after.valid == before.valid && after.count == before.count + 1
      && after.citedBy == before.citedBy + [Citation(source, line)]
      && (target != source ==> after.references == before.references)
      && r.entries[source].references == idx.entries[source].references + [Reference(line, target, target in validFiles)]
      && (source != target ==>
            r.entries[source].valid == idx.entries[source].valid &&
            r.entries[source].count == idx.entries[source].count &&
            r.entries[source].citedBy == idx.entries[source].citedBy)
      && (forall k :: k in idx.entries && k != source && k != target ==> r.entries[k] == idx.entries[k])
  {
  }

  function Step(validFiles: seq<string>, idx: Index, e: Event): Index
    requires e.ReferenceFound? ==> e.source in idx.entries
  {
    match e
    case SourceScanned(p) => AddSource(idx, p)
    case ReferenceFound(s, l, t) => AddReference(validFiles, idx, s, l, t)
  }

  /** Every reference event comes after the scan event of its source (the
      build adds the source's entry before reading its lines). */
  predicate SourcesFirst(events: seq<Event>)
    decreases |events|
  {
    if events == [] then true
    else
      var last := events[|events| - 1];
      var init := events[..|events| - 1];
      SourcesFirst(init) && (last.ReferenceFound? ==> SourceScanned(last.source) in init)
  }

  /** The index after a trace of operations, starting from the empty dict. */
  function Replay(validFiles: seq<string>, events: seq<Event>): (idx: Index)
    requires SourcesFirst(events)
    ensures forall p :: SourceScanned(p) in events ==> p in idx.entries
    decreases |events|
  {
    if events == [] then EmptyIndex
    else
      var init := events[..|events| - 1];
      var last := events[|events| - 1];
      assert forall p :: SourceScanned(p) in events ==> SourceScanned(p) in init || SourceScanned(p) == last;
      Step(validFiles, Replay(validFiles, init), last)
  }

  /** Replaying one more operation applies it to the index so far. */
  lemma ReplaySnoc(validFiles: seq<string>, events: seq<Event>, e: Event)
    requires SourcesFirst(events + [e])
    ensures SourcesFirst(events) && (e.ReferenceFound? ==> e.source in Replay(validFiles, events).entries)
    ensures Replay(validFiles, events + [e]) == Step(validFiles, Replay(validFiles, events), e)
  {
    SnocFacts(validFiles, events, e);
  }

  // ---------------------------------------------------------------------
  // The index of a trace in closed form

  /** The keys in order of first mention. */
  function FirstMentions(events: seq<Event>): seq<string>
    decreases |events|
  {
    if events == [] then []
    else
      var ks := FirstMentions(events[..|events| - 1]);
      var m := Mention(events[|events| - 1]);
      if m in ks then ks else ks + [m]
  }

  /** The references found in `s`, in the order found. */
  function Outgoing(validFiles: seq<string>, s: string, events: seq<Event>): seq<Reference>
    decreases |events|
  {
    if events == [] then []
    else
      var e := events[|events| - 1];
      Outgoing(validFiles, s, events[..|events| - 1]) +
        (if e.ReferenceFound? && e.source == s then [Reference(e.line, e.target, e.target in validFiles)] else [])
  }

  /** The places that reference `t`, in the order found. */
  function Incoming(t: string, events: seq<Event>): seq<Citation>
    decreases |events|
  {
    if events == [] then []
    else
      var e := events[|events| - 1];
      Incoming(t, events[..|events| - 1]) +
        (if e.ReferenceFound? && e.target == t then [Citation(e.source, e.line)] else [])
  }

  /** `idx` is the index of `events`: one key per mentioned path, in order of
      first mention; `valid` is membership in the walked files; `count` is
      the number of references to the path; `references` and `citedBy` (the `by` key) list the
      edges out of and into it, in the order they were found. */
  ghost predicate Describes(validFiles: seq<string>, events: seq<Event>, idx: Index) {
    && idx.keys == FirstMentions(events)
    && (forall k :: k in idx.entries <==> k in FirstMentions(events))
    && (forall k :: k in idx.entries ==>
          idx.entries[k] == Entry(k in validFiles, |Incoming(k, events)|, Outgoing(validFiles, k, events), Incoming(k, events)))
  }

  /** Every scanned source is among the walked files. */
  ghost predicate ScannedAreValid(validFiles: seq<string>, events: seq<Event>) {
    forall p :: SourceScanned(p) in events ==> p in validFiles
  }

  lemma SnocFacts(validFiles: seq<string>, events: seq<Event>, e: Event)
    ensures (events + [e])[..|events|] == events
    ensures FirstMentions(events + [e]) ==
              if Mention(e) in FirstMentions(events) then FirstMentions(events) else FirstMentions(events) + [Mention(e)]
    ensures forall s :: Outgoing(validFiles, s, events + [e]) == Outgoing(validFiles, s, events) +
              (if e.ReferenceFound? && e.source == s then [Reference(e.line, e.target, e.target in validFiles)] else [])
    ensures forall t :: Incoming(t, events + [e]) == Incoming(t, events) +
              (if e.ReferenceFound? && e.target == t then [Citation(e.source, e.line)] else [])
    ensures SourcesFirst(events + [e]) <==> SourcesFirst(events) && (e.ReferenceFound? ==> SourceScanned(e.source) in events)
  {
    assert (events + [e])[..|events|] == events;
  }

  /** Every mentioned path is a key. */
  lemma {:induction false} MentionedIsKey(events: seq<Event>, i: nat)
    requires i < |events|
    ensures Mention(events[i]) in FirstMentions(events)
    decreases |events|
  {
    var init := events[..|events| - 1];
    if i < |init| {
      assert init[i] == events[i];
      MentionedIsKey(init, i);
    }
  }

  /** Keys are mentioned paths. */
  lemma {:induction false} KeyIsMentioned(events: seq<Event>, k: string) returns (i: nat)
    requires k in FirstMentions(events)
    ensures i < |events| && Mention(events[i]) == k
    decreases |events|
  {
    var init := events[..|events| - 1];
    SnocFacts([], init, events[|events| - 1]);
    assert events == init + [events[|events| - 1]];
    if k in FirstMentions(init) {
      i := KeyIsMentioned(init, k);
      assert init[i] == events[i];
    } else {
      i := |events| - 1;
    }
  }

  lemma {:induction false} FirstMentionsHasNoDuplicates(events: seq<Event>)
    ensures NoDuplicates(FirstMentions(events))
    decreases |events|
  {
    if events != [] {
      var init := events[..|events| - 1];
      FirstMentionsHasNoDuplicates(init);
      SnocFacts([], init, events[|events| - 1]);
      assert events == init + [events[|events| - 1]];
    }
  }

  /** A reference event's source was scanned before. */
  lemma {:induction false} SourceOfReferenceScanned(events: seq<Event>, s: string, l: nat, t: string)
    requires SourcesFirst(events) && ReferenceFound(s, l, t) in events
    ensures SourceScanned(s) in events
    decreases |events|
  {
    var init := events[..|events| - 1];
    var last := events[|events| - 1];
    assert events == init + [last];
    if ReferenceFound(s, l, t) in init {
      SourceOfReferenceScanned(init, s, l, t);
    }
  }

  /** An edge is listed in `Outgoing` exactly when it was found. */
  lemma {:induction false} OutgoingIff(validFiles: seq<string>, s: string, events: seq<Event>, r: Reference)
    ensures r in Outgoing(validFiles, s, events) <==>
              ReferenceFound(s, r.line, r.path) in events && r.valid == (r.path in validFiles)
    decreases |events|
  {
    if events != [] {
      var init := events[..|events| - 1];
      var last := events[|events| - 1];
      assert events == init + [last];
      SnocFacts(validFiles, init, last);
      OutgoingIff(validFiles, s, init, r);
    }
  }

  /** A citation is listed in `Incoming` exactly when its edge was found. */
  lemma {:induction false} IncomingIff(t: string, events: seq<Event>, c: Citation)
    ensures c in Incoming(t, events) <==> ReferenceFound(c.source, c.at, t) in events
    decreases |events|
  {
    if events != [] {
      var init := events[..|events| - 1];
      var last := events[|events| - 1];
      assert events == init + [last];
      SnocFacts([], init, last);
      IncomingIff(t, init, c);
    }
  }

  /** A path that is not a key has no edges. */
  lemma Unmentioned(validFiles: seq<string>, events: seq<Event>, k: string)
    requires SourcesFirst(events) && k !in FirstMentions(events)
    ensures Incoming(k, events) == [] && Outgoing(validFiles, k, events) == []
  {
    if Incoming(k, events) != [] {
      var c := Incoming(k, events)[0];
      IncomingIff(k, events, c);
      var i :| 0 <= i < |events| && events[i] == ReferenceFound(c.source, c.at, k);
      MentionedIsKey(events, i);
    }
    if Outgoing(validFiles, k, events) != [] {
      var r := Outgoing(validFiles, k, events)[0];
      OutgoingIff(validFiles, k, events, r);
      SourceOfReferenceScanned(events, k, r.line, r.path);
      var i :| 0 <= i < |events| && events[i] == SourceScanned(k);
      MentionedIsKey(events, i);
    }
  }

  lemma DescribesAfterSource(validFiles: seq<string>, events: seq<Event>, idx: Index, p: string)
    requires SourcesFirst(events) && Describes(validFiles, events, idx) && p in validFiles
    ensures Describes(validFiles, events + [SourceScanned(p)], AddSource(idx, p))
  {
    var e := SourceScanned(p);
    var r := AddSource(idx, p);
    AddSourceEffect(idx, p);
    SnocFacts(validFiles, events, e);
    assert r.keys == FirstMentions(events + [e]);
    if p !in idx.entries {
      Unmentioned(validFiles, events, p);
    }
  }

  /** After a reference, each key's entry is the closed form of the longer
      trace. */
  lemma EntryAfterReference(validFiles: seq<string>, events: seq<Event>, idx: Index, s: string, l: nat, t: string, k: string)
    requires SourcesFirst(events) && Describes(validFiles, events, idx) && s in idx.entries
    requires k in idx.entries || k == t
    ensures var r := AddReference(validFiles, idx, s, l, t);
            var longer := events + [ReferenceFound(s, l, t)];
            k in r.entries &&
            r.entries[k] == Entry(k in validFiles, |Incoming(k, longer)|, Outgoing(validFiles, k, longer), Incoming(k, longer))
  {
    var longer := events + [ReferenceFound(s, l, t)];
    assert longer[..|events|] == events;
    assert Outgoing(validFiles, k, longer) == Outgoing(validFiles, k, events) +
      (if k == s then [Reference(l, t, t in validFiles)] else []);
    assert Incoming(k, longer) == Incoming(k, events) + (if k == t then [Citation(s, l)] else []);
    AddReferenceEffect(validFiles, idx, s, l, t);
    if k !in idx.entries {
      Unmentioned(validFiles, events, k);
    }
  }

  lemma DescribesAfterReference(validFiles: seq<string>, events: seq<Event>, idx: Index, s: string, l: nat, t: string)
    requires SourcesFirst(events) && Describes(validFiles, events, idx) && s in idx.entries
    ensures Describes(validFiles, events + [ReferenceFound(s, l, t)], AddReference(validFiles, idx, s, l, t))
  {
    var e := ReferenceFound(s, l, t);
    var r := AddReference(validFiles, idx, s, l, t);
    AddReferenceEffect(validFiles, idx, s, l, t);
    SnocFacts(validFiles, events, e);
    assert r.keys == FirstMentions(events + [e]);
    forall k | k in r.entries
      ensures r.entries[k] == Entry(k in validFiles, |Incoming(k, events + [e])|, Outgoing(validFiles, k, events + [e]), Incoming(k, events + [e]))
    {
      EntryAfterReference(validFiles, events, idx, s, l, t, k);
    }
  }

  /** The fold of any well-formed trace is the closed form. */
  lemma {:induction false} ReplayDescribed(validFiles: seq<string>, events: seq<Event>)
    requires SourcesFirst(events) && ScannedAreValid(validFiles, events)
    ensures Describes(validFiles, events, Replay(validFiles, events))
    decreases |events|
  {
    if events != [] {
      var init := events[..|events| - 1];
      var last := events[|events| - 1];
      assert events == init + [last];
      SnocFacts(validFiles, init, last);
      assert ScannedAreValid(validFiles, init);
      ReplayDescribed(validFiles, init);
      var idx := Replay(validFiles, init);
      match last
      case SourceScanned(p) => DescribesAfterSource(validFiles, init, idx, p);
      case ReferenceFound(s, l, t) => DescribesAfterReference(validFiles, init, idx, s, l, t);
    }
  }

  // ---------------------------------------------------------------------
  // Properties of every index built from a well-formed trace

  /** Each reference stored in `source` points at an indexed path, carries
      that path's validity, and is listed in the target's `citedBy`. */
  ghost predicate ReferencesMirrored(idx: Index) {
    forall s, r :: s in idx.entries && r in idx.entries[s].references ==>
      r.path in idx.entries && r.valid == idx.entries[r.path].valid &&
      Citation(s, r.line) in idx.entries[r.path].citedBy
  }

  /** Each citation stored in `target` comes from an indexed path whose
      `references` list the edge back. */
  ghost predicate CitationsMirrored(idx: Index) {
    forall t, c :: t in idx.entries && c in idx.entries[t].citedBy ==>
      c.source in idx.entries &&
      Reference(c.at, t, idx.entries[t].valid) in idx.entries[c.source].references
  }

  lemma DescribedIsMirrored(validFiles: seq<string>, events: seq<Event>, idx: Index)
    requires SourcesFirst(events) && Describes(validFiles, events, idx)
    ensures ReferencesMirrored(idx) && CitationsMirrored(idx)
  {
    forall s, r | s in idx.entries && r in idx.entries[s].references
      ensures r.path in idx.entries && r.valid == idx.entries[r.path].valid
      ensures Citation(s, r.line) in idx.entries[r.path].citedBy
    {
      OutgoingIff(validFiles, s, events, r);
      var i :| 0 <= i < |events| && events[i] == ReferenceFound(s, r.line, r.path);
      MentionedIsKey(events, i);
      IncomingIff(r.path, events, Citation(s, r.line));
    }
    forall t, c | t in idx.entries && c in idx.entries[t].citedBy
      ensures c.source in idx.entries
      ensures Reference(c.at, t, idx.entries[t].valid) in idx.entries[c.source].references
    {
      IncomingIff(t, events, c);
      SourceOfReferenceScanned(events, c.source, c.at, t);
      var i :| 0 <= i < |events| && events[i] == SourceScanned(c.source);
      MentionedIsKey(events, i);
      OutgoingIff(validFiles, c.source, events, Reference(c.at, t, t in validFiles));
    }
  }

  /** An indexed path nobody references was scanned as a source. */
  lemma UnreferencedWasScanned(validFiles: seq<string>, events: seq<Event>, idx: Index, k: string)
    requires Describes(validFiles, events, idx)
    requires k in idx.entries && idx.entries[k].count == 0
    ensures SourceScanned(k) in events
  {
    var i := KeyIsMentioned(events, k);
    if events[i].ReferenceFound? {
      IncomingIff(k, events, Citation(events[i].source, events[i].line));
      assert false;
    }
  }

  /** An indexed path outside the walked files was never scanned and is
      referenced at least once. */
  lemma InvalidIsReferenced(validFiles: seq<string>, events: seq<Event>, idx: Index, k: string)
    requires ScannedAreValid(validFiles, events) && Describes(validFiles, events, idx)
    requires k in idx.entries && !idx.entries[k].valid
    ensures SourceScanned(k) !in events && idx.entries[k].count >= 1
  {
    if idx.entries[k].count == 0 {
      UnreferencedWasScanned(validFiles, events, idx, k);
    }
  }

  /** The edge lists of a trace only grow as the trace goes on. */
  lemma {:induction false} EdgesGrow(validFiles: seq<string>, k: string, events: seq<Event>, more: seq<Event>)
    ensures Incoming(k, events) <= Incoming(k, events + more)
    ensures Outgoing(validFiles, k, events) <= Outgoing(validFiles, k, events + more)
    ensures FirstMentions(events) <= FirstMentions(events + more)
    decreases |more|
  {
    if more == [] {
      assert events + more == events;
    } else {
      var n := |more| - 1;
      SnocFacts(validFiles, events + more[..n], more[n]);
      assert events + more == (events + more[..n]) + [more[n]];
      EdgesGrow(validFiles, k, events, more[..n]);
    }
  }

  /** Later operations never remove a key, change a validity or lower a
      count, and only append to the edge lists. */
  lemma ReplayGrows(validFiles: seq<string>, events: seq<Event>, more: seq<Event>, k: string)
    requires SourcesFirst(events + more) && ScannedAreValid(validFiles, events + more)
    requires SourcesFirst(events) && k in Replay(validFiles, events).entries
    ensures k in Replay(validFiles, events + more).entries
    ensures var before := Replay(validFiles, events).entries[k];
            var after := Replay(validFiles, events + more).entries[k];
            after.valid == before.valid && before.count <= after.count &&
            before.references <= after.references && before.citedBy <= after.citedBy
  {
    assert ScannedAreValid(validFiles, events);
    ReplayDescribed(validFiles, events);
    ReplayDescribed(validFiles, events + more);
    EdgesGrow(validFiles, k, events, more);
  }

  // ---------------------------------------------------------------------
  // Sums over the index

  /** The number of references found in a trace. */
  function ReferenceCount(events: seq<Event>): nat
    decreases |events|
  {
    if events == [] then 0
    else ReferenceCount(events[..|events| - 1]) + (if events[|events| - 1].ReferenceFound? then 1 else 0)
  }

  /** Which per-entry quantity a sum adds up. */
  datatype Tally = Counts | ReferenceLists | CitationLists

  function Size(e: Entry, t: Tally): nat {
    match t
    case Counts => e.count
    case ReferenceLists => |e.references|
    case CitationLists => |e.citedBy|
  }

  /** The sum of one quantity over the indexed entries of `keys`. */
  function TotalOver(keys: seq<string>, entries: map<string, Entry>, t: Tally): nat
    decreases |keys|
  {
    if keys == [] then 0
    else
      var k := keys[|keys| - 1];
      TotalOver(keys[..|keys| - 1], entries, t) + (if k in entries then Size(entries[k], t) else 0)
  }

  function Total(idx: Index, t: Tally): nat {
    TotalOver(idx.keys, idx.entries, t)
  }

  /** Sum of `|Outgoing|` (when `outgoing`) or of `|Incoming|` over `keys`. */
  function EdgeTotal(validFiles: seq<string>, keys: seq<string>, events: seq<Event>, outgoing: bool): nat
    decreases |keys|
  {
    if keys == [] then 0
    else
      var k := keys[|keys| - 1];
      EdgeTotal(validFiles, keys[..|keys| - 1], events, outgoing) +
        (if outgoing then |Outgoing(validFiles, k, events)| else |Incoming(k, events)|)
  }

  /** One more operation adds one edge to the sum when its endpoint is
      among the (distinct) keys summed over. */
  lemma {:induction false} EdgeTotalSnoc(validFiles: seq<string>, keys: seq<string>, events: seq<Event>, e: Event, outgoing: bool)
    requires NoDuplicates(keys)
    ensures EdgeTotal(validFiles, keys, events + [e], outgoing) ==
              EdgeTotal(validFiles, keys, events, outgoing) +
              (if e.ReferenceFound? && (if outgoing then e.source else e.target) in keys then 1 else 0)
    decreases |keys|
  {
    if keys != [] {
      var init := keys[..|keys| - 1];
      var k := keys[|keys| - 1];
      assert keys == init + [k];
      EdgeTotalSnoc(validFiles, init, events, e, outgoing);
      SnocFacts(validFiles, events, e);
    }
  }

  lemma EdgeTotalNewKey(validFiles: seq<string>, keys: seq<string>, k: string, events: seq<Event>, outgoing: bool)
    ensures EdgeTotal(validFiles, keys + [k], events, outgoing) ==
              EdgeTotal(validFiles, keys, events, outgoing) +
              (if outgoing then |Outgoing(validFiles, k, events)| else |Incoming(k, events)|)
  {
    assert (keys + [k])[..|keys|] == keys;
  }

  /** A scan adds no edge to either total. */
  lemma EdgeTotalAfterSource(validFiles: seq<string>, events: seq<Event>, p: string, outgoing: bool)
    requires SourcesFirst(events)
    ensures EdgeTotal(validFiles, FirstMentions(events + [SourceScanned(p)]), events + [SourceScanned(p)], outgoing) ==
              EdgeTotal(validFiles, FirstMentions(events), events, outgoing)
  {
    var ks := FirstMentions(events);
    var e := SourceScanned(p);
    SnocFacts(validFiles, events, e);
    FirstMentionsHasNoDuplicates(events);
    EdgeTotalSnoc(validFiles, ks, events, e, outgoing);
    if p !in ks {
      Unmentioned(validFiles, events, p);
      EdgeTotalNewKey(validFiles, ks, p, events + [e], outgoing);
      assert |Outgoing(validFiles, p, events + [e])| == 0;
      assert |Incoming(p, events + [e])| == 0;
    } else {
      assert FirstMentions(events + [e]) == ks;
    }
  }

  /** A reference adds one edge to each total. */
  lemma EdgeTotalAfterReference(validFiles: seq<string>, events: seq<Event>, s: string, l: nat, t: string, outgoing: bool)
    requires SourcesFirst(events) && s in FirstMentions(events)
    ensures EdgeTotal(validFiles, FirstMentions(events + [ReferenceFound(s, l, t)]), events + [ReferenceFound(s, l, t)], outgoing) ==
              EdgeTotal(validFiles, FirstMentions(events), events, outgoing) + 1
  {
    var ks := FirstMentions(events);
    var e := ReferenceFound(s, l, t);
    SnocFacts(validFiles, events, e);
    FirstMentionsHasNoDuplicates(events);
    EdgeTotalSnoc(validFiles, ks, events, e, outgoing);
    if t !in ks {
      Unmentioned(validFiles, events, t);
      EdgeTotalNewKey(validFiles, ks, t, events + [e], outgoing);
      assert |Outgoing(validFiles, t, events + [e])| == 0;
      assert |Incoming(t, events + [e])| == 1;
    }
  }

  /** One more operation adds one to the edge total over the keys exactly
      when it is a reference. */
  lemma EdgeTotalStep(validFiles: seq<string>, events: seq<Event>, e: Event, outgoing: bool)
    requires SourcesFirst(events + [e])
    ensures EdgeTotal(validFiles, FirstMentions(events + [e]), events + [e], outgoing) ==
              EdgeTotal(validFiles, FirstMentions(events), events, outgoing) + (if e.ReferenceFound? then 1 else 0)
  {
    SnocFacts(validFiles, events, e);
    match e
    case SourceScanned(p) =>
      EdgeTotalAfterSource(validFiles, events, p, outgoing);
    case ReferenceFound(s, l, t) =>
      var i :| 0 <= i < |events| && events[i] == SourceScanned(s);
      MentionedIsKey(events, i);
      EdgeTotalAfterReference(validFiles, events, s, l, t, outgoing);
  }

  /** Summed over all keys, each side of the edges counts every reference
      found exactly once. */
  lemma {:induction false} EdgeTotalIsReferenceCount(validFiles: seq<string>, events: seq<Event>, outgoing: bool)
    requires SourcesFirst(events)
    ensures EdgeTotal(validFiles, FirstMentions(events), events, outgoing) == ReferenceCount(events)
    decreases |events|
  {
    if events != [] {
      var init := events[..|events| - 1];
      var e := events[|events| - 1];
      assert events == init + [e];
      SnocFacts(validFiles, init, e);
      EdgeTotalIsReferenceCount(validFiles, init, outgoing);
      EdgeTotalStep(validFiles, init, e, outgoing);
    }
  }

  lemma {:induction false} TotalOverDescribed(validFiles: seq<string>, events: seq<Event>, idx: Index, keys: seq<string>)
    requires Describes(validFiles, events, idx)
    requires forall k :: k in keys ==> k in idx.entries
    ensures TotalOver(keys, idx.entries, Counts) == EdgeTotal(validFiles, keys, events, false)
    ensures TotalOver(keys, idx.entries, CitationLists) == EdgeTotal(validFiles, keys, events, false)
    ensures TotalOver(keys, idx.entries, ReferenceLists) == EdgeTotal(validFiles, keys, events, true)
    decreases |keys|
  {
    if keys != [] {
      TotalOverDescribed(validFiles, events, idx, keys[..|keys| - 1]);
    }
  }

  /** The sum of the counts, the sum of the `citedBy` lengths and the sum of
      the `references` lengths all equal the number of references found. */
  lemma TotalsAreReferenceCount(validFiles: seq<string>, events: seq<Event>)
    requires SourcesFirst(events) && ScannedAreValid(validFiles, events)
    ensures var idx := Replay(validFiles, events);
            Total(idx, Counts) == ReferenceCount(events) &&
            Total(idx, CitationLists) == ReferenceCount(events) &&
            Total(idx, ReferenceLists) == ReferenceCount(events)
  {
    var idx := Replay(validFiles, events);
    ReplayDescribed(validFiles, events);
    TotalOverDescribed(validFiles, events, idx, idx.keys);
    EdgeTotalIsReferenceCount(validFiles, events, false);
    EdgeTotalIsReferenceCount(validFiles, events, true);
  }
}
