# Resource indexer of GodotVault, in Dafny

`toolbox/resource_indexer.py` lists the files of a Godot project. It
scans the Godot text files among them (scripts, scenes, resources,
shaders, configuration, the project file) for `res://` locators. It then
builds an index with one entry per path: `valid` (is the path one of the
walked files), `count` (how often it is referenced), `references` (the
edges it holds, each with its line and the target's validity) and `by`
(the places that reference it). Two reports are printed from the index:
bad references (entries that are not valid, with every place that cites
them) and orphan resources (entries with a zero count).

This project models that core and proves what the index and the reports
contain.

- `wrappers.dfy`, module `Wrappers`: `Option`.
- `paths.dfy`, module `Paths`: prefix and suffix tests, `os.path.join` of
  two components, and the extension `os.path.splitext` returns (from the
  last dot of the base name, unless only dots precede it).
- `walk.dfy`, module `Walk`: `retrieve_valid_filepaths`.
  - The `os.walk(".")` listing is an input: one `(root, dirNames,
    fileNames)` entry per visited directory, in visiting order.
  - The method keeps the loops and the `append` of the source.
  - It is proved to return `KeptPaths(walk)`. The lemmas about `KeptPaths`
    say which files are dropped and that the rest keep walk order.
- `classifier.dfy`, module `Classifier`: the nine `mimetypes.add_type`
  registrations as a fixed table, and the `startswith("text/godot")` test
  that decides whether a file is scanned.
- `extractor.dfy`, module `Extractor`: `findall` of the pattern
  `"*?(res:/)(/[^"%]+\.[a-zA-Z0-9]+)"` on one line, as a scanner.
  - A match uses the `res://` at some position.
  - The path group runs up to the first `"` or `%`, which must be a `"`.
  - The group must read `/X.Y`, with `X` non-empty and `Y` made of ASCII
    letters and digits.
  - The scan resumes after the closing quote.
  - The scanner is proved equal, in both directions, to a declarative
    reading of the pattern (`IsLocator`). Every extracted path is proved
    to have the pattern's shape.
- `index.dfy`, module `ResourceIndex`: the index as a value.
  - An `Index` holds an insertion-ordered key sequence and a map to
    `Entry(valid, count, references, citedBy)`. `citedBy` is the `by`
    key; `by` is a Dafny keyword.
  - The two dictionary updates of the build are `AddSource` (lines 71-74)
    and `AddReference` (lines 84-104).
  - A build is a trace of such operations, and `Replay` folds a trace.
  - `ReplayDescribed` proves the fold equal to a closed form. There is one
    key per mentioned path, in order of first mention. `valid` is
    membership in the walked files. `count` and `citedBy` come from the
    references into the path, `references` from the references out of it.
  - Mirroring, monotonicity and the three sums follow from the closed form.
- `builder.dfy`, module `Indexer`: `build_resources_index` as methods.
  - The methods follow the source's loops over files, lines and matches,
    with the `line_number` counter and the `if len(result) > 0` test.
  - Each loop carries a ghost trace of the operations done so far, and the
    invariant that the local `keys`/`entries` are the fold of that trace.
  - `BuildResourcesIndex` is proved to return `BuildIndex(validFiles,
    contents)`. That is the fold of the operations the walked files
    produce.
- `properties.dfy`, module `BuildProperties`: what the built index holds,
  stated in terms of the walked files and their lines. This covers:
  - keys and validity;
  - `count == |by|`;
  - `by` and `references` as exactly the matches found;
  - mirroring and sums;
  - the order of line numbers.
- `reports.dfy`, module `Reports`: the two reports as functions.
  - The bad-reference report is a sequence of `ReportLine`s: a header
    per invalid entry, then one line per citation.
  - The orphan report is the sequence of keys printed.
- `pipeline.dfy`, module `Pipeline`: `main`'s walk, build and reports
  (lines 181-185), and what the reports say about the walked files.

File contents are a parameter, `contents: string -> seq<string>`, giving
each path's lines in the order the file iterator yields them.

The model follows the code in these cases:
- Only files directly in `./.import` and files whose extension is
  `.import` are dropped. Dot-free files under `./.git`, hidden files such
  as `./.hidden.png`, and files of subdirectories of `./.import` whose
  extension is not `.import` are kept (`GitMetadataKept`,
  `HiddenFileKept`, `ImportSubdirectoryKept`). A file named just
  `.import` has no extension, so it is kept everywhere except directly in
  `./.import` (`BareImportNameKept`).
- The orphan report is always produced.
- A walked file that is not a Godot text file (an image, say) gets an
  entry only when something references it. Such a file is never listed
  as an orphan (`UnclassifiedNeverOrphan`, `ImageNotClassified`).

## Model

| member | source | states |
|---|---|---|
| Walk.IsExcluded | toolbox/resource_indexer.py:33-35 | a file is skipped when its root is exactly `./.import` or the extension of `join(root, name)` is `.import` |
| Walk.KeptNames | toolbox/resource_indexer.py:32-37 | the joined paths of one directory's file names that are not skipped, in listing order |
| Walk.KeptPaths | toolbox/resource_indexer.py:31-37 | the kept paths of every visited directory, directory after directory in walk order |
| Walk.RetrieveValidFilepaths | toolbox/resource_indexer.py:21-38 | returns `KeptPaths(walk)`: each walked file joined to its root, directory after directory, minus the excluded ones |
| Walk.KeptPathsSound | toolbox/resource_indexer.py:31-37 | every kept path is `join(root, name)` for a listed file of a visited directory that is not excluded |
| Walk.KeptPathsComplete | toolbox/resource_indexer.py:31-37 | every listed file of every visited directory that is not excluded is kept |
| Walk.KeptPathsAppend | toolbox/resource_indexer.py:31-37 | the result for a walk is the result for its first directories followed by the result for the rest (walk order kept) |
| Walk.KeptNamesAppend | toolbox/resource_indexer.py:32-37 | within a directory, the result for a listing is the result for its first names followed by that for the rest |
| Walk.KeptSingleFile | toolbox/resource_indexer.py:32-37 | a file on its own is dropped exactly when its root is `./.import` or its extension is `.import`, and kept as `join(root, name)` otherwise |
| Walk.KeptNamesSound | toolbox/resource_indexer.py:32-37 | a kept path of one directory comes from one of its listed names that is not excluded |
| Walk.KeptNamesComplete | toolbox/resource_indexer.py:32-37 | a listed name of a directory that is not excluded is kept |
| Walk.GitMetadataKept | toolbox/resource_indexer.py:33-35 | a dot-free file in any directory under `./.git` (such as `./.git/HEAD`) is not excluded: the root is compared only with `./.import` and the name has no extension |
| Walk.HiddenFileKept | toolbox/resource_indexer.py:33-35 | the hidden file `./.hidden.png` is not excluded: its extension is `.png` and its root is not `./.import` |
| Walk.ImportSubdirectoryKept | toolbox/resource_indexer.py:33-35 | a file `base.ext` in a subdirectory of `./.import` is not excluded when `.ext` is not `.import`: the root test matches `./.import` alone |
| Walk.ImportSidecarDropped | toolbox/resource_indexer.py:33-35 | a sidecar `base.import` (base with a non-dot character) is excluded in every directory the walk yields |
| Walk.BareImportNameKept | toolbox/resource_indexer.py:33-35 | a file named just `.import` has no extension, so it is excluded exactly when its root is `./.import` |
| Paths.Join | toolbox/resource_indexer.py:33 | POSIX `os.path.join` of two components: an absolute name replaces the root, and a `/` is inserted unless the root is empty or ends in one |
| Paths.Extension | toolbox/resource_indexer.py:34 | the extension `os.path.splitext` returns: from the last dot of the base name to the end, or empty when only dots precede that dot or there is none |
| Paths.ExtensionShape | toolbox/resource_indexer.py:34 | an extension is empty or a dot-led suffix of the path with no other dot and no separator |
| Paths.ExtensionOfFile | toolbox/resource_indexer.py:34 | the extension of `dir/base.ext` is `.ext` when the base name has a character other than a dot |
| Paths.HiddenNameHasNoExtension | toolbox/resource_indexer.py:34 | a base name of dots followed by one dot-free word (`.import`) has no extension |
| Paths.DotFreeNameHasNoExtension | toolbox/resource_indexer.py:34 | a base name without a dot has no extension |
| Paths.LastIndexOf | toolbox/resource_indexer.py:34 | the result is the position of the last occurrence of the character, or -1 when it does not occur |
| Classifier.KindOf | toolbox/resource_indexer.py:57-65 | the nine registered extensions, each mapped to its kind; any other extension has none |
| Classifier.GuessType | toolbox/resource_indexer.py:69 | the registered type of the path's extension, or none |
| Classifier.IsGodotText | toolbox/resource_indexer.py:69-70 | a path is scanned when its guessed type exists and starts with `text/godot` |
| Classifier.MimeType | toolbox/resource_indexer.py:57-65 | every registered type starts with `text/godot` |
| Classifier.ClassifiedExactlyByTable | toolbox/resource_indexer.py:56-70 | a file is scanned exactly when its extension is one of the nine registered ones |
| Pipeline.ImageNotClassified | toolbox/resource_indexer.py:69-70 | `./c.png` is not scanned |
| Extractor.LocatorAt | toolbox/resource_indexer.py:66 | the match of the pattern using the `res://` at `q`: the index of its closing quote, or none |
| Extractor.ExtractFrom | toolbox/resource_indexer.py:79-83 | findall from a position on: at a match, `./` and its path, then the rest after its closing quote; otherwise the next position |
| Extractor.Extract | toolbox/resource_indexer.py:79-83 | the local paths `.` + group 2 of every match on a line, left to right |
| Extractor.NextStop | toolbox/resource_indexer.py:66 | the result is the first `"` or `%` at or after the start, or the end of the line |
| Extractor.AlnumRunStart | toolbox/resource_indexer.py:66 | the result starts the longest run of ASCII letters and digits ending at the given position |
| Extractor.LocatorAtIff | toolbox/resource_indexer.py:66 | the scanner accepts a match at `q` closing at `j` exactly when `line[q..j+1]` is `res://`, a path body and `"` |
| Extractor.ExtractedFromLocator | toolbox/resource_indexer.py:79-83 | each extracted path is `.` followed by the path group of a match of the pattern in the line |
| Extractor.ExtractedPathShape | toolbox/resource_indexer.py:66-83 | each extracted path starts with `./`, holds no `"` or `%`, and ends in a dot and one or more ASCII letters or digits |
| Extractor.ExtractFromLeftmost | toolbox/resource_indexer.py:79 | the scan reports the leftmost match first and resumes right after its closing quote, so matches do not overlap |
| Extractor.ExtractFromNone | toolbox/resource_indexer.py:79 | a stretch of the line without a match yields nothing |
| Extractor.ExtractNonEmptyIff | toolbox/resource_indexer.py:79-80 | a line yields a reference exactly when the pattern occurs in it |
| ResourceIndex.AddSource | toolbox/resource_indexer.py:71-74 | a fresh entry `(valid, 0, [], [])` appended to the keys, or `valid` set on an existing entry |
| ResourceIndex.AddReference | toolbox/resource_indexer.py:84-104 | the target created (valid by membership, count 1) or its count raised, then the edge appended to the source's `references` and the citation to the target's `by` |
| ResourceIndex.Step | toolbox/resource_indexer.py:71-104 | one dictionary update: `AddSource` for a scan, `AddReference` for a match |
| ResourceIndex.AddSourceEffect | toolbox/resource_indexer.py:71-74 | scanning a path makes it a valid key; when it was already indexed only `valid` changes, and no other entry changes |
| ResourceIndex.AddReferenceEffect | toolbox/resource_indexer.py:84-104 | a reference makes its target a key (valid by membership, created with count 1); it raises the count by one and appends the citation and the edge; no other entry changes |
| ResourceIndex.Replay | toolbox/resource_indexer.py:67-105 | after a well-formed trace, every scanned source has an entry |
| ResourceIndex.ReplayDescribed | toolbox/resource_indexer.py:67-105 | the index after a trace has the keys in order of first mention; valid = in walked files; count = number of references in; `by` = references in; `references` = references out |
| ResourceIndex.OutgoingIff | toolbox/resource_indexer.py:95-101 | an edge is listed out of `s` exactly when that reference was found in `s`, with validity by membership |
| ResourceIndex.IncomingIff | toolbox/resource_indexer.py:102-104 | a citation is listed in `by` of `t` exactly when that reference to `t` was found |
| ResourceIndex.FirstMentionsHasNoDuplicates | toolbox/resource_indexer.py:71-91 | no key is inserted twice |
| ResourceIndex.MentionedIsKey | toolbox/resource_indexer.py:71-91 | every scanned or referenced path is a key |
| ResourceIndex.KeyIsMentioned | toolbox/resource_indexer.py:71-91 | every key was scanned or referenced |
| ResourceIndex.DescribedIsMirrored | toolbox/resource_indexer.py:94-104 | each edge has its citation in an existing target entry with the same validity, and each citation has its edge in an existing source entry |
| ResourceIndex.UnreferencedWasScanned | toolbox/resource_indexer.py:70-93 | an entry with a zero count was created by scanning its file |
| ResourceIndex.InvalidIsReferenced | toolbox/resource_indexer.py:84-93 | an invalid entry was never scanned and has a count of at least 1 |
| ResourceIndex.ReplayGrows | toolbox/resource_indexer.py:71-104 | later operations keep every key and its validity, never lower a count, and only append to the edge lists |
| ResourceIndex.EdgeTotalIsReferenceCount | toolbox/resource_indexer.py:85-104 | summed over the keys, the edges in and the edges out each number the references found |
| ResourceIndex.TotalsAreReferenceCount | toolbox/resource_indexer.py:85-104 | the sum of the counts, of the `by` lengths and of the `references` lengths all equal the number of references found |
| Indexer.LineEvents | toolbox/resource_indexer.py:81-104 | one reference operation per match of a line, in match order, all with that line's number |
| Indexer.LinesEvents | toolbox/resource_indexer.py:77-105 | the reference operations of a file's lines, numbered from 0 |
| Indexer.ScanEvents | toolbox/resource_indexer.py:68-105 | for each walked file in order with a Godot text type, its scan followed by its lines' references |
| Indexer.BuildIndex | toolbox/resource_indexer.py:67-106 | the index left by folding `ScanEvents` over the empty index |
| Indexer.RecordSource | toolbox/resource_indexer.py:71-74 | the in-place create-or-revalidate leaves the index `AddSource` gives |
| Indexer.RecordReference | toolbox/resource_indexer.py:83-104 | the in-place create-or-increment and the two appends leave the index `AddReference` gives |
| Indexer.ScanLine | toolbox/resource_indexer.py:81-104 | after the loop over a line's matches, the index is the fold of the operations so far plus one reference per match |
| Indexer.ScanLines | toolbox/resource_indexer.py:76-105 | after the loop over a file's lines, counted from 0, the index is the fold of the operations so far plus those of every line |
| Indexer.ScanFile | toolbox/resource_indexer.py:71-105 | after a classified file, the index is the fold of the operations so far plus its scan and its references |
| Indexer.BuildResourcesIndex | toolbox/resource_indexer.py:41-106 | returns `BuildIndex(validFiles, contents)`, the fold of the operations of all classified walked files in walk order |
| Indexer.ScannedIff | toolbox/resource_indexer.py:68-70 | a path's entry is created or revalidated exactly when it is a walked file with a Godot text type |
| Indexer.FoundIff | toolbox/resource_indexer.py:68-83 | a reference is recorded exactly for each match on each line of each classified walked file |
| Indexer.LinesEventsIff | toolbox/resource_indexer.py:77-105 | the references of a file are exactly its matches, each with the 0-based number of its line |
| Indexer.ScanIsWellFormed | toolbox/resource_indexer.py:68-74 | every reference is recorded after its source's entry exists, and only walked files are scanned |
| BuildProperties.BuildKeys | toolbox/resource_indexer.py:71-91 | the keys are exactly the classified walked files and the referenced paths |
| BuildProperties.BuildKeysOrdered | toolbox/resource_indexer.py:67-91 | the insertion order lists every entry exactly once |
| BuildProperties.BuildValidity | toolbox/resource_indexer.py:71-87 | every entry's `valid` is true exactly when its path is a walked file |
| BuildProperties.CountIsCitations | toolbox/resource_indexer.py:85-104 | every entry's `count` equals the length of its `by` |
| BuildProperties.CitedByIff | toolbox/resource_indexer.py:102-104 | `by` of `t` holds `(source, at)` exactly when line `at` of the classified walked file `source` references `t` |
| BuildProperties.ReferencesIff | toolbox/resource_indexer.py:95-101 | `references` of `s` holds `(line, path, valid)` exactly when line `line` of `s` references `path`, with `valid` = path is walked |
| BuildProperties.BuildMirrored | toolbox/resource_indexer.py:84-104 | outgoing and incoming edges mirror each other, and a reference's target exists with the reference's validity |
| BuildProperties.UnreferencedIsClassifiedFile | toolbox/resource_indexer.py:70-72 | an entry with a zero count is a walked file with a Godot text type |
| BuildProperties.InvalidEntryIsReferenced | toolbox/resource_indexer.py:84-93 | an invalid entry is referenced at least once |
| BuildProperties.ReferencedPathShape | toolbox/resource_indexer.py:77-83 | every stored target has the pattern's shape and a line number below the file's line count |
| BuildProperties.BuildTotals | toolbox/resource_indexer.py:85-104 | the sum of the counts, of the `by` lengths and of the `references` lengths each equal the number of matches in all classified walked files |
| BuildProperties.ReferenceCountAppend | toolbox/resource_indexer.py:85-104 | the references in two traces add up |
| BuildProperties.LinesOutgoingOrdered | toolbox/resource_indexer.py:77-105 | within one file, references are stored with line numbers from 0 that never decrease and stay below the line count |
| BuildProperties.ScanOutgoing | toolbox/resource_indexer.py:68-105 | when each file is walked once, a source's references are those of its own scan, and none for other paths |
| BuildProperties.BuildReferencesInLineOrder | toolbox/resource_indexer.py:77-105 | along each entry's `references`, line numbers are 0-based, never decrease and stay below the line count (files walked once) |
| Reports.KeysWhereIff | toolbox/resource_indexer.py:134-135 | a key is selected exactly when it is in the index and its entry passes the test |
| Reports.KeysWhereInOrder | toolbox/resource_indexer.py:134-135 | the selected keys appear in insertion order, at strictly increasing positions |
| Reports.Header | toolbox/resource_indexer.py:136-141 | the warning line for keys starting with `./.import`, otherwise the not-valid line with the entry's count |
| Reports.Block | toolbox/resource_indexer.py:135-143 | nothing for a valid entry; otherwise its header and one line per citation in `by` order |
| Reports.BadLines | toolbox/resource_indexer.py:134-143 | the blocks of the given keys, in key order |
| Reports.BadReferences | toolbox/resource_indexer.py:133-143 | the lines printed after the banner: the blocks of all keys in insertion order |
| Reports.BadLinesAppend | toolbox/resource_indexer.py:134-143 | the report over two key runs is the report over the first followed by that over the second |
| Reports.BadLinesSplit | toolbox/resource_indexer.py:134-143 | each key's block (nothing if valid, else header and one line per citation in `by` order) sits between the blocks of the keys before and after it |
| Reports.HeadersAreInvalidKeys | toolbox/resource_indexer.py:134-141 | the headers name exactly the invalid entries, one each, in insertion order |
| Reports.BadLinesFromIndex | toolbox/resource_indexer.py:134-143 | each printed line is a header of an invalid entry (the warning form exactly for `./.import` paths, otherwise with the entry's count) or a citation of an invalid entry |
| Reports.OrphanResources | toolbox/resource_indexer.py:163-165 | the keys with a zero count, in insertion order |
| Reports.OrphanResourcesIff | toolbox/resource_indexer.py:163-165 | a key is printed exactly when its count is zero |
| Reports.OrphanResourcesInOrder | toolbox/resource_indexer.py:163-165 | the printed keys appear in insertion order |
| Pipeline.RunIndexer | toolbox/resource_indexer.py:181-185 | computes the build over the kept walk and both reports of that index |
| Pipeline.BuildOrphansIff | toolbox/resource_indexer.py:163-165 | after a build, a path is an orphan exactly when it is a classified walked file that no scanned line references |
| Pipeline.BuildBadHeadersIff | toolbox/resource_indexer.py:134-141 | after a build, a path gets a header exactly when it is referenced but not a walked file |
| Pipeline.BuildBadCitationLines | toolbox/resource_indexer.py:142-143 | after a build, every citation line names a scanned line that references a path outside the walked files |
| Pipeline.UnclassifiedNeverOrphan | toolbox/resource_indexer.py:163-165 | a file that is not a Godot text file is never listed as an orphan |

## Left out

- `os.walk` and file reading, with UTF-8 decoding and its errors (lines 31,
  76). They are inputs: the walk listing and a function from path to lines.
  `KeptPaths` does not prove that a listing names each file once.
- The `mimetypes` registry (lines 56-65, 69). It is replaced by the fixed
  table of nine extensions, compared case-sensitively.
  - `guess_type`'s case-insensitive and compression-suffix fallbacks are
    not modelled.
  - Neither are the types `mimetypes.init()` reads from the host's MIME
    files. The model requires that none of them starts with `text/godot`
    and that none overrides the nine registrations.
- The regular expression engine (line 66). The one pattern is matched by a
  scanner proved equal to a declarative reading of it.
- `os.path.join` and `os.path.splitext` are modelled for two components
  and the POSIX separator only.
- `save_index` and `json.dumps` (lines 109-121): the index as a file.
- The text of `print`: the banners, the orphan caveat (lines 133, 155-162)
  and the formatting of each line. Report lines are values of
  `ReportLine`.
- `main`'s `docopt` parsing and its output-path message (lines 174-179).
- BuildProperties.BuildReferencesInLineOrder: requires each walked file to be
  listed once. A file listed twice would be scanned twice, and its
  references would restart at line 0.
- BuildProperties.ScanOutgoing: requires each walked file to be listed once,
  for the same reason.
