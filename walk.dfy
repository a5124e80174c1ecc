/** `retrieve_valid_filepaths`: the files of a directory walk that the index
    treats as present. The walk itself (`os.walk(".")`) is an input: one
    entry per visited directory, in visiting order. */
module Walk {
  import opened Paths

  datatype WalkEntry = WalkEntry(root: string, dirNames: seq<string>, fileNames: seq<string>)

  /** Import metadata: the top-level `./.import` directory (not its
      subdirectories) and every file whose extension is `.import`. */
  predicate IsExcluded(root: string, name: string) {
    root == "./.import" || Extension(Join(root, name)) == ".import"
  }

  /** The kept paths of one directory's files, in listing order. */
  function KeptNames(root: string, names: seq<string>): seq<string>
    decreases |names|
  {
    if names == [] then []
    else
      var name := names[|names| - 1];
      KeptNames(root, names[..|names| - 1]) + (if IsExcluded(root, name) then [] else [Join(root, name)])
  }

  /** The kept paths of a whole walk, directory after directory. */
  function KeptPaths(walk: seq<WalkEntry>): seq<string>
    decreases |walk|
  {
    if walk == [] then []
    else
      var last := walk[|walk| - 1];
      KeptPaths(walk[..|walk| - 1]) + KeptNames(last.root, last.fileNames)
  }

  method RetrieveValidFilepaths(walk: seq<WalkEntry>) returns (validFiles: seq<string>)
    ensures validFiles == KeptPaths(walk)
  {
    validFiles := [];
    for i := 0 to |walk|
      invariant validFiles == KeptPaths(walk[..i])
    {
      var root, fileNames := walk[i].root, walk[i].fileNames;
      for j := 0 to |fileNames|
        invariant validFiles == KeptPaths(walk[..i]) + KeptNames(root, fileNames[..j])
      {
        var filePath := Join(root, fileNames[j]);
        var extension := Extension(filePath);
        assert fileNames[..j + 1][..j] == fileNames[..j];
        if root == "./.import" || extension == ".import" {
          continue;
        }
        validFiles := validFiles + [filePath];
      }
      assert fileNames[..|fileNames|] == fileNames;
      assert walk[..i + 1][..i] == walk[..i];
    }
    assert walk[..|walk|] == walk;
  }

  /** Every kept path comes from a walked file that is not excluded. */
  lemma {:induction false} KeptNamesSound(root: string, names: seq<string>, p: string) returns (j: nat)
    requires p in KeptNames(root, names)
    ensures j < |names| && !IsExcluded(root, names[j]) && Join(root, names[j]) == p
    decreases |names|
  {
    var n := |names| - 1;
    var init := names[..n];
    if p in KeptNames(root, init) {
      j := KeptNamesSound(root, init, p);
      assert names[j] == init[j];
    } else {
      j := n;
    }
  }

  /** Every walked file that is not excluded is kept. */
  lemma {:induction false} KeptNamesComplete(root: string, names: seq<string>, name: string)
    requires name in names && !IsExcluded(root, name)
    ensures Join(root, name) in KeptNames(root, names)
    decreases |names|
  {
    var n := |names| - 1;
    if name in names[..n] {
      KeptNamesComplete(root, names[..n], name);
      KeptNamesGrow(root, names, Join(root, name));
    } else {
      assert names == names[..n] + [names[n]];
      KeptNamesLast(root, names, name);
    }
  }

  lemma KeptNamesGrow(root: string, names: seq<string>, p: string)
    requires names != [] && p in KeptNames(root, names[..|names| - 1])
    ensures p in KeptNames(root, names)
  {
  }

  lemma KeptNamesLast(root: string, names: seq<string>, name: string)
    requires names != [] && names[|names| - 1] == name && !IsExcluded(root, name)
    ensures Join(root, name) in KeptNames(root, names)
  {
  }

  /** Every kept path of the walk comes from a file of some visited
      directory that is not excluded. */
  lemma {:induction false} KeptPathsSound(walk: seq<WalkEntry>, p: string) returns (i: nat, j: nat)
    requires p in KeptPaths(walk)
    ensures i < |walk| && j < |walk[i].fileNames|
    ensures !IsExcluded(walk[i].root, walk[i].fileNames[j]) && Join(walk[i].root, walk[i].fileNames[j]) == p
    decreases |walk|
  {
    var n := |walk| - 1;
    var init, last := walk[..n], walk[n];
    if p in KeptPaths(init) {
      i, j := KeptPathsSound(init, p);
      assert walk[i] == init[i];
    } else {
      i := n;
      j := KeptNamesSound(last.root, last.fileNames, p);
    }
  }

  /** Every file of every visited directory that is not excluded is kept. */
  lemma {:induction false} KeptPathsComplete(walk: seq<WalkEntry>, i: nat, name: string)
    requires i < |walk| && name in walk[i].fileNames
    requires !IsExcluded(walk[i].root, name)
    ensures Join(walk[i].root, name) in KeptPaths(walk)
    decreases |walk|
  {
    var n := |walk| - 1;
    var init := walk[..n];
    var last := walk[n];
    assert KeptPaths(walk) == KeptPaths(init) + KeptNames(last.root, last.fileNames);
    if i < n {
      assert init[i] == walk[i];
      KeptPathsComplete(init, i, name);
    } else {
      KeptNamesComplete(last.root, last.fileNames, name);
    }
  }

  /** The directory-by-directory concatenation: the result of a walk is the
      result of its first part followed by that of the rest. */
  lemma {:induction false} KeptPathsAppend(a: seq<WalkEntry>, b: seq<WalkEntry>)
    ensures KeptPaths(a + b) == KeptPaths(a) + KeptPaths(b)
    decreases |b|
  {
    if b == [] {
      assert a + b == a;
    } else {
      var init := b[..|b| - 1];
      var last := b[|b| - 1];
      assert (a + b)[..|a + b| - 1] == a + init;
      assert (a + b)[|a + b| - 1] == last;
      KeptPathsAppend(a, init);
      var tail := KeptNames(last.root, last.fileNames);
      assert KeptPaths(a + b) == KeptPaths(a + init) + tail;
      assert KeptPaths(b) == KeptPaths(init) + tail;
      Associative(KeptPaths(a), KeptPaths(init), tail);
    }
  }

  lemma {:induction false} KeptNamesAppend(root: string, a: seq<string>, b: seq<string>)
    ensures KeptNames(root, a + b) == KeptNames(root, a) + KeptNames(root, b)
    decreases |b|
  {
    if b == [] {
      assert a + b == a;
    } else {
      assert (a + b)[..|a + b| - 1] == a + b[..|b| - 1];
      KeptNamesAppend(root, a, b[..|b| - 1]);
    }
  }

  /** One file on its own is dropped exactly when it is excluded. Together
      with the two append lemmas this fixes the result of every walk: each
      file in walk order, minus the excluded ones. */
  lemma KeptSingleFile(root: string, dirNames: seq<string>, name: string)
    ensures KeptPaths([WalkEntry(root, dirNames, [name])]) ==
              if IsExcluded(root, name) then [] else [Join(root, name)]
  {
    var walk := [WalkEntry(root, dirNames, [name])];
    assert walk[..0] == [];
    assert [name][..0] == [];
    assert KeptNames(root, [name]) == if IsExcluded(root, name) then [] else [Join(root, name)];
    assert KeptPaths(walk) == KeptPaths([]) + KeptNames(root, [name]);
  }

  /** A directory root as `os.walk(".")` yields it: non-empty, with no
      trailing separator, so `Join` inserts one. */
  predicate IsWalkRoot(root: string) {
    root != [] && root[|root| - 1] != '/'
  }

  /** A dot-free file anywhere under `./.git` (such as `HEAD`) is kept: the
      root is compared only with `./.import`. */
  lemma GitMetadataKept(root: string, name: string)
    requires IsWalkRoot(root) && StartsWith(root, "./.git")
    requires name != [] && '.' !in name && '/' !in name
    ensures !IsExcluded(root, name)
  {
    assert root[3] == 'g';
    assert Join(root, name) == root + "/" + name;
    DotFreeNameHasNoExtension(root, name);
  }

  /** Hidden files are kept. */
  lemma HiddenFileKept()
    ensures !IsExcluded(".", ".hidden.png")
  {
    assert Join(".", ".hidden.png") == "." + "/" + ".hidden" + ".png";
    assert ".hidden"[1] != '.';
    ExtensionOfFile(".", ".hidden", ".png");
  }

  /** A file in a subdirectory of `./.import` is kept unless its own
      extension is `.import`: line 35 compares the root with `./.import` only. */
  lemma ImportSubdirectoryKept(sub: string, base: string, ext: string)
    requires IsWalkRoot(sub)
    requires '/' !in base && (exists k :: 0 <= k < |base| && base[k] != '.')
    requires |ext| >= 1 && ext[0] == '.' && '/' !in ext && '.' !in ext[1..] && ext != ".import"
    ensures !IsExcluded("./.import/" + sub, base + ext)
  {
    var root := "./.import/" + sub;
    assert |root| > |"./.import"|;
    assert root[|root| - 1] == sub[|sub| - 1];
    assert Join(root, base + ext) == root + "/" + base + ext;
    ExtensionOfFile(root, base, ext);
  }

  /** An `.import` sidecar is dropped in every directory of the walk. */
  lemma ImportSidecarDropped(root: string, base: string)
    requires IsWalkRoot(root)
    requires '/' !in base && (exists k :: 0 <= k < |base| && base[k] != '.')
    ensures IsExcluded(root, base + ".import")
  {
    var ext := ".import";
    assert ext[0] == '.' && '/' !in ext && '.' !in ext[1..];
    assert Join(root, base + ext) == root + "/" + base + ext;
    ExtensionOfFile(root, base, ext);
  }

  /** A file named just `.import` has no extension: it is dropped exactly
      when it lies directly in `./.import`. */
  lemma BareImportNameKept(root: string)
    requires IsWalkRoot(root)
    ensures IsExcluded(root, ".import") <==> root == "./.import"
  {
    assert Join(root, ".import") == root + "/" + "" + "." + "import";
    assert '.' !in "import" && '/' !in "import";
    HiddenNameHasNoExtension(root, "", "import");
  }
}
