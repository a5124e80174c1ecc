/** Small string and path helpers: prefix/suffix tests, `os.path.join` for
    two components and `os.path.splitext`'s extension. */
module Paths {

  /** Concatenation regrouped; stated once so that proofs about long
      concatenations need not rediscover it. */
  lemma Associative<T>(a: seq<T>, b: seq<T>, c: seq<T>)
    ensures (a + b) + c == a + (b + c)
  {
  }

  predicate StartsWith(s: string, prefix: string) {
    |prefix| <= |s| && s[..|prefix|] == prefix
  }

  predicate EndsWith(s: string, suffix: string) {
    |suffix| <= |s| && s[|s| - |suffix|..] == suffix
  }

  /** Index of the last occurrence of `c` in `s`, or -1 when `c` does not occur. */
  function LastIndexOf(s: string, c: char): (r: int)
    ensures -1 <= r < |s|
    ensures r >= 0 ==> s[r] == c
    ensures forall k :: r < k < |s| ==> s[k] != c
  {
    LastIndexBefore(s, c, |s|)
  }

  /** Index of the last occurrence of `c` in `s[..n]`, or -1. */
  function LastIndexBefore(s: string, c: char, n: nat): (r: int)
    requires n <= |s|
    ensures -1 <= r < n
    ensures r >= 0 ==> s[r] == c
    ensures forall k :: r < k < n ==> s[k] != c
  {
    if n == 0 then -1
    else if s[n - 1] == c then n - 1
    else LastIndexBefore(s, c, n - 1)
  }

  /** A path is absolute when it starts with the separator. */
  predicate IsAbsolute(p: string) {
    |p| > 0 && p[0] == '/'
  }

  /** `os.path.join(root, name)` on POSIX: an absolute `name` replaces `root`;
      a separator is inserted unless `root` is empty or already ends in one. */
  function Join(root: string, name: string): string {
    if IsAbsolute(name) then name
    else if root == [] || root[|root| - 1] == '/' then root + name
    else root + "/" + name
  }

  /** The extension `os.path.splitext` returns: from the last dot of the base
      name to the end, unless every character of the base name before that
      dot is itself a dot (a hidden file such as `.import` has none). */
  function Extension(path: string): string {
    var sep := LastIndexOf(path, '/');
    var dot := LastIndexOf(path, '.');
    if dot > sep && HasNonDot(path, sep + 1, dot) then path[dot..] else []
  }

  /** An extension is empty, or a suffix of the path that starts with its
      only dot and holds no separator. */
  lemma ExtensionShape(path: string)
    ensures var ext := Extension(path);
      ext == [] || (ext[0] == '.' && EndsWith(path, ext) && '/' !in ext && '.' !in ext[1..])
  {
    var ext := Extension(path);
    if ext != [] {
      var dot := LastIndexOf(path, '.');
      assert ext == path[dot..];
      assert forall k :: 1 <= k < |ext| ==> ext[k] == path[dot + k];
    }
  }

  /** Some character of `s[lo..hi]` is not a dot (splitext's scan over the
      base name before its last dot). */
  predicate HasNonDot(s: string, lo: nat, hi: nat)
    requires lo <= hi <= |s|
    decreases hi - lo
  {
    lo < hi && (s[lo] != '.' || HasNonDot(s, lo + 1, hi))
  }

  lemma {:induction false} HasNonDotAt(s: string, lo: nat, hi: nat, k: nat)
    requires lo <= k < hi <= |s|
    ensures HasNonDot(s, lo, hi) <== s[k] != '.'
    decreases k - lo
  {
    if lo < k {
      HasNonDotAt(s, lo + 1, hi, k);
    }
  }

  lemma {:induction false} LastIndexOfAppend(s: string, t: string, c: char)
    ensures LastIndexOf(s + t, c) == if c in t then |s| + LastIndexOf(t, c) else LastIndexOf(s, c)
    decreases |t|
  {
    if t == [] {
      assert s + t == s;
    } else {
      var u := s + t;
      assert u[..|u| - 1] == s + t[..|t| - 1];
      if t[|t| - 1] != c {
        LastIndexOfAppend(s, t[..|t| - 1], c);
        assert c in t <==> c in t[..|t| - 1] by {
          assert t == t[..|t| - 1] + [t[|t| - 1]];
        }
      }
    }
  }

  lemma {:induction false} LastIndexOfAbsent(s: string, c: char)
    requires c !in s
    ensures LastIndexOf(s, c) == -1
    decreases |s|
  {
    if s != [] {
      LastIndexOfAbsent(s[..|s| - 1], c);
    }
  }

  /** The last dot of a dot-led, dot-free-tailed extension is its first character. */
  lemma LastDotOfExtension(ext: string)
    requires |ext| >= 1 && ext[0] == '.' && '.' !in ext[1..]
    ensures LastIndexOf(ext, '.') == 0
  {
    assert ext == [ext[0]] + ext[1..];
    LastIndexOfAbsent(ext[1..], '.');
    LastIndexOfAppend([ext[0]], ext[1..], '.');
  }

  /** splitext recovers the extension appended to a stem whose base name has
      a character other than a dot. */
  lemma ExtensionOfAppend(stem: string, ext: string)
    requires |ext| >= 1 && ext[0] == '.' && '/' !in ext && '.' !in ext[1..]
    requires exists k :: LastIndexOf(stem, '/') < k < |stem| && stem[k] != '.'
    ensures Extension(stem + ext) == ext
  {
    var p := stem + ext;
    assert LastIndexOf(p, '/') == LastIndexOf(stem, '/') by {
      LastIndexOfAppend(stem, ext, '/');
    }
    assert LastIndexOf(p, '.') == |stem| by {
      LastDotOfExtension(ext);
      LastIndexOfAppend(stem, ext, '.');
    }
    var k :| LastIndexOf(stem, '/') < k < |stem| && stem[k] != '.';
    assert p[k] != '.' by {
      assert p[k] == stem[k];
    }
    ExtensionAt(p, k);
    assert p[|stem|..] == ext;
  }

  /** When a non-dot character lies between the last separator and the last
      dot, the extension is everything from that dot on. */
  lemma ExtensionAt(p: string, k: int)
    requires LastIndexOf(p, '/') < k < LastIndexOf(p, '.') && p[k] != '.'
    ensures Extension(p) == p[LastIndexOf(p, '.')..]
  {
    HasNonDotAt(p, LastIndexOf(p, '/') + 1, LastIndexOf(p, '.'), k);
  }

  lemma {:induction false} AllDotsHaveNoNonDot(s: string, lo: nat, hi: nat)
    requires lo <= hi <= |s|
    requires forall k :: lo <= k < hi ==> s[k] == '.'
    ensures !HasNonDot(s, lo, hi)
    decreases hi - lo
  {
    if lo < hi {
      AllDotsHaveNoNonDot(s, lo + 1, hi);
    }
  }

  /** A base name made of dots followed by a dot-free word (`.import`,
      `..cfg`) has no extension. */
  lemma HiddenNameHasNoExtension(dir: string, dots: string, word: string)
    requires forall k :: 0 <= k < |dots| ==> dots[k] == '.'
    requires '.' !in word && '/' !in word
    ensures Extension(dir + "/" + dots + "." + word) == []
  {
    var p := dir + "/" + dots + "." + word;
    var head := dir + "/" + dots + ".";
    assert p == head + word;
    assert head == (dir + "/") + (dots + ".");
    LastIndexOfAppend(head, word, '/');
    LastIndexOfAppend(head, word, '.');
    LastIndexOfAppend(dir + "/", dots + ".", '/');
    LastIndexOfAbsent(dots + ".", '/');
    assert '/' !in dots + "." by {
      assert forall k :: 0 <= k < |dots + "."| ==> (dots + ".")[k] == '.';
    }
    assert (dir + "/")[|dir|] == '/';
    var sep := LastIndexOf(p, '/');
    var dot := LastIndexOf(p, '.');
    assert sep == |dir|;
    assert dot == |head| - 1;
    forall k | sep + 1 <= k < dot ensures p[k] == '.' {
      assert p[k] == dots[k - |dir| - 1];
    }
    AllDotsHaveNoNonDot(p, sep + 1, dot);
  }

  /** A base name without any dot has no extension. */
  lemma DotFreeNameHasNoExtension(dir: string, name: string)
    requires '.' !in name && '/' !in name
    ensures Extension(dir + "/" + name) == []
  {
    var head := dir + "/";
    var p := head + name;
    LastIndexOfAppend(head, name, '/');
    LastIndexOfAppend(head, name, '.');
    assert head[|dir|] == '/';
    assert LastIndexOf(p, '/') == |dir|;
    assert LastIndexOf(p, '.') <= |dir|;
  }

  /** The extension of `dir/base.ext` is `.ext` when the base name has a
      character other than a dot. */
  lemma ExtensionOfFile(dir: string, base: string, ext: string)
    requires '/' !in base && (exists k :: 0 <= k < |base| && base[k] != '.')
    requires |ext| >= 1 && ext[0] == '.' && '/' !in ext && '.' !in ext[1..]
    ensures Extension(dir + "/" + base + ext) == ext
  {
    var head := dir + "/";
    var stem := head + base;
    LastIndexOfAppend(head, base, '/');
    assert head[|dir|] == '/';
    assert LastIndexOf(stem, '/') == |dir|;
    var k :| 0 <= k < |base| && base[k] != '.';
    assert stem[|head| + k] == base[k];
    ExtensionOfAppend(stem, ext);
    assert dir + "/" + base + ext == stem + ext;
  }
}
