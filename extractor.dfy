/** The reference extractor: `re.findall` of the pattern
    `"*?(res:/)(/[^"%]+\.[a-zA-Z0-9]+)"` over one line, giving for each match
    the local path `.` + the second group.

    The pattern is matched here directly. The lazy `"*?` may match no quote
    at all, and the quotes it can match sit right before `res:/`, so they
    never change which `res:/` a match uses nor its groups: a match uses the
    `res://` at some position q (the `/` after `res:/` opens the second
    group), then `[^"%]+` runs up to the first `"` or `%`, which must be the
    closing `"`, and the text in between must split as `X.Y` with `X`
    non-empty and `Y` made of ASCII letters and digits. The scan resumes
    after the closing quote, so matches never overlap. */
module Extractor {
  import opened Wrappers
  import opened Paths

  /** `res:/` followed by the `/` that starts the path group. */
  const Scheme: string := "res://"

  predicate IsStop(c: char) {
    c == '"' || c == '%'
  }

  predicate IsAsciiAlnum(c: char) {
    'a' <= c <= 'z' || 'A' <= c <= 'Z' || '0' <= c <= '9'
  }

  /** The first `"` or `%` at or after `from`, or the end of the line. */
  function NextStop(line: string, from: nat): (j: nat)
    requires from <= |line|
    ensures from <= j <= |line|
    ensures forall k :: from <= k < j ==> !IsStop(line[k])
    ensures j < |line| ==> IsStop(line[j])
    decreases |line| - from
  {
    if from == |line| || IsStop(line[from]) then from else NextStop(line, from + 1)
  }

  /** Start of the longest run of ASCII letters and digits that ends at `hi`
      and does not reach below `lo`. */
  function AlnumRunStart(line: string, lo: nat, hi: nat): (k: nat)
    requires lo <= hi <= |line|
    ensures lo <= k <= hi
    ensures forall i :: k <= i < hi ==> IsAsciiAlnum(line[i])
    ensures k > lo ==> !IsAsciiAlnum(line[k - 1])
    decreases hi - lo
  {
    if hi == lo || !IsAsciiAlnum(line[hi - 1]) then hi else AlnumRunStart(line, lo, hi - 1)
  }

  /** `line[lo..hi]` is `X.Y` with `X` non-empty and `Y` a non-empty run of
      letters and digits: the dot is the character just before the longest
      such run. */
  predicate HasDottedTail(line: string, lo: nat, hi: nat)
    requires lo <= hi <= |line|
  {
    var k := AlnumRunStart(line, lo, hi);
    k < hi && k >= lo + 2 && line[k - 1] == '.'
  }

  /** The match that uses the `res://` at position `q`, given by the index of
      its closing quote. */
  function LocatorAt(line: string, q: nat): Option<nat> {
    if q + |Scheme| <= |line| && line[q..q + |Scheme|] == Scheme then
      var j := NextStop(line, q + |Scheme|);
      if j < |line| && line[j] == '"' && HasDottedTail(line, q + |Scheme|, j) then Some(j) else None
    else None
  }

  /** `findall` from position `pos` on, each match mapped to its local path. */
  function ExtractFrom(line: string, pos: nat): seq<string>
    requires pos <= |line|
    decreases |line| - pos
  {
    if pos == |line| then []
    else
      match LocatorAt(line, pos)
      case Some(j) => ["./" + line[pos + |Scheme|..j]] + ExtractFrom(line, j + 1)
      case None => ExtractFrom(line, pos + 1)
  }

  /** The local paths of all references on one line, left to right. */
  function Extract(line: string): seq<string> {
    ExtractFrom(line, 0)
  }

  // ---------------------------------------------------------------------
  // The pattern read declaratively

  /** The text between `res://` and the closing quote as the pattern reads
      it: `[^"%]+` followed by `\.` and `[a-zA-Z0-9]+`. */
  ghost predicate IsPathBody(body: string) {
    exists d :: 1 <= d < |body| - 1 && body[d] == '.' &&
      (forall i :: 0 <= i < d ==> !IsStop(body[i])) &&
      (forall i :: d < i < |body| ==> IsAsciiAlnum(body[i]))
  }

  /** `line[q..j + 1]` is a whole match without leading quotes: `res://`,
      a path body, the closing quote. */
  ghost predicate IsLocator(line: string, q: nat, j: nat) {
    q + |Scheme| <= j < |line| && line[q..q + |Scheme|] == Scheme && line[j] == '"' &&
    IsPathBody(line[q + |Scheme|..j])
  }

  /** What an extracted path looks like: `./`, then at least one character,
      a dot and at least one letter or digit, and no `"` or `%` anywhere. */
  ghost predicate IsLocalPath(p: string) {
    StartsWith(p, "./") && IsPathBody(p[2..])
  }

  /** A path body contains no `"` or `%` and ends in a dot and letters or
      digits. */
  lemma PathBodyShape(body: string) returns (d: nat)
    requires IsPathBody(body)
    ensures 1 <= d < |body| - 1 && body[d] == '.'
    ensures forall i :: 0 <= i < |body| ==> !IsStop(body[i])
    ensures forall i :: d < i < |body| ==> IsAsciiAlnum(body[i])
  {
    d :| 1 <= d < |body| - 1 && body[d] == '.' &&
      (forall i :: 0 <= i < d ==> !IsStop(body[i])) &&
      (forall i :: d < i < |body| ==> IsAsciiAlnum(body[i]));
    forall i | d <= i < |body| ensures !IsStop(body[i]) {
      if i > d {
        assert IsAsciiAlnum(body[i]);
      }
    }
  }

  /** The run of letters and digits ending at `hi` starts right after a
      character that is not one. */
  lemma {:induction false} AlnumRunStartAt(line: string, lo: nat, hi: nat, k: nat)
    requires lo < k <= hi <= |line|
    requires !IsAsciiAlnum(line[k - 1])
    requires forall i :: k <= i < hi ==> IsAsciiAlnum(line[i])
    ensures AlnumRunStart(line, lo, hi) == k
    decreases hi - lo
  {
    if hi > k {
      AlnumRunStartAt(line, lo, hi - 1, k);
    }
  }

  /** The first stop at or after `from` is `j` when none comes before it. */
  lemma {:induction false} NextStopAt(line: string, from: nat, j: nat)
    requires from <= j < |line| && IsStop(line[j])
    requires forall k :: from <= k < j ==> !IsStop(line[k])
    ensures NextStop(line, from) == j
    decreases j - from
  {
    if from < j {
      NextStopAt(line, from + 1, j);
    }
  }

  /** The scanner's test at a position agrees with the pattern, in both
      directions. */
  lemma LocatorAtIff(line: string, q: nat, j: nat)
    ensures LocatorAt(line, q) == Some(j) <==> IsLocator(line, q, j)
  {
    var lo := q + |Scheme|;
    if LocatorAt(line, q) == Some(j) {
      var k := AlnumRunStart(line, lo, j);
      var body := line[lo..j];
      var d := k - 1 - lo;
      assert body[d] == '.';
      forall i | 0 <= i < d ensures !IsStop(body[i]) {
        assert body[i] == line[lo + i];
      }
      forall i | d < i < |body| ensures IsAsciiAlnum(body[i]) {
        assert body[i] == line[lo + i];
      }
      assert IsPathBody(body);
    }
    if IsLocator(line, q, j) {
      var body := line[lo..j];
      var d := PathBodyShape(body);
      forall k | lo <= k < j ensures !IsStop(line[k]) {
        assert line[k] == body[k - lo];
      }
      NextStopAt(line, lo, j);
      forall i | lo + d + 1 <= i < j ensures IsAsciiAlnum(line[i]) {
        assert line[i] == body[i - lo];
      }
      assert line[lo + d] == body[d];
      AlnumRunStartAt(line, lo, j, lo + d + 1);
    }
  }

  // ---------------------------------------------------------------------
  // What the extractor returns

  /** One step of the scan: a match at `pos` is reported and skipped,
      otherwise the scan moves on by one character. */
  lemma ExtractFromUnfold(line: string, pos: nat)
    requires pos < |line|
    ensures match LocatorAt(line, pos)
      case Some(j) => pos + |Scheme| <= j < |line| &&
                      ExtractFrom(line, pos) == ["./" + line[pos + |Scheme|..j]] + ExtractFrom(line, j + 1)
      case None => ExtractFrom(line, pos) == ExtractFrom(line, pos + 1)
  {
  }

  /** Each extracted path is `.` + the path group of the scanner's match at
      some position. */
  lemma {:induction false} ExtractedAt(line: string, pos: nat, p: string) returns (q: nat, j: nat)
    requires pos <= |line| && p in ExtractFrom(line, pos)
    ensures pos <= q && q + |Scheme| <= j <= |line| && LocatorAt(line, q) == Some(j)
    ensures p == "./" + line[q + |Scheme|..j]
    decreases |line| - pos
  {
    ExtractFromUnfold(line, pos);
    match LocatorAt(line, pos)
    case Some(j0) =>
      if p == "./" + line[pos + |Scheme|..j0] {
        q, j := pos, j0;
      } else {
        q, j := ExtractedAt(line, j0 + 1, p);
      }
    case None =>
      q, j := ExtractedAt(line, pos + 1, p);
  }

  /** Each extracted path is `.` + the path group of a match of the pattern
      in the line. */
  lemma ExtractedFromLocator(line: string, pos: nat, p: string) returns (q: nat, j: nat)
    requires pos <= |line| && p in ExtractFrom(line, pos)
    ensures pos <= q && IsLocator(line, q, j) && p == "./" + line[q + |Scheme|..j]
  {
    q, j := ExtractedAt(line, pos, p);
    LocatorAtIff(line, q, j);
  }

  /** Every extracted path starts with `./`, has no `"` or `%`, and ends in a
      dot followed by letters or digits. */
  lemma ExtractedPathShape(line: string, p: string)
    requires p in Extract(line)
    ensures IsLocalPath(p)
  {
    var q, j := ExtractedFromLocator(line, 0, p);
    assert p[2..] == line[q + |Scheme|..j];
  }

  /** The scan, from `pos`, first reports the leftmost match at or after
      `pos` and then resumes after that match's closing quote. */
  lemma {:induction false} ExtractFromLeftmost(line: string, pos: nat, q: nat, j: nat)
    requires pos <= q && IsLocator(line, q, j)
    requires forall r :: pos <= r < q ==> LocatorAt(line, r).None?
    ensures ExtractFrom(line, pos) == ["./" + line[q + |Scheme|..j]] + ExtractFrom(line, j + 1)
    decreases q - pos
  {
    ExtractFromUnfold(line, pos);
    if pos < q {
      assert LocatorAt(line, pos).None?;
      ExtractFromLeftmost(line, pos + 1, q, j);
    } else {
      LocatorAtIff(line, q, j);
    }
  }

  /** Nothing is extracted from a stretch with no match. */
  lemma {:induction false} ExtractFromNone(line: string, pos: nat)
    requires pos <= |line|
    requires forall r :: pos <= r < |line| ==> LocatorAt(line, r).None?
    ensures ExtractFrom(line, pos) == []
    decreases |line| - pos
  {
    if pos < |line| {
      ExtractFromNone(line, pos + 1);
    }
  }

  /** A line yields a reference exactly when the pattern occurs in it. */
  lemma ExtractNonEmptyIff(line: string)
    ensures Extract(line) != [] <==> exists q, j :: IsLocator(line, q, j)
  {
    if Extract(line) != [] {
      var q, j := ExtractedFromLocator(line, 0, Extract(line)[0]);
    }
    if exists q, j :: IsLocator(line, q, j) {
      var q, j :| IsLocator(line, q, j);
      var first := FirstLocator(line, 0, q, j);
      var j1 :| IsLocator(line, first, j1);
      ExtractFromLeftmost(line, 0, first, j1);
    }
  }

  /** The leftmost position at or after `pos` where a match starts, given
      one at `q`. */
  lemma {:induction false} FirstLocator(line: string, pos: nat, q: nat, j: nat) returns (first: nat)
    requires pos <= q && IsLocator(line, q, j)
    ensures pos <= first <= q && exists j1 :: IsLocator(line, first, j1)
    ensures forall r :: pos <= r < first ==> LocatorAt(line, r).None?
    decreases q - pos
  {
    if pos == q {
      first := q;
    } else if LocatorAt(line, pos).Some? {
      LocatorAtIff(line, pos, LocatorAt(line, pos).value);
      first := pos;
    } else {
      first := FirstLocator(line, pos + 1, q, j);
    }
  }
}
