/**
 * The handful of Python `str` operations the snatcher relies on, as total
 * functions on `seq<char>`: `sep in s`, `s.find(sep)`, `s.split(sep)`,
 * `s.split(sep, 1)`, `s.startswith(p)`, `s.strip()` and `s.strip(c)`.
 */
module Strs {
  import opened Base

  /** `pat` occurs in `s` starting at index `i`. */
  predicate OccursAt(s: string, pat: string, i: nat)
  {
    i + |pat| <= |s| && s[i..i + |pat|] == pat
  }

  /** Python's `pat in s`. */
  predicate Contains(s: string, pat: string)
  {
    exists i: nat | i <= |s| :: OccursAt(s, pat, i)
  }

  /** Python's `s.startswith(p)`. */
  predicate StartsWith(s: string, p: string)
  {
    |p| <= |s| && s[..|p|] == p
  }

  /** The first occurrence of `pat` in `s` at or after `from`. */
  function FindFrom(s: string, pat: string, from: nat): (r: Option<nat>)
    ensures r.Some? ==> from <= r.value && OccursAt(s, pat, r.value)
    ensures r.Some? ==> forall j: nat :: from <= j < r.value ==> !OccursAt(s, pat, j)
    ensures r.None? ==> forall j: nat :: from <= j ==> !OccursAt(s, pat, j)
    decreases |s| - from
  {
    if from + |pat| > |s| then None
    else if s[from..from + |pat|] == pat then Some(from)
    else FindFrom(s, pat, from + 1)
  }

  /** Python's `s.find(pat)`, with `None` for -1. */
  function Find(s: string, pat: string): (r: Option<nat>)
    ensures r.Some? <==> Contains(s, pat)
    ensures r.Some? ==> OccursAt(s, pat, r.value)
    ensures r.Some? ==> forall j: nat :: j < r.value ==> !OccursAt(s, pat, j)
  {
    FindFrom(s, pat, 0)
  }

  /** Python's `sep.join(xs)`; joining nothing gives the empty string. */
  function Join(xs: seq<string>, sep: string): string
  {
    if xs == [] then "" else if |xs| == 1 then xs[0] else xs[0] + sep + Join(xs[1..], sep)
  }

  /** An occurrence of `pat` inside the slice `s[..n]` is an occurrence in `s`. */
  lemma OccursInPrefix(s: string, pat: string, n: nat, j: nat)
    requires n <= |s| && OccursAt(s[..n], pat, j)
    ensures OccursAt(s, pat, j)
  {
    assert s[..n][j..j + |pat|] == s[j..j + |pat|];
  }

  /**
   * Python's `s.split(sep)` for a non-empty separator: the pieces between
   * successive left-to-right, non-overlapping occurrences of `sep`.
   */
  function Split(s: string, sep: string): (r: seq<string>)
    requires sep != []
    ensures |r| >= 1
    ensures Join(r, sep) == s
    ensures forall k :: 0 <= k < |r| ==> !Contains(r[k], sep)
    decreases |s|
  {
    match Find(s, sep)
    case None => [s]
    case Some(i) =>
      var head := s[..i];
      var tail := Split(s[i + |sep|..], sep);
      assert !Contains(head, sep) by {
        forall j: nat | OccursAt(head, sep, j) ensures false {
          OccursInPrefix(s, sep, i, j);
        }
      }
      assert s == head + sep + s[i + |sep|..] by {
        assert s[i..i + |sep|] == sep;
      }
      [head] + tail
  }

  /** Python's `s.split(sep, 1)`: at most one cut, at the first occurrence. */
  function SplitOnce(s: string, sep: string): (r: seq<string>)
    requires sep != []
    ensures 1 <= |r| <= 2
    ensures |r| == 1 <==> !Contains(s, sep)
    ensures |r| == 1 ==> r[0] == s
    ensures |r| == 2 ==> s == r[0] + sep + r[1] && !Contains(r[0], sep)
  {
    match Find(s, sep)
    case None => [s]
    case Some(i) =>
      assert s == s[..i] + sep + s[i + |sep|..] by {
        assert s[i..i + |sep|] == sep;
      }
      assert !Contains(s[..i], sep) by {
        forall j: nat | OccursAt(s[..i], sep, j) ensures false {
          OccursInPrefix(s, sep, i, j);
        }
      }
      [s[..i], s[i + |sep|..]]
  }

  /** The characters Python's `str.isspace` accepts, which is what `strip()` removes. */
  predicate IsSpace(c: char)
  {
    || '\t' <= c <= '\r'
    || '\U{1C}' <= c <= ' '
    || c == '\U{85}' || c == '\U{A0}' || c == '\U{1680}'
    || '\U{2000}' <= c <= '\U{200A}'
    || c == '\U{2028}' || c == '\U{2029}' || c == '\U{202F}' || c == '\U{205F}' || c == '\U{3000}'
  }

  /** Drops the leading characters that satisfy `drop`. */
  function LStrip(s: string, drop: char -> bool): (r: string)
    ensures |r| <= |s| && r == s[|s| - |r|..]
    ensures r != [] ==> !drop(r[0])
    ensures forall k :: 0 <= k < |s| - |r| ==> drop(s[k])
  {
    if s != [] && drop(s[0]) then LStrip(s[1..], drop) else s
  }

  /** Drops the trailing characters that satisfy `drop`. */
  function RStrip(s: string, drop: char -> bool): (r: string)
    ensures |r| <= |s| && r == s[..|r|]
    ensures r != [] ==> !drop(r[|r| - 1])
    ensures forall k :: |r| <= k < |s| ==> drop(s[k])
  {
    if s != [] && drop(s[|s| - 1]) then RStrip(s[..|s| - 1], drop) else s
  }

  /** Python's `s.strip()`. */
  function Strip(s: string): string
  {
    RStrip(LStrip(s, IsSpace), IsSpace)
  }

  predicate IsQuote(c: char)
  {
    c == '"'
  }

  /** Python's `s.strip('"')`. */
  function StripQuotes(s: string): string
  {
    RStrip(LStrip(s, IsQuote), IsQuote)
  }

  /** `s` has nothing at either end that `drop` would strip. */
  predicate Bare(s: string, drop: char -> bool)
  {
    s != [] ==> !drop(s[0]) && !drop(s[|s| - 1])
  }

  /** A string that begins and ends with no character of `drop` is left alone by stripping. */
  lemma StripNothing(s: string, drop: char -> bool)
    requires Bare(s, drop)
    ensures RStrip(LStrip(s, drop), drop) == s
  {
  }

  /** No proper suffix of `sep` is also a prefix of it, so occurrences of `sep` never overlap. */
  predicate BorderFree(sep: string)
  {
    forall k :: 0 < k < |sep| ==> sep[k..] != sep[..|sep| - k]
  }

  /** A separator whose first character occurs nowhere else in it is border-free. */
  lemma BorderFreeIfHeadUnique(sep: string)
    requires sep != [] && forall i :: 0 < i < |sep| ==> sep[i] != sep[0]
    ensures BorderFree(sep)
  {
    forall k | 0 < k < |sep| ensures sep[k..] != sep[..|sep| - k] {
      assert sep[k..][0] == sep[k];
      assert sep[..|sep| - k][0] == sep[0];
    }
  }

  /**
   * Behind a prefix free of a border-free separator, the first occurrence of the
   * separator is the one written right after that prefix.
   */
  lemma {:induction false} FindAfter(a: string, sep: string, b: string)
    requires sep != [] && BorderFree(sep) && !Contains(a, sep)
    ensures Find(a + sep + b, sep) == Some(|a|)
  {
    var s := a + sep + b;
    assert OccursAt(s, sep, |a|) by {
      assert s[|a|..|a| + |sep|] == sep;
    }
    forall j: nat | j < |a| ensures !OccursAt(s, sep, j) {
      if j + |sep| <= |a| {
        assert a[j..j + |sep|] == s[j..j + |sep|];
        assert OccursAt(a, sep, j) <==> OccursAt(s, sep, j);
      } else {
        var k := |a| - j;
        assert s[j..j + |sep|][k..] == sep[..|sep| - k];
      }
    }
  }

  /** Splitting a join on a border-free separator that no piece contains gives the pieces back. */
  lemma {:induction false} SplitJoin(xs: seq<string>, sep: string)
    requires sep != [] && BorderFree(sep) && |xs| >= 1
    requires forall k :: 0 <= k < |xs| ==> !Contains(xs[k], sep)
    ensures Split(Join(xs, sep), sep) == xs
    decreases |xs|
  {
    if |xs| > 1 {
      var rest := Join(xs[1..], sep);
      var s := xs[0] + sep + rest;
      FindAfter(xs[0], sep, rest);
      assert s[..|xs[0]|] == xs[0];
      assert s[|xs[0]| + |sep|..] == rest;
      SplitJoin(xs[1..], sep);
    }
  }

  /** The first piece of a split is the text up to the first separator, or all of it. */
  lemma SplitHead(s: string, sep: string)
    requires sep != []
    ensures var h := Split(s, sep)[0];
      |h| <= |s| && h == s[..|h|] && (|h| == |s| || OccursAt(s, sep, |h|))
  {
    match Find(s, sep)
    case None =>
    case Some(i) =>
      assert Split(s, sep)[0] == s[..i];
  }

  /** With the separator present, the second piece is the first piece of what follows its first occurrence. */
  lemma SplitSecond(s: string, sep: string)
    requires sep != [] && Contains(s, sep)
    ensures |Split(s, sep)| >= 2
    ensures Split(s, sep)[1] == Split(s[Find(s, sep).value + |sep|..], sep)[0]
  {
    var i := Find(s, sep).value;
    assert Split(s, sep) == [s[..i]] + Split(s[i + |sep|..], sep);
  }

  /** A prefix of a string free of `pat` is free of it too. */
  lemma PrefixAvoids(s: string, n: nat, pat: string)
    requires n <= |s| && !Contains(s, pat)
    ensures !Contains(s[..n], pat)
  {
    forall j: nat | OccursAt(s[..n], pat, j) ensures false {
      OccursInPrefix(s, pat, n, j);
    }
  }

  /** A character absent from both parts is absent from their concatenation. */
  lemma CharFreeConcat(a: string, b: string, c: char)
    requires !Contains(a, [c]) && !Contains(b, [c])
    ensures !Contains(a + b, [c])
  {
    forall j: nat ensures !OccursAt(a + b, [c], j) {
      if j < |a| {
        assert !OccursAt(a, [c], j);
        assert a[j..j + 1] == [a[j]] && (a + b)[j..j + 1] == [(a + b)[j]];
        assert (a + b)[j] == a[j];
      } else if j < |a + b| {
        assert !OccursAt(b, [c], j - |a|);
        assert b[j - |a|..j - |a| + 1] == [b[j - |a|]] && (a + b)[j..j + 1] == [(a + b)[j]];
        assert (a + b)[j] == b[j - |a|];
      }
    }
  }
}
