/**
 * The parts of Go's `strings` package (and of the byte searches behind
 * `net.SplitHostPort`) that the server relies on, over `seq<char>`.
 */
module GoStrings {

  /** `sep` occurs in `s` at index `j`. */
  predicate OccursAt(s: string, sep: string, j: int) {
    0 <= j && j + |sep| <= |s| && s[j..j + |sep|] == sep
  }

  /** Go's `strings.Contains`. */
  predicate Contains(s: string, sub: string) {
    exists j | 0 <= j <= |s| - |sub| :: OccursAt(s, sub, j)
  }

  /** `p` is the text of `v` before the first occurrence of `sep`, or all of `v` when `sep` does not occur. */
  ghost predicate BeforeFirst(p: string, v: string, sep: string) {
    && p <= v
    && (forall j :: 0 <= j < |p| ==> !OccursAt(v, sep, j))
    && (|p| < |v| ==> OccursAt(v, sep, |p|))
  }

  /** The first index at or after `k` where `c` occurs in `s`, or -1. */
  function IndexByteFrom(s: string, c: char, k: nat): (r: int)
    requires k <= |s|
    ensures r == -1 || (k <= r < |s| && s[r] == c)
    ensures forall j :: k <= j < |s| && (r < 0 || j < r) ==> s[j] != c
    decreases |s| - k
  {
    if k == |s| then -1
    else if s[k] == c then k
    else IndexByteFrom(s, c, k + 1)
  }

  /** Go's `strings.IndexByte`: the first index of `c` in `s`, or -1. */
  function IndexByte(s: string, c: char): (r: int)
    ensures -1 <= r < |s|
    ensures r >= 0 ==> s[r] == c && forall j :: 0 <= j < r ==> s[j] != c
    ensures r < 0 <==> c !in s
  {
    IndexByteFrom(s, c, 0)
  }

  /** The last index below `n` where `c` occurs in `s`, or -1. */
  function LastIndexByteBelow(s: string, c: char, n: nat): (r: int)
    requires n <= |s|
    ensures r == -1 || (0 <= r < n && s[r] == c)
    ensures forall j :: 0 <= j < n && r < j ==> s[j] != c
  {
    if n == 0 then -1
    else if s[n - 1] == c then n - 1
    else LastIndexByteBelow(s, c, n - 1)
  }

  /** Go's `strings.LastIndexByte`: the last index of `c` in `s`, or -1. */
  function LastIndexByte(s: string, c: char): (r: int)
    ensures -1 <= r < |s|
    ensures r >= 0 ==> s[r] == c && forall j :: r < j < |s| ==> s[j] != c
    ensures r < 0 <==> c !in s
  {
    LastIndexByteBelow(s, c, |s|)
  }

  /** The first index at or after `k` where `sep` occurs in `s`, or -1. */
  function IndexFrom(s: string, sep: string, k: nat): (r: int)
    requires |sep| > 0 && k <= |s|
    ensures r == -1 || (k <= r && OccursAt(s, sep, r))
    ensures forall j :: k <= j && (r < 0 || j < r) ==> !OccursAt(s, sep, j)
    decreases |s| - k
  {
    if k + |sep| > |s| then -1
    else if s[k..k + |sep|] == sep then k
    else IndexFrom(s, sep, k + 1)
  }

  /** Go's `strings.Index` for a non-empty separator: the first index of `sep` in `s`, or -1. */
  function Index(s: string, sep: string): (r: int)
    requires |sep| > 0
    ensures r == -1 || OccursAt(s, sep, r)
    ensures forall j :: 0 <= j && (r < 0 || j < r) ==> !OccursAt(s, sep, j)
    ensures r < 0 <==> !Contains(s, sep)
  {
    IndexFrom(s, sep, 0)
  }

  /**
   * Go's `strings.Split` for a non-empty separator: cut `s` at every
   * occurrence of `sep`, searching left to right. There is always at least
   * one part, so taking part 0 never fails.
   */
  function Split(s: string, sep: string): (parts: seq<string>)
    requires |sep| > 0
    ensures |parts| >= 1
    decreases |s|
  {
    var m := Index(s, sep);
    if m < 0 then [s] else [s[..m]] + Split(s[m + |sep|..], sep)
  }

  /** Go's `strings.Join`. */
  function Join(parts: seq<string>, sep: string): (joined: string) {
    if |parts| == 0 then ""
    else if |parts| == 1 then parts[0]
    else parts[0] + sep + Join(parts[1..], sep)
  }

  /** Joining the parts of a split with the same separator gives the text back. */
  lemma {:induction false} SplitJoin(s: string, sep: string)
    requires |sep| > 0
    ensures Join(Split(s, sep), sep) == s
    decreases |s|
  {
    var m := Index(s, sep);
    if m >= 0 {
      var rest := s[m + |sep|..];
      var tail := Split(rest, sep);
      SplitJoin(rest, sep);
      assert Split(s, sep) == [s[..m]] + tail;
      assert ([s[..m]] + tail)[1..] == tail;
      assert s == s[..m] + s[m..m + |sep|] + rest;
    }
  }

  /** An occurrence inside a prefix of `v` is an occurrence in `v` itself. */
  lemma OccursInPrefix(v: string, n: nat, sep: string, j: int)
    requires n <= |v| && OccursAt(v[..n], sep, j)
    ensures OccursAt(v, sep, j) && j + |sep| <= n
  {
    assert v[..n][j..j + |sep|] == v[j..j + |sep|];
  }

  /** The text before the first separator holds no separator. */
  lemma BeforeFirstExcludesSep(p: string, v: string, sep: string)
    requires |sep| > 0 && BeforeFirst(p, v, sep)
    ensures !Contains(p, sep)
  {
    if Contains(p, sep) {
      var j :| OccursAt(p, sep, j);
      assert p == v[..|p|];
      OccursInPrefix(v, |p|, sep, j);
      assert false;
    }
  }

  /** There is only one text before the first separator. */
  lemma BeforeFirstUnique(p: string, q: string, v: string, sep: string)
    requires BeforeFirst(p, v, sep) && BeforeFirst(q, v, sep)
    ensures p == q
  {
    assert p == v[..|p|] && q == v[..|q|];
  }

  /** Part 0 of a split is the text before the first separator. */
  lemma SplitFirst(s: string, sep: string)
    requires |sep| > 0
    ensures BeforeFirst(Split(s, sep)[0], s, sep)
    ensures !Contains(Split(s, sep)[0], sep)
  {
    var m := Index(s, sep);
    if m >= 0 {
      assert Split(s, sep)[0] == s[..m];
    }
    BeforeFirstExcludesSep(Split(s, sep)[0], s, sep);
  }

  /** No part of a split holds the separator. */
  lemma {:induction false} SplitPartsExcludeSep(s: string, sep: string)
    requires |sep| > 0
    ensures forall k :: 0 <= k < |Split(s, sep)| ==> !Contains(Split(s, sep)[k], sep)
    decreases |s|
  {
    var m := Index(s, sep);
    SplitFirst(s, sep);
    if m >= 0 {
      var rest := s[m + |sep|..];
      SplitPartsExcludeSep(rest, sep);
      assert Split(s, sep) == [s[..m]] + Split(rest, sep);
    }
  }

  /** A text that lacks the first character of `sub` does not contain `sub`. */
  lemma FirstCharAbsent(s: string, sub: string)
    requires |sub| > 0 && sub[0] !in s
    ensures !Contains(s, sub)
  {
    forall j | 0 <= j <= |s| - |sub| ensures !OccursAt(s, sub, j) {
      assert s[j..j + |sub|][0] == s[j];
    }
  }

  /** A text contains each of its prefixes. */
  lemma ContainsPrefix(t: string, rest: string)
    ensures Contains(t + rest, t)
  {
    assert (t + rest)[..|t|] == t;
    assert OccursAt(t + rest, t, 0);
  }

  /** Text put in front keeps an occurrence. */
  lemma ContainsRight(front: string, s: string, t: string)
    requires Contains(s, t)
    ensures Contains(front + s, t)
  {
    var j :| 0 <= j <= |s| - |t| && OccursAt(s, t, j);
    assert (front + s)[|front| + j..|front| + j + |t|] == s[j..j + |t|];
    assert OccursAt(front + s, t, |front| + j);
  }

  /** `pre + t + post` contains `t`. */
  lemma ContainsMiddle(pre: string, t: string, post: string)
    ensures Contains(pre + t + post, t)
  {
    ContainsPrefix(t, post);
    assert pre + t + post == pre + (t + post);
    ContainsRight(pre, t + post, t);
  }
}
