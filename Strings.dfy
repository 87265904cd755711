/**
 * The few java.lang.String operations the shell relies on, on `seq<char>`:
 * trim, startsWith, endsWith, a one-character replaceAll and the
 * left-to-right, non-overlapping `replace(target, "")`.
 */
module Strings {

  /** String.trim removes every leading and trailing character up to U+0020. */
  predicate IsTrimmable(c: char) {
    c <= ' '
  }

  function TrimStart(s: string): (r: string)
    ensures |r| <= |s| && r == s[|s| - |r|..]
    ensures r == [] || !IsTrimmable(r[0])
    ensures forall i :: 0 <= i < |s| - |r| ==> IsTrimmable(s[i])
  {
    if s == [] || !IsTrimmable(s[0]) then s else TrimStart(s[1..])
  }

  function TrimEnd(s: string): (r: string)
    ensures |r| <= |s| && r == s[..|r|]
    ensures r == [] || !IsTrimmable(r[|r| - 1])
    ensures forall i :: |r| <= i < |s| ==> IsTrimmable(s[i])
  {
    if s == [] || !IsTrimmable(s[|s| - 1]) then s else TrimEnd(s[..|s| - 1])
  }

  /** Java's String.trim. */
  function Trim(s: string): (r: string)
    ensures |r| <= |s|
    ensures r == [] || (!IsTrimmable(r[0]) && !IsTrimmable(r[|r| - 1]))
  {
    TrimEnd(TrimStart(s))
  }

  /** A string with no trimmable character at either end is its own trim. */
  lemma TrimKeeps(s: string)
    requires s == [] || (!IsTrimmable(s[0]) && !IsTrimmable(s[|s| - 1]))
    ensures Trim(s) == s
  {
    assert TrimStart(s) == s;
  }

  /** `r` is the slice of `s` from k, and everything of `s` around it is trimmable. */
  predicate SliceAmidTrimmable(s: string, r: string, k: int) {
    && 0 <= k <= |s| - |r|
    && r == s[k..k + |r|]
    && (forall i :: 0 <= i < k ==> IsTrimmable(s[i]))
    && (forall i :: k + |r| <= i < |s| ==> IsTrimmable(s[i]))
  }

  /** Trim removes a run of trimmable characters at each end, and nothing else. */
  lemma TrimMeaning(s: string)
    ensures exists k :: SliceAmidTrimmable(s, Trim(s), k)
  {
    var t := TrimStart(s);
    var k := |s| - |t|;
    var r := Trim(s);
    assert r == t[..|r|];
    assert t[..|r|] == s[k..k + |r|];
    forall i | k + |r| <= i < |s| ensures IsTrimmable(s[i]) {
      assert s[i] == t[i - k];
    }
    assert SliceAmidTrimmable(s, r, k);
  }

  /** A trimmed string is left as it is by a second trim. */
  lemma TrimIdempotent(s: string)
    ensures Trim(Trim(s)) == Trim(s)
  {
    var r := Trim(s);
    assert TrimStart(r) == r;
    assert TrimEnd(r) == r;
  }

  predicate StartsWith(s: string, prefix: string) {
    |prefix| <= |s| && s[..|prefix|] == prefix
  }

  predicate EndsWith(s: string, suffix: string) {
    |suffix| <= |s| && s[|s| - |suffix|..] == suffix
  }

  /** The index of the first `c` in `s`, or the length of `s` when there is none. */
  function FirstIndexOf(s: string, c: char): (k: nat)
    ensures k <= |s|
    ensures forall i :: 0 <= i < k ==> s[i] != c
    ensures k < |s| ==> s[k] == c
  {
    if s == [] || s[0] == c then 0 else 1 + FirstIndexOf(s[1..], c)
  }

  /** `pattern` occurs in `s` starting at index `i`. */
  predicate OccursAt(s: string, pattern: string, i: int) {
    0 <= i && i + |pattern| <= |s| && s[i..i + |pattern|] == pattern
  }

  predicate Occurs(s: string, pattern: string) {
    exists i :: 0 <= i <= |s| && OccursAt(s, pattern, i)
  }

  /** `replaceAll` of a single literal character by another one. */
  function ReplaceChar(s: string, from: char, to: char): (r: string)
    ensures |r| == |s|
    ensures forall i :: 0 <= i < |s| ==> r[i] == (if s[i] == from then to else s[i])
  {
    if s == [] then [] else [if s[0] == from then to else s[0]] + ReplaceChar(s[1..], from, to)
  }

  /**
   * Java's `s.replace(pattern, "")`: scans from the left, removes each
   * occurrence it meets and resumes the scan right after it.
   */
  function RemoveAll(s: string, pattern: string): (r: string)
    requires |pattern| > 0
    ensures |r| <= |s|
    decreases |s|
  {
    if |s| < |pattern| then s
    else if s[..|pattern|] == pattern then RemoveAll(s[|pattern|..], pattern)
    else [s[0]] + RemoveAll(s[1..], pattern)
  }

  /** A string in which the pattern does not occur is returned unchanged. */
  lemma {:induction false} RemoveAllAbsent(s: string, pattern: string)
    requires |pattern| > 0 && !Occurs(s, pattern)
    ensures RemoveAll(s, pattern) == s
    decreases |s|
  {
    if |s| >= |pattern| {
      assert !OccursAt(s, pattern, 0);
      assert s[..|pattern|] != pattern;
      forall i | 0 <= i && i + |pattern| <= |s| - 1 ensures !OccursAt(s[1..], pattern, i) {
        assert s[1..][i..i + |pattern|] == s[i + 1..i + 1 + |pattern|];
        assert !OccursAt(s, pattern, i + 1);
      }
      RemoveAllAbsent(s[1..], pattern);
    }
  }

  /**
   * A pattern whose first character does not recur in it (".class" is one)
   * cannot overlap itself, so in `a + pattern + b` the copy between them is
   * removed and `a` and `b` are treated as if they stood alone.
   */
  lemma {:induction false} RemoveAllAround(a: string, pattern: string, b: string)
    requires |pattern| > 0
    requires forall i :: 1 <= i < |pattern| ==> pattern[i] != pattern[0]
    ensures RemoveAll(a + pattern + b, pattern) == RemoveAll(a, pattern) + RemoveAll(b, pattern)
    decreases |a|
  {
    var n := |pattern|;
    if a == [] {
      var s := a + pattern + b;
      assert s == pattern + b;
      assert s[..n] == pattern && s[n..] == b;
      RemoveAllHit(s, pattern);
    } else if |a| >= n && a[..n] == pattern {
      RemoveAllAround(a[n..], pattern, b);
      AroundAtPattern(a, pattern, b);
    } else {
      RemoveAllAround(a[1..], pattern, b);
      AroundPastFirst(a, pattern, b);
    }
  }

  /** The case of RemoveAllAround where `a` starts with the pattern, given the case for the rest of `a`. */
  lemma AroundAtPattern(a: string, pattern: string, b: string)
    requires 0 < |pattern| <= |a| && a[..|pattern|] == pattern
    requires RemoveAll(a[|pattern|..] + pattern + b, pattern) == RemoveAll(a[|pattern|..], pattern) + RemoveAll(b, pattern)
    ensures RemoveAll(a + pattern + b, pattern) == RemoveAll(a, pattern) + RemoveAll(b, pattern)
  {
    var s := a + pattern + b;
    var n := |pattern|;
    calc {
      RemoveAll(s, pattern);
      { JoinSplitAt(a, pattern, b, n); RemoveAllHit(s, pattern); }
      RemoveAll(a[n..] + pattern + b, pattern);
      RemoveAll(a[n..], pattern) + RemoveAll(b, pattern);
      { RemoveAllHit(a, pattern); }
      RemoveAll(a, pattern) + RemoveAll(b, pattern);
    }
  }

  /** Cutting `a + pattern + b` inside `a`. */
  lemma JoinSplitAt(a: string, pattern: string, b: string, n: nat)
    requires n <= |a|
    ensures (a + pattern + b)[..n] == a[..n] && (a + pattern + b)[n..] == a[n..] + pattern + b
  {
  }

  /** The scan drops the pattern at the start of a text. */
  lemma RemoveAllHit(s: string, pattern: string)
    requires 0 < |pattern| <= |s| && s[..|pattern|] == pattern
    ensures RemoveAll(s, pattern) == RemoveAll(s[|pattern|..], pattern)
  {
  }

  /** The case of RemoveAllAround where `a` does not start with the pattern, given the case for `a[1..]`. */
  lemma AroundPastFirst(a: string, pattern: string, b: string)
    requires |pattern| > 0 && a != [] && !(|a| >= |pattern| && a[..|pattern|] == pattern)
    requires forall i :: 1 <= i < |pattern| ==> pattern[i] != pattern[0]
    requires RemoveAll(a[1..] + pattern + b, pattern) == RemoveAll(a[1..], pattern) + RemoveAll(b, pattern)
    ensures RemoveAll(a + pattern + b, pattern) == RemoveAll(a, pattern) + RemoveAll(b, pattern)
  {
    var s := a + pattern + b;
    calc {
      RemoveAll(s, pattern);
      { WindowNotPattern(a, pattern, b); RemoveAllMiss(s, pattern); }
      [s[0]] + RemoveAll(s[1..], pattern);
      { JoinPastFirst(a, pattern, b); }
      [a[0]] + RemoveAll(a[1..] + pattern + b, pattern);
      [a[0]] + (RemoveAll(a[1..], pattern) + RemoveAll(b, pattern));
      ([a[0]] + RemoveAll(a[1..], pattern)) + RemoveAll(b, pattern);
      { RemoveAllHead(a, pattern); }
      RemoveAll(a, pattern) + RemoveAll(b, pattern);
    }
  }

  /**
   * `a + pattern + b` does not start with the pattern when `a` does not:
   * for a shorter `a` it would make pattern[|a|] equal to pattern[0].
   */
  lemma WindowNotPattern(a: string, pattern: string, b: string)
    requires |pattern| > 0 && a != [] && !(|a| >= |pattern| && a[..|pattern|] == pattern)
    requires forall i :: 1 <= i < |pattern| ==> pattern[i] != pattern[0]
    ensures |a + pattern + b| >= |pattern| && (a + pattern + b)[..|pattern|] != pattern
  {
    var s := a + pattern + b;
    var n := |pattern|;
    if |a| >= n {
      assert s[..n] == a[..n];
    } else {
      assert s[..n][|a|] == pattern[0];
    }
  }

  /** Dropping the first character of `a + pattern + b` drops it from `a`. */
  lemma JoinPastFirst(a: string, pattern: string, b: string)
    requires a != []
    ensures (a + pattern + b)[0] == a[0] && (a + pattern + b)[1..] == a[1..] + pattern + b
  {
  }

  /** The scan keeps the first character of a text that does not start with the pattern. */
  lemma RemoveAllMiss(s: string, pattern: string)
    requires 0 < |pattern| <= |s| && s[..|pattern|] != pattern
    ensures RemoveAll(s, pattern) == [s[0]] + RemoveAll(s[1..], pattern)
  {
  }

  /** A text that does not start with the pattern keeps its first character. */
  lemma RemoveAllHead(a: string, pattern: string)
    requires |pattern| > 0 && a != [] && !(|a| >= |pattern| && a[..|pattern|] == pattern)
    requires forall i :: 1 <= i < |pattern| ==> pattern[i] != pattern[0]
    ensures RemoveAll(a, pattern) == [a[0]] + RemoveAll(a[1..], pattern)
  {
    if |a| < |pattern| {
      assert RemoveAll(a[1..], pattern) == a[1..];
      assert [a[0]] + a[1..] == a;
    }
  }

  /** The chunks, with `sep` between each two of them. */
  function JoinWith(chunks: seq<string>, sep: string): string
    requires |chunks| > 0
  {
    if |chunks| == 1 then chunks[0] else chunks[0] + sep + JoinWith(chunks[1..], sep)
  }

  /** The chunks, one after the other. */
  function Concat(chunks: seq<string>): string {
    if chunks == [] then [] else chunks[0] + Concat(chunks[1..])
  }

  /**
   * What `replace(pattern, "")` leaves of a text cut by the occurrences of
   * a self-overlap-free pattern into chunks free of it: the chunks, in
   * order, and nothing else.
   */
  lemma {:induction false} RemoveAllJoin(chunks: seq<string>, pattern: string)
    requires |chunks| > 0 && |pattern| > 0
    requires forall i :: 1 <= i < |pattern| ==> pattern[i] != pattern[0]
    requires forall i :: 0 <= i < |chunks| ==> !Occurs(chunks[i], pattern)
    ensures RemoveAll(JoinWith(chunks, pattern), pattern) == Concat(chunks)
  {
    if |chunks| == 1 {
      RemoveAllAbsent(chunks[0], pattern);
      assert Concat(chunks) == chunks[0] + Concat([]);
    } else {
      var rest := chunks[1..];
      assert forall i :: 0 <= i < |rest| ==> rest[i] == chunks[i + 1];
      RemoveAllJoin(rest, pattern);
      RemoveAllAround(chunks[0], pattern, JoinWith(rest, pattern));
      RemoveAllAbsent(chunks[0], pattern);
    }
  }
}
