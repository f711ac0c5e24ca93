/**
 * Character classes and string primitives shared by the heuristics:
 * the ASCII reading of `\d`, `\s` and IGNORECASE, greedy character runs,
 * literal occurrences and Python's `str.replace`.
 */
module Strings {

  import opened Wrappers

  /** `\d`, read as the ASCII digits. */
  predicate IsDigit(c: char) {
    '0' <= c <= '9'
  }

  /** `\s`, read as ASCII whitespace: space, tab, newline, carriage return, form feed, vertical tab. */
  predicate IsSpace(c: char) {
    c == ' ' || c == '\t' || c == '\n' || c == '\r' || c == '\U{000B}' || c == '\U{000C}'
  }

  predicate IsUpper(c: char) {
    'A' <= c <= 'Z'
  }

  /** ASCII lower-casing: the folding IGNORECASE applies in this model. */
  function Lower(c: char): (r: char)
    ensures !IsUpper(r)
    ensures r == c || IsUpper(c)
    ensures IsUpper(c) ==> 'a' <= r <= 'z' && r as int - 'a' as int == c as int - 'A' as int
  {
    if IsUpper(c) then (c as int + 32) as char else c
  }

  /** Two characters that IGNORECASE treats as equal. */
  predicate SameIgnoringCase(a: char, b: char) {
    Lower(a) == Lower(b)
  }

  /** Every character of `s[i..j]` satisfies `f`. */
  predicate AllIn(s: string, i: nat, j: nat, f: char -> bool)
    requires i <= j <= |s|
  {
    forall k :: i <= k < j ==> f(s[k])
  }

  /** End of the longest run of `f`-characters that starts at `i` (a greedy `[...]*`). */
  function RunEnd(s: string, i: nat, f: char -> bool): (j: nat)
    requires i <= |s|
    ensures i <= j <= |s|
    ensures AllIn(s, i, j, f)
    ensures j == |s| || !f(s[j])
    decreases |s| - i
  {
    if i == |s| || !f(s[i]) then i else RunEnd(s, i + 1, f)
  }

  /** A run inside `s[lo..hi]` is the same run of the slice, shifted by `lo`. */
  lemma AllInSlice(s: string, i: nat, j: nat, lo: nat, hi: nat, f: char -> bool)
    requires lo <= i <= j <= hi <= |s|
    requires AllIn(s, i, j, f)
    ensures AllIn(s[lo..hi], i - lo, j - lo, f)
  {
    forall k | i - lo <= k < j - lo ensures f(s[lo..hi][k]) {
      assert s[lo..hi][k] == s[k + lo];
    }
  }

  /** Any run of `f`-characters from `i` ends no later than the greedy run does. */
  lemma {:induction false} RunEndCovers(s: string, i: nat, j: nat, f: char -> bool)
    requires i <= j <= |s|
    requires AllIn(s, i, j, f)
    ensures j <= RunEnd(s, i, f)
    decreases |s| - i
  {
    if i < j {
      RunEndCovers(s, i + 1, j, f);
    }
  }

  /** A run of `f`-characters followed by a non-`f` character (or the end) is the greedy run. */
  lemma RunEndIs(s: string, i: nat, j: nat, f: char -> bool)
    requires i <= j <= |s|
    requires AllIn(s, i, j, f)
    requires j == |s| || !f(s[j])
    ensures RunEnd(s, i, f) == j
  {
    RunEndCovers(s, i, j, f);
  }

  /** The literal `lit` occurs at position `i` of `s`, ignoring ASCII case. */
  predicate LiteralAt(s: string, i: nat, lit: string) {
    i + |lit| <= |s| && forall k :: 0 <= k < |lit| ==> SameIgnoringCase(s[i + k], lit[k])
  }

  /** The string `pat` occurs at position `i` of `s`, case-sensitively. */
  predicate OccursAt(s: string, pat: string, i: nat) {
    i + |pat| <= |s| && s[i..i + |pat|] == pat
  }

  ghost predicate Contains(s: string, pat: string) {
    exists i: nat :: OccursAt(s, pat, i)
  }

  predicate StartsWith(s: string, prefix: string) {
    |prefix| <= |s| && s[..|prefix|] == prefix
  }

  predicate EndsWith(s: string, suffix: string) {
    |suffix| <= |s| && s[|s| - |suffix|..] == suffix
  }

  /** Leftmost occurrence of `pat` in `s` at or after `from` (Python's `re.search` on a literal). */
  function FindFrom(s: string, pat: string, from: nat): (r: Option<nat>)
    ensures r.Some? ==> from <= r.value && OccursAt(s, pat, r.value)
    ensures r.Some? ==> forall j: nat :: from <= j < r.value ==> !OccursAt(s, pat, j)
    ensures r.None? ==> forall j: nat :: from <= j ==> !OccursAt(s, pat, j)
    decreases |s| - from
  {
    if from + |pat| > |s| then None
    else if OccursAt(s, pat, from) then Some(from)
    else FindFrom(s, pat, from + 1)
  }

  /** Python's `str.replace` with an empty pattern: `rep` before every character and at the end. */
  function Interleave(s: string, rep: string): (r: string)
    ensures |r| == |s| + (|s| + 1) * |rep|
  {
    if s == [] then rep else rep + [s[0]] + Interleave(s[1..], rep)
  }

  /**
   * Python's `str.replace(pat, rep)`: scanning left to right, every occurrence of
   * `pat` that does not overlap an earlier replaced one becomes `rep`.
   */
  function ReplaceAll(s: string, pat: string, rep: string): string
    decreases |s|
  {
    if |pat| == 0 then Interleave(s, rep)
    else if |s| == 0 then ""
    else if OccursAt(s, pat, 0) then rep + ReplaceAll(s[|pat|..], pat, rep)
    else [s[0]] + ReplaceAll(s[1..], pat, rep)
  }

  /** The characters of `rep` never occur in `pat`, so a replacement cannot start a new occurrence. */
  predicate Disjoint(pat: string, rep: string) {
    forall k :: 0 <= k < |rep| ==> rep[k] !in pat
  }

  /** Occurrences in the tail of a string are the occurrences in the string, shifted by one. */
  lemma OccursInTail(s: string, pat: string, i: nat)
    requires |s| > 0
    ensures OccursAt(s[1..], pat, i) <==> OccursAt(s, pat, i + 1)
  {
    if i + 1 + |pat| <= |s| {
      assert s[1..][i..i + |pat|] == s[i + 1..i + 1 + |pat|];
    }
  }

  /** Text without any occurrence of the pattern is returned unchanged. */
  lemma {:induction false} ReplaceAllIdentity(s: string, pat: string, rep: string)
    requires |pat| > 0
    requires forall i: nat :: !OccursAt(s, pat, i)
    ensures ReplaceAll(s, pat, rep) == s
    decreases |s|
  {
    if |s| > 0 {
      assert !OccursAt(s, pat, 0);
      forall i: nat ensures !OccursAt(s[1..], pat, i) {
        OccursInTail(s, pat, i);
      }
      ReplaceAllIdentity(s[1..], pat, rep);
    }
  }

  /** A text that does not start with the pattern keeps its first character. */
  lemma ReplaceAllSkip(s: string, pat: string, rep: string)
    requires |pat| > 0 && |s| > 0 && !OccursAt(s, pat, 0)
    ensures ReplaceAll(s, pat, rep) == [s[0]] + ReplaceAll(s[1..], pat, rep)
  {
  }

  /** A prefix in which no occurrence starts is copied unchanged. */
  lemma {:induction false} ReplaceAllKeepsClearPrefix(u: string, t: string, pat: string, rep: string)
    requires |pat| > 0
    requires forall j: nat :: j < |u| ==> !OccursAt(u + t, pat, j)
    ensures ReplaceAll(u + t, pat, rep) == u + ReplaceAll(t, pat, rep)
  {
    if u == [] {
      assert u + t == t;
    } else {
      var v := u[1..];
      var s := u + t;
      assert s[1..] == v + t && s[0] == u[0];
      assert !OccursAt(s, pat, 0);
      ReplaceAllSkip(s, pat, rep);
      forall j: nat | j < |v| ensures !OccursAt(v + t, pat, j) {
        OccursInTail(s, pat, j);
      }
      ReplaceAllKeepsClearPrefix(v, t, pat, rep);
      assert u == [u[0]] + v;
      Regroup(ReplaceAll(s, pat, rep), ReplaceAll(v + t, pat, rep), [u[0]], v, ReplaceAll(t, pat, rep));
    }
  }

  /** The text before the first occurrence is kept, the occurrence becomes `rep`, and the rest is processed the same way. */
  lemma ReplaceAllAtFirst(s: string, pat: string, rep: string, k: nat)
    requires |pat| > 0
    requires OccursAt(s, pat, k)
    requires forall j: nat :: j < k ==> !OccursAt(s, pat, j)
    ensures ReplaceAll(s, pat, rep) == s[..k] + rep + ReplaceAll(s[k + |pat|..], pat, rep)
  {
    var u, t := s[..k], s[k..];
    SplitAt(s, k, |pat|);
    forall j: nat | j < |u| ensures !OccursAt(u + t, pat, j) {
      assert !OccursAt(s, pat, j);
    }
    ReplaceAllKeepsClearPrefix(u, t, pat, rep);
    ReplaceAllHit(t, pat, rep);
    Regroup(ReplaceAll(s, pat, rep), ReplaceAll(t, pat, rep), u, rep, ReplaceAll(s[k + |pat|..], pat, rep));
  }

  /** Regrouping `a == x + (y + r)`; kept apart so that the terms it is applied to are not unfolded. */
  lemma Regroup(a: string, b: string, x: string, y: string, r: string)
    requires a == x + b && b == y + r
    ensures a == x + y + r
  {
  }

  /** The pieces of `s` around positions `k` and `k + n`. */
  lemma SplitAt(s: string, k: nat, n: nat)
    requires k + n <= |s|
    ensures s == s[..k] + s[k..]
    ensures s[k..][..n] == s[k..k + n] && s[k..][n..] == s[k + n..]
  {
  }

  /** A text that starts with the pattern starts with `rep`. */
  lemma ReplaceAllHit(s: string, pat: string, rep: string)
    requires |pat| > 0 && OccursAt(s, pat, 0)
    ensures ReplaceAll(s, pat, rep) == rep + ReplaceAll(s[|pat|..], pat, rep)
  {
  }

  /** Occurrences after a prefix `u` are the occurrences in the rest, shifted by `|u|`. */
  lemma OccursAfter(u: string, t: string, pat: string, i: nat)
    ensures OccursAt(u + t, pat, |u| + i) <==> OccursAt(t, pat, i)
  {
    if i + |pat| <= |t| {
      assert (u + t)[|u| + i..|u| + i + |pat|] == t[i..i + |pat|];
    }
  }

  /** A prefix of the result made of characters foreign to `rep` was copied unchanged from the input. */
  lemma {:induction false} ReplaceAllKeepsPrefix(s: string, pat: string, rep: string, m: nat)
    requires |pat| > 0 && |rep| > 0
    requires m <= |ReplaceAll(s, pat, rep)|
    requires forall j :: 0 <= j < m ==> ReplaceAll(s, pat, rep)[j] !in rep
    ensures m <= |s| && ReplaceAll(s, pat, rep)[..m] == s[..m]
    decreases |s|
  {
    var r := ReplaceAll(s, pat, rep);
    if m > 0 {
      assert r[0] !in rep;
      var t := ReplaceAll(s[1..], pat, rep);
      assert r == [s[0]] + t;
      forall j | 0 <= j < m - 1 ensures t[j] !in rep {
        assert t[j] == r[j + 1];
      }
      ReplaceAllKeepsPrefix(s[1..], pat, rep, m - 1);
      assert r[..m] == [s[0]] + t[..m - 1];
      assert s[..m] == [s[0]] + s[1..][..m - 1];
    }
  }

  /** When `rep` is non-empty and shares no character with `pat`, no occurrence of `pat` survives. */
  lemma {:induction false} ReplaceAllRemoves(s: string, pat: string, rep: string)
    requires |pat| > 0 && |rep| > 0
    requires Disjoint(pat, rep)
    ensures forall i: nat :: !OccursAt(ReplaceAll(s, pat, rep), pat, i)
    decreases |s|
  {
    var r := ReplaceAll(s, pat, rep);
    if |s| == 0 {
      assert r == "";
    } else if OccursAt(s, pat, 0) {
      var t := ReplaceAll(s[|pat|..], pat, rep);
      assert r == rep + t;
      ReplaceAllRemoves(s[|pat|..], pat, rep);
      forall i: nat ensures !OccursAt(r, pat, i) {
        if i < |rep| {
          assert r[i] == rep[i] && rep[i] !in pat;
        } else {
          OccursAfter(rep, t, pat, i - |rep|);
        }
      }
    } else {
      var t := ReplaceAll(s[1..], pat, rep);
      assert r == [s[0]] + t;
      ReplaceAllRemoves(s[1..], pat, rep);
      forall i: nat ensures !OccursAt(r, pat, i) {
        if i == 0 {
          var m := |pat| - 1;
          if m <= |t| && forall j :: 0 <= j < m ==> t[j] !in rep {
            ReplaceAllKeepsPrefix(s[1..], pat, rep, m);
            assert r[..m + 1] == [s[0]] + t[..m];
            assert s[..m + 1] == [s[0]] + s[1..][..m];
          } else if m <= |t| {
            var j :| 0 <= j < m && t[j] in rep;
            assert r[j + 1] == t[j] && t[j] !in pat;
          }
        } else {
          OccursAfter([s[0]], t, pat, i - 1);
        }
      }
    }
  }

  /** The concatenation of a sequence of strings, in order. */
  function Concat(xs: seq<string>): string {
    if xs == [] then "" else xs[0] + Concat(xs[1..])
  }

  lemma {:induction false} ConcatAppend(xs: seq<string>, ys: seq<string>)
    ensures Concat(xs + ys) == Concat(xs) + Concat(ys)
  {
    if xs == [] {
      assert xs + ys == ys;
    } else {
      assert (xs + ys)[1..] == xs[1..] + ys;
      ConcatAppend(xs[1..], ys);
    }
  }
}
