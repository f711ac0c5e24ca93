/**
 * Identifier heuristics: mojibake repair (`standardize_text`), the three
 * identifier patterns and their `findall` passes (`extract_article_ids`),
 * and the removal of trailing garbage from a capture (`cleanup_article_id`).
 *
 * Each regular expression is a hand-written matcher. For every one of them a
 * declarative predicate says which spans of the text the expression matches;
 * the matcher is proved to return such a span (with the greedy, longest
 * capture) and, in `HeuristicsProperties`, to find one whenever one exists.
 */
module Heuristics {

  import opened Wrappers
  import opened Strings

  // ---------------------------------------------------------------------------
  // Character classes.

  predicate IsLetter(c: char) {
    'a' <= c <= 'z' || 'A' <= c <= 'Z'
  }

  /** `[a-z0-9-._;()/]` under IGNORECASE. */
  predicate IsDoiChar(c: char) {
    IsLetter(c) || IsDigit(c) || c == '-' || c == '.' || c == '_' || c == ';' || c == '(' || c == ')' || c == '/'
  }

  // ---------------------------------------------------------------------------
  // `\d+\.\d+/[a-z0-9-._;()/]+`: the captured part of both DOI patterns.

  /** The suffix pattern matches `s[i..e]`, with its dot at `a` and its slash at `b`. */
  predicate DoiSuffixSpan(s: string, i: nat, a: nat, b: nat, e: nat) {
    && i < a && a + 1 < b && b + 1 < e <= |s|
    && AllIn(s, i, a, IsDigit) && s[a] == '.'
    && AllIn(s, a + 1, b, IsDigit) && s[b] == '/'
    && AllIn(s, b + 1, e, IsDoiChar)
  }

  /** The suffix pattern matches `s[i..e]`. */
  ghost predicate DoiSuffixMatches(s: string, i: nat, e: nat) {
    exists a: nat, b: nat :: DoiSuffixSpan(s, i, a, b, e)
  }

  /** The end of the greedy match of the suffix pattern at `i`, if it matches there. */
  function DoiSuffixEnd(s: string, i: nat): (r: Option<nat>)
    requires i <= |s|
    ensures r.Some? ==> DoiSuffixMatches(s, i, r.value)
    ensures r.Some? ==> r.value == |s| || !IsDoiChar(s[r.value])
  {
    var a := RunEnd(s, i, IsDigit);
    if a == i || a == |s| || s[a] != '.' then None
    else
      var b := RunEnd(s, a + 1, IsDigit);
      if b == a + 1 || b == |s| || s[b] != '/' then None
      else
        var e := RunEnd(s, b + 1, IsDoiChar);
        if e == b + 1 then None
        else
          assert DoiSuffixSpan(s, i, a, b, e);
          Some(e)
  }

  // ---------------------------------------------------------------------------
  // The three identifier patterns.

  /** One match: the whole match is `s[start..end]`, its capture group `s[capStart..end]`. */
  datatype Span = Span(start: nat, capStart: nat, end: nat)

  datatype Pattern =
    | DoiPattern      // doi[:/]?\s*(\d+\.\d+/[a-z0-9-._;()/]+)
    | DoiUrlPattern   // doi.org/(\d+\.\d+/[a-z0-9-._;()/]+)
    | ArxivPattern    // arxiv:(\d+\.\d+)

  /** `[:/]?\s*` matches `s[i..c]`. */
  predicate Separator(s: string, i: nat, c: nat) {
    || (i <= c <= |s| && AllIn(s, i, c, IsSpace))
    || (i < c <= |s| && (s[i] == ':' || s[i] == '/') && AllIn(s, i + 1, c, IsSpace))
  }

  /** `doi[:/]?\s*(SUFFIX)` matches `s[i..e]` with the group at `s[c..e]`. */
  ghost predicate DoiSpan(s: string, i: nat, c: nat, e: nat) {
    LiteralAt(s, i, "doi") && Separator(s, i + 3, c) && DoiSuffixMatches(s, c, e)
  }

  /** `doi.org/(SUFFIX)` matches `s[i..e]` (the `.` is any character but a newline). */
  ghost predicate DoiUrlSpan(s: string, i: nat, e: nat) {
    && LiteralAt(s, i, "doi") && i + 3 < |s| && s[i + 3] != '\n' && LiteralAt(s, i + 4, "org/")
    && DoiSuffixMatches(s, i + 8, e)
  }

  /** `arxiv:(\d+\.\d+)` matches `s[i..e]`, with the dot at `a`. */
  predicate ArxivSpan(s: string, i: nat, a: nat, e: nat) {
    && LiteralAt(s, i, "arxiv:")
    && i + 6 < a && a + 1 < e <= |s|
    && AllIn(s, i + 6, a, IsDigit) && s[a] == '.' && AllIn(s, a + 1, e, IsDigit)
  }

  /** Where the capture group of a match of `p` at `i` begins. */
  function CaptureOffset(p: Pattern): nat {
    match p
    case DoiPattern => 3
    case DoiUrlPattern => 8
    case ArxivPattern => 6
  }

  /** `p` matches `s[i..e]` with its capture group at `s[c..e]`. */
  ghost predicate Matches(p: Pattern, s: string, i: nat, c: nat, e: nat) {
    match p
    case DoiPattern => DoiSpan(s, i, c, e)
    case DoiUrlPattern => c == i + 8 && DoiUrlSpan(s, i, e)
    case ArxivPattern => c == i + 6 && exists a: nat :: ArxivSpan(s, i, a, e)
  }

  /** The last repetition of `p` (a DOI character, or a digit for arXiv) cannot continue at `e`. */
  predicate StopsAt(p: Pattern, s: string, e: nat)
    requires e <= |s|
  {
    e == |s| || !(if p == ArxivPattern then IsDigit(s[e]) else IsDoiChar(s[e]))
  }

  /** `m` is a match of `p` in `s` whose capture cannot be extended: the greedy choice. */
  ghost predicate IsMatch(p: Pattern, s: string, m: Span) {
    Matches(p, s, m.start, m.capStart, m.end) && m.end <= |s| && StopsAt(p, s, m.end)
  }

  /** The match Python's `re` finds for `p` when it tries position `i`. */
  function MatchAt(p: Pattern, s: string, i: nat): (r: Option<Span>)
    ensures r.Some? ==> r.value.start == i && IsMatch(p, s, r.value)
    ensures r.Some? ==> i + CaptureOffset(p) <= r.value.capStart < r.value.end <= |s|
  {
    match p
    case DoiPattern =>
      if !LiteralAt(s, i, "doi") then None
      else
        var q := if i + 3 < |s| && (s[i + 3] == ':' || s[i + 3] == '/') then i + 4 else i + 3;
        var c := RunEnd(s, q, IsSpace);
        assert Separator(s, i + 3, c);
        (match DoiSuffixEnd(s, c)
         case None => None
         case Some(e) => Some(Span(i, c, e)))
    case DoiUrlPattern =>
      if !(LiteralAt(s, i, "doi") && i + 3 < |s| && s[i + 3] != '\n' && LiteralAt(s, i + 4, "org/")) then None
      else
        (match DoiSuffixEnd(s, i + 8)
         case None => None
         case Some(e) => Some(Span(i, i + 8, e)))
    case ArxivPattern =>
      if !LiteralAt(s, i, "arxiv:") then None
      else
        var a := RunEnd(s, i + 6, IsDigit);
        if a == i + 6 || a == |s| || s[a] != '.' then None
        else
          var e := RunEnd(s, a + 1, IsDigit);
          if e == a + 1 then None
          else
            assert ArxivSpan(s, i, a, e);
            Some(Span(i, i + 6, e))
  }

  /** A matcher over a text of length `n`: a match tried at `i` starts at `i` and ends after it, within the text. */
  ghost predicate Advances(matchAt: nat -> Option<Span>, n: nat) {
    forall i: nat :: matchAt(i).Some? ==> matchAt(i).value.start == i < matchAt(i).value.end <= n
  }

  /**
   * The scanning loop of `re.findall` for any matcher: try every position from
   * `from` on, and after a match resume where it ended.
   */
  function FindAllWith(matchAt: nat -> Option<Span>, n: nat, from: nat): seq<Span>
    requires Advances(matchAt, n)
    decreases n + 1 - from
  {
    if from > n then []
    else
      match matchAt(from)
      case None => FindAllWith(matchAt, n, from + 1)
      case Some(m) => [m] + FindAllWith(matchAt, n, m.end)
  }

  /** Position `q` is the start of, or lies inside, one of the matches in `ms`. */
  ghost predicate Covered(ms: seq<Span>, q: nat) {
    exists k :: 0 <= k < |ms| && ms[k].start <= q < ms[k].end
  }

  /** Every match found is the matcher's match at its start, at or after `from`, and the matches do not overlap. */
  lemma {:induction false} FindAllWithMatches(matchAt: nat -> Option<Span>, n: nat, from: nat)
    requires Advances(matchAt, n)
    ensures forall k :: 0 <= k < |FindAllWith(matchAt, n, from)| ==>
      var m := FindAllWith(matchAt, n, from)[k]; matchAt(m.start) == Some(m) && from <= m.start
    ensures forall j, k :: 0 <= j < k < |FindAllWith(matchAt, n, from)| ==>
      FindAllWith(matchAt, n, from)[j].end <= FindAllWith(matchAt, n, from)[k].start
    decreases n + 1 - from
  {
    if from <= n {
      if matchAt(from).None? {
        FindAllWithMatches(matchAt, n, from + 1);
      } else {
        var m := matchAt(from).value;
        var rest := FindAllWith(matchAt, n, m.end);
        FindAllWithMatches(matchAt, n, m.end);
        var r := [m] + rest;
        assert FindAllWith(matchAt, n, from) == r;
        forall k | 0 <= k < |r| ensures matchAt(r[k].start) == Some(r[k]) && from <= r[k].start {
          if k > 0 {
            assert r[k] == rest[k - 1];
          }
        }
        forall j, k | 0 <= j < k < |r| ensures r[j].end <= r[k].start {
          assert r[k] == rest[k - 1];
          if j > 0 {
            assert r[j] == rest[j - 1];
          }
        }
      }
    }
  }

  /** No match is skipped: a position where the matcher matches starts a found match or lies inside one. */
  lemma {:induction false} FindAllWithLeftmost(matchAt: nat -> Option<Span>, n: nat, from: nat, q: nat)
    requires Advances(matchAt, n)
    requires from <= q && matchAt(q).Some?
    ensures Covered(FindAllWith(matchAt, n, from), q)
    decreases n + 1 - from
  {
    var r := FindAllWith(matchAt, n, from);
    if matchAt(from).None? {
      assert q != from;
      FindAllWithLeftmost(matchAt, n, from + 1, q);
    } else {
      var m := matchAt(from).value;
      var rest := FindAllWith(matchAt, n, m.end);
      assert r == [m] + rest;
      if q < m.end {
        assert r[0] == m;
      } else {
        FindAllWithLeftmost(matchAt, n, m.end, q);
        var k :| 0 <= k < |rest| && rest[k].start <= q < rest[k].end;
        assert r[k + 1] == rest[k];
      }
    }
  }

  /** The first match found is the leftmost position where the matcher matches; the scan resumes at its end. */
  lemma {:induction false} FindAllWithFirst(matchAt: nat -> Option<Span>, n: nat, from: nat, q: nat)
    requires Advances(matchAt, n)
    requires from <= q && matchAt(q).Some?
    requires forall j: nat :: from <= j < q ==> matchAt(j).None?
    ensures |FindAllWith(matchAt, n, from)| > 0 && FindAllWith(matchAt, n, from)[0] == matchAt(q).value
    ensures FindAllWith(matchAt, n, from) == [matchAt(q).value] + FindAllWith(matchAt, n, matchAt(q).value.end)
    decreases q - from
  {
    if from < q {
      assert matchAt(from).None?;
      FindAllWithFirst(matchAt, n, from + 1, q);
    }
  }

  /** The matches of the three patterns advance through the text. */
  lemma MatchAtAdvances(p: Pattern, s: string)
    ensures Advances((i: nat) => MatchAt(p, s, i), |s|)
  {
  }

  /** `re.findall` for `p`, scanning `s` from position `from`. */
  function FindAll(p: Pattern, s: string, from: nat): seq<Span> {
    MatchAtAdvances(p, s);
    FindAllWith((i: nat) => MatchAt(p, s, i), |s|, from)
  }

  /** Every match `re.findall` reports is the match of `p` at its start, and the matches do not overlap. */
  lemma FindAllMatches(p: Pattern, s: string, from: nat)
    ensures forall k :: 0 <= k < |FindAll(p, s, from)| ==>
      var m := FindAll(p, s, from)[k]; MatchAt(p, s, m.start) == Some(m) && from <= m.start
    ensures forall j, k :: 0 <= j < k < |FindAll(p, s, from)| ==>
      FindAll(p, s, from)[j].end <= FindAll(p, s, from)[k].start
  {
    MatchAtAdvances(p, s);
    FindAllWithMatches((i: nat) => MatchAt(p, s, i), |s|, from);
  }

  /** `re.findall` skips no match of `p`: each one starts a reported match or lies inside one. */
  lemma FindAllLeftmost(p: Pattern, s: string, from: nat, q: nat)
    requires from <= q && MatchAt(p, s, q).Some?
    ensures Covered(FindAll(p, s, from), q)
  {
    MatchAtAdvances(p, s);
    FindAllWithLeftmost((i: nat) => MatchAt(p, s, i), |s|, from, q);
  }

  /** The first match `re.findall` reports for `p` is the leftmost position where `p` matches; the search resumes at its end. */
  lemma FindAllFirst(p: Pattern, s: string, from: nat, q: nat)
    requires from <= q && MatchAt(p, s, q).Some?
    requires forall j: nat :: from <= j < q ==> MatchAt(p, s, j).None?
    ensures |FindAll(p, s, from)| > 0 && FindAll(p, s, from)[0] == MatchAt(p, s, q).value
    ensures FindAll(p, s, from) == [MatchAt(p, s, q).value] + FindAll(p, s, MatchAt(p, s, q).value.end)
  {
    MatchAtAdvances(p, s);
    FindAllWithFirst((i: nat) => MatchAt(p, s, i), |s|, from, q);
  }

  /** A search that starts at the end of the text finds nothing. */
  lemma FindAllAtEnd(p: Pattern, s: string)
    ensures FindAll(p, s, |s|) == []
  {
    MatchAtAdvances(p, s);
    var matchAt := (i: nat) => MatchAt(p, s, i);
    assert matchAt(|s|).None?;
    assert FindAllWith(matchAt, |s|, |s|) == FindAllWith(matchAt, |s|, |s| + 1) == [];
  }

  /** The text of the capture group of a match. */
  function Capture(s: string, m: Span): string
    requires m.capStart <= m.end <= |s|
  {
    s[m.capStart..m.end]
  }

  /** What `re.findall` returns for `p`: the capture group of every match, left to right. */
  function Captures(p: Pattern, s: string): (r: seq<string>)
  {
    var ms := FindAll(p, s, 0);
    FindAllMatches(p, s, 0);
    seq(|ms|, k requires 0 <= k < |ms| => Capture(s, ms[k]))
  }

  // ---------------------------------------------------------------------------
  // `cleanup_article_id`: garbage anchored at the end of a capture.

  const PublishedOnline: string := ";publishedonline"
  const AvailableOnline: string := "availableonlineathttp"

  datatype Garbage =
    | TrailingDot            // \.$
    | PublishedOnlineTail    // ;publishedonline.*$
    | AvailableOnlineTail    // availableonlineathttp$

  /** `DOI_GARBAGE_REGEXES`, in order. */
  const DoiGarbage: seq<Garbage> := [TrailingDot, PublishedOnlineTail, AvailableOnlineTail]

  /** `re.search(garbage, s).span()`: the first match of the garbage pattern, case-sensitively. */
  function SearchGarbage(g: Garbage, s: string): (r: Option<(nat, nat)>)
    ensures r.Some? ==> r.value.0 < r.value.1 == |s|
    ensures g == TrailingDot ==> (r.Some? <==> EndsWith(s, ".")) && (r.Some? ==> r.value.0 == |s| - 1)
    ensures g == PublishedOnlineTail ==> (r.Some? <==> Contains(s, PublishedOnline))
    ensures g == PublishedOnlineTail && r.Some? ==>
      OccursAt(s, PublishedOnline, r.value.0) && forall j: nat :: j < r.value.0 ==> !OccursAt(s, PublishedOnline, j)
    ensures g == AvailableOnlineTail ==> (r.Some? <==> EndsWith(s, AvailableOnline))
    ensures g == AvailableOnlineTail && r.Some? ==> r.value.0 == |s| - |AvailableOnline|
  {
    match g
    case TrailingDot =>
      if |s| > 0 && s[|s| - 1] == '.' then Some((|s| - 1, |s|)) else None
    case PublishedOnlineTail =>
      (match FindFrom(s, PublishedOnline, 0)
       case Some(i) => Some((i, |s|))
       case None => None)
    case AvailableOnlineTail =>
      if EndsWith(s, AvailableOnline) then Some((|s| - |AvailableOnline|, |s|)) else None
  }

  /** `article_id[:beg] + article_id[end:]` for the span found, if any. */
  function Excise(s: string, span: Option<(nat, nat)>): string
    requires span.Some? ==> span.value.0 <= span.value.1 <= |s|
  {
    if span.Some? then s[..span.value.0] + s[span.value.1..] else s
  }

  /** One pattern's pass: its first match cut out. The result is a prefix, strictly shorter exactly when the pattern matched. */
  function Cut(g: Garbage, s: string): (r: string)
    ensures |r| <= |s| && r == s[..|r|]
    ensures SearchGarbage(g, s).Some? ==> |r| < |s|
    ensures SearchGarbage(g, s).None? ==> r == s
  {
    Excise(s, SearchGarbage(g, s))
  }

  /** The loop of `cleanup_article_id` over the patterns `gs`, each applied once, in order. */
  function CleanupWith(gs: seq<Garbage>, s: string): (r: string)
    ensures |r| <= |s| && r == s[..|r|]
  {
    if gs == [] then s
    else
      var t := Cut(gs[0], s);
      var r := CleanupWith(gs[1..], t);
      assert r == s[..|r|] by {
        assert r == t[..|r|] && t == s[..|t|];
      }
      r
  }

  function Cleanup(s: string): string {
    CleanupWith(DoiGarbage, s)
  }

  /** `cleanup_article_id`: walk the garbage list once, cutting out the first match of each pattern. */
  method CleanupArticleId(articleId: string) returns (r: string)
    ensures r == Cleanup(articleId)
  {
    r := articleId;
    for i := 0 to |DoiGarbage|
      invariant CleanupWith(DoiGarbage[i..], r) == Cleanup(articleId)
    {
      assert DoiGarbage[i..][0] == DoiGarbage[i] && DoiGarbage[i..][1..] == DoiGarbage[i + 1..];
      var span := SearchGarbage(DoiGarbage[i], r);
      if span.Some? {
        var (beg, end) := span.value;
        r := r[..beg] + r[end..];
      }
    }
  }

  // ---------------------------------------------------------------------------
  // `standardize_text`: the mojibake table.

  /** A slash mis-decoded as "å…¾". */
  const Mojibake: string := "\U{00E5}\U{2026}\U{00BE}"

  /** `TEXT_MOJIBAKES`: corrupted text and its repair. */
  const TextMojibakes: seq<(string, string)> := [(Mojibake, "/")]

  /** The loop of `standardize_text` over the table `table`, in order. */
  function StandardizeWith(table: seq<(string, string)>, s: string): string {
    if table == [] then s else StandardizeWith(table[1..], ReplaceAll(s, table[0].0, table[0].1))
  }

  function Standardize(s: string): string {
    StandardizeWith(TextMojibakes, s)
  }

  /** `standardize_text`: replace every entry of the table, one entry after the other. */
  method StandardizeText(text: string) returns (r: string)
    ensures r == Standardize(text)
  {
    r := text;
    for i := 0 to |TextMojibakes|
      invariant StandardizeWith(TextMojibakes[i..], r) == Standardize(text)
    {
      assert TextMojibakes[i..][0] == TextMojibakes[i] && TextMojibakes[i..][1..] == TextMojibakes[i + 1..];
      var (bake, tru) := TextMojibakes[i];
      r := ReplaceAll(r, bake, tru);
    }
  }

  // ---------------------------------------------------------------------------
  // `extract_article_ids`.

  /** Each capture, cleaned up and prefixed. */
  function Tagged(prefix: string, captures: seq<string>): (r: seq<string>)
    ensures |r| == |captures|
    ensures forall k :: 0 <= k < |r| ==> r[k] == prefix + Cleanup(captures[k])
  {
    seq(|captures|, k requires 0 <= k < |captures| => prefix + Cleanup(captures[k]))
  }

  /** Every identifier in `text`: all DOI hits, then all DOI-URL hits, then all arXiv hits. */
  function ExtractArticleIds(text: string): seq<string> {
    var t := Standardize(text);
    Tagged("doi:", Captures(DoiPattern, t))
      + Tagged("doi:", Captures(DoiUrlPattern, t))
      + Tagged("arxiv:", Captures(ArxivPattern, t))
  }
}
