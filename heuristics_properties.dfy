/**
 * Properties of the identifier heuristics: the matchers find every match
 * (so they agree with the regular expressions), the captures have the shape
 * the patterns promise, mojibake repair removes every corrupted slash, and
 * the cleanup strips exactly the garbage it names.
 */
module HeuristicsProperties {

  import opened Wrappers
  import opened Strings
  import opened Heuristics

  // ---------------------------------------------------------------------------
  // The matchers are complete.

  /** Whenever the suffix pattern matches at `i`, the greedy matcher matches there too, at least as far. */
  lemma DoiSuffixEndComplete(s: string, i: nat, e: nat)
    requires i <= |s|
    requires DoiSuffixMatches(s, i, e)
    ensures DoiSuffixEnd(s, i).Some? && e <= DoiSuffixEnd(s, i).value
  {
    var a: nat, b: nat :| DoiSuffixSpan(s, i, a, b, e);
    RunEndIs(s, i, a, IsDigit);
    RunEndIs(s, a + 1, b, IsDigit);
    RunEndCovers(s, b + 1, e, IsDoiChar);
  }

  /** Whenever `p` matches at `i`, the matcher finds that match's capture start and an end at least as far. */
  lemma MatchAtComplete(p: Pattern, s: string, i: nat, c: nat, e: nat)
    requires Matches(p, s, i, c, e)
    ensures MatchAt(p, s, i).Some?
    ensures MatchAt(p, s, i).value.capStart == c && e <= MatchAt(p, s, i).value.end
  {
    match p
    case DoiPattern => DoiMatchComplete(s, i, c, e);
    case DoiUrlPattern => DoiSuffixEndComplete(s, i + 8, e);
    case ArxivPattern => ArxivMatchComplete(s, i, e);
  }

  /** The case of the plain DOI pattern: the separator the matcher skips ends where the suffix begins. */
  lemma DoiMatchComplete(s: string, i: nat, c: nat, e: nat)
    requires DoiSpan(s, i, c, e)
    ensures MatchAt(DoiPattern, s, i).Some?
    ensures MatchAt(DoiPattern, s, i).value.capStart == c && e <= MatchAt(DoiPattern, s, i).value.end
  {
    var a: nat, b: nat :| DoiSuffixSpan(s, c, a, b, e);
    assert IsDigit(s[c]);
    var q := if i + 3 < |s| && (s[i + 3] == ':' || s[i + 3] == '/') then i + 4 else i + 3;
    if i + 3 < |s| && (s[i + 3] == ':' || s[i + 3] == '/') {
      assert !IsSpace(s[i + 3]) && !IsDigit(s[i + 3]);
      assert i + 3 < c && AllIn(s, i + 4, c, IsSpace);
    } else {
      assert AllIn(s, i + 3, c, IsSpace);
    }
    RunEndIs(s, q, c, IsSpace);
    DoiSuffixEndComplete(s, c, e);
  }

  /** The case of the arXiv pattern: the digit runs the matcher takes are the longest ones. */
  lemma ArxivMatchComplete(s: string, i: nat, e: nat)
    requires exists a: nat :: ArxivSpan(s, i, a, e)
    ensures MatchAt(ArxivPattern, s, i).Some?
    ensures MatchAt(ArxivPattern, s, i).value.capStart == i + 6 && e <= MatchAt(ArxivPattern, s, i).value.end
  {
    var a: nat :| ArxivSpan(s, i, a, e);
    RunEndIs(s, i + 6, a, IsDigit);
    RunEndCovers(s, a + 1, e, IsDigit);
  }

  /** `p` matches somewhere at `i`. */
  ghost predicate MatchesSomehowAt(p: Pattern, s: string, i: nat) {
    exists c: nat, e: nat :: Matches(p, s, i, c, e)
  }

  /** The matcher succeeds at `i` exactly when the pattern matches there. */
  lemma MatchAtExact(p: Pattern, s: string, i: nat)
    ensures MatchAt(p, s, i).Some? <==> MatchesSomehowAt(p, s, i)
  {
    if MatchesSomehowAt(p, s, i) {
      var c: nat, e: nat :| Matches(p, s, i, c, e);
      MatchAtComplete(p, s, i, c, e);
    }
    if MatchAt(p, s, i).Some? {
      var m := MatchAt(p, s, i).value;
      assert Matches(p, s, i, m.capStart, m.end);
    }
  }

  /** The match found is the greedy one: no match at `i` reaches further. */
  lemma MatchAtLongest(p: Pattern, s: string, i: nat, c: nat, e: nat)
    requires Matches(p, s, i, c, e)
    ensures MatchAt(p, s, i).Some? && MatchAt(p, s, i) == Some(Span(i, c, MatchAt(p, s, i).value.end))
    ensures forall c': nat, e': nat :: Matches(p, s, i, c', e') ==> c' == c && e' <= MatchAt(p, s, i).value.end
  {
    MatchAtComplete(p, s, i, c, e);
    forall c': nat, e': nat | Matches(p, s, i, c', e') ensures c' == c && e' <= MatchAt(p, s, i).value.end {
      MatchAtComplete(p, s, i, c', e');
    }
  }

  // ---------------------------------------------------------------------------
  // The shape of the captures.

  /** `digits.digits`: what the arXiv pattern captures. */
  predicate ArxivNumber(c: string) {
    exists a: nat :: 0 < a && a + 1 < |c| && AllIn(c, 0, a, IsDigit) && c[a] == '.' && AllIn(c, a + 1, |c|, IsDigit)
  }

  /** A DOI suffix `digits.digits/chars`: what both DOI patterns capture. */
  ghost predicate DoiSuffix(c: string) {
    DoiSuffixMatches(c, 0, |c|)
  }

  /** A match of the suffix pattern inside `s` is a whole suffix once cut out. */
  lemma DoiSuffixSlice(s: string, i: nat, e: nat)
    requires DoiSuffixMatches(s, i, e)
    ensures DoiSuffix(s[i..e])
  {
    var a: nat, b: nat :| DoiSuffixSpan(s, i, a, b, e);
    AllInSlice(s, i, a, i, e, IsDigit);
    AllInSlice(s, a + 1, b, i, e, IsDigit);
    AllInSlice(s, b + 1, e, i, e, IsDoiChar);
    assert DoiSuffixSpan(s[i..e], 0, a - i, b - i, e - i);
  }

  /** The capture of a match of `p`. */
  lemma CaptureShape(p: Pattern, s: string, m: Span)
    requires IsMatch(p, s, m)
    ensures m.capStart < m.end <= |s|
    ensures p != ArxivPattern ==> DoiSuffix(Capture(s, m))
    ensures p == ArxivPattern ==> ArxivNumber(Capture(s, m))
  {
    match p
    case DoiPattern =>
      DoiSuffixSlice(s, m.capStart, m.end);
    case DoiUrlPattern =>
      DoiSuffixSlice(s, m.capStart, m.end);
    case ArxivPattern =>
      var a: nat :| ArxivSpan(s, m.start, a, m.end);
      AllInSlice(s, m.capStart, a, m.capStart, m.end, IsDigit);
      AllInSlice(s, a + 1, m.end, m.capStart, m.end, IsDigit);
      assert 0 < a - m.capStart && AllIn(Capture(s, m), 0, a - m.capStart, IsDigit);
  }

  /** Every string `re.findall` returns for `p` has the shape of `p`'s capture group. */
  lemma CapturesShape(p: Pattern, s: string)
    ensures forall k :: 0 <= k < |Captures(p, s)| ==>
      (p != ArxivPattern ==> DoiSuffix(Captures(p, s)[k])) && (p == ArxivPattern ==> ArxivNumber(Captures(p, s)[k]))
  {
    var ms := FindAll(p, s, 0);
    FindAllMatches(p, s, 0);
    forall k | 0 <= k < |Captures(p, s)|
      ensures (p != ArxivPattern ==> DoiSuffix(Captures(p, s)[k])) && (p == ArxivPattern ==> ArxivNumber(Captures(p, s)[k]))
    {
      assert MatchAt(p, s, ms[k].start) == Some(ms[k]);
      CaptureShape(p, s, ms[k]);
    }
  }

  /** No capture holds a line break, so `.` and `$` in the garbage patterns never meet one. */
  lemma CapturesSingleLine(p: Pattern, s: string)
    ensures forall k, j :: 0 <= k < |Captures(p, s)| && 0 <= j < |Captures(p, s)[k]| ==> Captures(p, s)[k][j] != '\n'
  {
    CapturesShape(p, s);
    forall k, j | 0 <= k < |Captures(p, s)| && 0 <= j < |Captures(p, s)[k]| ensures Captures(p, s)[k][j] != '\n' {
      var c := Captures(p, s)[k];
      if p == ArxivPattern {
        var a: nat :| 0 < a && a + 1 < |c| && AllIn(c, 0, a, IsDigit) && c[a] == '.' && AllIn(c, a + 1, |c|, IsDigit);
        assert j < a || j == a || a < j;
      } else {
        var a: nat, b: nat :| DoiSuffixSpan(c, 0, a, b, |c|);
        assert j < a || j == a || a < j < b || j == b || b < j;
      }
    }
  }

  // ---------------------------------------------------------------------------
  // Mojibake repair.

  /** With its one-entry table, `standardize_text` is a single `str.replace`. */
  lemma StandardizeIsReplace(s: string)
    ensures Standardize(s) == ReplaceAll(s, Mojibake, "/")
  {
    assert TextMojibakes[0] == (Mojibake, "/") && TextMojibakes[1..] == [];
    var r := ReplaceAll(s, Mojibake, "/");
    assert StandardizeWith(TextMojibakes, s) == StandardizeWith([], r);
  }

  /** No corrupted slash survives the repair. */
  lemma StandardizeRepairsAll(s: string)
    ensures forall i: nat :: !OccursAt(Standardize(s), Mojibake, i)
  {
    StandardizeIsReplace(s);
    assert Disjoint(Mojibake, "/") by {
      assert "/"[0] == '/';
    }
    ReplaceAllRemoves(s, Mojibake, "/");
  }

  /** Text without corrupted slashes is left alone. */
  lemma StandardizeKeepsClean(s: string)
    requires forall i: nat :: !OccursAt(s, Mojibake, i)
    ensures Standardize(s) == s
  {
    StandardizeIsReplace(s);
    ReplaceAllIdentity(s, Mojibake, "/");
  }

  /** Repairing twice is repairing once. */
  lemma StandardizeIdempotent(s: string)
    ensures Standardize(Standardize(s)) == Standardize(s)
  {
    StandardizeRepairsAll(s);
    StandardizeKeepsClean(Standardize(s));
  }

  /** The first corrupted slash becomes `/`, the text before it is kept, and the rest is repaired the same way. */
  lemma StandardizeRepairsFirst(a: string, b: string)
    requires !Contains(a, Mojibake)
    ensures Standardize(a + Mojibake + b) == a + "/" + Standardize(b)
  {
    var s := a + Mojibake + b;
    assert OccursAt(s, Mojibake, |a|) by {
      assert s[|a|..|a| + |Mojibake|] == Mojibake;
    }
    forall j: nat | j < |a| ensures !OccursAt(s, Mojibake, j) {
      MojibakeNotBefore(a, Mojibake + b, j);
    }
    StandardizeIsReplace(s);
    ReplaceAllAtFirst(s, Mojibake, "/", |a|);
    assert s[..|a|] == a && s[|a| + |Mojibake|..] == b;
    StandardizeIsReplace(b);
  }

  /**
   * No corrupted slash starts inside `u` when `u` holds none and what follows starts like one:
   * no proper prefix of "å…¾" is also a suffix of it, so an occurrence cannot straddle the two.
   */
  lemma MojibakeNotBefore(u: string, v: string, j: nat)
    requires !Contains(u, Mojibake) && j < |u|
    requires |v| > 0 && v[0] == Mojibake[0]
    ensures !OccursAt(u + v, Mojibake, j)
  {
    var t := u + v;
    var n := |Mojibake|;
    if j + n <= |t| {
      if j + n <= |u| {
        assert t[j..j + n] == u[j..j + n];
        assert !OccursAt(u, Mojibake, j);
      } else {
        var d := |u| - j;
        assert 0 < d < n;
        assert t[j..j + n][d] == v[0];
        assert forall k :: 0 < k < n ==> Mojibake[k] != Mojibake[0];
      }
    }
  }

  // ---------------------------------------------------------------------------
  // Garbage removal.

  /** The three passes of the cleanup, in the order of the garbage table. */
  lemma CleanupSteps(s: string)
    ensures Cleanup(s) == Cut(AvailableOnlineTail, Cut(PublishedOnlineTail, Cut(TrailingDot, s)))
  {
    var gs := DoiGarbage;
    var t1 := Cut(TrailingDot, s);
    var t2 := Cut(PublishedOnlineTail, t1);
    var t3 := Cut(AvailableOnlineTail, t2);
    assert gs[0] == TrailingDot && gs[1..] == [PublishedOnlineTail, AvailableOnlineTail];
    assert CleanupWith(gs, s) == CleanupWith(gs[1..], t1);
    assert gs[1..][1..] == [AvailableOnlineTail] && gs[1..][1..][1..] == [];
    assert CleanupWith(gs[1..], t1) == CleanupWith(gs[1..][1..], t2);
    assert CleanupWith(gs[1..][1..], t2) == CleanupWith([], t3);
  }

  /** An identifier free of every garbage pattern. */
  ghost predicate Clean(c: string) {
    !EndsWith(c, ".") && !Contains(c, PublishedOnline) && !EndsWith(c, AvailableOnline)
  }

  /** The cleanup leaves an identifier unchanged exactly when no garbage pattern matches it. */
  lemma CleanupFixpoint(c: string)
    ensures Cleanup(c) == c <==> Clean(c)
  {
    CleanupSteps(c);
    var t1 := Cut(TrailingDot, c);
    var t2 := Cut(PublishedOnlineTail, t1);
    var t3 := Cut(AvailableOnlineTail, t2);
    if EndsWith(c, ".") {
      assert |t3| <= |t2| <= |t1| < |c|;
    } else if Contains(c, PublishedOnline) {
      assert t1 == c;
      assert |t3| <= |t2| < |c|;
    } else if EndsWith(c, AvailableOnline) {
      assert t2 == c;
      assert |t3| < |c|;
    } else {
      assert t1 == c && t2 == c && t3 == c;
    }
  }

  /** Text without a semicolon holds no `;publishedonline`. */
  lemma NoSemicolonNoPublished(s: string)
    requires ';' !in s
    ensures !Contains(s, PublishedOnline)
  {
    forall i: nat | i + |PublishedOnline| <= |s| ensures !OccursAt(s, PublishedOnline, i) {
      assert s[i..i + |PublishedOnline|][0] == s[i] != PublishedOnline[0];
    }
  }

  /** The first pass drops one trailing period. */
  lemma CutTrailingDot(t: string)
    ensures Cut(TrailingDot, t + ".") == t
  {
    var s := t + ".";
    assert s[..|t|] == t && s[|s|..] == [];
  }

  /** The last pass drops a trailing `availableonlineathttp`. */
  lemma CutAvailableOnline(t: string)
    ensures Cut(AvailableOnlineTail, t + AvailableOnline) == t
  {
    var s := t + AvailableOnline;
    assert s[|s| - |AvailableOnline|..] == AvailableOnline;
    assert s[..|t|] == t && s[|s|..] == [];
  }

  /** Exactly one trailing period is dropped. */
  lemma CleanupTrailingDot(t: string)
    requires !Contains(t, PublishedOnline) && !EndsWith(t, AvailableOnline)
    ensures Cleanup(t + ".") == t
  {
    CleanupSteps(t + ".");
    CutTrailingDot(t);
  }

  /** `;publishedonline` and everything after it are dropped, and an `availableonlineathttp` it leaves at the end goes too. */
  lemma CleanupPublishedOnline(a: string, b: string)
    requires !Contains(a, PublishedOnline)
    ensures Cleanup(a + PublishedOnline + b) == if EndsWith(a, AvailableOnline) then a[..|a| - |AvailableOnline|] else a
  {
    CleanupSteps(a + PublishedOnline + b);
    var rest := TrailingDotBeforeTail(a, b);
    PublishedOnlineCut(a, rest);
    CutAvailableOnlineEither(a);
  }

  /** The first pass, dropping a trailing period, leaves `a + ";publishedonline"` in front. */
  lemma TrailingDotBeforeTail(a: string, b: string) returns (rest: string)
    ensures Cut(TrailingDot, a + PublishedOnline + b) == a + PublishedOnline + rest
  {
    var s := a + PublishedOnline + b;
    if EndsWith(s, ".") {
      assert |b| > 0 by {
        assert s[|s| - 1] == '.' != PublishedOnline[|PublishedOnline| - 1];
      }
      rest := b[..|b| - 1];
      assert s == (a + PublishedOnline + rest) + ".";
      CutTrailingDot(a + PublishedOnline + rest);
    } else {
      rest := b;
    }
  }

  /** The last pass drops `availableonlineathttp` when the text ends with it, and changes nothing otherwise. */
  lemma CutAvailableOnlineEither(t: string)
    ensures Cut(AvailableOnlineTail, t) == if EndsWith(t, AvailableOnline) then t[..|t| - |AvailableOnline|] else t
  {
    if EndsWith(t, AvailableOnline) {
      assert t[|t|..] == [];
    }
  }

  /** In text with no semicolon before it, the second pass cuts from `;publishedonline` to the end. */
  lemma PublishedOnlineCut(a: string, b: string)
    requires !Contains(a, PublishedOnline)
    ensures Cut(PublishedOnlineTail, a + PublishedOnline + b) == a
  {
    var t := a + PublishedOnline + b;
    assert OccursAt(t, PublishedOnline, |a|) by {
      assert t[|a|..|a| + |PublishedOnline|] == PublishedOnline;
    }
    forall j: nat | j < |a| ensures !OccursAt(t, PublishedOnline, j) {
      PublishedOnlineNotBefore(a, PublishedOnline + b, j);
    }
    var found := SearchGarbage(PublishedOnlineTail, t);
    assert found.Some? && found.value.0 == |a|;
    assert t[..|a|] == a && t[|t|..] == [];
  }

  /**
   * No `;publishedonline` starts inside `u` when `u` holds none and what follows `u` starts
   * with `;` or a character foreign to the marker: the marker's only `;` is its first character.
   */
  lemma PublishedOnlineNotBefore(u: string, v: string, j: nat)
    requires !Contains(u, PublishedOnline) && j < |u|
    requires |v| > 0 && (v[0] == ';' || v[0] !in PublishedOnline)
    ensures !OccursAt(u + v, PublishedOnline, j)
  {
    var t := u + v;
    var n := |PublishedOnline|;
    if j + n <= |t| {
      if j + n <= |u| {
        assert t[j..j + n] == u[j..j + n];
        assert !OccursAt(u, PublishedOnline, j);
      } else {
        var d := |u| - j;
        assert 0 < d < n;
        assert t[j..j + n][d] == v[0];
        assert forall k :: 0 < k < n ==> PublishedOnline[k] != ';';
      }
    }
  }

  /** A trailing `availableonlineathttp` is dropped. */
  lemma CleanupAvailableOnline(t: string)
    requires !Contains(t, PublishedOnline)
    ensures Cleanup(t + AvailableOnline) == t
  {
    var s := t + AvailableOnline;
    CleanupSteps(s);
    assert s[|s| - 1] == 'p';
    AvailableOnlineAddsNoPublished(t);
    CutAvailableOnline(t);
  }

  /** Appending `availableonlineathttp` creates no `;publishedonline`. */
  lemma AvailableOnlineAddsNoPublished(t: string)
    requires !Contains(t, PublishedOnline)
    ensures !Contains(t + AvailableOnline, PublishedOnline)
  {
    var s := t + AvailableOnline;
    forall j: nat ensures !OccursAt(s, PublishedOnline, j) {
      if j < |t| {
        assert AvailableOnline[0] !in PublishedOnline;
        PublishedOnlineNotBefore(t, AvailableOnline, j);
      } else if j + |PublishedOnline| <= |s| {
        assert s[j..j + |PublishedOnline|][0] == s[j] == AvailableOnline[j - |t|];
        assert forall k :: 0 <= k < |AvailableOnline| ==> AvailableOnline[k] != ';';
      }
    }
  }

  /** arXiv numbers hold no garbage, so the cleanup returns them unchanged. */
  lemma ArxivNumberClean(c: string)
    requires ArxivNumber(c)
    ensures Cleanup(c) == c
  {
    var a: nat :| 0 < a && a + 1 < |c| && AllIn(c, 0, a, IsDigit) && c[a] == '.' && AllIn(c, a + 1, |c|, IsDigit);
    assert IsDigit(c[|c| - 1]);
    assert !EndsWith(c, ".") by {
      assert c[|c| - 1..] == [c[|c| - 1]];
    }
    assert !EndsWith(c, AvailableOnline) by {
      assert c[|c| - 1] != AvailableOnline[|AvailableOnline| - 1];
    }
    assert ';' !in c by {
      forall k | 0 <= k < |c| ensures c[k] != ';' {
        assert k < a || k == a || a < k;
      }
    }
    NoSemicolonNoPublished(c);
    CleanupFixpoint(c);
  }

  /** A DOI with a trailing period loses only that period. */
  lemma CleanupExampleDot()
    ensures Cleanup("10.1000/xyz123.") == "10.1000/xyz123"
  {
    var t := "10.1000/xyz123";
    NoSemicolonNoPublished(t);
    CleanupTrailingDot(t);
    assert t + "." == "10.1000/xyz123.";
  }

  /** Of two trailing periods only one goes: the pattern is applied once. */
  lemma CleanupExampleTwoDots()
    ensures Cleanup("10.1000/xyz123..") == "10.1000/xyz123."
  {
    var t := "10.1000/xyz123.";
    NoSemicolonNoPublished(t);
    CleanupTrailingDot(t);
    assert t + "." == "10.1000/xyz123..";
  }

  /** A "published online" note glued to the DOI is dropped with everything after it. */
  lemma CleanupExamplePublished()
    ensures Cleanup("10.1/x;publishedonline2019.") == "10.1/x"
  {
    var s := "10.1/x;publishedonline2019.";
    assert s[..6] == "10.1/x" && s[6..22] == PublishedOnline && s[22..] == "2019.";
    assert s == s[..6] + s[6..22] + s[22..];
    CleanupPublishedOnline(s[..6], s[22..]);
  }

  /** A `;` of the DOI itself, before the note, is kept: the cut starts at the note. */
  lemma CleanupExampleSemicolon()
    ensures Cleanup("10.1002/x;2-a;publishedonline2019") == "10.1002/x;2-a"
  {
    var s := "10.1002/x;2-a;publishedonline2019";
    assert s[..13] == "10.1002/x;2-a" && s[13..29] == PublishedOnline && s[29..] == "2019";
    assert s == s[..13] + s[13..29] + s[29..];
    CleanupPublishedOnline(s[..13], s[29..]);
  }

  /** The period uncovered by removing "availableonlineathttp" stays: the period pass came first. */
  lemma CleanupExampleAvailable()
    ensures Cleanup("10.1/x.availableonlineathttp") == "10.1/x."
  {
    var s := "10.1/x.availableonlineathttp";
    assert s[..7] == "10.1/x." && s[7..] == AvailableOnline;
    assert s == s[..7] + s[7..];
    CleanupAvailableOnline(s[..7]);
  }

  // ---------------------------------------------------------------------------
  // `extract_article_ids`.

  /** The cleanup never changes an arXiv hit: each one is reported exactly as captured. */
  lemma ArxivHitsUncleaned(s: string)
    ensures forall k :: 0 <= k < |Captures(ArxivPattern, s)| ==>
      Cleanup(Captures(ArxivPattern, s)[k]) == Captures(ArxivPattern, s)[k]
  {
    CapturesShape(ArxivPattern, s);
    forall k | 0 <= k < |Captures(ArxivPattern, s)|
      ensures Cleanup(Captures(ArxivPattern, s)[k]) == Captures(ArxivPattern, s)[k]
    {
      ArxivNumberClean(Captures(ArxivPattern, s)[k]);
    }
  }

  /** Every tagged identifier starts with its tag. */
  lemma TaggedStartsWith(prefix: string, captures: seq<string>)
    ensures forall k :: 0 <= k < |Tagged(prefix, captures)| ==> StartsWith(Tagged(prefix, captures)[k], prefix)
  {
    forall k | 0 <= k < |Tagged(prefix, captures)| ensures StartsWith(Tagged(prefix, captures)[k], prefix) {
      var c := Cleanup(captures[k]);
      assert (prefix + c)[..|prefix|] == prefix;
    }
  }

  /** DOIs followed by arXiv numbers: once an arXiv number appears, only arXiv numbers follow. */
  lemma DoisThenArxiv(dois: seq<string>, arxivs: seq<string>)
    requires forall k :: 0 <= k < |dois| ==> StartsWith(dois[k], "doi:")
    requires forall k :: 0 <= k < |arxivs| ==> StartsWith(arxivs[k], "arxiv:")
    ensures forall k :: 0 <= k < |dois + arxivs| ==>
      StartsWith((dois + arxivs)[k], "doi:") || StartsWith((dois + arxivs)[k], "arxiv:")
    ensures forall j, k :: 0 <= j < k < |dois + arxivs| && StartsWith((dois + arxivs)[j], "arxiv:") ==>
      StartsWith((dois + arxivs)[k], "arxiv:")
  {
    var ids := dois + arxivs;
    forall k | 0 <= k < |ids|
      ensures (k < |dois| ==> StartsWith(ids[k], "doi:") && !StartsWith(ids[k], "arxiv:"))
      ensures (k >= |dois| ==> StartsWith(ids[k], "arxiv:"))
    {
      if k < |dois| {
        assert ids[k] == dois[k];
        assert ids[k][0] == "doi:"[0] != "arxiv:"[0];
      } else {
        assert ids[k] == arxivs[k - |dois|];
      }
    }
  }

  /** Every identifier is tagged, and all DOIs (from either pattern) come before all arXiv numbers. */
  lemma ExtractArticleIdsTagged(text: string)
    ensures forall k :: 0 <= k < |ExtractArticleIds(text)| ==>
      StartsWith(ExtractArticleIds(text)[k], "doi:") || StartsWith(ExtractArticleIds(text)[k], "arxiv:")
    ensures forall j, k :: 0 <= j < k < |ExtractArticleIds(text)| && StartsWith(ExtractArticleIds(text)[j], "arxiv:") ==>
      StartsWith(ExtractArticleIds(text)[k], "arxiv:")
  {
    var t := Standardize(text);
    var d1, d2 := Captures(DoiPattern, t), Captures(DoiUrlPattern, t);
    var x := Captures(ArxivPattern, t);
    TaggedStartsWith("doi:", d1);
    TaggedStartsWith("doi:", d2);
    TaggedStartsWith("arxiv:", x);
    var dois := Tagged("doi:", d1) + Tagged("doi:", d2);
    forall k | 0 <= k < |dois| ensures StartsWith(dois[k], "doi:") {
      if k >= |Tagged("doi:", d1)| {
        assert dois[k] == Tagged("doi:", d2)[k - |Tagged("doi:", d1)|];
      }
    }
    DoisThenArxiv(dois, Tagged("arxiv:", x));
  }

  /** There is one identifier per match of each pattern. */
  lemma ExtractArticleIdsCount(text: string)
    ensures var t := Standardize(text);
      |ExtractArticleIds(text)| == |FindAll(DoiPattern, t, 0)| + |FindAll(DoiUrlPattern, t, 0)| + |FindAll(ArxivPattern, t, 0)|
  {
  }

  /** `re.findall` for `p` reports something exactly when `p` matches somewhere. */
  lemma FindAllNonEmpty(p: Pattern, s: string)
    ensures |FindAll(p, s, 0)| > 0 <==> exists q: nat :: MatchesSomehowAt(p, s, q)
  {
    if exists q: nat :: MatchesSomehowAt(p, s, q) {
      var q: nat :| MatchesSomehowAt(p, s, q);
      MatchAtExact(p, s, q);
      FindAllLeftmost(p, s, 0, q);
    }
    if |FindAll(p, s, 0)| > 0 {
      var m := FindAll(p, s, 0)[0];
      FindAllMatches(p, s, 0);
      MatchAtExact(p, s, m.start);
    }
  }

  /** The text yields an identifier exactly when one of the patterns matches somewhere in the repaired text. */
  lemma ExtractArticleIdsFound(text: string)
    ensures |ExtractArticleIds(text)| > 0 <==> exists p: Pattern, q: nat :: MatchesSomehowAt(p, Standardize(text), q)
  {
    var t := Standardize(text);
    ExtractArticleIdsCount(text);
    FindAllNonEmpty(DoiPattern, t);
    FindAllNonEmpty(DoiUrlPattern, t);
    FindAllNonEmpty(ArxivPattern, t);
    if exists p: Pattern, q: nat :: MatchesSomehowAt(p, t, q) {
      var p: Pattern, q: nat :| MatchesSomehowAt(p, t, q);
      assert p == DoiPattern || p == DoiUrlPattern || p == ArxivPattern;
    }
  }

  /** When the plain DOI pattern matches, the first identifier is the cleaned capture of its leftmost match. */
  lemma ExtractArticleIdsFirstDoi(text: string, q: nat)
    requires MatchAt(DoiPattern, Standardize(text), q).Some?
    requires forall j: nat :: j < q ==> MatchAt(DoiPattern, Standardize(text), j).None?
    ensures |ExtractArticleIds(text)| > 0
    ensures ExtractArticleIds(text)[0] == "doi:" + Cleanup(Capture(Standardize(text), MatchAt(DoiPattern, Standardize(text), q).value))
  {
    var t := Standardize(text);
    FindAllFirst(DoiPattern, t, 0, q);
    var d := Tagged("doi:", Captures(DoiPattern, t));
    assert ExtractArticleIds(text)[0] == d[0];
  }
}
