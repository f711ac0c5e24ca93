/**
 * Whole texts through `extract_article_ids`: repair, the three passes, the cleanup
 * of each capture and its tag.
 */
module HeuristicsExamples {

  import opened Wrappers
  import opened Strings
  import opened Heuristics
  import opened HeuristicsProperties

  // ---------------------------------------------------------------------------
  // Facts used by the examples, for any text.

  /** Text without `å` holds no corrupted slash. */
  lemma NoMojibake(s: string)
    requires Mojibake[0] !in s
    ensures forall i: nat :: !OccursAt(s, Mojibake, i)
  {
    forall i: nat | i + |Mojibake| <= |s| ensures !OccursAt(s, Mojibake, i) {
      assert s[i..i + |Mojibake|][0] == s[i];
    }
  }

  /** A literal cannot occur where its first character does not. */
  lemma NoLiteralIn(s: string, lit: string, lo: nat, hi: nat)
    requires |lit| > 0
    requires forall k :: lo <= k < hi && k < |s| ==> !SameIgnoringCase(s[k], lit[0])
    ensures forall i: nat :: lo <= i < hi ==> !LiteralAt(s, i, lit)
  {
    forall i: nat | lo <= i < hi && i + |lit| <= |s| ensures !LiteralAt(s, i, lit) {
      assert !SameIgnoringCase(s[i], lit[0]);
    }
  }

  /** A match that runs to the end of the text is the match the matcher returns. */
  lemma MatchToEnd(p: Pattern, s: string, i: nat, c: nat)
    requires Matches(p, s, i, c, |s|)
    ensures MatchAt(p, s, i) == Some(Span(i, c, |s|))
  {
    MatchAtComplete(p, s, i, c, |s|);
  }

  /**
   * If the repaired text `t` has its first `doi` at `q`, where the DOI pattern matches to
   * the end with its capture at `c`, the first identifier is that capture, cleaned.
   */
  lemma FirstDoiAfterRepair(text: string, t: string, q: nat, c: nat)
    requires Standardize(text) == t
    requires forall j: nat :: j < q ==> !LiteralAt(t, j, "doi")
    requires Matches(DoiPattern, t, q, c, |t|)
    ensures |ExtractArticleIds(text)| > 0
    ensures ExtractArticleIds(text)[0] == "doi:" + Cleanup(t[c..])
  {
    MatchToEnd(DoiPattern, t, q, c);
    NoMatchBefore(DoiPattern, t, q, "doi");
    ExtractArticleIdsFirstDoi(text, q);
    assert Capture(t, Span(q, c, |t|)) == t[c..];
  }

  /** Where the literal a pattern starts with is absent, the pattern does not match. */
  lemma NoMatchBefore(p: Pattern, t: string, q: nat, lit: string)
    requires lit == (if p == ArxivPattern then "arxiv:" else "doi")
    requires forall j: nat :: j < q ==> !LiteralAt(t, j, lit)
    ensures forall j: nat :: j < q ==> MatchAt(p, t, j).None?
  {
    forall j: nat | j < q ensures MatchAt(p, t, j).None? {
      assert !LiteralAt(t, j, lit);
    }
  }

  /**
   * A clean text with no `doi` anywhere and `arxiv:` only at `q`, where the arXiv pattern
   * matches to the end, yields exactly one identifier: that capture, tagged.
   */
  lemma OnlyArxivOf(text: string, q: nat)
    requires forall i: nat :: !OccursAt(text, Mojibake, i)
    requires forall i: nat :: !LiteralAt(text, i, "doi")
    requires forall i: nat :: i != q ==> !LiteralAt(text, i, "arxiv:")
    requires Matches(ArxivPattern, text, q, q + 6, |text|)
    ensures ExtractArticleIds(text) == ["arxiv:" + Cleanup(text[q + 6..])]
  {
    StandardizeKeepsClean(text);
    forall i: nat ensures !MatchesSomehowAt(DoiPattern, text, i) && !MatchesSomehowAt(DoiUrlPattern, text, i) {
      assert !LiteralAt(text, i, "doi");
    }
    FindAllNonEmpty(DoiPattern, text);
    FindAllNonEmpty(DoiUrlPattern, text);
    var m := Span(q, q + 6, |text|);
    MatchToEnd(ArxivPattern, text, q, q + 6);
    NoMatchBefore(ArxivPattern, text, q, "arxiv:");
    FindAllFirst(ArxivPattern, text, 0, q);
    FindAllAtEnd(ArxivPattern, text);
    assert FindAll(ArxivPattern, text, 0) == [m];
    var arxivs := Captures(ArxivPattern, text);
    assert |arxivs| == 1 && arxivs[0] == Capture(text, m) == text[q + 6..];
    assert Captures(DoiPattern, text) == [] && Captures(DoiUrlPattern, text) == [];
    var tagged := Tagged("arxiv:", arxivs);
    assert |tagged| == 1 && tagged[0] == "arxiv:" + Cleanup(text[q + 6..]);
    assert ExtractArticleIds(text) == [] + [] + tagged;
  }

  // ---------------------------------------------------------------------------
  // A DOI at the end of a sentence.

  const SeeDoi: string := "See doi:10.1000/xyz123."

  /** The DOI pattern matches from position 4 to the end, with the capture `10.1000/xyz123.`; no `doi` comes earlier. */
  lemma SeeDoiMatch()
    ensures Matches(DoiPattern, SeeDoi, 4, 8, |SeeDoi|)
    ensures forall j: nat :: j < 4 ==> !LiteralAt(SeeDoi, j, "doi")
  {
    var s := SeeDoi;
    assert LiteralAt(s, 4, "doi") && s[7] == ':';
    assert Separator(s, 7, 8);
    SeeDoiSuffix();
    NoLiteralIn(s, "doi", 0, 4);
  }

  /** `10.1000/xyz123.` is a DOI suffix: prefix `10`, registrant `1000`, and the rest. */
  lemma SeeDoiSuffix()
    ensures DoiSuffixSpan(SeeDoi, 8, 10, 15, 23)
  {
  }

  /** The sentence holds no corrupted slash, so the repair leaves it alone. */
  lemma SeeDoiUnchanged()
    ensures Standardize(SeeDoi) == SeeDoi
  {
    NoMojibake(SeeDoi);
    StandardizeKeepsClean(SeeDoi);
  }

  /** The first identifier found is the capture after `doi:`, cleaned and tagged. */
  lemma SeeDoiFirst()
    ensures |ExtractArticleIds(SeeDoi)| > 0
    ensures ExtractArticleIds(SeeDoi)[0] == "doi:" + Cleanup(SeeDoi[8..])
  {
    SeeDoiUnchanged();
    SeeDoiMatch();
    FirstDoiAfterRepair(SeeDoi, SeeDoi, 4, 8);
  }

  /** Cleaning the capture drops the sentence's period. */
  lemma SeeDoiCapture()
    ensures "doi:" + Cleanup(SeeDoi[8..]) == "doi:10.1000/xyz123"
  {
    assert SeeDoi[8..] == "10.1000/xyz123.";
    CleanupExampleDot();
    var r := "doi:10.1000/xyz123";
    assert r[..4] == "doi:" && r[4..] == "10.1000/xyz123";
    assert r == r[..4] + r[4..];
  }

  /** The first identifier of "See doi:10.1000/xyz123." is the DOI without the sentence's period. */
  lemma ExtractSeeDoi()
    ensures |ExtractArticleIds(SeeDoi)| > 0
    ensures ExtractArticleIds(SeeDoi)[0] == "doi:10.1000/xyz123"
  {
    SeeDoiFirst();
    SeeDoiCapture();
  }

  // ---------------------------------------------------------------------------
  // An arXiv identifier, with mixed case in its tag.

  const SeeArxiv: string := "Preprint arXiv:1901.01234"

  /** The arXiv pattern matches from position 9 to the end, ignoring case, with the capture `1901.01234`. */
  lemma SeeArxivMatch()
    ensures Matches(ArxivPattern, SeeArxiv, 9, 15, |SeeArxiv|)
  {
    var s := SeeArxiv;
    assert LiteralAt(s, 9, "arxiv:");
    assert ArxivSpan(s, 9, 19, 25);
  }

  /** "Preprint arXiv:1901.01234" holds no `doi`, and `arxiv:` only at position 9. */
  lemma SeeArxivLiterals()
    ensures forall i: nat :: !LiteralAt(SeeArxiv, i, "doi")
    ensures forall i: nat :: i != 9 ==> !LiteralAt(SeeArxiv, i, "arxiv:")
  {
    var s := SeeArxiv;
    NoLiteralIn(s, "doi", 0, |s|);
    NoLiteralIn(s, "arxiv:", 0, 9);
    NoLiteralIn(s, "arxiv:", 10, |s|);
  }

  /** The only identifier found is the capture after `arXiv:`, cleaned and tagged. */
  lemma SeeArxivOnly()
    ensures ExtractArticleIds(SeeArxiv) == ["arxiv:" + Cleanup(SeeArxiv[15..])]
  {
    NoMojibake(SeeArxiv);
    SeeArxivMatch();
    SeeArxivLiterals();
    OnlyArxivOf(SeeArxiv, 9);
  }

  /** An arXiv number is left as it is by the cleanup. */
  lemma SeeArxivCapture()
    ensures "arxiv:" + Cleanup(SeeArxiv[15..]) == "arxiv:1901.01234"
  {
    var c := SeeArxiv[15..];
    assert c == "1901.01234";
    assert AllIn(c, 0, 4, IsDigit) && c[4] == '.' && AllIn(c, 5, |c|, IsDigit);
    ArxivNumberClean(c);
    var r := "arxiv:1901.01234";
    assert r[..6] == "arxiv:" && r[6..] == c;
    assert r == r[..6] + r[6..];
  }

  /** "Preprint arXiv:1901.01234" yields exactly one identifier, tagged in lower case. */
  lemma ExtractSeeArxiv()
    ensures ExtractArticleIds(SeeArxiv) == ["arxiv:1901.01234"]
  {
    SeeArxivOnly();
    SeeArxivCapture();
  }

  // ---------------------------------------------------------------------------
  // A DOI whose slash was mis-decoded.

  const BrokenSlash: string := "doi:10.1000\U{00E5}\U{2026}\U{00BE}xyz"
  const RepairedSlash: string := "doi:10.1000/xyz"

  /** The repair turns the corrupted slash back into `/`. */
  lemma BrokenSlashRepaired()
    ensures Standardize(BrokenSlash) == RepairedSlash
  {
    var s := BrokenSlash;
    var a, b := s[..11], s[14..];
    assert a == "doi:10.1000" && s[11..14] == Mojibake && b == "xyz";
    assert s == a + Mojibake + b by {
      assert s == s[..11] + s[11..14] + s[14..];
    }
    NoMojibake(a);
    NoMojibake(b);
    StandardizeRepairsFirst(a, b);
    StandardizeKeepsClean(b);
    var r := RepairedSlash;
    assert r[..11] == a && r[11..12] == "/" && r[12..] == b;
    assert r == r[..11] + r[11..12] + r[12..];
  }

  /** The DOI pattern matches the whole repaired text, with the capture `10.1000/xyz`. */
  lemma RepairedSlashMatch()
    ensures Matches(DoiPattern, RepairedSlash, 0, 4, |RepairedSlash|)
  {
    var s := RepairedSlash;
    assert LiteralAt(s, 0, "doi") && s[3] == ':';
    assert Separator(s, 3, 4);
    assert DoiSuffixSpan(s, 4, 6, 11, 15);
  }

  /** The first identifier found is the capture of the repaired text, cleaned and tagged. */
  lemma BrokenSlashFirst()
    ensures |ExtractArticleIds(BrokenSlash)| > 0
    ensures ExtractArticleIds(BrokenSlash)[0] == "doi:" + Cleanup(RepairedSlash[4..])
  {
    BrokenSlashRepaired();
    RepairedSlashMatch();
    FirstDoiAfterRepair(BrokenSlash, RepairedSlash, 0, 4);
  }

  /** `10.1000/xyz` holds no garbage. */
  lemma RepairedSlashCapture()
    ensures "doi:" + Cleanup(RepairedSlash[4..]) == "doi:10.1000/xyz"
  {
    var c := RepairedSlash[4..];
    assert c == "10.1000/xyz";
    assert ';' !in c;
    NoSemicolonNoPublished(c);
    assert c[|c| - 1] == 'z';
    CleanupFixpoint(c);
    var r := "doi:10.1000/xyz";
    assert r[..4] == "doi:" && r[4..] == c;
    assert r == r[..4] + r[4..];
  }

  /** A DOI whose slash arrived as "å…¾" is still found, with a real slash. */
  lemma ExtractBrokenSlash()
    ensures |ExtractArticleIds(BrokenSlash)| > 0
    ensures ExtractArticleIds(BrokenSlash)[0] == "doi:10.1000/xyz"
  {
    BrokenSlashFirst();
    RepairedSlashCapture();
  }
}
