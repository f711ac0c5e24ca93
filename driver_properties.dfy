/**
 * Properties of `extract_article_id`: which pages it looks at, and what it
 * can return.
 */
module DriverProperties {

  import opened Wrappers
  import opened Strings
  import opened Pdf
  import opened Heuristics
  import opened HeuristicsProperties
  import opened Driver

  /** Pages from index `maxPage` on are never examined: documents that agree on the first `maxPage` pages give the same result. */
  lemma PagesBeyondLimitIgnored(pages: seq<seq<Node>>, others: seq<seq<Node>>, maxPage: int, spaceTol: real)
    requires 0 <= maxPage <= |pages| && maxPage <= |others|
    requires pages[..maxPage] == others[..maxPage]
    ensures FirstArticleId(pages, maxPage, spaceTol) == FirstArticleId(others, maxPage, spaceTol)
  {
    var a := IdsPerPage(pages, spaceTol)[..maxPage];
    var b := IdsPerPage(others, spaceTol)[..maxPage];
    forall k | 0 <= k < maxPage ensures a[k] == b[k] {
      assert pages[k] == pages[..maxPage][k] == others[..maxPage][k] == others[k];
    }
    assert a == b;
  }

  /** With `maxPage == 0` the loop breaks before the first page. */
  lemma MaxPageZero(pages: seq<seq<Node>>, spaceTol: real)
    ensures FirstArticleId(pages, 0, spaceTol) == None
  {
    assert IdsPerPage(pages, spaceTol)[..0] == [];
  }

  /** A document without pages has no identifier; that is not an error. */
  lemma NoPages(maxPage: int, spaceTol: real)
    ensures FirstArticleId([], maxPage, spaceTol) == None
  {
    assert IdsPerPage([], spaceTol) == [];
  }

  /** A negative `maxPage` never equals a page index, so every page is scanned. */
  lemma NegativeMaxPageScansAll(pages: seq<seq<Node>>, maxPage: int, spaceTol: real)
    requires maxPage < 0
    ensures ScannedIds(pages, maxPage, spaceTol) == Flatten(IdsPerPage(pages, spaceTol))
  {
    assert IdsPerPage(pages, spaceTol)[..|pages|] == IdsPerPage(pages, spaceTol);
  }

  /** An identifier as the heuristics produce it. */
  predicate IsTagged(id: string) {
    StartsWith(id, "doi:") || StartsWith(id, "arxiv:")
  }

  /** The concatenation holds only elements of the lists it concatenates. */
  lemma {:induction false} FlattenTagged(xss: seq<seq<string>>)
    requires forall i, k :: 0 <= i < |xss| && 0 <= k < |xss[i]| ==> IsTagged(xss[i][k])
    ensures forall k :: 0 <= k < |Flatten(xss)| ==> IsTagged(Flatten(xss)[k])
  {
    if xss != [] {
      FlattenTagged(xss[1..]);
      assert forall i, k :: 0 <= i < |xss[1..]| && 0 <= k < |xss[1..][i]| ==> IsTagged(xss[1..][i][k]) by {
        forall i, k | 0 <= i < |xss[1..]| && 0 <= k < |xss[1..][i]| ensures IsTagged(xss[1..][i][k]) {
          assert xss[1..][i] == xss[i + 1];
        }
      }
      var f := Flatten(xss);
      forall k | 0 <= k < |f| ensures IsTagged(f[k]) {
        if k >= |xss[0]| {
          assert f[k] == Flatten(xss[1..])[k - |xss[0]|];
        }
      }
    }
  }

  /** Every identifier of a page is tagged. */
  lemma PageIdsTagged(page: seq<Node>, spaceTol: real)
    ensures forall k :: 0 <= k < |Flatten(IdsPerBlock(Blocks(page, spaceTol)))| ==>
      IsTagged(Flatten(IdsPerBlock(Blocks(page, spaceTol)))[k])
  {
    var xss := IdsPerBlock(Blocks(page, spaceTol));
    forall i, k | 0 <= i < |xss| && 0 <= k < |xss[i]| ensures IsTagged(xss[i][k]) {
      ExtractArticleIdsTagged(Blocks(page, spaceTol)[i]);
    }
    FlattenTagged(xss);
  }

  /** A result other than `None` starts with "doi:" or "arxiv:". */
  lemma ResultTagged(pages: seq<seq<Node>>, maxPage: int, spaceTol: real)
    ensures FirstArticleId(pages, maxPage, spaceTol).Some? ==> IsTagged(FirstArticleId(pages, maxPage, spaceTol).value)
  {
    var xss := IdsPerPage(pages, spaceTol)[..ScanLimit(|pages|, maxPage)];
    forall i, k | 0 <= i < |xss| && 0 <= k < |xss[i]| ensures IsTagged(xss[i][k]) {
      PageIdsTagged(pages[i], spaceTol);
    }
    FlattenTagged(xss);
  }
}
