/**
 * The driver `extract_article_id`: scan the leading pages of a document,
 * block by block, and return the first identifier the heuristics find.
 *
 * A document is the sequence of its pages, each page the children of its
 * layout object; a document that may not be extracted is the empty sequence.
 */
module Driver {

  import opened Wrappers
  import opened Strings
  import opened Pdf
  import opened Heuristics

  /** The concatenation of a sequence of identifier lists, in order. */
  function Flatten(xss: seq<seq<string>>): seq<string> {
    if xss == [] then [] else xss[0] + Flatten(xss[1..])
  }

  /** The identifiers of each block. */
  function IdsPerBlock(blocks: seq<string>): (r: seq<seq<string>>)
    ensures |r| == |blocks|
  {
    seq(|blocks|, k requires 0 <= k < |blocks| => ExtractArticleIds(blocks[k]))
  }

  /** The identifiers of each page: those of its blocks, block after block. */
  function IdsPerPage(pages: seq<seq<Node>>, spaceTol: real): (r: seq<seq<string>>)
    ensures |r| == |pages|
  {
    seq(|pages|, k requires 0 <= k < |pages| => Flatten(IdsPerBlock(Blocks(pages[k], spaceTol))))
  }

  /**
   * How many leading pages are scanned: the page loop stops at the first index equal to `maxPage`
   * (no earlier index equals it), or after the last page; a negative `maxPage` is never reached.
   */
  function ScanLimit(pageCount: nat, maxPage: int): (n: nat)
    ensures n <= pageCount
    ensures n == pageCount || n == maxPage
    ensures !(0 <= maxPage < n)
  {
    if 0 <= maxPage <= pageCount then maxPage else pageCount
  }

  /** Every identifier of the scanned pages, in scanning order. */
  function ScannedIds(pages: seq<seq<Node>>, maxPage: int, spaceTol: real): seq<string> {
    Flatten(IdsPerPage(pages, spaceTol)[..ScanLimit(|pages|, maxPage)])
  }

  /** The first identifier over the scanned pages, then blocks, then identifiers, if there is one. */
  function FirstArticleId(pages: seq<seq<Node>>, maxPage: int, spaceTol: real): Option<string> {
    var ids := ScannedIds(pages, maxPage, spaceTol);
    if |ids| > 0 then Some(ids[0]) else None
  }

  lemma {:induction false} FlattenAppend(a: seq<seq<string>>, b: seq<seq<string>>)
    ensures Flatten(a + b) == Flatten(a) + Flatten(b)
  {
    if a == [] {
      assert a + b == b;
    } else {
      assert (a + b)[1..] == a[1..] + b;
      FlattenAppend(a[1..], b);
    }
  }

  /** After lists that were all empty, the next list is all there is so far. */
  lemma FlattenExtend(xss: seq<seq<string>>, i: nat)
    requires i < |xss| && Flatten(xss[..i]) == []
    ensures Flatten(xss[..i + 1]) == xss[i]
  {
    assert xss[..i + 1] == xss[..i] + [xss[i]];
    FlattenAppend(xss[..i], [xss[i]]);
    assert Flatten([xss[i]]) == xss[i] + Flatten([]);
  }

  /** The head of the concatenation is the head of the first non-empty list. */
  lemma FlattenFirst(xss: seq<seq<string>>, i: nat)
    requires i < |xss| && Flatten(xss[..i]) == [] && |xss[i]| > 0
    ensures |Flatten(xss)| > 0 && Flatten(xss)[0] == xss[i][0]
  {
    FlattenExtend(xss, i);
    assert xss == xss[..i + 1] + xss[i + 1..];
    FlattenAppend(xss[..i + 1], xss[i + 1..]);
  }

  /** `extract_article_id`: the page loop with its index and `break`, the block loop, and the early return of the first hit. */
  method ExtractArticleId(pages: seq<seq<Node>>, maxPage: int, spaceTol: real) returns (r: Option<string>)
    ensures r == FirstArticleId(pages, maxPage, spaceTol)
  {
    ghost var perPage := IdsPerPage(pages, spaceTol)[..ScanLimit(|pages|, maxPage)];
    var pageIndex := 0;
    while pageIndex < |pages|
      invariant 0 <= pageIndex <= ScanLimit(|pages|, maxPage)
      invariant Flatten(perPage[..pageIndex]) == []
    {
      if pageIndex == maxPage {
        break;
      }
      var blocks := ExtractTextBlocks(pages[pageIndex], spaceTol);
      ghost var perBlock := IdsPerBlock(blocks);
      assert perPage[pageIndex] == Flatten(perBlock);
      var b := 0;
      while b < |blocks|
        invariant 0 <= b <= |blocks|
        invariant Flatten(perBlock[..b]) == []
      {
        var ids := ExtractArticleIds(blocks[b]);
        assert perBlock[b] == ids;
        if |ids| > 0 {
          FlattenFirst(perBlock, b);
          FlattenFirst(perPage, pageIndex);
          return Some(ids[0]);
        }
        FlattenExtend(perBlock, b);
        b := b + 1;
      }
      assert perBlock[..b] == perBlock;
      FlattenExtend(perPage, pageIndex);
      pageIndex := pageIndex + 1;
    }
    assert perPage[..pageIndex] == perPage;
    return None;
  }
}
