/**
 * Text-block reconstruction over a pdfminer layout tree (`extract_text_blocks`).
 *
 * The generator walks the children of a layout object, glues horizontally
 * adjacent text items into one block, and yields a block whenever the gap
 * before a text item is too wide, a non-text item interrupts the run, or the
 * children are exhausted. Containers are descended into recursively.
 *
 * `Fold`/`Blocks` specify the generator's output as a finite sequence; the
 * method `ExtractTextBlocks` is the loop itself, proved to produce `Blocks`.
 */
module Pdf {

  import opened Wrappers

  /** A bounding box in page units: pdfminer's `(x0, y0, x1, y1)`. */
  datatype Box = Box(x0: real, y0: real, x1: real, y1: real)

  /** pdfminer's `width`. */
  function Width(b: Box): real {
    b.x1 - b.x0
  }

  /** pdfminer's `height`. */
  function Height(b: Box): real {
    b.y1 - b.y0
  }

  function Min(a: real, b: real): (r: real)
    ensures r <= a && r <= b
    ensures r == a || r == b
  {
    if a <= b then a else b
  }

  function Abs(x: real): (r: real)
    ensures r >= 0.0
    ensures r == x || r == -x
  {
    if x < 0.0 then -x else x
  }

  /** pdfminer's `is_hoverlap`: the horizontal projections of the two boxes meet. */
  predicate HOverlap(a: Box, b: Box) {
    b.x0 <= a.x1 && a.x0 <= b.x1
  }

  /**
   * pdfminer's `a.hdistance(b)`: zero when the horizontal projections meet,
   * otherwise the smaller distance between an edge of one box and the facing edge of the other.
   */
  function HDistance(a: Box, b: Box): (d: real)
    ensures d >= 0.0
    ensures HOverlap(a, b) ==> d == 0.0
    ensures !HOverlap(a, b) ==> d <= Abs(a.x0 - b.x1) && d <= Abs(a.x1 - b.x0)
    ensures !HOverlap(a, b) ==> d == Abs(a.x0 - b.x1) || d == Abs(a.x1 - b.x0)
  {
    if HOverlap(a, b) then 0.0 else Min(Abs(a.x0 - b.x1), Abs(a.x1 - b.x0))
  }

  /**
   * A layout object, classified by the tests of `extract_text_blocks` in their order:
   * anything that is `LTText` is a `Text` leaf (its content is `get_text()`), even when
   * it is also a container; other `LTContainer`s are `Container`s; everything else is `Other`.
   */
  datatype Node =
    | Text(box: Box, content: string)
    | Container(children: seq<Node>)
    | Other

  /** The largest gap before a text item that still continues the block: `space_tol * min(width, height)` of that item. */
  function MaxDistance(box: Box, spaceTol: real): real {
    spaceTol * Min(Width(box), Height(box))
  }

  /** The split test for a text item with box `box`: only a text predecessor further away than `MaxDistance` splits. */
  predicate SplitsFrom(prev: Option<Node>, box: Box, spaceTol: real) {
    prev.Some? && prev.value.Text? && HDistance(box, prev.value.box) > MaxDistance(box, spaceTol)
  }

  /**
   * The generator's state after some children: the blocks yielded so far (`out`),
   * the pending accumulator `text`, and the previous sibling `prev_item`.
   */
  datatype Scan = Scan(out: seq<string>, text: string, prev: Option<Node>)

  const Start: Scan := Scan([], "", None)

  /** The output once the pending text is yielded, if it is non-empty. */
  function Flush(s: Scan): seq<string> {
    if |s.text| != 0 then s.out + [s.text] else s.out
  }

  /** One iteration of the loop over the children, for the child `item`. */
  function Step(s: Scan, item: Node, spaceTol: real): Scan
    decreases item, 0
  {
    match item
    case Text(box, content) =>
      if SplitsFrom(s.prev, box, spaceTol) then Scan(Flush(s), content, Some(item))
      else Scan(s.out, s.text + content, Some(item))
    case Container(children) =>
      // The inner loop rebinds the accumulator to each block of the container.
      var sub := Blocks(children, spaceTol);
      Scan(s.out + sub, if |sub| > 0 then sub[|sub| - 1] else s.text, Some(item))
    case Other =>
      Scan(Flush(s), "", Some(item))
  }

  /** The loop over `items`, started in state `s`. */
  function Fold(s: Scan, items: seq<Node>, spaceTol: real): Scan
    decreases items, 1
  {
    if items == [] then s else Fold(Step(s, items[0], spaceTol), items[1..], spaceTol)
  }

  /** Everything `extract_text_blocks` yields for a layout object whose children are `items`. */
  function Blocks(items: seq<Node>, spaceTol: real): seq<string>
    decreases items, 2
  {
    Flush(Fold(Start, items, spaceTol))
  }

  /** All blocks are non-empty strings. */
  predicate AllNonEmpty(blocks: seq<string>) {
    forall k :: 0 <= k < |blocks| ==> |blocks[k]| > 0
  }

  /** The generator itself: a loop over the children with the accumulator and the previous item. */
  method ExtractTextBlocks(layout: seq<Node>, spaceTol: real) returns (blocks: seq<string>)
    ensures blocks == Blocks(layout, spaceTol)
    decreases layout
  {
    var text := "";
    var prevItem: Option<Node> := None;
    blocks := [];
    var i := 0;
    while i < |layout|
      invariant 0 <= i <= |layout|
      invariant Fold(Scan(blocks, text, prevItem), layout[i..], spaceTol) == Fold(Start, layout, spaceTol)
    {
      var item := layout[i];
      ghost var before := Scan(blocks, text, prevItem);
      assert layout[i..][0] == item && layout[i..][1..] == layout[i + 1..];
      match item {
        case Text(box, content) =>
          var maxDistance := spaceTol * Min(Width(box), Height(box));
          if prevItem.Some? && prevItem.value.Text? && HDistance(box, prevItem.value.box) > maxDistance {
            if |text| > 0 {
              blocks := blocks + [text];
              text := "";
            }
          }
          text := text + content;
        case Container(children) =>
          var sub := ExtractTextBlocks(children, spaceTol);
          ghost var done, pending := blocks, text;
          for j := 0 to |sub|
            invariant blocks == done + sub[..j]
            invariant j > 0 ==> text == sub[j - 1]
            invariant j == 0 ==> text == pending
          {
            text := sub[j];
            blocks := blocks + [text];
          }
          assert sub[..|sub|] == sub;
        case Other =>
          if |text| != 0 {
            blocks := blocks + [text];
            text := "";
          }
      }
      prevItem := Some(item);
      assert Scan(blocks, text, prevItem) == Step(before, item, spaceTol);
      i := i + 1;
    }
    if |text| != 0 {
      blocks := blocks + [text];
    }
  }
}
