/**
 * Properties of the blocks that `extract_text_blocks` yields: every block is
 * non-empty, runs of close text items merge into one block, runs of distant
 * ones split into one block per item, a non-text item is a hard separator,
 * nothing is lost or duplicated when there is no container, and a container
 * replaces the pending text with its own last block.
 */
module PdfProperties {

  import opened Wrappers
  import opened Strings
  import opened Pdf

  // ---------------------------------------------------------------------------
  // Every yielded block is non-empty.

  lemma {:induction false} BlocksNonEmpty(items: seq<Node>, spaceTol: real)
    ensures AllNonEmpty(Blocks(items, spaceTol))
    decreases items, 2
  {
    FoldNonEmpty(Start, items, spaceTol);
  }

  lemma {:induction false} FoldNonEmpty(s: Scan, items: seq<Node>, spaceTol: real)
    requires AllNonEmpty(s.out)
    ensures AllNonEmpty(Fold(s, items, spaceTol).out)
    decreases items, 1
  {
    if items != [] {
      StepNonEmpty(s, items[0], spaceTol);
      FoldNonEmpty(Step(s, items[0], spaceTol), items[1..], spaceTol);
    }
  }

  lemma {:induction false} StepNonEmpty(s: Scan, item: Node, spaceTol: real)
    requires AllNonEmpty(s.out)
    ensures AllNonEmpty(Step(s, item, spaceTol).out)
    decreases item, 0
  {
    if item.Container? {
      BlocksNonEmpty(item.children, spaceTol);
    }
  }

  // ---------------------------------------------------------------------------
  // Running the loop over a concatenation of child lists.

  lemma {:induction false} FoldAppend(s: Scan, a: seq<Node>, b: seq<Node>, spaceTol: real)
    ensures Fold(s, a + b, spaceTol) == Fold(Fold(s, a, spaceTol), b, spaceTol)
    decreases a
  {
    if a == [] {
      assert a + b == b;
    } else {
      assert (a + b)[0] == a[0] && (a + b)[1..] == a[1..] + b;
      FoldAppend(Step(s, a[0], spaceTol), a[1..], b, spaceTol);
    }
  }

  // ---------------------------------------------------------------------------
  // Flat runs of text items.

  /** The content a node contributes when it is visited as a text item. */
  function ContentOf(n: Node): string {
    if n.Text? then n.content else ""
  }

  /** The concatenated contents of the text items among `items`, in order. */
  function TextOf(items: seq<Node>): string {
    if items == [] then "" else ContentOf(items[0]) + TextOf(items[1..])
  }

  /** The contents of `items`, one entry per item. */
  function Contents(items: seq<Node>): (r: seq<string>)
    ensures |r| == |items|
  {
    if items == [] then [] else [ContentOf(items[0])] + Contents(items[1..])
  }

  predicate AllText(items: seq<Node>) {
    forall k :: 0 <= k < |items| ==> items[k].Text?
  }

  /** Item `k` is a text item within `MaxDistance` (its own) of the text item before it. */
  predicate CloseAt(items: seq<Node>, k: nat, spaceTol: real)
    requires 0 < k < |items|
  {
    items[k - 1].Text? && items[k].Text? &&
    HDistance(items[k].box, items[k - 1].box) <= MaxDistance(items[k].box, spaceTol)
  }

  /** Item `k` is a text item further than `MaxDistance` (its own) from the text item before it. */
  predicate DistantAt(items: seq<Node>, k: nat, spaceTol: real)
    requires 0 < k < |items|
  {
    items[k - 1].Text? && items[k].Text? &&
    HDistance(items[k].box, items[k - 1].box) > MaxDistance(items[k].box, spaceTol)
  }

  /** Text items each within `MaxDistance` of the one before. */
  predicate CloseRun(items: seq<Node>, spaceTol: real) {
    AllText(items) && forall k: nat :: 0 < k < |items| ==> CloseAt(items, k, spaceTol)
  }

  /** Text items with non-empty contents, each further than `MaxDistance` from the one before. */
  predicate DistantRun(items: seq<Node>, spaceTol: real) {
    && (forall k :: 0 <= k < |items| ==> items[k].Text? && |items[k].content| > 0)
    && forall k: nat :: 0 < k < |items| ==> DistantAt(items, k, spaceTol)
  }

  lemma {:induction false} FoldCloseRun(s: Scan, items: seq<Node>, spaceTol: real)
    requires CloseRun(items, spaceTol)
    requires |items| > 0 ==> !SplitsFrom(s.prev, items[0].box, spaceTol)
    ensures Fold(s, items, spaceTol).out == s.out
    ensures Fold(s, items, spaceTol).text == s.text + TextOf(items)
    decreases items
  {
    if items != [] {
      var s' := Step(s, items[0], spaceTol);
      assert s' == Scan(s.out, s.text + items[0].content, Some(items[0]));
      var rest := items[1..];
      assert CloseRun(rest, spaceTol) by {
        forall k: nat | 0 < k < |rest| ensures CloseAt(rest, k, spaceTol) {
          assert CloseAt(items, k + 1, spaceTol);
          assert rest[k] == items[k + 1] && rest[k - 1] == items[k];
        }
      }
      if |rest| > 0 {
        assert rest[0] == items[1] && CloseAt(items, 1, spaceTol);
      }
      FoldCloseRun(s', rest, spaceTol);
      assert s.text + items[0].content + TextOf(rest) == s.text + TextOf(items);
    } else {
      assert s.text + "" == s.text;
    }
  }

  /** Close text items give exactly one block, their contents concatenated in order, unless that is empty. */
  lemma BlocksOfCloseRun(items: seq<Node>, spaceTol: real)
    requires CloseRun(items, spaceTol)
    ensures Blocks(items, spaceTol) == if |TextOf(items)| > 0 then [TextOf(items)] else []
  {
    FoldCloseRun(Start, items, spaceTol);
    assert "" + TextOf(items) == TextOf(items);
  }

  lemma DistantRunTail(items: seq<Node>, spaceTol: real)
    requires |items| > 0 && DistantRun(items, spaceTol)
    ensures DistantRun(items[1..], spaceTol)
    ensures |items| > 1 ==> SplitsFrom(Some(items[0]), items[1].box, spaceTol)
  {
    var rest := items[1..];
    forall k: nat | 0 < k < |rest| ensures DistantAt(rest, k, spaceTol) {
      assert DistantAt(items, k + 1, spaceTol);
      assert rest[k] == items[k + 1] && rest[k - 1] == items[k];
    }
    if |items| > 1 {
      assert DistantAt(items, 1, spaceTol);
    }
  }

  lemma {:induction false} FoldDistantRun(s: Scan, items: seq<Node>, spaceTol: real)
    requires DistantRun(items, spaceTol)
    requires |s.text| > 0
    requires |items| > 0 ==> SplitsFrom(s.prev, items[0].box, spaceTol)
    ensures Flush(Fold(s, items, spaceTol)) == s.out + [s.text] + Contents(items)
    decreases items
  {
    if items != [] {
      var first := items[0];
      var s' := Scan(s.out + [s.text], first.content, Some(first));
      assert Step(s, first, spaceTol) == s';
      var rest := items[1..];
      DistantRunTail(items, spaceTol);
      FoldDistantRun(s', rest, spaceTol);
      assert Contents(items) == [first.content] + Contents(rest);
      assert (s.out + [s.text]) + [first.content] + Contents(rest) == s.out + [s.text] + ([first.content] + Contents(rest));
    }
  }

  /** Distant text items with non-empty contents give one block per item, in order. */
  lemma BlocksOfDistantRun(items: seq<Node>, spaceTol: real)
    requires DistantRun(items, spaceTol)
    ensures Blocks(items, spaceTol) == Contents(items)
  {
    if items != [] {
      var s := Scan([], items[0].content, Some(items[0]));
      assert Step(Start, items[0], spaceTol) == s;
      DistantRunTail(items, spaceTol);
      FoldDistantRun(s, items[1..], spaceTol);
      assert Contents(items) == [items[0].content] + Contents(items[1..]);
    }
  }

  /** The gap before a text item is only tested after a text item: after anything else its content just joins the pending text. */
  lemma StepTextAfterNonText(s: Scan, box: Box, content: string, spaceTol: real)
    requires s.prev.None? || !s.prev.value.Text?
    ensures Step(s, Text(box, content), spaceTol) == Scan(s.out, s.text + content, Some(Text(box, content)))
  {
  }

  // ---------------------------------------------------------------------------
  // A non-text item is a hard separator.

  lemma {:induction false} FoldOutPrefix(o: seq<string>, s: Scan, items: seq<Node>, spaceTol: real)
    ensures Fold(Scan(o + s.out, s.text, s.prev), items, spaceTol)
         == Scan(o + Fold(s, items, spaceTol).out, Fold(s, items, spaceTol).text, Fold(s, items, spaceTol).prev)
    decreases items
  {
    if items != [] {
      var t := Step(s, items[0], spaceTol);
      var t' := Step(Scan(o + s.out, s.text, s.prev), items[0], spaceTol);
      assert t' == Scan(o + t.out, t.text, t.prev) by {
        assert (o + s.out) + [s.text] == o + (s.out + [s.text]);
        if items[0].Container? {
          assert (o + s.out) + Blocks(items[0].children, spaceTol) == o + (s.out + Blocks(items[0].children, spaceTol));
        }
      }
      FoldOutPrefix(o, t, items[1..], spaceTol);
    }
  }

  /** A prefix of the output is passed through: running from output `o` adds `o` in front of what `Start` yields. */
  lemma FlushFromOutput(o: seq<string>, p: Option<Node>, items: seq<Node>, spaceTol: real)
    requires p.None? || !p.value.Text?
    ensures Flush(Fold(Scan(o, "", p), items, spaceTol)) == o + Blocks(items, spaceTol)
  {
    var r := Fold(Start, items, spaceTol);
    FoldOutPrefix(o, Start, items, spaceTol);
    assert o + Start.out == o;
    if items == [] {
      assert o + [] == o;
    } else {
      assert Step(Scan(o, "", p), items[0], spaceTol) == Step(Scan(o, "", None), items[0], spaceTol);
      assert Fold(Scan(o, "", p), items, spaceTol) == Fold(Scan(o, "", None), items, spaceTol);
      assert (o + r.out) + [r.text] == o + (r.out + [r.text]);
    }
  }

  /** An `Other` item flushes the pending text and starts afresh: the blocks on either side are independent. */
  lemma OtherSeparates(a: seq<Node>, b: seq<Node>, spaceTol: real)
    ensures Blocks(a + [Other] + b, spaceTol) == Blocks(a, spaceTol) + Blocks(b, spaceTol)
  {
    FoldAppend(Start, a + [Other], b, spaceTol);
    FoldAppend(Start, a, [Other], spaceTol);
    var before := Fold(Start, a, spaceTol);
    assert Fold(before, [Other], spaceTol) == Scan(Flush(before), "", Some(Other));
    FlushFromOutput(Flush(before), Some(Other), b, spaceTol);
  }

  /**
   * Two text items close enough to merge into one block are split into two
   * blocks by an `Other` between them, whatever `spaceTol` is.
   */
  lemma OtherSplitsCloseItems(b1: Box, c1: string, b2: Box, c2: string, spaceTol: real)
    requires |c1| > 0 && |c2| > 0
    requires HDistance(b2, b1) <= MaxDistance(b2, spaceTol)
    ensures Blocks([Text(b1, c1), Text(b2, c2)], spaceTol) == [c1 + c2]
    ensures Blocks([Text(b1, c1), Other, Text(b2, c2)], spaceTol) == [c1, c2]
  {
    var t1, t2 := Text(b1, c1), Text(b2, c2);
    assert CloseAt([t1, t2], 1, spaceTol);
    BlocksOfCloseRun([t1, t2], spaceTol);
    assert TextOf([t2]) == c2 by { assert [t2][1..] == []; }
    assert TextOf([t1, t2]) == c1 + c2 by { assert [t1, t2][1..] == [t2]; }
    OtherSeparates([t1], [t2], spaceTol);
    assert [t1] + [Other] + [t2] == [t1, Other, t2];
    BlocksOfCloseRun([t1], spaceTol);
    BlocksOfCloseRun([t2], spaceTol);
    assert TextOf([t1]) == c1 && TextOf([t2]) == c2;
  }

  // ---------------------------------------------------------------------------
  // Without containers nothing is lost and nothing is duplicated.

  predicate NoContainers(items: seq<Node>) {
    forall k :: 0 <= k < |items| ==> !items[k].Container?
  }

  lemma ConcatFlush(s: Scan)
    ensures Concat(Flush(s)) == Concat(s.out) + s.text
  {
    if |s.text| != 0 {
      ConcatAppend(s.out, [s.text]);
      assert Concat([s.text]) == s.text + Concat([]);
    } else {
      assert Concat(s.out) + s.text == Concat(s.out);
    }
  }

  /** One non-container step adds its content to the output and pending text taken together. */
  lemma StepConcat(s: Scan, item: Node, spaceTol: real)
    requires !item.Container?
    ensures Concat(Step(s, item, spaceTol).out) + Step(s, item, spaceTol).text == Concat(s.out) + s.text + ContentOf(item)
  {
    ConcatFlush(s);
    match item
    case Text(box, content) =>
      if !SplitsFrom(s.prev, box, spaceTol) {
        assert Concat(s.out) + (s.text + content) == Concat(s.out) + s.text + content;
      }
    case Other =>
      assert Concat(Flush(s)) + "" == Concat(Flush(s));
  }

  lemma {:induction false} FoldConcat(s: Scan, items: seq<Node>, spaceTol: real)
    requires NoContainers(items)
    ensures Concat(Fold(s, items, spaceTol).out) + Fold(s, items, spaceTol).text
         == Concat(s.out) + s.text + TextOf(items)
    decreases items
  {
    if items == [] {
      assert Concat(s.out) + s.text + "" == Concat(s.out) + s.text;
    } else {
      var t := Step(s, items[0], spaceTol);
      StepConcat(s, items[0], spaceTol);
      var rest := items[1..];
      assert NoContainers(rest) by {
        forall k | 0 <= k < |rest| ensures !rest[k].Container? {
          assert rest[k] == items[k + 1];
        }
      }
      FoldConcat(t, rest, spaceTol);
      var x := Concat(s.out) + s.text;
      assert x + ContentOf(items[0]) + TextOf(rest) == x + (ContentOf(items[0]) + TextOf(rest));
    }
  }

  /** For child lists without containers, the blocks concatenated are the text contents concatenated. */
  lemma BlocksPreserveText(items: seq<Node>, spaceTol: real)
    requires NoContainers(items)
    ensures Concat(Blocks(items, spaceTol)) == TextOf(items)
  {
    FoldConcat(Start, items, spaceTol);
    ConcatFlush(Fold(Start, items, spaceTol));
    assert Concat(Start.out) + Start.text + TextOf(items) == TextOf(items);
  }

  // ---------------------------------------------------------------------------
  // Containers: the accumulator is rebound to each block of the container.

  /**
   * A container whose children yield nothing changes nothing; otherwise its blocks are
   * replayed, the pending text before it is dropped, and its last block is yielded again.
   */
  lemma ContainerReplays(a: seq<Node>, children: seq<Node>, spaceTol: real)
    ensures var sub := Blocks(children, spaceTol);
      sub == [] ==> Blocks(a + [Container(children)], spaceTol) == Blocks(a, spaceTol)
    ensures var sub := Blocks(children, spaceTol);
      sub != [] ==> Blocks(a + [Container(children)], spaceTol)
                    == Fold(Start, a, spaceTol).out + sub + [sub[|sub| - 1]]
  {
    FoldAppend(Start, a, [Container(children)], spaceTol);
    var sub := Blocks(children, spaceTol);
    BlocksNonEmpty(children, spaceTol);
    if sub == [] {
      var s := Fold(Start, a, spaceTol);
      assert s.out + sub == s.out;
    }
  }

  /** `[Text "a", Container [Text "b"]]` yields `["b", "b"]`: the pending "a" is lost and "b" is yielded twice. */
  lemma ContainerExample(box: Box, spaceTol: real)
    ensures Blocks([Text(box, "a"), Container([Text(box, "b")])], spaceTol) == ["b", "b"]
  {
    var ta, tb := Text(box, "a"), Text(box, "b");
    BlocksOfCloseRun([tb], spaceTol);
    assert TextOf([tb]) == "b";
    ContainerReplays([ta], [tb], spaceTol);
    assert [ta] + [Container([tb])] == [ta, Container([tb])];
    assert Fold(Start, [ta], spaceTol) == Scan([], "a", Some(ta));
  }

  /** The last sub-block stays pending: `[Text "a", Container [Text "b"], Text "c"]` yields `["b", "bc"]`. */
  lemma ContainerThenText(box: Box, spaceTol: real)
    ensures Blocks([Text(box, "a"), Container([Text(box, "b")]), Text(box, "c")], spaceTol) == ["b", "bc"]
  {
    var ta, tb, tc := Text(box, "a"), Text(box, "b"), Text(box, "c");
    var items := [ta, Container([tb]), tc];
    BlocksOfCloseRun([tb], spaceTol);
    assert TextOf([tb]) == "b";
    var s1 := Step(Start, ta, spaceTol);
    assert s1 == Scan([], "a", Some(ta));
    var s2 := Step(s1, Container([tb]), spaceTol);
    assert s2 == Scan(["b"], "b", Some(Container([tb])));
    var s3 := Step(s2, tc, spaceTol);
    assert s3 == Scan(["b"], "bc", Some(tc));
    assert items[1..] == [Container([tb]), tc] && items[1..][1..] == [tc] && items[1..][1..][1..] == [];
    assert Fold(Start, items, spaceTol) == Fold(s1, items[1..], spaceTol);
    assert Fold(s1, items[1..], spaceTol) == Fold(s2, [tc], spaceTol);
    assert Fold(s2, [tc], spaceTol) == s3;
  }

  /**
   * The gap is tested only against a text predecessor: an empty container between two
   * fragments hides the gap, so they merge even where, side by side, they would split.
   */
  lemma EmptyContainerHidesGap(b1: Box, c1: string, b2: Box, c2: string, spaceTol: real)
    requires |c1| > 0 && |c2| > 0
    ensures Blocks([Text(b1, c1), Container([]), Text(b2, c2)], spaceTol) == [c1 + c2]
    ensures HDistance(b2, b1) > MaxDistance(b2, spaceTol) ==> Blocks([Text(b1, c1), Text(b2, c2)], spaceTol) == [c1, c2]
  {
    var t1, t2 := Text(b1, c1), Text(b2, c2);
    var items := [t1, Container([]), t2];
    assert Blocks([], spaceTol) == [];
    var s1 := Step(Start, t1, spaceTol);
    assert s1 == Scan([], c1, Some(t1));
    var s2 := Step(s1, Container([]), spaceTol);
    assert s2 == Scan([], c1, Some(Container([])));
    var s3 := Step(s2, t2, spaceTol);
    assert s3 == Scan([], c1 + c2, Some(t2));
    assert items[1..] == [Container([]), t2] && items[1..][1..] == [t2] && items[1..][1..][1..] == [];
    assert Fold(Start, items, spaceTol) == Fold(s1, items[1..], spaceTol);
    assert Fold(s1, items[1..], spaceTol) == Fold(s2, [t2], spaceTol);
    assert Fold(s2, [t2], spaceTol) == s3;
    if HDistance(b2, b1) > MaxDistance(b2, spaceTol) {
      var pair := [t1, t2];
      assert DistantAt(pair, 1, spaceTol);
      BlocksOfDistantRun(pair, spaceTol);
      assert Contents(pair) == [c1, c2];
    }
  }

  /** pdfminer's horizontal distance does not depend on the order of the two boxes. */
  lemma HDistanceSymmetric(a: Box, b: Box)
    ensures HDistance(a, b) == HDistance(b, a)
  {
  }

  /** For boxes side by side, left one first, the distance is the gap between the facing edges. */
  lemma HDistanceGap(a: Box, b: Box)
    requires a.x0 <= a.x1 && b.x0 <= b.x1 && a.x1 < b.x0
    ensures HDistance(a, b) == b.x0 - a.x1 && HDistance(b, a) == b.x0 - a.x1
  {
  }

  // ---------------------------------------------------------------------------
  // Two fragments "Hello" and "World", 10 units wide and 12 high, 3 units apart.

  const HelloBox: Box := Box(0.0, 0.0, 10.0, 12.0)
  const WorldBox: Box := Box(13.0, 0.0, 23.0, 12.0)

  /** With `space_tol` 1.0 the gap of 3 is within 10 and the fragments merge; with 0.1 the limit is 1.0 and they split. */
  lemma HelloWorld()
    ensures Blocks([Text(HelloBox, "Hello"), Text(WorldBox, "World")], 1.0) == ["HelloWorld"]
    ensures Blocks([Text(HelloBox, "Hello"), Text(WorldBox, "World")], 0.1) == ["Hello", "World"]
  {
    var items := [Text(HelloBox, "Hello"), Text(WorldBox, "World")];
    assert HDistance(WorldBox, HelloBox) == 3.0;
    assert MaxDistance(WorldBox, 1.0) == 10.0;
    assert MaxDistance(WorldBox, 0.1) == 1.0;
    assert CloseAt(items, 1, 1.0);
    BlocksOfCloseRun(items, 1.0);
    assert TextOf(items[1..]) == "World" by { assert items[1..][1..] == []; }
    assert TextOf(items) == "HelloWorld";
    assert DistantAt(items, 1, 0.1);
    BlocksOfDistantRun(items, 0.1);
    assert Contents(items) == ["Hello", "World"];
  }
}
