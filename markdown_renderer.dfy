/**
 * The explanation renderer of the quiz view, at the level of lines: the text
 * is split on '\n', each line becomes a bullet item, a call-out, a paragraph
 * or nothing (blank), and consecutive items are gathered into one list.
 */
module MarkdownRenderer {
  import opened Wrappers
  import opened JsText

  datatype Element = Item(text: string) | Callout(line: string) | Paragraph(line: string)

  datatype Block = BulletList(items: seq<string>) | Single(element: Element)

  // ------------------------------------------------------------ splitting

  /** `text.split('\n')` */
  function SplitLines(text: string): (lines: seq<string>)
    ensures |lines| > 0
    ensures forall i :: 0 <= i < |lines| ==> '\n' !in lines[i]
  {
    if text == [] then [""]
    else
      var rest := SplitLines(text[1..]);
      if text[0] == '\n' then [""] + rest
      else [[text[0]] + rest[0]] + rest[1..]
  }

  /** `lines.join('\n')` */
  function JoinLines(lines: seq<string>): string
    requires |lines| > 0
  {
    if |lines| == 1 then lines[0] else lines[0] + "\n" + JoinLines(lines[1..])
  }

  /** Splitting loses nothing: joining the lines with '\n' gives the text back. */
  lemma {:induction false} JoinSplitLines(text: string)
    ensures JoinLines(SplitLines(text)) == text
  {
    if text != [] {
      var rest := SplitLines(text[1..]);
      JoinSplitLines(text[1..]);
      if text[0] == '\n' {
        assert SplitLines(text) == [""] + rest;
        assert ([""] + rest)[1..] == rest;
      } else {
        var lines := SplitLines(text);
        assert lines == [[text[0]] + rest[0]] + rest[1..];
        if |rest| > 1 {
          assert lines[1..] == rest[1..];
        }
      }
    }
  }

  /** Conversely, lines without '\n' split back out of their join unchanged. */
  lemma {:induction false} SplitJoinLines(lines: seq<string>)
    requires |lines| > 0
    requires forall i :: 0 <= i < |lines| ==> '\n' !in lines[i]
    ensures SplitLines(JoinLines(lines)) == lines
  {
    if |lines| == 1 {
      SplitLineWithoutNewline(lines[0]);
    } else {
      SplitJoinLines(lines[1..]);
      SplitPrefix(lines[0], JoinLines(lines[1..]));
    }
  }

  lemma {:induction false} SplitLineWithoutNewline(line: string)
    requires '\n' !in line
    ensures SplitLines(line) == [line]
  {
    if line != [] {
      SplitLineWithoutNewline(line[1..]);
      assert [line[0]] + line[1..] == line;
    }
  }

  /** A line without '\n' in front of "\n" + rest becomes the first of the lines. */
  lemma {:induction false} SplitPrefix(line: string, rest: string)
    requires '\n' !in line
    ensures SplitLines(line + "\n" + rest) == [line] + SplitLines(rest)
  {
    if line == [] {
      assert line + "\n" + rest == "\n" + rest;
      assert ("\n" + rest)[1..] == rest;
    } else {
      assert (line + "\n" + rest)[1..] == line[1..] + "\n" + rest;
      SplitPrefix(line[1..], rest);
      assert [line[0]] + line[1..] == line;
    }
  }

  // ------------------------------------------------------- classification

  predicate IsItemLine(line: string) {
    |line| >= 2 && (line[..2] == "* " || line[..2] == "- ")
  }

  /** `/^(🔐|💡|✅|❌)\s/` */
  predicate IsCalloutLine(line: string) {
    && |line| >= 2
    && (line[0] == '\U{1F510}' || line[0] == '\U{1F4A1}' || line[0] == '\U{2705}' || line[0] == '\U{274C}')
    && IsJsWhitespace(line[1])
  }

  /** The per-line map: items first, then call-outs, then blank lines are dropped, then paragraphs. */
  function ClassifyLine(line: string): (r: Option<Element>)
    ensures r.None? <==> !IsItemLine(line) && IsBlank(line)
    ensures r.Some? && r.value.Item? <==> IsItemLine(line)
    ensures r.Some? && r.value.Item? ==> line == line[..2] + r.value.text
    ensures r.Some? && !r.value.Item? ==> r.value.line == line
    ensures r.Some? && r.value.Callout? <==> !IsItemLine(line) && IsCalloutLine(line)
    ensures r.Some? && r.value.Paragraph? <==> !IsItemLine(line) && !IsCalloutLine(line) && !IsBlank(line)
  {
    if IsItemLine(line) then Some(Item(line[2..]))
    else if IsCalloutLine(line) then Some(Callout(line))
    else if IsBlank(line) then None
    else Some(Paragraph(line))
  }

  /** The lines' elements in order, blank lines dropped (`map` then `filter(Boolean)`). */
  function ClassifyLines(lines: seq<string>): (es: seq<Element>)
    ensures |es| <= |lines|
    ensures forall i :: 0 <= i < |es| ==> !es[i].Item? ==> !IsBlank(es[i].line)
    ensures forall i :: 0 <= i < |lines| && ClassifyLine(lines[i]).Some? ==> ClassifyLine(lines[i]).value in es
    ensures forall e :: e in es ==> exists i :: 0 <= i < |lines| && ClassifyLine(lines[i]) == Some(e)
  {
    if lines == [] then []
    else
      var rest := ClassifyLines(lines[1..]);
      assert forall i :: 1 <= i < |lines| ==> lines[i] == lines[1..][i - 1];
      (match ClassifyLine(lines[0]) case Some(e) => [e] case None => []) + rest
  }

  lemma {:induction false} ClassifyLinesAppend(a: seq<string>, b: seq<string>)
    ensures ClassifyLines(a + b) == ClassifyLines(a) + ClassifyLines(b)
  {
    if a == [] {
      assert a + b == b;
    } else {
      assert (a + b)[0] == a[0] && (a + b)[1..] == a[1..] + b;
      ClassifyLinesAppend(a[1..], b);
    }
  }

  // ------------------------------------------------------------ grouping

  function Items(texts: seq<string>): (es: seq<Element>)
    ensures |es| == |texts| && forall i :: 0 <= i < |texts| ==> es[i] == Item(texts[i])
  {
    seq(|texts|, i requires 0 <= i < |texts| => Item(texts[i]))
  }

  lemma ItemsSnoc(texts: seq<string>, t: string)
    ensures Items(texts + [t]) == Items(texts) + [Item(t)]
  {
  }

  function BlockElements(b: Block): seq<Element> {
    match b
    case BulletList(texts) => Items(texts)
    case Single(e) => [e]
  }

  /** The elements of the blocks, in order. */
  function Flatten(blocks: seq<Block>): seq<Element> {
    if blocks == [] then [] else BlockElements(blocks[0]) + Flatten(blocks[1..])
  }

  lemma {:induction false} FlattenAppend(a: seq<Block>, b: seq<Block>)
    ensures Flatten(a + b) == Flatten(a) + Flatten(b)
  {
    if a == [] {
      assert a + b == b;
    } else {
      assert (a + b)[0] == a[0] && (a + b)[1..] == a[1..] + b;
      FlattenAppend(a[1..], b);
    }
  }

  /** Lists are non-empty and hold every item, and no two lists are adjacent: each list is a maximal run of items. */
  ghost predicate WellGrouped(blocks: seq<Block>) {
    && (forall i :: 0 <= i < |blocks| ==> blocks[i].BulletList? ==> |blocks[i].items| > 0)
    && (forall i :: 0 <= i < |blocks| ==> blocks[i].Single? ==> !blocks[i].element.Item?)
    && (forall i, j :: 0 <= i < j < |blocks| && j == i + 1 ==> !(blocks[i].BulletList? && blocks[j].BulletList?))
  }

  /** Appending a block keeps the grouping well formed when it is not a second list in a row. */
  lemma WellGroupedSnoc(blocks: seq<Block>, b: Block)
    requires WellGrouped(blocks)
    requires b.BulletList? ==> |b.items| > 0 && (blocks == [] || !blocks[|blocks| - 1].BulletList?)
    requires b.Single? ==> !b.element.Item?
    ensures WellGrouped(blocks + [b])
  {
    var r := blocks + [b];
    forall i, j | 0 <= i < j < |r| && j == i + 1
      ensures !(r[i].BulletList? && r[j].BulletList?)
    {
      if j < |blocks| {
        assert r[i] == blocks[i] && r[j] == blocks[j];
      }
    }
  }

  /** Closing a block: the elements seen so far are the flattened blocks. */
  lemma FlattenSnoc(blocks: seq<Block>, b: Block)
    ensures Flatten(blocks + [b]) == Flatten(blocks) + BlockElements(b)
  {
    FlattenAppend(blocks, [b]);
    assert Flatten([b]) == BlockElements(b) + Flatten([]);
  }

  /** `currentList` pushed as one list block when it is non-empty. */
  function Flushed(grouped: seq<Block>, currentList: seq<string>): seq<Block> {
    if |currentList| > 0 then grouped + [BulletList(currentList)] else grouped
  }

  /** The loop's state after reading `prefix`: the closed blocks and the pending items spell it out, and the blocks are well grouped with no list last. */
  ghost predicate GroupedSoFar(grouped: seq<Block>, currentList: seq<string>, prefix: seq<Element>) {
    && Flatten(grouped) + Items(currentList) == prefix
    && WellGrouped(grouped)
    && (grouped == [] || !grouped[|grouped| - 1].BulletList?)
  }

  /** Flushing the pending items keeps the elements and the grouping. */
  lemma FlushKeepsGrouping(grouped: seq<Block>, currentList: seq<string>, prefix: seq<Element>)
    requires GroupedSoFar(grouped, currentList, prefix)
    ensures Flatten(Flushed(grouped, currentList)) == prefix && WellGrouped(Flushed(grouped, currentList))
  {
    if |currentList| > 0 {
      FlattenSnoc(grouped, BulletList(currentList));
      WellGroupedSnoc(grouped, BulletList(currentList));
    } else {
      assert Items(currentList) == [];
      assert Flatten(grouped) + [] == Flatten(grouped);
    }
  }

  /** An item joins the pending list. */
  lemma ItemStep(grouped: seq<Block>, currentList: seq<string>, prefix: seq<Element>, t: string)
    requires GroupedSoFar(grouped, currentList, prefix)
    ensures GroupedSoFar(grouped, currentList + [t], prefix + [Item(t)])
  {
    ItemsSnoc(currentList, t);
    assert Flatten(grouped) + (Items(currentList) + [Item(t)]) == (Flatten(grouped) + Items(currentList)) + [Item(t)];
  }

  /** Any other element closes the pending list and becomes a block of its own. */
  lemma OtherStep(grouped: seq<Block>, currentList: seq<string>, prefix: seq<Element>, el: Element)
    requires GroupedSoFar(grouped, currentList, prefix) && !el.Item?
    ensures GroupedSoFar(Flushed(grouped, currentList) + [Single(el)], [], prefix + [el])
  {
    var flushed := Flushed(grouped, currentList);
    FlushKeepsGrouping(grouped, currentList, prefix);
    FlattenSnoc(flushed, Single(el));
    WellGroupedSnoc(flushed, Single(el));
    assert Flatten(flushed + [Single(el)]) + Items([]) == Flatten(flushed + [Single(el)]);
  }

  /** The `forEach` that pushes items into `currentList` and flushes it before every other element and at the end. */
  method GroupElements(elements: seq<Element>) returns (grouped: seq<Block>)
    ensures Flatten(grouped) == elements
    ensures WellGrouped(grouped)
  {
    grouped := [];
    var currentList: seq<string> := [];
    for i := 0 to |elements|
      invariant GroupedSoFar(grouped, currentList, elements[..i])
    {
      var el, seen := elements[i], elements[..i];
      assert elements[..i + 1] == seen + [el];
      if el.Item? {
        ItemStep(grouped, currentList, seen, el.text);
        currentList := currentList + [el.text];
      } else {
        OtherStep(grouped, currentList, seen, el);
        if |currentList| > 0 {
          grouped := grouped + [BulletList(currentList)];
          currentList := [];
        }
        grouped := grouped + [Single(el)];
      }
    }
    assert elements[..|elements|] == elements;
    FlushKeepsGrouping(grouped, currentList, elements);
    if |currentList| > 0 {
      grouped := grouped + [BulletList(currentList)];
    }
  }

  /** The renderer: nothing for null or empty text, otherwise the grouped elements of its lines. */
  method Render(text: Option<string>) returns (blocks: seq<Block>)
    ensures text.None? || text == Some("") ==> blocks == []
    ensures text.Some? && text.value != "" ==>
              Flatten(blocks) == ClassifyLines(SplitLines(text.value)) && WellGrouped(blocks)
  {
    if text.None? || text.value == "" {
      return [];
    }
    blocks := GroupElements(ClassifyLines(SplitLines(text.value)));
  }

  // ---------------------------------------------- the grouping is unique

  /** Number of items at the front of `es`. */
  function LeadingItems(es: seq<Element>): (n: nat)
    ensures n <= |es|
  {
    if es != [] && es[0].Item? then 1 + LeadingItems(es[1..]) else 0
  }

  lemma {:induction false} LeadingItemsOfItems(texts: seq<string>, rest: seq<Element>)
    requires rest == [] || !rest[0].Item?
    ensures LeadingItems(Items(texts) + rest) == |texts|
  {
    if texts == [] {
      assert Items(texts) + rest == rest;
    } else {
      assert (Items(texts) + rest)[1..] == Items(texts[1..]) + rest;
      LeadingItemsOfItems(texts[1..], rest);
    }
  }

  /** The elements after the first block of a well-grouped sequence do not start with an item when that block is a list. */
  lemma AfterListNoItem(blocks: seq<Block>)
    requires WellGrouped(blocks) && |blocks| > 0 && blocks[0].BulletList?
    ensures Flatten(blocks[1..]) == [] || !Flatten(blocks[1..])[0].Item?
  {
    if |blocks| > 1 {
      assert blocks[1..][0] == blocks[1];
    }
  }

  lemma WellGroupedTail(blocks: seq<Block>)
    requires WellGrouped(blocks) && |blocks| > 0
    ensures WellGrouped(blocks[1..])
  {
    var t := blocks[1..];
    forall i, j | 0 <= i < j < |t| && j == i + 1
      ensures !(t[i].BulletList? && t[j].BulletList?)
    {
      assert t[i] == blocks[i + 1] && t[j] == blocks[j + 1];
    }
  }

  /** Well-grouped blocks are determined by their elements, so GroupElements has exactly one correct answer. */
  lemma {:induction false} WellGroupedUnique(a: seq<Block>, b: seq<Block>)
    requires WellGrouped(a) && WellGrouped(b) && Flatten(a) == Flatten(b)
    ensures a == b
    decreases |a|
  {
    if a != [] && b != [] {
      var fa := Flatten(a);
      assert fa == BlockElements(a[0]) + Flatten(a[1..]);
      assert fa == BlockElements(b[0]) + Flatten(b[1..]);
      WellGroupedTail(a);
      WellGroupedTail(b);
      match a[0]
      case Single(e) =>
        assert fa[0] == e;
        assert b[0] == Single(e);
        assert Flatten(a[1..]) == fa[1..] == Flatten(b[1..]);
        WellGroupedUnique(a[1..], b[1..]);
        assert a == [a[0]] + a[1..] && b == [b[0]] + b[1..];
      case BulletList(xs) =>
        assert fa[0] == Item(xs[0]);
        assert b[0].BulletList?;
        var ys := b[0].items;
        AfterListNoItem(a);
        AfterListNoItem(b);
        LeadingItemsOfItems(xs, Flatten(a[1..]));
        LeadingItemsOfItems(ys, Flatten(b[1..]));
        assert |xs| == |ys|;
        assert Items(xs) == fa[..|xs|] == Items(ys);
        assert xs == ys by {
          forall i | 0 <= i < |xs| ensures xs[i] == ys[i] {
            assert Items(xs)[i] == Items(ys)[i];
          }
        }
        assert Flatten(a[1..]) == fa[|xs|..] == Flatten(b[1..]);
        WellGroupedUnique(a[1..], b[1..]);
        assert a == [a[0]] + a[1..] && b == [b[0]] + b[1..];
    }
  }
}
