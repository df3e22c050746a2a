/** Printing interactive blocks between other text, quoting text, and what extraction makes of it. */
module InteractivePrint {
  import opened Wrappers
  import opened JsText
  import opened FenceLines
  import opened FenceInfo
  import opened InteractiveBlocks

  // ---------- Texts one after another ----------

  predicate AllClosed(segments: seq<Segment>) {
    forall s :: s in segments ==> !Unclosed(s)
  }

  lemma ValidConcat(a: seq<Segment>, b: seq<Segment>)
    requires ValidSegments(a) && AllClosed(a) && ValidSegments(b)
    ensures ValidSegments(a + b)
  {
  }

  lemma {:induction false} LinesConcat(a: seq<Segment>, b: seq<Segment>)
    ensures Lines(a + b) == Lines(a) + Lines(b)
  {
    if a == [] {
      assert a + b == b;
    } else {
      assert (a + b)[1..] == a[1..] + b;
      LinesConcat(a[1..], b);
    }
  }

  lemma {:induction false} BlocksConcat(a: seq<Segment>, b: seq<Segment>, lower: char -> string)
    ensures BlocksOf(a + b, lower) == BlocksOf(a, lower) + BlocksOf(b, lower)
  {
    if a == [] {
      assert a + b == b;
    } else {
      assert (a + b)[1..] == a[1..] + b;
      BlocksConcat(a[1..], b, lower);
    }
  }

  lemma {:induction false} SplitConcat(a: string, b: string, separator: char)
    ensures Split(a + ([separator] + b), separator) == Split(a, separator) + Split(b, separator)
  {
    if a == "" {
      assert a + ([separator] + b) == [separator] + b;
      assert ([separator] + b)[1..] == b;
    } else {
      assert (a + ([separator] + b))[1..] == a[1..] + ([separator] + b);
      SplitConcat(a[1..], b, separator);
      PushConcat(a[0], Split(a[1..], separator), Split(b, separator));
      assert (a + ([separator] + b))[0] == a[0];
    }
  }

  lemma PushConcat(c: char, x: seq<string>, y: seq<string>)
    requires |x| >= 1
    ensures [[c] + (x + y)[0]] + (x + y)[1..] == ([[c] + x[0]] + x[1..]) + y
    ensures [""] + (x + y) == ([""] + x) + y
  {
  }

  /** A text without an open fence, a line break and another text hold the blocks of the one and of the other. */
  lemma ExtractAppends(a: string, b: string, lower: char -> string)
    requires AllClosed(Segments(Split(a, '\n')))
    ensures Extract(a + ("\n" + b), lower) == Extract(a, lower) + Extract(b, lower)
  {
    var x, y := Split(a, '\n'), Split(b, '\n');
    SplitConcat(a, b, '\n');
    SegmentsExist(x);
    SegmentsExist(y);
    ValidConcat(Segments(x), Segments(y));
    LinesConcat(Segments(x), Segments(y));
    BlocksConcat(Segments(x), Segments(y), lower);
    SegmentsUnique(Segments(x) + Segments(y));
  }

  predicate AllButLastClosed(blocks: seq<Block>) {
    forall i :: 0 <= i < |blocks| - 1 ==> blocks[i].closed
  }

  lemma ConsBlock(block: Block, more: seq<Block>)
    requires AllButLastClosed(more) && (more != [] ==> block.closed)
    ensures AllButLastClosed([block] + more)
  {
  }

  /** Only the last block that is returned can be unclosed. */
  lemma OnlyLastUnclosed(markdown: string, lower: char -> string)
    ensures var blocks := Extract(markdown, lower); forall i :: 0 <= i < |blocks| - 1 ==> blocks[i].closed
  {
    SegmentsExist(Split(markdown, '\n'));
    UnclosedLast(Segments(Split(markdown, '\n')), lower);
  }

  lemma {:induction false} UnclosedLast(segments: seq<Segment>, lower: char -> string)
    requires ValidSegments(segments)
    ensures AllButLastClosed(BlocksOf(segments, lower))
  {
    if segments != [] {
      RestOfSegments(segments);
      UnclosedLast(segments[1..], lower);
      var more := BlocksOf(segments[1..], lower);
      var first := BlockOf(segments[0], lower);
      if first == [] {
        assert [] + more == more;
      } else {
        assert more != [] ==> !Unclosed(segments[0]);
        assert first == [first[0]];
        ConsBlock(first[0], more);
      }
    }
  }

  // ---------- Quoting ----------

  /** A fence written around lines that do not close it. */
  function Enclosed(f: Fence, body: seq<string>, closed: bool): Segment {
    Fenced(Repeat(f.mark, f.length) + f.info, body, if closed then Some(Repeat(f.mark, f.length)) else None)
  }

  lemma EnclosedValid(f: Fence, body: seq<string>, closed: bool, lower: char -> string)
    requires ValidFence(f) && NoneCloses(body, f)
    ensures Opening(Repeat(f.mark, f.length) + f.info) == Some(f)
    ensures ValidSegment(Enclosed(f, body, closed))
    ensures BlockOf(Enclosed(f, body, closed), lower) == MaybeBlock(ParseInfo(f.info, lower), body, closed)
  {
    OpensItself(f, Repeat(f.mark, f.length) + f.info);
    ClosesItself(f, Repeat(f.mark, f.length));
  }

  lemma OpensItself(f: Fence, open: string)
    requires ValidFence(f) && open == Repeat(f.mark, f.length) + f.info
    ensures Opening(open) == Some(f)
  {
    assert "" + open == open;
    OpeningOf(f, "", open);
  }

  lemma ClosesItself(f: Fence, close: string)
    requires ValidFence(f) && close == Repeat(f.mark, f.length)
    ensures Closes(close, f)
  {
    assert "" + (close + "") == close;
    assert ClosedBy(close, f, "", f.length, "");
    ClosingMeans(close, f);
  }

  /** A text quoted inside a longer fence that is not interactive yields nothing, whatever blocks it shows. */
  lemma QuotedYieldsNothing(f: Fence, text: string, lower: char -> string)
    requires ValidFence(f) && ParseInfo(f.info, lower).None? && NoneCloses(Split(text, '\n'), f)
    ensures Extract((Repeat(f.mark, f.length) + f.info) + ("\n" + (text + ("\n" + Repeat(f.mark, f.length)))), lower) == []
  {
    var open, close, body := Repeat(f.mark, f.length) + f.info, Repeat(f.mark, f.length), Split(text, '\n');
    EnclosedValid(f, body, true, lower);
    SplitPart(open, text + ("\n" + close), '\n');
    SplitConcat(text, close, '\n');
    SplitPart(close, "", '\n');
    OneSegment(Enclosed(f, body, true), [open] + (body + [close]), lower);
  }

  lemma OneSegment(s: Segment, lines: seq<string>, lower: char -> string)
    requires ValidSegment(s) && SegmentLines(s) == lines
    ensures BlocksOf(Segments(lines), lower) == BlockOf(s, lower)
  {
    assert Lines([s]) == lines + [] == lines;
    SegmentsUnique([s]);
    assert BlocksOf([s], lower) == BlockOf(s, lower) + BlocksOf([], lower);
  }

  lemma {:induction false} SplitShort(text: string, separator: char)
    ensures forall part :: part in Split(text, separator) ==> |part| <= |text|
  {
    if text != "" { SplitShort(text[1..], separator); }
  }

  /** A fence longer than the text always quotes it. */
  lemma LongFenceQuotes(f: Fence, text: string)
    requires IsMark(f.mark) && |text| < f.length
    ensures NoneCloses(Split(text, '\n'), f)
  {
    SplitShort(text, '\n');
    forall line | line in Split(text, '\n') ensures !Closes(line, f) {
      TooLong(line, f);
    }
  }

  // ---------- Printing ----------

  /** A line of other text, or a block with the fence it is written in. */
  datatype Item = Prose(line: string) | Answer(block: Block, mark: char, length: nat)

  function BlockFence(item: Item): Fence
    requires item.Answer?
  {
    Fence(item.mark, item.length, PrintInfo(item.block.fence))
  }

  predicate PrintableItem(item: Item) {
    match item
    case Prose(line) => Opening(line).None? && '\n' !in line
    case Answer(block, mark, length) =>
      && IsMark(mark) && 3 <= length && Printable(block.fence)
      && NoneCloses(Split(block.html, '\n'), BlockFence(item))
  }

  /** Every item can be printed, and only the last block may be unfinished. */
  predicate PrintableItems(items: seq<Item>) {
    && (forall item :: item in items ==> PrintableItem(item))
    && forall i :: 0 <= i < |items| - 1 ==> items[i].Answer? ==> items[i].block.closed
  }

  function ItemSegment(item: Item): Segment {
    match item
    case Prose(line) => Plain(line)
    case Answer(block, _, _) => Enclosed(BlockFence(item), Split(block.html, '\n'), block.closed)
  }

  function ItemSegments(items: seq<Item>): seq<Segment> {
    if items == [] then [] else [ItemSegment(items[0])] + ItemSegments(items[1..])
  }

  function Print(items: seq<Item>): string {
    Join(Lines(ItemSegments(items)), "\n")
  }

  function Answers(items: seq<Item>): seq<Block> {
    if items == [] then []
    else (if items[0].Answer? then [items[0].block] else []) + Answers(items[1..])
  }

  lemma ItemMeans(item: Item, lower: char -> string)
    requires PrintableItem(item) && FixesIds(lower)
    ensures ValidSegment(ItemSegment(item))
    ensures BlockOf(ItemSegment(item), lower) == if item.Answer? then [item.block] else []
    ensures forall line :: line in SegmentLines(ItemSegment(item)) ==> '\n' !in line
  {
    if item.Answer? {
      var f, block := BlockFence(item), item.block;
      InfoRoundTrip(block.fence, lower);
      EnclosedValid(f, Split(block.html, '\n'), block.closed, lower);
      JoinSplit(block.html, '\n');
      EnclosedLines(f, Split(block.html, '\n'), block.closed);
    }
  }

  lemma EnclosedLines(f: Fence, body: seq<string>, closed: bool)
    requires ValidFence(f) && forall line :: line in body ==> '\n' !in line
    ensures forall line :: line in SegmentLines(Enclosed(f, body, closed)) ==> '\n' !in line
  {
  }

  lemma {:induction false} ItemsMean(items: seq<Item>, lower: char -> string)
    requires PrintableItems(items) && FixesIds(lower)
    ensures ValidSegments(ItemSegments(items))
    ensures BlocksOf(ItemSegments(items), lower) == Answers(items)
    ensures forall line :: line in Lines(ItemSegments(items)) ==> '\n' !in line
    ensures items != [] ==> Lines(ItemSegments(items)) != []
  {
    if items != [] {
      ItemMeans(items[0], lower);
      ItemsMean(items[1..], lower);
      ConsSegment(ItemSegment(items[0]), ItemSegments(items[1..]));
      assert Unclosed(ItemSegment(items[0])) ==> items[1..] == [];
    }
  }

  /** Printing blocks between fence-free text and extracting them again returns the same blocks in order. */
  lemma PrintExtract(items: seq<Item>, lower: char -> string)
    requires PrintableItems(items) && FixesIds(lower)
    ensures Extract(Print(items), lower) == Answers(items)
  {
    ItemsMean(items, lower);
    if items == [] {
      assert Segments([""]) == [Plain("")];
    } else {
      SplitJoin(Lines(ItemSegments(items)), '\n');
      SegmentsUnique(ItemSegments(items));
    }
  }

  /** Every finished block can be printed: there is always a fence long enough for its page. */
  lemma EveryPageFits(block: Block, mark: char, length: nat)
    requires Printable(block.fence) && IsMark(mark) && 3 <= length && |block.html| < length
    ensures PrintableItem(Answer(block, mark, length))
  {
    LongFenceQuotes(BlockFence(Answer(block, mark, length)), block.html);
  }
}
