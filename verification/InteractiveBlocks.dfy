/** Interactive blocks in a Markdown text: the line scanner and the segmentation it computes. */
module InteractiveBlocks {
  import opened Wrappers
  import opened JsText
  import opened FenceLines
  import opened FenceInfo

  datatype Block = Block(fence: InteractiveFence, html: string, closed: bool)

  // ---------- Segmentation ----------

  /** A line outside every fence, or a fence with its opening line, its body and its closing line if it has one. */
  datatype Segment =
    | Plain(line: string)
    | Fenced(open: string, body: seq<string>, close: Option<string>)

  function SegmentLines(s: Segment): seq<string> {
    match s
    case Plain(line) => [line]
    case Fenced(open, body, None) => [open] + body
    case Fenced(open, body, Some(close)) => [open] + (body + [close])
  }

  function Lines(segments: seq<Segment>): seq<string> {
    if segments == [] then [] else SegmentLines(segments[0]) + Lines(segments[1..])
  }

  predicate NoneCloses(body: seq<string>, fence: Fence) {
    forall line :: line in body ==> !Closes(line, fence)
  }

  /** A plain line opens nothing; a fence runs to the first line that closes it. */
  predicate ValidSegment(s: Segment) {
    match s
    case Plain(line) => Opening(line).None?
    case Fenced(open, body, close) =>
      && Opening(open).Some? && NoneCloses(body, Opening(open).value)
      && (close.Some? ==> Closes(close.value, Opening(open).value))
  }

  predicate Unclosed(s: Segment) {
    s.Fenced? && s.close.None?
  }

  /** Only the last segment may be a fence that is still being written. */
  predicate ValidSegments(segments: seq<Segment>) {
    && (forall i :: 0 <= i < |segments| ==> ValidSegment(segments[i]))
    && (forall i :: 0 <= i < |segments| - 1 ==> !Unclosed(segments[i]))
  }

  /** How many lines stand before the first one that closes the fence. */
  function BodyLength(lines: seq<string>, fence: Fence): (n: nat)
    ensures n <= |lines|
  {
    if lines == [] || Closes(lines[0], fence) then 0 else 1 + BodyLength(lines[1..], fence)
  }

  /** The segment that the first line belongs to, */
  function Head(lines: seq<string>): Segment
    requires lines != []
  {
    match Opening(lines[0])
    case None => Plain(lines[0])
    case Some(fence) =>
      var n := BodyLength(lines[1..], fence);
      Fenced(lines[0], lines[1..][..n], if n == |lines| - 1 then None else Some(lines[1..][n]))
  }

  /** and the lines after it. */
  function Tail(lines: seq<string>): (tail: seq<string>)
    requires lines != []
    ensures |tail| < |lines|
  {
    match Opening(lines[0])
    case None => lines[1..]
    case Some(fence) =>
      var n := BodyLength(lines[1..], fence);
      if n == |lines| - 1 then [] else lines[1..][n + 1..]
  }

  function Segments(lines: seq<string>): seq<Segment>
    decreases |lines|
  {
    if lines == [] then [] else [Head(lines)] + Segments(Tail(lines))
  }

  function MaybeBlock(info: Option<InteractiveFence>, body: seq<string>, closed: bool): seq<Block> {
    match info
    case None => []
    case Some(fence) => [Block(fence, Join(body, "\n"), closed)]
  }

  /** The blocks of the fences whose info string is interactive. */
  function BlockOf(s: Segment, lower: char -> string): seq<Block> {
    if s.Fenced? && Opening(s.open).Some? then
      MaybeBlock(ParseInfo(Opening(s.open).value.info, lower), s.body, s.close.Some?)
    else []
  }

  function BlocksOf(segments: seq<Segment>, lower: char -> string): seq<Block> {
    if segments == [] then [] else BlockOf(segments[0], lower) + BlocksOf(segments[1..], lower)
  }

  lemma {:induction false} BodyLengthMeans(lines: seq<string>, fence: Fence)
    ensures var n := BodyLength(lines, fence);
            NoneCloses(lines[..n], fence) && (n < |lines| ==> Closes(lines[n], fence))
  {
    if lines != [] && !Closes(lines[0], fence) {
      BodyLengthMeans(lines[1..], fence);
      var n := BodyLength(lines[1..], fence);
      assert lines[..n + 1] == [lines[0]] + lines[1..][..n];
    }
  }

  lemma {:induction false} BodyLengthExact(body: seq<string>, rest: seq<string>, fence: Fence)
    requires NoneCloses(body, fence) && (rest != [] ==> Closes(rest[0], fence))
    ensures BodyLength(body + rest, fence) == |body|
  {
    if body != [] {
      assert (body + rest)[1..] == body[1..] + rest;
      BodyLengthExact(body[1..], rest, fence);
    } else {
      assert body + rest == rest;
    }
  }

  lemma HeadMeans(lines: seq<string>)
    requires lines != []
    ensures ValidSegment(Head(lines)) && (Unclosed(Head(lines)) ==> Tail(lines) == [])
    ensures SegmentLines(Head(lines)) + Tail(lines) == lines
  {
    if Opening(lines[0]).Some? {
      var n := BodyLength(lines[1..], Opening(lines[0]).value);
      BodyLengthMeans(lines[1..], Opening(lines[0]).value);
      SplitFence(lines, lines[0], lines[1..], n);
    }
  }

  lemma SplitFence(lines: seq<string>, open: string, rest: seq<string>, n: nat)
    requires lines != [] && open == lines[0] && rest == lines[1..] && n <= |rest|
    ensures lines == [open] + rest
    ensures n < |rest| ==> [open] + (rest[..n] + [rest[n]]) + rest[n + 1..] == lines
    ensures n == |rest| ==> rest[..n] == rest
  {
  }

  lemma HeadOf(s: Segment, more: seq<string>)
    requires ValidSegment(s) && (Unclosed(s) ==> more == [])
    ensures SegmentLines(s) + more != []
    ensures Head(SegmentLines(s) + more) == s && Tail(SegmentLines(s) + more) == more
  {
    var lines := SegmentLines(s) + more;
    if s.Plain? {
      assert lines[1..] == more;
    } else if s.close.None? {
      assert lines[1..] == s.body && s.body + [] == s.body;
      BodyLengthExact(s.body, [], Opening(s.open).value);
    } else {
      ClosedHead(s.open, s.body, s.close.value, more);
    }
  }

  lemma ClosedHead(open: string, body: seq<string>, close: string, more: seq<string>)
    requires ValidSegment(Fenced(open, body, Some(close)))
    ensures var lines := [open] + (body + [close]) + more;
            Head(lines) == Fenced(open, body, Some(close)) && Tail(lines) == more
  {
    var lines := [open] + (body + [close]) + more;
    var rest := [close] + more;
    assert lines[1..] == body + rest;
    BodyLengthExact(body, rest, Opening(open).value);
    assert (body + rest)[..|body|] == body && (body + rest)[|body|] == close;
    assert (body + rest)[|body| + 1..] == more;
  }

  lemma ConsSegment(s: Segment, more: seq<Segment>)
    ensures ValidSegment(s) && (Unclosed(s) ==> more == []) && ValidSegments(more) ==> ValidSegments([s] + more)
    ensures Lines([s] + more) == SegmentLines(s) + Lines(more)
  {
    assert ([s] + more)[1..] == more;
  }

  lemma RestOfSegments(segments: seq<Segment>)
    requires ValidSegments(segments) && segments != []
    ensures ValidSegments(segments[1..]) && ValidSegment(segments[0])
    ensures Unclosed(segments[0]) ==> segments[1..] == []
  {
    assert forall i :: 0 <= i < |segments| - 1 ==> segments[1..][i] == segments[i + 1];
  }

  /** Every text has a segmentation that uses each of its lines once, in order. */
  lemma {:induction false} SegmentsExist(lines: seq<string>)
    ensures ValidSegments(Segments(lines)) && Lines(Segments(lines)) == lines
    decreases |lines|
  {
    if lines != [] {
      HeadMeans(lines);
      SegmentsExist(Tail(lines));
      ConsSegment(Head(lines), Segments(Tail(lines)));
    }
  }

  /** And only one. */
  lemma {:induction false} SegmentsUnique(segments: seq<Segment>)
    requires ValidSegments(segments)
    ensures Segments(Lines(segments)) == segments
  {
    if segments != [] {
      var s, more := segments[0], segments[1..];
      RestOfSegments(segments);
      SegmentsUnique(more);
      HeadOf(s, Lines(more));
      FirstSegment(SegmentLines(s) + Lines(more), s, Lines(more));
      assert segments == [s] + more;
    }
  }

  lemma FirstSegment(lines: seq<string>, s: Segment, more: seq<string>)
    requires lines != [] && Head(lines) == s && Tail(lines) == more
    ensures Segments(lines) == [s] + Segments(more)
  {
  }

  // ---------- The scanner ----------

  /** What the scanner returns: the blocks of the segmentation. */
  function Extract(markdown: string, lower: char -> string): seq<Block> {
    BlocksOf(Segments(Split(markdown, '\n')), lower)
  }

  /** The closing line and the next line to look at, when the body of a fence ends before line `end`. */
  function CloseAt(lines: seq<string>, end: nat): Option<string> {
    if end < |lines| then Some(lines[end]) else None
  }

  function NextLine(lines: seq<string>, end: nat): nat {
    if end < |lines| then end + 1 else end
  }

  /** The lines from `start` on begin with a fence whose body the scanner has read. */
  lemma ScannedFence(lines: seq<string>, start: nat, end: nat, body: seq<string>, fence: Fence,
                     before: seq<Block>, after: seq<Block>, all: seq<Block>, lower: char -> string)
    requires start < end <= |lines| && Opening(lines[start]) == Some(fence)
    requires body == lines[start + 1..end] && NoneCloses(body, fence) && (end < |lines| ==> Closes(lines[end], fence))
    requires before + BlocksOf(Segments(lines[start..]), lower) == all
    requires after == before + MaybeBlock(ParseInfo(fence.info, lower), body, end < |lines|)
    ensures after + BlocksOf(Segments(lines[NextLine(lines, end)..]), lower) == all
  {
    var close, next := CloseAt(lines, end), NextLine(lines, end);
    var s := Fenced(lines[start], body, close);
    HeadOf(s, lines[next..]);
    SliceFence(lines, start, end, body);
    var block := MaybeBlock(ParseInfo(fence.info, lower), body, end < |lines|);
    FenceBlock(lines[start..], s, lines[next..], block, lower);
    Associate(before, block, BlocksOf(Segments(lines[next..]), lower));
  }

  lemma FenceBlock(lines: seq<string>, s: Segment, more: seq<string>, block: seq<Block>, lower: char -> string)
    requires lines != [] && Head(lines) == s && Tail(lines) == more && BlockOf(s, lower) == block
    ensures BlocksOf(Segments(lines), lower) == block + BlocksOf(Segments(more), lower)
  {
    FirstBlock(lines, lower);
  }

  lemma Associate(a: seq<Block>, b: seq<Block>, c: seq<Block>)
    ensures a + (b + c) == (a + b) + c
  {
  }

  lemma ScannedPlain(lines: seq<string>, index: nat, before: seq<Block>, all: seq<Block>, lower: char -> string)
    requires index < |lines| && Opening(lines[index]).None?
    requires before + BlocksOf(Segments(lines[index..]), lower) == all
    ensures before + BlocksOf(Segments(lines[index + 1..]), lower) == all
  {
    assert lines[index..][1..] == lines[index + 1..];
    PlainBlock(lines[index..], lines[index], lines[index + 1..], lower);
  }

  lemma PlainBlock(lines: seq<string>, line: string, more: seq<string>, lower: char -> string)
    requires lines != [] && line == lines[0] && more == lines[1..] && Opening(line).None?
    ensures BlocksOf(Segments(lines), lower) == BlocksOf(Segments(more), lower)
  {
    FenceBlock(lines, Plain(line), more, [], lower);
    var blocks := BlocksOf(Segments(more), lower);
    assert [] + blocks == blocks;
  }

  lemma ScannedBodyLine(lines: seq<string>, start: nat, index: nat, body: seq<string>, fence: Fence)
    requires start <= index < |lines| && !Closes(lines[index], fence)
    requires body == lines[start..index] && NoneCloses(body, fence)
    ensures body + [lines[index]] == lines[start..index + 1] && NoneCloses(body + [lines[index]], fence)
  {
  }

  lemma OneMoreBlock(before: seq<Block>, after: seq<Block>, info: Option<InteractiveFence>, body: seq<string>,
                     closed: bool)
    requires after == if info.Some? then before + [Block(info.value, Join(body, "\n"), closed)] else before
    ensures after == before + MaybeBlock(info, body, closed)
  {
  }

  lemma SliceFence(lines: seq<string>, start: nat, end: nat, body: seq<string>)
    requires start < end <= |lines| && body == lines[start + 1..end]
    ensures lines[start..] ==
            SegmentLines(Fenced(lines[start], body, CloseAt(lines, end))) + lines[NextLine(lines, end)..]
  {
    if end < |lines| {
      SliceClosed(lines, start, end);
    } else {
      assert lines[end..] == [] && lines[start + 1..end] == lines[start + 1..];
    }
  }

  lemma SliceClosed(lines: seq<string>, start: nat, end: nat)
    requires start < end < |lines|
    ensures lines[start..] == ([lines[start]] + (lines[start + 1..end] + [lines[end]])) + lines[end + 1..]
  {
  }

  lemma FirstBlock(lines: seq<string>, lower: char -> string)
    requires lines != []
    ensures BlocksOf(Segments(lines), lower) == BlockOf(Head(lines), lower) + BlocksOf(Segments(Tail(lines)), lower)
  {
    assert Segments(lines)[1..] == Segments(Tail(lines));
  }

  /** The inner loop: the lines up to the first one that closes the fence. */
  method ReadBody(lines: seq<string>, start: nat, fence: Fence) returns (body: seq<string>, closed: bool, index: nat)
    requires start <= |lines|
    ensures start <= index <= |lines| && body == lines[start..index] && NoneCloses(body, fence)
    ensures closed <==> index < |lines|
    ensures closed ==> Closes(lines[index], fence)
  {
    body := [];
    index := start;
    while index < |lines|
      invariant start <= index <= |lines|
      invariant body == lines[start..index] && NoneCloses(body, fence)
    {
      if Closes(lines[index], fence) {
        closed := true;
        return;
      }
      ScannedBodyLine(lines, start, index, body, fence);
      body := body + [lines[index]];
      index := index + 1;
    }
    closed := false;
  }

  method ExtractInteractiveBlocks(markdown: string, lower: char -> string) returns (blocks: seq<Block>)
    ensures blocks == Extract(markdown, lower)
  {
    blocks := [];
    var lines := Split(markdown, '\n');
    assert lines[0..] == lines;
    var index := 0;
    while index < |lines|
      invariant 0 <= index <= |lines|
      invariant blocks + BlocksOf(Segments(lines[index..]), lower) == Extract(markdown, lower)
    {
      var fence := Opening(lines[index]);
      if fence.None? {
        ScannedPlain(lines, index, blocks, Extract(markdown, lower), lower);
        index := index + 1;
      } else {
        var info := ParseInteractiveFence(fence.value.info, lower);
        var body, closed, end := ReadBody(lines, index + 1, fence.value);
        ghost var before := blocks;
        if info.Some? {
          blocks := blocks + [Block(info.value, Join(body, "\n"), closed)];
        }
        OneMoreBlock(before, blocks, info, body, closed);
        ScannedFence(lines, index, end, body, fence.value, before, blocks, Extract(markdown, lower), lower);
        index := NextLine(lines, end);
      }
    }
  }
}
