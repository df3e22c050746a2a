/** The lines that open and close a fenced block. */
module FenceLines {
  import opened Wrappers
  import opened JsText

  /** An opening line: its mark, how often it stands there, and the info string after it. */
  datatype Fence = Fence(mark: char, length: nat, info: string)

  predicate IsMark(c: char) {
    c == '`' || c == '~'
  }

  predicate OneLine(s: string) {
    forall i :: 0 <= i < |s| ==> !IsLineTerminator(s[i])
  }

  function Repeat(c: char, n: nat): (r: string)
    ensures |r| == n
    ensures forall i :: 0 <= i < n ==> r[i] == c
  {
    if n == 0 then "" else [c] + Repeat(c, n - 1)
  }

  /** How many times `c` stands at the start. */
  function RunLength(s: string, c: char): (n: nat)
    ensures n <= |s|
  {
    if s != "" && s[0] == c then 1 + RunLength(s[1..], c) else 0
  }

  /** The expression /^\s*(`{3,}|~{3,})(.*)$/ : the mark run is greedy and `.` matches no line terminator. */
  function Opening(line: string): Option<Fence> {
    var t := TrimStart(line);
    if t == "" || !IsMark(t[0]) then None
    else
      var n := RunLength(t, t[0]);
      if n < 3 || !OneLine(t[n..]) then None else Some(Fence(t[0], n, t[n..]))
  }

  /** The expression /^\s*c{n,}\s*$/ for the mark c and the length n of the opening line. */
  predicate Closes(line: string, fence: Fence) {
    var t := Trim(line);
    RunLength(t, fence.mark) == |t| && fence.length <= |t|
  }

  // ---------- What the two tests mean ----------

  ghost predicate ValidFence(f: Fence) {
    (f.mark == '`' || f.mark == '~') && 3 <= f.length && (f.info != "" ==> f.info[0] != f.mark) && OneLine(f.info)
  }

  ghost predicate Opens(line: string, f: Fence, space: string) {
    Blank(space) && line == space + (Repeat(f.mark, f.length) + f.info)
  }

  lemma {:induction false} RunSplits(s: string, c: char)
    ensures var n := RunLength(s, c);
            s == Repeat(c, n) + s[n..] && (s[n..] != "" ==> s[n] != c)
  {
    if s != "" && s[0] == c {
      var t := s[1..];
      RunSplits(t, c);
      var n := RunLength(t, c);
      assert t[n..] == s[n + 1..];
      assert s == [c] + t;
      assert [c] + (Repeat(c, n) + t[n..]) == ([c] + Repeat(c, n)) + t[n..];
    }
  }

  lemma {:induction false} RunRepeat(c: char, n: nat, rest: string)
    requires rest != "" ==> rest[0] != c
    ensures RunLength(Repeat(c, n) + rest, c) == n
    ensures (Repeat(c, n) + rest)[n..] == rest
  {
    if n > 0 {
      var tail := Repeat(c, n - 1) + rest;
      assert (Repeat(c, n) + rest)[1..] == tail;
      RunRepeat(c, n - 1, rest);
      assert (Repeat(c, n) + rest)[n..] == tail[n - 1..];
    } else {
      assert Repeat(c, 0) + rest == rest;
    }
  }

  /** A line opens a fence exactly when it is white space, a longest run of marks and an info string. */
  lemma OpeningMeans(line: string, f: Fence)
    ensures Opening(line) == Some(f) <==> ValidFence(f) && exists space :: Opens(line, f, space)
  {
    if Opening(line) == Some(f) {
      var space := TrimStartSplits(line);
      RunSplits(TrimStart(line), f.mark);
      assert Opens(line, f, space);
    }
    if ValidFence(f) && exists space :: Opens(line, f, space) {
      var space :| Opens(line, f, space);
      OpeningOf(f, space, line);
    }
  }

  lemma OpeningOf(f: Fence, space: string, line: string)
    requires ValidFence(f) && Opens(line, f, space)
    ensures Opening(line) == Some(f)
  {
    var t := Repeat(f.mark, f.length) + f.info;
    TrimStartBlank(space, t);
    RunRepeat(f.mark, f.length, f.info);
  }

  ghost predicate ClosedBy(line: string, f: Fence, before: string, n: nat, after: string) {
    Blank(before) && Blank(after) && f.length <= n && line == before + (Repeat(f.mark, n) + after)
  }

  /** A line closes a fence exactly when it holds only a run of the same mark that is at least as long. */
  lemma ClosingMeans(line: string, f: Fence)
    requires (f.mark == '`' || f.mark == '~') && 3 <= f.length
    ensures Closes(line, f) <==> exists before, n, after :: ClosedBy(line, f, before, n, after)
  {
    if Closes(line, f) {
      var before, after := TrimSplits(line);
      RunSplits(Trim(line), f.mark);
      var n := |Trim(line)|;
      assert Repeat(f.mark, n) + Trim(line)[n..] == Repeat(f.mark, n);
      assert ClosedBy(line, f, before, n, after);
    }
    if exists before, n, after :: ClosedBy(line, f, before, n, after) {
      var before, n, after :| ClosedBy(line, f, before, n, after);
      TrimSurrounded(before, Repeat(f.mark, n), after);
      RunRepeat(f.mark, n, "");
      assert Repeat(f.mark, n) + "" == Repeat(f.mark, n);
    }
  }

  /** A fence longer than a line is not closed by it. */
  lemma TooLong(line: string, f: Fence)
    requires IsMark(f.mark) && |line| < f.length
    ensures !Closes(line, f)
  {
    var before, after := TrimSplits(line);
  }
}
