/** The JavaScript string operations that the modelled code calls. */
module JsText {
  import opened Wrappers

  /** ECMAScript LineTerminator: the characters a regular expression `.` does not match. */
  predicate IsLineTerminator(c: char) {
    c == '\n' || c == '\r' || c == '\U{2028}' || c == '\U{2029}'
  }

  /** ECMAScript WhiteSpace or LineTerminator: what `trim` removes and `\s` matches. */
  predicate IsWhitespace(c: char) {
    || '\t' <= c <= '\r'
    || c == ' ' || c == '\U{00A0}' || c == '\U{1680}'
    || '\U{2000}' <= c <= '\U{200A}'
    || c == '\U{2028}' || c == '\U{2029}' || c == '\U{202F}'
    || c == '\U{205F}' || c == '\U{3000}' || c == '\U{FEFF}'
  }

  /** The two classes, by their character codes. */
  lemma WhitespaceCodes(c: char)
    ensures var n := c as int;
            && (IsLineTerminator(c) <==> n == 10 || n == 13 || n == 8232 || n == 8233)
            && (IsWhitespace(c) <==>
                || 9 <= n <= 13 || n == 32 || n == 160 || n == 5760 || 8192 <= n <= 8202
                || n == 8232 || n == 8233 || n == 8239 || n == 8287 || n == 12288 || n == 65279)
  {
  }

  predicate Blank(s: string) {
    forall i :: 0 <= i < |s| ==> IsWhitespace(s[i])
  }

  function TrimStart(s: string): (t: string)
    ensures |t| <= |s|
  {
    if s != "" && IsWhitespace(s[0]) then TrimStart(s[1..]) else s
  }

  function TrimEnd(s: string): (t: string)
    ensures |t| <= |s|
  {
    if s != "" && IsWhitespace(s[|s| - 1]) then TrimEnd(s[..|s| - 1]) else s
  }

  function Trim(s: string): string {
    TrimEnd(TrimStart(s))
  }

  /** Does `pattern` stand in `text` at position `i`? */
  predicate At(text: string, pattern: string, i: nat) {
    i + |pattern| <= |text| && forall j :: 0 <= j < |pattern| ==> text[i + j] == pattern[j]
  }

  /** `text.indexOf(pattern, from)`, with None for -1. */
  function IndexOf(text: string, pattern: string, from: nat): (r: Option<nat>)
    ensures r.Some? ==> from <= r.value && At(text, pattern, r.value)
    ensures r.Some? ==> forall j :: from <= j < r.value ==> !At(text, pattern, j)
    ensures r.None? ==> forall j :: from <= j ==> !At(text, pattern, j)
    decreases |text| - from
  {
    if from + |pattern| > |text| then None
    else if At(text, pattern, from) then Some(from)
    else IndexOf(text, pattern, from + 1)
  }

  /** TrimStart splits a text into its leading white space and the rest. */
  lemma {:induction false} TrimStartSplits(s: string) returns (space: string)
    ensures s == space + TrimStart(s) && Blank(space)
    ensures TrimStart(s) != "" ==> !IsWhitespace(TrimStart(s)[0])
  {
    if s != "" && IsWhitespace(s[0]) {
      space := TrimStartSplits(s[1..]);
      assert s == [s[0]] + s[1..];
      assert s == ([s[0]] + space) + TrimStart(s);
      space := [s[0]] + space;
    } else {
      space := "";
    }
  }

  /** Leading white space is exactly what TrimStart takes away. */
  lemma {:induction false} TrimStartBlank(w: string, s: string)
    requires Blank(w)
    requires s != "" ==> !IsWhitespace(s[0])
    ensures TrimStart(w + s) == s
  {
    if w != "" {
      assert (w + s)[1..] == w[1..] + s;
      TrimStartBlank(w[1..], s);
    } else {
      assert w + s == s;
    }
  }

  /** `parts.join(separator)`. */
  function Join(parts: seq<string>, separator: string): string {
    if parts == [] then ""
    else if |parts| == 1 then parts[0]
    else parts[0] + (separator + Join(parts[1..], separator))
  }

  /** Every character replaced by a string, as `replace` with a global pattern and case mapping do. */
  function MapChars(s: string, f: char -> string): string {
    if s == "" then "" else f(s[0]) + MapChars(s[1..], f)
  }

  lemma {:induction false} MapCharsConcat(a: string, b: string, f: char -> string)
    ensures MapChars(a + b, f) == MapChars(a, f) + MapChars(b, f)
  {
    if a == "" {
      assert a + b == b;
    } else {
      assert (a + b)[1..] == a[1..] + b;
      MapCharsConcat(a[1..], b, f);
    }
  }

  lemma {:induction false} MapCharsFixed(s: string, f: char -> string)
    requires forall i :: 0 <= i < |s| ==> f(s[i]) == [s[i]]
    ensures MapChars(s, f) == s
  {
    if s != "" { MapCharsFixed(s[1..], f); }
  }

  /** `text.split(separator)` for a one-character separator. */
  function Split(text: string, separator: char): (parts: seq<string>)
    ensures |parts| >= 1
  {
    if text == "" then [""]
    else
      var rest := Split(text[1..], separator);
      if text[0] == separator then [""] + rest else [[text[0]] + rest[0]] + rest[1..]
  }

  lemma {:induction false} JoinSplit(text: string, separator: char)
    ensures Join(Split(text, separator), [separator]) == text
    ensures forall part :: part in Split(text, separator) ==> separator !in part
  {
    if text != "" {
      JoinSplit(text[1..], separator);
      var rest := Split(text[1..], separator);
      if text[0] == separator {
        assert ([""] + rest)[1..] == rest;
      } else {
        var head := [text[0]] + rest[0];
        assert ([head] + rest[1..])[1..] == rest[1..];
        assert Join([head] + rest[1..], [separator]) == [text[0]] + Join(rest, [separator]);
      }
    }
  }

  lemma {:induction false} SplitPart(part: string, rest: string, separator: char)
    requires separator !in part
    ensures Split(part, separator) == [part]
    ensures Split(part + ([separator] + rest), separator) == [part] + Split(rest, separator)
  {
    if part == "" {
      assert part + ([separator] + rest) == [separator] + rest;
      assert ([separator] + rest)[1..] == rest;
    } else {
      SplitPart(part[1..], rest, separator);
      assert (part + ([separator] + rest))[1..] == part[1..] + ([separator] + rest);
      assert [part[0]] + part[1..] == part;
    }
  }

  lemma {:induction false} SplitJoin(parts: seq<string>, separator: char)
    requires |parts| >= 1 && forall part :: part in parts ==> separator !in part
    ensures Split(Join(parts, [separator]), separator) == parts
  {
    if |parts| == 1 {
      SplitPart(parts[0], "", separator);
    } else {
      SplitJoin(parts[1..], separator);
      SplitPart(parts[0], Join(parts[1..], [separator]), separator);
      assert parts == [parts[0]] + parts[1..];
    }
  }

  lemma {:induction false} TrimEndSplits(s: string) returns (space: string)
    ensures s == TrimEnd(s) + space && Blank(space)
    ensures TrimEnd(s) != "" ==> !IsWhitespace(TrimEnd(s)[|TrimEnd(s)| - 1])
    ensures TrimEnd(s) != "" ==> TrimEnd(s)[0] == s[0]
  {
    if s != "" && IsWhitespace(s[|s| - 1]) {
      space := TrimEndSplits(s[..|s| - 1]);
      assert s == s[..|s| - 1] + [s[|s| - 1]];
      assert s == TrimEnd(s) + (space + [s[|s| - 1]]);
      space := space + [s[|s| - 1]];
    } else {
      space := "";
    }
  }

  lemma {:induction false} TrimEndBlank(s: string, w: string)
    requires Blank(w)
    requires s != "" ==> !IsWhitespace(s[|s| - 1])
    ensures TrimEnd(s + w) == s
  {
    if w != "" {
      assert (s + w)[..|s + w| - 1] == s + w[..|w| - 1];
      TrimEndBlank(s, w[..|w| - 1]);
    } else {
      assert s + w == s;
    }
  }

  /** A text whose ends are not white space is what `trim` leaves, whatever surrounds it. */
  lemma TrimSurrounded(before: string, s: string, after: string)
    requires Blank(before) && Blank(after)
    requires s != "" && !IsWhitespace(s[0]) && !IsWhitespace(s[|s| - 1])
    ensures Trim(before + (s + after)) == s && Trim(s) == s
  {
    TrimStartBlank(before, s + after);
    TrimEndBlank(s, after);
    TrimStartBlank("", s);
    TrimEndBlank(s, "");
    assert "" + s == s && s + "" == s;
  }

  lemma TrimSplits(s: string) returns (before: string, after: string)
    ensures s == before + (Trim(s) + after) && Blank(before) && Blank(after)
    ensures Trim(s) != "" ==> !IsWhitespace(Trim(s)[0]) && !IsWhitespace(Trim(s)[|Trim(s)| - 1])
  {
    before := TrimStartSplits(s);
    after := TrimEndSplits(TrimStart(s));
  }

  // ---------- Global regular expressions ----------

  /** A regular expression tried at the start of a text: what it captures and how many characters it takes. */
  type Pattern<!T> = string -> Option<(T, nat)>

  function MatchAt<T>(pattern: Pattern<T>, s: string): (m: Option<(T, nat)>)
    ensures m.Some? ==> 0 < m.value.1 <= |s|
  {
    match pattern(s)
    case None => None
    case Some((value, length)) => if 0 < length <= |s| then Some((value, length)) else None
  }

  /** `exec` of a global expression: the leftmost match from `from` on, and where it ends. */
  function Exec<T>(pattern: Pattern<T>, s: string, from: nat): (m: Option<(T, nat)>)
    requires from <= |s|
    ensures m.Some? ==> from < m.value.1 <= |s|
    decreases |s| - from
  {
    match MatchAt(pattern, s[from..])
    case Some((value, length)) => Some((value, from + length))
    case None => if from == |s| then None else Exec(pattern, s, from + 1)
  }

  /** All matches, left to right. */
  function AllMatches<T>(pattern: Pattern<T>, s: string): seq<T>
    decreases |s|
  {
    match MatchAt(pattern, s)
    case Some((value, length)) => [value] + AllMatches(pattern, s[length..])
    case None => if s == "" then [] else AllMatches(pattern, s[1..])
  }

  /** Repeated `exec` finds all matches. */
  lemma {:induction false} ExecNext<T>(pattern: Pattern<T>, s: string, from: nat)
    requires from <= |s|
    ensures AllMatches(pattern, s[from..]) ==
            match Exec(pattern, s, from)
            case None => []
            case Some((value, end)) => [value] + AllMatches(pattern, s[end..])
    decreases |s| - from
  {
    match MatchAt(pattern, s[from..])
    case Some((value, length)) =>
      assert s[from..][length..] == s[from + length..];
    case None =>
      if from < |s| {
        assert s[from..][1..] == s[from + 1..];
        ExecNext(pattern, s, from + 1);
      }
  }

  lemma FirstMatch<T>(pattern: Pattern<T>, s: string, value: T, length: nat, rest: string)
    requires pattern(s) == Some((value, length)) && 0 < length <= |s| && s[length..] == rest
    ensures AllMatches(pattern, s) == [value] + AllMatches(pattern, rest)
  {
  }

  lemma NoMatchHere<T>(pattern: Pattern<T>, c: char, rest: string)
    requires pattern([c] + rest).None?
    ensures AllMatches(pattern, [c] + rest) == AllMatches(pattern, rest)
  {
    assert ([c] + rest)[1..] == rest;
  }
}
