/** The info string of an interactive block: its name and its id, title and ref attributes. */
module FenceInfo {
  import opened Wrappers
  import opened JsText
  import opened FenceLines

  const INTERACTIVE_FENCE: string := "lmc-ui"

  datatype InteractiveFence = InteractiveFence(id: Option<string>, title: Option<string>, ref: Option<string>)

  // ---------- cleanId ----------

  predicate IsIdChar(c: char) {
    'a' <= c <= 'z' || '0' <= c <= '9' || c == '_' || c == '-'
  }

  function KeepIdChar(c: char): string {
    if IsIdChar(c) then [c] else ""
  }

  function Slice(s: string, n: nat): string {
    if |s| <= n then s else s[..n]
  }

  function NonEmpty(s: string): Option<string> {
    if s == "" then None else Some(s)
  }

  /** `lower` is Unicode's lower-case mapping of one character. */
  function CleanId(value: string, lower: char -> string): Option<string> {
    NonEmpty(Slice(MapChars(MapChars(value, lower), KeepIdChar), 40))
  }

  ghost predicate FixesIds(lower: char -> string) {
    forall c :: IsIdChar(c) ==> lower(c) == [c]
  }

  predicate NormalId(id: string) {
    0 < |id| <= 40 && forall i :: 0 <= i < |id| ==> IsIdChar(id[i])
  }

  lemma {:induction false} KeptAreIdChars(s: string)
    ensures forall i :: 0 <= i < |MapChars(s, KeepIdChar)| ==> IsIdChar(MapChars(s, KeepIdChar)[i])
  {
    if s != "" { KeptAreIdChars(s[1..]); }
  }

  /** cleanId returns normal ids only, and returns exactly those unchanged. */
  lemma CleanIdNormal(value: string, lower: char -> string)
    requires FixesIds(lower)
    ensures CleanId(value, lower).Some? ==> NormalId(CleanId(value, lower).value)
    ensures CleanId(value, lower) == Some(value) <==> NormalId(value)
  {
    KeptAreIdChars(MapChars(value, lower));
    if NormalId(value) {
      MapCharsFixed(value, lower);
      MapCharsFixed(value, KeepIdChar);
    }
  }

  /** The characters of an id, by their codes. */
  lemma IdCharCodes(c: char)
    ensures IsIdChar(c) <==> var n := c as int; 48 <= n <= 57 || n == 95 || n == 45 || 97 <= n <= 122
  {
  }

  /** A long id is cut after 40 characters; one without a normal character is none. */
  lemma LongIdIsCut(id: string, lower: char -> string)
    requires FixesIds(lower) && forall i :: 0 <= i < |id| ==> IsIdChar(id[i])
    ensures |id| > 40 ==> CleanId(id, lower) == Some(id[..40])
    ensures id == "" ==> CleanId(id, lower).None?
  {
    MapCharsFixed(id, lower);
    MapCharsFixed(id, KeepIdChar);
  }

  /** Any other character counts as its lower-case form, and as nothing when that has no id character. */
  lemma OtherIdCharacter(a: string, c: char, b: string, lower: char -> string)
    requires FixesIds(lower)
    ensures (forall i :: 0 <= i < |lower(c)| ==> IsIdChar(lower(c)[i])) ==>
              CleanId(a + ([c] + b), lower) == CleanId(a + (lower(c) + b), lower)
    ensures (forall i :: 0 <= i < |lower(c)| ==> !IsIdChar(lower(c)[i])) ==>
              CleanId(a + ([c] + b), lower) == CleanId(a + b, lower)
  {
    var x, y, z := MapChars(a, lower), lower(c), MapChars(b, lower);
    MapCharsConcat(a, [c] + b, lower);
    MapCharsConcat([c], b, lower);
    assert MapChars([c], lower) == y + MapChars("", lower) == y;
    MapCharsConcat(a, b, lower);
    MapCharsConcat(x, y + z, KeepIdChar);
    MapCharsConcat(y, z, KeepIdChar);
    MapCharsConcat(x, z, KeepIdChar);
    if forall i :: 0 <= i < |y| ==> IsIdChar(y[i]) {
      MapCharsConcat(a, y + b, lower);
      MapCharsConcat(y, b, lower);
      MapCharsFixed(y, lower);
    }
    if forall i :: 0 <= i < |y| ==> !IsIdChar(y[i]) {
      NoneKept(y);
      assert MapChars(x, KeepIdChar) + ("" + MapChars(z, KeepIdChar)) == MapChars(x, KeepIdChar) + MapChars(z, KeepIdChar);
    }
  }

  lemma {:induction false} NoneKept(s: string)
    requires forall i :: 0 <= i < |s| ==> !IsIdChar(s[i])
    ensures MapChars(s, KeepIdChar) == ""
  {
    if s != "" { NoneKept(s[1..]); }
  }

  // ---------- Attributes ----------

  predicate IsWordChar(c: char) {
    'a' <= c <= 'z' || 'A' <= c <= 'Z' || '0' <= c <= '9' || c == '_'
  }

  /** The characters of a name, by their codes. */
  lemma WordCharCodes(c: char)
    ensures IsWordChar(c) <==> var n := c as int; 48 <= n <= 57 || 65 <= n <= 90 || n == 95 || 97 <= n <= 122
  {
  }

  datatype Attribute = Attribute(name: string, value: string)

  /** How many characters satisfying `p` stand at the start. */
  function SpanLength(s: string, p: char -> bool): (n: nat)
    ensures n <= |s|
  {
    if s != "" && p(s[0]) then 1 + SpanLength(s[1..], p) else 0
  }

  /** A value and how many characters it takes: quoted, or else the characters up to white space. */
  function MatchValue(s: string): (m: Option<(string, nat)>)
    ensures m.Some? ==> 0 < m.value.1 <= |s|
  {
    var double := Quoted(s, '\"');
    var single := Quoted(s, '\'');
    var n := SpanLength(s, c => !IsWhitespace(c));
    if double.Some? then double
    else if single.Some? then single
    else if n == 0 then None
    else Some((s[..n], n))
  }

  function Quoted(s: string, quote: char): (m: Option<(string, nat)>)
    ensures m.Some? ==> 0 < m.value.1 <= |s|
  {
    if s == "" || s[0] != quote then None
    else
      match IndexOf(s, [quote], 1)
      case None => None
      case Some(end) => Some((s[1..end], end + 1))
  }

  /** The attribute expression matched at the start of `s`; a shorter word could not be followed by `=`. */
  function MatchAttribute(s: string): (m: Option<(Attribute, nat)>)
    ensures m.Some? ==> 0 < m.value.1 <= |s|
  {
    var n := SpanLength(s, IsWordChar);
    if n == 0 || n == |s| || s[n] != '=' then None
    else
      match MatchValue(s[n + 1..])
      case None => None
      case Some((value, length)) => Some((Attribute(s[..n], value), n + 1 + length))
  }

  function Attributes(s: string): seq<Attribute> {
    AllMatches(MatchAttribute, s)
  }

  /** The value of the last attribute of this name. */
  function LastNamed(attributes: seq<Attribute>, name: string): Option<string> {
    if attributes == [] then None
    else if attributes[|attributes| - 1].name == name then Some(attributes[|attributes| - 1].value)
    else LastNamed(attributes[..|attributes| - 1], name)
  }

  function CleanNamed(attributes: seq<Attribute>, name: string, lower: char -> string): Option<string> {
    match LastNamed(attributes, name)
    case None => None
    case Some(value) => CleanId(Trim(value), lower)
  }

  function TitleNamed(attributes: seq<Attribute>): Option<string> {
    match LastNamed(attributes, "title")
    case None => None
    case Some(value) => NonEmpty(Slice(Trim(value), 80))
  }

  function FenceOf(attributes: seq<Attribute>, lower: char -> string): InteractiveFence {
    InteractiveFence(CleanNamed(attributes, "id", lower), TitleNamed(attributes), CleanNamed(attributes, "ref", lower))
  }

  predicate IsInteractive(text: string) {
    text == INTERACTIVE_FENCE || INTERACTIVE_FENCE + " " <= text
  }

  /** What an info string means: nothing, or the last attribute of each name. */
  function ParseInfo(info: string, lower: char -> string): Option<InteractiveFence> {
    var text := Trim(info);
    if !IsInteractive(text) then None
    else Some(FenceOf(Attributes(text[|INTERACTIVE_FENCE|..]), lower))
  }

  method ParseInteractiveFence(info: string, lower: char -> string) returns (fence: Option<InteractiveFence>)
    ensures fence == ParseInfo(info, lower)
  {
    var text := Trim(info);
    if text != INTERACTIVE_FENCE && !(INTERACTIVE_FENCE + " " <= text) {
      return None;
    }
    var result := InteractiveFence(None, None, None);
    var rest := text[|INTERACTIVE_FENCE|..];
    var lastIndex := 0;
    ghost var seen: seq<Attribute> := [];
    var found := Exec(MatchAttribute, rest, lastIndex);
    ExecNext(MatchAttribute, rest, lastIndex);
    assert rest[0..] == rest;
    while found.Some?
      invariant 0 <= lastIndex <= |rest|
      invariant found == Exec(MatchAttribute, rest, lastIndex)
      invariant seen + Attributes(rest[lastIndex..]) == Attributes(rest)
      invariant result == FenceOf(seen, lower)
      decreases |rest| - lastIndex
    {
      ExecNext(MatchAttribute, rest, lastIndex);
      var attribute := found.value.0;
      var value := Trim(attribute.value);
      OneMoreAttribute(seen, attribute, lower);
      if attribute.name == "id" {
        result := result.(id := CleanId(value, lower));
      } else if attribute.name == "ref" {
        result := result.(ref := CleanId(value, lower));
      } else if attribute.name == "title" {
        result := result.(title := NonEmpty(Slice(value, 80)));
      }
      Shift(seen, attribute, Attributes(rest[found.value.1..]));
      seen := seen + [attribute];
      lastIndex := found.value.1;
      found := Exec(MatchAttribute, rest, lastIndex);
    }
    ExecNext(MatchAttribute, rest, lastIndex);
    assert seen + [] == seen;
    fence := Some(result);
  }

  /** Reading one more attribute replaces what an earlier one of the same name had set. */
  lemma OneMoreAttribute(seen: seq<Attribute>, attribute: Attribute, lower: char -> string)
    ensures var fence, value := FenceOf(seen, lower), Trim(attribute.value);
            FenceOf(seen + [attribute], lower) ==
            if attribute.name == "id" then fence.(id := CleanId(value, lower))
            else if attribute.name == "ref" then fence.(ref := CleanId(value, lower))
            else if attribute.name == "title" then fence.(title := NonEmpty(Slice(value, 80)))
            else fence
  {
    assert (seen + [attribute])[..|seen|] == seen;
    assert "id"[0] != "ref"[0] && "id"[0] != "title"[0] && "ref"[0] != "title"[0];
  }

  lemma Shift(seen: seq<Attribute>, attribute: Attribute, after: seq<Attribute>)
    ensures seen + ([attribute] + after) == (seen + [attribute]) + after
  {
  }

  // ---------- Spelled info strings ----------

  /** What may stand in an info string after a blank: a word that sets nothing, or an attribute. */
  datatype Piece = Word(text: string) | InQuotes(name: string, quote: char, value: string) | Bare(name: string, value: string)

  function Spell(piece: Piece): string {
    match piece
    case Word(text) => text
    case InQuotes(name, quote, value) => name + ("=" + ([quote] + (value + [quote])))
    case Bare(name, value) => name + ("=" + value)
  }

  function Text(pieces: seq<Piece>): string {
    if pieces == [] then "" else " " + (Spell(pieces[0]) + Text(pieces[1..]))
  }

  predicate IsName(name: string) {
    name != "" && forall i :: 0 <= i < |name| ==> IsWordChar(name[i])
  }

  predicate NoBlanks(s: string) {
    s != "" && forall i :: 0 <= i < |s| ==> !IsWhitespace(s[i])
  }

  predicate IsQuote(c: char) {
    c == '\"' || c == '\''
  }

  /** A bare value may begin with a quote that nothing closes. */
  predicate GoodPiece(piece: Piece, rest: string) {
    match piece
    case Word(text) => NoBlanks(text) && '=' !in text
    case InQuotes(name, quote, value) => IsName(name) && IsQuote(quote) && quote !in value
    case Bare(name, value) => IsName(name) && NoBlanks(value) && (IsQuote(value[0]) ==> value[0] !in value[1..] + rest)
  }

  predicate WellSpelled(pieces: seq<Piece>) {
    pieces == [] || (GoodPiece(pieces[0], Text(pieces[1..])) && WellSpelled(pieces[1..]))
  }

  /** The attributes written in the pieces. */
  function Written(pieces: seq<Piece>): seq<Attribute> {
    if pieces == [] then []
    else (if pieces[0].Word? then [] else [Attribute(pieces[0].name, pieces[0].value)]) + Written(pieces[1..])
  }

  lemma {:induction false} SpanExact(a: string, rest: string, p: char -> bool)
    requires forall i :: 0 <= i < |a| ==> p(a[i])
    requires rest != "" ==> !p(rest[0])
    ensures SpanLength(a + rest, p) == |a|
  {
    if a == "" {
      assert a + rest == rest;
    } else {
      assert (a + rest)[1..] == a[1..] + rest;
      SpanExact(a[1..], rest, p);
    }
  }

  lemma {:induction false} SpanStops(s: string, p: char -> bool)
    ensures forall i :: 0 <= i < SpanLength(s, p) ==> p(s[i])
    ensures SpanLength(s, p) < |s| ==> !p(s[SpanLength(s, p)])
  {
    if s != "" && p(s[0]) { SpanStops(s[1..], p); }
  }

  lemma BlankSkipped(s: string)
    ensures Attributes(" " + s) == Attributes(s)
  {
    assert SpanLength(" " + s, IsWordChar) == 0;
    NoMatchHere(MatchAttribute, ' ', s);
  }

  lemma NoAttributeHere(text: string, rest: string)
    requires '=' !in text && (rest != "" ==> rest[0] == ' ')
    ensures MatchAttribute(text + rest).None?
  {
    var s := text + rest;
    SpanStops(s, IsWordChar);
    assert |text| < |s| ==> !IsWordChar(s[|text|]);
  }

  /** A word without `=` sets nothing. */
  lemma {:induction false} WordSkipped(text: string, rest: string)
    requires '=' !in text && (rest != "" ==> rest[0] == ' ')
    ensures Attributes(text + rest) == Attributes(rest)
  {
    if text == "" {
      assert text + rest == rest;
    } else {
      NoAttributeHere(text, rest);
      assert text + rest == [text[0]] + (text[1..] + rest);
      NoMatchHere(MatchAttribute, text[0], text[1..] + rest);
      WordSkipped(text[1..], rest);
    }
  }

  /** An attribute read, given how its value is. */
  lemma NameMatched(name: string, s: string, t: string, value: string, length: nat, rest: string)
    requires IsName(name) && t == name + ("=" + s)
    requires MatchValue(s) == Some((value, length)) && s[length..] == rest
    ensures Attributes(t) == [Attribute(name, value)] + Attributes(rest)
  {
    SpanExact(name, "=" + s, IsWordChar);
    assert t[|name| + 1..] == s && t[..|name|] == name;
    assert t[|name| + 1 + length..] == rest;
    FirstMatch(MatchAttribute, t, Attribute(name, value), |name| + 1 + length, rest);
  }

  lemma QuoteOpen(s: string, quote: char)
    requires s == "" || s[0] != quote || quote !in s[1..]
    ensures Quoted(s, quote).None?
  {
    if s != "" && s[0] == quote {
      assert forall i :: 1 <= i < |s| ==> s[i] == s[1..][i - 1];
      assert forall i :: 1 <= i && At(s, [quote], i) ==> s[i + 0] == [quote][0];
    }
  }

  lemma BareValue(value: string, rest: string)
    requires NoBlanks(value) && (IsQuote(value[0]) ==> value[0] !in value[1..] + rest)
    requires rest != "" ==> rest[0] == ' '
    ensures MatchValue(value + rest) == Some((value, |value|)) && (value + rest)[|value|..] == rest
  {
    assert (value + rest)[1..] == value[1..] + rest;
    QuoteOpen(value + rest, '\"');
    QuoteOpen(value + rest, '\'');
    SpanExact(value, rest, c => !IsWhitespace(c));
    assert (value + rest)[..|value|] == value;
  }

  lemma QuotedValue(value: string, quote: char, rest: string, s: string)
    requires quote !in value && IsQuote(quote) && s == [quote] + (value + ([quote] + rest))
    ensures MatchValue(s) == Some((value, |value| + 2)) && s[|value| + 2..] == rest
  {
    var end := |value| + 1;
    assert s[1..end] == value && s[end + 1..] == rest;
    assert At(s, [quote], end);
    forall j | 1 <= j < end ensures !At(s, [quote], j) {
      assert s[j] == value[j - 1];
      assert s[j + 0] != [quote][0];
    }
    assert IndexOf(s, [quote], 1) == Some(end);
  }

  lemma WrittenOne(piece: Piece)
    ensures Written([piece]) == if piece.Word? then [] else [Attribute(piece.name, piece.value)]
  {
  }

  lemma QuotedRead(name: string, quote: char, value: string, rest: string, t: string)
    requires IsName(name) && IsQuote(quote) && quote !in value
    requires t == name + ("=" + ([quote] + (value + ([quote] + rest))))
    ensures Attributes(t) == [Attribute(name, value)] + Attributes(rest)
  {
    var s := [quote] + (value + ([quote] + rest));
    QuotedValue(value, quote, rest, s);
    NameMatched(name, s, t, value, |value| + 2, rest);
  }

  lemma BareRead(name: string, value: string, rest: string, t: string)
    requires IsName(name) && NoBlanks(value) && (IsQuote(value[0]) ==> value[0] !in value[1..] + rest)
    requires (rest != "" ==> rest[0] == ' ') && t == name + ("=" + (value + rest))
    ensures Attributes(t) == [Attribute(name, value)] + Attributes(rest)
  {
    BareValue(value, rest);
    NameMatched(name, value + rest, t, value, |value|, rest);
  }

  lemma SpellThenRest(piece: Piece, rest: string)
    requires !piece.Word?
    ensures Spell(piece) + rest ==
            piece.name + ("=" + if piece.Bare? then piece.value + rest
                                else [piece.quote] + (piece.value + ([piece.quote] + rest)))
  {
    if piece.InQuotes? {
      assert (piece.value + [piece.quote]) + rest == piece.value + ([piece.quote] + rest);
    }
  }

  lemma PieceRead(piece: Piece, rest: string)
    requires GoodPiece(piece, rest) && (rest != "" ==> rest[0] == ' ')
    ensures Attributes(Spell(piece) + rest) == Written([piece]) + Attributes(rest)
  {
    WrittenOne(piece);
    match piece {
      case Word(text) =>
        WordSkipped(text, rest);
      case InQuotes(name, quote, value) =>
        SpellThenRest(piece, rest);
        QuotedRead(name, quote, value, rest, Spell(piece) + rest);
      case Bare(name, value) =>
        SpellThenRest(piece, rest);
        BareRead(name, value, rest, Spell(piece) + rest);
    }
  }

  /** Each piece is read as it is written, in order. */
  lemma {:induction false} PiecesRead(pieces: seq<Piece>)
    requires WellSpelled(pieces)
    ensures Attributes(Text(pieces)) == Written(pieces)
  {
    if pieces != [] {
      var rest := Text(pieces[1..]);
      PiecesRead(pieces[1..]);
      BlankSkipped(Spell(pieces[0]) + rest);
      PieceRead(pieces[0], rest);
    }
  }

  predicate EndsWell(s: string) {
    s != "" ==> !IsWhitespace(s[|s| - 1])
  }

  lemma SpellEndsWell(piece: Piece, rest: string)
    requires GoodPiece(piece, rest)
    ensures Spell(piece) != "" && EndsWell(Spell(piece))
  {
  }

  lemma {:induction false} TextEndsWell(pieces: seq<Piece>)
    requires WellSpelled(pieces)
    ensures EndsWell(Text(pieces))
  {
    if pieces != [] {
      TextEndsWell(pieces[1..]);
      SpellEndsWell(pieces[0], Text(pieces[1..]));
    }
  }

  lemma Trimmed(before: string, rest: string, after: string, info: string)
    requires Blank(before) && Blank(after) && EndsWell(rest) && (rest != "" ==> rest[0] == ' ')
    requires info == before + (("lmc-ui" + rest) + after)
    ensures Trim(info) == "lmc-ui" + rest && IsInteractive(Trim(info)) && Trim(info)[|INTERACTIVE_FENCE|..] == rest
  {
    var text := "lmc-ui" + rest;
    TrimSurrounded(before, text, after);
    if rest != "" {
      assert text[..7] == "lmc-ui ";
    }
  }

  /** An info string, with white space around it, means the attributes written in it. */
  lemma SpelledMeans(info: string, pieces: seq<Piece>, before: string, after: string, lower: char -> string)
    requires WellSpelled(pieces) && Blank(before) && Blank(after)
    requires info == before + (("lmc-ui" + Text(pieces)) + after)
    ensures ParseInfo(info, lower) == Some(FenceOf(Written(pieces), lower))
  {
    PiecesRead(pieces);
    TextEndsWell(pieces);
    Trimmed(before, Text(pieces), after, info);
  }

  lemma SpelledAlone(info: string, pieces: seq<Piece>, lower: char -> string)
    requires WellSpelled(pieces) && info == "lmc-ui" + Text(pieces)
    ensures ParseInfo(info, lower) == Some(FenceOf(Written(pieces), lower))
  {
    assert "" + (info + "") == info;
    SpelledMeans(info, pieces, "", "", lower);
  }

  /** Only an info string that is `lmc-ui`, or begins with it and a blank, is interactive. */
  lemma OnlyInteractive(info: string, lower: char -> string)
    ensures ParseInfo(info, lower).Some? <==> Trim(info) == "lmc-ui" || "lmc-ui " <= Trim(info)
  {
    assert INTERACTIVE_FENCE + " " == "lmc-ui ";
  }

  // ---------- Which attribute counts ----------

  /** Attribute `k` is the last of its name. */
  predicate LastOf(attributes: seq<Attribute>, k: nat, name: string) {
    k < |attributes| && attributes[k].name == name && forall j :: k < j < |attributes| ==> attributes[j].name != name
  }

  lemma {:induction false} LastFound(attributes: seq<Attribute>, k: nat, name: string)
    requires LastOf(attributes, k, name)
    ensures LastNamed(attributes, name) == Some(attributes[k].value)
  {
    if k < |attributes| - 1 { LastFound(attributes[..|attributes| - 1], k, name); }
  }

  lemma {:induction false} NoneFound(attributes: seq<Attribute>, name: string)
    requires forall a :: a in attributes ==> a.name != name
    ensures LastNamed(attributes, name).None?
  {
    if attributes != [] {
      assert attributes[|attributes| - 1] in attributes;
      NoneFound(attributes[..|attributes| - 1], name);
    }
  }

  /** The last title counts: trimmed, at most 80 characters of it, and nothing when none is left. */
  lemma LastTitleCounts(info: string, pieces: seq<Piece>, k: nat, lower: char -> string)
    requires WellSpelled(pieces) && info == "lmc-ui" + Text(pieces)
    requires LastOf(Written(pieces), k, "title")
    ensures ParseInfo(info, lower).Some?
    ensures var title, value := ParseInfo(info, lower).value.title, Trim(Written(pieces)[k].value);
            && (value == "" ==> title.None?)
            && (0 < |value| <= 80 ==> title == Some(value))
            && (|value| > 80 ==> title == Some(value[..80]))
  {
    SpelledAlone(info, pieces, lower);
    LastFound(Written(pieces), k, "title");
  }

  /** The last id and the last ref count, cleaned. */
  lemma LastIdCounts(info: string, pieces: seq<Piece>, k: nat, name: string, lower: char -> string)
    requires WellSpelled(pieces) && info == "lmc-ui" + Text(pieces)
    requires LastOf(Written(pieces), k, name)
    ensures ParseInfo(info, lower).Some?
    ensures var fence, value := ParseInfo(info, lower).value, Trim(Written(pieces)[k].value);
            && (name == "id" ==> fence.id == CleanId(value, lower))
            && (name == "ref" ==> fence.ref == CleanId(value, lower))
  {
    SpelledAlone(info, pieces, lower);
    LastFound(Written(pieces), k, name);
  }

  /** What no attribute names is not set. */
  lemma UnnamedIsUnset(info: string, pieces: seq<Piece>, name: string, lower: char -> string)
    requires WellSpelled(pieces) && info == "lmc-ui" + Text(pieces)
    requires forall a :: a in Written(pieces) ==> a.name != name
    ensures ParseInfo(info, lower).Some?
    ensures var fence := ParseInfo(info, lower).value;
            && (name == "id" ==> fence.id.None?) && (name == "title" ==> fence.title.None?) && (name == "ref" ==> fence.ref.None?)
  {
    SpelledAlone(info, pieces, lower);
    NoneFound(Written(pieces), name);
  }

  // ---------- Printing ----------

  predicate PrintableTitle(title: string) {
    0 < |title| <= 80 && Trim(title) == title && OneLine(title) && ('\"' !in title || '\'' !in title)
  }

  /** The fences that can be written back: normal ids, and a trimmed one-line title without quotes of both kinds. */
  predicate Printable(f: InteractiveFence) {
    && (f.id.Some? ==> NormalId(f.id.value))
    && (f.title.Some? ==> PrintableTitle(f.title.value))
    && (f.ref.Some? ==> NormalId(f.ref.value))
  }

  function BarePiece(name: string, value: Option<string>): seq<Piece> {
    if value.Some? then [Bare(name, value.value)] else []
  }

  function TitlePiece(title: Option<string>): seq<Piece> {
    if title.None? then []
    else [InQuotes("title", if '\"' !in title.value then '\"' else '\'', title.value)]
  }

  function PiecesOf(f: InteractiveFence): seq<Piece> {
    BarePiece("id", f.id) + (TitlePiece(f.title) + BarePiece("ref", f.ref))
  }

  function PrintInfo(f: InteractiveFence): string {
    INTERACTIVE_FENCE + Text(PiecesOf(f))
  }

  lemma MorePieces(more: seq<Piece>, pieces: seq<Piece>)
    requires WellSpelled(pieces) && |more| <= 1 && (more != [] ==> GoodPiece(more[0], Text(pieces)))
    ensures WellSpelled(more + pieces) && Written(more + pieces) == Written(more) + Written(pieces)
    ensures Text(more + pieces) == if more == [] then Text(pieces) else " " + (Spell(more[0]) + Text(pieces))
  {
    if more == [] {
      assert more + pieces == pieces;
    } else {
      OnePiece(more[0], pieces, more + pieces);
      WrittenOne(more[0]);
      assert more == [more[0]];
    }
  }

  lemma OnePiece(piece: Piece, pieces: seq<Piece>, all: seq<Piece>)
    requires WellSpelled(pieces) && GoodPiece(piece, Text(pieces)) && all == [piece] + pieces
    ensures WellSpelled(all) && Text(all) == " " + (Spell(piece) + Text(pieces))
    ensures Written(all) == (if piece.Word? then [] else [Attribute(piece.name, piece.value)]) + Written(pieces)
  {
    assert all[1..] == pieces;
  }

  function Optional(name: string, value: Option<string>): seq<Attribute> {
    if value.Some? then [Attribute(name, value.value)] else []
  }

  lemma NormalIdIsBare(id: string)
    requires NormalId(id)
    ensures NoBlanks(id) && !IsQuote(id[0]) && OneLine(id) && Trim(id) == id
  {
    forall i | 0 <= i < |id| ensures !IsWhitespace(id[i]) && !IsQuote(id[i]) && !IsLineTerminator(id[i]) {
      assert IsIdChar(id[i]);
    }
    TrimSurrounded("", id, "");
  }

  lemma BarePieceGood(name: string, value: Option<string>, pieces: seq<Piece>)
    requires IsName(name) && OneLine(name) && WellSpelled(pieces) && OneLine(Text(pieces))
    requires value.Some? ==> NormalId(value.value)
    ensures WellSpelled(BarePiece(name, value) + pieces) && OneLine(Text(BarePiece(name, value) + pieces))
    ensures Written(BarePiece(name, value) + pieces) == Optional(name, value) + Written(pieces)
  {
    if value.Some? { NormalIdIsBare(value.value); }
    MorePieces(BarePiece(name, value), pieces);
  }

  lemma TitlePieceGood(title: Option<string>, pieces: seq<Piece>)
    requires WellSpelled(pieces) && OneLine(Text(pieces))
    requires title.Some? ==> PrintableTitle(title.value)
    ensures WellSpelled(TitlePiece(title) + pieces) && OneLine(Text(TitlePiece(title) + pieces))
    ensures Written(TitlePiece(title) + pieces) == Optional("title", title) + Written(pieces)
  {
    MorePieces(TitlePiece(title), pieces);
    if title.Some? { SpelledTitle(title.value, TitlePiece(title)[0]); }
  }

  lemma SpelledTitle(title: string, piece: Piece)
    requires PrintableTitle(title) && piece.InQuotes? && IsQuote(piece.quote)
    requires piece.name == "title" && piece.value == title
    ensures OneLine(Spell(piece))
  {
    var end := title + [piece.quote];
    assert OneLine(end);
    assert OneLine([piece.quote] + end);
    assert OneLine("=" + ([piece.quote] + end));
  }

  lemma PiecesGood(f: InteractiveFence)
    requires Printable(f)
    ensures WellSpelled(PiecesOf(f)) && OneLine(Text(PiecesOf(f)))
    ensures Written(PiecesOf(f)) == Optional("id", f.id) + (Optional("title", f.title) + Optional("ref", f.ref))
  {
    var refs := BarePiece("ref", f.ref);
    BarePieceGood("ref", f.ref, []);
    assert refs + [] == refs;
    assert Optional("ref", f.ref) + [] == Optional("ref", f.ref);
    TitlePieceGood(f.title, refs);
    BarePieceGood("id", f.id, TitlePiece(f.title) + refs);
  }

  lemma SetBare(seen: seq<Attribute>, name: string, value: Option<string>, lower: char -> string)
    requires FixesIds(lower) && (value.Some? ==> NormalId(value.value)) && (name == "id" || name == "ref")
    ensures FenceOf(seen + Optional(name, value), lower) ==
            if value.None? then FenceOf(seen, lower)
            else if name == "id" then FenceOf(seen, lower).(id := value)
            else FenceOf(seen, lower).(ref := value)
  {
    if value.Some? {
      NormalIdIsBare(value.value);
      CleanIdNormal(value.value, lower);
      OneMoreAttribute(seen, Attribute(name, value.value), lower);
    } else {
      assert seen + [] == seen;
    }
  }

  lemma SetTitle(seen: seq<Attribute>, title: Option<string>, lower: char -> string)
    requires title.Some? ==> PrintableTitle(title.value)
    ensures FenceOf(seen + Optional("title", title), lower) ==
            if title.None? then FenceOf(seen, lower) else FenceOf(seen, lower).(title := title)
  {
    if title.Some? {
      OneMoreAttribute(seen, Attribute("title", title.value), lower);
    } else {
      assert seen + [] == seen;
    }
  }

  lemma FenceOfPrinted(f: InteractiveFence, lower: char -> string)
    requires FixesIds(lower) && Printable(f)
    ensures FenceOf(Optional("id", f.id) + (Optional("title", f.title) + Optional("ref", f.ref)), lower) == f
  {
    var ids, titles, refs := Optional("id", f.id), Optional("title", f.title), Optional("ref", f.ref);
    assert ids + (titles + refs) == (([] + ids) + titles) + refs;
    SetBare([], "id", f.id, lower);
    SetTitle([] + ids, f.title, lower);
    SetBare(([] + ids) + titles, "ref", f.ref, lower);
  }

  lemma ParsePrinted(info: string, pieces: seq<Piece>, f: InteractiveFence, lower: char -> string)
    requires info == "lmc-ui" + Text(pieces) && WellSpelled(pieces) && OneLine(Text(pieces))
    requires FenceOf(Written(pieces), lower) == f
    ensures ParseInfo(info, lower) == Some(f) && OneLine(info)
  {
    SpelledAlone(info, pieces, lower);
    assert OneLine("lmc-ui");
  }

  /** Printing a fence and parsing it again gives the same fence. */
  lemma InfoRoundTrip(f: InteractiveFence, lower: char -> string)
    requires FixesIds(lower) && Printable(f)
    ensures ParseInfo(PrintInfo(f), lower) == Some(f)
    ensures OneLine(PrintInfo(f))
  {
    PiecesGood(f);
    FenceOfPrinted(f, lower);
    var pieces := PiecesOf(f);
    ParsePrinted(PrintInfo(f), pieces, f, lower);
  }
}
