/** The human-readable backup of a 32-byte secret key: formatting, cleaning and parsing. */
module SecretKeyBackup {
  import opened Wrappers
  import opened JsText
  import opened Bits
  import opened Base32

  const KEY_BYTES: nat := 32

  // ---------- Cleaning ----------

  /** `replace(/from/g, to)` for single characters. */
  function Replace(s: string, from: char, to: char): string {
    MapChars(s, c => if c == from then [to] else [c])
  }

  /** The text `base32ToBytes` decodes; `upper` is Unicode's upper-case mapping of one character. */
  function Clean(s: string, upper: char -> string): (cleaned: string)
    ensures IsBase32(cleaned)
  {
    var a := MapChars(s, upper);
    var normalized := Replace(Replace(Replace(Replace(a, '0', 'O'), '1', 'I'), '8', 'B'), '9', 'G');
    FilterIsBase32(normalized);
    MapChars(normalized, c => if InAlphabet(c) then [c] else "")
  }

  /** Upper-casing leaves the base32 alphabet and the dash alone. */
  ghost predicate FixesBase32(upper: char -> string) {
    && upper('-') == "-"
    && forall c :: InAlphabet(c) ==> upper(c) == [c]
  }

  lemma {:induction false} FilterIsBase32(s: string)
    ensures IsBase32(MapChars(s, c => if InAlphabet(c) then [c] else ""))
  {
    if s != "" { FilterIsBase32(s[1..]); }
  }

  lemma CleanConcat(a: string, b: string, upper: char -> string)
    ensures Clean(a + b, upper) == Clean(a, upper) + Clean(b, upper)
  {
    MapCharsConcat(a, b, upper);
    var a0, b0 := MapChars(a, upper), MapChars(b, upper);
    ReplaceConcat(a0, b0, '0', 'O');
    var a1, b1 := Replace(a0, '0', 'O'), Replace(b0, '0', 'O');
    ReplaceConcat(a1, b1, '1', 'I');
    var a2, b2 := Replace(a1, '1', 'I'), Replace(b1, '1', 'I');
    ReplaceConcat(a2, b2, '8', 'B');
    var a3, b3 := Replace(a2, '8', 'B'), Replace(b2, '8', 'B');
    ReplaceConcat(a3, b3, '9', 'G');
    MapCharsConcat(Replace(a3, '9', 'G'), Replace(b3, '9', 'G'), c => if InAlphabet(c) then [c] else "");
  }

  lemma ReplaceConcat(a: string, b: string, from: char, to: char)
    ensures Replace(a + b, from, to) == Replace(a, from, to) + Replace(b, from, to)
  {
    MapCharsConcat(a, b, c => if c == from then [to] else [c]);
  }

  lemma ReplaceAbsent(s: string, from: char, to: char)
    requires forall i :: 0 <= i < |s| ==> s[i] != from
    ensures Replace(s, from, to) == s
  {
    MapCharsFixed(s, c => if c == from then [to] else [c]);
  }

  lemma CleanBase32(s: string, upper: char -> string)
    requires FixesBase32(upper) && IsBase32(s)
    ensures Clean(s, upper) == s
  {
    MapCharsFixed(s, upper);
    ReplaceAbsent(s, '0', 'O');
    ReplaceAbsent(s, '1', 'I');
    ReplaceAbsent(s, '8', 'B');
    ReplaceAbsent(s, '9', 'G');
    MapCharsFixed(s, c => if InAlphabet(c) then [c] else "");
  }

  lemma CleanDash(upper: char -> string)
    requires FixesBase32(upper)
    ensures Clean("-", upper) == ""
  {
    assert MapChars("-", upper) == "-" by { assert "-"[1..] == ""; }
    ReplaceAbsent("-", '0', 'O');
    ReplaceAbsent("-", '1', 'I');
    ReplaceAbsent("-", '8', 'B');
    ReplaceAbsent("-", '9', 'G');
    assert "-"[1..] == "";
  }

  // ---------- Formatting ----------

  /** Consecutive groups of five characters. */
  function Groups(s: string): seq<string> {
    if s == "" then []
    else if |s| <= 5 then [s]
    else [s[..5]] + Groups(s[5..])
  }

  function DropPrefix(s: string, i: nat): string {
    if i <= |s| then s[i..] else ""
  }

  lemma GroupsStep(s: string, i: nat)
    requires i < |s|
    ensures Groups(s[i..]) == [s[i..if i + 5 <= |s| then i + 5 else |s|]] + Groups(DropPrefix(s, i + 5))
  {
    var rest := s[i..];
    if |rest| > 5 {
      assert rest[..5] == s[i..i + 5] && rest[5..] == s[i + 5..];
    } else {
      assert rest == s[i..if i + 5 <= |s| then i + 5 else |s|];
      assert DropPrefix(s, i + 5) == "";
      assert [rest] + Groups("") == [rest];
    }
  }

  method FormatSecretKeyForBackup(bytes: seq<byte>) returns (text: string)
    ensures text == Join(Groups(Encode(bytes)), "-")
  {
    var base32 := BytesToBase32(bytes);
    var groups: seq<string> := [];
    var i := 0;
    while i < |base32|
      invariant 0 <= i
      invariant Groups(base32) == groups + Groups(DropPrefix(base32, i))
    {
      var end := if i + 5 <= |base32| then i + 5 else |base32|;
      GroupsStep(base32, i);
      groups := groups + [base32[i..end]];
      i := i + 5;
    }
    assert groups + Groups("") == groups;
    return Join(groups, "-");
  }

  lemma {:induction false} CleanGroups(s: string, upper: char -> string)
    requires FixesBase32(upper) && IsBase32(s)
    ensures Clean(Join(Groups(s), "-"), upper) == s
  {
    if |s| <= 5 {
      CleanBase32(s, upper);
    } else {
      var rest := Join(Groups(s[5..]), "-");
      assert Groups(s)[1..] == Groups(s[5..]);
      CleanGroups(s[5..], upper);
      CleanConcat(s[..5], "-" + rest, upper);
      CleanConcat("-", rest, upper);
      CleanDash(upper);
      CleanBase32(s[..5], upper);
    }
  }

  // ---------- Parsing ----------

  datatype ParseError = NoValidCharacters | InvalidKeyLength(got: nat) | InvalidFormat

  method Base32ToBytes(text: string, upper: char -> string) returns (r: Result<seq<byte>, DecodeError>)
    ensures r == if Clean(text, upper) == "" then Err(DecodeError.NoValidCharacters) else Ok(Decode(Clean(text, upper)))
  {
    r := CleanedToBytes(Clean(text, upper));
  }

  /** parseBackupSecretKey up to its final base64url encoding. */
  method ParseBackupSecretKey(text: string, upper: char -> string) returns (r: Result<seq<byte>, ParseError>)
    ensures r == Parse(text, upper)
  {
    var decoded := Base32ToBytes(text, upper);
    match decoded
    case Err(NoValidCharacters) => return Err(ParseError.NoValidCharacters);
    case Err(InvalidCharacter) => return Err(InvalidFormat);
    case Ok(bytes) =>
      DecodeLength(Clean(text, upper));
      if |bytes| != KEY_BYTES {
        return Err(InvalidKeyLength(|bytes|));
      }
      return Ok(bytes);
  }

  /** Parsing by the length of the cleaned text alone: 52 characters make a key. */
  function Parse(text: string, upper: char -> string): Result<seq<byte>, ParseError> {
    var cleaned := Clean(text, upper);
    if cleaned == "" then Err(ParseError.NoValidCharacters)
    else if |cleaned| != 52 then Err(InvalidKeyLength(5 * |cleaned| / 8))
    else Ok(Decode(cleaned))
  }

  // ---------- Main results ----------

  /** Any non-empty byte sequence survives base32, grouping with dashes, cleaning and decoding. */
  lemma FormattedBytesDecode(bytes: seq<byte>, upper: char -> string)
    requires FixesBase32(upper) && bytes != []
    ensures var text := Join(Groups(Encode(bytes)), "-");
            && Clean(text, upper) == Encode(bytes) != ""
            && Decode(Clean(text, upper)) == bytes
  {
    DecodeEncode(bytes);
    CleanGroups(Encode(bytes), upper);
  }

  /** The backup of a 32-byte key parses back to that key. */
  lemma BackupRoundTrip(key: seq<byte>, upper: char -> string)
    requires FixesBase32(upper) && |key| == KEY_BYTES
    ensures Parse(Join(Groups(Encode(key)), "-"), upper) == Ok(key)
  {
    FormattedBytesDecode(key, upper);
    DecodeEncode(key);
  }

  /** Two accepted texts give the same key exactly when 51 characters and the top bit of the last agree. */
  lemma SameKey(text: string, text': string, upper: char -> string)
    requires Parse(text, upper).Ok? && Parse(text', upper).Ok?
    ensures Parse(text, upper) == Parse(text', upper) <==>
            var c, c' := Clean(text, upper), Clean(text', upper);
            && c[..51] == c'[..51]
            && (ValueOf(c[51]) >= 16 <==> ValueOf(c'[51]) >= 16)
  {
    SameBytes(Clean(text, upper), Clean(text', upper));
  }

  /** Two texts of 52 characters decode alike exactly when 51 characters and one bit agree. */
  lemma SameBytes(c: string, c': string)
    requires IsBase32(c) && IsBase32(c') && |c| == |c'| == 52
    ensures Decode(c) == Decode(c') <==> c[..51] == c'[..51] && (ValueOf(c[51]) >= 16 <==> ValueOf(c'[51]) >= 16)
  {
    var v, v' := Values(c), Values(c');
    SpreadLength(v, 5);
    SpreadLength(v', 5);
    SameGroups(Spread(v, 5), Spread(v', 5), 8, 256);
    SameFirstBits(v, v');
    SameValues(c[..51], c'[..51]);
    assert v[..51] == Values(c[..51]) && v'[..51] == Values(c'[..51]);
  }

  /** The first 256 of 260 bits: 51 values and the top bit of the last one. */
  lemma SameFirstBits(v: seq<nat>, v': seq<nat>)
    requires |v| == |v'| == 52 && Fits(v, 5) && Fits(v', 5)
    requires |Spread(v, 5)| == |Spread(v', 5)| == 260
    ensures Spread(v, 5)[..256] == Spread(v', 5)[..256] <==> v[..51] == v'[..51] && (v[51] >= 16 <==> v'[51] >= 16)
  {
    FirstBits(v);
    FirstBits(v');
    SpreadLength(v[..51], 5);
    SpreadLength(v'[..51], 5);
    SnocEqual(Spread(v[..51], 5), Spread(v'[..51], 5), v[51] / 16, v'[51] / 16);
    SameSpread(v[..51], v'[..51]);
  }

  lemma SnocEqual(p: seq<bit>, p': seq<bit>, x: bit, x': bit)
    requires |p| == |p'|
    ensures p + [x] == p' + [x'] <==> p == p' && x == x'
  {
    assert (p + [x])[..|p|] == p && (p' + [x'])[..|p|] == p';
    assert (p + [x])[|p|] == x && (p' + [x'])[|p|] == x';
  }

  /** The first 256 bits of 52 characters: 51 characters and one bit. */
  lemma FirstBits(v: seq<nat>)
    requires |v| == 52 && Fits(v, 5)
    ensures |Spread(v, 5)| == 260 && v[51] / 16 < 2
    ensures Spread(v, 5)[..256] == Spread(v[..51], 5) + [v[51] / 16]
  {
    SpreadLength(v, 5);
    SpreadLength(v[..51], 5);
    assert v == v[..51] + [v[51]];
    SpreadSnoc(v[..51], v[51], 5);
    Pow2Of5();
    TopBit(v[51]);
  }

  lemma TopBit(x: nat)
    requires x < 32
    ensures x / 16 < 2 && ToBits(x, 5)[..1] == [x / 16]
  {
    var a4, a3, a2 := ToBits(x / 2, 4), ToBits(x / 2 / 2, 3), ToBits(x / 2 / 2 / 2, 2);
    assert ToBits(x, 5)[..1] == a4[..1];
    assert a4[..1] == a3[..1];
    assert a3[..1] == a2[..1];
    assert a2[..1] == ToBits(x / 2 / 2 / 2 / 2, 1)[..1];
  }

  lemma SameSpread(v: seq<nat>, v': seq<nat>)
    requires Fits(v, 5) && Fits(v', 5)
    ensures Spread(v, 5) == Spread(v', 5) <==> v == v'
  {
    GroupSpread(v, 5, []);
    GroupSpread(v', 5, []);
    assert Spread(v, 5) + [] == Spread(v, 5) && Spread(v', 5) + [] == Spread(v', 5);
  }

  lemma SameValues(s: string, s': string)
    requires IsBase32(s) && IsBase32(s') && |s| == |s'|
    ensures Values(s) == Values(s') <==> s == s'
  {
    if Values(s) == Values(s') {
      forall i | 0 <= i < |s| ensures s[i] == s'[i] {
        assert Values(s)[i] == Values(s')[i];
        SymbolOfValue(s[i]);
        SymbolOfValue(s'[i]);
      }
    }
  }

  // ---------- Mistyped characters ----------

  /** Upper-casing leaves the digits that are mistaken for letters alone. */
  ghost predicate FixesDigits(upper: char -> string) {
    upper('0') == "0" && upper('1') == "1" && upper('8') == "8" && upper('9') == "9"
  }

  lemma CleanOne(c: char, upper: char -> string)
    requires FixesBase32(upper) && FixesDigits(upper)
    ensures Clean("0", upper) == "O" && Clean("1", upper) == "I" && Clean("8", upper) == "B" && Clean("9", upper) == "G"
    ensures InAlphabet(c) ==> Clean([c], upper) == [c]
  {
    CleanDigit('0', 'O', upper);
    CleanDigit('1', 'I', upper);
    CleanDigit('8', 'B', upper);
    CleanDigit('9', 'G', upper);
    if InAlphabet(c) {
      CleanBase32([c], upper);
    }
  }

  lemma MapOne(c: char, f: char -> string)
    ensures MapChars([c], f) == f(c)
  {
    assert [c][1..] == "" && f(c) + "" == f(c);
  }

  lemma CleanDigit(c: char, meant: char, upper: char -> string)
    requires upper(c) == [c] && InAlphabet(meant)
    requires (c, meant) == ('0', 'O') || (c, meant) == ('1', 'I') || (c, meant) == ('8', 'B') || (c, meant) == ('9', 'G')
    ensures Clean([c], upper) == [meant]
  {
    MapOne(c, upper);
    ReplaceOne(c, '0', 'O');
    var a := if c == '0' then 'O' else c;
    ReplaceOne(a, '1', 'I');
    var b := if a == '1' then 'I' else a;
    ReplaceOne(b, '8', 'B');
    var d := if b == '8' then 'B' else b;
    ReplaceOne(d, '9', 'G');
    MapOne(meant, x => if InAlphabet(x) then [x] else "");
  }

  lemma ReplaceOne(c: char, from: char, to: char)
    ensures Replace([c], from, to) == [if c == from then to else c]
  {
    MapOne(c, x => if x == from then [to] else [x]);
  }

  /** A part of a text may be typed in another way that cleans alike. */
  lemma CleanPart(before: string, part: string, part': string, after: string, upper: char -> string)
    requires Clean(part, upper) == Clean(part', upper)
    ensures Parse(before + (part + after), upper) == Parse(before + (part' + after), upper)
  {
    CleanConcat(before, part + after, upper);
    CleanConcat(part, after, upper);
    CleanConcat(before, part' + after, upper);
    CleanConcat(part', after, upper);
  }

  /**
   * Anywhere in a backup text a zero stands for the letter O, a one for I, an eight for B and a nine for G:
   * parsing gives the same result.
   */
  lemma MistypedDigits(before: string, after: string, upper: char -> string)
    requires FixesBase32(upper) && FixesDigits(upper)
    ensures Parse(before + ("0" + after), upper) == Parse(before + ("O" + after), upper)
    ensures Parse(before + ("1" + after), upper) == Parse(before + ("I" + after), upper)
    ensures Parse(before + ("8" + after), upper) == Parse(before + ("B" + after), upper)
    ensures Parse(before + ("9" + after), upper) == Parse(before + ("G" + after), upper)
  {
    CleanOne('O', upper);
    CleanOne('I', upper);
    CleanOne('B', upper);
    CleanOne('G', upper);
    CleanPart(before, "0", "O", after, upper);
    CleanPart(before, "1", "I", after, upper);
    CleanPart(before, "8", "B", after, upper);
    CleanPart(before, "9", "G", after, upper);
  }

  lemma IgnoredPart(before: string, part: string, after: string, upper: char -> string)
    requires Clean(part, upper) == ""
    ensures Parse(before + (part + after), upper) == Parse(before + after, upper)
  {
    CleanConcat(part, after, upper);
    CleanConcat(before, part + after, upper);
    CleanConcat(before, after, upper);
    assert "" + Clean(after, upper) == Clean(after, upper);
  }

  /** A dash may stand anywhere. */
  lemma DashIgnored(before: string, after: string, upper: char -> string)
    requires FixesBase32(upper)
    ensures Parse(before + ("-" + after), upper) == Parse(before + after, upper)
  {
    CleanDash(upper);
    IgnoredPart(before, "-", after, upper);
  }

  /** A character is read like its upper-case form, and one without a base32 form is ignored. */
  lemma OtherCharacters(before: string, c: char, after: string, upper: char -> string)
    requires FixesBase32(upper) && |upper(c)| == 1 && upper(c)[0] !in "0189"
    ensures InAlphabet(upper(c)[0]) ==> Parse(before + ([c] + after), upper) == Parse(before + (upper(c) + after), upper)
    ensures !InAlphabet(upper(c)[0]) ==> Parse(before + ([c] + after), upper) == Parse(before + after, upper)
  {
    var u := upper(c)[0];
    assert upper(c) == [u];
    CleanOther(c, u, upper);
    if InAlphabet(u) {
      CleanBase32([u], upper);
      CleanPart(before, [c], [u], after, upper);
    } else {
      IgnoredPart(before, [c], after, upper);
    }
  }

  lemma CleanOther(c: char, u: char, upper: char -> string)
    requires upper(c) == [u] && u != '0' && u != '1' && u != '8' && u != '9'
    ensures Clean([c], upper) == if InAlphabet(u) then [u] else ""
  {
    MapOne(c, upper);
    ReplaceOne(u, '0', 'O');
    ReplaceOne(u, '1', 'I');
    ReplaceOne(u, '8', 'B');
    ReplaceOne(u, '9', 'G');
    MapOne(u, x => if InAlphabet(x) then [x] else "");
  }

  /** What a text is refused for: nothing left after cleaning, or a length other than 52. */
  lemma ParseErrors(text: string, upper: char -> string)
    ensures Parse(text, upper) == Err(ParseError.NoValidCharacters) <==> |Clean(text, upper)| == 0
    ensures forall n :: Parse(text, upper) == Err(InvalidKeyLength(n)) <==>
                        |Clean(text, upper)| != 0 && |Clean(text, upper)| != 52 && n == 5 * |Clean(text, upper)| / 8
    ensures Parse(text, upper).Ok? <==> |Clean(text, upper)| == 52
  {
  }

  // ---------- The form of a backup ----------

  /** Groups of five characters, the last one of one to five. */
  lemma {:induction false} GroupsOfFive(s: string)
    ensures forall i :: 0 <= i < |Groups(s)| - 1 ==> |Groups(s)[i]| == 5
    ensures s != "" ==> Groups(s) != [] && 1 <= |Groups(s)[|Groups(s)| - 1]| <= 5
    ensures 5 * |Groups(s)| >= |s| > 5 * |Groups(s)| - 5
  {
    if |s| > 5 {
      GroupsOfFive(s[5..]);
    }
  }

  /** The backup of a 32-byte key has eleven groups. */
  lemma ElevenGroups(key: seq<byte>)
    requires |key| == 32
    ensures |Groups(Encode(key))| == 11
  {
    DecodeEncode(key);
    GroupsOfFive(Encode(key));
  }
}
