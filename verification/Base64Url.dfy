/** Unpadded base64url on top of the platform's base64 (RFC 4648 sections 4, 5 and 3.2). */
module Base64Url {
  import opened Wrappers
  import opened JsText
  import opened Bits
  import opened Int32
  import opened Base32

  // ---------- The platform's base64, RFC 4648 section 4 ----------

  function Symbol64(v: nat): char
    requires v < 64
  {
    if v < 26 then 'A' + v as char
    else if v < 52 then 'a' + (v - 26) as char
    else if v < 62 then '0' + (v - 52) as char
    else if v == 62 then '+'
    else '/'
  }

  predicate InAlphabet64(c: char) {
    'A' <= c <= 'Z' || 'a' <= c <= 'z' || '0' <= c <= '9' || c == '+' || c == '/'
  }

  function Value64(c: char): (v: nat)
    requires InAlphabet64(c)
    ensures v < 64
  {
    if 'A' <= c <= 'Z' then c as int - 'A' as int
    else if 'a' <= c <= 'z' then 26 + (c as int - 'a' as int)
    else if '0' <= c <= '9' then 52 + (c as int - '0' as int)
    else if c == '+' then 62
    else 63
  }

  predicate IsBase64(s: string) {
    forall i :: 0 <= i < |s| ==> InAlphabet64(s[i])
  }

  function Symbols64(vs: seq<nat>): (s: string)
    requires Fits(vs, 6)
    ensures |s| == |vs|
  {
    Pow2Values();
    seq(|vs|, i requires 0 <= i < |vs| => Symbol64(vs[i]))
  }

  function Values64(s: string): (vs: seq<nat>)
    requires IsBase64(s)
  {
    seq(|s|, i requires 0 <= i < |s| => Value64(s[i]))
  }

  function Padding(n: nat): string {
    seq((4 - n % 4) % 4, _ => '=')
  }

  /** The base64 characters of the bytes, without padding. */
  function Body64(bytes: seq<byte>): string {
    GroupLength(Pad(Spread(bytes, 8), 6), 6);
    Symbols64(Group(Pad(Spread(bytes, 8), 6), 6))
  }

  /** `Buffer.from(bytes).toString('base64')`. */
  function ToBase64(bytes: seq<byte>): string {
    Body64(bytes) + Padding(|Body64(bytes)|)
  }

  function StripPadding(s: string): string {
    if s != "" && s[|s| - 1] == '=' then StripPadding(s[..|s| - 1]) else s
  }

  /** `Buffer.from(text, 'base64')` on well-formed base64; None for any other text. */
  function FromBase64(text: string): Option<seq<byte>> {
    var body := StripPadding(text);
    if |text| % 4 == 0 && IsBase64(body) && text == body + Padding(|body|) then
      var bytes := Group(Spread(Values64(body), 6), 8);
      GroupLength(Spread(Values64(body), 6), 8);
      Pow2Values();
      Some(bytes)
    else
      None
  }

  // ---------- The URL-safe form ----------

  /** `replaceAll` of one character by a string. */
  function ReplaceAll(s: string, from: char, to: string): string {
    MapChars(s, c => if c == from then to else [c])
  }

  function EncodeBase64Url(bytes: seq<byte>): string {
    ReplaceAll(ReplaceAll(ReplaceAll(ToBase64(bytes), '+', "-"), '/', "_"), '=', "")
  }

  /** The base64 text that decodeBase64Url hands to the platform. */
  function RestoreBase64(text: string): string {
    ReplaceAll(ReplaceAll(text, '-', "+"), '_', "/") + Padding(|text|)
  }

  function DecodeBase64Url(text: string): Option<seq<byte>> {
    FromBase64(RestoreBase64(text))
  }

  // ---------- Proofs ----------

  lemma Symbol64Value(v: nat)
    requires v < 64
    ensures InAlphabet64(Symbol64(v)) && Value64(Symbol64(v)) == v
  {
  }

  lemma Values64OfSymbols(vs: seq<nat>)
    requires Fits(vs, 6)
    ensures IsBase64(Symbols64(vs)) && Values64(Symbols64(vs)) == vs
  {
    Pow2Values();
    var s := Symbols64(vs);
    forall i | 0 <= i < |vs| ensures InAlphabet64(s[i]) && Value64(s[i]) == vs[i] {
      Symbol64Value(vs[i]);
    }
  }

  lemma {:induction false} StripPaddingOf(body: string, pad: string)
    requires IsBase64(body) && forall i :: 0 <= i < |pad| ==> pad[i] == '='
    ensures StripPadding(body + pad) == body
  {
    if pad == "" {
      assert body + pad == body;
      if body != "" { assert InAlphabet64(body[|body| - 1]); }
    } else {
      assert (body + pad)[..|body + pad| - 1] == body + pad[..|pad| - 1];
      StripPaddingOf(body, pad[..|pad| - 1]);
    }
  }

  /** The URL-safe spelling of one base64 character, and back. */
  function UrlChar(c: char): char {
    if c == '+' then '-' else if c == '/' then '_' else c
  }

  predicate UrlSafe(s: string) {
    forall i :: 0 <= i < |s| ==> s[i] != '+' && s[i] != '/' && s[i] != '='
  }

  lemma {:induction false} MapCharsGone(s: string, f: char -> string)
    requires forall i :: 0 <= i < |s| ==> f(s[i]) == ""
    ensures MapChars(s, f) == ""
  {
    if s != "" { MapCharsGone(s[1..], f); }
  }

  lemma {:induction false} EncodeBody(body: string)
    requires IsBase64(body)
    ensures var url := ReplaceAll(ReplaceAll(ReplaceAll(body, '+', "-"), '/', "_"), '=', "");
            && |url| == |body| && UrlSafe(url)
            && ReplaceAll(ReplaceAll(url, '-', "+"), '_', "/") == body
  {
    if body != "" {
      var c := body[0];
      EncodeBody(body[1..]);
      assert InAlphabet64(c);
      var d := UrlChar(c);
      ReplaceCons(c, body[1..], '+', "-");
      var b1 := ReplaceAll(body[1..], '+', "-");
      var c1 := if c == '+' then '-' else c;
      ReplaceCons(c1, b1, '/', "_");
      var b2 := ReplaceAll(b1, '/', "_");
      ReplaceCons(d, b2, '=', "");
      var b3 := ReplaceAll(b2, '=', "");
      ReplaceCons(d, b3, '-', "+");
      ReplaceCons(if d == '-' then '+' else d, ReplaceAll(b3, '-', "+"), '_', "/");
      assert body == [c] + body[1..];
    }
  }

  lemma ReplaceCons(c: char, s: string, from: char, to: string)
    ensures ReplaceAll([c] + s, from, to) == (if c == from then to else [c]) + ReplaceAll(s, from, to)
  {
    assert ([c] + s)[1..] == s;
  }

  lemma ReplaceAllConcat(a: string, b: string, from: char, to: string)
    ensures ReplaceAll(a + b, from, to) == ReplaceAll(a, from, to) + ReplaceAll(b, from, to)
  {
    MapCharsConcat(a, b, c => if c == from then to else [c]);
  }

  lemma ReplacePadding(pad: string)
    requires forall i :: 0 <= i < |pad| ==> pad[i] == '='
    ensures ReplaceAll(ReplaceAll(ReplaceAll(pad, '+', "-"), '/', "_"), '=', "") == ""
  {
    MapCharsFixed(pad, c => if c == '+' then "-" else [c]);
    MapCharsFixed(pad, c => if c == '/' then "_" else [c]);
    MapCharsGone(pad, c => if c == '=' then "" else [c]);
  }

  /** Encoding is the base64 body in the URL-safe alphabet: the padding is gone. */
  lemma EncodeIsBody(bytes: seq<byte>)
    ensures var body := Body64(bytes);
            EncodeBase64Url(bytes) == ReplaceAll(ReplaceAll(ReplaceAll(body, '+', "-"), '/', "_"), '=', "")
  {
    var body, pad := Body64(bytes), Padding(|Body64(bytes)|);
    ReplaceAllConcat(body, pad, '+', "-");
    var b1, p1 := ReplaceAll(body, '+', "-"), ReplaceAll(pad, '+', "-");
    ReplaceAllConcat(b1, p1, '/', "_");
    var b2, p2 := ReplaceAll(b1, '/', "_"), ReplaceAll(p1, '/', "_");
    ReplaceAllConcat(b2, p2, '=', "");
    ReplacePadding(pad);
    assert ReplaceAll(b2, '=', "") + "" == ReplaceAll(b2, '=', "");
  }

  lemma BodyIsBase64(bytes: seq<byte>)
    ensures IsBase64(Body64(bytes))
    ensures Group(Spread(Values64(Body64(bytes)), 6), 8) == bytes
  {
    var groups := Group(Pad(Spread(bytes, 8), 6), 6);
    GroupLength(Pad(Spread(bytes, 8), 6), 6);
    Values64OfSymbols(groups);
    BytesFit(bytes);
    Regroup(bytes, 8, 6);
  }

  /** The encoded text has no character that needs escaping in a URL. */
  lemma EncodedIsUrlSafe(bytes: seq<byte>)
    ensures '+' !in EncodeBase64Url(bytes) && '/' !in EncodeBase64Url(bytes) && '=' !in EncodeBase64Url(bytes)
  {
    EncodeIsBody(bytes);
    BodyIsBase64(bytes);
    EncodeBody(Body64(bytes));
  }

  /** Decoding restores the very base64 text, padding included, that encoding started from. */
  lemma RestoreEncoded(bytes: seq<byte>)
    ensures RestoreBase64(EncodeBase64Url(bytes)) == ToBase64(bytes)
  {
    EncodeIsBody(bytes);
    BodyIsBase64(bytes);
    EncodeBody(Body64(bytes));
  }

  /** The padding by the length modulo four; base64 itself never needs three characters. */
  lemma PaddedLength(n: nat)
    ensures Padding(n) == if n % 4 == 0 then "" else if n % 4 == 1 then "===" else if n % 4 == 2 then "==" else "="
    ensures (n + |Padding(n)|) % 4 == 0
  {
  }

  lemma FromToBase64(bytes: seq<byte>)
    ensures FromBase64(ToBase64(bytes)) == Some(bytes)
  {
    var body := Body64(bytes);
    BodyIsBase64(bytes);
    StripPaddingOf(body, Padding(|body|));
    PaddedLength(|body|);
  }

  /** Every byte sequence survives the round trip. */
  lemma DecodeEncodeUrl(bytes: seq<byte>)
    ensures DecodeBase64Url(EncodeBase64Url(bytes)) == Some(bytes)
  {
    RestoreEncoded(bytes);
    FromToBase64(bytes);
  }

  // ---------- Base64url as digits ----------

  lemma {:induction false} EncodeBodyAt(body: string, k: nat)
    requires IsBase64(body) && k < |body|
    ensures var url := ReplaceAll(ReplaceAll(ReplaceAll(body, '+', "-"), '/', "_"), '=', "");
            |url| == |body| && url[k] == UrlChar(body[k])
  {
    var c, rest := body[0], body[1..];
    EncodeBody(rest);
    assert InAlphabet64(c) && body == [c] + rest;
    ReplaceCons(c, rest, '+', "-");
    ReplaceCons(if c == '+' then '-' else c, ReplaceAll(rest, '+', "-"), '/', "_");
    ReplaceCons(UrlChar(c), ReplaceAll(ReplaceAll(rest, '+', "-"), '/', "_"), '=', "");
    if k > 0 {
      EncodeBodyAt(rest, k - 1);
    }
  }

  const URL_ALPHABET := ("ABCDEFGHIJKLMNOPQRSTUVWXYZ" + "abcdefghijklmnopqrstuvwxyz") + "0123456789-_"

  lemma UrlAlphabet(v: nat)
    requires v < 64
    ensures InAlphabet64(Symbol64(v)) && UrlChar(Symbol64(v)) == URL_ALPHABET[v]
  {
  }

  /**
   * The characters of the text are the base-64 digits, in the URL-safe alphabet of RFC 4648 section 5, of
   * the bytes read as one number with zero bits appended up to a multiple of six.
   */
  lemma EncodeUrlDigits(bytes: seq<byte>, k: nat)
    requires k < |EncodeBase64Url(bytes)|
    ensures 6 * |EncodeBase64Url(bytes)| >= 8 * |bytes| > 6 * |EncodeBase64Url(bytes)| - 6
    ensures var m := |EncodeBase64Url(bytes)|;
            EncodeBase64Url(bytes)[k] ==
            URL_ALPHABET[(Pow2(6 * m - 8 * |bytes|) * BigEndian(bytes)) / Pow2(6 * (m - 1 - k)) % 64]
  {
    BodySpelled(bytes, k);
    var v := BodyDigit(bytes, k);
    UrlAlphabet(v);
  }

  lemma BodySpelled(bytes: seq<byte>, k: nat)
    requires k < |EncodeBase64Url(bytes)|
    ensures |EncodeBase64Url(bytes)| == |Body64(bytes)| && EncodeBase64Url(bytes)[k] == UrlChar(Body64(bytes)[k])
  {
    var body := Body64(bytes);
    EncodeIsBody(bytes);
    BodyIsBase64(bytes);
    EncodeBody(body);
    EncodeBodyAt(body, k);
  }

  lemma Pow2Of6()
    ensures Pow2(6) == 64
  {
    Pow2Values();
  }

  lemma BodyDigit(bytes: seq<byte>, k: nat) returns (v: nat)
    requires k < |Body64(bytes)|
    ensures 6 * |Body64(bytes)| >= 8 * |bytes| > 6 * |Body64(bytes)| - 6
    ensures var m := |Body64(bytes)|;
            v == (Pow2(6 * m - 8 * |bytes|) * BigEndian(bytes)) / Pow2(6 * (m - 1 - k)) % 64
    ensures v < 64 && Body64(bytes)[k] == Symbol64(v)
  {
    var all := Pad(Spread(bytes, 8), 6);
    BodySymbol(bytes, k, all);
    Pow2Of6();
    DigitAt(all, 6, k, 6 * k);
    var z := PaddedNumber(bytes, 6, all);
    v := Group(all, 6)[k];
  }

  lemma BodySymbol(bytes: seq<byte>, k: nat, all: seq<bit>)
    requires all == Pad(Spread(bytes, 8), 6) && k < |Body64(bytes)|
    ensures |all| == 6 * |Body64(bytes)| && 8 * |bytes| <= |all| < 8 * |bytes| + 6
    ensures k < |Group(all, 6)| && Group(all, 6)[k] < 64
    ensures Body64(bytes)[k] == Symbol64(Group(all, 6)[k])
  {
    SpreadLength(bytes, 8);
    PadLength(Spread(bytes, 8), 6);
    GroupLength(all, 6);
    Exact(|all|, 6);
    Pow2Of6();
  }
}
