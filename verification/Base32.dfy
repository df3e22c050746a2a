/** RFC 4648 base32 without padding, as the secret key backup writes and reads it. */
module Base32 {
  import opened Wrappers
  import opened JsText
  import opened Bits
  import opened Int32

  type byte = b: nat | b < 256

  const ALPHABET := "ABCDEFGHIJKLMNOPQRSTUVWXYZ234567"

  predicate InAlphabet(c: char) {
    'A' <= c <= 'Z' || '2' <= c <= '7'
  }

  function SymbolOf(v: nat): (c: char)
    requires v < 32
  {
    ALPHABET[v]
  }

  function Symbols(vs: seq<nat>): (s: string)
    requires Fits(vs, 5)
    ensures |s| == |vs|
  {
    Pow2Values();
    seq(|vs|, i requires 0 <= i < |vs| => SymbolOf(vs[i]))
  }

  /** The number a base32 character stands for. */
  function ValueOf(c: char): (v: nat)
    requires InAlphabet(c)
    ensures v < 32
  {
    if c <= '7' then 26 + (c as int - '2' as int) else c as int - 'A' as int
  }

  predicate IsBase32(s: string) {
    forall i :: 0 <= i < |s| ==> InAlphabet(s[i])
  }

  function Values(s: string): (vs: seq<nat>)
    requires IsBase32(s)
    ensures |vs| == |s| && Fits(vs, 5)
  {
    Pow2Values();
    seq(|s|, i requires 0 <= i < |s| => ValueOf(s[i]))
  }

  lemma AlphabetOrder(v: nat)
    requires v < 32
    ensures InAlphabet(ALPHABET[v]) && ValueOf(ALPHABET[v]) == v
  {
  }

  lemma IndexOfValue(c: char)
    requires InAlphabet(c)
    ensures IndexOf(ALPHABET, [c], 0) == Some(ValueOf(c))
  {
    var v := ValueOf(c);
    SymbolOfValue(c);
    assert At(ALPHABET, [c], v);
    var r := IndexOf(ALPHABET, [c], 0);
    assert r.Some?;
    assert [c][0] == c && ALPHABET[r.value + 0] == [c][0];
    AlphabetOrder(r.value);
  }

  lemma SymbolOfValue(c: char)
    requires InAlphabet(c)
    ensures ALPHABET[ValueOf(c)] == c
  {
  }

  // ---------- The codec as regrouping of bits ----------

  lemma BytesFit(bytes: seq<byte>)
    ensures Fits(bytes, 8)
  {
    Pow2Values();
  }

  /** RFC 4648 section 6 without padding: the bit string, zero-filled to groups of five. */
  function Encode(bytes: seq<byte>): string {
    var groups := Group(Pad(Spread(bytes, 8), 5), 5);
    GroupLength(Pad(Spread(bytes, 8), 5), 5);
    Symbols(groups)
  }

  /** The complete bytes in the bit string of base32 characters. */
  function Decode(text: string): (bytes: seq<byte>)
    requires IsBase32(text)
  {
    var bytes := Group(Spread(Values(text), 5), 8);
    GroupLength(Spread(Values(text), 5), 8);
    Pow2Values();
    bytes
  }

  lemma ValuesOfSymbols(vs: seq<nat>)
    requires Fits(vs, 5)
    ensures IsBase32(Symbols(vs)) && Values(Symbols(vs)) == vs
  {
    Pow2Values();
    var s := Symbols(vs);
    forall i | 0 <= i < |vs| ensures InAlphabet(s[i]) && ValueOf(s[i]) == vs[i] {
      AlphabetOrder(vs[i]);
    }
  }

  lemma DecodeEncode(bytes: seq<byte>)
    ensures IsBase32(Encode(bytes)) && Decode(Encode(bytes)) == bytes
    ensures |Encode(bytes)| == (8 * |bytes| + 4) / 5
  {
    var p := Pad(Spread(bytes, 8), 5);
    SpreadLength(bytes, 8);
    GroupLength(p, 5);
    ValuesOfSymbols(Group(p, 5));
    BytesFit(bytes);
    Regroup(bytes, 8, 5);
    PadLength(Spread(bytes, 8), 5);
  }

  // ---------- The encoding loop ----------

  /** Shifting and masking the wrapped accumulator of all bits so far reads the wanted bits. */
  lemma PickMiddle(bits: seq<bit>, i: nat, j: nat)
    requires i <= j <= |bits| < i + 32
    ensures And(Sar(ToInt32(FromBits(bits)), |bits| - j), Pow2(j - i) - 1) == FromBits(bits[i..j])
  {
    PickInt32(FromBits(bits), |bits| - j, j - i);
    MiddleBits(bits, i, j);
  }

  lemma MiddleBits(bits: seq<bit>, i: nat, j: nat)
    requires i <= j <= |bits|
    ensures (FromBits(bits) / Pow2(|bits| - j)) % Pow2(j - i) == FromBits(bits[i..j])
  {
    var front := bits[..j];
    ShiftBitsAt(bits, j);
    MaskBitsAt(front, i);
    assert front[i..] == bits[i..j];
  }

  /** Emitting the value of the next bits adds them to the bits emitted. */
  lemma EmitBits(bits: seq<bit>, out: seq<nat>, i: nat, j: nat)
    requires i <= j <= |bits| && Spread(out, j - i) == bits[..i]
    ensures Spread(out + [FromBits(bits[i..j])], j - i) == bits[..j]
  {
    var w, next := j - i, bits[i..j];
    ToFromBits(next);
    SpreadSnoc(out, FromBits(next), w);
    SplitPrefix(bits, i, j);
  }

  lemma SplitPrefix(bits: seq<bit>, i: nat, j: nat)
    requires i <= j <= |bits|
    ensures bits[..j] == bits[..i] + bits[i..j]
  {
  }

  /** Pushing a value appends its bits to the accumulator. */
  lemma PushBits(bits: seq<bit>, v: nat, w: nat)
    requires 0 < w < 32 && v < Pow2(w)
    ensures Or(Shl(ToInt32(FromBits(bits)), w), v) == ToInt32(FromBits(bits + ToBits(v, w)))
  {
    FromBitsConcat(bits, ToBits(v, w));
    FromToBits(v, w);
    PushInt32(FromBits(bits), w, v, FromBits(bits + ToBits(v, w)));
  }

  /** The last character: what is left of the accumulator, filled with zero bits. */
  lemma PickLast(bits: seq<bit>, i: nat, z: nat, w: nat)
    requires i <= |bits| && |bits| + z == i + w && w < 32
    ensures And(Shl(ToInt32(FromBits(bits)), z), Pow2(w) - 1) == FromBits((bits + Zeros(z))[i..])
  {
    var all := bits + Zeros(z);
    PickFilled(bits, z, w, FromBits(all));
    LastBits(all, i, w);
  }

  lemma PickFilled(bits: seq<bit>, z: nat, w: nat, filled: nat)
    requires z < 32 && w < 32 && filled == FromBits(bits + Zeros(z))
    ensures And(Shl(ToInt32(FromBits(bits)), z), Pow2(w) - 1) == filled % Pow2(w)
  {
    FillZeros(bits, z);
    PickShifted(FromBits(bits), z, w, filled);
  }

  lemma LastBits(bits: seq<bit>, i: nat, w: nat)
    requires i <= |bits| == i + w
    ensures FromBits(bits) % Pow2(w) == FromBits(bits[i..])
  {
    MaskBitsAt(bits, i);
  }

  lemma FillZeros(bits: seq<bit>, z: nat)
    ensures FromBits(bits + Zeros(z)) == Pow2(z) * FromBits(bits)
  {
    FromBitsConcat(bits, Zeros(z));
    FromZeros(z);
  }

  lemma Pow2Of5()
    ensures Pow2(5) == 32
  {
    Pow2Values();
  }

  lemma SymbolsSnoc(vs: seq<nat>, v: nat)
    requires Fits(vs, 5) && v < 32
    ensures Fits(vs + [v], 5) && Symbols(vs + [v]) == Symbols(vs) + [SymbolOf(v)]
  {
    Pow2Values();
  }

  lemma EncodeFrom(bytes: seq<byte>, out: seq<nat>)
    requires Fits(out, 5) && Spread(out, 5) == Pad(Spread(bytes, 8), 5)
    ensures Encode(bytes) == Symbols(out)
  {
    GroupSpread(out, 5, []);
    assert Spread(out, 5) + [] == Spread(out, 5);
  }

  /** What the encoder knows: `out` are the characters emitted for `bits`, of which `pending` bits are left. */
  ghost predicate Encoding(bits: seq<bit>, out: seq<nat>, pending: nat) {
    && Fits(out, 5) && 5 * |out| + pending == |bits|
    && Spread(out, 5) == bits[..5 * |out|]
  }

  lemma EmitStep(bits: seq<bit>, out: seq<nat>, pending: nat) returns (v: nat)
    requires Encoding(bits, out, pending) && 5 <= pending < 13
    ensures v == And(Sar(ToInt32(FromBits(bits)), pending - 5), 0x1f) && v < 32
    ensures Encoding(bits, out + [v], pending - 5) && Symbols(out + [v]) == Symbols(out) + [ALPHABET[v]]
  {
    var i := 5 * |out|;
    Pow2Of5();
    PickMiddle(bits, i, i + 5);
    EmitBits(bits, out, i, i + 5);
    v := FromBits(bits[i..i + 5]);
    SymbolsSnoc(out, v);
  }

  lemma PushStep(bytes: seq<byte>, i: nat, out: seq<nat>, pending: nat) returns (bits: seq<bit>)
    requires i < |bytes| && Encoding(Spread(bytes[..i], 8), out, pending)
    ensures bits == Spread(bytes[..i + 1], 8) && Encoding(bits, out, pending + 8)
    ensures Or(Shl(ToInt32(FromBits(Spread(bytes[..i], 8))), 8), bytes[i]) == ToInt32(FromBits(bits))
  {
    var before := Spread(bytes[..i], 8);
    bits := before + ToBits(bytes[i], 8);
    Pow2Values();
    PushBits(before, bytes[i], 8);
    assert bytes[..i + 1] == bytes[..i] + [bytes[i]];
    SpreadSnoc(bytes[..i], bytes[i], 8);
    assert bits[..5 * |out|] == before[..5 * |out|];
  }

  lemma PadEncoding(bits: seq<bit>, out: seq<nat>, pending: nat)
    requires Encoding(bits, out, pending) && pending < 5
    ensures Pad(bits, 5) == if pending == 0 then Spread(out, 5) else bits + Zeros(5 - pending)
  {
    DivUnique(|bits|, 5, |out|, pending);
    if pending == 0 { assert bits == bits[..5 * |out|]; }
  }

  lemma LastGroup(all: seq<bit>, out: seq<nat>, i: nat)
    requires |all| == i + 5 && Spread(out, 5) == all[..i]
    ensures Spread(out + [FromBits(all[i..])], 5) == all
  {
    SpreadSnoc(out, FromBits(all[i..]), 5);
    ToFromBits(all[i..]);
  }

  lemma PrefixOfConcat(bits: seq<bit>, z: seq<bit>, i: nat)
    requires i <= |bits|
    ensures (bits + z)[..i] == bits[..i]
  {
  }

  lemma LastSymbol(bits: seq<bit>, out: seq<nat>, pending: nat) returns (v: nat)
    requires Encoding(bits, out, pending) && pending < 5
    ensures v < 32 && v == And(Shl(ToInt32(FromBits(bits)), 5 - pending), 0x1f)
    ensures Spread(out + [v], 5) == bits + Zeros(5 - pending)
  {
    var i, all := 5 * |out|, bits + Zeros(5 - pending);
    PickLast(bits, i, 5 - pending, 5);
    Pow2Of5();
    PrefixOfConcat(bits, Zeros(5 - pending), i);
    LastGroup(all, out, i);
    v := FromBits(all[i..]);
  }

  lemma FinishStep(bytes: seq<byte>, out: seq<nat>, pending: nat) returns (v: nat)
    requires Encoding(Spread(bytes, 8), out, pending) && pending < 5
    ensures v < 32
    ensures pending > 0 ==> v == And(Shl(ToInt32(FromBits(Spread(bytes, 8))), 5 - pending), 0x1f)
    ensures Encode(bytes) == if pending > 0 then Symbols(out) + [ALPHABET[v]] else Symbols(out)
  {
    var bits := Spread(bytes, 8);
    v := 0;
    PadEncoding(bits, out, pending);
    if pending > 0 {
      v := LastSymbol(bits, out, pending);
      SymbolsSnoc(out, v);
      EncodeFrom(bytes, out + [v]);
    } else {
      EncodeFrom(bytes, out);
    }
  }

  /** The loop's state after `i` bytes: the characters emitted so far, and the wrapped accumulator. */
  ghost predicate Encoded(bytes: seq<byte>, i: nat, out: seq<nat>, pending: nat, buffer: int)
    requires i <= |bytes|
  {
    var bits := Spread(bytes[..i], 8);
    Encoding(bits, out, pending) && buffer == ToInt32(FromBits(bits))
  }

  /** A byte pushed. */
  lemma EncodePush(bytes: seq<byte>, i: nat, out: seq<nat>, pending: nat, buffer: int)
    requires i < |bytes| && Encoded(bytes, i, out, pending, buffer)
    ensures Encoded(bytes, i + 1, out, pending + 8, Or(Shl(buffer, 8), bytes[i]))
  {
    var bits := PushStep(bytes, i, out, pending);
  }

  /** A character emitted. */
  lemma EncodePick(bytes: seq<byte>, i: nat, out: seq<nat>, pending: nat, buffer: int)
    requires i <= |bytes| && 5 <= pending < 13 && Encoded(bytes, i, out, pending, buffer)
    ensures var v := And(Sar(buffer, pending - 5), 0x1f);
            0 <= v < 32 && Encoded(bytes, i, out + [v], pending - 5, buffer)
            && Fits(out, 5) && Fits(out + [v], 5) && Symbols(out + [v]) == Symbols(out) + [ALPHABET[v]]
  {
    var v := EmitStep(Spread(bytes[..i], 8), out, pending);
  }

  /** The bits left over, filled with zeros. */
  lemma EncodeEnd(bytes: seq<byte>, out: seq<nat>, pending: nat, buffer: int)
    requires pending < 5 && Encoded(bytes, |bytes|, out, pending, buffer)
    ensures Fits(out, 5)
    ensures pending == 0 ==> Encode(bytes) == Symbols(out)
    ensures pending > 0 ==>
              var v := And(Shl(buffer, 5 - pending), 0x1f);
              0 <= v < 32 && Encode(bytes) == Symbols(out) + [ALPHABET[v]]
  {
    assert bytes[..|bytes|] == bytes;
    var v := FinishStep(bytes, out, pending);
  }

  method BytesToBase32(bytes: seq<byte>) returns (result: string)
    ensures result == Encode(bytes)
  {
    result := "";
    var buffer := 0;
    var bufferLength: nat := 0;
    ghost var out: seq<nat> := [];
    for i := 0 to |bytes|
      invariant bufferLength < 5 && Encoded(bytes, i, out, bufferLength, buffer)
      invariant result == Symbols(out)
    {
      EncodePush(bytes, i, out, bufferLength, buffer);
      buffer := Or(Shl(buffer, 8), bytes[i]);
      bufferLength := bufferLength + 8;
      while bufferLength >= 5
        invariant bufferLength < 13 && Encoded(bytes, i + 1, out, bufferLength, buffer)
        invariant result == Symbols(out)
      {
        EncodePick(bytes, i + 1, out, bufferLength, buffer);
        bufferLength := bufferLength - 5;
        result := result + [ALPHABET[And(Sar(buffer, bufferLength), 0x1f)]];
        out := out + [And(Sar(buffer, bufferLength), 0x1f)];
      }
    }
    EncodeEnd(bytes, out, bufferLength, buffer);
    if bufferLength > 0 {
      result := result + [ALPHABET[And(Shl(buffer, 5 - bufferLength), 0x1f)]];
    }
  }

  // ---------- The decoding loop ----------

  ghost predicate Decoding(bits: seq<bit>, bytes: seq<byte>, pending: nat) {
    && 8 * |bytes| + pending == |bits|
    && Spread(bytes, 8) == bits[..8 * |bytes|]
  }

  lemma Pow2Of8()
    ensures Pow2(8) == 256
  {
    Pow2Values();
  }

  lemma DecodeStep(bits: seq<bit>, bytes: seq<byte>, pending: nat) returns (v: byte)
    requires Decoding(bits, bytes, pending) && 8 <= pending < 16
    ensures v == And(Sar(ToInt32(FromBits(bits)), pending - 8), 0xff)
    ensures Decoding(bits, bytes + [v], pending - 8)
  {
    var i := 8 * |bytes|;
    Pow2Of8();
    PickMiddle(bits, i, i + 8);
    EmitBits(bits, bytes, i, i + 8);
    v := FromBits(bits[i..i + 8]);
  }

  lemma PushSymbol(text: string, i: nat, bytes: seq<byte>, pending: nat) returns (bits: seq<bit>)
    requires IsBase32(text) && i < |text| && Decoding(Spread(Values(text[..i]), 5), bytes, pending)
    ensures bits == Spread(Values(text[..i + 1]), 5) && Decoding(bits, bytes, pending + 5)
    ensures Or(Shl(ToInt32(FromBits(Spread(Values(text[..i]), 5))), 5), ValueOf(text[i])) == ToInt32(FromBits(bits))
  {
    var before, v := Spread(Values(text[..i]), 5), ValueOf(text[i]);
    bits := before + ToBits(v, 5);
    Pow2Of5();
    PushBits(before, v, 5);
    assert Values(text[..i + 1]) == Values(text[..i]) + [v];
    SpreadSnoc(Values(text[..i]), v, 5);
    PrefixOfConcat(before, ToBits(v, 5), 8 * |bytes|);
  }

  lemma DecodeFinish(text: string, n: nat, bytes: seq<byte>, pending: nat)
    requires IsBase32(text) && n == |text| && Decoding(Spread(Values(text[..n]), 5), bytes, pending) && pending < 8
    ensures Decode(text) == bytes
  {
    assert text[..n] == text;
    var bits := Spread(Values(text), 5);
    BytesFit(bytes);
    GroupSpread(bytes, 8, bits[8 * |bytes|..]);
    assert bits == bits[..8 * |bytes|] + bits[8 * |bytes|..];
  }

  /** The loop's state after `i` characters: the bytes taken out so far, and the wrapped accumulator. */
  ghost predicate Decoded(text: string, i: nat, bytes: seq<byte>, pending: nat, buffer: int)
    requires IsBase32(text) && i <= |text|
  {
    var bits := Spread(Values(text[..i]), 5);
    Decoding(bits, bytes, pending) && buffer == ToInt32(FromBits(bits))
  }

  /** A character pushed. */
  lemma DecodePush(text: string, i: nat, bytes: seq<byte>, pending: nat, buffer: int)
    requires IsBase32(text) && i < |text| && Decoded(text, i, bytes, pending, buffer)
    ensures Decoded(text, i + 1, bytes, pending + 5, Or(Shl(buffer, 5), ValueOf(text[i])))
  {
    var bits := PushSymbol(text, i, bytes, pending);
  }

  /** A byte taken out. */
  lemma DecodePick(text: string, i: nat, bytes: seq<byte>, pending: nat, buffer: int)
    requires IsBase32(text) && i <= |text| && 8 <= pending < 16 && Decoded(text, i, bytes, pending, buffer)
    ensures var v := And(Sar(buffer, pending - 8), 0xff);
            0 <= v < 256 && Decoded(text, i, bytes + [v], pending - 8, buffer)
  {
    var v := DecodeStep(Spread(Values(text[..i]), 5), bytes, pending);
  }

  lemma DecodeEnd(text: string, bytes: seq<byte>, pending: nat, buffer: int)
    requires IsBase32(text) && pending < 8 && Decoded(text, |text|, bytes, pending, buffer)
    ensures Decode(text) == bytes
  {
    DecodeFinish(text, |text|, bytes, pending);
  }

  datatype DecodeError = NoValidCharacters | InvalidCharacter

  method IndexInAlphabet(c: char) returns (value: Option<nat>)
    requires InAlphabet(c)
    ensures value == Some(ValueOf(c))
  {
    IndexOfValue(c);
    value := IndexOf(ALPHABET, [c], 0);
  }

  /** The loop of base32ToBytes, on text that has already been cleaned. */
  method CleanedToBytes(cleaned: string) returns (r: Result<seq<byte>, DecodeError>)
    requires IsBase32(cleaned)
    ensures r == if cleaned == "" then Err(NoValidCharacters) else Ok(Decode(cleaned))
  {
    if |cleaned| == 0 {
      return Err(NoValidCharacters);
    }
    var bytes: seq<byte> := [];
    var buffer := 0;
    var bufferLength: nat := 0;
    for i := 0 to |cleaned|
      invariant bufferLength < 8 && Decoded(cleaned, i, bytes, bufferLength, buffer)
    {
      var value := IndexInAlphabet(cleaned[i]);
      if value.None? {
        return Err(InvalidCharacter);
      }
      DecodePush(cleaned, i, bytes, bufferLength, buffer);
      buffer := Or(Shl(buffer, 5), value.value);
      bufferLength := bufferLength + 5;
      if bufferLength >= 8 {
        DecodePick(cleaned, i + 1, bytes, bufferLength, buffer);
        bufferLength := bufferLength - 8;
        var taken: byte := And(Sar(buffer, bufferLength), 0xff);
        bytes := bytes + [taken];
      }
    }
    DecodeEnd(cleaned, bytes, bufferLength, buffer);
    return Ok(bytes);
  }

  // ---------- What a text of a given length decodes to ----------

  lemma DecodeLength(text: string)
    requires IsBase32(text)
    ensures |Decode(text)| == 5 * |text| / 8
  {
    SpreadLength(Values(text), 5);
    GroupLength(Spread(Values(text), 5), 8);
  }

  // ---------- Base32 as digits ----------

  /** The bytes as one number, most significant byte first. */
  function BigEndian(bytes: seq<byte>): nat {
    if bytes == [] then 0 else 256 * BigEndian(bytes[..|bytes| - 1]) + bytes[|bytes| - 1]
  }

  lemma {:induction false} BigEndianBits(bytes: seq<byte>)
    ensures FromBits(Spread(bytes, 8)) == BigEndian(bytes)
  {
    if bytes != [] {
      var n := |bytes| - 1;
      BigEndianBits(bytes[..n]);
      assert bytes == bytes[..n] + [bytes[n]];
      SpreadSnoc(bytes[..n], bytes[n], 8);
      Pow2Of8();
      FromToBits(bytes[n], 8);
      FromBitsConcat(Spread(bytes[..n], 8), ToBits(bytes[n], 8));
    }
  }

  /** Group `k` of `w` elements starts at `i`. */
  predicate Starts(k: nat, w: nat, i: nat) {
    if k == 0 then i == 0 else w <= i && Starts(k - 1, w, i - w)
  }

  lemma {:induction false} StartsAt(k: nat, w: nat, i: nat)
    requires i == k * w
    ensures Starts(k, w, i)
  {
    if k > 0 {
      assert i == (k - 1) * w + w;
      StartsAt(k - 1, w, (k - 1) * w);
    }
  }

  lemma {:induction false} GroupAt(s: seq<bit>, w: nat, k: nat, i: nat)
    requires w > 0 && Starts(k, w, i) && i + w <= |s|
    ensures k < |Group(s, w)| && Group(s, w)[k] == FromBits(s[i..i + w])
  {
    if k == 0 {
      assert s[0..w] == s[..w];
    } else {
      var rest := s[w..];
      GroupAt(rest, w, k - 1, i - w);
      DropThenTake(s, rest, w, i, i + w);
      GroupCons(s[..w], rest, w);
      TakeAndDrop(s, w);
    }
  }

  lemma DropThenTake(s: seq<bit>, rest: seq<bit>, w: nat, i: nat, j: nat)
    requires w <= i <= j <= |s| && rest == s[w..]
    ensures rest[i - w..j - w] == s[i..j]
  {
  }

  lemma TakeAndDrop(s: seq<bit>, w: nat)
    requires w <= |s|
    ensures s[..w] + s[w..] == s
  {
  }

  /** The number that the padded bits spell. */
  lemma PaddedNumber(bytes: seq<byte>, u: nat, all: seq<bit>) returns (z: nat)
    requires u > 0 && all == Pad(Spread(bytes, 8), u)
    ensures |all| == 8 * |bytes| + z && FromBits(all) == Pow2(z) * BigEndian(bytes)
  {
    var bits := Spread(bytes, 8);
    z := (u - |bits| % u) % u;
    SpreadLength(bytes, 8);
    FillZeros(bits, z);
    BigEndianBits(bytes);
  }

  /** Group `k`: a digit of that number. */
  lemma DigitAt(all: seq<bit>, u: nat, k: nat, i: nat)
    requires u > 0 && i == k * u && i + u <= |all|
    ensures k < |Group(all, u)| && Group(all, u)[k] == FromBits(all) / Pow2(|all| - (i + u)) % Pow2(u)
  {
    StartsAt(k, u, i);
    GroupAt(all, u, k, i);
    MiddleBits(all, i, i + u);
  }

  /**
   * The characters of the text are the base-32 digits, in the alphabet of RFC 4648 section 6, of the
   * bytes read as one number with zero bits appended up to a multiple of five.
   */
  lemma EncodeDigits(bytes: seq<byte>, k: nat)
    requires k < |Encode(bytes)|
    ensures 5 * |Encode(bytes)| >= 8 * |bytes|
    ensures var m := |Encode(bytes)|;
            Encode(bytes)[k] == "ABCDEFGHIJKLMNOPQRSTUVWXYZ234567"
                                [(Pow2(5 * m - 8 * |bytes|) * BigEndian(bytes)) / Pow2(5 * (m - 1 - k)) % 32]
  {
    var all := Pad(Spread(bytes, 8), 5);
    PadLength(Spread(bytes, 8), 5);
    GroupLength(all, 5);
    Exact(|all|, 5);
    Pow2Of5();
    assert |all| - (5 * k + 5) == 5 * (|Encode(bytes)| - 1 - k);
    DigitAt(all, 5, k, 5 * k);
    var z := PaddedNumber(bytes, 5, all);
  }
}
