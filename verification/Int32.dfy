/** JavaScript's bitwise operators: two's complement on 32 bits, written over unbounded integers. */
module Int32 {
  import opened Bits

  const TWO_32: int := 0x1_0000_0000
  const TWO_31: int := 0x8000_0000

  /** ECMAScript ToUint32 and ToInt32. */
  function ToUint32(x: int): (r: nat)
    ensures r < TWO_32
  {
    x % TWO_32
  }

  function ToInt32(x: int): int {
    var u := ToUint32(x);
    if u >= TWO_31 then u - TWO_32 else u
  }

  /** `x << n`. */
  function Shl(x: int, n: nat): int {
    ToInt32(ToInt32(x) * Pow2(n % 32))
  }

  /** `x >> n`, which keeps the sign: Dafny's `/` rounds towards minus infinity for a positive divisor. */
  function Sar(x: int, n: nat): int {
    ToInt32(x) / Pow2(n % 32)
  }

  /** Bitwise or and bitwise and of two `w`-bit words. */
  function OrWord(a: nat, b: nat, w: nat): nat {
    if w == 0 then 0
    else 2 * OrWord(a / 2, b / 2, w - 1) + (if a % 2 == 1 || b % 2 == 1 then 1 else 0)
  }

  function AndWord(a: nat, b: nat, w: nat): nat {
    if w == 0 then 0
    else 2 * AndWord(a / 2, b / 2, w - 1) + (if a % 2 == 1 && b % 2 == 1 then 1 else 0)
  }

  /** `a | b` and `a & b`. */
  function Or(a: int, b: int): int {
    ToInt32(OrWord(ToUint32(a), ToUint32(b), 32))
  }

  function And(a: int, b: int): int {
    ToInt32(AndWord(ToUint32(a), ToUint32(b), 32))
  }

  // ---------- What the operators compute ----------

  /** ToInt32 is the only number of its residue that fits 32 bits with a sign; shift counts matter modulo 32 only. */
  lemma SignedWord(x: int, n: nat)
    ensures -2147483648 <= ToInt32(x) < 2147483648 && (x - ToInt32(x)) % 4294967296 == 0
    ensures Shl(x, n + 32) == Shl(x, n) && Sar(x, n + 32) == Sar(x, n)
  {
    var q, u := x / 4294967296, x % 4294967296;
    assert x == 4294967296 * q + u;
    SameResidue(x, u, q);
    CountModulo(n);
  }

  lemma SameResidue(x: int, u: nat, q: int)
    requires x == 4294967296 * q + u
    ensures (x - u) % 4294967296 == 0 && (x - (u - 4294967296)) % 4294967296 == 0
  {
    DivUnique(x - u, 4294967296, q, 0);
    DivUnique(x - (u - 4294967296), 4294967296, q + 1, 0);
  }

  lemma CountModulo(n: nat)
    ensures (n + 32) % 32 == n % 32
  {
  }

  lemma {:induction false} OrWordZero(a: nat, w: nat)
    requires a < Pow2(w)
    ensures OrWord(a, 0, w) == a
  {
    if w > 0 { OrWordZero(a / 2, w - 1); }
  }

  /** Or-ing a value below 2^m into a word whose low m bits are clear is addition. */
  lemma {:induction false} OrWordDisjoint(q: nat, b: nat, m: nat, w: nat)
    requires m <= w && b < Pow2(m) && Pow2(m) * q < Pow2(w)
    ensures OrWord(Pow2(m) * q, b, w) == Pow2(m) * q + b
  {
    if m == 0 {
      OrWordZero(q, w);
    } else {
      var a := Pow2(m - 1) * q;
      assert Pow2(m) * q == 2 * a;
      OrWordDisjoint(q, b / 2, m - 1, w - 1);
    }
  }

  lemma {:induction false} AndWordZero(a: nat, w: nat)
    ensures AndWord(a, 0, w) == 0
  {
    if w > 0 { AndWordZero(a / 2, w - 1); }
  }

  /** And-ing with m ones is the remainder modulo 2^m. */
  lemma {:induction false} AndWordMask(a: nat, m: nat, w: nat)
    requires m <= w
    ensures AndWord(a, Pow2(m) - 1, w) == a % Pow2(m)
  {
    if m == 0 {
      AndWordZero(a, w);
    } else {
      var p, q := Pow2(m - 1), Pow2(m);
      AndWordMask(a / 2, m - 1, w - 1);
      HalfMod(a, p, q);
      HalfOnes(p, q);
      AndWordHalf(a, q - 1, w, p - 1);
    }
  }

  lemma AndWordHalf(a: nat, b: nat, w: nat, half: nat)
    requires w > 0 && b / 2 == half && b % 2 == 1
    ensures AndWord(a, b, w) == 2 * AndWord(a / 2, half, w - 1) + a % 2
  {
  }

  lemma HalfOnes(p: nat, q: nat)
    requires p > 0 && q == 2 * p
    ensures (q - 1) / 2 == p - 1 && (q - 1) % 2 == 1
  {
  }

  lemma HalfMod(a: nat, p: nat, q: nat)
    requires p > 0 && q == 2 * p
    ensures a % q == 2 * (a / 2 % p) + a % 2
  {
    var k, r := a / 2 / p, a / 2 % p;
    DoubleFactor(k, p);
    DivUnique(a, q, k, 2 * r + a % 2);
  }

  lemma Pow2Values()
    ensures Pow2(1) == 2 && Pow2(2) == 4 && Pow2(3) == 8 && Pow2(4) == 16 && Pow2(5) == 32
    ensures Pow2(6) == 64 && Pow2(7) == 128 && Pow2(8) == 256 && Pow2(16) == 65536 && Pow2(32) == TWO_32
  {
    Pow2Low();
    Pow2Add(8, 8);
    Pow2Add(16, 16);
  }

  lemma Pow2Low()
    ensures Pow2(1) == 2 && Pow2(2) == 4 && Pow2(3) == 8 && Pow2(4) == 16
    ensures Pow2(5) == 32 && Pow2(6) == 64 && Pow2(7) == 128 && Pow2(8) == 256
  {
    assert Pow2(2) == 4;
    assert Pow2(4) == 16;
    assert Pow2(6) == 64;
  }

  lemma Wrap(x: int)
    ensures ToUint32(ToInt32(x)) == ToUint32(x) && ToInt32(ToInt32(x)) == ToInt32(x)
    ensures x == ToInt32(x) + TWO_32 * ((x - ToInt32(x)) / TWO_32)
  {
  }

  lemma Small(v: nat)
    requires v < TWO_32
    ensures ToUint32(v) == v && (v < TWO_31 ==> ToInt32(v) == v)
  {
  }

  /** Wrapping before a multiplication does not show after it. */
  lemma WrapTimes(n: int, p: int)
    ensures ToUint32(ToInt32(n) * p) == ToUint32(n * p)
  {
    var j := (n - ToInt32(n)) / TWO_32;
    Wrap(n);
    Distribute(ToInt32(n), TWO_32, j, p);
    DivShift(ToInt32(n) * p, TWO_32, j * p);
  }

  lemma Distribute(n: int, t: int, j: int, p: int)
    ensures (n + t * j) * p == n * p + t * (j * p)
  {
  }

  lemma MulLess(p: nat, q: nat, c: nat)
    requires q < c
    ensures p * q + p <= p * c
  {
    MulParts(p, q, c - q - 1);
  }

  lemma MulParts(p: nat, q: nat, d: nat)
    ensures p * (q + 1 + d) == p * q + p + p * d && p * d >= 0
  {
  }

  lemma SplitProduct(n: nat, c: nat, p: nat)
    requires c > 0
    ensures n * p == (c * p) * (n / c) + p * (n % c)
  {
    Distribute(n % c, c, n / c, p);
    assert c * ((n / c) * p) == (c * p) * (n / c);
  }

  /** The low 32 bits of n * p + v, when p divides 2^32: n's own low bits, moved up, with v below them. */
  lemma LowWord(n: nat, c: nat, p: nat, v: nat)
    requires c > 0 && c * p == TWO_32 && v < p
    ensures ToUint32(n * p + v) == p * (n % c) + v
  {
    SplitProduct(n, c, p);
    MulLess(p, n % c, c);
    DivUnique(n * p + v, TWO_32, n / c, p * (n % c) + v);
  }

  /** Remainders modulo a divisor m of 2^32 do not notice wrapping. */
  lemma ModWord(x: int, m: int, d: int)
    requires m > 0 && m * d == TWO_32
    ensures ToUint32(x) % m == x % m && ToInt32(x) % m == x % m
  {
    MultipleMod(ToUint32(x), m, d, x / TWO_32);
    MultipleMod(ToInt32(x), m, d, (x - ToInt32(x)) / TWO_32);
    Wrap(x);
  }

  lemma MultipleMod(x: int, m: int, d: int, i: int)
    requires m > 0
    ensures (x + (m * d) * i) % m == x % m
  {
    assert (m * d) * i == m * (d * i);
    DivShift(x, m, d * i);
  }

  lemma MultipleDivMod(x: int, p: int, m: int, c: int, i: int)
    requires p > 0 && m > 0
    ensures (x + (p * (m * c)) * i) / p % m == x / p % m
  {
    assert (p * (m * c)) * i == p * (m * (c * i));
    ShiftDivMod(x, p, m, c * i);
  }

  lemma ShiftDivMod(x: int, p: int, m: int, j: int)
    requires p > 0 && m > 0
    ensures (x + p * (m * j)) / p % m == x / p % m
  {
    DivShift(x, p, m * j);
    DivShift(x / p, m, j);
  }

  lemma DivModWord(x: int, p: int, m: int, c: int)
    requires p > 0 && m > 0 && p * (m * c) == TWO_32
    ensures ToInt32(x) / p % m == x / p % m
  {
    MultipleDivMod(ToInt32(x), p, m, c, (x - ToInt32(x)) / TWO_32);
    Wrap(x);
  }

  /** The value pushed under the shifted word. */
  lemma OrPush(x: int, q: nat, k: nat, v: nat)
    requires 0 < k < 32 && v < Pow2(k)
    requires ToUint32(x) == Pow2(k) * q && Pow2(k) * q + Pow2(k) <= TWO_32
    ensures Or(x, v) == ToInt32(Pow2(k) * q + v)
  {
    Pow2Values();
    Small(v);
    OrWordDisjoint(q, v, k, 32);
  }

  lemma SameWord(x: int, y: int)
    requires ToUint32(x) == ToUint32(y)
    ensures ToInt32(x) == ToInt32(y)
  {
  }

  lemma ShlWord(n: int, k: nat)
    requires k < 32
    ensures Shl(ToInt32(n), k) == ToInt32(n * Pow2(k))
  {
    Wrap(n);
    ShlValue(ToInt32(n), k);
    WrapTimes(n, Pow2(k));
    SameWord(ToInt32(n) * Pow2(k), n * Pow2(k));
  }

  lemma ShlValue(x: int, k: nat)
    requires k < 32 && ToInt32(x) == x
    ensures Shl(x, k) == ToInt32(x * Pow2(k))
  {
    assert k % 32 == k;
  }

  lemma SarValue(x: int, k: nat)
    requires k < 32 && ToInt32(x) == x
    ensures Sar(x, k) == x / Pow2(k)
  {
    assert k % 32 == k;
  }

  lemma Commute(x: int, y: int)
    ensures x * y == y * x
  {
  }

  lemma LowWords(n: nat, k: nat, v: nat) returns (q: nat)
    requires 0 < k < 32 && v < Pow2(k)
    ensures ToUint32(n * Pow2(k)) == Pow2(k) * q && Pow2(k) * q + Pow2(k) <= TWO_32
    ensures ToUint32(n * Pow2(k) + v) == Pow2(k) * q + v
  {
    var p, c := Pow2(k), Pow2(32 - k);
    Pow2Of32();
    Pow2Add(32 - k, k);
    q := n % c;
    LowWord(n, c, p, 0);
    LowWord(n, c, p, v);
    MulLess(p, q, c);
  }

  /** `(buffer << k) | v` keeps the wrapped accumulator congruent to the unbounded one. */
  lemma PushInt32(n: nat, k: nat, v: nat, m: nat)
    requires 0 < k < 32 && v < Pow2(k) && m == Pow2(k) * n + v
    ensures Or(Shl(ToInt32(n), k), v) == ToInt32(m)
  {
    Commute(n, Pow2(k));
    var q := LowWords(n, k, v);
    ShlWord(n, k);
    Wrap(n * Pow2(k));
    OrPush(Shl(ToInt32(n), k), q, k, v);
    WordValue(n * Pow2(k) + v, Pow2(k) * q + v);
  }

  lemma WordValue(y: int, x: nat)
    requires ToUint32(y) == x
    ensures ToInt32(x) == ToInt32(y)
  {
  }

  lemma MaskWord(y: int, w: nat)
    requires w < 32
    ensures And(y, Pow2(w) - 1) == y % Pow2(w)
  {
    Pow2Values();
    Pow2Add(w, 32 - w);
    Pow2Below(w);
    ModWord(y, Pow2(w), Pow2(32 - w));
    AndWordMask(ToUint32(y), w, 32);
    Small(Pow2(w) - 1);
    Small(y % Pow2(w));
  }

  lemma Pow2Below(w: nat)
    requires w < 32
    ensures Pow2(w) <= TWO_31
  {
    Pow2Values();
    Pow2Add(w, 31 - w);
    MulLess(Pow2(w), 0, Pow2(31 - w));
    assert Pow2(32) == 2 * Pow2(31);
  }

  lemma Pow2Of32()
    ensures Pow2(32) == TWO_32
  {
    Pow2Values();
  }

  lemma Associate(a: int, b: int, c: int, bc: int)
    requires b * c == bc
    ensures a * (b * c) == a * bc
  {
  }

  lemma ThreePowers(a: nat, b: nat, c: nat) returns (p: nat, m: nat, r: nat)
    requires a + b + c == 32
    ensures p == Pow2(a) && m == Pow2(b) && p * (m * r) == TWO_32
  {
    p, m, r := Pow2(a), Pow2(b), Pow2(c);
    Pow2Of32();
    Pow2Add(b, c);
    Pow2Add(a, b + c);
    Associate(p, m, r, Pow2(b + c));
  }

  /** `(buffer >> k) & (2^w - 1)` reads the same w bits from the wrapped accumulator as from the unbounded one. */
  lemma PickInt32(n: nat, k: nat, w: nat)
    requires k + w < 32
    ensures And(Sar(ToInt32(n), k), Pow2(w) - 1) == (n / Pow2(k)) % Pow2(w)
  {
    var p, m, c := ThreePowers(k, w, 32 - k - w);
    DivModWord(n, p, m, c);
    Wrap(n);
    SarValue(ToInt32(n), k);
    MaskWord(Sar(ToInt32(n), k), w);
  }

  /** Shifting left before the mask: what the encoder does with its last bits. */
  lemma PickShifted(n: nat, k: nat, w: nat, m: nat)
    requires k < 32 && w < 32 && m == Pow2(k) * n
    ensures And(Shl(ToInt32(n), k), Pow2(w) - 1) == m % Pow2(w)
  {
    Commute(n, Pow2(k));
    Pow2Values();
    Pow2Add(w, 32 - w);
    ShlWord(n, k);
    ModWord(n * Pow2(k), Pow2(w), Pow2(32 - w));
    MaskWord(Shl(ToInt32(n), k), w);
  }
}
