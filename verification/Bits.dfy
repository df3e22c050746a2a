/** Bit strings, most significant bit first, and their regrouping into fixed-width values. */
module Bits {

  type bit = b: nat | b < 2

  function Pow2(n: nat): (p: nat)
    ensures p >= 1
  {
    if n == 0 then 1 else 2 * Pow2(n - 1)
  }

  function FromBits(s: seq<bit>): (v: nat)
    ensures v < Pow2(|s|)
  {
    if s == [] then 0 else 2 * FromBits(s[..|s| - 1]) + s[|s| - 1]
  }

  function ToBits(v: nat, w: nat): (s: seq<bit>)
    ensures |s| == w
  {
    if w == 0 then [] else ToBits(v / 2, w - 1) + [v % 2]
  }

  function Zeros(n: nat): (s: seq<bit>)
    ensures |s| == n
  {
    seq(n, _ => 0)
  }

  /** The values, each written with `w` bits, one after another. */
  function Spread(vs: seq<nat>, w: nat): seq<bit> {
    if vs == [] then [] else ToBits(vs[0], w) + Spread(vs[1..], w)
  }

  /** The complete groups of `w` bits; a shorter last group is dropped. */
  function Group(s: seq<bit>, w: nat): seq<nat>
    requires w > 0
  {
    if |s| < w then [] else [FromBits(s[..w])] + Group(s[w..], w)
  }

  /** Zero bits appended up to a multiple of `w` bits. */
  function Pad(s: seq<bit>, w: nat): seq<bit>
    requires w > 0
  {
    s + Zeros((w - |s| % w) % w)
  }

  predicate Fits(vs: seq<nat>, w: nat) {
    forall i :: 0 <= i < |vs| ==> vs[i] < Pow2(w)
  }

  // ---------- Arithmetic ----------

  lemma MultipleBound(d: int, k: int)
    requires d > 0
    ensures k >= 1 ==> d * k >= d
    ensures k <= -1 ==> d * k <= -d
  {
  }

  lemma DivUnique(x: int, d: int, q: int, r: int)
    requires d > 0 && x == d * q + r && 0 <= r < d
    ensures x / d == q && x % d == r
  {
    var q', r' := x / d, x % d;
    assert x == d * q' + r';
    assert d * (q - q') == d * q - d * q';
    MultipleBound(d, q - q');
  }

  lemma Exact(x: nat, d: nat)
    requires d > 0 && x % d == 0
    ensures d * (x / d) == x
  {
  }

  lemma DivShift(x: int, d: int, k: int)
    requires d > 0
    ensures (x + d * k) / d == x / d + k && (x + d * k) % d == x % d
  {
    assert x == d * (x / d) + x % d;
    assert d * (x / d + k) == d * (x / d) + d * k;
    DivUnique(x + d * k, d, x / d + k, x % d);
  }

  lemma {:induction false} Pow2Add(a: nat, b: nat)
    ensures Pow2(a + b) == Pow2(a) * Pow2(b)
  {
    if a > 0 {
      Pow2Add(a - 1, b);
      assert Pow2(a + b) == 2 * (Pow2(a - 1) * Pow2(b));
    }
  }

  // ---------- Values and their bits ----------

  lemma DoubleFactor(x: int, p: int)
    ensures (2 * p) * x == 2 * (p * x)
  {
  }

  lemma {:induction false} FromBitsConcat(a: seq<bit>, b: seq<bit>)
    ensures FromBits(a + b) == Pow2(|b|) * FromBits(a) + FromBits(b)
  {
    if b == [] {
      assert a + b == a;
    } else {
      var b' := b[..|b| - 1];
      var last := b[|b| - 1];
      assert b == b' + [last] && a + b == (a + b') + [last];
      FromBitsConcat(a, b');
      FromBitsSnoc(a + b', last);
      FromBitsSnoc(b', last);
      DoubleFactor(FromBits(a), Pow2(|b'|));
    }
  }

  lemma FromBitsSnoc(s: seq<bit>, v: bit)
    ensures FromBits(s + [v]) == 2 * FromBits(s) + v
  {
    assert (s + [v])[..|s|] == s;
  }

  /** Shifting drops the low bits of a bit string. */
  lemma ShiftBits(a: seq<bit>, c: seq<bit>)
    ensures FromBits(a + c) / Pow2(|c|) == FromBits(a)
  {
    FromBitsConcat(a, c);
    DivUnique(FromBits(a + c), Pow2(|c|), FromBits(a), FromBits(c));
  }

  /** Masking keeps them. */
  lemma MaskBits(a: seq<bit>, c: seq<bit>)
    ensures FromBits(a + c) % Pow2(|c|) == FromBits(c)
  {
    FromBitsConcat(a, c);
    DivUnique(FromBits(a + c), Pow2(|c|), FromBits(a), FromBits(c));
  }

  lemma ShiftBitsAt(s: seq<bit>, j: nat)
    requires j <= |s|
    ensures FromBits(s) / Pow2(|s| - j) == FromBits(s[..j])
  {
    assert s == s[..j] + s[j..];
    ShiftBits(s[..j], s[j..]);
  }

  lemma MaskBitsAt(s: seq<bit>, i: nat)
    requires i <= |s|
    ensures FromBits(s) % Pow2(|s| - i) == FromBits(s[i..])
  {
    assert s == s[..i] + s[i..];
    MaskBits(s[..i], s[i..]);
  }

  lemma {:induction false} FromToBits(v: nat, w: nat)
    requires v < Pow2(w)
    ensures FromBits(ToBits(v, w)) == v
  {
    if w > 0 {
      FromToBits(v / 2, w - 1);
      assert ToBits(v, w)[..w - 1] == ToBits(v / 2, w - 1);
    }
  }

  lemma {:induction false} ToFromBits(s: seq<bit>)
    ensures ToBits(FromBits(s), |s|) == s
  {
    if s != [] {
      var s', last := s[..|s| - 1], s[|s| - 1];
      ToFromBits(s');
      assert s == s' + [last];
      FromBitsSnoc(s', last);
      HalfSnoc(FromBits(s'), last);
    }
  }

  lemma HalfSnoc(v: nat, last: bit)
    ensures (2 * v + last) / 2 == v && (2 * v + last) % 2 == last
  {
  }

  lemma {:induction false} FromZeros(n: nat)
    ensures FromBits(Zeros(n)) == 0
  {
    if n > 0 {
      FromZeros(n - 1);
      assert Zeros(n)[..n - 1] == Zeros(n - 1);
    }
  }

  // ---------- Regrouping ----------

  lemma {:induction false} SpreadLength(vs: seq<nat>, w: nat)
    ensures |Spread(vs, w)| == w * |vs|
  {
    if vs != [] {
      SpreadLength(vs[1..], w);
      assert w * |vs| == w + w * |vs[1..]|;
    }
  }

  lemma {:induction false} SpreadConcat(a: seq<nat>, b: seq<nat>, w: nat)
    ensures Spread(a + b, w) == Spread(a, w) + Spread(b, w)
  {
    if a == [] {
      assert a + b == b;
    } else {
      assert (a + b)[1..] == a[1..] + b;
      SpreadConcat(a[1..], b, w);
    }
  }

  lemma SpreadSnoc(a: seq<nat>, v: nat, w: nat)
    ensures Spread(a + [v], w) == Spread(a, w) + ToBits(v, w)
  {
    SpreadConcat(a, [v], w);
    assert Spread([v], w) == ToBits(v, w) + Spread([v][1..], w);
  }

  lemma {:induction false} GroupLength(s: seq<bit>, w: nat)
    requires w > 0
    ensures |Group(s, w)| == |s| / w && Fits(Group(s, w), w)
  {
    if |s| < w {
      DivUnique(|s|, w, 0, |s|);
    } else {
      GroupLength(s[w..], w);
      DivShift(|s| - w, w, 1);
    }
  }

  lemma GroupCons(a: seq<bit>, s: seq<bit>, w: nat)
    requires w > 0 && |a| == w
    ensures Group(a + s, w) == [FromBits(a)] + Group(s, w)
  {
    assert (a + s)[..w] == a && (a + s)[w..] == s;
  }

  /** Grouping undoes spreading, and fewer than `w` further bits do not show. */
  lemma {:induction false} GroupSpread(vs: seq<nat>, w: nat, extra: seq<bit>)
    requires w > 0 && Fits(vs, w) && |extra| < w
    ensures Group(Spread(vs, w) + extra, w) == vs
  {
    if vs != [] {
      var first, rest := ToBits(vs[0], w), Spread(vs[1..], w);
      FromToBits(vs[0], w);
      GroupSpread(vs[1..], w, extra);
      GroupCons(first, rest + extra, w);
      Reassociate(first, rest, extra);
      assert vs == [vs[0]] + vs[1..];
    }
  }

  lemma Reassociate(a: seq<bit>, b: seq<bit>, c: seq<bit>)
    ensures (a + b) + c == a + (b + c)
  {
  }

  /** Spreading undoes grouping, up to the dropped last group. */
  lemma {:induction false} SpreadGroup(s: seq<bit>, w: nat)
    requires w > 0
    ensures Spread(Group(s, w), w) <= s
    ensures |s| - |Spread(Group(s, w), w)| < w
  {
    if |s| >= w {
      SpreadGroup(s[w..], w);
      ToFromBits(s[..w]);
      var g := Group(s, w);
      assert g[1..] == Group(s[w..], w);
      assert s == s[..w] + s[w..];
    }
  }

  /** Grouping looks at the complete groups and at nothing else. */
  lemma SameGroups(s: seq<bit>, s': seq<bit>, w: nat, m: nat)
    requires w > 0 && |s| == |s'| && m == w * (|s| / w)
    ensures m <= |s|
    ensures Group(s, w) == Group(s', w) <==> s[..m] == s'[..m]
  {
    CompletePart(s, w, m);
    CompletePart(s', w, m);
    if s[..m] == s'[..m] {
      GroupLength(s, w);
      GroupSpread(Group(s, w), w, s'[m..]);
      assert s' == s[..m] + s'[m..];
    }
  }

  lemma CompletePart(s: seq<bit>, w: nat, m: nat)
    requires w > 0 && m == w * (|s| / w)
    ensures m <= |s| < m + w && Spread(Group(s, w), w) == s[..m]
  {
    GroupLength(s, w);
    SpreadLength(Group(s, w), w);
    SpreadGroup(s, w);
  }

  lemma PadLength(s: seq<bit>, w: nat)
    requires w > 0
    ensures |Pad(s, w)| % w == 0 && |s| <= |Pad(s, w)| < |s| + w
  {
    var r := |s| % w;
    if r == 0 {
      DivUnique(w, w, 1, 0);
    } else {
      DivUnique(w - r, w, 0, w - r);
      assert |Pad(s, w)| == w * (|s| / w + 1) by {
        assert |s| == w * (|s| / w) + r;
        assert w * (|s| / w + 1) == w * (|s| / w) + w;
      }
      DivUnique(|Pad(s, w)|, w, |s| / w + 1, 0);
    }
  }

  /**
   * The round trip behind base32 and base64: write values of `w` bits as values of `u` bits, zero-padded,
   * with u <= w; reading those back in groups of `w` bits gives the same values.
   */
  lemma Regroup(vs: seq<nat>, w: nat, u: nat)
    requires 0 < u <= w && Fits(vs, w)
    ensures Group(Spread(Group(Pad(Spread(vs, w), u), u), u), w) == vs
  {
    var s := Spread(vs, w);
    var p := Pad(s, u);
    PadLength(s, u);
    SpreadGroup(p, u);
    GroupLength(p, u);
    Exact(|p|, u);
    SpreadLength(Group(p, u), u);
    assert Spread(Group(p, u), u) == p;
    GroupSpread(vs, w, p[|s|..]);
    assert p == s + p[|s|..];
  }
}
