/** The part sizes of an encrypted file asset: what a manifest must say, and that it tiles the file. */
module FileAssets {

  const PART_SIZE := 8 * 1024 * 1024
  const MAX_SIZE := 2 * 1024 * 1024 * 1024
  const MAX_PARTS := MAX_SIZE / PART_SIZE

  function Sum(parts: seq<int>): int {
    if parts == [] then 0 else Sum(parts[..|parts| - 1]) + parts[|parts| - 1]
  }

  function Max(x: int, y: int): int {
    if x >= y then x else y
  }

  function Min(x: int, y: int): int {
    if x <= y then x else y
  }

  /** `Math.ceil(size / PART_SIZE)`: exact in floating point, since the divisor is a power of two. */
  function Ceil(size: nat): nat {
    (size + PART_SIZE - 1) / PART_SIZE
  }

  /** The field bounds of the manifest schema. */
  predicate InBounds(size: int, parts: seq<int>) {
    && 0 <= size <= MAX_SIZE && 1 <= |parts| <= MAX_PARTS
    && forall i :: 0 <= i < |parts| ==> 0 <= parts[i] <= PART_SIZE
  }

  /** The three tests of the refinement: total, number of parts, and each part. */
  predicate SumTest(size: nat, parts: seq<int>) {
    Sum(parts) == size
  }

  predicate CountTest(size: nat, parts: seq<int>) {
    |parts| == Max(1, Ceil(size))
  }

  predicate PartTest(size: nat, parts: seq<int>) {
    forall i :: 0 <= i < |parts| ==> parts[i] == Min(PART_SIZE, Max(0, size - i * PART_SIZE))
  }

  predicate Accepts(size: int, parts: seq<int>) {
    InBounds(size, parts) && SumTest(size, parts) && CountTest(size, parts) && PartTest(size, parts)
  }

  /** Cut full parts off the file until what is left fits in one. */
  function Cut(size: nat): (parts: seq<int>)
    ensures parts != []
  {
    if size <= PART_SIZE then [size] else [PART_SIZE] + Cut(size - PART_SIZE)
  }

  lemma {:induction false} CutShape(size: nat)
    ensures CountTest(size, Cut(size)) && PartTest(size, Cut(size))
  {
    if size > PART_SIZE {
      CutShape(size - PART_SIZE);
      var rest := Cut(size - PART_SIZE);
      assert Ceil(size) == Ceil(size - PART_SIZE) + 1;
      forall i | 1 <= i < |Cut(size)|
        ensures Cut(size)[i] == Min(PART_SIZE, Max(0, size - i * PART_SIZE))
      {
        assert Cut(size)[i] == rest[i - 1];
        PartShift(size, i);
      }
    }
  }

  lemma PartShift(size: int, i: int)
    ensures size - i * PART_SIZE == (size - PART_SIZE) - (i - 1) * PART_SIZE
  {
  }

  /** The offset of a part is the sum of the parts before it. */
  lemma {:induction false} Offsets(size: nat, parts: seq<int>, k: nat)
    requires CountTest(size, parts) && PartTest(size, parts) && k <= |parts|
    ensures Sum(parts[..k]) == Min(k * PART_SIZE, size)
  {
    if k > 0 {
      Offsets(size, parts, k - 1);
      assert parts[..k][..k - 1] == parts[..k - 1];
    }
  }

  /** The sum test and the bounds follow from the other two tests, for any size within the limit. */
  lemma SumTestRedundant(size: nat, parts: seq<int>)
    requires size <= MAX_SIZE && CountTest(size, parts) && PartTest(size, parts)
    ensures SumTest(size, parts) && InBounds(size, parts)
  {
    Offsets(size, parts, |parts|);
    assert parts[..|parts|] == parts;
  }

  /** For every size within the limit exactly one list of parts is accepted; no other size has one. */
  lemma UniqueManifest(size: int, parts: seq<int>)
    ensures Accepts(size, parts) <==> 0 <= size <= MAX_SIZE && parts == Cut(size)
  {
    if 0 <= size <= MAX_SIZE {
      CutShape(size);
      if Accepts(size, parts) {
        assert |parts| == |Cut(size)|;
        assert forall i :: 0 <= i < |parts| ==> parts[i] == Cut(size)[i];
      } else if parts == Cut(size) {
        SumTestRedundant(size, parts);
      }
    }
  }

  /** The part that holds byte `b` of the file. */
  function PartOf(b: nat): nat {
    b / PART_SIZE
  }

  lemma PartExists(size: nat, b: nat)
    requires b < size
    ensures PartOf(b) < Ceil(size)
    ensures PartOf(b) * PART_SIZE <= b < PartOf(b) * PART_SIZE + PART_SIZE
  {
  }

  /** Accepted parts tile the file: every byte lies in exactly one part. */
  lemma PartsTile(size: nat, parts: seq<int>, b: nat, i: nat)
    requires Accepts(size, parts) && b < size && i < |parts|
    ensures PartOf(b) < |parts|
    ensures Sum(parts[..i]) <= b < Sum(parts[..i + 1]) <==> i == PartOf(b)
  {
    PartExists(size, b);
    Offsets(size, parts, i);
    Offsets(size, parts, i + 1);
    Between(size, b, i);
  }

  lemma Between(size: nat, b: nat, i: nat)
    requires b < size
    ensures Min(i * PART_SIZE, size) <= b < Min((i + 1) * PART_SIZE, size) <==> i == PartOf(b)
  {
    PartExists(size, b);
  }

  /** The limits in bytes: 2 GiB in 256 parts of 8 MiB, each but the last one full. */
  lemma LimitsInBytes(size: int, parts: seq<int>)
    requires Accepts(size, parts)
    ensures 0 <= size <= 2147483648 && 1 <= |parts| <= 256
    ensures forall i :: 0 <= i < |parts| - 1 ==> parts[i] == 8388608
    ensures 0 <= parts[|parts| - 1] <= 8388608 && (size > 0 ==> parts[|parts| - 1] > 0)
    ensures size == 8388608 * (|parts| - 1) + parts[|parts| - 1]
  {
  }

  /** And every list of that kind is accepted. */
  lemma FullPartsThenRest(full: nat, rest: nat, parts: seq<int>)
    requires rest <= 8388608 && (full > 0 ==> rest > 0) && 8388608 * full + rest <= 2147483648
    requires |parts| == full + 1 && parts[full] == rest && forall i :: 0 <= i < full ==> parts[i] == 8388608
    ensures Accepts(8388608 * full + rest, parts)
  {
    var size := 8388608 * full + rest;
    assert CountTest(size, parts) && PartTest(size, parts);
    SumTestRedundant(size, parts);
  }
}
