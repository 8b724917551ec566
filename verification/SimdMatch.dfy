/**
 The 16-lane key match of the Agg-Evict cache.

 The SIMD modules compare all sixteen 32-bit keys of a bucket with one flow, squeeze the
 sixteen comparison words into sixteen bytes with three saturating packs, and read one
 bit per byte.  The last pack is applied to 16-bit lanes as if they were 32-bit lanes;
 saturation repairs the two mixed patterns.  The scalar module searches with a loop.
 */
module SimdMatch {
  import opened Machine

  const LANES := 16

  /** Index of the first occurrence of `item`, or `|keys|` when there is none. */
  function FirstIndex(keys: seq<uint32>, item: uint32): (i: nat)
    ensures i <= |keys|
    ensures i < |keys| ==> keys[i] == item
    ensures forall j :: 0 <= j < i ==> keys[j] != item
  {
    if keys == [] then 0
    else if keys[0] == item then 0
    else 1 + FirstIndex(keys[1..], item)
  }

  // ---------- The vector instructions ----------

  /** `_mm_cmpeq_epi32` against a broadcast word: all ones (-1) where equal. */
  function CmpEq(item: uint32, lanes: seq<uint32>): seq<int>
    requires |lanes| == 4
  {
    seq(4, i requires 0 <= i < 4 => if lanes[i] == item then -1 else 0)
  }

  /** Signed saturation to 16 bits. */
  function Saturate(x: int): int {
    if x < -0x8000 then -0x8000 else if x > 0x7FFF then 0x7FFF else x
  }

  /** `_mm_packs_epi32`: two vectors of four 32-bit lanes into eight 16-bit lanes. */
  function Packs(a: seq<int>, b: seq<int>): seq<int>
    requires |a| == |b| == 4
  {
    seq(8, i requires 0 <= i < 8 => Saturate(if i < 4 then a[i] else b[i - 4]))
  }

  /** The register reinterpreted: eight 16-bit lanes read as four little-endian 32-bit lanes. */
  function AsLanes32(v: seq<int>): seq<int>
    requires |v| == 8
  {
    seq(4, i requires 0 <= i < 4 => v[2 * i + 1] * 0x1_0000 + v[2 * i] % 0x1_0000)
  }

  /** The top bit of each of the sixteen bytes of eight 16-bit lanes. */
  function ByteSigns(v: seq<int>): seq<bool>
    requires |v| == 8
  {
    seq(16, i requires 0 <= i < 16 =>
      if i % 2 == 0 then v[i / 2] % 0x100 >= 0x80 else v[i / 2] % 0x1_0000 / 0x100 >= 0x80)
  }

  /** Bits, least significant first, as a number. */
  function MaskOf(bits: seq<bool>): nat {
    if bits == [] then 0 else (if bits[0] then 1 else 0) + 2 * MaskOf(bits[1..])
  }

  /** `_tzcnt_u32` on a non-zero word. */
  function Tzcnt(x: nat): (n: nat)
    requires x > 0
    decreases x
  {
    if x % 2 == 1 then 0 else 1 + Tzcnt(x / 2)
  }

  /** Eight comparison words, packed once. */
  function Half(item: uint32, keys: seq<uint32>, base: nat): (v: seq<int>)
    requires |keys| == LANES && base + 8 <= LANES
    ensures |v| == 8
  {
    Packs(CmpEq(item, keys[base..base + 4]), CmpEq(item, keys[base + 4..base + 8]))
  }

  /** The byte signs that the three packs leave. */
  function MatchBits(item: uint32, keys: seq<uint32>): seq<bool>
    requires |keys| == LANES
  {
    ByteSigns(Packs(AsLanes32(Half(item, keys, 0)), AsLanes32(Half(item, keys, 8))))
  }

  function Matched(item: uint32, keys: seq<uint32>): nat
    requires |keys| == LANES
  {
    MaskOf(MatchBits(item, keys))
  }

  // ---------- The SIMD match is the scalar match ----------

  /** What saturation does to a pair of 16-bit comparison lanes. */
  lemma PairSurvivesPack(lo: int, hi: int)
    requires (lo == 0 || lo == -1) && (hi == 0 || hi == -1)
    ensures var w := Saturate(hi * 0x1_0000 + lo % 0x1_0000);
            (w % 0x100 >= 0x80) == (lo == -1) && (w % 0x1_0000 / 0x100 >= 0x80) == (hi == -1)
  {
  }

  /** The first two packs are exact: comparison words fit 16 bits. */
  lemma PackedLane(item: uint32, keys: seq<uint32>, base: nat, j: nat)
    requires |keys| == LANES && base + 8 <= LANES && j < 8
    ensures Half(item, keys, base)[j] == if keys[base + j] == item then -1 else 0
  {
    var x, y := keys[base..base + 4], keys[base + 4..base + 8];
    assert Packs(CmpEq(item, x), CmpEq(item, y))[j]
        == Saturate(if j < 4 then CmpEq(item, x)[j] else CmpEq(item, y)[j - 4]);
    if j < 4 {
      assert x[j] == keys[base + j];
    } else {
      assert y[j - 4] == keys[base + j];
      assert CmpEq(item, y)[j - 4] == if keys[base + j] == item then -1 else 0;
    }
  }

  /** The last pack, read byte by byte, gives back a pair of 16-bit comparison lanes as two sign bits. */
  lemma SignsOfPair(ab: seq<int>, cd: seq<int>, q: nat, lo: int, hi: int)
    requires |ab| == |cd| == 8 && q < 8
    requires lo == (if q < 4 then ab[2 * q] else cd[2 * q - 8])
    requires hi == (if q < 4 then ab[2 * q + 1] else cd[2 * q + 1 - 8])
    requires (lo == 0 || lo == -1) && (hi == 0 || hi == -1)
    ensures var signs := ByteSigns(Packs(AsLanes32(ab), AsLanes32(cd)));
            signs[2 * q] == (lo == -1) && signs[2 * q + 1] == (hi == -1)
  {
    var packed := Packs(AsLanes32(ab), AsLanes32(cd));
    assert packed[q] == Saturate(hi * 0x1_0000 + lo % 0x1_0000);
    PairSurvivesPack(lo, hi);
    assert (2 * q) / 2 == q && (2 * q + 1) / 2 == q;
  }

  lemma MatchPair(item: uint32, keys: seq<uint32>, q: nat)
    requires |keys| == LANES && q < 8
    ensures |MatchBits(item, keys)| == LANES
    ensures MatchBits(item, keys)[2 * q] == (keys[2 * q] == item)
    ensures MatchBits(item, keys)[2 * q + 1] == (keys[2 * q + 1] == item)
  {
    var base := if q < 4 then 0 else 8;
    PackedLane(item, keys, base, 2 * q - base);
    PackedLane(item, keys, base, 2 * q + 1 - base);
    var half := Half(item, keys, base);
    SignsOfPair(Half(item, keys, 0), Half(item, keys, 8), q, half[2 * q - base], half[2 * q + 1 - base]);
  }

  lemma HalfOfPair(bits: seq<bool>, item: uint32, keys: seq<uint32>, q: nat, i: nat)
    requires |bits| == |keys| == LANES && q < 8 && (i == 2 * q || i == 2 * q + 1)
    requires bits[2 * q] == (keys[2 * q] == item) && bits[2 * q + 1] == (keys[2 * q + 1] == item)
    ensures bits[i] == (keys[i] == item)
  {
  }

  /** Bit i of the movemask is set exactly when lane i holds the item. */
  lemma MatchBitsAreLaneEquality(item: uint32, keys: seq<uint32>, i: nat)
    requires |keys| == LANES && i < LANES
    ensures |MatchBits(item, keys)| == LANES
    ensures MatchBits(item, keys)[i] == (keys[i] == item)
  {
    MatchPair(item, keys, i / 2);
    HalfOfPair(MatchBits(item, keys), item, keys, i / 2, i);
  }

  /** Trailing zeros of a mask give the first set bit. */
  lemma {:induction false} TzcntFindsFirst(bits: seq<bool>)
    ensures MaskOf(bits) == 0 <==> true !in bits
    ensures MaskOf(bits) != 0 ==>
              var n := Tzcnt(MaskOf(bits));
              n < |bits| && bits[n] && forall j :: 0 <= j < n ==> !bits[j]
  {
    if bits != [] {
      TzcntFindsFirst(bits[1..]);
      if !bits[0] && MaskOf(bits) != 0 {
        var n := Tzcnt(MaskOf(bits[1..]));
        assert MaskOf(bits) / 2 == MaskOf(bits[1..]);
        assert forall j :: 1 <= j < n + 1 ==> bits[j] == bits[1..][j - 1];
      }
    }
  }

  /** The mask is zero exactly on a miss, and on a hit its trailing zeros give the first lane holding the item. */
  lemma SimdMatchIsScalarMatch(item: uint32, keys: seq<uint32>)
    requires |keys| == LANES
    ensures Matched(item, keys) == 0 <==> item !in keys
    ensures Matched(item, keys) != 0 ==> Tzcnt(Matched(item, keys)) == FirstIndex(keys, item)
  {
    var bits := MatchBits(item, keys);
    forall i | 0 <= i < LANES
      ensures bits[i] == (keys[i] == item)
    {
      MatchBitsAreLaneEquality(item, keys, i);
    }
    TzcntFindsFirst(bits);
    if Matched(item, keys) != 0 {
      var n := Tzcnt(Matched(item, keys));
      assert keys[n] == item;
    } else {
      assert forall i :: 0 <= i < LANES ==> !bits[i];
    }
  }

  lemma {:induction false} TzcntOfPow2(n: nat)
    ensures Pow2(n) > 0 && Tzcnt(Pow2(n)) == n
  {
    if n > 0 {
      TzcntOfPow2(n - 1);
    }
  }

  /** The scalar search: the loop of the module without SIMD, which leaves `1 << i` for the first matching lane. */
  method ScalarMatch(item: uint32, keys: seq<uint32>) returns (matched: nat)
    requires |keys| == LANES
    ensures matched == 0 <==> Matched(item, keys) == 0
    ensures matched != 0 ==> Matched(item, keys) != 0 && Tzcnt(matched) == Tzcnt(Matched(item, keys))
  {
    SimdMatchIsScalarMatch(item, keys);
    matched := 0;
    var i := 0;
    while i < LANES
      invariant 0 <= i <= LANES
      invariant matched == 0
      invariant item !in keys[..i]
    {
      if item == keys[i] {
        matched := Pow2(i);
        TzcntOfPow2(i);
        assert forall j :: 0 <= j < i ==> keys[j] == keys[..i][j];
        assert FirstIndex(keys, item) == i;
        break;
      }
      i := i + 1;
    }
    assert i == LANES ==> keys[..i] == keys;
  }

  /** Doubling both sides of a division. */
  lemma DoubleDivision(x: nat, m: nat)
    requires m > 0
    ensures (2 * x) / (2 * m) == x / m && (2 * x) % (2 * m) == 2 * (x % m)
  {
    var q, r := x / m, x % m;
    assert x == m * q + r;
    assert 2 * x == (2 * m) * q + 2 * r;
    UniqueDivision(2 * x, 2 * m, q, 2 * r);
  }

  lemma UniqueDivision(x: nat, m: nat, q: nat, r: nat)
    requires r < m && x == m * q + r
    ensures x / m == q && x % m == r
  {
    var d := x / m - q;
    assert x == m * (x / m) + x % m;
    assert m * d == r - x % m;
    SmallMultiple(m, d);
  }

  lemma SmallMultiple(m: int, d: int)
    requires 0 < m && -m < m * d < m
    ensures d == 0
  {
  }

  /** Trailing zeros in arithmetic: 2^b divides the word, and the quotient is odd. */
  lemma {:induction false} TzcntIs(x: nat, b: nat)
    requires x > 0
    ensures Tzcnt(x) == b <==> x % Pow2(b) == 0 && x / Pow2(b) % 2 == 1
    decreases x
  {
    if b > 0 {
      if x % 2 == 0 {
        TzcntIs(x / 2, b - 1);
        DoubleDivision(x / 2, Pow2(b - 1));
      } else {
        OddRemainder(x, Pow2(b - 1));
      }
    }
  }

  lemma OddRemainder(x: nat, m: nat)
    requires x % 2 == 1 && m > 0
    ensures x % (2 * m) != 0
  {
    var q := x / (2 * m);
    assert x == (2 * m) * q + x % (2 * m);
    assert (2 * m) * q == 2 * (m * q);
  }
}
