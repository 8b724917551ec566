/** The two-level superspreader sketch, whose flows are (source, destination) pairs cached by fingerprint. */
module TwoLevel {
  import opened Machine
  import opened AggCache
  import opened AggEvict
  import opened TableSketch

  datatype SdPair = SdPair(src: uint32, dst: uint32)

  /** The low n bits of the exclusive or of two numbers. */
  function XorBits(x: nat, y: nat, n: nat): (z: nat)
    ensures z < Pow2(n)
  {
    if n == 0 then 0 else 2 * XorBits(x / 2, y / 2, n - 1) + if x % 2 == y % 2 then 0 else 1
  }

  function XorWord(x: uint32, y: uint32): uint32 {
    Pow2Of32();
    XorBits(x, y, 32)
  }

  /** The key word of a pair: the XOR of its two words. */
  function Fingerprint(): SdPair -> uint32 {
    (k: SdPair) => XorWord(k.src, k.dst)
  }

  const REV_CELLS := 4096

  /** Seeded hashes of a pair: sixteen over its leading bytes, four over the whole pair; and the bit hash of a destination. */
  datatype Hashes = Hashes(rev: (SdPair, nat) -> uint32, whole: (SdPair, nat) -> uint32, dest: uint32 -> uint32)

  /** A reversible row is indexed by four three-bit digits. */
  function RevIndex(hs: Hashes, k: SdPair, r: nat): (i: nat)
    ensures i < REV_CELLS
  {
    hs.rev(k, 4 * r) % 8 + 8 * (hs.rev(k, 4 * r + 1) % 8) + 64 * (hs.rev(k, 4 * r + 2) % 8) + 512 * (hs.rev(k, 4 * r + 3) % 8)
  }

  /** Cell of row q, found by a hash, in rows of `size` cells. */
  function RowCell(size: nat, q: nat, h: uint32): nat
    requires size > 0
  {
    q * size + h % size
  }

  /**
   Four reversible rows of 4096 cells, then four rows of `size` cells.  The last row is
   indexed by the third hash, as the source does; its own hash is computed and not used.
   */
  function TlPos(hs: Hashes, size: nat): (SdPair, nat) -> nat
    requires size > 0
  {
    (k: SdPair, r: nat) =>
      if r < 4 then REV_CELLS * r + RevIndex(hs, k, r)
      else REV_CELLS * 4 + RowCell(size, r - 4, hs.whole(k, if r < 7 then r - 4 else 2))
  }

  /** Each cell is a bitmap of 96 bits, marked by the destination. */
  function TlBit(hs: Hashes): (SdPair, nat) -> nat {
    (k: SdPair, _: nat) => hs.dest(k.dst) % 96
  }

  function TlUpd(hs: Hashes, size: nat): (seq<Bits>, SdPair, uint32) -> seq<Bits>
    requires size > 0
  {
    Updater(OrOp(TlBit(hs)), TlPos(hs, size), 8)
  }

  /** The table after the first r touches of a pair. */
  ghost function Touched(hs: Hashes, size: nat, t0: seq<Bits>, k: SdPair, r: nat): seq<Bits>
    requires size > 0
  {
    Insert(OrOp(TlBit(hs)), TlPos(hs, size), r, t0, k, 0)
  }

  class TwoLevelSimd {
    const simd: Simd<SdPair>
    const hs: Hashes
    const size: nat
    const table: array<Bits>

    ghost predicate Valid()
      reads this, simd, simd.Repr
    {
      simd.Valid() && size > 0 && table.Length == REV_CELLS * 4 + size * 4 && (table as object) !in simd.Repr
    }

    ghost function View(): (st: System<SdPair, seq<Bits>>)
      requires Valid()
      reads this, simd, simd.Repr, table
      ensures Shape(st.cache)
    {
      System(simd.View(), table[..])
    }

    constructor (policy: Policy, rows: nat, hs: Hashes, size: nat)
      requires rows > 0 && size > 0
      ensures Valid() && fresh(simd.Repr) && fresh(table)
      ensures simd.policy == policy && this.hs == hs && this.size == size
      ensures View() == System(EmptyCache(rows, SdPair(0, 0)), seq(REV_CELLS * 4 + size * 4, _ => {}))
    {
      simd := new Simd<SdPair>(policy, rows, SdPair(0, 0));
      this.hs, this.size := hs, size;
      table := new Bits[REV_CELLS * 4 + size * 4](_ => {});
      new;
      assert table[..] == seq(REV_CELLS * 4 + size * 4, _ => {});
      assert simd.View() == EmptyCache(rows, SdPair(0, 0));
    }

    /** One bitmap cell: the r-th touch. */
    method CellInc(p: nat, k: SdPair, ghost r: nat, ghost t0: seq<Bits>)
      requires Valid() && p < table.Length && p == TlPos(hs, size)(k, r) && table[..] == Touched(hs, size, t0, k, r)
      modifies table
      ensures Valid() && table[..] == Touched(hs, size, t0, k, r + 1)
    {
      table[p] := table[p] + {hs.dest(k.dst) % 96};
      assert table[..] == Hit(OrOp(TlBit(hs)), TlPos(hs, size), old(table[..]), k, r, 0);
    }

    /** One pair into the eight rows. */
    method Mark(k: SdPair)
      requires Valid()
      modifies table
      ensures Valid()
      ensures table[..] == TlUpd(hs, size)(old(table[..]), k, 0)
    {
      ghost var t0 := table[..];
      for r := 0 to 4
        invariant Valid() && table[..] == Touched(hs, size, t0, k, r)
      {
        CellInc(REV_CELLS * r + RevIndex(hs, k, r), k, r, t0);
      }
      for q := 0 to 4
        invariant Valid() && table[..] == Touched(hs, size, t0, k, 4 + q)
      {
        MarkRow(q, k, t0);
      }
    }

    /** The pair's cell in hashed row q; the last row reuses the third hash. */
    method MarkRow(q: nat, k: SdPair, ghost t0: seq<Bits>)
      requires Valid() && q < 4 && table[..] == Touched(hs, size, t0, k, 4 + q)
      modifies table
      ensures Valid() && table[..] == Touched(hs, size, t0, k, 4 + q + 1)
    {
      var h := hs.whole(k, if q < 3 then q else 2);
      RowBefore(size, q, h % size, 4);
      CellInc(REV_CELLS * 4 + RowCell(size, q, h), k, 4 + q, t0);
    }

    /** One packet. */
    method Inc(k: SdPair)
      requires Valid()
      modifies table, simd.Repr
      ensures Valid()
      ensures View() == AggStep(TlUpd(hs, size), simd.policy, Fingerprint(), old(View()), k)
    {
      var victim := simd.Aggregate(Fingerprint()(k), k);
      if victim.Some? {
        OrIgnoresWeight(TlBit(hs), TlPos(hs, size), 8, table[..], victim.value.id, victim.value.count);
        Mark(victim.value.id);
      }
    }
  }

  /**
   After every stream of pairs with non-zero fingerprints, the bitmaps together with the bits
   of the cached pairs are the plain bitmaps, although colliding pairs displace each other.
   */
  lemma FingerprintCacheLosesNoPair(policy: Policy, rows: nat, hs: Hashes, size: nat, t0: seq<Bits>, stream: seq<SdPair>)
    requires rows > 0 && size > 0
    requires forall i :: 0 <= i < |stream| ==> Fingerprint()(stream[i]) != 0
    ensures var upd := TlUpd(hs, size);
            var st := AggRun(upd, policy, Fingerprint(), System(EmptyCache(rows, SdPair(0, 0)), t0), stream);
            && CacheInv(st.cache, Fingerprint(), SdPair(0, 0))
            && Drain(upd, st.sketch, Pairs(st.cache.buckets)) == PlainRun(upd, t0, stream)
  {
    OrOpIsLawful(TlBit(hs));
    TableSketchIsLawful(OrOp(TlBit(hs)), TlPos(hs, size), 8);
    AggEvictRefinesPlain(TlUpd(hs, size), Always(), Always(), policy, Fingerprint(), SdPair(0, 0), rows, t0, stream);
  }

  // ---------- What the bitmaps hold ----------

  /** The j-th octal digit of a number. */
  function Digit(x: nat, j: nat): nat {
    if j == 0 then x % 8 else Digit(x / 8, j - 1)
  }

  /** Cell x of reversible row r is the pair's: its four octal digits are four hashes of the pair. */
  predicate InReversible(hs: Hashes, k: SdPair, r: nat, x: nat) {
    forall j :: 0 <= j < 4 ==> Digit(x, j) == hs.rev(k, 4 * r + j) % 8
  }

  lemma Peel(x: nat, a: nat, rest: nat)
    requires a < 8
    ensures x == a + 8 * rest <==> x % 8 == a && x / 8 == rest
  {
  }

  lemma DigitsDecide(x: nat, a: nat, b: nat, c: nat, d: nat)
    requires x < REV_CELLS && a < 8 && b < 8 && c < 8 && d < 8
    ensures a + 8 * b + 64 * c + 512 * d == x <==> Digit(x, 0) == a && Digit(x, 1) == b && Digit(x, 2) == c && Digit(x, 3) == d
  {
    var y := x / 8;
    var z := y / 8;
    var u := z / 8;
    Peel(x, a, b + 8 * (c + 8 * d));
    Peel(y, b, c + 8 * d);
    Peel(z, c, d);
    assert u < 8;
    DigitsBelow(x);
  }

  lemma DigitsBelow(x: nat)
    ensures Digit(x, 0) == x % 8 && Digit(x, 1) == (x / 8) % 8 && Digit(x, 2) == (x / 8 / 8) % 8 && Digit(x, 3) == (x / 8 / 8 / 8) % 8
  {
    var y := x / 8;
    var z := y / 8;
    var u := z / 8;
    assert Digit(u, 0) == u % 8;
    assert Digit(z, 1) == Digit(u, 0) && Digit(z, 0) == z % 8;
    assert Digit(y, 2) == Digit(z, 1) && Digit(y, 1) == Digit(z, 0) && Digit(y, 0) == y % 8;
    assert Digit(x, 3) == Digit(y, 2) && Digit(x, 2) == Digit(y, 1) && Digit(x, 1) == Digit(y, 0);
  }

  lemma ReversibleIndex(hs: Hashes, k: SdPair, r: nat, x: nat)
    requires x < REV_CELLS
    ensures RevIndex(hs, k, r) == x <==> InReversible(hs, k, r, x)
  {
    var a, b, c, d := hs.rev(k, 4 * r) % 8, hs.rev(k, 4 * r + 1) % 8, hs.rev(k, 4 * r + 2) % 8, hs.rev(k, 4 * r + 3) % 8;
    DigitsDecide(x, a, b, c, d);
    if InReversible(hs, k, r, x) {
      assert Digit(x, 0) == hs.rev(k, 4 * r + 0) % 8;
      assert Digit(x, 1) == b && Digit(x, 2) == c && Digit(x, 3) == d;
    }
    if RevIndex(hs, k, r) == x {
      forall j | 0 <= j < 4
        ensures Digit(x, j) == hs.rev(k, 4 * r + j) % 8
      {
        assert j == 0 || j == 1 || j == 2 || j == 3;
      }
    }
  }

  /** Cells of the reversible rows belong to no other row. */
  lemma ReversibleCell(hs: Hashes, size: nat, k: SdPair, r: nat, x: nat, q: nat)
    requires size > 0 && r < 4 && x < REV_CELLS && q < 8
    ensures TlPos(hs, size)(k, q) == REV_CELLS * r + x <==> q == r && RevIndex(hs, k, r) == x
  {
    if q < 4 {
      RowAndColumn(REV_CELLS, q, RevIndex(hs, k, q), r, x);
    } else {
      var c := RowCell(size, q - 4, hs.whole(k, if q < 7 then q - 4 else 2));
      assert TlPos(hs, size)(k, q) == REV_CELLS * 4 + c;
    }
  }

  lemma HashedCell(hs: Hashes, size: nat, k: SdPair, r: nat, c: nat, q: nat)
    requires c < size && r < 4 && q < 8
    ensures TlPos(hs, size)(k, q) == REV_CELLS * 4 + r * size + c <==> q == r + 4 && hs.whole(k, if r < 3 then r else 2) % size == c
  {
    if q >= 4 {
      var h := hs.whole(k, if q < 7 then q - 4 else 2);
      assert TlPos(hs, size)(k, q) == REV_CELLS * 4 + RowCell(size, q - 4, h);
      RowAndColumn(size, q - 4, h % size, r, c);
    } else {
      assert r * size >= 0 && TlPos(hs, size)(k, q) == REV_CELLS * q + RevIndex(hs, k, q);
    }
  }

  ghost predicate MarksReversible(hs: Hashes, k: SdPair, r: nat, x: nat, b: nat) {
    InReversible(hs, k, r, x) && b == hs.dest(k.dst) % 96
  }

  /** After every stream, bit b of cell x of reversible row r is set exactly when it was before, or some pair's destination hashes to b and four hashes of the pair spell x. */
  lemma ReversibleBits(hs: Hashes, size: nat, t0: seq<Bits>, stream: seq<SdPair>, r: nat, x: nat, b: nat)
    requires size > 0 && |t0| == REV_CELLS * 4 + size * 4 && r < 4 && x < REV_CELLS
    ensures var plain, p := PlainRun(TlUpd(hs, size), t0, stream), REV_CELLS * r + x;
            |plain| == |t0| && (b in plain[p] <==> b in t0[p] || exists i :: 0 <= i < |stream| && MarksReversible(hs, stream[i], r, x, b))
  {
    var p := REV_CELLS * r + x;
    PlainOrBits(TlBit(hs), TlPos(hs, size), 8, t0, stream, p, b);
    forall k: SdPair
      ensures SetsBit(TlBit(hs), TlPos(hs, size), 8, k, p, b) <==> MarksReversible(hs, k, r, x, b)
    {
      ReversibleIndex(hs, k, r, x);
      forall q | 0 <= q < 8
        ensures TlPos(hs, size)(k, q) == p <==> q == r && RevIndex(hs, k, r) == x
      {
        ReversibleCell(hs, size, k, r, x, q);
      }
      assert TlBit(hs)(k, r) == hs.dest(k.dst) % 96;
    }
  }

  ghost predicate MarksHashed(hs: Hashes, size: nat, k: SdPair, r: nat, c: nat, b: nat)
    requires size > 0
  {
    hs.whole(k, if r < 3 then r else 2) % size == c && b == hs.dest(k.dst) % 96
  }

  /** The same of cell c of hashed row r, found by one hash of the pair: the r-th, and the third again for the last row. */
  lemma HashedBits(hs: Hashes, size: nat, t0: seq<Bits>, stream: seq<SdPair>, r: nat, c: nat, b: nat)
    requires |t0| == REV_CELLS * 4 + size * 4 && r < 4 && c < size
    ensures var plain, p := PlainRun(TlUpd(hs, size), t0, stream), REV_CELLS * 4 + r * size + c;
            && p < |t0| == |plain|
            && (b in plain[p] <==> b in t0[p] || exists i :: 0 <= i < |stream| && MarksHashed(hs, size, stream[i], r, c, b))
  {
    var p := REV_CELLS * 4 + r * size + c;
    assert (3 - r) * size >= 0;
    PlainOrBits(TlBit(hs), TlPos(hs, size), 8, t0, stream, p, b);
    forall k: SdPair
      ensures SetsBit(TlBit(hs), TlPos(hs, size), 8, k, p, b) <==> MarksHashed(hs, size, k, r, c, b)
    {
      forall q | 0 <= q < 8
        ensures TlPos(hs, size)(k, q) == p <==> q == r + 4 && hs.whole(k, if r < 3 then r else 2) % size == c
      {
        HashedCell(hs, size, k, r, c, q);
      }
      assert TlBit(hs)(k, r + 4) == hs.dest(k.dst) % 96;
    }
  }

  lemma Shift(z: nat, b: nat)
    requires b < 2
    ensures (2 * z + b) % 2 == b && (2 * z + b) / 2 == z
  {
  }

  lemma {:induction false} XorBitAt(x: nat, y: nat, n: nat, i: nat)
    requires i < n
    ensures BitOf(XorBits(x, y, n), i) == 1 <==> BitOf(x, i) != BitOf(y, i)
  {
    Shift(XorBits(x / 2, y / 2, n - 1), if x % 2 == y % 2 then 0 else 1);
    if i > 0 {
      XorBitAt(x / 2, y / 2, n - 1, i - 1);
    }
  }

  /** Bit i of the key word is set exactly when bit i of one word of the pair is set and of the other is not. */
  lemma FingerprintIsXor(k: SdPair, i: nat)
    requires i < 32
    ensures BitOf(Fingerprint()(k), i) == 1 <==> BitOf(k.src, i) != BitOf(k.dst, i)
  {
    XorBitAt(k.src, k.dst, 32, i);
  }

  lemma {:induction false} XorIsZero(x: nat, y: nat, n: nat)
    requires x < Pow2(n) && y < Pow2(n)
    ensures XorBits(x, y, n) == 0 <==> x == y
  {
    if n > 0 {
      XorIsZero(x / 2, y / 2, n - 1);
      HalfAndParity(x, y);
    }
  }

  lemma HalfAndParity(x: nat, y: nat)
    ensures x == y <==> x / 2 == y / 2 && x % 2 == y % 2
  {
    assert x == 2 * (x / 2) + x % 2 && y == 2 * (y / 2) + y % 2;
  }

  /** The key word that the cache cannot tell from an unused lane is that of the pairs of equal words. */
  lemma ZeroFingerprintExactlyWhen(k: SdPair)
    ensures Fingerprint()(k) == 0 <==> k.src == k.dst
  {
    Pow2Of32();
    XorIsZero(k.src, k.dst, 32);
  }
}
