/** How the bucketised cuckoo map cuts its memory into buckets, and when that keeps every bucket inside its table. */
module BucketGeometry {
  import opened Machine
  import opened LinearMap
  import opened CuckooBucketMap

  /** Bitwise and. */
  function And(x: nat, y: nat): (z: nat)
    ensures z <= y
  {
    if x == 0 || y == 0 then 0 else 2 * And(x / 2, y / 2) + (x % 2) * (y % 2)
  }

  lemma {:induction false} AndSelf(x: nat)
    ensures And(x, x) == x
  {
    if x > 0 {
      AndSelf(x / 2);
    }
  }

  /** Bit by bit. */
  lemma {:induction false} AndBits(x: nat, y: nat, i: nat)
    ensures BitOf(And(x, y), i) == 1 <==> BitOf(x, i) == 1 && BitOf(y, i) == 1
    decreases i
  {
    if x == 0 || y == 0 {
      NoBits(i);
    } else {
      var z := And(x / 2, y / 2);
      BitProduct(x, y);
      assert And(x, y) % 2 == (x % 2) * (y % 2) && And(x, y) / 2 == z;
      if i > 0 {
        AndBits(x / 2, y / 2, i - 1);
      }
    }
  }

  lemma BitProduct(x: nat, y: nat)
    ensures 0 <= (x % 2) * (y % 2) <= 1 && ((x % 2) * (y % 2) == 1 <==> x % 2 == 1 && y % 2 == 1)
  {
  }

  lemma {:induction false} NoBits(i: nat)
    ensures BitOf(0, i) == 0
  {
    if i > 0 {
      NoBits(i - 1);
    }
  }

  const BUCKET_WORDS := 16

  function EntriesPerBucket(rowsize: nat): nat
    requires 0 < rowsize
  {
    BUCKET_WORDS / rowsize
  }

  /** The mask with which a hash is turned into a bucket index. */
  function BucketMask(size: nat, rowsize: nat): nat
    requires 0 < rowsize <= BUCKET_WORDS && size > 0
  {
    (size - 1) / EntriesPerBucket(rowsize)
  }

  /** Whole buckets of 64 bytes in the `size` rows of one table. */
  function BucketsInTable(size: nat, rowsize: nat): nat {
    size * rowsize / BUCKET_WORDS
  }

  /** Every bucket that some hash selects lies inside its own table. */
  ghost predicate BucketsFit(size: nat, rowsize: nat)
    requires 0 < rowsize <= BUCKET_WORDS && size > 0
  {
    forall h: uint32 :: And(h, BucketMask(size, rowsize)) < BucketsInTable(size, rowsize)
  }

  lemma WholeBuckets(m: nat, words: nat)
    ensures m < words / BUCKET_WORDS <==> (m + 1) * BUCKET_WORDS <= words
  {
  }

  /** The largest index that a mask can give is the mask itself. */
  lemma LargestIndex(m: nat, n: nat)
    requires m < WORD
    ensures (forall h: uint32 :: And(h, m) < n) <==> m < n
  {
    AndSelf(m);
    if forall h: uint32 :: And(h, m) < n {
      assert And(m, m) < n;
    }
  }

  lemma MaskIsLargestIndex(size: nat, rowsize: nat)
    requires 0 < rowsize <= BUCKET_WORDS && 0 < size < WORD
    ensures BucketsFit(size, rowsize) <==> (BucketMask(size, rowsize) + 1) * BUCKET_WORDS <= size * rowsize
  {
    LargestIndex(BucketMask(size, rowsize), BucketsInTable(size, rowsize));
    WholeBuckets(BucketMask(size, rowsize), size * rowsize);
  }

  /** The last bucket, counted up: size rounded up to whole buckets. */
  lemma MaskRoundsUp(size: nat, rowsize: nat)
    requires 0 < rowsize <= BUCKET_WORDS && size > 0
    ensures var e, q := EntriesPerBucket(rowsize), BucketMask(size, rowsize) + 1;
            e > 0 && size <= q * e < size + e
  {
    var e := EntriesPerBucket(rowsize);
    var m := BucketMask(size, rowsize);
    assert size - 1 == m * e + (size - 1) % e;
  }

  lemma EvenRows(rowsize: nat)
    requires 0 < rowsize <= BUCKET_WORDS
    ensures var e := EntriesPerBucket(rowsize);
            e * rowsize <= BUCKET_WORDS && (e * rowsize == BUCKET_WORDS <==> BUCKET_WORDS % rowsize == 0)
  {
    assert BUCKET_WORDS == EntriesPerBucket(rowsize) * rowsize + BUCKET_WORDS % rowsize;
  }

  /**
   The source's sizing puts every bucket inside its own table if and only if the row size
   divides a bucket evenly and the rows fill whole buckets.
   */
  lemma BucketsFitExactlyWhen(size: nat, rowsize: nat)
    requires 0 < rowsize <= BUCKET_WORDS && 0 < size < WORD
    ensures BucketsFit(size, rowsize) <==>
            BUCKET_WORDS % rowsize == 0 && EntriesPerBucket(rowsize) > 0 && size % EntriesPerBucket(rowsize) == 0
  {
    var e, q := EntriesPerBucket(rowsize), BucketMask(size, rowsize) + 1;
    assert BucketsFit(size, rowsize) <==> q * BUCKET_WORDS <= size * rowsize by {
      MaskIsLargestIndex(size, rowsize);
    }
    MaskRoundsUp(size, rowsize);
    EvenRows(rowsize);
    assert q * BUCKET_WORDS <= size * rowsize <==> BUCKET_WORDS % rowsize == 0 && q * e == size by {
      FitsExactlyWhen(size, rowsize, e, q);
    }
    WholeMultiple(size, e, q);
  }

  lemma {:induction false} SixteenDivides(k: nat)
    requires k >= 4
    ensures Pow2(k) % 16 == 0
  {
    if k == 4 {
      assert Pow2(2) == 4;
      assert Pow2(4) == 16;
    } else {
      SixteenDivides(k - 1);
    }
  }

  lemma SmallPowers(k: nat)
    requires k < 4
    ensures Pow2(k) in {1, 2, 4, 8}
  {
    assert Pow2(0) == 1 && Pow2(1) == 2 && Pow2(2) == 4;
    assert Pow2(3) == 8;
  }

  /** For the power-of-two sizes that the source rounds up to, with at least one bucket of rows: the buckets fit if and only if the row size divides 16. */
  lemma PowerOfTwoFitsExactlyWhen(k: nat, rowsize: nat)
    requires 0 < rowsize <= BUCKET_WORDS && EntriesPerBucket(rowsize) <= Pow2(k) < WORD
    ensures BucketsFit(Pow2(k), rowsize) <==> BUCKET_WORDS % rowsize == 0
  {
    BucketsFitExactlyWhen(Pow2(k), rowsize);
    if k >= 4 {
      SixteenDivides(k);
    } else {
      SmallPowers(k);
    }
    if BUCKET_WORDS % rowsize == 0 {
      EvenDivisor(rowsize, Pow2(k));
    }
  }

  lemma EvenDivisor(rowsize: nat, n: nat)
    requires 0 < rowsize <= BUCKET_WORDS && BUCKET_WORDS % rowsize == 0
    requires 0 < EntriesPerBucket(rowsize) <= n && (n % 16 == 0 || n in {1, 2, 4, 8})
    ensures n % EntriesPerBucket(rowsize) == 0
  {
    assert rowsize in {1, 2, 4, 8, 16};
    if rowsize == 1 {
      assert n % 16 == 0;
    } else if rowsize == 2 {
      assert n % 8 == 0;
    } else if rowsize == 4 {
      assert n % 4 == 0;
    } else if rowsize == 8 {
      assert n % 2 == 0;
    }
  }

  lemma FitsExactlyWhen(size: nat, rowsize: nat, e: nat, q: nat)
    requires e > 0 && rowsize > 0 && size > 0 && e * rowsize <= BUCKET_WORDS && size <= q * e
    ensures q * BUCKET_WORDS <= size * rowsize <==> e * rowsize == BUCKET_WORDS && q * e == size
  {
    assert q > 0;
    var slack := BUCKET_WORDS - e * rowsize;
    assert q * BUCKET_WORDS == q * (e * rowsize) + q * slack;
    assert q * (e * rowsize) == (q * e) * rowsize;
    assert (q * e) * rowsize == size * rowsize + (q * e - size) * rowsize;
    if slack > 0 {
      assert q * slack > 0;
    }
    if q * e > size {
      assert (q * e - size) * rowsize > 0;
    }
  }

  lemma Squeeze(x: int, e: nat)
    requires 0 <= x * e < e
    ensures x == 0
  {
  }

  lemma WholeMultiple(size: nat, e: nat, q: nat)
    requires e > 0 && size <= q * e < size + e
    ensures q * e == size <==> size % e == 0
  {
    var d, r := size / e, size % e;
    assert q * e - d * e == (q - d) * e;
    if r == 0 || q * e == size {
      Squeeze(q - d, e);
    }
  }

  /** The shipped configuration, 524288 rows of six words, does not fit. */
  lemma ShippedSizingDoesNotFit()
    ensures !BucketsFit(524288, 6)
  {
    BucketsFitExactlyWhen(524288, 6);
    assert BUCKET_WORDS % 6 == 4;
  }

  /** The map with the source's geometry; well formed exactly when the buckets fit. */
  function Laid(hash: Key -> uint32, alt: uint32 -> uint32, size: nat, rowsize: nat): Hashing
    requires 0 < rowsize <= BUCKET_WORDS && size > 0
  {
    Hashing(hash, alt, (h: uint32) => And(h, BucketMask(size, rowsize)), BucketsInTable(size, rowsize), EntriesPerBucket(rowsize))
  }

  lemma LaidIsOkExactlyWhen(hash: Key -> uint32, alt: uint32 -> uint32, size: nat, rowsize: nat)
    requires 0 < rowsize <= BUCKET_WORDS && 0 < size < WORD
    ensures Laid(hash, alt, size, rowsize).Ok() <==>
            BUCKET_WORDS % rowsize == 0 && EntriesPerBucket(rowsize) > 0 && size % EntriesPerBucket(rowsize) == 0
  {
    BucketsFitExactlyWhen(size, rowsize);
    MaskRoundsUp(size, rowsize);
    var hg := Laid(hash, alt, size, rowsize);
    assert forall h: uint32 :: hg.index(h) == And(h, BucketMask(size, rowsize));
    assert BucketsFit(size, rowsize) ==> And(0, BucketMask(size, rowsize)) < BucketsInTable(size, rowsize);
  }
}
