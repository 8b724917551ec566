/**
 The LRU policy is exact: a bucket holds precisely the sixteen most recently seen distinct
 key words that hash to it.
 */
module LruOrder {
  import opened Machine
  import opened SimdMatch
  import opened AggCache
  import opened AggEvict

  /** The cache after a stream, whatever sketch is behind it. */
  function CacheRun<K(==)>(policy: Policy, fpOf: K -> uint32, c: Cache<K>, stream: seq<K>): (r: Cache<K>)
    requires Shape(c)
    ensures Shape(r) && |r.buckets| == |c.buckets|
    decreases |stream|
  {
    if stream == [] then c
    else
      var n := |stream| - 1;
      Touch(CacheRun(policy, fpOf, c, stream[..n]), policy, fpOf(stream[n]), stream[n]).cache
  }

  /** The cache never depends on the sketch. */
  lemma {:induction false} CacheRunIgnoresSketch<K, S>(upd: (S, K, uint32) -> S, policy: Policy, fpOf: K -> uint32, st: System<K, S>, stream: seq<K>)
    requires Shape(st.cache)
    ensures AggRun(upd, policy, fpOf, st, stream).cache == CacheRun(policy, fpOf, st.cache, stream)
    decreases |stream|
  {
    if stream != [] {
      CacheRunIgnoresSketch(upd, policy, fpOf, st, stream[..|stream| - 1]);
    }
  }

  lemma CacheRunSnoc<K>(policy: Policy, fpOf: K -> uint32, c: Cache<K>, stream: seq<K>, k: K)
    requires Shape(c)
    ensures CacheRun(policy, fpOf, c, stream + [k]) == Touch(CacheRun(policy, fpOf, c, stream), policy, fpOf(k), k).cache
  {
    assert (stream + [k])[..|stream|] == stream;
  }

  /** Number of the last packet whose key word is x, counting from 1; 0 if there is none. */
  function LastSeen<K>(fpOf: K -> uint32, stream: seq<K>, x: uint32): (t: nat)
    ensures t <= |stream|
    ensures t > 0 ==> fpOf(stream[t - 1]) == x
    decreases |stream|
  {
    if stream == [] then 0
    else
      var n := |stream| - 1;
      if fpOf(stream[n]) == x then |stream| else LastSeen(fpOf, stream[..n], x)
  }

  function Seen<K>(fpOf: K -> uint32, stream: seq<K>): set<uint32> {
    set i | 0 <= i < |stream| :: fpOf(stream[i])
  }

  /** The key words of x's bucket seen after x was last seen. */
  function SeenSince<K>(fpOf: K -> uint32, stream: seq<K>, rows: nat, x: uint32): set<uint32>
    requires rows > 0
  {
    set y: uint32 | y in Seen(fpOf, stream) && y % rows == x % rows && LastSeen(fpOf, stream, y) > LastSeen(fpOf, stream, x)
  }

  ghost predicate Cached<K>(bk: Bucket<K>, x: uint32)
    requires BucketShape(bk)
  {
    exists i :: 0 <= i < bk.curpos && bk.fps[i] == x
  }

  /** Clocks are last-seen times, and anything seen but not cached is older than everything in its full bucket. */
  ghost predicate LruBucket<K>(bk: Bucket<K>, b: nat, rows: nat, fpOf: K -> uint32, stream: seq<K>)
    requires rows > 0 && BucketShape(bk)
  {
    && (forall i :: 0 <= i < bk.curpos ==> bk.clocks[i] == LastSeen(fpOf, stream, bk.fps[i]) > 0)
    && (forall x: uint32 :: x % rows == b ==> CachedOrOlder(bk, fpOf, stream, x))
  }

  /** A key word that was seen is cached, or older than everything in its full bucket. */
  ghost predicate CachedOrOlder<K>(bk: Bucket<K>, fpOf: K -> uint32, stream: seq<K>, x: uint32)
    requires BucketShape(bk)
  {
    LastSeen(fpOf, stream, x) > 0 && !Cached(bk, x) ==>
      bk.curpos == LANES && forall i :: 0 <= i < LANES ==> LastSeen(fpOf, stream, x) < bk.clocks[i]
  }

  ghost predicate LruInv<K>(c: Cache<K>, fpOf: K -> uint32, zero: K, stream: seq<K>) {
    && CacheInv(c, fpOf, zero)
    && c.now == |stream|
    && forall b :: 0 <= b < |c.buckets| ==> LruBucket(c.buckets[b], b, |c.buckets|, fpOf, stream)
  }

  lemma LastSeenSnoc<K>(fpOf: K -> uint32, stream: seq<K>, k: K, x: uint32)
    ensures LastSeen(fpOf, stream + [k], x) == if fpOf(k) == x then |stream| + 1 else LastSeen(fpOf, stream, x)
  {
    assert (stream + [k])[..|stream|] == stream;
  }

  /** Clocks of distinct key words that are last-seen times are distinct, so the scan's choice is strictly oldest. */
  lemma OldestIsLeastRecent<K>(fps: seq<uint32>, clocks: seq<uint32>, fpOf: K -> uint32, stream: seq<K>)
    requires 0 < |fps| == |clocks| && |stream| < CLOCK_LIMIT
    requires forall i :: 0 <= i < |fps| ==> clocks[i] == LastSeen(fpOf, stream, fps[i]) > 0
    requires forall i, j :: 0 <= i < j < |fps| ==> fps[i] != fps[j]
    ensures var v := OldestIndex(clocks);
            forall i :: 0 <= i < |fps| && i != v ==> clocks[v] < clocks[i]
  {
    var v := OldestIndex(clocks);
    assert clocks[0] < CLOCK_LIMIT;
    forall i | 0 <= i < |fps| && i != v
      ensures clocks[v] < clocks[i]
    {
      assert fps[v] != fps[i];
      assert clocks[v] != clocks[i];
    }
  }

  /** Full bucket, new key word: the lane given up is the least recently seen one. */
  lemma VictimIsLeastRecent<K>(bk: Bucket<K>, b: nat, rows: nat, fpOf: K -> uint32, zero: K, stream: seq<K>)
    requires rows > 0 && BucketInv(bk, b, rows, fpOf, zero) && LruBucket(bk, b, rows, fpOf, stream)
    requires bk.curpos == LANES && |stream| < CLOCK_LIMIT
    ensures var v := OldestIndex(bk.clocks);
            forall i :: 0 <= i < LANES && i != v ==> LastSeen(fpOf, stream, bk.fps[v]) < LastSeen(fpOf, stream, bk.fps[i])
  {
    OldestIsLeastRecent(bk.fps, bk.clocks, fpOf, stream);
  }

  lemma TouchedBucketStaysLru<K>(bk: Bucket<K>, b: nat, rows: nat, fpOf: K -> uint32, zero: K, stream: seq<K>, k: K, i: nat, val: uint32)
    requires rows > 0 && BucketInv(bk, b, rows, fpOf, zero) && LruBucket(bk, b, rows, fpOf, stream)
    requires fpOf(k) % rows == b && |stream| < CLOCK_LIMIT && i < LANES && i <= bk.curpos
    requires forall j :: 0 <= j < bk.curpos && j != i ==> bk.fps[j] != fpOf(k)
    requires if Cached(bk, fpOf(k)) then i < bk.curpos && bk.fps[i] == fpOf(k)
             else if bk.curpos < LANES then i == bk.curpos
             else i == OldestIndex(bk.clocks)
    ensures LruBucket(Refill(bk, i, fpOf(k), k, val, |stream| + 1), b, rows, fpOf, stream + [k])
  {
    var x0, n := fpOf(k), |stream|;
    var bk' := Refill(bk, i, x0, k, val, n + 1);
    forall j | 0 <= j < bk'.curpos
      ensures bk'.clocks[j] == LastSeen(fpOf, stream + [k], bk'.fps[j]) > 0
    {
      LastSeenSnoc(fpOf, stream, k, bk'.fps[j]);
    }
    forall x: uint32 | x % rows == b
      ensures CachedOrOlder(bk', fpOf, stream + [k], x)
    {
      LastSeenSnoc(fpOf, stream, k, x);
      assert bk'.fps[i] == x0;
      if x != x0 && LastSeen(fpOf, stream, x) > 0 && !Cached(bk', x) {
        LeavesOldest(bk, b, rows, fpOf, zero, stream, k, i, val, x);
      }
    }
  }

  /** A key word missing after the packet was already older than its full bucket, or was the victim. */
  lemma LeavesOldest<K>(bk: Bucket<K>, b: nat, rows: nat, fpOf: K -> uint32, zero: K, stream: seq<K>, k: K, i: nat, val: uint32, x: uint32)
    requires rows > 0 && BucketInv(bk, b, rows, fpOf, zero) && LruBucket(bk, b, rows, fpOf, stream)
    requires |stream| < CLOCK_LIMIT && i < LANES && i <= bk.curpos
    requires if Cached(bk, fpOf(k)) then i < bk.curpos && bk.fps[i] == fpOf(k)
             else if bk.curpos < LANES then i == bk.curpos
             else i == OldestIndex(bk.clocks)
    requires x % rows == b && x != fpOf(k) && LastSeen(fpOf, stream, x) > 0
    requires !Cached(Refill(bk, i, fpOf(k), k, val, |stream| + 1), x)
    ensures bk.curpos == LANES && forall j :: 0 <= j < LANES && j != i ==> LastSeen(fpOf, stream, x) < bk.clocks[j]
  {
    assert CachedOrOlder(bk, fpOf, stream, x);
    if Cached(bk, x) {
      var p :| 0 <= p < bk.curpos && bk.fps[p] == x;
      var bk' := Refill(bk, i, fpOf(k), k, val, |stream| + 1);
      assert bk'.fps[p] == if p == i then fpOf(k) else x;
      VictimIsLeastRecent(bk, b, rows, fpOf, zero, stream);
    }
  }

  lemma TouchKeepsLru<K>(c: Cache<K>, fpOf: K -> uint32, zero: K, stream: seq<K>, k: K)
    requires LruInv(c, fpOf, zero, stream) && fpOf(k) != 0 && |stream| < CLOCK_LIMIT
    ensures LruInv(Touch(c, LRU, fpOf(k), k).cache, fpOf, zero, stream + [k])
  {
    InvIsSound(c, fpOf, zero);
    var i, val, time := TouchLane(c, LRU, fpOf, zero, k);
    Add32Small(c.now, 1);
    TouchKeepsInv(c, LRU, fpOf, zero, k);
    RefilledCacheStaysLru(c, fpOf, zero, stream, k, i, val);
  }

  lemma RefilledCacheStaysLru<K>(c: Cache<K>, fpOf: K -> uint32, zero: K, stream: seq<K>, k: K, i: nat, val: uint32)
    requires LruInv(c, fpOf, zero, stream) && |stream| < CLOCK_LIMIT
    requires var bk := c.buckets[fpOf(k) % |c.buckets|];
             && i < LANES && i <= bk.curpos
             && (forall j :: 0 <= j < bk.curpos && j != i ==> bk.fps[j] != fpOf(k))
             && if Cached(bk, fpOf(k)) then i < bk.curpos && bk.fps[i] == fpOf(k)
                else if bk.curpos < LANES then i == bk.curpos
                else i == OldestIndex(bk.clocks)
    ensures var b := fpOf(k) % |c.buckets|;
            var bs := c.buckets[b := Refill(c.buckets[b], i, fpOf(k), k, val, |stream| + 1)];
            forall d :: 0 <= d < |bs| ==> LruBucket(bs[d], d, |bs|, fpOf, stream + [k])
  {
    var rows := |c.buckets|;
    var b := fpOf(k) % rows;
    forall d | 0 <= d < rows
      ensures LruBucket(if d == b then Refill(c.buckets[b], i, fpOf(k), k, val, |stream| + 1) else c.buckets[d], d, rows, fpOf, stream + [k])
    {
      assert LruBucket(c.buckets[d], d, rows, fpOf, stream) && BucketInv(c.buckets[d], d, rows, fpOf, zero);
      if d == b {
        TouchedBucketStaysLru(c.buckets[d], d, rows, fpOf, zero, stream, k, i, val);
      } else {
        OtherBucketStaysLru(c.buckets[d], d, rows, fpOf, zero, stream, k);
      }
    }
  }

  lemma OtherBucketStaysLru<K>(bk: Bucket<K>, d: nat, rows: nat, fpOf: K -> uint32, zero: K, stream: seq<K>, k: K)
    requires rows > 0 && BucketInv(bk, d, rows, fpOf, zero) && LruBucket(bk, d, rows, fpOf, stream)
    requires fpOf(k) % rows != d
    ensures LruBucket(bk, d, rows, fpOf, stream + [k])
  {
    forall i | 0 <= i < bk.curpos
      ensures bk.clocks[i] == LastSeen(fpOf, stream + [k], bk.fps[i]) > 0
    {
      LastSeenSnoc(fpOf, stream, k, bk.fps[i]);
    }
    forall x: uint32 | x % rows == d
      ensures CachedOrOlder(bk, fpOf, stream + [k], x)
    {
      LastSeenSnoc(fpOf, stream, k, x);
      assert CachedOrOlder(bk, fpOf, stream, x);
    }
  }

  lemma EmptyIsLru<K>(fpOf: K -> uint32, zero: K, rows: nat)
    requires rows > 0
    ensures LruInv(EmptyCache(rows, zero), fpOf, zero, [])
  {
    EmptyCacheInv(rows, fpOf, zero);
  }

  lemma LruSnoc<K>(fpOf: K -> uint32, zero: K, rows: nat, stream: seq<K>, k: K)
    requires rows > 0 && |stream| < CLOCK_LIMIT && fpOf(k) != 0
    requires LruInv(CacheRun(LRU, fpOf, EmptyCache(rows, zero), stream), fpOf, zero, stream)
    ensures LruInv(CacheRun(LRU, fpOf, EmptyCache(rows, zero), stream + [k]), fpOf, zero, stream + [k])
  {
    CacheRunSnoc(LRU, fpOf, EmptyCache(rows, zero), stream, k);
    TouchKeepsLru(CacheRun(LRU, fpOf, EmptyCache(rows, zero), stream), fpOf, zero, stream, k);
  }

  lemma {:induction false} LruRun<K>(fpOf: K -> uint32, zero: K, rows: nat, stream: seq<K>)
    requires rows > 0 && |stream| <= CLOCK_LIMIT
    requires forall i :: 0 <= i < |stream| ==> fpOf(stream[i]) != 0
    ensures LruInv(CacheRun(LRU, fpOf, EmptyCache(rows, zero), stream), fpOf, zero, stream)
    decreases |stream|
  {
    if stream == [] {
      EmptyIsLru(fpOf, zero, rows);
    } else {
      var n := |stream| - 1;
      LruRun(fpOf, zero, rows, stream[..n]);
      LruSnoc(fpOf, zero, rows, stream[..n], stream[n]);
      assert stream[..n] + [stream[n]] == stream;
    }
  }

  /** The first n key words, as a set. */
  function FpSet(fps: seq<uint32>, n: nat): set<uint32>
    requires n <= |fps|
  {
    if n == 0 then {} else FpSet(fps, n - 1) + {fps[n - 1]}
  }

  lemma {:induction false} InFpSet(fps: seq<uint32>, n: nat, x: uint32)
    requires n <= |fps|
    ensures x in FpSet(fps, n) <==> exists i :: 0 <= i < n && fps[i] == x
  {
    if n > 0 {
      InFpSet(fps, n - 1, x);
    }
  }

  lemma {:induction false} FpSetSize(fps: seq<uint32>, n: nat)
    requires n <= |fps| && forall i, j :: 0 <= i < j < n ==> fps[i] != fps[j]
    ensures |FpSet(fps, n)| == n
  {
    if n > 0 {
      FpSetSize(fps, n - 1);
      InFpSet(fps, n - 1, fps[n - 1]);
    }
  }

  lemma SubsetSize(a: set<uint32>, b: set<uint32>)
    requires a <= b
    ensures |a| <= |b|
  {
    assert b == a + (b - a);
  }

  /**
   After every stream of at most 2^30 packets, a key word is cached exactly when it has been
   seen and fewer than sixteen distinct key words of its bucket have been seen since.
   */
  lemma LruKeepsSixteenMostRecent<K>(fpOf: K -> uint32, zero: K, rows: nat, stream: seq<K>, x: uint32)
    requires rows > 0 && |stream| <= CLOCK_LIMIT
    requires forall i :: 0 <= i < |stream| ==> fpOf(stream[i]) != 0
    ensures var bk := CacheRun(LRU, fpOf, EmptyCache(rows, zero), stream).buckets[x % rows];
            Cached(bk, x) <==> LastSeen(fpOf, stream, x) > 0 && |SeenSince(fpOf, stream, rows, x)| < LANES
  {
    LruRun(fpOf, zero, rows, stream);
    var c := CacheRun(LRU, fpOf, EmptyCache(rows, zero), stream);
    var b := x % rows;
    var bk := c.buckets[b];
    assert BucketInv(bk, b, rows, fpOf, zero) && LruBucket(bk, b, rows, fpOf, stream);
    BucketIsTopSixteen(bk, b, rows, fpOf, zero, stream, x);
  }

  lemma BucketIsTopSixteen<K>(bk: Bucket<K>, b: nat, rows: nat, fpOf: K -> uint32, zero: K, stream: seq<K>, x: uint32)
    requires rows > 0 && BucketInv(bk, b, rows, fpOf, zero) && LruBucket(bk, b, rows, fpOf, stream) && b == x % rows
    ensures Cached(bk, x) <==> LastSeen(fpOf, stream, x) > 0 && |SeenSince(fpOf, stream, rows, x)| < LANES
  {
    var all, since := FpSet(bk.fps, bk.curpos), SeenSince(fpOf, stream, rows, x);
    FpSetSize(bk.fps, bk.curpos);
    if Cached(bk, x) {
      InFpSet(bk.fps, bk.curpos, x);
      forall y | y in since
        ensures y in all - {x}
      {
        assert CachedOrOlder(bk, fpOf, stream, y);
        assert LastSeen(fpOf, stream, y) > 0 && Cached(bk, y);
        InFpSet(bk.fps, bk.curpos, y);
      }
      SubsetSize(since, all - {x});
    } else if LastSeen(fpOf, stream, x) > 0 {
      assert CachedOrOlder(bk, fpOf, stream, x);
      forall y | y in all
        ensures y in since
      {
        InFpSet(bk.fps, bk.curpos, y);
        var i :| 0 <= i < bk.curpos && bk.fps[i] == y;
        assert fpOf(stream[LastSeen(fpOf, stream, y) - 1]) == y;
      }
      SubsetSize(all, since);
    }
  }

  // ---------- Beyond 2^30 packets ----------

  /** Clocks are last-seen times. */
  ghost predicate ClockBucket<K>(bk: Bucket<K>, fpOf: K -> uint32, stream: seq<K>)
    requires BucketShape(bk)
  {
    forall i :: 0 <= i < bk.curpos ==> bk.clocks[i] == LastSeen(fpOf, stream, bk.fps[i]) > 0
  }

  ghost predicate ClockInv<K>(c: Cache<K>, fpOf: K -> uint32, zero: K, stream: seq<K>) {
    && CacheInv(c, fpOf, zero) && c.now == |stream|
    && forall b :: 0 <= b < |c.buckets| ==> ClockBucket(c.buckets[b], fpOf, stream)
  }

  lemma OtherClocksStay<K>(bk: Bucket<K>, b: nat, rows: nat, fpOf: K -> uint32, zero: K, stream: seq<K>, k: K)
    requires rows > 0 && BucketInv(bk, b, rows, fpOf, zero) && ClockBucket(bk, fpOf, stream) && fpOf(k) % rows != b
    ensures ClockBucket(bk, fpOf, stream + [k])
  {
    forall i | 0 <= i < bk.curpos
      ensures bk.clocks[i] == LastSeen(fpOf, stream + [k], bk.fps[i]) > 0
    {
      LastSeenSnoc(fpOf, stream, k, bk.fps[i]);
    }
  }

  lemma RefilledClocks<K>(bk: Bucket<K>, fpOf: K -> uint32, stream: seq<K>, k: K, i: nat, val: uint32)
    requires BucketShape(bk) && ClockBucket(bk, fpOf, stream) && i < LANES && i <= bk.curpos && |stream| + 1 < WORD
    requires forall j :: 0 <= j < bk.curpos && j != i ==> bk.fps[j] != fpOf(k)
    ensures ClockBucket(Refill(bk, i, fpOf(k), k, val, |stream| + 1), fpOf, stream + [k])
  {
    var bk' := Refill(bk, i, fpOf(k), k, val, |stream| + 1);
    forall j | 0 <= j < bk'.curpos
      ensures bk'.clocks[j] == LastSeen(fpOf, stream + [k], bk'.fps[j]) > 0
    {
      LastSeenSnoc(fpOf, stream, k, bk'.fps[j]);
    }
  }

  lemma TouchKeepsClocks<K>(c: Cache<K>, fpOf: K -> uint32, zero: K, stream: seq<K>, k: K)
    requires ClockInv(c, fpOf, zero, stream) && fpOf(k) != 0 && |stream| + 1 < WORD
    ensures ClockInv(Touch(c, LRU, fpOf(k), k).cache, fpOf, zero, stream + [k])
  {
    InvIsSound(c, fpOf, zero);
    var i, val, time := TouchLane(c, LRU, fpOf, zero, k);
    TouchKeepsInv(c, LRU, fpOf, zero, k);
    var rows, b, c' := |c.buckets|, fpOf(k) % |c.buckets|, Touch(c, LRU, fpOf(k), k).cache;
    Add32Small(c.now, 1);
    forall d | 0 <= d < rows
      ensures ClockBucket(c'.buckets[d], fpOf, stream + [k])
    {
      assert ClockBucket(c.buckets[d], fpOf, stream) && BucketInv(c.buckets[d], d, rows, fpOf, zero);
      if d == b {
        RefilledClocks(c.buckets[d], fpOf, stream, k, i, val);
      } else {
        OtherClocksStay(c.buckets[d], d, rows, fpOf, zero, stream, k);
      }
    }
  }

  lemma EmptyClocks<K>(fpOf: K -> uint32, zero: K, rows: nat)
    requires rows > 0
    ensures ClockInv(EmptyCache(rows, zero), fpOf, zero, [])
  {
    EmptyCacheInv(rows, fpOf, zero);
  }

  lemma ClockSnoc<K>(fpOf: K -> uint32, zero: K, rows: nat, stream: seq<K>, k: K)
    requires rows > 0 && |stream| + 1 < WORD && fpOf(k) != 0
    requires ClockInv(CacheRun(LRU, fpOf, EmptyCache(rows, zero), stream), fpOf, zero, stream)
    ensures ClockInv(CacheRun(LRU, fpOf, EmptyCache(rows, zero), stream + [k]), fpOf, zero, stream + [k])
  {
    CacheRunSnoc(LRU, fpOf, EmptyCache(rows, zero), stream, k);
    TouchKeepsClocks(CacheRun(LRU, fpOf, EmptyCache(rows, zero), stream), fpOf, zero, stream, k);
  }

  /** On every stream below 2^32 packets the clocks are last-seen times, whatever is evicted. */
  lemma {:induction false} ClockRun<K>(fpOf: K -> uint32, zero: K, rows: nat, stream: seq<K>)
    requires rows > 0 && |stream| < WORD
    requires forall i :: 0 <= i < |stream| ==> fpOf(stream[i]) != 0
    ensures ClockInv(CacheRun(LRU, fpOf, EmptyCache(rows, zero), stream), fpOf, zero, stream)
    decreases |stream|
  {
    if stream == [] {
      EmptyClocks(fpOf, zero, rows);
    } else {
      var n := |stream| - 1;
      ClockRun(fpOf, zero, rows, stream[..n]);
      ClockSnoc(fpOf, zero, rows, stream[..n], stream[n]);
      assert stream[..n] + [stream[n]] == stream;
    }
  }

  ghost predicate LeastRecent<K>(bk: Bucket<K>, fpOf: K -> uint32, stream: seq<K>, v: nat)
    requires BucketShape(bk) && v < LANES
  {
    forall i :: 0 <= i < LANES ==> LastSeen(fpOf, stream, bk.fps[v]) <= LastSeen(fpOf, stream, bk.fps[i])
  }

  /** Lane v is the least recent if and only if some lane was last seen before packet 2^30 or lane 0 is the least recent. */
  ghost predicate LeastRecentExactlyWhen<K>(bk: Bucket<K>, fpOf: K -> uint32, stream: seq<K>, v: nat)
    requires BucketShape(bk) && v < LANES
  {
    LeastRecent(bk, fpOf, stream, v) <==>
    (exists i :: 0 <= i < LANES && LastSeen(fpOf, stream, bk.fps[i]) < CLOCK_LIMIT) || LeastRecent(bk, fpOf, stream, 0)
  }

  lemma FallsBackToLaneZero<K>(bk: Bucket<K>, fpOf: K -> uint32, stream: seq<K>)
    requires BucketShape(bk) && ClockBucket(bk, fpOf, stream) && bk.curpos == LANES
    ensures LeastRecentExactlyWhen(bk, fpOf, stream, OldestIndex(bk.clocks))
  {
    var v := OldestIndex(bk.clocks);
    assert forall i :: 0 <= i < LANES ==> bk.clocks[i] == LastSeen(fpOf, stream, bk.fps[i]);
    if exists i :: 0 <= i < LANES && bk.clocks[i] < CLOCK_LIMIT {
      assert LeastRecent(bk, fpOf, stream, v);
    } else {
      assert v == 0;
    }
  }

  lemma VictimInCache<K>(c: Cache<K>, fpOf: K -> uint32, zero: K, stream: seq<K>, b: nat)
    requires ClockInv(c, fpOf, zero, stream) && b < |c.buckets| && c.buckets[b].curpos == LANES
    ensures LeastRecentExactlyWhen(c.buckets[b], fpOf, stream, VictimLane(LRU, c.curkick, c.buckets[b]))
  {
    assert ClockBucket(c.buckets[b], fpOf, stream);
    FallsBackToLaneZero(c.buckets[b], fpOf, stream);
  }

  /**
   The exact scope of LRU: after every stream below 2^32 packets, the lane that a full bucket
   gives up is the least recently seen one if and only if some lane was last seen before
   packet 2^30, or lane 0 happens to be the least recent.
   */
  lemma VictimIsLeastRecentExactlyWhen<K>(fpOf: K -> uint32, zero: K, rows: nat, stream: seq<K>, b: nat)
    requires b < rows && |stream| < WORD
    requires forall i :: 0 <= i < |stream| ==> fpOf(stream[i]) != 0
    requires CacheRun(LRU, fpOf, EmptyCache(rows, zero), stream).buckets[b].curpos == LANES
    ensures var c := CacheRun(LRU, fpOf, EmptyCache(rows, zero), stream);
            LeastRecentExactlyWhen(c.buckets[b], fpOf, stream, VictimLane(LRU, c.curkick, c.buckets[b]))
  {
    ClockRun(fpOf, zero, rows, stream);
    VictimInCache(CacheRun(LRU, fpOf, EmptyCache(rows, zero), stream), fpOf, zero, stream, b);
  }

  // ---------- A stream on which LRU evicts the most recent flow ----------

  /** Flow 1 n times, then flows 2 to j + 1 once each. */
  function Warm(n: nat, j: nat): seq<uint32>
    requires j <= 15
  {
    seq(n, _ => 1) + seq(j, i => i + 2)
  }

  function Bucket0(stream: seq<uint32>): (bk: Bucket<uint32>)
    ensures BucketShape(bk)
  {
    CacheRun(LRU, SelfKey(), EmptyCache<uint32>(1, 0), stream).buckets[0]
  }

  ghost predicate Filled(bk: Bucket<uint32>, n: nat) {
    BucketShape(bk) && bk.curpos == n && forall i :: 0 <= i < n ==> bk.fps[i] == i + 1
  }

  /** One more packet: of a cached flow, or of the next one while there is a free lane. */
  lemma FillTouch(c: Cache<uint32>, n: nat, k: uint32)
    requires CacheInv(c, SelfKey(), 0) && |c.buckets| == 1 && Filled(c.buckets[0], n) && k != 0
    requires k <= n || (k == n + 1 && n < LANES)
    ensures Filled(Touch(c, LRU, k, k).cache.buckets[0], if k <= n then n else n + 1)
  {
    InvIsSound(c, SelfKey(), 0);
    var i, val, time := TouchLane(c, LRU, SelfKey(), 0, k);
    if k <= n {
      assert c.buckets[0].fps[k - 1] == k;
    }
  }

  lemma FillStep(stream: seq<uint32>, n: nat, k: uint32)
    requires |stream| < WORD && (forall i :: 0 <= i < |stream| ==> stream[i] != 0) && Filled(Bucket0(stream), n) && k != 0
    requires k <= n || (k == n + 1 && n < LANES)
    ensures Filled(Bucket0(stream + [k]), if k <= n then n else n + 1)
  {
    assert CacheInv(CacheRun(LRU, SelfKey(), EmptyCache<uint32>(1, 0), stream), SelfKey(), 0) by {
      ClockRun(SelfKey(), 0, 1, stream);
    }
    FillTouch(CacheRun(LRU, SelfKey(), EmptyCache<uint32>(1, 0), stream), n, k);
    CacheRunSnoc(LRU, SelfKey(), EmptyCache<uint32>(1, 0), stream, k);
  }

  lemma {:induction false} OneFlowRun(n: nat)
    requires 0 < n < WORD
    ensures Filled(Bucket0(Warm(n, 0)), 1)
  {
    assert Warm(n, 0) == Warm(n - 1, 0) + [1];
    if n == 1 {
      EmptyBucketIsFilled();
      assert Warm(0, 0) == [];
      FillStep([], 0, 1);
    } else {
      OneFlowRun(n - 1);
      FillStep(Warm(n - 1, 0), 1, 1);
    }
  }

  lemma EmptyBucketIsFilled()
    ensures Filled(Bucket0([]), 0)
  {
  }

  lemma {:induction false} WarmRun(n: nat, j: nat)
    requires 0 < n < WORD - 20 && j <= 15
    ensures Filled(Bucket0(Warm(n, j)), j + 1)
    decreases j
  {
    if j == 0 {
      OneFlowRun(n);
    } else {
      WarmRun(n, j - 1);
      assert Warm(n, j) == Warm(n, j - 1) + [j + 1];
      FillStep(Warm(n, j - 1), j, j + 1);
    }
  }

  lemma {:induction false} LastSeenAtLeast<K>(fpOf: K -> uint32, stream: seq<K>, x: uint32, t: nat)
    requires 0 < t <= |stream| && fpOf(stream[t - 1]) == x
    ensures LastSeen(fpOf, stream, x) >= t
    decreases |stream|
  {
    if t < |stream| {
      LastSeenAtLeast(fpOf, stream[..|stream| - 1], x, t);
    }
  }

  /** After 2^30 packets of flow 1, one each of flows 2 to 16, and one more of flow 1, a packet of flow 17 evicts flow 1, the most recent of all. */
  lemma MostRecentIsEvicted()
    ensures var stream := Warm(CLOCK_LIMIT, 15) + [1];
            var c := CacheRun(LRU, SelfKey(), EmptyCache<uint32>(1, 0), stream);
            && LastSeen(SelfKey(), stream, 1) == |stream|
            && Touch(c, LRU, 17, 17).victim.Some? && Touch(c, LRU, 17, 17).victim.value.id == 1
  {
    var stream := Warm(CLOCK_LIMIT, 15) + [1];
    WarmRun(CLOCK_LIMIT, 15);
    FillStep(Warm(CLOCK_LIMIT, 15), 16, 1);
    ClockRun(SelfKey(), 0, 1, stream);
    var c := CacheRun(LRU, SelfKey(), EmptyCache<uint32>(1, 0), stream);
    var bk := c.buckets[0];
    assert ClockBucket(bk, SelfKey(), stream) && BucketInv(bk, 0, 1, SelfKey(), 0);
    forall i | 0 <= i < LANES
      ensures bk.clocks[i] >= CLOCK_LIMIT
    {
      var t := if i == 0 then |stream| else CLOCK_LIMIT + i;
      assert stream[t - 1] == i + 1;
      LastSeenAtLeast(SelfKey(), stream, bk.fps[i], t);
    }
    assert OldestIndex(bk.clocks) == 0;
    LastSeenAtLeast(SelfKey(), stream, 1, |stream|);
  }
}
