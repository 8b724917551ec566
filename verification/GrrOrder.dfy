/**
 The global round-robin policy goes round: the evictions from full buckets, counted over all
 buckets, give up the lanes 0, 1, ..., 15, 0, 1, ... in turn.
 */
module GrrOrder {
  import opened Machine
  import opened SimdMatch
  import opened AggCache
  import LruOrder

  predicate StepAt<K(==)>(fpOf: K -> uint32, stream: seq<K>, tr: seq<Cache<K>>, i: nat)
    requires |tr| == |stream| + 1 && i < |stream| && Shape(tr[i])
  {
    tr[i + 1] == Touch(tr[i], GRR, fpOf(stream[i]), stream[i]).cache
  }

  /** The caches before, between and after the packets of a stream, with the cursor at lane 0 to begin with. */
  ghost predicate Run<K>(fpOf: K -> uint32, rows: nat, stream: seq<K>, tr: seq<Cache<K>>) {
    && rows > 0 && |tr| == |stream| + 1 && tr[0].curkick == 0
    && (forall i :: 0 <= i <= |stream| ==> Shape(tr[i]) && |tr[i].buckets| == rows)
    && forall i :: 0 <= i < |stream| ==> StepAt(fpOf, stream, tr, i)
  }

  /** The caches of every stream, from the empty cache on, form such a run. */
  lemma RunOfStream<K>(fpOf: K -> uint32, zero: K, rows: nat, stream: seq<K>) returns (tr: seq<Cache<K>>)
    requires rows > 0
    ensures Run(fpOf, rows, stream, tr)
    ensures forall i :: 0 <= i <= |stream| ==> tr[i] == LruOrder.CacheRun(GRR, fpOf, EmptyCache(rows, zero), stream[..i])
  {
    var empty := EmptyCache(rows, zero);
    tr := seq(|stream| + 1, i requires 0 <= i <= |stream| => LruOrder.CacheRun(GRR, fpOf, empty, stream[..i]));
    forall i | 0 <= i < |stream|
      ensures StepAt(fpOf, stream, tr, i)
    {
      LruOrder.CacheRunSnoc(GRR, fpOf, empty, stream[..i], stream[i]);
      assert stream[..i + 1] == stream[..i] + [stream[i]];
    }
  }

  function BucketOf<K>(c: Cache<K>, fp: uint32): (bk: Bucket<K>)
    requires Shape(c)
    ensures BucketShape(bk)
  {
    c.buckets[fp % |c.buckets|]
  }

  /** The key word is in no lane of its bucket, and the bucket is full. */
  predicate Kicks<K>(c: Cache<K>, fp: uint32) {
    Shape(c) && BucketOf(c, fp).curpos == LANES && fp !in BucketOf(c, fp).fps
  }

  /** Does packet i of the stream evict from a full bucket? */
  predicate KicksAt<K>(fpOf: K -> uint32, stream: seq<K>, tr: seq<Cache<K>>, i: nat)
    requires |tr| == |stream| + 1 && i < |stream|
  {
    Kicks(tr[i], fpOf(stream[i]))
  }

  /** Evictions from full buckets among the first i packets, whatever their buckets. */
  function KickCount<K>(fpOf: K -> uint32, stream: seq<K>, tr: seq<Cache<K>>, i: nat): nat
    requires |tr| == |stream| + 1 && i <= |stream|
  {
    if i == 0 then 0
    else KickCount(fpOf, stream, tr, i - 1) + if KicksAt(fpOf, stream, tr, i - 1) then 1 else 0
  }

  /** What an eviction from lane v does. */
  ghost predicate GivesUp<K>(c: Cache<K>, fp: uint32, id: K, v: nat)
    requires Shape(c) && v < LANES
  {
    var b, bk := fp % |c.buckets|, BucketOf(c, fp);
    var r := Touch(c, GRR, fp, id);
    && r.victim == Some(Entry(bk.ids[v], bk.vals[v]))
    && r.cache.buckets == c.buckets[b := Bucket(bk.fps[v := fp], bk.ids[v := id], bk.vals[v := 1], bk.clocks, LANES)]
  }

  lemma KickStep<K>(c: Cache<K>, fp: uint32, id: K)
    requires Shape(c)
    ensures var r := Touch(c, GRR, fp, id);
            if Kicks(c, fp) then GivesUp(c, fp, id, c.curkick) && r.cache.curkick == (c.curkick + 1) % LANES
            else r.cache.curkick == c.curkick
  {
    var bk := BucketOf(c, fp);
    var v := c.curkick;
    assert bk.clocks[v := bk.clocks[v]] == bk.clocks;
    var m := FirstIndex(bk.fps, fp);
    assert m < LANES ==> bk.fps[m] in bk.fps;
    assert fp in bk.fps ==> m < LANES;
  }

  lemma ModSucc(n: nat)
    ensures (n % LANES + 1) % LANES == (n + 1) % LANES
  {
  }

  lemma CursorStep<K>(c: Cache<K>, fp: uint32, id: K, n: nat)
    requires Shape(c) && c.curkick == n % LANES
    ensures Touch(c, GRR, fp, id).cache.curkick == (n + if Kicks(c, fp) then 1 else 0) % LANES
  {
    KickStep(c, fp, id);
    ModSucc(n);
  }

  lemma {:induction false} CursorIsKickCount<K>(fpOf: K -> uint32, rows: nat, stream: seq<K>, tr: seq<Cache<K>>, i: nat)
    requires Run(fpOf, rows, stream, tr) && i <= |stream|
    ensures tr[i].curkick == KickCount(fpOf, stream, tr, i) % LANES
  {
    if i > 0 {
      CursorIsKickCount(fpOf, rows, stream, tr, i - 1);
      assert StepAt(fpOf, stream, tr, i - 1);
      CursorStep(tr[i - 1], fpOf(stream[i - 1]), stream[i - 1], KickCount(fpOf, stream, tr, i - 1));
    }
  }

  /** On every run from the empty cache, the n-th eviction from a full bucket hands out what lane n % 16 of its bucket held. */
  lemma KicksGoRound<K>(fpOf: K -> uint32, rows: nat, stream: seq<K>, tr: seq<Cache<K>>, i: nat)
    requires Run(fpOf, rows, stream, tr) && i < |stream| && KicksAt(fpOf, stream, tr, i)
    ensures GivesUp(tr[i], fpOf(stream[i]), stream[i], KickCount(fpOf, stream, tr, i) % 16)
  {
    CursorIsKickCount(fpOf, rows, stream, tr, i);
    KickStep(tr[i], fpOf(stream[i]), stream[i]);
  }

  // ---------- A newcomer stays for fifteen evictions ----------

  ghost predicate OnlyFlow<K(!new)>(fpOf: K -> uint32, id: K) {
    forall k :: fpOf(k) == fpOf(id) ==> k == id
  }

  /** Lane v of the full bucket b has the flow's key word, and the flow itself if no other one shares it. */
  ghost predicate Holds<K(!new)>(c: Cache<K>, b: nat, v: nat, fpOf: K -> uint32, id: K) {
    && Shape(c) && b < |c.buckets| && v < LANES
    && c.buckets[b].curpos == LANES && c.buckets[b].fps[v] == fpOf(id)
    && (OnlyFlow(fpOf, id) ==> c.buckets[b].ids[v] == id)
  }

  lemma KickHolds<K(!new)>(c: Cache<K>, v: nat, fpOf: K -> uint32, id: K)
    requires Shape(c) && v < LANES && GivesUp(c, fpOf(id), id, v)
    ensures Holds(Touch(c, GRR, fpOf(id), id).cache, fpOf(id) % |c.buckets|, v, fpOf, id)
  {
  }

  /** Only an eviction whose turn it is takes the lane. */
  lemma StillHolds<K(!new)>(c: Cache<K>, b: nat, v: nat, fpOf: K -> uint32, id: K, k: K)
    requires Holds(c, b, v, fpOf, id) && !(Kicks(c, fpOf(k)) && c.curkick == v)
    ensures Holds(Touch(c, GRR, fpOf(k), k).cache, b, v, fpOf, id)
  {
    KickStep(c, fpOf(k), k);
    var bk := BucketOf(c, fpOf(k));
    var m := FirstIndex(bk.fps, fpOf(k));
    assert m < LANES ==> bk.fps[m] in bk.fps;
  }

  lemma {:induction false} KickCountGrows<K>(fpOf: K -> uint32, stream: seq<K>, tr: seq<Cache<K>>, i: nat, j: nat)
    requires |tr| == |stream| + 1 && i <= j <= |stream|
    ensures KickCount(fpOf, stream, tr, i) <= KickCount(fpOf, stream, tr, j)
    decreases j
  {
    if i < j {
      KickCountGrows(fpOf, stream, tr, i, j - 1);
    }
  }

  lemma OtherTurn(n: nat, m: nat)
    requires n < m < n + LANES
    ensures n % LANES != m % LANES
  {
  }

  /** The key word that entered by an eviction stays in its lane until the sixteenth eviction after it. */
  lemma {:induction false} NewcomerStays<K(!new)>(fpOf: K -> uint32, rows: nat, stream: seq<K>, tr: seq<Cache<K>>, i: nat, j: nat)
    requires Run(fpOf, rows, stream, tr) && i < j <= |stream| && KicksAt(fpOf, stream, tr, i)
    requires KickCount(fpOf, stream, tr, j) <= KickCount(fpOf, stream, tr, i) + 16
    ensures Holds(tr[j], fpOf(stream[i]) % rows, KickCount(fpOf, stream, tr, i) % 16, fpOf, stream[i])
    decreases j
  {
    var n := KickCount(fpOf, stream, tr, i);
    if j == i + 1 {
      KicksGoRound(fpOf, rows, stream, tr, i);
      assert StepAt(fpOf, stream, tr, i);
      KickHolds(tr[i], n % 16, fpOf, stream[i]);
    } else {
      NewcomerStays(fpOf, rows, stream, tr, i, j - 1);
      NotItsTurn(fpOf, rows, stream, tr, i, j);
      assert StepAt(fpOf, stream, tr, j - 1);
      StillHolds(tr[j - 1], fpOf(stream[i]) % rows, n % 16, fpOf, stream[i], stream[j - 1]);
    }
  }

  lemma NotItsTurn<K>(fpOf: K -> uint32, rows: nat, stream: seq<K>, tr: seq<Cache<K>>, i: nat, j: nat)
    requires Run(fpOf, rows, stream, tr) && i + 1 < j <= |stream| && KicksAt(fpOf, stream, tr, i)
    requires KickCount(fpOf, stream, tr, j) <= KickCount(fpOf, stream, tr, i) + 16
    ensures KickCount(fpOf, stream, tr, j - 1) <= KickCount(fpOf, stream, tr, j)
    ensures KicksAt(fpOf, stream, tr, j - 1) ==>
              tr[j - 1].curkick != KickCount(fpOf, stream, tr, i) % 16
  {
    if KicksAt(fpOf, stream, tr, j - 1) {
      var n, m := KickCount(fpOf, stream, tr, i), KickCount(fpOf, stream, tr, j - 1);
      KickCountGrows(fpOf, stream, tr, i + 1, j - 1);
      OtherTurn(n, m);
      CursorIsKickCount(fpOf, rows, stream, tr, j - 1);
    }
  }

  // ---------- First in, first out ----------

  /**
   If the sixteenth eviction after one falls on the same bucket, it gives up what that one brought
   in; with a single bucket the order of leaving is therefore the order of entering.
   */
  lemma FirstInFirstOut<K(!new)>(fpOf: K -> uint32, rows: nat, stream: seq<K>, tr: seq<Cache<K>>, i: nat, j: nat)
    requires Run(fpOf, rows, stream, tr) && i < j < |stream| && KicksAt(fpOf, stream, tr, i) && KicksAt(fpOf, stream, tr, j)
    requires KickCount(fpOf, stream, tr, j) == KickCount(fpOf, stream, tr, i) + 16
    requires fpOf(stream[i]) % rows == fpOf(stream[j]) % rows
    ensures var v := KickCount(fpOf, stream, tr, i) % 16;
            && GivesUp(tr[j], fpOf(stream[j]), stream[j], v)
            && BucketOf(tr[j], fpOf(stream[j])).fps[v] == fpOf(stream[i])
    ensures OnlyFlow(fpOf, stream[i]) ==>
              var victim := Touch(tr[j], GRR, fpOf(stream[j]), stream[j]).victim;
              victim.Some? && victim.value.id == stream[i]
  {
    NewcomerStays(fpOf, rows, stream, tr, i, j);
    KicksGoRound(fpOf, rows, stream, tr, j);
    var n := KickCount(fpOf, stream, tr, i);
    FullTurn(n);
    HandsOutHeld(tr[j], n % 16, fpOf, stream[i], stream[j]);
  }

  lemma FullTurn(n: nat)
    ensures (n + 16) % 16 == n % 16
  {
  }

  lemma HandsOutHeld<K(!new)>(c: Cache<K>, v: nat, fpOf: K -> uint32, id: K, k: K)
    requires Shape(c) && v < LANES && Holds(c, fpOf(k) % |c.buckets|, v, fpOf, id) && GivesUp(c, fpOf(k), k, v)
    ensures BucketOf(c, fpOf(k)).fps[v] == fpOf(id)
    ensures OnlyFlow(fpOf, id) ==> var victim := Touch(c, GRR, fpOf(k), k).victim; victim.Some? && victim.value.id == id
  {
  }

  /** The packet changes the key word of this lane of its bucket. */
  predicate Rewrites<K>(fpOf: K -> uint32, stream: seq<K>, tr: seq<Cache<K>>, i: nat, lane: nat)
    requires |tr| == |stream| + 1 && i < |stream| && lane < LANES
  {
    Shape(tr[i]) && Shape(tr[i + 1]) && BucketOf(tr[i], fpOf(stream[i])).fps[lane]
    != BucketOf(tr[i + 1], fpOf(stream[i])).fps[lane]
  }

  lemma RewrittenLane<K>(c: Cache<K>, fp: uint32, id: K, v: nat, lane: nat)
    requires Kicks(c, fp) && v < LANES && lane < LANES && GivesUp(c, fp, id, v)
    ensures BucketOf(c, fp).fps[lane] != BucketOf(Touch(c, GRR, fp, id).cache, fp).fps[lane] <==> lane == v
  {
    assert BucketOf(c, fp).fps[lane] in BucketOf(c, fp).fps;
  }

  lemma RewritesItsLane<K>(fpOf: K -> uint32, rows: nat, stream: seq<K>, tr: seq<Cache<K>>, i: nat, lane: nat)
    requires Run(fpOf, rows, stream, tr) && i < |stream| && lane < LANES && KicksAt(fpOf, stream, tr, i)
    ensures Rewrites(fpOf, stream, tr, i, lane) <==> lane == KickCount(fpOf, stream, tr, i) % 16
  {
    KicksGoRound(fpOf, rows, stream, tr, i);
    assert StepAt(fpOf, stream, tr, i);
    RewrittenLane(tr[i], fpOf(stream[i]), stream[i], KickCount(fpOf, stream, tr, i) % 16, lane);
  }

  /** Any sixteen evictions in a row rewrite sixteen different lanes; with one bucket, all of its lanes. */
  lemma SixteenDifferentLanes<K>(fpOf: K -> uint32, rows: nat, stream: seq<K>, tr: seq<Cache<K>>, i: nat, j: nat, v: nat, w: nat)
    requires Run(fpOf, rows, stream, tr) && i < j < |stream| && v < LANES && w < LANES
    requires KicksAt(fpOf, stream, tr, i) && KicksAt(fpOf, stream, tr, j)
    requires KickCount(fpOf, stream, tr, j) < KickCount(fpOf, stream, tr, i) + 16
    requires Rewrites(fpOf, stream, tr, i, v) && Rewrites(fpOf, stream, tr, j, w)
    ensures v != w
  {
    RewritesItsLane(fpOf, rows, stream, tr, i, v);
    RewritesItsLane(fpOf, rows, stream, tr, j, w);
    KickCountGrows(fpOf, stream, tr, i + 1, j);
    OtherTurn(KickCount(fpOf, stream, tr, i), KickCount(fpOf, stream, tr, j));
  }
}
