/**
 Agg-Evict as a whole: the cache in front of any sketch.

 A sketch is a state with a weighted update `upd(s, k, n)`, "n packets of flow k".  The
 plain module applies `upd(s, k, 1)` to every packet.  The Agg-Evict module applies `upd`
 only to evicted pairs.  If updates commute and add up, then at every moment pushing the
 cached pairs into the sketch gives exactly the plain sketch of all packets seen so far.
 */
module AggEvict {
  import opened Machine
  import opened SimdMatch
  import opened AggCache

  datatype System<+K, +S> = System(cache: Cache<K>, sketch: S)

  function Absorb<K, S>(upd: (S, K, uint32) -> S, s: S, victim: Option<Entry<K>>): S {
    match victim
    case None => s
    case Some(e) => upd(s, e.id, e.count)
  }

  /** One packet through cache and sketch. */
  function AggStep<K(==), S>(upd: (S, K, uint32) -> S, policy: Policy, fpOf: K -> uint32, st: System<K, S>, k: K): (r: System<K, S>)
    requires Shape(st.cache)
    ensures Shape(r.cache) && |r.cache.buckets| == |st.cache.buckets|
  {
    var step := Touch(st.cache, policy, fpOf(k), k);
    System(step.cache, Absorb(upd, st.sketch, step.victim))
  }

  /** A whole stream through cache and sketch. */
  function AggRun<K(==), S>(upd: (S, K, uint32) -> S, policy: Policy, fpOf: K -> uint32, st: System<K, S>, stream: seq<K>): (r: System<K, S>)
    requires Shape(st.cache)
    ensures Shape(r.cache) && |r.cache.buckets| == |st.cache.buckets|
    decreases |stream|
  {
    if stream == [] then st
    else
      var n := |stream| - 1;
      AggStep(upd, policy, fpOf, AggRun(upd, policy, fpOf, st, stream[..n]), stream[n])
  }

  /** A whole stream through the plain sketch. */
  function PlainRun<K, S>(upd: (S, K, uint32) -> S, s: S, stream: seq<K>): S
    decreases |stream|
  {
    if stream == [] then s
    else
      var n := |stream| - 1;
      upd(PlainRun(upd, s, stream[..n]), stream[n], 1)
  }

  /** Pushes pairs into the sketch, in order. */
  function Drain<K, S>(upd: (S, K, uint32) -> S, s: S, es: seq<Entry<K>>): S
    decreases |es|
  {
    if es == [] then s else Drain(upd, upd(s, es[0].id, es[0].count), es[1..])
  }

  function Occupied<K>(bk: Bucket<K>): seq<Entry<K>>
    requires BucketShape(bk)
  {
    seq(bk.curpos, i requires 0 <= i < bk.curpos => Entry(bk.ids[i], bk.vals[i]))
  }

  /** The occupied lanes of buckets lo to hi - 1, in flush order. */
  function PairsIn<K>(buckets: seq<Bucket<K>>, lo: nat, hi: nat): seq<Entry<K>>
    requires hi <= |buckets| && forall b :: 0 <= b < |buckets| ==> BucketShape(buckets[b])
    decreases hi
  {
    if hi <= lo then [] else PairsIn(buckets, lo, hi - 1) + Occupied(buckets[hi - 1])
  }

  /** The occupied lanes of all buckets. */
  function Pairs<K>(buckets: seq<Bucket<K>>): seq<Entry<K>>
    requires forall b :: 0 <= b < |buckets| ==> BucketShape(buckets[b])
  {
    PairsIn(buckets, 0, |buckets|)
  }

  // ---------- What is asked of a sketch ----------

  ghost predicate Stays<K, S>(upd: (S, K, uint32) -> S, inv: S -> bool, s: S, k: K, v: uint32) {
    inv(upd(s, k, v))
  }

  ghost predicate Swaps<K, S>(upd: (S, K, uint32) -> S, s: S, k: K, v: uint32, l: K, w: uint32) {
    upd(upd(s, k, v), l, w) == upd(upd(s, l, w), k, v)
  }

  ghost predicate Merges<K, S>(upd: (S, K, uint32) -> S, s: S, k: K, v: uint32, w: uint32) {
    upd(upd(s, k, v), k, w) == upd(s, k, Add32(v, w))
  }

  /** On states satisfying `inv` and flows satisfying `ok`, updates stay in `inv`, commute, and add up modulo 2^32. */
  ghost predicate Lawful<K(!new), S(!new)>(upd: (S, K, uint32) -> S, inv: S -> bool, ok: K -> bool) {
    && (forall s, k, v :: inv(s) && ok(k) ==> Stays(upd, inv, s, k, v))
    && (forall s, k, v, l, w :: inv(s) && ok(k) && ok(l) ==> Swaps(upd, s, k, v, l, w))
    && (forall s, k, v, w :: inv(s) && ok(k) ==> Merges(upd, s, k, v, w))
  }

  /** No restriction on states or flows. */
  function Always<T>(): T -> bool {
    _ => true
  }

  ghost predicate AllOk<K>(es: seq<Entry<K>>, ok: K -> bool) {
    forall i :: 0 <= i < |es| ==> ok(es[i].id)
  }

  // ---------- Draining ----------

  lemma {:induction false} DrainConcat<K, S>(upd: (S, K, uint32) -> S, s: S, xs: seq<Entry<K>>, ys: seq<Entry<K>>)
    ensures Drain(upd, s, xs + ys) == Drain(upd, Drain(upd, s, xs), ys)
    decreases |xs|
  {
    if xs == [] {
      assert xs + ys == ys;
    } else {
      assert (xs + ys)[1..] == xs[1..] + ys;
      DrainConcat(upd, upd(s, xs[0].id, xs[0].count), xs[1..], ys);
    }
  }

  /** An update before draining is the same update after draining. */
  lemma {:induction false} DrainCommutes<K(!new), S(!new)>(upd: (S, K, uint32) -> S, inv: S -> bool, ok: K -> bool, s: S, es: seq<Entry<K>>, k: K, v: uint32)
    requires Lawful(upd, inv, ok) && inv(s) && ok(k) && AllOk(es, ok)
    ensures inv(Drain(upd, s, es))
    ensures Drain(upd, upd(s, k, v), es) == upd(Drain(upd, s, es), k, v)
    decreases |es|
  {
    if es != [] {
      var e := es[0];
      assert ok(e.id);
      assert Stays(upd, inv, s, e.id, e.count) && Swaps(upd, s, k, v, e.id, e.count);
      DrainCommutes(upd, inv, ok, upd(s, e.id, e.count), es[1..], k, v);
    }
  }

  /** One pair can be drained last wherever it stands. */
  lemma PullOut<K(!new), S(!new)>(upd: (S, K, uint32) -> S, inv: S -> bool, ok: K -> bool, s: S, xs: seq<Entry<K>>, e: Entry<K>, ys: seq<Entry<K>>)
    requires Lawful(upd, inv, ok) && inv(s) && ok(e.id) && AllOk(xs, ok) && AllOk(ys, ok)
    ensures inv(Drain(upd, s, xs + ys))
    ensures Drain(upd, s, xs + [e] + ys) == upd(Drain(upd, s, xs + ys), e.id, e.count)
  {
    var t := Drain(upd, s, xs);
    DrainCommutes(upd, inv, ok, s, xs, e.id, e.count);
    DrainConcat(upd, s, xs, ys);
    DrainConcat(upd, s, xs + [e], ys);
    DrainConcat(upd, s, xs, [e]);
    assert Drain(upd, t, [e]) == upd(t, e.id, e.count);
    DrainCommutes(upd, inv, ok, t, ys, e.id, e.count);
  }

  lemma {:induction false} PairsInSplit<K>(buckets: seq<Bucket<K>>, lo: nat, m: nat, hi: nat)
    requires lo <= m <= hi <= |buckets| && forall b :: 0 <= b < |buckets| ==> BucketShape(buckets[b])
    ensures PairsIn(buckets, lo, hi) == PairsIn(buckets, lo, m) + PairsIn(buckets, m, hi)
    decreases hi
  {
    if m < hi {
      PairsInSplit(buckets, lo, m, hi - 1);
    }
  }

  lemma {:induction false} PairsInSame<K>(xs: seq<Bucket<K>>, ys: seq<Bucket<K>>, lo: nat, hi: nat)
    requires hi <= |xs| == |ys|
    requires forall b :: 0 <= b < |xs| ==> BucketShape(xs[b])
    requires forall b :: 0 <= b < |ys| ==> BucketShape(ys[b])
    requires forall b :: lo <= b < hi ==> xs[b] == ys[b]
    ensures PairsIn(xs, lo, hi) == PairsIn(ys, lo, hi)
    decreases hi
  {
    if lo < hi {
      PairsInSame(xs, ys, lo, hi - 1);
    }
  }

  lemma PairsSplit<K>(buckets: seq<Bucket<K>>, b: nat)
    requires b < |buckets| && forall i :: 0 <= i < |buckets| ==> BucketShape(buckets[i])
    ensures Pairs(buckets) == PairsIn(buckets, 0, b) + Occupied(buckets[b]) + PairsIn(buckets, b + 1, |buckets|)
  {
    PairsInSplit(buckets, 0, b + 1, |buckets|);
  }

  /** Replacing one bucket replaces its stretch of pairs. */
  lemma PairsUpdate<K>(buckets: seq<Bucket<K>>, b: nat, bk: Bucket<K>)
    requires b < |buckets| && BucketShape(bk) && forall i :: 0 <= i < |buckets| ==> BucketShape(buckets[i])
    ensures Pairs(buckets[b := bk]) == PairsIn(buckets, 0, b) + Occupied(bk) + PairsIn(buckets, b + 1, |buckets|)
  {
    var bs := buckets[b := bk];
    PairsSplit(bs, b);
    PairsInSame(buckets, bs, 0, b);
    PairsInSame(buckets, bs, b + 1, |buckets|);
  }

  lemma OccupiedRefill<K>(bk: Bucket<K>, i: nat, fp: uint32, id: K, val: uint32, time: uint32)
    requires BucketShape(bk) && i <= bk.curpos && i < LANES
    ensures var rest := if i < bk.curpos then Occupied(bk)[i + 1..] else [];
            Occupied(Refill(bk, i, fp, id, val, time)) == Occupied(bk)[..i] + [Entry(id, val)] + rest
    ensures i < bk.curpos ==> Occupied(bk) == Occupied(bk)[..i] + [Occupied(bk)[i]] + Occupied(bk)[i + 1..]
  {
  }

  /** What a packet does to the cached pairs: it counts up, inserts, or exchanges exactly one of them. */
  lemma TouchOnPairs<K>(c: Cache<K>, policy: Policy, fpOf: K -> uint32, zero: K, k: K)
      returns (xs: seq<Entry<K>>, e: Option<Entry<K>>, ys: seq<Entry<K>>, n: uint32)
    requires CacheSound(c, fpOf, zero) && Countable(c, fpOf(k))
    ensures Pairs(c.buckets) == xs + (if e.Some? then [e.value] else []) + ys
    ensures var r := Touch(c, policy, fpOf(k), k);
            && Pairs(r.cache.buckets) == xs + [Entry(k, n)] + ys
            && match e {
                 case None => r.victim == None && n == 1
                 case Some(o) => if r.victim == None then o.id == k && n == Add32(o.count, 1)
                                 else r.victim == e && n == 1
               }
  {
    var i, val, time := TouchLane(c, policy, fpOf, zero, k);
    var b := fpOf(k) % |c.buckets|;
    var bk := c.buckets[b];
    var occ, pre, post := Occupied(bk), PairsIn(c.buckets, 0, b), PairsIn(c.buckets, b + 1, |c.buckets|);
    PairsSplit(c.buckets, b);
    PairsUpdate(c.buckets, b, Refill(bk, i, fpOf(k), k, val, time));
    OccupiedRefill(bk, i, fpOf(k), k, val, time);
    n := val;
    xs := pre + occ[..i];
    if i == bk.curpos {
      e, ys := None, [] + post;
      assert occ == occ[..i] + [] + [];
      Regroup(pre, occ[..i], [], [], post);
      Regroup(pre, occ[..i], [Entry(k, n)], [], post);
    } else {
      e, ys := Some(occ[i]), occ[i + 1..] + post;
      Regroup(pre, occ[..i], [occ[i]], occ[i + 1..], post);
      Regroup(pre, occ[..i], [Entry(k, n)], occ[i + 1..], post);
    }
  }

  lemma Regroup<T>(pre: seq<T>, a: seq<T>, mid: seq<T>, z: seq<T>, post: seq<T>)
    ensures pre + (a + mid + z) + post == (pre + a) + mid + (z + post)
  {
  }

  lemma AllOkParts<K>(es: seq<Entry<K>>, ok: K -> bool, xs: seq<Entry<K>>, mid: seq<Entry<K>>, ys: seq<Entry<K>>)
    requires AllOk(es, ok) && es == xs + mid + ys
    ensures AllOk(xs, ok) && AllOk(mid, ok) && AllOk(ys, ok) && AllOk(xs + ys, ok)
  {
    assert forall i :: 0 <= i < |xs| ==> xs[i] == es[i];
    assert forall i :: 0 <= i < |mid| ==> mid[i] == es[|xs| + i];
    assert forall i :: 0 <= i < |ys| ==> ys[i] == es[|xs| + |mid| + i];
  }

  /** One packet through cache and sketch is one plain update of the drained sketch. */
  lemma StepSimulates<K(!new), S(!new)>(upd: (S, K, uint32) -> S, inv: S -> bool, ok: K -> bool, policy: Policy, fpOf: K -> uint32, zero: K, st: System<K, S>, k: K)
    requires Lawful(upd, inv, ok) && inv(st.sketch) && ok(k)
    requires CacheSound(st.cache, fpOf, zero) && Countable(st.cache, fpOf(k)) && AllOk(Pairs(st.cache.buckets), ok)
    ensures var st' := AggStep(upd, policy, fpOf, st, k);
            && inv(st'.sketch) && AllOk(Pairs(st'.cache.buckets), ok)
            && Drain(upd, st'.sketch, Pairs(st'.cache.buckets)) == upd(Drain(upd, st.sketch, Pairs(st.cache.buckets)), k, 1)
  {
    var xs, e, ys, n := TouchOnPairs(st.cache, policy, fpOf, zero, k);
    var victim := Touch(st.cache, policy, fpOf(k), k).victim;
    AllOkParts(Pairs(st.cache.buckets), ok, xs, if e.Some? then [e.value] else [], ys);
    PairsSimulate(upd, inv, ok, st.sketch, xs, e, ys, n, victim, k);
  }

  lemma PairsSimulate<K(!new), S(!new)>(upd: (S, K, uint32) -> S, inv: S -> bool, ok: K -> bool, s: S, xs: seq<Entry<K>>, e: Option<Entry<K>>, ys: seq<Entry<K>>, n: uint32, victim: Option<Entry<K>>, k: K)
    requires Lawful(upd, inv, ok) && inv(s) && ok(k) && AllOk(xs, ok) && AllOk(ys, ok)
    requires AllOk(if e.Some? then [e.value] else [], ok)
    requires match e {
               case None => victim == None && n == 1
               case Some(o) => if victim == None then o.id == k && n == Add32(o.count, 1) else victim == e && n == 1
             }
    ensures var s' := Absorb(upd, s, victim);
            && inv(s') && AllOk(xs + [Entry(k, n)] + ys, ok)
            && Drain(upd, s', xs + [Entry(k, n)] + ys) == upd(Drain(upd, s, xs + (if e.Some? then [e.value] else []) + ys), k, 1)
  {
    if e.None? {
      PullOut(upd, inv, ok, s, xs, Entry(k, n), ys);
      assert xs + [] + ys == xs + ys;
    } else {
      var o := e.value;
      assert ok([o][0].id);
      assert Stays(upd, inv, s, o.id, o.count);
      ExchangeSimulates(upd, inv, ok, s, xs, o, ys, k);
    }
  }

  /** Counting up one pair, or evicting it and taking its place, is one plain update of the drained sketch. */
  lemma ExchangeSimulates<K(!new), S(!new)>(upd: (S, K, uint32) -> S, inv: S -> bool, ok: K -> bool, s: S, xs: seq<Entry<K>>, o: Entry<K>, ys: seq<Entry<K>>, k: K)
    requires Lawful(upd, inv, ok) && inv(s) && ok(o.id) && ok(k) && AllOk(xs, ok) && AllOk(ys, ok)
    ensures o.id == k ==> Drain(upd, s, xs + [Entry(k, Add32(o.count, 1))] + ys) == upd(Drain(upd, s, xs + [o] + ys), k, 1)
    ensures Drain(upd, upd(s, o.id, o.count), xs + [Entry(k, 1)] + ys) == upd(Drain(upd, s, xs + [o] + ys), k, 1)
  {
    PullOut(upd, inv, ok, s, xs, o, ys);
    var d := Drain(upd, s, xs + ys);
    if o.id == k {
      PullOut(upd, inv, ok, s, xs, Entry(k, Add32(o.count, 1)), ys);
      assert Merges(upd, d, k, o.count, 1);
    }
    assert Stays(upd, inv, s, o.id, o.count);
    PullOut(upd, inv, ok, upd(s, o.id, o.count), xs, Entry(k, 1), ys);
    DrainCommutes(upd, inv, ok, s, xs + ys, o.id, o.count);
  }

  /**
   Agg-Evict refines the plain sketch: after every stream, from any empty cache, the sketch
   together with the cached pairs is the plain sketch.
   */
  lemma {:induction false} AggEvictRefinesPlain<K(!new), S(!new)>(upd: (S, K, uint32) -> S, inv: S -> bool, ok: K -> bool,
      policy: Policy, fpOf: K -> uint32, zero: K, rows: nat, s: S, stream: seq<K>)
    requires rows > 0 && Lawful(upd, inv, ok) && inv(s)
    requires forall i :: 0 <= i < |stream| ==> ok(stream[i]) && fpOf(stream[i]) != 0
    ensures var st := AggRun(upd, policy, fpOf, System(EmptyCache(rows, zero), s), stream);
            && CacheInv(st.cache, fpOf, zero)
            && inv(st.sketch) && AllOk(Pairs(st.cache.buckets), ok)
            && Drain(upd, st.sketch, Pairs(st.cache.buckets)) == PlainRun(upd, s, stream)
    decreases |stream|
  {
    var st0 := System(EmptyCache(rows, zero), s);
    if stream == [] {
      EmptyCacheInv(rows, fpOf, zero);
      NoPairs(st0.cache.buckets);
    } else {
      var n := |stream| - 1;
      AggEvictRefinesPlain(upd, inv, ok, policy, fpOf, zero, rows, s, stream[..n]);
      var st := AggRun(upd, policy, fpOf, st0, stream[..n]);
      InvIsSound(st.cache, fpOf, zero);
      StepSimulates(upd, inv, ok, policy, fpOf, zero, st, stream[n]);
      TouchKeepsInv(st.cache, policy, fpOf, zero, stream[n]);
    }
  }

  lemma {:induction false} NoPairsIn<K>(buckets: seq<Bucket<K>>, lo: nat, hi: nat)
    requires hi <= |buckets| && forall b :: 0 <= b < |buckets| ==> BucketShape(buckets[b])
    requires forall b :: lo <= b < hi ==> buckets[b].curpos == 0
    ensures PairsIn(buckets, lo, hi) == []
    decreases hi
  {
    if lo < hi {
      NoPairsIn(buckets, lo, hi - 1);
    }
  }

  lemma NoPairs<K>(buckets: seq<Bucket<K>>)
    requires forall b :: 0 <= b < |buckets| ==> BucketShape(buckets[b]) && buckets[b].curpos == 0
    ensures Pairs(buckets) == []
  {
    NoPairsIn(buckets, 0, |buckets|);
  }

  // ---------- Flushing all sixteen lanes ----------

  function Lanes<K>(bk: Bucket<K>): seq<Entry<K>>
    requires BucketShape(bk)
  {
    seq(LANES, i requires 0 <= i < LANES => Entry(bk.ids[i], bk.vals[i]))
  }

  /** Every lane of the first n buckets, as the reset loops visit them. */
  function LanesTo<K>(buckets: seq<Bucket<K>>, n: nat): seq<Entry<K>>
    requires n <= |buckets| && forall b :: 0 <= b < |buckets| ==> BucketShape(buckets[b])
  {
    if n == 0 then [] else LanesTo(buckets, n - 1) + Lanes(buckets[n - 1])
  }

  /** Every lane of every bucket. */
  function AllLanes<K>(buckets: seq<Bucket<K>>): seq<Entry<K>>
    requires forall b :: 0 <= b < |buckets| ==> BucketShape(buckets[b])
  {
    LanesTo(buckets, |buckets|)
  }

  predicate AllFull<K>(buckets: seq<Bucket<K>>) {
    forall b :: 0 <= b < |buckets| ==> buckets[b].curpos == LANES
  }

  function Phantoms<K>(zero: K, n: nat): seq<Entry<K>> {
    seq(n, _ => Entry(zero, 0))
  }

  ghost predicate ZeroTail<K>(bk: Bucket<K>, zero: K)
    requires BucketShape(bk)
  {
    forall i :: bk.curpos <= i < LANES ==> bk.ids[i] == zero && bk.vals[i] == 0
  }

  lemma {:induction false} DrainPhantoms<K(!new), S(!new)>(upd: (S, K, uint32) -> S, inv: S -> bool, ok: K -> bool, s: S, zero: K, n: nat)
    requires Lawful(upd, inv, ok) && inv(s) && ok(zero)
    ensures Drain(upd, s, Phantoms(zero, n)) == if n == 0 then s else upd(s, zero, 0)
  {
    if n > 0 {
      assert Phantoms(zero, n)[1..] == Phantoms(zero, n - 1);
      assert Stays(upd, inv, s, zero, 0) && Merges(upd, s, zero, 0, 0);
      DrainPhantoms(upd, inv, ok, upd(s, zero, 0), zero, n - 1);
    }
  }

  /** One bucket flushed in full: its pairs, then a phantom unless it is full. */
  lemma FlushBucket<K(!new), S(!new)>(upd: (S, K, uint32) -> S, inv: S -> bool, ok: K -> bool, s: S, bk: Bucket<K>, zero: K)
    requires Lawful(upd, inv, ok) && inv(s) && ok(zero) && BucketShape(bk)
    requires AllOk(Occupied(bk), ok) && ZeroTail(bk, zero)
    ensures var t := Drain(upd, s, Occupied(bk));
            inv(t) && Drain(upd, s, Lanes(bk)) == if bk.curpos == LANES then t else upd(t, zero, 0)
  {
    assert Lanes(bk) == Occupied(bk) + Phantoms(zero, LANES - bk.curpos);
    DrainConcat(upd, s, Occupied(bk), Phantoms(zero, LANES - bk.curpos));
    DrainCommutes(upd, inv, ok, s, Occupied(bk), zero, 0);
    DrainPhantoms(upd, inv, ok, Drain(upd, s, Occupied(bk)), zero, LANES - bk.curpos);
  }

  ghost predicate FullTo<K>(buckets: seq<Bucket<K>>, n: nat)
    requires n <= |buckets|
  {
    forall b :: 0 <= b < n ==> buckets[b].curpos == LANES
  }

  lemma {:induction false} FlushLanesTo<K(!new), S(!new)>(upd: (S, K, uint32) -> S, inv: S -> bool, ok: K -> bool, s: S, buckets: seq<Bucket<K>>, zero: K, n: nat)
    requires Lawful(upd, inv, ok) && inv(s) && ok(zero) && n <= |buckets|
    requires forall b :: 0 <= b < |buckets| ==> BucketShape(buckets[b])
    requires forall b :: 0 <= b < |buckets| ==> ZeroTail(buckets[b], zero)
    requires AllOk(PairsIn(buckets, 0, n), ok)
    ensures var t := Drain(upd, s, PairsIn(buckets, 0, n));
            inv(t) && Drain(upd, s, LanesTo(buckets, n)) == if FullTo(buckets, n) then t else upd(t, zero, 0)
  {
    if n > 0 {
      var bk, pairs := buckets[n - 1], PairsIn(buckets, 0, n - 1);
      AllOkParts(PairsIn(buckets, 0, n), ok, pairs, Occupied(bk), []);
      FlushLanesTo(upd, inv, ok, s, buckets, zero, n - 1);
      DrainConcat(upd, s, LanesTo(buckets, n - 1), Lanes(bk));
      DrainConcat(upd, s, pairs, Occupied(bk));
      FlushOneMore(upd, inv, ok, Drain(upd, s, pairs), bk, zero, 0);
    }
  }

  /** A bucket flushed after the others, whether or not an update of the all-zero flow came before. */
  lemma FlushOneMore<K(!new), S(!new)>(upd: (S, K, uint32) -> S, inv: S -> bool, ok: K -> bool, t: S, bk: Bucket<K>, zero: K, v: uint32)
    requires Lawful(upd, inv, ok) && inv(t) && ok(zero) && BucketShape(bk) && AllOk(Occupied(bk), ok) && ZeroTail(bk, zero)
    ensures var u := Drain(upd, t, Occupied(bk));
            && inv(u)
            && Drain(upd, t, Lanes(bk)) == (if bk.curpos == LANES then u else upd(u, zero, 0))
            && Drain(upd, upd(t, zero, v), Lanes(bk)) == upd(u, zero, v)
  {
    FlushBucket(upd, inv, ok, t, bk, zero);
    assert Stays(upd, inv, t, zero, v);
    FlushBucket(upd, inv, ok, upd(t, zero, v), bk, zero);
    DrainCommutes(upd, inv, ok, t, Occupied(bk), zero, v);
    assert Merges(upd, Drain(upd, t, Occupied(bk)), zero, v, 0);
    Add32Small(v, 0);
  }

  /** Flushing all lanes is draining the pairs, plus one update of the all-zero flow with count 0 unless every lane is in use. */
  lemma FlushAllLanes<K(!new), S(!new)>(upd: (S, K, uint32) -> S, inv: S -> bool, ok: K -> bool, s: S, buckets: seq<Bucket<K>>, zero: K)
    requires Lawful(upd, inv, ok) && inv(s) && ok(zero)
    requires forall b :: 0 <= b < |buckets| ==> BucketShape(buckets[b])
    requires forall b :: 0 <= b < |buckets| ==> ZeroTail(buckets[b], zero)
    requires AllOk(Pairs(buckets), ok)
    ensures var t := Drain(upd, s, Pairs(buckets));
            inv(t) && Drain(upd, s, AllLanes(buckets)) == if AllFull(buckets) then t else upd(t, zero, 0)
  {
    FlushLanesTo(upd, inv, ok, s, buckets, zero, |buckets|);
  }

  /** The reset flush of the source, after every stream: the plain sketch, plus the phantom flow unless the cache is completely full. */
  lemma ResetFlushIsPlainPlusPhantom<K(!new), S(!new)>(upd: (S, K, uint32) -> S, inv: S -> bool, ok: K -> bool,
      policy: Policy, fpOf: K -> uint32, zero: K, rows: nat, s: S, stream: seq<K>)
    requires rows > 0 && Lawful(upd, inv, ok) && inv(s) && ok(zero)
    requires forall i :: 0 <= i < |stream| ==> ok(stream[i]) && fpOf(stream[i]) != 0
    ensures var st := AggRun(upd, policy, fpOf, System(EmptyCache(rows, zero), s), stream);
            var plain := PlainRun(upd, s, stream);
            Drain(upd, st.sketch, AllLanes(st.cache.buckets)) == if AllFull(st.cache.buckets) then plain else upd(plain, zero, 0)
  {
    AggEvictRefinesPlain(upd, inv, ok, policy, fpOf, zero, rows, s, stream);
    var st := AggRun(upd, policy, fpOf, System(EmptyCache(rows, zero), s), stream);
    forall b | 0 <= b < |st.cache.buckets|
      ensures ZeroTail(st.cache.buckets[b], zero)
    {
      assert BucketInv(st.cache.buckets[b], b, |st.cache.buckets|, fpOf, zero);
    }
    FlushAllLanes(upd, inv, ok, st.sketch, st.cache.buckets, zero);
  }

  // ---------- Looking at one part of the sketch ----------

  ghost predicate Projects<K(!new), S(!new), T(!new)>(upd: (S, K, uint32) -> S, updT: (T, K, uint32) -> T, proj: S -> T) {
    forall s, k, v :: proj(upd(s, k, v)) == updT(proj(s), k, v)
  }

  /** If a part of the sketch evolves on its own, its run is a run of that part. */
  lemma {:induction false} RunProjects<K(!new), S(!new), T(!new)>(upd: (S, K, uint32) -> S, updT: (T, K, uint32) -> T, proj: S -> T,
      policy: Policy, fpOf: K -> uint32, st: System<K, S>, stream: seq<K>)
    requires Projects(upd, updT, proj) && Shape(st.cache)
    ensures var r, t := AggRun(upd, policy, fpOf, st, stream), AggRun(updT, policy, fpOf, System(st.cache, proj(st.sketch)), stream);
            r.cache == t.cache && proj(r.sketch) == t.sketch
    ensures proj(PlainRun(upd, st.sketch, stream)) == PlainRun(updT, proj(st.sketch), stream)
    decreases |stream|
  {
    if stream != [] {
      RunProjects(upd, updT, proj, policy, fpOf, st, stream[..|stream| - 1]);
    }
  }

  lemma {:induction false} DrainProjects<K(!new), S(!new), T(!new)>(upd: (S, K, uint32) -> S, updT: (T, K, uint32) -> T, proj: S -> T, s: S, es: seq<Entry<K>>)
    requires Projects(upd, updT, proj)
    ensures proj(Drain(upd, s, es)) == Drain(updT, proj(s), es)
    decreases |es|
  {
    if es != [] {
      DrainProjects(upd, updT, proj, upd(s, es[0].id, es[0].count), es[1..]);
    }
  }
}
