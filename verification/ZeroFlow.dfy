/**
 What happens to flow 0, whose key word means "unused lane": streams with any flows at all,
 in the single-word modules.
 */
module ZeroFlow {
  import opened Machine
  import opened SimdMatch
  import opened AggCache
  import opened AggEvict
  import opened LruOrder
  import opened TableSketch
  import opened CmSketch

  // ---------- The fate of each packet ----------

  /** A packet is counted in an occupied lane or another bucket, takes the first unused lane of bucket 0, or is parked there. */
  datatype Fate = Counts | Takes | Parks

  /** Does this packet give the first unused lane of bucket 0 to a flow? */
  predicate TakesLane(c: Cache<uint32>, policy: Policy, k: uint32)
    requires Shape(c)
  {
    Touch(c, policy, k, k).cache.buckets[0].curpos > c.buckets[0].curpos
  }

  /** Packets of flow 0 that come while bucket 0 has a free lane are parked; all others are counted. */
  function FateOf(c: Cache<uint32>, policy: Policy, k: uint32): Fate
    requires Shape(c)
  {
    if !Countable(c, k) then Parks else if TakesLane(c, policy, k) then Takes else Counts
  }

  ghost predicate FateAt(policy: Policy, rows: nat, stream: seq<uint32>, fs: seq<Fate>, t: nat)
    requires rows > 0 && t < |stream| == |fs|
  {
    fs[t] == FateOf(CacheRun(policy, SelfKey(), EmptyCache<uint32>(rows, 0), stream[..t]), policy, stream[t])
  }

  /** The fates of the packets of a stream that starts with an empty cache. */
  ghost predicate AreFates(policy: Policy, rows: nat, stream: seq<uint32>, fs: seq<Fate>)
    requires rows > 0
  {
    |stream| == |fs| && forall t :: 0 <= t < |stream| ==> FateAt(policy, rows, stream, fs, t)
  }

  /** Every stream has its fates. */
  lemma FatesExist(policy: Policy, rows: nat, stream: seq<uint32>) returns (fs: seq<Fate>)
    requires rows > 0
    ensures AreFates(policy, rows, stream, fs)
  {
    fs := seq(|stream|, t requires 0 <= t < |stream| =>
      FateOf(CacheRun(policy, SelfKey(), EmptyCache<uint32>(rows, 0), stream[..t]), policy, stream[t]));
  }

  /** The packets among the first n that are counted. */
  function KeptOf(stream: seq<uint32>, fs: seq<Fate>, n: nat): (kept: seq<uint32>)
    requires n <= |stream| == |fs|
    ensures |kept| <= n
  {
    if n == 0 then [] else KeptOf(stream, fs, n - 1) + if fs[n - 1].Parks? then [] else [stream[n - 1]]
  }

  /** The packets parked in the lane after the first n. */
  function ParkedOf(fs: seq<Fate>, n: nat): (p: nat)
    requires n <= |fs|
    ensures p <= n
  {
    if n == 0 then 0
    else
      match fs[n - 1]
      case Parks => ParkedOf(fs, n - 1) + 1
      case Takes => 0
      case Counts => ParkedOf(fs, n - 1)
  }

  /** The packets that were parked in a lane that a flow then took. */
  function LostOf(fs: seq<Fate>, n: nat): nat
    requires n <= |fs|
  {
    if n == 0 then 0 else LostOf(fs, n - 1) + if fs[n - 1].Takes? then ParkedOf(fs, n - 1) else 0
  }

  /** Every packet is counted, parked or lost. */
  lemma {:induction false} PacketsKeptParkedOrLost(stream: seq<uint32>, fs: seq<Fate>, n: nat)
    requires n <= |stream| == |fs|
    ensures |KeptOf(stream, fs, n)| + ParkedOf(fs, n) + LostOf(fs, n) == n
  {
    if n > 0 {
      PacketsKeptParkedOrLost(stream, fs, n - 1);
    }
  }

  /** Something is lost if and only if some packet's flow takes the lane while a count is parked in it. */
  lemma {:induction false} LostExactlyWhen(fs: seq<Fate>, n: nat)
    requires n <= |fs|
    ensures LostOf(fs, n) > 0 <==> exists t :: 0 <= t < n && fs[t].Takes? && ParkedOf(fs, t) > 0
  {
    if n > 0 {
      LostExactlyWhen(fs, n - 1);
    }
  }


  // ---------- One packet ----------

  lemma ParkedTouch(c: Cache<uint32>, policy: Policy)
    requires CacheSound(c, SelfKey(), 0) && !Countable(c, 0)
    ensures var r, bk := Touch(c, policy, 0, 0), c.buckets[0];
            && bk.curpos < LANES && r.victim == None
            && r.cache.buckets == c.buckets[0 := SetLane(bk, bk.curpos, 0, 0, Add32(bk.vals[bk.curpos], 1), Stamp(policy, Tick(c, policy).now, bk, bk.curpos))]
  {
    var bk := c.buckets[0];
    assert BucketSound(bk, 0, |c.buckets|, SelfKey(), 0);
    assert bk.curpos < LANES && bk.fps[bk.curpos] == 0;
    assert FirstIndex(bk.fps, 0) == bk.curpos;
  }

  lemma ParkedBucket(bk: Bucket<uint32>, rows: nat, val: uint32, time: uint32)
    requires rows > 0 && BucketSound(bk, 0, rows, SelfKey(), 0) && bk.curpos < LANES
    ensures var bk' := SetLane(bk, bk.curpos, 0, 0, val, time);
            BucketSound(bk', 0, rows, SelfKey(), 0) && Occupied(bk') == Occupied(bk)
  {
  }

  /** Such a packet is counted in the first unused lane of bucket 0, which stays unused: no pair changes and nothing is evicted. */
  lemma ParkedPacket(c: Cache<uint32>, policy: Policy)
    requires CacheSound(c, SelfKey(), 0) && !Countable(c, 0)
    ensures var r, bk := Touch(c, policy, 0, 0), c.buckets[0];
            && r.victim == None && CacheSound(r.cache, SelfKey(), 0)
            && Pairs(r.cache.buckets) == Pairs(c.buckets)
            && r.cache.buckets[0].curpos == bk.curpos < LANES
            && r.cache.buckets[0].vals == bk.vals[bk.curpos := Add32(bk.vals[bk.curpos], 1)]
  {
    var rows, bk := |c.buckets|, c.buckets[0];
    ParkedTouch(c, policy);
    var r := Touch(c, policy, 0, 0);
    assert BucketSound(bk, 0, rows, SelfKey(), 0);
    ParkedBucket(bk, rows, Add32(bk.vals[bk.curpos], 1), Stamp(policy, Tick(c, policy).now, bk, bk.curpos));
    PairsSplit(c.buckets, 0);
    PairsUpdate(c.buckets, 0, r.cache.buckets[0]);
    forall d | 0 <= d < rows
      ensures BucketSound(r.cache.buckets[d], d, rows, SelfKey(), 0)
    {
      assert BucketSound(c.buckets[d], d, rows, SelfKey(), 0);
    }
  }

  /** The next new flow of the bucket takes that lane with count 1, and the parked count is gone. */
  lemma ParkedCountIsLost(c: Cache<uint32>, policy: Policy, k: uint32)
    requires CacheSound(c, SelfKey(), 0) && !Countable(c, 0)
    requires k != 0 && k % |c.buckets| == 0 && forall i :: 0 <= i < c.buckets[0].curpos ==> c.buckets[0].fps[i] != k
    ensures var r, p := Touch(c, policy, k, k), c.buckets[0].curpos;
            && r.victim == None
            && r.cache.buckets[0].ids[p] == k && r.cache.buckets[0].vals[p] == 1 && r.cache.buckets[0].curpos == p + 1
  {
    var i, val, time := TouchLane(c, policy, SelfKey(), 0, k);
  }

  lemma EmptyIsSound(rows: nat)
    requires rows > 0
    ensures CacheSound(EmptyCache<uint32>(rows, 0), SelfKey(), 0) && Pairs(EmptyCache<uint32>(rows, 0).buckets) == []
  {
    EmptyCacheInv(rows, SelfKey(), 0);
    InvIsSound(EmptyCache<uint32>(rows, 0), SelfKey(), 0);
    NoPairs(EmptyCache<uint32>(rows, 0).buckets);
  }

  /** One packet of any flow. */
  lemma AnyStepSimulates<S(!new)>(upd: (S, uint32, uint32) -> S, inv: S -> bool, ok: uint32 -> bool, policy: Policy, st: System<uint32, S>, k: uint32)
    requires Lawful(upd, inv, ok) && inv(st.sketch) && ok(k)
    requires CacheSound(st.cache, SelfKey(), 0) && AllOk(Pairs(st.cache.buckets), ok)
    ensures var st' := AggStep(upd, policy, SelfKey(), st, k);
            var drained := Drain(upd, st.sketch, Pairs(st.cache.buckets));
            && CacheSound(st'.cache, SelfKey(), 0) && inv(st'.sketch) && AllOk(Pairs(st'.cache.buckets), ok)
            && Drain(upd, st'.sketch, Pairs(st'.cache.buckets)) == if Countable(st.cache, k) then upd(drained, k, 1) else drained
  {
    if Countable(st.cache, k) {
      StepSimulates(upd, inv, ok, policy, SelfKey(), 0, st, k);
      TouchKeepsSound(st.cache, policy, SelfKey(), 0, k);
    } else {
      ParkedPacket(st.cache, policy);
    }
  }

  /** The count of flow 0 parked in the first unused lane of bucket 0. */
  function Parked(c: Cache<uint32>): uint32
    requires Shape(c)
  {
    var bk := c.buckets[0];
    if bk.curpos < LANES then bk.vals[bk.curpos] else 0
  }

  /** Unused lanes have count 0, except the first one of bucket 0. */
  ghost predicate OnlyFirstParked(bk: Bucket<uint32>, b: nat) {
    BucketShape(bk) && forall i :: bk.curpos <= i < LANES && !(b == 0 && i == bk.curpos) ==> bk.vals[i] == 0
  }

  ghost predicate ParkInv(c: Cache<uint32>) {
    CacheSound(c, SelfKey(), 0) && forall b :: 0 <= b < |c.buckets| ==> OnlyFirstParked(c.buckets[b], b)
  }

  lemma RefillKeepsParked(bk: Bucket<uint32>, b: nat, i: nat, fp: uint32, val: uint32, time: uint32)
    requires OnlyFirstParked(bk, b) && i <= bk.curpos && i < LANES
    ensures OnlyFirstParked(Refill(bk, i, fp, fp, val, time), b)
  {
  }

  /** What a counted packet does to the parked count: it is lost when the lane is taken, and otherwise untouched. */
  lemma CountedKeepsPark(c: Cache<uint32>, policy: Policy, k: uint32)
    requires ParkInv(c) && Countable(c, k)
    ensures var c' := Touch(c, policy, k, k).cache;
            ParkInv(c') && Parked(c') == if TakesLane(c, policy, k) then 0 else Parked(c)
  {
    var c' := Touch(c, policy, k, k).cache;
    var i, val, time := TouchLane(c, policy, SelfKey(), 0, k);
    TouchKeepsSound(c, policy, SelfKey(), 0, k);
    var b := k % |c.buckets|;
    assert OnlyFirstParked(c.buckets[b], b) && OnlyFirstParked(c.buckets[0], 0);
    RefillKeepsParked(c.buckets[b], b, i, k, val, time);
    forall d | 0 <= d < |c.buckets|
      ensures OnlyFirstParked(c'.buckets[d], d)
    {
      assert OnlyFirstParked(c.buckets[d], d);
    }
  }

  /** A packet of flow 0 that is not counted is parked. */
  lemma ParkedKeepsPark(c: Cache<uint32>, policy: Policy)
    requires ParkInv(c) && !Countable(c, 0)
    ensures var c' := Touch(c, policy, 0, 0).cache;
            ParkInv(c') && Parked(c') == Add32(Parked(c), 1) && !TakesLane(c, policy, 0)
  {
    var c' := Touch(c, policy, 0, 0).cache;
    ParkedTouch(c, policy);
    ParkedPacket(c, policy);
    forall d | 0 <= d < |c.buckets|
      ensures OnlyFirstParked(c'.buckets[d], d)
    {
      assert OnlyFirstParked(c.buckets[d], d);
    }
  }

  /** One packet, by its fate. */
  lemma ParkStep(c: Cache<uint32>, policy: Policy, k: uint32)
    requires ParkInv(c)
    ensures var c' := Touch(c, policy, k, k).cache;
            && ParkInv(c')
            && Parked(c') == match FateOf(c, policy, k) {
                               case Parks => Add32(Parked(c), 1)
                               case Takes => 0
                               case Counts => Parked(c)
                             }
  {
    if Countable(c, k) {
      CountedKeepsPark(c, policy, k);
    } else {
      ParkedKeepsPark(c, policy);
    }
  }

  // ---------- Whole runs ----------

  ghost predicate TraceStep<S>(upd: (S, uint32, uint32) -> S, policy: Policy, stream: seq<uint32>, sts: seq<System<uint32, S>>, fs: seq<Fate>, t: nat)
    requires t < |stream| == |fs| && |sts| == |stream| + 1
  {
    && Shape(sts[t].cache)
    && sts[t + 1] == AggStep(upd, policy, SelfKey(), sts[t], stream[t])
    && fs[t] == FateOf(sts[t].cache, policy, stream[t])
  }

  /** All states of a run, before and after each packet, and the fates of its packets. */
  ghost predicate Trace<S>(upd: (S, uint32, uint32) -> S, policy: Policy, rows: nat, s: S, stream: seq<uint32>, sts: seq<System<uint32, S>>, fs: seq<Fate>) {
    && |fs| == |stream| && |sts| == |stream| + 1 && sts[0] == System(EmptyCache<uint32>(rows, 0), s)
    && forall t :: 0 <= t < |stream| ==> TraceStep(upd, policy, stream, sts, fs, t)
  }

  lemma TraceOfRun<S>(upd: (S, uint32, uint32) -> S, policy: Policy, rows: nat, s: S, stream: seq<uint32>, fs: seq<Fate>)
      returns (sts: seq<System<uint32, S>>)
    requires rows > 0 && AreFates(policy, rows, stream, fs)
    ensures Trace(upd, policy, rows, s, stream, sts, fs)
    ensures sts[|stream|] == AggRun(upd, policy, SelfKey(), System(EmptyCache<uint32>(rows, 0), s), stream)
  {
    var st0 := System(EmptyCache<uint32>(rows, 0), s);
    sts := seq(|stream| + 1, t requires 0 <= t <= |stream| => AggRun(upd, policy, SelfKey(), st0, stream[..t]));
    assert stream[..|stream|] == stream && stream[..0] == [];
    forall t | 0 <= t < |stream|
      ensures TraceStep(upd, policy, stream, sts, fs, t)
    {
      assert FateAt(policy, rows, stream, fs, t);
      CacheRunIgnoresSketch(upd, policy, SelfKey(), st0, stream[..t]);
      assert stream[..t + 1][..t] == stream[..t];
    }
  }

  lemma KeptStep<S>(upd: (S, uint32, uint32) -> S, s: S, pre: seq<uint32>, kept: seq<uint32>, k: uint32, countable: bool)
    requires kept == pre + if countable then [k] else []
    ensures PlainRun(upd, s, kept) == if countable then upd(PlainRun(upd, s, pre), k, 1) else PlainRun(upd, s, pre)
  {
    if countable {
      assert kept[..|pre|] == pre;
    } else {
      assert kept == pre;
    }
  }

  ghost predicate SketchRight<S>(upd: (S, uint32, uint32) -> S, inv: S -> bool, ok: uint32 -> bool, st: System<uint32, S>, kept: S) {
    && ParkInv(st.cache) && inv(st.sketch) && AllOk(Pairs(st.cache.buckets), ok)
    && Drain(upd, st.sketch, Pairs(st.cache.buckets)) == kept
  }

  lemma SketchStep<S(!new)>(upd: (S, uint32, uint32) -> S, inv: S -> bool, ok: uint32 -> bool, policy: Policy, st: System<uint32, S>, k: uint32, kept: S)
    requires Lawful(upd, inv, ok) && ok(k) && SketchRight(upd, inv, ok, st, kept)
    ensures SketchRight(upd, inv, ok, AggStep(upd, policy, SelfKey(), st, k), if FateOf(st.cache, policy, k).Parks? then kept else upd(kept, k, 1))
  {
    AnyStepSimulates(upd, inv, ok, policy, st, k);
    ParkStep(st.cache, policy, k);
  }

  lemma {:induction false} SketchRun<S(!new)>(upd: (S, uint32, uint32) -> S, inv: S -> bool, ok: uint32 -> bool, policy: Policy, rows: nat, s: S, stream: seq<uint32>, sts: seq<System<uint32, S>>, fs: seq<Fate>, n: nat)
    requires rows > 0 && Lawful(upd, inv, ok) && inv(s) && Trace(upd, policy, rows, s, stream, sts, fs) && n <= |stream|
    requires forall i :: 0 <= i < |stream| ==> ok(stream[i])
    ensures SketchRight(upd, inv, ok, sts[n], PlainRun(upd, s, KeptOf(stream, fs, n)))
  {
    if n == 0 {
      EmptyIsParked(rows);
    } else {
      SketchRun(upd, inv, ok, policy, rows, s, stream, sts, fs, n - 1);
      assert TraceStep(upd, policy, stream, sts, fs, n - 1);
      var pre := KeptOf(stream, fs, n - 1);
      SketchStep(upd, inv, ok, policy, sts[n - 1], stream[n - 1], PlainRun(upd, s, pre));
      KeptStep(upd, s, pre, KeptOf(stream, fs, n), stream[n - 1], !fs[n - 1].Parks?);
    }
  }

  lemma EmptyIsParked(rows: nat)
    requires rows > 0
    ensures ParkInv(EmptyCache<uint32>(rows, 0)) && Parked(EmptyCache<uint32>(rows, 0)) == 0 && Pairs(EmptyCache<uint32>(rows, 0).buckets) == []
  {
    EmptyIsSound(rows);
  }

  /**
   Agg-Evict on every stream, flow 0 included: the sketch together with the cached pairs is the
   plain sketch of exactly the packets that the cache counts.
   */
  lemma AnyStreamRefinesPlainOfKept<S(!new)>(upd: (S, uint32, uint32) -> S, inv: S -> bool, ok: uint32 -> bool, policy: Policy, rows: nat, s: S, stream: seq<uint32>, fs: seq<Fate>)
    requires rows > 0 && Lawful(upd, inv, ok) && inv(s) && AreFates(policy, rows, stream, fs)
    requires forall i :: 0 <= i < |stream| ==> ok(stream[i])
    ensures var st := AggRun(upd, policy, SelfKey(), System(EmptyCache<uint32>(rows, 0), s), stream);
            SketchRight(upd, inv, ok, st, PlainRun(upd, s, KeptOf(stream, fs, |stream|)))
  {
    var sts := TraceOfRun(upd, policy, rows, s, stream, fs);
    SketchRun(upd, inv, ok, policy, rows, s, stream, sts, fs, |stream|);
  }

  lemma ParkedArithmetic(fs: seq<Fate>, n: nat, p: uint32, p': uint32)
    requires |fs| == n + 1
    requires p' == match fs[n] { case Parks => Add32(p, 1) case Takes => 0 case Counts => p }
    ensures n + 1 < WORD && p == ParkedOf(fs, n) ==> p' == ParkedOf(fs, n + 1)
  {
    if n + 1 < WORD && p == ParkedOf(fs, n) {
      Add32Small(p, 1);
    }
  }

  /** On every run below 2^32 packets the parked count is the number of packets parked since the lane was last taken. */
  lemma {:induction false} ParkedRun<S>(upd: (S, uint32, uint32) -> S, policy: Policy, rows: nat, s: S, stream: seq<uint32>, sts: seq<System<uint32, S>>, fs: seq<Fate>, n: nat)
    requires rows > 0 && Trace(upd, policy, rows, s, stream, sts, fs) && n <= |stream| < WORD
    ensures ParkInv(sts[n].cache) && Parked(sts[n].cache) == ParkedOf(fs, n)
  {
    if n == 0 {
      EmptyIsParked(rows);
    } else {
      ParkedRun(upd, policy, rows, s, stream, sts, fs, n - 1);
      assert TraceStep(upd, policy, stream, sts, fs, n - 1);
      ParkStep(sts[n - 1].cache, policy, stream[n - 1]);
      ParkedArithmetic(fs[..n], n - 1, Parked(sts[n - 1].cache), Parked(sts[n].cache));
      SameFates(fs, fs[..n], n - 1);
      SameFates(fs, fs[..n], n);
    }
  }

  lemma {:induction false} SameFates(fs: seq<Fate>, gs: seq<Fate>, n: nat)
    requires n <= |fs| && n <= |gs| && forall i :: 0 <= i < n ==> fs[i] == gs[i]
    ensures ParkedOf(fs, n) == ParkedOf(gs, n)
  {
    if n > 0 {
      SameFates(fs, gs, n - 1);
    }
  }

  // ---------- The reset flush ----------

  /** Bucket 0 flushed in full: its pairs, then the parked count unless it is full. */
  lemma FlushParked<S(!new)>(upd: (S, uint32, uint32) -> S, inv: S -> bool, ok: uint32 -> bool, s: S, bk: Bucket<uint32>, rows: nat)
    requires Lawful(upd, inv, ok) && inv(s) && ok(0) && rows > 0
    requires BucketSound(bk, 0, rows, SelfKey(), 0) && OnlyFirstParked(bk, 0) && AllOk(Occupied(bk), ok)
    ensures var t := Drain(upd, s, Occupied(bk));
            inv(t) && Drain(upd, s, Lanes(bk)) == if bk.curpos == LANES then t else upd(t, 0, bk.vals[bk.curpos])
  {
    var t := Drain(upd, s, Occupied(bk));
    DrainCommutes(upd, inv, ok, s, Occupied(bk), 0, 0);
    if bk.curpos == LANES {
      assert Lanes(bk) == Occupied(bk);
    } else {
      var p, free := Entry(0 as uint32, bk.vals[bk.curpos]), Phantoms<uint32>(0, LANES - 1 - bk.curpos);
      assert Lanes(bk) == Occupied(bk) + ([p] + free);
      DrainConcat(upd, s, Occupied(bk), [p] + free);
      assert ([p] + free)[1..] == free;
      assert Stays(upd, inv, t, 0, p.count) && Merges(upd, t, 0, p.count, 0);
      Add32Small(p.count, 0);
      DrainPhantoms(upd, inv, ok, upd(t, 0, p.count), 0, LANES - 1 - bk.curpos);
    }
  }

  lemma FlushFirstBucket<S(!new)>(upd: (S, uint32, uint32) -> S, inv: S -> bool, ok: uint32 -> bool, s: S, c: Cache<uint32>)
    requires Lawful(upd, inv, ok) && inv(s) && ok(0) && ParkInv(c) && AllOk(PairsIn(c.buckets, 0, 1), ok)
    ensures var t := Drain(upd, s, PairsIn(c.buckets, 0, 1));
            inv(t) && Drain(upd, s, LanesTo(c.buckets, 1)) == if FullTo(c.buckets, 1) then t else upd(t, 0, Parked(c))
  {
    var bk := c.buckets[0];
    assert PairsIn(c.buckets, 0, 0) == [] && LanesTo(c.buckets, 0) == [];
    assert PairsIn(c.buckets, 0, 1) == Occupied(bk) && LanesTo(c.buckets, 1) == Lanes(bk);
    assert BucketSound(bk, 0, |c.buckets|, SelfKey(), 0) && OnlyFirstParked(bk, 0);
    FlushParked(upd, inv, ok, s, bk, |c.buckets|);
  }

  lemma LaterTailIsZero(c: Cache<uint32>, b: nat)
    requires ParkInv(c) && 0 < b < |c.buckets|
    ensures BucketShape(c.buckets[b]) && ZeroTail(c.buckets[b], 0)
  {
    assert BucketSound(c.buckets[b], b, |c.buckets|, SelfKey(), 0) && OnlyFirstParked(c.buckets[b], b);
  }

  lemma JoinBucket<S(!new)>(upd: (S, uint32, uint32) -> S, inv: S -> bool, ok: uint32 -> bool, t: S, d: S, bk: Bucket<uint32>, full: bool, p: uint32)
    requires Lawful(upd, inv, ok) && inv(t) && ok(0) && BucketShape(bk) && AllOk(Occupied(bk), ok) && ZeroTail(bk, 0)
    requires d == (if full then t else upd(t, 0, p)) && (full ==> p == 0)
    ensures var u := Drain(upd, t, Occupied(bk));
            inv(u) && Drain(upd, d, Lanes(bk)) == if full && bk.curpos == LANES then u else upd(u, 0, p)
  {
    FlushOneMore(upd, inv, ok, t, bk, 0, p);
  }

  lemma FullTables(c: Cache<uint32>, n: nat)
    requires Shape(c) && 1 < n <= |c.buckets|
    ensures FullTo(c.buckets, n) <==> FullTo(c.buckets, n - 1) && c.buckets[n - 1].curpos == LANES
    ensures FullTo(c.buckets, n - 1) ==> Parked(c) == 0
  {
  }

  lemma {:induction false} FlushLanesWithParked<S(!new)>(upd: (S, uint32, uint32) -> S, inv: S -> bool, ok: uint32 -> bool, s: S, c: Cache<uint32>, n: nat)
    requires Lawful(upd, inv, ok) && inv(s) && ok(0) && ParkInv(c) && 0 < n <= |c.buckets| && AllOk(PairsIn(c.buckets, 0, n), ok)
    ensures var t := Drain(upd, s, PairsIn(c.buckets, 0, n));
            inv(t) && Drain(upd, s, LanesTo(c.buckets, n)) == if FullTo(c.buckets, n) then t else upd(t, 0, Parked(c))
  {
    if n == 1 {
      FlushFirstBucket(upd, inv, ok, s, c);
    } else {
      var bk, pairs, lanes := c.buckets[n - 1], PairsIn(c.buckets, 0, n - 1), LanesTo(c.buckets, n - 1);
      LaterTailIsZero(c, n - 1);
      AllOkParts(PairsIn(c.buckets, 0, n), ok, pairs, Occupied(bk), []);
      FlushLanesWithParked(upd, inv, ok, s, c, n - 1);
      DrainConcat(upd, s, lanes, Lanes(bk));
      DrainConcat(upd, s, pairs, Occupied(bk));
      FullTables(c, n);
      JoinBucket(upd, inv, ok, Drain(upd, s, pairs), Drain(upd, s, lanes), bk, FullTo(c.buckets, n - 1), Parked(c));
    }
  }

  lemma FlushOfState<S(!new)>(upd: (S, uint32, uint32) -> S, inv: S -> bool, ok: uint32 -> bool, st: System<uint32, S>, kept: S)
    requires Lawful(upd, inv, ok) && ok(0) && SketchRight(upd, inv, ok, st, kept)
    ensures inv(kept)
    ensures Drain(upd, st.sketch, AllLanes(st.cache.buckets)) == if AllFull(st.cache.buckets) then kept else upd(kept, 0, Parked(st.cache))
  {
    FlushLanesWithParked(upd, inv, ok, st.sketch, st.cache, |st.cache.buckets|);
  }

  /**
   The reset flush on every stream, flow 0 included: it leaves the plain sketch of the counted
   packets, plus one update of flow 0 with the count parked in bucket 0, unless every lane is used.
   */
  lemma FlushOnAnyStream<S(!new)>(upd: (S, uint32, uint32) -> S, inv: S -> bool, ok: uint32 -> bool, policy: Policy, rows: nat, s: S, stream: seq<uint32>, fs: seq<Fate>)
    requires rows > 0 && Lawful(upd, inv, ok) && inv(s) && ok(0) && AreFates(policy, rows, stream, fs)
    requires forall i :: 0 <= i < |stream| ==> ok(stream[i])
    ensures var st := AggRun(upd, policy, SelfKey(), System(EmptyCache<uint32>(rows, 0), s), stream);
            var kept := PlainRun(upd, s, KeptOf(stream, fs, |stream|));
            && inv(kept)
            && Drain(upd, st.sketch, AllLanes(st.cache.buckets)) == (if AllFull(st.cache.buckets) then kept else upd(kept, 0, Parked(st.cache)))
            && (|stream| < WORD ==> Parked(st.cache) == ParkedOf(fs, |stream|))
  {
    var sts := TraceOfRun(upd, policy, rows, s, stream, fs);
    SketchRun(upd, inv, ok, policy, rows, s, stream, sts, fs, |stream|);
    FlushOfState(upd, inv, ok, sts[|stream|], PlainRun(upd, s, KeptOf(stream, fs, |stream|)));
    if |stream| < WORD {
      ParkedRun(upd, policy, rows, s, stream, sts, fs, |stream|);
    }
  }

  // ---------- What is lost ----------

  /** A sketch with some packets of flow 0 added. */
  function WithZeros<S>(upd: (S, uint32, uint32) -> S, kept: S, zeros: uint32): S {
    if zeros == 0 then kept else upd(kept, 0, zeros)
  }

  lemma ZerosStep<S(!new)>(upd: (S, uint32, uint32) -> S, inv: S -> bool, ok: uint32 -> bool, kept: S, zeros: uint32, k: uint32)
    requires Lawful(upd, inv, ok) && inv(kept) && ok(0) && ok(k) && zeros + 1 < WORD
    ensures inv(upd(kept, k, 1))
    ensures upd(WithZeros(upd, kept, zeros), k, 1) == WithZeros(upd, upd(kept, k, 1), zeros)
    ensures upd(WithZeros(upd, kept, zeros), 0, 1) == WithZeros(upd, kept, zeros + 1)
  {
    assert Stays(upd, inv, kept, k, 1) && Swaps(upd, kept, 0, zeros, k, 1) && Merges(upd, kept, 0, zeros, 1);
    Add32Small(zeros, 1);
  }

  lemma PlainSnoc<S>(upd: (S, uint32, uint32) -> S, s: S, stream: seq<uint32>, n: nat)
    requires n < |stream|
    ensures PlainRun(upd, s, stream[..n + 1]) == upd(PlainRun(upd, s, stream[..n]), stream[n], 1)
  {
    assert stream[..n + 1][..n] == stream[..n];
  }

  ghost predicate PlainRight<S>(upd: (S, uint32, uint32) -> S, inv: S -> bool, plain: S, kept: S, zeros: int) {
    inv(kept) && 0 <= zeros < WORD && plain == WithZeros(upd, kept, zeros)
  }

  lemma PlainStep<S(!new)>(upd: (S, uint32, uint32) -> S, inv: S -> bool, ok: uint32 -> bool, plain: S, kept: S, zeros: int, k: uint32, parks: bool)
    requires Lawful(upd, inv, ok) && ok(0) && ok(k) && PlainRight(upd, inv, plain, kept, zeros) && zeros + 1 < WORD && (parks ==> k == 0)
    ensures PlainRight(upd, inv, upd(plain, k, 1), if parks then kept else upd(kept, k, 1), if parks then zeros + 1 else zeros)
  {
    ZerosStep(upd, inv, ok, kept, zeros, k);
  }

  /** The plain sketch of a stream is that of the counted packets with the parked packets, all of flow 0, added. */
  lemma {:induction false} PlainIsKeptPlusZeros<S(!new)>(upd: (S, uint32, uint32) -> S, inv: S -> bool, ok: uint32 -> bool, s: S, stream: seq<uint32>, fs: seq<Fate>, n: nat)
    requires Lawful(upd, inv, ok) && inv(s) && ok(0) && n <= |stream| == |fs| < WORD
    requires (forall i :: 0 <= i < |stream| ==> ok(stream[i])) && forall i :: 0 <= i < |fs| && fs[i].Parks? ==> stream[i] == 0
    ensures PlainRight(upd, inv, PlainRun(upd, s, stream[..n]), PlainRun(upd, s, KeptOf(stream, fs, n)), n - |KeptOf(stream, fs, n)|)
  {
    if n > 0 {
      PlainIsKeptPlusZeros(upd, inv, ok, s, stream, fs, n - 1);
      var pre, k := KeptOf(stream, fs, n - 1), stream[n - 1];
      var plain, kept := PlainRun(upd, s, stream[..n - 1]), PlainRun(upd, s, pre);
      PlainSnoc(upd, s, stream, n - 1);
      PlainStep(upd, inv, ok, plain, kept, n - 1 - |pre|, k, fs[n - 1].Parks?);
      if fs[n - 1].Parks? {
        assert KeptOf(stream, fs, n) == pre;
      } else {
        RunSnoc(upd, s, pre, k);
        assert KeptOf(stream, fs, n) == pre + [k];
      }
    }
  }

  lemma RunSnoc<S>(upd: (S, uint32, uint32) -> S, s: S, stream: seq<uint32>, k: uint32)
    ensures PlainRun(upd, s, stream + [k]) == upd(PlainRun(upd, s, stream), k, 1)
  {
    assert (stream + [k])[..|stream|] == stream;
  }

  lemma ParkedAreZeros(policy: Policy, rows: nat, stream: seq<uint32>, fs: seq<Fate>)
    requires rows > 0 && AreFates(policy, rows, stream, fs)
    ensures forall i :: 0 <= i < |fs| && fs[i].Parks? ==> stream[i] == 0
  {
    forall i | 0 <= i < |fs| && fs[i].Parks?
      ensures stream[i] == 0
    {
      assert FateAt(policy, rows, stream, fs, i);
    }
  }

  // ---------- Count-Min ----------

  /** The table after the reset flush. */
  function FlushedTable(policy: Policy, rows: nat, hash: (uint32, nat) -> uint32, size: nat, t0: seq<uint32>, stream: seq<uint32>): seq<uint32>
    requires rows > 0 && size > 0
  {
    var st := AggRun(CmUpd(hash, size), policy, SelfKey(), System(EmptyCache<uint32>(rows, 0), t0), stream);
    Drain(CmUpd(hash, size), st.sketch, AllLanes(st.cache.buckets))
  }

  lemma ZerosAreNothing(hash: (uint32, nat) -> uint32, size: nat, t: seq<uint32>, a: uint32, b: uint32)
    requires size > 0 && a + b < WORD
    ensures CmUpd(hash, size)(t, 0, 0) == t
    ensures CmUpd(hash, size)(CmUpd(hash, size)(t, 0, a), 0, b) == CmUpd(hash, size)(t, 0, a + b)
  {
    ZeroWeightIsNothing(hash, size, t);
    CmIsLawful(hash, size);
    assert Merges(CmUpd(hash, size), t, 0, a, b);
    Add32Small(a, b);
  }

  /** The flushed table is that of the counted packets with the parked count added, whether or not the cache is full. */
  lemma FlushedTableIs(policy: Policy, rows: nat, hash: (uint32, nat) -> uint32, size: nat, t0: seq<uint32>, stream: seq<uint32>, fs: seq<Fate>)
    requires rows > 0 && size > 0 && |stream| < WORD && AreFates(policy, rows, stream, fs)
    ensures FlushedTable(policy, rows, hash, size, t0, stream)
         == CmUpd(hash, size)(PlainRun(CmUpd(hash, size), t0, KeptOf(stream, fs, |stream|)), 0, ParkedOf(fs, |stream|))
  {
    CmIsLawful(hash, size);
    FlushOnAnyStream(CmUpd(hash, size), Always(), Always(), policy, rows, t0, stream, fs);
    FullHasNoParked(AggRun(CmUpd(hash, size), policy, SelfKey(), System(EmptyCache<uint32>(rows, 0), t0), stream).cache);
    ZeroWeightIsNothing(hash, size, PlainRun(CmUpd(hash, size), t0, KeptOf(stream, fs, |stream|)));
  }

  lemma PlainTableIs(policy: Policy, rows: nat, hash: (uint32, nat) -> uint32, size: nat, t0: seq<uint32>, stream: seq<uint32>, fs: seq<Fate>)
    requires rows > 0 && size > 0 && |stream| < WORD && AreFates(policy, rows, stream, fs)
    ensures PlainRun(CmUpd(hash, size), t0, stream)
         == CmUpd(hash, size)(PlainRun(CmUpd(hash, size), t0, KeptOf(stream, fs, |stream|)), 0, |stream| - |KeptOf(stream, fs, |stream|)|)
  {
    CmIsLawful(hash, size);
    ParkedAreZeros(policy, rows, stream, fs);
    PlainIsKeptPlusZeros(CmUpd(hash, size), Always(), Always(), t0, stream, fs, |stream|);
    assert stream[..|stream|] == stream;
    ZeroWeightIsNothing(hash, size, PlainRun(CmUpd(hash, size), t0, KeptOf(stream, fs, |stream|)));
  }

  /** Count-Min on every stream: what the flushed table lacks of the plain one is exactly the lost packets of flow 0. */
  lemma FlushedTableLacksLost(policy: Policy, rows: nat, hash: (uint32, nat) -> uint32, size: nat, t0: seq<uint32>, stream: seq<uint32>, fs: seq<Fate>)
    requires rows > 0 && size > 0 && |stream| < WORD && AreFates(policy, rows, stream, fs)
    ensures LostOf(fs, |stream|) < WORD
    ensures PlainRun(CmUpd(hash, size), t0, stream)
         == CmUpd(hash, size)(FlushedTable(policy, rows, hash, size, t0, stream), 0, LostOf(fs, |stream|))
  {
    PacketsKeptParkedOrLost(stream, fs, |stream|);
    FlushedTableIs(policy, rows, hash, size, t0, stream, fs);
    PlainTableIs(policy, rows, hash, size, t0, stream, fs);
    ZerosAreNothing(hash, size, PlainRun(CmUpd(hash, size), t0, KeptOf(stream, fs, |stream|)), ParkedOf(fs, |stream|), LostOf(fs, |stream|));
  }

  lemma FullHasNoParked(c: Cache<uint32>)
    requires Shape(c)
    ensures AllFull(c.buckets) ==> Parked(c) == 0
  {
  }

  /** Weight other than 0 modulo 2^32 shows in flow 0's first counter. */
  lemma WeightShows(hash: (uint32, nat) -> uint32, size: nat, t: seq<uint32>, v: uint32)
    requires size > 0 && |t| == 4 * size
    ensures CmUpd(hash, size)(t, 0, v) == t <==> v == 0
  {
    if v == 0 {
      ZeroWeightIsNothing(hash, size, t);
    } else {
      var pos, p := CmPos(hash, size), CmPos(hash, size)(0, 0);
      InsertCounter(pos, 4, t, 0, v, p);
      FirstRowOnly(hash, size, v);
      PlusShows(t[p], v);
    }
  }

  lemma PlusShows(x: uint32, v: uint32)
    requires v > 0
    ensures Plus32(x, v) != x
  {
  }

  lemma FirstRowOnly(hash: (uint32, nat) -> uint32, size: nat, v: uint32)
    requires size > 0
    ensures var pos := CmPos(hash, size); pos(0, 0) < size && Weight(pos, 4, 0, v, pos(0, 0)) == v
  {
    var pos := CmPos(hash, size);
    var p := pos(0, 0);
    assert Weight(pos, 1, 0, v, p) == v;
    assert pos(0, 1) >= size && pos(0, 2) >= size && pos(0, 3) >= size;
    assert Weight(pos, 2, 0, v, p) == v;
    assert Weight(pos, 3, 0, v, p) == v;
  }

  /** On every stream below 2^32 packets the flushed Count-Min table is the plain one if and only if no packet of flow 0 is lost. */
  lemma FlushedTableIsPlainExactlyWhen(policy: Policy, rows: nat, hash: (uint32, nat) -> uint32, size: nat, t0: seq<uint32>, stream: seq<uint32>, fs: seq<Fate>)
    requires rows > 0 && size > 0 && |stream| < WORD && |t0| == 4 * size && AreFates(policy, rows, stream, fs)
    ensures FlushedTable(policy, rows, hash, size, t0, stream) == PlainRun(CmUpd(hash, size), t0, stream) <==> LostOf(fs, |stream|) == 0
  {
    FlushedTableLacksLost(policy, rows, hash, size, t0, stream, fs);
    FlushedTableIs(policy, rows, hash, size, t0, stream, fs);
    PlainCountersCountPackets(hash, size, t0, KeptOf(stream, fs, |stream|));
    WeightShows(hash, size, FlushedTable(policy, rows, hash, size, t0, stream), LostOf(fs, |stream|));
  }

  /** One packet of flow 0 is parked and not lost; a new flow of its bucket then loses it. */
  lemma ParkedThenLost(policy: Policy)
    ensures AreFates(policy, 1, [0], [Parks]) && LostOf([Parks], 1) == 0
    ensures AreFates(policy, 1, [0, 1], [Parks, Takes]) && LostOf([Parks, Takes], 2) == 1
  {
    FirstZeroParks(policy);
    assert FateAt(policy, 1, [0], [Parks], 0) by {
      assert [0][..0] == [];
    }
    assert FateAt(policy, 1, [0, 1], [Parks, Takes], 0) && FateAt(policy, 1, [0, 1], [Parks, Takes], 1) by {
      assert [0, 1][..0] == [] && [0, 1][..1] == [0];
    }
    assert ParkedOf([Parks, Takes], 1) == 1 && LostOf([Parks, Takes], 1) == 0;
  }

  lemma FirstZeroParks(policy: Policy)
    ensures var c0 := EmptyCache<uint32>(1, 0);
            && FateOf(c0, policy, 0) == Parks
            && FateOf(CacheRun(policy, SelfKey(), c0, [0]), policy, 1) == Takes
  {
    var c0 := EmptyCache<uint32>(1, 0);
    EmptyIsSound(1);
    ParkedPacket(c0, policy);
    CacheRunSnoc(policy, SelfKey(), c0, [], 0);
    assert [] + [0] == [0];
    ParkedCountIsLost(Touch(c0, policy, 0, 0).cache, policy, 1);
  }
}
