/**
 The reset flush of Space-Saving behind the cache: all lanes, used or not, are pushed into the
 heap, and the heap is then written out.
 */
module SpaceSavingFlush {
  import opened Machine
  import opened SimdMatch
  import opened AggCache
  import opened AggEvict
  import opened FlowCounts
  import opened MinHeap
  import opened SpaceSaving
  import opened SpaceSavingSimd

  /** The heap after the flush has visited the first j lanes. */
  function Flushed(size: nat, policy: Policy, rows: nat, stream: seq<uint32>, j: nat): seq<Node>
    requires rows > 0 && j <= |AllLanes(CachedSs(size, policy, rows, stream).cache.buckets)|
  {
    var st := CachedSs(size, policy, rows, stream);
    Drain(SsUpd(size), st.sketch, AllLanes(st.cache.buckets)[..j])
  }

  /** A lane with flow 0 is unused and has count 0. */
  ghost predicate ZeroIsUnused(e: Entry<uint32>) {
    e.id == 0 ==> e.count == 0
  }

  ghost predicate UnusedIsZero(bk: Bucket<uint32>) {
    BucketShape(bk) && ZeroTail(bk, 0) && forall i :: 0 <= i < bk.curpos ==> bk.ids[i] != 0
  }

  lemma {:induction false} UnusedLanes(buckets: seq<Bucket<uint32>>, n: nat)
    requires n <= |buckets| && forall b :: 0 <= b < |buckets| ==> BucketShape(buckets[b])
    requires forall b :: 0 <= b < |buckets| ==> UnusedIsZero(buckets[b])
    ensures forall j :: 0 <= j < |LanesTo(buckets, n)| ==> ZeroIsUnused(LanesTo(buckets, n)[j])
    ensures TotalOf(LanesTo(buckets, n)) == TotalOf(PairsIn(buckets, 0, n))
  {
    if n > 0 {
      var bk := buckets[n - 1];
      assert UnusedIsZero(bk);
      UnusedLanes(buckets, n - 1);
      LanesOfBucket(bk);
      TotalOfConcat(LanesTo(buckets, n - 1), Lanes(bk));
      TotalOfConcat(PairsIn(buckets, 0, n - 1), Occupied(bk));
    }
  }

  lemma LanesOfBucket(bk: Bucket<uint32>)
    requires UnusedIsZero(bk)
    ensures forall j :: 0 <= j < LANES ==> ZeroIsUnused(Lanes(bk)[j])
    ensures TotalOf(Lanes(bk)) == TotalOf(Occupied(bk))
  {
    var free := Phantoms<uint32>(0, LANES - bk.curpos);
    assert Lanes(bk) == Occupied(bk) + free;
    TotalOfConcat(Occupied(bk), free);
    TotalOfPhantoms<uint32>(0, LANES - bk.curpos);
  }

  lemma {:induction false} TotalOfPhantoms<K>(zero: K, n: nat)
    ensures TotalOf(Phantoms(zero, n)) == 0
  {
    if n > 0 {
      assert Phantoms(zero, n)[1..] == Phantoms(zero, n - 1);
      TotalOfPhantoms(zero, n - 1);
    }
  }

  lemma LanesOfRun(size: nat, policy: Policy, rows: nat, stream: seq<uint32>)
    requires size > 0 && rows > 0 && |stream| < WORD && NonZero(stream)
    ensures var lanes := AllLanes(CachedSs(size, policy, rows, stream).cache.buckets);
            && (forall j :: 0 <= j < |lanes| ==> ZeroIsUnused(lanes[j]))
            && TotalOf(Evicted(policy, rows, stream)) + TotalOf(lanes) == |stream|
  {
    HeapSeesEvictedPairs(size, policy, rows, stream);
    CountsAreExact(policy, SelfKey(), 0, rows, stream);
    var buckets := CachedSs(size, policy, rows, stream).cache.buckets;
    forall b | 0 <= b < |buckets|
      ensures UnusedIsZero(buckets[b])
    {
      assert BucketInv(buckets[b], b, rows, SelfKey(), 0);
    }
    UnusedLanes(buckets, |buckets|);
  }

  lemma EvictedIsNonZero(policy: Policy, rows: nat, stream: seq<uint32>)
    requires rows > 0 && NonZero(stream)
    ensures var log := Evicted(policy, rows, stream); forall i :: 0 <= i < |log| ==> log[i].id != 0
  {
    RecordedFlows(policy, SelfKey(), 0, rows, stream);
    var log, all := Evicted(policy, rows, stream), Recorded(policy, SelfKey(), 0, rows, stream);
    forall i | 0 <= i < |log|
      ensures log[i].id != 0
    {
      assert all[i] == log[i] && all[i].id in Ids(all);
    }
  }

  /** The flush, lane by lane, is Space-Saving on the evicted pairs followed by the lanes. */
  lemma FlushIsAfter(size: nat, policy: Policy, rows: nat, stream: seq<uint32>, j: nat)
    requires size > 0 && rows > 0 && |stream| < WORD && NonZero(stream)
    requires j <= |AllLanes(CachedSs(size, policy, rows, stream).cache.buckets)|
    ensures var es := Evicted(policy, rows, stream) + AllLanes(CachedSs(size, policy, rows, stream).cache.buckets)[..j];
            TotalOf(es) < WORD && Flushed(size, policy, rows, stream, j) == After(size, es, |es|)
  {
    var st, log := CachedSs(size, policy, rows, stream), Evicted(policy, rows, stream);
    var lanes := AllLanes(st.cache.buckets);
    LanesOfRun(size, policy, rows, stream);
    RunIsDrainedLog(SsUpd(size), policy, SelfKey(), 0, rows, [], stream);
    assert lanes == lanes[..j] + lanes[j..];
    TotalOfConcat(lanes[..j], lanes[j..]);
    TotalOfConcat(log, lanes[..j]);
    DrainConcat(SsUpd(size), [], log, lanes[..j]);
    DrainIsAfter(size, log + lanes[..j]);
  }

  /** An unused lane after any pairs of non-zero flows. */
  lemma PhantomAfter(size: nat, es: seq<Entry<uint32>>, es': seq<Entry<uint32>>)
    requires size > 0 && (forall i :: 0 <= i < |es| ==> es[i].id != 0) && es' == es + [Entry(0, 0)]
    ensures var h, h' := After(size, es, |es|), After(size, es', |es'|);
            && !Tracked(h, 0) && Tracked(h', 0)
            && (ForgetsNone(h, h') <==> |h| < size)
  {
    AfterPrefix(size, es, Entry(0, 0), |es|);
    EveryRun(size, es, |es|);
    ZeroIsNeverTracked(size, es, |es|);
    PhantomForgetsExactlyWhen(size, After(size, es, |es|));
  }

  /**
   The first unused lane of the flush, after every stream of non-zero flows below 2^32 packets:
   it puts flow 0 into the heap, and this step forgets a flow if and only if the heap is full.
   */
  lemma FirstUnusedLane(size: nat, policy: Policy, rows: nat, stream: seq<uint32>, j: nat)
    requires size > 0 && rows > 0 && |stream| < WORD && NonZero(stream)
    requires var lanes := AllLanes(CachedSs(size, policy, rows, stream).cache.buckets);
             j < |lanes| && lanes[j].id == 0 && forall i :: 0 <= i < j ==> lanes[i].id != 0
    ensures var h, h' := Flushed(size, policy, rows, stream, j), Flushed(size, policy, rows, stream, j + 1);
            && !Tracked(h, 0) && Tracked(h', 0)
            && (ForgetsNone(h, h') <==> |h| < size)
  {
    var log, lanes := Evicted(policy, rows, stream), AllLanes(CachedSs(size, policy, rows, stream).cache.buckets);
    LanesOfRun(size, policy, rows, stream);
    assert ZeroIsUnused(lanes[j]);
    EvictedIsNonZero(policy, rows, stream);
    PhantomLane(size, log, lanes, j);
    FlushIsAfter(size, policy, rows, stream, j);
    FlushIsAfter(size, policy, rows, stream, j + 1);
  }

  lemma PhantomLane(size: nat, log: seq<Entry<uint32>>, lanes: seq<Entry<uint32>>, j: nat)
    requires size > 0 && j < |lanes| && lanes[j] == Entry(0, 0)
    requires (forall i :: 0 <= i < |log| ==> log[i].id != 0) && forall i :: 0 <= i < j ==> lanes[i].id != 0
    ensures var es, es' := log + lanes[..j], log + lanes[..j + 1];
            var h, h' := After(size, es, |es|), After(size, es', |es'|);
            && !Tracked(h, 0) && Tracked(h', 0)
            && (ForgetsNone(h, h') <==> |h| < size)
  {
    PhantomAfter(size, log + lanes[..j], log + lanes[..j + 1]);
  }

  // ---------- The whole flush ----------

  function CachedLanes(size: nat, policy: Policy, rows: nat, stream: seq<uint32>): seq<Entry<uint32>>
    requires rows > 0
  {
    AllLanes(CachedSs(size, policy, rows, stream).cache.buckets)
  }

  /** Everything that reaches the heap of a run that ends with the flush. */
  function FlushLog(size: nat, policy: Policy, rows: nat, stream: seq<uint32>): seq<Entry<uint32>>
    requires rows > 0
  {
    Evicted(policy, rows, stream) + CachedLanes(size, policy, rows, stream)
  }

  /** The heap that is written out. */
  function Report(size: nat, policy: Policy, rows: nat, stream: seq<uint32>): seq<Node>
    requires rows > 0
  {
    var st := CachedSs(size, policy, rows, stream);
    Drain(SsUpd(size), st.sketch, AllLanes(st.cache.buckets))
  }

  lemma ReportIsAfter(size: nat, policy: Policy, rows: nat, stream: seq<uint32>)
    requires size > 0 && rows > 0 && |stream| < WORD && NonZero(stream)
    ensures var es := FlushLog(size, policy, rows, stream);
            Report(size, policy, rows, stream) == After(size, es, |es|)
  {
    var lanes := CachedLanes(size, policy, rows, stream);
    assert lanes[..|lanes|] == lanes;
    FlushIsAfter(size, policy, rows, stream, |lanes|);
  }

  function FlowsOf(stream: seq<uint32>): set<uint32> {
    set i | 0 <= i < |stream| :: stream[i]
  }

  lemma {:induction false} SeenIsIds(es: seq<Entry<uint32>>, i: nat)
    requires i <= |es|
    ensures SeenIds(es, i) == Ids(es[..i])
  {
    if i > 0 {
      SeenIsIds(es, i - 1);
      IdsConcat(es[..i - 1], [es[i - 1]]);
      assert es[..i] == es[..i - 1] + [es[i - 1]];
      assert Ids([es[i - 1]]) == {es[i - 1].id} by {
        assert [es[i - 1]][0].id in Ids([es[i - 1]]);
      }
    }
  }

  lemma IdsConcat<K>(xs: seq<Entry<K>>, ys: seq<Entry<K>>)
    ensures Ids(xs + ys) == Ids(xs) + Ids(ys)
  {
    var zs := xs + ys;
    assert forall i :: 0 <= i < |xs| ==> zs[i] == xs[i];
    assert forall i :: 0 <= i < |ys| ==> zs[|xs| + i] == ys[i];
  }

  lemma IdsOfLanes(bk: Bucket<uint32>)
    requires UnusedIsZero(bk)
    ensures Ids(Lanes(bk)) == Ids(Occupied(bk)) + if bk.curpos == LANES then {} else {0}
  {
    var free := Phantoms<uint32>(0, LANES - bk.curpos);
    assert Lanes(bk) == Occupied(bk) + free;
    IdsConcat(Occupied(bk), free);
    if bk.curpos < LANES {
      assert free[0].id == 0;
    }
  }

  lemma {:induction false} IdsOfLanesTo(buckets: seq<Bucket<uint32>>, n: nat)
    requires n <= |buckets| && forall b :: 0 <= b < |buckets| ==> BucketShape(buckets[b])
    requires forall b :: 0 <= b < |buckets| ==> UnusedIsZero(buckets[b])
    ensures Ids(LanesTo(buckets, n)) == Ids(PairsIn(buckets, 0, n)) + if FullTo(buckets, n) then {} else {0}
  {
    if n > 0 {
      var bk := buckets[n - 1];
      assert UnusedIsZero(bk);
      IdsOfLanesTo(buckets, n - 1);
      IdsOfLanes(bk);
      IdsConcat(LanesTo(buckets, n - 1), Lanes(bk));
      IdsConcat(PairsIn(buckets, 0, n - 1), Occupied(bk));
    }
  }

  lemma RunLeavesUnusedZero(size: nat, policy: Policy, rows: nat, stream: seq<uint32>)
    requires size > 0 && rows > 0 && |stream| < WORD && NonZero(stream)
    ensures var buckets := CachedSs(size, policy, rows, stream).cache.buckets;
            forall b :: 0 <= b < |buckets| ==> UnusedIsZero(buckets[b])
  {
    HeapSeesEvictedPairs(size, policy, rows, stream);
    CountsAreExact(policy, SelfKey(), 0, rows, stream);
    var buckets := CachedSs(size, policy, rows, stream).cache.buckets;
    forall b | 0 <= b < |buckets|
      ensures UnusedIsZero(buckets[b])
    {
      assert BucketInv(buckets[b], b, rows, SelfKey(), 0);
    }
  }

  /** The flows that reach the heap: those of the stream, and flow 0 unless every lane is in use. */
  lemma FlushLogIds(size: nat, policy: Policy, rows: nat, stream: seq<uint32>)
    requires size > 0 && rows > 0 && |stream| < WORD && NonZero(stream)
    ensures var buckets := CachedSs(size, policy, rows, stream).cache.buckets;
            Ids(FlushLog(size, policy, rows, stream)) == FlowsOf(stream) + if AllFull(buckets) then {} else {0}
  {
    var log, buckets := Evicted(policy, rows, stream), CachedSs(size, policy, rows, stream).cache.buckets;
    RunLeavesUnusedZero(size, policy, rows, stream);
    HeapSeesEvictedPairs(size, policy, rows, stream);
    RecordedFlows(policy, SelfKey(), 0, rows, stream);
    IdsOfLanesTo(buckets, |buckets|);
    IdsConcat(log, Pairs(buckets));
    IdsConcat(log, AllLanes(buckets));
  }

  /** What Space-Saving does with the flows of a log that may also contain flow 0. */
  lemma LogKeepsAllExactlyWhen(size: nat, es: seq<Entry<uint32>>, flows: set<uint32>)
    requires size > 0 && 0 !in flows && (Ids(es) == flows || Ids(es) == flows + {0})
    ensures var h := After(size, es, |es|);
            (forall f :: f in flows ==> Tracked(h, f)) <==> |flows| < size || (|flows| == size && !Tracked(h, 0))
  {
    SeenIsIds(es, |es|);
    assert es[..|es|] == es;
    var h := After(size, es, |es|);
    if Ids(es) == flows {
      AllTrackedExactlyWhen(size, es, |es|);
      TrackedAreSeen(size, es, |es|);
      TrackedIsId(h, 0);
    } else {
      AllButOneTrackedExactlyWhen(size, es, |es|, 0);
      assert SeenIds(es, |es|) - {0} == flows;
    }
  }

  /**
   The whole reset flush, after every stream of non-zero flows below 2^32 packets: the heap that
   is written out tracks every flow of the stream if and only if there are fewer flows than
   nodes, or as many and flow 0 is not in it.
   */
  lemma ReportKeepsAllExactlyWhen(size: nat, policy: Policy, rows: nat, stream: seq<uint32>)
    requires size > 0 && rows > 0 && |stream| < WORD && NonZero(stream)
    ensures var h, flows := Report(size, policy, rows, stream), FlowsOf(stream);
            (forall f :: f in flows ==> Tracked(h, f)) <==> |flows| < size || (|flows| == size && !Tracked(h, 0))
  {
    FlushLogIds(size, policy, rows, stream);
    ReportIsAfter(size, policy, rows, stream);
    LogKeepsAllExactlyWhen(size, FlushLog(size, policy, rows, stream), FlowsOf(stream));
  }

  /** If the last lane is unused: if and only if there are fewer flows than nodes. */
  lemma ReportWithLastLaneUnused(size: nat, policy: Policy, rows: nat, stream: seq<uint32>)
    requires size > 0 && rows > 0 && |stream| < WORD && NonZero(stream)
    requires var lanes := CachedLanes(size, policy, rows, stream); |lanes| > 0 && lanes[|lanes| - 1].id == 0
    ensures var h, flows := Report(size, policy, rows, stream), FlowsOf(stream);
            && Tracked(h, 0)
            && ((forall f :: f in flows ==> Tracked(h, f)) <==> |flows| < size)
  {
    var es := FlushLog(size, policy, rows, stream);
    ReportKeepsAllExactlyWhen(size, policy, rows, stream);
    ReportIsAfter(size, policy, rows, stream);
    LatestIsTracked(size, es, |es|);
  }

  /** If every lane is in use: if and only if there are no more flows than nodes. */
  lemma ReportWithAllLanesUsed(size: nat, policy: Policy, rows: nat, stream: seq<uint32>)
    requires size > 0 && rows > 0 && |stream| < WORD && NonZero(stream)
    requires AllFull(CachedSs(size, policy, rows, stream).cache.buckets)
    ensures var h, flows := Report(size, policy, rows, stream), FlowsOf(stream);
            && !Tracked(h, 0)
            && ((forall f :: f in flows ==> Tracked(h, f)) <==> |flows| <= size)
  {
    var es := FlushLog(size, policy, rows, stream);
    ReportKeepsAllExactlyWhen(size, policy, rows, stream);
    FlushLogIds(size, policy, rows, stream);
    ReportIsAfter(size, policy, rows, stream);
    SeenIsIds(es, |es|);
    assert es[..|es|] == es;
    TrackedAreSeen(size, es, |es|);
    TrackedIsId(After(size, es, |es|), 0);
  }

  /** Draining only the occupied lanes would keep all flows if and only if there are no more of them than nodes. */
  lemma DrainKeepsAllExactlyWhen(size: nat, policy: Policy, rows: nat, stream: seq<uint32>)
    requires size > 0 && rows > 0 && |stream| < WORD && NonZero(stream)
    ensures var st, flows := CachedSs(size, policy, rows, stream), FlowsOf(stream);
            var h := Drain(SsUpd(size), st.sketch, Pairs(st.cache.buckets));
            (forall f :: f in flows ==> Tracked(h, f)) <==> |flows| <= size
  {
    var es := Recorded(policy, SelfKey(), 0, rows, stream);
    DrainedRunIsRecorded(SsUpd(size), policy, SelfKey(), 0, rows, [], stream);
    RecordedFlows(policy, SelfKey(), 0, rows, stream);
    TotalsAreExact(policy, SelfKey(), 0, rows, stream);
    TotalOfConcat(Evicted(policy, rows, stream), Pairs(Logged(policy, rows, stream).cache.buckets));
    DrainIsAfter(size, es);
    SeenIsIds(es, |es|);
    assert es[..|es|] == es;
    AllTrackedExactlyWhen(size, es, |es|);
  }

  // ---------- The counts that are written out ----------

  lemma {:induction false} CountOfPhantoms(f: uint32, n: nat)
    ensures CountOf(f, Phantoms<uint32>(0, n)) == 0
  {
    if n > 0 {
      assert Phantoms<uint32>(0, n)[1..] == Phantoms<uint32>(0, n - 1);
      CountOfPhantoms(f, n - 1);
    }
  }

  lemma {:induction false} CountOfLanesTo(f: uint32, buckets: seq<Bucket<uint32>>, n: nat)
    requires n <= |buckets| && forall b :: 0 <= b < |buckets| ==> BucketShape(buckets[b])
    requires forall b :: 0 <= b < |buckets| ==> UnusedIsZero(buckets[b])
    ensures CountOf(f, LanesTo(buckets, n)) == CountOf(f, PairsIn(buckets, 0, n))
  {
    if n > 0 {
      var bk := buckets[n - 1];
      assert UnusedIsZero(bk);
      CountOfLanesTo(f, buckets, n - 1);
      assert Lanes(bk) == Occupied(bk) + Phantoms<uint32>(0, LANES - bk.curpos);
      CountOfConcat(f, Occupied(bk), Phantoms<uint32>(0, LANES - bk.curpos));
      CountOfPhantoms(f, LANES - bk.curpos);
      CountOfConcat(f, LanesTo(buckets, n - 1), Lanes(bk));
      CountOfConcat(f, PairsIn(buckets, 0, n - 1), Occupied(bk));
    }
  }

  /** In the whole log every flow has exactly its packets. */
  lemma FlushLogCounts(size: nat, policy: Policy, rows: nat, stream: seq<uint32>, f: uint32)
    requires size > 0 && rows > 0 && |stream| < WORD && NonZero(stream)
    ensures var es := FlushLog(size, policy, rows, stream);
            TrueCount(f, es, |es|) == Occurrences(f, stream)
  {
    var es, log := FlushLog(size, policy, rows, stream), Evicted(policy, rows, stream);
    var buckets := CachedSs(size, policy, rows, stream).cache.buckets;
    HeapSeesEvictedPairs(size, policy, rows, stream);
    CountsAreExact(policy, SelfKey(), 0, rows, stream);
    assert Exact(Logged(policy, rows, stream), stream, f);
    RunLeavesUnusedZero(size, policy, rows, stream);
    CountOfLanesTo(f, buckets, |buckets|);
    CountOfConcat(f, log, AllLanes(buckets));
    TrueCountIsCountOf(f, es, |es|);
    assert es[..|es|] == es;
  }

  /**
   The frequencies that are written out, if the first replacement of the run and its flush is
   safe: a flow in the report has at least its packets, and at most that plus the least
   frequency of a full heap; a flow not in it has at most every frequency.
   */
  lemma ReportedFrequencies(size: nat, policy: Policy, rows: nat, stream: seq<uint32>, f: uint32)
    requires size > 0 && rows > 0 && |stream| < WORD && NonZero(stream)
    requires var es := FlushLog(size, policy, rows, stream); FirstReplacementIsSafe(size, es, |es|)
    ensures var h, n := Report(size, policy, rows, stream), Occurrences(f, stream);
            FlowBounded(size, h, f, n) && OverBounded(size, h, f, n)
  {
    var es := FlushLog(size, policy, rows, stream);
    ReportIsAfter(size, policy, rows, stream);
    FlushLogCounts(size, policy, rows, stream, f);
    SafeMeansMinimal(size, es, |es|);
    NeverUnderestimates(size, es, |es|);
    assert Bounded(size, es, |es|, f);
    OverestimateIsBounded(size, es, |es|, f);
  }

  /** The count guarantee holds throughout the run and its flush if and only if the first replacement is safe. */
  lemma ReportGuaranteeExactlyWhen(size: nat, policy: Policy, rows: nat, stream: seq<uint32>)
    requires size > 0 && rows > 0 && |stream| < WORD && NonZero(stream)
    ensures var es := FlushLog(size, policy, rows, stream);
            && Report(size, policy, rows, stream) == After(size, es, |es|)
            && ((forall j, f: uint32 :: 0 <= j <= |es| ==> Bounded(size, es, j, f)) <==> FirstReplacementIsSafe(size, es, |es|))
  {
    var es := FlushLog(size, policy, rows, stream);
    ReportIsAfter(size, policy, rows, stream);
    GuaranteeHoldsExactlyWhen(size, es, |es|);
  }

  // ---------- Two literal runs ----------

  /** A first packet for an empty bucket. */
  lemma LanesAfterFirst(c: Cache<uint32>, policy: Policy, k: uint32)
    requires CacheInv(c, SelfKey(), 0) && k != 0 && c.buckets[k % |c.buckets|].curpos == 0
    ensures var r, b := Touch(c, policy, k, k), k % |c.buckets|;
            && r.victim == None && CacheInv(r.cache, SelfKey(), 0)
            && Occupied(r.cache.buckets[b]) == [Entry(k, 1)]
            && Lanes(r.cache.buckets[b]) == [Entry(k, 1)] + Phantoms<uint32>(0, 15)
            && forall d :: 0 <= d < |c.buckets| && d != b ==> r.cache.buckets[d] == c.buckets[d]
  {
    InvIsSound(c, SelfKey(), 0);
    var i, v, t := TouchLane(c, policy, SelfKey(), 0, k);
    TouchKeepsInv(c, policy, SelfKey(), 0, k);
    var b := k % |c.buckets|;
    assert BucketInv(c.buckets[b], b, |c.buckets|, SelfKey(), 0);
  }

  lemma {:induction false} IdlePhantoms(size: nat, h: seq<Node>, n: nat)
    requires SavedWords(size, h, 0, 0) == h
    ensures Drain(SsUpd(size), h, Phantoms<uint32>(0, n)) == h
  {
    if n > 0 {
      assert Phantoms<uint32>(0, n)[1..] == Phantoms<uint32>(0, n - 1);
      IdlePhantoms(size, h, n - 1);
    }
  }

  /** One used lane and fifteen unused ones. */
  lemma FlushOneBucket(size: nat, h: seq<Node>, k: uint32, g: seq<Node>)
    requires g == SavedWords(size, SavedWords(size, h, k, 1), 0, 0) && SavedWords(size, g, 0, 0) == g
    ensures Drain(SsUpd(size), h, [Entry(k, 1)] + Phantoms<uint32>(0, 15)) == g
  {
    var lanes := [Entry(k, 1)] + Phantoms<uint32>(0, 15);
    assert lanes[1..] == Phantoms<uint32>(0, 15);
    assert Phantoms<uint32>(0, 15)[1..] == Phantoms<uint32>(0, 14);
    IdlePhantoms(size, g, 14);
  }

  lemma DrainOne(size: nat, h: seq<Node>, e: Entry<uint32>)
    ensures Drain(SsUpd(size), h, [e]) == SavedWords(size, h, e.id, e.count)
  {
    assert [e][1..] == [];
  }

  lemma OnePacket(policy: Policy)
    ensures var st := CachedSs(1, policy, 1, [7]);
            && st.sketch == [] && |st.cache.buckets| == 1
            && Pairs(st.cache.buckets) == [Entry(7, 1)] && AllLanes(st.cache.buckets) == [Entry(7, 1)] + Phantoms<uint32>(0, 15)
  {
    var c := EmptyCache<uint32>(1, 0);
    EmptyCacheInv(1, SelfKey(), 0);
    LanesAfterFirst(c, policy, 7);
    assert [7][..0] == [];
    var buckets := CachedSs(1, policy, 1, [7]).cache.buckets;
    assert PairsIn(buckets, 0, 0) == [] && LanesTo(buckets, 0) == [];
  }

  /** One packet, a heap of one node: the flush reports flow 0 and the only flow seen is gone. */
  lemma FlushLosesTheOnlyFlow(policy: Policy)
    ensures var st := CachedSs(1, policy, 1, [7]);
            && Drain(SsUpd(1), st.sketch, Pairs(st.cache.buckets)) == [Node(7, 1)]
            && Report(1, policy, 1, [7]) == [Node(0, 1)]
  {
    OnePacket(policy);
    assert SavedWords(1, [], 7, 1) == [Node(7, 1)];
    DrainOne(1, [], Entry(7, 1));
    assert SavedWords(1, [Node(7, 1)], 0, 0) == [Node(0, 1)];
    assert SavedWords(1, [Node(0, 1)], 0, 0) == [Node(0, 1)];
    FlushOneBucket(1, [], 7, [Node(0, 1)]);
  }

  lemma TwoTouches(policy: Policy)
    ensures var r := Touch(EmptyCache<uint32>(2, 0), policy, 2, 2);
            var q := Touch(r.cache, policy, 1, 1);
            && r.victim == None && q.victim == None && |q.cache.buckets| == 2
            && Occupied(q.cache.buckets[0]) == [Entry(2, 1)] && Occupied(q.cache.buckets[1]) == [Entry(1, 1)]
            && Lanes(q.cache.buckets[0]) == [Entry(2, 1)] + Phantoms<uint32>(0, 15)
            && Lanes(q.cache.buckets[1]) == [Entry(1, 1)] + Phantoms<uint32>(0, 15)
  {
    var c0 := EmptyCache<uint32>(2, 0);
    EmptyCacheInv(2, SelfKey(), 0);
    LanesAfterFirst(c0, policy, 2);
    LanesAfterFirst(Touch(c0, policy, 2, 2).cache, policy, 1);
  }

  lemma PairsOfBoth(buckets: seq<Bucket<uint32>>)
    requires |buckets| == 2 && forall b :: 0 <= b < 2 ==> BucketShape(buckets[b])
    ensures Pairs(buckets) == Occupied(buckets[0]) + Occupied(buckets[1])
    ensures AllLanes(buckets) == Lanes(buckets[0]) + Lanes(buckets[1])
  {
    assert PairsIn(buckets, 0, 0) == [] && LanesTo(buckets, 0) == [];
    assert PairsIn(buckets, 0, 1) == Occupied(buckets[0]) && LanesTo(buckets, 1) == Lanes(buckets[0]);
  }

  lemma RunOfTwo(size: nat, policy: Policy, a: uint32, b: uint32)
    ensures var r := Touch(EmptyCache<uint32>(2, 0), policy, a, a);
            var q := Touch(r.cache, policy, b, b);
            r.victim == None && q.victim == None ==> CachedSs(size, policy, 2, [a, b]) == System(q.cache, [])
  {
    assert [a, b][..1] == [a] && [a][..0] == [];
    var c0 := EmptyCache<uint32>(2, 0);
    assert CachedSs(size, policy, 2, []) == System(c0, []);
    var r := Touch(c0, policy, a, a);
    if r.victim == None && Touch(r.cache, policy, b, b).victim == None {
      assert CachedSs(size, policy, 2, [a]) == System(r.cache, []);
    }
  }

  lemma TwoPackets(size: nat, policy: Policy)
    ensures var st := CachedSs(size, policy, 2, [2, 1]);
            && st.sketch == []
            && Pairs(st.cache.buckets) == [Entry(2, 1), Entry(1, 1)]
            && AllLanes(st.cache.buckets) == ([Entry(2, 1)] + Phantoms<uint32>(0, 15)) + ([Entry(1, 1)] + Phantoms<uint32>(0, 15))
  {
    TwoTouches(policy);
    RunOfTwo(size, policy, 2, 1);
    PairsOfBoth(CachedSs(size, policy, 2, [2, 1]).cache.buckets);
  }

  lemma TwoNodes()
    ensures SavedWords(2, [], 2, 1) == [Node(2, 1)]
    ensures SavedWords(2, [Node(2, 1)], 1, 1) == [Node(2, 1), Node(1, 1)]
    ensures SavedWords(2, [Node(2, 1)], 0, 0) == [Node(2, 1), Node(0, 0)]
    ensures SavedWords(2, [Node(2, 1), Node(0, 0)], 0, 0) == [Node(2, 1), Node(0, 0)]
    ensures SavedWords(2, [Node(2, 1), Node(0, 0)], 1, 1) == [Node(0, 0), Node(1, 2)]
    ensures SavedWords(2, [Node(0, 0), Node(1, 2)], 0, 0) == [Node(0, 0), Node(1, 2)]
  {
    assert UpdatedWords(2, [Node(2, 1)], 1, 1) == [Node(2, 1), Node(1, 1)];
    assert UpdatedWords(2, [Node(2, 1)], 0, 0) == [Node(2, 1), Node(0, 0)];
    assert Find([Node(2, 1), Node(0, 0)], 0) == 1;
    assert UpdatedWords(2, [Node(2, 1), Node(0, 0)], 1, 1) == [Node(1, 2), Node(0, 0)];
    assert Find([Node(0, 0), Node(1, 2)], 0) == 0;
  }

  /**
   Two packets, two buckets, a heap of two nodes that is not full when the first unused lane
   comes: flow 0 takes the free node, and flow 2 is lost although draining would keep both flows.
   */
  lemma FlushLosesAFlowOfTwo(policy: Policy)
    ensures var st := CachedSs(2, policy, 2, [2, 1]);
            && Drain(SsUpd(2), st.sketch, Pairs(st.cache.buckets)) == [Node(2, 1), Node(1, 1)]
            && Report(2, policy, 2, [2, 1]) == [Node(0, 0), Node(1, 2)]
  {
    TwoPackets(2, policy);
    TwoNodes();
    DrainConcat(SsUpd(2), [], [Entry(2, 1)], [Entry(1, 1)]);
    DrainOne(2, [], Entry(2, 1));
    DrainOne(2, [Node(2, 1)], Entry(1, 1));
    assert [Entry(2, 1)] + [Entry(1, 1)] == [Entry(2, 1), Entry(1, 1)];
    FlushOneBucket(2, [], 2, [Node(2, 1), Node(0, 0)]);
    FlushOneBucket(2, [Node(2, 1), Node(0, 0)], 1, [Node(0, 0), Node(1, 2)]);
    DrainConcat(SsUpd(2), [], [Entry(2, 1)] + Phantoms<uint32>(0, 15), [Entry(1, 1)] + Phantoms<uint32>(0, 15));
  }
}
