/** Per-flow conservation: no packet is lost or counted twice on its way through the cache. */
module FlowCounts {
  import opened Machine
  import opened AggCache
  import opened AggEvict

  /** The sum of the counts evicted for one flow. */
  function TallyOf<K(==)>(flow: K): (uint32, K, uint32) -> uint32 {
    (s: uint32, k: K, v: uint32) => if k == flow then Add32(s, v) else s
  }

  function Occurrences<K(==)>(flow: K, stream: seq<K>): nat
    decreases |stream|
  {
    if stream == [] then 0
    else Occurrences(flow, stream[..|stream| - 1]) + if stream[|stream| - 1] == flow then 1 else 0
  }

  /** The counts that pairs carry for one flow. */
  function CountOf<K(==)>(flow: K, es: seq<Entry<K>>): nat
    decreases |es|
  {
    if es == [] then 0 else (if es[0].id == flow then es[0].count else 0) + CountOf(flow, es[1..])
  }

  function Start<K>(rows: nat, zero: K): System<K, uint32> {
    System(EmptyCache(rows, zero), 0)
  }

  lemma TallyIsLawful<K(!new)>(flow: K)
    ensures Lawful(TallyOf(flow), Always(), Always())
  {
    forall s: uint32, k: K, v: uint32, l: K, w: uint32
      ensures Swaps(TallyOf(flow), s, k, v, l, w)
    {
      Add32Commutes(s, v, w);
    }
    forall s: uint32, k: K, v: uint32, w: uint32
      ensures Merges(TallyOf(flow), s, k, v, w)
    {
      Add32Commutes(s, v, w);
    }
  }

  lemma {:induction false} DrainTally<K>(flow: K, s: uint32, es: seq<Entry<K>>)
    ensures Drain<K, uint32>(TallyOf(flow), s, es) == Plus32(s, CountOf(flow, es))
    decreases |es|
  {
    if es != [] {
      var c := if es[0].id == flow then es[0].count else 0;
      DrainTally(flow, TallyOf(flow)(s, es[0].id, es[0].count), es[1..]);
      AddModAssoc(s, c, CountOf(flow, es[1..]));
    }
  }

  lemma {:induction false} PlainTally<K>(flow: K, s: uint32, stream: seq<K>)
    ensures PlainRun<K, uint32>(TallyOf(flow), s, stream) == Plus32(s, Occurrences(flow, stream))
    decreases |stream|
  {
    if stream != [] {
      var n := |stream| - 1;
      PlainTally(flow, s, stream[..n]);
      AddModAssoc(s, Occurrences(flow, stream[..n]), 1);
    }
  }

  /**
   Whatever the fingerprint function and its collisions, after every stream the counts evicted
   for a flow plus its cached count are its packets, modulo 2^32.
   */
  lemma EvictedPlusCachedIsTrueCount<K(!new)>(policy: Policy, fpOf: K -> uint32, zero: K, rows: nat, stream: seq<K>, flow: K)
    requires rows > 0
    requires forall i :: 0 <= i < |stream| ==> fpOf(stream[i]) != 0
    ensures var st := AggRun<K, uint32>(TallyOf(flow), policy, fpOf, Start(rows, zero), stream);
            Plus32(st.sketch, CountOf(flow, Pairs(st.cache.buckets))) == Plus32(0, Occurrences(flow, stream))
  {
    DrainedTallyIsPlain(policy, fpOf, zero, rows, stream, flow);
    var st := AggRun<K, uint32>(TallyOf(flow), policy, fpOf, Start(rows, zero), stream);
    DrainTally(flow, st.sketch, Pairs(st.cache.buckets));
    PlainTally(flow, 0, stream);
  }

  lemma DrainedTallyIsPlain<K(!new)>(policy: Policy, fpOf: K -> uint32, zero: K, rows: nat, stream: seq<K>, flow: K)
    requires rows > 0
    requires forall i :: 0 <= i < |stream| ==> fpOf(stream[i]) != 0
    ensures var st := AggRun<K, uint32>(TallyOf(flow), policy, fpOf, Start(rows, zero), stream);
            Drain<K, uint32>(TallyOf(flow), st.sketch, Pairs(st.cache.buckets)) == PlainRun<K, uint32>(TallyOf(flow), 0, stream)
  {
    TallyIsLawful(flow);
    AggEvictRefinesPlain<K, uint32>(TallyOf(flow), Always(), Always(), policy, fpOf, zero, rows, 0, stream);
  }

  // ---------- What reaches the sketch ----------

  /** The sketch that just remembers what was evicted. */
  function LogUpd<K>(): (seq<Entry<K>>, K, uint32) -> seq<Entry<K>> {
    (log: seq<Entry<K>>, k: K, v: uint32) => log + [Entry(k, v)]
  }

  function LogStart<K>(rows: nat, zero: K): System<K, seq<Entry<K>>> {
    System(EmptyCache(rows, zero), [])
  }

  /** Everything that reaches the sketch of a cached run that is drained at the end: the evicted pairs, then the cached ones. */
  function Recorded<K(==)>(policy: Policy, fpOf: K -> uint32, zero: K, rows: nat, stream: seq<K>): seq<Entry<K>>
    requires rows > 0
  {
    var st := AggRun(LogUpd(), policy, fpOf, LogStart(rows, zero), stream);
    st.sketch + Pairs(st.cache.buckets)
  }

  lemma AbsorbIsDrain<K, S>(upd: (S, K, uint32) -> S, s: S, log: seq<Entry<K>>, victim: Option<Entry<K>>)
    ensures Absorb(upd, Drain(upd, s, log), victim) == Drain(upd, s, Absorb(LogUpd(), log, victim))
  {
    if victim.Some? {
      var t := Drain(upd, s, log);
      DrainConcat(upd, s, log, [victim.value]);
      assert Drain(upd, upd(t, victim.value.id, victim.value.count), []) == upd(t, victim.value.id, victim.value.count);
    }
  }

  /** Any sketch behind the cache is the sketch of the evicted pairs in order; the cache does not depend on it. */
  lemma {:induction false} RunIsDrainedLog<K, S>(upd: (S, K, uint32) -> S, policy: Policy, fpOf: K -> uint32, zero: K, rows: nat, s: S, stream: seq<K>)
    requires rows > 0
    ensures var st, lg := AggRun(upd, policy, fpOf, System(EmptyCache(rows, zero), s), stream), AggRun(LogUpd(), policy, fpOf, LogStart(rows, zero), stream);
            st.cache == lg.cache && st.sketch == Drain(upd, s, lg.sketch)
    decreases |stream|
  {
    if stream != [] {
      var n := |stream| - 1;
      RunIsDrainedLog(upd, policy, fpOf, zero, rows, s, stream[..n]);
      var lg := AggRun(LogUpd(), policy, fpOf, LogStart(rows, zero), stream[..n]);
      AbsorbIsDrain(upd, s, lg.sketch, Touch(lg.cache, policy, fpOf(stream[n]), stream[n]).victim);
    }
  }

  /** Draining the cache at the end of a run is draining all its recordings. */
  lemma DrainedRunIsRecorded<K, S>(upd: (S, K, uint32) -> S, policy: Policy, fpOf: K -> uint32, zero: K, rows: nat, s: S, stream: seq<K>)
    requires rows > 0
    ensures var st := AggRun(upd, policy, fpOf, System(EmptyCache(rows, zero), s), stream);
            Drain(upd, st.sketch, Pairs(st.cache.buckets)) == Drain(upd, s, Recorded(policy, fpOf, zero, rows, stream))
  {
    RunIsDrainedLog(upd, policy, fpOf, zero, rows, s, stream);
    var lg := AggRun(LogUpd(), policy, fpOf, LogStart(rows, zero), stream);
    DrainConcat(upd, s, lg.sketch, Pairs(lg.cache.buckets));
  }

  // ---------- The flows that reach the sketch ----------

  function Ids<K(==)>(es: seq<Entry<K>>): set<K> {
    set i | 0 <= i < |es| :: es[i].id
  }

  function IdsUpd<K(==)>(): (set<K>, K, uint32) -> set<K> {
    (s: set<K>, k: K, _: uint32) => s + {k}
  }

  lemma {:induction false} DrainIds<K>(s: set<K>, es: seq<Entry<K>>)
    ensures Drain(IdsUpd(), s, es) == s + Ids(es)
    decreases |es|
  {
    if es != [] {
      DrainIds(s + {es[0].id}, es[1..]);
      assert Ids(es) == {es[0].id} + Ids(es[1..]) by {
        assert forall i :: 0 < i < |es| ==> es[i] == es[1..][i - 1];
      }
    }
  }

  lemma {:induction false} PlainIds<K>(stream: seq<K>)
    ensures PlainRun(IdsUpd(), {}, stream) == set i | 0 <= i < |stream| :: stream[i]
    decreases |stream|
  {
    if stream != [] {
      PlainIds(stream[..|stream| - 1]);
    }
  }

  /** Exactly the flows of the stream are recorded, no other and none missing. */
  lemma RecordedFlows<K(!new)>(policy: Policy, fpOf: K -> uint32, zero: K, rows: nat, stream: seq<K>)
    requires rows > 0
    requires forall i :: 0 <= i < |stream| ==> fpOf(stream[i]) != 0
    ensures Ids(Recorded(policy, fpOf, zero, rows, stream)) == set i | 0 <= i < |stream| :: stream[i]
  {
    var upd := IdsUpd<K>();
    assert Lawful(upd, Always(), Always()) by {
      forall s, k: K, v, l: K, w
        ensures Swaps(upd, s, k, v, l, w)
      {
        assert s + {k} + {l} == s + {l} + {k};
      }
    }
    AggEvictRefinesPlain(upd, Always(), Always(), policy, fpOf, zero, rows, {}, stream);
    DrainedRunIsRecorded(upd, policy, fpOf, zero, rows, {}, stream);
    DrainIds({}, Recorded(policy, fpOf, zero, rows, stream));
    PlainIds(stream);
  }

  // ---------- Exactly, below 2^32 packets ----------

  lemma {:induction false} CountOfConcat<K>(flow: K, xs: seq<Entry<K>>, ys: seq<Entry<K>>)
    ensures CountOf(flow, xs + ys) == CountOf(flow, xs) + CountOf(flow, ys)
    decreases |xs|
  {
    if xs == [] {
      assert xs + ys == ys;
    } else {
      assert (xs + ys)[1..] == xs[1..] + ys;
      CountOfConcat(flow, xs[1..], ys);
    }
  }

  lemma CountOfThree<K>(flow: K, xs: seq<Entry<K>>, mid: seq<Entry<K>>, ys: seq<Entry<K>>)
    ensures CountOf(flow, xs + mid + ys) == CountOf(flow, xs) + CountOf(flow, mid) + CountOf(flow, ys)
  {
    CountOfConcat(flow, xs + mid, ys);
    CountOfConcat(flow, xs, mid);
  }

  lemma CountOfOne<K>(flow: K, e: Entry<K>)
    ensures CountOf(flow, [e]) == if e.id == flow then e.count else 0
  {
    assert [e][1..] == [];
  }

  lemma {:induction false} OccurrencesBound<K>(flow: K, stream: seq<K>)
    ensures Occurrences(flow, stream) <= |stream|
    decreases |stream|
  {
    if stream != [] {
      OccurrencesBound(flow, stream[..|stream| - 1]);
    }
  }

  /** One packet moves counts between cache and log and adds exactly one. */
  lemma StepCounts<K>(policy: Policy, fpOf: K -> uint32, zero: K, st: System<K, seq<Entry<K>>>, k: K, flow: K)
    requires CacheInv(st.cache, fpOf, zero) && fpOf(k) != 0
    requires CountOf(k, Pairs(st.cache.buckets)) < WORD - 1
    ensures var st' := AggStep(LogUpd(), policy, fpOf, st, k);
            CountOf(flow, st'.sketch) + CountOf(flow, Pairs(st'.cache.buckets))
            == CountOf(flow, st.sketch) + CountOf(flow, Pairs(st.cache.buckets)) + if k == flow then 1 else 0
  {
    InvIsSound(st.cache, fpOf, zero);
    var xs, e, ys, n := TouchOnPairs(st.cache, policy, fpOf, zero, k);
    var mid := if e.Some? then [e.value] else [];
    CountOfThree(flow, xs, mid, ys);
    CountOfThree(k, xs, mid, ys);
    CountOfThree(flow, xs, [Entry(k, n)], ys);
    CountOfOne(flow, Entry(k, n));
    if e.Some? {
      CountOfOne(flow, e.value);
      CountOfOne(k, e.value);
      CountOfConcat(flow, st.sketch, [e.value]);
      if e.value.id == k {
        Add32Small(e.value.count, 1);
      }
    }
  }

  ghost predicate Exact<K>(st: System<K, seq<Entry<K>>>, stream: seq<K>, flow: K)
    requires Shape(st.cache)
  {
    CountOf(flow, st.sketch) + CountOf(flow, Pairs(st.cache.buckets)) == Occurrences(flow, stream)
  }

  lemma ExactStep<K>(policy: Policy, fpOf: K -> uint32, zero: K, st: System<K, seq<Entry<K>>>, stream: seq<K>, n: nat, flow: K)
    requires n + 1 == |stream| < WORD && CacheInv(st.cache, fpOf, zero) && fpOf(stream[n]) != 0
    requires Exact(st, stream[..n], flow) && Exact(st, stream[..n], stream[n])
    ensures Exact(AggStep(LogUpd(), policy, fpOf, st, stream[n]), stream, flow)
  {
    OccurrencesBound(stream[n], stream[..n]);
    StepCounts(policy, fpOf, zero, st, stream[n], flow);
  }

  /** For streams below 2^32 packets nothing wraps: evicted plus cached counts are exactly the packets of each flow. */
  lemma {:induction false} CountsAreExact<K(!new)>(policy: Policy, fpOf: K -> uint32, zero: K, rows: nat, stream: seq<K>)
    requires rows > 0 && |stream| < WORD
    requires forall i :: 0 <= i < |stream| ==> fpOf(stream[i]) != 0
    ensures var st := AggRun(LogUpd(), policy, fpOf, LogStart(rows, zero), stream);
            CacheInv(st.cache, fpOf, zero) && forall flow: K :: Exact(st, stream, flow)
    decreases |stream|
  {
    if stream == [] {
      EmptyCacheInv(rows, fpOf, zero);
      NoPairs(EmptyCache(rows, zero).buckets);
    } else {
      var n := |stream| - 1;
      CountsAreExact(policy, fpOf, zero, rows, stream[..n]);
      var st := AggRun(LogUpd(), policy, fpOf, LogStart(rows, zero), stream[..n]);
      var st' := AggStep(LogUpd(), policy, fpOf, st, stream[n]);
      TouchKeepsInv(st.cache, policy, fpOf, zero, stream[n]);
      forall flow: K
        ensures Exact(st', stream, flow)
      {
        assert Exact(st, stream[..n], flow) && Exact(st, stream[..n], stream[n]);
        ExactStep(policy, fpOf, zero, st, stream, n, flow);
      }
    }
  }

  // ---------- The total ----------

  function TotalOf<K>(es: seq<Entry<K>>): nat
    decreases |es|
  {
    if es == [] then 0 else es[0].count + TotalOf(es[1..])
  }

  lemma {:induction false} TotalOfConcat<K>(xs: seq<Entry<K>>, ys: seq<Entry<K>>)
    ensures TotalOf(xs + ys) == TotalOf(xs) + TotalOf(ys)
    decreases |xs|
  {
    if xs == [] {
      assert xs + ys == ys;
    } else {
      assert (xs + ys)[1..] == xs[1..] + ys;
      TotalOfConcat(xs[1..], ys);
    }
  }

  lemma TotalOfOne<K>(e: Entry<K>)
    ensures TotalOf([e]) == e.count
  {
    assert [e][1..] == [];
  }

  lemma TotalOfThree<K>(xs: seq<Entry<K>>, mid: seq<Entry<K>>, ys: seq<Entry<K>>)
    ensures TotalOf(xs + mid + ys) == TotalOf(xs) + TotalOf(mid) + TotalOf(ys)
  {
    TotalOfConcat(xs + mid, ys);
    TotalOfConcat(xs, mid);
  }

  lemma StepTotal<K>(policy: Policy, fpOf: K -> uint32, zero: K, st: System<K, seq<Entry<K>>>, k: K)
    requires CacheInv(st.cache, fpOf, zero) && fpOf(k) != 0
    requires TotalOf(Pairs(st.cache.buckets)) < WORD - 1
    ensures var st' := AggStep(LogUpd(), policy, fpOf, st, k);
            TotalOf(st'.sketch) + TotalOf(Pairs(st'.cache.buckets)) == TotalOf(st.sketch) + TotalOf(Pairs(st.cache.buckets)) + 1
  {
    InvIsSound(st.cache, fpOf, zero);
    var xs, e, ys, n := TouchOnPairs(st.cache, policy, fpOf, zero, k);
    TotalOfThree(xs, if e.Some? then [e.value] else [], ys);
    TotalOfThree(xs, [Entry(k, n)], ys);
    TotalOfOne(Entry(k, n));
    if e.Some? {
      TotalOfOne(e.value);
      TotalOfConcat(st.sketch, [e.value]);
      Add32Small(e.value.count, 1);
    }
  }

  /** On streams below 2^32 packets, evicted plus cached counts are exactly the number of packets. */
  lemma {:induction false} TotalsAreExact<K>(policy: Policy, fpOf: K -> uint32, zero: K, rows: nat, stream: seq<K>)
    requires rows > 0 && |stream| < WORD
    requires forall i :: 0 <= i < |stream| ==> fpOf(stream[i]) != 0
    ensures var st := AggRun(LogUpd(), policy, fpOf, LogStart(rows, zero), stream);
            CacheInv(st.cache, fpOf, zero) && TotalOf(st.sketch) + TotalOf(Pairs(st.cache.buckets)) == |stream|
    decreases |stream|
  {
    if stream == [] {
      EmptyCacheInv(rows, fpOf, zero);
      NoPairs(EmptyCache(rows, zero).buckets);
    } else {
      var n := |stream| - 1;
      TotalsAreExact(policy, fpOf, zero, rows, stream[..n]);
      var st := AggRun(LogUpd(), policy, fpOf, LogStart(rows, zero), stream[..n]);
      StepTotal(policy, fpOf, zero, st, stream[n]);
      TouchKeepsInv(st.cache, policy, fpOf, zero, stream[n]);
    }
  }
}
