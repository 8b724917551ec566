/**
 Which flows FlowRadar admits as new: exactly when admission does not depend on the order
 in which flows reach the sketch, and so not on the cache in front of it.
 */
module Admission {
  import opened Machine
  import opened AggCache
  import opened AggEvict
  import opened TableSketch
  import opened FlowCounts
  import opened FlowRadar

  // ---------- The Bloom bits after a sequence of recordings ----------

  function BitsAfter<K>(hs: Hashes<K>, size: nat, bf: seq<Bits>, es: seq<Entry<K>>): (r: seq<Bits>)
    requires |bf| == size > 0
    ensures |r| == size
    decreases |es|
  {
    if es == [] then bf else BitsAfter(hs, size, BfUpd(hs, size)(bf, es[0].id, es[0].count), es[1..])
  }

  function NoBits(size: nat): (bf: seq<Bits>)
    ensures |bf| == size
  {
    seq(size, _ => {})
  }

  /** Does some Bloom bit of flow g fall on bit b of word p? */
  predicate Sets<K>(hs: Hashes<K>, size: nat, g: K, p: nat, b: nat)
    requires size > 0
  {
    exists q :: 0 <= q < 4 && BfPos(hs, size)(g, q) == p && BfBit(hs, size)(g, q) == b
  }

  /** A bit is set exactly when it was before or some recorded flow sets it. */
  lemma {:induction false} BitIsSetExactlyWhen<K>(hs: Hashes<K>, size: nat, bf: seq<Bits>, es: seq<Entry<K>>, p: nat, b: nat)
    requires |bf| == size > 0 && p < size
    ensures b in BitsAfter(hs, size, bf, es)[p] <==> b in bf[p] || exists i :: 0 <= i < |es| && Sets(hs, size, es[i].id, p, b)
    decreases |es|
  {
    if es != [] {
      InsertedBits(hs, size, bf, es[0].id, 4, es[0].count, p, b);
      BitIsSetExactlyWhen(hs, size, BfUpd(hs, size)(bf, es[0].id, es[0].count), es[1..], p, b);
      SomeOf(hs, size, es, p, b);
    }
  }

  lemma SomeOf<K>(hs: Hashes<K>, size: nat, es: seq<Entry<K>>, p: nat, b: nat)
    requires size > 0 && es != []
    ensures (exists i :: 0 <= i < |es| && Sets(hs, size, es[i].id, p, b)) <==>
            Sets(hs, size, es[0].id, p, b) || exists i :: 0 <= i < |es[1..]| && Sets(hs, size, es[1..][i].id, p, b)
  {
    if i :| 0 < i < |es| && Sets(hs, size, es[i].id, p, b) {
      assert es[1..][i - 1] == es[i];
    }
    if i :| 0 <= i < |es[1..]| && Sets(hs, size, es[1..][i].id, p, b) {
      assert es[1..][i] == es[i + 1];
    }
  }

  // ---------- New after all the others ----------

  /** Recordings of flows of the set other than f. */
  ghost predicate OthersOnly<K>(flows: set<K>, f: K, es: seq<Entry<K>>) {
    forall i :: 0 <= i < |es| ==> es[i].id in flows && es[i].id != f
  }

  ghost predicate NewAfter<K>(hs: Hashes<K>, size: nat, f: K, es: seq<Entry<K>>)
    requires size > 0
  {
    !Covered(hs, size, BitsAfter(hs, size, NoBits(size), es), f)
  }

  /** Another flow of the set that sets bit r of f. */
  lemma NotPrivate<K>(hs: Hashes<K>, size: nat, flows: set<K>, f: K, r: nat) returns (g: K)
    requires size > 0 && r < 4 && !Private(hs, size, flows, f, r)
    ensures g in flows && g != f && Sets(hs, size, g, BfPos(hs, size)(f, r), BfBit(hs, size)(f, r))
  {
    var h, q :| h in flows && h != f && 0 <= q < 4 &&
      BfPos(hs, size)(h, q) == BfPos(hs, size)(f, r) && BfBit(hs, size)(h, q) == BfBit(hs, size)(f, r);
    g := h;
  }

  /** At most four other flows that together cover f. */
  lemma Coverers<K>(hs: Hashes<K>, size: nat, flows: set<K>, f: K) returns (g: seq<K>)
    requires size > 0 && forall r :: 0 <= r < 4 ==> !Private(hs, size, flows, f, r)
    ensures |g| == 4 && (forall i :: 0 <= i < 4 ==> g[i] in flows && g[i] != f) && !NewAfter(hs, size, f, Units(g))
  {
    var g0 := NotPrivate(hs, size, flows, f, 0);
    var g1 := NotPrivate(hs, size, flows, f, 1);
    var g2 := NotPrivate(hs, size, flows, f, 2);
    var g3 := NotPrivate(hs, size, flows, f, 3);
    g := [g0, g1, g2, g3];
    forall r | 0 <= r < 4
      ensures Sets(hs, size, g[r], BfPos(hs, size)(f, r), BfBit(hs, size)(f, r))
    {
    }
    CoversAll(hs, size, f, g);
  }

  lemma CoversAll<K>(hs: Hashes<K>, size: nat, f: K, g: seq<K>)
    requires size > 0 && |g| == 4 && forall r :: 0 <= r < 4 ==> Sets(hs, size, g[r], BfPos(hs, size)(f, r), BfBit(hs, size)(f, r))
    ensures !NewAfter(hs, size, f, Units(g))
  {
    forall r | 0 <= r < 4
      ensures BfBit(hs, size)(f, r) in BitsAfter(hs, size, NoBits(size), Units(g))[BfPos(hs, size)(f, r)]
    {
      BitIsSetExactlyWhen(hs, size, NoBits(size), Units(g), BfPos(hs, size)(f, r), BfBit(hs, size)(f, r));
      assert Units(g)[r].id == g[r];
    }
  }

  lemma PrivateMeansNew<K>(hs: Hashes<K>, size: nat, flows: set<K>, f: K, r: nat, es: seq<Entry<K>>)
    requires size > 0 && r < 4 && Private(hs, size, flows, f, r) && OthersOnly(flows, f, es)
    ensures NewAfter(hs, size, f, es)
  {
    BitIsSetExactlyWhen(hs, size, NoBits(size), es, BfPos(hs, size)(f, r), BfBit(hs, size)(f, r));
  }

  /** No flow is hidden if and only if every flow is new after any recordings of the others. */
  lemma NoFlowHiddenExactlyWhen<K(!new)>(hs: Hashes<K>, size: nat, flows: set<K>)
    requires size > 0
    ensures NoFlowHidden(hs, size, flows) <==>
            forall f, es :: f in flows && OthersOnly(flows, f, es) ==> NewAfter(hs, size, f, es)
  {
    if NoFlowHidden(hs, size, flows) {
      forall f, es | f in flows && OthersOnly(flows, f, es)
        ensures NewAfter(hs, size, f, es)
      {
        var r :| 0 <= r < 4 && Private(hs, size, flows, f, r);
        PrivateMeansNew(hs, size, flows, f, r, es);
      }
    } else {
      var f :| f in flows && forall r :: 0 <= r < 4 ==> !Private(hs, size, flows, f, r);
      var g := Coverers(hs, size, flows, f);
      assert OthersOnly(flows, f, Units(g));
    }
  }

  // ---------- Which flows are admitted ----------

  function Flows<K(==)>(ks: seq<K>): set<K> {
    set i | 0 <= i < |ks| :: ks[i]
  }

  /** The flows that a sequence of recordings into an empty sketch admits. */
  function AdmittedSet<K(==)>(hs: Hashes<K>, size: nat, es: seq<Entry<K>>): set<K>
    requires size > 0
  {
    Flows(Admitted(hs, size, EmptyRadar(size), es))
  }

  ghost predicate NewHere<K>(hs: Hashes<K>, size: nat, s: Radar, es: seq<Entry<K>>, f: K)
    requires RadarShape(s, size)
  {
    f in Ids(es) && !Covered(hs, size, s.bf, f)
  }

  lemma IdsFirst<K>(es: seq<Entry<K>>)
    requires es != []
    ensures Ids(es) == {es[0].id} + Ids(es[1..])
  {
    assert forall i :: 0 < i < |es| ==> es[i] == es[1..][i - 1];
  }

  lemma AdmittedFirst<K>(hs: Hashes<K>, size: nat, s: Radar, es: seq<Entry<K>>, f: K)
    requires RadarShape(s, size) && es != []
    ensures var k, s' := es[0].id, Record(hs, size, s, es[0].id, es[0].count);
            f in Admitted(hs, size, s, es) <==>
            (f == k && !Covered(hs, size, s.bf, k)) || f in Admitted(hs, size, s', es[1..])
  {
  }

  lemma NewHereFirst<K>(hs: Hashes<K>, size: nat, flows: set<K>, s: Radar, es: seq<Entry<K>>, f: K)
    requires size > 0 && Honest(hs, size, flows)(s) && NoFlowHidden(hs, size, flows) && Ids(es) <= flows && es != []
    ensures var k, s' := es[0].id, Record(hs, size, s, es[0].id, es[0].count);
            NewHere(hs, size, s, es, f) <==> (f == k && !Covered(hs, size, s.bf, k)) || NewHere(hs, size, s', es[1..], f)
  {
    var k, v := es[0].id, es[0].count;
    IdsFirst(es);
    RecordCovers(hs, size, s.bf, k, v, f);
    if f != k && f in flows {
      NewnessIsIndependent(hs, size, flows, s, k, v, f);
    }
  }

  /** If no flow is hidden, the flows admitted are exactly those recorded that were not covered before. */
  lemma {:induction false} AllNewAreAdmitted<K>(hs: Hashes<K>, size: nat, flows: set<K>, s: Radar, es: seq<Entry<K>>, f: K)
    requires size > 0 && Honest(hs, size, flows)(s) && NoFlowHidden(hs, size, flows) && Ids(es) <= flows
    ensures f in Admitted(hs, size, s, es) <==> NewHere(hs, size, s, es, f)
    decreases |es|
  {
    if es != [] {
      var s' := Record(hs, size, s, es[0].id, es[0].count);
      IdsFirst(es);
      RecordStaysHonest(hs, size, flows, s, es[0].id, es[0].count);
      AllNewAreAdmitted(hs, size, flows, s', es[1..], f);
      AdmittedFirst(hs, size, s, es, f);
      NewHereFirst(hs, size, flows, s, es, f);
    }
  }

  lemma EmptyIsHonest<K>(hs: Hashes<K>, size: nat, flows: set<K>)
    requires size > 0
    ensures Honest(hs, size, flows)(EmptyRadar(size))
    ensures forall f :: !Covered(hs, size, EmptyRadar(size).bf, f)
  {
    var bf := EmptyRadar(size).bf;
    forall f
      ensures !Covered(hs, size, bf, f)
    {
      assert BfBit(hs, size)(f, 0) !in bf[BfPos(hs, size)(f, 0)];
    }
  }

  lemma AdmittedIsRecorded<K(!new)>(hs: Hashes<K>, size: nat, flows: set<K>, es: seq<Entry<K>>)
    requires size > 0 && NoFlowHidden(hs, size, flows) && Ids(es) <= flows
    ensures AdmittedSet(hs, size, es) == Ids(es)
  {
    EmptyIsHonest(hs, size, flows);
    forall f
      ensures f in AdmittedSet(hs, size, es) <==> f in Ids(es)
    {
      AllNewAreAdmitted(hs, size, flows, EmptyRadar(size), es, f);
    }
  }

  /** A flow that is covered when its first recording comes is not admitted by it. */
  lemma {:induction false} CoveredAtTheEnd<K>(hs: Hashes<K>, size: nat, s: Radar, es: seq<Entry<K>>, f: K, v: uint32)
    requires RadarShape(s, size) && f !in Ids(es) && Covered(hs, size, BitsAfter(hs, size, s.bf, es), f)
    ensures f !in Admitted(hs, size, s, es + [Entry(f, v)])
    decreases |es|
  {
    var all := es + [Entry(f, v)];
    if es == [] {
      CoveredIsNeverAdmitted(hs, size, s, all, f);
    } else {
      var s' := Record(hs, size, s, es[0].id, es[0].count);
      IdsFirst(es);
      assert all[1..] == es[1..] + [Entry(f, v)];
      CoveredAtTheEnd(hs, size, s', es[1..], f, v);
      AdmittedFirst(hs, size, s, all, f);
    }
  }

  // ---------- The cache in front ----------

  /** The drained run behind the cache and the plain run admit the same flows. */
  ghost predicate SameAdmission<K(!new)>(hs: Hashes<K>, size: nat, policy: Policy, fpOf: K -> uint32, zero: K, rows: nat, stream: seq<K>)
    requires size > 0 && rows > 0
  {
    AdmittedSet(hs, size, Recorded(policy, fpOf, zero, rows, stream)) == AdmittedSet(hs, size, Units(stream))
  }

  ghost predicate StreamOver<K>(flows: set<K>, fpOf: K -> uint32, stream: seq<K>) {
    forall i :: 0 <= i < |stream| ==> stream[i] in flows && fpOf(stream[i]) != 0
  }

  lemma NoFlowHiddenSuffices<K(!new)>(hs: Hashes<K>, size: nat, flows: set<K>, policy: Policy, fpOf: K -> uint32, zero: K, rows: nat, stream: seq<K>)
    requires size > 0 && rows > 0 && NoFlowHidden(hs, size, flows) && StreamOver(flows, fpOf, stream)
    ensures SameAdmission(hs, size, policy, fpOf, zero, rows, stream)
  {
    RecordedFlows(policy, fpOf, zero, rows, stream);
    var units := Units(stream);
    assert Ids(units) == Flows(stream) by {
      assert forall i :: 0 <= i < |stream| ==> units[i].id == stream[i];
    }
    AdmittedIsRecorded(hs, size, flows, Recorded(policy, fpOf, zero, rows, stream));
    AdmittedIsRecorded(hs, size, flows, units);
  }

  /** Bucket 0 is empty, and every other bucket is empty or holds one flow, its owner. */
  ghost predicate OneEach<K>(c: Cache<K>, owner: seq<K>) {
    && Shape(c) && |owner| == |c.buckets|
    && forall d :: 0 <= d < |owner| ==> OwnedOrEmpty(c.buckets[d], d, owner[d])
  }

  ghost predicate OwnedOrEmpty<K>(bk: Bucket<K>, d: nat, o: K) {
    bk.curpos == 0 || (d > 0 && bk.curpos == 1 && BucketShape(bk) && bk.ids[0] == o)
  }

  lemma OwnerKeepsBucket<K>(c: Cache<K>, policy: Policy, fpOf: K -> uint32, zero: K, owner: seq<K>, k: K)
    requires CacheInv(c, fpOf, zero) && OneEach(c, owner) && fpOf(k) != 0
    requires fpOf(k) % |c.buckets| > 0 && owner[fpOf(k) % |c.buckets|] == k
    ensures var r := Touch(c, policy, fpOf(k), k);
            r.victim == None && OneEach(r.cache, owner)
  {
    var b := fpOf(k) % |c.buckets|;
    InvIsSound(c, fpOf, zero);
    var i, v, t := TouchLane(c, policy, fpOf, zero, k);
    var r := Touch(c, policy, fpOf(k), k);
    assert OwnedOrEmpty(c.buckets[b], b, owner[b]);
    forall d | 0 <= d < |owner|
      ensures OwnedOrEmpty(r.cache.buckets[d], d, owner[d])
    {
      assert OwnedOrEmpty(c.buckets[d], d, owner[d]);
    }
  }

  ghost predicate OwnersOnly<K>(fpOf: K -> uint32, owner: seq<K>, stream: seq<K>) {
    |owner| > 0 && forall i :: 0 <= i < |stream| ==> OwnsBucket(fpOf, owner, stream[i])
  }

  ghost predicate OwnsBucket<K>(fpOf: K -> uint32, owner: seq<K>, k: K)
    requires |owner| > 0
  {
    fpOf(k) != 0 && fpOf(k) % |owner| > 0 && owner[fpOf(k) % |owner|] == k
  }

  /** Flows with a bucket of their own are never evicted. */
  lemma {:induction false} OwnersStay<K(!new)>(policy: Policy, fpOf: K -> uint32, zero: K, owner: seq<K>, stream: seq<K>)
    requires OwnersOnly(fpOf, owner, stream)
    ensures var st := AggRun(LogUpd(), policy, fpOf, LogStart(|owner|, zero), stream);
            CacheInv(st.cache, fpOf, zero) && OneEach(st.cache, owner) && st.sketch == []
    decreases |stream|
  {
    if stream == [] {
      EmptyCacheInv(|owner|, fpOf, zero);
    } else {
      var n := |stream| - 1;
      OwnersStay(policy, fpOf, zero, owner, stream[..n]);
      var st := AggRun(LogUpd(), policy, fpOf, LogStart(|owner|, zero), stream[..n]);
      assert OwnsBucket(fpOf, owner, stream[n]);
      OwnerKeepsBucket(st.cache, policy, fpOf, zero, owner, stream[n]);
      TouchKeepsInv(st.cache, policy, fpOf, zero, stream[n]);
    }
  }

  /** A last packet for the empty bucket 0 is drained first. */
  lemma LastDrainedFirst<K(!new)>(policy: Policy, fpOf: K -> uint32, zero: K, owner: seq<K>, stream: seq<K>, f: K)
    requires OwnersOnly(fpOf, owner, stream) && fpOf(f) != 0 && fpOf(f) % |owner| == 0
    ensures var es := Recorded(policy, fpOf, zero, |owner|, stream + [f]);
            |es| > 0 && es[0] == Entry(f, 1)
  {
    OwnersStay(policy, fpOf, zero, owner, stream);
    var lg := AggRun(LogUpd(), policy, fpOf, LogStart(|owner|, zero), stream);
    assert OwnedOrEmpty(lg.cache.buckets[0], 0, owner[0]);
    FirstPacketOfBucket(lg.cache, policy, fpOf, zero, f);
    assert (stream + [f])[..|stream|] == stream;
    var r := Touch(lg.cache, policy, fpOf(f), f);
    PairsSplit(r.cache.buckets, 0);
  }

  lemma FirstIsAdmitted<K>(hs: Hashes<K>, size: nat, es: seq<Entry<K>>)
    requires size > 0 && es != []
    ensures es[0].id in AdmittedSet(hs, size, es)
  {
    EmptyIsHonest(hs, size, {});
    var adm := Admitted(hs, size, EmptyRadar(size), es);
    assert adm[0] == es[0].id;
  }

  /** Fingerprints that give four flows buckets of their own, 1 to 4 of five, and the fifth flow bucket 0. */
  function Spread<K(==)>(f: K, g: seq<K>): K -> uint32
    requires |g| == 4
  {
    (x: K) => if x == f then 5 else if x == g[0] then 1 else if x == g[1] then 2 else if x == g[2] then 3 else 4
  }

  lemma SpreadOwns<K>(f: K, g: seq<K>)
    requires |g| == 4 && forall i :: 0 <= i < 4 ==> g[i] != f
    ensures OwnersOnly(Spread(f, g), [f] + g, g) && Spread(f, g)(f) % 5 == 0
  {
    var owner := [f] + g;
    forall i | 0 <= i < |g|
      ensures OwnsBucket(Spread(f, g), owner, g[i])
    {
      var b := Spread(f, g)(g[i]);
      assert owner[b] == g[b - 1];
    }
  }

  lemma PlainRunMisses<K>(hs: Hashes<K>, size: nat, f: K, g: seq<K>)
    requires size > 0 && (forall i :: 0 <= i < |g| ==> g[i] != f) && !NewAfter(hs, size, f, Units(g))
    ensures f !in AdmittedSet(hs, size, Units(g + [f]))
  {
    assert Units(g + [f]) == Units(g) + [Entry(f, 1)];
    assert EmptyRadar(size).bf == NoBits(size);
    CoveredAtTheEnd(hs, size, EmptyRadar(size), Units(g), f, 1);
  }

  /** A hidden flow is admitted by a drained cached run although the plain run does not admit it. */
  lemma HiddenFlowTells<K(!new)>(hs: Hashes<K>, size: nat, flows: set<K>, policy: Policy, zero: K, f: K)
      returns (fpOf: K -> uint32, stream: seq<K>)
    requires size > 0 && f in flows && forall r :: 0 <= r < 4 ==> !Private(hs, size, flows, f, r)
    ensures StreamOver(flows, fpOf, stream)
    ensures f in AdmittedSet(hs, size, Recorded(policy, fpOf, zero, 5, stream)) && f !in AdmittedSet(hs, size, Units(stream))
  {
    var g := Coverers(hs, size, flows, f);
    fpOf, stream := Spread(f, g), g + [f];
    SpreadStream(flows, f, g);
    DrainedRunAdmits(hs, size, policy, zero, f, g);
    PlainRunMisses(hs, size, f, g);
  }

  lemma SpreadStream<K>(flows: set<K>, f: K, g: seq<K>)
    requires |g| == 4 && f in flows && forall i :: 0 <= i < 4 ==> g[i] in flows
    ensures StreamOver(flows, Spread(f, g), g + [f])
  {
    var stream := g + [f];
    forall i | 0 <= i < |stream|
      ensures stream[i] in flows && Spread(f, g)(stream[i]) != 0
    {
      assert i < 4 ==> stream[i] == g[i];
    }
  }

  lemma DrainedRunAdmits<K(!new)>(hs: Hashes<K>, size: nat, policy: Policy, zero: K, f: K, g: seq<K>)
    requires size > 0 && |g| == 4 && forall i :: 0 <= i < 4 ==> g[i] != f
    ensures f in AdmittedSet(hs, size, Recorded(policy, Spread(f, g), zero, 5, g + [f]))
  {
    var owner := [f] + g;
    SpreadOwns(f, g);
    LastDrainedFirst(policy, Spread(f, g), zero, owner, g, f);
    FirstIsAdmitted(hs, size, Recorded(policy, Spread(f, g), zero, 5, g + [f]));
  }

  /**
   The exact condition for FlowRadar behind the cache: for either policy, over all numbers of
   buckets, all fingerprint functions and all streams of the flows, the drained run admits the
   flows that the plain run admits if and only if no flow is hidden by the others.
   */
  lemma AdmissionIsPlainExactlyWhen<K(!new)>(hs: Hashes<K>, size: nat, flows: set<K>, policy: Policy, zero: K)
    requires size > 0
    ensures NoFlowHidden(hs, size, flows) <==>
            forall rows: nat, fpOf: K -> uint32, stream: seq<K> ::
              rows > 0 && StreamOver(flows, fpOf, stream) ==> SameAdmission(hs, size, policy, fpOf, zero, rows, stream)
  {
    if NoFlowHidden(hs, size, flows) {
      forall rows: nat, fpOf: K -> uint32, stream: seq<K> | rows > 0 && StreamOver(flows, fpOf, stream)
        ensures SameAdmission(hs, size, policy, fpOf, zero, rows, stream)
      {
        NoFlowHiddenSuffices(hs, size, flows, policy, fpOf, zero, rows, stream);
      }
    } else {
      var f :| f in flows && forall r :: 0 <= r < 4 ==> !Private(hs, size, flows, f, r);
      var fpOf, stream := HiddenFlowTells(hs, size, flows, policy, zero, f);
      assert !SameAdmission(hs, size, policy, fpOf, zero, 5, stream);
    }
  }

  // ---------- The reset flush ----------

  lemma {:induction false} PlainBits<K>(hs: Hashes<K>, size: nat, s: Radar, es: seq<Entry<K>>)
    requires RadarShape(s, size)
    ensures Drain(FrUpd(hs, size), s, es).bf == BitsAfter(hs, size, s.bf, es)
    decreases |es|
  {
    if es != [] {
      PlainBits(hs, size, Record(hs, size, s, es[0].id, es[0].count), es[1..]);
    }
  }

  /** After a stream of other flows, a flow that they do not hide is still new. */
  lemma NewAfterStream<K(!new)>(hs: Hashes<K>, size: nat, flows: set<K>, f: K, stream: seq<K>)
    requires size > 0 && f !in flows && NoFlowHidden(hs, size, flows + {f})
    requires forall i :: 0 <= i < |stream| ==> stream[i] in flows
    ensures var plain := PlainRun(FrUpd(hs, size), EmptyRadar(size), stream);
            |plain.bf| == size && !Covered(hs, size, plain.bf, f)
  {
    var r :| 0 <= r < 4 && Private(hs, size, flows + {f}, f, r);
    PlainIsDrain(FrUpd(hs, size), EmptyRadar(size), stream);
    PlainBits(hs, size, EmptyRadar(size), Units(stream));
    assert EmptyRadar(size).bf == NoBits(size);
    assert OthersOnly(flows + {f}, f, Units(stream));
    PrivateMeansNew(hs, size, flows + {f}, f, r, Units(stream));
  }

  /**
   The reset flush of FlowRadar, on flows that hide neither each other nor the all-zero flow: it
   leaves the plain sketch with the all-zero flow admitted on top, and so the plain sketch
   itself exactly when the cache is completely full.
   */
  lemma FlushAdmitsPhantomFlow<K(!new)>(hs: Hashes<K>, size: nat, flows: set<K>, policy: Policy, fpOf: K -> uint32, zero: K, rows: nat, stream: seq<K>)
    requires size > 0 && rows > 0 && zero !in flows && NoFlowHidden(hs, size, flows + {zero}) && StreamOver(flows, fpOf, stream)
    ensures var upd := FrUpd(hs, size);
            var st := AggRun(upd, policy, fpOf, System(EmptyCache(rows, zero), EmptyRadar(size)), stream);
            var flushed, plain := Drain(upd, st.sketch, AllLanes(st.cache.buckets)), PlainRun(upd, EmptyRadar(size), stream);
            && flushed == (if AllFull(st.cache.buckets) then plain else Record(hs, size, plain, zero, 0))
            && |plain.bf| == size && !Covered(hs, size, plain.bf, zero)
            && (flushed == plain <==> AllFull(st.cache.buckets))
  {
    var all := flows + {zero};
    FlowRadarIsLawful(hs, size, all);
    EmptyIsHonest(hs, size, all);
    ResetFlushIsPlainPlusPhantom(FrUpd(hs, size), Honest(hs, size, all), Among(all), policy, fpOf, zero, rows, EmptyRadar(size), stream);
    NewAfterStream(hs, size, flows, zero, stream);
    IdleExactlyWhenCovered(hs, size, PlainRun(FrUpd(hs, size), EmptyRadar(size), stream).bf, zero, 0);
  }

  /** The cells of a drained cached run are the XOR and the number of the flows its recordings admit, and their packets. */
  lemma DrainedCellsSumAdmitted<K>(hs: Hashes<K>, size: nat, policy: Policy, fpOf: K -> uint32, zero: K, rows: nat, stream: seq<K>, p: nat)
    requires rows > 0 && p < size
    ensures var st := AggRun(FrUpd(hs, size), policy, fpOf, System(EmptyCache(rows, zero), EmptyRadar(size)), stream);
            var t, es := Drain(FrUpd(hs, size), st.sketch, Pairs(st.cache.buckets)), Recorded(policy, fpOf, zero, rows, stream);
            var adm := Admitted(hs, size, EmptyRadar(size), es);
            && RadarShape(t, size)
            && t.flowx[p] == XorLoad(hs, CellPos(hs, size), {}, adm, p)
            && t.flowc[p] == Plus32(0, Load(CellPos(hs, size), 4, Units(adm), p))
            && t.packetc[p] == Plus32(0, Load(CellPos(hs, size), 4, es, p))
  {
    DrainedRunIsRecorded(FrUpd(hs, size), policy, fpOf, zero, rows, EmptyRadar(size), stream);
    CellsSumAdmittedFlows(hs, size, EmptyRadar(size), Recorded(policy, fpOf, zero, rows, stream), p);
  }

  // ---------- A literal example ----------

  /** One Bloom word in which flow 1 sets bits 0 to 3 and every other flow only bit 0. */
  function Overlapping(): Hashes<uint32> {
    Hashes((k: uint32, r: nat) => if k == 1 && r < 4 then r else 0, (_: uint32, _: nat) => 0, (k: uint32) => {k})
  }

  lemma OverlappingCovers()
    ensures var hs, e := Overlapping(), EmptyRadar(1).bf;
            && Covered(hs, 1, BfUpd(hs, 1)(e, 1, 1), 2) && !Covered(hs, 1, BfUpd(hs, 1)(e, 2, 1), 1)
  {
    var hs, e := Overlapping(), EmptyRadar(1).bf;
    assert BfPos(hs, 1)(1, 0) == 0 && BfBit(hs, 1)(1, 0) == 0;
    InsertedBits(hs, 1, e, 1, 4, 1, 0, 0);
    assert BfPos(hs, 1)(1, 1) == 0 && BfBit(hs, 1)(1, 1) == 1;
    InsertedBits(hs, 1, e, 2, 4, 1, 0, 1);
  }

  /** A stream of two packets, single-word flows, two buckets: the drained flow counts differ from the plain ones. */
  lemma TwoPacketsTell(policy: Policy)
    ensures !NoFlowHidden(Overlapping(), 1, {1, 2})
    ensures var upd, s := FrUpd(Overlapping(), 1), EmptyRadar(1);
            var st := AggRun(upd, policy, SelfKey(), System(EmptyCache<uint32>(2, 0), s), [1, 2]);
            Drain(upd, st.sketch, Pairs(st.cache.buckets)).flowc != PlainRun(upd, s, [1, 2]).flowc
  {
    var hs := Overlapping();
    assert forall r :: 0 <= r < 4 ==> !Private(hs, 1, {1, 2}, 2, r) by {
      assert BfPos(hs, 1)(1, 0) == 0 && BfBit(hs, 1)(1, 0) == 0;
    }
    OverlappingCovers();
    HiddenFlowIsCountedAfterAll(hs, 1, policy, SelfKey(), 0, 2, 1, 2);
  }

  // ---------- The Bloom bits, counted over hashes ----------

  /** Some Bloom hash of the flow is bit number 32 * p + b of the filter. */
  predicate HashesTo<K>(hs: Hashes<K>, size: nat, k: K, p: nat, b: nat)
    requires size > 0
  {
    b < 32 && exists q :: 0 <= q < 4 && hs.bloom(k, q) % (32 * size) == 32 * p + b
  }

  lemma SetsIsHash<K>(hs: Hashes<K>, size: nat, k: K, p: nat, b: nat)
    requires size > 0
    ensures Sets(hs, size, k, p, b) <==> HashesTo(hs, size, k, p, b)
  {
    forall q: nat
      ensures BfPos(hs, size)(k, q) == p && BfBit(hs, size)(k, q) == b <==> b < 32 && hs.bloom(k, q) % (32 * size) == 32 * p + b
    {
      WordAndBit(hs.bloom(k, q) % (32 * size), p, b);
    }
  }

  lemma WordAndBit(x: nat, p: nat, b: nat)
    ensures x / 32 == p && x % 32 == b <==> b < 32 && x == 32 * p + b
  {
  }

  /** After any recordings, bit b of Bloom word p is set exactly when it was before or some recorded flow hashes to it. */
  lemma BloomBitsAreHashes<K>(hs: Hashes<K>, size: nat, s: Radar, es: seq<Entry<K>>, p: nat, b: nat)
    requires RadarShape(s, size) && p < size
    ensures var t := Drain(FrUpd(hs, size), s, es);
            |t.bf| == size && (b in t.bf[p] <==> b in s.bf[p] || exists i :: 0 <= i < |es| && HashesTo(hs, size, es[i].id, p, b))
  {
    PlainBits(hs, size, s, es);
    BitIsSetExactlyWhen(hs, size, s.bf, es, p, b);
    forall i | 0 <= i < |es|
      ensures Sets(hs, size, es[i].id, p, b) <==> HashesTo(hs, size, es[i].id, p, b)
    {
      SetsIsHash(hs, size, es[i].id, p, b);
    }
  }

  /** No Bloom hash of a recorded flow falls on the r-th Bloom hash of f. */
  predicate Unhit<K>(hs: Hashes<K>, size: nat, es: seq<Entry<K>>, f: K, r: nat)
    requires size > 0
  {
    forall i :: 0 <= i < |es| ==> Misses(hs, size, es[i].id, hs.bloom(f, r) % (32 * size))
  }

  predicate Misses<K>(hs: Hashes<K>, size: nat, k: K, x: nat)
    requires size > 0
  {
    forall q :: 0 <= q < 4 ==> hs.bloom(k, q) % (32 * size) != x
  }

  lemma BitIsUnhit<K>(hs: Hashes<K>, size: nat, es: seq<Entry<K>>, f: K, r: nat)
    requires size > 0
    ensures BfBit(hs, size)(f, r) in BitsAfter(hs, size, NoBits(size), es)[BfPos(hs, size)(f, r)] <==> !Unhit(hs, size, es, f, r)
  {
    var p, b, x := BfPos(hs, size)(f, r), BfBit(hs, size)(f, r), hs.bloom(f, r) % (32 * size);
    WordAndBit(x, p, b);
    BitIsSetExactlyWhen(hs, size, NoBits(size), es, p, b);
    forall i | 0 <= i < |es|
      ensures Sets(hs, size, es[i].id, p, b) <==> !Misses(hs, size, es[i].id, x)
    {
      SetsIsHash(hs, size, es[i].id, p, b);
    }
  }

  lemma NewIsUnhit<K>(hs: Hashes<K>, size: nat, es: seq<Entry<K>>, f: K)
    requires size > 0
    ensures NewAfter(hs, size, f, es) <==> exists r :: 0 <= r < 4 && Unhit(hs, size, es, f, r)
  {
    forall r | 0 <= r < 4
      ensures BfBit(hs, size)(f, r) in BitsAfter(hs, size, NoBits(size), es)[BfPos(hs, size)(f, r)] <==> !Unhit(hs, size, es, f, r)
    {
      BitIsUnhit(hs, size, es, f, r);
    }
  }

  /** From an empty sketch and after any recordings, a flow counts as new exactly when one of its four Bloom hashes is hit by none of the recorded flows. */
  lemma NewExactlyWhenUnhit<K>(hs: Hashes<K>, size: nat, es: seq<Entry<K>>, f: K)
    requires size > 0
    ensures var bf := Drain(FrUpd(hs, size), EmptyRadar(size), es).bf;
            |bf| == size && (!Covered(hs, size, bf, f) <==> exists r :: 0 <= r < 4 && Unhit(hs, size, es, f, r))
  {
    assert EmptyRadar(size).bf == NoBits(size);
    PlainBits(hs, size, EmptyRadar(size), es);
    NewIsUnhit(hs, size, es, f);
  }
}
