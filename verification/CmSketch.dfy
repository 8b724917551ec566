/** The Count-Min sketch, plain and behind the Agg-Evict cache. */
module CmSketch {
  import opened Machine
  import opened SimdMatch
  import opened AggCache
  import opened AggEvict
  import opened TableSketch

  /** Four rows of `size` counters in one table; row r of flow k is found by its own seeded hash. */
  function CmPos(hash: (uint32, nat) -> uint32, size: nat): (uint32, nat) -> nat
    requires size > 0
  {
    (k: uint32, r: nat) => r * size + hash(k, r) % size
  }

  /** n packets of one flow. */
  function CmUpd(hash: (uint32, nat) -> uint32, size: nat): (seq<uint32>, uint32, uint32) -> seq<uint32>
    requires size > 0
  {
    Updater(AddOp(), CmPos(hash, size), 4)
  }

  class CmTable {
    const size: nat
    const hash: (uint32, nat) -> uint32
    const table: array<uint32>

    ghost predicate Valid() {
      size > 0 && table.Length == 4 * size
    }

    constructor (size: nat, hash: (uint32, nat) -> uint32)
      requires size > 0
      ensures Valid() && fresh(table) && this.size == size && this.hash == hash
      ensures table[..] == seq(4 * size, _ => 0)
    {
      this.size, this.hash := size, hash;
      table := new uint32[4 * size](_ => 0);
    }

    /** The weighted update; the plain module calls it with weight 1. */
    method Inc(k: uint32, v: uint32)
      requires Valid()
      modifies table
      ensures table[..] == CmUpd(hash, size)(old(table[..]), k, v)
    {
      ghost var op, pos, t0 := AddOp<uint32>(), CmPos(hash, size), table[..];
      var p1 := hash(k, 0) % size;
      var p2 := size + hash(k, 1) % size;
      var p3 := size * 2 + hash(k, 2) % size;
      var p4 := size * 3 + hash(k, 3) % size;
      table[p1] := Add32(table[p1], v);
      assert table[..] == Hit(op, pos, t0, k, 0, v) == Insert(op, pos, 1, t0, k, v);
      table[p2] := Add32(table[p2], v);
      assert table[..] == Hit(op, pos, Insert(op, pos, 1, t0, k, v), k, 1, v) == Insert(op, pos, 2, t0, k, v);
      table[p3] := Add32(table[p3], v);
      assert table[..] == Hit(op, pos, Insert(op, pos, 2, t0, k, v), k, 2, v) == Insert(op, pos, 3, t0, k, v);
      table[p4] := Add32(table[p4], v);
      assert table[..] == Hit(op, pos, Insert(op, pos, 3, t0, k, v), k, 3, v) == Insert(op, pos, 4, t0, k, v);
    }
  }

  class CmSketchSimd {
    const simd: Simd<uint32>
    const cm: CmTable

    ghost predicate Valid()
      reads this, simd, simd.Repr, cm
    {
      simd.Valid() && cm.Valid() && cm !in simd.Repr && cm.table !in simd.Repr
    }

    ghost function View(): (st: System<uint32, seq<uint32>>)
      requires Valid()
      reads this, simd, simd.Repr, cm, cm.table
      ensures Shape(st.cache)
    {
      System(simd.View(), cm.table[..])
    }

    constructor (policy: Policy, rows: nat, size: nat, hash: (uint32, nat) -> uint32)
      requires rows > 0 && size > 0
      ensures Valid() && fresh(simd.Repr) && fresh(cm) && fresh(cm.table)
      ensures cm.size == size && cm.hash == hash && simd.policy == policy
      ensures View() == System(EmptyCache<uint32>(rows, 0), seq(4 * size, _ => 0))
    {
      simd := new Simd<uint32>(policy, rows, 0);
      cm := new CmTable(size, hash);
      new;
      assert cm.table[..] == seq(4 * size, _ => 0);
      assert simd.View() == EmptyCache<uint32>(rows, 0);
    }

    /** One packet. */
    method Inc(flow: uint32)
      requires Valid()
      modifies simd.Repr, cm.table
      ensures Valid()
      ensures View() == AggStep(CmUpd(cm.hash, cm.size), simd.policy, SelfKey(), old(View()), flow)
    {
      var victim := simd.Aggregate(flow, flow);
      if victim.Some? {
        cm.Inc(victim.value.id, victim.value.count);
      }
    }

    /** The table after the first b buckets bs have been pushed into t0. */
    ghost predicate Holds(t0: seq<uint32>, bs: seq<Bucket<uint32>>, b: nat)
      reads cm, cm.table
    {
      cm.Valid() && b <= |bs| && (forall i :: 0 <= i < |bs| ==> BucketShape(bs[i])) &&
      cm.table[..] == Drain(CmUpd(cm.hash, cm.size), t0, LanesTo(bs, b))
    }

    /** The flush loop of reset: every lane of every bucket, used or not. */
    method Flush(ghost bs: seq<Bucket<uint32>>)
      requires Valid() && bs == simd.View().buckets
      modifies cm.table
      ensures Valid() && simd.View() == old(simd.View())
      ensures Holds(old(cm.table[..]), bs, |bs|)
    {
      ghost var t0, c0 := cm.table[..], simd.View();
      for b := 0 to simd.rows
        invariant Valid() && simd.View() == c0 && Holds(t0, bs, b)
      {
        FlushBucket(b, t0, bs);
      }
    }

    method FlushBucket(b: nat, ghost t0: seq<uint32>, ghost bs: seq<Bucket<uint32>>)
      requires Valid() && bs == simd.View().buckets && b < |bs| && Holds(t0, bs, b)
      modifies cm.table
      ensures Valid() && simd.View() == old(simd.View()) && Holds(t0, bs, b + 1)
    {
      FlushLanes(b, Lanes(bs[b]));
      DrainConcat(CmUpd(cm.hash, cm.size), t0, LanesTo(bs, b), Lanes(bs[b]));
    }

    method FlushLanes(b: nat, ghost lanes: seq<Entry<uint32>>)
      requires Valid() && b < simd.rows && lanes == Lanes(simd.BucketAt(b))
      modifies cm.table
      ensures Valid() && simd.View() == old(simd.View())
      ensures cm.table[..] == Drain(CmUpd(cm.hash, cm.size), old(cm.table[..]), lanes)
    {
      ghost var upd, t0, c0 := CmUpd(cm.hash, cm.size), cm.table[..], simd.View();
      for j := 0 to LANES
        invariant Valid() && simd.View() == c0 && lanes == Lanes(simd.BucketAt(b))
        invariant cm.table[..] == Drain(upd, t0, lanes[..j])
      {
        simd.LaneAt(b, j);
        DrainSnoc(upd, t0, lanes, j);
        cm.Inc(simd.id[LANES * b + j], simd.value[LANES * b + j]);
      }
      assert lanes[..LANES] == lanes;
    }
  }

  lemma DrainSnoc<K, S>(upd: (S, K, uint32) -> S, s: S, es: seq<Entry<K>>, j: nat)
    requires j < |es|
    ensures Drain(upd, s, es[..j + 1]) == upd(Drain(upd, s, es[..j]), es[j].id, es[j].count)
  {
    DrainConcat(upd, s, es[..j], [es[j]]);
    assert es[..j] + [es[j]] == es[..j + 1];
    var t := upd(Drain(upd, s, es[..j]), es[j].id, es[j].count);
    assert Drain(upd, t, []) == t;
  }

  // ---------- Agg-Evict refines Count-Min ----------

  lemma CmIsLawful(hash: (uint32, nat) -> uint32, size: nat)
    requires size > 0
    ensures Lawful(CmUpd(hash, size), Always(), Always())
  {
    AddOpIsLawful<uint32>();
    TableSketchIsLawful(AddOp<uint32>(), CmPos(hash, size), 4);
  }

  /** After every stream of non-zero flows, draining the cached pairs gives the plain table. */
  lemma DrainedTableIsPlain(policy: Policy, rows: nat, hash: (uint32, nat) -> uint32, size: nat, t0: seq<uint32>, stream: seq<uint32>)
    requires rows > 0 && size > 0
    requires forall i :: 0 <= i < |stream| ==> stream[i] != 0
    ensures var upd := CmUpd(hash, size);
            var st := AggRun(upd, policy, SelfKey(), System(EmptyCache<uint32>(rows, 0), t0), stream);
            Drain(upd, st.sketch, Pairs(st.cache.buckets)) == PlainRun(upd, t0, stream)
  {
    CmIsLawful(hash, size);
    AggEvictRefinesPlain(CmUpd(hash, size), Always(), Always(), policy, SelfKey(), 0, rows, t0, stream);
  }

  /**
   After every stream of non-zero flows, each counter plus the cached counts that hash to it
   is the plain counter, modulo 2^32.
   */
  lemma AggEvictRefinesCountMin(policy: Policy, rows: nat, hash: (uint32, nat) -> uint32, size: nat, t0: seq<uint32>, stream: seq<uint32>)
    requires rows > 0 && size > 0
    requires forall i :: 0 <= i < |stream| ==> stream[i] != 0
    ensures var upd := CmUpd(hash, size);
            var st := AggRun(upd, policy, SelfKey(), System(EmptyCache<uint32>(rows, 0), t0), stream);
            var plain := PlainRun(upd, t0, stream);
            && |st.sketch| == |plain|
            && forall p :: 0 <= p < |plain| ==>
                 Plus32(st.sketch[p], Load(CmPos(hash, size), 4, Pairs(st.cache.buckets), p)) == plain[p]
  {
    var upd := CmUpd(hash, size);
    var st := AggRun(upd, policy, SelfKey(), System(EmptyCache<uint32>(rows, 0), t0), stream);
    DrainedTableIsPlain(policy, rows, hash, size, t0, stream);
    DrainedCounters(hash, size, st.sketch, Pairs(st.cache.buckets));
  }

  /** A plain counter is the number of packets that hashed to it, modulo 2^32. */
  lemma PlainCountersCountPackets(hash: (uint32, nat) -> uint32, size: nat, t0: seq<uint32>, stream: seq<uint32>)
    requires size > 0
    ensures var plain := PlainRun(CmUpd(hash, size), t0, stream);
            && |plain| == |t0|
            && forall p :: 0 <= p < |t0| ==> plain[p] == Plus32(t0[p], Load(CmPos(hash, size), 4, Units(stream), p))
  {
    PlainIsDrain(CmUpd(hash, size), t0, stream);
    DrainedCounters(hash, size, t0, Units(stream));
  }

  /** The flush of all lanes at reset, after every stream of non-zero flows, leaves exactly the plain table. */
  lemma FlushLeavesPlainTable(policy: Policy, rows: nat, hash: (uint32, nat) -> uint32, size: nat, t0: seq<uint32>, stream: seq<uint32>)
    requires rows > 0 && size > 0
    requires forall i :: 0 <= i < |stream| ==> stream[i] != 0
    ensures var upd := CmUpd(hash, size);
            var st := AggRun(upd, policy, SelfKey(), System(EmptyCache<uint32>(rows, 0), t0), stream);
            Drain(upd, st.sketch, AllLanes(st.cache.buckets)) == PlainRun(upd, t0, stream)
  {
    CmIsLawful(hash, size);
    ResetFlushIsPlainPlusPhantom(CmUpd(hash, size), Always(), Always(), policy, SelfKey(), 0, rows, t0, stream);
    ZeroWeightIsNothing(hash, size, PlainRun(CmUpd(hash, size), t0, stream));
  }

  lemma DrainedCounters(hash: (uint32, nat) -> uint32, size: nat, t: seq<uint32>, es: seq<Entry<uint32>>)
    requires size > 0
    ensures var d := Drain(CmUpd(hash, size), t, es);
            && |d| == |t|
            && forall p :: 0 <= p < |t| ==> d[p] == Plus32(t[p], Load(CmPos(hash, size), 4, es, p))
  {
    DrainLength(CmUpd(hash, size), t, es, hash, size);
    forall p | 0 <= p < |t|
      ensures Drain(CmUpd(hash, size), t, es)[p] == Plus32(t[p], Load(CmPos(hash, size), 4, es, p))
    {
      DrainCounter(CmPos(hash, size), 4, t, es, p);
    }
  }

  lemma {:induction false} DrainLength(upd: (seq<uint32>, uint32, uint32) -> seq<uint32>, t: seq<uint32>, es: seq<Entry<uint32>>, hash: (uint32, nat) -> uint32, size: nat)
    requires size > 0 && upd == CmUpd(hash, size)
    ensures |Drain(upd, t, es)| == |t|
    decreases |es|
  {
    if es != [] {
      DrainLength(upd, upd(t, es[0].id, es[0].count), es[1..], hash, size);
    }
  }

  /** The phantom pair (0, 0) of an unused lane does not change any counter. */
  lemma ZeroWeightIsNothing(hash: (uint32, nat) -> uint32, size: nat, t: seq<uint32>)
    requires size > 0
    ensures CmUpd(hash, size)(t, 0, 0) == t
  {
    ZeroInsertIsNothing(CmPos(hash, size), 4, t, 0);
  }

  // ---------- What the counters hold ----------

  /** Packets whose r-th hash falls into column c. */
  function InColumn(hash: (uint32, nat) -> uint32, size: nat, stream: seq<uint32>, r: nat, c: nat): (n: nat)
    requires size > 0
    ensures n <= |stream|
    decreases |stream|
  {
    if stream == [] then 0
    else
      var n := |stream| - 1;
      InColumn(hash, size, stream[..n], r, c) + if hash(stream[n], r) % size == c then 1 else 0
  }

  lemma {:induction false} WeightInCell(hash: (uint32, nat) -> uint32, size: nat, k: uint32, v: uint32, rows: nat, r: nat, c: nat)
    requires size > 0 && c < size
    ensures Weight(CmPos(hash, size), rows, k, v, r * size + c) == if r < rows && hash(k, r) % size == c then v else 0
  {
    if rows > 0 {
      WeightInCell(hash, size, k, v, rows - 1, r, c);
      RowAndColumn(size, rows - 1, hash(k, rows - 1) % size, r, c);
    }
  }

  lemma OnePacketInCell(hash: (uint32, nat) -> uint32, size: nat, t: seq<uint32>, k: uint32, r: nat, c: nat, p: nat)
    requires size > 0 && r < 4 && c < size && p == r * size + c && p < |t|
    ensures CmUpd(hash, size)(t, k, 1)[p] == Plus32(t[p], if hash(k, r) % size == c then 1 else 0)
  {
    InsertCounter(CmPos(hash, size), 4, t, k, 1, p);
    WeightInCell(hash, size, k, 1, 4, r, c);
  }

  lemma {:induction false} CellCountsHashes(hash: (uint32, nat) -> uint32, size: nat, t0: seq<uint32>, stream: seq<uint32>, r: nat, c: nat, p: nat)
    requires size > 0 && r < 4 && c < size && p == r * size + c && p < |t0|
    ensures var plain := PlainRun(CmUpd(hash, size), t0, stream);
            |plain| == |t0| && plain[p] == Plus32(t0[p], InColumn(hash, size, stream, r, c))
    decreases |stream|
  {
    if stream != [] {
      var n := |stream| - 1;
      CellCountsHashes(hash, size, t0, stream[..n], r, c, p);
      OnePacketInCell(hash, size, PlainRun(CmUpd(hash, size), t0, stream[..n]), stream[n], r, c, p);
      AddModAssoc(t0[p], InColumn(hash, size, stream[..n], r, c), if hash(stream[n], r) % size == c then 1 else 0);
    }
  }

  /** After every stream, counter c of row r has grown by the number of packets whose r-th hash is c modulo the row size, modulo 2^32. */
  lemma CountersCountHashes(hash: (uint32, nat) -> uint32, size: nat, t0: seq<uint32>, stream: seq<uint32>, r: nat, c: nat)
    requires |t0| == 4 * size && r < 4 && c < size
    ensures var plain := PlainRun(CmUpd(hash, size), t0, stream);
            && r * size + c < |t0| == |plain|
            && plain[r * size + c] == Plus32(t0[r * size + c], InColumn(hash, size, stream, r, c))
  {
    RowBefore(size, r, c, 4);
    CellCountsHashes(hash, size, t0, stream, r, c, r * size + c);
  }

  /** The same of the cached module once its occupied lanes are drained. */
  lemma DrainedCountersCountHashes(policy: Policy, rows: nat, hash: (uint32, nat) -> uint32, size: nat, t0: seq<uint32>, stream: seq<uint32>, r: nat, c: nat)
    requires rows > 0 && |t0| == 4 * size && r < 4 && c < size
    requires forall i :: 0 <= i < |stream| ==> stream[i] != 0
    ensures var upd := CmUpd(hash, size);
            var st := AggRun(upd, policy, SelfKey(), System(EmptyCache<uint32>(rows, 0), t0), stream);
            var drained := Drain(upd, st.sketch, Pairs(st.cache.buckets));
            && r * size + c < |t0| == |drained|
            && drained[r * size + c] == Plus32(t0[r * size + c], InColumn(hash, size, stream, r, c))
  {
    DrainedTableIsPlain(policy, rows, hash, size, t0, stream);
    CountersCountHashes(hash, size, t0, stream, r, c);
  }
}
