/**
 The Agg-Evict cache: buckets of sixteen lanes in front of a sketch.

 A lane holds a 32-bit key word, the flow it stands for, a packet count and, under LRU, a
 clock.  In the single-word modules the key word is the flow itself; in the multi-word
 modules it is a fingerprint, the XOR of the flow's words, and the full flow is kept
 beside it.  The single-word cache is the instance in which every flow is its own
 fingerprint, for which the collision branch never runs (`IdentityNeverCollides`).
 */
module AggCache {
  import opened Machine
  import opened SimdMatch

  datatype Policy = GRR | LRU

  /** A flow with its aggregated packet count, as handed to the sketch on eviction. */
  datatype Entry<+K> = Entry(id: K, count: uint32)

  datatype Bucket<+K> = Bucket(fps: seq<uint32>, ids: seq<K>, vals: seq<uint32>, clocks: seq<uint32>, curpos: nat)

  datatype Cache<+K> = Cache(buckets: seq<Bucket<K>>, curkick: nat, now: uint32)

  datatype Step<+K> = Step(cache: Cache<K>, victim: Option<Entry<K>>)

  predicate BucketShape<K>(bk: Bucket<K>) {
    |bk.fps| == |bk.ids| == |bk.vals| == |bk.clocks| == LANES && bk.curpos <= LANES
  }

  predicate Shape<K>(c: Cache<K>) {
    |c.buckets| > 0 && c.curkick < LANES && forall b :: 0 <= b < |c.buckets| ==> BucketShape(c.buckets[b])
  }

  // ---------- One packet ----------

  const CLOCK_LIMIT: uint32 := 0x4000_0000

  /** The LRU victim scan over the first n lanes: the lane chosen so far and its clock. */
  function LruScan(clocks: seq<uint32>, n: nat): (nat, uint32)
    requires n <= |clocks|
  {
    if n == 0 then (0, CLOCK_LIMIT)
    else
      var (kick, least) := LruScan(clocks, n - 1);
      if clocks[n - 1] < least then (n - 1, clocks[n - 1]) else (kick, least)
  }

  /** The scan finds a least clock if some clock is below 2^30; otherwise it falls back to lane 0. */
  lemma {:induction false} LruScanFindsOldest(clocks: seq<uint32>, n: nat)
    requires n <= |clocks|
    ensures var (kick, least) := LruScan(clocks, n);
            && (forall j :: 0 <= j < n ==> least <= clocks[j])
            && (if exists j :: 0 <= j < n && clocks[j] < CLOCK_LIMIT
                then kick < n && clocks[kick] == least && least < CLOCK_LIMIT
                else kick == 0 && least == CLOCK_LIMIT)
  {
    if n > 0 {
      LruScanFindsOldest(clocks, n - 1);
      if clocks[n - 1] < CLOCK_LIMIT {
        assert exists j :: 0 <= j < n && clocks[j] < CLOCK_LIMIT;
      }
    }
  }

  /** The lane the LRU scan gives up. */
  function OldestIndex(clocks: seq<uint32>): (i: nat)
    requires |clocks| > 0
    ensures i < |clocks|
    ensures if exists j :: 0 <= j < |clocks| && clocks[j] < CLOCK_LIMIT
            then forall j :: 0 <= j < |clocks| ==> clocks[i] <= clocks[j]
            else i == 0
  {
    LruScanFindsOldest(clocks, |clocks|);
    LruScan(clocks, |clocks|).0
  }

  function VictimLane<K>(policy: Policy, curkick: nat, bk: Bucket<K>): (i: nat)
    requires BucketShape(bk) && curkick < LANES
    ensures i < LANES
  {
    if policy.GRR? then curkick else OldestIndex(bk.clocks)
  }

  function SetLane<K>(bk: Bucket<K>, i: nat, fp: uint32, id: K, val: uint32, time: uint32): (r: Bucket<K>)
    requires BucketShape(bk) && i < LANES
    ensures BucketShape(r)
  {
    Bucket(bk.fps[i := fp], bk.ids[i := id], bk.vals[i := val], bk.clocks[i := time], bk.curpos)
  }

  /** The clock a lane gets: the current time under LRU, untouched otherwise. */
  function Stamp<K>(policy: Policy, now: uint32, bk: Bucket<K>, i: nat): uint32
    requires BucketShape(bk) && i < LANES
  {
    if policy.LRU? then now else bk.clocks[i]
  }

  /** The key word is already in lane i: count the packet, or displace the other flow sharing the fingerprint. */
  function TouchMatch<K(==)>(c: Cache<K>, policy: Policy, b: nat, i: nat, fp: uint32, id: K): (r: Step<K>)
    requires Shape(c) && b < |c.buckets| && i < LANES
    ensures Shape(r.cache) && |r.cache.buckets| == |c.buckets|
  {
    var bk := c.buckets[b];
    var val := if bk.ids[i] == id then Add32(bk.vals[i], 1) else 1;
    Step(c.(buckets := c.buckets[b := SetLane(bk, i, fp, id, val, Stamp(policy, c.now, bk, i))]),
         if bk.ids[i] == id then None else Some(Entry(bk.ids[i], bk.vals[i])))
  }

  /** The key word is new and the bucket has a free lane. */
  function TouchFree<K(==)>(c: Cache<K>, policy: Policy, b: nat, fp: uint32, id: K): (r: Step<K>)
    requires Shape(c) && b < |c.buckets| && c.buckets[b].curpos < LANES
    ensures Shape(r.cache) && |r.cache.buckets| == |c.buckets|
  {
    var bk := c.buckets[b];
    var i := bk.curpos;
    Step(c.(buckets := c.buckets[b := SetLane(bk, i, fp, id, 1, Stamp(policy, c.now, bk, i)).(curpos := i + 1)]), None)
  }

  /** The key word is new and the bucket is full. */
  function TouchFull<K(==)>(c: Cache<K>, policy: Policy, b: nat, fp: uint32, id: K): (r: Step<K>)
    requires Shape(c) && b < |c.buckets|
    ensures Shape(r.cache) && |r.cache.buckets| == |c.buckets|
  {
    var bk := c.buckets[b];
    var i := VictimLane(policy, c.curkick, bk);
    Step(c.(buckets := c.buckets[b := SetLane(bk, i, fp, id, 1, Stamp(policy, c.now, bk, i))],
            curkick := if policy.GRR? then (c.curkick + 1) % LANES else c.curkick),
         Some(Entry(bk.ids[i], bk.vals[i])))
  }

  /** One packet of flow `id` with key word `fp`: hit or collision, free lane, or eviction. */
  function Touch<K(==)>(c0: Cache<K>, policy: Policy, fp: uint32, id: K): (r: Step<K>)
    requires Shape(c0)
    ensures Shape(r.cache) && |r.cache.buckets| == |c0.buckets|
  {
    var c := Tick(c0, policy);
    var b := fp % |c.buckets|;
    var i := FirstIndex(c.buckets[b].fps, fp);
    if i < LANES then TouchMatch(c, policy, b, i, fp, id)
    else if c.buckets[b].curpos != LANES then TouchFree(c, policy, b, fp, id)
    else TouchFull(c, policy, b, fp, id)
  }

  function Tick<K>(c: Cache<K>, policy: Policy): Cache<K> {
    if policy.LRU? then c.(now := Add32(c.now, 1)) else c
  }

  // ---------- What every reachable cache satisfies ----------

  /**
   Occupied lanes come first, carry their flow's fingerprint, sit in its bucket and never share
   a fingerprint, which is zero only in a full bucket; the key words of other lanes are zero.
   */
  ghost predicate BucketSound<K>(bk: Bucket<K>, b: nat, rows: nat, fpOf: K -> uint32, zero: K)
    requires rows > 0
  {
    && BucketShape(bk)
    && (forall i :: 0 <= i < bk.curpos ==>
          bk.fps[i] == fpOf(bk.ids[i]) && bk.fps[i] % rows == b && (bk.fps[i] != 0 || bk.curpos == LANES))
    && (forall i, j :: 0 <= i < j < bk.curpos ==> bk.fps[i] != bk.fps[j])
    && (forall i :: bk.curpos <= i < LANES ==> bk.fps[i] == 0 && bk.ids[i] == zero)
  }

  ghost predicate CacheSound<K>(c: Cache<K>, fpOf: K -> uint32, zero: K) {
    Shape(c) && forall b :: 0 <= b < |c.buckets| ==> BucketSound(c.buckets[b], b, |c.buckets|, fpOf, zero)
  }

  /** No fingerprint has been zero: all occupied key words are non-zero, all other counts are zero. */
  ghost predicate BucketInv<K>(bk: Bucket<K>, b: nat, rows: nat, fpOf: K -> uint32, zero: K)
    requires rows > 0
  {
    && BucketSound(bk, b, rows, fpOf, zero)
    && (forall i :: 0 <= i < bk.curpos ==> bk.fps[i] != 0)
    && (forall i :: bk.curpos <= i < LANES ==> bk.vals[i] == 0)
  }

  ghost predicate CacheInv<K>(c: Cache<K>, fpOf: K -> uint32, zero: K) {
    Shape(c) && forall b :: 0 <= b < |c.buckets| ==> BucketInv(c.buckets[b], b, |c.buckets|, fpOf, zero)
  }

  lemma InvIsSound<K>(c: Cache<K>, fpOf: K -> uint32, zero: K)
    requires CacheInv(c, fpOf, zero)
    ensures CacheSound(c, fpOf, zero)
  {
    forall b | 0 <= b < |c.buckets|
      ensures BucketSound(c.buckets[b], b, |c.buckets|, fpOf, zero)
    {
      assert BucketInv(c.buckets[b], b, |c.buckets|, fpOf, zero);
    }
  }

  /** A packet that the cache can tell from an unused lane. */
  predicate Countable<K>(c: Cache<K>, fp: uint32)
    requires Shape(c)
  {
    fp != 0 || c.buckets[fp % |c.buckets|].curpos == LANES
  }

  function EmptyBucket<K>(zero: K): Bucket<K> {
    Bucket(seq(LANES, _ => 0), seq(LANES, _ => zero), seq(LANES, _ => 0), seq(LANES, _ => 0), 0)
  }

  function EmptyCache<K>(rows: nat, zero: K): Cache<K> {
    Cache(seq(rows, _ => EmptyBucket(zero)), 0, 0)
  }

  lemma EmptyCacheInv<K>(rows: nat, fpOf: K -> uint32, zero: K)
    requires rows > 0
    ensures CacheInv(EmptyCache(rows, zero), fpOf, zero)
  {
  }

  /** Rewriting an occupied lane, or the first free one, with a flow of this bucket whose fingerprint no other lane has. */
  lemma RefillKeepsSound<K>(bk: Bucket<K>, b: nat, rows: nat, fpOf: K -> uint32, zero: K, i: nat, id: K, val: uint32, time: uint32)
    requires rows > 0 && BucketSound(bk, b, rows, fpOf, zero)
    requires i <= bk.curpos && i < LANES
    requires (fpOf(id) != 0 || bk.curpos == LANES) && fpOf(id) % rows == b
    requires forall j :: 0 <= j < bk.curpos && j != i ==> bk.fps[j] != fpOf(id)
    ensures BucketSound(Refill(bk, i, fpOf(id), id, val, time), b, rows, fpOf, zero)
  {
  }

  /** The bucket after lane i, occupied or first free, has been given to a flow. */
  function Refill<K>(bk: Bucket<K>, i: nat, fp: uint32, id: K, val: uint32, time: uint32): (r: Bucket<K>)
    requires BucketShape(bk) && i <= bk.curpos && i < LANES
    ensures BucketShape(r)
  {
    SetLane(bk, i, fp, id, val, time).(curpos := if i == bk.curpos then i + 1 else bk.curpos)
  }

  /** Every countable packet rewrites exactly one lane of its bucket; what leaves that lane is the victim, unless it is the flow itself counting up. */
  lemma TouchLane<K>(c: Cache<K>, policy: Policy, fpOf: K -> uint32, zero: K, id: K) returns (i: nat, val: uint32, time: uint32)
    requires CacheSound(c, fpOf, zero) && Countable(c, fpOf(id))
    ensures var b := fpOf(id) % |c.buckets|;
            var bk := c.buckets[b];
            var r := Touch(c, policy, fpOf(id), id);
            && BucketSound(bk, b, |c.buckets|, fpOf, zero)
            && i < LANES && i <= bk.curpos
            && (forall j :: 0 <= j < bk.curpos && j != i ==> bk.fps[j] != fpOf(id))
            && r.cache.buckets == c.buckets[b := Refill(bk, i, fpOf(id), id, val, time)]
            && r.cache.now == Tick(c, policy).now
            && (policy.LRU? ==> time == r.cache.now)
            && (if i == bk.curpos then r.victim == None && val == 1
                else if r.victim == None then bk.ids[i] == id && val == Add32(bk.vals[i], 1)
                else r.victim == Some(Entry(bk.ids[i], bk.vals[i])) && val == 1)
            && (if exists j :: 0 <= j < bk.curpos && bk.fps[j] == fpOf(id) then i < bk.curpos && bk.fps[i] == fpOf(id)
                else if bk.curpos < LANES then i == bk.curpos
                else i == VictimLane(policy, c.curkick, bk))
  {
    var b := fpOf(id) % |c.buckets|;
    var bk := c.buckets[b];
    assert BucketSound(bk, b, |c.buckets|, fpOf, zero);
    var m := FirstIndex(bk.fps, fpOf(id));
    i := if m < LANES then m else if bk.curpos != LANES then bk.curpos else VictimLane(policy, c.curkick, bk);
    val := if m < LANES && bk.ids[i] == id then Add32(bk.vals[i], 1) else 1;
    time := Stamp(policy, Tick(c, policy).now, bk, i);
  }

  lemma TouchKeepsSound<K>(c: Cache<K>, policy: Policy, fpOf: K -> uint32, zero: K, id: K)
    requires CacheSound(c, fpOf, zero) && Countable(c, fpOf(id))
    ensures CacheSound(Touch(c, policy, fpOf(id), id).cache, fpOf, zero)
  {
    var rows := |c.buckets|;
    var b := fpOf(id) % rows;
    var i, val, time := TouchLane(c, policy, fpOf, zero, id);
    RefillKeepsSound(c.buckets[b], b, rows, fpOf, zero, i, id, val, time);
    forall d | 0 <= d < rows && d != b
      ensures BucketSound(c.buckets[d], d, rows, fpOf, zero)
    {
    }
  }

  /** Every packet with a non-zero fingerprint keeps the invariant. */
  lemma TouchKeepsInv<K>(c: Cache<K>, policy: Policy, fpOf: K -> uint32, zero: K, id: K)
    requires CacheInv(c, fpOf, zero) && fpOf(id) != 0
    ensures CacheInv(Touch(c, policy, fpOf(id), id).cache, fpOf, zero)
  {
    var rows := |c.buckets|;
    var b := fpOf(id) % rows;
    InvIsSound(c, fpOf, zero);
    var i, val, time := TouchLane(c, policy, fpOf, zero, id);
    var bk := c.buckets[b];
    assert BucketInv(bk, b, rows, fpOf, zero);
    RefillKeepsSound(bk, b, rows, fpOf, zero, i, id, val, time);
    assert BucketInv(Refill(bk, i, fpOf(id), id, val, time), b, rows, fpOf, zero);
    forall d | 0 <= d < rows && d != b
      ensures BucketInv(c.buckets[d], d, rows, fpOf, zero)
    {
    }
  }

  /** Single-word flows: the key word is the flow. */
  function SelfKey(): uint32 -> uint32 {
    k => k
  }

  /** When each flow is its own key word, a matching lane always holds the flow itself. */
  lemma IdentityNeverCollides(c: Cache<uint32>, flow: uint32)
    requires CacheInv(c, SelfKey(), 0) && flow != 0
    ensures var bk := c.buckets[flow % |c.buckets|];
            var i := FirstIndex(bk.fps, flow);
            i < LANES ==> i < bk.curpos && bk.ids[i] == flow
  {
    var b := flow % |c.buckets|;
    assert BucketInv(c.buckets[b], b, |c.buckets|, SelfKey(), 0);
  }

  // ---------- The cache in place ----------

  function WithBucket<K>(c: Cache<K>, b: nat, bk: Bucket<K>): Cache<K>
    requires b < |c.buckets|
  {
    c.(buckets := c.buckets[b := bk])
  }

  /** The lanes of bucket b in a flat array. */
  function Window<T>(s: seq<T>, b: nat): (w: seq<T>)
    requires LANES * b + LANES <= |s|
    ensures |w| == LANES
  {
    s[LANES * b..LANES * b + LANES]
  }

  lemma WindowUpdate<T>(s: seq<T>, b: nat, i: nat, x: T, d: nat)
    requires LANES * b + LANES <= |s| && LANES * d + LANES <= |s| && i < LANES
    ensures Window(s[LANES * b + i := x], d) == if d == b then Window(s, b)[i := x] else Window(s, d)
  {
  }

  lemma ConstantWindow<T>(s: seq<T>, b: nat, x: T)
    requires LANES * b + LANES <= |s| && forall j :: 0 <= j < |s| ==> s[j] == x
    ensures Window(s, b) == seq(LANES, _ => x)
  {
  }

  /** The cache as the modules keep it: flat lane arrays, a fill position per bucket, and the eviction cursor or clock. */
  class Simd<K(==)> {
    const policy: Policy
    const rows: nat
    const key: array<uint32>
    const id: array<K>
    const value: array<uint32>
    const myclock: array<uint32>
    const curpos: array<nat>
    var curkick: nat
    var now: uint32

    ghost const Repr: set<object>

    ghost predicate Valid()
      reads this, Repr
    {
      && Repr == {this, key, id, value, myclock, curpos}
      && key != value && key != myclock && value != myclock
      && (id as object) != key && (id as object) != value && (id as object) != myclock
      && rows > 0 && curkick < LANES
      && key.Length == id.Length == value.Length == myclock.Length == LANES * rows
      && curpos.Length == rows
      && forall b :: 0 <= b < rows ==> curpos[b] <= LANES
    }

    ghost function BucketAt(b: nat): (bk: Bucket<K>)
      requires Valid() && b < rows
      reads this, Repr
      ensures BucketShape(bk)
    {
      Bucket(Window(key[..], b), Window(id[..], b), Window(value[..], b), Window(myclock[..], b), curpos[b])
    }

    ghost function View(): (c: Cache<K>)
      requires Valid()
      reads this, Repr
      ensures Shape(c) && |c.buckets| == rows
    {
      Cache(seq(rows, b requires 0 <= b < rows && Valid() reads this, Repr => BucketAt(b)), curkick, now)
    }

    constructor (policy: Policy, rows: nat, zero: K)
      requires rows > 0
      ensures Valid() && fresh(Repr)
      ensures this.policy == policy && this.rows == rows
      ensures View() == EmptyCache(rows, zero)
    {
      this.policy, this.rows := policy, rows;
      key := new uint32[LANES * rows](_ => 0);
      id := new K[LANES * rows](_ => zero);
      value := new uint32[LANES * rows](_ => 0);
      myclock := new uint32[LANES * rows](_ => 0);
      curpos := new nat[rows](_ => 0);
      curkick, now := 0, 0;
      Repr := {this, key, id, value, myclock, curpos};
      new;
      forall b | 0 <= b < rows
        ensures BucketAt(b) == EmptyBucket(zero)
      {
        ConstantWindow(key[..], b, 0);
        ConstantWindow(id[..], b, zero);
        ConstantWindow(value[..], b, 0);
        ConstantWindow(myclock[..], b, 0);
      }
    }

    /** A lane of a bucket is one cell of each array. */
    lemma LaneAt(b: nat, i: nat)
      requires Valid() && b < rows && i < LANES
      ensures LANES * b + i < key.Length && View().buckets[b] == BucketAt(b)
      ensures BucketAt(b).fps[i] == key[LANES * b + i]
      ensures BucketAt(b).ids[i] == id[LANES * b + i]
      ensures BucketAt(b).vals[i] == value[LANES * b + i]
      ensures BucketAt(b).clocks[i] == myclock[LANES * b + i]
    {
    }

    /** Overwrites one lane. */
    method WriteLane(b: nat, i: nat, fp: uint32, flow: K, val: uint32, time: uint32)
      requires Valid() && b < rows && i < LANES
      modifies key, id, value, myclock
      ensures Valid()
      ensures View() == WithBucket(old(View()), b, SetLane(old(View()).buckets[b], i, fp, flow, val, time))
    {
      var p := LANES * b + i;
      ghost var k0, i0, v0, m0 := key[..], id[..], value[..], myclock[..];
      key[p], id[p], value[p], myclock[p] := fp, flow, val, time;
      assert key[..] == k0[p := fp] && id[..] == i0[p := flow] && value[..] == v0[p := val] && myclock[..] == m0[p := time];
      forall d | 0 <= d < rows
        ensures BucketAt(d) == if d == b then SetLane(old(BucketAt(b)), i, fp, flow, val, time) else old(BucketAt(d))
      {
        WindowUpdate(k0, b, i, fp, d);
        WindowUpdate(i0, b, i, flow, d);
        WindowUpdate(v0, b, i, val, d);
        WindowUpdate(m0, b, i, time, d);
      }
    }

    /** The LRU victim search loop. */
    method OldestLane(b: nat) returns (kick: nat)
      requires Valid() && b < rows
      ensures kick == OldestIndex(BucketAt(b).clocks)
    {
      ghost var clocks := BucketAt(b).clocks;
      kick := 0;
      var least := CLOCK_LIMIT;
      for i := 0 to LANES
        invariant (kick, least) == LruScan(clocks, i)
      {
        assert clocks[i] == myclock[LANES * b + i];
        if myclock[LANES * b + i] < least {
          least := myclock[LANES * b + i];
          kick := i;
        }
      }
    }

    /** One packet, with the SIMD match; returns the pair to be pushed into the sketch, if any. */
    method Aggregate(fp: uint32, flow: K) returns (victim: Option<Entry<K>>)
      requires Valid()
      modifies Repr
      ensures Valid()
      ensures View() == Touch(old(View()), policy, fp, flow).cache
      ensures victim == Touch(old(View()), policy, fp, flow).victim
    {
      AdvanceClock();
      var b := fp % rows;
      assert View().buckets[b] == BucketAt(b);
      var i := MatchLane(b, fp);
      if i < LANES {
        victim := CountOrDisplace(b, i, fp, flow);
      } else if curpos[b] != LANES {
        TakeFreeLane(b, fp, flow);
        victim := None;
      } else {
        victim := Evict(b, fp, flow);
      }
    }

    /** The SIMD match of a bucket's key words: the first equal lane, or LANES. */
    method MatchLane(b: nat, fp: uint32) returns (i: nat)
      requires Valid() && b < rows
      ensures i == FirstIndex(BucketAt(b).fps, fp)
    {
      var keys := key[LANES * b..LANES * b + LANES];
      assert keys == Window(key[..], b);
      var matched := Matched(fp, keys);
      SimdMatchIsScalarMatch(fp, keys);
      i := if matched != 0 then Tzcnt(matched) else LANES;
    }

    method AdvanceClock()
      requires Valid()
      modifies this`now
      ensures Valid() && View() == Tick(old(View()), policy)
    {
      if policy.LRU? {
        now := Add32(now, 1);
      }
      assert forall d :: 0 <= d < rows ==> BucketAt(d) == old(BucketAt(d));
    }

    method CountOrDisplace(b: nat, i: nat, fp: uint32, flow: K) returns (victim: Option<Entry<K>>)
      requires Valid() && b < rows && i < LANES
      modifies key, id, value, myclock
      ensures Valid()
      ensures Step(View(), victim) == TouchMatch(old(View()), policy, b, i, fp, flow)
    {
      var p := LANES * b + i;
      LaneAt(b, i);
      if id[p] == flow {
        victim := None;
        WriteLane(b, i, fp, flow, Add32(value[p], 1), if policy.LRU? then now else myclock[p]);
      } else {
        var e := Displace(b, i, fp, flow);
        victim := Some(e);
      }
    }

    method TakeFreeLane(b: nat, fp: uint32, flow: K)
      requires Valid() && b < rows && curpos[b] < LANES
      modifies key, id, value, myclock, curpos
      ensures Valid()
      ensures Step(View(), None) == TouchFree(old(View()), policy, b, fp, flow)
    {
      var i := curpos[b];
      var _ := Displace(b, i, fp, flow);
      AdvanceFill(b);
    }

    /** Hands out the pair in a lane and gives the lane to a flow with count 1. */
    method Displace(b: nat, i: nat, fp: uint32, flow: K) returns (victim: Entry<K>)
      requires Valid() && b < rows && i < LANES
      modifies key, id, value, myclock
      ensures Valid()
      ensures var bk := old(View()).buckets[b];
              && victim == Entry(bk.ids[i], bk.vals[i])
              && View() == WithBucket(old(View()), b, SetLane(bk, i, fp, flow, 1, Stamp(policy, now, bk, i)))
    {
      LaneAt(b, i);
      var p := LANES * b + i;
      victim := Entry(id[p], value[p]);
      WriteLane(b, i, fp, flow, 1, if policy.LRU? then now else myclock[p]);
    }

    method Evict(b: nat, fp: uint32, flow: K) returns (victim: Option<Entry<K>>)
      requires Valid() && b < rows
      modifies this`curkick, key, id, value, myclock
      ensures Valid()
      ensures Step(View(), victim) == TouchFull(old(View()), policy, b, fp, flow)
    {
      var i := curkick;
      if policy.LRU? {
        i := OldestLane(b);
      }
      LaneAt(b, i);
      assert i == VictimLane(policy, curkick, View().buckets[b]);
      var e := Displace(b, i, fp, flow);
      victim := Some(e);
      if policy.GRR? {
        AdvanceKick();
      }
    }

    method AdvanceFill(b: nat)
      requires Valid() && b < rows && curpos[b] < LANES
      modifies curpos
      ensures Valid()
      ensures View() == WithBucket(old(View()), b, old(View()).buckets[b].(curpos := old(curpos[b]) + 1))
    {
      curpos[b] := curpos[b] + 1;
      assert forall d :: 0 <= d < rows ==>
        BucketAt(d) == if d == b then old(BucketAt(b)).(curpos := old(curpos[b]) + 1) else old(BucketAt(d));
    }

    method AdvanceKick()
      requires Valid()
      modifies this`curkick
      ensures Valid()
      ensures View() == old(View()).(curkick := (old(curkick) + 1) % LANES)
    {
      curkick := (curkick + 1) % LANES;
      assert forall d :: 0 <= d < rows ==> BucketAt(d) == old(BucketAt(d));
    }
  }
}
