/** The FM distinct-flow sketch, plain and behind the Agg-Evict cache. */
module FmSketch {
  import opened Machine
  import opened SimdMatch
  import opened AggCache
  import opened AggEvict
  import opened TableSketch

  /** The bit a hash value votes for: its trailing zeros, or 31 for the zero hash. */
  function FmBit(h: uint32): nat {
    if h == 0 then 31 else Tzcnt(h)
  }

  /** In word r, the bit that the r-th hash votes for. */
  function FmBits(hash: (uint32, nat) -> uint32): (uint32, nat) -> nat {
    (k: uint32, r: nat) => FmBit(hash(k, r))
  }

  function FmPos(): (uint32, nat) -> nat {
    (_: uint32, r: nat) => r
  }

  function FmUpd(hash: (uint32, nat) -> uint32): (seq<Bits>, uint32, uint32) -> seq<Bits> {
    Updater(OrOp(FmBits(hash)), FmPos(), 4)
  }

  class FmSketchSimd {
    const simd: Simd<uint32>
    const hash: (uint32, nat) -> uint32
    var count1: Bits
    var count2: Bits
    var count3: Bits
    var count4: Bits

    ghost predicate Valid()
      reads this, simd, simd.Repr
    {
      simd.Valid() && this !in simd.Repr
    }

    ghost function View(): (st: System<uint32, seq<Bits>>)
      requires Valid()
      reads this, simd, simd.Repr
      ensures Shape(st.cache)
    {
      System(simd.View(), [count1, count2, count3, count4])
    }

    constructor (policy: Policy, rows: nat, hash: (uint32, nat) -> uint32)
      requires rows > 0
      ensures Valid() && fresh(simd.Repr) && simd.policy == policy && this.hash == hash
      ensures View() == System(EmptyCache<uint32>(rows, 0), [{}, {}, {}, {}])
    {
      simd := new Simd<uint32>(policy, rows, 0);
      this.hash := hash;
      count1, count2, count3, count4 := {}, {}, {}, {};
      new;
      assert simd.View() == EmptyCache<uint32>(rows, 0);
    }

    /** One flow into the four words; its weight v does not matter. */
    method Mark(k: uint32, ghost v: uint32)
      requires Valid()
      modifies this
      ensures Valid() && simd.View() == old(simd.View())
      ensures View().sketch == FmUpd(hash)(old(View()).sketch, k, v)
    {
      FourWords(hash, View().sketch, k, v);
      count1 := count1 + {FmBit(hash(k, 0))};
      count2 := count2 + {FmBit(hash(k, 1))};
      count3 := count3 + {FmBit(hash(k, 2))};
      count4 := count4 + {FmBit(hash(k, 3))};
    }

    /** One packet. */
    method Inc(flow: uint32)
      requires Valid()
      modifies this, simd.Repr
      ensures Valid()
      ensures View() == AggStep(FmUpd(hash), simd.policy, SelfKey(), old(View()), flow)
    {
      var victim := simd.Aggregate(flow, flow);
      if victim.Some? {
        Mark(victim.value.id, victim.value.count);
      }
    }
  }

  lemma FourWords(hash: (uint32, nat) -> uint32, s: seq<Bits>, k: uint32, v: uint32)
    requires |s| == 4
    ensures FmUpd(hash)(s, k, v) == [s[0] + {FmBit(hash(k, 0))}, s[1] + {FmBit(hash(k, 1))},
                                     s[2] + {FmBit(hash(k, 2))}, s[3] + {FmBit(hash(k, 3))}]
  {
    var op, pos := OrOp(FmBits(hash)), FmPos();
    assert Insert(op, pos, 1, s, k, v) == Hit(op, pos, s, k, 0, v);
    assert Insert(op, pos, 2, s, k, v) == Hit(op, pos, Insert(op, pos, 1, s, k, v), k, 1, v);
    assert Insert(op, pos, 3, s, k, v) == Hit(op, pos, Insert(op, pos, 2, s, k, v), k, 2, v);
    assert Insert(op, pos, 4, s, k, v) == Hit(op, pos, Insert(op, pos, 3, s, k, v), k, 3, v);
  }

  // ---------- Agg-Evict refines FM ----------

  lemma FmIsLawful(hash: (uint32, nat) -> uint32)
    ensures Lawful(FmUpd(hash), Always(), Always())
  {
    OrOpIsLawful(FmBits(hash));
    TableSketchIsLawful(OrOp(FmBits(hash)), FmPos(), 4);
  }

  /** After every stream of non-zero flows, the four words together with the bits of the cached flows are the plain words. */
  lemma AggEvictRefinesFm(policy: Policy, rows: nat, hash: (uint32, nat) -> uint32, s0: seq<Bits>, stream: seq<uint32>)
    requires rows > 0
    requires forall i :: 0 <= i < |stream| ==> stream[i] != 0
    ensures var upd := FmUpd(hash);
            var st := AggRun(upd, policy, SelfKey(), System(EmptyCache<uint32>(rows, 0), s0), stream);
            Drain(upd, st.sketch, Pairs(st.cache.buckets)) == PlainRun(upd, s0, stream)
  {
    FmIsLawful(hash);
    AggEvictRefinesPlain(FmUpd(hash), Always(), Always(), policy, SelfKey(), 0, rows, s0, stream);
  }

  /**
   The reset flush visits unused lanes too and so counts a phantom flow 0: the flushed words
   are the plain words exactly when the cache is completely full or flow 0's four bits are
   set already.
   */
  lemma FlushCountsPhantomFlow(policy: Policy, rows: nat, hash: (uint32, nat) -> uint32, s0: seq<Bits>, stream: seq<uint32>)
    requires rows > 0 && |s0| == 4
    requires forall i :: 0 <= i < |stream| ==> stream[i] != 0
    ensures var upd := FmUpd(hash);
            var st := AggRun(upd, policy, SelfKey(), System(EmptyCache<uint32>(rows, 0), s0), stream);
            var plain := PlainRun(upd, s0, stream);
            && |plain| == 4
            && (Drain(upd, st.sketch, AllLanes(st.cache.buckets)) == plain <==>
                AllFull(st.cache.buckets) ||
                forall r :: 0 <= r < 4 ==> FmBit(hash(0, r)) in plain[r])
  {
    PlainFmLength(hash, s0, stream);
    PhantomShows(hash, PlainRun(FmUpd(hash), s0, stream));
    FlushedFm(policy, rows, hash, s0, stream);
  }

  lemma FlushedFm(policy: Policy, rows: nat, hash: (uint32, nat) -> uint32, s0: seq<Bits>, stream: seq<uint32>)
    requires rows > 0
    requires forall i :: 0 <= i < |stream| ==> stream[i] != 0
    ensures var upd := FmUpd(hash);
            var st := AggRun(upd, policy, SelfKey(), System(EmptyCache<uint32>(rows, 0), s0), stream);
            var plain := PlainRun(upd, s0, stream);
            Drain(upd, st.sketch, AllLanes(st.cache.buckets)) == if AllFull(st.cache.buckets) then plain else upd(plain, 0, 0)
  {
    FmIsLawful(hash);
    ResetFlushIsPlainPlusPhantom(FmUpd(hash), Always(), Always(), policy, SelfKey(), 0, rows, s0, stream);
  }

  lemma PhantomShows(hash: (uint32, nat) -> uint32, s: seq<Bits>)
    requires |s| == 4
    ensures FmUpd(hash)(s, 0, 0) == s <==> forall r :: 0 <= r < 4 ==> FmBit(hash(0, r)) in s[r]
  {
    FourWords(hash, s, 0, 0);
    var u := FmUpd(hash)(s, 0, 0);
    assert forall r :: 0 <= r < 4 ==> u[r] == s[r] + {FmBit(hash(0, r))};
    forall r | 0 <= r < 4
      ensures u[r] == s[r] <==> FmBit(hash(0, r)) in s[r]
    {
      assert FmBit(hash(0, r)) in u[r];
    }
    assert u == s <==> forall r :: 0 <= r < 4 ==> u[r] == s[r];
  }

  lemma {:induction false} PlainFmLength(hash: (uint32, nat) -> uint32, s0: seq<Bits>, stream: seq<uint32>)
    ensures |PlainRun(FmUpd(hash), s0, stream)| == |s0|
    decreases |stream|
  {
    if stream != [] {
      PlainFmLength(hash, s0, stream[..|stream| - 1]);
    }
  }

  /** A module that has seen no packet still reports flow 0's bit after its reset flush. */
  lemma EmptyEpochReportsFlowZero(policy: Policy, hash: (uint32, nat) -> uint32)
    ensures var upd := FmUpd(hash);
            var st := AggRun(upd, policy, SelfKey(), System(EmptyCache<uint32>(1, 0), [{}, {}, {}, {}]), []);
            Drain(upd, st.sketch, AllLanes(st.cache.buckets)) != PlainRun(upd, [{}, {}, {}, {}], [])
  {
    FlushCountsPhantomFlow(policy, 1, hash, [{}, {}, {}, {}], []);
    var st := AggRun(FmUpd(hash), policy, SelfKey(), System(EmptyCache<uint32>(1, 0), [{}, {}, {}, {}]), []);
    assert st.cache.buckets[0].curpos != LANES;
    var none: seq<Bits> := [{}, {}, {}, {}];
    assert FmBit(hash(0, 0)) !in none[0];
  }

  // ---------- What the words hold ----------

  /** A hash value votes for bit b: it has exactly b trailing zeros, and the zero value votes for bit 31. */
  predicate Votes(h: uint32, b: nat) {
    if h == 0 then b == 31 else h % Pow2(b) == 0 && h / Pow2(b) % 2 == 1
  }

  /** After every stream, bit b of word r is set exactly when it was before or the r-th hash of some packet's flow votes for it. */
  lemma FmWordsHoldVotes(hash: (uint32, nat) -> uint32, s0: seq<Bits>, stream: seq<uint32>, r: nat, b: nat)
    requires |s0| == 4 && r < 4
    ensures var plain := PlainRun(FmUpd(hash), s0, stream);
            |plain| == 4 && (b in plain[r] <==> b in s0[r] || exists i :: 0 <= i < |stream| && Votes(hash(stream[i], r), b))
  {
    PlainOrBits(FmBits(hash), FmPos(), 4, s0, stream, r, b);
    forall k: uint32
      ensures SetsBit(FmBits(hash), FmPos(), 4, k, r, b) <==> Votes(hash(k, r), b)
    {
      if hash(k, r) != 0 {
        TzcntIs(hash(k, r), b);
      }
      assert SetsBit(FmBits(hash), FmPos(), 4, k, r, b) <==> FmBits(hash)(k, r) == b by {
        assert FmPos()(k, r) == r;
      }
    }
  }
}
