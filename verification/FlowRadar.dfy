/**
 FlowRadar: a Bloom filter that recognises new flows, and cells that keep the XOR of the
 flows admitted to them, their number, and their packets.  Plain, behind the Agg-Evict
 cache, and with multi-word flows cached by fingerprint.
 */
module FlowRadar {
  import opened Machine
  import opened AggCache
  import opened AggEvict
  import opened TableSketch

  /** Seeded hashes of a flow, and its words as one bit string. */
  datatype Hashes<!K> = Hashes(bloom: (K, nat) -> uint32, cell: (K, nat) -> uint32, code: K -> Bits)

  datatype Radar = Radar(bf: seq<Bits>, flowx: seq<Bits>, flowc: seq<uint32>, packetc: seq<uint32>)

  predicate RadarShape(s: Radar, size: nat) {
    |s.bf| == |s.flowx| == |s.flowc| == |s.packetc| == size > 0
  }

  /** Bloom bit r of a flow: word and bit of a hash into 32 * size bits. */
  function BfPos<K>(hs: Hashes<K>, size: nat): (K, nat) -> nat
    requires size > 0
  {
    (k: K, r: nat) => hs.bloom(k, r) % (32 * size) / 32
  }

  function BfBit<K>(hs: Hashes<K>, size: nat): (K, nat) -> nat
    requires size > 0
  {
    (k: K, r: nat) => hs.bloom(k, r) % (32 * size) % 32
  }

  function CellPos<K>(hs: Hashes<K>, size: nat): (K, nat) -> nat
    requires size > 0
  {
    (k: K, r: nat) => hs.cell(k, r) % size
  }

  function Xor(a: Bits, b: Bits): Bits {
    (a - b) + (b - a)
  }

  function XorOp<K>(hs: Hashes<K>): (Bits, K, nat, uint32) -> Bits {
    (c: Bits, k: K, _: nat, _: uint32) => Xor(c, hs.code(k))
  }

  /** Are the first n Bloom bits of the flow all set? */
  predicate CoveredUpTo<K>(hs: Hashes<K>, size: nat, bf: seq<Bits>, k: K, n: nat)
    requires |bf| == size > 0
  {
    forall r :: 0 <= r < n ==> BfBit(hs, size)(k, r) in bf[BfPos(hs, size)(k, r)]
  }

  predicate Covered<K>(hs: Hashes<K>, size: nat, bf: seq<Bits>, k: K)
    requires |bf| == size > 0
  {
    CoveredUpTo(hs, size, bf, k, 4)
  }

  function BfUpd<K>(hs: Hashes<K>, size: nat): (seq<Bits>, K, uint32) -> seq<Bits>
    requires size > 0
  {
    Updater(OrOp(BfBit(hs, size)), BfPos(hs, size), 4)
  }

  function FlowxUpd<K>(hs: Hashes<K>, size: nat): (seq<Bits>, K, uint32) -> seq<Bits>
    requires size > 0
  {
    Updater(XorOp(hs), CellPos(hs, size), 4)
  }

  function CountUpd<K>(hs: Hashes<K>, size: nat): (seq<uint32>, K, uint32) -> seq<uint32>
    requires size > 0
  {
    Updater(AddOp(), CellPos(hs, size), 4)
  }

  /** n packets of one flow; a flow is new when some Bloom bit was clear. */
  function Record<K>(hs: Hashes<K>, size: nat, s: Radar, k: K, v: uint32): (t: Radar)
    requires size > 0
    ensures RadarShape(s, size) ==> RadarShape(t, size)
  {
    var isNew := |s.bf| == size && !Covered(hs, size, s.bf, k);
    Radar(BfUpd(hs, size)(s.bf, k, v),
          if isNew then FlowxUpd(hs, size)(s.flowx, k, 1) else s.flowx,
          if isNew then CountUpd(hs, size)(s.flowc, k, 1) else s.flowc,
          CountUpd(hs, size)(s.packetc, k, v))
  }

  function FrUpd<K>(hs: Hashes<K>, size: nat): (Radar, K, uint32) -> Radar
    requires size > 0
  {
    (s: Radar, k: K, v: uint32) => Record(hs, size, s, k, v)
  }

  // ---------- The Bloom filter ----------

  /** Setting bits that are all set already changes nothing. */
  lemma {:induction false} CoveredInsertIsIdle<K>(hs: Hashes<K>, size: nat, bf: seq<Bits>, k: K, n: nat, v: uint32)
    requires |bf| == size > 0 && CoveredUpTo(hs, size, bf, k, n)
    ensures Insert(OrOp(BfBit(hs, size)), BfPos(hs, size), n, bf, k, v) == bf
  {
    if n > 0 {
      CoveredInsertIsIdle(hs, size, bf, k, n - 1, v);
      var p, b := BfPos(hs, size)(k, n - 1), BfBit(hs, size)(k, n - 1);
      assert bf[p] + {b} == bf[p];
    }
  }

  /** Exactly what n OR touches put into word p. */
  lemma {:induction false} InsertedBits<K>(hs: Hashes<K>, size: nat, bf: seq<Bits>, k: K, n: nat, v: uint32, p: nat, b: nat)
    requires |bf| == size > 0 && p < size
    ensures b in Insert(OrOp(BfBit(hs, size)), BfPos(hs, size), n, bf, k, v)[p] <==>
            b in bf[p] || exists r :: 0 <= r < n && BfPos(hs, size)(k, r) == p && BfBit(hs, size)(k, r) == b
  {
    if n > 0 {
      InsertedBits(hs, size, bf, k, n - 1, v, p, b);
      var pos, bit := BfPos(hs, size), BfBit(hs, size);
      if pos(k, n - 1) == p && bit(k, n - 1) == b {
        assert exists r :: 0 <= r < n && pos(k, r) == p && bit(k, r) == b;
      }
    }
  }

  /** A recorded flow is covered from then on, and covered flows stay covered. */
  lemma RecordCovers<K>(hs: Hashes<K>, size: nat, bf: seq<Bits>, k: K, v: uint32, f: K)
    requires |bf| == size > 0
    ensures Covered(hs, size, BfUpd(hs, size)(bf, k, v), k)
    ensures Covered(hs, size, bf, f) ==> Covered(hs, size, BfUpd(hs, size)(bf, k, v), f)
  {
    var pos, bit := BfPos(hs, size), BfBit(hs, size);
    forall r | 0 <= r < 4
      ensures bit(k, r) in BfUpd(hs, size)(bf, k, v)[pos(k, r)]
      ensures bit(f, r) in bf[pos(f, r)] ==> bit(f, r) in BfUpd(hs, size)(bf, k, v)[pos(f, r)]
    {
      InsertedBits(hs, size, bf, k, 4, v, pos(k, r), bit(k, r));
      InsertedBits(hs, size, bf, k, 4, v, pos(f, r), bit(f, r));
    }
  }

  // ---------- Weighted insertion is repeated insertion ----------

  lemma OrBfIsLawful<K(!new)>(hs: Hashes<K>, size: nat)
    requires size > 0
    ensures CellLawful(OrOp(BfBit(hs, size))) && CellLawful(AddOp<K>()) && CellCommutes(XorOp(hs))
  {
    OrOpIsLawful(BfBit(hs, size));
    AddOpIsLawful<K>();
    forall c: Bits, k: K, r: nat, v: uint32, l: K, q: nat, w: uint32
      ensures CellSwaps(XorOp(hs), c, k, r, v, l, q, w)
    {
      assert Xor(Xor(c, hs.code(k)), hs.code(l)) == Xor(Xor(c, hs.code(l)), hs.code(k));
    }
  }

  /** Two recordings of the same flow are one with the sum of the weights. */
  lemma RecordMerges<K(!new)>(hs: Hashes<K>, size: nat, s: Radar, k: K, v: uint32, w: uint32)
    requires RadarShape(s, size)
    ensures Merges(FrUpd(hs, size), s, k, v, w)
  {
    OrBfIsLawful(hs, size);
    InsertMerges(OrOp(BfBit(hs, size)), BfPos(hs, size), 4, s.bf, k, v, w);
    InsertMerges(AddOp<K>(), CellPos(hs, size), 4, s.packetc, k, v, w);
    RecordCovers(hs, size, s.bf, k, v, k);
  }

  lemma RecordTwice<K(!new)>(hs: Hashes<K>, size: nat, s: Radar, k: K, v: uint32, w: uint32)
    requires RadarShape(s, size)
    ensures Record(hs, size, Record(hs, size, s, k, v), k, w) == Record(hs, size, s, k, Add32(v, w))
  {
    RecordMerges(hs, size, s, k, v, w);
  }

  function Repeat<K>(hs: Hashes<K>, size: nat, s: Radar, k: K, n: nat): Radar
    requires size > 0
  {
    if n == 0 then s else Record(hs, size, Repeat(hs, size, s, k, n - 1), k, 1)
  }

  lemma RepeatOnce<K>(hs: Hashes<K>, size: nat, s: Radar, k: K)
    requires size > 0
    ensures Repeat(hs, size, s, k, 1) == Record(hs, size, s, k, 1)
  {
    assert Repeat(hs, size, s, k, 0) == s;
  }

  /** Evicting (k, n) leaves exactly the state of n plain insertions of k, also when k's hash indices coincide. */
  lemma {:induction false} WeightedIsRepeated<K(!new)>(hs: Hashes<K>, size: nat, s: Radar, k: K, n: nat)
    requires RadarShape(s, size) && 1 <= n < WORD
    ensures Record(hs, size, s, k, n) == Repeat(hs, size, s, k, n)
  {
    if n == 1 {
      RepeatOnce(hs, size, s, k);
    } else {
      WeightedIsRepeated(hs, size, s, k, n - 1);
      RecordTwice(hs, size, s, k, n - 1, 1);
      Add32Small(n - 1, 1);
    }
  }

  // ---------- Admission ----------

  /** The flows that a sequence of recordings admits as new, in order. */
  function Admitted<K>(hs: Hashes<K>, size: nat, s: Radar, es: seq<Entry<K>>): seq<K>
    requires RadarShape(s, size)
    decreases |es|
  {
    if es == [] then []
    else
      (if Covered(hs, size, s.bf, es[0].id) then [] else [es[0].id])
      + Admitted(hs, size, Record(hs, size, s, es[0].id, es[0].count), es[1..])
  }

  lemma {:induction false} CoveredIsNeverAdmitted<K>(hs: Hashes<K>, size: nat, s: Radar, es: seq<Entry<K>>, f: K)
    requires RadarShape(s, size) && Covered(hs, size, s.bf, f)
    ensures f !in Admitted(hs, size, s, es)
    decreases |es|
  {
    if es != [] {
      RecordCovers(hs, size, s.bf, es[0].id, es[0].count, f);
      CoveredIsNeverAdmitted(hs, size, Record(hs, size, s, es[0].id, es[0].count), es[1..], f);
    }
  }

  /** No flow is admitted twice, whatever the order and weights of the recordings. */
  lemma {:induction false} AdmittedOnce<K>(hs: Hashes<K>, size: nat, s: Radar, es: seq<Entry<K>>)
    requires RadarShape(s, size)
    ensures var adm := Admitted(hs, size, s, es);
            forall i, j :: 0 <= i < j < |adm| ==> adm[i] != adm[j]
    decreases |es|
  {
    if es != [] {
      var s' := Record(hs, size, s, es[0].id, es[0].count);
      AdmittedOnce(hs, size, s', es[1..]);
      RecordCovers(hs, size, s.bf, es[0].id, es[0].count, es[0].id);
      CoveredIsNeverAdmitted(hs, size, s', es[1..], es[0].id);
    }
  }

  /** XOR of all words that admitted flows put on cell p, once per hash index landing there. */
  function XorWeight<K>(hs: Hashes<K>, pos: (K, nat) -> nat, rows: nat, x: Bits, k: K, p: nat): Bits {
    if rows == 0 then x
    else
      var y := XorWeight(hs, pos, rows - 1, x, k, p);
      if pos(k, rows - 1) == p then Xor(y, hs.code(k)) else y
  }

  function XorLoad<K>(hs: Hashes<K>, pos: (K, nat) -> nat, x: Bits, flows: seq<K>, p: nat): Bits
    decreases |flows|
  {
    if flows == [] then x else XorLoad(hs, pos, XorWeight(hs, pos, 4, x, flows[0], p), flows[1..], p)
  }

  lemma {:induction false} InsertXor<K>(hs: Hashes<K>, pos: (K, nat) -> nat, rows: nat, t: seq<Bits>, k: K, v: uint32, p: nat)
    requires p < |t|
    ensures Insert(XorOp(hs), pos, rows, t, k, v)[p] == XorWeight(hs, pos, rows, t[p], k, p)
  {
    if rows > 0 {
      InsertXor(hs, pos, rows - 1, t, k, v, p);
    }
  }

  /**
   In every reachable state the cells hold, over exactly the admitted flows and their hash
   indices, the XOR of the flows and their number; and over all recordings the packets.
   */
  lemma CellsSumAdmittedFlows<K>(hs: Hashes<K>, size: nat, s: Radar, es: seq<Entry<K>>, p: nat)
    requires RadarShape(s, size) && p < size
    ensures var t := Drain(FrUpd(hs, size), s, es);
            var adm := Admitted(hs, size, s, es);
            var pos := CellPos(hs, size);
            && RadarShape(t, size)
            && t.flowx[p] == XorLoad(hs, pos, s.flowx[p], adm, p)
            && t.flowc[p] == Plus32(s.flowc[p], Load(pos, 4, Units(adm), p))
            && t.packetc[p] == Plus32(s.packetc[p], Load(pos, 4, es, p))
  {
    DrainKeepsShape(hs, size, s, es);
    CellsRecordAdmitted(hs, size, s, es);
    CellsInClosedForm(hs, CellPos(hs, size), s, Drain(FrUpd(hs, size), s, es), es, Admitted(hs, size, s, es), p);
  }

  lemma CellsInClosedForm<K>(hs: Hashes<K>, pos: (K, nat) -> nat, s: Radar, t: Radar, es: seq<Entry<K>>, adm: seq<K>, p: nat)
    requires p < |s.flowx| == |s.flowc| == |s.packetc|
    requires t.flowx == Drain(Updater(XorOp(hs), pos, 4), s.flowx, Units(adm))
    requires t.flowc == Drain(Updater(AddOp(), pos, 4), s.flowc, Units(adm))
    requires t.packetc == Drain(Updater(AddOp(), pos, 4), s.packetc, es)
    ensures p < |t.flowx| && t.flowx[p] == XorLoad(hs, pos, s.flowx[p], adm, p)
    ensures p < |t.flowc| && t.flowc[p] == Plus32(s.flowc[p], Load(pos, 4, Units(adm), p))
    ensures p < |t.packetc| && t.packetc[p] == Plus32(s.packetc[p], Load(pos, 4, es, p))
  {
    DrainXor(hs, pos, s.flowx, adm, p);
    DrainCounter(pos, 4, s.flowc, Units(adm), p);
    DrainCounter(pos, 4, s.packetc, es, p);
  }

  lemma {:induction false} DrainKeepsShape<K>(hs: Hashes<K>, size: nat, s: Radar, es: seq<Entry<K>>)
    requires RadarShape(s, size)
    ensures RadarShape(Drain(FrUpd(hs, size), s, es), size)
    decreases |es|
  {
    if es != [] {
      DrainKeepsShape(hs, size, Record(hs, size, s, es[0].id, es[0].count), es[1..]);
    }
  }

  lemma DrainFirstUnit<K, S>(upd: (S, K, uint32) -> S, s: S, k: K, flows: seq<K>)
    ensures Drain(upd, s, Units([k] + flows)) == Drain(upd, upd(s, k, 1), Units(flows))
  {
    assert Units([k] + flows)[1..] == Units(flows);
  }

  lemma AdmittedStep<K, S>(upd: (S, K, uint32) -> S, x: S, k: K, isNew: bool, rest: seq<K>)
    ensures Drain(upd, x, Units((if isNew then [k] else []) + rest)) == Drain(upd, if isNew then upd(x, k, 1) else x, Units(rest))
  {
    if isNew {
      DrainFirstUnit(upd, x, k, rest);
    } else {
      assert [] + rest == rest;
    }
  }

  /** Field by field: flow XORs and flow counts record each admitted flow once, packets record everything. */
  lemma {:induction false} CellsRecordAdmitted<K>(hs: Hashes<K>, size: nat, s: Radar, es: seq<Entry<K>>)
    requires RadarShape(s, size)
    ensures var t, adm := Drain(FrUpd(hs, size), s, es), Units(Admitted(hs, size, s, es));
            && t.flowx == Drain(FlowxUpd(hs, size), s.flowx, adm)
            && t.flowc == Drain(CountUpd(hs, size), s.flowc, adm)
            && t.packetc == Drain(CountUpd(hs, size), s.packetc, es)
    decreases |es|
  {
    if es != [] {
      var k := es[0].id;
      var s' := Record(hs, size, s, k, es[0].count);
      CellsRecordAdmitted(hs, size, s', es[1..]);
      var isNew, rest := !Covered(hs, size, s.bf, k), Admitted(hs, size, s', es[1..]);
      AdmittedStep(FlowxUpd(hs, size), s.flowx, k, isNew, rest);
      AdmittedStep(CountUpd(hs, size), s.flowc, k, isNew, rest);
      assert Admitted(hs, size, s, es) == (if isNew then [k] else []) + rest;
    }
  }

  lemma {:induction false} DrainXor<K>(hs: Hashes<K>, pos: (K, nat) -> nat, t: seq<Bits>, flows: seq<K>, p: nat)
    requires p < |t|
    ensures |Drain(Updater(XorOp(hs), pos, 4), t, Units(flows))| == |t|
    ensures Drain(Updater(XorOp(hs), pos, 4), t, Units(flows))[p] == XorLoad(hs, pos, t[p], flows, p)
    decreases |flows|
  {
    if flows != [] {
      InsertXor(hs, pos, 4, t, flows[0], 1, p);
      assert Units(flows)[1..] == Units(flows[1..]);
      DrainXor(hs, pos, Insert(XorOp(hs), pos, 4, t, flows[0], 1), flows[1..], p);
    }
  }

  // ---------- Behind the cache, unconditionally: bits and packets ----------

  function BfOf(): Radar -> seq<Bits> {
    (s: Radar) => s.bf
  }

  function PacketsOf(): Radar -> seq<uint32> {
    (s: Radar) => s.packetc
  }

  /**
   After every stream, with any fingerprint function, the Bloom bits together with the bits
   of the cached flows are the plain Bloom bits, and every cell's packets plus the cached
   packets that hash to it are the plain packets.
   */
  lemma BitsAndPacketsRefinePlain<K(!new)>(hs: Hashes<K>, size: nat, policy: Policy, fpOf: K -> uint32, zero: K, rows: nat, s0: Radar, stream: seq<K>)
    requires rows > 0 && size > 0
    requires forall i :: 0 <= i < |stream| ==> fpOf(stream[i]) != 0
    ensures var st := AggRun(FrUpd(hs, size), policy, fpOf, System(EmptyCache(rows, zero), s0), stream);
            var plain := PlainRun(FrUpd(hs, size), s0, stream);
            && Drain(BfUpd(hs, size), st.sketch.bf, Pairs(st.cache.buckets)) == plain.bf
            && Drain(CountUpd(hs, size), st.sketch.packetc, Pairs(st.cache.buckets)) == plain.packetc
  {
    BitsRefinePlain(hs, size, policy, fpOf, zero, rows, s0, stream);
    PacketsRefinePlain(hs, size, policy, fpOf, zero, rows, s0, stream);
  }

  lemma BitsRefinePlain<K(!new)>(hs: Hashes<K>, size: nat, policy: Policy, fpOf: K -> uint32, zero: K, rows: nat, s0: Radar, stream: seq<K>)
    requires rows > 0 && size > 0
    requires forall i :: 0 <= i < |stream| ==> fpOf(stream[i]) != 0
    ensures var st := AggRun(FrUpd(hs, size), policy, fpOf, System(EmptyCache(rows, zero), s0), stream);
            Drain(BfUpd(hs, size), st.sketch.bf, Pairs(st.cache.buckets)) == PlainRun(FrUpd(hs, size), s0, stream).bf
  {
    OrBfIsLawful(hs, size);
    TableSketchIsLawful(OrOp(BfBit(hs, size)), BfPos(hs, size), 4);
    AggEvictRefinesPlain(BfUpd(hs, size), Always(), Always(), policy, fpOf, zero, rows, s0.bf, stream);
    RunProjects(FrUpd(hs, size), BfUpd(hs, size), BfOf(), policy, fpOf, System(EmptyCache(rows, zero), s0), stream);
  }

  lemma PacketsRefinePlain<K(!new)>(hs: Hashes<K>, size: nat, policy: Policy, fpOf: K -> uint32, zero: K, rows: nat, s0: Radar, stream: seq<K>)
    requires rows > 0 && size > 0
    requires forall i :: 0 <= i < |stream| ==> fpOf(stream[i]) != 0
    ensures var st := AggRun(FrUpd(hs, size), policy, fpOf, System(EmptyCache(rows, zero), s0), stream);
            Drain(CountUpd(hs, size), st.sketch.packetc, Pairs(st.cache.buckets)) == PlainRun(FrUpd(hs, size), s0, stream).packetc
  {
    AddOpIsLawful<K>();
    TableSketchIsLawful(AddOp<K>(), CellPos(hs, size), 4);
    AggEvictRefinesPlain(CountUpd(hs, size), Always(), Always(), policy, fpOf, zero, rows, s0.packetc, stream);
    RunProjects(FrUpd(hs, size), CountUpd(hs, size), PacketsOf(), policy, fpOf, System(EmptyCache(rows, zero), s0), stream);
  }

  // ---------- The reset flush ----------

  lemma FlushedBits<K(!new)>(hs: Hashes<K>, size: nat, policy: Policy, fpOf: K -> uint32, zero: K, rows: nat, s0: Radar, stream: seq<K>)
    requires rows > 0 && size > 0
    requires forall i :: 0 <= i < |stream| ==> fpOf(stream[i]) != 0
    ensures var st := AggRun(FrUpd(hs, size), policy, fpOf, System(EmptyCache(rows, zero), s0), stream);
            var plain := PlainRun(FrUpd(hs, size), s0, stream);
            Drain(FrUpd(hs, size), st.sketch, AllLanes(st.cache.buckets)).bf
            == if AllFull(st.cache.buckets) then plain.bf else BfUpd(hs, size)(plain.bf, zero, 0)
  {
    OrBfIsLawful(hs, size);
    TableSketchIsLawful(OrOp(BfBit(hs, size)), BfPos(hs, size), 4);
    var upd, bits, st0 := FrUpd(hs, size), BfUpd(hs, size), System(EmptyCache(rows, zero), s0);
    ResetFlushIsPlainPlusPhantom(bits, Always(), Always(), policy, fpOf, zero, rows, s0.bf, stream);
    RunProjects(upd, bits, BfOf(), policy, fpOf, st0, stream);
    var st := AggRun(upd, policy, fpOf, st0, stream);
    DrainProjects(upd, bits, BfOf(), st.sketch, AllLanes(st.cache.buckets));
  }

  lemma FlushedPackets<K(!new)>(hs: Hashes<K>, size: nat, policy: Policy, fpOf: K -> uint32, zero: K, rows: nat, s0: Radar, stream: seq<K>)
    requires rows > 0 && size > 0
    requires forall i :: 0 <= i < |stream| ==> fpOf(stream[i]) != 0
    ensures var st := AggRun(FrUpd(hs, size), policy, fpOf, System(EmptyCache(rows, zero), s0), stream);
            Drain(FrUpd(hs, size), st.sketch, AllLanes(st.cache.buckets)).packetc == PlainRun(FrUpd(hs, size), s0, stream).packetc
  {
    AddOpIsLawful<K>();
    TableSketchIsLawful(AddOp<K>(), CellPos(hs, size), 4);
    var upd, counts, st0 := FrUpd(hs, size), CountUpd(hs, size), System(EmptyCache(rows, zero), s0);
    ResetFlushIsPlainPlusPhantom(counts, Always(), Always(), policy, fpOf, zero, rows, s0.packetc, stream);
    ZeroInsertIsNothing(CellPos(hs, size), 4, PlainRun(counts, s0.packetc, stream), zero);
    RunProjects(upd, counts, PacketsOf(), policy, fpOf, st0, stream);
    var st := AggRun(upd, policy, fpOf, st0, stream);
    DrainProjects(upd, counts, PacketsOf(), st.sketch, AllLanes(st.cache.buckets));
  }

  lemma {:induction false} PlainKeepsShape<K>(hs: Hashes<K>, size: nat, s: Radar, stream: seq<K>)
    requires RadarShape(s, size)
    ensures RadarShape(PlainRun(FrUpd(hs, size), s, stream), size)
    decreases |stream|
  {
    if stream != [] {
      PlainKeepsShape(hs, size, s, stream[..|stream| - 1]);
    }
  }

  /** Recording a flow leaves the bits alone exactly when it was covered. */
  lemma IdleExactlyWhenCovered<K>(hs: Hashes<K>, size: nat, bf: seq<Bits>, k: K, v: uint32)
    requires |bf| == size > 0
    ensures BfUpd(hs, size)(bf, k, v) == bf <==> Covered(hs, size, bf, k)
  {
    RecordCovers(hs, size, bf, k, v, k);
    if Covered(hs, size, bf, k) {
      CoveredInsertIsIdle(hs, size, bf, k, 4, v);
    }
  }

  /**
   The reset flush visits unused lanes too: after every stream the packets are the plain ones,
   and the Bloom bits are the plain ones exactly when the cache is completely full or the
   all-zero flow's bits are set already.
   */
  lemma FlushedBitsExactlyWhen<K(!new)>(hs: Hashes<K>, size: nat, policy: Policy, fpOf: K -> uint32, zero: K, rows: nat, s0: Radar, stream: seq<K>)
    requires rows > 0 && RadarShape(s0, size)
    requires forall i :: 0 <= i < |stream| ==> fpOf(stream[i]) != 0
    ensures var st := AggRun(FrUpd(hs, size), policy, fpOf, System(EmptyCache(rows, zero), s0), stream);
            var flushed, plain := Drain(FrUpd(hs, size), st.sketch, AllLanes(st.cache.buckets)), PlainRun(FrUpd(hs, size), s0, stream);
            && flushed.packetc == plain.packetc
            && |plain.bf| == size
            && (flushed.bf == plain.bf <==> AllFull(st.cache.buckets) || Covered(hs, size, plain.bf, zero))
  {
    PlainKeepsShape(hs, size, s0, stream);
    FlushedBits(hs, size, policy, fpOf, zero, rows, s0, stream);
    FlushedPackets(hs, size, policy, fpOf, zero, rows, s0, stream);
    IdleExactlyWhenCovered(hs, size, PlainRun(FrUpd(hs, size), s0, stream).bf, zero, 0);
  }

  // ---------- Behind the cache, all fields: no flow hides another ----------

  /** Bloom bit r of f belongs to no other flow of the set. */
  ghost predicate Private<K>(hs: Hashes<K>, size: nat, flows: set<K>, f: K, r: nat)
    requires size > 0
  {
    forall g, q :: g in flows && g != f && 0 <= q < 4 ==>
      BfPos(hs, size)(g, q) != BfPos(hs, size)(f, r) || BfBit(hs, size)(g, q) != BfBit(hs, size)(f, r)
  }

  /** No flow's Bloom bits are covered by the bits of the others. */
  ghost predicate NoFlowHidden<K>(hs: Hashes<K>, size: nat, flows: set<K>)
    requires size > 0
  {
    forall f :: f in flows ==> exists r :: 0 <= r < 4 && Private(hs, size, flows, f, r)
  }

  /** A private bit is set only by its own flow, which then set all of its bits. */
  ghost predicate PrivateBitsTell<K>(hs: Hashes<K>, size: nat, flows: set<K>, bf: seq<Bits>)
    requires |bf| == size > 0
  {
    forall f, r :: f in flows && 0 <= r < 4 && Private(hs, size, flows, f, r) ==>
      BfBit(hs, size)(f, r) in bf[BfPos(hs, size)(f, r)] ==> Covered(hs, size, bf, f)
  }

  ghost function Honest<K>(hs: Hashes<K>, size: nat, flows: set<K>): Radar -> bool
    requires size > 0
  {
    (s: Radar) => RadarShape(s, size) && PrivateBitsTell(hs, size, flows, s.bf)
  }

  ghost function Among<K>(flows: set<K>): K -> bool {
    (k: K) => k in flows
  }

  lemma RecordStaysHonest<K>(hs: Hashes<K>, size: nat, flows: set<K>, s: Radar, k: K, v: uint32)
    requires size > 0 && Honest(hs, size, flows)(s) && k in flows
    ensures Honest(hs, size, flows)(Record(hs, size, s, k, v))
  {
    var bf' := BfUpd(hs, size)(s.bf, k, v);
    var pos, bit := BfPos(hs, size), BfBit(hs, size);
    forall f, r | f in flows && 0 <= r < 4 && Private(hs, size, flows, f, r) && bit(f, r) in bf'[pos(f, r)]
      ensures Covered(hs, size, bf', f)
    {
      RecordCovers(hs, size, s.bf, k, v, f);
      if f != k {
        InsertedBits(hs, size, s.bf, k, 4, v, pos(f, r), bit(f, r));
      }
    }
  }

  /** Recording one flow does not change whether another is new. */
  lemma NewnessIsIndependent<K>(hs: Hashes<K>, size: nat, flows: set<K>, s: Radar, k: K, v: uint32, f: K)
    requires size > 0 && Honest(hs, size, flows)(s) && NoFlowHidden(hs, size, flows)
    requires k in flows && f in flows && f != k
    ensures Covered(hs, size, BfUpd(hs, size)(s.bf, k, v), f) <==> Covered(hs, size, s.bf, f)
  {
    RecordCovers(hs, size, s.bf, k, v, f);
    var r :| 0 <= r < 4 && Private(hs, size, flows, f, r);
    InsertedBits(hs, size, s.bf, k, 4, v, BfPos(hs, size)(f, r), BfBit(hs, size)(f, r));
  }

  lemma FieldsSwap<K(!new)>(hs: Hashes<K>, size: nat, s: Radar, k: K, v: uint32, l: K, w: uint32)
    requires size > 0
    ensures Swaps(BfUpd(hs, size), s.bf, k, v, l, w)
    ensures Swaps(CountUpd(hs, size), s.packetc, k, v, l, w)
    ensures Swaps(CountUpd(hs, size), s.flowc, k, 1, l, 1)
    ensures Swaps(FlowxUpd(hs, size), s.flowx, k, 1, l, 1)
  {
    OrBfIsLawful(hs, size);
    InsertSwaps(OrOp(BfBit(hs, size)), BfPos(hs, size), 4, 4, s.bf, k, v, l, w);
    InsertSwaps(AddOp<K>(), CellPos(hs, size), 4, 4, s.packetc, k, v, l, w);
    InsertSwaps(AddOp<K>(), CellPos(hs, size), 4, 4, s.flowc, k, 1, l, 1);
    InsertSwaps(XorOp(hs), CellPos(hs, size), 4, 4, s.flowx, k, 1, l, 1);
  }

  lemma RecordSwaps<K(!new)>(hs: Hashes<K>, size: nat, flows: set<K>, s: Radar, k: K, v: uint32, l: K, w: uint32)
    requires size > 0 && Honest(hs, size, flows)(s) && NoFlowHidden(hs, size, flows) && k in flows && l in flows
    ensures Swaps(FrUpd(hs, size), s, k, v, l, w)
  {
    if k == l {
      RecordMerges(hs, size, s, k, v, w);
      RecordMerges(hs, size, s, k, w, v);
      assert Add32(v, w) == Add32(w, v);
    } else {
      FieldsSwap(hs, size, s, k, v, l, w);
      NewnessIsIndependent(hs, size, flows, s, k, v, l);
      NewnessIsIndependent(hs, size, flows, s, l, w, k);
    }
  }

  lemma FlowRadarIsLawful<K(!new)>(hs: Hashes<K>, size: nat, flows: set<K>)
    requires size > 0 && NoFlowHidden(hs, size, flows)
    ensures Lawful(FrUpd(hs, size), Honest(hs, size, flows), Among(flows))
  {
    var upd, inv, ok := FrUpd(hs, size), Honest(hs, size, flows), Among(flows);
    forall s, k, v | inv(s) && ok(k)
      ensures Stays(upd, inv, s, k, v)
    {
      RecordStaysHonest(hs, size, flows, s, k, v);
    }
    forall s, k, v, l, w | inv(s) && ok(k) && ok(l)
      ensures Swaps(upd, s, k, v, l, w)
    {
      RecordSwaps(hs, size, flows, s, k, v, l, w);
    }
    forall s, k, v, w | inv(s) && ok(k)
      ensures Merges(upd, s, k, v, w)
    {
      RecordMerges(hs, size, s, k, v, w);
    }
  }

  function EmptyRadar(size: nat): Radar {
    Radar(seq(size, _ => {}), seq(size, _ => {}), seq(size, _ => 0), seq(size, _ => 0))
  }

  /**
   If no flow's Bloom bits are covered by those of the other flows, then after every stream
   over those flows, draining the cached pairs gives exactly the plain FlowRadar: bits,
   flow XORs, flow counts and packets.
   */
  lemma DrainedFlowRadarIsPlain<K(!new)>(hs: Hashes<K>, size: nat, flows: set<K>, policy: Policy, fpOf: K -> uint32, zero: K, rows: nat, stream: seq<K>)
    requires rows > 0 && size > 0 && NoFlowHidden(hs, size, flows)
    requires forall i :: 0 <= i < |stream| ==> stream[i] in flows && fpOf(stream[i]) != 0
    ensures var st := AggRun(FrUpd(hs, size), policy, fpOf, System(EmptyCache(rows, zero), EmptyRadar(size)), stream);
            Drain(FrUpd(hs, size), st.sketch, Pairs(st.cache.buckets)) == PlainRun(FrUpd(hs, size), EmptyRadar(size), stream)
  {
    FlowRadarIsLawful(hs, size, flows);
    assert Honest(hs, size, flows)(EmptyRadar(size));
    AggEvictRefinesPlain(FrUpd(hs, size), Honest(hs, size, flows), Among(flows), policy, fpOf, zero, rows, EmptyRadar(size), stream);
  }

  /** If b's bits are among a's but not conversely, the order of recording decides which flows are admitted. */
  lemma HiddenFlowDependsOnOrder<K(!new)>(hs: Hashes<K>, size: nat, a: K, b: K)
    requires size > 0
    requires Covered(hs, size, BfUpd(hs, size)(EmptyRadar(size).bf, a, 1), b)
    requires !Covered(hs, size, BfUpd(hs, size)(EmptyRadar(size).bf, b, 1), a)
    ensures var s := EmptyRadar(size);
            && Admitted(hs, size, s, [Entry(a, 1), Entry(b, 1)]) == [a]
            && Admitted(hs, size, s, [Entry(b, 1), Entry(a, 1)]) == [b, a]
  {
    var s := EmptyRadar(size);
    assert BfBit(hs, size)(a, 0) !in s.bf[BfPos(hs, size)(a, 0)];
    assert BfBit(hs, size)(b, 0) !in s.bf[BfPos(hs, size)(b, 0)];
    var sa, sb := Record(hs, size, s, a, 1), Record(hs, size, s, b, 1);
    assert [Entry(a, 1), Entry(b, 1)][1..] == [Entry(b, 1)] && [Entry(b, 1), Entry(a, 1)][1..] == [Entry(a, 1)];
    assert Admitted(hs, size, sa, [Entry(b, 1)]) == [];
    assert Admitted(hs, size, sb, [Entry(a, 1)]) == [a];
  }

  /** A packet for an empty bucket is cached there with count 1. */
  lemma FirstPacketOfBucket<K>(c: Cache<K>, policy: Policy, fpOf: K -> uint32, zero: K, k: K)
    requires CacheInv(c, fpOf, zero) && fpOf(k) != 0 && c.buckets[fpOf(k) % |c.buckets|].curpos == 0
    ensures var r, b := Touch(c, policy, fpOf(k), k), fpOf(k) % |c.buckets|;
            && r.victim == None
            && Occupied(r.cache.buckets[b]) == [Entry(k, 1)]
            && forall d :: 0 <= d < |c.buckets| && d != b ==> r.cache.buckets[d] == c.buckets[d]
  {
    InvIsSound(c, fpOf, zero);
    var i, v, t := TouchLane(c, policy, fpOf, zero, k);
  }

  lemma PairsOfTwo<K>(buckets: seq<Bucket<K>>, i: nat, j: nat)
    requires i < j < |buckets| && forall d :: 0 <= d < |buckets| ==> BucketShape(buckets[d])
    requires forall d :: 0 <= d < |buckets| && d != i && d != j ==> buckets[d].curpos == 0
    ensures Pairs(buckets) == Occupied(buckets[i]) + Occupied(buckets[j])
  {
    var n := |buckets|;
    PairsSplit(buckets, i);
    NoPairsIn(buckets, 0, i);
    PairsInSplit(buckets, i + 1, j + 1, n);
    NoPairsIn(buckets, i + 1, j);
    NoPairsIn(buckets, j + 1, n);
  }

  /** Two single packets of different buckets are cached, and drained in bucket order. */
  lemma TwoPacketsInBucketOrder<K, S>(upd: (S, K, uint32) -> S, policy: Policy, fpOf: K -> uint32, zero: K, rows: nat, s: S, a: K, b: K)
    requires rows > 0 && fpOf(a) != 0 && fpOf(b) != 0 && fpOf(b) % rows < fpOf(a) % rows
    ensures var st := AggRun(upd, policy, fpOf, System(EmptyCache(rows, zero), s), [a, b]);
            st.sketch == s && Pairs(st.cache.buckets) == [Entry(b, 1), Entry(a, 1)]
  {
    var st0 := System(EmptyCache(rows, zero), s);
    EmptyCacheInv(rows, fpOf, zero);
    FirstPacketOfBucket(st0.cache, policy, fpOf, zero, a);
    TouchKeepsInv(st0.cache, policy, fpOf, zero, a);
    var st1 := AggStep(upd, policy, fpOf, st0, a);
    FirstPacketOfBucket(st1.cache, policy, fpOf, zero, b);
    var st2 := AggStep(upd, policy, fpOf, st1, b);
    PairsOfTwo(st2.cache.buckets, fpOf(b) % rows, fpOf(a) % rows);
    assert [a, b][..1] == [a] && [a][..0] == [];
    assert AggRun(upd, policy, fpOf, st0, [a]) == AggStep(upd, policy, fpOf, AggRun(upd, policy, fpOf, st0, []), a);
  }

  /**
   The condition of `DrainedFlowRadarIsPlain` cannot be dropped: when a flow b is hidden by an
   earlier flow a of a later bucket, the drained flow counts differ from the plain ones.
   */
  lemma HiddenFlowIsCountedAfterAll<K(!new)>(hs: Hashes<K>, size: nat, policy: Policy, fpOf: K -> uint32, zero: K, rows: nat, a: K, b: K)
    requires rows > 0 && fpOf(a) != 0 && fpOf(b) != 0 && fpOf(b) % rows < fpOf(a) % rows
    requires size > 0
    requires Covered(hs, size, BfUpd(hs, size)(EmptyRadar(size).bf, a, 1), b)
    requires !Covered(hs, size, BfUpd(hs, size)(EmptyRadar(size).bf, b, 1), a)
    ensures var st := AggRun(FrUpd(hs, size), policy, fpOf, System(EmptyCache(rows, zero), EmptyRadar(size)), [a, b]);
            Drain(FrUpd(hs, size), st.sketch, Pairs(st.cache.buckets)).flowc != PlainRun(FrUpd(hs, size), EmptyRadar(size), [a, b]).flowc
  {
    var upd, s := FrUpd(hs, size), EmptyRadar(size);
    TwoPacketsInBucketOrder(upd, policy, fpOf, zero, rows, s, a, b);
    PlainIsDrain(upd, s, [a, b]);
    assert Units([a, b]) == [Entry(a, 1), Entry(b, 1)];
    HiddenFlowDependsOnOrder(hs, size, a, b);
    var p := CellPos(hs, size)(b, 3);
    CellsSumAdmittedFlows(hs, size, s, [Entry(a, 1), Entry(b, 1)], p);
    CellsSumAdmittedFlows(hs, size, s, [Entry(b, 1), Entry(a, 1)], p);
    CountsDiffer(CellPos(hs, size), s.flowc[p], a, b, p);
  }

  lemma CountsDiffer<K>(pos: (K, nat) -> nat, c: uint32, a: K, b: K, p: nat)
    requires p == pos(b, 3) && c == 0
    ensures Plus32(c, Load(pos, 4, Units([a]), p)) != Plus32(c, Load(pos, 4, Units([b, a]), p))
  {
    assert Units([b, a])[1..] == Units([a]) && Units([a])[1..] == [];
    WeightBound(pos, 4, a, p);
    WeightBound(pos, 3, b, p);
    assert Load(pos, 4, Units([a]), p) == Weight(pos, 4, a, 1, p);
    assert Load(pos, 4, Units([b, a]), p) == Weight(pos, 4, b, 1, p) + Weight(pos, 4, a, 1, p);
  }

  lemma {:induction false} WeightBound<K>(pos: (K, nat) -> nat, rows: nat, k: K, p: nat)
    ensures Weight(pos, rows, k, 1, p) <= rows
  {
    if rows > 0 {
      WeightBound(pos, rows - 1, k, p);
    }
  }

  // ---------- The module in place ----------

  /** FlowRadar behind the cache.  The plain module is `IncFr(k, 1)` for every packet. */
  class FlowRadarSimd<K(==)> {
    const simd: Simd<K>
    const hs: Hashes<K>
    const fpOf: K -> uint32
    const size: nat
    const rowbf: array<Bits>
    const flowx: array<Bits>
    const flowc: array<uint32>
    const packetc: array<uint32>

    ghost predicate Valid()
      reads this, simd, simd.Repr
    {
      && simd.Valid() && size > 0
      && rowbf.Length == flowx.Length == flowc.Length == packetc.Length == size
      && rowbf != flowx && flowc != packetc
      && (rowbf as object) !in simd.Repr && (flowx as object) !in simd.Repr
      && (flowc as object) !in simd.Repr && (packetc as object) !in simd.Repr
    }

    ghost function Sketch(): (s: Radar)
      requires Valid()
      reads this, simd, simd.Repr, rowbf, flowx, flowc, packetc
      ensures RadarShape(s, size)
    {
      Radar(rowbf[..], flowx[..], flowc[..], packetc[..])
    }

    ghost function View(): (st: System<K, Radar>)
      requires Valid()
      reads this, simd, simd.Repr, rowbf, flowx, flowc, packetc
      ensures Shape(st.cache)
    {
      System(simd.View(), Sketch())
    }

    constructor (policy: Policy, rows: nat, zero: K, hs: Hashes<K>, fpOf: K -> uint32, size: nat)
      requires rows > 0 && size > 0
      ensures Valid() && fresh(simd.Repr) && fresh(rowbf) && fresh(flowx) && fresh(flowc) && fresh(packetc)
      ensures simd.policy == policy && this.hs == hs && this.fpOf == fpOf && this.size == size
      ensures View() == System(EmptyCache(rows, zero), EmptyRadar(size))
    {
      simd := new Simd<K>(policy, rows, zero);
      this.hs, this.fpOf, this.size := hs, fpOf, size;
      rowbf := new Bits[size](_ => {});
      flowx := new Bits[size](_ => {});
      flowc := new uint32[size](_ => 0);
      packetc := new uint32[size](_ => 0);
      new;
      ghost var e := EmptyRadar(size);
      assert rowbf[..] == e.bf && flowx[..] == e.flowx && flowc[..] == e.flowc && packetc[..] == e.packetc;
      assert simd.View() == EmptyCache(rows, zero);
    }

    /** One Bloom probe: tests the r-th bit, then sets it. */
    method Probe(k: K, r: nat, seen: bool, ghost t0: seq<Bits>) returns (seen': bool)
      requires Valid() && |t0| == size
      requires rowbf[..] == Insert(OrOp(BfBit(hs, size)), BfPos(hs, size), r, t0, k, 0)
      requires seen == CoveredUpTo(hs, size, t0, k, r)
      modifies rowbf
      ensures Valid()
      ensures rowbf[..] == Insert(OrOp(BfBit(hs, size)), BfPos(hs, size), r + 1, t0, k, 0)
      ensures seen' == CoveredUpTo(hs, size, t0, k, r + 1)
    {
      var h := hs.bloom(k, r) % (32 * size);
      ghost var pos, bit := BfPos(hs, size), BfBit(hs, size);
      assert pos(k, r) == h / 32 < size && bit(k, r) == h % 32;
      if seen {
        CoveredInsertIsIdle(hs, size, t0, k, r, 0);
      }
      seen' := seen && h % 32 in rowbf[h / 32];
      rowbf[h / 32] := rowbf[h / 32] + {h % 32};
      assert rowbf[..] == Hit(OrOp(bit), pos, old(rowbf[..]), k, r, 0);
    }

    /** The r-th cell of a new flow. */
    method Admit(k: K, r: nat, ghost x0: seq<Bits>, ghost c0: seq<uint32>)
      requires Valid()
      requires flowx[..] == Insert(XorOp(hs), CellPos(hs, size), r, x0, k, 1)
      requires flowc[..] == Insert(AddOp(), CellPos(hs, size), r, c0, k, 1)
      modifies flowx, flowc
      ensures Valid()
      ensures flowx[..] == Insert(XorOp(hs), CellPos(hs, size), r + 1, x0, k, 1)
      ensures flowc[..] == Insert(AddOp(), CellPos(hs, size), r + 1, c0, k, 1)
    {
      var p := hs.cell(k, r) % size;
      flowx[p] := Xor(flowx[p], hs.code(k));
      flowc[p] := Add32(flowc[p], 1);
      assert flowx[..] == Hit(XorOp(hs), CellPos(hs, size), old(flowx[..]), k, r, 1);
      assert flowc[..] == Hit(AddOp(), CellPos(hs, size), old(flowc[..]), k, r, 1);
    }

    /** The r-th packet counter. */
    method Count(k: K, r: nat, v: uint32, ghost t0: seq<uint32>)
      requires Valid()
      requires packetc[..] == Insert(AddOp(), CellPos(hs, size), r, t0, k, v)
      modifies packetc
      ensures Valid()
      ensures packetc[..] == Insert(AddOp(), CellPos(hs, size), r + 1, t0, k, v)
    {
      var p := hs.cell(k, r) % size;
      packetc[p] := Add32(packetc[p], v);
      assert packetc[..] == Hit(AddOp(), CellPos(hs, size), old(packetc[..]), k, r, v);
    }

    method TestAndSet(k: K) returns (seen: bool)
      requires Valid()
      modifies rowbf
      ensures Valid()
      ensures seen == Covered(hs, size, old(rowbf[..]), k)
      ensures forall v: uint32 :: rowbf[..] == BfUpd(hs, size)(old(rowbf[..]), k, v)
    {
      ghost var t0 := rowbf[..];
      seen := Probe(k, 0, true, t0);
      seen := Probe(k, 1, seen, t0);
      seen := Probe(k, 2, seen, t0);
      seen := Probe(k, 3, seen, t0);
      forall v: uint32
        ensures rowbf[..] == BfUpd(hs, size)(t0, k, v)
      {
        OrIgnoresWeight(BfBit(hs, size), BfPos(hs, size), 4, t0, k, v);
      }
    }

    method AdmitNew(k: K)
      requires Valid()
      modifies flowx, flowc
      ensures Valid()
      ensures flowx[..] == FlowxUpd(hs, size)(old(flowx[..]), k, 1)
      ensures flowc[..] == CountUpd(hs, size)(old(flowc[..]), k, 1)
    {
      ghost var x0, c0 := flowx[..], flowc[..];
      Admit(k, 0, x0, c0);
      Admit(k, 1, x0, c0);
      Admit(k, 2, x0, c0);
      Admit(k, 3, x0, c0);
    }

    method CountPackets(k: K, v: uint32)
      requires Valid()
      modifies packetc
      ensures Valid()
      ensures packetc[..] == CountUpd(hs, size)(old(packetc[..]), k, v)
    {
      ghost var t0 := packetc[..];
      Count(k, 0, v, t0);
      Count(k, 1, v, t0);
      Count(k, 2, v, t0);
      Count(k, 3, v, t0);
    }

    /** v packets of one flow into the sketch. */
    method IncFr(k: K, v: uint32)
      requires Valid()
      modifies rowbf, flowx, flowc, packetc
      ensures Valid()
      ensures Sketch() == Record(hs, size, old(Sketch()), k, v)
    {
      var seen := TestAndSet(k);
      if !seen {
        AdmitNew(k);
      }
      CountPackets(k, v);
    }

    /** One packet through the cache. */
    method Inc(k: K)
      requires Valid()
      modifies simd.Repr, rowbf, flowx, flowc, packetc
      ensures Valid()
      ensures View() == AggStep(FrUpd(hs, size), simd.policy, fpOf, old(View()), k)
    {
      var victim := simd.Aggregate(fpOf(k), k);
      if victim.Some? {
        IncFr(victim.value.id, victim.value.count);
      }
    }
  }

  // ---------- What the cells hold, counted over hashes ----------

  /** How many of the first n hash indices of a flow fall on cell p. */
  function IndexHits<K>(hs: Hashes<K>, size: nat, k: K, p: nat, n: nat): nat
    requires size > 0
  {
    if n == 0 then 0 else IndexHits(hs, size, k, p, n - 1) + if hs.cell(k, n - 1) % size == p then 1 else 0
  }

  /** Pairs of a flow of the sequence and one of its four hash indices that fall on cell p. */
  function PairsOn<K>(hs: Hashes<K>, size: nat, flows: seq<K>, p: nat): nat
    requires size > 0
    decreases |flows|
  {
    if flows == [] then 0 else IndexHits(hs, size, flows[0], p, 4) + PairsOn(hs, size, flows[1..], p)
  }

  /** The same, of flows whose code has bit b. */
  function PairsWithBit<K>(hs: Hashes<K>, size: nat, flows: seq<K>, p: nat, b: nat): nat
    requires size > 0
    decreases |flows|
  {
    if flows == [] then 0
    else (if b in hs.code(flows[0]) then IndexHits(hs, size, flows[0], p, 4) else 0) + PairsWithBit(hs, size, flows[1..], p, b)
  }

  /** Packets of the recordings, once per hash index that falls on cell p. */
  function PacketsOn<K>(hs: Hashes<K>, size: nat, es: seq<Entry<K>>, p: nat): nat
    requires size > 0
    decreases |es|
  {
    if es == [] then 0 else IndexHits(hs, size, es[0].id, p, 4) * es[0].count + PacketsOn(hs, size, es[1..], p)
  }

  lemma {:induction false} WeightIsIndexHits<K>(hs: Hashes<K>, size: nat, k: K, v: nat, p: nat, n: nat)
    requires size > 0
    ensures Weight(CellPos(hs, size), n, k, v, p) == IndexHits(hs, size, k, p, n) * v
  {
    if n > 0 {
      WeightIsIndexHits(hs, size, k, v, p, n - 1);
      var h := IndexHits(hs, size, k, p, n - 1);
      assert (h + 1) * v == h * v + v;
    }
  }

  lemma {:induction false} LoadIsPairsOn<K>(hs: Hashes<K>, size: nat, flows: seq<K>, p: nat)
    requires size > 0
    ensures Load(CellPos(hs, size), 4, Units(flows), p) == PairsOn(hs, size, flows, p)
    decreases |flows|
  {
    if flows != [] {
      assert Units(flows)[1..] == Units(flows[1..]);
      LoadIsPairsOn(hs, size, flows[1..], p);
      WeightIsIndexHits(hs, size, flows[0], 1, p, 4);
    }
  }

  lemma {:induction false} LoadIsPacketsOn<K>(hs: Hashes<K>, size: nat, es: seq<Entry<K>>, p: nat)
    requires size > 0
    ensures Load(CellPos(hs, size), 4, es, p) == PacketsOn(hs, size, es, p)
    decreases |es|
  {
    if es != [] {
      LoadIsPacketsOn(hs, size, es[1..], p);
      WeightIsIndexHits(hs, size, es[0].id, es[0].count, p, 4);
    }
  }

  lemma {:induction false} WeightParity<K>(hs: Hashes<K>, size: nat, x: Bits, k: K, p: nat, b: nat, n: nat)
    requires size > 0
    ensures b in XorWeight(hs, CellPos(hs, size), n, x, k, p) <==>
            (b in x) != (b in hs.code(k) && IndexHits(hs, size, k, p, n) % 2 == 1)
  {
    if n > 0 {
      WeightParity(hs, size, x, k, p, b, n - 1);
    }
  }

  lemma {:induction false} LoadParity<K>(hs: Hashes<K>, size: nat, x: Bits, flows: seq<K>, p: nat, b: nat)
    requires size > 0
    ensures b in XorLoad(hs, CellPos(hs, size), x, flows, p) <==> (b in x) != (PairsWithBit(hs, size, flows, p, b) % 2 == 1)
    decreases |flows|
  {
    if flows != [] {
      WeightParity(hs, size, x, flows[0], p, b, 4);
      LoadParity(hs, size, XorWeight(hs, CellPos(hs, size), 4, x, flows[0], p), flows[1..], p, b);
      OddSum(if b in hs.code(flows[0]) then IndexHits(hs, size, flows[0], p, 4) else 0, PairsWithBit(hs, size, flows[1..], p, b));
    }
  }

  lemma OddSum(m: nat, n: nat)
    ensures (m + n) % 2 == 1 <==> (m % 2 == 1) != (n % 2 == 1)
  {
  }

  /**
   In every reachable state, counted over the hashes themselves: bit b of a cell's flowx has
   changed exactly when an odd number of pairs of an admitted flow with bit b and a hash index
   fall on the cell; flowc has grown by the number of such pairs of all admitted flows; and
   packetc by the packets of all recordings, once per hash index on the cell.
   */
  lemma CellsInHashes<K>(hs: Hashes<K>, size: nat, s: Radar, es: seq<Entry<K>>, p: nat, b: nat)
    requires RadarShape(s, size) && p < size
    ensures var t := Drain(FrUpd(hs, size), s, es);
            var adm := Admitted(hs, size, s, es);
            && RadarShape(t, size)
            && (b in t.flowx[p] <==> (b in s.flowx[p]) != (PairsWithBit(hs, size, adm, p, b) % 2 == 1))
            && t.flowc[p] == Plus32(s.flowc[p], PairsOn(hs, size, adm, p))
            && t.packetc[p] == Plus32(s.packetc[p], PacketsOn(hs, size, es, p))
  {
    var adm := Admitted(hs, size, s, es);
    CellsSumAdmittedFlows(hs, size, s, es, p);
    LoadParity(hs, size, s.flowx[p], adm, p, b);
    LoadIsPairsOn(hs, size, adm, p);
    LoadIsPacketsOn(hs, size, es, p);
  }

  lemma {:induction false} LonePair<K>(hs: Hashes<K>, size: nat, flows: seq<K>, p: nat) returns (f: K)
    requires size > 0 && PairsOn(hs, size, flows, p) == 1
    ensures f in flows && IndexHits(hs, size, f, p, 4) == 1
    ensures forall b :: PairsWithBit(hs, size, flows, p, b) == if b in hs.code(f) then 1 else 0
    decreases |flows|
  {
    if IndexHits(hs, size, flows[0], p, 4) == 0 {
      f := LonePair(hs, size, flows[1..], p);
    } else {
      f := flows[0];
      forall b
        ensures PairsWithBit(hs, size, flows[1..], p, b) == 0
      {
        NoPairs0(hs, size, flows[1..], p, b);
      }
    }
  }

  lemma {:induction false} NoPairs0<K>(hs: Hashes<K>, size: nat, flows: seq<K>, p: nat, b: nat)
    requires size > 0 && PairsOn(hs, size, flows, p) == 0
    ensures PairsWithBit(hs, size, flows, p, b) == 0
    decreases |flows|
  {
    if flows != [] {
      NoPairs0(hs, size, flows[1..], p, b);
    }
  }

  lemma FlowxBit<K>(hs: Hashes<K>, size: nat, s: Radar, es: seq<Entry<K>>, p: nat, b: nat)
    requires RadarShape(s, size) && p < size
    ensures var t := Drain(FrUpd(hs, size), s, es);
            RadarShape(t, size) && (b in t.flowx[p] <==> (b in s.flowx[p]) != (PairsWithBit(hs, size, Admitted(hs, size, s, es), p, b) % 2 == 1))
  {
    CellsInHashes(hs, size, s, es, p, b);
  }

  lemma DecodedBit<K>(hs: Hashes<K>, size: nat, s: Radar, es: seq<Entry<K>>, p: nat, b: nat, set1: bool)
    requires RadarShape(s, size) && p < size && s.flowx[p] == {}
    requires PairsWithBit(hs, size, Admitted(hs, size, s, es), p, b) == if set1 then 1 else 0
    ensures var t := Drain(FrUpd(hs, size), s, es); RadarShape(t, size) && (b in t.flowx[p] <==> set1)
  {
    FlowxBit(hs, size, s, es, p, b);
  }

  /** Decoding: from an empty sketch, a cell on which exactly one pair of an admitted flow and a hash index falls holds that flow's code, and count 1. */
  lemma LoneFlowDecodes<K>(hs: Hashes<K>, size: nat, es: seq<Entry<K>>, p: nat) returns (f: K)
    requires p < size && PairsOn(hs, size, Admitted(hs, size, EmptyRadar(size), es), p) == 1
    ensures f in Admitted(hs, size, EmptyRadar(size), es) && IndexHits(hs, size, f, p, 4) == 1
    ensures var t := Drain(FrUpd(hs, size), EmptyRadar(size), es);
            RadarShape(t, size) && t.flowx[p] == hs.code(f) && t.flowc[p] == 1
  {
    f := LonePair(hs, size, Admitted(hs, size, EmptyRadar(size), es), p);
    assert RadarShape(EmptyRadar(size), size) && EmptyRadar(size).flowx[p] == {};
    CellsInHashes(hs, size, EmptyRadar(size), es, p, 0);
    forall b
      ensures b in Drain(FrUpd(hs, size), EmptyRadar(size), es).flowx[p] <==> b in hs.code(f)
    {
      DecodedBit(hs, size, EmptyRadar(size), es, p, b, b in hs.code(f));
    }
  }
}
