/**
 Sketches that are tables of cells: a flow touches a fixed number of cells, each found by
 its own hash, and combines each with its contribution.  Count-Min, FM, the two-level
 bitmaps, FlowRadar's Bloom filter and its packet counters all have this form.
 */
module TableSketch {
  import opened Machine
  import opened AggCache
  import opened AggEvict

  /** The r-th touch of flow k with weight v.  Positions outside the table are ignored; no caller has any. */
  function Hit<K, C>(op: (C, K, nat, uint32) -> C, pos: (K, nat) -> nat, table: seq<C>, k: K, r: nat, v: uint32): (t: seq<C>)
    ensures |t| == |table|
  {
    var p := pos(k, r);
    if p < |table| then table[p := op(table[p], k, r, v)] else table
  }

  /** All touches 0..rows-1, in order. */
  function Insert<K, C>(op: (C, K, nat, uint32) -> C, pos: (K, nat) -> nat, rows: nat, table: seq<C>, k: K, v: uint32): (t: seq<C>)
    ensures |t| == |table|
  {
    if rows == 0 then table else Hit(op, pos, Insert(op, pos, rows - 1, table, k, v), k, rows - 1, v)
  }

  /** The sketch update as a function value. */
  function Updater<K, C>(op: (C, K, nat, uint32) -> C, pos: (K, nat) -> nat, rows: nat): (seq<C>, K, uint32) -> seq<C> {
    (t: seq<C>, k: K, v: uint32) => Insert(op, pos, rows, t, k, v)
  }

  ghost predicate CellSwaps<K, C>(op: (C, K, nat, uint32) -> C, c: C, k: K, r: nat, v: uint32, l: K, q: nat, w: uint32) {
    op(op(c, k, r, v), l, q, w) == op(op(c, l, q, w), k, r, v)
  }

  ghost predicate CellMerges<K, C>(op: (C, K, nat, uint32) -> C, c: C, k: K, r: nat, v: uint32, w: uint32) {
    op(op(c, k, r, v), k, r, w) == op(c, k, r, Add32(v, w))
  }

  ghost predicate CellCommutes<K(!new), C(!new)>(op: (C, K, nat, uint32) -> C) {
    forall c, k, r, v, l, q, w :: CellSwaps(op, c, k, r, v, l, q, w)
  }

  /** Contributions to one cell commute and add up. */
  ghost predicate CellLawful<K(!new), C(!new)>(op: (C, K, nat, uint32) -> C) {
    && CellCommutes(op)
    && (forall c, k, r, v, w :: CellMerges(op, c, k, r, v, w))
  }

  lemma HitSwaps<K(!new), C(!new)>(op: (C, K, nat, uint32) -> C, pos: (K, nat) -> nat, t: seq<C>, k: K, r: nat, v: uint32, l: K, q: nat, w: uint32)
    requires CellCommutes(op)
    ensures Hit(op, pos, Hit(op, pos, t, k, r, v), l, q, w) == Hit(op, pos, Hit(op, pos, t, l, q, w), k, r, v)
  {
    if pos(k, r) == pos(l, q) < |t| {
      assert CellSwaps(op, t[pos(k, r)], k, r, v, l, q, w);
    }
  }

  lemma {:induction false} HitPastInsert<K(!new), C(!new)>(op: (C, K, nat, uint32) -> C, pos: (K, nat) -> nat, rows: nat, t: seq<C>, k: K, v: uint32, l: K, q: nat, w: uint32)
    requires CellCommutes(op)
    ensures Hit(op, pos, Insert(op, pos, rows, t, k, v), l, q, w) == Insert(op, pos, rows, Hit(op, pos, t, l, q, w), k, v)
  {
    if rows > 0 {
      HitSwaps(op, pos, Insert(op, pos, rows - 1, t, k, v), k, rows - 1, v, l, q, w);
      HitPastInsert(op, pos, rows - 1, t, k, v, l, q, w);
    }
  }

  lemma {:induction false} InsertSwaps<K(!new), C(!new)>(op: (C, K, nat, uint32) -> C, pos: (K, nat) -> nat, rows: nat, rows': nat, t: seq<C>, k: K, v: uint32, l: K, w: uint32)
    requires CellCommutes(op)
    ensures Insert(op, pos, rows, Insert(op, pos, rows', t, k, v), l, w) == Insert(op, pos, rows', Insert(op, pos, rows, t, l, w), k, v)
  {
    if rows > 0 {
      InsertSwaps(op, pos, rows - 1, rows', t, k, v, l, w);
      HitPastInsert(op, pos, rows', Insert(op, pos, rows - 1, t, l, w), k, v, l, rows - 1, w);
    }
  }

  lemma {:induction false} InsertMerges<K(!new), C(!new)>(op: (C, K, nat, uint32) -> C, pos: (K, nat) -> nat, rows: nat, t: seq<C>, k: K, v: uint32, w: uint32)
    requires CellLawful(op)
    ensures Insert(op, pos, rows, Insert(op, pos, rows, t, k, v), k, w) == Insert(op, pos, rows, t, k, Add32(v, w))
  {
    if rows > 0 {
      var r := rows - 1;
      HitPastInsert(op, pos, r, Insert(op, pos, r, t, k, v), k, w, k, r, v);
      InsertMerges(op, pos, r, t, k, v, w);
      var u := Insert(op, pos, r, t, k, Add32(v, w));
      if pos(k, r) < |u| {
        assert CellMerges(op, u[pos(k, r)], k, r, v, w);
      }
    }
  }

  /** Any table sketch whose cell contributions commute and add up may be put behind the Agg-Evict cache. */
  lemma TableSketchIsLawful<K(!new), C(!new)>(op: (C, K, nat, uint32) -> C, pos: (K, nat) -> nat, rows: nat)
    requires CellLawful(op)
    ensures Lawful(Updater(op, pos, rows), Always(), Always())
  {
    var upd := Updater(op, pos, rows);
    forall s, k, v, l, w
      ensures Swaps(upd, s, k, v, l, w)
    {
      InsertSwaps(op, pos, rows, rows, s, k, v, l, w);
    }
    forall s, k, v, w
      ensures Merges(upd, s, k, v, w)
    {
      InsertMerges(op, pos, rows, s, k, v, w);
    }
  }

  // ---------- Bit words ----------

  /** A word that is only ever OR-ed into, as the set of its one bits. */
  type Bits = set<nat>

  /** OR-ing one bit into a word; the weight is ignored. */
  function OrOp<K>(bit: (K, nat) -> nat): (Bits, K, nat, uint32) -> Bits {
    (c: Bits, k: K, r: nat, _: uint32) => c + {bit(k, r)}
  }

  lemma OrOpIsLawful<K(!new)>(bit: (K, nat) -> nat)
    ensures CellLawful(OrOp(bit))
  {
    forall c: Bits, k: K, r: nat, v: uint32, l: K, q: nat, w: uint32
      ensures CellSwaps(OrOp(bit), c, k, r, v, l, q, w)
    {
      assert c + {bit(k, r)} + {bit(l, q)} == c + {bit(l, q)} + {bit(k, r)};
    }
    forall c: Bits, k: K, r: nat, v: uint32, w: uint32
      ensures CellMerges(OrOp(bit), c, k, r, v, w)
    {
    }
  }

  lemma {:induction false} OrIgnoresWeight<K>(bit: (K, nat) -> nat, pos: (K, nat) -> nat, rows: nat, t: seq<Bits>, k: K, v: uint32)
    ensures Insert(OrOp(bit), pos, rows, t, k, v) == Insert(OrOp(bit), pos, rows, t, k, 0)
  {
    if rows > 0 {
      OrIgnoresWeight(bit, pos, rows - 1, t, k, v);
    }
  }

  // ---------- Counters in closed form ----------

  /** A counter plus a weight, modulo 2^32. */
  function AddOp<K>(): (uint32, K, nat, uint32) -> uint32 {
    (c: uint32, _: K, _: nat, v: uint32) => Add32(c, v)
  }

  lemma AddOpIsLawful<K(!new)>()
    ensures CellLawful(AddOp<K>())
  {
    forall c: uint32, k: K, r: nat, v: uint32, l: K, q: nat, w: uint32
      ensures CellSwaps(AddOp(), c, k, r, v, l, q, w)
    {
      Add32Commutes(c, v, w);
    }
    forall c: uint32, k: K, r: nat, v: uint32, w: uint32
      ensures CellMerges(AddOp(), c, k, r, v, w)
    {
      Add32Commutes(c, v, w);
    }
  }

  /** The weight that v packets of flow k put on cell p: v for each touch that lands there. */
  function Weight<K>(pos: (K, nat) -> nat, rows: nat, k: K, v: nat, p: nat): nat {
    if rows == 0 then 0 else Weight(pos, rows - 1, k, v, p) + if pos(k, rows - 1) == p then v else 0
  }

  /** The total weight that pairs put on cell p. */
  function Load<K>(pos: (K, nat) -> nat, rows: nat, es: seq<Entry<K>>, p: nat): nat
    decreases |es|
  {
    if es == [] then 0
    else Weight(pos, rows, es[0].id, es[0].count, p) + Load(pos, rows, es[1..], p)
  }

  lemma {:induction false} InsertCounter<K>(pos: (K, nat) -> nat, rows: nat, t: seq<uint32>, k: K, v: uint32, p: nat)
    requires p < |t|
    ensures Insert(AddOp(), pos, rows, t, k, v)[p] == Plus32(t[p], Weight(pos, rows, k, v, p))
  {
    if rows > 0 {
      InsertCounter(pos, rows - 1, t, k, v, p);
      AddModAssoc(t[p], Weight(pos, rows - 1, k, v, p), v);
    }
  }

  /** Draining pairs into counters adds to each exactly the weight that falls on it, modulo 2^32. */
  lemma {:induction false} DrainCounter<K>(pos: (K, nat) -> nat, rows: nat, t: seq<uint32>, es: seq<Entry<K>>, p: nat)
    requires p < |t|
    ensures |Drain(Updater(AddOp(), pos, rows), t, es)| == |t|
    ensures Drain(Updater(AddOp(), pos, rows), t, es)[p] == Plus32(t[p], Load(pos, rows, es, p))
    decreases |es|
  {
    if es != [] {
      var t' := Insert(AddOp(), pos, rows, t, es[0].id, es[0].count);
      InsertCounter(pos, rows, t, es[0].id, es[0].count, p);
      DrainCounter(pos, rows, t', es[1..], p);
      AddModAssoc(t[p], Weight(pos, rows, es[0].id, es[0].count, p), Load(pos, rows, es[1..], p));
    }
  }

  /** A stream as pairs of weight one. */
  function Units<K>(stream: seq<K>): seq<Entry<K>> {
    seq(|stream|, i requires 0 <= i < |stream| => Entry(stream[i], 1))
  }

  /** Processing a stream is draining its packets one by one. */
  lemma {:induction false} PlainIsDrain<K, S>(upd: (S, K, uint32) -> S, s: S, stream: seq<K>)
    ensures PlainRun(upd, s, stream) == Drain(upd, s, Units(stream))
    decreases |stream|
  {
    if stream != [] {
      var n := |stream| - 1;
      PlainIsDrain(upd, s, stream[..n]);
      assert Units(stream) == Units(stream[..n]) + [Entry(stream[n], 1)];
      DrainConcat(upd, s, Units(stream[..n]), [Entry(stream[n], 1)]);
      var t := Drain(upd, s, Units(stream[..n]));
      assert Drain(upd, upd(t, stream[n], 1), []) == upd(t, stream[n], 1);
    }
  }

  lemma {:induction false} NoWeight<K>(pos: (K, nat) -> nat, rows: nat, k: K, p: nat)
    ensures Weight(pos, rows, k, 0, p) == 0
  {
    if rows > 0 {
      NoWeight(pos, rows - 1, k, p);
    }
  }

  /** Weight 0 changes no counter. */
  lemma ZeroInsertIsNothing<K>(pos: (K, nat) -> nat, rows: nat, t: seq<uint32>, k: K)
    ensures Insert(AddOp(), pos, rows, t, k, 0) == t
  {
    forall p | 0 <= p < |t|
      ensures Insert(AddOp(), pos, rows, t, k, 0)[p] == t[p]
    {
      InsertCounter(pos, rows, t, k, 0, p);
      NoWeight(pos, rows, k, p);
      Plus32Small(t[p], 0);
    }
  }

  // ---------- Bit tables in closed form ----------

  /** Does some touch of flow k fall on bit b of cell p? */
  predicate SetsBit<K>(bit: (K, nat) -> nat, pos: (K, nat) -> nat, rows: nat, k: K, p: nat, b: nat) {
    exists r :: 0 <= r < rows && pos(k, r) == p && bit(k, r) == b
  }

  lemma {:induction false} OrInsertBits<K>(bit: (K, nat) -> nat, pos: (K, nat) -> nat, rows: nat, t: seq<Bits>, k: K, v: uint32, p: nat, b: nat)
    requires p < |t|
    ensures b in Insert(OrOp(bit), pos, rows, t, k, v)[p] <==> b in t[p] || SetsBit(bit, pos, rows, k, p, b)
  {
    if rows > 0 {
      OrInsertBits(bit, pos, rows - 1, t, k, v, p, b);
      if pos(k, rows - 1) == p && bit(k, rows - 1) == b {
        assert SetsBit(bit, pos, rows, k, p, b);
      }
    }
  }

  /** After every stream a bit is set exactly when it was before or some packet's flow sets it. */
  lemma {:induction false} PlainOrBits<K>(bit: (K, nat) -> nat, pos: (K, nat) -> nat, rows: nat, t: seq<Bits>, stream: seq<K>, p: nat, b: nat)
    requires p < |t|
    ensures |PlainRun(Updater(OrOp(bit), pos, rows), t, stream)| == |t|
    ensures b in PlainRun(Updater(OrOp(bit), pos, rows), t, stream)[p] <==>
            b in t[p] || exists i :: 0 <= i < |stream| && SetsBit(bit, pos, rows, stream[i], p, b)
    decreases |stream|
  {
    if stream != [] {
      var n := |stream| - 1;
      PlainOrBits(bit, pos, rows, t, stream[..n], p, b);
      OrInsertBits(bit, pos, rows, PlainRun(Updater(OrOp(bit), pos, rows), t, stream[..n]), stream[n], 1, p, b);
      assert forall i :: 0 <= i < n ==> stream[..n][i] == stream[i];
    }
  }

  // ---------- Rows in a flat table ----------

  lemma RowBefore(size: nat, r: nat, c: nat, q: nat)
    requires c < size && r < q
    ensures r * size + c < q * size
  {
    var d := q - r - 1;
    assert q * size == r * size + size + d * size;
  }

  /** Cell c of row r determines the row and the column. */
  lemma RowAndColumn(size: nat, r: nat, c: nat, q: nat, d: nat)
    requires c < size && d < size
    ensures r * size + c == q * size + d <==> r == q && c == d
  {
    if r < q {
      RowBefore(size, r, c, q);
    } else if q < r {
      RowBefore(size, q, d, r);
    }
  }
}
