/**
 The heavy-change detector: two sketches used in turn, one per epoch.  Each counts the
 packets of its epoch, remembers the counters of the epoch before, and marks the keys
 whose counter moved by more than a threshold.
 */
module RevSketch {
  import opened Machine
  import opened LinearMap

  const MARK: uint32 := 0x12345688

  const CHANGE_LIMIT := 1000

  /** The difference of two counters read as signed integers, wrapped to 32 bits, and its absolute value, wrapped again. */
  function Delta(now: uint32, last: uint32): int {
    Abs32(Int32(AsInt(now) - AsInt(last)))
  }

  function Abs32(d: int): int {
    if d >= 0 then d else Int32(-d)
  }

  /** Is the difference above the limit? */
  predicate Changed(now: uint32, last: uint32) {
    Delta(now, last) > CHANGE_LIMIT
  }

  lemma IntDifference(now: uint32, last: uint32)
    ensures Int32(AsInt(now) - AsInt(last)) == AsInt((now - last) % WORD)
  {
    var q := (if now < 0x8000_0000 then 0 else -1) - (if last < 0x8000_0000 then 0 else -1);
    assert AsInt(now) - AsInt(last) == q * WORD + (now - last);
    ModShift(now - last, q);
  }

  lemma AbsOfWord(w: uint32)
    ensures Abs32(AsInt(w)) > CHANGE_LIMIT <==> CHANGE_LIMIT < w < WORD - CHANGE_LIMIT && w != 0x8000_0000
  {
    if w >= 0x8000_0000 {
      assert -AsInt(w) == WORD - w;
      Int32Small(WORD - w);
    }
  }

  lemma Int32Small(x: nat)
    requires x <= 0x8000_0000
    ensures Int32(x) == if x < 0x8000_0000 then x else -0x8000_0000
  {
    Plus32Small(0, x);
    assert x % WORD == Plus32(0, x);
  }

  /** Whatever the counters, a change is a distance modulo 2^32 of more than the limit, either way; only the distance 2^31 goes unnoticed. */
  lemma ChangedIsDistance(now: uint32, last: uint32)
    ensures var d := (now - last) % WORD;
            Changed(now, last) <==> 1000 < d < WORD - 1000 && d != 0x8000_0000
  {
    IntDifference(now, last);
    AbsOfWord((now - last) % WORD);
  }

  // ---------- The counters of one sketch ----------

  datatype Rows = Rows(now: seq<uint32>, last: seq<uint32>)

  ghost predicate Fits(r: Rows, col: Key -> nat) {
    |r.now| == |r.last| && forall k :: col(k) < |r.now|
  }

  ghost function Counted(r: Rows, col: Key -> nat, k: Key): (r': Rows)
    requires Fits(r, col)
    ensures Fits(r', col)
  {
    r.(now := r.now[col(k) := Add32(r.now[col(k)], 1)])
  }

  ghost function CountedAll(r: Rows, col: Key -> nat, epoch: seq<Key>): (r': Rows)
    requires Fits(r, col)
    ensures Fits(r', col) && |r'.now| == |r.now| && r'.last == r.last
    decreases |epoch|
  {
    if epoch == [] then r
    else Counted(CountedAll(r, col, epoch[..|epoch| - 1]), col, epoch[|epoch| - 1])
  }

  /** Number of packets of a stream that fall into column c. */
  function Hits(col: Key -> nat, epoch: seq<Key>, c: nat): (n: nat)
    ensures n <= |epoch|
  {
    if epoch == [] then 0
    else Hits(col, epoch[..|epoch| - 1], c) + if col(epoch[|epoch| - 1]) == c then 1 else 0
  }

  lemma {:induction false} CountedAllIsHits(r: Rows, col: Key -> nat, epoch: seq<Key>, c: nat)
    requires Fits(r, col) && c < |r.now|
    ensures CountedAll(r, col, epoch).now[c] == Plus32(r.now[c], Hits(col, epoch, c))
    decreases |epoch|
  {
    if epoch != [] {
      var n := |epoch| - 1;
      CountedAllIsHits(r, col, epoch[..n], c);
      AddModAssoc(r.now[c], Hits(col, epoch[..n], c), 1);
    }
  }

  // ---------- The marked keys of one sketch ----------

  /** After a packet is counted its key is marked, or its mark, if it has an entry, is overwritten. */
  ghost function MarkStep(r: Rows, col: Key -> nat, m: map<Key, uint32>, k: Key): map<Key, uint32>
    requires Fits(r, col)
  {
    if Changed(r.now[col(k)], r.last[col(k)]) then m[k := MARK]
    else if k in m then m[k := TOMBSTONE]
    else m
  }

  ghost function Marks(r: Rows, col: Key -> nat, m: map<Key, uint32>, epoch: seq<Key>): map<Key, uint32>
    requires Fits(r, col)
    decreases |epoch|
  {
    if epoch == [] then m
    else MarkStep(CountedAll(r, col, epoch), col, Marks(r, col, m, epoch[..|epoch| - 1]), epoch[|epoch| - 1])
  }

  predicate Marked(m: map<Key, uint32>, k: Key) {
    k in m && m[k] == MARK
  }

  /** Packet i is the latest packet of key k. */
  ghost predicate Latest(epoch: seq<Key>, k: Key, i: nat) {
    i < |epoch| && epoch[i] == k && forall j :: i < j < |epoch| ==> epoch[j] != k
  }

  lemma MarkedByLast(r: Rows, col: Key -> nat, m: map<Key, uint32>, epoch: seq<Key>)
    requires Fits(r, col) && epoch != []
    ensures var k := epoch[|epoch| - 1];
            Marked(Marks(r, col, m, epoch), k) <==> Changed(Plus32(r.now[col(k)], Hits(col, epoch, col(k))), r.last[col(k)])
  {
    CountedAllIsHits(r, col, epoch, col(epoch[|epoch| - 1]));
  }

  lemma MarkedUnlessLast(r: Rows, col: Key -> nat, m: map<Key, uint32>, epoch: seq<Key>, k: Key)
    requires Fits(r, col) && epoch != [] && epoch[|epoch| - 1] != k
    ensures Marked(Marks(r, col, m, epoch), k) <==> Marked(Marks(r, col, m, epoch[..|epoch| - 1]), k)
  {
  }

  lemma {:induction false} MarkedByLatest(r: Rows, col: Key -> nat, m: map<Key, uint32>, epoch: seq<Key>, k: Key, i: nat)
    requires Fits(r, col) && Latest(epoch, k, i)
    ensures Marked(Marks(r, col, m, epoch), k)
       <==> Changed(Plus32(r.now[col(k)], Hits(col, epoch[..i + 1], col(k))), r.last[col(k)])
    decreases |epoch|
  {
    var n := |epoch| - 1;
    if i == n {
      assert epoch[..i + 1] == epoch;
      MarkedByLast(r, col, m, epoch);
    } else {
      MarkedUnlessLast(r, col, m, epoch, k);
      MarkedByLatest(r, col, m, epoch[..n], k, i);
      assert epoch[..n][..i + 1] == epoch[..i + 1];
    }
  }

  lemma {:induction false} MarkedByNone(r: Rows, col: Key -> nat, m: map<Key, uint32>, epoch: seq<Key>, k: Key)
    requires Fits(r, col) && k !in epoch
    ensures Marked(Marks(r, col, m, epoch), k) <==> Marked(m, k)
    decreases |epoch|
  {
    if epoch != [] {
      var n := |epoch| - 1;
      assert epoch[n] in epoch;
      MarkedByNone(r, col, m, epoch[..n], k);
    }
  }

  lemma {:induction false} LatestExists(epoch: seq<Key>, k: Key) returns (i: nat)
    requires k in epoch
    ensures Latest(epoch, k, i)
    decreases |epoch|
  {
    var n := |epoch| - 1;
    if epoch[n] == k {
      i := n;
    } else {
      assert epoch == epoch[..n] + [epoch[n]];
      i := LatestExists(epoch[..n], k);
    }
  }

  // ---------- Whole runs ----------

  /** The sketch in use and the other one. */
  datatype Pairing = Pairing(active: Rows, idle: Rows)

  function ZeroRow(size: nat): (z: seq<uint32>)
    ensures |z| == size
  {
    seq(size, _ => 0)
  }

  function ZeroRows(size: nat): Rows {
    Rows(ZeroRow(size), ZeroRow(size))
  }

  /** The epoch ends: counters are handed to the idle sketch, which becomes active; the old one is cleared. */
  function HandedOver(p: Pairing): Pairing {
    Pairing(p.idle.(last := p.active.now), ZeroRows(|p.active.now|))
  }

  ghost function AfterEpochs(size: nat, col: Key -> nat, epochs: seq<seq<Key>>): (p: Pairing)
    requires forall k :: col(k) < size
    ensures Fits(p.active, col) && Fits(p.idle, col) && |p.active.now| == |p.idle.now| == size
    decreases |epochs|
  {
    if epochs == [] then Pairing(ZeroRows(size), ZeroRows(size))
    else
      var p := AfterEpochs(size, col, epochs[..|epochs| - 1]);
      HandedOver(p.(active := CountedAll(p.active, col, epochs[|epochs| - 1])))
  }

  function PreviousEpoch(epochs: seq<seq<Key>>): seq<Key> {
    if epochs == [] then [] else epochs[|epochs| - 1]
  }

  /** At the start of every epoch both counting rows are clear and `last` counts exactly the epoch before. */
  lemma {:induction false} EpochStartsClear(size: nat, col: Key -> nat, epochs: seq<seq<Key>>)
    requires forall k :: col(k) < size
    ensures var p := AfterEpochs(size, col, epochs);
            && p.active.now == ZeroRow(size) && p.idle == ZeroRows(size)
            && forall c :: 0 <= c < size ==> p.active.last[c] == Plus32(0, Hits(col, PreviousEpoch(epochs), c))
    decreases |epochs|
  {
    if epochs != [] {
      var n := |epochs| - 1;
      EpochStartsClear(size, col, epochs[..n]);
      forall c | 0 <= c < size
        ensures AfterEpochs(size, col, epochs).active.last[c] == Plus32(0, Hits(col, epochs[n], c))
      {
        CountedAllIsHits(AfterEpochs(size, col, epochs[..n]).active, col, epochs[n], c);
      }
    }
  }

  /** In every run, at every packet: `now` counts exactly the current epoch, `last` exactly the previous one. */
  lemma RowsCountTheirEpochs(size: nat, col: Key -> nat, epochs: seq<seq<Key>>, cur: seq<Key>, c: nat)
    requires (forall k :: col(k) < size) && c < size
    ensures var r := CountedAll(AfterEpochs(size, col, epochs).active, col, cur);
            && r.now[c] == Plus32(0, Hits(col, cur, c))
            && r.last[c] == Plus32(0, Hits(col, PreviousEpoch(epochs), c))
  {
    EpochStartsClear(size, col, epochs);
    CountedAllIsHits(AfterEpochs(size, col, epochs).active, col, cur, c);
  }

  ghost predicate HeavyChange(col: Key -> nat, prev: seq<Key>, cur: seq<Key>, k: Key, i: nat)
    requires i < |cur|
  {
    var now, last := Hits(col, cur[..i + 1], col(k)), Hits(col, prev, col(k));
    now > last + 1000 || last > now + 1000
  }

  /** Below 2^31 the signed reading of two counters compares true counts. */
  lemma ChangedOnCounts(now: nat, last: nat)
    requires now < 0x8000_0000 && last < 0x8000_0000
    ensures Changed(Plus32(0, now), Plus32(0, last)) <==> now > last + 1000 || last > now + 1000
  {
    Plus32Small(0, now);
    Plus32Small(0, last);
    ChangedIsDistance(now, last);
  }

  lemma LatestDecides(size: nat, col: Key -> nat, epochs: seq<seq<Key>>, left: map<Key, uint32>, cur: seq<Key>, k: Key, i: nat)
    requires (forall k :: col(k) < size) && |cur| < 0x8000_0000 && |PreviousEpoch(epochs)| < 0x8000_0000 && Latest(cur, k, i)
    ensures Marked(Marks(AfterEpochs(size, col, epochs).active, col, left, cur), k)
       <==> HeavyChange(col, PreviousEpoch(epochs), cur, k, i)
  {
    var now, last := Hits(col, cur[..i + 1], col(k)), Hits(col, PreviousEpoch(epochs), col(k));
    EpochStartsClear(size, col, epochs);
    MarkedByLatest(AfterEpochs(size, col, epochs).active, col, left, cur, k, i);
    ChangedOnCounts(now, last);
  }

  /**
   The report of an epoch, in every run with epochs below 2^31 packets and from any entries
   left in the table: a key seen in the epoch is marked exactly when, at its latest packet,
   its column had moved by more than the limit since the epoch before; a key not seen is
   marked exactly when an old mark was left over.
   */
  lemma ReportIsHeavyChange(size: nat, col: Key -> nat, epochs: seq<seq<Key>>, left: map<Key, uint32>, cur: seq<Key>, k: Key)
    requires (forall k :: col(k) < size) && |cur| < 0x8000_0000 && |PreviousEpoch(epochs)| < 0x8000_0000
    ensures var report := Marks(AfterEpochs(size, col, epochs).active, col, left, cur);
            && (k !in cur ==> (Marked(report, k) <==> Marked(left, k)))
            && (forall i :: Latest(cur, k, i) ==> (Marked(report, k) <==> HeavyChange(col, PreviousEpoch(epochs), cur, k, i)))
  {
    if k !in cur {
      MarkedByNone(AfterEpochs(size, col, epochs).active, col, left, cur, k);
    }
    forall i | Latest(cur, k, i)
      ensures Marked(Marks(AfterEpochs(size, col, epochs).active, col, left, cur), k) <==> HeavyChange(col, PreviousEpoch(epochs), cur, k, i)
    {
      LatestDecides(size, col, epochs, left, cur, k, i);
    }
  }

  /** From an empty table: a key is marked exactly when it has a latest packet, and a heavy change there. */
  lemma CleanReportIsHeavyChange(size: nat, col: Key -> nat, epochs: seq<seq<Key>>, cur: seq<Key>, k: Key)
    requires (forall k :: col(k) < size) && |cur| < 0x8000_0000 && |PreviousEpoch(epochs)| < 0x8000_0000
    ensures Marked(Marks(AfterEpochs(size, col, epochs).active, col, map[], cur), k)
       <==> exists i :: Latest(cur, k, i) && HeavyChange(col, PreviousEpoch(epochs), cur, k, i)
  {
    ReportIsHeavyChange(size, col, epochs, map[], cur, k);
    if k in cur {
      var i := LatestExists(cur, k);
    }
  }

  /** Some of the first n rows holds the key, marked. */
  ghost predicate PrintedFrom(keys: seq<Key>, vals: seq<uint32>, n: nat, k: Key)
    requires n <= |keys| == |vals|
  {
    exists i :: 0 <= i < n && keys[i] == k && !Empty(k) && vals[i] == MARK
  }

  /** What the report loop finds before the last row is what is marked, less the key in the last row. */
  lemma PrintedIsMarked(keys: seq<Key>, vals: seq<uint32>, k: Key)
    requires 0 < |keys| == |vals| && Distinct(keys)
    ensures PrintedFrom(keys, vals, |keys| - 1, k) <==> !Empty(k) && Marked(MapOf(keys, vals), k) && k != keys[|keys| - 1]
  {
    AllDiffer(keys);
    var m := MapOf(keys, vals);
    if PrintedFrom(keys, vals, |keys| - 1, k) {
      var i :| 0 <= i < |keys| - 1 && keys[i] == k && !Empty(k) && vals[i] == MARK;
      MapAt(keys, vals, i);
    }
    if !Empty(k) && Marked(m, k) {
      var i :| 0 <= i < |keys| && !Empty(keys[i]) && keys[i] == k;
      MapAt(keys, vals, i);
    }
  }

  // ---------- In place ----------

  class RevSketch {
    const size: nat
    const col: Key -> nat
    const row1: array<uint32>
    const row1_last: array<uint32>
    const ht: HashMapLinear

    ghost function Repr(): set<object> {
      {row1 as object, row1_last, ht.keys, ht.vals}
    }

    ghost predicate Valid() {
      && row1 != row1_last && row1 != ht.vals && row1_last != ht.vals
      && row1.Length == row1_last.Length == size && ht.Shape()
      && forall k :: col(k) < size
    }

    ghost function View(): Rows
      reads row1, row1_last
    {
      Rows(row1[..], row1_last[..])
    }

    constructor (size: nat, col: Key -> nat, entries: nat, hash: Key -> uint32, zero: Key)
      requires (forall k :: col(k) < size) && entries > 0 && Empty(zero)
      ensures Valid() && fresh(Repr()) && fresh(ht) && this.size == size && this.col == col
      ensures View() == ZeroRows(size) && ht.Valid() && ht.M() == map[]
    {
      this.size, this.col := size, col;
      row1 := new uint32[size](_ => 0);
      row1_last := new uint32[size](_ => 0);
      ht := new HashMapLinear(entries, hash, zero);
    }

    method InsertHash(key: Key, value: uint32)
      requires Valid() && ht.Valid() && !Empty(key) && HasRoomFor(ht.keys[..], key)
      modifies ht.keys, ht.vals
      ensures ht.Valid() && ht.M() == old(ht.M())[key := value]
    {
      var p := ht.GetCopyKey(key);
      ht.Store(p, value);
    }

    /** Overwrites the value of a stored key; other keys are not entered. */
    method DeleteHash(key: Key)
      requires Valid() && ht.Valid() && !Empty(key) && HasRoomFor(ht.keys[..], key)
      modifies ht.vals
      ensures ht.Valid() && ht.M() == if key in old(ht.M()) then old(ht.M())[key := TOMBSTONE] else old(ht.M())
    {
      var p := ht.GetNoCopyKey(key);
      if ht.keys[p] == key {
        ht.Store(p, TOMBSTONE);
      }
    }

    /** One packet. */
    method Inc(key: Key)
      requires Valid() && ht.Valid() && !Empty(key) && HasRoomFor(ht.keys[..], key)
      modifies row1, ht.keys, ht.vals
      ensures ht.Valid() && View() == Counted(old(View()), col, key)
      ensures ht.M() == MarkStep(View(), col, old(ht.M()), key)
    {
      var h1 := col(key);
      row1[h1] := Add32(row1[h1], 1);
      assert View() == Counted(old(View()), col, key);
      var delta := Difference(h1);
      if delta > CHANGE_LIMIT {
        InsertHash(key, MARK);
      } else {
        DeleteHash(key);
      }
    }

    method Difference(h1: nat) returns (delta: int)
      requires h1 < row1.Length && h1 < row1_last.Length
      ensures delta == Delta(row1[h1], row1_last[h1])
    {
      delta := Int32(AsInt(row1[h1]) - AsInt(row1_last[h1]));
      delta := if delta >= 0 then delta else Int32(-delta);
    }

    /** The report: the marked keys of all rows but the last, in table order. */
    method Report() returns (printed: seq<Key>)
      requires Valid() && ht.Valid()
      ensures forall k :: k in printed <==> !Empty(k) && Marked(ht.M(), k) && k != ht.keys[ht.rows - 1]
    {
      printed := [];
      ghost var ks, vs := ht.keys[..], ht.vals[..];
      for i := 0 to ht.rows - 1
        invariant forall k :: k in printed <==> PrintedFrom(ks, vs, i, k)
      {
        if !Empty(ht.keys[i]) && ht.vals[i] == MARK {
          printed := printed + [ht.keys[i]];
        }
      }
      forall k
        ensures k in printed <==> !Empty(k) && Marked(ht.M(), k) && k != ht.keys[ht.rows - 1]
      {
        PrintedIsMarked(ks, vs, k);
      }
    }

    /** Clears the table of marks, which spares its last row, and both counter rows. */
    method Reset(zero: Key)
      requires Valid() && Empty(zero)
      modifies row1, row1_last, ht.keys, ht.vals
      ensures View() == ZeroRows(size)
      ensures old(ht.Valid()) ==> (ht.Valid() <==>
        old(Empty(ht.keys[ht.rows - 1])) || Home(ht.hash, old(ht.keys[ht.rows - 1]), ht.rows) == ht.rows - 1)
      ensures old(ht.Valid() && Empty(ht.keys[ht.rows - 1])) ==> ht.Valid() && ht.M() == map[]
    {
      assert old(ht.Valid()) ==> old(ZeroIfFree(ht.keys[..], ht.vals[..], ht.rows - 1));
      ht.Reset(zero);
      ghost var ks, vs := ht.keys[..], ht.vals[..];
      for i := 0 to size
        invariant forall j :: 0 <= j < i ==> row1[j] == 0 && row1_last[j] == 0
        invariant ht.keys[..] == ks && ht.vals[..] == vs
      {
        row1[i], row1_last[i] := 0, 0;
      }
      assert row1[..] == ZeroRow(size) && row1_last[..] == ZeroRow(size);
    }
  }

  class HeavyChangeRevSketch {
    const ptr1: RevSketch
    const ptr2: RevSketch
    var current: RevSketch

    ghost predicate Valid()
      reads this
    {
      && ptr1 != ptr2 && ptr1.Valid() && ptr2.Valid() && ptr1.Repr() !! ptr2.Repr()
      && ptr1.size == ptr2.size && ptr1.col == ptr2.col
      && (current == ptr1 || current == ptr2)
    }

    ghost function Idle(): RevSketch
      reads this
    {
      if current == ptr1 then ptr2 else ptr1
    }

    ghost function View(): Pairing
      reads this, ptr1.row1, ptr1.row1_last, ptr2.row1, ptr2.row1_last
    {
      if current == ptr1 then Pairing(ptr1.View(), ptr2.View()) else Pairing(ptr2.View(), ptr1.View())
    }

    constructor (size: nat, col: Key -> nat, entries: nat, hash: Key -> uint32, zero: Key)
      requires (forall k :: col(k) < size) && entries > 0 && Empty(zero)
      ensures Valid() && View() == AfterEpochs(size, col, [])
      ensures ptr1.ht.Valid() && ptr2.ht.Valid() && ptr1.ht.M() == ptr2.ht.M() == map[]
    {
      ptr1 := new RevSketch(size, col, entries, hash, zero);
      ptr2 := new RevSketch(size, col, entries, hash, zero);
      current := ptr1;
    }

    /** One packet of the current epoch. */
    method Execute(key: Key)
      requires Valid() && !Empty(key) && current.ht.Valid() && HasRoomFor(current.ht.keys[..], key)
      modifies current.row1, current.ht.keys, current.ht.vals
      ensures Valid() && View() == old(View()).(active := Counted(old(View()).active, current.col, key))
      ensures current.ht.Valid() && current.ht.M() == MarkStep(View().active, current.col, old(current.ht.M()), key)
      ensures Idle().ht.keys[..] == old(Idle().ht.keys[..]) && Idle().ht.vals[..] == old(Idle().ht.vals[..])
    {
      current.Inc(key);
    }

    /** The end of an epoch. */
    method Reset(zero: Key)
      requires Valid() && Empty(zero)
      modifies this`current, ptr1.Repr(), ptr2.Repr()
      ensures Valid() && current == old(Idle()) && View() == HandedOver(old(View()))
      ensures current.ht.keys[..] == old(Idle().ht.keys[..]) && current.ht.vals[..] == old(Idle().ht.vals[..])
      ensures var old_ht := old(current).ht;
              old(current.ht.Valid() && Empty(current.ht.keys[current.ht.rows - 1])) ==> old_ht.Valid() && old_ht.M() == map[]
    {
      var prev := current;
      if current == ptr1 {
        CopyRow(ptr1.row1, ptr2.row1_last);
        current := ptr2;
      } else {
        CopyRow(ptr2.row1, ptr1.row1_last);
        current := ptr1;
      }
      prev.Reset(zero);
    }

    method CopyRow(src: array<uint32>, dst: array<uint32>)
      requires src.Length == dst.Length && src != dst
      modifies dst
      ensures dst[..] == src[..]
    {
      for i := 0 to src.Length
        invariant dst[..i] == src[..i]
      {
        dst[i] := src[i];
      }
    }
  }
}
