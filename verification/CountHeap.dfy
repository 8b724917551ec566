/**
 The heavy-change count heap: a small heap of flows kept beside a Count-Min style counter
 array, with a hash table from flow to heap position.
 */
module CountHeap {
  import opened Machine
  import opened LinearMap
  import opened MinHeap

  datatype Pair = Pair(freq: uint32, flowid: Key)

  const FREQ_LIMIT := 0x4000_0000

  /** The index agrees with the heap: positions of heap flows are right, all other entries are tombstones. */
  ghost predicate Indexed(heap: seq<Pair>, m: map<Key, uint32>) {
    && |heap| <= TOMBSTONE
    && (forall i :: 0 <= i < |heap| ==> NodeIndexed(heap, m, i))
    && (forall k :: EntryRight(heap, m, k))
  }

  ghost predicate NodeIndexed(heap: seq<Pair>, m: map<Key, uint32>, i: nat)
    requires i < |heap|
  {
    heap[i].flowid in m && m[heap[i].flowid] == i
  }

  ghost predicate EntryRight(heap: seq<Pair>, m: map<Key, uint32>, k: Key) {
    k in m && m[k] != TOMBSTONE ==> m[k] < |heap| && heap[m[k]].flowid == k
  }

  /** Position of a flow by linear search, or -1. */
  function Position(heap: seq<Pair>, k: Key): (p: int)
    ensures -1 <= p < |heap|
    ensures p >= 0 ==> heap[p].flowid == k
    ensures p == -1 ==> forall i :: 0 <= i < |heap| ==> heap[i].flowid != k
  {
    if heap == [] then -1
    else if heap[|heap| - 1].flowid == k then |heap| - 1
    else Position(heap[..|heap| - 1], k)
  }

  function FreqOf(): Pair -> nat {
    (p: Pair) => p.freq
  }

  lemma IndexedAfterSwap(heap: seq<Pair>, m: map<Key, uint32>, i: nat, j: nat)
    requires Indexed(heap, m) && i < |heap| && j < |heap| && i != j
    ensures var a, b := heap[i].flowid, heap[j].flowid;
            a in m && b in m && Indexed(Swapped(heap, i, j), m[a := m[b]][b := m[a]])
  {
    var a, b := heap[i].flowid, heap[j].flowid;
    assert NodeIndexed(heap, m, i) && NodeIndexed(heap, m, j);
    var h', m' := Swapped(heap, i, j), m[a := m[b]][b := m[a]];
    forall q | 0 <= q < |heap|
      ensures NodeIndexed(h', m', q)
    {
      assert NodeIndexed(heap, m, q);
    }
    forall k
      ensures EntryRight(h', m', k)
    {
      assert EntryRight(heap, m, k);
    }
  }

  lemma IndexedAfterAppend(heap: seq<Pair>, m: map<Key, uint32>, p: Pair)
    requires Indexed(heap, m) && |heap| < TOMBSTONE && Position(heap, p.flowid) == -1
    ensures Indexed(heap + [p], m[p.flowid := |heap|])
  {
    var h', m' := heap + [p], m[p.flowid := |heap|];
    forall q | 0 <= q < |h'|
      ensures NodeIndexed(h', m', q)
    {
      assert q < |heap| ==> NodeIndexed(heap, m, q);
    }
    forall k
      ensures EntryRight(h', m', k)
    {
      assert EntryRight(heap, m, k);
    }
  }

  lemma IndexedAfterReplace(heap: seq<Pair>, m: map<Key, uint32>, p: Pair)
    requires Indexed(heap, m) && |heap| > 0 && Position(heap, p.flowid) == -1
    ensures Indexed(heap[0 := p], m[heap[0].flowid := TOMBSTONE][p.flowid := 0])
  {
    var h', m' := heap[0 := p], m[heap[0].flowid := TOMBSTONE][p.flowid := 0];
    assert NodeIndexed(heap, m, 0);
    forall q | 0 <= q < |heap|
      ensures NodeIndexed(h', m', q)
    {
      assert NodeIndexed(heap, m, q);
    }
    forall k
      ensures EntryRight(h', m', k)
    {
      assert EntryRight(heap, m, k);
    }
  }

  /** A raised frequency does not concern the index. */
  lemma IndexedAfterBump(heap: seq<Pair>, m: map<Key, uint32>, p: nat, x: Pair)
    requires Indexed(heap, m) && p < |heap| && x.flowid == heap[p].flowid
    ensures Indexed(heap[p := x], m)
  {
    var h' := heap[p := x];
    forall q | 0 <= q < |heap|
      ensures NodeIndexed(h', m, q)
    {
      assert NodeIndexed(heap, m, q);
    }
    forall k
      ensures EntryRight(h', m, k)
    {
      assert EntryRight(heap, m, k);
    }
  }

  /** The entry of a flow, read from the table, is its position by linear search. */
  lemma EntryIsPosition(heap: seq<Pair>, m: map<Key, uint32>, k: Key)
    requires Indexed(heap, m)
    ensures Position(heap, k) == if k in m && m[k] != TOMBSTONE then m[k] else -1
  {
    assert EntryRight(heap, m, k);
    var p := Position(heap, k);
    if p >= 0 {
      assert NodeIndexed(heap, m, p);
    }
  }

  lemma PutTwice(m: map<Key, uint32>, m': map<Key, uint32>, key: Key, v: uint32)
    requires m' == if key in m then m else m[key := 0]
    ensures m'[key := v] == m[key := v]
  {
  }

  /** What one packet with estimate tmin does to the heap. */
  function Inserted(heap: seq<Pair>, capacity: nat, key: Key, freq: uint32, tmin: int): seq<Pair> {
    var p := Position(heap, key);
    if p >= 0 then Down(FreqOf(), heap[p := heap[p].(freq := Add32(heap[p].freq, freq))], p)
    else if |heap| < capacity then Up(FreqOf(), heap + [Pair(AsWord(tmin), key)], |heap|)
    else if |heap| > 0 && tmin > AsInt(heap[0].freq) then Down(FreqOf(), heap[0 := Pair(AsWord(tmin), key)], 0)
    else heap
  }

  /**
   The heap stays ordered, except possibly on the edge from the root to node 1, as long as the
   counted frequency does not wrap; once the root has been sifted the order is complete.
   */
  lemma InsertedKeepsOrder(heap: seq<Pair>, capacity: nat, key: Key, freq: uint32, tmin: int, lo: nat)
    requires 0 < lo <= 2 && OrderedFrom(FreqOf(), heap, lo)
    requires var p := Position(heap, key); p >= 0 ==> heap[p].freq + freq < WORD
    ensures var h, p := Inserted(heap, capacity, key, freq, tmin), Position(heap, key);
            && OrderedFrom(FreqOf(), h, 2)
            && (|heap| >= capacity ==> OrderedFrom(FreqOf(), h, lo))
            && (p == 0 || (p < 0 && |heap| >= capacity > 0 && tmin > AsInt(heap[0].freq)) ==> OrderedFrom(FreqOf(), h, 1))
  {
    var p := Position(heap, key);
    if p >= 0 {
      Add32Small(heap[p].freq, freq);
      BumpKeepsOrder(FreqOf(), heap, lo, p, heap[p].(freq := Add32(heap[p].freq, freq)));
    } else if |heap| < capacity {
      AppendKeepsOrder(FreqOf(), heap, Pair(AsWord(tmin), key));
    } else if |heap| > 0 {
      ReplaceRootOrders(FreqOf(), heap, Pair(AsWord(tmin), key));
    }
  }

  /** The signed 32-bit counters, as words. */
  datatype Counters = Counters(row1: seq<uint32>, row2: seq<uint32>, row3: seq<uint32>)

  ghost predicate InRows(cs: Counters, col: (Key, nat) -> nat) {
    |cs.row1| == |cs.row2| == |cs.row3| && forall k, r :: col(k, r) < |cs.row1|
  }

  /** One packet in each of the flow's three counters. */
  ghost function Counted(cs: Counters, col: (Key, nat) -> nat, key: Key): (r: Counters)
    requires InRows(cs, col)
    ensures InRows(r, col)
  {
    var a, b, c := col(key, 0), col(key, 1), col(key, 2);
    Counters(cs.row1[a := Add32(cs.row1[a], 1)], cs.row2[b := Add32(cs.row2[b], 1)], cs.row3[c := Add32(cs.row3[c], 1)])
  }

  /** The sketch estimate of a flow: the least of its counters, read as signed integers, at most 2^30. */
  ghost function Estimate(cs: Counters, col: (Key, nat) -> nat, key: Key): (t: int)
    requires InRows(cs, col)
    ensures t <= FREQ_LIMIT && t <= AsInt(cs.row1[col(key, 0)]) && t <= AsInt(cs.row2[col(key, 1)]) && t <= AsInt(cs.row3[col(key, 2)])
    ensures t in {FREQ_LIMIT, AsInt(cs.row1[col(key, 0)]), AsInt(cs.row2[col(key, 1)]), AsInt(cs.row3[col(key, 2)])}
  {
    var x, y, z := AsInt(cs.row1[col(key, 0)]), AsInt(cs.row2[col(key, 1)]), AsInt(cs.row3[col(key, 2)]);
    var a := if x < FREQ_LIMIT then x else FREQ_LIMIT;
    var b := if y < a then y else a;
    if z < b then z else b
  }

  /** The word in which a signed integer is stored. */
  function AsWord(x: int): (w: uint32)
    ensures -0x8000_0000 <= x < 0x8000_0000 ==> AsInt(w) == x
  {
    x % WORD
  }

  // ---------- What the frequencies mean ----------

  /** The heap and the counters after a stream, each packet counting one. */
  datatype Tracker = Tracker(heap: seq<Pair>, cs: Counters)

  ghost function Tracked(t: Tracker, capacity: nat, col: (Key, nat) -> nat, key: Key): Tracker
    requires InRows(t.cs, col)
  {
    var cs := Counted(t.cs, col, key);
    Tracker(Inserted(t.heap, capacity, key, 1, Estimate(cs, col, key)), cs)
  }

  ghost predicate TrackStep(ts: seq<Tracker>, capacity: nat, col: (Key, nat) -> nat, stream: seq<Key>, i: nat)
    requires i < |stream| && |ts| == |stream| + 1
  {
    InRows(ts[i].cs, col) && ts[i + 1] == Tracked(ts[i], capacity, col, stream[i])
  }

  /** All states of a run that starts empty. */
  ghost predicate IsRun(ts: seq<Tracker>, capacity: nat, col: (Key, nat) -> nat, rowsize: nat, stream: seq<Key>) {
    && |ts| == |stream| + 1 && ts[0] == Tracker([], Counters(seq(rowsize, _ => 0), seq(rowsize, _ => 0), seq(rowsize, _ => 0)))
    && (forall k, r :: col(k, r) < rowsize)
    && forall i :: 0 <= i < |stream| ==> TrackStep(ts, capacity, col, stream, i)
  }

  /** Packets of a key among the first i. */
  function Packets(key: Key, stream: seq<Key>, i: nat): (n: nat)
    requires i <= |stream|
    ensures n <= i
  {
    if i == 0 then 0 else Packets(key, stream, i - 1) + if stream[i - 1] == key then 1 else 0
  }

  /** No counter exceeds n. */
  ghost predicate AtMost(cs: Counters, n: nat) {
    && (forall j :: 0 <= j < |cs.row1| ==> cs.row1[j] <= n)
    && (forall j :: 0 <= j < |cs.row2| ==> cs.row2[j] <= n)
    && (forall j :: 0 <= j < |cs.row3| ==> cs.row3[j] <= n)
  }

  /** Below 2^30 a packet raises its own key's estimate by one, and any other by at most one. */
  lemma EstimateAfter(cs: Counters, col: (Key, nat) -> nat, k: Key, key: Key, n: nat)
    requires InRows(cs, col) && AtMost(cs, n) && n + 1 < FREQ_LIMIT
    ensures AtMost(Counted(cs, col, k), n + 1)
    ensures var e, e' := Estimate(cs, col, key), Estimate(Counted(cs, col, k), col, key);
            0 <= e <= e' <= e + 1 && (k == key ==> e' == e + 1)
  {
    Add32Small(cs.row1[col(k, 0)], 1);
    Add32Small(cs.row2[col(k, 1)], 1);
    Add32Small(cs.row3[col(k, 2)], 1);
  }

  // The heap as a bag: sifting does not matter.

  ghost predicate DistinctFlows(b: multiset<Pair>) {
    forall x, y :: x in b && y in b && x.flowid == y.flowid ==> x == y && b[x] == 1
  }

  lemma UpdateBag(h: seq<Pair>, p: nat, x: Pair)
    requires p < |h|
    ensures multiset(h[p := x]) == multiset(h) - multiset{h[p]} + multiset{x}
  {
    assert h == h[..p] + [h[p]] + h[p + 1..];
    assert h[p := x] == h[..p] + [x] + h[p + 1..];
  }

  /** The bag after a packet. */
  ghost function BagAfter(h: seq<Pair>, capacity: nat, key: Key, tmin: int): multiset<Pair> {
    var p, b := Position(h, key), multiset(h);
    if p >= 0 then b - multiset{h[p]} + multiset{h[p].(freq := Add32(h[p].freq, 1))}
    else if |h| < capacity then b + multiset{Pair(AsWord(tmin), key)}
    else if |h| > 0 && tmin > AsInt(h[0].freq) then b - multiset{h[0]} + multiset{Pair(AsWord(tmin), key)}
    else b
  }

  lemma InsertedBag(h: seq<Pair>, capacity: nat, key: Key, tmin: int)
    ensures multiset(Inserted(h, capacity, key, 1, tmin)) == BagAfter(h, capacity, key, tmin)
  {
    var p := Position(h, key);
    if p >= 0 {
      var x := h[p].(freq := Add32(h[p].freq, 1));
      DownPermutes(FreqOf(), h[p := x], p);
      UpdateBag(h, p, x);
    } else if |h| < capacity {
      UpPermutes(FreqOf(), h + [Pair(AsWord(tmin), key)], |h|);
    } else if |h| > 0 && tmin > AsInt(h[0].freq) {
      DownPermutes(FreqOf(), h[0 := Pair(AsWord(tmin), key)], 0);
      UpdateBag(h, 0, Pair(AsWord(tmin), key));
    }
  }

  /** A node's frequency lies between the flow's true count and its current estimate. */
  ghost predicate Bracketed(x: Pair, cs: Counters, col: (Key, nat) -> nat, stream: seq<Key>, i: nat)
    requires InRows(cs, col) && i <= |stream|
  {
    Packets(x.flowid, stream, i) <= x.freq <= Estimate(cs, col, x.flowid)
  }

  ghost predicate RunInv(t: Tracker, col: (Key, nat) -> nat, stream: seq<Key>, i: nat)
    requires i <= |stream|
  {
    && InRows(t.cs, col) && AtMost(t.cs, i) && DistinctFlows(multiset(t.heap))
    && (forall k :: Packets(k, stream, i) <= Estimate(t.cs, col, k))
    && (forall x :: x in multiset(t.heap) ==> Bracketed(x, t.cs, col, stream, i))
  }

  /** No node of the heap has the key, or exactly the one at its position. */
  lemma PositionInBag(h: seq<Pair>, key: Key, x: Pair)
    requires DistinctFlows(multiset(h)) && x in multiset(h) && x.flowid == key
    ensures Position(h, key) >= 0 && h[Position(h, key)] == x
  {
    var p := Position(h, key);
    var j :| 0 <= j < |h| && h[j] == x;
    assert p >= 0 ==> h[p] in multiset(h);
  }

  lemma BagStaysDistinct(h: seq<Pair>, capacity: nat, key: Key, tmin: int)
    requires DistinctFlows(multiset(h))
    ensures DistinctFlows(BagAfter(h, capacity, key, tmin))
  {
    var b', p := BagAfter(h, capacity, key, tmin), Position(h, key);
    assert p >= 0 ==> h[p] in multiset(h);
    assert |h| > 0 ==> h[0] in multiset(h);
    assert p < 0 ==> forall x :: x in multiset(h) ==> x.flowid != key;
  }

  /** Where a node of the new bag comes from: the packet's own flow, or an old node. */
  lemma NewNode(h: seq<Pair>, capacity: nat, key: Key, tmin: int, x: Pair)
    requires DistinctFlows(multiset(h)) && x in BagAfter(h, capacity, key, tmin)
    ensures if x.flowid != key then x in multiset(h)
            else if Position(h, key) >= 0 then x == h[Position(h, key)].(freq := Add32(h[Position(h, key)].freq, 1))
            else x == Pair(AsWord(tmin), key)
  {
    var p := Position(h, key);
    if x.flowid == key && x in multiset(h) {
      PositionInBag(h, key, x);
    }
  }

  lemma OldNode(cs: Counters, col: (Key, nat) -> nat, stream: seq<Key>, i: nat, x: Pair)
    requires i < |stream| && i + 1 < FREQ_LIMIT && InRows(cs, col) && AtMost(cs, i) && Bracketed(x, cs, col, stream, i) && x.flowid != stream[i]
    ensures Bracketed(x, Counted(cs, col, stream[i]), col, stream, i + 1)
  {
    EstimateAfter(cs, col, stream[i], x.flowid, i);
  }

  lemma HitNode(cs: Counters, col: (Key, nat) -> nat, stream: seq<Key>, i: nat, x: Pair)
    requires i < |stream| && i + 1 < FREQ_LIMIT && InRows(cs, col) && AtMost(cs, i) && Bracketed(x, cs, col, stream, i) && x.flowid == stream[i]
    ensures Bracketed(x.(freq := Add32(x.freq, 1)), Counted(cs, col, stream[i]), col, stream, i + 1)
  {
    EstimateAfter(cs, col, stream[i], stream[i], i);
    Add32Small(x.freq, 1);
  }

  lemma FreshNode(cs: Counters, col: (Key, nat) -> nat, stream: seq<Key>, i: nat)
    requires i < |stream| && i + 1 < FREQ_LIMIT && InRows(cs, col) && AtMost(cs, i) && Packets(stream[i], stream, i) <= Estimate(cs, col, stream[i])
    ensures var cs' := Counted(cs, col, stream[i]);
            Bracketed(Pair(AsWord(Estimate(cs', col, stream[i])), stream[i]), cs', col, stream, i + 1)
  {
    EstimateAfter(cs, col, stream[i], stream[i], i);
  }

  lemma NodeStep(t: Tracker, capacity: nat, col: (Key, nat) -> nat, stream: seq<Key>, i: nat, x: Pair)
    requires i < |stream| && i + 1 < FREQ_LIMIT && RunInv(t, col, stream, i)
    requires x in BagAfter(t.heap, capacity, stream[i], Estimate(Counted(t.cs, col, stream[i]), col, stream[i]))
    ensures Bracketed(x, Counted(t.cs, col, stream[i]), col, stream, i + 1)
  {
    var p := Position(t.heap, stream[i]);
    NewNode(t.heap, capacity, stream[i], Estimate(Counted(t.cs, col, stream[i]), col, stream[i]), x);
    if x.flowid != stream[i] {
      OldNode(t.cs, col, stream, i, x);
    } else if p >= 0 {
      assert t.heap[p] in multiset(t.heap);
      HitNode(t.cs, col, stream, i, t.heap[p]);
    } else {
      FreshNode(t.cs, col, stream, i);
    }
  }

  lemma RunStep(t: Tracker, capacity: nat, col: (Key, nat) -> nat, stream: seq<Key>, i: nat)
    requires i < |stream| && i + 1 < FREQ_LIMIT && RunInv(t, col, stream, i)
    ensures RunInv(Tracked(t, capacity, col, stream[i]), col, stream, i + 1)
  {
    var t' := Tracked(t, capacity, col, stream[i]);
    EstimateAfter(t.cs, col, stream[i], stream[i], i);
    InsertedBag(t.heap, capacity, stream[i], Estimate(t'.cs, col, stream[i]));
    BagStaysDistinct(t.heap, capacity, stream[i], Estimate(t'.cs, col, stream[i]));
    forall k
      ensures Packets(k, stream, i + 1) <= Estimate(t'.cs, col, k)
    {
      EstimateAfter(t.cs, col, stream[i], k, i);
    }
    forall x | x in multiset(t'.heap)
      ensures Bracketed(x, t'.cs, col, stream, i + 1)
    {
      NodeStep(t, capacity, col, stream, i, x);
    }
  }

  lemma StartIsBracketed(col: (Key, nat) -> nat, rowsize: nat, stream: seq<Key>)
    requires forall k, r :: col(k, r) < rowsize
    ensures RunInv(Tracker([], Counters(seq(rowsize, _ => 0), seq(rowsize, _ => 0), seq(rowsize, _ => 0))), col, stream, 0)
  {
  }

  lemma RunAdvances(ts: seq<Tracker>, capacity: nat, col: (Key, nat) -> nat, rowsize: nat, stream: seq<Key>, i: nat)
    requires IsRun(ts, capacity, col, rowsize, stream) && i < |stream| < FREQ_LIMIT && RunInv(ts[i], col, stream, i)
    ensures RunInv(ts[i + 1], col, stream, i + 1)
  {
    assert TrackStep(ts, capacity, col, stream, i);
    RunStep(ts[i], capacity, col, stream, i);
  }

  lemma {:induction false} EveryRunIsBracketed(ts: seq<Tracker>, capacity: nat, col: (Key, nat) -> nat, rowsize: nat, stream: seq<Key>, i: nat)
    requires IsRun(ts, capacity, col, rowsize, stream) && i <= |stream| < FREQ_LIMIT
    ensures RunInv(ts[i], col, stream, i)
  {
    if i == 0 {
      StartIsBracketed(col, rowsize, stream);
    } else {
      EveryRunIsBracketed(ts, capacity, col, rowsize, stream, i - 1);
      RunAdvances(ts, capacity, col, rowsize, stream, i - 1);
    }
  }

  /**
   After every stream below 2^30 packets: the frequency of every flow in the heap lies between
   its true count and its Count-Min estimate, although flows leave and re-enter.
   */
  lemma FrequencyIsBracketed(ts: seq<Tracker>, capacity: nat, col: (Key, nat) -> nat, rowsize: nat, stream: seq<Key>, i: nat, p: nat)
    requires IsRun(ts, capacity, col, rowsize, stream) && i <= |stream| < FREQ_LIMIT && p < |ts[i].heap|
    ensures InRows(ts[i].cs, col)
    ensures var x := ts[i].heap[p];
            Packets(x.flowid, stream, i) <= x.freq <= Estimate(ts[i].cs, col, x.flowid)
  {
    EveryRunIsBracketed(ts, capacity, col, rowsize, stream, i);
    var x := ts[i].heap[p];
    assert x in multiset(ts[i].heap) && Bracketed(x, ts[i].cs, col, stream, i);
  }

  // ---------- Who enters and who leaves ----------

  ghost predicate Tracks(h: seq<Pair>, k: Key) {
    exists j :: 0 <= j < |h| && h[j].flowid == k
  }

  /** The packet's flow is not in the full heap and its estimate exceeds the root's frequency. */
  ghost predicate Displaces(h: seq<Pair>, capacity: nat, key: Key, tmin: int) {
    !Tracks(h, key) && |h| >= capacity && |h| > 0 && tmin > AsInt(h[0].freq)
  }

  lemma TracksIsPosition(h: seq<Pair>, k: Key)
    ensures Tracks(h, k) <==> Position(h, k) >= 0
  {
  }

  /** Another flow's node stays as it is, unless it is the root and is displaced. */
  lemma KeptExactlyWhen(h: seq<Pair>, capacity: nat, key: Key, tmin: int, x: Pair)
    requires DistinctFlows(multiset(h)) && x in multiset(h) && x.flowid != key
    ensures x in multiset(Inserted(h, capacity, key, 1, tmin)) <==> !(Displaces(h, capacity, key, tmin) && x == h[0])
  {
    InsertedBag(h, capacity, key, tmin);
    TracksIsPosition(h, key);
    var p := Position(h, key);
    if p >= 0 {
      InBagAfterSwap(h, p, h[p].(freq := Add32(h[p].freq, 1)), x);
    } else if Displaces(h, capacity, key, tmin) {
      InBagAfterSwap(h, 0, Pair(AsWord(tmin), key), x);
    }
  }

  lemma InBagAfterSwap(h: seq<Pair>, p: nat, z: Pair, x: Pair)
    requires DistinctFlows(multiset(h)) && p < |h| && x in multiset(h) && x.flowid != z.flowid
    ensures x in multiset(h) - multiset{h[p]} + multiset{z} <==> x != h[p]
  {
    assert h[p] in multiset(h) && multiset(h)[h[p]] == 1;
  }

  /** A flow that was not in the heap enters, with its estimate, exactly when there is room or it displaces the root. */
  lemma EntersExactlyWhen(h: seq<Pair>, capacity: nat, key: Key, tmin: int)
    requires !Tracks(h, key)
    ensures var h' := Inserted(h, capacity, key, 1, tmin);
            && (Tracks(h', key) <==> |h| < capacity || Displaces(h, capacity, key, tmin))
            && (Tracks(h', key) ==> Pair(AsWord(tmin), key) in multiset(h'))
  {
    TracksIsPosition(h, key);
    InsertedBag(h, capacity, key, tmin);
    var h' := Inserted(h, capacity, key, 1, tmin);
    var x := Pair(AsWord(tmin), key);
    if |h| < capacity || Displaces(h, capacity, key, tmin) {
      assert x in multiset(h');
    }
  }

  lemma FrequencyIsSmall(t: Tracker, col: (Key, nat) -> nat, stream: seq<Key>, i: nat, x: Pair)
    requires i <= |stream| && RunInv(t, col, stream, i) && x in multiset(t.heap)
    ensures AsInt(x.freq) == x.freq
  {
    assert Bracketed(x, t.cs, col, stream, i);
  }

  /**
   On every run below 2^30 packets: a flow leaves the heap exactly when it is the root of a full
   heap and the packet is of a flow outside the heap whose estimate exceeds its frequency.
   */
  lemma DroppedExactlyWhen(ts: seq<Tracker>, capacity: nat, col: (Key, nat) -> nat, rowsize: nat, stream: seq<Key>, i: nat, p: nat)
    requires IsRun(ts, capacity, col, rowsize, stream) && i < |stream| < FREQ_LIMIT && p < |ts[i].heap|
    ensures InRows(ts[i + 1].cs, col)
    ensures var x := ts[i].heap[p];
            !Tracks(ts[i + 1].heap, x.flowid) <==>
              p == 0 && |ts[i].heap| >= capacity && !Tracks(ts[i].heap, stream[i])
              && Estimate(ts[i + 1].cs, col, stream[i]) > x.freq
  {
    EveryRunIsBracketed(ts, capacity, col, rowsize, stream, i);
    EveryRunIsBracketed(ts, capacity, col, rowsize, stream, i + 1);
    assert TrackStep(ts, capacity, col, stream, i);
    assert ts[i].heap[p] in multiset(ts[i].heap) && ts[i].heap[0] in multiset(ts[i].heap);
    FrequencyIsSmall(ts[i], col, stream, i, ts[i].heap[0]);
    LeavesExactlyWhen(ts[i].heap, capacity, stream[i], Estimate(ts[i + 1].cs, col, stream[i]), p);
  }

  lemma LeavesExactlyWhen(h: seq<Pair>, capacity: nat, key: Key, tmin: int, p: nat)
    requires DistinctFlows(multiset(h)) && p < |h|
    ensures !Tracks(Inserted(h, capacity, key, 1, tmin), h[p].flowid) <==> p == 0 && Displaces(h, capacity, key, tmin)
  {
    var x, h' := h[p], Inserted(h, capacity, key, 1, tmin);
    assert x in multiset(h);
    if x.flowid == key {
      HitStays(h, capacity, key, tmin, p);
    } else {
      KeptExactlyWhen(h, capacity, key, tmin, x);
      StillTracked(h, capacity, key, tmin, x);
      if x == h[0] {
        OnlyItself(h, p);
      }
    }
  }

  lemma HitStays(h: seq<Pair>, capacity: nat, key: Key, tmin: int, p: nat)
    requires p < |h| && h[p].flowid == key
    ensures Tracks(Inserted(h, capacity, key, 1, tmin), key) && Tracks(h, key)
  {
    InsertedBag(h, capacity, key, tmin);
    var q, h' := Position(h, key), Inserted(h, capacity, key, 1, tmin);
    assert h[q].(freq := Add32(h[q].freq, 1)) in multiset(h');
  }

  lemma OnlyItself(h: seq<Pair>, p: nat)
    requires DistinctFlows(multiset(h)) && p < |h| && h[p] == h[0]
    ensures p == 0
  {
    assert h[0] in multiset(h);
    if p > 0 {
      TwiceInBag(h, p);
    }
  }

  lemma TwiceInBag(h: seq<Pair>, p: nat)
    requires 0 < p < |h| && h[p] == h[0]
    ensures multiset(h)[h[0]] >= 2
  {
    assert h == [h[0]] + h[1..p] + [h[p]] + h[p + 1..];
  }

  lemma StillTracked(h: seq<Pair>, capacity: nat, key: Key, tmin: int, x: Pair)
    requires DistinctFlows(multiset(h)) && x in multiset(h) && x.flowid != key
    ensures var h' := Inserted(h, capacity, key, 1, tmin); Tracks(h', x.flowid) <==> x in multiset(h')
  {
    var h' := Inserted(h, capacity, key, 1, tmin);
    InsertedBag(h, capacity, key, tmin);
    if Tracks(h', x.flowid) {
      var j :| 0 <= j < |h'| && h'[j].flowid == x.flowid;
      assert h'[j] in multiset(h');
      NewNode(h, capacity, key, tmin, h'[j]);
    }
  }

  // ---------- The counters, in terms of the columns ----------

  function Row(cs: Counters, r: nat): seq<uint32> {
    if r == 0 then cs.row1 else if r == 1 then cs.row2 else cs.row3
  }

  /** Packets among the first i that fall into column c of row r. */
  function InColumn(col: (Key, nat) -> nat, stream: seq<Key>, r: nat, c: nat, i: nat): nat
    requires i <= |stream|
  {
    if i == 0 then 0 else InColumn(col, stream, r, c, i - 1) + if col(stream[i - 1], r) == c then 1 else 0
  }

  lemma CountedCell(cs: Counters, col: (Key, nat) -> nat, key: Key, r: nat, c: nat)
    requires InRows(cs, col) && r < 3 && c < |cs.row1|
    ensures Row(Counted(cs, col, key), r)[c] == Plus32(Row(cs, r)[c], if col(key, r) == c then 1 else 0)
  {
  }

  /** On every run, counter c of row r is the number of packets whose flow has column c in that row, modulo 2^32. */
  lemma {:induction false} CountersCountColumns(ts: seq<Tracker>, capacity: nat, col: (Key, nat) -> nat, rowsize: nat, stream: seq<Key>, i: nat, r: nat, c: nat)
    requires IsRun(ts, capacity, col, rowsize, stream) && i <= |stream| && r < 3 && c < rowsize
    ensures InRows(ts[i].cs, col) && |ts[i].cs.row1| == rowsize
    ensures Row(ts[i].cs, r)[c] == Plus32(0, InColumn(col, stream, r, c, i))
  {
    if i > 0 {
      CountersCountColumns(ts, capacity, col, rowsize, stream, i - 1, r, c);
      assert TrackStep(ts, capacity, col, stream, i - 1);
      CountedCell(ts[i - 1].cs, col, stream[i - 1], r, c);
      AddModAssoc(0, InColumn(col, stream, r, c, i - 1), if col(stream[i - 1], r) == c then 1 else 0);
    }
  }

  class CountHeap {
    const capacity: nat
    const heap: array<Pair>
    var num: nat
    const ht: HashMapLinear
    const row1: array<uint32>
    const row2: array<uint32>
    const row3: array<uint32>
    /** The three seeded row indices of a flow. */
    const col: (Key, nat) -> nat
    const rowsize: nat

    ghost function Rs(): Counters
      reads row1, row2, row3
    {
      Counters(row1[..], row2[..], row3[..])
    }

    ghost predicate Rows() {
      && row1.Length == row2.Length == row3.Length == rowsize
      && row1 != row2 && row1 != row3 && row2 != row3
      && ht.vals != row1 && ht.vals != row2 && ht.vals != row3
      && forall k, r :: col(k, r) < rowsize
    }

    ghost predicate Valid()
      reads this, heap, ht.keys, ht.vals
    {
      && Rows() && ht.Valid() && num <= capacity == heap.Length <= TOMBSTONE && capacity > 0
      && Indexed(heap[..num], ht.M())
    }

    /** The live part of the heap. */
    ghost function H(): seq<Pair>
      requires num <= heap.Length
      reads this, heap
    {
      heap[..num]
    }

    constructor (capacity: nat, ht: HashMapLinear, zero: Pair, rowsize: nat, col: (Key, nat) -> nat)
      requires 0 < capacity <= TOMBSTONE && ht.Valid() && ht.M() == map[] && forall k, r :: col(k, r) < rowsize
      ensures Valid() && num == 0 && this.capacity == capacity && this.ht == ht && this.col == col
      ensures fresh(heap) && fresh(row1) && fresh(row2) && fresh(row3) && this.rowsize == rowsize
      ensures forall i :: 0 <= i < rowsize ==> row1[i] == row2[i] == row3[i] == 0
    {
      this.capacity, this.ht, this.rowsize, this.col := capacity, ht, rowsize, col;
      heap := new Pair[capacity](_ => zero);
      row1 := new uint32[rowsize](_ => 0);
      row2 := new uint32[rowsize](_ => 0);
      row3 := new uint32[rowsize](_ => 0);
      num := 0;
    }

    /** The position recorded in the table, or -1: always what a linear search of the heap would find. */
    method QueryHash(key: Key) returns (r: int)
      requires Valid() && !Empty(key) && HasRoomFor(ht.keys[..], key)
      ensures r == Position(H(), key)
    {
      EntryIsPosition(H(), ht.M(), key);
      var p := ht.GetNoCopyKey(key);
      if Empty(ht.keys[p]) || ht.vals[p] == TOMBSTONE {
        r := -1;
      } else {
        r := ht.vals[p];
      }
    }

    method InsertHash(key: Key, v: uint32)
      requires ht.Valid() && !Empty(key) && HasRoomFor(ht.keys[..], key)
      modifies ht.keys, ht.vals
      ensures ht.Valid() && ht.M() == old(ht.M())[key := v]
    {
      var p := ht.GetCopyKey(key);
      PutTwice(old(ht.M()), ht.M(), key, v);
      ht.Store(p, v);
    }

    method DeleteHash(key: Key)
      requires ht.Valid() && !Empty(key) && key in ht.M()
      modifies ht.vals
      ensures ht.Valid() && ht.M() == old(ht.M())[key := TOMBSTONE]
    {
      PresentHasRoom(ht.keys[..], ht.vals[..], key);
      var p := ht.GetNoCopyKey(key);
      ht.Store(p, TOMBSTONE);
    }

    method SwapHash(key1: Key, key2: Key)
      requires ht.Valid() && !Empty(key1) && !Empty(key2) && key1 in ht.M() && key2 in ht.M()
      modifies ht.vals
      ensures ht.Valid() && ht.M() == old(ht.M())[key1 := old(ht.M())[key2]][key2 := old(ht.M())[key1]]
    {
      PresentHasRoom(ht.keys[..], ht.vals[..], key1);
      PresentHasRoom(ht.keys[..], ht.vals[..], key2);
      var p1 := ht.GetNoCopyKey(key1);
      var p2 := ht.GetNoCopyKey(key2);
      var t := ht.vals[p1];
      ht.Store(p1, ht.vals[p2]);
      ht.Store(p2, t);
    }

    /** Exchanges two heap nodes and their table entries. */
    method SwapNodes(i: nat, j: nat)
      requires Valid() && i < num && j < num && i != j
      modifies heap, ht.vals
      ensures Valid() && H() == Swapped(old(H()), i, j)
    {
      ghost var h := H();
      IndexedAfterSwap(h, ht.M(), i, j);
      IdsAreStored(i);
      IdsAreStored(j);
      SwapHash(heap[i].flowid, heap[j].flowid);
      SwapCells(i, j);
    }

    method SwapCells(i: nat, j: nat)
      requires i < num <= heap.Length && j < num && i != j
      modifies heap
      ensures H() == Swapped(old(H()), i, j)
    {
      var t := heap[i];
      heap[i] := heap[j];
      heap[j] := t;
    }

    /** The node itself or a strictly smaller child. */
    method LeastOf(i: nat) returns (least: nat)
      requires num <= heap.Length && i < num
      ensures least == Least(FreqOf(), H(), i)
    {
      var l, r := 2 * i + 1, 2 * i + 2;
      least := i;
      if l < num && heap[l].freq < heap[least].freq {
        least := l;
      }
      if r < num && heap[r].freq < heap[least].freq {
        least := r;
      }
    }

    /** One turn of the sift-down loop at node i, with its recursive call. */
    method SiftTurn(i: nat) returns (moved: bool)
      requires Valid() && i < num / 2
      modifies heap, ht.vals
      ensures Valid() && |H()| == |old(H())| && Down(FreqOf(), H(), i) == Down(FreqOf(), old(H()), i)
      ensures moved ==> H()[i].freq < old(H())[i].freq
      ensures !moved ==> H() == Down(FreqOf(), H(), i)
      decreases num - i, 0
    {
      ghost var h := H();
      var least := LeastOf(i);
      moved := least != i;
      if moved {
        DownTurn(FreqOf(), h, i);
        SwapNodes(i, least);
        AdjustDown(least);
      }
    }

    /** The sift-down: recursive, and then once more around its own loop. */
    method AdjustDown(i: nat)
      requires Valid()
      modifies heap, ht.vals
      ensures Valid() && H() == Down(FreqOf(), old(H()), i)
      decreases num - i, 1
    {
      ghost var h0 := H();
      while i < num / 2
        invariant Valid() && |H()| == |h0| && Down(FreqOf(), H(), i) == Down(FreqOf(), h0, i)
        decreases if i < num then H()[i].freq else 0
      {
        var moved := SiftTurn(i);
        if !moved {
          break;
        }
      }
    }

    /** The sift-up; it stops at index 1. */
    method AdjustUp(k: nat)
      requires Valid() && k < num
      modifies heap, ht.vals
      ensures Valid() && H() == Up(FreqOf(), old(H()), k)
    {
      ghost var h0 := H();
      var i := k;
      while i > 1
        invariant Valid() && 0 <= i < num && |H()| == |h0| && Up(FreqOf(), H(), i) == Up(FreqOf(), h0, k)
      {
        var parent := (i - 1) / 2;
        if heap[parent].freq <= heap[i].freq {
          break;
        }
        SwapNodes(i, parent);
        i := parent;
      }
    }

    /** Increments the three counters of a flow and returns their minimum, capped at 2^30. */
    method Count(key: Key) returns (tmin: int)
      requires Valid()
      modifies row1, row2, row3
      ensures Valid() && H() == old(H()) && ht.keys[..] == old(ht.keys[..]) && ht.vals[..] == old(ht.vals[..])
      ensures Rs() == Counted(old(Rs()), col, key) && tmin == Estimate(Rs(), col, key)
    {
      var h1, h2, h3 := col(key, 0), col(key, 1), col(key, 2);
      ghost var cs := Rs();
      row1[h1] := Add32(row1[h1], 1);
      row2[h2] := Add32(row2[h2], 1);
      row3[h3] := Add32(row3[h3], 1);
      assert Rs() == Counted(cs, col, key);
      tmin := FREQ_LIMIT;
      if AsInt(row1[h1]) < tmin {
        tmin := AsInt(row1[h1]);
      }
      if AsInt(row2[h2]) < tmin {
        tmin := AsInt(row2[h2]);
      }
      if AsInt(row3[h3]) < tmin {
        tmin := AsInt(row3[h3]);
      }
    }

    method BumpNode(p: nat, freq: uint32)
      requires Valid() && p < num
      modifies heap, ht.vals
      ensures Valid() && H() == Down(FreqOf(), old(H())[p := old(H())[p].(freq := Add32(old(H())[p].freq, freq))], p)
    {
      ghost var h := H();
      IndexedAfterBump(h, ht.M(), p, h[p].(freq := Add32(h[p].freq, freq)));
      heap[p] := heap[p].(freq := Add32(heap[p].freq, freq));
      assert H() == h[p := h[p].(freq := Add32(h[p].freq, freq))];
      AdjustDown(p);
    }

    method AppendNode(key: Key, tmin: uint32)
      requires Valid() && num < capacity && !Empty(key) && Position(H(), key) == -1 && HasRoomFor(ht.keys[..], key)
      modifies this`num, heap, ht.keys, ht.vals
      ensures Valid() && H() == old(H()) + [Pair(tmin, key)]
    {
      ghost var h := H();
      IndexedAfterAppend(h, ht.M(), Pair(tmin, key));
      heap[num] := Pair(tmin, key);
      InsertHash(key, num);
      num := num + 1;
      assert H() == h + [Pair(tmin, key)];
    }

    method ReplaceRoot(key: Key, tmin: uint32)
      requires Valid() && num > 0 && !Empty(key) && Position(H(), key) == -1 && HasRoomFor(ht.keys[..], key)
      modifies heap, ht.keys, ht.vals
      ensures Valid() && H() == old(H())[0 := Pair(tmin, key)]
    {
      ghost var h := H();
      IndexedAfterReplace(h, ht.M(), Pair(tmin, key));
      IdsAreStored(0);
      DeleteHash(heap[0].flowid);
      heap[0] := Pair(tmin, key);
      InsertHash(key, 0);
      assert H() == h[0 := Pair(tmin, key)];
    }

    method Append(key: Key, tmin: uint32)
      requires Valid() && num < capacity && !Empty(key) && Position(H(), key) == -1 && HasRoomFor(ht.keys[..], key)
      modifies this`num, heap, ht.keys, ht.vals
      ensures Valid() && H() == Up(FreqOf(), old(H()) + [Pair(tmin, key)], old(num))
    {
      AppendNode(key, tmin);
      AdjustUp(num - 1);
    }

    method Replace(key: Key, tmin: uint32)
      requires Valid() && num > 0 && !Empty(key) && Position(H(), key) == -1 && HasRoomFor(ht.keys[..], key)
      modifies heap, ht.keys, ht.vals
      ensures Valid() && H() == Down(FreqOf(), old(H())[0 := Pair(tmin, key)], 0)
    {
      ReplaceRoot(key, tmin);
      AdjustDown(0);
    }

    /** A flow that is not in the heap: appended, put in the root's place, or left out. */
    method Admit(key: Key, tmin: int)
      requires Valid() && !Empty(key) && HasRoomFor(ht.keys[..], key) && Position(H(), key) == -1
      modifies this`num, heap, ht.keys, ht.vals
      ensures Valid() && H() == Inserted(old(H()), capacity, key, 0, tmin)
    {
      if num < capacity {
        Append(key, AsWord(tmin));
      } else if tmin > AsInt(heap[0].freq) {
        Replace(key, AsWord(tmin));
      }
    }

    /** The heap part of a packet. */
    method Track(key: Key, freq: uint32, tmin: int)
      requires Valid() && !Empty(key) && HasRoomFor(ht.keys[..], key)
      modifies this`num, heap, ht.keys, ht.vals
      ensures Valid() && H() == Inserted(old(H()), capacity, key, freq, tmin)
    {
      var ret := QueryHash(key);
      if ret != -1 {
        BumpNode(ret, freq);
      } else {
        Admit(key, tmin);
      }
    }

    /** One packet: the index stays exact through hits, appends, root replacements and all sift swaps. */
    method Insert(key: Key, freq: uint32)
      requires Valid() && !Empty(key) && (key in ht.M() || |ht.M()| < ht.rows)
      modifies this`num, heap, ht.keys, ht.vals, row1, row2, row3
      ensures Valid() && Rs() == Counted(old(Rs()), col, key)
      ensures H() == Inserted(old(H()), capacity, key, freq, Estimate(Rs(), col, key))
    {
      RoomFor(key);
      var tmin := Count(key);
      ghost var rs := Rs();
      Track(key, freq, tmin);
      assert Rs() == rs;
    }

    lemma RoomFor(key: Key)
      requires ht.Valid() && (key in ht.M() || |ht.M()| < ht.rows)
      ensures HasRoomFor(ht.keys[..], key)
    {
      if key in ht.M() {
        PresentHasRoom(ht.keys[..], ht.vals[..], key);
      } else {
        RoomIfFewerKeysThanRows(ht.keys[..], ht.vals[..], key);
      }
    }

    lemma IdsAreStored(i: nat)
      requires Valid() && i < num
      ensures !Empty(heap[i].flowid) && heap[i].flowid in ht.M()
    {
      assert NodeIndexed(H(), ht.M(), i);
    }
  }
}
