/**
 The heavy-hitter Count-Min table: three counters per key, incremented in place, and a
 report at the packet that brings the key's estimate to the threshold.
 */
module CountMinReport {
  import opened Machine
  import opened TableSketch

  /** Cell of a key in row r of a table of three rows laid out one after the other. */
  function Pos<K>(hash: (K, nat) -> uint32, size: nat, k: K, r: nat): (p: nat)
    requires size > 0
    ensures r * size <= p < r * size + size
  {
    r * size + hash(k, r) % size
  }

  predicate Shape(t: seq<uint32>, size: nat) {
    size > 0 && |t| == 3 * size
  }

  function Bumped(t: seq<uint32>, p: nat): seq<uint32>
    requires p < |t|
  {
    t[p := Add32(t[p], 1)]
  }

  /** One packet. */
  function Counted<K>(hash: (K, nat) -> uint32, size: nat, t: seq<uint32>, k: K): (t': seq<uint32>)
    requires Shape(t, size)
    ensures Shape(t', size)
  {
    Bumped(Bumped(Bumped(t, Pos(hash, size, k, 0)), Pos(hash, size, k, 1)), Pos(hash, size, k, 2))
  }

  function Min(x: nat, y: nat): nat {
    if x < y then x else y
  }

  /** The least of a key's three counters. */
  function Estimate<K>(hash: (K, nat) -> uint32, size: nat, t: seq<uint32>, k: K): nat
    requires Shape(t, size)
  {
    Min(Min(t[Pos(hash, size, k, 0)], t[Pos(hash, size, k, 1)]), t[Pos(hash, size, k, 2)])
  }

  /** Does a packet of flow k touch cell p? */
  predicate Touches<K>(hash: (K, nat) -> uint32, size: nat, k: K, p: nat)
    requires size > 0
  {
    p == Pos(hash, size, k, 0) || p == Pos(hash, size, k, 1) || p == Pos(hash, size, k, 2)
  }

  /** No counter is about to wrap. */
  ghost predicate Below(t: seq<uint32>, limit: int) {
    forall p :: 0 <= p < |t| ==> t[p] < limit
  }

  lemma CellAfter<K>(hash: (K, nat) -> uint32, size: nat, t: seq<uint32>, k: K, p: nat)
    requires Shape(t, size) && p < |t| && t[p] < WORD - 1
    ensures Counted(hash, size, t, k)[p] == t[p] + if Touches(hash, size, k, p) then 1 else 0
  {
    Add32Small(t[p], 1);
  }

  /** A packet raises its own key's estimate by one, and any other estimate by at most one. */
  lemma EstimateAfter<K>(hash: (K, nat) -> uint32, size: nat, t: seq<uint32>, k: K, key: K)
    requires Shape(t, size) && Below(t, WORD - 1)
    ensures var e, e' := Estimate(hash, size, t, key), Estimate(hash, size, Counted(hash, size, t, k), key);
            e <= e' <= e + 1 && (k == key ==> e' == e + 1)
  {
    CellAfter(hash, size, t, k, Pos(hash, size, key, 0));
    CellAfter(hash, size, t, k, Pos(hash, size, key, 1));
    CellAfter(hash, size, t, k, Pos(hash, size, key, 2));
  }

  // ---------- Whole runs ----------

  /** The table after the first i packets. */
  function At<K>(hash: (K, nat) -> uint32, size: nat, t0: seq<uint32>, stream: seq<K>, i: nat): (t: seq<uint32>)
    requires Shape(t0, size) && i <= |stream|
    ensures Shape(t, size)
  {
    if i == 0 then t0 else Counted(hash, size, At(hash, size, t0, stream, i - 1), stream[i - 1])
  }

  /** A key's estimate after 0, 1, 2, ... packets. */
  function Estimates<K>(hash: (K, nat) -> uint32, size: nat, t0: seq<uint32>, stream: seq<K>, key: K): (es: seq<nat>)
    requires Shape(t0, size)
    ensures |es| == |stream| + 1
    ensures forall i :: 0 <= i <= |stream| ==> es[i] == Estimate(hash, size, At(hash, size, t0, stream, i), key)
  {
    seq(|stream| + 1, i requires 0 <= i <= |stream| => Estimate(hash, size, At(hash, size, t0, stream, i), key))
  }

  /** Number of packets of a key. */
  function Packets<K(==)>(key: K, stream: seq<K>, i: nat): nat
    requires i <= |stream|
  {
    if i == 0 then 0 else Packets(key, stream, i - 1) + if stream[i - 1] == key then 1 else 0
  }

  /** Number of packets on which the key is reported: its own packets that leave its estimate at the threshold. */
  function Reports<K(==)>(es: seq<nat>, stream: seq<K>, key: K, threshold: uint32, i: nat): nat
    requires i <= |stream| < |es|
  {
    if i == 0 then 0
    else
      Reports(es, stream, key, threshold, i - 1) + if stream[i - 1] == key && es[i] == threshold then 1 else 0
  }

  lemma {:induction false} NothingWraps<K>(hash: (K, nat) -> uint32, size: nat, t0: seq<uint32>, stream: seq<K>, i: nat)
    requires Shape(t0, size) && i <= |stream| && Below(t0, WORD - |stream|)
    ensures Below(At(hash, size, t0, stream, i), WORD - (|stream| - i))
  {
    if i > 0 {
      NothingWraps(hash, size, t0, stream, i - 1);
      var t := At(hash, size, t0, stream, i - 1);
      var t' := At(hash, size, t0, stream, i);
      forall p | 0 <= p < |t'|
        ensures t'[p] < WORD - (|stream| - i)
      {
        CellAfter(hash, size, t, stream[i - 1], p);
      }
    }
  }

  /** Packet i raises the estimate by at most one, and by one if it is the key's own. */
  ghost predicate StepsUp<K>(es: seq<nat>, stream: seq<K>, key: K, i: nat)
    requires i < |stream| < |es|
  {
    es[i] <= es[i + 1] <= es[i] + 1 && (stream[i] == key ==> es[i + 1] == es[i] + 1)
  }

  ghost predicate Climbs<K>(es: seq<nat>, stream: seq<K>, key: K) {
    |es| == |stream| + 1 && forall i :: 0 <= i < |stream| ==> StepsUp(es, stream, key, i)
  }

  lemma EstimatesClimb<K>(hash: (K, nat) -> uint32, size: nat, t0: seq<uint32>, stream: seq<K>, key: K)
    requires Shape(t0, size) && Below(t0, WORD - |stream|)
    ensures Climbs(Estimates(hash, size, t0, stream, key), stream, key)
  {
    var es := Estimates(hash, size, t0, stream, key);
    forall i | 0 <= i < |stream|
      ensures StepsUp(es, stream, key, i)
    {
      NothingWraps(hash, size, t0, stream, i);
      EstimateAfter(hash, size, At(hash, size, t0, stream, i), stream[i], key);
    }
  }

  lemma {:induction false} ClimbsWithPackets<K>(es: seq<nat>, stream: seq<K>, key: K, i: nat)
    requires Climbs(es, stream, key) && i <= |stream|
    ensures es[i] >= es[0] + Packets(key, stream, i)
  {
    if i > 0 {
      ClimbsWithPackets(es, stream, key, i - 1);
      assert StepsUp(es, stream, key, i - 1);
    }
  }

  /** The estimate never falls below the true count, on top of whatever it started from. */
  lemma NeverUnderestimates<K>(hash: (K, nat) -> uint32, size: nat, t0: seq<uint32>, stream: seq<K>, key: K, i: nat)
    requires Shape(t0, size) && i <= |stream| && Below(t0, WORD - |stream|)
    ensures Estimate(hash, size, At(hash, size, t0, stream, i), key) >= Estimate(hash, size, t0, key) + Packets(key, stream, i)
  {
    var es := Estimates(hash, size, t0, stream, key);
    EstimatesClimb(hash, size, t0, stream, key);
    ClimbsWithPackets(es, stream, key, i);
    assert es[0] == Estimate(hash, size, At(hash, size, t0, stream, 0), key);
  }

  /** A report is a crossing: the key's own packet moves its estimate from threshold - 1 to the threshold. */
  lemma ReportIsCrossing<K>(es: seq<nat>, stream: seq<K>, key: K, threshold: uint32, i: nat)
    requires Climbs(es, stream, key) && i < |stream|
    ensures Reports(es, stream, key, threshold, i + 1) > Reports(es, stream, key, threshold, i)
       <==> stream[i] == key && es[i] == threshold - 1 && es[i + 1] == threshold
  {
    assert StepsUp(es, stream, key, i);
  }

  /** Packet t brings the key's estimate to the threshold. */
  ghost predicate Crosses(es: seq<nat>, threshold: nat, t: nat)
    requires t + 1 < |es|
  {
    es[t] < threshold <= es[t + 1]
  }

  lemma {:induction false} EstimateGrows<K>(es: seq<nat>, stream: seq<K>, key: K, i: nat, j: nat)
    requires Climbs(es, stream, key) && i <= j <= |stream|
    ensures es[i] <= es[j]
    decreases j
  {
    if i < j {
      assert StepsUp(es, stream, key, j - 1);
      EstimateGrows(es, stream, key, i, j - 1);
    }
  }

  /** Until the estimate reaches the threshold nothing is reported; a key that starts above it is never reported. */
  lemma {:induction false} NoReportOffThreshold<K>(es: seq<nat>, stream: seq<K>, key: K, threshold: uint32, i: nat)
    requires Climbs(es, stream, key) && i <= |stream| && (es[i] < threshold || es[0] >= threshold)
    ensures Reports(es, stream, key, threshold, i) == 0
  {
    if i > 0 {
      assert StepsUp(es, stream, key, i - 1);
      EstimateGrows(es, stream, key, 0, i - 1);
      NoReportOffThreshold(es, stream, key, threshold, i - 1);
    }
  }

  lemma {:induction false} OneCrossing<K>(es: seq<nat>, stream: seq<K>, key: K, threshold: uint32, i: nat) returns (t: nat)
    requires Climbs(es, stream, key) && i <= |stream| && es[0] < threshold <= es[i]
    ensures t < i && Crosses(es, threshold, t)
    ensures Reports(es, stream, key, threshold, i) == if stream[t] == key then 1 else 0
  {
    assert StepsUp(es, stream, key, i - 1);
    if es[i - 1] < threshold {
      t := i - 1;
      NoReportOffThreshold(es, stream, key, threshold, i - 1);
    } else {
      t := OneCrossing(es, stream, key, threshold, i - 1);
    }
  }

  lemma CrossingIsUnique<K>(es: seq<nat>, stream: seq<K>, key: K, threshold: nat, t: nat, u: nat)
    requires Climbs(es, stream, key) && t < |stream| && u < |stream| && Crosses(es, threshold, t) && Crosses(es, threshold, u)
    ensures t == u
  {
    if t < u {
      EstimateGrows(es, stream, key, t + 1, u);
    } else if u < t {
      EstimateGrows(es, stream, key, u + 1, t);
    }
  }

  /**
   In every run: once the estimate has crossed the threshold, exactly one packet did it, and
   the key has been reported once if that packet was its own and never otherwise.
   */
  lemma ReportedIffOwnPacketCrosses<K>(hash: (K, nat) -> uint32, size: nat, t0: seq<uint32>, stream: seq<K>, key: K, threshold: uint32)
    returns (t: nat)
    requires Shape(t0, size) && Below(t0, WORD - |stream|)
    requires var es := Estimates(hash, size, t0, stream, key); es[0] < threshold <= es[|stream|]
    ensures t < |stream|
    ensures var es := Estimates(hash, size, t0, stream, key);
            && (forall u :: 0 <= u < |stream| ==> (Crosses(es, threshold, u) <==> u == t))
            && Reports(es, stream, key, threshold, |stream|) == if stream[t] == key then 1 else 0
  {
    var es := Estimates(hash, size, t0, stream, key);
    EstimatesClimb(hash, size, t0, stream, key);
    t := OneCrossing(es, stream, key, threshold, |stream|);
    forall u | 0 <= u < |stream| && Crosses(es, threshold, u)
      ensures u == t
    {
      CrossingIsUnique(es, stream, key, threshold, t, u);
    }
  }

  /** Each key is reported at most once per epoch. */
  lemma ReportedAtMostOnce<K>(hash: (K, nat) -> uint32, size: nat, t0: seq<uint32>, stream: seq<K>, key: K, threshold: uint32)
    requires Shape(t0, size) && Below(t0, WORD - |stream|)
    ensures Reports(Estimates(hash, size, t0, stream, key), stream, key, threshold, |stream|) <= 1
  {
    var es := Estimates(hash, size, t0, stream, key);
    EstimatesClimb(hash, size, t0, stream, key);
    if es[0] < threshold <= es[|stream|] {
      var t := OneCrossing(es, stream, key, threshold, |stream|);
    } else {
      NoReportOffThreshold(es, stream, key, threshold, |stream|);
    }
  }

  // ---------- When the report is exact ----------

  ghost predicate NotInTheWay<K>(hash: (K, nat) -> uint32, size: nat, k: K, key: K, r: nat)
    requires size > 0
  {
    Pos(hash, size, k, r) == Pos(hash, size, key, r) ==> k == key
  }

  /** In row r no packet of another key falls into the key's cell. */
  ghost predicate Alone<K>(hash: (K, nat) -> uint32, size: nat, stream: seq<K>, key: K, r: nat)
    requires size > 0
  {
    forall j :: 0 <= j < |stream| ==> NotInTheWay(hash, size, stream[j], key, r)
  }

  lemma OwnRow<K>(hash: (K, nat) -> uint32, size: nat, k: K, key: K, r: nat)
    requires size > 0 && r < 3
    ensures Touches(hash, size, k, Pos(hash, size, key, r)) <==> Pos(hash, size, k, r) == Pos(hash, size, key, r)
    ensures Pos(hash, size, key, r) < 3 * size
  {
  }

  lemma AloneStep<K>(hash: (K, nat) -> uint32, size: nat, t: seq<uint32>, stream: seq<K>, key: K, r: nat, i: nat)
    requires Shape(t, size) && i < |stream| && Below(t, WORD - 1) && r < 3 && Alone(hash, size, stream, key, r)
    ensures var p := Pos(hash, size, key, r);
            p < |t| && Counted(hash, size, t, stream[i])[p] == t[p] + if stream[i] == key then 1 else 0
  {
    OwnRow(hash, size, stream[i], key, r);
    CellAfter(hash, size, t, stream[i], Pos(hash, size, key, r));
  }

  /** Packet i raises the counter exactly if it is the key's own. */
  ghost predicate CountsOwn<K>(cs: seq<nat>, stream: seq<K>, key: K, i: nat)
    requires i < |stream| < |cs|
  {
    cs[i + 1] == cs[i] + if stream[i] == key then 1 else 0
  }

  lemma {:induction false} OwnPackets<K>(cs: seq<nat>, stream: seq<K>, key: K, i: nat)
    requires i <= |stream| < |cs| && forall j :: 0 <= j < |stream| ==> CountsOwn(cs, stream, key, j)
    ensures cs[i] == cs[0] + Packets(key, stream, i)
  {
    if i > 0 {
      OwnPackets(cs, stream, key, i - 1);
      assert CountsOwn(cs, stream, key, i - 1);
    }
  }

  /** The values of one cell after 0, 1, 2, ... packets. */
  function Cells<K>(hash: (K, nat) -> uint32, size: nat, t0: seq<uint32>, stream: seq<K>, p: nat): (cs: seq<nat>)
    requires Shape(t0, size) && p < |t0|
    ensures |cs| == |stream| + 1
    ensures forall i :: 0 <= i <= |stream| ==> cs[i] == At(hash, size, t0, stream, i)[p]
  {
    seq(|stream| + 1, i requires 0 <= i <= |stream| => At(hash, size, t0, stream, i)[p])
  }

  lemma AloneCellIsExact<K>(hash: (K, nat) -> uint32, size: nat, t0: seq<uint32>, stream: seq<K>, key: K, r: nat, i: nat)
    requires Shape(t0, size) && i <= |stream| && Below(t0, WORD - |stream|) && r < 3 && Alone(hash, size, stream, key, r)
    requires Pos(hash, size, key, r) < |t0|
    ensures At(hash, size, t0, stream, i)[Pos(hash, size, key, r)] == t0[Pos(hash, size, key, r)] + Packets(key, stream, i)
  {
    var cs := Cells(hash, size, t0, stream, Pos(hash, size, key, r));
    forall j | 0 <= j < |stream|
      ensures CountsOwn(cs, stream, key, j)
    {
      NothingWraps(hash, size, t0, stream, j);
      AloneStep(hash, size, At(hash, size, t0, stream, j), stream, key, r, j);
    }
    OwnPackets(cs, stream, key, i);
    assert cs[0] == At(hash, size, t0, stream, 0)[Pos(hash, size, key, r)];
  }

  lemma EstimateBelowCell<K>(hash: (K, nat) -> uint32, size: nat, t: seq<uint32>, key: K, r: nat)
    requires Shape(t, size) && r < 3 && Pos(hash, size, key, r) < |t|
    ensures Estimate(hash, size, t, key) <= t[Pos(hash, size, key, r)]
  {
    assert r == 0 || r == 1 || r == 2;
  }

  lemma AloneEstimateIsExact<K>(hash: (K, nat) -> uint32, size: nat, t0: seq<uint32>, stream: seq<K>, key: K, r: nat, i: nat)
    requires Shape(t0, size) && i <= |stream| && Below(t0, WORD - |stream|) && r < 3 && Alone(hash, size, stream, key, r)
    requires Pos(hash, size, key, r) < |t0| && t0[Pos(hash, size, key, r)] == 0
    ensures Estimates(hash, size, t0, stream, key)[i] == Packets(key, stream, i)
  {
    NeverUnderestimates(hash, size, t0, stream, key, i);
    AloneCellIsExact(hash, size, t0, stream, key, r, i);
    EstimateBelowCell(hash, size, At(hash, size, t0, stream, i), key, r);
  }

  lemma {:induction false} ExactEstimatesReportExactly<K>(es: seq<nat>, stream: seq<K>, key: K, threshold: uint32, i: nat)
    requires i <= |stream| < |es| && threshold > 0 && forall j :: 0 <= j <= |stream| ==> es[j] == Packets(key, stream, j)
    ensures Reports(es, stream, key, threshold, i) == if Packets(key, stream, i) >= threshold then 1 else 0
  {
    if i > 0 {
      ExactEstimatesReportExactly(es, stream, key, threshold, i - 1);
      assert es[i] == Packets(key, stream, i);
    }
  }

  /** A key that is alone in one of its rows is reported exactly once it has sent threshold packets. */
  lemma AloneIsReportedExactly<K>(hash: (K, nat) -> uint32, size: nat, t0: seq<uint32>, stream: seq<K>, key: K, threshold: uint32, r: nat, i: nat)
    requires Shape(t0, size) && i <= |stream| && Below(t0, WORD - |stream|) && r < 3 && Alone(hash, size, stream, key, r)
    requires Pos(hash, size, key, r) < |t0| && t0[Pos(hash, size, key, r)] == 0 && threshold > 0
    ensures Reports(Estimates(hash, size, t0, stream, key), stream, key, threshold, i) == if Packets(key, stream, i) >= threshold then 1 else 0
  {
    var es := Estimates(hash, size, t0, stream, key);
    forall j | 0 <= j <= |stream|
      ensures es[j] == Packets(key, stream, j)
    {
      AloneEstimateIsExact(hash, size, t0, stream, key, r, j);
    }
    ExactEstimatesReportExactly(es, stream, key, threshold, i);
  }

  function OneColumn(): (uint32, nat) -> uint32 {
    (_: uint32, _: nat) => 0
  }

  /** Two keys that share all three cells: key 1 sends two packets, the threshold is two, and it is never reported. */
  lemma CollidingHeavyKeyIsMissed()
    ensures var stream: seq<uint32> := [1, 2, 1];
            && Packets(1, stream, 3) == 2
            && Reports(Estimates(OneColumn(), 1, [0, 0, 0], stream, 1), stream, 1, 2, 3) == 0
  {
    var stream: seq<uint32> := [1, 2, 1];
    var es := Estimates(OneColumn(), 1, [0, 0, 0], stream, 1);
    assert Packets(1, stream, 1) == 1;
    assert At(OneColumn(), 1, [0, 0, 0], stream, 1) == [1, 1, 1];
    assert At(OneColumn(), 1, [0, 0, 0], stream, 2) == [2, 2, 2];
    assert At(OneColumn(), 1, [0, 0, 0], stream, 3) == [3, 3, 3];
    assert es[1] == 1 && es[3] == 3;
    assert Reports(es, stream, 1, 2, 1) == 0;
  }

  // ---------- The counters, in terms of the hashes ----------

  /** Packets among the first i whose r-th hash falls into column c. */
  function InColumn<K>(hash: (K, nat) -> uint32, size: nat, stream: seq<K>, r: nat, c: nat, i: nat): (n: nat)
    requires size > 0 && i <= |stream|
    ensures n <= i
  {
    if i == 0 then 0 else InColumn(hash, size, stream, r, c, i - 1) + if hash(stream[i - 1], r) % size == c then 1 else 0
  }

  lemma IsPos<K>(hash: (K, nat) -> uint32, size: nat, k: K, r: nat, c: nat, p: nat, q: nat)
    requires c < size && p == r * size + c
    ensures p == Pos(hash, size, k, q) <==> q == r && hash(k, q) % size == c
  {
    RowAndColumn(size, r, c, q, hash(k, q) % size);
  }

  /** Three increments, at most one of them of cell p. */
  lemma BumpedOnce(t: seq<uint32>, p: nat, x: nat, y: nat, z: nat)
    requires p < |t| && x < |t| && y < |t| && z < |t| && !(p == x && p == y) && !(p == x && p == z) && !(p == y && p == z)
    ensures Bumped(Bumped(Bumped(t, x), y), z)[p] == Plus32(t[p], if p == x || p == y || p == z then 1 else 0)
  {
  }

  lemma CountedCell<K>(hash: (K, nat) -> uint32, size: nat, t: seq<uint32>, k: K, r: nat, c: nat, p: nat)
    requires Shape(t, size) && r < 3 && c < size && p == r * size + c && p < |t|
    ensures Counted(hash, size, t, k)[p] == Plus32(t[p], if hash(k, r) % size == c then 1 else 0)
  {
    IsPos(hash, size, k, r, c, p, 0);
    IsPos(hash, size, k, r, c, p, 1);
    IsPos(hash, size, k, r, c, p, 2);
    BumpedOnce(t, p, Pos(hash, size, k, 0), Pos(hash, size, k, 1), Pos(hash, size, k, 2));
  }

  /** Packet i adds one to the cell exactly if its r-th hash falls into column c. */
  ghost predicate CountsHash<K>(cs: seq<nat>, hash: (K, nat) -> uint32, size: nat, stream: seq<K>, r: nat, c: nat, i: nat)
    requires size > 0 && i < |stream| < |cs|
  {
    cs[i] < WORD && cs[i + 1] == Plus32(cs[i], if hash(stream[i], r) % size == c then 1 else 0)
  }

  lemma {:induction false} CountedHashes<K>(cs: seq<nat>, hash: (K, nat) -> uint32, size: nat, stream: seq<K>, r: nat, c: nat, i: nat)
    requires size > 0 && i <= |stream| < |cs| && cs[0] < WORD
    requires forall j :: 0 <= j < |stream| ==> CountsHash(cs, hash, size, stream, r, c, j)
    ensures cs[i] == Plus32(cs[0], InColumn(hash, size, stream, r, c, i))
  {
    if i > 0 {
      CountedHashes(cs, hash, size, stream, r, c, i - 1);
      assert CountsHash(cs, hash, size, stream, r, c, i - 1);
      AddModAssoc(cs[0], InColumn(hash, size, stream, r, c, i - 1), if hash(stream[i - 1], r) % size == c then 1 else 0);
    }
  }

  lemma CellCountsHashes<K>(hash: (K, nat) -> uint32, size: nat, t0: seq<uint32>, stream: seq<K>, r: nat, c: nat, i: nat, p: nat)
    requires Shape(t0, size) && r < 3 && c < size && i <= |stream| && p == r * size + c && p < |t0|
    ensures At(hash, size, t0, stream, i)[p] == Plus32(t0[p], InColumn(hash, size, stream, r, c, i))
  {
    var cs := Cells(hash, size, t0, stream, p);
    forall j | 0 <= j < |stream|
      ensures CountsHash(cs, hash, size, stream, r, c, j)
    {
      CountedCell(hash, size, At(hash, size, t0, stream, j), stream[j], r, c, p);
      assert cs[j + 1] == At(hash, size, t0, stream, j + 1)[p];
    }
    assert cs[0] == At(hash, size, t0, stream, 0)[p];
    CountedHashes(cs, hash, size, stream, r, c, i);
  }

  /** After every packet, counter c of row r has grown by the number of packets whose r-th hash is c modulo the row size, modulo 2^32. */
  lemma CountersCountHashes<K>(hash: (K, nat) -> uint32, size: nat, t0: seq<uint32>, stream: seq<K>, r: nat, c: nat, i: nat)
    requires Shape(t0, size) && r < 3 && c < size && i <= |stream|
    ensures r * size + c < |t0|
    ensures At(hash, size, t0, stream, i)[r * size + c] == Plus32(t0[r * size + c], InColumn(hash, size, stream, r, c, i))
  {
    RowBefore(size, r, c, 3);
    CellCountsHashes(hash, size, t0, stream, r, c, i, r * size + c);
  }

  /** From a cleared table, a key's estimate is the least number of packets that fell into its column in one of the rows. */
  lemma EstimateIsLeastColumn<K>(hash: (K, nat) -> uint32, size: nat, t0: seq<uint32>, stream: seq<K>, key: K, i: nat)
    requires Shape(t0, size) && i <= |stream| < WORD && forall p :: 0 <= p < |t0| ==> t0[p] == 0
    ensures var e := Estimate(hash, size, At(hash, size, t0, stream, i), key);
            var n1 := InColumn(hash, size, stream, 0, hash(key, 0) % size, i);
            var n2 := InColumn(hash, size, stream, 1, hash(key, 1) % size, i);
            var n3 := InColumn(hash, size, stream, 2, hash(key, 2) % size, i);
            e <= n1 && e <= n2 && e <= n3 && e in {n1, n2, n3}
  {
    KeyCell(hash, size, t0, stream, key, 0, i, Pos(hash, size, key, 0));
    KeyCell(hash, size, t0, stream, key, 1, i, Pos(hash, size, key, 1));
    KeyCell(hash, size, t0, stream, key, 2, i, Pos(hash, size, key, 2));
  }

  lemma KeyCell<K>(hash: (K, nat) -> uint32, size: nat, t0: seq<uint32>, stream: seq<K>, key: K, r: nat, i: nat, p: nat)
    requires Shape(t0, size) && i <= |stream| < WORD && r < 3 && p == Pos(hash, size, key, r) < |t0| && t0[p] == 0
    ensures At(hash, size, t0, stream, i)[p] == InColumn(hash, size, stream, r, hash(key, r) % size, i)
  {
    var c := hash(key, r) % size;
    CellCountsHashes(hash, size, t0, stream, r, c, i, p);
    Plus32Small(0, InColumn(hash, size, stream, r, c, i));
  }

  // ---------- In place ----------

  class CountMin<K(==)> {
    const size: nat
    const hash: (K, nat) -> uint32
    const table: array<uint32>

    ghost predicate Valid() {
      size > 0 && table.Length == 3 * size
    }

    constructor (size: nat, hash: (K, nat) -> uint32)
      requires size > 0
      ensures Valid() && fresh(table) && this.size == size && this.hash == hash
      ensures forall p :: 0 <= p < 3 * size ==> table[p] == 0
    {
      this.size, this.hash := size, hash;
      table := new uint32[3 * size](_ => 0);
    }

    /** One packet; true exactly when it leaves the key's estimate at the threshold. */
    method Inc(key: K, threshold: uint32) returns (report: bool)
      requires Valid()
      modifies table
      ensures table[..] == Counted(hash, size, old(table[..]), key)
      ensures report <==> Estimate(hash, size, table[..], key) == threshold
    {
      ghost var t := table[..];
      var p1 := hash(key, 0) % size;
      var p2 := size + hash(key, 1) % size;
      var p3 := size * 2 + hash(key, 2) % size;
      table[p1] := Add32(table[p1], 1);
      var all_grtr_thr := table[p1] >= threshold;
      var one_equal_thr := table[p1] == threshold;
      table[p2] := Add32(table[p2], 1);
      all_grtr_thr := all_grtr_thr && table[p2] >= threshold;
      one_equal_thr := one_equal_thr || table[p2] == threshold;
      table[p3] := Add32(table[p3], 1);
      all_grtr_thr := all_grtr_thr && table[p3] >= threshold;
      one_equal_thr := one_equal_thr || table[p3] == threshold;
      assert p1 == Pos(hash, size, key, 0) && p2 == Pos(hash, size, key, 1) && p3 == Pos(hash, size, key, 2);
      assert table[..] == Bumped(Bumped(Bumped(t, p1), p2), p3);
      return all_grtr_thr && one_equal_thr;
    }

    /** The reset as written: its length uses size - 1, so the last three counters of the third row survive. */
    method Reset()
      requires Valid()
      modifies table
      ensures forall p :: 0 <= p < 3 * size - 3 ==> table[p] == 0
      ensures forall p :: 3 * size - 3 <= p < 3 * size ==> table[p] == old(table[p])
    {
      for i := 0 to 3 * (size - 1)
        invariant forall p :: 0 <= p < i ==> table[p] == 0
        invariant forall p :: i <= p < 3 * size ==> table[p] == old(table[p])
      {
        table[i] := 0;
      }
    }
  }

  /** What survives the reset cannot matter to a key whose estimate is taken from a cleared row: it starts from 0. */
  lemma SurvivorsDoNotRaiseEstimates<K>(hash: (K, nat) -> uint32, size: nat, t: seq<uint32>, key: K)
    requires Shape(t, size) && size > 1 && forall p :: 0 <= p < 3 * size - 3 ==> t[p] == 0
    ensures Estimate(hash, size, t, key) == 0
  {
    EstimateBelowCell(hash, size, t, key, 0);
  }
}
