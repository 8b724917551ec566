/**
 The bucketised cuckoo hash map: buckets of several entries, filled from the front, in a
 primary and a secondary table.
 */
module CuckooBucketMap {
  import opened Machine
  import opened LinearMap

  /** A key, its primary hash and its value.  An unused entry is all zero. */
  datatype Entry = Entry(key: Key, hash: uint32, val: uint32)

  type Bucket = seq<Entry>

  datatype Tables = Tables(pri: seq<Bucket>, sec: seq<Bucket>)

  /** Hash functions and geometry; the bucket index is any function of a hash that stays in range. */
  datatype Hashing = Hashing(hash: Key -> uint32, alt: uint32 -> uint32, index: uint32 -> nat, buckets: nat, width: nat) {
    ghost predicate Ok() {
      buckets > 0 && width > 0 && forall h :: index(h) < buckets
    }

    function Pri(h: uint32): nat {
      index(h)
    }

    function Sec(h: uint32): nat {
      index(alt(h))
    }
  }

  datatype Slot = Slot(secondary: bool, bucket: nat, pos: nat)

  const MAX_TRIES := 32

  predicate Vacant(e: Entry) {
    Empty(e.key)
  }

  /** The keys the map serves: first word and hash both non-zero. */
  predicate Usable(hg: Hashing, k: Key) {
    !Empty(k) && hg.hash(k) != 0
  }

  predicate Coherent(hg: Hashing, e: Entry) {
    if Vacant(e) then e.hash == 0 && e.val == 0 else Usable(hg, e.key) && e.hash == hg.hash(e.key)
  }

  // ---------- One bucket ----------

  /** Position of a key in a bucket, or its length. */
  function KeyIndex(bk: Bucket, k: Key): (i: nat)
    ensures i <= |bk|
    ensures i < |bk| ==> bk[i].key == k
    ensures forall j :: 0 <= j < i ==> bk[j].key != k
  {
    if bk == [] then 0 else if bk[0].key == k then 0 else 1 + KeyIndex(bk[1..], k)
  }

  predicate Has(bk: Bucket, k: Key) {
    KeyIndex(bk, k) < |bk|
  }

  function ValIn(bk: Bucket, k: Key): Option<uint32> {
    if Has(bk, k) then Some(bk[KeyIndex(bk, k)].val) else None
  }

  ghost predicate Full(bk: Bucket) {
    forall j :: 0 <= j < |bk| ==> !Vacant(bk[j])
  }

  /** Filled from the front, no key twice, stored hashes right. */
  ghost predicate BucketOk(hg: Hashing, bk: Bucket) {
    && |bk| == hg.width
    && (forall i, j :: 0 <= i < j < |bk| && Vacant(bk[i]) ==> Vacant(bk[j]))
    && (forall i, j :: 0 <= i < j < |bk| && !Vacant(bk[i]) ==> bk[i].key != bk[j].key)
    && (forall i :: 0 <= i < |bk| ==> Coherent(hg, bk[i]))
  }

  lemma PutKeepsOk(hg: Hashing, bk: Bucket, j: nat, e: Entry)
    requires BucketOk(hg, bk) && j < |bk| && (forall i :: 0 <= i < j ==> !Vacant(bk[i]))
    requires !Vacant(e) && Coherent(hg, e) && !Has(bk, e.key)
    ensures BucketOk(hg, bk[j := e])
    ensures Full(bk) ==> Full(bk[j := e])
  {
  }

  lemma PutLookup(bk: Bucket, j: nat, e: Entry, k: Key)
    requires j < |bk| && k != e.key && k != bk[j].key
    ensures Has(bk[j := e], k) == Has(bk, k) && ValIn(bk[j := e], k) == ValIn(bk, k)
  {
    var bk' := bk[j := e];
    var i, i' := KeyIndex(bk, k), KeyIndex(bk', k);
    assert i < |bk| ==> bk'[i].key == k;
    assert i' < |bk| ==> bk[i'].key == k;
  }

  /** Overwriting an entry with no vacancy before it by an entry whose key is not in the bucket. */
  lemma PutInBucket(hg: Hashing, bk: Bucket, j: nat, e: Entry)
    requires BucketOk(hg, bk) && j < |bk| && (forall i :: 0 <= i < j ==> !Vacant(bk[i]))
    requires !Vacant(e) && Coherent(hg, e) && !Has(bk, e.key)
    ensures BucketOk(hg, bk[j := e])
    ensures Full(bk) ==> Full(bk[j := e])
    ensures Has(bk[j := e], e.key) && ValIn(bk[j := e], e.key) == Some(e.val)
    ensures !Vacant(bk[j]) ==> !Has(bk[j := e], bk[j].key) && ValIn(bk, bk[j].key) == Some(bk[j].val)
    ensures forall k :: !Empty(k) && k != e.key && k != bk[j].key ==>
              Has(bk[j := e], k) == Has(bk, k) && ValIn(bk[j := e], k) == ValIn(bk, k)
  {
    PutKeepsOk(hg, bk, j, e);
    assert bk[j := e][j].key == e.key;
    forall k | !Empty(k) && k != e.key && k != bk[j].key
      ensures Has(bk[j := e], k) == Has(bk, k) && ValIn(bk[j := e], k) == ValIn(bk, k)
    {
      PutLookup(bk, j, e, k);
    }
  }

  // ---------- Both tables and the entry in hand ----------

  ghost predicate Placed(hg: Hashing, t: Tables)
    requires hg.Ok() && |t.pri| == |t.sec| == hg.buckets
  {
    && (forall b :: 0 <= b < hg.buckets ==> BucketOk(hg, t.pri[b]) && BucketOk(hg, t.sec[b]))
    && (forall b, j :: 0 <= b < hg.buckets && 0 <= j < |t.pri[b]| && !Vacant(t.pri[b][j]) ==> hg.Pri(t.pri[b][j].hash) == b)
    && (forall b, j :: 0 <= b < hg.buckets && 0 <= j < |t.sec[b]| && !Vacant(t.sec[b][j]) ==> hg.Sec(t.sec[b][j].hash) == b)
  }

  ghost predicate Sized(hg: Hashing, t: Tables) {
    hg.Ok() && |t.pri| == |t.sec| == hg.buckets
  }

  function PriOf(hg: Hashing, t: Tables, k: Key): Bucket
    requires Sized(hg, t)
  {
    t.pri[hg.Pri(hg.hash(k))]
  }

  function SecOf(hg: Hashing, t: Tables, k: Key): Bucket
    requires Sized(hg, t)
  {
    t.sec[hg.Sec(hg.hash(k))]
  }

  /** A key is in its secondary bucket only while its primary bucket is full, and never in both. */
  ghost predicate SecondaryRule(hg: Hashing, t: Tables, k: Key)
    requires Sized(hg, t)
  {
    Has(SecOf(hg, t, k), k) ==> Full(PriOf(hg, t, k)) && !Has(PriOf(hg, t, k), k)
  }

  ghost predicate Absent(hg: Hashing, t: Tables, k: Key)
    requires Sized(hg, t)
  {
    !Has(PriOf(hg, t, k), k) && !Has(SecOf(hg, t, k), k)
  }

  /** The invariant; an entry in hand is stored nowhere and its primary bucket is full. */
  ghost predicate Inv(hg: Hashing, t: Tables, hand: Entry) {
    && Sized(hg, t) && Placed(hg, t)
    && (forall k :: Usable(hg, k) ==> SecondaryRule(hg, t, k))
    && Coherent(hg, hand)
    && (!Vacant(hand) ==> Absent(hg, t, hand.key) && Full(PriOf(hg, t, hand.key)))
  }

  /** What the tables and the entry in hand say about a key. */
  function Lookup(hg: Hashing, t: Tables, hand: Entry, k: Key): Option<uint32>
    requires Sized(hg, t)
  {
    if hand.key == k then Some(hand.val)
    else if Has(PriOf(hg, t, k), k) then ValIn(PriOf(hg, t, k), k)
    else ValIn(SecOf(hg, t, k), k)
  }

  function SetPri(t: Tables, b: nat, j: nat, e: Entry): Tables
    requires b < |t.pri| && j < |t.pri[b]|
  {
    t.(pri := t.pri[b := t.pri[b][j := e]])
  }

  function SetSec(t: Tables, b: nat, j: nat, e: Entry): Tables
    requires b < |t.sec| && j < |t.sec[b]|
  {
    t.(sec := t.sec[b := t.sec[b][j := e]])
  }

  /** Displacing from a full primary bucket: nothing changes for any key. */
  lemma KickPriLookup(hg: Hashing, t: Tables, hand: Entry, j: nat, k: Key)
    requires Inv(hg, t, hand) && !Vacant(hand) && j < hg.width && Usable(hg, k)
    ensures var b := hg.Pri(hand.hash);
            var t', out := SetPri(t, b, j, hand), t.pri[b][j];
            && Lookup(hg, t', out, k) == Lookup(hg, t, hand, k)
            && SecondaryRule(hg, t', k)
            && (k == out.key ==> Absent(hg, t', k) && Full(PriOf(hg, t', k)))
  {
    var b := hg.Pri(hand.hash);
    assert BucketOk(hg, t.pri[b]);
    PutInBucket(hg, t.pri[b], j, hand);
    assert SecondaryRule(hg, t, k);
  }

  lemma KickPri(hg: Hashing, t: Tables, hand: Entry, j: nat)
    requires Inv(hg, t, hand) && !Vacant(hand) && j < hg.width
    ensures var b := hg.Pri(hand.hash);
            var t', out := SetPri(t, b, j, hand), t.pri[b][j];
            && !Vacant(out) && Inv(hg, t', out)
            && forall k :: Usable(hg, k) ==> Lookup(hg, t', out, k) == Lookup(hg, t, hand, k)
  {
    var b := hg.Pri(hand.hash);
    var t', out := SetPri(t, b, j, hand), t.pri[b][j];
    assert BucketOk(hg, t.pri[b]);
    assert Placed(hg, t') by { PutInBucket(hg, t.pri[b], j, hand); }
    assert !Vacant(out) && Coherent(hg, out);
    forall k | Usable(hg, k)
      ensures Lookup(hg, t', out, k) == Lookup(hg, t, hand, k) && SecondaryRule(hg, t', k)
      ensures k == out.key ==> Absent(hg, t', k) && Full(PriOf(hg, t', k))
    {
      KickPriLookup(hg, t, hand, j, k);
    }
  }

  /** Placing into a secondary bucket, at its first vacancy or, when it has none, at its front: nothing changes for any key. */
  lemma KickSecLookup(hg: Hashing, t: Tables, hand: Entry, j: nat, k: Key)
    requires Inv(hg, t, hand) && !Vacant(hand) && j < hg.width && Usable(hg, k)
    requires forall i :: 0 <= i < j ==> !Vacant(t.sec[hg.Sec(hand.hash)][i])
    ensures var b := hg.Sec(hand.hash);
            var t', out := SetSec(t, b, j, hand), t.sec[b][j];
            && Lookup(hg, t', out, k) == Lookup(hg, t, hand, k)
            && SecondaryRule(hg, t', k)
            && (k == out.key ==> Absent(hg, t', k) && Full(PriOf(hg, t', k)))
  {
    var b := hg.Sec(hand.hash);
    var bk := t.sec[b];
    assert BucketOk(hg, bk);
    PutInBucket(hg, bk, j, hand);
    assert !Vacant(bk[j]) ==> Has(bk, bk[j].key);
    assert SecondaryRule(hg, t, k);
  }

  lemma KickSec(hg: Hashing, t: Tables, hand: Entry, j: nat)
    requires Inv(hg, t, hand) && !Vacant(hand) && j < hg.width
    requires forall i :: 0 <= i < j ==> !Vacant(t.sec[hg.Sec(hand.hash)][i])
    ensures var b := hg.Sec(hand.hash);
            var t', out := SetSec(t, b, j, hand), t.sec[b][j];
            && Inv(hg, t', out)
            && forall k :: Usable(hg, k) ==> Lookup(hg, t', out, k) == Lookup(hg, t, hand, k)
  {
    var b := hg.Sec(hand.hash);
    var t', out := SetSec(t, b, j, hand), t.sec[b][j];
    assert BucketOk(hg, t.sec[b]);
    assert Placed(hg, t') by { PutInBucket(hg, t.sec[b], j, hand); }
    assert Coherent(hg, out);
    forall k | Usable(hg, k)
      ensures Lookup(hg, t', out, k) == Lookup(hg, t, hand, k) && SecondaryRule(hg, t', k)
      ensures k == out.key ==> Absent(hg, t', k) && Full(PriOf(hg, t', k))
    {
      KickSecLookup(hg, t, hand, j, k);
    }
  }

  /** A vacancy in a key's primary bucket proves that the key is not in its secondary one: inserting there makes no duplicate. */
  lemma FillPri(hg: Hashing, t: Tables, zero: Entry, k: Key, j: nat)
    requires Inv(hg, t, zero) && Vacant(zero) && Usable(hg, k) && !Has(PriOf(hg, t, k), k)
    requires j < hg.width && Vacant(PriOf(hg, t, k)[j]) && forall i :: 0 <= i < j ==> !Vacant(PriOf(hg, t, k)[i])
    ensures !Has(SecOf(hg, t, k), k)
    ensures var t' := SetPri(t, hg.Pri(hg.hash(k)), j, Entry(k, hg.hash(k), 0));
            && Inv(hg, t', zero)
            && forall l :: Usable(hg, l) ==> Lookup(hg, t', zero, l) == if l == k then Some(0) else Lookup(hg, t, zero, l)
  {
    var b, e := hg.Pri(hg.hash(k)), Entry(k, hg.hash(k), 0);
    assert BucketOk(hg, t.pri[b]) && SecondaryRule(hg, t, k);
    var t' := SetPri(t, b, j, e);
    assert Placed(hg, t') by { PutInBucket(hg, t.pri[b], j, e); }
    forall l | Usable(hg, l)
      ensures SecondaryRule(hg, t', l)
      ensures Lookup(hg, t', zero, l) == if l == k then Some(0) else Lookup(hg, t, zero, l)
    {
      FillPriLookup(hg, t, zero, k, j, l);
    }
  }

  lemma FillPriLookup(hg: Hashing, t: Tables, zero: Entry, k: Key, j: nat, l: Key)
    requires Inv(hg, t, zero) && Vacant(zero) && Usable(hg, k) && !Has(PriOf(hg, t, k), k) && Usable(hg, l)
    requires j < hg.width && Vacant(PriOf(hg, t, k)[j]) && forall i :: 0 <= i < j ==> !Vacant(PriOf(hg, t, k)[i])
    ensures var t' := SetPri(t, hg.Pri(hg.hash(k)), j, Entry(k, hg.hash(k), 0));
            && SecondaryRule(hg, t', l)
            && Lookup(hg, t', zero, l) == if l == k then Some(0) else Lookup(hg, t, zero, l)
  {
    var bk := PriOf(hg, t, k);
    assert BucketOk(hg, bk) && SecondaryRule(hg, t, k) && SecondaryRule(hg, t, l);
    PutInBucket(hg, bk, j, Entry(k, hg.hash(k), 0));
  }

  predicate Stored(t: Tables, s: Slot, k: Key) {
    var tbl := if s.secondary then t.sec else t.pri;
    s.bucket < |tbl| && s.pos < |tbl[s.bucket]| && tbl[s.bucket][s.pos].key == k
  }

  /** At every half-step of the chain that started from t0 with e0 in hand. */
  ghost predicate ChainInv(hg: Hashing, t0: Tables, e0: Entry, t: Tables, hand: Entry, key: Key, ret: Slot) {
    && Sized(hg, t0) && Inv(hg, t, hand)
    && (forall k :: Usable(hg, k) ==> Lookup(hg, t, hand, k) == Lookup(hg, t0, e0, k))
    && (hand.key != key ==> Stored(t, ret, key))
  }

  lemma ChainStart(hg: Hashing, t: Tables, zero: Entry, key: Key, ret: Slot)
    requires Inv(hg, t, zero) && Vacant(zero) && Usable(hg, key) && Absent(hg, t, key) && Full(PriOf(hg, t, key))
    ensures var e := Entry(key, hg.hash(key), 0);
            && ChainInv(hg, t, e, t, e, key, ret)
            && forall k :: Usable(hg, k) ==> Lookup(hg, t, e, k) == if k == key then Some(0) else Lookup(hg, t, zero, k)
  {
  }

  lemma ChainPri(hg: Hashing, t0: Tables, e0: Entry, t: Tables, hand: Entry, key: Key, ret: Slot, j: nat)
    requires ChainInv(hg, t0, e0, t, hand, key, ret) && !Vacant(hand) && j < hg.width
    ensures var b := hg.Pri(hand.hash);
            && j < |t.pri[b]| && !Vacant(t.pri[b][j])
            && ChainInv(hg, t0, e0, SetPri(t, b, j, hand), t.pri[b][j], key, if hand.key == key then Slot(false, b, j) else ret)
  {
    KickPri(hg, t, hand, j);
  }

  lemma ChainSec(hg: Hashing, t0: Tables, e0: Entry, t: Tables, hand: Entry, key: Key, ret: Slot, j: nat)
    requires ChainInv(hg, t0, e0, t, hand, key, ret) && !Vacant(hand) && j < hg.width
    requires forall i :: 0 <= i < j ==> !Vacant(t.sec[hg.Sec(hand.hash)][i])
    ensures var b := hg.Sec(hand.hash);
            && j < |t.sec[b]|
            && ChainInv(hg, t0, e0, SetSec(t, b, j, hand), t.sec[b][j], key, if hand.key == key then Slot(true, b, j) else ret)
  {
    KickSec(hg, t, hand, j);
  }

  // ---------- The chain, read off the old tables ----------

  function FreeFrom(bk: Bucket, i: nat): (j: nat)
    requires i <= |bk|
    ensures i <= j <= |bk| && (forall q :: i <= q < j ==> !Vacant(bk[q])) && (j < |bk| ==> Vacant(bk[j]))
    decreases |bk| - i
  {
    if i == |bk| || Vacant(bk[i]) then i else FreeFrom(bk, i + 1)
  }

  /** The place that a displaced entry takes in a bucket: its first vacancy, else its first entry. */
  function Place(bk: Bucket): (j: nat)
    ensures j <= |bk| && (bk != [] ==> j < |bk|)
    ensures forall q :: 0 <= q < j ==> !Vacant(bk[q])
  {
    var j := FreeFrom(bk, 0);
    if j < |bk| then j else 0
  }

  function Pushed(bk: Bucket, e: Entry): Bucket {
    if bk == [] then bk else bk[Place(bk) := e]
  }

  function PushedOut(bk: Bucket, e: Entry): Entry {
    if bk == [] then e else bk[Place(bk)]
  }

  /**
   The entry in hand after n half-steps of the chain that starts with e in hand: what its
   predecessor pushed out of its bucket, as the old tables and the earlier half-steps left it.
   */
  function HandAt(hg: Hashing, t: Tables, e: Entry, n: nat): Entry
    requires Sized(hg, t)
    decreases n, 1
  {
    if n == 0 then e
    else PushedOut(BucketAfter(hg, t, e, n % 2 == 0, n - 1, PosAt(hg, t, e, n - 1)), HandAt(hg, t, e, n - 1))
  }

  /** The bucket of half-step n: even ones primary, odd ones secondary. */
  function PosAt(hg: Hashing, t: Tables, e: Entry, n: nat): (b: nat)
    requires Sized(hg, t)
    ensures b < hg.buckets
    decreases n, 2
  {
    var h := HandAt(hg, t, e, n).hash;
    if n % 2 == 0 then hg.index(h) else hg.index(hg.alt(h))
  }

  /** A bucket after the first m half-steps. */
  function BucketAfter(hg: Hashing, t: Tables, e: Entry, secondary: bool, m: nat, b: nat): Bucket
    requires Sized(hg, t) && b < hg.buckets
    decreases m, 2
  {
    if m == 0 then (if secondary then t.sec[b] else t.pri[b])
    else if (m - 1) % 2 == (if secondary then 1 else 0) && PosAt(hg, t, e, m - 1) == b
    then Pushed(BucketAfter(hg, t, e, secondary, m - 1, b), HandAt(hg, t, e, m - 1))
    else BucketAfter(hg, t, e, secondary, m - 1, b)
  }

  predicate VacantAt(hg: Hashing, t: Tables, e: Entry, m: nat)
    requires Sized(hg, t)
  {
    Vacant(HandAt(hg, t, e, m))
  }

  ghost predicate NoneVacant(hg: Hashing, t: Tables, e: Entry, n: nat)
    requires Sized(hg, t)
  {
    forall m :: 1 <= m <= n ==> !VacantAt(hg, t, e, m)
  }

  // ---------- The chain, step by step ----------

  function PushPri(hg: Hashing, t: Tables, hand: Entry): (r: (Tables, Entry))
    requires Sized(hg, t)
    ensures Sized(hg, r.0)
  {
    var b := hg.index(hand.hash);
    (t.(pri := t.pri[b := Pushed(t.pri[b], hand)]), PushedOut(t.pri[b], hand))
  }

  function PushSec(hg: Hashing, t: Tables, hand: Entry): (r: (Tables, Entry))
    requires Sized(hg, t)
    ensures Sized(hg, r.0)
  {
    var b := hg.index(hg.alt(hand.hash));
    (t.(sec := t.sec[b := Pushed(t.sec[b], hand)]), PushedOut(t.sec[b], hand))
  }

  function PutSlot(hg: Hashing, t: Tables, h: Entry, secondary: bool): Slot
    requires Sized(hg, t)
  {
    if secondary then Slot(true, hg.index(hg.alt(h.hash)), Place(t.sec[hg.index(hg.alt(h.hash))]))
    else Slot(false, hg.index(h.hash), Place(t.pri[hg.index(h.hash)]))
  }

  ghost predicate AtStep(hg: Hashing, t0: Tables, e0: Entry, t: Tables, hand: Entry, n: nat)
    requires Sized(hg, t0)
  {
    && Sized(hg, t) && hand == HandAt(hg, t0, e0, n)
    && (forall b :: 0 <= b < hg.buckets ==> t.pri[b] == BucketAfter(hg, t0, e0, false, n, b))
    && (forall b :: 0 <= b < hg.buckets ==> t.sec[b] == BucketAfter(hg, t0, e0, true, n, b))
  }

  lemma StartsAtStep(hg: Hashing, t: Tables, e: Entry)
    requires Sized(hg, t)
    ensures AtStep(hg, t, e, t, e, 0)
  {
  }

  lemma PriAtStep(hg: Hashing, t0: Tables, e0: Entry, t: Tables, hand: Entry, n: nat)
    requires Sized(hg, t0) && AtStep(hg, t0, e0, t, hand, n) && n % 2 == 0
    ensures var (t', out) := PushPri(hg, t, hand); AtStep(hg, t0, e0, t', out, n + 1)
  {
    assert PosAt(hg, t0, e0, n) == hg.index(hand.hash);
  }

  lemma SecAtStep(hg: Hashing, t0: Tables, e0: Entry, t: Tables, hand: Entry, n: nat)
    requires Sized(hg, t0) && AtStep(hg, t0, e0, t, hand, n) && n % 2 == 1
    ensures var (t', out) := PushSec(hg, t, hand); AtStep(hg, t0, e0, t', out, n + 1)
  {
    assert PosAt(hg, t0, e0, n) == hg.index(hg.alt(hand.hash));
  }

  lemma PushedIsSet(hg: Hashing, t: Tables, hand: Entry)
    requires Inv(hg, t, hand) && !Vacant(hand)
    ensures var b, c := hg.Pri(hand.hash), hg.Sec(hand.hash);
            && Place(t.pri[b]) < hg.width && Place(t.sec[c]) < hg.width && |t.pri[b]| == |t.sec[c]| == hg.width
            && PushPri(hg, t, hand) == (SetPri(t, b, Place(t.pri[b]), hand), t.pri[b][Place(t.pri[b])])
            && PushSec(hg, t, hand) == (SetSec(t, c, Place(t.sec[c]), hand), t.sec[c][Place(t.sec[c])])
            && Place(t.pri[b]) == 0
  {
    var b, c := hg.Pri(hand.hash), hg.Sec(hand.hash);
    assert BucketOk(hg, t.pri[b]) && BucketOk(hg, t.sec[c]);
    assert Full(PriOf(hg, t, hand.key));
  }

  lemma ChainStep(hg: Hashing, t0: Tables, e0: Entry, t: Tables, hand: Entry, key: Key, ret: Slot, secondary: bool)
    requires ChainInv(hg, t0, e0, t, hand, key, ret) && !Vacant(hand)
    ensures var (t', out) := if secondary then PushSec(hg, t, hand) else PushPri(hg, t, hand);
            ChainInv(hg, t0, e0, t', out, key, if hand.key != key then ret else PutSlot(hg, t, hand, secondary))
  {
    PushedIsSet(hg, t, hand);
    if secondary {
      ChainSec(hg, t0, e0, t, hand, key, ret, Place(t.sec[hg.Sec(hand.hash)]));
    } else {
      ChainPri(hg, t0, e0, t, hand, key, ret, Place(t.pri[hg.Pri(hand.hash)]));
    }
  }

  // ---------- The chain, link by link ----------

  /** Tables, entry in hand and noted slot of the wanted key. */
  datatype Link = Link(t: Tables, hand: Entry, ret: Slot)

  /** One half-step. */
  function Next(hg: Hashing, key: Key, l: Link, secondary: bool): (r: Link)
    requires Sized(hg, l.t)
    ensures Sized(hg, r.t)
  {
    var (t, out) := if secondary then PushSec(hg, l.t, l.hand) else PushPri(hg, l.t, l.hand);
    Link(t, out, if l.hand.key == key then PutSlot(hg, l.t, l.hand, secondary) else l.ret)
  }

  ghost predicate LinkAt(hg: Hashing, key: Key, ch: seq<Link>, m: nat)
    requires m + 1 < |ch|
  {
    Sized(hg, ch[m].t) && !Vacant(ch[m].hand) && ch[m + 1] == Next(hg, key, ch[m], m % 2 == 1)
  }

  /** The links of a chain, half-step by half-step; all hands but the last are not vacant. */
  ghost predicate Links(hg: Hashing, key: Key, ch: seq<Link>) {
    |ch| > 0 && Sized(hg, ch[0].t) && forall m :: 0 <= m < |ch| - 1 ==> LinkAt(hg, key, ch, m)
  }

  lemma LinksSnoc(hg: Hashing, key: Key, ch: seq<Link>, l: Link)
    requires Links(hg, key, ch)
    requires var last := ch[|ch| - 1]; Sized(hg, last.t) && !Vacant(last.hand) && l == Next(hg, key, last, (|ch| - 1) % 2 == 1)
    ensures Links(hg, key, ch + [l])
  {
    var ch' := ch + [l];
    forall m | 0 <= m < |ch|
      ensures LinkAt(hg, key, ch', m)
    {
      assert m < |ch| - 1 ==> LinkAt(hg, key, ch, m);
    }
  }

  lemma {:induction false} LinksAtStep(hg: Hashing, key: Key, ch: seq<Link>, m: nat)
    requires Links(hg, key, ch) && m < |ch|
    ensures AtStep(hg, ch[0].t, ch[0].hand, ch[m].t, ch[m].hand, m)
  {
    if m == 0 {
      StartsAtStep(hg, ch[0].t, ch[0].hand);
    } else {
      LinksAtStep(hg, key, ch, m - 1);
      assert LinkAt(hg, key, ch, m - 1);
      if (m - 1) % 2 == 0 {
        PriAtStep(hg, ch[0].t, ch[0].hand, ch[m - 1].t, ch[m - 1].hand, m - 1);
      } else {
        SecAtStep(hg, ch[0].t, ch[0].hand, ch[m - 1].t, ch[m - 1].hand, m - 1);
      }
    }
  }

  /** Every link keeps the invariant and what every key maps to. */
  lemma {:induction false} LinksKeep(hg: Hashing, key: Key, ch: seq<Link>, m: nat)
    requires Links(hg, key, ch) && m < |ch| && Inv(hg, ch[0].t, ch[0].hand) && ch[0].hand.key == key
    ensures ChainInv(hg, ch[0].t, ch[0].hand, ch[m].t, ch[m].hand, key, ch[m].ret)
  {
    if m > 0 {
      LinksKeep(hg, key, ch, m - 1);
      assert LinkAt(hg, key, ch, m - 1);
      ChainStep(hg, ch[0].t, ch[0].hand, ch[m - 1].t, ch[m - 1].hand, key, ch[m - 1].ret, (m - 1) % 2 == 1);
    }
  }

  /** A chain that ends at its first vacant hand, or after 64 half-steps without one. */
  lemma LinksEnd(hg: Hashing, key: Key, ch: seq<Link>)
    requires Links(hg, key, ch) && 1 < |ch| <= 65 && (Vacant(ch[|ch| - 1].hand) || |ch| == 65)
    ensures Vacant(ch[|ch| - 1].hand) <==> !NoneVacant(hg, ch[0].t, ch[0].hand, 64)
  {
    var t0, e0 := ch[0].t, ch[0].hand;
    forall m | 0 <= m < |ch|
      ensures VacantAt(hg, t0, e0, m) == Vacant(ch[m].hand)
    {
      LinksAtStep(hg, key, ch, m);
    }
    forall m | 0 <= m < |ch| - 1
      ensures !Vacant(ch[m].hand)
    {
      assert LinkAt(hg, key, ch, m);
    }
    assert VacantAt(hg, t0, e0, |ch| - 1) == Vacant(ch[|ch| - 1].hand);
  }

  /** What a finished chain leaves. */
  lemma LinksResult(hg: Hashing, key: Key, ch: seq<Link>)
    requires Links(hg, key, ch) && 1 < |ch| <= 65 && (Vacant(ch[|ch| - 1].hand) || |ch| == 65)
    requires Inv(hg, ch[0].t, ch[0].hand) && ch[0].hand.key == key
    ensures var last := ch[|ch| - 1];
            && ChainInv(hg, ch[0].t, ch[0].hand, last.t, last.hand, key, last.ret)
            && (Vacant(last.hand) <==> !NoneVacant(hg, ch[0].t, ch[0].hand, 64))
  {
    LinksKeep(hg, key, ch, |ch| - 1);
    LinksEnd(hg, key, ch);
  }

  /** What the half-steps themselves need: entries whose hash is zero are the vacant ones. */
  ghost predicate Regular(hg: Hashing, t: Tables) {
    Sized(hg, t) && forall b :: 0 <= b < hg.buckets ==> RegularBucket(hg, t.pri[b]) && RegularBucket(hg, t.sec[b])
  }

  ghost predicate RegularBucket(hg: Hashing, bk: Bucket) {
    |bk| == hg.width && forall j :: 0 <= j < |bk| ==> Coherent(hg, bk[j])
  }

  lemma StartsRegular(hg: Hashing, t: Tables, e: Entry)
    requires Inv(hg, t, e) && !Vacant(e)
    ensures Regular(hg, t) && Place(PriOf(hg, t, e.key)) == 0
  {
    forall b | 0 <= b < hg.buckets
      ensures RegularBucket(hg, t.pri[b]) && RegularBucket(hg, t.sec[b])
    {
      assert BucketOk(hg, t.pri[b]) && BucketOk(hg, t.sec[b]);
    }
    assert Full(PriOf(hg, t, e.key));
  }

  lemma NextIsRegular(hg: Hashing, key: Key, l: Link, secondary: bool)
    requires Regular(hg, l.t) && Coherent(hg, l.hand)
    ensures var r := Next(hg, key, l, secondary); Regular(hg, r.t) && Coherent(hg, r.hand)
  {
    var b := if secondary then hg.index(hg.alt(l.hand.hash)) else hg.index(l.hand.hash);
    var bk := if secondary then l.t.sec[b] else l.t.pri[b];
    assert RegularBucket(hg, bk);
    assert RegularBucket(hg, Pushed(bk, l.hand));
  }

  lemma EmptyTables(hg: Hashing, zero: Entry, bk: Bucket, t: Tables)
    requires hg.Ok() && Vacant(zero) && Coherent(hg, zero) && |bk| == hg.width && |t.pri| == |t.sec| == hg.buckets
    requires (forall j :: 0 <= j < |bk| ==> bk[j] == zero) && forall b :: 0 <= b < hg.buckets ==> t.pri[b] == bk && t.sec[b] == bk
    ensures Inv(hg, t, zero) && forall k :: Usable(hg, k) ==> Lookup(hg, t, zero, k) == None
  {
    assert BucketOk(hg, bk);
    forall k | Usable(hg, k)
      ensures !Has(bk, k)
    {
    }
  }

  // ---------- The map in place ----------

  class HashMapCuckooBucket {
    const hg: Hashing
    const tblpri: array<Bucket>
    const tblsec: array<Bucket>
    /** The zero row. */
    const zero: Entry

    ghost predicate Shape() {
      && hg.Ok() && Vacant(zero) && Coherent(hg, zero)
      && tblpri.Length == tblsec.Length == hg.buckets && tblpri != tblsec
    }

    ghost function T(): Tables
      reads tblpri, tblsec
    {
      Tables(tblpri[..], tblsec[..])
    }

    ghost predicate Valid()
      reads tblpri, tblsec
    {
      Shape() && Inv(hg, T(), zero)
    }

    /** The value stored for a key. */
    ghost function Get(k: Key): Option<uint32>
      requires Shape() && Usable(hg, k)
      reads tblpri, tblsec
    {
      Lookup(hg, T(), zero, k)
    }

    constructor (hg: Hashing, zero: Entry)
      requires hg.Ok() && Vacant(zero) && Coherent(hg, zero)
      ensures Valid() && fresh(tblpri) && fresh(tblsec) && this.hg == hg && this.zero == zero
      ensures forall k :: Usable(hg, k) ==> Get(k) == None
    {
      this.hg, this.zero := hg, zero;
      var bk := seq(hg.width, _ => zero);
      tblpri := new Bucket[hg.buckets](_ => bk);
      tblsec := new Bucket[hg.buckets](_ => bk);
      new;
      EmptyTables(hg, zero, bk, T());
    }

    method WritePri(b: nat, j: nat, e: Entry)
      requires Shape() && b < hg.buckets && j < |tblpri[b]|
      modifies tblpri
      ensures T() == SetPri(old(T()), b, j, e)
    {
      tblpri[b] := tblpri[b][j := e];
      assert tblpri[..] == old(tblpri[..])[b := old(tblpri[b])[j := e]];
    }

    method WriteSec(b: nat, j: nat, e: Entry)
      requires Shape() && b < hg.buckets && j < |tblsec[b]|
      modifies tblsec
      ensures T() == SetSec(old(T()), b, j, e)
    {
      tblsec[b] := tblsec[b][j := e];
      assert tblsec[..] == old(tblsec[..])[b := old(tblsec[b])[j := e]];
    }

    /** Searches a bucket for the key up to the first vacancy: the key's entry, else the vacancy, else nothing. */
    static method SearchBucket(hg: Hashing, bk: Bucket, key: Key) returns (j: nat, found: bool)
      requires BucketOk(hg, bk) && Usable(hg, key)
      ensures j <= |bk|
      ensures found == Has(bk, key)
      ensures found ==> j < |bk| && bk[j].key == key
      ensures !found ==> (forall i :: 0 <= i < j ==> !Vacant(bk[i])) && (if j < |bk| then Vacant(bk[j]) else Full(bk))
    {
      j := 0;
      while j < |bk|
        invariant 0 <= j <= |bk|
        invariant forall i :: 0 <= i < j ==> bk[i].key != key && !Vacant(bk[i])
      {
        assert Coherent(hg, bk[j]);
        if bk[j].key == key {
          assert KeyIndex(bk, key) == j;
          return j, true;
        }
        if bk[j].hash == 0 {
          assert forall i :: j < i < |bk| ==> Vacant(bk[i]);
          return j, false;
        }
        j := j + 1;
      }
      found := false;
    }

    /** The first vacancy of a bucket, or its first entry when it is full. */
    static method FindEmptyOrFirst(hg: Hashing, bk: Bucket) returns (j: nat)
      requires RegularBucket(hg, bk) && hg.width > 0
      ensures j < |bk|
      ensures forall i :: 0 <= i < j ==> !Vacant(bk[i])
      ensures if Full(bk) then j == 0 else Vacant(bk[j])
      ensures j == Place(bk)
    {
      for i := 0 to |bk|
        invariant forall q :: 0 <= q < i ==> !Vacant(bk[q])
      {
        assert Coherent(hg, bk[i]);
        if bk[i].hash == 0 {
          return i;
        }
      }
      return 0;
    }

    /**
     Finds the key or inserts it with value 0.  The result is None when the chain is given up
     after 32 rounds, where the source aborts; `left` is the entry then still in hand.
     */
    method FindOrInsertKey(key: Key) returns (slot: Option<Slot>, ghost left: Entry)
      requires Valid() && Usable(hg, key)
      modifies tblpri, tblsec
      ensures Shape() && Inv(hg, T(), left)
      ensures slot.Some? <==> Vacant(left)
      ensures slot.Some? ==> Valid() && Stored(T(), slot.value, key)
      ensures old(Get(key)).Some? ==> slot.Some? && T() == old(T())
      ensures slot.None? <==>
                old(Get(key)).None? && old(Full(PriOf(hg, T(), key)) && Full(SecOf(hg, T(), key)))
                && NoneVacant(hg, old(T()), Entry(key, hg.hash(key), 0), 64)
      ensures old(Get(key)).None? && old(!Full(PriOf(hg, T(), key))) ==> slot.Some? && !slot.value.secondary
      ensures old(Get(key)).None? && old(Full(PriOf(hg, T(), key)) && !Full(SecOf(hg, T(), key))) ==> slot.Some? && slot.value.secondary
      ensures forall k :: Usable(hg, k) ==>
                Lookup(hg, T(), left, k) == if k == key && old(Get(k)).None? then Some(0) else old(Get(k))
    {
      left := zero;
      var h := hg.hash(key);
      var b, c := hg.Pri(h), hg.Sec(h);
      ghost var t := T();
      assert SecondaryRule(hg, t, key) && BucketOk(hg, t.pri[b]) && BucketOk(hg, t.sec[c]);
      var j, found := SearchBucket(hg, tblpri[b], key);
      if found {
        return Some(Slot(false, b, j)), left;
      }
      if j < |tblpri[b]| {
        FillPri(hg, t, zero, key, j);
        WritePri(b, j, tblpri[b][j].(key := key, hash := h));
        return Some(Slot(false, b, j)), left;
      }
      j, found := SearchBucket(hg, tblsec[c], key);
      if found {
        return Some(Slot(true, c, j)), left;
      }
      if j < |tblsec[c]| {
        left := tblsec[c][j];
        KickSec(hg, t, Entry(key, h, 0), j);
        WriteSec(c, j, tblsec[c][j].(key := key, hash := h));
        return Some(Slot(true, c, j)), left;
      }
      slot, left := KickChain(key);
    }

    /** The chain is given up exactly when none of its first 64 hands is vacant. */
    method KickChain(key: Key) returns (slot: Option<Slot>, ghost left: Entry)
      requires Valid() && Usable(hg, key) && Absent(hg, T(), key) && Full(PriOf(hg, T(), key))
      modifies tblpri, tblsec
      ensures Shape() && Inv(hg, T(), left)
      ensures slot.Some? <==> Vacant(left)
      ensures slot.Some? ==> Stored(T(), slot.value, key)
      ensures slot.None? <==> NoneVacant(hg, old(T()), Entry(key, hg.hash(key), 0), 64)
      ensures forall k :: Usable(hg, k) ==> Lookup(hg, T(), left, k) == if k == key then Some(0) else old(Get(k))
    {
      ghost var t0, e0 := T(), Entry(key, hg.hash(key), 0);
      ChainStart(hg, t0, zero, key, Slot(false, hg.Pri(hg.hash(key)), 0));
      StartsRegular(hg, t0, e0);
      ghost var ch;
      slot, left, ch := RunChain(key);
      LinksResult(hg, key, ch);
    }

    /** The loop, with its links: up to the first vacant hand or the 64th. */
    method RunChain(key: Key) returns (slot: Option<Slot>, ghost left: Entry, ghost ch: seq<Link>)
      requires Shape() && Usable(hg, key) && Regular(hg, T()) && Place(PriOf(hg, T(), key)) == 0
      modifies tblpri, tblsec
      ensures 1 < |ch| <= 65 && Links(hg, key, ch) && ch[0].t == old(T()) && ch[0].hand == Entry(key, hg.hash(key), 0)
      ensures var last := ch[|ch| - 1];
              last.t == T() && last.hand == left && slot == if Vacant(left) then Some(last.ret) else None
      ensures slot.None? ==> |ch| == 65
    {
      var ret := Slot(false, hg.Pri(hg.hash(key)), 0);
      var scratch1 := Entry(key, hg.hash(key), 0);
      ghost var first := Link(T(), scratch1, ret);
      ch := [first];
      var i, j := 0, 0;
      while i < MAX_TRIES
        invariant 0 <= i <= MAX_TRIES && |ch| == 2 * i + 1 && ch[0] == first && At(ch, scratch1, key, ret) && !Vacant(scratch1)
        invariant j == Place(tblpri[hg.Pri(scratch1.hash)])
      {
        var scratch2;
        scratch2, ret, ch := SwapPri(scratch1, j, key, ret, ch);
        if Vacant(scratch2) {
          return Some(ret), scratch2, ch;
        }
        scratch1, ret, ch := SwapSec(scratch2, key, ret, ch);
        if Vacant(scratch1) {
          return Some(ret), scratch1, ch;
        }
        j := FindHome(scratch1);
        i := i + 1;
      }
      return None, scratch1, ch;
    }

    /** The links have come to the present tables. */
    ghost predicate At(ch: seq<Link>, hand: Entry, key: Key, ret: Slot)
      reads tblpri, tblsec
    {
      Links(hg, key, ch) && ch[|ch| - 1] == Link(T(), hand, ret) && Regular(hg, T()) && Coherent(hg, hand)
    }

    /** The entry's place in its primary bucket. */
    method FindHome(hand: Entry) returns (j: nat)
      requires Shape() && Regular(hg, T())
      ensures j == Place(tblpri[hg.Pri(hand.hash)])
    {
      var b := hg.Pri(hand.hash);
      assert T().pri[b] == tblpri[b] && RegularBucket(hg, T().pri[b]);
      j := FindEmptyOrFirst(hg, tblpri[b]);
    }

    /** First half of a round: into the place found in the primary bucket; the slot of the wanted key is noted. */
    method SwapPri(hand: Entry, j: nat, key: Key, ret: Slot, ghost ch: seq<Link>)
        returns (out: Entry, ret': Slot, ghost ch': seq<Link>)
      requires Shape() && At(ch, hand, key, ret) && !Vacant(hand) && |ch| % 2 == 1 && j == Place(tblpri[hg.Pri(hand.hash)])
      modifies tblpri
      ensures |ch'| == |ch| + 1 && ch'[..|ch|] == ch && At(ch', out, key, ret')
    {
      var b := hg.Pri(hand.hash);
      ghost var l := Link(T(), hand, ret);
      NextIsRegular(hg, key, l, false);
      assert RegularBucket(hg, T().pri[b]);
      out := tblpri[b][j];
      WritePri(b, j, hand);
      ret' := if hand.key == key then Slot(false, b, j) else ret;
      ghost var l' := Link(T(), out, ret');
      assert l' == Next(hg, key, l, false);
      LinksSnoc(hg, key, ch, l');
      ch' := ch + [l'];
    }

    /** Second half: into the first vacancy of the secondary bucket, or its first place. */
    method SwapSec(hand: Entry, key: Key, ret: Slot, ghost ch: seq<Link>) returns (out: Entry, ret': Slot, ghost ch': seq<Link>)
      requires Shape() && At(ch, hand, key, ret) && !Vacant(hand) && |ch| % 2 == 0
      modifies tblsec
      ensures |ch'| == |ch| + 1 && ch'[..|ch|] == ch && At(ch', out, key, ret')
    {
      var b := hg.Sec(hand.hash);
      ghost var l := Link(T(), hand, ret);
      NextIsRegular(hg, key, l, true);
      assert RegularBucket(hg, T().sec[b]);
      var j := FindEmptyOrFirst(hg, tblsec[b]);
      out := tblsec[b][j];
      WriteSec(b, j, hand);
      ret' := if hand.key == key then Slot(true, b, j) else ret;
      ghost var l' := Link(T(), out, ret');
      assert l' == Next(hg, key, l, true);
      LinksSnoc(hg, key, ch, l');
      ch' := ch + [l'];
    }

    /** Writes through the value pointer of the slot that holds a key. */
    method Store(slot: Slot, ghost key: Key, v: uint32)
      requires Valid() && Usable(hg, key) && Stored(T(), slot, key)
      modifies tblpri, tblsec
      ensures Valid() && Stored(T(), slot, key)
      ensures forall k :: Usable(hg, k) ==> Get(k) == if k == key then Some(v) else old(Get(k))
    {
      SetValue(hg, T(), zero, slot, key, v);
      var b, j := slot.bucket, slot.pos;
      if slot.secondary {
        WriteSec(b, j, tblsec[b][j].(val := v));
      } else {
        WritePri(b, j, tblpri[b][j].(val := v));
      }
    }
  }

  function WithValue(t: Tables, s: Slot, v: uint32): Tables
    requires s.bucket < |if s.secondary then t.sec else t.pri|
    requires s.pos < |(if s.secondary then t.sec else t.pri)[s.bucket]|
  {
    if s.secondary then SetSec(t, s.bucket, s.pos, t.sec[s.bucket][s.pos].(val := v))
    else SetPri(t, s.bucket, s.pos, t.pri[s.bucket][s.pos].(val := v))
  }

  lemma SameKeyIndex(bk: Bucket, bk': Bucket, k: Key)
    requires |bk| == |bk'| && forall i :: 0 <= i < |bk| ==> bk'[i].key == bk[i].key
    ensures KeyIndex(bk', k) == KeyIndex(bk, k)
  {
    var i, i' := KeyIndex(bk, k), KeyIndex(bk', k);
    assert i < |bk| ==> bk'[i].key == k;
    assert i' < |bk| ==> bk[i'].key == k;
  }

  lemma RevalueKeepsOk(hg: Hashing, bk: Bucket, j: nat, v: uint32)
    requires BucketOk(hg, bk) && j < |bk| && !Vacant(bk[j])
    ensures var bk' := bk[j := bk[j].(val := v)];
            BucketOk(hg, bk') && (Full(bk') <==> Full(bk))
  {
    var bk' := bk[j := bk[j].(val := v)];
    assert forall i :: 0 <= i < |bk| ==> bk'[i].key == bk[i].key && bk'[i].hash == bk[i].hash;
    assert forall i :: 0 <= i < |bk| ==> Vacant(bk'[i]) == Vacant(bk[i]);
  }

  lemma RevalueBucket(hg: Hashing, bk: Bucket, j: nat, v: uint32)
    requires BucketOk(hg, bk) && j < |bk| && !Vacant(bk[j])
    ensures var bk' := bk[j := bk[j].(val := v)];
            && BucketOk(hg, bk') && (Full(bk') <==> Full(bk))
            && forall k :: !Empty(k) ==> Has(bk', k) == Has(bk, k) && ValIn(bk', k) == if k == bk[j].key then Some(v) else ValIn(bk, k)
  {
    var bk' := bk[j := bk[j].(val := v)];
    RevalueKeepsOk(hg, bk, j, v);
    assert KeyIndex(bk, bk[j].key) == j;
    forall k | !Empty(k)
      ensures KeyIndex(bk', k) == KeyIndex(bk, k)
    {
      SameKeyIndex(bk, bk', k);
    }
  }

  lemma SetValuePlaced(hg: Hashing, t: Tables, s: Slot, key: Key, v: uint32)
    requires Sized(hg, t) && Placed(hg, t) && !Empty(key) && Stored(t, s, key)
    ensures var t' := WithValue(t, s, v);
            Sized(hg, t') && Placed(hg, t') && Stored(t', s, key)
  {
    var bk := (if s.secondary then t.sec else t.pri)[s.bucket];
    assert BucketOk(hg, bk);
    RevalueBucket(hg, bk, s.pos, v);
  }

  lemma SetValue(hg: Hashing, t: Tables, zero: Entry, s: Slot, key: Key, v: uint32)
    requires Inv(hg, t, zero) && Vacant(zero) && Usable(hg, key) && Stored(t, s, key)
    ensures var t' := WithValue(t, s, v);
            && Inv(hg, t', zero) && Stored(t', s, key)
            && forall k :: Usable(hg, k) ==> Lookup(hg, t', zero, k) == if k == key then Some(v) else Lookup(hg, t, zero, k)
  {
    SetValuePlaced(hg, t, s, key, v);
    forall k | Usable(hg, k)
      ensures SecondaryRule(hg, WithValue(t, s, v), k)
      ensures Lookup(hg, WithValue(t, s, v), zero, k) == if k == key then Some(v) else Lookup(hg, t, zero, k)
    {
      SetValueLookup(hg, t, zero, s, key, v, k);
    }
  }

  lemma SetValueLookup(hg: Hashing, t: Tables, zero: Entry, s: Slot, key: Key, v: uint32, k: Key)
    requires Inv(hg, t, zero) && Vacant(zero) && Usable(hg, key) && Stored(t, s, key) && Usable(hg, k)
    ensures var t' := WithValue(t, s, v);
            && SecondaryRule(hg, t', k)
            && Lookup(hg, t', zero, k) == if k == key then Some(v) else Lookup(hg, t, zero, k)
  {
    var bk := (if s.secondary then t.sec else t.pri)[s.bucket];
    assert BucketOk(hg, bk) && bk[s.pos].key == key;
    RevalueBucket(hg, bk, s.pos, v);
    assert Has(bk, key);
    assert SecondaryRule(hg, t, k);
    if s.secondary {
      assert SecOf(hg, t, key) == bk;
    } else {
      assert PriOf(hg, t, key) == bk;
    }
  }
}
