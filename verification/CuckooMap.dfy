/** The cuckoo hash map: one slot per hash in each of two tables, and a bounded chain of displacements. */
module CuckooMap {
  import opened Machine
  import opened LinearMap

  /** A stored entry keeps its key's primary hash; an entry is empty when the first word of its key is zero. */
  datatype Entry = Entry(key: Key, hash: uint32, val: uint32)

  datatype Tables = Tables(pri: seq<Entry>, sec: seq<Entry>)

  /** The primary hash of a key, and the secondary hash derived from the primary one. */
  datatype Hashing = Hashing(hash: Key -> uint32, alt: uint32 -> uint32, rows: nat) {
    function Pri(h: uint32): (p: nat)
      requires rows > 0
      ensures p < rows
    {
      h % rows
    }

    function Sec(h: uint32): (p: nat)
      requires rows > 0
      ensures p < rows
    {
      alt(h) % rows
    }
  }

  datatype Slot = Slot(secondary: bool, pos: nat)

  const MAX_TRIES := 32

  predicate Vacant(e: Entry) {
    Empty(e.key)
  }

  predicate Sized(hg: Hashing, t: Tables) {
    |t.pri| == |t.sec| == hg.rows > 0
  }

  predicate Stored(t: Tables, s: Slot, key: Key) {
    if s.secondary then s.pos < |t.sec| && t.sec[s.pos].key == key else s.pos < |t.pri| && t.pri[s.pos].key == key
  }

  /** Every entry sits where its stored hash says. */
  ghost predicate WellPlaced(hg: Hashing, t: Tables)
    requires Sized(hg, t)
  {
    && (forall i :: 0 <= i < hg.rows && !Vacant(t.pri[i]) ==> t.pri[i].hash == hg.hash(t.pri[i].key) && hg.Pri(t.pri[i].hash) == i)
    && (forall i :: 0 <= i < hg.rows && !Vacant(t.sec[i]) ==> t.sec[i].hash == hg.hash(t.sec[i].key) && hg.Sec(t.sec[i].hash) == i)
  }

  ghost predicate Absent(t: Tables, key: Key) {
    (forall i :: 0 <= i < |t.pri| ==> t.pri[i].key != key) && (forall i :: 0 <= i < |t.sec| ==> t.sec[i].key != key)
  }

  ghost predicate NoDuplicates(t: Tables) {
    forall i, j :: 0 <= i < |t.pri| && 0 <= j < |t.sec| && !Vacant(t.pri[i]) ==> t.pri[i].key != t.sec[j].key
  }

  /** The invariant of the tables together with the entry in hand, which is stored nowhere. */
  ghost predicate Inv(hg: Hashing, t: Tables, hand: Entry)
    requires Sized(hg, t)
  {
    && WellPlaced(hg, t) && NoDuplicates(t)
    && (!Vacant(hand) ==> hand.hash == hg.hash(hand.key) && Absent(t, hand.key))
  }

  /** What the tables and the entry in hand say about a key. */
  function Lookup(hg: Hashing, t: Tables, hand: Entry, k: Key): Option<uint32>
    requires Sized(hg, t)
  {
    var h := hg.hash(k);
    if hand.key == k then Some(hand.val)
    else if t.pri[hg.Pri(h)].key == k then Some(t.pri[hg.Pri(h)].val)
    else if t.sec[hg.Sec(h)].key == k then Some(t.sec[hg.Sec(h)].val)
    else None
  }

  function Bag(t: Tables): multiset<Entry> {
    multiset(t.pri) + multiset(t.sec)
  }

  /** Putting the entry in hand into its primary slot and taking out what was there. */
  function KickPri(hg: Hashing, t: Tables, hand: Entry): (r: (Tables, Entry))
    requires Sized(hg, t)
    ensures Sized(hg, r.0)
  {
    var p := hg.Pri(hand.hash);
    (t.(pri := t.pri[p := hand]), t.pri[p])
  }

  function KickSec(hg: Hashing, t: Tables, hand: Entry): (r: (Tables, Entry))
    requires Sized(hg, t)
    ensures Sized(hg, r.0)
  {
    var p := hg.Sec(hand.hash);
    (t.(sec := t.sec[p := hand]), t.sec[p])
  }

  lemma SwapBag(s: seq<Entry>, p: nat, e: Entry)
    requires p < |s|
    ensures multiset(s[p := e]) + multiset{s[p]} == multiset(s) + multiset{e}
  {
    assert s == s[..p] + [s[p]] + s[p + 1..];
    assert s[p := e] == s[..p] + [e] + s[p + 1..];
  }

  lemma KickPriBag(hg: Hashing, t: Tables, hand: Entry)
    requires Sized(hg, t)
    ensures var (t', out) := KickPri(hg, t, hand); Bag(t') + multiset{out} == Bag(t) + multiset{hand}
  {
    SwapBag(t.pri, hg.Pri(hand.hash), hand);
  }

  lemma KickSecBag(hg: Hashing, t: Tables, hand: Entry)
    requires Sized(hg, t)
    ensures var (t', out) := KickSec(hg, t, hand); Bag(t') + multiset{out} == Bag(t) + multiset{hand}
  {
    SwapBag(t.sec, hg.Sec(hand.hash), hand);
  }

  /** A half-step keeps the invariant, what every key maps to, and the bag of entries including the one in hand. */
  lemma KickPriConserves(hg: Hashing, t: Tables, hand: Entry)
    requires Sized(hg, t) && Inv(hg, t, hand) && !Vacant(hand)
    ensures var (t', hand') := KickPri(hg, t, hand);
            && Inv(hg, t', hand')
            && (forall k :: !Empty(k) ==> Lookup(hg, t', hand', k) == Lookup(hg, t, hand, k))
            && Bag(t') + multiset{hand'} == Bag(t) + multiset{hand}
  {
    KickPriBag(hg, t, hand);
    var (t', out) := KickPri(hg, t, hand);
    assert Inv(hg, t', out);
  }

  lemma KickSecConserves(hg: Hashing, t: Tables, hand: Entry)
    requires Sized(hg, t) && Inv(hg, t, hand) && !Vacant(hand)
    ensures var (t', hand') := KickSec(hg, t, hand);
            && Inv(hg, t', hand')
            && (forall k :: !Empty(k) ==> Lookup(hg, t', hand', k) == Lookup(hg, t, hand, k))
            && Bag(t') + multiset{hand'} == Bag(t) + multiset{hand}
  {
    KickSecBag(hg, t, hand);
    var (t', out) := KickSec(hg, t, hand);
    assert Inv(hg, t', out);
  }

  /** At every half-step of the chain that started from t0 with e0 in hand. */
  ghost predicate ChainInv(hg: Hashing, t0: Tables, e0: Entry, t: Tables, hand: Entry, key: Key, ret: Slot)
    requires Sized(hg, t0)
  {
    && Sized(hg, t) && Inv(hg, t, hand)
    && (forall k :: !Empty(k) ==> Lookup(hg, t, hand, k) == Lookup(hg, t0, e0, k))
    && Bag(t) + multiset{hand} == Bag(t0) + multiset{e0}
    && (hand.key != key ==> Stored(t, ret, key))
  }

  // ---------- The chain, read off the old tables ----------

  /**
   The entry in hand after n half-steps of the chain that starts with e in hand: what the slot
   of the hand before held, in the old tables or as put there earlier in the chain.
   */
  function HandAt(hg: Hashing, t: Tables, e: Entry, n: nat): Entry
    requires Sized(hg, t)
    decreases n, 1
  {
    if n == 0 then e else SlotAfter(hg, t, e, n % 2 == 0, n - 1, PosAt(hg, t, e, n - 1))
  }

  /** Where half-step n puts its hand: even ones in the primary table, odd ones in the secondary. */
  function PosAt(hg: Hashing, t: Tables, e: Entry, n: nat): (p: nat)
    requires Sized(hg, t)
    ensures p < hg.rows
    decreases n, 2
  {
    var h := HandAt(hg, t, e, n).hash;
    (if n % 2 == 0 then h else hg.alt(h)) % hg.rows
  }

  /** What slot p of a table holds after the first m half-steps: the hand last put there, else the old entry. */
  function SlotAfter(hg: Hashing, t: Tables, e: Entry, secondary: bool, m: nat, p: nat): Entry
    requires Sized(hg, t) && p < hg.rows
    decreases m, 2
  {
    if m == 0 then (if secondary then t.sec[p] else t.pri[p])
    else if (m - 1) % 2 == (if secondary then 1 else 0) && PosAt(hg, t, e, m - 1) == p then HandAt(hg, t, e, m - 1)
    else SlotAfter(hg, t, e, secondary, m - 1, p)
  }

  /** The chain that starts from t0 with e0 in hand has come to t with `hand` after n half-steps. */
  ghost predicate AtStep(hg: Hashing, t0: Tables, e0: Entry, t: Tables, hand: Entry, n: nat)
    requires Sized(hg, t0)
  {
    && Sized(hg, t) && hand == HandAt(hg, t0, e0, n)
    && (forall p :: 0 <= p < hg.rows ==> t.pri[p] == SlotAfter(hg, t0, e0, false, n, p))
    && (forall p :: 0 <= p < hg.rows ==> t.sec[p] == SlotAfter(hg, t0, e0, true, n, p))
  }

  lemma StartsAtStep(hg: Hashing, t: Tables, e: Entry)
    requires Sized(hg, t)
    ensures AtStep(hg, t, e, t, e, 0)
  {
  }

  lemma PriAtStep(hg: Hashing, t0: Tables, e0: Entry, t: Tables, hand: Entry, n: nat)
    requires Sized(hg, t0) && AtStep(hg, t0, e0, t, hand, n) && n % 2 == 0
    ensures var (t', out) := KickPri(hg, t, hand); AtStep(hg, t0, e0, t', out, n + 1)
  {
    assert PosAt(hg, t0, e0, n) == hg.Pri(hand.hash);
  }

  lemma SecAtStep(hg: Hashing, t0: Tables, e0: Entry, t: Tables, hand: Entry, n: nat)
    requires Sized(hg, t0) && AtStep(hg, t0, e0, t, hand, n) && n % 2 == 1
    ensures var (t', out) := KickSec(hg, t, hand); AtStep(hg, t0, e0, t', out, n + 1)
  {
    assert PosAt(hg, t0, e0, n) == hg.Sec(hand.hash);
  }

  ghost predicate NoneVacant(hg: Hashing, t: Tables, e: Entry, n: nat)
    requires Sized(hg, t)
  {
    forall m :: 1 <= m <= n ==> !VacantAt(hg, t, e, m)
  }

  predicate VacantAt(hg: Hashing, t: Tables, e: Entry, m: nat)
    requires Sized(hg, t)
  {
    Vacant(HandAt(hg, t, e, m))
  }

  // ---------- The chain, link by link ----------

  /** Tables, entry in hand and noted slot of the wanted key. */
  datatype Link = Link(t: Tables, hand: Entry, ret: Slot)

  /** One half-step. */
  function Next(hg: Hashing, key: Key, l: Link, secondary: bool): (r: Link)
    requires Sized(hg, l.t)
    ensures Sized(hg, r.t)
  {
    var (t, out) := if secondary then KickSec(hg, l.t, l.hand) else KickPri(hg, l.t, l.hand);
    var p := if secondary then hg.Sec(l.hand.hash) else hg.Pri(l.hand.hash);
    Link(t, out, if l.hand.key == key then Slot(secondary, p) else l.ret)
  }

  ghost predicate LinkAt(hg: Hashing, key: Key, ch: seq<Link>, m: nat)
    requires m + 1 < |ch|
  {
    Sized(hg, ch[m].t) && !Vacant(ch[m].hand) && ch[m + 1] == Next(hg, key, ch[m], m % 2 == 1)
  }

  /** The links of a chain, half-step by half-step; all hands but the last are not vacant. */
  ghost predicate Links(hg: Hashing, key: Key, ch: seq<Link>) {
    |ch| > 0 && Sized(hg, ch[0].t) && forall m :: 0 <= m < |ch| - 1 ==> LinkAt(hg, key, ch, m)
  }

  lemma LinksSnoc(hg: Hashing, key: Key, ch: seq<Link>, l: Link)
    requires Links(hg, key, ch)
    requires var last := ch[|ch| - 1]; Sized(hg, last.t) && !Vacant(last.hand) && l == Next(hg, key, last, (|ch| - 1) % 2 == 1)
    ensures Links(hg, key, ch + [l])
  {
    var ch' := ch + [l];
    forall m | 0 <= m < |ch|
      ensures LinkAt(hg, key, ch', m)
    {
      assert m < |ch| - 1 ==> LinkAt(hg, key, ch, m);
    }
  }

  lemma {:induction false} LinksAtStep(hg: Hashing, key: Key, ch: seq<Link>, m: nat)
    requires Links(hg, key, ch) && m < |ch|
    ensures AtStep(hg, ch[0].t, ch[0].hand, ch[m].t, ch[m].hand, m)
  {
    if m == 0 {
      StartsAtStep(hg, ch[0].t, ch[0].hand);
    } else {
      LinksAtStep(hg, key, ch, m - 1);
      assert LinkAt(hg, key, ch, m - 1);
      if (m - 1) % 2 == 0 {
        PriAtStep(hg, ch[0].t, ch[0].hand, ch[m - 1].t, ch[m - 1].hand, m - 1);
      } else {
        SecAtStep(hg, ch[0].t, ch[0].hand, ch[m - 1].t, ch[m - 1].hand, m - 1);
      }
    }
  }

  lemma NextKeeps(hg: Hashing, t0: Tables, e0: Entry, l: Link, key: Key, secondary: bool)
    requires Sized(hg, t0) && ChainInv(hg, t0, e0, l.t, l.hand, key, l.ret) && !Vacant(l.hand)
    ensures var l' := Next(hg, key, l, secondary); ChainInv(hg, t0, e0, l'.t, l'.hand, key, l'.ret)
  {
    if secondary {
      KickSecConserves(hg, l.t, l.hand);
    } else {
      KickPriConserves(hg, l.t, l.hand);
    }
  }

  /** Every link keeps the invariant, what every key maps to and the bag of entries. */
  lemma {:induction false} LinksKeep(hg: Hashing, key: Key, ch: seq<Link>, m: nat)
    requires Links(hg, key, ch) && m < |ch| && Inv(hg, ch[0].t, ch[0].hand) && ch[0].hand.key == key
    ensures ChainInv(hg, ch[0].t, ch[0].hand, ch[m].t, ch[m].hand, key, ch[m].ret)
  {
    if m > 0 {
      LinksKeep(hg, key, ch, m - 1);
      assert LinkAt(hg, key, ch, m - 1);
      NextKeeps(hg, ch[0].t, ch[0].hand, ch[m - 1], key, (m - 1) % 2 == 1);
    }
  }

  /** A chain that ends at its first vacant hand, or after 64 half-steps without one. */
  lemma LinksEnd(hg: Hashing, key: Key, ch: seq<Link>)
    requires Links(hg, key, ch) && 1 < |ch| <= 65 && (Vacant(ch[|ch| - 1].hand) || |ch| == 65)
    ensures Vacant(ch[|ch| - 1].hand) <==> !NoneVacant(hg, ch[0].t, ch[0].hand, 64)
    ensures Vacant(HandAt(hg, ch[0].t, ch[0].hand, 1)) ==> |ch| == 2
  {
    var t0, e0 := ch[0].t, ch[0].hand;
    forall m | 0 <= m < |ch|
      ensures VacantAt(hg, t0, e0, m) == Vacant(ch[m].hand)
    {
      LinksAtStep(hg, key, ch, m);
    }
    forall m | 0 <= m < |ch| - 1
      ensures !Vacant(ch[m].hand)
    {
      assert LinkAt(hg, key, ch, m);
    }
    assert VacantAt(hg, t0, e0, |ch| - 1) == Vacant(ch[|ch| - 1].hand);
    assert VacantAt(hg, t0, e0, 1) == Vacant(HandAt(hg, t0, e0, 1));
  }

  /** The first two hands: the entry in the key's primary slot, and the one in that entry's secondary slot. */
  lemma FirstHands(hg: Hashing, t: Tables, e: Entry)
    requires Sized(hg, t)
    ensures HandAt(hg, t, e, 1) == t.pri[e.hash % hg.rows]
    ensures HandAt(hg, t, e, 2) == t.sec[hg.alt(t.pri[e.hash % hg.rows].hash) % hg.rows]
  {
    assert PosAt(hg, t, e, 0) == e.hash % hg.rows;
    assert HandAt(hg, t, e, 1) == SlotAfter(hg, t, e, false, 0, PosAt(hg, t, e, 0));
    var p := PosAt(hg, t, e, 1);
    assert SlotAfter(hg, t, e, true, 1, p) == SlotAfter(hg, t, e, true, 0, p);
  }

  /** What a finished chain leaves. */
  lemma LinksResult(hg: Hashing, key: Key, ch: seq<Link>)
    requires Links(hg, key, ch) && 1 < |ch| <= 65 && (Vacant(ch[|ch| - 1].hand) || |ch| == 65)
    requires Inv(hg, ch[0].t, ch[0].hand) && ch[0].hand.key == key
    ensures var last := ch[|ch| - 1];
            && ChainInv(hg, ch[0].t, ch[0].hand, last.t, last.hand, key, last.ret)
            && (Vacant(last.hand) <==> !NoneVacant(hg, ch[0].t, ch[0].hand, 64))
            && (Vacant(ch[0].t.pri[ch[0].hand.hash % hg.rows]) ==> Vacant(last.hand) && last.ret == Slot(false, ch[0].hand.hash % hg.rows))
  {
    LinksKeep(hg, key, ch, |ch| - 1);
    LinksEnd(hg, key, ch);
    FirstHands(hg, ch[0].t, ch[0].hand);
    assert LinkAt(hg, key, ch, 0);
  }

  lemma ChainStart(hg: Hashing, t: Tables, zero: Entry, e: Entry)
    requires Sized(hg, t) && Inv(hg, t, zero) && Vacant(zero) && !Vacant(e) && e.hash == hg.hash(e.key) && Lookup(hg, t, zero, e.key).None?
    ensures Inv(hg, t, e) && forall k :: !Empty(k) ==> Lookup(hg, t, e, k) == if k == e.key then Some(e.val) else Lookup(hg, t, zero, k)
  {
  }

  /** Two cases in which an insertion succeeds: a vacancy in the key's primary slot, or in the secondary slot of the entry there. */
  lemma RoomInTwoSteps(hg: Hashing, t: Tables, e: Entry)
    requires Sized(hg, t)
    requires Vacant(t.pri[e.hash % hg.rows]) || Vacant(t.sec[hg.alt(t.pri[e.hash % hg.rows].hash) % hg.rows])
    ensures !NoneVacant(hg, t, e, 64)
  {
    FirstHands(hg, t, e);
    assert VacantAt(hg, t, e, 1) || VacantAt(hg, t, e, 2);
  }

  class HashMapCuckoo {
    const hg: Hashing
    const tblpri: array<Entry>
    const tblsec: array<Entry>
    /** The zero row. */
    const zero: Entry

    ghost function T(): Tables
      reads tblpri, tblsec
    {
      Tables(tblpri[..], tblsec[..])
    }

    ghost predicate Shape() {
      hg.rows > 0 && tblpri.Length == tblsec.Length == hg.rows && tblpri != tblsec && Vacant(zero)
    }

    ghost predicate Valid()
      reads tblpri, tblsec
    {
      Shape() && Inv(hg, T(), zero)
    }

    /** The value stored for a key. */
    ghost function Get(k: Key): Option<uint32>
      requires Shape() && !Empty(k)
      reads tblpri, tblsec
    {
      Lookup(hg, T(), zero, k)
    }

    constructor (hg: Hashing, zero: Entry)
      requires hg.rows > 0 && Vacant(zero)
      ensures Valid() && fresh(tblpri) && fresh(tblsec) && this.hg == hg && this.zero == zero
      ensures forall k :: !Empty(k) ==> Get(k) == None
    {
      this.hg, this.zero := hg, zero;
      tblpri := new Entry[hg.rows](_ => zero);
      tblsec := new Entry[hg.rows](_ => zero);
    }

    /** The links have come to the present tables. */
    ghost predicate At(ch: seq<Link>, hand: Entry, key: Key, ret: Slot)
      reads tblpri, tblsec
    {
      Links(hg, key, ch) && ch[|ch| - 1] == Link(T(), hand, ret)
    }

    /** First half of a round: the entry in hand goes into its primary slot; the slot of the wanted key is noted. */
    method SwapPri(hand: Entry, key: Key, ret: Slot, ghost ch: seq<Link>) returns (out: Entry, ret': Slot, ghost ch': seq<Link>)
      requires Shape() && At(ch, hand, key, ret) && !Vacant(hand) && |ch| % 2 == 1
      modifies tblpri
      ensures |ch'| == |ch| + 1 && ch'[..|ch|] == ch && At(ch', out, key, ret')
    {
      var p := hg.Pri(hand.hash);
      out, ret' := tblpri[p], ret;
      tblpri[p] := hand;
      assert tblpri[..] == old(tblpri[..])[p := hand];
      if tblpri[p].key == key {
        ret' := Slot(false, p);
      }
      ch' := ch + [Link(T(), out, ret')];
      LinksSnoc(hg, key, ch, Link(T(), out, ret'));
    }

    /** Second half: the entry in hand goes into its secondary slot. */
    method SwapSec(hand: Entry, key: Key, ret: Slot, ghost ch: seq<Link>) returns (out: Entry, ret': Slot, ghost ch': seq<Link>)
      requires Shape() && At(ch, hand, key, ret) && !Vacant(hand) && |ch| % 2 == 0
      modifies tblsec
      ensures |ch'| == |ch| + 1 && ch'[..|ch|] == ch && At(ch', out, key, ret')
    {
      var p := hg.Sec(hand.hash);
      out, ret' := tblsec[p], ret;
      tblsec[p] := hand;
      assert tblsec[..] == old(tblsec[..])[p := hand];
      if tblsec[p].key == key {
        ret' := Slot(true, p);
      }
      ch' := ch + [Link(T(), out, ret')];
      LinksSnoc(hg, key, ch, Link(T(), out, ret'));
    }

    /**
     Finds the key or inserts it with value 0.  The result is None when the chain is given up
     after 32 rounds, where the source aborts; `left` is the entry then still in hand.
     */
    method FindOrInsertKey(key: Key) returns (slot: Option<Slot>, ghost left: Entry)
      requires Valid() && !Empty(key)
      modifies tblpri, tblsec
      ensures Shape() && Inv(hg, T(), left)
      ensures slot.Some? <==> Vacant(left)
      ensures slot.Some? ==> Valid() && Stored(T(), slot.value, key)
      ensures old(Get(key)).Some? ==> slot.Some? && T() == old(T())
      ensures slot.None? <==> old(Get(key)).None? && NoneVacant(hg, old(T()), Entry(key, hg.hash(key), 0), 64)
      ensures slot.Some? ==> slot.value.pos == (if slot.value.secondary then hg.alt(hg.hash(key)) else hg.hash(key)) % hg.rows
      ensures old(Get(key)).None? && old(Vacant(tblpri[hg.hash(key) % hg.rows])) ==> slot == Some(Slot(false, hg.hash(key) % hg.rows))
      ensures old(Get(key)).None? ==> Bag(T()) + multiset{left} == old(Bag(T())) + multiset{Entry(key, hg.hash(key), 0)}
      ensures forall k :: !Empty(k) ==>
                Lookup(hg, T(), left, k) == if k == key && old(Get(k)).None? then Some(0) else old(Get(k))
    {
      left := zero;
      var h := hg.hash(key);
      if tblpri[hg.Pri(h)].key == key {
        return Some(Slot(false, hg.Pri(h))), left;
      }
      if tblsec[hg.Sec(h)].key == key {
        return Some(Slot(true, hg.Sec(h))), left;
      }
      slot, left := KickChain(key);
    }

    /** The chain is given up exactly when none of its first 64 hands is vacant. */
    method KickChain(key: Key) returns (slot: Option<Slot>, ghost left: Entry)
      requires Valid() && !Empty(key) && Get(key).None?
      modifies tblpri, tblsec
      ensures Shape() && Inv(hg, T(), left)
      ensures slot.Some? <==> Vacant(left)
      ensures slot.Some? ==> Stored(T(), slot.value, key)
      ensures slot.None? <==> NoneVacant(hg, old(T()), Entry(key, hg.hash(key), 0), 64)
      ensures old(Vacant(tblpri[hg.hash(key) % hg.rows])) ==> slot == Some(Slot(false, hg.hash(key) % hg.rows))
      ensures Bag(T()) + multiset{left} == old(Bag(T())) + multiset{Entry(key, hg.hash(key), 0)}
      ensures forall k :: !Empty(k) ==> Lookup(hg, T(), left, k) == if k == key then Some(0) else old(Get(k))
    {
      ghost var t0, e0 := T(), Entry(key, hg.hash(key), 0);
      ChainStart(hg, t0, zero, e0);
      ghost var ch;
      slot, left, ch := RunChain(key);
      LinksResult(hg, key, ch);
    }

    /** The loop, with its links: up to the first vacant hand or the 64th. */
    method RunChain(key: Key) returns (slot: Option<Slot>, ghost left: Entry, ghost ch: seq<Link>)
      requires Shape() && !Empty(key)
      modifies tblpri, tblsec
      ensures 1 < |ch| <= 65 && Links(hg, key, ch) && ch[0].t == old(T()) && ch[0].hand == Entry(key, hg.hash(key), 0)
      ensures var last := ch[|ch| - 1];
              last.t == T() && last.hand == left && slot == if Vacant(left) then Some(last.ret) else None
      ensures slot.None? ==> |ch| == 65
    {
      var ret := Slot(false, hg.Pri(hg.hash(key)));
      var scratch1 := Entry(key, hg.hash(key), 0);
      ghost var first := Link(T(), scratch1, ret);
      ch := [first];
      var i := 0;
      while i < MAX_TRIES
        invariant 0 <= i <= MAX_TRIES && |ch| == 2 * i + 1 && ch[0] == first && At(ch, scratch1, key, ret) && !Vacant(scratch1)
      {
        var scratch2;
        scratch2, ret, ch := SwapPri(scratch1, key, ret, ch);
        if Vacant(scratch2) {
          return Some(ret), scratch2, ch;
        }
        scratch1, ret, ch := SwapSec(scratch2, key, ret, ch);
        if Vacant(scratch1) {
          return Some(ret), scratch1, ch;
        }
        i := i + 1;
      }
      return None, scratch1, ch;
    }

    /** Writes through the value pointer of the slot that holds a key. */
    method Store(slot: Slot, ghost key: Key, v: uint32)
      requires Valid() && !Empty(key) && Stored(T(), slot, key)
      modifies tblpri, tblsec
      ensures Valid() && Stored(T(), slot, key)
      ensures forall k :: !Empty(k) ==> Get(k) == if k == key then Some(v) else old(Get(k))
    {
      if slot.secondary {
        tblsec[slot.pos] := tblsec[slot.pos].(val := v);
      } else {
        tblpri[slot.pos] := tblpri[slot.pos].(val := v);
      }
    }
  }
}
