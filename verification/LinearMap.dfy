/** The linear-probing hash map: an open-addressing table whose probe wraps around. */
module LinearMap {
  import opened Machine

  /** A key of one or more words.  A row is empty when the first word of its key is zero. */
  datatype Key = Key(first: uint32, rest: seq<uint32>)

  /** The value that callers store over an entry they mean to delete: 1 << 31. */
  const TOMBSTONE: uint32 := 0x8000_0000

  predicate Empty(k: Key) {
    k.first == 0
  }

  /** The j-th row that a probe from row `home` visits. */
  function Row(home: nat, j: nat, n: nat): (p: nat)
    requires home < n && j < n
    ensures p < n
  {
    if home + j < n then home + j else home + j - n
  }

  /** Number of probe steps from row `home` to row p. */
  function Dist(home: nat, p: nat, n: nat): (d: nat)
    requires home < n && p < n
    ensures d < n && Row(home, d, n) == p
  {
    if p >= home then p - home else p + n - home
  }

  lemma NextProbe(home: nat, j: nat, n: nat)
    requires home < n && j < n
    ensures Dist(home, Row(home, j, n), n) == j
    ensures j + 1 < n ==> Row(home, j + 1, n) == if Row(home, j, n) + 1 > n - 1 then 0 else Row(home, j, n) + 1
  {
  }

  function Home(hash: Key -> uint32, k: Key, n: nat): (h: nat)
    requires n > 0
    ensures h < n
  {
    hash(k) % n
  }

  /** The probe for a key stops at its own row or at an empty one. */
  predicate Stops(k: Key, key: Key) {
    Empty(k) || k == key
  }

  /** Row p is where the probe for `key` from its home row ends. */
  ghost predicate FoundAt(keys: seq<Key>, hash: Key -> uint32, key: Key, p: nat)
    requires |keys| > 0
  {
    && p < |keys| && Stops(keys[p], key)
    && var home := Home(hash, key, |keys|);
       forall j :: 0 <= j < Dist(home, p, |keys|) ==> !Stops(keys[Row(home, j, |keys|)], key)
  }

  ghost predicate Differ(keys: seq<Key>, i: nat, j: nat)
    requires i < |keys| && j < |keys|
  {
    !Empty(keys[i]) && !Empty(keys[j]) ==> keys[i] != keys[j]
  }

  ghost predicate Distinct(keys: seq<Key>) {
    forall i, j :: 0 <= i < j < |keys| ==> Differ(keys, i, j)
  }

  /** No empty row between a key's home and its row. */
  ghost predicate NoGap(keys: seq<Key>, hash: Key -> uint32, i: nat)
    requires i < |keys|
  {
    !Empty(keys[i]) ==>
      var home := Home(hash, keys[i], |keys|);
      forall j :: 0 <= j < Dist(home, i, |keys|) ==> !Empty(keys[Row(home, j, |keys|)])
  }

  /** The table invariant: keys are distinct and reachable. */
  ghost predicate Linked(keys: seq<Key>, hash: Key -> uint32)
    requires |keys| > 0
  {
    && Distinct(keys)
    && forall i :: 0 <= i < |keys| ==> NoGap(keys, hash, i)
  }

  ghost predicate ZeroIfFree(keys: seq<Key>, vals: seq<uint32>, i: nat)
    requires i < |keys| == |vals|
  {
    Empty(keys[i]) ==> vals[i] == 0
  }

  ghost predicate HasRoomFor(keys: seq<Key>, key: Key) {
    exists p :: 0 <= p < |keys| && Stops(keys[p], key)
  }

  lemma AllDiffer(keys: seq<Key>)
    requires Distinct(keys)
    ensures forall i, j :: 0 <= i < j < |keys| && !Empty(keys[i]) && !Empty(keys[j]) ==> keys[i] != keys[j]
  {
    forall i, j | 0 <= i < j < |keys| && !Empty(keys[i]) && !Empty(keys[j])
      ensures keys[i] != keys[j]
    {
      assert Differ(keys, i, j);
    }
  }

  /** The table as a finite map. */
  ghost function MapOf(keys: seq<Key>, vals: seq<uint32>): map<Key, uint32>
    requires |keys| == |vals| && Distinct(keys)
  {
    AllDiffer(keys);
    map i | 0 <= i < |keys| && !Empty(keys[i]) :: keys[i] := vals[i]
  }

  lemma MapAt(keys: seq<Key>, vals: seq<uint32>, i: nat)
    requires |keys| == |vals| && Distinct(keys) && i < |keys| && !Empty(keys[i])
    ensures keys[i] in MapOf(keys, vals) && MapOf(keys, vals)[keys[i]] == vals[i]
  {
    AllDiffer(keys);
  }

  /** Under the invariant the probe finds the key if it is anywhere in the table. */
  lemma FoundIsKeyOrFree(keys: seq<Key>, hash: Key -> uint32, key: Key, p: nat, i: nat)
    requires |keys| > 0 && Linked(keys, hash) && !Empty(key) && FoundAt(keys, hash, key, p)
    requires i < |keys| && keys[i] == key
    ensures p == i
  {
    var n := |keys|;
    var home := Home(hash, key, n);
    var dp, di := Dist(home, p, n), Dist(home, i, n);
    assert NoGap(keys, hash, i);
    AllDiffer(keys);
  }

  /** Is row i one of those from `home` up to but not including p, wrapping around? */
  predicate Between(home: nat, i: nat, p: nat) {
    if home <= p then home <= i < p else home <= i || i < p
  }

  /** The probe starts at the row of the key's hash and goes up: all rows it passes are taken by other keys. */
  lemma PassedRowsAreTaken(keys: seq<Key>, hash: Key -> uint32, key: Key, p: nat, i: nat)
    requires |keys| > 0 && FoundAt(keys, hash, key, p) && i < |keys| && Between(hash(key) % |keys|, i, p)
    ensures !Empty(keys[i]) && keys[i] != key
  {
    var home := Home(hash, key, |keys|);
    assert Row(home, Dist(home, i, |keys|), |keys|) == i;
  }

  /** Taking the free row where the probe ended keeps the invariant. */
  lemma InsertKeepsLinked(keys: seq<Key>, hash: Key -> uint32, key: Key, p: nat)
    requires |keys| > 0 && Linked(keys, hash) && !Empty(key) && FoundAt(keys, hash, key, p) && Empty(keys[p])
    ensures Linked(keys[p := key], hash)
    ensures key !in keys
  {
    if key in keys {
      var i :| 0 <= i < |keys| && keys[i] == key;
      FoundIsKeyOrFree(keys, hash, key, p, i);
    }
    var keys' := keys[p := key];
    forall i | 0 <= i < |keys|
      ensures NoGap(keys', hash, i)
    {
      assert NoGap(keys, hash, i);
    }
    forall i, j | 0 <= i < j < |keys|
      ensures Differ(keys', i, j)
    {
      assert Differ(keys, i, j);
    }
  }

  lemma MapOfInsert(keys: seq<Key>, vals: seq<uint32>, key: Key, p: nat)
    requires |keys| == |vals| && p < |keys| && Distinct(keys) && Distinct(keys[p := key])
    requires Empty(keys[p]) && !Empty(key) && key !in keys
    ensures MapOf(keys[p := key], vals) == MapOf(keys, vals)[key := vals[p]]
  {
    var m, m' := MapOf(keys, vals), MapOf(keys[p := key], vals);
    assert forall i :: 0 <= i < |keys| ==> keys[p := key][i] == if i == p then key else keys[i];
    forall k | k in m
      ensures k in m'
    {
      var i :| 0 <= i < |keys| && !Empty(keys[i]) && keys[i] == k;
      assert keys[p := key][i] == k;
    }
    assert keys[p := key][p] in m';
    assert m'.Keys == m.Keys + {key};
  }

  lemma MapOfUpdate(keys: seq<Key>, vals: seq<uint32>, p: nat, v: uint32)
    requires |keys| == |vals| && p < |keys| && Distinct(keys) && !Empty(keys[p])
    ensures MapOf(keys, vals[p := v]) == MapOf(keys, vals)[keys[p] := v]
  {
    AllDiffer(keys);
    var m := MapOf(keys, vals);
    MapAt(keys, vals, p);
    assert MapOf(keys, vals[p := v]).Keys == m.Keys;
  }

  lemma {:induction false} SetOfDistinct(keys: seq<Key>)
    requires forall i, j :: 0 <= i < j < |keys| ==> keys[i] != keys[j]
    ensures |set k | k in keys| == |keys|
  {
    if keys != [] {
      var n := |keys| - 1;
      SetOfDistinct(keys[..n]);
      assert (set k | k in keys) == (set k | k in keys[..n]) + {keys[n]};
    }
  }

  lemma FullTable(keys: seq<Key>, vals: seq<uint32>)
    requires |keys| == |vals| && Distinct(keys)
    requires forall i :: 0 <= i < |keys| ==> !Empty(keys[i])
    ensures |MapOf(keys, vals)| == |keys|
  {
    AllDiffer(keys);
    SetOfDistinct(keys);
    assert MapOf(keys, vals).Keys == set k | k in keys;
  }

  /** Fewer keys than rows leave a free row, so every probe ends. */
  lemma RoomIfFewerKeysThanRows(keys: seq<Key>, vals: seq<uint32>, key: Key)
    requires |keys| == |vals| && Distinct(keys) && |MapOf(keys, vals)| < |keys|
    ensures exists i :: 0 <= i < |keys| && Empty(keys[i])
    ensures HasRoomFor(keys, key)
  {
    if forall i :: 0 <= i < |keys| ==> !Empty(keys[i]) {
      FullTable(keys, vals);
      assert false;
    }
    var i :| 0 <= i < |keys| && Empty(keys[i]);
    assert Stops(keys[i], key);
  }

  lemma PresentHasRoom(keys: seq<Key>, vals: seq<uint32>, key: Key)
    requires |keys| == |vals| && Distinct(keys) && key in MapOf(keys, vals)
    ensures HasRoomFor(keys, key)
  {
    var i :| 0 <= i < |keys| && !Empty(keys[i]) && keys[i] == key;
    assert Stops(keys[i], key);
  }

  /** A table empty but for its last row is sound exactly when that row is the home of its key. */
  lemma LinkedWithOnlyLast(keys: seq<Key>, hash: Key -> uint32)
    requires |keys| > 0 && forall i :: 0 <= i < |keys| - 1 ==> Empty(keys[i])
    ensures Linked(keys, hash) <==> Empty(keys[|keys| - 1]) || Home(hash, keys[|keys| - 1], |keys|) == |keys| - 1
  {
    var n := |keys|;
    var home := Home(hash, keys[n - 1], n);
    assert forall i, j :: 0 <= i < j < n ==> Differ(keys, i, j);
    assert forall i :: 0 <= i < n - 1 ==> NoGap(keys, hash, i);
    if !Empty(keys[n - 1]) && home != n - 1 {
      assert Row(home, 0, n) == home && Empty(keys[Row(home, 0, n)]);
      assert !NoGap(keys, hash, n - 1);
    } else {
      assert NoGap(keys, hash, n - 1);
    }
  }

  class HashMapLinear {
    const rows: nat
    const hash: Key -> uint32
    const keys: array<Key>
    const vals: array<uint32>

    ghost predicate Shape() {
      rows > 0 && keys.Length == vals.Length == rows
    }

    ghost predicate Valid()
      reads keys, vals
    {
      && Shape() && Linked(keys[..], hash)
      && forall i :: 0 <= i < rows ==> ZeroIfFree(keys[..], vals[..], i)
    }

    /** The map the table stands for. */
    ghost function M(): map<Key, uint32>
      requires Valid()
      reads keys, vals
    {
      MapOf(keys[..], vals[..])
    }

    constructor (rows: nat, hash: Key -> uint32, zero: Key)
      requires rows > 0 && Empty(zero)
      ensures Valid() && fresh(keys) && fresh(vals) && this.rows == rows && this.hash == hash
      ensures M() == map[]
      ensures forall i :: 0 <= i < rows ==> Empty(keys[i])
    {
      this.rows, this.hash := rows, hash;
      keys := new Key[rows](_ => zero);
      vals := new uint32[rows](_ => 0);
    }

    /** The probe loop. */
    method FindKey(key: Key) returns (p: nat)
      requires Shape() && HasRoomFor(keys[..], key)
      ensures FoundAt(keys[..], hash, key, p)
      ensures forall i :: 0 <= i < rows && Between(hash(key) % rows, i, p) ==> !Empty(keys[i]) && keys[i] != key
    {
      p := hash(key) % rows;
      ghost var home, ks, j := p, keys[..], 0;
      ghost var e :| 0 <= e < rows && Stops(ks[e], key);
      ghost var last := Dist(home, e, rows);
      while !Empty(keys[p]) && keys[p] != key
        invariant j <= last && p == Row(home, j, rows)
        invariant forall i :: 0 <= i < j ==> !Stops(ks[Row(home, i, rows)], key)
        decreases last - j
      {
        assert j != last && !Stops(ks[p], key);
        NextProbe(home, j, rows);
        p := p + 1;
        if p > rows - 1 {
          p := 0;
        }
        j := j + 1;
      }
      NextProbe(home, j, rows);
      assert Stops(ks[p], key);
      forall i | 0 <= i < rows && Between(hash(key) % rows, i, p)
        ensures !Empty(keys[i]) && keys[i] != key
      {
        PassedRowsAreTaken(ks, hash, key, p, i);
      }
    }

    /** Looks a key up without storing it: its row, or the free row where the probe ended. */
    method GetNoCopyKey(key: Key) returns (p: nat)
      requires Valid() && !Empty(key) && HasRoomFor(keys[..], key)
      ensures p < rows
      ensures key in M() <==> keys[p] == key
      ensures key !in M() <==> Empty(keys[p])
      ensures key in M() ==> M()[key] == vals[p]
    {
      p := FindKey(key);
      if !Empty(keys[p]) {
        MapAt(keys[..], vals[..], p);
      }
      if key in M() {
        ghost var i :| 0 <= i < rows && keys[..][i] == key;
        FoundIsKeyOrFree(keys[..], hash, key, p, i);
      }
    }

    /** Looks a key up and stores it if it is missing.  No other key moves, so rows handed out earlier stay good. */
    method GetCopyKey(key: Key) returns (p: nat)
      requires Valid() && !Empty(key) && HasRoomFor(keys[..], key)
      modifies keys
      ensures Valid()
      ensures p < rows && keys[p] == key
      ensures M() == if key in old(M()) then old(M()) else old(M())[key := 0]
      ensures forall i :: 0 <= i < rows && !Empty(old(keys[i])) ==> keys[i] == old(keys[i])
      ensures forall i :: 0 <= i < rows && Between(hash(key) % rows, i, p) ==> !Empty(keys[i]) && keys[i] != key
    {
      p := FindKey(key);
      ghost var ks, vs := keys[..], vals[..];
      if Empty(keys[p]) {
        InsertKeepsLinked(ks, hash, key, p);
        MapOfInsert(ks, vs, key, p);
        assert ZeroIfFree(ks, vs, p);
        keys[p] := key;
        assert keys[..] == ks[p := key] && vals[..] == vs;
        assert forall i :: 0 <= i < rows ==> ZeroIfFree(ks, vs, i) ==> ZeroIfFree(keys[..], vals[..], i);
      } else {
        MapAt(ks, vs, p);
      }
    }

    /** Writes through the value pointer of an occupied row. */
    method Store(p: nat, v: uint32)
      requires Valid() && p < rows && !Empty(keys[p])
      modifies vals
      ensures Valid()
      ensures M() == old(M())[keys[p] := v]
    {
      MapOfUpdate(keys[..], vals[..], p, v);
      vals[p] := v;
      assert vals[..] == old(vals[..])[p := v];
      assert forall i :: 0 <= i < rows ==> ZeroIfFree(keys[..], old(vals[..]), i) ==> ZeroIfFree(keys[..], vals[..], i);
    }

    /** The reset as written: it clears one row less than the table has. */
    method Reset(zero: Key)
      requires Shape() && Empty(zero)
      modifies keys, vals
      ensures Shape()
      ensures forall i :: 0 <= i < rows - 1 ==> keys[i] == zero && vals[i] == 0
      ensures keys[rows - 1] == old(keys[rows - 1]) && vals[rows - 1] == old(vals[rows - 1])
      ensures (forall i :: 0 <= i < rows ==> Empty(keys[i])) <==> old(Empty(keys[rows - 1]))
      ensures old(Empty(keys[rows - 1]) && vals[rows - 1] == 0) ==> Valid() && M() == map[]
      ensures old(Valid()) ==> (Valid() <==> old(Empty(keys[rows - 1])) || Home(hash, old(keys[rows - 1]), rows) == rows - 1)
    {
      for i := 0 to rows - 1
        invariant forall j :: 0 <= j < i ==> keys[j] == zero && vals[j] == 0
        invariant keys[rows - 1] == old(keys[rows - 1]) && vals[rows - 1] == old(vals[rows - 1])
      {
        keys[i], vals[i] := zero, 0;
      }
      LinkedWithOnlyLast(keys[..], hash);
      assert old(Valid()) ==> old(ZeroIfFree(keys[..], vals[..], rows - 1));
      assert old(Valid()) ==> forall i :: 0 <= i < rows ==> ZeroIfFree(keys[..], vals[..], i);
    }
  }
}
