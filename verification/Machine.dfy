/** 32-bit machine words, modelled as bounded integers whose wrap-around is written out. */
module Machine {

  const WORD: int := 0x1_0000_0000

  type uint32 = x: int | 0 <= x < 0x1_0000_0000

  /** Unsigned addition modulo 2^32. */
  function Add32(x: uint32, y: uint32): uint32 {
    (x + y) % WORD
  }

  /** A counter after n more, modulo 2^32. */
  function Plus32(x: uint32, n: nat): uint32 {
    (x + n) % WORD
  }

  /** A 32-bit word read as a signed integer. */
  function AsInt(x: uint32): int {
    if x < 0x8000_0000 then x else x - WORD
  }

  /** An integer wrapped to a signed 32-bit word. */
  function Int32(x: int): int {
    AsInt(x % WORD)
  }

  datatype Option<+T> = None | Some(value: T)

  lemma Add32Small(x: uint32, y: uint32)
    requires x + y < WORD
    ensures Add32(x, y) == x + y
  {
  }

  lemma Plus32Small(x: uint32, n: nat)
    requires x + n < WORD
    ensures Plus32(x, n) == x + n
  {
  }

  /** Wrapping twice is wrapping once. */
  lemma AddModAssoc(x: int, y: int, z: int)
    ensures ((x + y) % WORD + z) % WORD == (x + y + z) % WORD
  {
    var q, r := (x + y) / WORD, (x + y) % WORD;
    assert x + y + z == q * WORD + (r + z);
    ModShift(r + z, q);
  }

  lemma ModShift(x: int, q: int)
    ensures (q * WORD + x) % WORD == x % WORD
  {
    var d, r := x / WORD, x % WORD;
    assert q * WORD + x == (q + d) * WORD + r;
  }

  lemma Add32Commutes(x: uint32, y: uint32, z: uint32)
    ensures Add32(Add32(x, y), z) == Add32(Add32(x, z), y)
    ensures Add32(Add32(x, y), z) == Add32(x, Add32(y, z))
  {
    AddModAssoc(x, y, z);
    AddModAssoc(x, z, y);
    AddModAssoc(y, z, x);
  }

  /** Bit i of a number. */
  function BitOf(x: nat, i: nat): (b: nat)
    ensures b < 2
  {
    if i == 0 then x % 2 else BitOf(x / 2, i - 1)
  }

  function Pow2(n: nat): (p: nat)
    ensures p > 0
  {
    if n == 0 then 1 else 2 * Pow2(n - 1)
  }

  lemma Pow2Of32()
    ensures Pow2(32) == WORD
  {
    assert Pow2(8) == 0x100;
    assert Pow2(16) == 0x1_0000;
    assert Pow2(24) == 0x100_0000;
  }
}
