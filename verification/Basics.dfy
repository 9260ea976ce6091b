/** Value types shared by every module of the model. */
module Basics {

  datatype Option<+T> = None | Some(value: T)

  newtype byte = x: int | 0 <= x < 256

  /** Payloads, and texts in their UTF-8 encoding. */
  type Bytes = seq<byte>

  /** What a handler, a dispatcher or a host callback produces. */
  datatype Outcome = Ok(value: Bytes) | Err(text: Bytes)

  /** The bytes of an ASCII literal. */
  function Ascii(s: string): (r: Bytes)
    ensures |r| == |s| && forall i :: 0 <= i < |s| && s[i] < 128 as char ==> r[i] as int == s[i] as int
  {
    seq(|s|, i requires 0 <= i < |s| => (s[i] as int % 256) as byte)
  }

  function Get<K, V>(m: map<K, V>, k: K): Option<V> {
    if k in m then Some(m[k]) else None
  }
}

/** Two's-complement 32-bit arithmetic, as `AtomicI32::fetch_add` performs it. */
module Int32 {

  const TWO_31: int := 0x8000_0000
  const TWO_32: int := 0x1_0000_0000

  type int32 = x: int | -0x8000_0000 <= x < 0x8000_0000

  function Wrap(x: int): (r: int32)
    ensures (x - r) % TWO_32 == 0
  {
    (x + TWO_31) % TWO_32 - TWO_31
  }

  /** The id handed out by the (k+1)-st allocation; the counter starts at 1. */
  function IdOf(k: nat): int32 {
    Wrap(1 + k)
  }

  /** Wrapping before the increment makes no difference. */
  lemma WrapOnce(x: int)
    ensures Wrap(Wrap(x) + 1) == Wrap(x + 1)
  {
    var q := (x + TWO_31) / TWO_32;
    assert Wrap(x) == x - TWO_32 * q;
    RemainderIs(x + 1 + TWO_31, x + 1 + TWO_31 - TWO_32 * q, q);
  }

  /** Numbers that differ by `q` times 2^32 have the same remainder. */
  lemma RemainderIs(x: int, y: int, q: int)
    requires x - y == TWO_32 * q
    ensures x % TWO_32 == y % TWO_32
  {
    var r := y / TWO_32;
    assert x == TWO_32 * (r + q) + y % TWO_32;
  }

  /** Two allocations share an id exactly when a multiple of 2^32 separates them. */
  lemma IdCollision(j: nat, k: nat)
    ensures IdOf(j) == IdOf(k) <==> (k - j) % TWO_32 == 0
  {
    var x, y := 1 + j + TWO_31, 1 + k + TWO_31;
    var q := y / TWO_32 - x / TWO_32;
    assert k - j == TWO_32 * q + (y % TWO_32 - x % TWO_32);
    if x % TWO_32 <= y % TWO_32 {
      RemainderIs(k - j, y % TWO_32 - x % TWO_32, q);
    } else {
      RemainderIs(k - j, y % TWO_32 - x % TWO_32 + TWO_32, q - 1);
    }
  }

  /** Within any window of 2^32 consecutive allocations all ids differ. */
  lemma IdsDistinct(j: nat, k: nat)
    requires j < k < j + TWO_32
    ensures IdOf(j) != IdOf(k)
  {
    IdCollision(j, k);
  }

  /** The counter's next value is the next id: one wrapping increment per allocation. */
  lemma IdSuccessor(k: nat)
    ensures IdOf(k + 1) == Wrap(IdOf(k) + 1)
  {
    WrapOnce(1 + k);
  }

  /** An id is positive exactly in the first 2^31 - 1 allocations of each 2^32. */
  lemma PositiveIds(k: nat)
    ensures IdOf(k) > 0 <==> k % TWO_32 < TWO_31 - 1
  {
    var q, r := k / TWO_32, k % TWO_32;
    assert 1 + k + TWO_31 == TWO_32 * q + (1 + r + TWO_31);
    if 1 + r + TWO_31 < TWO_32 {
      RemainderIs(1 + k + TWO_31, 1 + r + TWO_31, q);
    } else {
      RemainderIs(1 + k + TWO_31, 1 + r + TWO_31 - TWO_32, q + 1);
    }
  }

  /** Every 32-bit value is the id of one of the first 2^32 allocations. */
  lemma EveryIdIsIssued(id: int32) returns (k: nat)
    ensures k < TWO_32 && IdOf(k) == id
  {
    if id >= 1 {
      k := id - 1;
    } else {
      k := id - 1 + TWO_32;
      RemainderIs(1 + k + TWO_31, id + TWO_31, 1);
    }
  }
}
