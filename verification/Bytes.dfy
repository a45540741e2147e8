/** Octet strings as the daemon sees them on the wire: memcmp order, single bits
    (most significant first) and big-endian 16-bit fields. */
module Bytes {

  type byte = x: int | 0 <= x < 256

  // ---------------------------------------------------------------- memcmp order

  /** memcmp(a, b, n) <= 0 for two strings of the same length. */
  predicate Leq(a: seq<byte>, b: seq<byte>)
    requires |a| == |b|
  {
    a == [] || a[0] < b[0] || (a[0] == b[0] && Leq(a[1..], b[1..]))
  }

  lemma {:induction false} LeqReflexive(a: seq<byte>)
    ensures Leq(a, a)
  {
    if a != [] {
      LeqReflexive(a[1..]);
    }
  }

  lemma {:induction false} LeqTotal(a: seq<byte>, b: seq<byte>)
    requires |a| == |b|
    ensures Leq(a, b) || Leq(b, a)
  {
    if a != [] {
      LeqTotal(a[1..], b[1..]);
    }
  }

  lemma {:induction false} LeqTransitive(a: seq<byte>, b: seq<byte>, c: seq<byte>)
    requires |a| == |b| == |c|
    requires Leq(a, b) && Leq(b, c)
    ensures Leq(a, c)
  {
    if a != [] && a[0] == b[0] == c[0] {
      LeqTransitive(a[1..], b[1..], c[1..]);
    }
  }

  lemma {:induction false} LeqAntisymmetric(a: seq<byte>, b: seq<byte>)
    requires |a| == |b|
    requires Leq(a, b) && Leq(b, a)
    ensures a == b
  {
    if a != [] {
      LeqAntisymmetric(a[1..], b[1..]);
      assert a == [a[0]] + a[1..];
      assert b == [b[0]] + b[1..];
    }
  }

  /** The bytewise order that the selector checks use implies the memcmp order. */
  lemma {:induction false} BytewiseLeq(a: seq<byte>, b: seq<byte>)
    requires |a| == |b|
    requires forall i | 0 <= i < |a| :: a[i] <= b[i]
    ensures Leq(a, b)
  {
    if a != [] {
      BytewiseLeq(a[1..], b[1..]);
    }
  }

  // ---------------------------------------------------------------- bits

  /** 2 to the power 8 - k: the weight of one step when only the top k bits count. */
  function Unit(k: nat): (u: int)
    requires k <= 8
    ensures 1 <= u <= 256
  {
    if k == 0 then 256 else if k == 1 then 128 else if k == 2 then 64
    else if k == 3 then 32 else if k == 4 then 16 else if k == 5 then 8
    else if k == 6 then 4 else if k == 7 then 2 else 1
  }

  predicate ByteBit(x: byte, j: nat)
    requires j < 8
  {
    (x / Unit(j + 1)) % 2 == 1
  }

  /** Bit p of an octet string, counted from its most significant bit. */
  predicate Bit(b: seq<byte>, p: nat)
    requires p < 8 * |b|
  {
    ByteBit(b[p / 8], p % 8)
  }

  // ---------------------------------------------------------------- 16-bit fields

  function U16(b: seq<byte>, off: nat): (v: nat)
    requires off + 2 <= |b|
    ensures v < 0x1_0000
  {
    b[off] as int * 256 + b[off + 1] as int
  }

  function PutU16(v: nat): (b: seq<byte>)
    requires v < 0x1_0000
    ensures |b| == 2 && U16(b, 0) == v
  {
    [v / 256, v % 256]
  }

  // ---------------------------------------------------------------- host bytes

  /** The octets of an address or block held in memory. */
  function Octets(a: seq<bv8>): (o: seq<byte>)
    ensures |o| == |a|
    ensures forall i | 0 <= i < |a| :: o[i] == a[i] as int
  {
    seq(|a|, i requires 0 <= i < |a| => a[i] as int)
  }
}
