/** Networks: agreement on the first n bits of an address, and the block of addresses
    between the host part cleared and the host part set. */
module Prefix {

  import opened Bytes

  /** The network specification: x and a agree on their first n bits. */
  predicate SameNetwork(x: seq<byte>, a: seq<byte>, n: nat)
    requires |x| == |a| && n <= 8 * |a|
  {
    forall p: nat | p < n :: Bit(x, p) == Bit(a, p)
  }

  /** How many bits of byte i an n-bit prefix covers. */
  function Keep(n: nat, i: nat): (k: nat)
    ensures k <= 8
  {
    if n >= 8 * (i + 1) then 8 else if n > 8 * i then n - 8 * i else 0
  }

  /** x with everything but its top k bits cleared, respectively set. */
  function Floor(x: byte, k: nat): byte
    requires k <= 8
  {
    x - x % Unit(k)
  }

  function Ceil(x: byte, k: nat): byte
    requires k <= 8
  {
    UnitDivides(x, k);
    x - x % Unit(k) + (Unit(k) - 1)
  }

  lemma UnitDivides(x: byte, k: nat)
    requires k <= 8
    ensures x - x % Unit(k) + (Unit(k) - 1) < 256
  {
  }

  /** First and last address of the block a/n. */
  function BlockLo(a: seq<byte>, n: nat): (lo: seq<byte>)
    ensures |lo| == |a|
  {
    seq(|a|, i requires 0 <= i < |a| => Floor(a[i], Keep(n, i)))
  }

  function BlockHi(a: seq<byte>, n: nat): (hi: seq<byte>)
    ensures |hi| == |a|
  {
    seq(|a|, i requires 0 <= i < |a| => Ceil(a[i], Keep(n, i)))
  }

  predicate InBlock(x: seq<byte>, a: seq<byte>, n: nat)
    requires |x| == |a|
  {
    Leq(BlockLo(a, n), x) && Leq(x, BlockHi(a, n))
  }

  // ---------------------------------------------------------------- one byte

  predicate TopBitsAgree(x: byte, a: byte, k: nat)
    requires k <= 8
  {
    forall j: nat | j < k :: ByteBit(x, j) == ByteBit(a, j)
  }

  lemma {:induction false} TopBitsAreQuotient(x: byte, a: byte, k: nat)
    requires k <= 8
    ensures TopBitsAgree(x, a, k) <==> x / Unit(k) == a / Unit(k)
  {
    if k > 0 {
      TopBitsAreQuotient(x, a, k - 1);
      QuotientStep(x, k);
      QuotientStep(a, k);
      assert TopBitsAgree(x, a, k) <==> TopBitsAgree(x, a, k - 1) && ByteBit(x, k - 1) == ByteBit(a, k - 1);
    }
  }

  lemma QuotientStep(x: byte, k: nat)
    requires 0 < k <= 8
    ensures x / Unit(k) == 2 * (x / Unit(k - 1)) + (if ByteBit(x, k - 1) then 1 else 0)
  {
  }

  lemma QuotientIsBlock(x: byte, a: byte, k: nat)
    requires k <= 8
    ensures x / Unit(k) == a / Unit(k) <==> Floor(a, k) <= x <= Ceil(a, k)
  {
  }

  // ---------------------------------------------------------------- whole addresses

  function Rest(n: nat): nat {
    if n >= 8 then n - 8 else 0
  }

  /** Peel one byte off the specification. */
  lemma SameNetworkStep(x: seq<byte>, a: seq<byte>, n: nat)
    requires |x| == |a| > 0 && n <= 8 * |a|
    ensures SameNetwork(x, a, n) <==>
            TopBitsAgree(x[0], a[0], Keep(n, 0)) && SameNetwork(x[1..], a[1..], Rest(n))
  {
    if SameNetwork(x, a, n) {
      forall j: nat | j < Keep(n, 0)
        ensures ByteBit(x[0], j) == ByteBit(a[0], j)
      {
        assert Bit(x, j) == Bit(a, j);
      }
      forall p: nat | p < Rest(n)
        ensures Bit(x[1..], p) == Bit(a[1..], p)
      {
        assert Bit(x, p + 8) == Bit(a, p + 8);
        assert (p + 8) / 8 == p / 8 + 1 && (p + 8) % 8 == p % 8;
      }
    }
    if TopBitsAgree(x[0], a[0], Keep(n, 0)) && SameNetwork(x[1..], a[1..], Rest(n)) {
      forall p: nat | p < n
        ensures Bit(x, p) == Bit(a, p)
      {
        if p < 8 {
          assert ByteBit(x[0], p) == ByteBit(a[0], p);
        } else {
          assert Bit(x[1..], p - 8) == Bit(a[1..], p - 8);
          assert p / 8 == (p - 8) / 8 + 1 && p % 8 == (p - 8) % 8;
        }
      }
    }
  }

  lemma KeepShift(n: nat, i: nat)
    ensures Keep(n, i + 1) == Keep(Rest(n), i)
  {
  }

  lemma BlockTail(a: seq<byte>, n: nat)
    requires |a| > 0
    ensures BlockLo(a, n)[1..] == BlockLo(a[1..], Rest(n))
    ensures BlockHi(a, n)[1..] == BlockHi(a[1..], Rest(n))
  {
    forall i: nat | i < |a| - 1
      ensures BlockLo(a, n)[1..][i] == BlockLo(a[1..], Rest(n))[i]
      ensures BlockHi(a, n)[1..][i] == BlockHi(a[1..], Rest(n))[i]
    {
      KeepShift(n, i);
    }
  }

  /** The range written into a selector is exactly the network. */
  lemma {:induction false} BlockIsNetwork(x: seq<byte>, a: seq<byte>, n: nat)
    requires |x| == |a| && n <= 8 * |a|
    ensures InBlock(x, a, n) <==> SameNetwork(x, a, n)
  {
    if |a| > 0 {
      BlockIsNetwork(x[1..], a[1..], Rest(n));
      BlockTail(a, n);
      SameNetworkStep(x, a, n);
      TopBitsAreQuotient(x[0], a[0], Keep(n, 0));
      QuotientIsBlock(x[0], a[0], Keep(n, 0));
    }
  }

  lemma {:induction false} NetworkByBytes(x: seq<byte>, a: seq<byte>, n: nat)
    requires |x| == |a| && n <= 8 * |a|
    ensures SameNetwork(x, a, n) <==>
            forall i: nat | i < |a| :: TopBitsAgree(x[i], a[i], Keep(n, i))
  {
    if |a| > 0 {
      NetworkByBytes(x[1..], a[1..], Rest(n));
      SameNetworkStep(x, a, n);
      if forall i: nat | i < |a| :: TopBitsAgree(x[i], a[i], Keep(n, i)) {
        forall i: nat | i < |a| - 1
          ensures TopBitsAgree(x[1..][i], a[1..][i], Keep(Rest(n), i))
        {
          KeepShift(n, i);
          assert TopBitsAgree(x[i + 1], a[i + 1], Keep(n, i + 1));
        }
      }
      if SameNetwork(x, a, n) {
        forall i: nat | i < |a|
          ensures TopBitsAgree(x[i], a[i], Keep(n, i))
        {
          if i > 0 {
            KeepShift(n, i - 1);
            assert TopBitsAgree(x[1..][i - 1], a[1..][i - 1], Keep(Rest(n), i - 1));
          }
        }
      }
    }
  }
}
