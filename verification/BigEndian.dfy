/** Octet strings as big-endian numbers. */
module BigEndian {

  import opened Arith
  import opened Bytes
  import opened Prefix

  /** The weight of an octet with l octets behind it. */
  function Weight(l: nat): (w: nat)
    ensures w >= 1
  {
    TwoPow(8 * l)
  }

  lemma WeightStep(l: nat)
    ensures Weight(l + 1) == 256 * Weight(l)
  {
    TwoPowSmall();
    TwoPowAdd(8, 8 * l);
  }

  /** The number an octet string spells, most significant octet first. */
  function Value(b: seq<byte>): nat {
    if b == [] then 0 else b[0] as int * Weight(|b| - 1) + Value(b[1..])
  }

  lemma {:induction false} ValueBound(b: seq<byte>)
    ensures Value(b) < Weight(|b|)
  {
    if b != [] {
      ValueBound(b[1..]);
      WeightStep(|b| - 1);
      MulMono(b[0], 255, Weight(|b| - 1));
    }
  }

  /** memcmp order is numeric order. */
  lemma {:induction false} LeqIsNumeric(a: seq<byte>, b: seq<byte>)
    requires |a| == |b|
    ensures Leq(a, b) <==> Value(a) <= Value(b)
  {
    if a != [] {
      LeqIsNumeric(a[1..], b[1..]);
      ValueBound(a[1..]);
      ValueBound(b[1..]);
      var w := Weight(|a| - 1);
      if a[0] < b[0] {
        MulMono(a[0] + 1, b[0], w);
        MulAdd(a[0], 1, w);
      } else if b[0] < a[0] {
        MulMono(b[0] + 1, a[0], w);
        MulAdd(b[0], 1, w);
      }
    }
  }

  lemma ValueInjective(a: seq<byte>, b: seq<byte>)
    requires |a| == |b|
    ensures Value(a) == Value(b) <==> a == b
  {
    if Value(a) == Value(b) {
      LeqIsNumeric(a, b);
      LeqIsNumeric(b, a);
      LeqAntisymmetric(a, b);
    }
  }

  /** The 16-bit fields of the wire are big-endian, in both directions. */
  lemma U16IsNumber(b: seq<byte>, off: nat)
    requires off + 2 <= |b|
    ensures U16(b, off) == Value(b[off..off + 2])
  {
    var f := b[off..off + 2];
    TwoPowSmall();
    assert f[1..] == [b[off + 1]] && f[1..][1..] == [];
    assert Value(f[1..]) == b[off + 1] * Weight(0) + Value([]);
    assert Value(f) == b[off] * Weight(1) + Value(f[1..]);
  }

  // ---------------------------------------------------------------- blocks as intervals

  lemma UnitIsPower(k: nat)
    requires k <= 8
    ensures Unit(k) == TwoPow(8 - k)
  {
    TwoPowSmall();
  }

  /** A whole leading octet leaves the remainder to the tail. */
  lemma WholeOctet(x: nat, l: nat, n: nat, tail: nat)
    requires 8 <= n <= 8 * (l + 1)
    ensures (x * Weight(l) + tail) % TwoPow(8 * (l + 1) - n) == tail % TwoPow(8 * l - (n - 8))
  {
    var size, m := TwoPow(8 * l - (n - 8)), TwoPow(n - 8);
    TwoPowAdd(n - 8, 8 * l - (n - 8));
    assert 8 * (l + 1) - n == 8 * l - (n - 8);
    MulAssoc(x, m, size);
    ModAddMultiple(x * m, size, tail);
  }

  /** A partial leading octet decides alone: rounding x * w + tail to a multiple of u * w. */
  lemma PartialOctet(x: int, u: int, w: int, tail: int)
    requires u > 0 && 0 <= tail < w
    ensures var v := x * w + tail;
            && 0 < u * w
            && (x - x % u) * w == v - v % (u * w)
            && (x - x % u + (u - 1)) * w + (w - 1) == v - v % (u * w) + (u * w - 1)
  {
    ModScaled(x, u, w, tail);
    MulAdd(x, -(x % u), w);
    MulAdd(x - x % u, u - 1, w);
    MulAdd(u, -1, w);
  }

  ghost predicate IsInterval(a: seq<byte>, lo: seq<byte>, hi: seq<byte>, size: nat)
    requires size > 0
  {
    && Value(lo) == Value(a) - Value(a) % size
    && Value(hi) == Value(a) - Value(a) % size + (size - 1)
  }

  lemma BlockValueWhole(a: seq<byte>, n: nat)
    requires a != [] && 8 <= n <= 8 * |a|
    requires IsInterval(a[1..], BlockLo(a, n)[1..], BlockHi(a, n)[1..], TwoPow(8 * (|a| - 1) - (n - 8)))
    ensures IsInterval(a, BlockLo(a, n), BlockHi(a, n), TwoPow(8 * |a| - n))
  {
    WholeOctet(a[0], |a| - 1, n, Value(a[1..]));
    assert BlockLo(a, n)[0] == a[0] && BlockHi(a, n)[0] == a[0];
    assert 8 * |a| - n == 8 * (|a| - 1) - (n - 8);
  }

  lemma BlockValuePartial(a: seq<byte>, n: nat)
    requires a != [] && n < 8
    requires IsInterval(a[1..], BlockLo(a, n)[1..], BlockHi(a, n)[1..], Weight(|a| - 1))
    ensures IsInterval(a, BlockLo(a, n), BlockHi(a, n), TwoPow(8 * |a| - n))
  {
    var l, tail := |a| - 1, Value(a[1..]);
    var w := Weight(l);
    ValueBound(a[1..]);
    ModUnique(tail, w, 0, tail);
    UnitIsPower(n);
    TwoPowAdd(8 - n, 8 * l);
    assert 8 * |a| - n == 8 - n + 8 * l;
    PartialOctet(a[0], Unit(n), w, tail);
    assert BlockLo(a, n)[0] == Floor(a[0], n) && BlockHi(a, n)[0] == Ceil(a[0], n);
  }

  /** The block a/n is the aligned interval of 2^(8|a| - n) numbers that holds a. */
  lemma {:induction false} BlockValue(a: seq<byte>, n: nat)
    requires n <= 8 * |a|
    ensures IsInterval(a, BlockLo(a, n), BlockHi(a, n), TwoPow(8 * |a| - n))
  {
    if a != [] {
      BlockValue(a[1..], Rest(n));
      BlockTail(a, n);
      if n >= 8 {
        BlockValueWhole(a, n);
      } else {
        BlockValuePartial(a, n);
      }
    }
  }
}
