/** Doubling in GF(2^128) as CMAC uses it (section 2.3 of RFC 4493): gf_mult. */
module Gf128 {
  import opened Arith
  import opened Bytes
  import opened BigEndian

  const BLOCK: nat := 16
  const R128: bv8 := 0x87

  type Block = s: seq<bv8> | |s| == BLOCK witness [0, 0, 0, 0, 0, 0, 0, 0, 0, 0, 0, 0, 0, 0, 0, 0]

  // ---------------------------------------------------------------- bit-vector facts

  function ShiftByte(x: bv8, y: bv8): bv8 {
    (x << 1) | (y >> 7)
  }

  lemma CarryByte(x: bv8, y: bv8)
    ensures (((((x as bv16) << 1) | ((y >> 7) as bv16)) & 0xff) as bv8) == ShiftByte(x, y)
    ensures ((x as bv16) << 1) >> 8 == (x >> 7) as bv16
  {
  }

  lemma LinearByte(x: bv8, y: bv8, u: bv8, v: bv8, s: bv8, t: bv8)
    ensures ShiftByte(x ^ u, y ^ v) ^ (s ^ t) == (ShiftByte(x, y) ^ s) ^ (ShiftByte(u, v) ^ t)
  {
  }

  /** What is added for a top bit. */
  function Reduction(top: bv8): bv8 {
    if top >> 7 != 0 then R128 else 0
  }

  lemma ReductionXor(x: bv8, u: bv8)
    ensures Reduction(x ^ u) == Reduction(x) ^ Reduction(u)
  {
  }

  lemma XorZero(x: bv8)
    ensures x ^ 0 == x && (0 as bv8) ^ 0 == 0
  {
  }

  function UnshiftByte(w: bv8, x: bv8): bv8 {
    (w << 7) | (x >> 1)
  }

  /** A shifted byte and the one before it give the byte back. */
  lemma ShiftedBack(x: bv8, y: bv8, w: bv8)
    ensures UnshiftByte(ShiftByte(w, x), ShiftByte(x, y)) == x
    ensures UnshiftByte(x >> 7, ShiftByte(x, y)) == x
  {
  }

  /** The lowest bit after doubling says whether the reduction took place, and taking the
      reduction away again leaves the shifted byte. */
  lemma LowestBit(x: bv8, top: bv8)
    ensures (ShiftByte(x, 0) ^ Reduction(top)) & 1 == top >> 7
    ensures (ShiftByte(x, 0) ^ Reduction(top)) ^ Reduction(top) == ShiftByte(x, 0)
    ensures top >> 7 == 1 ==> Reduction(top) == R128
    ensures top >> 7 != 1 ==> top >> 7 == 0 && Reduction(top) == 0
  {
  }

  // ---------------------------------------------------------------- doubling

  function Xor(a: seq<bv8>, b: seq<bv8>): (r: seq<bv8>)
    requires |a| == |b|
    ensures |r| == |a|
  {
    seq(|a|, i requires 0 <= i < |a| => a[i] ^ b[i])
  }

  function At(l: seq<bv8>, i: nat): bv8 {
    if i < |l| then l[i] else 0
  }

  function Next(l: seq<bv8>, i: nat): bv8 {
    At(l, i + 1)
  }

  /** One bit to the left; zero comes in. */
  function Shift(l: seq<bv8>): (r: seq<bv8>)
    ensures |r| == |l|
  {
    seq(|l|, i requires 0 <= i < |l| => ShiftByte(l[i], Next(l, i)))
  }

  /** Multiplication by x modulo x^128 + x^7 + x^2 + x + 1. */
  function Double(l: Block): Block {
    var s := Shift(l);
    s[BLOCK - 1 := s[BLOCK - 1] ^ Reduction(l[0])]
  }

  /** What byte i is xored with. */
  function ReductionAt(l: Block, i: nat): bv8 {
    if i == BLOCK - 1 then Reduction(l[0]) else 0
  }

  lemma DoubleAt(l: Block, i: nat)
    requires i < BLOCK
    ensures Double(l)[i] == ShiftByte(l[i], Next(l, i)) ^ ReductionAt(l, i)
  {
    XorZero(ShiftByte(l[i], Next(l, i)));
  }

  // ---------------------------------------------------------------- gf_mult

  /** One byte of the loop: the shifted byte with the carry, and the carry out. */
  method ShiftStep(x: bv8, carry: bv16, ghost l: seq<bv8>, ghost i: nat) returns (k: bv8, out: bv16)
    requires i < |l| && x == l[i] && CarryInto(l, i + 1, carry)
    ensures k == Shift(l)[i] && CarryInto(l, i, out)
  {
    CarryByte(x, At(l, i + 1));
    var value: bv16 := (x as bv16) << 1;
    k := ((value | carry) & 0xff) as bv8;
    out := value >> 8;
  }

  lemma NoCarry()
    ensures ((0 as bv8) >> 7) as bv16 == 0
  {
  }

  lemma CarryOut(x: bv8)
    ensures (x >> 7) as bv16 == 0 ==> Reduction(x) == 0
    ensures (x >> 7) as bv16 != 0 ==> Reduction(x) == R128
  {
  }

  /** gf_mult with r = 0x87: from the last byte to the first, carrying one bit; the two
      buffers may be the same. */
  method GfMult(l: array<bv8>, k: array<bv8>)
    requires l.Length == k.Length == BLOCK
    modifies k
    ensures k[..] == Double(old(l[..]))
  {
    ghost var was, s := l[..], Shift(l[..]);
    var carry: bv16 := 0;
    NoCarry();
    var i: nat := BLOCK;
    while i > 0
      invariant i <= BLOCK
      invariant forall j | 0 <= j < i :: l[j] == was[j]
      invariant forall j | i <= j < BLOCK :: k[j] == s[j]
      invariant CarryInto(was, i, carry)
    {
      i := i - 1;
      k[i], carry := ShiftStep(l[i], carry, was, i);
    }
    Reduce(k, carry, was);
  }

  /** The reduction after the loop. */
  method Reduce(k: array<bv8>, carry: bv16, ghost l: Block)
    requires k.Length == BLOCK && (forall j | 0 <= j < BLOCK :: k[j] == Shift(l)[j]) && CarryInto(l, 0, carry)
    modifies k
    ensures k[..] == Double(l)
  {
    assert k[..] == Shift(l);
    FirstCarry(l, carry);
    if carry != 0 {
      k[BLOCK - 1] := k[BLOCK - 1] ^ R128;
    }
  }

  /** The carry into byte i - 1 is the top bit of byte i. */
  predicate CarryInto(l: seq<bv8>, i: nat, carry: bv16) {
    carry == (At(l, i) >> 7) as bv16
  }

  lemma FirstCarry(l: Block, carry: bv16)
    requires CarryInto(l, 0, carry)
    ensures Double(l) == if carry != 0 then Shift(l)[BLOCK - 1 := Shift(l)[BLOCK - 1] ^ R128] else Shift(l)
  {
    CarryOut(l[0]);
    XorZero(Shift(l)[BLOCK - 1]);
  }

  // ---------------------------------------------------------------- linear and injective

  lemma NextXor(a: Block, b: Block, i: nat)
    requires i < BLOCK
    ensures Next(Xor(a, b), i) == Next(a, i) ^ Next(b, i)
  {
    XorZero(0);
  }

  lemma ReductionAtXor(a: Block, b: Block, i: nat)
    requires i < BLOCK
    ensures ReductionAt(Xor(a, b), i) == ReductionAt(a, i) ^ ReductionAt(b, i)
  {
    if i == BLOCK - 1 {
      assert Xor(a, b)[0] == a[0] ^ b[0];
      ReductionXor(a[0], b[0]);
    } else {
      XorZero(0);
    }
  }

  lemma DoubleIsLinear(a: Block, b: Block)
    ensures Double(Xor(a, b)) == Xor(Double(a), Double(b))
  {
    var c := Xor(a, b);
    forall i: nat | i < BLOCK ensures Double(c)[i] == Double(a)[i] ^ Double(b)[i] {
      DoubleAt(a, i);
      DoubleAt(b, i);
      DoubleAt(c, i);
      NextXor(a, b, i);
      ReductionAtXor(a, b, i);
      LinearByte(a[i], Next(a, i), b[i], Next(b, i), ReductionAt(a, i), ReductionAt(b, i));
    }
  }

  /** Division by x. */
  function Halve(d: Block): Block {
    if d[BLOCK - 1] & 1 == 1 then ShiftBack(d[BLOCK - 1 := d[BLOCK - 1] ^ R128], 1) else ShiftBack(d, 0)
  }

  /** One bit to the right; the lowest bit of top comes in. */
  function ShiftBack(s: Block, top: bv8): Block {
    seq(BLOCK, i requires 0 <= i < BLOCK => UnshiftByte(Before(s, top, i), s[i]))
  }

  function Before(s: Block, top: bv8, i: nat): bv8
    requires i < BLOCK
  {
    if i == 0 then top else s[i - 1]
  }

  lemma ShiftBackFirst(l: Block)
    ensures ShiftBack(Shift(l), l[0] >> 7)[0] == l[0]
  {
    ShiftedBack(l[0], Next(l, 0), 0);
  }

  lemma ShiftBackAt(l: Block, top: bv8, i: nat)
    requires 0 < i < BLOCK
    ensures ShiftBack(Shift(l), top)[i] == l[i]
  {
    ShiftedBack(l[i], Next(l, i), l[i - 1]);
    assert Shift(l)[i - 1] == ShiftByte(l[i - 1], l[i]);
  }

  lemma ShiftBackShift(l: Block)
    ensures ShiftBack(Shift(l), l[0] >> 7) == l
  {
    ShiftBackFirst(l);
    forall i: nat | 0 < i < BLOCK ensures ShiftBack(Shift(l), l[0] >> 7)[i] == l[i] {
      ShiftBackAt(l, l[0] >> 7, i);
    }
  }

  /** Doubling can be undone, so it is injective and each subkey determines L. */
  lemma HalveDouble(l: Block)
    ensures Halve(Double(l)) == l
  {
    var d, s := Double(l), Shift(l);
    LowestBit(l[BLOCK - 1], l[0]);
    XorZero(s[BLOCK - 1]);
    assert d[BLOCK - 1 := d[BLOCK - 1] ^ Reduction(l[0])] == s;
    assert Reduction(l[0]) == 0 ==> d == s;
    ShiftBackShift(l);
  }

  lemma DoubleIsInjective(a: Block, b: Block)
    requires Double(a) == Double(b)
    ensures a == b
  {
    HalveDouble(a);
    HalveDouble(b);
  }

  // ---------------------------------------------------------------- as numbers

  function Number(l: seq<bv8>): nat {
    Value(Octets(l))
  }

  lemma ShiftInt(x: bv8, y: bv8)
    ensures ShiftByte(x, y) as int == 2 * (x as int) - 256 * ((x >> 7) as int) + (y >> 7) as int
  {
  }

  lemma NumberCons(l: seq<bv8>)
    requires l != []
    ensures Number(l) == l[0] as int * Weight(|l| - 1) + Number(l[1..])
  {
    assert Octets(l)[1..] == Octets(l[1..]);
  }

  lemma CombineShift(x: int, top: int, c: int, w: int, v: int, t: int, s: int)
    requires t + c * w == 2 * v && s == 2 * x - 256 * top + c
    ensures s * w + t + top * (256 * w) == 2 * (x * w + v)
  {
    calc {
      s * w;
    == (2 * x - 256 * top + c) * w;
    == { MulAdd(2 * x - 256 * top, c, w); MulAdd(2 * x, -256 * top, w); }
      (2 * x) * w + (-256 * top) * w + c * w;
    == { MulAssoc(2, x, w); MulAssoc(-256, top, w); }
      2 * (x * w) - 256 * (top * w) + c * w;
    }
    MulAssoc(256, top, w);
    assert top * (256 * w) == 256 * (top * w);
  }

  function Top(x: bv8): int {
    (x >> 7) as int
  }

  lemma ConsDoubles(l: seq<bv8>, t: seq<bv8>, w: int, v: int, u: int)
    requires l != [] && t == l[1..] && w == Weight(|t|) && v == Number(t) && u == Number(Shift(t))
    requires u + Top(At(t, 0)) * w == 2 * v
    ensures Number(Shift(l)) + Top(l[0]) * (256 * w) == 2 * Number(l)
  {
    assert Shift(l)[1..] == Shift(t);
    NumberCons(l);
    NumberCons(Shift(l));
    ShiftInt(l[0], At(t, 0));
    CombineShift(l[0] as int, Top(l[0]), Top(At(t, 0)), w, v, u, Shift(l)[0] as int);
  }

  /** The shift doubles the number; what does not fit is the top bit. */
  lemma {:induction false} ShiftDoubles(l: seq<bv8>)
    ensures Number(Shift(l)) + Top(At(l, 0)) * Weight(|l|) == 2 * Number(l)
  {
    if l == [] {
      NoTop();
    } else {
      var t := l[1..];
      ShiftDoubles(t);
      WeightStep(|t|);
      ConsDoubles(l, t, Weight(|t|), Number(t), Number(Shift(t)));
    }
  }

  lemma NoTop()
    ensures Top(0) == 0
  {
  }

  lemma TopIsBit(x: bv8)
    ensures Top(x) == if Reduction(x) == 0 then 0 else 1
    ensures Reduction(x) == 0 || Reduction(x) == R128
  {
  }

  /** Doubling modulo 2^128, and 0x87 xored in exactly when the doubled number overflowed. */
  lemma DoubleMeaning(l: Block) returns (s: Block)
    ensures Number(s) == 2 * Number(l) % Weight(16)
    ensures Double(l) == s[15 := s[15] ^ (if 2 * Number(l) >= Weight(16) then 0x87 else 0)]
  {
    s := Shift(l);
    OverflowReduces(l);
  }

  lemma OverflowReduces(l: Block)
    ensures Number(Shift(l)) == 2 * Number(l) % Weight(BLOCK)
    ensures Reduction(l[0]) == if 2 * Number(l) >= Weight(BLOCK) then R128 else 0
  {
    ShiftDoubles(l);
    ValueBound(Octets(Shift(l)));
    TopIsBit(l[0]);
    ModUnique(2 * Number(l), Weight(BLOCK), Top(l[0]), Number(Shift(l)));
  }

  // ---------------------------------------------------------------- as polynomials

  predicate BitOf(x: bv8, j: nat)
    requires j < 8
  {
    (x >> j) & 1 == 1
  }

  /** The coefficient of x^p in the polynomial that a block spells, highest power first. */
  predicate Coefficient(l: Block, p: nat)
    requires p < 128
  {
    BitOf(l[15 - p / 8], p % 8)
  }

  lemma ShiftedBit(x: bv8, y: bv8, j: nat)
    requires j < 8
    ensures BitOf(ShiftByte(x, y), j) == if j == 0 then BitOf(y, 7) else BitOf(x, j - 1)
  {
    match j {
      case 0 =>
      case 1 =>
      case 2 =>
      case 3 =>
      case 4 =>
      case 5 =>
      case 6 =>
      case 7 =>
    }
  }

  lemma XoredBit(x: bv8, y: bv8, j: nat)
    requires j < 8
    ensures BitOf(x ^ y, j) == (BitOf(x, j) != BitOf(y, j))
  {
    match j {
      case 0 =>
      case 1 =>
      case 2 =>
      case 3 =>
      case 4 =>
      case 5 =>
      case 6 =>
      case 7 =>
    }
  }

  lemma ReducedBit(top: bv8, j: nat)
    requires j < 8
    ensures BitOf(Reduction(top), j) == (BitOf(top, 7) && j in {0, 1, 2, 7})
    ensures !BitOf(0, j)
  {
    match j {
      case 0 =>
      case 1 =>
      case 2 =>
      case 3 =>
      case 4 =>
      case 5 =>
      case 6 =>
      case 7 =>
    }
  }

  lemma ShiftedCoefficient(l: Block, p: nat, i: nat, j: nat)
    requires p < 128 && i == 15 - p / 8 && j == p % 8
    ensures BitOf(ShiftByte(l[i], Next(l, i)), j) == (p > 0 && Coefficient(l, p - 1))
  {
    ShiftedBit(l[i], Next(l, i), j);
    if j > 0 {
      assert (p - 1) / 8 == p / 8 && (p - 1) % 8 == j - 1;
    } else if p > 0 {
      assert 15 - (p - 1) / 8 == i + 1 && (p - 1) % 8 == 7;
    } else {
      ReducedBit(0, 7);
    }
  }

  /** Multiplication by x modulo x^128 + x^7 + x^2 + x + 1: every coefficient moves up by one,
      and the one of x^127 comes back at x^7, x^2, x and 1. */
  lemma DoubleIsTimesX(l: Block, p: nat)
    requires p < 128
    ensures Coefficient(Double(l), p) == ((p > 0 && Coefficient(l, p - 1)) != (p in {0, 1, 2, 7} && Coefficient(l, 127)))
  {
    var i, j := 15 - p / 8, p % 8;
    DoubleAt(l, i);
    ShiftedCoefficient(l, p, i, j);
    XoredBit(ShiftByte(l[i], Next(l, i)), ReductionAt(l, i), j);
    ReducedBit(l[0], j);
  }
}
