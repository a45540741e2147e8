/** The bit operations the C code performs on single bytes and on IPv4 words, and the
    arithmetic of module Prefix that they stand for. */
module BitMasks {

  import opened Bytes
  import opened Prefix
  import BV = BitVectors

  /** The byte whose k most significant bits are set, and its complement. */
  function HighMask(k: nat): bv8
    requires k <= 8
  {
    if k == 0 then 0x00 else if k == 1 then 0x80 else if k == 2 then 0xC0
    else if k == 3 then 0xE0 else if k == 4 then 0xF0 else if k == 5 then 0xF8
    else if k == 6 then 0xFC else if k == 7 then 0xFE else 0xFF
  }

  function LowMask(k: nat): bv8
    requires k <= 8
  {
    if k == 0 then 0xFF else if k == 1 then 0x7F else if k == 2 then 0x3F
    else if k == 3 then 0x1F else if k == 4 then 0x0F else if k == 5 then 0x07
    else if k == 6 then 0x03 else if k == 7 then 0x01 else 0x00
  }

  lemma LowMaskIsComplement(k: nat)
    requires k <= 8
    ensures LowMask(k) == !HighMask(k)
  {
  }

  lemma ShiftIsHighMask(k: nat)
    requires k <= 8
    ensures (0xFF as bv8) << (8 - k) == HighMask(k)
  {
  }

  ghost predicate AndClears(x: bv8, k: nat)
    requires k <= 8
  {
    (x & HighMask(k)) as int == x as int - x as int % Unit(k)
  }

  ghost predicate OrSets(x: bv8, k: nat)
    requires k <= 8
  {
    (x | LowMask(k)) as int == x as int - x as int % Unit(k) + (Unit(k) - 1)
  }

  ghost predicate XorCompares(x: bv8, y: bv8, k: nat)
    requires k <= 8
  {
    (x ^ y) & HighMask(k) == 0 <==> x as int / Unit(k) == y as int / Unit(k)
  }

  // One lemma per mask keeps every bit-level proof about literals.
  lemma And0(x: bv8) ensures AndClears(x, 0) {}
  lemma And1(x: bv8) ensures AndClears(x, 1) { assert (x & 0x80) as int == x as int - x as int % 128; }
  lemma And2(x: bv8) ensures AndClears(x, 2) { assert (x & 0xC0) as int == x as int - x as int % 64; }
  lemma And3(x: bv8) ensures AndClears(x, 3) { assert (x & 0xE0) as int == x as int - x as int % 32; }
  lemma And4(x: bv8) ensures AndClears(x, 4) { assert (x & 0xF0) as int == x as int - x as int % 16; }
  lemma And5(x: bv8) ensures AndClears(x, 5) { assert (x & 0xF8) as int == x as int - x as int % 8; }
  lemma And6(x: bv8) ensures AndClears(x, 6) { assert (x & 0xFC) as int == x as int - x as int % 4; }
  lemma And7(x: bv8) ensures AndClears(x, 7) { assert (x & 0xFE) as int == x as int - x as int % 2; }
  lemma And8(x: bv8) ensures AndClears(x, 8) {}
  lemma Or0(x: bv8) ensures OrSets(x, 0) {}
  lemma Or1(x: bv8) ensures OrSets(x, 1) { assert (x | 0x7F) as int == x as int - x as int % 128 + 127; }
  lemma Or2(x: bv8) ensures OrSets(x, 2) { assert (x | 0x3F) as int == x as int - x as int % 64 + 63; }
  lemma Or3(x: bv8) ensures OrSets(x, 3) { assert (x | 0x1F) as int == x as int - x as int % 32 + 31; }
  lemma Or4(x: bv8) ensures OrSets(x, 4) { assert (x | 0x0F) as int == x as int - x as int % 16 + 15; }
  lemma Or5(x: bv8) ensures OrSets(x, 5) { assert (x | 0x07) as int == x as int - x as int % 8 + 7; }
  lemma Or6(x: bv8) ensures OrSets(x, 6) { assert (x | 0x03) as int == x as int - x as int % 4 + 3; }
  lemma Or7(x: bv8) ensures OrSets(x, 7) { assert (x | 0x01) as int == x as int - x as int % 2 + 1; }
  lemma Or8(x: bv8) ensures OrSets(x, 8) {}
  lemma Xor0(x: bv8, y: bv8) ensures XorCompares(x, y, 0) { And0(x ^ y); BV.SameInt((x ^ y) & 0, 0); BV.Quotient0(x); BV.Quotient0(y); }
  lemma Xor1(x: bv8, y: bv8) ensures XorCompares(x, y, 1) { BV.XorShift(x, y); BV.Quotient1(x); BV.Quotient1(y); BV.SameInt(x >> 7, y >> 7); }
  lemma Xor2(x: bv8, y: bv8) ensures XorCompares(x, y, 2) { BV.XorShift(x, y); BV.Quotient2(x); BV.Quotient2(y); BV.SameInt(x >> 6, y >> 6); }
  lemma Xor3(x: bv8, y: bv8) ensures XorCompares(x, y, 3) { BV.XorShift(x, y); BV.Quotient3(x); BV.Quotient3(y); BV.SameInt(x >> 5, y >> 5); }
  lemma Xor4(x: bv8, y: bv8) ensures XorCompares(x, y, 4) { BV.XorShift(x, y); BV.Quotient4(x); BV.Quotient4(y); BV.SameInt(x >> 4, y >> 4); }
  lemma Xor5(x: bv8, y: bv8) ensures XorCompares(x, y, 5) { BV.XorShift(x, y); BV.Quotient5(x); BV.Quotient5(y); BV.SameInt(x >> 3, y >> 3); }
  lemma Xor6(x: bv8, y: bv8) ensures XorCompares(x, y, 6) { BV.XorShift(x, y); BV.Quotient6(x); BV.Quotient6(y); BV.SameInt(x >> 2, y >> 2); }
  lemma Xor7(x: bv8, y: bv8) ensures XorCompares(x, y, 7) { BV.XorShift(x, y); BV.Quotient7(x); BV.Quotient7(y); BV.SameInt(x >> 1, y >> 1); }
  lemma Xor8(x: bv8, y: bv8) ensures XorCompares(x, y, 8) { BV.XorAll(x, y); BV.Quotient8(x); BV.Quotient8(y); BV.SameInt(x, y); }

  lemma AndValue(x: bv8, k: nat)
    requires k <= 8
    ensures AndClears(x, k)
  {
    match k {
      case 0 => And0(x);
      case 1 => And1(x);
      case 2 => And2(x);
      case 3 => And3(x);
      case 4 => And4(x);
      case 5 => And5(x);
      case 6 => And6(x);
      case 7 => And7(x);
      case _ => And8(x);
    }
  }

  lemma OrValue(x: bv8, k: nat)
    requires k <= 8
    ensures OrSets(x, k)
  {
    match k {
      case 0 => Or0(x);
      case 1 => Or1(x);
      case 2 => Or2(x);
      case 3 => Or3(x);
      case 4 => Or4(x);
      case 5 => Or5(x);
      case 6 => Or6(x);
      case 7 => Or7(x);
      case _ => Or8(x);
    }
  }

  lemma XorValueLow(x: bv8, y: bv8, k: nat)
    requires k < 3
    ensures XorCompares(x, y, k)
  {
    if k == 0 { Xor0(x, y); } else if k == 1 { Xor1(x, y); } else { Xor2(x, y); }
  }

  lemma XorValueMiddle(x: bv8, y: bv8, k: nat)
    requires 3 <= k < 6
    ensures XorCompares(x, y, k)
  {
    if k == 3 { Xor3(x, y); } else if k == 4 { Xor4(x, y); } else { Xor5(x, y); }
  }

  lemma XorValueHigh(x: bv8, y: bv8, k: nat)
    requires 6 <= k <= 8
    ensures XorCompares(x, y, k)
  {
    if k == 6 { Xor6(x, y); } else if k == 7 { Xor7(x, y); } else { Xor8(x, y); }
  }

  lemma AndIsFloor(x: bv8, k: nat)
    requires k <= 8
    ensures (x & HighMask(k)) as int == Floor(x as int, k)
  {
    AndValue(x, k);
  }

  lemma OrIsCeil(x: bv8, k: nat)
    requires k <= 8
    ensures (x | LowMask(k)) as int == Ceil(x as int, k)
  {
    OrValue(x, k);
  }

  lemma XorValue(x: bv8, y: bv8, k: nat)
    requires k <= 8
    ensures XorCompares(x, y, k)
  {
    if k < 3 {
      XorValueLow(x, y, k);
    } else if k < 6 {
      XorValueMiddle(x, y, k);
    } else {
      XorValueHigh(x, y, k);
    }
  }

  /** The masked exclusive or that both network comparisons use. */
  lemma XorTest(x: bv8, y: bv8, k: nat)
    requires k <= 8
    ensures (x ^ y) & HighMask(k) == 0 <==> TopBitsAgree(x as int, y as int, k)
  {
    XorValue(x, y, k);
    TopBitsAreQuotient(x as int, y as int, k);
  }

  // The word masks of the IPv4 comparisons, one quarter of the prefix lengths at a time.

  lemma NetMask0(n: nat)
    requires 0 < n <= 8
    ensures (0xFFFF_FFFF as bv32) << (32 - n) == BV.Word(HighMask(n), 0x00, 0x00, 0x00)
  {}

  lemma NetMask1(n: nat)
    requires 8 < n <= 16
    ensures (0xFFFF_FFFF as bv32) << (32 - n) == BV.Word(0xFF, HighMask(n - 8), 0x00, 0x00)
  {}

  lemma NetMask2(n: nat)
    requires 16 < n <= 24
    ensures (0xFFFF_FFFF as bv32) << (32 - n) == BV.Word(0xFF, 0xFF, HighMask(n - 16), 0x00)
  {}

  lemma NetMask3(n: nat)
    requires 24 < n <= 32
    ensures (0xFFFF_FFFF as bv32) << (32 - n) == BV.Word(0xFF, 0xFF, 0xFF, HighMask(n - 24))
  {}

  function NetWord(n: nat): bv32 {
    BV.Word(HighMask(Keep(n, 0)), HighMask(Keep(n, 1)), HighMask(Keep(n, 2)), HighMask(Keep(n, 3)))
  }

  lemma NetMask(n: nat)
    requires 0 < n <= 32
    ensures (0xFFFF_FFFF as bv32) << (32 - n) == NetWord(n)
  {
    if n <= 8 { NetMask0(n); } else if n <= 16 { NetMask1(n); } else if n <= 24 { NetMask2(n); } else { NetMask3(n); }
  }

  // The host part 2^(32 - n) - 1 that the exact-block test sets, likewise.

  lemma HostMask0(n: nat)
    requires 0 < n <= 8
    ensures ((1 as bv32) << (32 - n)) - 1 == BV.Word(LowMask(n), 0xFF, 0xFF, 0xFF)
  {}

  lemma HostMask1(n: nat)
    requires 8 < n <= 16
    ensures ((1 as bv32) << (32 - n)) - 1 == BV.Word(0x00, LowMask(n - 8), 0xFF, 0xFF)
  {}

  lemma HostMask2(n: nat)
    requires 16 < n <= 24
    ensures ((1 as bv32) << (32 - n)) - 1 == BV.Word(0x00, 0x00, LowMask(n - 16), 0xFF)
  {}

  lemma HostMask3(n: nat)
    requires 24 < n <= 32
    ensures ((1 as bv32) << (32 - n)) - 1 == BV.Word(0x00, 0x00, 0x00, LowMask(n - 24))
  {}

  function HostWord(n: nat): bv32 {
    BV.Word(LowMask(Keep(n, 0)), LowMask(Keep(n, 1)), LowMask(Keep(n, 2)), LowMask(Keep(n, 3)))
  }

  /** The host bits of an n-bit prefix, as match_addr_ipv4 computes them. */
  function HostBits(n: nat): bv32
    requires n <= 32
  {
    if n == 0 then 0xFFFF_FFFF else (1 << (32 - n)) - 1
  }

  ghost predicate HostAgrees(n: nat) {
    n <= 32 && HostBits(n) == HostWord(n)
  }

  lemma HostAgreesNone() ensures HostAgrees(0) {}
  lemma HostAgrees0(n: nat) requires 0 < n <= 8 ensures HostAgrees(n) { HostMask0(n); }
  lemma HostAgrees1(n: nat) requires 8 < n <= 16 ensures HostAgrees(n) { HostMask1(n); }
  lemma HostAgrees2(n: nat) requires 16 < n <= 24 ensures HostAgrees(n) { HostMask2(n); }
  lemma HostAgrees3(n: nat) requires 24 < n <= 32 ensures HostAgrees(n) { HostMask3(n); }

  lemma HostMask(n: nat)
    requires n <= 32
    ensures HostAgrees(n)
  {
    if n == 0 {
      HostAgreesNone();
    } else if n <= 8 {
      HostAgrees0(n);
    } else if n <= 16 {
      HostAgrees1(n);
    } else if n <= 24 {
      HostAgrees2(n);
    } else {
      HostAgrees3(n);
    }
  }

  lemma DoubleNot(a: bv8, b: bv8, c: bv8, d: bv8)
    ensures !BV.Word(!a, !b, !c, !d) == BV.Word(a, b, c, d)
  {
  }

  /** The host part is the complement of the network part. */
  lemma HostIsComplement(n: nat)
    requires n <= 32
    ensures !HostWord(n) == NetWord(n)
  {
    LowMaskIsComplement(Keep(n, 0));
    LowMaskIsComplement(Keep(n, 1));
    LowMaskIsComplement(Keep(n, 2));
    LowMaskIsComplement(Keep(n, 3));
    DoubleNot(HighMask(Keep(n, 0)), HighMask(Keep(n, 1)), HighMask(Keep(n, 2)), HighMask(Keep(n, 3)));
  }
}
