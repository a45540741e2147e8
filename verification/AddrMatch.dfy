/** The address comparators of iked/ike_conf.c.  Host addresses are bytes with bit
    operations; Octets gives their value as wire octets. */
module AddrMatch {

  import opened Bytes
  import opened Prefix
  import opened BitMasks
  import BV = BitVectors

  datatype Family = Inet | Inet6 | Unspec

  /** A socket address: address bytes in network order and a port in host order. */
  datatype SockAddr = SockAddr(family: Family, addr: seq<bv8>, port: nat) {
    predicate Valid() {
      && port < 0x1_0000
      && (family.Inet? ==> |addr| == 4)
      && (family.Inet6? ==> |addr| == 16)
    }
  }

  // ---------------------------------------------------------------- network comparison

  ghost predicate ByteAgrees(a: seq<bv8>, b: seq<bv8>, n: nat, i: nat)
    requires |a| == |b| && i < |a|
  {
    TopBitsAgree(a[i] as int, b[i] as int, Keep(n, i))
  }

  lemma NetworkIsBytes(a: seq<bv8>, b: seq<bv8>, n: nat)
    requires |a| == |b| && n <= 8 * |a|
    ensures SameNetwork(Octets(a), Octets(b), n) <==> forall i: nat | i < |a| :: ByteAgrees(a, b, n, i)
  {
    NetworkByBytes(Octets(a), Octets(b), n);
    if forall i: nat | i < |a| :: ByteAgrees(a, b, n, i) {
      forall i: nat | i < |a|
        ensures TopBitsAgree(Octets(a)[i], Octets(b)[i], Keep(n, i))
      {
        assert ByteAgrees(a, b, n, i);
      }
    }
    if SameNetwork(Octets(a), Octets(b), n) {
      forall i: nat | i < |a|
        ensures ByteAgrees(a, b, n, i)
      {
        assert TopBitsAgree(Octets(a)[i], Octets(b)[i], Keep(n, i));
      }
    }
  }

  method WholeByteEqual(x: bv8, y: bv8) returns (same: bool)
    ensures same <==> TopBitsAgree(x as int, y as int, 8)
  {
    XorTest(x, y, 8);
    assert (x ^ y) & 0xFF == x ^ y;
    same := x ^ y == 0;
  }

  method PartialByteEqual(x: bv8, y: bv8, bits: nat) returns (same: bool)
    requires 0 < bits < 8
    ensures same <==> TopBitsAgree(x as int, y as int, bits)
  {
    ShiftIsHighMask(bits);
    XorTest(x, y, bits);
    same := (x ^ y) & (0xFF << (8 - bits)) == 0;
  }

  /** One round of the loop, with left bits to go. */
  method ByteEqual(a: seq<bv8>, b: seq<bv8>, ghost bitlen: nat, i: nat, left: nat) returns (same: bool)
    requires i < |a| == |b| && left == bitlen - 8 * i && left > 0
    ensures same <==> TopBitsAgree(Octets(a)[i], Octets(b)[i], Keep(bitlen, i))
  {
    if left < 8 {
      same := PartialByteEqual(a[i], b[i], left);
    } else {
      same := WholeByteEqual(a[i], b[i]);
    }
  }

  ghost predicate AgreeBefore(x: seq<byte>, y: seq<byte>, n: nat, i: nat)
    requires |x| == |y|
  {
    forall j: nat | j < i && j < |x| :: TopBitsAgree(x[j], y[j], Keep(n, j))
  }

  lemma AgreeStep(x: seq<byte>, y: seq<byte>, n: nat, i: nat)
    requires i < |x| == |y| && n <= 8 * |x| && AgreeBefore(x, y, n, i)
    ensures if TopBitsAgree(x[i], y[i], Keep(n, i)) then AgreeBefore(x, y, n, i + 1) else !SameNetwork(x, y, n)
  {
    NetworkByBytes(x, y, n);
  }

  lemma AgreeEnd(x: seq<byte>, y: seq<byte>, n: nat, i: nat)
    requires |x| == |y| && n <= 8 * i && n <= 8 * |x| && AgreeBefore(x, y, n, i)
    ensures SameNetwork(x, y, n)
  {
    NetworkByBytes(x, y, n);
  }

  /** compare_bits: the first bitlen bits of two byte strings. */
  method CompareBits(a: seq<bv8>, b: seq<bv8>, bitlen: nat) returns (same: bool)
    requires |a| == |b| && bitlen <= 8 * |a|
    ensures same <==> SameNetwork(Octets(a), Octets(b), bitlen)
  {
    ghost var x, y := Octets(a), Octets(b);
    var left: int, i := bitlen, 0;
    while left > 0
      invariant 0 <= i <= |a| && left == bitlen - 8 * i && AgreeBefore(x, y, bitlen, i)
    {
      same := ByteEqual(a, b, bitlen, i, left);
      AgreeStep(x, y, bitlen, i);
      if !same {
        return false;
      }
      left, i := left - 8, i + 1;
    }
    AgreeEnd(x, y, bitlen, i);
    return true;
  }

  function Word4(a: seq<bv8>): bv32
    requires |a| == 4
  {
    BV.Word(a[0], a[1], a[2], a[3])
  }

  /** sockaddr_in_compare_with_prefix on the address words in host order. */
  predicate InCompare(a: seq<bv8>, b: seq<bv8>, n: nat)
    requires |a| == |b| == 4 && n <= 32
  {
    n == 0 || (Word4(a) ^ Word4(b)) & (0xFFFF_FFFF << (32 - n)) == 0
  }

  lemma MaskedWord(a0: bv8, a1: bv8, a2: bv8, a3: bv8, b0: bv8, b1: bv8, b2: bv8, b3: bv8,
                   m0: bv8, m1: bv8, m2: bv8, m3: bv8)
    ensures (BV.Word(a0, a1, a2, a3) ^ BV.Word(b0, b1, b2, b3)) & BV.Word(m0, m1, m2, m3) == 0 <==>
            (a0 ^ b0) & m0 == 0 && (a1 ^ b1) & m1 == 0 && (a2 ^ b2) & m2 == 0 && (a3 ^ b3) & m3 == 0
  {
    BV.WordXor(a0, a1, a2, a3, b0, b1, b2, b3);
    BV.WordAnd(a0 ^ b0, a1 ^ b1, a2 ^ b2, a3 ^ b3, m0, m1, m2, m3);
    BV.WordEqual((a0 ^ b0) & m0, (a1 ^ b1) & m1, (a2 ^ b2) & m2, (a3 ^ b3) & m3, 0, 0, 0, 0);
  }

  lemma FourBytes(a: seq<bv8>, b: seq<bv8>, n: nat)
    requires |a| == |b| == 4
    ensures (forall i: nat | i < |a| :: ByteAgrees(a, b, n, i)) <==>
            ByteAgrees(a, b, n, 0) && ByteAgrees(a, b, n, 1) && ByteAgrees(a, b, n, 2) && ByteAgrees(a, b, n, 3)
  {
  }

  /** The word form meets the first-n-bits specification. */
  lemma InCompareIsNetwork(a: seq<bv8>, b: seq<bv8>, n: nat)
    requires |a| == |b| == 4 && n <= 32
    ensures InCompare(a, b, n) <==> SameNetwork(Octets(a), Octets(b), n)
  {
    NetworkIsBytes(a, b, n);
    if n > 0 {
      NetMask(n);
      MaskedWord(a[0], a[1], a[2], a[3], b[0], b[1], b[2], b[3],
                 HighMask(Keep(n, 0)), HighMask(Keep(n, 1)), HighMask(Keep(n, 2)), HighMask(Keep(n, 3)));
      XorTest(a[0], b[0], Keep(n, 0));
      XorTest(a[1], b[1], Keep(n, 1));
      XorTest(a[2], b[2], Keep(n, 2));
      XorTest(a[3], b[3], Keep(n, 3));
      FourBytes(a, b, n);
    }
  }

  /** sockaddr_compare_with_prefix: word form for IPv4, byte loop for IPv6. */
  method CompareWithPrefix(addr: SockAddr, netaddr: SockAddr, prefixlen: nat) returns (same: bool)
    requires addr.Valid() && netaddr.Valid() && prefixlen <= 8 * |netaddr.addr|
    ensures same <==> addr.family == netaddr.family && !addr.family.Unspec? &&
                      SameNetwork(Octets(addr.addr), Octets(netaddr.addr), prefixlen)
  {
    if addr.family != netaddr.family {
      return false;
    }
    match addr.family {
      case Inet =>
        InCompareIsNetwork(addr.addr, netaddr.addr, prefixlen);
        same := InCompare(addr.addr, netaddr.addr, prefixlen);
      case Inet6 =>
        same := CompareBits(addr.addr, netaddr.addr, prefixlen);
      case Unspec =>
        same := false;
    }
  }

  // ---------------------------------------------------------------- exact blocks

  /** The test of one byte with its network mask and its host mask. */
  predicate MaskMatches(a: bv8, high: bv8, low: bv8, start: bv8, end: bv8) {
    a & high == start && a | low == end
  }

  ghost predicate ByteIsBlock(a: bv8, k: nat, lo: bv8, hi: bv8)
    requires k <= 8
  {
    MaskMatches(a, HighMask(k), LowMask(k), lo, hi)
  }

  lemma MaskValue(a: bv8, high: bv8, low: bv8, lo: bv8, hi: bv8, x: int, y: int)
    requires (a & high) as int == x && (a | low) as int == y
    ensures MaskMatches(a, high, low, lo, hi) <==> lo as int == x && hi as int == y
  {
    BV.SameInt(lo, a & high);
    BV.SameInt(hi, a | low);
  }

  lemma ByteBlockValue(a: bv8, k: nat, lo: bv8, hi: bv8)
    requires k <= 8
    ensures ByteIsBlock(a, k, lo, hi) <==> lo as int == Floor(a as int, k) && hi as int == Ceil(a as int, k)
  {
    AndIsFloor(a, k);
    OrIsCeil(a, k);
    MaskValue(a, HighMask(k), LowMask(k), lo, hi, Floor(a as int, k), Ceil(a as int, k));
  }

  ghost predicate IsBlock(a: seq<bv8>, n: nat, lo: seq<bv8>, hi: seq<bv8>)
    requires |a| == |lo| == |hi|
  {
    forall i: nat | i < |a| :: ByteIsBlock(a[i], Keep(n, i), lo[i], hi[i])
  }

  lemma IsBlockValue(a: seq<bv8>, n: nat, lo: seq<bv8>, hi: seq<bv8>)
    requires |a| == |lo| == |hi|
    ensures IsBlock(a, n, lo, hi) <==>
            Octets(lo) == BlockLo(Octets(a), n) && Octets(hi) == BlockHi(Octets(a), n)
  {
    forall i: nat | i < |a|
      ensures ByteIsBlock(a[i], Keep(n, i), lo[i], hi[i]) <==>
              Octets(lo)[i] == BlockLo(Octets(a), n)[i] && Octets(hi)[i] == BlockHi(Octets(a), n)[i]
    {
      ByteBlockValue(a[i], Keep(n, i), lo[i], hi[i]);
    }
  }

  method AndNotWord(a0: bv8, a1: bv8, a2: bv8, a3: bv8, bits: bv32, ghost m0: bv8, ghost m1: bv8, ghost m2: bv8, ghost m3: bv8)
    returns (w: bv32)
    requires !bits == BV.Word(m0, m1, m2, m3)
    ensures w == BV.Word(a0 & m0, a1 & m1, a2 & m2, a3 & m3)
  {
    BV.WordAnd(a0, a1, a2, a3, m0, m1, m2, m3);
    w := BV.Word(a0, a1, a2, a3) & !bits;
  }

  method OrWord(a0: bv8, a1: bv8, a2: bv8, a3: bv8, bits: bv32, ghost m0: bv8, ghost m1: bv8, ghost m2: bv8, ghost m3: bv8)
    returns (w: bv32)
    requires bits == BV.Word(m0, m1, m2, m3)
    ensures w == BV.Word(a0 | m0, a1 | m1, a2 | m2, a3 | m3)
  {
    BV.WordOr(a0, a1, a2, a3, m0, m1, m2, m3);
    w := BV.Word(a0, a1, a2, a3) | bits;
  }

  /** Comparing a word with four bytes. */
  method SameWord(w: bv32, b0: bv8, b1: bv8, b2: bv8, b3: bv8, ghost x0: bv8, ghost x1: bv8, ghost x2: bv8, ghost x3: bv8)
    returns (same: bool)
    requires w == BV.Word(x0, x1, x2, x3)
    ensures same <==> b0 == x0 && b1 == x1 && b2 == x2 && b3 == x3
  {
    BV.WordEqual(b0, b1, b2, b3, x0, x1, x2, x3);
    same := BV.Word(b0, b1, b2, b3) == w;
  }

  /** The start test of match_addr_ipv4. */
  method StartMatches(a: seq<bv8>, bits: bv32, start: seq<bv8>, ghost m: seq<bv8>) returns (ok: bool)
    requires |a| == |start| == |m| == 4 && !bits == Word4(m)
    ensures ok <==> start[0] == a[0] & m[0] && start[1] == a[1] & m[1] && start[2] == a[2] & m[2] && start[3] == a[3] & m[3]
  {
    var w := AndNotWord(a[0], a[1], a[2], a[3], bits, m[0], m[1], m[2], m[3]);
    ok := SameWord(w, start[0], start[1], start[2], start[3], a[0] & m[0], a[1] & m[1], a[2] & m[2], a[3] & m[3]);
  }

  /** The end test. */
  method EndMatches(a: seq<bv8>, bits: bv32, end: seq<bv8>, ghost m: seq<bv8>) returns (ok: bool)
    requires |a| == |end| == |m| == 4 && bits == Word4(m)
    ensures ok <==> end[0] == a[0] | m[0] && end[1] == a[1] | m[1] && end[2] == a[2] | m[2] && end[3] == a[3] | m[3]
  {
    var w := OrWord(a[0], a[1], a[2], a[3], bits, m[0], m[1], m[2], m[3]);
    ok := SameWord(w, end[0], end[1], end[2], end[3], a[0] | m[0], a[1] | m[1], a[2] | m[2], a[3] | m[3]);
  }

  /** Clearing with m, respectively setting with m, gives the first, respectively the last,
      byte value with the same top k bits. */
  ghost predicate Clears(a: bv8, m: bv8, k: nat, lo: bv8)
    requires k <= 8
  {
    lo == a & m <==> lo as int == Floor(a as int, k)
  }

  ghost predicate Sets(a: bv8, m: bv8, k: nat, hi: bv8)
    requires k <= 8
  {
    hi == a | m <==> hi as int == Ceil(a as int, k)
  }

  lemma HighMaskClears(a: bv8, k: nat, lo: bv8)
    requires k <= 8
    ensures Clears(a, HighMask(k), k, lo)
  {
    AndIsFloor(a, k);
    BV.SameInt(lo, a & HighMask(k));
  }

  lemma LowMaskSets(a: bv8, k: nat, hi: bv8)
    requires k <= 8
    ensures Sets(a, LowMask(k), k, hi)
  {
    OrIsCeil(a, k);
    BV.SameInt(hi, a | LowMask(k));
  }

  lemma FourOctets(x: seq<byte>, y: seq<byte>)
    requires |x| == |y| == 4
    ensures x == y <==> x[0] == y[0] && x[1] == y[1] && x[2] == y[2] && x[3] == y[3]
  {
  }

  ghost predicate AllClear(a: seq<bv8>, m: seq<bv8>, n: nat, lo: seq<bv8>)
    requires |a| == |lo| == |m| == 4
  {
    && Clears(a[0], m[0], Keep(n, 0), lo[0]) && Clears(a[1], m[1], Keep(n, 1), lo[1])
    && Clears(a[2], m[2], Keep(n, 2), lo[2]) && Clears(a[3], m[3], Keep(n, 3), lo[3])
  }

  ghost predicate AllSet(a: seq<bv8>, m: seq<bv8>, n: nat, hi: seq<bv8>)
    requires |a| == |hi| == |m| == 4
  {
    && Sets(a[0], m[0], Keep(n, 0), hi[0]) && Sets(a[1], m[1], Keep(n, 1), hi[1])
    && Sets(a[2], m[2], Keep(n, 2), hi[2]) && Sets(a[3], m[3], Keep(n, 3), hi[3])
  }

  /** The bytes of the network mask. */
  lemma NetMaskBytes(a: seq<bv8>, n: nat, lo: seq<bv8>) returns (m: seq<bv8>)
    requires |a| == |lo| == 4
    ensures |m| == 4 && Word4(m) == NetWord(n) && AllClear(a, m, n, lo)
  {
    m := [HighMask(Keep(n, 0)), HighMask(Keep(n, 1)), HighMask(Keep(n, 2)), HighMask(Keep(n, 3))];
    HighMaskClears(a[0], Keep(n, 0), lo[0]);
    HighMaskClears(a[1], Keep(n, 1), lo[1]);
    HighMaskClears(a[2], Keep(n, 2), lo[2]);
    HighMaskClears(a[3], Keep(n, 3), lo[3]);
  }

  /** The bytes of the host mask. */
  lemma HostMaskBytes(a: seq<bv8>, n: nat, hi: seq<bv8>) returns (m: seq<bv8>)
    requires |a| == |hi| == 4
    ensures |m| == 4 && Word4(m) == HostWord(n) && AllSet(a, m, n, hi)
  {
    m := [LowMask(Keep(n, 0)), LowMask(Keep(n, 1)), LowMask(Keep(n, 2)), LowMask(Keep(n, 3))];
    LowMaskSets(a[0], Keep(n, 0), hi[0]);
    LowMaskSets(a[1], Keep(n, 1), hi[1]);
    LowMaskSets(a[2], Keep(n, 2), hi[2]);
    LowMaskSets(a[3], Keep(n, 3), hi[3]);
  }

  lemma ClearedIsBlockLo(a: seq<bv8>, m: seq<bv8>, n: nat, lo: seq<bv8>)
    requires |a| == |lo| == |m| == 4 && AllClear(a, m, n, lo)
    ensures lo[0] == a[0] & m[0] && lo[1] == a[1] & m[1] && lo[2] == a[2] & m[2] && lo[3] == a[3] & m[3] <==>
            Octets(lo) == BlockLo(Octets(a), n)
  {
    FourOctets(Octets(lo), BlockLo(Octets(a), n));
  }

  lemma SetIsBlockHi(a: seq<bv8>, m: seq<bv8>, n: nat, hi: seq<bv8>)
    requires |a| == |hi| == |m| == 4 && AllSet(a, m, n, hi)
    ensures hi[0] == a[0] | m[0] && hi[1] == a[1] | m[1] && hi[2] == a[2] | m[2] && hi[3] == a[3] | m[3] <==>
            Octets(hi) == BlockHi(Octets(a), n)
  {
    FourOctets(Octets(hi), BlockHi(Octets(a), n));
  }

  method StartIsBlockLo(a: seq<bv8>, bits: bv32, start: seq<bv8>, ghost n: nat, ghost m: seq<bv8>) returns (ok: bool)
    requires |a| == |start| == |m| == 4 && !bits == Word4(m) && AllClear(a, m, n, start)
    ensures ok <==> Octets(start) == BlockLo(Octets(a), n)
  {
    ClearedIsBlockLo(a, m, n, start);
    ok := StartMatches(a, bits, start, m);
  }

  method EndIsBlockHi(a: seq<bv8>, bits: bv32, end: seq<bv8>, ghost n: nat, ghost m: seq<bv8>) returns (ok: bool)
    requires |a| == |end| == |m| == 4 && bits == Word4(m) && AllSet(a, m, n, end)
    ensures ok <==> Octets(end) == BlockHi(Octets(a), n)
  {
    SetIsBlockHi(a, m, n, end);
    ok := EndMatches(a, bits, end, m);
  }

  /** The host bits of an n-bit prefix, as match_addr_ipv4 computes them. */
  method ComputeHostBits(n: nat) returns (bits: bv32)
    requires n <= 32
    ensures bits == HostWord(n) && !bits == NetWord(n)
  {
    HostMask(n);
    HostIsComplement(n);
    if n == 0 {
      bits := 0xFFFF_FFFF;
    } else {
      bits := (1 << (32 - n)) - 1;
    }
  }

  /** match_addr_ipv4: the range is the block, compared as words. */
  method MatchAddr4(addr: SockAddr, prefixlen: nat, start: seq<bv8>, end: seq<bv8>) returns (ok: bool)
    requires addr.Valid() && |start| == |end| == 4 && prefixlen <= 32
    ensures ok <==> addr.family.Inet? && Octets(start) == BlockLo(Octets(addr.addr), prefixlen)
                    && Octets(end) == BlockHi(Octets(addr.addr), prefixlen)
  {
    if !addr.family.Inet? {
      return false;
    }
    var a := addr.addr;
    var bits := ComputeHostBits(prefixlen);
    ghost var high := NetMaskBytes(a, prefixlen, start);
    ok := StartIsBlockLo(a, bits, start, prefixlen, high);
    if ok {
      ghost var low := HostMaskBytes(a, prefixlen, end);
      ok := EndIsBlockHi(a, bits, end, prefixlen, low);
    }
  }

  /** The mask of byte i, as every address loop computes it. */
  method PrefixMask(prefixlen: nat, i: nat) returns (bits: bv8, host: bv8)
    ensures bits == HighMask(Keep(prefixlen, i)) && host == LowMask(Keep(prefixlen, i))
  {
    LowMaskIsComplement(Keep(prefixlen, i));
    if prefixlen >= 8 * (i + 1) {
      bits := 0xFF;
    } else if prefixlen > 8 * i {
      ShiftIsHighMask(prefixlen - 8 * i);
      bits := 0xFF << (8 * (i + 1) - prefixlen);
    } else {
      bits := 0;
    }
    host := !bits;
  }

  method ByteMatches(a: bv8, prefixlen: nat, i: nat, start: bv8, end: bv8) returns (ok: bool)
    ensures ok <==> ByteIsBlock(a, Keep(prefixlen, i), start, end)
  {
    var bits, host := PrefixMask(prefixlen, i);
    ok := MaskMatches(a, bits, host, start, end);
  }

  /** match_addr_ipv6: the range is the block, checked byte by byte. */
  method MatchAddr6(addr: SockAddr, prefixlen: nat, start: seq<bv8>, end: seq<bv8>) returns (ok: bool)
    requires addr.Valid() && |start| == |end| == 16
    ensures ok <==> addr.family.Inet6? && Octets(start) == BlockLo(Octets(addr.addr), prefixlen)
                    && Octets(end) == BlockHi(Octets(addr.addr), prefixlen)
  {
    if !addr.family.Inet6? {
      return false;
    }
    var a := addr.addr;
    IsBlockValue(a, prefixlen, start, end);
    for i := 0 to 16
      invariant forall j: nat | j < i :: ByteIsBlock(a[j], Keep(prefixlen, j), start[j], end[j])
    {
      var same := ByteMatches(a[i], prefixlen, i, start[i], end[i]);
      if !same {
        return false;
      }
    }
    return true;
  }
}
