/** What the tests of ts_is_matching mean in packets and addresses: which selectors are
    specific, and what the two byte loops say about the configured network. */
module MatchMeaning {
  import opened AddrMatch
  import opened Bytes
  import opened Matching
  import opened Prefix
  import opened Selectors

  // ---------------------------------------------------------------- specific selectors

  ghost predicate CoversOnly(ts: Ts, k: Packet)
    requires WellSized(ts)
  {
    forall m: Packet :: Covers(ts, m) <==> m == k
  }

  /** The selector covers the packets of its protocol to the address, on every port, and nothing
      else. */
  ghost predicate CoversAddress(ts: Ts, a: seq<byte>)
    requires WellSized(ts)
  {
    forall m: Packet :: Covers(ts, m) <==> m == Packet(ts.tsType, ts.proto, m.port, a) && m.port < 65536
  }

  lemma SingleAddress(ts: Ts, m: Packet)
    requires WellSized(ts) && ts.start == ts.end
    ensures |m.addr| == |ts.start| ==> (Leq(ts.start, m.addr) && Leq(m.addr, ts.end) <==> m.addr == ts.start)
  {
    LeqReflexive(ts.start);
    if |m.addr| == |ts.start| && Leq(ts.start, m.addr) && Leq(m.addr, ts.end) {
      LeqAntisymmetric(ts.start, m.addr);
    }
  }

  /** If every covered packet goes to one address, both bounds are that address. */
  lemma BoundsAreCovered(ts: Ts, k: Packet)
    requires WellSized(ts) && Covers(ts, k)
    ensures Covers(ts, k.(addr := ts.start)) && Covers(ts, k.(addr := ts.end))
    ensures Covers(ts, k.(port := ts.startPort)) && Covers(ts, k.(port := ts.endPort))
  {
    LeqReflexive(ts.start);
    LeqReflexive(ts.end);
    LeqTransitive(ts.start, k.addr, ts.end);
  }

  /** TCP, UDP, ICMP, ICMPv6, SCTP and the mobility header: a selector is specific exactly if it
      covers one packet. */
  lemma SpecificFlow(ts: Ts)
    requires WellSized(ts) && ts.proto in {1, 6, 17, 58, 132, 135}
    ensures IsSpecific(ts) <==> exists k: Packet :: CoversOnly(ts, k)
  {
    if IsSpecific(ts) {
      var k := Packet(ts.tsType, ts.proto, ts.startPort, ts.start);
      forall m: Packet ensures Covers(ts, m) <==> m == k {
        SingleAddress(ts, m);
      }
      assert CoversOnly(ts, k);
    }
    forall k: Packet | CoversOnly(ts, k) ensures IsSpecific(ts) {
      OnlyIsSpecific(ts, k);
    }
  }

  lemma OnlyIsSpecific(ts: Ts, k: Packet)
    requires WellSized(ts) && ts.proto in {1, 6, 17, 58, 132, 135} && CoversOnly(ts, k)
    ensures IsSpecific(ts)
  {
    assert Covers(ts, k);
    BoundsAreCovered(ts, k);
    assert k.(addr := ts.start).addr == k.addr == k.(addr := ts.end).addr;
    assert k.(port := ts.startPort).port == k.port == k.(port := ts.endPort).port;
  }

  /** Any other protocol has no ports: a selector is specific exactly if it covers one address on
      every port. */
  lemma SpecificAddress(ts: Ts)
    requires WellSized(ts) && ts.proto !in {0, 1, 6, 17, 58, 132, 135}
    ensures IsSpecific(ts) <==> exists a: seq<byte> :: CoversAddress(ts, a)
  {
    if IsSpecific(ts) {
      forall m: Packet
        ensures Covers(ts, m) <==> m == Packet(ts.tsType, ts.proto, m.port, ts.start) && m.port < 65536
      {
        SingleAddress(ts, m);
      }
      assert CoversAddress(ts, ts.start);
    }
    forall a: seq<byte> | CoversAddress(ts, a) ensures IsSpecific(ts) {
      AddressIsSpecific(ts, a);
    }
  }

  lemma AddressIsSpecific(ts: Ts, a: seq<byte>)
    requires WellSized(ts) && ts.proto !in {0, 1, 6, 17, 58, 132, 135} && CoversAddress(ts, a)
    ensures IsSpecific(ts)
  {
    var low, high := Packet(ts.tsType, ts.proto, 0, a), Packet(ts.tsType, ts.proto, 65535, a);
    assert Covers(ts, low) && Covers(ts, high);
    BoundsAreCovered(ts, low);
    assert low.(addr := ts.start).addr == a == low.(addr := ts.end).addr;
  }

  /** A selector for any protocol is never specific. */
  lemma AnyProtocolIsNotSpecific(ts: Ts)
    requires WellSized(ts) && ts.proto == 0
    ensures !IsSpecific(ts)
  {
  }

  // ---------------------------------------------------------------- the byte loops

  lemma KeepPositive(n: nat, i: nat)
    ensures i < Ceil8(n) <==> 8 * i < n
  {
  }

  /** The ends of the block belong to the network. */
  lemma EndsInNetwork(a: seq<byte>, n: nat)
    requires n <= 8 * |a|
    ensures SameNetwork(BlockLo(a, n), a, n) && SameNetwork(BlockHi(a, n), a, n)
  {
    var lo, hi := BlockLo(a, n), BlockHi(a, n);
    forall i: nat | i < |a|
      ensures TopBitsAgree(lo[i], a[i], Keep(n, i)) && TopBitsAgree(hi[i], a[i], Keep(n, i))
    {
      QuotientIsBlock(lo[i], a[i], Keep(n, i));
      QuotientIsBlock(hi[i], a[i], Keep(n, i));
      TopBitsAreQuotient(lo[i], a[i], Keep(n, i));
      TopBitsAreQuotient(hi[i], a[i], Keep(n, i));
    }
    NetworkByBytes(lo, a, n);
    NetworkByBytes(hi, a, n);
  }

  /** Each byte of an address of the network lies between the bytes of the ends. */
  lemma ByteOfNetwork(x: seq<byte>, a: seq<byte>, n: nat, i: nat)
    requires |x| == |a| && n <= 8 * |a| && SameNetwork(x, a, n) && i < |a|
    ensures Floor(a[i], Keep(n, i)) <= x[i] <= Ceil(a[i], Keep(n, i))
  {
    NetworkByBytes(x, a, n);
    assert TopBitsAgree(x[i], a[i], Keep(n, i));
    TopBitsAreQuotient(x[i], a[i], Keep(n, i));
    QuotientIsBlock(x[i], a[i], Keep(n, i));
  }

  /** Byte i of every address of the network lies between the bytes of the selector. */
  ghost predicate HoldsByte(ts: Ts, a: seq<byte>, n: nat, i: nat)
    requires WellSized(ts) && |a| == |ts.start| && n <= 8 * |a| && i < |a|
  {
    forall x: seq<byte> | |x| == |a| && SameNetwork(x, a, n) :: ts.start[i] <= x[i] <= ts.end[i]
  }

  /** The bytes of the selector lie between bytes of addresses of the network. */
  ghost predicate HeldByte(ts: Ts, a: seq<byte>, n: nat, i: nat)
    requires WellSized(ts) && |a| == |ts.start| && n <= 8 * |a| && i < |a|
  {
    && (exists x: seq<byte> :: |x| == |a| && SameNetwork(x, a, n) && x[i] <= ts.start[i])
    && (exists y: seq<byte> :: |y| == |a| && SameNetwork(y, a, n) && ts.end[i] <= y[i])
  }

  lemma ByteHolds(ts: Ts, a: seq<byte>, n: nat, i: nat)
    requires WellSized(ts) && |a| == |ts.start| && n <= 8 * |a| && i < |a|
    ensures ByteContained(ts, a, n, i) <==> HoldsByte(ts, a, n, i)
    ensures ByteWithin(ts, a, n, i) <==> HeldByte(ts, a, n, i)
  {
    EndsInNetwork(a, n);
    var lo, hi := BlockLo(a, n), BlockHi(a, n);
    assert |lo| == |hi| == |a| && lo[i] == Floor(a[i], Keep(n, i)) && hi[i] == Ceil(a[i], Keep(n, i));
    forall x: seq<byte> | |x| == |a| && SameNetwork(x, a, n)
      ensures lo[i] <= x[i] <= hi[i]
    {
      ByteOfNetwork(x, a, n, i);
    }
  }

  /** ts_contains_addr: the family, the protocol 0 or the configured one, the port between the
      ports, and every byte that the prefix touches holds that byte of the whole network. */
  lemma ContainsMeaning(ts: Ts, proto: byte, addr: SockAddr, n: nat)
    requires WellSized(ts) && addr.Valid() && (addr.family.Unspec? || n <= 8 * |addr.addr|)
    ensures ContainsAddr(ts, proto, addr, n) <==>
      && ((ts.tsType == 7 && addr.family.Inet?) || (ts.tsType == 8 && addr.family.Inet6?))
      && (ts.proto == 0 || ts.proto == proto) && ts.startPort <= addr.port <= ts.endPort
      && forall i: nat | 8 * i < n :: HoldsByte(ts, Octets(addr.addr), n, i)
  {
    if SameFamily(ts.tsType, addr.family) {
      var a := Octets(addr.addr);
      forall i: nat | 8 * i < n ensures ByteContained(ts, a, n, i) <==> HoldsByte(ts, a, n, i) {
        ByteHolds(ts, a, n, i);
      }
      forall i: nat ensures i < Ceil8(n) <==> 8 * i < n {
        KeepPositive(n, i);
      }
    }
  }

  /** ts_is_within_addr: the family, the configured protocol 0 or the selector's, the configured
      port 0 or the selector's only port, and in every byte that the prefix touches the selector
      lies within the network; a prefix beyond the address counts as the whole address. */
  lemma WithinMeaning(ts: Ts, proto: byte, addr: SockAddr, prefixlen: nat, n: nat)
    requires WellSized(ts) && addr.Valid() && n == if prefixlen < 8 * |addr.addr| then prefixlen else 8 * |addr.addr|
    ensures WithinAddr(ts, proto, addr, prefixlen) <==>
      && ((ts.tsType == 7 && addr.family.Inet?) || (ts.tsType == 8 && addr.family.Inet6?))
      && (proto == 0 || ts.proto == proto)
      && (addr.port == 0 || (ts.startPort == addr.port && ts.endPort == addr.port))
      && forall i: nat | 8 * i < n :: HeldByte(ts, Octets(addr.addr), n, i)
  {
    if SameFamily(ts.tsType, addr.family) {
      var a := Octets(addr.addr);
      assert Clamped(prefixlen, addr.addr) == n;
      forall i: nat | 8 * i < n ensures ByteWithin(ts, a, n, i) <==> HeldByte(ts, a, n, i) {
        ByteHolds(ts, a, n, i);
      }
      forall i: nat ensures i < Ceil8(n) <==> 8 * i < n {
        KeepPositive(n, i);
      }
    }
  }
}
