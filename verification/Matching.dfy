/** Matching a peer's selectors against a configured address/prefix, and what an
    accepted proposal guarantees about the narrowed answer. */
module Matching {

  import opened AddrMatch
  import opened BitMasks
  import opened Bytes
  import opened Prefix
  import opened Selectors
  import opened Wrappers

  const IPPROTO_ICMP: byte := 1
  const IPPROTO_TCP: byte := 6
  const IPPROTO_UDP: byte := 17
  const IPPROTO_ICMPV6: byte := 58
  const IPPROTO_SCTP: byte := 132
  const IPPROTO_MH: byte := 135

  predicate HasPorts(proto: byte) {
    proto in {IPPROTO_TCP, IPPROTO_UDP, IPPROTO_ICMP, IPPROTO_ICMPV6, IPPROTO_SCTP, IPPROTO_MH}
  }

  /** ts_is_specific: the selector names one packet flow. */
  predicate IsSpecific(ts: Ts)
    requires WellSized(ts)
  {
    && ts.proto != PROTO_ANY
    && (if HasPorts(ts.proto) then ts.startPort == ts.endPort else ts.startPort == 0 && ts.endPort == PORT_MAX)
    && ts.start == ts.end
  }

  /** The configured side: protocol, address with port, prefix length. */
  predicate Configured(addr: SockAddr, prefixlen: nat) {
    addr.Valid() && (addr.family.Unspec? || prefixlen <= 8 * |addr.addr|)
  }

  predicate SameFamily(tsType: byte, family: Family) {
    (tsType == TS_IPV4 && family.Inet?) || (tsType == TS_IPV6 && family.Inet6?)
  }

  function Ceil8(n: nat): nat {
    (n + 7) / 8
  }

  // ---------------------------------------------------------------- the two byte loops

  ghost predicate ByteWithin(ts: Ts, a: seq<byte>, n: nat, i: nat)
    requires WellSized(ts) && |a| == |ts.start| && i < |a|
  {
    Floor(a[i], Keep(n, i)) <= ts.start[i] && ts.end[i] <= Ceil(a[i], Keep(n, i))
  }

  ghost predicate ByteContained(ts: Ts, a: seq<byte>, n: nat, i: nat)
    requires WellSized(ts) && |a| == |ts.start| && i < |a|
  {
    ts.start[i] <= Floor(a[i], Keep(n, i)) && Ceil(a[i], Keep(n, i)) <= ts.end[i]
  }

  method MaskedLow(x: bv8, bits: bv8, ghost k: nat) returns (lo: byte)
    requires k <= 8 && bits == HighMask(k)
    ensures lo == Floor(x as int, k)
  {
    AndIsFloor(x, k);
    lo := (x & bits) as int;
  }

  method MaskedHigh(x: bv8, rest: bv8, ghost k: nat) returns (hi: byte)
    requires k <= 8 && rest == LowMask(k)
    ensures hi == Ceil(x as int, k)
  {
    OrIsCeil(x, k);
    hi := (x | rest) as int;
  }

  /** The bounds of byte i of the block: a[i] & bits and a[i] | (~bits & 0xff). */
  method ByteBounds(a: seq<bv8>, prefixlen: nat, i: nat) returns (lo: byte, hi: byte)
    requires i < |a|
    ensures lo == Floor(Octets(a)[i], Keep(prefixlen, i)) && hi == Ceil(Octets(a)[i], Keep(prefixlen, i))
  {
    var bits, rest := PrefixMask(prefixlen, i);
    lo := MaskedLow(a[i], bits, Keep(prefixlen, i));
    hi := MaskedHigh(a[i], rest, Keep(prefixlen, i));
  }

  method TestByteWithin(ts: Ts, a: seq<bv8>, prefixlen: nat, i: nat) returns (ok: bool)
    requires WellSized(ts) && i < |a| == |ts.start|
    ensures ok <==> ByteWithin(ts, Octets(a), prefixlen, i)
  {
    var lo, hi := ByteBounds(a, prefixlen, i);
    ok := ts.start[i] >= lo && ts.end[i] <= hi;
  }

  ghost predicate WithinBefore(ts: Ts, a: seq<byte>, n: nat, i: nat)
    requires WellSized(ts) && |a| == |ts.start| && i <= |a|
  {
    forall j: nat | j < i :: ByteWithin(ts, a, n, j)
  }

  lemma WithinBeforeStep(ts: Ts, a: seq<byte>, n: nat, i: nat, end: nat)
    requires WellSized(ts) && |a| == |ts.start| && i < end <= |a| && WithinBefore(ts, a, n, i)
    ensures if ByteWithin(ts, a, n, i) then WithinBefore(ts, a, n, i + 1) else !WithinBefore(ts, a, n, end)
  {
  }

  method BytesWithin(ts: Ts, a: seq<bv8>, prefixlen: nat) returns (ok: bool)
    requires WellSized(ts) && |a| == |ts.start| && prefixlen <= 8 * |a|
    ensures ok <==> WithinBefore(ts, Octets(a), prefixlen, Ceil8(prefixlen))
  {
    ghost var o := Octets(a);
    var end := Ceil8(prefixlen);
    for i := 0 to end
      invariant WithinBefore(ts, o, prefixlen, i)
    {
      ok := TestByteWithin(ts, a, prefixlen, i);
      WithinBeforeStep(ts, o, prefixlen, i, end);
      if !ok {
        return;
      }
    }
    return true;
  }

  method TestByteContained(ts: Ts, a: seq<bv8>, prefixlen: nat, i: nat) returns (ok: bool)
    requires WellSized(ts) && i < |a| == |ts.start|
    ensures ok <==> ByteContained(ts, Octets(a), prefixlen, i)
  {
    var lo, hi := ByteBounds(a, prefixlen, i);
    ok := ts.start[i] <= lo && ts.end[i] >= hi;
  }

  ghost predicate ContainedBefore(ts: Ts, a: seq<byte>, n: nat, i: nat)
    requires WellSized(ts) && |a| == |ts.start| && i <= |a|
  {
    forall j: nat | j < i :: ByteContained(ts, a, n, j)
  }

  lemma ContainedBeforeStep(ts: Ts, a: seq<byte>, n: nat, i: nat, end: nat)
    requires WellSized(ts) && |a| == |ts.start| && i < end <= |a| && ContainedBefore(ts, a, n, i)
    ensures if ByteContained(ts, a, n, i) then ContainedBefore(ts, a, n, i + 1) else !ContainedBefore(ts, a, n, end)
  {
  }

  method BytesContained(ts: Ts, a: seq<bv8>, prefixlen: nat) returns (ok: bool)
    requires WellSized(ts) && |a| == |ts.start| && prefixlen <= 8 * |a|
    ensures ok <==> ContainedBefore(ts, Octets(a), prefixlen, Ceil8(prefixlen))
  {
    ghost var o := Octets(a);
    var end := Ceil8(prefixlen);
    for i := 0 to end
      invariant ContainedBefore(ts, o, prefixlen, i)
    {
      ok := TestByteContained(ts, a, prefixlen, i);
      ContainedBeforeStep(ts, o, prefixlen, i, end);
      if !ok {
        return;
      }
    }
    return true;
  }

  /** ts_is_within_addr cuts the prefix length off at the size of the address. */
  function Clamped(prefixlen: nat, a: seq<bv8>): (n: nat)
    ensures n <= 8 * |a| && (prefixlen <= 8 * |a| ==> n == prefixlen)
  {
    if prefixlen > 8 * |a| then 8 * |a| else prefixlen
  }

  ghost predicate WithinAddr(ts: Ts, proto: byte, addr: SockAddr, prefixlen: nat)
    requires WellSized(ts) && addr.Valid()
  {
    var n := Clamped(prefixlen, addr.addr);
    && SameFamily(ts.tsType, addr.family)
    && (proto == PROTO_ANY || ts.proto == proto)
    && (forall i: nat | i < Ceil8(n) :: ByteWithin(ts, Octets(addr.addr), n, i))
    && (addr.port == 0 || (ts.startPort == addr.port && ts.endPort == addr.port))
  }

  /** ts_is_within_addr */
  method TsIsWithinAddr(ts: Ts, proto: byte, addr: SockAddr, prefixlen: nat) returns (ok: bool)
    requires WellSized(ts) && addr.Valid()
    ensures ok <==> WithinAddr(ts, proto, addr, prefixlen)
  {
    if !SameFamily(ts.tsType, addr.family) {
      return false;
    }
    if !(proto == PROTO_ANY || ts.proto == proto) {
      return false;
    }
    var bytes := BytesWithin(ts, addr.addr, Clamped(prefixlen, addr.addr));
    if !bytes {
      return false;
    }
    return addr.port == 0 || (ts.startPort == addr.port && ts.endPort == addr.port);
  }

  ghost predicate ContainsAddr(ts: Ts, proto: byte, addr: SockAddr, prefixlen: nat)
    requires WellSized(ts) && Configured(addr, prefixlen)
  {
    && SameFamily(ts.tsType, addr.family)
    && (ts.proto == PROTO_ANY || ts.proto == proto)
    && (forall i: nat | i < Ceil8(prefixlen) :: ByteContained(ts, Octets(addr.addr), prefixlen, i))
    && ts.startPort <= addr.port <= ts.endPort
  }

  /** ts_contains_addr: bytewise, and only over the bytes the prefix touches. */
  method TsContainsAddr(ts: Ts, proto: byte, addr: SockAddr, prefixlen: nat) returns (ok: bool)
    requires WellSized(ts) && Configured(addr, prefixlen)
    ensures ok <==> ContainsAddr(ts, proto, addr, prefixlen)
  {
    if !SameFamily(ts.tsType, addr.family) {
      return false;
    }
    if !(ts.proto == PROTO_ANY || ts.proto == proto) {
      return false;
    }
    var bytes := BytesContained(ts, addr.addr, prefixlen);
    if !bytes {
      return false;
    }
    return ts.startPort <= addr.port <= ts.endPort;
  }

  ghost predicate Accepts(ts: seq<Ts>, proto: byte, addr: SockAddr, prefixlen: nat)
    requires AllSized(ts) && Configured(addr, prefixlen)
  {
    && ts != []
    && (IsSpecific(ts[0]) ==> WithinAddr(ts[0], proto, addr, prefixlen))
    && exists i | 0 <= i < |ts| :: ContainsAddr(ts[i], proto, addr, prefixlen)
  }

  /** ts_is_matching */
  method TsIsMatching(ts: seq<Ts>, proto: byte, addr: SockAddr, prefixlen: nat) returns (ok: bool)
    requires AllSized(ts) && Configured(addr, prefixlen)
    ensures ok <==> Accepts(ts, proto, addr, prefixlen)
  {
    if |ts| == 0 {
      return false;
    }
    var within := TsIsWithinAddr(ts[0], proto, addr, prefixlen);
    if !IsSpecific(ts[0]) || within {
      for i := 0 to |ts|
        invariant forall j | 0 <= j < i :: !ContainsAddr(ts[j], proto, addr, prefixlen)
      {
        var hit := TsContainsAddr(ts[i], proto, addr, prefixlen);
        if hit {
          return true;
        }
      }
    }
    return false;
  }

  // ---------------------------------------------------------------- the response

  /** The selector ts_match and ts_add_return write. */
  function Response(proto: byte, addr: SockAddr, prefixlen: nat): (r: Ts)
    requires addr.Valid() && !addr.family.Unspec?
    ensures WellSized(r)
  {
    Ts(if addr.family.Inet? then TS_IPV4 else TS_IPV6, proto,
       addr.port, if addr.port == 0 then PORT_MAX else addr.port,
       BlockLo(Octets(addr.addr), prefixlen), BlockHi(Octets(addr.addr), prefixlen))
  }

  /** The response covers the configured network and nothing else. */
  lemma ResponseMeaning(proto: byte, addr: SockAddr, prefixlen: nat, k: Packet)
    requires Configured(addr, prefixlen) && !addr.family.Unspec?
    ensures Covers(Response(proto, addr, prefixlen), k) <==>
            && k.tsType == (if addr.family.Inet? then 7 else 8) && |k.addr| == |addr.addr|
            && SameNetwork(k.addr, Octets(addr.addr), prefixlen)
            && (proto == 0 || k.proto == proto)
            && (if addr.port == 0 then k.port < 65536 else k.port == addr.port)
  {
    if |k.addr| == |addr.addr| {
      BlockIsNetwork(k.addr, Octets(addr.addr), prefixlen);
    }
  }

  // ---------------------------------------------------------------- acceptance gives an answer

  lemma BlockOrdered(a: seq<byte>, n: nat)
    ensures Leq(BlockLo(a, n), BlockHi(a, n))
  {
    BytewiseLeq(BlockLo(a, n), BlockHi(a, n));
  }

  /** Even the bytewise check forces the ranges to overlap. */
  lemma ContainedOverlaps(ts: Ts, addr: SockAddr, n: nat)
    requires WellSized(ts) && Configured(addr, n) && |addr.addr| == |ts.start| && n <= 8 * |addr.addr|
    requires forall i: nat | i < Ceil8(n) :: ByteContained(ts, Octets(addr.addr), n, i)
    ensures Leq(ts.start, BlockHi(Octets(addr.addr), n))
    ensures Leq(BlockLo(Octets(addr.addr), n), ts.end)
  {
    var a := Octets(addr.addr);
    forall i: nat | i < |a|
      ensures ts.start[i] <= BlockHi(a, n)[i] && BlockLo(a, n)[i] <= ts.end[i]
    {
      if i < Ceil8(n) {
        assert ByteContained(ts, Octets(addr.addr), n, i);
      } else {
        assert Keep(n, i) == 0;
      }
    }
    BytewiseLeq(ts.start, BlockHi(a, n));
    BytewiseLeq(BlockLo(a, n), ts.end);
  }

  /** A selector that is accepted always has packets in common with the response. */
  lemma AcceptedOverlaps(ts: Ts, proto: byte, addr: SockAddr, prefixlen: nat)
    requires WellSized(ts) && Configured(addr, prefixlen) && Leq(ts.start, ts.end)
    requires ContainsAddr(ts, proto, addr, prefixlen)
    ensures Intersect(ts, Response(proto, addr, prefixlen)).Some?
  {
    var r := Response(proto, addr, prefixlen);
    ContainedOverlaps(ts, addr, prefixlen);
    BlockOrdered(Octets(addr.addr), prefixlen);
    MaxAddrIsBound(ts.start, r.start, MinAddr(ts.end, r.end));
    MinAddrIsBound(ts.end, r.end, ts.start);
    MinAddrIsBound(ts.end, r.end, r.start);
  }

  predicate Ordered(ts: seq<Ts>)
    requires AllSized(ts)
  {
    forall i | 0 <= i < |ts| :: Leq(ts[i].start, ts[i].end)
  }

  /** Acceptance implies a usable narrowing, whatever else the answer holds. */
  lemma AcceptanceNarrows(ts: seq<Ts>, proto: byte, addr: SockAddr, prefixlen: nat, answer: seq<Ts>, j: nat)
    requires AllSized(ts) && Ordered(ts) && Configured(addr, prefixlen) && Accepts(ts, proto, addr, prefixlen)
    requires AllSized(answer) && j < |answer| && !addr.family.Unspec? && answer[j] == Response(proto, addr, prefixlen)
    ensures Pairs(ts, answer) != []
  {
    var i :| 0 <= i < |ts| && ContainsAddr(ts[i], proto, addr, prefixlen);
    AcceptedOverlaps(ts[i], proto, addr, prefixlen);
    PairsNonEmpty(ts, answer, i, j);
  }

  // ---------------------------------------------------------------- the first choice

  lemma WithinIsInside(ts: Ts, proto: byte, addr: SockAddr, prefixlen: nat)
    requires WellSized(ts) && Configured(addr, prefixlen)
    requires IsSpecific(ts) && WithinAddr(ts, proto, addr, prefixlen)
    ensures Inside(ts, Response(proto, addr, prefixlen))
  {
    var a := Octets(addr.addr);
    assert Clamped(prefixlen, addr.addr) == prefixlen;
    forall i: nat | i < |a|
      ensures TopBitsAgree(ts.start[i], a[i], Keep(prefixlen, i))
    {
      if i < Ceil8(prefixlen) {
        assert ByteWithin(ts, Octets(addr.addr), Clamped(prefixlen, addr.addr), i);
        QuotientIsBlock(ts.start[i], a[i], Keep(prefixlen, i));
        TopBitsAreQuotient(ts.start[i], a[i], Keep(prefixlen, i));
      }
    }
    NetworkByBytes(ts.start, a, prefixlen);
    BlockIsNetwork(ts.start, a, prefixlen);
  }

  /** Section 2.9 of RFC 7296: the initiator's specific first selector is kept, and it
      heads the narrowed list exactly as proposed. */
  lemma FirstChoiceKept(ts: seq<Ts>, proto: byte, addr: SockAddr, prefixlen: nat, answer: seq<Ts>)
    requires AllSized(ts) && Configured(addr, prefixlen) && Accepts(ts, proto, addr, prefixlen)
    requires IsSpecific(ts[0]) && AllSized(answer)
    requires answer != [] && !addr.family.Unspec? && answer[0] == Response(proto, addr, prefixlen)
    ensures forall k: Packet | Covers(ts[0], k) :: Covers(answer[0], k)
    ensures Pairs(ts, answer) != [] && Pairs(ts, answer)[0] == ts[0]
  {
    WithinIsInside(ts[0], proto, addr, prefixlen);
    forall k: Packet | Covers(ts[0], k)
      ensures Covers(answer[0], k)
    {
      InsideCovers(ts[0], answer[0], k);
    }
    LeqReflexive(ts[0].start);
    IntersectInside(ts[0], answer[0]);
    PairsFirst(ts, answer);
  }
}
