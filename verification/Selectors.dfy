/** Traffic selectors (section 3.13.1 of RFC 7296) as sets of packets, and the
    intersection that narrows a proposal (section 2.9 of RFC 7296). */
module Selectors {

  import opened Arith
  import opened Bytes
  import opened Wrappers

  const TS_IPV4: byte := 7
  const TS_IPV6: byte := 8
  const PROTO_ANY: byte := 0
  const PORT_MAX: nat := 65535

  /** ikev2_ts_addr_size: 0 for a type the daemon does not know. */
  function AddrSize(tsType: byte): nat {
    if tsType == TS_IPV4 then 4 else if tsType == TS_IPV6 then 16 else 0
  }

  datatype Ts = Ts(tsType: byte, proto: byte, startPort: nat, endPort: nat, start: seq<byte>, end: seq<byte>)

  predicate WellSized(t: Ts) {
    && AddrSize(t.tsType) > 0
    && |t.start| == |t.end| == AddrSize(t.tsType)
    && t.startPort <= PORT_MAX && t.endPort <= PORT_MAX
  }

  /** What a selector talks about: an address of one family with a protocol and a port. */
  datatype Packet = Packet(tsType: byte, proto: byte, port: nat, addr: seq<byte>)

  predicate Covers(t: Ts, k: Packet)
    requires WellSized(t)
  {
    && k.tsType == t.tsType
    && |k.addr| == AddrSize(t.tsType)
    && (t.proto == PROTO_ANY || t.proto == k.proto)
    && t.startPort <= k.port <= t.endPort
    && Leq(t.start, k.addr) && Leq(k.addr, t.end)
  }

  // ---------------------------------------------------------------- one pair

  function MaxAddr(a: seq<byte>, b: seq<byte>): (m: seq<byte>)
    requires |a| == |b|
    ensures |m| == |a|
  {
    if Leq(b, a) then a else b
  }

  function MinAddr(a: seq<byte>, b: seq<byte>): (m: seq<byte>)
    requires |a| == |b|
    ensures |m| == |a|
  {
    if Leq(a, b) then a else b
  }

  lemma MaxAddrIsBound(a: seq<byte>, b: seq<byte>, x: seq<byte>)
    requires |a| == |b| == |x|
    ensures Leq(MaxAddr(a, b), x) <==> Leq(a, x) && Leq(b, x)
  {
    LeqTotal(a, b);
    if Leq(b, a) && Leq(a, x) {
      LeqTransitive(b, a, x);
    }
    if Leq(a, b) && Leq(b, x) {
      LeqTransitive(a, b, x);
    }
  }

  lemma MinAddrIsBound(a: seq<byte>, b: seq<byte>, x: seq<byte>)
    requires |a| == |b| == |x|
    ensures Leq(x, MinAddr(a, b)) <==> Leq(x, a) && Leq(x, b)
  {
    LeqTotal(a, b);
    if Leq(a, b) && Leq(x, a) {
      LeqTransitive(x, a, b);
    }
    if Leq(b, a) && Leq(x, b) {
      LeqTransitive(x, b, a);
    }
  }

  /** The result of ikev2_ts_intersect, None when it returns 0. */
  function Intersect(p: Ts, q: Ts): (r: Option<Ts>)
    requires WellSized(p) && WellSized(q)
    ensures r.Some? ==> WellSized(r.value) && r.value.tsType == p.tsType == q.tsType
  {
    if p.tsType != q.tsType then None
    else if p.proto != PROTO_ANY && q.proto != PROTO_ANY && q.proto != p.proto then None
    else
      var proto := if p.proto == PROTO_ANY then q.proto else p.proto;
      var sp := Max(p.startPort, q.startPort);
      var ep := Min(p.endPort, q.endPort);
      var start, end := MaxAddr(p.start, q.start), MinAddr(p.end, q.end);
      if sp > ep || !Leq(start, end) then None
      else Some(Ts(p.tsType, proto, sp, ep, start, end))
  }

  /** Intersecting selectors intersects the packets they cover. */
  lemma IntersectMeaning(p: Ts, q: Ts, k: Packet)
    requires WellSized(p) && WellSized(q)
    ensures Covers(p, k) && Covers(q, k) <==> Intersect(p, q).Some? && Covers(Intersect(p, q).value, k)
  {
    if p.tsType == q.tsType && |k.addr| == AddrSize(p.tsType) {
      MaxAddrIsBound(p.start, q.start, k.addr);
      MinAddrIsBound(p.end, q.end, k.addr);
      var start, end := MaxAddr(p.start, q.start), MinAddr(p.end, q.end);
      if Leq(start, k.addr) && Leq(k.addr, end) {
        LeqTransitive(start, k.addr, end);
      }
    }
  }

  /** No answer means no common packet; an answer always has one. */
  lemma IntersectEmpty(p: Ts, q: Ts)
    requires WellSized(p) && WellSized(q)
    ensures Intersect(p, q).Some? <==> exists k: Packet :: Covers(p, k) && Covers(q, k)
  {
    if Intersect(p, q).Some? {
      var r := Intersect(p, q).value;
      var k := Packet(r.tsType, r.proto, r.startPort, r.start);
      LeqReflexive(r.start);
      assert Covers(r, k);
      IntersectMeaning(p, q, k);
    }
    forall k: Packet | Covers(p, k) && Covers(q, k)
      ensures Intersect(p, q).Some?
    {
      IntersectMeaning(p, q, k);
    }
  }

  /** q covers everything p does, field by field. */
  predicate Inside(p: Ts, q: Ts)
    requires WellSized(p) && WellSized(q)
  {
    && p.tsType == q.tsType
    && (q.proto == PROTO_ANY || p.proto == q.proto)
    && q.startPort <= p.startPort && p.endPort <= q.endPort
    && Leq(q.start, p.start) && Leq(p.end, q.end)
  }

  lemma InsideCovers(p: Ts, q: Ts, k: Packet)
    requires WellSized(p) && WellSized(q) && Inside(p, q) && Covers(p, k)
    ensures Covers(q, k)
  {
    LeqTransitive(q.start, p.start, k.addr);
    LeqTransitive(k.addr, p.end, q.end);
  }

  /** A non-empty selector that lies inside another is its own intersection with it. */
  lemma IntersectInside(p: Ts, q: Ts)
    requires WellSized(p) && WellSized(q) && Inside(p, q)
    requires p.proto != PROTO_ANY && p.startPort <= p.endPort && Leq(p.start, p.end)
    ensures Intersect(p, q) == Some(p)
  {
  }

  // ---------------------------------------------------------------- lists

  predicate AllSized(ts: seq<Ts>) {
    forall i | 0 <= i < |ts| :: WellSized(ts[i])
  }

  predicate Union(ts: seq<Ts>, k: Packet)
    requires AllSized(ts)
  {
    exists i | 0 <= i < |ts| :: Covers(ts[i], k)
  }

  function OneOrNone(r: Option<Ts>): seq<Ts> {
    if r.Some? then [r.value] else []
  }

  /** p against the selectors of q, in order. */
  function Row(p: Ts, q: seq<Ts>): (r: seq<Ts>)
    requires WellSized(p) && AllSized(q)
    ensures AllSized(r) && |r| <= |q|
  {
    if q == [] then [] else Row(p, q[..|q| - 1]) + OneOrNone(Intersect(p, q[|q| - 1]))
  }

  /** Every proposed selector against every configured one, in order. */
  function Pairs(p: seq<Ts>, q: seq<Ts>): (r: seq<Ts>)
    requires AllSized(p) && AllSized(q)
    ensures AllSized(r)
  {
    if p == [] then [] else Pairs(p[..|p| - 1], q) + Row(p[|p| - 1], q)
  }

  lemma {:induction false} PairsCount(p: seq<Ts>, q: seq<Ts>)
    requires AllSized(p) && AllSized(q)
    ensures |Pairs(p, q)| <= |p| * |q|
  {
    if p != [] {
      PairsCount(p[..|p| - 1], q);
      MulAdd(|p| - 1, 1, |q|);
    }
  }

  lemma UnionAppend(a: seq<Ts>, b: seq<Ts>, k: Packet)
    requires AllSized(a) && AllSized(b)
    ensures Union(a + b, k) <==> Union(a, k) || Union(b, k)
  {
    if Union(a, k) {
      var i :| 0 <= i < |a| && Covers(a[i], k);
      assert Covers((a + b)[i], k);
    }
    if Union(b, k) {
      var i :| 0 <= i < |b| && Covers(b[i], k);
      assert Covers((a + b)[|a| + i], k);
    }
  }

  lemma UnionLast(ts: seq<Ts>, k: Packet)
    requires ts != [] && AllSized(ts)
    ensures Union(ts, k) <==> Union(ts[..|ts| - 1], k) || Covers(ts[|ts| - 1], k)
  {
    assert ts == ts[..|ts| - 1] + [ts[|ts| - 1]];
    UnionAppend(ts[..|ts| - 1], [ts[|ts| - 1]], k);
    assert Union([ts[|ts| - 1]], k) <==> Covers([ts[|ts| - 1]][0], k);
  }

  lemma {:induction false} RowMeaning(p: Ts, q: seq<Ts>, k: Packet)
    requires WellSized(p) && AllSized(q)
    ensures Union(Row(p, q), k) <==> Covers(p, k) && Union(q, k)
  {
    if q != [] {
      var front, last := q[..|q| - 1], q[|q| - 1];
      RowMeaning(p, front, k);
      IntersectMeaning(p, last, k);
      UnionLast(q, k);
      UnionAppend(Row(p, front), OneOrNone(Intersect(p, last)), k);
      assert Union(OneOrNone(Intersect(p, last)), k) <==> Covers(p, k) && Covers(last, k) by {
        if Intersect(p, last).Some? {
          UnionLast([Intersect(p, last).value], k);
        }
      }
    }
  }

  /** Narrowing all pairs denotes exactly the intersection of the two unions. */
  lemma {:induction false} PairsMeaning(p: seq<Ts>, q: seq<Ts>, k: Packet)
    requires AllSized(p) && AllSized(q)
    ensures Union(Pairs(p, q), k) <==> Union(p, k) && Union(q, k)
  {
    if p != [] {
      var front, last := p[..|p| - 1], p[|p| - 1];
      PairsMeaning(front, q, k);
      RowMeaning(last, q, k);
      UnionLast(p, k);
      UnionAppend(Pairs(front, q), Row(last, q), k);
    }
  }

  /** Each narrowed selector is the intersection of one proposed and one configured one. */
  ghost predicate IsIntersection(r: Ts, p: seq<Ts>, q: seq<Ts>)
    requires AllSized(p) && AllSized(q)
  {
    exists i, j | 0 <= i < |p| && 0 <= j < |q| :: Intersect(p[i], q[j]) == Some(r)
  }

  lemma {:induction false} RowOrigin(p: Ts, q: seq<Ts>, n: nat)
    requires WellSized(p) && AllSized(q) && n < |Row(p, q)|
    ensures exists j | 0 <= j < |q| :: Intersect(p, q[j]) == Some(Row(p, q)[n])
  {
    var front, last := q[..|q| - 1], q[|q| - 1];
    if n < |Row(p, front)| {
      RowOrigin(p, front, n);
      var j :| 0 <= j < |front| && Intersect(p, front[j]) == Some(Row(p, front)[n]);
      assert Intersect(p, q[j]) == Some(Row(p, q)[n]);
    } else {
      assert Intersect(p, q[|q| - 1]) == Some(Row(p, q)[n]);
    }
  }

  lemma {:induction false} PairsOrigin(p: seq<Ts>, q: seq<Ts>, n: nat)
    requires AllSized(p) && AllSized(q) && n < |Pairs(p, q)|
    ensures IsIntersection(Pairs(p, q)[n], p, q)
  {
    var front, last := p[..|p| - 1], p[|p| - 1];
    if n < |Pairs(front, q)| {
      PairsOrigin(front, q, n);
      var i, j :| 0 <= i < |front| && 0 <= j < |q| && Intersect(front[i], q[j]) == Some(Pairs(front, q)[n]);
      assert Intersect(p[i], q[j]) == Some(Pairs(p, q)[n]);
    } else {
      RowOrigin(last, q, n - |Pairs(front, q)|);
      var j :| 0 <= j < |q| && Intersect(last, q[j]) == Some(Row(last, q)[n - |Pairs(front, q)|]);
      assert Intersect(p[|p| - 1], q[j]) == Some(Pairs(p, q)[n]);
    }
  }

  /** The pairs of the first proposed selector come first, those of the first configured one first of all. */
  lemma {:induction false} RowFirst(p: Ts, q: seq<Ts>)
    requires WellSized(p) && AllSized(q) && q != [] && Intersect(p, q[0]).Some?
    ensures Row(p, q) != [] && Row(p, q)[0] == Intersect(p, q[0]).value
  {
    if |q| > 1 {
      RowFirst(p, q[..|q| - 1]);
    } else {
      assert Row(p, []) == [];
      assert q[..0] == [];
    }
  }

  lemma {:induction false} PairsFirst(p: seq<Ts>, q: seq<Ts>)
    requires AllSized(p) && AllSized(q) && p != [] && q != [] && Intersect(p[0], q[0]).Some?
    ensures Pairs(p, q) != [] && Pairs(p, q)[0] == Intersect(p[0], q[0]).value
  {
    if |p| > 1 {
      PairsFirst(p[..|p| - 1], q);
    } else {
      assert p[..0] == [];
      RowFirst(p[0], q);
    }
  }

  lemma PairsNonEmpty(p: seq<Ts>, q: seq<Ts>, i: nat, j: nat)
    requires AllSized(p) && AllSized(q) && i < |p| && j < |q| && Intersect(p[i], q[j]).Some?
    ensures Pairs(p, q) != []
  {
    IntersectEmpty(p[i], q[j]);
    var k: Packet :| Covers(p[i], k) && Covers(q[j], k);
    PairsMeaning(p, q, k);
    assert Union(p, k) && Union(q, k);
  }

  /** There is no pair exactly when there is no common packet. */
  lemma PairsEmpty(p: seq<Ts>, q: seq<Ts>)
    requires AllSized(p) && AllSized(q)
    ensures Pairs(p, q) == [] <==> forall k: Packet :: !(Union(p, k) && Union(q, k))
  {
    if Pairs(p, q) != [] {
      PairsOrigin(p, q, 0);
      var i, j :| 0 <= i < |p| && 0 <= j < |q| && Intersect(p[i], q[j]) == Some(Pairs(p, q)[0]);
      IntersectEmpty(p[i], q[j]);
      var k: Packet :| Covers(p[i], k) && Covers(q[j], k);
      assert Union(p, k) && Union(q, k);
    } else {
      forall k: Packet
        ensures !(Union(p, k) && Union(q, k))
      {
        PairsMeaning(p, q, k);
      }
    }
  }
}
