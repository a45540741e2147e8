/** Where the 8-bit count of selectors shows: an answer whose count wraps, and a narrowing
    that loses a packet both sides wanted. */
module TsLimits {

  import opened AddrMatch
  import opened Arith
  import opened Bytes
  import opened Matching
  import opened Selectors
  import opened TsAnswer
  import opened TsNarrow
  import opened TsWire
  import opened Wrappers

  // ---------------------------------------------------------------- the count wraps

  /** ts_add_return called 256 times: the answer is 256 selectors long and reads as empty. */
  method WrappedAnswer(proto: byte, addr: SockAddr, prefixlen: nat) returns (answer: seq<byte>, ghost ts: seq<Ts>)
    requires addr.Valid() && !addr.family.Unspec?
    ensures IsAnswer(answer, ts) && |ts| == 256 && forall i | 0 <= i < 256 :: ts[i] == Response(proto, addr, prefixlen)
    ensures ParseAnswer(answer) == []
  {
    var res := TsAddReturn(None, proto, addr, prefixlen, true, []);
    ts := [Response(proto, addr, prefixlen)];
    for n := 1 to 256
      invariant res.Some? && IsAnswer(res.value, ts) && |ts| == n
      invariant forall i | 0 <= i < n :: ts[i] == Response(proto, addr, prefixlen)
    {
      res := TsAddReturn(res, proto, addr, prefixlen, true, ts);
      ts := ts + [Response(proto, addr, prefixlen)];
    }
    answer := res.value;
    AnswerReadsPrefix(answer, ts);
  }

  // ---------------------------------------------------------------- a packet is lost

  lemma FirstAndRest(ts: seq<Ts>)
    requires ts != []
    ensures ts == [ts[0]] + ts[1..]
  {
  }

  lemma {:induction false} ProposalEncoded(b: seq<byte>, off: nat, ts: seq<Ts>, num: nat)
    requires AllSized(ts) && off <= |b| && b[off..] == EncodeAll(ts) && num == |ts|
    ensures ProposalWalk(b, off, num) == ts
    decreases num
  {
    if num > 0 {
      var next, left, rest := off + TsSize(ts[0].tsType), num - 1, ts[1..];
      EncodedFirst(b, off, ts, next);
      ProposalEncoded(b, next, rest, left);
      WalkStep(b, off, next, left);
      FirstAndRest(ts);
    }
  }

  /** p meets every configured selector. */
  ghost predicate MeetsAll(p: Ts, q: seq<Ts>)
    requires WellSized(p) && AllSized(q)
  {
    forall j | 0 <= j < |q| :: Intersect(p, q[j]).Some?
  }

  /** Every proposed selector meets every configured one. */
  ghost predicate AllMeet(p: seq<Ts>, q: seq<Ts>)
    requires AllSized(p) && AllSized(q)
  {
    forall i | 0 <= i < |p| :: MeetsAll(p[i], q)
  }

  lemma {:induction false} RowFull(p: Ts, q: seq<Ts>)
    requires WellSized(p) && AllSized(q) && MeetsAll(p, q)
    ensures |Row(p, q)| == |q|
  {
    if q != [] {
      RowFull(p, q[..|q| - 1]);
    }
  }

  lemma MeetsBefore(p: seq<Ts>, q: seq<Ts>)
    requires AllSized(p) && AllSized(q) && AllMeet(p, q) && p != []
    ensures AllMeet(p[..|p| - 1], q) && MeetsAll(p[|p| - 1], q)
  {
  }

  /** Then no pair is missing. */
  lemma {:induction false} PairsFull(p: seq<Ts>, q: seq<Ts>)
    requires AllSized(p) && AllSized(q) && AllMeet(p, q)
    ensures |Pairs(p, q)| == |p| * |q|
  {
    if p != [] {
      var front, last := p[..|p| - 1], p[|p| - 1];
      MeetsBefore(p, q);
      PairsFull(front, q);
      RowFull(last, q);
      assert |Pairs(p, q)| == |Pairs(front, q)| + |q|;
      OneMoreRow(|Pairs(front, q)|, |p|, |q|);
    }
  }

  lemma OneMoreRow(c: int, n: int, m: int)
    requires c == (n - 1) * m
    ensures c + m == n * m
  {
    MulAdd(n - 1, 1, m);
  }

  lemma AllButLastPair(p: seq<Ts>, q: seq<Ts>)
    requires AllSized(p) && AllSized(q) && p != [] && q != [] && Intersect(p[|p| - 1], q[|q| - 1]).Some?
    ensures |Pairs(p, q)| > 0
    ensures Pairs(p, q)[..|Pairs(p, q)| - 1] == Pairs(p[..|p| - 1], q) + Row(p[|p| - 1], q[..|q| - 1])
  {
  }

  /** A packet that only the last selectors of both sides cover is covered by the last pair
      only. */
  lemma OnlyLastPair(p: seq<Ts>, q: seq<Ts>, k: Packet)
    requires AllSized(p) && AllSized(q) && p != [] && q != [] && Intersect(p[|p| - 1], q[|q| - 1]).Some?
    requires !Union(p[..|p| - 1], k) && !Union(q[..|q| - 1], k)
    ensures |Pairs(p, q)| > 0 && !Union(Pairs(p, q)[..|Pairs(p, q)| - 1], k)
  {
    var front, last, cut := p[..|p| - 1], p[|p| - 1], q[..|q| - 1];
    AllButLastPair(p, q);
    PairsMeaning(front, q, k);
    RowMeaning(last, cut, k);
    UnionAppend(Pairs(front, q), Row(last, cut), k);
  }

  /** Any address, one port; any port, one address. */
  function OnePort(i: byte): Ts {
    Ts(TS_IPV4, PROTO_ANY, i, i, [0, 0, 0, 0], [255, 255, 255, 255])
  }

  function OneAddress(j: byte): Ts {
    Ts(TS_IPV4, PROTO_ANY, 0, PORT_MAX, [10, 0, 0, j], [10, 0, 0, j])
  }

  function ToPort(i: byte, j: byte): Packet {
    Packet(TS_IPV4, 6, i, [10, 0, 0, j])
  }

  lemma PortCovers(i: byte, m: byte, j: byte)
    ensures Covers(OnePort(i), ToPort(m, j)) <==> i == m
  {
    assert Leq([0, 0, 0, 0], [10, 0, 0, j]) && Leq([10, 0, 0, j], [255, 255, 255, 255]);
  }

  lemma AddressCovers(j: byte, m: byte, i: byte)
    ensures Covers(OneAddress(j), ToPort(i, m)) <==> j == m
  {
    var a, b := [10, 0, 0, j], [10, 0, 0, m];
    LeqReflexive(a);
    if Leq(a, b) && Leq(b, a) {
      LeqAntisymmetric(a, b);
      assert a[3] == b[3];
    }
  }

  lemma PortMeetsAddress(i: byte, j: byte)
    ensures Intersect(OnePort(i), OneAddress(j)).Some?
  {
    PortCovers(i, i, j);
    AddressCovers(j, j, i);
    IntersectEmpty(OnePort(i), OneAddress(j));
  }

  function Ports(n: nat): (r: seq<Ts>)
    requires n <= 256
    ensures |r| == n && AllSized(r)
  {
    seq(n, i requires 0 <= i < n => OnePort(i))
  }

  function Addresses(n: nat): (r: seq<Ts>)
    requires n <= 256
    ensures |r| == n && AllSized(r)
  {
    seq(n, j requires 0 <= j < n => OneAddress(j))
  }

  lemma {:induction false} EncodedLength(ts: seq<Ts>)
    requires AllSized(ts) && forall i | 0 <= i < |ts| :: ts[i].tsType == TS_IPV4
    ensures |EncodeAll(ts)| == 16 * |ts|
  {
    if ts != [] {
      EncodedLength(ts[1..]);
    }
  }

  lemma PortsMeetAddresses(n: nat)
    requires n <= 256
    ensures AllMeet(Ports(n), Addresses(n))
  {
    var p, q := Ports(n), Addresses(n);
    forall i | 0 <= i < n ensures MeetsAll(p[i], q) {
      forall j | 0 <= j < n ensures Intersect(p[i], q[j]).Some? {
        PortMeetsAddress(i, j);
      }
    }
  }

  /** Of n ports and n addresses, the last packet is covered by the last ones alone. */
  lemma LastAlone(n: nat, k: Packet)
    requires 0 < n <= 256 && k == ToPort(n - 1, n - 1)
    ensures Union(Ports(n), k) && !Union(Ports(n)[..n - 1], k)
    ensures Union(Addresses(n), k) && !Union(Addresses(n)[..n - 1], k)
  {
    var p, q := Ports(n), Addresses(n);
    forall i | 0 <= i < n ensures Covers(p[i], k) <==> i == n - 1 {
      PortCovers(i, n - 1, n - 1);
    }
    forall j | 0 <= j < n ensures Covers(q[j], k) <==> j == n - 1 {
      AddressCovers(j, n - 1, n - 1);
    }
    assert Covers(p[n - 1], k) && Covers(q[n - 1], k);
  }

  lemma LastMissing(p: seq<Ts>, q: seq<Ts>, k: Packet)
    requires AllSized(p) && AllSized(q) && p != [] && q != [] && AllMeet(p, q)
    requires !Union(p[..|p| - 1], k) && !Union(q[..|q| - 1], k)
    ensures var all := Pairs(p, q); |all| == |p| * |q| && |all| > 0 && !Union(all[..|all| - 1], k)
  {
    PairsFull(p, q);
    assert MeetsAll(p[|p| - 1], q);
    OnlyLastPair(p, q, k);
  }

  /** n ports against n addresses: n * n pairs, and without the last one a packet is lost. */
  lemma LastPairMissing(n: nat, k: Packet)
    requires 0 < n <= 256 && k == ToPort(n - 1, n - 1)
    ensures var all := Pairs(Ports(n), Addresses(n)); |all| == n * n && |all| > 0 && !Union(all[..|all| - 1], k)
  {
    PortsMeetAddresses(n);
    LastAlone(n, k);
    LastMissing(Ports(n), Addresses(n), k);
  }

  lemma ProposedOf(h: seq<byte>, p: seq<Ts>, payload: seq<byte>)
    requires |h| == PAYLOAD_HEADER && AllSized(p) && payload == h + EncodeAll(p)
    requires U16(h, 2) == |payload| && h[4] == |p|
    ensures PayloadFits(payload) && payload[4] == h[4] && Proposed(payload) == p
  {
    SameU16(h, 2, payload, 2);
    assert payload[PAYLOAD_HEADER..] == EncodeAll(p) && payload[..|payload|] == payload;
    ProposalEncoded(payload, PAYLOAD_HEADER, p, |p|);
  }

  /** With n * n = 256 pairs, the answer has all but the last. */
  lemma AllButLast(payload: seq<byte>, answer: seq<byte>, p: seq<Ts>, q: seq<Ts>)
    requires Readable(payload, answer) && Proposed(payload) == p && ParseAnswer(answer) == q
    requires payload[4] == |p| && answer[0] == |q| && |p| * |q| == 256 && |Pairs(p, q)| == 256
    ensures Narrowed(payload, answer) == Pairs(p, q)[..|Pairs(p, q)| - 1]
  {
  }

  lemma PayloadWith(p: seq<Ts>) returns (payload: seq<byte>)
    requires AllSized(p) && |p| <= MAX_COUNT && |EncodeAll(p)| + PAYLOAD_HEADER < 0x1_0000
    ensures PayloadFits(payload) && payload[4] == |p| && Proposed(payload) == p
  {
    var len := |EncodeAll(p)| + PAYLOAD_HEADER;
    var h: seq<byte> := [0, 0, len / 256, len % 256, |p|, 0, 0, 0];
    payload := h + EncodeAll(p);
    ProposedOf(h, p, payload);
  }

  lemma AnswerBody(q: seq<Ts>) returns (answer: seq<byte>)
    requires AllSized(q) && |q| <= MAX_COUNT
    ensures IsAnswer(answer, q)
  {
    var h: seq<byte> := [|q|, 0, 0, 0];
    answer := h + EncodeAll(q);
    assert answer[ANSWER_HEADER..] == EncodeAll(q);
  }

  lemma AnswerWith(q: seq<Ts>) returns (answer: seq<byte>)
    requires AllSized(q) && |q| <= MAX_COUNT
    ensures |answer| >= ANSWER_HEADER && answer[0] == |q| && ParseAnswer(answer) == q
  {
    answer := AnswerBody(q);
    AnswerReadsBack(answer, q);
  }

  /** A payload and an answer for which narrowing loses a packet that both sides cover. */
  lemma LostPacket(n: nat, k: Packet) returns (payload: seq<byte>, answer: seq<byte>)
    requires n == 16 && k == ToPort(n - 1, n - 1)
    ensures Readable(payload, answer)
    ensures Union(Proposed(payload), k) && Union(ParseAnswer(answer), k) && !Union(Narrowed(payload, answer), k)
  {
    var p, q := Ports(n), Addresses(n);
    EncodedLength(p);
    payload := PayloadWith(p);
    answer := AnswerWith(q);
    LastPairMissing(n, k);
    LastAlone(n, k);
    AllButLast(payload, answer, p, q);
  }
}
