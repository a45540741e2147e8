/** The responder's answer: ts_match and ts_add_return build it from the configuration,
    ikev2_ts_narrow_to_proposal cuts it down to the proposal, and the theorems of this
    module say what is left for the peer. */
module TsAnswer {

  import opened AddrMatch
  import opened Arith
  import opened Bytes
  import opened Matching
  import opened Prefix
  import opened Selectors
  import opened Wrappers
  import opened TsNarrow
  import opened TsWire

  // ---------------------------------------------------------------- building the answer

  /** The address loop that ts_match and ts_add_return share. */
  method FillBlock(out: array<byte>, at: nat, addr: seq<bv8>, prefixlen: nat, ghost lo: seq<byte>, ghost hi: seq<byte>)
    requires at + 2 * |addr| <= out.Length
    requires lo == BlockLo(Octets(addr), prefixlen) && hi == BlockHi(Octets(addr), prefixlen)
    modifies out
    ensures forall j | 0 <= j < |addr| :: out[at + j] == lo[j] && out[at + |addr| + j] == hi[j]
    ensures forall j | 0 <= j < at || at + 2 * |addr| <= j < out.Length :: out[j] == old(out[j])
  {
    for i := 0 to |addr|
      invariant forall j | 0 <= j < i :: out[at + j] == lo[j] && out[at + |addr| + j] == hi[j]
      invariant forall j | 0 <= j < at || at + 2 * |addr| <= j < out.Length :: out[j] == old(out[j])
    {
      var l, h := ByteBounds(addr, prefixlen, i);
      out[at + i], out[at + |addr| + i] := l, h;
    }
  }

  /** It fills out[at..] with the two ends of the block addr/prefixlen. */
  method WriteBlock(out: array<byte>, at: nat, addr: seq<bv8>, prefixlen: nat)
    requires at + 2 * |addr| <= out.Length
    modifies out
    ensures out[..at] == old(out[..at])
    ensures out[at..at + |addr|] == BlockLo(Octets(addr), prefixlen)
    ensures out[at + |addr|..at + 2 * |addr|] == BlockHi(Octets(addr), prefixlen)
    ensures out[at + 2 * |addr|..] == old(out[at + 2 * |addr|..])
  {
    FillBlock(out, at, addr, prefixlen, BlockLo(Octets(addr), prefixlen), BlockHi(Octets(addr), prefixlen));
  }

  function FamilyType(family: Family): byte {
    if family.Inet? then TS_IPV4 else TS_IPV6
  }

  /** One selector for addr/prefixlen at out[at..]. */
  method WriteResponse(out: array<byte>, at: nat, proto: byte, addr: SockAddr, prefixlen: nat)
    requires addr.Valid() && !addr.family.Unspec?
    requires at + TsSize(FamilyType(addr.family)) == out.Length
    modifies out
    ensures out[..at] == old(out[..at])
    ensures out[at..] == EncodeTs(Response(proto, addr, prefixlen))
  {
    var tsType := FamilyType(addr.family);
    var r := Response(proto, addr, prefixlen);
    if addr.port == 0 {
      WriteHeader(out, at, tsType, proto, 0, PORT_MAX);
    } else {
      WriteHeader(out, at, tsType, proto, addr.port, addr.port);
    }
    ghost var headed := out[..at + TS_HEADER];
    WriteBlock(out, at + TS_HEADER, addr.addr, prefixlen);
    assert out[..at] == out[..at + TS_HEADER][..at] == headed[..at];
    assert out[at..at + TS_HEADER] == out[..at + TS_HEADER][at..] == headed[at..];
    ResponseParts(out[..], at, r);
  }

  lemma ResponseParts(b: seq<byte>, at: nat, r: Ts)
    requires WellSized(r) && at + TsSize(r.tsType) == |b|
    requires b[at..at + TS_HEADER] == EncodeHeader(r.tsType, r.proto, r.startPort, r.endPort)
    requires b[at + TS_HEADER..at + TS_HEADER + |r.start|] == r.start
    requires b[at + TS_HEADER + |r.start|..at + TsSize(r.tsType)] == r.end
    ensures b[at..] == EncodeTs(r)
  {
    var a, m := at + TS_HEADER, at + TS_HEADER + |r.start|;
    SlicesJoin(b, a, m, |b|);
    assert b[a..] == b[a..|b|];
    SlicesJoin(b, at, a, |b|);
    assert b[at..] == b[at..|b|];
  }

  /** ts_match: a fresh answer with the one selector; None for a foreign family and when the
      buffer cannot be allocated. */
  method TsMatch(proto: byte, addr: SockAddr, prefixlen: nat, alloc: bool) returns (res: Option<seq<byte>>)
    requires addr.Valid()
    ensures res.Some? <==> !addr.family.Unspec? && alloc
    ensures res.Some? ==> IsAnswer(res.value, [Response(proto, addr, prefixlen)])
  {
    if addr.family.Unspec? || !alloc {
      return None;
    }
    var out := new byte[ANSWER_HEADER + TsSize(FamilyType(addr.family))](_ => 0);
    out[0] := 1;
    WriteResponse(out, ANSWER_HEADER, proto, addr, prefixlen);
    ghost var r := Response(proto, addr, prefixlen);
    assert out[0] == out[..ANSWER_HEADER][0] && out[1] == out[..ANSWER_HEADER][1];
    assert out[2] == out[..ANSWER_HEADER][2] && out[3] == out[..ANSWER_HEADER][3];
    EncodeAppend([], r);
    assert [] + [r] == [r];
    return Some(out[..]);
  }

  /** ts_add_return: one more selector behind an existing answer; the 8-bit count is
      incremented without a check.  alloc says whether the answer can be allocated or
      enlarged; if not, an existing answer stays. */
  method TsAddReturn(ptr: Option<seq<byte>>, proto: byte, addr: SockAddr, prefixlen: nat, alloc: bool, ghost ts: seq<Ts>)
    returns (res: Option<seq<byte>>)
    requires addr.Valid()
    requires ptr.Some? ==> IsAnswer(ptr.value, ts)
    ensures addr.family.Unspec? || !alloc ==> res == ptr
    ensures ptr.None? && !addr.family.Unspec? && alloc ==> res.Some? && IsAnswer(res.value, [Response(proto, addr, prefixlen)])
    ensures ptr.Some? && !addr.family.Unspec? && alloc ==> res.Some? && IsAnswer(res.value, ts + [Response(proto, addr, prefixlen)])
  {
    if ptr.None? {
      res := TsMatch(proto, addr, prefixlen, alloc);
      return;
    }
    if addr.family.Unspec? {
      return ptr;
    }
    var buf := new byte[TsSize(FamilyType(addr.family))](_ => 0);
    WriteResponse(buf, 0, proto, addr, prefixlen);
    if !alloc {
      return ptr;
    }
    var b := ptr.value;
    var body := b + buf[..];
    body := body[0 := (body[0] as int + 1) % 256];
    AppendToAnswer(b, body, ts, Response(proto, addr, prefixlen));
    return Some(body);
  }

  lemma AppendToAnswer(b: seq<byte>, b': seq<byte>, ts: seq<Ts>, r: Ts)
    requires IsAnswer(b, ts) && WellSized(r)
    requires b' == (b + EncodeTs(r))[0 := (b[0] as int + 1) % 256]
    ensures IsAnswer(b', ts + [r])
  {
    EncodeAppend(ts, r);
    AllSizedAppend(ts, r);
    BehindHeader(b, EncodeTs(r), b'[0]);
    CountsUp(|ts|);
  }

  lemma BehindHeader(b: seq<byte>, more: seq<byte>, count: byte)
    requires |b| >= ANSWER_HEADER
    ensures (b + more)[0 := count][ANSWER_HEADER..] == b[ANSWER_HEADER..] + more
    ensures (b + more)[0 := count][1..ANSWER_HEADER] == b[1..ANSWER_HEADER]
  {
  }

  lemma CountsUp(n: nat)
    ensures (n % 256 + 1) % 256 == (n + 1) % 256
  {
  }

  // ---------------------------------------------------------------- what narrowing means

  ghost predicate Readable(payload: seq<byte>, answer: seq<byte>) {
    PayloadFits(payload) && |answer| >= ANSWER_HEADER
  }

  /** The wire form of the narrowed list is read back by the peer as that list. */
  lemma NarrowedReadsBack(payload: seq<byte>, answer: seq<byte>, out: seq<byte>)
    requires Readable(payload, answer) && IsAnswer(out, Narrowed(payload, answer))
    ensures ParseAnswer(out) == Narrowed(payload, answer) && out[0] == |Narrowed(payload, answer)|
  {
    AnswerReadsBack(out, Narrowed(payload, answer));
  }

  lemma UnionOfPrefix(ts: seq<Ts>, m: nat, k: Packet)
    requires AllSized(ts) && m <= |ts| && Union(ts[..m], k)
    ensures Union(ts, k)
  {
    var i :| 0 <= i < m && Covers(ts[..m][i], k);
    assert Covers(ts[i], k);
  }

  /** Nothing outside the proposal or outside the configuration is ever agreed to. */
  lemma NarrowedIsSubset(payload: seq<byte>, answer: seq<byte>, k: Packet)
    requires Readable(payload, answer) && Union(Narrowed(payload, answer), k)
    ensures Union(Proposed(payload), k) && Union(ParseAnswer(answer), k)
  {
    var all := Pairs(Proposed(payload), ParseAnswer(answer));
    UnionOfPrefix(all, Min(Capacity(payload, answer), |all|), k);
    PairsMeaning(Proposed(payload), ParseAnswer(answer), k);
  }

  /** Each entry is the intersection of one proposed and one configured selector. */
  lemma NarrowedOrigin(payload: seq<byte>, answer: seq<byte>, i: nat)
    requires Readable(payload, answer) && i < |Narrowed(payload, answer)|
    ensures IsIntersection(Narrowed(payload, answer)[i], Proposed(payload), ParseAnswer(answer))
  {
    PairsOrigin(Proposed(payload), ParseAnswer(answer), i);
  }

  /** The answer holds every pair exactly when there are at most 255. */
  lemma NarrowedIsAllPairs(payload: seq<byte>, answer: seq<byte>)
    requires Readable(payload, answer)
    ensures var all := Pairs(Proposed(payload), ParseAnswer(answer));
      Narrowed(payload, answer) == all <==> |all| <= 255
  {
    var p, q := Proposed(payload), ParseAnswer(answer);
    PairsCount(p, q);
    MulMono(|p|, payload[4], |q|);
    MulMono(|q|, answer[0], payload[4]);
    var all := Pairs(p, q);
    assert all[..|all|] == all;
  }

  /** Then, and so whenever the two counts multiply to at most 255, nothing is lost either. */
  lemma NarrowedIsExact(payload: seq<byte>, answer: seq<byte>, k: Packet)
    requires Readable(payload, answer)
    requires payload[4] as int * answer[0] as int <= 255 || |Pairs(Proposed(payload), ParseAnswer(answer))| <= 255
    ensures Union(Narrowed(payload, answer), k) <==> Union(Proposed(payload), k) && Union(ParseAnswer(answer), k)
  {
    var p, q := Proposed(payload), ParseAnswer(answer);
    PairsCount(p, q);
    MulMono(|p|, payload[4], |q|);
    MulMono(|q|, answer[0], payload[4]);
    NarrowedIsAllPairs(payload, answer);
    PairsMeaning(p, q, k);
  }

  /** No answer at all means exactly that no packet is acceptable to both sides. */
  lemma NoAnswerMeansDisjoint(payload: seq<byte>, answer: seq<byte>)
    requires Readable(payload, answer)
    ensures Narrowed(payload, answer) == [] <==>
            forall k: Packet :: !(Union(Proposed(payload), k) && Union(ParseAnswer(answer), k))
  {
    CapacityReached(payload, answer);
    PairsEmpty(Proposed(payload), ParseAnswer(answer));
  }

  // ---------------------------------------------------------------- accepted proposals

  /** An accepted proposal is never answered with nothing, whichever other selectors the
      answer holds, as long as the response is among those that its 8-bit count reaches. */
  lemma AcceptedIsAnswered(payload: seq<byte>, answer: seq<byte>, ts: seq<Ts>, j: nat,
                           proto: byte, addr: SockAddr, prefixlen: nat)
    requires Readable(payload, answer) && IsAnswer(answer, ts)
    requires Configured(addr, prefixlen) && !addr.family.Unspec?
    requires j < |ts| % 256 && ts[j] == Response(proto, addr, prefixlen)
    requires Ordered(Proposed(payload)) && Accepts(Proposed(payload), proto, addr, prefixlen)
    ensures Narrowed(payload, answer) != []
  {
    AnswerReadsPrefix(answer, ts);
    AcceptanceNarrows(Proposed(payload), proto, addr, prefixlen, ParseAnswer(answer), j);
    CapacityReached(payload, answer);
  }

  /** A specific first selector comes back as the first entry, unchanged. */
  lemma FirstChoiceAnswered(payload: seq<byte>, answer: seq<byte>, ts: seq<Ts>,
                            proto: byte, addr: SockAddr, prefixlen: nat)
    requires Readable(payload, answer) && IsAnswer(answer, ts) && |ts| % 256 > 0
    requires Configured(addr, prefixlen) && !addr.family.Unspec?
    requires ts[0] == Response(proto, addr, prefixlen)
    requires Accepts(Proposed(payload), proto, addr, prefixlen) && IsSpecific(Proposed(payload)[0])
    ensures Narrowed(payload, answer) != [] && Narrowed(payload, answer)[0] == Proposed(payload)[0]
  {
    AnswerReadsPrefix(answer, ts);
    FirstChoiceKept(Proposed(payload), proto, addr, prefixlen, ParseAnswer(answer));
    CapacityReached(payload, answer);
  }
}
