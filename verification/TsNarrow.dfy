/** ikev2_ts_intersect and ikev2_ts_narrow_to_proposal on byte buffers. */
module TsNarrow {

  import opened Arith
  import opened Buffers
  import opened Bytes
  import opened Selectors
  import opened Wrappers
  import opened TsWire

  const MAX_ENTRY: nat := 40   // the largest selector: TS_HEADER + 2 * sizeof(struct in6_addr)
  const MAX_COUNT: nat := 255

  // ---------------------------------------------------------------- one pair, in place

  method WriteAddrs(out: array<byte>, at: nat, start: seq<byte>, end: seq<byte>)
    requires at + TS_HEADER + |start| + |end| <= out.Length
    modifies out
    ensures out[..at + TS_HEADER] == old(out[..at + TS_HEADER])
    ensures out[at + TS_HEADER..at + TS_HEADER + |start| + |end|] == start + end
    ensures out[at + TS_HEADER + |start| + |end|..] == old(out[at + TS_HEADER + |start| + |end|..])
  {
    CopyInto(out, at + TS_HEADER, start);
    CopyInto(out, at + TS_HEADER + |start|, end);
  }

  method WriteHeader(out: array<byte>, at: nat, tsType: byte, proto: byte, sp: nat, ep: nat)
    requires at + TS_HEADER <= out.Length && sp <= PORT_MAX && ep <= PORT_MAX
    modifies out
    ensures out[at..at + TS_HEADER] == EncodeHeader(tsType, proto, sp, ep)
    ensures out[..at] == old(out[..at]) && out[at + TS_HEADER..] == old(out[at + TS_HEADER..])
  {
    var len := TsSize(tsType);
    out[at], out[at + 1] := tsType, proto;
    out[at + 2], out[at + 3] := len / 256, len % 256;
    out[at + 4], out[at + 5] := sp / 256, sp % 256;
    out[at + 6], out[at + 7] := ep / 256, ep % 256;
    assert out[at..at + TS_HEADER] == [tsType, proto, len / 256, len % 256, sp / 256, sp % 256, ep / 256, ep % 256];
  }

  /** Both parts of an encoded selector, written in either order. */
  lemma EncodedParts(out: seq<byte>, at: nat, r: Ts)
    requires WellSized(r) && at + TsSize(r.tsType) <= |out|
    requires out[at..at + TS_HEADER] == EncodeHeader(r.tsType, r.proto, r.startPort, r.endPort)
    requires out[at + TS_HEADER..at + TsSize(r.tsType)] == r.start + r.end
    ensures out[at..at + TsSize(r.tsType)] == EncodeTs(r)
  {
    assert out[at..at + TsSize(r.tsType)] == out[at..at + TS_HEADER] + out[at + TS_HEADER..at + TsSize(r.tsType)];
  }

  /** Type, protocol and port part of the intersection. */
  method CommonFields(p: Ts, q: Ts) returns (ok: bool, proto: byte, sp: nat, ep: nat)
    requires WellSized(p) && WellSized(q)
    ensures ok <==> p.tsType == q.tsType && (p.proto == PROTO_ANY || q.proto == PROTO_ANY || p.proto == q.proto) && sp <= ep
    ensures ok ==> proto == if p.proto == PROTO_ANY then q.proto else p.proto
    ensures sp == Max(p.startPort, q.startPort) && ep == Min(p.endPort, q.endPort)
  {
    sp := if p.startPort > q.startPort then p.startPort else q.startPort;
    ep := if p.endPort < q.endPort then p.endPort else q.endPort;
    proto := 0;
    if p.tsType != q.tsType {
      return false, proto, sp, ep;
    }
    if p.proto == PROTO_ANY {
      proto := q.proto;
    } else if q.proto == PROTO_ANY || q.proto == p.proto {
      proto := p.proto;
    } else {
      return false, proto, sp, ep;
    }
    ok := sp <= ep;
  }

  /** ikev2_ts_intersect: writes the common part of p and q into out[at..], the addresses
      first, and leaves everything before it alone. */
  method IntersectInto(p: Ts, q: Ts, out: array<byte>, at: nat) returns (ok: bool)
    requires WellSized(p) && WellSized(q) && at + TsSize(p.tsType) <= out.Length
    modifies out
    ensures ok <==> Intersect(p, q).Some?
    ensures ok ==> out[at..at + TsSize(p.tsType)] == EncodeTs(Intersect(p, q).value)
    ensures out[..at] == old(out[..at]) && out[at + TsSize(p.tsType)..] == old(out[at + TsSize(p.tsType)..])
  {
    var meet, proto, sp, ep := CommonFields(p, q);
    if !meet {
      return false;
    }
    var os, oe := MaxAddr(p.start, q.start), MinAddr(p.end, q.end);
    ok := Leq(os, oe);
    var r := Ts(p.tsType, proto, sp, ep, os, oe);
    assert Intersect(p, q) == if ok then Some(r) else None;
    WriteEntry(out, at, r, ok);
  }

  /** The writes of an intersection: the header only when the addresses are in order. */
  method WriteEntry(out: array<byte>, at: nat, r: Ts, ok: bool)
    requires WellSized(r) && at + TsSize(r.tsType) <= out.Length
    modifies out
    ensures ok ==> out[at..at + TsSize(r.tsType)] == EncodeTs(r)
    ensures out[..at] == old(out[..at]) && out[at + TsSize(r.tsType)..] == old(out[at + TsSize(r.tsType)..])
  {
    WriteAddrs(out, at, r.start, r.end);
    ghost var addressed := out[..];
    assert out[..at] == out[..at + TS_HEADER][..at];
    if ok {
      WriteHeader(out, at, r.tsType, r.proto, r.startPort, r.endPort);
      assert out[at + TS_HEADER..at + TsSize(r.tsType)] == out[at + TS_HEADER..][..|r.start| + |r.end|];
      EncodedParts(out[..], at, r);
      TailOfTail(out[..], addressed, at + TS_HEADER, at + TsSize(r.tsType));
    }
  }

  lemma TailOfTail(b: seq<byte>, c: seq<byte>, i: nat, j: nat)
    requires |b| == |c| && i <= j <= |b| && b[i..] == c[i..]
    ensures b[j..] == c[j..]
  {
    assert b[j..] == b[i..][j - i..] && c[j..] == c[i..][j - i..];
  }

  // ---------------------------------------------------------------- the output buffer

  /** The buffer holds a zeroed body header and the selectors ts up to offset at. */
  ghost predicate Filled(b: seq<byte>, ts: seq<Ts>, at: nat) {
    && AllSized(ts)
    && ANSWER_HEADER <= at <= |b|
    && at <= ANSWER_HEADER + |ts| * MAX_ENTRY
    && b[..ANSWER_HEADER] == [0, 0, 0, 0]
    && b[ANSWER_HEADER..at] == EncodeAll(ts)
  }

  lemma SlicesJoin(b: seq<byte>, i: nat, j: nat, k: nat)
    requires i <= j <= k <= |b|
    ensures b[i..k] == b[i..j] + b[j..k]
  {
  }

  lemma AllSizedAppend(ts: seq<Ts>, t: Ts)
    requires AllSized(ts) && WellSized(t)
    ensures AllSized(ts + [t])
  {
  }

  lemma FilledStep(b: seq<byte>, b': seq<byte>, ts: seq<Ts>, at: nat, r: Ts)
    requires Filled(b, ts, at) && WellSized(r) && at + TsSize(r.tsType) <= |b'|
    requires b'[..at] == b[..at] && b'[at..at + TsSize(r.tsType)] == EncodeTs(r)
    ensures Filled(b', ts + [r], at + TsSize(r.tsType))
  {
    var next := at + TsSize(r.tsType);
    FilledFrame(b, b', ts, at);
    EncodeAppend(ts, r);
    SlicesJoin(b', ANSWER_HEADER, at, next);
    AllSizedAppend(ts, r);
  }

  lemma FilledFrame(b: seq<byte>, b': seq<byte>, ts: seq<Ts>, at: nat)
    requires Filled(b, ts, at) && at <= |b'| && b'[..at] == b[..at]
    ensures Filled(b', ts, at)
  {
    assert b'[..ANSWER_HEADER] == b'[..at][..ANSWER_HEADER] == b[..ANSWER_HEADER];
    assert b'[ANSWER_HEADER..at] == b'[..at][ANSWER_HEADER..] == b[ANSWER_HEADER..at];
  }

  lemma RowStep(p: Ts, used: seq<Ts>, q: Ts)
    requires WellSized(p) && AllSized(used) && WellSized(q)
    ensures Row(p, used + [q]) == Row(p, used) + OneOrNone(Intersect(p, q))
  {
    assert (used + [q])[..|used|] == used;
  }

  /** Appends the intersection of p and q when there is one. */
  method AppendPair(p: Ts, q: Ts, out: array<byte>, at0: nat, n0: nat, ghost ts: seq<Ts>) returns (at: nat, n: nat)
    requires WellSized(p) && WellSized(q) && Filled(out[..], ts, at0) && n0 == |ts|
    requires out.Length >= ANSWER_HEADER + (n0 + 1) * MAX_ENTRY
    modifies out
    ensures Filled(out[..], ts + OneOrNone(Intersect(p, q)), at) && n == n0 + |OneOrNone(Intersect(p, q))|
  {
    ghost var before := out[..];
    at, n := at0, n0;
    var ok := IntersectInto(p, q, out, at);
    assert before[..at0] == out[..][..at0];
    if ok {
      ghost var r := Intersect(p, q).value;
      FilledStep(before, out[..], ts, at0, r);
      at, n := at + TsSize(p.tsType), n + 1;
    } else {
      FilledFrame(before, out[..], ts, at0);
      assert ts + [] == ts;
    }
  }

  // ---------------------------------------------------------------- the two nested walks

  lemma {:induction false} RowPrefix(p: Ts, q: seq<Ts>, m: nat)
    requires WellSized(p) && AllSized(q) && m <= |q|
    ensures Row(p, q[..m]) <= Row(p, q)
  {
    if m < |q| {
      RowPrefix(p, q[..|q| - 1], m);
      assert q[..|q| - 1][..m] == q[..m];
    } else {
      assert q[..m] == q;
    }
  }

  lemma {:induction false} PairsPrefix(p: seq<Ts>, q: seq<Ts>, m: nat)
    requires AllSized(p) && AllSized(q) && m <= |p|
    ensures Pairs(p[..m], q) <= Pairs(p, q)
  {
    if m < |p| {
      PairsPrefix(p[..|p| - 1], q, m);
      assert p[..|p| - 1][..m] == p[..m];
    } else {
      assert p[..m] == p;
    }
  }

  lemma PairsStep(p: seq<Ts>, q: seq<Ts>, t: Ts)
    requires AllSized(p) && AllSized(q) && WellSized(t)
    ensures Pairs(p + [t], q) == Pairs(p, q) + Row(t, q)
  {
    assert (p + [t])[..|p|] == p;
  }

  /** Where the walk over the answer stands: used lies behind it, rest ahead. */
  ghost predicate AnswerAt(answer: seq<byte>, qp: nat, left: nat, used: seq<Ts>, rest: seq<Ts>)
    requires |answer| >= ANSWER_HEADER
  {
    AllSized(used) && used + rest == ParseAnswer(answer) && rest == AnswerWalk(answer, qp, left)
  }

  lemma AnswerStart(answer: seq<byte>)
    requires |answer| >= ANSWER_HEADER
    ensures AnswerAt(answer, ANSWER_HEADER, answer[0], [], ParseAnswer(answer))
  {
  }

  lemma AnswerEnd(answer: seq<byte>, qp: nat, left: nat, used: seq<Ts>, rest: seq<Ts>)
    requires |answer| >= ANSWER_HEADER && AnswerAt(answer, qp, left, used, rest)
    ensures AllSized(used) && used <= ParseAnswer(answer)
    ensures left == 0 || !AnswerStep(answer, qp) ==> used == ParseAnswer(answer)
  {
    if left == 0 || !AnswerStep(answer, qp) {
      assert used + [] == used;
    }
  }

  method NextAnswer(answer: seq<byte>, qp: nat, left: nat, ghost used: seq<Ts>, ghost rest: seq<Ts>)
    returns (qp': nat, left': nat, ghost used': seq<Ts>, ghost rest': seq<Ts>)
    requires |answer| >= ANSWER_HEADER && left > 0 && AnswerStep(answer, qp) && AnswerAt(answer, qp, left, used, rest)
    ensures used' == used + UsableAt(answer, qp) && left' == left - 1
    ensures AnswerAt(answer, qp', left', used', rest')
  {
    qp', left' := qp + Length(answer, qp), left - 1;
    used', rest' := used + UsableAt(answer, qp), AnswerWalk(answer, qp', left');
    assert used' + rest' == used + rest;
  }

  /** Passing a selector p cannot meet adds nothing; one of p's type adds their intersection. */
  lemma RowSkipsOrMeets(p: Ts, used: seq<Ts>, b: seq<byte>, off: nat)
    requires WellSized(p) && AllSized(used) && AnswerStep(b, off)
    ensures if b[off] == p.tsType && Length(b, off) >= TsSize(p.tsType)
            then TsFits(b, off) && Row(p, used + UsableAt(b, off)) == Row(p, used) + OneOrNone(Intersect(p, TsAt(b, off)))
            else Row(p, used + UsableAt(b, off)) == Row(p, used)
  {
    if Usable(b, off) {
      RowStep(p, used, TsAt(b, off));
      assert UsableAt(b, off) == [TsAt(b, off)];
    } else {
      assert used + UsableAt(b, off) == used;
    }
  }

  ghost predicate RowSoFar(p: Ts, ts: seq<Ts>, used: seq<Ts>, cur: seq<Ts>)
    requires WellSized(p)
  {
    AllSized(used) && cur == ts + Row(p, used)
  }

  lemma Rebracket(a: seq<Ts>, b: seq<Ts>, c: seq<Ts>)
    ensures a + b + c == a + (b + c)
  {
  }

  /** The body of the inner loop: the selector at qp, used' the selectors passed after it. */
  method NarrowStep(p: Ts, answer: seq<byte>, qp: nat, out: array<byte>, at0: nat, n0: nat, cap: nat,
                    ghost ts: seq<Ts>, ghost used: seq<Ts>, ghost used': seq<Ts>, ghost cur: seq<Ts>)
    returns (at: nat, n: nat, ghost cur': seq<Ts>)
    requires WellSized(p) && AnswerStep(answer, qp) && RowSoFar(p, ts, used, cur) && used' == used + UsableAt(answer, qp)
    requires Filled(out[..], cur, at0) && n0 == |cur| < cap && out.Length == ANSWER_HEADER + cap * MAX_ENTRY
    modifies out
    ensures RowSoFar(p, ts, used', cur')
    ensures Filled(out[..], cur', at) && n == |cur'| <= cap
  {
    RowSkipsOrMeets(p, used, answer, qp);
    if answer[qp] == p.tsType && Length(answer, qp) >= TsSize(p.tsType) {
      var q := TsAt(answer, qp);
      RoomForOne(n0, cap);
      at, n := AppendPair(p, q, out, at0, n0, cur);
      cur' := cur + OneOrNone(Intersect(p, q));
      Rebracket(ts, Row(p, used), OneOrNone(Intersect(p, q)));
    } else {
      at, n, cur' := at0, n0, cur;
    }
  }

  /** The inner loop: p against the answer, until the answer or the room runs out. */
  method NarrowRow(p: Ts, answer: seq<byte>, out: array<byte>, at0: nat, n0: nat, cap: nat, ghost ts: seq<Ts>)
    returns (at: nat, n: nat, ghost used: seq<Ts>, ghost cur: seq<Ts>)
    requires WellSized(p) && |answer| >= ANSWER_HEADER
    requires Filled(out[..], ts, at0) && n0 == |ts| <= cap && out.Length == ANSWER_HEADER + cap * MAX_ENTRY
    modifies out
    ensures used <= ParseAnswer(answer) && RowSoFar(p, ts, used, cur)
    ensures Filled(out[..], cur, at) && n == |cur| <= cap
    ensures n < cap ==> used == ParseAnswer(answer)
  {
    var left: nat, qp: nat := answer[0], ANSWER_HEADER;
    ghost var rest := ParseAnswer(answer);
    AnswerStart(answer);
    at, n, used, cur := at0, n0, [], ts;
    while left > 0 && n < cap
      invariant AnswerAt(answer, qp, left, used, rest)
      invariant RowSoFar(p, ts, used, cur)
      invariant Filled(out[..], cur, at) && n == |cur| <= cap
    {
      if !AnswerStep(answer, qp) {
        break;
      }
      ghost var before := used;
      var here := qp;
      qp, left, used, rest := NextAnswer(answer, qp, left, used, rest);
      at, n, cur := NarrowStep(p, answer, here, out, at, n, cap, ts, before, used, cur);
    }
    AnswerEnd(answer, qp, left, used, rest);
  }

  lemma RoomForOne(n: nat, cap: nat)
    requires n < cap
    ensures (n + 1) * MAX_ENTRY <= cap * MAX_ENTRY
  {
  }

  /** What the narrowing reads: the selectors of the proposal and of the answer. */
  function Proposed(payload: seq<byte>): (ts: seq<Ts>)
    requires PayloadFits(payload)
    ensures AllSized(ts) && |ts| <= payload[4]
  {
    ProposalWalk(payload[..U16(payload, 2)], PAYLOAD_HEADER, payload[4])
  }

  /** The length field of the payload header covers the TS header and lies in memory. */
  predicate PayloadFits(payload: seq<byte>) {
    |payload| >= 4 && PAYLOAD_HEADER <= U16(payload, 2) <= |payload|
  }

  function Capacity(payload: seq<byte>, answer: seq<byte>): (cap: nat)
    requires PayloadFits(payload) && |answer| >= ANSWER_HEADER
    ensures cap <= MAX_COUNT
  {
    Min(payload[4] as int * answer[0] as int, MAX_COUNT)
  }

  /** The narrowed selectors: the pairs in order, as far as the count field reaches. */
  function Narrowed(payload: seq<byte>, answer: seq<byte>): (ts: seq<Ts>)
    requires PayloadFits(payload) && |answer| >= ANSWER_HEADER
    ensures AllSized(ts)
  {
    var all := Pairs(Proposed(payload), ParseAnswer(answer));
    all[..Min(Capacity(payload, answer), |all|)]
  }

  lemma OuterStep(p: seq<Ts>, q: seq<Ts>, done: seq<Ts>, t: Ts, used: seq<Ts>)
    requires AllSized(p) && AllSized(q) && AllSized(used) && WellSized(t)
    requires done + [t] <= p && AllSized(done) && used <= q
    ensures Pairs(done, q) + Row(t, used) <= Pairs(p, q)
    ensures used == q ==> Pairs(done, q) + Row(t, used) == Pairs(done + [t], q)
  {
    var n := |done| + 1;
    PairsStep(done, q, t);
    assert p[..n] == done + [t];
    PairsPrefix(p, q, n);
    assert q[..|used|] == used;
    RowPrefix(t, q, |used|);
    PrefixOf(Pairs(done, q), Row(t, used), Row(t, q), Pairs(p, q));
  }

  lemma PrefixOf(a: seq<Ts>, b: seq<Ts>, c: seq<Ts>, all: seq<Ts>)
    requires b <= c && a + c <= all
    ensures a + b <= all
  {
  }

  /** Where the walk over the proposal p stands. */
  ghost predicate ProposalAt(b: seq<byte>, p: seq<Ts>, pp: nat, left: nat, done: seq<Ts>, rest: seq<Ts>) {
    AllSized(done) && done + rest == p && rest == ProposalWalk(b, pp, left)
  }

  method NextProposed(b: seq<byte>, ghost p: seq<Ts>, pp: nat, left: nat, ghost done: seq<Ts>, ghost rest: seq<Ts>)
    returns (pp': nat, left': nat, ghost done': seq<Ts>, ghost rest': seq<Ts>)
    requires left > 0 && ProposalStep(b, pp) && ProposalAt(b, p, pp, left, done, rest)
    ensures done' == done + [TsAt(b, pp)] && done' <= p && AllSized(done) && left' == left - 1
    ensures ProposalAt(b, p, pp', left', done', rest')
  {
    pp', left' := pp + Length(b, pp), left - 1;
    done', rest' := done + [TsAt(b, pp)], ProposalWalk(b, pp', left');
    assert done' + rest' == done + rest;
  }

  lemma ProposalEnd(b: seq<byte>, p: seq<Ts>, pp: nat, left: nat, done: seq<Ts>, rest: seq<Ts>)
    requires ProposalAt(b, p, pp, left, done, rest) && (left == 0 || !ProposalStep(b, pp))
    ensures done == p
  {
    assert done + [] == done;
  }

  /** ikev2_ts_narrow_to_proposal; alloc says whether rc_vmalloc succeeds. */
  method NarrowToProposal(proposed: Option<seq<byte>>, selresp: Option<seq<byte>>, alloc: bool)
    returns (out: Option<seq<byte>>, nomem: bool)
    requires proposed.Some? ==> |proposed.value| >= 4 && U16(proposed.value, 2) <= |proposed.value|
    ensures var readable := proposed.Some? && selresp.Some? && |selresp.value| >= ANSWER_HEADER && PayloadFits(proposed.value);
            && (nomem <==> readable && !alloc)
            && (out.Some? <==> readable && alloc && Narrowed(proposed.value, selresp.value) != [])
            && (out.Some? ==> IsAnswer(out.value, Narrowed(proposed.value, selresp.value)))
  {
    nomem := false;
    if proposed.None? || selresp.None? || |selresp.value| < ANSWER_HEADER {
      return None, false;
    }
    var payload, answer := proposed.value, selresp.value;
    if U16(payload, 2) < PAYLOAD_HEADER {
      return None, false;
    }
    if !alloc {
      return None, true;
    }
    out := NarrowBuffers(payload, answer);
  }

  method NarrowBuffers(payload: seq<byte>, answer: seq<byte>) returns (res: Option<seq<byte>>)
    requires PayloadFits(payload) && |answer| >= ANSWER_HEADER
    ensures res.Some? <==> Narrowed(payload, answer) != []
    ensures res.Some? ==> IsAnswer(res.value, Narrowed(payload, answer))
  {
    var cap := Capacity(payload, answer);
    var out := new byte[ANSWER_HEADER + cap * MAX_ENTRY](_ => 0);
    assert out[..ANSWER_HEADER] == [0, 0, 0, 0] && out[ANSWER_HEADER..ANSWER_HEADER] == [];
    var at, n, written := NarrowRows(payload[..U16(payload, 2)], payload[4], answer, out, cap);
    if n == 0 {
      CapacityReached(payload, answer);
      return None;
    }
    assert written == Narrowed(payload, answer);
    ghost var before := out[..];
    out[0] := n;
    SetCount(before, out[..], written, at);
    return Some(out[..at]);
  }

  lemma NoPairs(p: seq<Ts>, q: seq<Ts>)
    requires AllSized(p) && AllSized(q) && (p == [] || q == [])
    ensures Pairs(p, q) == []
  {
    PairsCount(p, q);
  }

  /** Room for no entry at all means there is no pair. */
  lemma CapacityReached(payload: seq<byte>, answer: seq<byte>)
    requires PayloadFits(payload) && |answer| >= ANSWER_HEADER
    ensures Capacity(payload, answer) == 0 ==> Pairs(Proposed(payload), ParseAnswer(answer)) == []
  {
    if payload[4] == 0 || answer[0] == 0 {
      NoPairs(Proposed(payload), ParseAnswer(answer));
    } else {
      MulMono(1, payload[4], answer[0]);
    }
  }

  lemma SetCount(b: seq<byte>, b': seq<byte>, ts: seq<Ts>, at: nat)
    requires Filled(b, ts, at) && |ts| <= MAX_COUNT && b' == b[0 := |ts|]
    ensures IsAnswer(b'[..at], ts)
  {
    assert b'[..at][ANSWER_HEADER..] == b[ANSWER_HEADER..at];
    assert b[..ANSWER_HEADER][1] == b[1] && b[..ANSWER_HEADER][2] == b[2] && b[..ANSWER_HEADER][3] == b[3];
  }

  /** The outer loop over the selectors of the proposal b. */
  method NarrowRows(b: seq<byte>, num: nat, answer: seq<byte>, out: array<byte>, cap: nat)
    returns (at: nat, n: nat, ghost written: seq<Ts>)
    requires |answer| >= ANSWER_HEADER && out.Length == ANSWER_HEADER + cap * MAX_ENTRY
    requires Filled(out[..], [], ANSWER_HEADER)
    modifies out
    ensures Filled(out[..], written, at) && n == |written| <= cap
    ensures var all := Pairs(ProposalWalk(b, PAYLOAD_HEADER, num), ParseAnswer(answer));
            written <= all && (n < cap ==> written == all)
  {
    ghost var p, q := ProposalWalk(b, PAYLOAD_HEADER, num), ParseAnswer(answer);
    ghost var done: seq<Ts>, rest := [], p;
    var left: nat, pp: nat := num, PAYLOAD_HEADER;
    at, n, written := ANSWER_HEADER, 0, [];
    while left > 0 && n < cap
      invariant ProposalAt(b, p, pp, left, done, rest)
      invariant Filled(out[..], written, at) && n == |written| <= cap
      invariant written <= Pairs(p, q)
      invariant n < cap ==> written == Pairs(done, q)
    {
      if !ProposalStep(b, pp) {
        break;
      }
      var t := TsAt(b, pp);
      ghost var before, used := done, q;
      pp, left, done, rest := NextProposed(b, p, pp, left, done, rest);
      at, n, used, written := NarrowRow(t, answer, out, at, n, cap, written);
      OuterStep(p, q, before, t, used);
    }
    if n < cap {
      ProposalEnd(b, p, pp, left, done, rest);
    }
  }
}
