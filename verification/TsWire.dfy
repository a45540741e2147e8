/** Traffic selectors in packed buffers: the walks over a proposal and over the
    configured answer, and the encoding that both writers use. */
module TsWire {

  import opened BigEndian
  import opened Bytes
  import opened Selectors
  import opened Wrappers

  const TS_HEADER: nat := 8          // sizeof(struct ikev2_traffic_selector)
  const ANSWER_HEADER: nat := 4      // sizeof(struct ikev2payl_ts_h)
  const PAYLOAD_HEADER: nat := 8     // sizeof(struct ikev2payl_traffic_selector)

  function TsSize(tsType: byte): nat {
    TS_HEADER + 2 * AddrSize(tsType)
  }

  /** A selector with a known type and room for its two addresses starts at off. */
  predicate TsFits(b: seq<byte>, off: nat) {
    && off + TS_HEADER <= |b|
    && AddrSize(b[off]) > 0
    && off + TsSize(b[off]) <= |b|
  }

  function TsAt(b: seq<byte>, off: nat): (t: Ts)
    requires TsFits(b, off)
    ensures WellSized(t)
  {
    var s := AddrSize(b[off]);
    var a := off + TS_HEADER;
    Ts(b[off], b[off + 1], U16(b, off + 4), U16(b, off + 6), b[a..a + s], b[a + s..a + 2 * s])
  }

  function Length(b: seq<byte>, off: nat): (l: nat)
    requires off + TS_HEADER <= |b|
    ensures l < 0x1_0000
  {
    U16(b, off + 2)
  }

  // ---------------------------------------------------------------- walks

  /** The walk over a proposal goes on at off: a known type, a length that holds both
      addresses, nothing past the end. */
  predicate ProposalStep(b: seq<byte>, off: nat) {
    TsFits(b, off) && TsSize(b[off]) <= Length(b, off) && off + Length(b, off) <= |b|
  }

  function ProposalWalk(b: seq<byte>, off: nat, num: nat): (ts: seq<Ts>)
    ensures AllSized(ts) && |ts| <= num
    decreases num
  {
    if num == 0 || !ProposalStep(b, off) then []
    else [TsAt(b, off)] + ProposalWalk(b, off + Length(b, off), num - 1)
  }

  /** The walk over the configured answer only needs a sane length; a selector it cannot
      use is passed over. */
  predicate AnswerStep(b: seq<byte>, off: nat) {
    && off + TS_HEADER <= |b|
    && TS_HEADER <= Length(b, off) && off + Length(b, off) <= |b|
  }

  predicate Usable(b: seq<byte>, off: nat)
    requires AnswerStep(b, off)
  {
    AddrSize(b[off]) > 0 && TsSize(b[off]) <= Length(b, off)
  }

  function UsableAt(b: seq<byte>, off: nat): (ts: seq<Ts>)
    requires AnswerStep(b, off)
    ensures AllSized(ts) && |ts| <= 1
  {
    if Usable(b, off) then [TsAt(b, off)] else []
  }

  function AnswerWalk(b: seq<byte>, off: nat, num: nat): (ts: seq<Ts>)
    ensures AllSized(ts) && |ts| <= num
    decreases num
  {
    if num == 0 || !AnswerStep(b, off) then []
    else UsableAt(b, off) + AnswerWalk(b, off + Length(b, off), num - 1)
  }

  lemma WalkStep(b: seq<byte>, off: nat, next: nat, left: nat)
    requires ProposalStep(b, off) && next == off + Length(b, off)
    ensures ProposalWalk(b, off, left + 1) == [TsAt(b, off)] + ProposalWalk(b, next, left)
  {
  }

  lemma AnswerWalkStep(b: seq<byte>, off: nat, next: nat, left: nat)
    requires AnswerStep(b, off) && Usable(b, off) && next == off + Length(b, off)
    ensures AnswerWalk(b, off, left + 1) == [TsAt(b, off)] + AnswerWalk(b, next, left)
  {
  }

  // ---------------------------------------------------------------- encoding

  function EncodeHeader(tsType: byte, proto: byte, sp: nat, ep: nat): (h: seq<byte>)
    requires sp <= PORT_MAX && ep <= PORT_MAX
    ensures |h| == TS_HEADER
  {
    [tsType, proto] + PutU16(TsSize(tsType)) + PutU16(sp) + PutU16(ep)
  }

  function EncodeTs(t: Ts): (e: seq<byte>)
    requires WellSized(t)
    ensures |e| == TsSize(t.tsType)
  {
    EncodeHeader(t.tsType, t.proto, t.startPort, t.endPort) + t.start + t.end
  }

  function EncodeAll(ts: seq<Ts>): seq<byte>
    requires AllSized(ts)
  {
    if ts == [] then [] else EncodeTs(ts[0]) + EncodeAll(ts[1..])
  }

  lemma {:induction false} EncodeAppend(ts: seq<Ts>, t: Ts)
    requires AllSized(ts) && WellSized(t)
    ensures EncodeAll(ts + [t]) == EncodeAll(ts) + EncodeTs(t)
  {
    if ts == [] {
      assert [t][1..] == [];
      assert EncodeAll([t]) == EncodeTs(t) + EncodeAll([]);
    } else {
      EncodeAppend(ts[1..], t);
      assert (ts + [t])[1..] == ts[1..] + [t];
      assert EncodeTs(ts[0]) + (EncodeAll(ts[1..]) + EncodeTs(t)) == EncodeTs(ts[0]) + EncodeAll(ts[1..]) + EncodeTs(t);
    }
  }

  lemma SameU16(a: seq<byte>, i: nat, b: seq<byte>, j: nat)
    requires i + 2 <= |a| && j + 2 <= |b| && a[i] == b[j] && a[i + 1] == b[j + 1]
    ensures U16(a, i) == U16(b, j)
  {
  }

  lemma SubSlice(b: seq<byte>, off: nat, e: seq<byte>, i: nat, j: nat)
    requires off + |e| <= |b| && b[off..off + |e|] == e && i <= j <= |e|
    ensures b[off + i..off + j] == e[i..j]
  {
    forall k | 0 <= k < j - i
      ensures b[off + i..off + j][k] == e[i..j][k]
    {
      assert b[off..off + |e|][i + k] == e[i + k];
    }
  }

  /** The selector of section 3.13.1 of RFC 7296: type, protocol, its own length and the two
      ports as big-endian numbers, then the two addresses. */
  lemma EncodedLayout(t: Ts)
    requires WellSized(t)
    ensures var e, s := EncodeTs(t), |t.start|;
            && |e| == 8 + 2 * s && e[0] == t.tsType && e[1] == t.proto
            && Value(e[2..4]) == |e| && Value(e[4..6]) == t.startPort && Value(e[6..8]) == t.endPort
            && e[8..8 + s] == t.start && e[8 + s..] == t.end
  {
    var e, h, s := EncodeTs(t), EncodeHeader(t.tsType, t.proto, t.startPort, t.endPort), |t.start|;
    assert e == h + (t.start + t.end);
    assert e[8..8 + s] == t.start;
    assert e[8 + s..] == t.end;
    assert e[..8] == h;
    U16IsNumber(e, 2);
    U16IsNumber(e, 4);
    U16IsNumber(e, 6);
  }

  /** An encoded selector reads back wherever it lies. */
  lemma DecodeEncoded(b: seq<byte>, off: nat, t: Ts)
    requires WellSized(t) && off + TsSize(t.tsType) <= |b|
    requires b[off..off + TsSize(t.tsType)] == EncodeTs(t)
    ensures TsFits(b, off) && TsAt(b, off) == t && Length(b, off) == TsSize(t.tsType)
  {
    var e, s := EncodeTs(t), AddrSize(t.tsType);
    EncodedLayout(t);
    U16IsNumber(e, 2);
    U16IsNumber(e, 4);
    U16IsNumber(e, 6);
    assert forall i | 0 <= i < |e| :: b[off..off + |e|][i] == e[i];
    assert forall i | 0 <= i < TS_HEADER :: b[off + i] == e[i];
    SameU16(b, off + 2, e, 2);
    SameU16(b, off + 4, e, 4);
    SameU16(b, off + 6, e, 6);
    SubSlice(b, off, e, TS_HEADER, TS_HEADER + s);
    SubSlice(b, off, e, TS_HEADER + s, TS_HEADER + 2 * s);
  }

  /** The first of the selectors encoded from off on, and where the others begin. */
  lemma EncodedFirst(b: seq<byte>, off: nat, ts: seq<Ts>, next: nat)
    requires AllSized(ts) && ts != [] && off <= |b| && b[off..] == EncodeAll(ts) && next == off + TsSize(ts[0].tsType)
    ensures next <= |b| && TsFits(b, off) && TsAt(b, off) == ts[0] && off + Length(b, off) == next
    ensures b[next..] == EncodeAll(ts[1..])
  {
    var size := TsSize(ts[0].tsType);
    assert b[off..][..size] == EncodeTs(ts[0]);
    assert b[off..next] == b[off..][..size];
    DecodeEncoded(b, off, ts[0]);
    assert b[next..] == b[off..][size..];
  }

  lemma TakeFirst(ts: seq<Ts>, left: nat)
    requires left < |ts|
    ensures ts[..left + 1] == [ts[0]] + ts[1..][..left]
  {
  }

  /** A buffer that holds encoded selectors from off on reads back as those selectors,
      as far as the count goes. */
  lemma {:induction false} WalkEncoded(b: seq<byte>, off: nat, ts: seq<Ts>, num: nat)
    requires AllSized(ts) && off <= |b| && b[off..] == EncodeAll(ts) && num <= |ts|
    ensures AnswerWalk(b, off, num) == ts[..num]
    decreases num
  {
    if num > 0 {
      var next, left := off + TsSize(ts[0].tsType), num - 1;
      EncodedFirst(b, off, ts, next);
      WalkEncoded(b, next, ts[1..], left);
      AnswerWalkStep(b, off, next, left);
      TakeFirst(ts, left);
    }
  }

  // ---------------------------------------------------------------- answer buffers

  /** A TS payload body: the 8-bit count, three reserved octets, the selectors. */
  ghost predicate IsAnswer(b: seq<byte>, ts: seq<Ts>) {
    && AllSized(ts)
    && |b| >= ANSWER_HEADER
    && b[0] == |ts| % 256 && b[1] == b[2] == b[3] == 0
    && b[ANSWER_HEADER..] == EncodeAll(ts)
  }

  function ParseAnswer(b: seq<byte>): (ts: seq<Ts>)
    requires |b| >= ANSWER_HEADER
    ensures AllSized(ts)
  {
    AnswerWalk(b, ANSWER_HEADER, b[0])
  }

  lemma AnswerReadsPrefix(b: seq<byte>, ts: seq<Ts>)
    requires IsAnswer(b, ts)
    ensures ParseAnswer(b) == ts[..|ts| % 256]
  {
    WalkEncoded(b, ANSWER_HEADER, ts, |ts| % 256);
  }

  /** A body reads back as its selectors exactly when the 8-bit count did not wrap. */
  lemma AnswerReadsBack(b: seq<byte>, ts: seq<Ts>)
    requires IsAnswer(b, ts)
    ensures ParseAnswer(b) == ts <==> |ts| <= 255
  {
    AnswerReadsPrefix(b, ts);
    var read := ParseAnswer(b);
    assert |read| == |ts| % 256;
    if |ts| <= 255 {
      assert ts[..|ts|] == ts;
    }
  }
}
