/** NAT traversal in transport mode (section 2.23.1 of RFC 7296): every selector of a TS
    payload that names the IKE SA's own address family is rewritten in place to the single
    address of the IKE endpoint. */
module TsNat {

  import opened Buffers
  import opened Bytes
  import opened Selectors
  import opened Wrappers
  import opened TsWire
  import opened TsNarrow

  /** The IKE endpoint: the selector type of its address family (0 when there is none), its
      address and, for IPv6, its scope identifier. */
  datatype Endpoint = Endpoint(tsType: byte, addr: seq<byte>, scope: nat)

  predicate IsEndpoint(e: Endpoint) {
    |e.addr| == AddrSize(e.tsType)
  }

  /** rcs_cmpsa_wop against an address taken from a selector, which has no scope. */
  predicate Names(addr: seq<byte>, e: Endpoint) {
    addr == e.addr && (e.tsType == TS_IPV6 ==> e.scope == 0)
  }

  predicate Contains(t: Ts, e: Endpoint)
    requires WellSized(t) && IsEndpoint(e)
  {
    t.tsType == e.tsType && Leq(t.start, e.addr) && Leq(e.addr, t.end)
  }

  /** ikev2_ts_substitute_ex: None is the refusal. */
  function Substitute(t: Ts, e: Endpoint, allowRange: bool): (r: Option<Ts>)
    requires WellSized(t) && IsEndpoint(e)
    ensures r.Some? ==> WellSized(r.value)
  {
    if t.tsType != e.tsType then Some(t)
    else if Names(t.start, e) && (!allowRange || Names(t.end, e)) then Some(t)
    else if t.start != t.end && !(allowRange && Contains(t, e)) then None
    else Some(t.(start := e.addr, end := e.addr))
  }

  /** The initiator's setting: refused exactly when the selector is a range of the endpoint's
      family that does not contain the endpoint; otherwise it becomes the single address. */
  lemma InitiatorSubstitutes(t: Ts, e: Endpoint)
    requires WellSized(t) && IsEndpoint(e)
    ensures var r := Substitute(t, e, true);
      if t.tsType != e.tsType then r == Some(t)
      else if t.start == t.end || Contains(t, e) then r == Some(t.(start := e.addr, end := e.addr))
      else r == None
  {
    if t.tsType == e.tsType && t.start == t.end == e.addr {
      LeqReflexive(e.addr);
    }
  }

  /** The responder's setting: refused exactly when the selector is a range, except that a
      range that starts at the endpoint passes and stays a range. */
  lemma ResponderSubstitutes(t: Ts, e: Endpoint)
    requires WellSized(t) && IsEndpoint(e)
    ensures var r := Substitute(t, e, false);
      if t.tsType != e.tsType then r == Some(t)
      else if t.start == t.end then r == Some(t.(start := e.addr, end := e.addr))
      else if t.start == e.addr && (e.tsType == 8 ==> e.scope == 0) then r == Some(t)
      else r == None
  {
  }

  /** A selector contains the endpoint exactly if, with its ports opened, it covers a packet to
      the endpoint. */
  lemma ContainsMeaning(t: Ts, e: Endpoint)
    requires WellSized(t) && IsEndpoint(e)
    ensures Contains(t, e) <==>
      exists k: Packet :: Covers(t.(startPort := 0, endPort := 65535), k) && k.tsType == e.tsType && k.addr == e.addr
  {
    if Contains(t, e) {
      var k := Packet(t.tsType, t.proto, 0, e.addr);
      assert Covers(t.(startPort := 0, endPort := 65535), k);
    }
  }

  lemma SubstituteTwice(t: Ts, e: Endpoint, allowRange: bool)
    requires WellSized(t) && IsEndpoint(e) && Substitute(t, e, allowRange).Some?
    ensures Substitute(Substitute(t, e, allowRange).value, e, allowRange) == Substitute(t, e, allowRange)
  {
  }

  function SubstituteAll(ts: seq<Ts>, e: Endpoint, allowRange: bool): (r: seq<Ts>)
    requires AllSized(ts) && IsEndpoint(e) && AllAccepted(ts, e, allowRange)
    ensures |r| == |ts| && AllSized(r)
    ensures forall i | 0 <= i < |ts| :: r[i] == Substitute(ts[i], e, allowRange).value
  {
    if ts == [] then [] else [Substitute(ts[0], e, allowRange).value] + SubstituteAll(ts[1..], e, allowRange)
  }

  predicate AllAccepted(ts: seq<Ts>, e: Endpoint, allowRange: bool)
    requires AllSized(ts) && IsEndpoint(e)
  {
    forall i | 0 <= i < |ts| :: Substitute(ts[i], e, allowRange).Some?
  }

  // ---------------------------------------------------------------- on bytes

  /** Both addresses of the selector at off replaced. */
  function Put(b: seq<byte>, off: nat, addr: seq<byte>): (r: seq<byte>)
    requires off + TS_HEADER + 2 * |addr| <= |b|
    ensures |r| == |b|
  {
    b[..off + TS_HEADER] + (addr + addr) + b[off + TS_HEADER + 2 * |addr|..]
  }

  /** The walk goes on past off: a selector is there and it is not refused. */
  predicate Passes(b: seq<byte>, off: nat, e: Endpoint, allowRange: bool)
    requires IsEndpoint(e)
  {
    ProposalStep(b, off) && Substitute(TsAt(b, off), e, allowRange).Some?
  }

  /** The buffer after the walk has dealt with the selector at off. */
  function PutAt(b: seq<byte>, off: nat, e: Endpoint, allowRange: bool): (r: seq<byte>)
    requires IsEndpoint(e) && Passes(b, off, e, allowRange)
    ensures |r| == |b|
  {
    var t := TsAt(b, off);
    if Substitute(t, e, allowRange) == Some(t) then b else Put(b, off, e.addr)
  }

  /** The buffer after the whole walk, up to the first selector that is refused. */
  function Rewritten(b: seq<byte>, off: nat, num: nat, e: Endpoint, allowRange: bool): (r: seq<byte>)
    requires IsEndpoint(e)
    ensures |r| == |b|
    decreases num
  {
    if num == 0 || !Passes(b, off, e, allowRange) then b
    else Rewritten(PutAt(b, off, e, allowRange), off + Length(b, off), num - 1, e, allowRange)
  }

  predicate AllPass(b: seq<byte>, off: nat, num: nat, e: Endpoint, allowRange: bool)
    requires IsEndpoint(e)
    decreases num
  {
    num == 0 || (Passes(b, off, e, allowRange) && AllPass(b, off + Length(b, off), num - 1, e, allowRange))
  }

  lemma PutLayout(b: seq<byte>, off: nat, addr: seq<byte>)
    requires off + TS_HEADER + 2 * |addr| <= |b|
    ensures var c, a, s := Put(b, off, addr), off + TS_HEADER, |addr|;
      && (forall i | 0 <= i < a :: c[i] == b[i])
      && c[a..a + s] == addr && c[a + s..a + 2 * s] == addr
      && (forall i | a + 2 * s <= i < |b| :: c[i] == b[i])
  {
    var c, a, s := Put(b, off, addr), off + TS_HEADER, |addr|;
    assert c[a..a + 2 * s] == addr + addr;
    assert c[a..a + s] == (addr + addr)[..s] == addr;
    assert c[a + s..a + 2 * s] == (addr + addr)[s..] == addr;
  }

  /** The header of a selector is all that the walk and its own fields need. */
  lemma SameHeader(b: seq<byte>, c: seq<byte>, off: nat)
    requires |b| == |c| && ProposalStep(b, off)
    requires forall i | off <= i < off + TS_HEADER :: c[i] == b[i]
    ensures ProposalStep(c, off) && Length(c, off) == Length(b, off)
    ensures TsAt(c, off).(start := TsAt(b, off).start, end := TsAt(b, off).end) == TsAt(b, off)
  {
    SameU16(b, off + 2, c, off + 2);
    SameU16(b, off + 4, c, off + 4);
    SameU16(b, off + 6, c, off + 6);
  }

  lemma PutReads(b: seq<byte>, off: nat, e: Endpoint, allowRange: bool)
    requires IsEndpoint(e) && Passes(b, off, e, allowRange)
    ensures var c := PutAt(b, off, e, allowRange);
      && ProposalStep(c, off) && Length(c, off) == Length(b, off)
      && Some(TsAt(c, off)) == Substitute(TsAt(b, off), e, allowRange)
  {
    var t := TsAt(b, off);
    if Substitute(t, e, allowRange) != Some(t) {
      PutLayout(b, off, e.addr);
      SameHeader(b, Put(b, off, e.addr), off);
    }
  }

  /** Only bytes of the selector's two addresses change. */
  lemma PutFrame(b: seq<byte>, off: nat, e: Endpoint, allowRange: bool)
    requires IsEndpoint(e) && Passes(b, off, e, allowRange)
    ensures forall i | 0 <= i < |b| && PutAt(b, off, e, allowRange)[i] != b[i] ::
      b[off] == e.tsType && off + TS_HEADER <= i < off + TsSize(b[off])
  {
    var t := TsAt(b, off);
    if Substitute(t, e, allowRange) != Some(t) {
      PutLayout(b, off, e.addr);
    }
  }

  // ---------------------------------------------------------------- the whole walk

  ghost predicate SameBetween(b: seq<byte>, c: seq<byte>, lo: nat, hi: nat) {
    |b| == |c| && forall i | lo <= i < hi && i < |b| :: c[i] == b[i]
  }

  /** A step of the walk sees only the bytes of its selector. */
  lemma SameStep(b: seq<byte>, c: seq<byte>, off: nat)
    requires ProposalStep(b, off) && SameBetween(b, c, off, off + Length(b, off))
    ensures ProposalStep(c, off) && Length(c, off) == Length(b, off) && TsAt(c, off) == TsAt(b, off)
  {
    SameHeader(b, c, off);
    var a, s := off + TS_HEADER, AddrSize(b[off]);
    assert c[a..a + s] == b[a..a + s] && c[a + s..a + 2 * s] == b[a + s..a + 2 * s];
  }

  /** The walk from off sees only the bytes from off on. */
  lemma {:induction false} WalkFrom(b: seq<byte>, c: seq<byte>, off: nat, num: nat)
    requires SameBetween(b, c, off, |b|)
    ensures ProposalWalk(c, off, num) == ProposalWalk(b, off, num)
    decreases num
  {
    if num > 0 && ProposalStep(b, off) {
      var next, left := off + Length(b, off), num - 1;
      SameStep(b, c, off);
      WalkFrom(b, c, next, left);
      WalkStep(b, off, next, left);
      WalkStep(c, off, next, left);
    } else if num > 0 && ProposalStep(c, off) {
      SameStep(c, b, off);
    }
  }

  lemma PutKeepsFront(b: seq<byte>, c: seq<byte>, off: nat, e: Endpoint, allowRange: bool, i: nat)
    requires IsEndpoint(e) && Passes(b, off, e, allowRange) && c == PutAt(b, off, e, allowRange) && i < off
    ensures c[i] == b[i]
  {
    PutFrame(b, off, e, allowRange);
  }

  /** The rewriting from off leaves everything before off alone. */
  lemma {:induction false} RewrittenKeepsFront(b: seq<byte>, off: nat, num: nat, e: Endpoint, allowRange: bool, i: nat)
    requires IsEndpoint(e) && i < |b| && i < off
    ensures Rewritten(b, off, num, e, allowRange)[i] == b[i]
    decreases num
  {
    if num > 0 && Passes(b, off, e, allowRange) {
      var c, next, left := PutAt(b, off, e, allowRange), off + Length(b, off), num - 1;
      RewrittenStep(b, c, off, next, left, e, allowRange);
      RewrittenKeepsFront(c, next, left, e, allowRange, i);
      PutKeepsFront(b, c, off, e, allowRange, i);
    }
  }

  lemma AcceptedCons(t: Ts, ts: seq<Ts>, e: Endpoint, allowRange: bool)
    requires IsEndpoint(e) && WellSized(t) && AllSized(ts)
    ensures AllSized([t] + ts)
    ensures AllAccepted([t] + ts, e, allowRange) <==> Substitute(t, e, allowRange).Some? && AllAccepted(ts, e, allowRange)
  {
    var all := [t] + ts;
    if AllAccepted(all, e, allowRange) {
      assert Substitute(all[0], e, allowRange).Some?;
      forall i | 0 <= i < |ts| ensures Substitute(ts[i], e, allowRange).Some? {
        assert Substitute(all[i + 1], e, allowRange).Some?;
      }
    }
  }

  lemma PassStep(b: seq<byte>, off: nat, next: nat, left: nat, e: Endpoint, allowRange: bool)
    requires IsEndpoint(e) && ProposalStep(b, off) && next == off + Length(b, off)
    ensures AllPass(b, off, left + 1, e, allowRange) <==>
      Substitute(TsAt(b, off), e, allowRange).Some? && AllPass(b, next, left, e, allowRange)
  {
  }

  /** The walk succeeds exactly when it finds as many selectors as announced and refuses none. */
  lemma {:induction false} AllPassMeaning(b: seq<byte>, off: nat, num: nat, e: Endpoint, allowRange: bool)
    requires IsEndpoint(e)
    ensures var ts := ProposalWalk(b, off, num);
      AllPass(b, off, num, e, allowRange) <==> |ts| == num && AllAccepted(ts, e, allowRange)
    decreases num
  {
    if num > 0 && ProposalStep(b, off) {
      var next, left := off + Length(b, off), num - 1;
      AllPassMeaning(b, next, left, e, allowRange);
      WalkStep(b, off, next, left);
      PassStep(b, off, next, left, e, allowRange);
      AcceptedCons(TsAt(b, off), ProposalWalk(b, next, left), e, allowRange);
    }
  }

  lemma AllPassFrom(b: seq<byte>, c: seq<byte>, off: nat, num: nat, e: Endpoint, allowRange: bool)
    requires IsEndpoint(e) && SameBetween(b, c, off, |b|)
    ensures AllPass(c, off, num, e, allowRange) <==> AllPass(b, off, num, e, allowRange)
  {
    WalkFrom(b, c, off, num);
    AllPassMeaning(b, off, num, e, allowRange);
    AllPassMeaning(c, off, num, e, allowRange);
  }

  lemma PutBehind(b: seq<byte>, off: nat, e: Endpoint, allowRange: bool)
    requires IsEndpoint(e) && Passes(b, off, e, allowRange)
    ensures SameBetween(b, PutAt(b, off, e, allowRange), off + Length(b, off), |b|)
  {
    PutFrame(b, off, e, allowRange);
  }

  lemma RewrittenBefore(b: seq<byte>, lo: nat, off: nat, num: nat, e: Endpoint, allowRange: bool)
    requires IsEndpoint(e)
    ensures SameBetween(b, Rewritten(b, off, num, e, allowRange), lo, off)
  {
    forall i | lo <= i < off && i < |b| ensures Rewritten(b, off, num, e, allowRange)[i] == b[i] {
      RewrittenKeepsFront(b, off, num, e, allowRange, i);
    }
  }

  lemma RewrittenStep(b: seq<byte>, c: seq<byte>, off: nat, next: nat, left: nat, e: Endpoint, allowRange: bool)
    requires IsEndpoint(e) && Passes(b, off, e, allowRange)
    requires c == PutAt(b, off, e, allowRange) && next == off + Length(b, off)
    ensures Rewritten(b, off, left + 1, e, allowRange) == Rewritten(c, next, left, e, allowRange)
  {
  }

  /** One step of the rewriting: the rest of the walk is as it was before. */
  lemma AfterPut(b: seq<byte>, c: seq<byte>, off: nat, next: nat, num: nat, e: Endpoint, allowRange: bool)
    requires IsEndpoint(e) && Passes(b, off, e, allowRange)
    requires c == PutAt(b, off, e, allowRange) && next == off + Length(b, off)
    ensures ProposalWalk(c, next, num) == ProposalWalk(b, next, num)
    ensures AllPass(c, next, num, e, allowRange) <==> AllPass(b, next, num, e, allowRange)
  {
    PutBehind(b, off, e, allowRange);
    WalkFrom(b, c, next, num);
    AllPassFrom(b, c, next, num, e, allowRange);
  }

  /** The selector at off reads as its substitute, before and after the rest is rewritten. */
  lemma RewrittenFirst(b: seq<byte>, c: seq<byte>, r: seq<byte>, off: nat, next: nat, e: Endpoint, allowRange: bool)
    requires IsEndpoint(e) && Passes(b, off, e, allowRange)
    requires c == PutAt(b, off, e, allowRange) && next == off + Length(b, off) && SameBetween(c, r, off, next)
    ensures ProposalStep(r, off) && off + Length(r, off) == next
    ensures Some(TsAt(r, off)) == Substitute(TsAt(b, off), e, allowRange)
  {
    PutReads(b, off, e, allowRange);
    SameStep(c, r, off);
  }

  /** The walk over r reads as the substitutes of what the walk over b reads. */
  ghost predicate Reads(b: seq<byte>, r: seq<byte>, off: nat, num: nat, e: Endpoint, allowRange: bool)
    requires IsEndpoint(e)
  {
    var ts := ProposalWalk(b, off, num);
    AllAccepted(ts, e, allowRange) && ProposalWalk(r, off, num) == SubstituteAll(ts, e, allowRange)
  }

  lemma ReadsStep(b: seq<byte>, r: seq<byte>, off: nat, next: nat, left: nat, e: Endpoint, allowRange: bool)
    requires IsEndpoint(e) && ProposalStep(b, off) && ProposalStep(r, off)
    requires next == off + Length(b, off) == off + Length(r, off)
    requires Some(TsAt(r, off)) == Substitute(TsAt(b, off), e, allowRange)
    requires Reads(b, r, next, left, e, allowRange)
    ensures Reads(b, r, off, left + 1, e, allowRange)
  {
    WalkStep(b, off, next, left);
    WalkStep(r, off, next, left);
    SubstituteCons(TsAt(b, off), ProposalWalk(b, next, left), e, allowRange);
  }

  lemma ReadsFrom(b: seq<byte>, c: seq<byte>, r: seq<byte>, off: nat, num: nat, e: Endpoint, allowRange: bool)
    requires IsEndpoint(e) && SameBetween(b, c, off, |b|) && Reads(c, r, off, num, e, allowRange)
    ensures Reads(b, r, off, num, e, allowRange)
  {
    WalkFrom(b, c, off, num);
  }

  /** On success the payload reads as the substituted selectors, in the same order. */
  lemma {:induction false} RewrittenReads(b: seq<byte>, off: nat, num: nat, e: Endpoint, allowRange: bool)
    requires IsEndpoint(e) && AllPass(b, off, num, e, allowRange)
    ensures Reads(b, Rewritten(b, off, num, e, allowRange), off, num, e, allowRange)
    decreases num
  {
    if num > 0 {
      var c, next, left := PutAt(b, off, e, allowRange), off + Length(b, off), num - 1;
      PassesOn(b, c, off, next, left, e, allowRange);
      RewrittenReads(c, next, left, e, allowRange);
      var r := Rewritten(c, next, left, e, allowRange);
      ReadsAfterPut(b, c, r, off, next, left, e, allowRange);
      RewrittenStep(b, c, off, next, left, e, allowRange);
    } else {
      ReadsNothing(b, off, e, allowRange);
    }
  }

  lemma ReadsNothing(b: seq<byte>, off: nat, e: Endpoint, allowRange: bool)
    requires IsEndpoint(e)
    ensures Reads(b, b, off, 0, e, allowRange)
  {
  }

  lemma PassesOn(b: seq<byte>, c: seq<byte>, off: nat, next: nat, left: nat, e: Endpoint, allowRange: bool)
    requires IsEndpoint(e) && Passes(b, off, e, allowRange) && AllPass(b, off, left + 1, e, allowRange)
    requires c == PutAt(b, off, e, allowRange) && next == off + Length(b, off)
    ensures AllPass(c, next, left, e, allowRange)
  {
    PassStep(b, off, next, left, e, allowRange);
    AfterPut(b, c, off, next, left, e, allowRange);
  }

  lemma ReadsAfterPut(b: seq<byte>, c: seq<byte>, r: seq<byte>, off: nat, next: nat, left: nat, e: Endpoint, allowRange: bool)
    requires IsEndpoint(e) && Passes(b, off, e, allowRange)
    requires c == PutAt(b, off, e, allowRange) && next == off + Length(b, off)
    requires r == Rewritten(c, next, left, e, allowRange) && Reads(c, r, next, left, e, allowRange)
    ensures Reads(b, r, off, left + 1, e, allowRange)
  {
    PutBehind(b, off, e, allowRange);
    ReadsFrom(b, c, r, next, left, e, allowRange);
    RewrittenBefore(c, off, next, left, e, allowRange);
    RewrittenFirst(b, c, r, off, next, e, allowRange);
    ReadsStep(b, r, off, next, left, e, allowRange);
  }

  lemma SubstituteCons(t: Ts, ts: seq<Ts>, e: Endpoint, allowRange: bool)
    requires IsEndpoint(e) && WellSized(t) && AllSized(ts)
    requires AllAccepted(ts, e, allowRange) && Substitute(t, e, allowRange).Some?
    ensures AllSized([t] + ts) && AllAccepted([t] + ts, e, allowRange)
    ensures SubstituteAll([t] + ts, e, allowRange) == [Substitute(t, e, allowRange).value] + SubstituteAll(ts, e, allowRange)
  {
    assert ([t] + ts)[1..] == ts;
  }

  ghost predicate AllFixed(ts: seq<Ts>, e: Endpoint, allowRange: bool)
    requires IsEndpoint(e) && AllSized(ts)
  {
    forall i | 0 <= i < |ts| :: Substitute(ts[i], e, allowRange) == Some(ts[i])
  }

  lemma FixedTail(t: Ts, ts: seq<Ts>, e: Endpoint, allowRange: bool)
    requires IsEndpoint(e) && WellSized(t) && AllSized(ts) && AllSized([t] + ts) && AllFixed([t] + ts, e, allowRange)
    ensures Substitute(t, e, allowRange) == Some(t) && AllFixed(ts, e, allowRange)
  {
    var all := [t] + ts;
    assert all[0] == t;
    forall i | 0 <= i < |ts| ensures Substitute(ts[i], e, allowRange) == Some(ts[i]) {
      assert all[i + 1] == ts[i];
    }
  }

  lemma {:induction false} FixedIsKept(b: seq<byte>, off: nat, num: nat, e: Endpoint, allowRange: bool)
    requires IsEndpoint(e) && AllFixed(ProposalWalk(b, off, num), e, allowRange)
    ensures Rewritten(b, off, num, e, allowRange) == b
    decreases num
  {
    if num > 0 && Passes(b, off, e, allowRange) {
      var next, left := off + Length(b, off), num - 1;
      WalkStep(b, off, next, left);
      FixedTail(TsAt(b, off), ProposalWalk(b, next, left), e, allowRange);
      FixedIsKept(b, next, left, e, allowRange);
      RewrittenStep(b, b, off, next, left, e, allowRange);
    }
  }

  /** A second substitution with the same setting succeeds and changes nothing. */
  lemma RewrittenTwice(b: seq<byte>, off: nat, num: nat, e: Endpoint, allowRange: bool)
    requires IsEndpoint(e) && AllPass(b, off, num, e, allowRange)
    ensures var r := Rewritten(b, off, num, e, allowRange);
      AllPass(r, off, num, e, allowRange) && Rewritten(r, off, num, e, allowRange) == r
  {
    var r, ts := Rewritten(b, off, num, e, allowRange), ProposalWalk(b, off, num);
    RewrittenReads(b, off, num, e, allowRange);
    AllPassMeaning(b, off, num, e, allowRange);
    var us := SubstituteAll(ts, e, allowRange);
    forall i | 0 <= i < |us| ensures Substitute(us[i], e, allowRange) == Some(us[i]) {
      SubstituteTwice(ts[i], e, allowRange);
    }
    AllPassMeaning(r, off, num, e, allowRange);
    FixedIsKept(r, off, num, e, allowRange);
  }

  /** The initiator accepts a payload exactly when each selector of its family is a single
      address or a range around its own; then each of those reads as the single address and
      the others read as before. */
  lemma InitiatorPayload(b: seq<byte>, off: nat, num: nat, e: Endpoint)
    requires IsEndpoint(e)
    ensures var ts := ProposalWalk(b, off, num);
      AllPass(b, off, num, e, true) <==> |ts| == num && forall i | 0 <= i < |ts| ::
        ts[i].tsType == e.tsType ==> ts[i].start == ts[i].end || Contains(ts[i], e)
    ensures AllPass(b, off, num, e, true) ==>
      var ts, us := ProposalWalk(b, off, num), ProposalWalk(Rewritten(b, off, num, e, true), off, num);
      |us| == num == |ts| && forall i | 0 <= i < num ::
        us[i] == if ts[i].tsType == e.tsType then ts[i].(start := e.addr, end := e.addr) else ts[i]
  {
    var ts := ProposalWalk(b, off, num);
    AllPassMeaning(b, off, num, e, true);
    forall i | 0 <= i < |ts|
      ensures Substitute(ts[i], e, true).Some? <==> (ts[i].tsType == e.tsType ==> ts[i].start == ts[i].end || Contains(ts[i], e))
    {
      InitiatorSubstitutes(ts[i], e);
    }
    if AllPass(b, off, num, e, true) {
      RewrittenReads(b, off, num, e, true);
    }
  }

  /** The responder accepts a payload exactly when no selector of its family is a range that
      starts elsewhere; a range that starts at its own address stays as it is. */
  lemma ResponderPayload(b: seq<byte>, off: nat, num: nat, e: Endpoint)
    requires IsEndpoint(e)
    ensures var ts := ProposalWalk(b, off, num);
      AllPass(b, off, num, e, false) <==> |ts| == num && forall i | 0 <= i < |ts| ::
        ts[i].tsType == e.tsType ==> ts[i].start == ts[i].end || (ts[i].start == e.addr && (e.tsType == 8 ==> e.scope == 0))
    ensures AllPass(b, off, num, e, false) ==>
      var ts, us := ProposalWalk(b, off, num), ProposalWalk(Rewritten(b, off, num, e, false), off, num);
      |us| == num == |ts| && forall i | 0 <= i < num ::
        us[i] == if ts[i].tsType == e.tsType && ts[i].start == ts[i].end then ts[i].(start := e.addr, end := e.addr) else ts[i]
  {
    var ts := ProposalWalk(b, off, num);
    AllPassMeaning(b, off, num, e, false);
    forall i | 0 <= i < |ts|
      ensures Substitute(ts[i], e, false).Some? <==> (ts[i].tsType == e.tsType ==> ts[i].start == ts[i].end || Names(ts[i].start, e))
    {
      ResponderSubstitutes(ts[i], e);
    }
    if AllPass(b, off, num, e, false) {
      RewrittenReads(b, off, num, e, false);
    }
  }

  /** Byte i belongs to an address of a selector of the endpoint's family on the walk. */
  predicate InAddress(b: seq<byte>, off: nat, num: nat, e: Endpoint, i: nat)
    decreases num
  {
    && num > 0 && ProposalStep(b, off)
    && ((b[off] == e.tsType && off + TS_HEADER <= i < off + TsSize(b[off]))
        || InAddress(b, off + Length(b, off), num - 1, e, i))
  }

  lemma {:induction false} InAddressFrom(b: seq<byte>, c: seq<byte>, off: nat, num: nat, e: Endpoint, i: nat)
    requires SameBetween(b, c, off, |b|)
    ensures InAddress(c, off, num, e, i) ==> InAddress(b, off, num, e, i)
    decreases num
  {
    if num > 0 && ProposalStep(c, off) {
      SameStep(c, b, off);
      InAddressFrom(b, c, off + Length(b, off), num - 1, e, i);
    }
  }

  lemma InAddressStep(b: seq<byte>, off: nat, next: nat, left: nat, e: Endpoint, i: nat)
    requires ProposalStep(b, off) && next == off + Length(b, off) && InAddress(b, next, left, e, i)
    ensures InAddress(b, off, left + 1, e, i)
  {
  }

  /** Whether the walk succeeds or is refused half way: only address bytes of selectors of
      the endpoint's family are ever written. */
  lemma {:induction false} RewrittenFrame(b: seq<byte>, off: nat, num: nat, e: Endpoint, allowRange: bool, i: nat)
    requires IsEndpoint(e) && i < |b| && Rewritten(b, off, num, e, allowRange)[i] != b[i]
    ensures InAddress(b, off, num, e, i)
    decreases num
  {
    assert num > 0 && Passes(b, off, e, allowRange);
    var c, next, left := PutAt(b, off, e, allowRange), off + Length(b, off), num - 1;
    RewrittenStep(b, c, off, next, left, e, allowRange);
    if c[i] != b[i] {
      PutFrame(b, off, e, allowRange);
    } else {
      RewrittenFrame(c, next, left, e, allowRange, i);
      PutBehind(b, off, e, allowRange);
      InAddressFrom(b, c, next, left, e, i);
      InAddressStep(b, off, next, left, e, i);
    }
  }

  // ---------------------------------------------------------------- the payload

  method PutAddresses(b: array<byte>, len: nat, off: nat, addr: seq<byte>)
    requires off + TS_HEADER + 2 * |addr| <= len <= b.Length
    modifies b
    ensures b[..len] == Put(old(b[..len]), off, addr) && b[len..] == old(b[len..])
  {
    CopyInto(b, off + TS_HEADER, addr + addr);
  }

  /** ikev2_ts_substitute_ex on the selector at off. */
  method SubstituteAt(b: array<byte>, len: nat, off: nat, e: Endpoint, allowRange: bool) returns (ok: bool)
    requires IsEndpoint(e) && len <= b.Length && ProposalStep(b[..len], off)
    modifies b
    ensures ok <==> old(Passes(b[..len], off, e, allowRange))
    ensures ok ==> b[..len] == old(PutAt(b[..len], off, e, allowRange))
    ensures !ok ==> b[..len] == old(b[..len])
    ensures b[len..] == old(b[len..])
  {
    var t := TsAt(b[..len], off);
    if t.tsType != e.tsType || (Names(t.start, e) && (!allowRange || Names(t.end, e))) {
      return true;
    }
    if t.start != t.end && !(allowRange && Contains(t, e)) {
      return false;
    }
    ok := true;
    if Substitute(t, e, allowRange) == Some(t) {
      RewriteSame(b[..len], off);
    }
    PutAddresses(b, len, off, e.addr);
  }

  /** Writing the addresses that are already there. */
  lemma RewriteSame(b: seq<byte>, off: nat)
    requires TsFits(b, off)
    ensures TsAt(b, off).start == TsAt(b, off).end ==> Put(b, off, TsAt(b, off).start) == b
  {
    var a, s := off + TS_HEADER, AddrSize(b[off]);
    assert b[..a] + (b[a..a + s] + b[a + s..a + 2 * s]) + b[a + 2 * s..] == b;
  }

  /** ikev2_ts_payload_substitute.  The buffer starts with the payload header; its length
      field says how much of it is the payload. */
  method SubstitutePayload(b: array<byte>, e: Endpoint, allowRange: bool) returns (ok: bool)
    requires IsEndpoint(e) && b.Length >= 4 && U16(b[..], 2) <= b.Length
    modifies b
    ensures var was := old(b[..U16(b[..], 2)]);
      && b[|was|..] == old(b[U16(b[..], 2)..])
      && if |was| < 8 || was[4] == 0 then !ok && b[..|was|] == was
         else (ok <==> AllPass(was, 8, was[4], e, allowRange))
              && b[..|was|] == Rewritten(was, 8, was[4], e, allowRange)
  {
    var len := U16(b[..], 2);
    if len < PAYLOAD_HEADER {
      return false;
    }
    assert b[..len][4] == b[4];
    var num: nat := b[4];
    if num == 0 {
      return false;
    }
    ok := WalkPayload(b, len, num, e, allowRange);
  }

  /** The loop over the selectors. */
  method WalkPayload(b: array<byte>, len: nat, num: nat, e: Endpoint, allowRange: bool) returns (ok: bool)
    requires IsEndpoint(e) && len <= b.Length
    modifies b
    ensures ok <==> old(AllPass(b[..len], PAYLOAD_HEADER, num, e, allowRange))
    ensures b[..len] == old(Rewritten(b[..len], PAYLOAD_HEADER, num, e, allowRange))
    ensures b[len..] == old(b[len..])
  {
    ghost var fin := Rewritten(b[..len], PAYLOAD_HEADER, num, e, allowRange);
    ghost var pass := AllPass(b[..len], PAYLOAD_HEADER, num, e, allowRange);
    var p: nat, left: nat := PAYLOAD_HEADER, num;
    ok := true;
    while ok && left > 0
      invariant b[len..] == old(b[len..]) && Halfway(fin, pass, b[..len], p, left, e, allowRange, ok)
      decreases ok, left
    {
      left := left - 1;
      ok, p := StepPayload(b, len, p, left, e, allowRange, fin, pass);
    }
    WalkEnds(fin, pass, b[..len], p, left, e, allowRange, ok);
  }

  /** Where the loop stands: not refused yet, or refused. */
  ghost predicate Halfway(fin: seq<byte>, pass: bool, cur: seq<byte>, p: nat, left: nat, e: Endpoint, allowRange: bool, ok: bool)
    requires IsEndpoint(e)
  {
    if ok then StillToDo(fin, pass, cur, p, left, e, allowRange) else cur == fin && !pass
  }

  lemma WalkEnds(fin: seq<byte>, pass: bool, cur: seq<byte>, p: nat, left: nat, e: Endpoint, allowRange: bool, ok: bool)
    requires IsEndpoint(e) && Halfway(fin, pass, cur, p, left, e, allowRange, ok) && !(ok && left > 0)
    ensures cur == fin && (ok <==> pass)
  {
  }

  /** One round: refuse, or deal with the selector at p and go on behind it. */
  method StepPayload(b: array<byte>, len: nat, p: nat, left: nat, e: Endpoint, allowRange: bool, ghost fin: seq<byte>, ghost pass: bool)
    returns (ok: bool, next: nat)
    requires IsEndpoint(e) && len <= b.Length && StillToDo(fin, pass, b[..len], p, left + 1, e, allowRange)
    modifies b
    ensures b[len..] == old(b[len..])
    ensures Halfway(fin, pass, b[..len], next, left, e, allowRange, ok)
  {
    if !ProposalStep(b[..len], p) {
      return false, p;
    }
    ghost var cur := b[..len];
    next := p + Length(b[..len], p);
    ok := SubstituteAt(b, len, p, e, allowRange);
    if ok {
      Progress(fin, pass, cur, b[..len], p, next, left, e, allowRange);
    }
  }

  /** What is left of the walk decides about the whole of it. */
  ghost predicate StillToDo(fin: seq<byte>, pass: bool, cur: seq<byte>, p: nat, left: nat, e: Endpoint, allowRange: bool)
    requires IsEndpoint(e)
  {
    fin == Rewritten(cur, p, left, e, allowRange) && (pass <==> AllPass(cur, p, left, e, allowRange))
  }

  lemma Progress(fin: seq<byte>, pass: bool, b: seq<byte>, c: seq<byte>, p: nat, next: nat, left: nat, e: Endpoint, allowRange: bool)
    requires IsEndpoint(e) && StillToDo(fin, pass, b, p, left + 1, e, allowRange)
    requires Passes(b, p, e, allowRange) && c == PutAt(b, p, e, allowRange) && next == p + Length(b, p)
    ensures StillToDo(fin, pass, c, next, left, e, allowRange)
  {
    RewrittenStep(b, c, p, next, left, e, allowRange);
    AfterPut(b, c, p, next, left, e, allowRange);
  }
}
