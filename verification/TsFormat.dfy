/** The formats of section 3.13 of RFC 7296 in figures: what every octet of a selector, of a
    payload and of an answer stands for, and that reading and writing follow it. */
module TsFormat {
  import opened AddrMatch
  import opened BigEndian
  import opened Bytes
  import opened Matching
  import opened Prefix
  import opened Selectors
  import opened TsNarrow
  import opened TsNat
  import opened TsWire

  // ---------------------------------------------------------------- packets

  /** A selector covers a packet exactly if the family is the same, the protocol 0 or the same,
      and port and address, as numbers, lie between the bounds. */
  lemma CoversInNumbers(t: Ts, k: Packet)
    requires WellSized(t)
    ensures Covers(t, k) <==>
      && k.tsType == t.tsType && |k.addr| == |t.start| && (t.proto == 0 || t.proto == k.proto)
      && t.startPort <= k.port <= t.endPort && Value(t.start) <= Value(k.addr) <= Value(t.end)
  {
    if |k.addr| == |t.start| {
      LeqIsNumeric(t.start, k.addr);
      LeqIsNumeric(k.addr, t.end);
    }
  }

  /** IPv4 ranges have type 7 and IPv6 ranges type 8; ports have 16 bits. */
  lemma SizedInNumbers(t: Ts)
    ensures WellSized(t) <==>
      && ((t.tsType == 7 && |t.start| == |t.end| == 4) || (t.tsType == 8 && |t.start| == |t.end| == 16))
      && t.startPort < 65536 && t.endPort < 65536
  {
  }

  // ---------------------------------------------------------------- one selector

  /** The length field of the selector at off. */
  ghost function LengthField(b: seq<byte>, off: nat): nat
    requires off + 4 <= |b|
  {
    Value(b[off + 2..off + 4])
  }

  /** The selector of the known type at off, field by field. */
  ghost function Fields(b: seq<byte>, off: nat): Ts
    requires off + 8 <= |b| && (b[off] == 7 ==> off + 16 <= |b|) && (b[off] != 7 ==> off + 40 <= |b|)
  {
    if b[off] == 7 then Ts(7, b[off + 1], Value(b[off + 4..off + 6]), Value(b[off + 6..off + 8]), b[off + 8..off + 12], b[off + 12..off + 16])
    else Ts(8, b[off + 1], Value(b[off + 4..off + 6]), Value(b[off + 6..off + 8]), b[off + 8..off + 24], b[off + 24..off + 40])
  }

  /** A proposed selector is read if its length field holds its two addresses and lies inside
      the payload. */
  ghost predicate Proposes(b: seq<byte>, off: nat) {
    && off + 8 <= |b| && off + LengthField(b, off) <= |b|
    && ((b[off] == 7 && LengthField(b, off) >= 16) || (b[off] == 8 && LengthField(b, off) >= 40))
  }

  /** A configured selector is passed if its length field holds its header and lies inside the
      answer. */
  ghost predicate Passed(b: seq<byte>, off: nat) {
    off + 8 <= |b| && 8 <= LengthField(b, off) && off + LengthField(b, off) <= |b|
  }

  lemma ReadsProposed(b: seq<byte>, off: nat)
    ensures ProposalStep(b, off) <==> Proposes(b, off)
    ensures Proposes(b, off) ==> TsAt(b, off) == Fields(b, off) && Length(b, off) == LengthField(b, off)
  {
    if off + 8 <= |b| {
      U16IsNumber(b, off + 2);
      U16IsNumber(b, off + 4);
      U16IsNumber(b, off + 6);
    }
  }

  lemma ReadsAnswered(b: seq<byte>, off: nat)
    ensures AnswerStep(b, off) <==> Passed(b, off)
    ensures Passed(b, off) ==> Length(b, off) == LengthField(b, off)
    ensures Passed(b, off) ==> UsableAt(b, off) == if Proposes(b, off) then [Fields(b, off)] else []
  {
    if off + 8 <= |b| {
      U16IsNumber(b, off + 2);
      U16IsNumber(b, off + 4);
      U16IsNumber(b, off + 6);
    }
  }

  // ---------------------------------------------------------------- lists of selectors

  /** Selectors begin at the given offsets, one behind the other; the last offset is where the
      walk ends, because num have been read or because nothing can be read there. */
  ghost predicate ProposedAt(b: seq<byte>, offs: seq<nat>, num: nat) {
    && 0 < |offs| <= num + 1
    && (forall i: nat | i < |offs| - 1 :: Proposes(b, offs[i]) && offs[i + 1] == offs[i] + LengthField(b, offs[i]))
    && (|offs| == num + 1 || !Proposes(b, offs[|offs| - 1]))
  }

  /** There always are such offsets. */
  lemma {:induction false} ProposedOffsets(b: seq<byte>, off: nat, num: nat) returns (offs: seq<nat>)
    ensures ProposedAt(b, offs, num) && offs[0] == off
    decreases num
  {
    if num == 0 || !Proposes(b, off) {
      offs := [off];
    } else {
      var rest := ProposedOffsets(b, off + LengthField(b, off), num - 1);
      offs := [off] + rest;
      forall i: nat | i < |offs| - 1 ensures Proposes(b, offs[i]) && offs[i + 1] == offs[i] + LengthField(b, offs[i]) {
        if i > 0 {
          assert offs[i] == rest[i - 1] && offs[i + 1] == rest[i];
        }
      }
    }
  }

  lemma ProposedAtTail(b: seq<byte>, offs: seq<nat>, num: nat, rest: seq<nat>, left: nat)
    requires ProposedAt(b, offs, num) && |offs| > 1 && rest == offs[1..] && left == num - 1
    ensures ProposedAt(b, rest, left)
  {
    forall i: nat | i < |rest| - 1 ensures Proposes(b, rest[i]) && rest[i + 1] == rest[i] + LengthField(b, rest[i]) {
      assert rest[i] == offs[i + 1] && rest[i + 1] == offs[i + 2];
      assert Proposes(b, offs[i + 1]);
    }
  }

  /** The selectors at the given offsets, all but the last, those that cannot be used left out. */
  ghost function Picked(b: seq<byte>, offs: seq<nat>): seq<Ts> {
    if |offs| <= 1 then []
    else (if Proposes(b, offs[0]) then [Fields(b, offs[0])] else []) + Picked(b, offs[1..])
  }

  lemma PickOne(b: seq<byte>, offs: seq<nat>, rest: seq<nat>)
    requires |offs| > 1 && rest == offs[1..]
    ensures Picked(b, offs) == (if Proposes(b, offs[0]) then [Fields(b, offs[0])] else []) + Picked(b, rest)
  {
  }

  lemma WalkReadsOne(b: seq<byte>, offs: seq<nat>, num: nat, rest: seq<nat>, left: nat)
    requires |offs| > 1 && rest == offs[1..] && num == left + 1
    requires Proposes(b, offs[0]) && offs[1] == offs[0] + LengthField(b, offs[0])
    requires ProposalWalk(b, offs[1], left) == Picked(b, rest)
    ensures ProposalWalk(b, offs[0], num) == Picked(b, offs)
  {
    ReadsProposed(b, offs[0]);
    WalkStep(b, offs[0], offs[1], left);
    PickOne(b, offs, rest);
  }

  lemma WalkReadsNone(b: seq<byte>, off: nat, num: nat)
    requires num == 0 || !Proposes(b, off)
    ensures ProposalWalk(b, off, num) == Picked(b, [off])
  {
    ReadsProposed(b, off);
  }

  lemma {:induction false} WalkReads(b: seq<byte>, offs: seq<nat>, num: nat)
    requires ProposedAt(b, offs, num)
    ensures ProposalWalk(b, offs[0], num) == Picked(b, offs)
    decreases num
  {
    if |offs| > 1 {
      var rest, left := offs[1..], num - 1;
      ProposedAtTail(b, offs, num, rest, left);
      WalkReads(b, rest, left);
      WalkReadsOne(b, offs, num, rest, left);
    } else {
      assert offs == [offs[0]];
      WalkReadsNone(b, offs[0], num);
    }
  }

  /** The proposal: its own length in octets 2 and 3, the number of selectors in octet 4, the
      selectors from octet 8 on. */
  lemma ProposedReads(payload: seq<byte>, offs: seq<nat>)
    requires |payload| >= 8 && 8 <= Value(payload[2..4]) <= |payload|
    requires ProposedAt(payload[..Value(payload[2..4])], offs, payload[4]) && offs[0] == 8
    ensures PayloadFits(payload) && Proposed(payload) == Picked(payload[..Value(payload[2..4])], offs)
  {
    U16IsNumber(payload, 2);
    WalkReads(payload[..Value(payload[2..4])], offs, payload[4]);
  }

  ghost predicate AnsweredAt(b: seq<byte>, offs: seq<nat>, num: nat) {
    && 0 < |offs| <= num + 1
    && (forall i: nat | i < |offs| - 1 :: Passed(b, offs[i]) && offs[i + 1] == offs[i] + LengthField(b, offs[i]))
    && (|offs| == num + 1 || !Passed(b, offs[|offs| - 1]))
  }

  /** There always are such offsets. */
  lemma {:induction false} AnsweredOffsets(b: seq<byte>, off: nat, num: nat) returns (offs: seq<nat>)
    ensures AnsweredAt(b, offs, num) && offs[0] == off
    decreases num
  {
    if num == 0 || !Passed(b, off) {
      offs := [off];
    } else {
      var rest := AnsweredOffsets(b, off + LengthField(b, off), num - 1);
      offs := [off] + rest;
      forall i: nat | i < |offs| - 1 ensures Passed(b, offs[i]) && offs[i + 1] == offs[i] + LengthField(b, offs[i]) {
        if i > 0 {
          assert offs[i] == rest[i - 1] && offs[i + 1] == rest[i];
        }
      }
    }
  }

  lemma AnsweredAtTail(b: seq<byte>, offs: seq<nat>, num: nat, rest: seq<nat>, left: nat)
    requires AnsweredAt(b, offs, num) && |offs| > 1 && rest == offs[1..] && left == num - 1
    ensures AnsweredAt(b, rest, left)
  {
    forall i: nat | i < |rest| - 1 ensures Passed(b, rest[i]) && rest[i + 1] == rest[i] + LengthField(b, rest[i]) {
      assert rest[i] == offs[i + 1] && rest[i + 1] == offs[i + 2];
      assert Passed(b, offs[i + 1]);
    }
  }

  lemma PassOne(b: seq<byte>, off: nat, next: nat, left: nat)
    requires AnswerStep(b, off) && next == off + Length(b, off)
    ensures AnswerWalk(b, off, left + 1) == UsableAt(b, off) + AnswerWalk(b, next, left)
  {
  }

  lemma AnswerReadsOne(b: seq<byte>, offs: seq<nat>, num: nat, rest: seq<nat>, left: nat)
    requires |offs| > 1 && rest == offs[1..] && num == left + 1
    requires Passed(b, offs[0]) && offs[1] == offs[0] + LengthField(b, offs[0])
    requires AnswerWalk(b, offs[1], left) == Picked(b, rest)
    ensures AnswerWalk(b, offs[0], num) == Picked(b, offs)
  {
    ReadsAnswered(b, offs[0]);
    PassOne(b, offs[0], offs[1], left);
    PickOne(b, offs, rest);
  }

  lemma AnswerReadsNone(b: seq<byte>, off: nat, num: nat)
    requires num == 0 || !Passed(b, off)
    ensures AnswerWalk(b, off, num) == Picked(b, [off])
  {
    ReadsAnswered(b, off);
  }

  lemma {:induction false} AnswerReads(b: seq<byte>, offs: seq<nat>, num: nat)
    requires AnsweredAt(b, offs, num)
    ensures AnswerWalk(b, offs[0], num) == Picked(b, offs)
    decreases num
  {
    if |offs| > 1 {
      var rest, left := offs[1..], num - 1;
      AnsweredAtTail(b, offs, num, rest, left);
      AnswerReads(b, rest, left);
      AnswerReadsOne(b, offs, num, rest, left);
    } else {
      assert offs == [offs[0]];
      AnswerReadsNone(b, offs[0], num);
    }
  }

  /** The answer: the number of selectors in octet 0, the selectors from octet 4 on. */
  lemma AnsweredReads(answer: seq<byte>, offs: seq<nat>)
    requires |answer| >= 4 && AnsweredAt(answer, offs, answer[0]) && offs[0] == 4
    ensures ParseAnswer(answer) == Picked(answer, offs)
  {
    AnswerReads(answer, offs, answer[0]);
  }

  /** Octet i lies in an address of a selector of the given type at off. */
  ghost predicate AddressAt(b: seq<byte>, off: nat, tsType: byte, i: nat) {
    off < |b| && b[off] == tsType && off + 8 <= i < off + (if tsType == 7 then 16 else 40)
  }

  /** Octet i lies in an address of one of the selectors of the endpoint's type. */
  ghost predicate InSomeAddress(b: seq<byte>, offs: seq<nat>, e: Endpoint, i: nat) {
    exists j: nat :: j < |offs| - 1 && AddressAt(b, offs[j], e.tsType, i)
  }

  lemma SomeAddressCons(b: seq<byte>, offs: seq<nat>, rest: seq<nat>, e: Endpoint, i: nat)
    requires |offs| > 1 && rest == offs[1..]
    ensures InSomeAddress(b, offs, e, i) <==> AddressAt(b, offs[0], e.tsType, i) || InSomeAddress(b, rest, e, i)
  {
    if InSomeAddress(b, rest, e, i) {
      var j: nat :| j < |rest| - 1 && AddressAt(b, rest[j], e.tsType, i);
      assert offs[j + 1] == rest[j];
    }
    if InSomeAddress(b, offs, e, i) {
      var j: nat :| j < |offs| - 1 && AddressAt(b, offs[j], e.tsType, i);
      assert j > 0 ==> rest[j - 1] == offs[j];
    }
  }

  lemma {:induction false} AddressesAt(b: seq<byte>, offs: seq<nat>, num: nat, e: Endpoint, i: nat)
    requires ProposedAt(b, offs, num)
    ensures InAddress(b, offs[0], num, e, i) <==> InSomeAddress(b, offs, e, i)
    decreases num
  {
    ReadsProposed(b, offs[0]);
    if |offs| > 1 {
      var rest, left := offs[1..], num - 1;
      ProposedAtTail(b, offs, num, rest, left);
      AddressesAt(b, rest, left, e, i);
      SomeAddressCons(b, offs, rest, e, i);
      AddressHereOrLater(b, offs[0], offs[1], left, e, i);
    }
  }

  lemma AddressHereOrLater(b: seq<byte>, off: nat, next: nat, left: nat, e: Endpoint, i: nat)
    requires ProposalStep(b, off) && next == off + Length(b, off)
    ensures InAddress(b, off, left + 1, e, i) <==> AddressAt(b, off, e.tsType, i) || InAddress(b, next, left, e, i)
  {
  }

  /** Substitution, even one that is refused half way, writes only into addresses of selectors of
      the endpoint's type. */
  lemma SubstitutionWrites(b: seq<byte>, offs: seq<nat>, num: nat, e: Endpoint, allowRange: bool, i: nat)
    requires IsEndpoint(e) && ProposedAt(b, offs, num)
    requires i < |b| && Rewritten(b, offs[0], num, e, allowRange)[i] != b[i]
    ensures InSomeAddress(b, offs, e, i)
  {
    RewrittenFrame(b, offs[0], num, e, allowRange, i);
    AddressesAt(b, offs, num, e, i);
  }

  // ---------------------------------------------------------------- what is written

  /** The octets of an answer with one selector for an IPv4 block. */
  lemma AnswerOctets4(b: seq<byte>, proto: byte, addr: SockAddr, prefixlen: nat)
    requires addr.Valid() && addr.family.Inet? && IsAnswer(b, [Response(proto, addr, prefixlen)])
    ensures var first, last := addr.port, if addr.port == 0 then 65535 else addr.port;
      b == [1, 0, 0, 0, 7, proto, 0, 16, first / 256, first % 256, last / 256, last % 256]
           + BlockLo(Octets(addr.addr), prefixlen) + BlockHi(Octets(addr.addr), prefixlen)
  {
    AnswerOctets(b, Response(proto, addr, prefixlen));
  }

  /** And for an IPv6 block. */
  lemma AnswerOctets6(b: seq<byte>, proto: byte, addr: SockAddr, prefixlen: nat)
    requires addr.Valid() && addr.family.Inet6? && IsAnswer(b, [Response(proto, addr, prefixlen)])
    ensures var first, last := addr.port, if addr.port == 0 then 65535 else addr.port;
      b == [1, 0, 0, 0, 8, proto, 0, 40, first / 256, first % 256, last / 256, last % 256]
           + BlockLo(Octets(addr.addr), prefixlen) + BlockHi(Octets(addr.addr), prefixlen)
  {
    AnswerOctets(b, Response(proto, addr, prefixlen));
  }

  lemma AnswerOctets(b: seq<byte>, t: Ts)
    requires WellSized(t) && IsAnswer(b, [t])
    ensures b == [1, 0, 0, 0, t.tsType, t.proto, 0, 8 + 2 * |t.start|,
                  t.startPort / 256, t.startPort % 256, t.endPort / 256, t.endPort % 256] + t.start + t.end
  {
    assert [t][1..] == [] && EncodeAll([t]) == EncodeTs(t) + EncodeAll([]);
    assert b == [b[0], b[1], b[2], b[3]] + b[4..];
    SelectorOctets(t);
  }

  lemma SelectorOctets(t: Ts)
    requires WellSized(t)
    ensures EncodeTs(t) == [t.tsType, t.proto, 0, 8 + 2 * |t.start|, t.startPort / 256, t.startPort % 256,
                            t.endPort / 256, t.endPort % 256] + t.start + t.end
  {
  }

  /** The largest selector, for which room is made per pair, is one of IPv6. */
  lemma LargestEntry(t: Ts)
    requires WellSized(t)
    ensures |EncodeTs(t)| <= MAX_ENTRY && (|EncodeTs(t)| == MAX_ENTRY <==> t.tsType == 8)
  {
  }
}
