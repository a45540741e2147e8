/** ikev2_proplist_filter_deprecated: the loops over the protocols of a proposal and over the
    proposal numbers. */
module ProposalFilter {
  import opened Wrappers
  import opened PairTree
  import opened Proposals
  import opened ProposalHeap
  import opened ProposalLists
  import opened ProposalTrees
  import opened Refusals

  // ---------------------------------------------------------------- one proposal

  ghost function LeftPart(policy: Policy, b: Body, i: nat): Part
    requires Separate(b) && i < |b.parts|
  {
    Left(policy, b.protos[i].context, b.parts[i])
  }

  /** Protocol i after the filter. */
  ghost predicate Filtered(policy: Policy, b: Body, i: nat)
    requires Separate(b) && i < |b.parts|
    reads b.protos[i], b.parts[i].home.Keys
  {
    && b.protos[i].next == NextProto(b, i) && b.protos[i].live
    && Listed(b.protos[i].tnext, LeftPart(policy, b, i)) && Tidy(LeftPart(policy, b, i))
    && Sieved(policy, b.protos[i].context, b.parts[i])
  }

  /** Where the loop over the protocols stands. */
  ghost predicate Partly(policy: Policy, b: Body, i: nat)
    reads Members(b)
  {
    && Separate(b) && i <= |b.protos|
    && (forall l: nat {:trigger NextProto(b, l)} | l < |b.protos| ::
          if l < i then Filtered(policy, b, l) else Stands(b, l))
  }

  lemma OthersApart(b: Body, i: nat, l: nat)
    requires Separate(b) && i < |b.protos| && l < |b.protos| && i != l
    ensures b.protos[l] != b.protos[i] && b.protos[l] !in b.parts[i].home && b.protos[i] !in b.parts[i].home
    ensures forall n | n in b.parts[l].home :: n !in b.parts[i].home && n != b.protos[i]
  {
    assert Owned(b.parts[i], b.owner, i) && Owned(b.parts[l], b.owner, l);
  }

  method FilterOwn(policy: Policy, proto: Pair, ghost b: Body, ghost i: nat) returns (next: Pair?, removed: nat, drop: bool)
    requires Separate(b) && i < |b.protos| && proto == b.protos[i] && Stands(b, i) && proto !in b.parts[i].home
    modifies proto`tnext, b.parts[i].home.Keys
    ensures Filtered(policy, b, i) && next == NextProto(b, i)
    ensures removed == RefusedBefore(policy, proto.context, GroupValues(b.parts[i].gs), |b.parts[i].gs|)
    ensures drop <==> Emptied(policy, Protocol(proto.context, GroupValues(b.parts[i].gs)))
  {
    removed, drop := FilterPart(policy, proto, b.parts[i]);
    next := proto.next;
  }

  /** One round: the other protocols do not notice. */
  method FilterNext(policy: Policy, proto: Pair, ghost b: Body, ghost i: nat) returns (next: Pair?, removed: nat, drop: bool)
    requires Partly(policy, b, i) && i < |b.protos| && proto == b.protos[i]
    modifies Members(b)
    ensures Partly(policy, b, i + 1) && next == NextProto(b, i)
    ensures removed == RefusedBefore(policy, proto.context, GroupValues(b.parts[i].gs), |b.parts[i].gs|)
    ensures drop <==> Emptied(policy, Protocol(proto.context, GroupValues(b.parts[i].gs)))
  {
    assert b.protos[i].next == NextProto(b, i) && Stands(b, i) && Owned(b.parts[i], b.owner, i);
    next, removed, drop := FilterOwn(policy, proto, b, i);
    forall l: nat | l < |b.protos| ensures if l < i + 1 then Filtered(policy, b, l) else Stands(b, l) {
      if l != i {
        OthersApart(b, i, l);
        assert old(if l < i then Filtered(policy, b, l) else Stands(b, l)) by { var next := NextProto(b, l); }
      }
    }
  }

  /** The proposal that is left: the first nodes, and of the others those not refused. */
  ghost function LeftBody(policy: Policy, b: Body): Body
    requires Separate(b)
  {
    Body(b.protos, seq(|b.parts|, i requires 0 <= i < |b.parts| => LeftPart(policy, b, i)), b.order,
         map n | n in b.owner && !Refused(policy, b.protos[b.owner[n]].context, n.trns) :: b.owner[n])
  }

  lemma LeftIsSeparate(policy: Policy, b: Body)
    requires Separate(b)
    ensures Separate(LeftBody(policy, b))
  {
    var left := LeftBody(policy, b);
    forall i: nat | i < |left.parts| ensures Laid(left.parts[i]) && Owned(left.parts[i], left.owner, i) {
      LeftPlaced(policy, b.protos[i].context, b.parts[i]);
      LeftExact(policy, b.protos[i].context, b.parts[i]);
      assert Owned(b.parts[i], b.owner, i);
    }
    forall n | n in left.owner ensures left.owner[n] < |left.parts| && n in left.parts[left.owner[n]].home {
      assert n in b.parts[b.owner[n]].home;
    }
  }

  lemma LeftStands(policy: Policy, b: Body)
    requires Partly(policy, b, |b.protos|)
    ensures Standing(ProtoAt(b, 0), LeftBody(policy, b)) && TidyBody(LeftBody(policy, b))
  {
    var left := LeftBody(policy, b);
    LeftIsSeparate(policy, b);
    forall i: nat | i < |b.protos| ensures Stands(left, i) && Tidy(left.parts[i]) {
      assert NextProto(left, i) == NextProto(b, i);
      assert Filtered(policy, b, i);
    }
  }

  /** A node of the proposal is live exactly if it is still in it. */
  ghost predicate Spared(b: Body, left: Body)
    reads Members(b)`live
  {
    forall n | n in Members(b) :: n.live <==> n in Members(left)
  }

  lemma LeftIsSpared(policy: Policy, b: Body)
    requires Partly(policy, b, |b.protos|)
    ensures Spared(b, LeftBody(policy, b))
  {
    forall n | n in Members(b) ensures n.live <==> n in Members(LeftBody(policy, b)) {
      var i := if n in b.order then b.order[n] else b.owner[n];
      var next := NextProto(b, i);
      assert Filtered(policy, b, i);
    }
  }

  lemma LeftBodyValues(policy: Policy, b: Body)
    requires Separate(b) && !Dropped(policy, BodyValues(b))
    ensures BodyValues(LeftBody(policy, b)) == KeepProtocols(policy, BodyValues(b))
  {
    var v := BodyValues(b);
    forall i: nat | i < |b.protos| ensures BodyValues(LeftBody(policy, b))[i] == KeepProtocols(policy, v)[i] {
      assert !Emptied(policy, v[i]);
      LeftValues(policy, b.protos[i].context, b.parts[i].gs);
    }
  }

  /** What becomes of a proposal: all of its nodes are freed, or the refused ones are and the
      rest is a proposal again. */
  ghost predicate Outcome(policy: Policy, p: Pair?, b: Body)
    requires Separate(b)
    reads Members(b)
  {
    if Dropped(policy, BodyValues(b)) then p == null && Dead(Members(b))
    else Standing(p, LeftBody(policy, b)) && Spared(b, LeftBody(policy, b))
  }

  /** What the loop over the protocols has counted and seen after i of them. */
  ghost predicate Seen(policy: Policy, v: Proposal, i: nat, removed: nat, drop: bool) {
    && i <= |v| && removed == RefusedProtocols(policy, v, i)
    && (drop <==> exists k | 0 <= k < i :: Emptied(policy, v[k]))
  }

  lemma SeenStep(policy: Policy, v: Proposal, i: nat, removed: nat, drop: bool)
    requires Seen(policy, v, i, removed, drop) && i < |v|
    ensures Seen(policy, v, i + 1, removed + RefusedBefore(policy, v[i].context, v[i].groups, |v[i].groups|),
                 drop || Emptied(policy, v[i]))
  {
  }

  /** The loop has done i protocols and comes to proto. */
  ghost predicate Midway(policy: Policy, b: Body, i: nat, proto: Pair?, removed: nat, drop: bool)
    reads Members(b)
  {
    Partly(policy, b, i) && proto == ProtoAt(b, i) && Seen(policy, BodyValues(b), i, removed, drop)
  }

  lemma MidwayStarts(policy: Policy, first: Pair?, b: Body)
    requires Standing(first, b)
    ensures Midway(policy, b, 0, first, 0, false)
  {
    forall l: nat | l < |b.protos| ensures Stands(b, l) {
      var next := NextProto(b, l);
    }
  }

  lemma MidwayEnds(policy: Policy, b: Body, i: nat, removed: nat, drop: bool)
    requires Midway(policy, b, i, null, removed, drop)
    ensures Partly(policy, b, |b.protos|)
    ensures removed == RefusedProtocols(policy, BodyValues(b), |b.protos|) && (drop <==> Dropped(policy, BodyValues(b)))
  {
    assert i == |b.protos|;
  }

  lemma ValueAt(b: Body, i: nat)
    requires i < |b.protos| && i < |b.parts|
    ensures BodyValues(b)[i] == Protocol(b.protos[i].context, GroupValues(b.parts[i].gs))
  {
  }

  method CountedNext(policy: Policy, proto: Pair, removed: nat, drop: bool, ghost b: Body, ghost i: nat)
    returns (next: Pair?, removed': nat, drop': bool)
    requires Midway(policy, b, i, proto, removed, drop)
    modifies Members(b)
    ensures Midway(policy, b, i + 1, next, removed', drop') && i < |b.protos|
  {
    SeenStep(policy, BodyValues(b), i, removed, drop);
    ValueAt(b, i);
    var more, emptied;
    next, more, emptied := FilterNext(policy, proto, b, i);
    removed', drop' := removed + more, drop || emptied;
  }

  /** The loop over the protocols. */
  method FilterProtocols(policy: Policy, first: Pair, ghost b: Body) returns (removed: nat, drop: bool)
    requires Standing(first, b)
    modifies Members(b)
    ensures Partly(policy, b, |b.protos|)
    ensures removed == RefusedProtocols(policy, BodyValues(b), |b.protos|) && (drop <==> Dropped(policy, BodyValues(b)))
  {
    var proto: Pair? := first;
    removed, drop := 0, false;
    ghost var i: nat := 0;
    MidwayStarts(policy, first, b);
    while proto != null
      invariant Midway(policy, b, i, proto, removed, drop)
      decreases |b.protos| - i
    {
      proto, removed, drop := CountedNext(policy, proto, removed, drop, b, i);
      i := i + 1;
    }
    MidwayEnds(policy, b, i, removed, drop);
  }

  /** One proposal: filter its protocols and discard it if some group has been emptied. */
  method FilterProposal(policy: Policy, first: Pair, ghost b: Body) returns (p: Pair?, removed: nat)
    requires Standing(first, b)
    modifies Members(b)
    ensures Outcome(policy, p, b)
    ensures removed == RefusedProtocols(policy, BodyValues(b), |b.protos|)
  {
    var drop;
    removed, drop := FilterProtocols(policy, first, b);
    LeftStands(policy, b);
    LeftIsSpared(policy, b);
    p := first;
    if drop {
      DiscardBody(first, LeftBody(policy, b));
      p := null;
    }
  }

  // ---------------------------------------------------------------- the proposal numbers

  type Slots = seq<Option<Body>>

  ghost predicate InSlot(body: Option<Body>, slot: map<Pair, nat>, s: nat) {
    body.Some? ==> Separate(body.value) && forall n | n in Members(body.value) :: n in slot && slot[n] == s
  }

  /** No node belongs to two proposals. */
  ghost predicate Sorted(bodies: Slots, slot: map<Pair, nat>) {
    forall s: nat | s < |bodies| :: InSlot(bodies[s], slot, s)
  }

  ghost function SlotMembers(body: Option<Body>): set<Pair> {
    if body.Some? then Members(body.value) else {}
  }

  /** The pointer is null or leads to the proposal. */
  ghost predicate Holds(p: Pair?, body: Option<Body>)
    reads SlotMembers(body)
  {
    if body.Some? then Standing(p, body.value) else p == null
  }

  /** The list of pointers with the proposals that hang on it. */
  ghost predicate IsList(list: array<Pair?>, bodies: Slots, slot: map<Pair, nat>)
    reads list, slot.Keys
  {
    && list.Length == |bodies| && Sorted(bodies, slot)
    && forall s: nat | s < |bodies| :: Holds(list[s], bodies[s])
  }

  ghost function SlotValues(bodies: Slots): (r: seq<Option<Proposal>>)
    ensures |r| == |bodies|
  {
    seq(|bodies|, s requires 0 <= s < |bodies| => if bodies[s].Some? then Some(BodyValues(bodies[s].value)) else None)
  }

  ghost function LeftSlot(policy: Policy, body: Option<Body>): Option<Body>
    requires body.Some? ==> Separate(body.value)
  {
    if body.None? || Dropped(policy, BodyValues(body.value)) then None else Some(LeftBody(policy, body.value))
  }

  /** The proposals that are left in their slots. */
  ghost function LeftSlots(policy: Policy, bodies: Slots, slot: map<Pair, nat>): (r: Slots)
    requires Sorted(bodies, slot)
    ensures |r| == |bodies|
  {
    seq(|bodies|, s requires 0 <= s < |bodies| => LeftSlot(policy, bodies[s]))
  }

  /** The slot after the filter: a node is live exactly if it is still in it. */
  ghost predicate Swept(policy: Policy, p: Pair?, body: Option<Body>)
    requires body.Some? ==> Separate(body.value)
    reads SlotMembers(body)
  {
    if body.Some? then Outcome(policy, p, body.value) else p == null
  }

  /** Where the loop over the slots stands. */
  ghost predicate Sweeping(policy: Policy, list: array<Pair?>, bodies: Slots, slot: map<Pair, nat>, i: nat)
    reads list, slot.Keys
  {
    && list.Length == |bodies| && i <= |bodies| && Sorted(bodies, slot)
    && forall s: nat {:trigger bodies[s]} | s < |bodies| ::
         if s < i then Swept(policy, list[s], bodies[s]) else Holds(list[s], bodies[s])
  }

  /** The slots other than i: those before it are done, those after it as received. */
  ghost predicate OthersAt(policy: Policy, list: array<Pair?>, bodies: Slots, slot: map<Pair, nat>, i: nat)
    requires list.Length == |bodies| && Sorted(bodies, slot)
    reads list, slot.Keys
  {
    forall s: nat {:trigger bodies[s]} | s < |bodies| && s != i ::
      if s < i then Swept(policy, list[s], bodies[s]) else Holds(list[s], bodies[s])
  }

  /** One proposal: the others do not notice. */
  method SweepBody(policy: Policy, list: array<Pair?>, ghost bodies: Slots, ghost slot: map<Pair, nat>, ghost i: nat, first: Pair)
    returns (p: Pair?, removed: nat)
    requires list.Length == |bodies| && Sorted(bodies, slot) && i < |bodies|
    requires OthersAt(policy, list, bodies, slot, i) && Holds(first, bodies[i])
    modifies slot.Keys
    ensures OthersAt(policy, list, bodies, slot, i) && Swept(policy, p, bodies[i])
    ensures removed == RefusedProtocols(policy, BodyValues(bodies[i].value), |bodies[i].value.protos|)
  {
    assert InSlot(bodies[i], slot, i);
    p, removed := FilterProposal(policy, first, bodies[i].value);
    forall s: nat | s < |bodies| && s != i
      ensures if s < i then Swept(policy, list[s], bodies[s]) else Holds(list[s], bodies[s])
    {
      assert InSlot(bodies[s], slot, s);
      assert old(if s < i then Swept(policy, list[s], bodies[s]) else Holds(list[s], bodies[s]));
    }
  }

  /** One slot. */
  method SweepSlot(policy: Policy, list: array<Pair?>, ghost bodies: Slots, ghost slot: map<Pair, nat>, i: nat)
    returns (removed: nat)
    requires Sweeping(policy, list, bodies, slot, i) && i < list.Length
    modifies list, slot.Keys
    ensures Sweeping(policy, list, bodies, slot, i + 1)
    ensures removed == if bodies[i].None? then 0
                       else RefusedProtocols(policy, BodyValues(bodies[i].value), |bodies[i].value.protos|)
  {
    assert Holds(list[i], bodies[i]);
    removed := 0;
    if list[i] != null {
      var p;
      p, removed := SweepBody(policy, list, bodies, slot, i, list[i]);
      StoreSlot(policy, list, bodies, slot, i, p);
    }
  }

  method StoreSlot(policy: Policy, list: array<Pair?>, ghost bodies: Slots, ghost slot: map<Pair, nat>, i: nat, p: Pair?)
    requires list.Length == |bodies| && Sorted(bodies, slot) && i < |bodies|
    requires OthersAt(policy, list, bodies, slot, i) && Swept(policy, p, bodies[i])
    modifies list
    ensures Sweeping(policy, list, bodies, slot, i + 1)
  {
    list[i] := p;
    forall s: nat | s < |bodies|
      ensures if s < i + 1 then Swept(policy, list[s], bodies[s]) else Holds(list[s], bodies[s])
    {
      if s != i {
        assert old(if s < i then Swept(policy, list[s], bodies[s]) else Holds(list[s], bodies[s]));
      }
    }
  }

  /** Every node of the old proposal has been freed or is in the new one, and not both. */
  ghost predicate Accounted(body: Option<Body>, left: Option<Body>)
    reads SlotMembers(body)`live
  {
    forall n | n in SlotMembers(body) :: n.live <==> n in SlotMembers(left)
  }

  lemma SweptSlot(policy: Policy, p: Pair?, body: Option<Body>, slot: map<Pair, nat>, s: nat)
    requires InSlot(body, slot, s) && Swept(policy, p, body)
    ensures var left := LeftSlot(policy, body);
      InSlot(left, slot, s) && Holds(p, left) && Accounted(body, left)
  {
    if body.Some? && !Dropped(policy, BodyValues(body.value)) {
      LeftIsSeparate(policy, body.value);
    }
  }

  ghost predicate AllAccounted(bodies: Slots, left: Slots, slot: map<Pair, nat>)
    requires Sorted(bodies, slot) && |left| == |bodies|
    reads slot.Keys`live
  {
    forall s: nat {:trigger bodies[s]} | s < |bodies| :: Accounted(bodies[s], left[s])
  }

  lemma SweptList(policy: Policy, list: array<Pair?>, bodies: Slots, slot: map<Pair, nat>)
    requires Sweeping(policy, list, bodies, slot, |bodies|)
    ensures var left := LeftSlots(policy, bodies, slot);
      IsList(list, left, slot) && AllAccounted(bodies, left, slot)
  {
    var left := LeftSlots(policy, bodies, slot);
    forall s: nat | s < |bodies|
      ensures InSlot(left[s], slot, s) && Holds(list[s], left[s]) && Accounted(bodies[s], left[s])
    {
      SweptSlot(policy, list[s], bodies[s], slot, s);
    }
  }

  /** The loop has done i slots and counted what was refused in them. */
  ghost predicate SweepAt(policy: Policy, list: array<Pair?>, bodies: Slots, slot: map<Pair, nat>, i: nat, removed: nat)
    reads list, slot.Keys
  {
    Sweeping(policy, list, bodies, slot, i) && removed == RefusedSlots(policy, SlotValues(bodies), i)
  }

  lemma SweepStarts(policy: Policy, list: array<Pair?>, bodies: Slots, slot: map<Pair, nat>)
    requires IsList(list, bodies, slot)
    ensures SweepAt(policy, list, bodies, slot, 0, 0)
  {
  }

  method CountedSweep(policy: Policy, list: array<Pair?>, ghost bodies: Slots, ghost slot: map<Pair, nat>, i: nat, removed: nat)
    returns (removed': nat)
    requires SweepAt(policy, list, bodies, slot, i, removed) && i < list.Length
    modifies list, slot.Keys
    ensures SweepAt(policy, list, bodies, slot, i + 1, removed')
  {
    var more := SweepSlot(policy, list, bodies, slot, i);
    removed' := removed + more;
  }

  method SweepAll(policy: Policy, list: array<Pair?>, ghost bodies: Slots, ghost slot: map<Pair, nat>) returns (removed: nat)
    requires IsList(list, bodies, slot)
    modifies list, slot.Keys
    ensures SweepAt(policy, list, bodies, slot, list.Length, removed)
  {
    SweepStarts(policy, list, bodies, slot);
    removed := 0;
    var i := 0;
    while i < list.Length
      invariant i <= list.Length && SweepAt(policy, list, bodies, slot, i, removed)
    {
      removed := CountedSweep(policy, list, bodies, slot, i, removed);
      i := i + 1;
    }
  }

  /** The loop over the proposal numbers.  Afterwards the slots hold what the filter on values
      leaves of them; every node has been freed once or is still in its proposal; the result is
      the number of places whose transform the policy refuses in the context of its protocol. */
  method FilterSlots(policy: Policy, list: array<Pair?>, ghost bodies: Slots, ghost slot: map<Pair, nat>)
    returns (removed: nat, ghost refused: set<Place>)
    requires IsList(list, bodies, slot)
    modifies list, slot.Keys
    ensures IsList(list, LeftSlots(policy, bodies, slot), slot)
    ensures SlotValues(LeftSlots(policy, bodies, slot)) == FilterList(policy, SlotValues(bodies))
    ensures AllAccounted(bodies, LeftSlots(policy, bodies, slot), slot)
    ensures AreRefusals(policy, SlotValues(bodies), refused) && removed == |refused|
  {
    removed := SweepAll(policy, list, bodies, slot);
    refused := RefusedIsCount(policy, SlotValues(bodies));
    SweptList(policy, list, bodies, slot);
    LeftSlotValues(policy, bodies, slot);
  }

  /** What can be selected from the list that is left is what could be selected before with
      nothing refused. */
  lemma SelectionsLeft(policy: Policy, bodies: Slots, slot: map<Pair, nat>, s: nat, sel: Selection)
    requires Sorted(bodies, slot) && s < |bodies| && bodies[s].Some?
    ensures var b, left := bodies[s].value, LeftSlots(policy, bodies, slot)[s];
      left.Some? && IsSelection(sel, BodyValues(left.value)) <==>
      && IsSelection(sel, BodyValues(b))
      && forall i, k | 0 <= i < |b.protos| && 0 <= k < |sel[i]| && sel[i][k].Some? ::
           !policy(b.protos[i].context, sel[i][k].value)
  {
    var b := bodies[s].value;
    FilterKeepsSelections(policy, BodyValues(b), sel);
    if !Dropped(policy, BodyValues(b)) {
      LeftBodyValues(policy, b);
    }
  }

  lemma LeftSlotValues(policy: Policy, bodies: Slots, slot: map<Pair, nat>)
    requires Sorted(bodies, slot)
    ensures SlotValues(LeftSlots(policy, bodies, slot)) == FilterList(policy, SlotValues(bodies))
  {
    var left := LeftSlots(policy, bodies, slot);
    forall s: nat | s < |bodies| ensures SlotValues(left)[s] == FilterList(policy, SlotValues(bodies))[s] {
      assert InSlot(bodies[s], slot, s);
      if bodies[s].Some? && !Dropped(policy, BodyValues(bodies[s].value)) {
        LeftBodyValues(policy, bodies[s].value);
      }
    }
  }

  /** A second call on the list that is left would refuse nothing and keep every proposal. */
  lemma NothingForSecondCall(policy: Policy, bodies: Slots, slot: map<Pair, nat>)
    requires Sorted(bodies, slot)
    ensures var v := SlotValues(LeftSlots(policy, bodies, slot));
      RefusedSlots(policy, v, |v|) == 0 && FilterList(policy, v) == v
  {
    LeftSlotValues(policy, bodies, slot);
    FilterTwice(policy, SlotValues(bodies));
    NoneLeft(policy, SlotValues(bodies), |bodies|);
  }
}
