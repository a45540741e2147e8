/** Additional key exchanges (RFC 9370): how the rounds are put into an offer, how the plain
    fallback proposal is made, and that no proposal ever names a round twice. */
module Addke {
  import opened Arith
  import opened Wrappers
  import opened Proposals

  const ADDKE: nat := 6               // transform type of the first round
  const ADDKE_MAX_ROUND: nat := 6
  const ROUNDS: nat := 7
  const DH: nat := 4
  const ML_KEM_768: nat := 36
  const METHOD_NONE: nat := 0

  /** Configured key exchange methods, as far as the two translation tables know them. */
  datatype Alg = MlKem512 | MlKem768 | MlKem1024 | NoAddke | DhGroup(group: nat) | Unknown

  /** The transform id: first from the ADDKE table, then from the table of DH groups; 0 when
      there is none. */
  function Code(a: Alg): nat {
    match a
    case MlKem512 => 35
    case MlKem768 => ML_KEM_768
    case MlKem1024 => 37
    case DhGroup(group) => group
    case _ => 0
  }

  predicate IsAddkeType(t: nat) {
    ADDKE <= t <= ADDKE + ADDKE_MAX_ROUND
  }

  /** A group is of the type of its first alternative. */
  predicate IsAddke(g: Group) {
    g != [] && g[0].Some? && IsAddkeType(g[0].value.ttype)
  }

  predicate HasAddke(gs: seq<Group>) {
    exists k | 0 <= k < |gs| :: IsAddke(gs[k])
  }

  // ---------------------------------------------------------------- the rounds

  /** The methods that count: those past the seventh are ignored. */
  function Counted(algs: seq<Alg>): seq<Alg> {
    algs[..Min(|algs|, ROUNDS)]
  }

  predicate Buildable(algs: seq<Alg>) {
    && (forall i | 0 <= i < |algs| :: Code(algs[i]) != 0)
    && (forall i, k | 0 <= i < k < |algs| :: Code(algs[i]) != Code(algs[k]))
  }

  function Round(r: nat, a: Alg): Group {
    [Some(Transform(ADDKE + r, Code(a)))]
  }

  function Rounds(algs: seq<Alg>): (r: seq<Group>)
    ensures |r| == |algs|
  {
    seq(|algs|, i requires 0 <= i < |algs| => Round(i, algs[i]))
  }

  function Chain(algs: seq<Alg>, alloc: bool): seq<Group> {
    if alloc && Buildable(Counted(algs)) then Rounds(Counted(algs)) else []
  }

  /** alglist_to_addke_proppair: one group per method at types 6, 7, ...; nothing at all when
      a method is unknown or listed twice, or when alloc says that the memory for a group
      cannot be had. */
  method BuildRounds(algs: seq<Alg>, alloc: bool) returns (chain: seq<Group>)
    ensures chain == Chain(algs, alloc)
  {
    chain := [];
    var seen: seq<nat> := [];
    var round := 0;
    while round < |algs| && round < ROUNDS
      invariant round <= |algs| && round <= ROUNDS
      invariant chain == Rounds(algs[..round])
      invariant |seen| == round && forall i | 0 <= i < round :: seen[i] == Code(algs[i])
      invariant forall i | 0 <= i < round :: seen[i] != 0
      invariant forall i, k | 0 <= i < k < round :: seen[i] != seen[k]
      invariant !alloc ==> round == 0
    {
      var code := Code(algs[round]);
      if code == 0 {
        assert Counted(algs)[round] == algs[round];
        return [];
      }
      var i := 0;
      while i < round
        invariant i <= round && forall k | 0 <= k < i :: seen[k] != code
      {
        if seen[i] == code {
          assert Counted(algs)[i] == algs[i] && Counted(algs)[round] == algs[round];
          return [];
        }
        i := i + 1;
      }
      if !alloc {
        return [];
      }
      seen := seen + [code];
      chain := chain + [[Some(Transform(ADDKE + round, code))]];
      round := round + 1;
    }
    assert algs[..round] == Counted(algs);
  }

  /** At most one group per ADDKE type. */
  predicate NoTypeTwice(gs: seq<Group>) {
    forall i, k | 0 <= i < k < |gs| && IsAddke(gs[i]) && IsAddke(gs[k]) :: gs[i][0].value.ttype != gs[k][0].value.ttype
  }

  /** The rounds are numbered upwards from type 6, at most seven of them, with different
      methods. */
  lemma RoundsAreNumbered(algs: seq<Alg>)
    requires Buildable(Counted(algs))
    ensures var rs := Rounds(Counted(algs));
      && |rs| <= ROUNDS && NoTypeTwice(rs)
      && (forall k | 0 <= k < |rs| :: IsAddke(rs[k]) && rs[k][0].value == Transform(ADDKE + k, Code(algs[k])))
      && (forall i, k | 0 <= i < k < |rs| :: rs[i][0].value.id != rs[k][0].value.id)
  {
  }

  // ---------------------------------------------------------------- the IKE SA offer

  /** Proposal number and groups of the IKE protocol, and whatever else belongs to it. */
  datatype IkeProposal = IkeProposal(number: nat, groups: seq<Group>, others: Proposal)

  function Plain(gs: seq<Group>): (r: seq<Group>)
    ensures !HasAddke(r)
  {
    if gs == [] then [] else (if IsAddke(gs[0]) then [] else [gs[0]]) + Plain(gs[1..])
  }

  lemma {:induction false} PlainOfPlain(gs: seq<Group>)
    requires !HasAddke(gs)
    ensures Plain(gs) == gs
  {
    if gs != [] {
      assert !IsAddke(gs[0]);
      forall k | 0 <= k < |gs[1..]| ensures !IsAddke(gs[1..][k]) {
        assert !IsAddke(gs[k + 1]);
      }
      PlainOfPlain(gs[1..]);
    }
  }

  lemma {:induction false} PlainAppend(gs: seq<Group>, more: seq<Group>)
    requires forall k | 0 <= k < |more| :: IsAddke(more[k])
    ensures Plain(gs + more) == Plain(gs)
  {
    if gs != [] {
      assert (gs + more)[1..] == gs[1..] + more;
      PlainAppend(gs[1..], more);
    } else if more != [] {
      assert gs + more == more && more[1..] == [] + more[1..];
      PlainAppend([], more[1..]);
    }
  }

  /** Whether the memory for new groups and for the copy of a proposal can be had. */
  datatype Memory = Memory(groups: bool, clone: bool)

  /** The rounds to be offered: none when the configuration says so or cannot be built. */
  function ToOffer(offer: seq<Alg>, mem: Memory): seq<Group> {
    if offer == [] then
      if mem.groups then [[Some(Transform(ADDKE, ML_KEM_768)), Some(Transform(ADDKE, METHOD_NONE))]] else []
    else if offer[0] == NoAddke then []
    else Chain(offer, mem.groups)
  }

  /** The loop that takes the ADDKE groups out of the copy. */
  method DropAddke(groups: seq<Group>) returns (kept: seq<Group>)
    ensures kept == Plain(groups)
  {
    kept := [];
    var k := 0;
    while k < |groups|
      invariant k <= |groups| && kept + Plain(groups[k..]) == Plain(groups)
    {
      PlainStep(groups[k..]);
      assert groups[k..][1..] == groups[k + 1..];
      if !IsAddke(groups[k]) {
        kept := kept + [groups[k]];
      }
      k := k + 1;
    }
    assert kept + [] == kept;
  }

  lemma PlainStep(gs: seq<Group>)
    requires gs != []
    ensures Plain(gs) == (if IsAddke(gs[0]) then [] else [gs[0]]) + Plain(gs[1..])
  {
  }

  class Offer {
    var first: Option<IkeProposal>    // proplist[1]
    var second: Option<IkeProposal>   // proplist[2]

    constructor (first: Option<IkeProposal>, second: Option<IkeProposal>)
      ensures this.first == first && this.second == second
    {
      this.first, this.second := first, second;
    }

    /** ikev2_add_plain_proposal2. */
    method AddPlainProposal(clone: bool)
      modifies this`second
      ensures second == if first.Some? && old(second).None? && clone
                        then Some(first.value.(number := 2, groups := Plain(first.value.groups))) else old(second)
    {
      if first.None? || second.Some? || !clone {
        return;
      }
      var kept := DropAddke(first.value.groups);
      second := Some(first.value.(number := 2, groups := kept));
    }

    /** ikev2_maybe_offer_ikesa_addke. */
    method MaybeOffer(offer: seq<Alg>, mem: Memory) returns (present: bool)
      modifies this
      ensures present == WillOffer(old(first), offer, mem)
      ensures first == OfferedFirst(old(first), offer, mem)
      ensures second == OfferedSecond(old(first), old(second), offer, mem)
    {
      if first.None? {
        return false;
      }
      if HasAddke(first.value.groups) {
        return true;
      }
      assert first.value.groups + [] == first.value.groups;
      if offer != [] && offer[0] == NoAddke {
        return false;
      }
      var chain;
      if offer != [] {
        chain := BuildRounds(offer, mem.groups);
        if chain == [] {
          return false;
        }
      } else if !mem.groups {
        return false;
      } else {
        chain := [[Some(Transform(ADDKE, ML_KEM_768)), Some(Transform(ADDKE, METHOD_NONE))]];
      }
      ghost var was := first.value.groups;
      first := Some(first.value.(groups := first.value.groups + chain));
      AddPlainProposal(mem.clone);
      ToOfferIsAddke(offer, mem);
      PlainAppend(was, chain);
      PlainOfPlain(was);
      return true;
    }
  }

  lemma ToOfferIsAddke(offer: seq<Alg>, mem: Memory)
    ensures forall k | 0 <= k < |ToOffer(offer, mem)| :: IsAddke(ToOffer(offer, mem)[k])
    ensures NoTypeTwice(ToOffer(offer, mem)) && |ToOffer(offer, mem)| <= ROUNDS
  {
  }

  /** Whether the first proposal carries ADDKE after the call. */
  predicate WillOffer(first: Option<IkeProposal>, offer: seq<Alg>, mem: Memory) {
    first.Some? && (HasAddke(first.value.groups) || ToOffer(offer, mem) != [])
  }

  function OfferedFirst(first: Option<IkeProposal>, offer: seq<Alg>, mem: Memory): Option<IkeProposal> {
    if first.None? || HasAddke(first.value.groups) then first
    else Some(first.value.(groups := first.value.groups + ToOffer(offer, mem)))
  }

  /** The second proposal is the first as it was before the call, under number 2. */
  function OfferedSecond(first: Option<IkeProposal>, second: Option<IkeProposal>, offer: seq<Alg>, mem: Memory): Option<IkeProposal> {
    if !WillOffer(first, offer, mem) || HasAddke(first.value.groups) || second.Some? || !mem.clone then second
    else Some(first.value.(number := 2))
  }

  lemma HasAddkeAppend(gs: seq<Group>, more: seq<Group>)
    ensures HasAddke(gs + more) <==> HasAddke(gs) || HasAddke(more)
  {
    var all := gs + more;
    if HasAddke(all) {
      var k :| 0 <= k < |all| && IsAddke(all[k]);
      assert if k < |gs| then all[k] == gs[k] else all[k] == more[k - |gs|];
    }
    if HasAddke(gs) {
      var k :| 0 <= k < |gs| && IsAddke(gs[k]);
      assert all[k] == gs[k];
    }
    if HasAddke(more) {
      var k :| 0 <= k < |more| && IsAddke(more[k]);
      assert all[k + |gs|] == more[k];
    }
  }

  /** The offer on a proposal without ADDKE: the old groups stay in front, the rounds follow;
      stripping them gives the old groups back, which is what the second proposal holds; and
      a second call changes nothing, whatever list and whatever memory it is given. */
  lemma OfferRoundTrip(first: IkeProposal, second: Option<IkeProposal>, offer: seq<Alg>, mem: Memory,
                       again: seq<Alg>, later: Memory)
    requires !HasAddke(first.groups) && ToOffer(offer, mem) != []
    ensures var f, s := OfferedFirst(Some(first), offer, mem), OfferedSecond(Some(first), second, offer, mem);
      && f == Some(first.(groups := first.groups + ToOffer(offer, mem)))
      && Plain(f.value.groups) == first.groups
      && (second.None? && mem.clone ==> s == Some(first.(number := 2)))
      && OfferedFirst(f, again, later) == f && OfferedSecond(f, s, again, later) == s && WillOffer(f, again, later)
  {
    ToOfferIsAddke(offer, mem);
    PlainAppend(first.groups, ToOffer(offer, mem));
    PlainOfPlain(first.groups);
    HasAddkeAppend(first.groups, ToOffer(offer, mem));
    assert IsAddke(ToOffer(offer, mem)[0]);
  }

  // ---------------------------------------------------------------- the child SA offer

  /** What the configuration and the state of the IKE SA give to the child-offer builder:
      the groups for encryption, integrity and DH if they are offered, and the ADDKE methods
      if the gate is open. A group that could not be converted or allocated is empty. */
  datatype ChildConf = ChildConf(encr: Option<Group>, integ: Option<Group>, addke: Option<seq<Alg>>, dh: Option<Group>, esn: Group, alloc: bool)

  /** What the ordinary translation tables give is not of an ADDKE type. */
  predicate IsChildConf(c: ChildConf) {
    && (c.encr.Some? ==> !IsAddke(c.encr.value)) && (c.integ.Some? ==> !IsAddke(c.integ.value))
    && (c.dh.Some? ==> !IsAddke(c.dh.value)) && !IsAddke(c.esn)
  }

  /** Some part that is asked for cannot be made. */
  predicate Unbuildable(c: ChildConf) {
    || c.encr == Some([]) || c.integ == Some([]) || c.dh == Some([]) || c.esn == []
    || (c.addke.Some? && Chain(c.addke.value, c.alloc) == [])
  }

  function Optional(g: Option<Group>): seq<Group> {
    if g.Some? then [g.value] else []
  }

  /** Store a chain through the tail pointer, which designates the link after tail groups,
      and move the pointer to the next field of the chain's first node: whatever hung on that
      link before, and later the rest of the chain, is cut off. */
  function Store(list: seq<Group>, tail: nat, chain: seq<Group>): seq<Group>
    requires tail <= |list|
  {
    list[..tail] + chain
  }

  /** The first round, which is all that the builder's list keeps of the chain. */
  function FirstRound(c: ChildConf): seq<Group> {
    if c.addke.Some? && Chain(c.addke.value, c.alloc) != [] then [Chain(c.addke.value, c.alloc)[0]] else []
  }

  function Built(c: ChildConf): seq<Group> {
    Optional(c.encr) + Optional(c.integ) + FirstRound(c) + Optional(c.dh) + [c.esn]
  }

  /** ikev2_ipsec_sa_to_proplist: None when a part cannot be made. */
  method BuildChild(c: ChildConf) returns (r: Option<seq<Group>>)
    ensures r == if Unbuildable(c) then None else Some(Built(c))
  {
    var list: seq<Group>, tail: nat := [], 0;
    if c.encr.Some? {
      if c.encr.value == [] {
        return None;
      }
      list, tail := Store(list, tail, [c.encr.value]), tail + 1;
    }
    if c.integ.Some? {
      if c.integ.value == [] {
        return None;
      }
      list, tail := Store(list, tail, [c.integ.value]), tail + 1;
    }
    ghost var front := list;
    assert front == Optional(c.encr) + Optional(c.integ) && tail == |list|;
    if c.addke.Some? {
      var chain := BuildRounds(c.addke.value, c.alloc);
      if chain == [] {
        return None;
      }
      list, tail := Store(list, tail, chain), tail + 1;
    }
    ghost var middle := list[..tail];
    assert middle == front + FirstRound(c);
    if c.dh.Some? {
      if c.dh.value == [] {
        return None;
      }
      list, tail := Store(list, tail, [c.dh.value]), tail + 1;
    }
    assert list[..tail] == middle + Optional(c.dh);
    if c.esn == [] {
      return None;
    }
    list := Store(list, tail, [c.esn]);
    r := Some(list);
  }

  /** The builder offers every configured round exactly when there is at most one of them. */
  lemma BuilderKeepsOneRound(c: ChildConf, algs: seq<Alg>)
    requires IsChildConf(c) && c.addke == Some(algs) && c.alloc && Buildable(Counted(algs))
    ensures (forall g | g in Rounds(Counted(algs)) :: g in Built(c)) <==> |algs| <= 1
  {
    var rounds := Rounds(Counted(algs));
    if |algs| > 1 {
      var second := Round(1, algs[1]);
      assert second == rounds[1];
      assert IsAddke(second) && second != rounds[0];
      assert second !in Built(c);
    } else if |algs| == 1 {
      assert rounds[0] in FirstRound(c);
    }
  }

  /** A two-method list, built without a failure: the second round is not offered. */
  lemma SecondRoundLost(c: ChildConf, group: nat)
    requires IsChildConf(c) && !Unbuildable(c)
    requires c.addke == Some([MlKem768, DhGroup(group)]) && group > 0 && group != ML_KEM_768
    ensures Round(1, DhGroup(group)) in Rounds(c.addke.value) && Round(1, DhGroup(group)) !in Built(c)
  {
    var algs := c.addke.value;
    assert Counted(algs) == algs;
    BuilderKeepsOneRound(c, algs);
    assert Rounds(algs)[1] == Round(1, DhGroup(group)) && Rounds(algs)[0] in FirstRound(c);
  }

  /** One IPsec configuration of the selector's policy: the ADDKE methods that its ESP and its
      AH parameters list, if it has them. */
  datatype IpsecConf = IpsecConf(esp: Option<seq<Alg>>, ah: Option<seq<Alg>>)

  /** What can happen to the proposal of a child SA. */
  datatype ChildOp =
    | Build(conf: ChildConf)
    | ResponderAppend(algs: seq<Alg>, alloc: bool)   // CREATE_CHILD_SA responder with esp_addke_alg
    | Reoffer(gate: bool, confs: seq<IpsecConf>, alloc: bool)   // rekey
    | AddRekeyDh(force: bool, confs: seq<IpsecConf>, dh: Group)

  predicate IsChildOp(op: ChildOp) {
    match op
    case Build(c) => IsChildConf(c)
    case AddRekeyDh(_, _, dh) => !IsAddke(dh)
    case _ => true
  }

  predicate HasType(gs: seq<Group>, t: nat) {
    exists k | 0 <= k < |gs| :: gs[k] != [] && gs[k][0].Some? && gs[k][0].value.ttype == t
  }

  function Listed(methods: Option<seq<Alg>>): seq<Alg> {
    if methods.Some? then methods.value else []
  }

  /** The ESP methods of the first configuration that lists any. */
  function FirstListed(confs: seq<IpsecConf>): seq<Alg> {
    if confs == [] then [] else if Listed(confs[0].esp) != [] then Listed(confs[0].esp) else FirstListed(confs[1..])
  }

  /** The ESP parameters, or the AH parameters of a configuration without ESP, list a method. */
  predicate WantsAddke(conf: IpsecConf) {
    Listed(if conf.esp.Some? then conf.esp else conf.ah) != []
  }

  predicate SomeWantsAddke(confs: seq<IpsecConf>) {
    exists k | 0 <= k < |confs| :: WantsAddke(confs[k])
  }

  function Apply(gs: seq<Group>, op: ChildOp): seq<Group> {
    match op
    case Build(c) => if Unbuildable(c) then [] else Built(c)
    case ResponderAppend(algs, alloc) => if HasAddke(gs) then gs else gs + Chain(algs, alloc)
    case Reoffer(gate, confs, alloc) => if !gate || HasAddke(gs) then gs else gs + Chain(FirstListed(confs), alloc)
    case AddRekeyDh(force, confs, dh) =>
      if HasType(gs, DH) || !(force || SomeWantsAddke(confs)) || dh == [] then gs else gs + [dh]
  }

  function ApplyAll(gs: seq<Group>, ops: seq<ChildOp>): seq<Group>
    decreases |ops|
  {
    if ops == [] then gs else ApplyAll(Apply(gs, ops[0]), ops[1..])
  }

  /** The transform groups of a child SA's proposal, changed in place. */
  class ChildProposal {
    var groups: seq<Group>

    constructor (groups: seq<Group>)
      ensures this.groups == groups
    {
      this.groups := groups;
    }

    /** The CREATE_CHILD_SA responder's own offer. */
    method AppendAsResponder(algs: seq<Alg>, alloc: bool)
      modifies this
      ensures groups == Apply(old(groups), ResponderAppend(algs, alloc))
    {
      if algs != [] && !HasAddke(groups) {
        var chain := BuildRounds(algs, alloc);
        groups := groups + chain;
      }
      assert old(groups) + [] == old(groups) && Rounds([]) == [];
    }

    /** ikev2_child_maybe_reoffer_addke. */
    method MaybeReoffer(gate: bool, confs: seq<IpsecConf>, alloc: bool)
      modifies this
      ensures groups == Apply(old(groups), Reoffer(gate, confs, alloc))
    {
      assert groups + [] == groups;
      if !gate || HasAddke(groups) {
        return;
      }
      var k := 0;
      while k < |confs|
        invariant k <= |confs| && groups == old(groups) && FirstListed(confs[k..]) == FirstListed(confs)
      {
        if Listed(confs[k].esp) != [] {
          var chain := BuildRounds(Listed(confs[k].esp), alloc);
          groups := groups + chain;
          return;
        }
        assert confs[k..][1..] == confs[k + 1..];
        k := k + 1;
      }
      assert Rounds([]) == [];
    }

    /** ikev2_child_add_rekey_dh; true when a DH group was appended. */
    method AddRekeyGroup(force: bool, confs: seq<IpsecConf>, dh: Group) returns (added: bool)
      modifies this
      ensures groups == Apply(old(groups), AddRekeyDh(force, confs, dh))
      ensures added <==> groups != old(groups)
    {
      if HasType(groups, DH) {
        return false;
      }
      var want, k := force, 0;
      while k < |confs| && !want
        invariant k <= |confs| && groups == old(groups)
        invariant want <==> force || exists i | 0 <= i < k :: WantsAddke(confs[i])
      {
        want := WantsAddke(confs[k]);
        k := k + 1;
      }
      if !want || dh == [] {
        return false;
      }
      groups := groups + [dh];
      assert |groups| == |old(groups)| + 1;
      added := true;
    }
  }

  lemma AppendToPlain(gs: seq<Group>, more: seq<Group>)
    requires NoTypeTwice(more) && !HasAddke(gs)
    ensures NoTypeTwice(gs + more)
  {
    forall k | 0 <= k < |gs| ensures !IsAddke((gs + more)[k]) {
      assert (gs + more)[k] == gs[k];
    }
  }

  lemma AppendPlain(gs: seq<Group>, g: Group)
    requires NoTypeTwice(gs) && !IsAddke(g)
    ensures NoTypeTwice(gs + [g])
  {
  }

  lemma BuiltHasNoTypeTwice(c: ChildConf)
    requires IsChildConf(c) && !Unbuildable(c)
    ensures NoTypeTwice(Built(c))
  {
    var front := Optional(c.encr) + Optional(c.integ);
    var rounds := FirstRound(c);
    assert !HasAddke(front);
    AppendToPlain(front, rounds);
    if c.dh.Some? {
      AppendPlain(front + rounds, c.dh.value);
    } else {
      assert front + rounds + [] == front + rounds;
    }
    AppendPlain(front + rounds + Optional(c.dh), c.esn);
  }

  lemma OpKeepsTypes(gs: seq<Group>, op: ChildOp)
    requires NoTypeTwice(gs) && IsChildOp(op)
    ensures NoTypeTwice(Apply(gs, op))
  {
    match op
    case Build(c) =>
      if !Unbuildable(c) {
        BuiltHasNoTypeTwice(c);
      }
    case ResponderAppend(algs, alloc) =>
      if !HasAddke(gs) {
        ChainIsNumbered(algs, alloc);
        AppendToPlain(gs, Chain(algs, alloc));
      }
    case Reoffer(gate, confs, alloc) =>
      if !HasAddke(gs) {
        ChainIsNumbered(FirstListed(confs), alloc);
        AppendToPlain(gs, Chain(FirstListed(confs), alloc));
      }
    case AddRekeyDh(force, confs, dh) => AppendPlain(gs, dh);
  }

  lemma ChainIsNumbered(algs: seq<Alg>, alloc: bool)
    ensures NoTypeTwice(Chain(algs, alloc))
  {
    if Buildable(Counted(algs)) {
      RoundsAreNumbered(algs);
    }
  }

  /** No order and no repetition of the operations ever makes a proposal name a round twice. */
  lemma {:induction false} NoRoundTwice(gs: seq<Group>, ops: seq<ChildOp>)
    requires NoTypeTwice(gs) && forall i | 0 <= i < |ops| :: IsChildOp(ops[i])
    ensures NoTypeTwice(ApplyAll(gs, ops))
    decreases |ops|
  {
    if ops != [] {
      OpKeepsTypes(gs, ops[0]);
      NoRoundTwice(Apply(gs, ops[0]), ops[1..]);
    }
  }
}
