/** The number that the filter returns: how many places of the list hold a transform that the
    policy refuses in the context of its protocol. */
module Refusals {
  import opened Wrappers
  import opened Proposals

  /** Proposal number, protocol, group and alternative. */
  datatype Place = Place(slot: nat, protocol: nat, group: nat, alternative: nat)

  type List = seq<Option<Proposal>>

  predicate IsPlace(list: List, p: Place) {
    && p.slot < |list| && list[p.slot].Some? && p.protocol < |list[p.slot].value|
    && p.group < |list[p.slot].value[p.protocol].groups|
    && p.alternative < |list[p.slot].value[p.protocol].groups[p.group]|
  }

  /** The alternative at a place, and the context it is offered in. */
  function At(list: List, p: Place): Alternative
    requires IsPlace(list, p)
  {
    list[p.slot].value[p.protocol].groups[p.group][p.alternative]
  }

  function ContextAt(list: List, p: Place): int
    requires IsPlace(list, p)
  {
    list[p.slot].value[p.protocol].context
  }

  ghost predicate RefusedAt(policy: Policy, list: List, p: Place) {
    IsPlace(list, p) && At(list, p).Some? && policy(ContextAt(list, p), At(list, p).value)
  }

  /** Exactly the places with a refused transform. */
  ghost predicate AreRefusals(policy: Policy, list: List, places: set<Place>) {
    forall p: Place :: p in places <==> RefusedAt(policy, list, p)
  }

  // ---------------------------------------------------------------- level by level

  /** The refused places in the first n alternatives, groups, protocols and proposals. */
  ghost function InGroup(policy: Policy, context: int, g: Group, s: nat, i: nat, k: nat, n: nat): set<Place>
    requires n <= |g|
  {
    set a: nat | a < n && Refused(policy, context, g[a]) :: Place(s, i, k, a)
  }

  ghost function InGroups(policy: Policy, context: int, gs: seq<Group>, s: nat, i: nat, n: nat): set<Place>
    requires n <= |gs|
  {
    set k: nat, a: nat | k < n && a < |gs[k]| && Refused(policy, context, gs[k][a]) :: Place(s, i, k, a)
  }

  ghost function InProtocols(policy: Policy, v: Proposal, s: nat, n: nat): set<Place>
    requires n <= |v|
  {
    set i: nat, k: nat, a: nat | i < n && k < |v[i].groups| && a < |v[i].groups[k]|
      && Refused(policy, v[i].context, v[i].groups[k][a]) :: Place(s, i, k, a)
  }

  ghost function InSlots(policy: Policy, list: List, n: nat): set<Place>
    requires n <= |list|
  {
    set s: nat, i: nat, k: nat, a: nat | s < n && list[s].Some? && i < |list[s].value| && k < |list[s].value[i].groups|
      && a < |list[s].value[i].groups[k]| && Refused(policy, list[s].value[i].context, list[s].value[i].groups[k][a])
      :: Place(s, i, k, a)
  }

  /** One set is put together from two that have nothing in common. */
  lemma SizesAdd(all: set<Place>, before: set<Place>, here: set<Place>)
    requires forall p :: p in all <==> p in before || p in here
    requires forall p :: !(p in before && p in here)
    ensures |all| == |before| + |here|
  {
    assert all == before + here && before !! here;
  }

  lemma {:induction false} GroupCounts(policy: Policy, context: int, g: Group, s: nat, i: nat, k: nat, n: nat)
    requires n <= |g|
    ensures |InGroup(policy, context, g, s, i, k, n)| == n - |Keep(policy, context, g[..n])|
  {
    if n > 0 {
      var m := n - 1;
      GroupCounts(policy, context, g, s, i, k, m);
      GroupAdds(policy, context, g, s, i, k, m);
      assert g[..n][..m] == g[..m] && g[..n][m] == g[m];
    } else {
      assert InGroup(policy, context, g, s, i, k, n) == {};
    }
  }

  lemma GroupAdds(policy: Policy, context: int, g: Group, s: nat, i: nat, k: nat, m: nat)
    requires m < |g|
    ensures |InGroup(policy, context, g, s, i, k, m + 1)|
         == |InGroup(policy, context, g, s, i, k, m)| + (if Refused(policy, context, g[m]) then 1 else 0)
  {
    var all, before := InGroup(policy, context, g, s, i, k, m + 1), InGroup(policy, context, g, s, i, k, m);
    if Refused(policy, context, g[m]) {
      SizesAdd(all, before, {Place(s, i, k, m)});
    } else {
      assert all == before;
    }
  }

  lemma GroupsAdd(policy: Policy, context: int, gs: seq<Group>, s: nat, i: nat, m: nat)
    requires m < |gs|
    ensures |InGroups(policy, context, gs, s, i, m + 1)|
         == |InGroups(policy, context, gs, s, i, m)| + |InGroup(policy, context, gs[m], s, i, m, |gs[m]|)|
  {
    SizesAdd(InGroups(policy, context, gs, s, i, m + 1), InGroups(policy, context, gs, s, i, m),
             InGroup(policy, context, gs[m], s, i, m, |gs[m]|));
  }

  lemma {:induction false} GroupsCount(policy: Policy, context: int, gs: seq<Group>, s: nat, i: nat, n: nat)
    requires n <= |gs|
    ensures |InGroups(policy, context, gs, s, i, n)| == RefusedBefore(policy, context, gs, n)
  {
    if n > 0 {
      var m := n - 1;
      GroupsCount(policy, context, gs, s, i, m);
      GroupCounts(policy, context, gs[m], s, i, m, |gs[m]|);
      assert gs[m][..|gs[m]|] == gs[m];
      GroupsAdd(policy, context, gs, s, i, m);
    } else {
      assert InGroups(policy, context, gs, s, i, n) == {};
    }
  }

  lemma ProtocolsAdd(policy: Policy, v: Proposal, s: nat, m: nat)
    requires m < |v|
    ensures |InProtocols(policy, v, s, m + 1)|
         == |InProtocols(policy, v, s, m)| + |InGroups(policy, v[m].context, v[m].groups, s, m, |v[m].groups|)|
  {
    SizesAdd(InProtocols(policy, v, s, m + 1), InProtocols(policy, v, s, m),
             InGroups(policy, v[m].context, v[m].groups, s, m, |v[m].groups|));
  }

  lemma {:induction false} ProtocolsCount(policy: Policy, v: Proposal, s: nat, n: nat)
    requires n <= |v|
    ensures |InProtocols(policy, v, s, n)| == RefusedProtocols(policy, v, n)
  {
    if n > 0 {
      var m := n - 1;
      ProtocolsCount(policy, v, s, m);
      GroupsCount(policy, v[m].context, v[m].groups, s, m, |v[m].groups|);
      ProtocolsAdd(policy, v, s, m);
    } else {
      assert InProtocols(policy, v, s, n) == {};
    }
  }

  lemma SlotsAdd(policy: Policy, list: List, m: nat)
    requires m < |list|
    ensures |InSlots(policy, list, m + 1)|
         == |InSlots(policy, list, m)| + (if list[m].Some? then |InProtocols(policy, list[m].value, m, |list[m].value|)| else 0)
  {
    SizesAdd(InSlots(policy, list, m + 1), InSlots(policy, list, m),
             if list[m].Some? then InProtocols(policy, list[m].value, m, |list[m].value|) else {});
  }

  lemma {:induction false} SlotsCount(policy: Policy, list: List, n: nat)
    requires n <= |list|
    ensures |InSlots(policy, list, n)| == RefusedSlots(policy, list, n)
  {
    if n > 0 {
      var m := n - 1;
      SlotsCount(policy, list, m);
      if list[m].Some? {
        ProtocolsCount(policy, list[m].value, m, |list[m].value|);
      }
      SlotsAdd(policy, list, m);
    } else {
      assert InSlots(policy, list, n) == {};
    }
  }

  /** The sum over proposals, protocols and groups is the number of places with a refused
      transform. */
  lemma RefusedIsCount(policy: Policy, list: List) returns (places: set<Place>)
    ensures AreRefusals(policy, list, places) && RefusedSlots(policy, list, |list|) == |places|
  {
    places := InSlots(policy, list, |list|);
    SlotsCount(policy, list, |list|);
    forall p: Place ensures p in places <==> RefusedAt(policy, list, p) {
      if RefusedAt(policy, list, p) {
        assert Refused(policy, ContextAt(list, p), list[p.slot].value[p.protocol].groups[p.group][p.alternative]);
      }
    }
  }
}
