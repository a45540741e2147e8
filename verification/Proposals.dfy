/** SA proposals (section 3.3 of RFC 7296) as values, what can be selected from them, and
    the filter that removes the transforms a policy refuses. */
module Proposals {
  import opened Wrappers

  datatype Transform = Transform(ttype: nat, id: nat)

  /** One alternative; the transform may be missing. */
  type Alternative = Option<Transform>

  /** The alternatives of one transform type, in order of preference. */
  type Group = seq<Alternative>

  /** One protocol of a proposal: the context that policies look at, and its groups. */
  datatype Protocol = Protocol(context: int, groups: seq<Group>)

  type Proposal = seq<Protocol>

  /** Which transforms are refused in which context. */
  type Policy = (int, Transform) -> bool

  predicate Refused(policy: Policy, context: int, a: Alternative) {
    a.Some? && policy(context, a.value)
  }

  // ---------------------------------------------------------------- selections

  /** One alternative for every group of every protocol. */
  type Selection = seq<seq<Alternative>>

  predicate SelectsFrom(choice: seq<Alternative>, groups: seq<Group>) {
    |choice| == |groups| && forall k | 0 <= k < |groups| :: choice[k] in groups[k]
  }

  predicate IsSelection(sel: Selection, p: Proposal) {
    |sel| == |p| && forall i | 0 <= i < |p| :: SelectsFrom(sel[i], p[i].groups)
  }

  predicate NoneRefused(policy: Policy, context: int, choice: seq<Alternative>) {
    forall k | 0 <= k < |choice| :: !Refused(policy, context, choice[k])
  }

  predicate Permitted(policy: Policy, sel: Selection, p: Proposal)
    requires |sel| == |p|
  {
    forall i | 0 <= i < |p| :: NoneRefused(policy, p[i].context, sel[i])
  }

  // ---------------------------------------------------------------- the filter

  function Keep(policy: Policy, context: int, g: Group): (r: Group)
    ensures |r| <= |g|
  {
    if g == [] then []
    else Keep(policy, context, g[..|g| - 1]) + (if Refused(policy, context, g[|g| - 1]) then [] else [g[|g| - 1]])
  }

  function KeepGroups(policy: Policy, context: int, gs: seq<Group>): (r: seq<Group>)
    ensures |r| == |gs|
  {
    seq(|gs|, k requires 0 <= k < |gs| => Keep(policy, context, gs[k]))
  }

  /** Some group has no alternative left. */
  predicate Emptied(policy: Policy, p: Protocol) {
    exists k | 0 <= k < |p.groups| :: Keep(policy, p.context, p.groups[k]) == []
  }

  predicate Dropped(policy: Policy, p: Proposal) {
    exists i | 0 <= i < |p| :: Emptied(policy, p[i])
  }

  function KeepProtocols(policy: Policy, p: Proposal): (r: Proposal)
    ensures |r| == |p|
  {
    seq(|p|, i requires 0 <= i < |p| => Protocol(p[i].context, KeepGroups(policy, p[i].context, p[i].groups)))
  }

  /** ikev2_proplist_filter_deprecated on one proposal: None when it is dropped. */
  function Filter(policy: Policy, p: Proposal): Option<Proposal> {
    if Dropped(policy, p) then None else Some(KeepProtocols(policy, p))
  }

  function FilterList(policy: Policy, list: seq<Option<Proposal>>): (r: seq<Option<Proposal>>)
    ensures |r| == |list|
  {
    seq(|list|, i requires 0 <= i < |list| => if list[i].None? then None else Filter(policy, list[i].value))
  }

  function RefusedIn(policy: Policy, context: int, g: Group): nat {
    |g| - |Keep(policy, context, g)|
  }

  /** The refused alternatives in the first i groups, protocols and proposals. */
  function RefusedBefore(policy: Policy, context: int, v: seq<Group>, i: nat): nat
    requires i <= |v|
  {
    if i == 0 then 0 else RefusedBefore(policy, context, v, i - 1) + RefusedIn(policy, context, v[i - 1])
  }

  function RefusedProtocols(policy: Policy, p: Proposal, i: nat): nat
    requires i <= |p|
  {
    if i == 0 then 0
    else RefusedProtocols(policy, p, i - 1) + RefusedBefore(policy, p[i - 1].context, p[i - 1].groups, |p[i - 1].groups|)
  }

  function RefusedSlots(policy: Policy, list: seq<Option<Proposal>>, i: nat): nat
    requires i <= |list|
  {
    if i == 0 then 0
    else RefusedSlots(policy, list, i - 1)
         + (if list[i - 1].None? then 0 else RefusedProtocols(policy, list[i - 1].value, |list[i - 1].value|))
  }

  // ---------------------------------------------------------------- meaning

  lemma {:induction false} KeepMembers(policy: Policy, context: int, g: Group, a: Alternative)
    ensures a in Keep(policy, context, g) <==> a in g && !Refused(policy, context, a)
  {
    if g != [] {
      KeepMembers(policy, context, g[..|g| - 1], a);
    }
  }

  lemma GroupsSelect(policy: Policy, context: int, choice: seq<Alternative>, gs: seq<Group>)
    ensures SelectsFrom(choice, KeepGroups(policy, context, gs)) <==> SelectsFrom(choice, gs) && NoneRefused(policy, context, choice)
  {
    var kept := KeepGroups(policy, context, gs);
    if |choice| == |gs| {
      forall k | 0 <= k < |gs|
        ensures choice[k] in kept[k] <==> choice[k] in gs[k] && !Refused(policy, context, choice[k])
      {
        KeepMembers(policy, context, gs[k], choice[k]);
      }
    }
  }

  /** The filter keeps exactly the selections in which the policy refuses no transform in the
      context of its protocol. */
  lemma FilterKeepsSelections(policy: Policy, p: Proposal, sel: Selection)
    ensures Filter(policy, p).Some? && IsSelection(sel, Filter(policy, p).value) <==>
      && IsSelection(sel, p)
      && forall i, k | 0 <= i < |p| && 0 <= k < |sel[i]| && sel[i][k].Some? :: !policy(p[i].context, sel[i][k].value)
  {
    PermittedSelections(policy, p, sel);
    if |sel| == |p| && !Permitted(policy, sel, p) {
      var i :| 0 <= i < |p| && !NoneRefused(policy, p[i].context, sel[i]);
      var k :| 0 <= k < |sel[i]| && Refused(policy, p[i].context, sel[i][k]);
      assert sel[i][k].Some? && policy(p[i].context, sel[i][k].value);
    }
    if |sel| == |p| && Permitted(policy, sel, p) {
      forall i, k | 0 <= i < |p| && 0 <= k < |sel[i]| && sel[i][k].Some? ensures !policy(p[i].context, sel[i][k].value) {
        assert NoneRefused(policy, p[i].context, sel[i]) && !Refused(policy, p[i].context, sel[i][k]);
      }
    }
  }

  lemma PermittedSelections(policy: Policy, p: Proposal, sel: Selection)
    ensures Filter(policy, p).Some? && IsSelection(sel, Filter(policy, p).value)
       <==> IsSelection(sel, p) && Permitted(policy, sel, p)
  {
    var kept := KeepProtocols(policy, p);
    if |sel| == |p| {
      forall i | 0 <= i < |p|
        ensures SelectsFrom(sel[i], kept[i].groups) <==> SelectsFrom(sel[i], p[i].groups) && NoneRefused(policy, p[i].context, sel[i])
      {
        GroupsSelect(policy, p[i].context, sel[i], p[i].groups);
      }
    }
  }

  /** A proposal is dropped exactly when no selection of it is permitted, provided that every
      group offers something. */
  lemma DroppedMeaning(policy: Policy, p: Proposal)
    requires forall i, k | 0 <= i < |p| && 0 <= k < |p[i].groups| :: p[i].groups[k] != []
    ensures Dropped(policy, p) <==> !exists sel: Selection :: IsSelection(sel, p) && Permitted(policy, sel, p)
  {
    if Dropped(policy, p) {
      forall sel: Selection ensures !(IsSelection(sel, p) && Permitted(policy, sel, p)) {
        PermittedSelections(policy, p, sel);
      }
    } else {
      var kept := KeepProtocols(policy, p);
      var sel := seq(|p|, i requires 0 <= i < |p| => FirstOfEach(kept[i].groups));
      forall i | 0 <= i < |p| ensures SelectsFrom(sel[i], kept[i].groups) {
        assert !Emptied(policy, p[i]);
        FirstOfEachSelects(kept[i].groups);
      }
      PermittedSelections(policy, p, sel);
    }
  }

  function FirstOfEach(gs: seq<Group>): seq<Alternative> {
    seq(|gs|, k requires 0 <= k < |gs| => if gs[k] == [] then None else gs[k][0])
  }

  lemma FirstOfEachSelects(gs: seq<Group>)
    requires forall k | 0 <= k < |gs| :: gs[k] != []
    ensures SelectsFrom(FirstOfEach(gs), gs)
  {
  }

  lemma {:induction false} KeepTwice(policy: Policy, context: int, g: Group)
    ensures Keep(policy, context, Keep(policy, context, g)) == Keep(policy, context, g)
    ensures RefusedIn(policy, context, Keep(policy, context, g)) == 0
  {
    if g != [] {
      var front := g[..|g| - 1];
      KeepTwice(policy, context, front);
      var kept := Keep(policy, context, front);
      if !Refused(policy, context, g[|g| - 1]) {
        var r := kept + [g[|g| - 1]];
        assert r[..|r| - 1] == kept;
      } else {
        assert kept + [] == kept;
      }
    }
  }

  lemma {:induction false} NoneLeftInGroups(policy: Policy, context: int, gs: seq<Group>, i: nat)
    requires i <= |gs|
    ensures RefusedBefore(policy, context, KeepGroups(policy, context, gs), i) == 0
  {
    if i > 0 {
      var kept := KeepGroups(policy, context, gs);
      NoneLeftInGroups(policy, context, gs, i - 1);
      KeepTwice(policy, context, gs[i - 1]);
      assert RefusedIn(policy, context, kept[i - 1]) == 0;
    }
  }

  lemma {:induction false} NoneLeftInProtocols(policy: Policy, p: Proposal, i: nat)
    requires i <= |p|
    ensures RefusedProtocols(policy, KeepProtocols(policy, p), i) == 0
  {
    if i > 0 {
      NoneLeftInProtocols(policy, p, i - 1);
      NoneLeftInGroups(policy, p[i - 1].context, p[i - 1].groups, |p[i - 1].groups|);
    }
  }

  /** In a filtered list there is nothing to refuse. */
  lemma {:induction false} NoneLeft(policy: Policy, list: seq<Option<Proposal>>, i: nat)
    requires i <= |list|
    ensures RefusedSlots(policy, FilterList(policy, list), i) == 0
  {
    if i > 0 {
      NoneLeft(policy, list, i - 1);
      if FilterList(policy, list)[i - 1].Some? {
        NoneLeftInProtocols(policy, list[i - 1].value, |list[i - 1].value|);
      }
    }
  }

  /** Filtering a filtered list changes nothing. */
  lemma FilterTwice(policy: Policy, list: seq<Option<Proposal>>)
    ensures FilterList(policy, FilterList(policy, list)) == FilterList(policy, list)
  {
    var once := FilterList(policy, list);
    var twice := FilterList(policy, once);
    forall i | 0 <= i < |list| ensures twice[i] == once[i] {
      if once[i].Some? {
        KeptIsKept(policy, list[i].value);
      }
    }
  }

  lemma KeptIsKept(policy: Policy, p: Proposal)
    requires !Dropped(policy, p)
    ensures Filter(policy, KeepProtocols(policy, p)) == Some(KeepProtocols(policy, p))
  {
    var kept := KeepProtocols(policy, p);
    forall i | 0 <= i < |p|
      ensures KeepGroups(policy, p[i].context, kept[i].groups) == kept[i].groups && !Emptied(policy, kept[i])
    {
      assert !Emptied(policy, p[i]);
      forall k | 0 <= k < |p[i].groups| {
        KeepTwice(policy, p[i].context, p[i].groups[k]);
      }
    }
    assert KeepProtocols(policy, kept) == kept;
  }
}
