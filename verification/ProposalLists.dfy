/** What the filter leaves of a protocol's groups is again a list of groups: the kept nodes of
    the surviving groups, each where the old order puts it. */
module ProposalLists {
  import opened Wrappers
  import opened PairTree
  import opened Proposals
  import opened ProposalHeap

  // ---------------------------------------------------------------- places in a list

  ghost predicate Rising(at: seq<nat>) {
    forall i, j | 0 <= i < j < |at| :: at[i] < at[j]
  }

  ghost function IndexOf(at: seq<nat>, x: nat): nat {
    if at == [] then 0 else if at[|at| - 1] == x then |at| - 1 else IndexOf(at[..|at| - 1], x)
  }

  lemma {:induction false} IndexFound(at: seq<nat>, x: nat)
    requires x in at
    ensures IndexOf(at, x) < |at| && at[IndexOf(at, x)] == x
  {
    if at[|at| - 1] != x {
      IndexFound(at[..|at| - 1], x);
    }
  }

  lemma IndexOfPlace(at: seq<nat>, j: nat)
    requires Rising(at) && j < |at|
    ensures IndexOf(at, at[j]) == j
  {
    IndexFound(at, at[j]);
  }

  lemma {:induction false} KeptRise(policy: Policy, context: int, v: Group, i: nat)
    requires i <= |v|
    ensures Rising(KeepAt(policy, context, v, i))
  {
    if i > 0 {
      KeptRise(policy, context, v, i - 1);
    }
  }

  lemma {:induction false} SurvivorsRise(policy: Policy, context: int, gs: seq<Chain>, i: nat)
    requires i <= |gs|
    ensures Rising(Survivors(policy, context, gs, i))
  {
    if i > 0 {
      SurvivorsRise(policy, context, gs, i - 1);
    }
  }

  lemma SurvivorsStep(policy: Policy, context: int, gs: seq<Chain>, i: nat, k: nat)
    requires i < |gs|
    ensures k in Survivors(policy, context, gs, i + 1) <==>
            k in Survivors(policy, context, gs, i) || (k == i && At(policy, context, gs, i) != [])
  {
    var before := Survivors(policy, context, gs, i);
    assert k in before + [i] <==> k in before || k == i;
  }

  lemma {:induction false} SurvivorsMeaning(policy: Policy, context: int, gs: seq<Chain>, i: nat, k: nat)
    requires i <= |gs|
    ensures k in Survivors(policy, context, gs, i) <==> k < i && At(policy, context, gs, k) != []
  {
    if i == 0 {
      assert Survivors(policy, context, gs, i) == [];
    } else {
      var j := i - 1;
      SurvivorsMeaning(policy, context, gs, j, k);
      SurvivorsStep(policy, context, gs, j, k);
    }
  }

  // ---------------------------------------------------------------- the groups of a protocol

  /** The groups of a protocol with the group of every node and its place there. */
  datatype Part = Part(gs: seq<Chain>, home: map<Pair, nat>, rank: map<Pair, nat>)

  /** Every node of home is where home and rank say. */
  ghost predicate Exact(part: Part) {
    forall n | n in part.home ::
      && part.home[n] < |part.gs| && n in part.rank && part.rank[n] < |part.gs[part.home[n]]|
      && part.gs[part.home[n]][part.rank[n]] == n
  }

  ghost predicate Laid(part: Part) {
    Placed(part.gs, part.home, part.rank) && Exact(part)
  }

  /** The pointer leads to the groups of the part, joined and live. */
  ghost predicate Listed(first: Pair?, part: Part)
    reads part.home.Keys
  {
    Laid(part) && UntouchedFrom(part.gs, part.home, part.rank, 0) && first == Head(part.gs, 0)
  }

  ghost function KeptChain(policy: Policy, context: int, g: Chain): (r: Chain)
    ensures |r| == |KeepAt(policy, context, Values(g), |g|)|
  {
    var at := KeepAt(policy, context, Values(g), |g|);
    seq(|at|, j requires 0 <= j < |at| => g[at[j]])
  }

  ghost function Sources(policy: Policy, context: int, gs: seq<Chain>): (src: seq<nat>)
    ensures forall j: nat | j < |src| :: src[j] < |gs|
  {
    Survivors(policy, context, gs, |gs|)
  }

  ghost function LeftGroups(policy: Policy, context: int, gs: seq<Chain>): (r: seq<Chain>)
    ensures |r| == |Sources(policy, context, gs)|
  {
    var src := Sources(policy, context, gs);
    seq(|src|, j requires 0 <= j < |src| => KeptChain(policy, context, gs[src[j]]))
  }

  ghost function LeftHome(policy: Policy, context: int, part: Part): map<Pair, nat> {
    map n | n in part.home && !Refused(policy, context, n.trns) ::
      IndexOf(Sources(policy, context, part.gs), part.home[n])
  }

  ghost function LeftRank(policy: Policy, context: int, part: Part): map<Pair, nat>
    requires Exact(part)
  {
    map n | n in part.home && !Refused(policy, context, n.trns) ::
      IndexOf(At(policy, context, part.gs, part.home[n]), part.rank[n])
  }

  /** The part after the filter. */
  ghost function Left(policy: Policy, context: int, part: Part): Part
    requires Exact(part)
  {
    Part(LeftGroups(policy, context, part.gs), LeftHome(policy, context, part), LeftRank(policy, context, part))
  }

  /** The node at a kept place. */
  lemma KeptNode(policy: Policy, context: int, part: Part, j: nat, i: nat)
    requires Laid(part)
    requires j < |Sources(policy, context, part.gs)|
    requires i < |LeftGroups(policy, context, part.gs)[j]|
    ensures var n, left := LeftGroups(policy, context, part.gs)[j][i], Left(policy, context, part);
      && n in part.home && !Refused(policy, context, n.trns)
      && n in left.home && left.home[n] == j && n in left.rank && left.rank[n] == i
  {
    var src := Sources(policy, context, part.gs);
    var k := src[j];
    var at := At(policy, context, part.gs, k);
    var n := part.gs[k][at[i]];
    assert n in part.home && part.home[n] == k && part.rank[n] == at[i];
    KeptPositions(policy, context, Values(part.gs[k]), |part.gs[k]|, at[i]);
    SurvivorsRise(policy, context, part.gs, |part.gs|);
    IndexOfPlace(src, j);
    KeptRise(policy, context, Values(part.gs[k]), |part.gs[k]|);
    IndexOfPlace(at, i);
  }

  lemma LeftPlaced(policy: Policy, context: int, part: Part)
    requires Laid(part)
    ensures var left := Left(policy, context, part); Placed(left.gs, left.home, left.rank)
  {
    var left := Left(policy, context, part);
    forall j: nat | j < |left.gs| ensures left.gs[j] != [] && Ranked(left.gs[j], left.rank) && Home(left.gs[j], left.home, j) {
      var src := Sources(policy, context, part.gs);
      SurvivorsMeaning(policy, context, part.gs, |part.gs|, src[j]);
      forall i: nat | i < |left.gs[j]|
        ensures left.gs[j][i] in left.rank && left.rank[left.gs[j][i]] == i
        ensures left.gs[j][i] in left.home && left.home[left.gs[j][i]] == j
      {
        KeptNode(policy, context, part, j, i);
      }
    }
  }

  lemma LeftExact(policy: Policy, context: int, part: Part)
    requires Laid(part)
    ensures Exact(Left(policy, context, part))
  {
    var left := Left(policy, context, part);
    forall n | n in left.home
      ensures left.home[n] < |left.gs| && n in left.rank && left.rank[n] < |left.gs[left.home[n]]|
      ensures left.gs[left.home[n]][left.rank[n]] == n
    {
      PlaceLeft(policy, context, part.gs, part.home[n], part.rank[n]);
    }
  }

  /** A kept place of the old groups and where it is now. */
  lemma PlaceLeft(policy: Policy, context: int, gs: seq<Chain>, k: nat, r: nat)
    requires k < |gs| && r < |gs[k]| && !Refused(policy, context, gs[k][r].trns)
    ensures var left, j, i := LeftGroups(policy, context, gs), IndexOf(Sources(policy, context, gs), k), IndexOf(At(policy, context, gs, k), r);
      j < |left| && i < |left[j]| && left[j][i] == gs[k][r]
  {
    KeptPositions(policy, context, Values(gs[k]), |gs[k]|, r);
    IndexFound(At(policy, context, gs, k), r);
    SurvivorsMeaning(policy, context, gs, |gs|, k);
    IndexFound(Sources(policy, context, gs), k);
  }

  // ---------------------------------------------------------------- the list that is left

  /** Only the first node of a group has a next pointer. */
  ghost predicate Tidy(part: Part)
    requires Laid(part)
    reads part.home.Keys
  {
    forall k: nat {:trigger part.gs[k]} | k < |part.gs| :: BareBut(part.gs[k], 0)
  }

  /** Exactly the refused nodes of the part have been freed. */
  ghost predicate Sieved(policy: Policy, context: int, part: Part)
    reads part.home.Keys`live
  {
    forall n | n in part.home :: n.live <==> !Refused(policy, context, n.trns)
  }

  /** The nodes at rising positions, joined by tnext, as a chain of their own. */
  lemma ChainAt(g: Chain, at: seq<nat>, h: Chain)
    requires at != [] && Rising(at) && Joined(NodeAt(g, at, 0), g, at, |g|) && BareBut(g, at[0])
    requires |h| == |at| && forall j: nat | j < |at| :: h[j] == g[at[j]]
    ensures JoinedFrom(h, 0) && BareBut(h, 0) && h[0].next == g[at[0]].next
  {
    forall i: nat | i < |h| ensures h[i].tnext == Succ(h, i) {
      assert g[at[i]].tnext == After(g, at, i);
    }
  }

  lemma NextLeft(policy: Policy, context: int, gs: seq<Chain>, j: nat)
    requires j < |Sources(policy, context, gs)|
    ensures NextHead(LeftGroups(policy, context, gs), j) == NextKept(policy, context, gs, Sources(policy, context, gs), j, null)
  {
    var src := Sources(policy, context, gs);
    if j + 1 < |src| {
      SurvivorsMeaning(policy, context, gs, |gs|, src[j + 1]);
    }
  }

  lemma LeftChain(policy: Policy, context: int, part: Part, j: nat)
    requires Laid(part) && j < |Sources(policy, context, part.gs)|
    requires KeptLinked(policy, context, part.gs, part.home, part.rank, Sources(policy, context, part.gs), null)
    ensures var g := LeftGroups(policy, context, part.gs)[j];
      && g != [] && JoinedFrom(g, 0) && BareBut(g, 0)
      && g[0].next == NextHead(LeftGroups(policy, context, part.gs), j)
  {
    var src := Sources(policy, context, part.gs);
    var k := src[j];
    var at := At(policy, context, part.gs, k);
    var next := NextKept(policy, context, part.gs, src, j, null);
    assert Rejoined(policy, context, part.gs, k, next);
    KeptRise(policy, context, Values(part.gs[k]), |part.gs[k]|);
    NextLeft(policy, context, part.gs, j);
    ChainAt(part.gs[k], at, LeftGroups(policy, context, part.gs)[j]);
  }

  lemma LeftIsListed(policy: Policy, context: int, part: Part, first: Pair?)
    requires Laid(part) && Sieved(policy, context, part)
    requires KeptLinked(policy, context, part.gs, part.home, part.rank, Sources(policy, context, part.gs), null)
    requires first == KeptHead(policy, context, part.gs, Sources(policy, context, part.gs), 0, null)
    ensures Listed(first, Left(policy, context, part)) && Tidy(Left(policy, context, part))
  {
    var left := Left(policy, context, part);
    LeftPlaced(policy, context, part);
    LeftExact(policy, context, part);
    forall j: nat | j < |left.gs| ensures Untouched(left.gs, j) && BareBut(left.gs[j], 0) {
      LeftChain(policy, context, part, j);
      forall i: nat | i < |left.gs[j]| ensures left.gs[j][i].live {
        KeptNode(policy, context, part, j, i);
      }
    }
  }

  lemma SettledIsSieved(policy: Policy, context: int, part: Part)
    requires Laid(part) && Settled(policy, context, part.gs, part.home, part.rank, |part.gs|)
    ensures Sieved(policy, context, part)
  {
    forall n | n in part.home ensures n.live <==> !Refused(policy, context, n.trns) {
      var k := part.home[n];
      assert Sifted(policy, context, part.gs[k], |part.gs[k]|);
      assert n == part.gs[k][part.rank[n]];
    }
  }

  /** When no group has been emptied, the list holds what the filter on values keeps. */
  lemma LeftValues(policy: Policy, context: int, gs: seq<Chain>)
    requires !Emptied(policy, Protocol(context, GroupValues(gs)))
    ensures GroupValues(LeftGroups(policy, context, gs)) == KeepGroups(policy, context, GroupValues(gs))
  {
    var kept, v := LeftGroups(policy, context, gs), GroupValues(gs);
    assert forall k: nat | k < |gs| :: Values(gs[k]) == v[k];
    AllSurvive(policy, context, gs, |gs|);
    forall k: nat | k < |gs| ensures Values(kept[k]) == Keep(policy, context, v[k]) {
      KeptTransforms(policy, context, gs[k]);
    }
  }

  /** The filter on one protocol: exactly the refused nodes are freed, and what is left is a
      list of groups again. */
  method FilterPart(policy: Policy, proto: Pair, ghost part: Part) returns (removed: nat, drop: bool)
    requires Listed(proto.tnext, part) && proto !in part.home
    modifies proto`tnext, part.home.Keys
    ensures Listed(proto.tnext, Left(policy, proto.context, part)) && Tidy(Left(policy, proto.context, part))
    ensures Sieved(policy, proto.context, part)
    ensures removed == RefusedBefore(policy, proto.context, GroupValues(part.gs), |part.gs|)
    ensures drop <==> Emptied(policy, Protocol(proto.context, GroupValues(part.gs)))
  {
    removed, drop := FilterProtocol(policy, proto, part.gs, part.home, part.rank);
    SettledIsSieved(policy, proto.context, part);
    LeftIsListed(policy, proto.context, part, proto.tnext);
  }
}
