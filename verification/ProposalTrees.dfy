/** A whole proposal as a linked structure, and the tree that proppair_discard sees in it. */
module ProposalTrees {
  import opened Wrappers
  import opened PairTree
  import opened Proposals
  import opened ProposalHeap
  import opened ProposalLists

  /** The protocols of a proposal: their first nodes, joined by next, and the groups of each.
      order gives the place of a first node and owner the protocol of every other node. */
  datatype Body = Body(protos: seq<Pair>, parts: seq<Part>, order: map<Pair, nat>, owner: map<Pair, nat>)

  ghost function Members(b: Body): set<Pair> {
    b.order.Keys + b.owner.Keys
  }

  ghost predicate Ordered(b: Body) {
    && (forall i: nat | i < |b.protos| :: b.protos[i] in b.order && b.order[b.protos[i]] == i && b.protos[i] !in b.owner)
    && (forall n | n in b.order :: b.order[n] < |b.protos| && b.protos[b.order[n]] == n)
  }

  ghost predicate Owned(part: Part, owner: map<Pair, nat>, i: nat) {
    forall n | n in part.home :: n in owner && owner[n] == i
  }

  /** No node belongs to two protocols, and owner knows no others. */
  ghost predicate Separate(b: Body) {
    && b.protos != [] && |b.parts| == |b.protos| && Ordered(b)
    && (forall i: nat | i < |b.parts| :: Laid(b.parts[i]) && Owned(b.parts[i], b.owner, i))
    && (forall n | n in b.owner :: b.owner[n] < |b.parts| && n in b.parts[b.owner[n]].home)
  }

  ghost function ProtoAt(b: Body, i: nat): Pair? {
    if i < |b.protos| then b.protos[i] else null
  }

  ghost function NextProto(b: Body, i: nat): Pair? {
    ProtoAt(b, i + 1)
  }

  /** Protocol i as received. */
  ghost predicate Stands(b: Body, i: nat)
    requires i < |b.protos| && i < |b.parts|
    reads b.protos[i], b.parts[i].home.Keys
  {
    b.protos[i].next == NextProto(b, i) && b.protos[i].live && Listed(b.protos[i].tnext, b.parts[i])
  }

  /** The pointer leads to the proposal. */
  ghost predicate Standing(first: Pair?, b: Body)
    reads Members(b)
  {
    && Separate(b) && first == b.protos[0]
    && forall i: nat {:trigger NextProto(b, i)} | i < |b.protos| :: Stands(b, i)
  }

  ghost function BodyValues(b: Body): (r: Proposal)
    ensures |r| == |b.protos|
  {
    seq(|b.protos|, i requires 0 <= i < |b.protos| =>
      Protocol(b.protos[i].context, if i < |b.parts| then GroupValues(b.parts[i].gs) else []))
  }

  // ---------------------------------------------------------------- trees

  ghost function AltTree(g: Chain, i: nat): Tree
    decreases |g| - i
  {
    if i >= |g| then Leaf else Node(g[i], Leaf, AltTree(g, i + 1))
  }

  ghost function GroupTree(gs: seq<Chain>, k: nat): Tree
    decreases |gs| - k
  {
    if k >= |gs| || gs[k] == [] then Leaf else Node(gs[k][0], GroupTree(gs, k + 1), AltTree(gs[k], 1))
  }

  ghost function BodyTree(b: Body, i: nat): Tree
    decreases |b.protos| - i
  {
    if i >= |b.protos| || i >= |b.parts| then Leaf
    else Node(b.protos[i], BodyTree(b, i + 1), GroupTree(b.parts[i].gs, 0))
  }

  ghost predicate InRow(g: Chain, rank: map<Pair, nat>, i: nat, n: Pair) {
    n in g && n in rank && rank[n] >= i
  }

  /** The alternatives from place i on. */
  lemma {:induction false} AltNodes(g: Chain, rank: map<Pair, nat>, i: nat, n: Pair)
    requires Ranked(g, rank)
    ensures n in Nodes(AltTree(g, i)) <==> InRow(g, rank, i, n)
    decreases |g| - i
  {
    if i < |g| {
      AltNodes(g, rank, i + 1, n);
    }
  }

  lemma {:induction false} AltShape(g: Chain, rank: map<Pair, nat>, i: nat)
    requires Ranked(g, rank) && JoinedFrom(g, 0) && BareBut(g, 0) && 0 < i <= |g|
    ensures Shape(if i < |g| then g[i] else null, AltTree(g, i))
    decreases |g| - i
  {
    if i < |g| {
      AltShape(g, rank, i + 1);
      AltNodes(g, rank, i + 1, g[i]);
      assert g[i].tnext == Succ(g, i);
    }
  }

  /** The nodes of the groups from k on. */
  lemma {:induction false} GroupNodes(part: Part, k: nat, n: Pair)
    requires Laid(part)
    ensures n in Nodes(GroupTree(part.gs, k)) <==> n in part.home && part.home[n] >= k
    decreases |part.gs| - k
  {
    if k < |part.gs| {
      GroupNodes(part, k + 1, n);
      AltNodes(part.gs[k], part.rank, 1, n);
    }
  }

  /** The first node of a group, its other alternatives and the later groups are apart. */
  lemma GroupsApart(part: Part, k: nat)
    requires Laid(part) && k < |part.gs|
    ensures part.gs[k][0] !in Nodes(GroupTree(part.gs, k + 1)) && part.gs[k][0] !in Nodes(AltTree(part.gs[k], 1))
    ensures Nodes(GroupTree(part.gs, k + 1)) !! Nodes(AltTree(part.gs[k], 1))
  {
    GroupNodes(part, k + 1, part.gs[k][0]);
    AltNodes(part.gs[k], part.rank, 1, part.gs[k][0]);
    forall n | n in Nodes(GroupTree(part.gs, k + 1)) ensures n !in Nodes(AltTree(part.gs[k], 1)) {
      GroupNodes(part, k + 1, n);
      AltNodes(part.gs[k], part.rank, 1, n);
    }
  }

  lemma {:induction false} GroupShape(part: Part, k: nat)
    requires Laid(part) && UntouchedFrom(part.gs, part.home, part.rank, 0) && Tidy(part) && k <= |part.gs|
    ensures Shape(Head(part.gs, k), GroupTree(part.gs, k))
    decreases |part.gs| - k
  {
    if k < |part.gs| {
      var g := part.gs[k];
      GroupShape(part, k + 1);
      assert Untouched(part.gs, k) && BareBut(g, 0);
      AltShape(g, part.rank, 1);
      assert g[0].tnext == Succ(g, 0) && g[0].next == NextHead(part.gs, k);
      GroupsApart(part, k);
    }
  }

  /** A node of the protocols from i on. */
  ghost predicate FromOn(b: Body, i: nat, n: Pair) {
    (n in b.order && b.order[n] >= i) || (n in b.owner && b.owner[n] >= i)
  }

  lemma FromOnStep(b: Body, i: nat, n: Pair)
    requires Separate(b) && i < |b.protos|
    ensures FromOn(b, i, n) <==> n == b.protos[i] || n in b.parts[i].home || FromOn(b, i + 1, n)
  {
    assert Owned(b.parts[i], b.owner, i);
  }

  lemma {:induction false} BodyNodes(b: Body, i: nat, n: Pair)
    requires Separate(b)
    ensures n in Nodes(BodyTree(b, i)) <==> FromOn(b, i, n)
    decreases |b.protos| - i
  {
    if i < |b.protos| {
      BodyNodes(b, i + 1, n);
      GroupNodes(b.parts[i], 0, n);
      FromOnStep(b, i, n);
    }
  }

  lemma LaterIsElsewhere(b: Body, i: nat, n: Pair)
    requires Separate(b) && i < |b.protos| && FromOn(b, i + 1, n)
    ensures n != b.protos[i] && n !in b.parts[i].home
  {
    assert Owned(b.parts[i], b.owner, i);
  }

  lemma ProtocolsApart(b: Body, i: nat)
    requires Separate(b) && i < |b.protos|
    ensures b.protos[i] !in Nodes(BodyTree(b, i + 1)) && b.protos[i] !in Nodes(GroupTree(b.parts[i].gs, 0))
    ensures Nodes(BodyTree(b, i + 1)) !! Nodes(GroupTree(b.parts[i].gs, 0))
  {
    var part := b.parts[i];
    GroupNodes(part, 0, b.protos[i]);
    assert Owned(part, b.owner, i);
    forall n | n in Nodes(BodyTree(b, i + 1)) ensures n != b.protos[i] && n !in Nodes(GroupTree(part.gs, 0)) {
      BodyNodes(b, i + 1, n);
      LaterIsElsewhere(b, i, n);
      GroupNodes(part, 0, n);
    }
  }

  ghost predicate TidyBody(b: Body)
    requires Separate(b)
    reads Members(b)
  {
    forall i: nat {:trigger NextProto(b, i)} | i < |b.parts| :: Tidy(b.parts[i])
  }

  /** The pointers of protocol i lead to the next protocol and to its own groups, which are
      apart. */
  ghost predicate Formed(b: Body, i: nat)
    requires i < |b.protos| == |b.parts|
    reads b.protos[i], Nodes(GroupTree(b.parts[i].gs, 0))
  {
    var p, rest, own := b.protos[i], BodyTree(b, i + 1), GroupTree(b.parts[i].gs, 0);
    && p.next == NextProto(b, i) && Shape(p.tnext, own)
    && p !in Nodes(rest) && p !in Nodes(own) && Nodes(rest) !! Nodes(own)
  }

  lemma ProtocolFormed(b: Body, i: nat)
    requires Standing(ProtoAt(b, 0), b) && TidyBody(b) && i < |b.protos|
    ensures Formed(b, i)
  {
    var next := NextProto(b, i);
    assert Stands(b, i) && Tidy(b.parts[i]);
    GroupShape(b.parts[i], 0);
    ProtocolsApart(b, i);
  }

  lemma {:induction false} FormedShape(b: Body, i: nat)
    requires i <= |b.protos| == |b.parts| && forall l: nat | i <= l < |b.protos| :: Formed(b, l)
    ensures Shape(ProtoAt(b, i), BodyTree(b, i))
    decreases |b.protos| - i
  {
    if i == |b.protos| {
      assert BodyTree(b, i) == Leaf;
    } else {
      assert Formed(b, i);
      FormedShape(b, i + 1);
      NodeShape(b.protos[i], BodyTree(b, i + 1), GroupTree(b.parts[i].gs, 0));
    }
  }

  lemma BodyShape(b: Body)
    requires Standing(ProtoAt(b, 0), b) && TidyBody(b)
    ensures Shape(ProtoAt(b, 0), BodyTree(b, 0))
  {
    forall l: nat | l < |b.protos| ensures Formed(b, l) {
      ProtocolFormed(b, l);
    }
    FormedShape(b, 0);
  }

  /** The tree holds exactly the nodes of the proposal. */
  lemma BodyIsAll(b: Body)
    requires Separate(b)
    ensures Nodes(BodyTree(b, 0)) == Members(b)
  {
    forall n | n in Nodes(BodyTree(b, 0)) ensures n in Members(b) {
      BodyNodes(b, 0, n);
    }
    forall n | n in Members(b) ensures n in Nodes(BodyTree(b, 0)) {
      BodyNodes(b, 0, n);
    }
  }

  lemma StandingIsLive(first: Pair?, b: Body)
    requires Standing(first, b)
    ensures Live(Members(b))
  {
    forall n | n in Members(b) ensures n.live {
      if n in b.order {
        assert Stands(b, b.order[n]) by { var next := NextProto(b, b.order[n]); }
      } else {
        PartIsLive(b, b.owner[n], n);
      }
    }
  }

  lemma PartIsLive(b: Body, i: nat, n: Pair)
    requires Standing(ProtoAt(b, 0), b) && i < |b.parts| && n in b.parts[i].home
    ensures n.live
  {
    var part, next := b.parts[i], NextProto(b, i);
    assert Stands(b, i);
    assert Untouched(part.gs, part.home[n]);
    assert n == part.gs[part.home[n]][part.rank[n]];
  }

  /** Discarding a proposal frees all its nodes, each of them once. */
  method DiscardBody(first: Pair, ghost b: Body)
    requires Standing(first, b) && TidyBody(b)
    modifies Members(b)`live
    ensures Dead(Members(b))
  {
    BodyShape(b);
    BodyIsAll(b);
    StandingIsLive(first, b);
    Discard(first, BodyTree(b, 0));
  }
}
