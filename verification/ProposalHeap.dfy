/** ikev2_proplist_filter_deprecated on the linked prop_pair structure: next joins the
    groups of a protocol, tnext the alternatives of a group, and the filter relinks both
    through pointers to the link to be written. */
module ProposalHeap {
  import opened Wrappers
  import opened PairTree
  import opened Proposals

  type Chain = seq<Pair>

  // ---------------------------------------------------------------- positions kept

  /** The positions below i of the alternatives that the policy lets through. */
  function KeepAt(policy: Policy, context: int, v: Group, i: nat): (r: seq<nat>)
    requires i <= |v|
    ensures forall j: nat | j < |r| :: r[j] < i
  {
    if i == 0 then []
    else KeepAt(policy, context, v, i - 1) + if Refused(policy, context, v[i - 1]) then [] else [i - 1]
  }

  /** The position of the last entry is above those of the others. */
  ghost predicate LastAbove(at: seq<nat>) {
    forall j: nat | j + 1 < |at| :: at[j] < at[|at| - 1]
  }

  lemma {:induction false} KeptPositions(policy: Policy, context: int, v: Group, i: nat, k: nat)
    requires i <= |v|
    ensures k in KeepAt(policy, context, v, i) <==> k < i && !Refused(policy, context, v[k])
  {
    if i > 0 {
      KeptPositions(policy, context, v, i - 1, k);
    }
  }

  /** What stands at the kept positions is what the filter on values keeps. */
  lemma {:induction false} KeepAtValues(policy: Policy, context: int, v: Group, i: nat)
    requires i <= |v|
    ensures var r := KeepAt(policy, context, v, i);
      Keep(policy, context, v[..i]) == seq(|r|, j requires 0 <= j < |r| => v[r[j]])
  {
    if i > 0 {
      KeepAtValues(policy, context, v, i - 1);
      assert v[..i][..i - 1] == v[..i - 1];
    }
  }

  // ---------------------------------------------------------------- one group

  ghost function Values(g: Chain): (r: Group)
    ensures |r| == |g|
  {
    seq(|g|, i requires 0 <= i < |g| => g[i].trns)
  }

  /** Where each node stands in the group; so no node is in it twice. */
  ghost predicate Ranked(g: Chain, rank: map<Pair, nat>) {
    forall i: nat | i < |g| :: g[i] in rank && rank[g[i]] == i
  }

  ghost function Succ(g: Chain, i: nat): Pair?
    requires i < |g|
  {
    if i + 1 < |g| then g[i + 1] else null
  }

  /** From position i on, the nodes are joined by tnext. */
  ghost predicate JoinedFrom(g: Chain, i: nat)
    reads g
  {
    forall k: nat {:trigger Succ(g, k)} | i <= k < |g| :: g[k].tnext == Succ(g, k)
  }

  ghost function NodeAt(g: Chain, at: seq<nat>, j: nat): Pair? {
    if j < |at| && at[j] < |g| then g[at[j]] else null
  }

  ghost function After(g: Chain, at: seq<nat>, j: nat): Pair? {
    NodeAt(g, at, j + 1)
  }

  /** The nodes at the given positions, below bound, are joined by tnext and end in null. */
  ghost predicate Joined(first: Pair?, g: Chain, at: seq<nat>, bound: nat)
    reads g
  {
    && first == NodeAt(g, at, 0)
    && (forall j: nat | j < |at| :: at[j] < bound)
    && bound <= |g|
    && (forall j: nat {:trigger After(g, at, j)} | j < |at| :: g[at[j]].tnext == After(g, at, j))
  }

  /** The first i nodes have no next pointer. */
  ghost predicate Bare(g: Chain, i: nat)
    reads g
  {
    forall k: nat | k < i && k < |g| :: g[k].next == null
  }

  ghost function Last(g: Chain, at: seq<nat>): Pair? {
    if at == [] then null else NodeAt(g, at, |at| - 1)
  }

  /** Store a node through the pointer to the last link. */
  method JoinLast(keep: Pair?, last: Pair?, ghost g: Chain, ghost rank: map<Pair, nat>, ghost at: seq<nat>, ghost i: nat, a: Pair)
    returns (first: Pair)
    requires Ranked(g, rank) && i < |g| && a == g[i] && a.tnext == null
    requires Joined(keep, g, at, i) && LastAbove(at) && last == Last(g, at)
    modifies {last}`tnext
    ensures Joined(first, g, at + [i], i + 1)
  {
    if last == null {
      first := a;
    } else {
      last.tnext := a;
      first := keep;
    }
    forall j: nat | j < |at| ensures g[at[j]].tnext == After(g, at + [i], j) {
      assert old(g[at[j]].tnext) == After(g, at, j);
    }
  }

  /** Where the inner loop stands: the nodes kept so far are joined, those from i on are as
      they were, and those before i have no next pointer. */
  ghost predicate Halfway(g: Chain, rank: map<Pair, nat>, i: nat, a: Pair?, keep: Pair?, last: Pair?, at: seq<nat>)
    reads g
  {
    && Ranked(g, rank) && i <= |g|
    && (a == if i < |g| then g[i] else null)
    && JoinedFrom(g, i) && Bare(g, i)
    && Joined(keep, g, at, i) && LastAbove(at) && last == Last(g, at)
  }

  /** Of the first i nodes exactly the refused ones have been freed, of the others none. */
  ghost predicate Sifted(policy: Policy, context: int, g: Chain, i: nat)
    reads g`live
  {
    forall k: nat | k < |g| :: g[k].live <==> k >= i || !Refused(policy, context, g[k].trns)
  }

  /** One round of the inner loop: unlink the node, then join it again or discard it.  With
      both pointers cleared the discard reaches nothing else. */
  method TakeNode(ghost g: Chain, ghost rank: map<Pair, nat>, ghost i: nat, a: Pair, stays: bool,
                  keep: Pair?, last: Pair?, ghost at: seq<nat>)
    returns (an: Pair?, keep': Pair?, last': Pair?, ghost at': seq<nat>)
    requires Halfway(g, rank, i, a, keep, last, at) && a.live
    modifies g
    ensures Halfway(g, rank, i + 1, an, keep', last', at')
    ensures at' == if stays then at + [i] else at
    ensures forall k: nat | k < |g| :: g[k].live <==> old(g[k].live) && (k == i ==> stays)
  {
    assert a.tnext == Succ(g, i);
    an := a.tnext;
    a.tnext := null;
    a.next := null;
    assert Joined(keep, g, at, i);
    keep', last', at' := keep, last, at;
    if stays {
      keep' := JoinLast(keep, last, g, rank, at, i, a);
      last', at' := a, at + [i];
    } else {
      ghost var alone := Node(a, Leaf, Leaf);
      assert Nodes(alone) == {a};
      Discard(a, alone);
    }
  }

  /** The kept positions below i, and how many are not among them. */
  ghost predicate Counted(policy: Policy, context: int, v: Group, i: nat, at: seq<nat>, removed: nat) {
    i <= |v| && at == KeepAt(policy, context, v, i) && removed + |at| == i
  }

  /** The inner loop: take the group apart, discard what is refused and join the rest. */
  method FilterGroup(policy: Policy, context: int, head: Pair, ghost g: Chain, ghost rank: map<Pair, nat>)
    returns (keep: Pair?, removed: nat, ghost at: seq<nat>)
    requires Ranked(g, rank) && g != [] && head == g[0] && JoinedFrom(g, 0) && Sifted(policy, context, g, 0)
    modifies g
    ensures Counted(policy, context, Values(g), |g|, at, removed)
    ensures Joined(keep, g, at, |g|) && Bare(g, |g|) && Sifted(policy, context, g, |g|)
  {
    var a: Pair?, last: Pair? := head, null;
    keep, removed, at := null, 0, [];
    ghost var i: nat, v := 0, Values(g);
    while a != null
      invariant Halfway(g, rank, i, a, keep, last, at) && Sifted(policy, context, g, i)
      invariant Counted(policy, context, v, i, at, removed)
      decreases |g| - i
    {
      a, keep, last, removed, at := SortNode(policy, context, g, rank, v, i, a, keep, last, removed, at);
      i := i + 1;
    }
  }

  /** One round of the inner loop, with its bookkeeping. */
  method SortNode(policy: Policy, context: int, ghost g: Chain, ghost rank: map<Pair, nat>, ghost v: Group, ghost i: nat, a: Pair,
                  keep: Pair?, last: Pair?, removed: nat, ghost at: seq<nat>)
    returns (an: Pair?, keep': Pair?, last': Pair?, removed': nat, ghost at': seq<nat>)
    requires v == Values(g) && Halfway(g, rank, i, a, keep, last, at) && Sifted(policy, context, g, i)
    requires Counted(policy, context, v, i, at, removed)
    modifies g
    ensures Halfway(g, rank, i + 1, an, keep', last', at') && Sifted(policy, context, g, i + 1)
    ensures Counted(policy, context, v, i + 1, at', removed')
  {
    assert v[i] == a.trns;
    var stays := !Refused(policy, context, a.trns);
    removed' := if stays then removed else removed + 1;
    an, keep', last', at' := TakeNode(g, rank, i, a, stays, keep, last, at);
  }

  // ---------------------------------------------------------------- the groups of a protocol

  ghost predicate Home(g: Chain, home: map<Pair, nat>, k: nat) {
    forall i: nat | i < |g| :: g[i] in home && home[g[i]] == k
  }

  /** Non-empty groups of nodes.  home says which group a node belongs to and rank where it
      stands there, so no node occurs twice. */
  ghost predicate Placed(gs: seq<Chain>, home: map<Pair, nat>, rank: map<Pair, nat>) {
    forall k: nat | k < |gs| :: gs[k] != [] && Ranked(gs[k], rank) && Home(gs[k], home, k)
  }

  ghost function Head(gs: seq<Chain>, k: nat): Pair? {
    if k < |gs| && gs[k] != [] then gs[k][0] else null
  }

  ghost function NextHead(gs: seq<Chain>, k: nat): Pair? {
    Head(gs, k + 1)
  }

  ghost predicate AllLive(g: Chain)
    reads g`live
  {
    forall i: nat | i < |g| :: g[i].live
  }

  /** Group k as received: its alternatives joined, its first node pointing to group k + 1. */
  ghost predicate Untouched(gs: seq<Chain>, k: nat)
    requires k < |gs|
    reads gs[k]
  {
    gs[k] != [] && JoinedFrom(gs[k], 0) && gs[k][0].next == NextHead(gs, k) && AllLive(gs[k])
  }

  ghost predicate UntouchedFrom(gs: seq<Chain>, home: map<Pair, nat>, rank: map<Pair, nat>, i: nat)
    requires Placed(gs, home, rank)
    reads home.Keys
  {
    forall k: nat {:trigger Untouched(gs, k)} | i <= k < |gs| :: Untouched(gs, k)
  }

  /** The positions kept in group k. */
  ghost function At(policy: Policy, context: int, gs: seq<Chain>, k: nat): seq<nat>
    requires k < |gs|
  {
    KeepAt(policy, context, Values(gs[k]), |gs[k]|)
  }

  /** The groups before number i that keep some node. */
  ghost function Survivors(policy: Policy, context: int, gs: seq<Chain>, i: nat): (src: seq<nat>)
    requires i <= |gs|
    ensures forall j: nat | j < |src| :: src[j] < i
  {
    if i == 0 then []
    else Survivors(policy, context, gs, i - 1) + if At(policy, context, gs, i - 1) == [] then [] else [i - 1]
  }

  /** The first node kept in the surviving group number j; rest when there are no more. */
  ghost function KeptHead(policy: Policy, context: int, gs: seq<Chain>, src: seq<nat>, j: nat, rest: Pair?): Pair? {
    if j < |src| && src[j] < |gs| then NodeAt(gs[src[j]], At(policy, context, gs, src[j]), 0) else rest
  }

  ghost function NextKept(policy: Policy, context: int, gs: seq<Chain>, src: seq<nat>, j: nat, rest: Pair?): Pair? {
    KeptHead(policy, context, gs, src, j + 1, rest)
  }

  /** Only the node at position i may have a next pointer. */
  ghost predicate BareBut(g: Chain, i: nat)
    reads g`next
  {
    forall k: nat | k < |g| && k != i :: g[k].next == null
  }

  /** In the groups before i exactly the refused nodes have been freed. */
  ghost predicate Settled(policy: Policy, context: int, gs: seq<Chain>, home: map<Pair, nat>, rank: map<Pair, nat>, i: nat)
    requires Placed(gs, home, rank)
    reads home.Keys`live
  {
    forall k: nat {:trigger gs[k]} | k < i && k < |gs| :: Sifted(policy, context, gs[k], |gs[k]|)
  }

  /** Group k after the filter: the kept nodes joined, the first of them pointing to then. */
  ghost predicate Rejoined(policy: Policy, context: int, gs: seq<Chain>, k: nat, then': Pair?)
    requires k < |gs|
    reads gs[k]
  {
    var at := At(policy, context, gs, k);
    var first := NodeAt(gs[k], at, 0);
    at != [] && Joined(first, gs[k], at, |gs[k]|) && gs[k][at[0]].next == then' && BareBut(gs[k], at[0])
  }

  /** The surviving groups are joined among themselves, the last of them to rest. */
  ghost predicate KeptLinked(policy: Policy, context: int, gs: seq<Chain>, home: map<Pair, nat>, rank: map<Pair, nat>, src: seq<nat>, rest: Pair?)
    requires Placed(gs, home, rank)
    reads home.Keys
  {
    forall j: nat {:trigger NextKept(policy, context, gs, src, j, rest)} | j < |src| ::
      src[j] < |gs| && Rejoined(policy, context, gs, src[j], NextKept(policy, context, gs, src, j, rest))
  }

  lemma GroupsDisjoint(gs: seq<Chain>, home: map<Pair, nat>, rank: map<Pair, nat>, k: nat, l: nat)
    requires Placed(gs, home, rank) && k < |gs| && l < |gs| && k != l
    ensures forall n | n in gs[l] :: n !in gs[k]
  {
  }

  /** Filter group k; the groups after it stay as they were. */
  method FilterAhead(policy: Policy, context: int, cur: Pair, ghost gs: seq<Chain>, ghost home: map<Pair, nat>,
                     ghost rank: map<Pair, nat>, ghost k: nat)
    returns (keep: Pair?, removed: nat)
    requires Placed(gs, home, rank) && k < |gs| && cur == gs[k][0] && UntouchedFrom(gs, home, rank, k)
    modifies gs[k]
    ensures UntouchedFrom(gs, home, rank, k + 1)
    ensures Joined(keep, gs[k], At(policy, context, gs, k), |gs[k]|) && Bare(gs[k], |gs[k]|)
    ensures Sifted(policy, context, gs[k], |gs[k]|)
    ensures removed + |At(policy, context, gs, k)| == |gs[k]|
  {
    assert Untouched(gs, k);
    ghost var at;
    keep, removed, at := FilterGroup(policy, context, cur, gs[k], rank);
    forall l: nat | k < l < |gs| ensures Untouched(gs, l) {
      GroupsDisjoint(gs, home, rank, k, l);
      assert old(Untouched(gs, l));
    }
  }

  /** Of the groups before it no node is freed. */
  method FilterSettling(policy: Policy, context: int, cur: Pair, ghost gs: seq<Chain>, ghost home: map<Pair, nat>,
                        ghost rank: map<Pair, nat>, ghost k: nat)
    returns (keep: Pair?, removed: nat)
    requires Placed(gs, home, rank) && k < |gs| && cur == gs[k][0] && UntouchedFrom(gs, home, rank, k)
    requires Settled(policy, context, gs, home, rank, k)
    modifies gs[k]
    ensures UntouchedFrom(gs, home, rank, k + 1)
    ensures Settled(policy, context, gs, home, rank, k + 1)
    ensures Joined(keep, gs[k], At(policy, context, gs, k), |gs[k]|) && Bare(gs[k], |gs[k]|)
    ensures removed + |At(policy, context, gs, k)| == |gs[k]|
  {
    keep, removed := FilterAhead(policy, context, cur, gs, home, rank, k);
    forall l: nat | l < k ensures Sifted(policy, context, gs[l], |gs[l]|) {
      GroupsDisjoint(gs, home, rank, k, l);
      assert old(Sifted(policy, context, gs[l], |gs[l]|));
    }
  }

  /** And their links stay. */
  method FilterOne(policy: Policy, context: int, cur: Pair, ghost gs: seq<Chain>, ghost home: map<Pair, nat>,
                   ghost rank: map<Pair, nat>, ghost k: nat, ghost src: seq<nat>)
    returns (keep: Pair?, removed: nat)
    requires Placed(gs, home, rank) && k < |gs| && cur == gs[k][0] && UntouchedFrom(gs, home, rank, k)
    requires src == Survivors(policy, context, gs, k) && KeptLinked(policy, context, gs, home, rank, src, cur)
    requires Settled(policy, context, gs, home, rank, k)
    modifies gs[k]
    ensures UntouchedFrom(gs, home, rank, k + 1)
    ensures KeptLinked(policy, context, gs, home, rank, src, cur)
    ensures Settled(policy, context, gs, home, rank, k + 1)
    ensures Joined(keep, gs[k], At(policy, context, gs, k), |gs[k]|) && Bare(gs[k], |gs[k]|)
    ensures removed + |At(policy, context, gs, k)| == |gs[k]|
  {
    keep, removed := FilterSettling(policy, context, cur, gs, home, rank, k);
    forall j: nat | j < |src|
      ensures Rejoined(policy, context, gs, src[j], NextKept(policy, context, gs, src, j, cur))
    {
      GroupsDisjoint(gs, home, rank, k, src[j]);
      assert old(Rejoined(policy, context, gs, src[j], NextKept(policy, context, gs, src, j, cur)));
    }
  }

  lemma SurvivorsAbove(policy: Policy, context: int, gs: seq<Chain>, i: nat)
    requires i <= |gs|
    ensures LastAbove(Survivors(policy, context, gs, i))
  {
  }

  ghost function LastKept(policy: Policy, context: int, gs: seq<Chain>, src: seq<nat>): Pair? {
    if src == [] then null else KeptHead(policy, context, gs, src, |src| - 1, null)
  }

  lemma LastKeptExists(policy: Policy, context: int, gs: seq<Chain>, home: map<Pair, nat>, rank: map<Pair, nat>, src: seq<nat>, cur: Pair?)
    requires Placed(gs, home, rank) && src != [] && KeptLinked(policy, context, gs, home, rank, src, cur)
    ensures var prev := LastKept(policy, context, gs, src); prev != null && prev in home && prev in gs[src[|src| - 1]]
  {
    assert Rejoined(policy, context, gs, src[|src| - 1], NextKept(policy, context, gs, src, |src| - 1, cur));
  }

  /** Write the link of the last kept group. */
  method StoreNext(policy: Policy, context: int, prev: Pair, target: Pair?, ghost gs: seq<Chain>,
                   ghost home: map<Pair, nat>, ghost rank: map<Pair, nat>, ghost src: seq<nat>, ghost cur: Pair?)
    requires Placed(gs, home, rank) && LastAbove(src) && KeptLinked(policy, context, gs, home, rank, src, cur)
    requires src != [] && prev == LastKept(policy, context, gs, src)
    modifies prev`next
    ensures KeptLinked(policy, context, gs, home, rank, src, target)
  {
    prev.next := target;
    forall j: nat | j < |src|
      ensures src[j] < |gs| && Rejoined(policy, context, gs, src[j], NextKept(policy, context, gs, src, j, target))
    {
      assert old(Rejoined(policy, context, gs, src[j], NextKept(policy, context, gs, src, j, cur)));
    }
  }

  /** The groups from i on do not notice. */
  method StoreBehind(policy: Policy, context: int, prev: Pair, target: Pair?, ghost gs: seq<Chain>, ghost home: map<Pair, nat>,
                     ghost rank: map<Pair, nat>, ghost i: nat, ghost src: seq<nat>, ghost cur: Pair?)
    requires Placed(gs, home, rank) && LastAbove(src) && KeptLinked(policy, context, gs, home, rank, src, cur)
    requires src != [] && prev == LastKept(policy, context, gs, src)
    requires UntouchedFrom(gs, home, rank, i) && src[|src| - 1] < i
    modifies prev`next
    ensures KeptLinked(policy, context, gs, home, rank, src, target) && UntouchedFrom(gs, home, rank, i)
  {
    LastKeptExists(policy, context, gs, home, rank, src, cur);
    StoreNext(policy, context, prev, target, gs, home, rank, src, cur);
    forall l: nat | i <= l < |gs| ensures Untouched(gs, l) {
      assert old(Untouched(gs, l));
    }
  }

  /** Write the link that the tail pointer designates: that of the last kept group or, while
      there is none, the protocol's own. */
  method StoreLink(policy: Policy, context: int, proto: Pair, prev: Pair?, target: Pair?, ghost gs: seq<Chain>,
                   ghost home: map<Pair, nat>, ghost rank: map<Pair, nat>, ghost i: nat, ghost src: seq<nat>, ghost cur: Pair?)
    requires Placed(gs, home, rank) && KeptLinked(policy, context, gs, home, rank, src, cur)
    requires UntouchedFrom(gs, home, rank, i) && i <= |gs| && (exists k: nat :: k <= i && src == Survivors(policy, context, gs, k))
    requires proto.tnext == KeptHead(policy, context, gs, src, 0, cur) && prev == LastKept(policy, context, gs, src) && proto !in home
    modifies proto`tnext, {prev}`next
    ensures KeptLinked(policy, context, gs, home, rank, src, target) && UntouchedFrom(gs, home, rank, i)
    ensures proto.tnext == KeptHead(policy, context, gs, src, 0, target)
  {
    if prev == null {
      assert src == [] by {
        if src != [] {
          LastKeptExists(policy, context, gs, home, rank, src, cur);
        }
      }
      proto.tnext := target;
    } else {
      ghost var k: nat :| k <= i && src == Survivors(policy, context, gs, k);
      SurvivorsAbove(policy, context, gs, k);
      StoreBehind(policy, context, prev, target, gs, home, rank, i, src, cur);
    }
  }

  /** Where the loop over the groups stands: those before k are filtered and relinked, the
      tail pointer leads to group k, and from there on everything is as received. */
  ghost predicate Between(policy: Policy, proto: Pair, gs: seq<Chain>, home: map<Pair, nat>, rank: map<Pair, nat>,
                          k: nat, cur: Pair?, prev: Pair?, src: seq<nat>)
    reads proto, home.Keys
  {
    && Placed(gs, home, rank) && k <= |gs| && cur == Head(gs, k) && UntouchedFrom(gs, home, rank, k)
    && src == Survivors(policy, proto.context, gs, k)
    && KeptLinked(policy, proto.context, gs, home, rank, src, cur)
    && proto.tnext == KeptHead(policy, proto.context, gs, src, 0, cur)
    && prev == LastKept(policy, proto.context, gs, src)
    && proto !in home && Settled(policy, proto.context, gs, home, rank, k)
  }

  /** The kept nodes of group k become the next surviving group. */
  lemma GroupAdded(policy: Policy, context: int, gs: seq<Chain>, home: map<Pair, nat>, rank: map<Pair, nat>, k: nat,
                   src: seq<nat>, keep: Pair, nexttype: Pair?)
    requires Placed(gs, home, rank) && k < |gs| && keep == NodeAt(gs[k], At(policy, context, gs, k), 0)
    requires KeptLinked(policy, context, gs, home, rank, src, keep) && Rejoined(policy, context, gs, k, nexttype)
    requires src == Survivors(policy, context, gs, k)
    ensures src + [k] == Survivors(policy, context, gs, k + 1)
    ensures KeptLinked(policy, context, gs, home, rank, src + [k], nexttype)
    ensures KeptHead(policy, context, gs, src + [k], 0, nexttype) == KeptHead(policy, context, gs, src, 0, keep)
    ensures LastKept(policy, context, gs, src + [k]) == keep
  {
    var more := src + [k];
    forall j: nat | j < |more|
      ensures more[j] < |gs| && Rejoined(policy, context, gs, more[j], NextKept(policy, context, gs, more, j, nexttype))
    {
      if j < |src| {
        var next := NextKept(policy, context, gs, src, j, keep);
        assert NextKept(policy, context, gs, more, j, nexttype) == next;
        assert Rejoined(policy, context, gs, src[j], next);
      }
    }
  }

  /** Nothing of group k is left: the tail pointer is made to skip it. */
  method SkipGroup(policy: Policy, proto: Pair, prev: Pair?, nexttype: Pair?, ghost gs: seq<Chain>, ghost home: map<Pair, nat>,
                   ghost rank: map<Pair, nat>, ghost k: nat, ghost src: seq<nat>, ghost cur: Pair?)
    requires Placed(gs, home, rank) && k < |gs| && nexttype == Head(gs, k + 1) && UntouchedFrom(gs, home, rank, k + 1)
    requires src == Survivors(policy, proto.context, gs, k) && At(policy, proto.context, gs, k) == []
    requires KeptLinked(policy, proto.context, gs, home, rank, src, cur)
    requires proto.tnext == KeptHead(policy, proto.context, gs, src, 0, cur) && prev == LastKept(policy, proto.context, gs, src)
    requires proto !in home && Settled(policy, proto.context, gs, home, rank, k + 1)
    modifies proto`tnext, {prev}`next
    ensures Between(policy, proto, gs, home, rank, k + 1, nexttype, prev, src)
  {
    StoreLink(policy, proto.context, proto, prev, nexttype, gs, home, rank, k + 1, src, cur);
  }

  lemma LastIsElsewhere(policy: Policy, context: int, gs: seq<Chain>, home: map<Pair, nat>, rank: map<Pair, nat>, k: nat, src: seq<nat>, cur: Pair?)
    requires Placed(gs, home, rank) && k < |gs| && src == Survivors(policy, context, gs, k)
    requires KeptLinked(policy, context, gs, home, rank, src, cur)
    ensures var prev := LastKept(policy, context, gs, src); prev == null || prev !in gs[k]
  {
    if src != [] {
      LastKeptExists(policy, context, gs, home, rank, src, cur);
      GroupsDisjoint(gs, home, rank, k, src[|src| - 1]);
    }
  }

  /** The tail pointer leads to what is left of group k, which does not notice. */
  method StoreKept(policy: Policy, proto: Pair, prev: Pair?, keep: Pair, ghost gs: seq<Chain>, ghost home: map<Pair, nat>,
                   ghost rank: map<Pair, nat>, ghost k: nat, ghost src: seq<nat>, ghost cur: Pair?, ghost nexttype: Pair?)
    requires Placed(gs, home, rank) && k < |gs| && UntouchedFrom(gs, home, rank, k + 1)
    requires src == Survivors(policy, proto.context, gs, k) && Rejoined(policy, proto.context, gs, k, nexttype)
    requires KeptLinked(policy, proto.context, gs, home, rank, src, cur) && proto !in home
    requires proto.tnext == KeptHead(policy, proto.context, gs, src, 0, cur) && prev == LastKept(policy, proto.context, gs, src)
    modifies proto`tnext, {prev}`next
    ensures UntouchedFrom(gs, home, rank, k + 1) && Rejoined(policy, proto.context, gs, k, nexttype)
    ensures KeptLinked(policy, proto.context, gs, home, rank, src, keep)
    ensures proto.tnext == KeptHead(policy, proto.context, gs, src, 0, keep)
  {
    LastIsElsewhere(policy, proto.context, gs, home, rank, k, src, cur);
    assert proto !in gs[k];
    StoreLink(policy, proto.context, proto, prev, keep, gs, home, rank, k + 1, src, cur);
  }

  /** What is left of group k is linked in. */
  method LinkGroup(policy: Policy, proto: Pair, prev: Pair?, keep: Pair, nexttype: Pair?, ghost gs: seq<Chain>, ghost home: map<Pair, nat>,
                   ghost rank: map<Pair, nat>, ghost k: nat, ghost src: seq<nat>, ghost cur: Pair?)
    requires Placed(gs, home, rank) && k < |gs| && nexttype == Head(gs, k + 1) && UntouchedFrom(gs, home, rank, k + 1)
    requires src == Survivors(policy, proto.context, gs, k) && Rejoined(policy, proto.context, gs, k, nexttype)
    requires keep == NodeAt(gs[k], At(policy, proto.context, gs, k), 0)
    requires KeptLinked(policy, proto.context, gs, home, rank, src, cur)
    requires proto.tnext == KeptHead(policy, proto.context, gs, src, 0, cur) && prev == LastKept(policy, proto.context, gs, src)
    requires proto !in home && Settled(policy, proto.context, gs, home, rank, k + 1)
    modifies proto`tnext, {prev}`next
    ensures Between(policy, proto, gs, home, rank, k + 1, nexttype, keep, src + [k])
  {
    StoreKept(policy, proto, prev, keep, gs, home, rank, k, src, cur, nexttype);
    GroupAdded(policy, proto.context, gs, home, rank, k, src, keep, nexttype);
  }

  /** One round of the loop over the groups. */
  method Round(policy: Policy, proto: Pair, cur: Pair, prev: Pair?, ghost gs: seq<Chain>, ghost home: map<Pair, nat>,
               ghost rank: map<Pair, nat>, ghost k: nat, ghost src: seq<nat>)
    returns (next: Pair?, prev': Pair?, removed: nat, emptied: bool, ghost src': seq<nat>)
    requires Between(policy, proto, gs, home, rank, k, cur, prev, src) && k < |gs|
    modifies proto`tnext, home.Keys
    ensures Between(policy, proto, gs, home, rank, k + 1, next, prev', src')
    ensures removed + |At(policy, proto.context, gs, k)| == |gs[k]|
    ensures emptied <==> At(policy, proto.context, gs, k) == []
  {
    assert Untouched(gs, k) && forall n | n in gs[k] :: n in home.Keys;
    if src != [] {
      LastKeptExists(policy, proto.context, gs, home, rank, src, cur);
    }
    next := cur.next;
    var keep;
    keep, removed := FilterOne(policy, proto.context, cur, gs, home, rank, k, src);
    emptied := keep == null;
    if keep == null {
      SkipGroup(policy, proto, prev, next, gs, home, rank, k, src, cur);
      prev', src' := prev, src;
    } else {
      PointTo(policy, proto.context, keep, next, gs, home, rank, k, src, cur);
      LinkGroup(policy, proto, prev, keep, next, gs, home, rank, k, src, cur);
      prev', src' := keep, src + [k];
    }
  }

  /** The first kept node of group k takes over the pointer to the next group. */
  method PointTo(policy: Policy, context: int, keep: Pair, next: Pair?, ghost gs: seq<Chain>, ghost home: map<Pair, nat>,
                 ghost rank: map<Pair, nat>, ghost k: nat, ghost src: seq<nat>, ghost cur: Pair?)
    requires Placed(gs, home, rank) && k < |gs| && UntouchedFrom(gs, home, rank, k + 1)
    requires Joined(keep, gs[k], At(policy, context, gs, k), |gs[k]|) && Bare(gs[k], |gs[k]|)
    requires src == Survivors(policy, context, gs, k) && KeptLinked(policy, context, gs, home, rank, src, cur)
    modifies keep`next
    ensures Rejoined(policy, context, gs, k, next)
    ensures UntouchedFrom(gs, home, rank, k + 1) && KeptLinked(policy, context, gs, home, rank, src, cur)
  {
    keep.next := next;
    forall l: nat | k < l < |gs| ensures Untouched(gs, l) {
      assert old(Untouched(gs, l));
    }
    forall j: nat | j < |src|
      ensures Rejoined(policy, context, gs, src[j], NextKept(policy, context, gs, src, j, cur))
    {
      assert old(Rejoined(policy, context, gs, src[j], NextKept(policy, context, gs, src, j, cur)));
    }
  }

  ghost function GroupValues(gs: seq<Chain>): (r: seq<Group>)
    ensures |r| == |gs|
  {
    seq(|gs|, k requires 0 <= k < |gs| => Values(gs[k]))
  }

  /** The filter on the groups of one protocol.  Afterwards the list holds the surviving
      groups in their old order, each with its kept nodes in their old order. */
  method FilterProtocol(policy: Policy, proto: Pair, ghost gs: seq<Chain>, ghost home: map<Pair, nat>, ghost rank: map<Pair, nat>)
    returns (removed: nat, drop: bool)
    requires Placed(gs, home, rank) && UntouchedFrom(gs, home, rank, 0) && proto.tnext == Head(gs, 0) && proto !in home
    modifies proto`tnext, home.Keys
    ensures var src := Survivors(policy, proto.context, gs, |gs|);
      && KeptLinked(policy, proto.context, gs, home, rank, src, null)
      && proto.tnext == KeptHead(policy, proto.context, gs, src, 0, null)
    ensures Settled(policy, proto.context, gs, home, rank, |gs|)
    ensures removed == RefusedBefore(policy, proto.context, GroupValues(gs), |gs|)
    ensures drop <==> Emptied(policy, Protocol(proto.context, GroupValues(gs)))
  {
    removed, drop := 0, false;
    var cur, prev: Pair? := proto.tnext, null;
    ghost var k: nat, src: seq<nat>, v := 0, [], GroupValues(gs);
    LoopStarts(policy, proto, gs, home, rank, v);
    while cur != null
      invariant Between(policy, proto, gs, home, rank, k, cur, prev, src)
      invariant Tally(policy, proto.context, v, k, removed, drop)
      decreases |gs| - k
    {
      cur, prev, removed, drop, src := CountedRound(policy, proto, cur, prev, removed, drop, gs, home, rank, k, src);
      k := k + 1;
    }
    LoopEnds(policy, proto, gs, home, rank, k, prev, src);
    AllSeen(policy, proto.context, v, k, removed, drop);
  }

  /** A round together with its count. */
  method CountedRound(policy: Policy, proto: Pair, cur: Pair, prev: Pair?, removed: nat, drop: bool, ghost gs: seq<Chain>,
                      ghost home: map<Pair, nat>, ghost rank: map<Pair, nat>, ghost k: nat, ghost src: seq<nat>)
    returns (next: Pair?, prev': Pair?, removed': nat, drop': bool, ghost src': seq<nat>)
    requires Between(policy, proto, gs, home, rank, k, cur, prev, src)
    requires Tally(policy, proto.context, GroupValues(gs), k, removed, drop)
    modifies proto`tnext, home.Keys
    ensures Between(policy, proto, gs, home, rank, k + 1, next, prev', src')
    ensures Tally(policy, proto.context, GroupValues(gs), k + 1, removed', drop')
  {
    TallyStep(policy, proto.context, gs, k, removed, drop);
    var more, emptied;
    next, prev', more, emptied, src' := Round(policy, proto, cur, prev, gs, home, rank, k, src);
    removed', drop' := removed + more, drop || emptied;
  }

  lemma AllSeen(policy: Policy, context: int, v: seq<Group>, k: nat, removed: nat, drop: bool)
    requires Tally(policy, context, v, k, removed, drop) && k == |v|
    ensures removed == RefusedBefore(policy, context, v, |v|)
    ensures drop <==> Emptied(policy, Protocol(context, v))
  {
  }

  lemma LoopStarts(policy: Policy, proto: Pair, gs: seq<Chain>, home: map<Pair, nat>, rank: map<Pair, nat>, v: seq<Group>)
    requires Placed(gs, home, rank) && UntouchedFrom(gs, home, rank, 0) && proto.tnext == Head(gs, 0) && proto !in home
    ensures Between(policy, proto, gs, home, rank, 0, proto.tnext, null, []) && Tally(policy, proto.context, v, 0, 0, false)
  {
  }

  lemma LoopEnds(policy: Policy, proto: Pair, gs: seq<Chain>, home: map<Pair, nat>, rank: map<Pair, nat>, k: nat, prev: Pair?, src: seq<nat>)
    requires Between(policy, proto, gs, home, rank, k, null, prev, src)
    ensures k == |gs| && src == Survivors(policy, proto.context, gs, |gs|)
    ensures KeptLinked(policy, proto.context, gs, home, rank, src, null) && Settled(policy, proto.context, gs, home, rank, |gs|)
    ensures proto.tnext == KeptHead(policy, proto.context, gs, src, 0, null)
  {
  }

  /** What the loop has counted and seen after i groups. */
  ghost predicate Tally(policy: Policy, context: int, v: seq<Group>, i: nat, removed: nat, drop: bool) {
    && i <= |v|
    && removed == RefusedBefore(policy, context, v, i)
    && (drop <==> exists k :: 0 <= k < i && Keep(policy, context, v[k]) == [])
  }

  lemma TallyStep(policy: Policy, context: int, gs: seq<Chain>, k: nat, removed: nat, drop: bool)
    requires k < |gs| && Tally(policy, context, GroupValues(gs), k, removed, drop)
    ensures |At(policy, context, gs, k)| <= |gs[k]|
    ensures Tally(policy, context, GroupValues(gs), k + 1, removed + |gs[k]| - |At(policy, context, gs, k)|,
                  drop || At(policy, context, gs, k) == [])
  {
    KeptInGroup(policy, context, Values(gs[k]));
  }

  /** Positions and values tell the same story about a group. */
  lemma KeptInGroup(policy: Policy, context: int, v: Group)
    ensures |KeepAt(policy, context, v, |v|)| == |Keep(policy, context, v)| <= |v|
  {
    KeepAtValues(policy, context, v, |v|);
    assert v[..|v|] == v;
  }

  // ---------------------------------------------------------------- back to values

  /** With no group emptied, every group survives. */
  lemma {:induction false} AllSurvive(policy: Policy, context: int, gs: seq<Chain>, i: nat)
    requires i <= |gs| && forall k | 0 <= k < i :: Keep(policy, context, Values(gs[k])) != []
    ensures var src := Survivors(policy, context, gs, i); |src| == i && forall j | 0 <= j < i :: src[j] == j
  {
    if i > 0 {
      AllSurvive(policy, context, gs, i - 1);
      KeptInGroup(policy, context, Values(gs[i - 1]));
    }
  }

  /** The kept nodes of a group carry what the filter on values keeps of it. */
  lemma KeptTransforms(policy: Policy, context: int, g: Chain)
    ensures var at := KeepAt(policy, context, Values(g), |g|);
      Keep(policy, context, Values(g)) == seq(|at|, j requires 0 <= j < |at| => g[at[j]].trns)
  {
    KeepAtValues(policy, context, Values(g), |g|);
    assert Values(g)[..|g|] == Values(g);
  }
}
