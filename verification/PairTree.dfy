/** The prop_pair structure of iked/isakmp.c: nodes joined by two pointers, and
    proppair_discard, which frees everything that can be reached from a node. */
module PairTree {
  import opened Wrappers
  import opened Proposals

  /** A protocol of a proposal, with the context that policies look at, or one alternative. */
  class Pair {
    const trns: Alternative
    const context: int
    var next: Pair?
    var tnext: Pair?
    var live: bool    // not freed yet

    constructor (trns: Alternative, context: int)
      ensures this.trns == trns && this.context == context && next == null && tnext == null && live
    {
      this.trns, this.context := trns, context;
      next, tnext, live := null, null, true;
    }

    /** racoon_free: never twice. */
    method Free()
      requires live
      modifies this`live
      ensures !live
    {
      live := false;
    }
  }

  /** What hangs on a pointer: over next and over tnext. */
  datatype Tree = Leaf | Node(node: Pair, next: Tree, tnext: Tree)

  ghost function Nodes(t: Tree): set<Pair> {
    if t.Leaf? then {} else {t.node} + Nodes(t.next) + Nodes(t.tnext)
  }

  ghost function Size(t: Tree): nat {
    if t.Leaf? then 0 else 1 + Size(t.next) + Size(t.tnext)
  }

  /** The pointers from p on form the tree, in which no node occurs twice. */
  ghost predicate Shape(p: Pair?, t: Tree)
    reads Nodes(t)`next, Nodes(t)`tnext
    decreases t
  {
    if t.Leaf? then p == null
    else
      && p == t.node && Shape(t.node.next, t.next) && Shape(t.node.tnext, t.tnext)
      && t.node !in Nodes(t.next) && t.node !in Nodes(t.tnext) && Nodes(t.next) !! Nodes(t.tnext)
  }

  lemma NodeShape(p: Pair, l: Tree, r: Tree)
    requires Shape(p.next, l) && Shape(p.tnext, r)
    requires p !in Nodes(l) && p !in Nodes(r) && Nodes(l) !! Nodes(r)
    ensures Shape(p, Node(p, l, r))
  {
  }

  ghost predicate Live(s: set<Pair>)
    reads s`live
  {
    forall n | n in s :: n.live
  }

  ghost predicate Dead(s: set<Pair>)
    reads s`live
  {
    forall n | n in s :: !n.live
  }

  lemma {:induction false} NodesExist(t: Tree)
    ensures forall n | n in Nodes(t) :: allocated(n)
  {
    if t.Node? {
      NodesExist(t.next);
      NodesExist(t.tnext);
    }
  }

  /** proppair_discard: recursion over next, loop over tnext.  Every node is freed, each of
      them once, and none is looked at after that. */
  method Discard(first: Pair?, ghost t: Tree)
    requires Shape(first, t) && Live(Nodes(t))
    modifies Nodes(t)`live
    ensures Dead(Nodes(t))
    decreases Size(t)
  {
    var p := first;
    ghost var rest, freed: set<Pair> := t, {};
    while p != null
      invariant Size(rest) <= Size(t) && freed + Nodes(rest) == Nodes(t) && freed !! Nodes(rest)
      invariant Shape(p, rest) && Live(Nodes(rest)) && Dead(freed)
      decreases Size(rest)
    {
      ghost var l, r := rest.next, rest.tnext;
      NodesExist(l);
      NodesExist(r);
      assert p.live;
      if p.next != null {
        Discard(p.next, l);
      }
      var nextp := p.tnext;
      p.Free();
      freed, rest := freed + {p} + Nodes(l), r;
      p := nextp;
    }
  }
}
