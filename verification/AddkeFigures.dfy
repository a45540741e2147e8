/** The offers of additional key exchanges in the figures of RFC 9370: transform types 6 to 12,
    the registered methods, and which groups end up in a proposal. */
module AddkeFigures {
  import opened Addke
  import opened Arith
  import opened Proposals
  import opened Wrappers

  /** The registered number of a method that the tables know. */
  ghost predicate Registered(a: Alg, id: nat) {
    || (a == MlKem512 && id == 35) || (a == MlKem768 && id == 36) || (a == MlKem1024 && id == 37)
    || (a.DhGroup? && a.group > 0 && id == a.group)
  }

  lemma CodeIsRegistered(a: Alg)
    ensures Code(a) != 0 ==> Registered(a, Code(a))
    ensures Code(a) == 0 ==> forall id: nat :: !Registered(a, id)
  {
  }

  /** Each of the first seven methods is known and different from those before it. */
  ghost predicate Usable(algs: seq<Alg>, ids: seq<nat>) {
    && |ids| == (if |algs| < 7 then |algs| else 7)
    && (forall i: nat | i < |ids| :: Registered(algs[i], ids[i]))
    && (forall i: nat, k: nat | i < k < |ids| :: ids[i] != ids[k])
  }

  /** The chain: one transform per method, of types 6, 7 and so on, with the method's number. */
  lemma RoundsInFigures(algs: seq<Alg>, ids: seq<nat>)
    requires Usable(algs, ids)
    ensures Chain(algs, true) == seq(|ids|, i requires 0 <= i < |ids| => [Some(Transform(6 + i, ids[i]))])
  {
    forall i: nat | i < |ids| ensures Code(algs[i]) == ids[i] {
      assert Registered(algs[i], ids[i]);
    }
    assert Buildable(Counted(algs));
  }

  /** And there is none when the methods cannot be used or memory is missing. */
  lemma NoRoundsOtherwise(algs: seq<Alg>, alloc: bool)
    requires !alloc || forall ids: seq<nat> :: !Usable(algs, ids)
    ensures Chain(algs, alloc) == []
  {
    if alloc && Buildable(Counted(algs)) {
      var c := Counted(algs);
      var ids := seq(|c|, i requires 0 <= i < |c| => Code(c[i]));
      forall i: nat | i < |ids| ensures Registered(algs[i], ids[i]) {
        CodeIsRegistered(algs[i]);
        assert c[i] == algs[i];
      }
      assert Usable(algs, ids);
    }
  }

  /** Without a configured list: ML-KEM-768 or nothing, in one round. */
  lemma DefaultOffer(mem: Memory)
    ensures ToOffer([], mem) == if mem.groups then [[Some(Transform(6, 36)), Some(Transform(6, 0))]] else []
  {
  }

  /** A list that begins with the entry for none switches the offer off; any other is taken as
      it is. */
  lemma ConfiguredOffer(offer: seq<Alg>, mem: Memory)
    requires offer != []
    ensures ToOffer(offer, mem) == if offer[0] == NoAddke then [] else Chain(offer, mem.groups)
  {
  }

  ghost predicate OfType(g: Group, t: nat) {
    g != [] && g[0].Some? && g[0].value.ttype == t
  }

  lemma AddkeTypes(g: Group)
    ensures IsAddke(g) <==> exists t: nat :: 6 <= t <= 12 && OfType(g, t)
  {
    if IsAddke(g) {
      assert OfType(g, g[0].value.ttype);
    }
  }

  /** Taking the rounds out goes group by group: those of types 6 to 12 go, the others stay in
      their order. */
  lemma PlainOfOne(g: Group)
    ensures Plain([g]) == if exists t: nat :: 6 <= t <= 12 && OfType(g, t) then [] else [g]
  {
    AddkeTypes(g);
    PlainStep([g]);
  }

  lemma {:induction false} PlainOfBoth(a: seq<Group>, b: seq<Group>)
    ensures Plain(a + b) == Plain(a) + Plain(b)
    decreases |a|
  {
    if a == [] {
      assert a + b == b;
    } else {
      assert (a + b)[1..] == a[1..] + b;
      PlainStep(a);
      PlainStep(a + b);
      PlainOfBoth(a[1..], b);
    }
  }

  // ---------------------------------------------------------------- the child SA offer

  /** The ordinary groups that are configured stand in the proposal: encryption and integrity at
      the front, DH and sequence numbers at the end. */
  lemma BuiltIsConfigured(c: ChildConf)
    ensures var b, e := Built(c), if c.encr.Some? then 1 else 0;
      && |b| > 0 && b[|b| - 1] == c.esn
      && (c.encr.Some? ==> b[0] == c.encr.value)
      && (c.integ.Some? ==> |b| > e && b[e] == c.integ.value)
      && (c.dh.Some? ==> |b| > 1 && b[|b| - 2] == c.dh.value)
  {
    var front, rounds, back := Optional(c.encr) + Optional(c.integ), FirstRound(c), Optional(c.dh) + [c.esn];
    assert Built(c) == front + rounds + back;
    AtFront(front, rounds + back);
    assert Built(c) == front + (rounds + back);
    AtEnd(front + rounds, back);
  }

  lemma AtFront(a: seq<Group>, b: seq<Group>)
    ensures forall i: nat | i < |a| :: (a + b)[i] == a[i]
  {
  }

  lemma AtEnd(a: seq<Group>, b: seq<Group>)
    ensures forall i: nat | i < |b| :: (a + b)[|a| + i] == b[i]
  {
  }

  lemma PlainAround(front: seq<Group>, rounds: seq<Group>, back: seq<Group>)
    requires !HasAddke(front) && !HasAddke(back) && forall k | 0 <= k < |rounds| :: IsAddke(rounds[k])
    ensures Plain(front + rounds + back) == front + back
  {
    PlainOfBoth(front + rounds, back);
    PlainAppend(front, rounds);
    PlainOfPlain(front);
    PlainOfPlain(back);
  }

  lemma OptionalIsPlain(g: Option<Group>)
    requires g.Some? ==> !IsAddke(g.value)
    ensures !HasAddke(Optional(g)) && |Optional(g)| == if g.Some? then 1 else 0
  {
  }

  lemma PiecesArePlain(c: ChildConf)
    requires IsChildConf(c)
    ensures !HasAddke(Optional(c.encr) + Optional(c.integ)) && !HasAddke(Optional(c.dh) + [c.esn])
  {
    OptionalIsPlain(c.encr);
    OptionalIsPlain(c.integ);
    OptionalIsPlain(c.dh);
    OptionalIsPlain(Some(c.esn));
    HasAddkeAppend(Optional(c.encr), Optional(c.integ));
    HasAddkeAppend(Optional(c.dh), [c.esn]);
  }

  lemma FirstRoundIsRound(c: ChildConf)
    ensures forall k | 0 <= k < |FirstRound(c)| :: IsAddke(FirstRound(c)[k])
  {
  }

  /** And nothing else of their kind does. */
  lemma NothingElseBuilt(c: ChildConf)
    requires IsChildConf(c) && !Unbuildable(c)
    ensures Plain(Built(c)) == Optional(c.encr) + Optional(c.integ) + (Optional(c.dh) + [c.esn])
    ensures |Plain(Built(c))| ==
      (if c.encr.Some? then 1 else 0) + (if c.integ.Some? then 1 else 0) + (if c.dh.Some? then 1 else 0) + 1
  {
    var front, back := Optional(c.encr) + Optional(c.integ), Optional(c.dh) + [c.esn];
    assert Built(c) == front + FirstRound(c) + back;
    PiecesArePlain(c);
    FirstRoundIsRound(c);
    PlainAround(front, FirstRound(c), back);
  }

  /** The gate is open and a list is configured: the first round, of type 6, stands before the DH
      group; otherwise there is no round. */
  lemma BuiltRound(c: ChildConf)
    requires IsChildConf(c) && !Unbuildable(c)
    ensures HasAddke(Built(c)) <==> c.addke.Some?
    ensures c.addke.Some? ==>
      exists k: nat, id: nat :: k < |Built(c)| && Registered(c.addke.value[0], id) && Built(c)[k] == [Some(Transform(6, id))]
  {
    var front, rounds, back := Optional(c.encr) + Optional(c.integ), FirstRound(c), Optional(c.dh) + [c.esn];
    assert Built(c) == front + rounds + back;
    PiecesArePlain(c);
    HasAddkeAppend(front + rounds, back);
    HasAddkeAppend(front, rounds);
    if c.addke.Some? {
      var algs := c.addke.value;
      assert Chain(algs, c.alloc) == Rounds(Counted(algs)) && algs != [] && rounds == [Round(0, algs[0])];
      assert IsAddke(rounds[0]);
      CodeIsRegistered(algs[0]);
      assert Counted(algs)[0] == algs[0] && Code(algs[0]) != 0;
      assert Built(c)[|front|] == rounds[0];
    }
  }

  // ---------------------------------------------------------------- later changes

  /** A part that is asked for cannot be made. */
  ghost predicate PartMissing(c: ChildConf) {
    || c.encr == Some([]) || c.integ == Some([]) || c.dh == Some([]) || c.esn == []
    || (c.addke.Some? && Chain(c.addke.value, c.alloc) == [])
  }

  /** Building replaces the groups by those configured, or leaves none when a part is missing. */
  lemma BuildReplaces(gs: seq<Group>, c: ChildConf)
    ensures Apply(gs, Build(c)) == if PartMissing(c) then [] else Built(c)
  {
  }

  /** The rekey group: appended exactly if no group of type 4 is there, one is asked for and it
      can be made. */
  lemma RekeyGroup(gs: seq<Group>, force: bool, confs: seq<IpsecConf>, dh: Group)
    ensures Apply(gs, AddRekeyDh(force, confs, dh)) ==
      if (exists k: nat :: k < |gs| && OfType(gs[k], 4)) || dh == [] || !(force || exists k: nat :: k < |confs| && Lists(confs[k]))
      then gs else gs + [dh]
  {
    if HasType(gs, DH) {
      var k: nat :| k < |gs| && gs[k] != [] && gs[k][0].Some? && gs[k][0].value.ttype == DH;
      assert OfType(gs[k], 4);
    }
    if SomeWantsAddke(confs) {
      var k: nat :| k < |confs| && WantsAddke(confs[k]);
      assert Lists(confs[k]);
    }
    forall k: nat | k < |confs| && Lists(confs[k]) ensures WantsAddke(confs[k]) {
    }
  }

  /** A configuration lists methods for ESP, or has no ESP parameters and lists them for AH. */
  ghost predicate Lists(conf: IpsecConf) {
    (conf.esp.Some? && conf.esp.value != []) || (conf.esp.None? && conf.ah.Some? && conf.ah.value != [])
  }

  /** The list that a rekey takes: that of the first configuration with a non-empty one. */
  lemma {:induction false} FirstListedIsFirst(confs: seq<IpsecConf>, k: nat)
    requires k <= |confs| && forall i: nat | i < k :: !(confs[i].esp.Some? && confs[i].esp.value != [])
    requires k < |confs| ==> confs[k].esp.Some? && confs[k].esp.value != []
    ensures FirstListed(confs) == if k < |confs| then confs[k].esp.value else []
    decreases k
  {
    if k > 0 {
      assert !(confs[0].esp.Some? && confs[0].esp.value != []);
      forall i: nat | i < k - 1 ensures !(confs[1..][i].esp.Some? && confs[1..][i].esp.value != []) {
        assert confs[1..][i] == confs[i + 1];
      }
      FirstListedIsFirst(confs[1..], k - 1);
    }
  }
}
