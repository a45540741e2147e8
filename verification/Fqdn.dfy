/** Matching a certificate's DNS name against an asserted identity: fqdn_id_match, against a
    specification by labels (section 6.4.3 of RFC 6125). */
module Fqdn {
  import opened Bytes
  import opened Wrappers

  type Name = seq<byte>

  const DOT: byte := 46
  const STAR: byte := 42
  const NUL: byte := 0

  function Lower(b: byte): byte {
    if 65 <= b <= 90 then b + 32 else b
  }

  /** strncasecmp of two names of the same length. */
  predicate SameName(a: Name, b: Name) {
    |a| == |b| && forall i | 0 <= i < |a| :: Lower(a[i]) == Lower(b[i])
  }

  // ---------------------------------------------------------------- labels

  /** The position of the first c, or the length. */
  function First(s: Name, c: byte): (k: nat)
    ensures k <= |s| && (k < |s| ==> s[k] == c) && forall i | 0 <= i < k :: s[i] != c
    ensures k < |s| <==> c in s
  {
    if s == [] || s[0] == c then 0 else 1 + First(s[1..], c)
  }

  /** The parts between the dots. */
  function Labels(s: Name): (ls: seq<Name>)
    ensures |ls| >= 1
    decreases |s|
  {
    var k := First(s, DOT);
    if k == |s| then [s] else [s[..k]] + Labels(s[k + 1..])
  }

  predicate SameLabels(a: seq<Name>, b: seq<Name>) {
    |a| == |b| && forall k | 0 <= k < |a| :: SameName(a[k], b[k])
  }

  /** Either the names agree label by label and neither is a pattern, or a wildcard is allowed
      and the certificate is a star in front of at least two star-free labels that agree with
      all but the first, non-empty label of the asserted name. */
  predicate Matches(cert: Name, asserted: Name, allowWildcard: bool) {
    && asserted != [] && STAR !in asserted && NUL !in asserted
    && ((STAR !in cert && SameLabels(Labels(cert), Labels(asserted)))
        || (allowWildcard && WildcardMatches(Labels(cert), Labels(asserted))))
  }

  predicate WildcardMatches(cert: seq<Name>, asserted: seq<Name>) {
    && |cert| >= 3 && |asserted| == |cert|
    && cert[0] == [STAR] && asserted[0] != []
    && forall k | 1 <= k < |cert| :: STAR !in cert[k] && SameName(cert[k], asserted[k])
  }

  lemma SameFirstDot(a: Name, b: Name)
    requires SameName(a, b)
    ensures First(a, DOT) == First(b, DOT)
  {
    forall i | 0 <= i < |a| ensures a[i] == DOT <==> b[i] == DOT {
      assert Lower(a[i]) == Lower(b[i]);
    }
  }

  lemma LabelsSplit(s: Name, k: nat)
    requires k == First(s, DOT) < |s|
    ensures Labels(s) == [s[..k]] + Labels(s[k + 1..])
  {
  }

  lemma SameConcat(a: Name, b: Name, k: nat)
    requires k < |a| && k < |b| && a[k] == DOT == b[k]
    ensures SameName(a, b) <==> SameName(a[..k], b[..k]) && SameName(a[k + 1..], b[k + 1..])
  {
    if SameName(a[..k], b[..k]) && SameName(a[k + 1..], b[k + 1..]) {
      forall i | 0 <= i < |a| ensures Lower(a[i]) == Lower(b[i]) {
        if i < k {
          assert a[..k][i] == a[i] && b[..k][i] == b[i];
        } else if i > k {
          assert a[k + 1..][i - k - 1] == a[i] && b[k + 1..][i - k - 1] == b[i];
        }
      }
    }
  }

  lemma ConsLabels(x: Name, y: Name, xs: seq<Name>, ys: seq<Name>)
    ensures SameLabels([x] + xs, [y] + ys) <==> SameName(x, y) && SameLabels(xs, ys)
  {
    var a, b := [x] + xs, [y] + ys;
    if SameLabels(a, b) {
      assert SameName(a[0], b[0]);
      forall k | 0 <= k < |xs| ensures SameName(xs[k], ys[k]) {
        assert SameName(a[k + 1], b[k + 1]);
      }
    }
  }

  lemma CompareSplit(a: Name, b: Name, k: nat, l: nat)
    requires k == First(a, DOT) < |a| && l == First(b, DOT) < |b|
    requires SameName(a[k + 1..], b[l + 1..]) <==> SameLabels(Labels(a[k + 1..]), Labels(b[l + 1..]))
    ensures SameName(a, b) <==> SameLabels(Labels(a), Labels(b))
  {
    LabelsSplit(a, k);
    LabelsSplit(b, l);
    ConsLabels(a[..k], b[..l], Labels(a[k + 1..]), Labels(b[l + 1..]));
    if SameName(a, b) {
      SameFirstDot(a, b);
    }
    if k == l {
      SameConcat(a, b, k);
    }
  }

  lemma CompareWhole(a: Name, b: Name)
    requires First(a, DOT) == |a| || First(b, DOT) == |b|
    ensures SameName(a, b) <==> SameLabels(Labels(a), Labels(b))
  {
    if SameName(a, b) {
      SameFirstDot(a, b);
      assert Labels(a) == [a] && Labels(b) == [b];
    }
  }

  /** Comparing names octet by octet is comparing them label by label. */
  lemma {:induction false} LabelsCompare(a: Name, b: Name)
    ensures SameName(a, b) <==> SameLabels(Labels(a), Labels(b))
    decreases |a|
  {
    var k, l := First(a, DOT), First(b, DOT);
    if k < |a| && l < |b| {
      LabelsCompare(a[k + 1..], b[l + 1..]);
      CompareSplit(a, b, k, l);
    } else {
      CompareWhole(a, b);
    }
  }

  predicate AnyStar(ls: seq<Name>) {
    exists k | 0 <= k < |ls| :: STAR in ls[k]
  }

  lemma AnyStarCons(x: Name, ls: seq<Name>)
    ensures AnyStar([x] + ls) <==> STAR in x || AnyStar(ls)
  {
    var all := [x] + ls;
    if STAR in x {
      assert STAR in all[0];
    }
    if AnyStar(ls) {
      var k :| 0 <= k < |ls| && STAR in ls[k];
      assert STAR in all[k + 1];
    }
  }

  lemma StarSplit(s: Name, k: nat)
    requires k < |s| && s[k] == DOT
    ensures STAR in s <==> STAR in s[..k] || STAR in s[k + 1..]
  {
    assert s == s[..k] + [DOT] + s[k + 1..];
  }

  lemma {:induction false} StarInLabels(s: Name)
    ensures STAR in s <==> AnyStar(Labels(s))
    decreases |s|
  {
    var k := First(s, DOT);
    if k == |s| {
      AnyStarCons(s, []);
      assert [s] + [] == [s];
    } else {
      StarInLabels(s[k + 1..]);
      StarSplit(s, k);
      LabelsSplit(s, k);
      AnyStarCons(s[..k], Labels(s[k + 1..]));
    }
  }

  // ---------------------------------------------------------------- the code

  method IndexOf(s: Name, c: byte) returns (k: nat)
    ensures k == First(s, c)
  {
    k := 0;
    while k < |s| && s[k] != c
      invariant k <= |s| && forall i | 0 <= i < k :: s[i] != c
    {
      k := k + 1;
    }
  }

  method EqualIgnoringCase(a: Name, b: Name) returns (same: bool)
    requires |a| == |b|
    ensures same <==> SameName(a, b)
  {
    for i := 0 to |a|
      invariant forall j | 0 <= j < i :: Lower(a[j]) == Lower(b[j])
    {
      if Lower(a[i]) != Lower(b[i]) {
        return false;
      }
    }
    same := true;
  }

  /** fqdn_id_match; None stands for a null pointer. */
  method FqdnIdMatch(certName: Option<Name>, assertedName: Option<Name>, allowWildcard: bool) returns (ok: bool)
    ensures ok <==> certName.Some? && assertedName.Some? && Matches(certName.value, assertedName.value, allowWildcard)
  {
    if certName.None? || assertedName.None? || assertedName.value == [] {
      return false;
    }
    var cert, asserted := certName.value, assertedName.value;
    var star := IndexOf(asserted, STAR);
    var nul := IndexOf(asserted, NUL);
    if star < |asserted| || nul < |asserted| {
      return false;
    }
    if |cert| >= 2 && cert[0] == STAR && cert[1] == DOT {
      ok := WildcardMatch(cert, asserted, allowWildcard);
      return;
    }
    NoWildcard(cert, asserted);
    LabelsCompare(cert, asserted);
    star := IndexOf(cert, STAR);
    if star < |cert| || |cert| != |asserted| {
      return false;
    }
    ok := EqualIgnoringCase(cert, asserted);
  }

  /** Without a star label in front there is no wildcard match. */
  lemma NoWildcard(cert: Name, asserted: Name)
    requires !(|cert| >= 2 && cert[0] == STAR && cert[1] == DOT)
    ensures !WildcardMatches(Labels(cert), Labels(asserted))
  {
  }

  /** The branch for a certificate name that begins with a star label. */
  method WildcardMatch(cert: Name, asserted: Name, allowWildcard: bool) returns (ok: bool)
    requires |cert| >= 2 && cert[0] == STAR && cert[1] == DOT
    requires asserted != [] && STAR !in asserted && NUL !in asserted
    ensures ok <==> Matches(cert, asserted, allowWildcard)
  {
    var suffix := cert[2..];
    StarFirst(cert, suffix);
    if !allowWildcard {
      return false;
    }
    WildcardByNames(suffix, asserted);
    ok := SuffixFits(suffix, asserted);
  }

  /** The tests on the suffix of the certificate name and on the asserted name. */
  method SuffixFits(suffix: Name, asserted: Name) returns (ok: bool)
    ensures ok <==>
      var dot := First(asserted, DOT);
      && STAR !in suffix && DOT in suffix
      && 0 < dot < |asserted| && SameName(asserted[dot + 1..], suffix)
  {
    var star := IndexOf(suffix, STAR);
    var inner := IndexOf(suffix, DOT);
    if suffix == [] || star < |suffix| || inner == |suffix| {
      return false;
    }
    var dot := IndexOf(asserted, DOT);
    if dot == |asserted| || dot == 0 {
      return false;
    }
    if |asserted| - dot - 1 != |suffix| {
      return false;
    }
    ok := EqualIgnoringCase(asserted[dot + 1..], suffix);
  }

  lemma StarFirst(cert: Name, suffix: Name)
    requires |cert| >= 2 && cert[0] == STAR && cert[1] == DOT && suffix == cert[2..]
    ensures STAR in cert && Labels(cert) == [[STAR]] + Labels(suffix)
  {
    assert First(cert, DOT) == 1;
    assert cert[..1] == [STAR];
  }

  /** The wildcard rule said with names instead of labels. */
  lemma WildcardByNames(suffix: Name, asserted: Name)
    ensures WildcardMatches([[STAR]] + Labels(suffix), Labels(asserted)) <==>
      var dot := First(asserted, DOT);
      && STAR !in suffix && DOT in suffix
      && 0 < dot < |asserted| && SameName(asserted[dot + 1..], suffix)
  {
    var dot := First(asserted, DOT);
    if dot == |asserted| {
      assert |Labels(asserted)| == 1;
    } else {
      var rest := asserted[dot + 1..];
      LabelsSplit(asserted, dot);
      StarInLabels(suffix);
      TwoLabels(suffix);
      LabelsCompare(suffix, rest);
      TailLabels(Labels(suffix), Labels(rest), asserted[..dot]);
      SameNameSymmetric(suffix, rest);
    }
  }

  lemma SameNameSymmetric(a: Name, b: Name)
    ensures SameName(a, b) <==> SameName(b, a)
  {
  }

  lemma TwoLabels(s: Name)
    ensures |Labels(s)| >= 2 <==> DOT in s
  {
  }

  lemma TailLabels(ls: seq<Name>, rs: seq<Name>, y: Name)
    ensures WildcardMatches([[STAR]] + ls, [y] + rs) <==> |ls| >= 2 && y != [] && !AnyStar(ls) && SameLabels(ls, rs)
  {
    var a, b := [[STAR]] + ls, [y] + rs;
    if WildcardMatches(a, b) {
      forall k | 0 <= k < |ls| ensures STAR !in ls[k] && SameName(ls[k], rs[k]) {
        assert STAR !in a[k + 1] && SameName(a[k + 1], b[k + 1]);
      }
    }
  }

  // ---------------------------------------------------------------- in octets

  /** The same octet, or the two cases of one letter of the alphabet. */
  ghost predicate Alike(x: byte, y: byte) {
    x == y || (65 <= x <= 90 && y == x + 32) || (65 <= y <= 90 && x == y + 32)
  }

  ghost predicate AlikeNames(a: Name, b: Name) {
    |a| == |b| && forall i | 0 <= i < |a| :: Alike(a[i], b[i])
  }

  lemma SameIsAlike(a: Name, b: Name)
    ensures SameName(a, b) <==> AlikeNames(a, b)
  {
    if |a| == |b| {
      forall i | 0 <= i < |a| ensures Lower(a[i]) == Lower(b[i]) <==> Alike(a[i], b[i]) {
      }
    }
  }

  /** A certificate for "*." and a suffix with a dot in it, against one more non-empty label in
      front of an equal suffix; 42 is the star, 46 the dot. */
  ghost predicate StarFits(cert: Name, asserted: Name, first: Name, rest: Name, suffix: Name) {
    && cert == [42, 46] + suffix && asserted == first + [46] + rest
    && first != [] && 46 !in first && 46 in suffix && 42 !in suffix && AlikeNames(rest, suffix)
  }

  /** The whole rule in octets. */
  lemma MatchesInOctets(cert: Name, asserted: Name, allowWildcard: bool)
    ensures Matches(cert, asserted, allowWildcard) <==>
      && asserted != [] && 42 !in asserted && 0 !in asserted
      && ((42 !in cert && AlikeNames(cert, asserted))
          || (allowWildcard && exists first: Name, rest: Name, suffix: Name :: StarFits(cert, asserted, first, rest, suffix)))
  {
    LabelsCompare(cert, asserted);
    SameIsAlike(cert, asserted);
    WildcardInOctets(cert, asserted);
  }

  lemma WildcardInOctets(cert: Name, asserted: Name)
    ensures WildcardMatches(Labels(cert), Labels(asserted)) <==>
      exists first: Name, rest: Name, suffix: Name :: StarFits(cert, asserted, first, rest, suffix)
  {
    if WildcardMatches(Labels(cert), Labels(asserted)) {
      var first, rest, suffix := MatchesFits(cert, asserted);
    }
    forall first: Name, rest: Name, suffix: Name | StarFits(cert, asserted, first, rest, suffix)
      ensures WildcardMatches(Labels(cert), Labels(asserted))
    {
      FitsMatches(cert, asserted, first, rest, suffix);
    }
  }

  lemma StarInFront(cert: Name, asserted: Name)
    requires WildcardMatches(Labels(cert), Labels(asserted))
    ensures |cert| >= 2 && cert[0] == STAR && cert[1] == DOT
  {
    if !(|cert| >= 2 && cert[0] == STAR && cert[1] == DOT) {
      NoWildcard(cert, asserted);
    }
  }

  lemma SplitAtDot(s: Name, dot: nat)
    requires dot == First(s, DOT) < |s|
    ensures s == s[..dot] + [46] + s[dot + 1..] && 46 !in s[..dot]
  {
    NotBefore(s, dot, DOT);
    CutAt(s, dot);
  }

  lemma NotBefore(s: Name, k: nat, c: byte)
    requires k <= |s| && forall i | 0 <= i < k :: s[i] != c
    ensures c !in s[..k]
  {
  }

  lemma CutAt(s: Name, k: nat)
    requires k < |s|
    ensures s == s[..k] + [s[k]] + s[k + 1..]
  {
  }

  lemma StarredName(cert: Name)
    requires |cert| >= 2 && cert[0] == STAR && cert[1] == DOT
    ensures cert == [42, 46] + cert[2..]
  {
  }

  lemma MatchesFits(cert: Name, asserted: Name) returns (first: Name, rest: Name, suffix: Name)
    requires WildcardMatches(Labels(cert), Labels(asserted))
    ensures StarFits(cert, asserted, first, rest, suffix)
  {
    var dot := First(asserted, DOT);
    StarInFront(cert, asserted);
    suffix := cert[2..];
    StarFirst(cert, suffix);
    WildcardByNames(suffix, asserted);
    SplitAtDot(asserted, dot);
    StarredName(cert);
    first, rest := asserted[..dot], asserted[dot + 1..];
    SameIsAlike(rest, suffix);
  }

  lemma FitsMatches(cert: Name, asserted: Name, first: Name, rest: Name, suffix: Name)
    requires StarFits(cert, asserted, first, rest, suffix)
    ensures WildcardMatches(Labels(cert), Labels(asserted))
  {
    assert cert[0] == STAR && cert[1] == DOT && cert[2..] == suffix;
    StarFirst(cert, suffix);
    FirstDot(asserted, first, rest);
    SameIsAlike(rest, suffix);
    WildcardByNames(suffix, asserted);
  }

  lemma FirstDot(s: Name, first: Name, rest: Name)
    requires s == first + [46] + rest && 46 !in first
    ensures First(s, DOT) == |first| && s[|first| + 1..] == rest
  {
    assert s[|first|] == DOT;
    assert forall i | 0 <= i < |first| :: s[i] == first[i];
  }

  /** The labels put together again with dots between them. */
  function Joined(ls: seq<Name>): Name
    requires ls != []
  {
    if |ls| == 1 then ls[0] else ls[0] + [46] + Joined(ls[1..])
  }

  lemma JoinCons(x: Name, ls: seq<Name>)
    requires ls != []
    ensures Joined([x] + ls) == x + [46] + Joined(ls)
  {
    assert ([x] + ls)[1..] == ls;
  }

  ghost predicate NoDots(ls: seq<Name>) {
    forall k | 0 <= k < |ls| :: 46 !in ls[k]
  }

  lemma NoDotsCons(x: Name, ls: seq<Name>)
    requires 46 !in x && NoDots(ls)
    ensures NoDots([x] + ls)
  {
  }

  /** Splitting loses nothing, and no label holds a dot. */
  lemma {:induction false} LabelsJoin(s: Name)
    ensures Joined(Labels(s)) == s && NoDots(Labels(s))
    decreases |s|
  {
    var k := First(s, DOT);
    if k < |s| {
      var x, rest := s[..k], s[k + 1..];
      LabelsSplit(s, k);
      LabelsJoin(rest);
      JoinCons(x, Labels(rest));
      SplitAtDot(s, k);
      NoDotsCons(x, Labels(rest));
    } else {
      assert Labels(s) == [s];
    }
  }
}
