/** MODP Diffie-Hellman of iked/dh.c and iked/crypto_openssl.c: octet strings of the length
    of the prime, the checks of RFC 6989 on the peer's value, and agreement of the secrets.
    The library's exponentiation is exponentiation modulo the prime. */
module Dh {
  import opened Arith
  import opened Bytes
  import opened BigEndian
  import opened Wrappers

  // ---------------------------------------------------------------- powers

  function Pow(b: nat, e: nat): nat {
    if e == 0 then 1 else b * Pow(b, e - 1)
  }

  function PowMod(b: nat, e: nat, p: nat): (r: nat)
    requires p > 0
    ensures r < p
  {
    Pow(b, e) % p
  }

  lemma {:induction false} PowAdd(b: nat, m: nat, n: nat)
    ensures Pow(b, m + n) == Pow(b, m) * Pow(b, n)
  {
    if m > 0 {
      PowAdd(b, m - 1, n);
      MulAssoc(b, Pow(b, m - 1), Pow(b, n));
    }
  }

  lemma {:induction false} PowMul(b: nat, m: nat, n: nat)
    ensures m * n >= 0 && Pow(Pow(b, m), n) == Pow(b, m * n)
  {
    if n == 0 {
      assert m * n == 0;
    } else {
      PowMul(b, m, n - 1);
      assert m * n == m + m * (n - 1) by { MulAdd(1, n - 1, m); }
      PowAdd(b, m, m * (n - 1));
    }
  }

  lemma ModFactor(x: nat, y: nat, p: nat)
    requires p > 0
    ensures (x % p * y) % p == (x * y) % p
  {
    DivMod(x, p);
    MulAdd((x / p) * p, x % p, y);
    MulAssoc(x / p, p, y);
    MulAssoc(x / p, y, p);
    assert x * y == ((x / p) * y) * p + x % p * y;
    ModAddMultiple((x / p) * y, p, x % p * y);
  }

  /** The base may be reduced first. */
  lemma {:induction false} PowModBase(x: nat, e: nat, p: nat)
    requires p > 0
    ensures Pow(x % p, e) % p == Pow(x, e) % p
  {
    if e > 0 {
      PowModBase(x, e - 1, p);
      var a, b := Pow(x % p, e - 1), Pow(x, e - 1);
      calc {
        Pow(x % p, e) % p;
      == (x % p * a) % p;
      == { ModFactor(x, a, p); }
        (x * a) % p;
      == { Commute(x, a); }
        (a * x) % p;
      == { ModFactor(a, x, p); }
        (a % p * x) % p;
      == (b % p * x) % p;
      == { ModFactor(b, x, p); }
        (b * x) % p;
      == { Commute(b, x); }
        Pow(x, e) % p;
      }
    }
  }

  lemma Commute(a: int, b: int)
    ensures a * b == b * a
  {
  }

  lemma {:induction false} PowOne(e: nat)
    ensures Pow(1, e) == 1
  {
    if e > 0 {
      PowOne(e - 1);
    }
  }

  /** Exponents may be applied in either order, reducing after each. */
  lemma PowersCommute(g: nat, a: nat, b: nat, p: nat)
    requires p > 0
    ensures PowMod(PowMod(g, a, p), b, p) == PowMod(PowMod(g, b, p), a, p)
  {
    PowModBase(Pow(g, a), b, p);
    PowModBase(Pow(g, b), a, p);
    PowMul(g, a, b);
    PowMul(g, b, a);
    Commute(a, b);
  }

  // ---------------------------------------------------------------- octets of a number

  /** BN_bn2bin: no leading zero octets. */
  function Minimal(v: nat): (o: seq<byte>)
    ensures v > 0 ==> o != [] && o[0] != 0
    ensures v == 0 ==> o == []
  {
    if v == 0 then [] else Minimal(v / 256) + [v % 256]
  }

  function LeftPad(o: seq<byte>, n: nat): (r: seq<byte>)
    requires |o| <= n
    ensures |r| == n
  {
    Zeros(n - |o|) + o
  }

  function Zeros(n: nat): (r: seq<byte>)
    ensures |r| == n && forall i | 0 <= i < n :: r[i] == 0
  {
    if n == 0 then [] else [0] + Zeros(n - 1)
  }

  lemma {:induction false} ValueSnoc(o: seq<byte>, x: byte)
    ensures Value(o + [x]) == 256 * Value(o) + x
  {
    if o == [] {
      assert o + [x] == [x] && [x][1..] == [];
      TwoPowSmall();
    } else {
      assert (o + [x])[1..] == o[1..] + [x];
      ValueSnoc(o[1..], x);
      WeightStep(|o| - 1);
      SnocProduct(o[0], Weight(|o| - 1), Value(o[1..]));
    }
  }

  lemma SnocProduct(x: int, w: int, v: int)
    ensures x * (256 * w) + 256 * v == 256 * (x * w + v)
  {
    Commute(x, 256);
    MulAssoc(256, x, w);
    MulAssoc(x, 256, w);
  }

  lemma {:induction false} MinimalValue(v: nat)
    ensures Value(Minimal(v)) == v
  {
    if v > 0 {
      MinimalValue(v / 256);
      ValueSnoc(Minimal(v / 256), v % 256);
    }
  }

  /** A number below 256^n needs at most n octets. */
  lemma {:induction false} MinimalFits(v: nat, n: nat)
    requires v < Weight(n)
    ensures |Minimal(v)| <= n
  {
    if v > 0 {
      if n == 0 {
        TwoPowSmall();
        assert false;
      } else {
        WeightStep(n - 1);
        MinimalFits(v / 256, n - 1);
      }
    }
  }

  /** Zeros in front do not change the number. */
  lemma {:induction false} PadValue(o: seq<byte>, k: nat)
    ensures Value(Zeros(k) + o) == Value(o)
  {
    if k == 0 {
      assert Zeros(0) + o == o;
    } else {
      assert (Zeros(k) + o)[0] == 0 && (Zeros(k) + o)[1..] == Zeros(k - 1) + o;
      PadValue(o, k - 1);
      assert 0 * Weight(k - 1 + |o|) == 0;
    }
  }

  /** The number in exactly as many octets as the prime. */
  function FixedOctets(v: nat, n: nat): (r: seq<byte>)
    requires |Minimal(v)| <= n
    ensures |r| == n
  {
    LeftPad(Minimal(v), n)
  }

  lemma FixedValue(v: nat, n: nat)
    requires v < Weight(n)
    ensures |Minimal(v)| <= n && Value(FixedOctets(v, n)) == v
  {
    MinimalFits(v, n);
    MinimalValue(v);
    PadValue(Minimal(v), n - |Minimal(v)|);
  }

  // ---------------------------------------------------------------- public values

  /** oakley_check_dh_pub: None when the value is longer than the prime, or shorter with no
      memory for the longer one. */
  method CheckPub(primeLength: nat, pub: seq<byte>, alloc: bool) returns (r: Option<seq<byte>>)
    ensures r.None? <==> |pub| > primeLength || (|pub| < primeLength && !alloc)
    ensures r.Some? ==> |r.value| == primeLength && Value(r.value) == Value(pub) && r.value == LeftPad(pub, primeLength)
  {
    if primeLength == |pub| {
      assert Zeros(0) + pub == pub;
      return Some(pub);
    }
    if primeLength < |pub| {
      return None;
    }
    if !alloc {
      return None;
    }
    var tmp := new byte[primeLength](_ => 0);
    CopyRight(tmp, pub);
    PadValue(pub, primeLength - |pub|);
    r := Some(tmp[..]);
  }

  /** memcpy to the end of a zero-filled buffer. */
  method CopyRight(buf: array<byte>, o: seq<byte>)
    requires |o| <= buf.Length && forall i | 0 <= i < buf.Length :: buf[i] == 0
    modifies buf
    ensures buf[..] == LeftPad(o, buf.Length)
  {
    var start := buf.Length - |o|;
    forall i | 0 <= i < |o| {
      buf[start + i] := o[i];
    }
    assert buf[..] == Zeros(start) + o;
  }

  datatype Group =
    | Modp(prime: seq<byte>, gen: nat, order: Option<seq<byte>>)   // order: only with a published subgroup
    | Curve(length: nat)                                           // computed wholly by the library
    | Unsupported

  predicate IsModp(g: Group) {
    g.Modp? && Value(g.prime) > 0
  }

  lemma PowModFits(prime: seq<byte>, b: nat, e: nat)
    requires Value(prime) > 0
    ensures |Minimal(PowMod(b, e, Value(prime)))| <= |prime|
    ensures Value(FixedOctets(PowMod(b, e, Value(prime)), |prime|)) == PowMod(b, e, Value(prime))
  {
    ValueBound(prime);
    FixedValue(PowMod(b, e, Value(prime)), |prime|);
  }

  /** The public value of the private exponent x, as it is sent. */
  function PublicOctets(g: Group, x: nat): (r: seq<byte>)
    requires IsModp(g)
    ensures |r| == |g.prime| && Value(r) == PowMod(g.gen, x, Value(g.prime))
  {
    PowModFits(g.prime, g.gen, x);
    FixedOctets(PowMod(g.gen, x, Value(g.prime)), |g.prime|)
  }

  datatype KeyPair = KeyPair(pub: seq<byte>, priv: seq<byte>)

  /** The public value has the length of the prime or can be copied to that length. */
  predicate CanBeSent(g: Group, x: nat, alloc: bool)
    requires IsModp(g)
  {
    alloc || |Minimal(PowMod(g.gen, x, Value(g.prime)))| == |g.prime|
  }

  /** oakley_dh_generate; x is the exponent that the library drew for a MODP group and curve
      the pair that it made for a curve group, None when it failed. */
  method Generate(g: Group, x: Option<nat>, curve: Option<KeyPair>, alloc: bool) returns (r: Option<KeyPair>)
    requires g.Modp? ==> IsModp(g)
    ensures g.Modp? ==> (r.Some? <==> x.Some? && CanBeSent(g, x.value, alloc))
    ensures g.Modp? && r.Some? ==> Value(r.value.priv) == x.value && r.value.pub == PublicOctets(g, x.value)
    ensures g.Curve? ==> r == curve
    ensures g.Unsupported? ==> r.None?
  {
    match g {
      case Modp(prime, gen, _) =>
        if x.None? {
          return None;
        }
        PowModFits(prime, gen, x.value);
        var pub := CheckPub(|prime|, Minimal(PowMod(gen, x.value, Value(prime))), alloc);
        if pub.None? {
          return None;
        }
        MinimalValue(x.value);
        return Some(KeyPair(pub.value, Minimal(x.value)));
      case Curve(_) =>
        return curve;
      case Unsupported =>
        return None;
    }
  }

  // ---------------------------------------------------------------- the shared secret

  /** Section 2.1 of RFC 6989. */
  predicate InRange(r: nat, p: nat) {
    1 < r < p - 1
  }

  /** Section 2.2 of RFC 6989. */
  predicate InSubgroup(r: nat, p: nat, q: nat) {
    InRange(r, p) && PowMod(r, q, p) == 1
  }

  predicate AcceptsPeer(g: Group, peer: seq<byte>)
    requires g.Modp?
  {
    if g.order.Some? then InSubgroup(Value(peer), Value(g.prime), Value(g.order.value))
    else InRange(Value(peer), Value(g.prime))
  }

  function Secret(g: Group, priv: seq<byte>, peer: seq<byte>): (r: seq<byte>)
    requires IsModp(g)
    ensures |r| == |g.prime|
    ensures Value(r) == PowMod(Value(peer), Value(priv), Value(g.prime))
  {
    PowModFits(g.prime, Value(peer), Value(priv));
    FixedOctets(PowMod(Value(peer), Value(priv), Value(g.prime)), |g.prime|)
  }

  /** eay_dh_compute and eay_dh_compute_v: the secret goes to the end of the caller's
      zero-filled buffer; library is false when a library call fails. */
  method ComputeInto(g: Group, priv: seq<byte>, peer: seq<byte>, library: bool, key: array<byte>) returns (ok: bool)
    requires g.Modp? && key.Length == |g.prime| && forall i | 0 <= i < key.Length :: key[i] == 0
    modifies key
    ensures ok <==> AcceptsPeer(g, peer) && library
    ensures ok ==> IsModp(g) && key[..] == Secret(g, priv, peer)
  {
    var p, r := Value(g.prime), Value(peer);
    if g.order.Some? {
      if !InSubgroup(r, p, Value(g.order.value)) {
        return false;
      }
    } else if !InRange(r, p) {
      return false;
    }
    if !library {
      return false;
    }
    PowModFits(g.prime, r, Value(priv));
    CopyRight(key, Minimal(PowMod(r, Value(priv), p)));
    ok := true;
  }

  /** oakley_dh_compute: the secret is there exactly when 0 is returned, and every failure
      leaves nothing behind.  curve is the library's result for a curve group. */
  method Compute(g: Group, priv: seq<byte>, peer: seq<byte>, alloc: bool, library: bool, curve: Option<seq<byte>>)
    returns (rc: int, gxy: Option<seq<byte>>)
    ensures (rc == 0 && gxy.Some?) || (rc == -1 && gxy.None?)
    ensures g.Modp? ==> (gxy.Some? <==> alloc && library && AcceptsPeer(g, peer))
    ensures g.Modp? && gxy.Some? ==> IsModp(g) && gxy.value == Secret(g, priv, peer)
    ensures g.Curve? ==> gxy == if alloc then curve else None
    ensures g.Unsupported? ==> gxy.None?
  {
    if !alloc {
      return -1, None;
    }
    match g {
      case Modp(prime, _, _) =>
        var buf := new byte[|prime|](_ => 0);
        var ok := ComputeInto(g, priv, peer, library, buf);
        if !ok {
          return -1, None;
        }
        return 0, Some(buf[..]);
      case Curve(_) =>
        if curve.None? {
          return -1, None;
        }
        return 0, curve;
      case Unsupported =>
        return -1, None;
    }
  }

  // ---------------------------------------------------------------- agreement

  /** Two peers derive the same octets, as many as the prime has, from each other's public
      values. */
  lemma PeersAgree(g: Group, a: seq<byte>, b: seq<byte>)
    requires g.Modp? && Value(g.prime) > 0
    ensures Secret(g, a, PublicOctets(g, Value(b))) == Secret(g, b, PublicOctets(g, Value(a)))
    ensures |Secret(g, a, PublicOctets(g, Value(b)))| == |g.prime|
  {
    PowersCommute(g.gen, Value(a), Value(b), Value(g.prime));
    var x, y := Secret(g, a, PublicOctets(g, Value(b))), Secret(g, b, PublicOctets(g, Value(a)));
    ValueInjective(x, y);
  }

  lemma SubgroupClosed(g: nat, a: nat, q: nat, p: nat)
    requires p > 0 && PowMod(g, q, p) == 1
    ensures PowMod(PowMod(g, a, p), q, p) == 1
  {
    PowersCommute(g, a, q, p);
    PowOne(a);
    ModUnique(1, p, 0, 1);
  }

  /** Where the generator has the published order, an honest public value in range is always
      accepted. */
  lemma HonestValueAccepted(g: Group, a: nat)
    requires IsModp(g) && (g.order.Some? ==> PowMod(g.gen, Value(g.order.value), Value(g.prime)) == 1)
    ensures AcceptsPeer(g, PublicOctets(g, a)) <==> InRange(PowMod(g.gen, a, Value(g.prime)), Value(g.prime))
  {
    if g.order.Some? {
      var p, q := Value(g.prime), Value(g.order.value);
      SubgroupClosed(g.gen, a, q, p);
    }
  }

  // ---------------------------------------------------------------- refused values

  /** Without a published subgroup a value is accepted exactly from 2 to the prime minus 2. */
  lemma AcceptedRange(g: Group, peer: seq<byte>)
    requires g.Modp? && g.order.None?
    ensures AcceptsPeer(g, peer) <==> 2 <= Value(peer) && Value(peer) + 2 <= Value(g.prime)
  {
  }

  /** With one, it also has to lie in the subgroup. */
  lemma AcceptedSubgroup(g: Group, peer: seq<byte>)
    requires g.Modp? && g.order.Some?
    ensures AcceptsPeer(g, peer) <==>
      && 2 <= Value(peer) && Value(peer) + 2 <= Value(g.prime)
      && Pow(Value(peer), Value(g.order.value)) % Value(g.prime) == 1
  {
  }

  lemma MinusOneStep(p: nat, x: nat)
    requires p > 2 && (x == 1 || x == p - 1)
    ensures ((p - 1) * x) % p == if x == 1 then p - 1 else 1
  {
    if x == 1 {
      ModUnique(p - 1, p, 0, p - 1);
    } else {
      MulAdd(p, -1, p - 1);
      Commute(p, p - 1);
      MulAdd(p, -2, p);
      assert (p - 1) * (p - 1) == (p - 2) * p + 1;
      ModUnique((p - 1) * (p - 1), p, p - 2, 1);
    }
  }

  lemma TimesMinusOne(p: nat, x: nat)
    requires p > 2 && (x % p == 1 || x % p == p - 1)
    ensures ((p - 1) * x) % p == if x % p == 1 then p - 1 else 1
  {
    ModFactor(x, p - 1, p);
    Commute(x, p - 1);
    Commute(x % p, p - 1);
    MinusOneStep(p, x % p);
  }

  lemma {:induction false} PowersOfMinusOne(p: nat, e: nat)
    requires p > 2
    ensures Pow(p - 1, e) % p == if e % 2 == 0 then 1 else p - 1
  {
    if e == 0 {
      ModUnique(1, p, 0, 1);
    } else {
      PowersOfMinusOne(p, e - 1);
      TimesMinusOne(p, Pow(p - 1, e - 1));
    }
  }

  lemma {:induction false} PowersOfZero(e: nat)
    requires e > 0
    ensures Pow(0, e) == 0
  {
  }

  /** The values below the prime that are refused would give a secret that everybody knows: 0, 1
      or the prime minus 1, whatever the private value is. */
  lemma RefusedSecrets(p: nat, r: nat, e: nat)
    requires p > 2 && r < p && !(2 <= r <= p - 2)
    ensures PowMod(r, e, p) in {0, 1, p - 1}
  {
    if r == 0 {
      if e > 0 {
        PowersOfZero(e);
      }
      ModUnique(Pow(r, e), p, 0, Pow(r, e));
    } else if r == 1 {
      PowOne(e);
      ModUnique(1, p, 0, 1);
    } else {
      PowersOfMinusOne(p, e);
    }
  }
}
