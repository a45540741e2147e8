/** The MACs of section 4 of RFC 3566 and of section 2.4 of RFC 4493, by laws that fix them for
    messages and keys of every length. */
module MacLaws {
  import opened CbcMac
  import opened Gf128

  const ZEROS: Block := [0, 0, 0, 0, 0, 0, 0, 0, 0, 0, 0, 0, 0, 0, 0, 0]
  const ONES: Block := [1, 1, 1, 1, 1, 1, 1, 1, 1, 1, 1, 1, 1, 1, 1, 1]
  const TWOS: Block := [2, 2, 2, 2, 2, 2, 2, 2, 2, 2, 2, 2, 2, 2, 2, 2]
  const THREES: Block := [3, 3, 3, 3, 3, 3, 3, 3, 3, 3, 3, 3, 3, 3, 3, 3]

  /** A message with a single 1 bit behind it, filled up with zeros. */
  ghost predicate IsPadded(m: seq<bv8>, p: Block) {
    && |m| < 16 && p[..|m|] == m && p[|m|] == 0x80
    && forall i | |m| < i < 16 :: p[i] == 0
  }

  // ---------------------------------------------------------------- blocks

  lemma XorWithZero(a: Block)
    ensures Xor(a, ZERO) == a
  {
    forall i | 0 <= i < 16 ensures Xor(a, ZERO)[i] == a[i] {
      XorZero(a[i]);
    }
  }

  /** A message of one block is masked with k2. */
  lemma MacOfBlock(aes: Cipher, keys: Keys, m: Block)
    ensures Mac(aes, keys, m) == aes(keys.k1, Xor(m, keys.k2))
  {
    assert Leading(m) == 0 && LastPart(m) == m;
    XorWithZero(Xor(m, keys.k2));
  }

  /** A shorter one is padded and masked with k3. */
  lemma MacOfShort(aes: Cipher, keys: Keys, m: seq<bv8>, p: Block)
    requires IsPadded(m, p)
    ensures Mac(aes, keys, m) == aes(keys.k1, Xor(p, keys.k3))
  {
    assert Leading(m) == 0 && LastPart(m) == m;
    assert p == m + [0x80] + Fill(0, 15 - |m|);
    XorWithZero(Xor(p, keys.k3));
  }

  lemma LaterBlock(m: seq<bv8>, f: seq<bv8>, i: nat)
    requires |m| >= 32 && i > 0 && 16 * (i + 2) <= |m| && |f| == |m| - 16 && f[16..] == m[32..]
    ensures BlockAt(m, i + 1) == BlockAt(f, i)
  {
    forall j | 0 <= j < 16 ensures BlockAt(m, i + 1)[j] == BlockAt(f, i)[j] {
      assert m[32..][16 * (i - 1) + j] == f[16..][16 * (i - 1) + j];
    }
  }

  /** After the same number of blocks behind them, two first blocks chain like the second one
      xored with the encrypted first. */
  lemma {:induction false} FoldChain(aes: Cipher, k1: Block, m: seq<bv8>, f: seq<bv8>, i: nat)
    requires |m| >= 32 && 16 * (i + 2) <= |m|
    requires f == Xor(BlockAt(m, 1), aes(k1, BlockAt(m, 0))) + m[32..]
    ensures Chain(aes, k1, m, i + 2) == Chain(aes, k1, f, i + 1)
  {
    if i == 0 {
      XorWithZero(BlockAt(m, 0));
      XorWithZero(BlockAt(f, 0));
      assert BlockAt(f, 0) == Xor(BlockAt(m, 1), aes(k1, BlockAt(m, 0)));
      assert Chain(aes, k1, m, 1) == aes(k1, BlockAt(m, 0));
      assert Chain(aes, k1, f, 1) == aes(k1, BlockAt(f, 0));
    } else {
      FoldChain(aes, k1, m, f, i - 1);
      LaterBlock(m, f, i);
    }
  }

  /** The first two blocks of a longer message may be replaced by the second one xored with the
      encrypted first. */
  lemma MacFolds(aes: Cipher, keys: Keys, a: Block, b: Block, rest: seq<bv8>)
    requires rest != []
    ensures Mac(aes, keys, a + b + rest) == Mac(aes, keys, Xor(b, aes(keys.k1, a)) + rest)
  {
    var m, f := a + b + rest, Xor(b, aes(keys.k1, a)) + rest;
    assert BlockAt(m, 0) == a && BlockAt(m, 1) == b && m[32..] == rest;
    var n := Leading(m);
    assert n >= 2 && Leading(f) == n - 1;
    FoldChain(aes, keys.k1, m, f, n - 2);
    assert LastPart(m) == LastPart(f);
  }

  lemma XorRotate(a: Block, b: Block, c: Block)
    ensures Xor(Xor(a, b), c) == Xor(Xor(a, c), b)
  {
    forall i | 0 <= i < 16 ensures (a[i] ^ b[i]) ^ c[i] == (a[i] ^ c[i]) ^ b[i] {
    }
  }

  /** Two full blocks. */
  lemma MacOfTwo(aes: Cipher, keys: Keys, a: Block, b: Block)
    ensures Mac(aes, keys, a + b) == Mac(aes, keys, Xor(b, aes(keys.k1, a)))
  {
    var m := a + b;
    assert Leading(m) == 1 && LastPart(m) == b && BlockAt(m, 0) == a;
    XorWithZero(a);
    assert Chain(aes, keys.k1, m, 1) == aes(keys.k1, a);
    XorRotate(b, keys.k2, aes(keys.k1, a));
    MacOfBlock(aes, keys, Xor(b, aes(keys.k1, a)));
  }

  /** A full block and a shorter one. */
  lemma MacOfBlockAndShort(aes: Cipher, keys: Keys, a: Block, m: seq<bv8>, p: Block)
    requires IsPadded(m, p) && m != []
    ensures Mac(aes, keys, a + m) == aes(keys.k1, Xor(Xor(p, aes(keys.k1, a)), keys.k3))
  {
    var all := a + m;
    assert Leading(all) == 1 && LastPart(all) == m && BlockAt(all, 0) == a;
    XorWithZero(a);
    assert p == m + [0x80] + Fill(0, 15 - |m|);
    assert Chain(aes, keys.k1, all, 1) == aes(keys.k1, a);
    assert Masked(keys, m) == Xor(p, keys.k3);
    XorRotate(p, keys.k3, aes(keys.k1, a));
  }

  // ---------------------------------------------------------------- AES-XCBC

  lemma Constants()
    ensures Fill(0, 16) == ZEROS && Fill(1, 16) == ONES && Fill(2, 16) == TWOS && Fill(3, 16) == THREES && ZERO == ZEROS
  {
  }

  /** With a key of 16 octets: the message key is the encrypted block of ones; one full block is
      masked with the encrypted block of twos, a shorter one with that of threes. */
  lemma XcbcOneBlock(aes: Cipher, key: Block, m: seq<bv8>, p: Block)
    requires |m| == 16 ==> p == m
    requires |m| != 16 ==> IsPadded(m, p)
    ensures Xcbc(aes, key, m) == aes(aes(key, ONES), Xor(p, aes(key, if |m| == 16 then TWOS else THREES)))
  {
    Constants();
    assert key + [] == key;
    var keys := XcbcKeys(aes, key);
    if |m| == 16 {
      MacOfBlock(aes, keys, m);
    } else {
      MacOfShort(aes, keys, m, p);
    }
  }

  /** A full block in front of a shorter one. */
  lemma XcbcTail(aes: Cipher, key: Block, a: Block, m: seq<bv8>, p: Block)
    requires IsPadded(m, p) && m != []
    ensures var k := aes(key, ONES); Xcbc(aes, key, a + m) == aes(k, Xor(Xor(p, aes(k, a)), aes(key, THREES)))
  {
    Constants();
    assert key + [] == key;
    MacOfBlockAndShort(aes, XcbcKeys(aes, key), a, m, p);
  }

  /** And longer messages fold. */
  lemma XcbcFolds(aes: Cipher, key: Block, a: Block, b: Block, rest: seq<bv8>)
    ensures Xcbc(aes, key, a + b + rest) == Xcbc(aes, key, Xor(b, aes(aes(key, ONES), a)) + rest)
  {
    Constants();
    assert key + [] == key;
    var keys := XcbcKeys(aes, key);
    if rest == [] {
      assert a + b + rest == a + b && Xor(b, aes(keys.k1, a)) + rest == Xor(b, aes(keys.k1, a));
      MacOfTwo(aes, keys, a, b);
    } else {
      MacFolds(aes, keys, a, b, rest);
    }
  }

  // ---------------------------------------------------------------- AES-CMAC

  /** With a key of 16 octets: one full block is masked with the doubled encrypted zero block, a
      shorter one with the block doubled twice. */
  lemma CmacOneBlock(aes: Cipher, key: Block, m: seq<bv8>, p: Block)
    requires |m| == 16 ==> p == m
    requires |m| != 16 ==> IsPadded(m, p)
    ensures var l := aes(key, ZEROS);
      Cmac(aes, key, m) == aes(key, Xor(p, if |m| == 16 then Double(l) else Double(Double(l))))
  {
    Constants();
    assert key + [] == key;
    var keys := CmacKeys(aes, key);
    if |m| == 16 {
      MacOfBlock(aes, keys, m);
    } else {
      MacOfShort(aes, keys, m, p);
    }
  }

  lemma CmacTail(aes: Cipher, key: Block, a: Block, m: seq<bv8>, p: Block)
    requires IsPadded(m, p) && m != []
    ensures Cmac(aes, key, a + m) == aes(key, Xor(Xor(p, aes(key, a)), Double(Double(aes(key, ZEROS)))))
  {
    Constants();
    assert key + [] == key;
    MacOfBlockAndShort(aes, CmacKeys(aes, key), a, m, p);
  }

  lemma CmacFolds(aes: Cipher, key: Block, a: Block, b: Block, rest: seq<bv8>)
    ensures Cmac(aes, key, a + b + rest) == Cmac(aes, key, Xor(b, aes(key, a)) + rest)
  {
    assert key + [] == key;
    var keys := CmacKeys(aes, key);
    if rest == [] {
      assert a + b + rest == a + b && Xor(b, aes(keys.k1, a)) + rest == Xor(b, aes(keys.k1, a));
      MacOfTwo(aes, keys, a, b);
    } else {
      MacFolds(aes, keys, a, b, rest);
    }
  }

  // ---------------------------------------------------------------- keys of other lengths

  lemma FillMore(key: seq<bv8>)
    requires |key| < 16
    ensures key + Fill(0, 16 - |key|) == key + [0] + Fill(0, 16 - |key + [0]|)
  {
  }

  /** A short key may be continued with zeros; a long one is replaced by its MAC under the zero
      key, in both algorithms. */
  lemma OtherKeys(aes: Cipher, key: seq<bv8>, m: seq<bv8>)
    ensures |key| < 16 ==> Xcbc(aes, key, m) == Xcbc(aes, key + [0], m) && Cmac(aes, key, m) == Cmac(aes, key + [0], m)
    ensures |key| > 16 ==> Xcbc(aes, key, m) == Xcbc(aes, Xcbc(aes, ZEROS, key), m)
    ensures |key| > 16 ==> Cmac(aes, key, m) == Cmac(aes, Cmac(aes, ZEROS, key), m)
  {
    Constants();
    if |key| < 16 {
      FillMore(key);
    } else if |key| > 16 {
      ZeroKeyIsZero(aes);
      var x, c := Xcbc(aes, ZEROS, key), Cmac(aes, ZEROS, key);
      assert x + [] == x && c + [] == c;
    }
  }
}
