/** The streaming AES-XCBC-MAC (RFC 3566, RFC 4434) and AES-CMAC (RFC 4493, RFC 4615) of
    iked/crypto_openssl.c.  AES itself is a function of a key and a block. */
module CbcMac {
  import opened Buffers
  import opened Gf128
  import opened Wrappers

  type Cipher = (Block, Block) -> Block

  datatype Keys = Keys(k1: Block, k2: Block, k3: Block)

  function Fill(x: bv8, n: nat): (r: seq<bv8>)
    ensures |r| == n
  {
    seq(n, _ => x)
  }

  const ZERO: Block := Fill(0, BLOCK)

  // ---------------------------------------------------------------- the definition by blocks

  function BlockAt(m: seq<bv8>, i: nat): Block
    requires BLOCK * i + BLOCK <= |m|
  {
    m[BLOCK * i..BLOCK * i + BLOCK]
  }

  /** The chaining value after i blocks. */
  function Chain(aes: Cipher, k1: Block, m: seq<bv8>, i: nat): Block
    requires BLOCK * i <= |m|
  {
    if i == 0 then ZERO else aes(k1, Xor(BlockAt(m, i - 1), Chain(aes, k1, m, i - 1)))
  }

  /** How many blocks come before the last one; the last one may be full, and is empty only
      for the empty message. */
  function Leading(m: seq<bv8>): (n: nat)
    ensures BLOCK * n <= |m| <= BLOCK * n + BLOCK
    ensures m != [] ==> BLOCK * n < |m|
  {
    if m == [] then 0 else (|m| - 1) / BLOCK
  }

  function LastPart(m: seq<bv8>): (r: seq<bv8>)
    ensures |r| <= BLOCK
  {
    m[BLOCK * Leading(m)..]
  }

  /** A full last block is masked with k2; any other gets one 1 bit and zeros, and k3. */
  function Masked(keys: Keys, last: seq<bv8>): Block
    requires |last| <= BLOCK
  {
    if |last| == BLOCK then Xor(last, keys.k2)
    else Xor(last + [0x80] + Fill(0, BLOCK - 1 - |last|), keys.k3)
  }

  function Mac(aes: Cipher, keys: Keys, m: seq<bv8>): Block {
    aes(keys.k1, Xor(Masked(keys, LastPart(m)), Chain(aes, keys.k1, m, Leading(m))))
  }

  /** The chaining value after i blocks depends on those blocks only. */
  lemma {:induction false} ChainPrefix(aes: Cipher, k1: Block, m: seq<bv8>, more: seq<bv8>, i: nat)
    requires BLOCK * i <= |m|
    ensures Chain(aes, k1, m + more, i) == Chain(aes, k1, m, i)
  {
    if i > 0 {
      ChainPrefix(aes, k1, m, more, i - 1);
      assert BlockAt(m + more, i - 1) == BlockAt(m, i - 1);
    }
  }

  lemma XorOrder(a: bv8, e: bv8, k: bv8)
    ensures a ^ (e ^ k) == (a ^ k) ^ e
  {
  }

  lemma XorSwap(a: seq<bv8>, e: seq<bv8>, k: seq<bv8>)
    requires |a| == |e| == |k|
    ensures Xor(a, Xor(e, k)) == Xor(Xor(a, k), e)
  {
    forall i | 0 <= i < |a| ensures Xor(a, Xor(e, k))[i] == Xor(Xor(a, k), e)[i] {
      XorOrder(a[i], e[i], k[i]);
    }
  }

  // ---------------------------------------------------------------- the streaming form

  method XorInto(m: array<bv8>, x: seq<bv8>)
    requires m.Length == |x|
    modifies m
    ensures m[..] == Xor(old(m[..]), x)
  {
    for i := 0 to m.Length
      invariant forall j | 0 <= j < i :: m[j] == old(m[j]) ^ x[j]
      invariant forall j | i <= j < m.Length :: m[j] == old(m[j])
    {
      m[i] := m[i] ^ x[i];
    }
  }

  class Context {
    const aes: Cipher
    const keys: Keys
    const m: array<bv8>     // the block being collected
    const e: array<bv8>     // the chaining value
    var mlen: nat
    ghost var msg: seq<bv8> // everything absorbed so far

    ghost predicate Shape()
      reads this
    {
      m.Length == BLOCK && e.Length == BLOCK && m != e
    }

    /** Collected lies in m, and e is the chaining value after n blocks. */
    ghost predicate Holds(n: nat)
      reads this, m, e
    {
      && Shape() && mlen <= BLOCK
      && BLOCK * n + mlen == |msg|
      && m[..mlen] == msg[BLOCK * n..]
      && e[..] == Chain(aes, keys.k1, msg, n)
    }

    /** Between calls the last block is held back, even when it is full. */
    ghost predicate Valid()
      reads this, m, e
    {
      Holds(Leading(msg))
    }

    constructor (aes: Cipher, keys: Keys)
      ensures Valid() && msg == [] && this.aes == aes && this.keys == keys && fresh(m) && fresh(e)
    {
      this.aes, this.keys := aes, keys;
      m := new bv8[BLOCK](_ => 0);
      e := new bv8[BLOCK](_ => 0);
      mlen, msg := 0, [];
      new;
      assert e[..] == ZERO;
    }

    /** Run the cipher over the collected block. */
    method Encrypt()
      requires Shape()
      modifies m, e
      ensures e[..] == aes(keys.k1, Xor(old(m[..]), old(e[..])))
    {
      XorInto(m, e[..]);
      CopyInto(e, 0, aes(keys.k1, m[..]));
    }

    /** Make room: a full block that was held back is run, since more is to come. */
    method Flush(ghost n: nat) returns (ghost n': nat)
      requires Holds(n)
      modifies this`mlen, m, e
      ensures Holds(n') && mlen < BLOCK
    {
      n' := n;
      if mlen == BLOCK {
        assert m[..] == m[..mlen] == BlockAt(msg, n);
        Encrypt();
        mlen, n' := 0, n + 1;
      }
    }

    method Append(piece: seq<bv8>, ghost n: nat)
      requires Holds(n) && mlen + |piece| <= BLOCK
      modifies this`mlen, this`msg, m
      ensures Holds(n) && msg == old(msg) + piece && mlen == old(mlen) + |piece|
    {
      CopyInto(m, mlen, piece);
      ChainPrefix(aes, keys.k1, msg, piece, n);
      msg := msg + piece;
      mlen := mlen + |piece|;
    }

    /** eay_aes_xcbc_mac_update. */
    method Update(data: seq<bv8>)
      requires Valid()
      modifies this`mlen, this`msg, m, e
      ensures Valid() && msg == old(msg) + data
    {
      var p := 0;
      assert data[..0] == [];
      while p < |data|
        invariant p <= |data| && Valid() && msg == old(msg) + data[..p]
      {
        p := Step(data, p);
      }
      assert data[..p] == data;
    }

    /** One round of the update loop. */
    method Step(data: seq<bv8>, p: nat) returns (q: nat)
      requires Valid() && p < |data|
      modifies this`mlen, this`msg, m, e
      ensures Valid() && p < q <= |data| && msg == old(msg) + data[p..q]
    {
      ghost var n := Flush(Leading(msg));
      q := if |data| - p > BLOCK - mlen then p + (BLOCK - mlen) else |data|;
      Append(data[p..q], n);
      assert n == Leading(msg);
    }

    /** The padding of an incomplete last block. */
    method Pad()
      requires Shape() && mlen < BLOCK
      modifies m
      ensures m[..] == old(m[..mlen]) + [0x80] + Fill(0, BLOCK - 1 - mlen)
    {
      m[mlen] := 0x80;
      var i := mlen + 1;
      while i < BLOCK
        invariant mlen < i <= BLOCK
        invariant m[..mlen] == old(m[..mlen]) && m[mlen] == 0x80
        invariant forall j | mlen < j < i :: m[j] == 0
      {
        m[i] := 0;
        i := i + 1;
      }
    }

    /** eay_aes_xcbc_mac_final; the context is not usable afterwards. */
    method Final(alloc: bool) returns (r: Option<Block>)
      requires Valid()
      modifies m, e
      ensures r == if alloc then Some(Mac(aes, keys, msg)) else None
    {
      ghost var last, chain := LastPart(msg), e[..];
      assert m[..mlen] == last;
      if mlen == BLOCK {
        assert m[..] == last;
        XorInto(m, Xor(e[..], keys.k2));
        XorSwap(last, chain, keys.k2);
      } else {
        Pad();
        XorSwap(m[..], chain, keys.k3);
        XorInto(m, Xor(e[..], keys.k3));
      }
      CopyInto(e, 0, aes(keys.k1, m[..]));
      if !alloc {
        return None;
      }
      assert e[..] == Mac(aes, keys, msg);
      r := Some(e[..]);
    }
  }

  // ---------------------------------------------------------------- chunking

  function Concat(chunks: seq<seq<bv8>>): seq<bv8> {
    if chunks == [] then [] else Concat(chunks[..|chunks| - 1]) + chunks[|chunks| - 1]
  }

  /** However a message is cut into updates, empty ones included, the result is its MAC. */
  method MacInChunks(aes: Cipher, keys: Keys, chunks: seq<seq<bv8>>, alloc: bool) returns (r: Option<Block>)
    ensures r == if alloc then Some(Mac(aes, keys, Concat(chunks))) else None
  {
    var c := new Context(aes, keys);
    for i := 0 to |chunks|
      invariant c.Valid() && c.aes == aes && c.keys == keys && c.msg == Concat(chunks[..i])
      invariant fresh(c) && fresh(c.m) && fresh(c.e)
    {
      c.Update(chunks[i]);
      assert chunks[..i + 1][..i] == chunks[..i];
    }
    assert chunks[..|chunks|] == chunks;
    r := c.Final(alloc);
  }

  // ---------------------------------------------------------------- XCBC

  function XcbcKeys(aes: Cipher, k: Block): Keys {
    Keys(aes(k, Fill(0x01, BLOCK)), aes(k, Fill(0x02, BLOCK)), aes(k, Fill(0x03, BLOCK)))
  }

  /** Section 2 of RFC 4434: shorter keys are filled with zeros, longer ones are replaced by
      their MAC under the zero key. */
  function XcbcKey(aes: Cipher, key: seq<bv8>): Block {
    if |key| <= BLOCK then key + Fill(0, BLOCK - |key|) else Mac(aes, XcbcKeys(aes, ZERO), key)
  }

  function Xcbc(aes: Cipher, key: seq<bv8>, data: seq<bv8>): Block {
    Mac(aes, XcbcKeys(aes, XcbcKey(aes, key)), data)
  }

  lemma ZeroKeyIsZero(aes: Cipher)
    ensures XcbcKey(aes, ZERO) == ZERO && CmacKey(aes, ZERO) == ZERO
  {
    assert ZERO + [] == ZERO;
  }

  /** The key that is expanded: 16 octets for a key of any length. */
  method XcbcNormalKey(aes: Cipher, key: seq<bv8>) returns (k: Block)
    ensures k == XcbcKey(aes, key)
    decreases |key| > BLOCK, 0
  {
    if |key| == BLOCK {
      assert key + [] == key;
      k := key;
    } else if |key| < BLOCK {
      k := key + Fill(0, BLOCK - |key|);
    } else {
      ZeroKeyIsZero(aes);
      k := XcbcOne(aes, ZERO, key);
    }
  }

  /** eay_aes_xcbc_mac_init. */
  method XcbcInit(aes: Cipher, key: seq<bv8>) returns (c: Context)
    ensures c.Valid() && c.msg == [] && c.aes == aes && c.keys == XcbcKeys(aes, XcbcKey(aes, key))
    ensures fresh(c) && fresh(c.m) && fresh(c.e)
    decreases |key| > BLOCK, 1
  {
    var k := XcbcNormalKey(aes, key);
    c := new Context(aes, XcbcKeys(aes, k));
  }

  /** eay_aes_xcbc_mac_one, which the initialisation itself uses to shorten a long key. */
  method XcbcOne(aes: Cipher, key: seq<bv8>, data: seq<bv8>) returns (r: Block)
    ensures r == Xcbc(aes, key, data)
    decreases |key| > BLOCK, 2
  {
    var c := XcbcInit(aes, key);
    c.Update(data);
    assert [] + data == data;
    var mac := c.Final(true);
    r := mac.value;
  }

  // ---------------------------------------------------------------- CMAC

  /** Section 2.3 of RFC 4493: k2 = 2L and k3 = 4L in GF(2^128). */
  function CmacKeys(aes: Cipher, k: Block): Keys {
    var l := aes(k, ZERO);
    Keys(k, Double(l), Double(Double(l)))
  }

  /** Section 3 of RFC 4615. */
  function CmacKey(aes: Cipher, key: seq<bv8>): Block {
    if |key| <= BLOCK then key + Fill(0, BLOCK - |key|) else Mac(aes, CmacKeys(aes, ZERO), key)
  }

  function Cmac(aes: Cipher, key: seq<bv8>, data: seq<bv8>): Block {
    Mac(aes, CmacKeys(aes, CmacKey(aes, key)), data)
  }

  method CmacNormalKey(aes: Cipher, key: seq<bv8>) returns (k: Block)
    ensures k == CmacKey(aes, key)
    decreases |key| > BLOCK, 0
  {
    if |key| == BLOCK {
      assert key + [] == key;
      k := key;
    } else if |key| < BLOCK {
      k := key + Fill(0, BLOCK - |key|);
    } else {
      ZeroKeyIsZero(aes);
      k := CmacOne(aes, ZERO, key);
    }
  }

  /** eay_aes_cmac_init. */
  method CmacInit(aes: Cipher, key: seq<bv8>) returns (c: Context)
    ensures c.Valid() && c.msg == [] && c.aes == aes && c.keys == CmacKeys(aes, CmacKey(aes, key))
    ensures fresh(c) && fresh(c.m) && fresh(c.e)
    decreases |key| > BLOCK, 1
  {
    var k := CmacNormalKey(aes, key);
    var keys := CmacSubkeys(aes, k);
    c := new Context(aes, keys);
  }

  /** The subkeys, doubled from one buffer into the next. */
  method CmacSubkeys(aes: Cipher, k: Block) returns (keys: Keys)
    ensures keys == CmacKeys(aes, k)
  {
    ghost var zero := aes(k, ZERO);
    var l, k2, k3 := new bv8[BLOCK], new bv8[BLOCK], new bv8[BLOCK];
    CopyInto(l, 0, aes(k, ZERO));
    assert l[..] == zero;
    DoubleBoth(l, k2, k3);
    keys := Keys(k, k2[..], k3[..]);
  }

  method DoubleBoth(l: array<bv8>, k2: array<bv8>, k3: array<bv8>)
    requires l.Length == k2.Length == k3.Length == BLOCK && k2 != k3
    modifies k2, k3
    ensures k2[..] == Double(old(l[..])) && k3[..] == Double(Double(old(l[..])))
  {
    GfMult(l, k2);
    GfMult(k2, k3);
  }

  /** eay_aes_cmac_one. */
  method CmacOne(aes: Cipher, key: seq<bv8>, data: seq<bv8>) returns (r: Block)
    ensures r == Cmac(aes, key, data)
    decreases |key| > BLOCK, 2
  {
    var c := CmacInit(aes, key);
    c.Update(data);
    assert [] + data == data;
    var mac := c.Final(true);
    r := mac.value;
  }

  /** Each CMAC subkey determines the encrypted zero block, and so the other subkey. */
  lemma SubkeysDetermineL(aes: Cipher, k: Block, j: Block)
    ensures CmacKeys(aes, k).k2 == CmacKeys(aes, j).k2 <==> aes(k, ZERO) == aes(j, ZERO)
    ensures CmacKeys(aes, k).k3 == CmacKeys(aes, j).k3 <==> aes(k, ZERO) == aes(j, ZERO)
  {
    var l, m := aes(k, ZERO), aes(j, ZERO);
    if Double(Double(l)) == Double(Double(m)) {
      DoubleIsInjective(Double(l), Double(m));
    }
    if Double(l) == Double(m) {
      DoubleIsInjective(l, m);
    }
  }
}
