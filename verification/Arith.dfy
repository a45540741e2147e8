/** Integer facts the solver does not find on its own: products, remainders and powers of two;
    and the smaller and the larger of two numbers. */
module Arith {

  function Max(a: nat, b: nat): nat {
    if a > b then a else b
  }

  function Min(a: nat, b: nat): nat {
    if a < b then a else b
  }

  lemma MulMono(a: int, b: int, c: int)
    requires a <= b && 0 <= c
    ensures a * c <= b * c
  {
  }

  lemma MulAdd(a: int, b: int, c: int)
    ensures (a + b) * c == a * c + b * c
  {
  }

  lemma MulAssoc(a: int, b: int, c: int)
    ensures (a * b) * c == a * (b * c)
  {
  }

  lemma DivMod(x: int, h: int)
    requires h > 0
    ensures x == (x / h) * h + x % h && 0 <= x % h < h
  {
  }

  /** Quotient and remainder are determined by their defining equation. */
  lemma ModUnique(x: int, h: int, q: int, r: int)
    requires 0 <= r < h && x == q * h + r
    ensures x / h == q && x % h == r
  {
    DivMod(x, h);
    var q', r' := x / h, x % h;
    if q' < q {
      MulMono(q' + 1, q, h);
      MulAdd(q', 1, h);
    } else if q < q' {
      MulMono(q + 1, q', h);
      MulAdd(q, 1, h);
    }
  }

  lemma ModAddMultiple(q: int, h: int, r: int)
    requires h > 0
    ensures (q * h + r) % h == r % h
  {
    DivMod(r, h);
    MulAdd(q, r / h, h);
    ModUnique(q * h + r, h, q + r / h, r % h);
  }

  /** The remainder of x * w + r modulo u * w, for a digit r below w. */
  lemma ModScaled(x: int, u: int, w: int, r: int)
    requires u > 0 && 0 <= r < w
    ensures 0 < u * w && (x * w + r) % (u * w) == (x % u) * w + r
  {
    DivMod(x, u);
    var q, m := x / u, x % u;
    MulAdd(q * u, m, w);
    MulAssoc(q, u, w);
    MulMono(0, m, w);
    MulMono(m + 1, u, w);
    MulAdd(m, 1, w);
    ModUnique(x * w + r, u * w, q, m * w + r);
  }

  function TwoPow(k: nat): (p: nat)
    ensures p >= 1
  {
    if k == 0 then 1 else 2 * TwoPow(k - 1)
  }

  lemma {:induction false} TwoPowAdd(j: nat, k: nat)
    ensures TwoPow(j + k) == TwoPow(j) * TwoPow(k)
  {
    if j > 0 {
      TwoPowAdd(j - 1, k);
      assert j + k - 1 == j - 1 + k;
      MulAssoc(2, TwoPow(j - 1), TwoPow(k));
    }
  }

  lemma TwoPowSmall()
    ensures TwoPow(0) == 1 && TwoPow(1) == 2 && TwoPow(2) == 4 && TwoPow(3) == 8 && TwoPow(4) == 16
    ensures TwoPow(5) == 32 && TwoPow(6) == 64 && TwoPow(7) == 128 && TwoPow(8) == 256
  {
    assert TwoPow(3) == 8;
    assert TwoPow(5) == 4 * TwoPow(3);
    assert TwoPow(7) == 4 * TwoPow(5);
  }
}
