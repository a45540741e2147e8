/** Facts about single bytes and 32-bit words as bit-vectors, each about literal masks
    or shifts only. */
module BitVectors {

  lemma SameInt(x: bv8, y: bv8)
    ensures x == y <==> x as int == y as int
  {}

  // Shifting right is integer division.
  lemma Quotient1(x: bv8) ensures (x >> 7) as int == x as int / 128 {}
  lemma Quotient2(x: bv8) ensures (x >> 6) as int == x as int / 64 {}
  lemma Quotient3(x: bv8) ensures (x >> 5) as int == x as int / 32 {}
  lemma Quotient4(x: bv8) ensures (x >> 4) as int == x as int / 16 {}
  lemma Quotient5(x: bv8) ensures (x >> 3) as int == x as int / 8 {}
  lemma Quotient6(x: bv8) ensures (x >> 2) as int == x as int / 4 {}
  lemma Quotient7(x: bv8) ensures (x >> 1) as int == x as int / 2 {}
  lemma Quotient0(x: bv8) ensures x as int / 256 == 0 {}
  lemma Quotient8(x: bv8) ensures x as int / 1 == x as int {}

  // A masked difference vanishes exactly when the shifted bytes are equal.
  lemma XorShift(x: bv8, y: bv8)
    ensures (x ^ y) & 0x80 == 0 <==> x >> 7 == y >> 7
    ensures (x ^ y) & 0xC0 == 0 <==> x >> 6 == y >> 6
    ensures (x ^ y) & 0xE0 == 0 <==> x >> 5 == y >> 5
    ensures (x ^ y) & 0xF0 == 0 <==> x >> 4 == y >> 4
    ensures (x ^ y) & 0xF8 == 0 <==> x >> 3 == y >> 3
    ensures (x ^ y) & 0xFC == 0 <==> x >> 2 == y >> 2
    ensures (x ^ y) & 0xFE == 0 <==> x >> 1 == y >> 1
  {}

  lemma XorAll(x: bv8, y: bv8) ensures (x ^ y) & 0xFF == 0 <==> x == y {}

  // Words assembled from four bytes, most significant first.
  function Word(a: bv8, b: bv8, c: bv8, d: bv8): bv32 {
    (a as bv32 << 24) | (b as bv32 << 16) | (c as bv32 << 8) | d as bv32
  }

  lemma WordXor(a: bv8, b: bv8, c: bv8, d: bv8, m: bv8, n: bv8, o: bv8, p: bv8)
    ensures Word(a, b, c, d) ^ Word(m, n, o, p) == Word(a ^ m, b ^ n, c ^ o, d ^ p)
  {}

  lemma WordAnd(a: bv8, b: bv8, c: bv8, d: bv8, m: bv8, n: bv8, o: bv8, p: bv8)
    ensures Word(a, b, c, d) & Word(m, n, o, p) == Word(a & m, b & n, c & o, d & p)
  {}

  lemma WordOr(a: bv8, b: bv8, c: bv8, d: bv8, m: bv8, n: bv8, o: bv8, p: bv8)
    ensures Word(a, b, c, d) | Word(m, n, o, p) == Word(a | m, b | n, c | o, d | p)
  {}

  lemma WordEqual(a: bv8, b: bv8, c: bv8, d: bv8, m: bv8, n: bv8, o: bv8, p: bv8)
    ensures Word(a, b, c, d) == Word(m, n, o, p) <==> a == m && b == n && c == o && d == p
  {}
}
