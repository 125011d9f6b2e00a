/** The shifts by which labs/cachelab/csim.c takes an address apart, where shift counts are taken modulo 32. */
module CacheShifts {
  import opened Arithmetic
  import opened CacheSim

  const WORD: nat := 0x1_0000_0000

  function ShiftLeft(word: nat, count: nat): nat {
    word * Pow2(count % 32) % WORD
  }

  function ShiftRight(word: int, count: nat): int {
    word / Pow2(count % 32)
  }

  /** The two shifts that are to leave the index: the counts are those for a word of 64 bits. */
  function CodeIndex(g: Geometry, address: int): int
    requires g.s + g.b <= 64
  {
    var tagBits := 64 - (g.s + g.b);
    ShiftRight(ShiftLeft(address % WORD, tagBits), tagBits + g.b)
  }

  function CodeTag(g: Geometry, address: int): int {
    ShiftRight(address, g.s + g.b)
  }

  lemma WordIsPow2()
    ensures WORD == Pow2(32)
  {
    assert Pow2(8) == 256;
    Pow2Add(8, 8);
    Pow2Add(16, 16);
  }

  /** Scaling both sides scales the remainder and keeps the quotient. */
  lemma Scale(w: nat, p: nat, q: nat)
    requires 0 < p && 0 < q
    ensures 0 < p * q && w * q % (p * q) == (w % p) * q && w * q / (p * q) == w / p
  {
    MulBounds(p, q);
    MulOrder(w % p, p, q);
    assert w == p * (w / p) + w % p;
    assert w * q == (p * q) * (w / p) + (w % p) * q by {
      Assoc(q, p, w / p);
    }
    DivMod(p * q, w / p, (w % p) * q, w * q);
  }

  /** Cutting off high bits and then low ones, or the other way round. */
  lemma CutBothEnds(w: int, p: nat, q: nat)
    requires 0 < p && 0 < q
    ensures 0 < q * p && w % (q * p) / p == w / p % q
  {
    QuotientTwice(w, p, q);
    var h, l := w / p / q, w / p % q;
    assert w == p * (w / p) + w % p;
    assert p * (q * h + l) == (q * p) * h + p * l by { Assoc(p, q, h); }
    assert w % (q * p) == p * l + w % p;
    DivMod(p, l, w % p, p * l + w % p);
  }

  /** Wrapping to a word keeps the low bits. */
  lemma WrapKeepsLow(a: int, m: nat, r: nat)
    requires 0 < m && 0 < r
    ensures 0 < r * m && a % (r * m) % m == a % m
  {
    MulBounds(m, r);
    var n := r * m;
    var w := a % n;
    assert a == n * (a / n) + w && w == m * (w / m) + w % m;
    assert n * (a / n) == m * (r * (a / n)) by { Assoc(m, r, a / n); }
    assert a == m * (r * (a / n) + w / m) + w % m;
    DivMod(m, r * (a / n) + w / m, w % m, a);
  }

  /** The low n bits, moved to the top of the word. */
  lemma LowBitsUp(word: nat, n: nat)
    requires 0 < n < 32
    ensures ShiftLeft(word, 64 - n) == word % Pow2(n) * Pow2(32 - n)
  {
    WordIsPow2();
    Pow2Add(n, 32 - n);
    Scale(word, Pow2(n), Pow2(32 - n));
  }

  lemma LowBitsOf(a: int, n: nat)
    requires n <= 32
    ensures a % WORD % Pow2(n) == a % Pow2(n)
  {
    WordIsPow2();
    Pow2Add(32 - n, n);
    WrapKeepsLow(a, Pow2(n), Pow2(32 - n));
  }

  /** Bits at the top of the word, moved down again but for the lowest b. */
  lemma TopBitsDown(low: nat, s: nat, b: nat)
    requires 0 < s && s + b < 32
    ensures ShiftRight(low * Pow2(32 - (s + b)), 64 - (s + b) + b) == low / Pow2(b)
  {
    assert (64 - (s + b) + b) % 32 == 32 - s;
    Pow2Add(b, 32 - (s + b));
    Scale(low, Pow2(b), Pow2(32 - (s + b)));
  }

  lemma ShiftedIndex(g: Geometry, a: int)
    requires 0 < g.s && g.s + g.b < 32
    ensures CodeIndex(g, a) == a % Pow2(g.s + g.b) / Pow2(g.b)
  {
    LowBitsUp(a % WORD, g.s + g.b);
    LowBitsOf(a, g.s + g.b);
    TopBitsDown(a % Pow2(g.s + g.b), g.s, g.b);
  }

  /** With some index bits the counts for 64 bits do for 32: both are off by 32. */
  lemma IndexBits(g: Geometry, a: int)
    requires 0 < g.s && g.s + g.b < 32
    ensures CodeIndex(g, a) == Index(g, a)
  {
    ShiftedIndex(g, a);
    Pow2Add(g.s, g.b);
    CutBothEnds(a, Pow2(g.b), Pow2(g.s));
  }

  lemma NoIndexBits(g: Geometry, a: int)
    requires g.s == 0 && g.b < 32
    ensures CodeIndex(g, a) == if g.b == 0 then a % WORD else a % Pow2(g.b) * Pow2(32 - g.b)
  {
    if g.b > 0 {
      LowBitsUp(a % WORD, g.b);
      LowBitsOf(a, g.b);
    }
  }

  /** The address is that of the first byte of a block; with blocks of one byte, 0. */
  predicate AtBlockStart(g: Geometry, a: int) {
    if g.b == 0 then a % WORD == 0 else a % Pow2(g.b) == 0
  }

  lemma OneSetIff(g: Geometry, a: int)
    requires g.s == 0 && g.b < 32
    ensures CodeIndex(g, a) == 0 <==> AtBlockStart(g, a)
  {
    NoIndexBits(g, a);
    if g.b > 0 {
      MulOrder(0, a % Pow2(g.b), Pow2(32 - g.b));
    }
  }

  lemma OnlyIndex(g: Geometry, a: int)
    requires g.s == 0
    ensures Index(g, a) == 0
  {
  }

  lemma TagAsMeant(g: Geometry, a: int)
    requires g.s + g.b < 32
    ensures CodeTag(g, a) == Tag(g, a)
  {
  }

  /**
   The tag is the field meant. The index is, too, but for a cache of one set: there the shift by 32 bits shifts nothing,
   and the index is 0 only at the start of a block.
   */
  lemma FieldsAsMeantIff(g: Geometry, a: int)
    requires g.s + g.b < 32
    ensures CodeTag(g, a) == Tag(g, a)
    ensures CodeIndex(g, a) == Index(g, a) <==> 0 < g.s || AtBlockStart(g, a)
  {
    TagAsMeant(g, a);
    if g.s > 0 {
      IndexBits(g, a);
    } else {
      OnlyIndex(g, a);
      OneSetIff(g, a);
    }
  }
}
