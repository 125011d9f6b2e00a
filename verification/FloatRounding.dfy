/**
 float_i2f of labs/lab1/bits.c for any word width w and fraction width f: the integer is normalised by a loop,
 then rounded to the nearest floating-point number, ties to even. Bit operations appear as arithmetic: a left
 shift doubles, `x & mask` tests whether the magnitude has reached 2^(w-1), low bits are remainders.
 Values are counted in units of the smallest positive number, 2^(1 - bias - f), so that every finite number
 is a whole number of units and everything is exact.
 */
module FloatRounding {
  import opened Arithmetic

  /** Word width, fraction width and exponent bias. */
  datatype Format = Format(w: nat, f: nat, bias: nat)

  /** At least one bit is dropped, and every integer's exponent is that of a finite number. */
  predicate Valid(fm: Format) {
    1 <= fm.f && fm.f + 2 <= fm.w && 1 <= fm.bias && fm.bias + fm.w + 1 < Pow2(fm.w - 1 - fm.f)
  }

  /** binary32 of IEEE 754-2008, section 3.4. */
  const SINGLE := Format(32, 23, 127)

  lemma SingleIsValid()
    ensures Valid(SINGLE)
  {
    assert Pow2(8) == 256 by {
      assert Pow2(4) == 16;
      Pow2Add(4, 4);
    }
  }

  // ---------- the meaning of a bit pattern ----------

  /** The weights of a pattern's fields: exponent field from 2^f up, sign bit 2^(w-1), all-ones exponent `top`. */
  datatype Layout = Layout(hidden: nat, sign: nat, top: nat)

  predicate Proper(l: Layout) {
    0 < l.hidden && 0 < l.top && l.sign == l.hidden * (l.top + 1) && l.sign % 2 == 0
  }

  function LayoutOf(fm: Format): Layout
    requires Valid(fm)
  {
    Layout(Pow2(fm.f), Pow2(fm.w - 1), Pow2(fm.w - 1 - fm.f) - 1)
  }

  lemma LayoutIsProper(fm: Format)
    requires Valid(fm)
    ensures Proper(LayoutOf(fm)) && Pow2(fm.f) % 2 == 0
    ensures fm.bias + fm.w < LayoutOf(fm).top
    ensures LayoutOf(fm).sign == Pow2(fm.f) * Pow2(fm.w - 1 - fm.f)
  {
    var l, d := LayoutOf(fm), fm.w - 1 - fm.f;
    EvenPower(fm.f);
    EvenPower(fm.w - 1);
    Pow2Add(fm.f, d);
    assert fm.f + d == fm.w - 1 && l.top + 1 == Pow2(d);
  }

  lemma EvenPower(n: nat)
    requires 1 <= n
    ensures Pow2(n) % 2 == 0
  {
    var half := Pow2(n - 1);
    assert Pow2(n) == 2 * half;
  }

  lemma DropIsEven(fm: Format)
    requires Valid(fm)
    ensures Pow2(fm.w - 1 - fm.f) == 2 * Pow2(fm.w - 2 - fm.f)
  {
    Doubles(fm.w - 2 - fm.f);
  }

  lemma Doubles(n: nat)
    ensures Pow2(n + 1) == 2 * Pow2(n)
  {
  }

  /** The magnitude with exponent field e and fraction frac: 0 is subnormal, otherwise there is a hidden bit. */
  function Scaled(hidden: nat, e: nat, frac: nat): nat {
    if e == 0 then frac else (hidden + frac) * Pow2(e - 1)
  }

  /** The magnitude of a pattern without its sign bit. */
  function Magnitude(l: Layout, b: nat): nat
    requires 0 < l.hidden
  {
    Scaled(l.hidden, b / l.hidden, b % l.hidden)
  }

  /** A pattern whose exponent field is not all ones. */
  predicate Finite(l: Layout, b: nat)
    requires Proper(l)
  {
    b < 2 * l.sign && (b % l.sign) / l.hidden < l.top
  }

  function Value(l: Layout, b: nat): int
    requires Proper(l)
  {
    var m: int := Magnitude(l, b % l.sign);
    if b < l.sign then m else -m
  }

  function Abs(x: int): nat {
    if x < 0 then -x else x
  }

  /** Round to nearest, ties to even (section 4.3.1): no finite number is closer, and if another one is as close
      the result's last fraction bit is zero. */
  ghost predicate Rounds(l: Layout, x: int, b: nat)
    requires Proper(l)
  {
    && Finite(l, b)
    && forall c: nat :: Finite(l, c) ==> AtLeastAsGood(x, Value(l, b), Value(l, c), b)
  }

  predicate AtLeastAsGood(x: int, v: int, other: int, b: nat) {
    && Abs(x - v) <= Abs(x - other)
    && (Abs(x - v) == Abs(x - other) && other != v ==> b % 2 == 0)
  }

  // ---------- neighbours ----------

  /** One unit in the last place. */
  function Ulp(e: nat): nat {
    if e == 0 then 1 else Pow2(e - 1)
  }

  lemma NextScaled(hidden: nat, e: nat, frac: nat)
    requires frac < hidden
    ensures frac + 1 < hidden ==> Scaled(hidden, e, frac + 1) == Scaled(hidden, e, frac) + Ulp(e)
    ensures frac + 1 == hidden ==> Scaled(hidden, e + 1, 0) == Scaled(hidden, e, frac) + Ulp(e)
  {
    if e > 0 {
      var u := Pow2(e - 1);
      assert (hidden + frac) * u + u == (hidden + frac + 1) * u;
      assert Pow2(e) == 2 * u;
      assert hidden * (2 * u) == (2 * hidden) * u;
    } else {
      assert Pow2(0) == 1;
    }
  }

  lemma NextIndex(p: nat, b: nat)
    requires 0 < p
    ensures b % p + 1 < p ==> (b + 1) / p == b / p && (b + 1) % p == b % p + 1
    ensures b % p + 1 == p ==> (b + 1) / p == b / p + 1 && (b + 1) % p == 0
  {
    assert b == p * (b / p) + b % p;
    if b % p + 1 < p {
      DivMod(p, b / p, b % p + 1, b + 1);
    } else {
      assert p * (b / p + 1) == p * (b / p) + p;
      DivMod(p, b / p + 1, 0, b + 1);
    }
  }

  /** Going to the next pattern adds one unit in the last place, also across a change of exponent. */
  lemma NextMagnitude(l: Layout, b: nat)
    requires 0 < l.hidden
    ensures Magnitude(l, b + 1) == Magnitude(l, b) + Ulp(b / l.hidden)
  {
    NextIndex(l.hidden, b);
    NextScaled(l.hidden, b / l.hidden, b % l.hidden);
  }

  lemma {:induction false} MagnitudeMonotone(l: Layout, a: nat, b: nat)
    requires 0 < l.hidden && a <= b
    ensures Magnitude(l, a) + (b - a) <= Magnitude(l, b)
    decreases b - a
  {
    if a < b {
      NextMagnitude(l, b - 1);
      MagnitudeMonotone(l, a, b - 1);
    }
  }

  /** Nearest among all magnitudes. */
  ghost predicate NearestMagnitude(l: Layout, m: nat, r: nat)
    requires 0 < l.hidden
  {
    forall c: nat :: AtLeastAsGood(m, Magnitude(l, r), Magnitude(l, c), r)
  }

  /** m lies between the patterns b and b + 1; the rule picks the nearer, or the even one half-way. */
  lemma PickNearer(l: Layout, m: nat, b: nat, up: bool)
    requires 0 < l.hidden
    requires Magnitude(l, b) <= m < Magnitude(l, b + 1)
    requires var below, above := m - Magnitude(l, b), Magnitude(l, b + 1) - m;
      up <==> above < below || (above == below && b % 2 == 1)
    ensures NearestMagnitude(l, m, if up then b + 1 else b)
  {
    var r := if up then b + 1 else b;
    forall c: nat ensures AtLeastAsGood(m, Magnitude(l, r), Magnitude(l, c), r) {
      if c <= b {
        MagnitudeMonotone(l, c, b);
      } else {
        MagnitudeMonotone(l, b + 1, c);
      }
      Nearer(m, Magnitude(l, b), Magnitude(l, b + 1), Magnitude(l, c), b, up);
    }
  }

  /** A value outside two neighbours is no better than the one picked. */
  lemma Nearer(m: nat, v: nat, v': nat, other: nat, b: nat, up: bool)
    requires v <= m < v' && (other <= v || v' <= other)
    requires up <==> v' - m < m - v || (m - v == v' - m && b % 2 == 1)
    ensures AtLeastAsGood(m, if up then v' else v, other, if up then b + 1 else b)
  {
  }

  /** A finite magnitude pattern does not reach the sign bit. */
  lemma BelowSign(l: Layout, r: nat)
    requires Proper(l) && r / l.hidden < l.top
    ensures r < l.sign
  {
    assert r == l.hidden * (r / l.hidden) + r % l.hidden;
    MulMonotone(l.hidden, r / l.hidden + 1, l.top + 1);
    assert l.hidden * (r / l.hidden + 1) == l.hidden * (r / l.hidden) + l.hidden;
  }

  /** The two patterns of a magnitude. */
  lemma SignedPattern(l: Layout, r: nat, negative: bool)
    requires Proper(l) && r / l.hidden < l.top
    ensures var b := if negative then l.sign + r else r;
      && Finite(l, b) && b % 2 == r % 2
      && Value(l, b) == if negative then -(Magnitude(l, r) as int) else Magnitude(l, r)
  {
    BelowSign(l, r);
    if negative {
      WithSign(l.sign, r);
    } else {
      WithoutSign(l.sign, r);
    }
  }

  lemma WithSign(sign: nat, r: nat)
    requires r < sign && sign % 2 == 0
    ensures (sign + r) / sign == 1 && (sign + r) % sign == r && (sign + r) % 2 == r % 2
  {
    DivMod(sign, 1, r, sign + r);
  }

  lemma WithoutSign(sign: nat, r: nat)
    requires r < sign
    ensures r / sign == 0 && r % sign == r
  {
    DivMod(sign, 0, r, r);
  }

  /** Rounding the magnitude and keeping the sign rounds the number. */
  lemma SignedNearest(l: Layout, x: int, r: nat, negative: bool)
    requires Proper(l) && r / l.hidden < l.top
    requires NearestMagnitude(l, Abs(x), r) && (if negative then x < 0 else 0 <= x)
    ensures Rounds(l, x, if negative then l.sign + r else r)
  {
    var b := if negative then l.sign + r else r;
    SignedPattern(l, r, negative);
    assert Magnitude(l, 0) == 0 by {
      DivMod(l.hidden, 0, 0, 0);
    }
    forall c: nat | Finite(l, c) ensures AtLeastAsGood(x, Value(l, b), Value(l, c), b) {
      assert AtLeastAsGood(Abs(x), Magnitude(l, r), Magnitude(l, c % l.sign), r);
      assert AtLeastAsGood(Abs(x), Magnitude(l, r), Magnitude(l, 0), r);
    }
  }

  // ---------- the conversion ----------

  /** An integer in units. */
  function InUnits(fm: Format, x: int): int
    requires Valid(fm)
  {
    x * Pow2(fm.bias + fm.f - 1)
  }

  lemma MagnitudeAt(l: Layout, e: nat, frac: nat)
    requires 1 <= e && frac < l.hidden
    ensures Magnitude(l, e * l.hidden + frac) == (l.hidden + frac) * Pow2(e - 1)
    ensures Magnitude(l, e * l.hidden + frac + 1) == (l.hidden + frac) * Pow2(e - 1) + Pow2(e - 1)
  {
    DivMod(l.hidden, e, frac, e * l.hidden + frac);
    NextMagnitude(l, e * l.hidden + frac);
  }

  /**
   The arithmetic heart. After s doublings the magnitude fills the word: n * 2^s = (hidden + frac) * 2^drop + low.
   In units (one unit weighing 1/k, with 2^(e-1) * 2^s = 2^drop * k), n lies low/2^drop of the way from the
   pattern (e, frac) to the next one.
   */
  lemma Position(l: Layout, n: nat, s: nat, e: nat, frac: nat, low: nat, d: nat, k: nat)
    requires 1 <= e && frac < l.hidden && Pow2(e - 1) * Pow2(s) == d * k
    requires n * Pow2(s) == (l.hidden + frac) * d + low
    ensures var b := e * l.hidden + frac;
      && (n * k - Magnitude(l, b)) * Pow2(s) == low * k
      && (Magnitude(l, b + 1) - Magnitude(l, b)) * Pow2(s) == d * k
  {
    var h := l.hidden + frac;
    MagnitudeAt(l, e, frac);
    calc {
      (n * k - h * Pow2(e - 1)) * Pow2(s);
      == { Scale(n, k, h, Pow2(e - 1), Pow2(s)); }
      (n * Pow2(s)) * k - h * (Pow2(e - 1) * Pow2(s));
      ==
      (h * d + low) * k - h * (d * k);
      == { Collect(h, d, low, k); }
      low * k;
    }
  }

  lemma Scale(n: int, a: int, h: int, b: int, c: int)
    ensures (n * a - h * b) * c == (n * c) * a - h * (b * c)
  {
    assert (n * a - h * b) * c == n * a * c - h * b * c;
    assert n * a * c == (n * c) * a;
    Assoc(h, b, c);
  }

  lemma Collect(h: int, d: int, low: int, k: int)
    ensures (h * d + low) * k - h * (d * k) == low * k
  {
    assert (h * d + low) * k == h * d * k + low * k;
    Assoc(h, d, k);
  }

  /** Comparing scaled distances compares the distances. */
  lemma Compare(a: int, b: int, s: nat, low: nat, rest: nat, k: nat)
    requires 0 < s && 0 < k && a * s == low * k && b * s == rest * k
    ensures (a < b <==> low < rest) && (a == b <==> low == rest) && (0 <= a) && (0 < rest ==> 0 < b)
  {
    MulOrder(a, b, s);
    MulOrder(low, rest, k);
    MulOrder(a, 0, s);
    MulOrder(b, 0, s);
    MulOrder(rest, 0, k);
    MulOrder(low, 0, k);
  }

  /** The rounding decision on the dropped bits picks the nearer of the two neighbours. */
  lemma MagnitudeRounded(l: Layout, n: nat, s: nat, e: nat, frac: nat, low: nat, half: nat, k: nat, up: bool)
    requires 0 < l.hidden && l.hidden % 2 == 0 && 1 <= e && frac < l.hidden && 0 < half && 0 < k && low < 2 * half
    requires Pow2(e - 1) * Pow2(s) == (2 * half) * k
    requires n * Pow2(s) == (l.hidden + frac) * (2 * half) + low
    requires up <==> half <= low && (0 < low % half || frac % 2 == 1)
    ensures NearestMagnitude(l, n * k, e * l.hidden + frac + if up then 1 else 0)
  {
    var eh := e * l.hidden;
    var b := eh + frac;
    Position(l, n, s, e, frac, low, 2 * half, k);
    var below, above := n * k - Magnitude(l, b), Magnitude(l, b + 1) - n * k;
    OtherSide(below, above, Pow2(s), low, 2 * half, k);
    Compare(below, above, Pow2(s), low, 2 * half - low, k);
    EvenProduct(l.hidden, e);
    Decision(below, above, low, half, eh, frac, up);
    PickNearer(l, n * k, b, up);
  }

  /** The distance to the upper neighbour is the rest of the way. */
  lemma OtherSide(below: int, above: int, s: int, low: int, d: int, k: int)
    requires below * s == low * k && (above + below) * s == d * k
    ensures above * s == (d - low) * k
  {
    assert (above + below) * s == above * s + below * s;
    assert (d - low) * k == d * k - low * k;
  }

  /** What the dropped bits say is which neighbour is nearer, or even. */
  lemma Decision(below: int, above: int, low: nat, half: nat, eh: nat, frac: nat, up: bool)
    requires 0 < half && low < 2 * half && eh % 2 == 0
    requires (below < above <==> low < 2 * half - low) && (below == above <==> low == 2 * half - low)
    requires up <==> half <= low && (0 < low % half || frac % 2 == 1)
    ensures up <==> above < below || (above == below && (eh + frac) % 2 == 1)
  {
    HalfWay(half, low);
  }

  lemma EvenProduct(a: nat, e: nat)
    requires a % 2 == 0
    ensures (e * a) % 2 == 0
  {
    assert e * a == 2 * (e * (a / 2));
  }

  /** The same for the signed number; k units make 1. */
  lemma NumberRounded(l: Layout, x: int, s: nat, e: nat, frac: nat, low: nat, half: nat, k: nat, up: bool)
    requires Proper(l) && l.hidden % 2 == 0 && 1 <= e && e + 1 < l.top && frac < l.hidden
    requires 0 < half && 0 < k && low < 2 * half
    requires Pow2(e - 1) * Pow2(s) == (2 * half) * k
    requires Abs(x) * Pow2(s) == (l.hidden + frac) * (2 * half) + low
    requires up <==> half <= low && (0 < low % half || frac % 2 == 1)
    ensures var r := e * l.hidden + frac + if up then 1 else 0;
      Rounds(l, x * k, if x < 0 then l.sign + r else r)
  {
    MagnitudeRounded(l, Abs(x), s, e, frac, low, half, k, up);
    AbsTimes(x, k);
    var r := e * l.hidden + frac + if up then 1 else 0;
    ExponentFits(l.hidden, e, frac, r);
    SignedNearest(l, x * k, r, x < 0);
  }

  /** After s doublings the exponent weighs 2^(e-1) * 2^s = 2^drop * 2^(bias+f-1). */
  lemma Weights(fm: Format, e: nat, s: nat)
    requires Valid(fm) && s < fm.w && e == fm.bias + fm.w - 1 - s
    ensures Pow2(e - 1) * Pow2(s) == Pow2(fm.w - 1 - fm.f) * Pow2(fm.bias + fm.f - 1)
  {
    var d, k := fm.w - 1 - fm.f, fm.bias + fm.f - 1;
    assert e - 1 + s == d + k;
    Pow2Add(e - 1, s);
    Pow2Add(d, k);
  }

  lemma AbsTimes(x: int, k: nat)
    requires 0 < k
    ensures Abs(x * k) == Abs(x) * k && (x < 0 <==> x * k < 0)
  {
    MulOrder(x, 0, k);
    assert (-x) * k == -(x * k);
  }

  lemma HalfWay(half: nat, low: nat)
    requires 0 < half && low < 2 * half
    ensures half <= low && 0 < low % half <==> half < low
    ensures half <= low && low % half == 0 <==> low == half
  {
    if half <= low {
      DivMod(half, 1, low - half, low);
    }
  }

  lemma ExponentFits(p: nat, e: nat, frac: nat, r: nat)
    requires frac < p && e * p + frac <= r <= e * p + frac + 1
    ensures r / p <= e + 1
  {
    if r < e * p + p {
      DivMod(p, e, r - e * p, r);
    } else {
      assert p * (e + 1) == e * p + p;
      DivMod(p, e + 1, 0, r);
    }
  }

  /** float_i2f. */
  method FloatI2F(fm: Format, x: int) returns (bits: nat)
    requires Valid(fm) && 0 <= x + Pow2(fm.w - 1) && x < Pow2(fm.w - 1)
    ensures Proper(LayoutOf(fm)) && Rounds(LayoutOf(fm), InUnits(fm, x), bits)
    ensures x == 0 ==> bits == 0
  {
    LayoutIsProper(fm);
    var e := fm.bias + fm.w - 1;
    var mask := Pow2(fm.w - 1);
    if x + mask == 0 {
      MinIntRounds(fm, x);
      return mask + e * Pow2(fm.f);
    }
    if x == 0 {
      ZeroRounds(fm);
      return 0;
    }
    var sign := if x < 0 then mask else 0;
    var n: nat := if x < 0 then -x else x;
    ghost var s: nat;
    n, e, s := Normalise(fm, n, e, mask);
    WordRounds(fm, x, s, e, n);
    var field := RoundWord(Pow2(fm.f), Pow2(fm.w - 1 - fm.f), n, mask, e);
    return sign + field;
  }

  /** Whether the d - 1 dropped values round up: more than half, or exactly half above an odd fraction. */
  predicate RoundsUp(d: nat, frac: int, low: int)
    requires 2 <= d
  {
    d / 2 <= low && (0 < low % (d / 2) || frac % 2 == 1)
  }

  /** Exponent and fraction fields, with the increment running over into the exponent when the fraction is full. */
  function Fields(hidden: nat, d: nat, n: int, mask: nat, e: nat): int
    requires 2 <= d
  {
    var frac := (n - mask) / d;
    e * hidden + frac + if RoundsUp(d, frac, n % d) then 1 else 0
  }

  method RoundWord(hidden: nat, d: nat, n: int, mask: nat, e: nat) returns (field: int)
    requires 2 <= d
    ensures field == Fields(hidden, d, n, mask, e)
  {
    var frac := (n - mask) / d;
    var low := n % d;
    if d / 2 <= low && (0 < low % (d / 2) || frac % 2 == 1) {
      frac := frac + 1;
    }
    field := e * hidden + frac;
  }

  /** Rounding a normalised word gives the correctly rounded number. */
  lemma WordRounds(fm: Format, x: int, s: nat, e: nat, n: nat)
    requires Valid(fm) && s < fm.w && e == fm.bias + fm.w - 1 - s
    requires n == Abs(x) * Pow2(s) && Pow2(fm.w - 1) <= n < 2 * Pow2(fm.w - 1)
    ensures Proper(LayoutOf(fm)) && LayoutOf(fm).sign == Pow2(fm.f) * Pow2(fm.w - 1 - fm.f)
    ensures 2 <= Pow2(fm.w - 1 - fm.f)
    ensures var r := Fields(Pow2(fm.f), Pow2(fm.w - 1 - fm.f), n, Pow2(fm.w - 1), e);
      0 <= r && Rounds(LayoutOf(fm), InUnits(fm, x), if x < 0 then Pow2(fm.w - 1) + r else r)
  {
    LayoutIsProper(fm);
    DropIsEven(fm);
    Weights(fm, e, s);
    FieldsRound(LayoutOf(fm), x, s, e, n, Pow2(fm.w - 2 - fm.f), Pow2(fm.bias + fm.f - 1));
  }

  lemma FieldsRound(l: Layout, x: int, s: nat, e: nat, n: nat, half: nat, k: nat)
    requires Proper(l) && l.hidden % 2 == 0 && 1 <= e && e + 1 < l.top && 0 < half && 0 < k
    requires l.sign == l.hidden * (2 * half) && Pow2(e - 1) * Pow2(s) == (2 * half) * k
    requires n == Abs(x) * Pow2(s) && l.sign <= n < 2 * l.sign
    ensures var r := Fields(l.hidden, 2 * half, n, l.sign, e);
      0 <= r && Rounds(l, x * k, if x < 0 then l.sign + r else r)
  {
    var frac, low := SplitWord(l.hidden, 2 * half, l.sign, n);
    NumberRounded(l, x, s, e, frac, low, half, k, RoundsUp(2 * half, frac, low));
  }

  lemma SplitWord(hidden: nat, d: nat, sign: nat, n: nat) returns (frac: nat, low: nat)
    requires 0 < hidden && 2 <= d && sign == hidden * d && sign <= n < 2 * sign
    ensures frac == (n - sign) / d && low == n % d
    ensures frac < hidden && low < d && n == (hidden + frac) * d + low
  {
    Split(hidden, d, n);
    frac, low := (n - sign) / d, n % d;
  }

  /** The smallest integer is a power of two and is returned as such. */
  lemma MinIntRounds(fm: Format, x: int)
    requires Valid(fm) && x + Pow2(fm.w - 1) == 0
    ensures Proper(LayoutOf(fm))
    ensures Rounds(LayoutOf(fm), InUnits(fm, x), Pow2(fm.w - 1) + (fm.bias + fm.w - 1) * Pow2(fm.f))
  {
    var e := fm.bias + fm.w - 1;
    assert Abs(x) * Pow2(0) == Pow2(fm.w - 1);
    WordRounds(fm, x, 0, e, Pow2(fm.w - 1));
    ExactFields(Pow2(fm.f), Pow2(fm.w - 1 - fm.f), Pow2(fm.w - 1), e);
  }

  lemma ExactFields(hidden: nat, d: nat, mask: nat, e: nat)
    requires 2 <= d && mask == hidden * d
    ensures Fields(hidden, d, mask, mask, e) == e * hidden
  {
    DivMod(d, hidden, 0, mask);
    DivMod(d, 0, 0, 0);
  }

  /** The normalising loop: double until the magnitude reaches the top bit of the word. */
  method Normalise(fm: Format, n: nat, e: nat, mask: nat) returns (n': nat, e': nat, ghost s: nat)
    requires Valid(fm) && mask == Pow2(fm.w - 1) && 0 < n < mask && e == fm.bias + fm.w - 1
    ensures mask <= n' < 2 * mask
    ensures s < fm.w && e' == fm.bias + fm.w - 1 - s
    ensures n' == n * Pow2(s)
  {
    n', e', s := n, e, 0;
    while n' < mask
      invariant s < fm.w && e' == fm.bias + fm.w - 1 - s
      invariant n' == n * Pow2(s) && 0 < n' < 2 * mask
      decreases mask - n'
    {
      StillShort(fm, n, s);
      n' := 2 * n';
      e' := e' - 1;
      s := s + 1;
    }
  }

  /** Cutting a full word into hidden bit, fraction and dropped bits. */
  lemma Split(p: nat, d: nat, n: nat)
    requires 0 < p && 0 < d && p * d <= n < 2 * (p * d)
    ensures (n - p * d) / d < p && n == (p + (n - p * d) / d) * d + n % d
  {
    var m := n - p * d;
    assert m == d * (m / d) + m % d;
    assert n == d * (p + m / d) + m % d by {
      assert d * (p + m / d) == d * p + d * (m / d);
    }
    DivMod(d, p + m / d, m % d, n);
    if m / d >= p {
      MulMonotone(d, p, m / d);
    }
  }

  /** As long as the magnitude is short of the word there is room to double: at most w - 1 doublings. */
  lemma StillShort(fm: Format, n: nat, s: nat)
    requires Valid(fm) && s < fm.w && 0 < n && n * Pow2(s) < Pow2(fm.w - 1)
    ensures s + 1 < fm.w && n * Pow2(s + 1) == 2 * (n * Pow2(s))
  {
    if s + 1 == fm.w {
      MulMonotone(Pow2(s), 1, n);
    }
    Assoc(n, 2, Pow2(s));
    Assoc(2, n, Pow2(s));
  }

  lemma ZeroRounds(fm: Format)
    requires Valid(fm)
    ensures Proper(LayoutOf(fm)) && Rounds(LayoutOf(fm), InUnits(fm, 0), 0)
  {
    LayoutIsProper(fm);
    var l := LayoutOf(fm);
    DivMod(l.hidden, 0, 0, 0);
    forall c: nat ensures AtLeastAsGood(0, Magnitude(l, 0), Magnitude(l, c), 0) {
    }
    SignedNearest(l, 0, 0, false);
  }

  // ---------- consequences ----------

  /** Rounding is exact whenever it can be. */
  lemma ExactWhenRepresentable(l: Layout, x: int, b: nat, c: nat)
    requires Proper(l) && Rounds(l, x, b) && Finite(l, c) && Value(l, c) == x
    ensures Value(l, b) == x
  {
    assert AtLeastAsGood(x, Value(l, b), Value(l, c), b);
  }

  /** Strictly between two finite values with even patterns lies a third. */
  lemma EvenPatternsHaveBetween(l: Layout, b1: nat, b2: nat) returns (c: nat)
    requires Proper(l) && Finite(l, b1) && Finite(l, b2) && b1 % 2 == 0 && b2 % 2 == 0
    requires Value(l, b1) < Value(l, b2)
    ensures Finite(l, c) && Value(l, b1) < Value(l, c) < Value(l, b2)
  {
    var r1, r2 := b1 % l.sign, b2 % l.sign;
    FieldParity(l, b1);
    FieldParity(l, b2);
    if Value(l, b1) < 0 < Value(l, b2) {
      DivMod(l.hidden, 0, 0, 0);
      SignedPattern(l, 0, false);
      c := 0;
    } else if 0 <= Value(l, b1) {
      MagnitudeOrder(l, r1, r2);
      BetweenMagnitudes(l, r1, r2);
      SignedPattern(l, r1 + 1, false);
      c := r1 + 1;
    } else {
      MagnitudeOrder(l, r2, r1);
      BetweenMagnitudes(l, r2, r1);
      SignedPattern(l, r2 + 1, true);
      c := l.sign + (r2 + 1);
    }
  }

  lemma FieldParity(l: Layout, b: nat)
    requires Proper(l) && b < 2 * l.sign
    ensures (b % l.sign) % 2 == b % 2
    ensures b % l.sign == if b < l.sign then b else b - l.sign
  {
    if b < l.sign {
      DivMod(l.sign, 0, b, b);
    } else {
      DivMod(l.sign, 1, b - l.sign, b);
    }
  }

  lemma MagnitudeOrder(l: Layout, a: nat, b: nat)
    requires Proper(l) && Magnitude(l, a) < Magnitude(l, b)
    ensures a < b
  {
    if b <= a {
      MagnitudeMonotone(l, b, a);
    }
  }

  lemma BetweenMagnitudes(l: Layout, a: nat, b: nat)
    requires Proper(l) && a < b && a % 2 == 0 && b % 2 == 0 && b / l.hidden < l.top
    ensures Magnitude(l, a) < Magnitude(l, a + 1) < Magnitude(l, b) && (a + 1) / l.hidden < l.top
  {
    MagnitudeMonotone(l, a, a + 1);
    MagnitudeMonotone(l, a + 1, b);
    DivOrder(a + 1, b, l.hidden);
  }

  lemma DivOrder(a: nat, b: nat, p: nat)
    requires 0 < p && a <= b
    ensures a / p <= b / p
  {
    assert a == p * (a / p) + a % p && b == p * (b / p) + b % p;
    MulBounds(p, b / p - a / p);
    assert p * (b / p - a / p) == p * (b / p) - p * (a / p);
  }

  lemma NotBothRound(l: Layout, x: int, b1: nat, b2: nat)
    requires Proper(l) && Value(l, b1) < Value(l, b2)
    ensures !Rounds(l, x, b1) || !Rounds(l, x, b2)
  {
    if Finite(l, b1) && Finite(l, b2) && b1 % 2 == 0 && b2 % 2 == 0 && Abs(x - Value(l, b1)) == Abs(x - Value(l, b2)) {
      var c := EvenPatternsHaveBetween(l, b1, b2);
      assert !AtLeastAsGood(x, Value(l, b1), Value(l, c), b1);
    } else {
      assert !Finite(l, b1) || !Finite(l, b2)
        || !AtLeastAsGood(x, Value(l, b1), Value(l, b2), b1) || !AtLeastAsGood(x, Value(l, b2), Value(l, b1), b2);
    }
  }

  /** Correct rounding determines the value: two patterns that both round x denote the same number. */
  lemma RoundingIsUnique(l: Layout, x: int, b1: nat, b2: nat)
    requires Proper(l) && Rounds(l, x, b1) && Rounds(l, x, b2)
    ensures Value(l, b1) == Value(l, b2)
  {
    if Value(l, b1) < Value(l, b2) {
      NotBothRound(l, x, b1, b2);
    } else if Value(l, b2) < Value(l, b1) {
      NotBothRound(l, x, b2, b1);
    }
  }

  // ---------- the 32-bit instance ----------

  /** The masks of the C code: hidden bit 1 << 23, sign bit 1 << 31, all-ones exponent 255. */
  lemma SingleLayout()
    ensures Valid(SINGLE) && LayoutOf(SINGLE) == Layout(0x80_0000, 0x8000_0000, 255)
  {
    SingleIsValid();
    assert Pow2(8) == 256 && Pow2(7) == 128;
    Pow2Add(8, 8);
    Pow2Add(16, 7);
    Pow2Add(23, 8);
  }

  /** The bias section 3.4 of IEEE 754-2008 prescribes for the exponent's width: half of its range, less one. */
  predicate Interchange(fm: Format) {
    Valid(fm) && 2 * (fm.bias + 1) == Pow2(fm.w - 1 - fm.f)
  }

  /** The pattern whose exponent field is a 0 and then all ones, and whose fraction is 0. */
  function OnePattern(fm: Format): nat
    requires Valid(fm)
  {
    (Pow2(fm.w - 2 - fm.f) - 1) * Pow2(fm.f)
  }

  /** The pattern with exponent field e and fraction 0. */
  lemma PowerPattern(l: Layout, e: nat)
    requires Proper(l) && 1 <= e < l.top
    ensures Finite(l, e * l.hidden) && Value(l, e * l.hidden) == l.hidden * Pow2(e - 1)
  {
    DivMod(l.hidden, e, 0, e * l.hidden);
    MagnitudeAt(l, e, 0);
    SignedPattern(l, e * l.hidden, false);
  }

  /** In such a format that pattern is 1. */
  lemma OneIsOne(fm: Format)
    requires Interchange(fm)
    ensures Proper(LayoutOf(fm)) && Finite(LayoutOf(fm), OnePattern(fm))
    ensures Value(LayoutOf(fm), OnePattern(fm)) == InUnits(fm, 1)
  {
    LayoutIsProper(fm);
    DropIsEven(fm);
    PowerPattern(LayoutOf(fm), fm.bias);
    Pow2Add(fm.f, fm.bias - 1);
  }

  /** The bias of binary32 is that one, and its pattern of 1 is 0x3F800000. */
  lemma SingleIsInterchange()
    ensures Interchange(SINGLE) && OnePattern(SINGLE) == 0x3F80_0000
    ensures Proper(LayoutOf(SINGLE)) && Value(LayoutOf(SINGLE), 0x3F80_0000) == InUnits(SINGLE, 1)
  {
    SingleLayout();
    assert Pow2(8) == 256 && Pow2(7) == 128 by { Pow2Add(4, 3); Pow2Add(4, 4); assert Pow2(4) == 16 && Pow2(3) == 8; }
    OneIsOne(SINGLE);
  }

  method FloatI2FSingle(x: int) returns (bits: nat)
    requires -0x8000_0000 <= x < 0x8000_0000
    ensures Valid(SINGLE) && Proper(LayoutOf(SINGLE))
    ensures Rounds(LayoutOf(SINGLE), InUnits(SINGLE, x), bits)
    ensures Value(LayoutOf(SINGLE), 0x3F80_0000) == InUnits(SINGLE, 1)
  {
    SingleIsInterchange();
    bits := FloatI2F(SINGLE, x);
  }
}
