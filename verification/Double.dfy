/** IEEE 754 binary64 by its bit patterns, and roundTiesToEven stated without an algorithm
    (section 4.3.1 of IEEE 754-2008). Magnitudes are counted in units of 2^-1074, the least
    subnormal, so that every finite pattern is a whole number. */
module Double {
  import opened Arith

  const HIDDEN: nat := 0x10_0000_0000_0000 // 2^52
  const INFINITY: nat := 0x7ff0_0000_0000_0000

  /** The magnitude of a sign-less bit pattern. The pattern of infinity reads as 2^1024, the
      value rounding compares with at overflow. */
  function Mag(bits: nat): nat {
    FieldsMag(bits / HIDDEN, bits % HIDDEN)
  }

  /** The magnitude given by the exponent and fraction fields. */
  function FieldsMag(e: nat, frac: nat): nat {
    if e == 0 then frac else (HIDDEN + frac) * Pow2(e - 1)
  }

  /** The pattern `r` is v/u, in units of 2^-1074, rounded to nearest with ties to even: v/u
      lies between the midpoints to the neighbouring patterns, and on one only if r is even. */
  ghost predicate IsNearestEven(r: nat, v: nat, u: nat) {
    && r <= INFINITY
    && (r < INFINITY ==> 2 * v < (Mag(r) + Mag(r + 1)) * u || (2 * v == (Mag(r) + Mag(r + 1)) * u && r % 2 == 0))
    && (r > 0 ==> 2 * v > (Mag(r - 1) + Mag(r)) * u || (2 * v == (Mag(r - 1) + Mag(r)) * u && r % 2 == 0))
  }

  /** The pattern of m * 2^e units. A significand that has reached 2^53 carries into the
      exponent field by itself. */
  function Pattern(m: nat, e: nat): nat {
    e * HIDDEN + m
  }

  /** Significands a pattern can show: below 2^52 only with the least exponent. */
  ghost predicate IsSignificand(m: nat, e: nat) {
    m <= 2 * HIDDEN && (0 < e ==> HIDDEN <= m)
  }

  lemma FieldsOf(bits: nat, e: nat, frac: nat)
    requires bits == e * HIDDEN + frac && frac < HIDDEN
    ensures Mag(bits) == FieldsMag(e, frac)
  {
    DivModUnique(bits, HIDDEN, e, frac);
  }

  lemma FieldsOfZero(frac: nat)
    ensures FieldsMag(0, frac) == frac * Pow2(0)
  {
    assert Pow2(0) == 1;
  }

  lemma FieldsOfNormal(e: nat, frac: nat)
    ensures FieldsMag(e + 1, frac) == (HIDDEN + frac) * Pow2(e)
  {
  }

  lemma PatternMag(m: nat, e: nat)
    requires IsSignificand(m, e)
    ensures Mag(Pattern(m, e)) == m * Pow2(e)
  {
    hide Pow2, Mag, FieldsMag;
    if m < HIDDEN {
      FieldsOf(Pattern(m, e), 0, m);
      FieldsOfZero(m);
    } else if m < 2 * HIDDEN {
      FieldsOf(Pattern(m, e), e + 1, m - HIDDEN);
      FieldsOfNormal(e, m - HIDDEN);
    } else {
      CarriedPattern(e);
    }
  }

  /** A significand of 2^53 reads as 2^52 with the next exponent. */
  lemma CarriedPattern(e: nat)
    ensures Mag(Pattern(2 * HIDDEN, e)) == 2 * HIDDEN * Pow2(e)
  {
    var q := Pow2(e);
    assert Pow2(e + 1) == 2 * q;
    assert FieldsMag(e + 2, 0) == HIDDEN * Pow2(e + 1);
    hide Pow2, FieldsMag, Mag;
    FieldsOf(Pattern(2 * HIDDEN, e), e + 2, 0);
  }

  /** The places from one power of two to the next are equally spaced, by their exponent field. */
  lemma Spacing(e: nat, f: nat)
    requires f < HIDDEN
    ensures Mag(e * HIDDEN + f) == if e == 0 then f else Pow2(52 + (e - 1)) + f * Pow2(e - 1)
  {
    hide Pow2;
    Pow2Values();
    FieldsOf(e * HIDDEN + f, e, f);
    if e != 0 {
      Pow2Add(52, e - 1);
      Distribute(HIDDEN, f, Pow2(e - 1));
    }
  }

  /** Zero, the least subnormal, the least normal, 1.0 and infinity. */
  lemma Landmarks()
    ensures Mag(0) == 0 && Mag(1) == 1 && Mag(0x0010_0000_0000_0000) == Pow2(52)
    ensures Mag(0x3ff0_0000_0000_0000) == Pow2(1074) && Mag(INFINITY) == Pow2(1074 + 1024)
  {
    hide Pow2, Mag;
    Pow2Values();
    Pow2Zero();
    Spacing(0, 0);
    Spacing(0, 1);
    Spacing(1, 0);
    Spacing(1023, 0);
    Spacing(2047, 0);
  }

  lemma Pow2Zero()
    ensures Pow2(0) == 1
  {
  }

  /** Patterns are ordered as their magnitudes. */
  lemma MagIncreases(r: nat)
    ensures Mag(r) < Mag(r + 1)
  {
    var e, m := r / HIDDEN, r % HIDDEN;
    DivModDef(r, HIDDEN);
    var sig, exp := if e == 0 then m else m + HIDDEN, if e == 0 then 0 else e - 1;
    assert r == Pattern(sig, exp) && r + 1 == Pattern(sig + 1, exp);
    PatternMag(sig, exp);
    PatternMag(sig + 1, exp);
    Distribute(sig, 1, Pow2(exp));
  }

  lemma {:induction false} MagOrder(a: nat, b: nat)
    requires a <= b
    ensures a < b ==> Mag(a) < Mag(b)
    decreases b
  {
    if a < b {
      MagIncreases(b - 1);
      MagOrder(a, b - 1);
    }
  }

  lemma SameMag(a: nat, b: nat)
    requires Mag(a) == Mag(b)
    ensures a == b
  {
    hide Mag;
    if a < b {
      MagOrder(a, b);
    } else {
      MagOrder(b, a);
    }
  }

  /** A number has one nearest pattern. */
  lemma NearestUnique(r: nat, s: nat, v: nat, u: nat)
    requires 0 < u && IsNearestEven(r, v, u) && IsNearestEven(s, v, u)
    ensures r == s
  {
    if r < s {
      NotBothNearest(r, s, v, u);
    } else if s < r {
      NotBothNearest(s, r, v, u);
    }
  }

  /** A double is nearest to itself. */
  lemma NearestToItself(r: nat, v: nat)
    requires r < INFINITY && v == Mag(r)
    ensures IsNearestEven(r, v, 1)
  {
    MagIncreases(r);
    if r > 0 {
      MagIncreases(r - 1);
    }
    hide Mag;
  }

  lemma NotBothNearest(r: nat, s: nat, v: nat, u: nat)
    requires 0 < u && r < s
    ensures !(IsNearestEven(r, v, u) && IsNearestEven(s, v, u))
  {
    hide Mag;
    MagOrder(r, s - 1);
    MagOrder(r + 1, s);
    if IsNearestEven(r, v, u) && IsNearestEven(s, v, u) {
      MiddlesApart(r, s, v, u, Mag(r) + Mag(r + 1), Mag(s - 1) + Mag(s));
    }
  }

  lemma MiddlesApart(r: nat, s: nat, v: nat, u: nat, lo: nat, hi: nat)
    requires 0 < u && r < s && lo <= hi && (r < s - 1 ==> lo < hi)
    requires 2 * v < lo * u || (2 * v == lo * u && r % 2 == 0)
    ensures !(2 * v > hi * u || (2 * v == hi * u && s % 2 == 0))
  {
    MulMono(lo, hi, u);
    if r < s - 1 {
      MulMono(lo + 1, hi, u);
      Distribute(lo, 1, u);
    }
  }

  /** Where v lies between m and m + 1 times u: 0 on m, 1 below the middle, 2 on it, 3 above. */
  ghost function Position(rem: nat, u: nat): nat {
    if rem == 0 then 0 else if 2 * rem < u then 1 else if 2 * rem == u then 2 else 3
  }

  ghost predicate Split(v: nat, u: nat, m: nat, lost: nat) {
    0 < u && m == v / u && lost == Position(v % u, u)
  }

  /** The decision of round-to-nearest-even. */
  predicate RoundsUp(m: nat, lost: nat) {
    lost == 3 || (lost == 2 && m % 2 == 1)
  }

  /** Above the middle of two neighbours, the upper one is nearest. */
  lemma RoundedUp(r: nat, v: nat, u: nat, lo: nat, hi: nat)
    requires 0 < u && 0 < r <= INFINITY && lo == Mag(r - 1) && hi == Mag(r)
    requires (lo + hi) * u <= 2 * v < 2 * hi * u
    requires (lo + hi) * u == 2 * v ==> r % 2 == 0
    ensures IsNearestEven(r, v, u)
  {
    MagIncreases(r);
    hide Mag;
    MulMono(2 * hi, hi + Mag(r + 1), u);
  }

  /** Below the middle of two neighbours, the lower one is nearest. */
  lemma RoundedDown(r: nat, v: nat, u: nat, lo: nat, hi: nat)
    requires 0 < u && r < INFINITY && lo == Mag(r) && hi == Mag(r + 1)
    requires 2 * lo * u <= 2 * v <= (lo + hi) * u
    requires (lo + hi) * u == 2 * v ==> r % 2 == 0
    ensures IsNearestEven(r, v, u)
  {
    if r > 0 {
      MagIncreases(r - 1);
      hide Mag;
      MulMono(Mag(r - 1) + lo + 1, 2 * lo, u);
      Distribute(Mag(r - 1) + lo, 1, u);
    }
  }

  lemma PatternParity(m: nat, e: nat)
    ensures Pattern(m, e) % 2 == m % 2
    ensures Pattern(m + 1, e) == Pattern(m, e) + 1
  {
  }

  /** v = (m + rem/w) * w against the points m, m + 1/2 and m + 1. */
  lemma MidpointBounds(v: nat, u: nat, m: nat, p: nat, w: nat, rem: nat, lo: nat, hi: nat)
    requires w == p * u && v == m * w + rem && lo == m * p && hi == (m + 1) * p
    ensures 2 * lo * u == 2 * v - 2 * rem
    ensures (lo + hi) * u == 2 * v - 2 * rem + w
    ensures 2 * hi * u == 2 * v - 2 * rem + 2 * w
  {
    Assoc(m, p, u);
    Assoc(m + 1, p, u);
    Distribute(m, 1, w);
    Distribute(lo, hi, u);
    Assoc(2, lo, u);
    Assoc(2, hi, u);
  }

  /** Rounding the significand rounds the number. */
  lemma RoundedPattern(v: nat, u: nat, m: nat, e: nat, lost: nat)
    requires 0 < u && Split(v, Pow2(e) * u, m, lost) && IsSignificand(m, e) && m < 2 * HIDDEN
    requires Pattern(m, e) < INFINITY
    ensures IsNearestEven(Pattern(if RoundsUp(m, lost) then m + 1 else m, e), v, u)
  {
    var p, r := Pow2(e), Pattern(m, e);
    var w := p * u;
    DivModDef(v, w);
    PatternMag(m, e);
    PatternMag(m + 1, e);
    PatternParity(m, e);
    RoundedPoint(v, u, m, p, w, r, v % w, lost, Mag(r), Mag(r + 1));
  }

  lemma RoundedPoint(v: nat, u: nat, m: nat, p: nat, w: nat, r: nat, rem: nat, lost: nat, lo: nat, hi: nat)
    requires 0 < u && w == p * u && v == m * w + rem && rem < w && lost == Position(rem, w)
    requires r < INFINITY && r % 2 == m % 2
    requires lo == Mag(r) == m * p && hi == Mag(r + 1) == (m + 1) * p
    ensures IsNearestEven(if RoundsUp(m, lost) then r + 1 else r, v, u)
  {
    hide Mag, IsNearestEven;
    MidpointBounds(v, u, m, p, w, rem, lo, hi);
    if RoundsUp(m, lost) {
      RoundedUp(r + 1, v, u, lo, hi);
    } else {
      RoundedDown(r, v, u, lo, hi);
    }
  }

  lemma OverflowIsNearest(v: nat, u: nat, e: nat)
    requires 0 < u && 2046 <= e && HIDDEN * (Pow2(e) * u) <= v
    ensures IsNearestEven(INFINITY, v, u)
  {
    var top: nat := 2046;
    Pow2Mono(top, e);
    FieldsOf(INFINITY, top + 1, 0);
    assert Mag(INFINITY) == HIDDEN * Pow2(top);
    MagIncreases(INFINITY - 1);
    hide Pow2, Mag;
    MulMono(Pow2(top), Pow2(e), u);
    Assoc(HIDDEN, Pow2(top), u);
    var below := Mag(INFINITY - 1);
    MulMono(below + Mag(INFINITY) + 1, 2 * Mag(INFINITY), u);
    Distribute(below + Mag(INFINITY), 1, u);
  }

  /** A full significand rounds to its own neighbours, or to infinity past the largest exponent. */
  lemma NormalNearest(v: nat, u: nat, m: nat, e: nat, lost: nat)
    requires 0 < u && Split(v, Pow2(e) * u, m, lost) && HIDDEN <= m < 2 * HIDDEN
    ensures e <= 2045 ==> IsNearestEven(Pattern(if RoundsUp(m, lost) then m + 1 else m, e), v, u)
    ensures 2046 <= e ==> IsNearestEven(INFINITY, v, u)
  {
    hide IsNearestEven, Mag, RoundsUp;
    DivModDef(v, Pow2(e) * u);
    MulMono(1, Pow2(e), u);
    MulMono(HIDDEN, m, Pow2(e) * u);
    if e <= 2045 {
      RoundedPattern(v, u, m, e, lost);
    } else {
      OverflowIsNearest(v, u, e);
    }
  }

  /** Scaling numerator and denominator alike changes nothing. */
  lemma SameRatio(a: nat, p: nat, v: nat, w: nat, m: nat, lost: nat)
    requires Split(a, p, m, lost) && 0 < w && v * p == a * w
    ensures Split(v, w, m, lost)
  {
    var r := a % p;
    DivModDef(a, p);
    var rem := v - m * w;
    // p * rem = r * w
    Distribute(m * p, r, w);
    Distribute(v, m * w, p);
    Assoc(m, p, w);
    assert rem * p == r * w;
    MulMono(r + 1, p, w);
    Distribute(r, 1, w);
    RemainderInRange(rem, r, p, w);
    DivModUnique(v, w, m, rem);
    PositionScales(rem, r, p, w);
  }

  lemma RemainderInRange(rem: int, r: nat, p: nat, w: nat)
    requires 0 < p && rem * p == r * w && r < p && r * w < p * w
    ensures 0 <= rem < w
  {
    if rem < 0 {
      MulMono(rem, -1, p);
    }
    if rem >= w {
      MulMono(w, rem, p);
    }
  }

  lemma PositionScales(rem: nat, r: nat, p: nat, w: nat)
    requires 0 < p && 0 < w && rem * p == r * w
    ensures Position(rem, w) == Position(r, p)
  {
    CompareScaled(rem, 0, r, 0, p, w);
    CompareScaled(2 * rem, w, 2 * r, p, p, w);
  }

  /** x * p = r * w and y * p = s * w order x, y as r, s. */
  lemma CompareScaled(x: nat, y: nat, r: nat, s: nat, p: nat, w: nat)
    requires 0 < p && 0 < w && x * p == r * w && y * p == s * w
    ensures (x < y <==> r < s) && (x == y <==> r == s)
  {
    if x < y {
      MulMono(x + 1, y, p);
      Distribute(x, 1, p);
      if r >= s {
        MulMono(s, r, w);
      }
    } else if x > y {
      MulMono(y + 1, x, p);
      Distribute(y, 1, p);
      if r <= s {
        MulMono(r, s, w);
      }
    }
  }
}
