/** fmodl for the x87 80-bit format (openlibm/ld80/e_fmodl.c:54-142): the shift and subtract of
    FixedMod on two 32-bit limbs, with an explicit integer bit. The hardware products by 2^512 and
    2^-512 that bring subnormals in and out are exact here, and are modelled by their value. */
module Fmodl80 {
  import opened Arith
  import opened FixedMod

  const W: nat := 0x1_0000_0000     // one 32-bit limb
  const NBIT: nat := 0x8000_0000    // the integer bit, LDBL_NBIT
  const FULL: nat := 0x8000_0000_0000_0000
  const BIAS := 16383
  const MAX := 32767                // exponent field of infinities and NaNs

  datatype Ext = Ext(sign: bool, exp: nat, frach: nat, fracl: nat) {
    /** The patterns the hardware produces: the integer bit is set unless the exponent is 0. */
    predicate Canonical() {
      && exp <= MAX && frach < W && fracl < W
      && (exp == 0 <==> frach < NBIT)
    }

    /** The magnitude in units of the least subnormal, 2^-16445. */
    function Mag(): nat {
      Two(W, frach, fracl) * Pow2(if exp == 0 then 0 else exp - 1)
    }

    predicate Zero() {
      exp == 0 && frach == 0 && fracl == 0
    }

    predicate Nan() {
      exp == MAX && (frach % NBIT != 0 || fracl != 0)
    }
  }

  datatype Result = NaN | Number(value: Ext)

  lemma Powers()
    ensures Pow2(0) == 1 && Pow2(1) == 2 && Pow2(63) == FULL && Two(W, NBIT, 0) == FULL
  {
    Pow2Values();
  }

  lemma SignificandRange(x: Ext)
    requires x.Canonical()
    ensures Two(W, x.frach, x.fracl) < 2 * FULL
    ensures x.exp != 0 ==> FULL <= Two(W, x.frach, x.fracl)
    ensures x.exp == 0 ==> Two(W, x.frach, x.fracl) < FULL
  {
  }

  /** A larger exponent, or the same one and a larger significand, is a larger magnitude. */
  lemma MagIncreases(x: Ext, y: Ext)
    requires x.Canonical() && y.Canonical()
    requires x.exp < y.exp || (x.exp == y.exp && Two(W, x.frach, x.fracl) < Two(W, y.frach, y.fracl))
    ensures x.Mag() < y.Mag()
  {
    SignificandRange(x);
    SignificandRange(y);
    Powers();
    var a, b := Two(W, x.frach, x.fracl), Two(W, y.frach, y.fracl);
    var p, q := Pow2(if x.exp == 0 then 0 else x.exp - 1), Pow2(if y.exp == 0 then 0 else y.exp - 1);
    assert x.Mag() == a * p && y.Mag() == b * q;
    if x.exp == y.exp {
      hide *;
      MulMono(a + 1, b, p);
      Distribute(a, 1, p);
    } else if x.exp == 0 {
      MulMono(1, q, b);
    } else {
      Pow2Mono(x.exp - 1, y.exp - 1);
      hide *;
      MulMono(a + 1, 2 * b, p);
      Distribute(a, 1, p);
      DoubledScale(2 * b, b, p, q);
    }
  }

  /** Infinity, the pattern above every finite one. */
  function Infinity(): Ext {
    Ext(false, 32767, 0x8000_0000, 0)
  }

  /** 0 and the least subnormal; 1, which is 2^16445 of them; and infinity, which reads as 2^16384. */
  lemma Landmarks()
    ensures Ext(false, 0, 0, 0).Mag() == 0 && Ext(false, 0, 0, 1).Mag() == 1
    ensures Ext(false, 16383, 0x8000_0000, 0).Mag() == Pow2(16445)
    ensures Infinity().Canonical() && Infinity().Mag() == Pow2(16384 + 16445)
  {
    Powers();
    hide Pow2;
    Pow2Add(63, 16382);
    Pow2Add(63, 32766);
  }

  /** One place further, the magnitude grows by the unit of the exponent. */
  lemma NextMag(sign: bool, exp: nat, frach: nat, fracl: nat, h: nat, l: nat)
    requires h * 0x1_0000_0000 + l == frach * 0x1_0000_0000 + fracl + 1
    ensures Ext(sign, exp, h, l).Mag() == Ext(sign, exp, frach, fracl).Mag() + Pow2(if exp == 0 then 0 else exp - 1)
  {
    Distribute(frach * 0x1_0000_0000 + fracl, 1, Pow2(if exp == 0 then 0 else exp - 1));
  }

  lemma OrderOf(x: Ext, y: Ext)
    requires x.Canonical() && y.Canonical()
    ensures x.Mag() < y.Mag()
      <==> x.exp < y.exp || (x.exp == y.exp && Two(W, x.frach, x.fracl) < Two(W, y.frach, y.fracl))
  {
    if x.exp == y.exp && Two(W, x.frach, x.fracl) == Two(W, y.frach, y.fracl) {
      assert x.Mag() == y.Mag();
    } else if x.exp < y.exp || (x.exp == y.exp && Two(W, x.frach, x.fracl) < Two(W, y.frach, y.fracl)) {
      hide Two, Pow2;
      MagIncreases(x, y);
    } else {
      hide Two, Pow2;
      MagIncreases(y, x);
    }
  }

  /** y = 0, x not finite, and y not a number, by the magnitudes. */
  lemma RejectsIs(x: Ext, y: Ext)
    requires x.Canonical() && y.Canonical()
    ensures Rejects(x, y) <==> y.Mag() == 0 || y.Mag() > Infinity().Mag() || x.Mag() >= Infinity().Mag()
  {
    var zero, inf := SignedZero(false), Infinity();
    Landmarks();
    ZeroMag(false);
    hide Pow2, Ext.Mag;
    OrderOf(zero, y);
    OrderOf(inf, y);
    OrderOf(x, inf);
  }

  /** The exponent and significand fields of x * 2^512 for a subnormal x, and the unbiased exponent
      of x they give. */
  method ScaleUp(x: Ext) returns (h: nat, l: nat, ix: int, ghost u: nat)
    requires x.Canonical() && x.exp == 0 && !x.Zero()
    ensures l < W && FULL <= Two(W, h, l) < 2 * FULL
    ensures ix == u - 16445 && ix <= BIAS
    ensures x.Mag() * FULL == Two(W, h, l) * Pow2(u)
  {
    var exp;
    Powers();
    SignificandRange(x);
    TwoPositive(W, x.frach, x.fracl);
    assert x.Mag() == Two(W, x.frach, x.fracl);
    hide *;
    h, l, exp, u := Normalise(W, NBIT, x.frach, x.fracl, 513, 63, x.Mag());
    ix := exp - (BIAS + 512);
  }

  /** Significand and exponent of a finite nonzero x. */
  method SetUp(x: Ext) returns (h: nat, l: nat, ix: int, ghost u: nat)
    requires x.Canonical() && x.exp < MAX && !x.Zero()
    ensures l < W && FULL <= Two(W, h, l) < 2 * FULL
    ensures ix == u - 16445 && ix <= BIAS
    ensures x.Mag() * FULL == Two(W, h, l) * Pow2(u)
  {
    if x.exp == 0 {
      h, l, ix, u := ScaleUp(x);
    } else {
      SignificandRange(x);
      Powers();
      h, l, ix := x.frach, x.fracl, x.exp - BIAS;
      u := x.exp - 1 + 63;
      Pow2Add(x.exp - 1, 63);
      Assoc(Two(W, h, l), Pow2(x.exp - 1), FULL);
    }
  }

  /** The number with significand h:l and exponent e, rebuilt directly when e is well above the
      subnormals and otherwise with exponent field e + 512 and a product by 2^-512. */
  method ScaleDown(sign: bool, h: nat, l: nat, e: int, ghost m: nat) returns (r: Ext)
    requires l < W && FULL <= Two(W, h, l) < 2 * FULL && -62 <= e < MAX
    requires Two(W, h, l) * Pow2(e + 62) == m * FULL
    ensures r.Canonical() && r.sign == sign && r.exp < MAX && r.Mag() == m
  {
    assert NBIT <= h < 2 * NBIT;
    if e >= 1 {
      NormalUnits(Two(W, h, l), e, m);
      r := Ext(sign, e, h, l);
    } else {
      var n := 1 - e;
      SubnormalUnits(Two(W, h, l), n, m);
      var x := Two(W, h, l) / Pow2(n);
      r := Ext(sign, 0, x / W, x % W);
      Powers();
    }
  }

  lemma NormalUnits(x: nat, e: nat, m: nat)
    requires 1 <= e && x * Pow2(e + 62) == m * FULL
    ensures x * Pow2(e - 1) == m
  {
    Pow2Add(e - 1, 63);
    Powers();
    hide *;
    Assoc(x, Pow2(e - 1), FULL);
    SameFactor(x * Pow2(e - 1), m, FULL);
  }

  lemma SubnormalUnits(x: nat, n: nat, m: nat)
    requires 1 <= n <= 63 && x < 2 * FULL && x * Pow2(63 - n) == m * FULL
    ensures x / Pow2(n) == m && m < FULL
  {
    Pow2Add(n, 63 - n);
    Powers();
    Pow2Mono(1, n);
    hide *;
    ExactQuotient(x, m, Pow2(n), Pow2(63 - n), FULL);
    MulMono(2, Pow2(n), FULL);
    SmallQuotient(x, Pow2(n), FULL);
  }

  /** The comparisons that reject y = 0, x not finite, and y not a number. */
  predicate Rejects(x: Ext, y: Ext) {
    y.Zero() || x.exp == MAX || y.Nan()
  }

  /** Zero[sx]. */
  function SignedZero(sign: bool): Ext {
    Ext(sign, 0, 0, 0)
  }

  lemma ZeroMag(sign: bool)
    ensures SignedZero(sign).Canonical() && SignedZero(sign).Mag() == 0
  {
    TwoZero(W);
    hide Two, Pow2;
  }

  /** fmodl(x, y): a number comes out exactly when y is not zero or a NaN and x is finite; it has
      the sign of x, and its magnitude is the remainder of the magnitudes, exactly. */
  method Fmodl(x: Ext, y: Ext) returns (r: Result)
    requires x.Canonical() && y.Canonical()
    ensures r.NaN? <==> y.Mag() == 0 || y.Mag() > Infinity().Mag() || x.Mag() >= Infinity().Mag()
    ensures r.Number? ==> r.value.Canonical() && r.value.sign == x.sign && r.value.exp < MAX
    ensures r.Number? ==> 0 < y.Mag() && r.value.Mag() == x.Mag() % y.Mag()
  {
    RejectsIs(x, y);
    if Rejects(x, y) {
      return NaN;
    }
    ZeroMag(x.sign);
    TwoPositive(W, y.frach, y.fracl);
    MagIncreases(SignedZero(x.sign), y);
    if x.exp <= y.exp {
      if x.exp < y.exp || (x.frach <= y.frach && (x.frach < y.frach || x.fracl < y.fracl)) {
        MagIncreases(x, y);
        DivModUnique(x.Mag(), y.Mag(), 0, x.Mag());
        return Number(x);
      }
      if x.frach == y.frach && x.fracl == y.fracl {
        assert x.Mag() == y.Mag();
        DivModUnique(x.Mag(), y.Mag(), 1, 0);
        return Number(SignedZero(x.sign));
      }
    }
    MagIncreases(y, x);
    var v := RemainderOfLarger(x, y);
    r := Number(v);
  }

  method RemainderOfLarger(x: Ext, y: Ext) returns (r: Ext)
    requires x.Canonical() && y.Canonical() && !Rejects(x, y) && y.exp <= x.exp < MAX
    requires 0 < y.Mag() < x.Mag()
    ensures r.Canonical() && r.sign == x.sign && r.exp < MAX
    ensures r.Mag() == x.Mag() % y.Mag()
  {
    ghost var mx, my := x.Mag(), y.Mag();
    Powers();
    ZeroMag(x.sign);
    assert x.exp < MAX && !y.Zero() && !x.Zero();
    hide *;
    var hx, lx, ix, ux := SetUp(x);
    var hy, ly, iy, uy := SetUp(y);
    var h, l, e;
    ghost var u;
    h, l, e, u := Reduce(W, NBIT, hx, lx, ix, hy, ly, iy, mx, ux, my, uy);
    if h == 0 && l == 0 {
      return SignedZero(x.sign);
    }
    r := ScaleDown(x.sign, h, l, e + BIAS, mx % my);
  }
}
