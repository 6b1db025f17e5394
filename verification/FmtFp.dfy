/** The decimal expansion behind %f (nolibc/vfprintf.c:291-367): a double as base-10^9 limbs, most
    significant first, scaled by shifts of 29 bits up or 9 bits down, cut at the requested
    precision and rounded there. Limb r holds the units; the limbs after it are the fraction. */
module FmtFp {
  import opened Arith
  import opened Double

  const BILLION: nat := 1_000_000_000
  /** Limbs in big[] for binary64: (53+28)/29 + 1 + (1024+53+28+8)/9. */
  const SIZE: nat := 126

  // ---------- base 10^9 ----------

  /** The number the limbs write, most significant first. */
  function Val(s: seq<nat>): nat {
    if s == [] then 0 else Val(s[..|s| - 1]) * BILLION + s[|s| - 1]
  }

  function P9(n: nat): (p: nat)
    ensures 0 < p
  {
    if n == 0 then 1 else BILLION * P9(n - 1)
  }

  ghost predicate AreLimbs(s: seq<nat>) {
    forall i | 0 <= i < |s| :: s[i] < BILLION
  }

  lemma ValPush(s: seq<nat>, x: nat)
    ensures Val(s + [x]) == Val(s) * BILLION + x
  {
    assert (s + [x])[..|s|] == s;
  }

  lemma {:induction false} ValConcat(s: seq<nat>, t: seq<nat>)
    ensures Val(s + t) == Val(s) * P9(|t|) + Val(t)
  {
    if t == [] {
      assert s + t == s;
    } else {
      var u, x := t[..|t| - 1], t[|t| - 1];
      assert s + t == (s + u) + [x] && t == u + [x];
      ValPush(s + u, x);
      ValPush(u, x);
      ValConcat(s, u);
      Distribute(Val(s) * P9(|u|), Val(u), BILLION);
      Assoc(Val(s), P9(|u|), BILLION);
    }
  }

  lemma {:induction false} ValBound(s: seq<nat>)
    requires AreLimbs(s)
    ensures Val(s) < P9(|s|)
  {
    if s != [] {
      ValBound(s[..|s| - 1]);
    } else {
    }
  }

  lemma {:induction false} ValZeros(s: seq<nat>)
    requires forall i | 0 <= i < |s| :: s[i] == 0
    ensures Val(s) == 0
  {
    if s == [] {
    } else {
      var h := s[..|s| - 1];
      ValZeros(h);
      assert Val(s) == Val(h) * BILLION + 0;
    }
  }

  lemma ValOne(x: nat)
    ensures Val([x]) == x
  {
    assert [x] == [] + [x];
    ValPush([], x);
  }

  lemma {:induction false} P9Add(a: nat, b: nat)
    ensures P9(a + b) == P9(a) * P9(b)
  {
    if b != 0 {
      P9Add(a, b - 1);
      Assoc(P9(a), BILLION, P9(b - 1));
    }
  }

  /** num * 10^(9 f). */
  function Scaled(num: nat, f: nat): (x: nat)
    ensures x == num * P9(f)
  {
    MulMono(0, num, P9(f));
    num * P9(f)
  }

  // ---------- the significand as limbs ----------

  const FRAC: nat := 0x100_0000 // 2^24

  lemma ExpandStep(m: nat, n: nat, v: nat, y: nat)
    requires m * P9(n) == v * BILLION * FRAC + y
    ensures m * P9(n + 1) == (v * BILLION + y / FRAC) * BILLION * FRAC + y % FRAC * BILLION
  {
    Assoc(m, BILLION, P9(n));
    DivModDef(y, FRAC);
  }

  /** The denominator loses a factor 2^9 with each limb. */
  predicate Shortened(y: nat, n: nat) {
    && n <= 4 && (n == 1 ==> y % 0x200 == 0) && (n == 2 ==> y % 0x4_0000 == 0)
    && (n == 3 ==> y % 0x800_0000 == 0) && (n == 4 ==> y == 0)
  }

  /** What 2^24 leaves of a multiple of f stays one, and 10^9 brings the factor 2^9. */
  lemma ShortenBy(y: nat, f: nat, g: nat)
    requires 0 < f && f * g == FRAC && y % f == 0
    ensures y % FRAC * BILLION % (f * 0x200) == 0
  {
    var q, h := y / f, y / FRAC;
    DivModDef(y, f);
    DivModDef(y, FRAC);
    Assoc(h, g, f);
    Distribute(q, h * g, f);
    var j := q - h * g;
    assert y % FRAC == j * f;
    hide *;
    assert j >= 0 by {
      if j < 0 {
        MulMono(j, -1, f);
      }
    }
    ShortenedProduct(j, f);
  }

  lemma ShortenedProduct(j: nat, f: nat)
    requires 0 < f
    ensures j * f * BILLION % (f * 0x200) == 0
  {
    assert j * f * BILLION == j * 1953125 * (f * 0x200) + 0 by {
      Assoc(j, f, BILLION);
      Assoc(j, 1953125, f * 0x200);
    }
    DivModUnique(j * f * BILLION, f * 0x200, j * 1953125, 0);
  }

  lemma Shorten(y: nat, n: nat)
    requires Shortened(y, n) && n < 4
    ensures Shortened(y % FRAC * BILLION, n + 1)
  {
    if n == 0 {
      ShortenBy(y, 1, FRAC);
    } else if n == 1 {
      ShortenBy(y, 0x200, 0x8000);
    } else if n == 2 {
      ShortenBy(y, 0x4_0000, 0x40);
    } else {
      DropBits(y);
    }
  }

  lemma DropBits(y: nat)
    requires y % 0x800_0000 == 0
    ensures y % FRAC == 0
  {
    DivModUnique(y, FRAC, y / 0x800_0000 * 8, 0);
  }

  /** The limbs s of m / 2^24 so far, and what remains, y / 2^24, times 10^9. */
  ghost predicate Expanding(s: seq<nat>, y: nat, m: nat) {
    && Shortened(y, |s|) && y < BILLION * FRAC && AreLimbs(s) && ExpandedValue(s, y, m)
    && (if s == [] then y == m else s[0] == m / FRAC)
    && (s != [] && y == 0 && m != 0 ==> s[|s| - 1] != 0)
    && (m == 0 ==> y == 0 && |s| <= 1)
  }

  ghost predicate ExpandedValue(s: seq<nat>, y: nat, m: nat) {
    m * P9(|s|) == Val(s) * BILLION * FRAC + y
  }

  lemma ExpandValue(s: seq<nat>, y: nat, m: nat)
    requires ExpandedValue(s, y, m)
    ensures ExpandedValue(s + [y / FRAC], y % FRAC * BILLION, m)
  {
    ExpandStep(m, |s|, Val(s), y);
    ValPush(s, y / FRAC);
  }

  lemma ExpandNext(s: seq<nat>, y: nat, m: nat)
    requires Expanding(s, y, m) && (s == [] || y != 0)
    ensures |s| < 4 && Expanding(s + [y / FRAC], y % FRAC * BILLION, m)
  {
    assert |s| < 4;
    hide ExpandedValue, Shortened;
    Shorten(y, |s|);
    ExpandValue(s, y, m);
    DivideByFrac(y, m);
  }

  lemma DivideByFrac(y: nat, m: nat)
    requires y < BILLION * FRAC
    ensures y / FRAC < BILLION && y % FRAC * BILLION < BILLION * FRAC
    ensures y != 0 && y % FRAC * BILLION == 0 ==> y / FRAC != 0
  {
  }

  lemma ExpandStart(m: nat)
    requires m < BILLION * FRAC
    ensures Expanding([], m, m)
  {
  }

  lemma ExpandDone(s: seq<nat>, m: nat)
    requires Expanding(s, 0, m) && s != []
    ensures AreLimbs(s) && Val(s) * FRAC == Scaled(m, |s| - 1) && s[0] == m / FRAC
    ensures if m != 0 then s[|s| - 1] != 0 else |s| == 1
  {
    ExpandEnd(m, |s|, Val(s));
  }

  /** do { *z = y; y = 1000000000*(y-*z++); } while (y), for y = m / 2^24: every product is exact,
      since a factor 2^9 leaves the denominator each time. */
  method Expand(big: array<nat>, start: nat, m: nat) returns (z: nat)
    requires m < BILLION * FRAC && start + 4 <= big.Length
    modifies big
    ensures start < z <= start + 4
    ensures AreLimbs(big[start..z]) && Val(big[start..z]) * FRAC == Scaled(m, z - 1 - start)
    ensures if m != 0 then big[z - 1] != 0 else z == start + 1
    ensures big[start] == m / FRAC
  {
    z := start;
    var y: nat, more := m, true;
    ExpandStart(m);
    hide *;
    assert big[start..start] == [];
    while more
      invariant start <= z <= start + 4 && Expanding(big[start..z], y, m)
      invariant more <==> z == start || y != 0
      decreases start + 4 - z
    {
      ghost var s := big[start..z];
      ExpandNext(s, y, m);
      z, y, more := ExpandTurn(big, start, z, y);
      assert big[start..z] == s + [big[z - 1]];
    }
    ExpandDone(big[start..z], m);
  }

  method ExpandTurn(big: array<nat>, start: nat, z0: nat, y0: nat) returns (z: nat, y: nat, more: bool)
    requires start <= z0 < big.Length
    modifies big
    ensures z == z0 + 1 && big[z0] == y0 / FRAC && y == y0 % FRAC * BILLION && (more <==> y != 0)
    ensures big[start..z0] == old(big[start..z0])
  {
    big[z0] := y0 / FRAC;
    y, z := y0 % FRAC * BILLION, z0 + 1;
    more := y != 0;
  }

  lemma ExpandEnd(m: nat, n: nat, v: nat)
    requires 0 < n && m * P9(n) == v * BILLION * FRAC
    ensures v * FRAC == Scaled(m, n - 1)
  {
    Assoc(m, BILLION, P9(n - 1));
    assert (m * P9(n - 1) - v * FRAC) * BILLION == 0;
  }

  // ---------- shifting up ----------

  lemma ValFirst(x: nat, t: seq<nat>)
    ensures Val([x] + t) == x * P9(|t|) + Val(t)
  {
    ValOne(x);
    ValConcat([x], t);
  }

  lemma MultiplyStep(l: nat, told: nat, tnew: nat, pw: nat, carry: nat, n: nat)
    requires told * pw == carry * P9(n) + tnew
    ensures (l * P9(n) + told) * pw
         == (l * pw + carry) / BILLION * P9(n + 1) + ((l * pw + carry) % BILLION * P9(n) + tnew)
  {
    var x, p := l * pw + carry, P9(n);
    assert P9(n + 1) == BILLION * p;
    hide P9;
    DivModDef(x, BILLION);
    Distribute(l * p, told, pw);
    assert l * p * pw == l * pw * p;
    Distribute(l * pw, carry, p);
    Distribute(x / BILLION * BILLION, x % BILLION, p);
    Assoc(x / BILLION, BILLION, p);
  }

  function Shifted(l: nat, pw: nat, carry: nat): (x: nat)
    ensures x == l * pw + carry
    ensures l < BILLION && carry < pw ==> x / BILLION < pw
  {
    MulMono(0, l, pw);
    if l < BILLION && carry < pw then
      MulMono(l + 1, BILLION, pw);
      Distribute(l, 1, pw);
      SmallQuotient(l * pw + carry, BILLION, pw);
      l * pw + carry
    else
      l * pw + carry
  }

  ghost predicate Multiplied(told: seq<nat>, tnew: seq<nat>, pw: nat, carry: nat) {
    && |told| == |tnew| && carry < pw && AreLimbs(tnew)
    && Val(told) * pw == carry * P9(|told|) + Val(tnew)
  }

  lemma MultipliedStep(told: seq<nat>, tnew: seq<nat>, pw: nat, carry: nat, l: nat, x: nat)
    requires Multiplied(told, tnew, pw, carry) && l < BILLION && x == Shifted(l, pw, carry)
    ensures Multiplied([l] + told, [x % BILLION] + tnew, pw, x / BILLION)
  {
    MultiplyStep(l, Val(told), Val(tnew), pw, carry, |told|);
    ValFirst(l, told);
    ValFirst(x % BILLION, tnew);
  }

  lemma PowerUpTo29(sh: nat)
    requires sh <= 29
    ensures 0 < Pow2(sh) <= 0x2000_0000
  {
    Pow2Values();
    assert Pow2(31) == 4 * Pow2(29);
    hide Pow2;
    Pow2Mono(sh, 29);
  }

  /** One pass of *d = ((*d << sh) + carry) % 10^9 from the last limb up. */
  method MultiplyLimbs(big: array<nat>, a: nat, z: nat, sh: nat) returns (carry: nat)
    requires a <= z <= big.Length && sh <= 29 && AreLimbs(big[a..z])
    modifies big
    ensures AreLimbs(big[a..z]) && carry < BILLION
    ensures Val(old(big[a..z])) * Pow2(sh) == carry * P9(z - a) + Val(big[a..z])
    ensures forall i | 0 <= i < big.Length && !(a <= i < z) :: big[i] == old(big[i])
  {
    carry := 0;
    var d: int := z - 1;
    hide Pow2;
    var pw := Pow2(sh);
    PowerUpTo29(sh);
    ghost var was := big[..];
    assert was[z..z] == [] && big[z..z] == [];
    assert Multiplied(was[z..z], big[z..z], pw, 0);
    while d >= a
      invariant a - 1 <= d < z && Multiplied(was[d + 1..z], big[d + 1..z], pw, carry)
      invariant forall i | 0 <= i < big.Length && !(d < i < z) :: big[i] == was[i]
      decreases d
    {
      hide *;
      assert was[d] == was[a..z][d - a] && was[a..z] == old(big[a..z]);
      LimbAt(was[a..z], d - a);
      assert was[d..z] == [was[d]] + was[d + 1..z];
      carry := MultiplyLimb(big, d, z, pw, carry, was[d + 1..z]);
      d := d - 1;
    }
    assert was[a..z] == old(big[a..z]);
  }

  method MultiplyLimb(big: array<nat>, d: nat, z: nat, pw: nat, carry0: nat, ghost told: seq<nat>) returns (carry: nat)
    requires d < z <= big.Length && big[d] < BILLION && Multiplied(told, big[d + 1..z], pw, carry0)
    modifies big
    ensures Multiplied([old(big[d])] + told, big[d..z], pw, carry)
    ensures forall i | 0 <= i < big.Length && i != d :: big[i] == old(big[i])
  {
    ghost var tnew := big[d + 1..z];
    var x := Shifted(big[d], pw, carry0);
    MultipliedStep(told, tnew, pw, carry0, big[d], x);
    hide Multiplied;
    QuotientFits(x, BILLION);
    big[d] := x % BILLION;
    carry := x / BILLION;
    assert big[d..z] == [x % BILLION] + tnew;
  }

  lemma LimbAt(s: seq<nat>, i: nat)
    requires AreLimbs(s) && i < |s|
    ensures s[i] < BILLION
  {
  }

  // ---------- shifting down ----------

  /** One limb of the shift down: h limbs' value and remainder rm so far, then limb l. */
  lemma DivideStep(vold: nat, vnew: nat, rm: nat, l: nat, pw: nat, unit: nat)
    requires 0 < pw && unit * pw == BILLION && vold == vnew * pw + rm && rm < pw
    ensures vold * BILLION + l == (vnew * BILLION + (l / pw + unit * rm)) * pw + l % pw
  {
    DivModDef(l, pw);
    Distribute(vnew * BILLION + l / pw, unit * rm, pw);
    Distribute(vnew * BILLION, l / pw, pw);
    Distribute(vnew * pw, rm, BILLION);
    Assoc(vnew, BILLION, pw);
    assert unit * rm * pw == rm * BILLION;
  }

  lemma LimbStays(l: nat, rm: nat, pw: nat, unit: nat)
    requires 0 < pw && unit * pw == BILLION && l < BILLION && rm < pw
    ensures l / pw + unit * rm < BILLION
  {
    SmallQuotient(l, pw, unit);
    MulMono(rm + 1, pw, unit);
    Distribute(rm, 1, unit);
  }

  lemma Divisors(sh: nat)
    requires sh <= 9
    ensures BILLION / Pow2(sh) * Pow2(sh) == BILLION && BILLION / Pow2(sh) > 0
  {
    assert Pow2(9) == 0x200;
    Pow2Add(9 - sh, sh);
    Assoc(1953125, Pow2(9 - sh), Pow2(sh));
    DivModUnique(BILLION, Pow2(sh), 1953125 * Pow2(9 - sh), 0);
  }

  ghost predicate Divided(vo: seq<nat>, vn: seq<nat>, pw: nat, rm: nat) {
    && |vo| == |vn| && rm < pw && AreLimbs(vn) && DividedValue(vo, vn, pw, rm)
    && (vo != [] && vo[0] != 0 && vn[0] == 0 ==> if |vo| > 1 then vn[1] != 0 else rm != 0)
    && (vo != [] && vo[|vo| - 1] != 0 && rm == 0 ==> vn[|vn| - 1] != 0)
  }

  ghost predicate DividedValue(vo: seq<nat>, vn: seq<nat>, pw: nat, rm: nat) {
    Val(vo) == Val(vn) * pw + rm
  }

  /** The limb that l becomes, with remainder rm from the limb before. */
  function NewLimb(l: nat, rm: nat, pw: nat, unit: nat): (y: nat)
    requires 0 < pw
    ensures y == l / pw + unit * rm
  {
    QuotientFits(l, pw);
    MulMono(0, rm, unit);
    l / pw + unit * rm
  }

  lemma DividedValueStep(vo: seq<nat>, vn: seq<nat>, pw: nat, rm: nat, l: nat, unit: nat)
    requires DividedValue(vo, vn, pw, rm) && rm < pw && unit * pw == BILLION
    ensures DividedValue(vo + [l], vn + [NewLimb(l, rm, pw, unit)], pw, l % pw)
  {
    DivideStep(Val(vo), Val(vn), rm, l, pw, unit);
    ValPush(vo, l);
    ValPush(vn, NewLimb(l, rm, pw, unit));
  }

  lemma DividedStep(vo: seq<nat>, vn: seq<nat>, pw: nat, rm: nat, l: nat, unit: nat)
    requires Divided(vo, vn, pw, rm) && l < BILLION && 0 < unit && unit * pw == BILLION
    ensures Divided(vo + [l], vn + [NewLimb(l, rm, pw, unit)], pw, l % pw)
  {
    DividedValueStep(vo, vn, pw, rm, l, unit);
    LimbStays(l, rm, pw, unit);
    LimbNonzero(l, rm, pw, unit);
    hide DividedValue, NewLimb;
  }

  lemma LimbNonzero(l: nat, rm: nat, pw: nat, unit: nat)
    requires 0 < pw && 0 < unit
    ensures 0 <= l % pw < pw
    ensures rm != 0 ==> NewLimb(l, rm, pw, unit) != 0
    ensures l != 0 && l % pw == 0 ==> NewLimb(l, rm, pw, unit) != 0
    ensures NewLimb(l, rm, pw, unit) == 0 ==> l == l % pw
  {
    DivModDef(l, pw);
    QuotientFits(l, pw);
    MulMono(0, rm, unit);
    if rm != 0 {
      MulMono(1, rm, unit);
    }
  }

  method DivideLimb(big: array<nat>, a: nat, d: nat, pw: nat, unit: nat, carry0: nat, ghost rm0: nat, ghost vo: seq<nat>)
    returns (carry: nat, ghost rm: nat)
    requires a <= d < big.Length && big[d] < BILLION && Divided(vo, big[a..d], pw, rm0)
    requires 0 < pw && 0 < unit && unit * pw == BILLION && carry0 == unit * rm0
    modifies big
    ensures Divided(vo + [old(big[d])], big[a..d + 1], pw, rm) && carry == unit * rm
    ensures forall i | 0 <= i < big.Length && i != d :: big[i] == old(big[i])
  {
    ghost var vn := big[a..d];
    var l := big[d];
    DividedStep(vo, vn, pw, rm0, l, unit);
    hide Divided, Val;
    QuotientFits(l, pw);
    assert l / pw + carry0 == NewLimb(l, rm0, pw, unit);
    hide NewLimb;
    big[d] := l / pw + carry0;
    rm := l % pw;
    carry := Times(unit, l % pw);
    assert big[a..d + 1] == vn + [big[d]];
  }

  /** One pass of *d = (*d >> sh) + carry, carry = (10^9 >> sh) * rm from the first limb down. */
  method DivideLimbs(big: array<nat>, a: nat, z: nat, sh: nat) returns (carry: nat, ghost rm: nat)
    requires a <= z <= big.Length && sh <= 9 && AreLimbs(big[a..z])
    modifies big
    ensures Divided(old(big[a..z]), big[a..z], Pow2(sh), rm) && carry == BILLION / Pow2(sh) * rm
    ensures forall i | 0 <= i < big.Length && !(a <= i < z) :: big[i] == old(big[i])
  {
    var pw := Pow2(sh);
    Divisors(sh);
    var unit: nat := BILLION / pw;
    carry, rm := 0, 0;
    var d := a;
    ghost var was := big[..];
    assert was[a..a] == [] && big[a..a] == [];
    assert Divided(was[a..a], big[a..a], pw, 0);
    while d < z
      invariant a <= d <= z && carry == unit * rm && Divided(was[a..d], big[a..d], pw, rm)
      invariant forall i | 0 <= i < big.Length && !(a <= i < d) :: big[i] == was[i]
    {
      hide *;
      assert was[d] == was[a..z][d - a] && was[a..z] == old(big[a..z]);
      LimbAt(was[a..z], d - a);
      assert was[a..d + 1] == was[a..d] + [was[d]];
      carry, rm := DivideLimb(big, a, d, pw, unit, carry, rm, was[a..d]);
      d := d + 1;
    }
    assert was[a..z] == old(big[a..z]);
  }

  // ---------- expansions ----------

  /** The limbs are num/den to f limbs after the point, truncated. */
  ghost predicate Expansion(s: seq<nat>, f: nat, num: nat, den: nat) {
    0 < den && AreLimbs(s) && Val(s) == Scaled(num, f) / den
  }

  /** Nothing is lost to the truncation. */
  ghost predicate Whole(f: nat, num: nat, den: nat) {
    0 < den && Scaled(num, f) % den == 0
  }

  lemma ExactExpansion(s: seq<nat>, f: nat, num: nat, den: nat)
    requires 0 < den && AreLimbs(s)
    ensures Expansion(s, f, num, den) && Whole(f, num, den) <==> Val(s) * den == Scaled(num, f)
  {
    var v, x := Val(s), Scaled(num, f);
    assert Expansion(s, f, num, den) && Whole(f, num, den) <==> v == x / den && x % den == 0;
    hide *;
    DivModDef(x, den);
    if v * den == x {
      DivModUnique(x, den, v, 0);
    }
  }

  lemma Regrouped(num: nat, f: nat, j: nat)
    ensures Scaled(num, f + j) == Scaled(num, f) * P9(j)
  {
    P9Add(f, j);
    Assoc(num, P9(f), P9(j));
  }

  /** Dropping the last j limbs truncates further. */
  lemma DropLimbs(s: seq<nat>, f: nat, j: nat, num: nat, den: nat)
    requires Expansion(s, f + j, num, den) && j <= |s|
    ensures Expansion(s[..|s| - j], f, num, den)
    ensures Val(s) == Val(s[..|s| - j]) * P9(j) + Val(s[|s| - j..])
  {
    var h, t := s[..|s| - j], s[|s| - j..];
    assert s == h + t;
    ValConcat(h, t);
    ValBound(t);
    assert Val(s) == Scaled(num, f + j) / den;
    assert Expansion(h, f, num, den) <==> Val(h) == Scaled(num, f) / den;
    hide *;
    Regrouped(num, f, j);
    DropParts(Val(s), Val(h), Val(t), P9(j), Scaled(num, f), den);
  }

  lemma DropParts(v: nat, h: nat, t: nat, q: nat, x: nat, den: nat)
    requires 0 < den && t < q && v == h * q + t && v == x * q / den
    ensures h == x / den
  {
    DivModUnique(v, q, h, t);
    DivDiv(x * q, den, q);
    ScaleDivMod(x, den, q);
  }

  /** What is dropped is nonzero exactly when the value does not end there. */
  lemma WholeWithout(s: seq<nat>, f: nat, j: nat, num: nat, den: nat)
    requires Expansion(s, f + j, num, den) && j <= |s|
    ensures Whole(f, num, den) <==> Whole(f + j, num, den) && Val(s[|s| - j..]) == 0
  {
    DropLimbs(s, f, j, num, den);
    var h, q, t := s[..|s| - j], P9(j), Val(s[|s| - j..]);
    ExactExpansion(s, f + j, num, den);
    ExactExpansion(h, f, num, den);
    Regrouped(num, f, j);
    WholeParts(Val(h), t, q, Scaled(num, f), den);
  }

  lemma WholeParts(v: nat, t: nat, q: nat, x: nat, den: nat)
    requires 0 < den && 0 < q && v * q + t == x * q / den
    ensures v * den == x <==> (v * q + t) * den == x * q && t == 0
  {
    assert v * q * den == v * den * q;
    if v * den == x {
      DivModUnique(x * q, den, v * q, 0);
    } else if t == 0 && v * q * den == x * q {
      SameFactor(v * den, x, q);
    }
  }

  // ---------- the scaling loops ----------

  /** One turn of the loop at line 303: a shift, a new leading limb, zeros off the end. */
  method ScaleUpTurn(big: array<nat>, a0: nat, z0: nat, ghost zz: nat, sh: nat, ghost v: nat, ghost done: nat)
    returns (a: nat, z: nat)
    requires 0 < a0 <= z0 <= zz <= big.Length && AreLimbs(big[a0..zz]) && sh <= 29
    requires forall i | z0 <= i < zz :: big[i] == 0
    requires Val(big[a0..zz]) == v * Pow2(done)
    modifies big
    ensures a0 - 1 <= a <= a0 && a <= z <= z0 && AreLimbs(big[a..zz])
    ensures a < a0 || (a0 < z0 && old(big[a0]) != 0) ==> big[a] != 0
    ensures Val(big[a..zz]) == v * Pow2(done + sh)
    ensures forall i | z <= i < zz :: big[i] == 0
    ensures (z > a ==> big[z - 1] != 0) && (a < zz && big[a] != 0 ==> a < z)
    ensures forall i | zz <= i < big.Length :: big[i] == old(big[i])
  {
    hide Val, Pow2, P9, AreLimbs;
    ghost var w := big[..];
    assert big[a0..z0] == big[a0..zz][..z0 - a0];
    PrefixLimbs(big[a0..zz], z0 - a0);
    var carry := MultiplyLimbs(big, a0, z0, sh);
    assert w[a0..zz] == w[a0..z0] + w[z0..zz];
    GrowStep(w[a0..z0], big[a0..z0], w[z0..zz], carry, sh, v, done);
    assert big[a0..zz] == big[a0..z0] + w[z0..zz];
    a, z := a0, z0;
    if carry != 0 {
      a := a - 1;
      big[a] := carry;
      assert big[a..zz] == [carry] + (big[a0..z0] + w[z0..zz]);
    }
    GrownLimbs(big[a0..z0], w[z0..zz], carry);
    if a0 < z0 && w[a0] != 0 && carry == 0 {
      StaysNonzero(w[a0..z0], big[a0..z0], Pow2(sh));
    }
    z := Strip(big, a, z);
  }

  /** A number multiplied without a carry keeps its first limb from vanishing. */
  lemma StaysNonzero(s: seq<nat>, t: seq<nat>, pw: nat)
    requires s != [] && |t| == |s| && AreLimbs(t) && s[0] != 0 && 0 < pw && Val(s) * pw == 0 * P9(|s|) + Val(t)
    ensures t[0] != 0
  {
    hide *;
    FirstCounts(s);
    MulMono(1, pw, Val(s));
    if t[0] == 0 {
      FirstZero(t);
    }
  }

  /** A nonzero first limb is worth its place. */
  lemma FirstCounts(s: seq<nat>)
    requires s != [] && s[0] != 0
    ensures P9(|s| - 1) <= Val(s)
  {
    hide *;
    assert s == [s[0]] + s[1..];
    ValFirst(s[0], s[1..]);
    MulMono(1, s[0], P9(|s[1..]|));
  }

  lemma FirstZero(t: seq<nat>)
    requires t != [] && AreLimbs(t) && t[0] == 0
    ensures Val(t) < P9(|t| - 1)
  {
    AreRest(t);
    hide *;
    assert t == [t[0]] + t[1..];
    ValFirst(t[0], t[1..]);
    ValBound(t[1..]);
  }

  lemma AreRest(t: seq<nat>)
    requires t != [] && AreLimbs(t)
    ensures AreLimbs(t[1..])
  {
    forall i | 0 <= i < |t| - 1 ensures t[1..][i] < BILLION {
      assert t[1..][i] == t[i + 1];
    }
  }

  lemma PrefixLimbs(s: seq<nat>, k: nat)
    requires AreLimbs(s) && k <= |s|
    ensures AreLimbs(s[..k])
  {
  }

  lemma GrownLimbs(t: seq<nat>, zeros: seq<nat>, carry: nat)
    requires AreLimbs(t) && carry < BILLION && forall i | 0 <= i < |zeros| :: zeros[i] == 0
    ensures AreLimbs(t + zeros) && AreLimbs([carry] + (t + zeros))
  {
  }

  /** while (z>a && !z[-1]) z--; */
  method Strip(big: array<nat>, a: nat, z0: nat) returns (z: nat)
    requires a <= z0 <= big.Length
    ensures a <= z <= z0 && (z > a ==> big[z - 1] != 0)
    ensures forall i | z <= i < z0 :: big[i] == 0
  {
    z := z0;
    while z > a && big[z - 1] == 0
      invariant a <= z <= z0 && forall i | z <= i < z0 :: big[i] == 0
    {
      z := z - 1;
    }
  }

  /** Limbs scaled by 2^29 at a time; leading limbs appear below a, trailing zeros leave the end. */
  method ScaleUp(big: array<nat>, a0: nat, z0: nat, e0: nat) returns (a: nat, z: nat)
    requires a0 < z0 <= big.Length && AreLimbs(big[a0..z0]) && e0 + 28 <= 29 * a0 && big[z0 - 1] != 0
    modifies big
    ensures a <= a0 && a <= z <= z0 && AreLimbs(big[a..z0]) && 29 * a >= 29 * a0 - e0 - 28
    ensures Val(big[a..z0]) == Val(old(big[a0..z0])) * Pow2(e0)
    ensures forall i | z <= i < z0 :: big[i] == 0
    ensures (z > a ==> big[z - 1] != 0) && (a < a0 ==> big[a] != 0)
  {
    a, z := a0, z0;
    var e2 := e0;
    ghost var v := Val(big[a0..z0]);
    assert v * Pow2(0) == v;
    while e2 > 0
      invariant 0 <= e2 <= e0 && a <= a0 && a <= z <= z0 && AreLimbs(big[a..z0])
      invariant 29 * a >= if e2 > 0 then 29 * a0 - (e0 - e2) else 29 * a0 - e0 - 28
      invariant Val(big[a..z0]) == v * Pow2(e0 - e2)
      invariant forall i | z <= i < z0 :: big[i] == 0
      invariant (z > a ==> big[z - 1] != 0) && (a < a0 ==> big[a] != 0 && a < z)
    {
      hide Val, Pow2, AreLimbs;
      var sh := if e2 < 29 then e2 else 29;
      a, z := ScaleUpTurn(big, a, z, z0, sh, v, e0 - e2);
      e2 := e2 - sh;
    }
  }

  lemma GrowStep(s: seq<nat>, t: seq<nat>, zeros: seq<nat>, carry: nat, sh: nat, v: nat, done: nat)
    requires |s| == |t| && Val(s) * Pow2(sh) == carry * P9(|s|) + Val(t)
    requires forall i | 0 <= i < |zeros| :: zeros[i] == 0
    requires Val(s + zeros) == v * Pow2(done)
    ensures Val([carry] + (t + zeros)) == v * Pow2(done + sh)
    ensures carry == 0 ==> Val(t + zeros) == v * Pow2(done + sh)
  {
    ValZeros(zeros);
    ValConcat(s, zeros);
    ValConcat(t, zeros);
    ValFirst(carry, t + zeros);
    P9Add(|t|, |zeros|);
    Pow2Add(done, sh);
    GrowParts(Val(s), Val(t), P9(|t|), P9(|zeros|), carry, Pow2(sh), v, Pow2(done));
  }

  lemma GrowParts(s: nat, t: nat, p: nat, q: nat, carry: nat, w: nat, v: nat, d: nat)
    requires s * w == carry * p + t && s * q == v * d
    ensures carry * (p * q) + t * q == v * (d * w)
    ensures carry == 0 ==> t * q == v * (d * w)
  {
    Assoc(v, d, w);
    Assoc(carry, p, q);
    Distribute(carry * p, t, q);
    assert s * q * w == s * w * q;
    assert carry == 0 ==> carry * p * q == 0;
  }

  // ---------- shifting down, with the precision cut ----------

  lemma LeadingZeros(s: seq<nat>, a: nat)
    requires a <= |s| && forall i | 0 <= i < a :: s[i] == 0
    ensures Val(s) == Val(s[a..])
  {
    assert s == s[..a] + s[a..];
    ValConcat(s[..a], s[a..]);
    ValZeros(s[..a]);
  }

  /** The limbs halved sh times, still to f places. */
  lemma DividedExpansion(s: seq<nat>, t: seq<nat>, f: nat, m: nat, den: nat, pw: nat, rm: nat)
    requires Expansion(s, f, m, den) && Val(s) == Val(t) * pw + rm && rm < pw && AreLimbs(t)
    ensures 0 < den * pw && Expansion(t, f, m, den * pw)
    ensures Whole(f, m, den * pw) <==> Whole(f, m, den) && rm == 0
  {
    var x, v := Scaled(m, f), Val(t);
    DivModUnique(Val(s), pw, v, rm);
    DivDiv(x, den, pw);
    assert v == x / (den * pw);
    WholeDivided(x, den, pw, Val(s), v, rm);
  }

  lemma WholeDivided(x: nat, den: nat, pw: nat, vs: nat, v: nat, rm: nat)
    requires 0 < den && 0 < pw && vs == x / den && vs == v * pw + rm && rm < pw
    ensures 0 < den * pw && (x % (den * pw) == 0 <==> x % den == 0 && rm == 0)
  {
    var y := x % den;
    MulMono(1, den, pw);
    Distribute(v * pw, rm, den);
    assert v * pw * den == v * (den * pw);
    MulMono(rm + 1, pw, den);
    Distribute(rm, 1, den);
    DivModUnique(x, den * pw, v, rm * den + y);
    MulMono(if rm > 0 then 1 else 0, rm, den);
  }

  /** With nothing lost before, the carry as a further limb loses nothing. */
  lemma ExtendedExpansion(s: seq<nat>, t: seq<nat>, f: nat, m: nat, den: nat, pw: nat, rm: nat, carry: nat,
                          q: nat)
    requires Expansion(s, f, m, den) && Whole(f, m, den) && Val(s) == Val(t) * pw + rm && AreLimbs(t)
    requires 0 < pw && rm < pw && carry * pw == BILLION * rm && 0 < q == den * pw
    ensures Expansion(t + [carry], f + 1, m, q) && Whole(f + 1, m, q)
  {
    CarryFits(carry, pw, rm);
    assert AreLimbs(t + [carry]);
    ExactExpansion(s, f, m, den);
    ExactExpansion(t + [carry], f + 1, m, q);
    assert P9(1) == BILLION * P9(0) == BILLION;
    hide *;
    ValPush(t, carry);
    Regrouped(m, f, 1);
    ExtendedValue(Val(s), Val(t), Val(t + [carry]), carry, rm, pw, den, Scaled(m, f), BILLION);
  }

  lemma CarryFits(carry: nat, pw: nat, rm: nat)
    requires rm < pw && carry * pw == BILLION * rm
    ensures carry < BILLION
  {
    MulMono(rm + 1, pw, BILLION);
    if carry >= BILLION {
      MulMono(BILLION, carry, pw);
    }
  }

  lemma ExtendedValue(vs: nat, v: nat, w: nat, carry: nat, rm: nat, pw: nat, den: nat, x: nat, b: nat)
    requires vs == v * pw + rm && vs * den == x && w == v * b + carry && carry * pw == b * rm
    ensures w * (den * pw) == x * b
  {
    Distribute(v * b, carry, pw);
    Distribute(v * pw, rm, b);
    assert v * b * pw == v * pw * b;
    assert w * pw == vs * b;
    ReorderThree(w, den, pw);
    ReorderThree(vs, den, b);
  }

  lemma ReorderThree(a: nat, b: nat, c: nat)
    ensures a * (b * c) == a * c * b == a * b * c
  {
  }

  /** Cutting a complete expansion loses something: its last limb is not zero. */
  lemma CutTo(t: seq<nat>, k: nat, m: nat, den: nat)
    requires t != [] && Expansion(t, |t| - 1, m, den) && Whole(|t| - 1, m, den) && t[|t| - 1] != 0
    requires 1 <= k <= |t|
    ensures Expansion(t[..k], k - 1, m, den)
    ensures Whole(k - 1, m, den) <==> k == |t|
  {
    var j := |t| - k;
    DropLimbs(t, k - 1, j, m, den);
    WholeWithout(t, k - 1, j, m, den);
    if k < |t| {
      NonzeroLast(t[k..]);
    } else {
      assert t[k..] == [];
    }
  }

  lemma NonzeroLast(s: seq<nat>)
    requires s != [] && s[|s| - 1] != 0
    ensures Val(s) != 0
  {
  }

  lemma P9Twos(n: nat) returns (q: nat)
    ensures P9(n) == q * Pow2(9 * n)
  {
    if n == 0 {
      q := 1;
    } else {
      var k := P9Twos(n - 1);
      q := k * 1953125;
      Pow2Add(9 * (n - 1), 9);
      assert Pow2(9) == 0x200;
      assert BILLION == 1953125 * 0x200;
      var w := Pow2(9 * (n - 1));
      assert 1953125 * 0x200 * (k * w) == k * 1953125 * (w * 0x200);
    }
  }

  /** A multiple of 2^-1074 needs no more than 120 limbs of fraction. */
  lemma FewLimbs(s: seq<nat>, m: nat, k: nat, g: nat)
    requires s != [] && Expansion(s, |s| - 1, m, Pow2(k)) && Whole(|s| - 1, m, Pow2(k))
    requires m % Pow2(g) == 0 && k <= 1074 + g && s[|s| - 1] != 0
    ensures |s| <= 121
  {
    if |s| > 121 {
      var f := |s| - 1;
      var c, v, last, head, e := m / Pow2(g), Val(s), s[f], Val(s[..f]), g + 9 * (f - 1);
      ExactExpansion(s, f, m, Pow2(k));
      assert v == head * BILLION + last && last < BILLION;
      assert P9(1) == BILLION * P9(0) == BILLION;
      hide *;
      DivModDef(m, Pow2(g));
      var q := P9Twos(f - 1);
      Regrouped(m, f - 1, 1);
      Pow2Add(g, 9 * (f - 1));
      Pow2Add(e - k, k);
      QuotientFits(m, Pow2(g));
      FewLimbsValue(v, Pow2(k), c, Pow2(g), q, Pow2(9 * (f - 1)), Pow2(e - k), head, last);
    }
  }

  lemma FewLimbsValue(v: nat, den: nat, c: nat, pg: nat, q: nat, pf: nat, rest: nat, head: nat, last: nat)
    requires 0 < den && v * den == c * pg * (q * pf) * BILLION && pg * pf == rest * den
    requires v == head * BILLION + last && last < BILLION
    ensures last == 0
  {
    calc {
      v * den;
      c * pg * (q * pf) * BILLION;
      { assert c * pg * (q * pf) == c * q * (pg * pf); Assoc(c * q, rest, den); }
      c * q * rest * den * BILLION;
      { assert c * q * rest * den * BILLION == c * q * rest * BILLION * den; }
      c * q * rest * BILLION * den;
    }
    MulMono(0, c, q);
    MulMono(0, c * q, rest);
    SameFactor(v, c * q * rest * BILLION, den);
    DivModUnique(v, BILLION, head, last);
    DivModUnique(v, BILLION, c * q * rest, 0);
  }

  /** The loop at line 315 keeps the first z limbs an expansion of m/den, complete and without a
      trailing zero limb, or cut at `need` limbs. */
  ghost predicate Kept(s: seq<nat>, need: nat, m: nat, den: nat) {
    && s != [] && Expansion(s, |s| - 1, m, den)
    && (if Whole(|s| - 1, m, den) then s[|s| - 1] != 0 else |s| == need)
  }

  /** The part of t the cut leaves. */
  function Cut(t: seq<nat>, need: nat): seq<nat> {
    if |t| > need then t[..need] else t
  }

  lemma KeptComplete(t: seq<nat>, need: nat, m: nat, den: nat)
    requires 1 <= need && t != [] && Expansion(t, |t| - 1, m, den) && Whole(|t| - 1, m, den) && t[|t| - 1] != 0
    ensures Kept(Cut(t, need), need, m, den)
  {
    hide Expansion, Whole;
    CutTo(t, if |t| > need then need else |t|, m, den);
    assert t[..|t|] == t;
  }

  lemma CarryIsZero(carry: nat, pw: nat, rm: nat)
    requires 0 < pw && carry * pw == BILLION * rm
    ensures carry == 0 <==> rm == 0
  {
    if carry != 0 {
      MulMono(1, carry, pw);
    }
  }

  /** One turn: the limbs become t, or t and the carry, cut to need limbs. */
  lemma KeptStep(s: seq<nat>, t: seq<nat>, need: nat, m: nat, den: nat, pw: nat, rm: nat, carry: nat)
    requires 1 <= need && Kept(s, need, m, den) && |s| == |t| && AreLimbs(t)
    requires Val(s) == Val(t) * pw + rm && rm < pw && carry * pw == BILLION * rm
    requires s[|s| - 1] != 0 && rm == 0 ==> t[|t| - 1] != 0
    ensures 0 < den * pw
    ensures Kept(Cut(if carry == 0 then t else t + [carry], need), need, m, den * pw)
  {
    var f := |s| - 1;
    DividedExpansion(s, t, f, m, den, pw, rm);
    CarryIsZero(carry, pw, rm);
    if !Whole(f, m, den) {
      hide Val, Expansion, Whole;
      assert Cut(if carry == 0 then t else t + [carry], need) == t;
    } else if carry == 0 {
      hide Val, Expansion, Whole;
      KeptComplete(t, need, m, den * pw);
    } else {
      ExtendedExpansion(s, t, f, m, den, pw, rm, carry, den * pw);
      hide Val, Expansion, Whole;
      KeptComplete(t + [carry], need, m, den * pw);
    }
  }

  /** The state of the loop at line 315 for %f: s is big[], from a the limbs that are not leading
      zeros, to z the kept ones; even when the cut has left none, limb a is not zero. */
  ghost predicate Down(s: seq<nat>, a: nat, z: nat, need: nat, m: nat, den: nat) {
    && a <= z <= 122 < |s| && 0 < z && s[a] != 0 && (forall i | 0 <= i < a :: s[i] == 0)
    && a <= need && (z <= need || a == 0) && Kept(s[..z], need, m, den)
  }

  lemma DownDivided(s: seq<nat>, t: seq<nat>, a: nat, z: nat, need: nat, m: nat, den: nat, pw: nat, rm: nat)
    requires Down(s, a, z, need, m, den) && |t| == |s| && Divided(s[a..z], t[a..z], pw, rm)
    requires forall i | 0 <= i < |s| && !(a <= i < z) :: t[i] == s[i]
    ensures AreLimbs(t[..z]) && Val(s[..z]) == Val(t[..z]) * pw + rm && rm < pw
    ensures s[z - 1] != 0 && rm == 0 ==> t[z - 1] != 0
    ensures t[a] == 0 ==> a < z && if a + 1 < z then t[a + 1] != 0 else rm != 0
  {
    LeadingZeros(s[..z], a);
    LeadingZeros(t[..z], a);
    assert s[..z][a..] == s[a..z] && t[..z][a..] == t[a..z];
    hide Val;
    forall i | 0 <= i < z ensures t[..z][i] < BILLION {
      if i >= a {
        assert t[..z][i] == t[a..z][i - a];
      }
    }
    if a < z {
      assert s[a..z][0] == s[a] && t[a..z][0] == t[a];
      assert s[a..z][z - a - 1] == s[z - 1] && t[a..z][z - a - 1] == t[z - 1];
      assert a + 1 < z ==> t[a..z][1] == t[a + 1];
    }
  }

  lemma DownStep(s: seq<nat>, t: seq<nat>, a: nat, z: nat, need: nat, m: nat, den: nat, sh: nat, rm: nat, carry: nat)
    requires Down(s, a, z, need, m, den) && |t| == |s| && Divided(s[a..z], t[a..z], Pow2(sh), rm)
    requires forall i | 0 <= i < |s| && !(a <= i < z) :: t[i] == s[i]
    requires sh <= 9 && 3 <= need && carry == BILLION / Pow2(sh) * rm
    ensures 0 < den * Pow2(sh)
    ensures Kept(Cut(if carry == 0 then t[..z] else t[..z] + [carry], need), need, m, den * Pow2(sh))
    ensures t[a] == 0 ==> a < z && if a + 1 < z then t[a + 1] != 0 else carry != 0
    ensures forall i | 0 <= i < a :: t[i] == 0
  {
    hide Divided, Kept, Val;
    DownDivided(s, t, a, z, need, m, den, Pow2(sh), rm);
    CarryTimes(carry, sh, rm);
    CarryIsZero(carry, Pow2(sh), rm);
    KeptStep(s[..z], t[..z], need, m, den, Pow2(sh), rm, carry);
  }

  /** One turn of the loop at line 315. */
  method ScaleDownTurn(big: array<nat>, a0: nat, z0: nat, sh: nat, need: nat, ghost m: nat, ghost den: nat)
    returns (a: nat, z: nat)
    requires big.Length == SIZE && sh <= 9 && 3 <= need && Down(big[..], a0, z0, need, m, den)
    requires Whole(z0 - 1, m, den) ==> z0 <= 121
    modifies big
    ensures 0 < den * Pow2(sh) && Down(big[..], a, z, need, m, den * Pow2(sh))
  {
    ghost var s := big[..];
    assert z0 == need || z0 <= 121;
    assert big[a0..z0] == s[a0..z0] == s[..z0][a0..] && AreLimbs(s[..z0]);
    var carry, rm := DivideLimbs(big, a0, z0, sh);
    ghost var t := big[..];
    hide Kept, Divided, Val, Pow2;
    assert t[a0..z0] == big[a0..z0];
    DownStep(s, t, a0, z0, need, m, den, sh, rm, carry);
    assert a0 <= z0 <= 122 && 0 < z0 && a0 <= need && (z0 <= need || a0 == 0);
    hide Down;
    a, z := a0, z0;
    if big[a] == 0 {
      a := a + 1;
    }
    if carry != 0 {
      big[z] := carry;
      z := z + 1;
    }
    if z > need {
      z := need;
    }
    DownAssembled(t, big[..], a0, z0, a, z, need, m, den * Pow2(sh), carry);
  }

  lemma DownAssembled(t: seq<nat>, u: seq<nat>, a0: nat, z0: nat, a: nat, z: nat, need: nat, m: nat, den: nat, carry: nat)
    requires a0 <= z0 <= 122 && |t| == SIZE && 0 < z0 && a0 <= need && (z0 <= need || a0 == 0) && 3 <= need
    requires z0 == need || z0 <= 121
    requires Kept(Cut(if carry == 0 then t[..z0] else t[..z0] + [carry], need), need, m, den)
    requires t[a0] == 0 ==> a0 < z0 && if a0 + 1 < z0 then t[a0 + 1] != 0 else carry != 0
    requires forall i | 0 <= i < a0 :: t[i] == 0
    requires u == (if carry == 0 then t else t[z0 := carry]) && a == (if t[a0] == 0 then a0 + 1 else a0)
    requires var full := if carry == 0 then z0 else z0 + 1; z == if full > need then need else full
    ensures Down(u, a, z, need, m, den)
  {
    hide Kept;
    assert u[..z] == Cut(if carry == 0 then t[..z0] else t[..z0] + [carry], need);
  }

  lemma CarryTimes(carry: nat, sh: nat, rm: nat)
    requires sh <= 9 && carry == BILLION / Pow2(sh) * rm
    ensures carry * Pow2(sh) == BILLION * rm
  {
    Divisors(sh);
    Assoc(rm, BILLION / Pow2(sh), Pow2(sh));
  }

  lemma IsDown(s: seq<nat>, z: nat, need: nat, m: nat)
    requires 0 < z <= 4 && |s| == SIZE && 3 <= need && AreLimbs(s[..z]) && Val(s[..z]) * FRAC == Scaled(m, z - 1)
    requires s[0] != 0 && s[z - 1] != 0
    ensures Down(s, 0, z, need, m, Pow2(24))
  {
    StartDown(s, z, need, m);
    hide Val, AreLimbs, Scaled, Pow2;
  }

  lemma DownFits(s: seq<nat>, a: nat, z: nat, need: nat, m: nat, k: nat, g: nat)
    requires Down(s, a, z, need, m, Pow2(k)) && m % Pow2(g) == 0 && k <= 1074 + g
    ensures Whole(z - 1, m, Pow2(k)) ==> z <= 121
  {
    if Whole(z - 1, m, Pow2(k)) {
      hide Expansion, Whole;
      FewLimbs(s[..z], m, k, g);
    }
  }

  lemma StartDown(s: seq<nat>, z: nat, need: nat, m: nat)
    requires 0 < z <= 4 && |s| == SIZE && 3 <= need && AreLimbs(s[..z]) && Val(s[..z]) * FRAC == Scaled(m, z - 1)
    requires s[0] != 0 && s[z - 1] != 0
    ensures Pow2(24) == FRAC && (z <= need ==> Down(s, 0, z, need, m, Pow2(24)))
    ensures Expansion(s[..z], z - 1, m, FRAC) && Whole(z - 1, m, FRAC)
  {
    assert Pow2(24) == FRAC by {
      Pow2Add(16, 8);
      Pow2Values();
    }
    ExactExpansion(s[..z], z - 1, m, FRAC);
  }

  /** The significand m / 2^24, scaled down by n bits in steps of 9, for %f with precision p. */
  method ScaleDown(big: array<nat>, z0: nat, n: nat, p: nat, ghost m: nat, ghost g: nat) returns (a: nat, z: nat)
    requires big.Length == SIZE && 0 < z0 <= 4
    requires AreLimbs(big[..z0]) && Val(big[..z0]) * FRAC == Scaled(m, z0 - 1)
    requires big[0] != 0 && big[z0 - 1] != 0 && m % Pow2(g) == 0 && 24 + n <= 1074 + g
    modifies big
    ensures Down(big[..], a, z, 1 + (p + 25) / 9, m, Pow2(24 + n))
  {
    hide Down, Whole, Pow2, Val, AreLimbs, Expansion, Scaled;
    var need := 1 + (p + 17 + 8) / 9;
    a, z := 0, z0;
    var left := n;
    assert big[..z0] == big[..][..z0];
    IsDown(big[..], z0, need, m);
    while left > 0
      invariant 0 <= left <= n && Down(big[..], a, z, need, m, Pow2(24 + n - left))
      decreases left
    {
      var sh := if left < 9 then left else 9;
      DownFits(big[..], a, z, need, m, 24 + n - left, g);
      Pow2Add(24 + n - left, sh);
      a, z := ScaleDownTurn(big, a, z, sh, need, m, Pow2(24 + n - left));
      left := left - sh;
    }
  }

  // ---------- the expansion before rounding ----------

  function Min(a: nat, b: nat): nat {
    if a < b then a else b
  }

  /** What the scaling loops leave: from limb min(a, r) to limb zz the value num/den, complete and
      ending at z in a nonzero limb or the units, or cut beyond the digits %f asked for. */
  ghost predicate Laid(s: seq<nat>, a: nat, r: nat, z: nat, zz: nat, p: nat, num: nat, den: nat) {
    && r < zz <= |s| && a <= z <= zz && Expansion(s[Min(a, r)..zz], zz - 1 - r, num, den)
    && (forall i | z <= i < zz :: s[i] == 0) && (forall i | r <= i < a :: s[i] == 0)
    && (if Whole(zz - 1 - r, num, den) then z > r + 1 ==> s[z - 1] != 0 else z == zz == r + 1 + (p + 25) / 9)
    && (Min(a, r) > 0 || s[0] + 1 < BILLION) && Starts(s, a, r)
  }

  /** No zero limb stands in front of the number, and a number that starts behind the units has none. */
  ghost predicate Starts(s: seq<nat>, a: nat, r: nat) {
    (a < r ==> a < |s| && s[a] != 0) && (r < a ==> r < |s| && s[r] == 0)
  }

  /** Below 2^29 in units of the first limb, the first limb is too. */
  lemma SmallTop(s: seq<nat>, f: nat, m: nat, den: nat)
    requires s != [] && Expansion(s, f, m, den) && |s| == f + 1 && m < 0x2000_0000 * den
    ensures s[0] < 0x2000_0000
  {
    assert s == [s[0]] + s[1..];
    ValFirst(s[0], s[1..]);
    var p, v := P9(f), Val(s);
    assert 0 < den && v == m * p / den;
    hide *;
    SmallTopValue(s[0], Val(s[1..]), p, m, den, v);
  }

  lemma SmallTopValue(x: nat, rest: nat, p: nat, m: nat, den: nat, v: nat)
    requires 0 < den && 0 < p && v == x * p + rest && v == m * p / den && m < 0x2000_0000 * den
    ensures x < 0x2000_0000
  {
    DivModDef(m * p, den);
    if x >= 0x2000_0000 {
      MulMono(0x2000_0000, x, p);
      MulMono(0x2000_0000 * p, v, den);
      MulMono(m + 1, 0x2000_0000 * den, p);
      Distribute(m, 1, p);
    }
  }

  lemma LaidDown(s: seq<nat>, a: nat, z: nat, p: nat, m: nat, den: nat)
    requires Down(s, a, z, 1 + (p + 25) / 9, m, den) && m < 0x2000_0000 * den
    ensures Laid(s, a, 0, z, z, p, m, den)
  {
    assert s[..z] == s[0..z];
    SmallTop(s[..z], z - 1, m, den);
    hide Val;
  }

  /** The value m * 2^(e2 - 24) as a fraction. */
  function Numer(m: nat, e2: int): (n: nat)
    ensures e2 < 0 ==> n == m
    ensures e2 >= 0 ==> n == m * Pow2(e2)
  {
    if e2 < 0 then m else Times(m, Pow2(e2))
  }

  function Denom(e2: int): (d: nat)
    ensures 0 < d
  {
    if e2 < 0 then Pow2(24 - e2) else FRAC
  }

  lemma ScaledUpExactly(v: nat, m: nat, w: nat, f: nat, num: nat)
    requires v * FRAC == Scaled(m, f) && num == m * w
    ensures v * w * FRAC == Scaled(num, f)
  {
    var q := P9(f);
    hide P9;
    assert v * w * FRAC == v * FRAC * w;
    assert m * w * q == m * q * w;
  }

  lemma LaidUp(s: seq<nat>, a: nat, r: nat, z: nat, zz: nat, p: nat, v: nat, m: nat, e: nat)
    requires r < zz <= |s| && a <= z <= zz && a <= r && 0 < a && AreLimbs(s[a..zz])
    requires v * FRAC == Scaled(m, zz - 1 - r) && Val(s[a..zz]) == v * Pow2(e)
    requires forall i | z <= i < zz :: s[i] == 0
    requires (z > r + 1 ==> s[z - 1] != 0) && Starts(s, a, r)
    ensures Laid(s, a, r, z, zz, p, Numer(m, e), Denom(e))
  {
    ScaledUpExactly(v, m, Pow2(e), zz - 1 - r, Numer(m, e));
    ExactExpansion(s[a..zz], zz - 1 - r, Numer(m, e), FRAC);
    hide Expansion, Whole, Val, Pow2, Scaled;
  }

  /** The limbs of m * 2^(e2 - 24), for a significand of 53 bits (vfprintf.c:295-329): complete, or
      for %f with precision p cut at the first limb that cannot matter. */
  method Limbs(big: array<nat>, m: nat, e2: int, p: nat, ghost g: nat)
    returns (a: nat, r: nat, z: nat, ghost zz: nat)
    requires big.Length == SIZE
    requires if m == 0 then e2 == 0 else 0x10_0000_0000_0000 <= m < 0x20_0000_0000_0000
    requires e2 <= 995 && m % Pow2(g) == 0 && 24 - e2 <= 1074 + g
    modifies big
    ensures Laid(big[..], a, r, z, zz, p, Numer(m, e2), Denom(e2)) && (a < r ==> big[a] != 0)
  {
    if e2 < 0 {
      r := 0;
      a, z := LimbsDown(big, m, -e2, p, g);
      zz := z;
    } else {
      r := SIZE - 53 - 1;
      a, z, zz := LimbsUp(big, r, m, e2, p);
    }
  }

  method LimbsDown(big: array<nat>, m: nat, n: nat, p: nat, ghost g: nat) returns (a: nat, z: nat)
    requires big.Length == SIZE && 0 < n && 0x10_0000_0000_0000 <= m < 0x20_0000_0000_0000
    requires m % Pow2(g) == 0 && 24 + n <= 1074 + g
    modifies big
    ensures Laid(big[..], a, 0, z, z, p, m, Pow2(24 + n))
  {
    z := Expand(big, 0, m);
    assert big[..z] == big[0..z];
    hide Val, P9;
    a, z := ScaleDown(big, z, n, p, m, g);
    assert m < 0x2000_0000 * Pow2(24 + n) by {
      Pow2Add(16, 8);
      Pow2Values();
      Pow2Mono(24, 24 + n);
    }
    LaidDown(big[..], a, z, p, m, Pow2(24 + n));
  }

  lemma TimesOne(v: nat)
    ensures v * Pow2(0) == v
  {
  }

  method LimbsUp(big: array<nat>, r: nat, m: nat, e2: nat, p: nat) returns (a: nat, z: nat, ghost zz: nat)
    requires big.Length == SIZE && r == 72 && m < 0x20_0000_0000_0000 && e2 <= 995 && (m == 0 ==> e2 == 0)
    modifies big
    ensures Laid(big[..], a, r, z, zz, p, Numer(m, e2), Denom(e2))
  {
    a := r;
    z := Expand(big, r, m);
    zz := z;
    ghost var v := Val(big[r..z]);
    if e2 > 0 {
      hide *;
      a, z := ScaleUp(big, a, z, e2);
    } else {
      TimesOne(v);
      hide *;
    }
    ghost var s := big[..];
    assert s[a..zz] == big[a..zz];
    assert z > r + 1 ==> s[z - 1] != 0;
    assert Val(s[a..zz]) == v * Pow2(e2);
    LaidUp(s, a, r, z, zz, p, v, m, e2);
  }

  // ---------- rounding ----------

  lemma {:induction false} P9IsPow10(n: nat)
    ensures P9(n) == Pow10(9 * n)
  {
    if n != 0 {
      P9IsPow10(n - 1);
      NineMore(9 * (n - 1));
    }
  }

  lemma NineMore(k: nat)
    ensures Pow10(k + 9) == BILLION * Pow10(k)
  {
    assert Pow10(1) == 10 && Pow10(2) == 100 && Pow10(3) == 1000;
    Pow10Add(3, 3);
    Pow10Add(6, 3);
    Pow10Add(k, 9);
  }

  /** for (i=10, j++; j<9; i*=10, j++): the unit, within its limb, of the last digit kept; 10^9 when
      the limb holds none. */
  method DigitUnit(p: nat) returns (i: nat)
    ensures i == Pow10(9 - p % 9)
  {
    var j := p % 9;
    i, j := 10, j + 1;
    assert Pow10(1) == 10;
    while j < 9
      invariant p % 9 + 1 <= j <= 9 && i == Pow10(j - p % 9)
    {
      i, j := i * 10, j + 1;
    }
  }

  lemma UnitOfLimb(p: nat)
    ensures P9(p / 9 + 1) == Pow10(p) * Pow10(9 - p % 9)
    ensures Pow10(p % 9) * Pow10(9 - p % 9) == BILLION
    ensures p % 9 > 0 ==> Pow10(p % 9) % 2 == 0
    ensures Pow10(9 - p % 9) % 2 == 0
  {
    assert Pow10(0) == 1;
    assert p % 9 > 0 ==> Pow10(p % 9) == 10 * Pow10(p % 9 - 1);
    assert Pow10(9 - p % 9) == 10 * Pow10(8 - p % 9);
    hide *;
    P9IsPow10(p / 9 + 1);
    Pow10Add(p, 9 - p % 9);
    Pow10Add(p % 9, 9 - p % 9);
    NineMore(0);
  }

  /** The part dropped, at one digit: i even, x units and perhaps more. */
  lemma DigitSplit(n: nat, den: nat, i: nat, v: nat)
    requires 0 < den && 0 < i && i % 2 == 0 && v == n * i / den
    ensures n / den == v / i
    ensures var x := v % i; var whole := n * i % den == 0;
            Position(n % den, den) == if x == 0 && whole then 0 else if x < i / 2 then 1
                                      else if x == i / 2 && whole then 2 else 3
  {
    hide Position;
    var rho, x, rem := n * i % den, v % i, n % den;
    DivDiv(n * i, den, i);
    ScaleDivMod(n, den, i);
    DivModDef(n * i, den);
    DivModDef(v, i);
    DivModDef(n, den);
    SplitParts(n, den, i, v, n / den, x, rem, rho);
    DigitPosition(rem, den, i, x, rho);
  }

  lemma SplitParts(n: nat, den: nat, i: nat, v: nat, q: nat, x: nat, rem: nat, rho: nat)
    requires n == q * den + rem && v == q * i + x && n * i == v * den + rho
    ensures rem * i == x * den + rho
  {
    Distribute(q * i, x, den);
    Distribute(q * den, rem, i);
    Assoc(q, i, den);
    Assoc(q, den, i);
  }

  lemma DigitPosition(rem: nat, den: nat, i: nat, x: nat, rho: nat)
    requires 0 < den && 0 < i && i % 2 == 0 && x < i && rho < den && rem * i == x * den + rho
    ensures Position(rem, den) == if x == 0 && rho == 0 then 0 else if x < i / 2 then 1
                                  else if x == i / 2 && rho == 0 then 2 else 3
  {
    var h := i / 2;
    Distribute(rem, rem, i);
    assert 2 * rem * i == 2 * x * den + 2 * rho;
    Assoc(den, 2, h);
    assert den * i == 2 * h * den;
    MulMono(0, x, den);
    if x < h {
      MulMono(x + 1, h, den);
      Distribute(x, 1, den);
      if 2 * rem >= den {
        MulMono(den, 2 * rem, i);
      }
      if rem == 0 {
      } else {
        MulMono(1, rem, i);
      }
      if x > 0 {
        MulMono(1, x, den);
      }
    } else {
      MulMono(h, x, den);
      if x > h {
        MulMono(h + 1, x, den);
        Distribute(h, 1, den);
      }
      if 2 * rem < den {
        MulMono(2 * rem + 1, den, i);
        Distribute(2 * rem, 1, i);
      }
      if 2 * rem == den {
      } else if 2 * rem > den {
        MulMono(den + 1, 2 * rem, i);
        Distribute(den, 1, i);
      }
    }
  }

  /** rr is n/den to the nearest whole, within half a unit. */
  ghost predicate WithinHalf(rr: nat, n: nat, den: nat) {
    2 * rr * den - den <= 2 * n <= 2 * rr * den + den
  }

  ghost predicate TiesToEven(rr: nat, n: nat, den: nat) {
    && WithinHalf(rr, n, den)
    && (2 * n == 2 * rr * den - den || 2 * n == 2 * rr * den + den ==> rr % 2 == 0)
  }

  /** A tie at a limb boundary below an odd digit: the parity test reads the digit from the limb
      that holds none of it. */
  ghost predicate OddTieAtLimb(n: nat, den: nat, p: nat) {
    0 < den && p % 9 == 0 && 2 * (n % den) == den && n / den % 2 == 1
  }

  /** The digits kept, one more when rounding up. */
  function DigitsKept(n: nat, den: nat, up: bool): (rr: nat)
    requires 0 < den
    ensures rr == n / den + (if up then 1 else 0)
  {
    QuotientFits(n, den);
    n / den + (if up then 1 else 0)
  }

  lemma RoundedDigits(n: nat, den: nat, p: nat, up: bool)
    requires 0 < den
    requires up <==> var pos := Position(n % den, den);
                     pos == 3 || (pos == 2 && n / den % 2 == 1 && p % 9 != 0)
    ensures WithinHalf(DigitsKept(n, den, up), n, den)
    ensures TiesToEven(DigitsKept(n, den, up), n, den) <==> !OddTieAtLimb(n, den, p)
  {
    var q, rem := n / den, n % den;
    DivModDef(n, den);
    assert 2 * q * den == 2 * (q * den);
    assert 2 * (q + 1) * den == 2 * (q * den) + 2 * den;
  }

  lemma {:induction false} ValUpdate(s: seq<nat>, k: nat, x: nat)
    requires k < |s|
    ensures Val(s[k := x]) == Val(s) + (x - s[k]) * P9(|s| - 1 - k)
  {
    var h := s[..|s| - 1];
    if k == |s| - 1 {
      assert s[k := x][..k] == h;
    } else {
      assert s[k := x][..|s| - 1] == h[k := x];
      ValUpdate(h, k, x);
      Assoc(x - s[k], BILLION, P9(|h| - 1 - k));
      Distribute(Val(h), (x - s[k]) * P9(|h| - 1 - k), BILLION);
    }
  }

  /** A limb of 10^9 is a zero and one more in the limb before it. */
  lemma CarryLimb(s: seq<nat>, k: nat)
    requires 0 < k < |s| && s[k] == BILLION
    ensures Val(s[k := 0][k - 1 := s[k - 1] + 1]) == Val(s)
  {
    assert P9(|s| - k) == BILLION * P9(|s| - 1 - k);
    hide Val, P9;
    var e := P9(|s| - 1 - k);
    ValUpdate(s, k, 0);
    ValUpdate(s[k := 0], k - 1, s[k - 1] + 1);
    hide *;
    assert (0 - BILLION) * e == -(BILLION * e);
  }

  /** While a carry moves up from limb d0: all limbs are limbs but d, which may be 10^9. */
  ghost predicate Carrying(s: seq<nat>, a: nat, r: nat, d: nat, d0: nat, total: nat) {
    && a <= d <= d0 < |s| && s[d] <= BILLION
    && (forall i | Min(a, r) <= i <= d0 && i != d :: s[i] < BILLION)
    && (forall i | d < i <= d0 :: s[i] == 0) && (forall i | r <= i < a :: s[i] == 0)
    && Val(s[Min(a, r)..d0 + 1]) == total
    && (Min(a, r) > 0 || s[0] + (if d == 0 then 0 else 1) < BILLION) && Starts(s, a, r)
  }

  lemma CarryInPlace(s: seq<nat>, a: nat, r: nat, d: nat, d0: nat, total: nat)
    requires Carrying(s, a, r, d, d0, total) && s[d] == BILLION && Min(a, r) < d && a < d
    ensures Carrying(s[d := 0][d - 1 := s[d - 1] + 1], a, r, d - 1, d0, total)
  {
    hide Val;
    var lo := Min(a, r);
    CarryLimb(s[lo..d0 + 1], d - lo);
    assert s[d := 0][d - 1 := s[d - 1] + 1][lo..d0 + 1]
        == s[lo..d0 + 1][d - lo := 0][d - lo - 1 := s[d - 1] + 1];
  }

  lemma CarryToZero(s: seq<nat>, a: nat, r: nat, d0: nat, total: nat)
    requires Carrying(s, a, r, a, d0, total) && s[a] == BILLION
    ensures 0 < a && Carrying(s[a := 0][a - 1 := 1], a - 1, r, a - 1, d0, total)
  {
    hide Val;
    var lo, lo' := Min(a, r), Min(a - 1, r);
    assert a > 0;
    var w, u := s[a - 1 := 0], s[a := 0][a - 1 := 1];
    ZeroInFront(s, lo, lo', a, d0);
    assert w[a] == BILLION && w[a - 1] == 0 && u == w[a := 0][a - 1 := 1];
    CarriedValue(w, u, lo', a, d0);
  }

  lemma CarriedValue(w: seq<nat>, u: seq<nat>, lo: nat, a: nat, d0: nat)
    requires lo < a <= d0 < |w| && w[a] == BILLION && w[a - 1] == 0 && u == w[a := 0][a - 1 := 1]
    ensures Val(u[lo..d0 + 1]) == Val(w[lo..d0 + 1])
  {
    CarryLimb(w[lo..d0 + 1], a - lo);
    assert u[lo..d0 + 1] == w[lo..d0 + 1][a - lo := 0][a - lo - 1 := 1];
  }

  lemma ZeroInFront(s: seq<nat>, lo: nat, lo': nat, a: nat, d0: nat)
    requires 0 < a <= d0 < |s| && lo <= a
    requires if lo' == lo then lo < a && s[a - 1] == 0 else lo == a && lo' == a - 1
    ensures Val(s[a - 1 := 0][lo'..d0 + 1]) == Val(s[lo..d0 + 1])
  {
    if lo' == lo {
      assert s[a - 1 := 0] == s;
    } else {
      assert s[a - 1 := 0][lo'..d0 + 1] == [0] + s[lo..d0 + 1];
      ValFirst(0, s[lo..d0 + 1]);
    }
  }

  /** One turn of the loop on the limbs. */
  lemma CarryTurn(s: seq<nat>, a: nat, r: nat, d: nat, d0: nat, total: nat)
    requires Carrying(s, a, r, d, d0, total) && s[d] > 999999999
    ensures a <= d < |s| && 0 < d && (d == a ==> 0 < a)
    ensures d == a ==> Carrying(s[a := 0][a - 1 := 1], a - 1, r, a - 1, d0, total)
    ensures d != a ==> Carrying(s[d := 0][d - 1 := s[d - 1] + 1], a, r, d - 1, d0, total)
  {
    if d == a {
      CarryToZero(s, a, r, d0, total);
    } else {
      CarryInPlace(s, a, r, d, d0, total);
    }
  }

  lemma CarryIndex(s: seq<nat>, a: nat, r: nat, d: nat, d0: nat, total: nat)
    requires Carrying(s, a, r, d, d0, total)
    ensures a <= d <= d0 < |s|
    ensures s[d] <= 999999999 ==> s[d] < BILLION
  {
  }

  /** while (*d > 999999999) { *d--=0; if (d<a) *--a=0; (*d)++; } */
  method PropagateCarry(big: array<nat>, a0: nat, r: nat, d0: nat, ghost total: nat) returns (a: nat, d: nat)
    requires Carrying(big[..], a0, r, d0, d0, total)
    modifies big
    ensures a <= a0 && a <= d <= d0 && Carrying(big[..], a, r, d, d0, total) && big[d] < BILLION
  {
    hide *;
    a, d := a0, d0;
    CarryIndex(big[..], a, r, d, d0, total);
    while big[d] > 999999999
      invariant a <= a0 && a <= d <= d0 < big.Length && Carrying(big[..], a, r, d, d0, total)
      decreases d
    {
      ghost var s := big[..];
      CarryTurn(s, a, r, d, d0, total);
      ghost var was := d;
      big[d], d := 0, d - 1;
      if d < a {
        a := a - 1;
        big[a] := 0;
      }
      big[d] := big[d] + 1;
      ghost var t: seq<nat> := s[was := 0];
      assert big[..] == t[d := big[d]];
    }
    CarryIndex(big[..], a, r, d, d0, total);
  }

  // ---------- the rounded limbs ----------

  function Max(a: nat, b: nat): nat {
    if a < b then b else a
  }

  /** The limbs from a to z, with zeros up to the units, are rr / 10^p. */
  ghost predicate Reads(s: seq<nat>, a: nat, r: nat, z: nat, p: nat, rr: nat) {
    var lo, zf := Min(a, r), Max(z, r + 1);
    && zf <= |s| && AreLimbs(s[lo..zf])
    && Val(s[lo..zf]) * Pow10(p) == rr * P9(zf - 1 - r)
    && (forall i | z <= i < zf :: s[i] == 0)
  }

  /** Zeros off the end do not change what the limbs read. */
  lemma TrimmedValue(s: seq<nat>, lo: nat, zf: nat, end: nat)
    requires lo <= zf <= end <= |s| && forall i | zf <= i < end :: s[i] == 0
    ensures Val(s[lo..end]) == Val(s[lo..zf]) * P9(end - zf)
  {
    assert s[lo..end] == s[lo..zf] + s[zf..end];
    ValConcat(s[lo..zf], s[zf..end]);
    ValZeros(s[zf..end]);
  }

  lemma ReadsAfterRounding(s: seq<nat>, a: nat, r: nat, z: nat, p: nat, rr: nat, lim: nat)
    requires lim == r + 1 + p / 9 < |s| && z <= lim + 1 && AreLimbs(s[Min(a, r)..lim + 1])
    requires Val(s[Min(a, r)..lim + 1]) == rr * Pow10(9 - p % 9)
    requires forall i | z <= i <= lim :: s[i] == 0
    ensures Reads(s, a, r, z, p, rr)
  {
    hide Val, P9, Pow10;
    var lo, zf := Min(a, r), Max(z, r + 1);
    TrimmedValue(s, lo, zf, lim + 1);
    UnitOfLimb(p);
    P9Add(zf - 1 - r, lim + 1 - zf);
    assert s[lo..zf] == s[lo..lim + 1][..zf - lo];
    ReadsValue(Val(s[lo..zf]), P9(lim + 1 - zf), rr, Pow10(9 - p % 9), Pow10(p), P9(zf - 1 - r));
  }

  lemma ReadsValue(v: nat, q: nat, rr: nat, i: nat, t: nat, w: nat)
    requires 0 < q && v * q == rr * i && t * i == w * q
    ensures v * t == rr * w
  {
    assert v * t * q == v * q * t == rr * i * t;
    Assoc(rr, t, i);
    Assoc(rr, w, q);
    SameFactor(v * t, rr * w, q);
  }

  lemma LastLimb(s: seq<nat>, i: nat, k: nat)
    requires s != [] && 0 < i && k * i == BILLION && s[|s| - 1] < BILLION
    ensures Val(s) % i == s[|s| - 1] % i
    ensures k % 2 == 0 ==> Val(s) / i % 2 == s[|s| - 1] / i % 2
    ensures s[|s| - 1] - s[|s| - 1] % i + i <= BILLION
  {
    LastLimbValue(Val(s[..|s| - 1]), s[|s| - 1], i, k, BILLION, Val(s));
  }

  lemma LastLimbValue(h: nat, x: nat, i: nat, k: nat, b: nat, v: nat)
    requires 0 < i && k * i == b && x < b && v == h * b + x
    ensures v % i == x % i && (k % 2 == 0 ==> v / i % 2 == x / i % 2) && x - x % i + i <= b
  {
    Assoc(h, k, i);
    DivModDef(x, i);
    Distribute(h * k, x / i, i);
    MulMono(0, h, k);
    QuotientFits(x, i);
    DivModUnique(v, i, h * k + x / i, x % i);
    SmallQuotient(x, i, k);
    MulMono(x / i + 1, k, i);
    Distribute(x / i, 1, i);
    EvenTerm(h, k, x / i);
  }

  lemma EvenTerm(h: nat, k: nat, y: nat)
    ensures k % 2 == 0 ==> (h * k + y) % 2 == y % 2
  {
    if k % 2 == 0 {
      Assoc(h, k / 2, 2);
      DropMultiple(h * (k / 2), y, 2);
    }
  }

  /** What %f's cut at limb lim finds: the digits kept, the unit i and the limb's part x below it. */
  lemma CutFacts(s: seq<nat>, a: nat, r: nat, z: nat, zz: nat, p: nat, num: nat, den: nat, lim: nat)
    requires Laid(s, a, r, z, zz, p, num, den) && p < 9 * (z - r - 1) && lim == r + 1 + p / 9
    ensures lim < z && Expansion(s[Min(a, r)..lim + 1], p / 9 + 1, num, den)
    ensures Whole(p / 9 + 1, num, den) <==> z == lim + 1
  {
    TailZero(s, a, r, z, zz, p, num, den, lim);
    assert Min(a, r) <= lim < zz <= |s| && Expansion(s[Min(a, r)..zz], zz - 1 - r, num, den);
    hide *;
    CutSlice(s, Min(a, r), lim, zz, p / 9 + 1, num, den);
  }

  lemma CutSlice(s: seq<nat>, lo: nat, lim: nat, zz: nat, f: nat, num: nat, den: nat)
    requires lo <= lim < zz <= |s| && Expansion(s[lo..zz], f + (zz - 1 - lim), num, den)
    ensures Expansion(s[lo..lim + 1], f, num, den)
    ensures Whole(f, num, den) <==> Whole(f + (zz - 1 - lim), num, den) && Val(s[lim + 1..zz]) == 0
  {
    var t, j := s[lo..zz], zz - 1 - lim;
    assert t[..|t| - j] == s[lo..lim + 1] && t[|t| - j..] == s[lim + 1..zz];
    hide *;
    DropLimbs(t, f, j, num, den);
    WholeWithout(t, f, j, num, den);
  }

  lemma TailZero(s: seq<nat>, a: nat, r: nat, z: nat, zz: nat, p: nat, num: nat, den: nat, lim: nat)
    requires Laid(s, a, r, z, zz, p, num, den) && p < 9 * (z - r - 1) && lim == r + 1 + p / 9
    ensures lim < z && (Whole(zz - 1 - r, num, den) && Val(s[lim + 1..zz]) == 0 <==> z == lim + 1)
  {
    hide Expansion, Whole;
    if z == lim + 1 {
      ValZeros(s[lim + 1..zz]);
    } else {
      TrimmedValue(s, lim + 1, z, zz);
      if Whole(zz - 1 - r, num, den) {
        NonzeroLast(s[lim + 1..z]);
        hide Val;
        MulMono(1, Val(s[lim + 1..z]), P9(zz - z));
      }
    }
  }

  /** The decision round + small != round: less than half a unit of the last place leaves 2/EPSILON
      alone, a tie moves only its odd neighbour, more than half moves both. */
  predicate Probe(odd: bool, x: nat, i: nat, last: bool) {
    x > i / 2 || (x == i / 2 && (!last || odd))
  }

  /** `small`, in halves. */
  function Small(x: nat, i: nat, last: bool): (k: nat)
    ensures 1 <= k <= 3
  {
    if x < i / 2 then 1 else if x == i / 2 && last then 2 else 3
  }

  /** The units 2^-1074 in round = 2/EPSILON, or 2/EPSILON + 2, and in half of one. */
  function Round(odd: bool): nat {
    (HIDDEN + if odd then 1 else 0) * Pow2(1075)
  }

  const HALF_ONE: nat := Pow2(1073)

  /** The double nearest to round + small differs from round exactly as Probe says. */
  lemma ProbeIsNearest(odd: bool, x: nat, i: nat, last: bool, sum: nat)
    requires IsNearestEven(sum, Round(odd) + Small(x, i, last) * HALF_ONE, 1)
    ensures Mag(sum) != Round(odd) <==> Probe(odd, x, i, last)
  {
    hide Pow2, IsNearestEven, Mag;
    var m, k, h := HIDDEN + (if odd then 1 else 0), Small(x, i, last), HALF_ONE;
    FourHalves();
    var v := Round(odd) + k * h;
    DivModUnique(v, 4 * h, m, k * h);
    var up := RoundsUp(m, k);
    assert Pow2(1075) * 1 == 4 * h && Position(k * h, 4 * h) == k;
    RoundedPattern(v, 1, m, 1075, k);
    NearestUnique(sum, Pattern(if up then m + 1 else m, 1075), v, 1);
    PatternMag(if up then m + 1 else m, 1075);
    Distribute(m, 1, 4 * h);
  }

  lemma FourHalves()
    ensures Pow2(1075) == 4 * HALF_ONE
  {
    Pow2Add(2, 1073);
    assert Pow2(2) == 4;
  }

  lemma Decision(s: seq<nat>, a: nat, r: nat, z: nat, zz: nat, p: nat, num: nat, den: nat, lim: nat, i: nat)
    requires Laid(s, a, r, z, zz, p, num, den) && p < 9 * (z - r - 1) && lim == r + 1 + p / 9
    requires i == Pow10(9 - p % 9)
    ensures 0 < i && i % 2 == 0 && AreLimbs(s[Min(a, r)..lim + 1])
    ensures s[lim] - s[lim] % i + i <= BILLION
    ensures var n, x, q := Times(num, Pow10(p)), s[lim] % i, Val(s[Min(a, r)..lim + 1]);
      && QuotientIs(n, den, q, i) && q % i == x
      && (Probe(s[lim] / i % 2 == 1, x, i, lim + 1 == z) <==>
          var pos := Position(n % den, den); pos == 3 || (pos == 2 && n / den % 2 == 1 && p % 9 != 0))
      && (x == 0 && lim + 1 == z ==> !Probe(s[lim] / i % 2 == 1, x, i, lim + 1 == z))
  {
    var lo, t := Min(a, r), Pow10(p);
    var n, h := Times(num, t), s[lo..lim + 1];
    CutFacts(s, a, r, z, zz, p, num, den, lim);
    UnitOfLimb(p);
    assert Scaled(num, p / 9 + 1) == n * i by {
      Assoc(num, t, i);
    }
    assert Val(h) == n * i / den && (n * i % den == 0 <==> z == lim + 1);
    hide Val, P9, Pow10, Expansion, Laid, Whole;
    LastLimb(h, i, Pow10(p % 9));
    DigitSplit(n, den, i, Val(h));
    DecisionParity(s[lim], i, p);
  }

  predicate QuotientIs(n: nat, den: nat, v: nat, i: nat)
    requires 0 < i
  {
    0 < den && n / den == v / i
  }

  lemma DecisionParity(x: nat, i: nat, p: nat)
    requires i == Pow10(9 - p % 9) && x < BILLION
    ensures p % 9 == 0 ==> x / i % 2 == 0
  {
    UnitOfLimb(p);
    assert Pow10(0) == 1;
    if p % 9 == 0 {
      assert i == BILLION;
    }
  }

  /** A limb without its part below i, and one unit more when rounding up. */
  function RoundedLimb(l: nat, i: nat, up: bool): (y: nat)
    requires 0 < i
    ensures y == l - l % i + (if up then i else 0)
  {
    DivModDef(l, i);
    QuotientFits(l, i);
    MulMono(0, l / i, i);
    l - l % i + (if up then i else 0)
  }

  lemma LimbRounded(s: seq<nat>, lo: nat, lim: nat, i: nat, up: bool)
    requires lo <= lim < |s| && AreLimbs(s[lo..lim + 1]) && 0 < i
    requires Val(s[lo..lim + 1]) % i == s[lim] % i
    ensures s[lim] >= s[lim] % i
    ensures Val(s[lim := RoundedLimb(s[lim], i, up)][lo..lim + 1])
         == (Val(s[lo..lim + 1]) / i + (if up then 1 else 0)) * i
  {
    var y, h := RoundedLimb(s[lim], i, up), s[lo..lim + 1];
    RoundedLimbBelow(s[lim], i);
    assert s[lim := y][lo..lim + 1] == h[lim - lo := y];
    ValUpdate(h, lim - lo, y);
    assert P9(0) == 1;
    DivModDef(Val(h), i);
    hide Val;
    Distribute(Val(h) / i, if up then 1 else 0, i);
  }

  lemma RoundedLimbBelow(l: nat, i: nat)
    requires 0 < i
    ensures l % i <= l
  {
    DivModDef(l, i);
    QuotientFits(l, i);
    MulMono(0, l / i, i);
  }

  lemma StartCarry(s: seq<nat>, a: nat, r: nat, z: nat, zz: nat, p: nat, num: nat, den: nat, lim: nat, y: nat)
    requires Laid(s, a, r, z, zz, p, num, den) && r < lim < z && s[lim] != 0 && y <= BILLION
    requires AreLimbs(s[Min(a, r)..lim + 1])
    ensures Carrying(s[lim := y], a, r, lim, lim, Val(s[lim := y][Min(a, r)..lim + 1]))
  {
    var lo := Min(a, r);
    forall k | lo <= k <= lim && k != lim ensures s[k] < BILLION {
      assert s[lo..lim + 1][k - lo] == s[k];
    }
  }

  /** Rounded limbs up to lim, all zero after d. */
  ghost predicate Rounded(s: seq<nat>, a: nat, r: nat, d: nat, lim: nat, total: nat) {
    && Min(a, r) <= lim < |s| && d <= lim && AreLimbs(s[Min(a, r)..lim + 1])
    && Val(s[Min(a, r)..lim + 1]) == total && (forall k | d < k <= lim :: s[k] == 0) && Starts(s, a, r)
  }

  lemma RoundedByCarry(s: seq<nat>, a: nat, r: nat, d: nat, lim: nat, total: nat)
    requires Carrying(s, a, r, d, lim, total) && s[d] < BILLION
    ensures Rounded(s, a, r, d, lim, total)
  {
    hide Val;
  }

  lemma RoundedInPlace(s: seq<nat>, a: nat, r: nat, lim: nat, y: nat, total: nat)
    requires Min(a, r) <= lim < |s| && AreLimbs(s[Min(a, r)..lim + 1]) && y <= s[lim]
    requires Val(s[lim := y][Min(a, r)..lim + 1]) == total && Starts(s, a, r) && r < lim
    ensures Rounded(s[lim := y], a, r, lim, lim, total)
  {
    hide Val;
    var lo := Min(a, r);
    assert s[lim] == s[lo..lim + 1][lim - lo];
    assert s[lim := y][lo..lim + 1] == s[lo..lim + 1][lim - lo := y];
  }

  /** if (z>d+1) z=d+1; for (; z>a && !z[-1]; z--); */
  method Trim(big: array<nat>, a: nat, z0: nat, d: nat) returns (z: nat)
    requires d < z0 <= big.Length
    ensures z <= d + 1 && forall k | z <= k <= d :: big[k] == 0
  {
    z := if z0 > d + 1 then d + 1 else z0;
    while z > a && big[z - 1] == 0
      invariant z <= d + 1 && forall k | z <= k <= d :: big[k] == 0
    {
      z := z - 1;
    }
  }

  lemma FinishRound(s: seq<nat>, a: nat, r: nat, z: nat, p: nat, rr: nat, d: nat, lim: nat)
    requires lim == r + 1 + p / 9 && Rounded(s, a, r, d, lim, rr * Pow10(9 - p % 9))
    requires z <= d + 1 && forall k | z <= k <= d :: s[k] == 0
    ensures Reads(s, a, r, z, p, rr) && Starts(s, a, r)
  {
    hide Val, Pow10, Reads;
    ReadsAfterRounding(s, a, r, z, p, rr, lim);
  }

  /** The limb rewritten, and the carry it sends up. */
  /** x has k + 1 digits; zero counts as one digit. */
  ghost predicate Places(x: nat, k: int) {
    0 <= k && x < Pow10(k + 1) && (0 < k ==> Pow10(k) <= x)
  }

  /** e is the decimal exponent of a number of 1 or more; below it is not positive. */
  ghost predicate HasExponent(s: seq<nat>, a: nat, r: nat, e: int) {
    if a <= r then a < |s| && Places(s[a], e - 9 * (r - a)) else e <= 0
  }

  /** e=9*(r-a), and one more for every further digit of *a. */
  method Exponent(big: array<nat>, a: nat, r: nat) returns (e: int)
    requires a < big.Length && big[a] < BILLION
    ensures HasExponent(big[..], a, r, e)
  {
    Pow10Values();
    assert Pow10(0) == 1;
    var i := 10;
    ghost var k := 0;
    e := 9 * (r - a);
    while big[a] >= i
      invariant 0 <= k <= 8 && e == 9 * (r - a) + k && i == Pow10(k + 1) && (0 < k ==> Pow10(k) <= big[a])
      decreases 9 - k
    {
      hide BILLION;
      TenDigits(big[a], k);
      i, e, k := i * 10, e + 1, k + 1;
    }
  }

  lemma Pow10Values()
    ensures Pow10(0) == 1 && Pow10(1) == 10 && Pow10(9) == BILLION
  {
    P9IsPow10(1);
    assert Pow10(0) == 1 && P9(0) == 1;
    assert P9(1) == BILLION;
  }

  /** A limb has at most nine digits. */
  lemma TenDigits(x: nat, k: nat)
    requires k <= 8 && x < Pow10(9) && Pow10(k + 1) <= x
    ensures k < 8 && Pow10(k + 2) == Pow10(k + 1) * 10
  {
  }

  lemma LeadingLimb(s: seq<nat>, a: nat, r: nat, d: nat, lim: nat, total: nat)
    requires Rounded(s, a, r, d, lim, total) && a <= d
    ensures a < |s| && s[a] < BILLION
  {
    hide Val;
    assert s[Min(a, r)..lim + 1][a - Min(a, r)] == s[a];
  }

  /** A limb of fraction does not matter. */
  lemma SameExponent(s: seq<nat>, a: nat, r: nat, d: nat, y: nat, e: int)
    requires HasExponent(s, a, r, e) && r < d < |s|
    ensures HasExponent(s[d := y], a, r, e)
  {
  }

  method RewriteLimb(big: array<nat>, a0: nat, r: nat, z: nat, d0: nat, x: nat, i: nat, up: bool, e0: int,
                     ghost y: nat, ghost p: nat, ghost zz: nat, ghost num: nat, ghost den: nat, ghost total: nat)
    returns (a: nat, d: nat, e: int)
    requires HasExponent(big[..], a0, r, e0)
    requires Laid(big[..], a0, r, z, zz, p, num, den) && r < d0 < z && AreLimbs(big[..][Min(a0, r)..d0 + 1])
    requires x <= big[d0] && (up ==> x != 0 && big[d0] - x + i <= BILLION)
    requires y == big[d0] - x + (if up then i else 0)
    requires Val(big[..][d0 := y][Min(a0, r)..d0 + 1]) == total
    modifies big
    ensures d <= d0 && Rounded(big[..], a, r, d, d0, total) && HasExponent(big[..], a, r, e)
  {
    ghost var s := big[..];
    hide Val, Rounded, HasExponent, Laid;
    a, d, e := a0, d0, e0;
    big[d] := big[d] - x;
    if up {
      big[d] := big[d] + i;
      assert big[..] == s[d := y];
      StartCarry(s, a0, r, z, zz, p, num, den, d, y);
      hide *;
      a, d := PropagateCarry(big, a, r, d, total);
      RoundedByCarry(big[..], a, r, d, d0, total);
      LeadingLimb(big[..], a, r, d, d0, total);
      e := Exponent(big, a, r);
    } else {
      assert big[..] == s[d := y];
      RoundedInPlace(s, a0, r, d, y, total);
      SameExponent(s, a0, r, d, y, e);
    }
  }

  /** What rounding at limb lim comes to: rr, and the limb y it leaves before any carry. */
  lemma PlanRound(s: seq<nat>, a: nat, r: nat, z: nat, zz: nat, p: nat, num: nat, den: nat, lim: nat, i: nat,
                  x: nat, up: bool) returns (rr: nat, y: nat)
    requires Laid(s, a, r, z, zz, p, num, den) && p < 9 * (z - r - 1) && lim == r + 1 + p / 9
    requires i == Pow10(9 - p % 9) && 0 < i && lim < |s| && x == s[lim] % i
    requires up == Probe(s[lim] / i % 2 == 1, x, i, lim + 1 == z)
    ensures WithinHalf(rr, Times(num, Pow10(p)), den)
    ensures TiesToEven(rr, Times(num, Pow10(p)), den) <==> !OddTieAtLimb(Times(num, Pow10(p)), den, p)
    ensures lim < z <= |s| && Min(a, r) <= lim && AreLimbs(s[Min(a, r)..lim + 1]) && x <= s[lim]
    ensures y == s[lim] - x + (if up then i else 0) && y <= BILLION
    ensures Val(s[lim := y][Min(a, r)..lim + 1]) == rr * i
    ensures up ==> x != 0
    ensures x == 0 && lim + 1 == z ==> !up
  {
    var n := Times(num, Pow10(p));
    Decision(s, a, r, z, zz, p, num, den, lim, i);
    hide Val, Pow10, P9, Position, WithinHalf, TiesToEven, OddTieAtLimb, Expansion, Whole;
    RoundedDigits(n, den, p, up);
    rr, y := DigitsKept(n, den, up), RoundedLimb(s[lim], i, up);
    LimbRounded(s, Min(a, r), lim, i, up);
  }

  /** The limb is left alone only when it has nothing to drop and is the last. */
  method ApplyRound(big: array<nat>, a0: nat, r: nat, z: nat, d0: nat, x: nat, i: nat, up: bool, e0: int,
                    ghost y: nat, ghost p: nat, ghost zz: nat, ghost num: nat, ghost den: nat, ghost total: nat)
    returns (a: nat, d: nat, e: int)
    requires HasExponent(big[..], a0, r, e0)
    requires Laid(big[..], a0, r, z, zz, p, num, den) && r < d0 < z <= big.Length && Min(a0, r) <= d0
    requires AreLimbs(big[..][Min(a0, r)..d0 + 1])
    requires x <= big[d0] && y == big[d0] - x + (if up then i else 0) && y <= BILLION
    requires Val(big[..][d0 := y][Min(a0, r)..d0 + 1]) == total
    requires (up ==> x != 0) && (x == 0 && d0 + 1 == z ==> !up)
    modifies big
    ensures d <= d0 && Rounded(big[..], a, r, d, d0, total) && HasExponent(big[..], a, r, e)
  {
    ghost var s := big[..];
    hide *;
    a, d, e := a0, d0, e0;
    if x != 0 || d0 + 1 != z {
      a, d, e := RewriteLimb(big, a0, r, z, d0, x, i, up, e0, y, p, zz, num, den, total);
    } else {
      assert s == s[d0 := y];
      RoundedInPlace(s, a0, r, d0, y, total);
    }
  }

  lemma LimbOfDigit(s: seq<nat>, a: nat, r: nat, z: nat, p: nat, zz: nat, num: nat, den: nat, i: nat)
    requires Laid(s, a, r, z, zz, p, num, den) && p < 9 * (z - r - 1) && i == Pow10(9 - p % 9)
    ensures r + 1 + p / 9 < z <= |s| && 0 < i
  {
    hide Pow10, Expansion, Whole;
  }

  /** The rounding step of %f at precision p (vfprintf.c:336-367). */
  method RoundAt(big: array<nat>, a0: nat, r: nat, z0: nat, p: nat, e0: int, ghost zz: nat, ghost num: nat, ghost den: nat)
    returns (a: nat, z: nat, e: int, ghost rr: nat)
    requires HasExponent(big[..], a0, r, e0)
    requires Laid(big[..], a0, r, z0, zz, p, num, den) && p < 9 * (z0 - r - 1)
    modifies big
    ensures WithinHalf(rr, Times(num, Pow10(p)), den) && Reads(big[..], a, r, z, p, rr) && Starts(big[..], a, r)
    ensures HasExponent(big[..], a, r, e)
    ensures TiesToEven(rr, Times(num, Pow10(p)), den) <==> !OddTieAtLimb(Times(num, Pow10(p)), den, p)
  {
    hide *;
    var d := r + 1 + p / 9;
    var i := DigitUnit(p);
    ghost var s, lim := big[..], d;
    LimbOfDigit(s, a0, r, z0, p, zz, num, den, i);
    var x := big[d] % i;
    var up := Probe(big[d] / i % 2 == 1, x, i, d + 1 == z0);
    ghost var y;
    rr, y := PlanRound(s, a0, r, z0, zz, p, num, den, lim, i, x, up);
    a, d, e := ApplyRound(big, a0, r, z0, d, x, i, up, e0, y, p, zz, num, den, Times(rr, i));
    z := Trim(big, a, z0, d);
    FinishRound(big[..], a, r, z, p, rr, d, lim);
  }

  // ---------- the digits of %f ----------

  lemma LimbsBelow(s: seq<nat>, lo: nat, k: nat, hi: nat)
    requires lo <= k <= hi <= |s| && AreLimbs(s[lo..hi])
    ensures AreLimbs(s[lo..k])
  {
    assert s[lo..k] == s[lo..hi][..k - lo];
  }

  lemma ReadsTrimmed(s: seq<nat>, a: nat, r: nat, z: nat, z': nat, p: nat, rr: nat)
    requires Reads(s, a, r, z, p, rr) && z' <= z && forall k | z' <= k < z :: s[k] == 0
    ensures Reads(s, a, r, z', p, rr)
  {
    var lo, zf, zf' := Min(a, r), Max(z, r + 1), Max(z', r + 1);
    TrimmedValue(s, lo, zf', zf);
    P9Add(zf' - 1 - r, zf - zf');
    LimbsBelow(s, lo, zf', zf);
    hide Val, P9, Pow10, AreLimbs;
    ReadsScaled(Val(s[lo..zf']), P9(zf - zf'), Pow10(p), rr, P9(zf' - 1 - r));
  }

  lemma ReadsScaled(v: nat, q: nat, t: nat, rr: nat, w: nat)
    requires 0 < q && v * q * t == rr * (w * q)
    ensures v * t == rr * w
  {
    assert v * q * t == v * t * q;
    Assoc(rr, w, q);
    SameFactor(v * t, rr * w, q);
  }

  /** With no more fraction limbs than the precision asks for, nothing was cut. */
  lemma CompletePart(s: seq<nat>, a: nat, r: nat, z: nat, zz: nat, p: nat, num: nat, den: nat, zf: nat, f: nat)
    requires Laid(s, a, r, z, zz, p, num, den) && p >= 9 * (z - r - 1) && zf == Max(z, r + 1) && f == zf - 1 - r
    ensures 9 * f <= p && zf <= |s| && 0 < den && AreLimbs(s[Min(a, r)..zf])
    ensures Val(s[Min(a, r)..zf]) * den == Scaled(num, f)
    ensures forall i | z <= i < zf :: s[i] == 0
  {
    var lo := Min(a, r);
    assert Whole(zz - 1 - r, num, den);
    ExactExpansion(s[lo..zz], zz - 1 - r, num, den);
    assert s[lo..zf] == s[lo..zz][..zf - lo];
    hide Expansion, Whole, Val, P9;
    TrimmedValue(s, lo, zf, zz);
    Regrouped(num, f, zz - zf);
    ExactValue(Val(s[lo..zf]), P9(zz - zf), den, Scaled(num, f));
  }

  lemma ExactDigits(s: seq<nat>, a: nat, r: nat, z: nat, zz: nat, p: nat, num: nat, den: nat) returns (rr: nat)
    requires Laid(s, a, r, z, zz, p, num, den) && p >= 9 * (z - r - 1)
    ensures Reads(s, a, r, z, p, rr) && 0 < den && rr * den == Times(num, Pow10(p))
  {
    var zf := Max(z, r + 1);
    var f := zf - 1 - r;
    CompletePart(s, a, r, z, zz, p, num, den, zf, f);
    hide Laid, Val, P9, Pow10;
    P9IsPow10(f);
    Pow10Add(9 * f, p - 9 * f);
    var v, t := Val(s[Min(a, r)..zf]), Pow10(p - 9 * f);
    rr := Times(v, t);
    ExactProducts(v, P9(f), t, num, den, Pow10(p));
  }

  lemma ExactProducts(v: nat, w: nat, t: nat, num: nat, den: nat, pt: nat)
    requires v * den == num * w && pt == w * t
    ensures v * pt == v * t * w && v * t * den == num * pt
  {
    Assoc(v, w, t);
    assert v * t * den == v * den * t;
    Assoc(num, w, t);
  }

  lemma ExactValue(v: nat, q: nat, den: nat, x: nat)
    requires 0 < q && v * q * den == x * q
    ensures v * den == x
  {
    assert v * q * den == v * den * q;
    SameFactor(v * den, x, q);
  }

  lemma ExactIsEven(rr: nat, n: nat, den: nat, p: nat)
    requires 0 < den && rr * den == n
    ensures WithinHalf(rr, n, den) && TiesToEven(rr, n, den) && !OddTieAtLimb(n, den, p)
  {
    assert 2 * rr * den == 2 * (rr * den);
    DivModUnique(n, den, rr, 0);
  }

  /** %f: the digits of m * 2^(e2 - 24) to p places, within half a unit of the last, and ties to
      even except for a tie below an odd digit at a limb boundary. Here g counts the factors of two
      a small value's significand has, being a multiple of 2^-1074. */
  lemma LaidLimbs(s: seq<nat>, a: nat, r: nat, z: nat, zz: nat, p: nat, num: nat, den: nat)
    requires Laid(s, a, r, z, zz, p, num, den)
    ensures a < z ==> a < |s| && s[a] < BILLION
    ensures a >= z ==> HasExponent(s, a, r, 0)
  {
    hide Val, Whole, Scaled;
    assert a < z ==> s[Min(a, r)..zz][a - Min(a, r)] == s[a];
    Pow10Values();
  }

  method FixedDigits(big: array<nat>, m: nat, e2: int, p: nat, ghost g: nat)
    returns (a: nat, r: nat, z: nat, e: int, ghost rr: nat)
    requires big.Length == SIZE
    requires if m == 0 then e2 == 0 else 0x10_0000_0000_0000 <= m < 0x20_0000_0000_0000
    requires e2 <= 995 && m % Pow2(g) == 0 && 24 - e2 <= 1074 + g
    modifies big
    ensures Reads(big[..], a, r, z, p, rr) && HasExponent(big[..], a, r, e) && Starts(big[..], a, r)
    ensures WithinHalf(rr, Times(Numer(m, e2), Pow10(p)), Denom(e2))
    ensures TiesToEven(rr, Times(Numer(m, e2), Pow10(p)), Denom(e2))
       <==> !OddTieAtLimb(Times(Numer(m, e2), Pow10(p)), Denom(e2), p)
  {
    ghost var zz;
    a, r, z, zz := Limbs(big, m, e2, p, g);
    ghost var num, den, s := Numer(m, e2), Denom(e2), big[..];
    hide *;
    e := 0;
    LaidLimbs(s, a, r, z, zz, p, num, den);
    if a < z {
      e := Exponent(big, a, r);
    }
    if p < 9 * (z - r - 1) {
      a, z, e, rr := RoundAt(big, a, r, z, p, e, zz, num, den);
    } else {
      rr := ExactDigits(s, a, r, z, zz, p, num, den);
      ExactIsEven(rr, Times(num, Pow10(p)), den, p);
      var z0 := z;
      while z > a && big[z - 1] == 0
        invariant z <= z0 <= big.Length && forall k | z <= k < z0 :: big[k] == 0
      {
        z := z - 1;
      }
      ReadsTrimmed(s, a, r, z0, z, p, rr);
    }
  }

  /** The tie that shows it: "%.0f" of 1.5 is 1, not 2. */
  lemma OneAndAHalf(rr: nat)
    ensures var m, e2, p := 0x18_0000_0000_0000, -28, 0;
      var n, den := Times(Numer(m, e2), Pow10(p)), Denom(e2);
      && OddTieAtLimb(n, den, p)
      && (WithinHalf(rr, n, den) && !TiesToEven(rr, n, den) ==> rr == 1)
  {
    Pow2Values();
    assert Pow10(0) == 1;
    var n := 0x18_0000_0000_0000;
    DivModUnique(n, 0x10_0000_0000_0000, 1, 0x8_0000_0000_0000);
  }
}
