/** The scaling down behind %e and %g (nolibc/vfprintf.c:315-330): the limbs are cut relative to the
    leading one, at every turn, so that what they lose is bounded relative to the value. */
module FmtCut {
  import opened Arith
  import opened FmtFp

  /** v over 10^(9 f) is m/den, or less by no more than k parts in 10^(9 (need - 1)) of it. */
  ghost predicate Within(v: nat, f: nat, need: nat, m: nat, den: nat, k: nat) {
    && 0 < den && 0 < need && v * den <= m * P9(f)
    && (m * P9(f) - v * den) * P9(need - 1) <= k * (m * P9(f))
  }

  lemma WithinMore(v: nat, f: nat, need: nat, m: nat, den: nat, k: nat)
    requires Within(v, f, need, m, den, k)
    ensures Within(v, f, need, m, den, k + 1)
  {
    MulMono(0, m, P9(f));
    Distribute(k, 1, m * P9(f));
  }

  /** Shifting limbs that are extended by the carry loses nothing. */
  lemma WithinShifted(v: nat, f: nat, need: nat, m: nat, den: nat, k: nat, w: nat, c: nat, pw: nat)
    requires Within(v, f, need, m, den, k) && w * pw == v * P9(c) && 0 < pw
    ensures 0 < den * pw && Within(w, f + c, need, m, den * pw, k)
  {
    var q, n, e := P9(c), P9(need - 1), m * P9(f);
    MulMono(1, pw, den);
    assert w * (den * pw) == v * den * q by {
      Assoc(w, pw, den);
      Assoc(v, q, den);
    }
    assert m * P9(f + c) == e * q by {
      P9Add(f, c);
      Assoc(m, P9(f), q);
    }
    MulMono(0, m, P9(f));
    hide P9;
    ScaledError(v * den, e, q, n, k);
  }

  lemma ScaledError(d: nat, e: nat, q: nat, n: nat, k: nat)
    requires d <= e && (e - d) * n <= k * e && 0 < q
    ensures d * q <= e * q && (e * q - d * q) * n <= k * (e * q)
  {
    MulMono(d, e, q);
    Distribute(e, d, q);
    Assoc(e - d, q, n);
    MulMono((e - d) * n, k * e, q);
    Assoc(k, e, q);
  }

  /** Dropping limbs after `need` of them costs one more part. */
  lemma WithinCut(w: nat, w1: nat, x: nat, c: nat, f: nat, need: nat, m: nat, den: nat, k: nat)
    requires Within(w, f + c, need, m, den, k) && w == w1 * P9(c) + x && x < P9(c) && P9(need - 1) <= w1
    ensures Within(w1, f, need, m, den, k + 1)
  {
    var q, n, e := P9(c), P9(need - 1), m * P9(f);
    MulMono(0, m, P9(f));
    assert m * P9(f + c) == e * q by {
      P9Add(f, c);
      Assoc(m, P9(f), q);
    }
    hide P9;
    CutError(w, w1, x, q, n, e, den, k);
  }

  lemma CutError(w: nat, w1: nat, x: nat, q: nat, n: nat, e: nat, den: nat, k: nat)
    requires 0 < q && w == w1 * q + x && x < q && n <= w1
    requires w * den <= e * q && (e * q - w * den) * n <= k * (e * q)
    ensures w1 * den <= e && (e - w1 * den) * n <= (k + 1) * e
  {
    var d, y := w1 * den, x * den;
    assert w * den == d * q + y by {
      Distribute(w1 * q, x, den);
      Assoc(w1, q, den);
    }
    MulMono(0, x, den);
    CancelFactor(d, e, q);
    assert (e - d) * q == (e * q - w * den) + y by {
      Distribute(e, d, q);
    }
    assert y * n <= q * e by {
      MulMono(x, q, den);
      MulMono(n, w1, q * den);
      MulMono(y, q * den, n);
      Assoc(w1, q, den);
      Assoc(n, q, den);
      MulMono(d, e, q);
    }
    assert (e - d) * n * q <= (k + 1) * e * q by {
      Distribute(e * q - w * den, y, n);
      Assoc(e - d, q, n);
      Assoc(k, e, q);
      Distribute(k, 1, e);
      Distribute(k * e, e, q);
    }
    MulMono(0, e - d, n);
    MulMono(0, k + 1, e);
    CancelFactor((e - d) * n, (k + 1) * e, q);
  }

  /** The state of the loop for %e and %g: limbs a to z, the first not zero. */
  ghost predicate Falling(s: seq<nat>, a: nat, z: nat, need: nat, m: nat, den: nat, k: nat) {
    && a < z <= |s| && AreLimbs(s[a..z]) && s[a] != 0 && Within(Val(s[a..z]), z - 1, need, m, den, k)
  }

  /** Nothing has been cut off yet. */
  ghost predicate Complete(s: seq<nat>, a: nat, z: nat, m: nat, den: nat) {
    a < z <= |s| && Val(s[a..z]) * den == Scaled(m, z - 1)
  }

  lemma StaysComplete(v: nat, f: nat, m: nat, den: nat, w: nat, c: nat, pw: nat)
    requires v * den == Scaled(m, f) && w * pw == v * P9(c)
    ensures w * (den * pw) == Scaled(m, f + c)
  {
    P9Add(f, c);
    Assoc(w, pw, den);
    Assoc(v, P9(c), den);
    Assoc(m, P9(f), P9(c));
  }

  /** The limbs after the shift: a leading zero passed over, the carry behind them. */
  lemma Shifted(s: seq<nat>, t: seq<nat>, u: seq<nat>, a0: nat, z0: nat, a: nat, z: nat, sh: nat, rm: nat, carry: nat,
                need: nat, m: nat, den: nat, k: nat)
    requires Falling(s, a0, z0, need, m, den, k) && |t| == |s| == |u| && z0 < |s| && sh <= 9
    requires Divided(s[a0..z0], t[a0..z0], Pow2(sh), rm) && carry == BILLION / Pow2(sh) * rm
    requires u == (if carry == 0 then t else t[z0 := carry]) && z == (if carry == 0 then z0 else z0 + 1)
    requires a == if t[a0] == 0 then a0 + 1 else a0
    ensures 0 < den * Pow2(sh) && Falling(u, a, z, need, m, den * Pow2(sh), k)
    ensures Complete(s, a0, z0, m, den) ==> Complete(u, a, z, m, den * Pow2(sh))
    ensures z > z0 ==> u[z - 1] != 0
  {
    hide Val, Pow2, P9, Within, DividedValue;
    var vo, vn, pw := s[a0..z0], t[a0..z0], Pow2(sh);
    CarryTimes(carry, sh, rm);
    CarryIsZero(carry, pw, rm);
    CarryFits(carry, pw, rm);
    assert vo[0] == s[a0] && vn[0] == t[a0];
    assert u[a0..z] == if carry == 0 then vn else vn + [carry];
    ShiftedValue(vo, vn, pw, rm, carry);
    LeadingLimb(u, t, a0, z0, a, z, vn, rm, carry);
    var w, c := Val(u[a0..z]), if carry == 0 then 0 else 1;
    hide Divided;
    WithinShifted(Val(vo), z0 - 1, need, m, den, k, w, c, pw);
    if Complete(s, a0, z0, m, den) {
      StaysComplete(Val(vo), z0 - 1, m, den, w, c, pw);
    }
    if a != a0 {
      assert u[a0..z] == [0] + u[a..z];
      ValFirst(0, u[a..z]);
    }
  }

  lemma ShiftedValue(vo: seq<nat>, vn: seq<nat>, pw: nat, rm: nat, carry: nat)
    requires Divided(vo, vn, pw, rm) && carry * pw == BILLION * rm && (carry == 0 <==> rm == 0)
    ensures Val(if carry == 0 then vn else vn + [carry]) * pw == Val(vo) * P9(if carry == 0 then 0 else 1)
  {
    assert P9(0) == 1 && P9(1) == BILLION;
    if carry != 0 {
      ValPush(vn, carry);
      hide Val;
      Distribute(Val(vn) * BILLION, carry, pw);
      Assoc(Val(vn), BILLION, pw);
    }
  }

  lemma LeadingLimb(u: seq<nat>, t: seq<nat>, a0: nat, z0: nat, a: nat, z: nat, vn: seq<nat>, rm: nat, carry: nat)
    requires a0 < z0 < |t| == |u| && vn == t[a0..z0] && AreLimbs(vn) && carry < BILLION && (carry == 0 <==> rm == 0)
    requires t[a0] == 0 ==> if |vn| > 1 then vn[1] != 0 else rm != 0
    requires u == (if carry == 0 then t else t[z0 := carry]) && z == (if carry == 0 then z0 else z0 + 1)
    requires a == if t[a0] == 0 then a0 + 1 else a0
    ensures a < z <= |u| && u[a] != 0 && AreLimbs(u[a..z]) && AreLimbs(u[a0..z]) && (a != a0 ==> u[a0] == 0)
  {
    forall i | 0 <= i < z - a0 ensures u[a0..z][i] < BILLION {
      if i < z0 - a0 {
        assert vn[i] == u[a0 + i];
      }
    }
    forall i | 0 <= i < z - a ensures u[a..z][i] < BILLION {
      assert u[a..z][i] == u[a0..z][i + (a - a0)];
    }
    assert |vn| > 1 ==> vn[1] == t[a0 + 1];
  }

  lemma FallingBounds(s: seq<nat>, a: nat, z: nat, need: nat, m: nat, den: nat, k: nat)
    requires Falling(s, a, z, need, m, den, k)
    ensures a < z <= |s| && AreLimbs(s[a..z]) && s[a] != 0 && 0 < need
  {
  }

  lemma LeadingValue(x: nat, t: seq<nat>)
    requires x != 0
    ensures P9(|t|) <= Val([x] + t)
  {
    ValFirst(x, t);
    hide Val, P9;
    MulMono(1, x, P9(|t|));
  }

  /** z = a + need, when that is less. */
  lemma CutBehind(u: seq<nat>, a: nat, z: nat, need: nat, m: nat, den: nat, k: nat)
    requires Falling(u, a, z, need, m, den, k)
    ensures Falling(u, a, if z - a > need then a + need else z, need, m, den, k + 1)
  {
    hide Val, P9, AreLimbs, Within;
    FallingBounds(u, a, z, need, m, den, k);
    if z - a > need {
      var s, t := u[a..a + need], u[a + need..z];
      assert u[a..z] == s + t && s == [u[a]] + s[1..];
      ValConcat(s, t);
      AreParts(s, t);
      ValBound(t);
      LeadingValue(u[a], s[1..]);
      WithinCut(Val(u[a..z]), Val(s), Val(t), |t|, a + need - 1, need, m, den, k);
    } else {
      WithinMore(Val(u[a..z]), z - 1, need, m, den, k);
    }
  }

  lemma AreParts(s: seq<nat>, t: seq<nat>)
    requires AreLimbs(s + t)
    ensures AreLimbs(s) && AreLimbs(t)
  {
    forall i | 0 <= i < |s| ensures s[i] < BILLION {
      assert s[i] == (s + t)[i];
    }
    forall i | 0 <= i < |t| ensures t[i] < BILLION {
      assert t[i] == (s + t)[|s| + i];
    }
  }

  /** One turn of the loop. */
  method CutTurn(big: array<nat>, a0: nat, z0: nat, sh: nat, need: nat, ghost m: nat, ghost den: nat, ghost k: nat)
    returns (a: nat, z: nat)
    requires sh <= 9 && z0 < big.Length && Falling(big[..], a0, z0, need, m, den, k)
    modifies big
    ensures 0 < den * Pow2(sh) && Falling(big[..], a, z, need, m, den * Pow2(sh), k + 1)
    ensures z <= z0 + 1 <= big.Length && (z == z0 + 1 ==> big[z - 1] != 0) && (z < z0 ==> z == a + need)
    ensures Complete(old(big[..]), a0, z0, m, den) && z0 - a0 < need ==> Complete(big[..], a, z, m, den * Pow2(sh))
  {
    hide *;
    ghost var s := big[..];
    FallingBounds(s, a0, z0, need, m, den, k);
    assert big[a0..z0] == s[a0..z0];
    var carry, rm := DivideLimbs(big, a0, z0, sh);
    ghost var t := big[..];
    assert t[a0..z0] == big[a0..z0];
    a, z := a0, z0;
    if big[a] == 0 {
      a := a + 1;
    }
    if carry != 0 {
      big[z] := carry;
      z := z + 1;
    }
    Shifted(s, t, big[..], a0, z0, a, z, sh, rm, carry, need, m, den, k);
    CutBehind(big[..], a, z, need, m, den * Pow2(sh), k);
    if z - a > need {
      z := a + need;
    }
  }

  // ---------- the loop ----------

  /** With f limbs of fraction, the last not zero, m / 2^k has more than 9 (f - 1) bits of it. */
  lemma BitsOfLimbs(v: nat, f: nat, m: nat, k: nat, g: nat)
    requires 0 < f && v * Pow2(k) == Scaled(m, f) && m % Pow2(g) == 0 && v % BILLION != 0
    ensures 9 * (f - 1) + g < k
  {
    if 9 * (f - 1) + g >= k {
      var c, e := m / Pow2(g), g + 9 * (f - 1);
      assert P9(1) == BILLION * P9(0) == BILLION;
      DivModDef(v, BILLION);
      hide Pow2, P9;
      DivModDef(m, Pow2(g));
      var q := P9Twos(f - 1);
      P9Add(f - 1, 1);
      Pow2Add(g, 9 * (f - 1));
      Pow2Add(e - k, k);
      QuotientFits(m, Pow2(g));
      assert Scaled(m, f) == c * Pow2(g) * (q * Pow2(9 * (f - 1))) * BILLION by {
        Assoc(m, P9(f - 1), BILLION);
      }
      FewLimbsValue(v, Pow2(k), c, Pow2(g), q, Pow2(9 * (f - 1)), Pow2(e - k), v / BILLION, v % BILLION);
    }
  }

  lemma LastLimbOf(s: seq<nat>)
    requires s != [] && AreLimbs(s)
    ensures Val(s) % BILLION == s[|s| - 1]
  {
    DivModUnique(Val(s), BILLION, Val(s[..|s| - 1]), s[|s| - 1]);
  }

  /** The array has room as long as the bits are those of m, or the limbs were cut. */
  ghost predicate Room(z: nat, g: nat, k: nat) {
    z == 1 || 9 * (z - 2) + g < k
  }

  /** Whole limbs bring a fraction only when there are bits of it. */
  lemma FirstFraction(s: seq<nat>, a: nat, z: nat, need: nat, m: nat, k: nat, g: nat, e: nat)
    requires Falling(s, a, z, need, m, Pow2(k), e) && m % Pow2(g) == 0
    requires z == 2 ==> Complete(s, a, z, m, Pow2(k)) && s[1] != 0
    ensures z == 2 ==> Room(z, g, k)
  {
    if z == 2 {
      LastLimbOf(s[a..z]);
      hide Val, Pow2, Within;
      BitsOfLimbs(Val(s[a..z]), 1, m, k, g);
    }
  }

  lemma Starts(s: seq<nat>, z: nat, need: nat, m: nat, g: nat)
    requires 0 < z <= 4 && z <= |s| && 0 < need && AreLimbs(s[..z]) && Val(s[..z]) * FRAC == Scaled(m, z - 1)
    requires s[0] != 0 && s[z - 1] != 0 && m % Pow2(g) == 0
    ensures Falling(s, 0, z, need, m, Pow2(24), 0) && Complete(s, 0, z, m, Pow2(24)) && Room(z, g, 24)
  {
    assert Pow2(24) == FRAC by {
      Pow2Add(16, 8);
      Pow2Values();
    }
    assert s[0..z] == s[..z] && s[..z][z - 1] == s[z - 1];
    LastLimbOf(s[..z]);
    hide Val, P9, Pow2;
    if z > 1 {
      BitsOfLimbs(Val(s[..z]), z - 1, m, 24, g);
    }
    assert 0 * P9(need - 1) == 0 == 0 * (m * P9(z - 1));
  }

  /** The significand m / 2^24, scaled down by n bits in steps of 9, for %e and %g with precision p:
      the limbs stay in the array and lose one part in 10^(9 (need - 1)) a turn at most. */
  method ScaleDown(big: array<nat>, z0: nat, n: nat, p: nat, ghost m: nat, ghost g: nat)
    returns (a: nat, z: nat, ghost k: nat)
    requires big.Length == SIZE && 0 < z0 <= 4
    requires AreLimbs(big[..z0]) && Val(big[..z0]) * FRAC == Scaled(m, z0 - 1)
    requires big[0] != 0 && big[z0 - 1] != 0 && m % Pow2(g) == 0 && 24 + n <= 1074 + g
    modifies big
    ensures Falling(big[..], a, z, 1 + (p + 25) / 9, m, Pow2(24 + n), k) && 9 * k <= n + 8 && z <= 122
  {
    hide Falling, Complete, Pow2, Val, AreLimbs, Scaled;
    var need := 1 + (p + 17 + 8) / 9;
    a, z, k := 0, z0, 0;
    var left := n;
    assert big[..z0] == big[..][..z0];
    Starts(big[..], z0, need, m, g);
    while left > 0
      invariant 0 <= left <= n && Falling(big[..], a, z, need, m, Pow2(24 + n - left), k) && z <= 122
      invariant left > 0 ==> Room(z, g, 24 + n - left) && 9 * k == n - left
      invariant z == 1 ==> a == 0 && Complete(big[..], a, z, m, Pow2(24 + n - left))
      invariant 9 * k <= n - left + 8
      decreases left
    {
      var sh := if left < 9 then left else 9;
      Pow2Add(24 + n - left, sh);
      FallingBounds(big[..], a, z, need, m, Pow2(24 + n - left), k);
      ghost var before := z;
      a, z := CutTurn(big, a, z, sh, need, m, Pow2(24 + n - left), k);
      left, k := left - sh, k + 1;
      FallingBounds(big[..], a, z, need, m, Pow2(24 + n - left), k);
      if before == 1 {
        FirstFraction(big[..], a, z, need, m, 24 + n - left, g, k);
      }
    }
  }

  /** In decimal digits: less by at most k parts in 10^(p + 17), for at most 123 turns. */
  lemma LostDigits(s: seq<nat>, a: nat, z: nat, p: nat, m: nat, den: nat, k: nat)
    requires Falling(s, a, z, 1 + (p + 25) / 9, m, den, k)
    ensures var v, x := Val(s[a..z]) * den, m * P9(z - 1); v <= x && (x - v) * Pow10(p + 17) <= k * x
  {
    var need := (p + 25) / 9;
    var v, x := Val(s[a..z]) * den, m * P9(z - 1);
    P9IsPow10(need);
    assert p + 17 <= 9 * need;
    hide Val, P9, Pow10;
    Pow10Mono(p + 17, 9 * need);
    MulMono(Pow10(p + 17), P9(need), x - v);
  }

  /** 53 bits end in at most 52 zeros. */
  lemma FewZeros(m: nat, g: nat)
    requires 0 < m < 0x20_0000_0000_0000 && m % Pow2(g) == 0
    ensures g <= 52
  {
    Pow2Values();
    hide Pow2;
    if g > 52 {
      Pow2Mono(53, g);
      DivModUnique(m, Pow2(g), 0, m);
    }
  }

  /** The limbs of m * 2^(-n - 24) for %e and %g with precision p, for a significand of 53 bits
      (vfprintf.c:298-330): at most 123 parts in 10^(p + 17) too small. */
  method LimbsDown(big: array<nat>, m: nat, n: nat, p: nat, ghost g: nat) returns (a: nat, z: nat)
    requires big.Length == SIZE && 0x10_0000_0000_0000 <= m < 0x20_0000_0000_0000
    requires m % Pow2(g) == 0 && 24 + n <= 1074 + g
    modifies big
    ensures a < z <= 122 && AreLimbs(big[a..z]) && big[a] != 0
    ensures var v, x := Val(big[a..z]) * Pow2(24 + n), m * P9(z - 1);
      v <= x && (x - v) * Pow10(p + 17) <= 123 * x
  {
    FewZeros(m, g);
    hide Val, P9, Pow2, Pow10, Falling;
    z := Expand(big, 0, m);
    assert big[..z] == big[0..z];
    ghost var k;
    a, z, k := ScaleDown(big, z, n, p, m, g);
    ghost var s := big[..];
    FallingBounds(s, a, z, 1 + (p + 25) / 9, m, Pow2(24 + n), k);
    LostDigits(s, a, z, p, m, Pow2(24 + n), k);
    assert s[a..z] == big[a..z];
    MulMono(0, m, P9(z - 1));
    MulMono(k, 123, m * P9(z - 1));
  }
}
