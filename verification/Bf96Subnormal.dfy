/** The subnormal results of the fast path (nolibc/dtoa.c:3933-3969 and 4026-4066). */
module Bf96Subnormal {
  import opened Arith
  import opened Double
  import opened TenEntries
  import opened Bf96Products

  // ---------- subnormal results ----------

  /** t / 2^s to the nearest whole, halves up. */
  function Rounded(t: nat, s: nat): (m: nat)
    requires 1 <= s
    ensures m == t / Pow2(s) + t / Pow2(s - 1) % 2
  {
    QuotientFits(t, Pow2(s));
    QuotientFits(t, Pow2(s - 1));
    t / Pow2(s) + t / Pow2(s - 1) % 2
  }

  /** A cell inside a half lies inside every larger half it divides. */
  lemma CoarserHalf(t: nat, half: nat, k: nat, slack: nat)
    requires 0 < half && 0 < k && 1 <= t % half && t % half + slack <= half
    ensures 1 <= t % (half * k) && t % (half * k) + slack <= half * k
  {
    var q := t / half;
    DivModDef(t, half);
    DivModDef(q, k);
    MulMono(q % k + 1, k, half);
    Distribute(q % k, 1, half);
    MulMono(0, q % k, half);
    assert t == q / k * (half * k) + (q % k * half + t % half) by {
      Distribute(q / k * k, q % k, half);
      Assoc(q / k, k, half);
    }
    DivModUnique(t, half * k, q / k, q % k * half + t % half);
  }

  lemma PlainUnit(m: nat, up: bool)
    ensures Pattern(m + Carry(up), 0) == m + Carry(up) && Pow2(0) == 1
  {
  }

  /** Counted in units of 2^-1074: with half a unit worth half * k * unit of the product, the value
      lies off the halves and rounds to the nearest whole. */
  lemma NearestUnits(v: nat, u: nat, i: nat, pe: int, lo: nat, hi: nat, t: nat, slack: nat, half: nat, k: nat,
                     unit: nat, c: nat)
    requires 0 < u && Window(v, u, i, pe, lo, hi) && i == pe + 1074 + c
    requires 0 < half && 0 < k && 0 < unit && Pow2(c) == 2 * (half * k) * unit
    requires t * unit <= lo && hi <= (t + slack) * unit
    requires 1 <= t % half && t % half + slack <= half && t < 2 * HIDDEN * (2 * (half * k))
    ensures IsNearestEven(Whole(t, half * k) + Carry(t / (half * k) % 2 == 1), v, u)
  {
    var h := half * k;
    var m, up := Whole(t, h), t / h % 2 == 1;
    PlainUnit(m, up);
    hide *;
    MulMono(1, k, half);
    CoarserHalf(t, half, k, slack);
    Decide(v, u, i, pe, lo, hi, t, slack, h, unit, c, 0);
    SmallQuotient(t, 2 * h, 2 * HIDDEN);
    UnitPattern(v, u, m, up);
  }

  lemma UnitPattern(v: nat, u: nat, m: nat, up: bool)
    requires 0 < u && Split(v, Pow2(0) * u, m, if up then 3 else 1) && m < 2 * HIDDEN
    ensures IsNearestEven(m + Carry(up), v, u)
  {
    PlainUnit(m, up);
    RoundedPattern(v, u, m, 0, if up then 3 else 1);
  }

  /** The exponent erv counts the 64 bits of t00 from 2^-1074 up: half a unit is 2^(11-erv) of them. */
  lemma HalfUnit(erv: int, half: nat) returns (k: nat)
    requires (half == 0x400 && erv <= 0) || (half == 0x200 && erv <= 1)
    ensures 0 < k && half * k == Pow2(11 - erv)
    ensures Pow2(12 - erv) == 2 * (half * k) && Pow2(108 - erv) == 2 * (half * k) * P96
    ensures half * W * k == half * k * W && Pow2(108 - erv) == 2 * (half * W * k) * P64
  {
    hide Pow2;
    TwoToTen();
    if half == 0x400 {
      k := Pow2(1 - erv);
      Pow2Add(10, 1 - erv);
    } else {
      k := Pow2(2 - erv);
      Pow2Add(9, 2 - erv);
    }
    NinetySix();
    Pow2Next(11 - erv);
    Pow2Add(12 - erv, 96);
    UnitsOf(half, k, Pow2(12 - erv), Pow2(108 - erv));
  }

  lemma UnitsOf(half: nat, k: nat, p: nat, q: nat)
    requires p == 2 * (half * k) && q == p * P96
    ensures q == 2 * (half * k) * P96 && half * W * k == half * k * W && q == 2 * (half * W * k) * P64
  {
    Assoc(half, W, k);
    WordsUp(half * k, W);
  }

  lemma TwoToTen()
    ensures Pow2(9) == 0x200 && Pow2(10) == 0x400
  {
  }

  lemma NinetySix()
    ensures Pow2(96) == P96
  {
    Pow2Values();
    hide Pow2;
    Pow2Add(32, 64);
  }

  lemma WordsUp(h: nat, w: nat)
    ensures 2 * (h * w) * (w * w) == 2 * h * (w * w * w)
  {
    Assoc(h, w, w * w);
    Assoc(w, w, w);
  }

  /** The code gives the whole number nearest, but one unit beyond exactly half a unit it looks no
      further. */
  ghost predicate AtHalf(t00: nat, erv: int) {
    (t00 == TOP && erv == -52) || (t00 == TOP / 2 && erv == -51)
  }

  lemma RoundedIs(t: nat, erv: int)
    requires erv <= 1
    ensures Rounded(t, 12 - erv) == Whole(t, Pow2(11 - erv)) + Carry(t / Pow2(11 - erv) % 2 == 1)
  {
    hide *;
    Pow2Next(11 - erv);
    RoundedParts(t, 12 - erv, Pow2(11 - erv));
  }

  lemma RoundedParts(t: nat, s: nat, h: nat)
    requires 1 <= s && h == Pow2(s - 1) && Pow2(s) == 2 * h
    ensures Rounded(t, s) == Whole(t, h) + Carry(t / h % 2 == 1)
  {
    hide Pow2;
  }

  /** From three products. */
  lemma SubnormalNearest(v: nat, u: nat, i: nat, pe: int, full: nat, brv: nat, ext: nat, t00: nat, erv: int, half: nat)
    requires Known(v, u, i, pe, full, brv, ext) && erv == 1182 + pe - i
    requires t00 * P96 <= full && full + brv < (t00 + 3) * P96
    requires (half == 0x400 && erv <= 0 && t00 < 2 * TOP) || (half == 0x200 && erv <= 1 && t00 < TOP)
    requires 1 <= t00 % half && t00 % half + 3 + ext <= half
    ensures IsNearestEven(Rounded(t00, 12 - erv), v, u) && !AtHalf(t00, erv)
  {
    assert 0 < u && Window(v, u, i, pe, full, full + brv + ext * P96);
    RoundedIs(t00, erv);
    Units(erv);
    var k := HalfUnit(erv, half);
    UpperEnd(full, brv, t00, ext);
    NotOnHalf(t00, half);
    hide *;
    NearestUnits(v, u, i, pe, full, full + brv + ext * P96, t00, 3 + ext, half, k, P96, 108 - erv);
  }

  lemma NotOnHalf(t00: nat, half: nat)
    requires (half == 0x400 || half == 0x200) && 1 <= t00 % half
    ensures t00 != TOP && t00 != TOP / 2
  {
    DivModUnique(TOP, half, TOP / half, 0);
    DivModUnique(TOP / 2, half, TOP / 2 / half, 0);
  }

  /** 64 bits are no more than 2^53 units. */
  lemma Units(erv: int)
    requires erv <= 1
    ensures TOP <= 2 * HIDDEN * Pow2(12 - erv) && (erv <= 0 ==> 2 * TOP <= 2 * HIDDEN * Pow2(12 - erv))
  {
    assert Pow2(11) == 0x800 && Pow2(12) == 0x1000;
    Pow2Mono(11, 12 - erv);
    if erv <= 0 {
      Pow2Mono(12, 12 - erv);
    }
  }

  lemma UpperEnd(full: nat, brv: nat, t00: nat, ext: nat)
    requires full + brv < (t00 + 3) * P96
    ensures full + brv + ext * P96 <= (t00 + (3 + ext)) * P96
  {
    Distribute(t00 + 3, ext, P96);
  }

  /** From five products, of which the first 96 bits are f. */
  lemma SubnormalNearest96(v: nat, u: nat, i: nat, pe: int, lo: nat, hi: nat, f: nat, slack: nat, t00: nat, low: nat,
                           erv: int, half: nat)
    requires 0 < u && Window(v, u, i, pe, lo, hi) && erv == 1182 + pe - i
    requires f == t00 * W + low && low < W && f * P64 <= lo && hi <= (f + slack) * P64
    requires (half == 0x400 && erv <= 0 && t00 < 2 * TOP) || (half == 0x200 && erv <= 1 && t00 < TOP)
    requires 1 <= f % (half * W) && f % (half * W) + slack <= half * W
    ensures IsNearestEven(Rounded(t00, 12 - erv), v, u)
  {
    RoundedIs(t00, erv);
    Units(erv);
    var k := HalfUnit(erv, half);
    hide *;
    WholeOfWords(f, t00, low, half * k, half * W * k);
    FitsUnits(f, t00, low, 2 * (half * k), 2 * (half * W * k));
    NearestUnits(v, u, i, pe, lo, hi, f, slack, half * W, k, P64, 108 - erv);
  }

  lemma WholeOfWords(f: nat, t00: nat, low: nat, h: nat, hw: nat)
    requires f == t00 * W + low && low < W && 0 < h && hw == h * W
    ensures 0 < hw && Whole(f, hw) == Whole(t00, h) && f / hw == t00 / h
  {
    DivModUnique(f, W, t00, low);
    DivDiv(f, W, h);
    DivDiv(f, W, 2 * h);
    assert W * h == hw && W * (2 * h) == 2 * hw;
  }

  lemma FitsUnits(f: nat, t00: nat, low: nat, c: nat, cw: nat)
    requires f == t00 * W + low && low < W && t00 < 2 * HIDDEN * c && cw == c * W
    ensures f < 2 * HIDDEN * cw
  {
    MulMono(t00 + 1, 2 * HIDDEN * c, W);
    Distribute(t00, 1, W);
    Assoc(2 * HIDDEN, c, W);
  }

  lemma TiniestTop(t00: nat, erv: int)
    requires TOP <= t00 < 2 * TOP && erv <= -52
    ensures Rounded(t00, 12 - erv) == if erv == -52 then 1 else 0
    ensures t00 % TOP == 0 <==> t00 == TOP
  {
    DivModUnique(t00, TOP, 1, t00 - TOP);
    TwoTops();
    hide Pow2;
    Tiniest(t00, erv, -52, TOP);
  }

  lemma TiniestNext(t00: nat, erv: int)
    requires TOP / 2 <= t00 < TOP && erv <= -51
    ensures Rounded(t00, 12 - erv) == if erv == -51 then 1 else 0
    ensures t00 % (TOP / 2) == 0 <==> t00 == TOP / 2
  {
    DivModUnique(t00, TOP / 2, 1, t00 - TOP / 2);
    TwoTops();
    hide Pow2;
    Tiniest(t00, erv, -51, TOP / 2);
  }

  lemma TwoTops()
    ensures Pow2(62) == TOP / 2 && Pow2(63) == TOP && Pow2(64) == 2 * TOP
  {
    Pow2Values();
    assert Pow2(63) == 2 * Pow2(62);
  }

  /** At exponent e half a unit is 2^(11-e); below that the value is less than half a unit. */
  lemma Tiniest(t: nat, erv: int, e: int, half: nat)
    requires erv <= e <= 0 && Pow2(11 - e) == half && Pow2(12 - e) == 2 * half && half <= t < 2 * half
    ensures Rounded(t, 12 - erv) == if erv == e then 1 else 0
  {
    hide Pow2;
    Pow2Mono(12 - e, 12 - erv);
    DivModUnique(t, Pow2(12 - erv), 0, t);
    if erv == e {
      DivModUnique(t, half, 1, t - half);
    } else {
      Pow2Mono(12 - e, 11 - erv);
      DivModUnique(t, Pow2(11 - erv), 0, t);
    }
    assert (12 - erv) - 1 == 11 - erv;
  }

  /** 2^63 is m times the bit of half a unit. */
  lemma TopUnits(erv: int) returns (m: nat)
    requires -51 <= erv <= 0
    ensures m * Pow2(11 - erv) == TOP && 2 <= m && Pow2(12 - erv) == 2 * Pow2(11 - erv)
    ensures if erv == 0 then m == HIDDEN else Pow2(12 - (erv + 1)) == Pow2(11 - erv)
  {
    m := Pow2(52 + erv);
    Pow2Values();
    assert Pow2(1) == 2 && Pow2(12 - erv) == 2 * Pow2(11 - erv);
    hide Pow2;
    Pow2Add(52 + erv, 11 - erv);
    Pow2Mono(1, 52 + erv);
  }

  lemma HalfQuotient(x: nat, tg: nat)
    requires 0 < tg
    ensures x * tg / tg == x && x * tg / (2 * tg) == x / 2
  {
    DivModUnique(x * tg, tg, x, 0);
    DivDiv(x * tg, tg, 2);
  }

  /** The bits from half a unit up. */
  lemma Cleared(t00: nat, tg: nat, m: nat)
    requires 0 < tg && m * tg <= t00 < 2 * (m * tg)
    ensures m <= t00 / tg < 2 * m && t00 / (2 * tg) == t00 / tg / 2
  {
    Assoc(2, m, tg);
    SmallQuotient(t00, tg, 2 * m);
    DivModDef(t00, tg);
    DivDiv(t00, tg, 2);
    if t00 / tg < m {
      MulMono(t00 / tg + 1, m, tg);
      Distribute(t00 / tg, 1, tg);
    }
  }

  /** One unit more, modulo 2^64: it wraps only from the last odd half unit. */
  lemma CarryTop(q: nat, tg: nat, m: nat, top: nat)
    requires 0 < tg && q % 2 == 1 && 2 <= m <= q < 2 * m && m * tg == top
    ensures q + 2 < 2 * m ==> (q * tg + 2 * tg) % (2 * top) == (q + 2) * tg && top <= (q + 2) * tg
    ensures q + 2 >= 2 * m ==> q == 2 * m - 1 && (q * tg + 2 * tg) % (2 * top) == tg < top
  {
    Distribute(q, 2, tg);
    Assoc(2, m, tg);
    if q + 2 < 2 * m {
      MulMono(m, q + 2, tg);
      MulMono(q + 3, 2 * m, tg);
      Distribute(q + 2, 1, tg);
      DivModUnique((q + 2) * tg, 2 * top, 0, (q + 2) * tg);
    } else {
      Distribute(2 * m, 1, tg);
      MulMono(2, m, tg);
      DivModUnique((q + 2) * tg, 2 * top, 1, tg);
    }
  }

  lemma RoundedOf(t00: nat, s: nat, tg: nat)
    requires 1 <= s && tg == Pow2(s - 1) && Pow2(s) == 2 * tg && t00 / (2 * tg) == t00 / tg / 2
    ensures 0 <= t00 / tg && Rounded(t00, s) == t00 / tg / 2 + t00 / tg % 2
  {
  }

  /** denormal (dtoa.c:3933-3969): the low bits cleared, and one unit more if half a unit is set. */
  method DenormalTop(t00: nat, erv: int) returns (bits: nat)
    requires TOP <= t00 < 2 * TOP && erv <= 0
    ensures bits == if AtHalf(t00, erv) then 0 else Rounded(t00, 12 - erv)
    ensures AtHalf(t00, erv) ==> Rounded(t00, 12 - erv) == 1
  {
    if erv <= -52 {
      TiniestTop(t00, erv);
      if erv < -52 || t00 % TOP == 0 {
        return 0;
      }
      return 1;
    }
    hide Pow2;
    var tg := Pow2(11 - erv);
    ghost var m := TopUnits(erv);
    Cleared(t00, tg, m);
    RoundedOf(t00, 12 - erv, tg);
    bits := ShiftTop(t00, erv, tg, m);
  }

  method ShiftTop(t00: nat, erv: int, tg: nat, ghost m: nat) returns (bits: nat)
    requires -51 <= erv <= 0 && tg == Pow2(11 - erv) && m * tg == TOP && 2 <= m && Pow2(12 - erv) == 2 * tg
    requires if erv == 0 then m == HIDDEN else Pow2(12 - (erv + 1)) == tg
    requires m <= t00 / tg < 2 * m
    ensures bits == t00 / tg / 2 + t00 / tg % 2
  {
    hide *;
    ghost var q := t00 / tg;
    var t, e := Times(t00 / tg, tg), erv;
    HalfQuotient(q, tg);
    if t / tg % 2 == 1 {
      CarryTop(q, tg, m, TOP);
      HalfQuotient(q + 2, tg);
      t := (t + 2 * tg) % (2 * TOP);
      if t < TOP {
        e := e + 1;
        if e > 0 {
          return HIDDEN;
        }
        t := TOP;
        HalfQuotient(m, tg);
      }
    }
    QuotientFits(t, Pow2(12 - e));
    bits := t / Pow2(12 - e);
  }

  lemma NextUnits(erv: int)
    requires -50 <= erv <= 1
    ensures Pow2(12 - erv) == 2 * Pow2(11 - erv) && (erv == 1 ==> HIDDEN * (2 * Pow2(11 - erv)) == TOP)
  {
    assert Pow2(12 - erv) == 2 * Pow2(11 - erv) && Pow2(10) == 0x400;
  }

  lemma OneUnitMore(t00: nat, w: nat)
    requires 0 < w
    ensures (t00 + w) / w == t00 / w + 1
  {
    DivModDef(t00, w);
    Distribute(t00 / w, 1, w);
    DivModUnique(t00 + w, w, t00 / w + 1, t00 % w);
  }

  lemma FullSignificand(t00: nat, w: nat, m: nat)
    requires 0 < w && t00 < m * w <= t00 + w
    ensures t00 / w + 1 == m
  {
    Distribute(m, 1, w);
    DivModUnique(t00, w, m - 1, t00 - (m - 1) * w);
  }

  /** denormal1 (dtoa.c:4026-4066), one place lower. */
  method DenormalNext(t00: nat, erv: int) returns (bits: nat)
    requires TOP / 2 <= t00 < TOP && erv <= 1
    ensures bits == if AtHalf(t00, erv) then 0 else Rounded(t00, 12 - erv)
    ensures AtHalf(t00, erv) ==> Rounded(t00, 12 - erv) == 1
  {
    if erv <= -51 {
      TiniestNext(t00, erv);
      if erv < -51 || t00 % (TOP / 2) == 0 {
        return 0;
      }
      return 1;
    }
    hide Pow2;
    var tg := Pow2(11 - erv);
    NextUnits(erv);
    DivDiv(t00, tg, 2);
    RoundedOf(t00, 12 - erv, tg);
    bits := ShiftNext(t00, erv, tg);
  }

  method ShiftNext(t00: nat, erv: int, tg: nat) returns (bits: nat)
    requires -50 <= erv <= 1 && tg == Pow2(11 - erv) && Pow2(12 - erv) == 2 * tg && t00 < TOP
    requires erv == 1 ==> HIDDEN * (2 * tg) == TOP
    requires t00 / (2 * tg) == t00 / tg / 2 && 0 <= t00 / tg
    ensures bits == t00 / tg / 2 + t00 / tg % 2
  {
    hide *;
    var t := t00;
    if t / tg % 2 == 1 {
      t := t00 + 2 * tg;
      OneUnitMore(t00, 2 * tg);
      if t >= TOP && erv == 1 {
        FullSignificand(t00, 2 * tg, HIDDEN);
        return HIDDEN;
      }
    }
    QuotientFits(t, Pow2(12 - erv));
    bits := t / Pow2(12 - erv);
  }
}
