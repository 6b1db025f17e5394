/** d2b and lo0bits (nolibc/dtoa.c:1794-1835 and 2288-2418): a double as an odd Bigint times a
    power of two. */
module D2b {
  import opened Arith
  import opened Words
  import opened Double
  import opened BigintPool
  import opened Quorem
  import opened Dshift

  // ---------- trailing zero bits ----------

  /** y is y0 without its k trailing zeros. */
  predicate Stripped(y0: nat, y: nat, k: nat) {
    y0 == y * Pow2(k)
  }

  /** if (!(x & mask)) { k += j; x >>= j; }, for x not a multiple of 2^(2j). */
  method StripIfClear(y0: nat, y: nat, k: nat, j: nat, f: nat) returns (y': nat, k': nat)
    requires Stripped(y0, y, k) && f == Pow2(j) && y % (f * f) != 0
    ensures Stripped(y0, y', k') && y' % f != 0 && (k' == k || k' == k + j)
  {
    if y % f == 0 {
      QuotientFits(y, f);
      Pow2Add(k, j);
      StripBy(y, f, Pow2(k));
      return y / f, k + j;
    }
    return y, k;
  }

  lemma StripBy(y: nat, f: nat, p: nat)
    requires 0 < f && y % f == 0
    ensures y * p == y / f * (p * f)
    ensures y % (f * f) != 0 ==> y / f % f != 0
  {
    var q := y / f;
    assert y == q * f;
    Assoc(q, f, p);
    if q % f == 0 {
      Assoc(q / f, f, f);
      DivModUnique(y, f * f, q / f, 0);
    }
  }

  /** lo0bits: the number of trailing zero bits, and the odd rest; 32 for zero. */
  method Lo0bits(y0: word) returns (k: nat, y: nat)
    ensures y0 == 0 ==> k == 32
    ensures y0 != 0 ==> k < 32 && y % 2 == 1 && Stripped(y0, y, k)
  {
    if y0 % 8 != 0 {
      k, y := LowZeros(y0);
    } else if y0 == 0 {
      k, y := 32, y0;
    } else {
      k, y := Strip(y0);
    }
  }

  /** The three lowest bits, looked at one by one. */
  method LowZeros(y0: word) returns (k: nat, y: nat)
    requires y0 % 8 != 0
    ensures k < 3 && y % 2 == 1 && Stripped(y0, y, k)
  {
    LowBits(y0);
    hide *;
    if y0 % 2 == 1 {
      return 0, y0;
    }
    if y0 % 4 >= 2 {
      return 1, y0 / 2;
    }
    return 2, y0 / 4;
  }

  lemma LowBits(y0: word)
    requires y0 % 8 != 0
    ensures y0 % 2 == 1 ==> Stripped(y0, y0, 0)
    ensures y0 % 2 != 1 && y0 % 4 >= 2 ==> y0 / 2 % 2 == 1 && Stripped(y0, y0 / 2, 1)
    ensures y0 % 2 != 1 && y0 % 4 < 2 ==> y0 / 4 % 2 == 1 && Stripped(y0, y0 / 4, 2)
  {
    assert Pow2(0) == 1 && Pow2(1) == 2 && Pow2(2) == 4;
    hide Pow2;
    var q: nat, r: nat := y0 / 8, y0 % 8;
    DivModDef(y0, 8);
    DivModUnique(y0, 2, 4 * q + r / 2, r % 2);
    DivModUnique(y0, 4, 2 * q + r / 4, r % 4);
    DivModUnique(y0 / 2, 2, 2 * q + r / 4, r / 2 % 2);
    DivModUnique(y0 / 4, 2, q, r / 4);
  }

  lemma HalfPowers()
    ensures Pow2(0) == 1 && Pow2(1) == 2 && Pow2(2) == 4 && Pow2(4) == 0x10 && Pow2(8) == 0x100 && Pow2(16) == 0x1_0000
  {
    Pow2Values();
  }

  /** By halves: 16, 8, 4, 2 and 1 zeros at a time. */
  method Strip(y0: word) returns (k: nat, y: nat)
    requires y0 != 0
    ensures k < 32 && y % 2 == 1 && Stripped(y0, y, k)
  {
    hide Pow2;
    HalfPowers();
    WholeWord(y0);
    hide Stripped;
    y, k := StripIfClear(y0, y0, 0, 16, 0x1_0000);
    y, k := StripIfClear(y0, y, k, 8, 0x100);
    y, k := StripIfClear(y0, y, k, 4, 0x10);
    y, k := StripIfClear(y0, y, k, 2, 4);
    y, k := StripIfClear(y0, y, k, 1, 2);
  }

  lemma WholeWord(y0: word)
    ensures Stripped(y0, y0, 0)
  {
  }

  // ---------- the significand ----------

  const FRACTION: nat := 0x10_0000 // 2^20, the fraction bits of the high word

  /** Both words of a significand without trailing zeros: y | z << (32 - k), z >> k. */
  lemma WordPower(k: nat)
    requires k <= 32
    ensures Pow2(k) * Pow2(32 - k) == BASE
  {
    Pow2Values();
    hide Pow2;
    Pow2Add(k, 32 - k);
  }

  lemma ShiftPair(z: nat, d1: word, y: nat, k: nat)
    requires 0 < k < 32 && Stripped(d1, y, k)
    ensures 0 <= z / Pow2(k) && y + z % Pow2(k) * Pow2(32 - k) < BASE
    ensures (z / Pow2(k) * BASE + (y + z % Pow2(k) * Pow2(32 - k))) * Pow2(k) == z * BASE + d1
  {
    var p, t := Pow2(k), Pow2(32 - k);
    assert d1 == y * p;
    hide Pow2, Stripped;
    WordPower(k);
    QuotientFits(z, p);
    DivModDef(z, p);
    ShiftPairValue(z, d1, y, p, t, z / p, z % p);
  }

  lemma ShiftPairValue(z: nat, d1: nat, y: nat, p: nat, t: nat, q: nat, r: nat)
    requires 0 < p && 0 < t && d1 == y * p && d1 < p * t && z == q * p + r && r < p
    ensures y + r * t < p * t
    ensures (q * (p * t) + (y + r * t)) * p == z * (p * t) + d1
  {
    if y >= t {
      MulMono(t, y, p);
    }
    MulMono(r + 1, p, t);
    Distribute(r, 1, t);
    Distribute(q * (p * t), y + r * t, p);
    Distribute(y, r * t, p);
    Distribute(q * p, r, p * t);
    assert q * (p * t) * p == q * p * (p * t);
    assert r * t * p == r * (p * t);
  }

  /** The words of the significand z:d1, its k trailing zeros gone. */
  method SignificandWords(z: nat, d1: word) returns (x0: word, x1: word, k: nat)
    requires z < 2 * FRACTION && z * BASE + d1 != 0
    ensures (x1 * BASE + x0) * Pow2(k) == z * BASE + d1 && x0 % 2 == 1 && k <= 52
  {
    assert Pow2(0) == 1;
    if d1 != 0 {
      var y;
      k, y := Lo0bits(d1);
      if k != 0 {
        ShiftPair(z, d1, y, k);
        EvenTop(z, k, y);
        x0 := y + z % Pow2(k) * Pow2(32 - k);
        QuotientFits(z, Pow2(k));
        x1 := z / Pow2(k);
      } else {
        x0, x1 := d1, z;
      }
    } else {
      var y;
      k, y := Lo0bits(z);
      HighOnly(z, y, k);
      x0, x1 := y, 0;
      k := k + 32;
    }
  }

  lemma EvenTop(z: nat, k: nat, y: nat)
    requires 0 < k < 32
    ensures (y + z % Pow2(k) * Pow2(32 - k)) % 2 == y % 2
  {
    var h, c := Pow2(31 - k), z % Pow2(k);
    assert Pow2(32 - k) == 2 * h;
    hide Pow2;
    assert c * (2 * h) == 2 * (c * h);
    DropMultiple(c * h, y, 2);
  }

  lemma HighOnly(z: word, y: nat, k: nat)
    requires 0 < z < 2 * FRACTION && k < 32 && Stripped(z, y, k)
    ensures k <= 20 && y < BASE && y * Pow2(k + 32) == z * BASE
  {
    Pow2Add(k, 32);
    Pow2Values();
    if k >= 21 {
      Pow2Mono(21, k);
    }
    assert z == y * Pow2(k);
    hide Pow2, Stripped;
    Assoc(y, Pow2(k), BASE);
    FactorBelow(z, y, Pow2(k));
  }

  lemma FactorBelow(z: nat, y: nat, p: nat)
    requires 0 < z && 0 < p && z == y * p
    ensures y <= z && p <= z
  {
    MulMono(1, p, y);
    if y >= 1 {
      MulMono(1, y, p);
    }
  }

  // ---------- d2b ----------

  /** Exponent field, or 1 for a subnormal, which counts from the same place. */
  function Scale(bits: nat): (e: nat)
    ensures 1 <= e
  {
    QuotientFits(bits, HIDDEN);
    if bits / HIDDEN == 0 then 1 else bits / HIDDEN
  }

  /** z, with the hidden bit when the exponent field is not zero, and d1 are the significand. */
  lemma FieldsOfWords(d0: nat, d1: word, z: nat)
    requires d0 < 0x8000_0000 && z == d0 % FRACTION + (if d0 / FRACTION != 0 then FRACTION else 0)
    ensures var bits := d0 * BASE + d1;
      && bits / HIDDEN == d0 / FRACTION && Mag(bits) == (z * BASE + d1) * Pow2(Scale(bits) - 1)
    ensures if d0 / FRACTION != 0 then HIDDEN <= z * BASE + d1 < 2 * HIDDEN else z * BASE + d1 < HIDDEN
  {
    var bits := d0 * BASE + d1;
    DivModDef(d0, FRACTION);
    DivModUnique(bits, HIDDEN, d0 / FRACTION, d0 % FRACTION * BASE + d1);
    assert Pow2(0) == 1;
  }

  /** The bit length of v follows from that of v * 2^k. */
  lemma NormalLength(v: nat, k: nat)
    requires k <= 52 && HIDDEN <= v * Pow2(k) < 2 * HIDDEN
    ensures Pow2(52 - k) <= v < Pow2(53 - k)
  {
    Pow2Add(52 - k, k);
    Pow2Add(53 - k, k);
    Pow2Values();
    if v < Pow2(52 - k) {
      MulMono(v + 1, Pow2(52 - k), Pow2(k));
      Distribute(v, 1, Pow2(k));
    }
    if v >= Pow2(53 - k) {
      MulMono(Pow2(53 - k), v, Pow2(k));
    }
  }

  /** The double of words d0 and d1, not zero, is b * 2^e, with b odd and `bits` bits long. */
  method DoubleToBigint(pool: Pool, d0: word, d1: word) returns (b: Bigint, e: int, bits: int)
    requires pool.Valid() && d0 % 0x8000_0000 * BASE + d1 != 0
    modifies pool.Repr
    ensures pool.Valid() && b.Valid() && b.Trimmed() && b.Repr() !! pool.Repr
    ensures fresh(pool.Repr + b.Repr() - old(pool.Repr))
    ensures pool.live == old(pool.live) + {b} && b !in old(pool.live)
    ensures b.Value() % 2 == 1 && -1074 <= e
    ensures b.Value() * Pow2(e + 1074) == Mag(d0 % 0x8000_0000 * BASE + d1)
    ensures 0 < bits && Pow2(bits - 1) <= b.Value() < Pow2(bits)
  {
    hide Pool.Valid, Val;
    var x0, x1, k, de := OddSignificand(d0, d1);
    ghost var v: nat := x1 * BASE + x0;
    var field: int := de;
    e := if de != 0 then field - 1023 - 52 + k else field - 1023 - 52 + 1 + k;
    assert e + 1074 == if de == 0 then k else k + de - 1;
    assert v * Pow2(e + 1074) == Mag(d0 % 0x8000_0000 * BASE + d1);
    hide Pow2, Mag;
    b := TwoWordBigint(pool, x0, x1);
    bits := LengthOf(b, de, k);
  }

  /** The bit length: from the shift for a normal number, else counted. */
  method LengthOf(b: Bigint, de: nat, k: nat) returns (bits: int)
    requires b.Valid() && 0 < b.wds && b.x[b.wds - 1] != 0 && k <= 52
    requires de != 0 ==> HIDDEN <= b.Value() * Pow2(k) < 2 * HIDDEN
    ensures 0 < bits && Pow2(bits - 1) <= b.Value() < Pow2(bits)
  {
    if de != 0 {
      bits := 53 - k;
      NormalLength(b.Value(), k);
    } else {
      bits := CountBits(b);
    }
  }

  /** The words of the significand, its trailing zeros k, and the exponent field. */
  method OddSignificand(d0: word, d1: word) returns (x0: word, x1: word, k: nat, de: nat)
    requires d0 % 0x8000_0000 * BASE + d1 != 0
    ensures x0 % 2 == 1 && (x1 * BASE + x0) % 2 == 1 && k <= 52
    ensures var e := if de == 0 then k else k + de - 1;
      (x1 * BASE + x0) * Pow2(e) == Mag(d0 % 0x8000_0000 * BASE + d1)
    ensures de != 0 ==> HIDDEN <= (x1 * BASE + x0) * Pow2(k) < 2 * HIDDEN
  {
    var abs: nat := d0 % 0x8000_0000;
    var z: nat := d0 % FRACTION;
    de := abs / FRACTION;
    if de != 0 {
      z := z + FRACTION;
    }
    ghost var m: nat := abs * BASE + d1;
    SignificandFields(d0, d1, z, de);
    hide *;
    x0, x1, k := SignificandWords(z, d1);
    ghost var v: nat := x1 * BASE + x0;
    LowWordOdd(x0, x1);
    ScaledValue(v, k, z * BASE + d1, Scale(m), Mag(m));
  }

  lemma SignificandFields(d0: word, d1: word, z: nat, de: nat)
    requires d0 % 0x8000_0000 * BASE + d1 != 0 && de == d0 % 0x8000_0000 / FRACTION
    requires z == d0 % FRACTION + (if de != 0 then FRACTION else 0)
    ensures z < 2 * FRACTION && z * BASE + d1 != 0
    ensures var m := d0 % 0x8000_0000 * BASE + d1;
      && Scale(m) == (if de == 0 then 1 else de)
      && Mag(m) == (z * BASE + d1) * Pow2(Scale(m) - 1)
    ensures de != 0 ==> HIDDEN <= z * BASE + d1 < 2 * HIDDEN
  {
    var abs: nat := d0 % 0x8000_0000;
    assert d0 % FRACTION == abs % FRACTION;
    DivModDef(abs, FRACTION);
    FieldsOfWords(abs, d1, z);
    hide Mag, Pow2;
  }

  lemma LowWordOdd(x0: word, x1: word)
    requires x0 % 2 == 1
    ensures (x1 * BASE + x0) % 2 == 1
  {
  }

  lemma ScaledValue(v: nat, k: nat, sig: nat, scale: nat, mag: nat)
    requires 1 <= scale && v * Pow2(k) == sig && mag == sig * Pow2(scale - 1)
    ensures v * Pow2(k + scale - 1) == mag
  {
    Assoc(v, Pow2(k), Pow2(scale - 1));
    Pow2Add(k, scale - 1);
  }

  /** 32*i - hi0bits(x[i-1]) */
  method CountBits(b: Bigint) returns (bits: int)
    requires b.Valid() && 0 < b.wds && b.x[b.wds - 1] != 0
    ensures 0 < bits && Pow2(bits - 1) <= b.Value() < Pow2(bits)
  {
    var h := Hi0bits(b.x[b.wds - 1]);
    bits := 32 * b.wds - h;
    BitLength(b.x[..b.wds], h);
  }

  /** Balloc(1), x[0], x[1], wds. */
  method TwoWordBigint(pool: Pool, x0: word, x1: word) returns (b: Bigint)
    requires pool.Valid() && x0 % 2 == 1
    modifies pool.Repr
    ensures pool.Valid() && b.Valid() && b.Trimmed() && b.Repr() !! pool.Repr
    ensures fresh(pool.Repr + b.Repr() - old(pool.Repr))
    ensures pool.live == old(pool.live) + {b} && b !in old(pool.live)
    ensures b.Value() == x1 * BASE + x0 && b.wds == (if x1 != 0 then 2 else 1) && b.x[b.wds - 1] != 0
  {
    hide Pool.Valid, Val;
    b := pool.Balloc(1);
    assert Pow2(1) == 2;
    b.x[0], b.x[1] := x0, x1;
    b.wds := if x1 != 0 then 2 else 1;
    OneOrTwoWords(b.x[..], b.wds);
    assert b.x[..][..b.wds] == b.x[..b.wds];
  }

  lemma OneOrTwoWords(s: seq<word>, n: nat)
    requires |s| == 2 && 1 <= n <= 2 && (n == 1 ==> s[1] == 0)
    ensures Val(s[..n]) == s[1] * BASE + s[0]
  {
    hide *;
    WeightNext(0);
    ValNext(s, 1);
    SingleWord(s[..1]);
    assert s[..2] == s;
    WeightOne(s[1], Weight(1));
  }

  lemma WeightOne(x: word, w: nat)
    requires w == BASE
    ensures x * w == x * BASE && (x == 0 ==> x * w == 0)
  {
  }
}
