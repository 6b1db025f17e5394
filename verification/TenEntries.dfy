/** The exact entries of the 96-bit table of powers of ten, those from 10^0 to 10^41
    (nolibc/dtoa.c:753-794), and why strtod need not look at the word its exact branch drops
    (nolibc/dtoa.c:3922-3989): the two products of weight 2^32 never add up to 2^64 with nothing
    left in the word above. */
module TenEntries {
  import opened Arith

  const W: nat := 0x1_0000_0000

  /** The significand x * 2^32 + y times the entry b0, b1, b2 shows nothing below its 96 leading
      bits but a carry, although its lowest product x * b2 + y * b1 was not zero. */
  ghost predicate Cancels(b0: nat, b1: nat, b2: nat, x: nat, y: nat) {
    && 0 < x < W && 0 < y < W
    && x * b2 + y * b1 == W * W && (x * b1 + y * b0) % W == 0
  }

  // ---------- the fourteen entries with a third word ----------

  /** For these ten no significand brings the lowest products to 2^64. */
  lemma OutOfReach(x: nat, y: nat)
    ensures !Cancels(0xa18f_07d7, 0x36b9_0be5, 0x5000_0000, x, y) // 10^29
    ensures !Cancels(0xc9f2_c9cd, 0x0467_4ede, 0xa400_0000, x, y) // 10^30
    ensures !Cancels(0xfc6f_7c40, 0x4581_2296, 0x4d00_0000, x, y) // 10^31
    ensures !Cancels(0x9dc5_ada8, 0x2b70_b59d, 0xf020_0000, x, y) // 10^32
    ensures !Cancels(0xc537_1912, 0x364c_e305, 0x6c28_0000, x, y) // 10^33
    ensures !Cancels(0x9a13_0b96, 0x3a6c_115c, 0x3c7f_4000, x, y) // 10^35
    ensures !Cancels(0xf0bd_c21a, 0xbb48_db20, 0x1e86_d400, x, y) // 10^37
    ensures !Cancels(0x9676_9950, 0xb50d_88f4, 0x1314_4480, x, y) // 10^38
    ensures !Cancels(0xbc14_3fa4, 0xe250_eb31, 0x17d9_55a0, x, y) // 10^39
    ensures !Cancels(0xeb19_4f8e, 0x1ae5_25fd, 0x5dcf_ab08, x, y) // 10^40
  {
  }

  /** The integer solutions of x * b2 + y * b1 = x0 * b2 + y0 * b1, for b1 = g * p and b2 = g * q
      with p and q coprime, as u and w witness. */
  lemma Solutions(g: nat, p: nat, q: nat, u: int, w: int, x0: int, y0: int, x: int, y: int) returns (t: int)
    requires 0 < g && u * q + w * p == 1 && x * (g * q) + y * (g * p) == x0 * (g * q) + y0 * (g * p)
    ensures x == x0 + t * p && y == y0 - t * q
  {
    t := u * (y0 - y) + w * (x - x0);
    Assoc(x - x0, q, g);
    Assoc(y0 - y, p, g);
    Distribute(x, x0, g * q);
    Distribute(y0, y, g * p);
    SameMultiple((x - x0) * q, (y0 - y) * p, g);
    Multiple(p, q, u, w, x - x0, y0 - y);
  }

  lemma SameMultiple(a: int, b: int, g: nat)
    requires 0 < g && a * g == b * g
    ensures a == b
  {
    if a < b {
      MulMono(a + 1, b, g);
    } else if b < a {
      MulMono(b + 1, a, g);
    }
  }

  lemma Multiple(p: int, q: int, u: int, w: int, dx: int, dy: int)
    requires dx * q == dy * p && u * q + w * p == 1
    ensures dx == (u * dy + w * dx) * p && dy == (u * dy + w * dx) * q
  {
    calc {
      (u * dy + w * dx) * p;
      u * (dy * p) + w * p * dx;
      u * (dx * q) + w * p * dx;
      (u * q + w * p) * dx;
    }
    calc {
      (u * dy + w * dx) * q;
      u * q * dy + w * (dx * q);
      u * q * dy + w * (dy * p);
      (u * q + w * p) * dy;
    }
  }

  lemma NoneAt28(x: nat, y: nat)
    ensures !Cancels(0x813f_3978, 0xf894_0984, 0x4000_0000, x, y)
  {
    if x * 0x4000_0000 + y * 0xf894_0984 == W * W {
      var t := Solutions(4, 1_042_612_833, 268_435_456, -214_614_155, 55_255_457, 498_063_856, 4_294_967_296, x, y);
    }
  }

  lemma NoneAt34(x: nat, y: nat)
    ensures !Cancels(0xf684_df56, 0xc3e0_1bc6, 0xc732_0000, x, y)
  {
    if x * 0xc732_0000 + y * 0xc3e0_1bc6 == W * W {
      var t := Solutions(2, 1_643_122_147, 1_670_971_392, 92_629_879, -94_199_861, 1_606_033_543, 3_980_066_816, x, y);
    }
  }

  lemma NoneAt36(x: nat, y: nat)
    ensures !Cancels(0xc097_ce7b, 0xc907_15b3, 0x4b9f_1000, x, y)
  {
    if x * 0x4b9f_1000 + y * 0xc907_15b3 == W * W {
      var t := Solutions(1, 3_372_684_723, 1_268_715_520, -445_213_466, 167_477_627, 1_212_214_471, 5_013_450_752, x, y);
    }
  }

  lemma NoneAt41(x: nat, y: nat)
    ensures !Cancels(0x92ef_d1b8, 0xd0cf_37be, 0x5aa1_cae5, x, y)
  {
    if x * 0x5aa1_cae5 + y * 0xd0cf_37be == W * W {
      var t := Solutions(1, 3_503_241_150, 1_520_552_677, -614_960_387, 266_918_440, 3_469_315_558, 3_759_794_559, x, y);
    }
  }

  // ---------- which words an exact entry has ----------

  lemma FivesFrom27()
    ensures Pow5(27) == 7_450_580_596_923_828_125
    ensures Pow5(28) == 37_252_902_984_619_140_625
    ensures Pow5(29) == 186_264_514_923_095_703_125
    ensures Pow5(30) == 931_322_574_615_478_515_625
    ensures Pow5(31) == 4_656_612_873_077_392_578_125
    ensures Pow5(32) == 23_283_064_365_386_962_890_625
    ensures Pow5(33) == 116_415_321_826_934_814_453_125
    ensures Pow5(34) == 582_076_609_134_674_072_265_625
    ensures Pow5(35) == 2_910_383_045_673_370_361_328_125
    ensures Pow5(36) == 14_551_915_228_366_851_806_640_625
    ensures Pow5(37) == 72_759_576_141_834_259_033_203_125
    ensures Pow5(38) == 363_797_880_709_171_295_166_015_625
    ensures Pow5(39) == 1_818_989_403_545_856_475_830_078_125
    ensures Pow5(40) == 9_094_947_017_729_282_379_150_390_625
    ensures Pow5(41) == 45_474_735_088_646_411_895_751_953_125
  {
    assert Pow5(1) == 5 && Pow5(5) == 3125 && Pow5(7) == 78125;
    Pow5Add(5, 5);
    Pow5Add(10, 10);
    Pow5Add(20, 7);
  }

  /** A 96-bit number in its three words. */
  ghost predicate Is(s: nat, b0: nat, b1: nat, b2: nat) {
    0x8000_0000 <= b0 < W && b1 < W && b2 < W && s == (b0 * W + b1) * W + b2
  }

  /** Up to 10^27 the third word is zero. */
  lemma ShortPower(k: nat, j: nat, b0: nat, b1: nat, b2: nat)
    requires k <= 27 && Is(Pow5(k) * Pow2(j), b0, b1, b2)
    ensures b2 == 0
  {
    FivesFrom27();
    Pow5Mono(k, 27);
    Pow2Values();
    MulMono(Pow5(k), Pow5(27), Pow2(j));
    if j <= 31 {
      Pow2Mono(j, 31);
    } else {
      Pow2Add(j - 32, 32);
      Assoc(Pow5(k), Pow2(j - 32), W);
      DivModUnique(Pow5(k) * Pow2(j), W, Pow5(k) * Pow2(j - 32), 0);
      DivModUnique(Pow5(k) * Pow2(j), W, b0 * W + b1, b2);
    }
  }

  lemma SizeOf(s: nat, b0: nat, b1: nat, b2: nat)
    requires Is(s, b0, b1, b2)
    ensures W * W * W <= 2 * s < 2 * (W * W * W)
  {
  }

  /** Normalised, a number has only one power of two beside it. */
  lemma OnlyOne(a: nat, j: nat, b0: nat, b1: nat, b2: nat, i: nat, c0: nat, c1: nat, c2: nat)
    requires Is(a * Pow2(j), b0, b1, b2) && Is(a * Pow2(i), c0, c1, c2)
    ensures b0 == c0 && b1 == c1 && b2 == c2
  {
    SizeOf(a * Pow2(j), b0, b1, b2);
    SizeOf(a * Pow2(i), c0, c1, c2);
    if i < j {
      Doubles(a, i, j);
    } else if j < i {
      Doubles(a, j, i);
    }
    hide Pow2;
    SameWords(a * Pow2(j), b0, b1, b2, c0, c1, c2);
  }

  lemma Doubles(a: nat, lo: nat, hi: nat)
    requires lo < hi
    ensures 2 * (a * Pow2(lo)) <= a * Pow2(hi)
  {
    Pow2Mono(lo, hi);
    MulMono(2 * Pow2(lo), Pow2(hi), a);
    Assoc(a, 2, Pow2(lo));
  }

  lemma SameWords(s: nat, b0: nat, b1: nat, b2: nat, c0: nat, c1: nat, c2: nat)
    requires Is(s, b0, b1, b2) && Is(s, c0, c1, c2)
    ensures b0 == c0 && b1 == c1 && b2 == c2
  {
    DivModUnique(s, W, b0 * W + b1, b2);
    DivModUnique(s, W, c0 * W + c1, c2);
    DivModUnique(b0 * W + b1, W, b0, b1);
    DivModUnique(c0 * W + c1, W, c0, c1);
  }

  lemma LongPower(k: nat, j: nat, b0: nat, b1: nat, b2: nat, x: nat, y: nat)
    requires 28 <= k <= 41 && Is(Pow5(k) * Pow2(j), b0, b1, b2)
    ensures !Cancels(b0, b1, b2, x, y)
  {
    FivesFrom27();
    SmallTwos();
    OutOfReach(x, y);
    hide Pow5, Pow2, Cancels;
    match k {
      case 28 =>
        NoneAt28(x, y);
        OnlyOne(Pow5(k), j, b0, b1, b2, 30, 0x813f_3978, 0xf894_0984, 0x4000_0000);
      case 29 =>
        OnlyOne(Pow5(k), j, b0, b1, b2, 28, 0xa18f_07d7, 0x36b9_0be5, 0x5000_0000);
      case 30 =>
        OnlyOne(Pow5(k), j, b0, b1, b2, 26, 0xc9f2_c9cd, 0x0467_4ede, 0xa400_0000);
      case 31 =>
        OnlyOne(Pow5(k), j, b0, b1, b2, 24, 0xfc6f_7c40, 0x4581_2296, 0x4d00_0000);
      case 32 =>
        OnlyOne(Pow5(k), j, b0, b1, b2, 21, 0x9dc5_ada8, 0x2b70_b59d, 0xf020_0000);
      case 33 =>
        OnlyOne(Pow5(k), j, b0, b1, b2, 19, 0xc537_1912, 0x364c_e305, 0x6c28_0000);
      case 34 =>
        NoneAt34(x, y);
        OnlyOne(Pow5(k), j, b0, b1, b2, 17, 0xf684_df56, 0xc3e0_1bc6, 0xc732_0000);
      case 35 =>
        OnlyOne(Pow5(k), j, b0, b1, b2, 14, 0x9a13_0b96, 0x3a6c_115c, 0x3c7f_4000);
      case 36 =>
        NoneAt36(x, y);
        OnlyOne(Pow5(k), j, b0, b1, b2, 12, 0xc097_ce7b, 0xc907_15b3, 0x4b9f_1000);
      case 37 =>
        OnlyOne(Pow5(k), j, b0, b1, b2, 10, 0xf0bd_c21a, 0xbb48_db20, 0x1e86_d400);
      case 38 =>
        OnlyOne(Pow5(k), j, b0, b1, b2, 7, 0x9676_9950, 0xb50d_88f4, 0x1314_4480);
      case 39 =>
        OnlyOne(Pow5(k), j, b0, b1, b2, 5, 0xbc14_3fa4, 0xe250_eb31, 0x17d9_55a0);
      case 40 =>
        OnlyOne(Pow5(k), j, b0, b1, b2, 3, 0xeb19_4f8e, 0x1ae5_25fd, 0x5dcf_ab08);
      case 41 =>
        NoneAt41(x, y);
        OnlyOne(Pow5(k), j, b0, b1, b2, 0, 0x92ef_d1b8, 0xd0cf_37be, 0x5aa1_cae5);
    }
  }

  lemma SmallTwos()
    ensures Pow2(0) == 1 && Pow2(3) == 8 && Pow2(5) == 0x20 && Pow2(7) == 0x80
    ensures Pow2(10) == 0x400 && Pow2(12) == 0x1000 && Pow2(14) == 0x4000 && Pow2(17) == 0x2_0000
    ensures Pow2(19) == 0x8_0000 && Pow2(21) == 0x20_0000 && Pow2(24) == 0x100_0000
    ensures Pow2(26) == 0x400_0000 && Pow2(28) == 0x1000_0000 && Pow2(30) == 0x4000_0000
  {
    assert Pow2(7) == 0x80;
    Pow2Add(7, 7);
    assert Pow2(17) == 8 * Pow2(14);
    Pow2Add(14, 14);
    Pow2Add(14, 7);
    Pow2Add(14, 10);
    Pow2Add(14, 12);
  }

  /** No exact entry lets the dropped words cancel. */
  lemma NeverCancels(k: nat, j: nat, b0: nat, b1: nat, b2: nat, x: nat, y: nat)
    requires k <= 41 && Is(Pow5(k) * Pow2(j), b0, b1, b2)
    ensures !Cancels(b0, b1, b2, x, y)
  {
    if k <= 27 {
      ShortPower(k, j, b0, b1, b2);
      if y < W {
        BelowSquare(y, b1);
      }
    } else {
      LongPower(k, j, b0, b1, b2, x, y);
    }
  }

  lemma BelowSquare(y: nat, b: nat)
    requires y < W && b < W
    ensures y * b < W * W
  {
    MulMono(y, W, b);
  }
}
