/** The table of powers of ten around the fast path (nolibc/dtoa.c:410-1077 and 3838-3843), and the
    input on which it reads a subnormal as zero. */
module Bf96Table {
  import opened Arith
  import opened Double
  import opened TenEntries
  import opened Bf96Products
  import opened Bf96Subnormal
  import opened Bf96

  // ---------- the table and its range ----------

  /** pten: entry k is the truncation of 10^(k - 342). */
  ghost predicate IsTable(table: seq<Entry>) {
    |table| >= 651 && forall k | 0 <= k <= 650 :: Truncates(table[k], k - 342)
  }

  lemma Fractional(d: nat, e1: int, dropped: nat)
    requires e1 < 0
    ensures Numer(d, e1) == d * 1 * Pow2(1074) && Denom(e1, dropped) == Pow10(-e1) * Pow10(dropped)
  {
    hide Pow2, Pow10;
  }

  lemma Integral(d: nat, e1: int, dropped: nat)
    requires e1 > 0
    ensures Numer(d, e1) == d * Pow10(e1) * Pow2(1074) && Denom(e1, dropped) == 1 * Pow10(dropped)
  {
    hide Pow2, Pow10;
  }

  lemma FirstMags()
    ensures Mag(0) == 0 && Mag(1) == 1
  {
  }

  /** Below 10^-342 every significand of 19 digits gives less than half the least subnormal. */
  lemma TooSmall(d: nat, yz: nat, dropped: nat, e1: int)
    requires e1 < -342 && yz < 10_000_000_000_000_000_000 && Leading(d, yz, dropped)
    ensures IsNearestEven(0, Numer(d, e1), Denom(e1, dropped))
  {
    hide Pow2, Pow10, Numer, Denom, Mag, Leading;
    var t, k := Pow10(dropped), Pow2(1074);
    LeadingBounds(d, yz, dropped);
    Fractional(d, e1, dropped);
    FirstMags();
    TenTo19();
    TenTo324();
    Pow2Next(1074);
    Pow10Add(324, 19);
    Pow10Mono(343, -e1);
    SmallValue(d, yz, t, k, Pow10(324), Pow10(-e1));
  }

  lemma SmallValue(d: nat, yz: nat, t: nat, k: nat, w: nat, x: nat)
    requires yz < 10_000_000_000_000_000_000 && d < (yz + 1) * t && 0 < t && 0 < k
    requires 2 * k <= w && w * 10_000_000_000_000_000_000 <= x
    ensures 2 * (d * 1 * k) < x * t
  {
    MulMono(yz + 1, 10_000_000_000_000_000_000, t);
    Below(d, 10_000_000_000_000_000_000 * t, k);
    Assoc(10_000_000_000_000_000_000, t, k);
    MulMono(2 * k, w, t);
    Assoc(2, k, t);
    MulMono(w * 10_000_000_000_000_000_000, x, t);
    Assoc(w, 10_000_000_000_000_000_000, t);
  }

  lemma LeadingBounds(d: nat, yz: nat, dropped: nat)
    requires Leading(d, yz, dropped)
    ensures yz * Pow10(dropped) <= d < (yz + 1) * Pow10(dropped)
  {
    var t := Pow10(dropped);
    if dropped == 0 {
      assert t == 1;
    } else {
      hide Pow10;
      DivModDef(d, t);
      Distribute(yz, 1, t);
    }
  }

  lemma TenTo19()
    ensures Pow10(19) == 10_000_000_000_000_000_000
  {
    Pow10Add(10, 9);
    Pow10Add(5, 5);
    Pow10Add(5, 4);
    assert Pow10(4) == 10000 && Pow10(5) == 100000;
    hide Pow10;
  }

  /** From 10^309 on every significand overflows. */
  lemma TooLarge(d: nat, yz: nat, dropped: nat, e1: int)
    requires e1 > 308 && 0 < yz && Leading(d, yz, dropped)
    ensures IsNearestEven(INFINITY, Numer(d, e1), Denom(e1, dropped))
  {
    hide *;
    var t, k := Pow10(dropped), Pow2(1074);
    LeadingBounds(d, yz, dropped);
    Integral(d, e1, dropped);
    TenTo309();
    Pow10Mono(309, e1);
    Pow2Add(52, 2046);
    Pow2Add(1024, 1074);
    HiddenIs();
    LargeValue(d, yz, t, k, Pow10(e1), Pow2(1024), Pow2(2046));
    OverflowIsNearest(Numer(d, e1), Denom(e1, dropped), 2046);
  }

  lemma HiddenIs()
    ensures Pow2(52) == HIDDEN
  {
    Pow2Values();
  }

  lemma LargeValue(d: nat, yz: nat, t: nat, k: nat, x: nat, w: nat, y: nat)
    requires yz * t <= d && 0 < yz && w <= x && HIDDEN * y == w * k
    ensures HIDDEN * (y * (1 * t)) <= d * x * k
  {
    MulMono(1, yz, t);
    MulMono(t, d, w * k);
    MulMono(w, x, d * k);
    Assoc(HIDDEN, y, t);
    Assoc(d, w, k);
    Assoc(d, x, k);
    Assoc(x, d, k);
    Assoc(w, d, k);
  }

  /** The range tests and the table around the fast path (dtoa.c:3838-3843). */
  method Scaled(table: seq<Entry>, yz: nat, nd: nat, e1: int, ghost d: nat, ghost dropped: nat) returns (r: Outcome)
    requires IsTable(table) && 0 < yz < 10_000_000_000_000_000_000
    requires Leading(d, yz, dropped) && (nd <= 19 <==> dropped == 0)
    requires nd > 19 ==> 1_000_000_000_000_000_000 <= yz
    ensures Justified(r, Numer(d, e1), Denom(e1, dropped), -342 <= e1 <= 308 && CutToHalf(yz, table[e1 + 342]))
  {
    Outcomes(Numer(d, e1), Denom(e1, dropped));
    hide IsNearestEven, Justified, Numer, Denom, Truncates, Leading, CutToHalf;
    var i := e1 + 342;
    if i < 0 {
      TooSmall(d, yz, dropped, e1);
      return Bits(0);
    }
    if i > 650 {
      TooLarge(d, yz, dropped, e1);
      return Bits(INFINITY);
    }
    r := FastPath(yz, nd, e1, table[i], d, dropped);
  }

  // ---------- a cut to half ----------

  /** The entry of 10^-342, the first of the table (dtoa.c:411). */
  const LEAST_ENTRY := Entry(0xeef4_53d6, 0x923b_d65a, 0x113f_aa29, -1136)

  lemma FiveTo108()
    ensures Pow5(108) == 3081487911019577364889564708135883709660962637144621112383902072906494140625
  {
    hide Pow5;
    FiveTo27();
    Pow5Add(27, 27);
    Pow5Add(54, 54);
  }

  lemma FiveTo342(f: nat)
    requires f == Pow5(108)
    ensures Pow5(342) == f * f * f * 3814697265625
  {
    hide Pow5;
    Pow5Add(108, 108);
    Pow5Add(216, 108);
    Pow5Add(324, 18);
    FiveTo18();
  }

  lemma FiveTo18()
    ensures Pow5(18) == 3814697265625
  {
    Pow5Add(9, 9);
    Pow5Add(5, 4);
    assert Pow5(4) == 625 && Pow5(5) == 3125;
    hide Pow5;
  }

  lemma TwoTo890(b: nat)
    requires b == Pow2(256)
    ensures Pow2(890) == b * b * b * 0x400_0000_0000_0000_0000_0000_0000_0000
    ensures b == 0x1_0000000000000000_0000000000000000_0000000000000000_0000000000000000
  {
    hide Pow2;
    Pow2Add(256, 256);
    Pow2Add(512, 256);
    Pow2Add(768, 122);
    Pow2Values();
    Pow2Add(64, 64);
    Pow2Add(128, 128);
    TwoToTen();
    Pow2Add(48, 10);
    Pow2Add(64, 58);
  }

  lemma LeastCut(f: nat, b: nat)
    requires f == 3081487911019577364889564708135883709660962637144621112383902072906494140625
    requires b == 0x1_0000000000000000_0000000000000000_0000000000000000_0000000000000000
    ensures LEAST_ENTRY.Sig() == 73952806152024657265011173929
    ensures LEAST_ENTRY.Sig() * (f * f * f * 3814697265625) <= b * b * b * 0x400_0000_0000_0000_0000_0000_0000_0000
    ensures b * b * b * 0x400_0000_0000_0000_0000_0000_0000_0000
      < (LEAST_ENTRY.Sig() + 1) * (f * f * f * 3814697265625)
  {
  }

  lemma LeastEntryTruncates()
    ensures Truncates(LEAST_ENTRY, -342)
  {
    hide Pow2, Pow5, Pow10, Entry.Sig;
    var p, x, y, t := LEAST_ENTRY, Pow5(342), Pow2(890), Pow2(342);
    FiveTo108();
    FiveTo342(Pow5(108));
    TwoTo890(Pow2(256));
    LeastCut(Pow5(108), Pow2(256));
    TenIsFiveTwo(342);
    Pow2Add(890, 342);
    var s := p.Sig();
    assert s * x <= y < (s + 1) * x;
    assert Twos(-1232) == 1 && Tens(-342) == 1 && Tens(342) == x * t && Twos(1232) == y * t;
    hide *;
    MulMono(s * x, y, t);
    MulMono(y + 1, (s + 1) * x, t);
    Distribute(y, 1, t);
    Assoc(s, x, t);
    Assoc(s + 1, x, t);
    TruncatesAt(p, 1, x * t, 1, y * t);
  }

  lemma TruncatesAt(p: Entry, a: nat, b: nat, c: nat, d: nat)
    requires p == LEAST_ENTRY && a == Twos(-1232) && b == Tens(342) && c == Tens(-342) && d == Twos(1232)
    requires p.Sig() * (a * b) <= c * d < (p.Sig() + 1) * (a * b)
    ensures Truncates(p, -342)
  {
    hide Twos, Tens;
  }

  /** 2470328229206232721e-342, just above half the least subnormal: its product cut to 64 bits is
      that half exactly, and neither stage gives up on it. */
  lemma CutToHalfExample()
    ensures Truncates(LEAST_ENTRY, -342) && CutToHalf(2470328229206232721, LEAST_ENTRY)
    ensures Away(Product(Lead(2470328229206232721), LEAST_ENTRY))
  {
    LeastEntryTruncates();
    var y: nat, full := 2470328229206232721, 9881312916824930884 * 73952806152024657265011173929;
    assert Pow2(2) == 4;
    LeadIs(y, 2);
    assert LEAST_ENTRY.Sig() == 73952806152024657265011173929;
    ProductIs(Lead(y), LEAST_ENTRY);
    hide *;
    HalfProduct(full);
    CutHalf(y, full);
  }

  lemma HalfProduct(full: nat)
    requires full == 9881312916824930884 * 73952806152024657265011173929
    ensures full / P96 == TOP && Away(full)
  {
    DivModUnique(full, P96, TOP, 34656070378231347115161451748);
    DivModUnique(full, P64, TOP * W + 1878709339, full - (TOP * W + 1878709339) * P64);
    DivModUnique(TOP * W + 1878709339, W, TOP, 1878709339);
    DivModUnique(TOP * W + 1878709339, 2 * H41, TOP / 0x400, 1878709339);
  }

  lemma CutHalf(y: nat, full: nat)
    requires 0 < y && full == Product(Lead(y), LEAST_ENTRY) && full / P96 == TOP && Places(y) == 2
    ensures CutToHalf(y, LEAST_ENTRY)
  {
  }

  /** That input comes out as zero, where the least subnormal is nearest. */
  method ReadAsZero() returns (r: Outcome)
    ensures r == Bits(0) && !IsNearestEven(0, Numer(2470328229206232721, -342), Denom(-342, 0))
    ensures IsNearestEven(1, Numer(2470328229206232721, -342), Denom(-342, 0))
  {
    CutToHalfExample();
    assert Leading(2470328229206232721, 2470328229206232721, 0);
    hide *;
    r := FastPath(2470328229206232721, 19, -342, LEAST_ENTRY, 2470328229206232721, 0);
    Cut(r, Numer(2470328229206232721, -342), Denom(-342, 0));
  }

  lemma Cut(r: Outcome, v: nat, u: nat)
    requires r.Bits? && Justified(r, v, u, true)
    ensures r.bits == 0 && !IsNearestEven(0, v, u) && IsNearestEven(1, v, u)
  {
    hide IsNearestEven;
  }
}
