/** The 96-bit fast path of strtod (nolibc/dtoa.c:3844-4117): three 32 x 32 products and, when those
    leave the rounding open, two more, down to subnormal results. */
module Bf96 {
  import opened Arith
  import opened Double
  import opened TenEntries
  import opened Bf96Products
  import opened Bf96Subnormal

  // ---------- far from the halves ----------

  /** Three units of 2^96 and more away from the multiples of half the last place. */
  ghost predicate FarFromHalves(full: nat) {
    var half := if TOP * P96 <= full then 0x400 * P96 else 0x200 * P96;
    3 * P96 <= full % half < half - 2 * P96
  }

  lemma FarAccepts(full: nat, t00: nat)
    requires t00 * P96 <= full < (t00 + 3) * P96 && FarFromHalves(full)
    ensures TOP <= t00 ==> 1 <= t00 % 0x400 < 0x3fe
    ensures t00 < TOP ==> 1 <= t00 % 0x200 < 0x1fe
  {
    var k: nat := if TOP * P96 <= full then 0x400 else 0x200;
    DivModDef(t00, k);
    DivModDef(full, k * P96);
    FarModulo(full, t00, k, P96, full - t00 * P96);
    if TOP * P96 <= full && t00 < TOP {
      DivModUnique(full, 0x400 * P96, TOP / 0x400, full - TOP * P96);
    }
  }

  lemma FarModulo(full: nat, t: nat, k: nat, unit: nat, delta: nat)
    requires 3 <= k && 0 < unit && full == t * unit + delta && delta < 3 * unit
    requires 0 < k * unit && 3 * unit <= full % (k * unit) < k * unit - 2 * unit
    ensures 1 <= t % k < k - 2
  {
    var q, m := full / (k * unit), full % (k * unit);
    DivModDef(full, k * unit);
    var rest := t - q * k;
    assert rest * unit == m - delta by {
      Distribute(t, q * k, unit);
      Assoc(q, k, unit);
    }
    if rest <= 0 {
      MulMono(rest, 0, unit);
    }
    if rest >= k - 2 {
      MulMono(k - 2, rest, unit);
      Distribute(k, 2, unit);
    }
    DivModUnique(t, k, q, rest);
  }

  // ---------- five products ----------

  /** The 96-bit approximation in its two parts. */
  lemma SplitF(f: nat, t00: nat, low: nat)
    requires f == t00 * W + low && low < W
    ensures f / (4 * H41) == t00 / 0x800 && f / (2 * H41) == t00 / 0x400 && f / H41 == t00 / 0x200
    ensures f % (2 * H41) == t00 % 0x400 * W + low && f % H41 == t00 % 0x200 * W + low
    ensures f % (2 * H41) == 0 <==> t00 % 0x400 == 0 && low == 0
    ensures f % H41 == 0 <==> t00 % 0x200 == 0 && low == 0
    ensures (TOP <= t00 <==> TOP * W <= f) && (t00 < 2 * TOP <==> f < 2 * TOP * W)
  {
    DivModUnique(f, W, t00, low);
    DivDiv(f, W, 0x800);
    DivDiv(f, W, 0x400);
    DivDiv(f, W, 0x200);
    DivModUnique(f, 2 * H41, f / (2 * H41), t00 % 0x400 * W + low);
    DivModUnique(f, H41, f / H41, t00 % 0x200 * W + low);
  }

  /** The 96-bit approximation F = full / 2^64 (to within 3) settles the rounding. */
  lemma FiveSuffice(v: nat, u: nat, i: nat, pe: int, full: nat, brv: nat, ext: nat, f: nat, half: nat, c: nat, n: nat)
    requires Known(v, u, i, pe, full, brv, ext) && n + i == pe + 1074 + c
    requires 0 < half && Pow2(c) == 2 * half * P64
    requires f * P64 <= full && full + brv < (f + 3) * P64
    requires 1 <= f % half && f % half + 3 + ext * W <= half
    ensures Split(v, Pow2(n) * u, Whole(f, half), if f / half % 2 == 1 then 3 else 1)
  {
    hide Window, Split, Whole;
    Decide(v, u, i, pe, full, full + brv + ext * P96, f, 3 + ext * W, half, P64, c, n);
  }

  lemma AcceptTop96(v: nat, u: nat, i: nat, pe: int, full: nat, brv: nat, ext: nat, f: nat, n: nat)
    requires Known(v, u, i, pe, full, brv, ext) && n + i == pe + 1074 + 107
    requires TOP * W <= f < 2 * TOP * W && f * P64 <= full && full + brv < (f + 3) * P64
    requires 1 <= f % (2 * H41) && f % (2 * H41) + 3 + ext * W <= 2 * H41
    ensures IsNearestEven(Capped(f / (4 * H41) + Carry(f / (2 * H41) % 2 == 1), n), v, u)
  {
    hide Known, Window, Split, IsNearestEven, Capped, Carry, RoundsUp, Whole, Pow2;
    KnownSize(v, u, i, pe, full, brv, ext);
    LargePowers();
    FiveSuffice(v, u, i, pe, full, brv, ext, f, 2 * H41, 107, n);
    OffHalves(v, u, f / (4 * H41), n, f / (2 * H41) % 2 == 1);
  }

  lemma AcceptNext96(v: nat, u: nat, i: nat, pe: int, full: nat, brv: nat, ext: nat, f: nat, n: nat)
    requires Known(v, u, i, pe, full, brv, ext) && n + i == pe + 1074 + 106
    requires TOP / 2 * W <= f < TOP * W && f * P64 <= full && full + brv < (f + 3) * P64
    requires 1 <= f % H41 && f % H41 + 3 + ext * W <= H41
    ensures IsNearestEven(Capped(f / (2 * H41) + Carry(f / H41 % 2 == 1), n), v, u)
  {
    hide Known, Window, Split, IsNearestEven, Capped, Carry, RoundsUp, Whole, Pow2;
    KnownSize(v, u, i, pe, full, brv, ext);
    LargePowers();
    FiveSuffice(v, u, i, pe, full, brv, ext, f, H41, 106, n);
    OffHalves(v, u, f / (2 * H41), n, f / H41 % 2 == 1);
  }

  // ---------- exact powers of ten ----------

  /** Where an exactly known product falls: on a point or a middle only if nothing is dropped. */
  function ExactLost(f: nat, l: nat, half: nat): nat
    requires 0 < half
  {
    var bit := f / half % 2;
    if f % half == 0 && l == 0 then 2 * bit else 1 + 2 * bit
  }

  lemma PositionOfHalf(half: nat, bit: nat)
    requires 0 < half && bit <= 1
    ensures Position(bit * half, 2 * half) == 2 * bit
  {
  }

  lemma ExactSplit(v: nat, u: nat, i: nat, pe: int, full: nat, f: nat, l: nat, half: nat, c: nat, n: nat)
    requires 0 < u && Exact(v, u, i, pe, full) && n + i == pe + 1074 + c
    requires 0 < half && Pow2(c) == 2 * half * P64
    requires full == f * P64 + l && l < P64
    ensures Split(v, Pow2(n) * u, Whole(f, half), ExactLost(f, l, half))
  {
    hide Pow2, Exact, Split;
    ghost var bit := f / half % 2;
    if f % half == 0 && l == 0 {
      assert ExactLost(f, l, half) == 2 * bit;
      hide *;
      DecideExact(v, u, i, pe, f, half, P64, c, n);
      HalfOf(f, half);
      MulMono(bit, 1, half);
      DivModUnique(f, 2 * half, f / (2 * half), bit * half);
      PositionOfHalf(half, bit);
    } else {
      assert ExactLost(f, l, half) == 1 + 2 * bit;
      ExactWindow(v, u, i, pe, full);
      hide *;
      Decide(v, u, i, pe, full, full + 1, f, 1, half, P64, c, n);
    }
  }

  lemma ExactWindow(v: nat, u: nat, i: nat, pe: int, full: nat)
    requires 0 < u && Exact(v, u, i, pe, full)
    ensures Window(v, u, i, pe, full, full + 1)
  {
    UnitPositive(pe, u);
    Distribute(full, 1, Unit(pe, u));
  }

  /** With an exact power of ten, the upper branch is right: it does not look at the dropped
      word l, but on a half there is none. */
  lemma ExactTop(v: nat, u: nat, i: nat, pe: int, full: nat, f: nat, l: nat, n: nat, up: bool)
    requires 0 < u && Exact(v, u, i, pe, full) && n + i == pe + 1074 + 107
    requires full == f * P64 + l && l < P64 && TOP * W <= f < 2 * TOP * W
    requires f % (2 * H41) == 0 ==> l == 0
    requires up <==> f / (2 * H41) % 2 == 1 && (f % (2 * H41) != 0 || f / (4 * H41) % 2 == 1)
    ensures IsNearestEven(Capped(f / (4 * H41) + Carry(up), n), v, u)
  {
    var m, lost := f / (4 * H41), ExactLost(f, l, 2 * H41);
    LargePowers();
    ExactSplit(v, u, i, pe, full, f, l, 2 * H41, 107, n);
    hide Exact, Split, IsNearestEven, Capped;
    CappedNearest(v, u, m, n, lost, up);
  }

  /** One place lower it looks at a carry, which on a half is not there either. */
  lemma ExactNext(v: nat, u: nat, i: nat, pe: int, full: nat, f: nat, l: nat, n: nat, carry: bool, up: bool)
    requires 0 < u && Exact(v, u, i, pe, full) && n + i == pe + 1074 + 106
    requires full == f * P64 + l && l < P64 && TOP / 2 * W <= f < TOP * W
    requires f % H41 == 0 ==> (carry <==> l > 0)
    requires up <==> f / H41 % 2 == 1 && (f % H41 != 0 || f / (2 * H41) % 2 == 1 || carry)
    ensures IsNearestEven(Capped(f / (2 * H41) + Carry(up), n), v, u)
  {
    var m, lost := f / (2 * H41), ExactLost(f, l, H41);
    LargePowers();
    ExactSplit(v, u, i, pe, full, f, l, H41, 106, n);
    hide Exact, Split, IsNearestEven, Capped;
    CappedNearest(v, u, m, n, lost, up);
  }

  lemma FiveFits(k: nat)
    requires k <= 41
    ensures Pow5(k) < P96
  {
    Pow5Mono(k, 41);
    assert Pow5(1) == 5 && Pow5(5) == 3125;
    assert P96 == 79228162514264337593543950336;
    hide *;
    Pow5Add(5, 5);
    assert Pow5(10) == 9765625;
    Pow5Add(10, 10);
    assert Pow5(20) == 95367431640625;
    Pow5Add(20, 20);
    assert Pow5(40) == 9094947017729282379150390625;
    Pow5Add(40, 1);
  }

  lemma Sandwich(s: nat, q: nat, x: nat, r: nat)
    requires 0 < q && s * q <= x < (s + 1) * q && x == r * q
    ensures r == s
  {
    if r < s {
      MulMono(r + 1, s, q);
      Distribute(r, 1, q);
    } else if r > s {
      MulMono(s + 1, r, q);
    }
  }

  lemma ExponentSmall(s: nat, f: nat, a: nat, b: nat, t: nat)
    requires s * b <= f * a && f < t && t <= 2 * s && 0 < a
    ensures b < 2 * a
  {
    if 2 * a <= b {
      MulMono(2 * a, b, s);
      MulMono(f + 1, 2 * s, a);
      Distribute(f, 1, a);
      Assoc(s, 2, a);
    }
  }

  /** A truncation of 10^k / 2^n that keeps 96 bits keeps all of 5^k < 2^96. */
  lemma ExactTruncation(s: nat, k: nat, n: nat)
    requires k <= 41 && P96 / 2 <= s && s * Pow2(n) <= Pow10(k) < (s + 1) * Pow2(n)
    ensures n <= k && s == Pow5(k) * Pow2(k - n) && s * Pow2(n) == Pow10(k)
  {
    hide Pow2, Pow5, Pow10;
    FiveFits(k);
    TenIsFiveTwo(k);
    var f := Pow5(k);
    if n > k {
      Pow2Mono(k, n);
      ExponentSmall(s, f, Pow2(k), Pow2(n), P96);
    }
    Pow2Add(k - n, n);
    Assoc(f, Pow2(k - n), Pow2(n));
    MulMono(0, f, Pow2(k - n));
    Sandwich(s, Pow2(n), Pow10(k), f * Pow2(k - n));
  }

  /** Up to 10^41 nothing is cut off: 5^41 < 2^96. */
  lemma ExactPower(p: Entry, k: int) returns (j: nat)
    requires Truncates(p, k) && 0 <= k <= 41
    ensures p.Sig() == Pow5(k) * Pow2(j)
    ensures p.Sig() * (Twos(p.e - 96) * Tens(-k)) == Tens(k) * Twos(96 - p.e)
  {
    var s, pe := p.Sig(), p.e - 96;
    assert Tens(-k) == 1 && Tens(k) == Pow10(k) && P96 / 2 <= s;
    assert s * (Twos(pe) * Tens(-k)) <= Pow10(k) * Twos(-pe) < (s + 1) * (Twos(pe) * Tens(-k));
    if pe <= 0 {
      assert Twos(pe) == 1 && Twos(-pe) == Pow2(-pe);
      hide Pow2, Pow5, Pow10, Twos, Tens, Entry.Sig;
      j := k - pe;
      TenIsFiveTwo(k);
      Pow2Add(k, -pe);
      Assoc(Pow5(k), Pow2(k), Pow2(-pe));
    } else {
      assert Twos(-pe) == 1 && Twos(pe) == Pow2(pe);
      hide Pow2, Pow5, Pow10, Twos, Tens, Entry.Sig;
      ExactTruncation(s, k, pe);
      j := k - pe;
    }
  }

  lemma ExactProduct(d: nat, i: nat, brv: nat, p: Entry, e1: int)
    requires Truncates(p, e1) && 0 <= e1 <= 41 && brv == d * Pow2(i)
    ensures Exact(Numer(d, e1), Denom(e1, 0), i, p.e - 96, Product(brv, p))
  {
    var pe, k := p.e - 96, Pow2(1074);
    var j := ExactPower(p, e1);
    assert Pow10(0) == 1;
    assert Unit(pe, Denom(e1, 0)) == Twos(pe) * (Tens(-e1) * 1) * k;
    assert Numer(d, e1) * Scale(i, pe) == d * Tens(e1) * k * (Pow2(i) * Twos(-pe));
    assert Product(brv, p) == brv * p.Sig();
    hide Numer, Denom, Unit, Scale, Product, Truncates, Twos, Tens, Pow2, Pow10;
    ExactParts(d, Pow2(i), p.Sig(), Twos(pe), Tens(-e1), Tens(e1), Twos(-pe), k);
  }

  lemma ExactParts(d: nat, pw: nat, sig: nat, tw: nat, tn: nat, te: nat, tm: nat, k: nat)
    requires sig * (tw * tn) == te * tm
    ensures d * te * k * (pw * tm) == d * pw * sig * (tw * (tn * 1) * k)
  {
    RegroupValue(d, te, k, pw, tm);
    RegroupUnit(d * pw, 1, sig, tw, tn, k);
  }

  /** The carry out of tlo is set, on a half, exactly when a nonzero word was dropped. */
  lemma CarryMarksDropped(bhi: nat, blo: nat, b1: nat, b2: nat)
    requires 0 < bhi < W && blo < W && b1 < W && b2 < W
    requires (bhi * b2 + blo * b1) % W == 0 && (bhi * b2 + blo * b1) / W % W == 0
    ensures (bhi * b2 + blo * b1) / W != 0 <==> blo * b2 > 0
  {
    var m := bhi * b2 + blo * b1;
    var q := m / W / W;
    assert m == q * W * W && m / W == q * W by {
      DivModDef(m, W);
      DivModDef(m / W, W);
    }
    WordProduct(bhi, b2, W);
    WordProduct(blo, b1, W);
    assert q <= 1;
    MarksDropped(bhi, blo, b1, b2, q);
  }

  lemma MarksDropped(bhi: nat, blo: nat, b1: nat, b2: nat, q: nat)
    requires 0 < bhi < W && blo < W && b1 < W && b2 < W
    requires bhi * b2 + blo * b1 == q * W * W && q <= 1
    ensures q != 0 <==> blo * b2 > 0
  {
    WordProduct(bhi, b2, W);
    WordProduct(blo, b1, W);
    if q == 0 {
      if b2 > 0 {
        MulMono(1, b2, bhi);
      }
    } else if b2 > 0 && blo > 0 {
      MulMono(1, blo, b2);
    }
  }

  /** As no exact entry cancels, nothing was dropped and there is no carry. */
  lemma NothingDropped(bhi: nat, blo: nat, b0: nat, b1: nat, b2: nat)
    requires 0 < bhi < W && blo < W && b1 < W && b2 < W && !Cancels(b0, b1, b2, bhi, blo)
    requires (bhi * b1 + blo * b0) % W == 0
    requires (bhi * b2 + blo * b1) % W == 0 && (bhi * b2 + blo * b1) / W % W == 0
    ensures (bhi * b2 + blo * b1) / W == 0 && blo * b2 == 0
  {
    var m := bhi * b2 + blo * b1;
    CarryMarksDropped(bhi, blo, b1, b2);
    WordProduct(bhi, b2, W);
    WordProduct(blo, b1, W);
    assert m == m / W / W * (W * W);
    assert blo * b2 > 0 ==> blo > 0;
    assert m / W != 0 ==> m == W * W;
  }

  /** The exact entries are powers of five, shifted: none of them cancels. */
  lemma EntryNeverCancels(p: Entry, k: int, x: nat, y: nat)
    requires Truncates(p, k) && 0 <= k <= 41
    ensures !Cancels(p.b0, p.b1, p.b2, x, y)
  {
    var j := ExactPower(p, k);
    NeverCancels(k, j, p.b0, p.b1, p.b2, x, y);
  }

  // ---------- the fast path ----------

  /** The product by weight: b0 * bhi, the two cross products, the two after them, the last. */
  ghost predicate ByWeight(full: nat, brv: nat, top: nat, n: nat, m: nat, l: nat) {
    && full == ((top * W + n) * W + m) * W + l
    && m <= 2 * (W - 1) * (W - 1) && l <= (W - 1) * (W - 1) && brv < P64
  }

  lemma Gather(bhi: nat, blo: nat, p: Entry, top: nat, n: nat, m: nat, l: nat)
    requires p.Valid() && bhi < W && blo < W
    requires top == bhi * p.b0 && n == bhi * p.b1 + blo * p.b0
    requires m == bhi * p.b2 + blo * p.b1 && l == blo * p.b2
    ensures ByWeight(Product(bhi * W + blo, p), bhi * W + blo, top, n, m, l)
  {
    ProductParts(bhi, blo, p.b0, p.b1, p.b2, W);
    WordProduct(bhi, p.b2, W);
    WordProduct(blo, p.b1, W);
    WordProduct(blo, p.b2, W);
  }

  /** The source's t00, from its t01 and t10. */
  lemma FirstParts(full: nat, brv: nat, top: nat, t01: nat, c: nat, m: nat, l: nat, t10: nat, t00: nat)
    requires ByWeight(full, brv, top, t01 + c, m, l)
    requires t10 == c + t01 % W && t00 == top + t01 / W + t10 / W
    ensures t00 * P96 <= full && full + brv < (t00 + 3) * P96
    ensures t00 == top + (t01 + c) / W && t10 % W == (t01 + c) % W
  {
    CarryOf(t01, c, W);
    ThreeProducts(full, brv, top, t01 + c, m, l, t00);
  }

  /** The source's tlo, from its t02 and t11. */
  lemma MoreParts(full: nat, brv: nat, top: nat, n: nat, t02: nat, c: nat, l: nat, low: nat, t00: nat, t11: nat, tlo: nat)
    requires ByWeight(full, brv, top, n, t02 + c, l)
    requires low == n % W && t00 == top + n / W
    requires t11 == c + t02 % W && tlo == low + t02 / W + t11 / W
    ensures t11 % W == (t02 + c) % W && tlo == low + (t02 + c) / W
    ensures full == (t00 * W + tlo) * P64 + t11 % W * W + l && l < P64
    ensures full + brv < (t00 * W + tlo + 3) * P64
  {
    CarryOf(t02, c, W);
    FiveProducts(full, brv, top, n, t02 + c, l, t00, tlo);
  }

  lemma RoomTop(t00: nat, low: nat, ext: nat)
    requires TOP <= t00 < 2 * TOP && low + 0x10 < W && ext <= 16
    requires ext == 0 || (t00 + ext) % (2 * TOP) / 0x400 == t00 / 0x400
    ensures t00 % 0x400 * W + low + 3 + ext * W <= 2 * H41
  {
    SameCell(t00, ext, 0x400, 2 * TOP, 2 * TOP / 0x400);
    RoomIn(t00 % 0x400, low, ext, 0x400);
  }

  lemma RoomNext(t00: nat, low: nat, ext: nat)
    requires t00 < TOP && low + 0x10 < W && ext <= 16
    requires ext == 0 || (t00 + ext) % TOP / 0x200 == t00 / 0x200
    ensures t00 % 0x200 * W + low + 3 + ext * W <= H41
  {
    SameCell(t00, ext, 0x200, TOP, TOP / 0x200);
    RoomIn(t00 % 0x200, low, ext, 0x200);
  }

  /** A step modulo `top`, a multiple of the cell, that stays in the cell does not wrap. */
  lemma SameCell(t: nat, step: nat, cell: nat, top: nat, k: nat)
    requires 16 < cell && step <= 16 && t < top && top == k * cell && 2 <= k
    requires step == 0 || (t + step) % top / cell == t / cell
    ensures t % cell + step < cell
  {
    DivModDef(t, cell);
    if step > 0 && t % cell + step >= cell {
      Distribute(t / cell, 1, cell);
      Distribute(t / cell + 1, 1, cell);
      if t / cell + 1 < k {
        MulMono(t / cell + 2, k, cell);
        DivModUnique(t + step, top, 0, t + step);
        DivModUnique(t + step, cell, t / cell + 1, t % cell + step - cell);
      } else {
        LastCell(t, step, cell, top, k);
      }
    }
  }

  lemma LastCell(t: nat, step: nat, cell: nat, top: nat, k: nat)
    requires 16 < cell && 0 < step <= 16 && t < top == k * cell && 2 <= k
    requires t % cell + step >= cell && k <= t / cell + 1
    ensures (t + step) % top / cell != t / cell
  {
    DivModDef(t, cell);
    MulMono(k, t / cell + 1, cell);
    Distribute(t / cell, 1, cell);
    MulMono(2, k, cell);
    DivModUnique(t + step, top, 1, t + step - top);
    DivModUnique(t + step - top, cell, 0, t + step - top);
  }

  lemma RoomIn(r: nat, low: nat, ext: nat, cell: nat)
    requires r + ext < cell && low + 0x10 < W
    ensures r * W + low + 3 + ext * W <= cell * W
  {
    MulMono(r + ext + 1, cell, W);
    Distribute(r + ext, 1, W);
    Distribute(r, ext, W);
  }

  lemma NoCarryOut(tlo: nat)
    requires (tlo + 0x10) / W <= tlo / W
    ensures tlo % W + 0x10 < W
  {
  }

  lemma SizeOfF(full: nat, brv: nat, f: nat)
    requires TOP / 2 * P96 <= full < 2 * TOP * P96 && f * P64 <= full && full + brv < (f + 3) * P64
    ensures TOP / 2 * W - 2 <= f < 2 * TOP * W
    ensures f % W + 0x10 < W ==> TOP / 2 * W <= f
    ensures full < f * P64 + P64 ==> TOP / 2 * W <= f
  {
  }

  /** What the two halves of the second stage start from; l is the dropped lowest word product. */
  ghost predicate Approximated(v: nat, u: nat, i: nat, pe: int, full: nat, brv: nat, ext: nat,
                               f: nat, l: nat, tlo: nat, bexact: bool) {
    && Known(v, u, i, pe, full, brv, ext) && f * P64 <= full && full + brv < (f + 3) * P64
    && (bexact ==> Exact(v, u, i, pe, full) && full == f * P64 + l && l < P64)
    && (bexact && f % H41 == 0 ==> tlo == 0 && l == 0)
    && (!bexact ==> tlo % W + 0x10 < W)
  }

  /** An outcome that is right: an accepted pattern is nearest, ties to even, unless the value was
      cut to exactly half the least subnormal, which gives zero instead of that subnormal. */
  ghost predicate Justified(r: Outcome, v: nat, u: nat, cut: bool) {
    r.Bits? ==> (IsNearestEven(r.bits, v, u) <==> !cut) && (cut ==> r.bits == 0 && IsNearestEven(1, v, u))
  }

  lemma Outcomes(v: nat, u: nat)
    ensures forall cut: bool :: Justified(ManyDigits, v, u, cut)
    ensures forall b: nat :: IsNearestEven(b, v, u) ==> Justified(Bits(b), v, u, false)
  {
  }

  lemma SubnormalOutcome(r: Outcome, v: nat, u: nat, bits: nat, near: nat, cut: bool)
    requires 0 < u && IsNearestEven(near, v, u) && r == Bits(bits)
    requires bits == (if cut then 0 else near) && (cut ==> near == 1)
    ensures Justified(r, v, u, cut)
  {
    if cut && IsNearestEven(0, v, u) {
      hide IsNearestEven;
      NearestUnique(0, 1, v, u);
    }
  }

  lemma NormalOutcome(r: Outcome, v: nat, u: nat, t: nat, erv: int)
    requires 1 <= erv && Justified(r, v, u, false)
    ensures Justified(r, v, u, AtHalf(t, erv))
  {
  }

  /** t00 is the first 64 bits of the product in the end. */
  lemma TopWords(v: nat, u: nat, i: nat, pe: int, full: nat, brv: nat, ext: nat, f: nat, l: nat, t00: nat, tlo: nat,
                 bexact: bool)
    requires Approximated(v, u, i, pe, full, brv, ext, f, l, tlo, bexact) && f == t00 * W + tlo % W
    ensures full / P96 == t00
  {
    if bexact {
      assert full < (f + 1) * P64;
    } else {
      assert full < (f + 3) * P64;
    }
    DivModUnique(full, P96, t00, full - t00 * P96);
  }

  lemma StageWindow(v: nat, u: nat, i: nat, pe: int, full: nat, brv: nat, f: nat, l: nat, tlo: nat, bexact: bool)
    requires Approximated(v, u, i, pe, full, brv, 0, f, l, tlo, bexact)
    ensures 0 < u && Window(v, u, i, pe, full, full + brv) && TOP / 2 * P96 <= full < 2 * TOP * P96
    ensures f * P64 <= full && full + brv < (f + 3) * P64
    ensures bexact ==> Exact(v, u, i, pe, full) && full < (f + 1) * P64
    ensures !bexact ==> tlo % W + 0x10 < W
  {
    hide Window, Exact;
  }

  /** The subnormal results of the second stage. */
  lemma SubnormalStage(v: nat, u: nat, i: nat, pe: int, full: nat, brv: nat, f: nat, l: nat, t00: nat, tlo: nat,
                       bexact: bool, erv: int, half: nat)
    requires Approximated(v, u, i, pe, full, brv, 0, f, l, tlo, bexact)
    requires f == t00 * W + tlo % W && erv == 1182 + pe - i
    requires (half == 0x400 && erv <= 0 && TOP <= t00 < 2 * TOP) || (half == 0x200 && erv <= 1 && t00 < TOP)
    requires tlo % W >= 0x10 || t00 % half != 0
    ensures IsNearestEven(Rounded(t00, 12 - erv), v, u) && 0 < u && (half == 0x200 ==> TOP / 2 <= t00)
  {
    hide Window, Exact, Rounded;
    StageWindow(v, u, i, pe, full, brv, f, l, tlo, bexact);
    hide Approximated;
    LowBits(f, t00, tlo % W, half);
    SizeOfF(full, brv, f);
    if bexact {
      ExactWindow(v, u, i, pe, full);
      SubnormalNearest96(v, u, i, pe, full, full + 1, f, 1, t00, tlo % W, erv, half);
    } else {
      SubnormalNearest96(v, u, i, pe, full, full + brv, f, 3, t00, tlo % W, erv, half);
    }
  }

  lemma LowBits(f: nat, t00: nat, low: nat, half: nat)
    requires f == t00 * W + low && low < W && (half == 0x400 || half == 0x200) && (low >= 0x10 || t00 % half != 0)
    ensures 1 <= f % (half * W) && f % (half * W) + 1 <= half * W
    ensures low + 0x10 < W ==> f % (half * W) + 3 <= half * W
    ensures TOP / 2 * W <= f ==> TOP / 2 <= t00
  {
    DivModDef(t00, half);
    DivModUnique(f, half * W, t00 / half, t00 % half * W + low);
  }

  lemma UpperParts(full: nat, brv: nat, f: nat, l: nat, t00: nat, low: nat)
    requires TOP / 2 * P96 <= full < 2 * TOP * P96 && f * P64 <= full && full + brv < (f + 3) * P64
    requires f % H41 == 0 ==> l == 0
    requires TOP <= t00 && f == t00 * W + low && low < W
    ensures TOP * W <= f < 2 * TOP * W && (f % (2 * H41) == 0 ==> l == 0)
    ensures f / (4 * H41) == t00 / 0x800 && f / (2 * H41) == t00 / 0x400
    ensures f % (2 * H41) != 0 <==> low != 0 || t00 % 0x400 != 0
  {
    hide *;
    SplitF(f, t00, low);
    SizeOfF(full, brv, f);
    HalfOfWhole(f);
  }

  lemma HalfOfWhole(f: nat)
    ensures f % (2 * H41) == 0 ==> f % H41 == 0
  {
    DivModDef(f, 2 * H41);
    if f % (2 * H41) == 0 {
      DivModUnique(f, H41, f / (2 * H41) * 2, 0);
    }
  }

  lemma UpperExact(v: nat, u: nat, i: nat, pe: int, full: nat, brv: nat, ext: nat, f: nat, l: nat,
                   t00: nat, tlo: nat, n: nat, up: bool)
    requires Approximated(v, u, i, pe, full, brv, ext, f, l, tlo, true)
    requires TOP <= t00 && f == t00 * W + tlo % W && n + i == pe + 1074 + 107
    requires up <==> t00 / 0x400 % 2 == 1 && (tlo % W != 0 || t00 % 0x400 != 0 || t00 / 0x800 % 2 == 1)
    ensures IsNearestEven(Capped(t00 / 0x800 + Carry(up), n), v, u)
  {
    assert Known(v, u, i, pe, full, brv, ext) && Exact(v, u, i, pe, full) && f * P64 <= full && full + brv < (f + 3) * P64;
    assert full == f * P64 + l && l < P64 && 0 < u && (f % H41 == 0 ==> l == 0);
    assert TOP / 2 * P96 <= full < 2 * TOP * P96;
    hide *;
    UpperParts(full, brv, f, l, t00, tlo % W);
    ExactTop(v, u, i, pe, full, f, l, n, up);
  }

  lemma UpperNear(v: nat, u: nat, i: nat, pe: int, full: nat, brv: nat, ext: nat, f: nat, l: nat,
                  t00: nat, tlo: nat, n: nat)
    requires Approximated(v, u, i, pe, full, brv, ext, f, l, tlo, false)
    requires TOP <= t00 < 2 * TOP && f == t00 * W + tlo % W && n + i == pe + 1074 + 107
    requires tlo % W >= 0x10 || t00 % 0x400 != 0
    requires ext == 0 || (t00 + ext) % (2 * TOP) / 0x400 == t00 / 0x400
    ensures IsNearestEven(Capped(t00 / 0x800 + Carry(t00 / 0x400 % 2 == 1), n), v, u)
  {
    SplitF(f, t00, tlo % W);
    assert Known(v, u, i, pe, full, brv, ext) && ext <= 16 && tlo % W + 0x10 < W;
    assert f * P64 <= full && full + brv < (f + 3) * P64;
    hide *;
    RoomTop(t00, tlo % W, ext);
    AcceptTop96(v, u, i, pe, full, brv, ext, f, n);
  }

  lemma LowerExact(v: nat, u: nat, i: nat, pe: int, full: nat, brv: nat, ext: nat, f: nat, l: nat,
                   t00: nat, tlo: nat, n: nat, up: bool)
    requires Approximated(v, u, i, pe, full, brv, ext, f, l, tlo, true)
    requires t00 < TOP && f == t00 * W + tlo % W && n + i == pe + 1074 + 106
    requires up <==> t00 / 0x200 % 2 == 1 && (t00 % 0x200 != 0 || t00 / 0x400 % 2 == 1 || tlo != 0)
    ensures IsNearestEven(Capped(t00 / 0x400 + Carry(up), n), v, u)
    ensures TOP / 2 <= t00
  {
    assert Known(v, u, i, pe, full, brv, ext) && Exact(v, u, i, pe, full) && f * P64 <= full && full + brv < (f + 3) * P64;
    assert full == f * P64 + l && l < P64 && 0 < u && (f % H41 == 0 ==> tlo == 0 && l == 0);
    assert TOP / 2 * P96 <= full < 2 * TOP * P96;
    hide *;
    SplitF(f, t00, tlo % W);
    SizeOfF(full, brv, f);
    assert TOP / 2 <= t00;
    ExactNext(v, u, i, pe, full, f, l, n, tlo != 0, up);
  }

  lemma LowerNear(v: nat, u: nat, i: nat, pe: int, full: nat, brv: nat, ext: nat, f: nat, l: nat,
                  t00: nat, tlo: nat, n: nat)
    requires Approximated(v, u, i, pe, full, brv, ext, f, l, tlo, false)
    requires t00 < TOP && f == t00 * W + tlo % W && n + i == pe + 1074 + 106
    requires tlo % W >= 0x10 || t00 % 0x200 != 0
    requires ext == 0 || (t00 + ext) % TOP / 0x200 == t00 / 0x200
    ensures IsNearestEven(Capped(t00 / 0x400 + Carry(t00 / 0x200 % 2 == 1), n), v, u)
    ensures TOP / 2 <= t00
  {
    SplitF(f, t00, tlo % W);
    assert Known(v, u, i, pe, full, brv, ext) && ext <= 16 && tlo % W + 0x10 < W;
    assert f * P64 <= full && full + brv < (f + 3) * P64;
    SizeOfF(full, brv, f);
    assert TOP / 2 <= t00;
    hide *;
    RoomNext(t00, tlo % W, ext);
    AcceptNext96(v, u, i, pe, full, brv, ext, f, n);
  }

  /** Two units of 2^64 and more from a multiple of 2^96, and 18 from half the last place above one:
      the 96-bit stage does not give up. */
  ghost predicate Away(full: nat) {
    var g := full / P64;
    2 <= g % W < W - 0x10 && 0x12 <= g % (if TOP * P96 <= full then 2 * H41 else H41)
  }

  lemma AwayPasses(full: nat, f: nat, t00: nat, low: nat)
    requires f * P64 <= full < (f + 3) * P64 && f == t00 * W + low && low < W && Away(full)
    ensures low + 0x10 < W && (TOP <= t00 <==> TOP * P96 <= full)
    ensures if TOP <= t00 then low >= 0x10 || t00 % 0x400 != 0 else low >= 0x10 || t00 % 0x200 != 0
  {
    var g, k: nat := full / P64, if TOP * P96 <= full then 2 * H41 else H41;
    assert 2 <= g % W < W - 0x10 && 0x12 <= g % k;
    WithinThree(full, f);
    hide *;
    DivModUnique(f, W, t00, low);
    BackTwo(g, f, W);
    SameTop(full, f, t00, low);
    BackTwo(g, f, k);
    SplitF(f, t00, low);
  }

  lemma WithinThree(full: nat, f: nat)
    requires f * P64 <= full < (f + 3) * P64
    ensures f <= full / P64 <= f + 2
  {
    DivModDef(full, P64);
  }

  lemma SameTop(full: nat, f: nat, t00: nat, low: nat)
    requires f * P64 <= full < (f + 3) * P64 && f == t00 * W + low && low + 0x10 < W
    ensures TOP <= t00 <==> TOP * P96 <= full
  {
    assert t00 * P96 <= full < (t00 + 1) * P96;
  }

  lemma BackTwo(g: nat, f: nat, m: nat)
    requires f <= g <= f + 2 && 0 < m && 2 <= g % m
    ensures f % m == g % m - (g - f)
  {
    DivModDef(g, m);
    DivModUnique(f, m, g / m, g % m - (g - f));
  }

  /** The product fills 64 bits (dtoa.c:3929-4020). */
  method UpperHalf(t00: nat, tlo: nat, bexact: bool, nd: nat, i: nat, erv: int,
                   ghost v: nat, ghost u: nat, ghost pe: int, ghost full: nat, ghost brv: nat, ghost ext: nat,
                   ghost f: nat, ghost l: nat) returns (r: Outcome)
    requires Approximated(v, u, i, pe, full, brv, ext, f, l, tlo, bexact)
    requires TOP <= t00 < 2 * TOP && f == t00 * W + tlo % W && erv == 1182 + pe - i
    requires ext == if nd <= 19 then 0 else Pow2(i)
    ensures Justified(r, v, u, AtHalf(t00, erv))
    ensures nd <= 19 && (tlo % W >= 0x10 || t00 % 0x400 != 0) ==> r.Bits?
  {
    assert W > 0 && TOP > 0;
    Outcomes(v, u);
    hide *;
    if erv <= 0 {
      if nd >= 20 || (tlo % W < 0x10 && t00 % 0x400 == 0) {
        return ManyDigits;
      }
      SubnormalStage(v, u, i, pe, full, brv, f, l, t00, tlo, bexact, erv, 0x400);
      var bits := DenormalTop(t00, erv);
      r := Bits(bits);
      SubnormalOutcome(r, v, u, bits, Rounded(t00, 12 - erv), AtHalf(t00, erv));
      return;
    }
    r := UpperNormal(t00, tlo, bexact, nd, i, erv, v, u, pe, full, brv, ext, f, l);
    NormalOutcome(r, v, u, t00, erv);
  }

  method UpperNormal(t00: nat, tlo: nat, bexact: bool, nd: nat, i: nat, erv: int,
                     ghost v: nat, ghost u: nat, ghost pe: int, ghost full: nat, ghost brv: nat, ghost ext: nat,
                     ghost f: nat, ghost l: nat) returns (r: Outcome)
    requires Approximated(v, u, i, pe, full, brv, ext, f, l, tlo, bexact) && 1 <= erv
    requires TOP <= t00 < 2 * TOP && f == t00 * W + tlo % W && erv == 1182 + pe - i
    requires ext == if nd <= 19 then 0 else Pow2(i)
    ensures Justified(r, v, u, false)
    ensures nd <= 19 && (tlo % W >= 0x10 || t00 % 0x400 != 0) ==> r.Bits?
  {
    assert W > 0 && TOP > 0;
    Outcomes(v, u);
    hide *;
    if bexact {
      var up := t00 / 0x400 % 2 == 1 && (tlo % W != 0 || t00 % 0x400 != 0 || t00 / 0x800 % 2 == 1);
      UpperExact(v, u, i, pe, full, brv, ext, f, l, t00, tlo, erv - 1, up);
      var bits := FinishTop(t00, up, erv);
      return Bits(bits);
    }
    if (tlo % W >= 0x10 || t00 % 0x400 != 0)
      && (nd <= 19 || (t00 + Pow2(i)) % (2 * TOP) / 0x400 == t00 / 0x400) {
      UpperNear(v, u, i, pe, full, brv, ext, f, l, t00, tlo, erv - 1);
      var bits := FinishTop(t00, t00 / 0x400 % 2 == 1, erv);
      return Bits(bits);
    }
    r := ManyDigits;
  }

  /** One bit less (dtoa.c:4022-4115). */
  method LowerHalf(t00: nat, tlo: nat, bexact: bool, nd: nat, i: nat, erv: int,
                   ghost v: nat, ghost u: nat, ghost pe: int, ghost full: nat, ghost brv: nat, ghost ext: nat,
                   ghost f: nat, ghost l: nat) returns (r: Outcome)
    requires Approximated(v, u, i, pe, full, brv, ext, f, l, tlo, bexact)
    requires t00 < TOP && f == t00 * W + tlo % W && erv == 1182 + pe - i
    requires ext == if nd <= 19 then 0 else Pow2(i)
    ensures Justified(r, v, u, AtHalf(t00, erv))
    ensures nd <= 19 && (tlo % W >= 0x10 || t00 % 0x200 != 0) ==> r.Bits?
  {
    assert W > 0 && TOP > 0;
    Outcomes(v, u);
    hide *;
    if erv <= 1 {
      if nd >= 20 || (tlo % W < 0x10 && t00 % 0x200 == 0) {
        return ManyDigits;
      }
      SubnormalStage(v, u, i, pe, full, brv, f, l, t00, tlo, bexact, erv, 0x200);
      var bits := DenormalNext(t00, erv);
      r := Bits(bits);
      SubnormalOutcome(r, v, u, bits, Rounded(t00, 12 - erv), AtHalf(t00, erv));
      return;
    }
    r := LowerNormal(t00, tlo, bexact, nd, i, erv, v, u, pe, full, brv, ext, f, l);
    NormalOutcome(r, v, u, t00, erv);
  }

  method LowerNormal(t00: nat, tlo: nat, bexact: bool, nd: nat, i: nat, erv: int,
                     ghost v: nat, ghost u: nat, ghost pe: int, ghost full: nat, ghost brv: nat, ghost ext: nat,
                     ghost f: nat, ghost l: nat) returns (r: Outcome)
    requires Approximated(v, u, i, pe, full, brv, ext, f, l, tlo, bexact) && 2 <= erv
    requires t00 < TOP && f == t00 * W + tlo % W && erv == 1182 + pe - i
    requires ext == if nd <= 19 then 0 else Pow2(i)
    ensures Justified(r, v, u, false)
    ensures nd <= 19 && (tlo % W >= 0x10 || t00 % 0x200 != 0) ==> r.Bits?
  {
    assert W > 0 && TOP > 0;
    Outcomes(v, u);
    hide *;
    if bexact {
      var up := t00 / 0x200 % 2 == 1 && (t00 % 0x200 != 0 || t00 / 0x400 % 2 == 1 || tlo != 0);
      LowerExact(v, u, i, pe, full, brv, ext, f, l, t00, tlo, erv - 2, up);
      var bits := FinishNext(t00, up, erv);
      return Bits(bits);
    }
    if (tlo % W >= 0x10 || t00 % 0x200 != 0)
      && (nd <= 19 || (t00 + Pow2(i)) % TOP / 0x200 == t00 / 0x200) {
      LowerNear(v, u, i, pe, full, brv, ext, f, l, t00, tlo, erv - 2);
      var bits := FinishNext(t00, t00 / 0x200 % 2 == 1, erv);
      return Bits(bits);
    }
    r := ManyDigits;
  }

  lemma HalfIsWhole(f: nat, t00: nat, tlo: nat)
    requires f == t00 * W + tlo && f % H41 == 0
    ensures tlo % W == 0
  {
    DivModUnique(f, W, t00 + tlo / W, tlo % W);
    DivModUnique(f, W, f / H41 * 0x200, 0);
  }

  /** What the five products give: the approximation f, within 3 of the product, and when the low
      words vanish, the product exactly, on a half with nothing dropped and no carry. */
  ghost predicate Gathered(full: nat, brv: nat, f: nat, l: nat, tlo: nat, vanish: bool) {
    && f * P64 <= full && full + brv < (f + 3) * P64 && l < P64
    && (vanish ==> full == f * P64 + l && (f % H41 == 0 ==> tlo == 0 && l == 0))
  }

  lemma FromParts(bhi: nat, blo: nat, p: Entry, full: nat, brv: nat, top: nat, n: nat, low: nat, t00: nat,
                  t02: nat, c: nat, l: nat, t11: nat, tlo: nat, f: nat, vanish: bool)
    requires p.Valid() && 0 < bhi < W && blo < W && ByWeight(full, brv, top, n, t02 + c, l)
    requires low == n % W && t00 == top + n / W
    requires t02 == bhi * p.b2 && c == blo * p.b1 && l == blo * p.b2
    requires t11 == c + t02 % W && tlo == low + t02 / W + t11 / W && f == t00 * W + tlo
    requires n == bhi * p.b1 + blo * p.b0
    requires vanish ==> low == 0 && t11 % W == 0 && !Cancels(p.b0, p.b1, p.b2, bhi, blo)
    ensures Gathered(full, brv, f, l, tlo, vanish)
  {
    MoreParts(full, brv, top, n, t02, c, l, low, t00, t11, tlo);
    hide ByWeight;
    if vanish && f % H41 == 0 {
      HalfIsWhole(f, t00, tlo);
      NothingDropped(bhi, blo, p.b0, p.b1, p.b2);
    }
  }

  lemma StageFacts(d: nat, nd: nat, dropped: nat, i: nat, brv: nat, p: Entry, e1: int, full: nat, f: nat, l: nat,
                   tlo: nat, bexact: bool)
    requires Truncates(p, e1) && full == Product(brv, p) && (dropped == 0 ==> brv == d * Pow2(i))
    requires Known(Numer(d, e1), Denom(e1, dropped), i, p.e - 96, full, brv, Excess(dropped, i))
    requires Gathered(full, brv, f, l, tlo, bexact)
    requires bexact ==> dropped == 0 && 0 <= e1 <= 41
    requires !bexact ==> (tlo + 0x10) / W <= tlo / W
    ensures Approximated(Numer(d, e1), Denom(e1, dropped), i, p.e - 96, full, brv, Excess(dropped, i), f, l, tlo, bexact)
  {
    hide Known, Exact, Numer, Denom, Excess, Product;
    if bexact {
      ExactProduct(d, i, brv, p, e1);
    } else {
      NoCarryOut(tlo);
    }
  }

  /** Two more products: a 96-bit approximation of the value, exact up to 10^41 when the low words
      vanish (dtoa.c:3918-4117). */
  method SecondStage(bhi: nat, blo: nat, t10: nat, t00: nat, p: Entry, i: nat, erv: int, nd: nat, e1: int,
                     ghost d: nat, ghost dropped: nat, ghost full: nat, ghost brv: nat, ghost top: nat, ghost n: nat)
    returns (r: Outcome)
    requires Truncates(p, e1) && 0 < bhi < W && blo < W && erv == 64 + 0x3fe + p.e - i
    requires brv == bhi * W + blo && full == Product(brv, p) && (dropped == 0 ==> brv == d * Pow2(i))
    requires nd <= 19 <==> dropped == 0
    requires Known(Numer(d, e1), Denom(e1, dropped), i, p.e - 96, full, brv, Excess(dropped, i))
    requires top == bhi * p.b0 && n == bhi * p.b1 + blo * p.b0
    requires t10 % W == n % W && t00 == top + n / W
    ensures Justified(r, Numer(d, e1), Denom(e1, dropped), AtHalf(full / P96, erv))
    ensures nd <= 19 && Away(full) ==> r.Bits?
  {
    assert p.Valid() && W > 0;
    var t02, c := Times(bhi, p.b2), Times(blo, p.b1);
    var t11 := c + t02 % W;
    var tlo := t10 % W + t02 / W + t11 / W;
    var bexact := !(e1 < 0 || e1 > 41 || t10 % W != 0 || t11 % W != 0 || nd > 19);
    ghost var l, f := Times(blo, p.b2), Times(t00, W) + tlo;
    hide *;
    Gather(bhi, blo, p, top, n, t02 + c, l);
    if bexact {
      EntryNeverCancels(p, e1, bhi, blo);
    }
    FromParts(bhi, blo, p, full, brv, top, n, t10 % W, t00, t02, c, l, t11, tlo, f, bexact);
    r := Settle(t00, tlo, bexact, p, i, erv, nd, e1, d, dropped, full, brv, f, l);
  }

  method Settle(t00': nat, tlo: nat, bexact: bool, p: Entry, i: nat, erv: int, nd: nat, e1: int,
                ghost d: nat, ghost dropped: nat, ghost full: nat, ghost brv: nat, ghost f: nat, ghost l: nat)
    returns (r: Outcome)
    requires Truncates(p, e1) && erv == 64 + 0x3fe + p.e - i
    requires full == Product(brv, p) && (dropped == 0 ==> brv == d * Pow2(i))
    requires nd <= 19 <==> dropped == 0
    requires Known(Numer(d, e1), Denom(e1, dropped), i, p.e - 96, full, brv, Excess(dropped, i))
    requires f == t00' * W + tlo && Gathered(full, brv, f, l, tlo, bexact)
    requires bexact ==> dropped == 0 && 0 <= e1 <= 41
    ensures Justified(r, Numer(d, e1), Denom(e1, dropped), AtHalf(full / P96, erv))
    ensures nd <= 19 && Away(full) ==> r.Bits?
  {
    ghost var v, u, pe, ext := Numer(d, e1), Denom(e1, dropped), p.e - 96, Excess(dropped, i);
    Outcomes(v, u);
    ExcessIs(dropped, i);
    assert W > 0 && TOP > 0;
    hide *;
    var t00 := t00' + tlo / W;
    SettleFacts(t00', tlo, f, t00, full, brv, l, bexact, v, u, i, pe, ext);
    if !bexact && (tlo + 0x10) / W > tlo / W {
      CarriesOut(tlo);
      return ManyDigits;
    }
    StageFacts(d, nd, dropped, i, brv, p, e1, full, f, l, tlo, bexact);
    TopWords(v, u, i, pe, full, brv, ext, f, l, t00, tlo, bexact);
    if t00 >= TOP {
      r := UpperHalf(t00, tlo, bexact, nd, i, erv, v, u, pe, full, brv, ext, f, l);
    } else {
      r := LowerHalf(t00, tlo, bexact, nd, i, erv, v, u, pe, full, brv, ext, f, l);
    }
  }

  lemma ExcessIs(dropped: nat, i: nat)
    ensures Excess(dropped, i) == if dropped == 0 then 0 else Pow2(i)
  {
  }

  lemma CarriesOut(tlo: nat)
    requires (tlo + 0x10) / W > tlo / W
    ensures tlo % W + 0x10 >= W
  {
  }

  lemma SettleFacts(t00': nat, tlo: nat, f: nat, t00: nat, full: nat, brv: nat, l: nat, bexact: bool,
                    v: nat, u: nat, i: nat, pe: int, ext: nat)
    requires Known(v, u, i, pe, full, brv, ext) && Gathered(full, brv, f, l, tlo, bexact)
    requires f == t00' * W + tlo && t00 == t00' + tlo / W
    ensures f == t00 * W + tlo % W && t00 < 2 * TOP && 0 <= tlo % W < W
    ensures Away(full) ==> tlo % W + 0x10 < W
    ensures Away(full) && TOP <= t00 ==> tlo % W >= 0x10 || t00 % 0x400 != 0
    ensures Away(full) && t00 < TOP ==> tlo % W >= 0x10 || t00 % 0x200 != 0
  {
    DivModDef(tlo, W);
    assert f * P64 <= full && full + brv < (f + 3) * P64 && TOP / 2 * P96 <= full < 2 * TOP * P96;
    hide *;
    SizeOfF(full, brv, f);
    if Away(full) {
      AwayPasses(full, f, t00, tlo % W);
    }
  }

  /** Digits past the 19th move the product by less than 2^i, too little to leave its half. */
  lemma SameHalf(t00: nat, ext: nat, half: nat, nd: nat, i: nat)
    requires half == 0x400 || half == 0x200
    requires 0 < t00 % half < half - 2 && ext <= 16 && ext == if nd <= 19 then 0 else Pow2(i)
    requires nd > 19 ==> (t00 + Pow2(i) + 2) / half % 2 == t00 / half % 2
    ensures 1 <= t00 % half && t00 % half + 3 + ext <= half
  {
    hide *;
    if nd > 19 {
      StaysInHalf(t00, ext + 2, half);
    }
  }

  lemma StaysInHalf(t: nat, step: nat, half: nat)
    requires 18 < half && step <= 18 && (t + step) / half % 2 == t / half % 2
    ensures t % half + step < half
  {
    DivModDef(t, half);
    if t % half + step >= half {
      Distribute(t / half, 1, half);
      DivModUnique(t + step, half, t / half + 1, t % half + step - half);
    }
  }

  /** strtod's fast path for the digits d, of which yz holds the first 19, times 10^e1. A pattern it
      accepts, normal or subnormal, is the nearest double, ties to even, if and only if the product
      cut to 64 bits is not exactly half the least subnormal; and up to 19 digits it does not give up
      on a product three units of 2^96 away from the halves, nor on one 18 units of 2^64 away. */
  method FastPath(yz: nat, nd: nat, e1: int, p: Entry, ghost d: nat, ghost dropped: nat) returns (r: Outcome)
    requires 0 < yz < 2 * TOP && Truncates(p, e1)
    requires Leading(d, yz, dropped) && (nd <= 19 <==> dropped == 0)
    requires nd > 19 ==> 1_000_000_000_000_000_000 <= yz
    ensures Justified(r, Numer(d, e1), Denom(e1, dropped), CutToHalf(yz, p))
    ensures nd <= 19 && (FarFromHalves(Product(Lead(yz), p)) || Away(Product(Lead(yz), p))) ==> r.Bits?
  {
    var brv, i := ShiftLeft(yz);
    var erv := 64 + 0x3fe + p.e - i;
    assert CutToHalf(yz, p) == AtHalf(Product(brv, p) / P96, erv);
    assert p.Valid() && (dropped == 0 ==> brv == d * Pow2(i));
    Outcomes(Numer(d, e1), Denom(e1, dropped));
    hide *;
    if erv <= 0 && nd > 19 {
      return ManyDigits;
    }
    Setup(d, yz, nd, dropped, i, brv, p, e1);
    r := FirstStage(brv, i, erv, nd, e1, p, d, dropped, Product(brv, p));
  }

  /** The first 64 bits of the product are half the least subnormal. */
  ghost predicate CutToHalf(yz: nat, p: Entry)
    requires 0 < yz
  {
    AtHalf(Product(Lead(yz), p) / P96, 64 + 0x3fe + p.e - Places(yz))
  }

  /** The halves of brv and the three products (dtoa.c:3874-3883). */
  method ThreeMultiplies(brv: nat, p: Entry, ghost full: nat)
    returns (bhi: nat, blo: nat, t10: nat, t00: nat, ghost top: nat, ghost n: nat)
    requires p.Valid() && TOP <= brv < 2 * TOP && full == Product(brv, p)
    ensures brv == bhi * W + blo && 0 < bhi < W && blo < W
    ensures top == bhi * p.b0 && n == bhi * p.b1 + blo * p.b0
    ensures t10 % W == n % W && t00 == top + n / W
    ensures t00 * P96 <= full && full + brv < (t00 + 3) * P96
  {
    bhi, blo := brv / W, brv % W;
    var t01, c := Times(bhi, p.b1), Times(blo, p.b0);
    t10 := c + t01 % W;
    top := Times(bhi, p.b0);
    t00 := Times(bhi, p.b0) + t01 / W + t10 / W;
    n := t01 + c;
    ghost var m: nat, l := Times(bhi, p.b2) + Times(blo, p.b1), Times(blo, p.b2);
    hide ByWeight, Product, Times;
    Gather(bhi, blo, p, top, n, m, l);
    FirstParts(full, brv, top, t01, c, m, l, t10, t00);
  }

  method FirstStage(brv: nat, i: nat, erv: int, nd: nat, e1: int, p: Entry,
                    ghost d: nat, ghost dropped: nat, ghost full: nat) returns (r: Outcome)
    requires erv <= 0 ==> nd <= 19
    requires Truncates(p, e1) && TOP <= brv < 2 * TOP && erv == 64 + 0x3fe + p.e - i
    requires full == Product(brv, p) && (dropped == 0 ==> brv == d * Pow2(i)) && (nd <= 19 <==> dropped == 0)
    requires Known(Numer(d, e1), Denom(e1, dropped), i, p.e - 96, full, brv, Excess(dropped, i))
    ensures Justified(r, Numer(d, e1), Denom(e1, dropped), AtHalf(full / P96, erv))
    ensures nd <= 19 && (FarFromHalves(full) || Away(full)) ==> r.Bits?
  {
    ghost var v, u, pe, ext := Numer(d, e1), Denom(e1, dropped), p.e - 96, Excess(dropped, i);
    assert p.Valid() && TOP > 0;
    KnownSize(v, u, i, pe, full, brv, ext);
    ExcessIs(dropped, i);
    hide *;
    var bhi, blo, t10, t00, top, n := ThreeMultiplies(brv, p, full);
    if t00 >= TOP {
      if t00 % 0x400 != 0 && t00 % 0x400 < 0x3fe {
        BelowTwoTop(full, t00);
        StillOff(full, t00, 0x400, erv);
        r := AcceptedTop(t00, i, erv, nd, v, u, pe, full, brv, ext);
        return;
      }
    } else if t00 % 0x200 != 0 && t00 % 0x200 < 0x1fe {
      StillOff(full, t00, 0x200, erv);
      r := AcceptedNext(t00, i, erv, nd, v, u, pe, full, brv, ext);
      return;
    }
    NotFar(full, t00);
    r := SecondStage(bhi, blo, t10, t00, p, i, erv, nd, e1, d, dropped, full, brv, top, n);
  }

  lemma NotFar(full: nat, t00: nat)
    requires t00 * P96 <= full < (t00 + 3) * P96
    requires if TOP <= t00 then !(1 <= t00 % 0x400 < 0x3fe) else !(1 <= t00 % 0x200 < 0x1fe)
    ensures !FarFromHalves(full)
  {
    if FarFromHalves(full) {
      FarAccepts(full, t00);
    }
  }

  /** The first 64 bits of the product are off the halves with t00. */
  lemma StillOff(full: nat, t00: nat, half: nat, erv: int)
    requires t00 * P96 <= full < (t00 + 3) * P96 && (half == 0x400 || half == 0x200)
    requires 1 <= t00 % half && t00 % half + 3 <= half
    ensures 0 <= full / P96 && !AtHalf(full / P96, erv)
  {
    var g := full / P96;
    DivModDef(full, P96);
    assert t00 <= g <= t00 + 2;
    DivModDef(t00, half);
    DivModUnique(g, half, t00 / half, t00 % half + (g - t00));
    NotOnHalf(g, half);
  }

  /** dtoa.c:3885-3898 */
  method AcceptedTop(t00: nat, i: nat, erv: int, nd: nat, ghost v: nat, ghost u: nat, ghost pe: int, ghost full: nat,
                     ghost brv: nat, ghost ext: nat) returns (r: Outcome)
    requires Known(v, u, i, pe, full, brv, ext) && erv == 1182 + pe - i && (erv <= 0 ==> nd <= 19)
    requires TOP <= t00 < 2 * TOP && t00 * P96 <= full && full + brv < (t00 + 3) * P96
    requires 0 < t00 % 0x400 < 0x3fe && ext <= 16 && ext == if nd <= 19 then 0 else Pow2(i)
    ensures Justified(r, v, u, false) && (nd <= 19 ==> r.Bits?)
  {
    Outcomes(v, u);
    hide *;
    if nd > 19 && (t00 + Pow2(i) + 2) / 0x400 % 2 != t00 / 0x400 % 2 {
      return ManyDigits;
    }
    SameHalf(t00, ext, 0x400, nd, i);
    if erv <= 0 {
      SubnormalNearest(v, u, i, pe, full, brv, ext, t00, erv, 0x400);
      var bits := DenormalTop(t00, erv);
      return Bits(bits);
    }
    AcceptTop(v, u, i, pe, full, brv, ext, t00, erv - 1);
    var odd := t00 / 0x800 % 2 == 1;
    var bits := FinishTop(t00, t00 / 0x400 % 2 == 1 && (odd || t00 % 0x400 != 0), erv);
    return Bits(bits);
  }

  /** dtoa.c:3902-3916 */
  method AcceptedNext(t00: nat, i: nat, erv: int, nd: nat, ghost v: nat, ghost u: nat, ghost pe: int, ghost full: nat,
                      ghost brv: nat, ghost ext: nat) returns (r: Outcome)
    requires Known(v, u, i, pe, full, brv, ext) && erv == 1182 + pe - i
    requires t00 < TOP && t00 * P96 <= full && full + brv < (t00 + 3) * P96
    requires 0 < t00 % 0x200 < 0x1fe && ext <= 16 && ext == if nd <= 19 then 0 else Pow2(i)
    ensures Justified(r, v, u, false) && (nd <= 19 ==> r.Bits?)
  {
    Outcomes(v, u);
    KnownSize(v, u, i, pe, full, brv, ext);
    hide *;
    if nd > 19 && (t00 + Pow2(i) + 2) / 0x200 % 2 != t00 / 0x200 % 2 {
      return ManyDigits;
    }
    SameHalf(t00, ext, 0x200, nd, i);
    if erv <= 1 {
      NextIsLower(full, brv, t00);
      SubnormalNearest(v, u, i, pe, full, brv, ext, t00, erv, 0x200);
      var bits := DenormalNext(t00, erv);
      return Bits(bits);
    }
    AcceptNext(v, u, i, pe, full, brv, ext, t00, erv - 2);
    var bits := FinishNext(t00, t00 / 0x200 % 2 == 1, erv);
    return Bits(bits);
  }
}
