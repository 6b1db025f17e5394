/** The products behind the 96-bit fast path of strtod (nolibc/dtoa.c:3844-3917): the decimal
    significand times a 96-bit truncation of the power of ten, and what a product known to within a
    few units decides about the rounding of the value. */
module Bf96Products {
  import opened Arith
  import opened Double
  import opened TenEntries

  const TOP: nat := 0x8000_0000_0000_0000 // 2^63

  /** A table entry: 0.b0b1b2 (base 2^32) times 2^e. */
  datatype Entry = Entry(b0: nat, b1: nat, b2: nat, e: int) {
    ghost predicate Valid() {
      0x8000_0000 <= b0 < W && b1 < W && b2 < W
    }

    function Sig(): nat {
      (b0 * W + b1) * W + b2
    }
  }

  /** The entry is 10^k cut to 96 bits: Sig * 2^(e-96) <= 10^k < (Sig + 1) * 2^(e-96). */
  ghost predicate Truncates(p: Entry, k: int) {
    && p.Valid()
    && p.Sig() * (Twos(p.e - 96) * Tens(-k)) <= Tens(k) * Twos(96 - p.e)
    && Tens(k) * Twos(96 - p.e) < (p.Sig() + 1) * (Twos(p.e - 96) * Tens(-k))
  }

  /** Two entries of the table (dtoa.c:752-753): 10^-1 is cut, 10^0 is exact. */
  lemma TableEntries()
    ensures Truncates(Entry(0xcccc_cccc, 0xcccc_cccc, 0xcccc_cccc, -3), -1)
    ensures Truncates(Entry(0x8000_0000, 0, 0, 1), 0)
  {
    assert Pow2(3) == 8 && Pow2(0) == 1 && Pow10(1) == 10 && Pow10(0) == 1;
    Pow2Values();
    Pow2Add(32, 63);
    Pow2Add(48, 48);
    Pow2Add(96, 3);
    var p, q := Entry(0xcccc_cccc, 0xcccc_cccc, 0xcccc_cccc, -3), Entry(0x8000_0000, 0, 0, 1);
    assert Twos(-99) == Tens(-1) == 1 && Tens(1) == 10 && Twos(99) == 633825300114114700748351602688;
    assert Twos(-95) == Tens(0) == 1 && Twos(95) == 39614081257132168796771975168;
    assert p.Sig() == 63382530011411470074835160268 && q.Sig() == 39614081257132168796771975168;
    hide Twos, Tens, Pow2, Pow10, Entry.Sig;
  }

  datatype Outcome = ManyDigits | Bits(bits: nat)

  // ---------- normalising the significand ----------

  /** The significand moved up to fill 64 bits. */
  function Lead(y: nat): nat
    requires 0 < y
    decreases TOP - y
  {
    if y >= TOP then y else Lead(2 * y)
  }

  /** How many places up that is. */
  function Places(y: nat): nat
    requires 0 < y
    decreases TOP - y
  {
    if y >= TOP then 0 else 1 + Places(2 * y)
  }

  lemma {:induction false} LeadIs(y: nat, i: nat)
    requires 0 < y && TOP <= y * Pow2(i) < 2 * TOP
    ensures Lead(y) == y * Pow2(i) && Places(y) == i
    decreases i
  {
    if i == 0 {
    } else {
      Assoc(y, 2, Pow2(i - 1));
      MulMono(1, Pow2(i - 1), y);
      LeadIs(2 * y, i - 1);
    }
  }

  /** One probe of the binary search: j places up if the top j bits are clear. */
  method MoveUp(brv0: nat, i0: nat, j: nat, f: nat, limit: nat, ghost yz: nat) returns (brv: nat, i: nat)
    requires f == Pow2(j) && limit * f == 2 * TOP
    requires brv0 == yz * Pow2(i0) && brv0 < 2 * TOP && limit <= brv0 * f
    ensures brv == yz * Pow2(i) && limit <= brv < 2 * TOP
  {
    brv, i := brv0, i0;
    if brv < limit {
      Pow2Add(i, j);
      Assoc(yz, Pow2(i), Pow2(j));
      hide Pow2;
      MulMono(brv + 1, limit, f);
      Distribute(brv, 1, f);
      i, brv := i + j, brv * f;
    }
  }

  method ShiftLeft(yz: nat) returns (brv: nat, i: nat)
    requires 0 < yz < 2 * TOP
    ensures TOP <= brv < 2 * TOP && brv == yz * Pow2(i) == Lead(yz) && i == Places(yz)
  {
    assert yz * Pow2(0) == yz && Pow2(1) == 2 && Pow2(2) == 4 && Pow2(4) == 0x10;
    Pow2Values();
    hide Pow2;
    brv, i := MoveUp(yz, 0, 32, 0x1_0000_0000, 0x1_0000_0000, yz);
    brv, i := MoveUp(brv, i, 16, 0x1_0000, 0x1_0000_0000_0000, yz);
    brv, i := MoveUp(brv, i, 8, 0x100, 0x100_0000_0000_0000, yz);
    brv, i := MoveUp(brv, i, 4, 0x10, 0x1000_0000_0000_0000, yz);
    brv, i := MoveUp(brv, i, 2, 4, 0x4000_0000_0000_0000, yz);
    brv, i := MoveUp(brv, i, 1, 2, TOP, yz);
    LeadIs(yz, i);
  }

  // ---------- the products ----------

  lemma TwoByTwo(a1: nat, a0: nat, p: nat, q: nat, w: nat)
    ensures (a1 * w + a0) * (p * w + q) == (a1 * p * w + a1 * q + a0 * p) * w + a0 * q
  {
    Distribute(a1 * w, a0, p * w + q);
    Distribute(p * w, q, a1 * w);
    Distribute(p * w, q, a0);
    Assoc(a1, w, p * w);
    Assoc(a1, p, w);
    Assoc(a1, w, q);
    Assoc(a0, p, w);
    Distribute(a1 * p * w, a1 * q, w);
    Distribute(a1 * p * w + a1 * q, a0 * p, w);
  }

  /** The full product of two and three words, gathered by weight. */
  lemma ProductParts(bhi: nat, blo: nat, b0: nat, b1: nat, b2: nat, w: nat)
    ensures (bhi * w + blo) * ((b0 * w + b1) * w + b2)
         == ((bhi * b0 * w + bhi * b1 + blo * b0) * w + bhi * b2 + blo * b1) * w + blo * b2
  {
    var p := b0 * w + b1;
    TwoByTwo(bhi, blo, p, b2, w);
    assert bhi * p * w + blo * p == (bhi * b0 * w + bhi * b1 + blo * b0) * w + blo * b1 by {
      TwoByTwo(bhi, blo, b0, b1, w);
      Distribute(bhi * w, blo, p);
      Assoc(bhi, w, p);
      Assoc(bhi, p, w);
    }
  }

  /** Two carries collected one after the other are the carry of the sum. */
  lemma CarryOf(a: nat, b: nat, w: nat)
    requires 0 < w
    ensures (a + b) / w == a / w + (b + a % w) / w && (a + b) % w == (b + a % w) % w
  {
    DivModDef(a, w);
    DivModDef(b + a % w, w);
    Distribute(a / w, (b + a % w) / w, w);
    DivModUnique(a + b, w, a / w + (b + a % w) / w, (b + a % w) % w);
  }

  lemma WordProduct(a: nat, b: nat, w: nat)
    requires a < w && b < w
    ensures a * b <= (w - 1) * (w - 1)
  {
    MulMono(a, w - 1, b);
    MulMono(b, w - 1, w - 1);
  }

  /** What three products know of the full one: t00 is within 3 below. */
  lemma ThreeProducts(full: nat, brv: nat, top: nat, n: nat, m: nat, l: nat, t00: nat)
    requires full == ((top * W + n) * W + m) * W + l
    requires m <= 2 * (W - 1) * (W - 1) && l <= (W - 1) * (W - 1) && brv < W * W
    requires t00 == top + n / W
    ensures t00 * (W * W * W) <= full && full + brv < (t00 + 3) * (W * W * W)
  {
    DivModDef(n, W);
  }

  /** What all five products know of it: F = t00 * 2^32 + tlo is within 3 below. */
  lemma FiveProducts(full: nat, brv: nat, top: nat, n: nat, m: nat, l: nat, t00: nat, tlo: nat)
    requires full == ((top * W + n) * W + m) * W + l
    requires m <= 2 * (W - 1) * (W - 1) && l <= (W - 1) * (W - 1) && brv < W * W
    requires t00 == top + n / W && tlo == n % W + m / W
    ensures full == (t00 * W + tlo) * (W * W) + m % W * W + l
    ensures full + brv < (t00 * W + tlo + 3) * (W * W)
  {
    DivModDef(n, W);
    DivModDef(m, W);
  }

  // ---------- what a window of the value decides ----------

  /** Two halves of the unit z, and the number of whole pairs of halves in t. */
  function Cell(half: nat, z: nat): (w: nat)
    ensures w == 2 * half * z
  {
    MulMono(0, 2 * half, z);
    2 * half * z
  }

  function Whole(t: nat, half: nat): (m: nat)
    requires 0 < half
    ensures m == t / (2 * half)
  {
    QuotientFits(t, 2 * half);
    t / (2 * half)
  }

  /** x lies strictly inside one half of its unit when its known part does, slack included. */
  lemma Between(x: nat, z: nat, t: nat, slack: nat, half: nat)
    requires 0 < z && 0 < half && t * z <= x < (t + slack) * z
    requires t % half + slack <= half && (1 <= t % half || t * z < x)
    ensures Split(x, Cell(half, z), Whole(t, half), if t / half % 2 == 1 then 3 else 1)
  {
    var c, low, m := t / half % 2, t % half, Whole(t, half);
    HalfOf(t, half);
    BetweenParts(x, z, t, slack, half, m, c, low);
  }

  lemma BetweenParts(x: nat, z: nat, t: nat, slack: nat, half: nat, m: nat, c: nat, low: nat)
    requires 0 < z && 0 < half && t * z <= x < (t + slack) * z && c <= 1
    requires t == m * (2 * half) + c * half + low
    requires low + slack <= half && (1 <= low || t * z < x)
    ensures Split(x, Cell(half, z), m, if c == 1 then 3 else 1)
  {
    var cell, lead, hz := Cell(half, z), c * half, half * z;
    Distribute(m * (2 * half), lead + low, z);
    Assoc(m, 2 * half, z);
    Distribute(m * (2 * half) + lead + low, slack, z);
    Distribute(lead, low, z);
    Distribute(lead + low, slack, z);
    var rem := x - m * cell;
    assert t * z == m * cell + (lead + low) * z;
    MulMono(lead + low + slack, lead + half, z);
    MulMono(0, low, z);
    MulMono(1, if low >= 1 then low else 1, z);
    assert lead * z < rem < (lead + half) * z;
    HalfPosition(rem, half, z, c);
    DivModUnique(x, cell, m, rem);
  }

  lemma HalfOf(t: nat, half: nat)
    requires 0 < half
    ensures t == t / (2 * half) * (2 * half) + t / half % 2 * half + t % half
  {
    var q := t / half;
    DivDiv(t, half, 2);
    Distribute(q / 2 * 2, q % 2, half);
    Assoc(q / 2, 2, half);
  }

  lemma HalfPosition(rem: int, half: nat, z: nat, c: nat)
    requires 0 < z && 0 < half && c <= 1 && c * half * z < rem < (c * half + half) * z
    ensures 0 <= rem < Cell(half, z) && Position(rem, Cell(half, z)) == if c == 1 then 3 else 1
  {
    var hz := half * z;
    MulMono(0, half, z);
    Assoc(2, half, z);
    assert Cell(half, z) == 2 * hz;
    if c == 1 {
      assert c * half == half;
      Distribute(half, half, z);
    } else {
      assert c * half == 0;
    }
  }

  /** A value known exactly. */
  lemma Exactly(x: nat, z: nat, t: nat, half: nat)
    requires 0 < z && 0 < half && x == t * z
    ensures Split(x, Cell(half, z), Whole(t, half), Position(t % (2 * half), 2 * half))
  {
    ScaleDivMod(t, 2 * half, z);
    PositionOfScaled(t % (2 * half), 2 * half, z);
  }

  lemma PositionOfScaled(r: nat, w: nat, z: nat)
    requires 0 < w && 0 < z
    ensures Position(r * z, w * z) == Position(r, w)
  {
    MulMono(1, w, z);
    assert r * z * w == r * (w * z);
    PositionScales(r * z, r, w, w * z);
  }

  /** From the scaled value x = v * s back to v, when the unit scales to unit * s == p. */
  lemma Unscaled(v: nat, s: nat, p: nat, w: nat, m: nat, lost: nat)
    requires 0 < w && Split(v * s, p, m, lost) && w * s == p
    ensures Split(v, w, m, lost)
  {
    Assoc(v, s, w);
    assert v * p == v * s * w;
    SameRatio(v * s, p, v, w, m, lost);
  }

  // ---------- the value and its scaling ----------

  function Numer(d: nat, e1: int): nat {
    d * Tens(e1) * Pow2(1074)
  }

  function Denom(e1: int, dropped: nat): (u: nat)
    ensures 0 < u
  {
    MulMono(1, Tens(-e1), Pow10(dropped));
    Tens(-e1) * Pow10(dropped)
  }

  /** Factors that clear the fractions of the value, and of the product of the two significands. */
  function Scale(i: nat, pe: int): (s: nat)
    ensures 0 < s
  {
    MulMono(1, Pow2(i), Twos(-pe));
    Pow2(i) * Twos(-pe)
  }

  function Unit(pe: int, u: nat): nat {
    Twos(pe) * u * Pow2(1074)
  }

  lemma BalancedPowers(a: nat, pe: int, b: nat)
    requires a == pe + b
    ensures Pow2(a) * Twos(-pe) == Twos(pe) * Pow2(b)
  {
    assert Pow2(0) == 1;
    if pe >= 0 {
      Pow2Add(pe, b);
    } else {
      Pow2Add(a, -pe);
    }
  }

  lemma ExponentIdentity(n: nat, i: nat, pe: int, c: nat, u: nat)
    requires n + i == pe + 1074 + c
    ensures Pow2(n) * u * Scale(i, pe) == Pow2(c) * Unit(pe, u)
  {
    hide Pow2, Twos;
    assert Scale(i, pe) == Pow2(i) * Twos(-pe) && Unit(pe, u) == Twos(pe) * u * Pow2(1074);
    hide *;
    BalancedPowers(n + i, pe, 1074 + c);
    Pow2Add(n, i);
    Pow2Add(1074, c);
    RearrangeFour(Pow2(n), u, Pow2(i), Twos(-pe), Pow2(c), Twos(pe), Pow2(1074));
  }

  lemma RearrangeFour(a: nat, u: nat, b: nat, c: nat, d: nat, e: nat, f: nat)
    requires a * b * c == e * (f * d)
    ensures a * u * (b * c) == d * (e * u * f)
  {
    calc {
      a * u * (b * c);
      { Assoc(a * u, b, c); Assoc(a, u, b); Assoc(a * b, u, c); }
      a * b * c * u;
      e * (f * d) * u;
      { Assoc(e, f, d); Assoc(e * f, d, u); Assoc(e, f, u); Assoc(e * f * u, d, 1); }
      d * (e * u * f);
    }
  }

  lemma ProductBounds(alo: nat, a: nat, ahi: nat, xlo: nat, x: nat, xhi: nat)
    requires alo <= a <= ahi && 0 < ahi && xlo <= x < xhi
    ensures alo * xlo <= a * x < ahi * xhi
  {
    MulMono(alo, a, xlo);
    MulMono(xlo, x, a);
    MulMono(a, ahi, x);
    MulMono(x + 1, xhi, ahi);
    Distribute(x, 1, ahi);
  }

  /** The digits the significand stands for: yz itself, or its first 19. */
  ghost predicate Leading(d: nat, yz: nat, dropped: nat) {
    if dropped == 0 then d == yz else yz == d / Pow10(dropped)
  }

  function Excess(dropped: nat, i: nat): nat {
    if dropped == 0 then 0 else Pow2(i)
  }

  lemma DigitsWindow(d: nat, yz: nat, dropped: nat, i: nat, brv: nat)
    requires Leading(d, yz, dropped) && brv == yz * Pow2(i)
    ensures brv * Pow10(dropped) <= d * Pow2(i) <= (brv + Excess(dropped, i)) * Pow10(dropped)
  {
    var t, q := Pow10(dropped), Pow2(i);
    Assoc(yz, q, t);
    if dropped == 0 {
      assert t == 1;
    } else {
      DivModDef(d, t);
      Distribute(yz, 1, t);
      MulMono(yz * t, d, q);
      MulMono(d, (yz + 1) * t, q);
      Distribute(yz, 1, q);
      Assoc(yz + 1, q, t);
    }
  }

  /** The scaled value lies between brv * Sig and its excess. */
  lemma ScaledWindow(d: nat, yz: nat, dropped: nat, i: nat, brv: nat, p: Entry, e1: int)
    requires Truncates(p, e1) && Leading(d, yz, dropped) && brv == yz * Pow2(i) && 0 < brv
    ensures brv * p.Sig() * Unit(p.e - 96, Denom(e1, dropped))
         <= Numer(d, e1) * Scale(i, p.e - 96)
          < (brv + Excess(dropped, i)) * (p.Sig() + 1) * Unit(p.e - 96, Denom(e1, dropped))
  {
    DigitsWindow(d, yz, dropped, i, brv);
    var pe := p.e - 96;
    assert Unit(pe, Denom(e1, dropped)) == Twos(pe) * (Tens(-e1) * Pow10(dropped)) * Pow2(1074);
    assert Numer(d, e1) * Scale(i, pe) == d * Tens(e1) * Pow2(1074) * (Pow2(i) * Twos(-pe));
    assert p.Sig() * (Twos(pe) * Tens(-e1)) <= Tens(e1) * Twos(-pe) < (p.Sig() + 1) * (Twos(pe) * Tens(-e1));
    hide *;
    WindowParts(brv, brv + Excess(dropped, i), Pow10(dropped), d, Pow2(i), p.Sig(),
                Twos(pe), Tens(-e1), Tens(e1), Twos(-pe), Pow2(1074));
  }

  lemma WindowParts(lo: nat, hi: nat, t: nat, d: nat, pw: nat, sig: nat,
                    tw: nat, tn: nat, te: nat, tm: nat, k: nat)
    requires lo * t <= d * pw <= hi * t && 0 < hi && 0 < t && 0 < k
    requires sig * (tw * tn) <= te * tm < (sig + 1) * (tw * tn)
    ensures lo * sig * (tw * (tn * t) * k) <= d * te * k * (pw * tm) < hi * (sig + 1) * (tw * (tn * t) * k)
  {
    var q, x := tw * tn, te * tm;
    MulMono(1, t, hi);
    ProductBounds(lo * t, d * pw, hi * t, sig * q, x, (sig + 1) * q);
    RegroupUnit(lo, t, sig, tw, tn, k);
    RegroupUnit(hi, t, sig + 1, tw, tn, k);
    RegroupValue(d, te, k, pw, tm);
    ScaleWindow(lo * t * (sig * q), d * pw * x, hi * t * ((sig + 1) * q), k);
  }

  lemma ScaleWindow(a: int, b: int, c: int, k: nat)
    requires a <= b < c && 0 < k
    ensures a * k <= b * k < c * k
  {
    MulMono(a, b, k);
    MulMono(b + 1, c, k);
    Distribute(b, 1, k);
  }

  lemma RegroupUnit(b: nat, t: nat, s: nat, x: nat, y: nat, k: nat)
    ensures b * t * (s * (x * y)) * k == b * s * (x * (y * t) * k)
  {
    calc {
      b * t * (s * (x * y)) * k;
      { Assoc(b * t, s, x * y); Assoc(b, t, s); }
      b * s * t * (x * y) * k;
      { Assoc(b * s, t, x * y); Assoc(x, y, t); }
      b * s * (x * (y * t)) * k;
      { Assoc(b * s, x * (y * t), k); }
      b * s * (x * (y * t) * k);
    }
  }

  lemma RegroupValue(d: nat, a: nat, k: nat, p: nat, b: nat)
    ensures d * a * k * (p * b) == d * p * (a * b) * k
  {
    calc {
      d * a * k * (p * b);
      { Assoc(d * a, k, p * b); }
      d * a * (p * b) * k;
      { Assoc(d * a, p, b); Assoc(d, a, p); Assoc(d * p, a, b); }
      d * p * (a * b) * k;
    }
  }

  // ---------- from a window to the rounded pattern ----------

  /** The scaled value, in units of the scaled product, lies in [lo, hi). */
  ghost predicate Window(v: nat, u: nat, i: nat, pe: int, lo: nat, hi: nat) {
    lo * Unit(pe, u) <= v * Scale(i, pe) < hi * Unit(pe, u)
  }

  ghost predicate Exact(v: nat, u: nat, i: nat, pe: int, full: nat) {
    v * Scale(i, pe) == full * Unit(pe, u)
  }

  lemma UnitPositive(pe: int, u: nat)
    requires 0 < u
    ensures 0 < Unit(pe, u)
  {
    MulMono(1, u, Twos(pe));
    MulMono(1, Twos(pe) * u, Pow2(1074));
  }

  lemma CellOf(half: nat, unit: nat, y: nat, c: nat)
    requires c == 2 * half * unit
    ensures Cell(half, unit * y) == c * y
  {
    Assoc(2 * half, unit, y);
  }

  lemma UnitWindow(lo: nat, hi: nat, x: nat, y: nat, t: nat, slack: nat, unit: nat)
    requires 0 < y && 0 < unit && lo * y <= x < hi * y
    requires t * unit <= lo && hi <= (t + slack) * unit
    ensures 0 < unit * y && t * (unit * y) <= x < (t + slack) * (unit * y)
    ensures t * unit < lo ==> t * (unit * y) < x
  {
    MulMono(1, unit, y);
    MulMono(t * unit, lo, y);
    MulMono(hi, (t + slack) * unit, y);
    Assoc(t, unit, y);
    Assoc(t + slack, unit, y);
    if t * unit < lo {
      ScaleWindow(t * unit, t * unit, lo, y);
    }
  }

  /** A product known to lie in [t, t + slack) units, off the halves, fixes the rounding. */
  lemma Decide(v: nat, u: nat, i: nat, pe: int, lo: nat, hi: nat, t: nat, slack: nat, half: nat, unit: nat, c: nat, n: nat)
    requires 0 < u && Window(v, u, i, pe, lo, hi) && n + i == pe + 1074 + c
    requires 0 < half && 0 < unit && Pow2(c) == 2 * half * unit
    requires t * unit <= lo && hi <= (t + slack) * unit
    requires t % half + slack <= half && (1 <= t % half || t * unit < lo)
    ensures Split(v, Pow2(n) * u, Whole(t, half), if t / half % 2 == 1 then 3 else 1)
  {
    var s, y, w := Scale(i, pe), Unit(pe, u), Pow2(n) * u;
    UnitPositive(pe, u);
    MulMono(1, Pow2(n), u);
    ExponentIdentity(n, i, pe, c, u);
    assert lo * y <= v * s < hi * y;
    hide *;
    UnitWindow(lo, hi, v * s, y, t, slack, unit);
    CellOf(half, unit, y, Pow2(c));
    Between(v * s, unit * y, t, slack, half);
    Unscaled(v, s, Cell(half, unit * y), w, Whole(t, half), if t / half % 2 == 1 then 3 else 1);
  }

  lemma DecideExact(v: nat, u: nat, i: nat, pe: int, t: nat, half: nat, unit: nat, c: nat, n: nat)
    requires 0 < u && Exact(v, u, i, pe, t * unit) && n + i == pe + 1074 + c
    requires 0 < half && 0 < unit && Pow2(c) == 2 * half * unit
    ensures Split(v, Pow2(n) * u, Whole(t, half), Position(t % (2 * half), 2 * half))
  {
    var s, y, w := Scale(i, pe), Unit(pe, u), Pow2(n) * u;
    UnitPositive(pe, u);
    MulMono(1, Pow2(n), u);
    ExponentIdentity(n, i, pe, c, u);
    assert v * s == t * unit * y;
    hide *;
    Assoc(t, unit, y);
    MulMono(1, unit, y);
    CellOf(half, unit, y, Pow2(c));
    Exactly(v * s, unit * y, t, half);
    Unscaled(v, s, Cell(half, unit * y), w, Whole(t, half), Position(t % (2 * half), 2 * half));
  }

  /** The pattern of m * 2^n, or infinity from the overflow threshold on. */
  function Capped(m: nat, n: nat): nat {
    if Pattern(m, n) >= INFINITY then INFINITY else Pattern(m, n)
  }

  function Carry(up: bool): nat {
    if up then 1 else 0
  }

  lemma CappedNearest(v: nat, u: nat, m: nat, n: nat, lost: nat, up: bool)
    requires 0 < u && Split(v, Pow2(n) * u, m, lost) && HIDDEN <= m < 2 * HIDDEN
    requires up <==> RoundsUp(m, lost)
    ensures IsNearestEven(Capped(m + Carry(up), n), v, u)
  {
    hide *;
    NormalNearest(v, u, m, n, lost);
    CappedIs(m, n);
    CappedIs(m + 1, n);
    CarryIs(up);
  }

  lemma CarryIs(up: bool)
    ensures Carry(up) == if up then 1 else 0
  {
  }

  lemma CappedIs(m: nat, n: nat)
    requires HIDDEN <= m <= 2 * HIDDEN
    ensures n <= 2045 ==> Capped(m, n) == Pattern(m, n)
    ensures 2046 <= n ==> Capped(m, n) == INFINITY
  {
  }

  /** roundup and noround (dtoa.c:4003-4019). */
  method FinishTop(t00: nat, up: bool, erv: int) returns (bits: nat)
    requires TOP <= t00 < 2 * TOP && 1 <= erv
    ensures bits == Capped(t00 / 0x800 + Carry(up), erv - 1)
  {
    var t := t00;
    if up {
      t := (t00 + 0x800) % (2 * TOP);
      if t < TOP {
        if erv >= 0x7fe {
          return INFINITY;
        }
        return (erv + 1) * HIDDEN;
      }
    }
    if erv >= 0x7ff {
      return INFINITY;
    }
    bits := erv * HIDDEN + t % TOP / 0x800;
  }

  /** roundup1 and noround1 (dtoa.c:4098-4114), one place lower. */
  method FinishNext(t00: nat, up: bool, erv: int) returns (bits: nat)
    requires TOP / 2 <= t00 < TOP && 2 <= erv
    ensures bits == Capped(t00 / 0x400 + Carry(up), erv - 2)
  {
    var t := t00;
    DivModDef(t00, 0x400);
    if up {
      t := t00 + 0x400;
      DivModUnique(t, TOP / 2, if t < TOP then 1 else 2, t - (if t < TOP then TOP / 2 else TOP));
      if t / (TOP / 2) % 2 == 0 {
        if erv >= 0x7ff {
          return INFINITY;
        }
        return erv * HIDDEN;
      }
    }
    if erv >= 0x800 {
      return INFINITY;
    }
    DivModUnique(t, TOP / 2, 1, t - TOP / 2);
    bits := (erv - 1) * HIDDEN + t % (TOP / 2) / 0x400;
  }

  // ---------- three products ----------

  const P64: nat := W * W
  const P96: nat := W * W * W
  const H41: nat := 0x200_0000_0000 // 2^41

  lemma LargePowers()
    ensures Pow2(107) == 2 * 0x400 * P96 && Pow2(106) == 2 * 0x200 * P96
    ensures Pow2(107) == 2 * (2 * H41) * P64 && Pow2(106) == 2 * H41 * P64
  {
    Pow2Values();
    assert Pow2(10) == 0x400 && Pow2(11) == 0x800;
    hide Pow2;
    Pow2Add(32, 64);
    Pow2Add(10, 96);
    Pow2Add(11, 96);
  }

  lemma WidenWindow(v: nat, u: nat, i: nat, pe: int, lo: nat, hi: nat, hi': nat)
    requires Window(v, u, i, pe, lo, hi) && hi <= hi'
    ensures Window(v, u, i, pe, lo, hi')
  {
    MulMono(hi, hi', Unit(pe, u));
  }

  /** The three-product answer is right: the value is off the halves by more than its error. */
  lemma ThreeSuffice(v: nat, u: nat, i: nat, pe: int, full: nat, brv: nat, ext: nat, t00: nat, half: nat, c: nat, n: nat)
    requires 0 < u && Window(v, u, i, pe, full, full + brv + ext * P96) && n + i == pe + 1074 + c
    requires 0 < half && Pow2(c) == 2 * half * P96
    requires t00 * P96 <= full && full + brv < (t00 + 3) * P96
    requires 1 <= t00 % half && t00 % half + 3 + ext <= half
    ensures Split(v, Pow2(n) * u, Whole(t00, half), if t00 / half % 2 == 1 then 3 else 1)
  {
    hide Window, Split;
    Decide(v, u, i, pe, full, full + brv + ext * P96, t00, 3 + ext, half, P96, c, n);
  }

  /** What the stages start from: the value against the product, and the size of the product. */
  ghost predicate Known(v: nat, u: nat, i: nat, pe: int, full: nat, brv: nat, ext: nat) {
    && 0 < u && Window(v, u, i, pe, full, full + brv + ext * P96)
    && TOP / 2 * P96 <= full < 2 * TOP * P96 && brv < 2 * TOP && ext <= 16
  }

  lemma KnownSize(v: nat, u: nat, i: nat, pe: int, full: nat, brv: nat, ext: nat)
    requires Known(v, u, i, pe, full, brv, ext)
    ensures TOP / 2 * P96 <= full < 2 * TOP * P96 && ext <= 16 && 0 < u
  {
  }

  lemma BelowTwoTop(full: nat, t00: nat)
    requires t00 * P96 <= full < 2 * TOP * P96
    ensures t00 < 2 * TOP
  {
  }

  function Product(brv: nat, p: Entry): nat {
    MulMono(0, brv, p.Sig());
    brv * p.Sig()
  }

  lemma OverBound(brv: nat, ext: nat, sig: nat, lim: nat)
    requires sig < lim
    ensures (brv + ext) * (sig + 1) <= brv * sig + brv + ext * lim
  {
    Distribute(brv, ext, sig + 1);
    MulMono(sig + 1, lim, ext);
  }

  lemma SizeOfProduct(brv: nat, sig: nat)
    requires TOP <= brv < 2 * TOP && TOP * W <= sig < P96
    ensures TOP / 2 * P96 <= brv * sig < 2 * TOP * P96
  {
    MulMono(TOP, brv, sig);
    MulMono(brv + 1, 2 * TOP, sig);
    Distribute(brv, 1, sig);
    MulMono(sig, P96, 2 * TOP);
  }

  lemma FewPlaces(yz: nat, i: nat)
    requires 1_000_000_000_000_000_000 <= yz && yz * Pow2(i) < 2 * TOP
    ensures Pow2(i) <= 16
  {
    MulMono(0x800_0000_0000_0000, yz, Pow2(i));
    assert Pow2(5) == 32;
    if i >= 5 {
      Pow2Mono(5, i);
    } else {
      Pow2Mono(i, 4);
    }
  }

  lemma FewExcess(yz: nat, dropped: nat, i: nat)
    requires yz * Pow2(i) < 2 * TOP && (dropped != 0 ==> 1_000_000_000_000_000_000 <= yz)
    ensures Excess(dropped, i) <= 16
  {
    if dropped != 0 {
      FewPlaces(yz, i);
    }
  }

  lemma EntrySize(p: Entry)
    requires p.Valid()
    ensures TOP * W <= p.Sig() < P96
  {
  }

  lemma ProductIs(brv: nat, p: Entry)
    ensures Product(brv, p) == brv * p.Sig()
  {
  }

  lemma SetupWindow(d: nat, yz: nat, dropped: nat, i: nat, brv: nat, p: Entry, e1: int, ext: nat, full: nat)
    requires Truncates(p, e1) && Leading(d, yz, dropped) && brv == yz * Pow2(i) && 0 < brv
    requires ext == Excess(dropped, i) && full == brv * p.Sig()
    ensures Window(Numer(d, e1), Denom(e1, dropped), i, p.e - 96, full, full + brv + ext * P96)
  {
    EntrySize(p) by { assert p.Valid(); }
    hide Numer, Denom, Unit, Scale, Excess, Leading, Truncates, Entry.Sig, Pow2;
    var v, u := Numer(d, e1), Denom(e1, dropped);
    ScaledWindow(d, yz, dropped, i, brv, p, e1);
    MulMono(0, brv + ext, p.Sig() + 1);
    assert Window(v, u, i, p.e - 96, full, (brv + ext) * (p.Sig() + 1));
    hide *;
    OverBound(brv, ext, p.Sig(), P96);
    WidenWindow(v, u, i, p.e - 96, full, (brv + ext) * (p.Sig() + 1), full + brv + ext * P96);
  }

  lemma Setup(d: nat, yz: nat, nd: nat, dropped: nat, i: nat, brv: nat, p: Entry, e1: int)
    requires Truncates(p, e1) && Leading(d, yz, dropped) && brv == yz * Pow2(i) && TOP <= brv < 2 * TOP
    requires nd <= 19 <==> dropped == 0
    requires nd > 19 ==> 1_000_000_000_000_000_000 <= yz
    ensures Known(Numer(d, e1), Denom(e1, dropped), i, p.e - 96, Product(brv, p), brv, Excess(dropped, i))
  {
    assert p.Valid();
    hide Truncates, Entry.Valid, Entry.Sig, Leading, Window, Numer, Denom, Excess, Pow2, Product;
    EntrySize(p);
    ProductIs(brv, p);
    FewExcess(yz, dropped, i);
    SetupWindow(d, yz, dropped, i, brv, p, e1, Excess(dropped, i), Product(brv, p));
    SizeOfProduct(brv, p.Sig());
  }

  lemma NextIsLower(full: nat, brv: nat, t00: nat)
    requires TOP / 2 * P96 <= full && t00 < TOP && t00 * P96 <= full && full + brv < (t00 + 3) * P96
    requires 1 <= t00 % 0x200 && t00 % 0x200 + 3 <= 0x200
    ensures TOP / 2 <= t00
  {
    assert t00 + 3 <= TOP;
  }

  lemma OffHalves(v: nat, u: nat, m: nat, n: nat, up: bool)
    requires 0 < u && Split(v, Pow2(n) * u, m, if up then 3 else 1) && HIDDEN <= m < 2 * HIDDEN
    ensures IsNearestEven(Capped(m + Carry(up), n), v, u)
  {
    hide IsNearestEven, Capped, Split, Pow2, Carry;
    CappedNearest(v, u, m, n, if up then 3 else 1, up);
  }

  lemma AcceptTop(v: nat, u: nat, i: nat, pe: int, full: nat, brv: nat, ext: nat, t00: nat, n: nat)
    requires Known(v, u, i, pe, full, brv, ext) && n + i == pe + 1074 + 107
    requires TOP <= t00 && t00 * P96 <= full && full + brv < (t00 + 3) * P96
    requires 1 <= t00 % 0x400 && t00 % 0x400 + 3 + ext <= 0x400
    ensures IsNearestEven(Capped(t00 / 0x800 + Carry(t00 / 0x400 % 2 == 1), n), v, u)
  {
    hide Window, Split, IsNearestEven, Capped, Carry, RoundsUp, Whole, Pow2;
    KnownSize(v, u, i, pe, full, brv, ext);
    LargePowers();
    BelowTwoTop(full, t00);
    ThreeSuffice(v, u, i, pe, full, brv, ext, t00, 0x400, 107, n);
    OffHalves(v, u, t00 / 0x800, n, t00 / 0x400 % 2 == 1);
  }

  lemma AcceptNext(v: nat, u: nat, i: nat, pe: int, full: nat, brv: nat, ext: nat, t00: nat, n: nat)
    requires Known(v, u, i, pe, full, brv, ext) && n + i == pe + 1074 + 106
    requires t00 < TOP && t00 * P96 <= full && full + brv < (t00 + 3) * P96
    requires 1 <= t00 % 0x200 && t00 % 0x200 + 3 + ext <= 0x200
    ensures TOP / 2 <= t00
    ensures IsNearestEven(Capped(t00 / 0x400 + Carry(t00 / 0x200 % 2 == 1), n), v, u)
  {
    hide Window, Split, IsNearestEven, Capped, Carry, RoundsUp, Whole, Pow2;
    KnownSize(v, u, i, pe, full, brv, ext);
    LargePowers();
    NextIsLower(full, brv, t00);
    ThreeSuffice(v, u, i, pe, full, brv, ext, t00, 0x200, 106, n);
    OffHalves(v, u, t00 / 0x400, n, t00 / 0x200 % 2 == 1);
  }
}
