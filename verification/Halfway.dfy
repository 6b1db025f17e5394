/** bigcomp as a whole (nolibc/dtoa.c:3257-3460): b/d set up as the value half-way between the
    double rv and the next one, the comparison with the digits, and the choice between the two. */
module Halfway {
  import opened Arith
  import opened Words
  import opened Double
  import opened BigintPool
  import opened BigintMult
  import opened BigintShift
  import opened Dshift
  import opened Bigcomp
  import opened Quorem
  import Decimal = Bf96Products
  import D2b

  // ---------- the last place of a double ----------

  /** An odd number takes no factor two from the other side. */
  lemma OddPart(v: nat, t: nat, m: nat, e: nat)
    requires v % 2 == 1 && 0 < m && v * Pow2(t) == m * Pow2(e)
    ensures e <= t && m == v * Pow2(t - e)
  {
    if t < e {
      Pow2Add(e - t, t);
      Assoc(m, Pow2(e - t), Pow2(t));
      Assoc(m, 2, Pow2(e - t - 1));
      assert m * Pow2(e - t) == 2 * (m * Pow2(e - t - 1));
      SameFactor(v, m * Pow2(e - t), Pow2(t));
    } else {
      Pow2Add(t - e, e);
      Assoc(v, Pow2(t - e), Pow2(e));
      SameFactor(v * Pow2(t - e), m, Pow2(e));
    }
  }

  /** Significand and exponent of a pattern. */
  function Sig(r: nat): nat {
    if r / HIDDEN == 0 then r % HIDDEN else HIDDEN + r % HIDDEN
  }

  function Exp(r: nat): nat {
    if r / HIDDEN == 0 then 0 else r / HIDDEN - 1
  }

  lemma SigExp(r: nat)
    ensures Mag(r) == Sig(r) * Pow2(Exp(r)) && Mag(r + 1) == (Sig(r) + 1) * Pow2(Exp(r))
    ensures Sig(r) < 2 * HIDDEN && (0 < Exp(r) ==> HIDDEN <= Sig(r)) && Sig(r) % 2 == r % 2
    ensures r == Pattern(Sig(r), Exp(r))
  {
    DivModDef(r, HIDDEN);
    PatternMag(Sig(r), Exp(r));
    PatternMag(Sig(r) + 1, Exp(r));
    PatternParity(Sig(r), Exp(r));
  }

  /** Shifting v * 2^t, v odd and `bits` long, by 53 - bits places, but by t at most, brings it to
      the last place of the double. */
  lemma LastPlace(r: nat, v: nat, t: nat, bits: int)
    requires 0 < Mag(r) && v % 2 == 1 && v * Pow2(t) == Mag(r)
    requires 0 < bits && Pow2(bits - 1) <= v < Pow2(bits)
    ensures bits <= 53
    ensures var i := if 53 - bits > t then t else 53 - bits;
      0 <= i <= t && t - i == Exp(r) && v * Pow2(i) == Sig(r)
  {
    SigExp(r);
    var m, e := Sig(r), Exp(r);
    assert m == 0 ==> m * Pow2(e) == 0;
    hide Mag, Sig, Exp;
    OddPart(v, t, m, e);
    LengthOf(v, bits, t - e, m);
    if e > 0 {
      AtLeast53(v, bits, t - e, m);
    }
  }

  lemma LengthOf(v: nat, bits: int, k: nat, m: nat)
    requires 0 < bits && Pow2(bits - 1) <= v && m == v * Pow2(k) && m < 2 * HIDDEN
    ensures bits + k <= 53
  {
    Pow2Values();
    hide Pow2;
    Pow2Add(bits - 1, k);
    MulMono(Pow2(bits - 1), v, Pow2(k));
    if bits + k >= 54 {
      Pow2Mono(53, bits - 1 + k);
    }
  }

  lemma AtLeast53(v: nat, bits: int, k: nat, m: nat)
    requires 0 < bits && v < Pow2(bits) && m == v * Pow2(k) && HIDDEN <= m
    ensures 53 <= bits + k
  {
    Pow2Values();
    hide Pow2;
    Pow2Add(bits, k);
    Below(v, Pow2(bits), Pow2(k));
    if bits + k <= 52 {
      Pow2Mono(bits + k, 52);
    }
  }

  /** Twice the half-way value, in units of 2^-1074. */
  function Midpoint(r: nat): nat {
    Mag(r) + Mag(r + 1)
  }

  lemma MidpointOf(r: nat, v: nat, t: nat, i: nat)
    requires i <= t && t - i == Exp(r) && v * Pow2(i) == Sig(r)
    ensures (v * Pow2(i + 1) + 1) * Pow2(t - i) == Midpoint(r)
  {
    SigExp(r);
    var m, p := Sig(r), Pow2(Exp(r));
    assert v * Pow2(i + 1) == 2 * m by {
      Assoc(v, 2, Pow2(i));
    }
    hide Mag, Sig, Exp, Pow2;
    Distribute(m, m + 1, p);
  }

  // ---------- the half-way value as a Bigint ----------

  /** rv, which strtod holds times 2^106 whenever it may be subnormal, is the double of pattern r. */
  ghost predicate Represents(d0: word, d1: word, scale: nat, r: nat) {
    && d0 < 0x7ff0_0000 && r < INFINITY && (scale == 106 || (scale == 0 && D2b.FRACTION <= d0))
    && Mag(d0 * BASE + d1) == Mag(r) * Pow2(scale)
  }

  lemma ZeroOnlyZero(r: nat)
    ensures Mag(r) == 0 <==> r == 0
  {
    if r > 0 {
      MagIncreases(r - 1);
    }
  }

  lemma OnlyZero(d0: word, d1: word, scale: nat, r: nat)
    requires Represents(d0, d1, scale, r)
    ensures d0 * BASE + d1 == 0 <==> r == 0
  {
    ZeroOnlyZero(r);
    ZeroOnlyZero(d0 * BASE + d1);
    hide Mag;
    if Mag(r) > 0 {
      MulMono(1, Pow2(scale), Mag(r));
    }
  }

  /** b with its lowest bit set: b->x[0] |= 1. */
  method SetLowBit(b: Bigint)
    requires b.Valid() && 0 < b.wds && b.Value() % 2 == 0
    modifies b.x
    ensures b.Valid() && b.Value() == old(b.Value()) + 1
    ensures old(b.Trimmed()) ==> b.Trimmed()
  {
    ghost var s := b.x[..b.wds];
    LowBit(s);
    hide Val;
    b.x[0] := b.x[0] + 1;
    assert b.x[..b.wds] == s[0 := s[0] + 1];
  }

  lemma LowBit(s: seq<word>)
    requires s != [] && Val(s) % 2 == 0
    ensures s[0] % 2 == 0 && s[0] + 1 < BASE && Val(s[0 := s[0] + 1]) == Val(s) + 1
  {
    ValSplit(s, 1);
    SingleWord(s[..1]);
    WeightNext(0);
    var x, h: nat := s[0], Val(s[1..]);
    assert Weight(1) == BASE && Weight(0) == 1 && Val(s) == x + h * BASE;
    hide Val, Weight;
    EvenBase(x, h);
    ValUpdate(s, 0, x + 1);
  }

  lemma EvenBase(x: word, h: nat)
    requires (x + h * BASE) % 2 == 0
    ensures x % 2 == 0 && x + 1 < BASE
  {
    assert h * BASE == 2 * (h * 0x8000_0000);
  }

  /** Up to have_i (dtoa.c:3268-3331): the half-way value is b * 2^(p2 - i). */
  method HalfwayBigint(pool: Pool, d0: word, d1: word, scale: nat, ghost r: nat) returns (b: Bigint, p2: int, i: int)
    requires pool.Valid() && Represents(d0, d1, scale, r)
    modifies pool.Repr
    ensures pool.Valid() && b.Valid() && b.Trimmed() && b.Repr() !! pool.Repr
    ensures fresh(pool.Repr + b.Repr() - old(pool.Repr))
    ensures pool.live == old(pool.live) + {b} && b !in old(pool.live)
    ensures 0 < b.Value() && -1075 <= p2 - i && b.Value() * Pow2(p2 - i + 1075) == Midpoint(r)
  {
    OnlyZero(d0, d1, scale, r);
    if d0 == 0 && d1 == 0 {
      b := I2b(pool, 1);
      MidpointOfZero();
      return b, -1074 - 1, 0;
    }
    b, p2, i := HalfwayNonzero(pool, d0, d1, scale, r);
  }

  method HalfwayNonzero(pool: Pool, d0: word, d1: word, scale: nat, ghost r: nat) returns (b: Bigint, p2: int, i: int)
    requires pool.Valid() && Represents(d0, d1, scale, r) && 0 < r && d0 * BASE + d1 != 0
    modifies pool.Repr
    ensures pool.Valid() && b.Valid() && b.Trimmed() && b.Repr() !! pool.Repr
    ensures fresh(pool.Repr + b.Repr() - old(pool.Repr))
    ensures pool.live == old(pool.live) + {b} && b !in old(pool.live)
    ensures 0 < b.Value() && -1075 <= p2 - i && b.Value() * Pow2(p2 - i + 1075) == Midpoint(r)
  {
    hide Pool.Valid, Val;
    var bits;
    hide Pow2, Mag, Midpoint;
    b, p2, bits := D2b.DoubleToBigint(pool, d0, d1);
    p2 := p2 - scale;
    ghost var v := b.Value();
    HalfwayShift(r, v, p2 + scale + 1074, bits, scale);
    i := 53 - bits;
    var j := 1074 + p2;
    if i > j {
      i := j;
    }
    i := i + 1;
    NonzeroHasWords(b.x[..b.wds]);
    b := Lshift(pool, b, i);
    EvenShift(v, i);
    NonzeroHasWords(b.x[..b.wds]);
    SetLowBit(b);
  }

  lemma EvenShift(v: nat, i: nat)
    requires 0 < i && 0 < v
    ensures 0 < v * Pow2(i) && v * Pow2(i) % 2 == 0
  {
    Assoc(v, 2, Pow2(i - 1));
    MulMono(1, Pow2(i), v);
    assert v * Pow2(i) == 2 * (v * Pow2(i - 1));
  }

  lemma MidpointOfZero()
    ensures 1 * Pow2(0) == Midpoint(0)
  {
  }

  /** Scaling back leaves a whole number of units, and the shift goes to the last place. */
  lemma HalfwayShift(r: nat, v: nat, t: nat, bits: int, scale: nat)
    requires 0 < r && v % 2 == 1 && v * Pow2(t) == Mag(r) * Pow2(scale)
    requires 0 < bits && Pow2(bits - 1) <= v < Pow2(bits)
    ensures scale <= t && bits <= 53
    ensures var i := if 53 - bits > t - scale then t - scale else 53 - bits;
      0 <= i && (v * Pow2(i + 1) + 1) * Pow2(t - scale - i) == Midpoint(r)
  {
    ZeroOnlyZero(r);
    hide Mag;
    OddPart(v, t, Mag(r), scale);
    LastPlace(r, v, t - scale, bits);
    MidpointOf(r, v, t - scale, if 53 - bits > t - scale then t - scale else 53 - bits);
  }

  // ---------- numerator and divisor ----------

  /** b/d is the half-way value over 10^p5, so that the digits d1.d2d3... compare with it. */
  ghost predicate IsRatio(b: nat, d: nat, r: nat, p5: int) {
    b * (Tens(p5) * Pow2(1075)) == Midpoint(r) * Tens(-p5) * d
  }

  /** The half-way value lies between 10^p5 and 16 * 10^p5. */
  ghost predicate Near(r: nat, p5: int) {
    Tens(p5) * Pow2(1075) <= Midpoint(r) * Tens(-p5) < 16 * (Tens(p5) * Pow2(1075))
  }

  function Fives(k: int): (p: nat)
    ensures 0 < p
  {
    if k < 0 then 1 else Pow5(k)
  }

  lemma TensAre(p5: int)
    ensures Tens(p5) == Fives(p5) * Twos(p5) && Tens(-p5) == Fives(-p5) * Twos(-p5)
  {
    assert Pow5(0) == 1 && Pow2(0) == 1 && Pow10(0) == 1;
    if p5 >= 0 {
      TenIsFiveTwo(p5);
    }
    if p5 <= 0 {
      TenIsFiveTwo(-p5);
    }
  }

  lemma TwosAre(p5: int) returns (up: nat, down: nat)
    ensures p5 == up - down && Twos(p5) == Pow2(up) && Twos(-p5) == Pow2(down)
  {
    up, down := if p5 < 0 then 0 else p5, if p5 < 0 then -p5 else 0;
    assert Pow2(0) == 1;
  }

  /** The powers of two balance: the exponents of numerator and divisor differ by n - u - p5. */
  lemma TwosBalance(b2: nat, d2: nat, n: nat, u: nat, p5: int)
    requires b2 - d2 == n - u - p5
    ensures Pow2(b2) * (Twos(p5) * Pow2(u)) == Pow2(n) * Twos(-p5) * Pow2(d2)
  {
    var up, down := TwosAre(p5);
    hide *;
    var total: nat := b2 + (up + u);
    assert total == n + down + d2;
    ThreePowers(b2, up, u, total);
    ThreePowers(n, down, d2, total);
    Assoc(Pow2(b2), Pow2(up), Pow2(u));
    assert Pow2(b2) * (Twos(p5) * Pow2(u)) == Pow2(total);
  }

  lemma ThreePowers(a: nat, b: nat, c: nat, total: nat)
    requires total == a + b + c
    ensures Pow2(a) * Pow2(b) * Pow2(c) == Pow2(total)
  {
    hide *;
    Pow2Add(a, b);
    Pow2Add(a + b, c);
  }

  /** What the shifts and powers of five come to. */
  lemma RatioOf(h: nat, n: nat, b2: nat, d2: nat, r: nat, p5: int)
    requires h * Pow2(n) == Midpoint(r) && b2 - d2 == n - 1075 - p5
    ensures IsRatio(h * Fives(-p5) * Pow2(b2), Fives(p5) * Pow2(d2), r, p5)
  {
    hide Pow2, Midpoint, Tens, Twos, Fives;
    TensAre(p5);
    TwosBalance(b2, d2, n, 1075, p5);
    RatioProducts(h, Fives(p5), Fives(-p5), Twos(p5), Twos(-p5), Pow2(1075), Pow2(b2), Pow2(n), Pow2(d2),
                  Midpoint(r), Tens(p5), Tens(-p5));
  }

  lemma RatioProducts(h: nat, f: nat, f': nat, t: nat, t': nat, k: nat, pb: nat, pn: nat, pd: nat, m: nat, s: nat, s': nat)
    requires pb * (t * k) == pn * t' * pd && m == h * pn && s == f * t && s' == f' * t'
    ensures h * f' * pb * (s * k) == m * s' * (f * pd)
  {
    calc {
      h * f' * pb * (s * k);
      h * f' * pb * (f * t * k);
      h * f' * f * (pb * (t * k));
      h * f' * f * (pn * t' * pd);
      h * pn * (f' * t') * (f * pd);
    }
  }

  // ---------- the set-up ----------

  /** Two live numbers that share nothing. */
  ghost predicate Pair(pool: Pool, b: Bigint, d: Bigint)
    reads pool, pool.Repr, b, b.x, d, d.x
  {
    && pool.Valid() && b.Valid() && b.Trimmed() && 0 < b.Value() && d.Valid() && d.Trimmed() && 0 < d.Value()
    && b != d && b.x != d.x && b.Repr() !! pool.Repr && d.Repr() !! pool.Repr && b in pool.live && d in pool.live
  }

  /** A pair has taken the place of another, and the blocks `made` were kept. */
  ghost predicate RenewsBoth(live: set<Bigint>, before: set<Bigint>, b: Bigint, d: Bigint, b': Bigint, d': Bigint,
                             made: set<Bigint>) {
    && live == before - {b, d} + {b', d'} + made && b' != d'
    && b' !in before - {b, d} + made && d' !in before - {b, d} + made && made !! before - {b, d}
  }

  lemma RenewFirst(live: set<Bigint>, before: set<Bigint>, b: Bigint, d: Bigint, b': Bigint, made: set<Bigint>)
    requires b in before && d in before && b != d && Renews(live, before, b, b', made)
    ensures RenewsBoth(live, before, b, d, b', d, made)
  {
  }

  lemma RenewSecond(live: set<Bigint>, before: set<Bigint>, b: Bigint, d: Bigint, d': Bigint, made: set<Bigint>)
    requires b in before && d in before && b != d && Renews(live, before, d, d', made)
    ensures RenewsBoth(live, before, b, d, b, d', made)
  {
  }

  lemma RenewBoth(live: set<Bigint>, mid: set<Bigint>, before: set<Bigint>, b: Bigint, d: Bigint, b': Bigint, d': Bigint)
    requires b in before && d in before && b != d && Replaces(mid, before, d, d') && Replaces(live, mid, b, b')
    ensures RenewsBoth(live, before, b, d, b', d', {})
  {
  }

  lemma RenewBothAgain(live: set<Bigint>, mid: set<Bigint>, before: set<Bigint>, b: Bigint, d: Bigint, b': Bigint,
                       d': Bigint,
                       b'': Bigint, d'': Bigint, made: set<Bigint>)
    requires RenewsBoth(mid, before, b, d, b', d', made) && RenewsBoth(live, mid, b', d', b'', d'', {})
    ensures RenewsBoth(live, before, b, d, b'', d'', made)
  {
  }

  lemma SwapPair(pool: Pool, b: Bigint, d: Bigint)
    requires Pair(pool, b, d)
    ensures Pair(pool, d, b)
  {
  }

  lemma IsPair(pool: Pool, b: Bigint, d: Bigint)
    requires pool.Valid() && b.Valid() && b.Trimmed() && 0 < b.Value() && d.Valid() && d.Trimmed() && 0 < d.Value()
    requires b.Repr() !! pool.Repr + d.Repr() && d.Repr() !! pool.Repr && b in pool.live && d in pool.live
    ensures Pair(pool, b, d)
  {
  }

  /** The cache shares nothing with the pool and the pair. */
  ghost predicate Beside(pool: Pool, cache: PowerCache, b: Bigint, d: Bigint)
    reads pool, cache, cache.Repr
  {
    cache.Valid() && pool.Repr !! cache.Repr && b.Repr() !! cache.Repr && d.Repr() !! cache.Repr
  }

  /** pow5mult on one of a pair; `other` keeps its value. */
  method RaiseOne(pool: Pool, cache: PowerCache, b: Bigint, other: Bigint, k: nat)
    returns (r: Bigint, ghost made: set<Bigint>)
    requires Pair(pool, b, other) && Beside(pool, cache, b, other) && cache.Nodes() <= pool.live
    modifies pool.Repr, b, b.x, cache, (set c: Bigint | c in cache.chain)`next
    ensures Pair(pool, r, other) && Beside(pool, cache, r, other)
    ensures old(cache.chain) <= cache.chain && old(cache.Repr) <= cache.Repr
    ensures fresh(pool.Repr + r.Repr() - old(pool.Repr) - b.Repr())
    ensures fresh(cache.Repr - old(pool.Repr + cache.Repr) - b.Repr())
    ensures Renews(pool.live, old(pool.live), b, r, made) && cache.Nodes() == old(cache.Nodes()) + made
    ensures r.Value() == old(b.Value()) * Pow5(k) && other.Value() == old(other.Value())
  {
    hide Pool.Valid, PowerCache.Holds, Val;
    ghost var v := b.Value();
    assert other in pool.live && other != b && other.Value() > 0;
    ChainHeld(cache);
    hide PowerCache.Valid, Pow5;
    r, made := Pow5mult(pool, cache, b, k);
    StillThere(pool.live, old(pool.live), b, r, made, other);
    hide Renews;
    MulMono(1, Pow5(k), v);
    IsPair(pool, r, other);
  }

  lemma StillThere(live: set<Bigint>, before: set<Bigint>, b: Bigint, r: Bigint, made: set<Bigint>, c: Bigint)
    requires Renews(live, before, b, r, made) && c in before && c != b
    ensures r in live && c in live
  {
  }

  /** The powers of five: of the divisor or of the numerator (dtoa.c:3336-3339). */
  method TimesFives(pool: Pool, cache: PowerCache, b0: Bigint, d0: Bigint, p5: int, ghost own: set<object>)
    returns (b: Bigint, d: Bigint, ghost made: set<Bigint>)
    requires Pair(pool, b0, d0) && Beside(pool, cache, b0, d0) && own == pool.Repr + b0.Repr() + d0.Repr()
    requires cache.Nodes() <= pool.live
    modifies own, cache, (set c: Bigint | c in cache.chain)`next
    ensures Pair(pool, b, d) && Beside(pool, cache, b, d)
    ensures old(cache.chain) <= cache.chain && old(cache.Repr) <= cache.Repr
    ensures fresh(pool.Repr + b.Repr() + d.Repr() - own) && fresh(cache.Repr - old(cache.Repr) - own)
    ensures RenewsBoth(pool.live, old(pool.live), b0, d0, b, d, made) && cache.Nodes() == old(cache.Nodes()) + made
    ensures b.Value() == old(b0.Value()) * Fives(-p5) && d.Value() == old(d0.Value()) * Fives(p5)
  {
    hide Pool.Valid, PowerCache.Valid, Val;
    b, d, made := b0, d0, {};
    InPool(pool, b0, d0);
    Unchanged(pool.live, b0, d0);
    FivesAre(p5);
    hide Pair, Beside, Renews, RenewsBoth, Fives, PowerCache.Nodes;
    if p5 > 0 {
      SwapPair(pool, b, d);
      SwapBeside(pool, cache, b, d);
      d, made := RaiseOne(pool, cache, d, b, p5);
      SwapPair(pool, d, b);
      SwapBeside(pool, cache, d, b);
      RenewSecond(pool.live, old(pool.live), b0, d0, d, made);
    } else if p5 < 0 {
      b, made := RaiseOne(pool, cache, b, d, -p5);
      RenewFirst(pool.live, old(pool.live), b0, d0, b, made);
    }
  }

  lemma SwapBeside(pool: Pool, cache: PowerCache, b: Bigint, d: Bigint)
    requires Beside(pool, cache, b, d)
    ensures Beside(pool, cache, d, b)
  {
  }

  lemma InPool(pool: Pool, b: Bigint, d: Bigint)
    requires Pair(pool, b, d)
    ensures b in pool.live && d in pool.live && b != d && b.x != d.x
  {
  }

  lemma Unchanged(live: set<Bigint>, b: Bigint, d: Bigint)
    requires b in live && d in live && b != d
    ensures RenewsBoth(live, live, b, d, b, d, {})
  {
  }

  lemma FivesAre(p5: int)
    ensures p5 > 0 ==> Fives(p5) == Pow5(p5)
    ensures p5 <= 0 ==> Fives(p5) == 1
    ensures p5 < 0 ==> Fives(-p5) == Pow5(-p5)
    ensures p5 >= 0 ==> Fives(-p5) == 1
  {
    assert Pow5(0) == 1;
  }

  /** lshift on one of a pair. */
  method ShiftOne(pool: Pool, b: Bigint, other: Bigint, k: nat) returns (r: Bigint)
    requires Pair(pool, b, other)
    modifies pool.Repr, b
    ensures Pair(pool, r, other)
    ensures fresh(pool.Repr + r.Repr() - old(pool.Repr) - b.Repr())
    ensures Replaces(pool.live, old(pool.live), b, r)
    ensures r.Value() == old(b.Value()) * Pow2(k) && other.Value() == old(other.Value())
  {
    hide Pool.Valid, Val;
    ghost var v := b.Value();
    InPool(pool, b, other);
    NonzeroTop(b.x[..b.wds]);
    assert Pow2(0) == 1;
    hide Pow2;
    r := b;
    if k > 0 {
      r := Lshift(pool, b, k);
    }
    MulMono(1, Pow2(k), v);
    IsPair(pool, r, other);
  }

  /** dshift and the shift of the divisor. */
  method AlignOne(pool: Pool, d: Bigint, other: Bigint, d2: nat) returns (r: Bigint, i: nat)
    requires Pair(pool, d, other)
    modifies pool.Repr, d
    ensures Pair(pool, r, other) && IsDivisor(r)
    ensures fresh(pool.Repr + r.Repr() - old(pool.Repr) - d.Repr())
    ensures Replaces(pool.live, old(pool.live), d, r)
    ensures r.Value() == old(d.Value()) * Pow2(d2 + i) && other.Value() == old(other.Value())
  {
    hide Pool.Valid, Val;
    ghost var v := d.Value();
    InPool(pool, d, other);
    NonzeroTop(d.x[..d.wds]);
    hide Pow2;
    r, i := AlignDivisor(pool, d, d2);
    MulMono(1, Pow2(d2 + i), v);
    IsPair(pool, r, other);
  }

  /** dshift and the two shifts (dtoa.c:3340-3352). */
  method TimesTwos(pool: Pool, b0: Bigint, d0: Bigint, p2: int) returns (b: Bigint, d: Bigint, ghost b2: nat, ghost d2: nat)
    requires Pair(pool, b0, d0)
    modifies pool.Repr, b0, b0.x, d0, d0.x
    ensures Pair(pool, b, d) && IsDivisor(d) && b2 - d2 == p2
    ensures fresh(pool.Repr + b.Repr() + d.Repr() - old(pool.Repr) - b0.Repr() - d0.Repr())
    ensures RenewsBoth(pool.live, old(pool.live), b0, d0, b, d, {})
    ensures b.Value() == old(b0.Value()) * Pow2(b2) && d.Value() == old(d0.Value()) * Pow2(d2)
  {
    hide Pool.Valid, Val;
    InPool(pool, b0, d0);
    SwapPair(pool, b0, d0);
    var bs, ds := if p2 > 0 then p2 else 0, if p2 > 0 then 0 else -p2;
    hide Pair, Pow2, Replaces, RenewsBoth, IsDivisor;
    var i;
    d, i := AlignOne(pool, d0, b0, ds);
    ghost var mid := pool.live;
    SwapPair(pool, d, b0);
    b := ShiftOne(pool, b0, d, bs + i);
    b2, d2 := bs + i, ds + i;
    RenewBoth(pool.live, mid, old(pool.live), b0, d0, b, d);
  }

  lemma NonzeroTop(s: seq<word>)
    requires 0 < Val(s) && (1 < |s| ==> s[|s| - 1] != 0)
    ensures s != [] && s[|s| - 1] != 0
  {
    if |s| == 1 && s[0] == 0 {
      ValZeros(s);
    }
  }

  /** A call has added two numbers to the live ones, and blocks that are kept. */
  ghost predicate Adds(live: set<Bigint>, before: set<Bigint>, b: Bigint, d: Bigint, made: set<Bigint>) {
    && live == before + {b, d} + made && b != d && made !! before
    && b !in before + made && d !in before + made
  }

  lemma AddsBoth(live: set<Bigint>, mid: set<Bigint>, before: set<Bigint>, b0: Bigint, d0: Bigint, b: Bigint, d: Bigint,
                 made: set<Bigint>)
    requires mid == before + {b0, d0} && b0 != d0 && b0 !in before && d0 !in before
    requires RenewsBoth(live, mid, b0, d0, b, d, made)
    ensures Adds(live, before, b, d, made)
  {
    assert before == mid - {b0, d0};
    assert live == before + {b, d} + made;
  }

  lemma FromNear(b: nat, d: nat, r: nat, p5: int)
    requires IsRatio(b, d, r, p5) && Near(r, p5) && 0 < d
    ensures d <= b < 16 * d
  {
    hide Pow2, Tens, Midpoint;
    MulMono(1, Pow2(1075), Tens(p5));
    Between16(b, d, Tens(p5) * Pow2(1075), Midpoint(r) * Tens(-p5));
  }

  lemma Between16(b: nat, d: nat, w: nat, m: nat)
    requires b * w == m * d && 0 < w <= m < 16 * w && 0 < d
    ensures d <= b < 16 * d
  {
    MulMono(w, m, d);
    MulMono(m + 1, 16 * w, d);
    Distribute(m, 1, d);
    Assoc(16, w, d);
    CancelFactor(d, b, w);
    if b >= 16 * d {
      MulMono(16 * d, b, w);
      Assoc(16, d, w);
    }
  }

  /** The set-up as a whole (dtoa.c:3265-3352): two numbers whose ratio is the half-way value over
      10^p5, the divisor aligned for quorem. */
  method Operands(pool: Pool, cache: PowerCache, d0: word, d1: word, scale: nat, p5: int, ghost r: nat)
    returns (b: Bigint, d: Bigint, ghost made: set<Bigint>)
    requires pool.Valid() && cache.Valid() && pool.Repr !! cache.Repr && cache.Nodes() <= pool.live
    requires Represents(d0, d1, scale, r) && Near(r, p5)
    modifies pool.Repr, cache, (set c: Bigint | c in cache.chain)`next
    ensures Comparing(pool, b, d) && Beside(pool, cache, b, d) && 0 < d.Value() && IsRatio(b.Value(), d.Value(), r, p5)
    ensures old(cache.chain) <= cache.chain && old(cache.Repr) <= cache.Repr
    ensures fresh(pool.Repr + b.Repr() + d.Repr() - old(pool.Repr)) && fresh(cache.Repr - old(pool.Repr + cache.Repr))
    ensures Adds(pool.live, old(pool.live), b, d, made) && cache.Nodes() == old(cache.Nodes()) + made
  {
    hide Pool.Valid, PowerCache.Valid, Val;
    var p2, i;
    b, d, p2, i := TwoOperands(pool, cache, d0, d1, scale, r);
    ghost var mid, b0, d0' := pool.live, b, d;
    hide Beside, Pair, RenewsBoth, Adds, Pow2, IsRatio, Near, PowerCache.Nodes, Comparing, Midpoint;
    b, d, made := Balance(pool, cache, b, d, p2 - i, p5, r, pool.Repr + b.Repr() + d.Repr());
    AddsBoth(pool.live, mid, old(pool.live), b0, d0', b, d, made);
  }

  /** Powers of five and of two on both sides. */
  method Balance(pool: Pool, cache: PowerCache, b0: Bigint, d0: Bigint, e: int, p5: int, ghost r: nat,
                 ghost own: set<object>)
    returns (b: Bigint, d: Bigint, ghost made: set<Bigint>)
    requires Pair(pool, b0, d0) && Beside(pool, cache, b0, d0) && own == pool.Repr + b0.Repr() + d0.Repr()
    requires -1075 <= e && b0.Value() * Pow2(e + 1075) == Midpoint(r) && d0.Value() == 1 && Near(r, p5)
    requires cache.Nodes() <= pool.live
    modifies own, cache, (set c: Bigint | c in cache.chain)`next
    ensures Comparing(pool, b, d) && Beside(pool, cache, b, d) && 0 < d.Value() && IsRatio(b.Value(), d.Value(), r, p5)
    ensures old(cache.chain) <= cache.chain && old(cache.Repr) <= cache.Repr
    ensures fresh(pool.Repr + b.Repr() + d.Repr() - own) && fresh(cache.Repr - old(cache.Repr) - own)
    ensures RenewsBoth(pool.live, old(pool.live), b0, d0, b, d, made) && cache.Nodes() == old(cache.Nodes()) + made
  {
    hide Pool.Valid, PowerCache.Valid, Val;
    ghost var h, w := b0.Value(), d0.Value();
    hide Beside, Pair, RenewsBoth, Fives, Pow2, IsRatio, Near, Comparing, Midpoint;
    b, d, made := TimesFives(pool, cache, b0, d0, p5, own);
    b, d := AlignedRatio(pool, cache, b, d, h, w, e, p5, r, old(pool.live), b0, d0, made, pool.Repr + b.Repr() + d.Repr());
  }

  /** The shifts, which leave the cache alone. */
  method AlignedRatio(pool: Pool, cache: PowerCache, b0: Bigint, d0: Bigint, ghost h: nat, ghost w: nat, e: int, p5: int,
                      ghost r: nat, ghost before: set<Bigint>, ghost b': Bigint, ghost d': Bigint, ghost made: set<Bigint>,
                      ghost own: set<object>)
    returns (b: Bigint, d: Bigint)
    requires Pair(pool, b0, d0) && Beside(pool, cache, b0, d0) && own == pool.Repr + b0.Repr() + d0.Repr()
    requires RenewsBoth(pool.live, before, b', d', b0, d0, made)
    requires b0.Value() == h * Fives(-p5) && d0.Value() == w * Fives(p5) && w == 1
    requires -1075 <= e && h * Pow2(e + 1075) == Midpoint(r) && Near(r, p5)
    modifies own
    ensures Comparing(pool, b, d) && Beside(pool, cache, b, d) && 0 < d.Value() && IsRatio(b.Value(), d.Value(), r, p5)
    ensures unchanged(cache) && fresh(pool.Repr + b.Repr() + d.Repr() - own)
    ensures RenewsBoth(pool.live, before, b', d', b, d, made)
  {
    hide Pool.Valid, PowerCache.Valid, Val;
    hide PowerCache.Holds, Pair, RenewsBoth, Fives, Pow2, IsRatio, Near, Comparing, Midpoint;
    ghost var b2, d2;
    b, d, b2, d2 := TimesTwos(pool, b0, d0, e - p5);
    RenewBothAgain(pool.live, old(pool.live), before, b', d', b0, d0, b, d, made);
    RatioOf(h, e + 1075, b2, d2, r, p5);
    Compares(pool, b, d, r, p5);
  }

  lemma Compares(pool: Pool, b: Bigint, d: Bigint, r: nat, p5: int)
    requires Pair(pool, b, d) && Quorem.IsDivisor(d) && IsRatio(b.Value(), d.Value(), r, p5) && Near(r, p5)
    ensures Comparing(pool, b, d) && 0 < d.Value()
  {
    FromNear(b.Value(), d.Value(), r, p5);
    hide Pool.Valid, IsRatio, Near, Val;
    SixteenfoldFits(b.x[..b.wds], d.x[..d.wds]);
  }

  /** b, and the divisor one. */
  method TwoOperands(pool: Pool, cache: PowerCache, d0: word, d1: word, scale: nat, ghost r: nat)
    returns (b: Bigint, d: Bigint, p2: int, i: int)
    requires pool.Valid() && cache.Valid() && pool.Repr !! cache.Repr && Represents(d0, d1, scale, r)
    modifies pool.Repr
    ensures Pair(pool, b, d) && Beside(pool, cache, b, d) && unchanged(cache)
    ensures fresh(pool.Repr + b.Repr() + d.Repr() - old(pool.Repr))
    ensures pool.live == old(pool.live) + {b, d} && b != d && b !in old(pool.live) && d !in old(pool.live)
    ensures -1075 <= p2 - i && b.Value() * Pow2(p2 - i + 1075) == Midpoint(r) && d.Value() == 1
  {
    hide Pool.Valid, PowerCache.Holds, Val;
    hide Represents, Midpoint, Pow2;
    b, p2, i := HalfwayBigint(pool, d0, d1, scale, r);
    d := I2b(pool, 1);
    IsPair(pool, b, d);
  }

  // ---------- what the comparison decides ----------

  /** The powers of ten of the digits and of the ratio cancel: p5 = e0 + nd - 1. */
  lemma TensBalance(n: nat, e0: int)
    ensures Tens(e0 + n) * Tens(-e0) == Tens(-(e0 + n)) * Pow10(n) * Tens(e0)
  {
    var k := e0 + n;
    assert Pow10(0) == 1;
    if e0 >= 0 {
      Pow10Add(n, e0);
    } else if k >= 0 {
      Pow10Add(k, -e0);
    } else {
      Pow10Add(-k, n);
    }
  }

  /** The sign against b/d is the sign of the input less the half-way value. */
  lemma SignOfInput(dd: int, ds: seq<nat>, b: nat, d: nat, r: nat, e0: int)
    requires 0 < |ds| && 0 < d <= b && Decided(dd, ds, Compared(b, d), d) && IsRatio(b, d, r, |ds| + e0 - 1)
    ensures SignOf(dd, 2 * Decimal.Numer(DigitsVal(ds), e0), Midpoint(r) * Decimal.Denom(e0, 0))
  {
    hide Pow2, Tens, DigitsVal, Midpoint;
    var n: nat := |ds| - 1;
    var p5, k := n + e0, Pow2(1075);
    TensBalance(n, e0);
    Pow2Next(1074);
    assert Pow10(0) == 1;
    assert Decimal.Numer(DigitsVal(ds), e0) == DigitsVal(ds) * Tens(e0) * Pow2(1074);
    assert Decimal.Denom(e0, 0) == Tens(-e0) * Pow10(0);
    assert SignOf(dd, DigitsVal(ds) * d, b * Pow10(n));
    assert b * (Tens(p5) * k) == Midpoint(r) * Tens(-p5) * d;
    hide *;
    SameSigns(dd, DigitsVal(ds), d, b, Pow10(n), Tens(p5), Tens(-p5), Tens(e0), Tens(-e0), k, Pow2(1074), Midpoint(r),
              2 * Decimal.Numer(DigitsVal(ds), e0), Midpoint(r) * Decimal.Denom(e0, 0));
  }

  lemma SameSigns(dd: int, v: nat, d: nat, b: nat, w: nat, t: nat, t': nat, s: nat, s': nat, k: nat, k': nat, m: nat,
                  x: nat, y: nat)
    requires 0 < d && 0 < w && 0 < t && 0 < t' && 0 < s && 0 < s' && k == 2 * k' && 0 < k'
    requires SignOf(dd, v * d, b * w) && b * (t * k) == m * t' * d && t * s' == t' * w * s
    requires x == 2 * (v * s * k') && y == m * (s' * 1)
    ensures SignOf(dd, x, y)
  {
    // both sides times t * k * s', and then without d * t' * w
    assert x == v * s * k by {
      Assoc(2, v * s, k');
    }
    Positive(t, k);
    Positive(t * k, s');
    Positive(d, t');
    Positive(d * t', w);
    LeftSide(v, d, w, t, t', s, s', k);
    RightSide(d, b, w, t, t', s', k, m);
    ScaleSign(dd, v * d, b * w, t * k * s');
    SameSign(dd, x, y, x * (d * t' * w), y * (d * t' * w), d * t' * w);
  }

  lemma LeftSide(v: nat, d: nat, w: nat, t: nat, t': nat, s: nat, s': nat, k: nat)
    requires t * s' == t' * w * s
    ensures v * d * (t * k * s') == v * s * k * (d * t' * w)
  {
    calc {
      v * d * (t * k * s');
      v * d * k * (t * s');
      v * d * k * (t' * w * s);
      v * s * k * (d * t' * w);
    }
  }

  lemma RightSide(d: nat, b: nat, w: nat, t: nat, t': nat, s': nat, k: nat, m: nat)
    requires b * (t * k) == m * t' * d
    ensures b * w * (t * k * s') == m * (s' * 1) * (d * t' * w)
  {
    calc {
      b * w * (t * k * s');
      b * (t * k) * (w * s');
      m * t' * d * (w * s');
      m * s' * (d * t' * w);
    }
  }

  lemma Positive(a: nat, b: nat)
    requires 0 < a && 0 < b
    ensures 0 < a * b
  {
    MulMono(1, a, b);
  }

  lemma ScaleSign(dd: int, x: nat, y: nat, w: nat)
    requires 0 < w && SignOf(dd, x, y)
    ensures SignOf(dd, x * w, y * w)
  {
    if x < y {
      Below(x, y, w);
    } else if y < x {
      Below(y, x, w);
    }
  }

  /** Keeping rv or taking the next double, by the sign and, on a tie, by parity, is right. */
  lemma NearestOfTwo(dd: int, up: bool, r: nat, v: nat, u: nat)
    requires 0 < u && r < INFINITY && Mag(r) * u <= v <= Mag(r + 1) * u && SignOf(dd, 2 * v, Midpoint(r) * u)
    requires up <==> dd > 0 || (dd == 0 && r % 2 == 1)
    ensures IsNearestEven(if up then r + 1 else r, v, u)
  {
    var lo, hi := Mag(r), Mag(r + 1);
    hide Mag, IsNearestEven;
    Assoc(2, lo, u);
    Assoc(2, hi, u);
    if up {
      if v == hi * u {
        TopIsNearest(r, v, u, lo, hi);
      } else {
        RoundedUp(r + 1, v, u, lo, hi);
      }
    } else {
      RoundedDown(r, v, u, lo, hi);
    }
  }

  lemma TopIsNearest(r: nat, v: nat, u: nat, lo: nat, hi: nat)
    requires 0 < u && r < INFINITY && lo == Mag(r) && hi == Mag(r + 1) && v == hi * u
    ensures IsNearestEven(r + 1, v, u)
  {
    MagIncreases(r);
    MagIncreases(r + 1);
    hide Mag;
    Assoc(2, hi, u);
    Below(lo + hi, 2 * hi, u);
    Below(2 * hi, hi + Mag(r + 2), u);
  }

  // ---------- how strtod calls it ----------

  /** strtod calls bigcomp when rv is not above the input cut after some digits, and that is not
      above the middle (dtoa.c:4388-4399). Then the half-way value has a first digit, and the
      rescaling of the comparison never happens. */
  lemma CalledNear(ds: seq<nat>, k: nat, r: nat, e0: int)
    requires AreDigits(ds) && 1 <= k <= |ds| && 1 <= ds[0] && 0 < r
    requires var cut := DigitsVal(ds[..k]) * Pow10(|ds| - k);
      2 * Decimal.Numer(cut, e0) <= Midpoint(r) * Decimal.Denom(e0, 0)
    requires Mag(r) * Decimal.Denom(e0, 0) <= Decimal.Numer(DigitsVal(ds), e0)
    ensures Near(r, |ds| + e0 - 1)
  {
    hide Pow2, Tens, DigitsVal, Midpoint, Mag;
    var n: nat := |ds| - 1;
    var cut, v := DigitsVal(ds[..k]) * Pow10(|ds| - k), DigitsVal(ds);
    LeadingDigit(ds, k);
    BelowTen(ds);
    TensBalance(n, e0);
    Pow2Next(1074);
    assert Pow10(0) == 1;
    assert Decimal.Denom(e0, 0) == Tens(-e0) * 1;
    assert Decimal.Numer(cut, e0) == cut * Tens(e0) * Pow2(1074) && Decimal.Numer(v, e0) == v * Tens(e0) * Pow2(1074);
    MidpointBelow(r);
    Between1and16(cut, v, Pow10(n), Tens(n + e0), Tens(-(n + e0)), Tens(e0), Tens(-e0), Pow2(1074), Midpoint(r), Mag(r));
  }

  /** The cut input is at least 10^n. */
  lemma LeadingDigit(ds: seq<nat>, k: nat)
    requires AreDigits(ds) && 1 <= k <= |ds| && 1 <= ds[0]
    ensures Pow10(|ds| - 1) <= DigitsVal(ds[..k]) * Pow10(|ds| - k)
  {
    hide Pow10;
    assert DigitsVal([]) == 0;
    hide DigitsVal;
    var t := ds[..k];
    DigitsAfter(t, 1);
    DigitsNext(ds, 0);
    assert t[..1] == ds[..1] && ds[..0] == [];
    hide *;
    Pow10Add(k - 1, |ds| - k);
    assert k - 1 + (|ds| - k) == |ds| - 1;
    MulMono(1, ds[0], Pow10(k - 1));
    MulMono(Pow10(k - 1), DigitsVal(t), Pow10(|ds| - k));
  }

  /** The input is less than 10^(n+1). */
  lemma BelowTen(ds: seq<nat>)
    requires AreDigits(ds) && 0 < |ds|
    ensures DigitsVal(ds) < 10 * Pow10(|ds| - 1)
  {
    hide Pow10;
    DigitsAfter(ds, 0);
    assert ds[..0] == [] && DigitsVal([]) == 0;
    Pow10Next(|ds| - 1);
  }

  lemma MidpointBelow(r: nat)
    requires 0 < r
    ensures Midpoint(r) <= 3 * Mag(r)
  {
    SigExp(r);
    ZeroOnlyZero(r);
    var m, p := Sig(r), Pow2(Exp(r));
    hide *;
    NotZero(m, p);
    Distribute(m, 1, p);
    MulMono(1, m, p);
    assert Midpoint(r) == m * p + (m + 1) * p by {
      MidpointIs(r);
    }
  }

  lemma NotZero(m: nat, p: nat)
    requires 0 < m * p
    ensures 0 < m
  {
  }

  lemma MidpointIs(r: nat)
    ensures Midpoint(r) == Mag(r) + Mag(r + 1)
  {
  }

  lemma Between1and16(cut: nat, v: nat, w: nat, t: nat, t': nat, s: nat, s': nat, k: nat, m: nat, g: nat)
    requires w <= cut && v < 10 * w && 0 < t && 0 < t' && 0 < s && 0 < s' && 0 < k && m <= 3 * g
    requires t * s' == t' * w * s
    requires 2 * (cut * s * k) <= m * (s' * 1) && g * (s' * 1) <= v * s * k
    ensures t * (2 * k) <= m * t' < 16 * (t * (2 * k))
  {
    // with q = w s k: 2 q <= m s' < 30 q, both times t'
    var q := Times(Times(w, s), k);
    SameProduct(t, t', w, s, s', k, q);
    Positive(t, k);
    var x := Times(m, s');
    MiddleBounds(cut, v, w, s, s', k, m, g, x, q);
    MulMono(2 * q, x, t');
    Below(x, 30 * q, t');
    hide *;
    Finish16(m, Times(t, k), q, s', t');
  }

  lemma MiddleBounds(cut: nat, v: nat, w: nat, s: nat, s': nat, k: nat, m: nat, g: nat, x: nat, q: nat)
    requires w <= cut && v < 10 * w && 0 < s && 0 < k && m <= 3 * g && x == m * s' && q == w * s * k
    requires 2 * (cut * s * k) <= m * (s' * 1) && g * (s' * 1) <= v * s * k
    ensures 2 * q <= x < 30 * q
  {
    AtLeastOnce(cut, w, s, k);
    AtMostTen(v, w, s, k);
    MulMono(m, 3 * g, s');
    Assoc(3, g, s');
  }

  lemma SameProduct(t: nat, t': nat, w: nat, s: nat, s': nat, k: nat, q: nat)
    requires t * s' == t' * w * s && q == w * s * k
    ensures t * k * s' == q * t'
  {
    calc {
      t * k * s';
      t * s' * k;
      t' * w * s * k;
      w * s * k * t';
    }
  }

  lemma AtLeastOnce(cut: nat, w: nat, s: nat, k: nat)
    requires w <= cut
    ensures w * s * k <= cut * s * k
  {
    MulMono(w, cut, s);
    MulMono(w * s, cut * s, k);
  }

  lemma AtMostTen(v: nat, w: nat, s: nat, k: nat)
    requires v < 10 * w && 0 < s && 0 < k
    ensures v * s * k < 10 * (w * s * k)
  {
    Below(v, 10 * w, s);
    Below(v * s, 10 * w * s, k);
    Assoc(10, w, s);
    Assoc(10, w * s, k);
  }

  lemma Finish16(m: nat, z: nat, q: nat, s': nat, t': nat)
    requires 0 < s' && 0 < t' && z * s' == q * t' && 0 < z
    requires 2 * q * t' <= m * s' * t' < 30 * q * t'
    ensures 2 * z <= m * t' < 32 * z
  {
    Assoc(2, q, t');
    Assoc(30, q, t');
    Assoc(2, z, s');
    Assoc(30, z, s');
    Assoc(m, s', t');
    CancelFactor(2 * z, m * t', s');
    if 30 * z <= m * t' {
      MulMono(30 * z, m * t', s');
    }
  }

  /** The digits cut after the k-th. */
  ghost function Cut(ds: seq<nat>, k: nat): nat
    requires k <= |ds|
  {
    DigitsVal(ds[..k]) * Pow10(|ds| - k)
  }

  /** The test that calls bigcomp, on the input cut after k digits (dtoa.c:4276-4399): rv is not
      above it, and it is not above the middle. strtod keeps 18 digits. A zero rv is the result of a
      first approximation that was at least 2^-1076, so that the input starts at 10^-324. */
  ghost predicate Calls(ds: seq<nat>, k: nat, r: nat, e0: int) {
    && 18 <= k <= |ds| && 1 <= ds[0] && (r == 0 ==> |ds| + e0 - 1 == -324)
    && Mag(r) * Decimal.Denom(e0, 0) <= Decimal.Numer(Cut(ds, k), e0)
    && 2 * Decimal.Numer(Cut(ds, k), e0) <= Midpoint(r) * Decimal.Denom(e0, 0)
  }

  /** The digits cut off count for less than one of the last kept. */
  lemma CutBelow(ds: seq<nat>, k: nat)
    requires AreDigits(ds) && k <= |ds|
    ensures Cut(ds, k) <= DigitsVal(ds) < Cut(ds, k) + Pow10(|ds| - k)
  {
    DigitsAfter(ds, k);
  }

  /** 18 digits determine a double: what was cut off is less than half a unit in the last place, so
      that an input cut to the middle or below lies below the next double. */
  lemma Encloses(ds: seq<nat>, k: nat, r: nat, e0: int)
    requires AreDigits(ds) && Calls(ds, k, r, e0)
    ensures Mag(r) * Decimal.Denom(e0, 0) <= Decimal.Numer(DigitsVal(ds), e0) <= Mag(r + 1) * Decimal.Denom(e0, 0)
    ensures Near(r, |ds| + e0 - 1)
  {
    hide Near, Pow2, Pow10, Mag, Sig, Exp, DigitsVal, Tens, Midpoint;
    var c, v, g, u := Cut(ds, k), DigitsVal(ds), Pow10(|ds| - k), Decimal.Denom(e0, 0);
    CutBelow(ds, k);
    LeadingDigit(ds, k);
    Pow10Add(k - 1, |ds| - k);
    SeventeenTens(k - 1);
    SigExp(r);
    MidpointIs(r);
    var t, w := Tens(e0), Pow2(1074);
    assert Decimal.Numer(c, e0) == c * t * w && Decimal.Numer(v, e0) == v * t * w;
    assert Pow10(k - 1) * g <= c;
    MulMono(100000000000000000, Pow10(k - 1), g);
    hide Cut;
    BelowNext(c, v, g, Times(t, w), Sig(r), Pow2(Exp(r)), u) by {
      Assoc(c, t, w);
      Assoc(v, t, w);
    }
    Assoc(c, t, w);
    Assoc(v, t, w);
    MulMono(c, v, Times(t, w));
    if r == 0 {
      NearZero(|ds| + e0 - 1);
    } else {
      CalledNear(ds, k, r, e0);
    }
  }

  lemma SeventeenTens(k: nat)
    requires 17 <= k
    ensures 100000000000000000 <= Pow10(k)
  {
    Pow10Add(17, k - 17);
    TenTo17();
    hide Pow10;
    MulMono(1, Pow10(k - 17), Pow10(17));
  }

  lemma TenTo17()
    ensures Pow10(17) == 100000000000000000
  {
    Pow10Add(9, 8);
    Pow10Add(5, 4);
    Pow10Add(4, 4);
    assert Pow10(4) == 10000 && Pow10(5) == 100000;
  }

  /** With s units a digit and p u units a place: 10^17 g s <= c s <= (m + 1) p u <= 2^53 p u. */
  lemma BelowNext(c: nat, v: nat, g: nat, s: nat, m: nat, p: nat, u: nat)
    requires 100000000000000000 * g <= c && v < c + g && 0 < s && 0 < p && 0 < u && m < 2 * HIDDEN
    requires 2 * (c * s) <= (m * p + (m + 1) * p) * u
    ensures v * s <= (m + 1) * p * u
  {
    var a, x := Times(p, u), Times(g, s);
    assert (m * p + (m + 1) * p) * u == 2 * (m * a) + a && (m + 1) * p * u == m * a + a by {
      Distribute(m, 1, p);
      Distribute(m * p, m * p + p, u);
      Distribute(m * p, p, u);
      Assoc(m, p, u);
    }
    MulMono(m + 1, 2 * HIDDEN, a);
    Distribute(m, 1, a);
    MulMono(100000000000000000 * g, c, s);
    Assoc(100000000000000000, g, s);
    MulMono(v, c + g, s);
    Distribute(c, g, s);
    hide Times;
    assert 2 * x <= a;
  }

  // ---------- a zero rv ----------

  /** Half the least subnormal has its first digit at 10^-324. */
  lemma NearZero(p5: int)
    ensures Near(0, p5) <==> p5 == -324
  {
    assert Midpoint(0) == 1 by {
      UnitMag(0);
      UnitMag(1);
    }
    hide Midpoint, Pow2, Pow5, Pow10;
    if p5 >= 0 {
      TwoTo1075();
      assert Tens(-p5) <= 1 by {
        TenTo0();
      }
      MulMono(1, Tens(p5), Pow2(1075));
    } else {
      TenBetween(-p5);
    }
  }

  lemma TenTo0()
    ensures Pow10(0) == 1
  {
  }

  lemma TwoTo1075()
    ensures 1 < Pow2(1075)
  {
    Pow2Values();
    Pow2Mono(8, 1075);
  }

  /** 2^1075 <= 10^n < 2^1079 for n = 324 alone. */
  lemma TenBetween(n: nat)
    ensures Pow2(1075) <= Pow10(n) < 16 * Pow2(1075) <==> n == 324
  {
    hide Pow2, Pow10;
    TenTo324();
    if n < 324 {
      Pow10Mono(n, 323);
    } else if n > 324 {
      Pow10Mono(325, n);
    }
  }

  // ---------- the parity of rv on a tie ----------

  /** The bits of rv: a significand of 53 bits and an exponent field. */
  lemma ScaledFields(d0: word, d1: word)
    requires D2b.FRACTION <= d0 < 0x7ff0_0000
    ensures var x, e := (D2b.FRACTION + d0 % D2b.FRACTION) * BASE + d1, d0 / D2b.FRACTION;
      HIDDEN <= x < 2 * HIDDEN && 1 <= e && d0 * BASE + d1 == Pattern(x, e - 1) && Mag(d0 * BASE + d1) == x * Pow2(e - 1)
  {
    DivModDef(d0, D2b.FRACTION);
    PatternMag((D2b.FRACTION + d0 % D2b.FRACTION) * BASE + d1, d0 / D2b.FRACTION - 1);
  }

  /** While rv * 2^-scale is normal, its pattern is that of rv with the exponent field lowered. */
  lemma NormalTie(x: nat, e: nat, scale: nat, r: nat)
    requires HIDDEN <= x < 2 * HIDDEN && scale < e && x * Pow2(e - 1) == Mag(r) * Pow2(scale)
    ensures r % 2 == x % 2
  {
    var q := Pattern(x, e - 1 - scale);
    PatternMag(x, e - 1 - scale);
    PatternParity(x, e - 1 - scale);
    Pow2Add(e - 1 - scale, scale);
    hide Mag, Pow2;
    Assoc(x, Pow2(e - 1 - scale), Pow2(scale));
    SameFactor(Mag(r), x * Pow2(e - 1 - scale), Pow2(scale));
    SameMag(r, q);
  }

  /** Below that, the last place of the subnormal is bit i of the significand. */
  lemma SubnormalTie(x: nat, e: nat, scale: nat, r: nat)
    requires HIDDEN <= x < 2 * HIDDEN && 1 <= e <= scale && x * Pow2(e - 1) == Mag(r) * Pow2(scale)
    ensures x == r * Pow2(scale + 1 - e) && 0 < r && scale + 1 - e <= 52
  {
    var i := scale + 1 - e;
    Pow2Add(i, e - 1);
    ZeroOnlyZero(r);
    var g := Mag(r);
    hide Mag, Pow2;
    Assoc(g, Pow2(i), Pow2(e - 1));
    SameFactor(x, g * Pow2(i), Pow2(e - 1));
    SmallShift(x, g, i);
    PatternMag(g, 0);
    SameMag(r, g) by {
      UnitMag(g);
    }
  }

  lemma UnitMag(g: nat)
    requires g < HIDDEN
    ensures Mag(g) == g
  {
  }

  lemma SmallShift(x: nat, g: nat, i: nat)
    requires HIDDEN <= x < 2 * HIDDEN && x == g * Pow2(i) && 1 <= i
    ensures 0 < g < HIDDEN && i <= 52
  {
    Pow2Values();
    assert Pow2(1) == 2;
    hide Pow2;
    assert g == 0 ==> g * Pow2(i) == 0;
    Pow2Mono(1, i);
    MulMono(2, Pow2(i), g);
    if i >= 53 {
      Pow2Mono(53, i);
      MulMono(1, g, Pow2(i));
    }
  }

  lemma NotSubnormal(d0: word, d1: word, scale: nat, r: nat)
    requires Represents(d0, d1, scale, r) && 0 < r
    ensures D2b.FRACTION <= d0
  {
    if scale == 106 && d0 < D2b.FRACTION {
      UnitMag(d0 * BASE + d1);
      ZeroOnlyZero(r);
      Pow2Values();
      Pow2Mono(53, 106);
      MulMono(1, Mag(r), Pow2(106));
    }
  }

  /** Bit i of the significand, in the low word. */
  lemma LowBitOf(h: nat, d1: word, r: nat, i: nat)
    requires 1 <= i <= 31 && h * BASE + d1 == r * Pow2(i)
    ensures d1 / Pow2(i) % 2 == r % 2
  {
    var p, g := Pow2(i), Pow2(31 - i);
    assert Pow2(32 - i) == 2 * g;
    Pow2Add(i, 32 - i);
    Pow2Values();
    hide *;
    SameParity(h, d1, r, p, g);
  }

  /** r * p less an even multiple of p has the same bit at p. */
  lemma SameParity(h: nat, d: nat, r: nat, p: nat, g: nat)
    requires 0 < p && h * (p * (2 * g)) + d == r * p
    ensures d / p % 2 == r % 2
  {
    var k := h * g;
    assert h * (p * (2 * g)) == 2 * k * p by {
      Assoc(h, p, 2 * g);
      Assoc(h, 2, g);
    }
    Distribute(r, 2 * k, p);
    DivModUnique(d, p, r - 2 * k, 0);
    EvenAway(r, k);
  }

  lemma EvenAway(r: int, k: int)
    ensures (r - 2 * k) % 2 == r % 2 && (2 * k + r) % 2 == r % 2
  {
  }

  lemma CutPowers(k: nat)
    requires k <= 20
    ensures Pow2(k + 32) == Pow2(k) * BASE && D2b.FRACTION == Pow2(k) * Pow2(20 - k)
  {
    Pow2Values();
    hide Pow2;
    Pow2Add(k, 32);
    Pow2Add(k, 20 - k);
  }

  /** Bit i of the significand, in the high word: for i = 52 it is the lowest bit of the exponent
      field that is read, and it is set, like the bit that is meant. */
  lemma HighBitOf(d0: word, d1: word, r: nat, i: nat)
    requires 32 <= i <= 52 && D2b.FRACTION <= d0 && (D2b.FRACTION + d0 % D2b.FRACTION) * BASE + d1 == r * Pow2(i)
    requires i == 52 ==> d0 / D2b.FRACTION % 2 == 1
    ensures 0 <= d0 / Pow2(i - 32) && d0 / Pow2(i - 32) % 2 == r % 2
  {
    var k, e, h := i - 32, d0 / D2b.FRACTION, D2b.FRACTION + d0 % D2b.FRACTION;
    var p, t := Pow2(k), Pow2(20 - k);
    DivModDef(d0, D2b.FRACTION);
    CutPowers(k);
    var g := EvenFields(e, k);
    hide *;
    WholeHigh(h, d1, r, p);
    QuotientFits(d0, p);
    HighParity(d0, e, h, r, p, t, g);
  }

  lemma HighParity(d0: nat, e: nat, h: nat, r: nat, p: nat, t: nat, g: nat)
    requires 0 < p && 1 <= e && d0 == (e - 1) * (p * t) + h && h == r * p && (e - 1) * t == 2 * g
    ensures d0 / p % 2 == r % 2
  {
    Assoc(e - 1, t, p);
    Distribute(2 * g, r, p);
    DivModUnique(d0, p, 2 * g + r, 0);
    EvenAway(r, g);
  }

  lemma EvenFields(e: nat, k: nat) returns (g: nat)
    requires 1 <= e && k <= 20 && (k == 20 ==> e % 2 == 1)
    ensures (e - 1) * Pow2(20 - k) == 2 * g
  {
    if k == 20 {
      assert Pow2(0) == 1;
      g := (e - 1) / 2;
    } else {
      g := Times(e - 1, Pow2(19 - k));
      Assoc(e - 1, 2, Pow2(19 - k));
    }
  }

  lemma WholeHigh(h: nat, d1: word, r: nat, p: nat)
    requires h * BASE + d1 == r * (p * BASE)
    ensures h == r * p
  {
    Assoc(r, p, BASE);
    DivModUnique(h * BASE + d1, BASE, h, d1);
    DivModUnique(r * p * BASE, BASE, r * p, 0);
  }

  lemma LowWordParity(h: nat, d1: word)
    ensures (h * BASE + d1) % 2 == d1 % 2
  {
    assert h * BASE == 2 * (h * 0x8000_0000);
    EvenAway(d1, h * 0x8000_0000);
  }

  lemma TieBits(d0: word, d1: word, scale: nat, r: nat)
    requires Represents(d0, d1, scale, r) && 0 < r
    ensures D2b.FRACTION <= d0
    ensures var e, i := d0 / D2b.FRACTION, scale + 1 - d0 / D2b.FRACTION;
      && (e > scale ==> r % 2 == d1 % 2)
      && (e <= scale ==> 1 <= i <= 52 && (i == 52 ==> e % 2 == 1)
                         && (D2b.FRACTION + d0 % D2b.FRACTION) * BASE + d1 == r * Pow2(i))
  {
    NotSubnormal(d0, d1, scale, r);
    ScaledFields(d0, d1);
    assert d0 < 0x7ff0_0000 && (scale == 106 || scale == 0) && Mag(d0 * BASE + d1) == Mag(r) * Pow2(scale);
    hide *;
    TieFields(D2b.FRACTION + d0 % D2b.FRACTION, d1, d0 / D2b.FRACTION, scale, r);
  }

  lemma TieFields(h: nat, d1: word, e: nat, scale: nat, r: nat)
    requires HIDDEN <= h * BASE + d1 < 2 * HIDDEN && 1 <= e && (scale == 106 || scale == 0)
    requires (h * BASE + d1) * Pow2(e - 1) == Mag(r) * Pow2(scale)
    ensures e > scale ==> r % 2 == d1 % 2
    ensures e <= scale ==> var i := scale + 1 - e; 1 <= i <= 52 && (i == 52 ==> e % 2 == 1) && h * BASE + d1 == r * Pow2(i)
  {
    hide *;
    if e > scale {
      NormalTie(h * BASE + d1, e, scale, r);
      LowWordParity(h, d1);
    } else {
      SubnormalTie(h * BASE + d1, e, scale, r);
    }
  }

  /** Whether rv * 2^-scale is odd (dtoa.c:3436-3448). */
  method OddTie(d0: word, d1: word, scale: nat, ghost r: nat) returns (odd: bool)
    requires Represents(d0, d1, scale, r) && 0 < r
    ensures odd <==> r % 2 == 1
  {
    TieBits(d0, d1, scale, r);
    var e := d0 / D2b.FRACTION;
    var j := e - scale;
    hide *;
    if j <= 0 {
      var i := 1 - j;
      if i <= 31 {
        LowBitOf(D2b.FRACTION + d0 % D2b.FRACTION, d1, r, i);
        odd := d1 / Pow2(i) % 2 == 1;
      } else {
        HighBitOf(d0, d1, r, i);
        odd := d0 / Pow2(i - 32) % 2 == 1;
      }
    } else {
      odd := d1 % 2 == 1;
    }
  }

  // ---------- bigcomp ----------

  /** The set-up, the comparison, and both numbers given back. */
  method CompareInput(pool: Pool, cache: PowerCache, d0: word, d1: word, scale: nat,
                      s0: seq<nat>, nd0: nat, nd: nat, dp1: nat, e0: int, ghost r: nat)
    returns (dd: int, ghost made: set<Bigint>)
    requires pool.Valid() && cache.Valid() && pool.Repr !! cache.Repr && cache.Nodes() <= pool.live
    requires Represents(d0, d1, scale, r)
    requires IsInput(s0, nd0, nd, dp1) && 0 < nd && InputDigits(s0, nd0, nd, dp1)[nd - 1] != 0
    requires Near(r, nd + e0 - 1)
    modifies pool.Repr, cache, (set c: Bigint | c in cache.chain)`next
    ensures pool.Valid() && cache.Valid() && pool.Repr !! cache.Repr && old(cache.chain) <= cache.chain
    ensures pool.live == old(pool.live) + made && cache.Nodes() == old(cache.Nodes()) + made
    ensures cache.Nodes() <= pool.live
    ensures SignOf(dd, 2 * Decimal.Numer(DigitsVal(InputDigits(s0, nd0, nd, dp1)), e0), Midpoint(r) * Decimal.Denom(e0, 0))
  {
    hide Pool.Valid, PowerCache.Valid, Val;
    var b, d;
    b, d, made := Operands(pool, cache, d0, d1, scale, nd + e0 - 1, r);
    dd := CompareAndFree(pool, b, d, s0, nd0, nd, dp1, e0, r, old(pool.live), made, cache.Repr);
  }

  method CompareAndFree(pool: Pool, b0: Bigint, d: Bigint, s0: seq<nat>, nd0: nat, nd: nat, dp1: nat, e0: int,
                        ghost r: nat, ghost before: set<Bigint>, ghost made: set<Bigint>, ghost kept: set<object>)
    returns (dd: int)
    requires Comparing(pool, b0, d) && pool.Repr + b0.Repr() + d.Repr() !! kept
    requires IsInput(s0, nd0, nd, dp1) && 0 < nd && InputDigits(s0, nd0, nd, dp1)[nd - 1] != 0
    requires 0 < d.Value() && IsRatio(b0.Value(), d.Value(), r, nd + e0 - 1) && Near(r, nd + e0 - 1)
    requires Adds(pool.live, before, b0, d, made)
    modifies pool.Repr, b0, b0.x, d
    ensures pool.Valid() && fresh(pool.Repr - old(pool.Repr) - b0.Repr() - d.Repr()) && pool.Repr !! kept
    ensures pool.live == before + made
    ensures SignOf(dd, 2 * Decimal.Numer(DigitsVal(InputDigits(s0, nd0, nd, dp1)), e0), Midpoint(r) * Decimal.Denom(e0, 0))
  {
    hide Pool.Valid, Val;
    ghost var v, w, ds := b0.Value(), d.Value(), InputDigits(s0, nd0, nd, dp1);
    FromNear(v, w, r, nd + e0 - 1);
    var b;
    dd, b := CompareHalfway(pool, b0, d, s0, nd0, nd, dp1);
    SignOfInput(dd, ds, v, w, r, e0);
    FreeBoth(pool, b, d);
  }

  method FreeBoth(pool: Pool, b: Bigint, d: Bigint)
    requires Comparing(pool, b, d)
    modifies pool.Repr, b, b.x, d
    ensures pool.Valid() && pool.live == old(pool.live) - {b, d}
    ensures pool.Repr <= old(pool.Repr) + b.Repr() + d.Repr()
  {
    hide Pool.Valid, Val;
    pool.Bfree(b);
    pool.Bfree(d);
  }

  lemma FiniteOrZero(d0: word, d1: word, scale: nat, r: nat)
    requires Represents(d0, d1, scale, r)
    ensures r < INFINITY && (d0 == 0 == d1 <==> r == 0)
  {
    OnlyZero(d0, d1, scale, r);
  }

  lemma InputIsDigits(s0: seq<nat>, nd0: nat, nd: nat, dp1: nat)
    requires IsInput(s0, nd0, nd, dp1)
    ensures AreDigits(InputDigits(s0, nd0, nd, dp1)) && |InputDigits(s0, nd0, nd, dp1)| == nd
  {
  }

  /** bigcomp, called as strtod calls it on the input D * 10^e0, with digits D = d1 d2 ... of any
      number: keeping rv, or taking the next double when `up`, is rounding to nearest, ties to even.
      No block but those of the cache stays behind. */
  method ChooseDouble(pool: Pool, cache: PowerCache, d0: word, d1: word, scale: nat,
                 s0: seq<nat>, nd0: nat, nd: nat, dp1: nat, e0: int, ghost r: nat, ghost k: nat)
    returns (up: bool, ghost made: set<Bigint>)
    requires pool.Valid() && cache.Valid() && pool.Repr !! cache.Repr && cache.Nodes() <= pool.live
    requires Represents(d0, d1, scale, r)
    requires IsInput(s0, nd0, nd, dp1) && 0 < nd && InputDigits(s0, nd0, nd, dp1)[nd - 1] != 0
    requires Calls(InputDigits(s0, nd0, nd, dp1), k, r, e0)
    modifies pool.Repr, cache, (set c: Bigint | c in cache.chain)`next
    ensures pool.Valid() && cache.Valid() && pool.Repr !! cache.Repr && old(cache.chain) <= cache.chain
    ensures pool.live == old(pool.live) + made && cache.Nodes() == old(cache.Nodes()) + made
    ensures cache.Nodes() <= pool.live
    ensures var v, u := Decimal.Numer(DigitsVal(InputDigits(s0, nd0, nd, dp1)), e0), Decimal.Denom(e0, 0);
      IsNearestEven(if up then r + 1 else r, v, u)
  {
    hide *;
    ghost var ds := InputDigits(s0, nd0, nd, dp1);
    InputIsDigits(s0, nd0, nd, dp1);
    Encloses(ds, k, r, e0);
    FiniteOrZero(d0, d1, scale, r);
    ChainHeld(cache);
    var dd;
    dd, made := CompareInput(pool, cache, d0, d1, scale, s0, nd0, nd, dp1, e0, r);
    if d0 == 0 && d1 == 0 {
      up := dd > 0;
    } else if dd != 0 {
      up := dd > 0;
    } else {
      up := OddTie(d0, d1, scale, r);
    }
    NearestOfTwo(dd, up, r, Decimal.Numer(DigitsVal(ds), e0), Decimal.Denom(e0, 0));
  }
}
