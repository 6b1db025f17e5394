/** fmodl for the 128-bit format (openlibm/ld128/e_fmodl.c:25-129): x - trunc(x/y)*y exactly,
    by shift and subtract on two 64-bit words, subnormals included. The disjoint bit fields the
    source joins with | are added here. */
module Fmodl128 {
  import opened Arith
  import opened FixedMod

  const W: nat := 0x1_0000_0000_0000_0000        // one 64-bit word
  const HIGH: nat := 0x1_0000_0000_0000          // 2^48, the hidden bit of the high word
  const HIDDEN: nat := 0x1_0000_0000_0000 * 0x1_0000_0000_0000_0000 // 2^112
  const INF: nat := 0x7fff_0000_0000_0000        // high word of infinity, sign cleared
  const SIGN: nat := 0x8000_0000_0000_0000
  /** Exponent of the least normal number. */
  const EMIN := -16382

  type u64 = w: int | 0 <= w < 0x1_0000_0000_0000_0000

  /** The magnitude of a pattern with the sign cleared, in units of the least subnormal,
      2^-16494. */
  function Mag(h: nat, l: nat): nat {
    FieldsMag(h / HIGH, h % HIGH * W + l)
  }

  function FieldsMag(e: nat, frac: nat): nat {
    if e == 0 then frac else (HIDDEN + frac) * Pow2(e - 1)
  }

  datatype Result = NaN | Bits(h: nat, l: nat)

  /** The comparisons of the source that reject y = 0, x not finite, and y not a number. */
  predicate Rejects(hx: nat, hy: nat, ly: nat) {
    hy == 0 == ly || hx >= INF || hy > INF || (hy == INF && ly != 0)
  }

  /** A larger pattern has a larger magnitude. */
  lemma MagIncreases(h: nat, l: u64, h': nat, l': u64)
    requires h < h' || (h == h' && l < l')
    ensures Mag(h, l) < Mag(h', l')
  {
    var e, e', f, f' := h / HIGH, h' / HIGH, h % HIGH * W + l, h' % HIGH * W + l';
    if e == e' {
      assert f < f';
      if e > 0 {
        MulMono(HIDDEN + f + 1, HIDDEN + f', Pow2(e - 1));
        Distribute(HIDDEN + f, 1, Pow2(e - 1));
      }
    } else {
      MulMono(HIDDEN, HIDDEN + f', Pow2(e' - 1));
      if e == 0 {
        MulMono(1, Pow2(e' - 1), HIDDEN);
      } else {
        Pow2Mono(e, e' - 1);
        MulMono(HIDDEN + f + 1, 2 * HIDDEN, Pow2(e - 1));
        Distribute(HIDDEN + f, 1, Pow2(e - 1));
        MulMono(Pow2(e), Pow2(e' - 1), HIDDEN);
      }
    }
  }

  // ---------- what the patterns stand for ----------

  /** 0 and the least subnormal; 1, which is 2^16494 of them; and infinity, the pattern above every
      finite one, which reads as 2^16384. */
  lemma Landmarks()
    ensures Mag(0, 0) == 0 && Mag(0, 1) == 1
    ensures Mag(0x3fff_0000_0000_0000, 0) == Pow2(16494)
    ensures Mag(INF, 0) == Pow2(16384 + 16494) && INF == 0x7fff_0000_0000_0000
  {
    Powers();
    hide Pow2;
    Pow2Add(112, 16382);
    Pow2Add(112, 32766);
  }

  /** One place further, the magnitude grows by the unit of the exponent field. */
  lemma NextMag(h: nat, l: nat)
    requires h < 0x8000_0000_0000_0000 && l + 1 < 0x1_0000_0000_0000_0000
    ensures Mag(h, l + 1) == Mag(h, l) + Pow2(if h < 0x2_0000_0000_0000 then 0 else h / 0x1_0000_0000_0000 - 1)
  {
    assert Pow2(0) == 1;
    if h / HIGH > 0 {
      Distribute(HIDDEN + (h % HIGH * W + l), 1, Pow2(h / HIGH - 1));
    }
  }

  /** The same across the low word. */
  lemma NextWord(h: nat)
    requires h + 1 < 0x8000_0000_0000_0000
    ensures Mag(h + 1, 0) == Mag(h, 0xffff_ffff_ffff_ffff)
      + Pow2(if h < 0x2_0000_0000_0000 then 0 else h / 0x1_0000_0000_0000 - 1)
  {
    assert Pow2(0) == 1;
    var e, f := h / HIGH, h % HIGH;
    DivModDef(h, HIGH);
    if f + 1 < HIGH {
      DivModUnique(h + 1, HIGH, e, f + 1);
      assert (f + 1) * W == f * W + (W - 1) + 1;
      if e > 0 {
        Distribute(HIDDEN + (f * W + (W - 1)), 1, Pow2(e - 1));
      }
    } else {
      DivModUnique(h + 1, HIGH, e + 1, 0);
      if e > 0 {
        assert Pow2(e) == 2 * Pow2(e - 1);
        Distribute(HIDDEN + (f * W + (W - 1)), 1, Pow2(e - 1));
      }
    }
  }

  /** y = 0, x not finite, and y not a number, by the magnitudes. */
  lemma RejectsIs(hx: nat, lx: u64, hy: nat, ly: u64)
    ensures Rejects(hx, hy, ly) <==> Mag(hy, ly) == 0 || Mag(hy, ly) > Mag(INF, 0) || Mag(hx, lx) >= Mag(INF, 0)
  {
    ZeroMag();
    hide Mag;
    OrderOf(hy, ly, 0, 0);
    OrderOf(hy, ly, INF, 0);
    OrderOf(hx, lx, INF, 0);
  }

  lemma OrderOf(h: nat, l: u64, h': nat, l': u64)
    ensures Mag(h, l) < Mag(h', l') <==> h < h' || (h == h' && l < l')
    ensures Mag(h, l) == Mag(h', l') <==> h == h' && l == l'
  {
    hide Mag;
    if h < h' || (h == h' && l < l') {
      MagIncreases(h, l, h', l');
    } else if h' < h || l' < l {
      MagIncreases(h', l', h, l);
    }
  }

  // ---------- aligning the operands ----------

  /** x << n modulo 2^64, and x >> n. */
  function Shl(x: nat, n: nat): (r: nat)
    ensures r < W
  {
    x * Pow2(n) % W
  }

  function Shr(x: nat, n: nat): (r: nat)
    ensures r <= x
  {
    QuotientFits(x, Pow2(n));
    x / Pow2(n)
  }

  lemma Powers()
    ensures Pow2(48) == HIGH && Pow2(63) == SIGN && Pow2(64) == W
    ensures Pow2(112) == HIDDEN && Pow2(49) == 2 * HIGH && Pow2(113) == 2 * HIDDEN
    ensures HIDDEN == HIGH * W
  {
    Pow2Values();
    Pow2Add(48, 64);
  }

  lemma ShiftsAre(x: u64, n: nat)
    requires 1 <= n <= 63
    ensures Pow2(n) * Pow2(64 - n) == W && x < W
    ensures Shr(x, 64 - n) == x / Pow2(64 - n) && Shl(x, n) == x * Pow2(n) % W
  {
    Pow2Add(n, 64 - n);
    Pow2Values();
  }

  /** A word cut at bit 64 - n: the high part leaves it, the low part moves up. */
  lemma SplitWord(x: u64, n: nat)
    requires 1 <= n <= 63
    ensures x * Pow2(n) == Shl(x, n) + Shr(x, 64 - n) * W
    ensures Shl(x, n) + Pow2(n) <= W && Shr(x, 64 - n) < Pow2(n)
  {
    ShiftsAre(x, n);
    hide *;
    var p, t := Pow2(n), Pow2(64 - n);
    SplitAt(x, p, t, W);
    SmallQuotient(x, t, p);
  }

  /** Below 2^a, the next multiple of 2^n is still no more than 2^a. */
  lemma RoundUp(h: nat, n: nat, a: nat)
    requires 1 <= h && h * Pow2(n) < Pow2(a)
    ensures n < a && (h + 1) * Pow2(n) <= Pow2(a)
  {
    MulMono(1, h, Pow2(n));
    if n >= a {
      Pow2Mono(a, n);
    } else {
      Pow2Add(a - n, n);
      if h >= Pow2(a - n) {
        MulMono(Pow2(a - n), h, Pow2(n));
      }
      MulMono(h + 1, Pow2(a - n), Pow2(n));
    }
  }

  lemma LeadingWords(w: nat, t: nat, h: nat, l: nat, p: nat)
    requires l < w && 0 < p && t <= h * p && (h + 1) * p <= 2 * t
    ensures t * w <= Two(w, h, l) * p < 2 * (t * w)
  {
    MulMono(t, h * p, w);
    MulMono((h + 1) * p, 2 * t, w);
    MulMono(l + 1, w, p);
    Distribute(l, 1, p);
    Distribute(h * w, l, p);
    Distribute(h, 1, p);
    Distribute(h * p, p, w);
    Assoc(h, w, p);
    Assoc(2, t, w);
  }

  /** Two(h, l) * 2^n fills the significand when its leading word does. */
  lemma LeadingWord(h: nat, l: u64, n: nat)
    requires 1 <= h && HIGH <= h * Pow2(n) < 2 * HIGH
    ensures HIDDEN <= Two(W, h, l) * Pow2(n) < 2 * HIDDEN
  {
    Powers();
    hide Pow2, Two;
    RoundUp(h, n, 49);
    LeadingWords(W, HIGH, h, l, Pow2(n));
  }

  method IlogbLow(l: u64) returns (ix: int)
    requires 0 < l
    ensures ix < EMIN && HIDDEN <= l * Pow2(EMIN - ix) < 2 * HIDDEN
  {
    var i: int;
    ix, i := -16431, l;
    assert l * Pow2(0) == l;
    while 0 < i < SIGN
      invariant ix <= -16431 && 0 < i < W && i == l * Pow2(-16431 - ix)
      decreases W - i
    {
      Assoc(l, 2, Pow2(-16431 - ix));
      i, ix := i + i, ix - 1;
    }
    ghost var s := -16431 - ix;
    Powers();
    Pow2Add(s, 49);
    hide *;
    Assoc(l, Pow2(s), Pow2(49));
    MulMono(SIGN, i, Pow2(49));
    MulMono(i + 1, W, Pow2(49));
    Distribute(i, 1, Pow2(49));
  }

  method IlogbHigh(h: nat) returns (ix: int)
    requires 0 < h < HIGH
    ensures ix < EMIN && HIGH <= h * Pow2(EMIN - ix) < 2 * HIGH
  {
    var i: int;
    ix, i := -16382, h * 0x8000;
    assert h * Pow2(0) == h;
    while 0 < i < SIGN
      invariant ix <= EMIN && 0 < i < W && i == h * Pow2(EMIN - ix) * 0x8000
      invariant ix == EMIN ==> i < SIGN
      decreases W - i
    {
      Assoc(h, 2, Pow2(EMIN - ix));
      i, ix := i + i, ix - 1;
    }
  }

  /** The exponent of a magnitude; a subnormal needs EMIN - ix places to fill the significand. */
  method Ilogb(h: nat, l: u64) returns (ix: int)
    requires h < INF && !(h == 0 == l)
    ensures h >= HIGH ==> ix == h / HIGH - 16383
    ensures h < HIGH ==> ix < EMIN && HIDDEN <= Two(W, h, l) * Pow2(EMIN - ix) < 2 * HIDDEN
  {
    hide Pow2;
    if h < HIGH {
      if h == 0 {
        ix := IlogbLow(l);
        assert Two(W, h, l) == l;
      } else {
        ix := IlogbHigh(h);
        LeadingWord(h, l, EMIN - ix);
      }
    } else {
      ix := h / HIGH - 16383;
    }
  }

  /** The two words scaled, and what fits when the whole stays below W * W. */
  lemma ScaledWords(w: nat, h: nat, l: nat, p: nat)
    requires (h * w + l) * p < w * w
    ensures (h * w + l) * p == h * p * w + l * p
    ensures h * p < w
  {
    Distribute(h * w, l, p);
    Assoc(h, w, p);
    MulMono(0, l, p);
    if h * p >= w {
      MulMono(w, h * p, w);
    }
  }

  lemma NearShift(h: nat, l: u64, n: nat)
    requires 1 <= n <= 63 && Two(W, h, l) * Pow2(n) < 2 * HIDDEN
    ensures Two(W, Shl(h, n) + Shr(l, 64 - n), Shl(l, n)) == Two(W, h, l) * Pow2(n)
  {
    ScaledWords(W, h, l, Pow2(n));
    SplitWord(l, n);
    assert Shl(h, n) == h * Pow2(n);
    Distribute(h * Pow2(n), Shr(l, 64 - n), W);
  }

  lemma FarWords(w: nat, h: nat, l: nat, q: nat, p: nat)
    requires 0 < q && p == q * w && Two(w, h, l) * p < w * w
    ensures l * q < w && Two(w, h, l) * p == Two(w, l * q, 0)
  {
    ScaledWords(w, h, l, p);
    MulMono(1, q, w);
    if h >= 1 {
      MulMono(1, h, p);
    }
    Assoc(l, q, w);
    if l * q >= w {
      MulMono(w, l * q, w);
    }
  }

  lemma ShlFits(x: nat, n: nat)
    requires x * Pow2(n) < W
    ensures Shl(x, n) == x * Pow2(n)
  {
  }

  lemma FarShift(h: nat, l: u64, n: nat)
    requires 64 <= n && Two(W, h, l) * Pow2(n) < 2 * HIDDEN
    ensures Two(W, Shl(l, n - 64), 0) == Two(W, h, l) * Pow2(n)
  {
    Pow2Add(n - 64, 64);
    Powers();
    hide *;
    FarWords(W, h, l, Pow2(n - 64), Pow2(n));
    ShlFits(l, n - 64);
  }

  /** A subnormal moved up so that its first one lands on the hidden bit. */
  method ShiftUp(h: nat, l: u64, n: nat) returns (h': nat, l': u64)
    requires 1 <= n && Two(W, h, l) * Pow2(n) < 2 * HIDDEN
    ensures Two(W, h', l') == Two(W, h, l) * Pow2(n)
  {
    if n <= 63 {
      NearShift(h, l, n);
      h', l' := Shl(h, n) + Shr(l, 64 - n), Shl(l, n);
    } else {
      FarShift(h, l, n);
      h', l' := Shl(l, n - 64), 0;
    }
  }

  /** Significand and exponent of a finite nonzero magnitude; u counts the exponent from that of
      2^-16494. */
  method SetUp(h: nat, l: u64) returns (h': nat, l': u64, e: int, ghost u: nat)
    requires h < INF && !(h == 0 == l)
    ensures HIDDEN <= Two(W, h', l') < 2 * HIDDEN
    ensures e == EMIN - 112 + u && e <= 16383
    ensures Mag(h, l) * HIDDEN == Two(W, h', l') * Pow2(u)
  {
    e := Ilogb(h, l);
    Powers();
    if e >= EMIN {
      h', l' := HIGH + h % HIGH, l;
      u := h / HIGH - 1 + 112;
      Pow2Add(h / HIGH - 1, 112);
      Assoc(Two(W, h', l'), Pow2(h / HIGH - 1), HIDDEN);
    } else {
      var n := EMIN - e;
      h', l' := ShiftUp(h, l, n);
      assert n <= 112 by {
        MulMono(1, Two(W, h, l), Pow2(n));
        if n >= 113 {
          Pow2Mono(113, n);
        }
      }
      u := 112 - n;
      Pow2Add(n, u);
      Assoc(Two(W, h, l), Pow2(n), Pow2(u));
      assert Mag(h, l) == Two(W, h, l);
    }
  }

  // ---------- back to a pattern ----------

  /** Two words divided by a part p of the word: the high one leaves its remainder to the low one. */
  lemma DivideWords(h: nat, l: nat, p: nat, t: nat, w: nat)
    requires 0 < p && 0 < t && w == p * t && l < w
    ensures (h * w + l) / p == h / p * w + (l / p + h * t % w)
    ensures l / p + h * t % w < w
  {
    SplitAt(h, t, p, w);
    SmallQuotient(l, p, t);
    DivModDef(l, p);
    Assoc(h, p, t);
    Distribute(h * t, l / p, p);
    DivModUnique(h * w + l, p, h * t + l / p, l % p);
  }

  lemma NearShiftDown(h: nat, l: u64, n: nat)
    requires 1 <= n <= 63
    ensures Two(W, h, l) / Pow2(n) == Two(W, Shr(h, n), Shr(l, n) + Shl(h, 64 - n))
    ensures Shr(l, n) + Shl(h, 64 - n) < W
  {
    Pow2Add(n, 64 - n);
    Powers();
    hide Pow2;
    DivideWords(h, l, Pow2(n), Pow2(64 - n), W);
  }

  lemma FarShiftDown(h: nat, l: u64, n: nat)
    requires 64 <= n
    ensures Two(W, h, l) / Pow2(n) == Shr(h, n - 64)
  {
    Pow2Add(64, n - 64);
    Powers();
    DivModUnique(Two(W, h, l), W, h, l);
    DivDiv(Two(W, h, l), W, Pow2(n - 64));
  }

  lemma SubnormalBelow(x: nat, n: nat)
    requires 1 <= n && x < 2 * HIDDEN
    ensures x / Pow2(n) < HIDDEN
  {
    assert Pow2(1) == 2;
    Pow2Mono(1, n);
    MulMono(2, Pow2(n), HIDDEN);
    SmallQuotient(x, Pow2(n), HIDDEN);
  }

  lemma ShrZero(h: nat, n: nat)
    requires h < 2 * HIGH && 49 <= n
    ensures Shr(h, n) == 0
  {
    Powers();
    Pow2Mono(49, n);
  }

  /** A subnormal result: the significand moved down again, no bit lost to the low word. */
  method ShiftDown(h: nat, l: u64, n: nat) returns (h': nat, l': u64)
    requires 1 <= n && h < 2 * HIGH
    ensures Two(W, h', l') == Two(W, h, l) / Pow2(n)
  {
    hide Shr, Shl, Pow2;
    if n <= 63 {
      NearShiftDown(h, l, n);
    } else {
      FarShiftDown(h, l, n);
    }
    if n <= 48 {
      l' := Shr(l, n) + Shl(h, 64 - n);
      h' := Shr(h, n);
    } else if n <= 63 {
      ShrZero(h, n);
      l' := Shl(h, 64 - n) + Shr(l, n);
      h' := 0;
    } else {
      assert Shr(h, n - 64) < W;
      l' := Shr(h, n - 64);
      h' := 0;
    }
  }

  lemma NormalFields(h: nat, l: u64, b: nat)
    requires HIGH <= h < 2 * HIGH && 1 <= b
    ensures Mag(h - HIGH + b * HIGH, l) == Two(W, h, l) * Pow2(b - 1)
  {
    var h' := h - HIGH + b * HIGH;
    DivModUnique(h', HIGH, b, h - HIGH);
    hide Pow2;
    assert Mag(h', l) == FieldsMag(b, (h - HIGH) * W + l);
    assert HIDDEN + ((h - HIGH) * W + l) == Two(W, h, l);
  }

  lemma NormalMag(h: nat, l: u64, b: nat, m: nat)
    requires HIGH <= h < 2 * HIGH && 1 <= b
    requires Two(W, h, l) * Pow2(b + 111) == m * HIDDEN
    ensures Mag(h - HIGH + b * HIGH, l) == m
  {
    hide *;
    NormalFields(h, l, b);
    var x := Two(W, h, l);
    Powers();
    Pow2Add(b - 1, 112);
    Assoc(x, Pow2(b - 1), HIDDEN);
    SameFactor(x * Pow2(b - 1), m, HIDDEN);
  }

  /** The units of a subnormal result. */
  lemma SubnormalUnits(x: nat, u: nat, n: nat, m: nat)
    requires 1 <= n && u + n == 112 && x < 2 * HIDDEN && x * Pow2(u) == m * HIDDEN
    ensures x / Pow2(n) == m && m < HIDDEN
  {
    Powers();
    Pow2Add(n, u);
    ExactQuotient(x, m, Pow2(n), Pow2(u), HIDDEN);
    SubnormalBelow(x, n);
  }

  lemma SubnormalMag(h: nat, l: u64)
    requires Two(W, h, l) < HIDDEN
    ensures h < HIGH && Mag(h, l) == Two(W, h, l)
  {
    if h >= HIGH {
      MulMono(HIGH, h, W);
    }
  }

  /** A filled significand with its exponent back to a pattern: m units of 2^-16494. */
  method Encode(h: nat, l: u64, e: int, ghost u: nat, ghost m: nat) returns (h': nat, l': u64)
    requires HIDDEN <= Two(W, h, l) < 2 * HIDDEN
    requires e == EMIN - 112 + u && e <= 16383
    requires Two(W, h, l) * Pow2(u) == m * HIDDEN
    ensures h' < INF && Mag(h', l') == m
  {
    assert HIGH <= h < 2 * HIGH;
    hide Pow2, Mag;
    if e >= EMIN {
      NormalMag(h, l, e + 16383, m);
      h', l' := h - HIGH + (e + 16383) * HIGH, l;
    } else {
      hide Two;
      SubnormalUnits(Two(W, h, l), u, EMIN - e, m);
      h', l' := ShiftDown(h, l, EMIN - e);
      SubnormalMag(h', l');
    }
  }

  // ---------- fmodl ----------

  /** fmodl(x, y) on the words of two binary128 patterns. A number comes out exactly when y is not
      zero or a NaN and x is finite; it has the sign of x, and its magnitude is the remainder of the
      magnitudes, exactly (an infinite y leaves every finite x alone). */
  method Fmodl(hx0: u64, lx0: u64, hy0: u64, ly0: u64) returns (r: Result)
    ensures r.NaN? <==> var mx, my, inf := Mag(hx0 % SIGN, lx0), Mag(hy0 % SIGN, ly0), Mag(INF, 0);
      my == 0 || my > inf || mx >= inf
    ensures r.Bits? ==> r.h < W && r.l < W && r.h / SIGN == hx0 / SIGN && r.h % SIGN < INF
    ensures r.Bits? ==> 0 < Mag(hy0 % SIGN, ly0)
    ensures r.Bits? ==> Mag(r.h % SIGN, r.l) == Mag(hx0 % SIGN, lx0) % Mag(hy0 % SIGN, ly0)
  {
    var sx := hx0 / SIGN * SIGN;
    var hx: nat, hy: nat := hx0 % SIGN, hy0 % SIGN;
    RejectsIs(hx, lx0, hy, ly0);
    hide Mag;
    if Rejects(hx, hy, ly0) {
      return NaN;
    }
    var h, l := Remainder(hx, lx0, hy, ly0);
    DivModUnique(sx + h, SIGN, hx0 / SIGN, h);
    r := Bits(sx + h, l);
  }

  method Remainder(hx0: nat, lx0: u64, hy0: nat, ly0: u64) returns (h: nat, l: u64)
    requires !Rejects(hx0, hy0, ly0)
    ensures h < INF && 0 < Mag(hy0, ly0)
    ensures Mag(h, l) == Mag(hx0, lx0) % Mag(hy0, ly0)
  {
    ghost var mx, my := Mag(hx0, lx0), Mag(hy0, ly0);
    assert hx0 < INF && hy0 <= INF && (hy0 == INF ==> ly0 == 0) && !(hy0 == 0 == ly0);
    hide *;
    ZeroMag();
    MagIncreases(0, 0, hy0, ly0);
    if hx0 <= hy0 {
      if hx0 < hy0 || lx0 < ly0 {
        MagIncreases(hx0, lx0, hy0, ly0);
        DivModUnique(mx, my, 0, mx);
        return hx0, lx0;
      }
      if lx0 == ly0 {
        DivModUnique(mx, my, 1, 0);
        return 0, 0;
      }
    }
    MagIncreases(hy0, ly0, hx0, lx0);
    h, l := RemainderOfLarger(hx0, lx0, hy0, ly0);
  }

  method RemainderOfLarger(hx0: nat, lx0: u64, hy0: nat, ly0: u64) returns (h: nat, l: u64)
    requires hx0 < INF && 0 < Mag(hy0, ly0) < Mag(hx0, lx0)
    requires hy0 < INF && !(hy0 == 0 == ly0)
    ensures h < INF
    ensures Mag(h, l) == Mag(hx0, lx0) % Mag(hy0, ly0)
  {
    ghost var mx, my := Mag(hx0, lx0), Mag(hy0, ly0);
    ZeroMag();
    hide *;
    var hx, lx, ix, ux := SetUp(hx0, lx0);
    var hy, ly, iy, uy := SetUp(hy0, ly0);
    TopLimb();
    var l1, e;
    ghost var u;
    h, l1, e, u := Reduce(W, HIGH, hx, lx, ix, hy, ly, iy, mx, ux, my, uy);
    if h == 0 && l1 == 0 {
      return 0, 0;
    }
    h, l := Encode(h, l1, e, u, mx % my);
  }

  lemma TopLimb()
    ensures Two(W, HIGH, 0) == HIDDEN
  {
  }

  lemma ZeroMag()
    ensures Mag(0, 0) == 0
  {
  }
}
