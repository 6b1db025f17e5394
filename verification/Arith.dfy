/** Arithmetic the other modules share: products, division, powers of two. */
module Arith {

  lemma MulMono(a: int, b: int, c: int)
    requires a <= b && 0 <= c
    ensures a * c <= b * c
  {
    assert 0 <= (b - a) * c;
  }

  lemma Distribute(a: int, b: int, c: int)
    ensures (a + b) * c == a * c + b * c
    ensures (a - b) * c == a * c - b * c
  {
  }

  lemma Below(v: nat, a: nat, p: nat)
    requires v < a && 0 < p
    ensures v * p < a * p
  {
    MulMono(v + 1, a, p);
    Distribute(v, 1, p);
  }

  lemma Assoc(a: int, b: int, c: int)
    ensures a * (b * c) == (a * b) * c == (a * c) * b
  {
  }

  lemma DivModDef(x: int, m: nat)
    requires 0 < m
    ensures x == x / m * m + x % m && 0 <= x % m < m
  {
  }

  /** Quotient and remainder are the only ones. */
  lemma DivModUnique(x: int, m: nat, q: int, r: nat)
    requires r < m && x == q * m + r
    ensures x / m == q && x % m == r
  {
    var q', r' := x / m, x % m;
    assert x == q' * m + r';
    Distribute(q, q', m);
    if q < q' {
      MulMono(1, q' - q, m);
      Distribute(q', q, m);
    } else if q > q' {
      MulMono(1, q - q', m);
    }
  }

  /** Reducing modulo m forgets whole multiples of m. */
  lemma DropMultiple(k: int, x: int, m: nat)
    requires 0 < m
    ensures (k * m + x) % m == x % m
  {
    Distribute(k, x / m, m);
    DivModUnique(k * m + x, m, k + x / m, x % m);
  }

  /** Scaling dividend and divisor scales the remainder and keeps the quotient. */
  lemma ScaleDivMod(x: int, m: nat, c: nat)
    requires 0 < m && 0 < c
    ensures 0 < m * c
    ensures (x * c) % (m * c) == (x % m) * c && (x * c) / (m * c) == x / m
  {
    var q, r := x / m, x % m;
    MulMono(1, m, c);
    MulMono(r + 1, m, c);
    Distribute(r, 1, c);
    Distribute(q * m, r, c);
    Assoc(q, m, c);
    DivModUnique(x * c, m * c, q, r * c);
  }

  /** Dividing twice is dividing by the product. */
  lemma DivDiv(x: nat, a: nat, b: nat)
    requires 0 < a && 0 < b
    ensures 0 < a * b && x / a / b == x / (a * b)
  {
    var q, r := x / a, x % a;
    var q', r' := q / b, q % b;
    MulMono(1, a, b);
    MulMono(r' + 1, b, a);
    Distribute(r', 1, a);
    Distribute(q' * b, r', a);
    Assoc(q', b, a);
    DivModUnique(x, a * b, q', r' * a + r);
  }

  lemma QuotientFits(x: nat, p: nat)
    requires 0 < p
    ensures 0 <= x / p <= x
  {
    MulMono(1, p, x / p);
  }

  lemma SmallQuotient(x: nat, t: nat, p: nat)
    requires 0 < t && x < p * t
    ensures x / t < p
  {
    if x / t >= p {
      MulMono(p, x / t, t);
    }
  }

  /** x times p, cut at multiples of p * t. */
  lemma SplitAt(x: nat, p: nat, t: nat, m: nat)
    requires 0 < t && 0 < p && m == p * t
    ensures x * p == x % t * p + x / t * m
    ensures x % t * p + p <= m
    ensures x * p % m == x % t * p
  {
    var q, r := x / t, x % t;
    Distribute(q * t, r, p);
    Assoc(q, t, p);
    MulMono(r + 1, t, p);
    Distribute(r, 1, p);
    DivModUnique(x * p, m, q, r * p);
  }

  /** The product, as a natural number. */
  function Times(a: nat, b: nat): (r: nat)
    ensures r == a * b
  {
    MulMono(0, a, b);
    a * b
  }

  // ---------- cancelling a factor ----------

  lemma CancelFactor(a: nat, b: nat, t: nat)
    requires 0 < t && a * t <= b * t
    ensures a <= b
  {
    if a > b {
      MulMono(b + 1, a, t);
      Distribute(b, 1, t);
    }
  }

  lemma SameFactor(a: nat, b: nat, c: nat)
    requires 0 < c && a * c == b * c
    ensures a == b
  {
    if a < b {
      MulMono(a + 1, b, c);
    } else if b < a {
      MulMono(b + 1, a, c);
    }
  }

  lemma ExactQuotient(x: nat, m: nat, p: nat, q: nat, t: nat)
    requires 0 < p && 0 < q && p * q == t && x * q == m * t
    ensures x / p == m
  {
    Assoc(m, p, q);
    SameFactor(x, m * p, q);
    DivModUnique(x, p, m, 0);
  }

  // ---------- powers of two ----------

  function Pow2(k: nat): (p: nat)
    ensures 0 < p
  {
    if k == 0 then 1 else 2 * Pow2(k - 1)
  }

  lemma {:induction false} Pow2Add(a: nat, b: nat)
    ensures Pow2(a + b) == Pow2(a) * Pow2(b)
  {
    if b != 0 {
      Pow2Add(a, b - 1);
      Assoc(Pow2(a), 2, Pow2(b - 1));
    }
  }

  lemma {:induction false} Pow2Mono(a: nat, b: nat)
    requires a <= b
    ensures Pow2(a) <= Pow2(b)
    ensures a < b ==> 2 * Pow2(a) <= Pow2(b)
  {
    if a < b {
      Pow2Mono(a, b - 1);
    }
  }

  lemma Pow2Values()
    ensures Pow2(8) == 0x100 && Pow2(16) == 0x1_0000
    ensures Pow2(20) == 0x10_0000 && Pow2(21) == 0x20_0000
    ensures Pow2(31) == 0x8000_0000 && Pow2(32) == 0x1_0000_0000
    ensures Pow2(48) == 0x1_0000_0000_0000 && Pow2(52) == 0x10_0000_0000_0000
    ensures Pow2(53) == 0x20_0000_0000_0000
    ensures Pow2(63) == 0x8000_0000_0000_0000 && Pow2(64) == 0x1_0000_0000_0000_0000
  {
    assert Pow2(4) == 0x10;
    Pow2Add(4, 4);
    Pow2Add(8, 8);
    Pow2Add(16, 4);
    Pow2Add(16, 16);
    Pow2Add(32, 16);
    Pow2Add(32, 20);
    Pow2Add(32, 32);
  }

  // ---------- powers of five and ten ----------

  function Pow5(k: nat): (p: nat)
    ensures 0 < p
  {
    if k == 0 then 1 else 5 * Pow5(k - 1)
  }

  lemma {:induction false} Pow5Add(a: nat, b: nat)
    ensures Pow5(a + b) == Pow5(a) * Pow5(b)
  {
    if b != 0 {
      Pow5Add(a, b - 1);
      Assoc(Pow5(a), 5, Pow5(b - 1));
    }
  }

  lemma {:induction false} Pow5Mono(a: nat, b: nat)
    requires a <= b
    ensures Pow5(a) <= Pow5(b)
  {
    if a < b {
      Pow5Mono(a, b - 1);
    }
  }

  /** Bounds on the large powers at the ends of the exponent range. */
  lemma FiveTo27()
    ensures Pow5(27) == 7450580596923828125
  {
    assert Pow5(4) == 625 && Pow5(5) == 3125;
    hide Pow5;
    Pow5Add(5, 4);
    Pow5Add(9, 9);
    Pow5Add(18, 9);
  }

  function Pow10(k: nat): (p: nat)
    ensures 0 < p
  {
    if k == 0 then 1 else 10 * Pow10(k - 1)
  }

  lemma {:induction false} Pow10Add(a: nat, b: nat)
    ensures Pow10(a + b) == Pow10(a) * Pow10(b)
  {
    if b != 0 {
      Pow10Add(a, b - 1);
      Assoc(Pow10(a), 10, Pow10(b - 1));
    }
  }

  lemma {:induction false} TenIsFiveTwo(k: nat)
    ensures Pow10(k) == Pow5(k) * Pow2(k)
  {
    if k != 0 {
      TenIsFiveTwo(k - 1);
      var a, b := Pow5(k - 1), Pow2(k - 1);
      assert 10 * (a * b) == 5 * a * (2 * b);
    }
  }

  lemma Pow10Next(n: nat)
    ensures Pow10(n + 1) == 10 * Pow10(n)
  {
  }

  lemma Pow2Next(k: nat)
    ensures Pow2(k + 1) == 2 * Pow2(k)
  {
  }

  lemma {:induction false} Pow10Mono(a: nat, b: nat)
    requires a <= b
    ensures Pow10(a) <= Pow10(b)
  {
    if a < b {
      Pow10Mono(a, b - 1);
    }
  }

  lemma FiveTo81()
    ensures Pow2(188) <= Pow5(81) && 16 * Pow5(81) < 19 * Pow2(188)
  {
    Pow5Add(27, 27);
    Pow5Add(54, 27);
    Pow2Add(64, 64);
    Pow2Add(128, 60);
    Pow2Add(60, 4);
    Pow2Values();
    FiveTo27();
    assert Pow2(4) == 16;
    hide Pow2, Pow5;
    assert Pow2(60) == 0x1000_0000_0000_0000;
  }

  /** w <= a < n/d w, squared. */
  lemma Squares(w: nat, a: nat, d: nat, n: nat)
    requires w <= a && d * a < n * w && 0 < d
    ensures w * w <= a * a && d * d * (a * a) < n * n * (w * w)
  {
    MulMono(w, a, w);
    MulMono(w, a, a);
    var x, y := Times(d, a), Times(n, w);
    MulMono(x, y, x);
    Below(x, y, y);
    calc {
      x * x;
      d * d * (a * a);
    }
    calc {
      y * y;
      n * n * (w * w);
    }
  }

  lemma FiveTo324()
    ensures Pow2(752) <= Pow5(324) < 2 * Pow2(752)
  {
    var a, w := Pow5(81), Pow2(188);
    Pow5Add(81, 81);
    Pow5Add(162, 162);
    Pow2Add(188, 188);
    Pow2Add(376, 376);
    hide Pow2, Pow5;
    FiveTo81();
    Squares(w, a, 16, 19);
    Squares(w * w, a * a, 256, 361);
    assert 65536 * (a * a * (a * a)) < 130321 * (w * w * (w * w));
  }

  lemma TenTo324()
    ensures Pow2(1075) <= Pow10(324) < 16 * Pow2(1075)
    ensures Pow10(323) < Pow2(1075) && 16 * Pow2(1075) <= Pow10(325)
  {
    hide *;
    var a, t, w := Pow5(324), Pow2(324), Pow2(752);
    TenIsFiveTwo(324);
    Pow2Add(752, 324);
    Pow2Next(1075);
    Pow10Next(323);
    Pow10Next(324);
    FiveTo324();
    MulMono(w, a, t);
    MulMono(a, 2 * w, t);
    Assoc(2, w, t);
    assert Pow2(1076) == w * t;
  }

  lemma TenTo309()
    ensures Pow2(1024) <= Pow10(309)
  {
    hide *;
    TenIsFiveTwo(309);
    Pow2Add(715, 309);
    FiveTo309();
    MulMono(Pow2(715), Pow5(309), Pow2(309));
  }

  lemma FiveTo309()
    ensures Pow2(715) <= Pow5(309)
  {
    hide Pow2, Pow5;
    Pow5Add(309, 15);
    Pow2Add(715, 37);
    FiveTo324();
    FiveTo15();
    if Pow5(309) < Pow2(715) {
      MulMono(Pow5(309), Pow2(715), Pow5(15));
      MulMono(Pow5(15), Pow2(37), Pow2(715));
      Below(Pow5(15), Pow2(37), Pow2(715));
    }
  }

  lemma FiveTo15()
    ensures Pow5(15) < Pow2(37)
  {
    Pow5Add(10, 5);
    Pow5Add(5, 5);
    assert Pow5(5) == 3125;
    Pow2Add(32, 5);
    Pow2Values();
    assert Pow2(5) == 32;
    hide Pow2, Pow5;
  }

  /** base^k for k >= 0 and 1 below; a ratio of two of them writes a power of either sign. */
  function Twos(k: int): (p: nat)
    ensures 0 < p
  {
    if k < 0 then 1 else Pow2(k)
  }

  function Tens(k: int): (p: nat)
    ensures 0 < p
  {
    if k < 0 then 1 else Pow10(k)
  }
}
