/** The digit-by-digit comparison of bigcomp (nolibc/dtoa.c:3357-3390): the decimal input
    d1.d2d3... against the half-way value b/d, deciding at the first digit that differs. */
module Bigcomp {
  import opened Arith
  import opened Words
  import opened BigintPool
  import opened BigintOps
  import opened Quorem

  // ---------- decimal digits ----------

  ghost predicate AreDigits(ds: seq<nat>) {
    forall i | 0 <= i < |ds| :: ds[i] <= 9
  }

  /** The number written by the digits, most significant first. */
  function DigitsVal(ds: seq<nat>): nat {
    if ds == [] then 0 else DigitsVal(ds[..|ds| - 1]) * 10 + ds[|ds| - 1]
  }

  lemma DigitsNext(ds: seq<nat>, i: nat)
    requires i < |ds|
    ensures DigitsVal(ds[..i + 1]) == DigitsVal(ds[..i]) * 10 + ds[i]
  {
    assert ds[..i + 1][..i] == ds[..i];
  }

  ghost predicate ZerosFrom(ds: seq<nat>, i: nat) {
    forall k | i <= k < |ds| :: ds[k] == 0
  }

  /** The digits after the first `i` add less than one unit of place i, and nothing only if
      they are all zero. */
  lemma {:induction false} DigitsAfter(ds: seq<nat>, i: nat)
    requires i <= |ds| && AreDigits(ds)
    ensures DigitsVal(ds[..i]) * Pow10(|ds| - i) <= DigitsVal(ds) < (DigitsVal(ds[..i]) + 1) * Pow10(|ds| - i)
    ensures DigitsVal(ds[..i]) * Pow10(|ds| - i) == DigitsVal(ds) <==> ZerosFrom(ds, i)
    decreases |ds|
  {
    if i == |ds| {
      assert ds[..i] == ds;
    } else {
      var n := |ds| - 1;
      DigitsAfter(ds[..n], i);
      assert ds[..n][..i] == ds[..i];
      Assoc(DigitsVal(ds[..i]), 10, Pow10(n - i));
      Assoc(DigitsVal(ds[..i]) + 1, 10, Pow10(n - i));
    }
  }

  /** The first nd digits of the input: up to nd0 of them stand before the decimal point, the rest
      from index dp1 on. */
  ghost function InputDigits(s0: seq<nat>, nd0: nat, nd: nat, dp1: nat): (ds: seq<nat>)
    requires IsInput(s0, nd0, nd, dp1)
  {
    seq(nd, i requires 0 <= i < nd => (if i < nd0 then s0[i] else s0[dp1 + i - nd0]) - '0' as int)
  }

  ghost predicate IsDigitChar(c: nat) {
    '0' as int <= c <= '9' as int
  }

  /** nd counts the digits without the zeros at the end, nd0 those before the point with them:
      an integer with zeros at the end has nd0 > nd. */
  ghost predicate IsInput(s0: seq<nat>, nd0: nat, nd: nat, dp1: nat) {
    && nd0 <= |s0| && (nd0 < nd ==> dp1 + (nd - nd0) <= |s0|)
    && (forall i | 0 <= i < nd0 :: IsDigitChar(s0[i]))
    && (forall i | dp1 <= i < dp1 + nd - nd0 :: IsDigitChar(s0[i]))
    && (forall i | nd <= i < nd0 :: s0[i] == '0' as int)
  }

  /** The digits the loops read: to the decimal point at least, with the zeros past the nd-th. */
  ghost function ReadDigits(ds: seq<nat>, nd0: nat): (rs: seq<nat>)
    ensures ds <= rs && |rs| == if |ds| < nd0 then nd0 else |ds|
    ensures ZerosFrom(rs, |ds|)
  {
    ds + seq(if |ds| < nd0 then nd0 - |ds| else 0, _ => 0)
  }

  // ---------- the comparison ----------

  /** Negative, zero or positive as x < y, x = y or x > y. */
  ghost predicate SignOf(dd: int, x: int, y: int) {
    (dd < 0 <==> x < y) && (dd == 0 <==> x == y)
  }

  /** After `i` equal digits: b0/d = 0.(those digits)(q)... with remainder r/d to come. */
  ghost predicate Matching(ds: seq<nat>, i: nat, b0: nat, d: nat, q: nat, r: nat) {
    i <= |ds| && r < d && b0 * Pow10(i) == (DigitsVal(ds[..i]) * 10 + q) * d + r
  }

  /** What the answer is to agree with. */
  ghost predicate Decided(dd: int, ds: seq<nat>, b0: nat, d: nat)
    requires 0 < |ds|
  {
    SignOf(dd, DigitsVal(ds) * d, b0 * Pow10(|ds| - 1))
  }

  lemma Pow10Rest(b0: nat, i: nat, n: nat)
    requires i < n
    ensures b0 * Pow10(n - 1) == b0 * Pow10(i) * Pow10(n - 1 - i)
    ensures Pow10(n - i) == 10 * Pow10(n - 1 - i)
  {
    Pow10Add(i, n - 1 - i);
    Assoc(b0, Pow10(i), Pow10(n - 1 - i));
  }

  /** A larger digit decides for the input. */
  lemma LargerDigit(ds: seq<nat>, i: nat, b0: nat, d: nat, q: nat, r: nat)
    requires Matching(ds, i, b0, d, q, r) && i < |ds| && AreDigits(ds) && q < ds[i]
    ensures b0 * Pow10(|ds| - 1) < DigitsVal(ds) * d
  {
    var n, t, w := |ds|, DigitsVal(ds[..i]) * 10, Pow10(|ds| - 1 - i);
    DigitsNext(ds, i);
    DigitsAfter(ds, i + 1);
    Pow10Rest(b0, i, n);
    hide DigitsVal, Pow10;
    // b0 * 10^i < (t + q + 1) * d <= (t + ds[i]) * d
    Distribute(t + q, 1, d);
    MulMono(t + q + 1, t + ds[i], d);
    MulMono(b0 * Pow10(i) + 1, (t + ds[i]) * d, w);
    Distribute(b0 * Pow10(i), 1, w);
    Assoc(t + ds[i], d, w);
    MulMono((t + ds[i]) * w, DigitsVal(ds), d);
  }

  /** A smaller digit decides for the half-way value. */
  lemma SmallerDigit(ds: seq<nat>, i: nat, b0: nat, d: nat, q: nat, r: nat)
    requires Matching(ds, i, b0, d, q, r) && i < |ds| && AreDigits(ds) && ds[i] < q
    ensures DigitsVal(ds) * d < b0 * Pow10(|ds| - 1)
  {
    var n, t, w := |ds|, DigitsVal(ds[..i]) * 10, Pow10(|ds| - 1 - i);
    DigitsNext(ds, i);
    DigitsAfter(ds, i + 1);
    Pow10Rest(b0, i, n);
    hide DigitsVal, Pow10;
    MulMono(DigitsVal(ds) + 1, (t + ds[i] + 1) * w, d);
    Distribute(DigitsVal(ds), 1, d);
    Assoc(t + ds[i] + 1, w, d);
    MulMono(t + ds[i] + 1, t + q, d);
    MulMono((t + ds[i] + 1) * d, b0 * Pow10(i), w);
  }

  /** The nd-th digit is the last that is not zero. */
  ghost predicate EndsAt(ds: seq<nat>, nd: nat) {
    0 < nd <= |ds| && ds[nd - 1] != 0 && ZerosFrom(ds, nd)
  }

  /** With no remainder left, the input is larger unless only zeros follow. */
  lemma NoRemainder(ds: seq<nat>, nd: nat, i: nat, b0: nat, d: nat, q: nat)
    requires Matching(ds, i, b0, d, q, 0) && i < |ds| && AreDigits(ds) && EndsAt(ds, nd) && ds[i] == q
    ensures Decided(if i + 1 < nd then 1 else 0, ds, b0, d)
  {
    var n, t, w := |ds|, DigitsVal(ds[..i + 1]), Pow10(|ds| - 1 - i);
    DigitsNext(ds, i);
    DigitsAfter(ds, i + 1);
    Pow10Rest(b0, i, n);
    assert ZerosFrom(ds, i + 1) <==> nd <= i + 1;
    hide DigitsVal, Pow10;
    Assoc(t, d, w);
    if i + 1 < nd {
      MulMono(t * w + 1, DigitsVal(ds), d);
      Distribute(t * w, 1, d);
    }
  }

  /** The zeros that were read too do not change the answer. */
  lemma WithoutZeros(dd: int, ds: seq<nat>, rs: seq<nat>, b0: nat, d: nat)
    requires 0 < |ds| && ds <= rs && AreDigits(rs) && ZerosFrom(rs, |ds|) && Decided(dd, rs, b0, d)
    ensures Decided(dd, ds, b0, d)
  {
    var n, m := |ds| - 1, |rs| - |ds|;
    assert rs[..|ds|] == ds && n + m == |rs| - 1;
    DigitsAfter(rs, |ds|);
    Pow10Add(n, m);
    Rescaled(dd, DigitsVal(ds), DigitsVal(rs), b0, Pow10(n), Pow10(|rs| - 1), d, Pow10(m));
  }

  lemma Rescaled(dd: int, x: nat, x': nat, b: nat, p: nat, p': nat, d: nat, w: nat)
    requires 0 < w && x' == x * w && p' == p * w && SignOf(dd, x' * d, b * p')
    ensures SignOf(dd, x * d, b * p)
  {
    Assoc(x, w, d);
    Assoc(b, p, w);
    hide SignOf;
    SameSign(dd, x * d, b * p, x' * d, b * p', w);
  }

  lemma SameSign(dd: int, x: nat, y: nat, x': nat, y': nat, w: nat)
    requires 0 < w && x' == x * w && y' == y * w && SignOf(dd, x', y')
    ensures SignOf(dd, x, y)
  {
    if x < y {
      MulMono(x + 1, y, w);
    } else {
      MulMono(y, x, w);
      if y < x {
        MulMono(y + 1, x, w);
      }
    }
  }

  /** The next quotient digit. */
  lemma NextDigit(ds: seq<nat>, i: nat, b0: nat, d: nat, q: nat, r: nat)
    requires Matching(ds, i, b0, d, q, r) && i < |ds| && ds[i] == q
    ensures Matching(ds, i + 1, b0, d, r * 10 / d, r * 10 % d)
  {
    var t := DigitsVal(ds[..i]) * 10 + q;
    DigitsNext(ds, i);
    assert Pow10(i + 1) == 10 * Pow10(i);
    hide DigitsVal, Pow10;
    DivModDef(r * 10, d);
    Assoc(b0, Pow10(i), 10);
    Distribute(t * 10, r * 10 / d, d);
    Assoc(t, 10, d);
  }

  /** All digits used up: anything left of the half-way value decides for it. */
  lemma AllDigits(ds: seq<nat>, b0: nat, d: nat, q: nat, r: nat)
    requires Matching(ds, |ds|, b0, d, q, r) && 0 < |ds|
    ensures Decided(if q > 0 || r > 0 then -1 else 0, ds, b0, d)
  {
    var n := |ds|;
    assert ds[..n] == ds && Pow10(n) == 10 * Pow10(n - 1);
    hide DigitsVal, Pow10;
    var t, u := DigitsVal(ds) * d, b0 * Pow10(n - 1);
    Assoc(b0, 10, Pow10(n - 1));
    Distribute(DigitsVal(ds) * 10, q, d);
    Assoc(DigitsVal(ds), 10, d);
    assert 10 * u == 10 * t + q * d + r;
    if q > 0 {
      MulMono(1, q, d);
    }
  }

  // ---------- the loop ----------

  /** The loop owns b and keeps the divisor d; b, below d, leaves room for ten times itself. */
  ghost predicate Comparing(pool: Pool, b: Bigint, d: Bigint)
    reads pool, pool.Repr, b, b.x, d, d.x
  {
    && pool.Valid() && b.Valid() && b.Trimmed() && IsDivisor(d)
    && b != d && b.x != d.x && b.wds <= d.wds
    && b.Repr() !! pool.Repr && d.Repr() !! pool.Repr && b in pool.live && d in pool.live
  }

  /** Less than sixteen times the divisor fits in the divisor's words: its top word has four
      leading zero bits. */
  lemma SixteenfoldFits(b: seq<word>, d: seq<word>)
    requires d != [] && d[|d| - 1] < 0x1000_0000 && Val(b) < 16 * Val(d)
    requires 1 < |b| ==> b[|b| - 1] != 0
    ensures |b| <= |d|
  {
    TopWordBounds(d);
    ValBound(b);
    var n := |d| - 1;
    WeightNext(n);
    MulMono(d[n] + 1, 0x1000_0000, Weight(n));
    assert Val(d) < 0x1000_0000 * Weight(n);
    if |b| > |d| {
      Pow2Mono(32 * |d|, 32 * (|b| - 1));
    }
  }

  /** b = 10 * b mod d, returning the quotient digit. */
  method NextQuotient(pool: Pool, b: Bigint, d: Bigint) returns (q: nat, r: Bigint)
    requires Comparing(pool, b, d) && b.Value() < d.Value()
    modifies pool.Repr, b, b.x
    ensures Comparing(pool, r, d)
    ensures fresh(pool.Repr + r.Repr() - old(pool.Repr) - b.Repr())
    ensures Replaces(pool.live, old(pool.live), b, r)
    ensures d.Value() == old(d.Value()) && 0 < d.Value()
    ensures q == old(b.Value()) * 10 / d.Value() && r.Value() == old(b.Value()) * 10 % d.Value()
  {
    hide Pool.Valid, Val;
    r := Multadd(pool, b, 10, 0);
    SixteenfoldFits(r.x[..r.wds], d.x[..d.wds]);
    q := QuoRem(r, d);
  }

  /** Compares one digit. `done` tells that dd decides; otherwise b holds the next remainder
      and dig the next quotient digit. */
  method CompareDigit(pool: Pool, b: Bigint, d: Bigint, dig: nat, c: nat, i: nat, nd: nat,
                      ghost ds: seq<nat>, ghost b0: nat)
    returns (dd: int, done: bool, r: Bigint, q: nat)
    requires Comparing(pool, b, d) && i < |ds| && AreDigits(ds) && EndsAt(ds, nd)
    requires IsDigitChar(c) && c - '0' as int == ds[i]
    requires Matching(ds, i, b0, d.Value(), dig, b.Value())
    modifies pool.Repr, b, b.x
    ensures Comparing(pool, r, d)
    ensures fresh(pool.Repr + r.Repr() - old(pool.Repr) - b.Repr())
    ensures Replaces(pool.live, old(pool.live), b, r)
    ensures d.Value() == old(d.Value())
    ensures done ==> Decided(dd, ds, b0, d.Value())
    ensures !done ==> dd == 0 && Matching(ds, i + 1, b0, d.Value(), q, r.Value())
  {
    hide Pool.Valid, Val;
    ghost var v := d.Value();
    hide DigitsVal, Pow10;
    dd := c - '0' as int - dig;
    done, r, q := true, b, dig;
    if dd != 0 {
      if dd > 0 {
        LargerDigit(ds, i, b0, v, dig, b.Value());
      } else {
        SmallerDigit(ds, i, b0, v, dig, b.Value());
      }
      return;
    }
    if b.wds == 1 && b.x[0] == 0 {
      WordIsZero(b.x[..1]);
      NoRemainder(ds, nd, i, b0, v, dig);
      dd := if i + 1 < nd then 1 else 0;
      return;
    }
    NextDigit(ds, i, b0, v, dig, b.Value());
    q, r := NextQuotient(pool, b, d);
    done := false;
  }

  lemma WordIsZero(s: seq<word>)
    requires |s| == 1 && s[0] == 0
    ensures Val(s) == 0
  {
    ValZeros(s);
  }

  /** The half-way value the digits are really compared with: ten times as much when the first
      quotient digit comes out zero (nolibc/dtoa.c:3357-3360). */
  function Compared(b: nat, d: nat): nat {
    if b < d then 10 * b else b
  }

  /** The first quotient digit, after the rescaling that a zero one triggers. */
  method FirstQuotient(pool: Pool, b: Bigint, d: Bigint) returns (dig: nat, r: Bigint)
    requires Comparing(pool, b, d)
    modifies pool.Repr, b, b.x
    ensures Comparing(pool, r, d)
    ensures fresh(pool.Repr + r.Repr() - old(pool.Repr) - b.Repr())
    ensures Replaces(pool.live, old(pool.live), b, r)
    ensures d.Value() == old(d.Value()) && 0 < d.Value()
    ensures var v := Compared(old(b.Value()), d.Value());
            dig == v / d.Value() && r.Value() == v % d.Value()
  {
    hide Pool.Valid, Val;
    r := b;
    ghost var v := b.Value();
    dig := QuoRem(b, d);
    FirstDigitZero(v, d.Value());
    if dig == 0 {
      dig, r := NextQuotient(pool, r, d);
    }
  }

  lemma FirstDigitZero(b: nat, d: nat)
    requires 0 < d
    ensures b / d == 0 <==> b < d
    ensures b < d ==> b % d == b
  {
    DivModDef(b, d);
    if b < d {
      DivModUnique(b, d, 0, b);
    }
  }

  /** Digits i0 to i1 stand in s0 from j0 on. */
  ghost predicate Stored(s0: seq<nat>, j0: nat, ds: seq<nat>, i0: nat, i1: nat) {
    && i0 <= i1 <= |ds| && (i0 < i1 ==> j0 + (i1 - i0) <= |s0|)
    && forall j | j0 <= j < j0 + (i1 - i0) :: IsDigitChar(s0[j]) && s0[j] - '0' as int == ds[i0 + j - j0]
  }

  /** Compares a run of digits: those numbered i0 to i1, stored from s0[j0] on. */
  method CompareRun(pool: Pool, b0: Bigint, d: Bigint, dig0: nat, s0: seq<nat>, j0: nat, i0: nat, i1: nat, nd: nat,
                    ghost ds: seq<nat>, ghost v: nat)
    returns (dd: int, done: bool, b: Bigint, dig: nat)
    requires Comparing(pool, b0, d) && i0 <= i1 <= |ds| && AreDigits(ds) && EndsAt(ds, nd)
    requires Stored(s0, j0, ds, i0, i1)
    requires Matching(ds, i0, v, d.Value(), dig0, b0.Value())
    modifies pool.Repr, b0, b0.x
    ensures Comparing(pool, b, d) && d.Value() == old(d.Value())
    ensures fresh(pool.Repr + b.Repr() - old(pool.Repr) - b0.Repr())
    ensures Replaces(pool.live, old(pool.live), b0, b)
    ensures done ==> Decided(dd, ds, v, d.Value())
    ensures !done ==> Matching(ds, i1, v, d.Value(), dig, b.Value())
  {
    hide Pool.Valid, Val;
    ghost var w := d.Value();
    b, dig, dd, done := b0, dig0, 0, false;
    var i, j := i0, j0;
    hide Comparing, Matching, Decided;
    while i < i1
      invariant i0 <= i <= i1 && j == j0 + i - i0
      invariant Comparing(pool, b, d) && b.wds <= b.x.Length && d.wds <= d.x.Length && d.Value() == w
      invariant fresh(pool.Repr + b.Repr() - old(pool.Repr) - b0.Repr())
      invariant Replaces(pool.live, old(pool.live), b0, b)
      invariant Matching(ds, i, v, w, dig, b.Value()) && !done
    {
      assert IsDigitChar(s0[j]) && s0[j] - '0' as int == ds[i];
      dd, done, b, dig := CompareDigit(pool, b, d, dig, s0[j], i, nd, ds, v);
      if done {
        return;
      }
      i, j := i + 1, j + 1;
    }
  }

  /** Compares the input digits with b/d: first those before the decimal point, then the rest.
      The nd-th digit is not zero, as strtod does not count trailing zeros; those before the
      point are read all the same. */
  method CompareHalfway(pool: Pool, b0: Bigint, d: Bigint, s0: seq<nat>, nd0: nat, nd: nat, dp1: nat)
    returns (dd: int, b: Bigint)
    requires Comparing(pool, b0, d) && IsInput(s0, nd0, nd, dp1)
    requires 0 < nd && InputDigits(s0, nd0, nd, dp1)[nd - 1] != 0
    modifies pool.Repr, b0, b0.x
    ensures Comparing(pool, b, d) && d.Value() == old(d.Value())
    ensures fresh(pool.Repr + b.Repr() - old(pool.Repr) - b0.Repr())
    ensures Replaces(pool.live, old(pool.live), b0, b)
    ensures Decided(dd, InputDigits(s0, nd0, nd, dp1), Compared(old(b0.Value()), d.Value()), d.Value())
  {
    hide Pool.Valid, Val;
    ghost var ds := InputDigits(s0, nd0, nd, dp1);
    ghost var rs := ReadDigits(ds, nd0);
    WhatIsRead(s0, nd0, nd, dp1);
    hide Matching, Decided, Compared, Comparing, InputDigits, ReadDigits, AreDigits, EndsAt, ZerosFrom, Stored;
    ghost var v := Compared(b0.Value(), d.Value());
    var dig;
    dig, b := FirstQuotient(pool, b0, d);
    FirstMatching(rs, v, d.Value());
    dd, b := CompareBothRuns(pool, b, d, dig, s0, nd0, nd, dp1, rs, v);
    WithoutZeros(dd, ds, rs, v, d.Value());
  }

  /** The digits before the point, then those after it. */
  method CompareBothRuns(pool: Pool, b0: Bigint, d: Bigint, dig0: nat, s0: seq<nat>, nd0: nat, nd: nat, dp1: nat,
                         ghost rs: seq<nat>, ghost v: nat)
    returns (dd: int, b: Bigint)
    requires Comparing(pool, b0, d) && AreDigits(rs) && EndsAt(rs, nd) && |rs| == (if nd < nd0 then nd0 else nd)
    requires Stored(s0, 0, rs, 0, nd0) && (nd0 < nd ==> Stored(s0, dp1, rs, nd0, nd))
    requires Matching(rs, 0, v, d.Value(), dig0, b0.Value())
    modifies pool.Repr, b0, b0.x
    ensures Comparing(pool, b, d) && d.Value() == old(d.Value())
    ensures fresh(pool.Repr + b.Repr() - old(pool.Repr) - b0.Repr())
    ensures Replaces(pool.live, old(pool.live), b0, b)
    ensures Decided(dd, rs, v, d.Value())
  {
    hide Pool.Valid, Val;
    assert 0 < |rs|;
    hide Matching, Decided, Comparing, AreDigits, EndsAt, Stored;
    var dig, done;
    dd, done, b, dig := CompareRun(pool, b0, d, dig0, s0, 0, 0, nd0, nd, rs, v);
    if !done {
      dd, b := CompareSecondRun(pool, b, d, dig, s0, nd0, nd, dp1, rs, v);
    }
  }

  method CompareSecondRun(pool: Pool, b0: Bigint, d: Bigint, dig0: nat, s0: seq<nat>, nd0: nat, nd: nat, dp1: nat,
                          ghost rs: seq<nat>, ghost v: nat)
    returns (dd: int, b: Bigint)
    requires Comparing(pool, b0, d) && AreDigits(rs) && EndsAt(rs, nd) && |rs| == (if nd < nd0 then nd0 else nd)
    requires nd0 < nd ==> Stored(s0, dp1, rs, nd0, nd)
    requires Matching(rs, nd0, v, d.Value(), dig0, b0.Value())
    modifies pool.Repr, b0, b0.x
    ensures Comparing(pool, b, d) && d.Value() == old(d.Value())
    ensures fresh(pool.Repr + b.Repr() - old(pool.Repr) - b0.Repr())
    ensures Replaces(pool.live, old(pool.live), b0, b)
    ensures Decided(dd, rs, v, d.Value())
  {
    hide Pool.Valid, Val;
    assert 0 < |rs|;
    hide Matching, Decided, Comparing, AreDigits, EndsAt, Stored;
    var dig, done := dig0, false;
    b := b0;
    if nd0 < nd {
      dd, done, b, dig := CompareRun(pool, b, d, dig, s0, dp1, nd0, nd, nd, rs, v);
    }
    if !done {
      dd := CompareRest(pool, b, d, dig, rs, v);
    }
  }

  lemma WhatIsRead(s0: seq<nat>, nd0: nat, nd: nat, dp1: nat)
    requires IsInput(s0, nd0, nd, dp1) && 0 < nd && InputDigits(s0, nd0, nd, dp1)[nd - 1] != 0
    ensures var ds := InputDigits(s0, nd0, nd, dp1);
      var rs := ReadDigits(ds, nd0);
      && AreDigits(rs) && EndsAt(rs, nd)
      && |rs| == (if nd < nd0 then nd0 else nd)
      && Stored(s0, 0, rs, 0, nd0) && (nd0 < nd ==> Stored(s0, dp1, rs, nd0, nd))
  {
    var ds := InputDigits(s0, nd0, nd, dp1);
    var rs := ReadDigits(ds, nd0);
    assert forall i | 0 <= i < nd :: rs[i] == ds[i];
    forall j | 0 <= j < nd0 ensures IsDigitChar(s0[j]) && s0[j] - '0' as int == rs[j] {
      if nd <= j {
        assert rs[j] == 0;
      }
    }
    assert AreDigits(rs);
    hide ReadDigits;
    if nd0 < nd {
      forall j | dp1 <= j < dp1 + (nd - nd0) ensures IsDigitChar(s0[j]) && s0[j] - '0' as int == rs[nd0 + j - dp1] {
        assert rs[nd0 + j - dp1] == ds[nd0 + j - dp1];
      }
    }
  }

  lemma FirstMatching(ds: seq<nat>, v: nat, d: nat)
    requires 0 < d
    ensures Matching(ds, 0, v, d, v / d, v % d)
  {
    DivModDef(v, d);
    assert Pow10(0) == 1 && DigitsVal(ds[..0]) == 0;
  }

  /** All digits agreed: what is left of b/d decides. */
  method CompareRest(pool: Pool, b: Bigint, d: Bigint, dig: nat, ghost ds: seq<nat>, ghost b0: nat) returns (dd: int)
    requires Comparing(pool, b, d) && 0 < |ds|
    requires Matching(ds, |ds|, b0, d.Value(), dig, b.Value())
    ensures Decided(dd, ds, b0, d.Value())
  {
    AllDigits(ds, b0, d.Value(), dig, b.Value());
    RemainderLeft(b.x[..b.wds]);
    return if dig > 0 || b.x[0] != 0 || b.wds > 1 then -1 else 0;
  }

  lemma RemainderLeft(s: seq<word>)
    requires 1 < |s| ==> s[|s| - 1] != 0
    ensures 0 < Val(s) <==> 1 < |s| || (|s| == 1 && s[0] != 0)
  {
    if |s| == 1 {
      ValNext(s, 0);
      assert s[..1] == s;
    } else if 1 < |s| {
      ValPositive(s, |s| - 1);
    }
  }

  /** An input with a first digit of at least one exceeds any b/d below one. */
  lemma InputAtLeastOne(ds: seq<nat>, b: nat, d: nat)
    requires 0 < |ds| && AreDigits(ds) && 1 <= ds[0] && b < d
    ensures b * Pow10(|ds| - 1) < DigitsVal(ds) * d
  {
    var w := Pow10(|ds| - 1);
    assert w <= DigitsVal(ds) by {
      DigitsAfter(ds, 1);
      DigitsNext(ds, 0);
      assert DigitsVal(ds[..0]) == 0;
      MulMono(1, ds[0], w);
    }
    hide DigitsVal, Pow10;
    MulMono(b + 1, d, w);
    Distribute(b, 1, w);
    MulMono(w, DigitsVal(ds), d);
  }

  /** What the rescaling costs. With a first input digit of at least one, the answer is right
      for b/d itself exactly when b/d is at least one or the input exceeds ten times b/d. */
  lemma RightUnlessRescaled(dd: int, ds: seq<nat>, b: nat, d: nat)
    requires 0 < |ds| && AreDigits(ds) && 1 <= ds[0] && 0 < d
    requires Decided(dd, ds, Compared(b, d), d)
    ensures Decided(dd, ds, b, d) <==> d <= b || 10 * b * Pow10(|ds| - 1) < DigitsVal(ds) * d
  {
    hide DigitsVal, Pow10;
    if b < d {
      InputAtLeastOne(ds, b, d);
    }
  }

  /** Nine tenths against the input 1, over a divisor of the shape the loop demands: the rescaled
      comparison puts the input below. */
  lemma RescaledExample()
    ensures var d: seq<word> := [0xa00_0000]; Val(d) == 10 * 0x100_0000 && 0x800_0000 <= d[0] < 0x1000_0000
    ensures var b, d := 9 * 0x100_0000, 10 * 0x100_0000;
      && (forall dd | Decided(dd, [1], Compared(b, d), d) :: dd < 0)
      && (forall dd | Decided(dd, [1], b, d) :: dd > 0)
  {
    ValNext([0xa00_0000], 0);
    assert DigitsVal([1]) == 1 by {
      DigitsNext([1], 0);
      assert [1][..1] == [1] && [1][..0] == [];
    }
    assert Pow10(0) == 1;
  }
}
