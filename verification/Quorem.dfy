/** quorem and dshift of nolibc/dtoa.c: one quotient digit by a single-word estimate that is
    never too large and at most one too small. */
module Quorem {
  import opened Arith
  import opened Words
  import opened BigintPool
  import opened BigintOps
  import opened BigintCompare

  // ---------- leading zero bits and the divisor's alignment ----------

  /** One test of hi0bits: shift by `j` bits if the top `j` of 32 are clear. */
  method ShiftIfClear(x0: word, k0: nat, x: nat, j: nat, ghost lo: nat) returns (k: nat, y: nat)
    requires x == x0 * Pow2(k0) && x < BASE && (0 < x ==> lo <= x) && lo * Pow2(j) * Pow2(j) == BASE
    ensures y == x0 * Pow2(k) && y < BASE && (0 < y ==> lo * Pow2(j) <= y)
    ensures k == k0 || k == k0 + j
    ensures (0 < x <==> 0 < y) && (x == 0 ==> k == k0 + j)
  {
    ghost var p := Pow2(j);
    k, y := k0, x;
    DivModUnique(BASE, p, lo * p, 0);
    if x < BASE / Pow2(j) {
      Pow2Add(k, j);
      Assoc(x0, Pow2(k), p);
      MulMono(x + 1, lo * p, p);
      Distribute(x, 1, p);
      if 0 < x {
        MulMono(lo, x, p);
      }
      k := k + j;
      y := x * Pow2(j);
    }
  }

  /** The number of leading zero bits of a 32-bit word, 32 for zero. */
  method Hi0bits(x0: word) returns (k: nat)
    ensures x0 == 0 ==> k == 32
    ensures x0 != 0 ==> k < 32 && 0x8000_0000 <= x0 * Pow2(k) < 0x1_0000_0000
  {
    assert Pow2(1) == 2 && Pow2(2) == 4 && Pow2(4) == 0x10 && Pow2(0) == 1;
    Pow2Values();
    hide Pow2;
    var x: nat;
    k, x := ShiftIfClear(x0, 0, x0, 16, 1);
    k, x := ShiftIfClear(x0, k, x, 8, 0x1_0000);
    k, x := ShiftIfClear(x0, k, x, 4, 0x100_0000);
    k, x := ShiftIfClear(x0, k, x, 2, 0x1000_0000);
    k, x := ShiftIfClear(x0, k, x, 1, 0x4000_0000);
    if x == 0 {
      return 32;
    }
  }

  // ---------- the quotient estimate ----------

  /** The estimate from the top words: the divisor's is rounded up. */
  function TopQuotient(bt: nat, st: nat): (q: nat)
    ensures q <= bt
  {
    MulMono(1, st + 1, bt / (st + 1));
    bt / (st + 1)
  }

  lemma EstimateOfTops(bt: nat, st: nat, q: nat)
    requires bt < BASE && 0x800_0000 <= st && q == TopQuotient(bt, st)
    ensures q * (st + 1) <= bt && bt + 1 <= (q + 2) * st
  {
    if q > 32 {
      MulMono(33, q, st + 1);
    }
    Distribute(q + 1, 1, st);
  }

  lemma EstimateNotAbove(b: nat, s: nat, bt: nat, st: nat, p: nat, q: nat)
    requires q * (st + 1) <= bt && bt * p <= b && s <= (st + 1) * p
    ensures q * s <= b
  {
    MulMono(s, (st + 1) * p, q);
    Assoc(q, st + 1, p);
    MulMono(q * (st + 1), bt, p);
  }

  lemma EstimateOneBelow(b: nat, s: nat, bt: nat, st: nat, p: nat, q: nat)
    requires bt + 1 <= (q + 2) * st && b < (bt + 1) * p && st * p <= s
    ensures b < (q + 2) * s
  {
    MulMono(bt + 1, (q + 2) * st, p);
    Assoc(q + 2, st, p);
    MulMono(st * p, s, q + 2);
  }

  /** With `p` the weight of the top word, `bt` and `st` the top words, the estimate is never
      too large and at most one too small. */
  lemma Estimate(b: nat, s: nat, bt: nat, st: nat, p: nat, q: nat)
    requires bt < BASE && 0x800_0000 <= st
    requires bt * p <= b < (bt + 1) * p && st * p <= s < (st + 1) * p
    requires q == TopQuotient(bt, st)
    ensures q * s <= b < (q + 2) * s
  {
    EstimateOfTops(bt, st, q);
    hide TopQuotient;
    EstimateNotAbove(b, s, bt, st, p, q);
    EstimateOneBelow(b, s, bt, st, p, q);
  }

  /** The top word bounds the number. */
  lemma TopWordBounds(s: seq<word>)
    requires s != []
    ensures s[|s| - 1] * Weight(|s| - 1) <= Val(s) < (s[|s| - 1] + 1) * Weight(|s| - 1)
  {
    ValBound(s[..|s| - 1]);
    Distribute(s[|s| - 1], 1, Weight(|s| - 1));
  }

  /** A remainder below the divisor has the quotient the loop counted. */
  lemma QuotientCounted(b: nat, s: nat, q: nat, r: nat)
    requires 0 < s && b == q * s + r && r < s
    ensures b / s == q && b % s == r
  {
    DivModUnique(b, s, q, r);
  }

  /** The divisor's top word has exactly four leading zero bits, as dshift arranges. */
  ghost predicate IsDivisor(s: Bigint)
    reads s, s.x
  {
    s.Valid() && 1 <= s.wds && 0x800_0000 <= s.x[s.wds - 1] < 0x1000_0000
  }

  /** b -= q * S, with the words that become zero at the top dropped. */
  method SubtractMultiple(b: Bigint, S: Bigint, q: nat)
    requires b.Valid() && S.Valid() && b != S && b.x != S.x && 1 <= b.wds == S.wds
    requires q < BASE && q * S.Value() <= b.Value()
    modifies b, b.x
    ensures b.Valid() && b.Trimmed() && b.wds <= old(b.wds)
    ensures b.Value() == old(b.Value()) - q * S.Value()
    ensures b.wds == 0 <==> S.wds == 1 && b.Value() == 0
  {
    var n := S.wds;
    hide Val, Weight;
    SubMulWords(b.x, S.x, n, q);
    b.wds := DropZeros(b.x, n, if b.x[n - 1] == 0 && n == 1 then 0 else 1);
  }

  lemma EstimateWords(b: seq<word>, s: seq<word>, q: nat)
    requires 1 <= |b| == |s| && 0x800_0000 <= s[|s| - 1]
    requires q == TopQuotient(b[|b| - 1], s[|s| - 1])
    ensures q * Val(s) <= Val(b) < (q + 2) * Val(s)
  {
    hide Val, Weight, TopQuotient;
    TopWordBounds(s);
    TopWordBounds(b);
    Estimate(Val(b), Val(s), b[|b| - 1], s[|s| - 1], Weight(|s| - 1), q);
  }

  method EstimateDigit(b: Bigint, S: Bigint) returns (q: nat)
    requires b.Valid() && IsDivisor(S) && b.wds == S.wds
    ensures q < BASE && q * S.Value() <= b.Value() < (q + 2) * S.Value()
  {
    var n := S.wds;
    hide Val, TopQuotient;
    q := TopQuotient(b.x[n - 1], S.x[n - 1]); // never above the true quotient
    EstimateWords(b.x[..n], S.x[..n], q);
  }

  /** b becomes b mod S; the quotient is returned. */
  method QuoRem(b: Bigint, S: Bigint) returns (q: nat)
    requires b.Valid() && b.Trimmed() && IsDivisor(S)
    requires b != S && b.x != S.x && b.wds <= S.wds
    modifies b, b.x
    ensures b.Valid() && b.Trimmed() && b.wds <= old(b.wds)
    ensures 0 < S.Value()
    ensures q == old(b.Value()) / S.Value()
    ensures b.Value() == old(b.Value()) % S.Value()
    ensures b.wds == 0 <==> old(b.wds) == 0 || (S.wds == 1 && b.Value() == 0 && 0 < q)
  {
    var n := S.wds;
    ghost var s, t := S.Value(), b.Value();
    ValPositive(S.x[..n], n - 1);
    hide Val, Weight;
    if b.wds < n {
      LongerIsLarger(S.x[..n], b.x[..b.wds]);
      QuotientCounted(t, s, 0, t);
      return 0;
    }
    q := EstimateDigit(b, S);
    if q != 0 {
      SubtractMultiple(b, S, q);
    }
    Distribute(q, 2, s);
    var c := Cmp(b, S);
    if c >= 0 {
      FullLength(b, S);
      q := q + 1;
      Distribute(q - 1, 1, s);
      SubtractMultiple(b, S, 1);
    }
    QuotientCounted(t, s, q, b.Value());
  }

  lemma FullLength(b: Bigint, s: Bigint)
    requires b.Valid() && IsDivisor(s) && b.wds <= s.wds && s.Value() <= b.Value()
    ensures b.wds == s.wds
  {
    if b.wds < s.wds {
      LongerIsLarger(s.x[..s.wds], b.x[..b.wds]);
    }
  }
}
