/** dshift and the alignment step of bigcomp (nolibc/dtoa.c:3111-3118 and 3348-3352): shifting
    the divisor so that its top word has exactly four leading zero bits. */
module Dshift {
  import opened Arith
  import opened Words
  import opened BigintPool
  import opened BigintShift
  import opened Quorem

  /** How far to shift, beyond p2, to leave four leading zero bits. */
  method ShiftCount(b: Bigint, p2: int) returns (rv: nat, ghost h: nat)
    requires b.Valid() && 1 <= b.wds && b.x[b.wds - 1] != 0
    ensures rv < 32
    ensures LeadingZeros(b.x[b.wds - 1], h) && (rv + (if p2 > 0 then p2 else 0) - h + 4) % 32 == 0
  {
    var zeros := Hi0bits(b.x[b.wds - 1]);
    h := zeros;
    var r: int := zeros as int - 4;
    if p2 > 0 {
      r := r - p2;
    }
    rv := r % 32; // rv & kmask
  }

  ghost predicate LeadingZeros(x: word, h: nat) {
    h < 32 && 0x8000_0000 <= x * Pow2(h) < 0x1_0000_0000
  }

  lemma TopWordLength(t: word, h: nat)
    requires LeadingZeros(t, h)
    ensures Pow2(31 - h) <= t < Pow2(32 - h)
  {
    var a, b := Pow2(31 - h), Pow2(32 - h);
    Pow2Add(31 - h, h);
    Pow2Add(32 - h, h);
    Pow2Values();
    hide Pow2;
    if t < a {
      MulMono(t + 1, a, Pow2(h));
      Distribute(t, 1, Pow2(h));
    }
    if t >= b {
      MulMono(b, t, Pow2(h));
    }
  }

  /** The top word's leading zeros give the number's bit length. */
  lemma BitLength(x: seq<word>, h: nat)
    requires x != [] && LeadingZeros(x[|x| - 1], h)
    ensures Pow2(32 * |x| - 1 - h) <= Val(x) < Pow2(32 * |x| - h)
  {
    var n, t: nat := |x| - 1, x[|x| - 1];
    var a, b := Pow2(31 - h), Pow2(32 - h);
    TopWordLength(x[|x| - 1], h);
    TopWordBounds(x);
    assert Weight(n) == Pow2(32 * n);
    hide *;
    Pow2Add(31 - h, 32 * n);
    Pow2Add(32 - h, 32 * n);
    MulMono(a, t, Weight(n));
    MulMono(t + 1, b, Weight(n));
  }

  /** The top word of m words with four leading zero bits, in bits. */
  lemma TopBits(m: nat)
    requires 1 <= m
    ensures Pow2(32 * m - 5) == 0x800_0000 * Weight(m - 1) && Pow2(32 * m - 4) == 0x1000_0000 * Weight(m - 1)
  {
    FourBelowWord();
    hide Pow2;
    Pow2Add(27, 32 * (m - 1));
    Pow2Add(28, 32 * (m - 1));
  }

  lemma FourBelowWord()
    ensures Pow2(27) == 0x800_0000 && Pow2(28) == 0x1000_0000
  {
    Pow2Values();
    Pow2Add(27, 4);
    assert Pow2(4) == 0x10 && Pow2(28) == 2 * Pow2(27);
  }

  /** A trimmed number of 32 m - 4 bits has m words. */
  lemma WordsOfBits(c: seq<word>, m: nat)
    requires c != [] && c[|c| - 1] != 0 && 1 <= m
    requires Pow2(32 * m - 5) <= Val(c) < Pow2(32 * m - 4)
    ensures |c| == m
  {
    ValBound(c);
    hide Val, Weight;
    TrimmedBits(c);
    if |c| < m {
      Pow2Mono(32 * |c|, 32 * m - 5);
    }
    if |c| > m {
      Pow2Mono(32 * m - 4, 32 * (|c| - 1));
    }
  }

  lemma TrimmedBits(c: seq<word>)
    requires c != [] && c[|c| - 1] != 0
    ensures Pow2(32 * (|c| - 1)) <= Val(c) < Pow2(32 * |c|)
  {
    ValBound(c);
    TopWordBounds(c);
    MulMono(1, c[|c| - 1], Weight(|c| - 1));
  }

  /** A number of 32 m - 4 bits, trimmed, fills m words with four leading zero bits. */
  lemma AlignedTop(c: seq<word>, m: nat)
    requires c != [] && c[|c| - 1] != 0 && 1 <= m
    requires Pow2(32 * m - 5) <= Val(c) < Pow2(32 * m - 4)
    ensures |c| == m && 0x800_0000 <= c[m - 1] < 0x1000_0000
  {
    WordsOfBits(c, m);
    TopBits(m);
    TopWordBounds(c);
    var w, t: nat := Weight(m - 1), c[m - 1];
    hide Val, Pow2, Weight;
    if t < 0x800_0000 {
      MulMono(t + 1, 0x800_0000, w);
    }
    if t >= 0x1000_0000 {
      MulMono(0x1000_0000, t, w);
    }
  }

  /** A total shift congruent to h - 4 aligns the divisor. */
  lemma ShiftAligns(x: seq<word>, c: seq<word>, h: nat, k: nat)
    requires x != [] && LeadingZeros(x[|x| - 1], h) && c != [] && c[|c| - 1] != 0
    requires Val(c) == Val(x) * Pow2(k) && (k - h + 4) % 32 == 0
    ensures 0x800_0000 <= c[|c| - 1] < 0x1000_0000
  {
    BitLength(x, h);
    var m := |x| + (k - h + 4) / 32;
    assert 32 * |x| - h + k == 32 * m - 4;
    Pow2Add(32 * |x| - 1 - h, k);
    Pow2Add(32 * |x| - h, k);
    MulMono(Pow2(32 * |x| - 1 - h), Val(x), Pow2(k));
    MulMono(Val(x) + 1, Pow2(32 * |x| - h), Pow2(k));
    Distribute(Val(x), 1, Pow2(k));
    AlignedTop(c, m);
  }

  /** Shifts d by d2 and by what alignment adds; d becomes a divisor fit for quorem. */
  method AlignDivisor(pool: Pool, d: Bigint, d2: nat) returns (r: Bigint, i: nat)
    requires pool.Valid() && d.Valid() && d.Repr() !! pool.Repr && d in pool.live
    requires 1 <= d.wds && d.x[d.wds - 1] != 0
    modifies pool.Repr, d
    ensures pool.Valid() && r.Repr() !! pool.Repr && IsDivisor(r)
    ensures fresh(pool.Repr + r.Repr() - old(pool.Repr) - d.Repr())
    ensures Replaces(pool.live, old(pool.live), d, r)
    ensures r.Value() == old(d.Value()) * Pow2(d2 + i) && i < 32
  {
    hide Pool.Valid, Val;
    ghost var h;
    i, h := ShiftCount(d, d2);
    ghost var x := d.x[..d.wds];
    ValPositive(x, d.wds - 1);
    assert Pow2(0) == 1;
    hide Pow2, LeadingZeros;
    r := d;
    if d2 + i > 0 {
      r := Lshift(pool, d, d2 + i);
    }
    ShiftedNonzero(x, r.x[..r.wds], d2 + i);
    ShiftAligns(x, r.x[..r.wds], h, d2 + i);
  }

  lemma ShiftedNonzero(x: seq<word>, c: seq<word>, k: nat)
    requires 0 < Val(x) && Val(c) == Val(x) * Pow2(k) && (1 < |c| ==> c[|c| - 1] != 0)
    ensures c != [] && c[|c| - 1] != 0
  {
    MulMono(1, Pow2(k), Val(x));
    if |c| == 1 && c[0] == 0 {
      ValZeros(c);
    }
  }
}
