/** The Bigint kernel of nolibc/dtoa.c: each operation, carry loops and reallocation included,
    is integer arithmetic on the value of the words. */
module BigintOps {
  import opened Arith
  import opened Words
  import opened BigintPool

  // ---------- carry loops over word arrays ----------

  /** The loop of multadd: x[..n] * m + a in place, the carry out left over (a do-while, so
      the first word is always visited). */
  method ScaleWords(x: array<word>, n: nat, m: nat, a: nat) returns (carry: nat)
    requires 1 <= n <= x.Length && m < BASE && a < BASE
    modifies x
    ensures carry < BASE
    ensures Val(x[..n]) + carry * Weight(n) == old(Val(x[..n])) * m + a
    ensures x[n..] == old(x[n..])
  {
    ghost var s := x[..];
    var i := 0;
    carry := a;
    WeightNext(0);
    assert Val(x[..0]) == Val(s[..0]) == 0;
    hide Val, Weight;
    while i < n
      invariant i <= n && carry < BASE
      invariant Val(x[..i]) + carry * Weight(i) == Val(s[..i]) * m + a
      invariant x[i..] == s[i..]
    {
      assert x[i] == s[i];
      var y: nat := x[i] * m + carry; // below 2^64
      MulMono(s[i], BASE - 1, m);
      assert y < BASE * BASE;
      ghost var before := x[..i];
      MulStep(Val(before), carry, Weight(i), Val(s[..i]), m, a, s[i], y % BASE, y / BASE);
      carry := y / BASE;
      x[i] := y % BASE;
      assert x[..i] == before;
      ValNext(s, i);
      ValNext(x[..], i);
      assert x[..][..i + 1] == x[..i + 1] && x[..][..i] == x[..i];
      i := i + 1;
    }
    assert s[..n] == old(x[..n]);
  }

  /** State of a multiply-and-subtract loop: x holds the low `i` words of b - q * s. */
  ghost predicate Subtracted(b: seq<word>, s: seq<word>, q: nat, x: seq<word>, i: nat, borrow: nat, carry: nat) {
    && i <= |b| && i <= |s| && i <= |x| && borrow <= 1 && carry < BASE
    && Val(x[..i]) == Val(b[..i]) - q * Val(s[..i]) + (borrow + carry) * Weight(i)
  }

  /** One turn: product word, difference wrapped in 64 bits, its borrow and its low word. */
  lemma SubtractWord(b: seq<word>, s: seq<word>, q: nat, x: seq<word>, i: nat, borrow: nat, carry: nat)
    requires Subtracted(b, s, q, x, i, borrow, carry) && i < |b| && i < |s| && i < |x| && q < BASE
    ensures var ys := s[i] * q + carry;
            var y := (b[i] - ys % BASE - borrow) % 0x1_0000_0000_0000_0000;
            0 <= ys < BASE * BASE &&
            Subtracted(b, s, q, x[i := y % BASE], i + 1, (y / BASE) % 2, ys / BASE)
  {
    hide Val, Weight;
    var ys: nat := s[i] * q + carry;
    MulMono(s[i], BASE - 1, q);
    var lo, hi: nat := ys % BASE, ys / BASE;
    var y := (b[i] - lo - borrow) % 0x1_0000_0000_0000_0000;
    BorrowStep(b[i], lo, borrow, y);
    SubMulStep(Val(x[..i]), borrow, carry, Weight(i), Val(b[..i]), Val(s[..i]), q,
               b[i], s[i], lo, hi, y % BASE, (y / BASE) % 2);
    ValNext(b, i);
    ValNext(s, i);
    var x' := x[i := y % BASE];
    ValNext(x', i);
    assert x'[..i] == x[..i];
  }

  lemma SubtractEnd(b: seq<word>, s: seq<word>, q: nat, x: seq<word>, n: nat, borrow: nat, carry: nat)
    requires Subtracted(b, s, q, x, n, borrow, carry) && q * Val(s[..n]) <= Val(b[..n])
    ensures Val(x[..n]) == Val(b[..n]) - q * Val(s[..n])
  {
    ValBound(x[..n]);
    NothingOut(Val(x[..n]), Val(b[..n]) - q * Val(s[..n]), borrow + carry, Weight(n));
  }

  /** The loop of quorem (and, with q = 1, of its correction): bx -= q * sx over n words. */
  method SubMulWords(bx: array<word>, sx: array<word>, n: nat, q: nat)
    requires bx != sx && 1 <= n <= bx.Length && n <= sx.Length && q < BASE
    requires q * Val(sx[..n]) <= Val(bx[..n])
    modifies bx
    ensures Val(bx[..n]) == old(Val(bx[..n])) - q * Val(sx[..n])
    ensures bx[n..] == old(bx[n..])
  {
    ghost var b, s := bx[..], sx[..];
    var i: nat, borrow: nat, carry: nat := 0, 0, 0;
    assert Subtracted(b, s, q, bx[..], 0, 0, 0);
    hide Val, Weight, Subtracted;
    while i < n
      invariant i <= n && sx[..] == s && bx[i..] == b[i..]
      invariant Subtracted(b, s, q, bx[..], i, borrow, carry)
    {
      assert bx[i] == b[i] && sx[i] == s[i];
      SubtractWord(b, s, q, bx[..], i, borrow, carry);
      var ys: nat := sx[i] * q + carry; // below 2^64
      var y: nat := (bx[i] - ys % BASE - borrow) % 0x1_0000_0000_0000_0000;
      carry := ys / BASE;
      borrow := (y / BASE) % 2;
      ghost var x := bx[..];
      bx[i] := y % BASE;
      assert bx[..] == x[i := bx[i]];
      i := i + 1;
    }
    SubtractEnd(b, s, q, bx[..], n, borrow, carry);
    assert b[..n] == old(bx[..n]) && s[..n] == sx[..n] && bx[..][..n] == bx[..n];
  }

  // ---------- multadd, s2b, increment ----------

  /** Appends a word, moving to a block of twice the capacity when this one is full. */
  method PushWord(pool: Pool, b: Bigint, w: word) returns (r: Bigint)
    requires pool.Valid() && b.Valid() && b.Repr() !! pool.Repr && b in pool.live && 1 <= b.wds
    modifies pool.Repr, b, b.x
    ensures pool.Valid() && r.Valid() && r.Repr() !! pool.Repr
    ensures fresh(pool.Repr + r.Repr() - old(pool.Repr) - b.Repr())
    ensures Replaces(pool.live, old(pool.live), b, r)
    ensures r.wds == old(b.wds) + 1 && r.x[..r.wds] == old(b.x[..b.wds]) + [w] && r.sign == old(b.sign)
    ensures if old(b.wds) < b.x.Length then r == b else r.k == b.k + 1
  {
    hide Pool.Valid, Val, Pow2;
    Pow2Next(b.k);
    r := b;
    if b.wds >= b.x.Length {
      r := pool.Balloc(b.k + 1);
      forall i | 0 <= i < b.wds {
        r.x[i] := b.x[i];
      }
      r.sign, r.wds := b.sign, b.wds;
      pool.Bfree(b);
    }
    r.x[r.wds] := w;
    r.wds := r.wds + 1;
  }

  /** b * m + a. */
  method Multadd(pool: Pool, b: Bigint, m: nat, a: nat) returns (r: Bigint)
    requires pool.Valid() && b.Valid() && b.Repr() !! pool.Repr && b in pool.live
    requires m < BASE && a < BASE && (b.wds == 0 ==> a == 0)
    modifies pool.Repr, b, b.x
    ensures pool.Valid() && r.Valid() && r.Repr() !! pool.Repr
    ensures fresh(pool.Repr + r.Repr() - old(pool.Repr) - b.Repr())
    ensures Replaces(pool.live, old(pool.live), b, r)
    ensures r.Value() == old(b.Value()) * m + a
    ensures old(b.Trimmed()) && 0 < m ==> r.Trimmed()
    ensures old(b.wds) <= r.wds <= old(b.wds) + 1 && r.sign == old(b.sign)
    ensures if r.wds <= b.x.Length then r == b else r.k == b.k + 1
  {
    hide Pool.Valid;
    r := b;
    ghost var s := b.x[..];
    ghost var n := if b.wds == 0 then 1 else b.wds;
    Pow2Mono(0, b.k);
    var carry := ScaleWords(b.x, if b.wds == 0 then 1 else b.wds, m, a);
    if b.wds == 0 {
      EmptyScaled(s, b.x[..], m, carry);
    } else {
      ghost var t := b.x[..n];
      TopScaled(s[..n], t, carry, m, a);
      if carry != 0 {
        r := PushWord(pool, b, carry);
        ValPush(t, carry);
      }
    }
  }

  /** Scaling the word an empty Bigint reads as zero leaves zero. */
  lemma EmptyScaled(s: seq<word>, t: seq<word>, m: nat, carry: nat)
    requires 1 <= |s| == |t| && s[0] == 0
    requires Val(t[..1]) + carry * Weight(1) == Val(s[..1]) * m + 0
    ensures carry == 0 && t[0] == 0
  {
    ValNext(s, 0);
    ValNext(t, 0);
    WeightNext(0);
    assert Val(s[..1]) == 0;
    assert Val(t[..1]) + carry * BASE == 0;
  }

  /** Without a carry out, a nonzero top word stays nonzero. */
  lemma TopScaled(s: seq<word>, t: seq<word>, carry: nat, m: nat, a: nat)
    requires 1 <= |s| == |t| && Val(t) + carry * Weight(|t|) == Val(s) * m + a
    ensures carry == 0 && 0 < m && s[|s| - 1] != 0 ==> t[|t| - 1] != 0
  {
    hide Val, Weight;
    if carry == 0 && 0 < m && s[|s| - 1] != 0 {
      ValBound(s);
      MulMono(1, m, Val(s));
      ValTop(t);
    }
  }

  /** The words below `i` were all ones and are now zero; a carry into word `i` is due. */
  ghost predicate Carrying(s: seq<word>, x: seq<word>, i: nat) {
    && i <= |s| == |x| && x[i..] == s[i..]
    && Val(x[..i]) + Weight(i) == Val(s[..i]) + 1
  }

  lemma CarryNext(s: seq<word>, x: seq<word>, i: nat)
    requires Carrying(s, x, i) && i < |s| && x[i] == BASE - 1
    ensures Carrying(s, x[i := 0], i + 1)
  {
    hide Val, Weight;
    assert x[i] == s[i];
    ValNext(s, i);
    ValNext(x[i := 0], i);
    assert x[i := 0][..i] == x[..i];
    Distribute(BASE - 1, 1, Weight(i));
  }

  /** The carry stops at word `i`. */
  lemma CarryStops(s: seq<word>, x: seq<word>, i: nat, n: nat, w: word)
    requires Carrying(s, x, i) && i < n <= |s| && w - 1 == x[i]
    ensures Val(x[i := w][..n]) == Val(s[..n]) + 1
    ensures n > 1 && s[n - 1] != 0 ==> x[i := w][n - 1] != 0
  {
    hide Val, Weight;
    var y := x[i := w];
    assert x[i] == s[i];
    ValNext(s, i);
    ValNext(y, i);
    Distribute(s[i], 1, Weight(i));
    assert y[..i] == x[..i];
    assert Val(y[..i + 1]) == Val(s[..i + 1]) + 1;
    ValSplit(s[..n], i + 1);
    ValSplit(y[..n], i + 1);
    assert s[..n][..i + 1] == s[..i + 1] && y[..n][..i + 1] == y[..i + 1];
    assert s[..n][i + 1..] == y[..n][i + 1..] by {
      assert x[i..][1..] == s[i..][1..];
    }
    assert i < n - 1 ==> y[n - 1] == x[i..][n - 1 - i] == s[n - 1];
  }

  lemma CarryOut(s: seq<word>, x: seq<word>, i: nat)
    requires Carrying(s, x, i)
    ensures Val(x[..i]) + Weight(i) == Val(s[..i]) + 1
  {
  }

  /** The loop of increment over x[..n]; true if the carry leaves the top word. */
  method IncrementWords(x: array<word>, n: nat) returns (out: bool)
    requires 1 <= n <= x.Length
    modifies x
    ensures Val(x[..n]) + (if out then Weight(n) else 0) == old(Val(x[..n])) + 1
    ensures !out && n > 1 && old(x[n - 1]) != 0 ==> x[n - 1] != 0
  {
    ghost var s := x[..];
    assert Carrying(s, s, 0) by {
      WeightNext(0);
    }
    hide Val, Weight, Carrying;
    assert s[..n] == old(x[..n]);
    var i := 0;
    while i < n
      invariant i <= n && Carrying(s, x[..], i)
    {
      ghost var y := x[..];
      if x[i] < BASE - 1 {
        CarryStops(s, y, i, n, x[i] + 1);
        x[i] := x[i] + 1;
        assert x[..] == y[i := x[i]] && x[..][..n] == x[..n];
        return false;
      }
      CarryNext(s, y, i);
      x[i] := 0;
      assert x[..] == y[i := 0];
      i := i + 1;
    }
    CarryOut(s, x[..], n);
    assert x[..][..n] == x[..n];
    return true;
  }

  /** b + 1. */
  method Increment(pool: Pool, b: Bigint) returns (r: Bigint)
    requires pool.Valid() && b.Valid() && b.Repr() !! pool.Repr && b in pool.live && 1 <= b.wds
    modifies pool.Repr, b, b.x
    ensures pool.Valid() && r.Valid() && r.Repr() !! pool.Repr
    ensures fresh(pool.Repr + r.Repr() - old(pool.Repr) - b.Repr())
    ensures Replaces(pool.live, old(pool.live), b, r)
    ensures r.Value() == old(b.Value()) + 1
    ensures old(b.wds) <= r.wds <= old(b.wds) + 1 && r.sign == old(b.sign)
    ensures if r.wds <= b.x.Length then r == b else r.k == b.k + 1
    ensures old(b.Trimmed()) ==> r.Trimmed()
  {
    hide Pool.Valid, Val, Weight;
    r := b;
    var out := IncrementWords(b.x, b.wds);
    if out {
      ghost var t := b.x[..b.wds];
      r := PushWord(pool, b, 1);
      ValPush(t, 1);
    }
  }
}
