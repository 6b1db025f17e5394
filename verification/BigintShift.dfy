/** lshift, rshift and any_on of nolibc/dtoa.c: multiplication by a power of two, floor
    division by one, and whether that division would leave a remainder. */
module BigintShift {
  import opened Arith
  import opened Words
  import opened BigintPool

  // ---------- shifting one word ----------

  /** x << k in 32 bits. */
  function Shl(x: word, k: nat): (r: word) {
    x * Pow2(k) % BASE
  }

  /** x >> k. */
  function Shr(x: word, k: nat): (r: word) {
    QuotientFits(x, Pow2(k));
    x / Pow2(k)
  }

  lemma ShiftDefinitions(x: word, k: nat)
    ensures Shl(x, k) == x * Pow2(k) % BASE && Shr(x, k) == x / Pow2(k)
  {
  }

  /** Splitting a word at bit 32 - k: the high part moves out, the low part moves up. */
  lemma SplitWord(x: word, k: nat)
    requires 1 <= k < 32
    ensures x * Pow2(k) == Shl(x, k) + Shr(x, 32 - k) * BASE
    ensures Shl(x, k) + Pow2(k) <= BASE && Shr(x, 32 - k) < Pow2(k)
  {
    var p, t := Pow2(k), Pow2(32 - k);
    assert p * t == BASE by {
      Pow2Add(k, 32 - k);
      Pow2Values();
    }
    ShiftDefinitions(x, k);
    ShiftDefinitions(x, 32 - k);
    hide Pow2, Shl, Shr;
    SplitAt(x, p, t, BASE);
    SmallQuotient(x, t, p);
  }

  // ---------- lshift ----------

  /** The bit-shifting loop: y gets s * 2^k, word by word, `z` pending. */
  ghost predicate ShiftedLeft(s: seq<word>, k: nat, y: seq<word>, i: nat, z: nat) {
    i <= |s| && i <= |y| && z < Pow2(k) && Val(y[..i]) + z * Weight(i) == Val(s[..i]) * Pow2(k)
  }

  /** One turn. OR-ing the pending bits is addition: the k low bits were left clear. */
  lemma LeftStep(s: seq<word>, k: nat, y: seq<word>, i: nat, z: nat)
    requires ShiftedLeft(s, k, y, i, z) && i < |s| && i < |y| && 1 <= k < 32
    ensures Shl(s[i], k) + z < BASE
    ensures ShiftedLeft(s, k, y[i := Shl(s[i], k) + z], i + 1, Shr(s[i], 32 - k))
  {
    hide Val, Weight, Pow2, Shl, Shr;
    SplitWord(s[i], k);
    var lo: nat, hi: nat := Shl(s[i], k) + z, Shr(s[i], 32 - k);
    MulStep(Val(y[..i]), z, Weight(i), Val(s[..i]), Pow2(k), 0, s[i], lo, hi);
    var y' := y[i := lo];
    ValNext(s, i);
    ValNext(y', i);
    assert y'[..i] == y[..i];
  }

  lemma LeftStart(s: seq<word>, k: nat, y: seq<word>)
    ensures ShiftedLeft(s, k, y, 0, 0)
  {
  }

  lemma LeftEnd(s: seq<word>, k: nat, y: seq<word>, z: word)
    requires ShiftedLeft(s, k, y, |s|, z) && |s| < |y|
    ensures Val(y[|s| := z][..|s| + 1]) == Val(s) * Pow2(k)
  {
    var y' := y[|s| := z];
    assert s[..|s|] == s && y'[..|s|] == y[..|s|];
    ValNext(y', |s|);
  }

  /** c[n..n+w+1] = x[..w] * 2^k for a shift below a word; returns the word shifted out. */
  method ShiftWords(c: array<word>, n: nat, x: array<word>, w: nat, k: nat) returns (z: word)
    requires c != x && w <= x.Length && n + w < c.Length && 1 <= k < 32
    modifies c
    ensures Val(c[n..n + w + 1]) == Val(x[..w]) * Pow2(k) && z == c[n + w]
    ensures c[..n] == old(c[..n])
  {
    ghost var s := x[..w];
    z := 0;
    var i := 0;
    LeftStart(s, k, c[n..]);
    hide Val, Weight, ShiftedLeft, Shl, Shr, Pow2;
    while i < w
      invariant i <= w && x[..w] == s && c[..n] == old(c[..n])
      invariant ShiftedLeft(s, k, c[n..], i, z)
    {
      assert x[i] == s[i];
      ghost var y := c[n..];
      LeftStep(s, k, y, i, z);
      c[n + i] := Shl(x[i], k) + z;
      z := Shr(x[i], 32 - k);
      assert c[n..] == y[i := c[n + i]];
      i := i + 1;
    }
    ghost var y := c[n..];
    LeftEnd(s, k, y, z);
    c[n + w] := z;
    assert c[n..] == y[w := z] && c[n..][..w + 1] == c[n..n + w + 1];
  }

  /** The number of doublings that make room for n words, and the capacity reached. */
  method GrowBlock(k0: nat, n: nat) returns (k: nat)
    ensures k0 <= k && n <= Pow2(k) && (k0 < k ==> Pow2(k - 1) < n)
  {
    k := k0;
    var i := Pow2(k0);
    while n > i
      invariant k0 <= k && i == Pow2(k) && (k0 < k ==> Pow2(k - 1) < n)
      decreases n - i
    {
      i := i * 2;
      k := k + 1;
    }
  }

  /** Low words zero, then the shifted ones: the value scales by both shifts. */
  lemma ShiftedValue(c: seq<word>, n: nat, v: nat, j: nat)
    requires n <= |c| && (forall i | 0 <= i < n :: c[i] == 0) && Val(c[n..]) == v * Pow2(j)
    ensures Val(c) == v * Pow2(32 * n + j)
  {
    ValSplit(c, n);
    ValZeros(c[..n]);
    Pow2Add(32 * n, j);
    Assoc(v, Pow2(32 * n), Pow2(j));
  }

  /** A nonzero number keeps a nonzero top word when shifted. */
  lemma ShiftedTop(x: seq<word>, c: seq<word>, k: nat)
    requires x != [] && x[|x| - 1] != 0 && c != [] && Val(c) == Val(x) * Pow2(k)
    requires 32 * (|c| - 1) <= 32 * (|x| - 1) + k
    ensures c[|c| - 1] != 0
  {
    hide Val, Pow2;
    ValBound(x);
    MulMono(Weight(|x| - 1), Val(x), Pow2(k));
    Pow2Add(32 * (|x| - 1), k);
    Pow2Mono(32 * (|c| - 1), 32 * (|x| - 1) + k);
    ValTop(c);
  }

  /** b * 2^k in a block with room for it; the old b is given back. */
  method Lshift(pool: Pool, b: Bigint, k: nat) returns (b1: Bigint)
    requires pool.Valid() && b.Valid() && b.Repr() !! pool.Repr && b in pool.live && 1 <= b.wds
    modifies pool.Repr, b
    ensures pool.Valid() && b1.Valid() && b1.Repr() !! pool.Repr
    ensures fresh(pool.Repr + b1.Repr() - old(pool.Repr) - b.Repr())
    ensures Replaces(pool.live, old(pool.live), b, b1)
    ensures b1.Value() == old(b.Value()) * Pow2(k)
    ensures old(b.Trimmed()) && 0 < old(b.Value()) ==> b1.Trimmed()
    ensures b1.wds == old(b.wds) + k / 32 || b1.wds == old(b.wds) + k / 32 + 1
    ensures b.k <= b1.k && (b.k < b1.k ==> Pow2(b1.k - 1) < old(b.wds) + k / 32 + 1)
  {
    hide Pool.Valid, Val, Weight;
    var n, w := k / 32, b.wds;
    var k1 := GrowBlock(b.k, n + w + 1);
    b1 := pool.Balloc(k1);
    LshiftWords(b1, b, k);
    pool.Bfree(b);
  }

  /** A shift by whole words and 1 to 31 bits, into c[..m]. */
  method LshiftBits(c: array<word>, n: nat, x: array<word>, w: nat, j: nat) returns (m: nat)
    requires c != x && 1 <= w <= x.Length && n + w < c.Length && 1 <= j < 32
    requires forall i | 0 <= i < n :: c[i] == 0
    modifies c
    ensures m == n + w || (m == n + w + 1 && c[m - 1] != 0)
    ensures Val(c[..m]) == Val(x[..w]) * Pow2(32 * n + j)
  {
    hide Val, Weight, Pow2;
    ghost var zeros, v := c[..n], Val(x[..w]);
    var z := ShiftWords(c, n, x, w, j);
    ghost var t := c[..n + w + 1];
    assert t[n..] == c[n..n + w + 1];
    assert forall i | 0 <= i < n :: t[i] == c[..n][i] == zeros[i];
    ShiftedValue(t, n, v, j);
    m := if z != 0 then n + w + 1 else n + w;
    ValTrim(t, m);
    assert t[..m] == c[..m];
  }

  /** A shift by whole words only. */
  method LshiftCopy(c: array<word>, n: nat, x: array<word>, w: nat)
    requires c != x && 1 <= w <= x.Length && n + w < c.Length
    requires forall i | 0 <= i < n :: c[i] == 0
    modifies c
    ensures Val(c[..n + w]) == Val(x[..w]) * Pow2(32 * n)
  {
    assert Pow2(0) == 1;
    hide Val, Weight, Pow2;
    ghost var zeros := c[..n];
    var i := 0;
    while i < w
      invariant i <= w && c[..n] == zeros && c[n..n + i] == x[..i]
    {
      c[n + i] := x[i];
      assert c[n..n + i + 1] == c[n..n + i] + [x[i]];
      i := i + 1;
    }
    ghost var t := c[..n + w];
    assert t[n..] == x[..w] && t[..n] == zeros;
    ShiftedValue(t, n, Val(x[..w]), 0);
  }

  /** The words of the result: zeros, then the words shifted or copied. */
  method LshiftArray(c: array<word>, x: array<word>, w: nat, k: nat) returns (m: nat)
    requires c != x && 1 <= w <= x.Length && w + k / 32 + 1 <= c.Length
    modifies c
    ensures m == w + k / 32 || (m == w + k / 32 + 1 && c[m - 1] != 0)
    ensures Val(c[..m]) == Val(x[..w]) * Pow2(k)
  {
    var n, j := k / 32, k % 32;
    hide Val, Weight, Pow2;
    forall i | 0 <= i < n {
      c[i] := 0;
    }
    if j != 0 {
      m := LshiftBits(c, n, x, w, j);
    } else {
      LshiftCopy(c, n, x, w);
      m := n + w;
    }
  }

  /** Fills the new block: zero words, then the shifted or copied ones. */
  method LshiftWords(b1: Bigint, b: Bigint, k: nat)
    requires b.Valid() && 1 <= b.wds && b1 != b && b1.x != b.x
    requires b1.x.Length == Pow2(b1.k) && b.wds + k / 32 + 1 <= b1.x.Length
    modifies b1`wds, b1.x
    ensures b1.Valid() && b1.Value() == b.Value() * Pow2(k)
    ensures b.Trimmed() && 0 < b.Value() ==> b1.Trimmed()
    ensures b1.wds == b.wds + k / 32 || b1.wds == b.wds + k / 32 + 1
  {
    hide Val, Weight, Pow2;
    b1.wds := LshiftArray(b1.x, b.x, b.wds, k);
    LshiftTop(b.x[..b.wds], b1.x[..b1.wds], k);
  }

  lemma LshiftTop(s: seq<word>, c: seq<word>, k: nat)
    requires s != [] && c != [] && Val(c) == Val(s) * Pow2(k)
    requires |c| == |s| + k / 32 || (|c| == |s| + k / 32 + 1 && c[|c| - 1] != 0)
    ensures (1 < |s| ==> s[|s| - 1] != 0) && 0 < Val(s) && 1 < |c| ==> c[|c| - 1] != 0
  {
    if (1 < |s| ==> s[|s| - 1] != 0) && 0 < Val(s) && |c| == |s| + k / 32 {
      if |s| == 1 {
        SingleWord(s);
      }
      ShiftedTop(s, c, k);
    }
  }

  // ---------- rshift and any_on ----------

  /** The loop of rshift: y holds s / 2^k so far, `z` the bits of the last word read; the k
      lowest bits, `r`, have fallen off. */
  ghost predicate ShiftedRight(s: seq<word>, k: nat, y: seq<word>, i: nat, z: nat, r: nat) {
    && k <= 32 && i + 1 <= |s| && i <= |y| && z < Pow2(32 - k) && r < Pow2(k)
    && Val(s[..i + 1]) == (Val(y[..i]) + z * Weight(i)) * Pow2(k) + r
  }

  lemma RightWordValue(v: nat, z: nat, p: nat, t: nat, r: nat, s: nat, w: nat, x: nat, hi: nat, lo: nat)
    requires s == (v + z * w) * p + r && BASE == t * p
    requires x * t == hi * BASE + lo
    ensures s + x * (w * BASE) == (v + (lo + z) * w + hi * (w * BASE)) * p + r
  {
    Assoc(x, w, BASE);
    Assoc(x, t, p);
    Assoc(hi, w, BASE);
    Distribute(lo, z, w);
    Distribute(hi * BASE, lo, w);
    Distribute(v + z * w, x * t * w, p);
    Assoc(x * t, w, p);
    assert v + (lo + z) * w + hi * (w * BASE) == v + z * w + (x * t) * w;
    assert x * (w * BASE) == x * t * w * p by {
      Assoc(x * t, p, w);
      Assoc(x, t * p, w);
    }
  }

  lemma WordPowers(k: nat)
    requires k <= 32
    ensures Pow2(32 - k) * Pow2(k) == BASE
  {
    Pow2Values();
    hide Pow2;
    Pow2Add(32 - k, k);
  }

  lemma RightStart(s: seq<word>, k: nat, y: seq<word>)
    requires s != [] && 1 <= k < 32
    ensures ShiftedRight(s, k, y, 0, Shr(s[0], k), s[0] % Pow2(k))
  {
    hide Weight, Pow2, Shl, Shr;
    assert Val(y[..0]) == 0;
    hide Val;
    SplitWord(s[0], 32 - k);
    SingleWord(s[..1]);
    WeightNext(0);
    ShiftDefinitions(s[0], k);
    DivModDef(s[0], Pow2(k));
    assert (0 + Shr(s[0], k) * 1) * Pow2(k) + s[0] % Pow2(k) == s[0];
  }

  lemma RightStep(s: seq<word>, k: nat, y: seq<word>, i: nat, z: nat, r: nat)
    requires ShiftedRight(s, k, y, i, z, r) && i + 1 < |s| && i < |y| && 1 <= k < 32
    ensures Shl(s[i + 1], 32 - k) + z < BASE
    ensures ShiftedRight(s, k, y[i := Shl(s[i + 1], 32 - k) + z], i + 1, Shr(s[i + 1], k), r)
  {
    hide Val, Weight, Pow2, Shl, Shr;
    WordPowers(k);
    var x := s[i + 1];
    SplitWord(x, 32 - k);
    var lo: nat, hi: nat := Shl(x, 32 - k), Shr(x, k);
    var y' := y[i := lo + z];
    ValNext(s, i + 1);
    ValNext(y', i);
    WeightNext(i);
    assert y'[..i] == y[..i];
    RightWordValue(Val(y[..i]), z, Pow2(k), Pow2(32 - k), r, Val(s[..i + 1]), Weight(i), x, hi, lo);
  }

  lemma RightEnd(s: seq<word>, k: nat, y: seq<word>, z: word, r: nat)
    requires s != [] && ShiftedRight(s, k, y, |s| - 1, z, r) && |s| <= |y|
    ensures Val(y[|s| - 1 := z][..|s|]) == Val(s) / Pow2(k)
  {
    hide Val, Weight, Pow2;
    var i := |s| - 1;
    var y' := y[i := z];
    assert s[..|s|] == s && y'[..i] == y[..i];
    ValNext(y', i);
    DivModUnique(Val(s), Pow2(k), Val(y'[..i + 1]), r);
  }

  /** x[..] = x[n..w] >> k in place, for a shift of 1 to 31 bits; returns the words used. */
  method ShiftWordsDown(x: array<word>, n: nat, w: nat, k: nat) returns (m: nat)
    requires n < w <= x.Length && 1 <= k < 32
    modifies x
    ensures m == w - n - 1 || (m == w - n && x[m - 1] != 0)
    ensures Val(x[..m]) == Val(old(x[n..w])) / Pow2(k)
  {
    hide Val, Weight, ShiftedRight, Shl, Shr, Pow2;
    ghost var s, r := x[n..w], x[n] % Pow2(k);
    assert s[0] == x[n];
    RightStart(s, k, x[..]);
    var z := Shr(x[n], k);
    var i := 0;
    while n + i + 1 < w
      invariant n + i + 1 <= w && x[n + i + 1..w] == s[i + 1..]
      invariant ShiftedRight(s, k, x[..], i, z, r)
    {
      assert x[n + i + 1] == x[n + i + 1..w][0] && s[i + 1] == s[i + 1..][0];
      ghost var y := x[..];
      RightStep(s, k, y, i, z, r);
      var next := x[n + i + 1];
      x[i] := Shl(next, 32 - k) + z;
      z := Shr(next, k);
      assert x[..] == y[i := x[i]];
      i := i + 1;
    }
    ghost var y := x[..];
    RightEnd(s, k, y, z, r);
    x[i] := z;
    assert x[..] == y[i := x[i]] && x[..][..i + 1] == x[..i + 1];
    m := if z != 0 then i + 1 else i;
    ValTrim(x[..i + 1], m);
    assert x[..i + 1][..m] == x[..m];
  }

  /** Dropping n words divides by their weight. */
  lemma DropWords(s: seq<word>, n: nat, j: nat)
    requires n <= |s|
    ensures Val(s) / Pow2(32 * n + j) == Val(s[n..]) / Pow2(j)
  {
    ValSplit(s, n);
    ValBound(s[..n]);
    DivModUnique(Val(s), Weight(n), Val(s[n..]), Val(s[..n]));
    DivDiv(Val(s), Weight(n), Pow2(j));
    Pow2Add(32 * n, j);
  }

  /** Shifting by at least all the words leaves zero. */
  lemma ShiftedAway(s: seq<word>, k: nat)
    requires 32 * |s| <= k
    ensures Val(s) / Pow2(k) == 0 && Val(s) % Pow2(k) == Val(s)
  {
    ValBound(s);
    Pow2Mono(32 * |s|, k);
    DivModUnique(Val(s), Pow2(k), 0, Val(s));
  }

  /** Without its lowest n words and j bits, a trimmed number still fills all words but one. */
  lemma ShiftedTopDown(s: seq<word>, t: seq<word>, j: nat)
    requires 2 <= |s| && s[|s| - 1] != 0 && 1 <= j < 32
    requires Val(t) == Val(s) / Pow2(j) && |t| == |s| - 1
    ensures t[|t| - 1] != 0
  {
    var n := |s| - 1;
    ValBound(s);
    assert Weight(n - 1) * Pow2(j) <= Weight(n) by {
      Pow2Add(32 * (n - 1), j);
      Pow2Mono(32 * (n - 1) + j, 32 * n);
    }
    hide Val, Weight, Pow2;
    if Val(t) < Weight(n - 1) {
      DivModDef(Val(s), Pow2(j));
      MulMono(Val(t) + 1, Weight(n - 1), Pow2(j));
      Distribute(Val(t), 1, Pow2(j));
    }
    ValTop(t);
  }

  /** b / 2^k in place, rounded down. */
  method Rshift(b: Bigint, k: nat)
    requires b.Valid()
    modifies b`wds, b.x
    ensures b.Valid() && b.Value() == old(b.Value()) / Pow2(k)
    ensures old(b.Trimmed()) ==> b.Trimmed()
    ensures b.wds <= old(b.wds)
  {
    var n := k / 32;
    ghost var s := b.x[..b.wds];
    hide Val, Weight, Pow2;
    if n >= b.wds {
      ShiftedAway(s, k);
      EmptyValue();
      b.wds := 0;
      assert b.x[..0] == [];
    } else {
      DropWords(s, n, k % 32);
      b.wds := ShiftDown(b.x, n, b.wds, k % 32);
    }
    if b.wds == 0 {
      b.x[0] := 0;
    }
  }

  /** The words from n on, moved to the front and down by j bits. */
  method ShiftDown(x: array<word>, n: nat, w: nat, j: nat) returns (m: nat)
    requires n < w <= x.Length && j < 32
    modifies x
    ensures m <= w && Val(x[..m]) == Val(old(x[n..w])) / Pow2(j)
    ensures old(x[w - 1]) != 0 && 1 < m ==> x[m - 1] != 0
  {
    ghost var s := x[n..w];
    hide Val, Weight, Pow2;
    if j != 0 {
      m := ShiftWordsDown(x, n, w, j);
      if 1 <= m == w - n - 1 && s[|s| - 1] != 0 {
        ShiftedTopDown(s, x[..m], j);
      }
    } else {
      DivByOne(Val(s));
      CopyWordsDown(x, n, w);
      m := w - n;
    }
  }

  lemma EmptyValue()
    ensures Val([]) == 0
  {
  }

  lemma DivByOne(v: nat)
    ensures v / Pow2(0) == v
  {
    assert Pow2(0) == 1;
  }

  /** A shift by whole words. */
  method CopyWordsDown(x: array<word>, n: nat, w: nat)
    requires n < w <= x.Length
    modifies x
    ensures x[..w - n] == old(x[n..w])
  {
    ghost var s := x[n..w];
    var i := 0;
    while n + i < w
      invariant n + i <= w && x[..i] == s[..i] && x[n + i..w] == s[i..]
    {
      assert x[n + i] == s[i] && x[n + i + 1..w] == x[n + i..w][1..] == s[i + 1..];
      x[i] := x[n + i];
      assert x[..i + 1] == x[..i] + [x[i]] == s[..i] + [s[i]];
      i := i + 1;
    }
  }

  lemma LowBitsValue(high: nat, c: nat, m: nat, q: nat, p: nat, w: nat, r: nat)
    requires m == w * p
    ensures high * (c * m) + (q * p + r) * w == (high * c + q) * m + r * w
  {
    Assoc(high, c, m);
    Distribute(high * c, q, m);
    Distribute(q * p, r, w);
    Assoc(q, p, w);
  }

  lemma LowPartFits(v0: nat, r: nat, w: nat, p: nat)
    requires v0 < w && r < p
    ensures v0 + r * w < w * p
  {
    MulMono(r + 1, p, w);
    Distribute(r, 1, w);
  }

  lemma LowBitsMod(v0: nat, x: nat, high: nat, w: nat, p: nat, c: nat, m: nat)
    requires v0 < w && 0 < p && m == w * p
    ensures (v0 + x * w + high * (c * m)) % m == v0 + x % p * w
  {
    var r := x % p;
    DivModDef(x, p);
    LowPartFits(v0, r, w, p);
    LowBitsValue(high, c, m, x / p, p, w, r);
    DivModUnique(v0 + x * w + high * (c * m), m, high * c + x / p, v0 + r * w);
  }

  /** The k low bits of a number: the words below, and the low bits of the next one. */
  lemma LowBits(s: seq<word>, n: nat, j: nat)
    requires n < |s| && j < 32
    ensures Val(s) % Pow2(32 * n + j) == Val(s[..n]) + s[n] % Pow2(j) * Weight(n)
  {
    hide Val, Pow2;
    assert Weight(n) == Pow2(32 * n) && Weight(n + 1) == Pow2(32 * (n + 1));
    hide Weight;
    ValSplit(s, n + 1);
    ValNext(s, n);
    ValBound(s[..n]);
    Pow2Add(32 * n, j);
    Pow2Add(32 - j, 32 * n + j);
    LowBitsMod(Val(s[..n]), s[n], Val(s[n + 1..]), Weight(n), Pow2(j), Pow2(32 - j), Pow2(32 * n + j));
  }

  /** Whether any of the k low bits is set. */
  method AnyOn(b: Bigint, k: nat) returns (r: bool)
    requires b.Valid()
    ensures r <==> b.Value() % Pow2(k) != 0
  {
    var n, j := k / 32, k % 32;
    ghost var s := b.x[..b.wds];
    hide Val, Weight, Pow2, Shl, Shr;
    if n >= b.wds {
      n := b.wds;
      ShiftedAway(s, k);
      assert s[..n] == s;
    } else {
      LowBits(s, n, j);
      PositiveProduct(s[n] % Pow2(j), Weight(n));
      if j != 0 {
        BitsLost(s[n], j);
        var x1 := Shl(Shr(b.x[n], j), j);
        if x1 != b.x[n] {
          return true;
        }
      } else {
        ModOne(s[n]);
      }
    }
    ghost var top := n;
    while n > 0
      invariant n <= top <= b.wds && forall i | n <= i < top :: s[i] == 0
    {
      n := n - 1;
      if b.x[n] != 0 {
        ValPositive(s[..top], n);
        return true;
      }
    }
    ValZeros(s[..top]);
    return false;
  }

  lemma PositiveProduct(a: nat, b: nat)
    requires 0 < b
    ensures 0 < a ==> 0 < a * b
    ensures a == 0 ==> a * b == 0
  {
    if 0 < a {
      MulMono(1, a, b);
    }
  }

  lemma ModOne(x: nat)
    ensures x % Pow2(0) == 0
  {
    assert Pow2(0) == 1;
  }

  /** Shifting down and up again clears the low bits. */
  lemma BitsLost(x: word, j: nat)
    requires j < 32
    ensures Shl(Shr(x, j), j) == x - x % Pow2(j)
  {
    DivModDef(x, Pow2(j));
    ShiftDefinitions(x, j);
    ShiftDefinitions(Shr(x, j), j);
    hide Shl, Shr, Pow2;
    DivModUnique(Shr(x, j) * Pow2(j), BASE, 0, Shr(x, j) * Pow2(j));
  }
}
