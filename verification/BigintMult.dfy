/** mult, i2b and pow5mult of nolibc/dtoa.c, with the cache of powers 5^(4 * 2^j) that grows
    on demand. */
module BigintMult {
  import opened Arith
  import opened Words
  import opened BigintPool
  import opened BigintOps
  import opened BigintCompare

  // ---------- mult ----------

  /** `c` is `c0` with the low `i` words of a * y added from word `j` on, `carry` pending. */
  ghost predicate RowAdded(c0: seq<word>, a: seq<word>, y: nat, j: nat, c: seq<word>, i: nat, carry: nat) {
    && |c| == |c0| && i <= |a| && i + j <= |c| && carry < BASE
    && Val(c) + carry * Weight(i + j) == Val(c0) + y * Val(a[..i]) * Weight(j)
    && c[i + j..] == c0[i + j..]
  }

  lemma RowWordValue(v: int, v': int, carry: nat, base: int, y: nat, s: nat, pi: nat, pj: nat, x: nat, c: nat,
                     lo: nat, hi: nat)
    requires v + carry * (pi * pj) == base + y * s * pj
    requires x * y + c + carry == lo + hi * BASE
    requires v' == v + (lo - c) * (pi * pj)
    ensures v' + hi * (pi * pj * BASE) == base + y * (s + x * pi) * pj
  {
    var p := pi * pj;
    Distribute(lo, c, p);
    Distribute(x * y + c, carry, p);
    Distribute(x * y, c, p);
    Distribute(lo, hi * BASE, p);
    Assoc(hi, BASE, p);
    Distribute(s, x * pi, y);
    Distribute(y * s, y * (x * pi), pj);
    Assoc(y, x, pi);
    Assoc(y * x, pi, pj);
  }

  lemma RowWord(c0: seq<word>, a: seq<word>, y: nat, j: nat, c: seq<word>, i: nat, carry: nat)
    requires RowAdded(c0, a, y, j, c, i, carry) && i < |a| && i + j < |c| && y < BASE
    ensures var z := a[i] * y + c[i + j] + carry;
            0 <= z < BASE * BASE && RowAdded(c0, a, y, j, c[i + j := z % BASE], i + 1, z / BASE)
  {
    hide Val, Weight;
    var z: nat := a[i] * y + c[i + j] + carry;
    MulMono(a[i], BASE - 1, y);
    ValUpdate(c, i + j, z % BASE);
    ValNext(a, i);
    WeightAdd(i, j);
    WeightNext(i + j);
    var c' := c[i + j := z % BASE];
    RowWordValue(Val(c), Val(c'), carry, Val(c0), y, Val(a[..i]), Weight(i), Weight(j),
                 a[i], c[i + j], z % BASE, z / BASE);
    assert c'[i + j + 1..] == c[i + j..][1..] == c0[i + j..][1..];
  }

  lemma RowStart(c0: seq<word>, a: seq<word>, y: nat, j: nat)
    requires j <= |c0|
    ensures RowAdded(c0, a, y, j, c0, 0, 0)
  {
    assert Val(a[..0]) == 0;
    assert y * 0 * Weight(j) == 0;
  }

  /** The carry out lands in a word that was zero. */
  lemma RowEnd(c0: seq<word>, a: seq<word>, y: nat, j: nat, c: seq<word>, carry: word)
    requires RowAdded(c0, a, y, j, c, |a|, carry) && |a| + j < |c| && c0[|a| + j] == 0
    ensures Val(c[|a| + j := carry]) == Val(c0) + y * Val(a) * Weight(j)
  {
    assert c[|a| + j..][0] == c0[|a| + j..][0];
    ValUpdate(c, |a| + j, carry);
    assert a[..|a|] == a;
  }

  /** c += a * y * BASE^j, over n words of c. */
  method AddRow(c: array<word>, n: nat, a: array<word>, wa: nat, y: word, j: nat)
    requires c != a && n <= c.Length && 1 <= wa <= a.Length && wa + j < n && c[wa + j] == 0
    modifies c
    ensures Val(c[..n]) == old(Val(c[..n])) + y * Val(a[..wa]) * Weight(j)
    ensures c[wa + j + 1..n] == old(c[wa + j + 1..n])
  {
    ghost var c0, s := c[..n], a[..wa];
    RowStart(c0, s, y, j);
    hide Val, Weight, RowAdded;
    var i: nat, carry: nat := 0, 0;
    while i < wa
      invariant i <= wa && a[..wa] == s && carry < BASE && c[wa + j + 1..n] == c0[wa + j + 1..]
      invariant RowAdded(c0, s, y, j, c[..n], i, carry)
    {
      assert a[i] == s[i];
      ghost var before := c[..n];
      RowWord(c0, s, y, j, before, i, carry);
      var z: nat := a[i] * y + c[i + j] + carry; // below 2^64
      carry := z / BASE;
      c[i + j] := z % BASE;
      assert c[..n] == before[i + j := c[i + j]];
      RowCarry(c0, s, y, j, c[..n], i + 1, carry);
      i := i + 1;
    }
    ghost var before := c[..n];
    RowEnd(c0, s, y, j, before, carry);
    c[wa + j] := carry;
    assert c[..n] == before[wa + j := c[wa + j]];
  }

  lemma RowCarry(c0: seq<word>, a: seq<word>, y: nat, j: nat, c: seq<word>, i: nat, carry: nat)
    requires RowAdded(c0, a, y, j, c, i, carry)
    ensures carry < BASE
  {
  }

  lemma ProductStep(v: int, a: nat, t: nat, y: nat, w: nat)
    requires v == a * t
    ensures v + y * a * w == a * (t + y * w)
  {
    Distribute(t, y * w, a);
    Assoc(a, y, w);
  }

  /** One row of the product; rows of a zero word are skipped. */
  method ProductRow(c: array<word>, n: nat, xa: array<word>, wa: nat, xb: array<word>, j: nat)
    requires c != xa && c != xb && n <= c.Length && wa <= xa.Length && j < wa && j < xb.Length && wa + j < n
    requires forall k | wa + j <= k < n :: c[k] == 0
    requires Val(c[..n]) == Val(xa[..wa]) * Val(xb[..j])
    modifies c
    ensures forall k | wa + j + 1 <= k < n :: c[k] == 0
    ensures Val(c[..n]) == Val(xa[..wa]) * Val(xb[..j + 1])
  {
    hide Val, Weight;
    ghost var s, t, v := xa[..wa], xb[..], Val(c[..n]);
    var y := xb[j];
    ValNext(t, j);
    assert t[..j] == xb[..j] && t[..j + 1] == xb[..j + 1];
    ProductStep(v, Val(s), Val(t[..j]), y, Weight(j));
    if y != 0 {
      ghost var before := c[wa + j + 1..n];
      AddRow(c, n, xa, wa, y, j);
      assert forall k | wa + j + 1 <= k < n :: c[k] == before[k - (wa + j + 1)];
    } else {
      assert 0 * Val(s) * Weight(j) == 0;
    }
  }

  /** The schoolbook product of xa and xb into c, cleared first. */
  method MultiplyWords(c: array<word>, xa: array<word>, wa: nat, xb: array<word>, wb: nat)
    requires c != xa && c != xb && wa <= xa.Length && wb <= wa && wb <= xb.Length && wa + wb <= c.Length
    modifies c
    ensures Val(c[..wa + wb]) == Val(xa[..wa]) * Val(xb[..wb])
  {
    var n := wa + wb;
    forall i | 0 <= i < n {
      c[i] := 0;
    }
    ValZeros(c[..n]);
    var j := 0;
    assert Val(xb[..0]) == 0;
    hide Val, Weight;
    while j < wb
      invariant j <= wb && xa[..] == old(xa[..]) && xb[..] == old(xb[..])
      invariant forall k | wa + j <= k < n :: c[k] == 0
      invariant Val(c[..n]) == Val(xa[..wa]) * Val(xb[..j])
    {
      ProductRow(c, n, xa, wa, xb, j);
      j := j + 1;
    }
  }

  /** a * b, trimmed completely. */
  method Mult(pool: Pool, a0: Bigint, b0: Bigint) returns (c: Bigint)
    requires pool.Valid() && a0.Valid() && b0.Valid()
    requires a0.Repr() !! pool.Repr && b0.Repr() !! pool.Repr
    requires 1 <= a0.wds || 1 <= b0.wds
    modifies pool.Repr
    ensures pool.Valid() && c.Valid() && c.Repr() !! pool.Repr + a0.Repr() + b0.Repr()
    ensures fresh(pool.Repr + c.Repr() - old(pool.Repr))
    ensures pool.live == old(pool.live) + {c} && c !in old(pool.live)
    ensures c.Value() == a0.Value() * b0.Value()
    ensures 0 < c.wds ==> c.x[c.wds - 1] != 0
    ensures var a := if a0.wds < b0.wds then b0 else a0;
      c.k == if a0.wds + b0.wds > a.x.Length then a.k + 1 else a.k
  {
    hide Pool.Valid, Val;
    if a0.wds < b0.wds {
      c := MultLonger(pool, b0, a0);
    } else {
      c := MultLonger(pool, a0, b0);
    }
  }

  /** The product once the longer operand comes first. */
  method MultLonger(pool: Pool, a: Bigint, b: Bigint) returns (c: Bigint)
    requires pool.Valid() && a.Valid() && b.Valid()
    requires a.Repr() !! pool.Repr && b.Repr() !! pool.Repr
    requires 1 <= a.wds && b.wds <= a.wds
    modifies pool.Repr
    ensures pool.Valid() && c.Valid() && c.Repr() !! pool.Repr + a.Repr() + b.Repr()
    ensures fresh(pool.Repr + c.Repr() - old(pool.Repr))
    ensures pool.live == old(pool.live) + {c} && c !in old(pool.live)
    ensures c.Value() == a.Value() * b.Value()
    ensures 0 < c.wds ==> c.x[c.wds - 1] != 0
    ensures c.k == if a.wds + b.wds > a.x.Length then a.k + 1 else a.k
  {
    hide Pool.Valid, Val, Weight;
    var wc := a.wds + b.wds;
    c := pool.Balloc(if wc > a.x.Length then a.k + 1 else a.k);
    MultiplyWords(c.x, a.x, a.wds, b.x, b.wds);
    c.wds := DropZeros(c.x, wc, 0);
  }

  // ---------- the cache of powers of five ----------

  /** The exponent of the j-th cached power. */
  function CacheExponent(j: nat): nat {
    4 * Pow2(j)
  }

  /** p5s: powers linked through `next`, each the square of the one before. */
  class PowerCache {
    var p5s: Bigint?
    ghost var chain: seq<Bigint>
    ghost var Repr: set<object>

    /** The blocks of the chain. */
    ghost function Nodes(): set<Bigint>
      reads this
    {
      set b | b in chain
    }

    constructor ()
      ensures Valid() && chain == [] && fresh(Repr)
    {
      p5s, chain, Repr := null, [], {this};
    }

    /** Block b holds the j-th power. */
    ghost predicate Holds(b: Bigint, j: nat)
      reads b`wds, b.x
    {
      b.Valid() && 1 <= b.wds && b.Trimmed() && b.Value() == Pow5(CacheExponent(j))
    }

    ghost predicate Valid()
      reads this, Repr
      ensures Valid() ==> this in Repr
    {
      && this in Repr
      && (if chain == [] then p5s == null else p5s == chain[0])
      && (forall j | 0 <= j < |chain| :: chain[j] in Repr && chain[j].x in Repr && Holds(chain[j], j))
      && (forall j {:trigger chain[j].next} | 0 <= j < |chain| ::
            if j == |chain| - 1 then chain[j].next == null else chain[j].next == chain[j + 1])
      && (forall i, j | 0 <= i < j < |chain| :: chain[i] != chain[j])
    }

    method Start(b: Bigint)
      requires Valid() && chain == [] && b.Repr() !! Repr && Holds(b, 0)
      modifies this, b`next
      ensures Valid() && chain == [b] && Repr == old(Repr) + b.Repr()
    {
      b.next := null;
      p5s := b;
      chain := [b];
      Repr := Repr + {b, b.x};
    }

    /** Links a new power after the last one. */
    method Append(last: Bigint, b: Bigint)
      requires Valid() && b.Repr() !! Repr && Holds(b, |chain|)
      requires chain != [] && last == chain[|chain| - 1]
      modifies this, b`next, last`next
      ensures Valid() && chain == old(chain) + [b] && Repr == old(Repr) + b.Repr()
    {
      hide Holds;
      b.next := null;
      last.next := b;
      chain := chain + [b];
      Repr := Repr + {b, b.x};
    }
  }

  /** The small integer `i` as a Bigint. */
  method I2b(pool: Pool, i: word) returns (b: Bigint)
    requires pool.Valid()
    modifies pool.Repr
    ensures pool.Valid() && b.Valid() && b.Repr() !! pool.Repr
    ensures fresh(pool.Repr + b.Repr() - old(pool.Repr))
    ensures pool.live == old(pool.live) + {b} && b !in old(pool.live)
    ensures b.Value() == i && b.wds == 1 && b.k == 1
  {
    hide Pool.Valid;
    b := pool.Balloc(1);
    assert Pow2(1) == 2;
    b.x[0] := i;
    b.wds := 1;
    ValNext(b.x[..], 0);
    WeightNext(0);
    assert b.x[..][..1] == b.x[..1] && b.x[..][..0] == [];
  }

  lemma CacheExponentNext(j: nat)
    ensures Pow5(CacheExponent(j + 1)) == Pow5(CacheExponent(j)) * Pow5(CacheExponent(j))
    ensures Pow5(CacheExponent(0)) == 625
  {
    Pow5Add(CacheExponent(j), CacheExponent(j));
    assert CacheExponent(0) == 4 && Pow5(4) == 625;
  }

  /** The first cached power, 5^4, made on the first call. */
  method FirstPower(pool: Pool, cache: PowerCache) returns (p5: Bigint, ghost made: set<Bigint>)
    requires pool.Valid() && cache.Valid() && pool.Repr !! cache.Repr
    modifies pool.Repr, cache
    ensures pool.Valid() && cache.Valid() && pool.Repr !! cache.Repr
    ensures fresh(pool.Repr + cache.Repr - old(pool.Repr + cache.Repr))
    ensures pool.live == old(pool.live) + made && made !! old(pool.live) && cache.Nodes() == old(cache.Nodes()) + made
    ensures old(cache.chain) <= cache.chain && 0 < |cache.chain| && p5 == cache.chain[0]
    ensures old(cache.Repr) <= cache.Repr
    ensures forall i | |old(cache.chain)| <= i < |cache.chain| :: cache.chain[i] !in old(cache.Repr)
  {
    hide Pool.Valid, Val;
    made := {};
    if cache.p5s == null {
      var b := I2b(pool, 625);
      CacheExponentNext(0);
      cache.Start(b);
      made := {b};
    }
    p5 := cache.p5s;
  }

  /** The power after the j-th, made by squaring when the chain ends here. */
  method NextPower(pool: Pool, cache: PowerCache, p5: Bigint, ghost j: nat) returns (p51: Bigint, ghost made: set<Bigint>)
    requires pool.Valid() && cache.Valid() && pool.Repr !! cache.Repr
    requires j < |cache.chain| && p5 == cache.chain[j]
    modifies pool.Repr, cache, p5`next
    ensures pool.Valid() && cache.Valid() && pool.Repr !! cache.Repr
    ensures fresh(pool.Repr + cache.Repr - old(pool.Repr + cache.Repr))
    ensures pool.live == old(pool.live) + made && made !! old(pool.live) && cache.Nodes() == old(cache.Nodes()) + made
    ensures old(cache.chain) <= cache.chain && j + 1 < |cache.chain| && p51 == cache.chain[j + 1]
    ensures old(cache.Repr) <= cache.Repr
    ensures forall i | |old(cache.chain)| <= i < |cache.chain| :: cache.chain[i] !in old(cache.Repr)
  {
    hide Pool.Valid, Val;
    assert cache.Holds(p5, j);
    made := {};
    if p5.next == null {
      p51 := Mult(pool, p5, p5);
      CacheExponentNext(j);
      NonzeroHasWords(p51.x[..p51.wds]);
      assert cache.Holds(p51, j + 1);
      cache.Append(p5, p51);
      made := {p51};
    } else {
      p51 := p5.next;
    }
  }

  lemma NonzeroHasWords(s: seq<word>)
    ensures 0 < Val(s) ==> 1 <= |s|
  {
  }

  // ---------- pow5mult ----------

  /** b * p5, the old b given back. */
  method MultInto(pool: Pool, b: Bigint, p5: Bigint) returns (r: Bigint)
    requires pool.Valid() && b.Valid() && p5.Valid() && 1 <= b.wds && 1 <= p5.wds && b != p5 && b.x != p5.x
    requires b.Repr() !! pool.Repr && b in pool.live && p5.Repr() !! pool.Repr
    modifies pool.Repr, b
    ensures pool.Valid() && r.Valid() && r.Repr() !! pool.Repr
    ensures fresh(pool.Repr + r.Repr() - old(pool.Repr) - b.Repr())
    ensures Replaces(pool.live, old(pool.live), b, r)
    ensures r.Value() == old(b.Value()) * p5.Value()
    ensures r.Trimmed()
    ensures 0 < old(b.Value()) && 0 < p5.Value() ==> 0 < r.Value() && 1 <= r.wds
  {
    hide Pool.Valid, Val;
    if 0 < b.Value() && 0 < p5.Value() {
      MulMono(1, b.Value(), p5.Value());
    }
    r := Mult(pool, b, p5);
    NonzeroHasWords(r.x[..r.wds]);
    pool.Bfree(b);
  }

  /** What v comes to when the powers for the bits of kk, from the j-th on, are multiplied in. */
  ghost function Final(v: nat, kk: nat, j: nat): nat {
    v * Pow5(kk * CacheExponent(j))
  }

  /** The factors 5, 25, 125 take k down to a multiple of four. */
  lemma PartialPowers(v: nat, k: nat)
    ensures Final(v * Pow5(k % 4), k / 4, 0) == v * Pow5(k)
  {
    assert Pow2(0) == 1 && CacheExponent(0) == 4;
    hide Pow5;
    Pow5Add(k % 4, k / 4 * 4);
    Assoc(v, Pow5(k % 4), Pow5(k / 4 * 4));
  }

  lemma SmallFives(k: nat)
    requires k < 4
    ensures Pow5(k) == [1, 5, 25, 125][k]
  {
    assert Pow5(0) == 1 && Pow5(1) == 5 && Pow5(2) == 25 && Pow5(3) == 125;
  }

  /** Binary exponentiation: what is still to be multiplied in after handling bit j. */
  lemma ExponentStep(v: nat, kk: nat, j: nat)
    ensures Final(if kk % 2 == 1 then v * Pow5(CacheExponent(j)) else v, kk / 2, j + 1) == Final(v, kk, j)
  {
    var c := CacheExponent(j);
    assert kk == kk % 2 + 2 * (kk / 2);
    Distribute(kk % 2, 2 * (kk / 2), c);
    Assoc(kk / 2, 2, c);
    Pow5Add(kk % 2 * c, kk / 2 * CacheExponent(j + 1));
    Assoc(v, Pow5(kk % 2 * c), Pow5(kk / 2 * CacheExponent(j + 1)));
    assert kk % 2 == 0 ==> Pow5(kk % 2 * c) == 1;
    assert kk % 2 == 1 ==> kk % 2 * c == c;
  }

  lemma NothingLeft(v: nat, j: nat)
    ensures Final(v, 0, j) == v
  {
    assert Pow5(0) == 1;
  }

  /** What the loop keeps of the pool, the cache and the number it raises. */
  ghost predicate Raising(pool: Pool, cache: PowerCache, r: Bigint)
    reads pool, pool.Repr, cache, cache.Repr, r, r.x
  {
    && pool.Valid() && cache.Valid() && pool.Repr !! cache.Repr && r.Repr() !! pool.Repr + cache.Repr && r in pool.live
    && r.Valid() && r.Trimmed() && 0 < r.Value() && 1 <= r.wds
  }

  lemma ChainHeld(cache: PowerCache)
    requires cache.Valid()
    ensures forall c | c in cache.chain :: c in cache.Repr
  {
  }

  lemma PowerHeld(cache: PowerCache, j: nat)
    requires cache.Valid() && j < |cache.chain|
    ensures cache.chain[j] in cache.Repr && cache.chain[j].x in cache.Repr && cache.Holds(cache.chain[j], j)
  {
  }

  lemma RaisedHeld(pool: Pool, cache: PowerCache, r: Bigint, j: nat)
    requires Raising(pool, cache, r) && j < |cache.chain|
    ensures cache.chain[j] in cache.Repr
  {
    PowerHeld(cache, j);
  }

  lemma Raised(pool: Pool, cache: PowerCache, r: Bigint)
    requires Raising(pool, cache, r)
    ensures pool.Valid() && cache.Valid() && pool.Repr !! cache.Repr && r.Repr() !! pool.Repr + cache.Repr
    ensures r.Valid() && r.Trimmed() && r.wds <= r.x.Length && r in pool.live
  {
  }

  /** One bit of the exponent: multiply by the cached power if it is set. */
  method Pow5Bit(pool: Pool, cache: PowerCache, b: Bigint, p5: Bigint, kk: nat, ghost j: nat) returns (r: Bigint)
    requires Raising(pool, cache, b) && j < |cache.chain| && p5 == cache.chain[j]
    modifies pool.Repr, b
    ensures Raising(pool, cache, r)
    ensures fresh(pool.Repr + r.Repr() - old(pool.Repr) - b.Repr())
    ensures Replaces(pool.live, old(pool.live), b, r)
    ensures Final(r.Value(), kk / 2, j + 1) == Final(old(b.Value()), kk, j)
  {
    hide Pool.Valid, Val, Pow5, CacheExponent, Final;
    ExponentStep(b.Value(), kk, j);
    PowerHeld(cache, j);
    r := b;
    if kk % 2 == 1 {
      r := MultInto(pool, b, p5);
    }
  }

  /** One turn of the loop: one bit, and the next power if there are bits left. */
  method Pow5Turn(pool: Pool, cache: PowerCache, b: Bigint, p5: Bigint, kk: nat, ghost j: nat)
    returns (r: Bigint, p51: Bigint, ghost made: set<Bigint>)
    requires Raising(pool, cache, b) && 0 < kk && j < |cache.chain| && p5 == cache.chain[j]
    modifies pool.Repr, b, b.x, cache, p5`next
    ensures Raising(pool, cache, r)
    ensures Final(r.Value(), kk / 2, j + 1) == Final(old(b.Value()), kk, j)
    ensures fresh(pool.Repr + cache.Repr + r.Repr() - old(pool.Repr + cache.Repr) - b.Repr())
    ensures Renews(pool.live, old(pool.live), b, r, made) && cache.Nodes() == old(cache.Nodes()) + made
    ensures old(cache.chain) <= cache.chain && old(cache.Repr) <= cache.Repr
    ensures forall i | |old(cache.chain)| <= i < |cache.chain| :: cache.chain[i] !in old(cache.Repr)
    ensures kk / 2 != 0 ==> j + 1 < |cache.chain| && p51 == cache.chain[j + 1]
  {
    hide Pool.Valid, PowerCache.Valid, Bigint.Trimmed, Val, Final, Renews, PowerCache.Nodes;
    RaisedHeld(pool, cache, b, j);
    r := Pow5Bit(pool, cache, b, p5, kk, j);
    Unmade(pool.live, old(pool.live), b, r);
    p51, made := p5, {};
    if kk / 2 != 0 {
      ghost var before := pool.live;
      p51, made := NextPower(pool, cache, p5, j);
      MakeMore(pool.live, before, old(pool.live), b, r, {}, made);
    }
  }

  lemma Kept(live: set<Bigint>, b: Bigint)
    requires b in live
    ensures Renews(live, live, b, b, {})
  {
  }

  /** The loop of pow5mult: b times the kk-th power of the first cached power. */
  method Pow5Loop(pool: Pool, cache: PowerCache, b: Bigint, first: Bigint, k: nat)
    returns (r: Bigint, ghost made: set<Bigint>)
    requires Raising(pool, cache, b) && 0 < |cache.chain| && first == cache.chain[0] && 0 < k
    modifies pool.Repr, b, b.x, cache, (set c: Bigint | c in cache.chain)`next
    ensures Raising(pool, cache, r) && r.Value() == Final(old(b.Value()), k, 0)
    ensures old(cache.chain) <= cache.chain && old(cache.Repr) <= cache.Repr
    ensures fresh(pool.Repr + cache.Repr + r.Repr() - old(pool.Repr + cache.Repr) - b.Repr())
    ensures Renews(pool.live, old(pool.live), b, r, made) && cache.Nodes() == old(cache.Nodes()) + made
  {
    hide Pool.Valid, PowerCache.Valid, Bigint.Trimmed, Bigint.Valid, Bigint.Value, Val, Final, Renews, Replaces;
    hide PowerCache.Nodes, Pow2;
    Raised(pool, cache, b);
    hide Raising;
    ghost var goal := Final(b.Value(), k, 0);
    var kk, p5 := k, first;
    ghost var j := 0;
    r, made := b, {};
    Kept(pool.live, b);
    while true
      invariant 0 < kk && Raising(pool, cache, r) && r.wds <= r.x.Length
      invariant old(cache.chain) <= cache.chain && old(cache.Repr) <= cache.Repr
      invariant forall i | |old(cache.chain)| <= i < |cache.chain| :: cache.chain[i] !in old(cache.Repr)
      invariant j < |cache.chain| && p5 == cache.chain[j]
      invariant fresh(pool.Repr + cache.Repr + r.Repr() - old(pool.Repr + cache.Repr) - b.Repr())
      invariant Renews(pool.live, old(pool.live), b, r, made) && cache.Nodes() == old(cache.Nodes()) + made
      invariant Final(r.Value(), kk, j) == goal
      decreases kk
    {
      RaisedHeld(pool, cache, r, j);
      ghost var before, was, more := pool.live, r, made;
      r, p5, more := Pow5Turn(pool, cache, r, p5, kk, j);
      RenewAgain(pool.live, before, old(pool.live), b, was, r, made, more);
      Raised(pool, cache, r);
      made := made + more;
      kk := kk / 2;
      if kk == 0 {
        break;
      }
      j := j + 1;
    }
    NothingLeft(r.Value(), j + 1);
  }

  /** The factor 5^(k mod 4). */
  method Pow5Small(pool: Pool, b: Bigint, k: nat) returns (r: Bigint)
    requires pool.Valid() && b.Valid() && b.Trimmed() && 0 < b.Value() && b.Repr() !! pool.Repr && b in pool.live
    modifies pool.Repr, b, b.x
    ensures pool.Valid() && r.Valid() && r.Repr() !! pool.Repr
    ensures r.Trimmed() && 0 < r.Value() && 1 <= r.wds
    ensures fresh(pool.Repr + r.Repr() - old(pool.Repr) - b.Repr())
    ensures Replaces(pool.live, old(pool.live), b, r)
    ensures r.Value() == old(b.Value()) * Pow5(k % 4)
  {
    hide Pool.Valid, Val;
    NonzeroHasWords(b.x[..b.wds]);
    SmallFives(k % 4);
    MulMono(1, [1, 5, 25, 125][k % 4], b.Value());
    hide Pow5;
    r := b;
    if k % 4 != 0 {
      r := Multadd(pool, r, [1, 5, 25, 125][k % 4], 0);
    }
  }

  /** The multiples of four in the exponent, by the cached powers. */
  method Pow5Fours(pool: Pool, cache: PowerCache, b: Bigint, k: nat) returns (r: Bigint, ghost made: set<Bigint>)
    requires Raising(pool, cache, b)
    modifies pool.Repr, b, b.x, cache, (set c: Bigint | c in cache.chain)`next
    ensures Raising(pool, cache, r) && r.Value() == Final(old(b.Value()), k, 0)
    ensures old(cache.chain) <= cache.chain && old(cache.Repr) <= cache.Repr
    ensures fresh(pool.Repr + cache.Repr + r.Repr() - old(pool.Repr + cache.Repr) - b.Repr())
    ensures Renews(pool.live, old(pool.live), b, r, made) && cache.Nodes() == old(cache.Nodes()) + made
  {
    hide Pool.Valid, PowerCache.Valid, Bigint.Trimmed, Val, Final;
    if k == 0 {
      NothingLeft(b.Value(), 0);
      return b, {};
    }
    var p5;
    p5, made := FirstPower(pool, cache);
    ChainHeld(cache);
    ghost var before, more := pool.live, made;
    assert Renews(before, old(pool.live), b, b, made);
    hide Renews, Replaces, PowerCache.Nodes;
    r, more := Pow5Loop(pool, cache, b, p5, k);
    RenewAgain(pool.live, before, old(pool.live), b, b, r, made, more);
    made := made + more;
  }

  /** The blocks of the cache are its own, so that b is none of them. */
  lemma NotCached(cache: PowerCache, b: Bigint)
    requires cache.Valid() && b.Repr() !! cache.Repr
    ensures b !in cache.Nodes()
  {
    ChainHeld(cache);
    assert b in b.Repr();
  }

  /** A call that gives back none of the cached powers keeps them live. */
  lemma CachedStayLive(live: set<Bigint>, before: set<Bigint>, b: Bigint, r: Bigint, made: set<Bigint>,
                       nodes: set<Bigint>, nodes0: set<Bigint>)
    requires Renews(live, before, b, r, made) && nodes == nodes0 + made && nodes0 <= before && b !in nodes0
    ensures nodes <= live
  {
  }

  /** b * 5^k. The cache may grow, by the blocks `made`; what it held stays, its words are not in the
      frame, and all its blocks are live before and after any sequence of such calls: none is on a
      free list. */
  method Pow5mult(pool: Pool, cache: PowerCache, b: Bigint, k: nat) returns (r: Bigint, ghost made: set<Bigint>)
    requires pool.Valid() && cache.Valid() && pool.Repr !! cache.Repr
    requires b.Valid() && b.Trimmed() && 0 < b.Value() && b.Repr() !! pool.Repr + cache.Repr && b in pool.live
    requires cache.Nodes() <= pool.live
    modifies pool.Repr, b, b.x, cache, (set c: Bigint | c in cache.chain)`next
    ensures pool.Valid() && cache.Valid() && pool.Repr !! cache.Repr && cache.Nodes() <= pool.live
    ensures old(cache.chain) <= cache.chain && old(cache.Repr) <= cache.Repr
    ensures r.Valid() && r.Trimmed() && r.Repr() !! pool.Repr + cache.Repr
    ensures fresh(pool.Repr + cache.Repr + r.Repr() - old(pool.Repr + cache.Repr) - b.Repr())
    ensures Renews(pool.live, old(pool.live), b, r, made) && cache.Nodes() == old(cache.Nodes()) + made
    ensures r.Value() == old(b.Value()) * Pow5(k)
  {
    hide Pool.Valid, PowerCache.Valid, Val;
    PartialPowers(b.Value(), k);
    NotCached(cache, b);
    hide Bigint.Trimmed, Pow5, Replaces, Renews, PowerCache.Nodes, Final;
    r := Pow5Small(pool, b, k);
    ghost var before, was := pool.live, r;
    Unmade(before, old(pool.live), b, r);
    assert Raising(pool, cache, r);
    hide Raising;
    r, made := Pow5Fours(pool, cache, r, k / 4);
    RenewAgain(pool.live, before, old(pool.live), b, was, r, {}, made);
    CachedStayLive(pool.live, old(pool.live), b, r, made, cache.Nodes(), old(cache.Nodes()));
    Raised(pool, cache, r);
  }
}
