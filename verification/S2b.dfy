/** s2b of nolibc/dtoa.c:1732-1763: the decimal digits as a Bigint, skipping the point. */
module S2b {
  import opened Arith
  import opened Words
  import opened BigintPool
  import opened BigintOps
  import opened Bigcomp

  /** The least k with n <= 2^k. */
  method BlockFor(n: nat) returns (k: nat)
    ensures n <= Pow2(k) && (0 < k ==> Pow2(k - 1) < n)
  {
    k := 0;
    var y := 1;
    while n > y
      invariant y == Pow2(k) && (0 < k ==> Pow2(k - 1) < n)
      decreases n - y
    {
      y := y * 2;
      k := k + 1;
    }
  }

  /** b = 10 * b + digit, over a run of digits stored from s[j0] on. */
  method AppendDigits(pool: Pool, b0: Bigint, s: seq<nat>, j0: nat, i0: nat, i1: nat, ghost ds: seq<nat>) returns (b: Bigint)
    requires pool.Valid() && b0.Valid() && b0.Repr() !! pool.Repr && b0 in pool.live && 1 <= b0.wds && b0.Trimmed()
    requires Stored(s, j0, ds, i0, i1)
    requires b0.Value() == DigitsVal(ds[..i0])
    modifies pool.Repr, b0, b0.x
    ensures pool.Valid() && b.Valid() && b.Repr() !! pool.Repr && 1 <= b.wds && b.Trimmed()
    ensures fresh(pool.Repr + b.Repr() - old(pool.Repr) - b0.Repr())
    ensures Replaces(pool.live, old(pool.live), b0, b)
    ensures b.Value() == DigitsVal(ds[..i1])
  {
    hide Pool.Valid, Val, DigitsVal;
    b := b0;
    var i, j := i0, j0;
    while i < i1
      invariant i0 <= i <= i1 && j == j0 + i - i0
      invariant pool.Valid() && b.Valid() && b.Repr() !! pool.Repr && 1 <= b.wds && b.Trimmed()
      invariant fresh(pool.Repr + b.Repr() - old(pool.Repr) - b0.Repr())
      invariant Replaces(pool.live, old(pool.live), b0, b)
      invariant b.Value() == DigitsVal(ds[..i])
    {
      assert IsDigitChar(s[j]) && s[j] - '0' as int == ds[i];
      DigitsNext(ds, i);
      b := Multadd(pool, b, 10, s[j] - '0' as int);
      i, j := i + 1, j + 1;
    }
  }

  /** The block for nd digits, holding the first nine. */
  method FirstNine(pool: Pool, nd: nat, y9: word) returns (b: Bigint)
    requires pool.Valid()
    modifies pool.Repr
    ensures pool.Valid() && b.Valid() && b.Repr() !! pool.Repr && b.wds == 1
    ensures fresh(pool.Repr + b.Repr() - old(pool.Repr)) && b.Value() == y9
    ensures 0 < b.k ==> 9 * Pow2(b.k - 1) < nd
    ensures pool.live == old(pool.live) + {b} && b !in old(pool.live)
  {
    hide Pool.Valid;
    var k := BlockFor((nd + 8) / 9);
    b := pool.Balloc(k);
    b.x[0] := y9;
    b.wds := 1;
    SingleWord(b.x[..1]);
  }

  /** The number the nd digits write; y9 is what the first nine write. */
  method DigitsToBigint(pool: Pool, s: seq<nat>, nd0: nat, nd: nat, y9: word, dplen: nat) returns (b: Bigint)
    requires pool.Valid() && nd0 <= nd && IsInput(s, nd0, nd, nd0 + dplen)
    requires y9 == DigitsVal(InputDigits(s, nd0, nd, nd0 + dplen)[..if nd < 9 then nd else 9])
    modifies pool.Repr
    ensures pool.Valid() && b.Valid() && b.Repr() !! pool.Repr && 1 <= b.wds && b.Trimmed()
    ensures fresh(pool.Repr + b.Repr() - old(pool.Repr))
    ensures pool.live == old(pool.live) + {b} && b !in old(pool.live)
    ensures b.Value() == DigitsVal(InputDigits(s, nd0, nd, nd0 + dplen))
  {
    hide Pool.Valid, Val;
    ghost var ds := InputDigits(s, nd0, nd, nd0 + dplen);
    InputRuns(s, nd0, nd, dplen);
    hide DigitsVal, Stored, InputDigits, IsInput;
    b := FirstNine(pool, nd, y9);
    if 9 < nd {
      b := AppendRest(pool, b, s, nd0, nd, dplen, ds);
    }
    assert ds[..nd] == ds;
  }

  lemma InputRuns(s: seq<nat>, nd0: nat, nd: nat, dplen: nat)
    requires nd0 <= nd && IsInput(s, nd0, nd, nd0 + dplen)
    ensures var ds := InputDigits(s, nd0, nd, nd0 + dplen);
      && (9 < nd0 ==> Stored(s, 9, ds, 9, nd0) && Stored(s, nd0 + dplen, ds, nd0, nd))
      && (nd0 <= 9 < nd ==> Stored(s, 9 + dplen, ds, 9, nd))
  {
    var ds := InputDigits(s, nd0, nd, nd0 + dplen);
    forall j | nd0 + dplen <= j < nd + dplen ensures IsDigitChar(s[j]) && s[j] - '0' as int == ds[j - dplen] {
    }
    assert forall j | 0 <= j < nd0 :: IsDigitChar(s[j]) && s[j] - '0' as int == ds[j];
  }

  /** The digits from the tenth on. */
  method AppendRest(pool: Pool, b0: Bigint, s: seq<nat>, nd0: nat, nd: nat, dplen: nat, ghost ds: seq<nat>)
    returns (b: Bigint)
    requires pool.Valid() && b0.Valid() && b0.Repr() !! pool.Repr && b0 in pool.live && 1 <= b0.wds && b0.Trimmed()
    requires nd0 <= nd == |ds| && 9 < nd && b0.Value() == DigitsVal(ds[..9])
    requires 9 < nd0 ==> Stored(s, 9, ds, 9, nd0) && Stored(s, nd0 + dplen, ds, nd0, nd)
    requires nd0 <= 9 ==> Stored(s, 9 + dplen, ds, 9, nd)
    modifies pool.Repr, b0, b0.x
    ensures pool.Valid() && b.Valid() && b.Repr() !! pool.Repr && 1 <= b.wds && b.Trimmed()
    ensures fresh(pool.Repr + b.Repr() - old(pool.Repr) - b0.Repr())
    ensures Replaces(pool.live, old(pool.live), b0, b)
    ensures b.Value() == DigitsVal(ds[..nd])
  {
    hide Pool.Valid, Val, DigitsVal, Stored;
    if 9 < nd0 {
      b := AppendDigits(pool, b0, s, 9, 9, nd0, ds);
      b := AppendDigits(pool, b, s, nd0 + dplen, nd0, nd, ds);
    } else {
      b := AppendDigits(pool, b0, s, 9 + dplen, 9, nd, ds);
    }
  }
}
