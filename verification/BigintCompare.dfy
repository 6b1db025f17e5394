/** cmp and diff of nolibc/dtoa.c: order and absolute difference of Bigints. */
module BigintCompare {
  import opened Arith
  import opened Words
  import opened BigintPool
  import opened BigintOps

  /** More words mean a larger number, once leading zero words are dropped. */
  lemma LongerIsLarger(s: seq<word>, t: seq<word>)
    requires |t| < |s| && s[|s| - 1] != 0
    ensures Val(t) < Val(s)
  {
    ValBound(s);
    ValBound(t);
    Pow2Mono(32 * |t|, 32 * (|s| - 1));
  }

  /** Negative, zero or positive as a < b, a = b or a > b. The words below a.wds are read from
      the top, so the shared length must not be zero. */
  method Cmp(a: Bigint, b: Bigint) returns (r: int)
    requires a.Valid() && b.Valid() && a.Trimmed() && b.Trimmed()
    requires 1 <= b.wds && (a.wds == 0 ==> 0 < b.Value())
    ensures r < 0 <==> a.Value() < b.Value()
    ensures r == 0 <==> a.Value() == b.Value()
  {
    var i, j := a.wds, b.wds;
    hide Weight;
    if i != j {
      if i > j {
        LongerIsLarger(a.x[..i], b.x[..j]);
      } else if j > 1 {
        LongerIsLarger(b.x[..j], a.x[..i]);
      } else {
        assert Val(a.x[..0]) == 0;
      }
      return i - j;
    }
    hide Val;
    while true
      invariant 1 <= i <= j && a.x[i..j] == b.x[i..j]
      decreases i
    {
      i := i - 1;
      if a.x[i] != b.x[i] {
        assert a.x[i + 1..j] == a.x[..j][i + 1..] && b.x[i + 1..j] == b.x[..j][i + 1..];
        if a.x[i] < b.x[i] {
          ValOrder(a.x[..j], b.x[..j], i);
          return -1;
        }
        ValOrder(b.x[..j], a.x[..j], i);
        return 1;
      }
      if i == 0 {
        break;
      }
    }
    assert a.x[..j] == b.x[..j];
    return 0;
  }

  /** Drops zero words from the top, down to `least`. */
  method DropZeros(x: array<word>, n: nat, least: nat) returns (m: nat)
    requires least <= n <= x.Length
    ensures least <= m <= n && Val(x[..m]) == Val(x[..n])
    ensures least < m ==> x[m - 1] != 0
    ensures forall i | m <= i < n :: x[i] == 0
  {
    m := n;
    hide Weight;
    while least < m && x[m - 1] == 0
      invariant least <= m <= n && Val(x[..m]) == Val(x[..n])
      invariant forall i | m <= i < n :: x[i] == 0
    {
      ValNext(x[..], m - 1);
      assert x[..][..m - 1] == x[..m - 1] && x[..][..m] == x[..m];
      m := m - 1;
    }
  }

  /** A turn of diff's loops: no multiplication, so no carry. */
  lemma DifferenceWord(b: seq<word>, s: seq<word>, x: seq<word>, i: nat, borrow: nat)
    requires Subtracted(b, s, 1, x, i, borrow, 0) && i < |b| && i < |s| && i < |x|
    ensures var y := (b[i] - s[i] - borrow) % 0x1_0000_0000_0000_0000;
            Subtracted(b, s, 1, x[i := y % BASE], i + 1, (y / BASE) % 2, 0)
  {
    hide Subtracted;
    SubtractWord(b, s, 1, x, i, borrow, 0);
    DivModUnique(s[i], BASE, 0, s[i]);
  }

  /** diff's second loop: the borrow runs on over what is left of xa. */
  method BorrowAlong(x: array<word>, xa: array<word>, wb: nat, wa: nat, borrow0: nat, ghost s: seq<word>)
    requires x != xa && wb <= wa <= x.Length && wa <= xa.Length
    requires |s| == wa && (forall i | wb <= i < wa :: s[i] == 0) && Val(s) <= Val(xa[..wa])
    requires Subtracted(xa[..], s, 1, x[..], wb, borrow0, 0)
    modifies x
    ensures Val(x[..wa]) == Val(xa[..wa]) - Val(s)
  {
    ghost var b := xa[..];
    var i: nat, borrow: nat := wb, borrow0;
    hide Val, Weight, Subtracted;
    while i < wa
      invariant wb <= i <= wa && xa[..] == b
      invariant Subtracted(b, s, 1, x[..], i, borrow, 0)
    {
      DifferenceWord(b, s, x[..], i, borrow);
      var y: nat := (xa[i] - borrow) % 0x1_0000_0000_0000_0000;
      borrow := (y / BASE) % 2;
      ghost var before := x[..];
      x[i] := y % BASE;
      assert x[..] == before[i := x[i]];
      i := i + 1;
    }
    assert b[..wa] == xa[..wa] && s[..wa] == s && x[..][..wa] == x[..wa];
    SubtractEnd(b, s, 1, x[..], wa, borrow, 0);
  }

  /** The same number in n words. */
  ghost function Widened(s: seq<word>, n: nat): (t: seq<word>)
    requires |s| <= n
    ensures |t| == n && t[..|s|] == s && (forall i | |s| <= i < n :: t[i] == 0) && Val(t) == Val(s)
  {
    var t := s + seq(n - |s|, _ => 0);
    assert t[..|s|] == s;
    ValTrim(t, |s|);
    t
  }

  lemma SubtractStart(b: seq<word>, s: seq<word>, x: seq<word>)
    ensures Subtracted(b, s, 1, x, 0, 0, 0)
  {
  }

  /** xa[..wa] - xb[..wb] into x: first over both, then over what is left of xa. */
  method SubtractWords(x: array<word>, xa: array<word>, wa: nat, xb: array<word>, wb: nat)
    requires x != xa && x != xb && wb <= wa <= x.Length && wa <= xa.Length && wb <= xb.Length
    requires Val(xb[..wb]) <= Val(xa[..wa])
    modifies x
    ensures Val(x[..wa]) == Val(xa[..wa]) - Val(xb[..wb])
  {
    ghost var s, b := Widened(xb[..wb], wa), xa[..];
    var i: nat, borrow: nat := 0, 0;
    SubtractStart(b, s, x[..]);
    hide Val, Weight, Subtracted, Widened;
    while i < wb
      invariant i <= wb && xa[..] == b
      invariant Subtracted(b, s, 1, x[..], i, borrow, 0)
    {
      assert xb[i] == s[i];
      DifferenceWord(b, s, x[..], i, borrow);
      var y: nat := (xa[i] - xb[i] - borrow) % 0x1_0000_0000_0000_0000;
      borrow := (y / BASE) % 2;
      ghost var before := x[..];
      x[i] := y % BASE;
      assert x[..] == before[i := x[i]];
      i := i + 1;
    }
    BorrowAlong(x, xa, wb, wa, borrow, s);
  }

  /** a - b for a > b. */
  method Subtract(pool: Pool, a: Bigint, b: Bigint) returns (c: Bigint)
    requires pool.Valid() && a.Valid() && b.Valid() && b.Trimmed()
    requires a.Repr() !! pool.Repr && b.Repr() !! pool.Repr && 1 <= a.wds
    requires b.Value() < a.Value()
    modifies pool.Repr
    ensures pool.Valid() && c.Valid() && c.Repr() !! pool.Repr + a.Repr() + b.Repr()
    ensures fresh(pool.Repr + c.Repr() - old(pool.Repr))
    ensures pool.live == old(pool.live) + {c} && c !in old(pool.live)
    ensures c.Value() == a.Value() - b.Value()
    ensures 1 <= c.wds && c.Trimmed()
  {
    hide Pool.Valid, Val;
    WordsOrdered(a.x[..a.wds], b.x[..b.wds]);
    c := pool.Balloc(a.k);
    SubtractWords(c.x, a.x, a.wds, b.x, b.wds);
    c.wds := DropZeros(c.x, a.wds, 1);
  }

  lemma WordsOrdered(s: seq<word>, t: seq<word>)
    requires Val(t) < Val(s) && (1 < |t| ==> t[|t| - 1] != 0) && 1 <= |s|
    ensures |t| <= |s|
  {
    if |s| < |t| {
      LongerIsLarger(t, s);
    }
  }

  /** |a - b|, the sign telling whether a < b. */
  method Diff(pool: Pool, a: Bigint, b: Bigint) returns (c: Bigint)
    requires pool.Valid() && a.Valid() && b.Valid() && a.Trimmed() && b.Trimmed()
    requires a.Repr() !! pool.Repr && b.Repr() !! pool.Repr
    requires 1 <= a.wds && 1 <= b.wds
    modifies pool.Repr
    ensures pool.Valid() && c.Valid() && c.Repr() !! pool.Repr + a.Repr() + b.Repr()
    ensures fresh(pool.Repr + c.Repr() - old(pool.Repr))
    ensures pool.live == old(pool.live) + {c} && c !in old(pool.live)
    ensures c.Value() == if a.Value() < b.Value() then b.Value() - a.Value() else a.Value() - b.Value()
    ensures c.sign == if a.Value() < b.Value() then 1 else 0
    ensures 1 <= c.wds && c.Trimmed() && (c.Value() == 0 ==> c.k == 0)
  {
    hide Pool.Valid, Val;
    var i := Cmp(a, b);
    if i == 0 {
      c := pool.Balloc(0);
      c.wds := 1;
      c.x[0] := 0;
      ValZeros(c.x[..1]);
    } else if i < 0 {
      c := Subtract(pool, b, a);
      c.sign := 1;
    } else {
      c := Subtract(pool, a, b);
      c.sign := 0;
    }
  }
}
