/** Little-endian sequences of 32-bit words and the number they stand for: the `ULong x[]`
    of a Bigint (nolibc/dtoa.c:1515-1520, Pack_32). */
module Words {
  import opened Arith

  const BASE: nat := 0x1_0000_0000

  type word = w: int | 0 <= w < 0x1_0000_0000

  /** BASE to the power i. */
  function Weight(i: nat): (p: nat)
    ensures 0 < p
  {
    Pow2(32 * i)
  }

  lemma WeightNext(i: nat)
    ensures Weight(i + 1) == Weight(i) * BASE == BASE * Weight(i)
    ensures Weight(0) == 1
  {
    Pow2Add(32 * i, 32);
    Pow2Values();
  }

  lemma WeightAdd(i: nat, j: nat)
    ensures Weight(i + j) == Weight(i) * Weight(j)
  {
    Pow2Add(32 * i, 32 * j);
  }

  /** The number a word sequence stands for, least significant word first. */
  function Val(s: seq<word>): nat {
    if s == [] then 0 else Val(s[..|s| - 1]) + s[|s| - 1] * Weight(|s| - 1)
  }

  lemma ValPush(s: seq<word>, w: word)
    ensures Val(s + [w]) == Val(s) + w * Weight(|s|)
  {
    assert (s + [w])[..|s|] == s;
  }

  /** Taking one more word. */
  lemma ValNext(s: seq<word>, i: nat)
    requires i < |s|
    ensures Val(s[..i + 1]) == Val(s[..i]) + s[i] * Weight(i)
    ensures Weight(i + 1) == Weight(i) * BASE
  {
    assert s[..i + 1] == s[..i] + [s[i]];
    ValPush(s[..i], s[i]);
    WeightNext(i);
  }

  lemma SingleWord(s: seq<word>)
    requires |s| == 1
    ensures Val(s) == s[0]
  {
    ValNext(s, 0);
    WeightNext(0);
    assert s[..1] == s && s[..0] == [];
  }

  lemma {:induction false} ValBound(s: seq<word>)
    ensures Val(s) < Weight(|s|)
    ensures s != [] && s[|s| - 1] != 0 ==> Weight(|s| - 1) <= Val(s)
  {
    WeightNext(0);
    if s != [] {
      var i := |s| - 1;
      ValBound(s[..i]);
      WeightNext(i);
      var w: nat := s[i];
      MulMono(w + 1, BASE, Weight(i));
      Distribute(w, 1, Weight(i));
      if s[i] != 0 {
        MulMono(1, s[i], Weight(i));
      }
    }
  }

  /** A number that needs all its words has a nonzero top word. */
  lemma ValTop(s: seq<word>)
    requires s != [] && Weight(|s| - 1) <= Val(s)
    ensures s[|s| - 1] != 0
  {
    ValBound(s[..|s| - 1]);
  }

  lemma {:induction false} ValSplit(s: seq<word>, i: nat)
    requires i <= |s|
    ensures Val(s) == Val(s[..i]) + Val(s[i..]) * Weight(i)
  {
    if i == |s| {
      assert s[..i] == s;
    } else {
      var n := |s| - 1;
      ValSplit(s[..n], i);
      assert s[..n][..i] == s[..i] && s[..n][i..] == s[i..][..n - i];
      WeightAdd(n - i, i);
      Assoc(s[n], Weight(n - i), Weight(i));
      Distribute(Val(s[i..][..n - i]), s[n] * Weight(n - i), Weight(i));
    }
  }

  lemma {:induction false} ValUpdate(s: seq<word>, i: nat, w: word)
    requires i < |s|
    ensures Val(s[i := w]) == Val(s) + (w - s[i]) * Weight(i)
  {
    var n := |s| - 1;
    Distribute(w, s[i], Weight(i));
    if i == n {
      assert s[i := w][..n] == s[..n];
    } else {
      assert s[i := w][..n] == s[..n][i := w];
      ValUpdate(s[..n], i, w);
    }
  }

  lemma {:induction false} ValZeros(s: seq<word>)
    requires forall i | 0 <= i < |s| :: s[i] == 0
    ensures Val(s) == 0
  {
    if s != [] {
      ValZeros(s[..|s| - 1]);
    }
  }

  /** Dropping zero words at the top keeps the number. */
  lemma ValTrim(s: seq<word>, n: nat)
    requires n <= |s| && forall i | n <= i < |s| :: s[i] == 0
    ensures Val(s[..n]) == Val(s)
  {
    ValSplit(s, n);
    ValZeros(s[n..]);
  }

  lemma {:induction false} ValPositive(s: seq<word>, i: nat)
    requires i < |s| && s[i] != 0
    ensures 0 < Val(s)
  {
    ValSplit(s, i + 1);
    ValNext(s, i);
    MulMono(1, s[i], Weight(i));
    MulMono(0, Val(s[i + 1..]), Weight(i + 1));
  }

  /** Order is decided by the highest word that differs. */
  lemma ValOrder(s: seq<word>, t: seq<word>, i: nat)
    requires |s| == |t| && i < |s| && s[i] < t[i]
    requires s[i + 1..] == t[i + 1..]
    ensures Val(s) < Val(t)
  {
    ValSplit(s, i + 1);
    ValSplit(t, i + 1);
    ValNext(s, i);
    ValNext(t, i);
    ValBound(s[..i]);
    TopWordDecides(Val(s[..i]), Val(t[..i]), s[i], t[i], Weight(i));
  }

  lemma TopWordDecides(v: nat, u: nat, a: nat, b: nat, p: nat)
    requires v < p && a < b
    ensures v + a * p < u + b * p
  {
    MulMono(a + 1, b, p);
    Distribute(a, 1, p);
  }

  /** One word of a multiplication with carry. */
  lemma MulStep(v: int, carry: nat, p: nat, s: nat, m: nat, a: int, x: nat, lo: nat, hi: nat)
    requires v + carry * p == s * m + a
    requires x * m + carry == lo + hi * BASE
    ensures v + lo * p + hi * (p * BASE) == (s + x * p) * m + a
  {
    Distribute(s, x * p, m);
    Distribute(x * m, carry, p);
    Distribute(lo, hi * BASE, p);
    Assoc(hi, BASE, p);
    Assoc(x, m, p);
  }

  /** One word of a subtraction with borrow: the difference wraps in 64 bits, and the low bit
      of its high word is the next borrow. */
  lemma BorrowStep(x: word, l: word, borrow: nat, y: nat)
    requires borrow <= 1 && y == (x - l - borrow) % 0x1_0000_0000_0000_0000
    ensures (y / BASE) % 2 <= 1
    ensures y % BASE == x - l - borrow + (y / BASE) % 2 * BASE
  {
    var d := x - l - borrow;
    if d >= 0 {
      DivModUnique(d, 0x1_0000_0000_0000_0000, 0, d);
      DivModUnique(d, BASE, 0, d);
    } else {
      DivModUnique(d, 0x1_0000_0000_0000_0000, -1, d + 0x1_0000_0000_0000_0000);
      DivModUnique(y, BASE, BASE - 1, d + BASE);
    }
  }

  /** A nonnegative difference that fits in the words leaves nothing to borrow. */
  lemma NothingOut(v: nat, d: nat, out: nat, p: nat)
    requires v == d + out * p && v < p
    ensures out == 0 && v == d
  {
    if out != 0 {
      MulMono(1, out, p);
    }
  }

  /** One word of a multiply-and-subtract. */
  lemma SubMulStep(v: int, borrow: nat, carry: nat, p: nat, b: int, s: int, q: nat, x: nat, y: nat, lo: nat,
                   hi: nat, w: nat, borrow': nat)
    requires v == b - q * s + (borrow + carry) * p
    requires y * q + carry == lo + hi * BASE
    requires w == x - lo - borrow + borrow' * BASE
    ensures v + w * p == b + x * p - q * (s + y * p) + (borrow' + hi) * (p * BASE)
  {
    Distribute(borrow, carry, p);
    Distribute(y * q, carry, p);
    Distribute(lo, hi * BASE, p);
    Distribute(x - lo - borrow, borrow' * BASE, p);
    Distribute(x - lo, borrow, p);
    Distribute(x, lo, p);
    Distribute(borrow', hi, p * BASE);
    Assoc(hi, BASE, p);
    Assoc(borrow', BASE, p);
    Assoc(q, y, p);
  }
}
