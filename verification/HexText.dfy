/** Printing a number in hexadecimal (nolibc/vfprintf.c:181-185) and reading it back with gethex
    (nolibc/dtoa.c:2918-3074). */
module HexText {
  import opened Arith
  import opened CString
  import opened BigintPool
  import opened Double
  import opened GetHex
  import Printf

  /** gethex reads back what %x or %X printed: the double nearest the number, and the number itself
      below 2^53. */
  method PrintAndRead(pool: Pool, x: nat, lower: bool) returns (bits: nat)
    requires pool.Valid() && 0 < x < 0x1_0000_0000_0000_0000
    modifies pool.Repr
    ensures pool.Valid() && fresh(pool.Repr - old(pool.Repr)) && pool.live == old(pool.live)
    ensures IsNearestEven(bits, x * Pow2(1074), 1)
    ensures x < Pow2(53) ==> Mag(bits) == x * Pow2(1074)
  {
    hide *;
    var area := new byte[40];
    Printf.AtMost22(x, 16, lower);
    var a := Printf.Format(x, 16, lower, area, 40);
    NumeralIsHex(x, lower);
    bits := Gethex(pool, area[a..40], 0, 40 - a, 0);
    Whole(x);
    if x < Pow2(53) {
      Exact(x, bits);
    }
  }

  lemma Whole(x: nat)
    requires 0 < x
    ensures Numerator(x, 0) == x * Pow2(1074) && Denominator(0) == 1 && !CarriesToNormal(x * Pow2(1074), 1)
  {
    hide Pow2;
    Pow2Mono(53, 1074);
    Pow2Values();
    MulMono(1, x, Pow2(1074));
  }

  /** A number below 2^53 has a place among the doubles. */
  lemma Exact(x: nat, bits: nat)
    requires 0 < x < Pow2(53) && IsNearestEven(bits, x * Pow2(1074), 1)
    ensures Mag(bits) == x * Pow2(1074)
  {
    hide *;
    Pow2Zero();
    var k := Normalised(x, 0);
    PlaceOf(x, k);
    var r := Pattern(x * Pow2(k), 1074 - k);
    NearestToItself(r, x * Pow2(1074));
    NearestUnique(bits, r, x * Pow2(1074), 1);
  }

  lemma {:induction false} Normalised(x: nat, j: nat) returns (k: nat)
    requires 0 < x && 0 <= x * Pow2(j) < Pow2(53) && j <= 52
    ensures j <= k <= 52 && Pow2(52) <= x * Pow2(k) < Pow2(53)
    decreases 52 - j
  {
    hide *;
    Pow2Next(j);
    Pow2Next(52);
    MulMono(1, x, Pow2(j));
    if Pow2(52) <= x * Pow2(j) {
      k := j;
    } else {
      k := Normalised(x, j + 1);
    }
  }

  lemma PlaceOf(x: nat, k: nat)
    requires k <= 52 && Pow2(52) <= x * Pow2(k) < Pow2(53)
    ensures Pattern(x * Pow2(k), 1074 - k) < INFINITY && Mag(Pattern(x * Pow2(k), 1074 - k)) == x * Pow2(1074)
  {
    hide Pow2, Mag;
    Pow2Values();
    PatternMag(x * Pow2(k), 1074 - k);
    Pow2Add(k, 1074 - k);
    Assoc(x, Pow2(k), Pow2(1074 - k));
  }
}
