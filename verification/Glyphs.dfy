/** The characters that numerals are written with, as literal text: what the printers and the readers
    of numbers are measured against. */
module Glyphs {
  import opened Arith
  import opened CString

  const LOWER: string := "0123456789abcdefghijklmnopqrstuvwxyz"
  const UPPER: string := "0123456789ABCDEFGHIJKLMNOPQRSTUVWXYZ"

  /** Space, tab, line feed, vertical tab, form feed, carriage return. */
  const WHITE: string := " \t\n\U{00000B}\U{00000C}\r"

  /** c is white space in the C locale. */
  predicate IsWhite(c: byte) {
    exists i | 0 <= i < |WHITE| :: WHITE[i] as int == c
  }

  /** c is the digit d, in either case. */
  predicate Writes(c: nat, d: nat) {
    d < 36 && (c == LOWER[d] as int || c == UPPER[d] as int)
  }

  /** t is written with the digits ds of base b. */
  predicate Spells(t: seq<nat>, ds: seq<nat>, b: nat) {
    |t| == |ds| && forall i | 0 <= i < |t| :: ds[i] < b && Writes(t[i], ds[i])
  }

  /** The number with the digits ds in base b, the most significant first. */
  function Horner(ds: seq<nat>, b: nat): nat {
    if ds == [] then 0 else Horner(ds[..|ds| - 1], b) * b + ds[|ds| - 1]
  }

  /** The codes of the digits: ASCII. */
  lemma Codes(d: nat)
    requires d < 36
    ensures LOWER[d] as int == if d < 10 then 48 + d else 87 + d
    ensures UPPER[d] as int == if d < 10 then 48 + d else 55 + d
  {
  }

  /** The digit d. */
  function Glyph(d: nat, lower: bool): (c: byte)
    requires d < 36
  {
    (if lower then LOWER else UPPER)[d] as int
  }

  lemma GlyphWrites(d: nat, lower: bool)
    requires d < 36
    ensures Writes(Glyph(d, lower), d) && (Glyph(d, lower) == '0' as int <==> d == 0)
  {
    Codes(d);
  }

  /** The digits of x in base b without a leading zero, none for 0. */
  function Numeral(x: nat, b: nat, lower: bool): seq<byte>
    requires 2 <= b <= 36
  {
    if x == 0 then [] else Numeral(x / b, b, lower) + [Glyph(x % b, lower)]
  }

  lemma NumeralNone(b: nat, lower: bool)
    requires 2 <= b <= 36
    ensures Numeral(0, b, lower) == []
  {
  }

  lemma LastDigit(x: nat, b: nat)
    requires 0 < x && 2 <= b
    ensures 0 <= x / b < x && 0 <= x % b < b && x == x / b * b + x % b
  {
    hide *;
    DivModDef(x, b);
    MulMono(2, b, x);
    SmallQuotient(x, b, x);
  }

  lemma NumeralUnfolds(x: nat, b: nat, lower: bool)
    requires 0 < x && 2 <= b <= 36 && 0 <= x / b && 0 <= x % b < 36
    ensures Numeral(x, b, lower) == Numeral(x / b, b, lower) + [Glyph(x % b, lower)]
  {
    hide Glyph;
  }

  lemma NumeralStep(x: nat, b: nat, lower: bool)
    requires 0 < x && 2 <= b <= 36
    ensures 0 <= x / b < x && 0 <= x % b < b && x == x / b * b + x % b
    ensures Numeral(x, b, lower) == Numeral(x / b, b, lower) + [Glyph(x % b, lower)]
  {
    hide *;
    LastDigit(x, b);
    NumeralUnfolds(x, b, lower);
  }

  lemma HornerPush(ds: seq<nat>, d: nat, b: nat)
    ensures Horner(ds + [d], b) == Horner(ds, b) * b + d
  {
    assert (ds + [d])[..|ds|] == ds;
  }

  lemma SpellsPush(t: seq<nat>, c: nat, ds: seq<nat>, d: nat, b: nat)
    requires Spells(t, ds, b) && d < b && Writes(c, d)
    ensures Spells(t + [c], ds + [d], b)
  {
    hide Writes;
  }

  /** A numeral spells its number, from a digit other than zero. */
  lemma {:induction false} NumeralSpells(x: nat, b: nat, lower: bool) returns (ds: seq<nat>)
    requires 2 <= b <= 36
    ensures Spells(Numeral(x, b, lower), ds, b) && Horner(ds, b) == x
    ensures x > 0 ==> ds != [] && ds[0] != 0 && Numeral(x, b, lower)[0] != '0' as int
  {
    if x == 0 {
      ds := [];
    } else {
      hide *;
      NumeralStep(x, b, lower);
      ds := NumeralSpells(x / b, b, lower);
      GlyphWrites(x % b, lower);
      SpellsPush(Numeral(x / b, b, lower), Glyph(x % b, lower), ds, x % b, b);
      HornerPush(ds, x % b, b);
      NumeralEmpty(x / b, b, lower, ds);
      ds := ds + [x % b];
    }
  }

  lemma NumeralEmpty(x: nat, b: nat, lower: bool, ds: seq<nat>)
    requires 2 <= b <= 36 && Spells(Numeral(x, b, lower), ds, b) && Horner(ds, b) == x
    ensures x == 0 ==> ds == [] && Numeral(x, b, lower) == []
    ensures |Numeral(x, b, lower)| == |ds|
  {
  }

  // ---------- decimal digits in groups ----------

  /** k decimal digits of x, zeros in front. */
  function Padded(x: nat, k: nat): (s: seq<byte>)
    ensures |s| == k
  {
    if k == 0 then [] else Padded(x / 10, k - 1) + [Glyph(x % 10, false)]
  }

  lemma TenMore(w: nat, v: nat, x: nat, k: nat)
    requires 0 < k && x < Pow10(k) && w == v * Pow10(k) + x
    ensures 0 <= x / 10 < Pow10(k - 1) && 0 <= w / 10 == v * Pow10(k - 1) + x / 10 && w % 10 == x % 10
    ensures 0 < v ==> 0 < w / 10
  {
    var q := Pow10(k - 1);
    assert Pow10(k) == 10 * q;
    hide *;
    DivModDef(x, 10);
    assert v * (10 * q) == 10 * (v * q);
    DivModUnique(w, 10, v * q + x / 10, x % 10);
    if 0 < v {
      MulMono(1, v, q);
    }
  }

  lemma PaddedStep(x: nat, k: nat)
    requires 0 < k
    ensures Padded(x, k) == Padded(x / 10, k - 1) + [Glyph(x % 10, false)]
  {
  }

  lemma PaddedNone(x: nat)
    ensures Padded(x, 0) == [] && Pow10(0) == 1
  {
  }

  /** A number of j + k digits is one of j and one of k. */
  lemma {:induction false} PaddedJoin(w: nat, v: nat, x: nat, j: nat, k: nat)
    requires x < Pow10(k) && w == v * Pow10(k) + x
    ensures Padded(w, j + k) == Padded(v, j) + Padded(x, k)
  {
    hide *;
    PaddedNone(x);
    if k != 0 {
      TenMore(w, v, x, k);
      PaddedJoin(w / 10, v, x / 10, j, k - 1);
      PaddedStep(w, j + k);
      PaddedStep(x, k);
      Append(Padded(v, j), Padded(x / 10, k - 1), Glyph(x % 10, false));
    }
  }

  lemma Append(a: seq<byte>, b: seq<byte>, c: byte)
    ensures a + b + [c] == a + (b + [c])
  {
  }

  /** The same without the zeros in front. */
  lemma {:induction false} NumeralJoin(w: nat, v: nat, x: nat, k: nat)
    requires 0 < v && x < Pow10(k) && w == v * Pow10(k) + x
    ensures Numeral(w, 10, false) == Numeral(v, 10, false) + Padded(x, k)
  {
    hide *;
    PaddedNone(x);
    if k != 0 {
      TenMore(w, v, x, k);
      NumeralJoin(w / 10, v, x / 10, k - 1);
      NumeralStep(w, 10, false);
      PaddedStep(x, k);
      Append(Numeral(v, 10, false), Padded(x / 10, k - 1), Glyph(x % 10, false));
    }
  }

  /** What k digits hold. */
  lemma {:induction false} PaddedIs(x: nat, k: nat)
    requires x < Pow10(k)
    ensures |Numeral(x, 10, false)| <= k
    ensures Padded(x, k) == seq(k - |Numeral(x, 10, false)|, _ => '0' as int) + Numeral(x, 10, false)
  {
    hide Numeral, Pow10, Padded, Glyph;
    PaddedNone(x);
    NumeralNone(10, false);
    if k != 0 {
      TenMore(x, 0, x, k);
      PaddedIs(x / 10, k - 1);
      PaddedStep(x, k);
      if x == 0 {
        ZeroGlyph();
      } else {
        NumeralStep(x, 10, false);
      }
    }
  }

  lemma ZeroGlyph()
    ensures Glyph(0, false) == '0' as int
  {
  }

  /** How many digits a number has. */
  lemma {:induction false} NumeralDigits(x: nat, k: nat)
    requires x < Pow10(k + 1) && (0 < k ==> Pow10(k) <= x) && 0 < x
    ensures |Numeral(x, 10, false)| == k + 1
  {
    hide Numeral, Glyph;
    NumeralStep(x, 10, false);
    if k == 0 {
      assert Pow10(0) == 1;
      NumeralNone(10, false);
    } else {
      assert Pow10(k + 1) == 10 * Pow10(k) && Pow10(k) == 10 * Pow10(k - 1);
      hide *;
      NumeralDigits(x / 10, k - 1);
    }
  }
}
