/** The text of %f (nolibc/vfprintf.c:291-297, 331-417): rounding, width, sign, digits and padding. */
module FmtText {
  import opened Arith
  import opened CString
  import opened Glyphs
  import opened FmtFp
  import Printf
  import opened Double

  // ---------- what the standard asks for ----------

  /** The digits of a whole number, 0 for zero. */
  function WholeText(x: nat): seq<byte> {
    if x == 0 then ['0' as int] else Numeral(x, 10, false)
  }

  /** rr / 10^p with p digits after the point, and a point only in front of digits unless # asks for it. */
  function FixedText(rr: nat, p: nat, alt: bool): seq<byte> {
    WholeText(Quotient(rr, Pow10(p))) + (if p > 0 || alt then ['.' as int] else []) + Padded(Rest(rr, Pow10(p)), p)
  }

  function Quotient(x: nat, m: nat): nat
    requires 0 < m
  {
    x / m
  }

  function Rest(x: nat, m: nat): nat
    requires 0 < m
  {
    x % m
  }

  function Front(neg: bool, fl: Printf.Flags): seq<byte> {
    if neg then ['-' as int] else if fl.plus then ['+' as int] else if fl.space then [' ' as int] else []
  }

  /** The field of %f in section 7.21.6.1 of ISO/IEC 9899:2011. */
  function FixedField(neg: bool, rr: nat, fl: Printf.Flags, w: nat, p: nat): seq<byte> {
    Printf.IsoField(Front(neg, fl), 0, FixedText(rr, p, fl.alt), w, fl.left, fl.zero)
  }

  // ---------- one limb ----------

  /** fmt_u into the nine bytes in front of buf + 9, zeros in front if full, or a 0 for nothing. */
  method LimbText(buf: array<byte>, x: nat, full: bool) returns (s: nat)
    requires buf.Length == 22 && x < BILLION
    modifies buf
    ensures s <= 9 && buf[s..9] == if full then Padded(x, 9) else WholeText(x)
  {
    hide *;
    NineDigits(x);
    s := Printf.Format(x, 10, false, buf, 9);
    ghost var t := buf[s..9];
    if full {
      while s > 0
        invariant 0 <= s <= 9 - |t| && buf[s..9] == Printf.Repeat(48, 9 - |t| - s) + t
      {
        s := s - 1;
        buf[s] := 48;
        OneMoreZero(8 - |t| - s, t);
        assert buf[s..9] == [48] + (Printf.Repeat(48, 8 - |t| - s) + t);
      }
    } else if s == 9 {
      s := s - 1;
      buf[s] := 48;
    }
  }

  lemma OneMoreZero(n: nat, t: seq<byte>)
    ensures [48] + (Printf.Repeat(48, n) + t) == Printf.Repeat(48, n + 1) + t
  {
  }

  lemma NineDigits(x: nat)
    requires x < BILLION
    ensures |Numeral(x, 10, false)| <= 9
    ensures Padded(x, 9) == Printf.Repeat(48, 9 - |Numeral(x, 10, false)|) + Numeral(x, 10, false)
    ensures WholeText(x) == if |Numeral(x, 10, false)| == 0 then [48] else Numeral(x, 10, false)
  {
    Pow10Values();
    hide Pow10;
    PaddedIs(x, 9);
  }

  // ---------- the whole part ----------

  /** Limbs as they are written: the first without zeros in front, the others with nine digits. */
  function LimbsText(s: seq<nat>): seq<byte> {
    if s == [] then [] else WholeText(Val(s))
  }

  lemma WholeStep(s: seq<nat>, x: nat)
    requires AreLimbs(s) && x < BILLION && (s != [] ==> s[0] != 0)
    ensures LimbsText(s + [x]) == LimbsText(s) + if s == [] then WholeText(x) else Padded(x, 9)
  {
    hide Val, Pow10, Padded, Numeral, AreLimbs;
    ValPush(s, x);
    if s == [] {
      ValOne(x);
      assert s + [x] == [x];
    } else {
      FirstCounts(s);
      Pow10Values();
      NumeralJoin(Val(s + [x]), Val(s), x, 9);
    }
  }

  /** for (d=a; d<=r; d++): the limbs from lo to r as one number. */
  method WriteWhole(f: Printf.Sink, big: array<nat>, lo: nat, r: nat, buf: array<byte>)
    requires f.Valid() && buf != f.buf && buf.Length == 22
    requires lo <= r < big.Length && AreLimbs(big[..][lo..r + 1]) && (lo < r ==> big[lo] != 0)
    modifies f, f.buf, buf
    ensures f.Valid() && f.buf[f.wend..] == old(f.buf[f.wend..])
    ensures f.text == old(f.text) + WholeText(Val(big[..][lo..r + 1]))
  {
    hide WholeText, LimbsText, Padded, Val, AreLimbs;
    ghost var t0, s := f.text, big[..];
    NoLimbs(s, lo);
    var d := lo;
    while d <= r
      invariant lo <= d <= r + 1 && f.Valid() && f.buf[f.wend..] == old(f.buf[f.wend..])
      invariant f.text == t0 + LimbsText(s[lo..d])
    {
      WholeTurn(s, lo, d, r);
      var at := LimbText(buf, big[d], d != lo);
      var k := f.Write(buf[at..9]);
      d := d + 1;
    }
    SomeLimbs(s, lo, r + 1);
  }

  lemma NoLimbs(s: seq<nat>, lo: nat)
    requires lo <= |s|
    ensures LimbsText(s[lo..lo]) == []
  {
  }

  lemma SomeLimbs(s: seq<nat>, lo: nat, hi: nat)
    requires lo < hi <= |s|
    ensures LimbsText(s[lo..hi]) == WholeText(Val(s[lo..hi]))
  {
  }

  lemma WholeTurn(s: seq<nat>, lo: nat, d: nat, r: nat)
    requires lo <= d <= r < |s| && AreLimbs(s[lo..r + 1]) && (lo < r ==> s[lo] != 0)
    ensures s[d] < BILLION
    ensures LimbsText(s[lo..d + 1]) == LimbsText(s[lo..d]) + if d != lo then Padded(s[d], 9) else WholeText(s[d])
  {
    hide Val, LimbsText, Padded, WholeText;
    assert s[lo..r + 1][d - lo] == s[d];
    assert s[lo..d + 1] == s[lo..d] + [s[d]];
    forall i | 0 <= i < d - lo ensures s[lo..d][i] < BILLION {
      assert s[lo..r + 1][i] == s[lo..d][i];
    }
    WholeStep(s[lo..d], s[d]);
  }

  // ---------- the fraction ----------

  /** The first p digits of limbs of fraction, zeros where there are no more. */
  function FractionText(s: seq<nat>, p: nat): (t: seq<byte>)
    ensures |t| == p
  {
    (Padded(Val(s), 9 * |s|) + Printf.Repeat(48, p))[..p]
  }

  /** The digits of the first limbs come first. */
  lemma PaddedLimbs(s: seq<nat>, t: seq<nat>)
    requires AreLimbs(t)
    ensures Padded(Val(s + t), 9 * |s + t|) == Padded(Val(s), 9 * |s|) + Padded(Val(t), 9 * |t|)
  {
    hide *;
    ValConcat(s, t);
    ValBound(t);
    P9IsPow10(|t|);
    PaddedJoin(Val(s + t), Val(s), Val(t), 9 * |s|, 9 * |t|);
  }

  lemma PaddedLimb(s: seq<nat>, x: nat)
    requires x < BILLION
    ensures Padded(Val(s + [x]), 9 * (|s| + 1)) == Padded(Val(s), 9 * |s|) + Padded(x, 9)
  {
    hide Val, Padded;
    ValOne(x);
    PaddedLimbs(s, [x]);
  }

  /** for (; d<z && p>0; d++, p-=9), and the zeros still missing. */
  method WriteFraction(f: Printf.Sink, big: array<nat>, d0: nat, z0: nat, p0: nat, buf: array<byte>)
    requires f.Valid() && buf != f.buf && buf.Length == 22
    requires d0 <= Max(z0, d0) <= big.Length && AreLimbs(big[..][d0..Max(z0, d0)])
    modifies f, f.buf, buf
    ensures f.Valid() && f.buf[f.wend..] == old(f.buf[f.wend..])
    ensures f.text == old(f.text) + FractionText(big[..][d0..Max(z0, d0)], p0)
  {
    hide FractionText, Taken, Padded, Val, AreLimbs;
    ghost var t0, s := f.text, big[..];
    ghost var z := Max(z0, d0);
    var d: nat, p := d0, p0 as int;
    FractionStart(s, d0, p0);
    while d < z0 && p > 0
      invariant d0 <= d <= z && p == p0 - 9 * (d - d0) && p >= -8 && f.Valid()
      invariant f.buf[f.wend..] == old(f.buf[f.wend..])
      invariant f.text == t0 + Taken(s[d0..d], p0)
    {
      FractionTurn(s, d0, d, z, p0);
      var at := LimbText(buf, big[d], true);
      PaddedLength(big[d]);
      var k := f.Write(buf[at..at + (if p < 9 then p else 9)]);
      d, p := d + 1, p - 9;
    }
    ghost var t := f.text;
    f.Pad(48, p + 9, 9, false);
    FractionEnd(s, d0, d, z, p0);
  }

  lemma PaddedLength(x: nat)
    ensures |Padded(x, 9)| == 9
  {
  }

  /** What has been written after the limbs s. */
  ghost function Taken(s: seq<nat>, p: nat): seq<byte> {
    Padded(Val(s), 9 * |s|)[..if p < 9 * |s| then p else 9 * |s|]
  }

  lemma FractionStart(s: seq<nat>, d0: nat, p: nat)
    requires d0 <= |s|
    ensures Taken(s[d0..d0], p) == []
  {
  }

  lemma FractionTurn(s: seq<nat>, d0: nat, d: nat, z: nat, p: nat)
    requires d0 <= d < z <= |s| && AreLimbs(s[d0..z]) && p > 9 * (d - d0)
    ensures s[d] < BILLION
    ensures var q := p - 9 * (d - d0);
      Taken(s[d0..d + 1], p) == Taken(s[d0..d], p) + Padded(s[d], 9)[..if q < 9 then q else 9]
  {
    hide Val, Padded;
    assert s[d0..z][d - d0] == s[d];
    assert s[d0..d + 1] == s[d0..d] + [s[d]];
    PaddedLimb(s[d0..d], s[d]);
  }

  lemma FractionEnd(s: seq<nat>, d0: nat, d: nat, z: nat, p: nat)
    requires d0 <= d <= z <= |s| && AreLimbs(s[d0..z]) && (d == z || p <= 9 * (d - d0))
    ensures var q := p - 9 * (d - d0);
      FractionText(s[d0..z], p) == Taken(s[d0..d], p) + Printf.Padding(48, q + 9, 9, false)
  {
    hide Val, Padded, AreLimbs;
    assert s[d0..z] == s[d0..d] + s[d..z];
    TailLimbs(s, d0, d, z);
    PaddedLimbs(s[d0..d], s[d..z]);
  }

  lemma TailLimbs(s: seq<nat>, d0: nat, d: nat, z: nat)
    requires d0 <= d <= z <= |s| && AreLimbs(s[d0..z])
    ensures AreLimbs(s[d..z])
  {
    assert forall i | 0 <= i < z - d :: s[d..z][i] == s[d0..z][d - d0 + i];
  }

  // ---------- the rounded number ----------

  /** Limbs whole and tail of fraction that read as rr / p. */
  lemma SplitAtPoint(whole: nat, tail: nat, t: nat, p: nat, rr: nat)
    requires 0 < t && 0 < p && tail < t && (whole * t + tail) * p == rr * t
    ensures Quotient(rr, p) == whole && tail * p == Rest(rr, p) * t && Rest(rr, p) < p
  {
    hide *;
    var q := rr - whole * p;
    Distribute(whole * t, tail, p);
    assert whole * t * p == whole * p * t;
    assert rr * t == whole * p * t + q * t;
    assert tail * p == q * t;
    BetweenProducts(tail, q, t, p);
    QuotientIs(rr, p, whole, q);
  }

  lemma BetweenProducts(tail: nat, q: int, t: nat, p: nat)
    requires 0 < t && 0 < p && tail < t && tail * p == q * t
    ensures 0 <= q < p
  {
    MulMono(0, tail, p);
    CancelFactor(0, q, t);
    if p <= q {
      MulMono(p, q, t);
      MulMono(tail + 1, t, p);
      Distribute(tail, 1, p);
    }
  }

  lemma QuotientIs(x: nat, m: nat, q: nat, r: nat)
    requires 0 < m && x == q * m + r && r < m
    ensures Quotient(x, m) == q && Rest(x, m) == r
  {
    DivModUnique(x, m, q, r);
  }

  /** The digits of the tail, cut or filled up to p, are those of the rest. */
  lemma TailDigits(tail: nat, q: nat, f: nat, p: nat)
    requires tail < Pow10(9 * f) && q < Pow10(p) && tail * Pow10(p) == q * Pow10(9 * f)
    ensures (Padded(tail, 9 * f) + Printf.Repeat(48, p))[..p] == Padded(q, p)
  {
    hide Padded, Pow10;
    if p <= 9 * f {
      var j := 9 * f - p;
      Pow10Add(p, j);
      Scaled2(tail, q, Pow10(p), Pow10(j));
      PaddedJoin(tail, q, 0, p, j);
    } else {
      var j := p - 9 * f;
      Pow10Add(9 * f, j);
      Scaled2(q, tail, Pow10(9 * f), Pow10(j));
      PaddedJoin(q, tail, 0, 9 * f, j);
      PaddedZero(j);
    }
  }

  lemma Scaled2(x: nat, y: nat, t: nat, j: nat)
    requires 0 < t && 0 < j && x * t == y * (t * j)
    ensures x == y * j + 0
  {
    assert x * t == y * j * t;
  }

  lemma PaddedZero(j: nat)
    ensures Padded(0, j) == Printf.Repeat(48, j) && 0 < Pow10(j)
  {
    hide Padded, Pow10;
    NumeralNone(10, false);
    PaddedIs(0, j);
  }

  /** What the limbs read is the text of the rounded number. */
  lemma ReadsText(s: seq<nat>, a: nat, r: nat, z: nat, p: nat, rr: nat)
    requires Reads(s, a, r, z, p, rr)
    ensures var lo, zf := Min(a, r), Max(z, r + 1);
      && zf <= |s| && AreLimbs(s[lo..r + 1]) && AreLimbs(s[r + 1..zf])
      && Val(s[lo..r + 1]) == Quotient(rr, Pow10(p))
      && FractionText(s[r + 1..zf], p) == Padded(Rest(rr, Pow10(p)), p)
  {
    hide Val, Pow10, P9, Padded, AreLimbs, Quotient, Rest;
    var lo, zf := Min(a, r), Max(z, r + 1);
    var whole, tail := s[lo..r + 1], s[r + 1..zf];
    TailLimbs(s, lo, r + 1, zf);
    LimbsBelow(s, lo, r + 1, zf);
    assert s[lo..zf] == whole + tail;
    ValConcat(whole, tail);
    ValBound(tail);
    SplitAtPoint(Val(whole), Val(tail), P9(|tail|), Pow10(p), rr);
    P9IsPow10(|tail|);
    TailDigits(Val(tail), Rest(rr, Pow10(p)), |tail|, p);
  }

  // ---------- the width ----------

  lemma FirstLength(x: nat, k: int)
    requires Places(x, k)
    ensures |WholeText(x)| == k + 1
  {
    hide Pow10, Numeral;
    if x != 0 {
      NumeralDigits(x, k);
    }
  }

  lemma {:induction false} LimbsLength(s: seq<nat>)
    requires s != [] && AreLimbs(s) && (|s| > 1 ==> s[0] != 0)
    ensures |WholeText(Val(s))| == |WholeText(s[0])| + 9 * (|s| - 1)
  {
    var n := |s| - 1;
    hide Val, WholeText, Padded;
    if n == 0 {
      assert s == [s[0]];
      ValOne(s[0]);
    } else {
      LimbsLength(s[..n]);
      assert s == s[..n] + [s[n]];
      WholeStep(s[..n], s[n]);
    }
  }

  /** The exponent counts the digits in front of the point. */
  lemma WholeLength(s: seq<nat>, a: nat, r: nat, e: int)
    requires r < |s| && AreLimbs(s[Min(a, r)..r + 1]) && Starts(s, a, r) && HasExponent(s, a, r, e)
    ensures |WholeText(Val(s[Min(a, r)..r + 1]))| == 1 + if e > 0 then e else 0
  {
    hide Val, WholeText, AreLimbs, Pow10;
    var lo := Min(a, r);
    var t := s[lo..r + 1];
    assert t[0] == s[lo];
    LimbsLength(t);
    if a <= r {
      FirstLength(s[a], e - 9 * (r - a));
    } else {
      ZeroText();
    }
  }

  lemma ZeroText()
    ensures |WholeText(0)| == 1
  {
  }

  // ---------- %f ----------

  /** The characters of the number. */
  method WriteNumber(f: Printf.Sink, big: array<nat>, a0: nat, r: nat, z: nat, p: nat, alt: bool, ghost rr: nat)
    requires f.Valid() && Reads(big[..], a0, r, z, p, rr) && Starts(big[..], a0, r)
    modifies f, f.buf
    ensures f.Valid() && f.buf[f.wend..] == old(f.buf[f.wend..])
    ensures f.text == old(f.text) + FixedText(rr, p, alt)
  {
    hide Reads, Starts, AreLimbs, FixedText, WholeText, FractionText, Padded, Quotient, Rest, Val, Pow10;
    var buf, a := new byte[22], a0;
    ghost var s := big[..];
    ReadsText(s, a, r, z, p, rr);
    StartsHere(s, a, r);
    if a > r {
      a := r;
    }
    ghost var t0 := f.text;
    WriteWhole(f, big, a, r, buf);
    var point: seq<byte> := [];
    if p > 0 || alt {
      point := ['.' as int];
      var k := f.Write(point);
    }
    assert point == if p > 0 || alt then ['.' as int] else [];
    WriteFraction(f, big, r + 1, z, p, buf);
    NumberIs(t0, rr, p, alt, point);
  }

  lemma StartsHere(s: seq<nat>, a: nat, r: nat)
    requires Starts(s, a, r) && r < |s|
    ensures a < r ==> s[a] != 0
  {
  }

  lemma NumberIs(t: seq<byte>, rr: nat, p: nat, alt: bool, point: seq<byte>)
    requires point == if p > 0 || alt then ['.' as int] else []
    ensures t + WholeText(Quotient(rr, Pow10(p))) + point + Padded(Rest(rr, Pow10(p)), p) == t + FixedText(rr, p, alt)
  {
    hide WholeText, Padded, Quotient, Rest, Pow10;
  }

  /** The length of the number, from its exponent. */
  lemma FixedLength(s: seq<nat>, a: nat, r: nat, z: nat, e: int, p: nat, alt: bool, rr: nat)
    requires Reads(s, a, r, z, p, rr) && Starts(s, a, r) && HasExponent(s, a, r, e)
    ensures |FixedText(rr, p, alt)| == 1 + p + (if p > 0 || alt then 1 else 0) + (if e > 0 then e else 0)
  {
    hide Reads, Starts, HasExponent, AreLimbs, WholeText, Padded, FractionText, Quotient, Rest, Val, Pow10;
    ReadsText(s, a, r, z, p, rr);
    WholeLength(s, a, r, e);
  }

  /** The parts make up the field. */
  lemma FieldParts(front: seq<byte>, body: seq<byte>, w: nat, left: bool, zero: bool)
    ensures var n := |front| + |body|;
      Printf.IsoField(front, 0, body, w, left, zero)
      == Printf.Padding(32, w, n, left || zero) + front + Printf.Padding(48, w, n, left || !zero) + body
         + Printf.Padding(32, w, n, !left)
    ensures |Printf.IsoField(front, 0, body, w, left, zero)| == Max(w, |front| + |body|)
  {
    assert Printf.Repeat(32, 0) == [] && Printf.Repeat(48, 0) == [];
    assert front + [] + body == front + body;
  }

  /** What stands in front of the number. */
  method WriteLead(f: Printf.Sink, prefix: seq<byte>, w: nat, n: nat, left: bool, zero: bool)
    requires f.Valid()
    modifies f, f.buf
    ensures f.Valid() && f.buf[f.wend..] == old(f.buf[f.wend..])
    ensures f.text == old(f.text) + Printf.Padding(32, w, n, left || zero) + prefix + Printf.Padding(48, w, n, left || !zero)
  {
    hide Printf.Padding;
    f.Pad(32, w, n, left || zero);
    var k := f.Write(prefix);
    f.Pad(48, w, n, left || !zero);
  }

  /** The number between its paddings. */
  method WriteField(f: Printf.Sink, big: array<nat>, a: nat, r: nat, z: nat, e: int, p: nat, prefix: seq<byte>,
                    fl: Printf.Flags, w: nat, ghost rr: nat) returns (l: nat)
    requires f.Valid() && Reads(big[..], a, r, z, p, rr) && Starts(big[..], a, r) && HasExponent(big[..], a, r, e)
    modifies f, f.buf
    ensures f.Valid() && f.buf[f.wend..] == old(f.buf[f.wend..])
    ensures f.text == old(f.text) + Printf.IsoField(prefix, 0, FixedText(rr, p, fl.alt), w, fl.left, fl.zero)
    ensures l == |Printf.IsoField(prefix, 0, FixedText(rr, p, fl.alt), w, fl.left, fl.zero)|
  {
    hide *;
    FixedLength(big[..], a, r, z, e, p, fl.alt, rr);
    FieldParts(prefix, FixedText(rr, p, fl.alt), w, fl.left, fl.zero);
    ghost var t0 := f.text;
    l := 1 + p + (if p > 0 || fl.alt then 1 else 0);
    if e > 0 {
      l := l + e;
    }
    var pl, zero := |prefix|, fl.zero && !fl.left;
    WriteLead(f, prefix, w, pl + l, fl.left, zero);
    WriteNumber(f, big, a, r, z, p, fl.alt, rr);
    f.Pad(32, w, pl + l, !fl.left || zero);
    SamePads(w, pl + l, fl.left, fl.zero);
    FiveParts(t0, Printf.Padding(32, w, pl + l, fl.left || zero), prefix, Printf.Padding(48, w, pl + l, fl.left || !zero),
              FixedText(rr, p, fl.alt), Printf.Padding(32, w, pl + l, !fl.left || zero));
    l := MaxIs(w, pl + l);
  }

  method MaxIs(w: nat, n: nat) returns (l: nat)
    ensures l == Max(w, n)
  {
    l := if w > n then w else n;
  }

  lemma FiveParts(t: seq<byte>, a: seq<byte>, b: seq<byte>, c: seq<byte>, d: seq<byte>, e: seq<byte>)
    ensures t + a + b + c + d + e == t + (a + b + c + d + e)
  {
  }

  /** - switches 0 off. */
  lemma SamePads(w: nat, n: nat, left: bool, zero: bool)
    ensures Printf.Padding(48, w, n, left || !(zero && !left)) == Printf.Padding(48, w, n, left || !zero)
    ensures Printf.Padding(32, w, n, !left || (zero && !left)) == Printf.Padding(32, w, n, !left)
  {
  }

  method ChooseSign(neg: bool, fl: Printf.Flags) returns (prefix: seq<byte>)
    ensures prefix == Front(neg, fl)
  {
    prefix := [];
    if neg {
      prefix := ['-' as int];
    } else if fl.plus {
      prefix := ['+' as int];
    } else if fl.space {
      prefix := [' ' as int];
    }
  }

  /** fmt_fp for %f and a finite number of magnitude m * 2^(e2 - 24). */
  method PrintFixed(f: Printf.Sink, neg: bool, m: nat, e2: int, fl: Printf.Flags, w: nat, p0: int, ghost g: nat)
    returns (l: nat, ghost rr: nat)
    requires f.Valid()
    requires if m == 0 then e2 == 0 else 0x10_0000_0000_0000 <= m < 0x20_0000_0000_0000
    requires e2 <= 995 && m % Pow2(g) == 0 && 24 - e2 <= 1074 + g
    modifies f, f.buf
    ensures f.Valid() && f.buf[f.wend..] == old(f.buf[f.wend..])
    ensures var p := if p0 < 0 then 6 else p0;
      && f.text == old(f.text) + FixedField(neg, rr, fl, w, p) && l == |FixedField(neg, rr, fl, w, p)|
      && WithinHalf(rr, Times(Numer(m, e2), Pow10(p)), Denom(e2))
      && (TiesToEven(rr, Times(Numer(m, e2), Pow10(p)), Denom(e2))
          <==> !OddTieAtLimb(Times(Numer(m, e2), Pow10(p)), Denom(e2), p))
  {
    hide Pow2, Pow10, Numer, Denom, Reads, HasExponent, WithinHalf, TiesToEven, OddTieAtLimb, Times, Starts;
    hide FixedText, Printf.IsoField;
    var prefix := ChooseSign(neg, fl);
    var p: nat := if p0 < 0 then 6 else p0;
    var big := new nat[SIZE];
    var a, r, z, e;
    a, r, z, e, rr := FixedDigits(big, m, e2, p, g);
    l := WriteField(f, big, a, r, z, e, p, prefix, fl, w, rr);
  }

  // ---------- every double ----------

  lemma SameOrder(n: nat, den: nat, n': nat, den': nat, c: int)
    requires 0 < den && 0 < den' && n * den' == n' * den
    ensures n <= c * den <==> n' <= c * den'
    ensures n == c * den <==> n' == c * den'
  {
    assert c * den * den' == c * den' * den;
    Cancels(n, c * den, den');
    Cancels(n', c * den', den);
  }

  lemma Cancels(x: int, y: int, t: nat)
    requires 0 < t
    ensures x <= y <==> x * t <= y * t
    ensures x == y <==> x * t == y * t
  {
    if x < y {
      MulMono(x + 1, y, t);
      Distribute(x, 1, t);
    } else if y < x {
      MulMono(y + 1, x, t);
      Distribute(y, 1, t);
    }
  }

  /** Two ways to write a number round alike. */
  lemma SameRounding(rr: nat, n: nat, den: nat, n': nat, den': nat, p: nat)
    requires 0 < den && 0 < den' && n * den' == n' * den
    ensures WithinHalf(rr, n, den) <==> WithinHalf(rr, n', den')
    ensures TiesToEven(rr, n, den) <==> TiesToEven(rr, n', den')
    ensures OddTieAtLimb(n, den, p) <==> OddTieAtLimb(n', den', p)
  {
    TwiceTheRatio(n, den, n', den');
    SameOrder(2 * n, den, 2 * n', den', 2 * rr - 1);
    SameOrder(2 * n, den, 2 * n', den', 2 * rr + 1);
    Halves(rr, den);
    Halves(rr, den');
    SameTie(n, den, n', den');
  }

  lemma TwiceTheRatio(n: nat, den: nat, n': nat, den': nat)
    requires n * den' == n' * den
    ensures 2 * n * den' == 2 * n' * den
  {
    Assoc(2, n, den');
    Assoc(2, n', den);
  }

  lemma Halves(rr: nat, den: nat)
    ensures (2 * rr - 1) * den == 2 * rr * den - den && (2 * rr + 1) * den == 2 * rr * den + den
  {
    Distribute(2 * rr, 1, den);
  }

  lemma SameTie(n: nat, den: nat, n': nat, den': nat)
    requires 0 < den && 0 < den' && n * den' == n' * den
    ensures n / den == n' / den'
    ensures 2 * (n % den) == den <==> 2 * (n' % den') == den'
  {
    var q, r := n / den, n % den;
    DivModDef(n, den);
    var r' := n' - q * den';
    assert n == q * den + r && 0 <= r < den;
    hide *;
    Distribute(q * den, r, den');
    assert q * den * den' == q * den' * den;
    Distribute(n', q * den', den);
    assert r * den' == r' * den;
    RestInRange(r, den, r', den');
    DivModUnique(n', den', q, r');
    TwiceTheRatio(r, den, r', den');
    SameOrder(2 * r, den, 2 * r', den', 1);
  }

  lemma RestInRange(r: nat, den: nat, r': int, den': nat)
    requires r < den && 0 < den' && r * den' == r' * den
    ensures 0 <= r' < den'
  {
    MulMono(0, r, den');
    Cancels(0, r', den);
    Cancels(den', r', den);
    MulMono(r + 1, den, den');
    Distribute(r, 1, den');
  }

  /** frexp, with m in units of 2^-24 of its result scaled by 2^29: m * 2^(e2 - 24) is the number. */
  method Frexp(mag: nat) returns (m: nat, e2: int, ghost g: nat)
    requires mag < INFINITY
    ensures if m == 0 then e2 == 0 else 0x10_0000_0000_0000 <= m < 0x20_0000_0000_0000
    ensures e2 <= 995 && m % Pow2(g) == 0 && 24 - e2 <= 1074 + g
    ensures Numer(m, e2) * Pow2(1074) == Mag(mag) * Denom(e2)
  {
    hide Pow2, Mag, FieldsMag, Numer, Denom;
    Pow2Zero();
    var e, frac := mag / HIDDEN, mag % HIDDEN;
    FieldRanges(mag);
    if e != 0 {
      m, e2, g := HIDDEN + frac, e - 1051, 0;
      NormalParts(mag, e, frac);
      return;
    }
    m, e2, g := frac, 0, 0;
    if frac != 0 {
      e2 := -1050;
      while m < HIDDEN
        invariant 0 < m < 2 * HIDDEN && m == frac * Pow2(g) && e2 == -1050 - g
        decreases HIDDEN - m
      {
        Pow2Next(g);
        Assoc(frac, Pow2(g), 2);
        m, e2, g := 2 * m, e2 - 1, g + 1;
      }
    }
    SubnormalParts(mag, frac, m, e2, g);
  }

  lemma FieldRanges(mag: nat)
    requires mag < INFINITY
    ensures HIDDEN == 0x10_0000_0000_0000 && 0 <= mag / HIDDEN <= 2046 && 0 <= mag % HIDDEN < HIDDEN
    ensures Mag(mag) == FieldsMag(mag / HIDDEN, mag % HIDDEN)
  {
  }

  lemma NormalParts(mag: nat, e: nat, frac: nat)
    requires 1 <= e <= 2046 && Mag(mag) == FieldsMag(e, frac)
    ensures Numer(HIDDEN + frac, e - 1051) * Pow2(1074) == Mag(mag) * Denom(e - 1051)
    ensures (HIDDEN + frac) % Pow2(0) == 0
  {
    hide Pow2, Mag;
    Pow2Zero();
    var m, e2 := HIDDEN + frac, e - 1051;
    assert Mag(mag) == m * Pow2(e - 1);
    if e2 < 0 {
      Pow2Add(e - 1, 24 - e2);
      Assoc(m, Pow2(e - 1), Pow2(24 - e2));
    } else {
      FracIs();
      Pow2Add(e2, 1074);
      Pow2Add(e - 1, 24);
      Assoc(m, Pow2(e2), Pow2(1074));
      Assoc(m, Pow2(e - 1), Pow2(24));
    }
  }

  lemma FracIs()
    ensures FRAC == Pow2(24)
  {
    Pow2Add(16, 8);
    hide Pow2;
    Pow2Values();
  }

  lemma SubnormalParts(mag: nat, frac: nat, m: nat, e2: int, g: nat)
    requires Mag(mag) == FieldsMag(0, frac) && m == frac * Pow2(g)
    requires if frac == 0 then e2 == 0 == g else e2 == -1050 - g
    ensures Numer(m, e2) * Pow2(1074) == Mag(mag) * Denom(e2) && m % Pow2(g) == 0
  {
    hide Pow2, Mag;
    DivModUnique(m, Pow2(g), frac, 0);
    if frac != 0 {
      Pow2Add(g, 1074);
      Assoc(frac, Pow2(g), Pow2(1074));
    }
  }

  /** The name of a number that is none. */
  function Name(nan: bool, upper: bool): seq<byte> {
    if nan then if upper then ['N' as int, 'A' as int, 'N' as int] else ['n' as int, 'a' as int, 'n' as int]
    else if upper then ['I' as int, 'N' as int, 'F' as int] else ['i' as int, 'n' as int, 'f' as int]
  }

  method ChooseName(nan: bool, upper: bool) returns (s: seq<byte>)
    ensures s == Name(nan, upper) && |s| == 3
  {
    s := if upper then ['I' as int, 'N' as int, 'F' as int] else ['i' as int, 'n' as int, 'f' as int];
    if nan {
      s := if upper then ['N' as int, 'A' as int, 'N' as int] else ['n' as int, 'a' as int, 'n' as int];
    }
  }

  /** Infinities and NaNs are padded with spaces only. */
  method PrintName(f: Printf.Sink, neg: bool, nan: bool, upper: bool, fl: Printf.Flags, w: nat) returns (l: nat)
    requires f.Valid()
    modifies f, f.buf
    ensures f.Valid() && f.buf[f.wend..] == old(f.buf[f.wend..])
    ensures f.text == old(f.text) + Printf.IsoField(Front(neg, fl), 0, Name(nan, upper), w, fl.left, false)
    ensures l == |Printf.IsoField(Front(neg, fl), 0, Name(nan, upper), w, fl.left, false)|
  {
    hide Printf.IsoField, Printf.Padding, Printf.Repeat, Max, Front, Name;
    var prefix := ChooseSign(neg, fl);
    var s := ChooseName(nan, upper);
    FieldParts(prefix, s, w, fl.left, false);
    ghost var t0 := f.text;
    var pl := |prefix|;
    f.Pad(32, w, 3 + pl, fl.left);
    var k := f.Write(prefix);
    k := f.Write(s);
    f.Pad(32, w, 3 + pl, !fl.left);
    NoPad(w, 3 + pl);
    FiveParts(t0, Printf.Padding(32, w, 3 + pl, fl.left), prefix, [], s, Printf.Padding(32, w, 3 + pl, !fl.left));
    l := MaxIs(w, 3 + pl);
  }

  lemma NoPad(w: nat, n: nat)
    ensures Printf.Padding(48, w, n, true) == []
  {
  }

  /** "%f" of a double: its number rounded at the p-th digit after the point, ties to even unless the digit
      kept is odd at the end of a limb; in a field of the width asked for. */
  method Fixed(f: Printf.Sink, bits: nat, upper: bool, fl: Printf.Flags, w: nat, p0: int) returns (l: nat, ghost rr: nat)
    requires f.Valid() && bits < 0x1_0000_0000_0000_0000
    modifies f, f.buf
    ensures f.Valid() && f.buf[f.wend..] == old(f.buf[f.wend..])
    ensures var neg, mag, p := bits / 0x8000_0000_0000_0000 == 1, bits % 0x8000_0000_0000_0000, if p0 < 0 then 6 else p0;
      var text := if mag < INFINITY then FixedField(neg, rr, fl, w, p)
                  else Printf.IsoField(Front(neg, fl), 0, Name(mag > INFINITY, upper), w, fl.left, false);
      f.text == old(f.text) + text && l == |text|
    ensures var mag, p := bits % 0x8000_0000_0000_0000, if p0 < 0 then 6 else p0;
      mag < INFINITY ==>
        && WithinHalf(rr, Times(Mag(mag), Pow10(p)), Pow2(1074))
        && (TiesToEven(rr, Times(Mag(mag), Pow10(p)), Pow2(1074))
            <==> !OddTieAtLimb(Times(Mag(mag), Pow10(p)), Pow2(1074), p))
  {
    hide Printf.IsoField, FixedField, WithinHalf, TiesToEven, OddTieAtLimb, Times, Mag, Pow2, Pow10, Numer, Denom;
    var neg, mag := bits / 0x8000_0000_0000_0000 == 1, bits % 0x8000_0000_0000_0000;
    rr := 0;
    if mag >= INFINITY {
      l := PrintName(f, neg, mag > INFINITY, upper, fl, w);
      return;
    }
    var m, e2;
    ghost var g;
    m, e2, g := Frexp(mag);
    ghost var p: nat := if p0 < 0 then 6 else p0;
    l, rr := PrintFixed(f, neg, m, e2, fl, w, p0, g);
    TimesBoth(Numer(m, e2), Denom(e2), Mag(mag), Pow2(1074), Pow10(p));
    SameRounding(rr, Times(Numer(m, e2), Pow10(p)), Denom(e2), Times(Mag(mag), Pow10(p)), Pow2(1074), p);
  }

  lemma TimesBoth(n: nat, den: nat, n': nat, den': nat, t: nat)
    requires n * den' == n' * den
    ensures Times(n, t) * den' == Times(n', t) * den
  {
    Assoc(n, t, den');
    Assoc(n', t, den);
    assert n * t * den' == n * den' * t;
    assert n' * t * den == n' * den * t;
  }
}
