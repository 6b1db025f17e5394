/** strtol (nolibc/strtol.c:42-150): the longest run of digits in the base, clamped to a long. */
module Strtol {
  import opened Arith
  import opened CString
  import opened Glyphs

  const LONG_MAX: int := 0x7fff_ffff_ffff_ffff
  const LONG_MIN: int := -0x8000_0000_0000_0000

  // ---------- characters (nolibc/ctype.c) ----------

  predicate IsSpace(c: byte) {
    c == 32 || 9 <= c <= 13
  }

  predicate IsDigit(c: byte) {
    48 <= c <= 57
  }

  predicate IsUpper(c: byte) {
    65 <= c <= 90
  }

  predicate IsAlpha(c: byte) {
    IsUpper(c) || 97 <= c <= 122
  }

  /** The digit a character stands for, 36 for none. */
  function Digit(c: byte): (v: nat)
    ensures v <= 36
  {
    if IsDigit(c) then c - 48 else if IsUpper(c) then c - 55 else if IsAlpha(c) then c - 87 else 36
  }

  /** isspace accepts the white space of the C locale. */
  lemma SpaceIs(c: byte)
    ensures IsSpace(c) <==> IsWhite(c)
  {
    assert WHITE[0] == ' ' && WHITE[1] == '\t' && WHITE[2] == '\n' && WHITE[5] == '\r';
    assert WHITE[3] as int == 11 && WHITE[4] as int == 12;
  }

  /** The value of a digit is its place in the alphabet, in either case; no other character has one. */
  lemma DigitIs(c: byte, d: nat)
    requires d < 36
    ensures Digit(c) == d <==> Writes(c, d)
  {
    Codes(d);
  }

  // ---------- the number written ----------

  function Value(s: seq<byte>, b: nat): nat {
    if s == [] then 0 else Value(s[..|s| - 1], b) * b + Digit(s[|s| - 1])
  }

  ghost predicate AreDigits(s: seq<byte>, b: nat) {
    forall i | 0 <= i < |s| :: Digit(s[i]) < b
  }

  /** [from, to) is the longest run of digits at `from`. */
  ghost predicate IsRun(s: seq<byte>, b: nat, from: nat, to: nat) {
    from <= to < |s| && AreDigits(s[from..to], b) && Digit(s[to]) >= b
  }

  function Clamp(v: int): int {
    if v > LONG_MAX then LONG_MAX else if v < LONG_MIN then LONG_MIN else v
  }

  function Signed(neg: bool, v: nat): int {
    if neg then 0 - v else v
  }

  lemma ValuePush(s: seq<byte>, from: nat, to: nat, b: nat)
    requires from <= to < |s|
    ensures Value(s[from..to + 1], b) == Value(s[from..to], b) * b + Digit(s[to])
  {
    assert s[from..to + 1][..to - from] == s[from..to];
  }

  // ---------- before the digits ----------

  /** White space, a sign, and 0x or a leading 0 where the base allows them. */
  datatype Head = Head(neg: bool, base: nat, from: nat)

  function SkipSpace(s: seq<byte>, i: nat): (j: nat)
    requires IsCString(s) && i < |s|
    ensures i <= j < |s| && !IsSpace(s[j]) && forall k | i <= k < j :: IsSpace(s[k])
    decreases |s| - i
  {
    if IsSpace(s[i]) then SkipSpace(s, i + 1) else i
  }

  predicate HexPrefix(s: seq<byte>, i: nat) {
    i + 1 < |s| && s[i] == 48 && (s[i + 1] == 120 || s[i + 1] == 88)
  }

  function HeadOf(s: seq<byte>, base: nat): (h: Head)
    requires IsCString(s) && base <= 36 && base != 1
    ensures h.from < |s| && 2 <= h.base <= 36 && (base != 0 ==> h.base == base)
  {
    var i := SkipSpace(s, 0);
    var neg := s[i] == 45;
    var j := if s[i] == 45 || s[i] == 43 then i + 1 else i;
    if (base == 0 || base == 16) && HexPrefix(s, j) then Head(neg, 16, j + 2)
    else Head(neg, if base != 0 then base else if s[j] == 48 then 8 else 10, j)
  }

  // ---------- the text taken, in characters ----------

  /** A numeral in a string: white space to `space`, a sign or none to `sign`, 0x or none to `from`, the
      digits to `to`. */
  datatype Subject = Subject(space: nat, sign: nat, from: nat, to: nat, neg: bool, base: nat, digits: seq<nat>) {
    /** The number written. */
    function Number(): int {
      if neg then 0 - Horner(digits, base) else Horner(digits, base)
    }
  }

  /** t is the numeral at the start of s that strtol takes for base0, where 0 asks for the base of a C
      literal: each part is as long as it can be. */
  ghost predicate IsSubject(s: seq<byte>, base0: nat, t: Subject) {
    && t.space <= t.sign <= t.from <= t.to < |s|
    && (forall n | 0 <= n < t.space :: IsWhite(s[n])) && !IsWhite(s[t.space])
    && (t.neg <==> s[t.space] == '-' as int)
    && t.sign == t.space + (if s[t.space] == '-' as int || s[t.space] == '+' as int then 1 else 0)
    && var hex := (base0 == 0 || base0 == 16) && t.sign + 1 < |s| && s[t.sign] == '0' as int
                  && (s[t.sign + 1] == 'x' as int || s[t.sign + 1] == 'X' as int);
    && t.from == t.sign + (if hex then 2 else 0)
    && t.base == (if hex then 16 else if base0 != 0 then base0 else if s[t.sign] == '0' as int then 8 else 10)
    && Spells(s[t.from..t.to], t.digits, t.base)
    && forall d: nat | d < t.base :: !Writes(s[t.to], d)
  }

  /** The values of the digits of a run. */
  function Digits(s: seq<byte>): (ds: seq<nat>) {
    seq(|s|, i requires 0 <= i < |s| => Digit(s[i]))
  }

  lemma {:induction false} ValueIsHorner(s: seq<byte>, ds: seq<nat>, b: nat)
    requires b <= 36 && Spells(s, ds, b)
    ensures Value(s, b) == Horner(ds, b) && AreDigits(s, b) && Digits(s) == ds
  {
    forall i | 0 <= i < |s| ensures Digit(s[i]) == ds[i] {
      DigitIs(s[i], ds[i]);
    }
    if s != [] {
      ValueIsHorner(s[..|s| - 1], ds[..|s| - 1], b);
    }
  }

  lemma DigitsSpell(s: seq<byte>, b: nat)
    requires b <= 36 && AreDigits(s, b)
    ensures Spells(s, Digits(s), b)
  {
    forall i | 0 <= i < |s| ensures Writes(s[i], Digits(s)[i]) {
      DigitIs(s[i], Digit(s[i]));
    }
  }

  lemma NoDigit(c: byte, b: nat)
    requires b <= 36
    ensures Digit(c) >= b <==> forall d: nat | d < b :: !Writes(c, d)
  {
    forall d: nat | d < b ensures Digit(c) == d <==> Writes(c, d) {
      DigitIs(c, d);
    }
    assert Digit(c) < b ==> Writes(c, Digit(c));
  }

  /** The head and the run of digits that the code reads are the numeral. */
  function SubjectOf(s: seq<byte>, base0: nat, to: nat): (t: Subject)
    requires IsCString(s) && base0 <= 36 && base0 != 1 && HeadOf(s, base0).from <= to < |s|
  {
    var h, i := HeadOf(s, base0), SkipSpace(s, 0);
    Subject(i, if s[i] == 45 || s[i] == 43 then i + 1 else i, h.from, to, h.neg, h.base, Digits(s[h.from..to]))
  }

  lemma TakesSubject(s: seq<byte>, base0: nat, to: nat)
    requires IsCString(s) && base0 <= 36 && base0 != 1
    requires var h := HeadOf(s, base0); IsRun(s, h.base, h.from, to)
    ensures var t := SubjectOf(s, base0, to);
      IsSubject(s, base0, t) && t.Number() == Signed(t.neg, Value(s[t.from..to], t.base))
  {
    hide IsWhite, Writes, Spells, Digits, Digit, Value, Horner, AreDigits, IsSpace;
    var t, h := SubjectOf(s, base0, to), HeadOf(s, base0);
    DigitsSpell(s[h.from..to], h.base);
    ValueIsHorner(s[h.from..to], t.digits, h.base);
    NoDigit(s[to], h.base);
    SpaceIs(s[t.space]);
    forall n | 0 <= n < t.space ensures IsWhite(s[n]) {
      SpaceIs(s[n]);
    }
  }

  lemma SpelledAt(s: seq<byte>, from: nat, to: nat, ds: seq<nat>, b: nat, n: nat)
    requires from <= n < to <= |s| && Spells(s[from..to], ds, b)
    ensures exists d: nat | d < b :: Writes(s[n], d)
  {
    assert Writes(s[from..to][n - from], ds[n - from]);
  }

  lemma StopsAt(s: seq<byte>, from: nat, to: nat, ds: seq<nat>, b: nat, stop: nat)
    requires from <= to <= |s| && from <= stop < |s| && Spells(s[from..to], ds, b)
    requires forall d: nat | d < b :: !Writes(s[stop], d)
    ensures to <= stop
  {
    hide Writes, Spells;
    if stop < to {
      SpelledAt(s, from, to, ds, b, stop);
    }
  }

  /** A string has one such numeral. */
  lemma OneSubject(s: seq<byte>, base0: nat, t: Subject, u: Subject)
    requires base0 <= 36 && IsSubject(s, base0, t) && IsSubject(s, base0, u)
    ensures t == u
  {
    hide IsWhite, Writes;
    assert t.space == u.space;
    assert t.from == u.from && t.base == u.base && t.neg == u.neg;
    StopsAt(s, u.from, u.to, u.digits, u.base, t.to);
    StopsAt(s, t.from, t.to, t.digits, t.base, u.to);
    ValueIsHorner(s[t.from..t.to], t.digits, t.base);
    ValueIsHorner(s[t.from..t.to], u.digits, t.base);
  }

  /** LONG_MAX and LONG_MIN bound 64 bits. */
  lemma LongIs()
    ensures LONG_MAX == Pow2(63) - 1 && LONG_MIN == 0 - Pow2(63)
  {
    hide Pow2;
    Pow2Values();
  }

  // ---------- what the standard reads ----------

  /** The same in section 7.22.1.4 of ISO/IEC 9899:2011: 0x belongs to the subject sequence only
      with a hexadecimal digit after it. */
  function IsoHeadOf(s: seq<byte>, base: nat): (h: Head)
    requires IsCString(s) && base <= 36 && base != 1
    ensures h.from < |s| && 2 <= h.base <= 36
  {
    var i := SkipSpace(s, 0);
    var neg := s[i] == 45;
    var j := if s[i] == 45 || s[i] == 43 then i + 1 else i;
    if (base == 0 || base == 16) && HexPrefix(s, j) && Digit(s[j + 2]) < 16 then Head(neg, 16, j + 2)
    else Head(neg, if base != 0 then base else if s[j] == 48 then 8 else 10, j)
  }

  datatype Outcome = Invalid | Parsed(acc: int, end: nat, range: bool)

  /** The answer to the head and the run of digits up to `to`. */
  ghost predicate IsAnswer(s: seq<byte>, base0: nat, to: nat, r: Outcome)
    requires IsCString(s) && base0 <= 36 && base0 != 1
  {
    var h := HeadOf(s, base0);
    && r.Parsed? && IsRun(s, h.base, h.from, to)
    && var v := Signed(h.neg, Value(s[h.from..to], h.base));
    && r.acc == Clamp(v) && (r.range <==> r.acc != v) && r.end == if to > h.from then to else 0
  }

  /** The value and the end that the standard asks for. */
  ghost predicate IsoAnswer(s: seq<byte>, base: nat, acc: int, end: nat)
    requires IsCString(s) && base <= 36 && base != 1
  {
    var h := IsoHeadOf(s, base);
    exists to: nat :: IsRun(s, h.base, h.from, to) && acc == Clamp(Signed(h.neg, Value(s[h.from..to], h.base)))
                 && end == if to > h.from then to else 0
  }

  /** A 0x that is taken for a prefix with no hexadecimal digit after it. */
  predicate LonePrefix(s: seq<byte>, base: nat)
    requires IsCString(s) && base <= 36 && base != 1
  {
    var i := SkipSpace(s, 0);
    var j := if s[i] == 45 || s[i] == 43 then i + 1 else i;
    (base == 0 || base == 16) && HexPrefix(s, j) && Digit(s[HeadOf(s, base).from]) >= 16
  }

  lemma RunDigits(s: seq<byte>, b: nat, from: nat, to: nat)
    requires IsRun(s, b, from, to)
    ensures forall k | from <= k < to :: Digit(s[k]) < b
  {
    forall k | from <= k < to ensures Digit(s[k]) < b {
      assert s[from..to][k - from] == s[k];
    }
  }

  lemma OneRun(s: seq<byte>, b: nat, from: nat, to: nat, to': nat)
    requires IsRun(s, b, from, to) && IsRun(s, b, from, to')
    ensures to == to'
  {
    RunDigits(s, b, from, to);
    RunDigits(s, b, from, to');
  }

  /** After a lone prefix the standard has the digit 0 to read, the code none. */
  lemma LoneZero(s: seq<byte>, base: nat)
    requires IsCString(s) && base <= 36 && base != 1 && LonePrefix(s, base)
    ensures var h := IsoHeadOf(s, base); IsRun(s, h.base, h.from, h.from + 1)
  {
    var h := IsoHeadOf(s, base);
    assert s[h.from..h.from + 1] == [48];
  }

  /** The answer is the standard's if and only if there is no lone prefix. */
  lemma IsoUnlessLonePrefix(s: seq<byte>, base: nat, to: nat, r: Outcome)
    requires IsCString(s) && base <= 36 && base != 1 && IsAnswer(s, base, to, r)
    ensures IsoAnswer(s, base, r.acc, r.end) <==> !LonePrefix(s, base)
  {
    var h := HeadOf(s, base);
    if LonePrefix(s, base) {
      var g := IsoHeadOf(s, base);
      LoneZero(s, base);
      RunDigits(s, h.base, h.from, to);
      assert r.end == 0;
      forall t | IsRun(s, g.base, g.from, t) ensures t == g.from + 1 {
        OneRun(s, g.base, g.from, t, g.from + 1);
      }
    } else {
      assert IsoHeadOf(s, base) == h;
    }
  }

  // ---------- the cutoff ----------

  /** The largest magnitude with this sign, split by the base. */
  method Cutoff(neg: bool, base: nat) returns (cutoff: int, cutlim: int)
    requires 2 <= base <= 36
    ensures 0 <= cutlim < base
    ensures if neg then cutoff <= 0 && LONG_MIN == cutoff * base - cutlim
            else 0 <= cutoff && LONG_MAX == cutoff * base + cutlim
  {
    cutoff := if neg then LONG_MIN else LONG_MAX;
    cutlim := if neg then -(-cutoff % base) else cutoff % base; // C truncates towards zero
    cutoff := if neg then -(-cutoff / base) else cutoff / base;
    if neg {
      if cutlim > 0 {
        cutlim := cutlim - base;
        cutoff := cutoff + 1;
      }
      cutlim := -cutlim;
    }
  }

  /** The comparison with the cutoff is exactly "one more digit does not fit". */
  lemma CutoffExact(v: nat, base: nat, c: nat, q: nat, lim: nat, m: nat)
    requires m == q * base + lim && lim < base && c < base
    ensures v > q || (v == q && c > lim) <==> v * base + c > m
  {
    if v > q {
      MulMono(q + 1, v, base);
      Distribute(q, 1, base);
    } else if v < q {
      MulMono(v + 1, q, base);
      Distribute(v, 1, base);
    }
  }

  // ---------- the digits ----------

  /** What acc and any say after the digits of value v. */
  ghost predicate Accumulated(neg: bool, v: nat, acc: int, any: int, seen: bool) {
    && -1 <= any <= 1 && (any == 0 <==> !seen) && (any == 0 ==> acc == 0 == v)
    && acc == Clamp(Signed(neg, v)) && (any == -1 <==> acc != Signed(neg, v))
  }

  /** One digit of a number that is not negative. */
  method TakePositive(base: nat, cutoff: int, cutlim: int, c: nat, acc0: nat) returns (acc: int, any: int)
    requires 2 <= base <= 36 && c < base && 0 <= cutlim < base && 0 <= cutoff && LONG_MAX == cutoff * base + cutlim
    ensures acc == Clamp(acc0 * base + c) && any == if acc == acc0 * base + c then 1 else -1
  {
    CutoffExact(acc0, base, c, cutoff, cutlim, LONG_MAX);
    MulMono(0, acc0, base);
    if acc0 > cutoff || (acc0 == cutoff && c > cutlim) {
      return LONG_MAX, -1;
    }
    acc := acc0 * base;
    assert acc <= LONG_MAX;
    return acc + c, 1;
  }

  /** The same below zero. */
  method TakeNegative(base: nat, cutoff: int, cutlim: int, c: nat, acc0: int, ghost v: nat) returns (acc: int, any: int)
    requires 2 <= base <= 36 && c < base && 0 <= cutlim < base && cutoff <= 0 && LONG_MIN == cutoff * base - cutlim
    requires acc0 == 0 - v
    ensures acc == Clamp(0 - (v * base + c)) && any == if acc == 0 - (v * base + c) then 1 else -1
  {
    Negated(v, acc0, cutoff, base);
    CutoffExact(v, base, c, 0 - cutoff, cutlim, 0 - LONG_MIN);
    MulMono(0, v, base);
    if acc0 < cutoff || (acc0 == cutoff && c > cutlim) {
      return LONG_MIN, -1;
    }
    acc := acc0 * base;
    assert LONG_MIN <= acc;
    return acc - c, 1;
  }

  lemma Negated(v: nat, acc: int, cutoff: int, base: nat)
    requires v == 0 - acc
    ensures acc * base == 0 - v * base && (0 - cutoff) * base == 0 - cutoff * base
  {
  }

  lemma StaysOutside(neg: bool, v: nat, base: nat, c: nat, acc: int, seen: bool)
    requires 2 <= base && Accumulated(neg, v, acc, -1, seen)
    ensures Accumulated(neg, v * base + c, acc, -1, true)
  {
    MulMono(1, base, v);
  }

  /** One digit: clamped, or multiplied in without overflow. */
  method TakeDigit(neg: bool, base: nat, cutoff: int, cutlim: int, c: nat, acc0: int, any0: int, ghost v: nat,
                   ghost seen: bool) returns (acc: int, any: int)
    requires 2 <= base <= 36 && c < base && 0 <= cutlim < base && Accumulated(neg, v, acc0, any0, seen)
    requires if neg then cutoff <= 0 && LONG_MIN == cutoff * base - cutlim
             else 0 <= cutoff && LONG_MAX == cutoff * base + cutlim
    ensures Accumulated(neg, v * base + c, acc, any, true)
  {
    if any0 < 0 {
      StaysOutside(neg, v, base, c, acc0, seen);
      return acc0, any0;
    }
    assert acc0 == Signed(neg, v);
    if neg {
      acc, any := TakeNegative(base, cutoff, cutlim, c, acc0, v);
    } else {
      acc, any := TakePositive(base, cutoff, cutlim, c, acc0);
    }
    MulMono(0, v, base);
    hide Clamp;
  }

  /** The part before the loop. */
  method ReadHead(s: seq<byte>, base0: nat) returns (neg: bool, base: nat, c: byte, i: nat)
    requires IsCString(s) && base0 <= 36 && base0 != 1
    ensures var h := HeadOf(s, base0); neg == h.neg && base == h.base && i == h.from + 1 && c == s[h.from]
  {
    i := 0;
    c := s[0];
    i := 1;
    while IsSpace(c)
      invariant 1 <= i <= |s| && c == s[i - 1] && SkipSpace(s, 0) == SkipSpace(s, i - 1)
      decreases |s| - i
    {
      c := s[i];
      i := i + 1;
    }
    neg := c == 45;
    if c == 45 || c == 43 {
      c := s[i];
      i := i + 1;
    }
    base := base0;
    if (base == 0 || base == 16) && c == 48 && (s[i] == 120 || s[i] == 88) {
      c := s[i + 1];
      i := i + 2;
      base := 16;
    }
    if base == 0 {
      base := if c == 48 then 8 else 10;
    }
  }

  /** A digit is not the terminator. */
  lemma NotTheEnd(s: seq<byte>, i: nat, base: nat)
    requires IsCString(s) && i < |s| && Digit(s[i]) < base <= 36
    ensures i + 1 < |s|
  {
  }

  lemma NoDigits(neg: bool, s: seq<byte>, from: nat, b: nat)
    requires from < |s|
    ensures Accumulated(neg, Value(s[from..from], b), 0, 0, false) && AreDigits(s[from..from], b)
  {
    assert s[from..from] == [];
  }

  lemma OneMore(s: seq<byte>, from: nat, to: nat, b: nat)
    requires from <= to < |s| && AreDigits(s[from..to], b) && Digit(s[to]) < b
    ensures AreDigits(s[from..to + 1], b)
    ensures Value(s[from..to + 1], b) == Value(s[from..to], b) * b + Digit(s[to])
  {
    ValuePush(s, from, to, b);
    hide Value, Digit;
    assert s[from..to + 1] == s[from..to] + [s[to]];
  }

  /** The loop over the digits, which runs to the end of them whether or not they fit. */
  method TakeDigits(s: seq<byte>, from: nat, neg: bool, base: nat, cutoff: int, cutlim: int)
    returns (acc: int, any: int, i: nat)
    requires IsCString(s) && from < |s| && 2 <= base <= 36 && 0 <= cutlim < base
    requires if neg then cutoff <= 0 && LONG_MIN == cutoff * base - cutlim
             else 0 <= cutoff && LONG_MAX == cutoff * base + cutlim
    ensures 0 < i && IsRun(s, base, from, i - 1)
    ensures Accumulated(neg, Value(s[from..i - 1], base), acc, any, i - 1 > from)
  {
    NoDigits(neg, s, from, base);
    acc, any, i := 0, 0, from + 1;
    var c := s[from];
    while Digit(c) < base
      invariant from + 1 <= i <= |s| && c == s[i - 1] && AreDigits(s[from..i - 1], base)
      invariant Accumulated(neg, Value(s[from..i - 1], base), acc, any, i - 1 > from)
      decreases |s| - i
    {
      hide *;
      NotTheEnd(s, i - 1, base);
      OneMore(s, from, i - 1, base);
      acc, any := TakeDigit(neg, base, cutoff, cutlim, Digit(c), acc, any, Value(s[from..i - 1], base), i - 1 > from);
      c := s[i];
      i := i + 1;
    }
  }

  lemma AccumulatedIs(s: seq<byte>, base0: nat, to: nat, acc: int, any: int, r: Outcome)
    requires IsCString(s) && base0 <= 36 && base0 != 1
    requires var h := HeadOf(s, base0);
      IsRun(s, h.base, h.from, to) && Accumulated(h.neg, Value(s[h.from..to], h.base), acc, any, to > h.from)
    requires r == Parsed(acc, if any != 0 then to else 0, any == -1)
    ensures IsAnswer(s, base0, to, r)
  {
    hide HeadOf, Value, Clamp;
  }

  /** The answer in terms of the numeral. */
  lemma AnswerIs(s: seq<byte>, base0: nat, to: nat, r: Outcome)
    requires IsCString(s) && base0 <= 36 && base0 != 1 && IsAnswer(s, base0, to, r)
    ensures HeadOf(s, base0).from <= to < |s|
    ensures var t := SubjectOf(s, base0, to);
      && IsSubject(s, base0, t)
      && (r.range <==> !(0 - Pow2(63) <= t.Number() < Pow2(63)))
      && r.acc == (if !r.range then t.Number() else if t.neg then 0 - Pow2(63) else Pow2(63) - 1)
      && r.end == (if t.to > t.from then t.to else 0) && t.to == to
    ensures IsoAnswer(s, base0, r.acc, r.end) <==> !LonePrefix(s, base0)
  {
    hide Pow2, HeadOf, Value, IsSubject, Horner, IsoAnswer, LonePrefix, Digits, SkipSpace;
    TakesSubject(s, base0, to);
    IsoUnlessLonePrefix(s, base0, to, r);
    LongIs();
  }

  /** strtol: the number in the string, clamped to 64 bits, with ERANGE exactly when it does not fit,
      and the digits consumed to the last in either case; with no digit, 0 and the start of the string. */
  method Strtol(s: seq<byte>, base0: int) returns (r: Outcome, ghost t: Subject)
    requires IsCString(s)
    ensures r.Invalid? <==> base0 < 0 || base0 == 1 || base0 > 36
    ensures r.Parsed? ==>
      && IsSubject(s, base0, t)
      && (r.range <==> !(0 - Pow2(63) <= t.Number() < Pow2(63)))
      && r.acc == (if !r.range then t.Number() else if t.neg then 0 - Pow2(63) else Pow2(63) - 1)
      && r.end == if t.to > t.from then t.to else 0
    ensures r.Parsed? ==> IsAnswer(s, base0, t.to, r)
    ensures r.Parsed? ==> (IsoAnswer(s, base0, r.acc, r.end) <==> !LonePrefix(s, base0))
  {
    hide *;
    t := Subject(0, 0, 0, 0, false, 0, []);
    if base0 < 0 || base0 == 1 || base0 > 36 {
      return Invalid, t;
    }
    var neg, base, c, i := ReadHead(s, base0);
    var cutoff, cutlim := Cutoff(neg, base);
    var acc, any;
    acc, any, i := TakeDigits(s, i - 1, neg, base, cutoff, cutlim);
    r := Parsed(acc, if any != 0 then i - 1 else 0, any == -1);
    AccumulatedIs(s, base0, i - 1, acc, any, r);
    AnswerIs(s, base0, i - 1, r);
    t := SubjectOf(s, base0, i - 1);
  }

  /** "0x" in base 0: nothing is consumed, where the standard reads the 0. */
  method LonePrefixExample() returns (r: Outcome)
    ensures r == Parsed(0, 0, false)
    ensures IsoAnswer([48, 120, 0], 0, 0, 1) && !IsoAnswer([48, 120, 0], 0, 0, 0)
  {
    var s: seq<byte> := [48, 120, 0];
    ghost var t;
    assert SkipSpace(s, 0) == 0 && HeadOf(s, 0) == Head(false, 16, 2) && IsoHeadOf(s, 0) == Head(false, 8, 0);
    r, t := Strtol(s, 0);
    assert s[2..2] == [];
    LoneZero(s, 0);
    assert s[0..1] == [48] && [48][..0] == [];
    assert Value(s[0..1], 8) == 0;
  }
}
