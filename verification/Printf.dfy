/** The output side of vsnprintf (nolibc/vsnprintf.c) and the integer conversions of printf_core
    (nolibc/vfprintf.c:166-199 and 560-626): digits, padding, and a buffer that is never overrun. */
module Printf {
  import opened Arith
  import opened CString
  import opened Glyphs
  import opened Strtol

  function Min(a: nat, b: nat): nat {
    if a < b then a else b
  }

  function Max(a: int, b: int): int {
    if a < b then b else a
  }

  function Repeat(c: byte, n: nat): (s: seq<byte>)
    ensures |s| == n
  {
    seq(n, _ => c)
  }

  /** w - l copies of c, unless the flags or the width say none. */
  function Padding(c: byte, w: int, l: int, skip: bool): seq<byte> {
    Repeat(c, if skip || l >= w then 0 else w - l)
  }

  lemma RepeatMore(c: byte, m: nat, n: nat)
    ensures Repeat(c, m) + Repeat(c, n) == Repeat(c, m + n)
  {
  }

  // ---------- the string sink of vsnprintf ----------

  /** The FILE of vsnprintf: everything written to it, and the part the buffer has room for. */
  class Sink {
    const buf: array<byte>
    const wend: nat
    var wpos: nat
    ghost var text: seq<byte>

    ghost predicate Valid()
      reads this, buf
    {
      wend <= buf.Length && wpos == Min(|text|, wend) && buf[..wpos] == text[..wpos]
    }

    constructor (b: array<byte>, n: nat)
      requires n <= b.Length
      ensures Valid() && buf == b && wend == n && text == []
    {
      buf, wend, wpos, text := b, n, 0, [];
    }

    /** sn_write: what fits is stored, all of it is reported written. */
    method Write(s: seq<byte>) returns (l: nat)
      requires Valid()
      modifies this, buf
      ensures Valid() && text == old(text) + s && l == |s|
      ensures buf[wend..] == old(buf[wend..])
    {
      var k := wend - wpos;
      if k > |s| {
        k := |s|;
      }
      forall i | 0 <= i < k {
        buf[wpos + i] := s[i];
      }
      wpos, text := wpos + k, text + s;
      assert buf[..wpos] == text[..wpos];
      l := |s|;
    }

    /** if (n) f.wpos[-(f.wpos == f.wend)] = 0 */
    method Terminate()
      requires Valid() && 0 < wend
      modifies buf
      ensures var m := Min(|text|, wend - 1); buf[..m] == text[..m] && buf[m] == 0
      ensures buf[wend..] == old(buf[wend..])
    {
      buf[if wpos == wend then wpos - 1 else wpos] := 0;
    }

    /** pad, by blocks of 256. */
    method Pad(c: byte, w: int, l: int, skip: bool)
      requires Valid() && 0 <= l
      modifies this, buf
      ensures Valid() && buf[wend..] == old(buf[wend..])
      ensures text == old(text) + Padding(c, w, l, skip)
    {
      if skip || l >= w {
        assert Repeat(c, 0) == [];
        return;
      }
      var n := w - l;
      ghost var before := text;
      var block := Repeat(c, Min(n, 256));
      while n >= 256
        invariant 0 <= n <= w - l && Valid() && text == before + Repeat(c, w - l - n)
        invariant w - l >= 256 ==> block == Repeat(c, 256)
        invariant w - l < 256 ==> n == w - l
        invariant buf[wend..] == old(buf[wend..])
      {
        RepeatMore(c, w - l - n, 256);
        var k := Write(block);
        n := n - 256;
      }
      RepeatMore(c, w - l - n, n);
      assert block[..n] == Repeat(c, n);
      var k := Write(block[..n]);
    }
  }

  // ---------- vsnprintf ----------

  const INT_MAX: nat := 0x7fff_ffff

  function Concat(writes: seq<seq<byte>>): seq<byte> {
    if writes == [] then [] else Concat(writes[..|writes| - 1]) + writes[|writes| - 1]
  }

  /** vsnprintf around any sequence of writes by the formatter: the buffer gets the first
      min(total, n-1) bytes and a terminator, no byte beyond n is touched, and a size of 0 touches
      none; r is the number of bytes asked for, -1 when the size is beyond INT_MAX. */
  method Vsnprintf(s: array<byte>, n: nat, writes: seq<seq<byte>>) returns (r: int)
    requires n <= s.Length
    modifies s
    ensures n >= 0x8000_0000 ==> r == -1 && s[..] == old(s[..])
    ensures n < 0x8000_0000 ==> r == |Concat(writes)| && s[n..] == old(s[n..])
    ensures 0 < n < 0x8000_0000 ==>
      var m := Min(|Concat(writes)|, n - 1); s[..m] == Concat(writes)[..m] && s[m] == 0
  {
    var f;
    if n == 0 || n > INT_MAX {
      if n != 0 {
        return -1;
      }
      var b := new byte[1];
      f := new Sink(b, 1);
    } else {
      f := new Sink(s, n);
    }
    r := 0;
    var i := 0;
    ghost var tail := s[n..];
    assert writes[..0] == [];
    while i < |writes|
      invariant 0 <= i <= |writes| && f.Valid() && f.text == Concat(writes[..i]) && r == |f.text|
      invariant s[n..] == tail
      modifies f, f.buf
    {
      assert writes[..i + 1][..i] == writes[..i];
      var l := f.Write(writes[i]);
      r, i := r + l, i + 1;
    }
    assert writes[..|writes|] == writes;
    f.Terminate();
  }

  // ---------- digits ----------

  /** xdigits[d]|lower, and '0' + d. */
  function DigitChar(d: nat, lower: bool): (c: byte)
    requires d < 16
  {
    if d < 10 then 48 + d else if lower then 87 + d else 55 + d
  }

  lemma CharIs(d: nat, lower: bool)
    requires d < 16
    ensures DigitChar(d, lower) == Glyph(d, lower)
  {
    Codes(d);
  }

  /** Reading a numeral gives the number back; it has no leading zero. */
  lemma NumeralValue(x: nat, b: nat, lower: bool)
    requires 2 <= b <= 36
    ensures var s := Numeral(x, b, lower);
      && Value(s, b) == x && AreDigits(s, b)
      && if x == 0 then s == [] else s != [] && s[0] != '0' as int
  {
    NumeralNone(b, lower);
    hide Numeral, Value, AreDigits, Horner, Spells;
    var ds := NumeralSpells(x, b, lower);
    ValueIsHorner(Numeral(x, b, lower), ds, b);
  }

  lemma {:induction false} NumeralLength(x: nat, b: nat, lower: bool, k: nat)
    requires 8 <= b <= 36 && x < Pow2(3 * k)
    ensures |Numeral(x, b, lower)| <= k
  {
    if x == 0 {
      NumeralNone(b, lower);
    } else {
      assert Pow2(0) == 1;
      hide *;
      EighthFits(x, b, k);
      NumeralStep(x, b, lower);
      NumeralLength(x / b, b, lower, k - 1);
    }
  }

  lemma EighthFits(x: nat, b: nat, k: nat)
    requires 8 <= b && 0 < k && x < Pow2(3 * k)
    ensures 0 <= x / b < Pow2(3 * (k - 1))
  {
    var p := Pow2(3 * (k - 1));
    Pow2Add(3 * (k - 1), 3);
    assert Pow2(3) == 8;
    hide Pow2;
    MulMono(8, b, p);
    QuotientBelow(x, p, b);
  }

  lemma QuotientBelow(x: nat, p: nat, b: nat)
    requires 0 < b && x < p * b
    ensures 0 <= x / b < p
  {
    DivModDef(x, b);
    if p <= x / b {
      MulMono(p, x / b, b);
    }
  }

  /** fmt_u, fmt_o and fmt_x: the digits of x, filled in backwards from z, none for 0; the room in front of
      z has to be enough for them. */
  method Format(x: nat, base: nat, lower: bool, buf: array<byte>, z: nat) returns (a: nat)
    requires base == 8 || base == 10 || base == 16
    requires |Numeral(x, base, lower)| <= z <= buf.Length
    modifies buf
    ensures a == z - |Numeral(x, base, lower)| && buf[a..z] == Numeral(x, base, lower)
  {
    hide *;
    NumeralNone(base, lower);
    a := z;
    var y := x;
    assert buf[a..z] == [];
    while y != 0
      invariant 0 <= y && 0 <= a <= z && Numeral(x, base, lower) == Numeral(y, base, lower) + buf[a..z]
      decreases y
    {
      NumeralStep(y, base, lower);
      CharIs(y % base, lower);
      ghost var t := buf[a..z];
      a := a - 1;
      buf[a] := DigitChar(y % base, lower);
      assert buf[a..z] == [Glyph(y % base, lower)] + t;
      y := y / base;
    }
  }

  /** A 64-bit number has at most 22 digits in any base from 8. */
  lemma AtMost22(x: nat, b: nat, lower: bool)
    requires 8 <= b <= 36 && x < 0x1_0000_0000_0000_0000
    ensures |Numeral(x, b, lower)| <= 22
  {
    hide *;
    Pow2Values();
    Pow2Mono(64, 3 * 22);
    NumeralLength(x, b, lower, 22);
  }

  // ---------- the layout of a converted integer ----------

  datatype Flags = Flags(alt: bool, zero: bool, left: bool, space: bool, plus: bool)

  /** What the tail of printf_core emits: spaces, sign or 0x, zeros to the width, zeros to the
      precision, the digits, spaces. */
  function Layout(prefix: seq<byte>, digits: seq<byte>, w: nat, p: nat, left: bool, zero: bool): seq<byte>
    requires |digits| <= p
  {
    var room: nat := if w > |prefix| + p then w - (|prefix| + p) else 0;
    Repeat(32, if left || zero then 0 else room) + prefix + Repeat(48, if zero && !left then room else 0)
    + Repeat(48, p - |digits|) + digits + Repeat(32, if left && !zero then room else 0)
  }

  /** The width is met exactly, and at most one of the three paddings is not empty; - and 0 together
      would pad nothing, which is why the conversion drops the 0. */
  lemma LayoutLength(prefix: seq<byte>, digits: seq<byte>, w: nat, p: nat, left: bool, zero: bool)
    requires |digits| <= p && !(left && zero)
    ensures |Layout(prefix, digits, w, p, left, zero)| == Max(w, |prefix| + p)
  {
  }

  /** Zeros in front do not change the number. */
  lemma {:induction false} ZerosInFront(k: nat, digits: seq<byte>, b: nat)
    ensures Value(Repeat('0' as int, k) + digits, b) == Value(digits, b)
  {
    if digits != [] {
      var n := |digits| - 1;
      ZerosInFront(k, digits[..n], b);
      assert (Repeat(48, k) + digits)[..k + n] == Repeat(48, k) + digits[..n];
    } else if k != 0 {
      ZerosInFront(k - 1, [], b);
      assert (Repeat(48, k) + [])[..k - 1] == Repeat(48, k - 1) + [];
    }
  }

  // ---------- d, i, u, o, x and X ----------

  datatype Conversion = Decimal | Unsigned | Octal | Hex(lower: bool) {
    function Base(): (b: nat)
      ensures b == 8 || b == 10 || b == 16
    {
      match this
      case Octal => 8
      case Hex(_) => 16
      case _ => 10
    }
  }

  const INTMAX_MAX: nat := 0x7fff_ffff_ffff_ffff

  /** The magnitude printed: %d reads the 64 bits as two's complement. */
  function Magnitude(t: Conversion, arg: nat): (m: nat)
    requires arg < 0x1_0000_0000_0000_0000
    ensures m < 0x1_0000_0000_0000_0000
  {
    if t.Decimal? && arg > INTMAX_MAX then 0x1_0000_0000_0000_0000 - arg else arg
  }

  /** The sign or 0x. */
  function Prefix(t: Conversion, arg: nat, fl: Flags): seq<byte> {
    match t
    case Decimal => if arg > INTMAX_MAX then [45] else if fl.plus then [43] else if fl.space then [32] else []
    case Hex(lower) => if arg != 0 && fl.alt then [48, if lower then 120 else 88] else []
    case _ => []
  }

  /** The precision, which %#o raises by a leading zero. */
  function Asked(t: Conversion, fl: Flags, p: int, count: nat): int {
    if t.Octal? && fl.alt then Max(p, count + 1) else p
  }

  /** Digits to show: the precision, or all there are, and one for a zero unless the precision is 0. */
  function Shown(arg: nat, asked: int, count: nat): (n: nat)
    ensures count <= n
  {
    if arg == 0 && asked == 0 then count else Max(asked, count + (if arg == 0 then 1 else 0))
  }

  /** The 0 flag counts only without - and without a precision; the precision %#o makes up for its
      leading zero already switches it off. */
  predicate ZeroPads(fl: Flags, asked: int) {
    fl.zero && !fl.left && asked < 0
  }

  /** What a conversion emits for the digits of its argument. */
  function Emitted(t: Conversion, arg: nat, fl: Flags, w: nat, p0: int, digits: seq<byte>): seq<byte> {
    var asked := Asked(t, fl, p0, |digits|);
    Layout(Prefix(t, arg, fl), digits, w, Shown(arg, asked, |digits|), fl.left, ZeroPads(fl, asked))
  }

  // ---------- what the standard asks for ----------

  /** The number an argument of 64 bits stands for. */
  function Meant(t: Conversion, arg: nat): int {
    if t.Decimal? && arg >= Pow2(63) then arg - Pow2(64) else arg
  }

  /** The digits of a number, none for 0. */
  function IsoDigits(t: Conversion, v: int): seq<byte> {
    var m := if v < 0 then 0 - v else v;
    match t
    case Octal => Numeral(m, 8, false)
    case Hex(lower) => Numeral(m, 16, lower)
    case _ => Numeral(m, 10, false)
  }

  /** What stands in front of them. */
  function IsoFront(t: Conversion, v: int, fl: Flags): seq<byte> {
    match t
    case Decimal =>
      if v < 0 then ['-' as int] else if fl.plus then ['+' as int] else if fl.space then [' ' as int] else []
    case Hex(lower) => if fl.alt && v != 0 then ['0' as int, if lower then 'x' as int else 'X' as int] else []
    case _ => []
  }

  /** The text of section 7.21.6.1 of ISO/IEC 9899:2011. The precision is the least number of digits, 1 if
      none is given; %#o asks for a zero in front; what is missing to the width is filled with spaces on the
      right under -, with zeros behind the sign or 0x under 0 unless a precision is given, else with spaces
      on the left. */
  function IsoText(t: Conversion, v: int, fl: Flags, w: nat, p0: int): seq<byte> {
    var front, digits := IsoFront(t, v, fl), IsoDigits(t, v);
    var least := if p0 < 0 then 1 else p0;
    var zeros: nat := if |digits| < least then least - |digits| else if t.Octal? && fl.alt then 1 else 0;
    IsoField(front, zeros, digits, w, fl.left, fl.zero && p0 < 0)
  }

  /** Filled up to the width. */
  function IsoField(front: seq<byte>, zeros: nat, digits: seq<byte>, w: nat, left: bool, zero: bool): seq<byte> {
    var room := w - (|front| + zeros + |digits|);
    if room <= 0 then front + Repeat('0' as int, zeros) + digits
    else if left then front + Repeat('0' as int, zeros) + digits + Repeat(' ' as int, room)
    else if zero then front + Repeat('0' as int, room + zeros) + digits
    else Repeat(' ' as int, room) + front + Repeat('0' as int, zeros) + digits
  }

  /** %#o with the 0 flag in force and a width that leaves something to pad. */
  predicate HashOctalPads(t: Conversion, fl: Flags, w: nat, p0: int, count: nat) {
    t.Octal? && fl.alt && fl.zero && !fl.left && p0 < 0 && w > count + 1
  }

  /** The text of a conversion: spaces in front where a padded %#o asks for zeros, because the precision
      it makes up for the leading zero counts as given; else that of the standard. */
  function ActualText(t: Conversion, v: int, fl: Flags, w: nat, p0: int): seq<byte> {
    var digits := IsoDigits(t, v);
    if HashOctalPads(t, fl, w, p0, |digits|) then Repeat(' ' as int, w - 1 - |digits|) + ['0' as int] + digits
    else IsoText(t, v, fl, w, p0)
  }

  /** The two differ wherever the zeros are asked for. */
  lemma IsoUnlessHashOctal(t: Conversion, v: int, fl: Flags, w: nat, p0: int)
    ensures ActualText(t, v, fl, w, p0) == IsoText(t, v, fl, w, p0)
      <==> !HashOctalPads(t, fl, w, p0, |IsoDigits(t, v)|)
    ensures |ActualText(t, v, fl, w, p0)| == |IsoText(t, v, fl, w, p0)|
  {
    var digits := IsoDigits(t, v);
    hide Numeral;
    if HashOctalPads(t, fl, w, p0, |digits|) {
      assert ActualText(t, v, fl, w, p0)[0] == 32 && IsoText(t, v, fl, w, p0)[0] == 48;
    }
  }

  /** The sign or 0x and the digits are those of the number meant. */
  lemma PartsMeant(t: Conversion, arg: nat, fl: Flags)
    requires arg < 0x1_0000_0000_0000_0000
    ensures Prefix(t, arg, fl) == IsoFront(t, Meant(t, arg), fl)
    ensures Numeral(Magnitude(t, arg), t.Base(), t.Hex? && t.lower) == IsoDigits(t, Meant(t, arg))
    ensures Magnitude(t, arg) == 0 <==> arg == 0
  {
    hide Numeral, Pow2;
    Pow2Values();
  }

  /** The precision of the code counts the leading zeros too. */
  lemma ShownIs(t: Conversion, arg: nat, fl: Flags, p0: int, n: nat)
    requires arg == 0 <==> n == 0
    ensures var least := if p0 < 0 then 1 else p0;
      Shown(arg, Asked(t, fl, p0, n), n) == n + if n < least then least - n else if t.Octal? && fl.alt then 1 else 0
  {
  }

  /** The five writes that may be empty are the field. */
  lemma LayoutIsField(front: seq<byte>, zeros: nat, digits: seq<byte>, w: nat, left: bool, zero: bool)
    ensures Layout(front, digits, w, zeros + |digits|, left, zero && !left) == IsoField(front, zeros, digits, w, left, zero)
  {
    var room := w - (|front| + zeros + |digits|);
    if room > 0 {
      RepeatMore(48, room, zeros);
    }
  }

  lemma HashOctalField(digits: seq<byte>, w: nat)
    requires w > |digits| + 1
    ensures IsoField([], 1, digits, w, false, false) == Repeat(32, w - 1 - |digits|) + [48] + digits
  {
  }

  lemma EmittedField(t: Conversion, arg: nat, fl: Flags, w: nat, p0: int, digits: seq<byte>, zeros: nat)
    requires Shown(arg, Asked(t, fl, p0, |digits|), |digits|) == zeros + |digits|
    ensures Emitted(t, arg, fl, w, p0, digits)
      == IsoField(Prefix(t, arg, fl), zeros, digits, w, fl.left, fl.zero && Asked(t, fl, p0, |digits|) < 0)
  {
    LayoutIsField(Prefix(t, arg, fl), zeros, digits, w, fl.left, fl.zero && Asked(t, fl, p0, |digits|) < 0);
    hide Prefix, Layout, IsoField, Shown, Asked;
  }

  lemma LayoutIs(t: Conversion, arg: nat, v: int, fl: Flags, w: nat, p0: int, digits: seq<byte>)
    requires Prefix(t, arg, fl) == IsoFront(t, v, fl) && digits == IsoDigits(t, v) && (arg == 0 <==> digits == [])
    ensures Emitted(t, arg, fl, w, p0, digits) == ActualText(t, v, fl, w, p0)
  {
    hide IsoDigits, Prefix, Shown, Layout, IsoField, Emitted, Repeat, Numeral;
    var front, n := IsoFront(t, v, fl), |digits|;
    ShownIs(t, arg, fl, p0, n);
    assert t.Octal? ==> front == [];
    hide IsoFront;
    var least := if p0 < 0 then 1 else p0;
    var zeros: nat := if n < least then least - n else if t.Octal? && fl.alt then 1 else 0;
    EmittedField(t, arg, fl, w, p0, digits, zeros);
    if HashOctalPads(t, fl, w, p0, n) {
      HashOctalField(digits, w);
    } else {
      if fl.left || w <= |front| + zeros + n {
        FieldIgnores(front, zeros, digits, w, fl.left);
      }
    }
  }

  /** The 0 flag says nothing under - or where the width is used up. */
  lemma FieldIgnores(front: seq<byte>, zeros: nat, digits: seq<byte>, w: nat, left: bool)
    requires left || w <= |front| + zeros + |digits|
    ensures IsoField(front, zeros, digits, w, left, true) == IsoField(front, zeros, digits, w, left, false)
  {
  }

  /** What is emitted is that text. */
  lemma EmittedIs(t: Conversion, arg: nat, fl: Flags, w: nat, p0: int, digits: seq<byte>)
    requires arg < 0x1_0000_0000_0000_0000 && digits == Numeral(Magnitude(t, arg), t.Base(), t.Hex? && t.lower)
    ensures Emitted(t, arg, fl, w, p0, digits) == ActualText(t, Meant(t, arg), fl, w, p0)
  {
    PartsMeant(t, arg, fl);
    NumeralValue(Magnitude(t, arg), t.Base(), t.Hex? && t.lower);
    assert arg == 0 ==> digits == [];
    hide Numeral, Pow2, Meant, Magnitude, Prefix;
    LayoutIs(t, arg, Meant(t, arg), fl, w, p0, digits);
  }

  /** "%#06o" of 8: the zeros the 0 flag asks for come out as spaces. */
  lemma HashOctalExample()
    ensures var fl := Flags(true, true, false, false, false);
      && ActualText(Octal, 8, fl, 6, -1) == [32, 32, 32, 48, 49, 48]
      && IsoText(Octal, 8, fl, 6, -1) == [48, 48, 48, 48, 49, 48]
  {
    assert Numeral(0, 8, false) == [] && Numeral(1, 8, false) == [] + [Glyph(1, false)];
    assert Numeral(8, 8, false) == Numeral(1, 8, false) + [Glyph(0, false)];
    Codes(0);
    Codes(1);
  }

  method ChoosePrefix(t: Conversion, arg0: nat, fl: Flags) returns (arg: nat, prefix: seq<byte>)
    requires arg0 < 0x1_0000_0000_0000_0000
    ensures arg == Magnitude(t, arg0) && prefix == Prefix(t, arg0, fl)
  {
    arg, prefix := arg0, [];
    match t {
      case Decimal =>
        if arg > INTMAX_MAX {
          arg, prefix := 0x1_0000_0000_0000_0000 - arg, [45];
        } else if fl.plus {
          prefix := [43];
        } else if fl.space {
          prefix := [32];
        }
      case Hex(lower) =>
        if arg != 0 && fl.alt {
          prefix := [48, if lower then 120 else 88];
        }
      case _ =>
    }
  }

  method ChoosePrecision(t: Conversion, arg: nat, fl: Flags, p0: int, count: nat) returns (p: nat, zero: bool)
    requires arg == 0 ==> count == 0
    ensures var asked := Asked(t, fl, p0, count); p == Shown(arg, asked, count) && zero == ZeroPads(fl, asked)
  {
    var n := p0;
    zero := fl.zero && !fl.left;
    if t.Octal? && fl.alt && n < count + 1 {
      n := count + 1;
    }
    if n >= 0 {
      zero := false;
    }
    if arg != 0 || n != 0 {
      n := Max(n, count + (if arg == 0 then 1 else 0));
    }
    p := Max(n, count);
  }

  /** One integer conversion of width w and precision p (negative for none): the text is the standard's,
      except for the padding of %#o. */
  method Convert(f: Sink, t: Conversion, arg0: nat, fl: Flags, w: nat, p0: int) returns (l: nat)
    requires f.Valid() && arg0 < 0x1_0000_0000_0000_0000
    modifies f, f.buf
    ensures f.Valid() && f.buf[f.wend..] == old(f.buf[f.wend..])
    ensures f.text == old(f.text) + ActualText(t, Meant(t, arg0), fl, w, p0)
    ensures l == |IsoText(t, Meant(t, arg0), fl, w, p0)|
    ensures ActualText(t, Meant(t, arg0), fl, w, p0) == IsoText(t, Meant(t, arg0), fl, w, p0)
      <==> !HashOctalPads(t, fl, w, p0, |IsoDigits(t, Meant(t, arg0))|)
  {
    hide *;
    var area := new byte[40];
    var arg, prefix := ChoosePrefix(t, arg0, fl);
    AtMost22(arg, t.Base(), t.Hex? && t.lower);
    var a := Format(arg, t.Base(), t.Hex? && t.lower, area, 40);
    PartsMeant(t, arg0, fl);
    ghost var digits := area[a..40];
    ZeroArgument(t, arg0, Asked(t, fl, p0, 40 - a), 40 - a);
    NumeralValue(arg, t.Base(), t.Hex? && t.lower);
    var p, zero := ChoosePrecision(t, arg, fl, p0, 40 - a);
    IsoUnlessHashOctal(t, Meant(t, arg0), fl, w, p0);
    EmittedIs(t, arg0, fl, w, p0, digits);
    EmittedParts(t, arg0, fl, w, p0, digits);
    l := Emit(f, prefix, area[a..40], w, p, fl.left, zero);
  }

  /** An argument and its magnitude are zero together, and show as many digits. */
  lemma ZeroArgument(t: Conversion, arg: nat, asked: int, count: nat)
    requires arg < 0x1_0000_0000_0000_0000
    ensures Magnitude(t, arg) == 0 <==> arg == 0
    ensures Shown(Magnitude(t, arg), asked, count) == Shown(arg, asked, count)
  {
  }

  lemma EmittedParts(t: Conversion, arg: nat, fl: Flags, w: nat, p0: int, digits: seq<byte>)
    ensures var asked := Asked(t, fl, p0, |digits|);
      && Emitted(t, arg, fl, w, p0, digits)
         == Layout(Prefix(t, arg, fl), digits, w, Shown(arg, asked, |digits|), fl.left, ZeroPads(fl, asked))
      && !(fl.left && ZeroPads(fl, asked))
  {
  }

  /** The six writes at the end of the conversion. */
  method Emit(f: Sink, prefix: seq<byte>, digits: seq<byte>, w0: nat, p: nat, left: bool, zero: bool) returns (l: nat)
    requires f.Valid() && |digits| <= p && !(left && zero)
    modifies f, f.buf
    ensures f.Valid() && f.buf[f.wend..] == old(f.buf[f.wend..])
    ensures f.text == old(f.text) + Layout(prefix, digits, w0, p, left, zero)
    ensures l == Max(w0, |prefix| + p) == |f.text| - |old(f.text)|
  {
    ghost var t0 := f.text;
    var pl := |prefix|;
    var w := if w0 < pl + p then pl + p else w0;
    LayoutLength(prefix, digits, w0, p, left, zero);
    ghost var s1, s2 := Padding(32, w, pl + p, left || zero), Padding(48, w, pl + p, left || !zero);
    ghost var s3, s4 := Padding(48, p, |digits|, false), Padding(32, w, pl + p, !left || zero);
    assert Layout(prefix, digits, w0, p, left, zero) == s1 + prefix + s2 + s3 + digits + s4;
    hide *;
    f.Pad(32, w, pl + p, left || zero);
    var k := f.Write(prefix);
    f.Pad(48, w, pl + p, left || !zero);
    f.Pad(48, p, |digits|, false);
    k := f.Write(digits);
    f.Pad(32, w, pl + p, !left || zero);
    SixParts(t0, s1, prefix, s2, s3, digits, s4);
    l := w;
  }

  lemma SixParts(t: seq<byte>, a: seq<byte>, b: seq<byte>, c: seq<byte>, d: seq<byte>, e: seq<byte>, f: seq<byte>)
    ensures t + a + b + c + d + e + f == t + (a + b + c + d + e + f)
  {
  }

  // ---------- printing and reading back ----------

  predicate IsSign(c: byte) {
    c == 45 || c == 43 || c == 32
  }

  /** Padding before a, a sign in front of `from` if it is not a, digits to `to`, padding to the end. */
  ghost predicate IsNumberText(s: seq<byte>, a: nat, from: nat, to: nat) {
    && IsCString(s) && a <= from <= a + 1 && from <= to < |s|
    && (forall i | 0 <= i < a :: s[i] == 32)
    && (from == a + 1 ==> IsSign(s[a]))
    && (forall i | from <= i < to :: 48 <= s[i] <= 57)
    && (forall i | to <= i < |s| - 1 :: s[i] == 32)
  }

  ghost function Number(s: seq<byte>, a: nat, from: nat, to: nat): int
    requires IsNumberText(s, a, from, to)
  {
    Signed(from == a + 1 && s[a] == 45, Value(s[from..to], 10))
  }

  lemma SkipsTo(s: seq<byte>, i: nat, j: nat)
    requires IsCString(s) && i <= j < |s| && !IsSpace(s[j]) && forall k | i <= k < j :: IsSpace(s[k])
    ensures SkipSpace(s, i) == j
  {
  }

  /** strtol's white space, sign and digits are the padding, the sign and the digits of the text. */
  lemma ReadsDigits(s: seq<byte>, a: nat, from: nat, to: nat)
    requires IsNumberText(s, a, from, to) && from < to
    ensures HeadOf(s, 10) == Head(from == a + 1 && s[a] == 45, 10, from) && IsRun(s, 10, from, to)
  {
    SkipsTo(s, 0, if from == a + 1 && s[a] != 32 then a else from);
    forall i | 0 <= i < to - from ensures Digit(s[from..to][i]) < 10 {
      assert s[from..to][i] == s[from + i];
    }
  }

  lemma DecimalDigit(c: byte)
    requires Digit(c) < 10
    ensures 48 <= c <= 57
  {
  }

  /** Without digits there is nothing to read. */
  lemma ReadsNothing(s: seq<byte>, a: nat, from: nat, to: nat)
    requires IsNumberText(s, a, from, from) && IsRun(s, 10, HeadOf(s, 10).from, to)
    ensures to == HeadOf(s, 10).from
  {
    var start := HeadOf(s, 10).from;
    RunDigits(s, 10, start, to);
    if start < to {
      DecimalDigit(s[start]);
    }
  }

  /** The number in the text is read, to the end of its digits. */
  lemma ReadsNumber(s: seq<byte>, a: nat, from: nat, to0: nat, q: Strtol.Outcome, to: nat)
    requires IsNumberText(s, a, from, to0) && IsAnswer(s, 10, to, q)
    ensures q.acc == Clamp(Number(s, a, from, to0)) && (q.range <==> q.acc != Number(s, a, from, to0))
    ensures q.end == if from < to0 then to0 else 0
  {
    if from < to0 {
      ReadsDigits(s, a, from, to0);
      hide IsNumberText, HeadOf;
      OneRun(s, 10, from, to, to0);
    } else {
      ReadsNothing(s, a, from, to);
      hide IsNumberText, HeadOf;
      assert s[to..to] == [] && s[from..to0] == [];
    }
  }

  /** The 64 bits that hold v. */
  function TwosComplement(v: int): (u: nat)
    requires LONG_MIN <= v <= LONG_MAX
    ensures u < 0x1_0000_0000_0000_0000
  {
    if v < 0 then v + 0x1_0000_0000_0000_0000 else v
  }

  /** The parts of a layout. */
  lemma LayoutIsNumberText(prefix: seq<byte>, digits: seq<byte>, w: nat, p: nat, left: bool, zero: bool)
    returns (a: nat, from: nat, to: nat)
    requires |digits| <= p && |prefix| <= 1 && (prefix != [] ==> IsSign(prefix[0])) && AreDigits(digits, 10)
    ensures var s := Layout(prefix, digits, w, p, left, zero) + [0];
      && IsNumberText(s, a, from, to) && Value(s[from..to], 10) == Value(digits, 10)
      && (prefix == [45] <==> from == a + 1 && s[a] == 45)
    ensures p > 0 ==> from < to
  {
    hide *;
    var b, d;
    a, b, d := LayoutParts(prefix, digits, w, p, left, zero);
    var s, mid := Layout(prefix, digits, w, p, left, zero) + [0], Repeat(48, b) + digits;
    from, to := a + |prefix|, a + |prefix| + |mid|;
    LastPart(Repeat(32, a) + prefix + mid, Repeat(32, d));
    DecimalDigits(b, digits);
    PartsAreNumberText(s, a, prefix, mid, d);
    ZerosInFront(b, digits, 10);
  }

  lemma LastPart(a: seq<byte>, b: seq<byte>)
    ensures a + b + [0] == a + (b + [0])
  {
  }

  lemma LayoutParts(prefix: seq<byte>, digits: seq<byte>, w: nat, p: nat, left: bool, zero: bool)
    returns (a: nat, b: nat, d: nat)
    requires |digits| <= p
    ensures Layout(prefix, digits, w, p, left, zero) == Repeat(32, a) + prefix + (Repeat(48, b) + digits) + Repeat(32, d)
    ensures b + |digits| >= p
  {
    var room: nat := if w > |prefix| + p then w - (|prefix| + p) else 0;
    var b1: nat, b2: nat := if zero && !left then room else 0, p - |digits|;
    a, b, d := if left || zero then 0 else room, b1 + b2, if left && !zero then room else 0;
    var l := Layout(prefix, digits, w, p, left, zero);
    assert l == Repeat(32, a) + prefix + Repeat(48, b1) + Repeat(48, b2) + digits + Repeat(32, d);
    hide *;
    RepeatMore(48, b1, b2);
    Regroup(Repeat(32, a), prefix, Repeat(48, b1), Repeat(48, b2), digits, Repeat(32, d));
  }

  lemma Regroup(a: seq<byte>, b: seq<byte>, c: seq<byte>, d: seq<byte>, e: seq<byte>, f: seq<byte>)
    ensures a + b + c + d + e + f == a + b + (c + d + e) + f
  {
  }

  lemma DecimalDigits(b: nat, digits: seq<byte>)
    requires AreDigits(digits, 10)
    ensures forall i | 0 <= i < b + |digits| :: 48 <= (Repeat(48, b) + digits)[i] <= 57
  {
    forall i | 0 <= i < |digits| ensures 48 <= digits[i] <= 57 {
      DecimalDigit(digits[i]);
    }
  }

  lemma PartsAreNumberText(s: seq<byte>, a: nat, prefix: seq<byte>, mid: seq<byte>, d: nat)
    requires s == Repeat(32, a) + prefix + mid + (Repeat(32, d) + [0])
    requires |prefix| <= 1 && (prefix != [] ==> IsSign(prefix[0])) && forall i | 0 <= i < |mid| :: 48 <= mid[i] <= 57
    ensures var from, to := a + |prefix|, a + |prefix| + |mid|;
      && IsNumberText(s, a, from, to) && s[from..to] == mid
      && (prefix == [45] <==> from == a + 1 && s[a] == 45)
  {
    var from, to := a + |prefix|, a + |prefix| + |mid|;
    assert |s| == to + d + 1 && s[|s| - 1] == 0;
    assert forall i | from <= i < to :: s[i] == mid[i - from];
    assert forall i | to <= i < |s| - 1 :: s[i] == 32;
    assert prefix != [] ==> s[a] == prefix[0];
  }

  lemma MeansItself(v: int)
    requires LONG_MIN <= v <= LONG_MAX
    ensures Meant(Decimal, TwosComplement(v)) == v
  {
    hide Pow2;
    Pow2Values();
  }

  /** The text of %d for v is a text of the number v. */
  lemma PrintsNumber(v: int, fl: Flags, w: nat, p0: int) returns (a: nat, from: nat, to: nat)
    requires LONG_MIN <= v <= LONG_MAX
    ensures var s := ActualText(Decimal, v, fl, w, p0) + [0];
      IsNumberText(s, a, from, to) && Number(s, a, from, to) == v
    ensures v != 0 || p0 != 0 ==> from < to
  {
    hide Numeral, Value, AreDigits, ActualText, Layout, IsNumberText;
    var arg, digits := TwosComplement(v), IsoDigits(Decimal, v);
    var prefix, p := Prefix(Decimal, arg, fl), Shown(arg, p0, |digits|);
    SignOf(v, fl);
    MeansItself(v);
    PartsMeant(Decimal, arg, fl);
    NumeralValue(Magnitude(Decimal, arg), 10, false);
    assert v != 0 || p0 != 0 ==> 0 < p;
    EmittedIs(Decimal, arg, fl, w, p0, digits);
    a, from, to := LayoutIsNumberText(prefix, digits, w, p, fl.left, ZeroPads(fl, p0));
  }

  lemma SignOf(v: int, fl: Flags)
    requires LONG_MIN <= v <= LONG_MAX
    ensures var prefix := Prefix(Decimal, TwosComplement(v), fl);
      |prefix| <= 1 && (prefix != [] ==> IsSign(prefix[0])) && (v < 0 <==> prefix == [45])
  {
  }

  /** strtol reads back what %d printed, for every long, any flags, width and precision: the value,
      without a range error, up to the padding on the right. r is None if the text did not fit. */
  method PrintAndRead(v: int, fl: Flags, w: nat, p0: int, buf: array<byte>) returns (l: nat, r: Option<Strtol.Outcome>)
    requires LONG_MIN <= v <= LONG_MAX && 0 < buf.Length
    modifies buf
    ensures r.None? <==> buf.Length <= l
    ensures r.Some? ==> r.value.Parsed? && r.value.acc == v && !r.value.range
    ensures r.Some? && (v != 0 || p0 != 0) ==> 0 < r.value.end <= l && forall i | r.value.end <= i < l :: buf[i] == 32
  {
    l := PrintDecimal(v, fl, w, p0, buf);
    if buf.Length <= l {
      return l, None;
    }
    ghost var s := buf[..l + 1];
    ghost var a, from, to := PrintsNumber(v, fl, w, p0);
    hide *;
    var q := ReadBack(buf[..l + 1], a, from, to, v);
    assert forall i | to <= i < l :: buf[i] == s[i];
    r := Some(q);
  }

  /** strtol on the text of a number. */
  method ReadBack(s: seq<byte>, ghost a: nat, ghost from: nat, ghost to: nat, ghost v: int) returns (q: Strtol.Outcome)
    requires LONG_MIN <= v <= LONG_MAX && IsNumberText(s, a, from, to) && Number(s, a, from, to) == v
    ensures q.Parsed? && q.acc == v && !q.range
    ensures from < to ==> 0 < q.end == to < |s| && forall i | to <= i < |s| - 1 :: s[i] == 32
  {
    assert IsCString(s) && from <= to < |s| && (forall i | to <= i < |s| - 1 :: s[i] == 32) && Clamp(v) == v;
    ghost var t;
    hide *;
    q, t := Strtol.Strtol(s, 10);
    ReadsNumber(s, a, from, to, q, t.to);
  }

  method PrintDecimal(v: int, fl: Flags, w: nat, p0: int, buf: array<byte>) returns (l: nat)
    requires LONG_MIN <= v <= LONG_MAX && 0 < buf.Length
    modifies buf
    ensures l == |ActualText(Decimal, v, fl, w, p0)|
    ensures l < buf.Length ==> buf[..l + 1] == ActualText(Decimal, v, fl, w, p0) + [0]
  {
    var f := new Sink(buf, buf.Length);
    hide IsoText, ActualText, Meant;
    MeansItself(v);
    IsoUnlessHashOctal(Decimal, v, fl, w, p0);
    l := Convert(f, Decimal, TwosComplement(v), fl, w, p0);
    f.Terminate();
    assert f.text == ActualText(Decimal, v, fl, w, p0);
  }
}
