/** gethex of nolibc/dtoa.c:2918-3074: a hexadecimal literal of any length, correctly rounded
    to double by keeping the leading bits and two bits about what was cut off. */
module GetHex {
  import opened Arith
  import opened Words
  import opened BigintPool
  import opened BigintOps
  import opened BigintShift
  import opened Quorem
  import opened Dshift
  import opened Double
  import opened Glyphs

  const NBITS := 53
  /** Exponents of the last place: of the largest finite double, and of the subnormals. */
  const EMAX := 971
  const EMIN := -1074

  // ---------- sticky bits ----------

  /** The bit below the cut and the bits below that place the remainder. */
  lemma PositionOfBits(v: nat, n: nat)
    requires 1 <= n
    ensures var rem := v % Pow2(n);
            Position(rem, Pow2(n)) ==
              if rem == 0 then 0
              else if (v / Pow2(n - 1)) % 2 == 0 then 1
              else if v % Pow2(n - 1) == 0 then 2 else 3
  {
    var h := Pow2(n - 1);
    BitAndRest(v, h);
    assert Pow2(n) == 2 * h;
  }

  /** The remainder by 2h is the remainder by h and the bit above it. */
  lemma BitAndRest(v: nat, h: nat)
    requires 0 < h
    ensures v % (2 * h) == (v / h) % 2 * h + v % h && v / (2 * h) == v / h / 2
  {
    var q, r := v / h, v % h;
    DivModDef(v, h);
    assert q == 2 * (q / 2) + q % 2;
    Distribute(2 * (q / 2), q % 2, h);
    Assoc(q / 2, 2, h);
    if q % 2 == 0 {
      DivModUnique(v, 2 * h, q / 2, r);
    } else {
      DivModUnique(v, 2 * h, q / 2, h + r);
    }
  }

  /** Cutting n more bits: what had been lost only makes the rest sticky. */
  function LostAgain(m: nat, lost: nat, n: nat): nat
    requires 1 <= n
  {
    (if lost != 0 || m % Pow2(n - 1) != 0 then 1 else 0) + 2 * ((m / Pow2(n - 1)) % 2)
  }

  lemma LostBit(m: nat, lost: nat, n: nat, bit: nat, rest: nat, r: nat, p: nat)
    requires 1 <= n && bit == m / Pow2(n - 1) % 2 && rest == m % Pow2(n - 1) && lost == Position(r, p)
    ensures LostAgain(m, lost, n) == (if r != 0 || rest != 0 then 1 else 0) + 2 * bit
  {
    hide Pow2;
  }

  lemma SplitAgain(a: nat, p: nat, m: nat, lost: nat, n: nat, w: nat)
    requires Split(a, p, m, lost) && 1 <= n && w == p * Pow2(n)
    ensures 0 <= m / Pow2(n) && Split(a, w, m / Pow2(n), LostAgain(m, lost, n))
  {
    var h, r := Pow2(n - 1), a % p;
    Pow2Next(n - 1);
    assert 0 < p && m == a / p && lost == Position(r, p);
    DivModDef(a, p);
    hide *;
    DivDiv(a, p, 2 * h);
    QuotientFits(m, 2 * h);
    BitAndRest(m, h);
    var bit, rest := (m / h) % 2, m % h;
    DivModDef(m, h);
    LostBit(m, lost, n, bit, rest, r, p);
    DivModDef(m, 2 * h);
    CutRemainder(a, p, m, 2 * h, bit * h + rest, r);
    CutPosition(bit, h, rest, p, r);
    IsSplit(a, w, m / (2 * h), LostAgain(m, lost, n));
  }

  lemma IsSplit(v: nat, u: nat, m: nat, lost: nat)
    requires 0 < u && m == v / u && lost == Position(v % u, u)
    ensures Split(v, u, m, lost)
  {
  }

  lemma CutRemainder(a: nat, p: nat, m: nat, w: nat, low: nat, r: nat)
    requires a == m * p + r && r < p && 0 < w && m == m / w * w + low && low < w
    ensures a % (p * w) == low * p + r
  {
    Distribute(m / w * w, low, p);
    Assoc(m / w, w, p);
    MulMono(low + 1, w, p);
    Distribute(low, 1, p);
    DivModUnique(a, p * w, m / w, low * p + r);
  }

  lemma CutPosition(bit: nat, h: nat, rest: nat, p: nat, r: nat)
    requires bit <= 1 && rest < h && r < p
    ensures Position((bit * h + rest) * p + r, p * (2 * h)) == (if r != 0 || rest != 0 then 1 else 0) + 2 * bit
  {
    var low := rest * p + r;
    MulMono(rest + 1, h, p);
    Distribute(rest, 1, p);
    Distribute(bit * h, rest, p);
    Assoc(p, 2, h);
    if rest != 0 {
      MulMono(1, rest, p);
    }
    assert low < h * p && (low == 0 <==> rest == 0 && r == 0);
    assert bit == 0 ==> (bit * h + rest) * p + r == low;
    assert bit == 1 ==> (bit * h + rest) * p + r == h * p + low;
  }

  // ---------- reading bits of a Bigint ----------

  /** Bit k of the number is bit k mod 32 of word k / 32. */
  lemma BitOfWord(s: seq<word>, k: nat)
    requires k / 32 < |s|
    ensures (Val(s) / Pow2(k)) % 2 == (s[k / 32] / Pow2(k % 32)) % 2
  {
    hide Val, Weight, Pow2;
    var n, j := k / 32, k % 32;
    var t := s[n..];
    DropWords(s, n, j);
    ValSplit(t, 1);
    SingleWord(t[..1]);
    WeightNext(0);
    WordHalves(j);
    HighWordsKeepBit(t[0], Val(t[1..]), Pow2(31 - j), Pow2(j));
  }

  lemma WordHalves(j: nat)
    requires j < 32
    ensures BASE == 2 * Pow2(31 - j) * Pow2(j)
  {
    Pow2Add(32 - j, j);
    Pow2Values();
  }

  lemma HighWordsKeepBit(x: nat, h: nat, c: nat, p: nat)
    requires 0 < p
    ensures ((x + h * (2 * c * p)) / p) % 2 == (x / p) % 2
  {
    Assoc(h, 2 * c, p);
    Assoc(h, 2, c);
    DivModDef(x, p);
    Distribute(h * (2 * c), x / p, p);
    DivModUnique(x + h * (2 * c * p), p, h * (2 * c) + x / p, x % p);
    DropMultiple(h * c, x / p, 2);
  }

  /** x[k>>kshift] & 1<<(k & kmask). */
  method TestBit(b: Bigint, k: nat) returns (on: bool)
    requires b.Valid() && k / 32 < b.wds
    ensures on <==> (b.Value() / Pow2(k)) % 2 == 1
  {
    hide Val;
    BitOfWord(b.x[..b.wds], k);
    on := (b.x[k / 32] / Pow2(k % 32)) % 2 == 1;
  }

  /** What the n low bits about to be shifted out amount to. */
  method LostBits(b: Bigint, n: nat) returns (lost: nat)
    requires b.Valid() && 1 <= n && (n - 1) / 32 < b.wds
    ensures lost == Position(b.Value() % Pow2(n), Pow2(n))
  {
    hide Val, Pow2;
    PositionOfBits(b.Value(), n);
    lost := 0;
    var any := AnyOn(b, n);
    if any {
      lost := 1;
      var bit := TestBit(b, n - 1);
      if bit {
        lost := 2;
        var below := AnyOn(b, n - 1);
        if n - 1 > 0 && below {
          lost := 3;
        }
        OddQuotient(b.Value(), Pow2(n - 1));
        if n == 1 {
          ModPow0(b.Value());
        }
      }
    }
  }

  lemma OddQuotient(v: nat, p: nat)
    requires 0 < p
    ensures (v / p) % 2 == 0 || (v / p) % 2 == 1
  {
  }

  lemma ModPow0(v: nat)
    ensures v % Pow2(0) == 0
  {
    assert Pow2(0) == 1;
  }

  // ---------- the digits ----------

  ghost predicate IsHexDigit(c: nat) {
    '0' as int <= c <= '9' as int || 'a' as int <= c <= 'f' as int || 'A' as int <= c <= 'F' as int
  }

  /** hexdig[c] & 0x0f. */
  function HexDigit(c: nat): (d: nat)
    ensures IsHexDigit(c) ==> d < 16
  {
    if c <= '9' as int then if c >= '0' as int then c - '0' as int else 0
    else if c <= 'F' as int then if c >= 'A' as int then c - 'A' as int + 10 else 0
    else if 'a' as int <= c <= 'f' as int then c - 'a' as int + 10 else 0
  }

  /** The number the hexadecimal digits of s[lo..hi) write, the point skipped. */
  function HexVal(s: seq<nat>, lo: nat, hi: nat): nat
    requires lo <= hi <= |s|
    decreases hi - lo
  {
    if lo == hi then 0
    else if s[hi - 1] == '.' as int then HexVal(s, lo, hi - 1)
    else HexVal(s, lo, hi - 1) * 16 + HexDigit(s[hi - 1])
  }

  ghost predicate IsHexNumber(s: seq<nat>, lo: nat, hi: nat) {
    && lo < hi <= |s|
    && (forall i | lo <= i < hi :: IsHexDigit(s[i]) || s[i] == '.' as int)
    && IsHexDigit(s[lo]) && HexDigit(s[lo]) != 0
  }

  /** The digits are the 22 characters, each with its place in the alphabet. */
  lemma HexDigitIs(c: nat, d: nat)
    requires d < 16
    ensures IsHexDigit(c) && HexDigit(c) == d <==> Writes(c, d)
  {
    Codes(d);
  }

  /** The characters other than points. */
  function WithoutPoints(s: seq<nat>): seq<nat> {
    if s == [] then []
    else WithoutPoints(s[..|s| - 1]) + if s[|s| - 1] == '.' as int then [] else [s[|s| - 1]]
  }

  lemma WithoutPointsStep(s: seq<nat>, lo: nat, hi: nat)
    requires lo < hi <= |s|
    ensures WithoutPoints(s[lo..hi]) == WithoutPoints(s[lo..hi - 1]) + if s[hi - 1] == '.' as int then [] else [s[hi - 1]]
  {
    assert s[lo..hi][..hi - 1 - lo] == s[lo..hi - 1];
  }

  lemma HexValStep(s: seq<nat>, lo: nat, hi: nat)
    requires lo < hi <= |s|
    ensures HexVal(s, lo, hi) == if s[hi - 1] == '.' as int then HexVal(s, lo, hi - 1)
                                 else HexVal(s, lo, hi - 1) * 16 + HexDigit(s[hi - 1])
  {
    hide HexDigit;
  }

  lemma NothingSpelled(s: seq<nat>, lo: nat, ds: seq<nat>)
    requires lo <= |s| && Spells(WithoutPoints(s[lo..lo]), ds, 16)
    ensures HexVal(s, lo, lo) == Horner(ds, 16) == 0
  {
  }

  /** The number written is the one the characters spell in base 16. */
  lemma {:induction false} HexValIs(s: seq<nat>, lo: nat, hi: nat, ds: seq<nat>)
    requires lo <= hi <= |s| && Spells(WithoutPoints(s[lo..hi]), ds, 16)
    ensures HexVal(s, lo, hi) == Horner(ds, 16)
    decreases hi - lo
  {
    hide *;
    if lo == hi {
      NothingSpelled(s, lo, ds);
    } else {
      var c, t := s[hi - 1], WithoutPoints(s[lo..hi - 1]);
      WithoutPointsStep(s, lo, hi);
      HexValStep(s, lo, hi);
      if c == '.' as int {
        assert t + [] == t;
        HexValIs(s, lo, hi - 1, ds);
      } else {
        SpellsLast(t, c, ds);
        HexValIs(s, lo, hi - 1, ds[..|t|]);
        HexDigitIs(c, ds[|t|]);
        HornerPush(ds[..|t|], ds[|t|], 16);
        assert ds == ds[..|t|] + [ds[|t|]];
      }
    }
  }

  lemma SpellsLast(t: seq<nat>, c: nat, ds: seq<nat>)
    requires Spells(t + [c], ds, 16)
    ensures |ds| == |t| + 1 && Spells(t, ds[..|t|], 16) && ds[|t|] < 16 && Writes(c, ds[|t|])
  {
    hide Writes;
    assert forall i | 0 <= i < |t| :: (t + [c])[i] == t[i];
    assert (t + [c])[|t|] == c;
  }

  lemma NotAPoint(c: nat, d: nat)
    requires Writes(c, d)
    ensures c != '.' as int
  {
    Codes(d);
  }

  lemma {:induction false} NoPoints(s: seq<nat>, ds: seq<nat>)
    requires Spells(s, ds, 16)
    ensures WithoutPoints(s) == s && forall i | 0 <= i < |s| :: s[i] != '.' as int
  {
    hide Writes;
    if s != [] {
      var n := |s| - 1;
      NoPoints(s[..n], ds[..n]);
      NotAPoint(s[n], ds[n]);
      assert s == s[..n] + [s[n]];
    }
  }

  /** A numeral in base 16 is a literal that reads as the number. */
  lemma NumeralIsHex(x: nat, lower: bool)
    requires 0 < x
    ensures var s := Numeral(x, 16, lower); IsHexNumber(s, 0, |s|) && HexVal(s, 0, |s|) == x
  {
    var s := Numeral(x, 16, lower);
    hide Numeral, WithoutPoints, HexVal, Horner;
    var ds := NumeralSpells(x, 16, lower);
    NoPoints(s, ds);
    assert s[0..|s|] == s;
    HexValIs(s, 0, |s|, ds);
    forall i | 0 <= i < |s| ensures IsHexDigit(s[i]) && HexDigit(s[i]) == ds[i] {
      HexDigitIs(s[i], ds[i]);
    }
  }

  /** Digits are packed from the right: `x` and the n low bits of `l` hold those from `j` on. */
  ghost predicate Packed(s: seq<nat>, lo: nat, hi: nat, j: nat, x: seq<word>, l: nat, n: nat) {
    && lo <= j <= hi <= |s| && n <= 32 && n % 4 == 0 && l < Pow2(n)
    && HexVal(s, lo, hi) == HexVal(s, lo, j) * Pow2(32 * |x| + n) + (Val(x) + l * Weight(|x|))
  }

  lemma PackPoint(s: seq<nat>, lo: nat, hi: nat, j: nat, x: seq<word>, l: nat, n: nat)
    requires Packed(s, lo, hi, j, x, l, n) && lo < j && s[j - 1] == '.' as int
    ensures Packed(s, lo, hi, j - 1, x, l, n)
  {
  }

  lemma PackWord(s: seq<nat>, lo: nat, hi: nat, j: nat, x: seq<word>, l: word)
    requires Packed(s, lo, hi, j, x, l, 32)
    ensures Packed(s, lo, hi, j, x + [l], 0, 0)
  {
    ValPush(x, l);
    assert Pow2(0) == 1;
    hide Pow2, Val, HexVal, Weight;
  }

  lemma PackDigit(s: seq<nat>, lo: nat, hi: nat, j: nat, x: seq<word>, l: nat, n: nat, d: nat)
    requires Packed(s, lo, hi, j, x, l, n) && lo < j && n < 32
    requires IsHexDigit(s[j - 1]) && s[j - 1] != '.' as int && d == HexDigit(s[j - 1])
    ensures Packed(s, lo, hi, j - 1, x, l + d * Pow2(n), n + 4) && d < 16
  {
    PackDigitValue(s, lo, hi, j, x, l, n, d);
    DigitFits(l, d, Pow2(n));
    Pow2Plus4(n);
    hide Pow2, Val, HexVal, Weight, HexDigit, IsHexDigit;
  }

  lemma PackDigitValue(s: seq<nat>, lo: nat, hi: nat, j: nat, x: seq<word>, l: nat, n: nat, d: nat)
    requires Packed(s, lo, hi, j, x, l, n) && lo < j && n < 32
    requires IsHexDigit(s[j - 1]) && s[j - 1] != '.' as int && d == HexDigit(s[j - 1])
    ensures HexVal(s, lo, hi) ==
      HexVal(s, lo, j - 1) * Pow2(32 * |x| + (n + 4)) + (Val(x) + (l + d * Pow2(n)) * Weight(|x|))
  {
    assert HexVal(s, lo, j) == HexVal(s, lo, j - 1) * 16 + d;
    var h, p, q, w, v := HexVal(s, lo, j - 1), Pow2(32 * |x| + n), Pow2(n), Weight(|x|), Val(x);
    assert p == q * w by {
      Pow2Add(n, 32 * |x|);
    }
    Pow2Plus4(32 * |x| + n);
    assert Pow2(32 * |x| + (n + 4)) == p * 16;
    var total := HexVal(s, lo, hi);
    assert total == (h * 16 + d) * p + (v + l * w);
    hide *;
    PackValue(h, d, p, v, l, w, q);
  }

  lemma Pow2Plus4(n: nat)
    ensures Pow2(n + 4) == Pow2(n) * 16
  {
    Pow2Add(n, 4);
    assert Pow2(4) == 16;
  }

  lemma PackValue(h: nat, d: nat, p: nat, v: nat, l: nat, w: nat, q: nat)
    requires p == q * w
    ensures (h * 16 + d) * p + (v + l * w) == h * (p * 16) + (v + (l + d * q) * w)
  {
    Distribute(h * 16, d, p);
    Assoc(h, 16, p);
    Distribute(l, d * q, w);
    Assoc(d, q, w);
  }

  lemma DigitFits(l: nat, d: nat, q: nat)
    requires l < q && d < 16
    ensures l + d * q < q * 16
  {
    MulMono(d + 1, 16, q);
    Distribute(d, 1, q);
  }

  /** The block size for n hexadecimal digits, eight to a word. */
  method BlockForHex(count: nat) returns (k: nat)
    requires 1 <= count
    ensures count <= 8 * Pow2(k) && (k > 0 ==> 8 * Pow2(k - 1) < count)
  {
    var n := count - 1;
    k := 0;
    assert Pow2(0) == 1;
    while n > 7
      invariant n * Pow2(k) <= count - 1 < (n + 1) * Pow2(k) && (k > 0 ==> 8 * Pow2(k - 1) < count)
    {
      HalveBlocks(n, k);
      MulMono(8, n, Pow2(k));
      n := n / 2;
      k := k + 1;
    }
    MulMono(n + 1, 8, Pow2(k));
  }

  lemma HalveBlocks(n: nat, k: nat)
    ensures (n + 1) * Pow2(k) <= (n / 2 + 1) * Pow2(k + 1) && n / 2 * Pow2(k + 1) <= n * Pow2(k)
  {
    MulMono(n + 1, (n / 2 + 1) * 2, Pow2(k));
    Assoc(n / 2 + 1, 2, Pow2(k));
    MulMono(n / 2 * 2, n, Pow2(k));
    Assoc(n / 2, 2, Pow2(k));
  }

  lemma PackedStart(s: seq<nat>, lo: nat, hi: nat)
    requires lo <= hi <= |s|
    ensures Packed(s, lo, hi, hi, [], 0, 0)
  {
    assert Pow2(0) == 1;
  }

  lemma PackedFits(s: seq<nat>, lo: nat, hi: nat, j: nat, x: seq<word>, l: nat, n: nat)
    requires Packed(s, lo, hi, j, x, l, n)
    ensures l < BASE
  {
    Pow2Mono(n, 32);
    Pow2Values();
  }

  lemma PackedEnd(s: seq<nat>, lo: nat, hi: nat, x: seq<word>, l: word, n: nat)
    requires Packed(s, lo, hi, lo, x, l, n)
    ensures Val(x + [l]) == HexVal(s, lo, hi)
  {
    ValPush(x, l);
  }

  /** Packs one character, storing the word first when it is full. */
  method PackTurn(c: array<word>, cnt0: nat, l0: nat, n0: nat, s: seq<nat>, ghost lo: nat, ghost hi: nat, j: nat)
    returns (cnt: nat, l: nat, n: nat)
    requires lo < j <= hi <= |s| && cnt0 < c.Length && n0 <= 32 && n0 % 4 == 0
    requires Packed(s, lo, hi, j, c[..cnt0], l0, n0)
    requires IsHexDigit(s[j - 1]) || s[j - 1] == '.' as int
    requires n0 == 32 ==> cnt0 + 1 < c.Length
    modifies c
    ensures cnt < c.Length && n <= 32 && n % 4 == 0 && 32 * cnt + n <= 32 * cnt0 + n0 + 4
    ensures Packed(s, lo, hi, j - 1, c[..cnt], l, n)
    ensures s[j - 1] != '.' as int && HexDigit(s[j - 1]) != 0 ==> 0 < l
  {
    hide Packed, Pow2, HexVal, Val, HexDigit, IsHexDigit;
    cnt, l, n := cnt0, l0, n0;
    if s[j - 1] == '.' as int {
      PackPoint(s, lo, hi, j, c[..cnt], l, n);
      return;
    }
    if n == 32 {
      PackedFits(s, lo, hi, j, c[..cnt], l, n);
      PackWord(s, lo, hi, j, c[..cnt], l);
      cnt := StoreWord(c, cnt, l);
      l, n := 0, 0;
    }
    var d := HexDigit(s[j - 1]);
    PackDigit(s, lo, hi, j, c[..cnt], l, n, d);
    NonzeroShift(d, n);
    l := l + d * Pow2(n); // the OR of bits above those already there
    n := n + 4;
  }

  /** Packs the digits into words from the right, skipping the point. */
  method PackWords(c: array<word>, s: seq<nat>, lo: nat, hi: nat) returns (cnt: nat)
    requires IsHexNumber(s, lo, hi) && hi - lo <= 8 * c.Length
    modifies c
    ensures 1 <= cnt <= c.Length && c[cnt - 1] != 0 && Val(c[..cnt]) == HexVal(s, lo, hi)
  {
    var j, l: nat, n: nat := hi, 0, 0;
    cnt := 0;
    PackedStart(s, lo, hi);
    assert c[..0] == [];
    assert s[lo] != '.' as int && HexDigit(s[lo]) != 0;
    hide Packed, Pow2, HexVal, Val, HexDigit, IsHexDigit;
    while j > lo
      invariant lo <= j <= hi && n <= 32 && n % 4 == 0 && 32 * cnt + n <= 4 * (hi - j) && cnt < c.Length
      invariant Packed(s, lo, hi, j, c[..cnt], l, n)
      invariant j < hi && s[j] != '.' as int && HexDigit(s[j]) != 0 ==> 0 < l
    {
      cnt, l, n := PackTurn(c, cnt, l, n, s, lo, hi, j);
      j := j - 1;
    }
    PackedFits(s, lo, hi, lo, c[..cnt], l, n);
    PackedEnd(s, lo, hi, c[..cnt], l, n);
    cnt := StoreWord(c, cnt, l);
  }

  /** *x++ = L. */
  method StoreWord(c: array<word>, cnt: nat, l: word) returns (next: nat)
    requires cnt < c.Length
    modifies c
    ensures next == cnt + 1 && c[..next] == old(c[..cnt]) + [l]
  {
    c[cnt] := l;
    next := cnt + 1;
  }

  lemma NonzeroShift(d: nat, n: nat)
    ensures d != 0 ==> 0 < d * Pow2(n)
  {
    if d != 0 {
      MulMono(1, d, Pow2(n));
    }
  }

  /** Shifting left or right until exactly 53 bits are left: a/p is the literal in units of the
      new last place, and `lost` what fell off. */
  ghost predicate Normalized(d: nat, e0: int, m: nat, e: int, lost: nat, a: nat, p: nat) {
    && HIDDEN <= m < 2 * HIDDEN && Split(a, p, m, lost)
    && (if e0 <= e then a == d && p == Pow2(e - e0) else a == d * Pow2(e0 - e) && p == 1)
  }

  /** Keeps the leading 53 of n bits. */
  method CutRight(b: Bigint, n: nat) returns (lost: nat)
    requires b.Valid() && b.Trimmed() && NBITS < n <= 32 * b.wds && Pow2(n - 1) <= b.Value() < Pow2(n)
    modifies b`wds, b.x
    ensures b.Valid() && b.Trimmed() && HIDDEN <= b.Value() < 2 * HIDDEN
    ensures Split(old(b.Value()), Pow2(n - NBITS), b.Value(), lost)
  {
    hide Val, Pow2;
    CutToBits(b.Value(), n, n - NBITS);
    lost := LostBits(b, n - NBITS);
    Rshift(b, n - NBITS);
  }

  method CountBits(b: Bigint) returns (n: nat)
    requires b.Valid() && 1 <= b.wds && b.x[b.wds - 1] != 0
    ensures 1 <= n <= 32 * b.wds && Pow2(n - 1) <= b.Value() < Pow2(n)
    ensures 0 < b.Value()
  {
    hide Val, Pow2;
    var zeros := Hi0bits(b.x[b.wds - 1]);
    BitLength(b.x[..b.wds], zeros);
    n := 32 * b.wds - zeros;
  }

  /** The literal's digits brought to 53 bits. */
  method Normalize(pool: Pool, b0: Bigint, e0: int) returns (b: Bigint, e: int, lost: nat, ghost a: nat, ghost p: nat)
    requires pool.Valid() && b0.Valid() && b0.Repr() !! pool.Repr && b0 in pool.live && 1 <= b0.wds && b0.x[b0.wds - 1] != 0
    modifies pool.Repr, b0, b0.x
    ensures pool.Valid() && b.Valid() && b.Trimmed() && b.Repr() !! pool.Repr
    ensures fresh(pool.Repr + b.Repr() - old(pool.Repr) - b0.Repr())
    ensures Replaces(pool.live, old(pool.live), b0, b)
    ensures Normalized(old(b0.Value()), e0, b.Value(), e, lost, a, p)
  {
    hide Pool.Valid, Val;
    ghost var d := b0.Value();
    hide Pow2;
    var n := CountBits(b0);
    b, e, lost, a, p := b0, e0, 0, d, 1;
    if n > NBITS {
      lost := CutRight(b, n);
      p := Pow2(n - NBITS);
      e := e + (n - NBITS);
    } else if n < NBITS {
      GrowToBits(d, n, NBITS - n);
      a := d * Pow2(NBITS - n);
      b := Lshift(pool, b, NBITS - n);
      e := e - (NBITS - n);
    } else {
      GrowToBits(d, n, 0);
    }
  }

  lemma CutToBits(d: nat, n: nat, k: nat)
    requires n == 53 + k && Pow2(n - 1) <= d < Pow2(n)
    ensures HIDDEN <= d / Pow2(k) < 2 * HIDDEN
  {
    Pow2Add(52, k);
    Pow2Add(53, k);
    Pow2Values();
    DivModDef(d, Pow2(k));
    if d / Pow2(k) < HIDDEN {
      MulMono(d / Pow2(k) + 1, HIDDEN, Pow2(k));
      Distribute(d / Pow2(k), 1, Pow2(k));
    }
    if d / Pow2(k) >= 2 * HIDDEN {
      MulMono(2 * HIDDEN, d / Pow2(k), Pow2(k));
    }
  }

  lemma GrowToBits(d: nat, n: nat, k: nat)
    requires 1 <= n && n + k == 53 && Pow2(n - 1) <= d < Pow2(n)
    ensures HIDDEN <= d * Pow2(k) < 2 * HIDDEN && Split(d * Pow2(k), 1, d * Pow2(k), 0)
    ensures k == 0 ==> d * Pow2(k) == d && Pow2(0) == 1
  {
    hide *;
    FullPowers();
    Pow2Add(n - 1, k);
    Pow2Add(n, k);
    GrowBounds(Pow2(n - 1), d, Pow2(n), Pow2(k));
    AllKept(d * Pow2(k));
  }

  lemma FullPowers()
    ensures Pow2(52) == HIDDEN && Pow2(53) == 2 * HIDDEN && Pow2(0) == 1
  {
    Pow2Values();
  }

  lemma GrowBounds(lo: nat, d: nat, hi: nat, p: nat)
    requires lo <= d < hi && 0 < p
    ensures 0 <= d * p && lo * p <= d * p < hi * p
  {
    MulMono(lo, d, p);
    MulMono(d + 1, hi, p);
    Distribute(d, 1, p);
  }

  lemma AllKept(x: nat)
    ensures Split(x, 1, x, 0)
  {
    DivModUnique(x, 1, x, 0);
  }

  // ---------- the value of the literal, in units of 2^-1074 ----------

  /** d * 2^e0 is Numerator / Denominator units. */
  function Numerator(d: nat, e0: int): nat {
    if e0 >= EMIN then d * Pow2(e0 - EMIN) else d
  }

  function Denominator(e0: int): (u: nat)
    ensures 0 < u
  {
    if e0 >= EMIN then 1 else Pow2(EMIN - e0)
  }

  lemma ThreePowers(d: nat, i: nat, j: nat, k: nat)
    requires k == i + j
    ensures d * Pow2(k) == d * Pow2(i) * Pow2(j)
  {
    Pow2Add(i, j);
    Assoc(d, Pow2(i), Pow2(j));
  }

  /** In units of its own last place 2^e the literal is a/p. */
  lemma LiteralAt(d: nat, e0: int, m: nat, e: int, lost: nat, a: nat, p: nat)
    requires Normalized(d, e0, m, e, lost, a, p)
    ensures EMIN <= e ==> Numerator(d, e0) * p == a * (Pow2(e - EMIN) * Denominator(e0))
    ensures e < EMIN ==> Numerator(d, e0) * (p * Pow2(EMIN - e)) == a * Denominator(e0)
  {
    assert Pow2(0) == 1;
    if EMIN <= e {
      if e0 > e {
        ThreePowers(d, e0 - e, e - EMIN, e0 - EMIN);
      } else if e0 >= EMIN {
        ThreePowers(d, e0 - EMIN, e - e0, e - EMIN);
      } else {
        Pow2Add(e - EMIN, EMIN - e0);
      }
    } else {
      if e0 <= e {
        Pow2Add(e - e0, EMIN - e);
      } else if e0 >= EMIN {
        ThreePowers(d, e0 - EMIN, EMIN - e, e0 - e);
      } else {
        ThreePowers(d, e0 - e, EMIN - e0, EMIN - e);
      }
    }
  }

  /** Rounding at 2^e, when that is no less than the subnormal's last place. */
  lemma NormalSplit(d: nat, e0: int, m: nat, e: int, lost: nat, a: nat, p: nat)
    requires Normalized(d, e0, m, e, lost, a, p) && EMIN <= e
    ensures Split(Numerator(d, e0), Pow2(e - EMIN) * Denominator(e0), m, lost)
  {
    LiteralAt(d, e0, m, e, lost, a, p);
    hide Numerator, Denominator, Pow2;
    MulMono(1, Pow2(e - EMIN), Denominator(e0));
    SameRatio(a, p, Numerator(d, e0), Pow2(e - EMIN) * Denominator(e0), m, lost);
  }

  /** Below it, the bits down to 2^-1074 are cut off as well. */
  lemma SubnormalSplit(d: nat, e0: int, m: nat, e: int, lost: nat, a: nat, p: nat)
    requires Normalized(d, e0, m, e, lost, a, p) && e < EMIN
    ensures Split(Numerator(d, e0), Denominator(e0), m / Pow2(EMIN - e), LostAgain(m, lost, EMIN - e))
  {
    var n, v, u: nat := EMIN - e, Numerator(d, e0), Denominator(e0);
    assert Split(a, p, m, lost);
    hide Pow2, Numerator, Denominator, Split, LostAgain;
    LiteralAt(d, e0, m, e, lost, a, p);
    QuotientFits(m, Pow2(n));
    var q, m', lost' := p * Pow2(n), m / Pow2(n), LostAgain(m, lost, n);
    SplitAgain(a, p, m, lost, n, q);
    assert v * q == a * u;
    hide *;
    SameRatio(a, q, v, u, m', lost');
  }

  // ---------- assembling the double ----------

  /** x & ~0x100000. */
  function ClearHidden(x: word): word {
    if x / 0x10_0000 % 2 == 1 then x - 0x10_0000 else x
  }

  /** At most 64 bits take one or two words. */
  lemma TwoWords(s: seq<word>)
    requires 1 < |s| ==> s[|s| - 1] != 0
    requires 0 < Val(s) < 0x1_0000_0000_0000_0000
    ensures 1 <= |s| <= 2
    ensures |s| == 2 ==> Val(s) == s[0] + s[1] * BASE && BASE <= Val(s)
    ensures |s| == 1 ==> Val(s) == s[0]
  {
    if |s| == 0 {
      EmptyValue();
    } else if |s| == 1 {
      SingleWord(s);
    } else if |s| == 2 {
      PairValue(s);
    } else {
      ValBound(s);
      Pow2Values();
      Pow2Mono(64, 32 * (|s| - 1));
    }
  }

  lemma PairValue(s: seq<word>)
    requires |s| == 2
    ensures Val(s) == s[0] + s[1] * BASE
  {
    assert Weight(1) == BASE by {
      WeightNext(0);
    }
    hide Val, Weight;
    ValNext(s, 1);
    SingleWord(s[..1]);
    assert s[..2] == s;
  }

  /** lostbits & 2 && ((lostbits & 1) | (x[0] & 1)). */
  method ShouldRoundUp(b: Bigint, lost: nat) returns (up: bool)
    requires b.Valid() && b.Trimmed() && 0 < b.Value() < 0x1_0000_0000_0000_0000 && lost <= 3
    ensures 1 <= b.wds && up == RoundsUp(b.Value(), lost)
  {
    hide Val;
    TwoWords(b.x[..b.wds]);
    up := lost >= 2 && (lost % 2 == 1 || b.x[0] % 2 == 1);
  }

  /** The increment and, if it carries out of 53 bits, the shift back (nolibc/dtoa.c:3048-3066). */
  method RoundUpNormal(pool: Pool, b0: Bigint, e0: int) returns (b: Bigint, e: int)
    requires pool.Valid() && b0.Valid() && b0.Trimmed() && b0.Repr() !! pool.Repr && b0 in pool.live
    requires HIDDEN <= b0.Value() < 2 * HIDDEN
    modifies pool.Repr, b0, b0.x
    ensures pool.Valid() && b.Valid() && b.Trimmed() && b.Repr() !! pool.Repr
    ensures fresh(pool.Repr + b.Repr() - old(pool.Repr) - b0.Repr())
    ensures Replaces(pool.live, old(pool.live), b0, b)
    ensures HIDDEN <= b.Value() < 2 * HIDDEN
    ensures if old(b0.Value()) + 1 == 2 * HIDDEN then e == e0 + 1 && b.Value() == HIDDEN
            else e == e0 && b.Value() == old(b0.Value()) + 1
  {
    hide Pool.Valid, Val;
    e := e0;
    var k := b0.wds;
    TwoWords(b0.x[..b0.wds]);
    b := Increment(pool, b0);
    TwoWords(b.x[..b.wds]);
    var zeros := Hi0bits(b.x[k - 1]);
    TopOfDouble(b.Value(), b.x[0], b.x[1], zeros);
    if b.wds > k || zeros < 32 - NBITS % 32 {
      assert Pow2(1) == 2;
      Rshift(b, 1);
      e := e + 1;
    }
  }

  /** A value of at most 2^53 has reached it when its high word has fewer than 11 zeros. */
  lemma TopOfDouble(v: nat, x0: word, x1: word, h: nat)
    requires v == x0 + x1 * BASE && HIDDEN <= v <= 2 * HIDDEN
    requires x1 != 0 ==> h < 32 && 0x8000_0000 <= x1 * Pow2(h) < BASE
    ensures h < 11 <==> v == 2 * HIDDEN
  {
    assert Pow2(10) == 1024 && Pow2(11) == 2048;
    if h < 11 {
      Pow2Mono(h, 10);
      MulMono(Pow2(h), 1024, x1);
    } else {
      Pow2Mono(11, h);
      MulMono(2048, Pow2(h), x1);
    }
  }

  /** The words of a normal significand and its exponent field make up the pattern. */
  lemma NormalPattern(v: nat, x0: word, x1: word, e: int)
    requires v == x0 + x1 * BASE && HIDDEN <= v < 2 * HIDDEN && EMIN <= e
    ensures (ClearHidden(x1) + (e + 1075) * 0x10_0000) * BASE + x0 == Pattern(v, e - EMIN)
  {
    DivModUnique(x1, 0x10_0000, 1, x1 - 0x10_0000);
  }

  /** Round and assemble, for a last place no smaller than a subnormal's. */
  method FinishNormal(pool: Pool, b0: Bigint, e0: int, lost: nat) returns (bits: nat)
    requires pool.Valid() && b0.Valid() && b0.Trimmed() && b0.Repr() !! pool.Repr && b0 in pool.live
    requires HIDDEN <= b0.Value() < 2 * HIDDEN && EMIN <= e0 <= EMAX && lost <= 3
    modifies pool.Repr, b0, b0.x
    ensures pool.Valid() && fresh(pool.Repr - old(pool.Repr) - b0.Repr())
    ensures pool.live == old(pool.live) - {b0}
    ensures bits == Pattern(if RoundsUp(old(b0.Value()), lost) then old(b0.Value()) + 1 else old(b0.Value()), e0 - EMIN)
  {
    hide Pool.Valid, Val;
    var b, e := b0, e0;
    var up := ShouldRoundUp(b, lost);
    if up {
      b, e := RoundUpNormal(pool, b, e);
    }
    TwoWords(b.x[..b.wds]);
    NormalPattern(b.Value(), b.x[0], b.x[1], e);
    bits := (ClearHidden(b.x[1]) + (e + 1075) * 0x10_0000) * BASE + b.x[0];
    pool.Bfree(b);
  }

  /** The subnormal words: bit 20 of the high one is cleared even if a carry has just set it. */
  lemma SubnormalPattern(v: nat, x0: word, x1: word)
    requires v == x0 + x1 * BASE && v <= HIDDEN
    ensures ClearHidden(x1) * BASE + x0 == if v == HIDDEN then 0 else v
  {
    if v == HIDDEN {
      DivModUnique(x1, 0x10_0000, 1, 0);
    } else {
      DivModUnique(x1, 0x10_0000, 0, x1);
    }
  }

  /** lostbits once n more bits are to go (nolibc/dtoa.c:3021-3027). */
  method SubnormalLost(b: Bigint, n: nat, lost0: nat) returns (lost: nat)
    requires b.Valid() && 1 <= n && (n - 1) / 32 < b.wds
    ensures lost == LostAgain(b.Value(), lost0, n) <= 3
  {
    hide Val, Pow2;
    lost := 0;
    if lost0 != 0 {
      lost := 1;
    } else if n - 1 > 0 {
      var any := AnyOn(b, n - 1);
      lost := if any then 1 else 0;
    } else {
      ModPow0(b.Value());
    }
    var bit := TestBit(b, n - 1);
    if bit {
      lost := lost + 2; // lostbits |= 2
    }
    OddQuotient(b.Value(), Pow2(n - 1));
  }

  /** Cut down to 2^-1074, round and assemble. */
  method FinishSubnormal(pool: Pool, b0: Bigint, n: nat, lost0: nat) returns (bits: nat)
    requires pool.Valid() && b0.Valid() && b0.Trimmed() && b0.Repr() !! pool.Repr && b0 in pool.live
    requires HIDDEN <= b0.Value() < 2 * HIDDEN && 1 <= n < NBITS
    modifies pool.Repr, b0, b0.x
    ensures pool.Valid() && fresh(pool.Repr - old(pool.Repr) - b0.Repr())
    ensures pool.live == old(pool.live) - {b0}
    ensures var m := old(b0.Value()) / Pow2(n);
            var r := if RoundsUp(m, LostAgain(old(b0.Value()), lost0, n)) then m + 1 else m;
            m < HIDDEN && bits == if r == HIDDEN then 0 else r
  {
    hide Pool.Valid, Val, Pow2, LostAgain;
    TwoWords(b0.x[..b0.wds]);
    QuotientFits(b0.Value(), Pow2(n));
    SubnormalRange(b0.Value(), n);
    var lost := SubnormalLost(b0, n, lost0);
    Rshift(b0, n);
    bits := RoundSubnormal(pool, b0, lost);
  }

  lemma SubnormalRange(v: nat, n: nat)
    requires HIDDEN <= v < 2 * HIDDEN && 1 <= n < NBITS
    ensures 1 <= v / Pow2(n) < HIDDEN
  {
    Pow2Mono(1, n);
    Pow2Mono(n, 52);
    Pow2Values();
    assert Pow2(1) == 2;
    hide Pow2;
    var t := Pow2(n);
    MulMono(2, t, HIDDEN);
    SmallQuotient(v, t, HIDDEN);
    AtLeastOne(v, t);
  }

  lemma AtLeastOne(v: nat, t: nat)
    requires 0 < t <= v
    ensures 1 <= v / t
  {
    DivModDef(v, t);
    if v / t < 1 {
      MulMono(v / t, 0, t);
    }
  }

  method RoundSubnormal(pool: Pool, b0: Bigint, lost: nat) returns (bits: nat)
    requires pool.Valid() && b0.Valid() && b0.Trimmed() && b0.Repr() !! pool.Repr && b0 in pool.live
    requires 1 <= b0.Value() < HIDDEN && lost <= 3
    modifies pool.Repr, b0, b0.x
    ensures pool.Valid() && fresh(pool.Repr - old(pool.Repr) - b0.Repr())
    ensures pool.live == old(pool.live) - {b0}
    ensures var r := if RoundsUp(old(b0.Value()), lost) then old(b0.Value()) + 1 else old(b0.Value());
            bits == if r == HIDDEN then 0 else r
  {
    hide Pool.Valid, Val;
    var b := b0;
    var up := ShouldRoundUp(b, lost);
    if up {
      b := Increment(pool, b);
    }
    bits := SubnormalWords(b);
    pool.Bfree(b);
  }

  method SubnormalWords(b: Bigint) returns (bits: nat)
    requires b.Valid() && b.Trimmed() && 0 < b.Value() <= HIDDEN
    ensures bits == if b.Value() == HIDDEN then 0 else b.Value()
  {
    hide Val;
    TwoWords(b.x[..b.wds]);
    if b.wds > 1 {
      SubnormalPattern(b.Value(), b.x[0], b.x[1]);
      return ClearHidden(b.x[1]) * BASE + b.x[0];
    }
    SubnormalPattern(b.Value(), b.x[0], 0);
    return b.x[0];
  }

  // ---------- gethex ----------

  /** The literal lies in the half unit below 2^-1022 that rounds up to it. */
  ghost predicate CarriesToNormal(v: nat, u: nat) {
    (2 * HIDDEN - 1) * u <= 2 * v < 2 * HIDDEN * u
  }

  lemma SplitBounds(v: nat, u: nat, m: nat, lost: nat)
    requires Split(v, u, m, lost)
    ensures m * u <= v < m * u + u
    ensures lost >= 2 <==> 2 * v >= 2 * (m * u) + u
    ensures lost == 2 <==> 2 * v == 2 * (m * u) + u
  {
    DivModDef(v, u);
  }

  /** What finishing at or above the subnormal's last place gives. */
  lemma NormalIsNearest(v: nat, u: nat, m: nat, e: nat, lost: nat)
    requires 0 < u && Split(v, Pow2(e) * u, m, lost) && HIDDEN <= m < 2 * HIDDEN
    ensures !CarriesToNormal(v, u)
    ensures e <= 2045 ==> IsNearestEven(Pattern(if RoundsUp(m, lost) then m + 1 else m, e), v, u)
    ensures 2046 <= e ==> IsNearestEven(INFINITY, v, u)
  {
    hide IsNearestEven, Mag, RoundsUp;
    SplitBounds(v, Pow2(e) * u, m, lost);
    MulMono(HIDDEN, m, Pow2(e) * u);
    MulMono(1, Pow2(e), u);
    NormalNearest(v, u, m, e, lost);
  }

  /** Values at which the least subnormal or zero is nearest. */
  lemma TinyIsNearest(v: nat, u: nat)
    requires 0 < u
    ensures 2 * v <= u ==> IsNearestEven(0, v, u)
    ensures u < 2 * v < 3 * u ==> IsNearestEven(1, v, u)
    ensures u < 2 * v ==> !IsNearestEven(0, v, u)
  {
    FieldsOf(0, 0, 0);
    FieldsOf(1, 0, 1);
    FieldsOf(2, 0, 2);
  }

  /** More than 52 bits below the subnormals nothing is left but a bit to round with. */
  lemma TinySplit(m: nat, lost: nat, n: nat)
    requires HIDDEN <= m < 2 * HIDDEN && 53 <= n
    ensures m / Pow2(n) == 0
    ensures n == 53 ==> LostAgain(m, lost, n) == if lost != 0 || m % Pow2(n - 1) != 0 then 3 else 2
    ensures n > 53 ==> LostAgain(m, lost, n) <= 1
  {
    Pow2Values();
    Pow2Mono(53, n);
    DivModUnique(m, Pow2(n), 0, m);
    if n == 53 {
      DivModUnique(m, Pow2(52), 1, m - HIDDEN);
    } else {
      Pow2Mono(53, n - 1);
      DivModUnique(m, Pow2(n - 1), 0, m);
    }
  }

  /** Finishing below the subnormal's last place: nearest, unless the carry into 2^-1022 is
      masked away. */
  lemma SubnormalIsNearest(v: nat, u: nat, m: nat, lost: nat, r: nat)
    requires Split(v, u, m, lost) && m < HIDDEN && r == if RoundsUp(m, lost) then m + 1 else m
    ensures r == HIDDEN <==> CarriesToNormal(v, u)
    ensures IsNearestEven(if r == HIDDEN then 0 else r, v, u) <==> r != HIDDEN
  {
    assert Pow2(0) == 1 && Pow2(0) * u == u;
    RoundedPattern(v, u, m, 0, lost);
    SplitBounds(v, u, m, lost);
    TinyIsNearest(v, u);
    hide Mag, IsNearestEven, Pow2, Split;
    LastSubnormal(v, u, m, lost);
    MulMono(1, HIDDEN - 1, u);
  }

  lemma LastSubnormal(v: nat, u: nat, m: nat, lost: nat)
    requires 0 < u && m < HIDDEN && m * u <= v < m * u + u
    requires lost >= 2 <==> 2 * v >= 2 * (m * u) + u
    requires lost == 2 <==> 2 * v == 2 * (m * u) + u
    requires lost <= 3
    ensures CarriesToNormal(v, u) <==> m == HIDDEN - 1 && RoundsUp(m, lost)
  {
    if m < HIDDEN - 1 {
      MulMono(m + 1, HIDDEN - 1, u);
      Distribute(m, 1, u);
    }
  }

  /** The double nearest the hexadecimal literal with digits s[lo..hi) and last-digit exponent
      e0, ties to even, overflow giving infinity. The one exception is the half unit below
      2^-1022: there the answer is zero. */
  method Gethex(pool: Pool, s: seq<nat>, lo: nat, hi: nat, e0: int) returns (bits: nat)
    requires pool.Valid() && IsHexNumber(s, lo, hi)
    modifies pool.Repr
    ensures pool.Valid() && fresh(pool.Repr - old(pool.Repr))
    ensures pool.live == old(pool.live)
    ensures var v, u := Numerator(HexVal(s, lo, hi), e0), Denominator(e0);
            && (IsNearestEven(bits, v, u) <==> !CarriesToNormal(v, u))
            && (CarriesToNormal(v, u) ==> bits == 0)
  {
    hide Pool.Valid, Val;
    ghost var d := HexVal(s, lo, hi);
    hide HexVal, Pow2, Numerator, Denominator, IsNearestEven, CarriesToNormal;
    var b := PackedBigint(pool, s, lo, hi);
    var e, lost;
    ghost var a, p;
    b, e, lost, a, p := Normalize(pool, b, e0);
    bits := Finish(pool, b, e, lost, d, e0, a, p);
  }

  /** The digits of the literal as a Bigint. */
  method PackedBigint(pool: Pool, s: seq<nat>, lo: nat, hi: nat) returns (b: Bigint)
    requires pool.Valid() && IsHexNumber(s, lo, hi)
    modifies pool.Repr
    ensures pool.Valid() && b.Valid() && b.Repr() !! pool.Repr && 1 <= b.wds && b.x[b.wds - 1] != 0
    ensures fresh(pool.Repr + b.Repr() - old(pool.Repr))
    ensures pool.live == old(pool.live) + {b} && b !in old(pool.live)
    ensures b.Value() == HexVal(s, lo, hi) && (b.k > 0 ==> 8 * Pow2(b.k - 1) < hi - lo)
  {
    hide Pool.Valid, Val, HexVal, Pow2;
    var k := BlockForHex(hi - lo);
    b := pool.Balloc(k);
    b.wds := PackWords(b.x, s, lo, hi);
  }

  /** From 53 bits and the sticky bits to the pattern. */
  method Finish(pool: Pool, b: Bigint, e: int, lost: nat, ghost d: nat, ghost e0: int, ghost a: nat, ghost p: nat)
    returns (bits: nat)
    requires pool.Valid() && b.Valid() && b.Trimmed() && b.Repr() !! pool.Repr && b in pool.live
    requires Normalized(d, e0, b.Value(), e, lost, a, p)
    modifies pool.Repr, b, b.x
    ensures pool.Valid() && fresh(pool.Repr - old(pool.Repr) - b.Repr())
    ensures pool.live == old(pool.live) - {b}
    ensures var v, u := Numerator(d, e0), Denominator(e0);
            && (IsNearestEven(bits, v, u) <==> !CarriesToNormal(v, u))
            && (CarriesToNormal(v, u) ==> bits == 0)
  {
    hide Pool.Valid, Val, Pow2, Numerator, Denominator, IsNearestEven, CarriesToNormal;
    ghost var m, v, u := b.Value(), Numerator(d, e0), Denominator(e0);
    assert lost <= 3;
    if e >= EMIN {
      NormalSplit(d, e0, m, e, lost, a, p);
      NormalIsNearest(v, u, m, e - EMIN, lost);
      if e > EMAX {
        pool.Bfree(b);
        return INFINITY;
      }
      bits := FinishNormal(pool, b, e, lost);
      return;
    }
    SubnormalSplit(d, e0, m, e, lost, a, p);
    if EMIN - e >= NBITS {
      TinySplit(m, lost, EMIN - e);
      bits := FinishTiny(b, EMIN - e, lost, v, u);
      pool.Bfree(b);
      return;
    }
    QuotientFits(m, Pow2(EMIN - e));
    bits := FinishSubnormal(pool, b, EMIN - e, lost);
    ghost var m', lost' := m / Pow2(EMIN - e), LostAgain(m, lost, EMIN - e);
    SubnormalIsNearest(v, u, m', lost', if RoundsUp(m', lost') then m' + 1 else m');
  }

  /** Nothing of the significand is left: the least subnormal above the tie, else zero. */
  method FinishTiny(b: Bigint, n: nat, lost: nat, ghost v: nat, ghost u: nat) returns (bits: nat)
    requires b.Valid() && HIDDEN <= b.Value() < 2 * HIDDEN && NBITS <= n
    requires Split(v, u, 0, LostAgain(b.Value(), lost, n))
    ensures IsNearestEven(bits, v, u) && !CarriesToNormal(v, u)
  {
    hide Val, Pow2, IsNearestEven;
    TinySplit(b.Value(), lost, n);
    SplitBounds(v, u, 0, LostAgain(b.Value(), lost, n));
    TinyIsNearest(v, u);
    MulMono(1, 2 * HIDDEN - 1, u);
    if n == NBITS {
      var any := AnyOn(b, n - 1);
      if lost != 0 || any {
        return 1;
      }
    }
    return 0;
  }

  // ---------- the exception is met ----------

  /** The digits 1ff...f. */
  function OneThenFs(n: nat): seq<nat> {
    ['1' as nat] + seq(n, _ => 'f' as nat)
  }

  lemma {:induction false} OneThenFsValue(n: nat, k: nat)
    requires k <= n
    ensures HexVal(OneThenFs(n), 0, k + 1) == 2 * Pow2(4 * k) - 1
  {
    var s := OneThenFs(n);
    assert Pow2(0) == 1 && HexDigit('1' as int) == 1;
    if k == 0 {
      assert HexVal(s, 0, 0) == 0;
    } else {
      OneThenFsValue(n, k - 1);
      Pow2Plus4(4 * (k - 1));
      assert s[k] == 'f' as nat && HexDigit('f' as int) == 15;
    }
  }

  /** 0x1fffffffffffffp-1075, the largest literal below 2^-1022 with 53 bits, comes out zero. */
  lemma MaskedCarryExample()
    ensures IsHexNumber(OneThenFs(13), 0, 14)
    ensures CarriesToNormal(Numerator(HexVal(OneThenFs(13), 0, 14), -1075), Denominator(-1075))
  {
    hide Pow2, HexVal, Numerator, Denominator;
    OneThenFsAreDigits(13);
    hide OneThenFs;
    OneThenFsValue(13, 13);
    MaskedPowers();
    MaskedRatio(HexVal(OneThenFs(13), 0, 14));
  }

  lemma OneThenFsAreDigits(n: nat)
    ensures IsHexNumber(OneThenFs(n), 0, n + 1)
  {
  }

  lemma MaskedRatio(x: nat)
    ensures Numerator(x, -1075) == x && Denominator(-1075) == Pow2(1)
  {
    assert Pow2(0) == 1;
    hide Pow2;
  }

  lemma MaskedPowers()
    ensures Pow2(52) == HIDDEN && Pow2(1) == 2
  {
    Pow2Values();
  }
}
