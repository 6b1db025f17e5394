/** Little-endian machine words over byte memory, and the zero-byte test of the word-at-a-time
    string functions (HASZERO, nolibc/strlen.c:6-8). */
module Bytes {

  const ONES: bv64 := 0x0101_0101_0101_0101
  const HIGHS: bv64 := 0x8080_8080_8080_8080

  function HasZero(x: bv64): bv64 {
    (x - ONES) & !x & HIGHS
  }

  /** The bytes of h moved up one place, and b below them. */
  function Cat(h: bv64, b: bv8): bv64 {
    (h << 8) | (b as bv64)
  }

  function Join(b0: bv8, b1: bv8, b2: bv8, b3: bv8, b4: bv8, b5: bv8, b6: bv8, b7: bv8): bv64 {
    Cat(Cat(Cat(Cat(Cat(Cat(Cat(Cat(0, b7), b6), b5), b4), b3), b2), b1), b0)
  }

  /** The word the bytes make, least significant first. */
  function Little(s: seq<bv8>): bv64 {
    if s == [] then 0 else Cat(Little(s[1..]), s[0])
  }

  /** The 64-bit word at address i. */
  function Load64(m: seq<bv8>, i: nat): bv64
    requires i + 8 <= |m|
  {
    Little(m[i..i + 8])
  }

  lemma LittleIsJoin(s: seq<bv8>)
    requires |s| == 8
    ensures Little(s) == Join(s[0], s[1], s[2], s[3], s[4], s[5], s[6], s[7])
  {
    hide Cat;
    assert s[8..] == [];
    forall k: nat | k < 8 ensures Little(s[k..]) == Cat(Little(s[k + 1..]), s[k]) {
      assert s[k..][1..] == s[k + 1..];
    }
    assert s[0..] == s;
  }

  /** HASZERO of a word is nonzero exactly when one of its bytes is zero. */
  lemma JoinHasZero(b0: bv8, b1: bv8, b2: bv8, b3: bv8, b4: bv8, b5: bv8, b6: bv8, b7: bv8)
    ensures HasZero(Join(b0, b1, b2, b3, b4, b5, b6, b7)) != 0
       <==> b0 == 0 || b1 == 0 || b2 == 0 || b3 == 0 || b4 == 0 || b5 == 0 || b6 == 0 || b7 == 0
  {
  }

  lemma LittleHasZero(s: seq<bv8>)
    requires |s| == 8
    ensures HasZero(Little(s)) != 0 <==> 0 in s
  {
    LittleIsJoin(s);
    hide *;
    JoinHasZero(s[0], s[1], s[2], s[3], s[4], s[5], s[6], s[7]);
    if 0 in s {
      var k :| 0 <= k < 8 && s[k] == 0;
      assert k == 0 || k == 1 || k == 2 || k == 3 || k == 4 || k == 5 || k == 6 || k == 7;
    }
  }

  lemma CatXor(h: bv64, b: bv8, g: bv64, c: bv8)
    ensures Cat(h, b) ^ Cat(g, c) == Cat(h ^ g, b ^ c)
  {
  }

  function Copies(n: nat, c: bv8): (s: seq<bv8>)
    ensures |s| == n
  {
    seq(n, _ => c)
  }

  function XorAll(s: seq<bv8>, c: bv8): (t: seq<bv8>)
    ensures |t| == |s|
  {
    seq(|s|, k requires 0 <= k < |s| => s[k] ^ c)
  }

  lemma Tails(s: seq<bv8>, c: bv8)
    requires s != []
    ensures Copies(|s|, c)[1..] == Copies(|s| - 1, c)
    ensures XorAll(s, c)[1..] == XorAll(s[1..], c)
    ensures Copies(|s|, c)[0] == c && XorAll(s, c)[0] == s[0] ^ c
  {
  }

  lemma {:induction false} LittleXor(s: seq<bv8>, c: bv8)
    ensures Little(s) ^ Little(Copies(|s|, c)) == Little(XorAll(s, c))
  {
    if s == [] {
      NoBytes();
    } else {
      Tails(s, c);
      hide Cat, XorAll, Copies;
      LittleXor(s[1..], c);
      CatXor(Little(s[1..]), s[0], Little(Copies(|s| - 1, c)), c);
    }
  }

  lemma NoBytes()
    ensures Little([]) ^ Little([]) == Little([])
  {
  }

  lemma OnesTimes(c: bv8)
    ensures ONES * (c as bv64) == Join(c, c, c, c, c, c, c, c)
  {
  }

  lemma XorSame(a: bv8, c: bv8)
    ensures a ^ c == 0 <==> a == c
  {
  }

  lemma XorAt(s: seq<bv8>, c: bv8, k: nat)
    requires k < |s|
    ensures XorAll(s, c)[k] == 0 <==> s[k] == c
  {
    XorSame(s[k], c);
  }

  /** k = ONES * c. */
  function Pattern(c: bv8): bv64 {
    ONES * (c as bv64)
  }

  lemma SpreadOnes(c: bv8)
    ensures Pattern(c) == Little(Copies(8, c))
  {
    LittleIsJoin(Copies(8, c));
    OnesTimes(c);
    hide Little, Join;
  }

  /** HASZERO(x^k). */
  predicate XorHasZero(x: bv64, k: bv64) {
    HasZero(x ^ k) != 0
  }

  /** The exclusive-or with eight copies of c turns the search for c into the search for zero. */
  lemma LittleHasByte(s: seq<bv8>, c: bv8)
    requires |s| == 8
    ensures XorHasZero(Little(s), Pattern(c)) <==> c in s
  {
    hide *;
    XorOfWord(s, c);
    LittleHasZero(XorAll(s, c));
    ZeroAfterXor(s, c);
  }

  lemma XorOfWord(s: seq<bv8>, c: bv8)
    requires |s| == 8
    ensures XorHasZero(Little(s), Pattern(c)) <==> HasZero(Little(XorAll(s, c))) != 0
  {
    hide HasZero, Little, XorAll, Copies, Pattern;
    SpreadOnes(c);
    LittleXor(s, c);
  }

  lemma ZeroAfterXor(s: seq<bv8>, c: bv8)
    ensures 0 in XorAll(s, c) <==> c in s
  {
    forall k | 0 <= k < |s| ensures XorAll(s, c)[k] == 0 <==> s[k] == c {
      XorAt(s, c, k);
    }
    hide *;
    if c in s {
      var k :| 0 <= k < |s| && s[k] == c;
      assert XorAll(s, c)[k] == 0;
    }
  }

  // ---------- the tests the loops make ----------

  /** HASZERO(*w). */
  predicate ZeroIn(m: seq<bv8>, w: nat)
    requires w + 8 <= |m|
  {
    HasZero(Load64(m, w)) != 0
  }

  /** HASZERO(*w^k). */
  predicate MatchIn(m: seq<bv8>, w: nat, k: bv64)
    requires w + 8 <= |m|
  {
    XorHasZero(Load64(m, w), k)
  }

  lemma ZeroInWord(m: seq<bv8>, w: nat)
    requires w + 8 <= |m|
    ensures ZeroIn(m, w) <==> 0 in m[w..w + 8]
  {
    hide HasZero, Little;
    LittleHasZero(m[w..w + 8]);
  }

  lemma MatchInWord(m: seq<bv8>, w: nat, c: bv8)
    requires w + 8 <= |m|
    ensures MatchIn(m, w, Pattern(c)) <==> c in m[w..w + 8]
  {
    hide XorHasZero, Little, Pattern;
    LittleHasByte(m[w..w + 8], c);
  }
}
