/** The word-at-a-time scans of strlen, strnlen, memchr and strchrnul against their byte-by-byte
    meaning. Memory is a sequence of bytes in whole 8-byte words, an address an index. */
module StringScan {
  import opened Bytes
  import opened CString

  /** No byte of [i, j) is c. */
  ghost predicate Without(m: seq<bv8>, i: nat, j: nat, c: bv8) {
    j <= |m| && forall k | i <= k < j :: m[k] != c
  }

  /** Whole words are mapped, and a byte at or after s, below the limit, is c. */
  ghost predicate Ends(m: seq<bv8>, s: nat, limit: nat, c: bv8) {
    exists k | s <= k < limit && k < |m| :: m[k] == c
  }

  lemma WordWithout(m: seq<bv8>, i: nat, w: nat, c: bv8)
    requires Without(m, i, w, c) && w + 8 <= |m| && c !in m[w..w + 8]
    ensures Without(m, i, w + 8, c)
  {
    forall k | w <= k < w + 8 ensures m[k] != c {
      assert m[k] == m[w..w + 8][k - w];
    }
  }

  /** strlen (nolibc/strlen.c:10-18). */
  method Strlen(m: seq<bv8>, a: nat) returns (len: nat)
    requires |m| % 8 == 0 && Ends(m, a, |m|, 0)
    ensures a + len < |m| && m[a + len] == 0 && Without(m, a, a + len, 0)
  {
    hide ZeroIn, MatchIn, Pattern;
    var s := a;
    while s % 8 != 0
      invariant a <= s && Without(m, a, s, 0)
      decreases |m| - s
    {
      if m[s] == 0 {
        return s - a;
      }
      s := s + 1;
    }
    var w := s;
    while !ZeroIn(m, w)
      invariant w % 8 == 0 && a <= w < |m| && Without(m, a, w, 0)
      decreases |m| - w
    {
      ZeroInWord(m, w);
      WordWithout(m, a, w, 0);
      w := w + 8;
    }
    s := w;
    while m[s] != 0
      invariant a <= s < |m| && Without(m, a, s, 0)
      decreases |m| - s
    {
      s := s + 1;
    }
    len := s - a;
  }

  /** A scan ends with its answer, or it reads the byte at an address that is not mapped. */
  datatype Scan = Length(len: nat) | ReadOutside(at: nat)

  /** No terminator below the limit, and the mapping ends right there. */
  ghost predicate NothingBehind(m: seq<bv8>, a: nat, maxlen: nat) {
    a + maxlen == |m| && Without(m, a, a + maxlen, 0)
  }

  /** The array of maxlen bytes, or the string, that a caller of strnlen has to provide. */
  ghost predicate Provided(m: seq<bv8>, a: nat, maxlen: nat) {
    |m| % 8 == 0 && (a + maxlen <= |m| || Ends(m, a, a + maxlen, 0))
  }

  lemma ProvidedTo(m: seq<bv8>, a: nat, maxlen: nat, s: nat)
    requires Provided(m, a, maxlen) && a <= s && Without(m, a, s, 0)
    ensures s < a + maxlen ==> s < |m| && (s % 8 == 0 ==> s + 8 <= |m|)
    ensures s == |m| && s <= a + maxlen ==> NothingBehind(m, a, maxlen)
    ensures s < |m| && m[s] == 0 && s < a + maxlen ==> !NothingBehind(m, a, maxlen)
    ensures s < |m| && s == a + maxlen ==> !NothingBehind(m, a, maxlen)
    ensures s <= a + maxlen ==> s <= |m|
  {
  }

  /** strnlen (nolibc/strnlen.c:10-20). The last loop reads the byte at the limit before it looks
      at the count; that byte is not there exactly when the mapping ends at the limit and no
      terminator comes before. Every other read is inside. */
  method Strnlen(m: seq<bv8>, a: nat, maxlen: nat) returns (r: Scan)
    requires Provided(m, a, maxlen)
    ensures r.ReadOutside? <==> NothingBehind(m, a, maxlen)
    ensures r.ReadOutside? ==> r.at == |m|
    ensures r.Length? ==> r.len <= maxlen && Without(m, a, a + r.len, 0)
    ensures r.Length? && r.len < maxlen ==> a + r.len < |m| && m[a + r.len] == 0
  {
    hide ZeroIn, MatchIn, Pattern, Ends, Provided, NothingBehind;
    var s, over := a, maxlen;
    StartsInside(m, a, maxlen);
    ProvidedTo(m, a, maxlen, s);
    while s % 8 != 0 && over > 0
      invariant a <= s <= |m| && 0 <= over && s + over == a + maxlen && Without(m, a, s, 0)
      invariant over > 0 ==> s < |m|
      decreases over
    {
      if m[s] == 0 {
        ProvidedTo(m, a, maxlen, s);
        return Length(s - a);
      }
      s, over := s + 1, over - 1;
      ProvidedTo(m, a, maxlen, s);
    }
    var w := s;
    ProvidedTo(m, a, maxlen, w);
    while over > 8 && !ZeroIn(m, w)
      invariant a <= w <= |m| && 0 <= over && w + over == a + maxlen && Without(m, a, w, 0)
      invariant over > 0 ==> w % 8 == 0 && w + 8 <= |m|
      decreases over
    {
      ZeroInWord(m, w);
      WordWithout(m, a, w, 0);
      w, over := w + 8, over - 8;
      ProvidedTo(m, a, maxlen, w);
    }
    s := w;
    while s < |m| && m[s] != 0 && over > 0
      invariant a <= s <= |m| && 0 <= over && s + over == a + maxlen && Without(m, a, s, 0)
      decreases over
    {
      s, over := s + 1, over - 1;
      ProvidedTo(m, a, maxlen, s);
    }
    ProvidedTo(m, a, maxlen, s);
    if s >= |m| {
      return ReadOutside(s);
    }
    r := Length(if over > 0 then s - a else maxlen);
  }

  lemma StartsInside(m: seq<bv8>, a: nat, maxlen: nat)
    requires Provided(m, a, maxlen)
    ensures Without(m, a, a, 0)
  {
  }

  /** Eight bytes without a terminator at the end of the mapping: the ninth is read. */
  method StrnlenExample() returns (r: Scan)
    ensures r == ReadOutside(8)
  {
    var m: seq<bv8> := [1, 1, 1, 1, 1, 1, 1, 1];
    r := Strnlen(m, 0, 8);
  }

  /** The bound, or a c before the end of the mapping, keeps every read inside. */
  lemma StillMapped(m: seq<bv8>, src: nat, n: nat, s: nat, c: bv8)
    requires |m| % 8 == 0 && (src + n <= |m| || Ends(m, src, |m|, c))
    requires src <= s && Without(m, src, s, c)
    ensures s < src + n ==> s < |m| && (s % 8 == 0 ==> s + 8 <= |m|)
  {
  }

  lemma NoneYet(m: seq<bv8>, src: nat, n: nat, c: bv8)
    requires src + n <= |m| || Ends(m, src, |m|, c)
    ensures Without(m, src, src, c)
  {
  }

  /** memchr (nolibc/memchr.c:11-23), c already an unsigned char. The bound may lie past the mapped
      bytes if a c comes before their end: nothing behind the word of the first c is read. */
  method Memchr(m: seq<bv8>, src: nat, c: bv8, n0: nat) returns (r: Option<nat>)
    requires |m| % 8 == 0 && (src + n0 <= |m| || Ends(m, src, |m|, c))
    ensures r.Some? ==> src <= r.value < src + n0 && r.value < |m| && m[r.value] == c && Without(m, src, r.value, c)
    ensures r.None? ==> Without(m, src, src + n0, c)
  {
    hide ZeroIn, MatchIn, Pattern, Ends;
    var s, n := src, n0;
    NoneYet(m, src, n0, c);
    StillMapped(m, src, n0, s, c);
    while s % 8 != 0 && n > 0 && m[s] != c
      invariant src <= s && 0 <= n && s + n == src + n0 && Without(m, src, s, c) && (n > 0 ==> s < |m|)
      decreases n
    {
      s, n := s + 1, n - 1;
      StillMapped(m, src, n0, s, c);
    }
    if n > 0 && m[s] != c {
      var w, k := s, Pattern(c);
      StillMapped(m, src, n0, w, c);
      while n >= 8 && !MatchIn(m, w, k)
        invariant src <= w && 0 <= n && w + n == src + n0 && w % 8 == 0 && Without(m, src, w, c)
        invariant n > 0 ==> w + 8 <= |m|
        decreases n
      {
        hide HasZero, Load64;
        MatchInWord(m, w, c);
        WordWithout(m, src, w, c);
        w, n := w + 8, n - 8;
        StillMapped(m, src, n0, w, c);
      }
      s := w;
      while n > 0 && m[s] != c
        invariant src <= s && 0 <= n && s + n == src + n0 && Without(m, src, s, c) && (n > 0 ==> s < |m|)
        decreases n
      {
        s, n := s + 1, n - 1;
        StillMapped(m, src, n0, s, c);
      }
    }
    r := if n > 0 then Some(s) else None;
  }

  /** __strchrnul (nolibc/strchrnul.c:12-23): the first c, or the terminator before any. */
  method Strchrnul(m: seq<bv8>, a: nat, c: bv8) returns (r: nat)
    requires |m| % 8 == 0 && Ends(m, a, |m|, 0)
    ensures a <= r < |m| && (m[r] == c || m[r] == 0)
    ensures Without(m, a, r, c) && Without(m, a, r, 0)
  {
    hide ZeroIn, MatchIn, Pattern;
    if c == 0 {
      var len := Strlen(m, a);
      return a + len;
    }
    var s := a;
    while s % 8 != 0
      invariant a <= s && Without(m, a, s, 0) && Without(m, a, s, c)
      decreases |m| - s
    {
      if m[s] == 0 || m[s] == c {
        return s;
      }
      s := s + 1;
    }
    var w, k := s, Pattern(c);
    while !ZeroIn(m, w) && !MatchIn(m, w, k)
      invariant w % 8 == 0 && a <= w < |m| && Without(m, a, w, 0) && Without(m, a, w, c)
      decreases |m| - w
    {
      ZeroInWord(m, w);
      MatchInWord(m, w, c);
      WordWithout(m, a, w, 0);
      WordWithout(m, a, w, c);
      w := w + 8;
    }
    s := w;
    while m[s] != 0 && m[s] != c
      invariant a <= s < |m| && Without(m, a, s, 0) && Without(m, a, s, c)
      decreases |m| - s
    {
      s := s + 1;
    }
    r := s;
  }
}
