/** memset (nolibc/memset.c) on one byte memory. */
module Memset {
  import opened Memcpy

  // ---------- memset ----------

  /** The first h and the last t of the n bytes at d are c, and nothing outside them changed. */
  ghost predicate Filled(was: seq<bv8>, now: seq<bv8>, c: bv8, d: nat, n: nat, h: nat, t: nat) {
    && |now| == |was| && d + n <= |was|
    && (forall i {:trigger now[i]} | d <= i < d + n :: i < d + h || d + n - t <= i ==> now[i] == c)
    && (forall i {:trigger now[i]} | 0 <= i < |was| :: i < d || d + n <= i ==> now[i] == was[i])
  }

  /** c32 = ((u32)-1)/255 * c and c64 = c32 | ((u64)c32 << 32). */
  function Word32(c: bv8): bv32 {
    0x0101_0101 * (c as bv32)
  }

  function Word64(c: bv8): bv64 {
    (Word32(c) as bv64) | (Word32(c) as bv64 << 32)
  }

  lemma BytesOfWord(c: bv8)
    ensures Byte32(Word32(c), 0) == Byte32(Word32(c), 1) == Byte32(Word32(c), 2) == Byte32(Word32(c), 3) == c
  {
  }

  function LowHalf(w: bv64): bv32 {
    (w & 0xffff_ffff) as bv32
  }

  function HighHalf(w: bv64): bv32 {
    (w >> 32) as bv32
  }

  lemma HalvesOfWord(c: bv8)
    ensures LowHalf(Word64(c)) == Word32(c) == HighHalf(Word64(c))
  {
    hide Word32;
  }

  /** An address, or a length, that stores of the size fit. */
  predicate Fits(p: nat, size: nat) {
    size == 1 || (size == 4 && p % 4 == 0) || (size == 8 && p % 8 == 0)
  }

  lemma FitsNext(p: nat, k: nat, len: nat, size: nat)
    requires Fits(p, size) && Fits(k, size) && Fits(len, size)
    ensures Fits(k + size, size) && Fits(p + k + size, size) && (k < len ==> k + size <= len)
    ensures size == 1 || size == 4 || size == 8
  {
    FourNext(p, k, len);
    EightNext(p, k, len);
  }

  lemma FourNext(p: nat, k: nat, len: nat)
    ensures p % 4 == k % 4 == 0 ==> (k + 4) % 4 == (p + k + 4) % 4 == 0
    ensures k % 4 == len % 4 == 0 && k < len ==> k + 4 <= len
  {
  }

  lemma EightNext(p: nat, k: nat, len: nat)
    ensures p % 8 == k % 8 == 0 ==> (k + 8) % 8 == (p + k + 8) % 8 == 0
    ensures k % 8 == len % 8 == 0 && k < len ==> k + 8 <= len
  {
  }

  /** The n bytes at p are c, and no other changed. */
  ghost predicate Stored(was: seq<bv8>, now: seq<bv8>, p: nat, n: nat, c: bv8) {
    && |now| == |was| && p + n <= |was|
    && forall i {:trigger now[i]} | 0 <= i < |was| :: now[i] == if p <= i < p + n then c else was[i]
  }

  lemma StoredMore(was: seq<bv8>, mid: seq<bv8>, now: seq<bv8>, p: nat, m: nat, n: nat, c: bv8)
    requires Stored(was, mid, p, m, c) && Stored(mid, now, p + m, n, c)
    ensures Stored(was, now, p, m + n, c)
  {
  }

  /** *(u32 *)p = w, least significant byte first. */
  method Store32(mem: array<bv8>, p: nat, w: bv32, ghost c: bv8)
    requires p + 4 <= mem.Length && w == Word32(c)
    modifies mem
    ensures Stored(old(mem[..]), mem[..], p, 4, c)
  {
    BytesOfWord(c);
    hide Byte32, Word32;
    mem[p] := Byte32(w, 0);
    mem[p + 1] := Byte32(w, 1);
    mem[p + 2] := Byte32(w, 2);
    mem[p + 3] := Byte32(w, 3);
  }

  /** *(u64 *)p = w */
  method Store64(mem: array<bv8>, p: nat, w: bv64, ghost c: bv8)
    requires p + 8 <= mem.Length && w == Word64(c)
    modifies mem
    ensures Stored(old(mem[..]), mem[..], p, 8, c)
  {
    HalvesOfWord(c);
    hide *;
    ghost var was := mem[..];
    Store32(mem, p, LowHalf(w), c);
    ghost var mid := mem[..];
    Store32(mem, p + 4, HighHalf(w), c);
    StoredMore(was, mid, mem[..], p, 4, 4, c);
  }

  method StoreOne(mem: array<bv8>, p: nat, size: nat, c: bv8)
    requires p + size <= mem.Length && Fits(p, size) && (size == 1 || size == 4 || size == 8)
    modifies mem
    ensures Stored(old(mem[..]), mem[..], p, size, c)
  {
    hide Word32, Word64;
    if size == 1 {
      mem[p] := c;
    } else if size == 4 {
      Store32(mem, p, Word32(c), c);
    } else {
      Store64(mem, p, Word64(c), c);
    }
  }

  /** Stores of c up from p, written out one after the other in the source: a byte, or 32-bit or
      64-bit words at multiples of their size. */
  method Store(mem: array<bv8>, p: nat, len: nat, size: nat, c: bv8)
    requires p + len <= mem.Length && Fits(p, size) && Fits(len, size)
    modifies mem
    ensures Stored(old(mem[..]), mem[..], p, len, c)
  {
    ghost var was := mem[..];
    var k := 0;
    while k < len
      invariant k <= len && Fits(k, size) && Fits(p + k, size) && Stored(was, mem[..], p, k, c)
    {
      ghost var mid := mem[..];
      FitsNext(p, k, len, size);
      StoreOne(mem, p + k, size, c);
      StoredMore(was, mid, mem[..], p, k, size, c);
      k := k + size;
      hide *;
    }
  }

  /** Stores that start in the filled head extend it. */
  method StoreHead(mem: array<bv8>, p: nat, len: nat, size: nat, c: bv8, ghost was: seq<bv8>, ghost d: nat,
                   ghost n: nat, ghost h: nat, ghost t: nat) returns (ghost h': nat)
    requires Filled(was, mem[..], c, d, n, h, t) && d <= p <= d + h <= p + len <= d + n
    requires Fits(p, size) && Fits(len, size)
    modifies mem
    ensures h' == p + len - d && Filled(was, mem[..], c, d, n, h', t)
  {
    Store(mem, p, len, size, c);
    h' := p + len - d;
  }

  /** Stores that end in the filled tail extend it. */
  method StoreTail(mem: array<bv8>, p: nat, len: nat, size: nat, c: bv8, ghost was: seq<bv8>, ghost d: nat,
                   ghost n: nat, ghost h: nat, ghost t: nat) returns (ghost t': nat)
    requires Filled(was, mem[..], c, d, n, h, t) && d <= p <= d + n - t <= p + len <= d + n
    requires Fits(p, size) && Fits(len, size)
    modifies mem
    ensures t' == d + n - p && Filled(was, mem[..], c, d, n, h, t')
  {
    Store(mem, p, len, size, c);
    t' := d + n - p;
  }

  lemma Covered(was: seq<bv8>, now: seq<bv8>, c: bv8, d: nat, n: nat, h: nat, t: nat)
    requires Filled(was, now, c, d, n, h, t) && n <= h + t
    ensures Filled(was, now, c, d, n, n, 0)
  {
  }

  /** The first and last four bytes, with as few tests as the lengths need (memset.c:13-20). */
  method Edges(mem: array<bv8>, s: nat, c: bv8, n: nat)
    requires 0 < n && s + n <= mem.Length
    modifies mem
    ensures if n <= 8 then Filled(old(mem[..]), mem[..], c, s, n, n, 0)
            else Filled(old(mem[..]), mem[..], c, s, n, 4, 4)
  {
    ghost var was := mem[..];
    ghost var h, t: nat := 0, 0;
    assert Filled(was, mem[..], c, s, n, 0, 0);
    hide Filled;
    t := StoreTail(mem, s + n - 1, 1, 1, c, was, s, n, h, t);
    h := StoreHead(mem, s, 1, 1, c, was, s, n, h, t);
    if n <= 2 {
      Covered(was, mem[..], c, s, n, h, t);
      return;
    }
    t := StoreTail(mem, s + n - 2, 1, 1, c, was, s, n, h, t);
    h := StoreHead(mem, s + 1, 1, 1, c, was, s, n, h, t);
    t := StoreTail(mem, s + n - 3, 1, 1, c, was, s, n, h, t);
    h := StoreHead(mem, s + 2, 1, 1, c, was, s, n, h, t);
    if n <= 6 {
      Covered(was, mem[..], c, s, n, h, t);
      return;
    }
    t := StoreTail(mem, s + n - 4, 1, 1, c, was, s, n, h, t);
    h := StoreHead(mem, s + 3, 1, 1, c, was, s, n, h, t);
    if n <= 8 {
      Covered(was, mem[..], c, s, n, h, t);
    }
  }

  lemma EdgesFit(s: nat, m: nat)
    requires s % 4 == 0 && m % 4 == 0 && 4 <= m
    ensures Fits(4, 4) && Fits(8, 4) && Fits(16, 4) && Fits(s, 4) && Fits(s + m - 4, 4) && Fits(s + 4, 4)
    ensures m > 8 ==> 12 <= m && Fits(s + m - 12, 4) && Fits(s + 12, 4)
    ensures m > 24 ==> 28 <= m && Fits(s + m - 28, 4)
  {
  }

  /** Up to 28 bytes of words at either end of the aligned part [s, s + m) (memset.c:44-59). */
  method WordEdges(mem: array<bv8>, s: nat, c: bv8, m: nat, ghost was: seq<bv8>, ghost d: nat, ghost n: nat)
    requires s % 4 == 0 && d <= s <= d + 3 && m % 4 == 0 && 4 <= m && d + n - 3 <= s + m <= d + n
    requires Filled(was, mem[..], c, d, n, 4, 4)
    modifies mem
    ensures if m <= 24 then Filled(was, mem[..], c, d, n, n, 0)
            else Filled(was, mem[..], c, d, n, s + 28 - d, d + n - (s + m) + 28)
  {
    ghost var h, t: nat := 4, 4;
    SizeKept(was, mem[..], c, d, n, h, t);
    EdgesFit(s, m);
    hide *;
    h := StoreHead(mem, s, 4, 4, c, was, d, n, h, t);
    t := StoreTail(mem, s + m - 4, 4, 4, c, was, d, n, h, t);
    if m <= 8 {
      Covered(was, mem[..], c, d, n, h, t);
      return;
    }
    h := StoreHead(mem, s + 4, 8, 4, c, was, d, n, h, t);
    t := StoreTail(mem, s + m - 12, 8, 4, c, was, d, n, h, t);
    if m <= 24 {
      Covered(was, mem[..], c, d, n, h, t);
      return;
    }
    h := StoreHead(mem, s + 12, 16, 4, c, was, d, n, h, t);
    t := StoreTail(mem, s + m - 28, 16, 4, c, was, d, n, h, t);
  }

  lemma SizeKept(was: seq<bv8>, now: seq<bv8>, c: bv8, d: nat, n: nat, h: nat, t: nat)
    requires Filled(was, now, c, d, n, h, t)
    ensures |now| == |was| && d + n <= |was|
  {
  }

  /** 32 bytes at a time; what is left over, at most 28 bytes, the tail already holds
      (memset.c:69-79). */
  method Middle(mem: array<bv8>, s0: nat, c: bv8, m0: nat, ghost was: seq<bv8>, ghost d: nat, ghost n: nat, ghost t: nat)
    requires s0 % 8 == 0 && d <= s0 && m0 % 4 == 0 && s0 + m0 + t == d + n + 28 && 28 <= t
    requires Filled(was, mem[..], c, d, n, s0 - d, t)
    modifies mem
    ensures Filled(was, mem[..], c, d, n, n, 0)
  {
    SizeKept(was, mem[..], c, d, n, s0 - d, t);
    hide Filled;
    var s, m := s0, m0;
    while m >= 32
      invariant s % 8 == 0 && d <= s && 0 <= m && m % 4 == 0 && s + m == s0 + m0 && Filled(was, mem[..], c, d, n, s - d, t)
    {
      ghost var h := StoreHead(mem, s, 32, 8, c, was, d, n, s - d, t);
      m, s := m - 32, s + 32;
    }
    Covered(was, mem[..], c, d, n, s - d, t);
  }

  lemma Shorter(was: seq<bv8>, now: seq<bv8>, c: bv8, d: nat, n: nat, h: nat, h': nat, t: nat)
    requires Filled(was, now, c, d, n, h, t) && h' <= h
    ensures Filled(was, now, c, d, n, h', t)
  {
  }

  /** The words between the edges of a range of more than eight bytes. */
  lemma WordPart(d: nat, n: nat)
    requires 8 < n
    ensures var k := (4 - d % 4) % 4;
      && 0 <= k <= 3 && (d + k) % 4 == 0
      && (n - k) / 4 * 4 % 4 == 0 && 4 <= (n - k) / 4 * 4 && n - 3 <= k + (n - k) / 4 * 4 <= n
  {
  }

  lemma LongPart(s: nat, m: nat)
    requires s % 4 == 0 && m % 4 == 0 && 24 < m
    ensures var k := 24 + s % 8 / 4 * 4;
      24 <= k <= 28 && k <= m && (s + k) % 8 == 0 && (m - k) % 4 == 0
  {
    ghost var a, b := s / 4, m / 4;
    assert s == 4 * a && m == 4 * b;
    HalfLong(a);
  }

  lemma HalfLong(a: nat)
    ensures 4 * a % 8 / 4 == a % 2 && (4 * a + 24 + a % 2 * 4) % 8 == 0
  {
    var c, r := a / 2, a % 2;
    assert 4 * a == 8 * c + 4 * r;
  }

  /** memset: c in every byte of [dest, dest + n), and no other byte touched. */
  method Memset(mem: array<bv8>, dest: nat, c: bv8, n: nat)
    requires dest + n <= mem.Length
    modifies mem
    ensures Filled(old(mem[..]), mem[..], c, dest, n, n, 0)
  {
    ghost var was := mem[..];
    if n == 0 {
      return;
    }
    Edges(mem, dest, c, n);
    if n <= 8 {
      return;
    }
    hide *;
    WordPart(dest, n);
    var k := (4 - dest % 4) % 4;
    var s, m := dest + k, (n - k) / 4 * 4;
    WordEdges(mem, s, c, m, was, dest, n);
    if m <= 24 {
      return;
    }
    LongPart(s, m);
    k := 24 + s % 8 / 4 * 4;
    ghost var t: nat := dest + n - (s + m) + 28;
    Shorter(was, mem[..], c, dest, n, s + 28 - dest, s + k - dest, t);
    Middle(mem, s + k, c, m - k, was, dest, n, t);
  }
}
