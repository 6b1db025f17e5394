/** memcpy (nolibc/memcpy.c) on one byte memory; an address is an index, so that alignment is the
    index modulo the word size, and every word is loaded and stored at a multiple of four. */
module Memcpy {

  // ---------- 32-bit words, little-endian ----------

  function Join32(b0: bv8, b1: bv8, b2: bv8, b3: bv8): bv32 {
    (b0 as bv32) | (b1 as bv32 << 8) | (b2 as bv32 << 16) | (b3 as bv32 << 24)
  }

  function Load32(m: seq<bv8>, i: nat): bv32
    requires i + 4 <= |m|
  {
    Join32(m[i], m[i + 1], m[i + 2], m[i + 3])
  }

  function Byte32(w: bv32, k: nat): bv8 {
    if k == 0 then (w & 0xff) as bv8 else if k == 1 then ((w >> 8) & 0xff) as bv8
    else if k == 2 then ((w >> 16) & 0xff) as bv8 else ((w >> 24) & 0xff) as bv8
  }

  lemma JoinBytes(b0: bv8, b1: bv8, b2: bv8, b3: bv8)
    ensures var w := Join32(b0, b1, b2, b3);
      Byte32(w, 0) == b0 && Byte32(w, 1) == b1 && Byte32(w, 2) == b2 && Byte32(w, 3) == b3
  {
  }

  /** (w LS 8h) | (x RS 32-8h): the last 4 - h bytes of w, then the first h of x. */
  function Merge(w: bv32, x: bv32, h: nat): bv32 {
    if h == 1 then (w >> 8) | (x << 24) else if h == 2 then (w >> 16) | (x << 16) else (w >> 24) | (x << 8)
  }

  lemma Merge1(w0: bv8, w1: bv8, w2: bv8, w3: bv8, x0: bv8, x1: bv8, x2: bv8, x3: bv8)
    ensures Merge(Join32(w0, w1, w2, w3), Join32(x0, x1, x2, x3), 1) == Join32(w1, w2, w3, x0)
  {
  }

  lemma Merge2(w0: bv8, w1: bv8, w2: bv8, w3: bv8, x0: bv8, x1: bv8, x2: bv8, x3: bv8)
    ensures Merge(Join32(w0, w1, w2, w3), Join32(x0, x1, x2, x3), 2) == Join32(w2, w3, x0, x1)
  {
  }

  lemma Merge3(w0: bv8, w1: bv8, w2: bv8, w3: bv8, x0: bv8, x1: bv8, x2: bv8, x3: bv8)
    ensures Merge(Join32(w0, w1, w2, w3), Join32(x0, x1, x2, x3), 3) == Join32(w3, x0, x1, x2)
  {
  }

  /** Merging two aligned words reads the unaligned word across them. */
  lemma MergeLoads(m: seq<bv8>, i: nat, h: nat)
    requires 1 <= h <= 3 && h <= i && i + 8 - h <= |m|
    ensures Merge(Load32(m, i - h), Load32(m, i + 4 - h), h) == Load32(m, i)
  {
    var a, b := i - h, i + 4 - h;
    hide Join32, Merge;
    if h == 1 {
      Merge1(m[a], m[a + 1], m[a + 2], m[a + 3], m[b], m[b + 1], m[b + 2], m[b + 3]);
    } else if h == 2 {
      Merge2(m[a], m[a + 1], m[a + 2], m[a + 3], m[b], m[b + 1], m[b + 2], m[b + 3]);
    } else {
      Merge3(m[a], m[a + 1], m[a + 2], m[a + 3], m[b], m[b + 1], m[b + 2], m[b + 3]);
    }
  }

  // ---------- what has been copied ----------

  /** Bytes lo..hi of the source as it was are in the destination, and no other byte changed. */
  ghost predicate Copied(was: seq<bv8>, now: seq<bv8>, d: nat, s: nat, lo: nat, hi: nat) {
    && |now| == |was| && lo <= hi && d + hi <= |was| && s + hi <= |was|
    && forall i {:trigger now[i]} | 0 <= i < |was| ::
         now[i] == if d + lo <= i < d + hi then was[s + (i - d)] else was[i]
  }

  /** d and s are far enough apart for n bytes. */
  predicate Apart(d: nat, s: nat, n: nat) {
    d + n <= s || s + n <= d
  }

  /** *d++ = *s++ */
  method Put1(mem: array<bv8>, d: nat, s: nat, k: nat, ghost was: seq<bv8>)
    requires Copied(was, mem[..], d, s, 0, k) && d + k < mem.Length && s + k < mem.Length
    requires d + k <= s + k || s + k < d
    modifies mem
    ensures Copied(was, mem[..], d, s, 0, k + 1)
  {
    ghost var now := mem[..];
    assert now[s + k] == was[s + k];
    mem[d + k] := mem[s + k];
  }

  /** *(u32 *)d = w, for the next four bytes w. */
  method Put4(mem: array<bv8>, d: nat, s: nat, k: nat, w: bv32, ghost was: seq<bv8>)
    requires Copied(was, mem[..], d, s, 0, k) && d + k + 4 <= mem.Length && s + k + 4 <= mem.Length
    requires (d + k) % 4 == 0 && w == Load32(was, s + k)
    modifies mem
    ensures Copied(was, mem[..], d, s, 0, k + 4)
  {
    JoinBytes(was[s + k], was[s + k + 1], was[s + k + 2], was[s + k + 3]);
    hide Join32, Byte32;
    mem[d + k] := Byte32(w, 0);
    mem[d + k + 1] := Byte32(w, 1);
    mem[d + k + 2] := Byte32(w, 2);
    mem[d + k + 3] := Byte32(w, 3);
  }

  /** *(u32 *)s, from source bytes not yet written over. */
  method Get4(mem: array<bv8>, ghost d: nat, ghost s: nat, ghost k: nat, ghost n: nat, i: nat, ghost was: seq<bv8>)
    returns (w: bv32)
    requires Copied(was, mem[..], d, s, 0, k) && k <= n && Apart(d, s, n)
    requires i % 4 == 0 && s <= i && i + 4 <= s + n <= mem.Length
    ensures w == Load32(was, i)
  {
    hide Join32;
    ghost var now := mem[..];
    assert forall j | i <= j < i + 4 :: now[j] == was[j];
    w := Join32(mem[i], mem[i + 1], mem[i + 2], mem[i + 3]);
  }

  // ---------- memcpy ----------

  /** count times *d++ = *s++, written out in the source. */
  method Run(mem: array<bv8>, d: nat, s: nat, k0: nat, count: nat, ghost n: nat, ghost was: seq<bv8>) returns (k: nat)
    requires Copied(was, mem[..], d, s, 0, k0) && Apart(d, s, n) && k0 + count <= n
    requires d + n <= mem.Length && s + n <= mem.Length
    modifies mem
    ensures k == k0 + count && Copied(was, mem[..], d, s, 0, k)
  {
    k := k0;
    while k < k0 + count
      invariant k0 <= k <= k0 + count && Copied(was, mem[..], d, s, 0, k)
    {
      hide Copied;
      Put1(mem, d, s, k, was);
      k := k + 1;
    }
  }

  /** count words from the aligned source to the aligned destination, written out in the source. */
  method Words(mem: array<bv8>, d: nat, s: nat, k0: nat, count: nat, ghost n: nat, ghost was: seq<bv8>) returns (k: nat)
    requires Copied(was, mem[..], d, s, 0, k0) && Apart(d, s, n) && k0 + 4 * count <= n
    requires d + n <= mem.Length && s + n <= mem.Length && (s + k0) % 4 == 0 && (d + k0) % 4 == 0
    modifies mem
    ensures k == k0 + 4 * count && Copied(was, mem[..], d, s, 0, k)
  {
    k := k0;
    var j := 0;
    while j < count
      invariant 0 <= j <= count && k == k0 + 4 * j && Copied(was, mem[..], d, s, 0, k)
    {
      hide Copied, Load32;
      var w := Get4(mem, d, s, k, n, s + k, was);
      Put4(mem, d, s, k, w, was);
      k, j := k + 4, j + 1;
    }
  }

  /** The bytes left below 32, by the bits of their number. */
  method Rest(mem: array<bv8>, d: nat, s: nat, k0: nat, left: nat, ghost n: nat, ghost was: seq<bv8>)
    requires Copied(was, mem[..], d, s, 0, k0) && Apart(d, s, n) && k0 + left == n && left < 32
    requires d + n <= mem.Length && s + n <= mem.Length
    modifies mem
    ensures Copied(was, mem[..], d, s, 0, n)
  {
    hide Copied;
    var k := k0;
    var b8, b4, b2, b1 := Bits(left % 16);
    if left / 16 % 2 == 1 {
      k := Run(mem, d, s, k, 16, n, was);
    }
    if b8 {
      k := Run(mem, d, s, k, 8, n, was);
    }
    if b4 {
      k := Run(mem, d, s, k, 4, n, was);
    }
    if b2 {
      k := Run(mem, d, s, k, 2, n, was);
    }
    if b1 {
      k := Run(mem, d, s, k, 1, n, was);
    }
  }

  /** n&8, n&4, n&2, n&1 */
  method Bits(n: nat) returns (b8: bool, b4: bool, b2: bool, b1: bool)
    requires n < 16
    ensures n == (if b8 then 8 else 0) + (if b4 then 4 else 0) + (if b2 then 2 else 0) + (if b1 then 1 else 0)
  {
    b8, b4, b2, b1 := n / 8 % 2 == 1, n / 4 % 2 == 1, n / 2 % 2 == 1, n % 2 == 1;
  }

  /** Both aligned: sixteen bytes at a time, then what the bits of the rest call for. */
  method Aligned(mem: array<bv8>, d: nat, s: nat, k0: nat, left0: nat, ghost n: nat, ghost was: seq<bv8>)
    requires Copied(was, mem[..], d, s, 0, k0) && Apart(d, s, n) && k0 + left0 == n
    requires d + n <= mem.Length && s + n <= mem.Length
    requires (d + k0) % 4 == 0 && (left0 == 0 || (s + k0) % 4 == 0)
    modifies mem
    ensures Copied(was, mem[..], d, s, 0, n)
  {
    hide *;
    var k, left := k0, left0;
    while left >= 16
      invariant 0 <= left && k + left == n && Copied(was, mem[..], d, s, 0, k)
      invariant (d + k) % 4 == 0 && (left == 0 || (s + k) % 4 == 0)
    {
      k := Words(mem, d, s, k, 4, n, was);
      left := left - 16;
    }
    var b8, b4, b2, b1 := Bits(left);
    if b8 {
      k := Words(mem, d, s, k, 2, n, was);
    }
    if b4 {
      k := Words(mem, d, s, k, 1, n, was);
    }
    if b2 {
      k := Run(mem, d, s, k, 2, n, was);
    }
    if b1 {
      k := Run(mem, d, s, k, 1, n, was);
    }
  }

  /** Two destination words from the word in hand and the next two source words. */
  method Merge8(mem: array<bv8>, d: nat, s: nat, k0: nat, h: nat, w0: bv32, ghost n: nat, ghost was: seq<bv8>)
    returns (k: nat, w: bv32)
    requires 1 <= h <= 3 && h <= k0 && k0 + 12 - h <= n && Apart(d, s, n) && |was| == mem.Length
    requires Copied(was, mem[..], d, s, 0, k0) && d + n <= mem.Length && s + n <= mem.Length
    requires (s + k0 - h) % 4 == 0 && (d + k0) % 4 == 0 && w0 == Load32(was, s + k0 - h)
    modifies mem
    ensures k == k0 + 8 && Copied(was, mem[..], d, s, 0, k) && w == Load32(was, s + k - h)
  {
    hide *;
    var x := Get4(mem, d, s, k0, n, s + k0 + 4 - h, was);
    MergeLoads(was, s + k0, h);
    Put4(mem, d, s, k0, Merge(w0, x, h), was);
    w := Get4(mem, d, s, k0 + 4, n, s + k0 + 8 - h, was);
    MergeLoads(was, s + k0 + 4, h);
    Put4(mem, d, s, k0 + 4, Merge(x, w, h), was);
    k := k0 + 8;
  }

  /** One turn: four destination words. */
  method Merge16(mem: array<bv8>, d: nat, s: nat, k0: nat, h: nat, w0: bv32, ghost n: nat, ghost was: seq<bv8>)
    returns (k: nat, w: bv32)
    requires 1 <= h <= 3 && h <= k0 && k0 + 20 - h <= n && Apart(d, s, n) && |was| == mem.Length
    requires Copied(was, mem[..], d, s, 0, k0) && d + n <= mem.Length && s + n <= mem.Length
    requires (s + k0 - h) % 4 == 0 && (d + k0) % 4 == 0 && w0 == Load32(was, s + k0 - h)
    modifies mem
    ensures k == k0 + 16 && Copied(was, mem[..], d, s, 0, k) && w == Load32(was, s + k - h)
    ensures (s + k - h) % 4 == 0 && (d + k) % 4 == 0
  {
    hide *;
    k, w := Merge8(mem, d, s, k0, h, w0, n, was);
    k, w := Merge8(mem, d, s, k, h, w, n, was);
  }

  /** The source aligned, the destination 4 - h bytes past alignment: words merged from two loads,
      every source word loaded once (memcpy.c:51-98, one loop for each h). */
  method Misaligned(mem: array<bv8>, d: nat, s: nat, k0: nat, left0: nat, h: nat, ghost n: nat, ghost was: seq<bv8>)
    returns (k: nat, left: nat)
    requires 1 <= h <= 3 && 32 <= left0 && k0 + left0 == n && Apart(d, s, n)
    requires Copied(was, mem[..], d, s, 0, k0) && d + n <= mem.Length && s + n <= mem.Length
    requires (s + k0) % 4 == 0 && (d + k0 + h) % 4 == 0
    modifies mem
    ensures k + left == n && left < 20 && Copied(was, mem[..], d, s, 0, k)
  {
    hide *;
    SameLength(was, mem[..], d, s, 0, k0);
    var w := Get4(mem, d, s, k0, n, s + k0, was);
    k := Run(mem, d, s, k0, h, n, was);
    left := left0 - h;
    while left >= 20 - h
      invariant k0 + h <= k && 4 - h <= left && k + left == n && Copied(was, mem[..], d, s, 0, k)
      invariant (s + k - h) % 4 == 0 && (d + k) % 4 == 0 && w == Load32(was, s + k - h)
    {
      k, w := Merge16(mem, d, s, k, h, w, n, was);
      left := left - 16;
    }
  }

  lemma SameLength(was: seq<bv8>, now: seq<bv8>, d: nat, s: nat, lo: nat, hi: nat)
    requires Copied(was, now, d, s, lo, hi)
    ensures |now| == |was|
  {
  }

  /** memcpy: the n source bytes are at dest and nothing else changed, for every length and every
      relative alignment. */
  method Memcpy(mem: array<bv8>, dest: nat, src: nat, n: nat)
    requires dest + n <= mem.Length && src + n <= mem.Length && Apart(dest, src, n)
    modifies mem
    ensures Copied(old(mem[..]), mem[..], dest, src, 0, n)
  {
    ghost var was := mem[..];
    var k, left := 0, n;
    while (src + k) % 4 != 0 && left > 0
      invariant 0 <= left && k + left == n && Copied(was, mem[..], dest, src, 0, k)
      decreases left
    {
      hide Copied;
      Put1(mem, dest, src, k, was);
      k, left := k + 1, left - 1;
    }
    hide Copied;
    if (dest + k) % 4 == 0 {
      Aligned(mem, dest, src, k, left, n, was);
      return;
    }
    if left >= 32 {
      k, left := Misaligned(mem, dest, src, k, left, 4 - (dest + k) % 4, n, was);
    }
    Rest(mem, dest, src, k, left, n, was);
  }
}
