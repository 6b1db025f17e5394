/** memmove (nolibc/memmove.c): forward or backward by how the ranges lie, eight bytes at a time
    when both sides reach a word boundary together. */
module Memmove {
  import opened Memcpy

  /** (uintptr_t)p % WS == 0 */
  predicate OnBoundary(p: nat) {
    p % 8 == 0
  }

  /** Source bytes the copy has not written over: those after the part done when it goes forward
      below the source, those before it when it goes backward above the source. */
  lemma Unwritten(was: seq<bv8>, now: seq<bv8>, d: nat, s: nat, lo: nat, hi: nat, i: nat)
    requires Copied(was, now, d, s, lo, hi) && s + i < |was|
    requires (d < s && lo == 0 && hi <= i) || (s < d && i < lo)
    ensures |now| == |was| && now[s + i] == was[s + i]
  {
    assert !(d + lo <= s + i < d + hi);
  }

  /** d[k] = s[k], just after or just before the part done. */
  method MoveByte(mem: array<bv8>, d: nat, s: nat, lo: nat, hi: nat, k: nat, ghost was: seq<bv8>)
    requires Copied(was, mem[..], d, s, lo, hi) && d + k < mem.Length && s + k < mem.Length
    requires (d < s && lo == 0 && k == hi) || (s < d && k + 1 == lo)
    modifies mem
    ensures Copied(was, mem[..], d, s, if d < s then 0 else k, if d < s then hi + 1 else hi)
  {
    Unwritten(was, mem[..], d, s, lo, hi, k);
    mem[d + k] := mem[s + k];
  }

  /** *(WT *)(d+k) = *(WT *)(s+k): the whole word is read before any of it is written. */
  method MoveWord(mem: array<bv8>, d: nat, s: nat, lo: nat, hi: nat, k: nat, ghost was: seq<bv8>)
    requires Copied(was, mem[..], d, s, lo, hi) && d + k + 8 <= mem.Length && s + k + 8 <= mem.Length
    requires (d + k) % 8 == 0 && (s + k) % 8 == 0
    requires (d < s && lo == 0 && k == hi) || (s < d && k + 8 == lo)
    modifies mem
    ensures Copied(was, mem[..], d, s, if d < s then 0 else k, if d < s then hi + 8 else hi)
  {
    ghost var now := mem[..];
    forall i | s + k <= i < s + k + 8 ensures now[i] == was[i] {
      Unwritten(was, now, d, s, lo, hi, i - s);
    }
    var w := mem[s + k..s + k + 8];
    assert forall j {:trigger w[j]} | 0 <= j < 8 :: w[j] == was[s + k + j];
    StoreBytes(mem, d + k, w);
  }

  method StoreBytes(mem: array<bv8>, p: nat, w: seq<bv8>)
    requires |w| == 8 && p + 8 <= mem.Length
    modifies mem
    ensures forall i {:trigger mem[i]} | 0 <= i < mem.Length ::
              mem[i] == if p <= i < p + 8 then w[i - p] else old(mem[i])
  {
    forall i | p <= i < p + 8 {
      mem[i] := w[i - p];
    }
  }

  /** memmove: the destination holds the source as it was, and nothing else changed, however the
      ranges overlap. */
  method Memmove(mem: array<bv8>, dest: nat, src: nat, n0: nat)
    requires dest + n0 <= mem.Length && src + n0 <= mem.Length
    modifies mem
    ensures Copied(old(mem[..]), mem[..], dest, src, 0, n0)
  {
    if dest == src {
      return;
    }
    if Apart(dest, src, n0) {
      Memcpy.Memcpy(mem, dest, src, n0);
      return;
    }
    if dest < src {
      Forward(mem, dest, src, n0);
    } else {
      Backward(mem, dest, src, n0);
    }
  }

  /** The bytes below the first word boundary, then whole words up. */
  method WordsUp(mem: array<bv8>, d: nat, s: nat, n0: nat, ghost was: seq<bv8>) returns (k: nat)
    requires d < s && s + n0 <= mem.Length && s % 8 == d % 8 && Copied(was, mem[..], d, s, 0, 0)
    modifies mem
    ensures k <= n0 && Copied(was, mem[..], d, s, 0, k)
  {
    hide *;
    k := 0;
    var n := n0;
    while !OnBoundary(d + k)
      invariant 0 <= n && k + n == n0 && Copied(was, mem[..], d, s, 0, k)
      decreases n
    {
      if n == 0 {
        return;
      }
      n := n - 1;
      MoveByte(mem, d, s, 0, k, k, was);
      k := k + 1;
    }
    SameBoundary(d, s, k);
    while n >= 8
      invariant 0 <= n && k + n == n0 && Copied(was, mem[..], d, s, 0, k)
      invariant OnBoundary(d + k) && OnBoundary(s + k)
    {
      NextWord(d + k);
      NextWord(s + k);
      MoveWord(mem, d, s, 0, k, k, was);
      n, k := n - 8, k + 8;
    }
  }

  method Forward(mem: array<bv8>, d: nat, s: nat, n0: nat)
    requires d < s && s + n0 <= mem.Length
    modifies mem
    ensures Copied(old(mem[..]), mem[..], d, s, 0, n0)
  {
    ghost var was := mem[..];
    var k := 0;
    NothingCopied(was, d, s, 0);
    hide *;
    if s % 8 == d % 8 {
      k := WordsUp(mem, d, s, n0, was);
    }
    while k < n0
      invariant k <= n0 && Copied(was, mem[..], d, s, 0, k)
    {
      MoveByte(mem, d, s, 0, k, k, was);
      k := k + 1;
    }
  }

  /** Both sides reach a word boundary together. */
  lemma SameBoundary(d: nat, s: nat, k: nat)
    requires s % 8 == d % 8 && OnBoundary(d + k)
    ensures OnBoundary(s + k)
  {
  }

  lemma NextWord(p: nat)
    requires OnBoundary(p)
    ensures p % 8 == 0 && OnBoundary(p + 8) && (p >= 8 ==> OnBoundary(p - 8) && (p - 8) % 8 == 0)
  {
  }

  lemma NothingCopied(was: seq<bv8>, d: nat, s: nat, k: nat)
    requires d + k <= |was| && s + k <= |was|
    ensures Copied(was, was, d, s, k, k)
  {
  }

  /** The bytes above the last word boundary, then whole words down. */
  method WordsDown(mem: array<bv8>, d: nat, s: nat, n0: nat, ghost was: seq<bv8>) returns (n: nat)
    requires s < d && d + n0 <= mem.Length && s % 8 == d % 8 && Copied(was, mem[..], d, s, n0, n0)
    modifies mem
    ensures n <= n0 && Copied(was, mem[..], d, s, n, n0)
  {
    hide *;
    n := n0;
    while !OnBoundary(d + n)
      invariant n <= n0 && Copied(was, mem[..], d, s, n, n0)
      decreases n
    {
      if n == 0 {
        return;
      }
      n := n - 1;
      MoveByte(mem, d, s, n + 1, n0, n, was);
    }
    SameBoundary(d, s, n);
    while n >= 8
      invariant n <= n0 && Copied(was, mem[..], d, s, n, n0)
      invariant OnBoundary(d + n) && OnBoundary(s + n)
    {
      NextWord(d + n);
      NextWord(s + n);
      n := n - 8;
      MoveWord(mem, d, s, n + 8, n0, n, was);
    }
  }

  method Backward(mem: array<bv8>, d: nat, s: nat, n0: nat)
    requires s < d && d + n0 <= mem.Length
    modifies mem
    ensures Copied(old(mem[..]), mem[..], d, s, 0, n0)
  {
    ghost var was := mem[..];
    var n := n0;
    NothingCopied(was, d, s, n0);
    hide *;
    if s % 8 == d % 8 {
      n := WordsDown(mem, d, s, n0, was);
    }
    while n > 0
      invariant 0 <= n <= n0 && Copied(was, mem[..], d, s, n, n0)
    {
      n := n - 1;
      MoveByte(mem, d, s, n + 1, n0, n, was);
    }
  }
}
