/** __stpncpy (nolibc/stpncpy.c): the string word by word up to the word that holds its terminator,
    then byte by byte, then zeros to the end of the field. */
module Stpncpy {
  import opened Bytes
  import opened StringScan
  import opened Memmove
  import opened Memset

  /** The first k bytes of the field at d are the source's, and nothing outside the field changed. */
  ghost predicate Started(was: seq<bv8>, now: seq<bv8>, d: nat, s: nat, k: nat, n: nat) {
    && |now| == |was| && k <= n && d + n <= |was| && s + k <= |was| && Without(was, s, s + k, 0)
    && (forall i {:trigger now[i]} | d <= i < d + k :: now[i] == was[s + (i - d)])
    && (forall i {:trigger now[i]} | 0 <= i < |was| :: i < d || d + n <= i ==> now[i] == was[i])
  }

  /** The source the field gets: to the terminator, or n bytes, and clear of the field. */
  ghost predicate Source(was: seq<bv8>, d: nat, s: nat, n: nat) {
    && d + n <= |was| && |was| % 8 == 0
    && exists e :: Extent(was, d, s, n, e)
  }

  ghost predicate Extent(was: seq<bv8>, d: nat, s: nat, n: nat, e: nat) {
    && s <= e <= |was| && (e <= d || d + n <= s)
    && (e == s + n || (s < e <= s + n && was[e - 1] == 0))
  }

  /** What the field is in the end: the string, then zeros. */
  ghost predicate Padded(was: seq<bv8>, now: seq<bv8>, d: nat, s: nat, k: nat, n: nat) {
    && Started(was, now, d, s, k, n) && (k == n || (s + k < |was| && was[s + k] == 0))
    && forall i {:trigger now[i]} | d + k <= i < d + n :: now[i] == 0
  }

  /** A source byte still to come has not been written over. */
  lemma StillThere(was: seq<bv8>, now: seq<bv8>, d: nat, s: nat, k: nat, n: nat)
    requires Started(was, now, d, s, k, n) && Source(was, d, s, n) && k < n
    ensures s + k < |was| && now[s + k] == was[s + k]
  {
    var e: nat :| Extent(was, d, s, n, e);
    assert s + k < e;
  }

  /** One *d = *s, and whether it was not the terminator. */
  method CopyByte(mem: array<bv8>, d: nat, s: nat, k: nat, ghost n: nat, ghost was: seq<bv8>) returns (more: bool)
    requires Started(was, mem[..], d, s, k, n) && Source(was, d, s, n) && k < n
    modifies mem
    ensures if more then Started(was, mem[..], d, s, k + 1, n)
            else Started(was, mem[..], d, s, k, n) && s + k < |was| && was[s + k] == 0
  {
    StillThere(was, mem[..], d, s, k, n);
    mem[d + k] := mem[s + k];
    more := mem[d + k] != 0;
  }

  /** A source that ends within the next word shows its terminator there. */
  lemma TerminatorSeen(was: seq<bv8>, now: seq<bv8>, d: nat, s: nat, k: nat, n: nat, e: nat)
    requires Started(was, now, d, s, k, n) && Extent(was, d, s, n, e) && k + 8 <= n
    requires s + k + 8 <= |was| && e < s + k + 8
    ensures 0 in now[s + k..s + k + 8]
  {
    var i := e - 1;
    assert was[i] == 0 && s + k <= i && now[i] == was[i];
    assert now[s + k..s + k + 8][i - (s + k)] == 0;
  }

  /** Eight bytes without a terminator among them. */
  lemma WordStillThere(was: seq<bv8>, now: seq<bv8>, d: nat, s: nat, k: nat, n: nat)
    requires Started(was, now, d, s, k, n) && Source(was, d, s, n) && k + 8 <= n
    requires s + k + 8 <= |was| && 0 !in now[s + k..s + k + 8]
    ensures now[s + k..s + k + 8] == was[s + k..s + k + 8] && Without(was, s, s + k + 8, 0)
  {
    var e: nat :| Extent(was, d, s, n, e);
    var w := now[s + k..s + k + 8];
    if e < s + k + 8 {
      TerminatorSeen(was, now, d, s, k, n, e);
    }
    forall i | s + k <= i < s + k + 8 ensures now[i] == was[i] && was[i] != 0 {
      assert w[i - (s + k)] == now[i];
    }
  }

  method CopyWord(mem: array<bv8>, d: nat, s: nat, k: nat, ghost n: nat, ghost was: seq<bv8>)
    requires Started(was, mem[..], d, s, k, n) && Source(was, d, s, n) && k + 8 <= n
    requires s + k + 8 <= |was| && 0 !in mem[..][s + k..s + k + 8]
    requires (s + k) % 8 == 0 && (d + k) % 8 == 0
    modifies mem
    ensures Started(was, mem[..], d, s, k + 8, n)
  {
    WordStillThere(was, mem[..], d, s, k, n);
    var w := mem[s + k..s + k + 8];
    assert w == was[s + k..s + k + 8];
    StoreBytes(mem, d + k, w);
  }

  lemma WordInside(was: seq<bv8>, now: seq<bv8>, d: nat, s: nat, k: nat, n: nat)
    requires Source(was, d, s, n) && k + 8 <= n && (s + k) % 8 == 0 && Started(was, now, d, s, k, n)
    ensures s + k + 8 <= |was| == |now|
  {
    var e: nat :| Extent(was, d, s, n, e);
    assert s + k < e;
  }

  lemma NextWords(p: nat, q: nat)
    requires p % 8 == 0 && q % 8 == 0
    ensures (p + 8) % 8 == 0 && (q + 8) % 8 == 0
  {
  }

  /** Words while n allows and none holds a zero byte. */
  method CopyWords(mem: array<bv8>, d: nat, s: nat, k0: nat, left0: nat, ghost n: nat, ghost was: seq<bv8>)
    returns (k: nat, left: nat)
    requires Started(was, mem[..], d, s, k0, n) && Source(was, d, s, n) && k0 + left0 == n
    requires (s + k0) % 8 == 0 && (d + k0) % 8 == 0
    modifies mem
    ensures k + left == n && Started(was, mem[..], d, s, k, n)
  {
    hide *;
    k, left := k0, left0;
    while left >= 8
      invariant k + left == n && (s + k) % 8 == 0 && (d + k) % 8 == 0 && Started(was, mem[..], d, s, k, n)
    {
      WordInside(was, mem[..], d, s, k, n);
      var z := ZeroAt(mem, s + k, was);
      if z {
        break;
      }
      NextWords(s + k, d + k);
      CopyWord(mem, d, s, k, n, was);
      k, left := k + 8, left - 8;
    }
  }

  /** HASZERO(*ws) */
  method ZeroAt(mem: array<bv8>, i: nat, ghost was: seq<bv8>) returns (z: bool)
    requires i + 8 <= |was| == mem.Length
    ensures z <==> 0 in mem[..][i..i + 8]
  {
    ZeroInWord(mem[..], i);
    z := ZeroIn(mem[..], i);
  }

  /** stpncpy: the field holds the string and then zeros, or the first n bytes; the result points at
      the first zero, or past the field. */
  method Stpncpy(mem: array<bv8>, dest: nat, src: nat, n0: nat) returns (end: nat)
    requires Source(mem[..], dest, src, n0)
    modifies mem
    ensures dest <= end <= dest + n0 && Padded(old(mem[..]), mem[..], dest, src, end - dest, n0)
  {
    hide *;
    ghost var was := mem[..];
    var k, n, stop := Head(mem, dest, src, n0, was);
    if !stop {
      k, n := Bytewise(mem, dest, src, k, n, n0, was);
    }
    ghost var now := mem[..];
    FieldFits(was, now, dest, src, k, n0);
    Memset.Memset(mem, dest + k, 0, n);
    Finished(was, now, mem[..], dest, src, k, n0);
    end := dest + k;
  }

  /** for (; n && (*d=*s); n--, s++, d++) */
  method Bytewise(mem: array<bv8>, d: nat, s: nat, k0: nat, left0: nat, ghost n0: nat, ghost was: seq<bv8>)
    returns (k: nat, left: nat)
    requires Started(was, mem[..], d, s, k0, n0) && Source(was, d, s, n0) && k0 + left0 == n0
    modifies mem
    ensures k + left == n0 && Started(was, mem[..], d, s, k, n0)
    ensures left > 0 ==> s + k < |was| && was[s + k] == 0
  {
    hide *;
    k, left := k0, left0;
    while left > 0
      invariant k + left == n0 && Started(was, mem[..], d, s, k, n0)
      decreases left
    {
      var more := CopyByte(mem, d, s, k, n0, was);
      if !more {
        break;
      }
      k, left := k + 1, left - 1;
    }
  }

  /** The part for equal residues; stop tells that the terminator has been reached. */
  method Head(mem: array<bv8>, d: nat, s: nat, n0: nat, ghost was: seq<bv8>) returns (k: nat, n: nat, stop: bool)
    requires Source(was, d, s, n0) && mem[..] == was
    modifies mem
    ensures k + n == n0 && Started(was, mem[..], d, s, k, n0)
    ensures stop ==> s + k < |was| && was[s + k] == 0
  {
    k, n, stop := 0, n0, false;
    ghost var e: nat :| Extent(was, d, s, n0, e);
    assert Started(was, mem[..], d, s, 0, n0);
    hide *;
    if s % 8 != d % 8 {
      return;
    }
    while (s + k) % 8 != 0 && n > 0 && !stop
      invariant k + n == n0 && Started(was, mem[..], d, s, k, n0)
      invariant stop ==> s + k < |was| && was[s + k] == 0
      decreases n, !stop
    {
      var more := CopyByte(mem, d, s, k, n0, was);
      if more {
        k, n := k + 1, n - 1;
      } else {
        stop := true;
      }
    }
    if n == 0 || stop {
      return;
    }
    StillThere(was, mem[..], d, s, k, n0);
    FieldFits(was, mem[..], d, s, k, n0);
    if mem[s + k] == 0 {
      stop := true;
      return;
    }
    TogetherAligned(d, s, k);
    k, n := CopyWords(mem, d, s, k, n, n0, was);
  }

  lemma TogetherAligned(d: nat, s: nat, k: nat)
    requires s % 8 == d % 8 && (s + k) % 8 == 0
    ensures (d + k) % 8 == 0
  {
  }

  lemma FieldFits(was: seq<bv8>, now: seq<bv8>, d: nat, s: nat, k: nat, n: nat)
    requires Started(was, now, d, s, k, n)
    ensures |now| == |was| && d + n <= |was| && k <= n
  {
  }

  lemma Finished(was: seq<bv8>, now: seq<bv8>, end: seq<bv8>, d: nat, s: nat, k: nat, n: nat)
    requires Started(was, now, d, s, k, n) && Filled(now, end, 0, d + k, n - k, n - k, 0)
    requires k < n ==> s + k < |was| && was[s + k] == 0
    ensures Padded(was, end, d, s, k, n)
  {
  }
}
