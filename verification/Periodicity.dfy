/** Combinatorics on words behind the Two-Way string search: maximal suffixes under
    two opposite byte orders, and the critical factorization theorem they give. */
module Periodicity {
  import opened CString

  /** The two opposite byte orders; `flip` selects the second. */
  predicate Above(a: byte, b: byte, flip: bool) {
    if flip then a < b else a > b
  }

  /** Each byte of n[lo..hi) equals the byte `d` places later, where there is one. */
  ghost predicate Same(n: seq<byte>, lo: int, hi: int, d: nat) {
    forall i | lo <= i < hi && 0 <= i && i + d < |n| :: n[i] == n[i + d]
  }

  ghost predicate IsPeriod(n: seq<byte>, d: nat) {
    Same(n, 0, |n|, d)
  }

  /** `d` is a period of n[from..upto). */
  ghost predicate HasPeriod(n: seq<byte>, from: nat, upto: nat, d: nat) {
    Same(n, from, upto - d, d)
  }

  /** `d` is a repetition length around position `at`; it may hang over either end. */
  ghost predicate IsLocalPeriod(n: seq<byte>, at: nat, d: nat) {
    Same(n, at - d, at, d)
  }

  /** `p` is the least period of n[from..upto). */
  ghost predicate IsLeastPeriod(n: seq<byte>, from: nat, upto: nat, p: nat) {
    && 1 <= p
    && HasPeriod(n, from, upto, p)
    && forall d: nat | 1 <= d < p :: !HasPeriod(n, from, upto, d)
  }

  /** No suffix of n[..upto) that starts after `s` is larger than the one at `s`
      (a proper prefix being smaller). */
  ghost predicate Dominates(n: seq<byte>, s: nat, upto: nat, flip: bool)
    requires upto <= |n|
  {
    forall d: nat, e: nat | 1 <= d && s <= e && e + d < upto && Same(n, s, e, d) ::
      !Above(n[e + d], n[e], flip)
  }

  /** The suffix at `s - d` is smaller than the one at `s`, first differing at n[e]. */
  ghost predicate BeatsAt(n: seq<byte>, s: nat, d: nat, e: nat, flip: bool) {
    && 1 <= d <= s <= e < |n|
    && Same(n, s - d, e - d, d)
    && Above(n[e], n[e - d], flip)
  }

  ghost predicate Beats(n: seq<byte>, s: nat, d: nat, flip: bool) {
    exists e: nat :: BeatsAt(n, s, d, e, flip)
  }

  ghost predicate BeatsEarlier(n: seq<byte>, s: nat, flip: bool) {
    forall d: nat | 1 <= d <= s :: Beats(n, s, d, flip)
  }

  /** The suffix of `n` at `s` is the largest. */
  ghost predicate IsMaximalSuffix(n: seq<byte>, s: nat, flip: bool) {
    BeatsEarlier(n, s, flip) && Dominates(n, s, |n|, flip)
  }

  lemma PeriodNarrows(n: seq<byte>, from: nat, upto: nat, from': nat, upto': nat, d: nat)
    requires from <= from' && upto' <= upto
    ensures HasPeriod(n, from, upto, d) ==> HasPeriod(n, from', upto', d)
  {
  }

  // ---------- one step of the maximal-suffix scan ----------

  /** Reading the byte n[e], not above the one a period earlier, keeps `s` dominant;
      if it is strictly below, n[s..e] has no period but its length. */
  lemma ExtendDominates(n: seq<byte>, s: nat, e: nat, p: nat, flip: bool)
    requires e < |n| && s + p <= e
    requires Dominates(n, s, e, flip) && IsLeastPeriod(n, s, e, p)
    requires !Above(n[e], n[e - p], flip)
    ensures Dominates(n, s, e + 1, flip)
    ensures Above(n[e - p], n[e], flip) ==> IsLeastPeriod(n, s, e + 1, e + 1 - s)
  {
    forall d: nat, f: nat | 1 <= d && s <= f && f + d == e && Same(n, s, f, d)
      ensures !Above(n[e - p], n[f], flip)
    {
      assert HasPeriod(n, s, e, d);
      assert Same(n, s, f, d - p) by {
        forall i | s <= i < f ensures n[i] == n[i + d - p] {
          assert n[i] == n[i + d];
          assert n[i + d - p] == n[i + d - p + p];
        }
      }
    }
    if Above(n[e - p], n[e], flip) {
      var end := e + 1;
      forall d: nat | 1 <= d < end - s ensures !HasPeriod(n, s, end, d) {
        PeriodNarrows(n, s, end, s, e, d);
      }
    }
  }

  /** The first place where the suffixes at `q` and `s` differ below `upto`, if any. */
  lemma FirstMismatch(n: seq<byte>, lo: nat, hi: nat, d: nat) returns (e: nat)
    requires hi + d <= |n| && !Same(n, lo, hi, d)
    ensures lo <= e < hi && Same(n, lo, e, d) && n[e] != n[e + d]
  {
    e := lo;
    while n[e] == n[e + d]
      invariant lo <= e < hi && Same(n, lo, e, d)
      decreases hi - e
    {
      if e + 1 == hi {
        assert Same(n, lo, hi, d);
      }
      e := e + 1;
    }
  }

  /** Suffix `t` beats suffix `s`, and suffix `s` beats an earlier suffix `q`. */
  lemma BeatsThroughLater(n: seq<byte>, q: nat, s: nat, t: nat, k: nat, m: nat, flip: bool)
    requires q < s < t && s + k < |n| && t + m < |n|
    requires Same(n, q, q + k, s - q) && Above(n[s + k], n[q + k], flip)
    requires Same(n, s, s + m, t - s) && Above(n[t + m], n[s + m], flip)
    ensures Beats(n, t, t - q, flip)
  {
    var o, d, g := if k < m then k else m, t - q, s - q;
    forall i | q <= i < q + o ensures n[i] == n[i + d] {
      assert n[i] == n[i + g];
      assert n[i + g] == n[i + g + (t - s)];
    }
    assert o < k ==> n[q + o] == n[q + o + g];
    assert o < m ==> n[s + o] == n[s + o + (t - s)];
    assert BeatsAt(n, t, d, t + o, flip);
  }

  /** Suffix `t` beats suffix `s`, and suffix `s` is at least as large as a later suffix `q`
      as far as the first `m` bytes go, and larger unless they differ beyond. */
  lemma BeatsThroughEarlier(n: seq<byte>, s: nat, q: nat, t: nat, k: nat, m: nat, flip: bool)
    requires s < q < t && t + m < |n|
    requires Same(n, s, s + k, q - s)
    requires k < m ==> Above(n[s + k], n[q + k], flip)
    requires k == m ==> !Above(n[q + k], n[s + k], flip)
    requires Same(n, s, s + m, t - s) && Above(n[t + m], n[s + m], flip)
    ensures Beats(n, t, t - q, flip)
  {
    var o, d, g := if k < m then k else m, t - q, q - s;
    forall i | q <= i < q + o ensures n[i] == n[i + d] {
      assert n[i - g] == n[i - g + g];
      assert n[i - g] == n[i - g + (t - s)];
    }
    assert o < k ==> n[s + o] == n[s + o + g];
    assert o < m ==> n[s + o] == n[s + o + (t - s)];
    assert BeatsAt(n, t, d, t + o, flip);
  }

  /** A suffix at `t` that beats a dominant one at `s` beats the suffixes between. */
  lemma BeatsBetween(n: seq<byte>, s: nat, q: nat, t: nat, m: nat, flip: bool)
    requires s < q < t && t + m < |n|
    requires Dominates(n, s, t + m, flip)
    requires Same(n, s, s + m, t - s) && Above(n[t + m], n[s + m], flip)
    ensures Beats(n, t, t - q, flip)
  {
    var g, end := q - s, t + m - (q - s);
    if Same(n, s, end, g) {
      BeatsThroughEarlier(n, s, q, t, end - s, m, flip);
    } else {
      var e := FirstMismatch(n, s, end, g);
      BeatsThroughEarlier(n, s, q, t, e - s, m, flip);
    }
  }

  /** A suffix at `t` that beats the one at `s` after a shared m bytes beats every earlier one. */
  lemma TakeOver(n: seq<byte>, s: nat, t: nat, m: nat, flip: bool)
    requires s < t && t + m < |n|
    requires BeatsEarlier(n, s, flip) && Dominates(n, s, t + m, flip)
    requires Same(n, s, s + m, t - s)
    requires Above(n[t + m], n[s + m], flip)
    ensures BeatsEarlier(n, t, flip)
  {
    hide Same, Above;
    forall d: nat | 1 <= d <= t ensures Beats(n, t, d, flip) {
      var q := t - d;
      if q == s {
        assert BeatsAt(n, t, d, t + m, flip);
      } else if q < s {
        assert Beats(n, s, s - q, flip);
        var e: nat :| BeatsAt(n, s, s - q, e, flip);
        BeatsThroughLater(n, q, s, t, e - s, m, flip);
      } else {
        BeatsBetween(n, s, q, t, m, flip);
      }
    }
  }

  // ---------- critical factorization ----------

  /** A repetition around the start of a maximal suffix cannot fit inside its left part. */
  lemma RepetitionExceedsLeft(n: seq<byte>, at: nat, d: nat, flip: bool)
    requires at < |n| && IsMaximalSuffix(n, at, flip)
    requires 1 <= d && IsLocalPeriod(n, at, d)
    ensures at < d
  {
    if d <= at {
      assert Beats(n, at, d, flip);
      var e: nat :| BeatsAt(n, at, d, e, flip);
      assert Same(n, at, e - d, d);
      assert false;
    }
  }

  /** Critical factorization: cutting the needle at the later of its two maximal suffixes,
      every repetition around the cut is longer than the left part and is a period of the
      whole needle. */
  lemma CriticalFactorization(n: seq<byte>, at: nat, other: nat, d: nat, flip: bool)
    requires other <= at < |n|
    requires IsMaximalSuffix(n, at, flip) && IsMaximalSuffix(n, other, !flip)
    requires 1 <= d && IsLocalPeriod(n, at, d)
    ensures at < d && IsPeriod(n, d)
  {
    RepetitionExceedsLeft(n, at, d, flip);
    if !IsPeriod(n, d) {
      assert d < |n| && !Same(n, at, |n| - d, d);
      var e := FirstMismatch(n, at, |n| - d, d);
      assert !Above(n[e + d], n[e], flip);
      assert Same(n, other, e, d);
      assert false;
    }
  }

  /** If the right part has least period `p` and the needle has a period no longer than the
      right part, then `p` is a period of the whole needle. */
  lemma ShortPeriodIsPeriodic(n: seq<byte>, at: nat, other: nat, p: nat, d: nat, flip: bool)
    requires other <= at < |n|
    requires IsMaximalSuffix(n, at, flip) && IsMaximalSuffix(n, other, !flip)
    requires IsLeastPeriod(n, at, |n|, p)
    requires 1 <= d <= |n| - at && IsPeriod(n, d)
    ensures p <= d && IsPeriod(n, p)
    decreases d
  {
    assert HasPeriod(n, at, |n|, d);
    if p < d {
      assert IsLocalPeriod(n, at, d - p) by {
        forall i | at - (d - p) <= i < at && 0 <= i ensures n[i] == n[i + (d - p)] {
          assert n[i] == n[i + d];
          assert n[i + d - p] == n[i + d - p + p];
        }
      }
      CriticalFactorization(n, at, other, d - p, flip);
      ShortPeriodIsPeriodic(n, at, other, p, d - p, flip);
    }
  }
}
