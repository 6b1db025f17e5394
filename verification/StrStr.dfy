/** nolibc/strstr.c: Two-Way substring search. Needles of length five and more go through
    the maximal suffixes, the periodic memory and the bad-character table; shorter ones
    through a rolling word. Every search is proved to return the leftmost occurrence. */
module StrStr {
  import opened Arith
  import opened CString
  import opened Periodicity
  import StringScan

  // ---------- the haystack in memory ----------

  /** The haystack lies at address a, in memory that consists of whole words. */
  ghost predicate Holds(m: seq<bv8>, a: nat, h: seq<byte>) {
    && IsCString(h) && |m| % 8 == 0 && a + |h| <= |m|
    && forall i | 0 <= i < |h| :: m[a + i] as int == h[i]
  }

  lemma TerminatorAt(m: seq<bv8>, a: nat, h: seq<byte>, z: nat)
    requires Holds(m, a, h) && z < |h|
    ensures StringScan.Ends(m, a + z, |m|, 0)
  {
    assert m[a + (|h| - 1)] as int == h[|h| - 1] == 0;
  }

  /** What memchr(h + z, 0, grow) answers is where the terminator is, if not past the bound. */
  lemma FirstZero(m: seq<bv8>, a: nat, h: seq<byte>, z: nat, grow: nat, r: Option<nat>)
    requires Holds(m, a, h) && z < |h|
    requires r.Some? ==> a + z <= r.value < a + z + grow && r.value < |m| && m[r.value] == 0
    requires r.Some? ==> StringScan.Without(m, a + z, r.value, 0)
    requires r.None? ==> StringScan.Without(m, a + z, a + z + grow, 0)
    ensures r == if |h| - 1 < z + grow then Some(a + (|h| - 1)) else None
  {
    var end := |h| - 1;
    assert m[a + end] as int == h[end] == 0;
    forall i | a <= i < a + end ensures m[i] != 0 {
      assert m[a + (i - a)] as int == h[i - a];
    }
  }

  /** memchr(z, 0, grow): the terminator, if it lies in the window. */
  method MemchrNul(m: seq<bv8>, a: nat, ghost h: seq<byte>, z: nat, grow: nat) returns (r: Option<nat>)
    requires Holds(m, a, h) && z < |h|
    ensures r == if |h| - 1 < z + grow then Some(|h| - 1) else None
  {
    TerminatorAt(m, a, h, z);
    assert |m| % 8 == 0;
    hide Holds;
    var q := StringScan.Memchr(m, a + z, 0, grow);
    FirstZero(m, a, h, z, grow, q);
    r := if q.Some? then Some(q.value - a) else None;
  }

  // ---------- why each shift of the search loop is safe ----------

  /** Needle bytes lo..hi match the text when the needle lies at `pos`. */
  ghost predicate Matches(h: seq<byte>, pos: nat, n: seq<byte>, lo: nat, hi: nat) {
    forall i | lo <= i < hi && i < |n| :: pos + i < |h| && h[pos + i] == n[i]
  }

  /** Two placements of the needle that agree on the text around the cut give a repetition
      around the cut. */
  lemma OverlapIsLocalPeriod(h: seq<byte>, pos: nat, n: seq<byte>, at: nat, end: nat, d: nat)
    requires at <= end <= |n| && pos + end <= |h| && 1 <= d
    requires at + d <= end || end == |n|
    requires Matches(h, pos, n, at, end)
    requires Occurs(h, pos + d, n)
    ensures IsLocalPeriod(n, at, d)
  {
    forall i | at - d <= i < at && 0 <= i && i + d < |n| ensures n[i] == n[i + d] {
      assert h[pos + d + i] == n[i];
      assert h[pos + (i + d)] == n[i + d];
    }
  }

  /** A shift of at most k - at that works makes needle byte `k` match where the needle is
      now; so after a mismatch there none of those shifts works. */
  lemma RightMismatchShift(h: seq<byte>, pos: nat, n: seq<byte>, at: nat, other: nat, k: nat, d: nat, flip: bool)
    requires other <= at <= k < |n| && pos + k < |h|
    requires IsMaximalSuffix(n, at, flip) && IsMaximalSuffix(n, other, !flip)
    requires Matches(h, pos, n, at, k)
    requires 1 <= d <= k - at && Occurs(h, pos + d, n)
    ensures h[pos + k] == n[k]
  {
    OverlapIsLocalPeriod(h, pos, n, at, k, d);
    CriticalFactorization(n, at, other, d, flip);
    assert n[k - d] == n[k - d + d];
    assert h[pos + d + (k - d)] == n[k - d];
  }

  /** Where the right part matched, every shift that works is a period of the needle and
      longer than the left part. */
  lemma RightMatchShift(h: seq<byte>, pos: nat, n: seq<byte>, at: nat, other: nat, d: nat, flip: bool)
    requires other <= at < |n| && pos + |n| <= |h|
    requires IsMaximalSuffix(n, at, flip) && IsMaximalSuffix(n, other, !flip)
    requires Matches(h, pos, n, at, |n|)
    requires 1 <= d && Occurs(h, pos + d, n)
    ensures at < d && IsPeriod(n, d)
  {
    OverlapIsLocalPeriod(h, pos, n, at, |n|, d);
    CriticalFactorization(n, at, other, d, flip);
  }

  /** The step taken after a match of the right part: the least period of a periodic needle,
      and one more than the longer part of any other. */
  ghost predicate IsSafeStep(n: seq<byte>, at: nat, step: nat) {
    forall d: nat | at < d < step :: !IsPeriod(n, d)
  }

  /** memcmp(n, n+p, at) == 0: the left part recurs `p` places later. */
  ghost predicate LeftRecurs(n: seq<byte>, at: nat, p: nat)
    requires at + p <= |n|
  {
    forall i | 0 <= i < at :: n[i] == n[i + p]
  }

  lemma PeriodicStep(n: seq<byte>, at: nat, other: nat, p: nat, flip: bool)
    requires other <= at < |n| && at + p <= |n|
    requires IsMaximalSuffix(n, at, flip) && IsMaximalSuffix(n, other, !flip)
    requires IsLeastPeriod(n, at, |n|, p) && LeftRecurs(n, at, p)
    ensures IsPeriod(n, p) && at < p && IsSafeStep(n, at, p)
  {
    assert IsPeriod(n, p);
    CriticalFactorization(n, at, other, p, flip);
    forall d: nat | at < d < p ensures !IsPeriod(n, d) {
      PeriodNarrows(n, 0, |n|, at, |n|, d);
    }
  }

  lemma AperiodicStep(n: seq<byte>, at: nat, other: nat, p: nat, flip: bool)
    requires other <= at < |n| && at + p <= |n|
    requires IsMaximalSuffix(n, at, flip) && IsMaximalSuffix(n, other, !flip)
    requires IsLeastPeriod(n, at, |n|, p) && !LeftRecurs(n, at, p)
    ensures 1 <= at
    ensures IsSafeStep(n, at, if at > |n| - at then at else |n| - at + 1)
  {
    forall d: nat | at < d < |n| - at + 1 ensures !IsPeriod(n, d) {
      if IsPeriod(n, d) {
        ShortPeriodIsPeriodic(n, at, other, p, d, flip);
      }
    }
  }

  /** With the first |n| - p bytes already matched, a shift short of |n| - p that works makes
      the last byte match too; so after a mismatch there a smaller bad-character shift may be
      raised to |n| - p. */
  lemma RaisedShift(h: seq<byte>, pos: nat, n: seq<byte>, p: nat, d: nat)
    requires 1 <= p <= |n| && IsPeriod(n, p) && pos + |n| <= |h|
    requires Matches(h, pos, n, 0, |n| - p)
    requires 1 <= d < |n| - p && Occurs(h, pos + d, n)
    ensures h[pos + |n| - 1] == n[|n| - 1]
  {
    var b := |n| - p - d;
    assert h[pos + d + (|n| - 1 - d)] == n[|n| - 1 - d];
    assert n[b - 1] == n[b - 1 + p];
    assert h[pos + d + (b - 1)] == n[b - 1];
    assert h[pos + (d + b - 1)] == n[d + b - 1];
    assert n[|n| - p - 1] == n[|n| - p - 1 + p];
  }

  // ---------- the maximal-suffix scan ----------

  /** The scan has read n[..jp+k): the candidate starts at ip + 1, its least period is `p`,
      and its first and last full periods agree. */
  ghost predicate Scanning(n: seq<byte>, ip: int, jp: int, k: int, p: nat, flip: bool) {
    && -1 <= ip && 1 <= k <= p && ip + p <= jp && jp + k <= |n|
    && BeatsEarlier(n, ip + 1, flip)
    && Dominates(n, ip + 1, jp + k, flip)
    && IsLeastPeriod(n, ip + 1, jp + k, p)
    && Same(n, ip + 1, ip + 1 + p, jp - p - ip)
  }

  lemma FirstPeriodRecurs(n: seq<byte>, ip: int, jp: int, k: int, p: nat, flip: bool)
    requires Scanning(n, ip, jp, k, p, flip) && jp + k < |n|
    ensures n[ip + k] == n[jp + k - p]
    ensures Same(n, ip + 1, ip + k, jp - ip)
  {
    var g := jp - p - ip;
    assert n[ip + k] == n[ip + k + g];
    forall i | ip + 1 <= i < ip + k ensures n[i] == n[i + (jp - ip)] {
      assert n[i] == n[i + g];
      assert n[i + g] == n[i + g + p];
    }
  }

  lemma ScanEqual(n: seq<byte>, ip: int, jp: int, k: int, p: nat, flip: bool)
    requires Scanning(n, ip, jp, k, p, flip) && jp + k < |n| && n[ip + k] == n[jp + k]
    ensures k < p ==> Scanning(n, ip, jp, k + 1, p, flip)
    ensures k == p ==> Scanning(n, ip, jp + p, 1, p, flip)
  {
    StillLeast(n, ip, jp, k, p, flip);
    hide Dominates, BeatsEarlier, IsLeastPeriod;
    if k == p {
      FirstPeriodRecurs(n, ip, jp, k, p, flip);
    }
  }

  /** One more equal byte keeps the suffix dominant and its period least. */
  lemma StillLeast(n: seq<byte>, ip: int, jp: int, k: int, p: nat, flip: bool)
    requires Scanning(n, ip, jp, k, p, flip) && jp + k < |n| && n[ip + k] == n[jp + k]
    ensures Dominates(n, ip + 1, jp + k + 1, flip) && IsLeastPeriod(n, ip + 1, jp + k + 1, p)
  {
    var s, e, end := ip + 1, jp + k, jp + k + 1;
    FirstPeriodRecurs(n, ip, jp, k, p, flip);
    ExtendDominates(n, s, e, p, flip);
    forall d: nat | 1 <= d < p ensures !HasPeriod(n, s, end, d) {
      PeriodNarrows(n, s, end, s, e, d);
    }
    assert HasPeriod(n, s, end, p);
  }

  lemma ScanBelow(n: seq<byte>, ip: int, jp: int, k: int, p: nat, flip: bool)
    requires Scanning(n, ip, jp, k, p, flip) && jp + k < |n| && Above(n[ip + k], n[jp + k], flip)
    ensures Scanning(n, ip, jp + k, 1, jp + k - ip, flip)
  {
    var s, e := ip + 1, jp + k;
    assert n[ip + k] == n[e - p] by {
      FirstPeriodRecurs(n, ip, jp, k, p, flip);
    }
    ExtendDominates(n, s, e, p, flip);
    assert Same(n, s, e + 1, 0);
  }

  lemma ScanAbove(n: seq<byte>, ip: int, jp: int, k: int, p: nat, flip: bool)
    requires Scanning(n, ip, jp, k, p, flip) && jp + k < |n| && Above(n[jp + k], n[ip + k], flip)
    ensures Scanning(n, jp, jp + 1, 1, 1, flip)
  {
    FirstPeriodRecurs(n, ip, jp, k, p, flip);
    TakeOver(n, ip + 1, jp + 1, k - 1, flip);
  }

  /** Start (after ip) and least period of the largest suffix. In the original `ip` is a size_t
      that starts at -1; it only enters sums that wrap back. */
  method MaximalSuffix(n: seq<byte>, flip: bool) returns (ip: int, p: nat)
    requires 0 < |n|
    ensures -1 <= ip && ip + 1 + p <= |n|
    ensures IsMaximalSuffix(n, ip + 1, flip)
    ensures IsLeastPeriod(n, ip + 1, |n|, p)
  {
    var jp, k := 0, 1;
    ip, p := -1, 1;
    while jp + k < |n|
      invariant Scanning(n, ip, jp, k, p, flip)
      decreases |n| - ip, |n| - jp - k
    {
      if n[ip + k] == n[jp + k] {
        ScanEqual(n, ip, jp, k, p, flip);
        if k == p {
          jp := jp + p;
          k := 1;
        } else {
          k := k + 1;
        }
      } else if Above(n[ip + k], n[jp + k], flip) {
        ScanBelow(n, ip, jp, k, p, flip);
        jp := jp + k;
        k := 1;
        p := jp - ip;
      } else {
        ScanAbove(n, ip, jp, k, p, flip);
        ip := jp;
        jp := jp + 1;
        k := 1;
        p := 1;
      }
    }
  }

  // ---------- the search loop ----------

  /** The tables filled while measuring the needle: which bytes occur in it, and one more
      than the last index of each. */
  ghost predicate IsShiftTable(n: seq<byte>, byteset: seq<bool>, shift: seq<nat>) {
    && |byteset| == |shift| == 256
    && (forall c: byte :: byteset[c] <==> c in n)
    && (forall c: byte | c in n :: 1 <= shift[c] <= |n| && n[shift[c] - 1] == c)
    && (forall i | 0 <= i < |n| :: i < shift[n[i]])
  }

  /** Measures the needle against the haystack; None if the haystack ends first. */
  method Measure(h: seq<byte>, from: nat, n: seq<byte>, byteset: array<bool>, shift: array<nat>) returns (l: Option<nat>)
    requires IsCString(h) && IsCString(n) && from < |h|
    requires byteset.Length == shift.Length == 256 && forall c | 0 <= c < 256 :: !byteset[c]
    modifies byteset, shift
    ensures l.None? ==> from + |n| > |h|
    ensures l.Some? ==> l.value == |n| - 1 && IsShiftTable(Text(n), byteset[..], shift[..])
  {
    var i := 0;
    while n[i] != 0 && h[from + i] != 0
      invariant i < |n| && from + i < |h|
      invariant IsShiftTable(n[..i], byteset[..], shift[..])
      decreases |n| - i
    {
      byteset[n[i]] := true;
      shift[n[i]] := i + 1;
      assert n[..i + 1] == n[..i] + [n[i]];
      i := i + 1;
    }
    if n[i] != 0 {
      return None;
    }
    return Some(i);
  }

  /** The later of the two maximal suffixes, with its least period. */
  method CriticalPosition(n: seq<byte>) returns (ms: int, p: nat, ghost other: nat, ghost flip: bool)
    requires 0 < |n|
    ensures -1 <= ms && other <= ms + 1 && ms + 1 + p <= |n|
    ensures IsMaximalSuffix(n, ms + 1, flip) && IsMaximalSuffix(n, other, !flip)
    ensures IsLeastPeriod(n, ms + 1, |n|, p)
  {
    var p0;
    ms, p0 := MaximalSuffix(n, false);
    var ip;
    ip, p := MaximalSuffix(n, true);
    other, flip := if ip + 1 > ms + 1 then (ms + 1) else (ip + 1), ip + 1 > ms + 1;
    if ip + 1 > ms + 1 {
      ms := ip;
    } else {
      p := p0;
    }
  }

  /** memcmp(n, n+p, at) == 0. */
  method LeftPartRecurs(n: seq<byte>, at: nat, p: nat) returns (same: bool)
    requires at + p <= |n|
    ensures same <==> LeftRecurs(n, at, p)
  {
    var i := 0;
    while i < at && n[i] == n[i + p]
      invariant 0 <= i <= at && forall j | 0 <= j < i :: n[j] == n[j + p]
    {
      i := i + 1;
    }
    same := i == at;
  }

  /** The factorized needle: cut at `at`, stepping by `step` after a match of the right part,
      and remembering `mem0` matched bytes across that step. */
  ghost predicate IsPlan(n: seq<byte>, at: nat, other: nat, step: nat, mem0: nat, flip: bool) {
    && other <= at < |n|
    && IsMaximalSuffix(n, at, flip) && IsMaximalSuffix(n, other, !flip)
    && 1 <= step <= |n| && IsSafeStep(n, at, step)
    && (mem0 != 0 ==> mem0 == |n| - step && IsPeriod(n, step) && at < step)
  }

  /** Periodic needles step by their period and remember the rest; others forget. */
  method MakePlan(n: seq<byte>) returns (ms: int, p: nat, mem0: nat, ghost other: nat, ghost flip: bool)
    requires 0 < |n|
    ensures -1 <= ms && IsPlan(n, ms + 1, other, p, mem0, flip)
    ensures (mem0 == |n| - p && ms + 1 + p <= |n| && IsLeastPeriod(n, ms + 1, |n|, p) && LeftRecurs(n, ms + 1, p))
         || (mem0 == 0 && p == 1 + if ms > |n| - ms - 1 then ms else |n| - ms - 1)
  {
    var l := |n|;
    ms, p, other, flip := CriticalPosition(n);
    var recurs := LeftPartRecurs(n, ms + 1, p);
    if !recurs {
      AperiodicStep(n, ms + 1, other, p, flip);
      mem0 := 0;
      p := (if ms > l - ms - 1 then ms else l - ms - 1) + 1;
    } else {
      PeriodicStep(n, ms + 1, other, p, flip);
      mem0 := l - p;
    }
  }

  /** What the search knows at each turn: nothing occurs before `pos`, and the first `mem`
      needle bytes are known to match there. */
  ghost predicate Searching(h: seq<byte>, from: nat, pos: nat, n: seq<byte>, mem: nat) {
    && from <= pos && mem <= |n|
    && (forall j | from <= j < pos :: !Occurs(h, j, n))
    && Matches(h, pos, n, 0, mem)
  }

  lemma OccursByte(h: seq<byte>, at: nat, n: seq<byte>, i: nat)
    requires at <= i < at + |n| && i < |h|
    ensures Occurs(h, at, n) ==> h[i] == n[i - at]
  {
    if Occurs(h, at, n) {
      assert h[at + (i - at)] == n[i - at];
    }
  }

  lemma AbsentByte(h: seq<byte>, from: nat, pos: nat, n: seq<byte>, mem: nat)
    requires 0 < |n| && pos + |n| <= |h| && Searching(h, from, pos, n, mem)
    requires h[pos + |n| - 1] !in n
    ensures Searching(h, from, pos + |n|, n, 0)
  {
    forall j | pos <= j < pos + |n| ensures !Occurs(h, j, n) {
      OccursByte(h, j, n, pos + |n| - 1);
    }
  }

  /** The bad-character shift, and the longer one taken while bytes are remembered. */
  lemma BadCharacter(h: seq<byte>, from: nat, pos: nat, n: seq<byte>, p: nat, mem: nat, k: nat, next: nat)
    requires 0 < |n| && pos + |n| <= |h| && Searching(h, from, pos, n, mem)
    requires 1 <= k < |n| && forall i | 0 <= i < |n| && n[i] == h[pos + |n| - 1] :: i < |n| - k
    requires next <= k || (1 <= p && mem == next == |n| - p && IsPeriod(n, p))
    ensures Searching(h, from, pos + next, n, 0)
  {
    forall j | pos <= j < pos + next ensures !Occurs(h, j, n) {
      OccursByte(h, j, n, pos + |n| - 1);
      if j - pos >= k && Occurs(h, j, n) {
        RaisedShift(h, pos, n, p, j - pos);
      }
    }
  }

  lemma RightMismatch(h: seq<byte>, from: nat, pos: nat, n: seq<byte>, mem: nat, at: nat, other: nat, k: nat, flip: bool)
    requires other <= at <= k < |n| && pos + |n| <= |h| && Searching(h, from, pos, n, mem)
    requires IsMaximalSuffix(n, at, flip) && IsMaximalSuffix(n, other, !flip)
    requires Matches(h, pos, n, at, k) && h[pos + k] != n[k]
    ensures Searching(h, from, pos + k - at + 1, n, 0)
  {
    forall j | pos <= j < pos + k - at + 1 ensures !Occurs(h, j, n) {
      if j > pos && Occurs(h, j, n) {
        RightMismatchShift(h, pos, n, at, other, k, j - pos, flip);
      }
    }
  }

  lemma LeftMismatch(h: seq<byte>, from: nat, pos: nat, n: seq<byte>, mem: nat, at: nat, other: nat, step: nat,
                     mem0: nat, k: nat, flip: bool)
    requires pos + |n| <= |h| && Searching(h, from, pos, n, mem)
    requires IsPlan(n, at, other, step, mem0, flip)
    requires Matches(h, pos, n, at, |n|)
    requires k < at && h[pos + k] != n[k]
    ensures Searching(h, from, pos + step, n, mem0)
  {
    forall j | pos <= j < pos + step ensures !Occurs(h, j, n) {
      if j > pos && Occurs(h, j, n) {
        RightMatchShift(h, pos, n, at, other, j - pos, flip);
      }
    }
    forall i | 0 <= i < mem0 ensures h[pos + step + i] == n[i] {
      assert n[i] == n[i + step];
      assert h[pos + (i + step)] == n[i + step];
    }
  }

  /** Comparison of the right part starts past the bytes remembered. */
  lemma MatchesRight(h: seq<byte>, from: nat, pos: nat, n: seq<byte>, mem: nat, at: nat, k: nat)
    requires Searching(h, from, pos, n, mem)
    requires Matches(h, pos, n, if at > mem then at else mem, k)
    ensures Matches(h, pos, n, at, k)
  {
  }

  lemma Found(h: seq<byte>, from: nat, pos: nat, n: seq<byte>, mem: nat, k: nat, at: nat)
    requires pos + |n| <= |h| && Searching(h, from, pos, n, mem) && k <= mem
    requires Matches(h, pos, n, k, at) && Matches(h, pos, n, at, |n|)
    ensures IsLeftmost(h, from, n, Some(pos))
  {
  }

  lemma NoRoomLeft(h: seq<byte>, from: nat, pos: nat, n: seq<byte>, mem: nat)
    requires pos + |n| > |h| && Searching(h, from, pos, n, mem)
    ensures IsLeftmost(h, from, n, None)
  {
  }

  /** Two-Way search for needles of at least two bytes (used from five). */
  method TwoWay(m: seq<bv8>, a: nat, h: seq<byte>, from: nat, ndl: seq<byte>) returns (r: Option<nat>)
    requires Holds(m, a, h) && IsCString(ndl) && from < |h| && 1 < |ndl|
    ensures IsLeftmost(Text(h), from, Text(ndl), r)
  {
    var byteset, shift := new bool[256](_ => false), new nat[256](_ => 0);
    var l := Measure(h, from, ndl, byteset, shift);
    if l.None? {
      return None;
    }
    var ms, p, mem0;
    ghost var other, flip;
    ms, p, mem0, other, flip := MakePlan(ndl[..l.value]);
    r := Search(m, a, h, from, ndl, l.value, byteset[..], shift[..], ms, p, mem0, other, flip);
  }

  /** Moves the incremental end-of-haystack pointer; false if the needle no longer fits. */
  method ExtendWindow(m: seq<bv8>, a: nat, ghost h: seq<byte>, pos: nat, z0: nat, l: nat) returns (fits: bool, z: nat)
    requires Holds(m, a, h) && 1 <= l && pos <= z0 < |h|
    ensures fits <==> pos + l < |h|
    ensures fits ==> pos + l <= z < |h|
  {
    z := z0;
    if z - pos < l {
      var grow := l / 64 * 64 + 63; // l | 63
      var z2 := MemchrNul(m, a, h, z, grow);
      if z2.Some? {
        z := z2.value;
        if z - pos < l {
          return false, z;
        }
      } else {
        z := z + grow;
      }
    }
    fits := true;
  }

  /** Compares the right part from `start`; stops at a mismatch or at the needle's end. */
  method CompareRight(h: seq<byte>, pos: nat, ndl: seq<byte>, start: nat) returns (k: nat)
    requires IsCString(h) && IsCString(ndl) && start < |ndl| && pos + |ndl| <= |h|
    ensures start <= k < |ndl| && Matches(Text(h), pos, Text(ndl), start, k)
    ensures k < |ndl| - 1 ==> ndl[k] != 0 && h[pos + k] != ndl[k]
  {
    k := start;
    while ndl[k] != 0 && ndl[k] == h[pos + k]
      invariant start <= k < |ndl| && Matches(Text(h), pos, Text(ndl), start, k)
      decreases |ndl| - k
    {
      k := k + 1;
    }
  }

  /** Compares the left part downwards from `start` to the `mem` bytes already known. */
  method CompareLeft(h: seq<byte>, pos: nat, ndl: seq<byte>, start: nat, mem: nat) returns (k: nat)
    requires IsCString(h) && IsCString(ndl) && start < |ndl| && pos + |ndl| <= |h|
    ensures k <= start && Matches(Text(h), pos, Text(ndl), k, start)
    ensures mem < k ==> h[pos + k - 1] != ndl[k - 1]
  {
    k := start;
    while k > mem && ndl[k - 1] == h[pos + k - 1]
      invariant k <= start && Matches(Text(h), pos, Text(ndl), k, start)
    {
      k := k - 1;
    }
  }

  /** Checks the last byte of the window first: how far the tables let the needle move, or
      zero if that byte matches. */
  method LastByteShift(h: seq<byte>, ghost from: nat, pos: nat, ghost n: seq<byte>, l: nat,
                       byteset: seq<bool>, shift: seq<nat>, p: nat, mem0: nat, mem: nat) returns (k: nat)
    requires 1 <= l == |n| && pos + l < |h| && Searching(Text(h), from, pos, n, mem)
    requires IsShiftTable(n, byteset, shift)
    requires mem == 0 || mem == mem0
    requires mem0 != 0 ==> 1 <= p && mem0 == l - p && IsPeriod(n, p)
    ensures k <= l && (k != 0 ==> Searching(Text(h), from, pos + k, n, 0))
  {
    var last := h[pos + l - 1];
    if byteset[last] {
      k := l - shift[last];
      if k != 0 {
        ghost var bad := k;
        if mem0 != 0 && mem != 0 && k < p {
          k := l - p;
        }
        BadCharacter(Text(h), from, pos, n, p, mem, bad, k);
      }
    } else {
      AbsentByte(Text(h), from, pos, n, mem);
      k := l;
    }
  }

  /** Compares the right part, then the left part: an occurrence, or the safe move after the
      mismatch and what is remembered of the next window. */
  method CompareWindow(h: seq<byte>, ghost from: nat, pos0: nat, ndl: seq<byte>, ms: int, p: nat, mem0: nat,
                       known: nat, ghost other: nat, ghost flip: bool) returns (found: bool, pos: nat, mem: nat)
    requires IsCString(h) && IsCString(ndl) && from < |h| && 1 < |ndl| && pos0 + |ndl| <= |h|
    requires -1 <= ms && IsPlan(Text(ndl), ms + 1, other, p, mem0, flip)
    requires (known == 0 || known == mem0) && Searching(Text(h), from, pos0, Text(ndl), known)
    ensures if found then pos == pos0 && IsLeftmost(Text(h), from, Text(ndl), Some(pos))
            else pos0 < pos < pos0 + |ndl| && (mem == 0 || mem == mem0) && Searching(Text(h), from, pos, Text(ndl), mem)
  {
    ghost var n, text, at: nat := Text(ndl), Text(h), ms + 1;
    found, pos, mem := false, pos0, 0;
    hide IsMaximalSuffix, IsSafeStep, IsPeriod, IsLeftmost, Searching, Matches, IsCString;
    var k := CompareRight(h, pos, ndl, if ms + 1 > known then ms + 1 else known);
    MatchesRight(text, from, pos, n, known, at, k);
    if ndl[k] != 0 {
      RightMismatch(text, from, pos, n, known, at, other, k, flip);
      return false, pos + (k - ms), 0;
    }
    k := CompareLeft(h, pos, ndl, ms + 1, known);
    if k <= known {
      Found(text, from, pos, n, known, k, at);
      return true, pos, known;
    }
    LeftMismatch(text, from, pos, n, known, at, other, p, mem0, k - 1, flip);
    return false, pos + p, mem0;
  }

  method Search(m: seq<bv8>, a: nat, h: seq<byte>, from: nat, ndl: seq<byte>, l: nat, byteset: seq<bool>, shift: seq<nat>,
                ms: int, p: nat, mem0: nat, ghost other: nat, ghost flip: bool) returns (r: Option<nat>)
    requires Holds(m, a, h) && IsCString(h) && IsCString(ndl) && from < |h| && 1 <= l == |ndl| - 1
    requires IsShiftTable(Text(ndl), byteset, shift)
    requires -1 <= ms && IsPlan(Text(ndl), ms + 1, other, p, mem0, flip)
    ensures IsLeftmost(Text(h), from, Text(ndl), r)
  {
    ghost var n, text, at: nat := Text(ndl), Text(h), ms + 1;
    var pos, z, mem := from, from, 0;
    assert Searching(text, from, from, n, 0);
    assert ndl[l] == 0;
    hide IsMaximalSuffix, IsSafeStep, IsPeriod, IsLeftmost, Searching, Matches, IsShiftTable, IsCString, Holds;
    while true
      invariant pos <= z < |h|
      invariant mem == 0 || mem == mem0
      invariant Searching(text, from, pos, n, mem)
      decreases |h| - pos
    {
      var fits;
      fits, z := ExtendWindow(m, a, h, pos, z, l);
      if !fits {
        NoRoomLeft(text, from, pos, n, mem);
        return None;
      }
      var k := LastByteShift(h, from, pos, n, l, byteset, shift, p, mem0, mem);
      if k != 0 {
        pos := pos + k;
        mem := 0;
        continue;
      }
      var found;
      found, pos, mem := CompareWindow(h, from, pos, ndl, ms, p, mem0, mem, other, flip);
      if found {
        return Some(pos);
      }
    }
  }

  // ---------- short needles: a rolling word ----------

  function Word(a: byte, b: byte, c: byte, d: byte): (w: nat) {
    a * 0x100_0000 + b * 0x1_0000 + c * 0x100 + d
  }

  /** The rolling word of the `size` bytes ending at index `i`; three bytes sit on top. */
  function WordAt(s: seq<byte>, i: nat, size: nat): nat
    requires 2 <= size <= 4 && size <= i + 1 && i < |s|
  {
    if size == 2 then Word(0, 0, s[i - 1], s[i])
    else if size == 3 then Word(s[i - 2], s[i - 1], s[i], 0)
    else Word(s[i - 3], s[i - 2], s[i - 1], s[i])
  }

  lemma WordStep(s: seq<byte>, i: nat, size: nat)
    requires 2 <= size <= 4 && size <= i + 1 && i + 1 < |s|
    ensures size == 2 ==> WordAt(s, i + 1, size) == WordAt(s, i, size) * 0x100 % 0x1_0000 + s[i + 1]
    ensures size == 3 ==> WordAt(s, i + 1, size) == (WordAt(s, i, size) + s[i + 1]) * 0x100 % 0x1_0000_0000
    ensures size == 4 ==> WordAt(s, i + 1, size) == WordAt(s, i, size) * 0x100 % 0x1_0000_0000 + s[i + 1]
  {
    if size == 2 {
      DivModUnique(WordAt(s, i, size) * 0x100, 0x1_0000, s[i - 1], Word(0, 0, s[i], 0));
    } else if size == 3 {
      var low := Word(s[i - 1], s[i], s[i + 1], 0);
      DivModUnique((WordAt(s, i, size) + s[i + 1]) * 0x100, 0x1_0000_0000, s[i - 2], low);
    } else {
      var low := Word(s[i - 2], s[i - 1], s[i], 0);
      DivModUnique(WordAt(s, i, size) * 0x100, 0x1_0000_0000, s[i - 3], low);
    }
  }

  lemma WordInjective(a: byte, b: byte, c: byte, d: byte, a': byte, b': byte, c': byte, d': byte)
    requires Word(a, b, c, d) == Word(a', b', c', d')
    ensures a == a' && b == b' && c == c' && d == d'
  {
  }

  /** The rolling words agree exactly when the needle occurs in the window. */
  lemma WindowWord(h: seq<byte>, i: nat, n: seq<byte>)
    requires 3 <= |n| <= 5 && |n| <= i + 2 && i + 1 < |h|
    ensures WordAt(h, i, |n| - 1) == WordAt(n, |n| - 2, |n| - 1) <==> Occurs(Text(h), i + 2 - |n|, Text(n))
  {
    var size, at := |n| - 1, i + 2 - |n|;
    if WordAt(h, i, size) == WordAt(n, size - 1, size) {
      if size == 2 {
        WordInjective(0, 0, h[i - 1], h[i], 0, 0, n[0], n[1]);
      } else if size == 3 {
        WordInjective(h[i - 2], h[i - 1], h[i], 0, n[0], n[1], n[2], 0);
      } else {
        WordInjective(h[i - 3], h[i - 2], h[i - 1], h[i], n[0], n[1], n[2], n[3]);
      }
    }
    if Occurs(Text(h), at, Text(n)) {
      forall k | 0 <= k < size ensures h[at + k] == n[k] {
        assert Text(h)[at + k] == Text(n)[k];
      }
    }
  }

  /** No occurrence ends before index `i`. */
  ghost predicate Rolled(h: seq<byte>, from: nat, n: seq<byte>, i: nat) {
    forall j | from <= j && j + |n| <= i :: !Occurs(h, j, n)
  }

  lemma Roll(h: seq<byte>, from: nat, n: seq<byte>, i: nat)
    requires Rolled(h, from, n, i) && |n| <= i + 1 && !Occurs(h, i + 1 - |n|, n)
    ensures Rolled(h, from, n, i + 1)
  {
  }

  lemma Rest(h: seq<byte>, from: nat, n: seq<byte>, i: nat)
    requires Rolled(h, from, n, i) && from + |n| <= i + 1
    ensures i == |h| ==> IsLeftmost(h, from, n, None)
    ensures Occurs(h, i + 1 - |n|, n) ==> IsLeftmost(h, from, n, Some(i + 1 - |n|))
  {
  }

  method TwoByte(h: seq<byte>, from: nat, n: seq<byte>) returns (r: Option<nat>)
    requires IsCString(h) && IsCString(n) && |n| == 3
    requires from + 2 < |h|
    ensures IsLeftmost(Text(h), from, Text(n), r)
  {
    var nw := WordAt(n, 1, 2);
    var i := from + 1;
    var hw: nat := WordAt(h, i, 2);
    hide IsLeftmost, Rolled, Occurs, WordAt;
    while h[i] != 0 && hw != nw
      invariant from + 1 <= i < |h| && Rolled(Text(h), from, Text(n), i)
      invariant hw == WordAt(h, i, 2)
      decreases |h| - i
    {
      WindowWord(h, i, n);
      Roll(Text(h), from, Text(n), i);
      WordStep(h, i, 2);
      i := i + 1;
      hw := hw * 0x100 % 0x1_0000 + h[i];
    }
    if h[i] == 0 {
      Rest(Text(h), from, Text(n), i);
      return None;
    }
    WindowWord(h, i, n);
    Rest(Text(h), from, Text(n), i);
    return Some(i - 1);
  }

  method ThreeByte(h: seq<byte>, from: nat, n: seq<byte>) returns (r: Option<nat>)
    requires IsCString(h) && IsCString(n) && |n| == 4
    requires from + 3 < |h|
    ensures IsLeftmost(Text(h), from, Text(n), r)
  {
    var nw := WordAt(n, 2, 3);
    var i := from + 2;
    var hw: nat := WordAt(h, i, 3);
    hide IsLeftmost, Rolled, Occurs, WordAt;
    while h[i] != 0 && hw != nw
      invariant from + 2 <= i < |h| && Rolled(Text(h), from, Text(n), i)
      invariant hw == WordAt(h, i, 3)
      decreases |h| - i
    {
      WindowWord(h, i, n);
      Roll(Text(h), from, Text(n), i);
      WordStep(h, i, 3);
      i := i + 1;
      hw := (hw + h[i]) * 0x100 % 0x1_0000_0000; // (hw | h[i]) << 8: the low byte of hw is zero
    }
    if h[i] == 0 {
      Rest(Text(h), from, Text(n), i);
      return None;
    }
    WindowWord(h, i, n);
    Rest(Text(h), from, Text(n), i);
    return Some(i - 2);
  }

  method FourByte(h: seq<byte>, from: nat, n: seq<byte>) returns (r: Option<nat>)
    requires IsCString(h) && IsCString(n) && |n| == 5
    requires from + 4 < |h|
    ensures IsLeftmost(Text(h), from, Text(n), r)
  {
    var nw := WordAt(n, 3, 4);
    var i := from + 3;
    var hw: nat := WordAt(h, i, 4);
    hide IsLeftmost, Rolled, Occurs, WordAt;
    while h[i] != 0 && hw != nw
      invariant from + 3 <= i < |h| && Rolled(Text(h), from, Text(n), i)
      invariant hw == WordAt(h, i, 4)
      decreases |h| - i
    {
      WindowWord(h, i, n);
      Roll(Text(h), from, Text(n), i);
      WordStep(h, i, 4);
      i := i + 1;
      hw := hw * 0x100 % 0x1_0000_0000 + h[i];
    }
    if h[i] == 0 {
      Rest(Text(h), from, Text(n), i);
      return None;
    }
    WindowWord(h, i, n);
    Rest(Text(h), from, Text(n), i);
    return Some(i - 3);
  }

  /** strchr(h, c): what strchrnul finds, unless it is the terminator. */
  method Strchr(m: seq<bv8>, a: nat, ghost h: seq<byte>, b: bv8) returns (r: Option<nat>)
    requires Holds(m, a, h) && b != 0
    ensures r.None? ==> b as int !in h
    ensures r.Some? ==> r.value < |h| && h[r.value] == b as int && b as int !in h[..r.value]
  {
    TerminatorAt(m, a, h, 0);
    assert |m| % 8 == 0;
    hide Holds;
    var q := StringScan.Strchrnul(m, a, b);
    FirstOrEnd(m, a, h, b, q);
    r := if m[q] == b then Some(q - a) else None;
  }

  lemma FirstOrEnd(m: seq<bv8>, a: nat, h: seq<byte>, b: bv8, q: nat)
    requires Holds(m, a, h) && b != 0
    requires a <= q < |m| && (m[q] == b || m[q] == 0)
    requires StringScan.Without(m, a, q, b) && StringScan.Without(m, a, q, 0)
    ensures q - a < |h| && h[q - a] == m[q] as int && b as int !in h[..q - a]
    ensures m[q] == b || b as int !in h
  {
    var end := |h| - 1;
    assert m[a + end] as int == h[end] == 0;
    assert q <= a + end;
    assert m[a + (q - a)] as int == h[q - a];
    forall i | 0 <= i < q - a ensures h[i] != b as int {
      assert m[a + i] as int == h[i] && m[a + i] != b;
    }
  }

  /** No occurrence starts before the first copy of the needle's first byte. */
  lemma SkipToFirstByte(h: seq<byte>, from: nat, n: seq<byte>, r: Option<nat>)
    requires from <= |h| && 0 < |n| && n[0] !in h[..from]
    requires IsLeftmost(h, from, n, r)
    ensures IsLeftmost(h, 0, n, r)
  {
    forall j: nat | j < from ensures !Occurs(h, j, n) {
      OccursByte(h, j, n, j);
    }
  }

  /** strstr of the strings h and n at addresses a and b: the leftmost occurrence of the needle, None
      exactly when there is none. */
  method Strstr(m: seq<bv8>, a: nat, h: seq<byte>, b: nat, n: seq<byte>) returns (r: Option<nat>)
    requires Holds(m, a, h) && Holds(m, b, n)
    ensures IsLeftmost(Text(h), 0, Text(n), r)
  {
    if n[0] == 0 {
      return Some(0);
    }
    assert m[b + 0] as int == n[0];
    var first := Strchr(m, a, h, m[b]);
    if first.None? || n[1] == 0 {
      ghost var from := if first.None? then |h| - 1 else first.value;
      SkipToFirstByte(Text(h), from, Text(n), first);
      return first;
    }
    var s := first.value;
    if h[s + 1] == 0 {
      r := None;
    } else if n[2] == 0 {
      r := TwoByte(h, s, n);
    } else if h[s + 2] == 0 {
      r := None;
    } else if n[3] == 0 {
      r := ThreeByte(h, s, n);
    } else if h[s + 3] == 0 {
      r := None;
    } else if n[4] == 0 {
      r := FourByte(h, s, n);
    } else {
      r := TwoWay(m, a, h, s, n);
    }
    SkipToFirstByte(Text(h), s, Text(n), r);
  }
}
