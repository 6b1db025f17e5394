/** Bigint blocks and the allocator that recycles them (nolibc/dtoa.c:1515-1555 and
    1602-1675). Ownership is explicit: the pool owns the blocks on its free lists, a live
    block belongs to its caller, and no operation may touch a block it was not given. */
module BigintPool {
  import opened Arith
  import opened Words

  const KMAX := 7
  /** Size of the private arena in doubles (nolibc/dtoa.c:292-296). */
  const PRIVATE_MEM := 288

  /** A multi-word integer. `k` and the capacity maxwds = x.Length never change. */
  class Bigint {
    const k: nat
    const x: array<word>
    var next: Bigint?
    var sign: int
    var wds: nat

    constructor (k: nat)
      ensures this.k == k && fresh(x) && x.Length == Pow2(k) && wds == 0 && sign == 0
    {
      this.k := k;
      x := new word[Pow2(k)];
      next, sign, wds := null, 0, 0;
    }

    ghost function Repr(): set<object> {
      {this, x}
    }

    /** The invariant of every Bigint: capacity 2^k, at most maxwds words in use. An empty one
        reads as zero through x[0], which the carry loops always visit. */
    ghost predicate Valid()
      reads this`wds, x
    {
      && x.Length == Pow2(k)
      && wds <= x.Length
      && (wds == 0 ==> x[0] == 0)
    }

    ghost function Value(): nat
      reads this`wds, x
      requires wds <= x.Length
    {
      Val(x[..wds])
    }

    /** No leading zero word, except that zero itself may be one zero word. */
    ghost predicate Trimmed()
      reads this`wds, x
      requires wds <= x.Length
    {
      1 < wds ==> x[wds - 1] != 0
    }
  }

  /** One free list: the blocks of size `k` linked through `next`, kept bottom first in `chain`. */
  class FreeList {
    const k: nat
    var head: Bigint?
    ghost var chain: seq<Bigint>
    ghost var Repr: set<object>

    ghost predicate Valid()
      reads this, Repr
      ensures Valid() ==> this in Repr
    {
      && this in Repr
      && (if chain == [] then head == null else head == chain[|chain| - 1])
      && (forall i | 0 <= i < |chain| ::
            && chain[i] in Repr && chain[i].x in Repr
            && chain[i].k == k && chain[i].x.Length == Pow2(k))
      && (forall i {:trigger chain[i].next} | 0 <= i < |chain| ::
            if i == 0 then chain[i].next == null else chain[i].next == chain[i - 1])
      && (forall i, j | 0 <= i < j < |chain| :: chain[i] != chain[j] && chain[i].x != chain[j].x)
    }

    constructor (k: nat)
      ensures Valid() && fresh(Repr) && this.k == k && chain == []
    {
      this.k := k;
      head, chain, Repr := null, [], {this};
    }

    method Pop() returns (rv: Bigint)
      requires Valid() && head != null
      modifies this
      ensures Valid() && rv == old(head) && rv.k == k && rv.x.Length == Pow2(k)
      ensures chain + [rv] == old(chain) && Repr == old(Repr) - rv.Repr() && rv.Repr() <= old(Repr)
      ensures this in Repr
    {
      rv := head;
      head := rv.next;
      chain := chain[..|chain| - 1];
      Repr := Repr - {rv, rv.x};
    }

    method Push(v: Bigint)
      requires Valid() && v.Repr() !! Repr && v.k == k && v.x.Length == Pow2(k)
      modifies this, v`next
      ensures Valid() && chain == old(chain) + [v] && Repr == old(Repr) + v.Repr()
    {
      v.next := head;
      head := v;
      chain := chain + [v];
      Repr := Repr + {v, v.x};
    }
  }

  /** Size of a block in doubles: sizeof(Bigint) + (2^k - 1) words, rounded up (dtoa.c:1627-1628). */
  function Cells(k: nat): (n: nat)
    ensures 8 * (n - 1) < 32 + 4 * (Pow2(k) - 1) <= 8 * n // no more doubles than the bytes need
  {
    (32 + (Pow2(k) - 1) * 4 + 7) / 8
  }

  // ---------- the blocks a pool has made ----------

  /** No live block is on a free list, and no two share their words. */
  ghost predicate Apart(live: set<Bigint>, free: set<object>) {
    && (forall b | b in live :: b !in free && b.x !in free && b.x.Length == Pow2(b.k))
    && (forall b, c | b in live && c in live && b != c :: b.x != c.x)
  }

  /** The blocks carved from the arena lie inside its used part, without overlap. */
  ghost predicate Laid(place: map<Bigint, nat>, next: nat) {
    && next <= PRIVATE_MEM
    && (forall b | b in place :: b.k <= KMAX && place[b] + Cells(b.k) <= next)
    && (forall b, c | b in place && c in place && b != c ::
          place[b] + Cells(b.k) <= place[c] || place[c] + Cells(c.k) <= place[b])
  }

  /** Every block carved from the arena is live or on the list of its size. */
  ghost predicate Accounted(place: map<Bigint, nat>, live: set<Bigint>, chains: seq<seq<Bigint>>) {
    forall b | b in place :: b in live || (b.k < |chains| && b in chains[b.k])
  }

  /** A call took the live block b and left r in its place: b itself, or another that was not live. */
  ghost predicate Replaces(live: set<Bigint>, before: set<Bigint>, b: Bigint, r: Bigint) {
    live == before - {b} + {r} && r !in before - {b}
  }

  /** The same for a call that also made the blocks `made` and keeps them. */
  ghost predicate Renews(live: set<Bigint>, before: set<Bigint>, b: Bigint, r: Bigint, made: set<Bigint>) {
    live == before - {b} + {r} + made && r !in before - {b} + made && made !! before - {b}
  }

  lemma RenewAgain(live: set<Bigint>, mid: set<Bigint>, before: set<Bigint>, b: Bigint, r: Bigint, q: Bigint,
                   made: set<Bigint>, more: set<Bigint>)
    requires Renews(mid, before, b, r, made) && Renews(live, mid, r, q, more)
    ensures Renews(live, before, b, q, made + more) && q in live
  {
  }

  lemma Unmade(live: set<Bigint>, before: set<Bigint>, b: Bigint, r: Bigint)
    requires Replaces(live, before, b, r)
    ensures Renews(live, before, b, r, {}) && r in live
  {
  }

  lemma MakeMore(live: set<Bigint>, mid: set<Bigint>, before: set<Bigint>, b: Bigint, r: Bigint,
                 made: set<Bigint>, more: set<Bigint>)
    requires Renews(mid, before, b, r, made) && live == mid + more && more !! mid
    ensures Renews(live, before, b, r, made + more) && r in live
  {
  }

  lemma Taken(place: map<Bigint, nat>, live: set<Bigint>, free: set<object>, cs: seq<seq<Bigint>>, cs': seq<seq<Bigint>>,
              k: nat, b: Bigint)
    requires Apart(live, free) && Accounted(place, live, cs)
    requires b in free && b.x in free && b.x.Length == Pow2(b.k)
    requires |cs'| == |cs| && k < |cs| && cs' == cs[k := cs'[k]] && cs'[k] + [b] == cs[k]
    ensures b !in live && Apart(live + {b}, free - {b, b.x}) && Accounted(place, live + {b}, cs')
  {
    forall c | c in place ensures c in live + {b} || (c.k < |cs'| && c in cs'[c.k]) {
      if c !in live && c.k == k {
        assert c in cs'[k] + [b];
      }
    }
  }

  lemma Given(place: map<Bigint, nat>, live: set<Bigint>, free: set<object>, cs: seq<seq<Bigint>>, cs': seq<seq<Bigint>>,
              b: Bigint)
    requires Apart(live, free) && Accounted(place, live, cs) && b in live
    requires |cs'| == |cs| && b.k < |cs| && cs' == cs[b.k := cs[b.k] + [b]]
    ensures Apart(live - {b}, free + {b, b.x}) && Accounted(place, live - {b}, cs')
  {
    assert b in cs'[b.k];
  }

  /** free() of a block too large for the lists, which was never carved from the arena. */
  lemma Gone(place: map<Bigint, nat>, next: nat, live: set<Bigint>, free: set<object>, cs: seq<seq<Bigint>>, b: Bigint)
    requires Apart(live, free) && Accounted(place, live, cs) && Laid(place, next) && b.k > KMAX
    ensures Apart(live - {b}, free) && Accounted(place, live - {b}, cs)
  {
  }

  lemma Made(place: map<Bigint, nat>, next: nat, live: set<Bigint>, free: set<object>, cs: seq<seq<Bigint>>, b: Bigint)
    requires Apart(live, free) && Accounted(place, live, cs) && Laid(place, next)
    requires b !in live && b !in place && b !in free && b.x !in free && b.x.Length == Pow2(b.k)
    requires forall c | c in live :: c.x != b.x
    ensures Apart(live + {b}, free) && Accounted(place, live + {b}, cs)
    ensures b.k <= KMAX && next + Cells(b.k) <= PRIVATE_MEM ==>
      Laid(place[b := next], next + Cells(b.k)) && Accounted(place[b := next], live + {b}, cs)
  {
  }

  class Pool {
    const freelist: seq<FreeList>
    var pmem_next: nat
    ghost var Repr: set<object>
    /** The blocks handed out and not given back. */
    ghost var live: set<Bigint>
    /** Where in the arena the blocks carved from it start, in doubles. */
    ghost var place: map<Bigint, nat>

    /** The invariant over any sequence of calls. A live block is on no free list, and no two share
        their words; the blocks carved from the arena lie inside its used part without overlap, and
        each of them is live or on the list of its size. */
    ghost predicate Valid()
      reads this, Repr
      ensures Valid() ==> this in Repr
    {
      Lists() && Apart(live, Repr) && Laid(place, pmem_next) && Accounted(place, live, Chains())
    }

    ghost predicate Lists()
      reads this`Repr, Repr - {this}
      ensures Lists() ==> this in Repr && |freelist| == KMAX + 1
    {
      && this in Repr
      && |freelist| == KMAX + 1
      && (forall k | 0 <= k <= KMAX ::
            && freelist[k] in Repr && freelist[k].Repr <= Repr && this !in freelist[k].Repr
            && freelist[k].Valid() && freelist[k].k == k)
      && (forall j, k | 0 <= j < k <= KMAX :: freelist[j].Repr !! freelist[k].Repr)
    }

    ghost function Chains(): (cs: seq<seq<Bigint>>)
      reads freelist
      ensures |cs| == |freelist| && forall k | 0 <= k < |cs| :: cs[k] == freelist[k].chain
    {
      seq(|freelist|, k requires 0 <= k < |freelist| reads freelist => freelist[k].chain)
    }

    constructor ()
      ensures Valid() && fresh(Repr)
      ensures live == {} && place == map[] && pmem_next == 0 && forall k | 0 <= k <= KMAX :: freelist[k].chain == []
    {
      var lists: seq<FreeList> := [];
      ghost var all: set<object> := {};
      while |lists| <= KMAX
        invariant |lists| <= KMAX + 1 && fresh(all)
        invariant forall k | 0 <= k < |lists| ::
          && lists[k].Repr <= all && lists[k] in all
          && lists[k].Valid() && lists[k].k == k && lists[k].chain == []
        invariant forall j, k | 0 <= j < k < |lists| :: lists[j].Repr !! lists[k].Repr
        decreases KMAX - |lists|
      {
        var l := new FreeList(|lists|);
        lists := lists + [l];
        all := all + l.Repr;
      }
      freelist := lists;
      pmem_next, live, place := 0, {}, map[];
      Repr := {this} + all;
    }

    /** A new block, carved from the private arena while it lasts, else from malloc. */
    method NewBlock(k: nat) returns (rv: Bigint)
      requires Valid()
      modifies this`pmem_next, this`place, this`live
      ensures Valid() && live == old(live) + {rv} && rv !in old(live)
      ensures fresh(rv) && fresh(rv.x) && rv.k == k && rv.x.Length == Pow2(k)
      ensures if k <= 7 && 8 * (old(pmem_next) + Cells(k)) <= 2304
              then pmem_next == old(pmem_next) + Cells(k) && place == old(place)[rv := old(pmem_next)]
              else pmem_next == old(pmem_next) && place == old(place)
    {
      hide Lists, Apart, Laid, Accounted, Cells;
      ghost var cs := Chains();
      var len := Cells(k);
      rv := new Bigint(k);
      assert Chains() == cs;
      hide Chains;
      Made(place, pmem_next, live, Repr, cs, rv);
      if k <= KMAX && pmem_next + len <= PRIVATE_MEM {
        place := place[rv := pmem_next];
        pmem_next := pmem_next + len;
      }
      live := live + {rv};
    }

    /** A block of capacity 2^k: the one freed last, or a new one. */
    method Balloc(k: nat) returns (rv: Bigint)
      requires Valid()
      modifies Repr
      ensures Valid() && rv !in old(live) && live == old(live) + {rv}
      ensures rv.k == k && rv.x.Length == Pow2(k) && rv.wds == 0 && rv.sign == 0
      ensures rv.Repr() !! Repr && fresh(Repr + rv.Repr() - old(Repr))
      ensures k <= 7 && old(freelist[k].chain) != [] ==>
        && freelist[k].chain + [rv] == old(freelist[k].chain)
        && pmem_next == old(pmem_next) && place == old(place)
      ensures !(k <= 7 && old(freelist[k].chain) != []) ==> fresh(rv)
    {
      if k <= KMAX && freelist[k].head != null {
        rv := Recycle(k);
      } else {
        rv := NewBlock(k);
      }
      rv.sign, rv.wds := 0, 0;
    }

    /** rv = freelist[k]; freelist[k] = rv->next. */
    method Recycle(k: nat) returns (rv: Bigint)
      requires Valid() && k <= KMAX && freelist[k].head != null
      modifies Repr
      ensures Valid() && rv !in old(live) && live == old(live) + {rv}
      ensures rv.k == k && rv.x.Length == Pow2(k) && rv.Repr() !! Repr && Repr == old(Repr) - rv.Repr()
      ensures rv.Repr() <= old(Repr)
      ensures freelist[k].chain + [rv] == old(freelist[k].chain)
      ensures pmem_next == old(pmem_next) && place == old(place)
    {
      hide Lists, Apart, Laid, Accounted;
      rv := PopFrom(k);
      assert Repr == old(Repr) - {rv, rv.x};
      Taken(place, live, old(Repr), old(Chains()), Chains(), k, rv);
      live := live + {rv};
    }

    lemma LiveRepr(v: Bigint)
      requires Valid() && v in live
      ensures v.Repr() !! Repr && v.x.Length == Pow2(v.k)
    {
    }

    method PopFrom(k: nat) returns (rv: Bigint)
      requires Lists() && k <= KMAX && freelist[k].head != null
      modifies Repr
      ensures Lists() && Repr == old(Repr) - rv.Repr() && rv.Repr() <= old(Repr)
      ensures rv.k == k && rv.x.Length == Pow2(k)
      ensures live == old(live) && place == old(place) && pmem_next == old(pmem_next)
      ensures freelist[k].chain + [rv] == old(freelist[k].chain)
      ensures forall j | 0 <= j <= KMAX && j != k :: freelist[j].chain == old(freelist[j].chain)
    {
      rv := freelist[k].Pop();
      Repr := Repr - rv.Repr();
      forall j | 0 <= j <= KMAX
        ensures freelist[j].Valid() && freelist[j].k == j && rv.Repr() !! freelist[j].Repr
        ensures freelist[j] in Repr && freelist[j].Repr <= Repr && this !in freelist[j].Repr
      {
        assert old(freelist[j].Valid()) && rv.Repr() <= old(freelist[k].Repr);
        assert j != k ==> old(freelist[k].Repr) !! old(freelist[j].Repr);
      }
    }

    method PushOn(v: Bigint)
      requires Lists() && v.k <= KMAX && v.Repr() !! Repr && v.x.Length == Pow2(v.k)
      modifies Repr, v`next
      ensures Lists() && Repr == old(Repr) + v.Repr()
      ensures live == old(live) && place == old(place) && pmem_next == old(pmem_next)
      ensures freelist[v.k].chain == old(freelist[v.k].chain) + [v]
      ensures forall j | 0 <= j <= KMAX && j != v.k :: freelist[j].chain == old(freelist[j].chain)
    {
      freelist[v.k].Push(v);
      Repr := Repr + v.Repr();
      forall k | 0 <= k <= KMAX
        ensures freelist[k].Valid() && freelist[k].k == k
        ensures freelist[k] in Repr && freelist[k].Repr <= Repr && this !in freelist[k].Repr
      {
        assert old(freelist[k].Valid()) && v.Repr() !! old(freelist[k].Repr);
        assert k != v.k ==> old(freelist[v.k].Repr) !! old(freelist[k].Repr);
      }
    }

    /** Gives a block back: to its free list, or to free() when it is too large to keep. A null
        pointer is ignored. */
    method Bfree(v: Bigint?)
      requires Valid() && (v != null ==> v in live)
      modifies Repr, if v != null then {v} else {}
      ensures Valid() && pmem_next == old(pmem_next) && place == old(place)
      ensures v == null ==> Repr == old(Repr) && live == old(live)
      ensures v != null ==> live == old(live) - {v}
      ensures v != null ==> Repr == if v.k <= 7 then old(Repr) + v.Repr() else old(Repr)
      ensures v != null && v.k <= 7 ==> freelist[v.k].chain == old(freelist[v.k].chain) + [v]
    {
      if v != null {
        hide Valid;
        if v.k <= KMAX {
          Keep(v);
        } else {
          Release(v);
        }
      }
    }

    /** v->next = freelist[v->k]; freelist[v->k] = v. */
    method Keep(v: Bigint)
      requires Valid() && v in live && v.k <= KMAX
      modifies Repr, v
      ensures Valid() && pmem_next == old(pmem_next) && place == old(place)
      ensures live == old(live) - {v} && Repr == old(Repr) + v.Repr()
      ensures freelist[v.k].chain == old(freelist[v.k].chain) + [v]
    {
      hide Lists, Apart, Laid, Accounted;
      LiveRepr(v);
      ghost var cs := Chains();
      PushOn(v);
      ghost var cs' := Chains();
      assert cs' == cs[v.k := cs[v.k] + [v]];
      Given(place, live, old(Repr), cs, cs', v);
      live := live - {v};
      assert Chains() == cs';
    }

    /** free(v) */
    method Release(v: Bigint)
      requires Valid() && v in live && v.k > KMAX
      modifies this`live
      ensures Valid() && live == old(live) - {v}
    {
      hide Lists, Apart, Laid, Accounted;
      ghost var cs := Chains();
      Gone(place, pmem_next, live, Repr, cs, v);
      live := live - {v};
      assert Chains() == cs;
    }
  }
}
