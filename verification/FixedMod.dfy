/** The fixed-point core of both fmodl routines: a dividend and a divisor in two limbs each,
    reduced by shift and subtract. The limb size w is 2^64 in openlibm/ld128/e_fmodl.c and 2^32
    in openlibm/ld80/e_fmodl.c. */
module FixedMod {
  import opened Arith

  /** The number two limbs hold; the high one is signed in the source. */
  function Two(w: nat, h: int, l: int): int {
    h * w + l
  }

  lemma TwoZero(w: nat)
    ensures Two(w, 0, 0) == 0
  {
  }

  /** hx = hx+hx+(lx>>(bits-1)), lx = lx+lx. */
  method Double(w: nat, h: nat, l: nat) returns (h': nat, l': nat)
    requires 0 < w && w % 2 == 0 && l < w
    ensures Two(w, h', l') == 2 * Two(w, h, l) && l' < w
  {
    DivModUnique(l, w / 2, if l < w / 2 then 0 else 1, if l < w / 2 then l else l - w / 2);
    DivModUnique(l + l, w, if l < w / 2 then 0 else 1, if l < w / 2 then l + l else l + l - w);
    h' := h + h + l / (w / 2);
    l' := (l + l) % w;
    hide *;
    Distribute(2 * h, h' - 2 * h, w);
    Distribute(h, h, w);
  }

  /** hz = hx-hy, lz = lx-ly, with the borrow. */
  method Sub(w: nat, hx: nat, lx: nat, hy: nat, ly: nat) returns (hz: int, lz: nat)
    requires lx < w && ly < w
    ensures Two(w, hz, lz) == Two(w, hx, lx) - Two(w, hy, ly) && lz < w
    ensures hz < 0 <==> Two(w, hx, lx) < Two(w, hy, ly)
  {
    var borrow := if lx < ly then 1 else 0;
    DivModUnique(lx - ly, w, -borrow, lx - ly + borrow * w);
    hz := hx - hy;
    lz := (lx - ly) % w;
    if lx < ly {
      hz := hz - 1;
    }
    hide *;
    Distribute(hx, hy, w);
    Distribute(hx - hy, borrow, w);
    if hz < 0 {
      MulMono(hz, -1, w);
    } else {
      MulMono(0, hz, w);
    }
  }

  /** What one turn keeps: the dividend shifted so far is a multiple of y plus the remainder. */
  ghost predicate Reduced(x0: nat, y: nat, n: nat, r: nat) {
    r < 2 * y && exists k: nat :: x0 * Pow2(n) == k * y + r
  }

  lemma Start(x0: nat, y: nat)
    requires x0 < 2 * y
    ensures Reduced(x0, y, 0, x0)
  {
    assert x0 * Pow2(0) == 0 * y + x0;
  }

  lemma OneTurn(x0: nat, y: nat, n: nat, r: nat, z: nat)
    requires Reduced(x0, y, n, r) && z < y && (z == r || z + y == r)
    ensures Reduced(x0, y, n + 1, 2 * z)
  {
    var k: nat :| x0 * Pow2(n) == k * y + r;
    var c: nat := if z == r then 0 else 1;
    Assoc(x0, 2, Pow2(n));
    Distribute(k, c, y);
    Distribute(k + c, k + c, y);
    assert x0 * Pow2(n + 1) == (2 * (k + c)) * y + 2 * z;
  }

  lemma Finished(x0: nat, y: nat, n: nat, r: nat)
    requires 0 < y && Reduced(x0, y, n, r)
    ensures x0 * Pow2(n) % y == if r < y then r else r - y
  {
    var k: nat :| x0 * Pow2(n) == k * y + r;
    Distribute(k, 1, y);
    if r < y {
      DivModUnique(x0 * Pow2(n), y, k, r);
    } else {
      DivModUnique(x0 * Pow2(n), y, k + 1, r - y);
    }
  }

  /** An exact hit early on stays zero. */
  lemma StaysZero(x0: nat, y: nat, j: nat, n: nat)
    requires 0 < y && j <= n && x0 * Pow2(j) % y == 0
    ensures x0 * Pow2(n) % y == 0
  {
    var k, p := x0 * Pow2(j) / y, Pow2(n - j);
    DivModDef(x0 * Pow2(j), y);
    Pow2Add(j, n - j);
    Assoc(x0, Pow2(j), p);
    Assoc(k, y, p);
    assert x0 * Pow2(n) == k * p * y;
    DivModUnique(x0 * Pow2(n), y, k * p, 0);
  }

  /** The n-step loop and the last subtraction: x * 2^n mod y, for 0 < y and x < 2y. */
  method ShiftSubtract(w: nat, hx0: nat, lx0: nat, hy: nat, ly: nat, n: nat) returns (hx: nat, lx: nat)
    requires 0 < w && w % 2 == 0 && lx0 < w && ly < w
    requires 0 < Two(w, hy, ly) && Two(w, hx0, lx0) < 2 * Two(w, hy, ly)
    ensures lx < w && 0 <= Two(w, hx, lx)
    ensures Two(w, hx, lx) == Two(w, hx0, lx0) * Pow2(n) % Two(w, hy, ly)
  {
    MulMono(0, hx0, w);
    assert 0 <= Two(w, hx0, lx0);
    hide *;
    hx, lx := hx0, lx0;
    ghost var x0: nat, y: nat := Two(w, hx0, lx0), Two(w, hy, ly);
    Start(x0, y);
    var i := n;
    while i > 0
      invariant 0 <= i <= n && lx < w && 0 <= Two(w, hx, lx) < 2 * y
      invariant Reduced(x0, y, n - i, Two(w, hx, lx))
    {
      var hz, lz := Sub(w, hx, lx, hy, ly);
      ghost var r: nat := Two(w, hx, lx);
      if hz < 0 {
        OneTurn(x0, y, n - i, r, r);
        hx, lx := Double(w, hx, lx);
      } else {
        if hz == 0 && lz == 0 {
          TwoZero(w);
          Finished(x0, y, n - i, r);
          StaysZero(x0, y, n - i, n);
          hx, lx := 0, 0;
          return;
        }
        OneTurn(x0, y, n - i, r, r - y);
        hx, lx := Double(w, hz, lz);
      }
      i := i - 1;
    }
    Finished(x0, y, n, Two(w, hx, lx));
    var hz, lz := Sub(w, hx, lx, hy, ly);
    if hz >= 0 {
      hx, lx := hz, lz;
    }
  }

  lemma MovesUp(r: nat, u: nat, m: nat, t: nat)
    requires 0 < m && r < t && r * Pow2(u) == m * t
    ensures 0 < u && (2 * r) * Pow2(u - 1) == m * t
  {
    MulMono(1, m, t);
    assert Pow2(0) == 1;
    assert u != 0;
    Assoc(r, 2, Pow2(u - 1));
  }

  /** The remainder moved up until it fills its limbs; e falls by one for each place. */
  method Normalise(w: nat, top: nat, h0: nat, l0: nat, e0: int, ghost u0: nat, ghost m: nat)
    returns (h: nat, l: nat, e: int, ghost u: nat)
    requires 0 < w && w % 2 == 0 && l0 < w && 0 < top
    requires 0 < Two(w, h0, l0) < 2 * Two(w, top, 0)
    requires 0 < m && Two(w, h0, l0) * Pow2(u0) == m * Two(w, top, 0)
    ensures l < w && Two(w, top, 0) <= Two(w, h, l) < 2 * Two(w, top, 0)
    ensures u <= u0 && e - e0 == u - u0
    ensures Two(w, h, l) * Pow2(u) == m * Two(w, top, 0)
  {
    h, l, e, u := h0, l0, e0, u0;
    while h < top
      invariant l < w && 0 < Two(w, h, l) < 2 * Two(w, top, 0)
      invariant u <= u0 && e - e0 == u - u0
      invariant Two(w, h, l) * Pow2(u) == m * Two(w, top, 0)
      decreases u
    {
      MulMono(h + 1, top, w);
      Distribute(h, 1, w);
      ghost var r := Two(w, h, l);
      assert r < Two(w, top, 0);
      MovesUp(r, u, m, Two(w, top, 0));
      h, l := Double(w, h, l);
      e, u := e - 1, u - 1;
    }
    MulMono(top, h, w);
  }

  lemma DoubledScale(x: nat, y: nat, p: nat, q: nat)
    requires x <= 2 * y && 2 * p <= q
    ensures x * p <= y * q
  {
    MulMono(x, 2 * y, p);
    MulMono(2 * p, q, y);
    assert 2 * y * p == 2 * p * y;
  }

  /** Of two filled significands the larger number has the larger exponent. */
  lemma ExponentsOrdered(mx: nat, my: nat, x: nat, y: nat, ux: nat, uy: nat, t: nat)
    requires 0 < t && my < mx && x < 2 * t && t <= y
    requires mx * t == x * Pow2(ux) && my * t == y * Pow2(uy)
    ensures uy <= ux
  {
    hide *;
    if ux < uy {
      Pow2Mono(ux, uy);
      DoubledScale(x, y, Pow2(ux), Pow2(uy));
      CancelFactor(mx, my, t);
    }
  }

  /** Aligning y to x leaves n = ix - iy doublings, and the scaled remainder is the remainder. */
  lemma Aligned(mx: nat, my: nat, x: nat, y: nat, ux: nat, uy: nat, t: nat)
    requires 0 < t && my < mx && t <= x < 2 * t && t <= y < 2 * t
    requires mx * t == x * Pow2(ux) && my * t == y * Pow2(uy)
    ensures 0 < my && uy <= ux
    ensures x * Pow2(ux - uy) % y * Pow2(uy) == mx % my * t
  {
    hide *;
    MulMono(1, y, Pow2(uy));
    assert my != 0;
    ExponentsOrdered(mx, my, x, y, ux, uy, t);
    Pow2Add(ux - uy, uy);
    Assoc(x, Pow2(ux - uy), Pow2(uy));
    ScaleDivMod(mx, my, t);
    ScaleDivMod(x * Pow2(ux - uy), y, Pow2(uy));
  }

  lemma TwoPositive(w: nat, h: nat, l: nat)
    requires 0 < w && !(h == 0 == l)
    ensures 0 < Two(w, h, l)
  {
    MulMono(0, h, w);
    if h >= 1 {
      MulMono(1, h, w);
    }
  }

  lemma ZeroUnits(z: nat, p: nat, m: nat, t: nat)
    requires 0 < t && 0 < p && z * p == m * t
    ensures z == 0 <==> m == 0
  {
    if z > 0 {
      MulMono(1, z, p);
    }
    if m > 0 {
      MulMono(1, m, t);
    }
  }

  /** The common tail of both routines: n = ix - iy turns, the last subtraction, and, unless the
      remainder is zero, the normalisation. Magnitudes mx and my are x * 2^ux / t and y * 2^uy / t. */
  method Reduce(w: nat, top: nat, hx: nat, lx: nat, ix: int, hy: nat, ly: nat, iy: int,
                ghost mx: nat, ghost ux: nat, ghost my: nat, ghost uy: nat)
    returns (h: nat, l: nat, e: int, ghost u: nat)
    requires 0 < w && w % 2 == 0 && lx < w && ly < w && 0 < top && my < mx && ix - iy == ux - uy
    requires 0 < Two(w, top, 0) <= Two(w, hx, lx) < 2 * Two(w, top, 0)
    requires Two(w, top, 0) <= Two(w, hy, ly) < 2 * Two(w, top, 0)
    requires mx * Two(w, top, 0) == Two(w, hx, lx) * Pow2(ux)
    requires my * Two(w, top, 0) == Two(w, hy, ly) * Pow2(uy)
    ensures l < w && 0 < my && u <= uy && e - iy == u - uy
    ensures h == 0 == l <==> mx % my == 0
    ensures h != 0 || l != 0 ==>
      && Two(w, top, 0) <= Two(w, h, l) < 2 * Two(w, top, 0)
      && Two(w, h, l) * Pow2(u) == mx % my * Two(w, top, 0)
  {
    hide *;
    ghost var t: nat, x: nat, y: nat := Two(w, top, 0), Two(w, hx, lx), Two(w, hy, ly);
    Aligned(mx, my, x, y, ux, uy, t);
    e, u := iy, uy;
    h, l := ShiftSubtract(w, hx, lx, hy, ly, ix - iy);
    ghost var m, z := mx % my, Two(w, h, l);
    ZeroUnits(z, Pow2(uy), m, t);
    if h == 0 && l == 0 {
      TwoZero(w);
      return;
    }
    TwoPositive(w, h, l);
    RemainderBelow(x * Pow2(ux - uy), y);
    h, l, e, u := Normalise(w, top, h, l, iy, uy, m);
    TwoZero(w);
  }

  lemma RemainderBelow(x: nat, y: nat)
    requires 0 < y
    ensures 0 <= x % y < y
  {
  }
}
