/**
  * Facts about multiplication, division and remainder on unbounded integers
  * that the solver does not find by itself.  Division and remainder are
  * Dafny's Euclidean ones; for the non-negative operands used here they are
  * also C's.
  */
module Arith {

  lemma MulAtLeast(e: int, d: int)
    requires d >= 1 && e >= 1
    ensures e * d >= d
  {
  }

  lemma MulStrict(a: int, b: int, c: int)
    requires a < b && c >= 1
    ensures a * c < b * c
  {
    MulAtLeast(b - a, c);
    assert b * c - a * c == (b - a) * c;
  }

  /** Division and remainder are determined by the Euclidean equation. */
  lemma DivModUnique(x: int, d: int, q: int, r: int)
    requires d >= 1 && 0 <= r < d && x == q * d + r
    ensures x / d == q && x % d == r
  {
    var q0, r0 := x / d, x % d;
    assert x == q0 * d + r0;
    var e := q - q0;
    assert e * d == r0 - r by {
      assert q * d - q0 * d == (q - q0) * d;
    }
    if e >= 1 {
      MulAtLeast(e, d);
    } else if e <= -1 {
      MulAtLeast(-e, d);
    }
  }

  lemma MulGrows(e: nat, d: nat)
    requires d >= 1
    ensures e * d >= e
  {
    if e >= 1 {
      MulAtLeast(d, e);
    }
  }

  lemma DivIsSmaller(x: nat, d: nat)
    requires d >= 1
    ensures 0 <= x / d <= x
  {
    assert x == (x / d) * d + x % d;
    MulGrows(x / d, d);
  }

  /** The remainder modulo 2p splits into bit 0 and the remainder of y / 2 modulo p. */
  lemma ModDouble(y: nat, p: nat)
    requires p >= 1
    ensures y % (2 * p) == y % 2 + 2 * ((y / 2) % p)
  {
    var h := y / 2;
    var q, r := h / p, h % p;
    assert y == 2 * h + y % 2;
    assert h == q * p + r;
    assert y == q * (2 * p) + (2 * r + y % 2);
    DivModUnique(y, 2 * p, q, 2 * r + y % 2);
  }

  /** Doubling both sides of a division. */
  lemma ModScale(y: nat, p: nat)
    requires p >= 1
    ensures (2 * y) % (2 * p) == 2 * (y % p)
    ensures (2 * y) / (2 * p) == y / p
  {
    var q, r := y / p, y % p;
    assert y == q * p + r;
    assert 2 * y == q * (2 * p) + 2 * r;
    DivModUnique(2 * y, 2 * p, q, 2 * r);
  }

  /** The quotient and remainder of naturals. */
  lemma EuclideanNat(x: nat, d: nat)
    requires d >= 1
    ensures x / d >= 0 && 0 <= x % d < d
    ensures x == (x / d) * d + x % d
  {
  }

  /** A multiple of a * b is a multiple of b. */
  lemma MultipleOfFactor(x: nat, a: nat, b: nat)
    requires a >= 1 && b >= 1 && x % (a * b) == 0
    ensures x % b == 0
  {
    var q := x / (a * b);
    EuclideanNat(x, a * b);
    assert x == q * (a * b);
    assert x == (q * a) * b;
    DivModUnique(x, b, q * a, 0);
  }

  lemma Halves(a: nat)
    ensures (2 * a) % 2 == 0 && (2 * a) / 2 == a
    ensures (2 * a + 1) % 2 == 1 && (2 * a + 1) / 2 == a
  {
    DivModUnique(2 * a, 2, a, 0);
    DivModUnique(2 * a + 1, 2, a, 1);
  }

  /** (h * p) mod (q * p) keeps h mod q, scaled by p. */
  lemma ModOfScaled(h: nat, p: nat, q: nat)
    requires p >= 1 && q >= 1
    ensures (h * p) % (q * p) == (h % q) * p
    ensures (h % q) * p < q * p
  {
    var a, b := h / q, h % q;
    assert h == a * q + b;
    assert h * p == a * (q * p) + b * p by {
      assert h * p == (a * q + b) * p;
      assert (a * q + b) * p == a * q * p + b * p;
    }
    MulStrict(b, q, p);
    DivModUnique(h * p, q * p, a, b * p);
  }

  /** l < q * p means l / q < p. */
  lemma DivBelow(l: nat, p: nat, q: nat)
    requires p >= 1 && q >= 1 && l < q * p
    ensures l / q < p
  {
    var a, b := l / q, l % q;
    assert l == a * q + b;
    if a >= p {
      MulStrict(p - 1, a, q);
    }
  }

  /** (h:l) << s, divided by the word size, with p = 2^s and the word size q * p. */
  lemma ShiftedDivWord(h: nat, l: nat, p: nat, q: nat)
    requires p >= 1 && q >= 1 && l < q * p
    ensures (h * (q * p) + l) * p / (q * p) == h * p + l / q
  {
    var w := q * p;
    var lh, ll := l / q, l % q;
    assert l == lh * q + ll;
    MulStrict(ll, q, p);
    var v := (h * w + l) * p;
    assert l * p == lh * w + ll * p by {
      assert l * p == (lh * q + ll) * p;
      assert (lh * q + ll) * p == lh * q * p + ll * p;
    }
    assert v == (h * p + lh) * w + ll * p by {
      assert v == h * w * p + l * p;
      assert h * w * p == h * p * w;
    }
    DivModUnique(v, w, h * p + lh, ll * p);
  }

  /** Adding fewer than p to a multiple of p stays below q * p after reduction modulo q * p. */
  lemma ModAddShort(h: nat, t: nat, p: nat, q: nat)
    requires p >= 1 && q >= 1 && t < p
    ensures (h * p + t) % (q * p) == (h % q) * p + t
  {
    var w := q * p;
    var a, b := h / q, h % q;
    assert h == a * q + b;
    assert h * p == a * w + b * p by {
      assert h * p == (a * q + b) * p;
      assert (a * q + b) * p == a * q * p + b * p;
    }
    assert b * p + t < w by {
      if b < q - 1 {
        MulStrict(b, q - 1, p);
      }
      assert (q - 1) * p == q * p - p;
    }
    DivModUnique(h * p + t, w, a, b * p + t);
  }

  /** The upper word of (h:l) << s, over a word of q * p with p = 2^s, q = 2^(64 - s). */
  lemma UpperWordOfShift(h: nat, l: nat, p: nat, q: nat)
    requires p >= 1 && q >= 1 && l < q * p
    ensures ((h * (q * p) + l) * p / (q * p)) % (q * p) == (h % q) * p + l / q
  {
    ShiftedDivWord(h, l, p, q);
    DivBelow(l, p, q);
    ModAddShort(h, l / q, p, q);
  }

  /** A positive multiple of d is at least d. */
  lemma MultipleAtLeast(x: nat, d: nat)
    requires x > 0 && d >= 1 && x % d == 0
    ensures d <= x
  {
    assert x == (x / d) * d;
    MulAtLeast(x / d, d);
  }
}
