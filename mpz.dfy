/**
  * The mini-gmp routines that BigInt.hpp and MiniMPZ.hpp delegate to, by the
  * meaning the GMP manual gives their results, over Dafny's unbounded int.
  * mini-gmp's own limb-level code is not part of this model: each routine is a
  * function on integers, and the lemmas relate it to an independent
  * description of the same result.
  */
module Mpz {
  import opened Arith

  function Abs(a: int): (r: nat)
    ensures r == a || r == -a
  {
    if a < 0 then -a else a
  }

  /** mpz_sgn: -1, 0 or +1 according to the sign of a. */
  function Sgn(a: int): (r: int)
    ensures -1 <= r <= 1
    ensures r < 0 <==> a < 0
    ensures r == 0 <==> a == 0
  {
    if a < 0 then -1 else if a == 0 then 0 else 1
  }

  /** mpz_cmp: the sign of the result orders a against b. */
  function Cmp(a: int, b: int): (r: int)
    ensures r < 0 <==> a < b
    ensures r == 0 <==> a == b
    ensures r > 0 <==> a > b
  {
    Sgn(a - b)
  }

  /** The remainder n - q * d left by a quotient q that truncates toward zero. */
  ghost predicate TruncatedQuotient(n: int, d: int, q: int)
  {
    && Abs(n - q * d) < Abs(d)
    && (n - q * d == 0 || Sgn(n - q * d) == Sgn(n))
  }

  /** mpz_tdiv_q: the quotient of n by d, rounded toward zero. */
  function TDivQ(n: int, d: int): (q: int)
    requires d != 0
    ensures Abs(q) == Abs(n) / Abs(d)
    ensures q != 0 ==> Sgn(q) == Sgn(n) * Sgn(d)
    ensures TruncatedQuotient(n, d, q)
  {
    var q0, r0 := Abs(n) / Abs(d), Abs(n) % Abs(d);
    EuclideanNat(Abs(n), Abs(d));
    var q: int := if (n < 0) == (d < 0) then q0 else -q0;
    TruncatedRemainder(n, d, q0, r0, q);
    q
  }

  /** With |n| == q0 * |d| + r0, the signed quotient q leaves the remainder r0 with the sign of n. */
  lemma TruncatedRemainder(n: int, d: int, q0: nat, r0: nat, q: int)
    requires d != 0 && r0 < Abs(d) && Abs(n) == q0 * Abs(d) + r0
    requires q == if (n < 0) == (d < 0) then q0 as int else -(q0 as int)
    ensures Abs(q) == q0
    ensures q != 0 ==> Sgn(q) == Sgn(n) * Sgn(d)
    ensures TruncatedQuotient(n, d, q)
  {
    var p := q0 * Abs(d);
    SignedProducts(q0, d);
    if n < 0 && d < 0 {
      assert q * d == -p;
      assert n - q * d == -(r0 as int);
    } else if n < 0 {
      assert q * d == -p;
      assert n - q * d == -(r0 as int);
    } else if d < 0 {
      assert q * d == p;
      assert n - q * d == r0;
    } else {
      assert q * d == p;
      assert n - q * d == r0;
    }
  }

  lemma SignedProducts(a: int, d: int)
    ensures a * d == if d < 0 then -(a * Abs(d)) else a * Abs(d)
    ensures (-a) * d == -(a * d)
  {
  }

  /** mpz_mod: the remainder of n by d, never negative; the sign of d is ignored. */
  function Mod(n: int, d: int): (r: int)
    requires d != 0
    ensures 0 <= r < Abs(d)
    ensures (n - r) % Abs(d) == 0
  {
    var r := n % Abs(d);
    assert n == (n / Abs(d)) * Abs(d) + r;
    DivModUnique(n - r, Abs(d), n / Abs(d), 0);
    r
  }

  /** mpz_pow_ui: base raised to a non-negative power; any base to the power 0 is 1. */
  function Pow(base: int, exp: nat): (r: int)
    ensures r == 0 <==> base == 0 && exp > 0
  {
    if exp == 0 then 1 else base * Pow(base, exp - 1)
  }

  /** mpz_sqrt: the floor of the square root of a non-negative n. */
  function FloorSqrt(n: nat): (s: nat)
    ensures s * s <= n < (s + 1) * (s + 1)
  {
    if n == 0 then 0
    else
      var t := FloorSqrt(n / 4);
      SqrtStep(n, t);
      if (2 * t + 1) * (2 * t + 1) <= n then 2 * t + 1 else 2 * t
  }

  /** mpz_odd_p: bit 0 of the magnitude is set. */
  function OddP(a: int): (r: bool)
    ensures r <==> Abs(a) % 2 == 1
  {
    a % 2 == 1
  }

  /** mpz_even_p: bit 0 of the magnitude is clear, exactly when a is not odd. */
  function EvenP(a: int): (r: bool)
    ensures r <==> Abs(a) % 2 == 0
    ensures r <==> !OddP(a)
  {
    a % 2 == 0
  }

  // ---------------------------------------------------------------------
  // Division

  /** |e * d| >= |d| for every non-zero e. */
  lemma MulAbsAtLeast(e: int, d: int)
    requires e != 0 && d != 0
    ensures Abs(e * d) >= Abs(d)
  {
    MulAtLeast(Abs(e), Abs(d));
    assert Abs(e * d) == Abs(e) * Abs(d);
  }

  /** Truncated division has only one quotient: TDivQ is it. */
  lemma TDivQUnique(n: int, d: int, q: int)
    requires d != 0 && TruncatedQuotient(n, d, q)
    ensures q == TDivQ(n, d)
  {
    var q1 := TDivQ(n, d);
    var r, r1 := n - q * d, n - q1 * d;
    SameSideRemainders(n, r, r1, Abs(d));
    if q1 != q {
      Distributes(q1, q, d);
      MulAbsAtLeast(q1 - q, d);
    }
  }

  lemma Distributes(a: int, b: int, d: int)
    ensures a * d - b * d == (a - b) * d
  {
  }

  /** Two remainders below m in size that both take the sign of n are less than m apart. */
  lemma SameSideRemainders(n: int, r: int, r1: int, m: nat)
    requires Abs(r) < m && (r == 0 || Sgn(r) == Sgn(n))
    requires Abs(r1) < m && (r1 == 0 || Sgn(r1) == Sgn(n))
    ensures Abs(r - r1) < m
  {
  }

  /** The remainder of mpz_mod is the only r in [0, |d|) with d dividing n - r. */
  lemma ModUnique(n: int, d: int, r: int)
    requires d != 0 && 0 <= r < Abs(d) && (n - r) % Abs(d) == 0
    ensures r == Mod(n, d)
  {
    var k := (n - r) / Abs(d);
    assert n - r == k * Abs(d) + 0;
    DivModUnique(n, Abs(d), k, r);
  }

  /** A multiple of d is a multiple of |d|. */
  lemma MultipleOfAbs(q: int, d: int)
    requires d != 0
    ensures (q * d) % Abs(d) == 0
  {
    if d < 0 {
      assert q * d == (-q) * Abs(d);
      DivModUnique(q * d, Abs(d), -q, 0);
    } else {
      DivModUnique(q * d, Abs(d), q, 0);
    }
  }

  /**
    * The quotient of operator/ (mpz_tdiv_q) and the remainder of operator%
    * (mpz_mod) add back up to the dividend exactly when the dividend is
    * non-negative or divisible by d: for a negative dividend, mpz_mod is not
    * the remainder that goes with a truncating quotient.
    */
  lemma DivModIdentity(n: int, d: int)
    requires d != 0
    ensures n == TDivQ(n, d) * d + Mod(n, d) <==> n >= 0 || Mod(n, d) == 0
  {
    var q := TDivQ(n, d);
    var p := q * d;
    var t := n - p;
    MultipleOfAbs(q, d);
    if n >= 0 {
      assert n - t == p;
      ModUnique(n, d, t);
    } else if Mod(n, d) == 0 {
      assert n % Abs(d) == 0;
      DifferenceOfMultiples(n, p, Abs(d));
      SmallMultipleIsZero(t, Abs(d));
    }
  }

  lemma DifferenceOfMultiples(x: int, y: int, a: int)
    requires a >= 1 && x % a == 0 && y % a == 0
    ensures (x - y) % a == 0
  {
    var k, l := x / a, y / a;
    assert x == k * a && y == l * a;
    Distributes(k, l, a);
    DivModUnique(x - y, a, k - l, 0);
  }

  /** The only multiple of a strictly between -a and a is 0. */
  lemma SmallMultipleIsZero(t: int, a: int)
    requires a >= 1 && -a < t < a && t % a == 0
    ensures t == 0
  {
    if t >= 0 {
      DivModUnique(t, a, 0, t);
    } else {
      DivModUnique(t, a, -1, t + a);
    }
  }

  /** -7 / 2 == -3 but -7 % 2 == 1, and -3 * 2 + 1 == -5, not -7. */
  lemma DivModIdentityFailsForNegative()
    ensures TDivQ(-7, 2) == -3 && Mod(-7, 2) == 1
    ensures TDivQ(-7, 2) * 2 + Mod(-7, 2) != -7
  {
    TDivQUnique(-7, 2, -3);
    ModUnique(-7, 2, 1);
  }

  /** The sign of the divisor does not reach the result of mpz_mod: 7 % -2 == 1. */
  lemma ModIgnoresDivisorSign(n: int, d: int)
    requires d != 0
    ensures Mod(n, d) == Mod(n, -d)
    ensures Mod(7, -2) == 1
  {
    ModUnique(7, -2, 1);
  }

  // ---------------------------------------------------------------------
  // Powers

  lemma {:induction false} PowAdd(base: int, e1: nat, e2: nat)
    ensures Pow(base, e1 + e2) == Pow(base, e1) * Pow(base, e2)
  {
    if e2 > 0 {
      PowAdd(base, e1, e2 - 1);
      var a, b := Pow(base, e1), Pow(base, e2 - 1);
      assert Pow(base, e1 + e2) == base * Pow(base, e1 + e2 - 1);
      assert Pow(base, e2) == base * b;
      Reassociate(base, a, b);
    }
  }

  lemma Reassociate(x: int, a: int, b: int)
    ensures x * (a * b) == a * (x * b)
  {
  }

  /**
    * The sign of base^exp: positive for exp == 0 or an even exp with a non-zero
    * base or a positive base, zero for a zero base and exp > 0, negative for a
    * negative base and an odd exp.
    */
  lemma {:induction false} PowSign(base: int, exp: nat)
    ensures Sgn(Pow(base, exp)) ==
      if exp == 0 then 1
      else if base == 0 then 0
      else if base < 0 && exp % 2 == 1 then -1
      else 1
  {
    if exp > 0 {
      PowSign(base, exp - 1);
      var p := Pow(base, exp - 1);
      if base > 0 && p > 0 {
        MulAtLeast(base, p);
      } else if base < 0 && p > 0 {
        MulAtLeast(-base, p);
      } else if base < 0 && p < 0 {
        MulAtLeast(-base, -p);
      }
    }
  }

  // ---------------------------------------------------------------------
  // Square root

  lemma SqrtStep(n: nat, t: nat)
    requires n > 0 && t * t <= n / 4 < (t + 1) * (t + 1)
    ensures (2 * t) * (2 * t) <= n < (2 * t + 2) * (2 * t + 2)
    ensures (2 * t + 1) * (2 * t + 1) <= n ==> n < (2 * t + 2) * (2 * t + 2)
    ensures (2 * t + 1) * (2 * t + 1) > n ==> (2 * t) * (2 * t) <= n
  {
    assert n == 4 * (n / 4) + n % 4;
    assert (2 * t) * (2 * t) == 4 * (t * t);
    assert (2 * t + 2) * (2 * t + 2) == 4 * ((t + 1) * (t + 1));
  }

  lemma SquareMonotone(a: nat, b: nat)
    requires a <= b
    ensures a * a <= b * b
  {
    if a < b {
      MulStrict(a, b, a + 1);
      MulStrict(a, b, b);
    }
  }

  /** The floor square root is the only s with s^2 <= n < (s + 1)^2. */
  lemma FloorSqrtUnique(n: nat, s: nat)
    requires s * s <= n < (s + 1) * (s + 1)
    ensures s == FloorSqrt(n)
  {
    var f := FloorSqrt(n);
    if s < f {
      SquareMonotone(s + 1, f);
    } else if f < s {
      SquareMonotone(f + 1, s);
    }
  }
}
