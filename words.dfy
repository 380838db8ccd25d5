/**
  * Unsigned 64-bit machine words (C's uint64_t) and the bit operations that
  * bitops64.h applies to them.  A word is a natural number below 2^64; the
  * shifts, masks and negation of C are written out as arithmetic so that the
  * wrap-around of uint64_t is explicit.
  */
module Words {
  import opened Arith

  const WORD: nat := 0x1_0000_0000_0000_0000

  /** uint64_t */
  type Word = x: nat | x < WORD

  function Pow2(k: nat): (r: nat)
    ensures r >= 1
  {
    if k == 0 then 1 else 2 * Pow2(k - 1)
  }

  /** x << s on a uint64_t: the bits shifted past bit 63 are lost and the s low bits are 0. */
  function ShiftLeft(x: Word, s: nat): (r: Word)
    ensures s <= 64 ==> r % Pow2(s) == 0
  {
    var y := x * Pow2(s);
    if s <= 64 then
      var p, q := Pow2(s), Pow2(64 - s);
      Pow2Add(64 - s, s);
      Pow2Word();
      ModOfScaled(x, p, q);
      DivModUnique((x % q) * p, p, x % q, 0);
      y % WORD
    else
      y % WORD
  }

  /** x >> s on a uint64_t: the quotient of x by 2^s, rounded down. */
  function ShiftRight(x: Word, s: nat): (r: Word)
    ensures r <= x
    ensures r * Pow2(s) <= x < (r + 1) * Pow2(s)
    ensures s >= 64 ==> r == 0
  {
    var p := Pow2(s);
    DivIsSmaller(x, p);
    EuclideanNat(x, p);
    assert (x / p + 1) * p == (x / p) * p + p;
    if s >= 64 then
      Pow2Word();
      Pow2Monotone(64, s);
      DivModUnique(x, p, 0, x);
      x / p
    else
      x / p
  }

  /** Unary minus on a uint64_t: the two's complement, 2^64 - x, and 0 for 0. */
  function Negate(x: Word): (r: Word)
    ensures x == 0 ==> r == 0
    ensures x != 0 ==> x + r == WORD
  {
    if x == 0 then
      DivModUnique(WORD, WORD, 1, 0);
      (WORD - x) % WORD
    else
      DivModUnique(WORD - x, WORD, 0, WORD - x);
      (WORD - x) % WORD
  }

  /** Bitwise and of two naturals, bit 0 first: it has no bit that either operand lacks. */
  function BitAnd(a: nat, b: nat): (r: nat)
    ensures r <= a && r <= b
    decreases a
  {
    if a == 0 || b == 0 then 0
    else (if a % 2 == 1 && b % 2 == 1 then 1 else 0) + 2 * BitAnd(a / 2, b / 2)
  }

  /** Bitwise or of two naturals, bit 0 first: at least each operand and at most their sum. */
  function BitOr(a: nat, b: nat): (r: nat)
    ensures a <= r && b <= r <= a + b
    decreases a + b
  {
    if a == 0 then b
    else if b == 0 then a
    else (if a % 2 == 1 || b % 2 == 1 then 1 else 0) + 2 * BitOr(a / 2, b / 2)
  }

  /** The mask with bits k .. n-1 set: 2^n - 2^k. */
  function MaskRange(k: nat, n: nat): nat
    requires k <= n
  {
    Pow2Monotone(k, n);
    Pow2(n) - Pow2(k)
  }

  /** The number of 0 bits below the lowest 1 bit of a positive number. */
  function TrailingZeros(x: nat): nat
    requires x > 0
  {
    if x % 2 == 1 then 0 else 1 + TrailingZeros(x / 2)
  }

  // ---------------------------------------------------------------------
  // Powers of two

  lemma {:induction false} Pow2Add(a: nat, b: nat)
    ensures Pow2(a + b) == Pow2(a) * Pow2(b)
  {
    if b > 0 {
      Pow2Add(a, b - 1);
      assert Pow2(a + b) == 2 * Pow2(a + b - 1);
      assert Pow2(b) == 2 * Pow2(b - 1);
    }
  }

  lemma {:induction false} Pow2Monotone(a: nat, b: nat)
    requires a <= b
    ensures Pow2(a) <= Pow2(b)
  {
    if a < b {
      Pow2Monotone(a, b - 1);
    }
  }

  lemma Pow2Below(a: nat, b: nat)
    requires Pow2(a) < Pow2(b)
    ensures a < b
  {
    if a >= b {
      Pow2Monotone(b, a);
    }
  }

  lemma Pow2Strict(a: nat, b: nat)
    requires a < b
    ensures Pow2(a) < Pow2(b)
  {
    Pow2Monotone(a, b - 1);
  }

  lemma Pow2Word()
    ensures Pow2(64) == WORD
  {
    assert Pow2(8) == 0x100;
    Pow2Add(8, 8);
    Pow2Add(16, 16);
    Pow2Add(32, 32);
  }

  /** x * 2^c < 2^n exactly when x < 2^(n - c). */
  lemma ScaledBelow(x: nat, c: nat, n: nat)
    requires c <= n
    ensures x * Pow2(c) < Pow2(n) <==> x < Pow2(n - c)
  {
    Pow2Add(n - c, c);
    var p, q := Pow2(c), Pow2(n - c);
    if x < q {
      MulStrict(x, q, p);
    } else if x > q {
      MulStrict(q, x, p);
    }
  }

  /** A shift that loses no bits is a multiplication. */
  lemma ShiftLeftNoWrap(x: Word, c: nat)
    requires c <= 64 && x < Pow2(64 - c)
    ensures x * Pow2(c) < WORD
    ensures ShiftLeft(x, c) == x * Pow2(c)
  {
    ScaledBelow(x, c, 64);
    Pow2Word();
    DivModUnique(x * Pow2(c), WORD, 0, x * Pow2(c));
  }

  /** Shifting by c and then by s is shifting by c + s, as long as the first shift loses nothing. */
  lemma ShiftLeftTwice(x: Word, c: nat, s: nat)
    requires x * Pow2(c) < WORD
    ensures ShiftLeft(ShiftLeft(x, c), s) == ShiftLeft(x, c + s)
  {
    Pow2Add(c, s);
    DivModUnique(x * Pow2(c), WORD, 0, x * Pow2(c));
    assert x * Pow2(c) * Pow2(s) == x * Pow2(c + s);
  }

  // ---------------------------------------------------------------------
  // Bitwise and / or

  /** Masking with 2^n - 1 keeps the low n bits. */
  lemma BitAndLowMask(y: nat, n: nat)
    ensures BitAnd(y, Pow2(n) - 1) == y % Pow2(n)
  {
    BitAndLowMaskOf(y, n, Pow2(n));
  }

  lemma {:induction false} BitAndLowMaskOf(y: nat, n: nat, m: nat)
    requires m == Pow2(n)
    ensures BitAnd(y, m - 1) == y % m
  {
    if n == 0 {
      DivModUnique(y, 1, y, 0);
    } else if y == 0 {
      DivModUnique(0, m, 0, 0);
    } else {
      var p := Pow2(n - 1);
      BitAndOddMask(y, p);
      BitAndLowMaskOf(y / 2, n - 1, p);
      ModDouble(y, p);
    }
  }

  /** The low bit of an odd mask keeps the low bit of y. */
  lemma BitAndOddMask(y: nat, p: nat)
    requires y != 0 && p >= 1
    ensures BitAnd(y, 2 * p - 1) == y % 2 + 2 * BitAnd(y / 2, p - 1)
  {
    var m := 2 * p - 1;
    Halves(p - 1);
    assert m % 2 == 1 && m / 2 == p - 1;
  }

  /** Masking with 2^n - 2^k (bits k..n-1 set) gives 0 exactly when x has no bit at or above k. */
  lemma {:induction false} BitAndHighMask(x: nat, n: nat, k: nat)
    requires k <= n && x < Pow2(n)
    ensures BitAnd(x, MaskRange(k, n)) == 0 <==> x < Pow2(k)
  {
    if k == 0 {
      BitAndFullMask(x, n);
    } else {
      var a := Pow2(k - 1);
      var h := MaskRange(k - 1, n - 1);
      assert MaskRange(k, n) == 2 * h;
      BitAndEvenMask(x, h);
      BitAndHighMask(x / 2, n - 1, k - 1);
      assert x < 2 * a <==> x / 2 < a;
    }
  }

  /** Below 2^n, the mask 2^n - 1 keeps all of x. */
  lemma BitAndFullMask(x: nat, n: nat)
    requires x < Pow2(n)
    ensures BitAnd(x, MaskRange(0, n)) == x
  {
    BitAndLowMask(x, n);
    DivModUnique(x, Pow2(n), 0, x);
  }

  /** An even mask clears bit 0 and keeps the rest of x where the mask has them. */
  lemma BitAndEvenMask(x: nat, h: nat)
    ensures BitAnd(x, 2 * h) == 2 * BitAnd(x / 2, h)
  {
    Halves(h);
  }

  /** x and its two's complement within n bits share exactly the lowest set bit of x. */
  lemma {:induction false} BitAndNegated(x: nat, n: nat)
    requires 0 < x < Pow2(n)
    ensures BitAnd(x, Pow2(n) - x) == Pow2(TrailingZeros(x))
  {
    assert Pow2(n) == 2 * Pow2(n - 1);
    if x % 2 == 1 {
      NegatedOdd(x, n);
    } else {
      BitAndNegated(x / 2, n - 1);
      NegatedEven(x, n);
    }
  }

  /** An odd x and 2^n - x share bit 0 and no other bit. */
  lemma NegatedOdd(x: nat, n: nat)
    requires 0 < x < Pow2(n) && n > 0 && x % 2 == 1
    ensures BitAnd(x, Pow2(n) - x) == 1
  {
    var p := Pow2(n - 1);
    var c := p - 1 - x / 2;
    assert Pow2(n) - x == 2 * c + 1;
    Halves(c);
    BitAndOddMask(x, c + 1);
    BitAndComplement(x / 2, n - 1);
  }

  /** For an even x, x and 2^n - x are x / 2 and 2^(n-1) - x / 2 shifted up one bit. */
  lemma NegatedEven(x: nat, n: nat)
    requires 0 < x < Pow2(n) && n > 0 && x % 2 == 0
    requires BitAnd(x / 2, Pow2(n - 1) - x / 2) == Pow2(TrailingZeros(x / 2))
    ensures BitAnd(x, Pow2(n) - x) == Pow2(TrailingZeros(x))
  {
    var c := Pow2(n - 1) - x / 2;
    assert Pow2(n) - x == 2 * c;
    BitAndEvenMask(x, c);
  }


  /** c and its complement within n bits share no bit. */
  lemma {:induction false} BitAndComplement(c: nat, n: nat)
    requires c < Pow2(n)
    ensures BitAnd(c, Pow2(n) - 1 - c) == 0
  {
    if n > 0 && c != 0 && Pow2(n) - 1 - c != 0 {
      var d := Pow2(n) - 1 - c;
      assert c % 2 == 0 || d % 2 == 0;
      assert d / 2 == Pow2(n - 1) - 1 - c / 2;
      BitAndComplement(c / 2, n - 1);
    }
  }

  /** Bits of a * 2^k and of b < 2^k do not overlap. */
  lemma {:induction false} BitAndDisjoint(a: nat, b: nat, k: nat)
    requires b < Pow2(k)
    ensures BitAnd(a * Pow2(k), b) == 0
  {
    if k > 0 && a != 0 && b != 0 {
      var aa := a * Pow2(k - 1);
      assert a * Pow2(k) == 2 * aa;
      assert (2 * aa) % 2 == 0 && (2 * aa) / 2 == aa;
      BitAndDisjoint(a, b / 2, k - 1);
    }
  }

  /** On disjoint bits, or is addition. */
  lemma {:induction false} BitOrDisjoint(a: nat, b: nat, k: nat)
    requires b < Pow2(k)
    ensures BitOr(a * Pow2(k), b) == a * Pow2(k) + b
  {
    if k > 0 && a != 0 && b != 0 {
      var aa := a * Pow2(k - 1);
      assert a * Pow2(k) == 2 * aa;
      assert (2 * aa) % 2 == 0 && (2 * aa) / 2 == aa;
      BitOrDisjoint(a, b / 2, k - 1);
    }
  }
}
