/**
  * The 64-bit word primitives of bitops64.h: count leading zeroes, count
  * trailing zeroes (each with a variant whose caller promises x != 0) and the
  * high word of a 128-bit left shift.
  *
  * The header has three implementations selected by the compiler: a GCC/Clang
  * one built on __builtin_clzll, __builtin_ctzll and unsigned __int128, a
  * Visual C++ one built on _BitScanReverse64, _BitScanForward64 and
  * __shiftleft128, and a portable fallback made of loops and bit tricks.
  * Each is modelled here and proved against one specification per primitive,
  * the meaning stated in the header's doc comments.
  */
module Bitops64 {
  import opened Arith
  import opened Words

  // =====================================================================
  // Specifications

  /** The number of significant bits of x: 0 for 0, else 1 + floor(log2 x). */
  function BitLength(x: nat): nat
  {
    if x == 0 then 0 else 1 + BitLength(x / 2)
  }

  /** Leading zeroes of x as a 64-bit word; 64 when x is 0. */
  function Clz(x: Word): (k: nat)
    ensures k <= 64
    ensures k == 64 <==> x == 0
    ensures x != 0 ==> Pow2(63 - k) <= x < Pow2(64 - k)
  {
    BitLengthBounds(x);
    Pow2Word();
    BitLengthAtMost(x, 64);
    64 - BitLength(x)
  }

  /** Trailing zeroes of x as a 64-bit word; 64 when x is 0. */
  function Ctz(x: Word): (k: nat)
    ensures k <= 64
    ensures k == 64 <==> x == 0
    ensures x != 0 ==> x % Pow2(k) == 0 && x % Pow2(k + 1) != 0
  {
    if x == 0 then 64
    else
      TrailingZerosDivide(x);
      TrailingZerosBelow64(x);
      TrailingZeros(x)
  }

  /**
    * The most significant word of the 128-bit value (high:low) shifted left by
    * shift bits: the low 64 - shift bits of high moved up, with the top shift
    * bits of low shifted in below them.
    */
  function LShift128(high: Word, low: Word, shift: nat): (r: Word)
    requires shift < 64
    ensures r == (high % Pow2(64 - shift)) * Pow2(shift) + low / Pow2(64 - shift)
  {
    var p, q := Pow2(shift), Pow2(64 - shift);
    WordSplit(shift);
    UpperWordOfShift(high, low, p, q);
    ((high * WORD + low) * Pow2(shift) / WORD) % WORD
  }

  // ---------------------------------------------------------------------
  // What the specifications mean

  lemma {:induction false} BitLengthBounds(x: nat)
    ensures x == 0 <==> BitLength(x) == 0
    ensures x > 0 ==> Pow2(BitLength(x) - 1) <= x < Pow2(BitLength(x))
  {
    if x > 1 {
      BitLengthBounds(x / 2);
    }
  }

  lemma BitLengthAtMost(x: nat, n: nat)
    requires x < Pow2(n)
    ensures BitLength(x) <= n
  {
    BitLengthBounds(x);
    if x > 0 {
      Pow2Below(BitLength(x) - 1, n);
    }
  }

  /** For x != 0, Clz(x) is the one k in [0, 63] with 2^(63-k) <= x < 2^(64-k). */
  lemma ClzCharacterization(x: Word, k: nat)
    requires x != 0 && k <= 63
    ensures Clz(x) == k <==> Pow2(63 - k) <= x < Pow2(64 - k)
  {
    var c := Clz(x);
    if Pow2(63 - k) <= x < Pow2(64 - k) && c != k {
      if c < k {
        Pow2Monotone(64 - k, 63 - c);
      } else {
        Pow2Monotone(64 - c, 63 - k);
      }
    }
  }

  lemma ClzZero()
    ensures Clz(0) == 64 && Ctz(0) == 64
  {
  }

  lemma {:induction false} TrailingZerosDivide(x: nat)
    requires x > 0
    ensures x % Pow2(TrailingZeros(x)) == 0
    ensures x % Pow2(TrailingZeros(x) + 1) != 0
  {
    var t := TrailingZeros(x);
    if x % 2 == 1 {
      DivModUnique(x, 1, x, 0);
    } else {
      var y := x / 2;
      assert x == 2 * y;
      TrailingZerosDivide(y);
      ModScale(y, Pow2(t - 1));
      ModScale(y, Pow2(t));
    }
  }

  /** If 2^i divides x then so does every smaller power of two. */
  lemma DividesSmallerPower(x: nat, j: nat, i: nat)
    requires j <= i && x % Pow2(i) == 0
    ensures x % Pow2(j) == 0
  {
    Pow2Add(i - j, j);
    MultipleOfFactor(x, Pow2(i - j), Pow2(j));
  }

  lemma TrailingZerosBelow64(x: Word)
    requires x > 0
    ensures TrailingZeros(x) <= 63
  {
    TrailingZerosDivide(x);
    MultipleAtLeast(x, Pow2(TrailingZeros(x)));
    Pow2Word();
    Pow2Below(TrailingZeros(x), 64);
  }

  /** For x != 0, Ctz(x) is the one k in [0, 63] with 2^k dividing x and 2^(k+1) not dividing x. */
  lemma CtzCharacterization(x: Word, k: nat)
    requires x != 0 && k <= 63
    ensures Ctz(x) == k <==> x % Pow2(k) == 0 && x % Pow2(k + 1) != 0
  {
    var t := Ctz(x);
    if x % Pow2(k) == 0 && x % Pow2(k + 1) != 0 && t != k {
      if t < k {
        DividesSmallerPower(x, t + 1, k);
      } else {
        DividesSmallerPower(x, k + 1, t);
      }
    }
  }

  /** A power of two has 63 - k leading zeroes and k trailing zeroes. */
  lemma ClzCtzOfPow2(k: nat)
    requires k <= 63
    ensures Pow2(k) < WORD
    ensures Clz(Pow2(k)) == 63 - k
    ensures Ctz(Pow2(k)) == k
  {
    Pow2Word();
    Pow2Strict(k, 64);
    Pow2Strict(k, k + 1);
    ClzCharacterization(Pow2(k), 63 - k);
    DivModUnique(Pow2(k), Pow2(k), 1, 0);
    DivModUnique(Pow2(k), Pow2(k + 1), 0, Pow2(k));
    CtzCharacterization(Pow2(k), k);
  }

  // =====================================================================
  // GCC / Clang branch

  /** __builtin_clzll: the compiler intrinsic, defined for x != 0, modelled by its meaning. */
  function BuiltinClzll(x: Word): (r: int)
    requires x != 0
    ensures 0 <= r <= 63
    ensures x / Pow2(63 - r) == 1
  {
    var k := Clz(x);
    var p := Pow2(63 - k);
    assert Pow2(64 - k) == 2 * p;
    DivModUnique(x, p, 1, x - p);
    k
  }

  /** __builtin_ctzll: the compiler intrinsic, defined for x != 0, modelled by its meaning. */
  function BuiltinCtzll(x: Word): (r: int)
    requires x != 0
    ensures 0 <= r <= 63
    ensures x % Pow2(r) == 0 && (x / Pow2(r)) % 2 == 1
  {
    var k := Ctz(x);
    LowestBitSet(x, k);
    k
  }

  /** When 2^k divides x and 2^(k+1) does not, bit k of x is set. */
  lemma LowestBitSet(x: nat, k: nat)
    requires x % Pow2(k) == 0 && x % Pow2(k + 1) != 0
    ensures (x / Pow2(k)) % 2 == 1
  {
    var p := Pow2(k);
    var y := x / p;
    EuclideanNat(x, p);
    if y % 2 == 0 {
      var m := y / 2;
      assert x == m * (2 * p);
      DivModUnique(x, 2 * p, m, 0);
    }
  }

  function GccClzNonzero(x: Word): (r: int)
    requires x != 0
    ensures 0 <= r <= 63
    ensures Pow2(63 - r) <= x < Pow2(64 - r)
  {
    BuiltinClzll(x)
  }

  function GccClz(x: Word): (r: int)
    ensures r == Clz(x)
  {
    if x == 0 then 64 else BuiltinClzll(x)
  }

  function GccCtzNonzero(x: Word): (r: int)
    requires x != 0
    ensures 0 <= r <= 63
    ensures x % Pow2(r) == 0 && x % Pow2(r + 1) != 0
  {
    BuiltinCtzll(x)
  }

  function GccCtz(x: Word): (r: int)
    ensures r == Ctz(x)
  {
    if x == 0 then 64 else BuiltinCtzll(x)
  }

  /**
    * The unsigned __int128 computation: ((high << 64 | low) << shift) >> 64, in
    * 128-bit arithmetic, then truncated to 64 bits.
    */
  function GccLShift128(high: Word, low: Word, shift: nat): (r: Word)
    requires shift < 64
    ensures r == LShift128(high, low, shift)
  {
    var wide := BitOr(high * WORD, low);
    WordsDisjoint(high, low);
    TruncatedUpperWord(wide * Pow2(shift), WORD);
    ((wide * Pow2(shift) % (WORD * WORD)) / WORD) % WORD
  }

  /** high << 64 | low is high * 2^64 + low. */
  lemma WordsDisjoint(high: nat, low: Word)
    ensures BitOr(high * WORD, low) == high * WORD + low
  {
    Pow2Word();
    BitOrDisjoint(high, low, 64);
  }

  lemma TruncatedUpperWord(y: nat, w: nat)
    requires w >= 1
    ensures ((y % (w * w)) / w) % w == (y / w) % w
  {
    var upper := (y % (w * w)) / w;
    HighWordOfWide(y, w);
    DivModUnique(upper, w, 0, upper);
  }

  /**
    * Taking the upper word of a value truncated to two words is taking its
    * second word, for words of any radix w.
    */
  lemma HighWordOfWide(y: nat, w: nat)
    requires w >= 1
    ensures (y % (w * w)) / w == (y / w) % w
  {
    var q, r := y / (w * w), y % (w * w);
    EuclideanNat(y, w * w);
    var r1, r0 := r / w, r % w;
    EuclideanNat(r, w);
    assert r1 < w by {
      if r1 >= w {
        MulStrict(w - 1, r1, w);
      }
    }
    assert y == (q * w + r1) * w + r0;
    DivModUnique(y, w, q * w + r1, r0);
    DivModUnique(q * w + r1, w, q, r1);
  }

  // =====================================================================
  // Visual C++ branch

  /** What _BitScanReverse64 / _BitScanForward64 report: no bit set, or the index of the bit found. */
  datatype BitScan = NotFound | Found(index: nat)

  /** _BitScanReverse64: the index of the most significant set bit, modelled by its meaning. */
  function BitScanReverse64(x: Word): (r: BitScan)
    ensures r.NotFound? <==> x == 0
    ensures r.Found? ==> r.index <= 63 && Pow2(r.index) <= x < Pow2(r.index + 1)
  {
    BitLengthBounds(x);
    Pow2Word();
    BitLengthAtMost(x, 64);
    if x == 0 then NotFound else Found(BitLength(x) - 1)
  }

  /** _BitScanForward64: the index of the least significant set bit, modelled by its meaning. */
  function BitScanForward64(x: Word): (r: BitScan)
    ensures r.NotFound? <==> x == 0
    ensures r.Found? ==> r.index <= 63 && x % Pow2(r.index) == 0 && x % Pow2(r.index + 1) != 0
  {
    if x == 0 then NotFound
    else
      TrailingZerosDivide(x);
      TrailingZerosBelow64(x);
      Found(TrailingZeros(x))
  }

  function MsvcClzNonzero(x: Word): (r: int)
    requires x != 0
    ensures r == Clz(x)
  {
    63 - BitScanReverse64(x).index
  }

  function MsvcClz(x: Word): (r: int)
    ensures r == Clz(x)
  {
    match BitScanReverse64(x)
    case Found(index) => 63 - index
    case NotFound => 64
  }

  function MsvcCtzNonzero(x: Word): (r: int)
    requires x != 0
    ensures r == Ctz(x)
  {
    BitScanForward64(x).index
  }

  function MsvcCtz(x: Word): (r: int)
    ensures r == Ctz(x)
  {
    match BitScanForward64(x)
    case Found(index) => index
    case NotFound => 64
  }

  /**
    * __shiftleft128(low, high, shift): the intrinsic, modelled by its meaning,
    * the upper word of (high:low) shifted left by shift modulo 64.
    */
  function ShiftLeft128Intrinsic(low: Word, high: Word, shift: nat): (r: Word)
    ensures shift % 64 == 0 ==> r == high
    ensures r == (high % Pow2(64 - shift % 64)) * Pow2(shift % 64) + low / Pow2(64 - shift % 64)
  {
    if shift % 64 == 0 then
      LShift128ByZero(high, low);
      LShift128(high, low, 0)
    else
      LShift128(high, low, shift % 64)
  }

  function MsvcLShift128(high: Word, low: Word, shift: nat): (r: Word)
    requires shift < 64
    ensures r == LShift128(high, low, shift)
  {
    DivModUnique(shift, 64, 0, shift);
    ShiftLeft128Intrinsic(low, high, shift)
  }

  // =====================================================================
  // Portable fallback

  /** (uint64_t)0xff << (64 - 8) */
  const TOP_BYTE_MASK: Word := ShiftLeft(0xff, 64 - 8)

  /** (uint64_t)1 << (64 - 1) */
  const TOP_BIT_MASK: Word := ShiftLeft(1, 64 - 1)

  lemma Pow2Values()
    ensures Pow2(56) == 0x0100_0000_0000_0000
    ensures Pow2(63) == 0x8000_0000_0000_0000
    ensures Pow2(64) == WORD
  {
    assert Pow2(8) == 0x100;
    assert Pow2(7) == 0x80;
    Pow2Add(8, 8);
    Pow2Add(16, 16);
    Pow2Add(32, 16);
    Pow2Add(48, 8);
    Pow2Add(56, 7);
    Pow2Word();
  }

  /** The two masks are the top 8 bits and the top bit of a word. */
  lemma TopMasks()
    ensures TOP_BYTE_MASK == MaskRange(56, 64)
    ensures TOP_BIT_MASK == MaskRange(63, 64)
  {
    Pow2Values();
  }

  /**
    * One trip through either loop of the fallback clz, shifting by s (8 or 1)
    * while the top s bits of x = x0 << c are clear: the shift loses nothing and
    * the top c + s bits of x0 are still zero.
    */
  lemma ClzLoopStep(x0: Word, c: nat, s: nat)
    requires x0 != 0 && 1 <= s <= 8 && c <= 63 && x0 < Pow2(64 - c)
    requires BitAnd(ShiftLeft(x0, c), MaskRange(64 - s, 64)) == 0
    ensures c + s <= 63 && x0 < Pow2(64 - (c + s))
    ensures ShiftLeft(ShiftLeft(x0, c), s) == ShiftLeft(x0, c + s)
  {
    var p := Pow2(c);
    ShiftLeftNoWrap(x0, c);
    Pow2Word();
    BitAndHighMask(x0 * p, 64, 64 - s);
    assert x0 * p < Pow2(64 - s);
    MulGrows(p, x0);
    Pow2Below(c, 64 - s);
    ScaledBelow(x0, c, 64 - s);
    ShiftLeftTwice(x0, c, s);
  }

  /** The fallback clz stops when the top bit of x0 << c is set: then c is the count. */
  lemma ClzLoopExit(x0: Word, c: nat)
    requires x0 != 0 && c <= 63 && x0 < Pow2(64 - c)
    requires BitAnd(ShiftLeft(x0, c), TOP_BIT_MASK) != 0
    ensures c == Clz(x0)
  {
    TopMasks();
    ShiftLeftNoWrap(x0, c);
    Pow2Word();
    BitAndHighMask(ShiftLeft(x0, c), 64, 63);
    ScaledBelow(x0, c, 63);
    ClzCharacterization(x0, c);
  }

  /**
    * bitops64_clz, generic version: skip whole zero bytes, then single zero
    * bits.  The loops stop only when some bit of x is set, so x must be non-zero.
    */
  method GenericClz(x0: Word) returns (c: int)
    requires x0 != 0
    ensures c == Clz(x0)
  {
    TopMasks();
    Pow2Word();
    var x := x0;
    c := 0;
    while BitAnd(x, TOP_BYTE_MASK) == 0
      invariant 0 <= c <= 63
      invariant x0 < Pow2(64 - c)
      invariant x == ShiftLeft(x0, c)
      decreases 64 - c
    {
      ClzLoopStep(x0, c, 8);
      x := ShiftLeft(x, 8);
      c := c + 8;
    }
    while BitAnd(x, TOP_BIT_MASK) == 0
      invariant 0 <= c <= 63
      invariant x0 < Pow2(64 - c)
      invariant x == ShiftLeft(x0, c)
      decreases 64 - c
    {
      ClzLoopStep(x0, c, 1);
      x := ShiftLeft(x, 1);
      c := c + 1;
    }
    ClzLoopExit(x0, c);
  }

  /** bitops64_clz_nonzero, generic version. */
  method GenericClzNonzero(x: Word) returns (c: int)
    requires x != 0
    ensures c == Clz(x)
  {
    c := GenericClz(x);
  }

  /** x & -x keeps exactly the lowest set bit of x. */
  lemma LowestSetBit(x: Word)
    requires x != 0
    ensures BitAnd(x, Negate(x)) == Pow2(Ctz(x))
  {
    Pow2Word();
    DivModUnique(WORD - x, WORD, 0, WORD - x);
    BitAndNegated(x, 64);
  }

  /** The identity the generic ctz rests on: 63 - clz(x & -x) == ctz(x) for x != 0. */
  lemma CtzViaClz(x: Word)
    requires x != 0
    ensures 0 < BitAnd(x, Negate(x)) < WORD
    ensures 63 - Clz(BitAnd(x, Negate(x))) == Ctz(x)
  {
    LowestSetBit(x);
    ClzCtzOfPow2(Ctz(x));
  }

  /** bitops64_ctz, generic version: 63 - clz(x & -x). */
  method GenericCtz(x: Word) returns (c: int)
    requires x != 0
    ensures c == Ctz(x)
  {
    CtzViaClz(x);
    var lowest := BitAnd(x, Negate(x));
    var lz := GenericClz(lowest);
    c := 63 - lz;
  }

  /** bitops64_ctz_nonzero, generic version. */
  method GenericCtzNonzero(x: Word) returns (c: int)
    requires x != 0
    ensures c == Ctz(x)
  {
    c := GenericCtz(x);
  }

  /**
    * bitops64_lshift128, generic version: high for a zero shift (a shift of low
    * by 64 bits would be undefined), else (high << shift) | (low >> (64 - shift)).
    */
  function GenericLShift128(high: Word, low: Word, shift: nat): (r: Word)
    requires shift < 64
    ensures r == LShift128(high, low, shift)
  {
    if shift == 0 then
      LShift128ByZero(high, low);
      high
    else
      LShift128Parts(high, low, shift);
      BitOr(ShiftLeft(high, shift), ShiftRight(low, 64 - shift))
  }

  lemma LShift128ByZero(high: Word, low: Word)
    ensures LShift128(high, low, 0) == high
  {
    DivModUnique(high * WORD + low, WORD, high, low);
    DivModUnique(high, WORD, 0, high);
  }

  /** For 0 < s < 64 a word is 2^(64 - s) * 2^s. */
  lemma WordSplit(s: nat)
    requires s <= 64
    ensures Pow2(64 - s) * Pow2(s) == WORD
  {
    Pow2Add(64 - s, s);
    Pow2Word();
  }

  /** The fallback's two parts occupy disjoint bits, so their or is their sum, which is the definition. */
  lemma LShift128Parts(high: Word, low: Word, s: nat)
    requires 0 < s < 64
    ensures BitAnd(ShiftLeft(high, s), ShiftRight(low, 64 - s)) == 0
    ensures BitOr(ShiftLeft(high, s), ShiftRight(low, 64 - s)) == LShift128(high, low, s)
  {
    var p, q := Pow2(s), Pow2(64 - s);
    WordSplit(s);
    ModOfScaled(high, p, q);
    DivBelow(low, p, q);
    var left, right := (high % q) * p, low / q;
    assert ShiftLeft(high, s) == left && ShiftRight(low, 64 - s) == right;
    BitAndDisjoint(high % q, right, s);
    BitOrDisjoint(high % q, right, s);
    UpperWordOfShift(high, low, p, q);
  }

  // =====================================================================
  // The fallback at zero, as written and as documented

  /**
    * The fallback clz at x0 == 0, as written: whatever c the loop has reached,
    * x is 0 << c == 0 and the loop test (x & 0xff00...) == 0 still holds, so the
    * loop never exits, although the doc comment promises 64.
    */
  lemma GenericClzNeverExitsAtZero(c: nat)
    ensures ShiftLeft(0, c) == 0
    ensures BitAnd(ShiftLeft(0, c), TOP_BYTE_MASK) == 0
    ensures Clz(0) == 64
  {
  }

  /**
    * The fallback ctz at x == 0, as written: 0 & -0 == 0, so even a clz that
    * returned its documented 64 at zero would make ctz return 63 - 64 == -1
    * instead of the documented 64.
    */
  lemma GenericCtzAtZero()
    ensures BitAnd(0, Negate(0)) == 0
    ensures 63 - Clz(BitAnd(0, Negate(0))) == -1
    ensures Ctz(0) == 64
  {
  }

  /** bitops64_clz with the zero case the doc comment promises handled before the loops. */
  method ClzTotal(x: Word) returns (c: int)
    ensures c == Clz(x)
  {
    if x == 0 {
      c := 64;
    } else {
      c := GenericClz(x);
    }
  }

  /** bitops64_ctz with the zero case the doc comment promises handled before 63 - clz(x & -x). */
  method CtzTotal(x: Word) returns (c: int)
    ensures c == Ctz(x)
  {
    if x == 0 {
      c := 64;
    } else {
      c := GenericCtz(x);
    }
  }
}
