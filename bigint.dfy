/**
  * class BigInt of BigInt.hpp (and class MiniMPZ of MiniMPZ.hpp, whose text
  * is the same apart from the class name): an owner of one arbitrary-precision
  * integer whose members each delegate to one mini-gmp routine.  The mpz_t
  * field is modelled by the integer it holds; the routines by the functions of
  * module Mpz.
  */
module Bignum {
  import opened Mpz
  import opened Decimal

  /** The range of C's long and unsigned long on a 64-bit (LP64) target. */
  const LONG_MIN: int := -0x8000_0000_0000_0000
  const LONG_MAX: int := 0x7fff_ffff_ffff_ffff
  const ULONG_MAX: int := 0xffff_ffff_ffff_ffff

  /** The outcome of the string constructor: a new object, or std::invalid_argument. */
  datatype Construction = Constructed(n: BigInt) | InvalidArgument

  class BigInt {
    /** value_ */
    var value: int

    /** BigInt(): mpz_init, which sets 0. */
    constructor ()
      ensures value == 0
    {
      value := 0;
    }

    /** BigInt(long): mpz_init_set_si. */
    constructor FromLong(val: int)
      requires LONG_MIN <= val <= LONG_MAX
      ensures value == val
    {
      value := val;
    }

    /** BigInt(unsigned long): mpz_init_set_ui. */
    constructor FromULong(val: int)
      requires 0 <= val <= ULONG_MAX
      ensures value == val
    {
      value := val;
    }

    /**
      * BigInt(const char*, int base = 10) with the default base: mpz_init_set_str,
      * and std::invalid_argument when it reports bad text.  No object comes out
      * of a failed construction.
      */
    static method FromString(text: string) returns (r: Construction)
      ensures r.InvalidArgument? <==> Parse(text).None?
      ensures r.Constructed? ==> fresh(r.n) && r.n.value == Parse(text).value
      ensures r.Constructed? && Canonical(text) ==> r.n.ToString() == text
    {
      var parsed := Parse(text);
      if Canonical(text) {
        FormatParse(text);
      }
      if parsed.None? {
        return InvalidArgument;
      }
      var n := new BigInt();
      n.value := parsed.value;
      return Constructed(n);
    }

    /** BigInt(const BigInt&): mpz_init_set. */
    constructor Copy(other: BigInt)
      ensures value == other.value
    {
      value := other.value;
    }

    /** BigInt(BigInt&&): takes the value of other and leaves other at 0. */
    constructor Move(other: BigInt)
      modifies other
      ensures value == old(other.value)
      ensures other.value == 0
    {
      value := other.value;
      new;
      other.value := 0;
    }

    /** operator=(const BigInt&): mpz_set unless this is other. */
    method CopyAssign(other: BigInt)
      modifies this
      ensures value == old(other.value)
      ensures other != this ==> other.value == old(other.value)
    {
      if this != other {
        value := other.value;
      }
    }

    /** operator=(BigInt&&): takes the value of other and leaves other at 0, unless this is other. */
    method MoveAssign(other: BigInt)
      modifies this, other
      ensures other == this ==> value == old(value)
      ensures other != this ==> value == old(other.value) && other.value == 0
    {
      if this != other {
        value := other.value;
        other.value := 0;
      }
    }

    // -------------------------------------------------------------------
    // Arithmetic operators: a fresh result, nothing else changes.

    /** operator+: mpz_add. */
    method Add(other: BigInt) returns (result: BigInt)
      ensures fresh(result) && result.value == value + other.value
    {
      result := new BigInt();
      result.value := value + other.value;
    }

    /** operator-(const BigInt&): mpz_sub. */
    method Sub(other: BigInt) returns (result: BigInt)
      ensures fresh(result) && result.value == value - other.value
    {
      result := new BigInt();
      result.value := value - other.value;
    }

    /** operator*: mpz_mul. */
    method Mul(other: BigInt) returns (result: BigInt)
      ensures fresh(result) && result.value == value * other.value
    {
      result := new BigInt();
      result.value := value * other.value;
    }

    /** operator/: mpz_tdiv_q, the quotient rounded toward zero. */
    method Div(other: BigInt) returns (result: BigInt)
      requires other.value != 0
      ensures fresh(result) && result.value == TDivQ(value, other.value)
    {
      result := new BigInt();
      result.value := TDivQ(value, other.value);
    }

    /** operator%: mpz_mod, the non-negative remainder. */
    method Mod(other: BigInt) returns (result: BigInt)
      requires other.value != 0
      ensures fresh(result) && result.value == Mpz.Mod(value, other.value)
    {
      result := new BigInt();
      result.value := Mpz.Mod(value, other.value);
    }

    /** operator-(): mpz_neg. */
    method Negate() returns (result: BigInt)
      ensures fresh(result) && result.value == -value
    {
      result := new BigInt();
      result.value := -value;
    }

    // -------------------------------------------------------------------
    // Compound assignment: the receiver becomes what the binary operator
    // returns on the old receiver; other is read only (it may be this).

    /** operator+= */
    method AddAssign(other: BigInt)
      modifies this
      ensures value == old(value) + old(other.value)
      ensures other != this ==> other.value == old(other.value)
    {
      value := value + other.value;
    }

    /** operator-= */
    method SubAssign(other: BigInt)
      modifies this
      ensures value == old(value) - old(other.value)
      ensures other != this ==> other.value == old(other.value)
    {
      value := value - other.value;
    }

    /** operator*= */
    method MulAssign(other: BigInt)
      modifies this
      ensures value == old(value) * old(other.value)
      ensures other != this ==> other.value == old(other.value)
    {
      value := value * other.value;
    }

    /** operator/= */
    method DivAssign(other: BigInt)
      requires other.value != 0
      modifies this
      ensures value == TDivQ(old(value), old(other.value))
      ensures other != this ==> other.value == old(other.value)
    {
      value := TDivQ(value, other.value);
    }

    /** operator%= */
    method ModAssign(other: BigInt)
      requires other.value != 0
      modifies this
      ensures value == Mpz.Mod(old(value), old(other.value))
      ensures other != this ==> other.value == old(other.value)
    {
      value := Mpz.Mod(value, other.value);
    }

    // -------------------------------------------------------------------
    // Comparison: each operator tests the sign of one mpz_cmp.

    /** operator== */
    function Equal(other: BigInt): (r: bool)
      reads this, other
      ensures r <==> value == other.value
    {
      Cmp(value, other.value) == 0
    }

    /** operator!= */
    function NotEqual(other: BigInt): (r: bool)
      reads this, other
      ensures r <==> value != other.value
    {
      Cmp(value, other.value) != 0
    }

    /** operator< */
    function Less(other: BigInt): (r: bool)
      reads this, other
      ensures r <==> value < other.value
    {
      Cmp(value, other.value) < 0
    }

    /** operator<= */
    function LessEq(other: BigInt): (r: bool)
      reads this, other
      ensures r <==> value <= other.value
    {
      Cmp(value, other.value) <= 0
    }

    /** operator> */
    function Greater(other: BigInt): (r: bool)
      reads this, other
      ensures r <==> value > other.value
    {
      Cmp(value, other.value) > 0
    }

    /** operator>= */
    function GreaterEq(other: BigInt): (r: bool)
      reads this, other
      ensures r <==> value >= other.value
    {
      Cmp(value, other.value) >= 0
    }

    // -------------------------------------------------------------------
    // Conversions

    /** to_long(): mpz_get_si, for a value that fits a long. */
    function ToLong(): (r: int)
      reads this
      requires LONG_MIN <= value <= LONG_MAX
      ensures LONG_MIN <= r <= LONG_MAX && r == value
    {
      value
    }

    /**
      * to_ulong(): mpz_get_ui, the least significant bits of the magnitude
      * that fit an unsigned long; the sign is ignored.
      */
    function ToULong(): (r: int)
      reads this
      ensures 0 <= r <= ULONG_MAX
      ensures r == Mpz.Abs(value) % (ULONG_MAX + 1)
      ensures 0 <= value <= ULONG_MAX ==> r == value
      ensures -ULONG_MAX <= value < 0 ==> r == -value
    {
      Mpz.Abs(value) % (ULONG_MAX + 1)
    }

    /** to_string() in the default base 10: mpz_get_str. */
    function ToString(): (s: string)
      reads this
      ensures Canonical(s)
      ensures Parse(s) == Some(value)
    {
      ParseFormat(value);
      Format(value)
    }

    // -------------------------------------------------------------------
    // Utilities

    /** abs(): mpz_abs. */
    method Abs() returns (result: BigInt)
      ensures fresh(result) && result.value == Mpz.Abs(value)
    {
      result := new BigInt();
      result.value := Mpz.Abs(value);
    }

    /** pow(unsigned long): mpz_pow_ui. */
    method Pow(exp: nat) returns (result: BigInt)
      requires exp <= ULONG_MAX
      ensures fresh(result) && result.value == Mpz.Pow(value, exp)
    {
      result := new BigInt();
      result.value := Mpz.Pow(value, exp);
    }

    /** sqrt(): mpz_sqrt, defined for a non-negative value only. */
    method Sqrt() returns (result: BigInt)
      requires value >= 0
      ensures fresh(result) && result.value == FloorSqrt(value)
    {
      result := new BigInt();
      result.value := FloorSqrt(value);
    }

    /** sign(): mpz_sgn. */
    function Sign(): (r: int)
      reads this
      ensures r == -1 <==> value < 0
      ensures r == 0 <==> value == 0
      ensures r == 1 <==> value > 0
    {
      Sgn(value)
    }

    /** is_even(): mpz_even_p. */
    function IsEven(): (r: bool)
      reads this
      ensures r <==> value % 2 == 0
    {
      EvenP(value)
    }

    /** is_odd(): mpz_odd_p. */
    function IsOdd(): (r: bool)
      reads this
      ensures r <==> value % 2 != 0
    {
      OddP(value)
    }
  }

  /** class MiniMPZ: the same class under another name. */
  type MiniMPZ = BigInt

  // ---------------------------------------------------------------------
  // Properties relating several members

  /** Exactly one of <, ==, > holds, and the other three operators are their combinations. */
  lemma ComparisonConsistent(a: BigInt, b: BigInt)
    ensures a.Less(b) || a.Equal(b) || a.Greater(b)
    ensures !(a.Less(b) && a.Equal(b)) && !(a.Less(b) && a.Greater(b)) && !(a.Equal(b) && a.Greater(b))
    ensures a.NotEqual(b) <==> !a.Equal(b)
    ensures a.LessEq(b) <==> a.Less(b) || a.Equal(b)
    ensures a.GreaterEq(b) <==> a.Greater(b) || a.Equal(b)
    ensures a.Less(b) <==> b.Greater(a)
  {
  }

  /** Exactly one of is_even and is_odd holds. */
  lemma EvenOddExclusive(a: BigInt)
    ensures a.IsEven() != a.IsOdd()
  {
  }
}
