/**
  * The decimal texts of tests/test_BigInt.cpp's large-number scenario, read
  * and written by the functions of module Decimal.
  */
module LargeNumberText {
  import opened Decimal

  /**
    * The number denoted by the first k characters of s, or -1 if one of them
    * is not a digit; the last character is peeled off by index so that it
    * unfolds on a literal s.
    */
  function PrefixValue(s: string, k: nat): int
    requires k <= |s|
  {
    if k == 0 then 0
    else
      var p := PrefixValue(s, k - 1);
      if p < 0 || !IsDigit(s[k - 1]) then -1 else 10 * p + DigitValue(s[k - 1])
  }

  lemma {:induction false} PrefixValueIsDigitsValue(s: string, k: nat)
    requires k <= |s| && PrefixValue(s, k) >= 0
    ensures AllDigits(s[..k]) && PrefixValue(s, k) == DigitsValue(s[..k])
  {
    if k > 0 {
      assert s[..k][..k - 1] == s[..k - 1];
      PrefixValueIsDigitsValue(s, k - 1);
    }
  }

  /** The value of the first k characters depends on those characters only. */
  lemma {:induction false} PrefixValueAgree(s: string, t: string, k: nat)
    requires k <= |s| && k <= |t| && s[..k] == t[..k]
    ensures PrefixValue(s, k) == PrefixValue(t, k)
  {
    if k > 0 {
      assert s[k - 1] == s[..k][k - 1] && t[k - 1] == t[..k][k - 1];
      assert s[..k - 1] == s[..k][..k - 1] && t[..k - 1] == t[..k][..k - 1];
      PrefixValueAgree(s, t, k - 1);
    }
  }

  /** Digits without a leading zero are read as the number they denote, and written back unchanged. */
  lemma DigitText(s: string)
    requires |s| > 0 && s[0] != '0' && PrefixValue(s, |s|) >= 0
    ensures Parse(s) == Some(PrefixValue(s, |s|))
    ensures Format(PrefixValue(s, |s|)) == s
  {
    PrefixValueIsDigitsValue(s, |s|);
    assert s[..|s|] == s;
    NonNegativeFormatParse(s);
  }

  lemma FirstOperandDigits5()
    ensures PrefixValue("123456789012345678901234567890", 5) == 12345
  {
    assert PrefixValue("123456789012345678901234567890", 1) == 1;
  }

  lemma FirstOperandDigits10()
    ensures PrefixValue("123456789012345678901234567890", 10) == 1234567890
  {
    FirstOperandDigits5();
  }

  lemma FirstOperandDigits15()
    ensures PrefixValue("123456789012345678901234567890", 15) == 123456789012345
  {
    FirstOperandDigits10();
  }

  lemma FirstOperandDigits18()
    ensures PrefixValue("123456789012345678901234567890", 18) == 123456789012345678
  {
    FirstOperandDigits15();
  }

  lemma FirstOperandDigits20()
    ensures PrefixValue("123456789012345678901234567890", 20) == 12345678901234567890
  {
    FirstOperandDigits18();
  }

  lemma FirstOperandDigits25()
    ensures PrefixValue("123456789012345678901234567890", 25) == 1234567890123456789012345
  {
    FirstOperandDigits20();
  }

  lemma FirstOperandDigits30()
    ensures PrefixValue("123456789012345678901234567890", 30) == 123456789012345678901234567890
  {
    FirstOperandDigits25();
  }

  lemma SecondOperandDigits5()
    ensures PrefixValue("987654321098765432109876543210", 5) == 98765
  {
    assert PrefixValue("987654321098765432109876543210", 1) == 9;
  }

  lemma SecondOperandDigits10()
    ensures PrefixValue("987654321098765432109876543210", 10) == 9876543210
  {
    SecondOperandDigits5();
  }

  lemma SecondOperandDigits15()
    ensures PrefixValue("987654321098765432109876543210", 15) == 987654321098765
  {
    SecondOperandDigits10();
  }

  lemma SecondOperandDigits18()
    ensures PrefixValue("987654321098765432109876543210", 18) == 987654321098765432
  {
    SecondOperandDigits15();
  }

  lemma SecondOperandDigits20()
    ensures PrefixValue("987654321098765432109876543210", 20) == 98765432109876543210
  {
    SecondOperandDigits18();
  }

  lemma SecondOperandDigits25()
    ensures PrefixValue("987654321098765432109876543210", 25) == 9876543210987654321098765
  {
    SecondOperandDigits20();
  }

  lemma SecondOperandDigits30()
    ensures PrefixValue("987654321098765432109876543210", 30) == 987654321098765432109876543210
  {
    SecondOperandDigits25();
  }

  lemma SumDigits5()
    ensures PrefixValue("1111111110111111111011111111100", 5) == 11111
  {
    assert PrefixValue("1111111110111111111011111111100", 1) == 1;
  }

  lemma SumDigits10()
    ensures PrefixValue("1111111110111111111011111111100", 10) == 1111111110
  {
    SumDigits5();
  }

  lemma SumDigits15()
    ensures PrefixValue("1111111110111111111011111111100", 15) == 111111111011111
  {
    SumDigits10();
  }

  lemma SumDigits17()
    ensures PrefixValue("1111111110111111111011111111100", 17) == 11111111101111111
  {
    SumDigits15();
  }

  lemma SumDigits18()
    ensures PrefixValue("1111111110111111111011111111100", 18) == 111111111011111111
  {
    SumDigits17();
  }

  lemma SumDigits20()
    ensures PrefixValue("1111111110111111111011111111100", 20) == 11111111101111111110
  {
    SumDigits18();
  }

  lemma SumDigits23()
    ensures PrefixValue("1111111110111111111011111111100", 23) == 11111111101111111110111
  {
    SumDigits20();
  }

  lemma SumDigits25()
    ensures PrefixValue("1111111110111111111011111111100", 25) == 1111111110111111111011111
  {
    SumDigits23();
  }

  lemma SumDigits30()
    ensures PrefixValue("1111111110111111111011111111100", 30) == 111111111011111111101111111110
  {
    SumDigits25();
  }

  lemma SumDigits31()
    ensures PrefixValue("1111111110111111111011111111100", 31) == 1111111110111111111011111111100
  {
    SumDigits30();
  }

  /** The first operand of test_large_numbers, read from text. */
  lemma FirstLargeOperand()
    ensures Parse("123456789012345678901234567890") == Some(123456789012345678901234567890)
  {
    FirstOperandDigits30();
    DigitText("123456789012345678901234567890");
  }

  /** The second operand of test_large_numbers, read from text. */
  lemma SecondLargeOperand()
    ensures Parse("987654321098765432109876543210") == Some(987654321098765432109876543210)
  {
    SecondOperandDigits30();
    DigitText("987654321098765432109876543210");
  }

  /** The text test_construction builds from is read and written back unchanged. */
  lemma ConstructionText()
    ensures Parse("12345678901234567890").Some?
    ensures Format(Parse("12345678901234567890").value) == "12345678901234567890"
  {
    FirstOperandDigits20();
    PrefixValueAgree("123456789012345678901234567890", "12345678901234567890", 20);
    DigitText("12345678901234567890");
  }

  /** The sum of test_large_numbers, written as text. */
  lemma LargeSumText()
    ensures Format(1111111110111111111011111111100) == "1111111110111111111011111111100"
  {
    SumDigits31();
    DigitText("1111111110111111111011111111100");
  }
}

/**
  * The scenarios of tests/test_BigInt.cpp (and tests/test_MiniMPZ.cpp, the
  * same text for class MiniMPZ), restated in the model: each method builds
  * the objects the test builds and its ensures states the values the test
  * asserts.  The floating-point constructions are not part of this model.
  */
module BignumScenarios {
  import opened Mpz
  import opened Decimal
  import opened Bignum
  import opened LargeNumberText

  /** test_construction, without the double and float objects. */
  method Construction() returns (small: int, text: string)
    ensures small == 42
    ensures text == "12345678901234567890"
  {
    var a := new BigInt.FromULong(42);
    small := a.ToLong();
    var d := BigInt.FromString("12345678901234567890");
    ConstructionText();
    assert d.Constructed?;
    text := d.n.ToString();
  }

  /** test_arithmetic on 100 and 25. */
  method Arithmetic() returns (sum: int, diff: int, prod: int, quot: int, rem: int, neg: int)
    ensures sum == 125 && diff == 75 && prod == 2500
    ensures quot == 4 && rem == 0 && neg == -100
  {
    var a := new BigInt.FromULong(100);
    var b := new BigInt.FromULong(25);
    var r := a.Add(b);
    sum := r.ToLong();
    r := a.Sub(b);
    diff := r.ToLong();
    r := a.Mul(b);
    prod := r.ToLong();
    TDivQUnique(100, 25, 4);
    r := a.Div(b);
    quot := r.ToLong();
    Mpz.ModUnique(100, 25, 0);
    r := a.Mod(b);
    rem := r.ToLong();
    r := a.Negate();
    neg := r.ToLong();
  }

  /** test_compound_assignment: 100 += 50, -= 30, *= 2, /= 4, %= 17. */
  method CompoundAssignment() returns (steps: seq<int>)
    ensures steps == [150, 120, 240, 60, 9]
  {
    var a := new BigInt.FromULong(100);
    var arg := new BigInt.FromULong(50);
    a.AddAssign(arg);
    steps := [a.ToLong()];
    arg := new BigInt.FromULong(30);
    a.SubAssign(arg);
    steps := steps + [a.ToLong()];
    arg := new BigInt.FromULong(2);
    a.MulAssign(arg);
    steps := steps + [a.ToLong()];
    arg := new BigInt.FromULong(4);
    TDivQUnique(240, 4, 60);
    a.DivAssign(arg);
    steps := steps + [a.ToLong()];
    arg := new BigInt.FromULong(17);
    Mpz.ModUnique(60, 17, 9);
    a.ModAssign(arg);
    steps := steps + [a.ToLong()];
  }

  /** test_comparison on 100, 50 and 100. */
  method Comparison() returns (results: seq<bool>)
    ensures results == [true, true, true, true, true, true]
  {
    var a := new BigInt.FromULong(100);
    var b := new BigInt.FromULong(50);
    var c := new BigInt.FromULong(100);
    results := [a.Greater(b), b.Less(a), a.GreaterEq(c), a.LessEq(c), a.Equal(c), a.NotEqual(b)];
  }

  /** test_utilities: abs and sign of -42, 2 to the 10th, the square root of 16, parity of 4. */
  method Utilities() returns (abs: int, sign: int, power: int, root: int, even: bool, odd: bool)
    ensures abs == 42 && sign == -1 && power == 1024 && root == 4
    ensures even && !odd
  {
    var a := new BigInt.FromLong(-42);
    var r := a.Abs();
    abs := r.ToLong();
    sign := a.Sign();
    var b := new BigInt.FromLong(2);
    r := b.Pow(10);
    assert Mpz.Pow(2, 10) == 1024;
    power := r.ToLong();
    var c := new BigInt.FromLong(16);
    FloorSqrtUnique(16, 4);
    r := c.Sqrt();
    root := r.ToLong();
    var d := new BigInt.FromLong(4);
    even := d.IsEven();
    odd := d.IsOdd();
  }

  /** test_large_numbers: the sum of two 30-digit numbers, written back as text. */
  method LargeNumbers() returns (text: string)
    ensures text == "1111111110111111111011111111100"
  {
    FirstLargeOperand();
    SecondLargeOperand();
    LargeSumText();
    var a := BigInt.FromString("123456789012345678901234567890");
    var b := BigInt.FromString("987654321098765432109876543210");
    var sum := a.n.Add(b.n);
    text := sum.ToString();
  }

  /** Text that is not a number makes the constructor throw. */
  method InvalidText() returns (failed: bool)
    ensures failed
  {
    RejectsNonDigit("12a", 2);
    var r := BigInt.FromString("12a");
    failed := r.InvalidArgument?;
  }

  /** Moving an object transfers its value and leaves the source at 0. */
  method Move() returns (moved: int, source: int)
    ensures moved == 7 && source == 0
  {
    var a := new BigInt.FromLong(7);
    var b := new BigInt.Move(a);
    moved := b.ToLong();
    source := a.ToLong();
  }
}
