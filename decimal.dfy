/**
  * Base-10 text for integers, as mpz_set_str reads it and mpz_get_str writes
  * it: an optional '-' followed by decimal digits, most significant first.
  */
module Decimal {
  datatype Option<T> = None | Some(value: T)

  predicate IsDigit(c: char)
  {
    '0' <= c <= '9'
  }

  predicate AllDigits(s: string)
  {
    forall i :: 0 <= i < |s| ==> IsDigit(s[i])
  }

  function DigitValue(c: char): (d: nat)
    requires IsDigit(c)
    ensures d < 10
  {
    c as int - '0' as int
  }

  function DigitChar(d: nat): (c: char)
    requires d < 10
    ensures IsDigit(c) && DigitValue(c) == d
  {
    ('0' as int + d) as char
  }

  /** The number a string of digits denotes, most significant digit first. */
  function DigitsValue(s: string): nat
    requires AllDigits(s)
  {
    if |s| == 0 then 0 else 10 * DigitsValue(s[..|s| - 1]) + DigitValue(s[|s| - 1])
  }

  /** The digits of n without leading zeros; the empty string for 0. */
  function NatDigits(n: nat): (s: string)
    ensures AllDigits(s) && DigitsValue(s) == n
    ensures |s| > 0 <==> n > 0
    ensures |s| > 0 ==> s[0] != '0'
  {
    if n == 0 then ""
    else
      var s := NatDigits(n / 10) + [DigitChar(n % 10)];
      assert s[..|s| - 1] == NatDigits(n / 10);
      s
  }

  /** The digits of a magnitude as mpz_get_str writes them: "0" for 0. */
  function Magnitude(n: nat): (s: string)
    ensures AllDigits(s) && |s| > 0 && DigitsValue(s) == n
  {
    if n == 0 then "0" else NatDigits(n)
  }

  /** mpz_get_str in base 10: a '-' in front of a negative value. */
  function Format(v: int): (s: string)
    ensures |s| > 0 && (s[0] == '-' <==> v < 0)
    ensures v < 0 ==> s[1..] == Magnitude(-v)
    ensures v >= 0 ==> s == Magnitude(v)
  {
    var m := Magnitude(if v < 0 then -v else v);
    if v < 0 then
      var s := "-" + m;
      assert s[1..] == m;
      s
    else m
  }

  /** A non-empty sequence of digits. */
  predicate ValidDigits(s: string)
  {
    |s| > 0 && AllDigits(s)
  }

  /** isspace in the C locale: space, tab, line feed, vertical tab, form feed, carriage return. */
  predicate IsSpace(c: char)
  {
    c == ' ' || c == '\t' || c == '\n' || c == '\U{B}' || c == '\U{C}' || c == '\r'
  }

  predicate NoSpace(s: string)
  {
    forall i :: 0 <= i < |s| ==> !IsSpace(s[i])
  }

  /** s after its leading white space. */
  function SkipSpace(s: string): (t: string)
    ensures |t| <= |s| && t == s[|s| - |t|..]
    ensures |t| > 0 ==> !IsSpace(t[0])
    ensures forall i :: 0 <= i < |s| - |t| ==> IsSpace(s[i])
  {
    if |s| > 0 && IsSpace(s[0]) then SkipSpace(s[1..]) else s
  }

  /** The characters of s that are not white space, in order. */
  function DropSpace(s: string): (t: string)
    ensures NoSpace(t) && |t| <= |s|
    ensures NoSpace(s) ==> t == s
  {
    if |s| == 0 then ""
    else
      var rest := DropSpace(s[1..]);
      if IsSpace(s[0]) then rest else [s[0]] + rest
  }

  /**
    * mpz_set_str in base 10: white space is skipped at the front; then an
    * optional '-'; then the digits, white space between and after them
    * skipped too. Text without a digit, or with any other character, is
    * rejected (None, where mpz_set_str returns -1).
    */
  function Parse(s: string): (r: Option<int>)
    ensures ValidDigits(s) ==> r == Some(DigitsValue(s) as int)
    ensures (forall i :: 0 <= i < |s| ==> IsSpace(s[i])) ==> r == None
  {
    ParseSigned(SkipSpace(s))
  }

  /** What mpz_set_str reads once the leading white space is skipped. */
  function ParseSigned(t: string): Option<int>
  {
    if |t| > 0 && t[0] == '-' then
      var d := DropSpace(t[1..]);
      if ValidDigits(d) then Some(-(DigitsValue(d) as int)) else None
    else
      var d := DropSpace(t);
      if ValidDigits(d) then Some(DigitsValue(d) as int) else None
  }

  /** The text mpz_get_str produces: no leading zeros and no "-0". */
  predicate Canonical(s: string)
  {
    if |s| > 0 && s[0] == '-' then
      ValidDigits(s[1..]) && s[1] != '0'
    else
      ValidDigits(s) && (s[0] == '0' ==> |s| == 1)
  }

  // ---------------------------------------------------------------------
  // Round trips

  /** Every value is read back from the text written for it. */
  lemma ParseFormat(v: int)
    ensures Canonical(Format(v))
    ensures Parse(Format(v)) == Some(v)
  {
    var s := Format(v);
    if v < 0 {
      var m := s[1..];
      DigitsNoSpace(m);
      SkipNoSpace(s);
      assert DropSpace(m) == m;
    } else {
      assert ValidDigits(s);
    }
  }

  lemma DigitsNoSpace(s: string)
    requires AllDigits(s)
    ensures NoSpace(s)
  {
    forall k | 0 <= k < |s|
      ensures !IsSpace(s[k])
    {
      assert IsDigit(s[k]);
    }
  }

  /** A digit string with no leading zero is a positive number. */
  lemma {:induction false} DigitsValuePositive(s: string)
    requires ValidDigits(s) && s[0] != '0'
    ensures DigitsValue(s) > 0
  {
    if |s| > 1 {
      var t := s[..|s| - 1];
      assert t[0] == s[0];
      DigitsValuePositive(t);
    }
  }

  /** Digits without a leading zero are written back unchanged. */
  lemma {:induction false} NatDigitsOfValue(s: string)
    requires ValidDigits(s) && s[0] != '0'
    ensures NatDigits(DigitsValue(s)) == s
  {
    var t := s[..|s| - 1];
    var d := DigitValue(s[|s| - 1]);
    var n := DigitsValue(s);
    assert n / 10 == DigitsValue(t) && n % 10 == d;
    if |t| > 0 {
      assert t[0] == s[0];
      NatDigitsOfValue(t);
      DigitsValuePositive(s);
    } else {
      assert s == [s[0]];
    }
    assert s == t + [s[|s| - 1]];
  }

  /** Canonical text is written back unchanged after it is read. */
  lemma FormatParse(s: string)
    requires Canonical(s)
    ensures Parse(s).Some? && Format(Parse(s).value) == s
  {
    if s[0] == '-' {
      NegativeFormatParse(s);
    } else {
      NonNegativeFormatParse(s);
    }
  }

  lemma NonNegativeFormatParse(s: string)
    requires ValidDigits(s) && (s[0] == '0' ==> |s| == 1)
    ensures Parse(s) == Some(DigitsValue(s) as int)
    ensures Format(DigitsValue(s)) == s
  {
    if s[0] == '0' {
      assert s == "0" && DigitsValue(s) == 0;
      assert Format(0) == Magnitude(0);
    } else {
      NatDigitsOfValue(s);
    }
  }

  lemma NegativeFormatParse(s: string)
    requires |s| > 1 && s[0] == '-' && ValidDigits(s[1..]) && s[1] != '0'
    ensures Parse(s) == Some(-(DigitsValue(s[1..]) as int))
    ensures Format(-(DigitsValue(s[1..]) as int)) == s
    ensures Parse(s).Some? && Format(Parse(s).value) == s
  {
    var t := s[1..];
    SkipNoSpace(s);
    DigitsNoSpace(t);
    var n := DigitsValue(t);
    NatDigitsOfValue(t);
    DigitsValuePositive(t);
    assert Magnitude(n) == t;
    assert s == "-" + t;
  }

  lemma SkipNoSpace(s: string)
    requires |s| > 0 && !IsSpace(s[0])
    ensures SkipSpace(s) == s
  {
  }

  /** Leading zeros do not change the number read. */
  lemma {:induction false} LeadingZeroIgnored(s: string)
    requires ValidDigits(s)
    ensures DigitsValue("0" + s) == DigitsValue(s)
  {
    var z := "0" + s;
    assert z[..|z| - 1] == "0" + s[..|s| - 1];
    if |s| > 1 {
      LeadingZeroIgnored(s[..|s| - 1]);
    } else {
      assert z[..|z| - 1] == "0";
      assert DigitsValue("0") == 0;
    }
  }

  function Pow10(k: nat): (r: nat)
    ensures r >= 1
  {
    if k == 0 then 1 else 10 * Pow10(k - 1)
  }

  /** The digits of s followed by the digits of t denote s's number shifted past t's digits, plus t's. */
  lemma {:induction false} DigitsConcat(s: string, t: string)
    requires AllDigits(s) && AllDigits(t)
    ensures AllDigits(s + t)
    ensures DigitsValue(s + t) == DigitsValue(s) * Pow10(|t|) + DigitsValue(t)
  {
    var st := s + t;
    if |t| == 0 {
      assert st == s;
    } else {
      var t' := t[..|t| - 1];
      assert st[..|st| - 1] == s + t';
      assert st[|st| - 1] == t[|t| - 1];
      DigitsConcat(s, t');
      ShiftDigit(DigitsValue(s), Pow10(|t'|), DigitsValue(t'), DigitValue(t[|t| - 1]));
    }
  }

  lemma ShiftDigit(a: nat, p: nat, v: nat, d: nat)
    ensures 10 * (a * p + v) + d == a * (10 * p) + (10 * v + d)
  {
  }

  /**
    * Text with a character that is neither a digit nor white space, other
    * than the '-' that may follow the leading white space, is rejected.
    */
  lemma RejectsNonDigit(s: string, i: nat)
    requires 0 <= i < |s| && !IsDigit(s[i]) && !IsSpace(s[i])
    requires i != |s| - |SkipSpace(s)| || s[i] != '-'
    ensures Parse(s) == None
  {
    var t := SkipSpace(s);
    var k := |s| - |t|;
    assert i >= k;
    assert t[i - k] == s[i];
    if t[0] == '-' {
      assert t[1..][i - k - 1] == s[i];
      DropSpaceKeeps(t[1..], i - k - 1);
    } else {
      DropSpaceKeeps(t, i - k);
    }
  }

  /** A character that is neither white space nor a digit survives into DropSpace and spoils its digits. */
  lemma {:induction false} DropSpaceKeeps(u: string, j: nat)
    requires j < |u| && !IsSpace(u[j]) && !IsDigit(u[j])
    ensures !AllDigits(DropSpace(u))
  {
    if j == 0 {
      assert DropSpace(u)[0] == u[0];
    } else {
      assert u[1..][j - 1] == u[j];
      DropSpaceKeeps(u[1..], j - 1);
      var d := DropSpace(u);
      var rest := DropSpace(u[1..]);
      if !IsSpace(u[0]) {
        assert forall m :: 0 <= m < |rest| ==> rest[m] == d[m + 1];
      }
    }
  }

  /** White space inserted anywhere in the text does not change what is read. */
  lemma SpaceIgnored(s: string, i: nat, c: char)
    requires i <= |s| && IsSpace(c)
    ensures Parse(s[..i] + [c] + s[i..]) == Parse(s)
  {
    assert s == s[..i] + s[i..];
    InsertSpace(s[..i], s[i..], c);
  }

  lemma InsertSpace(a: string, b: string, c: char)
    requires IsSpace(c)
    ensures Parse(a + [c] + b) == Parse(a + b)
  {
    if |SkipSpace(a)| == 0 {
      LeadingInsertSpace(a, b, c);
    } else {
      InnerInsertSpace(a, b, c);
    }
  }

  lemma LeadingInsertSpace(a: string, b: string, c: char)
    requires IsSpace(c) && |SkipSpace(a)| == 0
    ensures SkipSpace(a + [c] + b) == SkipSpace(a + b)
  {
    SkipAllSpace(a + [c], b);
    SkipAllSpace(a, b);
  }

  lemma InnerInsertSpace(a: string, b: string, c: char)
    requires IsSpace(c) && |SkipSpace(a)| > 0
    ensures ParseSigned(SkipSpace(a + [c] + b)) == ParseSigned(SkipSpace(a + b))
  {
    SkipSpacePrefix(a, [c] + b);
    SkipSpacePrefix(a, b);
    assert a + [c] + b == a + ([c] + b);
    SignedInsertSpace(SkipSpace(a), b, c);
  }

  lemma SignedInsertSpace(t: string, b: string, c: char)
    requires |t| > 0 && IsSpace(c)
    ensures ParseSigned(t + ([c] + b)) == ParseSigned(t + b)
  {
    assert t + ([c] + b) == t + [c] + b;
    if t[0] == '-' {
      assert (t + [c] + b)[1..] == t[1..] + [c] + b;
      assert (t + b)[1..] == t[1..] + b;
      DropSpaceInsert(t[1..], b, c);
    } else {
      DropSpaceInsert(t, b, c);
    }
  }

  lemma {:induction false} SkipAllSpace(a: string, b: string)
    requires forall m :: 0 <= m < |a| ==> IsSpace(a[m])
    ensures SkipSpace(a + b) == SkipSpace(b)
  {
    if |a| > 0 {
      assert (a + b)[1..] == a[1..] + b;
      SkipAllSpace(a[1..], b);
    } else {
      assert a + b == b;
    }
  }

  lemma {:induction false} SkipSpacePrefix(a: string, b: string)
    requires |SkipSpace(a)| > 0
    ensures SkipSpace(a + b) == SkipSpace(a) + b
  {
    if IsSpace(a[0]) {
      assert (a + b)[1..] == a[1..] + b;
      SkipSpacePrefix(a[1..], b);
    }
  }

  lemma {:induction false} DropSpaceConcat(a: string, b: string)
    ensures DropSpace(a + b) == DropSpace(a) + DropSpace(b)
  {
    if |a| == 0 {
      assert a + b == b;
    } else {
      assert (a + b)[1..] == a[1..] + b;
      DropSpaceConcat(a[1..], b);
    }
  }

  lemma DropSpaceInsert(x: string, y: string, c: char)
    requires IsSpace(c)
    ensures DropSpace(x + [c] + y) == DropSpace(x + y)
  {
    DropSpaceConcat(x + [c], y);
    DropSpaceConcat(x, [c]);
    DropSpaceConcat(x, y);
    assert DropSpace([c]) == "";
    assert DropSpace(x) + "" == DropSpace(x);
  }
}
