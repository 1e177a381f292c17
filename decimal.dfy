/**
  Decimal text of C++ `int` values: `std::to_string` (rendering) and
  `std::stoi` (parsing, with its two exceptions as error values).
 */
module Decimal {
  import opened Wrappers

  const INT_MIN: int := -0x8000_0000
  const INT_MAX: int := 0x7FFF_FFFF

  /** The values of a 32-bit C++ `int`. */
  type Int32 = x: int | INT_MIN <= x <= INT_MAX

  /** `std::invalid_argument` (no digits) and `std::out_of_range` (does not fit an `int`). */
  datatype StoiError = InvalidArgument | OutOfRange

  predicate IsDigit(c: char) { '0' <= c <= '9' }

  predicate AllDigits(s: string) { forall k :: 0 <= k < |s| ==> IsDigit(s[k]) }

  /** The characters `isspace` accepts in the "C" locale. */
  predicate IsSpace(c: char) {
    c == ' ' || c == '\t' || c == '\n' || c == '\r' || c as int == 11 || c as int == 12
  }

  function DigitChar(d: nat): (c: char)
    requires d < 10
    ensures IsDigit(c) && DigitValue(c) == d
  {
    ('0' as int + d) as char
  }

  function DigitValue(c: char): (d: nat)
    requires IsDigit(c)
    ensures d < 10
  {
    c as int - '0' as int
  }

  /** `std::to_string` of a non-negative value: its decimal digits, most significant first. */
  function DigitsOf(n: nat): (s: string)
    ensures |s| >= 1 && AllDigits(s)
    ensures s[0] == '0' <==> n == 0
    ensures |s| == 1 <==> n < 10
    decreases n
  {
    if n < 10 then [DigitChar(n)] else DigitsOf(n / 10) + [DigitChar(n % 10)]
  }

  /** `std::to_string` of an `int`: a minus sign for negative values, then the digits of the magnitude. */
  function IntToString(i: int): (s: string)
    ensures |s| >= 1 && IsDigit(s[|s| - 1])
    ensures s[0] == '-' <==> i < 0
    ensures i >= 0 ==> AllDigits(s)
    ensures forall k :: 0 <= k < |s| ==> IsDigit(s[k]) || (k == 0 && s[k] == '-')
  {
    if i < 0 then "-" + DigitsOf(-i) else DigitsOf(i)
  }

  /** The value of a string of decimal digits read most significant first (leading zeros allowed). */
  function DigitsValue(s: string): nat
    requires AllDigits(s)
    decreases |s|
  {
    if s == [] then 0 else DigitsValue(s[..|s| - 1]) * 10 + DigitValue(s[|s| - 1])
  }

  /** Leading white space skipped by `strtol`. */
  function SkipSpace(s: string): (t: string)
    ensures |t| <= |s| && t == s[|s| - |t|..]
    ensures t != [] ==> !IsSpace(t[0])
    decreases |s|
  {
    if s != [] && IsSpace(s[0]) then SkipSpace(s[1..]) else s
  }

  /** The length of the longest prefix of `s` made only of digits. */
  function DigitRun(s: string): (n: nat)
    ensures n <= |s| && AllDigits(s[..n])
    ensures n < |s| ==> !IsDigit(s[n])
    decreases |s|
  {
    if s != [] && IsDigit(s[0]) then
      var m := DigitRun(s[1..]);
      assert s[..m + 1] == [s[0]] + s[1..][..m];
      1 + m
    else 0
  }

  /**
    `std::stoi(s)`, base 10: after optional white space and one optional sign,
    the longest run of digits is read and anything after it is ignored. Blank text, or text
    that starts with neither a sign nor a digit, is `std::invalid_argument`.
   */
  function Stoi(s: string): (r: Result<Int32, StoiError>)
    ensures SkipSpace(s) == [] ==> r == Err(InvalidArgument)
    ensures s != [] && !IsSpace(s[0]) && !IsDigit(s[0]) && s[0] != '-' && s[0] != '+' ==>
              r == Err(InvalidArgument)
  {
    var t := SkipSpace(s);
    if t != [] && t[0] == '-' then StoiDigits(t[1..], true)
    else if t != [] && t[0] == '+' then StoiDigits(t[1..], false)
    else StoiDigits(t, false)
  }

  /** The digit part of `Stoi`, once the sign has been read. */
  function StoiDigits(u: string, negative: bool): Result<Int32, StoiError>
  {
    var n := DigitRun(u);
    if n == 0 then Err(InvalidArgument)
    else
      var magnitude: int := DigitsValue(u[..n]);
      var v := if negative then -magnitude else magnitude;
      if INT_MIN <= v <= INT_MAX then Ok(v) else Err(OutOfRange)
  }

  lemma {:induction false} DigitsValueOf(n: nat)
    ensures DigitsValue(DigitsOf(n)) == n
    decreases n
  {
    var s := DigitsOf(n);
    if n >= 10 {
      DigitsValueOf(n / 10);
      assert s[..|s| - 1] == DigitsOf(n / 10);
    } else {
      assert s[..|s| - 1] == [];
    }
  }

  lemma {:induction false} DigitRunAll(s: string)
    requires AllDigits(s)
    ensures DigitRun(s) == |s|
    decreases |s|
  {
    if s != [] {
      DigitRunAll(s[1..]);
    }
  }

  /** A canonical digit string (no leading zero unless it is "0") is `DigitsOf` its value. */
  lemma {:induction false} DigitsOfValue(s: string)
    requires s != [] && AllDigits(s) && (|s| == 1 || s[0] != '0')
    ensures DigitsOf(DigitsValue(s)) == s
    decreases |s|
  {
    if |s| > 1 {
      var p := s[..|s| - 1];
      DigitsValuePositive(p);
      DigitsOfValue(p);
      assert s == p + [s[|s| - 1]];
    }
  }

  lemma {:induction false} DigitsValuePositive(s: string)
    requires s != [] && AllDigits(s) && s[0] != '0'
    ensures DigitsValue(s) >= 1
    decreases |s|
  {
    if |s| > 1 {
      DigitsValuePositive(s[..|s| - 1]);
    }
  }

  /**
    Text that starts with a digit reads as the value of its leading digits, whatever follows
    them, or is `std::out_of_range` when that value exceeds `INT_MAX`.
   */
  lemma StoiLeadingDigits(s: string)
    requires s != [] && IsDigit(s[0])
    ensures var v := DigitsValue(s[..DigitRun(s)]);
      && (Stoi(s).Ok? <==> v <= INT_MAX)
      && (Stoi(s).Ok? ==> Stoi(s).value == v)
      && (Stoi(s).Err? ==> Stoi(s).error == OutOfRange)
  {
    assert SkipSpace(s) == s;
  }

  /** `std::stoi` reads back every value `std::to_string` renders. */
  lemma StoiDigitsOf(m: nat, negative: bool)
    requires INT_MIN <= (if negative then -(m as int) else m) <= INT_MAX
    ensures StoiDigits(DigitsOf(m), negative) == Ok(if negative then -(m as int) else m)
  {
    var d := DigitsOf(m);
    DigitRunAll(d);
    DigitsValueOf(m);
    assert d[..|d|] == d;
  }

  /** `std::stoi` reads back every value `std::to_string` renders. */
  lemma StoiIntToString(i: Int32)
    ensures Stoi(IntToString(i)) == Ok(i)
  {
    var s := IntToString(i);
    assert SkipSpace(s) == s;
    if i < 0 {
      assert s[1..] == DigitsOf(-(i as int));
      StoiDigitsOf(-(i as int), true);
    } else {
      StoiDigitsOf(i, false);
    }
  }
}
