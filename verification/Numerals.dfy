/** Positional numerals in bases 2 to 36, and what strtol() makes of a decimal one. */
module Numerals {
  import opened CText

  function DigitChar(d: nat, upper: bool): (c: char)
    requires d < 36
    ensures DigitValue(c) == d && !IsSpace(c)
    ensures if d < 10 then IsDigit(c) else if upper then 'A' <= c <= 'Z' else 'a' <= c <= 'z'
  {
    if d < 10 then (d + '0' as int) as char
    else if upper then (d - 10 + 'A' as int) as char
    else (d - 10 + 'a' as int) as char
  }

  /** The value of a digit character of either case, or -1. */
  function DigitValue(c: char): (d: int)
    ensures -1 <= d < 36
  {
    if '0' <= c <= '9' then c as int - '0' as int
    else if 'a' <= c <= 'z' then c as int - 'a' as int + 10
    else if 'A' <= c <= 'Z' then c as int - 'A' as int + 10
    else -1
  }

  ghost predicate AllDigits(s: string, base: nat) {
    forall i :: 0 <= i < |s| ==> 0 <= DigitValue(s[i]) < base
  }

  lemma Division(n: nat, base: nat)
    requires 2 <= base
    ensures 0 <= n / base && 0 <= n % base < base && n == n / base * base + n % base
    ensures n > 0 ==> n / base < n
    ensures n >= base ==> n / base > 0
  {
    var q := n / base;
    assert n == q * base + n % base;
    if n > 0 && q > 0 {
      assert q * base >= q * 2;
    }
  }

  /** The numeral of n, most significant digit first. */
  function Digits(n: nat, base: nat, upper: bool): (r: string)
    requires 2 <= base <= 36
    ensures |r| >= 1 && AllDigits(r, base)
    ensures n > 0 ==> DigitValue(r[0]) != 0
    decreases n
  {
    Division(n, base);
    if n < base then [DigitChar(n, upper)]
    else Digits(n / base, base, upper) + [DigitChar(n % base, upper)]
  }

  lemma LongIsPositive(n: nat, base: nat, upper: bool)
    requires 2 <= base <= 36 && |Digits(n, base, upper)| > 1
    ensures n > 0
  {
  }

  function Decimal(n: nat): (r: string)
    ensures |r| >= 1 && forall i :: 0 <= i < |r| ==> IsDigit(r[i])
  {
    var r := Digits(n, 10, false);
    assert forall i :: 0 <= i < |r| ==> 0 <= DigitValue(r[i]) < 10;
    r
  }

  /** The value of a string of digits. */
  function Value(s: string, base: nat): (r: nat)
    requires AllDigits(s, base)
  {
    if s == [] then 0 else Value(s[..|s| - 1], base) * base + DigitValue(s[|s| - 1])
  }

  lemma ValueMore(s: string, c: char, base: nat)
    requires AllDigits(s, base) && 0 <= DigitValue(c) < base
    ensures AllDigits(s + [c], base) && Value(s + [c], base) == Value(s, base) * base + DigitValue(c)
  {
    assert (s + [c])[..|s|] == s;
  }

  lemma {:induction false} ValueOfDigits(n: nat, base: nat, upper: bool)
    requires 2 <= base <= 36
    ensures Value(Digits(n, base, upper), base) == n
    decreases n
  {
    hide Value;
    Division(n, base);
    if n < base {
      ValueMore("", DigitChar(n, upper), base);
      ValueNone(base);
      assert "" + [DigitChar(n, upper)] == Digits(n, base, upper);
    } else {
      ValueOfDigits(n / base, base, upper);
      ValueMore(Digits(n / base, base, upper), DigitChar(n % base, upper), base);
    }
  }

  lemma ValueNone(base: nat)
    ensures Value("", base) * base == 0
  {
  }

  /** Leading zeros do not count. */
  lemma {:induction false} ValueWithZeros(k: nat, s: string, base: nat)
    requires 2 <= base && AllDigits(s, base)
    ensures AllDigits(Fill('0', k) + s, base)
    ensures Value(Fill('0', k) + s, base) == Value(s, base)
    decreases k + |s|
  {
    var t := Fill('0', k) + s;
    if s != [] {
      assert t[..|t| - 1] == Fill('0', k) + s[..|s| - 1];
      ValueWithZeros(k, s[..|s| - 1], base);
    } else if k > 0 {
      assert t[..|t| - 1] == Fill('0', k - 1) + [];
      ValueWithZeros(k - 1, [], base);
    }
  }

  /** strtol() in base 10 on a 64-bit long: the clamped value and the number of characters used. */
  function StrToLong(s: string): (r: (int, nat))
    ensures r.1 <= |s| && (s != [] && IsDigit(s[0]) ==> r.1 >= 1)
  {
    var sp := SpaceRun(s);
    var signed := sp < |s| && (s[sp] == '-' || s[sp] == '+');
    var at := if signed then sp + 1 else sp;
    var n := DigitRun(s[at..]);
    if n == 0 then (0, 0)
    else
      var ds := s[at..][..n];
      var v: int := Value(ds, 10);
      if signed && s[sp] == '-' then (Max(-v, 0 - TWO64 / 2), at + n)
      else (Min(v, TWO64 / 2 - 1), at + n)
  }

  /** strtol() reads back a decimal numeral that no further digit follows. */
  lemma StrToLongOfDecimal(n: nat, rest: string)
    requires n < TWO64 / 2
    requires rest != [] ==> !IsDigit(rest[0])
    ensures StrToLong(Decimal(n) + rest) == (n, |Decimal(n)|)
  {
    var d := Decimal(n);
    var s := d + rest;
    assert SpaceRun(s) == 0 by { assert s[0] == d[0]; }
    DigitRunIs(s, |d|);
    assert s[0..][..|d|] == d;
    assert s[0..] == s;
    ValueOfDigits(n, 10, false);
  }

  /** A numeral that no long holds gives the largest one. */
  lemma StrToLongClamps(n: nat, rest: string)
    requires n >= TWO64 / 2 && (rest != [] ==> !IsDigit(rest[0]))
    ensures StrToLong(Decimal(n) + rest) == (0x7FFF_FFFF_FFFF_FFFF, |Decimal(n)|)
  {
    hide Value, SpaceRun, DigitRun, Digits;
    var d := Decimal(n);
    var s := d + rest;
    assert s[0] == d[0] && IsDigit(d[0]);
    SpaceRunIs(s, 0);
    DigitRunIs(s, |d|);
    assert s[0..] == s && s[..|d|] == d;
    ValueOfDigits(n, 10, false);
  }

  /** strtoul() in base 10 on a 64-bit unsigned long: a minus sign negates the value in the word. */
  function StrToULong(s: string): (r: int)
    ensures 0 <= r < TWO64
  {
    var sp := SpaceRun(s);
    var signed := sp < |s| && (s[sp] == '-' || s[sp] == '+');
    var at := if signed then sp + 1 else sp;
    var ds := s[at..][..DigitRun(s[at..])];
    var v: int := if ds == "" then 0 else Value(ds, 10);
    if v >= TWO64 then TWO64 - 1
    else if signed && s[sp] == '-' then (TWO64 - v) % TWO64
    else v
  }

  /** %d. */
  function SignedDecimal(n: int): string {
    if n < 0 then "-" + Decimal(-n) else Decimal(n)
  }

  lemma SignedDigits(s: string, d: string, negative: bool)
    requires s == (if negative then "-" + d else d) && d != "" && SpaceRun(s) == 0
    requires DigitRun(d) == |d| && AllDigits(d, 10) && Value(d, 10) < TWO64 && s[0] != '+' && d[0] != '-'
    ensures StrToULong(s) == if negative then (TWO64 - Value(d, 10)) % TWO64 else Value(d, 10)
  {
    hide SpaceRun, DigitRun, Value;
    var at := if negative then 1 else 0;
    assert s[at..] == d && d[..|d|] == d;
  }

  lemma DecimalRun(m: nat)
    ensures var d := Decimal(m); d != "" && IsDigit(d[0]) && DigitRun(d) == |d| && AllDigits(d, 10) && Value(d, 10) == m
  {
    hide Value, Digits;
    var d := Decimal(m);
    DigitRunIs(d, |d|);
    ValueOfDigits(m, 10, false);
  }

  /** strtoul() reads back what %d prints, modulo the word. */
  lemma StrToULongOfDecimal(n: int)
    requires -TWO64 < n < TWO64
    ensures StrToULong(SignedDecimal(n)) == n % TWO64
  {
    hide Value, Digits, DigitRun, Decimal, StrToULong, AllDigits;
    var m := if n < 0 then -n else n;
    var d, s := Decimal(m), SignedDecimal(n);
    DecimalRun(m);
    assert s[0] == if n < 0 then '-' else d[0];
    SignedDigits(s, d, n < 0);
  }

  /** strtol() reads back what %d prints. */
  lemma StrToLongOfSigned(n: int)
    requires -TWO64 / 2 < n < TWO64 / 2
    ensures StrToLong(SignedDecimal(n)) == (n, |SignedDecimal(n)|)
  {
    hide Value, Digits;
    if n >= 0 {
      StrToLongOfDecimal(n, "");
      assert Decimal(n) + "" == SignedDecimal(n);
    } else {
      var d, s := Decimal(-n), SignedDecimal(n);
      assert s[0] == '-' && s[1..] == d && d[..|d|] == d;
      assert SpaceRun(s) == 0;
      DigitRunIs(d, |d|);
      ValueOfDigits(-n, 10, false);
    }
  }
}
