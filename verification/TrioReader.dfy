/** TrioReadNumber, and what it makes of the text that TrioWriteNumber prints. */
module TrioReader {
  import opened Arith
  import opened CText
  import opened Numerals
  import opened TrioNumber

  /** isascii(c), and c is a digit of the base. */
  predicate IsDigitOf(c: char, b: base) {
    c < 128 as char && 0 <= DigitValue(c) < b
  }

  /** The length of the longest prefix of digits, at most `limit` long unless that is negative. */
  function DigitPrefix(s: string, b: base, limit: int): (r: nat)
    ensures r <= |s| && (r < |s| && r != limit ==> !IsDigitOf(s[r], b))
    ensures limit >= 0 ==> r <= limit
    ensures forall i :: 0 <= i < r ==> IsDigitOf(s[i], b)
  {
    if s == [] || limit == 0 || !IsDigitOf(s[0], b) then 0 else 1 + DigitPrefix(s[1..], b, limit - 1)
  }

  lemma {:induction false} DigitPrefixIs(s: string, b: base, limit: int, k: nat)
    requires k <= |s| && limit < 0
    requires forall i :: 0 <= i < k ==> IsDigitOf(s[i], b)
    requires k < |s| ==> !IsDigitOf(s[k], b)
    ensures DigitPrefix(s, b, limit) == k
  {
    if k > 0 {
      assert forall i :: 0 <= i < k - 1 ==> IsDigitOf(s[1..][i], b);
      DigitPrefixIs(s[1..], b, limit - 1, k - 1);
    }
  }

  datatype Reading = NoNumber | Number(value: uint64, next: nat)

  /** The characters of the alternative prefix at the start of s, or -1 when the 0 is missing. */
  function PrefixLength(s: string, f: Flags, b: base): (r: int)
    ensures -1 <= r <= |s|
  {
    if !f.alternative || b !in {2, 8, 16} then 0
    else if s == [] || s[0] != '0' then -1
    else if |s| > 1 && ((b == 16 && ToUpper(s[1]) == 'X') || (b == 2 && ToUpper(s[1]) == 'B')) then 2
    else 1
  }

  /** The number in s, whose first character is the stream's current one. */
  function ReadText(s: string, f: Flags, width: nat, b: base): (r: Reading)
    ensures r.Number? ==> r.next <= |s|
  {
    var sp := SpaceRun(s);
    var signed := !f.unsigned && sp < |s| && (s[sp] == '+' || s[sp] == '-');
    var at := if signed then sp + 1 else sp;
    var prefix := PrefixLength(s[at..], f, b);
    if prefix < 0 then NoNumber
    else
      var limit := if width == NO_WIDTH then -1 else Max(0, width - prefix);
      var n := DigitPrefix(s[at + prefix..], b, limit);
      if prefix + n == 0 then NoNumber
      else
        var v := Value(s[at + prefix..][..n], b) % TWO64;
        Number(if signed && s[sp] == '-' then (TWO64 - v) % TWO64 else v, at + prefix + n)
  }

  /** The parts of a reading: where the prefix starts, and the digits after it. */
  lemma ReadingParts(s: string, f: Flags, width: nat, b: base, sp: nat, at: nat, prefix: nat, n: nat)
    requires sp == SpaceRun(s) && at == if !f.unsigned && sp < |s| && (s[sp] == '+' || s[sp] == '-') then sp + 1 else sp
    requires PrefixLength(s[at..], f, b) == prefix
    requires n == DigitPrefix(s[at + prefix..], b, if width == NO_WIDTH then -1 else Max(0, width - prefix))
    ensures ReadText(s, f, width, b)
            == if prefix + n == 0 then NoNumber
               else var v := Value(s[at + prefix..][..n], b) % TWO64;
                    Number(if at > sp && s[sp] == '-' then (TWO64 - v) % TWO64 else v, at + prefix + n)
  {
    hide SpaceRun, PrefixLength, DigitPrefix, Value;
  }

  lemma NoPrefix(s: string, f: Flags, width: nat, b: base, sp: nat, at: nat)
    requires sp == SpaceRun(s) && at == if !f.unsigned && sp < |s| && (s[sp] == '+' || s[sp] == '-') then sp + 1 else sp
    requires PrefixLength(s[at..], f, b) < 0
    ensures ReadText(s, f, width, b) == NoNumber
  {
    hide SpaceRun, PrefixLength, DigitPrefix, Value;
  }

  /** number *= base; number += digit; on 64 bits. */
  function Accumulate(number: uint64, b: base, digit: nat): uint64 {
    (number * b + digit) % TWO64
  }

  lemma ValueOfNothing(b: base)
    ensures Value("", b) == 0
  {
  }

  /** Wrapping at every digit gives the value wrapped once. */
  lemma AccumulateNext(s: string, b: base, number: uint64)
    requires s != [] && AllDigits(s, b)
    requires number == Value(s[..|s| - 1], b) % TWO64
    ensures Accumulate(number, b, DigitValue(s[|s| - 1])) == Value(s, b) % TWO64
  {
    WrapStep(Value(s[..|s| - 1], b), number, b, DigitValue(s[|s| - 1]));
  }

  /** One digit of the loop. */
  lemma DigitMore(rest: string, n: nat, b: base, limit: int, number: uint64)
    requires n < |rest| && limit != n && IsDigitOf(rest[n], b)
    requires AllDigits(rest[..n], b) && number == Value(rest[..n], b) % TWO64
    ensures AllDigits(rest[..n + 1], b)
    ensures Accumulate(number, b, DigitValue(rest[n])) == Value(rest[..n + 1], b) % TWO64
    ensures DigitPrefix(rest[n..], b, limit - n) == 1 + DigitPrefix(rest[n + 1..], b, limit - (n + 1))
  {
    assert rest[n..][1..] == rest[n + 1..];
    assert rest[..n + 1][..n] == rest[..n];
    AccumulateNext(rest[..n + 1], b, number);
  }

  lemma NoDigitMore(rest: string, n: nat, b: base, limit: int)
    requires n <= |rest|
    requires n == |rest| || n == limit || IsSpace(rest[n]) || !IsDigitOf(rest[n], b)
    ensures DigitPrefix(rest[n..], b, limit - n) == 0
  {
  }

  lemma WrapStep(v: nat, number: nat, b: nat, d: nat)
    requires number == v % TWO64
    ensures (number * b + d) % TWO64 == (v * b + d) % TWO64
  {
    var q := v / TWO64;
    var x := number * b + d;
    var r := x % TWO64;
    assert (TWO64 * q + number) * b == TWO64 * (q * b) + number * b;
    assert v * b + d == TWO64 * (x / TWO64 + q * b) + r;
    DivModUnique(v * b + d, TWO64, x / TWO64 + q * b, r);
  }

  /** trio_T as a scanned string: `location` is the position of `current`. */
  class ScanStream {
    const text: string
    var location: nat
    var processed: int

    ghost predicate Valid()
      reads this
    {
      location <= |text|
    }

    constructor (source: string)
      ensures Valid() && text == source && location == 0
    {
      text, location, processed := source, 0, 1;
    }

    predicate AtEnd()
      reads this
      requires Valid()
    {
      location == |text|
    }

    /** self->current. */
    function Current(): (c: char)
      reads this
      requires Valid() && !AtEnd()
    {
      text[location]
    }

    method InStream()
      requires Valid() && !AtEnd()
      modifies this
      ensures Valid() && location == old(location) + 1 && processed == old(processed) + 1
    {
      location := location + 1;
      processed := processed + 1;
    }

    method SkipWhitespaces()
      requires Valid()
      modifies this
      ensures Valid() && location == old(location) + SpaceRun(text[old(location)..])
    {
      while !AtEnd() && IsSpace(Current())
        invariant Valid() && old(location) <= location
        invariant SpaceRun(text[old(location)..]) == location - old(location) + SpaceRun(text[location..])
        decreases |text| - location
      {
        assert text[location..][1..] == text[location + 1..];
        InStream();
      }
    }

    /** An optional sign, unless the number is unsigned. */
    method SkipSign(f: Flags) returns (isNegative: bool)
      requires Valid()
      modifies this
      ensures Valid()
      ensures var rest := text[old(location)..];
              && location == old(location) + (if !f.unsigned && rest != [] && rest[0] in {'+', '-'} then 1 else 0)
              && (isNegative <==> !f.unsigned && rest != [] && rest[0] == '-')
    {
      isNegative := false;
      if !f.unsigned && !AtEnd() {
        if Current() == '+' {
          InStream();
        } else if Current() == '-' {
          InStream();
          isNegative := true;
        }
      }
    }

    /** The alternative prefix; false when its 0 is missing. */
    method SkipPrefix(f: Flags, b: base) returns (found: bool)
      requires Valid()
      modifies this
      ensures Valid() && location - old(location) == processed - old(processed)
      ensures found <==> PrefixLength(text[old(location)..], f, b) >= 0
      ensures found ==> location == old(location) + PrefixLength(text[old(location)..], f, b)
    {
      found := true;
      if f.alternative && b in {2, 8, 16} {
        if AtEnd() || Current() != '0' {
          return false;
        }
        InStream();
        if !AtEnd() {
          if b == 16 && ToUpper(Current()) == 'X' {
            InStream();
          } else if b == 2 && ToUpper(Current()) == 'B' {
            InStream();
          }
        }
      }
    }

    /** Spaces, sign and prefix; `at` is the place of the prefix in what was left of the text. */
    method SkipHead(f: Flags, b: base) returns (isNegative: bool, found: bool, count: int, ghost at: nat)
      requires Valid()
      modifies this
      ensures Valid() && location - old(location) - at == processed - count && old(location) + at <= |text|
      ensures var s := text[old(location)..];
              var sp := SpaceRun(s);
              var signed := !f.unsigned && sp < |s| && (s[sp] == '+' || s[sp] == '-');
              && at == (if signed then sp + 1 else sp) <= |s| && (isNegative <==> signed && s[sp] == '-')
              && (found <==> PrefixLength(s[at..], f, b) >= 0)
              && (found ==> location == old(location) + at + PrefixLength(s[at..], f, b))
    {
      hide SpaceRun, PrefixLength;
      ghost var s := text[location..];
      SkipWhitespaces();
      assert text[location..] == s[SpaceRun(s)..];
      isNegative := SkipSign(f);
      count := processed;
      at := location - old(location);
      assert text[location..] == s[at..];
      found := SkipPrefix(f, b);
    }

    /** TrioReadNumber. */
    method ReadNumber(f: Flags, width: nat, b: base) returns (r: Reading)
      requires Valid()
      modifies this
      ensures Valid() && r.Number? == ReadText(text[old(location)..], f, width, b).Number?
      ensures r.Number? ==> r.value == ReadText(text[old(location)..], f, width, b).value
                            && location == r.next
                            && r.next == old(location) + ReadText(text[old(location)..], f, width, b).next
    {
      hide SpaceRun, PrefixLength, DigitPrefix, Value, ReadText;
      ghost var s := text[location..];
      var isNegative, found, count;
      ghost var at;
      isNegative, found, count, at := SkipHead(f, b);
      if !found {
        NoPrefix(s, f, width, b, SpaceRun(s), at);
        return NoNumber;
      }
      assert text[location..] == s[at + PrefixLength(s[at..], f, b)..];
      ghost var rest := text[location..];
      ghost var prefix := PrefixLength(s[at..], f, b);
      var number := ReadDigits(width, count, b);
      ghost var n := location - old(location) - at - prefix;
      ReadingParts(s, f, width, b, SpaceRun(s), at, prefix, n);
      if processed == count {
        return NoNumber;
      }
      r := Number(if isNegative then (TWO64 - number) % TWO64 else number, location);
    }

    /** The digit loop; number wraps at 64 bits. */
    method ReadDigits(width: nat, count: int, b: base) returns (number: uint64)
      requires Valid() && processed >= count
      modifies this
      ensures Valid() && location - old(location) == processed - old(processed)
      ensures var rest := text[old(location)..];
              var limit := if width == NO_WIDTH then -1 else Max(0, width - (old(processed) - count));
              var n := DigitPrefix(rest, b, limit);
              location == old(location) + n && number == Value(rest[..n], b) % TWO64
    {
      hide Value, Accumulate, IsDigitOf, DigitPrefix;
      number := 0;
      ValueOfNothing(b);
      ghost var rest := text[location..];
      ghost var limit := if width == NO_WIDTH then -1 else Max(0, width - (processed - count));
      ghost var n := 0;
      while (width == NO_WIDTH || processed - count < width) && !AtEnd() && !IsSpace(Current())
            && IsDigitOf(Current(), b)
        invariant Valid() && n == location - old(location) == processed - old(processed)
        invariant limit >= 0 ==> n <= limit
        invariant AllDigits(rest[..n], b) && number == Value(rest[..n], b) % TWO64
        invariant DigitPrefix(rest, b, limit) == n + DigitPrefix(rest[n..], b, limit - n)
        decreases |text| - location
      {
        DigitMore(rest, n, b, limit, number);
        number := Accumulate(number, b, DigitValue(Current()));
        InStream();
        n := n + 1;
      }
      NoDigitMore(rest, n, b, limit);
    }
  }
}
