/** TrioReadNumber against TrioWriteNumber: exactly which numbers read back as they were printed. */
module TrioRoundTrip {
  import opened Arith
  import opened CText
  import opened Numerals
  import opened TrioNumber
  import opened TrioGrouping
  import opened TrioReader
  import opened TrioWriter

  /** The value a reading of this magnitude and sign stores. */
  function Signed(negative: bool, magnitude: uint64): uint64 {
    if negative then (TWO64 - magnitude) % TWO64 else magnitude
  }

  ghost predicate AllSpace(s: string) {
    forall i :: 0 <= i < |s| ==> IsSpace(s[i])
  }

  lemma {:induction false} DigitsAreDigits(s: string, b: base)
    requires AllDigits(s, b)
    ensures forall i :: 0 <= i < |s| ==> IsDigitOf(s[i], b) && !IsSpace(s[i])
  {
    forall i | 0 <= i < |s| ensures IsDigitOf(s[i], b) && !IsSpace(s[i]) {
      assert 0 <= DigitValue(s[i]) < b;
    }
  }

  /** Text after which no digit of the number can be read any more. */
  predicate Stops(s: string, b: base) {
    s == [] || !IsDigitOf(s[0], b)
  }

  /** The parts that ReadText finds determine what it returns. */
  lemma ReadParts(s: string, f: Flags, b: base, sp: nat, at: nat, prefix: nat, ds: string)
    requires SpaceRun(s) == sp && sp <= at <= |s| && AllDigits(ds, b) && ds != []
    requires at == if !f.unsigned && sp < |s| && s[sp] in {'+', '-'} then sp + 1 else sp
    requires PrefixLength(s[at..], f, b) == prefix
    requires at + prefix + |ds| <= |s| && s[at + prefix..][..|ds|] == ds
    requires DigitPrefix(s[at + prefix..], b, -1) == |ds|
    ensures ReadText(s, f, 0, b) == Number(Signed(at > sp && s[sp] == '-', Value(ds, b) % TWO64), at + prefix + |ds|)
  {
    hide SpaceRun, PrefixLength, DigitPrefix, Value, AllDigits, ReadText;
    ReadingParts(s, f, 0, b, sp, at, prefix, |ds|);
  }

  /** Reading a field: spaces, sign, prefix, digits, and whatever stops the digits. */
  lemma ReadField(lead: string, sign: string, prefix: string, ds: string, rest: string,
                  f: Flags, b: base, negative: bool)
    requires AllSpace(lead) && sign == SignText(negative, f) && prefix == PrefixText(b, f)
    requires AllDigits(ds, b) && ds != [] && Stops(rest, b)
    requires f.unsigned ==> sign in {"", " "}
    ensures ReadText(lead + sign + prefix + ds + rest, f, 0, b)
              == Number(Signed(negative, Value(ds, b) % TWO64),
                        |lead| + |sign| + |prefix| + |ds|)
  {
    FieldTails(lead, sign, prefix, ds, rest);
    ReadPieces(lead + sign + prefix + ds + rest, lead, sign, prefix, ds, rest, prefix + ds + rest, f, b, negative);
  }

  lemma ReadPieces(s: string, lead: string, sign: string, prefix: string, ds: string, rest: string, tail: string,
                   f: Flags, b: base, negative: bool)
    requires AllSpace(lead) && sign == SignText(negative, f) && prefix == PrefixText(b, f)
    requires AllDigits(ds, b) && ds != [] && Stops(rest, b) && (f.unsigned ==> sign in {"", " "})
    requires s == lead + sign + tail && tail == prefix + ds + rest && tail != [] && tail[0] == (prefix + ds)[0]
    requires var at := |lead| + |sign|;
             at + |prefix| + |ds| <= |s| && s[at..] == tail && s[at + |prefix|..] == ds + rest
    ensures ReadText(s, f, 0, b)
            == Number(Signed(negative, Value(ds, b) % TWO64), |lead| + |sign| + |prefix| + |ds|)
  {
    hide *;
    var sp := if sign == " " then |lead| + 1 else |lead|;
    FirstIsNoSpace(prefix, ds, b, f);
    SignIsRead(s, lead, sign, tail, f, negative);
    PrefixIsRead(s[|lead| + |sign|..], prefix, ds, rest, f, b);
    DigitsAreRead(s[|lead| + |sign| + |prefix|..], ds, rest, b);
    ReadParts(s, f, b, sp, |lead| + |sign|, |prefix|, ds);
  }

  lemma FieldTails(lead: string, sign: string, prefix: string, ds: string, rest: string)
    ensures var s, at := lead + sign + prefix + ds + rest, |lead| + |sign|;
            && s == lead + sign + (prefix + ds + rest) && s[at..] == prefix + ds + rest
            && s[at + |prefix|..] == ds + rest
    ensures ds != [] ==> (prefix + ds + rest)[0] == (prefix + ds)[0]
  {
  }

  lemma DigitsAreRead(t: string, ds: string, rest: string, b: base)
    requires t == ds + rest && AllDigits(ds, b) && Stops(rest, b)
    ensures DigitPrefix(t, b, -1) == |ds| && t[..|ds|] == ds
  {
    DigitsAreDigits(ds, b);
    DigitPrefixIs(t, b, -1, |ds|);
  }

  lemma SignIsRead(s: string, lead: string, sign: string, tail: string, f: Flags, negative: bool)
    requires AllSpace(lead) && sign == SignText(negative, f) && (f.unsigned ==> sign in {"", " "})
    requires s == lead + sign + tail && tail != [] && !IsSpace(tail[0]) && tail[0] !in {'+', '-'}
    ensures var sp := if sign == " " then |lead| + 1 else |lead|;
            && SpaceRun(s) == sp && sp < |s|
            && |lead| + |sign| == (if !f.unsigned && s[sp] in {'+', '-'} then sp + 1 else sp)
            && (|lead| + |sign| > sp && s[sp] == '-' <==> negative)
  {
    var sp := if sign == " " then |lead| + 1 else |lead|;
    assert s[|lead| + |sign|] == tail[0];
    assert sign != [] ==> s[|lead|] == sign[0];
    SpaceRunIs(s, sp);
  }

  lemma FirstIsNoSpace(prefix: string, ds: string, b: base, f: Flags)
    requires AllDigits(ds, b) && ds != [] && prefix == PrefixText(b, f)
    ensures !IsSpace((prefix + ds)[0]) && (prefix + ds)[0] !in {'+', '-'}
  {
    DigitsAreDigits(ds, b);
    assert 0 <= DigitValue(ds[0]);
  }

  lemma PrefixIsRead(t: string, prefix: string, ds: string, rest: string, f: Flags, b: base)
    requires t == prefix + ds + rest && prefix == PrefixText(b, f) && ds != []
    ensures PrefixLength(t, f, b) == |prefix|
  {
    if prefix != [] {
      assert t[0] == prefix[0];
      if |prefix| == 2 {
        assert t[1] == prefix[1];
      }
    }
  }

  predicate Fits(number: uint64, f: Flags) {
    f.quad || f.long || (if IsNegative(number, f) then TWO64 - number else number) < TWO32
  }

  /** No separator falls inside the number. */
  predicate OneGroup(number: uint64, f: Flags, b: base, loc: Locale)
    requires loc.Valid()
  {
    || !f.quote || loc.grouping[0] == NO_GROUPING
    || |Digits(Magnitude(number, f), b, f.upper)| <= loc.grouping[0]
  }

  /** The printed text reads back as the number exactly when a sign the reader does not take is
      absent, the size given holds the number, and no separator is put inside it. */
  lemma WriteThenRead(number: uint64, f: Flags, width: int, precision: int, b: base, loc: Locale)
    requires loc.Valid() && loc.separator != [] && DigitValue(loc.separator[0]) == -1
    ensures var r := ReadText(NumberText(number, f, width, precision, b, loc), f, 0, b);
            (r.Number? && r.value == number)
            <==> (!(f.unsigned && f.showSign) && Fits(number, f) && OneGroup(number, f, b, loc))
  {
    if f.unsigned && f.showSign {
      PlusIsNotRead(number, f, width, precision, b, loc);
    } else if OneGroup(number, f, b, loc) {
      WholeIsRead(number, f, width, precision, b, loc);
    } else {
      var _ := FirstGroupIsRead(number, f, width, precision, b, loc);
    }
  }

  lemma WholeIsRead(number: uint64, f: Flags, width: int, precision: int, b: base, loc: Locale)
    requires loc.Valid() && !(f.unsigned && f.showSign) && OneGroup(number, f, b, loc)
    ensures var r := ReadText(NumberText(number, f, width, precision, b, loc), f, 0, b);
            r.Number? && (r.value == number <==> Fits(number, f))
  {
    hide Digits, ReadText, Value, Numeral, NumberText;
    var m := Magnitude(number, f);
    var ds := Digits(m, b, f.upper);
    WholeNumeral(number, f, b, loc);
    SignIsMatched(number, f);
    var lead, zeros, trail := TextParts(number, f, width, precision, b, loc);
    ReadField(lead, SignText(IsNegative(number, f), f), PrefixText(b, f), Fill('0', zeros) + ds, trail,
              f, b, IsNegative(number, f)) by {
      ValueWithZeros(zeros, ds, b);
      SpacesStop(trail, b);
    }
    assert Value(Fill('0', zeros) + ds, b) == m by {
      ValueWithZeros(zeros, ds, b);
      ValueOfDigits(m, b, f.upper);
    }
  }

  lemma WholeNumeral(number: uint64, f: Flags, b: base, loc: Locale)
    requires loc.Valid() && OneGroup(number, f, b, loc)
    ensures Numeral(Magnitude(number, f), b, f, loc) == Digits(Magnitude(number, f), b, f.upper)
  {
    hide Digits, Separated;
    var ds := Digits(Magnitude(number, f), b, f.upper);
    if !f.quote || loc.grouping[0] == NO_GROUPING {
      NotSeparated(ds, f.quote, loc, 1, loc.grouping[0], 1);
    } else {
      OneBlock(ds, loc, 1, loc.grouping[0], 1, loc.grouping[0]);
    }
  }

  /** Sign and magnitude give the number back when its size holds it. */
  lemma SignIsMatched(number: uint64, f: Flags)
    ensures Signed(IsNegative(number, f), Magnitude(number, f)) == number <==> Fits(number, f)
    ensures Magnitude(number, f) % TWO64 == Magnitude(number, f)
  {
  }

  lemma SpacesStop(s: string, b: base)
    requires AllSpace(s)
    ensures Stops(s, b)
  {
  }

  /** The field as lead, sign, prefix, zeros, numeral and trail. */
  lemma TextParts(number: uint64, f: Flags, width: int, precision: int, b: base, loc: Locale)
    returns (lead: string, zeros: nat, trail: string)
    requires loc.Valid()
    ensures AllSpace(lead) && AllSpace(trail)
    ensures NumberText(number, f, width, precision, b, loc)
              == lead + SignText(IsNegative(number, f), f) + PrefixText(b, f)
                 + (Fill('0', zeros) + Numeral(Magnitude(number, f), b, f, loc)) + trail
  {
    hide Numeral;
    var digits := Numeral(Magnitude(number, f), b, f, loc);
    var sign, prefix := SignText(IsNegative(number, f), f), PrefixText(b, f);
    var room := width - |sign + prefix| - |digits|;
    zeros := ZeroCount(f, room, precision, |digits|);
    lead := if f.leftAdjust then "" else Fill(' ', room - zeros);
    trail := if f.leftAdjust then Fill(' ', room - zeros) else "";
    FieldParts(f, sign, prefix, room, zeros, digits, lead, trail);
    assert lead + sign + prefix + Fill('0', zeros) + digits
        == lead + sign + prefix + (Fill('0', zeros) + digits);
  }

  /** A plus sign on an unsigned number is not taken, so nothing is read. */
  lemma PlusIsNotRead(number: uint64, f: Flags, width: int, precision: int, b: base, loc: Locale)
    requires loc.Valid() && f.unsigned && f.showSign
    ensures ReadText(NumberText(number, f, width, precision, b, loc), f, 0, b) == NoNumber
  {
    hide Numeral, NumberText;
    var lead, zeros, trail := TextParts(number, f, width, precision, b, loc);
    var s := NumberText(number, f, width, precision, b, loc);
    assert s[|lead|] == '+';
    SpaceRunIs(s, |lead|);
  }

  /** A separated numeral starts with a proper part of the digits and a separator. */
  lemma {:induction false} FirstSeparator(ds: string, quote: bool, loc: Locale, i: nat, size: int, index: nat)
    returns (k: nat)
    requires ds != [] && loc.Valid() && size > 0 && loc.separator != []
    requires |Separated(ds, quote, loc, i, size, index)| > |ds|
    ensures 0 < k < |ds|
    ensures var t := Separated(ds, quote, loc, i, size, index);
            t[..k] == ds[..k] && t[k] == loc.separator[0]
    decreases |ds|
  {
    var t := Separated(ds, quote, loc, i, size, index);
    var init := ds[..|ds| - 1];
    var sep := SeparatorAfter(i, size, quote);
    var (size', index') := if sep then NextGroup(size, index, loc) else (size, index);
    var inner := Separated(init, quote, loc, i + 1, size', index');
    if |inner| > |init| {
      k := FirstSeparator(init, quote, loc, i + 1, size', index');
      assert t[..k] == inner[..k] && init[..k] == ds[..k];
    } else {
      k := |init|;
      PlainWhenShort(init, quote, loc, i + 1, size', index');
      assert t[..k] == inner;
    }
  }

  lemma {:induction false} PlainWhenShort(ds: string, quote: bool, loc: Locale, i: nat, size: int, index: nat)
    requires ds != [] && loc.Valid() && size > 0
    requires loc.separator != [] && |Separated(ds, quote, loc, i, size, index)| == |ds|
    ensures Separated(ds, quote, loc, i, size, index) == ds
    decreases |ds|
  {
    if |ds| > 1 && !SeparatorAfter(i, size, quote) {
      PlainWhenShort(ds[..|ds| - 1], quote, loc, i + 1, size, index);
    }
  }

  lemma {:induction false} PrefixIsLess(ds: string, k: nat, b: base)
    requires AllDigits(ds, b) && 0 < k < |ds| && DigitValue(ds[0]) > 0
    ensures 0 < Value(ds[..k], b) < Value(ds, b)
    decreases |ds|
  {
    var init := ds[..|ds| - 1];
    PositiveValue(init, b);
    MulMono(Value(init, b), 2, b);
    if k < |init| {
      assert init[..k] == ds[..k];
      PrefixIsLess(init, k, b);
    } else {
      assert ds[..k] == init;
    }
  }

  lemma {:induction false} PositiveValue(ds: string, b: base)
    requires AllDigits(ds, b) && ds != [] && DigitValue(ds[0]) > 0
    ensures Value(ds, b) > 0
    decreases |ds|
  {
    if |ds| > 1 {
      PositiveValue(ds[..|ds| - 1], b);
      MulAtLeast(Value(ds[..|ds| - 1], b), b);
    }
  }

  /** With separators only the digits before the first one are read, and they are worth less than the
      number. */
  lemma FirstGroupIsRead(number: uint64, f: Flags, width: int, precision: int, b: base, loc: Locale)
    returns (k: nat)
    requires loc.Valid() && loc.separator != [] && DigitValue(loc.separator[0]) == -1
    requires !(f.unsigned && f.showSign) && !OneGroup(number, f, b, loc)
    ensures var m := Magnitude(number, f);
            var ds, numeral := Digits(m, b, f.upper), Numeral(m, b, f, loc);
            var r := ReadText(NumberText(number, f, width, precision, b, loc), f, 0, b);
            && 0 < k < |ds| && k < |numeral| && numeral[..k] == ds[..k] && numeral[k] == loc.separator[0]
            && Value(ds[..k], b) < m
            && r.Number? && r.value == Signed(IsNegative(number, f), Value(ds[..k], b)) && r.value != number
  {
    hide Digits, ReadText, Value, Separated, NumberText;
    var m := Magnitude(number, f);
    var ds := Digits(m, b, f.upper);
    k := FirstGroup(m, f, b, loc);
    var numeral := Numeral(m, b, f, loc);
    var lead, zeros, trail := TextParts(number, f, width, precision, b, loc);
    var sign, prefix := SignText(IsNegative(number, f), f), PrefixText(b, f);
    var shown := Fill('0', zeros) + ds[..k];
    var rest := numeral[k..] + trail;
    Regroup(lead + sign + prefix, Fill('0', zeros), numeral, trail, k);
    assert AllDigits(shown, b) && Value(shown, b) == Value(ds[..k], b) by {
      ValueWithZeros(zeros, ds[..k], b);
    }
    ReadField(lead, sign, prefix, shown, rest, f, b, IsNegative(number, f));
    ValueOfDigits(m, b, f.upper);
  }

  lemma Regroup(head: string, zeros: string, numeral: string, trail: string, k: nat)
    requires k <= |numeral|
    ensures head + (zeros + numeral) + trail == head + (zeros + numeral[..k]) + (numeral[k..] + trail)
  {
    assert numeral == numeral[..k] + numeral[k..];
  }

  /** The digits in front of the first separator. */
  lemma FirstGroup(m: uint64, f: Flags, b: base, loc: Locale) returns (k: nat)
    requires loc.Valid() && loc.separator != [] && DigitValue(loc.separator[0]) == -1
    requires f.quote && loc.grouping[0] != NO_GROUPING && |Digits(m, b, f.upper)| > loc.grouping[0]
    ensures var ds, numeral := Digits(m, b, f.upper), Numeral(m, b, f, loc);
            && 0 < k < |ds| && k < |numeral| && numeral[..k] == ds[..k] && numeral[k] == loc.separator[0]
            && Stops(numeral[k..], b)
            && Value(ds[..k], b) < Value(ds, b)
  {
    hide Digits, Value, Separated, Grouped;
    var ds := Digits(m, b, f.upper);
    LongIsPositive(m, b, f.upper);
    k := FirstOfBlocks(ds, loc);
    PrefixIsLess(ds, k, b);
    assert Numeral(m, b, f, loc)[k..][0] == loc.separator[0];
  }

  lemma FirstOfBlocks(ds: string, loc: Locale) returns (k: nat)
    requires loc.Valid() && loc.separator != [] && loc.grouping[0] != NO_GROUPING && |ds| > loc.grouping[0]
    ensures var t := Separated(ds, true, loc, 1, loc.grouping[0], 1);
            0 < k < |ds| && k < |t| && t[..k] == ds[..k] && t[k] == loc.separator[0]
  {
    hide Separated, NextGroup;
    var size := loc.grouping[0];
    WholeSize(size);
    OneBlock(ds, loc, 1, size, 1, size);
    k := FirstSeparator(ds, true, loc, 1, size, 1);
  }

  lemma WholeSize(size: int)
    requires size > 0
    ensures (1 + size - 1) % size == 0
  {
  }
}
