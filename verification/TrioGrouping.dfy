/** Where the digit loop of trio puts thousands separators, against the grouping that the locale
    asks for. */
module TrioGrouping {
  import opened Arith
  import opened CText
  import opened Numerals
  import opened TrioNumber

  /** What localeconv() says of the k-th group from the right: its size is the k-th of the list, the last
      size repeats, and NO_GROUPING in the list means that all digits left form one group. */
  function GroupSize(loc: Locale, k: nat): (size: int)
    requires loc.Valid()
    ensures size > 0
  {
    if exists j :: 0 <= j <= k && j < |loc.grouping| && loc.grouping[j] == NO_GROUPING then NO_GROUPING
    else if k < |loc.grouping| then loc.grouping[k]
    else loc.grouping[|loc.grouping| - 1]
  }

  /** The digits grouped from the right, from the k-th group on. */
  function Grouped(ds: string, loc: Locale, k: nat): string
    requires loc.Valid()
  {
    var size := GroupSize(loc, k);
    if size == NO_GROUPING || |ds| <= size then ds
    else Grouped(ds[..|ds| - size], loc, k + 1) + loc.separator + ds[|ds| - size..]
  }

  function LocaleNumeral(n: nat, b: base, f: Flags, loc: Locale): string
    requires loc.Valid()
  {
    var ds := Digits(n, b, f.upper);
    if f.quote then Grouped(ds, loc, 0) else ds
  }

  /** The digit loop tests i % size with i counted over the whole number, so a size takes effect at
      the right place only if it divides the number of digits already grouped. With `count` digits
      left of `sum` grouped ones, from the k-th group on, this says that no separator goes astray. */
  predicate SizesAgree(count: nat, sum: nat, loc: Locale, k: nat)
    requires loc.Valid()
    decreases count
  {
    var size := GroupSize(loc, k);
    || size == NO_GROUPING
    || count <= size - sum % size
    || (sum % size == 0 && SizesAgree(count - size, sum + size, loc, k + 1))
  }

  /** The digit loop is in the k-th group. */
  ghost predicate InGroup(loc: Locale, k: nat, size: int, index: nat)
    requires loc.Valid()
  {
    size == GroupSize(loc, k) && (size != NO_GROUPING ==> index == Min(k + 1, |loc.grouping|))
  }

  lemma FirstGroup(loc: Locale)
    requires loc.Valid()
    ensures InGroup(loc, 0, loc.grouping[0], 1)
  {
  }

  /** Its next size is that of the next group. */
  lemma NextInGroup(loc: Locale, k: nat, size: int, index: nat)
    requires loc.Valid() && InGroup(loc, k, size, index) && size != NO_GROUPING
    ensures var (nextSize, nextIndex) := NextGroup(size, index, loc); InGroup(loc, k + 1, nextSize, nextIndex)
  {
    if k + 1 < |loc.grouping| {
      assert loc.grouping[k + 1] == NO_GROUPING ==> GroupSize(loc, k + 1) == NO_GROUPING;
    }
  }

  lemma NoMultipleInside(k: nat, r: nat, size: nat)
    requires 1 < r <= size && (k + r - 1) % size == 0
    ensures k % size != 0
  {
    var q := (k + r - 1) / size;
    assert k == size * (q - 1) + (size - (r - 1));
    DivModUnique(k, size, q - 1, size - (r - 1));
  }

  /** No separator is printed without the quote flag or once grouping is disabled. */
  lemma {:induction false} NotSeparated(ds: string, quote: bool, loc: Locale, i: nat, size: int, index: nat)
    requires ds != [] && loc.Valid() && size > 0 && (!quote || size == NO_GROUPING)
    ensures Separated(ds, quote, loc, i, size, index) == ds
  {
    if |ds| > 1 {
      NotSeparated(ds[..|ds| - 1], quote, loc, i + 1, size, index);
    }
  }

  /** When the next multiple of the size is r digits ahead, those r digits stay together. */
  lemma {:induction false} OneBlock(ds: string, loc: Locale, i: nat, size: int, index: nat, r: nat)
    requires ds != [] && loc.Valid() && size > 0 && size != NO_GROUPING
    requires 1 <= r <= size && (i + r - 1) % size == 0
    ensures |ds| <= r ==> Separated(ds, true, loc, i, size, index) == ds
    ensures |ds| > r ==>
              var (nextSize, nextIndex) := NextGroup(size, index, loc);
              nextSize > 0 &&
              Separated(ds, true, loc, i, size, index)
                == Separated(ds[..|ds| - r], true, loc, i + r, nextSize, nextIndex)
                   + loc.separator + ds[|ds| - r..]
    decreases r
  {
    hide NextGroup, Separated;
    if r == 1 || |ds| == 1 {
      BlockEnd(ds, loc, i, size, index);
    } else {
      NoMultipleInside(i, r, size);
      var init, last := ds[..|ds| - 1], ds[|ds| - 1..];
      OneBlock(init, loc, i + 1, size, index, r - 1);
      NoSeparator(ds, loc, i, size, index);
      assert init + last == ds;
      if |ds| > r {
        var (nextSize, nextIndex) := NextGroup(size, index, loc);
        assert init[..|init| - (r - 1)] == ds[..|ds| - r];
        LastJoined(Separated(ds[..|ds| - r], true, loc, i + r, nextSize, nextIndex) + loc.separator,
                   init[|init| - (r - 1)..], last, ds[|ds| - r..]);
      }
    }
  }

  lemma BlockEnd(ds: string, loc: Locale, i: nat, size: int, index: nat)
    requires ds != [] && loc.Valid() && size > 0 && size != NO_GROUPING
    ensures |ds| == 1 ==> Separated(ds, true, loc, i, size, index) == ds
    ensures |ds| > 1 && i % size == 0 ==>
              var (nextSize, nextIndex) := NextGroup(size, index, loc);
              && nextSize > 0
              && Separated(ds, true, loc, i, size, index)
                 == Separated(ds[..|ds| - 1], true, loc, i + 1, nextSize, nextIndex)
                    + loc.separator + ds[|ds| - 1..]
  {
  }

  lemma NoSeparator(ds: string, loc: Locale, i: nat, size: int, index: nat)
    requires |ds| > 1 && loc.Valid() && size > 0 && i % size != 0
    ensures Separated(ds, true, loc, i, size, index)
            == Separated(ds[..|ds| - 1], true, loc, i + 1, size, index) + ds[|ds| - 1..]
  {
    hide NextGroup;
  }

  lemma LastJoined(x: string, tail: string, last: string, whole: string)
    requires whole == tail + last
    ensures x + tail + last == x + whole
  {
  }

  /** Two texts that end in the same r characters, one of them with a separator before these and the
      other with a character that is not the end of that separator, differ. */
  lemma EndsDiffer(x: string, sep: string, tail: string, y: string)
    requires sep != [] && |y| > |tail| && y[|y| - |tail| - 1] != sep[|sep| - 1]
    ensures x + sep + tail != y
  {
    var z := x + sep + tail;
    assert z[|z| - |tail| - 1] == sep[|sep| - 1];
  }

  /** A size that does not divide what is grouped already puts its separator too early. */
  lemma Astray(ds: string, sum: nat, loc: Locale, k: nat, size: int, index: nat, b: nat)
    requires loc.Valid() && InGroup(loc, k, size, index) && size != NO_GROUPING && AllDigits(ds, b)
    requires loc.separator != [] && DigitValue(loc.separator[|loc.separator| - 1]) == -1
    requires sum % size != 0 && |ds| > size - sum % size
    ensures Separated(ds, true, loc, sum + 1, size, index) != Grouped(ds, loc, k)
  {
    var r := size - sum % size;
    RoundUp(sum, size);
    OneBlock(ds, loc, sum + 1, size, index, r);
    GroupedEnd(ds, loc, k, r);
    var (nextSize, nextIndex) := NextGroup(size, index, loc);
    EndsDiffer(Separated(ds[..|ds| - r], true, loc, sum + 1 + r, nextSize, nextIndex),
               loc.separator, ds[|ds| - r..], Grouped(ds, loc, k));
  }

  /** A size that divides it puts its separator where the locale does. */
  lemma Aligned(ds: string, sum: nat, loc: Locale, k: nat, size: int, index: nat)
    requires loc.Valid() && InGroup(loc, k, size, index) && size != NO_GROUPING
    requires sum % size == 0 && |ds| > size
    ensures var (nextSize, nextIndex) := NextGroup(size, index, loc);
            (Separated(ds, true, loc, sum + 1, size, index) == Grouped(ds, loc, k))
            <==> (Separated(ds[..|ds| - size], true, loc, sum + size + 1, nextSize, nextIndex)
                  == Grouped(ds[..|ds| - size], loc, k + 1))
  {
    hide NextGroup, GroupSize, Separated, Grouped;
    NextInGroup(loc, k, size, index);
    var (nextSize, nextIndex) := NextGroup(size, index, loc);
    var head, tail := ds[..|ds| - size], ds[|ds| - size..];
    RoundUp(sum, size);
    assert (sum + 1 + size - 1) % size == 0;
    OneBlock(ds, loc, sum + 1, size, index, size);
    GroupedMore(ds, loc, k);
    var x, y := Separated(head, true, loc, sum + 1 + size, nextSize, nextIndex), Grouped(head, loc, k + 1);
    Regrouped(x, loc.separator, tail);
    Regrouped(y, loc.separator, tail);
    SameAround(x, y, loc.separator + tail);
  }

  lemma GroupedMore(ds: string, loc: Locale, k: nat)
    requires loc.Valid() && GroupSize(loc, k) != NO_GROUPING && |ds| > GroupSize(loc, k)
    ensures var size := GroupSize(loc, k);
            Grouped(ds, loc, k) == Grouped(ds[..|ds| - size], loc, k + 1) + loc.separator + ds[|ds| - size..]
  {
    hide GroupSize;
  }

  lemma Regrouped(x: string, separator: string, tail: string)
    ensures x + separator + tail == x + (separator + tail)
  {
  }

  lemma {:induction false} GroupsFrom(ds: string, sum: nat, loc: Locale, k: nat, size: int, index: nat, b: nat)
    requires ds != [] && loc.Valid() && InGroup(loc, k, size, index) && AllDigits(ds, b)
    requires loc.separator != [] && DigitValue(loc.separator[|loc.separator| - 1]) == -1
    ensures (Separated(ds, true, loc, sum + 1, size, index) == Grouped(ds, loc, k))
            <==> SizesAgree(|ds|, sum, loc, k)
    decreases |ds|
  {
    hide GroupSize, NextGroup, Separated;
    if size == NO_GROUPING {
      NotSeparated(ds, true, loc, sum + 1, size, index);
    } else if |ds| <= size - sum % size {
      RoundUp(sum, size);
      OneBlock(ds, loc, sum + 1, size, index, size - sum % size);
    } else if sum % size != 0 {
      Astray(ds, sum, loc, k, size, index, b);
    } else {
      var (nextSize, nextIndex) := NextGroup(size, index, loc);
      NextInGroup(loc, k, size, index);
      Aligned(ds, sum, loc, k, size, index);
      GroupsFrom(ds[..|ds| - size], sum + size, loc, k + 1, nextSize, nextIndex, b);
    }
  }

  lemma SameAround(x: string, y: string, tail: string)
    ensures x + tail == y + tail <==> x == y
  {
    if x + tail == y + tail {
      assert |x| == |y|;
      assert x == (x + tail)[..|x|];
      assert y == (y + tail)[..|y|];
    }
  }

  lemma RoundUp(sum: nat, size: nat)
    requires size > 0
    ensures (sum + (size - sum % size)) % size == 0
  {
    var q := sum / size;
    assert sum + (size - sum % size) == size * q + size == size * (q + 1);
    DivModUnique(size * (q + 1), size, q + 1, 0);
  }

  /** Inside the last group of the locale's text there are only digits. */
  lemma GroupedEnd(ds: string, loc: Locale, k: nat, r: nat)
    requires loc.Valid() && 0 < r < GroupSize(loc, k) && r < |ds|
    ensures var g := Grouped(ds, loc, k);
            |g| > r && g[|g| - r - 1] == ds[|ds| - r - 1]
  {
  }

  /** With the quote flag, the printed numeral is the one the locale asks for exactly when the sizes
      agree over the digits of the number. */
  lemma GroupingIsLocales(n: nat, b: base, f: Flags, loc: Locale)
    requires loc.Valid()
    requires loc.separator != [] && DigitValue(loc.separator[|loc.separator| - 1]) == -1
    ensures (Numeral(n, b, f, loc) == LocaleNumeral(n, b, f, loc))
            <==> (!f.quote || SizesAgree(|Digits(n, b, f.upper)|, 0, loc, 0))
  {
    var ds := Digits(n, b, f.upper);
    if f.quote {
      FirstGroup(loc);
      GroupsFrom(ds, 0, loc, 0, loc.grouping[0], 1, b);
    } else {
      NotSeparated(ds, false, loc, 1, loc.grouping[0], 1);
    }
  }

  /** One repeating size always agrees. */
  lemma {:induction false} OneSizeAgrees(count: nat, k: nat, loc: Locale)
    requires loc.Valid() && |loc.grouping| == 1
    ensures SizesAgree(count, loc.grouping[0] * k, loc, k)
    decreases count
  {
    var g := loc.grouping[0];
    DivModUnique(g * k, g, k, 0);
    if g != NO_GROUPING && count > g {
      OneSizeAgrees(count - g, k + 1, loc);
      assert g * k + g == g * (k + 1);
    }
  }

  lemma RepeatingGroup(n: nat, b: base, f: Flags, loc: Locale)
    requires loc.Valid() && |loc.grouping| == 1
    requires loc.separator != [] && DigitValue(loc.separator[|loc.separator| - 1]) == -1
    ensures Numeral(n, b, f, loc) == LocaleNumeral(n, b, f, loc)
  {
    GroupingIsLocales(n, b, f, loc);
    OneSizeAgrees(|Digits(n, b, f.upper)|, 0, loc);
  }

  // ----- The places of digits and separators

  /** How many characters a digit is from the right end when `k` digits are right of it: these, and one
      separator for every g of them. */
  function FromRight(k: nat, g: nat, loc: Locale): (r: nat)
    requires g > 0
  {
    k + |loc.separator| * (k / g)
  }

  /** The text t has the digits ds, and a separator exactly before each digit that has a multiple of g
      digits right of it up to the end, so in front of every g-th digit from the right but the first. */
  ghost predicate EveryGth(t: string, ds: string, g: nat, loc: Locale)
    requires g > 0
  {
    && ds != [] && |t| == FromRight(|ds| - 1, g, loc) + 1
    && (forall k :: 0 <= k < |ds| ==> DigitAt(t, FromRight(k, g, loc), ds[|ds| - 1 - k]))
    && (forall k :: 0 < k < |ds| && k % g == 0 ==> SeparatorAt(t, FromRight(k, g, loc), loc.separator))
  }

  predicate DigitAt(t: string, fromRight: nat, c: char) {
    fromRight < |t| && t[|t| - 1 - fromRight] == c
  }

  /** The separator right after the character that is so far from the right end. */
  predicate SeparatorAt(t: string, fromRight: nat, separator: string) {
    |separator| <= fromRight < |t| && t[|t| - fromRight..|t| - fromRight + |separator|] == separator
  }

  lemma DivLess(k: nat, g: nat)
    requires 0 < g <= k
    ensures (k - g) / g == k / g - 1 && (k - g) % g == k % g && k / g >= 1
  {
    Division1(k, g);
    DivModUnique(k - g, g, k / g - 1, k % g);
  }

  lemma Division1(k: nat, g: nat)
    requires 0 < g <= k
    ensures k == g * (k / g) + k % g && 0 <= k % g < g && k / g >= 1
  {
  }

  lemma FromRightLess(k: nat, g: nat, loc: Locale)
    requires 0 < g <= k
    ensures FromRight(k, g, loc) == FromRight(k - g, g, loc) + g + |loc.separator|
  {
    DivLess(k, g);
    var l, q := |loc.separator|, k / g;
    assert l * (q - 1) == l * q - l;
  }

  lemma FromRightFirst(k: nat, g: nat, loc: Locale)
    requires k < g
    ensures FromRight(k, g, loc) == k
  {
    DivModUnique(k, g, 0, k);
  }

  /** Text without a separator. */
  lemma ShortEveryGth(ds: string, g: nat, loc: Locale)
    requires ds != [] && |ds| <= g
    ensures EveryGth(ds, ds, g, loc)
  {
    hide FromRight;
    FromRightFirst(|ds| - 1, g, loc);
    forall k | 0 <= k < |ds| ensures DigitAt(ds, FromRight(k, g, loc), ds[|ds| - 1 - k]) {
      FromRightFirst(k, g, loc);
    }
    forall k | 0 < k < |ds| ensures k % g != 0 {
      DivModUnique(k, g, 0, k);
    }
  }

  /** One group more behind such a text. */
  lemma MoreEveryGth(t: string, ds: string, tail: string, g: nat, loc: Locale)
    requires g > 0 && EveryGth(t, ds, g, loc) && |tail| == g
    ensures EveryGth(t + loc.separator + tail, ds + tail, g, loc)
  {
    hide FromRight;
    var u, es := t + loc.separator + tail, ds + tail;
    FromRightLess(|es| - 1, g, loc);
    forall k | 0 <= k < |es| ensures DigitAt(u, FromRight(k, g, loc), es[|es| - 1 - k]) {
      if k < g {
        FromRightFirst(k, g, loc);
      } else {
        FromRightLess(k, g, loc);
        assert DigitAt(t, FromRight(k - g, g, loc), ds[|ds| - 1 - (k - g)]);
      }
    }
    forall k | 0 < k < |es| && k % g == 0 ensures SeparatorAt(u, FromRight(k, g, loc), loc.separator) {
      MoreSeparators(t, ds, tail, g, loc, k);
    }
  }

  lemma MoreSeparators(t: string, ds: string, tail: string, g: nat, loc: Locale, k: nat)
    requires g > 0 && EveryGth(t, ds, g, loc) && |tail| == g && 0 < k < |ds| + g && k % g == 0
    ensures SeparatorAt(t + loc.separator + tail, FromRight(k, g, loc), loc.separator)
  {
    hide FromRight;
    var u, l := t + loc.separator + tail, |loc.separator|;
    if k < g {
      DivModUnique(k, g, 0, k);
      assert false;
    }
    FromRightLess(k, g, loc);
    if k == g {
      FromRightFirst(0, g, loc);
      assert u[|t|..|t| + l] == loc.separator;
    } else {
      DivLess(k, g);
      var at := FromRight(k - g, g, loc);
      assert SeparatorAt(t, at, loc.separator);
      assert u[|t| - at..|t| - at + l] == t[|t| - at..|t| - at + l];
    }
  }

  lemma {:induction false} RepeatedGroups(ds: string, times: nat, loc: Locale)
    requires ds != [] && loc.Valid() && |loc.grouping| == 1 && loc.grouping[0] != NO_GROUPING
    ensures var g := loc.grouping[0];
            EveryGth(Separated(ds, true, loc, g * times + 1, g, 1), ds, g, loc)
    decreases |ds|
  {
    hide Separated, EveryGth;
    var g := loc.grouping[0];
    RoundUp(g * times, g);
    DivModUnique(g * times, g, times, 0);
    OneBlock(ds, loc, g * times + 1, g, 1, g);
    if |ds| <= g {
      ShortEveryGth(ds, g, loc);
    } else {
      var head, tail := ds[..|ds| - g], ds[|ds| - g..];
      RepeatedGroups(head, times + 1, loc);
      assert g * (times + 1) + 1 == g * times + 1 + g;
      MoreEveryGth(Separated(head, true, loc, g * times + 1 + g, g, 1), head, tail, g, loc);
      assert head + tail == ds;
    }
  }

  /** With one size g and the quote flag, every g-th digit from the right has the separator behind it,
      counted from the digit after it; nothing else has, and none is in front. */
  lemma SeparatorEveryGth(n: nat, b: base, f: Flags, loc: Locale)
    requires loc.Valid() && |loc.grouping| == 1 && loc.grouping[0] != NO_GROUPING && f.quote
    ensures EveryGth(Numeral(n, b, f, loc), Digits(n, b, f.upper), loc.grouping[0], loc)
  {
    hide EveryGth;
    RepeatedGroups(Digits(n, b, f.upper), 0, loc);
  }

  /** The sizes 3 and then 2 do not agree: 123456 is cut as 12,3,456 instead of 1,23,456. */
  lemma MixedSizesGoAstray()
    ensures var loc := Locale(",", [3, 2]);
            var f := FLAGS_NEW.(quote := true);
            loc.Valid() && Numeral(123456, 10, f, loc) != LocaleNumeral(123456, 10, f, loc)
  {
    hide Numeral, LocaleNumeral, Digits, SizesAgree;
    var loc := Locale(",", [3, 2]);
    SixDigits();
    ThreeThenTwo(loc);
    GroupingIsLocales(123456, 10, FLAGS_NEW.(quote := true), loc);
  }

  lemma SixDigits()
    ensures |Digits(123456, 10, false)| == 6
  {
    assert |Digits(12, 10, false)| == 2;
    assert |Digits(1234, 10, false)| == 4;
    assert |Digits(12345, 10, false)| == 5;
  }

  lemma ThreeThenTwo(loc: Locale)
    requires loc == Locale(",", [3, 2])
    ensures loc.Valid() && !SizesAgree(6, 0, loc, 0)
  {
    assert GroupSize(loc, 0) == 3 && GroupSize(loc, 1) == 2;
    assert !SizesAgree(3, 3, loc, 1);
  }
}
