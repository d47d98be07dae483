/** What the integer conversions of trio print: the digit loop with its separators, the fields
    around it, and the properties of the printed text. */
module TrioNumber {
  import opened CText
  import opened Numerals

  /** The flag bits that the modelled conversions look at. */
  datatype Flags = Flags(
    space: bool, showSign: bool, leftAdjust: bool, alternative: bool, nilPadding: bool,
    short: bool, shortShort: bool, long: bool, quad: bool,
    unsigned: bool, upper: bool, quote: bool, precision: bool)

  const FLAGS_NEW := Flags(false, false, false, false, false, false, false, false, false,
                           false, false, false, false)

  const NO_WIDTH := 0
  const NO_PRECISION := -1
  const MIN_BASE := 2
  const MAX_BASE := 36

  /** CHAR_MAX: no more grouping. */
  const NO_GROUPING := 127
  /** MB_LEN_MAX. */
  const MAX_LOCALE_SEPARATOR_LENGTH := 16
  /** MAX_CHARS_IN(trio_uintmax_t) * (1 + MAX_LOCALE_SEPARATOR_LENGTH) + 1. */
  const BUFFER_SIZE := 64 * (1 + MAX_LOCALE_SEPARATOR_LENGTH) + 1

  /** internalThousandSeparator and the part of internalGrouping before its terminating 0. */
  datatype Locale = Locale(separator: string, grouping: seq<int>) {
    ghost predicate Valid() {
      && |separator| <= MAX_LOCALE_SEPARATOR_LENGTH
      && (forall i :: 0 <= i < |separator| ==> separator[i] != '\0')
      && |grouping| >= 1
      && forall i :: 0 <= i < |grouping| ==> 1 <= grouping[i] <= NO_GROUPING
    }
  }

  const C_LOCALE := Locale(",", [NO_GROUPING])

  type base = b: int | MIN_BASE <= b <= MAX_BASE witness 10

  /** The group size after a separator, and the index of the next one. */
  function NextGroup(size: int, index: nat, loc: Locale): (int, nat) {
    if index >= |loc.grouping| then (size, index)
    else if loc.grouping[index] == NO_GROUPING then (NO_GROUPING, index)
    else (loc.grouping[index], index + 1)
  }

  predicate SeparatorAfter(i: nat, size: int, quote: bool)
    requires size > 0
  {
    quote && size != NO_GROUPING && i % size == 0
  }

  /** The digits with the separators that the digit loop puts between them, when the last of these
      digits is the i-th of the number from the right. */
  function Separated(ds: string, quote: bool, loc: Locale, i: nat, size: int, index: nat): (r: string)
    requires ds != [] && loc.Valid() && size > 0
    ensures |r| >= |ds|
  {
    var last := ds[|ds| - 1..];
    if |ds| == 1 then ds
    else if SeparatorAfter(i, size, quote) then
      var (nextSize, nextIndex) := NextGroup(size, index, loc);
      Separated(ds[..|ds| - 1], quote, loc, i + 1, nextSize, nextIndex) + loc.separator + last
    else Separated(ds[..|ds| - 1], quote, loc, i + 1, size, index) + last
  }

  /** The digits of a number with the separators the code puts between them. */
  function Numeral(n: nat, b: base, f: Flags, loc: Locale): (r: string)
    requires loc.Valid()
    ensures |r| >= 1
  {
    Separated(Digits(n, b, f.upper), f.quote, loc, 1, loc.grouping[0], 1)
  }

  predicate IsNegative(number: uint64, f: Flags) {
    !f.unsigned && number >= TWO64 / 2
  }

  /** The absolute value that is printed, cut to 32 bits unless a 64-bit size was given. */
  function Magnitude(number: uint64, f: Flags): uint64 {
    var n := if IsNegative(number, f) then TWO64 - number else number;
    if f.quad || f.long then n else n % TWO32
  }

  function SignText(negative: bool, f: Flags): string {
    if negative then "-" else if f.showSign then "+" else if f.space then " " else ""
  }

  function PrefixText(b: base, f: Flags): string {
    if !f.alternative then ""
    else if b == 2 then (if f.upper then "0B" else "0b")
    else if b == 8 then "0"
    else if b == 16 then (if f.upper then "0X" else "0x")
    else ""
  }

  /** The number of zeros in front of `digits` digits when `room` columns are left of the width. */
  function ZeroCount(f: Flags, room: int, precision: int, digits: nat): nat {
    if precision != NO_PRECISION then Max(0, precision - digits)
    else if f.nilPadding then Max(0, room)
    else 0
  }

  /** `digits` after its head and zeros, padded to fill the columns that are left. */
  function FieldText(f: Flags, head: string, room: int, zeros: nat, digits: string): string {
    var body := head + Fill('0', zeros) + digits;
    var pad := Fill(' ', room - zeros);
    if f.leftAdjust then body + pad else pad + body
  }

  /** The whole printed field. It is exactly as long as the wider of the requested width and the
      number with its sign, prefix and precision. */
  function NumberText(number: uint64, f: Flags, width: int, precision: int, b: base, loc: Locale): (r: string)
    requires loc.Valid()
    ensures var d := |Numeral(Magnitude(number, f), b, f, loc)|;
            var s := if IsNegative(number, f) || f.showSign || f.space then 1 else 0;
            var p := if f.alternative && (b == 2 || b == 16) then 2
                     else if f.alternative && b == 8 then 1 else 0;
            |r| == Max(width, s + p + Max(d, precision))
  {
    var digits := Numeral(Magnitude(number, f), b, f, loc);
    var head := SignText(IsNegative(number, f), f) + PrefixText(b, f);
    var room := width - |head| - |digits|;
    var zeros := ZeroCount(f, room, precision, |digits|);
    FieldText(f, head, room, zeros, digits)
  }
}
