/** How trio reads a conversion of the format string: positions, qualifiers and the final letter. */
module TrioLexer {
  import opened CText
  import opened Numerals
  import opened TrioNumber

  const NO_POSITION := -1
  const NO_BASE := -1
  const BASE_DECIMAL := 10

  /** Error codes of trio.h. */
  const TRIO_EINVAL := 2
  const TRIO_ETOOMANY := 3
  const TRIO_EDBLREF := 4
  const TRIO_EGAP := 5

  datatype Escaping = EscapeNone | EscapeUlm | EscapeXml | EscapeSql

  /** TrioIsQualifier. */
  predicate IsQualifier(c: char) {
    IsDigit(c) || c in {'+', '-', ' ', '.', '*', '#', 'h', 'l', 'L', '^', 'z', 't', 'j', 'q', 'Z', 'w',
                        '\'', '!', '&', '@', 'I', '|'}
  }

  /** TrioGetPosition on the rest of the format: the zero-based position and the length of its text,
      or NO_POSITION. */
  function GetPosition(f: string): (r: (int, nat))
    ensures r.1 <= |f| && (r.0 == NO_POSITION <==> r.1 == 0) && (r.1 > 0 ==> f[r.1 - 1] == '$')
  {
    var (value, n) := StrToLong(f);
    var number := ToInt32(value);
    if number != 0 && n < |f| && f[n] == '$' then (number - 1, n + 1) else (NO_POSITION, 0)
  }

  lemma NoDollarNoPosition(f: string)
    requires '$' !in f
    ensures GetPosition(f) == (NO_POSITION, 0)
  {
  }

  /** A qualifier as it stands in the text. A star carries its explicit position or NO_POSITION. */
  datatype Qualifier =
    | Space | Plus | Minus | Alternative | Quote
    | Short | Long | Quad | NoEffect
    | Width(zero: bool, value: int) | WidthStar(position: int)
    | NoPrecision | Precision(value: int) | PrecisionStar(position: int)
    | Base(value: int) | BaseStar(position: int)
    | Escape(escaping: Escaping)
    | Invalid(at: nat)
    | Unmodelled

  /** The qualifier at the start of f and its length, after `dots` dots of the same conversion. */
  function Lex(f: string, dots: nat): (r: (Qualifier, nat))
    requires f != [] && IsQualifier(f[0])
    ensures 1 <= r.1 <= |f|
  {
    var c := f[0];
    if c == ' ' then (Space, 1)
    else if c == '+' then (Plus, 1)
    else if c == '-' then (Minus, 1)
    else if c == '#' then (Alternative, 1)
    else if c == '\'' then (Quote, 1)
    else if c == 'h' then (Short, 1)
    else if c == 'l' then (Long, 1)
    else if c in {'z', 't', 'j', 'q'} then (Quad, 1)
    else if c in {'L', 'Z', 'w'} then (NoEffect, 1)
    else if c == '.' then LexDot(f, dots)
    else if c in {'*', '@'} then
      var (position, n) := GetPosition(f[1..]);
      (WidthStar(position), 1 + n)
    else if IsDigit(c) then
      var (value, n) := StrToLong(f);
      (Width(c == '0', ToInt32(value)), n)
    else if c == '|' then
      if |f| > 1 && f[1] == 'U' then (Escape(EscapeUlm), 2)
      else if |f| > 1 && f[1] == 'X' then (Escape(EscapeXml), 2)
      else if |f| > 1 && f[1] == 'S' then (Escape(EscapeSql), 2)
      else (Invalid(2), 1)
    else if c in {'!', '&', 'I'} then (Unmodelled, 1)
    else (Invalid(1), 1)
  }

  /** The first dot starts the precision, the second the base; a third is an error. */
  function LexDot(f: string, dots: nat): (r: (Qualifier, nat))
    requires f != []
    ensures 1 <= r.1 <= |f|
  {
    var starred := |f| > 1 && f[1] in {'*', '@'};
    if dots == 0 then
      if |f| > 1 && f[1] == '.' then (NoPrecision, 1)
      else if starred then
        var (position, n) := GetPosition(f[2..]);
        (PrecisionStar(position), 2 + n)
      else
        var (value, n) := StrToLong(f[1..]);
        (Precision(ToInt32(value)), 1 + n)
    else if dots == 1 then
      if starred then
        var (position, n) := GetPosition(f[2..]);
        (BaseStar(position), 2 + n)
      else
        var (value, n) := StrToLong(f[1..]);
        if ToInt32(value) > MAX_BASE then (Invalid(1), 1) else (Base(ToInt32(value)), 1 + n)
    else (Invalid(1), 1)
  }

  /** The number of dots after a qualifier. */
  function DotsAfter(q: Qualifier, dots: nat): nat {
    if q.NoPrecision? || q.Precision? || q.PrecisionStar? then 1
    else if q.Base? || q.BaseStar? then 2
    else dots
  }

  /** A size letter that does not go with the ones before it. */
  predicate SizeConflict(q: Qualifier, f: Flags) {
    (q.Short? && f.shortShort) || (q.Long? && f.quad)
  }

  /** The flag bits after a qualifier. */
  function FlagsAfter(q: Qualifier, f: Flags): Flags {
    match q
    case Space => f.(space := true)
    case Plus => f.(showSign := true)
    case Minus => f.(leftAdjust := true, nilPadding := false)
    case Alternative => f.(alternative := true)
    case Quote => f.(quote := true)
    case Short => if f.short then f.(shortShort := true) else f.(short := true)
    case Long => if f.long then f.(quad := true) else f.(long := true)
    case Quad => f.(quad := true)
    case Width(zero, _) => if zero && !f.leftAdjust then f.(nilPadding := true) else f
    case Precision(_) => f.(precision := true)
    case PrecisionStar(_) => f.(precision := true)
    case _ => f
  }

  datatype Kind = FormatParameter | FormatChar | FormatInt | FormatString

  /** What the final letter makes of a conversion: its kind, its flags, and the base it fixes. */
  datatype Letter = Letter(kind: Kind, flags: Flags, fixedBase: Option<int>) | NoLetter | UnmodelledLetter

  function LexLetter(f: string, flags: Flags): (r: Letter)
    ensures r.Letter? ==> r.kind != FormatParameter && r.flags.precision == flags.precision
  {
    if f == [] then NoLetter
    else if f[0] in {'c', 'C'} then Letter(FormatChar, flags, None)
    else if f[0] in {'s', 'S'} then Letter(FormatString, flags, None)
    else if f[0] == 'i' then Letter(FormatInt, flags, None)
    else if f[0] == 'u' then Letter(FormatInt, flags.(unsigned := true), None)
    else if f[0] == 'd' then Letter(FormatInt, flags, Some(10))
    else if f[0] == 'o' then Letter(FormatInt, flags, Some(8))
    else if f[0] == 'b' then Letter(FormatInt, flags.(nilPadding := true), Some(2))
    else if f[0] == 'B' then Letter(FormatInt, flags.(nilPadding := true, upper := true), Some(2))
    else if f[0] == 'x' then Letter(FormatInt, flags.(unsigned := true), Some(16))
    else if f[0] == 'X' then Letter(FormatInt, flags.(unsigned := true, upper := true), Some(16))
    else if f[0] in {'e', 'E', 'f', 'F', 'g', 'G', 'a', 'A', 'p', 'n', 'm', '[', '<'} then UnmodelledLetter
    else NoLetter
  }
}
