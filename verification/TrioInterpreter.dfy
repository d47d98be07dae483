/** Two meanings of a format string. The engine runs the compiled table over the text
    (TrioFormatProcess); the direct interpreter takes arguments as it meets the conversions. */
module TrioInterpreter {
  import opened CText
  import opened Escape
  import opened TrioNumber
  import opened TrioWriter
  import opened TrioLexer
  import opened TrioCompile

  /** The text of a string argument before it is written. */
  function Escaped(escaping: Escaping, text: Option<string>): Option<string> {
    match escaping
    case EscapeNone => if text == None then Some("(null)") else text
    case EscapeUlm => if text == None then None else Some(EscapeUlmText(text.value))
    case EscapeXml => if text == None then None else Some(EscapeXmlText(text.value))
    case EscapeSql => if text == None then None else Some(EscapeSqlText(text.value))
  }

  /** What a conversion prints. None when the base is one the number writer is not made for. */
  function ConversionText(kind: Kind, f: Flags, width: int, precision: int, base: int,
                          escaping: Escaping, data: Slot, loc: Locale): Option<string>
    requires loc.Valid()
  {
    match kind
    case FormatParameter => None
    case FormatChar => Some(CharText(ToInt32(data.bits), f, width))
    case FormatString => Some(StringText(Escaped(escaping, data.text), f, width, precision))
    case FormatInt =>
      var b := if base == NO_BASE then BASE_DECIMAL else base;
      if MIN_BASE <= b <= MAX_BASE then Some(NumberText(data.bits, f, width, precision, b, loc)) else None
  }

  function Join(a: Option<string>, b: Option<string>): Option<string> {
    if a.Some? && b.Some? then Some(a.value + b.value) else None
  }

  // ----- The engine

  /** The first entry from i on that is not just an argument of another. */
  function SkipParameters(es: seq<Param>, i: nat): (r: nat)
    requires i <= |es|
    ensures i <= r <= |es| && (r < |es| ==> es[r].kind != FormatParameter)
    decreases |es| - i
  {
    if i < |es| && es[i].kind == FormatParameter then SkipParameters(es, i + 1) else i
  }

  /** A number of an entry: stored, or read into the entry it refers to. */
  function Number(es: seq<Param>, parameter: bool, number: int): Option<int> {
    if !parameter then Some(number)
    else if 0 <= number < |es| then Some(ToInt32(es[number].data.bits))
    else None
  }

  /** What the printing of one conversion is given. */
  datatype Call = Call(
    kind: Kind, flags: Flags, width: int, precision: int, base: int, escaping: Escaping, data: Slot)

  function CallText(c: Call, loc: Locale): Option<string>
    requires loc.Valid()
  {
    ConversionText(c.kind, c.flags, c.width, c.precision, c.base, c.escaping, c.data, loc)
  }

  function EntryCall(es: seq<Param>, e: Param): Option<Call> {
    var width := Number(es, e.widthParameter, e.width);
    var precision := if e.flags.precision then Number(es, e.precisionParameter, e.precision) else Some(NO_PRECISION);
    var base := Number(es, e.baseParameter, e.base);
    if width.Some? && precision.Some? && base.Some?
    then Some(Call(e.kind, e.flags, width.value, precision.value, base.value, e.escaping, e.data))
    else None
  }

  function EntryText(es: seq<Param>, e: Param, loc: Locale): Option<string>
    requires loc.Valid()
  {
    var call := EntryCall(es, e);
    if call.Some? then CallText(call.value, loc) else None
  }

  /** The output of TrioFormatProcess from an index of the format and an entry of the table on. */
  function Execute(format: string, index: nat, i: nat, es: seq<Param>, loc: Locale): Option<string>
    requires index <= |format| && i <= |es| && loc.Valid()
    decreases |format| - index
  {
    if index == |format| then Some("")
    else if format[index] != '%' then Join(Some([format[index]]), Execute(format, index + 1, i, es, loc))
    else if index + 1 < |format| && format[index + 1] == '%' then
      Join(Some("%"), Execute(format, index + 2, i, es, loc))
    else
      var at := SkipParameters(es, i);
      if at < |es| && index < es[at].indexAfterSpecifier <= |format|
      then Join(EntryText(es, es[at], loc), Execute(format, es[at].indexAfterSpecifier, at + 1, es, loc))
      else None
  }

  function Prepend<T>(first: Option<T>, rest: Option<seq<T>>): Option<seq<T>> {
    if first.Some? && rest.Some? then Some([first.value] + rest.value) else None
  }

  /** The calls behind that output, one for each conversion. */
  function EngineCalls(format: string, index: nat, i: nat, es: seq<Param>): Option<seq<Call>>
    requires index <= |format| && i <= |es|
    decreases |format| - index
  {
    if index == |format| then Some([])
    else if format[index] != '%' then EngineCalls(format, index + 1, i, es)
    else if index + 1 < |format| && format[index + 1] == '%' then EngineCalls(format, index + 2, i, es)
    else
      var at := SkipParameters(es, i);
      if at < |es| && index < es[at].indexAfterSpecifier <= |format|
      then Prepend(EntryCall(es, es[at]), EngineCalls(format, es[at].indexAfterSpecifier, at + 1, es))
      else None
  }

  // ----- The direct interpreter

  /** Where a number of a conversion comes from. */
  datatype Source = Literal(number: int) | Argument(position: int)

  function Worth(s: Source, args: Args): int {
    match s
    case Literal(number) => number
    case Argument(position) => IntSlot(args(position))
  }

  /** What a conversion has gathered so far, and the next argument. A literal width that comes after a
      star is only remembered as late. */
  datatype Direct = Direct(
    flags: Flags, width: Source, precision: Source, base: Source, escaping: Escaping, dots: nat,
    late: Option<int>, next: int)

  /** A star takes the next argument; nothing else takes one. */
  function Take(q: Qualifier, d: Direct): Direct {
    var d := d.(flags := FlagsAfter(q, d.flags), dots := DotsAfter(q, d.dots));
    match q
    case Width(_, value) => if d.width.Argument? then d.(late := Some(value)) else d.(width := Literal(value))
    case Precision(value) => d.(precision := Literal(value))
    case Base(value) => d.(base := Literal(value))
    case Escape(escaping) => d.(escaping := escaping)
    case WidthStar(_) => d.(width := Argument(d.next), late := None, next := d.next + 1)
    case PrecisionStar(_) => d.(precision := Argument(d.next), next := d.next + 1)
    case BaseStar(_) => d.(base := Argument(d.next), next := d.next + 1)
    case _ => d
  }

  function TakeAll(f: string, index: nat, d: Direct): (r: Option<(Direct, nat)>)
    ensures r.Some? ==> index <= r.value.1 <= index + |f|
  {
    if f == [] || !IsQualifier(f[0]) then Some((d, index))
    else
      var lexed := Lex(f, d.dots);
      if lexed.0.Invalid? || lexed.0.Unmodelled? || SizeConflict(lexed.0, d.flags) then None
      else TakeAll(f[lexed.1..], index + lexed.1, Take(lexed.0, d))
  }

  /** The argument a conversion prints, read with the size its flags ask for. */
  function Value(kind: Kind, f: Flags, s: Slot): Slot {
    match kind
    case FormatString => Slot(0, s.text)
    case _ => Slot(if f.quad || f.long then s.bits else IntSlot(s) % TWO64, None)
  }

  function DirectStart(next: int): Direct {
    Direct(FLAGS_NEW, Literal(NO_WIDTH), Literal(NO_PRECISION), Literal(NO_BASE), EscapeNone, 0, None, next)
  }

  /** Two readings of a literal width after a star: it is of no effect, or, as the compiler has it, it is
      the position of the argument that holds the width. */
  datatype Reading = InOrder | AsCompiled

  function WidthSource(d: Direct, reading: Reading): Source {
    if reading == AsCompiled && d.late.Some? then Argument(d.late.value) else d.width
  }

  function DirectCall(letter: Letter, d: Direct, args: Args, reading: Reading): Call
    requires letter.Letter?
  {
    Call(letter.kind, letter.flags, Worth(WidthSource(d, reading), args),
         if letter.flags.precision then Worth(d.precision, args) else NO_PRECISION,
         if letter.fixedBase.Some? then letter.fixedBase.value
         else if d.base == Literal(NO_BASE) then BASE_DECIMAL else Worth(d.base, args),
         d.escaping, Value(letter.kind, letter.flags, args(d.next)))
  }

  function DirectText(letter: Letter, d: Direct, args: Args, reading: Reading, loc: Locale): Option<string>
    requires letter.Letter? && loc.Valid()
  {
    CallText(DirectCall(letter, d, args, reading), loc)
  }

  /** The conversion after the percent sign before index: what it gathers, its letter, and the index
      after that. */
  function ConversionAt(format: string, index: nat, next: int): (r: Option<(Direct, Letter, nat)>)
    requires index <= |format|
    ensures r.Some? ==> index < r.value.2 <= |format| && r.value.1.Letter?
  {
    var taken := TakeAll(format[index..], index, DirectStart(next));
    if taken == None || taken.value.1 >= |format| then None
    else
      var letter := LexLetter(format[taken.value.1..], taken.value.0.flags);
      if letter.Letter? then Some((taken.value.0, letter, taken.value.1 + 1)) else None
  }

  /** The output of the direct interpreter from an index of the format on, when `next` is the next
      argument, and the next argument after all of it. */
  function Interpret(format: string, index: nat, args: Args, next: int, reading: Reading, loc: Locale)
    : (Option<string>, int)
    requires index <= |format| && loc.Valid()
    decreases |format| - index
  {
    if index == |format| then (Some(""), next)
    else if format[index] != '%' then
      var rest := Interpret(format, index + 1, args, next, reading, loc);
      (Join(Some([format[index]]), rest.0), rest.1)
    else if index + 1 < |format| && format[index + 1] == '%' then
      var rest := Interpret(format, index + 2, args, next, reading, loc);
      (Join(Some("%"), rest.0), rest.1)
    else
      match ConversionAt(format, index + 1, next)
      case None => (None, next)
      case Some((d, letter, after)) =>
        var rest := Interpret(format, after, args, d.next + 1, reading, loc);
        (Join(DirectText(letter, d, args, reading, loc), rest.0), rest.1)
  }

  /** The calls behind that output. */
  function DirectCalls(format: string, index: nat, args: Args, next: int, reading: Reading): Option<seq<Call>>
    requires index <= |format|
    decreases |format| - index
  {
    if index == |format| then Some([])
    else if format[index] != '%' then DirectCalls(format, index + 1, args, next, reading)
    else if index + 1 < |format| && format[index + 1] == '%' then DirectCalls(format, index + 2, args, next, reading)
    else
      match ConversionAt(format, index + 1, next)
      case None => None
      case Some((d, letter, after)) =>
        Prepend(Some(DirectCall(letter, d, args, reading)), DirectCalls(format, after, args, d.next + 1, reading))
  }

  /** In every conversion a literal width after a star is absent, or names the argument that the star
      takes. */
  predicate Tidy(format: string, index: nat, next: int)
    requires index <= |format|
    decreases |format| - index
  {
    if index == |format| then true
    else if format[index] != '%' then Tidy(format, index + 1, next)
    else if index + 1 < |format| && format[index + 1] == '%' then Tidy(format, index + 2, next)
    else
      match ConversionAt(format, index + 1, next)
      case None => true
      case Some((d, _, after)) => NamesOwn(d) && Tidy(format, after, d.next + 1)
  }

  predicate NamesOwn(d: Direct) {
    d.late.Some? ==> d.width == Argument(d.late.value)
  }
}
