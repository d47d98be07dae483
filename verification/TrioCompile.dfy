/** TrioPreprocess as a function: the compiled parameter table of a format string. */
module TrioCompile {
  import opened CText
  import opened TrioNumber
  import opened TrioLexer

  const MAX_PARAMETERS := 64

  /** What a position of the argument list holds, read as a number or as a pointer to text. */
  datatype Slot = Slot(bits: uint64, text: Option<string>)

  type Args = int -> Slot

  /** va_arg(arglist, int). */
  function IntSlot(s: Slot): int {
    ToInt32(s.bits)
  }

  /** An entry of the parameter table with the argument read into it. */
  datatype Param = Param(
    kind: Kind, flags: Flags, widthParameter: bool, precisionParameter: bool, baseParameter: bool,
    width: int, precision: int, base: int, escaping: Escaping, indexAfterSpecifier: nat, data: Slot)

  const NOTHING := Slot(0, None)
  const PARAMETER_ENTRY := Param(FormatParameter, FLAGS_NEW, false, false, false, 0, 0, 0, EscapeNone, 0, NOTHING)

  /** The qualifier loop's variables. The *Parameter flags say that a number is a position. */
  datatype Conversion = Conversion(
    flags: Flags, widthParameter: bool, precisionParameter: bool, baseParameter: bool,
    width: int, precision: int, base: int, escaping: Escaping, dots: nat,
    currentParam: int, parameterPosition: int, maxParam: int)

  /** The position a star takes, and the variables after it. */
  function TakePosition(c: Conversion, explicit: int, positional: bool): (int, Conversion) {
    if explicit != NO_POSITION then
      (explicit, if positional then c else c.(currentParam := explicit + 1))
    else if positional then
      (c.parameterPosition + 1, c.(parameterPosition := c.parameterPosition + 1))
    else
      (c.currentParam, c.(parameterPosition := c.parameterPosition + 1, currentParam := c.currentParam + 1))
  }

  function RaiseMax(c: Conversion, position: int): Conversion {
    c.(maxParam := Max(c.maxParam, position))
  }

  function StarWidth(c: Conversion, explicit: int, positional: bool): Conversion {
    var taken := TakePosition(c, explicit, positional);
    var stored := taken.1.(width := taken.0, widthParameter := true);
    RaiseMax(if explicit != NO_POSITION then RaiseMax(stored, taken.0) else stored, stored.currentParam)
  }

  /** An explicit position of a precision star raises maxParam only when the width does. */
  function StarPrecision(c: Conversion, explicit: int, positional: bool): Conversion {
    var taken := TakePosition(c, explicit, positional);
    var stored := taken.1.(precision := taken.0, precisionParameter := true);
    RaiseMax(if explicit != NO_POSITION && stored.width > stored.maxParam then stored.(maxParam := taken.0) else stored,
             stored.currentParam)
  }

  function StarBase(c: Conversion, explicit: int, positional: bool): Conversion {
    var taken := TakePosition(c, explicit, positional);
    var stored := taken.1.(base := taken.0, baseParameter := true);
    RaiseMax(if explicit != NO_POSITION then RaiseMax(stored, taken.0) else stored, stored.currentParam)
  }

  /** The numbers after a qualifier. */
  function QualifyNumbers(q: Qualifier, c: Conversion, positional: bool): Conversion {
    match q
    case Width(_, value) => c.(width := value)
    case Precision(value) => c.(precision := value)
    case Base(value) => c.(base := value)
    case Escape(escaping) => c.(escaping := escaping)
    case WidthStar(explicit) => StarWidth(c, explicit, positional)
    case PrecisionStar(explicit) => StarPrecision(c, explicit, positional)
    case BaseStar(explicit) => StarBase(c, explicit, positional)
    case _ => c
  }

  /** One round of the qualifier loop. */
  function Qualify(q: Qualifier, c: Conversion, positional: bool): Conversion {
    QualifyNumbers(q, c.(flags := FlagsAfter(q, c.flags), dots := DotsAfter(q, c.dots)), positional)
  }

  /** Outcomes of the scan: an error return, a use of something this model leaves out (among them an
      index outside the 64 entries of the tables), or success. */
  datatype Outcome<T> = Rejected(code: int, position: int) | Outside | Done(value: T)

  /** The qualifier loop from the start of f, which is at `index` of the format. */
  function Qualifiers(f: string, index: nat, c: Conversion, positional: bool): (r: Outcome<(Conversion, nat)>)
    ensures r.Done? ==> index <= r.value.1 <= index + |f|
    ensures r.Rejected? ==> r.code == TRIO_EINVAL && r.position >= 0
  {
    if f == [] || !IsQualifier(f[0]) then Done((c, index))
    else
      var (q, n) := Lex(f, c.dots);
      if q.Invalid? then Rejected(TRIO_EINVAL, index + q.at)
      else if q.Unmodelled? then Outside
      else if SizeConflict(q, c.flags) then Rejected(TRIO_EINVAL, index + n)
      else Qualifiers(f[n..], index + n, Qualify(q, c, positional), positional)
  }

  /** The tables of TrioPreprocess: the entries, how often each position is used, and the entry that
      each position is read into. `owner` is the inverse of `indices` for the proofs: the position
      under which an entry was installed. */
  datatype Table = Table(
    entries: seq<Param>, owner: seq<int>, usedEntries: seq<int>, indices: seq<int>,
    maxParam: int, parameterPosition: int)

  function ZeroArray(): (r: seq<int>)
    ensures |r| == MAX_PARAMETERS && forall i :: 0 <= i < MAX_PARAMETERS ==> r[i] == 0
  {
    seq(MAX_PARAMETERS, _ => 0)
  }

  const EMPTY_TABLE := Table([], [], ZeroArray(), ZeroArray(), -1, 0)

  predicate InRange(t: Table, position: int) {
    0 <= position < MAX_PARAMETERS == |t.usedEntries| == |t.indices| && |t.entries| < MAX_PARAMETERS
  }

  /** Counts a use of the position and appends the entry that it is read into. */
  function Install(t: Table, position: int, entry: Param): Table
    requires InRange(t, position)
  {
    t.(usedEntries := t.usedEntries[position := t.usedEntries[position] + 1],
       indices := t.indices[position := |t.entries|],
       entries := t.entries + [entry],
       owner := t.owner + [position])
  }

  /** Installs the entry of a star, when there was one. */
  function InstallStar(t: Table, starred: bool, position: int): (r: Outcome<Table>)
    ensures !r.Rejected?
  {
    if !starred then Done(t)
    else if !InRange(t, position) then Outside
    else Done(Install(t, position, PARAMETER_ENTRY))
  }

  /** The number that an entry keeps: the index of the star's entry, or the literal. */
  function Stored(t: Table, starred: bool, number: int): int {
    if starred then |t.entries| else number
  }

  /** The entries of the stars of a conversion, in the order width, precision, base. */
  function InstallStars(t: Table, c: Conversion): (r: Outcome<Table>)
    ensures !r.Rejected?
  {
    var t1 := InstallStar(t, c.widthParameter, c.width);
    if !t1.Done? then t1
    else
      var t2 := InstallStar(t1.value, c.precisionParameter, c.precision);
      if !t2.Done? then t2 else InstallStar(t2.value, c.baseParameter, c.base)
  }

  /** The numbers of the conversion with the indices of these entries in place of positions. */
  function StoredNumbers(t: Table, c: Conversion): (int, int, int) {
    var n := |t.entries|;
    var afterWidth := if c.widthParameter then n + 1 else n;
    var afterPrecision := if c.precisionParameter then afterWidth + 1 else afterWidth;
    (if c.widthParameter then n else c.width,
     if c.precisionParameter then afterWidth else c.precision,
     if c.baseParameter then afterPrecision else c.base)
  }

  /** After the qualifiers: the entries of a conversion, whose letter is at the start of f. */
  function Conclude(f: string, index: nat, c: Conversion, positional: bool, t: Table): (r: Outcome<Table>)
    ensures r.Rejected? ==> r.code == TRIO_EINVAL && r.position >= 0
  {
    var starred := InstallStars(t, c);
    if !starred.Done? then starred
    else if !InRange(starred.value, c.currentParam) then Outside
    else
      var letter := LexLetter(f, c.flags);
      if letter.NoLetter? then Rejected(TRIO_EINVAL, index + 1)
      else if letter.UnmodelledLetter? then Outside
      else
        var entry := MakeEntry(c, letter, StoredNumbers(t, c), index + 1);
        var installed := Install(starred.value, c.currentParam, entry);
        Done(installed.(maxParam := c.maxParam,
                        parameterPosition := c.parameterPosition + (if positional then 0 else 1)))
  }

  function MakeEntry(c: Conversion, letter: Letter, numbers: (int, int, int), indexAfter: nat): Param
    requires letter.Letter?
  {
    var base := if letter.fixedBase.Some? then letter.fixedBase.value
                else if numbers.2 == NO_BASE then BASE_DECIMAL else numbers.2;
    Param(letter.kind, letter.flags, c.widthParameter, c.precisionParameter,
          c.baseParameter && letter.fixedBase == None, numbers.0, numbers.1, base, c.escaping, indexAfter, NOTHING)
  }

  function FirstConversion(t: Table, currentParam: int): Conversion {
    Conversion(FLAGS_NEW, false, false, false, NO_WIDTH, NO_PRECISION, NO_BASE, EscapeNone, 0,
               currentParam, t.parameterPosition, Max(t.maxParam, currentParam))
  }

  /** The codes with which TrioPreprocess rejects a format. */
  predicate IsError(code: int, position: int) {
    code in {TRIO_EINVAL, TRIO_ETOOMANY, TRIO_EDBLREF, TRIO_EGAP} && position >= 0
  }

  /** A whole conversion; f is the format after the percent sign, at `index`. The result is the
      table and the index after the letter. */
  function CompileConversion(f: string, index: nat, t: Table): (r: Outcome<(Table, nat)>)
    ensures r.Done? ==> index < r.value.1 <= index + |f|
    ensures r.Rejected? ==> IsError(r.code, r.position)
  {
    var position := GetPosition(f);
    var positional := position.0 != NO_POSITION;
    var currentParam := if positional then position.0 else t.parameterPosition;
    var start := index + position.1;
    if currentParam >= MAX_PARAMETERS then Rejected(TRIO_ETOOMANY, start)
    else if currentParam < 0 then Outside
    else
      var qualified := Qualifiers(f[position.1..], start, FirstConversion(t, currentParam), positional);
      match qualified
      case Rejected(code, at) => Rejected(code, at)
      case Outside => Outside
      case Done(scanned) =>
        match Conclude(f[scanned.1 - index..], scanned.1, scanned.0, positional, t)
        case Rejected(code, at) => Rejected(code, at)
        case Outside => Outside
        case Done(table) => Done((table, scanned.1 + 1))
  }

  /** The scanning loop from an index of the format on. */
  function CompileFrom(format: string, index: nat, t: Table): (r: Outcome<Table>)
    requires index <= |format|
    ensures r.Rejected? ==> IsError(r.code, r.position)
    decreases |format| - index
  {
    if index == |format| then Done(t)
    else if format[index] >= 128 as char then Outside
    else if format[index] != '%' then CompileFrom(format, index + 1, t)
    else if index + 1 < |format| && format[index + 1] == '%' then CompileFrom(format, index + 2, t)
    else
      match CompileConversion(format[index + 1..], index + 1, t)
      case Rejected(code, at) => Rejected(code, at)
      case Outside => Outside
      case Done(compiled) => CompileFrom(format, compiled.1, compiled.0)
  }

  /** Table t continues table s: its entries were installed after those of s. */
  ghost predicate Extends(s: Table, t: Table) {
    |s.entries| == |s.owner| && |t.entries| == |t.owner| && s.entries <= t.entries && s.owner <= t.owner
  }

  lemma ExtendsTransitive(s: Table, t: Table, u: Table)
    requires Extends(s, t) && Extends(t, u)
    ensures Extends(s, u)
  {
  }

  lemma ConcludeExtends(f: string, index: nat, c: Conversion, positional: bool, t: Table)
    requires |t.entries| == |t.owner| && Conclude(f, index, c, positional, t).Done?
    ensures Extends(t, Conclude(f, index, c, positional, t).value)
  {
  }

  lemma {:induction false} CompileExtends(format: string, index: nat, t: Table)
    requires index <= |format| && |t.entries| == |t.owner|
    ensures var done := CompileFrom(format, index, t);
            done.Done? ==> Extends(t, done.value)
    decreases |format| - index
  {
    if index < |format| && format[index] < 128 as char {
      if format[index] != '%' {
        CompileExtends(format, index + 1, t);
      } else if index + 1 < |format| && format[index + 1] == '%' {
        CompileExtends(format, index + 2, t);
      } else {
        var compiled := CompileConversion(format[index + 1..], index + 1, t);
        if compiled.Done? {
          ConversionExtends(format[index + 1..], index + 1, t);
          CompileExtends(format, compiled.value.1, compiled.value.0);
        }
      }
    }
  }

  lemma ConversionExtends(f: string, index: nat, t: Table)
    requires |t.entries| == |t.owner| && CompileConversion(f, index, t).Done?
    ensures Extends(t, CompileConversion(f, index, t).value.0)
  {
    hide GetPosition, Qualifiers, Conclude;
    var position := GetPosition(f);
    var positional := position.0 != NO_POSITION;
    var currentParam := if positional then position.0 else t.parameterPosition;
    var scanned := Qualifiers(f[position.1..], index + position.1, FirstConversion(t, currentParam), positional).value;
    ConcludeExtends(f[scanned.1 - index..], scanned.1, scanned.0, positional, t);
  }

  /** The check before the arguments are read: each position up to the largest is used once. */
  function CheckFrom(t: Table, num: nat): (r: Outcome<Table>)
    ensures r.Done? ==> r.value == t
    ensures r.Rejected? ==> IsError(r.code, r.position)
    decreases t.maxParam - num
  {
    if num > t.maxParam then Done(t)
    else if num >= |t.usedEntries| then Outside
    else if t.usedEntries[num] == 1 then CheckFrom(t, num + 1)
    else Rejected(if t.usedEntries[num] == 0 then TRIO_EGAP else TRIO_EDBLREF, num)
  }

  /** The largest position in use. */
  function Largest(owner: seq<int>): (r: int)
    ensures r >= -1 && forall p :: 0 <= p < |owner| ==> owner[p] <= r
    ensures r == -1 || r in owner
  {
    if owner == [] then -1 else Max(owner[|owner| - 1], Largest(owner[..|owner| - 1]))
  }

  /** TrioPreprocess succeeds when each position up to maxParam is used once. */
  function Accept(format: string): (r: Outcome<Table>)
    ensures r.Done? ==> |r.value.owner| == |r.value.entries|
    ensures r.Rejected? ==> IsError(r.code, r.position)
  {
    CompileExtends(format, 0, EMPTY_TABLE);
    var scanned := CompileFrom(format, 0, EMPTY_TABLE);
    if scanned.Done? then CheckFrom(scanned.value, 0) else scanned
  }

  /** No entry has a position beyond maxParam, whose argument would not be read. */
  predicate AllRead(t: Table) {
    Largest(t.owner) <= t.maxParam
  }

  /** A table that can be run. An entry that was never read has no meaning in C when it is printed. */
  function Compile(format: string): (r: Outcome<Table>)
    ensures r.Done? ==> |r.value.owner| == |r.value.entries|
    ensures r.Rejected? ==> IsError(r.code, r.position)
  {
    var accepted := Accept(format);
    if accepted.Done? && !AllRead(accepted.value) then Outside else accepted
  }

  /** What va_arg leaves in an entry. */
  function ReadSlot(entry: Param, s: Slot): Slot {
    match entry.kind
    case FormatString => Slot(0, s.text)
    case FormatParameter => Slot(IntSlot(s) % TWO64, None)
    case _ => Slot(if entry.flags.quad || entry.flags.long then s.bits else IntSlot(s) % TWO64, None)
  }

  /** The table after the arguments are read. */
  function Loaded(t: Table, args: Args): (es: seq<Param>)
    requires |t.owner| == |t.entries|
    ensures |es| == |t.entries|
  {
    seq(|t.entries|, p requires 0 <= p < |t.entries| =>
      t.entries[p].(data := ReadSlot(t.entries[p], args(t.owner[p]))))
  }
}
