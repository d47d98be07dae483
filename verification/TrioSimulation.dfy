/** The compiled table, executed, prints what the direct interpreter prints. */
module TrioSimulation {
  import opened CText
  import opened TrioNumber
  import opened TrioLexer
  import opened TrioCompile
  import opened TrioInterpreter

  /** The scan's variables and the interpreter's at the same place. */
  ghost predicate Related(c: Conversion, d: Direct) {
    && c.flags == d.flags && c.escaping == d.escaping && c.dots == d.dots
    && c.currentParam == c.parameterPosition == d.next <= c.maxParam
    && (d.late.Some? ==> d.width.Argument?)
    && SameNumber(c.widthParameter, c.width, WidthSource(d, AsCompiled))
    && SameNumber(c.precisionParameter, c.precision, d.precision)
    && SameNumber(c.baseParameter, c.base, d.base)
    && (c.dots == 0 ==> !c.precisionParameter) && (c.dots <= 1 ==> !c.baseParameter)
  }

  predicate SameNumber(parameter: bool, number: int, s: Source) {
    s == if parameter then Argument(number) else Literal(number)
  }

  /** The precision is read after the first dot and the base after the second. */
  lemma LexOrder(f: string, dots: nat)
    requires f != [] && IsQualifier(f[0])
    ensures var q := Lex(f, dots).0;
            && (q.Precision? || q.PrecisionStar? || q.NoPrecision? ==> dots == 0)
            && (q.Base? || q.BaseStar? ==> dots == 1)
  {
  }

  lemma LexNoPosition(f: string, dots: nat)
    requires f != [] && IsQualifier(f[0]) && '$' !in f
    ensures var q := Lex(f, dots).0;
            && (q.WidthStar? || q.PrecisionStar? || q.BaseStar? ==> q.position == NO_POSITION)
  {
    if |f| > 1 {
      NoDollarNoPosition(f[1..]);
      if |f| > 2 {
        NoDollarNoPosition(f[2..]);
      }
    }
  }

  lemma StarRelated(q: Qualifier, c: Conversion, d: Direct)
    requires Related(c, d) && (q.WidthStar? || q.PrecisionStar? || q.BaseStar?) && q.position == NO_POSITION
    requires q.PrecisionStar? ==> c.dots == 0
    requires q.BaseStar? ==> c.dots == 1
    ensures Related(Qualify(q, c, false), Take(q, d))
  {
    hide FlagsAfter;
    if q.WidthStar? {
      hide StarPrecision, StarBase;
      assert Qualify(q, c, false) == StarWidth(c.(flags := FlagsAfter(q, c.flags)), NO_POSITION, false);
    } else if q.PrecisionStar? {
      hide StarWidth, StarBase;
      assert Qualify(q, c, false) == StarPrecision(c.(flags := FlagsAfter(q, c.flags), dots := 1), NO_POSITION, false);
    } else {
      hide StarWidth, StarPrecision;
      assert Qualify(q, c, false) == StarBase(c.(flags := FlagsAfter(q, c.flags), dots := 2), NO_POSITION, false);
    }
  }

  lemma QualifyRelated(q: Qualifier, c: Conversion, d: Direct)
    requires Related(c, d)
    requires q.WidthStar? || q.PrecisionStar? || q.BaseStar? ==> q.position == NO_POSITION
    requires q.Precision? || q.PrecisionStar? || q.NoPrecision? ==> c.dots == 0
    requires q.Base? || q.BaseStar? ==> c.dots == 1
    ensures Related(Qualify(q, c, false), Take(q, d))
  {
    if q.WidthStar? || q.PrecisionStar? || q.BaseStar? {
      hide Related, Qualify, Take;
      RelatedDots(c, d);
      StarRelated(q, c, d);
    } else {
      hide FlagsAfter, StarWidth, StarPrecision, StarBase;
    }
  }

  lemma RelatedDots(c: Conversion, d: Direct)
    requires Related(c, d)
    ensures c.dots == d.dots
  {
  }

  lemma {:induction false} QualifiersRelated(f: string, index: nat, c: Conversion, d: Direct)
    requires Related(c, d) && '$' !in f
    ensures var scanned, taken := Qualifiers(f, index, c, false), TakeAll(f, index, d);
            && (scanned.Done? <==> taken.Some?)
            && (scanned.Done? ==> scanned.value.1 == taken.value.1 && Related(scanned.value.0, taken.value.0))
    decreases |f|
  {
    hide Lex, Qualify, Take, IsQualifier;
    if f != [] && IsQualifier(f[0]) {
      var (q, n) := Lex(f, c.dots);
      LexOrder(f, c.dots);
      LexNoPosition(f, c.dots);
      if !q.Invalid? && !q.Unmodelled? && !SizeConflict(q, c.flags) {
        QualifyRelated(q, c, d);
        QualifiersRelated(f[n..], index + n, Qualify(q, c, false), Take(q, d));
      }
    }
  }

  function Stars(c: Conversion): nat {
    (if c.widthParameter then 1 else 0) + (if c.precisionParameter then 1 else 0) + (if c.baseParameter then 1 else 0)
  }

  /** What a conversion adds to the table: the entries of its stars, each under the position of its
      number, and then its own entry. */
  lemma ConcludeShape(f: string, index: nat, c: Conversion, positional: bool, t: Table)
    requires |t.entries| == |t.owner| && Conclude(f, index, c, positional, t).Done?
    ensures var u, n, k := Conclude(f, index, c, positional, t).value, |t.entries|, Stars(c);
            var (width, precision, base) := StoredNumbers(t, c);
            var letter := LexLetter(f, c.flags);
            && |u.entries| == |u.owner| == n + k + 1 && letter.Letter? && f != []
            && (forall p :: n <= p < n + k ==> u.entries[p] == PARAMETER_ENTRY)
            && u.entries[n + k] == MakeEntry(c, letter, (width, precision, base), index + 1)
            && u.owner[n + k] == c.currentParam
            && (!c.widthParameter ==> width == c.width)
            && (!c.precisionParameter ==> precision == c.precision)
            && (!c.baseParameter ==> base == c.base)
            && (c.widthParameter ==> n <= width < n + k && u.owner[width] == c.width)
            && (c.precisionParameter ==> n <= precision < n + k && u.owner[precision] == c.precision)
            && (c.baseParameter ==> n <= base < n + k && u.owner[base] == c.base)
            && u.maxParam == c.maxParam
            && u.parameterPosition == c.parameterPosition + (if positional then 0 else 1)
  {
  }

  lemma {:induction false} SkipTo(es: seq<Param>, n: nat, k: nat)
    requires n + k < |es| && es[n + k].kind != FormatParameter
    requires forall p :: n <= p < n + k ==> es[p].kind == FormatParameter
    ensures SkipParameters(es, n) == n + k
    decreases k
  {
    if k > 0 {
      SkipTo(es, n + 1, k - 1);
    }
  }

  /** An int survives the trip through a 64-bit word. */
  lemma IntThroughWord(s: Slot)
    ensures ToInt32(IntSlot(s) % TWO64) == IntSlot(s)
  {
  }

  /** The entry of a star gives the value of the argument it was installed for. */
  lemma StarValue(u: Table, args: Args, at: int, number: int)
    requires |u.entries| == |u.owner| && 0 <= at < |u.entries|
    requires u.entries[at] == PARAMETER_ENTRY && u.owner[at] == number
    ensures Number(Loaded(u, args), true, at) == Some(IntSlot(args(number)))
  {
    IntThroughWord(args(number));
  }

  lemma NumbersAgree(es: seq<Param>, e: Param, c: Conversion, d: Direct, args: Args, letter: Letter,
                     numbers: (int, int, int), index: nat)
    requires letter.Letter? && letter.flags.precision == c.flags.precision
    requires e.(data := NOTHING) == MakeEntry(c, letter, numbers, index)
    requires e.data == Value(letter.kind, letter.flags, args(d.next))
    requires c.escaping == d.escaping && c.baseParameter == d.base.Argument?
    requires !c.baseParameter ==> d.base == Literal(numbers.2)
    requires c.baseParameter ==> numbers.2 >= 0
    requires Number(es, c.widthParameter, numbers.0) == Some(Worth(WidthSource(d, AsCompiled), args))
    requires Number(es, c.precisionParameter, numbers.1) == Some(Worth(d.precision, args))
    requires Number(es, c.baseParameter, numbers.2) == Some(Worth(d.base, args))
    ensures EntryCall(es, e) == Some(DirectCall(letter, d, args, AsCompiled))
  {
  }

  /** One conversion: the compiled entry is printed with what the interpreter gathers. */
  lemma EntryPrints(f: string, index: nat, c: Conversion, d: Direct, args: Args, t: Table, u: Table)
    requires |t.entries| == |t.owner| && Conclude(f, index, c, false, t).Done?
    requires Related(c, d) && Extends(Conclude(f, index, c, false, t).value, u)
    ensures var at := |t.entries| + Stars(c);
            && at < |u.entries|
            && LexLetter(f, c.flags).Letter?
            && EntryCall(Loaded(u, args), Loaded(u, args)[at])
               == Some(DirectCall(LexLetter(f, c.flags), d, args, AsCompiled))
  {
    hide Conclude, LexLetter, StoredNumbers;
    ConcludeShape(f, index, c, false, t);
    var v := Conclude(f, index, c, false, t).value;
    var (width, precision, base) := StoredNumbers(t, c);
    var letter := LexLetter(f, c.flags);
    var es, at := Loaded(u, args), |t.entries| + Stars(c);
    assert u.entries[at] == v.entries[at] && u.owner[at] == v.owner[at];
    if c.widthParameter {
      assert u.entries[width] == v.entries[width];
      StarValue(u, args, width, c.width);
    }
    if c.precisionParameter {
      assert u.entries[precision] == v.entries[precision];
      StarValue(u, args, precision, c.precision);
    }
    if c.baseParameter {
      assert u.entries[base] == v.entries[base];
      StarValue(u, args, base, c.base);
    }
    NumbersAgree(es, es[at], c, d, args, letter, (width, precision, base), index + 1);
  }

  /** At the start of a conversion the counters agree. */
  lemma StartRelated(t: Table)
    requires t.maxParam == t.parameterPosition - 1
    ensures Related(FirstConversion(t, t.parameterPosition), DirectStart(t.parameterPosition))
  {
  }

  /** The qualifiers of one conversion, scanned and interpreted. */
  lemma ScanSimulates(f: string, index: nat, t: Table, t': Table, next: nat)
    returns (c: Conversion, d: Direct)
    requires '$' !in f && t.maxParam == t.parameterPosition - 1
    requires CompileConversion(f, index, t) == Done((t', next))
    ensures next > index && TakeAll(f, index, DirectStart(t.parameterPosition)) == Some((d, next - 1))
    ensures next - 1 - index <= |f| && Related(c, d) && c.maxParam == c.currentParam
    ensures Conclude(f[next - 1 - index..], next - 1, c, false, t) == Done(t')
  {
    hide Qualifiers, TakeAll, Conclude, GetPosition;
    NoDollarNoPosition(f);
    assert f[0..] == f;
    StartRelated(t);
    var c0, d0 := FirstConversion(t, t.parameterPosition), DirectStart(t.parameterPosition);
    QualifiersRelated(f, index, c0, d0);
    MaxIsCurrent(f, index, c0);
    c := Qualifiers(f, index, c0, false).value.0;
    d := TakeAll(f, index, d0).value.0;
  }

  /** One conversion of the scan against one of the interpreter. */
  lemma ConversionSimulates(format: string, index: nat, t: Table, t': Table, next: nat, u: Table, args: Args)
    returns (d: Direct, letter: Letter)
    requires index <= |format| && '$' !in format
    requires |t.entries| == |t.owner| && t.maxParam == t.parameterPosition - 1
    requires CompileConversion(format[index..], index, t) == Done((t', next)) && Extends(t', u)
    ensures ConversionAt(format, index, t.parameterPosition) == Some((d, letter, next)) && letter.Letter?
    ensures t'.maxParam == t'.parameterPosition - 1 && t'.parameterPosition == d.next + 1
    ensures |t.entries| < |t'.entries| == |t'.owner| && Extends(t, t')
    ensures var es := Loaded(u, args);
            var at := SkipParameters(es, |t.entries|);
            && at == |t'.entries| - 1 < |es| && es[at].indexAfterSpecifier == next
            && EntryCall(es, es[at]) == Some(DirectCall(letter, d, args, AsCompiled))
  {
    hide Qualifiers, TakeAll, Conclude, LexLetter, EntryCall, DirectCall, CompileConversion, Related;
    var f := format[index..];
    var c;
    c, d := ScanSimulates(f, index, t, t', next);
    var rest := f[next - 1 - index..];
    assert rest == format[next - 1..];
    letter := LexLetter(rest, d.flags);
    RelatedFacts(c, d);
    ConcludeShape(rest, next - 1, c, false, t);
    ConcludeExtends(rest, next - 1, c, false, t);
    EntryPrints(rest, next - 1, c, d, args, t, u);
    SkipStars(t, t', u, c, args);
  }

  lemma RelatedFacts(c: Conversion, d: Direct)
    requires Related(c, d)
    ensures c.flags == d.flags && c.parameterPosition == c.currentParam == d.next
  {
  }

  lemma SkipStars(t: Table, t': Table, u: Table, c: Conversion, args: Args)
    requires Extends(t', u) && |t'.entries| == |t.entries| + Stars(c) + 1
    requires forall p :: |t.entries| <= p < |t'.entries| - 1 ==> t'.entries[p] == PARAMETER_ENTRY
    requires t'.entries[|t'.entries| - 1].kind != FormatParameter
    ensures var es, at := Loaded(u, args), |t'.entries| - 1;
            && SkipParameters(es, |t.entries|) == at
            && es[at].indexAfterSpecifier == t'.entries[at].indexAfterSpecifier
  {
    var es := Loaded(u, args);
    forall p | |t.entries| <= p < |t'.entries| ensures es[p].kind == t'.entries[p].kind {
      assert u.entries[p] == t'.entries[p];
    }
    SkipTo(es, |t.entries|, Stars(c));
  }

  /** Without positions the largest position is always the current one. */
  lemma {:induction false} MaxIsCurrent(f: string, index: nat, c: Conversion)
    requires '$' !in f && c.maxParam == c.currentParam == c.parameterPosition && Qualifiers(f, index, c, false).Done?
    ensures var r := Qualifiers(f, index, c, false).value.0;
            r.maxParam == r.currentParam == r.parameterPosition
    decreases |f|
  {
    hide Lex, IsQualifier;
    if f != [] && IsQualifier(f[0]) {
      var (q, n) := Lex(f, c.dots);
      LexNoPosition(f, c.dots);
      MaxIsCurrent(f[n..], index + n, Qualify(q, c, false));
    }
  }

  /** The rest of the format, from matching places on. */
  lemma {:induction false} Simulates(format: string, index: nat, t: Table, args: Args)
    requires '$' !in format && index <= |format|
    requires |t.entries| == |t.owner| && t.maxParam == t.parameterPosition - 1
    requires CompileFrom(format, index, t).Done?
    ensures var u := CompileFrom(format, index, t).value;
            && Extends(t, u) && u.maxParam == u.parameterPosition - 1
            && EngineCalls(format, index, |t.entries|, Loaded(u, args))
               == DirectCalls(format, index, args, t.parameterPosition, AsCompiled)
            && EngineCalls(format, index, |t.entries|, Loaded(u, args)).Some?
    decreases |format| - index
  {
    hide CompileConversion, SkipParameters, EntryCall, DirectCall, ConversionAt;
    if index < |format| {
      if format[index] != '%' {
        Simulates(format, index + 1, t, args);
      } else if index + 1 < |format| && format[index + 1] == '%' {
        Simulates(format, index + 2, t, args);
      } else {
        var f := format[index + 1..];
        var (t', next) := CompileConversion(f, index + 1, t).value;
        var u := CompileFrom(format, index, t).value;
        ConversionCounts(f, index + 1, t);
        CompileExtends(format, next, t');
        var d, letter := ConversionSimulates(format, index + 1, t, t', next, u, args);
        Simulates(format, next, t', args);
      }
    }
  }

  lemma ConversionCounts(f: string, index: nat, t: Table)
    requires |t.entries| == |t.owner| && CompileConversion(f, index, t).Done?
    ensures |CompileConversion(f, index, t).value.0.entries| == |CompileConversion(f, index, t).value.0.owner|
  {
    ConversionExtends(f, index, t);
  }

  /** Their texts agree as well, and so do the arguments taken. */
  lemma {:induction false} TextSimulates(format: string, index: nat, t: Table, args: Args, loc: Locale)
    requires '$' !in format && index <= |format| && loc.Valid()
    requires |t.entries| == |t.owner| && t.maxParam == t.parameterPosition - 1
    requires CompileFrom(format, index, t).Done?
    ensures var u := CompileFrom(format, index, t).value;
            && Extends(t, u)
            && Interpret(format, index, args, t.parameterPosition, AsCompiled, loc)
               == (Execute(format, index, |t.entries|, Loaded(u, args), loc), u.parameterPosition)
    decreases |format| - index
  {
    hide CompileConversion, SkipParameters, EntryCall, DirectCall, ConversionAt, CallText;
    Simulates(format, index, t, args);
    if index < |format| {
      if format[index] != '%' {
        TextSimulates(format, index + 1, t, args, loc);
      } else if index + 1 < |format| && format[index + 1] == '%' {
        TextSimulates(format, index + 2, t, args, loc);
      } else {
        var f := format[index + 1..];
        var (t', next) := CompileConversion(f, index + 1, t).value;
        var u := CompileFrom(format, index, t).value;
        ConversionCounts(f, index + 1, t);
        CompileExtends(format, next, t');
        var d, letter := ConversionSimulates(format, index + 1, t, t', next, u, args);
        TextSimulates(format, next, t', args, loc);
      }
    }
  }

  // ----- The two readings of a literal width after a star

  lemma {:induction false} TidyReadsInOrder(format: string, index: nat, args: Args, next: int, loc: Locale)
    requires index <= |format| && loc.Valid() && Tidy(format, index, next)
    ensures Interpret(format, index, args, next, AsCompiled, loc) == Interpret(format, index, args, next, InOrder, loc)
    ensures DirectCalls(format, index, args, next, AsCompiled) == DirectCalls(format, index, args, next, InOrder)
    decreases |format| - index
  {
    hide ConversionAt, CallText;
    if index < |format| {
      if format[index] != '%' {
        TidyReadsInOrder(format, index + 1, args, next, loc);
      } else if index + 1 < |format| && format[index + 1] == '%' {
        TidyReadsInOrder(format, index + 2, args, next, loc);
      } else {
        var conversion := ConversionAt(format, index + 1, next);
        if conversion.Some? {
          TidyReadsInOrder(format, conversion.value.2, args, conversion.value.0.next + 1, loc);
        }
      }
    }
  }

  /** Arguments that are 0 but for one. */
  function Probe(position: int): Args {
    n => Slot(if n == position then 1 else 0, None)
  }

  /** In a format that is not tidy some conversion is printed with different widths in the two readings,
      when the argument that its literal width names is the only one that is not 0. */
  lemma {:induction false} UntidyReadsOtherwise(format: string, index: nat, next: int) returns (position: int)
    requires index <= |format| && !Tidy(format, index, next)
    ensures var args := Probe(position);
            DirectCalls(format, index, args, next, AsCompiled).Some? ==>
              DirectCalls(format, index, args, next, AsCompiled) != DirectCalls(format, index, args, next, InOrder)
    decreases |format| - index
  {
    hide TakeAll, LexLetter;
    if format[index] != '%' {
      position := UntidyReadsOtherwise(format, index + 1, next);
    } else if index + 1 < |format| && format[index + 1] == '%' {
      position := UntidyReadsOtherwise(format, index + 2, next);
    } else {
      var (d, letter, after) := ConversionAt(format, index + 1, next).value;
      if NamesOwn(d) {
        position := UntidyReadsOtherwise(format, after, d.next + 1);
        var args := Probe(position);
        var a, b := DirectCall(letter, d, args, AsCompiled), DirectCall(letter, d, args, InOrder);
        var r, s := DirectCalls(format, after, args, d.next + 1, AsCompiled),
                    DirectCalls(format, after, args, d.next + 1, InOrder);
        assert r.Some? && s.Some? ==> ([a] + r.value)[1..] == r.value && ([b] + s.value)[1..] == s.value;
      } else {
        position := d.late.value;
        var args := Probe(position);
        LateAfterStar(format[index + 1..], index + 1, DirectStart(next));
        LateWidth(letter, d);
        var a, b := DirectCall(letter, d, args, AsCompiled), DirectCall(letter, d, args, InOrder);
        var r, s := DirectCalls(format, after, args, d.next + 1, AsCompiled),
                    DirectCalls(format, after, args, d.next + 1, InOrder);
        assert r.Some? && s.Some? ==> ([a] + r.value)[0] != ([b] + s.value)[0];
      }
    }
  }

  /** Only a width after a star is late. */
  lemma {:induction false} LateAfterStar(f: string, index: nat, d: Direct)
    requires d.late.Some? ==> d.width.Argument?
    ensures var taken := TakeAll(f, index, d); taken.Some? && taken.value.0.late.Some? ==> taken.value.0.width.Argument?
    decreases |f|
  {
    hide Lex, IsQualifier, SizeConflict;
    if f != [] && IsQualifier(f[0]) {
      var (q, n) := Lex(f, d.dots);
      LateAfterStar(f[n..], index + n, Take(q, d));
    }
  }

  lemma LateWidth(letter: Letter, d: Direct)
    requires letter.Letter? && !NamesOwn(d) && d.width.Argument?
    ensures var args := Probe(d.late.value);
            DirectCall(letter, d, args, AsCompiled).width == 1 && DirectCall(letter, d, args, InOrder).width == 0
  {
  }

  // ----- The engine and the direct interpreter

  /** For every accepted format without explicit positions, running the compiled table prints what the
      direct interpreter prints that takes a literal width after a star for a position, and reads as many
      arguments as it. */
  lemma CompiledRunsDirect(format: string, args: Args, loc: Locale)
    requires '$' !in format && loc.Valid() && Compile(format).Done?
    ensures var t := Compile(format).value;
            Interpret(format, 0, args, 0, AsCompiled, loc)
            == (Execute(format, 0, 0, Loaded(t, args), loc), t.maxParam + 1)
  {
    Simulates(format, 0, EMPTY_TABLE, args);
    TextSimulates(format, 0, EMPTY_TABLE, args, loc);
  }

  /** For every tidy one it prints what the interpreter prints that takes the arguments in order. */
  lemma CompiledRunsInOrder(format: string, args: Args, loc: Locale)
    requires '$' !in format && loc.Valid() && Compile(format).Done? && Tidy(format, 0, 0)
    ensures var t := Compile(format).value;
            Interpret(format, 0, args, 0, InOrder, loc)
            == (Execute(format, 0, 0, Loaded(t, args), loc), t.maxParam + 1)
  {
    CompiledRunsDirect(format, args, loc);
    TidyReadsInOrder(format, 0, args, 0, loc);
  }

  /** The engine gives every conversion what the arguments in order give it, whatever the arguments,
      exactly when the format is tidy. */
  lemma InOrderExactlyWhenTidy(format: string)
    requires '$' !in format && Compile(format).Done?
    ensures Tidy(format, 0, 0)
            <==> forall args: Args :: EngineCalls(format, 0, 0, Loaded(Compile(format).value, args))
                                      == DirectCalls(format, 0, args, 0, InOrder)
  {
    if Tidy(format, 0, 0) {
      forall args: Args ensures EngineCalls(format, 0, 0, Loaded(Compile(format).value, args))
                                == DirectCalls(format, 0, args, 0, InOrder)
      {
        Simulates(format, 0, EMPTY_TABLE, args);
        TidyReadsInOrder(format, 0, args, 0, C_LOCALE);
      }
    } else {
      var position := UntidyReadsOtherwise(format, 0, 0);
      var args := Probe(position);
      Simulates(format, 0, EMPTY_TABLE, args);
      assert EngineCalls(format, 0, 0, Loaded(Compile(format).value, args))
          != DirectCalls(format, 0, args, 0, InOrder);
    }
  }
}
