/** A literal width after a star, as in "%*2d": the compiler takes it for the position of the argument
    that holds the width. Two formats that do so and pass all checks. */
module TrioStarWidth {
  import opened CText
  import opened Numerals
  import opened TrioNumber
  import opened TrioWriter
  import opened TrioLexer
  import opened TrioCompile
  import opened TrioInterpreter
  import opened TrioSimulation
  import opened TrioFormatter
  import opened TrioPositions

  /** A star, a digit and a letter, with a minus sign in front or not. */
  predicate IsStarDigit(f: string, left: bool, n: nat) {
    var k := if left then 1 else 0;
    && n < 10 && |f| >= k + 3 && '$' !in f && (left ==> f[0] == '-')
    && f[k] == '*' && f[k + 1] == DigitChar(n, false) && f[k + 2] in {'c', 'd'}
  }

  lemma LexStarDigit(f: string, n: nat)
    requires IsStarDigit(f, false, n)
    ensures Lex(f, 0) == (WidthStar(NO_POSITION), 1) && Lex(f[1..], 0) == (Width(n == 0, n), 1)
    ensures IsQualifier(f[0]) && IsQualifier(f[1]) && !IsQualifier(f[2])
  {
    hide StrToLong, GetPosition;
    NoDollarNoPosition(f[1..]);
    assert Decimal(n) == [f[1]];
    StrToLongOfDecimal(n, f[2..]);
    assert Decimal(n) + f[2..] == f[1..];
  }

  /** One qualifier more, scanned and interpreted. */
  lemma OneQualifier(f: string, index: nat, q: Qualifier, c: Conversion, d: Direct)
    requires f != "" && IsQualifier(f[0]) && c.dots == d.dots && Lex(f, c.dots) == (q, 1)
    requires q.WidthStar? || q.Width?
    ensures Qualifiers(f, index, c, false) == Qualifiers(f[1..], index + 1, Qualify(q, c, false), false)
    ensures TakeAll(f, index, d) == TakeAll(f[1..], index + 1, Take(q, d))
    ensures Qualify(q, c, false).dots == c.dots && Take(q, d).dots == d.dots
  {
    hide Lex, IsQualifier, FlagsAfter;
  }

  lemma NoQualifier(f: string, index: nat, c: Conversion, d: Direct)
    requires f != "" && !IsQualifier(f[0])
    ensures Qualifiers(f, index, c, false) == Done((c, index)) && TakeAll(f, index, d) == Some((d, index))
  {
    hide IsQualifier;
  }

  /** The qualifiers of such a conversion, scanned and interpreted. */
  lemma StarDigitQualifiers(f: string, index: nat, n: nat, c: Conversion, d: Direct)
    requires IsStarDigit(f, false, n) && c.dots == d.dots == 0
    ensures Qualifiers(f, index, c, false)
            == Done((Qualify(Width(n == 0, n), Qualify(WidthStar(NO_POSITION), c, false), false), index + 2))
    ensures TakeAll(f, index, d) == Some((Take(Width(n == 0, n), Take(WidthStar(NO_POSITION), d)), index + 2))
  {
    hide Lex, IsQualifier, Qualify, Take, Qualifiers, TakeAll;
    LexStarDigit(f, n);
    var c1, d1 := Qualify(WidthStar(NO_POSITION), c, false), Take(WidthStar(NO_POSITION), d);
    OneQualifier(f, index, WidthStar(NO_POSITION), c, d);
    OneQualifier(f[1..], index + 1, Width(n == 0, n), c1, d1);
    assert f[1..][1..] == f[2..];
    NoQualifier(f[2..], index + 2, Qualify(Width(n == 0, n), c1, false), Take(Width(n == 0, n), d1));
  }

  lemma LeftStarDigitQualifiers(f: string, index: nat, left: bool, n: nat, c: Conversion, d: Direct)
    requires IsStarDigit(f, left, n) && c.dots == d.dots == 0 && c.flags == d.flags == FLAGS_NEW
    ensures var start, k := FLAGS_NEW.(leftAdjust := left), if left then 3 else 2;
            && Qualifiers(f, index, c, false)
               == Done((Qualify(Width(n == 0, n), Qualify(WidthStar(NO_POSITION), c.(flags := start), false), false),
                        index + k))
            && TakeAll(f, index, d)
               == Some((Take(Width(n == 0, n), Take(WidthStar(NO_POSITION), d.(flags := start))), index + k))
  {
    hide Qualify, Take, Lex, IsQualifier;
    if left {
      MinusFirst(f, index, n, c, d);
      StarDigitQualifiers(f[1..], index + 1, n, c.(flags := FLAGS_NEW.(leftAdjust := true)),
                          d.(flags := FLAGS_NEW.(leftAdjust := true)));
    } else {
      assert c.(flags := FLAGS_NEW.(leftAdjust := left)) == c && d.(flags := FLAGS_NEW.(leftAdjust := left)) == d;
      StarDigitQualifiers(f, index, n, c, d);
    }
  }

  lemma MinusFirst(f: string, index: nat, n: nat, c: Conversion, d: Direct)
    requires IsStarDigit(f, true, n) && c.dots == d.dots == 0 && c.flags == d.flags == FLAGS_NEW
    ensures var start := FLAGS_NEW.(leftAdjust := true);
            && IsStarDigit(f[1..], false, n)
            && Qualifiers(f, index, c, false) == Qualifiers(f[1..], index + 1, c.(flags := start), false)
            && TakeAll(f, index, d) == TakeAll(f[1..], index + 1, d.(flags := start))
  {
    hide Lex, Qualify, Take, SizeConflict, IsQualifier;
    LexMinus(f);
    QualifyMinus(c, d);
  }

  lemma LexMinus(f: string)
    requires f != "" && f[0] == '-'
    ensures Lex(f, 0) == (Minus, 1) && IsQualifier(f[0])
  {
  }

  lemma QualifyMinus(c: Conversion, d: Direct)
    requires c.flags == d.flags == FLAGS_NEW
    ensures Qualify(Minus, c, false) == c.(flags := FLAGS_NEW.(leftAdjust := true))
    ensures Take(Minus, d) == d.(flags := FLAGS_NEW.(leftAdjust := true)) && !SizeConflict(Minus, FLAGS_NEW)
  {
  }

  /** The counters of a table with room for the positions below ten. */
  ghost predicate Roomy(t: Table) {
    && |t.usedEntries| == |t.indices| == MAX_PARAMETERS && |t.entries| == |t.owner| < 10
    && t.maxParam == t.parameterPosition - 1 && 0 <= t.parameterPosition < 10
  }

  /** It compiles to two entries: the width under the position n, and then the conversion's own. */
  lemma StarDigitCompiles(f: string, index: nat, left: bool, n: nat, t: Table) returns (u: Table)
    requires IsStarDigit(f, left, n) && Roomy(t)
    ensures CompileConversion(f, index, t) == Done((u, index + if left then 4 else 3))
    ensures var p := t.parameterPosition + 1;
            && |u.entries| == |u.owner| == |t.entries| + 2 && u.owner == t.owner + [n, p]
            && u.usedEntries == Used(Used(t.usedEntries, n), p) && |u.indices| == MAX_PARAMETERS
            && u.maxParam == p && u.parameterPosition == p + 1
  {
    hide IsStarDigit, GetPosition, Qualifiers, Qualify, TakeAll, Take, Conclude, CompileConversion;
    NoDollar(f, left, n);
    NoDollarNoPosition(f);
    assert f[0..] == f;
    var first := FirstConversion(t, t.parameterPosition);
    LeftStarDigitQualifiers(f, index, left, n, first, DirectStart(0));
    var k := if left then 3 else 2;
    var c := Qualifiers(f, index, first, false).value.0;
    StarDigitConversion(left, n, t, c);
    u := StarConcludes(f[k..], index + k, n, c, t);
    WithoutPosition(f, index, k, t, c, u);
  }

  lemma StarDigitConversion(left: bool, n: nat, t: Table, c: Conversion)
    requires Roomy(t)
    requires var first := FirstConversion(t, t.parameterPosition).(flags := FLAGS_NEW.(leftAdjust := left));
             c == Qualify(Width(n == 0, n), Qualify(WidthStar(NO_POSITION), first, false), false)
    ensures c.widthParameter && !c.precisionParameter && !c.baseParameter && c.width == n
    ensures c.currentParam == c.parameterPosition == c.maxParam == t.parameterPosition + 1
  {
  }

  lemma StarConcludes(f: string, index: nat, n: nat, c: Conversion, t: Table) returns (u: Table)
    requires f != "" && f[0] in {'c', 'd'} && n < 10 && Roomy(t)
    requires c.widthParameter && !c.precisionParameter && !c.baseParameter && c.width == n
    requires c.currentParam == c.parameterPosition == c.maxParam == t.parameterPosition + 1
    ensures Conclude(f, index, c, false, t) == Done(u)
    ensures var p := t.parameterPosition + 1;
            && |u.entries| == |u.owner| == |t.entries| + 2 && u.owner == t.owner + [n, p]
            && u.usedEntries == Used(Used(t.usedEntries, n), p) && |u.indices| == MAX_PARAMETERS
            && u.maxParam == p && u.parameterPosition == p + 1
  {
    u := Conclude(f, index, c, false, t).value;
  }

  function Used(usedEntries: seq<int>, position: nat): seq<int>
    requires position < |usedEntries|
  {
    usedEntries[position := usedEntries[position] + 1]
  }

  lemma NoDollar(f: string, left: bool, n: nat)
    requires IsStarDigit(f, left, n)
    ensures n < 10 && '$' !in f && |f| > (if left then 3 else 2)
    ensures f[if left then 3 else 2] in {'c', 'd'}
  {
  }

  /** What it gathers. */
  lemma StarDigitTaken(format: string, index: nat, left: bool, n: nat, next: int)
    requires index <= |format| && IsStarDigit(format[index..], left, n)
    ensures var k := if left then 3 else 2;
            var flags := FLAGS_NEW.(leftAdjust := left, nilPadding := n == 0 && !left);
            && index + k < |format|
            && ConversionAt(format, index, next)
               == Some((DirectStart(next).(flags := flags, width := Argument(next), late := Some(n), next := next + 1),
                        if format[index + k] == 'd' then Letter(FormatInt, flags, Some(10))
                        else Letter(FormatChar, flags, None), index + k + 1))
  {
    hide TakeAll, IsStarDigit, Qualifiers;
    var f, k := format[index..], if left then 3 else 2;
    NoDollar(f, left, n);
    LeftStarDigitQualifiers(f, index, left, n, FirstConversion(EMPTY_TABLE, 0), DirectStart(next));
    assert f[k] == format[index + k] == format[index + k..][0];
  }

  // ----- Two conversions, each with the width of the other

  /** Two such conversions with nothing before, between or after them, naming positions 2 and 0. */
  predicate IsShuffled(format: string, left: bool, second: nat) {
    && |format| == second + 4 && second == (if left then 5 else 4)
    && format[0] == '%' && format[1] != '%' && format[second] == '%' && format[second + 1] != '%'
    && IsStarDigit(format[1..], left, 2) && IsStarDigit(format[second + 1..], false, 0) && '$' !in format
    && (forall i :: 0 <= i < |format| ==> format[i] < 128 as char)
  }

  /** The check takes it: its four positions are used once each. */
  lemma ShuffledCompiles(format: string, left: bool, second: nat)
    requires IsShuffled(format, left, second)
    ensures Compile(format).Done? && Compile(format).value.owner == [2, 1, 0, 3]
  {
    hide CompileConversion, IsStarDigit;
    var t := StarDigitCompiles(format[1..], 1, left, 2, EMPTY_TABLE);
    var u := StarDigitCompiles(format[second + 1..], second + 1, false, 0, t);
    assert CompileFrom(format, |format|, u) == Done(u);
    assert CompileFrom(format, second, t) == Done(u);
    assert CompileFrom(format, 0, EMPTY_TABLE) == Done(u);
    CheckFinds(u, 0);
    assert u.owner == [2, 1, 0, 3];
    LargestOfFour();
  }

  lemma LargestOfFour()
    ensures Largest([2, 1, 0, 3]) == 3
  {
    assert 3 in [2, 1, 0, 3];
    assert [2, 1, 0, 3][3] == 3;
  }

  /** The first conversion takes its width from the third argument and the second from the first; in
      order it is the other way round. */
  lemma ShuffledInterprets(format: string, left: bool, second: nat, args: Args, reading: Reading, loc: Locale)
    requires IsShuffled(format, left, second) && loc.Valid()
    ensures !Tidy(format, 0, 0)
    ensures var w := if reading == AsCompiled then 2 else 0;
            var letter1, letter2 := format[second - 1], format[second + 3];
            Interpret(format, 0, args, 0, reading, loc)
            == (Join(FieldOf(letter1, left, false, args(w), args(1), loc),
                     Join(FieldOf(letter2, false, true, args(2 - w), args(3), loc), Some(""))), 4)
  {
    hide ConversionAt, IsStarDigit, ConversionText;
    StarDigitTaken(format, 1, left, 2, 0);
    StarDigitTaken(format, second + 1, false, 0, 2);
    assert Interpret(format, |format|, args, 4, reading, loc) == (Some(""), 4);
    assert !Tidy(format, second, 2);
  }

  /** A "%c" or "%d" with the width of one argument and the value of another. */
  function FieldOf(letter: char, left: bool, zeros: bool, width: Slot, value: Slot, loc: Locale): Option<string>
    requires loc.Valid()
  {
    var flags := FLAGS_NEW.(leftAdjust := left, nilPadding := zeros);
    ConversionText(if letter == 'd' then FormatInt else FormatChar, flags, IntSlot(width), NO_PRECISION,
                   if letter == 'd' then 10 else BASE_DECIMAL, EscapeNone,
                   Slot(IntSlot(value) % TWO64, None), loc)
  }

  const SHUFFLED_FORMAT := "%*2d%*0d"

  /** With 3, 5, 0 and 7 the arguments in order print 5 in three columns and then 7; the engine prints 5
      in no columns and then 7 with zeros in three. */
  lemma ShuffledOutput(args: Args, loc: Locale)
    requires loc.Valid()
    requires args(0).bits == 3 && args(1).bits == 5 && args(2).bits == 0 && args(3).bits == 7
    ensures Compile(SHUFFLED_FORMAT).Done? && Compile(SHUFFLED_FORMAT).value.owner == [2, 1, 0, 3]
    ensures Output(SHUFFLED_FORMAT, args, loc) == Done("5007")
    ensures Interpret(SHUFFLED_FORMAT, 0, args, 0, InOrder, loc) == (Some("  57"), 4)
  {
    hide *;
    ShuffledShape();
    ShuffledCompiles(SHUFFLED_FORMAT, false, 4);
    ShuffledInterprets(SHUFFLED_FORMAT, false, 4, args, AsCompiled, loc);
    ShuffledInterprets(SHUFFLED_FORMAT, false, 4, args, InOrder, loc);
    OneDigit(5, 3, false, args(0), args(1), loc);
    OneDigit(5, 0, false, args(2), args(1), loc);
    OneDigit(7, 3, true, args(0), args(3), loc);
    OneDigit(7, 0, true, args(2), args(3), loc);
    DigitTexts();
    JoinedTwice("5", "007");
    JoinedTwice("  5", "7");
    OutputAsCompiledOf(SHUFFLED_FORMAT, args, loc);
  }

  lemma DigitTexts()
    ensures [DigitChar(5, false)] == "5" && [DigitChar(7, false)] == "7"
    ensures "  " + "5" == "  5" && "00" + "7" == "007" && "5" + "007" == "5007" && "  5" + "7" == "  57"
  {
  }

  lemma JoinedTwice(a: string, b: string)
    ensures Join(Some(a), Join(Some(b), Some(""))) == Some(a + b)
  {
    assert b + "" == b;
  }

  lemma ShuffledShape()
    ensures IsShuffled(SHUFFLED_FORMAT, false, 4) && SHUFFLED_FORMAT[3] == SHUFFLED_FORMAT[7] == 'd'
  {
  }

  lemma OutputAsCompiledOf(format: string, args: Args, loc: Locale)
    requires '$' !in format && loc.Valid() && Compile(format).Done?
    requires Interpret(format, 0, args, 0, AsCompiled, loc).0.Some?
    ensures Output(format, args, loc) == Done(Interpret(format, 0, args, 0, AsCompiled, loc).0.value)
  {
    CompiledRunsDirect(format, args, loc);
  }

  /** A digit of its own in up to three columns. */
  lemma OneDigit(n: nat, width: nat, zeros: bool, w: Slot, v: Slot, loc: Locale)
    requires n < 10 && width in {0, 3} && w.bits == width && v.bits == n && loc.Valid()
    ensures FieldOf('d', false, zeros, w, v, loc)
            == Some(if width == 0 then [DigitChar(n, false)]
                    else (if zeros then "00" else "  ") + [DigitChar(n, false)])
  {
    hide NumberText, FieldText, ZeroCount, Numeral, CharText, StringText, DigitChar;
    var f := FLAGS_NEW.(nilPadding := zeros);
    SmallSlot(v, n);
    SmallSlot(w, width);
    NumberTextOf(n, f, width, loc);
    FieldOfDigit(f, width, [DigitChar(n, false)]);
  }

  lemma SmallSlot(s: Slot, n: nat)
    requires s.bits == n < 10
    ensures IntSlot(s) == n && IntSlot(s) % TWO64 == n
  {
  }

  lemma FieldOfDigit(f: Flags, width: nat, digit: string)
    requires width in {0, 3} && f == FLAGS_NEW.(nilPadding := f.nilPadding)
    ensures FieldText(f, "", width - 1, ZeroCount(f, width - 1, NO_PRECISION, 1), digit)
            == if width == 0 then digit else (if f.nilPadding then "00" else "  ") + digit
  {
    hide Fill;
    Fills();
    assert "" + "00" + digit == "00" + digit && "" + "" + digit == digit && "" + digit == digit;
  }

  lemma Fills()
    ensures Fill(' ', 2) == "  " && Fill('0', 2) == "00"
    ensures Fill(' ', 0) == Fill(' ', -1) == Fill('0', 0) == ""
  {
  }

  lemma NumberTextOf(n: nat, f: Flags, width: int, loc: Locale)
    requires n < 10 && loc.Valid() && f == FLAGS_NEW.(nilPadding := f.nilPadding)
    ensures NumberText(n, f, width, NO_PRECISION, 10, loc)
            == FieldText(f, "", width - 1, ZeroCount(f, width - 1, NO_PRECISION, 1), [DigitChar(n, false)])
  {
    hide FieldText, ZeroCount, Numeral, Magnitude;
    DigitNumeral(n, f, loc);
    assert SignText(IsNegative(n, f), f) + PrefixText(10, f) == "";
  }

  lemma DigitNumeral(n: nat, f: Flags, loc: Locale)
    requires n < 10 && loc.Valid() && f == FLAGS_NEW.(nilPadding := f.nilPadding)
    ensures Magnitude(n, f) == n && !IsNegative(n, f) && Numeral(n, 10, f, loc) == [DigitChar(n, false)]
  {
  }

  const SAME_FORMAT := "%-*2c%*0c"

  /** Here the widths change places too, but since the first field is padded on its right and the second
      on its left, the text is the same for all arguments: the engine's calls differ from those in order,
      and its output does not. */
  lemma SameOutput(args: Args, loc: Locale)
    requires loc.Valid()
    ensures Compile(SAME_FORMAT).Done? && !Tidy(SAME_FORMAT, 0, 0)
    ensures Interpret(SAME_FORMAT, 0, args, 0, InOrder, loc).0.Some?
    ensures Output(SAME_FORMAT, args, loc) == Done(Interpret(SAME_FORMAT, 0, args, 0, InOrder, loc).0.value)
  {
    hide *;
    SameShape();
    ShuffledCompiles(SAME_FORMAT, true, 5);
    ShuffledInterprets(SAME_FORMAT, true, 5, args, AsCompiled, loc);
    ShuffledInterprets(SAME_FORMAT, true, 5, args, InOrder, loc);
    SameFields(args, loc);
    OutputAsCompiledOf(SAME_FORMAT, args, loc);
  }

  lemma SameFields(args: Args, loc: Locale)
    requires loc.Valid()
    ensures var inOrder := Join(FieldOf('c', true, false, args(0), args(1), loc),
                                Join(FieldOf('c', false, true, args(2), args(3), loc), Some("")));
            && inOrder.Some?
            && inOrder == Join(FieldOf('c', true, false, args(2), args(1), loc),
                               Join(FieldOf('c', false, true, args(0), args(3), loc), Some("")))
  {
    hide CodeText, FieldOf, Fill;
    var one := CodeText(IntSlot(args(1)), FLAGS_NEW.(leftAdjust := true));
    var other := CodeText(IntSlot(args(3)), FLAGS_NEW.(nilPadding := true));
    CharField(true, args(0), args(1), loc);
    CharField(true, args(2), args(1), loc);
    CharField(false, args(2), args(3), loc);
    CharField(false, args(0), args(3), loc);
    FillsCommute(one, IntSlot(args(0)) - 1, IntSlot(args(2)) - 1, other);
  }

  lemma CharField(left: bool, w: Slot, v: Slot, loc: Locale)
    requires loc.Valid()
    ensures var flags, pad := FLAGS_NEW.(leftAdjust := left, nilPadding := !left), Fill(' ', IntSlot(w) - 1);
            var body := CodeText(IntSlot(v), flags);
            FieldOf('c', left, !left, w, v, loc) == Some(if left then body + pad else pad + body)
  {
    hide CodeText, Fill;
    IntThroughWord(v);
    var flags, pad := FLAGS_NEW.(leftAdjust := left, nilPadding := !left), Fill(' ', IntSlot(w) - 1);
    var field := if left then CodeText(IntSlot(v), flags) + pad else pad + CodeText(IntSlot(v), flags);
    assert "" + field + "" == field;
  }

  lemma FillsCommute(one: string, a: int, b: int, other: string)
    ensures (one + Fill(' ', a)) + ((Fill(' ', b) + other) + "") == (one + Fill(' ', b)) + ((Fill(' ', a) + other) + "")
  {
    assert Fill(' ', a) + Fill(' ', b) == Fill(' ', b) + Fill(' ', a);
    assert (one + Fill(' ', a)) + ((Fill(' ', b) + other) + "") == one + (Fill(' ', a) + Fill(' ', b)) + other;
    assert (one + Fill(' ', b)) + ((Fill(' ', a) + other) + "") == one + (Fill(' ', b) + Fill(' ', a)) + other;
  }

  lemma SameShape()
    ensures IsShuffled(SAME_FORMAT, true, 5) && SAME_FORMAT[4] == SAME_FORMAT[8] == 'c'
  {
  }
}
