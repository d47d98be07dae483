/** Formats as they are meant: literal text and conversions, each described by its parts. What the engine
    prints for the text of such a format is what its parts say. */
module TrioFormats {
  import opened CText
  import opened Numerals
  import opened TrioNumber
  import opened TrioWriter
  import opened TrioLexer
  import opened TrioCompile
  import opened TrioInterpreter
  import opened TrioPreprocessor
  import opened TrioSimulation
  import opened TrioFormatter
  import opened TrioPositions
  import Escapes = Escape

  // ----- Conversions

  /** A conversion without stars and positions: flag characters, size letters, zero padding and width,
      precision, base, escape and letter. */
  datatype Spec = Spec(
    marks: string, size: string, zero: bool, width: nat, precision: Option<nat>, base: Option<nat>,
    escaping: Escaping, letter: char)

  const MARKS := {' ', '+', '-', '#', '\''}
  const SIZES := {"", "h", "hh", "l", "ll", "q", "j", "z", "t", "L", "Z", "w"}

  predicate IsSpec(q: Spec) {
    && (forall i :: 0 <= i < |q.marks| ==> q.marks[i] in MARKS) && q.size in SIZES && q.width < TWO32 / 2
    && (q.precision.Some? ==> q.precision.value < TWO32 / 2)
    && (q.base.Some? ==> MIN_BASE <= q.base.value <= MAX_BASE)
    && q.letter in {'c', 'C', 's', 'S', 'd', 'i', 'u', 'o', 'x', 'X', 'b', 'B'}
  }

  function WidthText(q: Spec): string {
    (if q.zero then "0" else "") + if q.zero || q.width > 0 then Decimal(q.width) else ""
  }

  function PrecisionText(q: Spec): string {
    if q.precision.Some? then "." + Decimal(q.precision.value) else if q.base.Some? then "." else ""
  }

  function BaseText(q: Spec): string {
    if q.base.Some? then "." + Decimal(q.base.value) else ""
  }

  function EscapingText(escaping: Escaping): string {
    match escaping
    case EscapeNone => ""
    case EscapeUlm => "|U"
    case EscapeXml => "|X"
    case EscapeSql => "|S"
  }

  /** The text of a conversion after its percent sign. */
  function SpecText(q: Spec): string {
    q.marks + q.size + WidthText(q) + PrecisionText(q) + BaseText(q) + EscapingText(q.escaping) + [q.letter]
  }

  /** Its meaning. Each flag is there when its character is; a minus sign is stronger than zero padding. */
  function SpecFlags(q: Spec): Flags {
    FLAGS_NEW.(space := ' ' in q.marks, showSign := '+' in q.marks, leftAdjust := '-' in q.marks,
               alternative := '#' in q.marks, quote := '\'' in q.marks,
               nilPadding := (q.zero && '-' !in q.marks) || q.letter in {'b', 'B'},
               short := q.size in {"h", "hh"}, shortShort := q.size == "hh",
               long := q.size in {"l", "ll"}, quad := q.size in {"ll", "q", "j", "z", "t"},
               precision := q.precision.Some?, unsigned := q.letter in {'u', 'x', 'X'},
               upper := q.letter in {'X', 'B'})
  }

  function SpecBase(q: Spec): nat {
    if q.letter in {'o'} then 8
    else if q.letter in {'x', 'X'} then 16
    else if q.letter in {'b', 'B'} then 2
    else if q.letter in {'i', 'u'} && q.base.Some? then q.base.value
    else 10
  }

  function SpecPrecision(q: Spec): int {
    if q.precision.Some? then q.precision.value else -1
  }

  /** What a string argument is sent as. */
  function Sent(escaping: Escaping, text: Option<string>): Option<string> {
    match text
    case None => if escaping == EscapeNone then Some("(null)") else None
    case Some(s) =>
      match escaping
      case EscapeNone => Some(s)
      case EscapeUlm => Some(Escapes.EscapeUlmText(s))
      case EscapeXml => Some(Escapes.EscapeXmlText(s))
      case EscapeSql => Some(Escapes.EscapeSqlText(s))
  }

  /** What the conversion prints: a character, a string, or an integer, which is read as an int unless its
      size says otherwise; a short is not cut. */
  function SpecOutput(q: Spec, arg: Slot, loc: Locale): string
    requires IsSpec(q) && loc.Valid()
  {
    var wide := q.size in {"l", "ll", "q", "j", "z", "t"};
    var value := if wide then arg.bits else ToInt32(arg.bits) % TWO64;
    if q.letter in {'c', 'C'} then CharText(ToInt32(arg.bits), SpecFlags(q), q.width)
    else if q.letter in {'s', 'S'} then
      StringText(Sent(q.escaping, arg.text), SpecFlags(q), q.width, SpecPrecision(q))
    else NumberText(value, SpecFlags(q), q.width, SpecPrecision(q), SpecBase(q), loc)
  }

  // ----- Its text is read as it is meant

  /** One qualifier at the start of a text. */
  lemma OnePiece(piece: string, rest: string, index: nat, c: Conversion, q: Qualifier)
    requires piece != "" && IsQualifier(piece[0]) && Lex(piece + rest, c.dots) == (q, |piece|)
    requires !q.Invalid? && !q.Unmodelled? && !SizeConflict(q, c.flags)
    ensures Qualifiers(piece + rest, index, c, false)
            == Qualifiers(rest, index + |piece|, Qualify(q, c, false), false)
  {
    hide Lex, IsQualifier, Qualify, SizeConflict;
    assert (piece + rest)[0] == piece[0] && (piece + rest)[|piece|..] == rest;
  }

  function WithMarks(f: Flags, marks: string): Flags {
    f.(space := f.space || ' ' in marks, showSign := f.showSign || '+' in marks,
       leftAdjust := f.leftAdjust || '-' in marks, alternative := f.alternative || '#' in marks,
       quote := f.quote || '\'' in marks, nilPadding := f.nilPadding && '-' !in marks)
  }

  lemma OneMark(m: char, rest: string, index: nat, c: Conversion)
    requires m in MARKS
    ensures Qualifiers([m] + rest, index, c, false)
            == Qualifiers(rest, index + 1, c.(flags := WithMarks(c.flags, [m])), false)
  {
    hide Qualifiers;
    hide Lex, Qualify, WithMarks, SizeConflict, IsQualifier;
    LexMark(m, rest, c.dots);
    QualifyMark(m, c);
    OnePiece([m], rest, index, c, MarkQualifier(m));
  }

  function MarkQualifier(m: char): Qualifier {
    if m == ' ' then Space else if m == '+' then Plus else if m == '-' then Minus
    else if m == '#' then Alternative else Quote
  }

  lemma LexMark(m: char, rest: string, dots: nat)
    requires m in MARKS
    ensures IsQualifier(m) && Lex([m] + rest, dots) == (MarkQualifier(m), 1)
  {
    assert ([m] + rest)[0] == m;
  }

  lemma QualifyMark(m: char, c: Conversion)
    requires m in MARKS
    ensures Qualify(MarkQualifier(m), c, false) == c.(flags := WithMarks(c.flags, [m]))
    ensures !SizeConflict(MarkQualifier(m), c.flags)
  {
    assert forall k: char :: k in [m] <==> k == m;
  }

  lemma {:induction false} MarksRead(marks: string, rest: string, index: nat, c: Conversion)
    requires forall i :: 0 <= i < |marks| ==> marks[i] in MARKS
    ensures Qualifiers(marks + rest, index, c, false)
            == Qualifiers(rest, index + |marks|, c.(flags := WithMarks(c.flags, marks)), false)
  {
    hide Qualifiers;
    if marks == "" {
      assert marks + rest == rest;
      assert WithMarks(c.flags, "") == c.flags;
    } else {
      var m, more := marks[0], marks[1..];
      assert marks + rest == [m] + (more + rest);
      OneMark(m, more + rest, index, c);
      MarksRead(more, rest, index + 1, c.(flags := WithMarks(c.flags, [m])));
      assert marks == [m] + more;
      assert WithMarks(WithMarks(c.flags, [m]), more) == WithMarks(c.flags, marks);
    }
  }

  predicate NoSize(f: Flags) {
    !f.short && !f.shortShort && !f.long && !f.quad
  }

  function Sized(c: Conversion, size: string): Conversion {
    c.(flags := c.flags.(short := size in {"h", "hh"}, shortShort := size == "hh",
                         long := size in {"l", "ll"}, quad := size in {"ll", "q", "j", "z", "t"}))
  }

  function SizeQualifier(m: char): Qualifier {
    if m == 'h' then Short else if m == 'l' then Long else if m in {'q', 'j', 'z', 't'} then Quad else NoEffect
  }

  lemma LexSize(m: char, rest: string, dots: nat)
    requires m in {'h', 'l', 'q', 'j', 'z', 't', 'L', 'Z', 'w'}
    ensures IsQualifier(m) && Lex([m] + rest, dots) == (SizeQualifier(m), 1)
  {
    assert ([m] + rest)[0] == m;
  }

  /** A letter that is not there before. */
  lemma OneSize(m: char, rest: string, index: nat, c: Conversion)
    requires m in {'h', 'l', 'q', 'j', 'z', 't', 'L', 'Z', 'w'} && NoSize(c.flags)
    ensures Qualifiers([m] + rest, index, c, false) == Qualifiers(rest, index + 1, Sized(c, [m]), false)
  {
    hide Qualifiers, Lex, IsQualifier, Qualify, Sized, SizeConflict;
    LexSize(m, rest, c.dots);
    QualifySize(m, c);
    OnePiece([m], rest, index, c, SizeQualifier(m));
  }

  lemma QualifySize(m: char, c: Conversion)
    requires m in {'h', 'l', 'q', 'j', 'z', 't', 'L', 'Z', 'w'} && NoSize(c.flags)
    ensures Qualify(SizeQualifier(m), c, false) == Sized(c, [m]) && !SizeConflict(SizeQualifier(m), c.flags)
  {
    assert |[m]| == 1 && [m][0] == m;
    assert |"hh"| == 2 && |"ll"| == 2;
    assert "h"[0] == 'h' && "l"[0] == 'l' && "q"[0] == 'q' && "j"[0] == 'j' && "z"[0] == 'z' && "t"[0] == 't';
    if m == 'h' {
      assert [m] == "h";
    } else if m == 'l' {
      assert [m] == "l";
    } else if m in {'q', 'j', 'z', 't'} {
      assert [m] == if m == 'q' then "q" else if m == 'j' then "j" else if m == 'z' then "z" else "t";
    }
  }

  lemma TwoSizes(m: char, rest: string, index: nat, c: Conversion)
    requires m in {'h', 'l'} && NoSize(c.flags)
    ensures Qualifiers([m, m] + rest, index, c, false) == Qualifiers(rest, index + 2, Sized(c, [m, m]), false)
  {
    hide Qualifiers, Lex, IsQualifier, Qualify, Sized, SizeConflict;
    assert [m, m] + rest == [m] + ([m] + rest);
    OneSize(m, [m] + rest, index, c);
    var one := Sized(c, [m]);
    LexSize(m, rest, one.dots);
    QualifySecond(m, c);
    OnePiece([m], rest, index + 1, one, SizeQualifier(m));
  }

  lemma QualifySecond(m: char, c: Conversion)
    requires m in {'h', 'l'} && NoSize(c.flags)
    ensures var one := Sized(c, [m]);
            Qualify(SizeQualifier(m), one, false) == Sized(c, [m, m]) && !SizeConflict(SizeQualifier(m), one.flags)
  {
    assert ['h'] == "h" && ['l'] == "l" && ['h', 'h'] == "hh" && ['l', 'l'] == "ll";
    assert "h" != "l" && "h" != "hh" && "hh" != "ll" && "l" != "ll";
  }

  lemma SizeRead(size: string, rest: string, index: nat, c: Conversion)
    requires size in SIZES && NoSize(c.flags)
    ensures Qualifiers(size + rest, index, c, false) == Qualifiers(rest, index + |size|, Sized(c, size), false)
  {
    hide Qualifiers, Sized;
    if |size| == 0 {
      NothingSized(c);
      assert size + rest == rest;
    } else if |size| == 1 {
      assert size == [size[0]];
      OneSize(size[0], rest, index, c);
    } else {
      assert size == [size[0], size[1]] && size[0] == size[1];
      TwoSizes(size[0], rest, index, c);
    }
  }

  lemma NothingSized(c: Conversion)
    requires NoSize(c.flags)
    ensures Sized(c, "") == c
  {
  }

  /** A text at which a number ends. */
  predicate EndsNumber(rest: string) {
    rest != "" && !IsDigit(rest[0])
  }

  /** The width and the zero padding that a minus sign undoes. */
  function Widened(c: Conversion, q: Spec): Conversion {
    c.(width := q.width, flags := c.flags.(nilPadding := q.zero && !c.flags.leftAdjust))
  }

  lemma WidthRead(q: Spec, rest: string, index: nat, c: Conversion)
    requires IsSpec(q) && EndsNumber(rest) && c.width == NO_WIDTH && !c.flags.nilPadding
    ensures Qualifiers(WidthText(q) + rest, index, c, false)
            == Qualifiers(rest, index + |WidthText(q)|, Widened(c, q), false)
  {
    hide Qualifiers, Lex, Decimal, StrToLong, Qualify, Widened;
    if !q.zero && q.width == 0 {
      NoWidth(q, c);
      assert WidthText(q) + rest == rest;
    } else {
      LexWidth(q, rest, c.dots);
      QualifyWidth(q, c);
      OnePiece(WidthText(q), rest, index, c, Width(q.zero, q.width));
    }
  }

  lemma NoWidth(q: Spec, c: Conversion)
    requires !q.zero && q.width == 0 && c.width == NO_WIDTH && !c.flags.nilPadding
    ensures Widened(c, q) == c
  {
  }

  lemma QualifyWidth(q: Spec, c: Conversion)
    requires !c.flags.nilPadding
    ensures Qualify(Width(q.zero, q.width), c, false) == Widened(c, q)
    ensures !SizeConflict(Width(q.zero, q.width), c.flags)
  {
  }

  lemma LexWidth(q: Spec, rest: string, dots: nat)
    requires IsSpec(q) && EndsNumber(rest) && (q.zero || q.width > 0)
    ensures var piece := WidthText(q);
            && piece != "" && IsQualifier(piece[0])
            && Lex(piece + rest, dots) == (Width(q.zero, q.width), |piece|)
  {
    hide Decimal, StrToLong, LexDot, GetPosition;
    var piece, d := WidthText(q), Decimal(q.width);
    SmallInt(q.width);
    if q.zero {
      assert piece == "0" + d && piece + rest == "0" + d + rest;
      StrToLongOfZero(q.width, rest);
    } else {
      assert piece == d;
      StrToLongOfDecimal(q.width, rest);
      FirstOfDecimal(q.width);
    }
    assert (piece + rest)[0] == piece[0];
  }

  lemma SmallInt(n: nat)
    requires n < TWO32 / 2
    ensures ToInt32(n) == n
  {
  }

  lemma FirstOfDecimal(n: nat)
    requires n > 0
    ensures Decimal(n)[0] != '0'
  {
  }

  /** A zero in front of a number changes nothing but its length. */
  lemma StrToLongOfZero(n: nat, rest: string)
    requires n < TWO64 / 2 && EndsNumber(rest)
    ensures StrToLong("0" + Decimal(n) + rest) == (n, 1 + |Decimal(n)|)
  {
    hide Decimal;
    var d := Decimal(n);
    var s := "0" + d + rest;
    assert SpaceRun(s) == 0;
    DigitRunIs(s, 1 + |d|);
    assert s[..1 + |d|] == Fill('0', 1) + d;
    DecimalDigits(n);
    ValueWithZeros(1, d, 10);
  }

  lemma DecimalDigits(n: nat)
    ensures AllDigits(Decimal(n), 10) && Numerals.Value(Decimal(n), 10) == n
  {
    ValueOfDigits(n, 10, false);
  }

  /** The precision and the base. */
  lemma NumbersRead(q: Spec, rest: string, index: nat, c: Conversion)
    requires IsSpec(q) && EndsNumber(rest) && rest[0] !in {'.', '*', '@'} && c.dots == 0
    requires c.precision == NO_PRECISION && c.base == NO_BASE
    ensures var text := PrecisionText(q) + BaseText(q);
            var dots := if q.base.Some? then 2 else if q.precision.Some? then 1 else 0;
            Qualifiers(text + rest, index, c, false)
            == Qualifiers(rest, index + |text|,
                          c.(precision := SpecPrecision(q), base := if q.base.Some? then q.base.value else NO_BASE,
                             dots := dots,
                             flags := if q.precision.Some? then c.flags.(precision := true) else c.flags), false)
  {
    hide Qualifiers, Decimal, Lex, Qualify;
    var text, after := PrecisionText(q) + BaseText(q), BaseText(q) + rest;
    assert text + rest == PrecisionText(q) + after;
    if q.precision == None && q.base == None {
      assert text + rest == rest;
    } else {
      EndsAfterPrecision(q, rest);
      var d := PrecisionRead(q, after, index, c);
      if q.base.Some? {
        BaseRead(q.base.value, rest, index + |PrecisionText(q)|, d);
      } else {
        assert after == rest && text == PrecisionText(q);
      }
    }
  }

  lemma EndsAfterPrecision(q: Spec, rest: string)
    requires EndsNumber(rest) && rest[0] !in {'.', '*', '@'}
    ensures EndsNumber(BaseText(q) + rest) && (q.base.Some? ==> (BaseText(q) + rest)[0] == '.')
  {
    hide Decimal;
    if q.base == None {
      assert BaseText(q) + rest == rest;
    }
  }

  lemma PrecisionRead(q: Spec, after: string, index: nat, c: Conversion) returns (d: Conversion)
    requires IsSpec(q) && EndsNumber(after) && c.dots == 0 && (q.precision.Some? || q.base.Some?)
    requires q.base.Some? ==> after[0] == '.'
    requires c.precision == NO_PRECISION
    ensures d == c.(precision := SpecPrecision(q), dots := 1,
                    flags := if q.precision.Some? then c.flags.(precision := true) else c.flags)
    ensures Qualifiers(PrecisionText(q) + after, index, c, false)
            == Qualifiers(after, index + |PrecisionText(q)|, d, false)
  {
    hide Qualifiers, Decimal, StrToLong, GetPosition;
    var piece := PrecisionText(q);
    var f := piece + after;
    assert f[0] == piece[0] == '.';
    if q.precision.Some? {
      var p := q.precision.value;
      assert f[1..] == Decimal(p) + after && f[1] == Decimal(p)[0];
      StrToLongOfDecimal(p, after);
      SmallInt(p);
      assert Lex(f, 0) == (Precision(p), |piece|);
      OnePiece(piece, after, index, c, Precision(p));
      d := Qualify(Precision(p), c, false);
    } else {
      assert f[1] == after[0];
      assert Lex(f, 0) == (NoPrecision, 1);
      OnePiece(piece, after, index, c, NoPrecision);
      d := Qualify(NoPrecision, c, false);
    }
  }

  lemma BaseRead(b: nat, rest: string, index: nat, c: Conversion)
    requires MIN_BASE <= b <= MAX_BASE && EndsNumber(rest) && c.dots == 1
    ensures var text := "." + Decimal(b);
            Qualifiers(text + rest, index, c, false)
            == Qualifiers(rest, index + |text|, c.(base := b, dots := 2), false)
  {
    hide Qualifiers, Decimal, StrToLong, GetPosition;
    var piece := "." + Decimal(b);
    var f := piece + rest;
    assert f[0] == '.' && f[1..] == Decimal(b) + rest && f[1] == Decimal(b)[0];
    StrToLongOfDecimal(b, rest);
    SmallInt(b);
    assert Lex(f, 1) == (Base(b), |piece|);
    OnePiece(piece, rest, index, c, Base(b));
  }

  lemma EscapingRead(escaping: Escaping, rest: string, index: nat, c: Conversion)
    requires c.escaping == EscapeNone
    ensures Qualifiers(EscapingText(escaping) + rest, index, c, false)
            == Qualifiers(rest, index + |EscapingText(escaping)|, c.(escaping := escaping), false)
  {
    hide Qualifiers;
    var piece := EscapingText(escaping);
    if escaping == EscapeNone {
      assert piece + rest == rest;
    } else {
      var f := piece + rest;
      assert f[0] == '|' && f[1] == piece[1];
      assert Lex(f, c.dots) == (Qualifier.Escape(escaping), 2);
      OnePiece(piece, rest, index, c, Qualifier.Escape(escaping));
    }
  }

  // ----- A whole conversion

  /** What the qualifiers of a conversion make of its variables. */
  function Gathered(q: Spec, c: Conversion): Conversion
    requires IsSpec(q)
  {
    c.(flags := SpecFlags(q.(letter := 'd')), width := q.width, precision := SpecPrecision(q),
       base := if q.base.Some? then q.base.value else NO_BASE, escaping := q.escaping,
       dots := if q.base.Some? then 2 else if q.precision.Some? then 1 else 0)
  }

  lemma LetterEnds(q: Spec, rest: string)
    requires IsSpec(q)
    ensures var tail := [q.letter] + rest;
            && EndsNumber(tail) && tail[0] !in {'.', '*', '@'} && !IsQualifier(tail[0])
            && EndsNumber(EscapingText(q.escaping) + tail) && (EscapingText(q.escaping) + tail)[0] !in {'.', '*', '@'}
  {
    var tail := [q.letter] + rest;
    assert (EscapingText(q.escaping) + tail)[0] == if q.escaping == EscapeNone then q.letter else '|';
  }

  lemma AfterWidthEnds(q: Spec, tail: string)
    requires EndsNumber(tail)
    ensures EndsNumber(PrecisionText(q) + BaseText(q) + tail)
  {
    hide Decimal;
    if q.precision == None && q.base == None {
      assert PrecisionText(q) + BaseText(q) + tail == tail;
    }
  }

  /** Flags, size and width. */
  function Started(q: Spec, first: Conversion): Conversion {
    Widened(Sized(first.(flags := WithMarks(first.flags, q.marks)), q.size), q)
  }

  lemma StartRead(q: Spec, after: string, index: nat, first: Conversion)
    requires IsSpec(q) && EndsNumber(after) && first.flags == FLAGS_NEW && first.width == NO_WIDTH
    ensures Qualifiers(q.marks + (q.size + (WidthText(q) + after)), index, first, false)
            == Qualifiers(after, index + |q.marks| + |q.size| + |WidthText(q)|, Started(q, first), false)
  {
    hide Qualifiers, Decimal, WidthText, EndsNumber;
    var sized := WidthText(q) + after;
    MarksRead(q.marks, q.size + sized, index, first);
    var c := first.(flags := WithMarks(FLAGS_NEW, q.marks));
    SizeRead(q.size, sized, index + |q.marks|, c);
    WidthRead(q, after, index + |q.marks| + |q.size|, Sized(c, q.size));
  }

  /** Precision, base and escape. */
  function Ended(q: Spec, c: Conversion): Conversion {
    c.(precision := SpecPrecision(q), base := if q.base.Some? then q.base.value else NO_BASE,
       dots := if q.base.Some? then 2 else if q.precision.Some? then 1 else 0,
       flags := if q.precision.Some? then c.flags.(precision := true) else c.flags, escaping := q.escaping)
  }

  lemma EndRead(q: Spec, tail: string, index: nat, c: Conversion)
    requires IsSpec(q) && tail != "" && !IsQualifier(tail[0]) && c.dots == 0 && c.escaping == EscapeNone
    requires c.precision == NO_PRECISION && c.base == NO_BASE
    requires var escaped := EscapingText(q.escaping) + tail; EndsNumber(escaped) && escaped[0] !in {'.', '*', '@'}
    ensures var numbers, escape := PrecisionText(q) + BaseText(q), EscapingText(q.escaping);
            Qualifiers(numbers + (escape + tail), index, c, false)
            == Done((Ended(q, c), index + |numbers| + |escape|))
  {
    hide Qualifiers, IsQualifier, EndsNumber, PrecisionText, BaseText, EscapingText;
    var numbers, escape := PrecisionText(q) + BaseText(q), EscapingText(q.escaping);
    NumbersRead(q, escape + tail, index, c);
    var d := Ended(q, c).(escaping := EscapeNone);
    EscapingRead(q.escaping, tail, index + |numbers|, d);
    NoMore(tail, index + |numbers| + |escape|, d.(escaping := q.escaping));
  }

  lemma SpecRead(q: Spec, rest: string, index: nat, first: Conversion)
    requires IsSpec(q) && first.flags == FLAGS_NEW && first.width == NO_WIDTH && first.precision == NO_PRECISION
    requires first.base == NO_BASE && first.escaping == EscapeNone && first.dots == 0
    ensures Qualifiers(SpecText(q) + rest, index, first, false)
            == Done((Gathered(q, first), index + |SpecText(q)| - 1))
  {
    hide Qualifiers, IsQualifier, EndsNumber, SpecText, IsSpec, Started, Ended, Gathered;
    hide PrecisionText, BaseText, EscapingText, WidthText;
    var tail := [q.letter] + rest;
    var numbers := PrecisionText(q) + BaseText(q);
    SpecPieces(q, rest);
    LetterEnds(q, rest);
    AfterWidthEnds(q, EscapingText(q.escaping) + tail);
    StartRead(q, numbers + (EscapingText(q.escaping) + tail), index, first);
    StartedIs(q, first);
    EndRead(q, tail, index + |q.marks| + |q.size| + |WidthText(q)|, Started(q, first));
  }

  lemma StartedIs(q: Spec, first: Conversion)
    requires IsSpec(q) && first.flags == FLAGS_NEW
    ensures var c := Started(q, first);
            && c.dots == first.dots && c.escaping == first.escaping && c.precision == first.precision
            && c.base == first.base && Ended(q, c) == Gathered(q, first)
  {
  }

  lemma SpecPieces(q: Spec, rest: string)
    ensures SpecText(q) + rest
            == q.marks + (q.size + (WidthText(q) + ((PrecisionText(q) + BaseText(q))
                                                              + (EscapingText(q.escaping) + ([q.letter] + rest)))))
    ensures |SpecText(q)| == |q.marks| + |q.size| + |WidthText(q)| + |PrecisionText(q) + BaseText(q)|
                             + |EscapingText(q.escaping)| + 1
  {
    hide WidthText, PrecisionText, BaseText, EscapingText;
  }

  lemma NoMore(tail: string, index: nat, c: Conversion)
    requires tail != "" && !IsQualifier(tail[0])
    ensures Qualifiers(tail, index, c, false) == Done((c, index))
  {
    hide IsQualifier;
  }

  /** The letter. */
  lemma LetterRead(q: Spec, rest: string)
    requires IsSpec(q)
    ensures LexLetter([q.letter] + rest, SpecFlags(q.(letter := 'd')))
            == Letter(if q.letter in {'c', 'C'} then FormatChar else if q.letter in {'s', 'S'} then FormatString
                      else FormatInt,
                      SpecFlags(q), if q.letter in {'d', 'o', 'x', 'X', 'b', 'B'} then Some(SpecBase(q)) else None)
  {
    assert ([q.letter] + rest)[0] == q.letter;
  }

  /** The entry of the conversion. */
  function SpecEntry(q: Spec, indexAfter: nat): Param
    requires IsSpec(q)
  {
    Param(if q.letter in {'c', 'C'} then FormatChar else if q.letter in {'s', 'S'} then FormatString else FormatInt,
          SpecFlags(q), false, false, false, q.width, SpecPrecision(q),
          if q.letter in {'d', 'o', 'x', 'X', 'b', 'B'} then SpecBase(q)
          else if q.base.Some? then q.base.value else 10,
          q.escaping, indexAfter, NOTHING)
  }

  /** The conversion compiles to its entry. */
  lemma SpecCompiles(f: string, index: nat, q: Spec, t: Table) returns (t': Table)
    requires IsSpec(q) && SpecText(q) <= f && Sequential(t) && |t.entries| < MAX_PARAMETERS
    ensures var next := index + |SpecText(q)|;
            && CompileConversion(f, index, t) == Done((t', next)) && Sequential(t')
            && t'.entries == t.entries + [SpecEntry(q, next)]
  {
    hide Qualifiers, SpecText, LexLetter, Sequential, Conclude, CompileConversion, GetPosition;
    var rest, n := f[|SpecText(q)|..], |SpecText(q)|;
    assert f == SpecText(q) + rest;
    SequentialRoom(t);
    var first := FirstConversion(t, t.parameterPosition);
    SpecRead(q, rest, index, first);
    SpecPositive(q);
    var c := Gathered(q, first);
    LastIsLetter(q, f);
    LetterRead(q, rest);
    assert f[n - 1..] == [q.letter] + rest;
    NotPositional(f, index, first, false, n - 1, c.flags);
    t' := SpecConcludes(f[n - 1..], index + n - 1, q, c, t);
    assert f[0..] == f;
    WithoutPosition(f, index, n - 1, t, c, t');
  }

  lemma SequentialRoom(t: Table)
    requires Sequential(t)
    ensures |t.usedEntries| == |t.indices| == MAX_PARAMETERS && t.parameterPosition == |t.entries| == |t.owner|
    ensures t.maxParam == |t.entries| - 1
  {
  }

  lemma SpecPositive(q: Spec)
    ensures |SpecText(q)| >= 1
  {
  }

  lemma LastIsLetter(q: Spec, f: string)
    requires SpecText(q) <= f
    ensures f[|SpecText(q)| - 1] == q.letter
  {
    assert f[|SpecText(q)| - 1] == SpecText(q)[|SpecText(q)| - 1];
  }

  lemma SpecConcludes(f: string, index: nat, q: Spec, c: Conversion, t: Table) returns (t': Table)
    requires IsSpec(q) && Sequential(t) && |t.entries| < MAX_PARAMETERS
    requires c == Gathered(q, FirstConversion(t, t.parameterPosition))
    requires LexLetter(f, c.flags)
             == Letter(if q.letter in {'c', 'C'} then FormatChar else if q.letter in {'s', 'S'} then FormatString
                       else FormatInt,
                       SpecFlags(q), if q.letter in {'d', 'o', 'x', 'X', 'b', 'B'} then Some(SpecBase(q)) else None)
    ensures Conclude(f, index, c, false, t) == Done(t') && Sequential(t')
    ensures t'.entries == t.entries + [SpecEntry(q, index + 1)]
  {
    hide LexLetter, SpecFlags, Consistent;
    ConsistentSizes(t);
    var entry := SpecEntry(q, index + 1);
    InstallConsistent(t, c.currentParam, entry);
    CountersConsistent(Install(t, c.currentParam, entry), c.maxParam, c.parameterPosition + 1);
    t' := Install(t, c.currentParam, entry).(maxParam := c.maxParam, parameterPosition := c.parameterPosition + 1);
  }

  // ----- A whole format

  /** Literal text, or a conversion. */
  datatype Piece = Plain(text: string) | Converted(spec: Spec)

  /** A percent sign is written twice. */
  function Doubled(text: string): string {
    if text == "" then "" else (if text[0] == '%' then "%%" else [text[0]]) + Doubled(text[1..])
  }

  function PieceText(piece: Piece): string {
    match piece
    case Plain(text) => Doubled(text)
    case Converted(spec) => "%" + SpecText(spec)
  }

  /** The format string. */
  function Render(pieces: seq<Piece>): string {
    if pieces == [] then "" else PieceText(pieces[0]) + Render(pieces[1..])
  }

  function Conversions(pieces: seq<Piece>): nat {
    if pieces == [] then 0 else (if pieces[0].Converted? then 1 else 0) + Conversions(pieces[1..])
  }

  predicate IsFormat(pieces: seq<Piece>) {
    pieces != [] ==>
      (match pieces[0]
       case Plain(text) => forall i :: 0 <= i < |text| ==> text[i] < 128 as char
       case Converted(spec) => IsSpec(spec)) && IsFormat(pieces[1..])
  }

  /** What it is meant to print, each conversion taking the next argument. */
  function Printout(pieces: seq<Piece>, args: Args, next: nat, loc: Locale): string
    requires IsFormat(pieces) && loc.Valid()
  {
    if pieces == [] then ""
    else
      match pieces[0]
      case Plain(text) => text + Printout(pieces[1..], args, next, loc)
      case Converted(spec) => SpecOutput(spec, args(next), loc) + Printout(pieces[1..], args, next + 1, loc)
  }

  lemma {:induction false} TextRun(format: string, i: nat, text: string, t: Table, es: seq<Param>, loc: Locale)
    requires i <= |format| && Doubled(text) <= format[i..] && loc.Valid() && |t.entries| <= |es|
    requires forall k :: 0 <= k < |text| ==> text[k] < 128 as char
    ensures i + |Doubled(text)| <= |format|
    ensures CompileFrom(format, i, t) == CompileFrom(format, i + |Doubled(text)|, t)
    ensures Execute(format, i, |t.entries|, es, loc)
            == Join(Some(text), Execute(format, i + |Doubled(text)|, |t.entries|, es, loc))
    decreases |text|
  {
    hide CompileConversion, SkipParameters, EntryText;
    var after := i + |Doubled(text)|;
    if text == "" {
      JoinNothing(Execute(format, i, |t.entries|, es, loc));
    } else {
      var n := if text[0] == '%' then 2 else 1;
      DoubledFirst(format, i, text);
      TextRun(format, i + n, text[1..], t, es, loc);
      JoinText(text, Execute(format, after, |t.entries|, es, loc));
    }
  }

  lemma JoinNothing(rest: Option<string>)
    ensures Join(Some(""), rest) == rest
  {
    if rest.Some? {
      assert "" + rest.value == rest.value;
    }
  }

  lemma JoinText(text: string, rest: Option<string>)
    requires text != ""
    ensures Join(Some(text), rest) == Join(Some([text[0]]), Join(Some(text[1..]), rest))
  {
    if rest.Some? {
      assert text + rest.value == [text[0]] + (text[1..] + rest.value);
    }
  }

  lemma DoubledFirst(format: string, i: nat, text: string)
    requires i <= |format| && Doubled(text) <= format[i..] && text != ""
    ensures var n := if text[0] == '%' then 2 else 1;
            && i + n <= |format| && Doubled(text[1..]) <= format[i + n..] && |Doubled(text)| == n + |Doubled(text[1..])|
            && format[i] == text[0] && (n == 2 ==> format[i + 1] == '%')
  {
    var n := if text[0] == '%' then 2 else 1;
    var d := Doubled(text);
    assert d == format[i..][..|d|];
    assert format[i] == d[0] && (n == 2 ==> format[i + 1] == d[1]);
    assert d[n..] == Doubled(text[1..]) && format[i..][n..] == format[i + n..];
  }

  /** What an entry with its argument prints. */
  lemma EntryOutput(q: Spec, indexAfter: nat, arg: Slot, es: seq<Param>, loc: Locale)
    requires IsSpec(q) && loc.Valid()
    ensures var e := SpecEntry(q, indexAfter);
            EntryText(es, e.(data := ReadSlot(e, arg)), loc) == Some(SpecOutput(q, arg, loc))
  {
    hide NumberText, CharText, StringText, SpecFlags, Escaped, Sent, ConversionText, SpecOutput, ReadSlot;
    FlagFacts(q);
    var e := SpecEntry(q, indexAfter);
    var data := ReadSlot(e, arg);
    assert EntryText(es, e.(data := data), loc)
        == ConversionText(e.kind, e.flags, q.width, SpecPrecision(q), e.base, q.escaping, data, loc);
    DataOutput(q, indexAfter, e.base, arg, data, loc);
  }

  lemma DataOutput(q: Spec, indexAfter: nat, b: int, arg: Slot, data: Slot, loc: Locale)
    requires IsSpec(q) && loc.Valid()
    requires q.letter !in {'c', 'C', 's', 'S'} ==> b == SpecBase(q)
    requires data == ReadSlot(SpecEntry(q, indexAfter), arg)
    ensures var kind := SpecEntry(q, indexAfter).kind;
            ConversionText(kind, SpecFlags(q), q.width, SpecPrecision(q), b, q.escaping, data, loc)
            == Some(SpecOutput(q, arg, loc))
  {
    hide NumberText, CharText, StringText, SpecFlags, Escaped, Sent;
    FlagFacts(q);
    if q.letter in {'c', 'C'} {
      IntThroughWord(arg);
    } else if q.letter in {'s', 'S'} {
      SentIsEscaped(q.escaping, arg.text);
    }
  }

  lemma FlagFacts(q: Spec)
    ensures var f := SpecFlags(q);
            && f.precision == q.precision.Some?
            && (f.long || f.quad <==> q.size in {"l", "ll", "q", "j", "z", "t"})
  {
  }

  lemma SentIsEscaped(escaping: Escaping, text: Option<string>)
    ensures Escaped(escaping, text) == Sent(escaping, text)
  {
  }

  lemma NotPercent(q: Spec)
    requires IsSpec(q)
    ensures SpecText(q) != "" && SpecText(q)[0] != '%'
  {
    hide WidthText, PrecisionText, BaseText, EscapingText, StartsOtherwise;
    PiecesStart(q);
    var text := q.marks + q.size;
    BothStart(q.marks, q.size);
    BothStart(text, WidthText(q));
    text := text + WidthText(q);
    BothStart(text, PrecisionText(q));
    text := text + PrecisionText(q);
    BothStart(text, BaseText(q));
    text := text + BaseText(q);
    BothStart(text, EscapingText(q.escaping));
    text := text + EscapingText(q.escaping);
    BothStart(text, [q.letter]);
    OtherwiseIs(SpecText(q));
  }

  predicate StartsOtherwise(s: string) {
    s == "" || s[0] != '%'
  }

  lemma OtherwiseIs(s: string)
    requires StartsOtherwise(s) && s != ""
    ensures s[0] != '%'
  {
  }

  lemma BothStart(a: string, b: string)
    requires StartsOtherwise(a) && StartsOtherwise(b)
    ensures StartsOtherwise(a + b)
  {
  }

  lemma PiecesStart(q: Spec)
    requires IsSpec(q)
    ensures StartsOtherwise(q.marks) && StartsOtherwise(q.size) && StartsOtherwise(WidthText(q))
    ensures StartsOtherwise(PrecisionText(q)) && StartsOtherwise(BaseText(q))
    ensures StartsOtherwise(EscapingText(q.escaping)) && StartsOtherwise([q.letter])
  {
    hide Decimal;
  }

  lemma SpecAt(format: string, i: nat, q: Spec, rest: string)
    requires IsSpec(q) && i <= |format| && format[i..] == "%" + SpecText(q) + rest
    ensures AtConversion(format, i) && SpecText(q) <= format[i + 1..]
    ensures i + 1 + |SpecText(q)| <= |format| && format[i + 1 + |SpecText(q)|..] == rest
  {
    hide SpecText, IsSpec;
    NotPercent(q);
    var s := SpecText(q);
    assert format[i] == format[i..][0] && format[i + 1] == format[i..][1] == s[0];
    assert format[i + 1..] == format[i..][1..] == s + rest;
    assert format[i + 1 + |s|..] == format[i..][1 + |s|..];
  }

  /** One conversion of the format. */
  lemma ConversionRun(format: string, i: nat, q: Spec, rest: string, t: Table) returns (t': Table, next: nat)
    requires IsSpec(q) && i <= |format| && format[i..] == "%" + SpecText(q) + rest
    requires Sequential(t) && |t.entries| < MAX_PARAMETERS
    ensures AtConversion(format, i) && i < next <= |format| && format[next..] == rest
    ensures CompileFrom(format, i, t) == CompileFrom(format, next, t') && Sequential(t') && Extends(t, t')
    ensures t'.entries == t.entries + [SpecEntry(q, next)]
  {
    hide CompileConversion, CompileFrom, IsSpec, SpecText, Sequential, AtConversion;
    SpecAt(format, i, q, rest);
    next := i + 1 + |SpecText(q)|;
    t' := SpecCompiles(format[i + 1..], i + 1, q, t);
    CompilesConversion(format, i, t, t', next);
    SequentialRoom(t);
    SequentialRoom(t');
    SequentialOwners(t, t');
  }

  lemma SequentialOwners(t: Table, t': Table)
    requires Sequential(t) && Sequential(t') && t.entries <= t'.entries
    ensures Extends(t, t')
  {
  }

  lemma ConversionPrints(format: string, i: nat, q: Spec, next: nat, t: Table, t': Table, u: Table, args: Args,
                         loc: Locale)
    requires IsSpec(q) && AtConversion(format, i) && i < next <= |format| && loc.Valid()
    requires t'.entries == t.entries + [SpecEntry(q, next)] && Extends(t', u) && Sequential(u)
    ensures |t.entries| < |u.entries| == |u.owner|
    ensures var es, n := Loaded(u, args), |t.entries|;
            Execute(format, i, n, es, loc)
            == Join(Some(SpecOutput(q, args(n), loc)), Execute(format, next, n + 1, es, loc))
  {
    hide Execute, SpecOutput, EntryText, Consistent;
    SequentialRoom(u);
    var es, n, e := Loaded(u, args), |t.entries|, SpecEntry(q, next);
    assert u.entries[n] == t'.entries[n] == e && u.owner[n] == n;
    assert es[n] == e.(data := ReadSlot(e, args(n)));
    EntryOutput(q, next, args(n), es, loc);
    ExecutesConversion(format, i, n, es, loc);
  }

  lemma {:induction false} PiecesRun(format: string, i: nat, pieces: seq<Piece>, t: Table, args: Args, loc: Locale)
    returns (u: Table)
    requires i <= |format| && format[i..] == Render(pieces) && IsFormat(pieces) && loc.Valid()
    requires Sequential(t) && |t.entries| + Conversions(pieces) <= MAX_PARAMETERS
    ensures CompileFrom(format, i, t) == Done(u) && Sequential(u) && Extends(t, u) && |t.entries| <= |u.entries|
    ensures |u.entries| == |u.owner| && |t.entries| == |t.owner|
    ensures Execute(format, i, |t.entries|, Loaded(u, args), loc)
            == Some(Printout(pieces, args, |t.entries|, loc))
    decreases |pieces|
  {
    hide CompileConversion, CompileFrom, Execute, SpecOutput, SpecText, IsSpec, Sequential, Doubled, AtConversion;
    SequentialRoom(t);
    if pieces == [] {
      u := t;
      ScannedAll(format, t, format, t);
      ExecutesNothing(format, |t.entries|, Loaded(u, args), loc);
      assert i == |format|;
    } else {
      var rest := Render(pieces[1..]);
      match pieces[0]
      case Plain(text) =>
        var next := i + |Doubled(text)|;
        assert Doubled(text) <= format[i..] && format[next..] == format[i..][|Doubled(text)|..] == rest;
        u := PiecesRun(format, next, pieces[1..], t, args, loc);
        TextRun(format, i, text, t, Loaded(u, args), loc);
      case Converted(spec) =>
        assert format[i..] == "%" + SpecText(spec) + rest;
        var t', next := ConversionRun(format, i, spec, rest, t);
        u := PiecesRun(format, next, pieces[1..], t', args, loc);
        ExtendsTransitive(t, t', u);
        ConversionPrints(format, i, spec, next, t, t', u, args, loc);
    }
  }

  /** Every format of up to 64 conversions is accepted, and prints what its pieces say. */
  lemma RenderedOutput(pieces: seq<Piece>, args: Args, loc: Locale)
    requires IsFormat(pieces) && Conversions(pieces) <= MAX_PARAMETERS && loc.Valid()
    ensures Output(Render(pieces), args, loc) == Done(Printout(pieces, args, 0, loc))
  {
    hide CompileFrom, Execute, Printout, IsFormat, Render, Conversions, CheckFrom, Largest;
    var format := Render(pieces);
    EmptySequential();
    assert format[0..] == format;
    var u := PiecesRun(format, 0, pieces, EMPTY_TABLE, args, loc);
    SequentialAccepted(u);
  }

  lemma TooManyHere(format: string, i: nat, q: Spec, rest: string, t: Table)
    requires IsSpec(q) && i <= |format| && format[i..] == "%" + SpecText(q) + rest
    requires Sequential(t) && |t.entries| == MAX_PARAMETERS
    ensures CompileFrom(format, i, t).Rejected? && CompileFrom(format, i, t).code == TRIO_ETOOMANY
  {
    hide IsSpec, SpecText, Sequential, Qualifiers, Conclude, GetPosition;
    SpecAt(format, i, q, rest);
    SequentialRoom(t);
    var f := format[i + 1..];
    var first := FirstConversion(t, t.parameterPosition);
    var after := f[|SpecText(q)|..];
    assert f == SpecText(q) + after;
    SpecRead(q, after, i + 1, first);
    SpecPositive(q);
    LastIsLetter(q, f);
    LetterRead(q, after);
    assert f[|SpecText(q)| - 1..] == [q.letter] + after;
    NotPositional(f, i + 1, first, false, |SpecText(q)| - 1, SpecFlags(q.(letter := 'd')));
    RejectedNow(format, i, t);
  }

  lemma TextCompiles(format: string, i: nat, text: string, rest: string, t: Table)
    requires i <= |format| && format[i..] == Doubled(text) + rest
    requires forall k :: 0 <= k < |text| ==> text[k] < 128 as char
    ensures i + |Doubled(text)| <= |format| && format[i + |Doubled(text)|..] == rest
    ensures CompileFrom(format, i, t) == CompileFrom(format, i + |Doubled(text)|, t)
  {
    hide CompileFrom, Execute, Doubled;
    var n := |Doubled(text)|;
    assert Doubled(text) <= format[i..] && format[i + n..] == format[i..][n..] == rest;
    TextRun(format, i, text, t, t.entries, C_LOCALE);
  }

  lemma RejectedNow(format: string, i: nat, t: Table)
    requires AtConversion(format, i) && GetPosition(format[i + 1..]) == (NO_POSITION, 0)
    requires t.parameterPosition >= MAX_PARAMETERS
    ensures CompileFrom(format, i, t).Rejected? && CompileFrom(format, i, t).code == TRIO_ETOOMANY
  {
    hide GetPosition, Qualifiers, Conclude;
  }

  lemma {:induction false} TooManyRun(format: string, i: nat, pieces: seq<Piece>, t: Table)
    requires i <= |format| && format[i..] == Render(pieces) && IsFormat(pieces)
    requires Sequential(t) && |t.entries| <= MAX_PARAMETERS < |t.entries| + Conversions(pieces)
    ensures CompileFrom(format, i, t).Rejected? && CompileFrom(format, i, t).code == TRIO_ETOOMANY
    decreases |pieces|
  {
    hide CompileConversion, CompileFrom, SpecText, IsSpec, Sequential, Doubled, AtConversion, Execute, Extends;
    SequentialRoom(t);
    var rest := Render(pieces[1..]);
    match pieces[0]
    case Plain(text) =>
      var next := i + |Doubled(text)|;
      assert format[i..] == Doubled(text) + rest;
      TextCompiles(format, i, text, rest, t);
      TooManyRun(format, next, pieces[1..], t);
    case Converted(spec) =>
      assert format[i..] == "%" + SpecText(spec) + rest;
      if |t.entries| == MAX_PARAMETERS {
        TooManyHere(format, i, spec, rest, t);
      } else {
        var t', next := ConversionRun(format, i, spec, rest, t);
        TooManyRun(format, next, pieces[1..], t');
      }
  }

  /** One with more is rejected as having too many. */
  lemma TooManyRejected(pieces: seq<Piece>, args: Args, loc: Locale)
    requires IsFormat(pieces) && Conversions(pieces) > 64 && loc.Valid()
    ensures var r := Output(Render(pieces), args, loc); r.Rejected? && r.code == TRIO_ETOOMANY
  {
    hide CompileFrom, Execute, IsFormat, Render, Conversions;
    EmptySequential();
    assert Render(pieces)[0..] == Render(pieces);
    TooManyRun(Render(pieces), 0, pieces, EMPTY_TABLE);
  }
}
