/** The writers of trio: numbers, characters and strings sent to an output stream. */
module TrioWriter {
  import opened Arith
  import opened CText
  import opened Numerals
  import opened TrioNumber
  import opened TrioStream

  lemma PowersTo64()
    ensures Pow2(64) == TWO64
  {
    assert Pow2(8) == 256 by {
      assert Pow2(4) == 16;
      Pow2Sum(4, 4);
    }
    Pow2Sum(8, 8);
    Pow2Sum(16, 16);
    Pow2Sum(32, 32);
  }

  lemma {:induction false} DigitsSplit(n: nat, b: base, upper: bool)
    ensures var ds := Digits(n, b, upper);
            && ds[|ds| - 1..] == [DigitChar(n % b, upper)]
            && (n < b ==> |ds| == 1 && n / b == 0)
            && (n >= b ==> n / b > 0 && ds[..|ds| - 1] == Digits(n / b, b, upper))
  {
    Division(n, b);
    if n < b {
      DivModUnique(n, b, 0, n);
    }
  }

  /** Base 2 needs the most digits. */
  lemma {:induction false} DigitsAtMost(n: nat, b: base, upper: bool, k: nat)
    requires k > 0 && n < Pow2(k)
    ensures |Digits(n, b, upper)| <= k
    decreases k
  {
    DigitsSplit(n, b, upper);
    if n >= b {
      Division(n, b);
      assert n / b < Pow2(k - 1) by {
        if n / b >= Pow2(k - 1) {
          MulMono(n / b, 2, b);
          assert false;
        }
      }
      assert k > 1;
      DigitsAtMost(n / b, b, upper, k - 1);
    }
  }

  lemma MulMono(q: nat, a: nat, b: nat)
    requires a <= b
    ensures q * a <= q * b
  {
  }

  lemma AtMost64Digits(n: uint64, b: base, upper: bool)
    ensures |Digits(n, b, upper)| <= 64
  {
    PowersTo64();
    DigitsAtMost(n, b, upper, 64);
  }

  /** One digit more: the text that ends in `acc` when the last of the digits ds is due. */
  lemma {:induction false} SeparatedStep(ds: string, quote: bool, loc: Locale, i: nat, size: int, index: nat,
                                         acc: string)
    requires |ds| > 1 && loc.Valid() && size > 0
    ensures var sep := SeparatorAfter(i, size, quote);
            var (size', index') := if sep then NextGroup(size, index, loc) else (size, index);
            Separated(ds, quote, loc, i, size, index) + acc
              == Separated(ds[..|ds| - 1], quote, loc, i + 1, size', index')
                 + ((if sep then loc.separator else "") + (ds[|ds| - 1..] + acc))
  {
  }

  lemma SeparatedLast(ds: string, quote: bool, loc: Locale, i: nat, size: int, index: nat, acc: string)
    requires |ds| == 1 && loc.Valid() && size > 0
    ensures Separated(ds, quote, loc, i, size, index) + acc == ds[|ds| - 1..] + acc
  {
  }

  /** The conversion buffer with its terminator, filled backwards. */
  method BuildDigits(n: uint64, f: Flags, b: base, loc: Locale) returns (buffer: array<char>, pointer: int)
    requires loc.Valid()
    ensures fresh(buffer) && Holds(buffer, pointer, Numeral(n, b, f, loc))
  {
    buffer := new char[BUFFER_SIZE];
    buffer[BUFFER_SIZE - 1] := '\0';
    AtMost64Digits(n, b, f.upper);
    pointer := FillDigits(buffer, n, f, b, loc, Digits(n, b, f.upper));
  }

  /** The digit loop. The buffer always has room, also for every separator. */
  method FillDigits(buffer: array<char>, n: nat, f: Flags, b: base, loc: Locale, ghost digits: string)
    returns (pointer: int)
    requires loc.Valid() && Holds(buffer, BUFFER_SIZE - 2, "")
    requires digits == Digits(n, b, f.upper) && |digits| <= 64
    modifies buffer
    ensures Holds(buffer, pointer, Separated(digits, f.quote, loc, 1, loc.grouping[0], 1))
  {
    hide Digits, Separated;
    pointer := BUFFER_SIZE - 2;
    var number := n;
    var charsPerThousand := loc.grouping[0];
    var groupingIndex := 1;
    var i := 1;
    ghost var acc, ds := "", digits;
    ghost var numeral := Separated(digits, f.quote, loc, 1, loc.grouping[0], 1);
    while i < BUFFER_SIZE
      invariant ds != [] && ds == Digits(number, b, f.upper)
      invariant 1 <= i && i + |ds| <= 65 && charsPerThousand > 0
      invariant (|ds| - 1) * 17 + 16 <= pointer < BUFFER_SIZE - 1
      invariant Holds(buffer, pointer, acc)
      invariant numeral == Separated(ds, f.quote, loc, i, charsPerThousand, groupingIndex) + acc
    {
      ghost var before := acc;
      buffer[pointer], number := TakeDigit(number, b, f.upper);
      acc := ds[|ds| - 1..] + acc;
      pointer := pointer - 1;
      if number == 0 {
        SeparatedLast(ds, f.quote, loc, i, charsPerThousand, groupingIndex, before);
        break;
      }
      SeparatedStep(ds, f.quote, loc, i, charsPerThousand, groupingIndex, before);
      ds := ds[..|ds| - 1];
      pointer, charsPerThousand, groupingIndex, acc :=
        PutSeparator(buffer, pointer, f.quote, loc, i, charsPerThousand, groupingIndex, acc);
      i := i + 1;
    }
  }

  /** Between two digits: the separator, if one is due and fits, and then the next group size. */
  method PutSeparator(buffer: array<char>, start: int, quote: bool, loc: Locale, i: nat, size: int, index: nat,
                      ghost acc: string)
    returns (pointer: int, size': int, index': nat, ghost after: string)
    requires loc.Valid() && size > 0
    requires Holds(buffer, start, acc) && MAX_LOCALE_SEPARATOR_LENGTH < start < BUFFER_SIZE - 1
    modifies buffer
    ensures start - MAX_LOCALE_SEPARATOR_LENGTH <= pointer <= start
    ensures var sep := SeparatorAfter(i, size, quote);
            && size' > 0 && (size', index') == (if sep then NextGroup(size, index, loc) else (size, index))
            && after == (if sep then loc.separator else "") + acc
            && Holds(buffer, pointer, after)
  {
    pointer, size', index', after := start, size, index, acc;
    if SeparatorAfter(i, size, quote) {
      if pointer - |loc.separator| > 0 {
        pointer := CopyBack(buffer, pointer, loc.separator, acc);
        after := loc.separator + acc;
      }
      size', index' := AdvanceGroup(size, index, loc);
    }
  }

  /** The text between the pointer and the terminator. */
  ghost predicate Holds(buffer: array<char>, pointer: int, text: string)
    reads buffer
  {
    && buffer.Length == BUFFER_SIZE && buffer[BUFFER_SIZE - 1] == '\0'
    && 0 <= pointer + 1 <= BUFFER_SIZE - 1 && buffer[pointer + 1..BUFFER_SIZE - 1] == text
  }

  /** digits[number % base], and number /= base. */
  method TakeDigit(number: nat, b: base, upper: bool) returns (digit: char, rest: nat)
    ensures var ds := Digits(number, b, upper);
            && ds[|ds| - 1..] == [digit]
            && (|ds| == 1 <==> rest == 0)
            && (rest != 0 ==> ds[..|ds| - 1] == Digits(rest, b, upper))
  {
    DigitsSplit(number, b, upper);
    digit := DigitChar(number % b, upper);
    rest := number / b;
  }

  method AdvanceGroup(charsPerThousand: int, groupingIndex: nat, loc: Locale) returns (size: int, index: nat)
    requires loc.Valid() && charsPerThousand > 0
    ensures size > 0 && (size, index) == NextGroup(charsPerThousand, groupingIndex, loc)
  {
    size, index := charsPerThousand, groupingIndex;
    if groupingIndex < |loc.grouping| {
      if loc.grouping[groupingIndex] == NO_GROUPING {
        size := NO_GROUPING;
      } else {
        size := loc.grouping[groupingIndex];
        index := groupingIndex + 1;
      }
    }
  }

  /** Copies the separator backwards, its last character first. */
  method CopyBack(buffer: array<char>, start: int, separator: string, ghost acc: string)
    returns (pointer: int)
    requires Holds(buffer, start, acc) && |separator| <= start < BUFFER_SIZE - 1
    modifies buffer
    ensures pointer == start - |separator| && Holds(buffer, pointer, separator + acc)
  {
    pointer := start;
    var p := |separator|;
    while p > 0
      invariant 0 <= p <= |separator| && pointer == start - (|separator| - p)
      invariant Holds(buffer, pointer, separator[p..] + acc)
    {
      buffer[pointer] := separator[p - 1];
      pointer := pointer - 1;
      p := p - 1;
    }
  }

  /** while (width-- > low) OutStream(c): the copies sent, and width as the loop leaves it. */
  method PadTo(self: Stream, c: char, width: int, low: int) returns (left: int)
    requires self.Valid() && self.HasRoom(Max(0, width - low))
    modifies self.Repr
    ensures self.Valid() && fresh(self.Repr - old(self.Repr))
    ensures self.written == old(self.written) + Fill(c, width - low)
    ensures left == Min(width, low) - 1
    ensures self.kind != Doubling ==> self.buffer == old(self.buffer)
  {
    hide Stream.Valid;
    left := width;
    while left > low
      invariant left <= width && left >= Min(width, low)
      invariant self.Valid() && fresh(self.Repr - old(self.Repr)) && self.HasRoom(Max(0, left - low))
      invariant self.written == old(self.written) + Fill(c, width - left)
      invariant self.kind != Doubling ==> self.buffer == old(self.buffer)
    {
      self.Put(c);
      left := left - 1;
      assert Fill(c, width - left) == Fill(c, width - left - 1) + [c];
    }
    assert width - left == Max(0, width - low);
    left := left - 1;
  }

  method PutString(self: Stream, text: string)
    requires self.Valid() && self.HasRoom(|text|)
    modifies self.Repr
    ensures self.Valid() && fresh(self.Repr - old(self.Repr))
    ensures self.written == old(self.written) + text
    ensures self.kind != Doubling ==> self.buffer == old(self.buffer)
  {
    hide Stream.Valid;
    for i := 0 to |text|
      invariant self.Valid() && fresh(self.Repr - old(self.Repr)) && self.HasRoom(|text| - i)
      invariant self.written == old(self.written) + text[..i]
      invariant self.kind != Doubling ==> self.buffer == old(self.buffer)
    {
      self.Put(text[i]);
    }
    assert text[..|text|] == text;
  }

  /** TrioWriteNumber: one mutated width runs through the space, zero and trailing padding, and the
      field that comes out is NumberText. */
  method WriteNumber(self: Stream, n: uint64, f: Flags, w: int, p: int, b: base, loc: Locale)
    requires self.Valid() && loc.Valid() && self.HasRoom(|NumberText(n, f, w, p, b, loc)|)
    modifies self.Repr
    ensures self.Valid() && fresh(self.Repr - old(self.Repr))
    ensures self.written == old(self.written) + NumberText(n, f, w, p, b, loc)
    ensures self.kind != Doubling ==> self.buffer == old(self.buffer)
  {
    hide Stream.Valid, Numeral;
    var isNegative := !f.unsigned && n >= TWO64 / 2;
    var number := n;
    if isNegative {
      number := (TWO64 - number) % TWO64;
    }
    if !(f.quad || f.long) {
      number := number % TWO32;
    }
    var buffer, pointer := BuildDigits(number, f, b, loc);
    var digits := buffer[pointer + 1..BUFFER_SIZE - 1];
    var width, precision, nilPadding := AdjustWidth(f, isNegative, w, p, b, |digits|);
    EmitField(self, f, isNegative, b, width, precision, nilPadding, digits);
  }

  /** The width left for padding and the zeros still needed for the precision, if one was given. */
  method AdjustWidth(f: Flags, isNegative: bool, w: int, p: int, b: base, length: nat)
    returns (width: int, precision: int, nilPadding: bool)
    ensures width == w - length - |SignText(isNegative, f)| - |PrefixText(b, f)|
    ensures if p == NO_PRECISION then precision == NO_PRECISION && nilPadding == f.nilPadding
            else precision == Max(0, p - length) && nilPadding
  {
    width, precision, nilPadding := w - length, p, f.nilPadding;
    if precision != NO_PRECISION {
      precision := precision - length;
      if precision < 0 {
        precision := 0;
      }
      nilPadding := true;
    }
    if isNegative || f.showSign || f.space {
      width := width - 1;
    }
    if f.alternative {
      if b == 2 || b == 16 {
        width := width - 2;
      } else if b == 8 {
        width := width - 1;
      }
    }
  }

  lemma JoinSix(o: string, a: string, b: string, c: string, d: string, e: string, g: string)
    ensures o + (a + b + c + d + e + g) == o + a + b + c + d + e + g
  {
  }

  lemma FieldParts(f: Flags, sign: string, prefix: string, w: int, zeros: nat, digits: string,
                   lead: string, trail: string)
    requires lead == (if f.leftAdjust then "" else Fill(' ', w - zeros))
    requires trail == (if f.leftAdjust then Fill(' ', w - zeros) else "")
    ensures FieldText(f, sign + prefix, w, zeros, digits) == lead + sign + prefix + Fill('0', zeros) + digits + trail
  {
    if f.leftAdjust {
      assert lead + sign == sign;
    } else {
      var t := lead + sign + prefix + Fill('0', zeros) + digits;
      assert t + "" == t;
    }
  }

  /** The number of zeros between the head and the digits. */
  function Zeros(w: int, p: int, nilPadding: bool): nat
    requires p >= NO_PRECISION
  {
    if p != NO_PRECISION then p else if nilPadding then Max(0, w) else 0
  }

  /** The leading spaces, the sign and the prefix. */
  method EmitHead(self: Stream, f: Flags, sign: string, prefix: string, w: int, p: int, nilPadding: bool)
    returns (width: int)
    requires p == NO_PRECISION || (p >= 0 && nilPadding)
    requires self.Valid()
    requires self.HasRoom((if f.leftAdjust then 0 else Max(0, w - Zeros(w, p, nilPadding))) + |sign| + |prefix|)
    modifies self.Repr
    ensures self.Valid() && fresh(self.Repr - old(self.Repr))
    ensures self.written == old(self.written)
                            + (if f.leftAdjust then "" else Fill(' ', w - Zeros(w, p, nilPadding))) + sign + prefix
    ensures f.leftAdjust || (nilPadding && p == NO_PRECISION) ==> width == w
    ensures self.kind != Doubling ==> self.buffer == old(self.buffer)
  {
    hide Stream.Valid;
    width := w;
    if !(f.leftAdjust || (nilPadding && p == NO_PRECISION)) {
      var count := if p == NO_PRECISION then 0 else p;
      width := PadTo(self, ' ', width, count);
    }
    PutString(self, sign);
    PutString(self, prefix);
  }

  /** The zeros, the digits and the trailing spaces. */
  method EmitTail(self: Stream, f: Flags, w: int, p: int, nilPadding: bool, digits: string)
    requires p == NO_PRECISION || (p >= 0 && nilPadding)
    requires self.Valid()
    requires self.HasRoom(Zeros(w, p, nilPadding) + |digits|
                          + (if f.leftAdjust then Max(0, w - Zeros(w, p, nilPadding)) else 0))
    modifies self.Repr
    ensures self.Valid() && fresh(self.Repr - old(self.Repr))
    ensures self.written == old(self.written) + Fill('0', Zeros(w, p, nilPadding)) + digits
                            + (if f.leftAdjust then Fill(' ', w - Zeros(w, p, nilPadding)) else "")
    ensures self.kind != Doubling ==> self.buffer == old(self.buffer)
  {
    hide Stream.Valid;
    var width, precision := w, p;
    if nilPadding {
      if precision == NO_PRECISION {
        precision := width;
      }
      width := width - Max(precision, 0);
      var _ := PadTo(self, '0', precision, 0);
    }
    PutString(self, digits);
    if f.leftAdjust {
      var _ := PadTo(self, ' ', width, 0);
    }
  }

  /** The output loops, from the leading spaces to the trailing ones. */
  method EmitField(self: Stream, f: Flags, isNegative: bool, b: base, w: int, p: int, nilPadding: bool, digits: string)
    requires p == NO_PRECISION || (p >= 0 && nilPadding)
    requires var head := SignText(isNegative, f) + PrefixText(b, f);
             self.Valid() && self.HasRoom(|FieldText(f, head, w, Zeros(w, p, nilPadding), digits)|)
    modifies self.Repr
    ensures self.Valid() && fresh(self.Repr - old(self.Repr))
    ensures var head := SignText(isNegative, f) + PrefixText(b, f);
            self.written == old(self.written) + FieldText(f, head, w, Zeros(w, p, nilPadding), digits)
    ensures self.kind != Doubling ==> self.buffer == old(self.buffer)
  {
    hide Stream.Valid;
    ghost var zeros := Zeros(w, p, nilPadding);
    ghost var lead := if f.leftAdjust then "" else Fill(' ', w - zeros);
    ghost var trail := if f.leftAdjust then Fill(' ', w - zeros) else "";
    var sign, prefix := SignText(isNegative, f), PrefixText(b, f);
    FieldParts(f, sign, prefix, w, zeros, digits, lead, trail);
    var width := EmitHead(self, f, sign, prefix, w, p, nilPadding);
    assert Zeros(width, p, nilPadding) == zeros;
    EmitTail(self, f, width, p, nilPadding, digits);
    JoinSix(old(self.written), lead, sign, prefix, Fill('0', zeros), digits, trail);
  }

  /** isprint() in the C locale. */
  predicate IsPrint(c: char) {
    ' ' <= c <= '~'
  }

  const ESCAPE_FLAGS := FLAGS_NEW.(unsigned := true, nilPadding := true)

  /** The escape of a character that can not be printed, after its backslash. */
  function EscapeText(c: char): string {
    if c as int == 7 then "a"
    else if c as int == 8 then "b"
    else "x" + NumberText(c as int % TWO64, ESCAPE_FLAGS, 2, 2, 16, C_LOCALE)
  }

  /** What TrioWriteStringCharacter sends for one character. Form feed, newline, carriage return and
      the tabs are white space, so their escapes are never used. */
  function CharacterText(c: char, f: Flags): string {
    if !f.alternative then [c]
    else if !(IsPrint(c) || IsSpace(c)) then "\\" + EscapeText(c)
    else if c == '\\' then "\\\\"
    else [c]
  }

  function CharactersText(s: string, f: Flags): (r: string)
    ensures !f.alternative ==> r == s
  {
    if s == [] then "" else CharactersText(s[..|s| - 1], f) + CharacterText(s[|s| - 1], f)
  }

  /** The number of characters of a string argument that are shown; it is negative for a negative
      precision other than -1. */
  function ShownLength(s: string, precision: int): int {
    if precision != NO_PRECISION && precision < |s| then precision else |s|
  }

  /** Text between its padding and quotes. */
  function Padded(f: Flags, quote: bool, room: int, body: string): string {
    var q := if quote then "\"" else "";
    var pad := Fill(' ', room);
    q + (if f.leftAdjust then body + pad else pad + body) + q
  }

  /** What TrioWriteString sends. A NULL pointer loses its width and quotes. */
  function StringText(s: Option<string>, f: Flags, width: int, precision: int): string {
    match s
    case None =>
      var length := ShownLength("(nil)", precision);
      Padded(f, false, 0 - length, CharactersText("(nil)"[..Max(0, length)], f))
    case Some(text) =>
      var length := ShownLength(text, precision);
      Padded(f, f.quote, width - length, CharactersText(text[..Max(0, length)], f))
  }

  /** The character of an int argument. One that is no byte keeps its low eight bits, unless it is
      to be shown as a number. */
  function CodeText(code: int, f: Flags): string {
    if 0 <= code < 256 then CharacterText(code as char, f)
    else if !f.alternative then [(code % 256) as char]
    else "\\x" + NumberText(code % TWO64, ESCAPE_FLAGS, 2, 2, 16, C_LOCALE)
  }

  /** What the character conversion sends: one column of the width is the character's. */
  function CharText(code: int, f: Flags, width: int): string {
    Padded(f, f.quote, width - 1, CodeText(code, f))
  }

  method WriteStringCharacter(self: Stream, c: char, f: Flags)
    requires self.Valid() && self.HasRoom(|CharacterText(c, f)|)
    modifies self.Repr
    ensures self.Valid() && fresh(self.Repr - old(self.Repr))
    ensures self.written == old(self.written) + CharacterText(c, f)
    ensures self.kind != Doubling ==> self.buffer == old(self.buffer)
  {
    hide Stream.Valid, EscapeText;
    if !f.alternative {
      self.Put(c);
    } else if !(IsPrint(c) || IsSpace(c)) {
      WriteEscape(self, c);
    } else if c == '\\' {
      self.Put('\\');
      self.Put('\\');
    } else {
      self.Put(c);
    }
  }

  method WriteEscape(self: Stream, c: char)
    requires self.Valid() && self.HasRoom(1 + |EscapeText(c)|)
    modifies self.Repr
    ensures self.Valid() && fresh(self.Repr - old(self.Repr))
    ensures self.written == old(self.written) + "\\" + EscapeText(c)
    ensures self.kind != Doubling ==> self.buffer == old(self.buffer)
  {
    hide Stream.Valid, NumberText, Numeral, Magnitude, DigitChar;
    self.Put('\\');
    if c as int == 7 {
      self.Put('a');
    } else if c as int == 8 {
      self.Put('b');
    } else {
      self.Put('x');
      WriteNumber(self, c as int % TWO64, ESCAPE_FLAGS, 2, 2, 16, C_LOCALE);
    }
  }

  /** The characters of a string, one by one. */
  method WriteCharacters(self: Stream, text: string, f: Flags)
    requires self.Valid() && self.HasRoom(|CharactersText(text, f)|)
    modifies self.Repr
    ensures self.Valid() && fresh(self.Repr - old(self.Repr))
    ensures self.written == old(self.written) + CharactersText(text, f)
    ensures self.kind != Doubling ==> self.buffer == old(self.buffer)
  {
    hide Stream.Valid, CharacterText;
    for i := 0 to |text|
      invariant self.Valid() && fresh(self.Repr - old(self.Repr))
      invariant self.written == old(self.written) + CharactersText(text[..i], f)
      invariant self.kind != Doubling ==> self.buffer == old(self.buffer)
    {
      assert text[..i + 1][..i] == text[..i];
      ShorterText(text, i + 1, f);
      WriteStringCharacter(self, text[i], f);
    }
    assert text[..|text|] == text;
  }

  lemma {:induction false} ShorterText(s: string, k: nat, f: Flags)
    requires k <= |s|
    ensures |CharactersText(s[..k], f)| <= |CharactersText(s, f)|
    decreases |s|
  {
    if k < |s| {
      assert s[..|s| - 1][..k] == s[..k];
      ShorterText(s[..|s| - 1], k, f);
    } else {
      assert s[..k] == s;
    }
  }

  /** TrioWriteString: quote, leading spaces, the characters that the precision leaves, trailing
      spaces, quote. */
  method WriteString(self: Stream, s: Option<string>, flags: Flags, w: int, precision: int)
    requires self.Valid() && self.HasRoom(|StringText(s, flags, w, precision)|)
    modifies self.Repr
    ensures self.Valid() && fresh(self.Repr - old(self.Repr))
    ensures self.written == old(self.written) + StringText(s, flags, w, precision)
    ensures self.kind != Doubling ==> self.buffer == old(self.buffer)
  {
    hide Stream.Valid, StringText, Padded, CharactersText;
    StringTextParts(s, flags, w, precision);
    var text, f, width := "(nil)", flags, 0;
    if s == None {
      f := f.(quote := false);
    } else {
      text := s.value;
      width := w;
    }
    var length: int := |text|;
    if precision != NO_PRECISION && precision < length {
      length := precision;
    }
    width := width - length;
    WritePadded(self, f, width, text[..Max(0, length)]);
  }

  lemma StringTextParts(s: Option<string>, flags: Flags, w: int, precision: int)
    ensures var text := if s == None then "(nil)" else s.value;
            var f := if s == None then flags.(quote := false) else flags;
            var length := ShownLength(text, precision);
            var room := (if s == None then 0 else w) - length;
            StringText(s, flags, w, precision) == Padded(f, f.quote, room, CharactersText(text[..Max(0, length)], f))
  {
    if s == None {
      SameCharacters("(nil)"[..Max(0, ShownLength("(nil)", precision))], flags.(quote := false), flags);
    }
  }

  lemma {:induction false} SameCharacters(s: string, f: Flags, g: Flags)
    requires f.alternative == g.alternative
    ensures CharactersText(s, f) == CharactersText(s, g)
  {
    if s != [] {
      SameCharacters(s[..|s| - 1], f, g);
    }
  }

  /** The opening quote and the leading spaces. */
  method Open(self: Stream, f: Flags, w: int) returns (width: int)
    requires self.Valid() && self.HasRoom((if f.quote then 1 else 0) + (if f.leftAdjust then 0 else Max(0, w)))
    modifies self.Repr
    ensures self.Valid() && fresh(self.Repr - old(self.Repr))
    ensures self.written == old(self.written) + (if f.quote then "\"" else "")
                            + (if f.leftAdjust then "" else Fill(' ', w))
    ensures f.leftAdjust ==> width == w
    ensures self.kind != Doubling ==> self.buffer == old(self.buffer)
  {
    hide Stream.Valid;
    width := w;
    if f.quote {
      self.Put('"');
    }
    if !f.leftAdjust {
      width := PadTo(self, ' ', width, 0);
    }
  }

  /** The trailing spaces and the closing quote. */
  method Close(self: Stream, f: Flags, w: int)
    requires self.Valid() && self.HasRoom((if f.leftAdjust then Max(0, w) else 0) + (if f.quote then 1 else 0))
    modifies self.Repr
    ensures self.Valid() && fresh(self.Repr - old(self.Repr))
    ensures self.written == old(self.written) + (if f.leftAdjust then Fill(' ', w) else "")
                            + (if f.quote then "\"" else "")
    ensures self.kind != Doubling ==> self.buffer == old(self.buffer)
  {
    hide Stream.Valid;
    if f.leftAdjust {
      var _ := PadTo(self, ' ', w, 0);
    }
    if f.quote {
      self.Put('"');
    }
  }

  lemma PaddedParts(o: string, f: Flags, room: int, body: string)
    ensures var q := if f.quote then "\"" else "";
            var lead := if f.leftAdjust then "" else Fill(' ', room);
            var trail := if f.leftAdjust then Fill(' ', room) else "";
            && |Padded(f, f.quote, room, body)| == 2 * |q| + Max(0, room) + |body|
            && o + q + lead + body + trail + q == o + Padded(f, f.quote, room, body)
  {
    var q := if f.quote then "\"" else "";
    if f.leftAdjust {
      assert o + q + "" + body + Fill(' ', room) + q == o + (q + (body + Fill(' ', room)) + q);
    } else {
      assert o + q + Fill(' ', room) + body + "" + q == o + (q + (Fill(' ', room) + body) + q);
    }
  }

  method WritePadded(self: Stream, f: Flags, w: int, shown: string)
    requires self.Valid() && self.HasRoom(|Padded(f, f.quote, w, CharactersText(shown, f))|)
    modifies self.Repr
    ensures self.Valid() && fresh(self.Repr - old(self.Repr))
    ensures self.written == old(self.written) + Padded(f, f.quote, w, CharactersText(shown, f))
    ensures self.kind != Doubling ==> self.buffer == old(self.buffer)
  {
    hide Stream.Valid, CharactersText, Padded;
    PaddedParts(self.written, f, w, CharactersText(shown, f));
    var width := Open(self, f, w);
    WriteCharacters(self, shown, f);
    Close(self, f, width);
  }

  method WriteCode(self: Stream, code: int, f: Flags)
    requires self.Valid() && self.HasRoom(|CodeText(code, f)|)
    modifies self.Repr
    ensures self.Valid() && fresh(self.Repr - old(self.Repr))
    ensures self.written == old(self.written) + CodeText(code, f)
    ensures self.kind != Doubling ==> self.buffer == old(self.buffer)
  {
    hide Stream.Valid, NumberText, CharacterText;
    if 0 <= code < 256 {
      WriteStringCharacter(self, code as char, f);
    } else if !f.alternative {
      self.Put((code % 256) as char);
    } else {
      self.Put('\\');
      self.Put('x');
      WriteNumber(self, code % TWO64, ESCAPE_FLAGS, 2, 2, 16, C_LOCALE);
    }
  }

  /** The character conversion of TrioFormatProcess. */
  method WriteChar(self: Stream, code: int, f: Flags, w: int)
    requires self.Valid() && self.HasRoom(|CharText(code, f, w)|)
    modifies self.Repr
    ensures self.Valid() && fresh(self.Repr - old(self.Repr))
    ensures self.written == old(self.written) + CharText(code, f, w)
    ensures self.kind != Doubling ==> self.buffer == old(self.buffer)
  {
    hide Stream.Valid, CodeText, Padded;
    PaddedParts(self.written, f, w - 1, CodeText(code, f));
    var width := Open(self, f, w - 1);
    WriteCode(self, code, f);
    Close(self, f, width);
  }
}
