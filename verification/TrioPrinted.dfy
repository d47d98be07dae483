/** What common formats print, and what width and precision do to a text. */
module TrioPrinted {
  import opened CText
  import opened Numerals
  import opened TrioNumber
  import opened TrioGrouping
  import opened TrioWriter
  import opened TrioLexer
  import opened TrioCompile
  import opened TrioFormatter
  import opened TrioFormats
  import Escapes = Escape

  // ----- Width and precision

  /** A width adds spaces to a number, behind it or in front of it, or zeros after its sign and prefix. */
  lemma WidthPads(number: uint64, f: Flags, width: int, precision: int, b: base, loc: Locale)
    requires loc.Valid()
    ensures var narrow := NumberText(number, f, 0, precision, b, loc);
            var wide := NumberText(number, f, width, precision, b, loc);
            var more := |wide| - |narrow|;
            if f.nilPadding && precision == -1 then
              var head := |SignText(IsNegative(number, f), f) + PrefixText(b, f)|;
              head <= |narrow| && wide == narrow[..head] + Fill('0', more) + narrow[head..]
            else if f.leftAdjust then wide == narrow + Fill(' ', more)
            else wide == Fill(' ', more) + narrow
  {
    hide Numeral, Magnitude, SignText, PrefixText, IsNegative, Fill;
    var digits := Numeral(Magnitude(number, f), b, f, loc);
    var head := SignText(IsNegative(number, f), f) + PrefixText(b, f);
    FieldPads(f, head, width, precision, digits);
    NumberIsField(number, f, 0, precision, b, loc);
    NumberIsField(number, f, width, precision, b, loc);
  }

  lemma NumberIsField(number: uint64, f: Flags, width: int, precision: int, b: base, loc: Locale)
    requires loc.Valid()
    ensures var digits := Numeral(Magnitude(number, f), b, f, loc);
            var head := SignText(IsNegative(number, f), f) + PrefixText(b, f);
            NumberText(number, f, width, precision, b, loc) == Field(f, head, width, precision, digits)
  {
    hide Numeral, Magnitude, SignText, PrefixText, IsNegative, FieldText, ZeroCount;
  }

  function Field(f: Flags, head: string, width: int, precision: int, digits: string): string {
    var room := width - |head| - |digits|;
    FieldText(f, head, room, ZeroCount(f, room, precision, |digits|), digits)
  }

  lemma FieldPads(f: Flags, head: string, width: int, precision: int, digits: string)
    requires digits != ""
    ensures var narrow, wide := Field(f, head, 0, precision, digits), Field(f, head, width, precision, digits);
            var more := |wide| - |narrow|;
            if f.nilPadding && precision == -1 then
              |head| <= |narrow| && wide == narrow[..|head|] + Fill('0', more) + narrow[|head|..]
            else if f.leftAdjust then wide == narrow + Fill(' ', more)
            else wide == Fill(' ', more) + narrow
  {
    hide Fill, FieldText, ZeroCount;
    var room := width - |head| - |digits|;
    NoFill();
    if f.nilPadding && precision == -1 {
      FieldOfZeros(f, head, room, digits);
      FieldOfZeros(f, head, 0 - |head| - |digits|, digits);
      assert head + "" + digits == head + digits;
      assert (head + digits)[..|head|] == head && (head + digits)[|head|..] == digits;
    } else {
      FieldOfSpaces(f, head, width, precision, digits);
      FieldOfSpaces(f, head, 0, precision, digits);
    }
  }

  lemma FieldOfSpaces(f: Flags, head: string, width: int, precision: int, digits: string)
    requires !(f.nilPadding && precision == -1)
    ensures var zeros := if precision != -1 then Max(0, precision - |digits|) else 0;
            var body := head + Fill('0', zeros) + digits;
            var pad := Fill(' ', width - |body|);
            && Field(f, head, width, precision, digits) == (if f.leftAdjust then body + pad else pad + body)
            && body + "" == body && "" + body == body
  {
    hide Fill;
  }

  lemma NoFill()
    ensures forall c, n: int :: n <= 0 ==> Fill(c, n) == ""
  {
  }

  lemma FieldOfZeros(f: Flags, head: string, room: int, digits: string)
    requires f.nilPadding
    ensures FieldText(f, head, room, ZeroCount(f, room, -1, |digits|), digits)
            == head + Fill('0', Max(0, room)) + digits
  {
    var body := head + Fill('0', Max(0, room)) + digits;
    NoFill();
    assert body + "" == body && "" + body == body;
  }

  /** A precision from 0 on is the number of characters of a string that are printed; no precision, or one
      of at least its length, prints all of it. */
  lemma PrecisionCuts(s: string, f: Flags, width: int, precision: int)
    requires precision >= -1
    ensures var whole := StringText(Some(s), f, width, -1);
            && (precision == -1 || precision >= |s| ==> StringText(Some(s), f, width, precision) == whole)
            && (0 <= precision < |s| ==>
                  StringText(Some(s), f, width, precision) == StringText(Some(s[..precision]), f, width, -1))
  {
    hide CharactersText, Padded;
    assert s[..|s|] == s;
    if 0 <= precision < |s| {
      assert s[..precision][..precision] == s[..precision];
    }
  }

  /** A string is padded with spaces behind it or in front of it, between its quotes. */
  lemma StringPads(s: string, f: Flags, width: int)
    requires !f.alternative
    ensures var quote, pad := if f.quote then "\"" else "", Fill(' ', width - |s|);
            StringText(Some(s), f, width, -1) == quote + (if f.leftAdjust then s + pad else pad + s) + quote
  {
    hide Fill;
    assert s[..|s|] == s;
  }

  // ----- Strings

  lemma PlainString(s: string)
    ensures StringText(Some(s), FLAGS_NEW, 0, -1) == s
  {
    StringPads(s, FLAGS_NEW, 0);
    NoFill();
    assert "" + ("" + s) + "" == s;
  }

  const STRING := Spec("", "", false, 0, None, None, EscapeNone, 's')

  /** The text of a string conversion with an escape. */
  function StringFormat(escaping: Escaping): string {
    match escaping
    case EscapeNone => "%s"
    case EscapeUlm => "%|Us"
    case EscapeXml => "%|Xs"
    case EscapeSql => "%|Ss"
  }

  function EscapedText(escaping: Escaping, s: string): string {
    match escaping
    case EscapeNone => s
    case EscapeUlm => Escapes.EscapeUlmText(s)
    case EscapeXml => Escapes.EscapeXmlText(s)
    case EscapeSql => Escapes.EscapeSqlText(s)
  }

  predicate IsPlain(s: string) {
    forall i :: 0 <= i < |s| ==> s[i] != '%' && s[i] < 128 as char
  }

  lemma {:induction false} PlainNotDoubled(s: string)
    requires IsPlain(s)
    ensures Doubled(s) == s
  {
    if s != "" {
      PlainNotDoubled(s[1..]);
      assert s == [s[0]] + s[1..];
    }
  }

  lemma StringPiece(escaping: Escaping)
    ensures IsSpec(STRING.(escaping := escaping))
    ensures PieceText(Converted(STRING.(escaping := escaping))) == StringFormat(escaping)
  {
  }

  lemma StringPrints(escaping: Escaping, s: string, arg: Slot, loc: Locale)
    requires arg.text == Some(s) && loc.Valid()
    ensures IsSpec(STRING.(escaping := escaping))
    ensures SpecOutput(STRING.(escaping := escaping), arg, loc) == EscapedText(escaping, s)
  {
    hide StringText;
    PlainString(EscapedText(escaping, s));
    assert SpecFlags(STRING.(escaping := escaping)) == FLAGS_NEW;
  }

  /** A string argument between literal text is printed with its own escape, whatever it holds; and what
      is printed for the ULM and XML escapes unescapes to it. */
  lemma EscapedStringPrinted(before: string, escaping: Escaping, after: string, s: string, args: Args, loc: Locale)
    requires IsPlain(before) && IsPlain(after) && args(0).text == Some(s) && loc.Valid()
    ensures Output(before + StringFormat(escaping) + after, args, loc)
            == Done(before + EscapedText(escaping, s) + after)
    ensures Escapes.UnescapeUlmText(EscapedText(EscapeUlm, s)) == s
    ensures Escapes.AllBytes(s) ==> Escapes.UnescapeXmlText(EscapedText(EscapeXml, s)) == s
    ensures Escapes.SqlLiteral(EscapedText(EscapeSql, s)) == Some(s)
  {
    hide Output, SpecOutput, StringFormat, IsSpec, PieceText, SpecText, Doubled;
    var spec := STRING.(escaping := escaping);
    Escapes.UlmRoundTrip(s);
    Escapes.SqlRoundTrip(s);
    if Escapes.AllBytes(s) {
      Escapes.XmlRoundTrip(s);
    }
    StringPiece(escaping);
    StringPrints(escaping, s, args(0), loc);
    ThreePieces(before, spec, after, args, loc);
  }

  lemma PlainFirst(text: string, pieces: seq<Piece>, args: Args, next: nat, loc: Locale)
    requires IsPlain(text) && IsFormat(pieces) && loc.Valid()
    ensures var more := [Plain(text)] + pieces;
            && IsFormat(more) && Render(more) == text + Render(pieces) && Conversions(more) == Conversions(pieces)
            && Printout(more, args, next, loc) == text + Printout(pieces, args, next, loc)
  {
    hide Doubled;
    PlainNotDoubled(text);
    assert ([Plain(text)] + pieces)[1..] == pieces;
  }

  lemma ConvertedFirst(spec: Spec, pieces: seq<Piece>, args: Args, next: nat, loc: Locale)
    requires IsSpec(spec) && IsFormat(pieces) && loc.Valid()
    ensures var more := [Converted(spec)] + pieces;
            && IsFormat(more) && Render(more) == PieceText(Converted(spec)) + Render(pieces)
            && Conversions(more) == 1 + Conversions(pieces)
            && Printout(more, args, next, loc)
               == SpecOutput(spec, args(next), loc) + Printout(pieces, args, next + 1, loc)
  {
    hide SpecOutput, IsSpec, PieceText;
    assert ([Converted(spec)] + pieces)[1..] == pieces;
  }

  lemma NoPieces(args: Args, next: nat, loc: Locale)
    requires loc.Valid()
    ensures IsFormat([]) && Render([]) == "" && Conversions([]) == 0 && Printout([], args, next, loc) == ""
  {
  }

  /** One conversion between literal text. */
  lemma ThreePieces(before: string, spec: Spec, after: string, args: Args, loc: Locale)
    requires IsPlain(before) && IsPlain(after) && IsSpec(spec) && loc.Valid()
    ensures Output(before + PieceText(Converted(spec)) + after, args, loc)
            == Done(before + SpecOutput(spec, args(0), loc) + after)
  {
    hide Output, SpecOutput, PieceText, Render, Printout, IsFormat, Conversions, IsPlain, IsSpec;
    var text, printed := PieceText(Converted(spec)), SpecOutput(spec, args(0), loc);
    NoPieces(args, 1, loc);
    PlainFirst(after, [], args, 1, loc);
    var last := [Plain(after)] + [];
    ConvertedFirst(spec, last, args, 0, loc);
    PlainFirst(before, [Converted(spec)] + last, args, 0, loc);
    RenderedOutput([Plain(before)] + ([Converted(spec)] + last), args, loc);
    Rejoined(before, text, after);
    Rejoined(before, printed, after);
  }

  lemma Rejoined(before: string, text: string, after: string)
    ensures before + (text + (after + "")) == before + text + after
  {
  }

  /** A character is printed as a string of one. */
  lemma CharIsString(code: int, f: Flags, width: int)
    requires 0 <= code < 256
    ensures CharText(code, f, width) == StringText(Some([code as char]), f, width, -1)
  {
    hide CharacterText, Fill;
    var s := [code as char];
    assert s[..1] == s && s[..0] == [];
    assert CharactersText([], f) == "";
    assert CharactersText(s, f) == "" + CharacterText(s[0], f) == CharacterText(s[0], f);
  }

  /** A reader of the text that the alternative flag makes of a string. */
  function Unshown(s: string): string {
    if s == "" then ""
    else if s[0] != '\\' then [s[0]] + Unshown(s[1..])
    else if |s| >= 4 && s[1] == 'x' && IsHexDigit(s[2]) && IsHexDigit(s[3]) then
      [(DigitValue(s[2]) * 16 + DigitValue(s[3])) as char] + Unshown(s[4..])
    else if |s| >= 2 && s[1] == 'a' then [7 as char] + Unshown(s[2..])
    else if |s| >= 2 && s[1] == 'b' then [8 as char] + Unshown(s[2..])
    else if |s| >= 2 then [s[1]] + Unshown(s[2..])
    else ""
  }

  predicate IsHexDigit(c: char) {
    0 <= DigitValue(c) < 16
  }

  /** The code of a character in two digits. */
  lemma TwoDigits(code: nat)
    requires code < 256
    ensures var t := NumberText(code, ESCAPE_FLAGS, 2, 2, 16, C_LOCALE);
            |t| == 2 && IsHexDigit(t[0]) && IsHexDigit(t[1]) && DigitValue(t[0]) * 16 + DigitValue(t[1]) == code
  {
    hide NumberText, Digits, Fill, Separated, DigitValue;
    var ds := Digits(code, 16, false);
    HexDigits(code);
    NotSeparated(ds, false, C_LOCALE, 1, C_LOCALE.grouping[0], 1);
    FieldOfDigits(code, ds);
    ZeroFills();
    assert "0" + ds == ['0'] + ds && "" + ds == ds;
  }

  lemma ZeroFills()
    ensures Fill('0', 1) == "0" && Fill('0', 0) == "" && DigitValue('0') == 0
  {
  }

  lemma HexDigits(code: nat)
    requires code < 256
    ensures var ds := Digits(code, 16, false);
            && (code < 16 ==> |ds| == 1 && DigitValue(ds[0]) == code)
            && (code >= 16 ==> |ds| == 2 && DigitValue(ds[0]) == code / 16 && DigitValue(ds[1]) == code % 16)
  {
    if code >= 16 {
      assert Digits(code / 16, 16, false) == [DigitChar(code / 16, false)];
    }
  }

  lemma FieldOfDigits(code: nat, ds: string)
    requires code < 256 && ds == Digits(code, 16, false) && Numeral(code, 16, ESCAPE_FLAGS, C_LOCALE) == ds && |ds| <= 2
    ensures NumberText(code, ESCAPE_FLAGS, 2, 2, 16, C_LOCALE) == Fill('0', 2 - |ds|) + ds
  {
    hide Numeral, Digits, Fill;
    assert Magnitude(code, ESCAPE_FLAGS) == code && !IsNegative(code, ESCAPE_FLAGS);
    assert SignText(false, ESCAPE_FLAGS) + PrefixText(16, ESCAPE_FLAGS) == "";
    NoFill();
    var body := Fill('0', 2 - |ds|) + ds;
    assert "" + body == body && "" + Fill('0', 2 - |ds|) + ds == body;
  }

  lemma ShownCharacter(c: char, f: Flags, t: string)
    requires f.alternative && c < 256 as char
    ensures Unshown(CharacterText(c, f) + t) == [c] + Unshown(t)
  {
    hide NumberText, Unshown, CharacterText, IsPrint, IsSpace;
    CharacterIs(c, f);
    if c in {'\\', 7 as char, 8 as char} {
      BackslashThen(if c == '\\' then c else if c as int == 7 then 'a' else 'b', t);
    } else if IsPrint(c) || IsSpace(c) {
      PlainShown(c, t);
    } else {
      TwoDigits(c as int);
      HexShown(c, NumberText(c as int, ESCAPE_FLAGS, 2, 2, 16, C_LOCALE), t);
    }
  }

  lemma CharacterIs(c: char, f: Flags)
    requires f.alternative && c < 256 as char
    ensures c in {'\\', 7 as char, 8 as char} ==>
              CharacterText(c, f) == "\\" + [if c == '\\' then c else if c as int == 7 then 'a' else 'b']
    ensures c !in {'\\', 7 as char, 8 as char} && (IsPrint(c) || IsSpace(c)) ==> CharacterText(c, f) == [c]
    ensures c !in {'\\', 7 as char, 8 as char} && !(IsPrint(c) || IsSpace(c)) ==>
              CharacterText(c, f) == "\\" + ("x" + NumberText(c as int, ESCAPE_FLAGS, 2, 2, 16, C_LOCALE))
  {
    hide EscapeText;
    EscapeIs(c);
    assert "\\\\" == "\\" + ['\\'];
  }

  lemma EscapeIs(c: char)
    requires c < 256 as char
    ensures c as int == 7 ==> EscapeText(c) == ['a']
    ensures c as int == 8 ==> EscapeText(c) == ['b']
    ensures c as int != 7 && c as int != 8 ==>
              EscapeText(c) == "x" + NumberText(c as int, ESCAPE_FLAGS, 2, 2, 16, C_LOCALE)
  {
    hide NumberText, Numeral, Magnitude;
    var code := c as int;
    SameCode(code);
    if code == 7 {
      assert EscapeText(c) == "a";
    } else if code == 8 {
      assert EscapeText(c) == "b";
    } else {
      assert EscapeText(c) == "x" + NumberText(code % TWO64, ESCAPE_FLAGS, 2, 2, 16, C_LOCALE);
    }
  }

  lemma SameCode(code: nat)
    requires code < 256
    ensures code % TWO64 == code
  {
  }

  lemma PlainShown(c: char, t: string)
    requires c != '\\'
    ensures Unshown([c] + t) == [c] + Unshown(t)
  {
    assert ([c] + t)[1..] == t;
  }

  lemma BackslashThen(e: char, t: string)
    requires e in {'\\', 'a', 'b'}
    ensures Unshown("\\" + [e] + t)
            == [if e == 'a' then 7 as char else if e == 'b' then 8 as char else e] + Unshown(t)
  {
    var s := "\\" + [e] + t;
    assert s[0] == '\\' && s[1] == e && s[2..] == t;
  }

  lemma HexShown(c: char, digits: string, t: string)
    requires |digits| == 2 && IsHexDigit(digits[0]) && IsHexDigit(digits[1])
    requires DigitValue(digits[0]) * 16 + DigitValue(digits[1]) == c as int
    ensures Unshown("\\" + ("x" + digits) + t) == [c] + Unshown(t)
  {
    hide DigitValue;
    var s := "\\" + ("x" + digits) + t;
    assert s[0] == '\\' && s[1] == 'x' && s[2] == digits[0] && s[3] == digits[1] && s[4..] == t;
  }

  lemma {:induction false} CharactersFirst(s: string, f: Flags)
    requires s != ""
    ensures CharactersText(s, f) == CharacterText(s[0], f) + CharactersText(s[1..], f)
  {
    hide CharacterText;
    var n := |s| - 1;
    if n == 0 {
      assert s[..0] == "" && s[1..] == "" && CharactersText("", f) == "";
      assert "" + CharacterText(s[0], f) == CharacterText(s[0], f) + "";
    } else {
      CharactersFirst(s[..n], f);
      assert s[..n][1..] == s[1..][..n - 1];
      Rejoin(CharacterText(s[0], f), CharactersText(s[1..][..n - 1], f), CharacterText(s[n], f));
    }
  }

  lemma Rejoin(a: string, b: string, c: string)
    ensures a + b + c == a + (b + c)
  {
  }

  /** With the alternative flag every byte of a string can be read back from what is printed. */
  lemma {:induction false} ShownReadBack(s: string, f: Flags)
    requires f.alternative && forall i :: 0 <= i < |s| ==> s[i] < 256 as char
    ensures Unshown(CharactersText(s, f)) == s
  {
    hide CharacterText, CharactersText, Unshown;
    if s == "" {
      NothingShown(f);
    } else {
      CharactersFirst(s, f);
      ShownReadBack(s[1..], f);
      ShownCharacter(s[0], f, CharactersText(s[1..], f));
      assert s == [s[0]] + s[1..];
    }
  }

  lemma NothingShown(f: Flags)
    ensures Unshown(CharactersText("", f)) == ""
  {
  }

  // ----- The strings of the repository's own tests

  lemma {:induction false} ExpandBoth(a: string, b: string, u: char -> string)
    ensures Expand(a + b, u) == Expand(a, u) + Expand(b, u)
    decreases |b|
  {
    if b == "" {
      assert a + b == a;
    } else {
      var n := |b| - 1;
      assert (a + b)[..|a + b| - 1] == a + b[..n];
      ExpandBoth(a, b[..n], u);
      Rejoin(Expand(a, u), Expand(b[..n], u), u(b[n]));
    }
  }

  lemma {:induction false} ExpandPlain(s: string, u: char -> string)
    requires forall i :: 0 <= i < |s| ==> u(s[i]) == [s[i]]
    ensures Expand(s, u) == s
  {
    if s != "" {
      var n := |s| - 1;
      ExpandPlain(s[..n], u);
      assert s == s[..n] + [s[n]];
    }
  }

  /** Plain text and a character that is escaped. */
  lemma Segment(a: string, c: char, rest: string, u: char -> string)
    requires forall i :: 0 <= i < |a| ==> u(a[i]) == [a[i]]
    ensures Expand(a + [c] + rest, u) == a + u(c) + Expand(rest, u)
  {
    ExpandBoth(a + [c], rest, u);
    ExpandBoth(a, [c], u);
    ExpandPlain(a, u);
    assert [c][..0] == "" && Expand([c][..0], u) == "" && "" + u(c) == u(c);
  }

  lemma UlmTest()
    ensures Escapes.EscapeUlmText("we have =, " + ['"'] + (", and " + ['\n'] + " in the string"))
            == "we have =, " + "\\\"" + (", and " + "\\n" + " in the string")
  {
    hide Expand;
    var u := Escapes.UlmCharacter;
    Segment("we have =, ", '"', ", and " + ['\n'] + " in the string", u);
    Segment(", and ", '\n', " in the string", u);
    ExpandPlain(" in the string", u);
  }

  predicate IsWord(s: string) {
    forall i :: 0 <= i < |s| ==> 'a' <= s[i] <= 'z' || s[i] in {' ', ';', '/'}
  }

  lemma XmlSegment(a: string, c: char, rest: string)
    requires IsWord(a)
    ensures Escapes.EscapeXmlText(a + [c] + rest) == a + Escapes.XmlCharacter(c) + Escapes.EscapeXmlText(rest)
  {
    hide Expand;
    Segment(a, c, rest, Escapes.XmlCharacter);
  }

  lemma AreWords()
    ensures IsWord("there is a ") && IsWord("tag") && IsWord(" containing ") && IsWord("something; ")
    ensures IsWord("/tag") && Escapes.EscapeXmlText("") == ""
  {
  }

  lemma XmlTest()
    ensures Escapes.EscapeXmlText("there is a " + ['<'] + ("tag" + ['>'] + (" containing " + ['&']
                                    + ("something; " + ['<'] + ("/tag" + ['>'] + "")))))
            == "there is a " + "&lt;" + ("tag" + "&gt;" + (" containing " + "&amp;"
                                           + ("something; " + "&lt;" + ("/tag" + "&gt;" + ""))))
  {
    hide Expand, IsWord, Escapes.EscapeXmlText, Escapes.XmlCharacter;
    XmlEntities();
    AreWords();
    var last := "/tag" + ['>'] + "";
    var fourth := "something; " + ['<'] + last;
    var third := " containing " + ['&'] + fourth;
    var second := "tag" + ['>'] + third;
    XmlSegment("there is a ", '<', second);
    XmlSegment("tag", '>', third);
    XmlSegment(" containing ", '&', fourth);
    XmlSegment("something; ", '<', last);
    XmlSegment("/tag", '>', "");
  }

  lemma XmlEntities()
    ensures Escapes.XmlCharacter('<') == "&lt;" && Escapes.XmlCharacter('>') == "&gt;"
    ensures Escapes.XmlCharacter('&') == "&amp;"
  {
  }

  lemma SqlTest()
    ensures Escapes.EscapeSqlText("SQL doesn" + ['\''] + ("t like " + ['\''] + ""))
            == "SQL doesn" + "''" + ("t like " + "''" + "")
  {
    hide Expand;
    var u := Escapes.SqlCharacter;
    Segment("SQL doesn", '\'', "t like " + ['\''] + "", u);
    Segment("t like ", '\'', "", u);
    ExpandPlain("", u);
  }

  // ----- Integers

  /** An integer conversion without flags, width and precision. */
  function Bare(letter: char): Spec {
    Spec("", "", false, 0, None, None, EscapeNone, letter)
  }

  lemma BareText(letter: char)
    requires letter in {'d', 'i', 'u', 'o', 'x', 'X', 'b', 'B'}
    ensures IsSpec(Bare(letter)) && PieceText(Converted(Bare(letter))) == "%" + [letter]
  {
  }

  lemma BareNumber(number: uint64, f: Flags, b: base, loc: Locale)
    requires loc.Valid() && !f.quote && !f.showSign && !f.space && !f.alternative && !f.leftAdjust
    ensures NumberText(number, f, 0, -1, b, loc)
            == (if IsNegative(number, f) then "-" else "") + Digits(Magnitude(number, f), b, f.upper)
  {
    hide Magnitude, IsNegative, Fill;
    var ds := Digits(Magnitude(number, f), b, f.upper);
    NotSeparated(ds, false, loc, 1, loc.grouping[0], 1);
    var sign := if IsNegative(number, f) then "-" else "";
    assert SignText(IsNegative(number, f), f) + PrefixText(b, f) == sign;
    NoFill();
    assert sign + "" + ds == sign + ds && "" + (sign + ds) == sign + ds && (sign + ds) + "" == sign + ds;
  }

  /** What a conversion without flags prints of an int: signed for d, i, o and b, unsigned for u, x and X;
      in base 10, 8, 2 and 16; and in capitals for X. */
  lemma IntegersPrinted(letter: char, args: Args, loc: Locale)
    requires letter in {'d', 'i', 'u', 'o', 'x', 'X', 'b', 'B'} && loc.Valid()
    ensures var n, u := ToInt32(args(0).bits), args(0).bits % TWO32;
            Output("%" + [letter], args, loc)
            == Done(match letter
                    case 'u' => Decimal(u)
                    case 'x' => Digits(u, 16, false)
                    case 'X' => Digits(u, 16, true)
                    case 'o' => (if n < 0 then "-" + Digits(-n, 8, false) else Digits(n, 8, false))
                    case 'b' => (if n < 0 then "-" + Digits(-n, 2, false) else Digits(n, 2, false))
                    case 'B' => (if n < 0 then "-" + Digits(-n, 2, true) else Digits(n, 2, true))
                    case _ => SignedDecimal(n))
  {
    hide Output, PieceText, SpecOutput, Digits;
    var spec := Bare(letter);
    BareText(letter);
    ThreePieces("", spec, "", args, loc);
    assert "" + PieceText(Converted(spec)) + "" == "%" + [letter];
    var printed := SpecOutput(spec, args(0), loc);
    assert "" + printed + "" == printed;
    if letter in {'u', 'x', 'X'} {
      UnsignedPrinted(letter, args(0), loc);
    } else {
      SignedPrinted(letter, args(0), loc);
    }
  }

  lemma UnsignedPrinted(letter: char, arg: Slot, loc: Locale)
    requires letter in {'u', 'x', 'X'} && loc.Valid()
    ensures IsSpec(Bare(letter))
    ensures SpecOutput(Bare(letter), arg, loc)
            == Digits(arg.bits % TWO32, if letter == 'u' then 10 else 16, letter == 'X')
  {
    hide NumberText, Digits, SpecFlags, Magnitude;
    var f, value := SpecFlags(Bare(letter)), ToInt32(arg.bits) % TWO64;
    BareFlags(letter);
    BareNumber(value, f, SpecBase(Bare(letter)), loc);
    UnsignedMagnitude(arg.bits, f);
    assert "" + Digits(arg.bits % TWO32, SpecBase(Bare(letter)), f.upper)
        == Digits(arg.bits % TWO32, SpecBase(Bare(letter)), f.upper);
  }

  lemma BareFlags(letter: char)
    ensures SpecFlags(Bare(letter))
            == FLAGS_NEW.(nilPadding := letter in {'b', 'B'}, unsigned := letter in {'u', 'x', 'X'},
                          upper := letter in {'X', 'B'})
  {
  }

  lemma UnsignedMagnitude(bits: uint64, f: Flags)
    requires f.unsigned && !f.long && !f.quad
    ensures Magnitude(ToInt32(bits) % TWO64, f) == bits % TWO32 && !IsNegative(ToInt32(bits) % TWO64, f)
  {
  }

  lemma SignedPrinted(letter: char, arg: Slot, loc: Locale)
    requires letter in {'d', 'i', 'o', 'b', 'B'} && loc.Valid()
    ensures IsSpec(Bare(letter))
    ensures var n := ToInt32(arg.bits);
            var b := if letter == 'o' then 8 else if letter in {'b', 'B'} then 2 else 10;
            SpecOutput(Bare(letter), arg, loc)
            == if n < 0 then "-" + Digits(-n, b, letter == 'B') else Digits(n, b, letter == 'B')
  {
    hide NumberText, Digits, SpecFlags, Magnitude;
    var f, n := SpecFlags(Bare(letter)), ToInt32(arg.bits);
    BareFlags(letter);
    var b := SpecBase(Bare(letter));
    BareNumber(n % TWO64, f, b, loc);
    SignAndMagnitude(n, f);
    if n >= 0 {
      assert "" + Digits(n, b, f.upper) == Digits(n, b, f.upper);
    }
  }

  lemma SignAndMagnitude(n: int, f: Flags)
    requires -TWO32 / 2 <= n < TWO32 / 2 && !f.unsigned && !f.long && !f.quad
    ensures IsNegative(n % TWO64, f) == (n < 0) && Magnitude(n % TWO64, f) == if n < 0 then -n else n
  {
  }
}
