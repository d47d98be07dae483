/** Escaping of text for ULM, XML and SQL, and its inverses. */
module Escape {
  import opened CText
  import opened Numerals

  // ----- ULM

  function UlmCharacter(c: char): string {
    if c == '\n' then "\\n" else if c in {'\\', '"'} then ['\\', c] else [c]
  }

  function EscapeUlmText(s: string): string {
    Expand(s, UlmCharacter)
  }

  /** A lone backslash at the end reads the terminator and is lost. */
  function UnescapeUlmText(s: string): string {
    if s == [] then ""
    else if s[0] != '\\' then [s[0]] + UnescapeUlmText(s[1..])
    else if |s| == 1 then ""
    else [if s[1] == 'n' then '\n' else s[1]] + UnescapeUlmText(s[2..])
  }

  /** No newline, and no quote except after the backslash that escapes it. */
  predicate UlmSafe(s: string) {
    s != [] ==>
      if s[0] == '\\' then |s| > 1 && s[1] != '\n' && UlmSafe(s[2..])
      else s[0] !in {'\n', '"'} && UlmSafe(s[1..])
  }

  lemma {:induction false} UlmRoundTrip(s: string)
    ensures UnescapeUlmText(EscapeUlmText(s)) == s
    ensures UlmSafe(EscapeUlmText(s))
  {
    if s != [] {
      ExpandFirst(s, UlmCharacter);
      UlmRoundTrip(s[1..]);
      var c, t := UlmCharacter(s[0]), EscapeUlmText(s[1..]);
      assert (c + t)[|c|..] == t;
    }
  }

  lemma {:induction false} UlmLength(s: string)
    ensures |EscapeUlmText(s)| <= 2 * |s|
  {
    if s != [] {
      UlmLength(s[..|s| - 1]);
    }
  }

  /** glite_lbu_EscapeULM. */
  method EscapeULM(str: Option<string>) returns (ret: array?<char>)
    ensures ret == null <==> str == None
    ensures str.Some? ==> fresh(ret) && IsCString(ret, EscapeUlmText(str.value))
    ensures str.Some? ==> ret.Length == 1 + 2 * |str.value|
  {
    if str == None {
      return null;
    }
    var s := str.value;
    ret := new char[1 + 2 * |s|];
    var i, j := 0, 0;
    while i < |s|
      invariant 0 <= i <= |s| && j <= 2 * i
      invariant j == |EscapeUlmText(s[..i])| && ret[..j] == EscapeUlmText(s[..i])
    {
      assert s[..i + 1][..i] == s[..i];
      if s[i] != '\\' && s[i] != '"' && s[i] != '\n' {
        ret[j] := s[i];
        j := j + 1;
      } else {
        ret[j] := '\\';
        ret[j + 1] := if s[i] == '\n' then 'n' else s[i];
        j := j + 2;
      }
      i := i + 1;
    }
    assert s[..|s|] == s;
    ret[j] := '\0';
  }

  lemma UlmNext(s: string, i: nat)
    requires i < |s|
    ensures s[i] != '\\' ==> UnescapeUlmText(s[i..]) == [s[i]] + UnescapeUlmText(s[i + 1..])
    ensures s[i] == '\\' && i + 1 == |s| ==> UnescapeUlmText(s[i..]) == ""
    ensures s[i] == '\\' && i + 1 < |s| ==>
              UnescapeUlmText(s[i..]) == [if s[i + 1] == 'n' then '\n' else s[i + 1]] + UnescapeUlmText(s[i + 2..])
  {
    assert s[i..][1..] == s[i + 1..];
    if i + 1 < |s| {
      assert s[i..][2..] == s[i + 2..];
    }
  }

  /** glite_lbu_UnescapeULM. */
  method UnescapeULM(str: Option<string>) returns (ret: array?<char>)
    ensures ret == null <==> str == None
    ensures str.Some? ==> fresh(ret) && IsCString(ret, UnescapeUlmText(str.value))
  {
    if str == None {
      return null;
    }
    hide UnescapeUlmText;
    var s := str.value;
    ret := new char[1 + |s|];
    var i, j := 0, 0;
    ghost var done := "";
    assert s[0..] == s;
    while i < |s|
      invariant 0 <= i <= |s| && j <= i && j == |done| && ret[..j] == done
      invariant UnescapeUlmText(s) == done + UnescapeUlmText(s[i..])
    {
      UlmNext(s, i);
      var c := s[i];
      if c == '\\' {
        i := i + 1;
        if i == |s| {
          ret[j] := '\0';
          UnescapeNothing(s, i, done);
          return;
        }
        c := if s[i] == 'n' then '\n' else s[i];
      }
      ret[j] := c;
      AppendOne(done, c, UnescapeUlmText(s[i + 1..]));
      done := done + [c];
      i := i + 1;
      j := j + 1;
    }
    UnescapeNothing(s, i, done);
    ret[j] := '\0';
  }

  lemma AppendOne(done: string, c: char, rest: string)
    ensures done + ([c] + rest) == done + [c] + rest
  {
  }

  lemma UnescapeNothing(s: string, i: nat, done: string)
    requires i == |s|
    ensures UnescapeUlmText(s[i..]) == "" && done + "" == done
  {
  }

  // ----- XML

  const XML_TABLE: seq<(char, string)> :=
    [('<', "lt"), ('>', "gt"), ('&', "amp"), ('"', "quot"), ('\'', "apos")]

  /** A character of a C string: a byte other than NUL. */
  predicate IsByte(c: char) {
    0 < c as int < 256
  }

  ghost predicate AllBytes(s: string) {
    forall i :: 0 <= i < |s| ==> IsByte(s[i])
  }

  predicate IsControl(c: char) {
    c as int % 128 < 32
  }

  /** The index of a character in the table, 5 when it is not there. */
  function XmlIndex(c: char): (k: nat)
    ensures k <= 5 && (k < 5 ==> XML_TABLE[k].0 == c)
    ensures forall i :: 0 <= i < k ==> XML_TABLE[i].0 != c
  {
    if c == '<' then 0 else if c == '>' then 1 else if c == '&' then 2
    else if c == '"' then 3 else if c == '\'' then 4 else 5
  }

  function HexText(c: char): string {
    ['%', DigitChar(c as int % 256 / 16, false), DigitChar(c as int % 16, false)]
  }

  function XmlCharacter(c: char): string {
    var k := XmlIndex(c);
    if k < 5 then ['&'] + XML_TABLE[k].1 + [';']
    else if IsControl(c) || c == '%' then HexText(c)
    else [c]
  }

  function EscapeXmlText(s: string): string {
    Expand(s, XmlCharacter)
  }

  function ToLower(c: char): char {
    if 'A' <= c <= 'Z' then (c as int + 32) as char else c
  }

  /** strncasecmp(s, e, n) == 0 for a name s that is longer than n characters. */
  predicate SamePrefix(s: string, e: string, n: nat)
    requires n <= |s|
  {
    n <= |e| && forall j :: 0 <= j < n ==> ToLower(s[j]) == ToLower(e[j])
  }

  /** The first entry from k on whose name starts with the n characters of s, 5 when none does. */
  function MatchFrom(s: string, n: nat, k: nat): (r: nat)
    requires n <= |s| && k <= 5
    ensures k <= r <= 5 && (r < 5 ==> SamePrefix(s, XML_TABLE[r].1, n))
    ensures forall i :: k <= i < r ==> !SamePrefix(s, XML_TABLE[i].1, n)
    decreases 5 - k
  {
    if k == 5 || SamePrefix(s, XML_TABLE[k].1, n) then k else MatchFrom(s, n, k + 1)
  }

  predicate IsHex(c: char) {
    0 <= DigitValue(c) < 16
  }

  /** One step of UnescapeXML at the start of s: the character stored and the length used. */
  function XmlStep(s: string): (r: (char, nat))
    requires s != []
    ensures 1 <= r.1 <= |s|
  {
    if s[0] == '&' then
      var semi := IndexOf(s, ';');
      if semi < |s| && MatchFrom(s[1..], semi - 1, 0) < 5
      then (XML_TABLE[MatchFrom(s[1..], semi - 1, 0)].0, semi + 1)
      else (s[0], 1)
    else if s[0] == '%' && |s| >= 3 && IsHex(s[1]) && IsHex(s[2]) then
      var code := DigitValue(s[1]) * 16 + DigitValue(s[2]);
      if code % 128 < 32 || code == '%' as int then (code as char, 3) else (s[0], 1)
    else (s[0], 1)
  }

  function UnescapeXmlText(s: string): string {
    if s == [] then "" else [XmlStep(s).0] + UnescapeXmlText(s[XmlStep(s).1..])
  }

  /** What an escaped character is, whatever follows it. */
  lemma XmlStepOf(c: char, t: string)
    requires IsByte(c)
    ensures XmlStep(XmlCharacter(c) + t) == (c, |XmlCharacter(c)|)
  {
    hide XmlStep;
    var e := XmlCharacter(c);
    var s := e + t;
    if XmlIndex(c) < 5 {
      EntityStep(XmlIndex(c), s, t);
    } else if IsControl(c) || c == '%' {
      HexStep(c, s, t);
    } else {
      PlainStep(c, s, t);
    }
  }

  lemma EntityStep(k: nat, s: string, t: string)
    requires k < 5 && s == ['&'] + XML_TABLE[k].1 + [';'] + t
    ensures XmlStep(s) == (XML_TABLE[k].0, |XML_TABLE[k].1| + 2)
  {
    hide MatchFrom;
    var name := XML_TABLE[k].1;
    var n := |name|;
    assert forall i :: 1 <= i <= n ==> s[i] == name[i - 1];
    assert s[n + 1] == ';';
    IndexOfIs(s, ';', n + 1);
    EntityName(s[1..], k);
  }

  lemma HexStep(c: char, s: string, t: string)
    requires IsByte(c) && (IsControl(c) || c == '%') && s == HexText(c) + t
    ensures XmlStep(s) == (c, 3)
  {
    hide MatchFrom, IndexOf;
    var e := HexText(c);
    assert s[0] == e[0] && s[1] == e[1] && s[2] == e[2];
  }

  lemma PlainStep(c: char, s: string, t: string)
    requires c != '&' && c != '%' && s == [c] + t
    ensures XmlStep(s) == (c, 1)
  {
    hide MatchFrom, IndexOf;
    assert s[0] == c;
  }

  lemma EntityName(s: string, k: nat)
    requires k < 5 && XML_TABLE[k].1 <= s
    ensures MatchFrom(s, |XML_TABLE[k].1|, 0) == k
  {
    var n := |XML_TABLE[k].1|;
    assert forall j :: 0 <= j < n ==> s[j] == XML_TABLE[k].1[j];
    assert SamePrefix(s, XML_TABLE[k].1, n);
    assert k == 1 ==> s[0] == 'g';
    assert k == 2 ==> s[0] == 'a';
    assert k == 3 ==> s[0] == 'q';
    assert k == 4 ==> s[0] == 'a' && s[1] == 'p';
    assert forall i :: 0 <= i < k ==> !SamePrefix(s, XML_TABLE[i].1, n);
  }

  lemma {:induction false} XmlRoundTrip(s: string)
    requires AllBytes(s)
    ensures UnescapeXmlText(EscapeXmlText(s)) == s
  {
    if s != [] {
      ExpandFirst(s, XmlCharacter);
      XmlRoundTrip(s[1..]);
      var c, t := XmlCharacter(s[0]), EscapeXmlText(s[1..]);
      XmlStepOf(s[0], t);
      assert (c + t)[|c|..] == t;
    }
  }

  /** The texts that are the escape of something: each ampersand starts one of the five entities, each
      percent sign the code of a control character or of itself in lower-case digits, and no other
      character has a meaning. */
  predicate IsEscaped(s: string) {
    s != [] ==>
      if s[0] == '&' then exists k :: 0 <= k < 5 && StartsEntity(s, k) && IsEscaped(s[2 + |XML_TABLE[k].1|..])
      else if s[0] == '%' then |s| >= 3 && IsHexCode(s[1], s[2]) && IsEscaped(s[3..])
      else s[0] !in {'<', '>', '"', '\''} && !IsControl(s[0]) && IsEscaped(s[1..])
  }

  predicate StartsEntity(s: string, k: nat)
    requires k < 5
  {
    ['&'] + XML_TABLE[k].1 + [';'] <= s
  }

  predicate IsHexCode(a: char, b: char) {
    && IsHex(a) && IsHex(b) && !('A' <= a <= 'F') && !('A' <= b <= 'F')
    && var code := DigitValue(a) * 16 + DigitValue(b);
       code != 0 && (code % 128 < 32 || code == '%' as int)
  }

  /** What the escape makes is escaped: no character with a meaning is left but the ampersands of the
      five entities and the percent signs of codes. */
  lemma {:induction false} XmlOutputSafe(s: string)
    requires AllBytes(s)
    ensures IsEscaped(EscapeXmlText(s))
  {
    if s != [] {
      ExpandFirst(s, XmlCharacter);
      XmlOutputSafe(s[1..]);
      var c, t := s[0], EscapeXmlText(s[1..]);
      var e := XmlCharacter(c);
      assert (e + t)[|e|..] == t;
      if XmlIndex(c) < 5 {
        assert StartsEntity(e + t, XmlIndex(c));
      } else if IsControl(c) || c == '%' {
        HexIsCode(c);
        assert (e + t)[0] == '%' && (e + t)[1] == e[1] && (e + t)[2] == e[2];
      } else {
        assert (e + t)[0] == c;
      }
    }
  }

  lemma HexIsCode(c: char)
    requires IsByte(c) && (IsControl(c) || c == '%')
    ensures IsHexCode(HexText(c)[1], HexText(c)[2])
  {
    hide DigitChar, DigitValue, IsHex;
    var code := c as int;
    SplitCode(code);
    HexDigitOf(code / 16);
    HexDigitOf(code % 16);
    var a, b := DigitChar(code / 16, false), DigitChar(code % 16, false);
    assert HexText(c) == ['%', a, b];
  }

  lemma SplitCode(code: nat)
    requires code < 256
    ensures code / 16 < 16 && code % 256 == code && code / 16 * 16 + code % 16 == code
  {
  }

  lemma HexDigitOf(d: nat)
    requires d < 16
    ensures var c := DigitChar(d, false); IsHex(c) && !('A' <= c <= 'F') && DigitValue(c) == d
  {
  }

  /** An escaped text starts with the escape of one character, which one step of the unescaper takes. */
  lemma EscapedStep(s: string)
    requires IsEscaped(s) && s != [] && AllBytes(s)
    ensures var (c, n) := XmlStep(s);
            IsByte(c) && XmlCharacter(c) == s[..n] && IsEscaped(s[n..])
  {
    hide MatchFrom, IndexOf;
    if s[0] == '&' {
      var k :| 0 <= k < 5 && StartsEntity(s, k) && IsEscaped(s[2 + |XML_TABLE[k].1|..]);
      var n := 2 + |XML_TABLE[k].1|;
      assert s == ['&'] + XML_TABLE[k].1 + [';'] + s[n..];
      EntityStep(k, s, s[n..]);
      TableIndex(k);
    } else if s[0] == '%' {
      CodeIsHex(s[1], s[2]);
      assert s[..3] == ['%', s[1], s[2]];
    } else {
      assert s[..1] == [s[0]];
    }
  }

  lemma TableIndex(k: nat)
    requires k < 5
    ensures XmlIndex(XML_TABLE[k].0) == k && IsByte(XML_TABLE[k].0)
  {
  }

  lemma CodeIsHex(a: char, b: char)
    requires IsHexCode(a, b)
    ensures var c := (DigitValue(a) * 16 + DigitValue(b)) as char;
            IsByte(c) && XmlIndex(c) == 5 && (IsControl(c) || c == '%') && HexText(c) == ['%', a, b]
  {
    hide DigitChar, DigitValue;
    DigitBack(a);
    DigitBack(b);
    Nibbles(DigitValue(a), DigitValue(b));
  }

  lemma Nibbles(x: nat, y: nat)
    requires x < 16 && y < 16
    ensures x * 16 + y < 256 && (x * 16 + y) % 256 / 16 == x && (x * 16 + y) % 16 == y
  {
  }

  lemma DigitBack(a: char)
    requires IsHex(a) && !('A' <= a <= 'F')
    ensures DigitChar(DigitValue(a), false) == a
  {
  }

  lemma UpToNulFirst(c: char, t: string)
    requires c != '\0'
    ensures UpToNul([c] + t) == [c] + UpToNul(t)
  {
    assert ([c] + t)[1..] == t;
  }

  lemma EscapedJoin(c: char, t: string)
    requires c != '\0'
    ensures EscapeXmlText(UpToNul([c] + t)) == XmlCharacter(c) + EscapeXmlText(UpToNul(t))
  {
    hide XmlCharacter, UpToNul;
    UpToNulFirst(c, t);
    ExpandFirst([c] + UpToNul(t), XmlCharacter);
    assert ([c] + UpToNul(t))[1..] == UpToNul(t);
  }

  lemma FirstStep(s: string)
    requires s != [] && AllBytes(s)
    ensures var (c, n) := XmlStep(s); UnescapeXmlText(s) == [c] + UnescapeXmlText(s[n..]) && AllBytes(s[n..])
    ensures var (_, n) := XmlStep(s); s == s[..n] + s[n..]
  {
    hide XmlStep;
  }

  lemma {:induction false} EscapedComesBack(s: string)
    requires AllBytes(s) && IsEscaped(s)
    ensures EscapeXmlText(UpToNul(UnescapeXmlText(s))) == s
  {
    if s != [] {
      hide *;
      EscapedStep(s);
      var (c, n) := XmlStep(s);
      FirstStep(s);
      EscapedComesBack(s[n..]);
      ByteNotNul(c);
      EscapedJoin(c, UnescapeXmlText(s[n..]));
    }
  }

  lemma ByteNotNul(c: char)
    requires IsByte(c)
    ensures c != '\0'
  {
  }

  lemma {:induction false} UnescapedBytes(s: string)
    requires AllBytes(s)
    ensures forall i :: 0 <= i < |UnescapeXmlText(s)| ==> UnescapeXmlText(s)[i] < 256 as char
  {
    if s != [] {
      hide MatchFrom, IndexOf;
      UnescapedBytes(s[XmlStep(s).1..]);
    }
  }

  /** Escaping again what was unescaped gives a text back exactly when it is escaped. */
  lemma UnescapeThenEscape(s: string)
    requires AllBytes(s)
    ensures EscapeXmlText(UpToNul(UnescapeXmlText(s))) == s <==> IsEscaped(s)
  {
    if IsEscaped(s) {
      EscapedComesBack(s);
    }
    UnescapedBytes(s);
    var t := UpToNul(UnescapeXmlText(s));
    assert forall i :: 0 <= i < |t| ==> t[i] == UnescapeXmlText(s)[i] && t[i] in t;
    XmlOutputSafe(t);
  }

  /** The empty name is a prefix of every name, and the first of them is taken. */
  lemma EmptyEntity()
    ensures UnescapeXmlText("&;") == "<" && EscapeXmlText(UnescapeXmlText("&;")) == "&lt;"
  {
    assert IndexOf("&;", ';') == 1 by { IndexOfIs("&;", ';', 1); }
    assert XmlStep("&;") == ('<', 2);
    assert "<"[..0] == "";
  }

  function LowerAll(s: string): (r: string)
    ensures |r| == |s| && forall i :: 0 <= i < |s| ==> r[i] == ToLower(s[i])
  {
    seq(|s|, i requires 0 <= i < |s| => ToLower(s[i]))
  }

  predicate IsEntityName(name: string) {
    exists k :: 0 <= k < 5 && XML_TABLE[k].1 == name
  }

  /** The name of an entity is decoded when it starts one of the five in any case; so it is decoded
      although it is none of them exactly when it is a proper prefix or a case variant of one. */
  lemma NameDecoded(name: string, t: string)
    requires ';' !in name
    ensures var (_, n) := XmlStep("&" + name + ";" + t);
            && (n == |name| + 2 <==> exists k :: 0 <= k < 5 && LowerAll(name) <= XML_TABLE[k].1)
            && (n == |name| + 2 && !IsEntityName(name)
                <==> exists k :: 0 <= k < 5 && (LowerAll(name) < XML_TABLE[k].1
                                                || (LowerAll(name) == XML_TABLE[k].1 && name != XML_TABLE[k].1)))
  {
    hide MatchFrom, IndexOf;
    var s, n := "&" + name + ";" + t, |name|;
    assert s[n + 1] == ';' && forall i :: 1 <= i <= n ==> s[i] == name[i - 1];
    IndexOfIs(s, ';', n + 1);
    forall k | 0 <= k < 5 ensures SamePrefix(s[1..], XML_TABLE[k].1, n) <==> LowerAll(name) <= XML_TABLE[k].1 {
      SamePrefixIs(s[1..], name, k);
    }
    var r := MatchFrom(s[1..], n, 0);
    if IsEntityName(name) {
      NamesApart(name);
    }
  }

  lemma SamePrefixIs(s: string, name: string, k: nat)
    requires k < 5 && name <= s
    ensures SamePrefix(s, XML_TABLE[k].1, |name|) <==> LowerAll(name) <= XML_TABLE[k].1
  {
    var e := XML_TABLE[k].1;
    assert forall j :: 0 <= j < |e| ==> ToLower(e[j]) == e[j];
    assert forall j :: 0 <= j < |name| ==> s[j] == name[j];
  }

  /** None of the five names is the start of another, and they are lower-case. */
  lemma NamesApart(name: string)
    requires IsEntityName(name)
    ensures LowerAll(name) == name
    ensures forall k :: 0 <= k < 5 && LowerAll(name) <= XML_TABLE[k].1 ==> XML_TABLE[k].1 == name
  {
    var i :| 0 <= i < 5 && XML_TABLE[i].1 == name;
    assert LowerAll(name) == name;
    forall k | 0 <= k < 5 && name <= XML_TABLE[k].1 ensures XML_TABLE[k].1 == name {
      assert XML_TABLE[k].1[0] == name[0] && XML_TABLE[k].1[1] == name[1];
    }
  }

  /** The characters for which room is counted. */
  predicate XmlSpecial(c: char) {
    c in {'<', '>', '&', '"', '\''} || IsControl(c) || c == '%'
  }

  function XmlCount(s: string): nat {
    if s == [] then 0 else XmlCount(s[..|s| - 1]) + (if XmlSpecial(s[|s| - 1]) then 1 else 0)
  }

  lemma {:induction false} XmlLength(s: string)
    ensures |EscapeXmlText(s)| <= |s| + 5 * XmlCount(s)
  {
    if s != [] {
      XmlLength(s[..|s| - 1]);
    }
  }

  lemma {:induction false} XmlCountMonotone(s: string, i: nat)
    requires i <= |s|
    ensures XmlCount(s[..i]) <= XmlCount(s)
    decreases |s| - i
  {
    if i < |s| {
      assert s[..i + 1][..i] == s[..i];
      XmlCountMonotone(s, i + 1);
    } else {
      assert s[..i] == s;
    }
  }

  /** glite_lbu_EscapeXML. */
  method EscapeXML(input: Option<string>) returns (out: array?<char>)
    ensures out == null <==> input == None
    ensures input.Some? ==> fresh(out) && IsCString(out, EscapeXmlText(input.value))
    ensures input.Some? ==> out.Length == |input.value| + 1 + 5 * XmlCount(input.value)
  {
    if input == None {
      return null;
    }
    var s := input.value;
    var cnt := 0;
    for i := 0 to |s|
      invariant cnt == XmlCount(s[..i])
    {
      assert s[..i + 1][..i] == s[..i];
      if XmlSpecial(s[i]) {
        cnt := cnt + 1;
      }
    }
    assert s[..|s|] == s;
    out := new char[|s| + 1 + cnt * 5];
    var i, j := 0, 0;
    while i < |s|
      invariant 0 <= i <= |s| && j == |EscapeXmlText(s[..i])| <= |s| + 5 * cnt
      invariant out[..j] == EscapeXmlText(s[..i])
    {
      XmlRoom(s, i);
      var text := XmlText(s[i]);
      j := AppendTo(out, j, text, EscapeXmlText(s[..i]));
      i := i + 1;
    }
    out[j] := '\0';
  }

  /** The table lookup of one character. */
  method XmlText(c: char) returns (text: string)
    ensures text == XmlCharacter(c)
  {
    var k := 0;
    while k < 5 && XML_TABLE[k].0 != c
      invariant k <= 5 && forall i :: 0 <= i < k ==> XML_TABLE[i].0 != c
    {
      k := k + 1;
    }
    assert k == XmlIndex(c);
    if k < 5 {
      text := ['&'] + XML_TABLE[k].1 + [';'];
    } else if IsControl(c) || c == '%' {
      text := HexText(c);
    } else {
      text := [c];
    }
  }

  lemma XmlRoom(s: string, i: nat)
    requires i < |s|
    ensures EscapeXmlText(s[..i + 1]) == EscapeXmlText(s[..i]) + XmlCharacter(s[i])
    ensures |EscapeXmlText(s[..i + 1])| <= |s| + 5 * XmlCount(s)
  {
    assert s[..i + 1][..i] == s[..i];
    XmlLength(s[..i + 1]);
    XmlCountMonotone(s, i + 1);
  }

  /** memcpy() of text behind the j characters already there. */
  method AppendTo(out: array<char>, j: nat, text: string, ghost done: string) returns (next: nat)
    requires j == |done| && j + |text| <= out.Length && out[..j] == done
    modifies out
    ensures next == j + |text| && out[..next] == done + text
  {
    next := j;
    for k := 0 to |text|
      invariant next == j + k && out[..next] == done + text[..k]
    {
      out[next] := text[k];
      next := next + 1;
    }
    assert text[..|text|] == text;
  }

  lemma XmlStart(s: string)
    ensures UnescapeXmlText(s) == "" + UnescapeXmlText(s[0..])
  {
    assert s[0..] == s;
  }

  lemma XmlNext(s: string, i: nat, done: string, c: char, used: nat)
    requires i < |s| && (c, used) == XmlStep(s[i..])
    ensures done + UnescapeXmlText(s[i..]) == (done + [c]) + UnescapeXmlText(s[i + used..])
  {
    assert s[i..][used..] == s[i + used..];
  }

  /** glite_lbu_UnescapeXML. */
  method UnescapeXML(input: Option<string>) returns (out: array?<char>)
    ensures out == null <==> input == None
    ensures input.Some? ==> fresh(out) && IsCString(out, UnescapeXmlText(input.value))
    ensures input.Some? ==> IsCString(out, UpToNul(UnescapeXmlText(input.value)))
  {
    if input == None {
      return null;
    }
    hide UnescapeXmlText, XmlStep, MatchFrom, IndexOf, UpToNul;
    var s := input.value;
    out := new char[|s| + 1];
    var i, j := 0, 0;
    ghost var done := "";
    XmlStart(s);
    while i < |s|
      invariant 0 <= i <= |s| && j <= i && j == |done| && out[..j] == done
      invariant UnescapeXmlText(s) == done + UnescapeXmlText(s[i..])
    {
      var c, used := UnescapeStep(s, i);
      XmlNext(s, i, done, c, used);
      out[j] := c;
      done := done + [c];
      i := i + used;
      j := j + 1;
    }
    XmlNothing(s, i, done);
    Terminate(out, j, done);
  }

  /** The terminator behind the j characters already there. */
  method Terminate(out: array<char>, j: nat, ghost done: string)
    requires j == |done| < out.Length && out[..j] == done
    modifies out
    ensures IsCString(out, done) && IsCString(out, UpToNul(done))
  {
    hide IndexOf, UpToNul;
    out[j] := '\0';
    CutString(out, done);
  }

  lemma CutString(a: array<char>, text: string)
    requires IsCString(a, text)
    ensures IsCString(a, UpToNul(text))
  {
    hide IndexOf;
    var cut := UpToNul(text);
    assert a[..|cut|] == a[..|text|][..|cut|] == cut;
    assert |cut| < |text| ==> a[|cut|] == a[..|text|][|cut|];
  }

  lemma XmlNothing(s: string, i: nat, done: string)
    requires i == |s|
    ensures UnescapeXmlText(s[i..]) == "" && done + "" == done
  {
  }

  /** The body of the loop: an entity, a hex code or a plain character at position i. */
  method UnescapeStep(s: string, i: nat) returns (c: char, used: nat)
    requires i < |s|
    ensures (c, used) == XmlStep(s[i..])
  {
    c, used := s[i], 1;
    if s[i] == '&' {
      var semi := IndexOf(s[i..], ';');
      if semi < |s| - i {
        var k := 0;
        while k < 5 && !SamePrefix(s[i + 1..], XML_TABLE[k].1, semi - 1)
          invariant k <= 5
          invariant MatchFrom(s[i + 1..], semi - 1, 0) == MatchFrom(s[i + 1..], semi - 1, k)
        {
          k := k + 1;
        }
        assert s[i..][1..] == s[i + 1..];
        if k < 5 {
          c, used := XML_TABLE[k].0, semi + 1;
        }
      }
    } else if s[i] == '%' && i + 2 < |s| && IsHex(s[i + 1]) && IsHex(s[i + 2]) {
      var origchar := DigitValue(s[i + 1]) * 16 + DigitValue(s[i + 2]);
      if origchar % 128 < 32 || origchar == '%' as int {
        c, used := origchar as char, 3;
      }
    }
  }

  // ----- SQL

  function SqlCharacter(c: char): string {
    if c == '\\' then "\\\\" else if c == '\'' then "''" else [c]
  }

  function EscapeSqlText(s: string): string {
    Expand(s, SqlCharacter)
  }

  /** What an SQL server reads from the inside of a quoted literal: doubled quotes and backslashes
      stand for one. None when the literal would end before the text does. */
  function SqlLiteral(s: string): Option<string> {
    if s == [] then Some("")
    else if s[0] in {'\\', '\''} then
      if |s| > 1 && s[1] == s[0] && SqlLiteral(s[2..]).Some?
      then Some([s[0]] + SqlLiteral(s[2..]).value) else None
    else if SqlLiteral(s[1..]).Some? then Some([s[0]] + SqlLiteral(s[1..]).value)
    else None
  }

  lemma {:induction false} SqlRoundTrip(s: string)
    ensures SqlLiteral(EscapeSqlText(s)) == Some(s)
  {
    if s != [] {
      ExpandFirst(s, SqlCharacter);
      SqlRoundTrip(s[1..]);
      var c, t := SqlCharacter(s[0]), EscapeSqlText(s[1..]);
      assert (c + t)[|c|..] == t && SqlLiteral(t) == Some(s[1..]);
      assert |c| == 2 ==> (c + t)[1] == c[1];
      assert [s[0]] + s[1..] == s;
    }
  }

  function SqlCount(s: string): nat {
    if s == [] then 0 else SqlCount(s[..|s| - 1]) + (if s[|s| - 1] in {'\\', '\''} then 1 else 0)
  }

  lemma {:induction false} SqlLength(s: string)
    ensures |EscapeSqlText(s)| == |s| + SqlCount(s)
  {
    if s != [] {
      SqlLength(s[..|s| - 1]);
    }
  }

  lemma {:induction false} SqlCountMonotone(s: string, i: nat)
    requires i <= |s|
    ensures SqlCount(s[..i]) <= SqlCount(s)
    decreases |s| - i
  {
    if i < |s| {
      assert s[..i + 1][..i] == s[..i];
      SqlCountMonotone(s, i + 1);
    } else {
      assert s[..i] == s;
    }
  }

  lemma SqlNothing()
    ensures EscapeSqlText("") == ""
  {
  }

  /** One more character, and room for what is left. */
  lemma SqlNext(s: string, i: nat)
    requires i < |s|
    ensures EscapeSqlText(s[..i + 1]) == EscapeSqlText(s[..i]) + SqlCharacter(s[i])
    ensures |EscapeSqlText(s[..i + 1])| + |s| - (i + 1) <= |EscapeSqlText(s)|
  {
    assert s[..i + 1][..i] == s[..i];
    SqlCountMonotone(s, i + 1);
    SqlLength(s);
    SqlLength(s[..i + 1]);
  }

  /** glite_lbu_EscapeSQL; the buffer it fills is just long enough. */
  method EscapeSQL(input: Option<string>) returns (out: array?<char>)
    ensures out == null <==> input == None
    ensures input.Some? ==> fresh(out) && IsCString(out, EscapeSqlText(input.value))
    ensures input.Some? ==> out.Length == |EscapeSqlText(input.value)| + 1
  {
    if input == None {
      return null;
    }
    hide EscapeSqlText, SqlCount;
    var s := input.value;
    var cnt := CountSql(s);
    SqlLength(s);
    out := new char[|s| + 1 + cnt];
    var i, j := 0, 0;
    SqlNothing();
    while i < |s|
      invariant 0 <= i <= |s| && j == |EscapeSqlText(s[..i])|
      invariant j + |s| - i <= |EscapeSqlText(s)| && out[..j] == EscapeSqlText(s[..i])
    {
      SqlNext(s, i);
      if s[i] == '\\' {
        out[j] := '\\';
        j := j + 1;
      }
      if s[i] == '\'' {
        out[j] := '\'';
        j := j + 1;
      }
      out[j] := s[i];
      j := j + 1;
      i := i + 1;
    }
    assert s[..|s|] == s;
    out[j] := '\0';
  }

  /** Quotes first, then backslashes. */
  method CountSql(s: string) returns (cnt: nat)
    ensures cnt == SqlCount(s)
  {
    cnt := 0;
    for i := 0 to |s|
      invariant cnt == SqlCount(s[..i])
    {
      assert s[..i + 1][..i] == s[..i];
      if s[i] == '\'' || s[i] == '\\' {
        cnt := cnt + 1;
      }
    }
    assert s[..|s|] == s;
  }
}
