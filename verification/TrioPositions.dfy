/** Formats without stars, whose conversions may give the position of their argument, as in
    "%2$s %1$d". */
module TrioPositions {
  import opened CText
  import opened Numerals
  import opened TrioNumber
  import opened TrioLexer
  import opened TrioCompile
  import opened TrioInterpreter
  import opened TrioPreprocessor
  import opened TrioSimulation
  import opened TrioFormatter

  // ----- The text of such a format

  /** The zero-based position of a conversion, after its percent sign: its own, or that of the next
      argument. */
  function Place(f: string, next: int): int {
    if GetPosition(f).0 == NO_POSITION then next else GetPosition(f).0
  }

  /** The next argument after it; a conversion with a position of its own does not count. */
  function Following(f: string, next: int): int {
    if GetPosition(f).0 == NO_POSITION then next + 1 else next
  }

  /** The positions in their order in the text. */
  function Positions(f: string, next: int): seq<int>
    decreases |f|
  {
    if f == "" then []
    else if f[0] != '%' then Positions(f[1..], next)
    else if |f| > 1 && f[1] == '%' then Positions(f[2..], next)
    else [Place(f[1..], next)] + Positions(f[1 + GetPosition(f[1..]).1..], Following(f[1..], next))
  }

  /** The same format without positions. */
  function Strip(f: string): string {
    if f == "" then ""
    else if f[0] != '%' then [f[0]] + Strip(f[1..])
    else if |f| > 1 && f[1] == '%' then "%%" + Strip(f[2..])
    else "%" + Strip(f[1 + GetPosition(f[1..]).1..])
  }

  /** Text without percent signs is copied and has no positions. */
  lemma {:induction false} CopiesText(f: string, k: nat, next: int)
    requires k <= |f| && '%' !in f[..k]
    ensures Strip(f) == f[..k] + Strip(f[k..]) && Positions(f, next) == Positions(f[k..], next)
  {
    hide GetPosition, Place, Following;
    if k == 0 {
      assert f[0..] == f;
    } else {
      assert f[0] == f[..k][0];
      assert f[1..][..k - 1] == f[..k][1..] && f[1..][k - 1..] == f[k..];
      CopiesText(f[1..], k - 1, next);
      assert f[..k] == [f[0]] + f[1..][..k - 1];
    }
  }

  // ----- A conversion is read the same whatever text follows its letter

  /** A character at which strtol() stops. */
  predicate Stops(c: char) {
    !IsSpace(c) && !IsDigit(c) && c !in {'+', '-'}
  }

  lemma StrToLongLocal(f: string, g: string, m: nat)
    requires m < |f| && m < |g| && f[..m + 1] == g[..m + 1] && Stops(f[m])
    ensures StrToLong(f) == StrToLong(g) && StrToLong(f).1 <= m
  {
    hide SpaceRun, DigitRun, Numerals.Value;
    PrefixAt(f, g, m);
    var sp := SpaceRun(f);
    SpaceRunIs(g, sp);
    var at := if f[sp] == '-' || f[sp] == '+' then sp + 1 else sp;
    DigitsLocal(f[at..], g[at..], m - at);
  }

  lemma PrefixAt(f: string, g: string, m: nat)
    requires m < |f| && m < |g| && f[..m + 1] == g[..m + 1]
    ensures forall i :: 0 <= i <= m ==> f[i] == g[i]
  {
    forall i | 0 <= i <= m ensures f[i] == g[i] {
      assert f[i] == f[..m + 1][i];
    }
  }

  lemma DigitsLocal(f: string, g: string, m: nat)
    requires m < |f| && m < |g| && !IsDigit(f[m]) && forall i :: 0 <= i <= m ==> f[i] == g[i]
    ensures DigitRun(f) == DigitRun(g) <= m && f[..DigitRun(f)] == g[..DigitRun(f)]
  {
    DigitRunIs(g, DigitRun(f));
  }

  predicate IsStar(q: Qualifier) {
    q.WidthStar? || q.PrecisionStar? || q.BaseStar?
  }

  lemma LetterStops(f: string, flags: Flags)
    requires LexLetter(f, flags).Letter?
    ensures Stops(f[0]) && f[0] != '%' && f[0] != '$' && !IsQualifier(f[0])
  {
    LettersOnly(f, flags);
  }

  lemma LettersOnly(f: string, flags: Flags)
    requires LexLetter(f, flags).Letter?
    ensures f[0] in {'c', 'C', 's', 'S', 'i', 'u', 'd', 'o', 'b', 'B', 'x', 'X'}
  {
  }

  lemma LexLocal(f: string, g: string, m: nat, dots: nat)
    requires 1 <= m < |f| && m < |g| && f[..m + 1] == g[..m + 1] && Stops(f[m]) && IsQualifier(f[0])
    requires !IsStar(Lex(f, dots).0)
    ensures Lex(f, dots) == Lex(g, dots)
  {
    hide StrToLong, GetPosition;
    assert f[0] == f[..m + 1][0] == g[0] && f[1] == f[..m + 1][1] == g[1];
    StrToLongLocal(f, g, m);
    assert f[1..][..m] == f[..m + 1][1..] == g[1..][..m];
    StrToLongLocal(f[1..], g[1..], m - 1);
  }

  lemma StrToLongText(s: string)
    ensures forall i :: 0 <= i < StrToLong(s).1 ==> !Stops(s[i])
  {
    var sp := SpaceRun(s);
    var at := if sp < |s| && (s[sp] == '-' || s[sp] == '+') then sp + 1 else sp;
    var n := DigitRun(s[at..]);
    forall i | 0 <= i < StrToLong(s).1 ensures !Stops(s[i]) {
      if i >= at {
        assert s[i] == s[at..][i - at];
      }
    }
  }

  lemma LexNoPercent(f: string, dots: nat)
    requires f != [] && IsQualifier(f[0]) && !IsStar(Lex(f, dots).0)
    ensures '%' !in f[..Lex(f, dots).1]
  {
    StrToLongText(f);
    StrToLongText(f[1..]);
  }

  /** The scan's variables of one conversion, with the counters of another. */
  function Moved(c: Conversion, d: Conversion): Conversion {
    c.(currentParam := d.currentParam, parameterPosition := d.parameterPosition, maxParam := d.maxParam)
  }

  predicate Starless(c: Conversion) {
    !c.widthParameter && !c.precisionParameter && !c.baseParameter
  }

  lemma QualifyStarless(q: Qualifier, c: Conversion, d: Conversion, positional: bool)
    ensures Starless(Qualify(q, c, positional)) ==> Starless(c) && !IsStar(q)
    ensures !IsStar(q) ==> Qualify(q, Moved(c, d), false) == Moved(Qualify(q, c, positional), d)
    ensures !IsStar(q) ==> Qualify(q, c, positional) == Moved(Qualify(q, c, positional), c)
  {
  }

  lemma {:induction false} QualifiersStarless(f: string, index: nat, c: Conversion, positional: bool)
    requires Qualifiers(f, index, c, positional).Done?
    ensures Starless(Qualifiers(f, index, c, positional).value.0) ==> Starless(c)
    decreases |f|
  {
    hide Lex, Qualify, IsQualifier;
    if f != [] && IsQualifier(f[0]) {
      var (q, n) := Lex(f, c.dots);
      QualifyStarless(q, c, c, positional);
      QualifiersStarless(f[n..], index + n, Qualify(q, c, positional), positional);
    }
  }

  /** Qualifiers without stars give the same result with other counters and before other text, and
      do not touch the counters. */
  lemma {:induction false} QualifiersLocal(f: string, index: nat, c: Conversion, positional: bool, m: nat,
                                           g: string, index': nat, d: Conversion)
    requires m < |f| && m < |g| && f[..m + 1] == g[..m + 1] && Stops(f[m]) && !IsQualifier(f[m])
    requires Qualifiers(f, index, c, positional).Done? && Qualifiers(f, index, c, positional).value.1 == index + m
    requires Starless(Qualifiers(f, index, c, positional).value.0)
    ensures var c' := Qualifiers(f, index, c, positional).value.0;
            && Qualifiers(g, index', Moved(c, d), false) == Done((Moved(c', d), index' + m))
            && c' == Moved(c', c) && '%' !in f[..m]
    decreases |f|
  {
    hide Lex, Qualify, IsQualifier, SizeConflict;
    assert f[0] == f[..m + 1][0] == g[0];
    if IsQualifier(f[0]) {
      var (q, n) := Lex(f, c.dots);
      var next := Qualify(q, c, positional);
      QualifiersStarless(f[n..], index + n, next, positional);
      QualifyStarless(q, c, d, positional);
      LexLocal(f, g, m, c.dots);
      LexNoPercent(f, c.dots);
      TakeDrop(f, g, n, m);
      QualifiersLocal(f[n..], index + n, next, positional, m - n, g[n..], index' + n, d);
    }
  }

  lemma TakeDrop(f: string, g: string, n: nat, m: nat)
    requires n <= m < |f| && m < |g| && f[..m + 1] == g[..m + 1]
    ensures f[n..][..m - n + 1] == g[n..][..m - n + 1]
    ensures f[..m] == f[..n] + f[n..][..m - n]
  {
    assert f[n..][..m - n + 1] == f[..m + 1][n..] == g[n..][..m - n + 1];
  }

  /** What scans as a conversion without a position is not itself a position. */
  lemma {:induction false} NoSecondPosition(f: string, index: nat, c: Conversion, positional: bool, m: nat, n: nat,
                                            flags: Flags)
    requires n < |f| && f[n] == '$' && m <= |f| && forall i :: 0 <= i < n ==> !Stops(f[i])
    requires var r := Qualifiers(f, index, c, positional); r.Done? && r.value.1 == index + m
    ensures !LexLetter(f[m..], flags).Letter?
    decreases |f|
  {
    hide Lex, Qualify, IsQualifier, LexLetter, SizeConflict, Stops;
    if IsQualifier(f[0]) {
      var (q, k) := Lex(f, c.dots);
      LexUpTo(f, c.dots, n);
      NoSecondPosition(f[k..], index + k, Qualify(q, c, positional), positional, m - k, n - k, flags);
      assert f[k..][m - k..] == f[m..];
    } else if LexLetter(f[m..], flags).Letter? {
      LetterStops(f[m..], flags);
    }
  }

  lemma LexUpTo(f: string, dots: nat, n: nat)
    requires n < |f| && f[n] == '$' && forall i :: 0 <= i < n ==> !Stops(f[i])
    requires IsQualifier(f[0])
    ensures Lex(f, dots).1 <= n
  {
    hide LexDot;
    if IsDigit(f[0]) {
      StrToLongText(f);
    }
  }

  lemma NotPositional(f: string, index: nat, c: Conversion, positional: bool, m: nat, flags: Flags)
    requires m <= |f| && LexLetter(f[m..], flags).Letter?
    requires var r := Qualifiers(f, index, c, positional); r.Done? && r.value.1 == index + m
    ensures GetPosition(f) == (NO_POSITION, 0)
  {
    hide Qualifiers, LexLetter, Stops, StrToLong;
    var (value, n) := StrToLong(f);
    if n < |f| && f[n] == '$' {
      StrToLongText(f);
      NoSecondPosition(f, index, c, positional, m, n, flags);
    }
  }

  // ----- One conversion with its position and without

  /** The table s of the format without positions has taken as many arguments as it has entries. */
  ghost predicate Sequential(s: Table) {
    && Consistent(s) && s.parameterPosition == |s.entries| && s.maxParam == |s.entries| - 1
    && forall p :: 0 <= p < |s.owner| ==> s.owner[p] == p
  }

  /** An entry that prints its argument and refers to no other entry. */
  predicate PlainEntry(e: Param) {
    e.kind != FormatParameter && !e.widthParameter && !e.precisionParameter && !e.baseParameter
  }

  /** The start of the scan of one conversion. */
  function FirstOf(f: string, t: Table): Conversion {
    FirstConversion(t, Place(f, t.parameterPosition))
  }

  /** A conversion that adds one entry has no stars: c is what its qualifiers, after `start` characters,
      make of it, and m the length of these and of its letter. */
  lemma PlainConversion(f: string, index: nat, t: Table, t': Table, next: nat)
    returns (c: Conversion, start: nat, m: nat)
    requires CompileConversion(f, index, t) == Done((t', next))
    requires |t.entries| == |t.owner| && |t'.entries| == |t.entries| + 1
    ensures start == GetPosition(f).1 && m >= 1 && start + m == next - index <= |f|
    ensures Qualifiers(f[start..], index + start, FirstOf(f, t), GetPosition(f).0 != NO_POSITION)
            == Done((c, index + start + m - 1))
    ensures Starless(c) && c == Moved(c, FirstOf(f, t)) && '%' !in f[start..start + m]
    ensures var last := f[start + m - 1]; Stops(last) && !IsQualifier(last)
    ensures Adds(f[start + m - 1..], next, c, GetPosition(f).0 != NO_POSITION, t, t')
  {
    hide Qualifiers, LexLetter, GetPosition, IsQualifier, Stops, Install;
    start := GetPosition(f).1;
    var first, positional := FirstOf(f, t), GetPosition(f).0 != NO_POSITION;
    var at;
    c, at := Qualifiers(f[start..], index + start, first, positional).value.0,
             Qualifiers(f[start..], index + start, first, positional).value.1;
    m := at - index - start + 1;
    var rest := f[at - index..];
    assert f[start..][m - 1..] == rest;
    ConcludeCounters(rest, at, c, positional, t);
    StarsCounted(rest, at, c, positional, t);
    LetterStops(rest, c.flags);
    QualifiersLocal(f[start..], index + start, first, positional, m - 1, f[start..], index, first);
    assert f[start..start + m] == f[start..][..m - 1] + [rest[0]];
  }

  /** There is no percent sign in its text. */
  lemma ConversionInside(f: string, index: nat, t: Table, t': Table, next: nat)
    requires CompileConversion(f, index, t) == Done((t', next))
    requires |t.entries| == |t.owner| && |t'.entries| == |t.entries| + 1
    ensures GetPosition(f).1 < next - index <= |f| && '%' !in f[GetPosition(f).1..next - index]
  {
    hide *;
    var _, _, _ := PlainConversion(f, index, t, t', next);
  }

  /** The table u is t with the entry of the conversion c, whose letter is at the start of f. */
  ghost predicate Adds(f: string, indexAfter: nat, c: Conversion, positional: bool, t: Table, u: Table) {
    && LexLetter(f, c.flags).Letter? && InRange(t, c.currentParam)
    && u == Install(t, c.currentParam,
                    MakeEntry(c, LexLetter(f, c.flags), (c.width, c.precision, c.base), indexAfter))
            .(maxParam := c.maxParam, parameterPosition := c.parameterPosition + (if positional then 0 else 1))
  }

  /** The conversion of f after its position, scanned in g, where it has none. */
  lemma ConversionStripped(f: string, index: nat, t: Table, t': Table, next: nat, g: string, index': nat, s: Table)
    returns (s': Table, m: nat)
    requires CompileConversion(f, index, t) == Done((t', next))
    requires |t.entries| == |t.owner| == |s.entries| && |t'.entries| == |t.entries| + 1
    requires Sequential(s)
    requires var start := GetPosition(f).1;
             && start <= next - index <= |f| && next - index - start <= |g|
             && g[..next - index - start] == f[start..next - index]
    ensures m == next - index - GetPosition(f).1 >= 1
    ensures CompileConversion(g, index', s) == Done((s', index' + m)) && Sequential(s')
    ensures |s'.entries| == |t'.entries| == |t'.owner|
    ensures t'.entries == t.entries + [t'.entries[|t.entries|]]
    ensures s'.entries == s.entries + [t'.entries[|t.entries|].(indexAfterSpecifier := index' + m)]
    ensures var place := Place(f, t.parameterPosition);
            t'.owner == t.owner + [place] && t'.maxParam == Max(t.maxParam, place)
    ensures t'.parameterPosition == Following(f, t.parameterPosition)
    ensures t'.entries[|t.entries|].indexAfterSpecifier == next && PlainEntry(t'.entries[|t.entries|])
  {
    hide Qualifiers, LexLetter, GetPosition, IsQualifier, Stops, Adds, Sequential, CompileConversion, FirstConversion;
    hide FirstOf, Place, Following, PlainEntry, Starless, Install;
    var c, start;
    c, start, m := PlainConversion(f, index, t, t', next);
    var first, positional := FirstOf(f, t), GetPosition(f).0 != NO_POSITION;
    assert f[start..][..m] == f[start..next - index] == g[..m];
    assert f[start + m - 1] == f[start..][m - 1] == f[start..][..m][m - 1] == g[m - 1];
    var d := FirstConversion(s, s.parameterPosition);
    QualifiersLocal(f[start..], index + start, first, positional, m - 1, g, index', d);
    StartsAlike(f, t, s);
    var c' := Moved(c, d);
    StarlessMoved(c, d);
    s' := AddsAlike(f[start + m - 1..], next, c, positional, t, t', g[m - 1..], index' + m, d, s);
    NotPositional(g, index', d, false, m - 1, c.flags);
    StarlessCompiles(g, index', s, c', m, s');
    PlaceOfFirst(f, t);
  }

  lemma StartsAlike(f: string, t: Table, s: Table)
    ensures Moved(FirstOf(f, t), FirstConversion(s, s.parameterPosition)) == FirstConversion(s, s.parameterPosition)
  {
  }

  lemma StarlessMoved(c: Conversion, d: Conversion)
    ensures Starless(Moved(c, d)) == Starless(c) && Moved(c, d).flags == c.flags
  {
  }

  lemma PlaceOfFirst(f: string, t: Table)
    ensures var first := FirstOf(f, t);
            && first.currentParam == Place(f, t.parameterPosition) && first.parameterPosition == t.parameterPosition
            && first.maxParam == Max(t.maxParam, first.currentParam)
    ensures Following(f, t.parameterPosition)
            == t.parameterPosition + if GetPosition(f).0 != NO_POSITION then 0 else 1
  {
    hide GetPosition;
  }

  /** The same conversion, with the counters of d, adds the same entry to a sequential table. */
  lemma AddsAlike(f: string, indexAfter: nat, c: Conversion, positional: bool, t: Table, t': Table, g: string,
                  indexAfter': nat, d: Conversion, s: Table) returns (s': Table)
    requires Adds(f, indexAfter, c, positional, t, t') && f != [] && g != [] && f[0] == g[0] && Starless(c)
    requires |t.entries| == |t.owner| == |s.entries| && Sequential(s) && d == FirstConversion(s, s.parameterPosition)
    ensures Adds(g, indexAfter', Moved(c, d), false, s, s') && Sequential(s')
    ensures 0 <= s.parameterPosition < MAX_PARAMETERS
    ensures LexLetter(g, c.flags).Letter? && |s'.entries| == |t'.entries| == |t'.owner| == |t.entries| + 1
    ensures t'.entries == t.entries + [t'.entries[|t.entries|]]
    ensures s'.entries == s.entries + [t'.entries[|t.entries|].(indexAfterSpecifier := indexAfter')]
    ensures t'.owner == t.owner + [c.currentParam] && t'.maxParam == c.maxParam
    ensures t'.parameterPosition == c.parameterPosition + if positional then 0 else 1
    ensures t'.entries[|t.entries|].indexAfterSpecifier == indexAfter && PlainEntry(t'.entries[|t.entries|])
  {
    hide LexLetter, Consistent;
    LetterAlone(f, g, c.flags);
    ConsistentSizes(s);
    var c' := Moved(c, d);
    var entry := MakeEntry(c', LexLetter(g, c.flags), (c'.width, c'.precision, c'.base), indexAfter');
    InstallConsistent(s, c'.currentParam, entry);
    CountersConsistent(Install(s, c'.currentParam, entry), c'.maxParam, c'.parameterPosition + 1);
    s' := Install(s, c'.currentParam, entry).(maxParam := c'.maxParam, parameterPosition := c'.parameterPosition + 1);
  }

  /** A conversion without a position, from what its qualifiers and its letter make of it. */
  lemma WithoutPosition(f: string, index: nat, n: nat, t: Table, c: Conversion, t': Table)
    requires GetPosition(f) == (NO_POSITION, 0) && f[0..] == f && n <= |f| && 0 <= t.parameterPosition < MAX_PARAMETERS
    requires Qualifiers(f, index, FirstConversion(t, t.parameterPosition), false) == Done((c, index + n))
    requires Conclude(f[n..], index + n, c, false, t) == Done(t')
    ensures CompileConversion(f, index, t) == Done((t', index + n + 1))
  {
    hide GetPosition, Qualifiers, Conclude, FirstConversion;
  }

  lemma StarlessCompiles(g: string, index: nat, s: Table, c: Conversion, m: nat, s': Table)
    requires GetPosition(g) == (NO_POSITION, 0) && 1 <= m <= |g| && Starless(c) && 0 <= s.parameterPosition
    requires Qualifiers(g, index, FirstConversion(s, s.parameterPosition), false) == Done((c, index + m - 1))
    requires s.parameterPosition < MAX_PARAMETERS && Adds(g[m - 1..], index + m, c, false, s, s')
    ensures CompileConversion(g, index, s) == Done((s', index + m))
  {
    hide Qualifiers, LexLetter, GetPosition, Install, MakeEntry, CompileConversion;
    assert g[0..] == g;
    WithoutPosition(g, index, m - 1, s, c, s');
  }

  lemma ConsistentSizes(t: Table)
    requires Consistent(t)
    ensures |t.entries| == |t.owner| && |t.usedEntries| == |t.indices| == MAX_PARAMETERS
  {
  }

  lemma LetterAlone(f: string, g: string, flags: Flags)
    requires f != [] && g != [] && f[0] == g[0]
    ensures LexLetter(f, flags) == LexLetter(g, flags)
  {
  }

  lemma StarsCounted(f: string, index: nat, c: Conversion, positional: bool, t: Table)
    requires |t.entries| == |t.owner| && Conclude(f, index, c, positional, t).Done?
    requires |Conclude(f, index, c, positional, t).value.entries| == |t.entries| + 1
    ensures Starless(c) && LexLetter(f, c.flags).Letter? && InRange(t, c.currentParam)
    ensures Conclude(f, index, c, positional, t).value
            == Install(t, c.currentParam,
                       MakeEntry(c, LexLetter(f, c.flags), (c.width, c.precision, c.base), index + 1))
               .(maxParam := c.maxParam, parameterPosition := c.parameterPosition + (if positional then 0 else 1))
  {
    hide LexLetter;
  }

  // ----- The whole format

  predicate AllPlain(entries: seq<Param>) {
    forall p :: 0 <= p < |entries| ==> PlainEntry(entries[p])
  }

  /** The arguments in the order in which the conversions take them. */
  function Permuted(positions: seq<int>, args: Args): Args {
    k => if 0 <= k < |positions| then args(positions[k]) else args(k)
  }

  lemma NoStars(f: string, index: nat, c: Conversion, positional: bool, t: Table)
    requires |t.entries| == |t.owner| && Conclude(f, index, c, positional, t).Done?
    requires AllPlain(Conclude(f, index, c, positional, t).value.entries)
    ensures |Conclude(f, index, c, positional, t).value.entries| == |t.entries| + 1
  {
    hide Conclude, LexLetter, StoredNumbers, MakeEntry;
    ConcludeShape(f, index, c, positional, t);
    assert PlainEntry(Conclude(f, index, c, positional, t).value.entries[|t.entries|]);
  }

  lemma OneEntry(f: string, index: nat, t: Table)
    requires |t.entries| == |t.owner| && CompileConversion(f, index, t).Done?
    requires AllPlain(CompileConversion(f, index, t).value.0.entries)
    ensures |CompileConversion(f, index, t).value.0.entries| == |t.entries| + 1
  {
    hide Qualifiers, Conclude, GetPosition, FirstConversion, AllPlain;
    var (currentParam, start) := GetPosition(f);
    var positional := currentParam != NO_POSITION;
    var first := FirstConversion(t, if positional then currentParam else t.parameterPosition);
    var (c, at) := Qualifiers(f[start..], index + start, first, positional).value;
    NoStars(f[at - index..], at, c, positional, t);
  }

  lemma PlainPrefix(t: Table, u: Table)
    requires Extends(t, u) && AllPlain(u.entries)
    ensures AllPlain(t.entries)
  {
    forall p | 0 <= p < |t.entries| ensures PlainEntry(t.entries[p]) {
      assert t.entries[p] == u.entries[p];
    }
  }

  /** An entry that refers to no other prints the same in two tables. */
  lemma PlainText(es: seq<Param>, e: Param, fs: seq<Param>, f: Param, loc: Locale)
    requires loc.Valid() && PlainEntry(e) && f == e.(indexAfterSpecifier := f.indexAfterSpecifier)
    ensures EntryText(es, e, loc) == EntryText(fs, f, loc)
  {
    hide ConversionText;
  }

  /** The scans of the format and of its stripped form are at the same place. */
  ghost predicate Matching(format: string, i: nat, t: Table, strip: string, j: nat, s: Table) {
    && i <= |format| && j <= |strip| && strip[j..] == Strip(format[i..])
    && |t.entries| == |t.owner| == |s.entries| && Sequential(s) && t.maxParam == Largest(t.owner)
    && CompileFrom(format, i, t).Done? && AllPlain(CompileFrom(format, i, t).value.entries)
  }

  predicate AtConversion(format: string, i: nat) {
    i < |format| && format[i] == '%' && !(i + 1 < |format| && format[i + 1] == '%')
  }

  /** Literal text, or a doubled percent sign. */
  lemma TextStep(format: string, i: nat, t: Table, strip: string, j: nat, s: Table) returns (k: nat)
    requires Matching(format, i, t, strip, j, s) && i < |format| && !AtConversion(format, i)
    ensures k == (if format[i] == '%' then 2 else 1) && i + k <= |format| && j + k <= |strip|
    ensures Matching(format, i + k, t, strip, j + k, s) && strip[j..j + k] == format[i..i + k]
    ensures Positions(format[i..], t.parameterPosition) == Positions(format[i + k..], t.parameterPosition)
    ensures CompileFrom(format, i, t) == CompileFrom(format, i + k, t)
    ensures CompileFrom(strip, j, s) == CompileFrom(strip, j + k, s)
  {
    hide CompileConversion, GetPosition, Sequential;
    k := if format[i] == '%' then 2 else 1;
    assert format[i..][k..] == format[i + k..] && strip[j..][k..] == strip[j + k..];
    assert strip[j..][..k] == strip[j..j + k];
    assert strip[j] == strip[j..j + k][0] == format[i..i + k][0];
    assert k == 2 ==> strip[j + 1] == strip[j..j + k][1] == format[i..i + k][1];
  }

  lemma CompilesConversion(format: string, i: nat, t: Table, t': Table, next: nat)
    requires AtConversion(format, i) && i < next <= |format|
    requires CompileConversion(format[i + 1..], i + 1, t) == Done((t', next))
    ensures CompileFrom(format, i, t) == CompileFrom(format, next, t')
  {
    hide CompileConversion;
  }

  lemma AtPercent(f: string, next: int)
    requires f != "" && f[0] == '%' && !(|f| > 1 && f[1] == '%')
    ensures var rest := f[1 + GetPosition(f[1..]).1..];
            && Strip(f) == "%" + Strip(rest)
            && Positions(f, next) == [Place(f[1..], next)] + Positions(rest, Following(f[1..], next))
  {
  }

  /** The text of a conversion in both forms. */
  lemma StripConversion(format: string, i: nat, start: nat, m: nat, next: int)
    requires AtConversion(format, i) && start == GetPosition(format[i + 1..]).1 && i + 1 + start + m <= |format|
    requires '%' !in format[i + 1..][start..start + m]
    ensures var f, rest := format[i + 1..], format[i + 1 + start + m..];
            && Strip(format[i..]) == "%" + f[start..start + m] + Strip(rest)
            && Positions(format[i..], next) == [Place(f, next)] + Positions(rest, Following(f, next))
  {
    hide GetPosition, Strip, Positions, Place, Following;
    var f := format[i + 1..];
    assert format[i..][1..] == f;
    AtPercent(format[i..], next);
    assert f[start..][..m] == f[start..start + m];
    CopiesText(f[start..], m, Following(f, next));
    assert f[start..][m..] == format[i + 1 + start + m..] && format[i..][1 + start..] == f[start..];
  }

  /** A conversion of a format that compiles to plain entries adds one of them. */
  lemma ConversionParts(format: string, i: nat, t: Table) returns (next: nat, t': Table)
    requires AtConversion(format, i) && |t.entries| == |t.owner|
    requires CompileFrom(format, i, t).Done? && AllPlain(CompileFrom(format, i, t).value.entries)
    ensures CompileConversion(format[i + 1..], i + 1, t) == Done((t', next)) && i < next <= |format|
    ensures |t'.entries| == |t'.owner| == |t.entries| + 1 && Extends(t, t')
    ensures CompileFrom(format, i, t) == CompileFrom(format, next, t')
  {
    hide CompileConversion, AllPlain;
    var f := format[i + 1..];
    t', next := CompileConversion(f, i + 1, t).value.0, CompileConversion(f, i + 1, t).value.1;
    ConversionExtends(f, i + 1, t);
    CompileExtends(format, next, t');
    PlainPrefix(t', CompileFrom(format, i, t).value);
    OneEntry(f, i + 1, t);
  }

  /** The text of the stripped form from a conversion on. */
  lemma StripText(format: string, i: nat, strip: string, j: nat, t: Table, t': Table, next: nat)
    requires AtConversion(format, i) && j <= |strip| && strip[j..] == Strip(format[i..])
    requires CompileConversion(format[i + 1..], i + 1, t) == Done((t', next)) && i < next <= |format|
    requires |t.entries| == |t.owner| && |t'.entries| == |t.entries| + 1
    ensures var f, start := format[i + 1..], GetPosition(format[i + 1..]).1;
            var j' := j + next - i - start;
            && start < next - (i + 1)
            && AtConversion(strip, j) && j' <= |strip| && strip[j + 1..][..j' - j - 1] == f[start..next - (i + 1)]
            && strip[j'..] == Strip(format[next..])
            && Positions(format[i..], t.parameterPosition)
               == [Place(f, t.parameterPosition)] + Positions(format[next..], Following(f, t.parameterPosition))
  {
    hide CompileConversion, GetPosition, Strip, Positions, Place, Following;
    AtPercent(format[i..], t.parameterPosition);
    assert |strip[j..]| > 0;
    var f, g := format[i + 1..], strip[j + 1..];
    assert format[i..][1..] == f;
    var start := GetPosition(f).1;
    ConversionInside(f, i + 1, t, t', next);
    var m := next - i - 1 - start;
    StripConversion(format, i, start, m, t.parameterPosition);
    assert strip[j..] == "%" + f[start..start + m] + Strip(format[next..]);
    assert strip[j] == strip[j..][0] && strip[j..][1..] == g;
    assert g[..m] == f[start..next - (i + 1)];
    assert strip[j + 1] == g[..m][0] == f[start..next - (i + 1)][0];
    assert strip[j + 1 + m..] == g[m..];
  }

  /** A conversion. */
  lemma ConversionStep(format: string, i: nat, t: Table, strip: string, j: nat, s: Table)
    returns (next: nat, t': Table, j': nat, s': Table)
    requires Matching(format, i, t, strip, j, s) && AtConversion(format, i)
    ensures AtConversion(strip, j) && Matching(format, next, t', strip, j', s') && i < next && j < j'
    ensures Extends(t, t') && Extends(s, s')
    ensures t'.owner + Positions(format[next..], t'.parameterPosition)
            == t.owner + Positions(format[i..], t.parameterPosition)
    ensures CompileFrom(format, i, t) == CompileFrom(format, next, t')
    ensures CompileFrom(strip, j, s) == CompileFrom(strip, j', s')
    ensures OneMore(t, t', next, s, s', j')
  {
    hide CompileConversion, CompileFrom, GetPosition, Consistent, AllPlain, Strip, Positions, Place, Following;
    ConsistentSizes(s);
    next, t' := ConversionParts(format, i, t);
    var f := format[i + 1..];
    StripText(format, i, strip, j, t, t', next);
    j' := j + next - i - GetPosition(f).1;
    var m';
    s', m' := ConversionStripped(f, i + 1, t, t', next, strip[j + 1..], j + 1, s);
    CompilesConversion(strip, j, s, s', j');
    assert t'.owner[..|t'.owner| - 1] == t.owner;
    ConsistentSizes(s');
  }

  /** The tables t' and s' have one more entry than t and s, the same in both but for the text that
      follows it. */
  ghost predicate OneMore(t: Table, t': Table, next: nat, s: Table, s': Table, j': nat) {
    var n := |t.entries|;
    && |t'.entries| == |t'.owner| == |s'.entries| == |s'.owner| == n + 1
    && PlainEntry(t'.entries[n]) && t'.entries[n].indexAfterSpecifier == next
    && s'.entries[n] == t'.entries[n].(indexAfterSpecifier := j')
  }

  /** From matching places on, the format and its stripped form are scanned to tables that differ in
      owners and text indices only. */
  lemma {:induction false} ScanStripped(format: string, i: nat, t: Table, strip: string, j: nat, s: Table)
    requires Matching(format, i, t, strip, j, s)
    ensures CompileFrom(format, i, t).Done? && i <= |format| && j <= |strip| && CompileFrom(strip, j, s).Done?
    ensures var u, v := CompileFrom(format, i, t).value, CompileFrom(strip, j, s).value;
            && Sequential(v) && |v.entries| == |u.entries| == |u.owner| && Extends(t, u) && Extends(s, v)
            && u.owner == t.owner + Positions(format[i..], t.parameterPosition) && u.maxParam == Largest(u.owner)
    decreases |format| - i
  {
    hide CompileFrom, Matching, Sequential, Extends, OneMore, AtConversion, Positions;
    MatchingFacts(format, i, t, strip, j, s);
    if AtConversion(format, i) {
      var next, t', j', s' := ConversionStep(format, i, t, strip, j, s);
      ScanStripped(format, next, t', strip, j', s');
      ExtendsTransitive(t, t', CompileFrom(format, i, t).value);
      ExtendsTransitive(s, s', CompileFrom(strip, j, s).value);
    } else if i < |format| {
      var k := TextStep(format, i, t, strip, j, s);
      ScanStripped(format, i + k, t, strip, j + k, s);
    } else {
      ScannedAll(format, t, strip, s);
    }
  }

  lemma ScannedAll(format: string, t: Table, strip: string, s: Table)
    requires |t.entries| == |t.owner| && |s.entries| == |s.owner|
    ensures CompileFrom(format, |format|, t) == Done(t) && CompileFrom(strip, |strip|, s) == Done(s)
    ensures Extends(t, t) && Extends(s, s) && Positions(format[|format|..], t.parameterPosition) == []
  {
  }

  lemma MatchingFacts(format: string, i: nat, t: Table, strip: string, j: nat, s: Table)
    requires Matching(format, i, t, strip, j, s)
    ensures i <= |format| && j <= |strip| && (i == |format| ==> j == |strip|)
    ensures |t.entries| == |t.owner| == |s.entries| == |s.owner|
    ensures Sequential(s) && t.maxParam == Largest(t.owner) && CompileFrom(format, i, t).Done?
  {
  }

  /** They print the same when the stripped form is given the arguments in the order of the positions. */
  lemma {:induction false} ExecuteStripped(format: string, i: nat, t: Table, u: Table, strip: string, j: nat, s: Table,
                                           v: Table, args: Args, loc: Locale)
    requires Matching(format, i, t, strip, j, s) && loc.Valid()
    requires i <= |format| && j <= |strip|
    requires CompileFrom(format, i, t) == Done(u) && CompileFrom(strip, j, s) == Done(v)
    requires |u.entries| == |u.owner| == |v.entries| == |v.owner| && Sequential(v)
    ensures |t.entries| <= |u.entries|
    ensures Execute(format, i, |t.entries|, Loaded(u, args), loc)
            == Execute(strip, j, |t.entries|, Loaded(v, Permuted(u.owner, args)), loc)
    decreases |format| - i
  {
    hide CompileFrom, CompileConversion, Matching, SkipParameters, EntryText, Extends, Execute, Sequential;
    hide AtConversion, Loaded, OneMore, Positions;
    MatchingFacts(format, i, t, strip, j, s);
    ScanStripped(format, i, t, strip, j, s);
    ExtendsSize(t, u);
    var es, fs := Loaded(u, args), Loaded(v, Permuted(u.owner, args));
    if AtConversion(format, i) {
      var next, t', j', s' := ConversionStep(format, i, t, strip, j, s);
      ScanStripped(format, next, t', strip, j', s');
      LoadedEntries(t, t', next, u, s, s', j', v, |t.entries|, args, loc);
      MatchingFacts(format, next, t', strip, j', s');
      OneMoreSize(t, t', next, s, s', j');
      ExecuteStripped(format, next, t', u, strip, j', s', v, args, loc);
      ExecutesConversion(format, i, |t.entries|, es, loc);
      ExecutesConversion(strip, j, |t.entries|, fs, loc);
    } else if i < |format| {
      var k := TextStep(format, i, t, strip, j, s);
      ExecuteStripped(format, i + k, t, u, strip, j + k, s, v, args, loc);
      ExecutesText(format, i, |t.entries|, es, strip, j, fs, k, loc);
    } else {
      ExecutesNothing(format, |t.entries|, es, loc);
      ExecutesNothing(strip, |t.entries|, fs, loc);
    }
  }

  lemma ExecutesConversion(format: string, i: nat, n: nat, es: seq<Param>, loc: Locale)
    requires AtConversion(format, i) && loc.Valid() && n < |es| && SkipParameters(es, n) == n
    requires i < es[n].indexAfterSpecifier <= |format|
    ensures Execute(format, i, n, es, loc)
            == Join(EntryText(es, es[n], loc), Execute(format, es[n].indexAfterSpecifier, n + 1, es, loc))
  {
    hide EntryText, SkipParameters;
  }

  /** Two formats with the same text in front. */
  lemma ExecutesText(format: string, i: nat, n: nat, es: seq<Param>, strip: string, j: nat, fs: seq<Param>, k: nat,
                     loc: Locale)
    requires i < |format| && !AtConversion(format, i) && k == (if format[i] == '%' then 2 else 1)
    requires i + k <= |format| && j + k <= |strip| && strip[j..j + k] == format[i..i + k]
    requires loc.Valid() && n <= |es| && n <= |fs|
    requires Execute(format, i + k, n, es, loc) == Execute(strip, j + k, n, fs, loc)
    ensures Execute(format, i, n, es, loc) == Execute(strip, j, n, fs, loc)
  {
    hide EntryText, SkipParameters;
    assert strip[j] == strip[j..j + k][0] == format[i..i + k][0];
    assert k == 2 ==> strip[j + 1] == strip[j..j + k][1] == format[i..i + k][1];
  }

  lemma ExecutesNothing(format: string, n: nat, es: seq<Param>, loc: Locale)
    requires n <= |es| && loc.Valid()
    ensures Execute(format, |format|, n, es, loc) == Some("")
  {
  }

  lemma OneMoreSize(t: Table, t': Table, next: nat, s: Table, s': Table, j': nat)
    requires OneMore(t, t', next, s, s', j')
    ensures |t'.entries| == |t.entries| + 1
  {
  }

  lemma ExtendsSize(t: Table, u: Table)
    requires Extends(t, u)
    ensures |t.entries| <= |u.entries|
  {
  }

  lemma LoadedEntries(t0: Table, t: Table, next: nat, u: Table, s0: Table, s: Table, j: nat, v: Table, n: nat,
                      args: Args, loc: Locale)
    requires Extends(t, u) && Extends(s, v) && Sequential(v) && |v.entries| == |u.entries| && loc.Valid()
    requires OneMore(t0, t, next, s0, s, j) && |t0.entries| == n
    ensures n < |u.entries|
    ensures var es, fs := Loaded(u, args), Loaded(v, Permuted(u.owner, args));
            && SkipParameters(es, n) == n == SkipParameters(fs, n)
            && es[n].indexAfterSpecifier == next && fs[n].indexAfterSpecifier == j
            && EntryText(es, es[n], loc) == EntryText(fs, fs[n], loc)
  {
    hide EntryText, Consistent;
    ConsistentSizes(v);
    var es, fs := Loaded(u, args), Loaded(v, Permuted(u.owner, args));
    assert u.entries[n] == t.entries[n] && v.entries[n] == s.entries[n];
    PlainText(es, es[n], fs, fs[n], loc);
  }

  // ----- Acceptance and output

  /** 0, 1, ..., n - 1. */
  function Range(n: nat): (r: seq<int>)
    ensures |r| == n && forall k :: 0 <= k < n ==> r[k] == k
  {
    if n == 0 then [] else Range(n - 1) + [n - 1]
  }

  lemma {:induction false} RangeCounts(n: nat)
    ensures forall k :: multiset(Range(n))[k] == if 0 <= k < n then 1 else 0
  {
    if n > 0 {
      RangeCounts(n - 1);
    }
  }

  /** Each of the first |positions| positions occurs, and occurs once. */
  ghost predicate IsPermutation(positions: seq<int>) {
    multiset(positions) == multiset(Range(|positions|))
  }

  /** Positions below n that are each used once are the first n. */
  lemma ExactlyAll(positions: seq<int>, n: nat)
    requires forall k :: 0 <= k < n ==> multiset(positions)[k] == 1
    requires forall p :: p in positions ==> 0 <= p < n
    ensures |positions| == n && multiset(positions) == multiset(Range(n))
  {
    hide Range;
    RangeCounts(n);
    forall k ensures multiset(positions)[k] == multiset(Range(n))[k] {
      if !(0 <= k < n) {
        assert k !in positions;
      }
    }
    assert multiset(positions) == multiset(Range(n));
    assert |multiset(positions)| == |positions| && |multiset(Range(n))| == n;
  }

  lemma PermutationCounts(positions: seq<int>, p: int)
    requires IsPermutation(positions)
    ensures p in positions <==> 0 <= p < |positions|
    ensures 0 <= p < |positions| ==> multiset(positions)[p] == 1
  {
    hide Range;
    RangeCounts(|positions|);
    assert p in positions <==> p in multiset(positions);
  }

  /** Positions that count up to their largest one without a gap or a repetition are a permutation,
      and the other way round. */
  lemma OnceEach(positions: seq<int>)
    requires forall p :: p in positions ==> p >= 0
    ensures IsPermutation(positions) <==> forall k :: 0 <= k <= Largest(positions) ==> multiset(positions)[k] == 1
  {
    hide Largest, IsPermutation;
    var n := Largest(positions) + 1;
    if forall k :: 0 <= k < n ==> multiset(positions)[k] == 1 {
      ExactlyAll(positions, n);
      SamePermutation(positions, n);
    }
    if IsPermutation(positions) {
      PermutationCounts(positions, n - 1);
      forall k | 0 <= k < n ensures multiset(positions)[k] == 1 {
        PermutationCounts(positions, k);
      }
    }
  }

  lemma SamePermutation(positions: seq<int>, n: nat)
    requires |positions| == n && multiset(positions) == multiset(Range(n))
    ensures IsPermutation(positions)
  {
  }

  /** The check of the use counts finds the smallest position that is not used once. */
  lemma {:induction false} CheckFinds(t: Table, num: nat)
    requires num <= t.maxParam + 1 <= |t.usedEntries|
    ensures match CheckFrom(t, num)
            case Done(u) => u == t && forall k :: num <= k <= t.maxParam ==> t.usedEntries[k] == 1
            case Rejected(code, position) =>
              && num <= position <= t.maxParam && t.usedEntries[position] != 1
              && code == (if t.usedEntries[position] == 0 then TRIO_EGAP else TRIO_EDBLREF)
              && forall k :: num <= k < position ==> t.usedEntries[k] == 1
            case Outside => false
    decreases t.maxParam + 1 - num
  {
    if num <= t.maxParam && t.usedEntries[num] == 1 {
      CheckFinds(t, num + 1);
    }
  }

  /** A format that the scan takes, without stars. */
  ghost predicate StarFree(format: string) {
    && CompileFrom(format, 0, EMPTY_TABLE).Done?
    && AllPlain(CompileFrom(format, 0, EMPTY_TABLE).value.entries)
  }

  lemma StarFreeScan(format: string)
    requires StarFree(format)
    ensures Matching(format, 0, EMPTY_TABLE, Strip(format), 0, EMPTY_TABLE)
    ensures var u := CompileFrom(format, 0, EMPTY_TABLE).value;
            && u.owner == Positions(format, 0) && u.maxParam == Largest(u.owner) && Consistent(u)
            && |u.entries| == |u.owner|
    ensures CompileFrom(Strip(format), 0, EMPTY_TABLE).Done?
    ensures var v := CompileFrom(Strip(format), 0, EMPTY_TABLE).value;
            Sequential(v) && |v.entries| == |Positions(format, 0)|
  {
    hide CompileFrom, Strip, Positions;
    assert format[0..] == format && Strip(format)[0..] == Strip(format);
    ScanStripped(format, 0, EMPTY_TABLE, Strip(format), 0, EMPTY_TABLE);
    ScanConsistent(format, 0, EMPTY_TABLE);
  }

  /** Such a format is accepted exactly when its positions are a permutation of the first ones, whether
      given or counted. A rejection names the first position that is missing or used twice. */
  lemma StarFreeAccepted(format: string)
    requires StarFree(format)
    ensures var positions := Positions(format, 0);
            match Compile(format)
            case Done(t) => IsPermutation(positions) && t.owner == positions
            case Rejected(code, position) =>
              && !IsPermutation(positions) && position < Largest(positions) + 1
              && (code == if position !in positions then TRIO_EGAP else TRIO_EDBLREF)
              && forall k :: 0 <= k < position ==> multiset(positions)[k] == 1
            case Outside => false
  {
    hide CompileFrom, Strip, Positions;
    StarFreeScan(format);
    var u := CompileFrom(format, 0, EMPTY_TABLE).value;
    CheckFinds(u, 0);
    OnceEach(u.owner);
  }

  /** A table of a format without positions passes the check. */
  lemma SequentialAccepted(v: Table)
    requires Sequential(v)
    ensures CheckFrom(v, 0) == Done(v) && Largest(v.owner) <= v.maxParam
  {
    hide CheckFrom, Range, Largest;
    CheckFinds(v, 0);
    RangeCounts(|v.owner|);
    assert v.owner == Range(|v.owner|);
  }

  lemma StripAccepted(format: string)
    requires StarFree(format)
    ensures Compile(Strip(format)).Done?
    ensures Compile(Strip(format)) == CompileFrom(Strip(format), 0, EMPTY_TABLE)
  {
    hide CompileFrom, Strip, Sequential, CheckFrom, Matching, IsPermutation, StarFree, Consistent;
    StarFreeScan(format);
    SequentialAccepted(CompileFrom(Strip(format), 0, EMPTY_TABLE).value);
  }

  /** An accepted one prints what the format without positions prints when it is given the arguments
      in the order of the positions. */
  lemma StarFreeOutput(format: string, args: Args, loc: Locale)
    requires StarFree(format) && IsPermutation(Positions(format, 0)) && loc.Valid()
    ensures Output(format, args, loc) == Output(Strip(format), Permuted(Positions(format, 0), args), loc)
    ensures Compile(format).Done? && Compile(Strip(format)).Done?
  {
    hide CompileFrom, Strip, Positions, Execute, Sequential, CheckFrom, Matching, IsPermutation;
    hide StarFree, Consistent, Loaded;
    StarFreeScan(format);
    StarFreeAccepted(format);
    StripAccepted(format);
    var u, v := CompileFrom(format, 0, EMPTY_TABLE).value, CompileFrom(Strip(format), 0, EMPTY_TABLE).value;
    SequentialSizes(v);
    CompiledIsScanned(format);
    ExecuteStripped(format, 0, EMPTY_TABLE, u, Strip(format), 0, EMPTY_TABLE, v, args, loc);
  }

  lemma CompiledIsScanned(format: string)
    requires Compile(format).Done?
    ensures Compile(format) == CompileFrom(format, 0, EMPTY_TABLE)
  {
    hide CompileFrom, CheckFrom;
  }

  lemma SequentialSizes(v: Table)
    requires Sequential(v)
    ensures |v.entries| == |v.owner|
  {
  }

  // ----- Formats without positions and without stars

  lemma ConversionSequential(f: string, index: nat, t: Table, t': Table, next: nat)
    requires CompileConversion(f, index, t) == Done((t', next)) && '$' !in f
    requires Sequential(t) && |t'.entries| == |t.entries| + 1
    ensures Sequential(t')
  {
    hide Qualifiers, LexLetter, GetPosition, Consistent, IsQualifier;
    NoDollarNoPosition(f);
    ConsistentSizes(t);
    assert f[0..] == f;
    var first := FirstConversion(t, t.parameterPosition);
    var (c, at) := Qualifiers(f, index, first, false).value;
    var rest := f[at - index..];
    ConcludeCounters(rest, at, c, false, t);
    StarsCounted(rest, at, c, false, t);
    QualifiersKeep(f, index, first, false);
    var entry := MakeEntry(c, LexLetter(rest, c.flags), (c.width, c.precision, c.base), at + 1);
    InstallConsistent(t, c.currentParam, entry);
    CountersConsistent(Install(t, c.currentParam, entry), c.maxParam, c.parameterPosition + 1);
  }

  /** Qualifiers without stars do not touch the counters. */
  lemma {:induction false} QualifiersKeep(f: string, index: nat, c: Conversion, positional: bool)
    requires Qualifiers(f, index, c, positional).Done? && Starless(Qualifiers(f, index, c, positional).value.0)
    ensures var c' := Qualifiers(f, index, c, positional).value.0; c' == Moved(c', c)
    decreases |f|
  {
    hide Lex, Qualify, IsQualifier, SizeConflict;
    if f != [] && IsQualifier(f[0]) {
      var (q, n) := Lex(f, c.dots);
      var next := Qualify(q, c, positional);
      QualifiersStarless(f[n..], index + n, next, positional);
      QualifyStarless(q, c, c, positional);
      QualifiersKeep(f[n..], index + n, next, positional);
    }
  }

  lemma {:induction false} ScanSequential(format: string, i: nat, t: Table)
    requires '$' !in format && i <= |format| && Sequential(t)
    requires CompileFrom(format, i, t).Done? && AllPlain(CompileFrom(format, i, t).value.entries)
    ensures Sequential(CompileFrom(format, i, t).value)
    decreases |format| - i
  {
    hide CompileConversion, Sequential, AllPlain;
    if i < |format| {
      if format[i] != '%' {
        ScanSequential(format, i + 1, t);
      } else if i + 1 < |format| && format[i + 1] == '%' {
        ScanSequential(format, i + 2, t);
      } else {
        SequentialSizes(t);
        var next, t' := ConversionParts(format, i, t);
        ConversionSequential(format[i + 1..], i + 1, t, t', next);
        ScanSequential(format, next, t');
      }
    }
  }

  /** Such a format is accepted as soon as it is well formed: no gap and no double reference is found
      in it, and every entry gets the argument of its own place. */
  lemma PlainAccepted(format: string)
    requires '$' !in format && CompileFrom(format, 0, EMPTY_TABLE).Done?
    requires AllPlain(CompileFrom(format, 0, EMPTY_TABLE).value.entries)
    ensures Compile(format) == CompileFrom(format, 0, EMPTY_TABLE)
    ensures forall p :: 0 <= p < |Compile(format).value.owner| ==> Compile(format).value.owner[p] == p
  {
    hide CompileFrom, CheckFrom, AllPlain;
    EmptySequential();
    ScanSequential(format, 0, EMPTY_TABLE);
    SequentialAccepted(CompileFrom(format, 0, EMPTY_TABLE).value);
  }

  lemma EmptySequential()
    ensures Sequential(EMPTY_TABLE)
  {
  }
}
