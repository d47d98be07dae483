/** Which formats the check accepts although an entry of their table is never read. */
module TrioUnread {
  import opened CText
  import opened Numerals
  import opened TrioNumber
  import opened TrioLexer
  import opened TrioCompile
  import opened TrioInterpreter
  import opened TrioPreprocessor
  import opened TrioSimulation
  import opened TrioFormatter
  import opened TrioPositions

  // ----- What a format asks for, from its text alone

  /** The variables that decide it, within a conversion: the width, the kinds of star seen, the position
      of the conversion, the number of the next argument and the highest position reached. */
  datatype Reach = Reach(
    width: int, widthStar: bool, precisionStar: bool, baseStar: bool, current: int, next: int, highest: int)

  /** The position that a star refers to. */
  function StarPosition(explicit: int, positional: bool, r: Reach): int {
    if explicit != NO_POSITION then explicit else if positional then r.next + 1 else r.current
  }

  /** A star without a position of its own takes the next number; in a conversion without one it moves
      the conversion behind it. */
  function AfterStar(explicit: int, positional: bool, r: Reach): Reach {
    r.(next := if explicit == NO_POSITION then r.next + 1 else r.next,
       current := if positional then r.current else StarPosition(explicit, positional, r) + 1)
  }

  /** The explicit position of a width or base is reached; that of a precision replaces the highest one
      when the width is above it, and does nothing otherwise. */
  function ReachAfter(q: Qualifier, positional: bool, r: Reach): Reach {
    match q
    case Width(_, value) => r.(width := value)
    case WidthStar(explicit) =>
      var p, s := StarPosition(explicit, positional, r), AfterStar(explicit, positional, r);
      s.(width := p, widthStar := true,
         highest := Max(if explicit != NO_POSITION then Max(r.highest, p) else r.highest, s.current))
    case PrecisionStar(explicit) =>
      var p, s := StarPosition(explicit, positional, r), AfterStar(explicit, positional, r);
      s.(precisionStar := true,
         highest := Max(if explicit != NO_POSITION && r.width > r.highest then p else r.highest, s.current))
    case BaseStar(explicit) =>
      var p, s := StarPosition(explicit, positional, r), AfterStar(explicit, positional, r);
      s.(baseStar := true,
         highest := Max(if explicit != NO_POSITION then Max(r.highest, p) else r.highest, s.current))
    case _ => r
  }

  function ReachAll(f: string, dots: nat, positional: bool, r: Reach): Reach {
    if f == [] || !IsQualifier(f[0]) then r
    else
      var (q, n) := Lex(f, dots);
      ReachAll(f[n..], DotsAfter(q, dots), positional, ReachAfter(q, positional, r))
  }

  /** The length of the qualifiers at the start of f. */
  function QualifiersLength(f: string, dots: nat): (n: nat)
    ensures n <= |f|
  {
    if f == [] || !IsQualifier(f[0]) then 0
    else
      var (q, n) := Lex(f, dots);
      n + QualifiersLength(f[n..], DotsAfter(q, dots))
  }

  /** The index after the letter of the conversion whose percent sign is before index. */
  function AfterConversion(format: string, index: nat): (after: nat)
    requires index <= |format|
    ensures after > index
  {
    var n := GetPosition(format[index..]).1;
    index + n + QualifiersLength(format[index + n..], 0) + 1
  }

  function ReachStart(f: string, next: int, highest: int): Reach {
    Reach(NO_WIDTH, false, false, false, Place(f, next), next, Max(highest, Place(f, next)))
  }

  function KindsOfStar(r: Reach): nat {
    (if r.widthStar then 1 else 0) + (if r.precisionStar then 1 else 0) + (if r.baseStar then 1 else 0)
  }

  /** From an index of the format on: the number of conversions and of their kinds of star, added to
      `count`, and the highest position reached. */
  function References(format: string, index: nat, next: int, highest: int, count: nat): (nat, int)
    requires index <= |format|
    decreases |format| - index
  {
    if index == |format| then (count, highest)
    else if format[index] != '%' then References(format, index + 1, next, highest, count)
    else if index + 1 < |format| && format[index + 1] == '%' then References(format, index + 2, next, highest, count)
    else
      var f := format[index + 1..];
      var (position, n) := GetPosition(f);
      var r := ReachAll(f[n..], 0, position != NO_POSITION, ReachStart(f, next, highest));
      var after := AfterConversion(format, index + 1);
      if after > |format| then (count, highest)
      else References(format, after, Following(f, r.next), r.highest, count + 1 + KindsOfStar(r))
  }

  ghost predicate Reaches(c: Conversion, r: Reach) {
    && c.width == r.width && c.currentParam == r.current && c.parameterPosition == r.next && c.maxParam == r.highest
    && c.widthParameter == r.widthStar && c.precisionParameter == r.precisionStar && c.baseParameter == r.baseStar
  }

  lemma TakeReaches(c: Conversion, explicit: int, positional: bool, r: Reach)
    requires Reaches(c, r)
    ensures var taken, s := TakePosition(c, explicit, positional), AfterStar(explicit, positional, r);
            taken == (StarPosition(explicit, positional, r), c.(currentParam := s.current, parameterPosition := s.next))
  {
  }

  lemma StarReaches(q: Qualifier, c: Conversion, positional: bool, r: Reach)
    requires Reaches(c, r) && IsStar(q)
    ensures Reaches(QualifyNumbers(q, c, positional), ReachAfter(q, positional, r))
    ensures QualifyNumbers(q, c, positional).dots == c.dots
  {
    hide TakePosition, StarPosition;
    TakeReaches(c, q.position, positional, r);
    if q.WidthStar? {
      hide StarPrecision, StarBase;
      assert QualifyNumbers(q, c, positional) == StarWidth(c, q.position, positional);
    } else if q.PrecisionStar? {
      hide StarWidth, StarBase;
      assert QualifyNumbers(q, c, positional) == StarPrecision(c, q.position, positional);
    } else {
      hide StarWidth, StarPrecision;
      assert QualifyNumbers(q, c, positional) == StarBase(c, q.position, positional);
    }
  }

  lemma QualifyReaches(q: Qualifier, c: Conversion, positional: bool, r: Reach)
    requires Reaches(c, r)
    ensures Reaches(Qualify(q, c, positional), ReachAfter(q, positional, r))
    ensures Qualify(q, c, positional).dots == DotsAfter(q, c.dots)
  {
    hide FlagsAfter, DotsAfter, StarWidth, StarPrecision, StarBase;
    if IsStar(q) {
      hide QualifyNumbers, ReachAfter;
      StarReaches(q, c.(flags := FlagsAfter(q, c.flags), dots := DotsAfter(q, c.dots)), positional, r);
    }
  }

  lemma {:induction false} QualifiersReach(f: string, index: nat, c: Conversion, positional: bool, r: Reach)
    requires Reaches(c, r) && Qualifiers(f, index, c, positional).Done?
    ensures var scanned := Qualifiers(f, index, c, positional).value;
            && Reaches(scanned.0, ReachAll(f, c.dots, positional, r))
            && scanned.1 == index + QualifiersLength(f, c.dots)
    decreases |f|
  {
    hide Lex, Qualify, IsQualifier, ReachAfter, SizeConflict, Reaches, DotsAfter;
    if f != [] && IsQualifier(f[0]) {
      var (q, n) := Lex(f, c.dots);
      QualifyReaches(q, c, positional, r);
      QualifiersReach(f[n..], index + n, Qualify(q, c, positional), positional, ReachAfter(q, positional, r));
    }
  }

  lemma ConversionReaches(format: string, index: nat, t: Table, t': Table, next: nat)
    requires index <= |format| && |t.entries| == |t.owner|
    requires CompileConversion(format[index..], index, t) == Done((t', next))
    ensures next == AfterConversion(format, index) <= |format| && |t'.entries| == |t'.owner|
    ensures var f := format[index..];
            var (position, n) := GetPosition(f);
            var r := ReachAll(f[n..], 0, position != NO_POSITION, ReachStart(f, t.parameterPosition, t.maxParam));
            && t'.parameterPosition == Following(f, r.next) && t'.maxParam == r.highest
            && |t'.entries| == |t.entries| + 1 + KindsOfStar(r)
  {
    hide GetPosition, Qualifiers, ReachAll, Conclude, QualifiersLength, LexLetter, StoredNumbers, MakeEntry;
    var f := format[index..];
    var (position, n) := GetPosition(f);
    var positional, first := position != NO_POSITION, FirstOf(f, t);
    var (c, at) := Qualifiers(f[n..], index + n, first, positional).value;
    QualifiersReach(f[n..], index + n, first, positional, ReachStart(f, t.parameterPosition, t.maxParam));
    assert f[n..] == format[index + n..];
    ConcludeShape(f[at - index..], at, c, positional, t);
  }

  /** The table has one entry for each reference, and the highest position is its maxParam. */
  lemma {:induction false} ReferencesAreEntries(format: string, index: nat, t: Table)
    requires index <= |format| && |t.entries| == |t.owner| && CompileFrom(format, index, t).Done?
    ensures var u := CompileFrom(format, index, t).value;
            && |u.entries| == |u.owner|
            && References(format, index, t.parameterPosition, t.maxParam, |t.entries|) == (|u.entries|, u.maxParam)
    decreases |format| - index
  {
    hide CompileConversion, ReachAll, AfterConversion, GetPosition, KindsOfStar, ReachStart, Following;
    if index < |format| {
      if format[index] != '%' {
        ReferencesAreEntries(format, index + 1, t);
      } else if index + 1 < |format| && format[index + 1] == '%' {
        ReferencesAreEntries(format, index + 2, t);
      } else {
        var (t', next) := CompileConversion(format[index + 1..], index + 1, t).value;
        ConversionReaches(format, index + 1, t, t', next);
        ReferencesAreEntries(format, next, t');
      }
    }
  }

  // ----- The exact condition

  /** Positions that are all used once, by no more entries than there are positions, are the only ones
      in use. */
  lemma NoneBeyond(owner: seq<int>, n: nat)
    requires |owner| <= n && forall k :: 0 <= k < n ==> multiset(owner)[k] == 1
    ensures forall p :: p in owner ==> 0 <= p < n
  {
    RangeCounts(n);
    var rest := multiset(owner) - multiset(Range(n));
    assert multiset(Range(n)) <= multiset(owner);
    assert |rest| == |owner| - n;
    assert rest == multiset{};
    assert multiset(owner) == multiset(Range(n)) + rest;
    assert forall p :: p in owner ==> p in multiset(owner);
  }

  lemma CheckCounts(u: Table)
    requires Consistent(u) && CheckFrom(u, 0).Done? && u.maxParam >= -1
    ensures forall k :: 0 <= k <= u.maxParam ==> multiset(u.owner)[k] == 1
  {
    CheckWithin(u, 0);
    CheckFinds(u, 0);
  }

  lemma {:induction false} CheckWithin(u: Table, num: nat)
    requires |u.usedEntries| == MAX_PARAMETERS && CheckFrom(u, num).Done? && num <= u.maxParam + 1
    ensures num <= MAX_PARAMETERS ==> u.maxParam < MAX_PARAMETERS
    decreases u.maxParam + 1 - num
  {
    if num <= u.maxParam {
      CheckWithin(u, num + 1);
    }
  }

  lemma AcceptedCounts(format: string)
    requires Accept(format).Done?
    ensures var u := CompileFrom(format, 0, EMPTY_TABLE).value;
            && CompileFrom(format, 0, EMPTY_TABLE).Done? && Accept(format) == Done(u)
            && Consistent(u) && u.maxParam >= -1
            && forall k :: 0 <= k <= u.maxParam ==> multiset(u.owner)[k] == 1
  {
    hide CompileFrom, CheckFrom;
    EmptyConsistent();
    ScanConsistent(format, 0, EMPTY_TABLE);
    MaxAtLeast(format, 0, EMPTY_TABLE);
    CheckCounts(CompileFrom(format, 0, EMPTY_TABLE).value);
  }

  lemma EmptyConsistent()
    ensures Consistent(EMPTY_TABLE)
  {
  }

  /** A format that passes the check leaves no entry unread exactly when its conversions and stars are as
      many as the positions up to the highest one reached. */
  lemma ReadExactly(format: string)
    requires Accept(format).Done?
    ensures var (count, highest) := References(format, 0, 0, -1, 0);
            && (Compile(format) == Accept(format) <==> count == highest + 1)
            && (Compile(format) == Outside <==> count > highest + 1)
            && Accept(format).value.maxParam == highest && |Accept(format).value.entries| == count
  {
    hide CompileFrom, CheckFrom, References, Consistent, Largest;
    AcceptedCounts(format);
    ReferencesAreEntries(format, 0, EMPTY_TABLE);
    var u := Accept(format).value;
    ConsistentSizes(u);
    AtLeastAll(u.owner, u.maxParam + 1);
    OwnersPositive(u);
    if |u.owner| == u.maxParam + 1 {
      NoneBeyond(u.owner, u.maxParam + 1);
    } else if AllRead(u) {
      ExactlyAll(u.owner, u.maxParam + 1);
    }
  }

  lemma OwnersPositive(t: Table)
    requires Consistent(t)
    ensures forall p :: p in t.owner ==> p >= 0
  {
  }

  lemma AtLeastAll(owner: seq<int>, n: nat)
    requires forall k :: 0 <= k < n ==> multiset(owner)[k] == 1
    ensures |owner| >= n
  {
    RangeCounts(n);
    assert multiset(Range(n)) <= multiset(owner);
    assert multiset(owner) == multiset(Range(n)) + (multiset(owner) - multiset(Range(n)));
    assert |multiset(owner)| == |owner| && |multiset(Range(n))| == n;
  }

  // ----- Formats without positions

  lemma {:induction false} StarsTakeArguments(f: string, index: nat, c: Conversion)
    requires '$' !in f && Qualifiers(f, index, c, false).Done?
    ensures var c' := Qualifiers(f, index, c, false).value.0;
            Stars(c') - Stars(c) <= c'.parameterPosition - c.parameterPosition
    decreases |f|
  {
    hide Lex, IsQualifier, Qualify, Stars, SizeConflict;
    if f != [] && IsQualifier(f[0]) {
      var (q, n) := Lex(f, c.dots);
      LexNoPosition(f, c.dots);
      StarTakesArgument(q, c);
      StarsTakeArguments(f[n..], index + n, Qualify(q, c, false));
    }
  }

  lemma StarTakesArgument(q: Qualifier, c: Conversion)
    requires IsStar(q) ==> q.position == NO_POSITION
    ensures Stars(Qualify(q, c, false)) - Stars(c) <= Qualify(q, c, false).parameterPosition - c.parameterPosition
  {
  }

  lemma {:induction false} EntriesWithin(format: string, i: nat, t: Table)
    requires '$' !in format && i <= |format| && |t.entries| == |t.owner| <= t.parameterPosition
    requires CompileFrom(format, i, t).Done?
    ensures var u := CompileFrom(format, i, t).value; |u.owner| <= u.parameterPosition
    decreases |format| - i
  {
    hide CompileConversion;
    if i < |format| {
      if format[i] != '%' {
        EntriesWithin(format, i + 1, t);
      } else if i + 1 < |format| && format[i + 1] == '%' {
        EntriesWithin(format, i + 2, t);
      } else {
        var (u, next) := CompileConversion(format[i + 1..], i + 1, t).value;
        ConversionWithin(format[i + 1..], i + 1, t);
        EntriesWithin(format, next, u);
      }
    }
  }

  lemma ConversionWithin(f: string, index: nat, t: Table)
    requires '$' !in f && |t.entries| == |t.owner| <= t.parameterPosition && CompileConversion(f, index, t).Done?
    ensures var u := CompileConversion(f, index, t).value.0; |u.entries| == |u.owner| <= u.parameterPosition
  {
    hide Qualifiers, Conclude, GetPosition, LexLetter, StoredNumbers, MakeEntry;
    NoDollarNoPosition(f);
    assert f[0..] == f;
    var first := FirstConversion(t, t.parameterPosition);
    var (c, at) := Qualifiers(f, index, first, false).value;
    StarsTakeArguments(f, index, first);
    ConcludeShape(f[at - index..], at, c, false, t);
  }

  /** A format without positions that passes the check of the use counts has no entry whose argument
      is not read, stars or not. */
  lemma AcceptedIsRead(format: string)
    requires '$' !in format && Accept(format).Done?
    ensures Compile(format) == Accept(format)
  {
    hide CompileFrom, CheckFrom, EngineCalls, DirectCalls;
    var u := CompileFrom(format, 0, EMPTY_TABLE).value;
    Simulates(format, 0, EMPTY_TABLE, _ => NOTHING);
    EntriesWithin(format, 0, EMPTY_TABLE);
    AcceptedCounts(format);
    NoneBeyond(u.owner, u.maxParam + 1);
  }

  // ----- A guard in the text

  /** The qualifiers of one conversion: in a conversion with a position every star is a width or a base
      with its own position; in one without, a precision star has no position after a literal width. No
      literal width comes after a star. */
  predicate GuardedQualifiers(f: string, dots: nat, positional: bool, literal: bool, starred: bool) {
    if f == [] || !IsQualifier(f[0]) then true
    else
      var (q, n) := Lex(f, dots);
      match q
      case Width(_, _) => !starred && GuardedQualifiers(f[n..], DotsAfter(q, dots), positional, true, starred)
      case WidthStar(explicit) =>
        && (positional ==> explicit != NO_POSITION)
        && GuardedQualifiers(f[n..], DotsAfter(q, dots), positional, false, true)
      case PrecisionStar(explicit) =>
        && !positional && (literal ==> explicit == NO_POSITION)
        && GuardedQualifiers(f[n..], DotsAfter(q, dots), positional, literal, starred)
      case BaseStar(explicit) =>
        && (positional ==> explicit != NO_POSITION)
        && GuardedQualifiers(f[n..], DotsAfter(q, dots), positional, literal, starred)
      case _ => GuardedQualifiers(f[n..], DotsAfter(q, dots), positional, literal, starred)
  }

  /** In every conversion. */
  predicate Guarded(format: string, index: nat)
    requires index <= |format|
    decreases |format| - index
  {
    if index == |format| then true
    else if format[index] != '%' then Guarded(format, index + 1)
    else if index + 1 < |format| && format[index + 1] == '%' then Guarded(format, index + 2)
    else
      var f := format[index + 1..];
      var (position, n) := GetPosition(f);
      var after := AfterConversion(format, index + 1);
      && GuardedQualifiers(f[n..], 0, position != NO_POSITION, false, false)
      && (after <= |format| ==> Guarded(format, after))
  }

  /** No position of the conversion is beyond maxParam. */
  ghost predicate Inside(c: Conversion, literal: bool, starred: bool) {
    && 0 <= c.maxParam && c.currentParam <= c.maxParam && starred == c.widthParameter
    && (!literal ==> c.width <= c.maxParam) && (c.widthParameter ==> c.width <= c.maxParam)
    && (c.precisionParameter ==> c.precision <= c.maxParam) && (c.baseParameter ==> c.base <= c.maxParam)
    && (c.dots == 0 ==> !c.precisionParameter) && (c.dots <= 1 ==> !c.baseParameter)
  }

  /** What the guard asks of one qualifier. */
  predicate Allowed(q: Qualifier, positional: bool, literal: bool, starred: bool) {
    && (q.Width? ==> !starred)
    && ((q.WidthStar? || q.BaseStar?) && positional ==> q.position != NO_POSITION)
    && (q.PrecisionStar? ==> !positional && (literal ==> q.position == NO_POSITION))
  }

  lemma GuardStep(f: string, dots: nat, positional: bool, literal: bool, starred: bool)
    requires f != [] && IsQualifier(f[0]) && GuardedQualifiers(f, dots, positional, literal, starred)
    ensures var (q, n) := Lex(f, dots);
            && Allowed(q, positional, literal, starred)
            && GuardedQualifiers(f[n..], DotsAfter(q, dots), positional,
                                 if q.Width? then true else if q.WidthStar? then false else literal,
                                 starred || q.WidthStar?)
  {
    hide Lex, DotsAfter, IsQualifier;
  }

  lemma WidthInside(c: Conversion, explicit: int, positional: bool, literal: bool, starred: bool)
    requires Inside(c, literal, starred) && (positional ==> explicit != NO_POSITION)
    ensures var d := StarWidth(c, explicit, positional); Inside(d, false, true) && d.maxParam >= c.maxParam
  {
  }

  lemma PrecisionInside(c: Conversion, explicit: int, literal: bool, starred: bool)
    requires Inside(c.(dots := 0), literal, starred) && c.dots == 1 && (literal ==> explicit == NO_POSITION)
    ensures var d := StarPrecision(c, explicit, false); Inside(d, literal, starred) && d.maxParam >= c.maxParam
  {
  }

  lemma BaseInside(c: Conversion, explicit: int, positional: bool, literal: bool, starred: bool)
    requires Inside(c.(dots := 1), literal, starred) && c.dots == 2 && (positional ==> explicit != NO_POSITION)
    ensures var d := StarBase(c, explicit, positional); Inside(d, literal, starred) && d.maxParam >= c.maxParam
  {
  }

  lemma StarInside(q: Qualifier, c: Conversion, positional: bool, literal: bool, starred: bool)
    requires Inside(c, literal, starred) && Allowed(q, positional, literal, starred) && IsStar(q)
    requires (q.PrecisionStar? ==> c.dots == 0) && (q.BaseStar? ==> c.dots == 1)
    ensures var d := Qualify(q, c, positional);
            && Inside(d, if q.WidthStar? then false else literal, starred || q.WidthStar?) && d.maxParam >= c.maxParam
  {
    hide FlagsAfter, StarWidth, StarPrecision, StarBase;
    var flags := FlagsAfter(q, c.flags);
    FlagsApart(c, flags, literal, starred);
    hide Inside;
    if q.WidthStar? {
      WidthInside(c.(flags := flags), q.position, positional, literal, starred);
    } else if q.PrecisionStar? {
      assert c.(flags := flags, dots := 1).(dots := 0) == c.(flags := flags);
      PrecisionInside(c.(flags := flags, dots := 1), q.position, literal, starred);
    } else {
      assert c.(flags := flags, dots := 2).(dots := 1) == c.(flags := flags);
      BaseInside(c.(flags := flags, dots := 2), q.position, positional, literal, starred);
    }
  }

  lemma FlagsApart(c: Conversion, flags: Flags, literal: bool, starred: bool)
    requires Inside(c, literal, starred)
    ensures Inside(c.(flags := flags), literal, starred)
  {
  }

  lemma LiteralInside(q: Qualifier, c: Conversion, positional: bool, literal: bool, starred: bool)
    requires Inside(c, literal, starred) && Allowed(q, positional, literal, starred) && !IsStar(q)
    requires (q.Precision? || q.NoPrecision? ==> c.dots == 0) && (q.Base? ==> c.dots == 1)
    ensures var d := Qualify(q, c, positional);
            Inside(d, if q.Width? then true else literal, starred) && d.maxParam >= c.maxParam
  {
    hide FlagsAfter, StarWidth, StarPrecision, StarBase;
  }

  lemma QualifyInside(f: string, c: Conversion, positional: bool, literal: bool, starred: bool)
    requires f != [] && IsQualifier(f[0]) && Inside(c, literal, starred)
    requires GuardedQualifiers(f, c.dots, positional, literal, starred)
    ensures var (q, n) := Lex(f, c.dots);
            var d := Qualify(q, c, positional);
            var literal' := if q.Width? then true else if q.WidthStar? then false else literal;
            var starred' := starred || q.WidthStar?;
            && Inside(d, literal', starred') && d.maxParam >= c.maxParam && d.dots == DotsAfter(q, c.dots)
            && GuardedQualifiers(f[n..], d.dots, positional, literal', starred')
  {
    hide Lex, IsQualifier, Qualify, Inside, Allowed, GuardedQualifiers, DotsAfter;
    LexOrder(f, c.dots);
    GuardStep(f, c.dots, positional, literal, starred);
    var q := Lex(f, c.dots).0;
    if IsStar(q) {
      StarInside(q, c, positional, literal, starred);
    } else {
      LiteralInside(q, c, positional, literal, starred);
    }
    DotsQualified(q, c, positional);
  }

  lemma DotsQualified(q: Qualifier, c: Conversion, positional: bool)
    ensures Qualify(q, c, positional).dots == DotsAfter(q, c.dots)
  {
  }

  lemma {:induction false} QualifiersInside(f: string, index: nat, c: Conversion, positional: bool, literal: bool,
                                            starred: bool) returns (literal': bool, starred': bool)
    requires Inside(c, literal, starred) && Qualifiers(f, index, c, positional).Done?
    requires GuardedQualifiers(f, c.dots, positional, literal, starred)
    ensures var d := Qualifiers(f, index, c, positional).value.0;
            Inside(d, literal', starred') && d.maxParam >= c.maxParam
    decreases |f|
  {
    hide Lex, Qualify, IsQualifier, SizeConflict, GuardedQualifiers, Inside, DotsAfter;
    literal', starred' := literal, starred;
    if f != [] && IsQualifier(f[0]) {
      var (q, n) := Lex(f, c.dots);
      QualifyInside(f, c, positional, literal, starred);
      literal', starred' :=
        QualifiersInside(f[n..], index + n, Qualify(q, c, positional), positional,
                         if q.Width? then true else if q.WidthStar? then false else literal, starred || q.WidthStar?);
    }
  }

  ghost predicate AllInside(t: Table) {
    |t.entries| == |t.owner| && forall p :: 0 <= p < |t.owner| ==> t.owner[p] <= t.maxParam
  }

  lemma ConcludeInside(f: string, index: nat, c: Conversion, positional: bool, t: Table, literal: bool, starred: bool)
    requires AllInside(t) && Inside(c, literal, starred) && t.maxParam <= c.maxParam
    requires Conclude(f, index, c, positional, t).Done?
    ensures AllInside(Conclude(f, index, c, positional, t).value)
  {
    hide LexLetter, MakeEntry, StoredNumbers;
  }

  lemma ConversionInsideMax(format: string, index: nat, t: Table, t': Table, next: nat)
    requires index <= |format| && AllInside(t)
    requires CompileConversion(format[index..], index, t) == Done((t', next))
    requires var f := format[index..];
             GuardedQualifiers(f[GetPosition(f).1..], 0, GetPosition(f).0 != NO_POSITION, false, false)
    ensures AllInside(t')
  {
    hide GetPosition, Qualifiers, Conclude, GuardedQualifiers, AllInside;
    var f := format[index..];
    var (position, n) := GetPosition(f);
    var positional, first := position != NO_POSITION, FirstOf(f, t);
    var (c, at) := Qualifiers(f[n..], index + n, first, positional).value;
    var literal, starred := QualifiersInside(f[n..], index + n, first, positional, false, false);
    ConcludeInside(f[at - index..], at, c, positional, t, literal, starred);
  }

  lemma {:induction false} ScanInside(format: string, index: nat, t: Table)
    requires index <= |format| && AllInside(t) && Guarded(format, index) && CompileFrom(format, index, t).Done?
    ensures AllInside(CompileFrom(format, index, t).value)
    decreases |format| - index
  {
    hide CompileConversion, AllInside, AfterConversion, GetPosition, GuardedQualifiers;
    if index < |format| {
      if format[index] != '%' {
        ScanInside(format, index + 1, t);
      } else if index + 1 < |format| && format[index + 1] == '%' {
        ScanInside(format, index + 2, t);
      } else {
        var (t', next) := CompileConversion(format[index + 1..], index + 1, t).value;
        ConversionInsideMax(format, index + 1, t, t', next);
        InsideSizes(t);
        ConversionReaches(format, index + 1, t, t', next);
        ScanInside(format, next, t');
      }
    }
  }

  lemma InsideSizes(t: Table)
    requires AllInside(t)
    ensures |t.entries| == |t.owner|
  {
  }

  /** A guarded format that is accepted has every entry read; so has one without stars. */
  lemma GuardedIsRead(format: string)
    requires Guarded(format, 0) && Accept(format).Done?
    ensures Compile(format) == Accept(format)
  {
    hide CompileFrom, CheckFrom, Guarded;
    ScanInside(format, 0, EMPTY_TABLE);
    MaxAtLeast(format, 0, EMPTY_TABLE);
  }

  // ----- Three formats that leave an entry unread

  lemma PositionText(n: nat, rest: string)
    requires 0 < n < 10
    ensures GetPosition([DigitChar(n, false)] + "$" + rest) == (n - 1, 2)
  {
    hide StrToLong;
    StrToLongOfDecimal(n, "$" + rest);
    assert Decimal(n) == [DigitChar(n, false)];
    assert Decimal(n) + ("$" + rest) == [DigitChar(n, false)] + "$" + rest;
  }

  /** "%1$*d": the star of a conversion with a position takes the next number, which does not raise
      maxParam. */
  lemma StarLeavesUnread()
    ensures Accept("%1$*d").Done? && Compile("%1$*d") == Outside
    ensures var t := Accept("%1$*d").value; t.owner == [1, 0] && t.maxParam == 0
  {
    hide GetPosition, Lex;
    var f, s := "1$*d", "*d";
    PositionText(1, s);
    assert [DigitChar(1, false)] + "$" + s == f && f[2..] == s && s[1..] == "d";
    NoDollarNoPosition("d");
    var first := FirstConversion(EMPTY_TABLE, 0);
    assert Lex(s, 0) == (WidthStar(NO_POSITION), 1) by {
      LexWidthStar(s);
    }
    var c := first.(width := 1, widthParameter := true, parameterPosition := 1);
    assert Qualify(WidthStar(NO_POSITION), first, true) == c;
    OneConversion("%1$*d", first, WidthStar(NO_POSITION), c);
  }

  lemma LexWidthStar(f: string)
    requires f != "" && f[0] == '*' && '$' !in f
    ensures Lex(f, 0) == (WidthStar(NO_POSITION), 1)
  {
    NoDollarNoPosition(f[1..]);
  }

  /** "%1$.*2$d": the position of a precision does not raise it either. */
  lemma PrecisionLeavesUnread()
    ensures Accept("%1$.*2$d").Done? && Compile("%1$.*2$d") == Outside
    ensures var t := Accept("%1$.*2$d").value; t.owner == [1, 0] && t.maxParam == 0
  {
    hide GetPosition, Lex, Qualify;
    var f, s := "1$.*2$d", ".*2$d";
    PositionText(1, s);
    assert [DigitChar(1, false)] + "$" + s == f && f[2..] == s && s[2..] == "2$d" && s[4..] == "d";
    PositionText(2, "d");
    assert [DigitChar(2, false)] + "$" + "d" == "2$d";
    LexPrecisionStar(s, 1, 2);
    var first := FirstConversion(EMPTY_TABLE, 0);
    var c := first.(flags := FLAGS_NEW.(precision := true), precision := 1, precisionParameter := true, dots := 1);
    PrecisionQualify(first, c);
    OneConversion("%1$.*2$d", first, PrecisionStar(1), c);
  }

  lemma PrecisionQualify(first: Conversion, c: Conversion)
    requires first == FirstConversion(EMPTY_TABLE, 0)
    requires c == first.(flags := FLAGS_NEW.(precision := true), precision := 1, precisionParameter := true, dots := 1)
    ensures Qualify(PrecisionStar(1), first, true) == c
  {
  }

  lemma LexPrecisionStar(f: string, position: int, n: nat)
    requires |f| >= 2 && f[..2] == ".*" && GetPosition(f[2..]) == (position, n)
    ensures Lex(f, 0) == (PrecisionStar(position), 2 + n) && IsQualifier(f[0])
  {
    assert f[0] == f[..2][0] && f[1] == f[..2][1];
  }

  /** A format of one conversion with position 1, one star for position 2 and the letter d. */
  lemma OneConversion(format: string, first: Conversion, q: Qualifier, c: Conversion)
    requires |format| >= 5 && format[0] == '%' && format[1] != '%' && first == FirstConversion(EMPTY_TABLE, 0)
    requires (forall i :: 0 <= i < |format| ==> format[i] < 128 as char) && GetPosition(format[1..]) == (0, 2)
    requires IsQualifier(format[3]) && format[|format| - 1] == 'd' && Lex(format[3..], 0) == (q, |format| - 4)
    requires (q == WidthStar(NO_POSITION) || q == PrecisionStar(1)) && Qualify(q, first, true) == c
    requires if q.WidthStar? then c.width == 1 && c.widthParameter && !c.precisionParameter
             else c.precision == 1 && c.precisionParameter && !c.widthParameter
    requires c.currentParam == c.maxParam == 0 && !c.baseParameter
    ensures Accept(format).Done? && Compile(format) == Outside
    ensures var t := Accept(format).value; t.owner == [1, 0] && t.maxParam == 0
  {
    hide GetPosition, Lex, Qualify, CompileConversion, Conclude;
    var f, end: nat := format[1..], |format| - 1;
    assert f[2..] == format[3..] && format[3..][|format| - 4..] == format[end..] == "d";
    assert Qualifiers("d", end, c, true) == Done((c, end));
    assert Qualifiers(f[2..], 3, first, true) == Done((c, end));
    var t := OneStarConcludes(end, c);
    assert f[end - 1..] == "d";
    OneStarCompiles(f, first, c, end, t);
    assert CompileFrom(format, |format|, t) == Done(t);
    assert CompileFrom(format, 0, EMPTY_TABLE) == Done(t);
    CheckFinds(t, 0);
    assert t.owner[0] == 1;
  }

  lemma OneStarConcludes(index: nat, c: Conversion) returns (t: Table)
    requires !c.baseParameter && c.currentParam == c.maxParam == 0
    requires if c.widthParameter then c.width == 1 && !c.precisionParameter
             else c.precision == 1 && c.precisionParameter
    ensures Conclude("d", index, c, true, EMPTY_TABLE) == Done(t)
    ensures t.owner == [1, 0] && t.maxParam == 0 && |t.usedEntries| == MAX_PARAMETERS && t.usedEntries[0] == 1
  {
    t := Conclude("d", index, c, true, EMPTY_TABLE).value;
  }

  lemma OneStarCompiles(f: string, first: Conversion, c: Conversion, end: nat, t: Table)
    requires GetPosition(f) == (0, 2) && |f| == end >= 3 && f[end - 1..] == "d"
    requires first == FirstConversion(EMPTY_TABLE, 0) && Qualifiers(f[2..], 3, first, true) == Done((c, end))
    requires Conclude("d", end, c, true, EMPTY_TABLE) == Done(t)
    ensures CompileConversion(f, 1, EMPTY_TABLE) == Done((t, end + 1))
  {
    hide GetPosition, Qualifiers, Conclude;
  }

  const UNREAD_FORMAT := "%3$d%2$9.*1$d"

  lemma UnreadLex()
    ensures Lex("9.*1$d", 0) == (Width(false, 9), 1) && Lex(".*1$d", 0) == (PrecisionStar(0), 4)
  {
    hide StrToLong, GetPosition;
    StrToLongOfDecimal(9, ".*1$d");
    assert Decimal(9) == "9" && Decimal(9) + ".*1$d" == "9.*1$d";
    PositionText(1, "d");
    assert [DigitChar(1, false)] + "$" + "d" == "1$d" && ".*1$d"[2..] == "1$d";
  }

  /** The qualifiers "9.*1$" of the second conversion: since the width 9 is above maxParam, the position
      of the precision replaces it. */
  lemma UnreadQualifiers(c: Conversion)
    requires c == Conversion(FLAGS_NEW, false, false, false, NO_WIDTH, NO_PRECISION, NO_BASE, EscapeNone, 0, 1, 0, 2)
    ensures Qualifiers("9.*1$d", 7, c, true)
            == Done((c.(flags := FLAGS_NEW.(precision := true), precisionParameter := true, width := 9, precision := 0,
                        dots := 1, maxParam := 1), 12))
  {
    hide Lex, Qualify;
    UnreadLex();
    assert "9.*1$d"[1..] == ".*1$d" && ".*1$d"[4..] == "d";
    var c1 := c.(width := 9);
    var c2 := c1.(flags := FLAGS_NEW.(precision := true), precisionParameter := true, precision := 0, dots := 1,
                  maxParam := 1);
    UnreadQualify(c, c1, c2);
    assert Qualifiers("d", 12, c2, true) == Done((c2, 12));
    assert Qualifiers(".*1$d", 8, c1, true) == Done((c2, 12));
  }

  lemma UnreadQualify(c: Conversion, c1: Conversion, c2: Conversion)
    requires c == Conversion(FLAGS_NEW, false, false, false, NO_WIDTH, NO_PRECISION, NO_BASE, EscapeNone, 0, 1, 0, 2)
    requires c1 == c.(width := 9)
    requires c2 == c1.(flags := FLAGS_NEW.(precision := true), precisionParameter := true, precision := 0, dots := 1,
                       maxParam := 1)
    ensures Qualify(Width(false, 9), c, true) == c1 && Qualify(PrecisionStar(0), c1, true) == c2
  {
  }

  /** The first conversion, "%3$d". */
  lemma UnreadFirst() returns (t: Table)
    ensures CompileConversion("3$d%2$9.*1$d", 1, EMPTY_TABLE) == Done((t, 4))
    ensures t.owner == [2] && |t.entries| == 1 && t.maxParam == 2 && t.parameterPosition == 0
    ensures t.usedEntries == ZeroArray()[2 := 1] && |t.indices| == MAX_PARAMETERS
  {
    hide GetPosition;
    var f := "3$d%2$9.*1$d";
    PositionText(3, "d%2$9.*1$d");
    assert [DigitChar(3, false)] + "$" + "d%2$9.*1$d" == f && f[2..] == "d%2$9.*1$d";
    var first := FirstConversion(EMPTY_TABLE, 2);
    assert Qualifiers(f[2..], 3, first, true) == Done((first, 3));
    t := Conclude(f[2..], 3, first, true, EMPTY_TABLE).value;
  }

  /** The second conversion, "%2$9.*1$d". */
  lemma UnreadSecond(t: Table) returns (u: Table)
    requires t.owner == [2] && |t.entries| == 1 && t.maxParam == 2 && t.parameterPosition == 0
    requires t.usedEntries == ZeroArray()[2 := 1] && |t.indices| == MAX_PARAMETERS
    ensures CompileConversion("2$9.*1$d", 5, t) == Done((u, 13))
    ensures u.owner == [2, 0, 1] && u.maxParam == 1 && |u.usedEntries| == MAX_PARAMETERS
    ensures u.usedEntries[0] == 1 && u.usedEntries[1] == 1
  {
    hide GetPosition, Qualifiers;
    var f := "2$9.*1$d";
    PositionText(2, "9.*1$d");
    assert [DigitChar(2, false)] + "$" + "9.*1$d" == f && f[2..] == "9.*1$d" && f[7..] == "d";
    var first := FirstConversion(t, 1);
    UnreadQualifiers(first);
    var c := Qualifiers(f[2..], 7, first, true).value.0;
    u := Conclude("d", 12, c, true, t).value;
  }

  /** "%3$d%2$9.*1$d": since the width is above maxParam, the position of the precision replaces it, and
      the third argument is printed without being read. */
  lemma MixedLeavesUnread()
    ensures Accept(UNREAD_FORMAT).Done? && Compile(UNREAD_FORMAT) == Outside
    ensures var t := Accept(UNREAD_FORMAT).value; t.owner == [2, 0, 1] && t.maxParam == 1
  {
    hide CompileConversion;
    var t := UnreadFirst();
    var u := UnreadSecond(t);
    assert UNREAD_FORMAT[1..] == "3$d%2$9.*1$d" && UNREAD_FORMAT[5..] == "2$9.*1$d";
    assert CompileFrom(UNREAD_FORMAT, 13, u) == Done(u);
    assert CompileFrom(UNREAD_FORMAT, 4, t) == Done(u);
    assert CompileFrom(UNREAD_FORMAT, 0, EMPTY_TABLE) == Done(u);
    CheckFinds(u, 0);
    assert u.owner[0] == 2;
  }
}
