/** TrioPreprocess on its tables: the scan of the format fills the parameter table, the use counts and
    the position indices in place, and the arguments are then read into the table. */
module TrioPreprocessor {
  import opened CText
  import opened TrioNumber
  import opened TrioLexer
  import opened TrioCompile

  /** TRIO_ERROR_RETURN. */
  function ErrorReturn(code: int, position: int): int {
    -(code + position * 256)
  }

  /** Code and position come back from the returned number, for the codes below 256. */
  lemma ErrorReadBack(code: int, position: nat)
    requires 0 < code < 256
    ensures var error := ErrorReturn(code, position);
            error < 0 && (-error) % 256 == code && (-error) / 256 == position
  {
  }

  /** Use counts are those of the positions installed, and a position in use has an index that leads
      back to it. */
  ghost predicate Consistent(t: Table) {
    && |t.entries| == |t.owner| <= MAX_PARAMETERS == |t.usedEntries| == |t.indices|
    && (forall p :: 0 <= p < |t.owner| ==> 0 <= t.owner[p] < MAX_PARAMETERS)
    && forall num :: 0 <= num < MAX_PARAMETERS ==>
         && t.usedEntries[num] == multiset(t.owner)[num]
         && (num in t.owner ==> 0 <= t.indices[num] < |t.owner| && t.owner[t.indices[num]] == num)
  }

  lemma InstallConsistent(t: Table, position: int, entry: Param)
    requires Consistent(t) && InRange(t, position)
    ensures Consistent(Install(t, position, entry))
  {
    var u := Install(t, position, entry);
    assert multiset(u.owner) == multiset(t.owner) + multiset{position};
    forall num | 0 <= num < MAX_PARAMETERS && num in u.owner
      ensures 0 <= u.indices[num] < |u.owner| && u.owner[u.indices[num]] == num
    {
      assert num == position || num in t.owner;
    }
  }

  lemma StarConsistent(t: Table, starred: bool, position: int)
    requires Consistent(t) && InstallStar(t, starred, position).Done?
    ensures Consistent(InstallStar(t, starred, position).value)
  {
    hide Consistent;
    if starred {
      InstallConsistent(t, position, PARAMETER_ENTRY);
    }
  }

  lemma ConversionConsistent(f: string, index: nat, t: Table)
    requires Consistent(t) && CompileConversion(f, index, t).Done?
    ensures Consistent(CompileConversion(f, index, t).value.0)
  {
    hide Qualifiers, GetPosition, LexLetter, Consistent, InstallStar;
    var (currentParam, start) := GetPosition(f);
    var positional := currentParam != NO_POSITION;
    var first := FirstConversion(t, if positional then currentParam else t.parameterPosition);
    var (c, at) := Qualifiers(f[start..], index + start, first, positional).value;
    var letter := LexLetter(f[at - index..], c.flags);
    var t1 := InstallStar(t, c.widthParameter, c.width).value;
    StarConsistent(t, c.widthParameter, c.width);
    var t2 := InstallStar(t1, c.precisionParameter, c.precision).value;
    StarConsistent(t1, c.precisionParameter, c.precision);
    var t3 := InstallStar(t2, c.baseParameter, c.base).value;
    StarConsistent(t2, c.baseParameter, c.base);
    var entry := MakeEntry(c, letter, StoredNumbers(t, c), at + 1);
    InstallConsistent(t3, c.currentParam, entry);
    CountersConsistent(Install(t3, c.currentParam, entry), c.maxParam,
                       c.parameterPosition + (if positional then 0 else 1));
  }

  lemma CountersConsistent(t: Table, maxParam: int, parameterPosition: int)
    requires Consistent(t)
    ensures Consistent(t.(maxParam := maxParam, parameterPosition := parameterPosition))
  {
  }

  /** The scan keeps its tables consistent, for every format. */
  lemma {:induction false} ScanConsistent(format: string, index: nat, t: Table)
    requires index <= |format| && Consistent(t) && CompileFrom(format, index, t).Done?
    ensures Consistent(CompileFrom(format, index, t).value)
    decreases |format| - index
  {
    hide CompileConversion, Consistent;
    if index < |format| {
      if format[index] != '%' {
        ScanConsistent(format, index + 1, t);
      } else if index + 1 < |format| && format[index + 1] == '%' {
        ScanConsistent(format, index + 2, t);
      } else {
        ConversionConsistent(format[index + 1..], index + 1, t);
        var (u, next) := CompileConversion(format[index + 1..], index + 1, t).value;
        ScanConsistent(format, next, u);
      }
    }
  }

  /** A position that is used once belongs to one entry. */
  lemma OneOwner(owner: seq<int>, p: nat, q: nat)
    requires p < q < |owner| && owner[p] == owner[q]
    ensures multiset(owner)[owner[p]] >= 2
  {
    assert owner == owner[..q] + owner[q..];
    assert multiset(owner) == multiset(owner[..q]) + multiset(owner[q..]);
    assert owner[..q][p] in owner[..q] && owner[q..][0] in owner[q..];
  }

  /** The arrays hold the table t, of `pos` entries. */
  ghost predicate Hold(t: Table, parameters: array<Param>, usedEntries: array<int>, indices: array<int>, pos: int)
    reads parameters, usedEntries, indices
  {
    && usedEntries != indices && Consistent(t)
    && parameters.Length == usedEntries.Length == indices.Length == MAX_PARAMETERS
    && pos == |t.entries| && parameters[..pos] == t.entries
    && usedEntries[..] == t.usedEntries && indices[..] == t.indices
  }

  /** usedEntries[position] += 1; parameters[pos] = entry; indices[position] = pos++. */
  method InstallAt(ghost t: Table, parameters: array<Param>, usedEntries: array<int>, indices: array<int>,
                   pos: int, position: int, entry: Param)
    requires Hold(t, parameters, usedEntries, indices, pos) && InRange(t, position)
    modifies parameters, usedEntries, indices
    ensures Hold(Install(t, position, entry), parameters, usedEntries, indices, pos + 1)
  {
    InstallConsistent(t, position, entry);
    usedEntries[position] := usedEntries[position] + 1;
    parameters[pos] := entry;
    indices[position] := pos;
  }

  /** The qualifier loop. */
  method ScanQualifiers(format: string, start: nat, first: Conversion, positional: bool)
    returns (r: Outcome<Conversion>, index: nat)
    requires start <= |format| && Qualifiers(format[start..], start, first, positional) != Outside
    ensures index <= |format|
    ensures Qualifiers(format[start..], start, first, positional)
            == match r
               case Done(c) => Done((c, index))
               case Rejected(code, at) => Rejected(code, at)
               case Outside => Outside
  {
    hide Lex, IsQualifier, FlagsAfter, DotsAfter, QualifyNumbers;
    var c := first;
    index := start;
    while index < |format| && IsQualifier(format[index])
      invariant start <= index <= |format|
      invariant Qualifiers(format[start..], start, first, positional)
                == Qualifiers(format[index..], index, c, positional)
    {
      var rest := format[index..];
      var (q, n) := Lex(rest, c.dots);
      if q.Invalid? {
        return Rejected(TRIO_EINVAL, index + q.at), index;
      }
      if SizeConflict(q, c.flags) {
        return Rejected(TRIO_EINVAL, index + n), index;
      }
      assert rest[n..] == format[index + n..];
      index := index + n;
      c := Qualify(q, c, positional);
    }
    r := Done(c);
  }

  /** The entries of the stars; their indices take the place of the positions. */
  method InstallStarEntries(ghost t: Table, parameters: array<Param>, usedEntries: array<int>, indices: array<int>,
                            start: int, c: Conversion) returns (pos: int, numbers: (int, int, int))
    requires Hold(t, parameters, usedEntries, indices, start) && InstallStars(t, c).Done?
    modifies parameters, usedEntries, indices
    ensures Hold(InstallStars(t, c).value, parameters, usedEntries, indices, pos)
    ensures numbers == StoredNumbers(t, c)
  {
    hide Hold, Install, InRange;
    HoldsPos(t, parameters, usedEntries, indices, start);
    pos := start;
    var width, precision, base := c.width, c.precision, c.base;
    ghost var u := t;
    if c.widthParameter {
      pos, u := InstallStarAt(u, parameters, usedEntries, indices, pos, width);
      width := pos - 1;
    }
    if c.precisionParameter {
      pos, u := InstallStarAt(u, parameters, usedEntries, indices, pos, precision);
      precision := pos - 1;
    }
    if c.baseParameter {
      pos, u := InstallStarAt(u, parameters, usedEntries, indices, pos, base);
      base := pos - 1;
    }
    numbers := (width, precision, base);
  }

  lemma HoldsPos(t: Table, parameters: array<Param>, usedEntries: array<int>, indices: array<int>, pos: int)
    requires Hold(t, parameters, usedEntries, indices, pos)
    ensures pos == |t.entries|
  {
  }

  method InstallStarAt(ghost t: Table, parameters: array<Param>, usedEntries: array<int>, indices: array<int>,
                       start: int, position: int) returns (pos: int, ghost u: Table)
    requires Hold(t, parameters, usedEntries, indices, start) && InstallStar(t, true, position).Done?
    modifies parameters, usedEntries, indices
    ensures u == InstallStar(t, true, position).value && Hold(u, parameters, usedEntries, indices, pos)
    ensures pos == start + 1 == |t.entries| + 1 == |u.entries|
  {
    u := Install(t, position, PARAMETER_ENTRY);
    InstallAt(t, parameters, usedEntries, indices, start, position, PARAMETER_ENTRY);
    pos := start + 1;
  }

  /** The letter of a conversion and the entry it makes. */
  method ConcludeConversion(ghost t: Table, parameters: array<Param>, usedEntries: array<int>, indices: array<int>,
                            start: int, format: string, index: nat, c: Conversion, positional: bool)
    returns (error: int, pos: int, ghost u: Table)
    requires Hold(t, parameters, usedEntries, indices, start) && index <= |format|
    requires Conclude(format[index..], index, c, positional, t) != Outside
    modifies parameters, usedEntries, indices
    ensures var concluded := Conclude(format[index..], index, c, positional, t);
            if error == 0
            then concluded == Done(u) && Hold(u, parameters, usedEntries, indices, pos)
            else concluded.Rejected? && error == ErrorReturn(concluded.code, concluded.position)
  {
    hide LexLetter, Hold, InstallStars, StoredNumbers;
    var numbers;
    pos, numbers := InstallStarEntries(t, parameters, usedEntries, indices, start, c);
    ghost var starred := InstallStars(t, c).value;
    u := starred;
    var letter := LexLetter(format[index..], c.flags);
    if letter.NoLetter? {
      return ErrorReturn(TRIO_EINVAL, index + 1), pos, u;
    }
    var entry := MakeEntry(c, letter, numbers, index + 1);
    InstallAt(starred, parameters, usedEntries, indices, pos, c.currentParam, entry);
    pos := pos + 1;
    error := 0;
    ghost var installed := Install(starred, c.currentParam, entry);
    u := installed.(maxParam := c.maxParam, parameterPosition := c.parameterPosition + (if positional then 0 else 1));
    CountersApart(installed, u, parameters, usedEntries, indices, pos);
  }

  /** The counters of a table are not part of what the arrays hold. */
  lemma CountersApart(t: Table, u: Table, parameters: array<Param>, usedEntries: array<int>, indices: array<int>,
                      pos: int)
    requires Hold(t, parameters, usedEntries, indices, pos)
    requires u == t.(maxParam := u.maxParam, parameterPosition := u.parameterPosition)
    ensures Hold(u, parameters, usedEntries, indices, pos)
  {
  }

  /** A whole conversion, from the index after its percent sign. */
  method ScanConversion(ghost t: Table, parameters: array<Param>, usedEntries: array<int>, indices: array<int>,
                        start: int, format: string, from: nat, maxParam: int, parameterPosition: int)
    returns (error: int, pos: int, index: nat, max: int, counter: int, ghost u: Table)
    requires Hold(t, parameters, usedEntries, indices, start) && from <= |format|
    requires maxParam == t.maxParam && parameterPosition == t.parameterPosition
    requires CompileConversion(format[from..], from, t) != Outside
    modifies parameters, usedEntries, indices
    ensures index <= |format|
    ensures var compiled := CompileConversion(format[from..], from, t);
            if error == 0
            then compiled == Done((u, index)) && Hold(u, parameters, usedEntries, indices, pos)
                 && max == u.maxParam && counter == u.parameterPosition
            else compiled.Rejected? && error == ErrorReturn(compiled.code, compiled.position)
  {
    hide Hold, Qualifiers, Conclude, GetPosition;
    pos, max, counter, u, index := start, maxParam, parameterPosition, t, from;
    var f := format[from..];
    var position := GetPosition(f);
    var positional := position.0 != NO_POSITION;
    var currentParam := if positional then position.0 else parameterPosition;
    index := from + position.1;
    if currentParam >= MAX_PARAMETERS {
      error := ErrorReturn(TRIO_ETOOMANY, index);
      return;
    }
    var first := Conversion(FLAGS_NEW, false, false, false, NO_WIDTH, NO_PRECISION, NO_BASE, EscapeNone, 0,
                            currentParam, parameterPosition, Max(maxParam, currentParam));
    assert f[position.1..] == format[index..];
    var scanned;
    scanned, index := ScanQualifiers(format, index, first, positional);
    match scanned
    case Rejected(code, at) =>
      error := ErrorReturn(code, at);
    case Outside =>
      assert false;
    case Done(c) =>
      assert f[index - from..] == format[index..];
      assert first == FirstConversion(t, currentParam);
      assert Qualifiers(f[position.1..], from + position.1, first, positional) == Done((c, index));
      error, pos, u := ConcludeConversion(t, parameters, usedEntries, indices, start, format, index, c, positional);
      if error == 0 {
        ConcludeCounters(format[index..], index, c, positional, t);
        max := c.maxParam;
        counter := c.parameterPosition + (if positional then 0 else 1);
        index := index + 1;
        assert CompileConversion(f, from, t) == Done((u, index));
      }
  }

  lemma ConcludeCounters(f: string, index: nat, c: Conversion, positional: bool, t: Table)
    requires Conclude(f, index, c, positional, t).Done?
    ensures var u := Conclude(f, index, c, positional, t).value;
            && u.maxParam == c.maxParam && c.currentParam >= 0 && f != []
            && u.parameterPosition == c.parameterPosition + (if positional then 0 else 1)
  {
  }

  /** The scanning loop. */
  method ScanFormat(format: string, parameters: array<Param>, usedEntries: array<int>, indices: array<int>)
    returns (error: int, maxParam: int, ghost t: Table)
    requires Hold(EMPTY_TABLE, parameters, usedEntries, indices, 0)
    requires CompileFrom(format, 0, EMPTY_TABLE) != Outside
    modifies parameters, usedEntries, indices
    ensures var scanned := CompileFrom(format, 0, EMPTY_TABLE);
            if error == 0
            then scanned == Done(t) && Hold(t, parameters, usedEntries, indices, |t.entries|) && maxParam == t.maxParam
            else scanned.Rejected? && error == ErrorReturn(scanned.code, scanned.position)
  {
    hide CompileConversion, Hold;
    t := EMPTY_TABLE;
    var index, pos, parameterPosition := 0, 0, 0;
    maxParam := -1;
    error := 0;
    while index < |format|
      invariant 0 <= index <= |format| && Hold(t, parameters, usedEntries, indices, pos)
      invariant CompileFrom(format, 0, EMPTY_TABLE) == CompileFrom(format, index, t)
      invariant maxParam == t.maxParam && parameterPosition == t.parameterPosition && error == 0
    {
      if format[index] != '%' {
        index := index + 1;
      } else if index + 1 < |format| && format[index + 1] == '%' {
        index := index + 2;
      } else {
        ghost var compiled := CompileConversion(format[index + 1..], index + 1, t);
        error, pos, index, maxParam, parameterPosition, t :=
          ScanConversion(t, parameters, usedEntries, indices, pos, format, index + 1, maxParam, parameterPosition);
        if error != 0 {
          return;
        }
      }
    }
    HoldsPos(t, parameters, usedEntries, indices, pos);
  }

  /** The table when the arguments below position num have been read. */
  ghost function LoadedBelow(t: Table, args: Args, num: int): seq<Param>
    requires |t.owner| == |t.entries|
  {
    seq(|t.entries|, p requires 0 <= p < |t.entries| =>
      if t.owner[p] < num then t.entries[p].(data := ReadSlot(t.entries[p], args(t.owner[p]))) else t.entries[p])
  }

  /** Reading position num, which is used once, fills the one entry that it belongs to. */
  lemma OneMoreLoaded(t: Table, args: Args, num: nat)
    requires Consistent(t) && num < MAX_PARAMETERS && t.usedEntries[num] == 1
    ensures var at := t.indices[num];
            && 0 <= at < |t.entries|
            && LoadedBelow(t, args, num)[at] == t.entries[at]
            && LoadedBelow(t, args, num + 1)
               == LoadedBelow(t, args, num)[at := t.entries[at].(data := ReadSlot(t.entries[at], args(num)))]
  {
    assert num in multiset(t.owner);
    var at := t.indices[num];
    forall p | 0 <= p < |t.owner| && t.owner[p] == num ensures p == at {
      if p < at {
        OneOwner(t.owner, p, at);
      } else if at < p {
        OneOwner(t.owner, at, p);
      }
    }
  }

  /** va_arg with the type that an entry asks for. */
  method ReadArgument(entry: Param, s: Slot) returns (data: Slot)
    ensures data == ReadSlot(entry, s)
  {
    match entry.kind
    case FormatString =>
      data := Slot(0, s.text);
    case FormatChar | FormatInt =>
      if entry.flags.quad {
        data := Slot(s.bits, None);
      } else if entry.flags.long {
        data := Slot(s.bits, None);
      } else {
        data := Slot(IntSlot(s) % TWO64, None);
      }
    case FormatParameter =>
      data := Slot(IntSlot(s) % TWO64, None);
  }

  /** The loop over the positions: each must be used once, and its argument goes to its entry. */
  method ReadArguments(ghost t: Table, parameters: array<Param>, usedEntries: array<int>, indices: array<int>,
                       maxParam: int, args: Args) returns (status: int)
    requires Hold(t, parameters, usedEntries, indices, |t.entries|) && maxParam == t.maxParam
    requires CheckFrom(t, 0) != Outside && -1 <= maxParam
    modifies parameters
    ensures match CheckFrom(t, 0)
            case Done(_) => status == maxParam + 1 && parameters[..|t.entries|] == LoadedBelow(t, args, maxParam + 1)
            case Rejected(code, position) => status == ErrorReturn(code, position)
            case Outside => false
  {
    var num := 0;
    assert LoadedBelow(t, args, 0) == t.entries;
    while num <= maxParam
      invariant 0 <= num <= maxParam + 1 && CheckFrom(t, 0) == CheckFrom(t, num)
      invariant parameters[..|t.entries|] == LoadedBelow(t, args, num)
    {
      if usedEntries[num] != 1 {
        return ErrorReturn(if usedEntries[num] == 0 then TRIO_EGAP else TRIO_EDBLREF, num);
      }
      var i := indices[num];
      OneMoreLoaded(t, args, num);
      assert parameters[..|t.entries|][i] == parameters[i];
      var data := ReadArgument(parameters[i], args(num));
      parameters[i] := parameters[i].(data := data);
      num := num + 1;
    }
    status := num;
  }

  /** The table t with the arguments of the positions up to its maxParam read into it. Of an entry beyond
      them nothing is said about the data. */
  ghost predicate HoldsArguments(t: Table, args: Args, parameters: seq<Param>)
    requires |t.owner| == |t.entries|
  {
    && |parameters| == |t.entries|
    && forall p :: 0 <= p < |t.entries| ==>
         && parameters[p] == t.entries[p].(data := parameters[p].data)
         && (t.owner[p] <= t.maxParam ==> parameters[p].data == ReadSlot(t.entries[p], args(t.owner[p])))
  }

  lemma AllReadHolds(t: Table, args: Args, parameters: seq<Param>)
    requires |t.owner| == |t.entries| && HoldsArguments(t, args, parameters) && AllRead(t)
    ensures parameters == Loaded(t, args)
  {
  }

  /** TrioPreprocess for printing. The status is the number of arguments read. */
  method Preprocess(format: string, parameters: array<Param>, args: Args) returns (status: int)
    requires parameters.Length == MAX_PARAMETERS && Accept(format) != Outside
    modifies parameters
    ensures match Accept(format)
            case Done(t) =>
              && status == t.maxParam + 1 >= 0 && |t.entries| <= MAX_PARAMETERS
              && HoldsArguments(t, args, parameters[..|t.entries|])
            case Rejected(code, position) => status == ErrorReturn(code, position) < 0
            case Outside => false
  {
    hide CompileFrom, CheckFrom;
    var usedEntries := new int[MAX_PARAMETERS](_ => 0);
    var indices := new int[MAX_PARAMETERS](_ => 0);
    assert usedEntries[..] == EMPTY_TABLE.usedEntries && indices[..] == EMPTY_TABLE.indices;
    var error, maxParam;
    ghost var t;
    error, maxParam, t := ScanFormat(format, parameters, usedEntries, indices);
    if error != 0 {
      return error;
    }
    MaxAtLeast(format, 0, EMPTY_TABLE);
    status := ReadArguments(t, parameters, usedEntries, indices, maxParam, args);
  }

  lemma {:induction false} MaxAtLeast(format: string, index: nat, t: Table)
    requires index <= |format| && t.maxParam >= -1 && CompileFrom(format, index, t).Done?
    ensures CompileFrom(format, index, t).value.maxParam >= -1
    decreases |format| - index
  {
    if index < |format| {
      if format[index] != '%' {
        MaxAtLeast(format, index + 1, t);
      } else if index + 1 < |format| && format[index + 1] == '%' {
        MaxAtLeast(format, index + 2, t);
      } else {
        var (u, next) := CompileConversion(format[index + 1..], index + 1, t).value;
        ConversionMax(format[index + 1..], index + 1, t);
        MaxAtLeast(format, next, u);
      }
    }
  }

  lemma ConversionMax(f: string, index: nat, t: Table)
    requires CompileConversion(f, index, t).Done?
    ensures CompileConversion(f, index, t).value.0.maxParam >= 0
  {
    hide Qualifiers, Conclude, GetPosition;
    var position := GetPosition(f);
    var positional := position.0 != NO_POSITION;
    var currentParam := if positional then position.0 else t.parameterPosition;
    var first := FirstConversion(t, currentParam);
    QualifiersMax(f[position.1..], index + position.1, first, positional);
    var (c, at) := Qualifiers(f[position.1..], index + position.1, first, positional).value;
    ConcludeCounters(f[at - index..], at, c, positional, t);
  }

  /** The explicit position of a precision star may lower maxParam, but not below the position of
      the conversion. */
  lemma {:induction false} QualifiersMax(f: string, index: nat, c: Conversion, positional: bool)
    requires c.currentParam <= c.maxParam && Qualifiers(f, index, c, positional).Done?
    ensures var scanned := Qualifiers(f, index, c, positional).value.0;
            scanned.currentParam <= scanned.maxParam
    decreases |f|
  {
    hide Lex, IsQualifier, Qualify, SizeConflict;
    if f != [] && IsQualifier(f[0]) {
      var (q, n) := Lex(f, c.dots);
      QualifyMax(q, c, positional);
      QualifiersMax(f[n..], index + n, Qualify(q, c, positional), positional);
    }
  }

  lemma QualifyMax(q: Qualifier, c: Conversion, positional: bool)
    requires c.currentParam <= c.maxParam
    ensures Qualify(q, c, positional).currentParam <= Qualify(q, c, positional).maxParam
  {
  }
}
