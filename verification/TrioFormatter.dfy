/** The formatting engine and the functions of the printf family that write to memory. */
module TrioFormatter {
  import opened CText
  import opened TrioNumber
  import opened TrioStream
  import opened TrioWriter
  import opened TrioLexer
  import opened TrioCompile
  import opened TrioInterpreter
  import opened TrioPreprocessor
  import opened TrioSimulation

  /** What a call prints, or the error it reports. */
  function Output(format: string, args: Args, loc: Locale): (r: Outcome<string>)
    requires loc.Valid()
    ensures r.Rejected? ==> IsError(r.code, r.position)
  {
    match Compile(format)
    case Rejected(code, position) => Rejected(code, position)
    case Outside => Outside
    case Done(t) =>
      match Execute(format, 0, 0, Loaded(t, args), loc)
      case None => Outside
      case Some(text) => Done(text)
  }

  /** The switch over the type of an entry. */
  method WriteEntry(data: Stream, e: Param, width: int, precision: int, base: int, loc: Locale)
    requires loc.Valid() && data.Valid()
    requires var text := ConversionText(e.kind, e.flags, width, precision, base, e.escaping, e.data, loc);
             text.Some? && data.HasRoom(|text.value|)
    modifies data.Repr
    ensures data.Valid() && fresh(data.Repr - old(data.Repr))
    ensures var text := ConversionText(e.kind, e.flags, width, precision, base, e.escaping, e.data, loc);
            data.written == old(data.written) + text.value
    ensures data.kind != Doubling ==> data.buffer == old(data.buffer)
  {
    hide Stream.Valid, NumberText, CharText, StringText, Escaped;
    match e.kind
    case FormatChar =>
      WriteChar(data, ToInt32(e.data.bits), e.flags, width);
    case FormatInt =>
      WriteNumber(data, e.data.bits, e.flags, width, precision, if base == NO_BASE then BASE_DECIMAL else base, loc);
    case FormatString =>
      WriteString(data, Escaped(e.escaping, e.data.text), e.flags, width, precision);
  }

  /** TrioFormatProcess: literal text is copied, and each percent sign prints the next entry that is
      not just an argument of another. The ghost es is the part of the table that is in use. */
  method FormatProcess(data: Stream, format: string, parameters: array<Param>, ghost es: seq<Param>, loc: Locale)
    returns (processed: nat)
    requires loc.Valid() && data.Valid() && parameters !in data.Repr && es <= parameters[..]
    requires var text := Execute(format, 0, 0, es, loc); text.Some? && data.HasRoom(|text.value|)
    modifies data.Repr
    ensures data.Valid() && fresh(data.Repr - old(data.Repr))
    ensures data.written == old(data.written) + Execute(format, 0, 0, es, loc).value
    ensures processed == |data.written|
    ensures data.kind != Doubling ==> data.buffer == old(data.buffer)
  {
    hide Stream.Valid, ConversionText;
    var index, i := 0, 0;
    while index < |format|
      invariant 0 <= index <= |format| && 0 <= i <= |es|
      invariant data.Valid() && fresh(data.Repr - old(data.Repr))
      invariant data.kind != Doubling ==> data.buffer == old(data.buffer)
      invariant es <= parameters[..] && parameters !in data.Repr
      invariant Execute(format, index, i, es, loc).Some?
      invariant data.written + Execute(format, index, i, es, loc).value
                == old(data.written) + Execute(format, 0, 0, es, loc).value
    {
      ghost var before, rest := data.written, Execute(format, index, i, es, loc).value;
      if format[index] == '%' {
        if index + 1 < |format| && format[index + 1] == '%' {
          data.Put('%');
          index := index + 2;
          JoinRest(before, "%", Execute(format, index, i, es, loc).value);
        } else {
          i := SkipEntries(parameters, i, es);
          EntryParts(es, es[i], loc);
          assert es[i] == parameters[i];
          var e := parameters[i];
          var width := GetNumber(parameters, e.widthParameter, e.width, es);
          var precision := NO_PRECISION;
          if e.flags.precision {
            precision := GetNumber(parameters, e.precisionParameter, e.precision, es);
          }
          var base := GetNumber(parameters, e.baseParameter, e.base, es);
          WriteEntry(data, e, width, precision, base, loc);
          index := e.indexAfterSpecifier;
          i := i + 1;
          JoinRest(before, EntryText(es, e, loc).value, Execute(format, index, i, es, loc).value);
        }
      } else {
        data.Put(format[index]);
        index := index + 1;
        JoinRest(before, [format[index - 1]], Execute(format, index, i, es, loc).value);
      }
    }
    processed := Processed(data);
  }

  lemma JoinRest(before: string, text: string, rest: string)
    ensures before + text + rest == before + (text + rest)
  {
  }

  /** What makes the text of an entry. */
  lemma EntryParts(es: seq<Param>, e: Param, loc: Locale)
    requires loc.Valid() && EntryText(es, e, loc).Some?
    ensures var width := Number(es, e.widthParameter, e.width);
            var precision := if e.flags.precision then Number(es, e.precisionParameter, e.precision)
                             else Some(NO_PRECISION);
            var base := Number(es, e.baseParameter, e.base);
            && width.Some? && precision.Some? && base.Some?
            && EntryText(es, e, loc) == ConversionText(e.kind, e.flags, width.value, precision.value, base.value,
                                                       e.escaping, e.data, loc)
  {
  }

  /** return data->processed. */
  method Processed(data: Stream) returns (processed: nat)
    requires data.Valid()
    ensures processed == |data.written|
  {
    processed := data.processed;
  }

  /** Skips the entries that are arguments of others. */
  method SkipEntries(parameters: array<Param>, start: nat, ghost es: seq<Param>) returns (i: nat)
    requires start <= |es| && es <= parameters[..] && SkipParameters(es, start) < |es|
    ensures i == SkipParameters(es, start)
  {
    i := start;
    while parameters[i].kind == FormatParameter
      invariant i <= SkipParameters(es, start) == SkipParameters(es, i) < |es|
      decreases |es| - i
    {
      assert es[i] == parameters[i];
      i := i + 1;
    }
    assert es[i] == parameters[i];
  }

  /** A number of an entry, looked up when it is the index of another. */
  method GetNumber(parameters: array<Param>, parameter: bool, number: int, ghost es: seq<Param>) returns (value: int)
    requires es <= parameters[..] && Number(es, parameter, number).Some?
    ensures Number(es, parameter, number) == Some(value)
  {
    value := number;
    if parameter {
      assert es[number] == parameters[number];
      value := ToInt32(parameters[number].data.bits);
    }
  }

  /** TrioFormat: a rejected format prints nothing; an accepted one returns the length of its output. */
  method Format(data: Stream, format: string, args: Args, loc: Locale) returns (status: int)
    requires loc.Valid() && data.Valid() && data.written == "" && Output(format, args, loc) != Outside
    requires Output(format, args, loc).Done? ==> data.HasRoom(|Output(format, args, loc).value|)
    modifies data.Repr
    ensures data.Valid() && fresh(data.Repr - old(data.Repr))
    ensures match Output(format, args, loc)
            case Done(text) => data.written == text && status == |text|
            case Rejected(code, position) => data.written == "" && status == ErrorReturn(code, position) < 0
            case Outside => false
    ensures data.kind != Doubling ==> data.buffer == old(data.buffer)
  {
    hide Stream.Valid, Accept, Execute, HoldsArguments;
    var parameters := new Param[MAX_PARAMETERS](_ => PARAMETER_ENTRY);
    status := Preprocess(format, parameters, args);
    if status < 0 {
      return;
    }
    ghost var t := Compile(format).value;
    ghost var es := Loaded(t, args);
    AllReadHolds(t, args, parameters[..|t.entries|]);
    assert es <= parameters[..];
    status := FormatProcess(data, format, parameters, es, loc);
  }

  /** The text that a call puts at the start of the caller's memory. */
  function Printed(r: Outcome<string>): string {
    if r.Done? then r.value else ""
  }

  function Status(r: Outcome<string>): int {
    match r
    case Done(text) => |text|
    case Rejected(code, position) => ErrorReturn(code, position)
    case Outside => 0
  }

  /** What is in the caller's memory, and that a terminator fits when some room was kept for it. */
  lemma CommittedWithin(data: Stream)
    requires data.Valid() && data.kind != Doubling
    ensures data.kind == Unbounded ==> data.committed < |data.initial|
    ensures data.kind == Bounded ==> data.committed <= data.max
    ensures data.kind == Bounded && data.max == 0 ==> data.buffer[..] == data.initial
  {
  }

  /** trio_sprintf: the whole output and a terminator; what follows them is not touched. */
  method SPrintf(memory: array<char>, format: string, args: Args, loc: Locale) returns (status: int)
    requires loc.Valid() && Output(format, args, loc) != Outside
    requires |Printed(Output(format, args, loc))| < memory.Length
    modifies memory
    ensures status == Status(Output(format, args, loc))
    ensures var text := Printed(Output(format, args, loc));
            memory[..] == text + ['\0'] + old(memory[|text| + 1..])
  {
    hide Output, Stream.Valid;
    var data := new Stream.ToString(memory);
    status := Format(data, format, args, loc);
    ghost var text := Printed(Output(format, args, loc));
    assert data.written == text && text[..|text|] == text;
    assert data.initial[|text| + 1..] == old(memory[|text| + 1..]);
    CommittedWithin(data);
    data.Terminate();
  }

  /** trio_snprintf: the prefix of the output that leaves room for a terminator. The status is the
      length of the whole output all the same. */
  method SNPrintf(memory: array<char>, bufferSize: nat, format: string, args: Args, loc: Locale) returns (status: int)
    requires loc.Valid() && bufferSize <= memory.Length && Output(format, args, loc) != Outside
    modifies memory
    ensures status == Status(Output(format, args, loc))
    ensures var text := Printed(Output(format, args, loc));
            var kept := Min(bufferSize - 1, |text|);
            memory[..] == if bufferSize == 0 then old(memory[..])
                          else text[..kept] + ['\0'] + old(memory[kept + 1..])
  {
    hide Output, Stream.Valid;
    var max := if bufferSize > 0 then bufferSize - 1 else 0;
    var data := new Stream.ToStringMax(memory, max);
    status := Format(data, format, args, loc);
    CommittedWithin(data);
    if bufferSize > 0 {
      data.Terminate();
    }
  }

  /** trio_asprintf: a block that holds the whole output, or none when the format is rejected. */
  method ASPrintf(format: string, args: Args, loc: Locale) returns (status: int, result: array?<char>)
    requires loc.Valid() && Output(format, args, loc) != Outside
    ensures status == Status(Output(format, args, loc))
    ensures (result == null) == Output(format, args, loc).Rejected?
    ensures result != null ==> fresh(result) && IsCString(result, Output(format, args, loc).value)
  {
    hide Output;
    result := null;
    var data := new Stream.ToDynamic();
    status := Format(data, format, args, loc);
    if status < 0 {
      return;
    }
    result := data.buffer;
    if data.length == 0 {
      result := new char[1];
    }
    result[data.length] := '\0';
  }

  /** trio_aprintf: as trio_asprintf, but a block only when something was printed. */
  method APrintf(format: string, args: Args, loc: Locale) returns (result: array?<char>)
    requires loc.Valid() && Output(format, args, loc) != Outside
    ensures (result == null) == (Printed(Output(format, args, loc)) == "")
    ensures result != null ==> fresh(result) && IsCString(result, Output(format, args, loc).value)
  {
    hide Output;
    result := null;
    var data := new Stream.ToDynamic();
    var _ := Format(data, format, args, loc);
    if data.length != 0 {
      result := data.buffer;
      result[data.length] := '\0';
    }
  }

  /** For an accepted format without explicit positions, what every member of the family prints is what
      the direct interpreter prints that reads a literal width after a star as a position, and as many
      arguments are read. */
  lemma OutputAsCompiled(format: string, args: Args, loc: Locale)
    requires '$' !in format && loc.Valid() && Output(format, args, loc) != Outside
    ensures match Output(format, args, loc)
            case Done(text) =>
              && Compile(format).Done?
              && Interpret(format, 0, args, 0, AsCompiled, loc) == (Some(text), Compile(format).value.maxParam + 1)
            case _ => Compile(format).Rejected?
  {
    if Compile(format).Done? {
      CompiledRunsDirect(format, args, loc);
    }
  }

  /** For a tidy one it is what the interpreter prints that takes the arguments in order, with as many
      arguments read. */
  lemma OutputIsDirect(format: string, args: Args, loc: Locale)
    requires '$' !in format && loc.Valid() && Output(format, args, loc) != Outside && Tidy(format, 0, 0)
    ensures match Output(format, args, loc)
            case Done(text) =>
              && Compile(format).Done?
              && Interpret(format, 0, args, 0, InOrder, loc) == (Some(text), Compile(format).value.maxParam + 1)
            case _ => Compile(format).Rejected?
  {
    if Compile(format).Done? {
      CompiledRunsInOrder(format, args, loc);
    }
  }
}
