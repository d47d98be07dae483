# Models of the gLite Logging and Bookkeeping utilities

This Dafny project models six parts of the C code behind the gLite Logging and Bookkeeping services and
proves what they are for. `dafny verify dfyconfig.toml` checks all of it.

- **The trio formatting engine** (`Trio*.dfy`). `TrioPreprocess` compiles a format string into a table of
  parameters and a map from argument positions to entries; `TrioFormatProcess` runs the table.
  `TrioCompile` gives the table of a format as a function, `TrioPreprocessor` fills the three arrays in
  place and is proved against it, `TrioFormatter` runs the table and holds the printf family, and
  `TrioSimulation` proves that compiling and running is the same as interpreting the format in one pass.
  `TrioFormats` describes formats by their parts and says what the engine prints for them; `TrioPrinted` has
  the common ones, what width and precision do to a text, and reading escaped output back.
  `TrioStarWidth` has two formats with a literal width after a star. `TrioPositions` is about formats
  without stars, which may name the positions of arguments, and `TrioUnread` about what the check of the
  positions lets through. `TrioNumber`, `TrioWriter`, `TrioReader`, `TrioGrouping` and `TrioRoundTrip` are the
  number printer, the number parser, the separators between digits, and what printing followed by parsing
  gives. `TrioStream` is the class of the three string streams behind one abstract output.
- **The master and slave server of server-bones.** `Master` has the counters and the text that goes with
  a connection; `Server` is the system of a master, a queue and any number of slaves, whose steps happen in
  any order; `Slave` is the loop of one slave, `SlaveTrace` an automaton over the calls it makes,
  `SlaveRounds` has the rules of what it does in each round of its life, and `SlaveSteps` says that such a
  life is a sequence of steps of that system.
- **Codecs.** `Escape` (ULM, XML and SQL escapes), `Base64` (the 32-bit accumulator of base64_encode and
  a decoder) and `JobId` (job identifiers as text).
- **The proxy-renewal protocol.** `Frames` (length-prefixed messages over partial reads and writes),
  `Tokens` (key=value lines) and `Renewal` (requests and responses).
- **`StrMatch`**: wildcard matching against the language of a pattern.
- **`BufferedInsert`**: the buffer that gathers rows for insert statements of many rows; `ValueLists` is a
  reader that finds the rows in the text of these statements, and `InsertStatement` proves that they are what
  the formatting engine prints for their format string.

`CText`, `Numerals`, `Arith` and `Clock` hold what these share: C strings, strtol() and strtoul(), division,
and times.

How the code is rendered: a C string is the sequence of the characters before its NUL, and a buffer that
holds one is an array. Loops that fill buffers are methods over arrays, with the bounds proved; objects
whose fields change are classes. 64-bit and 32-bit wraparound is written out where the code relies on it
(numbers of trio, ports, frame lengths, the base64 accumulator, the dispatch counters). Plain `char` is
signed, as on x86, so that a separator above 127 never equals the unsigned character just read. What the
world decides is a parameter: the arguments of a format (`Args`), the rounds of poll(), read(), write() and
select(), the results of handlers, the answers of the database, the locale, the digest of a job's name.
Memory allocation succeeds.

## Where code and promises differ

The code is modelled as it is. Properties that it does not have on all inputs are stated with the exact
condition under which it has them:

- Separators are where the locale wants them exactly when every group size in use divides the number of
  digits before it (`GroupingIsLocales`, `MixedSizesGoAstray`).
- A printed number reads back exactly when it is not unsigned with a plus sign, its size holds it, and no
  separator is inside it (`WriteThenRead`): the reader has no way to accept an ASCII separator.
- A format that the check of the positions accepts has every argument read exactly when its text has as
  many conversions and stars as positions up to the highest one it reaches (`ReadExactly`). That is so
  without stars (`StarFreeAccepted`), without positions (`AcceptedIsRead`), and under a guard on stars
  (`GuardedIsRead`); `%1$*d`, `%1$.*2$d` and `%3$d%2$9.*1$d` leave an entry unread (`StarLeavesUnread`,
  `PrecisionLeavesUnread`, `MixedLeavesUnread`), since the position of such a star does not raise the
  largest one, or replaces it.
- A literal width after a star is taken for the position of the argument that holds the width. The
  arguments are taken in order exactly when such a width is absent or names the star's own argument
  (`InOrderExactlyWhenTidy`, with `ShuffledOutput` at `%*2d%*0d`). This is exact for the numbers and values
  that the conversions are given, for all arguments; the text may be the same all the same (`SameOutput`).
- A frame length comes back exactly below 2^31 or from 2^64 - 2^31 on (`HeaderRoundTrip`), because it is put
  together in a signed int.
- A job survives printing and parsing exactly when its port is not 0 and its parts have none of the
  separators of the text (`JobId.RoundTrip`); port 0 becomes 9000.
- Reading a key gives exactly what was stored under it when no value contains the key (`TokensReadBack`).
- Of the server's name in a request only the first 1023 characters are sent (`RequestReadBack`).
- The rows of an insert statement can be told apart in its text exactly when each of them closes its quotes
  and parentheses (`ValuesReadBack`).
- check_timeout() may fire up to a second early when the timeout has microseconds (`TimeoutExact`), and the
  timeout that stands for none fires at once (`NoTimeoutFires`).
- edg_wlpr_DecrementTimeout reports a timeout over too early exactly when its seconds are used up and the
  microseconds that it does not carry are more than that (`ExpiresEarly`). Since one timeout goes through
  several calls, these add up: n calls lose less than n seconds (`LossBounded`), and two may lose more than
  one (`TwoCallsLoseMore`).
- A window of 1 lets one connection in and never another (`WindowOfOneSticks`), and lost acknowledgements
  can close the window for ever (`LossesWedge`); exactly when, is said by `AdmitsExactly`.
- Escaping for XML what was unescaped gives a text back exactly when it is an escaped text
  (`UnescapeThenEscape`): `&;` unescapes to `<` (`EmptyEntity`), and every other proper prefix and case
  variant of a name is decoded as well (`NameDecoded`).
- A comment in db.c (lines 74 to 75) says that a limit of 0 is none. For the record limit the code makes
  room for no row then: a row can be inserted exactly when the limit is above 0 (`RoomExactly`).

## Model

| member | source | states |
|---|---|---|
| `TrioNumber.NumberText` | org.glite.lb-utils.trio/src/trio.c:1961-2138 | the text of a number has exactly max(width, sign + prefix + max(digits with separators, precision)) characters, for every flag combination, width, precision and base |
| `TrioWriter.AtMost64Digits` | org.glite.lb-utils.trio/src/trio.c:1969-2010 | a 64-bit value has at most 64 digits in any base from 2 on, which the size of the conversion buffer counts on |
| `TrioWriter.FillDigits` | org.glite.lb-utils.trio/src/trio.c:1999-2041 | the digit loop, writing backwards, never leaves the buffer, never lacks the room for a separator, and leaves the separated numeral in front of the terminator |
| `TrioWriter.PutSeparator` | org.glite.lb-utils.trio/src/trio.c:2011-2040 | one step of the grouping: the separator is copied backwards when one is due, and the next group size is taken only then |
| `TrioWriter.AdjustWidth` | org.glite.lb-utils.trio/src/trio.c:2043-2072 | the width and precision left for padding after digits, sign and prefix, with zero padding switched on by a precision |
| `TrioWriter.EmitField` | org.glite.lb-utils.trio/src/trio.c:2074-2137 | the padding loops, which share one mutated width, send spaces, sign, prefix, zeros, digits and spaces as the field text has them |
| `TrioWriter.WriteNumber` | org.glite.lb-utils.trio/src/trio.c:1961-2138 | the writer appends the text of the number to whatever stream it is given |
| `TrioGrouping.GroupingIsLocales` | org.glite.lb-utils.trio/src/trio.c:2011-2040 | the separators are where the locale's list of sizes asks for them, whose last size repeats and which the marker for no grouping ends, for every numeral, exactly when each size in use divides the digits before it |
| `TrioGrouping.RepeatingGroup` | org.glite.lb-utils.trio/src/trio.c:2011-2040 | so one size always gives the locale's grouping |
| `TrioGrouping.SeparatorEveryGth` | org.glite.lb-utils.trio/src/trio.c:2011-2040 | with one size g, by places in the text: the digits in their order, a separator exactly behind every digit that has a positive multiple of g digits right of it, and none in front |
| `TrioGrouping.MixedSizesGoAstray` | org.glite.lb-utils.trio/src/trio.c:2013 | sizes 3 and 2 put the separators of 123456 in other places than the locale: the remainder is taken by the current size |
| `TrioReader.ScanStream.ReadNumber` | org.glite.lb-utils.trio/src/trio.c:4570-4689 | the reader takes spaces, sign, alternative prefix and digits, and the value they denote modulo 2^64 |
| `TrioReader.ScanStream.ReadDigits` | org.glite.lb-utils.trio/src/trio.c:4646-4680 | the digit loop stops at the first character that is no digit, or at the width, and wraps at 64 bits as one reduction of the whole value would |
| `TrioRoundTrip.WriteThenRead` | org.glite.lb-utils.trio/src/trio.c:1986-2138 | a printed number reads back as itself, for every base, width, precision and flags, exactly when it is not an unsigned number with a plus sign, its size flags keep all its bits, and no separator falls inside it |
| `TrioRoundTrip.PlusIsNotRead` | org.glite.lb-utils.trio/src/trio.c:4598-4612 | the plus sign of an unsigned number stops the reader before any digit |
| `TrioRoundTrip.FirstGroupIsRead` | org.glite.lb-utils.trio/src/trio.c:4652-4672 | of a numeral with separators exactly the digits before the first one are read, which are worth less than the number |
| `TrioPrinted.WidthPads` | org.glite.lb-utils.trio/src/trio.c:2043-2137 | a width adds spaces behind a left-adjusted number and in front of any other, or zeros between its sign and prefix and its digits |
| `TrioStream.Stream.Put` | org.glite.lb-utils.trio/src/trio.c:3117-3205 | each of the three string streams appends one character to the same abstract output; the bounded one keeps its prefix, the doubling one grows so that a terminator always fits |
| `TrioStream.Stream.PutDoubling` | org.glite.lb-utils.trio/src/trio.c:3164-3205 | the block starts at 32, is doubled before a character and its terminator would not fit, and keeps what it held |
| `TrioStream.Stream.Terminate` | org.glite.lb-utils.trio/src/trio.c:3408-3416 | the terminator goes right after the part of the output that is in memory, and what follows is not touched |
| `TrioWriter.WriteString` | org.glite.lb-utils.trio/src/trio.c:2202-2255 | quotes, padding, the characters that the precision leaves, escaped under the alternative flag; NULL prints as (nil) without width |
| `TrioWriter.WriteChar` | org.glite.lb-utils.trio/src/trio.c:2793-2828 | a character conversion pads its character to the width, quotes it, and keeps the low byte of a code that is none |
| `TrioWriter.WriteEscape` | org.glite.lb-utils.trio/src/trio.c:2151-2183 | a control character under the alternative flag is sent as its backslash escape |
| `TrioPrinted.PrecisionCuts` | org.glite.lb-utils.trio/src/trio.c:2202-2255 | a precision of p prints the first p characters of a longer string, and none or a longer one prints all of it |
| `TrioPrinted.StringPads` | org.glite.lb-utils.trio/src/trio.c:2202-2255 | a string stands between quotes, with its spaces behind it when left-adjusted and in front otherwise |
| `TrioPrinted.CharIsString` | org.glite.lb-utils.trio/src/trio.c:2793-2828 | a byte is printed as the string of one character |
| `TrioPrinted.ShownReadBack` | org.glite.lb-utils.trio/src/trio.c:2151-2183 | every byte of a string printed under the alternative flag can be read back |
| `TrioPreprocessor.ScanQualifiers` | org.glite.lb-utils.trio/src/trio.c:1069-1379 | the qualifier loop refines the scan of one conversion, with the same error positions |
| `TrioPreprocessor.InstallStarEntries` | org.glite.lb-utils.trio/src/trio.c:1381-1425 | the stars' entries are installed in the order width, precision, base, and their indices replace the positions |
| `TrioPreprocessor.ConcludeConversion` | org.glite.lb-utils.trio/src/trio.c:1427-1702 | the letter makes the entry of the conversion, under the position it was scanned with, or the format is rejected |
| `TrioPreprocessor.ScanConversion` | org.glite.lb-utils.trio/src/trio.c:1036-1704 | one whole conversion: position, qualifiers, stars, letter, counters |
| `TrioPreprocessor.ScanFormat` | org.glite.lb-utils.trio/src/trio.c:1013-1705 | the scanning loop leaves in the three arrays the table of the format, or stops with the error return of the first fault |
| `TrioPreprocessor.ScanConsistent` | org.glite.lb-utils.trio/src/trio.c:1385-1648 | in every table the use counts are those of the positions installed, and the index of a position in use leads back to it |
| `TrioPreprocessor.OneMoreLoaded` | org.glite.lb-utils.trio/src/trio.c:1707-1720 | reading a position that is used once fills the one entry that it belongs to |
| `TrioPreprocessor.ReadArguments` | org.glite.lb-utils.trio/src/trio.c:1707-1940 | the check finds the smallest position that is not used once; without one, every entry gets its own argument |
| `TrioPreprocessor.Preprocess` | org.glite.lb-utils.trio/src/trio.c:956-1941 | for every format whose positions up to maxParam are each used once: the table, with the argument of each of these positions read into its entry, and their number; for any other one the negative error code of its first fault |
| `TrioPreprocessor.ErrorReadBack` | org.glite.lb-utils.trio/src/trio.c:60-65 | code and position come back from the error return |
| `TrioPreprocessor.QualifiersMax` | org.glite.lb-utils.trio/src/trio.c:1105-1109 | the explicit position of a precision star may lower maxParam, but not below the position of its conversion |
| `TrioLexer.GetPosition` | org.glite.lb-utils.trio/src/trio.c:898-940 | a position ends with its dollar sign within the text, and nothing is taken when there is none |
| `Numerals.StrToLongClamps` | org.glite.lb-utils.trio/src/trio.c:905 | digits beyond the largest long stand for it, as strtol() has it |
| `TrioLexer.NoDollarNoPosition` | org.glite.lb-utils.trio/src/trio.c:898-940 | text without a dollar sign gives no position |
| `TrioFormatter.FormatProcess` | org.glite.lb-utils.trio/src/trio.c:2713-3017 | the process loop sends the literal text and each entry's text in turn, and returns the number of characters; what these texts are is said by RenderedOutput |
| `TrioFormatter.Format` | org.glite.lb-utils.trio/src/trio.c:3046-3076 | a rejected format sends nothing and returns a negative error; an accepted one sends its whole output and returns its length |
| `TrioFormatter.SPrintf` | org.glite.lb-utils.trio/src/trio.c:3346-3362 | the output and its terminator, and nothing after them, in the caller's memory |
| `TrioFormatter.SNPrintf` | org.glite.lb-utils.trio/src/trio.c:3398-3417 | the memory holds the prefix of min(size - 1, n) characters and a terminator, the rest is untouched, and the status is still the whole length n |
| `TrioFormatter.ASPrintf` | org.glite.lb-utils.trio/src/trio.c:3557-3595 | the block holds the whole output and its terminator in bounds, also when the output is empty; a rejected format gives none |
| `TrioFormatter.APrintf` | org.glite.lb-utils.trio/src/trio.c:3512-3533 | the same, but no block for an empty output |
| `TrioFormats.RenderedOutput` | org.glite.lb-utils.trio/src/trio.c:956-3076 | the text of any sequence of literal texts and conversions, of every flag, size, width, precision, base, escape and letter, prints what these say, each conversion taking the next argument |
| `TrioFormats.TooManyRejected` | org.glite.lb-utils.trio/src/trio.c:1044-1048 | exactly up to 64 conversions: one more is rejected as having too many |
| `TrioPrinted.EscapedStringPrinted` | org.glite.lb-utils.trio/src/trio.c:2863-2900 | the string conversion %s, as it is and with its ULM, XML and SQL modifiers, prints its argument between any texts with no escape and with each of these, and what is printed unescapes to it |
| `TrioPrinted.IntegersPrinted` | org.glite.lb-utils.trio/src/trio.c:1482-1531 | %d, %i, %u, %o, %x, %X, %b and %B print an int with its sign or as unsigned, in base 10, 8, 16 and 2, and in capitals for X |
| `TrioPrinted.UlmTest` | org.glite.lb-utils.trio/test/trio_test.cpp:22-28 | the ULM escape of the repository's own test string |
| `TrioPrinted.XmlTest` | org.glite.lb-utils.trio/test/trio_test.cpp:32-38 | the XML escape of its test string |
| `TrioPrinted.SqlTest` | org.glite.lb-utils.trio/test/trio_test.cpp:42-48 | the SQL escape of its test string |
| `TrioSimulation.QualifiersRelated` | org.glite.lb-utils.trio/src/trio.c:1069-1379 | scanning positions and interpreting values accept the same qualifiers and stay related |
| `TrioSimulation.EntryPrints` | org.glite.lb-utils.trio/src/trio.c:2767-2797 | the compiled entry of a conversion is printed with the width, precision, base and value that the one-pass interpreter gathers for it |
| `TrioSimulation.CompiledRunsDirect` | org.glite.lb-utils.trio/src/trio.c:1013-3017 | for every accepted format without positions, running the compiled table prints what a one-pass interpreter prints that reads a literal width after a star as a position, and reads as many arguments |
| `TrioSimulation.CompiledRunsInOrder` | org.glite.lb-utils.trio/src/trio.c:1013-3017 | it prints what the one-pass interpreter prints that takes the arguments in order, and reads as many, when no literal width after a star names another argument than the star's own |
| `TrioSimulation.InOrderExactlyWhenTidy` | org.glite.lb-utils.trio/src/trio.c:1180-1230 | every conversion gets the width, precision, base and value that the arguments in order give it, for all arguments, exactly then |
| `TrioStarWidth.ShuffledOutput` | org.glite.lb-utils.trio/src/trio.c:1180-1230 | %*2d%*0d is accepted with the positions 2, 1, 0, 3: with 3, 5, 0, 7 it prints 5007, where the arguments in order print two spaces and 57 |
| `TrioStarWidth.SameOutput` | org.glite.lb-utils.trio/src/trio.c:1180-1230 | %-*2c%*0c also swaps the widths, but prints the same for all arguments, so that the condition is exact for what the conversions are given and not for the text |
| `TrioFormatter.OutputIsDirect` | org.glite.lb-utils.trio/src/trio.c:3046-3076 | what the printf family prints for such a format is the output of the interpreter in order, with the same number of arguments read, and the only other outcome is an error found while compiling |
| `TrioFormatter.OutputAsCompiled` | org.glite.lb-utils.trio/src/trio.c:3046-3076 | the same without the condition, for the interpreter that reads a literal width after a star as a position |
| `TrioPositions.StarFreeAccepted` | org.glite.lb-utils.trio/src/trio.c:1693-1720 | a format without stars, its positions given or counted or both, is accepted exactly when they are a permutation of the first ones; a rejection names the first position that is missing or used twice, and says which |
| `TrioPositions.StarFreeOutput` | org.glite.lb-utils.trio/src/trio.c:1037-1051 | its output is that of the format without positions on the arguments in the order of the positions |
| `TrioPositions.PlainAccepted` | org.glite.lb-utils.trio/src/trio.c:1693-1720 | a well-formed format without positions and stars is never rejected for gaps or double references, and each entry owns its own place |
| `TrioUnread.AcceptedIsRead` | org.glite.lb-utils.trio/src/trio.c:1693-1720 | a format without positions that passes the check, stars or not, leaves no entry unread |
| `TrioUnread.ReferencesAreEntries` | org.glite.lb-utils.trio/src/trio.c:1036-1648 | the table has one entry for each conversion and each kind of star in it, and its maxParam is the highest position that the text reaches, an explicit precision replacing it only when the width is above it |
| `TrioUnread.ReadExactly` | org.glite.lb-utils.trio/src/trio.c:1693-1720 | a format that passes the check leaves no entry unread exactly when the references counted in its text are as many as the positions up to the highest one reached |
| `TrioUnread.GuardedIsRead` | org.glite.lb-utils.trio/src/trio.c:1089-1212 | no entry is unread when every star of a conversion with a position is a width or base with its own one, no precision star has one after a literal width, and no literal width follows a star |
| `TrioUnread.StarLeavesUnread` | org.glite.lb-utils.trio/src/trio.c:1185-1206 | %1$*d passes the check and leaves the argument of its star unread |
| `TrioUnread.PrecisionLeavesUnread` | org.glite.lb-utils.trio/src/trio.c:1098-1119 | %1$.*2$d does so too |
| `TrioUnread.MixedLeavesUnread` | org.glite.lb-utils.trio/src/trio.c:1105-1120 | %3$d%2$9.*1$d passes the check and leaves its third argument unread |
| `TrioPositions.QualifiersLocal` | org.glite.lb-utils.trio/src/trio.c:1069-1379 | qualifiers without stars are read the same whatever text follows their letter and whatever the counters are |
| `TrioPositions.NoSecondPosition` | org.glite.lb-utils.trio/src/trio.c:898-940 | the rest of a conversion after its position is not taken for another position |
| `Escape.UlmRoundTrip` | org.glite.lb-utils.trio/src/escape.c:30-111 | unescaping the ULM escape gives every text back, and the escape has no raw newline and no quote without its backslash |
| `Escape.UlmLength` | org.glite.lb-utils.trio/src/escape.c:38-60 | the ULM escape needs at most twice the length, for which the buffer has room |
| `Escape.EscapeULM` | org.glite.lb-utils.trio/src/escape.c:30-62 | the escaper fills a fresh buffer in bounds with the escape |
| `Escape.UnescapeULM` | org.glite.lb-utils.trio/src/escape.c:80-111 | the unescaper refines its reading of the text, and ends at a backslash that nothing follows |
| `Escape.XmlRoundTrip` | org.glite.lb-utils.trio/src/escape.c:127-196 | unescaping the XML escape gives every string of bytes back |
| `Escape.XmlStepOf` | org.glite.lb-utils.trio/src/escape.c:177-190 | the first semicolon after an ampersand is the entity's own, and the lookup by prefix takes the right entity first |
| `Escape.XmlOutputSafe` | org.glite.lb-utils.trio/src/escape.c:127-160 | in the XML escape every ampersand starts one of the five entities, every percent sign a lower-case code, and no other character has a meaning |
| `Escape.UnescapeThenEscape` | org.glite.lb-utils.trio/src/escape.c:127-197 | the other order gives a text back exactly when it is of that form, for every string of bytes |
| `Escape.NameDecoded` | org.glite.lb-utils.trio/src/escape.c:175-183 | a name is decoded exactly when it starts one of the five in any case, so although it is none of them exactly when it is a proper prefix or a case variant of one |
| `Escape.XmlLength` | org.glite.lb-utils.trio/src/escape.c:140-146 | the XML escape is within the length and five more for each special character, for which the buffer has room |
| `Escape.EmptyEntity` | org.glite.lb-utils.trio/src/escape.c:177 | an empty entity name stands for the first table entry |
| `Escape.EscapeXML` | org.glite.lb-utils.trio/src/escape.c:127-161 | the escaper fills a fresh buffer in bounds with the escape |
| `Escape.UnescapeXML` | org.glite.lb-utils.trio/src/escape.c:163-197 | the unescaper refines the stepwise reading of entities and hex codes |
| `Escape.SqlRoundTrip` | org.glite.lb-utils.trio/src/escape.c:199-224 | an SQL server reads the escape inside a quoted literal as the text, and the literal does not end before it |
| `Escape.EscapeSQL` | org.glite.lb-utils.trio/src/escape.c:199-224 | the escaper fills a fresh buffer whose length is that of the escape and its terminator |
| `StrMatch.OneCharacter` | org.glite.lb-utils.trio/src/strio.c:309-320 | a letter or '?' in front of a pattern takes one character |
| `StrMatch.AnyRun` | org.glite.lb-utils.trio/src/strio.c:325-333 | a '*' in front takes any prefix, also the empty one |
| `StrMatch.StarsCollapse` | org.glite.lb-utils.trio/src/strio.c:321-323 | two stars in a row have the language of one |
| `StrMatch.StrMatchCase` | org.glite.lb-utils.trio/src/strio.c:340-371 | the matcher answers yes exactly for the strings that can be cut into one piece for each character of the pattern |
| `StrMatch.StrMatch` | org.glite.lb-utils.trio/src/strio.c:304-335 | the same for upper-cased string and pattern |
| `StrMatch.CaseImpliesNoCase` | org.glite.lb-utils.trio/src/strio.c:304-371 | a case-sensitive match implies a case-insensitive one |
| `Base64.ShiftLow` | org.glite.lb-utils.jobid/src/strmd5.c:28-30 | shifting into a 32-bit word that wraps keeps the bits still pending and puts the new ones below them |
| `Base64.TakeSix` | org.glite.lb-utils.jobid/src/strmd5.c:43-46 | the six bits taken are the highest pending ones, and the others stay pending |
| `Base64.Base64Encode` | org.glite.lb-utils.jobid/src/strmd5.c:15-56 | the encoder writes the big-endian six-bit split of all bits, zero-filled, and one '=' when they fit outMax, and fails otherwise |
| `Base64.EncodeText` | org.glite.lb-utils.jobid/src/strmd5.c:43-48 | the text of n bytes has ceil(8n / 6) digits |
| `Base64.RoundTrip` | org.glite.lb-utils.jobid/src/strmd5.c:15-56 | a decoder recovers every byte |
| `Base64.DigestText` | org.glite.lb-utils.jobid/src/strmd5.c:117-121 | sixteen bytes give exactly 22 digits once the '=' is cut off, in a buffer of 50 |
| `Base64.TextsDiffer` | org.glite.lb-utils.jobid/src/strmd5.c:117-121 | different digests have different texts |
| `JobId.Parse` | org.glite.lb-utils.jobid/src/cjobid.c:128-200 | the parser, cutting its copy with NULs in place, finds the job of the text or fails with EINVAL |
| `JobId.Cut` | org.glite.lb-utils.jobid/src/cjobid.c:155-163 | a NUL cuts a string in the buffer in two strings |
| `JobId.RoundTrip` | org.glite.lb-utils.jobid/src/cjobid.c:128-233 | printing and parsing gives a job back exactly when its port is not 0, its host has no slash, colon or white space, and its unique part no question mark or white space |
| `JobId.UnparseThenParse` | org.glite.lb-utils.jobid/src/cjobid.c:128-233 | with port 0 it gives the job with port 9000 |
| `JobId.ParseUnparseParse` | org.glite.lb-utils.jobid/src/cjobid.c:128-245 | any text that parses prints as one that parses to the same job up to the default port, and both name the same server |
| `JobId.ServerIsRead` | org.glite.lb-utils.jobid/src/cjobid.c:128-245 | with the unique part behind it, the server's name reads as the job it was taken from, its port or the default one included |
| `JobId.RecreateServer` | org.glite.lb-utils.jobid/src/cjobid.c:70-94 | a job made again from its server's name and unique part is the same, and a port that is given is stronger than the one in the name |
| `JobId.RecreateHost` | org.glite.lb-utils.jobid/src/cjobid.c:70-94 | a host without a port gets 9000 |
| `JobId.PortIsRead` | org.glite.lb-utils.jobid/src/cjobid.c:159-222 | a port printed as a signed int is read back, for all 32-bit ports |
| `JobId.CreatedRoundTrip` | org.glite.lb-utils.jobid/src/cjobid.c:32-94 | a job created with any digest survives printing and parsing exactly when its host has no slash or white space |
| `Frames.HeaderRoundTrip` | org.glite.security.proxyrenewal/src/common.c:131-162 | a length survives the four-byte header exactly when it is below 2^31 or at least 2^64 - 2^31 |
| `Frames.NetworkOrder` | org.glite.security.proxyrenewal/src/common.c:157-160 | the four bytes of the header have the most significant first |
| `Frames.FailureMeans` | org.glite.security.proxyrenewal/src/common.c:23-62 | a call times out when poll() does before anything else fails, and reports errno when poll(), read() or write() fails first |
| `Frames.NRead` | org.glite.security.proxyrenewal/src/common.c:7-62 | the call fills the buffer with the next bytes when the rounds before the first failing one can move them, returns well with nothing at the end of the stream, and otherwise fails as that round says, whatever the pieces and interruptions |
| `Frames.NWrite` | org.glite.security.proxyrenewal/src/common.c:65-113 | the call sends exactly what the rounds before the first failing one can move, and returns well exactly when that is the whole buffer |
| `Frames.Read` | org.glite.security.proxyrenewal/src/common.c:115-151 | the call returns the message that the next header announces, or the outcome that the two reads, the end of the stream and the length determine |
| `Frames.Write` | org.glite.security.proxyrenewal/src/common.c:153-169 | the call sends one frame when the rounds of both parts are enough, and otherwise the prefix they can move |
| `Frames.ReadyRoundsSuffice` | org.glite.security.proxyrenewal/src/common.c:23-48 | without a failing round, as many ready ones as there are bytes are enough, whatever the interruptions between them |
| `Frames.ReadsWhole` | org.glite.security.proxyrenewal/src/common.c:115-151 | at the start of a frame that is there whole a read returns well exactly when its rounds are enough |
| `Frames.FrameIsUnique` | org.glite.security.proxyrenewal/src/common.c:115-169 | at the start of a frame a reader can return no other message |
| `Frames.PartialFrame` | org.glite.security.proxyrenewal/src/common.c:143-148 | in a frame that breaks off a reader returns no message at all |
| `Frames.ReceivedInOrder` | org.glite.security.proxyrenewal/src/common.c:115-169 | messages received from a stream of frames are a prefix of those sent |
| `Frames.Session` | org.glite.security.proxyrenewal/src/common.c:7-169 | for any messages below 2^31 bytes and any two schedules of partial reads, partial writes, interruptions, timeouts and failures, the messages received are the first ones sent, whole and in order, and exactly as many as have enough rounds on both sides |
| `Frames.CalmSuffices` | org.glite.security.proxyrenewal/src/common.c:7-169 | when no round fails and enough are ready, that is all of them |
| `Frames.DecrementTimeout` | org.glite.security.proxyrenewal/src/common.c:310-322 | the elapsed time is taken away exactly, also from a timeout that earlier calls have left; it is reported over exactly when nothing is left, or when the seconds are used up but not the microseconds that were never carried |
| `Frames.LossBounded` | org.glite.security.proxyrenewal/src/common.c:50-58 | however many calls share a timeout, it is what remains of it or was set to 0 with less than a second for each call remaining |
| `Frames.TwoCallsLoseMore` | org.glite.security.proxyrenewal/src/common.c:310-322 | two calls on a timeout of 3.9 seconds report it over with 1.7 seconds left |
| `Tokens.GetToken` | org.glite.security.proxyrenewal/src/common.c:171-211 | the search loop finds the value after occurrence i of the key |
| `Tokens.CountText` | org.glite.security.proxyrenewal/src/common.c:184-193 | a message has as many occurrences of a key as it has tokens of it exactly when no value contains the key |
| `Tokens.TokensReadBack` | org.glite.security.proxyrenewal/src/common.c:171-238 | for every index, reading a key gives the value stored under it or NOT_FOUND, exactly when no stored value contains the key |
| `Renewal.StoreToken` | org.glite.security.proxyrenewal/src/common.c:213-238 | a token is appended to the buffer, which grows until it fits; one that is too long fails with ERANGE and changes nothing |
| `Renewal.EncodeRequest` | org.glite.security.proxyrenewal/src/api.c:21-93 | a request becomes the text of its tokens in order; it fails exactly when one of them is too long |
| `Renewal.RequestReadBack` | org.glite.security.proxyrenewal/src/api.c:34-83 | a reader finds the version and each field under its key, the entries in order, and nothing for a field that is absent; of the server's name it finds all exactly below 1024 characters, and otherwise the first 1023 |
| `Renewal.CollectProxies` | org.glite.security.proxyrenewal/src/api.c:176-197 | the proxies are collected in order in an array that grows by sixteen, with its NULL in bounds |
| `Renewal.DecodeResponse` | org.glite.security.proxyrenewal/src/api.c:95-205 | decoding succeeds exactly on messages whose required tokens are there and whose others are readable, with those values |
| `Renewal.ResponseReadBack` | org.glite.security.proxyrenewal/src/api.c:95-205 | of a response made of clean tokens the first value of each key, the three times among them, and all proxies in order are decoded |
| `Renewal.IntRoundTrip` | org.glite.security.proxyrenewal/src/common.c:294-308 | an int survives EncodeInt and DecodeInt |
| `BufferedInsert.SplitConserves` | org.glite.lb-utils.db/src/db.c:653-666 | the batches and the rows still buffered are all rows given, once each and in order; a batch has as many rows or as much text as a limit says, and without its last row less than each limit |
| `BufferedInsert.ValuesAreList` | org.glite.lb-utils.db/src/db.c:625-629 | the values of a statement are each row between parentheses, in order and in its place, with commas between them, for any rows |
| `BufferedInsert.ValuesReadBack` | org.glite.lb-utils.db/src/db.c:625-629 | a reader of value lists finds exactly the rows of a statement if and only if each row closes its quotes and parentheses |
| `BufferedInsert.StatementReadBack` | org.glite.lb-utils.db/src/db.c:625-635 | so does a reader of the whole statement |
| `BufferedInsert.Buffer.constructor` | org.glite.lb-utils.db/src/db.c:600-613 | a buffer starts empty, with room for as many rows as the record limit says |
| `BufferedInsert.RoomExactly` | org.glite.lb-utils.db/src/db.c:606-655 | between calls there is room for another row exactly when the record limit is above 0 |
| `BufferedInsert.Buffer.Insert` | org.glite.lb-utils.db/src/db.c:653-666 | between calls rec_size is the total length buffered, both counters are below their limits, and the batches sent are those of all rows given |
| `BufferedInsert.Buffer.Flush` | org.glite.lb-utils.db/src/db.c:616-650 | one statement, in which a reader finds all rows buffered if and only if they can be told apart; EEXIST is cleared, and the buffer is empty also after another error |
| `BufferedInsert.Buffer.Close` | org.glite.lb-utils.db/src/db.c:681-688 | after Close the batches sent are exactly the rows given, and a reader of the statements executed finds them if and only if they can be told apart |
| `BufferedInsert.InsertAll` | org.glite.lb-utils.db/src/db.c:600-688 | over any rows and any answers of the database, a reader of the statements executed finds the rows given, once each and in order, if and only if they can be told apart, when no error occurred, and otherwise the first of them |
| `InsertStatement.InsertIsPrinted` | org.glite.lb-utils.db/src/db.c:625-635 | the statement of the buffer is what the formatting engine prints for its format string: table and columns escaped for SQL, the values as they are |
| `Master.Counters.ReceiveAck` | org.glite.lb.server-bones/src/srvbones.c:210-219 | an acknowledgement raises the accepted counter only, and never above the dispatched one, before wraparound |
| `Master.Counters.Dispatch` | org.glite.lb.server-bones/src/srvbones.c:269-284 | a connection is dispatched under the next number when the window has room and the send works; the number is used up in both cases |
| `Master.PayloadRoundTrip` | org.glite.lb.server-bones/src/srvbones.c:581-655 | service and number come through the text message exactly when their digits fit in 29 characters |
| `Master.EveryNumberFits` | org.glite.lb.server-bones/src/srvbones.c:581-655 | they always do for fewer than a hundred million services |
| `Server.NextInv` | org.glite.lb.server-bones/src/srvbones.c:210-286 | every step of master and slaves, in any order, keeps the invariant of counters, queue, places and acknowledgements |
| `Server.WindowKept` | org.glite.lb.server-bones/src/srvbones.c:210-286 | after every run the accepted counter is at most the highest number taken, dispatched less accepted is at most the window, and so is the length of the queue |
| `Server.OnePlace` | org.glite.lb.server-bones/src/srvbones.c:272-286 | every connection that arrived is refused, or in the queue once, or taken by one slave once |
| `Server.PlacesStay` | org.glite.lb.server-bones/src/srvbones.c:461-477 | a refused or taken connection stays so; a queued one can only be taken |
| `Server.OneAckEach` | org.glite.lb.server-bones/src/srvbones.c:499-507 | each acknowledgement is of one connection taken, carries its number, and is sent once |
| `Server.DrainedAdmits` | org.glite.lb.server-bones/src/srvbones.c:210-286 | when queue and acknowledgements have drained, with no failed send and no lost acknowledgement, the next connection is let in exactly when the window is at least 2, or 1 with nothing dispatched before |
| `Server.AdmitsExactly` | org.glite.lb.server-bones/src/srvbones.c:210-281 | whatever was lost: once all acknowledgements are read, the accepted counter is the highest number acknowledged, and the next connection is let in exactly when the numbers dispatched since leave room in the window |
| `Server.WindowOfOneSticks` | org.glite.lb.server-bones/src/srvbones.c:215-218 | a window of 1 lets one connection in and never another: number 0 is acknowledged to no effect |
| `Server.WedgedForEver` | org.glite.lb.server-bones/src/srvbones.c:269-281 | a drained server whose window is used up refuses every later connection |
| `Server.LossesWedge` | org.glite.lb.server-bones/src/srvbones.c:178-203 | slaves that die before they acknowledge can bring any server into that state |
| `Slave.TimeoutExact` | org.glite.lb.server-bones/src/srvbones.c:569-574 | check_timeout is right for whole-second timeouts, and otherwise wrong exactly when the microseconds exceed those elapsed by more than a second in the second before |
| `Slave.NoTimeoutFires` | org.glite.lb.server-bones/src/srvbones.c:672-680 | the timeout that stands for none has always passed |
| `Slave.LifeIsLegal` | org.glite.lb.server-bones/src/srvbones.c:354-556 | in every life of a slave, whatever the calls report, its connections go through the automaton: acknowledged with their own number before they are served, one at a time, dropped and closed in order, and nothing after the exit |
| `SlaveRounds.IdleClientKicked` | org.glite.lb.server-bones/src/srvbones.c:456-489 | in every life a client is dropped as idle in a round exactly when the slave goes on, holds it, has nothing to read from it or (unless its first request is due) from the master, and its timeout has passed since its last request or its opening ended; and nothing else happens then |
| `SlaveRounds.RequestServed` | org.glite.lb.server-bones/src/srvbones.c:403-419 | a request is served exactly when the slave goes on, the connection held is ready, and its service has a handler |
| `SlaveRounds.AnsweredIsKept` | org.glite.lb.server-bones/src/srvbones.c:446-489 | a request answered with 0 keeps the connection, unless the client has been held for 10 seconds and a new connection is taken for it or the count is reached |
| `SlaveRounds.AnsweredOtherwise` | org.glite.lb.server-bones/src/srvbones.c:419-445 | a negative answer ends the slave, a positive one closes the connection, after the disconnect handler for ENOTCONN |
| `SlaveRounds.NoHandlerDrops` | org.glite.lb.server-bones/src/srvbones.c:413-416 | a client whose service has no handler is dropped |
| `SlaveRounds.ConnectionTaken` | org.glite.lb.server-bones/src/srvbones.c:461-477 | a new connection is taken exactly when the slave goes on, no first request is due and the master's socket has one; it replaces the one held |
| `SlaveRounds.ConnectionOpened` | org.glite.lb.server-bones/src/srvbones.c:481-540 | all that is done with it: the old one dropped, the number acknowledged, the new one opened, or closed when it cannot be |
| `SlaveRounds.EndsThen` | org.glite.lb.server-bones/src/srvbones.c:543-556 | the slave ends in the first round in which it does not go on, after the disconnect handler of its client |
| `SlaveRounds.LogIsLife` | org.glite.lb.server-bones/src/srvbones.c:354-556 | the rounds spoken of there are the life, one after the other |
| `SlaveSteps.EventsRun` | org.glite.lb.server-bones/src/srvbones.c:354-556 | among any steps of master and other slaves, what the automaton takes of one slave is a sequence of take, acknowledge and die steps of the system that can all happen, and each acknowledgement in it is sent with its number |
| `SlaveSteps.LifeRuns` | org.glite.lb.server-bones/src/srvbones.c:354-556 | so every life of a slave is part of a run of the system, and the slave is free again at its end |
| `Slave.WorkIsLimited` | org.glite.lb.server-bones/src/srvbones.c:354-556 | requests and connections together never exceed the limit by more than one |
| `Slave.RenewedLegal` | org.glite.lb.server-bones/src/srvbones.c:461-540 | taking a new connection closes the one held first, and never one that waits for its first request |
| `Slave.Slave.Run` | org.glite.lb.server-bones/src/srvbones.c:354-556 | the loop does what its rounds say, event by event |
| `Slave.Slave.Iterate` | org.glite.lb.server-bones/src/srvbones.c:354-541 | one round of the loop: state and events after each combination of readiness, results and limits |
| `SlaveTrace.DisconnectOnce` | org.glite.lb.server-bones/src/srvbones.c:420-430 | between two calls of the disconnect handler a connection is made |
| `SlaveTrace.ClosedBeforeNext` | org.glite.lb.server-bones/src/srvbones.c:481-496 | between two acknowledgements the connection held is closed |
| `SlaveTrace.OwnNumber` | org.glite.lb.server-bones/src/srvbones.c:499-507 | an acknowledgement carries the number of the connection received last, which was not acknowledged before |
| `SlaveTrace.DroppedAfterRequest` | org.glite.lb.server-bones/src/srvbones.c:461-489 | a connection dropped for load or count has had a request since it was made |

## Left out

- Floating point (TrioWriteDouble, TrioReadDouble, StrToDouble): log and pow with rounding, without an exact specification.
- Conversions %e, %f, %g, %a, %p, %n, %m, %[ and user-defined ones, the qualifiers !, & and I, and formats with characters above 127: the scan gives `Outside` for them.
- Formats that index the 64 entries of the tables out of bounds: `Outside` too. What is printed for an entry whose argument was not read: C gives it no meaning, so that `Compile` is `Outside` where `Accept` is not, and `Preprocess` says nothing of the data of such an entry.
- Bases other than 2 to 36 in a conversion: the writer only asserts them.
- The flag bits of a star's entry are never set by the C code before they are tested for a user-defined conversion; the model takes them as clear.
- trio's scanning family but for TrioReadNumber on a string; the base of 0 that it detects by itself; the endless loop on a character above 127 when the separator is empty and the quote flag is set.
- Wide and multibyte characters: compiled out.
- Overflow of int in widths, precisions and output lengths.
- Output to files and descriptors, and snprintfcat: the same engine over other streams.
- Locale group sizes that are negative as a char.
- Frame lengths that sign extension has made fail in malloc(); a block of 2 GiB is taken to be available.
- The receiving order of poll() and the closing of sockets; do_connect; the server side of the renewal daemon, whose encode_response sends an uninitialised host.
- Tokens.TokensReadBack: separators other than a newline, which no caller uses; keys that end in another key.
- Signs in the text that goes with a connection, which the sender never writes.
- Runs of the server after its dispatch counter has wrapped around, when the window is suspended; signals, fork and waitpid are the step `Die` alone.
- What a slave's handlers do to their client data, signal masks, and the waiting times before recvmsg.
- MD5, and the host name and random numbers that the digest of a new job is made of.
- MySQL calls, prepared statements, transactions, and the conversion of times in db.c; QueryIndices.
- What the database makes of a statement of many rows of which one is there already.
- Memory leaks and failed allocations everywhere.
