/** The insert statement of the buffer is what the formatting engine makes of its format string. */
module InsertStatement {
  import opened CText
  import opened TrioNumber
  import opened TrioLexer
  import opened TrioCompile
  import opened TrioFormatter
  import opened TrioFormats
  import opened TrioPrinted
  import Escapes = Escape
  import BufferedInsert

  const INSERT_FORMAT := "insert into %|Ss(%|Ss) values %s;"

  const SQL_STRING := STRING.(escaping := EscapeSql)

  /** The format by its pieces, from the last one on. */
  const VALUES_PIECES := [Plain(") values ")] + ([Converted(STRING)] + ([Plain(";")] + []))
  const COLUMN_PIECES := [Plain("(")] + ([Converted(SQL_STRING)] + VALUES_PIECES)
  const INSERT_PIECES := [Plain("insert into ")] + ([Converted(SQL_STRING)] + COLUMN_PIECES)

  /** trio_asprintf() gives the statement: the table and the columns escaped for SQL, the values as they
      are. */
  lemma InsertIsPrinted(table: string, columns: string, rows: seq<string>, args: Args, loc: Locale)
    requires rows != [] && loc.Valid()
    requires args(0).text == Some(table) && args(1).text == Some(columns)
    requires args(2).text == Some(BufferedInsert.ValuesText(rows))
    ensures Output(INSERT_FORMAT, args, loc) == Done(BufferedInsert.StatementText(table, columns, rows))
  {
    hide Output, Render, Printout, IsFormat, Conversions, SpecOutput, IsSpec, PieceText, BufferedInsert.ValuesText;
    var values := BufferedInsert.ValuesText(rows);
    StringPiece(EscapeNone);
    StringPiece(EscapeSql);
    StringPrints(EscapeSql, table, args(0), loc);
    StringPrints(EscapeSql, columns, args(1), loc);
    StringPrints(EscapeNone, values, args(2), loc);
    ValuesPieces(args, loc);
    ConvertedFirst(SQL_STRING, VALUES_PIECES, args, 1, loc);
    PlainFirst("(", [Converted(SQL_STRING)] + VALUES_PIECES, args, 1, loc);
    ConvertedFirst(SQL_STRING, COLUMN_PIECES, args, 0, loc);
    PlainFirst("insert into ", [Converted(SQL_STRING)] + COLUMN_PIECES, args, 0, loc);
    RenderedOutput(INSERT_PIECES, args, loc);
    Flattened("%|Ss", "%|Ss", "%s");
    FormatText();
    assert Render(INSERT_PIECES) == INSERT_FORMAT;
    var t, c := Escapes.EscapeSqlText(table), Escapes.EscapeSqlText(columns);
    Flattened(t, c, values);
    assert Printout(INSERT_PIECES, args, 0, loc)
        == "insert into " + (t + ("(" + (c + (") values " + (values + (";" + ""))))));
  }

  lemma ValuesPieces(args: Args, loc: Locale)
    requires loc.Valid()
    ensures IsFormat(VALUES_PIECES) && Conversions(VALUES_PIECES) == 1
    ensures Render(VALUES_PIECES) == ") values " + (StringFormat(EscapeNone) + (";" + ""))
    ensures IsSpec(STRING)
    ensures Printout(VALUES_PIECES, args, 2, loc) == ") values " + (SpecOutput(STRING, args(2), loc) + (";" + ""))
  {
    hide Render, Printout, IsFormat, Conversions, SpecOutput, IsSpec, PieceText;
    StringPiece(EscapeNone);
    NoPieces(args, 3, loc);
    PlainFirst(";", [], args, 3, loc);
    ConvertedFirst(STRING, [Plain(";")] + [], args, 2, loc);
    PlainFirst(") values ", [Converted(STRING)] + ([Plain(";")] + []), args, 2, loc);
  }

  lemma FormatText()
    ensures "insert into " + "%|Ss" + "(" + "%|Ss" + ") values " + "%s" + ";" == INSERT_FORMAT
    ensures StringFormat(EscapeSql) == "%|Ss" && StringFormat(EscapeNone) == "%s"
  {
  }

  lemma Flattened(t: string, c: string, values: string)
    ensures "insert into " + (t + ("(" + (c + (") values " + (values + (";" + ""))))))
            == "insert into " + t + "(" + c + ") values " + values + ";"
  {
  }
}
