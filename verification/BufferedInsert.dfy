/** The buffer that gathers rows for insert statements of many rows. */
module BufferedInsert {
  import opened CText
  import opened ValueLists
  import Escape

  const EEXIST := 17

  /** What the database makes of a statement: 0, or an error code. */
  type Outcome = int

  // ----- The batches that the limits cut the rows into

  function Size(rows: seq<string>): nat {
    if rows == [] then 0 else Size(rows[..|rows| - 1]) + |rows[|rows| - 1]|
  }

  /** The rows have reached a limit. A limit of 0 is none. */
  predicate Due(rows: seq<string>, sizeLimit: nat, recordLimit: nat) {
    (sizeLimit != 0 && Size(rows) >= sizeLimit) || (recordLimit != 0 && |rows| >= recordLimit)
  }

  /** Whole batches, and the rows of one that is not due yet. */
  function Split(rows: seq<string>, sizeLimit: nat, recordLimit: nat): (r: (seq<seq<string>>, seq<string>)) {
    if rows == [] then ([], [])
    else
      var (batches, rest) := Split(rows[..|rows| - 1], sizeLimit, recordLimit);
      var more := rest + [rows[|rows| - 1]];
      if Due(more, sizeLimit, recordLimit) then (batches + [more], []) else (batches, more)
  }

  function Flatten(batches: seq<seq<string>>): seq<string> {
    if batches == [] then [] else Flatten(batches[..|batches| - 1]) + batches[|batches| - 1]
  }

  /** A batch has reached a limit, and with its last row only. */
  predicate IsBatch(b: seq<string>, sizeLimit: nat, recordLimit: nat) {
    && b != [] && ((sizeLimit > 0 && Size(b) >= sizeLimit) || (recordLimit > 0 && |b| >= recordLimit))
    && (|b| > 1 ==> BelowLimits(b[..|b| - 1], sizeLimit, recordLimit))
  }

  predicate BelowLimits(b: seq<string>, sizeLimit: nat, recordLimit: nat) {
    (sizeLimit > 0 ==> Size(b) < sizeLimit) && (recordLimit > 0 ==> |b| < recordLimit)
  }

  lemma NothingFlat()
    ensures Flatten([]) == []
  {
  }

  lemma FlattenMore(batches: seq<seq<string>>, more: seq<string>)
    ensures Flatten(batches + [more]) == Flatten(batches) + more
  {
    assert (batches + [more])[..|batches|] == batches;
  }

  /** No row is lost, repeated or moved, and the batches are as small as the limits make them. */
  lemma {:induction false} SplitConserves(rows: seq<string>, sizeLimit: nat, recordLimit: nat)
    ensures var (batches, rest) := Split(rows, sizeLimit, recordLimit);
            && Flatten(batches) + rest == rows && (rest != [] ==> BelowLimits(rest, sizeLimit, recordLimit))
            && forall b :: b in batches ==> IsBatch(b, sizeLimit, recordLimit)
  {
    hide Flatten, Size;
    if rows == [] {
      NothingFlat();
    } else {
      var n := |rows| - 1;
      SplitConserves(rows[..n], sizeLimit, recordLimit);
      var (batches, rest) := Split(rows[..n], sizeLimit, recordLimit);
      var more := rest + [rows[n]];
      assert Flatten(batches) + more == rows;
      assert more[..|more| - 1] == rest;
      FlattenMore(batches, more);
    }
  }

  // ----- Statements

  function ValuesText(rows: seq<string>): string
    requires rows != []
  {
    if |rows| == 1 then "(" + rows[0] + ")" else ValuesText(rows[..|rows| - 1]) + ",(" + rows[|rows| - 1] + ")"
  }

  function StatementText(table: string, columns: string, rows: seq<string>): string
    requires rows != []
  {
    "insert into " + Escape.EscapeSqlText(table) + "(" + Escape.EscapeSqlText(columns) + ") values "
    + ValuesText(rows) + ";"
  }

  predicate NoneEmpty(batches: seq<seq<string>>) {
    forall i :: 0 <= i < |batches| ==> batches[i] != []
  }

  function Statements(table: string, columns: string, batches: seq<seq<string>>): (r: seq<string>)
    requires NoneEmpty(batches)
    ensures |r| == |batches| && forall i :: 0 <= i < |batches| ==> r[i] == StatementText(table, columns, batches[i])
  {
    seq(|batches|, i requires 0 <= i < |batches| => StatementText(table, columns, batches[i]))
  }

  // ----- What a statement says

  lemma {:induction false} ValuesFirst(rows: seq<string>)
    requires |rows| > 1
    ensures ValuesText(rows) == "(" + rows[0] + ")" + ("," + ValuesText(rows[1..]))
  {
    var n := |rows| - 1;
    if n == 1 {
      assert rows[..1] == [rows[0]] && rows[1..] == [rows[1]];
      assert "(" + rows[0] + ")" + ",(" + rows[1] + ")" == "(" + rows[0] + ")" + ("," + ("(" + rows[1] + ")"));
    } else {
      ValuesFirst(rows[..n]);
      assert rows[..n][1..] == rows[1..][..n - 1];
      assert "(" + rows[0] + ")" + ("," + ValuesText(rows[1..][..n - 1])) + ",(" + rows[n] + ")"
          == "(" + rows[0] + ")" + ("," + (ValuesText(rows[1..][..n - 1]) + ",(" + rows[n] + ")"));
    }
  }

  /** Where row k starts in the list: after the rows before it, with two parentheses and a comma each,
      and after its own parenthesis. */
  function RowStart(rows: seq<string>, k: nat): nat
    requires k < |rows|
  {
    Size(rows[..k]) + 3 * k + 1
  }

  /** Each row stands in its place between parentheses, and a comma after all but the last. */
  ghost predicate IsList(text: string, rows: seq<string>) {
    && |text| == Size(rows) + 3 * |rows| - 1
    && forall k :: 0 <= k < |rows| ==> RowAt(text, rows, k)
  }

  predicate RowAt(text: string, rows: seq<string>, k: nat)
    requires k < |rows|
  {
    var start, end := RowStart(rows, k), RowStart(rows, k) + |rows[k]|;
    && end < |text| && text[start - 1] == '(' && text[start..end] == rows[k] && text[end] == ')'
    && (k < |rows| - 1 ==> end + 1 < |text| && text[end + 1] == ',')
  }

  /** For any rows, whatever they hold. */
  lemma {:induction false} ValuesAreList(rows: seq<string>)
    requires rows != []
    ensures IsList(ValuesText(rows), rows)
  {
    hide Size;
    var n := |rows| - 1;
    SizeMore(rows);
    if n == 0 {
      SizeNone();
      assert rows[..0] == [];
    } else {
      var init, t := rows[..n], ValuesText(rows);
      ValuesAreList(init);
      SizeMore(rows[..n]);
      assert t[..|ValuesText(init)|] == ValuesText(init);
      forall k | 0 <= k < |rows| ensures RowAt(t, rows, k) {
        if k < n {
          EarlierRow(t, ValuesText(init), rows, k);
        }
      }
    }
  }

  lemma EarlierRow(t: string, u: string, rows: seq<string>, k: nat)
    requires 0 <= k < |rows| - 1 && IsList(u, rows[..|rows| - 1]) && u + ",(" <= t
    ensures RowAt(t, rows, k)
  {
    hide Size;
    var init := rows[..|rows| - 1];
    assert init[..k] == rows[..k] && init[k] == rows[k];
    assert RowAt(u, init, k);
    var start, end := RowStart(rows, k), RowStart(rows, k) + |rows[k]|;
    assert t[start..end] == u[start..end];
    assert t[start - 1] == u[start - 1] && t[end] == u[end];
    if k < |init| - 1 {
      assert t[end + 1] == u[end + 1];
    } else {
      SizeMore(init);
      assert t[|u|] == ',';
    }
  }

  lemma SizeNone()
    ensures Size([]) == 0
  {
  }

  lemma SizeMore(rows: seq<string>)
    requires rows != []
    ensures Size(rows) == Size(rows[..|rows| - 1]) + |rows[|rows| - 1]|
  {
  }

  lemma {:induction false} BalancedIsRead(rows: seq<string>)
    requires rows != [] && AllBalanced(rows)
    ensures ReadRows(ValuesText(rows)) == Some(rows)
    decreases |rows|
  {
    hide ValuesText, ReadRows, Balanced;
    assert rows[0] in rows;
    if |rows| == 1 {
      OneValue(rows);
      ReadFirst(rows[0], "");
    } else {
      var rest := "," + ValuesText(rows[1..]);
      BalancedIsRead(rows[1..]);
      ValuesFirst(rows);
      ReadFirst(rows[0], rest);
      assert rest[1..] == ValuesText(rows[1..]);
      assert [rows[0]] + rows[1..] == rows;
    }
  }

  lemma OneValue(rows: seq<string>)
    requires |rows| == 1
    ensures ValuesText(rows) == "(" + rows[0] + ")" && [rows[0]] == rows
  {
  }

  /** A reader of the list finds exactly these rows if and only if each can be told from what follows. */
  lemma ValuesReadBack(rows: seq<string>)
    requires rows != []
    ensures ReadRows(ValuesText(rows)) == Some(rows) <==> AllBalanced(rows)
  {
    hide ValuesText, ReadRows, Balanced;
    if AllBalanced(rows) {
      BalancedIsRead(rows);
    } else if ReadRows(ValuesText(rows)) == Some(rows) {
      ReadIsBalanced(ValuesText(rows));
    }
  }

  /** The rows of an insert statement for this table and these columns. */
  function ReadStatement(stmt: string, table: string, columns: string): Option<seq<string>> {
    var head := "insert into " + Escape.EscapeSqlText(table) + "(" + Escape.EscapeSqlText(columns) + ") values ";
    if head <= stmt && |stmt| > |head| && stmt[|stmt| - 1] == ';' then ReadRows(stmt[|head|..|stmt| - 1]) else None
  }

  lemma StatementReadBack(table: string, columns: string, rows: seq<string>)
    requires rows != []
    ensures ReadStatement(StatementText(table, columns, rows), table, columns) == Some(rows) <==> AllBalanced(rows)
  {
    hide ValuesText, ReadRows, Balanced;
    var head := "insert into " + Escape.EscapeSqlText(table) + "(" + Escape.EscapeSqlText(columns) + ") values ";
    var stmt := head + ValuesText(rows) + ";";
    assert StatementText(table, columns, rows) == stmt;
    assert stmt[|head|..|stmt| - 1] == ValuesText(rows);
    ValuesReadBack(rows);
  }

  /** The rows of all statements, one after the other; None when one cannot be read. */
  function ReadAll(executed: seq<string>, table: string, columns: string): Option<seq<string>> {
    if executed == [] then Some([])
    else
      var before := ReadAll(executed[..|executed| - 1], table, columns);
      var last := ReadStatement(executed[|executed| - 1], table, columns);
      if before == None || last == None then None else Some(before.value + last.value)
  }

  lemma {:induction false} StatementsReadBack(table: string, columns: string, batches: seq<seq<string>>)
    requires NoneEmpty(batches)
    ensures ReadAll(Statements(table, columns, batches), table, columns) == Some(Flatten(batches))
            <== AllBalanced(Flatten(batches))
    ensures ReadAll(Statements(table, columns, batches), table, columns).Some?
            ==> AllBalanced(ReadAll(Statements(table, columns, batches), table, columns).value)
    decreases |batches|
  {
    hide StatementText, ReadStatement, Balanced;
    if batches != [] {
      var init, last := batches[..|batches| - 1], batches[|batches| - 1];
      var stmts := Statements(table, columns, batches);
      StatementsReadBack(table, columns, init);
      assert stmts[..|stmts| - 1] == Statements(table, columns, init);
      StatementReadBack(table, columns, last);
      ReadStatementBalanced(stmts[|stmts| - 1], table, columns);
      assert AllBalanced(Flatten(batches)) ==> AllBalanced(Flatten(init)) && AllBalanced(last) by {
        BothBalanced(Flatten(init), last);
      }
    }
  }

  lemma BothBalanced(a: seq<string>, b: seq<string>)
    ensures AllBalanced(a + b) <==> AllBalanced(a) && AllBalanced(b)
  {
    assert forall row :: row in a + b <==> row in a || row in b;
  }

  lemma ReadStatementBalanced(stmt: string, table: string, columns: string)
    ensures ReadStatement(stmt, table, columns).Some? ==> AllBalanced(ReadStatement(stmt, table, columns).value)
  {
    hide ReadRows, Balanced;
    var head := "insert into " + Escape.EscapeSqlText(table) + "(" + Escape.EscapeSqlText(columns) + ") values ";
    if ReadStatement(stmt, table, columns).Some? {
      ReadIsBalanced(stmt[|head|..|stmt| - 1]);
    }
  }

  /** glite_lbu_bufInsert with the error state of its database context and the statements executed. */
  class Buffer {
    const tableName: string
    const columns: string
    const rows: array<string>
    var recNum: nat
    var recSize: nat
    const sizeLimit: nat
    const recordLimit: nat
    var status: int
    var executed: seq<string>
    /** Every row given so far, and the batches they went to the database in. */
    ghost var given: seq<string>
    ghost var batches: seq<seq<string>>

    ghost predicate Valid()
      reads this, rows
    {
      && Consistent() && status == 0 && Split(given, sizeLimit, recordLimit) == (batches, rows[..recNum])
      && (recordLimit != 0 ==> recNum < recordLimit) && (sizeLimit != 0 ==> recSize < sizeLimit)
    }

    /** The rows buffered, their total length, and the statements of the batches. */
    ghost predicate Consistent()
      reads this, rows
    {
      && rows.Length == recordLimit && recNum <= recordLimit && recSize == Size(rows[..recNum])
      && NoneEmpty(batches) && executed == Statements(tableName, columns, batches)
    }

    /** glite_lbu_bufferedInsertInit. Room for rows is only made up to the record limit, so that 0 is not
        without a limit as documented, but without room. */
    constructor (table: string, sizeLimit: nat, recordLimit: nat, columns: string)
      ensures Valid() && fresh(rows) && given == [] && executed == []
      ensures tableName == table && this.columns == columns
      ensures this.sizeLimit == sizeLimit && this.recordLimit == recordLimit
    {
      tableName, this.columns, this.sizeLimit, this.recordLimit := table, columns, sizeLimit, recordLimit;
      rows := new string[recordLimit](_ => "");
      recNum, recSize, status, executed := 0, 0, 0, [];
      given, batches := [], [];
    }

    /** flush_bufferd_insert: one statement with all rows buffered. An error that says that a row is
        there already is cleared; with any other one the rows are gone all the same. */
    method Flush(outcome: Outcome)
      requires Consistent() && status == 0
      modifies this
      ensures Consistent() && recNum == 0 && given == old(given)
      ensures batches == if old(recNum) == 0 then old(batches) else old(batches) + [old(rows[..recNum])]
      ensures status == if old(recNum) == 0 || outcome == EEXIST then 0 else outcome
      ensures old(recNum) == 0 ==> executed == old(executed)
      ensures old(recNum) > 0 ==>
                && old(executed) < executed && |executed| == old(|executed|) + 1
                && (ReadStatement(executed[old(|executed|)], tableName, columns) == Some(old(rows[..recNum]))
                    <==> AllBalanced(old(rows[..recNum])))
    {
      if recNum == 0 {
        return;
      }
      hide ReadStatement, AllBalanced;
      StatementReadBack(tableName, columns, rows[..recNum]);
      var vals := "(" + rows[0] + ")";
      assert rows[..1] == [rows[0]];
      for i := 1 to recNum
        invariant vals == ValuesText(rows[..i])
      {
        assert rows[..i + 1][..i] == rows[..i];
        vals := vals + ",(" + rows[i] + ")";
      }
      var stmt := "insert into " + Escape.EscapeSqlText(tableName) + "(" + Escape.EscapeSqlText(columns) + ") values "
                  + vals + ";";
      executed := executed + [stmt];
      status := if outcome == EEXIST then 0 else outcome;
      batches := batches + [rows[..recNum]];
      recSize := 0;
      recNum := 0;
      assert executed == Statements(tableName, columns, batches);
    }

    /** glite_lbu_bufferedInsert. With a record limit of 0 it would write outside rows (RoomExactly). */
    method Insert(row: string, outcome: Outcome) returns (error: int)
      requires Valid() && recordLimit > 0
      modifies this, rows
      ensures Consistent() && given == old(given) + [row] && error == status
      ensures Split(given, sizeLimit, recordLimit) == (batches, rows[..recNum])
      ensures error == 0 ==> Valid()
      ensures batches == old(batches) || batches == old(batches) + [old(rows[..recNum]) + [row]]
      ensures error != 0 ==> error == outcome != EEXIST && |batches| == old(|batches|) + 1
    {
      ghost var before := rows[..recNum];
      rows[recNum] := row;
      recNum := recNum + 1;
      recSize := recSize + |row|;
      given := given + [row];
      assert rows[..recNum] == before + [row];
      assert rows[..recNum][..recNum - 1] == before && given[..|given| - 1] == old(given);
      if (sizeLimit != 0 && recSize >= sizeLimit) || (recordLimit != 0 && recNum >= recordLimit) {
        Flush(outcome);
        if status != 0 {
          return status;
        }
      }
      error := 0;
    }

    /** glite_lbu_bufferedInsertClose. */
    method Close(outcome: Outcome) returns (error: int)
      requires Valid()
      modifies this
      ensures Consistent() && given == old(given) && recNum == 0 && error == status
      ensures batches == old(batches) + (if old(recNum) == 0 then [] else [old(rows[..recNum])])
      ensures error == if old(recNum) == 0 || outcome == EEXIST then 0 else outcome
      ensures Flatten(batches) == given
      ensures ReadAll(executed, tableName, columns) == Some(given) <==> AllBalanced(given)
    {
      hide ReadStatement, ReadAll, AllBalanced;
      SplitConserves(given, sizeLimit, recordLimit);
      assert (batches + [rows[..recNum]])[..|batches|] == batches;
      Flush(outcome);
      StatementsReadBack(tableName, columns, batches);
      error := status;
    }
  }

  /** Between calls there is room for a row exactly when the record limit is not 0. */
  lemma RoomExactly(bi: Buffer)
    requires bi.Valid()
    ensures bi.recNum < bi.rows.Length <==> bi.recordLimit > 0
  {
  }

  lemma PrefixBalanced(some: seq<string>, rows: seq<string>)
    requires some <= rows
    ensures AllBalanced(rows) ==> AllBalanced(some)
  {
    assert forall row :: row in some ==> row in rows;
  }

  /** The life of a buffer: all rows, then Close, against any answers of the database. Unless one is an
      error, a reader of the statements executed finds the rows given, once each and in order, if and only
      if they can be told apart; with one it finds the first of them. */
  method InsertAll(table: string, columns: string, sizeLimit: nat, recordLimit: nat, rows: seq<string>,
                   outcomes: seq<Outcome>, last: Outcome)
    returns (error: int, executed: seq<string>, ghost batches: seq<seq<string>>)
    requires (recordLimit > 0 || rows == []) && |outcomes| >= |rows|
    ensures NoneEmpty(batches) && executed == Statements(table, columns, batches)
    ensures error == 0 ==> Flatten(batches) == rows
    ensures Flatten(batches) <= rows
    ensures error == 0 ==> (ReadAll(executed, table, columns) == Some(rows) <==> AllBalanced(rows))
    ensures AllBalanced(rows) ==>
              ReadAll(executed, table, columns).Some? && ReadAll(executed, table, columns).value <= rows
    ensures (forall o :: o in outcomes + [last] ==> o in {0, EEXIST}) ==> error == 0
  {
    hide Split, Flatten, Size, StatementText, ReadStatement, ReadAll, AllBalanced;
    var bi := new Buffer(table, sizeLimit, recordLimit, columns);
    for i := 0 to |rows|
      invariant bi.Valid() && fresh(bi) && fresh(bi.rows) && bi.given == rows[..i]
      invariant bi.tableName == table && bi.columns == columns
    {
      error := bi.Insert(rows[i], outcomes[i]);
      assert rows[..i] + [rows[i]] == rows[..i + 1];
      if error != 0 {
        SplitConserves(bi.given, bi.sizeLimit, bi.recordLimit);
        assert outcomes[i] in outcomes + [last];
        executed, batches := bi.executed, bi.batches;
        PrefixBalanced(Flatten(batches), rows);
        StatementsReadBack(table, columns, batches);
        return;
      }
    }
    assert rows[..|rows|] == rows;
    assert last in outcomes + [last];
    error := bi.Close(last);
    executed, batches := bi.executed, bi.batches;
    StatementsReadBack(table, columns, batches);
  }
}
