/** A reader of lists of tuples, as in "(1,'a'),(2,'b')". */
module ValueLists {
  import opened CText

  /** Where the reader is in a tuple: between literals inside so many more parentheses, inside a quoted
      literal, or after a backslash there. */
  datatype Place = Between(depth: nat) | Quoted(depth: nat) | Escaped(depth: nat)

  /** The place after a character; None when it closes a parenthesis that the tuple has not opened. */
  function After(p: Place, c: char): Option<Place> {
    match p
    case Between(d) =>
      if c == '(' then Some(Between(d + 1))
      else if c == ')' then (if d == 0 then None else Some(Between(d - 1)))
      else if c == '\'' then Some(Quoted(d))
      else Some(p)
    case Quoted(d) => if c == '\\' then Some(Escaped(d)) else if c == '\'' then Some(Between(d)) else Some(p)
    case Escaped(d) => Some(Quoted(d))
  }

  function Scan(s: string, p: Place): Option<Place> {
    if s == "" then Some(p)
    else if After(p, s[0]) == None then None
    else Scan(s[1..], After(p, s[0]).value)
  }

  /** A row that can be told from what follows it: its quotes are closed, and its parentheses are those
      that it opens. */
  predicate Balanced(row: string) {
    Scan(row, Between(0)) == Some(Between(0))
  }

  ghost predicate AllBalanced(rows: seq<string>) {
    forall row :: row in rows ==> Balanced(row)
  }

  /** The number of characters in front of the parenthesis that closes the tuple. */
  function RowLength(s: string, p: Place): (n: Option<nat>)
    ensures n.Some? ==> n.value < |s|
  {
    if s == "" then None
    else if p == Between(0) && s[0] == ')' then Some(0)
    else if After(p, s[0]) == None then None
    else
      var rest := RowLength(s[1..], After(p, s[0]).value);
      if rest == None then None else Some(rest.value + 1)
  }

  /** The rows of a list of tuples; None when the text is none. */
  function ReadRows(text: string): Option<seq<string>> {
    if text == "" || text[0] != '(' then None
    else
      var n := RowLength(text[1..], Between(0));
      if n == None then None
      else
        var row, rest := text[1..][..n.value], text[n.value + 2..];
        if rest == "" then Some([row])
        else if rest[0] != ',' || ReadRows(rest[1..]) == None then None
        else Some([row] + ReadRows(rest[1..]).value)
  }

  lemma {:induction false} RowEnds(row: string, rest: string, p: Place)
    requires Scan(row, p) == Some(Between(0))
    ensures RowLength(row + ")" + rest, p) == Some(|row|)
    decreases |row|
  {
    var s := row + ")" + rest;
    if row != "" {
      assert s[0] == row[0] && s[1..] == row[1..] + ")" + rest;
      RowEnds(row[1..], rest, After(p, row[0]).value);
    }
  }

  lemma {:induction false} EndIsBalanced(s: string, p: Place)
    requires RowLength(s, p).Some?
    ensures Scan(s[..RowLength(s, p).value], p) == Some(Between(0))
    decreases |s|
  {
    if !(p == Between(0) && s[0] == ')') {
      var n := RowLength(s, p).value;
      EndIsBalanced(s[1..], After(p, s[0]).value);
      assert s[..n][1..] == s[1..][..n - 1];
    }
  }

  lemma ReadFirst(row: string, rest: string)
    requires Balanced(row)
    ensures var text := "(" + row + ")" + rest;
            && ReadRows("(" + row + ")") == Some([row])
            && (rest != "" && rest[0] == ',' && ReadRows(rest[1..]).Some? ==>
                  ReadRows(text) == Some([row] + ReadRows(rest[1..]).value))
  {
    hide RowLength, Scan;
    var text, single := "(" + row + ")" + rest, "(" + row + ")";
    RowEnds(row, rest, Between(0));
    RowEnds(row, "", Between(0));
    assert text[1..] == row + ")" + rest && text[|row| + 2..] == rest;
    assert single[1..] == row + ")" + "" && single[|row| + 2..] == "";
    assert (row + ")" + rest)[..|row|] == row == (row + ")" + "")[..|row|];
  }

  /** What is read is balanced. */
  lemma {:induction false} ReadIsBalanced(text: string)
    requires ReadRows(text).Some?
    ensures AllBalanced(ReadRows(text).value)
    decreases |text|
  {
    hide RowLength, Balanced;
    var n := RowLength(text[1..], Between(0)).value;
    EndIsBalanced(text[1..], Between(0));
    assert Balanced(text[1..][..n]) by {
      BalancedIs(text[1..][..n]);
    }
    var rest := text[n + 2..];
    if rest != "" {
      ReadIsBalanced(rest[1..]);
    }
  }

  lemma BalancedIs(row: string)
    ensures Balanced(row) == (Scan(row, Between(0)) == Some(Between(0)))
  {
  }
}
