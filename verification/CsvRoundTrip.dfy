/** What survives printing a sheet and parsing it back, for every sheet. */
module CsvRoundTrip {
  import opened Csv

  // ---- The state machine undoes the printer ----

  predicate Boundary(rest: string) {
    rest == [] || rest[0] == ',' || rest[0] == '\n'
  }

  lemma {:induction false} ScanPlain(value: string, rest: string, s: State)
    requires !s.quoted && !NeedsQuotes(value)
    ensures Scan(value + rest, s) == Scan(rest, s.(cell := s.cell + value))
    decreases |value|
  {
    if value == [] {
      assert value + rest == rest && s.cell + value == s.cell;
    } else {
      assert (value + rest)[1..] == value[1..] + rest;
      assert s.cell + [value[0]] + value[1..] == s.cell + value;
      ScanPlain(value[1..], rest, s.(cell := s.cell + [value[0]]));
    }
  }

  lemma {:induction false} ScanQuoted(value: string, rest: string, s: State)
    requires s.quoted && Boundary(rest)
    ensures Scan(Doubled(value) + ("\"" + rest), s) == Scan(rest, s.(cell := s.cell + value, quoted := false))
    decreases |value|
  {
    var src := Doubled(value) + ("\"" + rest);
    if value == [] {
      assert src == "\"" + rest && src[1..] == rest && s.cell + value == s.cell;
    } else {
      var s' := s.(cell := s.cell + [value[0]]);
      var tail := Doubled(value[1..]) + ("\"" + rest);
      assert s.cell + [value[0]] + value[1..] == s.cell + value;
      if value[0] == '"' {
        assert src == "\"\"" + tail && src[2..] == tail;
      } else {
        assert src == [value[0]] + tail && src[1..] == tail;
      }
      ScanQuoted(value[1..], rest, s');
    }
  }

  lemma {:induction false} ScanCell(value: string, rest: string, s: State)
    requires !s.quoted && s.cell == "" && Boundary(rest)
    ensures Scan(Escape(value) + rest, s) == Scan(rest, s.(cell := value))
  {
    assert s.cell + value == value;
    if NeedsQuotes(value) {
      assert Escape(value) + rest == "\"" + (Doubled(value) + ("\"" + rest));
      assert (Escape(value) + rest)[1..] == Doubled(value) + ("\"" + rest);
      ScanQuoted(value, rest, s.(quoted := true));
    } else {
      ScanPlain(value, rest, s);
    }
  }

  /** A row with no cells prints like a row with one empty cell. */
  function FilledRow(row: Row): (r: Row)
    ensures r != [] && RowText(r) == RowText(row)
  {
    if row == [] then [""] else row
  }

  lemma {:induction false} ScanComma(rest: string, s: State)
    requires !s.quoted
    ensures Scan("," + rest, s) == Scan(rest, s.(row := s.row + [s.cell], cell := ""))
  {
    assert ("," + rest)[1..] == rest;
  }

  lemma {:induction false} RowTextMore(row: Row, rest: string)
    requires |row| > 1
    ensures RowText(row) + rest == Escape(row[0]) + ("," + (RowText(row[1..]) + rest))
  {
    hide Escape;
  }

  /** The state after a row's cells are read, the last one not yet ended. */
  function AfterCells(row: Row, s: State): State
    requires row != []
  {
    s.(row := s.row + row[..|row| - 1], cell := row[|row| - 1])
  }

  lemma {:induction false} AfterFirstCell(row: Row, s: State)
    requires |row| > 1
    ensures AfterCells(row[1..], s.(row := s.row + [row[0]], cell := "")) == AfterCells(row, s)
  {
    assert (s.row + [row[0]]) + row[1..][..|row| - 2] == s.row + row[..|row| - 1];
  }

  lemma {:induction false} ScanFirstCell(row: Row, rest: string, s: State)
    requires !s.quoted && s.cell == "" && |row| > 1
    ensures Scan(RowText(row) + rest, s)
      == Scan(RowText(row[1..]) + rest, s.(row := s.row + [row[0]], cell := ""))
  {
    var more := RowText(row[1..]) + rest;
    assert Boundary("," + more);
    RowTextMore(row, rest);
    hide *;
    ScanCell(row[0], "," + more, s);
    ScanComma(more, s.(cell := row[0]));
  }

  lemma {:induction false} ScanRow(row: Row, rest: string, s: State)
    requires !s.quoted && s.cell == "" && (rest == [] || rest[0] == '\n') && row != []
    ensures Scan(RowText(row) + rest, s) == Scan(rest, AfterCells(row, s))
    decreases |row|
  {
    if |row| == 1 {
      hide Scan, Escape;
      ScanCell(row[0], rest, s);
      assert s.row + row[..0] == s.row;
    } else {
      hide *;
      ScanFirstCell(row, rest, s);
      AfterFirstCell(row, s);
      ScanRow(row[1..], rest, s.(row := s.row + [row[0]], cell := ""));
    }
  }

  function Filled(rows: seq<Row>): (r: seq<Row>)
    ensures |r| == |rows| && forall i :: 0 <= i < |r| ==> r[i] == FilledRow(rows[i])
  {
    seq(|rows|, i requires 0 <= i < |rows| => FilledRow(rows[i]))
  }

  /** A last row holding one empty cell prints as nothing after the last line feed. */
  function DropTail(rows: seq<Row>): seq<Row> {
    if rows != [] && rows[|rows| - 1] == [""] then rows[..|rows| - 1] else rows
  }

  lemma {:induction false} ScanLineFeed(rest: string, s: State)
    requires !s.quoted
    ensures Scan("\n" + rest, s) == Scan(rest, State(s.rows + [s.row + [s.cell]], [], "", false))
  {
    assert ("\n" + rest)[1..] == rest;
  }

  lemma {:induction false} FinishRow(row: Row, done: seq<Row>)
    requires row != []
    ensures Finish(State(done, row[..|row| - 1], row[|row| - 1], false)) == done + DropTail([row])
  {
    assert row == row[..|row| - 1] + [row[|row| - 1]];
  }

  lemma {:induction false} ScanLine(row: Row, more: string, done: seq<Row>)
    requires row != []
    ensures Scan(RowText(row) + ("\n" + more), State(done, [], "", false))
      == Scan(more, State(done + [row], [], "", false))
  {
    var s := State(done, [], "", false);
    ScanRow(row, "\n" + more, s);
    ScanLineFeed(more, s.(row := row[..|row| - 1], cell := row[|row| - 1]));
    hide Scan, RowText;
    assert [] + row[..|row| - 1] == row[..|row| - 1];
    assert row == row[..|row| - 1] + [row[|row| - 1]];
  }

  lemma {:induction false} ScanLastRow(row: Row, done: seq<Row>)
    requires row != []
    ensures Finish(Scan(RowText(row), State(done, [], "", false))) == done + DropTail([row])
  {
    ScanRow(row, "", State(done, [], "", false));
    FinishRow(row, done);
    assert RowText(row) + "" == RowText(row) && [] + row[..|row| - 1] == row[..|row| - 1];
  }

  lemma {:induction false} DropTailAfter(row: Row, rest: seq<Row>, done: seq<Row>)
    requires rest != []
    ensures done + [row] + DropTail(rest) == done + DropTail([row] + rest)
  {
  }

  lemma {:induction false} ScanRows(rows: seq<Row>, done: seq<Row>)
    ensures Finish(Scan(SerializeCsv(rows), State(done, [], "", false))) == done + DropTail(Filled(rows))
    decreases |rows|
  {
    if rows != [] {
      var row := FilledRow(rows[0]);
      if |rows| == 1 {
        assert Filled(rows) == [row] && SerializeCsv(rows) == RowText(rows[0]) == RowText(row);
        hide *;
        ScanLastRow(row, done);
      } else {
        assert Filled(rows) == [row] + Filled(rows[1..]);
        assert SerializeCsv(rows) == RowText(row) + ("\n" + SerializeCsv(rows[1..]));
        assert Filled(rows[1..]) != [];
        hide *;
        ScanLine(row, SerializeCsv(rows[1..]), done);
        ScanRows(rows[1..], done + [row]);
        DropTailAfter(row, Filled(rows[1..]), done);
      }
    }
  }

  // ---- Line endings ----

  predicate Meets(a: string, b: string) {
    a != [] && b != [] && a[|a| - 1] == '\r' && b[0] == '\n'
  }

  lemma {:induction false} UnixFirst(c: char, rest: string)
    ensures if c == '\r' && rest != [] && rest[0] == '\n' then Unix([c] + rest) == "\n" + Unix(rest[1..])
      else Unix([c] + rest) == [c] + Unix(rest)
  {
    assert ([c] + rest)[1..] == rest;
    if rest != [] {
      assert ([c] + rest)[2..] == rest[1..];
    }
  }

  lemma {:induction false} Peel(a: string, b: string)
    requires a != []
    ensures a == [a[0]] + a[1..] && a + b == [a[0]] + (a[1..] + b)
    ensures |a| > 1 ==> a[1..][0] == (a[1..] + b)[0] == a[1] && (a[1..] + b)[1..] == a[2..] + b && a[1..][1..] == a[2..]
    ensures !Meets(a, b) ==> !Meets(a[1..], b) && (|a| > 1 ==> !Meets(a[2..], b))
  {
  }

  lemma {:induction false} Regroup(a: string, b: string, c: string)
    ensures a + (b + c) == a + b + c
  {
  }

  lemma {:induction false} UnixEmpty(b: string)
    ensures Unix([] + b) == Unix([]) + Unix(b)
  {
    assert [] + b == b;
  }

  lemma {:induction false} UnixJoin(a: string, b: string)
    requires !Meets(a, b)
    ensures Unix(a + b) == Unix(a) + Unix(b)
    decreases |a|
  {
    if a == [] {
      UnixEmpty(b);
    } else if |a| > 1 && a[0] == '\r' && a[1] == '\n' {
      Peel(a, b);
      hide *;
      UnixFirst(a[0], a[1..]);
      UnixFirst(a[0], a[1..] + b);
      UnixJoin(a[2..], b);
      Regroup("\n", Unix(a[2..]), Unix(b));
    } else {
      Peel(a, b);
      assert |a| == 1 && a[0] == '\r' && b != [] ==> b[0] != '\n' && (a[1..] + b)[0] == b[0];
      hide *;
      UnixFirst(a[0], a[1..]);
      UnixFirst(a[0], a[1..] + b);
      UnixJoin(a[1..], b);
      Regroup([a[0]], Unix(a[1..]), Unix(b));
    }
  }

  lemma {:induction false} UnixKeepsQuoting(value: string)
    ensures NeedsQuotes(Unix(value)) <==> NeedsQuotes(value)
    ensures '\n' !in value ==> Unix(value) == value
    decreases |value|
  {
    if value != [] {
      if |value| > 1 && value[0] == '\r' && value[1] == '\n' {
        assert Unix(value)[0] == '\n' && value[1] in value;
      } else {
        UnixKeepsQuoting(value[1..]);
        assert value == [value[0]] + value[1..];
      }
    }
  }

  function DoubledChar(c: char): string {
    if c == '"' then "\"\"" else [c]
  }

  lemma {:induction false} UnixDoubledChar(c: char)
    ensures Unix(DoubledChar(c)) == DoubledChar(c)
  {
    UnixFirst(c, "");
    UnixFirst(c, [c]);
    assert [c] + "" == [c] && [c] + [c] == [c, c];
  }

  lemma {:induction false} DoubledFirst(c: char, rest: string)
    ensures Doubled([c] + rest) == DoubledChar(c) + Doubled(rest)
  {
    assert ([c] + rest)[1..] == rest;
  }

  /** Rewriting line endings and doubling quotes can be done in either order. */
  lemma {:induction false} UnixDoubled(value: string)
    ensures Unix(Doubled(value)) == Doubled(Unix(value))
    decreases |value|
  {
    if value != [] {
      var c, rest := value[0], value[1..];
      assert value == [c] + rest;
      DoubledFirst(c, rest);
      DoubledStart(rest);
      UnixFirst(c, rest);
      if c == '\r' && rest != [] && rest[0] == '\n' {
        UnixDoubled(rest[1..]);
        DoubledFirst(rest[0], rest[1..]);
        DoubledFirst('\n', Unix(rest[1..]));
        hide Unix, Doubled;
        assert rest == [rest[0]] + rest[1..];
        UnixFirst('\r', Doubled(rest));
        assert Doubled(rest)[1..] == Doubled(rest[1..]);
      } else {
        UnixDoubled(rest);
        UnixDoubledChar(c);
        DoubledFirst(c, Unix(rest));
        hide Unix, Doubled;
        UnixJoin(DoubledChar(c), Doubled(rest));
      }
    }
  }

  lemma {:induction false} DoubledStart(value: string)
    ensures value == [] ==> Doubled(value) == []
    ensures value != [] ==> Doubled(value) != [] && Doubled(value)[0] == value[0]
  {
  }

  lemma {:induction false} UnixEscape(value: string)
    ensures Unix(Escape(value)) == Escape(Unix(value))
  {
    UnixKeepsQuoting(value);
    if NeedsQuotes(value) {
      UnixDoubled(value);
      UnixJoin("\"" + Doubled(value), "\"");
      UnixJoin("\"", Doubled(value));
      assert Unix("\"") == "\"";
    }
  }

  function UnixRow(row: Row): (r: Row)
    ensures |r| == |row| && forall i :: 0 <= i < |r| ==> r[i] == Unix(row[i])
  {
    seq(|row|, i requires 0 <= i < |row| => Unix(row[i]))
  }

  lemma {:induction false} UnixRowText(row: Row)
    ensures Unix(RowText(row)) == RowText(UnixRow(row))
    decreases |row|
  {
    if |row| == 1 {
      UnixEscape(row[0]);
    } else if |row| > 1 {
      var more := "," + RowText(row[1..]);
      UnixRowText(row[1..]);
      UnixEscape(row[0]);
      UnixJoin(Escape(row[0]), more);
      UnixJoin(",", RowText(row[1..]));
      assert Unix(",") == ",";
      assert UnixRow(row)[1..] == UnixRow(row[1..]);
    }
  }

  /** The last cell of a row, printed bare, ends in a carriage return that will meet the line
      feed after the row. */
  predicate LosesReturn(row: Row) {
    row != [] && var last := row[|row| - 1];
    last != [] && last[|last| - 1] == '\r' && !NeedsQuotes(last)
  }

  function WithoutReturn(row: Row): Row
    requires LosesReturn(row)
  {
    var last := row[|row| - 1];
    row[..|row| - 1] + [last[..|last| - 1]]
  }

  lemma {:induction false} RowTextEnd(row: Row)
    ensures RowText(row) != [] && RowText(row)[|RowText(row)| - 1] == '\r' <==> LosesReturn(row)
    decreases |row|
  {
    if |row| > 1 {
      RowTextEnd(row[1..]);
      assert RowText(row) == Escape(row[0]) + ("," + RowText(row[1..]));
      hide RowText, Escape;
      assert row[1..][|row| - 2] == row[|row| - 1];
    }
  }

  lemma {:induction false} RowTextWithoutReturn(row: Row)
    requires LosesReturn(row)
    ensures RowText(row) == RowText(WithoutReturn(row)) + "\r"
    decreases |row|
  {
    var bare := WithoutReturn(row);
    if |row| == 1 {
      assert RowText(bare) == row[0][..|row[0]| - 1];
      assert row[0] == row[0][..|row[0]| - 1] + "\r";
    } else {
      assert LosesReturn(row[1..]) && bare[1..] == WithoutReturn(row[1..]) && bare[0] == row[0] && |bare| == |row|;
      assert RowText(bare) == Escape(row[0]) + ("," + RowText(bare[1..]));
      assert RowText(row) == Escape(row[0]) + ("," + RowText(row[1..]));
      hide *;
      RowTextWithoutReturn(row[1..]);
    }
  }

  /** How a row reads back: line endings inside cells are rewritten, and a bare trailing carriage
      return is taken for half of the line ending that follows the row. */
  function Settled(row: Row, isLast: bool): Row {
    UnixRow(if LosesReturn(row) && !isLast then WithoutReturn(row) else row)
  }

  function SettledRows(rows: seq<Row>): (r: seq<Row>)
    ensures |r| == |rows|
    ensures forall i :: 0 <= i < |r| ==> r[i] == Settled(rows[i], i == |rows| - 1)
  {
    seq(|rows|, i requires 0 <= i < |rows| => Settled(rows[i], i == |rows| - 1))
  }

  lemma {:induction false} UnixLine(row: Row, rest: string)
    ensures Unix(RowText(row) + ("\n" + rest)) == RowText(Settled(row, false)) + ("\n" + Unix(rest))
  {
    RowTextEnd(row);
    UnixJoin("\n", rest);
    assert Unix("\n") == "\n";
    if LosesReturn(row) {
      var bare := RowText(WithoutReturn(row));
      RowTextWithoutReturn(row);
      assert RowText(row) + ("\n" + rest) == bare + ("\r\n" + rest);
      UnixJoin(bare, "\r\n" + rest);
      assert ("\r\n" + rest)[2..] == rest;
      UnixRowText(WithoutReturn(row));
    } else {
      UnixJoin(RowText(row), "\n" + rest);
      UnixRowText(row);
    }
  }

  lemma {:induction false} UnixSerialized(rows: seq<Row>)
    ensures Unix(SerializeCsv(rows)) == SerializeCsv(SettledRows(rows))
    decreases |rows|
  {
    if |rows| == 1 {
      UnixRowText(rows[0]);
    } else if |rows| > 1 {
      UnixLine(rows[0], SerializeCsv(rows[1..]));
      UnixSerialized(rows[1..]);
      assert SettledRows(rows)[1..] == SettledRows(rows[1..]);
    }
  }

  // ---- The round trip ----

  /** For every sheet whatsoever, exactly what printing and parsing it gives. */
  lemma {:induction false} PrintThenParse(rows: seq<Row>)
    ensures Parsed(SerializeCsv(rows)) == DropTail(Filled(SettledRows(rows)))
  {
    var settled := SettledRows(rows);
    assert START == State([], [], "", false);
    assert Parsed(SerializeCsv(rows)) == Finish(Scan(Unix(SerializeCsv(rows)), START));
    hide *;
    UnixSerialized(rows);
    ScanRows(settled, []);
    assert [] + DropTail(Filled(settled)) == DropTail(Filled(settled));
  }

  predicate HasCrlf(value: string) {
    exists i :: 0 <= i < |value| - 1 && value[i] == '\r' && value[i + 1] == '\n'
  }

  /** Sheets a caller can check for before saving. */
  predicate Clean(rows: seq<Row>) {
    CleanRows(rows) && (rows != [] ==> rows[|rows| - 1] != [""])
  }

  predicate CleanRows(rows: seq<Row>) {
    forall i :: 0 <= i < |rows| ==> CleanRow(rows[i], i == |rows| - 1)
  }

  predicate CleanRow(row: Row, isLast: bool) {
    row != [] && (forall c <- row :: !HasCrlf(c)) && (LosesReturn(row) ==> isLast)
  }

  lemma {:induction false} UnixFixes(value: string)
    ensures |Unix(value)| <= |value|
    ensures Unix(value) == value <==> !HasCrlf(value)
    decreases |value|
  {
    if value != [] {
      if |value| > 1 && value[0] == '\r' && value[1] == '\n' {
        UnixFixes(value[2..]);
      } else {
        UnixFixes(value[1..]);
        assert value == [value[0]] + value[1..];
        if HasCrlf(value) {
          var i :| 0 <= i < |value| - 1 && value[i] == '\r' && value[i + 1] == '\n';
          assert value[1..][i - 1] == '\r' && value[1..][i] == '\n';
        }
      }
    }
  }

  lemma {:induction false} SettledFixes(row: Row, isLast: bool)
    ensures FilledRow(Settled(row, isLast)) == row <==> CleanRow(row, isLast)
  {
    var r := Settled(row, isLast);
    forall i | 0 <= i < |row| ensures Unix(row[i]) == row[i] <==> !HasCrlf(row[i]) {
      UnixFixes(row[i]);
    }
    if LosesReturn(row) && !isLast {
      var n := |row| - 1;
      UnixFixes(WithoutReturn(row)[n]);
      assert |r[n]| < |row[n]|;
    } else if forall c <- row :: !HasCrlf(c) {
      assert r == row;
    }
  }

  lemma {:induction false} FilledFixes(rows: seq<Row>)
    ensures Filled(SettledRows(rows)) == rows <==> CleanRows(rows)
    ensures CleanRows(rows[..|rows|]) == CleanRows(rows)
  {
    var back := Filled(SettledRows(rows));
    assert rows[..|rows|] == rows;
    forall i | 0 <= i < |rows| ensures back[i] == rows[i] <==> CleanRow(rows[i], i == |rows| - 1) {
      SettledFixes(rows[i], i == |rows| - 1);
    }
    hide CleanRow, Filled, SettledRows;
    if CleanRows(rows) {
      assert back == rows;
    }
  }

  /** A sheet survives printing and parsing if and only if it is clean. */
  lemma {:induction false} RoundTrip(rows: seq<Row>)
    ensures Parsed(SerializeCsv(rows)) == rows <==> Clean(rows)
  {
    PrintThenParse(rows);
    FilledFixes(rows);
    hide SerializeCsv, Parsed, CleanRows, Filled, SettledRows;
  }

  predicate NoReturns(row: Row) {
    forall c <- row :: '\r' !in c
  }

  lemma {:induction false} NoReturnsIsClean(row: Row)
    requires NoReturns(row)
    ensures !LosesReturn(row) && forall c <- row :: !HasCrlf(c)
  {
    assert row != [] ==> row[|row| - 1] in row;
  }

  /** Otherwise clean sheets, and they alone, lose exactly their last row if it is one empty cell. */
  lemma {:induction false} TrailingEmptyCellIsDropped(rows: seq<Row>)
    requires rows != [] && rows[|rows| - 1] == [""]
    ensures Parsed(SerializeCsv(rows)) == rows[..|rows| - 1] <==> CleanRows(rows)
  {
    hide *;
    PrintThenParse(rows);
    FilledFixes(rows);
    LastStaysBlank(rows);
    SameButLast(Filled(SettledRows(rows)), rows);
  }

  lemma {:induction false} SameButLast(a: seq<Row>, b: seq<Row>)
    requires |a| == |b| > 0 && a[|a| - 1] == b[|b| - 1] == [""]
    ensures DropTail(a) == b[..|b| - 1] <==> a == b
  {
    assert a == a[..|a| - 1] + [[""]] && b == b[..|b| - 1] + [[""]];
  }

  lemma {:induction false} LastStaysBlank(rows: seq<Row>)
    requires rows != [] && rows[|rows| - 1] == [""]
    ensures var back := Filled(SettledRows(rows)); |back| == |rows| && back[|rows| - 1] == [""]
  {
    var back := Filled(SettledRows(rows));
    var last := rows[|rows| - 1];
    SettledFixes(last, true);
    assert last[0] == "" && CleanRow(last, true);
  }

  // ---- Opening and saving without edits ----

  /** Rows as a parsed text without carriage returns yields them. */
  predicate Tidy(rows: seq<Row>) {
    forall r <- rows :: r != [] && NoReturns(r)
  }

  predicate TidyState(s: State) {
    Tidy(s.rows) && NoReturns(s.row) && '\r' !in s.cell
  }

  lemma {:induction false} ScanTidy(src: string, s: State)
    requires '\r' !in src && TidyState(s)
    ensures TidyState(Scan(src, s))
    decreases |src|
  {
    if src != [] {
      var ch := src[0];
      if s.quoted && ch == '"' && |src| > 1 && src[1] == '"' {
        ScanTidy(src[2..], s.(cell := s.cell + "\""));
      } else if s.quoted && ch == '"' {
        ScanTidy(src[1..], s.(quoted := false));
      } else if !s.quoted && ch == '"' {
        ScanTidy(src[1..], s.(quoted := true));
      } else if !s.quoted && ch == ',' {
        ScanTidy(src[1..], s.(row := s.row + [s.cell], cell := ""));
      } else if !s.quoted && ch == '\n' {
        ScanTidy(src[1..], State(s.rows + [s.row + [s.cell]], [], "", false));
      } else {
        ScanTidy(src[1..], s.(cell := s.cell + [ch]));
      }
    }
  }

  lemma {:induction false} ParsedIsTidy(text: string)
    requires '\r' !in Unix(text)
    ensures Tidy(Parsed(text))
  {
    ScanTidy(Unix(text), START);
    hide Scan, Unix;
  }

  lemma {:induction false} TidyIsClean(rows: seq<Row>)
    requires Tidy(rows) && (rows != [] ==> rows[|rows| - 1] != [""])
    ensures Clean(rows)
  {
    TidyRowsAreClean(rows);
    hide CleanRows, Tidy;
  }

  lemma {:induction false} TidyRowsAreClean(rows: seq<Row>)
    requires Tidy(rows)
    ensures CleanRows(rows)
  {
    forall i | 0 <= i < |rows| ensures CleanRow(rows[i], i == |rows| - 1) {
      assert rows[i] in rows;
      NoReturnsIsClean(rows[i]);
    }
    hide CleanRow, NoReturns;
  }

  /** Saving a sheet and opening it again. */
  function Saved(rows: seq<Row>): seq<Row> {
    Parsed(SerializeCsv(rows))
  }

  function SavedTimes(rows: seq<Row>, n: nat): seq<Row>
    decreases n
  {
    if n == 0 then rows else SavedTimes(Saved(rows), n - 1)
  }

  /** How many rows at the end hold one empty cell each. */
  function TrailingBlanks(rows: seq<Row>): (n: nat)
    ensures n <= |rows|
  {
    if rows == [] || rows[|rows| - 1] != [""] then 0 else 1 + TrailingBlanks(rows[..|rows| - 1])
  }

  /** One save of a tidy sheet drops its last row if that is one empty cell, and nothing else. */
  lemma {:induction false} OneSave(rows: seq<Row>)
    requires Tidy(rows)
    ensures Saved(rows) == DropTail(rows) && Tidy(Saved(rows))
    ensures Saved(rows) == rows <==> TrailingBlanks(rows) == 0
  {
    if rows != [] && rows[|rows| - 1] == [""] {
      TidyRowsAreClean(rows);
      hide SerializeCsv, Parsed, NoReturns, CleanRows;
      TrailingEmptyCellIsDropped(rows);
    } else {
      TidyIsClean(rows);
      hide SerializeCsv, Parsed, NoReturns, Clean;
      RoundTrip(rows);
    }
  }

  lemma {:induction false} SavesDropTrailingBlanks(rows: seq<Row>, n: nat)
    requires Tidy(rows)
    ensures var k := TrailingBlanks(rows);
      SavedTimes(rows, n) == rows[..|rows| - (if n <= k then n else k)]
    decreases n
  {
    if n == 0 {
      assert rows[..|rows|] == rows;
    } else {
      assert SavedTimes(rows, n) == SavedTimes(Saved(rows), n - 1);
      hide *;
      OneSave(rows);
      SavesDropTrailingBlanks(Saved(rows), n - 1);
      OneDropMore(rows, n);
    }
  }

  lemma {:induction false} OneDropMore(rows: seq<Row>, n: nat)
    requires n > 0
    ensures var k, next := TrailingBlanks(rows), DropTail(rows);
      var k' := TrailingBlanks(next);
      next[..|next| - (if n - 1 <= k' then n - 1 else k')] == rows[..|rows| - (if n <= k then n else k)]
  {
  }

  /** Opening any text whose only carriage returns begin line endings, and saving it unedited n times,
      drops exactly the last n of its trailing rows of one empty cell, or all of them if they are
      fewer; so a save changes nothing if and only if the last row is not one empty cell. */
  lemma {:induction false} SavingUneditedDropsTrailingBlanks(text: string, n: nat)
    requires '\r' !in Unix(text)
    ensures var rows := Parsed(text);
      var k := TrailingBlanks(rows);
      && SavedTimes(rows, n) == rows[..|rows| - (if n <= k then n else k)]
      && (Saved(rows) == rows <==> rows == [] || rows[|rows| - 1] != [""])
  {
    ParsedIsTidy(text);
    hide Saved, Tidy, Parsed;
    OneSave(Parsed(text));
    SavesDropTrailingBlanks(Parsed(text), n);
  }
}
