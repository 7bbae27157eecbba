/** The sheet view's CSV: a character-level quoting parser and the printer it answers to,
    after section 2 of RFC 4180. */
module Csv {

  type Row = seq<string>

  datatype State = State(rows: seq<Row>, row: Row, cell: string, quoted: bool)

  const START := State([], [], "", false)

  /** Every CRLF becomes a bare line feed, left to right. */
  function Unix(text: string): string {
    if text == [] then []
    else if |text| > 1 && text[0] == '\r' && text[1] == '\n' then "\n" + Unix(text[2..])
    else [text[0]] + Unix(text[1..])
  }

  /** The parser's meaning: what reading the rest of the source from a state leads to. */
  function Scan(src: string, s: State): State
    decreases |src|
  {
    if src == [] then s else
    var ch := src[0];
    if s.quoted then
      if ch != '"' then Scan(src[1..], s.(cell := s.cell + [ch]))
      else if |src| > 1 && src[1] == '"' then Scan(src[2..], s.(cell := s.cell + "\""))
      else Scan(src[1..], s.(quoted := false))
    else if ch == '"' then Scan(src[1..], s.(quoted := true))
    else if ch == ',' then Scan(src[1..], s.(row := s.row + [s.cell], cell := ""))
    else if ch == '\n' then Scan(src[1..], State(s.rows + [s.row + [s.cell]], [], "", false))
    else Scan(src[1..], s.(cell := s.cell + [ch]))
  }

  /** At the end of input a started row is kept; an empty one leaves no trace. */
  function Finish(s: State): seq<Row> {
    if s.cell != "" || |s.row| > 0 then s.rows + [s.row + [s.cell]] else s.rows
  }

  function Parsed(text: string): seq<Row> {
    Finish(Scan(Unix(text), START))
  }

  method ParseCsv(text: string) returns (rows: seq<Row>)
    ensures rows == Parsed(text)
  {
    rows := [];
    var row: Row, cell, quoted := [], "", false;
    var src := Unix(text);
    var i := 0;
    while i < |src|
      invariant 0 <= i <= |src|
      invariant Scan(src[i..], State(rows, row, cell, quoted)) == Scan(src, START)
    {
      var ch := src[i];
      assert src[i..][0] == ch && src[i..][1..] == src[i + 1..];
      if quoted {
        if ch == '"' {
          if i + 1 < |src| && src[i + 1] == '"' {
            assert src[i..][2..] == src[i + 2..];
            cell := cell + "\"";
            i := i + 1;
          } else {
            quoted := false;
          }
        } else {
          cell := cell + [ch];
        }
      } else if ch == '"' {
        quoted := true;
      } else if ch == ',' {
        row := row + [cell];
        cell := "";
      } else if ch == '\n' {
        row := row + [cell];
        rows := rows + [row];
        row := [];
        cell := "";
      } else {
        cell := cell + [ch];
      }
      i := i + 1;
    }
    assert src[i..] == [];
    if cell != "" || |row| > 0 {
      row := row + [cell];
      rows := rows + [row];
    }
  }

  // ---- The printer ----

  predicate NeedsQuotes(value: string) {
    '"' in value || ',' in value || '\n' in value
  }

  function Doubled(value: string): string {
    if value == [] then []
    else (if value[0] == '"' then "\"\"" else [value[0]]) + Doubled(value[1..])
  }

  function Escape(value: string): string {
    if NeedsQuotes(value) then "\"" + Doubled(value) + "\"" else value
  }

  function RowText(row: Row): string {
    if row == [] then ""
    else if |row| == 1 then Escape(row[0])
    else Escape(row[0]) + ("," + RowText(row[1..]))
  }

  function SerializeCsv(rows: seq<Row>): string {
    if rows == [] then ""
    else if |rows| == 1 then RowText(rows[0])
    else RowText(rows[0]) + ("\n" + SerializeCsv(rows[1..]))
  }
}
