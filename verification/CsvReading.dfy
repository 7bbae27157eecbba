/** What the parser reads from any text whatsoever, told by counting quotes: which characters end a cell,
    and what each cell holds. */
module CsvReading {
  import opened Csv

  // ---- The reading, without any state ----

  /** How many quotes come before position i. */
  function QuotesBefore(src: string, i: int): nat
    requires 0 <= i <= |src|
  {
    multiset(src[..i])['"']
  }

  /** Position i lies within quotes: an odd number of them precedes it. */
  predicate Inside(src: string, i: int)
    requires 0 <= i <= |src|
  {
    QuotesBefore(src, i) % 2 == 1
  }

  /** A comma or line feed ends a cell if and only if an even number of quotes precedes it. */
  predicate EndsCell(src: string, i: int)
    requires 0 <= i < |src|
  {
    (src[i] == ',' || src[i] == '\n') && !Inside(src, i)
  }

  /** A character stands for itself unless it is a quote; of the quotes only the first of a pair within
      quotes does. */
  predicate Stands(src: string, i: int)
    requires 0 <= i < |src|
  {
    src[i] != '"' || (Inside(src, i) && i + 1 < |src| && src[i + 1] == '"')
  }

  /** The characters of a stretch that stand for themselves. */
  function Content(src: string, a: int, b: int): string
    requires 0 <= a <= b <= |src|
    decreases b - a
  {
    if a == b then "" else Content(src, a, b - 1) + if Stands(src, b - 1) then [src[b - 1]] else ""
  }

  /** The positions before i at which cells end. */
  function Ends(src: string, i: int): seq<int>
    requires 0 <= i <= |src|
    decreases i
  {
    if i == 0 then [] else Ends(src, i - 1) + if EndsCell(src, i - 1) then [i - 1] else []
  }

  /** They are exactly the positions where a cell ends, in order. */
  lemma {:induction false} EndsExactly(src: string, i: int)
    requires 0 <= i <= |src|
    ensures var ends := Ends(src, i);
      && (forall j :: j in ends <==> 0 <= j < i && EndsCell(src, j))
      && (forall j, k :: 0 <= j < k < |ends| ==> ends[j] < ends[k])
    decreases i
  {
    hide EndsCell;
    if i > 0 {
      EndsExactly(src, i - 1);
      var before := Ends(src, i - 1);
      assert forall j :: 0 <= j < |before| ==> before[j] in before;
    }
  }

  /** Where the cell after the k-th end starts. */
  function Start(ends: seq<int>, k: int): int
    requires 0 <= k <= |ends|
  {
    if k == 0 then 0 else ends[k - 1] + 1
  }

  // ---- The cells of a sheet, one after the other ----

  datatype Read = Read(cell: string, lastOfRow: bool)

  function RowReads(row: Row): seq<Read> {
    seq(|row|, k requires 0 <= k < |row| => Read(row[k], k == |row| - 1))
  }

  /** All cells, row by row, each with whether its row ends there. */
  function Reads(rows: seq<Row>): seq<Read> {
    if rows == [] then [] else Reads(rows[..|rows| - 1]) + RowReads(rows[|rows| - 1])
  }

  /** The cells a state has finished. */
  function Finished(s: State): seq<Read> {
    Reads(s.rows) + OpenReads(s.row)
  }

  function OpenReads(row: Row): seq<Read> {
    seq(|row|, k requires 0 <= k < |row| => Read(row[k], false))
  }

  /** Cell k is what stands between the ends around it, and ends its row at a line feed. */
  ghost predicate ReadAt(src: string, ends: seq<int>, cells: seq<Read>, k: int)
    requires 0 <= k < |ends| <= |cells|
  {
    && 0 <= Start(ends, k) <= ends[k] < |src|
    && cells[k] == Read(Content(src, Start(ends, k), ends[k]), src[ends[k]] == '\n')
  }

  /** A state reached at position i: within quotes exactly if an odd number of them precedes, the cells
      before are read, and the one begun holds what stands since its start. */
  ghost predicate Reached(src: string, i: int, s: State)
    requires 0 <= i <= |src|
  {
    var ends, cells := Ends(src, i), Finished(s);
    && (s.quoted <==> Inside(src, i)) && |cells| == |ends|
    && (forall k :: 0 <= k < |ends| ==> ReadAt(src, ends, cells, k))
    && 0 <= Start(ends, |ends|) <= i && s.cell == Content(src, Start(ends, |ends|), i)
  }

  lemma {:induction false} OneMoreQuote(src: string, i: int)
    requires 0 <= i < |src|
    ensures QuotesBefore(src, i + 1) == QuotesBefore(src, i) + if src[i] == '"' then 1 else 0
    ensures Inside(src, i + 1) <==> (if src[i] == '"' then !Inside(src, i) else Inside(src, i))
  {
    assert src[..i + 1] == src[..i] + [src[i]];
    hide QuotesBefore;
    assert QuotesBefore(src, i + 1) == QuotesBefore(src, i) + (if src[i] == '"' then 1 else 0) by {
      assert QuotesBefore(src, i + 1) == multiset(src[..i + 1])['"'] by {
        QuotesAre(src, i + 1);
      }
      QuotesAre(src, i);
    }
  }

  lemma {:induction false} QuotesAre(src: string, i: int)
    requires 0 <= i <= |src|
    ensures QuotesBefore(src, i) == multiset(src[..i])['"']
  {
  }

  /** A character that ends no cell is added to the one begun if it stands for itself. */
  lemma {:induction false} StepWithin(src: string, i: int, s: State, s': State)
    requires 0 <= i < |src| && Reached(src, i, s) && !EndsCell(src, i)
    requires s'.rows == s.rows && s'.row == s.row && (s'.quoted <==> Inside(src, i + 1))
    requires s'.cell == s.cell + if Stands(src, i) then [src[i]] else ""
    ensures Reached(src, i + 1, s')
  {
    hide Stands, EndsCell, Inside, ReadAt;
    assert Ends(src, i + 1) == Ends(src, i) + [] == Ends(src, i);
  }

  lemma {:induction false} CommaFinishes(s: State)
    ensures Finished(s.(row := s.row + [s.cell], cell := "")) == Finished(s) + [Read(s.cell, false)]
  {
    assert OpenReads(s.row + [s.cell]) == OpenReads(s.row) + [Read(s.cell, false)];
  }

  lemma {:induction false} LineFinishes(s: State)
    ensures var s' := State(s.rows + [s.row + [s.cell]], [], "", false);
      Finished(s') == Finished(s) + [Read(s.cell, true)]
  {
    var row := s.row + [s.cell];
    assert (s.rows + [row])[..|s.rows|] == s.rows;
    assert RowReads(row) == OpenReads(s.row) + [Read(s.cell, true)];
    assert OpenReads([]) == [];
  }

  /** A character that ends a cell finishes the one begun. */
  lemma {:induction false} StepOver(src: string, i: int, s: State, s': State)
    requires 0 <= i < |src| && Reached(src, i, s) && EndsCell(src, i) && !s'.quoted && s'.cell == ""
    requires Finished(s') == Finished(s) + [Read(s.cell, src[i] == '\n')]
    ensures Reached(src, i + 1, s')
  {
    var ends, more := Ends(src, i), Ends(src, i + 1);
    assert more == ends + [i];
    OneMoreQuote(src, i);
    assert !Inside(src, i + 1);
    hide Stands, EndsCell, Inside, Ends, Finished;
    forall k | 0 <= k < |more| ensures ReadAt(src, more, Finished(s'), k) {
      assert k < |ends| ==> ReadAt(src, ends, Finished(s), k);
    }
  }

  /** Reading on from a state reached keeps the reading. */
  lemma {:induction false} ScanReaches(src: string, i: int, s: State)
    requires 0 <= i <= |src| && Reached(src, i, s)
    ensures Reached(src, |src|, Scan(src[i..], s))
    decreases |src| - i
  {
    if i == |src| {
      assert src[i..] == [];
    } else {
      ScanStep(src, i, s);
      if s.quoted && src[i] == '"' && i + 1 < |src| && src[i + 1] == '"' {
        ReachDoubled(src, i, s);
        hide *;
        ScanReaches(src, i + 2, s.(cell := s.cell + "\""));
      } else {
        ReachNext(src, i, s);
        hide *;
        ScanReaches(src, i + 1, Next(src[i], s));
      }
    }
  }

  /** What one character does, but for the first of a pair of quotes within quotes. */
  function Next(ch: char, s: State): State {
    if s.quoted then (if ch == '"' then s.(quoted := false) else s.(cell := s.cell + [ch]))
    else if ch == '"' then s.(quoted := true)
    else if ch == ',' then s.(row := s.row + [s.cell], cell := "")
    else if ch == '\n' then State(s.rows + [s.row + [s.cell]], [], "", false)
    else s.(cell := s.cell + [ch])
  }

  lemma {:induction false} ScanStep(src: string, i: int, s: State)
    requires 0 <= i < |src|
    ensures Scan(src[i..], s)
      == if s.quoted && src[i] == '"' && i + 1 < |src| && src[i + 1] == '"'
         then Scan(src[i + 2..], s.(cell := s.cell + "\"")) else Scan(src[i + 1..], Next(src[i], s))
  {
    var rest := src[i..];
    assert rest[0] == src[i] && rest[1..] == src[i + 1..];
    if |rest| > 1 {
      assert rest[1] == src[i + 1] && rest[2..] == src[i + 2..];
    }
  }

  lemma {:induction false} ReachDoubled(src: string, i: int, s: State)
    requires 0 <= i < |src| - 1 && Reached(src, i, s) && s.quoted && src[i] == src[i + 1] == '"'
    ensures Reached(src, i + 2, s.(cell := s.cell + "\""))
  {
    var once := s.(cell := s.cell + "\"", quoted := false);
    OneMoreQuote(src, i);
    OneMoreQuote(src, i + 1);
    assert Stands(src, i) && !Stands(src, i + 1) && !EndsCell(src, i) && !EndsCell(src, i + 1);
    assert once.cell + "" == once.cell;
    assert Inside(src, i) && !Inside(src, i + 1) && Inside(src, i + 2);
    hide Reached, Stands, EndsCell, Inside;
    StepWithin(src, i, s, once);
    StepWithin(src, i + 1, once, s.(cell := s.cell + "\""));
  }

  lemma {:induction false} ReachNext(src: string, i: int, s: State)
    requires 0 <= i < |src| && Reached(src, i, s)
    requires !(s.quoted && src[i] == '"' && i + 1 < |src| && src[i + 1] == '"')
    ensures Reached(src, i + 1, Next(src[i], s))
  {
    OneMoreQuote(src, i);
    assert s.quoted <==> Inside(src, i);
    hide Reached, Inside;
    if EndsCell(src, i) {
      CommaFinishes(s);
      LineFinishes(s);
      hide Finished;
      StepOver(src, i, s, Next(src[i], s));
    } else {
      assert s.cell + "" == s.cell;
      StepWithin(src, i, s, Next(src[i], s));
    }
  }

  // ---- The theorem ----

  /** The rows with the one begun last, a text's end standing for a line's. */
  function Sheet(text: string): seq<Row> {
    var s := Scan(Unix(text), START);
    s.rows + [s.row + [s.cell]]
  }

  /** For every text, cell by cell and row by row: of the rewritten text the commas and line feeds that an
      even number of quotes precedes end the cells, and the line feeds among them and the end of the text
      the rows; each cell holds what stands for itself between its ends: everything but quotes, and the
      first of each pair of quotes within quotes. */
  lemma {:induction false} CellsExactly(text: string)
    ensures var src := Unix(text);
      var ends, cells := Ends(src, |src|), Reads(Sheet(text));
      && |cells| == |ends| + 1 && (forall k :: 0 <= k < |ends| ==> ReadAt(src, ends, cells, k))
      && 0 <= Start(ends, |ends|) <= |src|
      && cells[|ends|] == Read(Content(src, Start(ends, |ends|), |src|), true)
  {
    hide *;
    var src := Unix(text);
    var s := Scan(src, START);
    StartIsReached(src);
    assert src[0..] == src;
    ScanReaches(src, 0, START);
    WholeSheet(src, s);
    SheetIs(text);
  }

  lemma {:induction false} SheetIs(text: string)
    ensures var s := Scan(Unix(text), START);
      Sheet(text) == s.rows + [s.row + [s.cell]]
  {
    hide Scan, Unix;
  }

  lemma {:induction false} StartIsReached(src: string)
    ensures Reached(src, 0, START)
  {
    assert Finished(START) == [] && multiset(src[..0])['"'] == 0;
  }

  lemma {:induction false} WholeSheet(src: string, s: State)
    requires Reached(src, |src|, s)
    ensures var ends, cells := Ends(src, |src|), Reads(s.rows + [s.row + [s.cell]]);
      && |cells| == |ends| + 1 && (forall k :: 0 <= k < |ends| ==> ReadAt(src, ends, cells, k))
      && 0 <= Start(ends, |ends|) <= |src|
      && cells[|ends|] == Read(Content(src, Start(ends, |ends|), |src|), true)
  {
    var ends, cells := Ends(src, |src|), Reads(s.rows + [s.row + [s.cell]]);
    LineFinishes(s);
    assert Finished(State(s.rows + [s.row + [s.cell]], [], "", false)) == cells + [] == cells by {
      assert OpenReads([]) == [];
    }
    assert cells == Finished(s) + [Read(s.cell, true)];
    hide Finished, Ends, Inside, OpenReads, Reads;
    forall k | 0 <= k < |ends| ensures ReadAt(src, ends, cells, k) {
      assert ReadAt(src, ends, Finished(s), k);
    }
  }

  /** Of that sheet the parser drops a last row of one empty cell. */
  lemma {:induction false} ParsedIsTheSheet(text: string)
    ensures var sheet := Sheet(text);
      Parsed(text) == if sheet[|sheet| - 1] == [""] then sheet[..|sheet| - 1] else sheet
  {
    hide Scan, Unix;
    var s := Scan(Unix(text), START);
    assert Sheet(text)[..|s.rows|] == s.rows;
    assert s.row == [] ==> s.row + [s.cell] == [s.cell];
    assert s.row != [] ==> |s.row + [s.cell]| > 1;
    assert [s.cell] == [""] <==> s.cell == "" by {
      assert [s.cell][0] == s.cell;
    }
  }

  // ---- The printer ----

  /** A cell is printed as it is exactly if it holds no quote, comma or line feed. */
  lemma {:induction false} PrintedPlainly(value: string)
    ensures Escape(value) == value <==> '"' !in value && ',' !in value && '\n' !in value
  {
    DoubledLength(value);
    assert NeedsQuotes(value) ==> |Escape(value)| >= |value| + 2;
  }

  lemma {:induction false} DoubledLength(value: string)
    ensures |Doubled(value)| == |value| + multiset(value)['"']
  {
    if value != "" {
      assert value == [value[0]] + value[1..];
      DoubledLength(value[1..]);
    }
  }

  /** And else between quotes, each of its own doubled, so with two characters more and one for each of
      its quotes. */
  lemma {:induction false} PrintedInQuotes(value: string)
    requires '"' in value || ',' in value || '\n' in value
    ensures var printed := Escape(value);
      |printed| == |value| + 2 + multiset(value)['"'] && printed[0] == printed[|printed| - 1] == '"'
  {
    DoubledLength(value);
    hide Doubled;
  }

  // ---- The rewriting, and rows ----

  /** The characters before b, but carriage returns that a line feed follows. */
  function WithoutReturns(text: string, b: int): string
    requires 0 <= b <= |text|
    decreases b
  {
    if b == 0 then "" else
    WithoutReturns(text, b - 1)
    + if text[b - 1] == '\r' && b < |text| && text[b] == '\n' then "" else [text[b - 1]]
  }

  lemma {:induction false} UnixFrom(text: string, i: int)
    requires 0 <= i <= |text|
    ensures WithoutReturns(text, i) + Unix(text[i..]) == WithoutReturns(text, |text|)
    decreases |text| - i
  {
    if i < |text| {
      UnixStep(text, i);
      var before := WithoutReturns(text, i);
      if text[i] == '\r' && i + 1 < |text| && text[i + 1] == '\n' {
        hide *;
        UnixFrom(text, i + 2);
        Regroup(before, "\n", Unix(text[i + 2..]));
      } else {
        hide *;
        UnixFrom(text, i + 1);
        Regroup(before, [text[i]], Unix(text[i + 1..]));
      }
    } else {
      assert text[i..] == "";
    }
  }

  lemma {:induction false} Regroup(a: string, b: string, c: string)
    ensures (a + b) + c == a + (b + c)
  {
  }

  lemma {:induction false} UnixStep(text: string, i: int)
    requires 0 <= i < |text|
    ensures var before, rest := WithoutReturns(text, i), Unix(text[i..]);
      if text[i] == '\r' && i + 1 < |text| && text[i + 1] == '\n'
      then WithoutReturns(text, i + 2) == before + "\n" && rest == "\n" + Unix(text[i + 2..])
      else WithoutReturns(text, i + 1) == before + [text[i]] && rest == [text[i]] + Unix(text[i + 1..])
  {
    var rest := text[i..];
    assert rest[0] == text[i] && rest[1..] == text[i + 1..];
    if text[i] == '\r' && i + 1 < |text| && text[i + 1] == '\n' {
      assert rest[1] == text[i + 1] && rest[2..] == text[i + 2..];
      assert WithoutReturns(text, i + 1) == WithoutReturns(text, i) + "" == WithoutReturns(text, i);
    }
  }

  /** The rewriting drops exactly the carriage returns that a line feed follows. */
  lemma {:induction false} UnixExactly(text: string)
    ensures Unix(text) == WithoutReturns(text, |text|)
  {
    UnixFrom(text, 0);
    assert text[0..] == text && WithoutReturns(text, 0) + Unix(text) == Unix(text);
  }

  lemma {:induction false} ScanKeepsRows(src: string, s: State)
    requires forall row <- s.rows :: row != []
    ensures forall row <- Scan(src, s).rows :: row != []
    decreases |src|
  {
    if src != "" {
      if s.quoted && src[0] == '"' && |src| > 1 && src[1] == '"' {
        ScanKeepsRows(src[2..], s.(cell := s.cell + "\""));
      } else {
        ScanKeepsRows(src[1..], Next(src[0], s));
      }
    }
  }

  /** No row of the sheet is empty, so its cells, each with whether its row ends there, are the sheet. */
  lemma {:induction false} NoRowIsEmpty(text: string)
    ensures forall row <- Sheet(text) :: row != []
  {
    ScanKeepsRows(Unix(text), START);
    hide Unix, Scan;
  }

  lemma {:induction false} CellsAreTheSheet(a: seq<Row>, b: seq<Row>)
    requires (forall row <- a :: row != []) && (forall row <- b :: row != [])
    ensures Reads(a) == Reads(b) <==> a == b
    decreases |a|
  {
    if Reads(a) == Reads(b) {
      if a == [] || b == [] {
        ReadsNothing(a);
        ReadsNothing(b);
      } else {
        var x, y := a[..|a| - 1], b[..|b| - 1];
        assert a == x + [a[|a| - 1]] && b == y + [b[|b| - 1]];
        assert a[|a| - 1] in a && b[|b| - 1] in b && (forall row <- x :: row in a) && forall row <- y :: row in b;
        LastRowsAgree(x, a[|a| - 1], y, b[|b| - 1]);
        CellsAreTheSheet(x, y);
      }
    }
  }

  lemma {:induction false} ReadsNothing(rows: seq<Row>)
    requires forall row <- rows :: row != []
    ensures Reads(rows) == [] <==> rows == []
  {
    if rows != [] {
      assert rows[|rows| - 1] in rows;
      assert |RowReads(rows[|rows| - 1])| > 0;
    }
  }

  /** Before the last row of a sheet, a row ends or nothing lies. */
  lemma {:induction false} EndsARow(rows: seq<Row>)
    requires forall row <- rows :: row != []
    ensures var cells := Reads(rows); cells != [] ==> cells[|cells| - 1].lastOfRow
  {
    if rows != [] {
      assert rows[|rows| - 1] in rows;
    }
  }

  lemma {:induction false} LastRowsAgree(x: seq<Row>, p: Row, y: seq<Row>, q: Row)
    requires (forall row <- x :: row != []) && (forall row <- y :: row != []) && p != [] && q != []
    requires Reads(x) + RowReads(p) == Reads(y) + RowReads(q)
    ensures p == q && Reads(x) == Reads(y)
  {
    hide *;
    EndsARow(x);
    EndsARow(y);
    RowIsShortest(Reads(x), p, Reads(y), q);
    RowIsShortest(Reads(y), q, Reads(x), p);
    SameEnds(Reads(x), p, Reads(y), q);
  }

  lemma {:induction false} SameEnds(a: seq<Read>, p: Row, b: seq<Read>, q: Row)
    requires a + RowReads(p) == b + RowReads(q) && |p| == |q|
    ensures p == q && a == b
  {
    assert |RowReads(p)| == |RowReads(q)|;
    assert a == (a + RowReads(p))[..|a|] == (b + RowReads(q))[..|b|] == b;
    assert RowReads(p) == (a + RowReads(p))[|a|..] == (b + RowReads(q))[|b|..] == RowReads(q);
    forall k | 0 <= k < |p| ensures p[k] == q[k] {
      assert RowReads(p)[k].cell == p[k] && RowReads(q)[k].cell == q[k];
    }
  }

  lemma {:induction false} RowIsShortest(a: seq<Read>, p: Row, b: seq<Read>, q: Row)
    requires a + RowReads(p) == b + RowReads(q) && p != [] && q != [] && (b != [] ==> b[|b| - 1].lastOfRow)
    ensures |q| >= |p|
  {
    var all := a + RowReads(p);
    forall k | |a| <= k < |all| - 1 ensures !all[k].lastOfRow {
      assert all[k] == RowReads(p)[k - |a|];
    }
    if b != [] {
      assert all[|b| - 1] == (b + RowReads(q))[|b| - 1] == b[|b| - 1];
    }
  }
}
