/**
 The hand-rolled CSV reader: what its bounds cut away, what its `truncated` flag means, and the round
 trip with a quoting writer.
 */
module Csv {
  import opened Scalars
  import opened Wrappers

  type Field = seq<Unit>
  type Record = seq<Field>

  const QUOTE: Unit := 34
  const COMMA: Unit := 44
  const LF: Unit := 10
  const CR: Unit := 13
  const BOM: Unit := 0xFEFF
  const CELL_SCALARS: nat := 2000

  // ---- The grammar, without bounds ---------------------------------------------------------------

  /** The records of the rest of a text, given whether a quote is open and what has been read of the current field and record. */
  function Records(s: seq<Unit>, quoted: bool, field: Field, row: Record): seq<Record>
    decreases |s|
  {
    if s == [] then
      if field != [] || row != [] then [row + [field]] else []
    else if quoted then
      if s[0] != QUOTE then Records(s[1..], true, field + [s[0]], row)
      else if |s| > 1 && s[1] == QUOTE then Records(s[2..], true, field + [QUOTE], row)
      else Records(s[1..], false, field, row)
    else if s[0] == QUOTE then Records(s[1..], true, field, row)
    else if s[0] == COMMA then Records(s[1..], false, [], row + [field])
    else if s[0] != LF && s[0] != CR then Records(s[1..], false, field + [s[0]], row)
    else [row + [field]] + Records(if s[0] == CR && |s| > 1 && s[1] == LF then s[2..] else s[1..], false, [], [])
  }

  /** Whether a quote is still open at the end of the text. */
  function LeftOpen(s: seq<Unit>, quoted: bool): bool
    decreases |s|
  {
    if s == [] then quoted
    else if quoted && s[0] == QUOTE && |s| > 1 && s[1] == QUOTE then LeftOpen(s[2..], true)
    else LeftOpen(s[1..], if s[0] == QUOTE then !quoted else quoted)
  }

  function WithoutBom(text: seq<Unit>): seq<Unit> {
    if text != [] && text[0] == BOM then text[1..] else text
  }

  /** Every record of a text. */
  function AllRecords(text: seq<Unit>): seq<Record> {
    Records(WithoutBom(text), false, [], [])
  }

  // ---- What the bounds keep ------------------------------------------------------------------------

  function CutField(field: Field): Field {
    FirstScalars(field, CELL_SCALARS)
  }

  function CutRow(row: Record, columns: nat): (cut: Record)
    ensures |cut| == if |row| < columns then |row| else columns
    ensures forall i :: 0 <= i < |cut| ==> cut[i] == FirstScalars(row[i], 2000)
  {
    seq(if |row| < columns then |row| else columns, i requires 0 <= i < |row| => CutField(row[i]))
  }

  /** The first `rows + 1` records, the first `columns` fields of each, and the first 2000 code points of each of those. */
  function CutTable(records: seq<Record>, rows: nat, columns: nat): (cut: seq<Record>)
    ensures |cut| == if |records| < rows + 1 then |records| else rows + 1
    ensures forall i :: 0 <= i < |cut| ==> cut[i] == CutRow(records[i], columns)
  {
    seq(if |records| < rows + 1 then |records| else rows + 1, i requires 0 <= i < |records| => CutRow(records[i], columns))
  }

  predicate LongField(field: Field) {
    |field| > CELL_SCALARS
  }

  predicate OverRow(row: Record, columns: nat) {
    |row| > columns || exists field <- row :: LongField(field)
  }

  predicate OverTable(records: seq<Record>, rows: nat, columns: nat) {
    |records| > rows + 1 || exists row <- records :: OverRow(row, columns)
  }

  datatype CsvTable = CsvTable(columns: Record, rows: seq<Record>, truncated: bool)

  function TableOf(records: seq<Record>, truncated: bool): CsvTable {
    if records == [] then CsvTable([], [], truncated) else CsvTable(records[0], records[1..], truncated)
  }

  // ---- The reader ----------------------------------------------------------------------------------

  lemma OverRowSnoc(row: Record, field: Field, columns: nat)
    ensures OverRow(row + [field], columns) <==> OverRow(row, columns) || |row| >= columns || LongField(field)
  {
    assert (row + [field])[|row|] == field;
    assert forall f <- row :: f in row + [field];
  }

  lemma OverTableSnoc(records: seq<Record>, row: Record, rows: nat, columns: nat)
    ensures OverTable(records + [row], rows, columns)
       <==> OverTable(records, rows, columns) || |records| >= rows + 1 || OverRow(row, columns)
  {
    assert (records + [row])[|records|] == row;
    assert forall r <- records :: r in records + [row];
  }

  /** The variables the source's closures share, beside the unbounded records and record they stand for. */
  class Reader {
    const maxRows: nat
    const maxColumns: nat
    var records: seq<Record>
    var row: Record
    var field: Field
    var quoted: bool
    var truncated: bool
    ghost var full: seq<Record>
    ghost var fullRow: Record

    ghost predicate Valid()
      reads this
    {
      && maxColumns >= 1
      && records == CutTable(full, maxRows, maxColumns) && row == CutRow(fullRow, maxColumns)
      && (truncated <==> OverTable(full, maxRows, maxColumns) || OverRow(fullRow, maxColumns))
    }

    /** The unbounded parse of a text whose rest is `s`. */
    ghost function Parse(s: seq<Unit>): seq<Record>
      reads this
    {
      full + Records(s, quoted, field, fullRow)
    }

    constructor (maxRows: nat, maxColumns: nat)
      requires maxColumns >= 1
      ensures this.maxRows == maxRows && this.maxColumns == maxColumns
      ensures Valid() && full == [] && fullRow == [] && field == [] && !quoted
    {
      this.maxRows, this.maxColumns := maxRows, maxColumns;
      records, row, field, quoted, truncated, full, fullRow := [], [], [], false, false, [], [];
    }

    method EndField()
      requires Valid()
      modifies this
      ensures Valid() && quoted == old(quoted) && full == old(full)
      ensures fullRow == old(fullRow + [field]) && field == []
    {
      var clipped := ClipScalars(field, CELL_SCALARS);
      ClipIsFirstScalars(field, CELL_SCALARS);
      OverRowSnoc(fullRow, field, maxColumns);
      if clipped.truncated {
        truncated := true;
      }
      if |row| < maxColumns {
        row := row + [clipped.value];
      } else {
        truncated := true;
      }
      fullRow, field := fullRow + [field], [];
    }

    method EndRecord()
      requires Valid()
      modifies this
      ensures Valid() && quoted == old(quoted)
      ensures full == old(full + [fullRow + [field]]) && fullRow == [] && field == []
    {
      EndField();
      OverTableSnoc(full, fullRow, maxRows, maxColumns);
      if |records| < maxRows + 1 {
        records := records + [row];
      } else {
        truncated := true;
      }
      full, fullRow, row := full + [fullRow], [], [];
    }

    /** One turn of the source's character loop: reads a character, and one more when it looks ahead. */
    method Read(s: seq<Unit>) returns (used: nat)
      requires Valid() && s != []
      modifies this
      ensures Valid() && 1 <= used <= |s|
      ensures Parse(s[used..]) == old(Parse(s))
      ensures LeftOpen(s[used..], quoted) == LeftOpen(s, old(quoted))
    {
      var character := s[0];
      used := 1;
      if quoted {
        if character != QUOTE {
          field := field + [character];
        } else if |s| > 1 && s[1] == QUOTE {
          field := field + [QUOTE];
          used := 2;
        } else {
          quoted := false;
        }
      } else if character == QUOTE {
        quoted := true;
      } else if character == COMMA {
        EndField();
      } else if character != LF && character != CR {
        field := field + [character];
      } else {
        if character == CR && |s| > 1 && s[1] == LF {
          used := 2;
        }
        ghost var before, record := full, fullRow + [field];
        EndRecord();
        ghost var rest := Records(s[used..], false, [], []);
        assert before + ([record] + rest) == (before + [record]) + rest;
      }
    }

    method Finish() returns (table: CsvTable)
      requires Valid()
      modifies this
      ensures table == TableOf(CutTable(old(Parse([])), maxRows, maxColumns),
                               OverTable(old(Parse([])), maxRows, maxColumns) || old(quoted))
    {
      if |field| > 0 || |row| > 0 {
        EndRecord();
      }
      assert full == old(Parse([]));
      assert !OverRow(fullRow, maxColumns);
      if quoted {
        truncated := true;
      }
      return CsvTable(if |records| > 0 then records[0] else [], if |records| > 0 then records[1..] else [], truncated);
    }
  }

  lemma TableParts(cut: seq<Record>, truncated: bool)
    ensures var table := TableOf(cut, truncated);
            if cut == [] then table.columns == [] && table.rows == [] else [table.columns] + table.rows == cut
  {
  }

  /** The bounded reader: exactly the unbounded records with the bounds applied afterwards, and exactly when it says so. */
  method ParseCsv(text: seq<Unit>, maxRows: nat, maxColumns: nat) returns (table: CsvTable)
    requires maxColumns >= 1
    ensures table == TableOf(CutTable(AllRecords(text), maxRows, maxColumns),
                             OverTable(AllRecords(text), maxRows, maxColumns) || LeftOpen(WithoutBom(text), false))
    ensures if AllRecords(text) == [] then table.columns == [] && table.rows == []
            else [table.columns] + table.rows == CutTable(AllRecords(text), maxRows, maxColumns)
  {
    var rest := if |text| > 0 && text[0] == BOM then text[1..] else text;
    ghost var all, open := AllRecords(text), LeftOpen(rest, false);
    var reader := new Reader(maxRows, maxColumns);
    while |rest| > 0
      invariant reader.Valid() && fresh(reader)
      invariant reader.Parse(rest) == all && LeftOpen(rest, reader.quoted) == open
      decreases |rest|
    {
      var used := reader.Read(rest);
      rest := rest[used..];
    }
    table := reader.Finish();
    TableParts(CutTable(all, maxRows, maxColumns), table.truncated);
  }

  // ---- What `truncated` means -------------------------------------------------------------------------

  lemma CutFieldIsExact(field: Field)
    ensures !LongField(field) ==> CutField(field) == field
    ensures CutField(field) == field <==> Count(field) <= CELL_SCALARS
  {
    FirstScalarsCount(field, CELL_SCALARS);
  }

  lemma CutRowIsExact(row: Record, columns: nat)
    ensures !OverRow(row, columns) ==> CutRow(row, columns) == row
    ensures CutRow(row, columns) == row <==> |row| <= columns && forall field <- row :: Count(field) <= CELL_SCALARS
  {
    forall field <- row ensures CutField(field) == field <==> Count(field) <= CELL_SCALARS {
      CutFieldIsExact(field);
    }
    forall field <- row ensures !LongField(field) ==> Count(field) <= CELL_SCALARS {
      CutFieldIsExact(field);
    }
    if |row| <= columns && forall field <- row :: Count(field) <= CELL_SCALARS {
      forall i | 0 <= i < |row| ensures CutRow(row, columns)[i] == row[i] {
        assert row[i] in row;
      }
    }
    if CutRow(row, columns) == row {
      forall field <- row ensures Count(field) <= CELL_SCALARS {
        var i :| 0 <= i < |row| && row[i] == field;
        assert CutRow(row, columns)[i] == CutField(row[i]);
      }
    }
  }

  lemma CutTableIsExact(records: seq<Record>, rows: nat, columns: nat)
    ensures !OverTable(records, rows, columns) ==> CutTable(records, rows, columns) == records
    ensures CutTable(records, rows, columns) == records
       <==> |records| <= rows + 1 && forall row <- records :: CutRow(row, columns) == row
  {
    forall row <- records ensures !OverRow(row, columns) ==> CutRow(row, columns) == row {
      CutRowIsExact(row, columns);
    }
    if CutTable(records, rows, columns) == records {
      forall row <- records ensures CutRow(row, columns) == row {
        var i :| 0 <= i < |records| && records[i] == row;
        assert CutTable(records, rows, columns)[i] == CutRow(records[i], columns);
      }
    }
  }

  /** A field of more than 2000 units whose surrogate pairs keep it within 2000 code points. */
  predicate FalseAlarm(records: seq<Record>) {
    exists row <- records :: exists field <- row :: |field| > 2000 && Count(field) <= 2000
  }

  /**
   The flag is raised exactly when something was cut, a quote was left open, or a field is long in units
   only. So an unset flag means the table is the whole text, and a set one may cry wolf in the last case.
   */
  lemma TruncatedMeansCut(records: seq<Record>, rows: nat, columns: nat)
    ensures OverTable(records, rows, columns) <==> CutTable(records, rows, columns) != records || FalseAlarm(records)
  {
    CutTableIsExact(records, rows, columns);
    forall row <- records
      ensures CutRow(row, columns) == row <==> |row| <= columns && forall field <- row :: Count(field) <= CELL_SCALARS
    {
      CutRowIsExact(row, columns);
    }
    if CutTable(records, rows, columns) != records || FalseAlarm(records) {
      if |records| <= rows + 1 && !FalseAlarm(records) {
        var row :| row in records && CutRow(row, columns) != row;
        assert OverRow(row, columns);
      }
    }
  }

  predicate NoHighSurrogate(s: seq<Unit>) {
    forall u <- s :: !IsHigh(u)
  }

  lemma CountWithoutPairs(s: seq<Unit>)
    requires NoHighSurrogate(s)
    ensures Count(s) == |s|
  {
    if s != [] {
      assert s[0] in s;
      CountWithoutPairs(s[1..]);
    }
  }

  lemma FieldsComeFromText(s: seq<Unit>, quoted: bool, field: Field, row: Record)
    requires NoHighSurrogate(s) && NoHighSurrogate(field) && forall f <- row :: NoHighSurrogate(f)
    ensures forall r <- Records(s, quoted, field, row) :: forall f <- r :: NoHighSurrogate(f)
    decreases |s|
  {
    if s == [] {
    } else if quoted {
      if s[0] != QUOTE {
        FieldsComeFromText(s[1..], true, field + [s[0]], row);
      } else if |s| > 1 && s[1] == QUOTE {
        FieldsComeFromText(s[2..], true, field + [QUOTE], row);
      } else {
        FieldsComeFromText(s[1..], false, field, row);
      }
    } else if s[0] == QUOTE {
      FieldsComeFromText(s[1..], true, field, row);
    } else if s[0] == COMMA {
      FieldsComeFromText(s[1..], false, [], row + [field]);
    } else if s[0] != LF && s[0] != CR {
      FieldsComeFromText(s[1..], false, field + [s[0]], row);
    } else {
      FieldsComeFromText(if s[0] == CR && |s| > 1 && s[1] == LF then s[2..] else s[1..], false, [], []);
    }
  }

  /** On a text of characters that need no surrogates the flag is never a false alarm. */
  lemma NoAlarmWithoutSurrogates(text: seq<Unit>)
    requires NoHighSurrogate(text)
    ensures !FalseAlarm(AllRecords(text))
  {
    FieldsComeFromText(WithoutBom(text), false, [], []);
    forall row <- AllRecords(text), field <- row ensures Count(field) == |field| {
      CountWithoutPairs(field);
    }
  }

  /** No character of the text means anything to the reader. */
  predicate Plain(s: seq<Unit>) {
    forall i :: 0 <= i < |s| ==> s[i] != QUOTE && s[i] != COMMA && s[i] != LF && s[i] != CR && s[i] != BOM
  }

  function Pairs(n: nat): (s: seq<Unit>)
    ensures |s| == 2 * n && Count(s) == n && Plain(s)
  {
    if n == 0 then [] else
      var rest := Pairs(n - 1);
      var s := [0xD83D, 0xDE00] + rest;
      assert s[2..] == rest;
      s
  }

  lemma PlainField(s: seq<Unit>, field: Field)
    requires Plain(s) && field + s != []
    ensures Records(s, false, field, []) == [[field + s]]
    decreases |s|
  {
    if s == [] {
      assert field + s == field && [] + [field] == [field];
    } else {
      assert (field + [s[0]]) + s[1..] == field + s;
      PlainField(s[1..], field + [s[0]]);
    }
  }

  lemma LoneField(s: Field)
    requires LongField(s) && Count(s) <= CELL_SCALARS
    ensures OverTable([[s]], 1, 1) && CutTable([[s]], 1, 1) == [[s]]
  {
    var row := [s];
    var table := [row];
    assert s in row && row in table;
    CutRowIsExact(row, 1);
    CutTableIsExact(table, 1, 1);
  }

  /** The false alarm happens: a cell of 1001 to 2000 emoji is returned whole and still reported as truncated. */
  lemma FalseAlarmExample(n: nat)
    requires 1001 <= n <= 2000
    ensures OverTable(AllRecords(Pairs(n)), 1, 1) && CutTable(AllRecords(Pairs(n)), 1, 1) == AllRecords(Pairs(n))
  {
    var s := Pairs(n);
    assert WithoutBom(s) == s && [] + s == s;
    PlainField(s, []);
    LoneField(s);
  }

  // ---- The round trip ---------------------------------------------------------------------------------

  /** A field with its quotes doubled. */
  function Doubled(field: Field): seq<Unit> {
    if field == [] then []
    else if field[0] == QUOTE then [QUOTE, QUOTE] + Doubled(field[1..])
    else [field[0]] + Doubled(field[1..])
  }

  /** The fields of a record, each quoted, separated by commas and closed by CRLF. */
  function WriteFields(row: Record): seq<Unit>
    requires row != []
  {
    [QUOTE] + Doubled(row[0]) + [QUOTE] + if |row| == 1 then [CR, LF] else [COMMA] + WriteFields(row[1..])
  }

  predicate NoEmptyRow(table: seq<Record>) {
    forall i :: 0 <= i < |table| ==> table[i] != []
  }

  function WriteTable(table: seq<Record>): seq<Unit>
    requires NoEmptyRow(table)
  {
    if table == [] then [] else WriteFields(table[0]) + WriteTable(table[1..])
  }

  /** Reading a quoted field's body appends the field. `rest` starts right after the closing quote. */
  lemma ReadQuoted(field: Field, rest: seq<Unit>, before: Field, row: Record)
    requires rest == [] || rest[0] != QUOTE
    ensures Records(Doubled(field) + [QUOTE] + rest, true, before, row) == Records(rest, false, before + field, row)
    ensures LeftOpen(Doubled(field) + [QUOTE] + rest, true) == LeftOpen(rest, false)
    decreases |field|
  {
    var s := Doubled(field) + [QUOTE] + rest;
    if field == [] {
      assert s[1..] == rest && s[0] == QUOTE && (rest != [] ==> s[1] == rest[0]);
      assert before + field == before;
    } else {
      var tail := Doubled(field[1..]) + [QUOTE] + rest;
      assert before + field == (before + [field[0]]) + field[1..];
      if field[0] == QUOTE {
        assert s == [QUOTE, QUOTE] + tail;
        assert s[2..] == tail;
      } else {
        assert s == [field[0]] + tail;
        assert s[1..] == tail;
      }
      ReadQuoted(field[1..], rest, before + [field[0]], row);
    }
  }

  /** What follows a record's first field. */
  function AfterFirst(row: Record, rest: seq<Unit>): seq<Unit>
    requires row != []
  {
    if |row| == 1 then [CR, LF] + rest else [COMMA] + (WriteFields(row[1..]) + rest)
  }

  lemma ReadFirst(row: Record, rest: seq<Unit>, before: Record)
    requires row != []
    ensures Records(WriteFields(row) + rest, false, [], before) == Records(AfterFirst(row, rest), false, row[0], before)
    ensures LeftOpen(WriteFields(row) + rest, false) == LeftOpen(AfterFirst(row, rest), false)
  {
    var tail, s := AfterFirst(row, rest), WriteFields(row) + rest;
    assert s == [QUOTE] + (Doubled(row[0]) + [QUOTE] + tail);
    assert s[1..] == Doubled(row[0]) + [QUOTE] + tail;
    ReadQuoted(row[0], tail, [], before);
    assert [] + row[0] == row[0];
  }

  lemma ReadLast(field: Field, rest: seq<Unit>, before: Record)
    ensures Records([CR, LF] + rest, false, field, before) == [before + [field]] + Records(rest, false, [], [])
    ensures LeftOpen([CR, LF] + rest, false) == LeftOpen(rest, false)
  {
    var s := [CR, LF] + rest;
    assert s[2..] == rest && s[1..][1..] == rest;
  }

  lemma ReadComma(field: Field, rest: seq<Unit>, before: Record)
    ensures Records([COMMA] + rest, false, field, before) == Records(rest, false, [], before + [field])
    ensures LeftOpen([COMMA] + rest, false) == LeftOpen(rest, false)
  {
    assert ([COMMA] + rest)[1..] == rest;
  }

  lemma ReadFields(row: Record, rest: seq<Unit>, before: Record)
    requires row != []
    ensures Records(WriteFields(row) + rest, false, [], before) == [before + row] + Records(rest, false, [], [])
    ensures LeftOpen(WriteFields(row) + rest, false) == LeftOpen(rest, false)
    decreases |row|
  {
    ReadFirst(row, rest, before);
    if |row| == 1 {
      ReadLast(row[0], rest, before);
      assert row == [row[0]];
    } else {
      ReadComma(row[0], WriteFields(row[1..]) + rest, before);
      ReadFields(row[1..], rest, before + [row[0]]);
      MoveFirst(before, row);
    }
  }

  lemma MoveFirst(before: Record, row: Record)
    requires row != []
    ensures (before + [row[0]]) + row[1..] == before + row
  {
  }

  lemma ReadTable(table: seq<Record>)
    requires NoEmptyRow(table)
    ensures Records(WriteTable(table), false, [], []) == table
    ensures !LeftOpen(WriteTable(table), false)
    decreases |table|
  {
    if table != [] {
      ReadFields(table[0], WriteTable(table[1..]), []);
      ReadTable(table[1..]);
      assert [] + table[0] == table[0];
      assert table == [table[0]] + table[1..];
    }
  }

  /**
   The round trip of section 2 of RFC 4180: a written table is read back whole and unflagged whenever the
   bounds are wide enough for it, whatever commas, quotes and line breaks its cells hold.
   */
  lemma RoundTrip(table: seq<Record>, rows: nat, columns: nat)
    requires NoEmptyRow(table)
    requires !OverTable(table, rows, columns)
    ensures AllRecords(WriteTable(table)) == table
    ensures CutTable(AllRecords(WriteTable(table)), rows, columns) == table
    ensures !OverTable(AllRecords(WriteTable(table)), rows, columns) && !LeftOpen(WithoutBom(WriteTable(table)), false)
  {
    assert table != [] ==> WriteTable(table)[0] == QUOTE;
    assert WithoutBom(WriteTable(table)) == WriteTable(table);
    ReadTable(table);
    CutTableIsExact(table, rows, columns);
  }

  // ---- Any writer -------------------------------------------------------------------------------------

  /** Some text in quotes, and the bare text after it. */
  datatype Piece = Piece(quoted: Field, after: Field)

  /** A field as some writer writes it: bare, in quotes, or bare and quoted text by turns. */
  datatype Cell = Cell(bare: Field, pieces: seq<Piece>)

  datatype LineEnd = EndLf | EndCr | EndCrLf

  datatype Line = Line(cells: seq<Cell>, end: LineEnd)

  /** A field may be written bare when it holds no quote, comma or line break. */
  predicate MayBeBare(text: Field) {
    QUOTE !in text && COMMA !in text && CR !in text && LF !in text
  }

  function PiecesText(pieces: seq<Piece>): seq<Unit> {
    if pieces == [] then [] else ['"' as int] + (Doubled(pieces[0].quoted) + ['"' as int] + (pieces[0].after + PiecesText(pieces[1..])))
  }

  function CellText(c: Cell): seq<Unit> {
    c.bare + PiecesText(c.pieces)
  }

  function PiecesValue(pieces: seq<Piece>): Field {
    if pieces == [] then [] else pieces[0].quoted + (pieces[0].after + PiecesValue(pieces[1..]))
  }

  /** The field that is written. */
  function Value(c: Cell): Field {
    c.bare + PiecesValue(c.pieces)
  }

  /** Two quoted texts with nothing in between would read as one with a quote in it. */
  predicate PiecesApart(pieces: seq<Piece>) {
    && (forall i :: 0 <= i < |pieces| ==> MayBeBare(pieces[i].after))
    && (forall i :: 0 <= i < |pieces| - 1 ==> pieces[i].after != [])
  }

  predicate WellFormed(c: Cell) {
    MayBeBare(c.bare) && PiecesApart(c.pieces)
  }

  function CellsText(cells: seq<Cell>): seq<Unit>
    requires cells != []
  {
    CellText(cells[0]) + if |cells| == 1 then [] else [',' as int] + CellsText(cells[1..])
  }

  function EndText(end: LineEnd): seq<Unit> {
    match end
    case EndLf => ['\n' as int]
    case EndCr => ['\r' as int]
    case EndCrLf => ['\r' as int, '\n' as int]
  }

  /** The lines, and a last record without a line end, if there is one. */
  function FileText(lines: seq<Line>, last: seq<Cell>): seq<Unit>
    requires forall i :: 0 <= i < |lines| ==> lines[i].cells != []
  {
    if lines != [] then CellsText(lines[0].cells) + (EndText(lines[0].end) + FileText(lines[1..], last))
    else if last != [] then CellsText(last) else []
  }

  function Texts(cells: seq<Cell>): (row: Record)
    ensures |row| == |cells| && forall i :: 0 <= i < |cells| ==> row[i] == Value(cells[i])
  {
    seq(|cells|, i requires 0 <= i < |cells| => Value(cells[i]))
  }

  function Rows(lines: seq<Line>, last: seq<Cell>): (table: seq<Record>)
    ensures |table| == |lines| + if last == [] then 0 else 1
    ensures forall i :: 0 <= i < |lines| ==> table[i] == Texts(lines[i].cells)
    ensures last != [] ==> table[|lines|] == Texts(last)
  {
    seq(|lines|, i requires 0 <= i < |lines| => Texts(lines[i].cells)) + if last == [] then [] else [Texts(last)]
  }

  predicate WellQuoted(cells: seq<Cell>) {
    forall i :: 0 <= i < |cells| ==> WellFormed(cells[i])
  }

  /** Every record has a cell, a lone CR is not followed by a line feed, and a last record without a line end is not one empty field. */
  predicate WellWritten(lines: seq<Line>, last: seq<Cell>)
    decreases |lines|
  {
    if lines == [] then WellQuoted(last) && (last == [] || |last| > 1 || Value(last[0]) != [])
    else
      && lines[0].cells != [] && WellQuoted(lines[0].cells) && WellWritten(lines[1..], last)
      && (forall i :: 0 <= i < |lines[1..]| ==> lines[1..][i].cells != [])
      && (lines[0].end.EndCr? ==> var rest := FileText(lines[1..], last); rest == [] || rest[0] != LF)
  }

  lemma ReadBare(text: Field, rest: seq<Unit>, before: Field, row: Record)
    requires MayBeBare(text)
    ensures Records(text + rest, false, before, row) == Records(rest, false, before + text, row)
    ensures LeftOpen(text + rest, false) == LeftOpen(rest, false)
    decreases |text|
  {
    if text == [] {
      assert text + rest == rest && before + text == before;
    } else {
      var s := text + rest;
      assert text[0] in text && s[0] == text[0] && s[1..] == text[1..] + rest;
      ReadBare(text[1..], rest, before + [text[0]], row);
      assert (before + [text[0]]) + text[1..] == before + text;
    }
  }

  lemma PiecesRest(pieces: seq<Piece>)
    requires pieces != [] && PiecesApart(pieces)
    ensures PiecesApart(pieces[1..])
    ensures |pieces| > 1 ==> pieces[0].after != []
  {
    forall i | 0 <= i < |pieces[1..]| - 1 ensures pieces[1..][i].after != [] {
      assert pieces[i + 1].after != [];
    }
  }

  lemma Chain(a: seq<Unit>, b: seq<Unit>, c: seq<Unit>)
    ensures a + (b + c) == (a + b) + c
  {
  }

  /** What a written piece looks like to the reader: after the opening quote, its body, the closing quote, and the rest. */
  lemma PieceLies(quoted: Field, after: Field, more: seq<Unit>, rest: seq<Unit>, s: seq<Unit>)
    requires s == [QUOTE] + (Doubled(quoted) + [QUOTE] + (after + more)) + rest
    ensures s[0] == QUOTE && s[1..] == Doubled(quoted) + [QUOTE] + (after + (more + rest))
  {
    assert s == [QUOTE] + ((Doubled(quoted) + [QUOTE] + (after + more)) + rest);
  }

  lemma ReadPieces(pieces: seq<Piece>, rest: seq<Unit>, before: Field, row: Record)
    requires PiecesApart(pieces) && (rest == [] || rest[0] != QUOTE)
    ensures Records(PiecesText(pieces) + rest, false, before, row) == Records(rest, false, before + PiecesValue(pieces), row)
    ensures LeftOpen(PiecesText(pieces) + rest, false) == LeftOpen(rest, false)
    decreases |pieces|
  {
    if pieces == [] {
      assert PiecesText(pieces) + rest == rest && before + PiecesValue(pieces) == before;
    } else {
      var p, more := pieces[0], PiecesText(pieces[1..]);
      var tail := p.after + (more + rest);
      PieceLies(p.quoted, p.after, more, rest, PiecesText(pieces) + rest);
      PiecesRest(pieces);
      assert |pieces| == 1 ==> more + rest == rest;
      assert p.after != [] ==> p.after[0] in p.after;
      ReadQuoted(p.quoted, tail, before, row);
      ReadBare(p.after, more + rest, before + p.quoted, row);
      ReadPieces(pieces[1..], rest, before + p.quoted + p.after, row);
      Chain(before, p.quoted, p.after + PiecesValue(pieces[1..]));
      Chain(before + p.quoted, p.after, PiecesValue(pieces[1..]));
    }
  }

  lemma ReadCell(c: Cell, rest: seq<Unit>, row: Record)
    requires WellFormed(c) && (rest == [] || rest[0] != QUOTE)
    ensures Records(CellText(c) + rest, false, [], row) == Records(rest, false, Value(c), row)
    ensures LeftOpen(CellText(c) + rest, false) == LeftOpen(rest, false)
  {
    Chain(c.bare, PiecesText(c.pieces), rest);
    ReadBare(c.bare, PiecesText(c.pieces) + rest, [], row);
    assert [] + c.bare == c.bare;
    ReadPieces(c.pieces, rest, c.bare, row);
  }

  lemma Split(a: seq<Unit>, b: seq<Unit>, c: seq<Unit>)
    ensures a + ([COMMA] + b) + c == a + ([COMMA] + (b + c))
  {
  }

  lemma NextCell(cells: seq<Cell>, rest: seq<Unit>, before: Record)
    requires |cells| > 1 && WellFormed(cells[0])
    ensures Records(CellsText(cells) + rest, false, [], before) == Records(CellsText(cells[1..]) + rest, false, [], before + [Value(cells[0])])
    ensures LeftOpen(CellsText(cells) + rest, false) == LeftOpen(CellsText(cells[1..]) + rest, false)
  {
    var later := CellsText(cells[1..]) + rest;
    Split(CellText(cells[0]), CellsText(cells[1..]), rest);
    ReadCell(cells[0], [COMMA] + later, before);
    ReadComma(Value(cells[0]), later, before);
  }

  lemma OnlyCell(cells: seq<Cell>, rest: seq<Unit>, before: Record)
    requires |cells| == 1 && WellQuoted(cells) && (rest == [] || rest[0] != QUOTE)
    ensures Records(CellsText(cells) + rest, false, [], before) == Records(rest, false, Value(cells[0]), before + Texts(cells[..0]))
    ensures LeftOpen(CellsText(cells) + rest, false) == LeftOpen(rest, false)
  {
    assert CellsText(cells) == CellText(cells[0]) && before + Texts(cells[..0]) == before;
    ReadCell(cells[0], rest, before);
  }

  /** Reading a record's cells leaves the last of them as the field and those before it as the row. */
  lemma ReadCells(cells: seq<Cell>, rest: seq<Unit>, before: Record)
    requires cells != [] && WellQuoted(cells) && (rest == [] || rest[0] != QUOTE)
    ensures var n := |cells| - 1;
            Records(CellsText(cells) + rest, false, [], before) == Records(rest, false, Value(cells[n]), before + Texts(cells[..n]))
    ensures LeftOpen(CellsText(cells) + rest, false) == LeftOpen(rest, false)
    decreases |cells|
  {
    if |cells| == 1 {
      OnlyCell(cells, rest, before);
    } else {
      NextCell(cells, rest, before);
      ReadCells(cells[1..], rest, before + [Value(cells[0])]);
      TextsFrom(cells, before);
    }
  }

  lemma TextsFrom(cells: seq<Cell>, before: Record)
    requires |cells| > 1
    ensures var n := |cells| - 1;
            before + [Value(cells[0])] + Texts(cells[1..][..n - 1]) == before + Texts(cells[..n]) && cells[1..][n - 1] == cells[n]
  {
  }

  lemma ReadEnd(end: LineEnd, rest: seq<Unit>, field: Field, row: Record)
    requires end.EndCr? ==> rest == [] || rest[0] != LF
    ensures Records(EndText(end) + rest, false, field, row) == [row + [field]] + Records(rest, false, [], [])
    ensures LeftOpen(EndText(end) + rest, false) == LeftOpen(rest, false)
  {
    var s := EndText(end) + rest;
    match end
    case EndCrLf => assert s[2..] == rest && s[1..][1..] == rest;
    case _ => assert s[1..] == rest && (rest != [] ==> s[1] == rest[0]);
  }

  lemma AllTexts(cells: seq<Cell>)
    requires cells != []
    ensures Texts(cells[..|cells| - 1]) + [Value(cells[|cells| - 1])] == Texts(cells)
    ensures [] + Texts(cells[..|cells| - 1]) == Texts(cells[..|cells| - 1])
  {
  }

  /** A record without its line end ends the text. */
  lemma ReadUnended(cells: seq<Cell>)
    requires cells != [] && WellQuoted(cells) && (|cells| > 1 || Value(cells[0]) != [])
    ensures Records(CellsText(cells), false, [], []) == [Texts(cells)] && !LeftOpen(CellsText(cells), false)
  {
    assert CellsText(cells) + [] == CellsText(cells);
    ReadCells(cells, [], []);
    AllTexts(cells);
  }

  lemma ReadLine(line: Line, rest: seq<Unit>)
    requires line.cells != [] && WellQuoted(line.cells) && (line.end.EndCr? ==> rest == [] || rest[0] != LF)
    ensures Records(CellsText(line.cells) + (EndText(line.end) + rest), false, [], []) == [Texts(line.cells)] + Records(rest, false, [], [])
    ensures LeftOpen(CellsText(line.cells) + (EndText(line.end) + rest), false) == LeftOpen(rest, false)
  {
    var cells := line.cells;
    ReadCells(cells, EndText(line.end) + rest, []);
    AllTexts(cells);
    ReadEnd(line.end, rest, Value(cells[|cells| - 1]), Texts(cells[..|cells| - 1]));
  }

  lemma RowsFrom(lines: seq<Line>, last: seq<Cell>)
    ensures Rows(lines, last) == if lines != [] then [Texts(lines[0].cells)] + Rows(lines[1..], last) else if last != [] then [Texts(last)] else []
  {
  }

  lemma ReadFile(lines: seq<Line>, last: seq<Cell>)
    requires (forall i :: 0 <= i < |lines| ==> lines[i].cells != []) && WellWritten(lines, last)
    ensures Records(FileText(lines, last), false, [], []) == Rows(lines, last)
    ensures !LeftOpen(FileText(lines, last), false)
    decreases |lines|
  {
    RowsFrom(lines, last);
    if lines != [] {
      ReadLine(lines[0], FileText(lines[1..], last));
      ReadFile(lines[1..], last);
    } else if last != [] {
      ReadUnended(last);
    }
  }

  /**
   The round trip for any writer. Each field is bare or quoted or a mixture of both; each record ends in LF, CR or CRLF, the
   last one in nothing; a byte order mark may come first. Reading gives the table back, with no quote left open.
   */
  lemma AnyWriterReadsBack(mark: bool, lines: seq<Line>, last: seq<Cell>, rows: nat, columns: nat)
    requires (forall i :: 0 <= i < |lines| ==> lines[i].cells != []) && WellWritten(lines, last)
    requires mark || FileText(lines, last) == [] || FileText(lines, last)[0] != 0xFEFF
    ensures var text := (if mark then [0xFEFF] else []) + FileText(lines, last);
            && AllRecords(text) == Rows(lines, last) && !LeftOpen(WithoutBom(text), false)
            && (!OverTable(Rows(lines, last), rows, columns) ==> CutTable(AllRecords(text), rows, columns) == Rows(lines, last))
  {
    var text := (if mark then [0xFEFF] else []) + FileText(lines, last);
    assert WithoutBom(text) == FileText(lines, last);
    ReadFile(lines, last);
    CutTableIsExact(Rows(lines, last), rows, columns);
  }

  /** An open quote takes the rest of the text, and is reported. */
  lemma ReadOpen(field: Field, before: Field, row: Record)
    ensures Records(Doubled(field), true, before, row) == if before + field == [] && row == [] then [] else [row + [before + field]]
    ensures LeftOpen(Doubled(field), true)
    decreases |field|
  {
    if field == [] {
      assert before + field == before;
    } else {
      var s, tail := Doubled(field), Doubled(field[1..]);
      assert before + field == (before + [field[0]]) + field[1..];
      assert s[if field[0] == QUOTE then 2 else 1..] == tail;
      ReadOpen(field[1..], before + [field[0]], row);
    }
  }

  /** A last record whose last field is quoted and never closed is read to the end of the text, and the table is flagged. */
  lemma OpenQuoteIsReported(cells: seq<Cell>, field: Field)
    requires cells != [] && WellQuoted(cells)
    ensures var text := CellsText(cells) + ([COMMA] + ([QUOTE] + Doubled(field)));
            Records(text, false, [], []) == [Texts(cells) + [field]] && LeftOpen(text, false)
  {
    var open := [QUOTE] + Doubled(field);
    assert open[1..] == Doubled(field);
    ReadCells(cells, [COMMA] + open, []);
    ReadComma(Value(cells[|cells| - 1]), open, Texts(cells[..|cells| - 1]));
    AllTexts(cells);
    assert [] + field == field;
    ReadOpen(field, [], Texts(cells));
  }

  // ---- The result cap ---------------------------------------------------------------------------------

  const RESULT_CHARS: nat := 32000

  /** A table's first `k` rows, flagged as truncated when that drops any. */
  function Keep(table: CsvTable, k: nat): CsvTable
    requires k <= |table.rows|
  {
    table.(rows := table.rows[..k], truncated := table.truncated || k < |table.rows|)
  }

  predicate MostThatFit(table: CsvTable, size: CsvTable -> nat, k: nat) {
    && k <= |table.rows| && size(Keep(table, k)) <= 32000
    && forall more :: k < more <= |table.rows| ==> size(Keep(table, more)) > 32000
  }

  /**
   Rows are dropped from the end until the serialized result fits; `size` is the length of its JSON. The
   answer keeps as many rows as can fit, and there is none only when not even the header fits.
   */
  method DropRows(table: CsvTable, size: CsvTable -> nat) returns (fitted: Option<CsvTable>)
    ensures fitted.None? <==> forall k :: 0 <= k <= |table.rows| ==> size(Keep(table, k)) > 32000
    ensures fitted.Some? ==> exists k :: MostThatFit(table, size, k) && fitted.value == Keep(table, k)
    ensures fitted.Some? ==> fitted.value.columns == table.columns && fitted.value.rows <= table.rows
    ensures fitted.Some? ==> (fitted.value.truncated <==> table.truncated || fitted.value.rows != table.rows)
  {
    var payload := table;
    ghost var k := |table.rows|;
    assert Keep(table, k) == table;
    while |payload.rows| > 0 && size(payload) > RESULT_CHARS
      invariant k == |payload.rows| <= |table.rows| && payload == Keep(table, k)
      invariant forall more :: k < more <= |table.rows| ==> size(Keep(table, more)) > RESULT_CHARS
    {
      payload := payload.(rows := payload.rows[..|payload.rows| - 1], truncated := true);
      k := k - 1;
      assert payload == Keep(table, k);
    }
    if size(payload) > RESULT_CHARS {
      return None;
    }
    assert MostThatFit(table, size, k);
    return Some(payload);
  }
}
