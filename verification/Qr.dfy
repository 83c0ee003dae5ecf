/**
 Reading back the QR symbol a terminal printed with half-block glyphs, two module rows to a line.
 A module is true when it is black.
 */
module Qr {
  import opened Terminal
  import opened Wrappers

  type Row = seq<bool>
  type Matrix = seq<Row>

  const FULL: char := '\U{2588}'
  const UPPER: char := '\U{2580}'
  const LOWER: char := '\U{2584}'
  const MIN_LINE: nat := 30

  predicate IsGlyph(c: char) {
    c == FULL || c == UPPER || c == LOWER || c == ' '
  }

  /** The palette is inverted: a filled half stands for a white module. */
  function Top(c: char): bool { c == LOWER || c == ' ' }

  function Bottom(c: char): bool { c == UPPER || c == ' ' }

  function GlyphOf(top: bool, bottom: bool): (c: char)
    ensures IsGlyph(c) && Top(c) == top && Bottom(c) == bottom
  {
    if top then if bottom then ' ' else LOWER else if bottom then UPPER else FULL
  }

  predicate IsQrLine(line: string) {
    |line| >= MIN_LINE && forall c <- line :: IsGlyph(c)
  }

  function QrLines(lines: seq<string>): (qr: seq<string>)
    ensures forall i :: 0 <= i < |qr| ==> IsQrLine(qr[i])
  {
    if lines == [] then []
    else if IsQrLine(lines[0]) then [lines[0]] + QrLines(lines[1..])
    else QrLines(lines[1..])
  }

  // ---- The rows a text carries -------------------------------------------------------------------

  /** The two module rows of a line, without its side margins. */
  function TopRow(line: string): (row: Row)
    requires |line| >= 2
    ensures |row| == |line| - 2
  {
    seq(|line| - 2, i requires 0 <= i < |line| - 2 => Top(line[i + 1]))
  }

  function BottomRow(line: string): (row: Row)
    requires |line| >= 2
    ensures |row| == |line| - 2
  {
    seq(|line| - 2, i requires 0 <= i < |line| - 2 => Bottom(line[i + 1]))
  }

  function RowsOf(lines: seq<string>): (rows: seq<Row>)
    requires forall i :: 0 <= i < |lines| ==> |lines[i]| >= 2
    ensures |rows| == 2 * |lines|
  {
    if lines == [] then [] else [TopRow(lines[0]), BottomRow(lines[0])] + RowsOf(lines[1..])
  }

  predicate Uniform(row: Row) {
    forall i :: 0 <= i < |row| ==> row[i] == row[0]
  }

  function DropUniform(rows: seq<Row>): seq<Row> {
    if rows != [] && Uniform(rows[0]) then DropUniform(rows[1..]) else rows
  }

  function DropUniformEnd(rows: seq<Row>): seq<Row> {
    if rows != [] && Uniform(rows[|rows| - 1]) then DropUniformEnd(rows[..|rows| - 1]) else rows
  }

  function Trim(rows: seq<Row>): seq<Row> {
    DropUniformEnd(DropUniform(rows))
  }

  /** The square a list of rows holds between its uniform border rows. */
  function Square(rows: seq<Row>): Option<Matrix> {
    if rows == [] then None
    else
      var width, core := |rows[0]|, Trim(rows);
      if width == 0 || |core| < width then None
      else if exists i :: 0 <= i < width && |core[i]| != width then None
      else Some(core[..width])
  }

  /** What the source makes of a text. */
  function ModulesOf(text: string): Option<Matrix> {
    Square(RowsOf(QrLines(Lines(Clean(text)))))
  }

  // ---- The source's loops --------------------------------------------------------------------------

  method ReadLine(line: string) returns (top: Row, bottom: Row)
    requires IsQrLine(line)
    ensures top == TopRow(line) && bottom == BottomRow(line)
  {
    top, bottom := [], [];
    var core := line[1..|line| - 1];
    for i := 0 to |core|
      invariant top == TopRow(line)[..i] && bottom == BottomRow(line)[..i]
    {
      top := top + [Top(core[i])];
      bottom := bottom + [Bottom(core[i])];
    }
  }

  method CollectRows(lines: seq<string>) returns (rows: seq<Row>)
    ensures rows == RowsOf(QrLines(lines))
  {
    rows := [];
    for i := 0 to |lines|
      invariant rows + RowsOf(QrLines(lines[i..])) == RowsOf(QrLines(lines))
    {
      assert lines[i..][0] == lines[i] && lines[i..][1..] == lines[i + 1..];
      if IsQrLine(lines[i]) {
        var top, bottom := ReadLine(lines[i]);
        ghost var rest := RowsOf(QrLines(lines[i + 1..]));
        assert QrLines(lines[i..])[1..] == QrLines(lines[i + 1..]);
        assert rows + ([top, bottom] + rest) == (rows + [top, bottom]) + rest;
        rows := rows + [top, bottom];
      }
    }
  }

  method TrimUniform(all: seq<Row>) returns (rows: seq<Row>)
    ensures rows == Trim(all)
  {
    rows := all;
    while |rows| > 0 && Uniform(rows[0])
      invariant DropUniform(rows) == DropUniform(all)
    {
      rows := rows[1..];
    }
    while |rows| > 0 && Uniform(rows[|rows| - 1])
      invariant DropUniformEnd(rows) == Trim(all)
    {
      rows := rows[..|rows| - 1];
    }
  }

  method ModulesFromTerminalQr(text: string) returns (modules: Option<Matrix>)
    ensures modules == ModulesOf(text)
  {
    var rows := CollectRows(Lines(Clean(text)));
    if |rows| == 0 {
      return None;
    }
    var width := |rows[0]|;
    rows := TrimUniform(rows);
    if width == 0 || |rows| < width {
      return None;
    }
    if exists i :: 0 <= i < width && |rows[i]| != width {
      return None;
    }
    return Some(rows[..width]);
  }

  // ---- The printer ---------------------------------------------------------------------------------

  predicate IsSquare(modules: Matrix) {
    forall i :: 0 <= i < |modules| ==> |modules[i]| == |modules|
  }

  /** Module row `i`, or the white row that pads an odd number of them. */
  function RowOrPad(modules: Matrix, i: nat): (row: Row)
    requires IsSquare(modules)
    ensures |row| == |modules|
  {
    if i < |modules| then modules[i] else seq(|modules|, _ => false)
  }

  /** The printed palette: a filled half is a white module, and a space two black ones. */
  lemma Palette(c: char, top: bool, bottom: bool)
    ensures IsGlyph(c) && Top(c) == top && Bottom(c) == bottom <==>
            c == (if !top && !bottom then '\U{2588}' else if !top then '\U{2580}' else if !bottom then '\U{2584}' else '\U{20}')
    ensures GlyphOf(top, bottom) == c <==> IsGlyph(c) && Top(c) == top && Bottom(c) == bottom
  {
  }

  /** The line of two module rows, between white margins. */
  function PrintPair(top: Row, bottom: Row): (line: string)
    requires |top| == |bottom|
    ensures |line| == |top| + 2
  {
    [FULL] + seq(|top|, j requires 0 <= j < |top| => GlyphOf(top[j], bottom[j])) + [FULL]
  }

  function PrintLine(modules: Matrix, i: nat): (line: string)
    requires IsSquare(modules)
    ensures |line| == |modules| + 2
  {
    PrintPair(RowOrPad(modules, 2 * i), RowOrPad(modules, 2 * i + 1))
  }

  function PrintSymbol(modules: Matrix): (lines: seq<string>)
    requires IsSquare(modules)
    ensures |lines| == (|modules| + 1) / 2
    ensures forall i :: 0 <= i < |lines| ==> lines[i] == PrintLine(modules, i)
  {
    seq((|modules| + 1) / 2, i requires 0 <= i => PrintLine(modules, i))
  }

  /** Border lines: any number of lines of one repeated glyph, as wide as the symbol's. */
  predicate IsBorder(lines: seq<string>, width: nat) {
    forall i :: 0 <= i < |lines| ==> |lines[i]| == width && forall j :: 0 <= j < width ==> lines[i][j] == lines[i][0] && IsGlyph(lines[i][j])
  }

  // ---- Reading what was printed ----------------------------------------------------------------------

  predicate AllUniform(rows: seq<Row>) {
    forall i :: 0 <= i < |rows| ==> Uniform(rows[i])
  }

  predicate Noise(lines: seq<string>) {
    forall i :: 0 <= i < |lines| ==> !IsQrLine(lines[i])
  }

  lemma {:induction false} QrLinesAppend(a: seq<string>, b: seq<string>)
    ensures QrLines(a + b) == QrLines(a) + QrLines(b)
  {
    if a == [] {
      assert a + b == b;
    } else {
      assert (a + b)[1..] == a[1..] + b;
      QrLinesAppend(a[1..], b);
    }
  }

  lemma {:induction false} NoiseIsDropped(lines: seq<string>)
    requires Noise(lines)
    ensures QrLines(lines) == []
  {
    if lines != [] {
      NoiseIsDropped(lines[1..]);
    }
  }

  lemma {:induction false} QrLinesAreKept(lines: seq<string>)
    requires forall i :: 0 <= i < |lines| ==> IsQrLine(lines[i])
    ensures QrLines(lines) == lines
  {
    if lines != [] {
      QrLinesAreKept(lines[1..]);
    }
  }

  lemma {:induction false} UniformDropped(border: seq<Row>, rows: seq<Row>)
    requires AllUniform(border)
    ensures DropUniform(border + rows) == DropUniform(rows)
  {
    if border == [] {
      assert border + rows == rows;
    } else {
      assert (border + rows)[1..] == border[1..] + rows;
      UniformDropped(border[1..], rows);
    }
  }

  lemma {:induction false} UniformEndDropped(rows: seq<Row>, border: seq<Row>)
    requires AllUniform(border)
    ensures DropUniformEnd(rows + border) == DropUniformEnd(rows)
    decreases |border|
  {
    if border == [] {
      assert rows + border == rows;
    } else {
      var n := |border| - 1;
      assert (rows + border)[..|rows| + n] == rows + border[..n];
      UniformEndDropped(rows, border[..n]);
    }
  }

  /** Uniform rows around a list of rows do not change what trimming leaves of it. */
  lemma {:induction false} TrimIgnoresBorder(rows: seq<Row>, border: seq<Row>)
    requires AllUniform(border)
    ensures Trim(rows + border) == Trim(rows)
    decreases |rows|
  {
    if rows == [] {
      assert rows + border == border + [] == border;
      UniformDropped(border, []);
    } else if Uniform(rows[0]) {
      assert (rows + border)[1..] == rows[1..] + border;
      TrimIgnoresBorder(rows[1..], border);
    } else {
      UniformEndDropped(rows, border);
    }
  }

  lemma DropsAreShorter(rows: seq<Row>)
    ensures |DropUniform(rows)| <= |rows| && |DropUniformEnd(rows)| <= |rows|
    decreases |rows|
  {
    if rows != [] {
      DropsAreShorter(rows[1..]);
      DropsAreShorter(rows[..|rows| - 1]);
    }
  }

  /** Trimming keeps all rows exactly when neither end is uniform. */
  lemma TrimKeepsAll(rows: seq<Row>)
    requires rows != []
    ensures if !Uniform(rows[0]) && !Uniform(rows[|rows| - 1]) then Trim(rows) == rows else |Trim(rows)| < |rows|
  {
    DropsAreShorter(rows[1..]);
    DropsAreShorter(rows[..|rows| - 1]);
    DropsAreShorter(DropUniform(rows));
  }

  lemma BorderRowsAreUniform(lines: seq<string>, width: nat)
    requires width >= 2 && IsBorder(lines, width)
    ensures AllUniform(RowsOf(lines))
  {
    var rows := RowsOf(lines);
    forall k | 0 <= k < |rows| ensures Uniform(rows[k]) {
      var i := k / 2;
      RowsAt(lines, i);
      assert k == 2 * i || k == 2 * i + 1;
    }
  }

  lemma {:induction false} RowsOfAppend(a: seq<string>, b: seq<string>)
    requires forall i :: 0 <= i < |a| ==> |a[i]| >= 2
    requires forall i :: 0 <= i < |b| ==> |b[i]| >= 2
    ensures RowsOf(a + b) == RowsOf(a) + RowsOf(b)
  {
    if a == [] {
      assert a + b == b;
    } else {
      assert (a + b)[1..] == a[1..] + b;
      RowsOfAppend(a[1..], b);
    }
  }

  /** The rows of a printed symbol are its modules and, when their number is odd, a white row. */
  lemma SymbolRows(modules: Matrix)
    requires IsSquare(modules)
    ensures RowsOf(PrintSymbol(modules))[..|modules|] == modules
    ensures AllUniform(RowsOf(PrintSymbol(modules))[|modules|..])
  {
    var lines := PrintSymbol(modules);
    var rows := RowsOf(lines);
    forall k | 0 <= k < |rows| ensures rows[k] == RowOrPad(modules, k) {
      var i := k / 2;
      SymbolRowsAt(modules, i);
      assert k == 2 * i || k == 2 * i + 1;
    }
  }

  lemma SymbolRowsAt(modules: Matrix, i: nat)
    requires IsSquare(modules) && i < |PrintSymbol(modules)|
    ensures RowsOf(PrintSymbol(modules))[2 * i] == RowOrPad(modules, 2 * i)
    ensures RowsOf(PrintSymbol(modules))[2 * i + 1] == RowOrPad(modules, 2 * i + 1)
  {
    RowsAt(PrintSymbol(modules), i);
    PairRows(RowOrPad(modules, 2 * i), RowOrPad(modules, 2 * i + 1));
  }

  lemma {:induction false} RowsAt(lines: seq<string>, i: nat)
    requires (forall i :: 0 <= i < |lines| ==> |lines[i]| >= 2) && i < |lines|
    ensures RowsOf(lines)[2 * i] == TopRow(lines[i]) && RowsOf(lines)[2 * i + 1] == BottomRow(lines[i])
    decreases i
  {
    if i > 0 {
      RowsAt(lines[1..], i - 1);
      assert RowsOf(lines) == [TopRow(lines[0]), BottomRow(lines[0])] + RowsOf(lines[1..]);
    }
  }

  lemma PairRows(top: Row, bottom: Row)
    requires |top| == |bottom|
    ensures TopRow(PrintPair(top, bottom)) == top && BottomRow(PrintPair(top, bottom)) == bottom
  {
    var line := PrintPair(top, bottom);
    forall j | 0 <= j < |top| ensures line[j + 1] == GlyphOf(top[j], bottom[j]) {
      PairAt(top, bottom, j);
    }
    SameRow(TopRow(line), top, |top|);
    SameRow(BottomRow(line), bottom, |top|);
  }

  lemma PairAt(top: Row, bottom: Row, j: nat)
    requires |top| == |bottom| && j < |top|
    ensures PrintPair(top, bottom)[j + 1] == GlyphOf(top[j], bottom[j])
  {
  }

  lemma SameRow(a: Row, b: Row, n: nat)
    requires |a| == |b| == n && forall j :: 0 <= j < n ==> a[j] == b[j]
    ensures a == b
  {
  }

  /** Printed lines are read when the symbol is at least 28 modules wide; narrower ones are all noise. */
  lemma PrintedLines(above: seq<string>, modules: Matrix, below: seq<string>)
    requires IsSquare(modules) && IsBorder(above, |modules| + 2) && IsBorder(below, |modules| + 2)
    ensures QrLines(above + PrintSymbol(modules) + below) ==
            if |modules| >= 28 then above + PrintSymbol(modules) + below else []
  {
    var lines := above + PrintSymbol(modules) + below;
    forall i | 0 <= i < |lines| ensures |modules| >= 28 <==> IsQrLine(lines[i]) {
      if |above| <= i < |above| + |PrintSymbol(modules)| {
        assert lines[i] == PrintLine(modules, i - |above|);
      } else if i < |above| {
        assert lines[i] == above[i];
      } else {
        assert lines[i] == below[i - |above| - |PrintSymbol(modules)|];
      }
    }
    if |modules| >= 28 {
      QrLinesAreKept(lines);
    } else {
      NoiseIsDropped(lines);
    }
  }

  lemma TrimIgnoresBorders(above: seq<Row>, rows: seq<Row>, pad: seq<Row>, below: seq<Row>)
    requires AllUniform(above) && AllUniform(pad) && AllUniform(below)
    ensures Trim(above + (rows + pad) + below) == Trim(rows)
  {
    assert above + (rows + pad) + below == above + (rows + (pad + below));
    UniformDropped(above, rows + (pad + below));
    TrimIgnoresBorder(rows, pad + below);
  }

  lemma TrimSymbol(above: seq<string>, modules: Matrix, below: seq<string>)
    requires IsSquare(modules) && IsBorder(above, |modules| + 2) && IsBorder(below, |modules| + 2)
    ensures Trim(RowsOf(above + PrintSymbol(modules) + below)) == Trim(modules)
  {
    var symbol := PrintSymbol(modules);
    RowsOfAppend(above, symbol);
    RowsOfAppend(above + symbol, below);
    SymbolRows(modules);
    BorderRowsAreUniform(above, |modules| + 2);
    BorderRowsAreUniform(below, |modules| + 2);
    var pad := RowsOf(symbol)[|modules|..];
    assert RowsOf(symbol) == modules + pad;
    TrimIgnoresBorders(RowsOf(above), modules, pad, RowsOf(below));
  }

  /**
   Printing and reading back, inside any text: a symbol comes back unchanged exactly when it is at least 28
   modules wide and neither its first nor its last row is uniform. Otherwise nothing is read.
   */
  lemma PrintedReadsBack(text: string, before: seq<string>, above: seq<string>, modules: Matrix, below: seq<string>, after: seq<string>)
    requires IsSquare(modules) && IsBorder(above, |modules| + 2) && IsBorder(below, |modules| + 2)
    requires Noise(before) && Noise(after)
    requires var lines := before + (above + PrintSymbol(modules) + below) + after;
             lines != [] && OneLiners(lines) && Clean(text) == Join(lines)
    ensures ModulesOf(text) ==
            if |modules| >= 28 && !Uniform(modules[0]) && !Uniform(modules[|modules| - 1]) then Some(modules) else None
  {
    var printed := above + PrintSymbol(modules) + below;
    LinesOfJoin(before + printed + after);
    LinesAmongNoise(before, printed, after);
    PrintedLines(above, modules, below);
    if |modules| >= 28 {
      SquareOfPrinted(above, modules, below);
    }
  }

  lemma LinesAmongNoise(before: seq<string>, lines: seq<string>, after: seq<string>)
    requires Noise(before) && Noise(after)
    ensures QrLines(before + lines + after) == QrLines(lines)
  {
    QrLinesAppend(before + lines, after);
    QrLinesAppend(before, lines);
    NoiseIsDropped(before);
    NoiseIsDropped(after);
  }

  lemma SquareOfPrinted(above: seq<string>, modules: Matrix, below: seq<string>)
    requires IsSquare(modules) && IsBorder(above, |modules| + 2) && IsBorder(below, |modules| + 2) && modules != []
    ensures Square(RowsOf(above + PrintSymbol(modules) + below)) ==
            if !Uniform(modules[0]) && !Uniform(modules[|modules| - 1]) then Some(modules) else None
  {
    var printed := above + PrintSymbol(modules) + below;
    TrimSymbol(above, modules, below);
    TrimKeepsAll(modules);
    RowsAt(printed, 0);
    assert |printed[0]| == |modules| + 2;
    assert modules[..|modules|] == modules;
  }

  /** Whatever is read is a square symbol of at least 28 modules whose first row is not uniform, made of rows of the text. */
  lemma ReadIsSymbol(text: string)
    requires ModulesOf(text).Some?
    ensures var modules := ModulesOf(text).value;
            && IsSquare(modules) && |modules| >= 28 && !Uniform(modules[0])
            && exists skipped :: HasRun(RowsOf(QrLines(Lines(Clean(text)))), skipped, modules)
  {
    var lines := QrLines(Lines(Clean(text)));
    RowsAt(lines, 0);
    SquareIsRun(RowsOf(lines));
  }

  lemma SquareIsRun(rows: seq<Row>)
    requires Square(rows).Some?
    ensures var square := Square(rows).value;
            && rows != [] && |square| == |rows[0]| && IsSquare(square) && square != [] && !Uniform(square[0])
            && exists skipped :: HasRun(rows, skipped, square)
  {
    DropIsSuffix(rows);
    DropEndIsPrefix(DropUniform(rows));
    assert HasRun(rows, |rows| - |DropUniform(rows)|, Square(rows).value);
  }

  predicate HasRun(rows: seq<Row>, skipped: nat, run: seq<Row>) {
    skipped + |run| <= |rows| && rows[skipped..skipped + |run|] == run
  }

  lemma DropIsSuffix(rows: seq<Row>)
    ensures var dropped := DropUniform(rows);
            |dropped| <= |rows| && dropped == rows[|rows| - |dropped|..] && (dropped != [] ==> !Uniform(dropped[0]))
  {
  }

  lemma DropEndIsPrefix(rows: seq<Row>)
    ensures var dropped := DropUniformEnd(rows); |dropped| <= |rows| && dropped == rows[..|dropped|]
  {
  }
}
