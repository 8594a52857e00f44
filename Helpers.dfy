/**
 * The table parser (`process_data` in helpers.py): text with one row per line and
 * one cell per column becomes a table of integers and a list of row labels.
 *
 * `ParseTable` states what a call returns; `ProcessData` computes it with the
 * loops of `process_data` and is proved to return exactly that.
 */
module Helpers {
  import opened Wrappers
  import opened Text

  /** Why a call fails: the two assertions of `process_data`. */
  datatype ParseError =
    | SeparatorsEqual                  // the line and column separators coincide
    | NotSquare(line: nat, columns: nat)  // row `line` has only `columns` data cells

  /** What a successful call returns: the rows of data cells and one label per row. */
  datatype Table = Table(rows: seq<seq<int>>, labels: seq<string>)

  /** One parsed line: its label and its data cells. */
  datatype Line = Line(name: string, cells: seq<int>)

  /**
   * The value of one cell: an empty cell is 0, a cell the conversion rejects
   * (`None`, the `ValueError` branch) is 0, any other cell is what it converts to.
   */
  function CellValue(c: string, convert: string -> Option<int>): int
  {
    if c == "" then 0
    else match convert(c)
      case Some(v) => v
      case None => 0
  }

  /** The values of a list of cells, in order. */
  function ConvertCells(cells: seq<string>, convert: string -> Option<int>): seq<int>
  {
    seq(|cells|, k requires 0 <= k < |cells| => CellValue(cells[k], convert))
  }

  /** The number of leading cells that hold the label rather than data. */
  function LabelCells(hasLabels: bool): nat
  {
    if hasLabels then 1 else 0
  }

  /**
   * One line of text: split on the column separator; with labels the first cell,
   * stripped, is the label and the rest is data, otherwise the label is "".
   */
  function ParseLine(line: string, hasLabels: bool, convert: string -> Option<int>, columnSep: char): Line
  {
    var cells := Split(line, columnSep);
    if hasLabels then Line(Strip(cells[0]), ConvertCells(cells[1..], convert))
    else Line("", ConvertCells(cells, convert))
  }

  /** Every line parsed, the data cells and the labels gathered side by side. */
  function ParseLines(lines: seq<string>, hasLabels: bool, convert: string -> Option<int>, columnSep: char): Table
  {
    Table(
      seq(|lines|, i requires 0 <= i < |lines| => ParseLine(lines[i], hasLabels, convert, columnSep).cells),
      seq(|lines|, i requires 0 <= i < |lines| => ParseLine(lines[i], hasLabels, convert, columnSep).name))
  }

  /** The squareness assertion from row `from` on: the first row shorter than the row count fails. */
  function CheckSquare(t: Table, from: nat): Result<Table, ParseError>
    decreases |t.rows| - from
  {
    if from >= |t.rows| then Success(t)
    else if |t.rows[from]| < |t.rows| then Failure(NotSquare(from, |t.rows[from]|))
    else CheckSquare(t, from + 1)
  }

  /** What `process_data` returns or why it fails. */
  function ParseTable(data: string, hasLabels: bool, convert: string -> Option<int>, lineSep: char, columnSep: char)
    : Result<Table, ParseError>
  {
    if lineSep == columnSep then Failure(SeparatorsEqual)
    else CheckSquare(ParseLines(Split(data, lineSep), hasLabels, convert, columnSep), 0)
  }

  /** The inner loop of `process_data`: each cell of a line converted, with 0 for empty or rejected cells. */
  method ConvertRow(cells: seq<string>, convert: string -> Option<int>) returns (row: seq<int>)
    ensures row == ConvertCells(cells, convert)
  {
    row := [];
    for k := 0 to |cells|
      invariant |row| == k
      invariant forall j :: 0 <= j < k ==> row[j] == CellValue(cells[j], convert)
    {
      var value := 0;
      if cells[k] != "" {
        var converted := convert(cells[k]);
        if converted.Some? {
          value := converted.value;
        }
      }
      row := row + [value];
    }
  }

  /**
   * `process_data`: split into lines, peel the label off each line, convert the
   * remaining cells one by one, then check that the table is square.
   */
  method ProcessData(data: string, hasLabels: bool, convert: string -> Option<int>, lineSep: char, columnSep: char)
    returns (r: Result<Table, ParseError>)
    ensures r == ParseTable(data, hasLabels, convert, lineSep, columnSep)
  {
    if lineSep == columnSep {
      return Failure(SeparatorsEqual);
    }
    var lines := Split(data, lineSep);
    var labels: seq<string> := [];
    var table: seq<seq<int>> := [];
    for n := 0 to |lines|
      invariant |labels| == |table| == n
      invariant forall i :: 0 <= i < n ==>
                  ParseLine(lines[i], hasLabels, convert, columnSep) == Line(labels[i], table[i])
    {
      var cells := Split(lines[n], columnSep);
      var name := "";
      if hasLabels {
        name := Strip(cells[0]);
        cells := cells[1..];
      }
      var row := ConvertRow(cells, convert);
      assert ParseLine(lines[n], hasLabels, convert, columnSep) == Line(name, row);
      labels := labels + [name];
      table := table + [row];
    }
    var result := Table(table, labels);
    var parsed := ParseLines(lines, hasLabels, convert, columnSep);
    assert result.rows == parsed.rows;
    assert result.labels == parsed.labels;
    var size := |table|;
    for i := 0 to size
      invariant CheckSquare(result, i) == CheckSquare(result, 0)
    {
      if |table[i]| < size {
        return Failure(NotSquare(i, |table[i]|));
      }
    }
    return Success(result);
  }

  /**
   * The squareness check succeeds exactly when every row from `from` on has at
   * least as many cells as there are rows; otherwise it names the first short row.
   */
  lemma {:induction false} CheckSquareSpec(t: Table, from: nat)
    ensures CheckSquare(t, from).Success? <==> forall i :: from <= i < |t.rows| ==> |t.rows[i]| >= |t.rows|
    ensures CheckSquare(t, from).Success? ==> CheckSquare(t, from).value == t
    ensures CheckSquare(t, from).Failure? ==>
              var e := CheckSquare(t, from).error;
              && e.NotSquare?
              && from <= e.line < |t.rows|
              && e.columns == |t.rows[e.line]| < |t.rows|
              && forall k :: from <= k < e.line ==> |t.rows[k]| >= |t.rows|
    decreases |t.rows| - from
  {
    if from < |t.rows| && |t.rows[from]| >= |t.rows| {
      CheckSquareSpec(t, from + 1);
    }
  }

  /** The call fails with `SeparatorsEqual` exactly when the two separators coincide. */
  lemma ParseTableSeparators(data: string, hasLabels: bool, convert: string -> Option<int>, lineSep: char, columnSep: char)
    ensures ParseTable(data, hasLabels, convert, lineSep, columnSep) == Failure(SeparatorsEqual)
            <==> lineSep == columnSep
  {
    if lineSep != columnSep {
      CheckSquareSpec(ParseLines(Split(data, lineSep), hasLabels, convert, columnSep), 0);
    }
  }

  /**
   * The call succeeds exactly when the separators differ and every line has at
   * least as many data cells (column-separated cells, less the label) as there are lines.
   */
  lemma ParseTableSucceeds(data: string, hasLabels: bool, convert: string -> Option<int>, lineSep: char, columnSep: char)
    ensures ParseTable(data, hasLabels, convert, lineSep, columnSep).Success?
            <==> lineSep != columnSep
                 && var lines := Split(data, lineSep);
                    forall i :: 0 <= i < |lines| ==>
                      |Split(lines[i], columnSep)| - LabelCells(hasLabels) >= |lines|
  {
    if lineSep != columnSep {
      var lines := Split(data, lineSep);
      var t := ParseLines(lines, hasLabels, convert, columnSep);
      CheckSquareSpec(t, 0);
      assert forall i :: 0 <= i < |lines| ==>
        |t.rows[i]| == |Split(lines[i], columnSep)| - LabelCells(hasLabels);
    }
  }

  /**
   * A successful call has one label and one row per line of the input; the label is
   * the stripped first cell or "", and the row holds the remaining cells, at least
   * as many as there are rows.
   */
  lemma ParseTableShape(data: string, hasLabels: bool, convert: string -> Option<int>, lineSep: char, columnSep: char)
    requires ParseTable(data, hasLabels, convert, lineSep, columnSep).Success?
    ensures var t := ParseTable(data, hasLabels, convert, lineSep, columnSep).value;
            var lines := Split(data, lineSep);
            && |t.labels| == |t.rows| == |lines|
            && forall i :: 0 <= i < |lines| ==>
                 && t.labels[i] == (if hasLabels then Strip(Split(lines[i], columnSep)[0]) else "")
                 && |t.rows[i]| == |Split(lines[i], columnSep)| - LabelCells(hasLabels)
                 && |t.rows[i]| >= |lines|
  {
    CheckSquareSpec(ParseLines(Split(data, lineSep), hasLabels, convert, columnSep), 0);
  }

  /** Data cell `j` of a parsed line is the cell rule applied to its column-separated cell. */
  lemma ParseLineCell(line: string, hasLabels: bool, convert: string -> Option<int>, columnSep: char, j: nat)
    requires j + LabelCells(hasLabels) < |Split(line, columnSep)|
    ensures var cells := ParseLine(line, hasLabels, convert, columnSep).cells;
            && j < |cells|
            && cells[j] == CellValue(Split(line, columnSep)[j + LabelCells(hasLabels)], convert)
  {
    var cells := Split(line, columnSep);
    var data := if hasLabels then cells[1..] else cells;
    assert ParseLine(line, hasLabels, convert, columnSep).cells == ConvertCells(data, convert);
    assert data[j] == cells[j + LabelCells(hasLabels)];
  }

  /**
   * In a successful call, data cell `j` of row `i` is the column-separated cell
   * `j` (`j + 1` with labels) of line `i`: 0 when it is empty, 0 when the
   * conversion rejects it, the converted value otherwise.
   */
  lemma ParseTableCell(data: string, hasLabels: bool, convert: string -> Option<int>, lineSep: char, columnSep: char,
                       i: nat, j: nat)
    requires ParseTable(data, hasLabels, convert, lineSep, columnSep).Success?
    requires i < |Split(data, lineSep)|
    requires j + LabelCells(hasLabels) < |Split(Split(data, lineSep)[i], columnSep)|
    ensures var t := ParseTable(data, hasLabels, convert, lineSep, columnSep).value;
            var c := Split(Split(data, lineSep)[i], columnSep)[j + LabelCells(hasLabels)];
            && i < |t.rows| && j < |t.rows[i]|
            && (c == "" ==> t.rows[i][j] == 0)
            && (c != "" && convert(c).None? ==> t.rows[i][j] == 0)
            && (c != "" && convert(c).Some? ==> t.rows[i][j] == convert(c).value)
  {
    var lines := Split(data, lineSep);
    var parsed := ParseLines(lines, hasLabels, convert, columnSep);
    CheckSquareSpec(parsed, 0);
    assert ParseTable(data, hasLabels, convert, lineSep, columnSep).value == parsed;
    ParseLineCell(lines[i], hasLabels, convert, columnSep, j);
    assert parsed.rows[i] == ParseLine(lines[i], hasLabels, convert, columnSep).cells;
  }

  /**
   * A failing squareness check names the first line whose data cells are fewer
   * than the lines, and that line's data-cell count.
   */
  lemma ParseTableNotSquare(data: string, hasLabels: bool, convert: string -> Option<int>, lineSep: char, columnSep: char)
    requires ParseTable(data, hasLabels, convert, lineSep, columnSep).Failure?
    requires lineSep != columnSep
    ensures var e := ParseTable(data, hasLabels, convert, lineSep, columnSep).error;
            var lines := Split(data, lineSep);
            && e.NotSquare?
            && e.line < |lines|
            && e.columns == |Split(lines[e.line], columnSep)| - LabelCells(hasLabels) < |lines|
            && forall k :: 0 <= k < e.line ==> |Split(lines[k], columnSep)| - LabelCells(hasLabels) >= |lines|
  {
    var lines := Split(data, lineSep);
    var t := ParseLines(lines, hasLabels, convert, columnSep);
    CheckSquareSpec(t, 0);
    assert forall k :: 0 <= k < |lines| ==>
      |t.rows[k]| == |Split(lines[k], columnSep)| - LabelCells(hasLabels);
  }

  /**
   * A line separator at the very end of the text makes one more, empty, line; it
   * has no data cell with labels and one without, too few for a table of at least
   * two lines, so the call fails.
   */
  lemma ParseTableTrailingSeparator(data: string, hasLabels: bool, convert: string -> Option<int>,
                                    lineSep: char, columnSep: char)
    requires lineSep != columnSep
    ensures ParseTable(data + [lineSep], hasLabels, convert, lineSep, columnSep).Failure?
    ensures ParseTable(data + [lineSep], hasLabels, convert, lineSep, columnSep).error.NotSquare?
  {
    var lines := Split(data + [lineSep], lineSep);
    SplitTrailing(data, lineSep);
    var last := |lines| - 1;
    assert lines[last] == "";
    assert Split("", columnSep) == [""];
    ParseTableSucceeds(data + [lineSep], hasLabels, convert, lineSep, columnSep);
    ParseTableSeparators(data + [lineSep], hasLabels, convert, lineSep, columnSep);
  }

  /** One row written out as text: its label cell when labels are written, then its cells. */
  function FormatLine(name: string, row: seq<int>, hasLabels: bool, show: int -> string, columnSep: char): string
  {
    Join(LabelPrefix(name, hasLabels) + ShowCells(row, show), columnSep)
  }

  /** The cells of a row shown as text. */
  function ShowCells(row: seq<int>, show: int -> string): seq<string>
  {
    seq(|row|, k requires 0 <= k < |row| => show(row[k]))
  }

  /** The label cell of a line, if labels are written. */
  function LabelPrefix(name: string, hasLabels: bool): seq<string>
  {
    if hasLabels then [name] else []
  }

  /** A table written out as text, one line per row. */
  function Serialize(t: Table, hasLabels: bool, show: int -> string, lineSep: char, columnSep: char): string
    requires |t.labels| == |t.rows|
  {
    Join(SerializeLines(t, hasLabels, show, columnSep), lineSep)
  }

  /** The lines of `Serialize`. */
  function SerializeLines(t: Table, hasLabels: bool, show: int -> string, columnSep: char): seq<string>
    requires |t.labels| == |t.rows|
  {
    seq(|t.rows|, i requires 0 <= i < |t.rows| => FormatLine(t.labels[i], t.rows[i], hasLabels, show, columnSep))
  }

  /** `show` writes every integer as a non-empty cell without separators that `convert` reads back. */
  ghost predicate Readable(show: int -> string, convert: string -> Option<int>, lineSep: char, columnSep: char)
  {
    forall v: int {:trigger show(v)} :: show(v) != "" && convert(show(v)) == Some(v) && lineSep !in show(v) && columnSep !in show(v)
  }

  /** A label that survives parsing: no separator inside and no whitespace at its ends. */
  predicate PlainLabel(name: string, lineSep: char, columnSep: char)
  {
    Strip(name) == name && lineSep !in name && columnSep !in name
  }

  /** The shown cells of a row are free of both separators. */
  lemma CellsFree(row: seq<int>, show: int -> string, convert: string -> Option<int>, lineSep: char, columnSep: char)
    requires Readable(show, convert, lineSep, columnSep)
    ensures forall p :: p in ShowCells(row, show) ==> lineSep !in p && columnSep !in p
  {
    var cells := ShowCells(row, show);
    forall p | p in cells
      ensures lineSep !in p && columnSep !in p
    {
      var k :| 0 <= k < |row| && p == cells[k];
      var v := row[k];
      assert p == show(v);
    }
  }

  /** The pieces of one written line are free of both separators. */
  lemma LinePiecesFree(name: string, row: seq<int>, hasLabels: bool, show: int -> string,
                       convert: string -> Option<int>, lineSep: char, columnSep: char)
    requires Readable(show, convert, lineSep, columnSep)
    requires hasLabels ==> PlainLabel(name, lineSep, columnSep)
    ensures forall p :: p in LabelPrefix(name, hasLabels) + ShowCells(row, show) ==> lineSep !in p && columnSep !in p
  {
    var prefix, cells := LabelPrefix(name, hasLabels), ShowCells(row, show);
    CellsFree(row, show, convert, lineSep, columnSep);
    forall p | p in prefix + cells
      ensures lineSep !in p && columnSep !in p
    {
      if p in prefix {
        assert p == name;
      }
    }
  }

  /** Parsing one written line gives back its label (or "") and its row. */
  lemma {:induction false} ParseFormatLine(name: string, row: seq<int>, hasLabels: bool, show: int -> string,
                                           convert: string -> Option<int>, lineSep: char, columnSep: char)
    requires Readable(show, convert, lineSep, columnSep)
    requires hasLabels ==> PlainLabel(name, lineSep, columnSep)
    requires |row| >= 1
    ensures ParseLine(FormatLine(name, row, hasLabels, show, columnSep), hasLabels, convert, columnSep)
            == Line(if hasLabels then name else "", row)
  {
    var pieces := LabelPrefix(name, hasLabels) + ShowCells(row, show);
    var cells := ShowCells(row, show);
    LinePiecesFree(name, row, hasLabels, show, convert, lineSep, columnSep);
    SplitJoin(pieces, columnSep);
    assert Split(FormatLine(name, row, hasLabels, show, columnSep), columnSep) == pieces;
    forall k | 0 <= k < |row|
      ensures CellValue(cells[k], convert) == row[k]
    {
      assert cells[k] == show(row[k]);
    }
    assert ConvertCells(cells, convert) == row;
    if hasLabels {
      assert pieces[1..] == cells;
      assert Strip(pieces[0]) == name;
    } else {
      assert pieces == cells;
    }
  }

  /**
   * Round trip: writing a table whose rows have at least as many cells as there are
   * rows, with a `show` that `convert` inverts and plain labels, and parsing the
   * text back gives the same rows and, with labels, the same labels.
   */
  lemma RoundTrip(t: Table, hasLabels: bool, show: int -> string, convert: string -> Option<int>,
                  lineSep: char, columnSep: char)
    requires lineSep != columnSep
    requires |t.rows| >= 1 && |t.labels| == |t.rows|
    requires forall i :: 0 <= i < |t.rows| ==> |t.rows[i]| >= |t.rows|
    requires Readable(show, convert, lineSep, columnSep)
    requires hasLabels ==> forall i :: 0 <= i < |t.labels| ==> PlainLabel(t.labels[i], lineSep, columnSep)
    ensures ParseTable(Serialize(t, hasLabels, show, lineSep, columnSep), hasLabels, convert, lineSep, columnSep)
            == Success(Table(t.rows, if hasLabels then t.labels else seq(|t.rows|, _ => "")))
  {
    var lines := SerializeLines(t, hasLabels, show, columnSep);
    var labels := if hasLabels then t.labels else seq(|t.rows|, _ => "");
    forall p | p in lines
      ensures lineSep !in p
    {
      var i :| 0 <= i < |lines| && p == lines[i];
      LinePiecesFree(t.labels[i], t.rows[i], hasLabels, show, convert, lineSep, columnSep);
      JoinAvoids(LabelPrefix(t.labels[i], hasLabels) + ShowCells(t.rows[i], show), columnSep, lineSep);
    }
    SplitJoin(lines, lineSep);
    assert Split(Serialize(t, hasLabels, show, lineSep, columnSep), lineSep) == lines;
    forall i | 0 <= i < |lines|
      ensures ParseLine(lines[i], hasLabels, convert, columnSep) == Line(labels[i], t.rows[i])
    {
      ParseFormatLine(t.labels[i], t.rows[i], hasLabels, show, convert, lineSep, columnSep);
    }
    var parsed := ParseLines(lines, hasLabels, convert, columnSep);
    assert parsed.rows == t.rows;
    assert parsed.labels == labels;
    CheckSquareSpec(parsed, 0);
  }
}
