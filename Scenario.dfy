/**
 * The pipeline end to end on a two-page example: two labelled lines of text,
 * parsed, normalised, damped with proportion 0.5, ranked for one epoch, and read out.
 */
module Scenario {
  import opened Wrappers
  import opened Sums
  import opened Text
  import opened Helpers
  import opened Matrices
  import opened Ranking
  import opened Results

  /** A converter for single decimal digits; anything else is rejected. */
  function Digit(s: string): Option<int>
  {
    if |s| == 1 && '0' <= s[0] <= '9' then Some(s[0] as int - '0' as int) else None
  }

  /** The parsed integer table as a matrix of numbers. */
  function AsMatrix(rows: seq<seq<int>>): Matrix
  {
    seq(|rows|, i requires 0 <= i < |rows| =>
      seq(|rows[i]|, j requires 0 <= j < |rows[i]| => rows[i][j] as real))
  }

  const Input: string := "A\t1\t0\nB\t0\t1"

  /** Splitting text joined from separator-free pieces gives the pieces back. */
  lemma SplitLines()
    ensures Split(Input, '\n') == ["A\t1\t0", "B\t0\t1"]
  {
    var lines := ["A\t1\t0", "B\t0\t1"];
    assert Join(lines[1..], '\n') == "B\t0\t1";
    assert Join(lines, '\n') == Input;
    SplitJoin(lines, '\n');
  }

  /** A line of three one-character cells splits into those cells. */
  lemma SplitCells(name: char, x: char, y: char)
    requires name != '\t' && x != '\t' && y != '\t'
    ensures Split([name, '\t', x, '\t', y], '\t') == [[name], [x], [y]]
  {
    var cells := [[name], [x], [y]];
    assert Join(cells[2..], '\t') == [y];
    assert Join(cells[1..], '\t') == [x, '\t', y];
    assert Join(cells, '\t') == [name, '\t', x, '\t', y];
    SplitJoin(cells, '\t');
  }

  /** A labelled line of three cells: its stripped first cell and the values of the other two. */
  lemma ParseThreeCells(line: string, cells: seq<string>)
    requires Split(line, '\t') == cells && |cells| == 3
    ensures ParseLine(line, true, Digit, '\t')
         == Line(Strip(cells[0]), [CellValue(cells[1], Digit), CellValue(cells[2], Digit)])
  {
    var values := ConvertCells(cells[1..], Digit);
    assert |values| == 2;
    Pair(values);
  }

  /** A single digit is a non-empty cell that converts to its value. */
  lemma DigitCell(c: string, x: char)
    requires c == [x] && '0' <= x <= '9'
    ensures CellValue(c, Digit) == x as int - '0' as int
  {
  }

  /** A line whose cells are a one-letter label and two digits. */
  lemma ParseDigitsLine(line: string, name: char, x: char, y: char)
    requires Split(line, '\t') == [[name], [x], [y]]
    requires !IsSpace(name)
    requires '0' <= x <= '9' && '0' <= y <= '9'
    ensures ParseLine(line, true, Digit, '\t')
         == Line([name], [x as int - '0' as int, y as int - '0' as int])
  {
    var cells := Split(line, '\t');
    ParseThreeCells(line, cells);
    StripTrimmed(cells[0]);
    DigitCell(cells[1], x);
    DigitCell(cells[2], y);
  }

  /** One labelled line: the stripped label and the converted digits. */
  lemma ParseLineExample(name: char, x: char, y: char)
    requires name == 'A' || name == 'B'
    requires '0' <= x <= '9' && '0' <= y <= '9'
    ensures ParseLine([name, '\t', x, '\t', y], true, Digit, '\t')
         == Line([name], [x as int - '0' as int, y as int - '0' as int])
  {
    SplitCells(name, x, y);
    ParseDigitsLine([name, '\t', x, '\t', y], name, x, y);
  }

  /** Both lines parsed: the rows of the identity and the labels A and B. */
  lemma ParseLinesExample(lines: seq<string>)
    requires lines == [['A', '\t', '1', '\t', '0'], ['B', '\t', '0', '\t', '1']]
    ensures ParseLines(lines, true, Digit, '\t') == Table([[1, 0], [0, 1]], ["A", "B"])
  {
    ParseLineExample('A', '1', '0');
    ParseLineExample('B', '0', '1');
    var first := ParseLine(lines[0], true, Digit, '\t');
    var second := ParseLine(lines[1], true, Digit, '\t');
    assert first == Line("A", [1, 0]);
    assert second == Line("B", [0, 1]);
    var t := ParseLines(lines, true, Digit, '\t');
    assert |t.rows| == 2;
    assert t.rows[0] == first.cells;
    assert t.rows[1] == second.cells;
    Pair(t.rows);
    Pair(t.labels);
    assert t.labels[0] == first.name && t.labels[1] == second.name;
  }

  /** A sequence of two elements, spelled out. */
  lemma Pair<T>(s: seq<T>)
    requires |s| == 2
    ensures s == [s[0], s[1]]
  {
  }

  /** The labelled text parses to the identity matrix and the labels A and B. */
  lemma ParseExample()
    ensures ParseTable(Input, true, Digit, '\n', '\t') == Success(Table([[1, 0], [0, 1]], ["A", "B"]))
  {
    var lines := Split(Input, '\n');
    SplitLines();
    ParseLinesExample(lines);
    var t := Table([[1, 0], [0, 1]], ["A", "B"]);
    CheckSquareSpec(t, 0);
  }

  /** A sum of two terms. */
  lemma SumTwo(f: nat -> real)
    ensures Sum(2, f) == f(0) + f(1)
  {
    assert Sum(1, f) == Sum(0, f) + f(0);
  }

  const Identity: Matrix := [[1.0, 0.0], [0.0, 1.0]]
  const Damped: Matrix := [[0.75, 0.25], [0.25, 0.75]]
  const Ranked: Matrix := [[0.625, 0.375], [0.375, 0.625]]

  /** The identity is already column-stochastic, so normalising keeps it. */
  lemma NormaliseExample()
    ensures AsMatrix([[1, 0], [0, 1]]) == Identity
    ensures Normalise(Identity) == Identity
  {
    var m := AsMatrix([[1, 0], [0, 1]]);
    assert m[0] == Identity[0] && m[1] == Identity[1];
    assert IsRectangular(Identity) && Width(Identity) == 2;
    SumTwo(ColumnOf(Identity, 0));
    SumTwo(ColumnOf(Identity, 1));
    NormaliseFixesStochastic(Identity);
  }

  /** Damping the identity with proportion 0.5 gives 3/4 on the diagonal and 1/4 elsewhere. */
  lemma PrepareExample()
    ensures PrepareData(Identity, 0.5) == Success(Damped)
  {
    assert IsRectangular(Identity) && IsSquare(Identity) && Width(Identity) == 2;
    var r := Damp(Identity, 0.5);
    assert Share(2, 0.5) == 0.25;
    forall i, j | 0 <= i < 2 && 0 <= j < 2
      ensures r[i][j] == Damped[i][j]
    {
      assert r[i][j] == 0.5 * Identity[i][j] + 0.25;
    }
    assert r[0] == Damped[0] && r[1] == Damped[1];
    assert r == Damped;
  }

  /** One epoch squares the damped matrix. */
  lemma RankExample()
    ensures IsSquare(Damped)
    ensures Squarings(Damped, Iterations(1)) == Ranked
  {
    var r := Squarings(Damped, 1);
    assert r == Mul(Damped, Damped);
    forall i, j | 0 <= i < 2 && 0 <= j < 2
      ensures r[i][j] == Ranked[i][j]
    {
      MulEntry(Damped, Damped, i, j);
      SumTwo(ProductTerms(Damped, Damped, i, j));
    }
    assert r[0] == Ranked[0] && r[1] == Ranked[1];
  }

  /** Column 0, paired with the labels and sorted best first. */
  lemma ResultsExample()
    ensures IsolateResults(Ranked) == Success([0.625, 0.375])
    ensures AppendLabels([0.625, 0.375], ["A", "B"]) == [("A", 0.625), ("B", 0.375)]
    ensures SortResult([("A", 0.625), ("B", 0.375)], true, Score) == [("A", 0.625), ("B", 0.375)]
  {
    assert IsRectangular(Ranked) && Width(Ranked) == 2;
    var column := IsolateResults(Ranked).value;
    assert column[0] == 0.625 && column[1] == 0.375;
    assert column == [0.625, 0.375];
    var pairs := [("A", 0.625), ("B", 0.375)];
    assert pairs[..1] == [("A", 0.625)];
    assert SortResult(pairs[..1][..0], true, Score) == [];
    assert SortResult(pairs[..1], true, Score) == [("A", 0.625)];
    assert !Precedes(Score(pairs[1]), Score(pairs[0]), true);
    assert Insert(pairs[1], [pairs[0]], true, Score) == [pairs[0]] + Insert(pairs[1], [], true, Score);
    assert SortResult(pairs, true, Score) == Insert(pairs[1], SortResult(pairs[..1], true, Score), true, Score);
  }
}
