# PageRank pipeline in Dafny

A model of the ranking pipeline of the `pagerank` repository. The pipeline has two parts.

The table parser `process_data` (helpers.py) reads text with one row per line and one cell per column. It can peel a label off each line and converts every other cell to an integer. It then asserts that the table is square.

The matrix stages of main.py are:
- `normalise`: make every column sum to 1;
- `prepare_data`: damp the matrix towards the uniform matrix;
- `rank`: square the matrix `epochs` times;
- `isolate_results`: read out column 0;
- `append_labels`: pair the scores with their labels;
- `sort_result`: sort the pairs, best score first by default.

Numbers are exact `real`s, so every property holds exactly rather than up to rounding. A matrix is a `seq<seq<real>>`. Each failing Python `assert` becomes a `Failure` value of a `Result` (`SeparatorsEqual` and `NotSquare` in the parser, `NotSquare` in the matrix stages). So do two run-time errors: the division `1 / 0` on an empty matrix (`ZeroDivision` in `PrepareData`) and indexing column 0 of a matrix without columns (`NoColumn` in `IsolateResults`). The other run-time errors are listed under "## Left out".

Modules:
- `Wrappers`: `Option` and `Result`.
- `Sums`: finite sums `Sum(n, f)` and their algebra.
- `Text`: Python's `str.split`, `str.join` and `str.strip` for one-character separators.
- `Helpers`: `process_data`. `ParseTable` is the specification function. `ProcessData` is the loop method proved to compute it.
- `Matrices`: entries, column sums, the product and its associativity, powers, and column-stochastic matrices.
- `Ranking`: `normalise`, `prepare_data` and `rank`. `Rank` is a loop method proved against `Squarings`.
- `Results`: `isolate_results`, `append_labels` and `sort_result`. `sort_result` is a stable insertion sort, specified by a permutation lemma, an ordering lemma and a stability lemma.
- `Scenario`: the pipeline on a two-page example. With `Digit` as the converter (a one-digit stand-in for `int`), the text `"A\t1\t0\nB\t0\t1"` parses to the identity with labels `A` and `B`. Normalising keeps the identity. Damping with proportion 0.5 gives `[[0.75,0.25],[0.25,0.75]]`. One epoch gives `[[0.625,0.375],[0.375,0.625]]`. The sorted read-out is `[("A",0.625),("B",0.375)]`.

## Model

| member | source | states |
|---|---|---|
| Helpers.ParseTable | helpers.py:29-73 | The definition of what `process_data` returns or why it fails. It is characterised by `ParseTableSeparators`, `ParseTableSucceeds`, `ParseTableShape`, `ParseTableCell`, `ParseTableNotSquare` and `RoundTrip`, and `ProcessData` is proved to compute it. |
| Helpers.ParseLine | helpers.py:52-57 | One line split on the column separator. With labels, the stripped first cell is the label and the rest is data; without labels, the label is "" and every cell is data. It is characterised by `ParseLineCell`, `ParseTableShape` and `ParseFormatLine`. |
| Helpers.CellValue | helpers.py:59-67 | The cell rule: 0 for an empty cell, 0 when the conversion rejects the cell, the converted value otherwise. `ConvertRow` and `ParseTableCell` state it for each cell. |
| Helpers.CheckSquare | helpers.py:69-72 | The squareness loop from row `from` on. It is characterised by `CheckSquareSpec`. |
| Helpers.ProcessData | helpers.py:29-73 | The method returns exactly `ParseTable`. It fails with `SeparatorsEqual` when the separators coincide. Otherwise it returns the labels and rows built line by line, or `NotSquare` for the first short row. |
| Helpers.ConvertRow | helpers.py:59-67 | The inner loop yields, for each cell in order, 0 when the cell is empty, 0 when the conversion rejects it, and the converted value otherwise. |
| Helpers.ParseTableSeparators | helpers.py:45 | The call fails with `SeparatorsEqual` if and only if the line and column separators are equal. |
| Helpers.ParseTableSucceeds | helpers.py:45-72 | The call succeeds if and only if the separators differ and every line has at least as many data cells as there are lines. |
| Helpers.ParseTableShape | helpers.py:46-57 | On success there is one label and one row per piece of the line split. With labels, the label is the stripped first cell; without labels, it is "". A row holds the cell count minus the label cell, and that is at least the number of rows. |
| Helpers.ParseTableCell | helpers.py:52-67 | On success, data cell `j` of row `i` comes from cell `j` (cell `j + 1` with labels) of line `i`. An empty cell gives 0, a rejected cell gives 0, and any other cell gives its converted value. |
| Helpers.ParseLineCell | helpers.py:52-67 | The same cell rule for one parsed line. |
| Helpers.ParseTableNotSquare | helpers.py:69-72 | A failing squareness check names the first line with fewer data cells than there are lines, and that line's data-cell count. Every earlier line is long enough. |
| Helpers.CheckSquareSpec | helpers.py:69-72 | The check passes exactly when every row from `from` on has at least as many cells as there are rows, so longer rows pass. On success the table is returned unchanged. On failure the check names the first short row. |
| Helpers.ParseTableTrailingSeparator | helpers.py:46-72 | A line separator at the end of the text adds an empty line, which makes the call fail with `NotSquare`. |
| Helpers.RoundTrip | helpers.py:29-73 | Suppose a table has rows with at least as many cells as rows, `convert` inverts `show`, and the labels are plain. Writing the table out and parsing it back then gives the same rows, and with labels the same labels. |
| Helpers.ParseFormatLine | helpers.py:52-67 | Parsing one written line gives back its label (or "") and its row. |
| Helpers.LinePiecesFree | helpers.py:52 | The cells of a written line contain neither separator. |
| Text.Split | helpers.py:46 | `str.split` always yields at least one piece. |
| Text.SplitPiecesFree | helpers.py:46 | No piece of a split contains the separator. |
| Text.JoinSplit | helpers.py:46 | Joining the pieces of a split with the separator restores the text. |
| Text.SplitJoin | helpers.py:52 | Splitting the join of one or more separator-free pieces gives back the pieces. |
| Text.SplitTrailing | helpers.py:46 | A trailing separator adds exactly one empty piece at the end. |
| Text.Strip | helpers.py:55 | `str.strip`, defined as whitespace dropped at both ends. It is characterised by `StripSlice`, `StripTrimmed` and `StripIdempotent`. |
| Text.StripSlice | helpers.py:55 | `strip` keeps the slice between the leading and the trailing whitespace. The result neither starts nor ends with whitespace. |
| Text.StripTrimmed | helpers.py:55 | A string without whitespace at either end is unchanged by `strip`. |
| Text.StripIdempotent | helpers.py:55 | Stripping twice is stripping once. |
| Ranking.Normalise | main.py:32 | The matrix keeps its rows, its rectangular shape and its width. |
| Ranking.NormaliseRescales | main.py:32 | Entry `(i, j)` times the original column sum `j` is the original entry, so entry `(i, j)` is `M[i][j] / Σ_k M[k][j]`. |
| Ranking.NormaliseColumnStochastic | main.py:26-32 | When no column sums to 0, every column of the result sums to 1. |
| Ranking.NormaliseFixesStochastic | main.py:32 | A matrix whose columns already sum to 1 is unchanged. |
| Ranking.NormaliseIdempotent | main.py:32 | Normalising twice is normalising once. |
| Ranking.NormaliseBounds | main.py:32 | A non-negative matrix normalises to entries between 0 and 1. |
| Ranking.PrepareData | main.py:42-43 | The call succeeds if and only if the matrix is square and non-empty, and then returns `Damp(m, proportion)`. A non-square matrix fails the assertion with `NotSquare`. An empty square matrix fails on `1 / 0` with `ZeroDivision`. |
| Ranking.Damp | main.py:43 | The damped matrix keeps the N×N shape. |
| Ranking.DampEntry | main.py:43 | Entry `(k, j)` is `p * M[k][j] + (1 - p) * (1 / N)`. |
| Ranking.DampKeeps | main.py:43 | With `proportion = 1` the matrix is unchanged. |
| Ranking.DampUniform | main.py:43 | With `proportion = 0` every entry is `1 / N`. |
| Ranking.DampColumnShares | main.py:43 | Each damped column sums to `p` times the original sum plus `N` shares of `(1 - p) / N`. |
| Ranking.DampColumnSum | main.py:43 | Each damped column sums to `p` times the original sum plus `1 - p`. |
| Ranking.DampColumnStochastic | main.py:35-43 | A column-stochastic matrix stays column-stochastic, for any proportion. |
| Ranking.DampPositive | main.py:43 | For a non-negative matrix and `0 <= p < 1`, every damped entry is positive. |
| Ranking.Iterations | main.py:54 | The number of passes `range(epochs)` makes: `epochs`, or none when `epochs` is negative. `Rank` states its effect: with `epochs <= 0` the input comes back unchanged. |
| Ranking.Rank | main.py:46-57 | The call succeeds if and only if the matrix is square, and fails otherwise with `NotSquare`. The result is `epochs` squarings of the input. With `epochs <= 0` the input comes back unchanged. |
| Ranking.Squarings | main.py:54-56 | Repeated squaring keeps the N×N shape. |
| Ranking.SquaringsPow | main.py:54-56 | `k` squarings of `M` are `M^(2^k)`. |
| Ranking.SquaringsColumnStochastic | main.py:56 | Squaring keeps a column-stochastic matrix column-stochastic, any number of times. |
| Ranking.SquaringsNonNegative | main.py:56 | Squaring keeps a non-negative matrix non-negative, any number of times. Together with `SquaringsColumnStochastic` and `IsolateResultsDistribution`, column 0 of the ranked matrix is then a distribution. |
| Matrices.Mul | main.py:56 | The product of two N×N matrices is N×N. |
| Matrices.MulEntry | main.py:56 | Entry `(i, j)` of `a . b` is `Σ_k a[i][k] * b[k][j]`. |
| Matrices.MulAssoc | main.py:56 | The matrix product is associative. |
| Matrices.MulColumnStochastic | main.py:56 | The product of two column-stochastic matrices is column-stochastic. |
| Matrices.MulNonNegative | main.py:56 | The product of two non-negative matrices is non-negative. |
| Matrices.Pow | main.py:54-56 | Powers of an N×N matrix are N×N. |
| Matrices.PowAdd | main.py:54-56 | `M^(x+y) = M^x . M^y`. |
| Results.IsolateResults | main.py:66 | The call succeeds if and only if the matrix has a column. The result has one entry per row, and entry `i` is `M[i][0]`. |
| Results.IsolateResultsDistribution | main.py:66 | Column 0 of a non-negative column-stochastic matrix is a distribution: scores are non-negative and sum to 1. |
| Results.AppendLabels | main.py:76 | `zip` has the length of the shorter list, and pair `i` is `(labels[i], results[i])`. |
| Results.AppendLabelsUnzip | main.py:76 | When the lists have equal length, taking the pairs apart gives back the labels and the scores. |
| Results.SortResult | main.py:79-87 | The output has the input's length. |
| Results.SortResultPermutation | main.py:87 | The output is a permutation of the input (equal multisets). |
| Results.SortResultOrdered | main.py:87 | The output is non-increasing by key when `reverse` holds and non-decreasing otherwise. |
| Results.SortResultStable | main.py:87 | The elements sharing any one key appear in the output in their input order. |
| Results.SortResultUnique | main.py:87 | Suppose a sequence is sorted in the requested direction and keeps the input order among equal keys. Then it is the output. So `sort_result` is exactly Python's stable `sorted`. |
| Results.SortResultReverse | main.py:83-87 | When no two elements share a key, sorting with `reverse=False` gives the `reverse=True` output back to front. |
| Results.Score | main.py:79 | The default key `lambda x: x[1]`: the score of a (label, score) pair. `SortResultBestFirst` uses it. |
| Results.SortResultBestFirst | main.py:79-87 | With the defaults (`reverse=True`, key = second element), the output is a permutation whose scores are non-increasing. |
| Results.InsertPermutation | main.py:87 | Inserting one element adds exactly that element. |
| Results.InsertOrdered | main.py:87 | Inserting into a sorted list keeps it sorted. |
| Results.InsertStable | main.py:87 | Inserting `x` into a sorted list puts it after every element with the same key. |
| Sums.SumSwap | main.py:56 | A double sum can be taken in either order. This is used for associativity. |
| Sums.SumAffine | main.py:43 | The sum of `c * f(k) + u` is `c` times the sum of `f` plus `n * u`. |
| Scenario.ParseExample | helpers.py:29-73 | The text `"A\t1\t0\nB\t0\t1"` with labels parses to `[[1,0],[0,1]]` with labels `["A","B"]`. The converter is `Digit`, which reads one decimal digit and stands in for the default `int`. |
| Scenario.NormaliseExample | main.py:32 | The parsed identity is the real identity, and normalising keeps it. |
| Scenario.PrepareExample | main.py:42-43 | Damping the identity with 0.5 gives `[[0.75,0.25],[0.25,0.75]]`. |
| Scenario.RankExample | main.py:54-56 | One epoch turns the damped matrix into `[[0.625,0.375],[0.375,0.625]]`. |
| Scenario.ResultsExample | main.py:66-87 | Column 0 is `[0.625,0.375]`. Pairing with `["A","B"]` and sorting best first gives `[("A",0.625),("B",0.375)]`. |

## Left out

- Ranking.Normalise: requires every column sum to be non-zero. For a zero column the source divides by zero and yields `inf`/`NaN` entries under floating point, which exact reals cannot represent.
- Floating point: rounding, overflow and underflow over many epochs are not modelled. All numbers are exact `real`s.
- `convert_data`: modelled as a parameter `string -> Option<int>`. `None` stands for a raised `ValueError`. Other exceptions, which would propagate out of `process_data`, are not modelled, and neither is the grammar of Python's `int()`.
- The Python default arguments are not modelled; every parameter is passed explicitly. The defaults are `has_labels=True`, `convert_data=int`, `line_separator='\n'` and `column_separator='\t'` (helpers.py:31-34), `proportion=.85` (main.py:35), `epochs=10` (main.py:46), and `reverse=True` with the second element as key (main.py:79). The worked example passes `'\n'`, `'\t'`, labels, and `reverse=True` with `Score`.
- Separators are single characters. Multi-character separators, and the `ValueError` Python raises for an empty separator, are not modelled.
- Helpers.ProcessData: returns the list of rows rather than `np.array(table)`. NumPy's treatment of ragged rows, which the squareness check lets through when a row is longer, is not modelled. The matrix stages take a rectangular matrix as a precondition instead.
- Matrices are `seq<seq<real>>`. An empty table is read as a 0×0 matrix. NumPy's one-dimensional arrays, and the shape `(0,)` that `np.array([])` would have, are not modelled.
- Results.SortResult: the key is a function to `real`. Keys of other ordered types (tuples, strings) are not modelled.
- Results.AppendLabels: `zip` is lazy in Python. The model returns the list the iterator yields.
- The plotting and printing functions (`show_results_graph`, `show_matrix`), the conditional `matplotlib` import with its warning, and the `__main__` example driver are not modelled. They are presentation, I/O and randomness.
