# Comparador: column-wise content comparison

This project models the comparison at the heart of the Comparador tool
(`comparador.py`), which compares a base spreadsheet with a spreadsheet to
compare. The function `comparar_contenido_columnas`:

1. checks that both tables have the same column labels in the same order,
   and raises a `ValueError` ("Los DataFrames no tienen las mismas
   columnas") otherwise;
2. for every base column, in base order, computes one flag per base row,
   set when that base cell's value occurs nowhere among the values of the
   candidate's column of the same name;
3. keeps, in an insertion-ordered dictionary, only the columns with at
   least one set flag.

The user interface then reports, per kept column, the number of set flags
(`diff.sum()`).

In the model, in the single module `Comparador` (`comparador.dfy`):

- a table is `Table<V>`: ordered column labels, a map from label to that
  column's cells, and a row count. Cells are of a type parameter `V` with
  ordinary equality. `Table.Valid()` states what every loaded table
  satisfies: labels are unique (spreadsheet loading renames repeated
  headers), every label has a column, and every column has `rows` cells;
- the insertion-ordered dictionary is a sequence of `ColumnDiff(column,
  flags)` entries in insertion order. The `ValueError` is the `Failure`
  case of `Result`;
- `CompareColumnContents` is the loop over the base columns, written as a
  method. It is proved equal to the specification function `Compare`.
  The lemmas below state the properties of `Compare`;
- `ColumnFlags` is the per-cell membership test applied down a column,
  `HasDifference` is `any()` (`true in flags`), and `CountTrue` is the
  reported count. `HasDifference` has no contract of its own. `CountTrue`
  ties it to the count (zero iff no flag is set), and `DiffsOfPresence`
  and `ComparePresence` tie it to which columns are reported.

The schema check compares the label sequences, so labels in another order
are a mismatch, as with `Index.equals`. Cells are compared by membership
only: `comparador.py` has no key column, no comparison by row position and
no numeric tolerance.

## Model

| member | source | states |
|---|---|---|
| `Comparador.CompareColumnContents` | comparador.py:13-26 | fails with the mismatch message exactly when the column labels differ (name or order); otherwise the result built by the loop is the one `Compare` specifies |
| `Comparador.ColumnFlags` | comparador.py:22 | one flag per base cell; flag i is set iff base cell i is not among the candidate column's values |
| `Comparador.CountTrue` | comparador.py:41 | the count is at most the number of flags, and it is zero iff no flag is set (iff `HasDifference`, the `any()` at comparador.py:23, fails) |
| `Comparador.CountTrueIsFlaggedRows` | comparador.py:41 | the count equals the number of rows whose flag is set |
| `Comparador.FlagsDependOnValueSet` | comparador.py:22 | two candidate columns with the same set of values give the same flags |
| `Comparador.ColumnSelfHasNoDifference` | comparador.py:22-23 | a column compared with itself has no set flag |
| `Comparador.DiffsOf` | comparador.py:18-24 | the loop's result: no more entries than compared columns; every entry is a compared column, carries that column's flags and has a set flag |
| `Comparador.DiffsOfPresence` | comparador.py:23-24 | a compared column is an entry iff one of its flags is set |
| `Comparador.DiffsOfOrder` | comparador.py:20-24 | the entries' labels occur in the compared columns at strictly increasing positions |
| `Comparador.DiffsOfSelf` | comparador.py:20-24 | comparing columns with themselves gives no entry |
| `Comparador.DiffsOfValueSets` | comparador.py:20-24 | candidate columns with the same value sets give the same entries |
| `Comparador.Compare` | comparador.py:13-26 | it fails, with the mismatch message, exactly when the labels differ in name, order or number; on success every entry is a base column with one flag per base row |
| `Comparador.CompareEntries` | comparador.py:18-26 | with equal labels: the entries are distinct base columns in base column order; each has one flag per base row, set iff that base value is absent from the candidate's column |
| `Comparador.ComparePresence` | comparador.py:22-24 | with equal labels, a base column is in the result iff some base value of it is absent from the candidate's column |
| `Comparador.CompareCounts` | comparador.py:23-24 | every reported count is the number of flagged rows, at least 1 and at most the base row count |
| `Comparador.CompareSelf` | comparador.py:15-26 | a table compared with itself gives an empty result |
| `Comparador.CompareDependsOnValueSets` | comparador.py:22 | reordering or duplicating candidate cells, or changing the candidate's row count while every column keeps its value set, leaves the result unchanged |

## Left out

- `cargar_y_preparar_dataframe` (comparador.py:5-10): reading an Excel file is library I/O. Tables enter the model as values.
- The Streamlit page (comparador.py:29-47): the file pickers, the messages written per column and the display of the caught error are user interface. Only the count each message shows is modelled, as `CountTrue`.
- Cell value semantics of pandas and NumPy: NaN never equals itself, and numbers of different kinds can compare equal. Cells are a type with ordinary equality. So `CompareSelf` holds here, but not for pandas columns that contain NaN.
- Column label types: spreadsheet headers can be numbers or dates, and pandas equality makes `1` and `1.0` the same label. Labels here are strings with ordinary equality.
- The pandas index of the flag series: flags are a sequence by row position, which is what the default index gives.
- The commented-out index reset and index display (comparador.py:8-9, 42-43) are never executed.
- `main (1).py` is a different page with a row-by-row comparison using a numeric tolerance. It is not part of this model. `comparador.py` classifies no rows as new, missing or changed, so the model has no such classification.
