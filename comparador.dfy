/**
  Column-wise content comparison of two tables.

  A "base" table and a table "to compare" (the candidate) with the same
  column labels are compared column by column: every base cell is flagged
  when its value occurs nowhere in the candidate's column of the same name.
  The result keeps, in base column order, only the columns with at least
  one flagged cell.
 */
module Comparador {

  /** Outcome of an operation that may fail with a message. */
  datatype Result<T> = Success(value: T) | Failure(message: string)

  /** Message of the error raised when the column labels of the two tables differ. */
  const ColumnsMismatchMessage: string := "Los DataFrames no tienen las mismas columnas"

  /**
    A loaded table: its column labels in order, the cells of every column
    (top to bottom) by label, and its number of rows.
   */
  datatype Table<V> = Table(columns: seq<string>, cells: map<string, seq<V>>, rows: nat) {

    /** Labels are unique, every label has a column, and every column has `rows` cells. */
    ghost predicate Valid() {
      && (forall i, j :: 0 <= i < j < |columns| ==> columns[i] != columns[j])
      && (forall c :: c in cells <==> c in columns)
      && (forall c :: c in cells ==> |cells[c]| == rows)
    }
  }

  /** One entry of the result: a column label and one flag per base row. */
  datatype ColumnDiff = ColumnDiff(column: string, flags: seq<bool>)

  /** The labels of a result, in result order. */
  function Keys(diffs: seq<ColumnDiff>): seq<string> {
    seq(|diffs|, k requires 0 <= k < |diffs| => diffs[k].column)
  }

  /**
    The flags of one column: position i is true exactly when the base value
    in row i does not occur among the candidate column's values.
   */
  function ColumnFlags<V(==)>(base: seq<V>, candidate: seq<V>): (flags: seq<bool>)
    ensures |flags| == |base|
    ensures forall i :: 0 <= i < |base| ==> (flags[i] <==> base[i] !in candidate)
  {
    if base == [] then [] else [base[0] !in candidate] + ColumnFlags(base[1..], candidate)
  }

  /** A column is reported when at least one of its flags is set. */
  predicate HasDifference(flags: seq<bool>) {
    true in flags
  }

  /** The number of set flags of a column, as reported for it. */
  function CountTrue(flags: seq<bool>): (n: nat)
    ensures n <= |flags|
    ensures n == 0 <==> !HasDifference(flags)
  {
    if flags == [] then 0
    else
      var prefix := flags[..|flags| - 1];
      assert flags == prefix + [flags[|flags| - 1]];
      CountTrue(prefix) + (if flags[|flags| - 1] then 1 else 0)
  }

  /** The rows whose flag is set. */
  function FlaggedRows(flags: seq<bool>): set<nat> {
    set i: nat | i < |flags| && flags[i]
  }

  /**
    The result of comparing the columns `cols` (in that order): one entry
    per column that has at least one flagged base cell.
   */
  ghost function DiffsOf<V>(cols: seq<string>, base: map<string, seq<V>>, candidate: map<string, seq<V>>): (diffs: seq<ColumnDiff>)
    requires forall c :: c in cols ==> c in base && c in candidate
    ensures |diffs| <= |cols|
    ensures forall d :: d in diffs ==>
              && d.column in cols
              && d.flags == ColumnFlags(base[d.column], candidate[d.column])
              && HasDifference(d.flags)
  {
    if cols == [] then []
    else
      var prefix := DiffsOf(cols[..|cols| - 1], base, candidate);
      var c := cols[|cols| - 1];
      var flags := ColumnFlags(base[c], candidate[c]);
      if HasDifference(flags) then prefix + [ColumnDiff(c, flags)] else prefix
  }

  /** The whole comparison: the schema check, then the per-column differences. */
  ghost function Compare<V>(base: Table<V>, candidate: Table<V>): (r: Result<seq<ColumnDiff>>)
    requires base.Valid() && candidate.Valid()
    ensures r.Failure? <==> base.columns != candidate.columns
    ensures r.Failure? ==> r.message == ColumnsMismatchMessage
    ensures r.Success? ==> forall d :: d in r.value ==> d.column in base.columns && |d.flags| == base.rows
  {
    if base.columns != candidate.columns then Failure(ColumnsMismatchMessage)
    else Success(DiffsOf(base.columns, base.cells, candidate.cells))
  }

  /**
    The comparison as the program runs it: after the schema check, a loop
    over the base columns that appends the columns with differences to the
    result as it goes.
   */
  method CompareColumnContents<V(==)>(base: Table<V>, candidate: Table<V>) returns (r: Result<seq<ColumnDiff>>)
    requires base.Valid() && candidate.Valid()
    ensures r.Failure? <==> base.columns != candidate.columns
    ensures r.Failure? ==> r.message == ColumnsMismatchMessage
    ensures r == Compare(base, candidate)
  {
    if base.columns != candidate.columns {
      return Failure(ColumnsMismatchMessage);
    }
    var diffs: seq<ColumnDiff> := [];
    for k := 0 to |base.columns|
      invariant diffs == DiffsOf(base.columns[..k], base.cells, candidate.cells)
    {
      var col := base.columns[k];
      var flags := ColumnFlags(base.cells[col], candidate.cells[col]);
      ghost var done := base.columns[..k + 1];
      assert done[..k] == base.columns[..k] && done[k] == col;
      assert DiffsOf(done, base.cells, candidate.cells) ==
             if HasDifference(flags) then diffs + [ColumnDiff(col, flags)] else diffs;
      if HasDifference(flags) {
        diffs := diffs + [ColumnDiff(col, flags)];
      }
    }
    assert base.columns[..|base.columns|] == base.columns;
    return Success(diffs);
  }

  // ---------------------------------------------------------------------
  // Properties of the per-column flags and of the count
  // ---------------------------------------------------------------------

  /** The reported count is the number of flagged rows. */
  lemma {:induction false} CountTrueIsFlaggedRows(flags: seq<bool>)
    ensures CountTrue(flags) == |FlaggedRows(flags)|
  {
    if flags != [] {
      var n := |flags| - 1;
      var prefix := flags[..n];
      CountTrueIsFlaggedRows(prefix);
      if flags[n] {
        assert FlaggedRows(flags) == FlaggedRows(prefix) + {n};
      } else {
        assert FlaggedRows(flags) == FlaggedRows(prefix);
      }
    }
  }

  /**
    The flags depend on the candidate column only through its set of values:
    reordering or duplicating candidate cells changes no flag.
   */
  lemma FlagsDependOnValueSet<V>(base: seq<V>, candidate1: seq<V>, candidate2: seq<V>)
    requires (set x | x in candidate1) == (set x | x in candidate2)
    ensures ColumnFlags(base, candidate1) == ColumnFlags(base, candidate2)
  {
    var f1, f2 := ColumnFlags(base, candidate1), ColumnFlags(base, candidate2);
    var values1, values2 := set x | x in candidate1, set x | x in candidate2;
    forall i | 0 <= i < |base| ensures f1[i] == f2[i] {
      assert base[i] in candidate1 <==> base[i] in values1;
      assert base[i] in candidate2 <==> base[i] in values2;
    }
  }

  /** A column compared with itself has no flagged cell. */
  lemma ColumnSelfHasNoDifference<V>(values: seq<V>)
    ensures !HasDifference(ColumnFlags(values, values))
  {
  }

  // ---------------------------------------------------------------------
  // Properties of the result, column prefix by column prefix
  // ---------------------------------------------------------------------

  /** `pos` gives, for every key, its position in `cols`, strictly increasing. */
  predicate Positions(pos: seq<int>, keys: seq<string>, cols: seq<string>) {
    && |pos| == |keys|
    && (forall k :: 0 <= k < |pos| ==> 0 <= pos[k] < |cols| && keys[k] == cols[pos[k]])
    && (forall k, l :: 0 <= k < l < |pos| ==> pos[k] < pos[l])
  }

  /** Positions stay valid when a column is added at the end. */
  lemma PositionsExtend(pos: seq<int>, keys: seq<string>, cols: seq<string>, c: string)
    requires Positions(pos, keys, cols)
    ensures Positions(pos, keys, cols + [c])
  {
  }

  /** A column added at the end and kept as a key takes the last position. */
  lemma PositionsAppend(pos: seq<int>, keys: seq<string>, cols: seq<string>, c: string)
    requires Positions(pos, keys, cols)
    ensures Positions(pos + [|cols|], keys + [c], cols + [c])
  {
  }

  /** `keys` is `cols` with some entries left out and the rest in their original order. */
  ghost predicate InOrderOf(keys: seq<string>, cols: seq<string>) {
    exists pos :: Positions(pos, keys, cols)
  }

  /** Appending an entry appends its label to the keys. */
  lemma KeysAppend(diffs: seq<ColumnDiff>, d: ColumnDiff)
    ensures Keys(diffs + [d]) == Keys(diffs) + [d.column]
  {
  }

  /** A compared column is in the result exactly when one of its flags is set. */
  lemma {:induction false} DiffsOfPresence<V>(cols: seq<string>, base: map<string, seq<V>>, candidate: map<string, seq<V>>, c: string)
    requires forall c :: c in cols ==> c in base && c in candidate
    requires c in cols
    ensures c in Keys(DiffsOf(cols, base, candidate)) <==> HasDifference(ColumnFlags(base[c], candidate[c]))
  {
    var n := |cols| - 1;
    var prefix := cols[..n];
    var before := DiffsOf(prefix, base, candidate);
    var last := cols[n];
    var flags := ColumnFlags(base[last], candidate[last]);
    var diffs := DiffsOf(cols, base, candidate);
    assert cols == prefix + [last];
    if HasDifference(flags) {
      assert diffs == before + [ColumnDiff(last, flags)];
      KeysAppend(before, ColumnDiff(last, flags));
      if c == last {
        assert Keys(diffs)[|before|] == c;
      } else {
        assert c in prefix;
        DiffsOfPresence(prefix, base, candidate, c);
      }
    } else {
      assert diffs == before;
      if c in prefix {
        DiffsOfPresence(prefix, base, candidate, c);
      } else {
        forall k | 0 <= k < |before| ensures Keys(before)[k] != c {
          assert before[k] in before;
        }
      }
    }
  }

  /** The result's keys appear in the order of the compared columns. */
  lemma {:induction false} DiffsOfOrder<V>(cols: seq<string>, base: map<string, seq<V>>, candidate: map<string, seq<V>>)
    requires forall c :: c in cols ==> c in base && c in candidate
    ensures InOrderOf(Keys(DiffsOf(cols, base, candidate)), cols)
  {
    var diffs := DiffsOf(cols, base, candidate);
    if cols == [] {
      assert Positions([], Keys(diffs), cols);
    } else {
      var n := |cols| - 1;
      var prefix := cols[..n];
      var last := cols[n];
      var before := DiffsOf(prefix, base, candidate);
      var flags := ColumnFlags(base[last], candidate[last]);
      DiffsOfOrder(prefix, base, candidate);
      var pos :| Positions(pos, Keys(before), prefix);
      assert cols == prefix + [last];
      if HasDifference(flags) {
        assert diffs == before + [ColumnDiff(last, flags)];
        KeysAppend(before, ColumnDiff(last, flags));
        PositionsAppend(pos, Keys(before), prefix, last);
        assert Positions(pos + [n], Keys(diffs), cols);
      } else {
        assert diffs == before;
        PositionsExtend(pos, Keys(before), prefix, last);
        assert Positions(pos, Keys(diffs), cols);
      }
    }
  }

  /** Comparing columns of one table with themselves reports nothing. */
  lemma {:induction false} DiffsOfSelf<V>(cols: seq<string>, cells: map<string, seq<V>>)
    requires forall c :: c in cols ==> c in cells
    ensures DiffsOf(cols, cells, cells) == []
  {
    if cols != [] {
      DiffsOfSelf(cols[..|cols| - 1], cells);
      ColumnSelfHasNoDifference(cells[cols[|cols| - 1]]);
    }
  }

  /** The result depends on each candidate column only through its set of values. */
  lemma {:induction false} DiffsOfValueSets<V>(cols: seq<string>, base: map<string, seq<V>>, candidate1: map<string, seq<V>>, candidate2: map<string, seq<V>>)
    requires forall c :: c in cols ==> c in base && c in candidate1 && c in candidate2
    requires forall c :: c in cols ==> (set x | x in candidate1[c]) == (set x | x in candidate2[c])
    ensures DiffsOf(cols, base, candidate1) == DiffsOf(cols, base, candidate2)
  {
    if cols != [] {
      var c := cols[|cols| - 1];
      DiffsOfValueSets(cols[..|cols| - 1], base, candidate1, candidate2);
      FlagsDependOnValueSet(base[c], candidate1[c], candidate2[c]);
    }
  }

  // ---------------------------------------------------------------------
  // Properties of the whole comparison
  // ---------------------------------------------------------------------

  /**
    With matching labels, the result is a set of distinct base columns in
    base column order, and each carries one flag per base row, set exactly
    for the rows whose value is absent from the candidate's column.
   */
  lemma CompareEntries<V>(base: Table<V>, candidate: Table<V>)
    requires base.Valid() && candidate.Valid()
    requires base.columns == candidate.columns
    ensures Compare(base, candidate).Success?
    ensures InOrderOf(Keys(Compare(base, candidate).value), base.columns)
    ensures var diffs := Compare(base, candidate).value;
            forall k, l :: 0 <= k < l < |diffs| ==> diffs[k].column != diffs[l].column
    ensures forall d :: d in Compare(base, candidate).value ==>
              && d.column in base.columns
              && |d.flags| == base.rows
              && forall i :: 0 <= i < base.rows ==>
                   (d.flags[i] <==> base.cells[d.column][i] !in candidate.cells[d.column])
  {
    var diffs := Compare(base, candidate).value;
    DiffsOfOrder(base.columns, base.cells, candidate.cells);
    var pos :| Positions(pos, Keys(diffs), base.columns);
    forall k, l | 0 <= k < l < |diffs| ensures diffs[k].column != diffs[l].column {
      assert Keys(diffs)[k] == base.columns[pos[k]];
      assert Keys(diffs)[l] == base.columns[pos[l]];
    }
  }

  /**
    With matching labels, a base column is in the result exactly when some
    base value of it occurs nowhere in the candidate's column; columns whose
    values all occur in the candidate are left out.
   */
  lemma ComparePresence<V>(base: Table<V>, candidate: Table<V>, c: string)
    requires base.Valid() && candidate.Valid()
    requires base.columns == candidate.columns
    requires c in base.columns
    ensures Compare(base, candidate).Success?
    ensures c in Keys(Compare(base, candidate).value) <==>
            exists i :: 0 <= i < base.rows && base.cells[c][i] !in candidate.cells[c]
  {
    DiffsOfPresence(base.columns, base.cells, candidate.cells, c);
    var flags := ColumnFlags(base.cells[c], candidate.cells[c]);
    if HasDifference(flags) {
      var i :| 0 <= i < |flags| && flags[i];
      assert base.cells[c][i] !in candidate.cells[c];
    }
  }

  /**
    The count reported for a column of the result is its number of flagged
    rows: at least one and at most the number of base rows.
   */
  lemma CompareCounts<V>(base: Table<V>, candidate: Table<V>)
    requires base.Valid() && candidate.Valid()
    requires base.columns == candidate.columns
    ensures Compare(base, candidate).Success?
    ensures forall d :: d in Compare(base, candidate).value ==>
              && CountTrue(d.flags) == |FlaggedRows(d.flags)|
              && 1 <= CountTrue(d.flags) <= base.rows
  {
    forall d | d in Compare(base, candidate).value
      ensures CountTrue(d.flags) == |FlaggedRows(d.flags)|
    {
      CountTrueIsFlaggedRows(d.flags);
    }
  }

  /** A table compared with itself has no differences. */
  lemma CompareSelf<V>(t: Table<V>)
    requires t.Valid()
    ensures Compare(t, t) == Success([])
  {
    DiffsOfSelf(t.columns, t.cells);
  }

  /**
    Reordering or duplicating the cells of candidate columns, or changing
    the candidate's row count, leaves the result unchanged as long as every
    column keeps its set of values.
   */
  lemma CompareDependsOnValueSets<V>(base: Table<V>, candidate1: Table<V>, candidate2: Table<V>)
    requires base.Valid() && candidate1.Valid() && candidate2.Valid()
    requires candidate1.columns == candidate2.columns
    requires forall c :: c in candidate1.columns ==>
               (set x | x in candidate1.cells[c]) == (set x | x in candidate2.cells[c])
    ensures Compare(base, candidate1) == Compare(base, candidate2)
  {
    if base.columns == candidate1.columns {
      DiffsOfValueSets(base.columns, base.cells, candidate1.cells, candidate2.cells);
    }
  }
}
