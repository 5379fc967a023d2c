/**
 * The two table operations of the preprocessing helpers: aligning a test
 * table's columns to the training table's, in place, and dropping the rows
 * whose value in a column exceeds a threshold.
 */
module Preprocess {
  import opened Wrappers
  import opened Tables

  /** The filler written into every added column: the integer 0. */
  const Zero: Cell := Some(Num(0.0))

  // ---------------------------------------------------------------------------
  // align_features
  // ---------------------------------------------------------------------------

  /** The labels of `reference`, in its order, that `present` lacks. */
  function MissingColumns(reference: seq<Column>, present: seq<Column>): (m: seq<Column>)
    ensures forall c :: c in m <==> c in reference && c !in present
  {
    if reference == [] then []
    else (if reference[0] in present then [] else [reference[0]]) + MissingColumns(reference[1..], present)
  }

  /** The table after `df[c] = v` for each `c` of `cs` in turn. */
  function AssignAll(f: Frame, cs: seq<Column>, v: Cell): (r: Frame)
    requires WellFormed(f)
    ensures WellFormed(r) && |r.rows| == |f.rows|
    decreases |cs|
  {
    if cs == [] then f
    else Assign(AssignAll(f, cs[..|cs| - 1], v), cs[|cs| - 1], v)
  }

  /** One more assignment after a sequence of them. */
  lemma AssignAllSnoc(f: Frame, cs: seq<Column>, c: Column, v: Cell)
    requires WellFormed(f)
    ensures AssignAll(f, cs + [c], v) == Assign(AssignAll(f, cs, v), c, v)
  {
    assert (cs + [c])[..|cs|] == cs;
  }

  /**
   * Assigning each column of `cs` keeps the old columns in their place and
   * appends the new ones after them.
   */
  lemma AssignAllColumns(f: Frame, cs: seq<Column>, v: Cell)
    requires WellFormed(f)
    ensures var r := AssignAll(f, cs, v);
      && ColumnSet(r.columns) == ColumnSet(f.columns) + ColumnSet(cs)
      && |f.columns| <= |r.columns| && r.columns[..|f.columns|] == f.columns
  {
    AssignAllColumnSet(f, cs, v);
    AssignAllPrefix(f, cs, v);
  }

  /** The column set part of `AssignAllColumns`. */
  lemma {:induction false} AssignAllColumnSet(f: Frame, cs: seq<Column>, v: Cell)
    requires WellFormed(f)
    ensures ColumnSet(AssignAll(f, cs, v).columns) == ColumnSet(f.columns) + ColumnSet(cs)
    decreases |cs|
  {
    if cs != [] {
      var init, c := cs[..|cs| - 1], cs[|cs| - 1];
      assert cs == init + [c];
      AssignAllColumnSet(f, init, v);
      var p := AssignAll(f, init, v);
      ColumnSetSnoc(init, c);
      if c !in p.columns {
        ColumnSetSnoc(p.columns, c);
      }
    }
  }

  /** The prefix part of `AssignAllColumns`. */
  lemma {:induction false} AssignAllPrefix(f: Frame, cs: seq<Column>, v: Cell)
    requires WellFormed(f)
    ensures var r := AssignAll(f, cs, v);
      |f.columns| <= |r.columns| && r.columns[..|f.columns|] == f.columns
    decreases |cs|
  {
    if cs != [] {
      var init, c := cs[..|cs| - 1], cs[|cs| - 1];
      AssignAllPrefix(f, init, v);
      var p := AssignAll(f, init, v);
      if c !in p.columns {
        PrefixOfSnoc(p.columns, c, |f.columns|);
      }
    }
  }

  /** Appending an element leaves every prefix of the original in place. */
  lemma PrefixOfSnoc<T>(xs: seq<T>, x: T, n: nat)
    requires n <= |xs|
    ensures (xs + [x])[..n] == xs[..n]
  {
  }

  /**
   * Whatever the order of `cs`, assigning each of its columns leaves `v` in
   * every row of every column of `cs` and the old cells in the other columns.
   */
  lemma {:induction false} AssignAllCells(f: Frame, cs: seq<Column>, v: Cell, i: int, d: Column)
    requires WellFormed(f) && 0 <= i < |f.rows|
    requires d in cs || d in f.columns
    ensures d in AssignAll(f, cs, v).rows[i]
    ensures AssignAll(f, cs, v).rows[i][d] == if d in cs then v else f.rows[i][d]
    decreases |cs|
  {
    if cs == [] {
      assert f.rows[i] in f.rows;
    } else {
      var init, c := cs[..|cs| - 1], cs[|cs| - 1];
      assert cs == init + [c];
      if d != c {
        AssignAllCells(f, init, v, i, d);
      } else {
        var p := AssignAll(f, init, v);
        assert p.rows[i] in p.rows;
      }
    }
  }

  /**
   * After filling the missing columns in any order, a training column holds the
   * test cell when the test table has that column, and 0 otherwise.
   */
  lemma FilledCell(trainCols: seq<Column>, t: Frame, added: seq<Column>, i: nat, c: Column)
    requires WellFormed(t) && i < |t.rows| && c in trainCols
    requires ColumnSet(added) == ColumnSet(trainCols) - ColumnSet(t.columns)
    ensures c in AssignAll(t, added, Zero).rows[i]
    ensures AssignAll(t, added, Zero).rows[i][c] == if c in t.columns then t.rows[i][c] else Zero
  {
    assert c in added <==> c !in t.columns;
    AssignAllCells(t, added, Zero, i, c);
  }

  /**
   * The table `align_features` returns for a test table `t` and the training
   * columns `trainCols`: the missing training columns are added as 0, then the
   * table is projected onto the training columns.
   */
  function Aligned(trainCols: seq<Column>, t: Frame): (r: Frame)
    requires WellFormed(t) && Distinct(trainCols)
    ensures WellFormed(r)
    ensures r.columns == trainCols && |r.rows| == |t.rows|
  {
    var missing := MissingColumns(trainCols, t.columns);
    AssignAllColumns(t, missing, Zero);
    Select(AssignAll(t, missing, Zero), trainCols)
  }

  /**
   * Row `i` of the aligned table has exactly the training columns. A column
   * the test table also has carries the test cell; a training-only column is 0.
   */
  lemma AlignedCells(trainCols: seq<Column>, t: Frame, i: nat, c: Column)
    requires WellFormed(t) && Distinct(trainCols) && i < |t.rows|
    ensures c in Aligned(trainCols, t).rows[i] <==> c in trainCols
    ensures c in trainCols ==>
              Aligned(trainCols, t).rows[i][c] == if c in t.columns then t.rows[i][c] else Zero
  {
    var r := Aligned(trainCols, t);
    assert r.rows[i] in r.rows;
    if c in trainCols {
      FilledCell(trainCols, t, MissingColumns(trainCols, t.columns), i, c);
    }
  }

  /** Aligning an aligned table against the same training columns changes nothing. */
  lemma AlignedIdempotent(trainCols: seq<Column>, t: Frame)
    requires WellFormed(t) && Distinct(trainCols)
    ensures Aligned(trainCols, Aligned(trainCols, t)) == Aligned(trainCols, t)
  {
    var once := Aligned(trainCols, t);
    var twice := Aligned(trainCols, once);
    forall i, c | 0 <= i < |twice.rows| && c in twice.columns
      ensures twice.rows[i][c] == once.rows[i][c]
    {
      AlignedCells(trainCols, once, i, c);
    }
    FrameExtensionality(twice, once);
  }

  /**
   * The order in which the missing columns are filled does not matter: filling
   * them in any order and projecting onto the training columns gives `Aligned`.
   */
  lemma AlignedAnyFillOrder(trainCols: seq<Column>, t: Frame, added: seq<Column>)
    requires WellFormed(t) && Distinct(trainCols)
    requires ColumnSet(added) == ColumnSet(trainCols) - ColumnSet(t.columns)
    ensures forall c <- trainCols :: c in AssignAll(t, added, Zero).columns
    ensures Select(AssignAll(t, added, Zero), trainCols) == Aligned(trainCols, t)
  {
    AssignAllColumns(t, added, Zero);
    var a, b := Select(AssignAll(t, added, Zero), trainCols), Aligned(trainCols, t);
    forall i, c | 0 <= i < |a.rows| && c in a.columns
      ensures a.rows[i][c] == b.rows[i][c]
    {
      FilledCell(trainCols, t, added, i, c);
      AlignedCells(trainCols, t, i, c);
    }
    FrameExtensionality(a, b);
  }

  /**
   * `after` is `before` with the missing training columns filled in: the old
   * columns stay first with their cells, and exactly the training columns
   * `before` lacks are added, 0 in every row.
   */
  predicate ZeroFilled(after: Frame, before: Frame, trainCols: seq<Column>)
  {
    && WellFormed(before) && WellFormed(after)
    && |after.rows| == |before.rows|
    && |before.columns| <= |after.columns| && after.columns[..|before.columns|] == before.columns
    && ColumnSet(after.columns) == ColumnSet(before.columns) + ColumnSet(trainCols)
    && forall i, c {:trigger after.rows[i][c]} :: 0 <= i < |after.rows| && c in after.columns ==>
         after.rows[i][c] == if c in before.columns then before.rows[i][c] else Zero
  }

  /** Filling the missing training columns, in any order, gives a `ZeroFilled` table. */
  lemma FilledTestTable(trainCols: seq<Column>, t: Frame, added: seq<Column>)
    requires WellFormed(t)
    requires ColumnSet(added) == ColumnSet(trainCols) - ColumnSet(t.columns)
    ensures ZeroFilled(AssignAll(t, added, Zero), t, trainCols)
  {
    AssignAllColumns(t, added, Zero);
    FilledTestCells(trainCols, t, added);
  }

  /** The cell part of `FilledTestTable`, one row and column at a time. */
  lemma FilledTestCells(trainCols: seq<Column>, t: Frame, added: seq<Column>)
    requires WellFormed(t)
    requires ColumnSet(added) == ColumnSet(trainCols) - ColumnSet(t.columns)
    ensures var r := AssignAll(t, added, Zero);
      forall i, c {:trigger r.rows[i][c]} :: 0 <= i < |r.rows| && c in r.columns ==>
        c in r.rows[i] && r.rows[i][c] == if c in t.columns then t.rows[i][c] else Zero
  {
    var r := AssignAll(t, added, Zero);
    AssignAllColumns(t, added, Zero);
    forall i, c | 0 <= i < |r.rows| && c in r.columns
      ensures c in r.rows[i] && r.rows[i][c] == if c in t.columns then t.rows[i][c] else Zero
    {
      assert c in added <==> c !in t.columns;
      AssignAllCells(t, added, Zero, i, c);
    }
  }

  /** The labels of `cs + [c]`. */
  lemma ColumnSetSnoc(cs: seq<Column>, c: Column)
    ensures ColumnSet(cs + [c]) == ColumnSet(cs) + {c}
  {
  }

  /** Only the empty list of labels has no labels. */
  lemma ColumnSetEmpty(cs: seq<Column>)
    ensures ColumnSet(cs) == {} <==> cs == []
  {
    if cs != [] {
      assert cs[0] in ColumnSet(cs);
    }
  }

  /**
   * The loop of `align_features`: each training column the test table lacks is
   * assigned 0 on the test object itself, one at a time, in an unspecified
   * order (the source iterates over a set). `added` is the order taken.
   */
  method FillMissing(test: DataFrame, trainCols: seq<Column>) returns (ghost added: seq<Column>)
    requires test.Valid()
    modifies test
    ensures test.Valid()
    ensures ColumnSet(added) == ColumnSet(trainCols) - ColumnSet(old(test.columns))
    ensures test.Snapshot() == AssignAll(old(test.Snapshot()), added, Zero)
  {
    var missing := ColumnSet(trainCols) - ColumnSet(test.columns);
    ghost var before := test.Snapshot();
    added := [];
    while missing != {}
      invariant test.Valid()
      invariant test.Snapshot() == AssignAll(before, added, Zero)
      invariant ColumnSet(added) + missing == ColumnSet(trainCols) - ColumnSet(before.columns)
      invariant ColumnSet(added) !! missing
      decreases missing
    {
      var c :| c in missing;
      test.SetColumn(c, Zero);
      AssignAllSnoc(before, added, c, Zero);
      ColumnSetSnoc(added, c);
      added := added + [c];
      missing := missing - {c};
    }
  }

  /**
   * `align_features(train_df, test_df)`. The training columns that the test
   * table lacks are added to the test object itself, filled with 0; the result
   * is a new table holding the test rows restricted to the training columns,
   * in training order.
   */
  method AlignFeatures(train: DataFrame, test: DataFrame) returns (aligned: DataFrame)
    requires train.Valid() && test.Valid()
    modifies test
    ensures train.columns == old(train.columns)
    ensures fresh(aligned) && aligned.Valid()
    ensures aligned.Snapshot() == Aligned(old(train.columns), old(test.Snapshot()))
    // the side effect on the test table
    ensures test.Valid() && ZeroFilled(test.Snapshot(), old(test.Snapshot()), old(train.columns))
    ensures aligned.Snapshot() == Select(test.Snapshot(), train.columns)
  {
    var trainCols := train.columns;
    ghost var before := test.Snapshot();
    ghost var added := FillMissing(test, trainCols);
    if train == test {
      ColumnSetEmpty(added);
    }
    FilledTestTable(trainCols, before, added);
    AlignedAnyFillOrder(trainCols, before, added);
    aligned := test.Subframe(trainCols);
  }

  // ---------------------------------------------------------------------------
  // remove_outliers
  // ---------------------------------------------------------------------------

  /** The mask value of `df[column] <= threshold` for one cell: a missing cell compares false. */
  predicate AtMost(cell: Cell, threshold: real) {
    cell.Some? && cell.value.Num? && cell.value.x <= threshold
  }

  /** Whether a row is kept by the mask on `column`. */
  predicate Passes(row: Row, column: Column, threshold: real) {
    column in row && AtMost(row[column], threshold)
  }

  /** A string cell: comparing it with a number raises. */
  predicate IsText(cell: Cell) {
    cell.Some? && cell.value.Text?
  }

  /** The rows, in their order, that the mask keeps. */
  function KeepRows(rows: seq<Row>, column: Column, threshold: real): (r: seq<Row>)
    ensures |r| <= |rows|
    ensures forall row <- r :: row in rows && Passes(row, column, threshold)
  {
    if rows == [] then []
    else (if Passes(rows[0], column, threshold) then [rows[0]] else [])
         + KeepRows(rows[1..], column, threshold)
  }

  /**
   * `remove_outliers(df, column, threshold)`, i.e. `df[df[column] <= threshold]`.
   * A column the table lacks raises KeyError; a string in the column raises
   * TypeError; otherwise the kept rows come back with the columns unchanged.
   */
  function RemoveOutliers(t: Frame, column: Column, threshold: real): (r: Result<Frame, TableError>)
    requires WellFormed(t)
    ensures column !in t.columns ==> r == Failure(KeyError(column))
    ensures column in t.columns ==>
              (r.Failure? <==> exists i :: 0 <= i < |t.rows| && IsText(t.rows[i][column]))
    ensures column in t.columns && r.Failure? ==> r.error == TypeError(column)
    ensures r.Success? ==> WellFormed(r.value) && r.value.columns == t.columns
    ensures r.Success? ==> |r.value.rows| <= |t.rows|
    ensures r.Success? ==> forall row <- r.value.rows :: row in t.rows && AtMost(row[column], threshold)
    ensures r.Success? ==> r.value.rows == KeepRows(t.rows, column, threshold)
  {
    if column !in t.columns then Failure(KeyError(column))
    else if exists i :: 0 <= i < |t.rows| && IsText(t.rows[i][column]) then Failure(TypeError(column))
    else Success(Frame(t.columns, KeepRows(t.rows, column, threshold)))
  }

  /** Filtering a concatenation filters each part: the kept rows stay in input order. */
  lemma {:induction false} KeepRowsAppend(a: seq<Row>, b: seq<Row>, column: Column, threshold: real)
    ensures KeepRows(a + b, column, threshold) == KeepRows(a, column, threshold) + KeepRows(b, column, threshold)
  {
    if a != [] {
      assert (a + b)[1..] == a[1..] + b;
      KeepRowsAppend(a[1..], b, column, threshold);
    } else {
      assert a + b == b;
    }
  }

  /** Each row passing the mask is kept as often as it occurs; every other row is dropped. */
  lemma {:induction false} KeepRowsExact(rows: seq<Row>, column: Column, threshold: real, x: Row)
    ensures multiset(KeepRows(rows, column, threshold))[x] ==
            if Passes(x, column, threshold) then multiset(rows)[x] else 0
  {
    if rows != [] {
      KeepRowsExact(rows[1..], column, threshold, x);
      assert rows == [rows[0]] + rows[1..];
    }
  }

  /** Filtering twice keeps the same rows as filtering once. */
  lemma {:induction false} KeepRowsIdempotent(rows: seq<Row>, column: Column, threshold: real)
    ensures KeepRows(KeepRows(rows, column, threshold), column, threshold) == KeepRows(rows, column, threshold)
  {
    if rows != [] {
      var tail := KeepRows(rows[1..], column, threshold);
      KeepRowsIdempotent(rows[1..], column, threshold);
      if Passes(rows[0], column, threshold) {
        assert ([rows[0]] + tail)[1..] == tail;
      } else {
        assert [] + tail == tail;
      }
    }
  }

  /**
   * What a successful `remove_outliers` returns: each input row satisfying
   * `row[column] <= threshold` as often as it occurs (so a row exactly at the
   * threshold is kept), no row with a missing or larger value.
   */
  lemma RemoveOutliersExact(t: Frame, column: Column, threshold: real, x: Row)
    requires WellFormed(t) && RemoveOutliers(t, column, threshold).Success?
    ensures multiset(RemoveOutliers(t, column, threshold).value.rows)[x] ==
            if Passes(x, column, threshold) then multiset(t.rows)[x] else 0
  {
    KeepRowsExact(t.rows, column, threshold, x);
  }

  /** Applying `remove_outliers` to its own result returns the same table. */
  lemma RemoveOutliersIdempotent(t: Frame, column: Column, threshold: real)
    requires WellFormed(t) && RemoveOutliers(t, column, threshold).Success?
    ensures RemoveOutliers(RemoveOutliers(t, column, threshold).value, column, threshold)
            == RemoveOutliers(t, column, threshold)
  {
    var once := RemoveOutliers(t, column, threshold).value;
    KeepRowsIdempotent(t.rows, column, threshold);
    assert forall i :: 0 <= i < |once.rows| ==> !IsText(once.rows[i][column]) by {
      forall i | 0 <= i < |once.rows| ensures !IsText(once.rows[i][column]) {
        assert once.rows[i] in once.rows;
      }
    }
  }
}
