/**
 * The table abstraction the preprocessing code works on: a pandas DataFrame
 * reduced to an ordered list of distinct column labels and a sequence of rows,
 * each row mapping every column label to a cell.
 */
module Tables {
  import opened Wrappers

  type Column = string

  /** A scalar cell value: a number (integers are embedded) or a categorical string. */
  datatype Value = Num(x: real) | Text(s: string)

  /** A cell; `None` is pandas' missing value (NaN). */
  type Cell = Option<Value>

  type Row = map<Column, Cell>

  /** A table as a value: column labels in order and the rows in order. */
  datatype Frame = Frame(columns: seq<Column>, rows: seq<Row>)

  /** The exceptions pandas raises in the operations modelled here. */
  datatype TableError =
    | KeyError(missing: Column)   // a column label that the table does not have
    | TypeError(column: Column)   // an ordering comparison between a string and a number

  function ColumnSet(cols: seq<Column>): (s: set<Column>)
    ensures forall c :: c in s <==> c in cols
  {
    set c | c in cols
  }

  predicate Distinct(cols: seq<Column>) {
    forall i, j :: 0 <= i < j < |cols| ==> cols[i] != cols[j]
  }

  /** Column labels are unique and every row has a cell for exactly the table's columns. */
  predicate WellFormed(f: Frame) {
    && Distinct(f.columns)
    && forall row <- f.rows :: row.Keys == ColumnSet(f.columns)
  }

  /**
   * `df[c] = v` with a scalar `v`: an existing column is overwritten in every row,
   * a new one is appended after the existing columns; no row is added or removed.
   */
  function Assign(f: Frame, c: Column, v: Cell): (r: Frame)
    requires WellFormed(f)
    ensures WellFormed(r)
    ensures r.columns == if c in f.columns then f.columns else f.columns + [c]
    ensures |r.rows| == |f.rows|
    ensures forall i :: 0 <= i < |r.rows| ==> r.rows[i][c] == v
    ensures forall i, d :: 0 <= i < |r.rows| && d in f.rows[i] && d != c ==> r.rows[i][d] == f.rows[i][d]
  {
    var cols := if c in f.columns then f.columns else f.columns + [c];
    Frame(cols, seq(|f.rows|, i requires 0 <= i < |f.rows| => f.rows[i][c := v]))
  }

  /**
   * `df[cols]` for a list of labels the table has: a new table whose columns are
   * exactly `cols`, in that order, and whose rows are the table's rows, in order,
   * restricted to those columns.
   */
  function Select(f: Frame, cols: seq<Column>): (r: Frame)
    requires WellFormed(f) && Distinct(cols)
    requires forall c <- cols :: c in f.columns
    ensures WellFormed(r)
    ensures r.columns == cols && |r.rows| == |f.rows|
    ensures forall i, c :: 0 <= i < |r.rows| && c in cols ==> r.rows[i][c] == f.rows[i][c]
  {
    Frame(cols, seq(|f.rows|, i requires 0 <= i < |f.rows| => map c | c in cols :: f.rows[i][c]))
  }

  /** Two well-formed tables with the same columns, row count and cells are equal. */
  lemma FrameExtensionality(a: Frame, b: Frame)
    requires WellFormed(a) && WellFormed(b)
    requires a.columns == b.columns && |a.rows| == |b.rows|
    requires forall i, c :: 0 <= i < |a.rows| && c in a.columns ==> a.rows[i][c] == b.rows[i][c]
    ensures a == b
  {
    forall i | 0 <= i < |a.rows|
      ensures a.rows[i] == b.rows[i]
    {
      assert a.rows[i] in a.rows && b.rows[i] in b.rows;
    }
  }

  /** A pandas DataFrame object, which the preprocessing code updates in place. */
  class DataFrame {
    var columns: seq<Column>
    var rows: seq<Row>

    ghost predicate Valid()
      reads this
    {
      WellFormed(Frame(columns, rows))
    }

    /** The table the object currently holds. */
    function Snapshot(): Frame
      reads this
    {
      Frame(columns, rows)
    }

    constructor (f: Frame)
      requires WellFormed(f)
      ensures Valid() && Snapshot() == f
    {
      columns, rows := f.columns, f.rows;
    }

    /** `df[c] = v`: the object itself is changed. */
    method SetColumn(c: Column, v: Cell)
      requires Valid()
      modifies this
      ensures Valid()
      ensures Snapshot() == Assign(old(Snapshot()), c, v)
    {
      var f := Assign(Snapshot(), c, v);
      columns, rows := f.columns, f.rows;
    }

    /** `df[cols]`: a new object; this one is left as it is. */
    method Subframe(cols: seq<Column>) returns (r: DataFrame)
      requires Valid() && Distinct(cols)
      requires forall c <- cols :: c in columns
      ensures fresh(r) && r.Valid()
      ensures r.Snapshot() == Select(Snapshot(), cols)
    {
      r := new DataFrame(Select(Snapshot(), cols));
    }
  }
}
