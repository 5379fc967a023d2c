/**
 * The table-building helpers of the dataset module: a left outer join on an
 * identifier column, used to attach the labels to the competition training
 * table and the ownership attributes to the structure table.
 */
module Dataset {
  import opened Wrappers
  import opened Tables

  /** The identifier column every table of the dataset shares. */
  const BuildingId: Column := "building_id"

  /** The columns of `cols`, in order, other than `key`. */
  function NonKey(cols: seq<Column>, key: Column): (r: seq<Column>)
    ensures forall c :: c in r <==> c in cols && c != key
    ensures Distinct(cols) ==> Distinct(r)
  {
    if cols == [] then []
    else
      assert Distinct(cols) ==> cols[0] !in cols[1..] && Distinct(cols[1..]);
      (if cols[0] == key then [] else [cols[0]]) + NonKey(cols[1..], key)
  }

  /** Whether right row `r` has the join key value `k`. */
  predicate Matches(r: Row, key: Column, k: Cell) {
    key in r && r[key] == k
  }

  /** Whether output row `o` carries every cell of left row `l` unchanged. */
  predicate Extends(o: Row, l: Row) {
    forall c :: c in l ==> c in o && o[c] == l[c]
  }

  /** The output row for left row `l` and a matching right row `r`: `l` with the cells of `r` it lacks. */
  function Combine(l: Row, r: Row): Row {
    l + (r - l.Keys)
  }

  /** The output row for a left row without a match: each right-only column is missing. */
  function Pad(l: Row, rightCols: seq<Column>): Row {
    l + map c | c in rightCols && c !in l :: None
  }

  /** How many right rows have the join key value `k`. */
  function KeyCount(rrows: seq<Row>, key: Column, k: Cell): (n: nat)
    ensures n <= |rrows|
    ensures n == 0 <==> forall r <- rrows :: !Matches(r, key, k)
  {
    if rrows == [] then 0
    else (if Matches(rrows[0], key, k) then 1 else 0) + KeyCount(rrows[1..], key, k)
  }

  /** Left row `l` combined with each right row whose key equals its key, in right-table order. */
  function MatchRows(l: Row, rrows: seq<Row>, key: Column): (m: seq<Row>)
    requires key in l
    ensures |m| == KeyCount(rrows, key, l[key])
  {
    if rrows == [] then []
    else (if Matches(rrows[0], key, l[key]) then [Combine(l, rrows[0])] else [])
         + MatchRows(l, rrows[1..], key)
  }

  /** The rows `MatchRows` produces are exactly the combinations of `l` with its matching right rows. */
  lemma {:induction false} MatchRowsMembers(l: Row, rrows: seq<Row>, key: Column, o: Row)
    requires key in l
    ensures o in MatchRows(l, rrows, key) <==> exists r <- rrows :: Matches(r, key, l[key]) && o == Combine(l, r)
  {
    if rrows != [] {
      MatchRowsMembers(l, rrows[1..], key, o);
      assert forall r :: r in rrows <==> r == rrows[0] || r in rrows[1..];
    }
  }

  /**
   * Matching against a concatenation of right rows matches each part: a left
   * row gets one combined row per matching right row, repeats included, in
   * right-table order.
   */
  lemma {:induction false} MatchRowsAppend(l: Row, a: seq<Row>, b: seq<Row>, key: Column)
    requires key in l
    ensures MatchRows(l, a + b, key) == MatchRows(l, a, key) + MatchRows(l, b, key)
  {
    if a == [] {
      assert a + b == b;
    } else {
      var ab := a + b;
      assert ab[0] == a[0] && ab[1..] == a[1..] + b;
      MatchRowsAppend(l, a[1..], b, key);
      var head := if Matches(a[0], key, l[key]) then [Combine(l, a[0])] else [];
      ConcatAssociative(head, MatchRows(l, a[1..], key), MatchRows(l, b, key));
    }
  }

  /** The output rows for one left row: one per matching right row, or one padded row. */
  function JoinRow(l: Row, right: Frame, key: Column): (out: seq<Row>)
    requires key in l
    ensures |out| == if KeyCount(right.rows, key, l[key]) == 0 then 1 else KeyCount(right.rows, key, l[key])
  {
    var m := MatchRows(l, right.rows, key);
    if m == [] then [Pad(l, NonKey(right.columns, key))] else m
  }

  /** Every output row of a left row carries all of that row's cells unchanged. */
  lemma JoinRowExtends(l: Row, right: Frame, key: Column, o: Row)
    requires key in l && o in JoinRow(l, right, key)
    ensures Extends(o, l)
  {
    if MatchRows(l, right.rows, key) != [] {
      MatchRowsMembers(l, right.rows, key, o);
    }
  }

  /** The output rows for the left rows, block after block in left-table order. */
  function JoinRows(lrows: seq<Row>, right: Frame, key: Column): (out: seq<Row>)
    requires forall l <- lrows :: key in l
    ensures |out| >= |lrows|
  {
    if lrows == [] then []
    else JoinRow(lrows[0], right, key) + JoinRows(lrows[1..], right, key)
  }

  /** Each output row of one left row has the left row's columns and the right table's non-key columns. */
  lemma JoinRowKeys(l: Row, right: Frame, key: Column, o: Row)
    requires WellFormed(right) && key in right.columns && key in l
    requires o in JoinRow(l, right, key)
    ensures o.Keys == l.Keys + ColumnSet(NonKey(right.columns, key))
  {
    var rc := ColumnSet(NonKey(right.columns, key));
    if MatchRows(l, right.rows, key) != [] {
      MatchRowsMembers(l, right.rows, key, o);
      var r :| r in right.rows && Matches(r, key, l[key]) && o == Combine(l, r);
      assert r.Keys == ColumnSet(right.columns);
      assert o.Keys == l.Keys + (r.Keys - l.Keys);
      forall c ensures c in o.Keys <==> c in l.Keys || c in rc {
        assert c in rc <==> c in right.columns && c != key;
      }
    } else {
      var pad := map c | c in NonKey(right.columns, key) && c !in l :: None;
      assert o == l + pad;
      assert o.Keys == l.Keys + pad.Keys;
      forall c ensures c in o.Keys <==> c in l.Keys || c in rc {
        assert c in rc <==> c in NonKey(right.columns, key);
      }
    }
  }

  /** Every output row has the left columns and the right table's non-key columns. */
  lemma {:induction false} JoinRowsKeys(lrows: seq<Row>, leftCols: set<Column>, right: Frame, key: Column)
    requires WellFormed(right) && key in right.columns && key in leftCols
    requires forall l <- lrows :: l.Keys == leftCols
    ensures forall o <- JoinRows(lrows, right, key) :: o.Keys == leftCols + ColumnSet(NonKey(right.columns, key))
  {
    if lrows != [] {
      JoinRowsKeys(lrows[1..], leftCols, right, key);
      forall o <- JoinRow(lrows[0], right, key)
        ensures o.Keys == leftCols + ColumnSet(NonKey(right.columns, key))
      {
        JoinRowKeys(lrows[0], right, key, o);
      }
    }
  }

  /**
   * `left.merge(right, on=key, how="left")`. A key column that either table
   * lacks raises KeyError. Otherwise the columns are the left columns followed
   * by the right table's other columns, and the rows are, for each left row in
   * order, one row per matching right row or a single row whose right-only
   * cells are missing. The non-key columns of the two tables must be disjoint.
   */
  function LeftJoin(left: Frame, right: Frame, key: Column): (r: Result<Frame, TableError>)
    requires WellFormed(left) && WellFormed(right)
    requires DisjointExceptKey(left, right, key)
    ensures r.Failure? <==> key !in left.columns || key !in right.columns
    ensures r.Failure? ==> r.error == KeyError(key)
    ensures r.Success? ==> WellFormed(r.value)
    ensures r.Success? ==> r.value.columns == left.columns + NonKey(right.columns, key)
    ensures r.Success? ==> |r.value.rows| >= |left.rows|
    ensures r.Success? ==> r.value.rows == JoinRows(left.rows, right, key)
  {
    if key !in right.columns || key !in left.columns then Failure(KeyError(key))
    else
      var cols := left.columns + NonKey(right.columns, key);
      JoinRowsKeys(left.rows, ColumnSet(left.columns), right, key);
      assert ColumnSet(cols) == ColumnSet(left.columns) + ColumnSet(NonKey(right.columns, key));
      assert Distinct(cols) by {
        var rc := NonKey(right.columns, key);
        forall i, j | 0 <= i < j < |cols| ensures cols[i] != cols[j] {
          if i < |left.columns| && j >= |left.columns| {
            assert cols[j] in rc;
          }
        }
      }
      Success(Frame(cols, JoinRows(left.rows, right, key)))
  }

  /** Joining a concatenation of left rows joins each part: the output follows left-table order. */
  lemma {:induction false} JoinRowsAppend(a: seq<Row>, b: seq<Row>, right: Frame, key: Column)
    requires forall l <- a + b :: key in l
    ensures JoinRows(a + b, right, key) == JoinRows(a, right, key) + JoinRows(b, right, key)
  {
    if a == [] {
      assert a + b == b;
    } else {
      var ab := a + b;
      assert ab[0] == a[0] && ab[1..] == a[1..] + b;
      JoinRowsAppend(a[1..], b, right, key);
      ConcatAssociative(JoinRow(a[0], right, key), JoinRows(a[1..], right, key), JoinRows(b, right, key));
    }
  }

  lemma ConcatAssociative<T>(x: seq<T>, y: seq<T>, z: seq<T>)
    ensures x + (y + z) == (x + y) + z
  {
  }

  // ---------------------------------------------------------------------------
  // Properties of the join
  // ---------------------------------------------------------------------------

  /**
   * The relational reading of a left outer join: output row `o` comes from left
   * row `l` when it combines `l` with a right row of the same key, or when no
   * right row has that key and `o` is `l` padded with missing cells.
   */
  predicate JoinedFrom(o: Row, l: Row, right: Frame, key: Column) {
    key in l &&
    ((exists r <- right.rows :: Matches(r, key, l[key]) && o == Combine(l, r))
     || ((forall r <- right.rows :: !Matches(r, key, l[key])) && o == Pad(l, NonKey(right.columns, key))))
  }

  lemma JoinRowMembers(l: Row, right: Frame, key: Column, o: Row)
    requires key in l
    ensures o in JoinRow(l, right, key) <==> JoinedFrom(o, l, right, key)
  {
    MatchRowsMembers(l, right.rows, key, o);
  }

  /** A row is in the join output exactly when it is joined from one of the left rows. */
  lemma {:induction false} JoinRowsMembers(lrows: seq<Row>, right: Frame, key: Column, o: Row)
    requires forall l <- lrows :: key in l
    ensures o in JoinRows(lrows, right, key) <==> exists l <- lrows :: JoinedFrom(o, l, right, key)
  {
    if lrows != [] {
      JoinRowMembers(lrows[0], right, key, o);
      JoinRowsMembers(lrows[1..], right, key, o);
      assert forall l :: l in lrows <==> l == lrows[0] || l in lrows[1..];
    }
  }

  /** Where the output rows of left row `i` start: after those of the left rows before it. */
  function Offset(lrows: seq<Row>, right: Frame, key: Column, i: nat): nat
    requires i <= |lrows| && forall l <- lrows :: key in l
  {
    |JoinRows(lrows[..i], right, key)|
  }

  /**
   * Every left row appears in the output, and in left-table order: the block of
   * left row `i` starts with a row carrying all of its cells, before the block
   * of any later left row `j`.
   */
  lemma LeftRowsInOrder(lrows: seq<Row>, right: Frame, key: Column, i: nat, j: nat)
    requires forall l <- lrows :: key in l
    requires i < j <= |lrows|
    ensures Offset(lrows, right, key, i) < Offset(lrows, right, key, j) <= |JoinRows(lrows, right, key)|
    ensures Extends(JoinRows(lrows, right, key)[Offset(lrows, right, key, i)], lrows[i])
  {
    assert lrows == lrows[..j] + lrows[j..];
    JoinRowsAppend(lrows[..j], lrows[j..], right, key);
    assert lrows[..j] == lrows[..i] + lrows[i..j];
    JoinRowsAppend(lrows[..i], lrows[i..j], right, key);
    assert lrows[..j][..i] == lrows[..i];
    assert lrows[i..j][0] == lrows[i];
    var block := JoinRow(lrows[i], right, key);
    assert JoinRows(lrows[i..j], right, key)[..|block|] == block;
    assert block[0] in block;
    JoinRowExtends(lrows[i], right, key, block[0]);
  }

  /** With exactly one match for every left key, each left row yields exactly one output row. */
  lemma {:induction false} JoinRowsOneToOneLength(lrows: seq<Row>, right: Frame, key: Column)
    requires forall l <- lrows :: key in l && KeyCount(right.rows, key, l[key]) == 1
    ensures |JoinRows(lrows, right, key)| == |lrows|
  {
    if lrows != [] {
      JoinRowsOneToOneLength(lrows[1..], right, key);
    }
  }

  /** A left row with exactly one match yields exactly that combination. */
  lemma OneMatchRow(l: Row, right: Frame, key: Column) returns (r: Row)
    requires key in l && KeyCount(right.rows, key, l[key]) == 1
    ensures r in right.rows && Matches(r, key, l[key])
    ensures JoinRow(l, right, key) == [Combine(l, r)]
  {
    var m := MatchRows(l, right.rows, key);
    assert m[0] in m;
    MatchRowsMembers(l, right.rows, key, m[0]);
    r :| r in right.rows && Matches(r, key, l[key]) && m[0] == Combine(l, r);
  }

  /** With exactly one match for every left key, output row `i` is left row `i` combined with its match. */
  lemma JoinRowsOneToOneAt(lrows: seq<Row>, right: Frame, key: Column, i: nat) returns (r: Row)
    requires forall l <- lrows :: key in l && KeyCount(right.rows, key, l[key]) == 1
    requires i < |lrows|
    ensures |JoinRows(lrows, right, key)| == |lrows|
    ensures r in right.rows && Matches(r, key, lrows[i][key])
    ensures JoinRows(lrows, right, key)[i] == Combine(lrows[i], r)
  {
    OneToOneIndex(lrows, right, key, i);
    r := OneMatchRow(lrows[i], right, key);
  }

  /** With exactly one match for every left key, output row `i` is the one row left row `i` yields. */
  lemma {:induction false} OneToOneIndex(lrows: seq<Row>, right: Frame, key: Column, i: nat)
    requires forall l <- lrows :: key in l && KeyCount(right.rows, key, l[key]) == 1
    requires i < |lrows|
    ensures |JoinRows(lrows, right, key)| == |lrows|
    ensures |JoinRow(lrows[i], right, key)| == 1
    ensures JoinRows(lrows, right, key)[i] == JoinRow(lrows[i], right, key)[0]
  {
    JoinRowsOneToOneLength(lrows, right, key);
    var head, rest := JoinRow(lrows[0], right, key), JoinRows(lrows[1..], right, key);
    assert head == [head[0]];
    ConsIndex(head[0], rest, i);
    if i > 0 {
      var tail := lrows[1..];
      assert forall l <- tail :: l in lrows;
      OneToOneIndex(tail, right, key, i - 1);
      assert lrows[i] == tail[i - 1];
    }
  }

  /** Indexing into a sequence with one element in front. */
  lemma ConsIndex<T>(x: T, ys: seq<T>, i: nat)
    requires i <= |ys|
    ensures ([x] + ys)[i] == if i == 0 then x else ys[i - 1]
  {
  }

  // ---------------------------------------------------------------------------
  // The two table builders
  // ---------------------------------------------------------------------------

  /** The label column of the competition training table. */
  const DamageGrade: Column := "damage_grade"

  /** Whether `left` and `right` share no column other than `key` (pandas would suffix such columns). */
  predicate DisjointExceptKey(left: Frame, right: Frame, key: Column) {
    forall c <- left.columns :: c == key || c !in right.columns
  }

  /**
   * `build_competition_tables(train, labels, test)`: the training features
   * left-joined with the labels on `building_id`, and the test table as given.
   */
  function BuildCompetitionTables(train: Frame, labels: Frame, test: Frame): (r: Result<(Frame, Frame), TableError>)
    requires WellFormed(train) && WellFormed(labels) && DisjointExceptKey(train, labels, BuildingId)
    ensures r.Failure? <==> BuildingId !in train.columns || BuildingId !in labels.columns
    ensures r.Failure? ==> r.error == KeyError(BuildingId)
    ensures r.Success? ==> r.value.1 == test
    ensures r.Success? ==> WellFormed(r.value.0)
    ensures r.Success? ==> r.value.0.columns == train.columns + NonKey(labels.columns, BuildingId)
    ensures r.Success? ==> |r.value.0.rows| >= |train.rows|
    ensures r.Success? ==> r.value.0.rows == JoinRows(train.rows, labels, BuildingId)
  {
    match LeftJoin(train, labels, BuildingId)
    case Success(df) => Success((df, test))
    case Failure(e) => Failure(e)
  }

  /**
   * When the labels hold exactly one row for each training `building_id` and
   * no label is missing, the merged table has one row per training row, each
   * carrying its training cells and a `damage_grade` that is not missing.
   */
  lemma CompetitionFullyLabelled(train: Frame, labels: Frame, test: Frame)
    requires WellFormed(train) && WellFormed(labels) && DisjointExceptKey(train, labels, BuildingId)
    requires BuildingId in train.columns && BuildingId in labels.columns && DamageGrade in labels.columns
    requires forall row <- train.rows :: KeyCount(labels.rows, BuildingId, row[BuildingId]) == 1
    requires forall row <- labels.rows :: row[DamageGrade] != None
    ensures BuildCompetitionTables(train, labels, test).Success?
    ensures var df := BuildCompetitionTables(train, labels, test).value.0;
      && |df.rows| == |train.rows|
      && forall i :: 0 <= i < |df.rows| ==>
           Extends(df.rows[i], train.rows[i]) && DamageGrade in df.rows[i] && df.rows[i][DamageGrade] != None
  {
    var df := BuildCompetitionTables(train, labels, test).value.0;
    assert df.rows == JoinRows(train.rows, labels, BuildingId);
    forall row <- train.rows ensures BuildingId in row {
      assert row.Keys == ColumnSet(train.columns);
    }
    JoinRowsOneToOneLength(train.rows, labels, BuildingId);
    forall i | 0 <= i < |df.rows|
      ensures Extends(df.rows[i], train.rows[i]) && DamageGrade in df.rows[i] && df.rows[i][DamageGrade] != None
    {
      var l := train.rows[i];
      var r := JoinRowsOneToOneAt(train.rows, labels, BuildingId, i);
      assert l in train.rows && r in labels.rows;
      assert l.Keys == ColumnSet(train.columns) && r.Keys == ColumnSet(labels.columns);
      assert DamageGrade !in l;
      assert df.rows[i][DamageGrade] == r[DamageGrade];
    }
  }

  /** Training features for buildings 1, 2 and 3. */
  function ExampleTrain(): Frame {
    Frame([BuildingId], [map[BuildingId := Some(Num(1.0))], map[BuildingId := Some(Num(2.0))], map[BuildingId := Some(Num(3.0))]])
  }

  /** Damage grades 1, 2 and 3 for buildings 1, 2 and 3. */
  function ExampleLabels(): Frame {
    Frame([BuildingId, DamageGrade], [
      map[BuildingId := Some(Num(1.0)), DamageGrade := Some(Num(1.0))],
      map[BuildingId := Some(Num(2.0)), DamageGrade := Some(Num(2.0))],
      map[BuildingId := Some(Num(3.0)), DamageGrade := Some(Num(3.0))]])
  }

  lemma ExampleTablesWellFormed()
    ensures WellFormed(ExampleTrain()) && WellFormed(ExampleLabels())
    ensures DisjointExceptKey(ExampleTrain(), ExampleLabels(), BuildingId)
  {
    assert ColumnSet(ExampleLabels().columns) == {BuildingId, DamageGrade};
    assert ColumnSet(ExampleTrain().columns) == {BuildingId};
  }

  lemma ExampleKeysUnique()
    ensures forall row <- ExampleTrain().rows :: KeyCount(ExampleLabels().rows, BuildingId, row[BuildingId]) == 1
  {
    var rr := ExampleLabels().rows;
    forall row <- ExampleTrain().rows ensures KeyCount(rr, BuildingId, row[BuildingId]) == 1 {
      var k := row[BuildingId];
      assert rr[1..][1..][1..] == [];
      assert KeyCount(rr[1..][1..], BuildingId, k) == if k == Some(Num(3.0)) then 1 else 0;
      assert KeyCount(rr[1..], BuildingId, k) == if k == Some(Num(1.0)) then 0 else 1;
    }
  }

  /**
   * Buildings 1, 2 and 3 with damage grades 1, 2 and 3: the merged table has
   * exactly three rows, the training rows in order, each with a grade.
   */
  lemma ThreeBuildingsFullyLabelled(test: Frame)
    ensures WellFormed(ExampleTrain()) && WellFormed(ExampleLabels())
    ensures BuildCompetitionTables(ExampleTrain(), ExampleLabels(), test).Success?
    ensures var df := BuildCompetitionTables(ExampleTrain(), ExampleLabels(), test).value.0;
      && |df.rows| == 3
      && forall i :: 0 <= i < 3 ==>
           Extends(df.rows[i], ExampleTrain().rows[i]) && DamageGrade in df.rows[i] && df.rows[i][DamageGrade] != None
  {
    ExampleTablesWellFormed();
    ExampleKeysUnique();
    CompetitionFullyLabelled(ExampleTrain(), ExampleLabels(), test);
  }

  /**
   * `build_original_table(structure, owner)`: the structure table left-joined
   * with the ownership-and-use table on `building_id`.
   */
  function BuildOriginalTable(structure: Frame, owner: Frame): (r: Result<Frame, TableError>)
    requires WellFormed(structure) && WellFormed(owner) && DisjointExceptKey(structure, owner, BuildingId)
    ensures r.Failure? <==> BuildingId !in structure.columns || BuildingId !in owner.columns
    ensures r.Failure? ==> r.error == KeyError(BuildingId)
    ensures r.Success? ==> WellFormed(r.value)
    ensures r.Success? ==> r.value.columns == structure.columns + NonKey(owner.columns, BuildingId)
    ensures r.Success? ==> |r.value.rows| >= |structure.rows|
    ensures r.Success? ==> r.value.rows == JoinRows(structure.rows, owner, BuildingId)
  {
    LeftJoin(structure, owner, BuildingId)
  }
}
