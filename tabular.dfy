/** The tabular backend of SpQLInterpreter.py: `_gen_dataframe_query`
    filters a table by one clause. */
module TabularBackend {
  import opened Wrappers
  import opened Values
  import opened Operators
  import opened Query

  /** A data frame: column names and rows of cells, row by row. */
  datatype Table = Table(columns: seq<string>, rows: seq<seq<Value>>)

  /** Every row has one cell per column. */
  predicate WellFormed(t: Table)
  {
    forall i :: 0 <= i < |t.rows| ==> |t.rows[i]| == |t.columns|
  }

  predicate Increasing(s: seq<nat>)
  {
    forall i, j :: 0 <= i < j < |s| ==> s[i] < s[j]
  }

  predicate Below(s: seq<nat>, n: nat)
  {
    forall i :: 0 <= i < |s| ==> s[i] < n
  }

  /** Which rows and which columns of a table survive, as positions. */
  datatype Selection = Selection(rows: seq<nat>, cols: seq<nat>)

  /** Positions in increasing order, so that a projection keeps the original
      order of rows and of columns. */
  predicate ValidSelection(t: Table, s: Selection)
  {
    Increasing(s.rows) && Below(s.rows, |t.rows|) && Increasing(s.cols) && Below(s.cols, |t.columns|)
  }

  /** The sub-table of the selected rows and columns, cells unchanged. */
  function Project(t: Table, s: Selection): (r: Table)
    requires WellFormed(t) && ValidSelection(t, s)
    ensures WellFormed(r)
    ensures |r.rows| == |s.rows| && |r.columns| == |s.cols|
  {
    Table(seq(|s.cols|, j requires 0 <= j < |s.cols| => t.columns[s.cols[j]]),
          seq(|s.rows|, i requires 0 <= i < |s.rows| =>
            seq(|s.cols|, j requires 0 <= j < |s.cols| => t.rows[s.rows[i]][s.cols[j]])))
  }

  function AllIndices(n: nat): (r: seq<nat>)
    ensures |r| == n && Increasing(r) && Below(r, n)
    ensures forall i :: 0 <= i < n ==> r[i] == i
  {
    seq(n, i requires 0 <= i < n => i)
  }

  /** The positions of the elements that satisfy `p`, in order. */
  function IndicesWhere<T>(s: seq<T>, p: T -> bool): (r: seq<nat>)
    ensures Increasing(r) && Below(r, |s|)
    ensures forall j :: 0 <= j < |s| ==> (j in r <==> p(s[j]))
    decreases |s|
  {
    if s == [] then []
    else
      var n := |s| - 1;
      var front := IndicesWhere(s[..n], p);
      assert forall j :: 0 <= j < n ==> s[..n][j] == s[j];
      if p(s[n]) then front + [n] else front
  }

  /** The field patterns as the values `bool_test` compares column names with. */
  function FieldValues(fields: seq<string>): (r: seq<Value>)
    ensures |r| == |fields| && forall i :: 0 <= i < |fields| ==> r[i] == Str(fields[i])
  {
    seq(|fields|, i requires 0 <= i < |fields| => Str(fields[i]))
  }

  /** `bool_test(cell, operator, values)` comes out true. */
  predicate Passes(cell: Value, c: Clause, search: Searcher)
  {
    BoolTest(cell, c.operator, Many(c.values), search) == Success(true)
  }

  /** Column `j` is one the clause tests: every column for `['all']`,
      otherwise those whose name passes `bool_test(name, field_operator, fields)`. */
  predicate Tested(t: Table, c: Clause, fieldOperator: string, search: Searcher, j: nat)
    requires j < |t.columns|
  {
    IsAll(c.fields) || BoolTest(Str(t.columns[j]), fieldOperator, Many(FieldValues(c.fields)), search) == Success(true)
  }

  /** Some column is tested. Without one the cell mask has no column, so
      `applymap` yields an empty mask and `.ix[mask.index]` keeps no row. */
  predicate AnyTested(t: Table, c: Clause, fieldOperator: string, search: Searcher)
  {
    exists j :: 0 <= j < |t.columns| && Tested(t, c, fieldOperator, search, j)
  }

  /** Every tested cell of row `i` passes: AND over the tested columns, OR
      over the clause's values inside each cell's test. */
  predicate TestedCellsPass(t: Table, c: Clause, fieldOperator: string, search: Searcher, i: nat)
    requires WellFormed(t) && i < |t.rows|
  {
    forall j :: 0 <= j < |t.columns| && Tested(t, c, fieldOperator, search, j) ==> Passes(t.rows[i][j], c, search)
  }

  /** A row is kept when some column is tested and every tested cell passes. */
  predicate Survives(t: Table, c: Clause, fieldOperator: string, search: Searcher, i: nat)
    requires WellFormed(t) && i < |t.rows|
  {
    AnyTested(t, c, fieldOperator, search) && TestedCellsPass(t, c, fieldOperator, search, i)
  }

  /** Every tested cell of the row passes the operator. */
  predicate CellsPass(row: seq<Value>, cols: seq<nat>, op: Operator, values: seq<Value>, search: Searcher)
  {
    forall k :: 0 <= k < |cols| && cols[k] < |row| ==> AnyPasses(op, search, row[cols[k]], values)
  }

  /** Column `j` still holds a non-missing cell (what `dropna(how='all', axis=1)` keeps). */
  predicate HasValue(t: Table, j: nat)
  {
    exists i :: 0 <= i < |t.rows| && j < |t.rows[i]| && t.rows[i][j] != Missing
  }

  /** The columns whose names pass the field test, for a known field operator. */
  function TestedColumns(t: Table, fop: Operator, fields: seq<string>, search: Searcher): (r: seq<nat>)
    ensures Increasing(r) && Below(r, |t.columns|)
  {
    IndicesWhere(t.columns, (name: string) => AnyPasses(fop, search, Str(name), FieldValues(fields)))
  }

  /** Rows whose tested cells all pass, for a known operator. */
  function PassingRows(t: Table, cols: seq<nat>, op: Operator, values: seq<Value>, search: Searcher): (r: seq<nat>)
    ensures Increasing(r) && Below(r, |t.rows|)
  {
    IndicesWhere(t.rows, (row: seq<Value>) => CellsPass(row, cols, op, values, search))
  }

  /** The tested columns, or KeyError once the field operator is applied to a column. */
  function ResolveColumns(t: Table, c: Clause, fieldOperator: string, search: Searcher): Result<seq<nat>, PyError>
  {
    if IsAll(c.fields) then Success(AllIndices(|t.columns|))
    else if |t.columns| == 0 then Success([])
    else match Lookup(fieldOperator)
      case None => Failure(KeyError(fieldOperator))
      case Some(fop) => Success(TestedColumns(t, fop, c.fields, search))
  }

  /** The kept rows, or KeyError once the operator is applied to a cell. */
  function ResolveRows(t: Table, cols: seq<nat>, c: Clause, search: Searcher): Result<seq<nat>, PyError>
  {
    if |cols| == 0 || |t.rows| == 0 then Success([])
    else match Lookup(c.operator)
      case None => Failure(KeyError(c.operator))
      case Some(op) => Success(PassingRows(t, cols, op, c.values, search))
  }

  /** What `_gen_dataframe_query` keeps of a table, as positions. */
  function ClauseSelection(t: Table, c: Clause, fieldOperator: string, search: Searcher): (r: Result<Selection, PyError>)
    requires WellFormed(t)
    ensures r.Success? ==> ValidSelection(t, r.value)
  {
    match ResolveColumns(t, c, fieldOperator, search)
    case Failure(e) => Failure(e)
    case Success(cols) =>
      match ResolveRows(t, cols, c, search)
      case Failure(e) => Failure(e)
      case Success(rows) =>
        if IsAll(c.fields) then Success(Selection(rows, AllIndices(|t.columns|)))
        else
          var kept := Project(t, Selection(rows, AllIndices(|t.columns|)));
          Success(Selection(rows, IndicesWhere(AllIndices(|t.columns|), (j: nat) => HasValue(kept, j))))
  }

  /** `_gen_dataframe_query(dataframe, fields, operator, values, field_operator)`. */
  function GenDataframeQuery(t: Table, c: Clause, fieldOperator: string, search: Searcher): (r: Result<Table, PyError>)
    requires WellFormed(t)
    ensures r.Success? ==> WellFormed(r.value)
  {
    match ClauseSelection(t, c, fieldOperator, search)
    case Failure(e) => Failure(e)
    case Success(s) => Success(Project(t, s))
  }

  lemma PassesIff(cell: Value, c: Clause, op: Operator, search: Searcher)
    requires Lookup(c.operator) == Some(op)
    ensures Passes(cell, c, search) <==> AnyPasses(op, search, cell, c.values)
  {
  }

  /** The columns the resolution step returns are exactly the tested ones. */
  lemma {:induction false} ResolveColumnsExact(t: Table, c: Clause, fieldOperator: string, search: Searcher)
    requires ResolveColumns(t, c, fieldOperator, search).Success?
    ensures var cols := ResolveColumns(t, c, fieldOperator, search).value;
      && Increasing(cols) && Below(cols, |t.columns|)
      && forall j :: 0 <= j < |t.columns| ==> (j in cols <==> Tested(t, c, fieldOperator, search, j))
  {
    var cols := ResolveColumns(t, c, fieldOperator, search).value;
    forall j | 0 <= j < |t.columns|
      ensures j in cols <==> Tested(t, c, fieldOperator, search, j)
    {
      if IsAll(c.fields) {
        assert cols[j] == j;
      } else {
        var fop := Lookup(fieldOperator).value;
        var p := (name: string) => AnyPasses(fop, search, Str(name), FieldValues(c.fields));
        assert cols == IndicesWhere(t.columns, p);
        assert j in cols <==> p(t.columns[j]);
        assert BoolTest(Str(t.columns[j]), fieldOperator, Many(FieldValues(c.fields)), search)
            == Success(AnyPasses(fop, search, Str(t.columns[j]), FieldValues(c.fields)));
      }
    }
  }

  /** The rows the filtering step returns are exactly the surviving ones. */
  lemma {:induction false} ResolveRowsExact(t: Table, c: Clause, fieldOperator: string, search: Searcher)
    requires WellFormed(t)
    requires ResolveColumns(t, c, fieldOperator, search).Success?
    requires ResolveRows(t, ResolveColumns(t, c, fieldOperator, search).value, c, search).Success?
    ensures var rows := ResolveRows(t, ResolveColumns(t, c, fieldOperator, search).value, c, search).value;
      && Increasing(rows) && Below(rows, |t.rows|)
      && forall i :: 0 <= i < |t.rows| ==> (i in rows <==> Survives(t, c, fieldOperator, search, i))
  {
    var cols := ResolveColumns(t, c, fieldOperator, search).value;
    ResolveColumnsExact(t, c, fieldOperator, search);
    var rows := ResolveRows(t, cols, c, search).value;
    forall i | 0 <= i < |t.rows|
      ensures i in rows <==> Survives(t, c, fieldOperator, search, i)
    {
      if |cols| == 0 {
        forall j | 0 <= j < |t.columns| ensures !Tested(t, c, fieldOperator, search, j) {
          assert j !in cols;
        }
      } else {
        var op := Lookup(c.operator).value;
        assert cols[0] in cols;
        assert AnyTested(t, c, fieldOperator, search);
        assert i in rows <==> CellsPass(t.rows[i], cols, op, c.values, search);
        if CellsPass(t.rows[i], cols, op, c.values, search) {
          forall j | 0 <= j < |t.columns| && Tested(t, c, fieldOperator, search, j)
            ensures Passes(t.rows[i][j], c, search)
          {
            var k :| 0 <= k < |cols| && cols[k] == j;
            PassesIff(t.rows[i][j], c, op, search);
          }
        }
        if Survives(t, c, fieldOperator, search, i) {
          forall k | 0 <= k < |cols| && cols[k] < |t.rows[i]|
            ensures AnyPasses(op, search, t.rows[i][cols[k]], c.values)
          {
            assert cols[k] in cols;
            PassesIff(t.rows[i][cols[k]], c, op, search);
          }
        }
      }
    }
  }

  /** One clause of the tabular backend. A row is kept exactly when every
      tested cell passes `bool_test(cell, operator, values)`; surviving rows
      and columns keep their order and their cells. With `['all']` no column
      is removed; with named fields a column (tested or not) stays exactly
      when some surviving row holds a non-missing cell in it. */
  lemma {:induction false} ClauseSelectionExact(t: Table, c: Clause, fieldOperator: string, search: Searcher)
    requires WellFormed(t)
    requires ClauseSelection(t, c, fieldOperator, search).Success?
    ensures var s := ClauseSelection(t, c, fieldOperator, search).value;
      && ValidSelection(t, s)
      && (forall i :: 0 <= i < |t.rows| ==> (i in s.rows <==> Survives(t, c, fieldOperator, search, i)))
      && (IsAll(c.fields) ==> s.cols == AllIndices(|t.columns|))
      && (!IsAll(c.fields) ==> forall j :: 0 <= j < |t.columns| ==>
            (j in s.cols <==> exists i :: i in s.rows && t.rows[i][j] != Missing))
  {
    ResolveRowsExact(t, c, fieldOperator, search);
    var s := ClauseSelection(t, c, fieldOperator, search).value;
    if !IsAll(c.fields) {
      ValuedColumnsExact(t, s.rows);
    }
  }

  /** After keeping `rows`, column `j` holds a value exactly when one of those
      rows has a non-missing cell in it. */
  lemma ValuedColumnsExact(t: Table, rows: seq<nat>)
    requires WellFormed(t) && Increasing(rows) && Below(rows, |t.rows|)
    ensures var kept := Project(t, Selection(rows, AllIndices(|t.columns|)));
      forall j :: 0 <= j < |t.columns| ==>
        (HasValue(kept, j) <==> exists i :: i in rows && t.rows[i][j] != Missing)
  {
    var kept := Project(t, Selection(rows, AllIndices(|t.columns|)));
    forall j | 0 <= j < |t.columns|
      ensures HasValue(kept, j) <==> exists i :: i in rows && t.rows[i][j] != Missing
    {
      if HasValue(kept, j) {
        var m :| 0 <= m < |kept.rows| && j < |kept.rows[m]| && kept.rows[m][j] != Missing;
        assert kept.rows[m][j] == t.rows[rows[m]][j];
        assert rows[m] in rows;
      }
      if exists i :: i in rows && t.rows[i][j] != Missing {
        var i :| i in rows && t.rows[i][j] != Missing;
        var m :| 0 <= m < |rows| && rows[m] == i;
        assert kept.rows[m][j] == t.rows[i][j];
      }
    }
  }

  /** The KeyErrors of one clause: the field operator is looked up only when
      some column is named-tested, the operator only when some tested cell
      exists. */
  lemma ClauseErrors(t: Table, c: Clause, fieldOperator: string, search: Searcher)
    requires WellFormed(t)
    ensures ResolveColumns(t, c, fieldOperator, search).Failure? <==>
              !IsAll(c.fields) && |t.columns| > 0 && Lookup(fieldOperator).None?
    ensures ResolveColumns(t, c, fieldOperator, search).Success? ==>
              (ClauseSelection(t, c, fieldOperator, search).Failure? <==>
                 |ResolveColumns(t, c, fieldOperator, search).value| > 0 && |t.rows| > 0 && Lookup(c.operator).None?)
    ensures ClauseSelection(t, c, fieldOperator, search).Failure? ==>
              ClauseSelection(t, c, fieldOperator, search).error in {KeyError(fieldOperator), KeyError(c.operator)}
  {
  }

  /** An increasing list of positions below `n` that holds every position
      is the list of all positions. */
  lemma {:induction false} FullIncreasing(s: seq<nat>, n: nat)
    requires Increasing(s) && Below(s, n)
    requires forall i :: 0 <= i < n ==> i in s
    ensures s == AllIndices(n)
  {
    // s[k] >= k for every k, and |s| <= n since the entries are distinct and below n
    forall k | 0 <= k < |s| ensures s[k] >= k {
      AtLeastPosition(s, k);
    }
    if |s| > n {
      AtLeastPosition(s, |s| - 1);
    }
    if |s| < n {
      assert |s| in s;
      var k :| 0 <= k < |s| && s[k] == |s|;
      AtMostShift(s, n, k);
    }
    forall k | 0 <= k < |s| ensures s[k] == k {
      AtMostShift(s, n, k);
    }
  }

  lemma {:induction false} AtLeastPosition(s: seq<nat>, k: nat)
    requires Increasing(s) && k < |s|
    ensures s[k] >= k
  {
    if k > 0 {
      AtLeastPosition(s, k - 1);
    }
  }

  /** In an increasing list of positions below `n` that holds every
      position, entry `k` is at most `k`: by induction on `k`. */
  lemma {:induction false} AtMostShift(s: seq<nat>, n: nat, k: nat)
    requires Increasing(s) && Below(s, n) && k < |s|
    requires forall i :: 0 <= i < n ==> i in s
    ensures s[k] <= k
    decreases k
  {
    if s[k] > k {
      assert s[k] < n;
      // k itself occurs in s at some position m: after k it would exceed s[k],
      // before k the induction hypothesis bounds it below k
      assert k in s;
      var m :| 0 <= m < |s| && s[m] == k;
      if m < k {
        AtMostShift(s, n, m);
      }
    }
  }

  lemma ProjectIdentity(t: Table)
    requires WellFormed(t)
    ensures Project(t, Selection(AllIndices(|t.rows|), AllIndices(|t.columns|))) == t
  {
    var r := Project(t, Selection(AllIndices(|t.rows|), AllIndices(|t.columns|)));
    assert r.columns == t.columns;
    forall i | 0 <= i < |t.rows| ensures r.rows[i] == t.rows[i] {
    }
  }

  /** A column of a projection is tested exactly when its source column is:
      the test only reads the column's name. */
  lemma ProjectTested(t: Table, s: Selection, c: Clause, fieldOperator: string, search: Searcher, k: nat)
    requires WellFormed(t) && ValidSelection(t, s) && k < |s.cols|
    ensures Tested(Project(t, s), c, fieldOperator, search, k) <==> Tested(t, c, fieldOperator, search, s.cols[k])
  {
    assert Project(t, s).columns[k] == t.columns[s.cols[k]];
  }

  /** Filtering the result of a clause by the same clause raises nothing:
      every lookup it makes, the first run made too. */
  lemma {:induction false} ClauseAgainSucceeds(t: Table, c: Clause, fieldOperator: string, search: Searcher)
    requires WellFormed(t)
    requires ClauseSelection(t, c, fieldOperator, search).Success?
    ensures ClauseSelection(Project(t, ClauseSelection(t, c, fieldOperator, search).value), c, fieldOperator, search).Success?
  {
    var s := ClauseSelection(t, c, fieldOperator, search).value;
    var r := Project(t, s);
    ClauseErrors(t, c, fieldOperator, search);
    ClauseErrors(r, c, fieldOperator, search);
    if !IsAll(c.fields) && |r.columns| > 0 {
      assert s.cols[0] < |t.columns|;
    }
    ResolveColumnsExact(t, c, fieldOperator, search);
    ResolveColumnsExact(r, c, fieldOperator, search);
    var colsR := ResolveColumns(r, c, fieldOperator, search).value;
    if |colsR| > 0 && |r.rows| > 0 {
      var k := colsR[0];
      assert k in colsR;
      ProjectTested(t, s, c, fieldOperator, search, k);
      assert s.cols[k] in ResolveColumns(t, c, fieldOperator, search).value;
      assert s.rows[0] < |t.rows|;
    }
  }

  /** Keeping some rows and columns keeps every tested cell of a kept row
      passing: the tested columns of the projection are tested columns of
      the table, and the cells are the same. */
  lemma ProjectKeepsPassing(t: Table, s: Selection, c: Clause, fieldOperator: string, search: Searcher, m: nat)
    requires WellFormed(t) && ValidSelection(t, s) && m < |s.rows|
    requires TestedCellsPass(t, c, fieldOperator, search, s.rows[m])
    ensures TestedCellsPass(Project(t, s), c, fieldOperator, search, m)
  {
    var r := Project(t, s);
    forall k | 0 <= k < |r.columns| && Tested(r, c, fieldOperator, search, k)
      ensures Passes(r.rows[m][k], c, search)
    {
      ProjectTested(t, s, c, fieldOperator, search, k);
      assert r.rows[m][k] == t.rows[s.rows[m]][s.cols[k]];
    }
  }

  /** Every tested cell of a row of a clause's result passes the clause again. */
  lemma {:induction false} RowsSurviveAgain(t: Table, c: Clause, fieldOperator: string, search: Searcher, m: nat)
    requires WellFormed(t)
    requires ClauseSelection(t, c, fieldOperator, search).Success?
    requires m < |Project(t, ClauseSelection(t, c, fieldOperator, search).value).rows|
    ensures TestedCellsPass(Project(t, ClauseSelection(t, c, fieldOperator, search).value), c, fieldOperator, search, m)
  {
    var s := ClauseSelection(t, c, fieldOperator, search).value;
    ClauseSelectionExact(t, c, fieldOperator, search);
    assert s.rows[m] in s.rows;
    assert Survives(t, c, fieldOperator, search, s.rows[m]);
    ProjectKeepsPassing(t, s, c, fieldOperator, search, m);
  }

  /** With named fields, every column of a clause's result holds a value in some row. */
  lemma {:induction false} ColumnsKeepValue(t: Table, c: Clause, fieldOperator: string, search: Searcher, k: nat)
    requires WellFormed(t) && !IsAll(c.fields)
    requires ClauseSelection(t, c, fieldOperator, search).Success?
    requires k < |Project(t, ClauseSelection(t, c, fieldOperator, search).value).columns|
    ensures exists m :: 0 <= m < |Project(t, ClauseSelection(t, c, fieldOperator, search).value).rows| &&
              Project(t, ClauseSelection(t, c, fieldOperator, search).value).rows[m][k] != Missing
  {
    var s := ClauseSelection(t, c, fieldOperator, search).value;
    var r := Project(t, s);
    ClauseSelectionExact(t, c, fieldOperator, search);
    assert s.cols[k] in s.cols;
    var i :| i in s.rows && t.rows[i][s.cols[k]] != Missing;
    var m :| 0 <= m < |s.rows| && s.rows[m] == i;
    assert r.rows[m][k] == t.rows[i][s.cols[k]];
  }

  /** Idempotence: filtering the result of a clause by the same clause gives
      that result back unchanged, unless the result has rows but none of its
      columns is tested any more. That happens only with named fields, when
      every tested column was empty in the kept rows (see
      `ClauseNotAlwaysIdempotent`); with `['all']` it never happens. */
  lemma {:induction false} ClauseIdempotent(t: Table, c: Clause, fieldOperator: string, search: Searcher)
    requires WellFormed(t)
    requires GenDataframeQuery(t, c, fieldOperator, search).Success?
    ensures var r := GenDataframeQuery(t, c, fieldOperator, search).value;
      IsAll(c.fields) ==> |r.rows| == 0 || AnyTested(r, c, fieldOperator, search)
    ensures var r := GenDataframeQuery(t, c, fieldOperator, search).value;
      (|r.rows| == 0 || AnyTested(r, c, fieldOperator, search)) ==> GenDataframeQuery(r, c, fieldOperator, search) == Success(r)
  {
    var r := Project(t, ClauseSelection(t, c, fieldOperator, search).value);
    if IsAll(c.fields) {
      AllStaysTested(t, c, fieldOperator, search);
    }
    if |r.rows| > 0 && !AnyTested(r, c, fieldOperator, search) {
      return;
    }
    AgainKeepsRows(t, c, fieldOperator, search);
    if !IsAll(c.fields) {
      AgainKeepsColumns(t, c, fieldOperator, search);
    } else {
      ClauseSelectionExact(r, c, fieldOperator, search);
    }
    ProjectIdentity(r);
  }

  /** Named fields are not always idempotent: `a != 5` keeps the row whose
      `a` is missing (NaN differs from everything), then drops the empty
      column `a`; filtering again tests no column and keeps no row. */
  lemma ClauseNotAlwaysIdempotent(search: Searcher)
    ensures var c := Clause(["a"], "!=", [Int(5)]);
      && GenDataframeQuery(Table(["a", "b"], [[Missing, Int(1)]]), c, "==", search) == Success(Table(["b"], [[Int(1)]]))
      && !AnyTested(Table(["b"], [[Int(1)]]), c, "==", search)
      && GenDataframeQuery(Table(["b"], [[Int(1)]]), c, "==", search) == Success(Table([], []))
  {
    ExampleFirstPass(search);
    ExampleSecondPass(search);
  }

  /** Positions among `0 .. n-1` that hold exactly `k` form the list `[k]`. */
  lemma OnlyIndex(r: seq<nat>, n: nat, k: nat)
    requires Increasing(r) && Below(r, n) && k < n
    requires forall j :: 0 <= j < n ==> (j in r <==> j == k)
    ensures r == [k]
  {
    assert k in r;
    assert r[0] in r && r[|r| - 1] in r;
  }

  lemma ExampleFirstPass(search: Searcher)
    ensures var c := Clause(["a"], "!=", [Int(5)]);
      GenDataframeQuery(Table(["a", "b"], [[Missing, Int(1)]]), c, "==", search) == Success(Table(["b"], [[Int(1)]]))
  {
    var t := Table(["a", "b"], [[Missing, Int(1)]]);
    var c := Clause(["a"], "!=", [Int(5)]);
    ExampleFirstSelection(search);
    ExampleFirstProject();
  }

  lemma ExampleFirstProject()
    ensures Project(Table(["a", "b"], [[Missing, Int(1)]]), Selection([0], [1])) == Table(["b"], [[Int(1)]])
  {
    var r := Project(Table(["a", "b"], [[Missing, Int(1)]]), Selection([0], [1]));
    assert r.columns == ["b"];
    assert r.rows[0] == [Int(1)];
  }

  lemma ExampleFirstSelection(search: Searcher)
    ensures var c := Clause(["a"], "!=", [Int(5)]);
      ClauseSelection(Table(["a", "b"], [[Missing, Int(1)]]), c, "==", search) == Success(Selection([0], [1]))
  {
    ExampleFirstColumns(search);
    ExampleFirstRows(search);
    ExampleFirstKept();
  }

  lemma ExampleFirstColumns(search: Searcher)
    ensures ResolveColumns(Table(["a", "b"], [[Missing, Int(1)]]), Clause(["a"], "!=", [Int(5)]), "==", search) == Success([0])
  {
    var t := Table(["a", "b"], [[Missing, Int(1)]]);
    var c := Clause(["a"], "!=", [Int(5)]);
    assert Lookup("==") == Some(Eq);
    ResolveColumnsExact(t, c, "==", search);
    assert !Equal(Str("b"), Str("a"));
    assert Tested(t, c, "==", search, 0) && !Tested(t, c, "==", search, 1);
    OnlyIndex(ResolveColumns(t, c, "==", search).value, 2, 0);
  }

  lemma ExampleFirstRows(search: Searcher)
    ensures ResolveRows(Table(["a", "b"], [[Missing, Int(1)]]), [0], Clause(["a"], "!=", [Int(5)]), search) == Success([0])
  {
    var t := Table(["a", "b"], [[Missing, Int(1)]]);
    assert Lookup("!=") == Some(Ne);
    assert AnyPasses(Ne, search, Missing, [Int(5)]);
    assert CellsPass(t.rows[0], [0], Ne, [Int(5)], search);
    OnlyIndex(PassingRows(t, [0], Ne, [Int(5)], search), 1, 0);
  }

  lemma ExampleFirstKept()
    ensures var kept := Project(Table(["a", "b"], [[Missing, Int(1)]]), Selection([0], AllIndices(2)));
      IndicesWhere(AllIndices(2), (j: nat) => HasValue(kept, j)) == [1]
  {
    var kept := Project(Table(["a", "b"], [[Missing, Int(1)]]), Selection([0], AllIndices(2)));
    assert kept.rows[0] == [Missing, Int(1)];
    assert !HasValue(kept, 0) && HasValue(kept, 1);
    OnlyIndex(IndicesWhere(AllIndices(2), (j: nat) => HasValue(kept, j)), 2, 1);
  }

  lemma ExampleSecondPass(search: Searcher)
    ensures !AnyTested(Table(["b"], [[Int(1)]]), Clause(["a"], "!=", [Int(5)]), "==", search)
    ensures GenDataframeQuery(Table(["b"], [[Int(1)]]), Clause(["a"], "!=", [Int(5)]), "==", search) == Success(Table([], []))
  {
    var r := Table(["b"], [[Int(1)]]);
    var c := Clause(["a"], "!=", [Int(5)]);
    assert Lookup("==") == Some(Eq);
    ResolveColumnsExact(r, c, "==", search);
    assert !Equal(Str("b"), Str("a"));
    assert !Tested(r, c, "==", search, 0);
    assert ResolveColumns(r, c, "==", search).value == [];
    var kept := Project(r, Selection([], AllIndices(1)));
    var keptCols := IndicesWhere(AllIndices(1), (j: nat) => HasValue(kept, j));
    assert 0 !in keptCols;
    assert ClauseSelection(r, c, "==", search) == Success(Selection([], []));
  }

  /** With `['all']`, a result with rows still has every column, all tested. */
  lemma AllStaysTested(t: Table, c: Clause, fieldOperator: string, search: Searcher)
    requires WellFormed(t) && IsAll(c.fields)
    requires ClauseSelection(t, c, fieldOperator, search).Success?
    ensures var r := Project(t, ClauseSelection(t, c, fieldOperator, search).value);
      |r.rows| == 0 || AnyTested(r, c, fieldOperator, search)
  {
    var s := ClauseSelection(t, c, fieldOperator, search).value;
    var r := Project(t, s);
    ClauseSelectionExact(t, c, fieldOperator, search);
    if |r.rows| > 0 {
      assert s.rows[0] in s.rows;
      assert AnyTested(t, c, fieldOperator, search);
      assert |r.columns| == |t.columns| > 0;
      assert Tested(r, c, fieldOperator, search, 0);
    }
  }

  /** Applying a clause a second time keeps every row of the first result,
      provided the result has no row or still has a tested column. */
  lemma {:induction false} AgainKeepsRows(t: Table, c: Clause, fieldOperator: string, search: Searcher)
    requires WellFormed(t)
    requires ClauseSelection(t, c, fieldOperator, search).Success?
    requires var r := Project(t, ClauseSelection(t, c, fieldOperator, search).value);
      |r.rows| == 0 || AnyTested(r, c, fieldOperator, search)
    ensures var r := Project(t, ClauseSelection(t, c, fieldOperator, search).value);
      && ClauseSelection(r, c, fieldOperator, search).Success?
      && ClauseSelection(r, c, fieldOperator, search).value.rows == AllIndices(|r.rows|)
  {
    var r := Project(t, ClauseSelection(t, c, fieldOperator, search).value);
    ClauseAgainSucceeds(t, c, fieldOperator, search);
    forall m | 0 <= m < |r.rows| ensures Survives(r, c, fieldOperator, search, m) {
      SurvivesAgain(t, c, fieldOperator, search, m);
    }
    AllSurviveAllKept(r, c, fieldOperator, search);
  }

  /** When every row survives, a clause keeps every row. */
  lemma AllSurviveAllKept(r: Table, c: Clause, fieldOperator: string, search: Searcher)
    requires WellFormed(r) && ClauseSelection(r, c, fieldOperator, search).Success?
    requires forall m :: 0 <= m < |r.rows| ==> Survives(r, c, fieldOperator, search, m)
    ensures ClauseSelection(r, c, fieldOperator, search).value.rows == AllIndices(|r.rows|)
  {
    ClauseSelectionExact(r, c, fieldOperator, search);
    FullIncreasing(ClauseSelection(r, c, fieldOperator, search).value.rows, |r.rows|);
  }

  /** A kept row of an output that still tests a column survives the clause again. */
  lemma SurvivesAgain(t: Table, c: Clause, fieldOperator: string, search: Searcher, m: nat)
    requires WellFormed(t)
    requires ClauseSelection(t, c, fieldOperator, search).Success?
    requires var r := Project(t, ClauseSelection(t, c, fieldOperator, search).value);
      m < |r.rows| && AnyTested(r, c, fieldOperator, search)
    ensures Survives(Project(t, ClauseSelection(t, c, fieldOperator, search).value), c, fieldOperator, search, m)
  {
    RowsSurviveAgain(t, c, fieldOperator, search, m);
  }

  /** Applying a field-pattern clause a second time keeps every column of the
      first result, since each of them holds a value in some kept row. */
  lemma {:induction false} AgainKeepsColumns(t: Table, c: Clause, fieldOperator: string, search: Searcher)
    requires WellFormed(t) && !IsAll(c.fields)
    requires ClauseSelection(t, c, fieldOperator, search).Success?
    requires var r := Project(t, ClauseSelection(t, c, fieldOperator, search).value);
      |r.rows| == 0 || AnyTested(r, c, fieldOperator, search)
    ensures var r := Project(t, ClauseSelection(t, c, fieldOperator, search).value);
      && ClauseSelection(r, c, fieldOperator, search).Success?
      && ClauseSelection(r, c, fieldOperator, search).value.cols == AllIndices(|r.columns|)
  {
    var r := Project(t, ClauseSelection(t, c, fieldOperator, search).value);
    AgainKeepsRows(t, c, fieldOperator, search);
    ClauseSelectionExact(r, c, fieldOperator, search);
    var s' := ClauseSelection(r, c, fieldOperator, search).value;
    forall k | 0 <= k < |r.columns| ensures HasValue(r, k) {
      ColumnsKeepValue(t, c, fieldOperator, search, k);
    }
    ValuedColumnsAll(r, s'.rows, s'.cols);
  }

  /** When every row is kept and a column is kept exactly when a kept row
      holds a value in it, a table whose every column holds a value keeps
      every column. */
  lemma {:induction false} ValuedColumnsAll(r: Table, rows: seq<nat>, cols: seq<nat>)
    requires WellFormed(r) && Increasing(cols) && Below(cols, |r.columns|)
    requires rows == AllIndices(|r.rows|)
    requires forall j :: 0 <= j < |r.columns| ==> (j in cols <==> exists i :: i in rows && r.rows[i][j] != Missing)
    requires forall k :: 0 <= k < |r.columns| ==> HasValue(r, k)
    ensures cols == AllIndices(|r.columns|)
  {
    forall k | 0 <= k < |r.columns| ensures k in cols {
      assert HasValue(r, k);
      var m :| 0 <= m < |r.rows| && k < |r.rows[m]| && r.rows[m][k] != Missing;
      assert rows[m] == m;
    }
    FullIncreasing(cols, |r.columns|);
  }

  lemma NotRegexDotStarEmpties(t: Table, search: Searcher)
    requires WellFormed(t) && |t.columns| > 0
    requires forall text :: search(".*", text, false)
    ensures var r := GenDataframeQuery(t, Clause(["all"], "nre", [Str(".*")]), "==", search);
      r.Success? && r.value.rows == []
  {
    var c := Clause(["all"], "nre", [Str(".*")]);
    var r := GenDataframeQuery(t, c, "==", search);
    assert Lookup("nre") == Some(NotRe);
    ClauseSelectionExact(t, c, "==", search);
    var s := ClauseSelection(t, c, "==", search).value;
    forall i | 0 <= i < |t.rows| ensures i !in s.rows {
      assert Tested(t, c, "==", search, 0);
      PassesIff(t.rows[i][0], c, NotRe, search);
    }
    NoneKept(s.rows, |t.rows|);
  }

  /** Positions below `n` of which none is listed form the empty list. */
  lemma NoneKept(rows: seq<nat>, n: nat)
    requires Below(rows, n) && forall i :: 0 <= i < n ==> i !in rows
    ensures rows == []
  {
    if rows != [] {
      HeadListed(rows);
      assert false;
    }
  }

  lemma HeadListed(rows: seq<nat>)
    requires rows != []
    ensures rows[0] in rows
  {
  }

  /** `dataframe_query`: the clauses applied one after the other, each to the
      previous result; the first KeyError ends the query. */
  function QueryTable(t: Table, q: seq<Clause>, fieldOperator: string, search: Searcher): (r: Result<Table, PyError>)
    requires WellFormed(t)
    ensures r.Success? ==> WellFormed(r.value)
    decreases |q|
  {
    if q == [] then Success(t)
    else match GenDataframeQuery(t, q[0], fieldOperator, search)
      case Failure(e) => Failure(e)
      case Success(next) => QueryTable(next, q[1..], fieldOperator, search)
  }

  /** Selecting from a selection is one selection of the original table. */
  function Compose(s1: Selection, s2: Selection): (r: Selection)
    requires Below(s2.rows, |s1.rows|) && Below(s2.cols, |s1.cols|)
    ensures |r.rows| == |s2.rows| && |r.cols| == |s2.cols|
  {
    Selection(seq(|s2.rows|, i requires 0 <= i < |s2.rows| => s1.rows[s2.rows[i]]),
              seq(|s2.cols|, j requires 0 <= j < |s2.cols| => s1.cols[s2.cols[j]]))
  }

  lemma ProjectCompose(t: Table, s1: Selection, s2: Selection)
    requires WellFormed(t) && ValidSelection(t, s1) && ValidSelection(Project(t, s1), s2)
    ensures ValidSelection(t, Compose(s1, s2))
    ensures Project(Project(t, s1), s2) == Project(t, Compose(s1, s2))
  {
    var c := Compose(s1, s2);
    var lhs := Project(Project(t, s1), s2);
    var rhs := Project(t, c);
    assert lhs.columns == rhs.columns;
    forall i | 0 <= i < |lhs.rows| ensures lhs.rows[i] == rhs.rows[i] {
    }
  }

  /** A query keeps an order-preserving subset of the rows and of the
      columns and never changes a cell. */
  lemma {:induction false} QueryTableSelects(t: Table, q: seq<Clause>, fieldOperator: string, search: Searcher)
    requires WellFormed(t)
    requires QueryTable(t, q, fieldOperator, search).Success?
    ensures exists s :: ValidSelection(t, s) && QueryTable(t, q, fieldOperator, search).value == Project(t, s)
    decreases |q|
  {
    if q == [] {
      ProjectIdentity(t);
      assert ValidSelection(t, Selection(AllIndices(|t.rows|), AllIndices(|t.columns|)));
    } else {
      var s1 := ClauseSelection(t, q[0], fieldOperator, search).value;
      var next := Project(t, s1);
      QueryTableSelects(next, q[1..], fieldOperator, search);
      var s2 :| ValidSelection(next, s2) && QueryTable(next, q[1..], fieldOperator, search).value == Project(next, s2);
      ProjectCompose(t, s1, s2);
    }
  }

  /** Every row of a query's result passes every clause of the query on
      the columns the result still has: a clause keeps only rows whose tested
      cells pass, and later clauses only drop rows and columns. */
  lemma {:induction false} QueryTablePassesEach(t: Table, q: seq<Clause>, fieldOperator: string, search: Searcher)
    requires WellFormed(t)
    requires QueryTable(t, q, fieldOperator, search).Success?
    ensures var r := QueryTable(t, q, fieldOperator, search).value;
      forall k, m :: 0 <= k < |q| && 0 <= m < |r.rows| ==> TestedCellsPass(r, q[k], fieldOperator, search, m)
    decreases |q|
  {
    if q != [] {
      var r := QueryTable(t, q, fieldOperator, search).value;
      var s1 := ClauseSelection(t, q[0], fieldOperator, search).value;
      var next := Project(t, s1);
      assert r == QueryTable(next, q[1..], fieldOperator, search).value;
      QueryTablePassesEach(next, q[1..], fieldOperator, search);
      QueryTableSelects(next, q[1..], fieldOperator, search);
      var s2 :| ValidSelection(next, s2) && r == Project(next, s2);
      forall k, m | 0 <= k < |q| && 0 <= m < |r.rows| ensures TestedCellsPass(r, q[k], fieldOperator, search, m) {
        if k == 0 {
          RowsSurviveAgain(t, q[0], fieldOperator, search, s2.rows[m]);
          ProjectKeepsPassing(next, s2, q[0], fieldOperator, search, m);
        } else {
          assert q[1..][k - 1] == q[k];
        }
      }
    }
  }

  /** With `['all']` fields a row of the projection survives exactly when
      its source row does: every column stays and is tested. */
  lemma AllSurvivesProjected(t: Table, rows: seq<nat>, c: Clause, fieldOperator: string, search: Searcher, m: nat)
    requires WellFormed(t) && IsAll(c.fields)
    requires ValidSelection(t, Selection(rows, AllIndices(|t.columns|))) && m < |rows|
    ensures Survives(Project(t, Selection(rows, AllIndices(|t.columns|))), c, fieldOperator, search, m)
        <==> Survives(t, c, fieldOperator, search, rows[m])
  {
    var r := Project(t, Selection(rows, AllIndices(|t.columns|)));
    assert forall j :: 0 <= j < |t.columns| ==> r.rows[m][j] == t.rows[rows[m]][j];
    if |t.columns| > 0 {
      assert Tested(r, c, fieldOperator, search, 0) && Tested(t, c, fieldOperator, search, 0);
    }
  }

  /** Row `i` survives every clause of the query, each tested on the table given. */
  predicate SurvivesAll(t: Table, q: seq<Clause>, fieldOperator: string, search: Searcher, i: nat)
    requires WellFormed(t) && i < |t.rows|
  {
    forall k :: 0 <= k < |q| ==> Survives(t, q[k], fieldOperator, search, i)
  }

  /** `rows` are the positions of exactly the rows that survive every clause. */
  predicate RowsSurvivingAll(t: Table, q: seq<Clause>, fieldOperator: string, search: Searcher, rows: seq<nat>)
    requires WellFormed(t)
  {
    forall i :: 0 <= i < |t.rows| ==> (i in rows <==> SurvivesAll(t, q, fieldOperator, search, i))
  }

  /** One step of the induction below: row `i` of `t` is among the composed
      rows exactly when it survives the first clause and, in the first
      result, the remaining ones. */
  lemma IntersectStep(t: Table, q: seq<Clause>, fieldOperator: string, search: Searcher, s1: Selection, rows2: seq<nat>, i: nat)
    requires WellFormed(t) && |q| > 0 && i < |t.rows|
    requires forall k :: 0 <= k < |q| ==> IsAll(q[k].fields)
    requires ValidSelection(t, s1) && s1.cols == AllIndices(|t.columns|)
    requires forall i' :: 0 <= i' < |t.rows| ==> (i' in s1.rows <==> Survives(t, q[0], fieldOperator, search, i'))
    requires Below(rows2, |s1.rows|)
    requires RowsSurvivingAll(Project(t, s1), q[1..], fieldOperator, search, rows2)
    ensures i in Compose(s1, Selection(rows2, AllIndices(|s1.cols|))).rows <==> SurvivesAll(t, q, fieldOperator, search, i)
  {
    var c := Compose(s1, Selection(rows2, AllIndices(|s1.cols|)));
    var next := Project(t, s1);
    if i in c.rows {
      var a :| 0 <= a < |rows2| && c.rows[a] == i;
      var m := rows2[a];
      assert m in rows2;
      assert s1.rows[m] in s1.rows;
      forall k | 0 <= k < |q| ensures Survives(t, q[k], fieldOperator, search, i) {
        if k > 0 {
          assert q[1..][k - 1] == q[k];
          AllSurvivesProjected(t, s1.rows, q[k], fieldOperator, search, m);
        }
      }
    }
    if SurvivesAll(t, q, fieldOperator, search, i) {
      assert i in s1.rows;
      var m :| 0 <= m < |s1.rows| && s1.rows[m] == i;
      forall k | 0 <= k < |q[1..]| ensures Survives(next, q[1..][k], fieldOperator, search, m) {
        assert q[1..][k] == q[k + 1];
        AllSurvivesProjected(t, s1.rows, q[k + 1], fieldOperator, search, m);
      }
      assert m in rows2;
      var a :| 0 <= a < |rows2| && rows2[a] == m;
      assert c.rows[a] == i;
    }
  }

  /** A query made of `['all']` clauses only keeps every column and exactly
      the rows that survive every clause on the original table: the
      clauses are ANDed. */
  lemma {:induction false} AllClausesIntersect(t: Table, q: seq<Clause>, fieldOperator: string, search: Searcher)
    requires WellFormed(t)
    requires forall k :: 0 <= k < |q| ==> IsAll(q[k].fields)
    requires QueryTable(t, q, fieldOperator, search).Success?
    ensures exists rows :: (ValidSelection(t, Selection(rows, AllIndices(|t.columns|))) &&
                            QueryTable(t, q, fieldOperator, search).value == Project(t, Selection(rows, AllIndices(|t.columns|))) &&
                            RowsSurvivingAll(t, q, fieldOperator, search, rows))
    decreases |q|
  {
    if q == [] {
      ProjectIdentity(t);
      var rows := AllIndices(|t.rows|);
      forall i | 0 <= i < |t.rows| ensures i in rows { assert rows[i] == i; }
    } else {
      var s1 := ClauseSelection(t, q[0], fieldOperator, search).value;
      ClauseSelectionExact(t, q[0], fieldOperator, search);
      var next := Project(t, s1);
      assert forall k :: 0 <= k < |q[1..]| ==> IsAll(q[1..][k].fields) by {
        forall k | 0 <= k < |q[1..]| ensures IsAll(q[1..][k].fields) { assert q[1..][k] == q[k + 1]; }
      }
      AllClausesIntersect(next, q[1..], fieldOperator, search);
      var rows2 :| ValidSelection(next, Selection(rows2, AllIndices(|next.columns|))) &&
        QueryTable(next, q[1..], fieldOperator, search).value == Project(next, Selection(rows2, AllIndices(|next.columns|))) &&
        RowsSurvivingAll(next, q[1..], fieldOperator, search, rows2);
      var s2 := Selection(rows2, AllIndices(|next.columns|));
      ProjectCompose(t, s1, s2);
      var c := Compose(s1, s2);
      assert c.cols == AllIndices(|t.columns|);
      forall i | 0 <= i < |t.rows| ensures i in c.rows <==> SurvivesAll(t, q, fieldOperator, search, i) {
        IntersectStep(t, q, fieldOperator, search, s1, rows2, i);
      }
      assert RowsSurvivingAll(t, q, fieldOperator, search, c.rows);
    }
  }
}
