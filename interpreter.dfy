/** SpQLInterpreter.py: the interpreter object holds the clauses of the last
    parsed query and compiles them to either backend. */
module Interpreter {
  import opened Wrappers
  import opened Values
  import opened Operators
  import opened Query
  import opened MongoBackend
  import opened TabularBackend

  class SpQLInterpreter {
    /** `_last_query`: the clause list the parser stores after a search. */
    var lastQuery: seq<Clause>
    /** `_cls`, the class tag set by the constructor. */
    var cls: string

    /** `SpQLInterpreter(name)`; the parser part of the constructor starts
        with no stored query. */
    constructor ()
      ensures lastQuery == [] && cls == "SpQLInterpreter"
    {
      lastQuery := [];
      cls := "SpQLInterpreter";
    }

    /** `mongo_query`: `_gen_mongo_query` on every stored clause, in order. */
    method MongoQuery() returns (r: Result<seq<Doc>, PyError>)
      ensures r == MongoStages(lastQuery)
    {
      var q := lastQuery;
      var stages: seq<Doc> := [];
      var k := 0;
      while k < |q|
        invariant 0 <= k <= |q| && |stages| == k
        invariant forall m :: 0 <= m < k ==> Success(stages[m]) == MatchStage(q[m].fields, q[m].operator, q[m].values)
      {
        var stage := GenMongoQuery(q[k].fields, q[k].operator, q[k].values);
        if stage.Failure? {
          MongoStagesFirstFailure(q, k);
          return Failure(stage.error);
        }
        stages := stages + [stage.value];
        k := k + 1;
      }
      MongoStagesAllSucceed(q, stages);
      r := Success(stages);
    }

    /** `dataframe_query(dataframe, field_operator)`: every stored clause
        filters the previous clause's output. */
    method DataframeQuery(t: Table, fieldOperator: string, search: Searcher) returns (r: Result<Table, PyError>)
      requires WellFormed(t)
      ensures r == QueryTable(t, lastQuery, fieldOperator, search)
    {
      var q := lastQuery;
      var frame := t;
      var k := 0;
      while k < |q|
        invariant 0 <= k <= |q| && WellFormed(frame)
        invariant QueryTable(t, q, fieldOperator, search) == QueryTable(frame, q[k..], fieldOperator, search)
      {
        assert q[k..][1..] == q[k + 1..];
        var next := GenDataframeQuery(frame, q[k], fieldOperator, search);
        if next.Failure? {
          return Failure(next.error);
        }
        frame := next.value;
        k := k + 1;
      }
      r := Success(frame);
    }
  }

  /** The backends combine the fields of one clause differently. For the
      clause `name, state == active` the document-store stage ORs one leaf
      per field, so a record whose state is `active` matches it (compare
      `TableAndsColumns`). */
  lemma MongoOrsFields()
    ensures MatchStage(["name", "state"], "==", [Str("active")]) ==
      Success(Obj([("$match", Obj([("$or", Arr([LeafQuery("name", "$in", Str("active"), false),
                                               LeafQuery("state", "$in", Str("active"), false)]))]))]))
  {
    assert !Contains("==", "nre") && !Contains("==", "IGNORECASE");
    assert DialectOp("==") == Some("$in");
    assert Combinator("==") == "$or";
    assert Leaves(["name", "state"], "$in", [Str("active")], false)
        == Leaves(["name"], "$in", [Str("active")], false) + FieldLeaves("state", "$in", [Str("active")], false);
    assert ["name", "state"][..1] == ["name"] && ["name"][..0] == [];
    assert Leaves(["name"], "$in", [Str("active")], false) == FieldLeaves("name", "$in", [Str("active")], false);
    assert FieldLeaves("name", "$in", [Str("active")], false) == [LeafQuery("name", "$in", Str("active"), false)];
    assert FieldLeaves("state", "$in", [Str("active")], false) == [LeafQuery("state", "$in", Str("active"), false)];
    assert Leaves(["name", "state"], "$in", [Str("active")], false) == [LeafQuery("name", "$in", Str("active"), false),
                                               LeafQuery("state", "$in", Str("active"), false)];
  }

  /** The tabular backend ANDs the tested columns of the same clause, so
      the row `[alice, active]` is dropped because its `name` cell is not
      `active`, and with no row left every column goes too. */
  lemma TableAndsColumns(t: Table, c: Clause, search: Searcher)
    requires t == Table(["name", "state"], [[Str("alice"), Str("active")]])
    requires c == Clause(["name", "state"], "==", [Str("active")])
    ensures GenDataframeQuery(t, c, "==", search) == Success(Table([], []))
  {
    ExampleNoRowPasses(t, c, search);
    NoRowsNoColumns(t, c, "==", search);
  }

  /** In the example, the `name` column is tested and its cell is not
      `active`, so the only row fails. */
  lemma ExampleNoRowPasses(t: Table, c: Clause, search: Searcher)
    requires t == Table(["name", "state"], [[Str("alice"), Str("active")]])
    requires c == Clause(["name", "state"], "==", [Str("active")])
    ensures ResolveColumns(t, c, "==", search).Success?
    ensures ResolveRows(t, ResolveColumns(t, c, "==", search).value, c, search) == Success([])
  {
    ExampleTestsName(t, c, search);
    var cols := ResolveColumns(t, c, "==", search).value;
    var k :| 0 <= k < |cols| && cols[k] == 0;
    assert !AnyPasses(Eq, search, t.rows[0][0], c.values) by {
      assert !Equal(Str("alice"), Str("active"));
    }
    assert !CellsPass(t.rows[0], cols, Eq, c.values, search);
    var rows := ResolveRows(t, cols, c, search).value;
    assert rows == PassingRows(t, cols, Eq, c.values, search);
    assert 0 !in rows;
    NothingBelow(rows, 1);
  }

  /** In the example, the `name` column matches the field pattern `name`. */
  lemma ExampleTestsName(t: Table, c: Clause, search: Searcher)
    requires t == Table(["name", "state"], [[Str("alice"), Str("active")]])
    requires c == Clause(["name", "state"], "==", [Str("active")])
    ensures Lookup("==") == Some(Eq)
    ensures ResolveColumns(t, c, "==", search).Success?
    ensures 0 in ResolveColumns(t, c, "==", search).value
  {
    assert Lookup("==") == Some(Eq);
    ResolveColumnsExact(t, c, "==", search);
    assert Apply(Eq, search, Str(t.columns[0]), FieldValues(c.fields)[0]);
    assert Tested(t, c, "==", search, 0);
  }

  /** When no row survives a clause of field patterns, no column holds a
      value either, so the result is the empty table. */
  lemma NoRowsNoColumns(t: Table, c: Clause, fieldOperator: string, search: Searcher)
    requires WellFormed(t) && !IsAll(c.fields)
    requires ResolveColumns(t, c, fieldOperator, search).Success?
    requires ResolveRows(t, ResolveColumns(t, c, fieldOperator, search).value, c, search) == Success([])
    ensures GenDataframeQuery(t, c, fieldOperator, search) == Success(Table([], []))
  {
    var kept := Project(t, Selection([], AllIndices(|t.columns|)));
    assert kept.rows == [];
    var keptCols := IndicesWhere(AllIndices(|t.columns|), (j: nat) => HasValue(kept, j));
    NothingBelow(keptCols, |t.columns|);
    assert ClauseSelection(t, c, fieldOperator, search) == Success(Selection([], []));
  }

  /** A list of positions below `n` that holds none of them is empty. */
  lemma NothingBelow(s: seq<nat>, n: nat)
    requires Below(s, n) && forall j :: 0 <= j < n ==> j !in s
    ensures s == []
  {
    if s != [] {
      FirstIsMember(s);
      assert false;
    }
  }

  lemma FirstIsMember(s: seq<nat>)
    requires s != []
    ensures s[0] in s
  {
  }
}
