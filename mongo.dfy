/** The document-store backend of SpQLInterpreter.py: `_gen_mongo_query`
    compiles one clause into a MongoDB `$match` stage. */
module MongoBackend {
  import opened Wrappers
  import opened Values
  import opened Assoc
  import opened Operators
  import opened Query

  /** A MongoDB query document: a scalar, a dictionary, or a list. */
  datatype Doc = Atom(v: Value) | Obj(entries: seq<(string, Doc)>) | Arr(items: seq<Doc>)

  /** Python's `sub in s` on strings: `sub` occurs in `s` at some position. */
  predicate Contains(s: string, sub: string)
    decreases |s|
  {
    |sub| <= |s| && (s[..|sub|] == sub || Contains(s[1..], sub))
  }

  /** The `ops` dictionary of `_gen_mongo_query`: SpQL operator text to the
      MongoDB query operator; `<=` and `>=` have no entry. */
  function DialectOp(operator: string): Option<string>
  {
    if operator == "==" then Some("$in")
    else if operator == "!=" then Some("$ne")
    else if operator == ">" then Some("$gt")
    else if operator == "<" then Some("$lt")
    else if operator in {"re", "nre", "re.IGNORECASE", "nre.IGNORECASE"} then Some("$regex")
    else None
  }

  /** One leaf subquery `{field: {op: value}}`, with `'$options': 'i'` added
      to the inner dictionary for a case-insensitive operator. */
  function LeafQuery(field: string, op: string, value: Value, ignoreCase: bool): Doc
  {
    var inner := [(op, Atom(value))] + (if ignoreCase then [("$options", Atom(Str("i")))] else []);
    Obj([(field, Obj(inner))])
  }

  /** The leaves the inner loop appends for one field. */
  function FieldLeaves(field: string, op: string, values: seq<Value>, ignoreCase: bool): (r: seq<Doc>)
    ensures |r| == |values|
  {
    seq(|values|, j requires 0 <= j < |values| => LeafQuery(field, op, values[j], ignoreCase))
  }

  /** The leaves both loops append, fields outermost. */
  function Leaves(fields: seq<string>, op: string, values: seq<Value>, ignoreCase: bool): seq<Doc>
  {
    if fields == [] then []
    else Leaves(fields[..|fields| - 1], op, values, ignoreCase) + FieldLeaves(fields[|fields| - 1], op, values, ignoreCase)
  }

  /** `'$not'` for a negated regular expression, `'$or'` otherwise. */
  function Combinator(operator: string): string
  {
    if Contains(operator, "nre") then "$not" else "$or"
  }

  /** What `_gen_mongo_query(fields, operator, values)` returns or raises. */
  function MatchStage(fields: seq<string>, operator: string, values: seq<Value>): Result<Doc, PyError>
  {
    match DialectOp(operator)
    case None => Failure(KeyError(operator))
    case Some(op) =>
      var leaves := Leaves(fields, op, values, Contains(operator, "IGNORECASE"));
      Success(Obj([("$match", Obj([(Combinator(operator), Arr(leaves))]))]))
  }

  /** The inner loop body: `{field: {op: value}}`, with the
      case-insensitive option added for an `IGNORECASE` operator. */
  method Subquery(field: string, op: string, value: Value, ignoreCase: bool) returns (d: Doc)
    requires op != "$options"
    ensures d == LeafQuery(field, op, value, ignoreCase)
  {
    var inner := Assign([], op, Atom(value));
    assert inner == [(op, Atom(value))];
    if ignoreCase {
      AssignKeys(inner, "$options", Atom(Str("i")));
      inner := Assign(inner, "$options", Atom(Str("i")));
    }
    assert inner == [(op, Atom(value))] + (if ignoreCase then [("$options", Atom(Str("i")))] else []);
    var subquery := Assign([], field, Obj(inner));
    assert subquery == [(field, Obj(inner))];
    d := Obj(subquery);
  }

  lemma FieldLeavesStep(field: string, op: string, values: seq<Value>, j: nat, ignoreCase: bool)
    requires j < |values|
    ensures FieldLeaves(field, op, values[..j + 1], ignoreCase)
            == FieldLeaves(field, op, values[..j], ignoreCase) + [LeafQuery(field, op, values[j], ignoreCase)]
  {
  }

  /** `_gen_mongo_query`: the nested loops over fields and values. */
  method GenMongoQuery(fields: seq<string>, operator: string, values: seq<Value>) returns (r: Result<Doc, PyError>)
    ensures r == MatchStage(fields, operator, values)
  {
    var ops := DialectOp(operator);
    if ops.None? {
      return Failure(KeyError(operator));
    }
    var op := ops.value;
    assert op != "$options";
    var ignoreCase := Contains(operator, "IGNORECASE");
    var subqueries: seq<Doc> := [];
    var i := 0;
    while i < |fields|
      invariant 0 <= i <= |fields|
      invariant subqueries == Leaves(fields[..i], op, values, ignoreCase)
    {
      var j := 0;
      while j < |values|
        invariant 0 <= j <= |values|
        invariant subqueries == Leaves(fields[..i], op, values, ignoreCase)
                                + FieldLeaves(fields[i], op, values[..j], ignoreCase)
      {
        var subquery := Subquery(fields[i], op, values[j], ignoreCase);
        FieldLeavesStep(fields[i], op, values, j, ignoreCase);
        subqueries := subqueries + [subquery];
        j := j + 1;
      }
      assert values[..j] == values;
      assert fields[..i + 1][..i] == fields[..i];
      assert Leaves(fields[..i + 1], op, values, ignoreCase)
          == Leaves(fields[..i], op, values, ignoreCase) + FieldLeaves(fields[i], op, values, ignoreCase);
      i := i + 1;
    }
    assert fields[..i] == fields;
    var modOp := "$or";
    if Contains(operator, "nre") {
      modOp := "$not";
    }
    r := Success(Obj([("$match", Obj([(modOp, Arr(subqueries))]))]));
  }

  lemma {:induction false} LeavesLength(fields: seq<string>, op: string, values: seq<Value>, ignoreCase: bool)
    ensures |Leaves(fields, op, values, ignoreCase)| == |fields| * |values|
    decreases |fields|
  {
    if fields != [] {
      LeavesLength(fields[..|fields| - 1], op, values, ignoreCase);
      assert (|fields| - 1) * |values| + |values| == |fields| * |values|;
    }
  }

  /** The leaves are laid out field-major: `|fields| * |values|` of them, and
      the leaf at position `i * |values| + j` pairs field `i` with value `j`. */
  lemma {:induction false} LeafAt(fields: seq<string>, op: string, values: seq<Value>, ignoreCase: bool, i: nat, j: nat)
    requires i < |fields| && j < |values|
    ensures |Leaves(fields, op, values, ignoreCase)| == |fields| * |values|
    ensures Leaves(fields, op, values, ignoreCase)[i * |values| + j] == LeafQuery(fields[i], op, values[j], ignoreCase)
    decreases |fields|
  {
    var n := |fields| - 1;
    var front := fields[..n];
    LeavesLength(fields, op, values, ignoreCase);
    LeavesLength(front, op, values, ignoreCase);
    var prefix := Leaves(front, op, values, ignoreCase);
    assert Leaves(fields, op, values, ignoreCase) == prefix + FieldLeaves(fields[n], op, values, ignoreCase);
    if i < n {
      IndexBelow(i, j, n, |values|);
      LeafAt(front, op, values, ignoreCase, i, j);
      assert front[i] == fields[i];
    } else {
      assert i * |values| + j == |prefix| + j;
    }
  }

  lemma IndexBelow(i: nat, j: nat, n: nat, m: nat)
    requires i < n && j < m
    ensures i * m + j < n * m
  {
    assert (n - (i + 1)) * m >= 0;
    assert n * m == (i + 1) * m + (n - (i + 1)) * m;
  }

  /** The dialect table covers exactly the table operators other than `<=`
      and `>=`, with the fixed mapping `== -> $in`, `!= -> $ne`, `> -> $gt`,
      `< -> $lt` and every regular-expression operator to `$regex`. */
  lemma DialectCoversOperators(op: Operator, operator: string)
    ensures DialectOp(Name(op)).None? <==> op == Lte || op == Gte
    ensures DialectOp(operator).Some? ==> Lookup(operator).Some?
    ensures op == Eq ==> DialectOp(Name(op)) == Some("$in")
    ensures op == Ne ==> DialectOp(Name(op)) == Some("$ne")
    ensures op == Gt ==> DialectOp(Name(op)) == Some("$gt")
    ensures op == Lt ==> DialectOp(Name(op)) == Some("$lt")
    ensures op in {Re, NotRe, ReIgnoreCase, NotReIgnoreCase} ==> DialectOp(Name(op)) == Some("$regex")
  {
  }

  /** Substring tests on the operator text pick out the operators that share
      the case flag or the negation: `IGNORECASE` occurs exactly in the two
      case-insensitive names, `nre` exactly in the two negated ones. */
  lemma FlagsFollowOperator(op: Operator)
    ensures Contains(Name(op), "IGNORECASE") <==> op == ReIgnoreCase || op == NotReIgnoreCase
    ensures Contains(Name(op), "nre") <==> op == NotRe || op == NotReIgnoreCase
  {
    IgnoreCaseFlag(op);
    NreFlag(op);
  }

  lemma IgnoreCaseFlag(op: Operator)
    ensures Contains(Name(op), "IGNORECASE") <==> op == ReIgnoreCase || op == NotReIgnoreCase
  {
    match op
    case Eq =>
    case Ne =>
    case Lt =>
    case Lte =>
    case Gt =>
    case Gte =>
    case Re =>
    case ReIgnoreCase =>
      assert "re.IGNORECASE"[3..][..10] == "IGNORECASE";
    case NotRe =>
    case NotReIgnoreCase =>
      assert "nre.IGNORECASE"[4..][..10] == "IGNORECASE";
  }

  lemma NreFlag(op: Operator)
    ensures Contains(Name(op), "nre") <==> op == NotRe || op == NotReIgnoreCase
  {
    match op
    case Eq =>
    case Ne =>
    case Lt =>
    case Lte =>
    case Gt =>
    case Gte =>
    case Re =>
    case ReIgnoreCase =>
      NoNre("re.IGNORECASE");
    case NotRe =>
      assert "nre"[..3] == "nre";
    case NotReIgnoreCase =>
      assert "nre.IGNORECASE"[..3] == "nre";
  }

  /** A non-empty pattern can only occur in a string holding its first character. */
  lemma {:induction false} ContainsFirstChar(s: string, sub: string)
    requires |sub| > 0 && Contains(s, sub)
    ensures sub[0] in s
    decreases |s|
  {
    if s[..|sub|] != sub {
      ContainsFirstChar(s[1..], sub);
    } else {
      assert s[0] == sub[0];
    }
  }

  lemma NoNre(s: string)
    requires s == "re.IGNORECASE"
    ensures !Contains(s, "nre")
  {
    if Contains(s, "nre") {
      ContainsFirstChar(s, "nre");
    }
  }

  /** The stage a clause compiles to, in terms of its operator: `<=` and `>=`
      raise KeyError; otherwise a single-key `$match` whose one entry is
      `$not` exactly for the negated regular expressions and `$or` for the
      rest, over the leaves with `$options` exactly for the IGNORECASE variants. */
  lemma MatchStageByOperator(fields: seq<string>, op: Operator, values: seq<Value>)
    ensures (op == Lte || op == Gte) <==> MatchStage(fields, Name(op), values) == Failure(KeyError(Name(op)))
    ensures op != Lte && op != Gte ==>
      MatchStage(fields, Name(op), values) ==
        Success(Obj([("$match", Obj([(if op == NotRe || op == NotReIgnoreCase then "$not" else "$or",
                                      Arr(Leaves(fields, DialectOp(Name(op)).value, values, op == ReIgnoreCase || op == NotReIgnoreCase)))]))]))
  {
    DialectCoversOperators(op, Name(op));
    FlagsFollowOperator(op);
  }

  /** `mongo_query`: one `$match` stage per stored clause, in order; the
      first clause with an operator outside the table raises KeyError. */
  function MongoStages(q: seq<Clause>): (r: Result<seq<Doc>, PyError>)
    ensures r.Success? ==> |r.value| == |q|
  {
    if q == [] then Success([])
    else match MatchStage(q[0].fields, q[0].operator, q[0].values)
      case Failure(e) => Failure(e)
      case Success(stage) =>
        match MongoStages(q[1..])
        case Failure(e) => Failure(e)
        case Success(rest) => Success([stage] + rest)
  }

  /** The pipeline has stage `k` compiled from clause `k`, and fails exactly
      when some clause's operator has no entry, naming the first such one. */
  lemma {:induction false} MongoStagesSpec(q: seq<Clause>)
    ensures MongoStages(q).Success? <==> forall k :: 0 <= k < |q| ==> DialectOp(q[k].operator).Some?
    ensures MongoStages(q).Success? ==>
      forall k :: 0 <= k < |q| ==> Success(MongoStages(q).value[k]) == MatchStage(q[k].fields, q[k].operator, q[k].values)
    ensures MongoStages(q).Failure? ==>
      exists k :: 0 <= k < |q| && DialectOp(q[k].operator).None? && MongoStages(q).error == KeyError(q[k].operator) &&
        forall m :: 0 <= m < k ==> DialectOp(q[m].operator).Some?
  {
    if q != [] {
      MongoStagesSpec(q[1..]);
      assert forall k :: 0 < k < |q| ==> q[k] == q[1..][k - 1];
      if MatchStage(q[0].fields, q[0].operator, q[0].values).Success? && MongoStages(q[1..]).Failure? {
        var k :| 0 <= k < |q[1..]| && DialectOp(q[1..][k].operator).None? && MongoStages(q[1..]).error == KeyError(q[1..][k].operator) &&
          forall m :: 0 <= m < k ==> DialectOp(q[1..][m].operator).Some?;
        assert DialectOp(q[k + 1].operator).None?;
      }
    }
  }

  /** The pipeline raises the error of the first clause that fails. */
  lemma {:induction false} MongoStagesFirstFailure(q: seq<Clause>, k: nat)
    requires k < |q|
    requires forall m :: 0 <= m < k ==> MatchStage(q[m].fields, q[m].operator, q[m].values).Success?
    requires MatchStage(q[k].fields, q[k].operator, q[k].values).Failure?
    ensures MongoStages(q) == Failure(MatchStage(q[k].fields, q[k].operator, q[k].values).error)
  {
    if k > 0 {
      assert forall m :: 0 <= m < k - 1 ==> q[1..][m] == q[m + 1];
      MongoStagesFirstFailure(q[1..], k - 1);
    }
  }

  /** The pipeline is the list of the clauses' stages when none fails. */
  lemma {:induction false} MongoStagesAllSucceed(q: seq<Clause>, stages: seq<Doc>)
    requires |stages| == |q|
    requires forall m :: 0 <= m < |q| ==> Success(stages[m]) == MatchStage(q[m].fields, q[m].operator, q[m].values)
    ensures MongoStages(q) == Success(stages)
  {
    if q != [] {
      assert forall m :: 0 <= m < |q| - 1 ==> q[1..][m] == q[m + 1] && stages[1..][m] == stages[m + 1];
      MongoStagesAllSucceed(q[1..], stages[1..]);
      assert stages == [stages[0]] + stages[1..];
    }
  }
}
