/** The operator table of utils.py (`_eq` ... `_nreig`, `OPERATORS`), the
    iterable coercion `make_iterable`, and `bool_test`. */
module Operators {
  import opened Wrappers
  import opened Values

  /** The ten entries of `OPERATORS`. */
  datatype Operator =
    | Eq | Ne | Lt | Lte | Gt | Gte
    | Re | ReIgnoreCase | NotRe | NotReIgnoreCase

  /** Python's `re.search(pattern, text, flags)` reduced to "found or not";
      the regular-expression engine itself is not part of this model. */
  type Searcher = (string, string, bool) -> bool

  /** The key under which `OPERATORS` lists each comparison. */
  function Name(op: Operator): string
  {
    match op
    case Eq => "=="
    case Ne => "!="
    case Lt => "<"
    case Lte => "<="
    case Gt => ">"
    case Gte => ">="
    case Re => "re"
    case ReIgnoreCase => "re.IGNORECASE"
    case NotRe => "nre"
    case NotReIgnoreCase => "nre.IGNORECASE"
  }

  /** `OPERATORS[name]`: None where the dictionary raises KeyError. */
  function Lookup(name: string): (r: Option<Operator>)
    ensures r.Some? ==> Name(r.value) == name
    ensures r.None? ==> forall op: Operator :: Name(op) != name
  {
    if name == "==" then Some(Eq)
    else if name == "!=" then Some(Ne)
    else if name == "<" then Some(Lt)
    else if name == "<=" then Some(Lte)
    else if name == ">" then Some(Gt)
    else if name == ">=" then Some(Gte)
    else if name == "re" then Some(Re)
    else if name == "re.IGNORECASE" then Some(ReIgnoreCase)
    else if name == "nre" then Some(NotRe)
    else if name == "nre.IGNORECASE" then Some(NotReIgnoreCase)
    else None
  }

  /** `OPERATORS[op](item, value)`. The regular-expression entries search for
      `str(value)` inside `str(item)`. */
  predicate Apply(op: Operator, search: Searcher, item: Value, value: Value)
  {
    match op
    case Eq => Equal(item, value)
    case Ne => NotEqual(item, value)
    case Lt => Less(item, value)
    case Lte => LessEq(item, value)
    case Gt => Greater(item, value)
    case Gte => GreaterEq(item, value)
    case Re => search(Show(value), Show(item), false)
    case ReIgnoreCase => search(Show(value), Show(item), true)
    case NotRe => !search(Show(value), Show(item), false)
    case NotReIgnoreCase => !search(Show(value), Show(item), true)
  }

  /** The table is a bijection between its ten keys and the ten operators:
      looking up the name of an operator finds that operator, and a lookup
      succeeds exactly on those names. */
  lemma LookupIsInverseOfName(op: Operator, name: string)
    ensures Lookup(Name(op)) == Some(op)
    ensures Lookup(name).Some? <==> exists o: Operator :: Name(o) == name
  {
  }

  /** `_nre` is the negation of `_re` and `_nreig` that of `_reig`, for every
      item and pattern. */
  lemma NegatedRegexIsComplement(search: Searcher, item: Value, value: Value)
    ensures Apply(NotRe, search, item, value) == !Apply(Re, search, item, value)
    ensures Apply(NotReIgnoreCase, search, item, value) == !Apply(ReIgnoreCase, search, item, value)
  {
  }

  /** A `bool_test` argument: a single Python value, or a list of them. */
  datatype Arg = Scalar(v: Value) | Many(vs: seq<Value>)

  /** `is_iterable`: `iter()` succeeds on lists and on strings, and raises
      TypeError on numbers and on NaN. */
  predicate IsIterable(a: Arg)
  {
    a.Many? || a.v.Str?
  }

  /** `make_iterable`, as the sequence of items a `for` loop then visits:
      an iterable comes back unchanged (a string yields its one-character
      strings), anything else is wrapped in a one-element list. */
  function MakeIterable(a: Arg): (r: seq<Value>)
    ensures a.Many? ==> r == a.vs
    ensures !IsIterable(a) ==> r == [a.v]
    ensures a.Scalar? && a.v.Str? ==>
              |r| == |a.v.s| && forall i :: 0 <= i < |r| ==> r[i] == Str([a.v.s[i]])
  {
    match a
    case Many(vs) => vs
    case Scalar(Str(s)) => seq(|s|, i requires 0 <= i < |s| => Str([s[i]]))
    case Scalar(v) => [v]
  }

  /** The loop of `bool_test`: true at the first value that passes. */
  function AnyPasses(op: Operator, search: Searcher, item: Value, vs: seq<Value>): (r: bool)
    ensures r <==> exists i :: 0 <= i < |vs| && Apply(op, search, item, vs[i])
  {
    if vs == [] then false
    else if Apply(op, search, item, vs[0]) then true
    else
      var rest := AnyPasses(op, search, item, vs[1..]);
      assert forall i :: 0 < i < |vs| ==> vs[i] == vs[1..][i - 1];
      rest
  }

  /** `bool_test(item, operator, values)`: KeyError for a name outside the
      table (raised before the values are looked at), otherwise true exactly
      when some value of `make_iterable(values)` passes the operator. */
  function BoolTest(item: Value, operator: string, values: Arg, search: Searcher): (r: Result<bool, PyError>)
    ensures r.Failure? <==> Lookup(operator).None?
    ensures r.Failure? ==> r.error == KeyError(operator)
    ensures r.Success? ==>
              (r.value <==> exists v :: v in MakeIterable(values) && Apply(Lookup(operator).value, search, item, v))
  {
    match Lookup(operator)
    case None => Failure(KeyError(operator))
    case Some(op) => Success(AnyPasses(op, search, item, MakeIterable(values)))
  }

  /** An empty value list never passes, whatever the operator; one that
      holds a passing value always does (OR over the values). */
  lemma BoolTestOrOverValues(item: Value, operator: string, vs: seq<Value>, search: Searcher, i: nat)
    requires Lookup(operator).Some?
    ensures BoolTest(item, operator, Many([]), search) == Success(false)
    ensures i < |vs| && Apply(Lookup(operator).value, search, item, vs[i]) ==>
              BoolTest(item, operator, Many(vs), search) == Success(true)
  {
    if i < |vs| && Apply(Lookup(operator).value, search, item, vs[i]) {
      assert vs[i] in MakeIterable(Many(vs));
    }
  }

  /** A scalar that is not a string is tested as the single value it is. */
  lemma BoolTestScalar(item: Value, operator: string, v: Value, search: Searcher)
    requires !v.Str? && Lookup(operator).Some?
    ensures BoolTest(item, operator, Scalar(v), search) == Success(Apply(Lookup(operator).value, search, item, v))
  {
    assert MakeIterable(Scalar(v)) == [v];
  }
}
