/** The parsed form of an SpQL query, as the interpreter reads it from
    `_last_query`: one record `{fields, operator, values}` per clause. */
module Query {
  import opened Values

  /** One clause. `fields == ["all"]` selects every column; any other list
      holds field patterns. `operator` is kept as the text key the parser
      produced, because both backends look it up by that text. */
  datatype Clause = Clause(fields: seq<string>, operator: string, values: seq<Value>)

  /** Whether a field list is the literal `['all']` (tabular backend). */
  predicate IsAll(fields: seq<string>)
  {
    fields == ["all"]
  }
}
