/** utils.py record helpers: `stack_dict` files a record under the string
    form of one of its values, `list_dict_to_dict` does so for a list of
    records, and `merge_list_dicts` joins two such lists on their key
    columns. A record is a dictionary from column names to cell values. */
module Records {
  import opened Wrappers
  import opened Values
  import opened Assoc

  type Record = Dict<Value>

  /** The record as `stack_dict` leaves it: without `key` when asked to
      remove it, untouched otherwise. The stacked dictionary holds this very
      record, so it is also what the caller's record now is. */
  function AfterStack(item: Record, key: string, removeKey: bool): (r: Record)
    ensures removeKey ==> !HasKey(r, key)
    ensures forall k :: k != key ==> Get(r, k) == Get(item, k)
    ensures !removeKey ==> r == item
  {
    if removeKey then Remove(item, key) else item
  }

  /** `stack_dict(item, key, remove_key)`: `{str(item[key]): item}`. */
  function StackDict(item: Record, key: string, removeKey: bool): (r: Result<Dict<Record>, PyError>)
    ensures r.Failure? <==> !HasKey(item, key)
    ensures r.Failure? ==> r.error == KeyError(key)
    ensures r.Success? ==> |r.value| == 1 && r.value[0].0 == Show(Get(item, key).value)
    ensures r.Success? ==> r.value[0].1 == AfterStack(item, key, removeKey)
  {
    match Get(item, key)
    case None => Failure(KeyError(key))
    case Some(v) => Success([(Show(v), AfterStack(item, key, removeKey))])
  }

  /** The position of the first record without `key`, or the number of
      records when every record has it. */
  function FirstMissing(items: seq<Record>, key: string): (n: nat)
    ensures n <= |items|
    ensures forall i :: 0 <= i < n ==> HasKey(items[i], key)
    ensures n < |items| ==> !HasKey(items[n], key)
  {
    if items == [] then 0
    else if !HasKey(items[0], key) then 0
    else 1 + FirstMissing(items[1..], key)
  }

  /** The entries `list_dict_to_dict` assigns, one per record, in order. */
  function Stacked(items: seq<Record>, key: string, removeKey: bool): (r: Dict<Record>)
    requires forall i :: 0 <= i < |items| ==> HasKey(items[i], key)
    ensures |r| == |items|
    ensures forall i :: 0 <= i < |items| ==>
              r[i] == (Show(Get(items[i], key).value), AfterStack(items[i], key, removeKey))
  {
    seq(|items|, i requires 0 <= i < |items| =>
      (Show(Get(items[i], key).value), AfterStack(items[i], key, removeKey)))
  }

  /** The records with the first `n` of them passed through `stack_dict`. */
  function StackedUpTo(items: seq<Record>, key: string, removeKey: bool, n: nat): (r: seq<Record>)
    requires n <= |items|
  {
    seq(|items|, i requires 0 <= i < |items| => if i < n then AfterStack(items[i], key, removeKey) else items[i])
  }

  /** The records as `list_dict_to_dict` leaves them: those it reached before
      a KeyError (all of them without one) went through `stack_dict`. */
  function ItemsAfter(items: seq<Record>, key: string, removeKey: bool): (r: seq<Record>)
    ensures |r| == |items|
    ensures forall i :: 0 <= i < |items| ==>
              r[i] == if i < FirstMissing(items, key) then AfterStack(items[i], key, removeKey) else items[i]
  {
    StackedUpTo(items, key, removeKey, FirstMissing(items, key))
  }

  lemma StackedUpToStep(items: seq<Record>, key: string, removeKey: bool, n: nat)
    requires n < |items|
    ensures StackedUpTo(items, key, removeKey, n)[n := AfterStack(items[n], key, removeKey)]
            == StackedUpTo(items, key, removeKey, n + 1)
  {
  }

  /** `list_dict_to_dict(items, key, remove_key)`, with the state the
      records are left in. */
  method ListDictToDict(items: seq<Record>, key: string, removeKey: bool)
    returns (r: Result<Dict<Record>, PyError>, after: seq<Record>)
    ensures FirstMissing(items, key) < |items| ==> r == Failure(KeyError(key))
    ensures FirstMissing(items, key) == |items| ==> r == Success(AssignAll([], Stacked(items, key, removeKey)))
    ensures after == ItemsAfter(items, key, removeKey)
  {
    var output: Dict<Record> := [];
    ghost var n := FirstMissing(items, key);
    ghost var stacked := Stacked(items[..n], key, removeKey);
    after := items;
    assert after == StackedUpTo(items, key, removeKey, 0);
    var i := 0;
    while i < |items|
      invariant 0 <= i <= n
      invariant output == AssignAll([], stacked[..i])
      invariant after == StackedUpTo(items, key, removeKey, i)
    {
      var value := StackDict(items[i], key, removeKey);
      if value.Failure? {
        assert i == n;
        return Failure(value.error), after;
      }
      var outKey, outValue := value.value[0].0, value.value[0].1;
      assert i < n;
      assert items[..n][i] == items[i];
      AssignAllStep([], stacked, i);
      StackedUpToStep(items, key, removeKey, i);
      output := Assign(output, outKey, outValue);
      after := after[i := outValue];
      i := i + 1;
    }
    assert items[..i] == items && stacked[..i] == stacked;
    return Success(output), after;
  }

  /** The result of `list_dict_to_dict` files every record under the string
      form of its key value; when several records share it, the last one wins. */
  lemma ListDictToDictLookup(items: seq<Record>, key: string, removeKey: bool, k: string)
    requires FirstMissing(items, key) == |items|
    ensures var out := AssignAll([], Stacked(items, key, removeKey));
      (HasKey(out, k) <==> exists i :: 0 <= i < |items| && Show(Get(items[i], key).value) == k) &&
      (HasKey(out, k) ==> exists i :: 0 <= i < |items| && Show(Get(items[i], key).value) == k &&
                            (forall j :: i < j < |items| ==> Show(Get(items[j], key).value) != k) &&
                            Get(out, k) == Some(AfterStack(items[i], key, removeKey)))
    ensures UniqueKeys(AssignAll([], Stacked(items, key, removeKey)))
  {
    var s := Stacked(items, key, removeKey);
    AssignAllKeys([], s);
    GetAssignAll([], s, k);
    if exists i :: 0 <= i < |items| && Show(Get(items[i], key).value) == k {
      var i :| 0 <= i < |items| && Show(Get(items[i], key).value) == k;
      assert Keys(s)[i] == k;
    }
    if HasKey(s, k) {
      var i :| 0 <= i < |s| && Keys(s)[i] == k;
      assert s[i].0 == k;
    }
  }

  // ---------------------------------------------------------------------
  // merge_list_dicts

  /** The columns of `d` renamed to `prefix + '_' + column`. */
  function Prefixed(prefix: string, d: Record): (r: Record)
    ensures |r| == |d|
    ensures forall i :: 0 <= i < |d| ==> r[i] == (prefix + "_" + d[i].0, d[i].1)
  {
    if d == [] then [] else [(prefix + "_" + d[0].0, d[0].1)] + Prefixed(prefix, d[1..])
  }

  /** A renamed column reads as the original one. */
  lemma {:induction false} GetPrefixed(prefix: string, d: Record, k: string)
    ensures Get(Prefixed(prefix, d), prefix + "_" + k) == Get(d, k)
  {
    if d != [] {
      var head := prefix + "_";
      assert (head + d[0].0)[|head|..] == d[0].0 && (head + k)[|head|..] == k;
      GetPrefixed(prefix, d[1..], k);
      assert Prefixed(prefix, d)[1..] == Prefixed(prefix, d[1..]);
    }
  }

  /** Renaming keeps column names distinct. */
  lemma {:induction false} PrefixedUnique(prefix: string, d: Record)
    requires UniqueKeys(d)
    ensures UniqueKeys(Prefixed(prefix, d))
  {
    if d != [] {
      PrefixedUnique(prefix, d[1..]);
      GetPrefixed(prefix, d[1..], d[0].0);
      assert Prefixed(prefix, d)[1..] == Prefixed(prefix, d[1..]);
    }
  }

  /** After assigning a batch without repeated keys, a key of the batch
      reads as its entry in the batch. */
  lemma GetAssignAllUnique<V>(d: Dict<V>, ps: Dict<V>, k: string)
    requires UniqueKeys(ps)
    ensures Get(AssignAll(d, ps), k) == if HasKey(ps, k) then Get(ps, k) else Get(d, k)
  {
    GetAssignAll(d, ps, k);
    if HasKey(ps, k) {
      var i :| LastAssigned(ps, k, i) && Get(AssignAll(d, ps), k) == Some(ps[i].1);
      GetUnique(ps, i);
    }
  }

  /** `for k, v in value.iteritems(): row[prefix + '_' + str(k)] = v` */
  method PrefixInto(row: Record, prefix: string, d: Record) returns (out: Record)
    ensures out == AssignAll(row, Prefixed(prefix, d))
  {
    out := row;
    var i := 0;
    while i < |d|
      invariant 0 <= i <= |d|
      invariant out == AssignAll(row, Prefixed(prefix, d)[..i])
    {
      AssignAllStep(row, Prefixed(prefix, d), i);
      out := Assign(out, prefix + "_" + d[i].0, d[i].1);
      i := i + 1;
    }
    assert Prefixed(prefix, d)[..i] == Prefixed(prefix, d);
  }

  /** One output row: the source record's columns, then the target
      record's, each renamed after its list's key column. */
  function MergeRow(sv: Record, tv: Record, sourceKey: string, targetKey: string): Record
  {
    AssignAll(AssignAll([], Prefixed(sourceKey, sv)), Prefixed(targetKey, tv))
  }

  /** A merged row holds every target column under its renamed name, and
      every source column under its renamed name unless a renamed target
      column has the same name (the target, assigned last, wins); it holds
      nothing else. */
  lemma MergeRowContents(sv: Record, tv: Record, sourceKey: string, targetKey: string, k: string)
    requires UniqueKeys(sv) && UniqueKeys(tv)
    ensures var row := MergeRow(sv, tv, sourceKey, targetKey);
      HasKey(tv, k) ==> Get(row, targetKey + "_" + k) == Get(tv, k)
    ensures var row := MergeRow(sv, tv, sourceKey, targetKey);
      !HasKey(Prefixed(targetKey, tv), sourceKey + "_" + k) ==> Get(row, sourceKey + "_" + k) == Get(sv, k)
    ensures var row := MergeRow(sv, tv, sourceKey, targetKey);
      HasKey(row, k) <==> HasKey(Prefixed(sourceKey, sv), k) || HasKey(Prefixed(targetKey, tv), k)
  {
    var s, t := Prefixed(sourceKey, sv), Prefixed(targetKey, tv);
    PrefixedUnique(sourceKey, sv);
    PrefixedUnique(targetKey, tv);
    GetPrefixed(sourceKey, sv, k);
    GetPrefixed(targetKey, tv, k);
    GetAssignAllUnique([], s, sourceKey + "_" + k);
    GetAssignAllUnique(AssignAll([], s), t, sourceKey + "_" + k);
    GetAssignAllUnique([], s, targetKey + "_" + k);
    GetAssignAllUnique(AssignAll([], s), t, targetKey + "_" + k);
    AssignAllKeys([], s);
    AssignAllKeys(AssignAll([], s), t);
  }

  /** Prepends the rows built so far to what the rest of the loop yields. */
  function Then(done: seq<Record>, rest: Result<seq<Record>, PyError>): Result<seq<Record>, PyError>
  {
    if rest.Failure? then rest else Success(done + rest.value)
  }

  lemma ThenThen(a: seq<Record>, b: seq<Record>, rest: Result<seq<Record>, PyError>)
    ensures Then(a, Then(b, rest)) == Then(a + b, rest)
  {
    if rest.Success? {
      assert a + (b + rest.value) == (a + b) + rest.value;
    }
  }

  /** The row loop of `merge_list_dicts` over the stacked source `s` and
      target `t`: `t[key]` raises KeyError for a source key the target lacks. */
  function MergeRows(s: Dict<Record>, t: Dict<Record>, sourceKey: string, targetKey: string): (r: Result<seq<Record>, PyError>)
    ensures r.Success? ==> |r.value| == |s|
    decreases |s|
  {
    if s == [] then Success([])
    else match Get(t, s[0].0)
      case None => Failure(KeyError(s[0].0))
      case Some(tv) => Then([MergeRow(s[0].1, tv, sourceKey, targetKey)], MergeRows(s[1..], t, sourceKey, targetKey))
  }

  /** The row loop succeeds exactly when the target has every source key;
      then row `i` joins the `i`-th source record with the target record of
      the same key, and otherwise the error names the first key missing. */
  lemma MergeRowsSpec(s: Dict<Record>, t: Dict<Record>, sourceKey: string, targetKey: string)
    ensures var r := MergeRows(s, t, sourceKey, targetKey);
      r.Success? <==> forall i :: 0 <= i < |s| ==> HasKey(t, s[i].0)
    ensures var r := MergeRows(s, t, sourceKey, targetKey);
      r.Success? ==> forall i :: 0 <= i < |s| ==> r.value[i] == MergeRow(s[i].1, Get(t, s[i].0).value, sourceKey, targetKey)
    ensures var r := MergeRows(s, t, sourceKey, targetKey);
      r.Failure? ==> exists i :: 0 <= i < |s| && !HasKey(t, s[i].0) && r.error == KeyError(s[i].0) &&
                                forall j :: 0 <= j < i ==> HasKey(t, s[j].0)
  {
    MergeRowsSucceed(s, t, sourceKey, targetKey);
    MergeRowsFail(s, t, sourceKey, targetKey);
  }

  lemma {:induction false} MergeRowsSucceed(s: Dict<Record>, t: Dict<Record>, sourceKey: string, targetKey: string)
    ensures var r := MergeRows(s, t, sourceKey, targetKey);
      r.Success? <==> forall i :: 0 <= i < |s| ==> HasKey(t, s[i].0)
    ensures var r := MergeRows(s, t, sourceKey, targetKey);
      r.Success? ==> forall i :: 0 <= i < |s| ==> r.value[i] == MergeRow(s[i].1, Get(t, s[i].0).value, sourceKey, targetKey)
    decreases |s|
  {
    if s != [] {
      MergeRowsSucceed(s[1..], t, sourceKey, targetKey);
      var r := MergeRows(s, t, sourceKey, targetKey);
      var rest := MergeRows(s[1..], t, sourceKey, targetKey);
      if !HasKey(t, s[0].0) {
        assert r.Failure?;
      } else if rest.Failure? {
        var k :| 0 <= k < |s[1..]| && !HasKey(t, s[1..][k].0);
        assert s[k + 1] == s[1..][k];
      } else {
        forall i | 0 <= i < |s| ensures HasKey(t, s[i].0) {
          if i > 0 {
            assert s[i] == s[1..][i - 1];
          }
        }
        forall i | 0 <= i < |s| ensures r.value[i] == MergeRow(s[i].1, Get(t, s[i].0).value, sourceKey, targetKey) {
          if i > 0 {
            assert s[i] == s[1..][i - 1];
            assert r.value[i] == rest.value[i - 1];
          }
        }
      }
    }
  }

  lemma {:induction false} MergeRowsFail(s: Dict<Record>, t: Dict<Record>, sourceKey: string, targetKey: string)
    ensures var r := MergeRows(s, t, sourceKey, targetKey);
      r.Failure? ==> exists i :: 0 <= i < |s| && !HasKey(t, s[i].0) && r.error == KeyError(s[i].0) &&
                                forall j :: 0 <= j < i ==> HasKey(t, s[j].0)
    decreases |s|
  {
    if s != [] && HasKey(t, s[0].0) {
      MergeRowsFail(s[1..], t, sourceKey, targetKey);
      var rest := MergeRows(s[1..], t, sourceKey, targetKey);
      if rest.Failure? {
        var i :| 0 <= i < |s[1..]| && !HasKey(t, s[1..][i].0) && rest.error == KeyError(s[1..][i].0) &&
                 forall j :: 0 <= j < i ==> HasKey(t, s[1..][j].0);
        assert s[i + 1] == s[1..][i];
        forall j | 0 <= j < i + 1 ensures HasKey(t, s[j].0) {
          if j > 0 {
            assert s[j] == s[1..][j - 1];
          }
        }
      }
    }
  }

  /** `merge_list_dicts(source, target, source_key, target_key, remove_key)`. */
  function Merge(source: seq<Record>, target: seq<Record>, sourceKey: string, targetKey: string, removeKey: bool): Result<seq<Record>, PyError>
  {
    if FirstMissing(source, sourceKey) < |source| then Failure(KeyError(sourceKey))
    else if FirstMissing(target, targetKey) < |target| then Failure(KeyError(targetKey))
    else MergeRows(AssignAll([], Stacked(source, sourceKey, removeKey)),
                   AssignAll([], Stacked(target, targetKey, removeKey)), sourceKey, targetKey)
  }

  method MergeListDicts(source: seq<Record>, target: seq<Record>, sourceKey: string, targetKey: string, removeKey: bool)
    returns (r: Result<seq<Record>, PyError>)
    ensures r == Merge(source, target, sourceKey, targetKey, removeKey)
  {
    var s, _ := ListDictToDict(source, sourceKey, removeKey);
    if s.Failure? {
      return Failure(s.error);
    }
    var t, _ := ListDictToDict(target, targetKey, removeKey);
    if t.Failure? {
      return Failure(t.error);
    }
    r := JoinRows(s.value, t.value, sourceKey, targetKey);
  }

  /** The row loop of `merge_list_dicts`: for each stacked source record in
      order, the row built from it and the target record under its key. */
  method JoinRows(s: Dict<Record>, t: Dict<Record>, sourceKey: string, targetKey: string)
    returns (r: Result<seq<Record>, PyError>)
    ensures r == MergeRows(s, t, sourceKey, targetKey)
  {
    var output: seq<Record> := [];
    assert s[0..] == s;
    ghost var all := MergeRows(s, t, sourceKey, targetKey);
    assert Then([], all) == all by {
      if all.Success? {
        assert [] + all.value == all.value;
      }
    }
    var i := 0;
    while i < |s|
      invariant 0 <= i <= |s|
      invariant all == Then(output, MergeRows(s[i..], t, sourceKey, targetKey))
    {
      var key, value := s[i].0, s[i].1;
      assert s[i..][0] == (key, value) && s[i..][1..] == s[i + 1..];
      var found := Get(t, key);
      if found.None? {
        return Failure(KeyError(key));
      }
      var row := PrefixInto([], sourceKey, value);
      row := PrefixInto(row, targetKey, found.value);
      ThenThen(output, [row], MergeRows(s[i + 1..], t, sourceKey, targetKey));
      output := output + [row];
      i := i + 1;
    }
    assert s[i..] == [] && output + [] == output;
    return Success(output);
  }
}
