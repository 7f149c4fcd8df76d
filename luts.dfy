/** utils.py `double_lut_transform`: renames the items of a list through two
    lookup tables with the same keys. An item equal to a value of the input
    table is replaced by the output table's value under the same key; any
    other item passes through. Duplicate values in either table are reported
    as warnings. */
module Luts {
  import opened Wrappers
  import opened Assoc

  type Lut = Dict<string>

  /** `lut.values()`, in key order. */
  function Vals(d: Lut): (r: seq<string>)
    ensures |r| == |d| && forall i :: 0 <= i < |d| ==> r[i] == d[i].1
  {
    seq(|d|, i requires 0 <= i < |d| => d[i].1)
  }

  // ---------------------------------------------------------------------
  // The duplicate-value check

  /** `list.remove(x)`: drops the first occurrence of `x`. */
  function RemoveFirst(t: seq<string>, x: string): (r: seq<string>)
    requires x in t
    ensures multiset(r) == multiset(t) - multiset{x}
  {
    assert t == [t[0]] + t[1..];
    if t[0] == x then t[1..] else [t[0]] + RemoveFirst(t[1..], x)
  }

  /** `for item in v: t.remove(item)` */
  function RemoveEach(t: seq<string>, v: seq<string>): (r: seq<string>)
    requires multiset(v) <= multiset(t)
    ensures multiset(r) == multiset(t) - multiset(v)
    decreases |v|
  {
    if v == [] then t
    else
      assert v == [v[0]] + v[1..];
      assert v[0] in multiset(v) && v[0] in multiset(t);
      RemoveEach(RemoveFirst(t, v[0]), v[1..])
  }

  /** What the check leaves as written: every value is removed from a copy
      of the very list it is taken from, so nothing is ever left. */
  lemma AsWrittenLeavesNothing(vals: seq<string>)
    ensures RemoveEach(vals, vals) == []
  {
    assert |RemoveEach(vals, vals)| == |multiset(RemoveEach(vals, vals))|;
  }

  /** A table with a value under two keys still produces no warning. */
  lemma AsWrittenMissesDuplicate()
    ensures var vals := Vals([("a", "x"), ("b", "x")]);
      vals[0] == vals[1] && RemoveEach(vals, vals) == []
  {
    AsWrittenLeavesNothing(Vals([("a", "x"), ("b", "x")]));
  }

  /** The values of `xs`, each once, in order of first appearance. */
  function Distinct(xs: seq<string>): (r: seq<string>)
    ensures forall x :: x in r <==> x in xs
    ensures forall i, j :: 0 <= i < j < |r| ==> r[i] != r[j]
  {
    if xs == [] then []
    else
      var d := Distinct(xs[..|xs| - 1]);
      var last := xs[|xs| - 1];
      assert xs == xs[..|xs| - 1] + [last];
      if last in d then d else d + [last]
  }

  /** In a list without repeats every member occurs once. */
  lemma {:induction false} CountOnce(s: seq<string>, x: string)
    requires forall i, j :: 0 <= i < j < |s| ==> s[i] != s[j]
    ensures multiset(s)[x] == if x in s then 1 else 0
  {
    if s != [] {
      assert s == [s[0]] + s[1..];
      forall i, j | 0 <= i < j < |s[1..]| ensures s[1..][i] != s[1..][j] {
        assert s[1..][i] == s[i + 1] && s[1..][j] == s[j + 1];
      }
      CountOnce(s[1..], x);
      if s[0] == x {
        assert x !in s[1..] by {
          forall j | 0 <= j < |s[1..]| ensures s[1..][j] != x {
            assert s[1..][j] == s[j + 1];
          }
        }
      }
    }
  }

  /** The values the corrected check reports: what is left after removing
      each distinct value once. */
  function Duplicates(xs: seq<string>): (r: seq<string>)
  {
    DistinctWithin(xs);
    RemoveEach(xs, Distinct(xs))
  }

  lemma DistinctWithin(xs: seq<string>)
    ensures multiset(Distinct(xs)) <= multiset(xs)
  {
    forall x | x in multiset(Distinct(xs)) ensures multiset(Distinct(xs))[x] <= multiset(xs)[x] {
      CountOnce(Distinct(xs), x);
    }
  }

  /** The corrected check reports nothing for a list without repeats. */
  lemma NoRepeatNoDuplicates(xs: seq<string>)
    requires forall i, j :: 0 <= i < j < |xs| ==> xs[i] != xs[j]
    ensures Duplicates(xs) == []
  {
    var d := Distinct(xs);
    DistinctWithin(xs);
    forall x ensures multiset(xs)[x] == multiset(d)[x] {
      CountOnce(xs, x);
      CountOnce(d, x);
    }
    assert multiset(xs) == multiset(d);
    var r := Duplicates(xs);
    assert |r| == |multiset(r)|;
  }

  /** The corrected check reports a value that occurs twice. */
  lemma RepeatIsDuplicate(xs: seq<string>, i: nat, j: nat)
    requires i < j < |xs| && xs[i] == xs[j]
    ensures xs[i] in Duplicates(xs)
  {
    var d := Distinct(xs);
    DistinctWithin(xs);
    var x := xs[i];
    assert xs == xs[..j] + xs[j..];
    assert x in xs[..j] && xs[j..][0] == x;
    assert multiset(xs)[x] == multiset(xs[..j])[x] + multiset(xs[j..])[x];
    CountOnce(d, x);
    assert x in multiset(Duplicates(xs));
  }

  /** The corrected check reports something exactly when some value occurs
      twice. */
  lemma DuplicatesIffRepeat(xs: seq<string>)
    ensures Duplicates(xs) == [] <==> forall i, j :: 0 <= i < j < |xs| ==> xs[i] != xs[j]
  {
    if forall i, j :: 0 <= i < j < |xs| ==> xs[i] != xs[j] {
      NoRepeatNoDuplicates(xs);
    } else {
      var i, j :| 0 <= i < j < |xs| && xs[i] == xs[j];
      RepeatIsDuplicate(xs, i, j);
    }
  }

  /** The warning messages, one per table that holds a value twice. */
  function LutWarnings(inputLut: Lut, outputLut: Lut): seq<string>
  {
    var inDups, outDups := Duplicates(Vals(inputLut)), Duplicates(Vals(outputLut));
    (if inDups != [] then ["input lut has duplicate values: " + JoinComma(inDups)] else []) +
    (if outDups != [] then ["output lut has duplicate values: " + JoinComma(outDups)] else [])
  }

  /** `', '.join(xs)` */
  function JoinComma(xs: seq<string>): string
  {
    if xs == [] then "" else if |xs| == 1 then xs[0] else xs[0] + ", " + JoinComma(xs[1..])
  }

  /** Warnings come exactly from tables with a repeated value. */
  lemma LutWarningsSpec(inputLut: Lut, outputLut: Lut)
    ensures (LutWarnings(inputLut, outputLut) == []) <==>
              (forall i, j :: 0 <= i < j < |inputLut| ==> inputLut[i].1 != inputLut[j].1) &&
              (forall i, j :: 0 <= i < j < |outputLut| ==> outputLut[i].1 != outputLut[j].1)
  {
    DuplicatesIffRepeat(Vals(inputLut));
    DuplicatesIffRepeat(Vals(outputLut));
  }

  // ---------------------------------------------------------------------
  // The renaming

  /** `zip(lut.values(), lut.keys())` */
  function Swapped(d: Lut): (r: Dict<string>)
    ensures |r| == |d| && forall i :: 0 <= i < |d| ==> r[i] == (d[i].1, d[i].0)
  {
    seq(|d|, i requires 0 <= i < |d| => (d[i].1, d[i].0))
  }

  /** `reverse_lut`: from each value to a key holding it, the last one
      when several do. */
  function Reverse(d: Lut): Dict<string>
  {
    AssignAll([], Swapped(d))
  }

  /** Position `i` holds value `x` and no later position does. */
  predicate LastHolding(d: Lut, x: string, i: int)
  {
    0 <= i < |d| && d[i].1 == x && forall j :: i < j < |d| ==> d[j].1 != x
  }

  /** The reversed table finds, for a value, the key of the last entry
      holding it, and finds nothing exactly when no entry holds it. */
  lemma ReverseFindsKey(d: Lut, x: string)
    ensures Get(Reverse(d), x).Some? ==> HasKey(d, Get(Reverse(d), x).value)
    ensures Get(Reverse(d), x).Some? ==> exists i :: LastHolding(d, x, i) && Get(Reverse(d), x).value == d[i].0
    ensures Get(Reverse(d), x).None? <==> forall i :: 0 <= i < |d| ==> d[i].1 != x
  {
    var sw := Swapped(d);
    GetAssignAll([], sw, x);
    if HasKey(sw, x) {
      var i :| LastAssigned(sw, x, i) && Get(Reverse(d), x) == Some(sw[i].1);
      assert Keys(d)[i] == d[i].0;
      assert LastHolding(d, x, i);
    } else {
      forall i | 0 <= i < |d| ensures d[i].1 != x {
        assert Keys(sw)[i] == sw[i].0 == d[i].1;
      }
    }
  }

  /** The loop body: `output_lut[reverse_lut[item]]` when the item is a value
      of the input table, the item itself otherwise. */
  function Translate(inputLut: Lut, outputLut: Lut, x: string): string
    requires Keys(inputLut) == Keys(outputLut)
  {
    ReverseFindsKey(inputLut, x);
    match Get(Reverse(inputLut), x)
    case None => x
    case Some(k) => Get(outputLut, k).value
  }

  /** An item no input value equals passes through unchanged. */
  lemma TranslateMiss(inputLut: Lut, outputLut: Lut, x: string)
    requires Keys(inputLut) == Keys(outputLut)
    requires forall i :: 0 <= i < |inputLut| ==> inputLut[i].1 != x
    ensures Translate(inputLut, outputLut, x) == x
  {
    var sw := Swapped(inputLut);
    GetAssignAll([], sw, x);
    assert !HasKey(sw, x) by {
      forall j | 0 <= j < |sw| ensures Keys(sw)[j] != x {
        assert sw[j].0 == inputLut[j].1;
      }
    }
  }

  /** An item equal to `input_lut[k]`, for the last key `k` holding that
      value, becomes `output_lut[k]`. */
  lemma TranslateHit(inputLut: Lut, outputLut: Lut, i: nat)
    requires Keys(inputLut) == Keys(outputLut) && UniqueKeys(inputLut) && i < |inputLut|
    requires forall j :: i < j < |inputLut| ==> inputLut[j].1 != inputLut[i].1
    ensures Translate(inputLut, outputLut, inputLut[i].1) == outputLut[i].1
  {
    var sw, x := Swapped(inputLut), inputLut[i].1;
    assert Keys(sw)[i] == x;
    GetAssignAll([], sw, x);
    var i' :| LastAssigned(sw, x, i') && Get(Reverse(inputLut), x) == Some(sw[i'].1);
    assert i' == i;
    UniqueKeysByKeys(inputLut, outputLut);
    GetUnique(outputLut, i);
    assert outputLut[i].0 == Keys(outputLut)[i] == Keys(inputLut)[i] == inputLut[i].0;
  }

  /** With no value repeated, `input_lut[k]` always becomes `output_lut[k]`. */
  lemma TranslateDistinct(inputLut: Lut, outputLut: Lut, i: nat)
    requires Keys(inputLut) == Keys(outputLut) && UniqueKeys(inputLut) && i < |inputLut|
    requires LutWarnings(inputLut, outputLut) == []
    ensures Translate(inputLut, outputLut, inputLut[i].1) == outputLut[i].1
  {
    LutWarningsSpec(inputLut, outputLut);
    TranslateHit(inputLut, outputLut, i);
  }

  const Mismatch: string := "input lut keys do not match output lut keys"

  /** The renaming loop of `double_lut_transform`. */
  method TranslateAll(items: seq<string>, inputLut: Lut, outputLut: Lut) returns (output: seq<string>)
    requires Keys(inputLut) == Keys(outputLut)
    ensures |output| == |items|
    ensures forall i :: 0 <= i < |items| ==> output[i] == Translate(inputLut, outputLut, items[i])
  {
    var reverseLut := Reverse(inputLut);
    output := [];
    var i := 0;
    while i < |items|
      invariant 0 <= i <= |items|
      invariant |output| == i
      invariant forall j :: 0 <= j < i ==> output[j] == Translate(inputLut, outputLut, items[j])
    {
      var item := items[i];
      var newItem := item;
      var found := Get(reverseLut, item);
      TranslateLookup(inputLut, outputLut, item);
      if found.Some? {
        newItem := Get(outputLut, found.value).value;
      }
      output := output + [newItem];
      i := i + 1;
    }
  }

  /** The two lookups of the loop body: the reversed input table, then the
      output table, which holds every key the first lookup can yield. */
  lemma TranslateLookup(inputLut: Lut, outputLut: Lut, x: string)
    requires Keys(inputLut) == Keys(outputLut)
    ensures var found := Get(Reverse(inputLut), x);
      && (found.Some? ==> Get(outputLut, found.value).Some?)
      && Translate(inputLut, outputLut, x) == if found.Some? then Get(outputLut, found.value).value else x
  {
    ReverseFindsKey(inputLut, x);
  }

  /** `double_lut_transform(items, input_lut, output_lut)`, with the
      warnings it issues returned instead of emitted. */
  method DoubleLutTransform(items: seq<string>, inputLut: Lut, outputLut: Lut)
    returns (r: Result<seq<string>, PyError>, warnings: seq<string>)
    ensures Keys(inputLut) != Keys(outputLut) ==> r == Failure(KeyError(Mismatch)) && warnings == []
    ensures Keys(inputLut) == Keys(outputLut) ==>
              r.Success? && |r.value| == |items| &&
              (forall i :: 0 <= i < |items| ==> r.value[i] == Translate(inputLut, outputLut, items[i])) &&
              warnings == LutWarnings(inputLut, outputLut)
  {
    if Keys(inputLut) != Keys(outputLut) {
      return Failure(KeyError(Mismatch)), [];
    }
    warnings := LutWarnings(inputLut, outputLut);
    var output := TranslateAll(items, inputLut, outputLut);
    r := Success(output);
  }
}
