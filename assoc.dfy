/** A Python dictionary as the list of its entries in iteration order.
    Assigning to a key that is present replaces its value where it stands;
    assigning a new key appends it. */
module Assoc {
  import opened Wrappers

  type Dict<V> = seq<(string, V)>

  function Keys<V>(d: Dict<V>): (ks: seq<string>)
    ensures |ks| == |d|
    ensures forall i :: 0 <= i < |d| ==> ks[i] == d[i].0
  {
    if d == [] then [] else [d[0].0] + Keys(d[1..])
  }

  predicate HasKey<V>(d: Dict<V>, k: string)
  {
    k in Keys(d)
  }

  /** Python never holds two equal keys in one dictionary. */
  predicate UniqueKeys<V>(d: Dict<V>)
  {
    d == [] || (d[0].0 !in Keys(d[1..]) && UniqueKeys(d[1..]))
  }

  /** `d[k]`, or None where Python raises KeyError. */
  function Get<V>(d: Dict<V>, k: string): (r: Option<V>)
    ensures r.None? <==> !HasKey(d, k)
  {
    if d == [] then None
    else if d[0].0 == k then Some(d[0].1)
    else Get(d[1..], k)
  }

  /** `d[k] = v` */
  function Assign<V>(d: Dict<V>, k: string, v: V): Dict<V>
  {
    if d == [] then [(k, v)]
    else if d[0].0 == k then [(k, v)] + d[1..]
    else [d[0]] + Assign(d[1..], k, v)
  }

  /** `for (k, v) in ps: d[k] = v` */
  function AssignAll<V>(d: Dict<V>, ps: seq<(string, V)>): Dict<V>
    decreases |ps|
  {
    if ps == [] then d else AssignAll(Assign(d, ps[0].0, ps[0].1), ps[1..])
  }

  /** `del d[k]` when present; the dictionary unchanged otherwise. */
  function Remove<V>(d: Dict<V>, k: string): (r: Dict<V>)
    ensures !HasKey(r, k)
    ensures forall k' :: k' != k ==> Get(r, k') == Get(d, k')
  {
    if d == [] then []
    else if d[0].0 == k then Remove(d[1..], k)
    else [d[0]] + Remove(d[1..], k)
  }

  /** Assignment keeps every key where it was and appends a new one at the end. */
  lemma {:induction false} AssignKeys<V>(d: Dict<V>, k: string, v: V)
    ensures Keys(Assign(d, k, v)) == if HasKey(d, k) then Keys(d) else Keys(d) + [k]
    ensures !HasKey(d, k) ==> Assign(d, k, v) == d + [(k, v)]
  {
    if d != [] && d[0].0 != k {
      AssignKeys(d[1..], k, v);
      assert Keys(Assign(d, k, v)) == [d[0].0] + Keys(Assign(d[1..], k, v));
      assert Keys(d) == [d[0].0] + Keys(d[1..]);
    }
    if d != [] && d[0].0 == k {
      assert Keys(Assign(d, k, v)) == [k] + Keys(d[1..]);
      assert Keys(d) == [d[0].0] + Keys(d[1..]);
    }
  }

  /** Assignment reads back as the assigned value and leaves other keys alone. */
  lemma {:induction false} GetAssign<V>(d: Dict<V>, k: string, v: V, k': string)
    ensures Get(Assign(d, k, v), k') == if k' == k then Some(v) else Get(d, k')
  {
    if d != [] && d[0].0 != k {
      GetAssign(d[1..], k, v, k');
    }
  }

  /** Assignment keeps keys unique. */
  lemma {:induction false} AssignUnique<V>(d: Dict<V>, k: string, v: V)
    requires UniqueKeys(d)
    ensures UniqueKeys(Assign(d, k, v))
  {
    if d != [] && d[0].0 != k {
      AssignUnique(d[1..], k, v);
      AssignKeys(d[1..], k, v);
    }
    if d != [] && d[0].0 == k {
      assert Assign(d, k, v)[1..] == d[1..];
    }
  }

  /** Assigning a batch of fresh, pairwise distinct keys appends the batch. */
  lemma {:induction false} AssignAllFresh<V>(d: Dict<V>, ps: seq<(string, V)>)
    requires UniqueKeys(ps)
    requires forall k :: k in Keys(ps) ==> !HasKey(d, k)
    ensures AssignAll(d, ps) == d + ps
    decreases |ps|
  {
    if ps != [] {
      assert ps[0].0 in Keys(ps);
      FreshHead(d, ps);
      FreshRest(d, ps);
      AssignAllFresh(d + [ps[0]], ps[1..]);
      assert d + [ps[0]] + ps[1..] == d + ps;
    }
  }

  /** One step of `AssignAllFresh`: a fresh first key is appended. */
  lemma FreshHead<V>(d: Dict<V>, ps: seq<(string, V)>)
    requires ps != [] && !HasKey(d, ps[0].0)
    ensures AssignAll(d, ps) == AssignAll(d + [ps[0]], ps[1..])
  {
    var p := ps[0];
    assert p == (p.0, p.1);
    AssignKeys(d, p.0, p.1);
  }

  /** The rest of a fresh batch stays fresh once its first entry is appended. */
  lemma FreshRest<V>(d: Dict<V>, ps: seq<(string, V)>)
    requires ps != [] && UniqueKeys(ps)
    requires forall k :: k in Keys(ps) ==> !HasKey(d, k)
    ensures forall k :: k in Keys(ps[1..]) ==> !HasKey(d + [ps[0]], k)
  {
    var p := ps[0];
    assert Keys(ps) == [p.0] + Keys(ps[1..]);
    assert Keys(d + [p]) == Keys(d) + [p.0];
    forall k | k in Keys(ps[1..]) ensures !HasKey(d + [p], k) {
      assert k in Keys(ps);
    }
  }

  /** `ps[i]` is the last entry of `ps` with key `k`. */
  predicate LastAssigned<V>(ps: seq<(string, V)>, k: string, i: int)
  {
    0 <= i < |ps| && ps[i].0 == k && forall j :: i < j < |ps| ==> ps[j].0 != k
  }

  /** After a batch of assignments a key reads as its last assigned value,
      or as before when the batch never assigns it. */
  lemma {:induction false} GetAssignAll<V>(d: Dict<V>, ps: seq<(string, V)>, k: string)
    ensures HasKey(ps, k) ==>
              exists i :: LastAssigned(ps, k, i) && Get(AssignAll(d, ps), k) == Some(ps[i].1)
    ensures !HasKey(ps, k) ==> Get(AssignAll(d, ps), k) == Get(d, k)
    decreases |ps|
  {
    if ps != [] {
      var d' := Assign(d, ps[0].0, ps[0].1);
      GetAssign(d, ps[0].0, ps[0].1, k);
      GetAssignAll(d', ps[1..], k);
      assert Keys(ps) == [ps[0].0] + Keys(ps[1..]);
      if HasKey(ps[1..], k) {
        var i :| LastAssigned(ps[1..], k, i) && Get(AssignAll(d', ps[1..]), k) == Some(ps[1..][i].1);
        assert LastAssigned(ps, k, i + 1);
      } else if ps[0].0 == k {
        assert LastAssigned(ps, k, 0);
      }
    }
  }

  /** Keys of an assignment batch land in the dictionary and nothing else does. */
  lemma {:induction false} AssignAllKeys<V>(d: Dict<V>, ps: seq<(string, V)>)
    ensures forall k :: HasKey(AssignAll(d, ps), k) <==> HasKey(d, k) || HasKey(ps, k)
    ensures UniqueKeys(d) ==> UniqueKeys(AssignAll(d, ps))
    decreases |ps|
  {
    if ps != [] {
      AssignKeys(d, ps[0].0, ps[0].1);
      if UniqueKeys(d) {
        AssignUnique(d, ps[0].0, ps[0].1);
      }
      AssignAllKeys(Assign(d, ps[0].0, ps[0].1), ps[1..]);
      assert Keys(ps) == [ps[0].0] + Keys(ps[1..]);
    }
  }

  /** Two batches of assignments in a row are one batch. */
  lemma {:induction false} AssignAllAppend<V>(d: Dict<V>, a: seq<(string, V)>, b: seq<(string, V)>)
    ensures AssignAll(d, a + b) == AssignAll(AssignAll(d, a), b)
    decreases |a|
  {
    if a != [] {
      assert (a + b)[0] == a[0] && (a + b)[1..] == a[1..] + b;
      AssignAllAppend(Assign(d, a[0].0, a[0].1), a[1..], b);
    } else {
      assert a + b == b;
    }
  }

  /** Unique keys, stated position by position. */
  lemma {:induction false} UniqueKeysDistinct<V>(d: Dict<V>)
    ensures UniqueKeys(d) <==> forall i, j :: 0 <= i < j < |d| ==> d[i].0 != d[j].0
  {
    if d != [] {
      UniqueKeysDistinct(d[1..]);
      if UniqueKeys(d) {
        forall i, j | 0 <= i < j < |d| ensures d[i].0 != d[j].0 {
          if i == 0 {
            assert Keys(d[1..])[j - 1] == d[j].0;
          } else {
            assert d[1..][i - 1] == d[i] && d[1..][j - 1] == d[j];
          }
        }
      }
      if forall i, j :: 0 <= i < j < |d| ==> d[i].0 != d[j].0 {
        forall i, j | 0 <= i < j < |d[1..]| ensures d[1..][i].0 != d[1..][j].0 {
          assert d[1..][i] == d[i + 1] && d[1..][j] == d[j + 1];
        }
      }
    }
  }

  /** A lookup finds an entry of the dictionary. */
  lemma {:induction false} GetFound<V>(d: Dict<V>, k: string)
    requires Get(d, k).Some?
    ensures exists i :: 0 <= i < |d| && d[i] == (k, Get(d, k).value)
  {
    if d[0].0 != k {
      GetFound(d[1..], k);
      var i :| 0 <= i < |d[1..]| && d[1..][i] == (k, Get(d[1..], k).value);
      assert d[i + 1] == d[1..][i];
    }
  }

  /** With unique keys every entry is what a lookup of its key finds. */
  lemma {:induction false} GetUnique<V>(d: Dict<V>, i: nat)
    requires UniqueKeys(d) && i < |d|
    ensures Get(d, d[i].0) == Some(d[i].1)
  {
    if i > 0 {
      assert d[1..][i - 1] == d[i];
      assert Keys(d[1..])[i - 1] == d[i].0;
      GetUnique(d[1..], i - 1);
    }
  }

  /** Whether keys are unique depends on the keys alone. */
  lemma {:induction false} UniqueKeysByKeys<V, W>(d: Dict<V>, e: Dict<W>)
    requires Keys(d) == Keys(e)
    ensures UniqueKeys(d) == UniqueKeys(e)
  {
    if d != [] {
      assert Keys(d) == [d[0].0] + Keys(d[1..]);
      assert Keys(e) == [e[0].0] + Keys(e[1..]);
      UniqueKeysByKeys(d[1..], e[1..]);
    }
  }

  /** Every entry after an assignment is the assigned one or an old one. */
  lemma {:induction false} AssignEntries<V>(d: Dict<V>, k: string, v: V)
    ensures forall e :: e in Assign(d, k, v) ==> e == (k, v) || e in d
  {
    if d != [] && d[0].0 != k {
      AssignEntries(d[1..], k, v);
    }
  }

  /** With unique keys, assigning to the key at position `i` replaces that entry. */
  lemma {:induction false} AssignAt<V>(d: Dict<V>, i: nat, v: V)
    requires UniqueKeys(d) && i < |d|
    ensures Assign(d, d[i].0, v) == d[i := (d[i].0, v)]
  {
    if i > 0 {
      var k, rest := d[i].0, d[1..];
      assert rest[i - 1] == d[i];
      assert Keys(rest)[i - 1] == k;
      assert d[0].0 != k;
      AssignAt(rest, i - 1, v);
      var tail := rest[i - 1 := (k, v)];
      assert Assign(d, k, v) == [d[0]] + tail;
      assert [d[0]] + tail == d[i := (k, v)];
    }
  }

  /** Assigning every key of a dictionary once, in its own order, gives
      exactly the assigned entries. */
  lemma {:induction false} AssignAllSameKeys<V>(d: Dict<V>, e: Dict<V>)
    requires UniqueKeys(d) && Keys(e) == Keys(d)
    ensures AssignAll(d, e) == e
  {
    assert e[..0] + d[0..] == d && e[0..] == e;
    AssignAllSameKeysFrom(d, e, 0);
  }

  lemma {:induction false} AssignAllSameKeysFrom<V>(d: Dict<V>, e: Dict<V>, i: nat)
    requires UniqueKeys(d) && Keys(e) == Keys(d) && i <= |e|
    ensures AssignAll(e[..i] + d[i..], e[i..]) == e
    decreases |e| - i
  {
    if i == |e| {
      assert e[..i] + d[i..] == e;
    } else {
      var m := e[..i] + d[i..];
      assert Keys(m) == Keys(d) by {
        assert |m| == |d|;
        forall j | 0 <= j < |m| ensures Keys(m)[j] == Keys(d)[j] {
          if j < i {
            assert m[j] == e[j] && Keys(e)[j] == e[j].0;
          } else {
            assert m[j] == d[j];
          }
        }
      }
      UniqueKeysByKeys(d, m);
      assert m[i] == d[i] && Keys(e)[i] == e[i].0;
      AssignAt(m, i, e[i].1);
      assert m[i := (m[i].0, e[i].1)] == e[..i + 1] + d[i + 1..];
      assert e[i..][1..] == e[i + 1..];
      AssignAllSameKeysFrom(d, e, i + 1);
    }
  }

  /** Two dictionaries with the same keys find a present key at the same position. */
  lemma {:induction false} GetSameKeys<V, W>(d: Dict<V>, e: Dict<W>, k: string)
    requires Keys(d) == Keys(e) && HasKey(d, k)
    ensures exists i :: 0 <= i < |d| && Get(d, k) == Some(d[i].1) && Get(e, k) == Some(e[i].1)
  {
    assert Keys(d) == [d[0].0] + Keys(d[1..]);
    assert Keys(e) == [e[0].0] + Keys(e[1..]);
    if d[0].0 != k {
      GetSameKeys(d[1..], e[1..], k);
      var i :| 0 <= i < |d[1..]| && Get(d[1..], k) == Some(d[1..][i].1) && Get(e[1..], k) == Some(e[1..][i].1);
      assert d[1..][i] == d[i + 1] && e[1..][i] == e[i + 1];
    } else {
      assert Keys(e)[0] == k;
    }
  }

  /** Splicing two dictionaries with the same keys keeps those keys. */
  lemma KeysSplice<V>(a: Dict<V>, b: Dict<V>, i: nat)
    requires Keys(a) == Keys(b) && i <= |a|
    ensures Keys(a[..i] + b[i..]) == Keys(b)
  {
    var m := a[..i] + b[i..];
    forall j | 0 <= j < |m| ensures Keys(m)[j] == Keys(b)[j] {
      if j < i {
        assert m[j] == a[j] && Keys(a)[j] == a[j].0;
      } else {
        assert m[j] == b[j];
      }
    }
  }

  /** Replacing the entries of `b` one by one with those of `a`, which has
      the same keys, is assignment at each step. */
  lemma AssignSplice<V>(a: Dict<V>, b: Dict<V>, i: nat)
    requires UniqueKeys(b) && Keys(a) == Keys(b) && i < |a|
    ensures Assign(a[..i] + b[i..], a[i].0, a[i].1) == a[..i + 1] + b[i + 1..]
  {
    var before := a[..i] + b[i..];
    KeysSplice(a, b, i);
    UniqueKeysByKeys(b, before);
    assert before[i] == b[i] && Keys(a)[i] == a[i].0;
    AssignAt(before, i, a[i].1);
    assert before[i := (a[i].0, a[i].1)] == a[..i + 1] + b[i + 1..];
  }

  /** One more entry of a batch is one more assignment. */
  lemma AssignAllStep<V>(d: Dict<V>, ps: seq<(string, V)>, i: nat)
    requires i < |ps|
    ensures AssignAll(d, ps[..i + 1]) == Assign(AssignAll(d, ps[..i]), ps[i].0, ps[i].1)
  {
    assert ps[..i + 1] == ps[..i] + [ps[i]];
    AssignAllAppend(d, ps[..i], [ps[i]]);
  }

  /** Splicing past an entry both sides agree on changes nothing. */
  lemma SpliceSame<V>(a: Dict<V>, b: Dict<V>, i: nat)
    requires i < |a| && i < |b| && a[i] == b[i]
    ensures a[..i + 1] + b[i + 1..] == a[..i] + b[i..]
  {
    assert a[..i + 1] == a[..i] + [b[i]];
  }
}
