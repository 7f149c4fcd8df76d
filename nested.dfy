/** utils.py nested dictionaries: `flatten_nested_dict` lists every entry of
    a dictionary of dictionaries under the path of keys leading to it. */
module NestedDicts {
  import opened Wrappers
  import opened Values
  import opened Assoc

  /** A value of a nested dictionary: a plain value or a dictionary. */
  datatype Nested = Leaf(v: Value) | Dict(entries: seq<(string, Nested)>)

  /** `type(val) is dict and val != {}`: the values the walk descends into. */
  predicate IsBranch(n: Nested)
  {
    n.Dict? && n.entries != []
  }

  /** Every dictionary, at every depth, holds each key once, as Python's do. */
  predicate WellKeyed(n: Nested)
    decreases n
  {
    n.Leaf? || (UniqueKeys(n.entries) && forall i :: 0 <= i < |n.entries| ==> WellKeyed(n.entries[i].1))
  }

  type Path = seq<string>

  /** What following the keys of `p` from `n` reaches, if anything. */
  function Reach(n: Nested, p: Path): Option<Nested>
    decreases |p|
  {
    if p == [] then Some(n)
    else if n.Leaf? then None
    else match Get(n.entries, p[0])
      case None => None
      case Some(w) => Reach(w, p[1..])
  }

  /** The value the flattened dictionary holds for an entry: the null marker
      for a dictionary it descends into, the entry's own value otherwise. */
  function Shown(w: Nested, nul: Nested): Nested
  {
    if IsBranch(w) then nul else w
  }

  function Prepend(k: string, ps: seq<(Path, Nested)>): (r: seq<(Path, Nested)>)
    ensures |r| == |ps| && forall j :: 0 <= j < |ps| ==> r[j] == ([k] + ps[j].0, ps[j].1)
  {
    seq(|ps|, j requires 0 <= j < |ps| => ([k] + ps[j].0, ps[j].1))
  }

  /** What the recursive helper of `flatten_nested_dict` records for the
      first `i` entries of `n`, as (path, value) pairs in recording order: a
      dictionary it descends into is recorded with the null marker before
      everything below it. */
  function PathsUpTo(n: Nested, i: nat, nul: Nested): seq<(Path, Nested)>
    requires n.Dict? && i <= |n.entries|
    decreases n, i
  {
    if i == 0 then []
    else
      var k, v := n.entries[i - 1].0, n.entries[i - 1].1;
      PathsUpTo(n, i - 1, nul) +
        (if IsBranch(v) then [([k], nul)] + Prepend(k, PathsUpTo(v, |v.entries|, nul)) else [([k], v)])
  }

  function FlatPaths(n: Nested, nul: Nested): seq<(Path, Nested)>
    requires n.Dict?
  {
    PathsUpTo(n, |n.entries|, nul)
  }

  /** The keys of a path joined by the separator. */
  function Join(path: Path, sep: string): string
    decreases |path|
  {
    if |path| == 0 then ""
    else if |path| == 1 then path[0]
    else path[0] + sep + Join(path[1..], sep)
  }

  /** The recorded pairs under keys `name + sep + joined path`. */
  function Keyed(ps: seq<(Path, Nested)>, name: string, sep: string): (r: Dict<Nested>)
    ensures |r| == |ps|
    ensures forall j :: 0 <= j < |ps| ==> r[j] == (name + sep + Join(ps[j].0, sep), ps[j].1)
  {
    seq(|ps|, j requires 0 <= j < |ps| => (name + sep + Join(ps[j].0, sep), ps[j].1))
  }

  /** The recorded pairs under their joined paths. */
  function Joined(ps: seq<(Path, Nested)>, sep: string): (r: Dict<Nested>)
    ensures |r| == |ps|
    ensures forall j :: 0 <= j < |ps| ==> r[j] == (Join(ps[j].0, sep), ps[j].1)
  {
    seq(|ps|, j requires 0 <= j < |ps| => (Join(ps[j].0, sep), ps[j].1))
  }

  /** Python's `key[h:]`, empty past the end. */
  function Drop(key: string, h: nat): string
  {
    if h <= |key| then key[h..] else ""
  }

  function Stripped(d: Dict<Nested>, h: nat): (r: Dict<Nested>)
    ensures |r| == |d|
    ensures forall j :: 0 <= j < |d| ==> r[j] == (Drop(d[j].0, h), d[j].1)
  {
    seq(|d|, j requires 0 <= j < |d| => (Drop(d[j].0, h), d[j].1))
  }

  lemma KeyedAppend(a: seq<(Path, Nested)>, b: seq<(Path, Nested)>, name: string, sep: string)
    ensures Keyed(a + b, name, sep) == Keyed(a, name, sep) + Keyed(b, name, sep)
  {
  }

  lemma {:induction false} JoinCons(k: string, p: Path, sep: string)
    requires p != []
    ensures Join([k] + p, sep) == k + sep + Join(p, sep)
  {
    assert ([k] + p)[1..] == p;
  }

  /** Every recorded path has at least one key. */
  lemma {:induction false} PathsNonEmpty(n: Nested, i: nat, nul: Nested)
    requires n.Dict? && i <= |n.entries|
    ensures forall j :: 0 <= j < |PathsUpTo(n, i, nul)| ==> PathsUpTo(n, i, nul)[j].0 != []
    decreases n, i
  {
    if i > 0 {
      PathsNonEmpty(n, i - 1, nul);
    }
  }

  /** Recording a child under the key `name + sep + k` is recording its
      paths with `k` in front under `name`. */
  lemma KeyedPrepend(ps: seq<(Path, Nested)>, k: string, name: string, sep: string)
    requires forall j :: 0 <= j < |ps| ==> ps[j].0 != []
    ensures Keyed(Prepend(k, ps), name, sep) == Keyed(ps, name + sep + k, sep)
  {
    forall j | 0 <= j < |ps|
      ensures Keyed(Prepend(k, ps), name, sep)[j] == Keyed(ps, name + sep + k, sep)[j]
    {
      JoinCons(k, ps[j].0, sep);
      var rest := Join(ps[j].0, sep);
      assert name + sep + (k + sep + rest) == (name + sep + k) + sep + rest;
    }
  }

  /** One step of the recording loop: the entries up to `i + 1` are those up
      to `i` followed by entry `i` and, for a dictionary, its own records. */
  lemma RecordStep(n: Nested, i: nat, nul: Nested, temp: Dict<Nested>, name: string, sep: string)
    requires n.Dict? && i < |n.entries|
    ensures var k, v := n.entries[i].0, n.entries[i].1;
      var before := AssignAll(temp, Keyed(PathsUpTo(n, i, nul), name, sep));
      AssignAll(temp, Keyed(PathsUpTo(n, i + 1, nul), name, sep)) ==
        if IsBranch(v) then AssignAll(Assign(before, name + sep + k, nul), Keyed(PathsUpTo(v, |v.entries|, nul), name + sep + k, sep))
        else Assign(before, name + sep + k, v)
  {
    var k, v := n.entries[i].0, n.entries[i].1;
    var front := PathsUpTo(n, i, nul);
    if IsBranch(v) {
      var child := PathsUpTo(v, |v.entries|, nul);
      PathsNonEmpty(v, |v.entries|, nul);
      RecordBranch(temp, front, child, k, nul, name, sep);
    } else {
      KeyedAppend(front, [([k], v)], name, sep);
      AssignAllAppend(temp, Keyed(front, name, sep), Keyed([([k], v)], name, sep));
    }
  }

  /** Recording a dictionary entry: its null marker, then its own records
      under the longer name. */
  lemma RecordBranch(temp: Dict<Nested>, front: seq<(Path, Nested)>, child: seq<(Path, Nested)>,
                     k: string, nul: Nested, name: string, sep: string)
    requires forall j :: 0 <= j < |child| ==> child[j].0 != []
    ensures AssignAll(temp, Keyed(front + ([([k], nul)] + Prepend(k, child)), name, sep)) ==
            AssignAll(Assign(AssignAll(temp, Keyed(front, name, sep)), name + sep + k, nul), Keyed(child, name + sep + k, sep))
  {
    KeyedBranch(front, child, k, nul, name, sep);
    AssignAllMarker(temp, Keyed(front, name, sep), (name + sep + k, nul), Keyed(child, name + sep + k, sep));
  }

  lemma KeyedBranch(front: seq<(Path, Nested)>, child: seq<(Path, Nested)>, k: string, nul: Nested, name: string, sep: string)
    requires forall j :: 0 <= j < |child| ==> child[j].0 != []
    ensures Keyed(front + ([([k], nul)] + Prepend(k, child)), name, sep) ==
            Keyed(front, name, sep) + ([(name + sep + k, nul)] + Keyed(child, name + sep + k, sep))
  {
    KeyedPrepend(child, k, name, sep);
    KeyedAppend(front, [([k], nul)] + Prepend(k, child), name, sep);
    KeyedAppend([([k], nul)], Prepend(k, child), name, sep);
  }

  lemma AssignAllMarker(temp: Dict<Nested>, a: Dict<Nested>, x: (string, Nested), b: Dict<Nested>)
    ensures AssignAll(temp, a + ([x] + b)) == AssignAll(Assign(AssignAll(temp, a), x.0, x.1), b)
  {
    AssignAllAppend(temp, a, [x] + b);
    AssignAllAppend(AssignAll(temp, a), [x], b);
    assert [x][1..] == [];
  }

  /** `_flatten_nested_dict(item, name)`: records every entry of `n` into
      the ordered dictionary `temp` under `name + separator + key`,
      descending into non-empty dictionaries. */
  method FlattenInto(n: Nested, name: string, sep: string, nul: Nested, temp: Dict<Nested>) returns (out: Dict<Nested>)
    requires n.Dict?
    ensures out == AssignAll(temp, Keyed(FlatPaths(n, nul), name, sep))
    decreases n
  {
    out := temp;
    var i := 0;
    while i < |n.entries|
      invariant 0 <= i <= |n.entries|
      invariant out == AssignAll(temp, Keyed(PathsUpTo(n, i, nul), name, sep))
    {
      var k, v := n.entries[i].0, n.entries[i].1;
      RecordStep(n, i, nul, temp, name, sep);
      if IsBranch(v) {
        out := Assign(out, name + sep + k, nul);
        out := FlattenInto(v, name + sep + k, sep, nul, out);
      } else {
        out := Assign(out, name + sep + k, v);
      }
      i := i + 1;
    }
  }

  /** The prefix the recursion starts from, removed again at the end. */
  const Root: string := "__null__"

  /** `flatten_nested_dict(item, separator, null)`. */
  method FlattenNestedDict(item: Dict<Nested>, sep: string, nul: Nested) returns (output: Dict<Nested>)
    ensures output == AssignAll([], Stripped(AssignAll([], Keyed(FlatPaths(Dict(item), nul), Root, sep)), |Root| + |sep|))
    ensures UniqueKeys(Joined(FlatPaths(Dict(item), nul), sep)) ==> output == Joined(FlatPaths(Dict(item), nul), sep)
  {
    var temp := FlattenInto(Dict(item), Root, sep, nul, []);
    var header := 8 + |sep|;
    output := [];
    var j := 0;
    while j < |temp|
      invariant 0 <= j <= |temp|
      invariant output == AssignAll([], Stripped(temp[..j], header))
    {
      assert Stripped(temp[..j + 1], header) == Stripped(temp[..j], header) + [(Drop(temp[j].0, header), temp[j].1)];
      AssignAllAppend([], Stripped(temp[..j], header), [(Drop(temp[j].0, header), temp[j].1)]);
      output := Assign(output, Drop(temp[j].0, header), temp[j].1);
      j := j + 1;
    }
    assert temp[..j] == temp;
    if UniqueKeys(Joined(FlatPaths(Dict(item), nul), sep)) {
      FlattenUnique(FlatPaths(Dict(item), nul), sep);
    }
  }

  /** Without two paths joining to the same key, nothing is overwritten:
      the result lists every recorded pair under its joined path, in order. */
  lemma FlattenUnique(ps: seq<(Path, Nested)>, sep: string)
    requires UniqueKeys(Joined(ps, sep))
    ensures AssignAll([], Stripped(AssignAll([], Keyed(ps, Root, sep)), |Root| + |sep|)) == Joined(ps, sep)
  {
    var keyed := Keyed(ps, Root, sep);
    var joined := Joined(ps, sep);
    UniqueKeysDistinct(joined);
    UniqueKeysDistinct(keyed);
    forall i, j | 0 <= i < j < |keyed| ensures keyed[i].0 != keyed[j].0 {
      assert joined[i].0 != joined[j].0;
      assert keyed[i].0 == Root + sep + joined[i].0 && keyed[j].0 == Root + sep + joined[j].0;
      assert keyed[i].0[|Root| + |sep|..] == joined[i].0;
    }
    AssignAllFresh([], keyed);
    assert [] + keyed == keyed;
    var stripped := Stripped(keyed, |Root| + |sep|);
    forall j | 0 <= j < |ps| ensures stripped[j] == joined[j] {
      assert (Root + sep + joined[j].0)[|Root| + |sep|..] == joined[j].0;
    }
    assert stripped == joined;
    AssignAllFresh([], joined);
    assert [] + joined == joined;
  }

  /** Every record deeper than one key comes after the null marker recorded
      for the dictionary that holds it. */
  predicate ParentsFirst(ps: seq<(Path, Nested)>, nul: Nested)
  {
    forall j :: 0 <= j < |ps| && |ps[j].0| > 1 ==>
      exists i :: 0 <= i < j && ps[i] == (ps[j].0[..|ps[j].0| - 1], nul)
  }

  lemma {:induction false} ParentsFirstPrepend(ps: seq<(Path, Nested)>, k: string, nul: Nested)
    requires ParentsFirst(ps, nul)
    ensures ParentsFirst([([k], nul)] + Prepend(k, ps), nul)
  {
    var block := [([k], nul)] + Prepend(k, ps);
    forall j | 0 <= j < |block| && |block[j].0| > 1
      ensures exists i :: 0 <= i < j && block[i] == (block[j].0[..|block[j].0| - 1], nul)
    {
      var m := j - 1;
      var p := ps[m].0;
      assert block[j] == ([k] + p, ps[m].1);
      if |p| == 1 {
        assert ([k] + p)[..|[k] + p| - 1] == [k];
        assert block[0] == ([k], nul);
      } else {
        var i' :| 0 <= i' < m && ps[i'] == (p[..|p| - 1], nul);
        assert ([k] + p)[..|[k] + p| - 1] == [k] + p[..|p| - 1];
        assert block[i' + 1] == ([k] + p[..|p| - 1], nul);
      }
    }
  }

  lemma {:induction false} ParentsFirstAppend(a: seq<(Path, Nested)>, b: seq<(Path, Nested)>, nul: Nested)
    requires ParentsFirst(a, nul) && ParentsFirst(b, nul)
    ensures ParentsFirst(a + b, nul)
  {
    var ab := a + b;
    forall j | 0 <= j < |ab| && |ab[j].0| > 1
      ensures exists i :: 0 <= i < j && ab[i] == (ab[j].0[..|ab[j].0| - 1], nul)
    {
      if j < |a| {
        var i :| 0 <= i < j && a[i] == (a[j].0[..|a[j].0| - 1], nul);
        assert ab[i] == a[i];
      } else {
        var m := j - |a|;
        assert ab[j] == b[m];
        var i :| 0 <= i < m && b[i] == (b[m].0[..|b[m].0| - 1], nul);
        assert ab[i + |a|] == b[i];
      }
    }
  }

  /** `flatten_nested_dict` records every non-empty dictionary with the null
      marker before the records of its children. */
  lemma {:induction false} NullBeforeChildren(n: Nested, i: nat, nul: Nested)
    requires n.Dict? && i <= |n.entries|
    ensures ParentsFirst(PathsUpTo(n, i, nul), nul)
    decreases n, i
  {
    if i > 0 {
      var k, v := n.entries[i - 1].0, n.entries[i - 1].1;
      NullBeforeChildren(n, i - 1, nul);
      if IsBranch(v) {
        NullBeforeChildren(v, |v.entries|, nul);
        ParentsFirstPrepend(PathsUpTo(v, |v.entries|, nul), k, nul);
        ParentsFirstAppend(PathsUpTo(n, i - 1, nul), [([k], nul)] + Prepend(k, PathsUpTo(v, |v.entries|, nul)), nul);
      } else {
        ParentsFirstAppend(PathsUpTo(n, i - 1, nul), [([k], v)], nul);
      }
    }
  }

  /** `(p, v)` is among the records of entry `e` (its key, then its own records). */
  predicate InEntry(e: (string, Nested), nul: Nested, p: Path, v: Nested)
  {
    |p| >= 1 && p[0] == e.0 &&
    ((|p| == 1 && v == Shown(e.1, nul)) ||
     (|p| > 1 && IsBranch(e.1) && (p[1..], v) in FlatPaths(e.1, nul)))
  }

  lemma {:induction false} MemberPathsUpTo(n: Nested, i: nat, nul: Nested, p: Path, v: Nested)
    requires n.Dict? && i <= |n.entries|
    ensures (p, v) in PathsUpTo(n, i, nul) <==> exists idx :: 0 <= idx < i && InEntry(n.entries[idx], nul, p, v)
  {
    if i > 0 {
      MemberPathsUpTo(n, i - 1, nul, p, v);
      var k, w := n.entries[i - 1].0, n.entries[i - 1].1;
      assert n.entries[i - 1] == (k, w);
      MemberEntry(k, w, nul, p, v);
      var front := PathsUpTo(n, i - 1, nul);
      var block := if IsBranch(w) then [([k], nul)] + Prepend(k, PathsUpTo(w, |w.entries|, nul)) else [([k], w)];
      assert PathsUpTo(n, i, nul) == front + block;
      if (p, v) in front + block {
        if (p, v) in front {
          var idx :| 0 <= idx < i - 1 && InEntry(n.entries[idx], nul, p, v);
          assert 0 <= idx < i;
        }
      }
      if exists idx :: 0 <= idx < i && InEntry(n.entries[idx], nul, p, v) {
        var idx :| 0 <= idx < i && InEntry(n.entries[idx], nul, p, v);
        if idx < i - 1 {
          assert (p, v) in front;
        } else {
          assert (p, v) in block;
        }
      }
    }
  }

  /** The records of one entry are exactly the pairs `InEntry` describes. */
  lemma MemberEntry(k: string, w: Nested, nul: Nested, p: Path, v: Nested)
    ensures var block := if IsBranch(w) then [([k], nul)] + Prepend(k, PathsUpTo(w, |w.entries|, nul)) else [([k], w)];
      (p, v) in block <==> InEntry((k, w), nul, p, v)
  {
    if IsBranch(w) {
      PathsNonEmpty(w, |w.entries|, nul);
      MemberBlock(k, PathsUpTo(w, |w.entries|, nul), nul, p, v);
    } else {
      if InEntry((k, w), nul, p, v) {
        assert p == [k];
      }
    }
  }

  /** A dictionary entry records its key with the null marker, then the
      child's records with the key in front. */
  lemma MemberBlock(k: string, c: seq<(Path, Nested)>, nul: Nested, p: Path, v: Nested)
    requires forall j :: 0 <= j < |c| ==> c[j].0 != []
    ensures (p, v) in [([k], nul)] + Prepend(k, c) <==>
              |p| >= 1 && p[0] == k && ((|p| == 1 && v == nul) || (|p| > 1 && (p[1..], v) in c))
  {
    var block := [([k], nul)] + Prepend(k, c);
    if (p, v) in block {
      var m :| 0 <= m < |block| && block[m] == (p, v);
      if m > 0 {
        assert p == [k] + c[m - 1].0 && v == c[m - 1].1;
        assert p[1..] == c[m - 1].0;
      }
    }
    if |p| >= 1 && p[0] == k {
      if |p| == 1 && v == nul {
        assert p == [k];
        assert block[0] == (p, v);
      } else if |p| > 1 && (p[1..], v) in c {
        var m :| 0 <= m < |c| && c[m] == (p[1..], v);
        assert p == [k] + p[1..];
        assert block[m + 1] == (p, v);
      }
    }
  }

  /** `flatten_nested_dict` records a path exactly when following it from
      the root reaches something: the null marker for a non-empty
      dictionary, the value itself for anything else (a leaf or `{}`). */
  lemma {:induction false} FlatPathsReach(n: Nested, nul: Nested, p: Path, v: Nested)
    requires n.Dict? && WellKeyed(n)
    ensures (p, v) in FlatPaths(n, nul) <==> p != [] && Reach(n, p).Some? && v == Shown(Reach(n, p).value, nul)
    decreases n
  {
    MemberPathsUpTo(n, |n.entries|, nul, p, v);
    if (p, v) in FlatPaths(n, nul) {
      var idx :| 0 <= idx < |n.entries| && InEntry(n.entries[idx], nul, p, v);
      var w := n.entries[idx].1;
      GetUnique(n.entries, idx);
      assert Reach(n, p) == Reach(w, p[1..]);
      if |p| > 1 {
        assert WellKeyed(w);
        FlatPathsReach(w, nul, p[1..], v);
      }
    }
    if p != [] && Reach(n, p).Some? && v == Shown(Reach(n, p).value, nul) {
      var w := Get(n.entries, p[0]).value;
      GetFound(n.entries, p[0]);
      var idx :| 0 <= idx < |n.entries| && n.entries[idx] == (p[0], w);
      assert Reach(n, p) == Reach(w, p[1..]);
      if |p| == 1 {
        assert p[1..] == [];
      } else {
        assert Reach(w, p[1..]).Some?;
        assert w.Dict?;
        assert WellKeyed(w);
        FlatPathsReach(w, nul, p[1..], v);
      }
      assert InEntry(n.entries[idx], nul, p, v);
    }
  }

  // ---------------------------------------------------------------------
  // matrix_to_nested_dict

  /** A row of the matrix: keys first, the value in the last cell. */
  type Row = seq<string>

  /** `row[0:-1]` */
  function KeysOf(row: Row): Path
  {
    if row == [] then [] else row[..|row| - 1]
  }

  /** `row[-1]`, stored as a plain value. */
  function ValueOf(row: Row): Nested
  {
    if row == [] then Leaf(Str("")) else Leaf(Str(row[|row| - 1]))
  }

  /** The cursor walk of one row: from the dictionary `n`, step into the
      entry of each key but the last, creating `{}` for a missing key, and
      assign `value` to the last key. Stepping into a plain value and then
      using it as a dictionary raises TypeError. */
  function SetPath(n: Nested, keys: Path, value: Nested): (r: Result<Nested, PyError>)
    requires n.Dict? && keys != []
    ensures r.Success? ==> r.value.Dict?
    ensures r.Failure? ==> r.error == TypeError
    decreases |keys|
  {
    if |keys| == 1 then Success(Dict(Assign(n.entries, keys[0], value)))
    else
      var found := Get(n.entries, keys[0]);
      if found.Some? && found.value.Leaf? then Failure(TypeError)
      else
        var child := if found.Some? then found.value else Dict([]);
        match SetPath(child, keys[1..], value)
        case Failure(e) => Failure(e)
        case Success(c) => Success(Dict(Assign(n.entries, keys[0], c)))
  }

  /** One iteration of the row loop; a row of fewer than two cells has no
      key to assign (`keys[-1]` or `row[-1]` raises IndexError). */
  function RowStep(n: Nested, row: Row): (r: Result<Nested, PyError>)
    requires n.Dict?
    ensures r.Success? ==> r.value.Dict?
  {
    if |row| < 2 then Failure(IndexError) else SetPath(n, KeysOf(row), ValueOf(row))
  }

  /** The rows applied in order to `n`; the first error ends the loop. */
  function Build(n: Nested, rows: seq<Row>): (r: Result<Nested, PyError>)
    requires n.Dict?
    ensures r.Success? ==> r.value.Dict?
    decreases |rows|
  {
    if rows == [] then Success(n)
    else match RowStep(n, rows[0])
      case Failure(e) => Failure(e)
      case Success(m) => Build(m, rows[1..])
  }

  /** `matrix_to_nested_dict(matrix)` */
  method MatrixToNestedDict(matrix: seq<Row>) returns (r: Result<Nested, PyError>)
    ensures r == Build(Dict([]), matrix)
  {
    var output := Dict([]);
    var k := 0;
    while k < |matrix|
      invariant 0 <= k <= |matrix| && output.Dict?
      invariant Build(Dict([]), matrix) == Build(output, matrix[k..])
    {
      var row := matrix[k];
      assert matrix[k..][0] == row && matrix[k..][1..] == matrix[k + 1..];
      if |row| < 2 {
        return Failure(IndexError);
      }
      var step := SetPath(output, row[..|row| - 1], Leaf(Str(row[|row| - 1])));
      if step.Failure? {
        return Failure(step.error);
      }
      output := step.value;
      k := k + 1;
    }
    return Success(output);
  }

  /** The paths `p` and `q` part ways: some key differs. */
  predicate Diverge(p: Path, q: Path)
  {
    exists i :: 0 <= i < |p| && i < |q| && p[i] != q[i]
  }

  /** A row fails exactly when one of its proper key prefixes already
      reaches a plain value. */
  lemma {:induction false} SetPathFails(n: Nested, keys: Path, value: Nested)
    requires n.Dict? && keys != []
    ensures SetPath(n, keys, value).Failure? <==>
              exists j :: 1 <= j < |keys| && Reach(n, keys[..j]).Some? && Reach(n, keys[..j]).value.Leaf?
    decreases |keys|
  {
    if |keys| > 1 {
      var found := Get(n.entries, keys[0]);
      var rest := keys[1..];
      forall j | 1 <= j < |keys| ensures Reach(n, keys[..j]) == if found.Some? then Reach(found.value, rest[..j - 1]) else None {
        assert keys[..j][0] == keys[0] && keys[..j][1..] == rest[..j - 1];
      }
      if found.Some? && found.value.Leaf? {
        assert keys[..1][1..] == [];
        assert Reach(n, keys[..1]) == Some(found.value);
      } else {
        var child := if found.Some? then found.value else Dict([]);
        SetPathFails(child, rest, value);
        if SetPath(child, rest, value).Failure? {
          var j :| 1 <= j < |rest| && Reach(child, rest[..j]).Some? && Reach(child, rest[..j]).value.Leaf?;
          if found.None? {
            assert false;
          }
          assert Reach(n, keys[..j + 1]) == Reach(child, rest[..j]);
        }
        if exists j :: 1 <= j < |keys| && Reach(n, keys[..j]).Some? && Reach(n, keys[..j]).value.Leaf? {
          var j :| 1 <= j < |keys| && Reach(n, keys[..j]).Some? && Reach(n, keys[..j]).value.Leaf?;
          if j == 1 {
            // keys[..1] reaches the entry itself, which is not a plain value here
            assert false;
          }
          assert Reach(n, keys[..j]) == Reach(child, rest[..j - 1]);
          assert 1 <= j - 1 < |rest|;
        }
      }
    }
  }

  /** After a row, its keys lead to its value. */
  lemma {:induction false} SetPathReaches(n: Nested, keys: Path, value: Nested)
    requires n.Dict? && keys != [] && SetPath(n, keys, value).Success?
    ensures Reach(SetPath(n, keys, value).value, keys) == Some(value)
    decreases |keys|
  {
    var r := SetPath(n, keys, value).value;
    var found := Get(n.entries, keys[0]);
    if |keys| == 1 {
      GetAssign(n.entries, keys[0], value, keys[0]);
      assert keys[1..] == [];
    } else {
      var child := if found.Some? then found.value else Dict([]);
      var c := SetPath(child, keys[1..], value).value;
      GetAssign(n.entries, keys[0], c, keys[0]);
      SetPathReaches(child, keys[1..], value);
    }
  }

  /** A row leaves every path that parts ways with its keys as it was:
      existing dictionaries on the way are stepped into, not replaced. */
  lemma {:induction false} SetPathFrame(n: Nested, keys: Path, value: Nested, p: Path)
    requires n.Dict? && keys != [] && SetPath(n, keys, value).Success? && Diverge(keys, p)
    ensures Reach(SetPath(n, keys, value).value, p) == Reach(n, p)
    decreases |keys|
  {
    var r := SetPath(n, keys, value).value;
    var found := Get(n.entries, keys[0]);
    if p[0] != keys[0] {
      var c := if |keys| == 1 then value else SetPath(if found.Some? then found.value else Dict([]), keys[1..], value).value;
      assert r.entries == Assign(n.entries, keys[0], c);
      GetAssign(n.entries, keys[0], c, p[0]);
    } else {
      var i :| 0 <= i < |keys| && i < |p| && keys[i] != p[i];
      assert i >= 1 && |keys| > 1;
      var child := if found.Some? then found.value else Dict([]);
      var c := SetPath(child, keys[1..], value).value;
      GetAssign(n.entries, keys[0], c, p[0]);
      assert keys[1..][i - 1] != p[1..][i - 1];
      SetPathFrame(child, keys[1..], value, p[1..]);
      assert Reach(r, p) == Reach(c, p[1..]);
    }
  }

  /** Rows that all part ways with `p` leave `p` as it was. */
  lemma {:induction false} BuildFrame(n: Nested, rows: seq<Row>, p: Path)
    requires n.Dict? && Build(n, rows).Success?
    requires forall l :: 0 <= l < |rows| ==> Diverge(KeysOf(rows[l]), p)
    ensures Reach(Build(n, rows).value, p) == Reach(n, p)
    decreases |rows|
  {
    if rows != [] {
      SetPathFrame(n, KeysOf(rows[0]), ValueOf(rows[0]), p);
      var m := RowStep(n, rows[0]).value;
      forall l | 0 <= l < |rows[1..]| ensures Diverge(KeysOf(rows[1..][l]), p) {
        assert rows[1..][l] == rows[l + 1];
      }
      BuildFrame(m, rows[1..], p);
    }
  }

  /** A processed row's keys lead to its value, unless a later row writes
      along the same path (its keys equal, extend or are extended by them). */
  lemma {:induction false} RowPersists(n: Nested, rows: seq<Row>, m: nat)
    requires n.Dict? && Build(n, rows).Success? && m < |rows|
    requires forall l :: m < l < |rows| ==> Diverge(KeysOf(rows[l]), KeysOf(rows[m]))
    ensures Reach(Build(n, rows).value, KeysOf(rows[m])) == Some(ValueOf(rows[m]))
    decreases |rows|
  {
    var next := RowStep(n, rows[0]).value;
    if m == 0 {
      SetPathReaches(n, KeysOf(rows[0]), ValueOf(rows[0]));
      forall l | 0 <= l < |rows[1..]| ensures Diverge(KeysOf(rows[1..][l]), KeysOf(rows[0])) {
        assert rows[1..][l] == rows[l + 1];
      }
      BuildFrame(next, rows[1..], KeysOf(rows[0]));
    } else {
      forall l | m - 1 < l < |rows[1..]| ensures Diverge(KeysOf(rows[1..][l]), KeysOf(rows[1..][m - 1])) {
        assert rows[1..][l] == rows[l + 1];
      }
      assert rows[1..][m - 1] == rows[m];
      RowPersists(next, rows[1..], m - 1);
    }
  }

  /** The result is a proper dictionary of dictionaries. */
  lemma {:induction false} SetPathWellKeyed(n: Nested, keys: Path, value: Nested)
    requires n.Dict? && keys != [] && WellKeyed(n) && WellKeyed(value) && SetPath(n, keys, value).Success?
    ensures WellKeyed(SetPath(n, keys, value).value)
    decreases |keys|
  {
    var found := Get(n.entries, keys[0]);
    var c := value;
    if |keys| > 1 {
      var child := if found.Some? then found.value else Dict([]);
      if found.Some? {
        GetFound(n.entries, keys[0]);
      }
      SetPathWellKeyed(child, keys[1..], value);
      c := SetPath(child, keys[1..], value).value;
    }
    var es := Assign(n.entries, keys[0], c);
    assert SetPath(n, keys, value).value == Dict(es);
    AssignUnique(n.entries, keys[0], c);
    AssignEntries(n.entries, keys[0], c);
    forall i | 0 <= i < |es| ensures WellKeyed(es[i].1) {
      assert es[i] in es;
      if es[i] != (keys[0], c) {
        var j :| 0 <= j < |n.entries| && n.entries[j] == es[i];
      }
    }
  }

  lemma {:induction false} BuildWellKeyed(n: Nested, rows: seq<Row>)
    requires n.Dict? && WellKeyed(n) && Build(n, rows).Success?
    ensures WellKeyed(Build(n, rows).value)
    decreases |rows|
  {
    if rows != [] {
      SetPathWellKeyed(n, KeysOf(rows[0]), ValueOf(rows[0]));
      BuildWellKeyed(RowStep(n, rows[0]).value, rows[1..]);
    }
  }

  // ---------------------------------------------------------------------
  // interpret_nested_dict

  /** The dictionary `n` with `pred` applied to every value that is not a
      non-empty dictionary, at every depth. */
  function Interpret(n: Nested, pred: Nested -> Nested): (r: Nested)
    requires n.Dict?
    ensures r.Dict? && Keys(r.entries) == Keys(n.entries)
    decreases n
  {
    Dict(seq(|n.entries|, i requires 0 <= i < |n.entries| =>
      (n.entries[i].0, if IsBranch(n.entries[i].1) then Interpret(n.entries[i].1, pred) else pred(n.entries[i].1))))
  }

  /** `_interpret_nested_dict(item, cursor)`: assigns into `cursor` the
      interpretation of every entry of `n`. A non-empty dictionary is
      interpreted with itself as the cursor, so it is overwritten in place
      and what comes back is its own new state. */
  method InterpretInto(n: Nested, cursor: Dict<Nested>, pred: Nested -> Nested) returns (out: Dict<Nested>)
    requires n.Dict? && WellKeyed(n)
    ensures out == AssignAll(cursor, Interpret(n, pred).entries)
    decreases n
  {
    var target := Interpret(n, pred).entries;
    out := cursor;
    var i := 0;
    while i < |n.entries|
      invariant 0 <= i <= |n.entries|
      invariant out == AssignAll(cursor, target[..i])
    {
      var k, v := n.entries[i].0, n.entries[i].1;
      InterpretAt(n, pred, i);
      AssignAllStep(cursor, target, i);
      if IsBranch(v) {
        assert WellKeyed(v);
        var sub := InterpretInto(v, v.entries, pred);
        InterpretOwnCursor(v, pred);
        out := Assign(out, k, Dict(sub));
      } else {
        out := Assign(out, k, pred(v));
      }
      i := i + 1;
    }
    assert target[..i] == target;
  }

  /** Entry `i` of the interpretation: the same key, with the value
      interpreted. */
  lemma InterpretAt(n: Nested, pred: Nested -> Nested, i: nat)
    requires n.Dict? && i < |n.entries|
    ensures var w := n.entries[i].1;
      Interpret(n, pred).entries[i] == (n.entries[i].0, if IsBranch(w) then Interpret(w, pred) else pred(w))
  {
  }

  /** Assigning the interpretation into the dictionary itself leaves
      exactly the interpretation, as keys are kept. */
  lemma InterpretOwnCursor(v: Nested, pred: Nested -> Nested)
    requires v.Dict? && WellKeyed(v)
    ensures AssignAll(v.entries, Interpret(v, pred).entries) == Interpret(v, pred).entries
  {
    AssignAllSameKeys(v.entries, Interpret(v, pred).entries);
  }

  /** What an entry of the input holds after the call. */
  function TouchValue(w: Nested, pred: Nested -> Nested): Nested
  {
    if IsBranch(w) then Interpret(w, pred) else w
  }

  /** The input after the call: its non-empty dictionaries were
      overwritten in place by their interpretation; its other values are
      untouched. */
  function Touched(item: Dict<Nested>, pred: Nested -> Nested): (r: Dict<Nested>)
    ensures |r| == |item|
    ensures forall i :: 0 <= i < |item| ==> r[i] == (item[i].0, TouchValue(item[i].1, pred))
  {
    seq(|item|, i requires 0 <= i < |item| => (item[i].0, TouchValue(item[i].1, pred)))
  }

  /** `interpret_nested_dict(item, predicate)`: the interpreted dictionary,
      and the state `item` is left in. */
  method InterpretNestedDict(item: Dict<Nested>, pred: Nested -> Nested) returns (output: Dict<Nested>, after: Dict<Nested>)
    requires WellKeyed(Dict(item))
    ensures output == Interpret(Dict(item), pred).entries
    ensures after == Touched(item, pred)
  {
    var target := Interpret(Dict(item), pred).entries;
    ghost var touched := Touched(item, pred);
    assert Keys(touched) == Keys(item) by {
      forall j | 0 <= j < |item| ensures Keys(touched)[j] == Keys(item)[j] { }
    }
    output := [];
    after := item;
    var i := 0;
    while i < |item|
      invariant 0 <= i <= |item|
      invariant output == AssignAll([], target[..i])
      invariant after == touched[..i] + item[i..]
    {
      var k, v := item[i].0, item[i].1;
      AssignAllStep([], target, i);
      if IsBranch(v) {
        var sub := InterpretInto(v, v.entries, pred);
        AssignAllSameKeys(v.entries, Interpret(v, pred).entries);
        assert Dict(sub) == touched[i].1;
        output := Assign(output, k, Dict(sub));
        AssignSplice(touched, item, i);
        // `v` is the very dictionary `item[k]` refers to, now overwritten.
        after := Assign(after, k, Dict(sub));
      } else {
        output := Assign(output, k, pred(v));
        SpliceSame(touched, item, i);
      }
      i := i + 1;
    }
    assert target[..i] == target;
    assert touched[..i] + item[i..] == touched;
    UniqueKeysByKeys(item, target);
    AssignAllFresh([], target);
  }

  /** The input keeps its plain values, and each of its non-empty
      dictionaries is now the very value the output holds under that key. */
  lemma InputSharesBranches(item: Dict<Nested>, pred: Nested -> Nested)
    ensures forall i :: 0 <= i < |item| && IsBranch(item[i].1) ==>
              Touched(item, pred)[i] == Interpret(Dict(item), pred).entries[i]
    ensures forall i :: 0 <= i < |item| && !IsBranch(item[i].1) ==> Touched(item, pred)[i] == item[i]
  {
  }

  /** Along any path of the input, the output holds `pred` of a plain
      value (or of `{}`) and the interpretation of a non-empty dictionary. */
  lemma {:induction false} InterpretReach(n: Nested, pred: Nested -> Nested, p: Path)
    requires n.Dict? && p != [] && Reach(n, p).Some?
    ensures var w := Reach(n, p).value;
      Reach(Interpret(n, pred), p) == Some(if IsBranch(w) then Interpret(w, pred) else pred(w))
    decreases |p|
  {
    var r := Interpret(n, pred);
    var w0 := Get(n.entries, p[0]).value;
    GetSameKeys(n.entries, r.entries, p[0]);
    var i :| 0 <= i < |n.entries| && Get(n.entries, p[0]) == Some(n.entries[i].1) && Get(r.entries, p[0]) == Some(r.entries[i].1);
    assert Reach(n, p) == Reach(w0, p[1..]);
    assert Reach(r, p) == Reach(r.entries[i].1, p[1..]);
    if |p| == 1 {
      assert p[1..] == [];
    } else {
      assert w0.Dict?;
      assert IsBranch(w0);
      InterpretReach(w0, pred, p[1..]);
    }
  }
}
