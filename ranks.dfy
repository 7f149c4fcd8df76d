/** utils.py `invert` and `reduce_units`: both replace every element of a
    list by something chosen from its rank among the list's distinct
    values, `sorted(set(iterable))`. */
module Ranks {
  import opened Values

  /** No element is NaN, whose place in a sort Python leaves undefined. */
  predicate Present(xs: seq<Value>)
  {
    forall i :: 0 <= i < |xs| ==> xs[i] != Missing
  }

  predicate StrictlySorted(s: seq<Value>)
  {
    forall i, j {:trigger Less(s[i], s[j])} :: 0 <= i < j < |s| ==> Less(s[i], s[j])
  }

  /** Two different present values are ordered one way or the other. */
  lemma Trichotomy(a: Value, b: Value)
    requires a != Missing && b != Missing
    ensures a == b || Less(a, b) || Less(b, a)
  {
    LessIsStrictOrder(a, b, b);
  }

  /** `x` put into its place in a strictly sorted list, unless it is there. */
  function Insert(s: seq<Value>, x: Value): (r: seq<Value>)
    requires StrictlySorted(s) && Present(s) && x != Missing
    ensures StrictlySorted(r) && Present(r)
    ensures forall y :: y in r <==> y in s || y == x
  {
    if s == [] then [x]
    else if x == s[0] then s
    else if Less(x, s[0]) then
      LessAfterFirst(s, x);
      [x] + s
    else
      Trichotomy(x, s[0]);
      var rest := Insert(s[1..], x);
      assert forall y :: y in s[1..] ==> Less(s[0], y);
      assert s == [s[0]] + s[1..];
      [s[0]] + rest
  }

  /** A value below the head of a strictly sorted list is below all of it. */
  lemma LessAfterFirst(s: seq<Value>, x: Value)
    requires StrictlySorted(s) && s != [] && Less(x, s[0])
    ensures forall j :: 0 <= j < |s| ==> Less(x, s[j])
  {
    forall j | 0 < j < |s| ensures Less(x, s[j]) {
      LessIsStrictOrder(x, s[0], s[j]);
    }
  }

  /** `sorted(set(xs))`: the distinct values of `xs` in increasing order. */
  function SortedDistinct(xs: seq<Value>): (r: seq<Value>)
    requires Present(xs)
    ensures StrictlySorted(r) && Present(r)
    ensures forall y :: y in r <==> y in xs
  {
    if xs == [] then []
    else
      var n := |xs| - 1;
      assert xs == xs[..n] + [xs[n]];
      Insert(SortedDistinct(xs[..n]), xs[n])
  }

  /** Lists with the same members are empty together. */
  lemma SameMembersEmpty(a: seq<Value>, b: seq<Value>)
    requires forall y :: y in a <==> y in b
    ensures a == [] <==> b == []
  {
    if a != [] {
      assert a[0] in b;
    }
    if b != [] {
      assert b[0] in a;
    }
  }

  /** A strictly sorted list is determined by its set of elements. */
  lemma {:induction false} SortedUnique(a: seq<Value>, b: seq<Value>)
    requires StrictlySorted(a) && StrictlySorted(b)
    requires forall y :: y in a <==> y in b
    ensures a == b
    decreases |a|
  {
    SameMembersEmpty(a, b);
    if a != [] {
      assert a[0] in b;
      assert b != [];
      assert b[0] in a;
      if a[0] != b[0] {
        var k :| 0 <= k < |b| && b[k] == a[0];
        var m :| 0 <= m < |a| && a[m] == b[0];
        LessIsStrictOrder(a[0], b[0], a[0]);
        assert false;
      }
      forall y ensures y in a[1..] <==> y in b[1..] {
        if y in a[1..] {
          var j :| 1 <= j < |a| && a[j] == y;
          assert Less(a[0], y);
          LessIsStrictOrder(a[0], a[0], a[0]);
          assert y in b;
          assert y != b[0];
        }
        if y in b[1..] {
          var j :| 1 <= j < |b| && b[j] == y;
          assert Less(b[0], y);
          LessIsStrictOrder(b[0], b[0], b[0]);
          assert y in a;
          assert y != a[0];
        }
      }
      SortedUnique(a[1..], b[1..]);
      assert a == [a[0]] + a[1..] && b == [b[0]] + b[1..];
    }
  }

  /** The position of `x` in `s`, which holds it. */
  function Rank(s: seq<Value>, x: Value): (k: nat)
    requires x in s
    ensures k < |s| && s[k] == x
  {
    if s[0] == x then 0 else 1 + Rank(s[1..], x)
  }

  lemma {:induction false} RankOf(s: seq<Value>, k: nat)
    requires StrictlySorted(s) && k < |s|
    ensures Rank(s, s[k]) == k
  {
    var r := Rank(s, s[k]);
    if r < k {
      LessIsStrictOrder(s[r], s[k], s[r]);
    } else if r > k {
      LessIsStrictOrder(s[k], s[r], s[k]);
    }
  }

  /** Rank follows the order of values. */
  lemma RankOrder(s: seq<Value>, x: Value, y: Value)
    requires StrictlySorted(s) && x in s && y in s
    ensures Less(x, y) <==> Rank(s, x) < Rank(s, y)
    ensures x == y <==> Rank(s, x) == Rank(s, y)
  {
    var i, j := Rank(s, x), Rank(s, y);
    if j < i {
      LessIsStrictOrder(y, x, y);
    }
    if i == j {
      LessIsStrictOrder(x, x, x);
    }
  }

  /** The distinct values of `xs` below `x`. */
  function ValuesBelow(xs: seq<Value>, x: Value): set<Value>
  {
    set v | v in xs && Less(v, x)
  }

  /** The distinct values of `xs` above `x`. */
  function ValuesAbove(xs: seq<Value>, x: Value): set<Value>
  {
    set v | v in xs && Less(x, v)
  }

  /** A strictly sorted list has as many distinct elements as positions. */
  lemma {:induction false} DistinctCount(s: seq<Value>)
    requires StrictlySorted(s)
    ensures |set v | v in s| == |s|
  {
    if s != [] {
      DistinctCount(s[1..]);
      assert (set v | v in s) == {s[0]} + (set v | v in s[1..]);
      if s[0] in s[1..] {
        var j :| 1 <= j < |s| && s[j] == s[0];
        LessIsStrictOrder(s[0], s[0], s[0]);
      }
    }
  }

  /** The rank of `x` among the distinct values counts the values below it. */
  lemma BelowCount(xs: seq<Value>, x: Value)
    requires Present(xs) && x in xs
    ensures |ValuesBelow(xs, x)| == Rank(SortedDistinct(xs), x)
  {
    var p := SortedDistinct(xs);
    var k := Rank(p, x);
    RankOf(p, k);
    forall v ensures v in ValuesBelow(xs, x) <==> v in p[..k] {
      if v in ValuesBelow(xs, x) {
        RankOrder(p, v, x);
        assert p[Rank(p, v)] == v;
      }
      if v in p[..k] {
        var j :| 0 <= j < k && p[j] == v;
        RankOf(p, j);
        RankOrder(p, v, x);
      }
    }
    assert ValuesBelow(xs, x) == set v | v in p[..k];
    DistinctCount(p[..k]);
  }

  /** The positions after `x` among the distinct values count the values
      above it. */
  lemma AboveCount(xs: seq<Value>, x: Value)
    requires Present(xs) && x in xs
    ensures |ValuesAbove(xs, x)| == |SortedDistinct(xs)| - 1 - Rank(SortedDistinct(xs), x)
  {
    var p := SortedDistinct(xs);
    var k := Rank(p, x);
    RankOf(p, k);
    forall v ensures v in ValuesAbove(xs, x) <==> v in p[k + 1..] {
      if v in ValuesAbove(xs, x) {
        RankOrder(p, x, v);
        assert p[Rank(p, v)] == v;
      }
      if v in p[k + 1..] {
        var j :| k < j < |p| && p[j] == v;
        RankOf(p, j);
        RankOrder(p, x, v);
      }
    }
    var above := p[k + 1..];
    assert ValuesAbove(xs, x) == set v | v in above;
    DistinctCount(above);
  }

  /** `invert(iterable)`: every element replaced by its mirror in
      `sorted(set(iterable))`. */
  function Invert(xs: seq<Value>): (r: seq<Value>)
    requires Present(xs)
    ensures |r| == |xs| && Present(r)
  {
    var p := SortedDistinct(xs);
    seq(|xs|, i requires 0 <= i < |xs| => Mirror(p, xs[i]))
  }

  /** The element as far from the end of `p` as `x` is from its start. */
  function Mirror(p: seq<Value>, x: Value): (y: Value)
    requires x in p
    ensures y in p
  {
    p[|p| - 1 - Rank(p, x)]
  }

  /** The k-th smallest distinct value becomes the k-th largest: as many
      distinct values lie above the new element as lay below the old one,
      and the new element is one of the list's own values. */
  lemma InvertMirrorsRank(xs: seq<Value>, i: nat)
    requires Present(xs) && i < |xs|
    ensures Invert(xs)[i] in xs
    ensures |ValuesAbove(xs, Invert(xs)[i])| == |ValuesBelow(xs, xs[i])|
  {
    var p := SortedDistinct(xs);
    var k := Rank(p, xs[i]);
    var m := |p| - 1 - k;
    var y := p[m];
    assert Invert(xs)[i] == y;
    BelowCount(xs, xs[i]);
    RankOf(p, m);
    assert y in xs;
    AboveCount(xs, y);
  }

  /** Inverting reverses the order between any two elements. */
  lemma InvertReversesOrder(xs: seq<Value>, i: nat, j: nat)
    requires Present(xs) && i < |xs| && j < |xs|
    ensures Less(xs[i], xs[j]) <==> Less(Invert(xs)[j], Invert(xs)[i])
    ensures xs[i] == xs[j] <==> Invert(xs)[i] == Invert(xs)[j]
  {
    InvertAt(xs, i);
    InvertAt(xs, j);
    MirrorReverses(SortedDistinct(xs), xs[i], xs[j]);
  }

  /** Mirroring in a strictly sorted list reverses the order. */
  lemma MirrorReverses(p: seq<Value>, x: Value, y: Value)
    requires StrictlySorted(p) && x in p && y in p
    ensures Less(x, y) <==> Less(Mirror(p, y), Mirror(p, x))
    ensures x == y <==> Mirror(p, x) == Mirror(p, y)
  {
    var a, b := Rank(p, x), Rank(p, y);
    var ma, mb := |p| - 1 - a, |p| - 1 - b;
    RankOrder(p, x, y);
    RankOf(p, ma);
    RankOf(p, mb);
    RankOrder(p, p[mb], p[ma]);
  }

  /** Every distinct value is the mirror of some element. */
  lemma MirrorOnto(xs: seq<Value>, y: Value)
    requires Present(xs) && y in SortedDistinct(xs)
    ensures y in Invert(xs)
  {
    var p := SortedDistinct(xs);
    var m := |p| - 1 - Rank(p, y);
    MirrorOfMirror(p, m);
    var i :| 0 <= i < |xs| && xs[i] == p[m];
    InvertAt(xs, i);
    ElementIsMember(Invert(xs), i);
  }

  /** Element `i` of the inversion is the mirror of element `i`. */
  lemma InvertAt(xs: seq<Value>, i: nat)
    requires Present(xs) && i < |xs|
    ensures Invert(xs)[i] == Mirror(SortedDistinct(xs), xs[i])
  {
  }

  /** In a strictly sorted list the mirror of position `m` is position
      `|p| - 1 - m`, and the other way round. */
  lemma MirrorOfMirror(p: seq<Value>, m: nat)
    requires StrictlySorted(p) && m < |p|
    ensures Mirror(p, p[m]) == p[|p| - 1 - m]
    ensures Mirror(p, p[|p| - 1 - m]) == p[m]
  {
    RankOf(p, m);
    RankOf(p, |p| - 1 - m);
  }

  lemma ElementIsMember(s: seq<Value>, i: nat)
    requires i < |s|
    ensures s[i] in s
  {
  }

  /** The inverted list has the same distinct values. */
  lemma InvertSameValues(xs: seq<Value>)
    requires Present(xs)
    ensures SortedDistinct(Invert(xs)) == SortedDistinct(xs)
  {
    var p := SortedDistinct(xs);
    var r := Invert(xs);
    var q := SortedDistinct(r);
    forall y ensures y in q <==> y in p {
      if y in p {
        MirrorOnto(xs, y);
      }
    }
    SortedUnique(q, p);
  }

  lemma InvertTwiceAt(xs: seq<Value>, i: nat)
    requires Present(xs) && i < |xs|
    ensures |Invert(Invert(xs))| == |xs| && Invert(Invert(xs))[i] == xs[i]
  {
    var p := SortedDistinct(xs);
    var r := Invert(xs);
    InvertSameValues(xs);
    InvertAt(xs, i);
    InvertAt(r, i);
    var k := Rank(p, xs[i]);
    MirrorOfMirror(p, k);
  }

  /** `invert` is an involution. */
  lemma InvertInvolution(xs: seq<Value>)
    requires Present(xs)
    ensures Invert(Invert(xs)) == xs
  {
    forall i | 0 <= i < |xs| ensures Invert(Invert(xs))[i] == xs[i] {
      InvertTwiceAt(xs, i);
    }
  }

  /** `unit * n` in Python: empty for a count of zero or less. */
  function Repeat(unit: string, n: int): (r: string)
    decreases n
  {
    if n <= 0 then "" else unit + Repeat(unit, n - 1)
  }

  /** The length of `unit * n`. */
  lemma {:induction false} RepeatLength(unit: string, n: int)
    ensures |Repeat(unit, n)| == if n <= 0 then 0 else |unit| * n
    decreases n
  {
    if n > 0 {
      RepeatLength(unit, n - 1);
      assert |unit| * n == |unit| + |unit| * (n - 1);
    }
  }

  /** A non-empty unit repeated more often gives a longer string. */
  lemma {:induction false} RepeatLonger(unit: string, a: nat, b: nat)
    requires unit != "" && a < b
    ensures |Repeat(unit, a)| < |Repeat(unit, b)|
    decreases b
  {
    if a < b - 1 {
      RepeatLonger(unit, a, b - 1);
    }
  }

  /** `reduce_units(iterable, new_unit, min)`: the k-th smallest distinct
      value becomes `new_unit` repeated `k + min` times. */
  function ReduceUnits(xs: seq<Value>, unit: string, min: int): (r: seq<string>)
    requires Present(xs)
    ensures |r| == |xs|
  {
    var p := SortedDistinct(xs);
    seq(|xs|, i requires 0 <= i < |xs| => Repeat(unit, Rank(p, xs[i]) + min))
  }

  lemma ReduceUnitsAt(xs: seq<Value>, unit: string, min: int, i: nat)
    requires Present(xs) && i < |xs|
    ensures ReduceUnits(xs, unit, min)[i] == Repeat(unit, Rank(SortedDistinct(xs), xs[i]) + min)
  {
  }

  /** Each output is `new_unit` repeated once per distinct smaller value,
      plus `min` times. */
  lemma ReduceUnitsCounts(xs: seq<Value>, unit: string, min: int, i: nat)
    requires Present(xs) && i < |xs|
    ensures ReduceUnits(xs, unit, min)[i] == Repeat(unit, |ValuesBelow(xs, xs[i])| + min)
  {
    BelowCount(xs, xs[i]);
    ReduceUnitsAt(xs, unit, min, i);
  }

  /** Python 2 order between two elements is the order of their counts of
      distinct smaller values. */
  lemma BelowCountOrder(xs: seq<Value>, x: Value, y: Value)
    requires Present(xs) && x in xs && y in xs
    ensures Less(x, y) <==> |ValuesBelow(xs, x)| < |ValuesBelow(xs, y)|
    ensures x == y <==> |ValuesBelow(xs, x)| == |ValuesBelow(xs, y)|
  {
    BelowCount(xs, x);
    BelowCount(xs, y);
    RankOrder(SortedDistinct(xs), x, y);
  }

  /** Equal inputs give equal outputs. With a non-empty unit and `min >= 0`
      an element with fewer distinct values below it (by `BelowCountOrder`,
      a smaller element) gets a shorter output, and different inputs get
      outputs of different lengths. */
  lemma ReduceUnitsOrder(xs: seq<Value>, unit: string, min: int, i: nat, j: nat)
    requires Present(xs) && i < |xs| && j < |xs|
    ensures xs[i] == xs[j] ==> ReduceUnits(xs, unit, min)[i] == ReduceUnits(xs, unit, min)[j]
    ensures unit != "" && min >= 0 ==>
      (|ValuesBelow(xs, xs[i])| < |ValuesBelow(xs, xs[j])| <==>
       |ReduceUnits(xs, unit, min)[i]| < |ReduceUnits(xs, unit, min)[j]|)
    ensures unit != "" && min >= 0 ==>
      (xs[i] != xs[j] ==> |ReduceUnits(xs, unit, min)[i]| != |ReduceUnits(xs, unit, min)[j]|)
  {
    ReduceUnitsCounts(xs, unit, min, i);
    ReduceUnitsCounts(xs, unit, min, j);
    var ci, cj := |ValuesBelow(xs, xs[i])| + min, |ValuesBelow(xs, xs[j])| + min;
    BelowCountOrder(xs, xs[i], xs[j]);
    if unit != "" && min >= 0 {
      if ci < cj {
        RepeatLonger(unit, ci, cj);
      } else if cj < ci {
        RepeatLonger(unit, cj, ci);
      }
    }
  }
}
