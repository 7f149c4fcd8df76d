/** Cell values and the Python 2 comparisons the operator table applies to them
    (utils.py `_eq` ... `_gte`) together with `str()`. */
module Values {

  /** A table cell or a query literal: an integer, a string, or the missing
      value pandas stores as NaN. */
  datatype Value = Int(i: int) | Str(s: string) | Missing

  /** Python 2 string ordering: character by character, a proper prefix first. */
  predicate LexLess(s: string, t: string)
  {
    if |t| == 0 then false
    else if |s| == 0 then true
    else if s[0] != t[0] then s[0] < t[0]
    else LexLess(s[1..], t[1..])
  }

  /** `item == value`: NaN equals nothing, an int never equals a string. */
  predicate Equal(a: Value, b: Value)
  {
    if a.Int? && b.Int? then a.i == b.i
    else a.Str? && b.Str? && a.s == b.s
  }

  /** `item != value` */
  predicate NotEqual(a: Value, b: Value)
  {
    !Equal(a, b)
  }

  /** `item < value` under Python 2: numbers (NaN included) sort before
      strings across types; any comparison of NaN with a number is false. */
  predicate Less(a: Value, b: Value)
  {
    if a.Int? && b.Int? then a.i < b.i
    else if a.Str? && b.Str? then LexLess(a.s, b.s)
    else !a.Str? && b.Str?
  }

  /** `item <= value` */
  predicate LessEq(a: Value, b: Value)
  {
    if a.Int? && b.Int? then a.i <= b.i
    else if a.Str? && b.Str? then a.s == b.s || LexLess(a.s, b.s)
    else !a.Str? && b.Str?
  }

  /** `item > value` */
  predicate Greater(a: Value, b: Value)
  {
    if a.Int? && b.Int? then a.i > b.i
    else if a.Str? && b.Str? then LexLess(b.s, a.s)
    else a.Str? && !b.Str?
  }

  /** `item >= value` */
  predicate GreaterEq(a: Value, b: Value)
  {
    if a.Int? && b.Int? then a.i >= b.i
    else if a.Str? && b.Str? then a.s == b.s || LexLess(b.s, a.s)
    else a.Str? && !b.Str?
  }

  function DigitChar(d: nat): char
    requires d < 10
  {
    "0123456789"[d]
  }

  function Digits(n: nat): (r: string)
    ensures |r| > 0
    decreases n
  {
    if n < 10 then [DigitChar(n)] else Digits(n / 10) + [DigitChar(n % 10)]
  }

  /** `str(v)`: decimal digits for an int, the string itself, "nan" for NaN. */
  function Show(v: Value): string
  {
    match v
    case Int(i) => if i < 0 then "-" + Digits(-i) else Digits(i)
    case Str(s) => s
    case Missing => "nan"
  }

  lemma {:induction false} LexLessIrreflexive(s: string)
    ensures !LexLess(s, s)
  {
    if |s| > 0 {
      LexLessIrreflexive(s[1..]);
    }
  }

  lemma {:induction false} LexLessAsymmetric(s: string, t: string)
    ensures !(LexLess(s, t) && LexLess(t, s))
  {
    if |s| > 0 && |t| > 0 && s[0] == t[0] {
      LexLessAsymmetric(s[1..], t[1..]);
    }
  }

  lemma {:induction false} LexLessTransitive(s: string, t: string, u: string)
    requires LexLess(s, t) && LexLess(t, u)
    ensures LexLess(s, u)
  {
    if |s| > 0 && s[0] == t[0] && t[0] == u[0] {
      LexLessTransitive(s[1..], t[1..], u[1..]);
    }
  }

  lemma {:induction false} LexLessTotal(s: string, t: string)
    ensures s == t || LexLess(s, t) || LexLess(t, s)
  {
    if |s| > 0 && |t| > 0 && s[0] == t[0] {
      LexLessTotal(s[1..], t[1..]);
      if s[1..] == t[1..] {
        assert s == [s[0]] + s[1..] && t == [t[0]] + t[1..];
      }
    }
  }

  /** The six comparisons agree with each other as Python 2 promises:
      `<=` is `<` or `==`, `>` and `>=` are the mirrored `<` and `<=`,
      and `!=` is the negation of `==`. */
  lemma ComparisonsConsistent(a: Value, b: Value)
    ensures LessEq(a, b) <==> Less(a, b) || Equal(a, b)
    ensures Greater(a, b) <==> Less(b, a)
    ensures GreaterEq(a, b) <==> LessEq(b, a)
    ensures NotEqual(a, b) <==> !Equal(a, b)
  {
  }

  /** `<` is a strict order on values; on non-missing values it is total:
      exactly one of `a < b`, `a == b`, `b < a` holds. */
  lemma LessIsStrictOrder(a: Value, b: Value, c: Value)
    ensures !Less(a, a)
    ensures !(Less(a, b) && Less(b, a))
    ensures Less(a, b) && Less(b, c) ==> Less(a, c)
    ensures a != Missing && b != Missing ==> Equal(a, b) || Less(a, b) || Less(b, a)
  {
    if a.Str? {
      LexLessIrreflexive(a.s);
    }
    if a.Str? && b.Str? {
      LexLessAsymmetric(a.s, b.s);
      LexLessTotal(a.s, b.s);
    }
    if a.Str? && b.Str? && c.Str? && LexLess(a.s, b.s) && LexLess(b.s, c.s) {
      LexLessTransitive(a.s, b.s, c.s);
    }
  }

  /** NaN is never equal to anything, itself included, and orders below no number. */
  lemma MissingComparisons(v: Value)
    ensures !Equal(Missing, v) && !Equal(v, Missing) && NotEqual(Missing, Missing)
    ensures v.Int? ==> !Less(Missing, v) && !Less(v, Missing)
  {
  }
}
