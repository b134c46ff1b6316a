/** Nearest-rank percentiles and the cap-coverage curve of the validation gate, in exact arithmetic. */
module NearestRank {
  import opened Common
  import opened Bytes

  /** A percentile as the fraction `num / den`, above 0 and at most 1. */
  datatype Fraction = Fraction(num: nat, den: nat)
  {
    predicate IsPercentile() { 0 < num <= den }

    predicate AtMost(other: Fraction) { num * other.den <= other.num * den }
  }

  // ------------------------------------------------------------------ sorting

  function Insert(x: int, s: seq<int>): seq<int> {
    if s == [] || x <= s[0] then [x] + s else [s[0]] + Insert(x, s[1..])
  }

  /** `sorted(values)`. */
  function Sort(values: seq<int>): seq<int> {
    if values == [] then [] else Insert(values[0], Sort(values[1..]))
  }

  predicate IsSorted(s: seq<int>) {
    forall i, j | 0 <= i < j < |s| :: s[i] <= s[j]
  }

  lemma {:induction false} InsertKeepsElements(x: int, s: seq<int>)
    ensures multiset(Insert(x, s)) == multiset(s) + multiset{x}
  {
    if s != [] && x > s[0] {
      InsertKeepsElements(x, s[1..]);
      assert s == [s[0]] + s[1..];
    }
  }

  lemma AtLeastAll(m: int, x: int, s: seq<int>)
    requires m <= x && forall i | 0 <= i < |s| :: m <= s[i]
    ensures forall i | 0 <= i < |Insert(x, s)| :: m <= Insert(x, s)[i]
  {
    var t := Insert(x, s);
    InsertKeepsElements(x, s);
    forall i | 0 <= i < |t|
      ensures m <= t[i]
    {
      assert t[i] in multiset(t);
      assert t[i] == x || t[i] in s;
    }
  }

  lemma SortedCons(m: int, s: seq<int>)
    requires IsSorted(s) && forall i | 0 <= i < |s| :: m <= s[i]
    ensures IsSorted([m] + s)
  {
  }

  lemma {:induction false} InsertSorts(x: int, s: seq<int>)
    requires IsSorted(s)
    ensures IsSorted(Insert(x, s))
  {
    if s == [] || x <= s[0] {
      SortedCons(x, s);
    } else {
      InsertSorts(x, s[1..]);
      AtLeastAll(s[0], x, s[1..]);
      SortedCons(s[0], Insert(x, s[1..]));
    }
  }

  lemma {:induction false} SortSorts(values: seq<int>)
    ensures IsSorted(Sort(values)) && multiset(Sort(values)) == multiset(values)
  {
    if values != [] {
      SortSorts(values[1..]);
      InsertSorts(values[0], Sort(values[1..]));
      InsertKeepsElements(values[0], Sort(values[1..]));
      assert values == [values[0]] + values[1..];
    }
  }

  // ----------------------------------------------------------------- counting

  /** `sum(value <= cap for value in values)`. */
  function Covered(values: seq<int>, cap: int): (n: nat)
    ensures n <= |values|
  {
    if values == [] then 0 else (if values[0] <= cap then 1 else 0) + Covered(values[1..], cap)
  }

  lemma {:induction false} CoveredByInsert(x: int, s: seq<int>, cap: int)
    ensures Covered(Insert(x, s), cap) == Covered(s, cap) + if x <= cap then 1 else 0
    ensures |Insert(x, s)| == |s| + 1
  {
    if s == [] || x <= s[0] {
      assert ([x] + s)[1..] == s;
    } else {
      CoveredByInsert(x, s[1..], cap);
      assert Insert(x, s)[1..] == Insert(x, s[1..]);
    }
  }

  lemma {:induction false} SortingKeepsCount(values: seq<int>, cap: int)
    ensures Covered(Sort(values), cap) == Covered(values, cap) && |Sort(values)| == |values|
  {
    if values != [] {
      SortingKeepsCount(values[1..], cap);
      CoveredByInsert(values[0], Sort(values[1..]), cap);
    }
  }

  /** Of a sorted list the covered values are the first ones. */
  lemma {:induction false} CoveredIsPrefix(s: seq<int>, cap: int, k: nat)
    requires IsSorted(s) && k < |s|
    ensures s[k] <= cap <==> Covered(s, cap) > k
  {
    if s[0] > cap {
      NothingCovered(s, cap);
    } else if k > 0 {
      CoveredIsPrefix(s[1..], cap, k - 1);
    }
  }

  lemma {:induction false} NothingCovered(s: seq<int>, cap: int)
    requires forall i | 0 <= i < |s| :: s[i] > cap
    ensures Covered(s, cap) == 0
  {
    if s != [] {
      NothingCovered(s[1..], cap);
    }
  }

  // -------------------------------------------------------------- nearest rank

  function CeilDiv(a: nat, b: nat): nat
    requires b > 0
  {
    (a + b - 1) / b
  }

  lemma CeilDivIs(a: nat, b: nat, n: nat)
    requires b > 0
    ensures CeilDiv(a, b) <= n <==> a <= n * b
  {
    var q := CeilDiv(a, b);
    var r := (a + b - 1) % b;
    assert a + b - 1 == q * b + r;
    if q <= n {
      ProductGrows(q, n, b);
    } else {
      ProductGrows(n + 1, q, b);
      assert (n + 1) * b == n * b + b;
    }
  }

  function Rank(p: Fraction, n: nat): nat
    requires p.den > 0
  {
    Max(1, CeilDiv(p.num * n, p.den))
  }

  lemma RankFits(p: Fraction, n: nat)
    requires p.IsPercentile() && n > 0
    ensures 1 <= Rank(p, n) <= n
  {
    CeilDivIs(p.num * n, p.den, n);
    ProductGrows(p.num, p.den, n);
  }

  function NearestRank(values: seq<int>, p: Fraction): Option<int>
    requires p.IsPercentile()
  {
    if values == [] then None
    else
      var ordered := Sort(values);
      SortingKeepsCount(values, 0);
      RankFits(p, |values|);
      Some(ordered[Rank(p, |values|) - 1])
  }

  /** The percentile is within a cap exactly when the cap covers at least that share of the values. */
  lemma PercentileCapDuality(values: seq<int>, p: Fraction, cap: int)
    requires p.IsPercentile() && values != []
    ensures NearestRank(values, p).value <= cap <==> Covered(values, cap) * p.den >= p.num * |values|
  {
    var n := |values|;
    var ordered := Sort(values);
    SortSorts(values);
    SortingKeepsCount(values, cap);
    RankFits(p, n);
    CoveredIsPrefix(ordered, cap, Rank(p, n) - 1);
    CeilDivIs(p.num * n, p.den, Covered(values, cap));
    CeilDivIs(p.num * n, p.den, 0);
    PositiveProduct(p.num, n);
  }

  lemma PositiveProduct(x: nat, y: nat)
    requires x > 0 && y > 0
    ensures x * y > 0
  {
  }

  /** Without values there is no percentile, and with some there is one. */
  lemma OnlyNothingHasNoPercentile(values: seq<int>, p: Fraction)
    requires p.IsPercentile()
    ensures NearestRank(values, p) == None <==> |values| == 0
  {
  }

  lemma PercentileIsMember(values: seq<int>, p: Fraction)
    requires p.IsPercentile() && values != []
    ensures NearestRank(values, p).value in values
  {
    SortSorts(values);
    RankFits(p, |values|);
    assert NearestRank(values, p).value in multiset(Sort(values));
  }

  lemma PercentileIsMonotone(values: seq<int>, p: Fraction, q: Fraction)
    requires p.IsPercentile() && q.IsPercentile() && p.AtMost(q) && values != []
    ensures NearestRank(values, p).value <= NearestRank(values, q).value
  {
    var n, cap := |values|, NearestRank(values, q).value;
    var covered := Covered(values, cap);
    PercentileCapDuality(values, q, cap);
    PercentileCapDuality(values, p, cap);
    ShareGrows(p, q, n, covered);
  }

  /** A count that is at least the share `q` of `n` is at least any smaller share. */
  lemma ShareGrows(p: Fraction, q: Fraction, n: nat, covered: nat)
    requires q.den > 0 && p.AtMost(q) && covered * q.den >= q.num * n
    ensures covered * p.den >= p.num * n
  {
    ProductGrows(p.num * q.den, q.num * p.den, n);
    ProductGrows(q.num * n, covered * q.den, p.den);
    assert p.num * q.den * n == (p.num * n) * q.den;
    assert q.num * p.den * n == (q.num * n) * p.den;
    assert (covered * q.den) * p.den == (covered * p.den) * q.den;
    CancelFactor(p.num * n, covered * p.den, q.den);
  }

  lemma CancelFactor(x: nat, y: nat, n: nat)
    requires n > 0 && x * n <= y * n
    ensures x <= y
  {
    if x > y {
      ProductGrows(y + 1, x, n);
    }
  }

  lemma PercentileIgnoresOrder(xs: seq<int>, ys: seq<int>, p: Fraction)
    requires p.IsPercentile() && multiset(xs) == multiset(ys)
    ensures NearestRank(xs, p) == NearestRank(ys, p)
  {
    SortSorts(xs);
    SortSorts(ys);
    SortedIsUnique(Sort(xs), Sort(ys));
    SortingKeepsCount(xs, 0);
    SortingKeepsCount(ys, 0);
  }

  lemma SameHead(s: seq<int>, t: seq<int>)
    requires IsSorted(s) && IsSorted(t) && multiset(s) == multiset(t) && s != [] && t != []
    ensures s[0] == t[0]
  {
    assert s[0] in multiset(s) && t[0] in multiset(t);
    assert s[0] in t && t[0] in s;
  }

  lemma TailElements(s: seq<int>)
    requires s != []
    ensures multiset(s[1..]) == multiset(s) - multiset{s[0]}
  {
    assert s == [s[0]] + s[1..];
  }

  lemma {:induction false} SortedIsUnique(s: seq<int>, t: seq<int>)
    requires IsSorted(s) && IsSorted(t) && multiset(s) == multiset(t)
    ensures s == t
  {
    assert |s| == |multiset(s)| == |t|;
    if s != [] {
      SameHead(s, t);
      TailElements(s);
      TailElements(t);
      SortedIsUnique(s[1..], t[1..]);
      assert s == [s[0]] + s[1..] && t == [t[0]] + t[1..];
    }
  }

  // ---------------------------------------------------------------- the curve

  datatype CapPoint = CapPoint(cap: int, covered: nat, total: nat)

  function Curve(rounds: seq<int>, caps: seq<int>): seq<CapPoint> {
    seq(|caps|, i requires 0 <= i < |caps| => CapPoint(caps[i], Covered(rounds, caps[i]), |rounds|))
  }

  lemma {:induction false} CoveredAppend(values: seq<int>, x: int, cap: int)
    ensures Covered(values + [x], cap) == Covered(values, cap) + if x <= cap then 1 else 0
  {
    if values == [] {
      assert [] + [x] == [x];
    } else {
      assert (values + [x])[1..] == values[1..] + [x];
      CoveredAppend(values[1..], x, cap);
    }
  }

  method CapCurve(rounds: seq<int>, caps: seq<int>) returns (curve: seq<CapPoint>)
    ensures curve == Curve(rounds, caps)
  {
    curve := [];
    for i := 0 to |caps|
      invariant curve == Curve(rounds, caps[..i])
    {
      var covered := 0;
      for k := 0 to |rounds|
        invariant covered == Covered(rounds[..k], caps[i])
      {
        CoveredAppend(rounds[..k], rounds[k], caps[i]);
        assert rounds[..k] + [rounds[k]] == rounds[..k + 1];
        covered := covered + if rounds[k] <= caps[i] then 1 else 0;
      }
      assert rounds[..|rounds|] == rounds;
      assert caps[..i + 1] == caps[..i] + [caps[i]];
      curve := curve + [CapPoint(caps[i], covered, |rounds|)];
    }
    assert caps[..|caps|] == caps;
  }

  /** Read off the curve: the smallest caps whose coverage reaches `p` are those at or above the percentile. */
  lemma CurveShowsPercentile(rounds: seq<int>, caps: seq<int>, p: Fraction, i: nat)
    requires p.IsPercentile() && rounds != [] && i < |caps|
    ensures var point := Curve(rounds, caps)[i];
            point.cap == caps[i] && point.total == |rounds| &&
            (p.AtMost(Fraction(point.covered, point.total)) <==> NearestRank(rounds, p).value <= point.cap)
  {
    PercentileCapDuality(rounds, p, caps[i]);
  }
}
