/** The statistics helpers of lib/stats.ts, over exact reals. A result of `None`
    stands for JavaScript's NaN. */
module Stats {
  import opened Options
  import opened Seqs
  import opened Runtime

  /** `values.reduce((a, b) => a + b, 0)`: a left-to-right sum. */
  function Sum(v: seq<real>): real
  {
    if |v| == 0 then 0.0 else Sum(v[..|v| - 1]) + v[|v| - 1]
  }

  /** `mean`: NaN for no values, otherwise the sum divided by the count. */
  function Mean(v: seq<real>): (m: Option<real>)
    ensures m.None? <==> |v| == 0
  {
    if |v| == 0 then None else Some(Sum(v) / |v| as real)
  }

  lemma {:induction false} SumBounds(v: seq<real>, lo: real, hi: real)
    requires forall i :: 0 <= i < |v| ==> lo <= v[i] <= hi
    ensures lo * |v| as real <= Sum(v) <= hi * |v| as real
  {
    if |v| > 0 {
      SumBounds(v[..|v| - 1], lo, hi);
      assert lo * |v| as real == lo * (|v| - 1) as real + lo;
      assert hi * |v| as real == hi * (|v| - 1) as real + hi;
    }
  }

  lemma DivisionBounds(a: real, n: real, lo: real, hi: real)
    requires n > 0.0 && lo * n <= a <= hi * n
    ensures lo <= a / n <= hi
  {
    var q := a / n;
    assert q * n == a;
  }

  /** The mean of values within `[lo, hi]` lies within `[lo, hi]`. */
  lemma MeanBounds(v: seq<real>, lo: real, hi: real)
    requires |v| > 0
    requires forall i :: 0 <= i < |v| ==> lo <= v[i] <= hi
    ensures lo <= Mean(v).value <= hi
  {
    SumBounds(v, lo, hi);
    DivisionBounds(Sum(v), |v| as real, lo, hi);
  }

  /** The mean of a list holding a single value `c` is `c`. */
  lemma MeanOfConstant(v: seq<real>, c: real)
    requires |v| > 0
    requires forall i :: 0 <= i < |v| ==> v[i] == c
    ensures Mean(v) == Some(c)
  {
    MeanBounds(v, c, c);
  }

  predicate Sorted(s: seq<real>)
  {
    forall i, j :: 0 <= i < j < |s| ==> s[i] <= s[j]
  }

  function Insert(x: real, s: seq<real>): (r: seq<real>)
    requires Sorted(s)
    ensures Sorted(r)
    ensures multiset(r) == multiset(s) + multiset{x}
    ensures |r| == |s| + 1 && (r[0] == x || (|s| > 0 && r[0] == s[0]))
  {
    if |s| == 0 then [x]
    else if x <= s[0] then
      ConsSorted(x, s);
      [x] + s
    else
      SortedTail(s);
      var t := Insert(x, s[1..]);
      assert s[0] <= t[0] by {
        if |s| > 1 { assert s[0] <= s[1..][0]; }
      }
      ConsSorted(s[0], t);
      assert s == [s[0]] + s[1..];
      ConsMultiset(s[0], s[1..]);
      ConsMultiset(s[0], t);
      [s[0]] + t
  }

  lemma SortedTail(s: seq<real>)
    requires Sorted(s) && |s| > 0
    ensures Sorted(s[1..])
  {
  }

  lemma ConsMultiset(c: real, s: seq<real>)
    ensures multiset([c] + s) == multiset{c} + multiset(s)
  {
  }

  lemma ConsSorted(x: real, t: seq<real>)
    requires Sorted(t) && |t| > 0 && x <= t[0]
    ensures Sorted([x] + t)
  {
    var r := [x] + t;
    forall i, j | 0 <= i < j < |r| ensures r[i] <= r[j] {
      if i == 0 {
        assert t[0] <= t[j - 1];
      } else {
        assert r[i] == t[i - 1] && r[j] == t[j - 1];
      }
    }
  }

  /** `[...values].sort((a, b) => a - b)`: the ascending arrangement of the values. */
  function SortAscending(v: seq<real>): (r: seq<real>)
    ensures Sorted(r)
    ensures multiset(r) == multiset(v)
  {
    if |v| == 0 then []
    else
      assert v == [v[0]] + v[1..];
      Insert(v[0], SortAscending(v[1..]))
  }

  /** Two ascending sequences with the same elements are equal: sorting a copy
      depends on nothing but the multiset of the values. */
  lemma {:induction false} SortedUnique(a: seq<real>, b: seq<real>)
    requires Sorted(a) && Sorted(b) && multiset(a) == multiset(b)
    ensures a == b
    decreases |a|
  {
    assert |a| == |multiset(a)| == |multiset(b)| == |b|;
    if |a| > 0 {
      SortedHeads(a, b);
      SameTails(a, b);
      SortedUnique(a[1..], b[1..]);
      assert a == [a[0]] + a[1..];
      assert b == [b[0]] + b[1..];
    }
  }

  lemma SortedHeads(a: seq<real>, b: seq<real>)
    requires Sorted(a) && Sorted(b) && multiset(a) == multiset(b) && |a| > 0
    ensures |b| > 0 && a[0] == b[0]
  {
    assert a[0] in multiset(b);
    var i :| 0 <= i < |b| && b[i] == a[0];
    assert b[0] in multiset(a);
    var j :| 0 <= j < |a| && a[j] == b[0];
  }

  lemma SameTails(a: seq<real>, b: seq<real>)
    requires multiset(a) == multiset(b) && |a| > 0 && |b| > 0 && a[0] == b[0]
    ensures multiset(a[1..]) == multiset(b[1..])
  {
    assert a == [a[0]] + a[1..];
    assert b == [b[0]] + b[1..];
    assert multiset(a[1..]) == multiset(a) - multiset{a[0]};
    assert multiset(b[1..]) == multiset(b) - multiset{b[0]};
  }

  /** `median`: NaN for no values; otherwise the middle of the sorted values, or the
      average of the two middle ones for an even count. */
  function Median(v: seq<real>): (m: Option<real>)
    ensures m.None? <==> |v| == 0
  {
    if |v| == 0 then None
    else
      var s := SortAscending(v);
      assert |s| == |multiset(s)| == |v|;
      Some(Middle(s))
  }

  /** The middle element of `s`, or the average of the two middle ones. */
  function Middle(s: seq<real>): real
    requires |s| > 0
  {
    var mid := |s| / 2;
    if |s| % 2 == 0 then (s[mid - 1] + s[mid]) / 2.0 else s[mid]
  }

  /** The median depends only on the values, not on their order. */
  lemma MedianPermutationInvariant(v: seq<real>, w: seq<real>)
    requires multiset(v) == multiset(w)
    ensures Median(v) == Median(w)
  {
    var a := SortAscending(v);
    var b := SortAscending(w);
    SortedUnique(a, b);
    assert a == b;
  }

  /** On values already in ascending order the median is the middle element, or the
      average of the two middle ones. */
  lemma MedianOfSorted(v: seq<real>)
    requires |v| > 0 && Sorted(v)
    ensures Median(v) == Some(Middle(v))
  {
    SortedUnique(SortAscending(v), v);
  }

  /** The median of values within `[lo, hi]` lies within `[lo, hi]`, and for an odd
      count it is one of the values. */
  lemma MedianBounds(v: seq<real>, lo: real, hi: real)
    requires |v| > 0
    requires forall i :: 0 <= i < |v| ==> lo <= v[i] <= hi
    ensures lo <= Median(v).value <= hi
    ensures |v| % 2 == 1 ==> Median(v).value in v
  {
    var s := SortAscending(v);
    assert |s| == |multiset(s)| == |v|;
    forall i | 0 <= i < |s| ensures lo <= s[i] <= hi && s[i] in v {
      assert s[i] in multiset(v);
    }
  }

  /** The index, within `ds`, of the first element of highest count in `m`. */
  function BestIndex<T>(ds: seq<T>, m: multiset<T>): (p: nat)
    requires |ds| > 0
    ensures p < |ds|
    ensures forall i :: 0 <= i < |ds| ==> m[ds[i]] <= m[ds[p]]
    ensures forall i :: 0 <= i < p ==> m[ds[i]] < m[ds[p]]
    decreases |ds|
  {
    if |ds| == 1 then 0
    else
      var q := BestIndex(ds[..|ds| - 1], m);
      if m[ds[|ds| - 1]] > m[ds[q]] then |ds| - 1 else q
  }

  /** `mode`: undefined for no values; otherwise the value that a scan of the
      distinct values in first-seen order, replacing the best only on a strictly
      higher count, ends with. */
  function ModeOf<T(==, !new)>(vs: seq<T>): (r: Option<T>)
    ensures r.None? <==> |vs| == 0
  {
    if |vs| == 0 then None
    else
      var ds := Distinct(vs);
      assert vs[0] in ds;
      Some(ds[BestIndex(ds, multiset(vs))])
  }

  /** The mode is one of the values and no value occurs more often. */
  lemma ModeIsMostFrequent<T(!new)>(vs: seq<T>)
    requires |vs| > 0
    ensures ModeOf(vs).value in vs
    ensures forall y :: multiset(vs)[y] <= multiset(vs)[ModeOf(vs).value]
  {
    var ds := Distinct(vs);
    var x := ModeOf(vs).value;
    forall y ensures multiset(vs)[y] <= multiset(vs)[x] {
      if y in vs {
        assert y in ds;
        var i :| 0 <= i < |ds| && ds[i] == y;
      }
    }
  }

  /** Among values of the highest count the mode is the one seen first. */
  lemma ModeFirstEncountered<T(!new)>(vs: seq<T>, i: nat)
    requires i < |vs|
    requires multiset(vs)[vs[i]] == multiset(vs)[ModeOf(vs).value]
    ensures FirstIndex(vs, ModeOf(vs).value) <= i
  {
    var ds := Distinct(vs);
    var m := multiset(vs);
    var p := BestIndex(ds, m);
    var x := ds[p];
    assert ModeOf(vs).value == x;
    var y := vs[i];
    assert y in ds;
    var q := FirstIndex(ds, y);
    assert m[ds[q]] == m[x];
    assert p <= q;
    assert FirstIndex(vs, y) <= i;
    if p < q {
      DistinctFirstSeenOrder(vs, p, q);
    }
  }

  /** `mode` as the code runs it: count every value in a Map (whose iteration order
      is insertion order), then keep the first entry of strictly highest count. */
  method Mode<T(==, !new)>(values: seq<T>) returns (best: Option<T>)
    ensures best == ModeOf(values)
  {
    if |values| == 0 {
      return None;
    }
    var freq, order := Frequencies(values);
    ghost var m := multiset(values);
    var bestCount: int := -1;
    best := None;
    for j := 0 to |order|
      invariant j == 0 ==> best.None? && bestCount == -1
      invariant j > 0 ==> best == Some(order[BestIndex(order[..j], m)]) && bestCount == m[best.value]
    {
      var v := order[j];
      BestIndexSnoc(order, j, m);
      var c := freq[v];
      if c > bestCount {
        best := Some(v);
        bestCount := c;
      }
    }
    assert values[0] in order;
    assert order[..|order|] == order;
    ModeOfNonEmpty(values);
  }

  /** The first loop of `mode`: the Map from each value to its number of occurrences,
      with the Map's keys in insertion order. */
  method Frequencies<T(==, !new)>(values: seq<T>) returns (freq: map<T, nat>, order: seq<T>)
    ensures order == Distinct(values)
    ensures forall v :: v in order ==> v in freq && freq[v] == multiset(values)[v]
  {
    freq := map[];
    order := [];
    for i := 0 to |values|
      invariant order == Distinct(values[..i])
      invariant forall x :: x in freq <==> x in order
      invariant forall x :: x in freq ==> freq[x] == multiset(values[..i])[x]
    {
      var v := values[i];
      assert values[..i + 1] == values[..i] + [v];
      FrequencyStep(freq, order, values[..i], v);
      if v !in freq {
        order := order + [v];
      }
      freq := freq[v := (if v in freq then freq[v] else 0) + 1];
    }
    assert values[..|values|] == values;
  }

  /** `freq.set(v, (freq.get(v) ?? 0) + 1)` keeps `freq` the occurrence count of
      the values seen so far, with its keys in first-seen order. */
  lemma FrequencyStep<T(!new)>(freq: map<T, nat>, order: seq<T>, pre: seq<T>, v: T)
    requires order == Distinct(pre)
    requires forall x :: x in freq <==> x in order
    requires forall x :: x in freq ==> freq[x] == multiset(pre)[x]
    ensures var f := freq[v := (if v in freq then freq[v] else 0) + 1];
      var o := if v in freq then order else order + [v];
      && o == Distinct(pre + [v])
      && (forall x :: x in f <==> x in o)
      && (forall x :: x in f ==> f[x] == multiset(pre + [v])[x])
  {
    DistinctSnoc(pre, v);
    var f := freq[v := (if v in freq then freq[v] else 0) + 1];
    var m := multiset(pre + [v]);
    assert m == multiset(pre) + multiset{v};
    if v !in freq {
      assert v !in pre;
      assert f[v] == 1 == m[v];
    } else {
      assert f[v] == freq[v] + 1 == m[v];
    }
    forall x | x in f ensures f[x] == m[x] {
      if x != v {
        assert f[x] == freq[x] == multiset(pre)[x] == m[x];
      }
    }
  }

  lemma ModeOfNonEmpty<T(!new)>(vs: seq<T>)
    requires |vs| > 0
    ensures |Distinct(vs)| > 0
    ensures ModeOf(vs) == Some(Distinct(vs)[BestIndex(Distinct(vs), multiset(vs))])
  {
    assert vs[0] in Distinct(vs);
  }

  lemma DistinctSnoc<T(!new)>(s: seq<T>, x: T)
    ensures Distinct(s + [x]) == if x in Distinct(s) then Distinct(s) else Distinct(s) + [x]
  {
    assert (s + [x])[..|s|] == s;
  }

  lemma BestIndexSnoc<T>(ds: seq<T>, j: nat, m: multiset<T>)
    requires j < |ds|
    ensures BestIndex(ds[..j + 1], m) ==
      if j == 0 then 0
      else if m[ds[j]] > m[ds[BestIndex(ds[..j], m)]] then j
      else BestIndex(ds[..j], m)
  {
    assert ds[..j + 1][..j] == ds[..j];
  }

  function Square(x: real): real { x * x }

  function SquaredDeviations(v: seq<real>, m: real): (d: seq<real>)
    ensures |d| == |v|
    ensures forall i :: 0 <= i < |v| ==> d[i] == Square(v[i] - m)
  {
    seq(|v|, i requires 0 <= i < |v| => Square(v[i] - m))
  }

  /** The population variance: the mean of the squared deviations from the mean. */
  function Variance(v: seq<real>): real
    requires |v| > 0
  {
    Mean(SquaredDeviations(v, Mean(v).value)).value
  }

  /** `stddev`: 0 for at most one value, otherwise the square root of the
      population variance. */
  function Stddev(host: Host, v: seq<real>): real
  {
    if |v| <= 1 then 0.0 else host.sqrt(Variance(v))
  }

  predicate Constant(v: seq<real>)
  {
    forall i, j :: 0 <= i < |v| && 0 <= j < |v| ==> v[i] == v[j]
  }

  lemma {:induction false} SumNonNegative(v: seq<real>)
    requires forall i :: 0 <= i < |v| ==> v[i] >= 0.0
    ensures Sum(v) >= 0.0
  {
    if |v| > 0 {
      SumNonNegative(v[..|v| - 1]);
      assert forall i :: 0 <= i < |v| - 1 ==> v[..|v| - 1][i] == v[i];
    }
  }

  lemma DivisionSign(a: real, n: real)
    requires a >= 0.0 && n > 0.0
    ensures a / n >= 0.0
    ensures a / n == 0.0 <==> a == 0.0
  {
    var q := a / n;
    assert q * n == a;
  }

  lemma SquareOfPositive(e: real)
    requires e > 0.0
    ensures Square(e) > 0.0
  {
    calc {
      Square(e);
      e * e;
    >
      0.0;
    }
  }

  lemma SquareOfNegative(e: real)
    requires e < 0.0
    ensures Square(e) > 0.0
  {
    calc {
      Square(e);
      e * e;
    >
      0.0;
    }
  }

  /** A square is positive exactly when its base is non-zero. */
  lemma SquarePositive(e: real)
    ensures Square(e) >= 0.0
    ensures Square(e) > 0.0 <==> e != 0.0
  {
    if e > 0.0 {
      SquareOfPositive(e);
    } else if e < 0.0 {
      SquareOfNegative(e);
    }
  }

  /** A sum of non-negative terms one of which is positive is positive. */
  lemma {:induction false} SumPositive(v: seq<real>, k: nat)
    requires forall i :: 0 <= i < |v| ==> v[i] >= 0.0
    requires k < |v| && v[k] > 0.0
    ensures Sum(v) > 0.0
  {
    var init := v[..|v| - 1];
    assert forall i :: 0 <= i < |init| ==> init[i] == v[i];
    if k == |v| - 1 {
      SumNonNegative(init);
    } else {
      SumPositive(init, k);
    }
  }

  /** The variance is never negative, and it is zero exactly for a constant list. */
  lemma VarianceZeroIffConstant(v: seq<real>)
    requires |v| > 0
    ensures Variance(v) >= 0.0
    ensures Variance(v) == 0.0 <==> Constant(v)
  {
    var m := Mean(v).value;
    var d := SquaredDeviations(v, m);
    assert Variance(v) == Sum(d) / |d| as real;
    if Constant(v) {
      ConstantDeviations(v);
      SumBounds(d, 0.0, 0.0);
      DivisionSign(Sum(d), |d| as real);
    } else {
      var k := NonConstantWitness(v, m);
      SquaresNonNegative(v, m);
      SquarePositive(v[k] - m);
      SumPositive(d, k);
      DivisionSign(Sum(d), |d| as real);
    }
  }

  lemma SquaresNonNegative(v: seq<real>, m: real)
    ensures forall i :: 0 <= i < |v| ==> SquaredDeviations(v, m)[i] >= 0.0
  {
    var d := SquaredDeviations(v, m);
    forall i | 0 <= i < |d| ensures d[i] >= 0.0 {
      SquarePositive(v[i] - m);
    }
  }

  lemma ConstantDeviations(v: seq<real>)
    requires |v| > 0 && Constant(v)
    ensures forall i :: 0 <= i < |v| ==> SquaredDeviations(v, Mean(v).value)[i] == 0.0
  {
    MeanOfConstant(v, v[0]);
  }

  /** Some value of a non-constant list differs from any given number. */
  lemma NonConstantWitness(v: seq<real>, m: real) returns (k: nat)
    requires !Constant(v)
    ensures k < |v| && v[k] != m
  {
    var i, j :| 0 <= i < |v| && 0 <= j < |v| && v[i] != v[j];
    k := if v[i] != m then i else j;
  }

  /** The standard deviation is never negative, and it is zero exactly when there is
      at most one value or all values are equal. */
  lemma StddevZeroIffConstant(host: Host, v: seq<real>)
    requires SqrtSpec(host)
    ensures Stddev(host, v) >= 0.0
    ensures Stddev(host, v) == 0.0 <==> (|v| <= 1 || Constant(v))
  {
    if |v| > 1 {
      VarianceZeroIffConstant(v);
    }
  }

  /** `zScores`: every value's distance from the mean in standard deviations, or all
      zeros when the standard deviation is zero. */
  function ZScores(host: Host, v: seq<real>): (z: seq<real>)
    ensures |z| == |v|
  {
    var s := Stddev(host, v);
    if s == 0.0 then seq(|v|, i => 0.0)
    else
      assert |v| > 1;
      Standardized(v, Mean(v).value, s)
  }

  /** A constant column has only zero scores, so at a non-negative threshold it never
      flags a value. */
  lemma ConstantColumnNeverFlags(host: Host, v: seq<real>, t: real)
    requires SqrtSpec(host)
    requires Constant(v)
    requires t >= 0.0
    ensures forall i :: 0 <= i < |v| ==> ZScores(host, v)[i] == 0.0
    ensures forall i :: 0 <= i < |v| ==> !(Abs(ZScores(host, v)[i]) > t)
  {
    StddevZeroIffConstant(host, v);
  }

  function Abs(x: real): (r: real)
    ensures r >= 0.0 && (r == x || r == -x)
  {
    if x < 0.0 then -x else x
  }

  /** Every value's deviation from `m` in units of `s`. */
  function Standardized(v: seq<real>, m: real, s: real): (z: seq<real>)
    requires s != 0.0
    ensures |z| == |v|
    ensures forall i :: 0 <= i < |v| ==> z[i] == (v[i] - m) / s
  {
    seq(|v|, i requires 0 <= i < |v| => (v[i] - m) / s)
  }

  lemma DivisionAdds(a: real, b: real, s: real)
    requires s != 0.0
    ensures a / s + b / s == (a + b) / s
  {
  }

  lemma {:induction false} SumOfStandardized(v: seq<real>, m: real, s: real)
    requires s != 0.0
    ensures Sum(Standardized(v, m, s)) == (Sum(v) - |v| as real * m) / s
  {
    var z := Standardized(v, m, s);
    if |v| > 0 {
      var p := v[..|v| - 1];
      assert z[..|z| - 1] == Standardized(p, m, s);
      SumOfStandardized(p, m, s);
      var a := Sum(p) - |p| as real * m;
      var b := v[|v| - 1] - m;
      DivisionAdds(a, b, s);
      assert Sum(z) == a / s + b / s;
      assert a + b == Sum(v) - |v| as real * m;
    }
  }

  /** When the standard deviation is non-zero the scores are centred: they sum to 0. */
  lemma ZScoresSumToZero(host: Host, v: seq<real>)
    requires Stddev(host, v) != 0.0
    ensures Sum(ZScores(host, v)) == 0.0
  {
    ZScoresStandardized(host, v);
    CentredAtMean(v, Stddev(host, v));
  }

  /** Deviations from the mean, in any non-zero unit, sum to 0. */
  lemma CentredAtMean(v: seq<real>, s: real)
    requires |v| > 0 && s != 0.0
    ensures Sum(Standardized(v, Mean(v).value, s)) == 0.0
  {
    var m := Mean(v).value;
    SumOfStandardized(v, m, s);
    MeanTimesCount(v);
    CentredSum(Sum(v), |v| as real * m, s);
  }

  /** With a non-zero deviation the scores are the standardized values. */
  lemma ZScoresStandardized(host: Host, v: seq<real>)
    requires Stddev(host, v) != 0.0
    ensures |v| > 1 && ZScores(host, v) == Standardized(v, Mean(v).value, Stddev(host, v))
  {
  }

  lemma MeanTimesCount(v: seq<real>)
    requires |v| > 0
    ensures |v| as real * Mean(v).value == Sum(v)
  {
  }

  lemma CentredSum(a: real, b: real, s: real)
    requires s != 0.0 && a == b
    ensures (a - b) / s == 0.0
  {
  }
}
