/**
 * IQR outlier trimming: the quartiles of one numeric column by linear
 * interpolation (pandas' default `Series.quantile`), the fences 1.5 IQR
 * beyond them, and the selection of the rows inside the fences.
 */
module Outliers {
  import opened Wrappers
  import opened Seqs

  predicate Sorted(s: seq<real>) {
    forall i, j :: 0 <= i <= j < |s| ==> s[i] <= s[j]
  }

  function InsertValue(x: real, s: seq<real>): (r: seq<real>)
    requires Sorted(s)
    ensures |r| == |s| + 1
    ensures Sorted(r)
    ensures multiset(r) == multiset(s) + multiset{x}
  {
    if |s| == 0 || x <= s[0] then [x] + s
    else
      var rest := InsertValue(x, s[1..]);
      assert s == [s[0]] + s[1..];
      LowerBoundOfInsert(s[0], x, s[1..], rest);
      [s[0]] + rest
  }

  lemma LowerBoundOfInsert(low: real, x: real, s: seq<real>, r: seq<real>)
    requires low <= x && forall i :: 0 <= i < |s| ==> low <= s[i]
    requires multiset(r) == multiset(s) + multiset{x}
    ensures forall i :: 0 <= i < |r| ==> low <= r[i]
  {
    forall i | 0 <= i < |r| ensures low <= r[i] {
      assert r[i] in multiset(r);
      if r[i] != x {
        assert r[i] in multiset(s);
      }
    }
  }

  /** The values in ascending order. */
  function SortValues(s: seq<real>): (r: seq<real>)
    ensures |r| == |s|
    ensures Sorted(r)
    ensures multiset(r) == multiset(s)
  {
    if |s| == 0 then []
    else
      assert s == [s[0]] + s[1..];
      InsertValue(s[0], SortValues(s[1..]))
  }

  /** Dropping the smallest value leaves an ascending sequence. */
  lemma SortedTail(a: seq<real>)
    requires Sorted(a) && |a| > 0
    ensures Sorted(a[1..])
  {
  }

  /** Two ascending arrangements of one multiset start with the same (smallest) value. */
  lemma HeadsEqual(a: seq<real>, b: seq<real>)
    requires Sorted(a) && Sorted(b) && multiset(a) == multiset(b) && |a| > 0 && |b| > 0
    ensures a[0] == b[0]
  {
    assert a[0] in multiset(b);
    var i :| 0 <= i < |b| && b[i] == a[0];
    assert b[0] in multiset(a);
    var j :| 0 <= j < |a| && a[j] == b[0];
  }

  /** Removing equal first values from equal multisets leaves equal multisets. */
  lemma TailsSame(a: seq<real>, b: seq<real>)
    requires multiset(a) == multiset(b) && |a| > 0 && |b| > 0 && a[0] == b[0]
    ensures multiset(a[1..]) == multiset(b[1..])
  {
    assert a == [a[0]] + a[1..];
    assert b == [b[0]] + b[1..];
    assert multiset(a) == multiset{a[0]} + multiset(a[1..]);
    assert multiset(b) == multiset{b[0]} + multiset(b[1..]);
    assert multiset(a[1..]) == multiset(a) - multiset{a[0]};
  }

  /** Two sorted arrangements of the same values are the same sequence. */
  lemma {:induction false} SortedUnique(a: seq<real>, b: seq<real>)
    requires Sorted(a) && Sorted(b) && multiset(a) == multiset(b)
    ensures a == b
  {
    assert |a| == |multiset(a)| == |b|;
    if |a| > 0 {
      HeadsEqual(a, b);
      TailsSame(a, b);
      SortedTail(a);
      SortedTail(b);
      SortedUnique(a[1..], b[1..]);
      assert a == [a[0]] + a[1..];
      assert b == [b[0]] + b[1..];
    }
  }

  /** Index of the lower neighbour of the virtual position (n-1)*num/den. */
  function Rank(n: nat, num: nat, den: nat): (i: nat)
    requires 0 < n && 0 < den && num <= den
    ensures i < n
    ensures i * den <= (n - 1) * num < (i + 1) * den
  {
    MulMonotone(n - 1, num, den);
    (n - 1) * num / den
  }

  /** How far past its lower neighbour the virtual position lies, in [0, 1). */
  function Weight(n: nat, num: nat, den: nat): (t: real)
    requires 0 < n && 0 < den && num <= den
    ensures 0.0 <= t < 1.0
    ensures Rank(n, num, den) as real + t == ((n - 1) * num) as real / den as real
  {
    var rest := (n - 1) * num - Rank(n, num, den) * den;
    FractionSplit(Rank(n, num, den), rest, den);
    rest as real / den as real
  }

  /** `(i * d + r) / d` is `i` plus the fraction `r / d`, which lies in [0, 1) when `0 <= r < d`. */
  lemma FractionSplit(i: int, r: int, d: int)
    requires 0 <= r < d
    ensures 0.0 <= r as real / d as real < 1.0
    ensures i as real + r as real / d as real == (i * d + r) as real / d as real
  {
    var x := r as real / d as real;
    assert x * d as real == r as real;
    assert (i as real + x) * d as real == (i * d + r) as real;
  }

  lemma MulMonotone(m: nat, a: nat, b: nat)
    requires a <= b
    ensures m * a <= m * b
  {
  }

  /** The point a fraction `t` of the way from `a` to `b`. */
  function Interpolate(a: real, b: real, t: real): real {
    a + t * (b - a)
  }

  /** The interpolated point lies between its two ends. */
  lemma InterpolateBetween(a: real, b: real, t: real)
    requires a <= b && 0.0 <= t < 1.0
    ensures a <= Interpolate(a, b, t) <= b
  {
    var d := b - a;
    MulLeOne(t, d);
    assert Interpolate(a, b, t) == a + t * d;
  }

  lemma MulLeOne(t: real, d: real)
    requires 0.0 <= t < 1.0 && 0.0 <= d
    ensures 0.0 <= t * d <= d
  {
  }

  lemma InterpolateMonotone(a: real, b: real, t: real, u: real)
    requires a <= b && t <= u
    ensures Interpolate(a, b, t) <= Interpolate(a, b, u)
  {
    MulRealMonotone(b - a, t, u);
  }

  lemma MulRealMonotone(d: real, t: real, u: real)
    requires 0.0 <= d && t <= u
    ensures t * d <= u * d
  {
  }

  /**
   * The quantile of values already in ascending order: interpolate between
   * the neighbours of the virtual position; at the last value there is no
   * upper neighbour.
   */
  function QuantileOfSorted(s: seq<real>, num: nat, den: nat): real
    requires |s| > 0 && 0 < den && num <= den
  {
    var i := Rank(|s|, num, den);
    if i + 1 < |s| then Interpolate(s[i], s[i + 1], Weight(|s|, num, den)) else s[i]
  }

  /**
   * The `num/den` quantile of the values, by linear interpolation on the
   * values in ascending order.
   */
  function Quantile(xs: seq<real>, num: nat, den: nat): real
    requires |xs| > 0 && 0 < den && num <= den
  {
    QuantileOfSorted(SortValues(xs), num, den)
  }

  /** A quantile of sorted values lies between the two neighbours of its position. */
  lemma QuantileOfSortedBetween(s: seq<real>, num: nat, den: nat)
    requires |s| > 0 && 0 < den && num <= den && Sorted(s)
    ensures var i := Rank(|s|, num, den);
            s[i] <= QuantileOfSorted(s, num, den) <= s[if i + 1 < |s| then i + 1 else i]
  {
    var i := Rank(|s|, num, den);
    if i + 1 < |s| {
      InterpolateBetween(s[i], s[i + 1], Weight(|s|, num, den));
    }
  }

  /** A quantile is bracketed by values of the column. */
  lemma QuantileWithinValues(xs: seq<real>, num: nat, den: nat)
    requires |xs| > 0 && 0 < den && num <= den
    ensures exists i :: 0 <= i < |xs| && xs[i] <= Quantile(xs, num, den)
    ensures exists j :: 0 <= j < |xs| && Quantile(xs, num, den) <= xs[j]
  {
    var s := SortValues(xs);
    QuantileOfSortedBetween(s, num, den);
    var i := Rank(|s|, num, den);
    var k := if i + 1 < |s| then i + 1 else i;
    assert s[i] in multiset(xs) && s[k] in multiset(xs);
    var lo :| 0 <= lo < |xs| && xs[lo] == s[i];
    var hi :| 0 <= hi < |xs| && xs[hi] == s[k];
  }

  lemma RankMonotone(n: nat, a: nat, b: nat, den: nat)
    requires 0 < n && 0 < den && a <= b <= den
    ensures Rank(n, a, den) <= Rank(n, b, den)
    ensures Rank(n, a, den) == Rank(n, b, den) ==> Weight(n, a, den) <= Weight(n, b, den)
  {
    var pa, pb := (n - 1) * a, (n - 1) * b;
    MulMonotone(n - 1, a, b);
    var ia, ib := Rank(n, a, den), Rank(n, b, den);
    assert ia * den <= pa < (ia + 1) * den && ib * den <= pb < (ib + 1) * den;
    if ia > ib {
      MulMonotone(den, ib + 1, ia);
      assert false;
    }
    if ia == ib {
      DivRealMonotone(pa - ia * den, pb - ib * den, den);
    }
  }

  lemma DivRealMonotone(x: int, y: int, den: nat)
    requires x <= y && 0 < den
    ensures x as real / den as real <= y as real / den as real
  {
  }

  /** The quantile function is monotone in the fraction: Q(a/d) <= Q(b/d) when a <= b. */
  lemma QuantileMonotone(xs: seq<real>, a: nat, b: nat, den: nat)
    requires |xs| > 0 && 0 < den && a <= b <= den
    ensures Quantile(xs, a, den) <= Quantile(xs, b, den)
  {
    var s := SortValues(xs);
    var n := |s|;
    RankMonotone(n, a, b, den);
    var ia, ib := Rank(n, a, den), Rank(n, b, den);
    QuantileOfSortedBetween(s, a, den);
    QuantileOfSortedBetween(s, b, den);
    if ia == ib {
      if ia + 1 < n {
        InterpolateMonotone(s[ia], s[ia + 1], Weight(n, a, den), Weight(n, b, den));
      }
    } else {
      // Q(a) <= s[ia + 1] <= s[ib] <= Q(b)
      assert s[ia + 1] <= s[ib];
    }
  }

  /** Q(0) is the smallest value and Q(1) the largest. */
  lemma QuantileEndpoints(xs: seq<real>, den: nat)
    requires |xs| > 0 && 0 < den
    ensures forall i :: 0 <= i < |xs| ==> Quantile(xs, 0, den) <= xs[i] <= Quantile(xs, den, den)
    ensures Quantile(xs, 0, den) in xs && Quantile(xs, den, den) in xs
  {
    var s := SortValues(xs);
    var n := |s|;
    assert s[0] in multiset(xs) && s[n - 1] in multiset(xs);
    assert Rank(n, 0, den) == 0;
    assert QuantileOfSorted(s, 0, den) == s[0] by {
      if n > 1 {
        assert Weight(n, 0, den) == 0.0;
        assert Interpolate(s[0], s[1], 0.0) == s[0];
      }
    }
    RankOfWhole(n, den);
    assert QuantileOfSorted(s, den, den) == s[n - 1];
    forall i | 0 <= i < |xs| ensures s[0] <= xs[i] <= s[n - 1] {
      assert xs[i] in multiset(s);
      var k :| 0 <= k < n && s[k] == xs[i];
    }
  }

  lemma RankOfWhole(n: nat, den: nat)
    requires 0 < n && 0 < den
    ensures Rank(n, den, den) == n - 1
  {
    var i := Rank(n, den, den);
    if i < n - 1 {
      MulMonotone(den, i + 1, n - 1);
    }
  }

  /** The quantile depends on the values only, not on the row order. */
  lemma QuantileIgnoresOrder(xs: seq<real>, ys: seq<real>, num: nat, den: nat)
    requires |xs| > 0 && 0 < den && num <= den
    requires multiset(xs) == multiset(ys)
    ensures |ys| > 0 && Quantile(xs, num, den) == Quantile(ys, num, den)
  {
    assert |xs| == |multiset(xs)| == |ys|;
    SortedUnique(SortValues(xs), SortValues(ys));
  }

  /** If every value is `v`, every quantile is `v`. */
  lemma QuantileOfConstant(xs: seq<real>, v: real, num: nat, den: nat)
    requires |xs| > 0 && 0 < den && num <= den
    requires forall i :: 0 <= i < |xs| ==> xs[i] == v
    ensures Quantile(xs, num, den) == v
  {
    var s := SortValues(xs);
    forall k | 0 <= k < |s| ensures s[k] == v {
      assert s[k] in multiset(xs);
    }
    QuantileOfSortedBetween(s, num, den);
  }

  /** The outlier fences: Q1 - 1.5 IQR and Q3 + 1.5 IQR. */
  datatype Fences = Fences(lower: real, upper: real)

  function Q1(xs: seq<real>): real requires |xs| > 0 { Quantile(xs, 1, 4) }
  function Q3(xs: seq<real>): real requires |xs| > 0 { Quantile(xs, 3, 4) }

  /**
   * The fences of a column; an empty column has no quartiles (NaN), which
   * the model writes as `None`.
   */
  function IqrFences(xs: seq<real>): (f: Option<Fences>)
    ensures f.None? <==> |xs| == 0
    ensures f.Some? ==> f.value.lower <= Q1(xs) <= Q3(xs) <= f.value.upper
    ensures f.Some? ==> f.value.upper - f.value.lower == 4.0 * (Q3(xs) - Q1(xs))
    ensures f.Some? ==> Q1(xs) - f.value.lower == f.value.upper - Q3(xs)
  {
    if |xs| == 0 then None
    else
      QuantileMonotone(xs, 1, 3, 4);
      var iqr := Q3(xs) - Q1(xs);
      Some(Fences(Q1(xs) - 1.5 * iqr, Q3(xs) + 1.5 * iqr))
  }

  /** The column `column` of the table, as a series of values. */
  function Column<T>(rows: seq<T>, column: T -> real): (xs: seq<real>)
    ensures |xs| == |rows|
    ensures forall i :: 0 <= i < |rows| ==> xs[i] == column(rows[i])
  {
    seq(|rows|, i requires 0 <= i < |rows| => column(rows[i]))
  }

  /** The row mask `lower <= value <= upper`; nothing is inside absent (NaN) fences. */
  predicate InsideFences(v: real, f: Option<Fences>) {
    f.Some? && f.value.lower <= v <= f.value.upper
  }

  /**
   * `remove_outliers`: the rows whose `column` value lies within the IQR
   * fences of that column, in their original order, each as often as in the
   * input. Nothing is removed for being on a fence.
   */
  function RemoveOutliers<T(!new)>(rows: seq<T>, column: T -> real): (r: seq<T>)
    ensures IsSubsequence(r, rows)
    ensures forall x :: x in r <==> x in rows && InsideFences(column(x), IqrFences(Column(rows, column)))
    ensures forall x :: multiset(r)[x] ==
                        (if InsideFences(column(x), IqrFences(Column(rows, column))) then multiset(rows)[x] else 0)
    ensures |rows| == 0 ==> r == []
  {
    var p := KeepMask(column, IqrFences(Column(rows, column)));
    FilterIsSubsequence(rows, p);
    Filter(rows, p)
  }

  /** The mask of the rows kept by the fences `f`. */
  function KeepMask<T>(column: T -> real, f: Option<Fences>): T -> bool {
    x => InsideFences(column(x), f)
  }

  /** The middle half of the values, between the quartiles, is always kept. */
  lemma MiddleHalfKept<T(!new)>(rows: seq<T>, column: T -> real, x: T)
    requires x in rows
    requires Q1(Column(rows, column)) <= column(x) <= Q3(Column(rows, column))
    ensures x in RemoveOutliers(rows, column)
  {
  }

  /**
   * If the column holds a single value, the IQR is 0, both fences equal that
   * value, and every row is kept.
   */
  lemma ConstantColumnKeepsAll<T(!new)>(rows: seq<T>, column: T -> real, v: real)
    requires forall i :: 0 <= i < |rows| ==> column(rows[i]) == v
    ensures |rows| > 0 ==> IqrFences(Column(rows, column)) == Some(Fences(v, v))
    ensures RemoveOutliers(rows, column) == rows
  {
    var xs := Column(rows, column);
    if |rows| > 0 {
      ConstantFences(xs, v);
    }
    FilterKeepsAll(rows, KeepMask(column, IqrFences(xs)));
  }

  lemma ConstantFences(xs: seq<real>, v: real)
    requires |xs| > 0 && forall i :: 0 <= i < |xs| ==> xs[i] == v
    ensures IqrFences(xs) == Some(Fences(v, v))
  {
    QuantileOfConstant(xs, v, 1, 4);
    QuantileOfConstant(xs, v, 3, 4);
  }
}
