/**
 * `analyze_monthly_trends`: revenue and distinct order count per calendar
 * month over the rows purchased in the selected range, and the
 * month-over-month percentage changes the dashboard derives from them.
 */
module MonthlyTrends {
  import opened Seqs
  import opened Grouping
  import opened Calendar
  import opened Orders

  /** One row of the monthly table: `total_orders` and `total_revenue` of a month. */
  datatype MonthlyStat = MonthlyStat(month: YearMonth, totalOrders: nat, totalRevenue: real)

  /** The range's rows purchased in month `m`. */
  function MonthRows(rows: seq<Order>, startTs: int, endTs: int, m: YearMonth): seq<Order> {
    Where(InRange(rows, startTs, endTs), PurchaseMonth, m)
  }

  /** The statistics of month `m` over `filtered`: distinct order ids and summed payments. */
  function MonthStat(filtered: seq<Order>, m: YearMonth): MonthlyStat {
    var g := Where(filtered, PurchaseMonth, m);
    MonthlyStat(m, |KeySet(g, OrderIdOf)|, SumOf(g, PaymentOf))
  }

  function MonthStats(filtered: seq<Order>, months: seq<YearMonth>): (r: seq<MonthlyStat>)
    ensures |r| == |months|
    ensures forall i :: 0 <= i < |months| ==> r[i] == MonthStat(filtered, months[i])
  {
    if |months| == 0 then [] else [MonthStat(filtered, months[0])] + MonthStats(filtered, months[1..])
  }

  /**
   * `analyze_monthly_trends(df, start, end)`: one row per calendar month in
   * which some row of the range was purchased, in chronological order, and
   * no other rows.
   */
  function AnalyzeMonthlyTrends(rows: seq<Order>, startTs: int, endTs: int): (r: seq<MonthlyStat>)
    ensures forall i, j :: 0 <= i < j < |r| ==> MonthBefore(r[i].month, r[j].month)
    ensures forall m :: m in KeySet(InRange(rows, startTs, endTs), PurchaseMonth) <==>
                        exists i :: 0 <= i < |r| && r[i].month == m
    ensures |r| == |KeySet(InRange(rows, startTs, endTs), PurchaseMonth)|
  {
    var filtered := InRange(rows, startTs, endTs);
    MonthBeforeIsStrictTotalOrder();
    var months := GroupKeys(filtered, PurchaseMonth, MonthBefore);
    StatsFollowMonths(filtered, months);
    MonthStats(filtered, months)
  }

  lemma StatsFollowMonths(filtered: seq<Order>, months: seq<YearMonth>)
    ensures var r := MonthStats(filtered, months);
            && (forall i :: 0 <= i < |r| ==> r[i].month == months[i])
            && (forall m :: m in months <==> exists i :: 0 <= i < |r| && r[i].month == m)
  {
    var r := MonthStats(filtered, months);
    forall m | m in months ensures exists i :: 0 <= i < |r| && r[i].month == m {
      var i :| 0 <= i < |months| && months[i] == m;
      assert r[i].month == m;
    }
  }

  /**
   * The monthly rows follow the purchase moments: every row of the range in
   * an earlier listed month was purchased before every row in a later one.
   */
  lemma MonthlyRowsChronological(rows: seq<Order>, startTs: int, endTs: int, i: nat, j: nat, a: Order, b: Order)
    requires i < j < |AnalyzeMonthlyTrends(rows, startTs, endTs)|
    requires a in MonthRows(rows, startTs, endTs, AnalyzeMonthlyTrends(rows, startTs, endTs)[i].month)
    requires b in MonthRows(rows, startTs, endTs, AnalyzeMonthlyTrends(rows, startTs, endTs)[j].month)
    ensures a.purchaseTs < b.purchaseTs
  {
    var r := AnalyzeMonthlyTrends(rows, startTs, endTs);
    var ga := MonthRows(rows, startTs, endTs, r[i].month);
    var gb := MonthRows(rows, startTs, endTs, r[j].month);
    var ia :| 0 <= ia < |ga| && ga[ia] == a;
    var ib :| 0 <= ib < |gb| && gb[ib] == b;
    assert MonthBefore(PurchaseMonth(a), PurchaseMonth(b));
    if b.purchaseTs <= a.purchaseTs {
      MonthOfMonotone(b.purchaseTs, a.purchaseTs);
      assert false;
    }
  }

  /**
   * Each monthly row: `total_orders` counts the distinct order ids among the
   * month's rows in the range, which is at least 1 and at most the number of
   * those rows, equal to it exactly when no order has several payment rows;
   * `total_revenue` is the sum of their payment values.
   */
  lemma MonthlyStatMeaning(rows: seq<Order>, startTs: int, endTs: int, i: nat)
    requires i < |AnalyzeMonthlyTrends(rows, startTs, endTs)|
    ensures var stat := AnalyzeMonthlyTrends(rows, startTs, endTs)[i];
            var g := MonthRows(rows, startTs, endTs, stat.month);
            && stat.totalOrders == |KeySet(g, OrderIdOf)|
            && stat.totalRevenue == SumOf(g, PaymentOf)
            && 1 <= stat.totalOrders <= |g|
            && (stat.totalOrders == |g| <==> forall a, b :: 0 <= a < b < |g| ==> g[a].orderId != g[b].orderId)
  {
    var filtered := InRange(rows, startTs, endTs);
    MonthBeforeIsStrictTotalOrder();
    var months := GroupKeys(filtered, PurchaseMonth, MonthBefore);
    assert AnalyzeMonthlyTrends(rows, startTs, endTs)[i] == MonthStat(filtered, months[i]);
    MonthStatCounts(filtered, months[i]);
  }

  lemma MonthStatCounts(filtered: seq<Order>, m: YearMonth)
    requires m in KeySet(filtered, PurchaseMonth)
    ensures var g := Where(filtered, PurchaseMonth, m);
            var stat := MonthStat(filtered, m);
            && 1 <= stat.totalOrders <= |g|
            && (stat.totalOrders == |g| <==> forall a, b :: 0 <= a < b < |g| ==> g[a].orderId != g[b].orderId)
  {
    var g := Where(filtered, PurchaseMonth, m);
    DistinctCountBound(g, OrderIdOf);
    assert g[0].orderId in KeySet(g, OrderIdOf);
  }

  function TotalRevenue(r: seq<MonthlyStat>): real {
    SumOf(r, RevenueOf)
  }

  function RevenueOf(stat: MonthlyStat): real { stat.totalRevenue }

  lemma {:induction false} MonthStatsRevenue(filtered: seq<Order>, months: seq<YearMonth>)
    ensures TotalRevenue(MonthStats(filtered, months)) == SumAcross(filtered, PurchaseMonth, months, PaymentOf)
  {
    if |months| > 0 {
      MonthStatsRevenue(filtered, months[1..]);
    }
  }

  /** The months' revenues add up to the total payment value of the range. */
  lemma MonthlyRevenueTotal(rows: seq<Order>, startTs: int, endTs: int)
    ensures TotalRevenue(AnalyzeMonthlyTrends(rows, startTs, endTs)) == SumOf(InRange(rows, startTs, endTs), PaymentOf)
  {
    var filtered := InRange(rows, startTs, endTs);
    MonthBeforeIsStrictTotalOrder();
    var months := GroupKeys(filtered, PurchaseMonth, MonthBefore);
    SortedIsDistinct(months, MonthBefore);
    MonthStatsRevenue(filtered, months);
    GroupSumsPartition(filtered, PurchaseMonth, months, PaymentOf);
  }

  /**
   * A percentage change as pandas computes it in floating point: absent
   * (NaN) where there is no previous value or both are 0, infinite where
   * only the previous value is 0.
   */
  datatype Change = Absent | Percent(value: real) | PlusInfinity | MinusInfinity

  /** `(current / previous - 1) * 100`. */
  function ChangeFrom(previous: real, current: real): (c: Change)
    ensures previous != 0.0 ==> c.Percent?
    ensures previous == 0.0 ==> (c == Absent <==> current == 0.0)
    ensures previous == 0.0 && current > 0.0 ==> c == PlusInfinity
    ensures previous == 0.0 && current < 0.0 ==> c == MinusInfinity
  {
    if previous != 0.0 then Percent((current / previous - 1.0) * 100.0)
    else if current > 0.0 then PlusInfinity
    else if current < 0.0 then MinusInfinity
    else Absent
  }

  /** `Series.pct_change() * 100`: nothing for the first value, then each value against its predecessor. */
  function PctChange(xs: seq<real>): (r: seq<Change>)
    ensures |r| == |xs|
    ensures |xs| > 0 ==> r[0] == Absent
    ensures forall i :: 0 < i < |xs| ==> r[i] == ChangeFrom(xs[i - 1], xs[i])
  {
    seq(|xs|, i requires 0 <= i < |xs| => if i == 0 then Absent else ChangeFrom(xs[i - 1], xs[i]))
  }

  /** The difference between two values as a percentage of the first. */
  function RelativeChange(previous: real, current: real): real
    requires previous != 0.0
  {
    (current - previous) / previous * 100.0
  }

  /**
   * A finite change is the difference over the previous value in percent,
   * and applying it to the previous value gives back the current one.
   */
  lemma ChangeFromInverse(previous: real, current: real)
    requires previous != 0.0
    ensures ChangeFrom(previous, current).value == RelativeChange(previous, current)
    ensures current == previous * (1.0 + ChangeFrom(previous, current).value / 100.0)
  {
    var q := current / previous;
    QuotientUnique(current, previous, q);
    QuotientUnique(current - previous, previous, q - 1.0);
  }

  /** `x / p` is the one `y` with `y * p == x`. */
  lemma QuotientUnique(x: real, p: real, y: real)
    requires p != 0.0
    ensures y * p == x <==> x / p == y
  {
  }

  /** From a positive previous value, the change is positive exactly when the value grew. */
  lemma ChangeSignFollowsGrowth(previous: real, current: real)
    requires previous > 0.0
    ensures ChangeFrom(previous, current).value > 0.0 <==> current > previous
    ensures ChangeFrom(previous, current).value == 0.0 <==> current == previous
  {
    ChangeFromInverse(previous, current);
    var v := ChangeFrom(previous, current).value;
    assert current - previous == previous * (v / 100.0);
  }

  /** A month with revenue 1500 after a month with revenue 1000 shows a change of 50 percent. */
  lemma RevenueChangeExample()
    ensures PctChange([1000.0, 1500.0]) == [Absent, Percent(50.0)]
  {
    assert PctChange([1000.0, 1500.0])[1] == ChangeFrom(1000.0, 1500.0);
  }

  /** One row of the monthly table with its two percentage-change columns. */
  datatype MonthlyTrend = MonthlyTrend(stat: MonthlyStat, revenuePctChange: Change, ordersPctChange: Change)

  function Revenues(stats: seq<MonthlyStat>): (xs: seq<real>)
    ensures |xs| == |stats| && forall i :: 0 <= i < |stats| ==> xs[i] == stats[i].totalRevenue
  {
    seq(|stats|, i requires 0 <= i < |stats| => stats[i].totalRevenue)
  }

  function OrderCounts(stats: seq<MonthlyStat>): (xs: seq<real>)
    ensures |xs| == |stats| && forall i :: 0 <= i < |stats| ==> xs[i] == stats[i].totalOrders as real
  {
    seq(|stats|, i requires 0 <= i < |stats| => stats[i].totalOrders as real)
  }

  /** The monthly table with `revenue_pct_change` and `orders_pct_change` added. */
  function WithPctChanges(stats: seq<MonthlyStat>): (r: seq<MonthlyTrend>)
    ensures |r| == |stats|
    ensures forall i :: 0 <= i < |r| ==> r[i].stat == stats[i]
    ensures |r| > 0 ==> r[0].revenuePctChange == Absent && r[0].ordersPctChange == Absent
    ensures forall i :: 0 < i < |r| ==>
              && r[i].revenuePctChange == ChangeFrom(stats[i - 1].totalRevenue, stats[i].totalRevenue)
              && r[i].ordersPctChange == ChangeFrom(stats[i - 1].totalOrders as real, stats[i].totalOrders as real)
  {
    var revenue := PctChange(Revenues(stats));
    var orders := PctChange(OrderCounts(stats));
    seq(|stats|, i requires 0 <= i < |stats| => MonthlyTrend(stats[i], revenue[i], orders[i]))
  }

  /** Every month in the monthly table has at least one order. */
  lemma MonthsHaveOrders(rows: seq<Order>, startTs: int, endTs: int)
    ensures var stats := AnalyzeMonthlyTrends(rows, startTs, endTs);
            forall i :: 0 <= i < |stats| ==> stats[i].totalOrders >= 1
  {
    var stats := AnalyzeMonthlyTrends(rows, startTs, endTs);
    forall i | 0 <= i < |stats| ensures stats[i].totalOrders >= 1 {
      MonthlyStatMeaning(rows, startTs, endTs, i);
    }
  }

  /**
   * The trend table of months that all have orders (as `MonthsHaveOrders`
   * shows the dashboard's do): the first month has no changes; every later
   * month's order change is finite and is the relative change against the
   * previous month, and its revenue change is taken against the previous
   * month's revenue.
   */
  lemma TrendTableChanges(stats: seq<MonthlyStat>)
    requires forall i :: 0 <= i < |stats| ==> stats[i].totalOrders >= 1
    ensures var t := WithPctChanges(stats);
            && (|t| > 0 ==> t[0].revenuePctChange == Absent && t[0].ordersPctChange == Absent)
            && forall i {:trigger t[i]} :: 0 < i < |t| ==>
                 && t[i].ordersPctChange.Percent?
                 && t[i].ordersPctChange.value ==
                      RelativeChange(stats[i - 1].totalOrders as real, stats[i].totalOrders as real)
                 && t[i].revenuePctChange == ChangeFrom(stats[i - 1].totalRevenue, stats[i].totalRevenue)
  {
    var t := WithPctChanges(stats);
    forall i | 0 < i < |t|
      ensures && t[i].ordersPctChange.Percent?
              && t[i].ordersPctChange.value ==
                   RelativeChange(stats[i - 1].totalOrders as real, stats[i].totalOrders as real)
              && t[i].revenuePctChange == ChangeFrom(stats[i - 1].totalRevenue, stats[i].totalRevenue)
    {
      TrendAt(stats, i);
    }
  }

  /** The changes of month `i > 0` against month `i - 1`, for a previous month with orders. */
  lemma TrendAt(stats: seq<MonthlyStat>, i: nat)
    requires 0 < i < |stats| && stats[i - 1].totalOrders >= 1
    ensures var t := WithPctChanges(stats);
            && t[i].ordersPctChange.Percent?
            && t[i].ordersPctChange.value ==
                 RelativeChange(stats[i - 1].totalOrders as real, stats[i].totalOrders as real)
            && t[i].revenuePctChange == ChangeFrom(stats[i - 1].totalRevenue, stats[i].totalRevenue)
  {
    var previous, current := stats[i - 1].totalOrders as real, stats[i].totalOrders as real;
    var t := WithPctChanges(stats);
    assert t[i].ordersPctChange == ChangeFrom(previous, current);
    ChangeFromInverse(previous, current);
  }
}
